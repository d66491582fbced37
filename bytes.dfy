/** Byte strings, as Go's `string` and `[]byte` hold them, and the decimal
    notation that `fmt` prints with `%d`. */
module Bytes {
  /** One octet. A Go string is a sequence of these, not of characters. */
  type byte = b: int | 0 <= b < 256

  const TAB: byte := 9
  const NEWLINE: byte := 10
  const SPACE: byte := 32
  const PLUS: byte := 43
  const MINUS: byte := 45
  const COLON: byte := 58
  const PIPE: byte := 124
  const ESC: byte := 27

  /** Largest and smallest value of Go's `int` (64 bits on the platforms the tools target). */
  const MAX_INT: int := 0x7FFF_FFFF_FFFF_FFFF
  const MIN_INT: int := -0x8000_0000_0000_0000

  predicate IsAscii(s: string) {
    forall i :: 0 <= i < |s| ==> s[i] as int < 128
  }

  /** The bytes of an ASCII literal. */
  function Ascii(s: string): (r: seq<byte>)
    requires IsAscii(s)
    ensures |r| == |s|
    ensures forall i :: 0 <= i < |s| ==> r[i] == s[i] as int
  {
    seq(|s|, i requires 0 <= i < |s| => s[i] as int)
  }

  predicate IsDigit(b: byte) {
    '0' as int <= b <= '9' as int
  }

  predicate AllDigits(s: seq<byte>) {
    forall i :: 0 <= i < |s| ==> IsDigit(s[i])
  }

  function DigitByte(d: nat): (b: byte)
    requires d < 10
    ensures IsDigit(b)
  {
    '0' as int + d
  }

  /** `%d` of a non-negative number: its decimal digits, most significant first, no leading zero. */
  function FormatNat(n: nat): (r: seq<byte>)
    ensures |r| > 0 && AllDigits(r)
    ensures |r| > 1 ==> r[0] != '0' as int
    decreases n
  {
    if n < 10 then [DigitByte(n)] else FormatNat(n / 10) + [DigitByte(n % 10)]
  }

  /** `%d` of any integer: a minus sign before the digits of a negative number. */
  function FormatInt(n: int): (r: seq<byte>)
    ensures |r| > 0
    ensures n >= 0 ==> r == FormatNat(n)
    ensures n < 0 ==> r[0] == MINUS && r[1..] == FormatNat(-n)
  {
    if n < 0 then [MINUS] + FormatNat(-n) else FormatNat(n)
  }

  /** The number a run of decimal digits denotes. */
  function DigitsValue(s: seq<byte>): nat
    requires AllDigits(s)
  {
    if s == [] then 0 else DigitsValue(s[..|s| - 1]) * 10 + (s[|s| - 1] - '0' as int)
  }

  /** Reading back what `%d` printed gives the number printed. */
  lemma {:induction false} DigitsValueOfFormatNat(n: nat)
    ensures DigitsValue(FormatNat(n)) == n
    decreases n
  {
    if n >= 10 {
      DigitsValueOfFormatNat(n / 10);
      var s := FormatNat(n);
      assert s[..|s| - 1] == FormatNat(n / 10);
    }
  }

  /** The first index at or after `i` that does not hold a decimal digit (or `|s|`). */
  function DigitEnd(s: seq<byte>, i: nat): (e: nat)
    requires i <= |s|
    ensures i <= e <= |s|
    ensures AllDigits(s[i..e])
    ensures e < |s| ==> !IsDigit(s[e])
    decreases |s| - i
  {
    if i < |s| && IsDigit(s[i]) then DigitEnd(s, i + 1) else i
  }

  /** A run of digits followed by a non-digit (or the end) is exactly what DigitEnd skips. */
  lemma {:induction false} DigitEndOfRun(s: seq<byte>, i: nat, e: nat)
    requires i <= e <= |s|
    requires AllDigits(s[i..e])
    requires e < |s| ==> !IsDigit(s[e])
    ensures DigitEnd(s, i) == e
    decreases e - i
  {
    if i < e {
      assert s[i] == s[i..e][0];
      assert s[i + 1..e] == s[i..e][1..];
      DigitEndOfRun(s, i + 1, e);
    }
  }
}
