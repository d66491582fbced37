/** The parts of Go's `strings` and `unicode/utf8` packages that the tools call,
    on byte strings: `utf8.DecodeRune` (its width only), `unicode.IsSpace` on the
    encoded rune, `strings.TrimSpace`, `strings.Fields`, `strings.Replace(s, old, new, -1)`,
    `strings.HasSuffix` and the search that `bufio.Reader.ReadString` does. */
module GoStrings {
  import opened Bytes

  /** Number of bytes `utf8.DecodeRune` takes for the rune starting at `s[i]`:
      the length of a well-formed UTF-8 sequence, and 1 for a byte that does not
      start one (which decodes as the replacement rune). */
  function RuneWidth(s: seq<byte>, i: nat): (w: nat)
    requires i < |s|
    ensures 1 <= w <= 4 && i + w <= |s|
  {
    var b0 := s[i];
    if b0 < 0xC2 || b0 > 0xF4 then 1
    else
      var size := if b0 < 0xE0 then 2 else if b0 < 0xF0 then 3 else 4;
      var lo := if b0 == 0xE0 then 0xA0 else if b0 == 0xF0 then 0x90 else 0x80;
      var hi := if b0 == 0xED then 0x9F else if b0 == 0xF4 then 0x8F else 0xBF;
      if |s| - i < size then 1
      else if !(lo <= s[i + 1] <= hi) then 1
      else if size == 2 then 2
      else if !(0x80 <= s[i + 2] <= 0xBF) then 1
      else if size == 3 then 3
      else if !(0x80 <= s[i + 3] <= 0xBF) then 1
      else 4
  }

  /** The white-space runes of `unicode.IsSpace`, by the length of their UTF-8
      encoding: the six ASCII spaces; U+0085 and U+00A0; U+1680, U+2000..U+200A,
      U+2028, U+2029, U+202F, U+205F and U+3000. */
  predicate IsSpace1(a: byte) {
    TAB <= a <= 13 || a == SPACE
  }

  predicate IsSpace2(a: byte, b: byte) {
    a == 0xC2 && (b == 0x85 || b == 0xA0)
  }

  predicate IsSpace3(a: byte, b: byte, c: byte) {
    || (a == 0xE1 && b == 0x9A && c == 0x80)
    || (a == 0xE2 && b == 0x80 && (0x80 <= c <= 0x8A || c == 0xA8 || c == 0xA9 || c == 0xAF))
    || (a == 0xE2 && b == 0x81 && c == 0x9F)
    || (a == 0xE3 && b == 0x80 && c == 0x80)
  }

  /** Width of the white-space rune starting at `s[i]`, or 0 when none starts there.
      Every byte after the first of a multi-byte space is 0x80 or more. */
  function SpaceWidth(s: seq<byte>, i: nat): (w: nat)
    requires i <= |s|
    ensures w <= 3 && i + w <= |s|
  {
    if i + 1 <= |s| && IsSpace1(s[i]) then 1
    else if i + 2 <= |s| && IsSpace2(s[i], s[i + 1]) then 2
    else if i + 3 <= |s| && IsSpace3(s[i], s[i + 1], s[i + 2]) then 3
    else 0
  }

  /** Width of the white-space rune that ends `s`, or 0 when the last rune is not
      white space (`utf8.DecodeLastRune` followed by `unicode.IsSpace`). */
  function TrailingSpaceWidth(s: seq<byte>): (w: nat)
    ensures w <= 3 && w <= |s|
  {
    var n := |s|;
    if 1 <= n && IsSpace1(s[n - 1]) then 1
    else if 2 <= n && IsSpace2(s[n - 2], s[n - 1]) then 2
    else if 3 <= n && IsSpace3(s[n - 3], s[n - 2], s[n - 1]) then 3
    else 0
  }

  /** `strings.TrimLeftFunc(s, unicode.IsSpace)`. */
  function TrimLeft(s: seq<byte>): (r: seq<byte>)
    ensures |r| <= |s|
    decreases |s|
  {
    var w := SpaceWidth(s, 0);
    if w > 0 then TrimLeft(s[w..]) else s
  }

  /** `strings.TrimRightFunc(s, unicode.IsSpace)`. */
  function TrimRight(s: seq<byte>): (r: seq<byte>)
    ensures |r| <= |s|
    decreases |s|
  {
    var w := TrailingSpaceWidth(s);
    if w > 0 then TrimRight(s[..|s| - w]) else s
  }

  /** `strings.TrimSpace`. */
  function TrimSpace(s: seq<byte>): (r: seq<byte>)
    ensures |r| <= |s|
  {
    TrimRight(TrimLeft(s))
  }

  /** TrimLeft drops a prefix made of white space and leaves none at the front. */
  lemma {:induction false} TrimLeftTrims(s: seq<byte>)
    ensures TrimLeft(s) == s[|s| - |TrimLeft(s)|..]
    ensures SpaceWidth(TrimLeft(s), 0) == 0
    decreases |s|
  {
    var w := SpaceWidth(s, 0);
    if w > 0 {
      TrimLeftTrims(s[w..]);
    }
  }

  /** TrimRight drops a suffix made of white space and leaves none at the end. */
  lemma {:induction false} TrimRightTrims(s: seq<byte>)
    ensures TrimRight(s) == s[..|TrimRight(s)|]
    ensures TrailingSpaceWidth(TrimRight(s)) == 0
    decreases |s|
  {
    var w := TrailingSpaceWidth(s);
    if w > 0 {
      TrimRightTrims(s[..|s| - w]);
    }
  }

  /** TrimSpace leaves a slice of `s` with no white space at either end. */
  lemma TrimSpaceTrims(s: seq<byte>)
    ensures var r := TrimSpace(s);
      && r == s[|s| - |TrimLeft(s)|..][..|r|]
      && SpaceWidth(r, 0) == 0 && TrailingSpaceWidth(r) == 0
  {
    var left := TrimLeft(s);
    TrimLeftTrims(s);
    TrimRightTrims(left);
    NoLeadingSpaceOfPrefix(left, TrimRight(left));
  }

  /** A prefix of a string that does not start with white space does not either. */
  lemma NoLeadingSpaceOfPrefix(s: seq<byte>, t: seq<byte>)
    requires SpaceWidth(s, 0) == 0 && t <= s
    ensures SpaceWidth(t, 0) == 0
  {
  }

  /** A string with no white space at either end is its own TrimSpace. */
  lemma TrimSpaceOfTrimmed(s: seq<byte>)
    requires SpaceWidth(s, 0) == 0 && TrailingSpaceWidth(s) == 0
    ensures TrimSpace(s) == s
  {
  }

  /** The first index at or after `i` that is not inside white space (or `|s|`). */
  function SkipSpaces(s: seq<byte>, i: nat): (j: nat)
    requires i <= |s|
    ensures i <= j <= |s|
    ensures j < |s| ==> SpaceWidth(s, j) == 0
    decreases |s| - i
  {
    var w := SpaceWidth(s, i);
    if w > 0 then SkipSpaces(s, i + w) else i
  }

  /** The first index at or after `i` where white space starts (or `|s|`). */
  function FieldEnd(s: seq<byte>, i: nat): (j: nat)
    requires i <= |s|
    ensures i <= j <= |s|
    ensures j < |s| ==> SpaceWidth(s, j) > 0
    ensures forall k :: i <= k < j ==> SpaceWidth(s, k) == 0
    decreases |s| - i
  {
    if i == |s| || SpaceWidth(s, i) > 0 then i else FieldEnd(s, i + 1)
  }

  /** `strings.Fields`: the maximal runs of non-white-space bytes, in order. */
  function Fields(s: seq<byte>): (r: seq<seq<byte>>)
    ensures forall k :: 0 <= k < |r| ==> |r[k]| > 0
    decreases |s|
  {
    var i := SkipSpaces(s, 0);
    if i == |s| then []
    else
      var j := FieldEnd(s, i);
      [s[i..j]] + Fields(s[j..])
  }

  /** The first index at or after `i` that holds byte `b`, or `|s|` when there is none. */
  function IndexOf(s: seq<byte>, i: nat, b: byte): (j: nat)
    requires i <= |s|
    ensures i <= j <= |s|
    ensures j < |s| ==> s[j] == b
    decreases |s| - i
  {
    if i == |s| || s[i] == b then i else IndexOf(s, i + 1, b)
  }

  /** No byte before the one IndexOf finds is `b`. */
  lemma {:induction false} IndexOfSkips(s: seq<byte>, i: nat, b: byte)
    requires i <= |s|
    ensures forall k :: i <= k < IndexOf(s, i, b) ==> s[k] != b
    decreases |s| - i
  {
    if i < |s| && s[i] != b {
      IndexOfSkips(s, i + 1, b);
    }
  }

  /** IndexOf finds the first `b`. */
  lemma {:induction false} IndexOfFirst(s: seq<byte>, i: nat, b: byte, j: nat)
    requires i <= j < |s| && s[j] == b
    requires forall k :: i <= k < j ==> s[k] != b
    ensures IndexOf(s, i, b) == j
    decreases j - i
  {
    if i < j { IndexOfFirst(s, i + 1, b, j); }
  }

  /** `strings.HasSuffix`. */
  predicate HasSuffix<T(==)>(s: seq<T>, suffix: seq<T>) {
    |suffix| <= |s| && s[|s| - |suffix|..] == suffix
  }

  /** `pattern` occurs in `s` at index `i`. */
  predicate OccursAt(s: seq<byte>, pattern: seq<byte>, i: int) {
    0 <= i <= |s| - |pattern| && s[i..i + |pattern|] == pattern
  }

  /** `pattern` occurs somewhere in `s`. */
  ghost predicate Occurs(s: seq<byte>, pattern: seq<byte>) {
    exists i :: OccursAt(s, pattern, i)
  }

  /** `strings.Replace(s, pattern, replacement, -1)`: every non-overlapping occurrence of `pattern`,
      leftmost first, replaced by `replacement`. An empty `pattern` matches before every rune and
      at the end. */
  function ReplaceAll(s: seq<byte>, pattern: seq<byte>, replacement: seq<byte>): (r: seq<byte>)
    decreases |s|
  {
    if pattern == [] then
      if s == [] then replacement
      else
        var w := RuneWidth(s, 0);
        replacement + s[..w] + ReplaceAll(s[w..], pattern, replacement)
    else if |s| < |pattern| then s
    else if s[..|pattern|] == pattern then replacement + ReplaceAll(s[|pattern|..], pattern, replacement)
    else [s[0]] + ReplaceAll(s[1..], pattern, replacement)
  }

  /** Where `pattern` does not occur, nothing is replaced. */
  lemma {:induction false} ReplaceAllAbsent(s: seq<byte>, pattern: seq<byte>, replacement: seq<byte>)
    requires pattern != [] && !Occurs(s, pattern)
    ensures ReplaceAll(s, pattern, replacement) == s
    decreases |s|
  {
    if |s| >= |pattern| {
      assert !OccursAt(s, pattern, 0);
      forall i | 0 <= i <= |s| - 1 - |pattern|
        ensures !OccursAt(s[1..], pattern, i)
      {
        assert s[1..][i..i + |pattern|] == s[i + 1..i + 1 + |pattern|];
        assert !OccursAt(s, pattern, i + 1);
      }
      ReplaceAllAbsent(s[1..], pattern, replacement);
    }
  }

  /** Every occurrence is replaced: a string that is just `pattern` becomes `replacement`, and
      an occurrence at the front is replaced before anything after it is looked at. */
  lemma ReplaceAllAtFront(pattern: seq<byte>, rest: seq<byte>, replacement: seq<byte>)
    requires pattern != []
    ensures ReplaceAll(pattern + rest, pattern, replacement) == replacement + ReplaceAll(rest, pattern, replacement)
  {
    assert (pattern + rest)[..|pattern|] == pattern;
    assert (pattern + rest)[|pattern|..] == rest;
  }
}
