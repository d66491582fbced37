/** Highlighting and line printing (modules/utils/utils.go). */
module Utils {
  import opened Bytes

  /** ANSI escape sequences: bright red, bright green, reset. Each is 5 or 4 bytes. */
  const RED: seq<byte> := [ESC, 91, 57, 49, 109]     // ESC [ 9 1 m
  const GREEN: seq<byte> := [ESC, 91, 57, 50, 109]   // ESC [ 9 2 m
  const RESET: seq<byte> := [ESC, 91, 48, 109]       // ESC [ 0 m

  /** `ColorText`: red and green wrap the text in a colour sequence and a reset;
      any other colour name leaves it alone. */
  function ColorText(text: seq<byte>, color: string): (r: seq<byte>)
    ensures color == "red" || color == "green" ==>
      |r| == |text| + 9 && r[5..5 + |text|] == text && r[5 + |text|..] == RESET
    ensures color == "red" ==> r[..5] == RED
    ensures color == "green" ==> r[..5] == GREEN
    ensures color != "red" && color != "green" ==> r == text
  {
    if color == "red" then RED + text + RESET
    else if color == "green" then GREEN + text + RESET
    else text
  }

  /** `PrintLine`: the bytes written for one output line. With line numbers, the
      decimal number in green and a colon come first; the line itself always ends
      the output, followed by a newline. */
  function PrintLine(line: seq<byte>, lineNumber: int, printLineNumbers: bool): (r: seq<byte>)
    ensures |r| > |line| && r[|r| - |line| - 1..] == line + [NEWLINE]
    ensures !printLineNumbers ==> r == line + [NEWLINE]
    ensures printLineNumbers ==>
      var digits := FormatInt(lineNumber);
      && |r| == |digits| + |line| + 11
      && r[..5] == GREEN && r[5..5 + |digits|] == digits
      && r[5 + |digits|..10 + |digits|] == RESET + [COLON]
  {
    var prefix := if printLineNumbers then ColorText(FormatInt(lineNumber), "green") + [COLON] else [];
    prefix + line + [NEWLINE]
  }

  /** The number in a numbered line reads back as the line number. */
  lemma PrintLineNumberReadsBack(line: seq<byte>, n: nat)
    ensures var r := PrintLine(line, n, true);
      AllDigits(r[5..5 + |FormatNat(n)|]) && DigitsValue(r[5..5 + |FormatNat(n)|]) == n
  {
    DigitsValueOfFormatNat(n);
  }
}
