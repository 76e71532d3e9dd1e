/** String building and splitting used by the generated SQL and the error messages. */
module Text {

  /** The character of decimal digit `d`. */
  function DigitChar(d: nat): (c: char)
    requires d < 10
    ensures '0' <= c <= '9'
  {
    (('0' as int) + d) as char
  }

  /** The decimal digits of `n`, most significant first. */
  function NatToString(n: nat): (s: string)
    ensures |s| > 0
    ensures forall i :: 0 <= i < |s| ==> '0' <= s[i] <= '9'
    decreases n
  {
    if n < 10 then [DigitChar(n)] else NatToString(n / 10) + [DigitChar(n % 10)]
  }

  /** A `long` as Java's `%d` prints it under a locale whose zero digit is '0': an optional minus sign and ASCII decimal digits. */
  function LongToString(x: int): (s: string)
    ensures |s| > 0
    ensures forall i :: 0 <= i < |s| ==> s[i] == '-' || '0' <= s[i] <= '9'
    ensures '\n' !in s
  {
    if x < 0 then "-" + NatToString(-x) else NatToString(x)
  }

  /** Each line followed by a newline, as a StringBuilder collects lines appended with "\n". */
  function JoinLines(lines: seq<string>): string
  {
    if lines == [] then "" else lines[0] + "\n" + JoinLines(lines[1..])
  }

  /** The index of the first occurrence of `c` in `s`. */
  function IndexOf(s: string, c: char): (i: nat)
    requires c in s
    ensures i < |s| && s[i] == c && c !in s[..i]
  {
    if s[0] == c then 0 else 1 + IndexOf(s[1..], c)
  }

  /** The pieces of `s` between newlines; a string without a newline is one line. */
  function SplitLines(s: string): (lines: seq<string>)
    ensures |lines| > 0
    decreases |s|
  {
    if '\n' !in s then [s]
    else
      var i := IndexOf(s, '\n');
      [s[..i]] + SplitLines(s[i + 1..])
  }

  /** Appending one line at the end of a joined text appends its text and a newline. */
  lemma {:induction false} JoinLinesAppend(lines: seq<string>, line: string)
    ensures JoinLines(lines + [line]) == JoinLines(lines) + line + "\n"
    decreases |lines|
  {
    if lines == [] {
      assert lines + [line] == [line];
    } else {
      assert (lines + [line])[1..] == lines[1..] + [line];
      JoinLinesAppend(lines[1..], line);
    }
  }

  /** A text split at its first newline: the line before it, then the rest split. */
  lemma SplitLinesCons(a: string, rest: string)
    requires '\n' !in a
    ensures SplitLines(a + "\n" + rest) == [a] + SplitLines(rest)
  {
    var s := a + "\n" + rest;
    assert s[|a|] == '\n';
    assert s[..|a|] == a;
    var i := IndexOf(s, '\n');
    assert i == |a|;
    assert s[i + 1..] == rest;
  }

  /** Splitting a joined text whose lines hold no newline gives the lines back. */
  lemma {:induction false} SplitJoinLines(lines: seq<string>, last: string)
    requires forall i :: 0 <= i < |lines| ==> '\n' !in lines[i]
    requires '\n' !in last
    ensures SplitLines(JoinLines(lines) + last) == lines + [last]
    decreases |lines|
  {
    if lines == [] {
      assert JoinLines(lines) + last == last;
    } else {
      var rest := JoinLines(lines[1..]) + last;
      assert JoinLines(lines) + last == lines[0] + "\n" + rest;
      SplitLinesCons(lines[0], rest);
      SplitJoinLines(lines[1..], last);
      assert lines == [lines[0]] + lines[1..];
    }
  }
}
