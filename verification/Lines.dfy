/** `str.splitlines`, and a printer it inverts. */
module Lines {

  /** The characters at which Python breaks lines; a carriage return takes a line feed after it along. */
  predicate IsBreak(c: char) {
    var n := c as int;
    0x0A <= n <= 0x0D || 0x1C <= n <= 0x1E || n == 0x85 || n == 0x2028 || n == 0x2029
  }

  predicate BreakFree(line: string) {
    forall i :: 0 <= i < |line| ==> !IsBreak(line[i])
  }

  predicate AllBreakFree(lines: seq<string>) {
    forall i :: 0 <= i < |lines| ==> BreakFree(lines[i])
  }

  function LineLength(text: string): (n: nat)
    ensures n <= |text| && BreakFree(text[..n])
    ensures n < |text| ==> IsBreak(text[n])
  {
    if text == "" || IsBreak(text[0]) then 0
    else
      var n := 1 + LineLength(text[1..]);
      assert text[..n] == [text[0]] + text[1..][..n - 1];
      n
  }

  /** The length of the break that `text` starts with. */
  function BreakLength(text: string): nat {
    if |text| > 1 && text[0] as int == 0x0D && text[1] as int == 0x0A then 2 else 1
  }

  function SplitLines(text: string): (lines: seq<string>)
    ensures AllBreakFree(lines)
    decreases |text|
  {
    if text == "" then []
    else
      var n := LineLength(text);
      if n == |text| then [text]
      else [text[..n]] + SplitLines(text[n..][BreakLength(text[n..])..])
  }

  /** A line break: a carriage return with its line feed, or a break character alone. */
  predicate IsLineEnd(e: string) {
    e == [0x0D as char, 0x0A as char] || (|e| == 1 && IsBreak(e[0]))
  }

  /** The lines, each followed by its end. */
  function JoinLines(lines: seq<string>, ends: seq<string>): string
    requires |lines| == |ends|
  {
    if lines == [] then "" else lines[0] + ends[0] + JoinLines(lines[1..], ends[1..])
  }

  /**
    Break-free lines with their ends.  A carriage return alone is not followed by a line
    feed, and only a last line that is not empty may go without an end.
   */
  predicate Ended(lines: seq<string>, ends: seq<string>) {
    && |lines| == |ends| && AllBreakFree(lines)
    && (lines != [] ==>
          && EndsLine(lines[0], ends[0], JoinLines(lines[1..], ends[1..]))
          && Ended(lines[1..], ends[1..]))
  }

  predicate EndsLine(line: string, end: string, rest: string) {
    if end == "" then line != "" && rest == ""
    else
      && IsLineEnd(end)
      && !(end == [0x0D as char] && rest != "" && rest[0] == 0x0A as char)
  }

  lemma {:induction false} LineLengthOf(line: string, rest: string)
    requires BreakFree(line) && (rest == "" || IsBreak(rest[0]))
    ensures LineLength(line + rest) == |line|
  {
    var text := line + rest;
    if line != "" {
      assert text[1..] == line[1..] + rest;
      LineLengthOf(line[1..], rest);
    } else {
      assert text == rest;
    }
  }

  lemma SplitFirst(line: string, end: string, rest: string)
    requires BreakFree(line) && end != "" && EndsLine(line, end, rest)
    ensures SplitLines(line + end + rest) == [line] + SplitLines(rest)
  {
    var text := line + end + rest;
    assert text == line + (end + rest);
    LineLengthOf(line, end + rest);
    assert text[..|line|] == line && text[|line|..] == end + rest;
    assert BreakLength(end + rest) == |end|;
    assert (end + rest)[|end|..] == rest;
  }

  /** Splitting gives back lines that were joined with any line ends. */
  lemma {:induction false} SplitJoined(lines: seq<string>, ends: seq<string>)
    requires Ended(lines, ends)
    ensures SplitLines(JoinLines(lines, ends)) == lines
    decreases |lines|
  {
    if lines != [] {
      var rest := JoinLines(lines[1..], ends[1..]);
      SplitJoined(lines[1..], ends[1..]);
      if ends[0] == "" {
        LineLengthOf(lines[0], "");
        assert lines[0] + ends[0] + rest == lines[0] && lines[0] + "" == lines[0];
      } else {
        SplitFirst(lines[0], ends[0], rest);
      }
    }
  }

  /** And every text is its lines joined with some line ends. */
  lemma {:induction false} JoinSplit(text: string) returns (ends: seq<string>)
    ensures Ended(SplitLines(text), ends) && JoinLines(SplitLines(text), ends) == text
    decreases |text|
  {
    if text == "" {
      ends := [];
    } else {
      var n := LineLength(text);
      if n == |text| {
        ends := [""];
        assert text[..n] == text;
        assert [text][1..] == [];
      } else {
        var m := BreakLength(text[n..]);
        var rest := text[n..][m..];
        var after := JoinSplit(rest);
        ends := [text[n..][..m]] + after;
        assert ([text[..n]] + SplitLines(rest))[1..] == SplitLines(rest) && ends[1..] == after;
        assert text == text[..n] + text[n..][..m] + rest;
      }
    }
  }

  function LineFeeds(n: nat): (ends: seq<string>)
    ensures |ends| == n
  {
    if n == 0 then [] else ["\n"] + LineFeeds(n - 1)
  }

  lemma {:induction false} LineFeedsEnd(lines: seq<string>)
    requires AllBreakFree(lines)
    ensures Ended(lines, LineFeeds(|lines|))
  {
    if lines != [] {
      LineFeedsEnd(lines[1..]);
    }
  }
}
