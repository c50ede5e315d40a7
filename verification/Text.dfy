/**
  The string operations the commercial and evidence code is built on: `strip`, `lower`,
  `split`, `join` and the two slot normalisers made from them.  White space is Python's;
  case folding covers ASCII and the Russian alphabet, other characters are left alone.
 */
module Text {
  import opened Seqs

  // ----- characters -----

  predicate IsSpace(c: char) {
    var n := c as int;
    || 0x09 <= n <= 0x0D || 0x1C <= n <= 0x20 || n == 0x85 || n == 0xA0 || n == 0x1680
    || 0x2000 <= n <= 0x200A || n == 0x2028 || n == 0x2029 || n == 0x202F || n == 0x205F
    || n == 0x3000
  }

  function LowerChar(c: char): (r: char)
    ensures IsSpace(r) <==> IsSpace(c)
  {
    var n := c as int;
    if 'A' <= c <= 'Z' || 0x410 <= n <= 0x42F then (n + 0x20) as char
    else if 0x400 <= n <= 0x40F then (n + 0x50) as char
    else c
  }

  /** A character that the slot normalisers keep, up to its case. */
  predicate IsLetter(c: char) {
    !IsSpace(c) && LowerChar(c) != '_'
  }

  function UpperChar(c: char): char {
    var n := c as int;
    if 'a' <= c <= 'z' || 0x430 <= n <= 0x44F then (n - 0x20) as char
    else if 0x450 <= n <= 0x45F then (n - 0x50) as char
    else c
  }

  function Upper(s: string): string {
    seq(|s|, i requires 0 <= i < |s| => UpperChar(s[i]))
  }

  predicate Fixed(s: string) {
    forall c :: c in s ==> LowerChar(c) == c
  }

  predicate Spaceless(s: string) {
    forall c :: c in s ==> !IsSpace(c)
  }

  function Lower(s: string): (r: string)
    ensures |r| == |s|
    ensures forall i :: 0 <= i < |s| ==> r[i] == LowerChar(s[i])
    ensures Fixed(r)
  {
    seq(|s|, i requires 0 <= i < |s| => LowerChar(s[i]))
  }

  function UnderscoresToSpaces(s: string): (r: string)
    ensures |r| == |s|
    ensures forall i :: 0 <= i < |s| ==> r[i] == if s[i] == '_' then ' ' else s[i]
  {
    seq(|s|, i requires 0 <= i < |s| => if s[i] == '_' then ' ' else s[i])
  }

  // ----- strip -----

  function StripLeft(s: string): (r: string)
    ensures r != [] ==> !IsSpace(r[0])
  {
    if s != [] && IsSpace(s[0]) then StripLeft(s[1..]) else s
  }

  function StripRight(s: string): (r: string)
    ensures r != [] ==> s != [] && r[0] == s[0] && !IsSpace(r[|r| - 1])
  {
    if s != [] && IsSpace(s[|s| - 1]) then StripRight(s[..|s| - 1]) else s
  }

  function Strip(s: string): (r: string)
    ensures Trimmed(r)
  {
    StripRight(StripLeft(s))
  }

  lemma {:induction false} StripLeftKeepsAbsence(s: string, c: char)
    requires c !in s
    ensures c !in StripLeft(s)
  {
    if s != [] {
      StripLeftKeepsAbsence(s[1..], c);
    }
  }

  lemma {:induction false} StripRightKeepsAbsence(s: string, c: char)
    requires c !in s
    ensures c !in StripRight(s)
  {
    if s != [] {
      StripRightKeepsAbsence(s[..|s| - 1], c);
    }
  }

  lemma StripKeepsAbsence(s: string, c: char)
    requires c !in s
    ensures c !in Strip(s)
  {
    StripLeftKeepsAbsence(s, c);
    StripRightKeepsAbsence(StripLeft(s), c);
  }

  predicate AllSpace(s: string) {
    forall i :: 0 <= i < |s| ==> IsSpace(s[i])
  }

  predicate Blank(s: string) {
    Strip(s) == []
  }

  lemma {:induction false} StripLeftEmpty(s: string)
    ensures StripLeft(s) == [] <==> AllSpace(s)
  {
    if s != [] && IsSpace(s[0]) {
      StripLeftEmpty(s[1..]);
      assert s == [s[0]] + s[1..];
    }
  }

  lemma {:induction false} StripRightEmpty(s: string)
    ensures StripRight(s) == [] <==> AllSpace(s)
  {
    if s != [] && IsSpace(s[|s| - 1]) {
      StripRightEmpty(s[..|s| - 1]);
      assert s == s[..|s| - 1] + [s[|s| - 1]];
    }
  }

  lemma BlankIsAllSpace(s: string)
    ensures Blank(s) <==> AllSpace(s)
  {
    StripLeftEmpty(s);
    StripRightEmpty(StripLeft(s));
  }

  predicate Trimmed(s: string) {
    s != [] ==> !IsSpace(s[0]) && !IsSpace(s[|s| - 1])
  }

  lemma {:induction false} StripTrimmed(s: string)
    requires Trimmed(s)
    ensures Strip(s) == s
  {
  }

  /** Padding a trimmed text with one space on either side is undone by `strip`. */
  lemma StripPadded(s: string)
    requires Trimmed(s)
    ensures Strip(" " + s + " ") == s
  {
    var p := " " + s + " ";
    assert p[1..] == s + " ";
    if s == [] {
      assert AllSpace(p);
      BlankIsAllSpace(p);
    } else {
      assert StripLeft(p) == StripLeft(s + " ") == s + " ";
      assert (s + " ")[..|s|] == s;
      assert StripRight(s + " ") == StripRight(s) == s;
    }
  }

  // ----- words -----

  function WordLength(s: string): (n: nat)
    ensures n <= |s| && Spaceless(s[..n])
    ensures n < |s| ==> IsSpace(s[n])
    ensures s != [] && !IsSpace(s[0]) ==> n > 0
  {
    if s == [] || IsSpace(s[0]) then 0
    else
      var n := 1 + WordLength(s[1..]);
      assert s[..n] == [s[0]] + s[1..][..n - 1];
      n
  }

  predicate IsWord(w: string) {
    w != [] && Spaceless(w)
  }

  predicate AllWords(ws: seq<string>) {
    forall w :: w in ws ==> IsWord(w)
  }

  /** `s.split()`: the maximal runs of non-space characters, in order. */
  function Words(s: string): (ws: seq<string>)
    ensures AllWords(ws)
    decreases |s|
  {
    if s == [] then []
    else if IsSpace(s[0]) then Words(s[1..])
    else
      var n := WordLength(s);
      [s[..n]] + Words(s[n..])
  }

  /** `" ".join(ws)` */
  function JoinSpace(ws: seq<string>): string {
    if ws == [] then ""
    else if |ws| == 1 then ws[0]
    else ws[0] + " " + JoinSpace(ws[1..])
  }

  predicate AllChars(s: string, ok: char -> bool) {
    forall c :: c in s ==> ok(c)
  }

  /** Splitting and rejoining only ever keeps characters or inserts spaces. */
  lemma {:induction false} JoinedWordsChars(s: string, ok: char -> bool)
    requires AllChars(s, ok) && ok(' ')
    ensures AllChars(JoinSpace(Words(s)), ok)
    decreases |s|
  {
    if s == [] {
    } else if IsSpace(s[0]) {
      JoinedWordsChars(s[1..], ok);
    } else {
      var n := WordLength(s);
      var rest := Words(s[n..]);
      assert AllChars(s[..n], ok) && AllChars(s[n..], ok);
      JoinedWordsChars(s[n..], ok);
      var ws := [s[..n]] + rest;
      assert ws[1..] == rest;
      assert JoinSpace(ws) == if rest == [] then s[..n] else s[..n] + " " + JoinSpace(rest);
    }
  }

  lemma {:induction false} WordsOfWordThen(w: string, t: string)
    requires IsWord(w) && (t == [] || IsSpace(t[0]))
    ensures Words(w + t) == [w] + Words(t)
  {
    WordLengthThen(w, t);
    assert (w + t)[..|w|] == w && (w + t)[|w|..] == t;
  }

  lemma {:induction false} WordLengthThen(w: string, t: string)
    requires Spaceless(w) && (t == [] || IsSpace(t[0]))
    ensures WordLength(w + t) == |w|
  {
    if w == [] {
      assert w + t == t;
    } else {
      assert (w + t)[1..] == w[1..] + t;
      WordLengthThen(w[1..], t);
    }
  }

  lemma WordsAfterSpace(c: char, t: string)
    requires IsSpace(c)
    ensures Words([c] + t) == Words(t)
  {
    assert ([c] + t)[1..] == t;
  }

  /** Splitting undoes joining. */
  lemma {:induction false} WordsOfJoin(ws: seq<string>)
    requires AllWords(ws)
    ensures Words(JoinSpace(ws)) == ws
  {
    if ws == [] {
    } else if |ws| == 1 {
      WordsOfWordThen(ws[0], "");
      assert ws[0] + "" == ws[0];
    } else {
      var rest := JoinSpace(ws[1..]);
      WordsOfWordThen(ws[0], " " + rest);
      assert ws[0] + " " + rest == ws[0] + (" " + rest);
      assert " " + rest == [' '] + rest;
      WordsAfterSpace(' ', rest);
      WordsOfJoin(ws[1..]);
    }
  }

  lemma {:induction false} JoinTrimmed(ws: seq<string>)
    requires AllWords(ws)
    ensures Trimmed(JoinSpace(ws))
    ensures JoinSpace(ws) == [] <==> ws == []
  {
    if |ws| == 1 {
      assert IsWord(ws[0]);
    } else if |ws| > 1 {
      assert IsWord(ws[0]) && IsWord(ws[1]);
      JoinTrimmed(ws[1..]);
    }
  }

  // ----- slot normalisers -----

  /** `normalize_slot_value`; evidence keys and contents are normalised the same way. */
  function NormalizeValue(s: string): string {
    JoinSpace(Words(Lower(Strip(s))))
  }

  /** `normalize_slot_name` */
  function NormalizeName(s: string): string {
    JoinSpace(Words(UnderscoresToSpaces(Lower(Strip(s)))))
  }

  /** Re-splitting a joined text that no character rewriting touches gives it back. */
  lemma RejoinWords(t: string)
    ensures var j := JoinSpace(Words(t)); Strip(j) == j && JoinSpace(Words(j)) == j
  {
    JoinTrimmed(Words(t));
    StripTrimmed(JoinSpace(Words(t)));
    WordsOfJoin(Words(t));
  }

  lemma LowerOfFixed(s: string)
    requires AllChars(s, c => LowerChar(c) == c)
    ensures Lower(s) == s
  {
    forall i | 0 <= i < |s| ensures LowerChar(s[i]) == s[i] {
      assert s[i] in s;
    }
  }

  lemma NormalizeValueIdempotent(s: string)
    ensures NormalizeValue(NormalizeValue(s)) == NormalizeValue(s)
  {
    var t := Lower(Strip(s));
    JoinedWordsChars(t, c => LowerChar(c) == c);
    LowerOfFixed(NormalizeValue(s));
    RejoinWords(t);
  }

  lemma NormalizeNameIdempotent(s: string)
    ensures NormalizeName(NormalizeName(s)) == NormalizeName(s)
  {
    var t := UnderscoresToSpaces(Lower(Strip(s)));
    var j := NormalizeName(s);
    JoinedWordsChars(t, c => LowerChar(c) == c);
    LowerOfFixed(j);
    JoinedWordsChars(t, c => c != '_');
    assert UnderscoresToSpaces(j) == j by {
      forall i | 0 <= i < |j| ensures j[i] != '_' {
        assert j[i] in j;
      }
    }
    RejoinWords(t);
  }

  /** A single word without underscores is only lower-cased. */
  lemma NormalizeWord(s: string)
    requires IsWord(s) && '_' !in Lower(s)
    ensures NormalizeValue(s) == NormalizeName(s) == Lower(s)
  {
    var w := Lower(s);
    StripTrimmed(s);
    assert IsWord(w) by {
      forall c | c in w ensures !IsSpace(c) {
        var i :| 0 <= i < |w| && w[i] == c;
        assert s[i] in s;
      }
    }
    WordsOfJoin([w]);
    assert UnderscoresToSpaces(w) == w;
  }

  /** A value normalises to nothing exactly when it is blank. */
  lemma {:induction false} NormalizeValueEmpty(s: string)
    ensures NormalizeValue(s) == [] <==> Blank(s)
  {
  }

  // ----- what normal forms compare -----

  lemma {:induction false} StripLeftParts(s: string) returns (l: string)
    ensures s == l + StripLeft(s) && AllSpace(l)
  {
    l := "";
    if s != [] && IsSpace(s[0]) {
      var rest := StripLeftParts(s[1..]);
      l := [s[0]] + rest;
    }
  }

  lemma {:induction false} StripRightParts(s: string) returns (r: string)
    ensures s == StripRight(s) + r && AllSpace(r)
  {
    r := "";
    if s != [] && IsSpace(s[|s| - 1]) {
      var rest := StripRightParts(s[..|s| - 1]);
      r := rest + [s[|s| - 1]];
    }
  }

  /** `strip` takes off white space only, and all of it. */
  lemma StripParts(s: string) returns (l: string, r: string)
    ensures s == l + Strip(s) + r && AllSpace(l) && AllSpace(r) && Trimmed(Strip(s))
  {
    l := StripLeftParts(s);
    r := StripRightParts(StripLeft(s));
    assert s == l + (Strip(s) + r);
  }

  lemma StripLeftThenStrip(s: string)
    ensures Strip(StripLeft(s)) == Strip(s)
  {
    StripLeftDone(StripLeft(s));
  }

  lemma StripLeftDone(s: string)
    requires s == "" || !IsSpace(s[0])
    ensures StripLeft(s) == s
  {
  }

  /** What is left between white space is what `strip` returns. */
  lemma StripUnique(l: string, t: string, r: string)
    requires AllSpace(l) && AllSpace(r) && Trimmed(t)
    ensures Strip(l + t + r) == t
  {
    assert l + t + r == l + (t + r);
    StripLeftOff(l, t + r);
    if t == "" {
      assert t + r == r;
      StripLeftEmpty(r);
      StripRightEmpty(StripLeft(t + r));
    } else {
      StripLeftDone(t + r);
      StripRightOff(t, r);
    }
  }

  lemma {:induction false} StripLeftOff(l: string, t: string)
    requires AllSpace(l)
    ensures StripLeft(l + t) == StripLeft(t)
  {
    if l == "" {
      assert l + t == t;
    } else {
      assert (l + t)[1..] == l[1..] + t;
      StripLeftOff(l[1..], t);
    }
  }

  lemma {:induction false} StripRightOff(t: string, r: string)
    requires AllSpace(r) && (t == "" || !IsSpace(t[|t| - 1]))
    ensures StripRight(t + r) == t
  {
    if r == "" {
      assert t + r == t;
    } else {
      assert (t + r)[..|t + r| - 1] == t + r[..|r| - 1];
      StripRightOff(t, r[..|r| - 1]);
    }
  }

  /** White space is only stripped up to the first character of a text that is not blank. */
  lemma {:induction false} StripLeftFront(a: string, b: string)
    requires !AllSpace(a)
    ensures StripLeft(a + b) == StripLeft(a) + b && StripLeft(a) != ""
  {
    if IsSpace(a[0]) {
      assert a == [a[0]] + a[1..] && (a + b)[1..] == a[1..] + b;
      StripLeftFront(a[1..], b);
    }
  }

  lemma {:induction false} StripRightBack(a: string, b: string)
    requires !AllSpace(b)
    ensures StripRight(a + b) == a + StripRight(b) && StripRight(b) != ""
  {
    var n := |b| - 1;
    if IsSpace(b[n]) {
      assert b == b[..n] + [b[n]] && (a + b)[..|a + b| - 1] == a + b[..n];
      StripRightBack(a, b[..n]);
    }
  }

  lemma {:induction false} WordsAfterSpaces(l: string, t: string)
    requires AllSpace(l)
    ensures Words(l + t) == Words(t)
  {
    if l == [] {
      assert l + t == t;
    } else {
      assert l + t == [l[0]] + (l[1..] + t);
      WordsAfterSpace(l[0], l[1..] + t);
      WordsAfterSpaces(l[1..], t);
    }
  }

  lemma WordsOfSpaces(r: string)
    requires AllSpace(r)
    ensures Words(r) == []
  {
    WordsAfterSpaces(r, "");
    assert r + "" == r;
  }

  /** The first word and what follows it. */
  lemma FirstWord(s: string) returns (w: string, t: string)
    requires s != [] && !IsSpace(s[0])
    ensures s == w + t && IsWord(w) && (t == [] || IsSpace(t[0])) && |t| < |s|
    ensures Words(s) == [w] + Words(t)
  {
    var n := WordLength(s);
    w, t := s[..n], s[n..];
  }

  lemma {:induction false} WordsBeforeSpaces(t: string, r: string)
    requires AllSpace(r)
    ensures Words(t + r) == Words(t)
    decreases |t|
  {
    if t == [] {
      assert t + r == r;
      WordsOfSpaces(r);
    } else if IsSpace(t[0]) {
      WordsBeforeSpaces(t[1..], r);
      assert t + r == [t[0]] + (t[1..] + r);
      WordsAfterSpace(t[0], t[1..] + r);
    } else {
      var w, rest := FirstWord(t);
      WordsBeforeSpaces(rest, r);
      WordThenSpaces(w, rest, r);
    }
  }

  lemma WordThenSpaces(w: string, rest: string, r: string)
    requires IsWord(w) && (rest == [] || IsSpace(rest[0])) && AllSpace(r)
    ensures Words(w + rest + r) == [w] + Words(rest + r)
  {
    assert w + rest + r == w + (rest + r);
    WordsOfWordThen(w, rest + r);
  }

  /** White space around a text does not change its words. */
  lemma WordsPadded(l: string, t: string, r: string)
    requires AllSpace(l) && AllSpace(r)
    ensures Words(l + t + r) == Words(t)
  {
    assert l + t + r == l + (t + r);
    WordsAfterSpaces(l, t + r);
    WordsBeforeSpaces(t, r);
  }

  lemma {:induction false} WordsOfLower(s: string)
    ensures Words(Lower(s)) == Map(Lower, Words(s))
    decreases |s|
  {
    if s == [] {
    } else if IsSpace(s[0]) {
      assert Lower(s) == [LowerChar(s[0])] + Lower(s[1..]);
      WordsAfterSpace(LowerChar(s[0]), Lower(s[1..]));
      WordsOfLower(s[1..]);
    } else {
      var w, t := FirstWord(s);
      assert Lower(s) == Lower(w) + Lower(t);
      LowerWord(w);
      WordsOfWordThen(Lower(w), Lower(t));
      WordsOfLower(t);
      MapConcat(Lower, [w], Words(t));
      assert Map(Lower, [w]) == [Lower(w)];
    }
  }

  lemma LowerWord(w: string)
    requires IsWord(w)
    ensures IsWord(Lower(w))
  {
    forall c | c in Lower(w) ensures !IsSpace(c) {
      var i :| 0 <= i < |w| && Lower(w)[i] == c;
      assert w[i] in w;
    }
  }

  /** The same words up to case, however they are spaced. */
  predicate SameWords(s: string, t: string) {
    Map(Lower, Words(s)) == Map(Lower, Words(t))
  }

  lemma WordsOfNormalized(s: string)
    ensures NormalizeValue(s) == JoinSpace(Map(Lower, Words(s)))
    ensures Words(NormalizeValue(s)) == Map(Lower, Words(s))
  {
    var l, r := StripParts(s);
    WordsPadded(l, Strip(s), r);
    WordsOfLower(Strip(s));
    WordsOfJoin(Words(Lower(Strip(s))));
  }

  /** Two values normalise alike if and only if they have the same words up to case. */
  lemma SameNormalValueIff(s: string, t: string)
    ensures NormalizeValue(s) == NormalizeValue(t) <==> SameWords(s, t)
  {
    WordsOfNormalized(s);
    WordsOfNormalized(t);
  }

  lemma SpacesStay(r: string)
    requires AllSpace(r)
    ensures AllSpace(UnderscoresToSpaces(r))
  {
  }

  lemma UnderscoresOfLower(s: string)
    ensures UnderscoresToSpaces(Lower(s)) == Lower(UnderscoresToSpaces(s))
  {
  }

  lemma UnderscoresConcat(l: string, m: string, r: string)
    ensures UnderscoresToSpaces(l + m + r) == UnderscoresToSpaces(l) + UnderscoresToSpaces(m) + UnderscoresToSpaces(r)
  {
  }

  /** Names are normalised as values are, underscores counting as spaces. */
  lemma NameIsValue(s: string)
    ensures NormalizeName(s) == NormalizeValue(UnderscoresToSpaces(s))
  {
    var l, r := StripParts(s);
    var u := UnderscoresToSpaces(Strip(s));
    UnderscoresOfLower(Strip(s));
    UnderscoresConcat(l, Strip(s), r);
    SpacesStay(l);
    SpacesStay(r);
    WordsPadded(UnderscoresToSpaces(l), u, UnderscoresToSpaces(r));
    WordsOfLower(u);
    WordsOfNormalized(UnderscoresToSpaces(s));
  }

  /** Two names normalise alike if and only if they have the same words up to case and underscores. */
  lemma SameNormalNameIff(s: string, t: string)
    ensures NormalizeName(s) == NormalizeName(t) <==> SameWords(UnderscoresToSpaces(s), UnderscoresToSpaces(t))
  {
    NameIsValue(s);
    NameIsValue(t);
    SameNormalValueIff(UnderscoresToSpaces(s), UnderscoresToSpaces(t));
  }

  lemma NormalNameEmpty(s: string)
    ensures NormalizeName(s) == "" <==> Words(UnderscoresToSpaces(s)) == []
  {
    NameIsValue(s);
    NormalValueEmpty(UnderscoresToSpaces(s));
  }

  lemma NormalValueEmpty(s: string)
    ensures NormalizeValue(s) == "" <==> Words(s) == []
  {
    WordsOfNormalized(s);
    JoinTrimmed(Words(Lower(Strip(s))));
  }
}
