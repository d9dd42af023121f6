/** Character classes and string operations of Python's `str` and `re`
    that the lookup service relies on: `str.isspace`, the `\w` class of
    `re`, the simple lower-case mapping used by `re.IGNORECASE`,
    `str.upper` and `str.split()` without arguments.

    The character tables are exact on Latin-1 (U+0000 to U+00FF), which
    covers the Portuguese disease names the service holds; the whitespace
    table is exact on the whole of Unicode. */
module Text {

  /** Closed character ranges, in increasing order. */
  type Ranges = seq<(char, char)>

  /** `c` lies in one of the ranges `rs[i..]`. */
  predicate InRangesFrom(c: char, rs: Ranges, i: nat)
    decreases |rs| - i
  {
    i < |rs| && ((rs[i].0 <= c <= rs[i].1) || InRangesFrom(c, rs, i + 1))
  }

  /** The characters `str.isspace()` accepts, which `str.split()`
      separates on. */
  const SpaceRanges: Ranges := [
    ('\t', '\r'), ('\U{1C}', ' '), ('\U{85}', '\U{85}'), ('\U{A0}', '\U{A0}'),
    ('\U{1680}', '\U{1680}'), ('\U{2000}', '\U{200A}'), ('\U{2028}', '\U{2029}'),
    ('\U{202F}', '\U{202F}'), ('\U{205F}', '\U{205F}'), ('\U{3000}', '\U{3000}')
  ]

  /** `str.isspace()` on one character. */
  predicate IsSpace(c: char) {
    InRangesFrom(c, SpaceRanges, 0)
  }

  /** The whitespace table spelled out. */
  lemma SpaceTable(c: char)
    ensures IsSpace(c) <==>
      || ('\t' <= c <= '\r') || ('\U{1C}' <= c <= ' ') || c == '\U{85}' || c == '\U{A0}'
      || c == '\U{1680}' || ('\U{2000}' <= c <= '\U{200A}') || ('\U{2028}' <= c <= '\U{2029}')
      || c == '\U{202F}' || c == '\U{205F}' || c == '\U{3000}'
  {
    var r := SpaceRanges;
    assert InRangesFrom(c, r, 0) <==> ('\t' <= c <= '\r') || InRangesFrom(c, r, 1);
    assert InRangesFrom(c, r, 1) <==> ('\U{1C}' <= c <= ' ') || InRangesFrom(c, r, 2);
    assert InRangesFrom(c, r, 2) <==> c == '\U{85}' || InRangesFrom(c, r, 3);
    assert InRangesFrom(c, r, 3) <==> c == '\U{A0}' || InRangesFrom(c, r, 4);
    assert InRangesFrom(c, r, 4) <==> c == '\U{1680}' || InRangesFrom(c, r, 5);
    assert InRangesFrom(c, r, 5) <==> ('\U{2000}' <= c <= '\U{200A}') || InRangesFrom(c, r, 6);
    assert InRangesFrom(c, r, 6) <==> ('\U{2028}' <= c <= '\U{2029}') || InRangesFrom(c, r, 7);
    assert InRangesFrom(c, r, 7) <==> c == '\U{202F}' || InRangesFrom(c, r, 8);
    assert InRangesFrom(c, r, 8) <==> c == '\U{205F}' || InRangesFrom(c, r, 9);
    assert InRangesFrom(c, r, 9) <==> c == '\U{3000}' || InRangesFrom(c, r, 10);
    assert !InRangesFrom(c, r, 10);
  }

  /** The word characters of `re` on `str` patterns (`\w`) in Latin-1:
      letters, digits, other numeric characters and the underscore. */
  const WordRanges: Ranges := [
    ('0', '9'), ('A', 'Z'), ('_', '_'), ('a', 'z'),
    ('\U{AA}', '\U{AA}'), ('\U{B2}', '\U{B3}'), ('\U{B5}', '\U{B5}'), ('\U{B9}', '\U{BA}'),
    ('\U{BC}', '\U{BE}'), ('\U{C0}', '\U{D6}'), ('\U{D8}', '\U{F6}'), ('\U{F8}', '\U{FF}')
  ]

  /** `\w` on one character. */
  predicate IsWordChar(c: char) {
    InRangesFrom(c, WordRanges, 0)
  }

  /** The word-character table spelled out. */
  lemma WordCharTable(c: char)
    ensures IsWordChar(c) <==>
      || ('0' <= c <= '9') || ('A' <= c <= 'Z') || c == '_' || ('a' <= c <= 'z')
      || c == '\U{AA}' || ('\U{B2}' <= c <= '\U{B3}') || c == '\U{B5}' || ('\U{B9}' <= c <= '\U{BA}')
      || ('\U{BC}' <= c <= '\U{BE}') || ('\U{C0}' <= c <= '\U{D6}') || ('\U{D8}' <= c <= '\U{F6}')
      || ('\U{F8}' <= c <= '\U{FF}')
  {
    var r := WordRanges;
    assert InRangesFrom(c, r, 0) <==> ('0' <= c <= '9') || InRangesFrom(c, r, 1);
    assert InRangesFrom(c, r, 1) <==> ('A' <= c <= 'Z') || InRangesFrom(c, r, 2);
    assert InRangesFrom(c, r, 2) <==> c == '_' || InRangesFrom(c, r, 3);
    assert InRangesFrom(c, r, 3) <==> ('a' <= c <= 'z') || InRangesFrom(c, r, 4);
    assert InRangesFrom(c, r, 4) <==> c == '\U{AA}' || InRangesFrom(c, r, 5);
    assert InRangesFrom(c, r, 5) <==> ('\U{B2}' <= c <= '\U{B3}') || InRangesFrom(c, r, 6);
    assert InRangesFrom(c, r, 6) <==> c == '\U{B5}' || InRangesFrom(c, r, 7);
    assert InRangesFrom(c, r, 7) <==> ('\U{B9}' <= c <= '\U{BA}') || InRangesFrom(c, r, 8);
    assert InRangesFrom(c, r, 8) <==> ('\U{BC}' <= c <= '\U{BE}') || InRangesFrom(c, r, 9);
    assert InRangesFrom(c, r, 9) <==> ('\U{C0}' <= c <= '\U{D6}') || InRangesFrom(c, r, 10);
    assert InRangesFrom(c, r, 10) <==> ('\U{D8}' <= c <= '\U{F6}') || InRangesFrom(c, r, 11);
    assert InRangesFrom(c, r, 11) <==> ('\U{F8}' <= c <= '\U{FF}') || InRangesFrom(c, r, 12);
    assert !InRangesFrom(c, r, 12);
  }

  lemma AsciiLetterIsWordChar(c: char)
    requires ('a' <= c <= 'z') || ('A' <= c <= 'Z')
    ensures IsWordChar(c)
  {
    WordCharTable(c);
  }

  lemma SpaceIsNotWordChar()
    ensures !IsWordChar(' ')
  {
    WordCharTable(' ');
  }

  /** The lower-case mapping `re.IGNORECASE` compares characters under. */
  function Fold(c: char): char {
    if ('A' <= c <= 'Z') || ('\U{C0}' <= c <= '\U{DE}' && c != '\U{D7}') then (c as int + 32) as char else c
  }

  /** Ignoring case never turns a word character into another kind, so
      word boundaries are the same under `re.IGNORECASE`. */
  lemma FoldKeepsWordChar(c: char)
    ensures IsWordChar(Fold(c)) <==> IsWordChar(c)
  {
    WordCharTable(c);
    WordCharTable(Fold(c));
  }

  /** `str.upper()` on one character; the sharp s expands to two letters. */
  function UpperChar(c: char): (u: string)
    ensures 1 <= |u| <= 2
  {
    if ('a' <= c <= 'z') || ('\U{E0}' <= c <= '\U{FE}' && c != '\U{F7}') then [(c as int - 32) as char]
    else if c == '\U{DF}' then "SS"
    else if c == '\U{FF}' then ['\U{178}']
    else if c == '\U{B5}' then ['\U{39C}']
    else [c]
  }

  /** `str.upper()`. */
  function Upper(s: string): string {
    if s == [] then [] else UpperChar(s[0]) + Upper(s[1..])
  }

  lemma {:induction false} UpperConcat(a: string, b: string)
    ensures Upper(a + b) == Upper(a) + Upper(b)
  {
    if a != [] {
      assert (a + b)[0] == a[0];
      assert (a + b)[1..] == a[1..] + b;
      UpperConcat(a[1..], b);
      Assoc(UpperChar(a[0]), Upper(a[1..]), Upper(b));
      calc {
        Upper(a + b);
        UpperChar(a[0]) + Upper(a[1..] + b);
        UpperChar(a[0]) + (Upper(a[1..]) + Upper(b));
        (UpperChar(a[0]) + Upper(a[1..])) + Upper(b);
        Upper(a) + Upper(b);
      }
    } else {
      assert a + b == b;
    }
  }

  /** Every character `str.upper()` produces is already upper case. */
  lemma UpperCharFixed(c: char)
    ensures Upper(UpperChar(c)) == UpperChar(c)
  {
    var u := UpperChar(c);
    if |u| == 1 {
      assert u == [u[0]];
      assert Upper(u) == UpperChar(u[0]) + Upper([]);
    } else {
      assert u == "SS";
      assert Upper(u) == UpperChar('S') + Upper("S");
      assert Upper("S") == UpperChar('S') + Upper([]);
    }
  }

  /** Upper-casing twice is upper-casing once. */
  lemma {:induction false} UpperIdempotent(s: string)
    ensures Upper(Upper(s)) == Upper(s)
  {
    if s != [] {
      UpperConcat(UpperChar(s[0]), Upper(s[1..]));
      UpperCharFixed(s[0]);
      UpperIdempotent(s[1..]);
    }
  }

  /** A word of `str.split()`: non-empty and free of whitespace. */
  predicate IsToken(w: string) {
    |w| > 0 && forall k :: 0 <= k < |w| ==> !IsSpace(w[k])
  }

  /** A non-empty run of ASCII lower-case letters is a token. */
  lemma LowerAsciiToken(w: string)
    requires |w| > 0 && forall k :: 0 <= k < |w| ==> 'a' <= w[k] <= 'z'
    ensures IsToken(w)
  {
    forall k | 0 <= k < |w| ensures !IsSpace(w[k]) {
      SpaceTable(w[k]);
    }
  }

  /** `s` with its leading whitespace removed. */
  function DropSpace(s: string): (t: string)
    ensures |t| <= |s| && t == s[|s| - |t|..]
    ensures t == [] || !IsSpace(t[0])
  {
    if s != [] && IsSpace(s[0]) then DropSpace(s[1..]) else s
  }

  /** What `DropSpace` removes is all whitespace. */
  lemma {:induction false} DropSpaceRemovesSpace(s: string)
    ensures forall k :: 0 <= k < |s| - |DropSpace(s)| ==> IsSpace(s[k])
  {
    if s != [] && IsSpace(s[0]) {
      DropSpaceRemovesSpace(s[1..]);
      assert forall k :: 1 <= k < |s| - |DropSpace(s)| ==> s[k] == s[1..][k - 1];
    }
  }

  /** The longest prefix of `s` without whitespace. */
  function TakeWord(s: string): (w: string)
    ensures |w| <= |s| && w == s[..|w|]
    ensures forall k :: 0 <= k < |w| ==> !IsSpace(w[k])
    ensures s != [] && !IsSpace(s[0]) ==> |w| > 0
  {
    if s == [] || IsSpace(s[0]) then [] else [s[0]] + TakeWord(s[1..])
  }

  /** The first word is the longest such prefix: it stops only at
      whitespace or at the end of `s`. */
  lemma {:induction false} TakeWordMaximal(s: string)
    ensures |TakeWord(s)| == |s| || IsSpace(s[|TakeWord(s)|])
  {
    if s != [] && !IsSpace(s[0]) {
      TakeWordMaximal(s[1..]);
      var w := TakeWord(s[1..]);
      assert TakeWord(s) == [s[0]] + w;
      assert |w| < |s[1..]| ==> s[1 + |w|] == s[1..][|w|];
    }
  }

  /** `str.split()`: the maximal runs of non-whitespace characters, in order. */
  function Split(s: string): (ws: seq<string>)
    decreases |s|
  {
    var t := DropSpace(s);
    if t == [] then []
    else
      var w := TakeWord(t);
      [w] + Split(t[|w|..])
  }

  /** Every word `str.split()` returns is non-empty and free of whitespace. */
  lemma {:induction false} SplitGivesTokens(s: string)
    ensures forall i :: 0 <= i < |Split(s)| ==> IsToken(Split(s)[i])
    decreases |s|
  {
    var t := DropSpace(s);
    if t != [] {
      var w := TakeWord(t);
      var rest := t[|w|..];
      var tail := Split(rest);
      var ws := Split(s);
      SplitGivesTokens(rest);
      assert ws == [w] + tail;
      forall i | 0 <= i < |ws| ensures IsToken(ws[i]) {
        if i == 0 {
          assert ws[0] == w;
        } else {
          assert ws[i] == tail[i - 1];
        }
      }
    }
  }

  /** The words separated by single spaces (`" ".join(ws)`). */
  function JoinWords(ws: seq<string>): string {
    if ws == [] then [] else if |ws| == 1 then ws[0] else ws[0] + (" " + JoinWords(ws[1..]))
  }

  /** The non-whitespace characters of `s`, in order. */
  function NonSpace(s: string): string {
    if s == [] then [] else (if IsSpace(s[0]) then [] else [s[0]]) + NonSpace(s[1..])
  }

  /** The concatenation of a list of words. */
  function Concat(ws: seq<string>): string {
    if ws == [] then [] else ws[0] + Concat(ws[1..])
  }

  lemma {:induction false} NonSpaceConcat(a: string, b: string)
    ensures NonSpace(a + b) == NonSpace(a) + NonSpace(b)
  {
    if a != [] {
      assert (a + b)[0] == a[0];
      assert (a + b)[1..] == a[1..] + b;
      NonSpaceConcat(a[1..], b);
      var h: string := if IsSpace(a[0]) then [] else [a[0]];
      Assoc(h, NonSpace(a[1..]), NonSpace(b));
      calc {
        NonSpace(a + b);
        h + NonSpace(a[1..] + b);
        h + (NonSpace(a[1..]) + NonSpace(b));
        (h + NonSpace(a[1..])) + NonSpace(b);
        NonSpace(a) + NonSpace(b);
      }
    } else {
      assert a + b == b;
    }
  }

  lemma {:induction false} NonSpaceOfSpaces(s: string)
    requires forall k :: 0 <= k < |s| ==> IsSpace(s[k])
    ensures NonSpace(s) == []
  {
    if s != [] {
      NonSpaceOfSpaces(s[1..]);
    }
  }

  lemma {:induction false} NonSpaceOfToken(w: string)
    requires forall k :: 0 <= k < |w| ==> !IsSpace(w[k])
    ensures NonSpace(w) == w
  {
    if w != [] {
      NonSpaceOfToken(w[1..]);
    }
  }

  /** Leading whitespace adds nothing to the non-whitespace characters. */
  lemma NonSpaceOfLead(s: string)
    ensures NonSpace(s) == NonSpace(DropSpace(s))
  {
    var t := DropSpace(s);
    var lead := s[..|s| - |t|];
    assert s == lead + t;
    DropSpaceRemovesSpace(s);
    NonSpaceConcat(lead, t);
    NonSpaceOfSpaces(lead);
  }

  /** The first word is where the non-whitespace characters begin. */
  lemma NonSpaceOfWord(t: string)
    ensures NonSpace(t) == TakeWord(t) + NonSpace(t[|TakeWord(t)|..])
  {
    var w := TakeWord(t);
    var rest := t[|w|..];
    assert t == w + rest;
    NonSpaceConcat(w, rest);
    NonSpaceOfToken(w);
  }

  lemma ConcatCons(w: string, ws: seq<string>)
    ensures Concat([w] + ws) == w + Concat(ws)
  {
    assert ([w] + ws)[1..] == ws;
  }

  /** Splitting loses exactly the whitespace: the words, put back together,
      are the non-whitespace characters of the input. */
  lemma {:induction false} SplitKeepsNonSpace(s: string)
    ensures Concat(Split(s)) == NonSpace(s)
    decreases |s|
  {
    var t := DropSpace(s);
    NonSpaceOfLead(s);
    if t != [] {
      var w := TakeWord(t);
      var rest := t[|w|..];
      NonSpaceOfWord(t);
      SplitKeepsNonSpace(rest);
      ConcatCons(w, Split(rest));
    }
  }

  /** A query made only of whitespace has no words. */
  lemma SplitBlank(s: string)
    ensures Split(s) == [] <==> forall k :: 0 <= k < |s| ==> IsSpace(s[k])
  {
    var t := DropSpace(s);
    DropSpaceRemovesSpace(s);
    if t != [] {
      assert s[|s| - |t|] == t[0];
    }
  }

  lemma {:induction false} TakeWordOfJoin(w: string, rest: string)
    requires IsToken(w)
    requires rest == [] || IsSpace(rest[0])
    ensures DropSpace(w + rest) == w + rest
    ensures TakeWord(w + rest) == w
  {
    assert (w + rest)[0] == w[0];
    if |w| > 1 {
      assert (w + rest)[1..] == w[1..] + rest;
      TakeWordOfJoin(w[1..], rest);
    } else {
      assert w == [w[0]];
      assert (w + rest)[1..] == rest;
    }
  }

  /** A word followed by whitespace or the end is split off whole. */
  lemma SplitToken(w: string, rest: string)
    requires IsToken(w)
    requires rest == [] || IsSpace(rest[0])
    ensures Split(w + rest) == [w] + Split(rest)
  {
    TakeWordOfJoin(w, rest);
    assert (w + rest)[|w|..] == rest;
  }

  lemma SplitSpace(s: string)
    ensures Split(" " + s) == Split(s)
  {
    var u := " " + s;
    SpaceTable(' ');
    assert u[0] == ' ' && u[1..] == s;
    var t := DropSpace(s);
    assert DropSpace(u) == t;
    if t != [] {
      var w := TakeWord(t);
      assert Split(u) == [w] + Split(t[|w|..]);
    }
  }

  /** Leading whitespace, however long, is stripped whole. */
  lemma {:induction false} DropSpaceOfSpaces(sp: string, s: string)
    requires forall k :: 0 <= k < |sp| ==> IsSpace(sp[k])
    ensures DropSpace(sp + s) == DropSpace(s)
  {
    if sp == [] {
      assert sp + s == s;
    } else {
      assert (sp + s)[0] == sp[0];
      assert (sp + s)[1..] == sp[1..] + s;
      DropSpaceOfSpaces(sp[1..], s);
    }
  }

  /** Whitespace before the first word is no part of any word. */
  lemma SplitLeadingSpace(sp: string, s: string)
    requires forall k :: 0 <= k < |sp| ==> IsSpace(sp[k])
    ensures Split(sp + s) == Split(s)
  {
    DropSpaceOfSpaces(sp, s);
  }

  /** A word followed by a run of whitespace of any length is split off
      whole, and the run is dropped. */
  lemma SplitWordThenSpace(w: string, sp: string, rest: string)
    requires IsToken(w) && sp != []
    requires forall k :: 0 <= k < |sp| ==> IsSpace(sp[k])
    ensures Split(w + sp + rest) == [w] + Split(rest)
  {
    assert w + sp + rest == w + (sp + rest);
    assert (sp + rest)[0] == sp[0];
    SplitToken(w, sp + rest);
    SplitLeadingSpace(sp, rest);
  }

  lemma Assoc<T>(x: seq<T>, y: seq<T>, z: seq<T>)
    ensures x + (y + z) == (x + y) + z
  {
  }

  lemma ConsTail<T>(xs: seq<T>)
    requires xs != []
    ensures [xs[0]] + xs[1..] == xs
  {
  }

  /** Splitting undoes joining with single spaces. */
  lemma {:induction false} SplitJoinWords(ws: seq<string>)
    requires forall i :: 0 <= i < |ws| ==> IsToken(ws[i])
    ensures Split(JoinWords(ws)) == ws
  {
    if |ws| == 1 {
      SplitJoinSingle(ws);
    } else if |ws| > 1 {
      var tail := ws[1..];
      assert forall i :: 0 <= i < |tail| ==> tail[i] == ws[i + 1];
      SplitJoinWords(tail);
      SplitJoinCons(ws[0], tail);
      ConsTail(ws);
    }
  }

  lemma SplitJoinSingle(ws: seq<string>)
    requires |ws| == 1 && IsToken(ws[0])
    ensures Split(JoinWords(ws)) == ws
  {
    SplitWord(ws[0]);
    Singleton(ws);
  }

  lemma SplitWord(w: string)
    requires IsToken(w)
    ensures Split(w) == [w]
  {
    TakeWordOfJoin(w, []);
    assert w + [] == w;
    assert w[|w|..] == [];
    assert Split(w) == [w] + Split([]);
  }

  lemma Singleton<T>(xs: seq<T>)
    requires |xs| == 1
    ensures xs == [xs[0]]
  {
  }

  lemma SplitJoinCons(w: string, tail: seq<string>)
    requires IsToken(w) && |tail| > 0
    ensures Split(JoinWords([w] + tail)) == [w] + Split(JoinWords(tail))
  {
    var ws := [w] + tail;
    var j := JoinWords(tail);
    var rest := " " + j;
    assert ws[0] == w && ws[1..] == tail && |ws| > 1;
    assert JoinWords(ws) == ws[0] + (" " + JoinWords(ws[1..]));
    SpaceTable(' ');
    assert rest[0] == ' ';
    SplitToken(w, rest);
    SplitSpace(j);
  }
}
