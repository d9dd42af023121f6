/** The "regular" search mode of the name search: the query is split on
    whitespace, each word is escaped, and the words are joined into the
    pattern `\b w1 \b.*\b w2 \b ... \b wn \b`, which is searched for,
    ignoring case, anywhere in a name.

    The declarative meaning (`InOrderWholeWords`): the words occur in the
    name in query order, without overlapping, each starting and ending at
    a word boundary, with no newline between consecutive words. */
module RegularMode {
  import opened Text
  import opened Regex

  /** `r"\b.*\b"`, the separator the words are joined with. */
  const Gap: Pattern := [WordBoundary, AnyRun, WordBoundary]

  /** `sep.join(parts)` on patterns. */
  function JoinPatterns(sep: Pattern, parts: seq<Pattern>): Pattern {
    if parts == [] then []
    else if |parts| == 1 then parts[0]
    else parts[0] + sep + JoinPatterns(sep, parts[1..])
  }

  function EscapeAll(words: seq<string>): (ps: seq<Pattern>)
    ensures |ps| == |words|
  {
    if words == [] then [] else [Escape(words[0])] + EscapeAll(words[1..])
  }

  /** `r"\b" + r"\b.*\b".join(re.escape(w) for w in words) + r"\b"`. */
  function PatternOf(words: seq<string>): Pattern {
    [WordBoundary] + JoinPatterns(Gap, EscapeAll(words)) + [WordBoundary]
  }

  /** The pattern built from a query. */
  function QueryPattern(query: string): Pattern {
    PatternOf(Split(query))
  }

  /** Whether a name matches a query in the regular mode. */
  predicate RegularMatch(query: string, name: string) {
    Search(QueryPattern(query), name)
  }

  // ---------------------------------------------------------------------
  // Declarative meaning

  /** `w` occurs at `p` in `s`, ignoring case, as a whole word. */
  predicate WholeWordAt(w: string, s: string, p: nat) {
    OccursAt(w, s, p) && AtBoundary(s, p) && AtBoundary(s, p + |w|)
  }

  /** `ps[k]` is where `words[k]` sits in `s`: each is a whole word, each
      starts after the previous one ends, and no newline lies between. */
  ghost predicate Placement(words: seq<string>, s: string, ps: seq<nat>) {
    && |ps| == |words|
    && (forall k :: 0 <= k < |ps| ==> WholeWordAt(words[k], s, ps[k]))
    && (forall k :: 0 <= k < |ps| - 1 ==>
          ps[k] + |words[k]| <= ps[k + 1] && NoNewline(s, ps[k] + |words[k]|, ps[k + 1]))
  }

  /** The words occur in order as whole words; with no words, the pattern
      is `\b\b`, which asks for a single word boundary somewhere. */
  ghost predicate InOrderWholeWords(words: seq<string>, s: string) {
    if words == [] then exists i: nat :: i <= |s| && AtBoundary(s, i)
    else exists ps :: Placement(words, s, ps)
  }

  // ---------------------------------------------------------------------
  // The pattern against its meaning

  /** What follows the first word in the pattern of `words`. */
  function AfterFirst(words: seq<string>): Pattern
    requires words != []
  {
    if |words| == 1 then [WordBoundary] else [WordBoundary] + ([AnyRun] + PatternOf(words[1..]))
  }

  lemma PatternOfCons(words: seq<string>)
    requires words != []
    ensures PatternOf(words) == [WordBoundary] + (Escape(words[0]) + AfterFirst(words))
  {
    var es := EscapeAll(words);
    assert es[0] == Escape(words[0]);
    if |words| > 1 {
      assert es[1..] == EscapeAll(words[1..]);
      var j := JoinPatterns(Gap, es[1..]);
      calc {
        PatternOf(words);
        [WordBoundary] + (es[0] + Gap + j) + [WordBoundary];
        [WordBoundary] + (es[0] + ([WordBoundary] + ([AnyRun] + ([WordBoundary] + j + [WordBoundary]))));
      }
    }
  }

  lemma PlacementTail(words: seq<string>, s: string, ps: seq<nat>)
    requires |words| > 1 && Placement(words, s, ps)
    ensures Placement(words[1..], s, ps[1..])
  {
    var ws, qs := words[1..], ps[1..];
    forall k | 0 <= k < |qs| ensures WholeWordAt(ws[k], s, qs[k]) {
      assert ws[k] == words[k + 1] && qs[k] == ps[k + 1];
    }
    forall k | 0 <= k < |qs| - 1
      ensures qs[k] + |ws[k]| <= qs[k + 1] && NoNewline(s, qs[k] + |ws[k]|, qs[k + 1])
    {
      assert ws[k] == words[k + 1] && qs[k] == ps[k + 1] && qs[k + 1] == ps[k + 2];
    }
  }

  lemma PlacementCons(words: seq<string>, s: string, p: nat, ps: seq<nat>)
    requires |words| > 1 && Placement(words[1..], s, ps)
    requires WholeWordAt(words[0], s, p)
    requires p + |words[0]| <= ps[0] && NoNewline(s, p + |words[0]|, ps[0])
    ensures Placement(words, s, [p] + ps)
  {
    var qs := [p] + ps;
    forall k | 0 <= k < |qs| ensures WholeWordAt(words[k], s, qs[k]) {
      if k > 0 {
        assert words[k] == words[1..][k - 1] && qs[k] == ps[k - 1];
      }
    }
    forall k | 0 <= k < |qs| - 1
      ensures qs[k] + |words[k]| <= qs[k + 1] && NoNewline(s, qs[k] + |words[k]|, qs[k + 1])
    {
      if k > 0 {
        assert words[k] == words[1..][k - 1] && qs[k] == ps[k - 1] && qs[k + 1] == ps[k];
      }
    }
  }

  /** The pattern matches at `p` iff the first word sits at `p` after a
      boundary and the rest of the pattern matches where it ends. */
  lemma FirstWordMatch(words: seq<string>, s: string, p: nat)
    requires words != [] && p <= |s|
    ensures MatchAt(PatternOf(words), s, p) <==>
      AtBoundary(s, p) && OccursAt(words[0], s, p) && MatchAt(AfterFirst(words), s, p + |words[0]|)
  {
    var w, after := words[0], AfterFirst(words);
    var tail := [WordBoundary] + (Escape(w) + after);
    PatternOfCons(words);
    BoundaryThenWord(w, after, s, p);
    if MatchAt(PatternOf(words), s, p) {
      assert MatchAt(tail, s, p);
    }
    if AtBoundary(s, p) && OccursAt(w, s, p) && MatchAt(after, s, p + |w|) {
      assert MatchAt(tail, s, p);
    }
  }

  lemma BoundaryThenWord(w: string, after: Pattern, s: string, p: nat)
    requires p <= |s|
    ensures MatchAt([WordBoundary] + (Escape(w) + after), s, p) <==>
      AtBoundary(s, p) && OccursAt(w, s, p) && MatchAt(after, s, p + |w|)
  {
    BoundaryStep(Escape(w) + after, s, p);
    EscapeMatch(w, after, s, p);
  }

  lemma LastWordMatch(words: seq<string>, s: string, e: nat)
    requires |words| == 1 && e <= |s|
    ensures MatchAt(AfterFirst(words), s, e) <==> AtBoundary(s, e)
  {
    BoundaryStep([], s, e);
    assert AfterFirst(words) == [WordBoundary] + [];
  }

  /** A match of the pattern at `p` places the words, the first at `p`. */
  lemma {:induction false} MatchGivesPlacement(words: seq<string>, s: string, p: nat)
    requires words != [] && p <= |s|
    requires MatchAt(PatternOf(words), s, p)
    ensures exists ps :: Placement(words, s, ps) && ps[0] == p
    decreases |words|
  {
    if |words| == 1 {
      OnlyWordMatched(words, s, p);
      assert Placement(words, s, [p]);
    } else {
      var q := NextWordStart(words, s, p);
      MatchGivesPlacement(words[1..], s, q);
      var ps :| Placement(words[1..], s, ps) && ps[0] == q;
      PlacementCons(words, s, p, ps);
    }
  }

  lemma OnlyWordMatched(words: seq<string>, s: string, p: nat)
    requires |words| == 1 && p <= |s|
    requires MatchAt(PatternOf(words), s, p)
    ensures WholeWordAt(words[0], s, p)
  {
    FirstWordMatch(words, s, p);
    LastWordMatch(words, s, p + |words[0]|);
  }

  /** Where the second word of a match starts. */
  lemma NextWordStart(words: seq<string>, s: string, p: nat) returns (q: nat)
    requires |words| > 1 && p <= |s|
    requires MatchAt(PatternOf(words), s, p)
    ensures WholeWordAt(words[0], s, p)
    ensures p + |words[0]| <= q <= |s| && NoNewline(s, p + |words[0]|, q)
    ensures MatchAt(PatternOf(words[1..]), s, q)
  {
    var e := p + |words[0]|;
    FirstWordMatch(words, s, p);
    assert OccursAt(words[0], s, p) && MatchAt(AfterFirst(words), s, e);
    assert AfterFirst(words) == [WordBoundary] + ([AnyRun] + PatternOf(words[1..]));
    q := RestAfterGap(PatternOf(words[1..]), s, e);
  }

  /** Where `rest` matches after `\b.*` has matched from `e`. */
  lemma RestAfterGap(rest: Pattern, s: string, e: nat) returns (q: nat)
    requires e <= |s| && MatchAt([WordBoundary] + ([AnyRun] + rest), s, e)
    ensures AtBoundary(s, e) && e <= q <= |s| && NoNewline(s, e, q) && MatchAt(rest, s, q)
  {
    BoundaryStep([AnyRun] + rest, s, e);
    assert MatchAt([AnyRun] + rest, s, e);
    AnyRunMatch(rest, s, e);
    q :| e <= q <= |s| && NoNewline(s, e, q) && MatchAt(rest, s, q);
  }

  /** A placement of the words is a match of the pattern at the first word. */
  lemma {:induction false} PlacementGivesMatch(words: seq<string>, s: string, ps: seq<nat>)
    requires words != [] && Placement(words, s, ps)
    ensures ps[0] <= |s| && MatchAt(PatternOf(words), s, ps[0])
    decreases |words|
  {
    assert WholeWordAt(words[0], s, ps[0]);
    if |words| == 1 {
      OnlyWordPlaced(words, s, ps[0]);
    } else {
      assert ps[0] + |words[0]| <= ps[1] && NoNewline(s, ps[0] + |words[0]|, ps[1]);
      PlacementTail(words, s, ps);
      PlacementGivesMatch(words[1..], s, ps[1..]);
      assert ps[1..][0] == ps[1];
      SecondWordPlaced(words, s, ps[0], ps[1]);
    }
  }

  lemma OnlyWordPlaced(words: seq<string>, s: string, p: nat)
    requires |words| == 1 && WholeWordAt(words[0], s, p)
    ensures p <= |s| && MatchAt(PatternOf(words), s, p)
  {
    LastWordMatch(words, s, p + |words[0]|);
    FirstWordMatched(words, s, p);
  }

  lemma SecondWordPlaced(words: seq<string>, s: string, p: nat, q: nat)
    requires |words| > 1 && WholeWordAt(words[0], s, p)
    requires p + |words[0]| <= q <= |s| && NoNewline(s, p + |words[0]|, q)
    requires MatchAt(PatternOf(words[1..]), s, q)
    ensures p <= |s| && MatchAt(PatternOf(words), s, p)
  {
    var e := p + |words[0]|;
    GapThenRest(PatternOf(words[1..]), s, e, q);
    assert AfterFirst(words) == [WordBoundary] + ([AnyRun] + PatternOf(words[1..]));
    FirstWordMatched(words, s, p);
  }

  /** `\b.*` then `rest`, where `rest` matches at `q` after a newline-free run. */
  lemma GapThenRest(rest: Pattern, s: string, e: nat, q: nat)
    requires e <= q <= |s| && AtBoundary(s, e) && NoNewline(s, e, q) && MatchAt(rest, s, q)
    ensures MatchAt([WordBoundary] + ([AnyRun] + rest), s, e)
  {
    AnyRunMatch(rest, s, e);
    assert MatchAt([AnyRun] + rest, s, e);
    BoundaryStep([AnyRun] + rest, s, e);
  }

  lemma FirstWordMatched(words: seq<string>, s: string, p: nat)
    requires words != [] && p <= |s| && WholeWordAt(words[0], s, p)
    requires MatchAt(AfterFirst(words), s, p + |words[0]|)
    ensures MatchAt(PatternOf(words), s, p)
  {
    FirstWordMatch(words, s, p);
  }

  /** Some character of `s` is a word character iff `s` has a word boundary. */
  lemma BoundaryIffWordChar(s: string)
    ensures (exists i: nat :: i <= |s| && AtBoundary(s, i)) <==>
            (exists k :: 0 <= k < |s| && IsWordChar(s[k]))
  {
    if exists i: nat :: i <= |s| && AtBoundary(s, i) {
      var i: nat :| i <= |s| && AtBoundary(s, i);
      if WordAt(s, i) {
        assert IsWordChar(s[i]);
      } else {
        assert IsWordChar(s[i - 1]);
      }
    }
    if exists k :: 0 <= k < |s| && IsWordChar(s[k]) {
      var k :| 0 <= k < |s| && IsWordChar(s[k]);
      WordCharGivesBoundary(s, k);
    }
  }

  lemma {:induction false} WordCharGivesBoundary(s: string, k: nat)
    requires k < |s| && IsWordChar(s[k])
    ensures exists i: nat :: i <= |s| && AtBoundary(s, i)
  {
    if k == 0 || !IsWordChar(s[k - 1]) {
      assert AtBoundary(s, k);
    } else {
      WordCharGivesBoundary(s, k - 1);
    }
  }

  /** The built pattern means what the words say: searching for it in a name
      succeeds exactly when the words occur there in order as whole words. */
  lemma PatternMeaning(words: seq<string>, s: string)
    ensures Search(PatternOf(words), s) <==> InOrderWholeWords(words, s)
  {
    var pat := PatternOf(words);
    SearchFinds(pat, s);
    if words == [] {
      assert pat == [WordBoundary, WordBoundary];
      forall i: nat | i <= |s| ensures MatchAt(pat, s, i) == AtBoundary(s, i) {
        BoundaryStep([WordBoundary], s, i);
        BoundaryStep([], s, i);
      }
      if exists i: nat :: i <= |s| && AtBoundary(s, i) {
        var i: nat :| i <= |s| && AtBoundary(s, i);
        assert MatchAt(pat, s, i);
        assert exists i: nat :: i <= |s| && MatchAt(pat, s, i);
      }
    } else {
      if Search(pat, s) {
        var p: nat :| p <= |s| && MatchAt(pat, s, p);
        MatchGivesPlacement(words, s, p);
        assert InOrderWholeWords(words, s);
      }
      if InOrderWholeWords(words, s) {
        var ps :| Placement(words, s, ps);
        PlacementGivesMatch(words, s, ps);
        var p: nat := ps[0];
        assert p <= |s| && MatchAt(pat, s, p);
        assert exists i: nat :: i <= |s| && MatchAt(pat, s, i);
      }
    }
  }

  /** A name matches a query in the regular mode iff the query's words
      occur in the name in order, each as a whole word, ignoring case. */
  lemma RegularMatchMeaning(query: string, name: string)
    ensures RegularMatch(query, name) <==> InOrderWholeWords(Split(query), name)
  {
    PatternMeaning(Split(query), name);
  }

  /** A query of whitespace only gives the pattern `\b\b`: it matches
      exactly the names that contain a word character. */
  lemma BlankQueryMatch(query: string, name: string)
    requires forall k :: 0 <= k < |query| ==> IsSpace(query[k])
    ensures RegularMatch(query, name) <==> exists k :: 0 <= k < |name| && IsWordChar(name[k])
  {
    SplitBlank(query);
    RegularMatchMeaning(query, name);
    BoundaryIffWordChar(name);
  }
}
