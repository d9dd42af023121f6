/** The fragment of Python's `re` that the regular search mode uses: word
    boundaries (`\b`), escaped literal characters compared under
    `re.IGNORECASE`, and `.*`, which crosses any character but a newline.
    Patterns are given as the sequence of atoms that `re` parses them into;
    `MatchAt` is the backtracking matcher and `Search` is `re.search`,
    which tries every start position. */
module Regex {
  import opened Text

  datatype Atom =
    | WordBoundary      // \b
    | Literal(c: char)  // one escaped character
    | AnyRun            // .*

  type Pattern = seq<Atom>

  /** There is a word character at index `i`; indices outside `s` hold none. */
  predicate WordAt(s: string, i: int) {
    0 <= i < |s| && IsWordChar(s[i])
  }

  /** `\b` at position `i`: a word character on exactly one side. */
  predicate AtBoundary(s: string, i: int) {
    WordAt(s, i - 1) != WordAt(s, i)
  }

  /** `w` occurs at `i` in `s`, ignoring case. */
  predicate OccursAt(w: string, s: string, i: nat) {
    i + |w| <= |s| && forall k :: 0 <= k < |w| ==> Fold(s[i + k]) == Fold(w[k])
  }

  /** No newline among `s[i..j]`. */
  predicate NoNewline(s: string, i: nat, j: nat) {
    forall k :: i <= k < j && k < |s| ==> s[k] != '\n'
  }

  /** Some prefix of `s[i..]` matches `p`. */
  function MatchAt(p: Pattern, s: string, i: nat): bool
    requires i <= |s|
    decreases |p|, |s| - i
  {
    if p == [] then true
    else match p[0]
      case WordBoundary => AtBoundary(s, i) && MatchAt(p[1..], s, i)
      case Literal(c) => i < |s| && Fold(s[i]) == Fold(c) && MatchAt(p[1..], s, i + 1)
      case AnyRun => MatchAt(p[1..], s, i) || (i < |s| && s[i] != '\n' && MatchAt(p, s, i + 1))
  }

  function SearchFrom(p: Pattern, s: string, i: nat): bool
    requires i <= |s|
    decreases |s| - i
  {
    MatchAt(p, s, i) || (i < |s| && SearchFrom(p, s, i + 1))
  }

  /** `re.search(p, s, re.IGNORECASE)` finds a match. */
  function Search(p: Pattern, s: string): bool {
    SearchFrom(p, s, 0)
  }

  /** `re.escape`: every character of `w` becomes a literal. */
  function Escape(w: string): Pattern {
    if w == [] then [] else [Literal(w[0])] + Escape(w[1..])
  }

  /** The escaped word is the word's characters, one literal each, in order. */
  lemma {:induction false} EscapeLiterals(w: string)
    ensures |Escape(w)| == |w|
    ensures forall k :: 0 <= k < |w| ==> Escape(w)[k] == Literal(w[k])
    decreases |w|
  {
    if w != [] {
      EscapeLiterals(w[1..]);
      forall k | 1 <= k < |w| ensures Escape(w)[k] == Literal(w[k]) {
        assert Escape(w)[k] == Escape(w[1..])[k - 1];
      }
    }
  }

  lemma {:induction false} SearchFromFinds(p: Pattern, s: string, j: nat)
    requires j <= |s|
    ensures SearchFrom(p, s, j) <==> exists i: nat :: j <= i <= |s| && MatchAt(p, s, i)
    decreases |s| - j
  {
    if MatchAt(p, s, j) {
      assert SearchFrom(p, s, j);
      assert exists i: nat :: j <= i <= |s| && MatchAt(p, s, i);
    } else if j < |s| {
      SearchFromFinds(p, s, j + 1);
      if exists i: nat :: j <= i <= |s| && MatchAt(p, s, i) {
        var i: nat :| j <= i <= |s| && MatchAt(p, s, i);
        assert j + 1 <= i;
      }
    }
  }

  /** `re.search` succeeds iff the pattern matches at some position. */
  lemma SearchFinds(p: Pattern, s: string)
    ensures Search(p, s) <==> exists i: nat :: i <= |s| && MatchAt(p, s, i)
  {
    SearchFromFinds(p, s, 0);
  }

  lemma BoundaryStep(r: Pattern, s: string, i: nat)
    requires i <= |s|
    ensures MatchAt([WordBoundary] + r, s, i) <==> AtBoundary(s, i) && MatchAt(r, s, i)
  {
    assert ([WordBoundary] + r)[1..] == r;
  }

  /** An escaped word matches exactly where the text spells the word, up to
      case: characters that are special to `re` match only themselves. */
  lemma {:induction false} EscapeMatch(w: string, r: Pattern, s: string, i: nat)
    requires i <= |s|
    ensures MatchAt(Escape(w) + r, s, i) <==> OccursAt(w, s, i) && MatchAt(r, s, i + |w|)
    decreases |w|
  {
    if w == [] {
      assert Escape(w) + r == r;
    } else {
      var p := Escape(w) + r;
      assert p == [Literal(w[0])] + (Escape(w[1..]) + r);
      assert p[1..] == Escape(w[1..]) + r;
      if i < |s| {
        EscapeMatch(w[1..], r, s, i + 1);
        if OccursAt(w, s, i) {
          assert Fold(s[i + 0]) == Fold(w[0]);
          assert OccursAt(w[1..], s, i + 1) by {
            forall k | 0 <= k < |w[1..]| ensures Fold(s[i + 1 + k]) == Fold(w[1..][k]) {
              assert Fold(s[i + (k + 1)]) == Fold(w[k + 1]);
            }
          }
        }
        if Fold(s[i]) == Fold(w[0]) && OccursAt(w[1..], s, i + 1) {
          assert OccursAt(w, s, i) by {
            forall k | 0 <= k < |w| ensures Fold(s[i + k]) == Fold(w[k]) {
              if k > 0 {
                assert Fold(s[i + 1 + (k - 1)]) == Fold(w[1..][k - 1]);
              }
            }
          }
        }
      }
    }
  }

  /** `.*` followed by `r` matches at `i` iff `r` matches at some `j >= i`
      with no newline in between. */
  lemma {:induction false} AnyRunMatch(r: Pattern, s: string, i: nat)
    requires i <= |s|
    ensures MatchAt([AnyRun] + r, s, i) <==>
            exists j: nat :: i <= j <= |s| && NoNewline(s, i, j) && MatchAt(r, s, j)
    decreases |s| - i
  {
    var p := [AnyRun] + r;
    assert p[1..] == r;
    if MatchAt(r, s, i) {
      assert i <= i <= |s| && NoNewline(s, i, i) && MatchAt(r, s, i);
    } else if i < |s| {
      AnyRunMatch(r, s, i + 1);
      if MatchAt(p, s, i) && !MatchAt(r, s, i) {
        var j: nat :| i + 1 <= j <= |s| && NoNewline(s, i + 1, j) && MatchAt(r, s, j);
        assert NoNewline(s, i, j);
      }
      if exists j: nat :: i <= j <= |s| && NoNewline(s, i, j) && MatchAt(r, s, j) {
        var j: nat :| i <= j <= |s| && NoNewline(s, i, j) && MatchAt(r, s, j);
        if j > i {
          assert s[i] != '\n';
          assert NoNewline(s, i + 1, j);
        }
      }
    }
  }
}
