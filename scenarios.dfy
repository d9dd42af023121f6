/** Worked examples of the two lookups on the two-item table
    `A01 Febre Tifoide`, `A02.0 Enterite por Salmonella`, and of the
    regular mode on two-word queries. */
module Scenarios {
  import opened Wrappers
  import opened Text
  import opened Regex
  import opened Catalog
  import opened Similarity
  import opened RegularMode
  import opened Service

  // ---------------------------------------------------------------------
  // Two-word queries in the regular mode

  /** A query of two words separated by one space splits into them. */
  lemma SplitTwoWords(a: string, b: string, query: string)
    requires IsToken(a) && IsToken(b) && query == a + " " + b
    ensures Split(query) == [a, b]
  {
    assert JoinWords([a, b]) == a + " " + b by {
      assert [a, b][1..] == [b];
    }
    SplitJoinWords([a, b]);
  }

  /** `a` sits at `p` and `b` at `q` in `name`, as whole words, in order,
      with no newline between them. */
  predicate InOrder2(a: string, b: string, name: string, p: nat, q: nat) {
    WholeWordAt(a, name, p) && WholeWordAt(b, name, q) && p + |a| <= q && NoNewline(name, p + |a|, q)
  }

  lemma Placement2(a: string, b: string, name: string, ps: seq<nat>)
    requires |ps| == 2
    ensures Placement([a, b], name, ps) <==> InOrder2(a, b, name, ps[0], ps[1])
  {
  }

  /** A two-word query matches a name iff its words are placed there in order. */
  lemma TwoWordMatch(a: string, b: string, query: string, name: string)
    requires Split(query) == [a, b]
    ensures RegularMatch(query, name) <==> exists p: nat, q: nat :: InOrder2(a, b, name, p, q)
  {
    RegularMatchMeaning(query, name);
    var words := [a, b];
    if InOrderWholeWords(words, name) {
      var ps :| Placement(words, name, ps);
      Placement2(a, b, name, ps);
      assert InOrder2(a, b, name, ps[0], ps[1]);
    }
    if exists p: nat, q: nat :: InOrder2(a, b, name, p, q) {
      var p: nat, q: nat :| InOrder2(a, b, name, p, q);
      Placement2(a, b, name, [p, q]);
      assert Placement(words, name, [p, q]);
    }
  }

  // ---------------------------------------------------------------------
  // "febre amarela"

  lemma SplitFebreAmarela(query: string)
    requires query == "febre amarela"
    ensures Split(query) == ["febre", "amarela"]
  {
    LowerAsciiToken("febre");
    LowerAsciiToken("amarela");
    SplitTwoWords("febre", "amarela", query);
  }

  /** A word that occurs at `p`, starts and ends with a word character and
      has none just outside it is a whole word there. */
  lemma WordBetween(w: string, s: string, p: nat)
    requires |w| > 0 && OccursAt(w, s, p)
    requires p == 0 || !IsWordChar(s[p - 1])
    requires IsWordChar(s[p]) && IsWordChar(s[p + |w| - 1])
    requires p + |w| == |s| || !IsWordChar(s[p + |w|])
    ensures WholeWordAt(w, s, p)
  {
  }

  lemma FebreAt(w: string, name: string)
    requires w == "febre" && name == "Febre Amarela Silvestre"
    ensures WholeWordAt(w, name, 0)
  {
    AsciiLetterIsWordChar(name[0]);
    AsciiLetterIsWordChar(name[4]);
    SpaceIsNotWordChar();
    assert OccursAt(w, name, 0);
    WordBetween(w, name, 0);
  }

  lemma AmarelaAt(w: string, name: string)
    requires w == "amarela" && name == "Febre Amarela Silvestre"
    ensures WholeWordAt(w, name, 6)
  {
    AsciiLetterIsWordChar(name[6]);
    AsciiLetterIsWordChar(name[12]);
    SpaceIsNotWordChar();
    assert name[5] == ' ' && name[13] == ' ';
    assert OccursAt(w, name, 6);
    WordBetween(w, name, 6);
  }

  lemma FebreAmarelaPlaced(name: string)
    requires name == "Febre Amarela Silvestre"
    ensures exists p: nat, q: nat :: InOrder2("febre", "amarela", name, p, q)
  {
    FebreAt("febre", name);
    AmarelaAt("amarela", name);
    assert NoNewline(name, 5, 6);
    assert InOrder2("febre", "amarela", name, 0, 6);
  }

  /** Both words, in order, in another case: a match. */
  lemma FebreAmarelaMatches()
    ensures RegularMatch("febre amarela", "Febre Amarela Silvestre")
  {
    SplitFebreAmarela("febre amarela");
    FebreAmarelaPlaced("Febre Amarela Silvestre");
    TwoWordMatch("febre", "amarela", "febre amarela", "Febre Amarela Silvestre");
  }

  lemma FebreAmarelaReversed(name: string)
    requires name == "Amarela Febre"
    ensures forall p: nat, q: nat :: !InOrder2("febre", "amarela", name, p, q)
  {
    forall p: nat, q: nat | WholeWordAt("febre", name, p) && WholeWordAt("amarela", name, q)
      ensures p + 5 > q
    {
      assert Fold(name[p + 0]) == Fold("febre"[0]);
    }
  }

  /** The words in the other order: no match. */
  lemma WrongOrderFails()
    ensures !RegularMatch("febre amarela", "Amarela Febre")
  {
    SplitFebreAmarela("febre amarela");
    FebreAmarelaReversed("Amarela Febre");
    TwoWordMatch("febre", "amarela", "febre amarela", "Amarela Febre");
  }

  /** In a name made only of word characters, a five-letter word has no
      boundary after it. */
  lemma FebreRunTogether(name: string)
    requires name == "Febrexamarela"
    ensures forall p: nat :: !WholeWordAt("febre", name, p)
  {
  }

  /** The words run together: no match. */
  lemma NoBoundaryFails()
    ensures !RegularMatch("febre amarela", "Febrexamarela")
  {
    SplitFebreAmarela("febre amarela");
    FebreRunTogether("Febrexamarela");
    TwoWordMatch("febre", "amarela", "febre amarela", "Febrexamarela");
  }

  // ---------------------------------------------------------------------
  // The sample table

  const Sample: seq<Entry> := [Entry("A01", "Febre Tifoide"), Entry("A02.0", "Enterite por Salmonella")]

  lemma UpperA01()
    ensures Upper("a01") == "A01" && Upper("A01") == "A01"
  {
    assert Upper("1") == "1";
    assert Upper("01") == "0" + Upper("1");
    assert Upper("a01") == "A" + Upper("01");
    assert Upper("A01") == "A" + Upper("01");
  }

  /** The lower-case query finds the upper-case code. */
  lemma SampleLookup()
    ensures LookupCode(Build(Sample), "a01") == Found([Entry("A01", "Febre Tifoide")])
  {
    UpperA01();
    LookupInBuiltTable(Sample, "a01", 0);
  }

  lemma SplitEnteriteSalmonella(query: string)
    requires query == "enterite salmonella"
    ensures Split(query) == ["enterite", "salmonella"]
  {
    LowerAsciiToken("enterite");
    LowerAsciiToken("salmonella");
    SplitTwoWords("enterite", "salmonella", query);
  }

  lemma SplitSalmonellaEnterite(query: string)
    requires query == "salmonella enterite"
    ensures Split(query) == ["salmonella", "enterite"]
  {
    LowerAsciiToken("salmonella");
    LowerAsciiToken("enterite");
    SplitTwoWords("salmonella", "enterite", query);
  }

  lemma EnteriteAt(w: string, name: string)
    requires w == "enterite" && name == "Enterite por Salmonella"
    ensures WholeWordAt(w, name, 0)
  {
    AsciiLetterIsWordChar(name[0]);
    AsciiLetterIsWordChar(name[7]);
    SpaceIsNotWordChar();
    assert OccursAt(w, name, 0);
    WordBetween(w, name, 0);
  }

  lemma SalmonellaWordAt(w: string, name: string)
    requires w == "salmonella" && name == "Enterite por Salmonella"
    ensures WholeWordAt(w, name, 13)
  {
    AsciiLetterIsWordChar(name[13]);
    AsciiLetterIsWordChar(name[22]);
    SpaceIsNotWordChar();
    assert name[12] == ' ';
    assert OccursAt(w, name, 13);
    WordBetween(w, name, 13);
  }

  lemma EnteritePlaced(name: string)
    requires name == "Enterite por Salmonella"
    ensures exists p: nat, q: nat :: InOrder2("enterite", "salmonella", name, p, q)
  {
    EnteriteAt("enterite", name);
    SalmonellaWordAt("salmonella", name);
    assert NoNewline(name, 8, 13) by {
      forall k | 8 <= k < 13 ensures name[k] != '\n' {
        assert name[k] in " por ";
      }
    }
    assert InOrder2("enterite", "salmonella", name, 0, 13);
  }

  lemma SalmonellaAt(name: string)
    requires name == "Enterite por Salmonella"
    ensures forall p: nat :: OccursAt("salmonella", name, p) ==> p == 13
  {
    forall p: nat | OccursAt("salmonella", name, p) ensures p == 13 {
      assert Fold(name[p + 0]) == Fold("salmonella"[0]);
    }
  }

  lemma SalmonellaFirstUnplaced(name: string)
    requires name == "Enterite por Salmonella"
    ensures forall p: nat, q: nat :: !InOrder2("salmonella", "enterite", name, p, q)
  {
    SalmonellaAt(name);
  }

  /** The words in the order of the name: a match. */
  lemma EnteriteSalmonellaMatches()
    ensures RegularMatch("enterite salmonella", "Enterite por Salmonella")
  {
    SplitEnteriteSalmonella("enterite salmonella");
    EnteritePlaced("Enterite por Salmonella");
    TwoWordMatch("enterite", "salmonella", "enterite salmonella", "Enterite por Salmonella");
  }

  /** The words in the other order: no match. */
  lemma SalmonellaEnteriteFails()
    ensures !RegularMatch("salmonella enterite", "Enterite por Salmonella")
  {
    SplitSalmonellaEnterite("salmonella enterite");
    SalmonellaFirstUnplaced("Enterite por Salmonella");
    TwoWordMatch("salmonella", "enterite", "salmonella enterite", "Enterite por Salmonella");
  }

  /** Selecting the first item of the sample table only. */
  lemma SelectFirstOfSample(cat: seq<Entry>, keep: string -> bool)
    requires cat == Sample && keep(cat[0].name) && !keep(cat[1].name)
    ensures Select(cat, keep) == [Entry("A01", "Febre Tifoide")]
  {
    UpperA01();
    assert cat[..1] == [cat[0]];
    assert cat[..1][..0] == [];
  }

  /** With a score that rates "Febre Tifoide" at 80 or more against "febre"
      and the other name below 80, the flexible search returns the first
      item only. */
  lemma SampleFlexible(ratio: Scorer)
    requires ratio("Febre Tifoide", "febre") >= 80 && ratio("Enterite por Salmonella", "febre") < 80
    ensures SearchName(Build(Sample), ratio, "febre", None) == Found([Entry("A01", "Febre Tifoide")])
  {
    BuildDistinct(Sample);
    SelectFirstOfSample(Sample, KeepFor(Flexible, ratio, "febre"));
  }
}
