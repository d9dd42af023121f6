/** The two lookups the service answers: by exact code (`search_cid_by_code`)
    and by name (`search_cid_by_name`), with the "flexible" and "regular"
    modes. Results are the abstract outcomes the web layer turns into
    responses: the matching rows, "not found", or "invalid mode". */
module Service {
  import opened Wrappers
  import opened Text
  import opened Regex
  import opened Catalog
  import opened Similarity
  import opened RegularMode

  datatype Outcome =
    | Found(rows: seq<Entry>)
    | NotFound
    | InvalidMode

  /** A result row: the item's code upper-cased, and its name. */
  function Shown(e: Entry): Entry {
    Entry(Upper(e.code), e.name)
  }

  // ---------------------------------------------------------------------
  // Lookup by code

  /** `search_cid_by_code(code)`: the query is upper-cased and looked up as
      it stands among the stored codes. */
  function LookupCode(cat: seq<Entry>, code: string): (r: Outcome)
    ensures r.Found? || r.NotFound?
    ensures r.Found? <==> Upper(code) in Codes(cat)
    ensures r.Found? ==>
      |r.rows| == 1 && r.rows[0].code == Upper(code) &&
      exists i :: 0 <= i < |cat| && cat[i] == Entry(Upper(code), r.rows[0].name)
  {
    var key := Upper(code);
    match Get(cat, key)
    case Some(name) => Found([Entry(key, name)])
    case None => NotFound
  }

  /** The lookup does not depend on the case of the query. */
  lemma LookupIgnoresCase(cat: seq<Entry>, code: string)
    ensures LookupCode(cat, code) == LookupCode(cat, Upper(code))
  {
    UpperIdempotent(code);
  }

  /** Looking a code up in the table built from the records finds the name
      of the last record whose code is the upper-cased query, and finds
      nothing when no record carries that code as spelled. */
  lemma LookupInBuiltTable(records: seq<Entry>, code: string, j: nat)
    requires j < |records| && records[j].code == Upper(code)
    requires forall k :: j < k < |records| ==> records[k].code != records[j].code
    ensures LookupCode(Build(records), code) == Found([Entry(Upper(code), records[j].name)])
  {
    LastRecordWins(records, j);
  }

  lemma LookupMissing(records: seq<Entry>, code: string)
    requires forall k :: 0 <= k < |records| ==> records[k].code != Upper(code)
    ensures LookupCode(Build(records), code) == NotFound
  {
    AbsentCode(records, Upper(code));
  }

  /** Stored codes are not upper-cased: a record with a lower-case code can
      never be found, not even by that code. */
  lemma LowerCaseCodeUnreachable()
    ensures LookupCode(Build([Entry("a01", "Febre tifoide")]), "a01") == NotFound
  {
    var records := [Entry("a01", "Febre tifoide")];
    assert Upper("a01") == "A01" by {
      assert Upper("1") == "1";
      assert Upper("01") == "0" + Upper("1");
      assert Upper("a01") == "A" + Upper("01");
    }
    LookupMissing(records, "a01");
  }

  // ---------------------------------------------------------------------
  // Filtering the table

  /** `[Shown(e) for e in items if keep(e.name)]`. */
  function Select(cat: seq<Entry>, keep: string -> bool): (r: seq<Entry>)
    ensures |r| <= |cat|
    ensures r == [] <==> forall i :: 0 <= i < |cat| ==> !keep(cat[i].name)
  {
    if cat == [] then []
    else
      var n := |cat| - 1;
      var r := Select(cat[..n], keep) + (if keep(cat[n].name) then [Shown(cat[n])] else []);
      assert forall i :: 0 <= i < n ==> cat[..n][i] == cat[i];
      r
  }

  /** The positions of the items whose name passes `keep`, in increasing order. */
  function Hits(cat: seq<Entry>, keep: string -> bool): (idx: seq<nat>)
    ensures forall a, b :: 0 <= a < b < |idx| ==> idx[a] < idx[b]
    ensures forall a :: 0 <= a < |idx| ==> idx[a] < |cat|
    ensures forall i: nat :: i in idx <==> i < |cat| && keep(cat[i].name)
  {
    if cat == [] then []
    else
      var n := |cat| - 1;
      var idx := Hits(cat[..n], keep) + (if keep(cat[n].name) then [n] else []);
      assert forall i :: 0 <= i < n ==> cat[..n][i] == cat[i];
      idx
  }

  /** The selection is exactly the passing items, shown, in table order:
      its k-th row comes from the k-th passing item. */
  lemma {:induction false} SelectIsOrderedFilter(cat: seq<Entry>, keep: string -> bool)
    ensures |Select(cat, keep)| == |Hits(cat, keep)|
    ensures forall k :: 0 <= k < |Hits(cat, keep)| ==> Select(cat, keep)[k] == Shown(cat[Hits(cat, keep)[k]])
  {
    if cat != [] {
      var n := |cat| - 1;
      SelectIsOrderedFilter(cat[..n], keep);
      FilterStep(cat, keep);
    }
  }

  /** The k-th row of the selection shows the k-th passing item. */
  ghost predicate Aligned(cat: seq<Entry>, keep: string -> bool) {
    && |Select(cat, keep)| == |Hits(cat, keep)|
    && forall k :: 0 <= k < |Hits(cat, keep)| ==> Select(cat, keep)[k] == Shown(cat[Hits(cat, keep)[k]])
  }

  lemma FilterStep(cat: seq<Entry>, keep: string -> bool)
    requires cat != [] && Aligned(cat[..|cat| - 1], keep)
    ensures Aligned(cat, keep)
  {
    var n := |cat| - 1;
    var s0, h0 := Select(cat[..n], keep), Hits(cat[..n], keep);
    var s1, h1 := Select(cat, keep), Hits(cat, keep);
    assert s1 == s0 + (if keep(cat[n].name) then [Shown(cat[n])] else []);
    assert h1 == h0 + (if keep(cat[n].name) then [n] else []);
    forall k | 0 <= k < |h1| ensures s1[k] == Shown(cat[h1[k]]) {
      if k < |h0| {
        assert s1[k] == s0[k] && h1[k] == h0[k];
        assert cat[..n][h0[k]] == cat[h0[k]];
      }
    }
  }

  /** A row is in the selection iff it shows some passing item. */
  lemma SelectMembers(cat: seq<Entry>, keep: string -> bool, row: Entry)
    ensures row in Select(cat, keep) <==>
            exists i :: 0 <= i < |cat| && keep(cat[i].name) && row == Shown(cat[i])
  {
    SelectIsOrderedFilter(cat, keep);
    var r, idx := Select(cat, keep), Hits(cat, keep);
    if row in r {
      var k :| 0 <= k < |r| && r[k] == row;
      assert idx[k] in idx;
    }
    if exists i :: 0 <= i < |cat| && keep(cat[i].name) && row == Shown(cat[i]) {
      var i :| 0 <= i < |cat| && keep(cat[i].name) && row == Shown(cat[i]);
      assert i in idx;
      var k :| 0 <= k < |idx| && idx[k] == i;
      assert r[k] == row;
    }
  }

  /** When no two stored codes agree once upper-cased, no row repeats. */
  lemma SelectNoDuplicates(cat: seq<Entry>, keep: string -> bool)
    requires forall i, j :: 0 <= i < j < |cat| ==> Upper(cat[i].code) != Upper(cat[j].code)
    ensures forall a, b :: 0 <= a < b < |Select(cat, keep)| ==> Select(cat, keep)[a] != Select(cat, keep)[b]
  {
    SelectIsOrderedFilter(cat, keep);
    var r, idx := Select(cat, keep), Hits(cat, keep);
    forall a, b | 0 <= a < b < |r| ensures r[a] != r[b] {
      assert idx[a] < idx[b];
      assert r[a].code == Upper(cat[idx[a]].code) && r[b].code == Upper(cat[idx[b]].code);
    }
  }

  /** Two stored codes that differ only in case give the same row twice. */
  lemma CaseTwinsRepeat()
    ensures Select([Entry("a01", "Febre tifoide"), Entry("A01", "Febre tifoide")], _ => true) ==
            [Entry("A01", "Febre tifoide"), Entry("A01", "Febre tifoide")]
  {
    var cat := [Entry("a01", "Febre tifoide"), Entry("A01", "Febre tifoide")];
    assert Upper("a01") == "A01" by {
      assert Upper("1") == "1";
      assert Upper("01") == "0" + Upper("1");
      assert Upper("a01") == "A" + Upper("01");
    }
    assert Upper("A01") == "A01" by {
      assert Upper("1") == "1";
      assert Upper("01") == "0" + Upper("1");
      assert Upper("A01") == "A" + Upper("01");
    }
    assert cat[..1] == [Entry("a01", "Febre tifoide")];
    assert cat[..1][..0] == [];
  }

  // ---------------------------------------------------------------------
  // Search by name

  datatype SearchMode = Flexible | Regular

  /** `request.args.get("search_mode", "flexible")`, then the mode test. */
  function ParseMode(mode: Option<string>): (m: Option<SearchMode>)
    ensures m == Some(Flexible) <==> mode == None || mode == Some("flexible")
    ensures m == Some(Regular) <==> mode == Some("regular")
    ensures m == None <==> mode.Some? && mode.value != "flexible" && mode.value != "regular"
  {
    var given := match mode case Some(v) => v case None => "flexible";
    if given == "flexible" then Some(Flexible)
    else if given == "regular" then Some(Regular)
    else None
  }

  /** The test a name must pass in mode `m` for query `query`. */
  function KeepFor(m: SearchMode, ratio: Scorer, query: string): string -> bool {
    match m
    case Flexible => name => IsSimilar(ratio, name, query, DefaultThreshold)
    case Regular =>
      var pattern := QueryPattern(query);
      name => Search(pattern, name)
  }

  /** In the flexible mode a name passes iff its score against the query
      is at least 80; in the regular mode iff the query's words occur in it
      in order as whole words, ignoring case. */
  lemma KeepForMeaning(ratio: Scorer, query: string, name: string)
    ensures KeepFor(Flexible, ratio, query)(name) <==> ratio(name, query) >= 80
    ensures KeepFor(Regular, ratio, query)(name) <==> InOrderWholeWords(Split(query), name)
  {
    RegularMatchMeaning(query, name);
  }

  /** `search_cid_by_name(query)` with the optional `search_mode` argument. */
  function SearchName(cat: seq<Entry>, ratio: Scorer, query: string, mode: Option<string>): (r: Outcome)
    ensures r == InvalidMode <==> ParseMode(mode) == None
    ensures r.Found? ==> r.rows != []
    ensures ParseMode(mode).Some? ==>
      (r == NotFound <==> forall i :: 0 <= i < |cat| ==> !KeepFor(ParseMode(mode).value, ratio, query)(cat[i].name))
  {
    match ParseMode(mode)
    case None => InvalidMode
    case Some(m) =>
      var rows := Select(cat, KeepFor(m, ratio, query));
      if rows == [] then NotFound else Found(rows)
  }

  /** Whatever the query and the table, an unknown mode is refused. */
  lemma UnknownModeRefused(cat: seq<Entry>, ratio: Scorer, query: string, mode: string)
    requires mode != "flexible" && mode != "regular"
    ensures SearchName(cat, ratio, query, Some(mode)) == InvalidMode
  {
  }

  /** Leaving the mode out is asking for the flexible mode. */
  lemma DefaultModeIsFlexible(cat: seq<Entry>, ratio: Scorer, query: string)
    ensures SearchName(cat, ratio, query, None) == SearchName(cat, ratio, query, Some("flexible"))
  {
  }

  /** A successful search returns every passing item of the table, shown,
      in table order, and nothing else. */
  lemma SearchRows(cat: seq<Entry>, ratio: Scorer, query: string, mode: Option<string>, m: SearchMode)
    requires ParseMode(mode) == Some(m)
    requires SearchName(cat, ratio, query, mode).Found?
    ensures var rows := SearchName(cat, ratio, query, mode).rows;
      var idx := Hits(cat, KeepFor(m, ratio, query));
      && |rows| == |idx|
      && (forall k :: 0 <= k < |idx| ==> rows[k] == Shown(cat[idx[k]]))
      && (forall row :: row in rows <==>
            exists i :: 0 <= i < |cat| && KeepFor(m, ratio, query)(cat[i].name) && row == Shown(cat[i]))
  {
    var keep := KeepFor(m, ratio, query);
    SelectIsOrderedFilter(cat, keep);
    forall row ensures row in Select(cat, keep) <==>
        exists i :: 0 <= i < |cat| && keep(cat[i].name) && row == Shown(cat[i]) {
      SelectMembers(cat, keep, row);
    }
  }
}
