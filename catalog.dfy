/** The code-to-name table the service answers from. It is built once from
    the loaded records by a dict comprehension keyed by code; like a Python
    dict it keeps its keys in first-insertion order, and a code that occurs
    again overwrites the name in place. The table is modelled as the list of
    its items in iteration order, with distinct codes. Codes are stored
    exactly as the records spell them. */
module Catalog {
  import opened Wrappers

  /** One record of the data file, and one item of the table. */
  datatype Entry = Entry(code: string, name: string)

  /** The codes of `es`, in order. */
  function CodeList(es: seq<Entry>): (cs: seq<string>)
    ensures |cs| == |es| && forall i :: 0 <= i < |es| ==> cs[i] == es[i].code
  {
    if es == [] then [] else [es[0].code] + CodeList(es[1..])
  }

  /** The set of codes of `es`. */
  function Codes(es: seq<Entry>): set<string> {
    set i | 0 <= i < |es| :: es[i].code
  }

  /** No code occurs twice: the invariant of a dict's items. */
  predicate DistinctCodes(es: seq<Entry>) {
    forall i, j :: 0 <= i < j < |es| ==> es[i].code != es[j].code
  }

  /** `d.get(code)`: the name stored under `code`, if any. */
  function Get(cat: seq<Entry>, code: string): (r: Option<string>)
    ensures r.Some? <==> code in Codes(cat)
    ensures r.Some? ==> exists i :: 0 <= i < |cat| && cat[i] == Entry(code, r.value)
  {
    if cat == [] then None
    else if cat[0].code == code then Some(cat[0].name)
    else
      var r := Get(cat[1..], code);
      assert forall i :: 0 < i < |cat| ==> cat[i] == cat[1..][i - 1];
      assert Codes(cat) == {cat[0].code} + Codes(cat[1..]) by {
        forall c | c in Codes(cat) ensures c in {cat[0].code} + Codes(cat[1..]) {
          var i :| 0 <= i < |cat| && cat[i].code == c;
          if i > 0 { assert cat[1..][i - 1].code == c; }
        }
      }
      r
  }

  /** With distinct codes, the name found is the one of the item holding the code. */
  lemma GetAt(cat: seq<Entry>, i: nat)
    requires DistinctCodes(cat) && i < |cat|
    ensures Get(cat, cat[i].code) == Some(cat[i].name)
  {
    var r := Get(cat, cat[i].code);
    var j :| 0 <= j < |cat| && cat[j] == Entry(cat[i].code, r.value);
  }

  /** `d[e.code] = e.name`. */
  function Put(cat: seq<Entry>, e: Entry): (r: seq<Entry>)
    requires DistinctCodes(cat)
    ensures DistinctCodes(r)
    ensures Codes(r) == Codes(cat) + {e.code}
    ensures |r| == if e.code in Codes(cat) then |cat| else |cat| + 1
  {
    var r :=
      if e.code in Codes(cat) then seq(|cat|, i requires 0 <= i < |cat| => if cat[i].code == e.code then e else cat[i])
      else cat + [e];
    assert Codes(r) == Codes(cat) + {e.code} by {
      if e.code in Codes(cat) {
        var i :| 0 <= i < |cat| && cat[i].code == e.code;
        assert r[i].code == e.code;
      } else {
        assert r[|cat|].code == e.code;
      }
      forall c | c in Codes(cat) ensures c in Codes(r) {
        var j :| 0 <= j < |cat| && cat[j].code == c;
        assert r[j].code == c;
      }
    }
    r
  }

  /** An existing code keeps its place; a new code goes last. */
  lemma PutOrder(cat: seq<Entry>, e: Entry)
    requires DistinctCodes(cat)
    ensures CodeList(Put(cat, e)) == if e.code in Codes(cat) then CodeList(cat) else CodeList(cat) + [e.code]
  {
    var r := Put(cat, e);
    var rl, cl := CodeList(r), CodeList(cat);
    if e.code in Codes(cat) {
      forall i | 0 <= i < |cat| ensures rl[i] == cl[i] {
        assert r[i] == if cat[i].code == e.code then e else cat[i];
      }
      assert rl == cl;
    } else {
      assert r == cat + [e];
      forall i | 0 <= i < |r| ensures rl[i] == (cl + [e.code])[i] {
        if i < |cat| { assert r[i] == cat[i]; }
      }
      assert rl == cl + [e.code];
    }
  }

  /** After `d[e.code] = e.name`, the code holds the new name and every
      other code what it held before. */
  lemma PutGet(cat: seq<Entry>, e: Entry, c: string)
    requires DistinctCodes(cat)
    ensures Get(Put(cat, e), c) == if c == e.code then Some(e.name) else Get(cat, c)
  {
    var r := Put(cat, e);
    if c in Codes(r) {
      var i :| 0 <= i < |r| && r[i].code == c;
      GetAt(r, i);
      if c != e.code {
        assert r[i] == cat[i];
        GetAt(cat, i);
      } else {
        assert r[i] == e;
      }
    }
  }

  /** `{r.code: r.name for r in records}`. */
  function Build(records: seq<Entry>): (cat: seq<Entry>)
    ensures DistinctCodes(cat)
    ensures Codes(cat) == Codes(records)
    ensures |cat| <= |records|
  {
    if records == [] then []
    else
      var n := |records| - 1;
      var cat := Put(Build(records[..n]), records[n]);
      assert Codes(records) == Codes(records[..n]) + {records[n].code} by {
        forall c | c in Codes(records) ensures c in Codes(records[..n]) + {records[n].code} {
          var i :| 0 <= i < |records| && records[i].code == c;
          if i < n { assert records[..n][i].code == c; }
        }
      }
      cat
  }

  lemma BuildStep(records: seq<Entry>)
    requires records != []
    ensures Build(records) == Put(Build(records[..|records| - 1]), records[|records| - 1])
  {
  }

  /** Each code maps to the name of the last record carrying it. */
  lemma {:induction false} LastRecordWins(records: seq<Entry>, j: nat)
    requires j < |records|
    requires forall k :: j < k < |records| ==> records[k].code != records[j].code
    ensures Get(Build(records), records[j].code) == Some(records[j].name)
  {
    var n := |records| - 1;
    var prefix := records[..n];
    var e := records[n];
    var code := records[j].code;
    var before := Build(prefix);
    BuildStep(records);
    assert Build(records) == Put(before, e);
    PutGet(before, e, code);
    if j < n {
      LastInPrefix(records, j);
      LastRecordWins(prefix, j);
      assert Get(before, code) == Some(records[j].name);
      assert code != e.code;
    } else {
      assert j == n;
      assert records[j] == e;
    }
  }

  lemma LastInPrefix(records: seq<Entry>, j: nat)
    requires j < |records| - 1
    requires forall k :: j < k < |records| ==> records[k].code != records[j].code
    ensures var prefix := records[..|records| - 1];
      && prefix[j] == records[j]
      && records[|records| - 1].code != records[j].code
      && forall k :: j < k < |prefix| ==> prefix[k].code != prefix[j].code
  {
  }

  /** A code that no record carries is not in the table. */
  lemma AbsentCode(records: seq<Entry>, code: string)
    requires forall k :: 0 <= k < |records| ==> records[k].code != code
    ensures Get(Build(records), code) == None
  {
    assert code !in Codes(records);
  }

  /** Records whose codes are already distinct become the table unchanged. */
  lemma {:induction false} BuildDistinct(records: seq<Entry>)
    requires DistinctCodes(records)
    ensures Build(records) == records
  {
    if records != [] {
      var n := |records| - 1;
      var prefix := records[..n];
      assert DistinctCodes(prefix);
      BuildDistinct(prefix);
      assert records[n].code !in Codes(prefix);
      assert prefix + [records[n]] == records;
    }
  }

  /** The position at which `code` first occurs among `records`. */
  function FirstIndex(records: seq<Entry>, code: string): (i: nat)
    requires code in Codes(records)
    ensures i < |records| && records[i].code == code
    ensures forall k :: 0 <= k < i ==> records[k].code != code
  {
    if records[0].code == code then 0
    else
      assert code in Codes(records[1..]) by {
        var i :| 0 <= i < |records| && records[i].code == code;
        assert records[1..][i - 1].code == code;
      }
      1 + FirstIndex(records[1..], code)
  }

  lemma FirstIndexOfPrefix(records: seq<Entry>, n: nat, code: string)
    requires n <= |records| && code in Codes(records[..n])
    ensures code in Codes(records) && FirstIndex(records, code) == FirstIndex(records[..n], code)
  {
    var i := FirstIndex(records[..n], code);
    assert records[i].code == code;
    var j := FirstIndex(records, code);
    assert !(j < i) && !(i < j);
  }

  /** Adding a record leaves the codes already in the table where they are;
      a new code lands just after them. */
  lemma BuildExtends(records: seq<Entry>, i: nat)
    requires records != [] && i < |Build(records)|
    ensures var before := Build(records[..|records| - 1]);
      if i < |before| then Build(records)[i].code == before[i].code
      else Build(records)[i].code == records[|records| - 1].code && records[|records| - 1].code !in Codes(before)
  {
    var n := |records| - 1;
    var before := Build(records[..n]);
    var e := records[n];
    var cat := Build(records);
    BuildStep(records);
    assert cat == Put(before, e);
    PutOrder(before, e);
    var cl, bl := CodeList(cat), CodeList(before);
    assert cl[i] == cat[i].code;
    if i < |before| {
      assert bl[i] == before[i].code;
      assert cl[i] == bl[i];
    } else {
      assert e.code !in Codes(before) && |cat| == |before| + 1;
      assert cl == bl + [e.code];
      assert i == |before|;
    }
  }

  /** A code new with the last record first occurs there. */
  lemma FirstIndexOfLast(records: seq<Entry>)
    requires records != [] && records[|records| - 1].code !in Codes(records[..|records| - 1])
    ensures records[|records| - 1].code in Codes(records)
    ensures FirstIndex(records, records[|records| - 1].code) == |records| - 1
  {
    var n := |records| - 1;
    var c := records[n].code;
    assert c in Codes(records);
    forall k | 0 <= k < n ensures records[k].code != c {
      assert records[..n][k] == records[k];
    }
  }

  /** The table lists codes in the order of their first occurrence among
      the records. */
  lemma {:induction false} BuildKeepsFirstOccurrenceOrder(records: seq<Entry>, a: nat, b: nat)
    requires a < b < |Build(records)|
    ensures Build(records)[a].code in Codes(records) && Build(records)[b].code in Codes(records)
    ensures FirstIndex(records, Build(records)[a].code) < FirstIndex(records, Build(records)[b].code)
  {
    var cat := Build(records);
    var n := |records| - 1;
    var prefix := records[..n];
    var before := Build(prefix);
    BuildExtends(records, a);
    BuildExtends(records, b);
    assert before[a].code in Codes(before);
    FirstIndexOfPrefix(records, n, before[a].code);
    if b < |before| {
      assert before[b].code in Codes(before);
      FirstIndexOfPrefix(records, n, before[b].code);
      BuildKeepsFirstOccurrenceOrder(prefix, a, b);
    } else {
      FirstIndexOfLast(records);
    }
  }
}
