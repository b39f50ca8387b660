/** Record deduplication as storeLightgrid does it with `use_lightgridarray` set: each
    record is looked up in a table keyed by its value; the first occurrence is appended to
    the record list and given the next index, every occurrence appends its index to the
    index list. */
module Dedup {

  /** One lightgrid record: a list of byte values. */
  type Record = seq<int>

  /** The state after a run of insertions: the distinct records in the order first seen,
      one index per insertion, and the lookup table from record to index. */
  datatype Table = Table(records: seq<Record>, indices: seq<nat>, slots: map<Record, nat>)

  function Empty(): Table {
    Table([], [], map[])
  }

  /** The table is consistent: records are distinct, the lookup table holds exactly the
      records, and each record's slot is its position. */
  ghost predicate Valid(tb: Table) {
    && (forall i, j :: 0 <= i < j < |tb.records| ==> tb.records[i] != tb.records[j])
    && (forall r :: r in tb.slots <==> r in tb.records)
    && (forall r :: r in tb.slots ==> tb.slots[r] < |tb.records| && tb.records[tb.slots[r]] == r)
    && (forall i :: 0 <= i < |tb.indices| ==> tb.indices[i] < |tb.records|)
  }

  /** One insertion: an already seen record only appends its index ("found twin");
      a new one is appended to the records, given the next index, and entered in the table. */
  function Insert(tb: Table, r: Record): (tb': Table)
    ensures |tb'.indices| == |tb.indices| + 1
  {
    if r in tb.slots then
      Table(tb.records, tb.indices + [tb.slots[r]], tb.slots)
    else
      var next := |tb.records|;
      Table(tb.records + [r], tb.indices + [next], tb.slots[r := next])
  }

  /** The table after inserting `rs` in order. */
  function Build(rs: seq<Record>): (tb: Table)
    ensures |tb.indices| == |rs|
    decreases |rs|
  {
    if |rs| == 0 then Empty() else Insert(Build(rs[..|rs| - 1]), rs[|rs| - 1])
  }

  /** The index list encodes `rs`: one index per input, naming a record equal to it. */
  ghost predicate Encodes(tb: Table, rs: seq<Record>) {
    && |tb.indices| == |rs|
    && forall i :: 0 <= i < |rs| ==> tb.indices[i] < |tb.records| && tb.records[tb.indices[i]] == rs[i]
  }

  /** Insertion keeps the table consistent and extends what it encodes by the inserted record. */
  lemma InsertValid(tb: Table, rs: seq<Record>, r: Record)
    requires Valid(tb) && Encodes(tb, rs)
    ensures Valid(Insert(tb, r)) && Encodes(Insert(tb, r), rs + [r])
  {
    var tb' := Insert(tb, r);
    if r !in tb.slots {
      assert r !in tb.records;
      forall q | q in tb'.slots ensures tb'.slots[q] < |tb'.records| && tb'.records[tb'.slots[q]] == q {
        if q != r {
          assert q in tb.slots;
        }
      }
    }
    forall i | 0 <= i < |rs| + 1
      ensures tb'.indices[i] < |tb'.records| && tb'.records[tb'.indices[i]] == (rs + [r])[i]
    {
      if i < |rs| {
        assert tb'.indices[i] == tb.indices[i];
      }
    }
  }

  /** Building loses nothing: one index per input, and the index of input i names a record
      equal to input i. The table is consistent. */
  lemma {:induction false} BuildLossless(rs: seq<Record>)
    ensures Valid(Build(rs)) && Encodes(Build(rs), rs)
  {
    if |rs| > 0 {
      var front := rs[..|rs| - 1];
      BuildLossless(front);
      InsertValid(Build(front), front, rs[|rs| - 1]);
      assert front + [rs[|rs| - 1]] == rs;
    }
  }

  /** Insertion into a consistent table adds exactly the inserted record to the records. */
  lemma InsertRecords(tb: Table, r: Record)
    requires forall q :: q in tb.slots ==> q in tb.records
    ensures forall q :: q in Insert(tb, r).records <==> q in tb.records || q == r
  {
  }

  /** One more input extends both lists of the table built so far. */
  lemma BuildPrefix(rs: seq<Record>)
    requires |rs| > 0
    ensures var tb, tb' := Build(rs[..|rs| - 1]), Build(rs);
            |tb.records| <= |tb'.records| && |tb.indices| <= |tb'.indices|
            && tb'.records[..|tb.records|] == tb.records
            && tb'.indices[..|tb.indices|] == tb.indices
  {
  }

  /** The records are exactly the distinct inputs. */
  lemma {:induction false} BuildRecordsAreInputs(rs: seq<Record>)
    ensures forall r :: r in Build(rs).records <==> r in rs
  {
    if |rs| > 0 {
      var front, last := rs[..|rs| - 1], rs[|rs| - 1];
      BuildRecordsAreInputs(front);
      assert forall q :: q in Build(front).slots ==> q in Build(front).records by {
        BuildLossless(front);
      }
      InsertRecords(Build(front), last);
      assert rs == front + [last];
      assert forall r :: r in rs <==> r in front || r == last;
    }
  }

  /** Two inputs share an index exactly when they are equal: the index list is an exact
      encoding of the inputs against the distinct record list. */
  lemma SameIndexIffEqual(rs: seq<Record>, i: nat, j: nat)
    requires i < |rs| && j < |rs|
    ensures Build(rs).indices[i] == Build(rs).indices[j] <==> rs[i] == rs[j]
  {
    BuildLossless(rs);
  }

  /** Building never yields more records than inputs. */
  lemma {:induction false} BuildNoLonger(rs: seq<Record>)
    ensures |Build(rs).records| <= |rs|
  {
    if |rs| > 0 {
      BuildNoLonger(rs[..|rs| - 1]);
    }
  }

  /** Building the first k inputs gives a prefix of both lists of the full build. */
  lemma {:induction false} BuildPrefixes(rs: seq<Record>, k: nat)
    requires k <= |rs|
    ensures var tb, tb' := Build(rs[..k]), Build(rs);
            |tb.records| <= |tb'.records| && |tb.indices| <= |tb'.indices|
            && tb'.records[..|tb.records|] == tb.records
            && tb'.indices[..|tb.indices|] == tb.indices
    decreases |rs|
  {
    if k < |rs| {
      var front := rs[..|rs| - 1];
      BuildPrefixes(front, k);
      assert front[..k] == rs[..k];
      BuildPrefix(rs);
    } else {
      assert rs[..k] == rs;
    }
  }

  /** Input i gets a new index, the number of records seen so far, exactly when it does
      not occur earlier; otherwise it reuses the index of its earlier occurrence. */
  lemma NewRecordGetsNextIndex(rs: seq<Record>, i: nat)
    requires i < |rs|
    ensures var tb, tb' := Build(rs[..i]), Build(rs[..i + 1]);
            (rs[i] !in rs[..i] ==> tb'.indices[i] == |tb.records| && |tb'.records| == |tb.records| + 1)
            && (rs[i] in rs[..i] ==> tb'.indices[i] < |tb.records| && tb'.records == tb.records)
  {
    var pre := rs[..i + 1];
    assert pre[..i] == rs[..i];
    BuildLossless(pre);
    BuildLossless(rs[..i]);
    BuildRecordsAreInputs(rs[..i]);
  }
}
