/**
 * A worked instance of the reconciliation: three base rows, a pending log holding an
 * update, an insert and a delete, and a latest-wins merger that turns a delete marker
 * into "no record".
 */
module Scenario {
  import opened Wrappers
  import opened Collaborators
  import opened SliceMerge

  /** A row: its record key, a value, and whether it is a delete marker. */
  datatype Row = Row(key: Key, value: string, isDelete: bool)

  /** Latest wins: the newer row replaces the older one, and a delete marker removes it. */
  function LatestWins(older: Row, newer: Row, props: Props): (r: Option<Row>)
    ensures r.None? <==> newer.isDelete
    ensures r.Some? ==> r.value == newer
  {
    if newer.isDelete then None else Some(newer)
  }

  function Ctx(): Context<Row> {
    Context((r: Row) => r.key, LatestWins, PayloadProps(None), (r: Row) => Wrapped(r))
  }

  function Base(): seq<Row> {
    [Row("k1", "v1", false), Row("k2", "v2", false), Row("k3", "v3", false)]
  }

  function Log(): map<Key, Row> {
    map["k2" := Row("k2", "v2'", false), "k4" := Row("k4", "v4", false), "k3" := Row("k3", "", true)]
  }

  /**
   * k1 passes through, k2 is the merged row, k3 is suppressed, and only k4 is left for
   * the tail.
   */
  lemma ScenarioOutcome()
    ensures BaseEmissions(Ctx(), Base(), Log(), 3) ==
      [Emission("k1", FromBase(0, false), Ok(Row("k1", "v1", false))),
       Emission("k2", FromBase(1, true), Ok(Row("k2", "v2'", false)))]
    ensures Pending(Ctx(), Base(), Log(), 3) == map["k4" := Row("k4", "v4", false)]
    ensures BaseMergeCalls(Ctx(), Base(), Log(), 3) ==
      [MergeCall(1, Row("k2", "v2", false), Row("k2", "v2'", false), Some(Row("k2", "v2'", false))),
       MergeCall(2, Row("k3", "v3", false), Row("k3", "", true), None)]
  {
    var c, b, l := Ctx(), Base(), Log();
    assert Pending(c, b, l, 1) == l;
    assert Pending(c, b, l, 2) == map["k4" := Row("k4", "v4", false), "k3" := Row("k3", "", true)];
    assert StepAt(c, b, l, 0) == Some(Emission("k1", FromBase(0, false), Ok(Row("k1", "v1", false))));
    assert StepAt(c, b, l, 1) == Some(Emission("k2", FromBase(1, true), Ok(Row("k2", "v2'", false))));
    assert StepAt(c, b, l, 2) == None;
    assert BaseEmissions(c, b, l, 1) == [StepAt(c, b, l, 0).value];
    assert BaseEmissions(c, b, l, 2) == [StepAt(c, b, l, 0).value, StepAt(c, b, l, 1).value];
    assert CallAt(c, b, l, 0) == None;
    assert BaseMergeCalls(c, b, l, 1) == [];
    assert BaseMergeCalls(c, b, l, 2) == [CallAt(c, b, l, 1).value];
    assert Pending(c, b, l, 3) == Pending(c, b, l, 2) - {"k3"};
  }

  /** Whatever order the tail takes, it hands out the k4 row alone and unchanged. */
  lemma ScenarioTail(tail: seq<Emission<Row>>)
    requires Drain(tail, Pending(Ctx(), Base(), Log(), 3))
    ensures tail == [Emission("k4", FromLogOnly, Ok(Row("k4", "v4", false)))]
  {
    ScenarioOutcome();
    var m := Pending(Ctx(), Base(), Log(), 3);
    assert m.Keys == {"k4"};
    assert "k4" in KeySet(tail);
    assert |tail| >= 1;
    FirstTwoDiffer(tail);
    assert tail[0].key in m;
  }

  lemma FirstTwoDiffer<R>(s: seq<Emission<R>>)
    requires DistinctKeys(s)
    ensures |s| >= 2 ==> s[0].key != s[1].key
  {
  }
}
