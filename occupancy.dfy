/** `SEAPBulletin._get_occupation`: capacity and head count per facility. The capacity and detail
    tables are summed per id (`groupby(...).sum()`), the two sums are joined one to one, and the
    result is joined with `facilities`, whose ids must be unique (`validate='1:1'`). */
module Occupancy {
  import opened Wrappers
  import opened Table
  import Normalize

  /** The columns of the occupancy table. */
  const OccupationColumns: set<Column> :=
    {UnidadeId, UnidadeNome, UnidadeSigla, CapacidadeAtual, EfetivoReal}

  /** Column `col` holds a number on every row, so that it can be summed. */
  predicate Numeric(rows: seq<Row>, col: Column) {
    forall k :: 0 <= k < |rows| ==> Get(rows[k], col).Num?
  }

  predicate HasId(rows: seq<Row>, id: Cell) {
    exists k :: 0 <= k < |rows| && Get(rows[k], UnidadeId) == id
  }

  predicate UniqueIds(rows: seq<Row>) {
    forall i, j :: 0 <= i < j < |rows| ==> Get(rows[i], UnidadeId) != Get(rows[j], UnidadeId)
  }

  /** The sum of column `col` over the rows with id `id`: the value the aggregation must give. */
  function Total(rows: seq<Row>, id: Cell, col: Column): int
    requires Numeric(rows, col)
  {
    if rows == [] then 0
    else (if Get(rows[0], UnidadeId) == id then Get(rows[0], col).n else 0) + Total(rows[1..], id, col)
  }

  lemma {:induction false} TotalSnoc(rows: seq<Row>, x: Row, id: Cell, col: Column)
    requires Numeric(rows + [x], col)
    ensures Numeric(rows, col) && Get(x, col).Num?
    ensures Total(rows + [x], id, col) == Total(rows, id, col) + (if Get(x, UnidadeId) == id then Get(x, col).n else 0)
  {
    assert forall k :: 0 <= k < |rows| ==> (rows + [x])[k] == rows[k];
    assert (rows + [x])[|rows|] == x;
    if rows != [] {
      assert (rows + [x])[1..] == rows[1..] + [x];
      TotalSnoc(rows[1..], x, id, col);
    }
  }

  /** `rows.groupby(id_col)[col].sum()`, accumulated row after row: one entry per id present. */
  function GroupSums(rows: seq<Row>, col: Column): (m: map<Cell, int>)
    requires Numeric(rows, col)
    ensures forall id :: id in m <==> HasId(rows, id)
  {
    if rows == [] then map[]
    else
      var init, x := rows[..|rows| - 1], rows[|rows| - 1];
      assert forall k :: 0 <= k < |init| ==> init[k] == rows[k];
      var m := GroupSums(init, col);
      var id := Get(x, UnidadeId);
      m[id := (if id in m then m[id] else 0) + Get(x, col).n]
  }

  /** The accumulated sum of each id is the total over that id's rows. */
  lemma {:induction false} GroupSumsTotal(rows: seq<Row>, col: Column, id: Cell)
    requires Numeric(rows, col) && HasId(rows, id)
    ensures id in GroupSums(rows, col) && GroupSums(rows, col)[id] == Total(rows, id, col)
  {
    var init := rows[..|rows| - 1];
    TotalLast(rows, id, col);
    if HasId(init, id) {
      GroupSumsTotal(init, col, id);
    } else {
      TotalAbsent(init, id, col);
    }
  }

  /** The total of a table is that of its rows but the last, plus the last. */
  lemma TotalLast(rows: seq<Row>, id: Cell, col: Column)
    requires Numeric(rows, col) && rows != []
    ensures Numeric(rows[..|rows| - 1], col)
    ensures Total(rows, id, col)
      == Total(rows[..|rows| - 1], id, col) + (if Get(rows[|rows| - 1], UnidadeId) == id then Get(rows[|rows| - 1], col).n else 0)
  {
    var init, x := rows[..|rows| - 1], rows[|rows| - 1];
    assert rows == init + [x];
    TotalSnoc(init, x, id, col);
  }

  lemma {:induction false} TotalAbsent(rows: seq<Row>, id: Cell, col: Column)
    requires Numeric(rows, col) && !HasId(rows, id)
    ensures Total(rows, id, col) == 0
  {
    if rows != [] {
      assert forall k :: 0 <= k < |rows| - 1 ==> rows[1..][k] == rows[k + 1];
      TotalAbsent(rows[1..], id, col);
    }
  }

  /** One row of the result: the facility's id, name and sigla with the two sums of its id. */
  function OccupationRow(f: Row, capacity: map<Cell, int>, detail: map<Cell, int>): (x: Row)
    requires Get(f, UnidadeId) in capacity && Get(f, UnidadeId) in detail
    ensures x.Keys == OccupationColumns
    ensures x[UnidadeId] == Get(f, UnidadeId) && x[UnidadeNome] == Get(f, UnidadeNome)
      && x[UnidadeSigla] == Get(f, UnidadeSigla)
    ensures x[CapacidadeAtual] == Num(capacity[Get(f, UnidadeId)]) && x[EfetivoReal] == Num(detail[Get(f, UnidadeId)])
  {
    var id := Get(f, UnidadeId);
    map[UnidadeId := id, UnidadeNome := Get(f, UnidadeNome), UnidadeSigla := Get(f, UnidadeSigla),
        CapacidadeAtual := Num(capacity[id]), EfetivoReal := Num(detail[id])]
  }

  /** The inner join of `facilities` with the two sums, in the order of `facilities`. */
  function Join(facilities: seq<Row>, capacity: map<Cell, int>, detail: map<Cell, int>): (r: seq<Row>)
    ensures |r| <= |facilities|
    ensures forall x :: x in r <==> exists k :: (0 <= k < |facilities|
      && Get(facilities[k], UnidadeId) in capacity && Get(facilities[k], UnidadeId) in detail
      && x == OccupationRow(facilities[k], capacity, detail))
  {
    if facilities == [] then []
    else
      var f := facilities[0];
      var rest := Join(facilities[1..], capacity, detail);
      assert forall k :: 1 <= k < |facilities| ==> facilities[k] == facilities[1..][k - 1];
      if Get(f, UnidadeId) in capacity && Get(f, UnidadeId) in detail
      then [OccupationRow(f, capacity, detail)] + rest
      else rest
  }

  /** The join keeps the order of `facilities`. */
  lemma {:induction false} JoinConcat(a: seq<Row>, b: seq<Row>, capacity: map<Cell, int>, detail: map<Cell, int>)
    ensures Join(a + b, capacity, detail) == Join(a, capacity, detail) + Join(b, capacity, detail)
  {
    if a != [] {
      assert (a + b)[1..] == a[1..] + b;
      JoinConcat(a[1..], b, capacity, detail);
    } else {
      assert a + b == b;
    }
  }

  /** Joining facilities with unique ids gives rows with unique ids. */
  lemma {:induction false} JoinUnique(facilities: seq<Row>, capacity: map<Cell, int>, detail: map<Cell, int>)
    requires UniqueIds(facilities)
    ensures UniqueIds(Join(facilities, capacity, detail))
  {
    if facilities != [] {
      var f, tail := facilities[0], facilities[1..];
      assert forall k :: 0 <= k < |tail| ==> tail[k] == facilities[k + 1];
      JoinUnique(tail, capacity, detail);
      var rest := Join(tail, capacity, detail);
      forall x | x in rest ensures Get(x, UnidadeId) != Get(f, UnidadeId) {
        var k :| 0 <= k < |tail| && Get(tail[k], UnidadeId) in capacity && Get(tail[k], UnidadeId) in detail
          && x == OccupationRow(tail[k], capacity, detail);
        assert Get(x, UnidadeId) == Get(facilities[k + 1], UnidadeId);
      }
    }
  }

  /** `_get_occupation`: summing fails on a count that is not a number, and the final merge fails
      when a facility id repeats; otherwise one row per facility whose id has capacity and
      detail rows. */
  function Occupation(t: Normalize.Tables): (r: Result<seq<Row>>)
    ensures r.Failure? <==>
      !Numeric(t.capacity, CapacidadeAtual) || !Numeric(t.imprisonedDetail, EfetivoReal) || !UniqueIds(t.facilities)
    ensures !Numeric(t.capacity, CapacidadeAtual) || !Numeric(t.imprisonedDetail, EfetivoReal) ==>
      r == Failure(NonNumericCount)
    ensures r.Failure? && Numeric(t.capacity, CapacidadeAtual) && Numeric(t.imprisonedDetail, EfetivoReal) ==>
      r.error == AggregationCardinality
    ensures r.Success? ==> |r.value| <= |t.facilities| && forall x :: x in r.value ==> x.Keys == OccupationColumns
    ensures r.Success? ==> UniqueIds(r.value)
  {
    if !Numeric(t.capacity, CapacidadeAtual) || !Numeric(t.imprisonedDetail, EfetivoReal) then
      Failure(NonNumericCount)
    else if !UniqueIds(t.facilities) then
      Failure(AggregationCardinality)
    else
      var capacity := GroupSums(t.capacity, CapacidadeAtual);
      var detail := GroupSums(t.imprisonedDetail, EfetivoReal);
      JoinUnique(t.facilities, capacity, detail);
      Success(Join(t.facilities, capacity, detail))
  }

  /** Every occupancy row belongs to a facility whose id has capacity and detail rows, and
      carries that facility's name and sigla and the two totals of its id. */
  lemma OccupationRows(t: Normalize.Tables, x: Row)
    requires Occupation(t).Success? && x in Occupation(t).value
    ensures Numeric(t.capacity, CapacidadeAtual) && Numeric(t.imprisonedDetail, EfetivoReal)
    ensures exists k :: (0 <= k < |t.facilities| && Get(t.facilities[k], UnidadeId) == x[UnidadeId]
      && x[UnidadeNome] == Get(t.facilities[k], UnidadeNome) && x[UnidadeSigla] == Get(t.facilities[k], UnidadeSigla))
    ensures HasId(t.capacity, x[UnidadeId]) && HasId(t.imprisonedDetail, x[UnidadeId])
    ensures x[CapacidadeAtual] == Num(Total(t.capacity, x[UnidadeId], CapacidadeAtual))
    ensures x[EfetivoReal] == Num(Total(t.imprisonedDetail, x[UnidadeId], EfetivoReal))
  {
    var cap := GroupSums(t.capacity, CapacidadeAtual);
    var det := GroupSums(t.imprisonedDetail, EfetivoReal);
    var k :| 0 <= k < |t.facilities| && Get(t.facilities[k], UnidadeId) in cap
      && Get(t.facilities[k], UnidadeId) in det && x == OccupationRow(t.facilities[k], cap, det);
    var id := Get(t.facilities[k], UnidadeId);
    assert x[UnidadeId] == id && x[CapacidadeAtual] == Num(cap[id]) && x[EfetivoReal] == Num(det[id]);
    assert HasId(t.capacity, id) && HasId(t.imprisonedDetail, id);
    GroupSumsTotal(t.capacity, CapacidadeAtual, id);
    GroupSumsTotal(t.imprisonedDetail, EfetivoReal, id);
  }

  /** A facility appears in the result exactly when its id has both capacity and detail rows. */
  lemma OccupationCoverage(t: Normalize.Tables, k: nat)
    requires Occupation(t).Success? && k < |t.facilities|
    ensures (exists x :: x in Occupation(t).value && x[UnidadeId] == Get(t.facilities[k], UnidadeId))
      <==> HasId(t.capacity, Get(t.facilities[k], UnidadeId)) && HasId(t.imprisonedDetail, Get(t.facilities[k], UnidadeId))
  {
    var cap := GroupSums(t.capacity, CapacidadeAtual);
    var det := GroupSums(t.imprisonedDetail, EfetivoReal);
    var id := Get(t.facilities[k], UnidadeId);
    if id in cap && id in det {
      assert OccupationRow(t.facilities[k], cap, det) in Occupation(t).value;
    }
    if exists x :: x in Occupation(t).value && x[UnidadeId] == id {
      var x :| x in Occupation(t).value && x[UnidadeId] == id;
      var j :| 0 <= j < |t.facilities| && Get(t.facilities[j], UnidadeId) in cap
        && Get(t.facilities[j], UnidadeId) in det && x == OccupationRow(t.facilities[j], cap, det);
    }
  }
}
