/**
  The selection step at the end of `find_best_query_urls_implementation`:
  keep the rows whose `max` equals the smallest `max` of the table, then
  read `identifier` and `parallelism` of "the" remaining row. Reading a
  single value out of the filtered column fails unless exactly one row is
  left, so a tie for the smallest `max` is an error; there is no
  tie-break. An empty table has no `max` column and fails too.
 */
module Selector {
  import opened Builtins
  import opened Sweep

  datatype Choice = Choice(identifier: string, parallelism: int)

  datatype SelectError =
    | EmptyTable                   // no `max` column to take the minimum of
    | AmbiguousOptimum(rows: nat)  // the optimal rows are not a single row

  /** The `max` column of the table. */
  function MaxColumn(table: seq<Record>): (column: seq<int>)
    ensures |column| == |table|
    ensures forall i :: 0 <= i < |table| ==> column[i] == table[i].max
  {
    seq(|table|, i requires 0 <= i < |table| => table[i].max)
  }

  /** The smallest `max` of a non-empty table, attained by some row and undercut by none. */
  function MinMax(table: seq<Record>): (m: int)
    requires table != []
    ensures exists i :: 0 <= i < |table| && table[i].max == m
    ensures forall i :: 0 <= i < |table| ==> m <= table[i].max
  {
    var column := MaxColumn(table);
    var m := Min(column);
    assert forall i :: 0 <= i < |table| ==> column[i] in column;
    m
  }

  /** The rows whose `max` equals m, in table order (the boolean-mask filter). */
  function RowsWithMax(table: seq<Record>, m: int): (rows: seq<Record>)
    ensures |rows| <= |table|
    ensures forall r :: r in rows ==> r in table && r.max == m
    ensures forall i :: 0 <= i < |table| && table[i].max == m ==> table[i] in rows
    ensures (forall i :: 0 <= i < |table| ==> table[i].max != m) ==> rows == []
  {
    if table == [] then []
    else
      var rest := RowsWithMax(table[1..], m);
      assert forall i :: 1 <= i < |table| ==> table[i] == table[1..][i - 1];
      if table[0].max == m then [table[0]] + rest else rest
  }

  /** The selection: the single row with the smallest `max`, or an error. */
  function Select(table: seq<Record>): (r: Result<Choice, SelectError>)
    ensures r == Failure(EmptyTable) <==> table == []
    ensures r.Failure? && table != [] ==> r.error.AmbiguousOptimum? && r.error.rows >= 2
    ensures r.Success? ==> exists i :: 0 <= i < |table| && table[i].max == MinMax(table) &&
                                       r.value == Choice(table[i].identifier, table[i].parallelism)
  {
    if table == [] then Failure(EmptyTable)
    else
      var m := MinMax(table);
      var optimal := RowsWithMax(table, m);
      assert exists i :: 0 <= i < |table| && table[i] in optimal;
      if |optimal| != 1 then Failure(AmbiguousOptimum(|optimal|))
      else
        assert optimal[0] in optimal;
        Success(Choice(optimal[0].identifier, optimal[0].parallelism))
  }

  /** Row i has a strictly smaller `max` than every other row. */
  ghost predicate UniqueMinimiser(table: seq<Record>, i: int)
  {
    0 <= i < |table| && forall j :: 0 <= j < |table| && j != i ==> table[i].max < table[j].max
  }

  /** Row i is the only row whose `max` is m. */
  ghost predicate OnlyRowWithMax(table: seq<Record>, i: int, m: int)
  {
    0 <= i < |table| && table[i].max == m &&
    forall j :: 0 <= j < |table| && j != i ==> table[j].max != m
  }

  /** If the filter keeps a single row, exactly one index of the table has that `max`. */
  lemma {:induction false} SingleRowHasUniqueIndex(table: seq<Record>, m: int)
    requires |RowsWithMax(table, m)| == 1
    ensures exists i :: OnlyRowWithMax(table, i, m)
  {
    var tail := table[1..];
    var rest := RowsWithMax(tail, m);
    if table[0].max == m {
      assert rest == [];
      forall j | 0 < j < |table| ensures table[j].max != m {
        assert table[j] == tail[j - 1];
      }
      assert OnlyRowWithMax(table, 0, m);
    } else {
      SingleRowHasUniqueIndex(tail, m);
      var i' :| OnlyRowWithMax(tail, i', m);
      forall j | 0 <= j < |table| && j != i' + 1 ensures table[j].max != m {
        if j > 0 {
          assert table[j] == tail[j - 1];
        }
      }
      assert OnlyRowWithMax(table, i' + 1, m);
    }
  }

  /** If only row i has `max` m, the filter keeps exactly that row. */
  lemma {:induction false} UniqueIndexGivesSingleRow(table: seq<Record>, i: int)
    requires 0 <= i < |table|
    requires forall j :: 0 <= j < |table| && j != i ==> table[j].max != table[i].max
    ensures RowsWithMax(table, table[i].max) == [table[i]]
  {
    var m := table[i].max;
    var rest := RowsWithMax(table[1..], m);
    if i == 0 {
      assert forall j :: 0 <= j < |table[1..]| ==> table[1..][j] == table[j + 1];
    } else {
      forall j | 0 <= j < |table[1..]| && j != i - 1 ensures table[1..][j].max != table[1..][i - 1].max {
        assert table[1..][j] == table[j + 1];
      }
      UniqueIndexGivesSingleRow(table[1..], i - 1);
    }
  }

  /** Selection succeeds exactly when some row has a strictly smaller `max` than all others. */
  lemma SelectSucceedsIffUniqueMinimiser(table: seq<Record>)
    ensures Select(table).Success? <==> exists i :: UniqueMinimiser(table, i)
  {
    if Select(table).Success? {
      var m := MinMax(table);
      SingleRowHasUniqueIndex(table, m);
      var i :| OnlyRowWithMax(table, i, m);
      assert UniqueMinimiser(table, i);
    }
    if exists i :: UniqueMinimiser(table, i) {
      var i :| UniqueMinimiser(table, i);
      SelectFindsUniqueMinimiser(table, i);
    }
  }

  /** A row with a strictly smaller `max` than all others is the one selected. */
  lemma SelectFindsUniqueMinimiser(table: seq<Record>, i: int)
    requires UniqueMinimiser(table, i)
    ensures Select(table) == Success(Choice(table[i].identifier, table[i].parallelism))
  {
    var m := MinMax(table);
    var k :| 0 <= k < |table| && table[k].max == m;
    assert k == i;
    UniqueIndexGivesSingleRow(table, i);
  }

  /** Two rows sharing the smallest `max` make selection fail with at least two optimal rows. */
  lemma SelectRejectsTie(table: seq<Record>, i: int, j: int)
    requires 0 <= i < |table| && 0 <= j < |table| && i != j
    requires table[i].max == table[j].max
    requires forall k :: 0 <= k < |table| ==> table[i].max <= table[k].max
    ensures Select(table).Failure?
    ensures Select(table).error.AmbiguousOptimum? && Select(table).error.rows >= 2
  {
    var m := MinMax(table);
    assert m == table[i].max;
    var optimal := RowsWithMax(table, m);
    assert table[i] in optimal;
    if |optimal| == 1 {
      SingleRowHasUniqueIndex(table, m);
    }
  }

  /** Failure on a non-empty table always means several rows tie for the smallest `max`. */
  lemma SelectFailureIsTie(table: seq<Record>)
    requires table != [] && Select(table).Failure?
    ensures exists i, j :: 0 <= i < j < |table| && table[i].max == table[j].max == MinMax(table)
  {
    var m := MinMax(table);
    var i :| 0 <= i < |table| && table[i].max == m;
    assert table[i] in RowsWithMax(table, m);
    if forall j :: 0 <= j < |table| && j != i ==> table[j].max != m {
      UniqueIndexGivesSingleRow(table, i);
    } else {
      var j :| 0 <= j < |table| && j != i && table[j].max == m;
      if i < j {
        assert 0 <= i < j < |table| && table[i].max == table[j].max == m;
      } else {
        assert 0 <= j < i < |table| && table[j].max == table[i].max == m;
      }
    }
  }
}
