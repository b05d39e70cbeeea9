/** The cleaning pass applied to every loaded table before it is stored:
    rows whose "Completion %" value is missing are dropped. */
module Cleaning {
  import opened Wrappers
  import opened Tables

  const CompletionColumn := "Completion %"

  /** The row has a value in every column labelled "Completion %"
      (`dropna(subset=[...])` looks at all of them). */
  predicate Complete(columns: seq<string>, row: seq<Cell>)
  {
    forall c :: 0 <= c < |columns| && c < |row| && columns[c] == CompletionColumn ==> row[c].Some?
  }

  /** Number of rows that lack a completion value. */
  function IncompleteCount(columns: seq<string>, rows: seq<seq<Cell>>): nat
  {
    if rows == [] then 0
    else (if Complete(columns, rows[0]) then 0 else 1) + IncompleteCount(columns, rows[1..])
  }

  /** `dropna(subset=["Completion %"])`: the complete rows, in their order. */
  function KeepComplete(columns: seq<string>, rows: seq<seq<Cell>>): (r: seq<seq<Cell>>)
    ensures |r| + IncompleteCount(columns, rows) == |rows|
    ensures forall x :: x in r ==> x in rows && Complete(columns, x)
    ensures forall x :: x in rows && Complete(columns, x) ==> x in r
  {
    if rows == [] then []
    else
      var rest := KeepComplete(columns, rows[1..]);
      assert forall x :: x in rows ==> x == rows[0] || x in rows[1..];
      (if Complete(columns, rows[0]) then [rows[0]] else []) + rest
  }

  /** The filter works row by row: filtering a concatenation is
      concatenating the filtered parts, so relative order is kept. */
  lemma {:induction false} KeepCompleteAppend(columns: seq<string>, a: seq<seq<Cell>>, b: seq<seq<Cell>>)
    ensures KeepComplete(columns, a + b) == KeepComplete(columns, a) + KeepComplete(columns, b)
  {
    if a == [] {
      assert a + b == b;
    } else {
      assert (a + b)[1..] == a[1..] + b;
      KeepCompleteAppend(columns, a[1..], b);
    }
  }

  /** Without a "Completion %" column every row is complete and kept. */
  lemma {:induction false} KeepCompleteWithoutColumn(columns: seq<string>, rows: seq<seq<Cell>>)
    requires CompletionColumn !in columns
    ensures KeepComplete(columns, rows) == rows
  {
    if rows != [] {
      KeepCompleteWithoutColumn(columns, rows[1..]);
    }
  }

  /** `clean_data`: an unloaded table becomes the empty table; a table with a
      "Completion %" column loses exactly its incomplete rows and keeps the
      rest in order; any other table is returned as it is. */
  function CleanData(t: Option<Table>): (r: Table)
    ensures t.None? ==> r == EmptyTable
    ensures t.Some? ==> r.columns == t.value.columns
    ensures t.Some? ==> |r.rows| + IncompleteCount(t.value.columns, t.value.rows) == |t.value.rows|
    ensures t.Some? ==> forall x :: x in r.rows <==> x in t.value.rows && Complete(t.value.columns, x)
    ensures t.Some? && CompletionColumn in t.value.columns ==> r.rows == KeepComplete(t.value.columns, t.value.rows)
    ensures t.Some? && CompletionColumn !in t.value.columns ==> r == t.value
    ensures t.Some? && WellFormed(t.value) ==> WellFormed(r)
  {
    match t
    case None => EmptyTable
    case Some(u) =>
      if CompletionColumn in u.columns then
        var kept := KeepComplete(u.columns, u.rows);
        assert forall i :: 0 <= i < |kept| ==> kept[i] in u.rows;
        Table(u.columns, kept)
      else
        KeepCompleteWithoutColumn(u.columns, u.rows);
        u
  }

  /** The number `clean_data` reports as removed is the number of rows
      without a completion value. */
  lemma RemovedCount(t: Table)
    requires CompletionColumn in t.columns
    ensures |t.rows| - |CleanData(Some(t)).rows| == IncompleteCount(t.columns, t.rows)
  {
  }
}
