/** Tables as the merge engine sees them: an ordered list of column names and
    a list of rows, each row one cell per column. A `Frame` is a table held by
    reference whose contents can be overwritten in place, as a pandas
    DataFrame is when one of its columns is assigned. */
module Tables {
  import opened Wrappers
  import opened Text

  /** A cell holds the text of its value, as `str(value)` prints it, or is
      missing (pandas' NaN). */
  type Cell = Option<string>

  datatype Table = Table(columns: seq<string>, rows: seq<seq<Cell>>)

  /** Every row has exactly one cell per column. */
  predicate WellFormed(t: Table)
  {
    forall i :: 0 <= i < |t.rows| ==> |t.rows[i]| == |t.columns|
  }

  /** `pd.DataFrame()`: no columns and no rows. */
  const EmptyTable := Table([], [])

  /** `astype(str)` on one cell: a missing value prints as "nan". */
  function Stringify(c: Cell): string
  {
    match c
    case Some(s) => s
    case None => "nan"
  }

  /** `astype(str).str.strip()` on one cell. */
  function NormalizeCell(c: Cell): (r: Cell)
    ensures r.Some? && Trimmed(r.value)
    ensures c.Some? && Trimmed(c.value) ==> r == c
    ensures c.Some? ==> r == Some(Trim(c.value))
    ensures c.None? ==> r == Some("nan")
  {
    var s := Stringify(c);
    assert Trim("nan") == "nan" by { TrimOfTrimmed("nan"); }
    assert c.Some? && Trimmed(s) ==> Trim(s) == s by {
      if Trimmed(s) { TrimOfTrimmed(s); }
    }
    Some(Trim(s))
  }

  /** A normalised cell is a fixed point of normalisation. */
  lemma NormalizeCellIdempotent(c: Cell)
    ensures NormalizeCell(NormalizeCell(c)) == NormalizeCell(c)
  {
  }

  /** How a column label resolves: `df[name]` raises for an absent label,
      yields a frame rather than a column for a label held by several
      columns, and yields the one column otherwise. */
  datatype Lookup = Absent | Repeated | At(index: nat)

  function FirstIndex(cols: seq<string>, name: string): (i: nat)
    requires name in cols
    ensures i < |cols| && cols[i] == name && name !in cols[..i]
  {
    if cols[0] == name then 0 else 1 + FirstIndex(cols[1..], name)
  }

  function KeyLookup(cols: seq<string>, name: string): (l: Lookup)
    ensures l.Absent? <==> name !in cols
    ensures l.At? ==> l.index < |cols| && cols[l.index] == name
    ensures l.At? ==> forall i :: 0 <= i < |cols| && cols[i] == name ==> i == l.index
    ensures l.Repeated? <==> exists i, j :: 0 <= i < j < |cols| && cols[i] == name && cols[j] == name
  {
    if name !in cols then Absent
    else
      var i := FirstIndex(cols, name);
      if name in cols[i + 1..] then
        var j :| i + 1 <= j < |cols| && cols[j] == name;
        Repeated
      else
        assert forall k :: 0 <= k < |cols| && k != i ==> (k < i ==> cols[k] == cols[..i][k]) && (k > i ==> cols[k] == cols[i + 1..][k - i - 1]);
        At(i)
  }

  /** Overwrites column `k` of every row with its normalised form. */
  function NormalizeColumn(rows: seq<seq<Cell>>, k: nat): (r: seq<seq<Cell>>)
    ensures |r| == |rows|
    ensures forall i :: 0 <= i < |rows| ==> |r[i]| == |rows[i]|
    ensures forall i, c :: 0 <= i < |rows| && 0 <= c < |rows[i]| ==>
              r[i][c] == if c == k then NormalizeCell(rows[i][c]) else rows[i][c]
  {
    seq(|rows|, i requires 0 <= i < |rows| =>
      if k < |rows[i]| then rows[i][k := NormalizeCell(rows[i][k])] else rows[i])
  }

  /** `t[name] = t[name].astype(str).str.strip()` when `name` labels exactly
      one column of `t`; any other label leaves the table as it was (pandas
      raises before assigning). */
  function KeyNormalized(t: Table, name: string): (r: Table)
    ensures r.columns == t.columns && |r.rows| == |t.rows|
    ensures WellFormed(t) ==> WellFormed(r)
    ensures !KeyLookup(t.columns, name).At? ==> r == t
  {
    match KeyLookup(t.columns, name)
    case At(k) => Table(t.columns, NormalizeColumn(t.rows, k))
    case _ => t
  }

  /** Cell by cell: the key column is normalised and every other cell is
      kept. */
  lemma KeyNormalizedCells(t: Table, name: string)
    requires WellFormed(t) && KeyLookup(t.columns, name).At?
    ensures forall i, c :: 0 <= i < |t.rows| && 0 <= c < |t.columns| ==>
              KeyNormalized(t, name).rows[i][c]
              == if c == KeyLookup(t.columns, name).index then NormalizeCell(t.rows[i][c]) else t.rows[i][c]
  {
  }

  /** After normalisation every cell of the key column is present and trimmed. */
  lemma KeyColumnNormalized(t: Table, name: string)
    requires WellFormed(t) && KeyLookup(t.columns, name).At?
    ensures forall i :: 0 <= i < |t.rows| ==>
              && KeyNormalized(t, name).rows[i][KeyLookup(t.columns, name).index].Some?
              && Trimmed(KeyNormalized(t, name).rows[i][KeyLookup(t.columns, name).index].value)
  {
    KeyNormalizedCells(t, name);
  }

  /** Normalising a key column that is already normalised changes nothing. */
  lemma KeyNormalizedIdempotent(t: Table, name: string)
    requires WellFormed(t)
    ensures KeyNormalized(KeyNormalized(t, name), name) == KeyNormalized(t, name)
  {
    var once := KeyNormalized(t, name);
    if KeyLookup(t.columns, name).At? {
      var k := KeyLookup(t.columns, name).index;
      KeyNormalizedCells(t, name);
      forall i | 0 <= i < |once.rows|
        ensures NormalizeCell(once.rows[i][k]) == once.rows[i][k]
      {
        NormalizeCellIdempotent(t.rows[i][k]);
      }
      KeyNormalizedOfClean(once, name);
    }
  }

  /** Normalising a column whose cells are all normalised already changes
      nothing. */
  lemma NormalizeColumnOfClean(rows: seq<seq<Cell>>, k: nat)
    requires forall i :: 0 <= i < |rows| ==> k < |rows[i]| && NormalizeCell(rows[i][k]) == rows[i][k]
    ensures NormalizeColumn(rows, k) == rows
  {
    var r := NormalizeColumn(rows, k);
    forall i | 0 <= i < |rows|
      ensures r[i] == rows[i]
    {
      UpdateSame(rows[i], k, NormalizeCell(rows[i][k]));
    }
  }

  lemma UpdateSame(row: seq<Cell>, k: nat, v: Cell)
    requires k < |row| && v == row[k]
    ensures row[k := v] == row
  {
  }

  /** A key column whose cells are all normalised already is left as it is. */
  lemma KeyNormalizedOfClean(t: Table, name: string)
    requires WellFormed(t) && KeyLookup(t.columns, name).At?
    requires forall i :: 0 <= i < |t.rows| ==>
               NormalizeCell(t.rows[i][KeyLookup(t.columns, name).index]) == t.rows[i][KeyLookup(t.columns, name).index]
    ensures KeyNormalized(t, name) == t
  {
    NormalizeColumnOfClean(t.rows, KeyLookup(t.columns, name).index);
  }

  /** Row by row: normalisation keeps the row's width and rewrites only its
      key cell. */
  lemma KeyNormalizedRow(t: Table, name: string, i: nat)
    requires WellFormed(t) && KeyLookup(t.columns, name).At? && i < |t.rows|
    ensures |KeyNormalized(t, name).rows[i]| == |t.columns|
    ensures KeyNormalized(t, name).rows[i][KeyLookup(t.columns, name).index]
         == NormalizeCell(t.rows[i][KeyLookup(t.columns, name).index])
  {
  }

  /** A table whose every row has one cell per column, as the rows of a
      pandas DataFrame always have. */
  type Rectangular = t: Table | WellFormed(t) witness EmptyTable

  /** A table held by reference, whose columns can be overwritten in place. */
  class Frame {
    var contents: Rectangular

    /** The current contents as a value. */
    function View(): Rectangular
      reads this
    {
      contents
    }

    constructor (t: Rectangular)
      ensures View() == t
    {
      contents := t;
    }

    /** `df[name] = df[name].astype(str).str.strip()`, reporting how the
        label resolved: only a label naming exactly one column is
        normalised, in place. */
    method NormalizeKey(name: string) returns (found: Lookup)
      modifies this
      ensures found == KeyLookup(old(View()).columns, name)
      ensures View() == KeyNormalized(old(View()), name)
    {
      found := KeyLookup(contents.columns, name);
      if found.At? {
        contents := Table(contents.columns, NormalizeColumn(contents.rows, found.index));
      }
    }
  }
}
