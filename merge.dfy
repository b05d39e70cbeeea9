/** The pairwise merge of `merge_datasets`: normalise both key columns in
    place, refuse a right-hand key with repeated values, rename colliding
    right-hand labels with a single "_1" suffix, and join the right table onto
    the left one by key, keeping every left row or only the matching ones. */
module MergeEngine {
  import opened Wrappers
  import opened Text
  import opened Tables

  /** The two join types the user can choose: "left" and "inner". */
  datatype JoinMode = LeftJoin | InnerJoin

  /** Why a merge returned nothing. `ColumnNotFound` and `ColumnNotUnique`
      are the failures of `df[label]`; `DuplicateKeys` carries the values
      listed in the warning; `JoinFailed` is the merge itself failing because
      the right-hand join label is held by more than one column;
      `SuffixClash` is the merge failing because pandas' own `_x`/`_y`
      suffixes would give a table two columns with one label. */
  datatype MergeError =
    | ColumnNotFound(name: string)
    | ColumnNotUnique(name: string)
    | DuplicateKeys(preview: seq<string>)
    | JoinFailed
    | SuffixClash

  datatype MergeOutcome = Merged(table: Table) | Failed(error: MergeError)

  const Suffix := "_1"

  /** pandas' default `suffixes=("_x", "_y")`. */
  const LeftOverlapSuffix := "_x"
  const RightOverlapSuffix := "_y"
  const PreviewLimit := 10

  // ---------------------------------------------------------------------
  // Duplicate key detection

  predicate NoRepeats<T(==)>(xs: seq<T>)
  {
    forall i, j :: 0 <= i < j < |xs| ==> xs[i] != xs[j]
  }

  /** Two sequences one after the other without repeats share no element. */
  lemma NoRepeatsDisjoint<T>(a: seq<T>, b: seq<T>)
    requires NoRepeats(a + b)
    ensures forall x :: x in a ==> x !in b
  {
    forall x | x in a ensures x !in b {
      var i :| 0 <= i < |a| && a[i] == x;
      forall j | 0 <= j < |b| ensures b[j] != x {
        assert (a + b)[i] == a[i] && (a + b)[|a| + j] == b[j];
      }
    }
  }

  /** `x` occurs at two different positions of `xs`. */
  predicate OccursTwice(xs: seq<string>, x: string)
  {
    exists i, j :: 0 <= i < j < |xs| && xs[i] == x && xs[j] == x
  }

  /** `xs[xs.duplicated()].unique()`: every value that occurs more than once,
      each listed once, in the order of their second occurrences. */
  function Repeats(xs: seq<string>): (r: seq<string>)
    ensures NoRepeats(r)
    ensures forall x :: x in r <==> OccursTwice(xs, x)
  {
    if xs == [] then []
    else
      var init := xs[..|xs| - 1];
      var last := xs[|xs| - 1];
      var prev := Repeats(init);
      assert forall x :: OccursTwice(init, x) ==> OccursTwice(xs, x) by {
        forall x | OccursTwice(init, x) ensures OccursTwice(xs, x) {
          var i, j :| 0 <= i < j < |init| && init[i] == x && init[j] == x;
          assert xs[i] == x && xs[j] == x;
        }
      }
      assert forall x :: OccursTwice(xs, x) && x != last ==> OccursTwice(init, x) by {
        forall x | OccursTwice(xs, x) && x != last ensures OccursTwice(init, x) {
          var i, j :| 0 <= i < j < |xs| && xs[i] == x && xs[j] == x;
          assert init[i] == x && init[j] == x;
        }
      }
      assert OccursTwice(xs, last) <==> last in init by {
        if last in init {
          var i :| 0 <= i < |init| && init[i] == last;
          assert xs[i] == last && xs[|xs| - 1] == last;
        }
        if OccursTwice(xs, last) {
          var i, j :| 0 <= i < j < |xs| && xs[i] == last && xs[j] == last;
          assert init[i] == last;
        }
      }
      if last in init && last !in prev then prev + [last] else prev
  }

  /** A key column has no repeated value exactly when `Repeats` is empty. */
  lemma RepeatsEmpty(xs: seq<string>)
    ensures Repeats(xs) == [] <==> NoRepeats(xs)
  {
    if Repeats(xs) != [] {
      assert OccursTwice(xs, Repeats(xs)[0]);
    }
    if !NoRepeats(xs) {
      var i, j :| 0 <= i < j < |xs| && xs[i] == xs[j];
      assert OccursTwice(xs, xs[i]);
    }
  }

  /** Scanning further only appends: the repeats of a prefix are a prefix of
      the repeats of the whole column. With the membership contract of
      `Repeats` this fixes the order of the list, each value placed where it
      first occurs a second time. */
  lemma {:induction false} RepeatsOfPrefix(xs: seq<string>, n: nat)
    requires n <= |xs|
    ensures Repeats(xs[..n]) <= Repeats(xs)
  {
    if n < |xs| {
      var init := xs[..|xs| - 1];
      assert init[..n] == xs[..n];
      RepeatsOfPrefix(init, n);
    } else {
      assert xs[..n] == xs;
    }
  }

  /** `duplicate_keys[:10]`. */
  function Preview(dups: seq<string>): (p: seq<string>)
    ensures |p| <= PreviewLimit && p <= dups
    ensures |dups| <= PreviewLimit ==> p == dups
    ensures |p| == if |dups| <= PreviewLimit then |dups| else PreviewLimit
  {
    if |dups| <= PreviewLimit then dups else dups[..PreviewLimit]
  }

  /** The cell at position `k` of every row, as text. */
  function ColumnTexts(rows: seq<seq<Cell>>, k: nat): (r: seq<string>)
    requires forall m :: 0 <= m < |rows| ==> k < |rows[m]|
    ensures |r| == |rows|
  {
    seq(|rows|, m requires 0 <= m < |rows| => Stringify(rows[m][k]))
  }

  // ---------------------------------------------------------------------
  // Column collision resolution

  /** The label a right-hand column carries into the join. First every label
      shared with the left table, other than the right key, gets the suffix;
      then, if the right key's own label is a left label, whatever now carries
      that label gets the suffix. */
  function RenamedLabel(left: seq<string>, keyNew: string, c: string): string
  {
    var c1 := if c in left && c != keyNew then c + Suffix else c;
    if keyNew in left && c1 == keyNew then keyNew + Suffix else c1
  }

  function RenameRight(left: seq<string>, right: seq<string>, keyNew: string): (r: seq<string>)
    ensures |r| == |right|
    ensures forall i :: 0 <= i < |right| ==> r[i] == RenamedLabel(left, keyNew, right[i])
  {
    seq(|right|, i requires 0 <= i < |right| => RenamedLabel(left, keyNew, right[i]))
  }

  /** The label the join looks up on the right: `key_new`, or `key_new_1`
      when `key_new` is also a left label. */
  function EffectiveKey(left: seq<string>, keyNew: string): (r: string)
    ensures r != keyNew <==> keyNew in left
    ensures keyNew in left ==> r == keyNew + Suffix
  {
    if keyNew in left then keyNew + Suffix else keyNew
  }

  /** The renaming rules, label by label: the right key becomes the effective
      key; a label shared with the left becomes `label_1`; a label not shared
      with the left is kept; only shared labels ever change. */
  lemma RenameRules(left: seq<string>, right: seq<string>, keyNew: string, i: nat)
    requires i < |right|
    ensures var r := RenameRight(left, right, keyNew);
            && (right[i] == keyNew ==> r[i] == EffectiveKey(left, keyNew))
            && (right[i] == keyNew ==> (r[i] != right[i] <==> keyNew in left))
            && ((right[i] in left && right[i] != keyNew && (keyNew !in left || right[i] + Suffix != keyNew))
                ==> r[i] == right[i] + Suffix)
            && ((right[i] in left && right[i] != keyNew && keyNew in left && right[i] + Suffix == keyNew)
                ==> r[i] == keyNew + Suffix)
            && (right[i] !in left ==> r[i] == right[i])
  {
  }

  /** One level of suffixing is enough: no shared label, once suffixed, meets
      another label of either table. */
  predicate SingleLevelSuffices(left: seq<string>, right: seq<string>)
  {
    forall c :: c in right && c in left ==> c + Suffix !in left && c + Suffix !in right
  }

  lemma AppendCancel(a: string, b: string, s: string)
    requires a + s == b + s
    ensures a == b
  {
    assert a == (a + s)[..|a|];
  }

  /** When one level of suffixing is enough and neither table repeats a
      label, the merged table's labels are all different. */
  lemma RenamedLabelsDistinct(left: seq<string>, right: seq<string>, keyNew: string)
    requires NoRepeats(left) && NoRepeats(right) && SingleLevelSuffices(left, right)
    ensures NoRepeats(left + RenameRight(left, right, keyNew))
  {
    var r := RenameRight(left, right, keyNew);
    assert forall i :: 0 <= i < |right| ==> r[i] == if right[i] in left then right[i] + Suffix else right[i];
    forall i | 0 <= i < |right|
      ensures r[i] !in left
    {
    }
    forall i, j | 0 <= i < j < |right|
      ensures r[i] != r[j]
    {
      if right[i] in left && right[j] in left {
        if r[i] == r[j] { AppendCancel(right[i], right[j], Suffix); }
      }
    }
    var all := left + r;
    forall i, j | 0 <= i < j < |all|
      ensures all[i] != all[j]
    {
      if j >= |left| && i < |left| {
        assert all[j] == r[j - |left|];
      } else if i >= |left| {
        assert all[i] == r[i - |left|] && all[j] == r[j - |left|];
      }
    }
  }

  /** Under the same conditions the join label names exactly one renamed
      right column: the right key's own. */
  lemma EffectiveKeyResolves(left: seq<string>, right: seq<string>, keyNew: string, j: nat)
    requires NoRepeats(left) && NoRepeats(right) && SingleLevelSuffices(left, right)
    requires j < |right| && right[j] == keyNew
    ensures KeyLookup(RenameRight(left, right, keyNew), EffectiveKey(left, keyNew)) == At(j)
  {
    var r := RenameRight(left, right, keyNew);
    RenamedLabelsDistinct(left, right, keyNew);
    forall a, c | 0 <= a < c < |r| ensures r[a] != r[c] {
      assert (left + r)[|left| + a] == r[a];
      assert (left + r)[|left| + c] == r[c];
    }
    RenameRules(left, right, keyNew, j);
  }

  /** The two join labels coincide: the left key's label is the right key's
      label after renaming. pandas then joins on one shared key column and
      drops the right one. */
  predicate SharedKey(left: seq<string>, keyBase: string, keyNew: string)
  {
    EffectiveKey(left, keyNew) == keyBase
  }

  /** For a left key label that exists, the labels coincide only when the
      right key is itself a left label and the left key is that label with
      the suffix. */
  lemma SharedKeyCase(left: seq<string>, keyBase: string, keyNew: string)
    requires keyBase in left
    ensures SharedKey(left, keyBase, keyNew) <==> keyNew in left && keyBase == keyNew + Suffix
  {
  }

  /** When one suffix level suffices, the labels never coincide. */
  lemma SharedKeyExcluded(left: seq<string>, right: seq<string>, keyBase: string, keyNew: string)
    requires keyBase in left && keyNew in right && SingleLevelSuffices(left, right)
    ensures !SharedKey(left, keyBase, keyNew)
  {
  }

  // ---------------------------------------------------------------------
  // Join execution

  /** The cells, or labels, a right row contributes to a joined row: all of
      them, or all but the one at `k` when the key column is shared. */
  function Carry<T>(s: seq<T>, k: nat, drop: bool): (r: seq<T>)
    ensures !drop ==> r == s
    ensures |r| == if drop && k < |s| then |s| - 1 else |s|
  {
    if drop && k < |s| then s[..k] + s[k + 1..] else s
  }

  /** What each right row contributes to a joined row. */
  function CarryRows(rows: seq<seq<Cell>>, k: nat, drop: bool): (r: seq<seq<Cell>>)
    ensures |r| == |rows| && forall m :: 0 <= m < |rows| ==> r[m] == Carry(rows[m], k, drop)
  {
    seq(|rows|, m requires 0 <= m < |rows| => Carry(rows[m], k, drop))
  }

  /** Dropping position `k` keeps every other element, in order. */
  lemma CarryElements<T>(s: seq<T>, k: nat)
    requires k < |s|
    ensures forall c :: 0 <= c < |s| - 1 ==> Carry(s, k, true)[c] == if c < k then s[c] else s[c + 1]
  {
    var r := Carry(s, k, true);
    assert r == s[..k] + s[k + 1..];
    forall c | 0 <= c < |s| - 1
      ensures r[c] == if c < k then s[c] else s[c + 1]
    {
      if c >= k {
        assert r[c] == s[k + 1..][c - k];
      }
    }
  }

  /** The first right row whose key cell equals `key`. */
  function FindRow(rightRows: seq<seq<Cell>>, kr: nat, key: Cell): (m: Option<nat>)
    requires forall n :: 0 <= n < |rightRows| ==> kr < |rightRows[n]|
    ensures m.Some? ==> m.value < |rightRows| && rightRows[m.value][kr] == key
    ensures m.None? ==> forall n :: 0 <= n < |rightRows| ==> rightRows[n][kr] != key
  {
    if rightRows == [] then None
    else if rightRows[0][kr] == key then Some(0)
    else match FindRow(rightRows[1..], kr, key)
      case Some(n) => Some(n + 1)
      case None => None
  }

  /** `n` missing cells: the right-hand part of an unmatched left row. */
  function MissingCells(n: nat): (r: seq<Cell>)
    ensures |r| == n && forall c :: 0 <= c < n ==> r[c].None?
  {
    seq(n, _ => None)
  }

  /** Joins each left row to the right row its key finds: the left row is
      followed by `parts[m]`, what right row `m` contributes. With `LeftJoin`
      an unmatched left row is kept with `width` missing cells, with
      `InnerJoin` it is dropped. Left order is kept. */
  function JoinRows(leftRows: seq<seq<Cell>>, kl: nat, rightRows: seq<seq<Cell>>, kr: nat, parts: seq<seq<Cell>>,
                    width: nat, mode: JoinMode): (out: seq<seq<Cell>>)
    requires forall i :: 0 <= i < |leftRows| ==> kl < |leftRows[i]|
    requires forall n :: 0 <= n < |rightRows| ==> kr < |rightRows[n]|
    requires |parts| == |rightRows|
    ensures |out| <= |leftRows|
    ensures mode == LeftJoin ==> |out| == |leftRows|
    ensures mode == LeftJoin ==> forall i {:trigger out[i]} :: 0 <= i < |leftRows| ==>
              match FindRow(rightRows, kr, leftRows[i][kl])
              case Some(m) => out[i] == leftRows[i] + parts[m]
              case None => out[i] == leftRows[i] + MissingCells(width)
  {
    if leftRows == [] then []
    else
      var rest := JoinRows(leftRows[1..], kl, rightRows, kr, parts, width, mode);
      JoinOne(leftRows[0], kl, rightRows, kr, parts, width, mode) + rest
  }

  /** What one left row contributes to a join: itself joined to the right
      row its key finds; with no such row, itself with missing cells in a
      left join and nothing in an inner join. */
  function JoinOne(l: seq<Cell>, kl: nat, rightRows: seq<seq<Cell>>, kr: nat, parts: seq<seq<Cell>>,
                   width: nat, mode: JoinMode): (out: seq<seq<Cell>>)
    requires kl < |l|
    requires forall n :: 0 <= n < |rightRows| ==> kr < |rightRows[n]|
    requires |parts| == |rightRows|
  {
    match FindRow(rightRows, kr, l[kl])
    case Some(m) => [l + parts[m]]
    case None => if mode == LeftJoin then [l + MissingCells(width)] else []
  }

  /** Where a row of an inner join comes from: a left row and the right row
      whose key equals its key. */
  lemma {:induction false} InnerJoinOrigin(leftRows: seq<seq<Cell>>, kl: nat, rightRows: seq<seq<Cell>>, kr: nat, parts: seq<seq<Cell>>,
                                           width: nat, o: seq<Cell>)
    returns (i: nat, m: nat)
    requires forall i :: 0 <= i < |leftRows| ==> kl < |leftRows[i]|
    requires forall n :: 0 <= n < |rightRows| ==> kr < |rightRows[n]|
    requires |parts| == |rightRows|
    requires o in JoinRows(leftRows, kl, rightRows, kr, parts, width, InnerJoin)
    ensures i < |leftRows| && m < |rightRows|
    ensures leftRows[i][kl] == rightRows[m][kr] && o == leftRows[i] + parts[m]
  {
    var l := leftRows[0];
    var rest := JoinRows(leftRows[1..], kl, rightRows, kr, parts, width, InnerJoin);
    var found := FindRow(rightRows, kr, l[kl]);
    if found.Some? && o == l + parts[found.value] {
      i, m := 0, found.value;
    } else {
      assert o in rest;
      var i', m' := InnerJoinOrigin(leftRows[1..], kl, rightRows, kr, parts, width, o);
      i, m := i' + 1, m';
    }
  }

  /** An inner join keeps every left row whose key finds a right row,
      joined to that row. */
  lemma {:induction false} InnerJoinKeeps(leftRows: seq<seq<Cell>>, kl: nat, rightRows: seq<seq<Cell>>, kr: nat, parts: seq<seq<Cell>>,
                                          width: nat, i: nat)
    requires forall i :: 0 <= i < |leftRows| ==> kl < |leftRows[i]|
    requires forall n :: 0 <= n < |rightRows| ==> kr < |rightRows[n]|
    requires |parts| == |rightRows|
    requires i < |leftRows| && FindRow(rightRows, kr, leftRows[i][kl]).Some?
    ensures leftRows[i] + parts[FindRow(rightRows, kr, leftRows[i][kl]).value]
            in JoinRows(leftRows, kl, rightRows, kr, parts, width, InnerJoin)
  {
    if i > 0 {
      assert leftRows[1..][i - 1] == leftRows[i];
      InnerJoinKeeps(leftRows[1..], kl, rightRows, kr, parts, width, i - 1);
    }
  }

  /** Every joined row has one cell per left column and `width` right-hand
      cells, when every right row contributes `width` cells. */
  lemma JoinRowsWidth(leftRows: seq<seq<Cell>>, kl: nat, rightRows: seq<seq<Cell>>, kr: nat, parts: seq<seq<Cell>>,
                      width: nat, mode: JoinMode, leftWidth: nat)
    requires kl < leftWidth
    requires forall i :: 0 <= i < |leftRows| ==> |leftRows[i]| == leftWidth
    requires forall n :: 0 <= n < |rightRows| ==> kr < |rightRows[n]|
    requires |parts| == |rightRows| && forall n :: 0 <= n < |parts| ==> |parts[n]| == width
    ensures forall i :: 0 <= i < |JoinRows(leftRows, kl, rightRows, kr, parts, width, mode)| ==>
              |JoinRows(leftRows, kl, rightRows, kr, parts, width, mode)[i]| == leftWidth + width
  {
    var out := JoinRows(leftRows, kl, rightRows, kr, parts, width, mode);
    forall i | 0 <= i < |out|
      ensures |out[i]| == leftWidth + width
    {
      if mode == LeftJoin {
        var found := FindRow(rightRows, kr, leftRows[i][kl]);
        if found.Some? {
          assert out[i] == leftRows[i] + parts[found.value];
        }
      } else {
        var l, r := InnerJoinOrigin(leftRows, kl, rightRows, kr, parts, width, out[i]);
      }
    }
  }

  /** With a unique key column, the row a key of that column finds is the
      row it came from. */
  lemma FindRowOfUniqueKey(rows: seq<seq<Cell>>, kr: nat, m: nat)
    requires forall n :: 0 <= n < |rows| ==> kr < |rows[n]|
    requires forall n1, n2 :: 0 <= n1 < n2 < |rows| ==> rows[n1][kr] != rows[n2][kr]
    requires m < |rows|
    ensures FindRow(rows, kr, rows[m][kr]) == Some(m)
  {
    assert FindRow(rows, kr, rows[m][kr]).Some?;
  }

  /** A left join with a unique right key, row by row: row `i` is left row
      `i` followed by what the right row with the same key carries, or by
      missing cells when there is none. */
  lemma LeftJoinRow(leftRows: seq<seq<Cell>>, kl: nat, rightRows: seq<seq<Cell>>, kr: nat, parts: seq<seq<Cell>>, width: nat, i: nat)
    requires forall i :: 0 <= i < |leftRows| ==> kl < |leftRows[i]|
    requires forall n :: 0 <= n < |rightRows| ==> kr < |rightRows[n]|
    requires |parts| == |rightRows|
    requires forall n1, n2 :: 0 <= n1 < n2 < |rightRows| ==> rightRows[n1][kr] != rightRows[n2][kr]
    requires i < |leftRows|
    ensures |JoinRows(leftRows, kl, rightRows, kr, parts, width, LeftJoin)| == |leftRows|
    ensures forall m :: 0 <= m < |rightRows| && rightRows[m][kr] == leftRows[i][kl] ==>
              JoinRows(leftRows, kl, rightRows, kr, parts, width, LeftJoin)[i] == leftRows[i] + parts[m]
    ensures (forall m :: 0 <= m < |rightRows| ==> rightRows[m][kr] != leftRows[i][kl]) ==>
              JoinRows(leftRows, kl, rightRows, kr, parts, width, LeftJoin)[i] == leftRows[i] + MissingCells(width)
  {
    forall m | 0 <= m < |rightRows| && rightRows[m][kr] == leftRows[i][kl]
      ensures JoinRows(leftRows, kl, rightRows, kr, parts, width, LeftJoin)[i] == leftRows[i] + parts[m]
    {
      FindRowOfUniqueKey(rightRows, kr, m);
    }
  }

  /** An inner join with a unique right key keeps every left row that has a
      partner, joined to that partner. */
  lemma InnerJoinComplete(leftRows: seq<seq<Cell>>, kl: nat, rightRows: seq<seq<Cell>>, kr: nat, parts: seq<seq<Cell>>,
                          width: nat, i: nat, m: nat)
    requires forall i :: 0 <= i < |leftRows| ==> kl < |leftRows[i]|
    requires forall n :: 0 <= n < |rightRows| ==> kr < |rightRows[n]|
    requires |parts| == |rightRows|
    requires forall n1, n2 :: 0 <= n1 < n2 < |rightRows| ==> rightRows[n1][kr] != rightRows[n2][kr]
    requires i < |leftRows| && m < |rightRows| && rightRows[m][kr] == leftRows[i][kl]
    ensures leftRows[i] + parts[m] in JoinRows(leftRows, kl, rightRows, kr, parts, width, InnerJoin)
  {
    FindRowOfUniqueKey(rightRows, kr, m);
    InnerJoinKeeps(leftRows, kl, rightRows, kr, parts, width, i);
  }

  /** Joining two runs of left rows one after the other gives the two
      joins one after the other: each left row contributes on its own. */
  lemma {:induction false} JoinRowsAppend(a: seq<seq<Cell>>, b: seq<seq<Cell>>, kl: nat, rightRows: seq<seq<Cell>>, kr: nat,
                                          parts: seq<seq<Cell>>, width: nat, mode: JoinMode)
    requires forall i :: 0 <= i < |a| ==> kl < |a[i]|
    requires forall i :: 0 <= i < |b| ==> kl < |b[i]|
    requires forall n :: 0 <= n < |rightRows| ==> kr < |rightRows[n]|
    requires |parts| == |rightRows|
    ensures JoinRows(a + b, kl, rightRows, kr, parts, width, mode)
         == JoinRows(a, kl, rightRows, kr, parts, width, mode) + JoinRows(b, kl, rightRows, kr, parts, width, mode)
  {
    if a == [] {
      assert a + b == b;
    } else {
      var ab := a + b;
      assert ab[0] == a[0] && ab[1..] == a[1..] + b;
      JoinRowsCons(ab, kl, rightRows, kr, parts, width, mode);
      JoinRowsCons(a, kl, rightRows, kr, parts, width, mode);
      JoinRowsAppend(a[1..], b, kl, rightRows, kr, parts, width, mode);
      AppendAssociative(JoinOne(a[0], kl, rightRows, kr, parts, width, mode),
                        JoinRows(a[1..], kl, rightRows, kr, parts, width, mode),
                        JoinRows(b, kl, rightRows, kr, parts, width, mode));
    }
  }

  lemma AppendAssociative<T>(x: seq<T>, y: seq<T>, z: seq<T>)
    ensures x + (y + z) == (x + y) + z
  {
  }

  /** A join is the first left row's contribution followed by the join of
      the others. */
  lemma JoinRowsCons(s: seq<seq<Cell>>, kl: nat, rightRows: seq<seq<Cell>>, kr: nat,
                     parts: seq<seq<Cell>>, width: nat, mode: JoinMode)
    requires s != [] && forall i :: 0 <= i < |s| ==> kl < |s[i]|
    requires forall n :: 0 <= n < |rightRows| ==> kr < |rightRows[n]|
    requires |parts| == |rightRows|
    ensures JoinRows(s, kl, rightRows, kr, parts, width, mode)
         == JoinOne(s[0], kl, rightRows, kr, parts, width, mode) + JoinRows(s[1..], kl, rightRows, kr, parts, width, mode)
  {
  }

  /** What one left row contributes: itself joined to the right row its key
      finds; with no such row, itself with missing cells in a left join and
      nothing in an inner join. */
  lemma JoinRowsOne(l: seq<Cell>, kl: nat, rightRows: seq<seq<Cell>>, kr: nat, parts: seq<seq<Cell>>,
                    width: nat, mode: JoinMode)
    requires kl < |l|
    requires forall n :: 0 <= n < |rightRows| ==> kr < |rightRows[n]|
    requires |parts| == |rightRows|
    ensures JoinRows([l], kl, rightRows, kr, parts, width, mode)
         == match FindRow(rightRows, kr, l[kl])
            case Some(m) => [l + parts[m]]
            case None => if mode == LeftJoin then [l + MissingCells(width)] else []
  {
    assert [l][1..] == [];
    assert JoinRows([l], kl, rightRows, kr, parts, width, mode) == JoinOne(l, kl, rightRows, kr, parts, width, mode) + [];
  }

  /** The positions from `k` on that hold `true`, in increasing order. */
  function PositionsFrom(hits: seq<bool>, k: nat): (idx: seq<nat>)
    requires k <= |hits|
    ensures forall j :: 0 <= j < |idx| ==> k <= idx[j] < |hits| && hits[idx[j]]
    decreases |hits| - k
  {
    if k == |hits| then [] else (if hits[k] then [k] else []) + PositionsFrom(hits, k + 1)
  }

  /** The positions increase. */
  lemma {:induction false} PositionsIncreasing(hits: seq<bool>, k: nat, j1: nat, j2: nat)
    requires k <= |hits| && j1 < j2 < |PositionsFrom(hits, k)|
    ensures PositionsFrom(hits, k)[j1] < PositionsFrom(hits, k)[j2]
    decreases |hits| - k
  {
    var idx, rest := PositionsFrom(hits, k), PositionsFrom(hits, k + 1);
    var d := if hits[k] then 1 else 0;
    assert idx == (if hits[k] then [k] else []) + rest;
    assert idx[j2] == rest[j2 - d];
    if j1 >= d {
      PositionsIncreasing(hits, k + 1, j1 - d, j2 - d);
      assert idx[j1] == rest[j1 - d];
    }
  }

  /** Every position from `k` on that holds `true` is listed. */
  lemma {:induction false} PositionsComplete(hits: seq<bool>, k: nat, i: nat)
    requires k <= i < |hits| && hits[i]
    ensures i in PositionsFrom(hits, k)
    decreases |hits| - k
  {
    var rest := PositionsFrom(hits, k + 1);
    assert PositionsFrom(hits, k) == (if hits[k] then [k] else []) + rest;
    if i > k {
      PositionsComplete(hits, k + 1, i);
    }
  }

  /** Which left rows have a key that finds a right row. */
  function Hits(leftRows: seq<seq<Cell>>, kl: nat, rightRows: seq<seq<Cell>>, kr: nat): (h: seq<bool>)
    requires forall i :: 0 <= i < |leftRows| ==> kl < |leftRows[i]|
    requires forall n :: 0 <= n < |rightRows| ==> kr < |rightRows[n]|
    ensures |h| == |leftRows| && forall i :: 0 <= i < |leftRows| ==> h[i] == FindRow(rightRows, kr, leftRows[i][kl]).Some?
  {
    seq(|leftRows|, i requires 0 <= i < |leftRows| => FindRow(rightRows, kr, leftRows[i][kl]).Some?)
  }

  /** The left rows whose key finds a right row, by index, in left order
      (`PartneredOrder` and `PartneredExactly` show every such row is
      listed, once). */
  function Partnered(leftRows: seq<seq<Cell>>, kl: nat, rightRows: seq<seq<Cell>>, kr: nat): (idx: seq<nat>)
    requires forall i :: 0 <= i < |leftRows| ==> kl < |leftRows[i]|
    requires forall n :: 0 <= n < |rightRows| ==> kr < |rightRows[n]|
    ensures forall j :: 0 <= j < |idx| ==> idx[j] < |leftRows| && FindRow(rightRows, kr, leftRows[idx[j]][kl]).Some?
  {
    PositionsFrom(Hits(leftRows, kl, rightRows, kr), 0)
  }

  /** The partnered indices increase, so no left row is listed twice. */
  lemma PartneredOrder(leftRows: seq<seq<Cell>>, kl: nat, rightRows: seq<seq<Cell>>, kr: nat)
    requires forall i :: 0 <= i < |leftRows| ==> kl < |leftRows[i]|
    requires forall n :: 0 <= n < |rightRows| ==> kr < |rightRows[n]|
    ensures forall j1, j2 :: 0 <= j1 < j2 < |Partnered(leftRows, kl, rightRows, kr)| ==>
              Partnered(leftRows, kl, rightRows, kr)[j1] < Partnered(leftRows, kl, rightRows, kr)[j2]
  {
    var h := Hits(leftRows, kl, rightRows, kr);
    forall j1, j2 | 0 <= j1 < j2 < |PositionsFrom(h, 0)|
      ensures PositionsFrom(h, 0)[j1] < PositionsFrom(h, 0)[j2]
    {
      PositionsIncreasing(h, 0, j1, j2);
    }
  }

  /** A left row is listed exactly when its key finds a right row. */
  lemma PartneredExactly(leftRows: seq<seq<Cell>>, kl: nat, rightRows: seq<seq<Cell>>, kr: nat, i: nat)
    requires forall i :: 0 <= i < |leftRows| ==> kl < |leftRows[i]|
    requires forall n :: 0 <= n < |rightRows| ==> kr < |rightRows[n]|
    requires i < |leftRows|
    ensures i in Partnered(leftRows, kl, rightRows, kr) <==> FindRow(rightRows, kr, leftRows[i][kl]).Some?
  {
    if FindRow(rightRows, kr, leftRows[i][kl]).Some? {
      PositionsComplete(Hits(leftRows, kl, rightRows, kr), 0, i);
    }
  }

  /** The inner join of the left rows from `k` on has one row per
      partnered left row from `k` on. */
  lemma {:induction false} InnerJoinCountFrom(leftRows: seq<seq<Cell>>, kl: nat, rightRows: seq<seq<Cell>>, kr: nat,
                                              parts: seq<seq<Cell>>, width: nat, k: nat)
    requires forall i :: 0 <= i < |leftRows| ==> kl < |leftRows[i]|
    requires forall n :: 0 <= n < |rightRows| ==> kr < |rightRows[n]|
    requires |parts| == |rightRows| && k <= |leftRows|
    ensures |JoinRows(leftRows[k..], kl, rightRows, kr, parts, width, InnerJoin)|
         == |PositionsFrom(Hits(leftRows, kl, rightRows, kr), k)|
    decreases |leftRows| - k
  {
    if k < |leftRows| {
      var h := Hits(leftRows, kl, rightRows, kr);
      assert |PositionsFrom(h, k)| == (if h[k] then 1 else 0) + |PositionsFrom(h, k + 1)|;
      assert leftRows[k..][0] == leftRows[k] && leftRows[k..][1..] == leftRows[k + 1..];
      assert JoinRows(leftRows[k..], kl, rightRows, kr, parts, width, InnerJoin)
          == JoinOne(leftRows[k], kl, rightRows, kr, parts, width, InnerJoin)
             + JoinRows(leftRows[k + 1..], kl, rightRows, kr, parts, width, InnerJoin);
      InnerJoinCountFrom(leftRows, kl, rightRows, kr, parts, width, k + 1);
    }
  }

  /** Row `j` of the inner join of the left rows from `k` on is the `j`-th
      partnered left row from `k` on, joined to what its right row carries. */
  lemma {:induction false} InnerJoinRowFrom(leftRows: seq<seq<Cell>>, kl: nat, rightRows: seq<seq<Cell>>, kr: nat,
                                            parts: seq<seq<Cell>>, width: nat, k: nat, j: nat)
    requires forall i :: 0 <= i < |leftRows| ==> kl < |leftRows[i]|
    requires forall n :: 0 <= n < |rightRows| ==> kr < |rightRows[n]|
    requires |parts| == |rightRows| && k <= |leftRows|
    requires j < |PositionsFrom(Hits(leftRows, kl, rightRows, kr), k)|
    ensures j < |JoinRows(leftRows[k..], kl, rightRows, kr, parts, width, InnerJoin)|
    ensures JoinRows(leftRows[k..], kl, rightRows, kr, parts, width, InnerJoin)[j]
         == leftRows[PositionsFrom(Hits(leftRows, kl, rightRows, kr), k)[j]]
            + parts[FindRow(rightRows, kr, leftRows[PositionsFrom(Hits(leftRows, kl, rightRows, kr), k)[j]][kl]).value]
    decreases |leftRows| - k
  {
    InnerJoinCountFrom(leftRows, kl, rightRows, kr, parts, width, k);
    var h := Hits(leftRows, kl, rightRows, kr);
    var idx, rest := PositionsFrom(h, k), PositionsFrom(h, k + 1);
    var d := if h[k] then 1 else 0;
    var out := JoinRows(leftRows[k..], kl, rightRows, kr, parts, width, InnerJoin);
    var outRest := JoinRows(leftRows[k + 1..], kl, rightRows, kr, parts, width, InnerJoin);
    assert out == JoinOne(leftRows[k], kl, rightRows, kr, parts, width, InnerJoin) + outRest by {
      assert leftRows[k..][0] == leftRows[k] && leftRows[k..][1..] == leftRows[k + 1..];
    }
    assert idx == (if h[k] then [k] else []) + rest;
    if j >= d {
      InnerJoinRowFrom(leftRows, kl, rightRows, kr, parts, width, k + 1, j - d);
      assert idx[j] == rest[j - d] && out[j] == outRest[j - d];
    }
  }

  /** An inner join has one row per partnered left row. */
  lemma InnerJoinCount(leftRows: seq<seq<Cell>>, kl: nat, rightRows: seq<seq<Cell>>, kr: nat,
                       parts: seq<seq<Cell>>, width: nat)
    requires forall i :: 0 <= i < |leftRows| ==> kl < |leftRows[i]|
    requires forall n :: 0 <= n < |rightRows| ==> kr < |rightRows[n]|
    requires |parts| == |rightRows|
    ensures |JoinRows(leftRows, kl, rightRows, kr, parts, width, InnerJoin)| == |Partnered(leftRows, kl, rightRows, kr)|
  {
    assert leftRows[0..] == leftRows;
    InnerJoinCountFrom(leftRows, kl, rightRows, kr, parts, width, 0);
  }

  /** Row `j` of an inner join is the `j`-th partnered left row followed by
      what the right row its key finds carries. */
  lemma InnerJoinRowAt(leftRows: seq<seq<Cell>>, kl: nat, rightRows: seq<seq<Cell>>, kr: nat,
                       parts: seq<seq<Cell>>, width: nat, j: nat)
    requires forall i :: 0 <= i < |leftRows| ==> kl < |leftRows[i]|
    requires forall n :: 0 <= n < |rightRows| ==> kr < |rightRows[n]|
    requires |parts| == |rightRows| && j < |Partnered(leftRows, kl, rightRows, kr)|
    ensures j < |JoinRows(leftRows, kl, rightRows, kr, parts, width, InnerJoin)|
    ensures JoinRows(leftRows, kl, rightRows, kr, parts, width, InnerJoin)[j]
         == leftRows[Partnered(leftRows, kl, rightRows, kr)[j]]
            + parts[FindRow(rightRows, kr, leftRows[Partnered(leftRows, kl, rightRows, kr)[j]][kl]).value]
  {
    assert leftRows[0..] == leftRows;
    InnerJoinRowFrom(leftRows, kl, rightRows, kr, parts, width, 0, j);
  }

  /** With a unique right key, row `j` of an inner join is the `j`-th
      partnered left row followed by what the right row with its key
      carries. */
  lemma InnerJoinPartnerRow(leftRows: seq<seq<Cell>>, kl: nat, rightRows: seq<seq<Cell>>, kr: nat,
                            parts: seq<seq<Cell>>, width: nat, j: nat, m: nat)
    requires forall i :: 0 <= i < |leftRows| ==> kl < |leftRows[i]|
    requires forall n :: 0 <= n < |rightRows| ==> kr < |rightRows[n]|
    requires |parts| == |rightRows|
    requires forall n1, n2 :: 0 <= n1 < n2 < |rightRows| ==> rightRows[n1][kr] != rightRows[n2][kr]
    requires j < |Partnered(leftRows, kl, rightRows, kr)| && m < |rightRows|
    requires rightRows[m][kr] == leftRows[Partnered(leftRows, kl, rightRows, kr)[j]][kl]
    ensures j < |JoinRows(leftRows, kl, rightRows, kr, parts, width, InnerJoin)|
    ensures JoinRows(leftRows, kl, rightRows, kr, parts, width, InnerJoin)[j]
         == leftRows[Partnered(leftRows, kl, rightRows, kr)[j]] + parts[m]
  {
    FindRowOfUniqueKey(rightRows, kr, m);
    InnerJoinRowAt(leftRows, kl, rightRows, kr, parts, width, j);
  }



  // ---------------------------------------------------------------------
  // pandas' own suffixes

  /** Every label of `labels` that `others` also holds gets `suffix`; the
      rest are kept. */
  function SuffixShared(labels: seq<string>, others: seq<string>, suffix: string): (r: seq<string>)
    ensures |r| == |labels|
    ensures forall p :: 0 <= p < |labels| ==> r[p] == if labels[p] in others then labels[p] + suffix else labels[p]
  {
    seq(|labels|, p requires 0 <= p < |labels| => if labels[p] in others then labels[p] + suffix else labels[p])
  }

  /** Some position holds a label seen earlier in `after` although its label
      in `before` was not seen earlier there: a repeat the suffixes made,
      not one the table already had. */
  predicate CreatesDuplicate(before: seq<string>, after: seq<string>)
    requires |before| == |after|
  {
    exists p :: 0 <= p < |after| && after[p] in after[..p] && before[p] !in before[..p]
  }

  /** The labels of the joined table, given the left labels and the labels
      carried from the right: a label on both sides becomes `label_x` on the
      left and `label_y` on the right, and the join fails (`None`) when that
      makes a label repeat within either side that did not repeat before. */
  function OverlapLabels(left: seq<string>, right: seq<string>): (r: Option<seq<string>>)
    ensures r.Some? ==> |r.value| == |left| + |right|
  {
    var l, rr := SuffixShared(left, right, LeftOverlapSuffix), SuffixShared(right, left, RightOverlapSuffix);
    if CreatesDuplicate(left, l) || CreatesDuplicate(right, rr) then None else Some(l + rr)
  }

  /** The joined labels are the left labels, each suffixed with `_x` when
      the right also holds it, then the right labels, each suffixed with
      `_y` when the left also holds it. */
  lemma OverlapLabelsSides(left: seq<string>, right: seq<string>)
    requires OverlapLabels(left, right).Some?
    ensures OverlapLabels(left, right).value[..|left|] == SuffixShared(left, right, LeftOverlapSuffix)
    ensures OverlapLabels(left, right).value[|left|..] == SuffixShared(right, left, RightOverlapSuffix)
  {
    var l, rr := SuffixShared(left, right, LeftOverlapSuffix), SuffixShared(right, left, RightOverlapSuffix);
    assert (l + rr)[..|left|] == l && (l + rr)[|left|..] == rr;
  }

  /** When no label is on both sides, the labels are the left ones followed
      by the right ones, unchanged. */
  lemma OverlapLabelsDisjoint(left: seq<string>, right: seq<string>)
    requires forall c :: c in left ==> c !in right
    ensures OverlapLabels(left, right) == Some(left + right)
  {
    var l, rr := SuffixShared(left, right, LeftOverlapSuffix), SuffixShared(right, left, RightOverlapSuffix);
    assert l == left;
    assert rr == right;
  }

  /** The only repeats the suffixes can leave within a side are the ones it
      already had: a side without repeated labels keeps none. */
  lemma OverlapLabelsDistinct(left: seq<string>, right: seq<string>)
    requires NoRepeats(left) && NoRepeats(right) && OverlapLabels(left, right).Some?
    ensures NoRepeats(SuffixShared(left, right, LeftOverlapSuffix))
    ensures NoRepeats(SuffixShared(right, left, RightOverlapSuffix))
  {
    SuffixKeepsDistinct(left, SuffixShared(left, right, LeftOverlapSuffix));
    SuffixKeepsDistinct(right, SuffixShared(right, left, RightOverlapSuffix));
  }

  /** A relabelling of a side without repeats that creates no repeat leaves
      it without repeats. */
  lemma SuffixKeepsDistinct(before: seq<string>, after: seq<string>)
    requires |before| == |after| && NoRepeats(before) && !CreatesDuplicate(before, after)
    ensures NoRepeats(after)
  {
  }

  // ---------------------------------------------------------------------
  // The merge

  /** The steps after both key labels resolved, on the normalised tables
      `b` and `n` whose key columns sit at `kl` and `kn`. When the join
      labels coincide the right key column is left out of the result. */
  function KeyedMerge(b: Table, n: Table, kl: nat, kn: nat, keyNew: string, mode: JoinMode): (out: MergeOutcome)
    requires WellFormed(b) && WellFormed(n) && kl < |b.columns| && kn < |n.columns|
    ensures out.Merged? ==> WellFormed(out.table)
  {
    var dups := Repeats(ColumnTexts(n.rows, kn));
    if dups != [] then Failed(DuplicateKeys(Preview(dups)))
    else
      match KeyLookup(RenameRight(b.columns, n.columns, keyNew), EffectiveKey(b.columns, keyNew))
      case At(kr) => JoinAt(b, n, kl, kr, keyNew, mode)
      case _ => Failed(JoinFailed)
  }

  /** `pd.merge` once the join label named right column `kr`: the labels
      pandas gives, or `SuffixClash`, and the joined rows. */
  function JoinAt(b: Table, n: Table, kl: nat, kr: nat, keyNew: string, mode: JoinMode): (out: MergeOutcome)
    requires WellFormed(b) && WellFormed(n) && kl < |b.columns| && kr < |n.columns|
    ensures out.Merged? ==> WellFormed(out.table)
    ensures out.Failed? ==> out.error == SuffixClash
  {
    var shared := SharedKey(b.columns, b.columns[kl], keyNew);
    var labels := OverlapLabels(b.columns, Carry(RenameRight(b.columns, n.columns, keyNew), kr, shared));
    if labels.None? then Failed(SuffixClash)
    else
      var width := if shared then |n.columns| - 1 else |n.columns|;
      var parts := CarryRows(n.rows, kr, shared);
      var rows := JoinRows(b.rows, kl, n.rows, kr, parts, width, mode);
      assert forall i :: 0 <= i < |rows| ==> |rows[i]| == |b.columns| + width by {
        JoinRowsWidth(b.rows, kl, n.rows, kr, parts, width, mode, |b.columns|);
      }
      Merged(Table(labels.value, rows))
  }

  /** `JoinAt` goes through exactly when pandas' suffixes create no
      repeated label, and then joins the rows on right column `kr`, with the
      labels pandas gives. */
  lemma JoinAtRows(b: Table, n: Table, kl: nat, kr: nat, keyNew: string, mode: JoinMode)
    requires WellFormed(b) && WellFormed(n) && kl < |b.columns| && kr < |n.columns|
    ensures JoinAt(b, n, kl, kr, keyNew, mode).Merged?
        <==> OverlapLabels(b.columns, Carry(RenameRight(b.columns, n.columns, keyNew), kr,
                                            SharedKey(b.columns, b.columns[kl], keyNew))).Some?
    ensures JoinAt(b, n, kl, kr, keyNew, mode).Merged? ==>
              && OverlapLabels(b.columns, Carry(RenameRight(b.columns, n.columns, keyNew), kr,
                                                SharedKey(b.columns, b.columns[kl], keyNew)))
                 == Some(JoinAt(b, n, kl, kr, keyNew, mode).table.columns)
              && JoinAt(b, n, kl, kr, keyNew, mode).table.rows
                 == JoinRows(b.rows, kl, n.rows, kr, CarryRows(n.rows, kr, SharedKey(b.columns, b.columns[kl], keyNew)),
                             if SharedKey(b.columns, b.columns[kl], keyNew) then |n.columns| - 1 else |n.columns|, mode)
  {
  }

  /** A keyed merge that finds no repeated key and resolves the join label
      to right column `kr` is `JoinAt` that column. */
  lemma KeyedMergeJoins(b: Table, n: Table, kl: nat, kn: nat, keyNew: string, mode: JoinMode, kr: nat)
    requires WellFormed(b) && WellFormed(n) && kl < |b.columns| && kn < |n.columns|
    requires Repeats(ColumnTexts(n.rows, kn)) == []
    requires KeyLookup(RenameRight(b.columns, n.columns, keyNew), EffectiveKey(b.columns, keyNew)) == At(kr)
    ensures kr < |n.columns|
    ensures KeyedMerge(b, n, kl, kn, keyNew, mode) == JoinAt(b, n, kl, kr, keyNew, mode)
  {
  }

  /** `merge_datasets(base_df, new_df, key_base, key_new, mode)` on the
      tables `base` and `other` as they were before the call; `Failed` stands
      for its `None`. */
  function Merge(base: Table, other: Table, keyBase: string, keyNew: string, mode: JoinMode): (out: MergeOutcome)
    requires WellFormed(base) && WellFormed(other)
    ensures out.Merged? ==> WellFormed(out.table)
  {
    match KeyLookup(base.columns, keyBase)
    case Absent => Failed(ColumnNotFound(keyBase))
    case Repeated => Failed(ColumnNotUnique(keyBase))
    case At(kl) =>
      match KeyLookup(other.columns, keyNew)
      case Absent => Failed(ColumnNotFound(keyNew))
      case Repeated => Failed(ColumnNotUnique(keyNew))
      case At(kn) => KeyedMerge(KeyNormalized(base, keyBase), KeyNormalized(other, keyNew), kl, kn, keyNew, mode)
  }

  /** The labels of a successful keyed merge: the join label named one
      renamed right column, and the result has pandas' labels for the left
      labels and the renamed right labels, less that column when the key is
      shared. */
  lemma KeyedMergeLabels(b: Table, n: Table, kl: nat, kn: nat, keyNew: string, mode: JoinMode)
    requires WellFormed(b) && WellFormed(n) && kl < |b.columns| && kn < |n.columns|
    requires KeyedMerge(b, n, kl, kn, keyNew, mode).Merged?
    ensures KeyLookup(RenameRight(b.columns, n.columns, keyNew), EffectiveKey(b.columns, keyNew)).At?
    ensures OverlapLabels(b.columns, Carry(RenameRight(b.columns, n.columns, keyNew),
                                           KeyLookup(RenameRight(b.columns, n.columns, keyNew), EffectiveKey(b.columns, keyNew)).index,
                                           SharedKey(b.columns, b.columns[kl], keyNew)))
         == Some(KeyedMerge(b, n, kl, kn, keyNew, mode).table.columns)
  {
    var lookup := KeyLookup(RenameRight(b.columns, n.columns, keyNew), EffectiveKey(b.columns, keyNew));
    if lookup.At? {
      KeyedMergeJoins(b, n, kl, kn, keyNew, mode, lookup.index);
      JoinAtRows(b, n, kl, lookup.index, keyNew, mode);
    }
  }

  /** The labels of a successful merge, on the tables as they were: pandas'
      labels for the left labels and the renamed right labels, less the
      right key column when the two join labels coincide. */
  lemma MergedLabels(base: Table, other: Table, keyBase: string, keyNew: string, mode: JoinMode)
    requires WellFormed(base) && WellFormed(other)
    requires Merge(base, other, keyBase, keyNew, mode).Merged?
    ensures KeyLookup(base.columns, keyBase).At? && KeyLookup(other.columns, keyNew).At?
    ensures KeyLookup(RenameRight(base.columns, other.columns, keyNew), EffectiveKey(base.columns, keyNew)).At?
    ensures OverlapLabels(base.columns, Carry(RenameRight(base.columns, other.columns, keyNew),
                                              KeyLookup(RenameRight(base.columns, other.columns, keyNew), EffectiveKey(base.columns, keyNew)).index,
                                              SharedKey(base.columns, keyBase, keyNew)))
         == Some(Merge(base, other, keyBase, keyNew, mode).table.columns)
  {
    var kl, kn := KeyLookup(base.columns, keyBase).index, KeyLookup(other.columns, keyNew).index;
    KeyedMergeLabels(KeyNormalized(base, keyBase), KeyNormalized(other, keyNew), kl, kn, keyNew, mode);
  }

  /** `merge_datasets`: both key columns are normalised in place (the left
      one first, the right one only when the left label resolved), and the
      outcome is `Merge` of the tables as they were. */
  method MergeDatasets(baseDf: Frame, newDf: Frame, keyBase: string, keyNew: string, mode: JoinMode)
    returns (out: MergeOutcome)
    requires baseDf != newDf
    modifies baseDf, newDf
    ensures baseDf.View() == KeyNormalized(old(baseDf.View()), keyBase)
    ensures newDf.View() == if KeyLookup(old(baseDf.View()).columns, keyBase).At?
                            then KeyNormalized(old(newDf.View()), keyNew)
                            else old(newDf.View())
    ensures out == Merge(old(baseDf.View()), old(newDf.View()), keyBase, keyNew, mode)
  {
    var foundBase := baseDf.NormalizeKey(keyBase);
    if !foundBase.At? {
      out := Failed(if foundBase.Absent? then ColumnNotFound(keyBase) else ColumnNotUnique(keyBase));
      return;
    }
    var foundNew := newDf.NormalizeKey(keyNew);
    if !foundNew.At? {
      out := Failed(if foundNew.Absent? then ColumnNotFound(keyNew) else ColumnNotUnique(keyNew));
      return;
    }
    out := KeyedMerge(baseDf.View(), newDf.View(), foundBase.index, foundNew.index, keyNew, mode);
  }
}
