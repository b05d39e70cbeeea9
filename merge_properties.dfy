/** What `merge_datasets` guarantees, stated on the tables as they were
    before the call: when it refuses, what a left merge and an inner merge
    contain, and when the merged table's labels are all different. */
module MergeProperties {
  import opened Wrappers
  import opened Text
  import opened Tables
  import opened MergeEngine

  /** Position of the left key column. */
  function LeftKeyAt(base: Table, keyBase: string): nat
    requires KeyLookup(base.columns, keyBase).At?
  {
    KeyLookup(base.columns, keyBase).index
  }

  /** Position of the right key column. */
  function RightKeyAt(other: Table, keyNew: string): nat
    requires KeyLookup(other.columns, keyNew).At?
  {
    KeyLookup(other.columns, keyNew).index
  }

  /** Left row `i` and right row `m` agree on their normalised keys. */
  predicate KeysMatch(base: Table, keyBase: string, i: nat, other: Table, keyNew: string, m: nat)
    requires WellFormed(base) && WellFormed(other)
    requires KeyLookup(base.columns, keyBase).At? && KeyLookup(other.columns, keyNew).At?
    requires i < |base.rows| && m < |other.rows|
  {
    NormalizeCell(base.rows[i][LeftKeyAt(base, keyBase)]) == NormalizeCell(other.rows[m][RightKeyAt(other, keyNew)])
  }

  /** No two right rows agree on their normalised key. */
  predicate RightKeyUnique(other: Table, keyNew: string)
    requires WellFormed(other) && KeyLookup(other.columns, keyNew).At?
  {
    forall m1, m2 :: 0 <= m1 < m2 < |other.rows| ==>
      NormalizeCell(other.rows[m1][RightKeyAt(other, keyNew)]) != NormalizeCell(other.rows[m2][RightKeyAt(other, keyNew)])
  }

  /** The merged table of a successful merge. */
  function Output(base: Table, other: Table, keyBase: string, keyNew: string, mode: JoinMode): Table
    requires WellFormed(base) && WellFormed(other)
    requires Merge(base, other, keyBase, keyNew, mode).Merged?
  {
    Merge(base, other, keyBase, keyNew, mode).table
  }

  /** Number of right-hand cells in a joined row: one per right column, less
      the right key when the key column is shared. */
  function RightWidth(base: Table, other: Table, keyBase: string, keyNew: string): nat
    requires KeyLookup(other.columns, keyNew).At?
  {
    if SharedKey(base.columns, keyBase, keyNew) then |other.columns| - 1 else |other.columns|
  }

  /** What normalised right row `m` contributes to a joined row. */
  function RightPart(base: Table, other: Table, keyBase: string, keyNew: string, m: nat): seq<Cell>
    requires WellFormed(other) && KeyLookup(other.columns, keyNew).At? && m < |other.rows|
  {
    Carry(KeyNormalized(other, keyNew).rows[m], RightKeyAt(other, keyNew), SharedKey(base.columns, keyBase, keyNew))
  }

  /** What every normalised right row contributes to a joined row. */
  function RightParts(base: Table, other: Table, keyBase: string, keyNew: string): seq<seq<Cell>>
    requires WellFormed(other) && KeyLookup(other.columns, keyNew).At?
  {
    CarryRows(KeyNormalized(other, keyNew).rows, RightKeyAt(other, keyNew), SharedKey(base.columns, keyBase, keyNew))
  }

  /** The join of the two normalised tables on their key columns. */
  function NormalizedJoin(base: Table, other: Table, keyBase: string, keyNew: string, mode: JoinMode): seq<seq<Cell>>
    requires WellFormed(base) && WellFormed(other)
    requires KeyLookup(base.columns, keyBase).At? && KeyLookup(other.columns, keyNew).At?
  {
    JoinRows(KeyNormalized(base, keyBase).rows, LeftKeyAt(base, keyBase),
             KeyNormalized(other, keyNew).rows, RightKeyAt(other, keyNew), RightParts(base, other, keyBase, keyNew),
             RightWidth(base, other, keyBase, keyNew), mode)
  }

  // ---------------------------------------------------------------------
  // Helpers

  /** The normalised right key column, as text, cell by cell. */
  lemma NormalizedKeyText(other: Table, keyNew: string, m: nat)
    requires WellFormed(other) && KeyLookup(other.columns, keyNew).At? && m < |other.rows|
    ensures |ColumnTexts(KeyNormalized(other, keyNew).rows, RightKeyAt(other, keyNew))| == |other.rows|
    ensures KeyNormalized(other, keyNew).rows[m][RightKeyAt(other, keyNew)]
         == NormalizeCell(other.rows[m][RightKeyAt(other, keyNew)])
    ensures ColumnTexts(KeyNormalized(other, keyNew).rows, RightKeyAt(other, keyNew))[m]
         == NormalizeCell(other.rows[m][RightKeyAt(other, keyNew)]).value
  {
    KeyNormalizedRow(other, keyNew, m);
  }

  /** The right key is unique exactly when its normalised texts do not
      repeat. */
  lemma RightKeyUniqueTexts(other: Table, keyNew: string)
    requires WellFormed(other) && KeyLookup(other.columns, keyNew).At?
    ensures RightKeyUnique(other, keyNew)
        <==> NoRepeats(ColumnTexts(KeyNormalized(other, keyNew).rows, RightKeyAt(other, keyNew)))
  {
    var j := RightKeyAt(other, keyNew);
    var texts := ColumnTexts(KeyNormalized(other, keyNew).rows, j);
    if RightKeyUnique(other, keyNew) {
      forall m1, m2 | 0 <= m1 < m2 < |texts| ensures texts[m1] != texts[m2] {
        NormalizedKeyText(other, keyNew, m1);
        NormalizedKeyText(other, keyNew, m2);
      }
    } else {
      var m1, m2 :| 0 <= m1 < m2 < |other.rows| && NormalizeCell(other.rows[m1][j]) == NormalizeCell(other.rows[m2][j]);
      NormalizedKeyText(other, keyNew, m1);
      NormalizedKeyText(other, keyNew, m2);
    }
  }

  /** Two rows' keys match exactly when their normalised key cells are
      equal. */
  lemma KeysMatchOnNormalized(base: Table, keyBase: string, i: nat, other: Table, keyNew: string, m: nat)
    requires WellFormed(base) && WellFormed(other)
    requires KeyLookup(base.columns, keyBase).At? && KeyLookup(other.columns, keyNew).At?
    requires i < |base.rows| && m < |other.rows|
    ensures KeysMatch(base, keyBase, i, other, keyNew, m)
        <==> KeyNormalized(base, keyBase).rows[i][LeftKeyAt(base, keyBase)]
             == KeyNormalized(other, keyNew).rows[m][RightKeyAt(other, keyNew)]
  {
    KeyNormalizedRow(base, keyBase, i);
    KeyNormalizedRow(other, keyNew, m);
  }

  /** A unique normalised right key makes the normalised key cells distinct. */
  lemma NormalizedKeyCellsDistinct(other: Table, keyNew: string)
    requires WellFormed(other) && KeyLookup(other.columns, keyNew).At?
    requires RightKeyUnique(other, keyNew)
    ensures forall m1, m2 :: 0 <= m1 < m2 < |other.rows| ==>
              KeyNormalized(other, keyNew).rows[m1][RightKeyAt(other, keyNew)]
              != KeyNormalized(other, keyNew).rows[m2][RightKeyAt(other, keyNew)]
  {
    forall m1, m2 | 0 <= m1 < m2 < |other.rows|
      ensures KeyNormalized(other, keyNew).rows[m1][RightKeyAt(other, keyNew)]
              != KeyNormalized(other, keyNew).rows[m2][RightKeyAt(other, keyNew)]
    {
      KeyNormalizedRow(other, keyNew, m1);
      KeyNormalizedRow(other, keyNew, m2);
    }
  }

  /** Once both labels resolve, `Merge` is the keyed merge of the normalised
      tables. */
  lemma MergeUnfold(base: Table, other: Table, keyBase: string, keyNew: string, mode: JoinMode)
    requires WellFormed(base) && WellFormed(other)
    requires KeyLookup(base.columns, keyBase).At? && KeyLookup(other.columns, keyNew).At?
    ensures Merge(base, other, keyBase, keyNew, mode)
         == KeyedMerge(KeyNormalized(base, keyBase), KeyNormalized(other, keyNew),
                       LeftKeyAt(base, keyBase), RightKeyAt(other, keyNew), keyNew, mode)
  {
  }

  /** The keyed merge refuses for duplicates exactly when the key texts
      repeat, and then lists a preview of the repeated texts. */
  lemma KeyedMergeRefusal(b: Table, n: Table, kl: nat, kn: nat, keyNew: string, mode: JoinMode)
    requires WellFormed(b) && WellFormed(n) && kl < |b.columns| && kn < |n.columns|
    ensures KeyedMerge(b, n, kl, kn, keyNew, mode).Failed? && KeyedMerge(b, n, kl, kn, keyNew, mode).error.DuplicateKeys?
            <==> Repeats(ColumnTexts(n.rows, kn)) != []
    ensures KeyedMerge(b, n, kl, kn, keyNew, mode).Failed? && KeyedMerge(b, n, kl, kn, keyNew, mode).error.DuplicateKeys?
            ==> KeyedMerge(b, n, kl, kn, keyNew, mode).error.preview == Preview(Repeats(ColumnTexts(n.rows, kn)))
  {
  }

  /** A non-empty list of repeats gives a non-empty preview. */
  lemma PreviewNonEmpty(texts: seq<string>)
    ensures Repeats(texts) != [] ==> 0 < |Preview(Repeats(texts))|
  {
    if Repeats(texts) != [] {
      assert Preview(Repeats(texts))[0] == Repeats(texts)[0];
    }
  }

  /** Every previewed value occurs twice. */
  lemma PreviewRepeated(texts: seq<string>)
    ensures forall v :: v in Preview(Repeats(texts)) ==> OccursTwice(texts, v)
  {
    forall v | v in Preview(Repeats(texts)) ensures OccursTwice(texts, v) {
      assert v in Repeats(texts);
    }
  }

  /** A successful merge resolved both key labels, found the right key
      unique, and joined on the right key column itself. */
  lemma {:induction false} MergedShape(base: Table, other: Table, keyBase: string, keyNew: string, mode: JoinMode)
    requires WellFormed(base) && WellFormed(other)
    requires Merge(base, other, keyBase, keyNew, mode).Merged?
    ensures KeyLookup(base.columns, keyBase).At? && KeyLookup(other.columns, keyNew).At?
    ensures RightKeyUnique(other, keyNew)
    ensures Merge(base, other, keyBase, keyNew, mode).table.rows == NormalizedJoin(base, other, keyBase, keyNew, mode)
  {
    MergedKeyUnique(base, other, keyBase, keyNew, mode);
    MergedRows(base, other, keyBase, keyNew, mode);
  }

  /** A successful merge resolved both key labels and found no repeated key
      text. */
  lemma MergedKeyUnique(base: Table, other: Table, keyBase: string, keyNew: string, mode: JoinMode)
    requires WellFormed(base) && WellFormed(other)
    requires Merge(base, other, keyBase, keyNew, mode).Merged?
    ensures KeyLookup(base.columns, keyBase).At? && KeyLookup(other.columns, keyNew).At?
    ensures Repeats(ColumnTexts(KeyNormalized(other, keyNew).rows, RightKeyAt(other, keyNew))) == []
    ensures RightKeyUnique(other, keyNew)
  {
    var texts := ColumnTexts(KeyNormalized(other, keyNew).rows, RightKeyAt(other, keyNew));
    MergeUnfold(base, other, keyBase, keyNew, mode);
    KeyedMergeRefusal(KeyNormalized(base, keyBase), KeyNormalized(other, keyNew),
                      LeftKeyAt(base, keyBase), RightKeyAt(other, keyNew), keyNew, mode);
    RepeatsEmpty(texts);
    RightKeyUniqueTexts(other, keyNew);
  }

  /** The rows of a successful merge are the join of the normalised tables
      on the right key column itself. */
  lemma MergedRows(base: Table, other: Table, keyBase: string, keyNew: string, mode: JoinMode)
    requires WellFormed(base) && WellFormed(other)
    requires Merge(base, other, keyBase, keyNew, mode).Merged?
    ensures KeyLookup(base.columns, keyBase).At? && KeyLookup(other.columns, keyNew).At?
    ensures Merge(base, other, keyBase, keyNew, mode).table.rows == NormalizedJoin(base, other, keyBase, keyNew, mode)
  {
    MergedKeyUnique(base, other, keyBase, keyNew, mode);
    var kl, j := LeftKeyAt(base, keyBase), RightKeyAt(other, keyNew);
    var b, n := KeyNormalized(base, keyBase), KeyNormalized(other, keyNew);
    var renamed := RenameRight(base.columns, other.columns, keyNew);
    var eff := EffectiveKey(base.columns, keyNew);
    RenameRules(base.columns, other.columns, keyNew, j);
    MergeUnfold(base, other, keyBase, keyNew, mode);
    assert KeyLookup(renamed, eff) == At(j);
    KeyedMergeJoins(b, n, kl, j, keyNew, mode, j);
    JoinAtRows(b, n, kl, j, keyNew, mode);
  }

  // ---------------------------------------------------------------------
  // Duplicate keys

  /** Once both key labels resolve, the merge is refused for duplicate keys
      exactly when two right rows share a normalised key. */
  lemma DuplicateKeysRefused(base: Table, other: Table, keyBase: string, keyNew: string, mode: JoinMode)
    requires WellFormed(base) && WellFormed(other)
    requires KeyLookup(base.columns, keyBase).At? && KeyLookup(other.columns, keyNew).At?
    ensures Merge(base, other, keyBase, keyNew, mode).Failed? && Merge(base, other, keyBase, keyNew, mode).error.DuplicateKeys?
            <==> !RightKeyUnique(other, keyNew)
  {
    var n := KeyNormalized(other, keyNew);
    var texts := ColumnTexts(n.rows, RightKeyAt(other, keyNew));
    MergeUnfold(base, other, keyBase, keyNew, mode);
    KeyedMergeRefusal(KeyNormalized(base, keyBase), n, LeftKeyAt(base, keyBase), RightKeyAt(other, keyNew), keyNew, mode);
    RepeatsEmpty(texts);
    RightKeyUniqueTexts(other, keyNew);
  }

  /** The duplicate-key warning lists at most ten values and at least one,
      each of them the normalised key of two right rows. */
  lemma DuplicateKeysListed(base: Table, other: Table, keyBase: string, keyNew: string, mode: JoinMode)
    requires WellFormed(base) && WellFormed(other)
    requires KeyLookup(base.columns, keyBase).At? && KeyLookup(other.columns, keyNew).At?
    requires Merge(base, other, keyBase, keyNew, mode).Failed? && Merge(base, other, keyBase, keyNew, mode).error.DuplicateKeys?
    ensures 0 < |Merge(base, other, keyBase, keyNew, mode).error.preview| <= PreviewLimit
    ensures forall v :: v in Merge(base, other, keyBase, keyNew, mode).error.preview ==>
              exists m1, m2 :: 0 <= m1 < m2 < |other.rows|
                && NormalizeCell(other.rows[m1][RightKeyAt(other, keyNew)]) == Some(v)
                && NormalizeCell(other.rows[m2][RightKeyAt(other, keyNew)]) == Some(v)
  {
    var j := RightKeyAt(other, keyNew);
    var n := KeyNormalized(other, keyNew);
    var texts := ColumnTexts(n.rows, j);
    MergeUnfold(base, other, keyBase, keyNew, mode);
    KeyedMergeRefusal(KeyNormalized(base, keyBase), n, LeftKeyAt(base, keyBase), j, keyNew, mode);
    var preview := Merge(base, other, keyBase, keyNew, mode).error.preview;
    assert preview == Preview(Repeats(texts));
    PreviewNonEmpty(texts);
    forall v | v in preview
      ensures exists m1, m2 :: 0 <= m1 < m2 < |other.rows|
                && NormalizeCell(other.rows[m1][j]) == Some(v)
                && NormalizeCell(other.rows[m2][j]) == Some(v)
    {
      var m1, m2 := PreviewedKeyRows(other, keyNew, v);
    }
  }

  /** A previewed value is the normalised key of two right rows. */
  lemma PreviewedKeyRows(other: Table, keyNew: string, v: string) returns (m1: nat, m2: nat)
    requires WellFormed(other) && KeyLookup(other.columns, keyNew).At?
    requires v in Preview(Repeats(ColumnTexts(KeyNormalized(other, keyNew).rows, RightKeyAt(other, keyNew))))
    ensures m1 < m2 < |other.rows|
    ensures NormalizeCell(other.rows[m1][RightKeyAt(other, keyNew)]) == Some(v)
    ensures NormalizeCell(other.rows[m2][RightKeyAt(other, keyNew)]) == Some(v)
  {
    PreviewRepeated(ColumnTexts(KeyNormalized(other, keyNew).rows, RightKeyAt(other, keyNew)));
    m1, m2 := RepeatedKeyRows(other, keyNew, v);
  }

  /** A text that occurs twice in the normalised right key column is the
      normalised key of two right rows. */
  lemma RepeatedKeyRows(other: Table, keyNew: string, v: string) returns (m1: nat, m2: nat)
    requires WellFormed(other) && KeyLookup(other.columns, keyNew).At?
    requires OccursTwice(ColumnTexts(KeyNormalized(other, keyNew).rows, RightKeyAt(other, keyNew)), v)
    ensures m1 < m2 < |other.rows|
    ensures NormalizeCell(other.rows[m1][RightKeyAt(other, keyNew)]) == Some(v)
    ensures NormalizeCell(other.rows[m2][RightKeyAt(other, keyNew)]) == Some(v)
  {
    var texts := ColumnTexts(KeyNormalized(other, keyNew).rows, RightKeyAt(other, keyNew));
    m1, m2 :| 0 <= m1 < m2 < |texts| && texts[m1] == v && texts[m2] == v;
    NormalizedKeyText(other, keyNew, m1);
    NormalizedKeyText(other, keyNew, m2);
  }

  /** Missing values all print as "nan", so two right rows with a missing
      key make the merge refuse. */
  lemma MissingKeysCollide(base: Table, other: Table, keyBase: string, keyNew: string, mode: JoinMode, m1: nat, m2: nat)
    requires WellFormed(base) && WellFormed(other)
    requires KeyLookup(base.columns, keyBase).At? && KeyLookup(other.columns, keyNew).At?
    requires m1 < m2 < |other.rows|
    requires other.rows[m1][RightKeyAt(other, keyNew)].None? && other.rows[m2][RightKeyAt(other, keyNew)].None?
    ensures Merge(base, other, keyBase, keyNew, mode).Failed?
    ensures Merge(base, other, keyBase, keyNew, mode).error.DuplicateKeys?
  {
    DuplicateKeysRefused(base, other, keyBase, keyNew, mode);
  }

  // ---------------------------------------------------------------------
  // Join results

  /** The left join of the normalised tables, row by row, stated on the
      tables as they were. */
  lemma LeftJoinOfNormalized(base: Table, other: Table, keyBase: string, keyNew: string, i: nat)
    requires WellFormed(base) && WellFormed(other)
    requires KeyLookup(base.columns, keyBase).At? && KeyLookup(other.columns, keyNew).At?
    requires RightKeyUnique(other, keyNew)
    requires i < |base.rows|
    ensures |NormalizedJoin(base, other, keyBase, keyNew, LeftJoin)| == |base.rows|
    ensures forall m :: 0 <= m < |other.rows| && KeysMatch(base, keyBase, i, other, keyNew, m) ==>
              NormalizedJoin(base, other, keyBase, keyNew, LeftJoin)[i]
              == KeyNormalized(base, keyBase).rows[i] + RightPart(base, other, keyBase, keyNew, m)
    ensures (forall m :: 0 <= m < |other.rows| ==> !KeysMatch(base, keyBase, i, other, keyNew, m)) ==>
              NormalizedJoin(base, other, keyBase, keyNew, LeftJoin)[i]
              == KeyNormalized(base, keyBase).rows[i] + MissingCells(RightWidth(base, other, keyBase, keyNew))
  {
    NormalizedKeyCellsDistinct(other, keyNew);
    var kl, j := LeftKeyAt(base, keyBase), RightKeyAt(other, keyNew);
    var b, n := KeyNormalized(base, keyBase), KeyNormalized(other, keyNew);
    var parts := RightParts(base, other, keyBase, keyNew);
    assert forall m :: 0 <= m < |other.rows| ==> parts[m] == RightPart(base, other, keyBase, keyNew, m);
    LeftJoinRow(b.rows, kl, n.rows, j, parts, RightWidth(base, other, keyBase, keyNew), i);
    forall m | 0 <= m < |other.rows|
      ensures KeysMatch(base, keyBase, i, other, keyNew, m) <==> n.rows[m][j] == b.rows[i][kl]
    {
      KeysMatchOnNormalized(base, keyBase, i, other, keyNew, m);
    }
  }

  /** A left merge keeps every left row, in place: row `i` is the
      normalised left row followed by the right row that has the same
      normalised key, or by missing cells when no right row has it. */
  lemma LeftMergeRow(base: Table, other: Table, keyBase: string, keyNew: string, i: nat)
    requires WellFormed(base) && WellFormed(other)
    requires Merge(base, other, keyBase, keyNew, LeftJoin).Merged?
    requires i < |base.rows|
    ensures KeyLookup(base.columns, keyBase).At? && KeyLookup(other.columns, keyNew).At?
    ensures |Output(base, other, keyBase, keyNew, LeftJoin).rows| == |base.rows|
    ensures forall m :: 0 <= m < |other.rows| && KeysMatch(base, keyBase, i, other, keyNew, m) ==>
              Output(base, other, keyBase, keyNew, LeftJoin).rows[i]
              == KeyNormalized(base, keyBase).rows[i] + RightPart(base, other, keyBase, keyNew, m)
    ensures (forall m :: 0 <= m < |other.rows| ==> !KeysMatch(base, keyBase, i, other, keyNew, m)) ==>
              Output(base, other, keyBase, keyNew, LeftJoin).rows[i]
              == KeyNormalized(base, keyBase).rows[i] + MissingCells(RightWidth(base, other, keyBase, keyNew))
  {
    MergedShape(base, other, keyBase, keyNew, LeftJoin);
    LeftJoinOfNormalized(base, other, keyBase, keyNew, i);
  }

  /** The inner join of the normalised tables, stated on the tables as they
      were: each joined row pairs a left row and a right row whose
      normalised keys agree. */
  lemma InnerJoinOfNormalizedSound(base: Table, other: Table, keyBase: string, keyNew: string, o: seq<Cell>)
    returns (i: nat, m: nat)
    requires WellFormed(base) && WellFormed(other)
    requires KeyLookup(base.columns, keyBase).At? && KeyLookup(other.columns, keyNew).At?
    requires o in NormalizedJoin(base, other, keyBase, keyNew, InnerJoin)
    ensures i < |base.rows| && m < |other.rows|
    ensures KeysMatch(base, keyBase, i, other, keyNew, m)
    ensures o == KeyNormalized(base, keyBase).rows[i] + RightPart(base, other, keyBase, keyNew, m)
  {
    var b, n := KeyNormalized(base, keyBase), KeyNormalized(other, keyNew);
    var parts := RightParts(base, other, keyBase, keyNew);
    i, m := InnerJoinOrigin(b.rows, LeftKeyAt(base, keyBase), n.rows, RightKeyAt(other, keyNew),
                            parts, RightWidth(base, other, keyBase, keyNew), o);
    assert parts[m] == RightPart(base, other, keyBase, keyNew, m);
    KeysMatchOnNormalized(base, keyBase, i, other, keyNew, m);
  }

  /** An inner merge has at most as many rows as the left table; each of
      its rows is a normalised left row followed by the right row with the
      same normalised key. */
  lemma InnerMergeSound(base: Table, other: Table, keyBase: string, keyNew: string, o: seq<Cell>)
    requires WellFormed(base) && WellFormed(other)
    requires Merge(base, other, keyBase, keyNew, InnerJoin).Merged?
    ensures KeyLookup(base.columns, keyBase).At? && KeyLookup(other.columns, keyNew).At?
    ensures |Output(base, other, keyBase, keyNew, InnerJoin).rows| <= |base.rows|
    ensures o in Output(base, other, keyBase, keyNew, InnerJoin).rows ==>
              exists i, m :: 0 <= i < |base.rows| && 0 <= m < |other.rows|
                && KeysMatch(base, keyBase, i, other, keyNew, m)
                && o == KeyNormalized(base, keyBase).rows[i] + RightPart(base, other, keyBase, keyNew, m)
  {
    MergedShape(base, other, keyBase, keyNew, InnerJoin);
    if o in Output(base, other, keyBase, keyNew, InnerJoin).rows {
      var i, m := InnerJoinOfNormalizedSound(base, other, keyBase, keyNew, o);
    }
  }

  /** The inner join of the normalised tables keeps every left row that has
      a partner under a unique right key. */
  lemma InnerJoinOfNormalizedComplete(base: Table, other: Table, keyBase: string, keyNew: string, i: nat, m: nat)
    requires WellFormed(base) && WellFormed(other)
    requires KeyLookup(base.columns, keyBase).At? && KeyLookup(other.columns, keyNew).At?
    requires RightKeyUnique(other, keyNew)
    requires i < |base.rows| && m < |other.rows| && KeysMatch(base, keyBase, i, other, keyNew, m)
    ensures KeyNormalized(base, keyBase).rows[i] + RightPart(base, other, keyBase, keyNew, m)
            in NormalizedJoin(base, other, keyBase, keyNew, InnerJoin)
  {
    NormalizedKeyCellsDistinct(other, keyNew);
    KeysMatchOnNormalized(base, keyBase, i, other, keyNew, m);
    var b, n := KeyNormalized(base, keyBase), KeyNormalized(other, keyNew);
    var parts := RightParts(base, other, keyBase, keyNew);
    assert parts[m] == RightPart(base, other, keyBase, keyNew, m);
    InnerJoinComplete(b.rows, LeftKeyAt(base, keyBase), n.rows, RightKeyAt(other, keyNew),
                      parts, RightWidth(base, other, keyBase, keyNew), i, m);
  }

  /** An inner merge keeps every left row that has a partner: the
      normalised left row followed by its right row is in the result. */
  lemma InnerMergeComplete(base: Table, other: Table, keyBase: string, keyNew: string, i: nat, m: nat)
    requires WellFormed(base) && WellFormed(other)
    requires KeyLookup(base.columns, keyBase).At? && KeyLookup(other.columns, keyNew).At?
    requires Merge(base, other, keyBase, keyNew, InnerJoin).Merged?
    requires i < |base.rows| && m < |other.rows| && KeysMatch(base, keyBase, i, other, keyNew, m)
    ensures KeyNormalized(base, keyBase).rows[i] + RightPart(base, other, keyBase, keyNew, m)
            in Output(base, other, keyBase, keyNew, InnerJoin).rows
  {
    MergedShape(base, other, keyBase, keyNew, InnerJoin);
    InnerJoinOfNormalizedComplete(base, other, keyBase, keyNew, i, m);
  }

  /** Positions of the left rows that have a partner on the right, in
      their order in the left table. */
  function Partners(base: Table, other: Table, keyBase: string, keyNew: string): (idx: seq<nat>)
    requires WellFormed(base) && WellFormed(other)
    requires KeyLookup(base.columns, keyBase).At? && KeyLookup(other.columns, keyNew).At?
    ensures forall j :: 0 <= j < |idx| ==> idx[j] < |base.rows|
  {
    Partnered(KeyNormalized(base, keyBase).rows, LeftKeyAt(base, keyBase),
              KeyNormalized(other, keyNew).rows, RightKeyAt(other, keyNew))
  }

  /** `Partners` lists every left row that some right row matches, and no
      other, each once and in increasing order. */
  lemma PartnersExactly(base: Table, other: Table, keyBase: string, keyNew: string)
    requires WellFormed(base) && WellFormed(other)
    requires KeyLookup(base.columns, keyBase).At? && KeyLookup(other.columns, keyNew).At?
    ensures forall j1, j2 :: 0 <= j1 < j2 < |Partners(base, other, keyBase, keyNew)| ==>
              Partners(base, other, keyBase, keyNew)[j1] < Partners(base, other, keyBase, keyNew)[j2]
    ensures forall i :: 0 <= i < |base.rows| ==>
              (i in Partners(base, other, keyBase, keyNew)
               <==> exists m :: 0 <= m < |other.rows| && KeysMatch(base, keyBase, i, other, keyNew, m))
  {
    PartneredOrder(KeyNormalized(base, keyBase).rows, LeftKeyAt(base, keyBase),
                   KeyNormalized(other, keyNew).rows, RightKeyAt(other, keyNew));
    forall i | 0 <= i < |base.rows|
      ensures i in Partners(base, other, keyBase, keyNew)
              <==> exists m :: 0 <= m < |other.rows| && KeysMatch(base, keyBase, i, other, keyNew, m)
    {
      PartnerOfRow(base, other, keyBase, keyNew, i);
    }
  }

  /** Left row `i` is partnered exactly when some right row matches it. */
  lemma PartnerOfRow(base: Table, other: Table, keyBase: string, keyNew: string, i: nat)
    requires WellFormed(base) && WellFormed(other)
    requires KeyLookup(base.columns, keyBase).At? && KeyLookup(other.columns, keyNew).At?
    requires i < |base.rows|
    ensures i in Partners(base, other, keyBase, keyNew)
            <==> exists m :: 0 <= m < |other.rows| && KeysMatch(base, keyBase, i, other, keyNew, m)
  {
    var kl, kr := LeftKeyAt(base, keyBase), RightKeyAt(other, keyNew);
    var b, n := KeyNormalized(base, keyBase), KeyNormalized(other, keyNew);
    PartneredExactly(b.rows, kl, n.rows, kr, i);
    var found := FindRow(n.rows, kr, b.rows[i][kl]);
    if found.Some? {
      KeysMatchOnNormalized(base, keyBase, i, other, keyNew, found.value);
    }
    if exists m :: 0 <= m < |other.rows| && KeysMatch(base, keyBase, i, other, keyNew, m) {
      var m :| 0 <= m < |other.rows| && KeysMatch(base, keyBase, i, other, keyNew, m);
      KeysMatchOnNormalized(base, keyBase, i, other, keyNew, m);
    }
  }

  /** The inner join of the normalised tables under a unique right key, row
      by row: it has one row per partnered left row, and row `j` is the
      `j`-th partnered normalised left row followed by its right row. */
  lemma InnerJoinOfNormalizedRows(base: Table, other: Table, keyBase: string, keyNew: string)
    requires WellFormed(base) && WellFormed(other)
    requires KeyLookup(base.columns, keyBase).At? && KeyLookup(other.columns, keyNew).At?
    requires RightKeyUnique(other, keyNew)
    ensures |NormalizedJoin(base, other, keyBase, keyNew, InnerJoin)| == |Partners(base, other, keyBase, keyNew)|
    ensures forall j, m ::
              0 <= j < |Partners(base, other, keyBase, keyNew)| && 0 <= m < |other.rows|
                && KeysMatch(base, keyBase, Partners(base, other, keyBase, keyNew)[j], other, keyNew, m) ==>
              NormalizedJoin(base, other, keyBase, keyNew, InnerJoin)[j]
              == KeyNormalized(base, keyBase).rows[Partners(base, other, keyBase, keyNew)[j]]
                 + RightPart(base, other, keyBase, keyNew, m)
  {
    InnerJoinCount(KeyNormalized(base, keyBase).rows, LeftKeyAt(base, keyBase),
                   KeyNormalized(other, keyNew).rows, RightKeyAt(other, keyNew),
                   RightParts(base, other, keyBase, keyNew), RightWidth(base, other, keyBase, keyNew));
    forall j, m | 0 <= j < |Partners(base, other, keyBase, keyNew)| && 0 <= m < |other.rows|
                  && KeysMatch(base, keyBase, Partners(base, other, keyBase, keyNew)[j], other, keyNew, m)
      ensures NormalizedJoin(base, other, keyBase, keyNew, InnerJoin)[j]
              == KeyNormalized(base, keyBase).rows[Partners(base, other, keyBase, keyNew)[j]]
                 + RightPart(base, other, keyBase, keyNew, m)
    {
      KeysMatchOnNormalized(base, keyBase, Partners(base, other, keyBase, keyNew)[j], other, keyNew, m);
      InnerJoinRowOfNormalized(base, other, keyBase, keyNew, j, m);
    }
  }

  /** One row of that inner join. */
  lemma InnerJoinRowOfNormalized(base: Table, other: Table, keyBase: string, keyNew: string, j: nat, m: nat)
    requires WellFormed(base) && WellFormed(other)
    requires KeyLookup(base.columns, keyBase).At? && KeyLookup(other.columns, keyNew).At?
    requires RightKeyUnique(other, keyNew)
    requires j < |Partners(base, other, keyBase, keyNew)| && m < |other.rows|
    requires KeyNormalized(base, keyBase).rows[Partners(base, other, keyBase, keyNew)[j]][LeftKeyAt(base, keyBase)]
             == KeyNormalized(other, keyNew).rows[m][RightKeyAt(other, keyNew)]
    ensures j < |NormalizedJoin(base, other, keyBase, keyNew, InnerJoin)|
    ensures NormalizedJoin(base, other, keyBase, keyNew, InnerJoin)[j]
         == KeyNormalized(base, keyBase).rows[Partners(base, other, keyBase, keyNew)[j]]
            + RightPart(base, other, keyBase, keyNew, m)
  {
    var kl, kr := LeftKeyAt(base, keyBase), RightKeyAt(other, keyNew);
    var b, n := KeyNormalized(base, keyBase), KeyNormalized(other, keyNew);
    var parts := RightParts(base, other, keyBase, keyNew);
    assert Partners(base, other, keyBase, keyNew) == Partnered(b.rows, kl, n.rows, kr);
    assert parts[m] == RightPart(base, other, keyBase, keyNew, m);
    KeyWithinRows(base, keyBase);
    KeyWithinRows(other, keyNew);
    NormalizedKeyCellsDistinct(other, keyNew);
    InnerJoinPartnerRow(b.rows, kl, n.rows, kr, parts, RightWidth(base, other, keyBase, keyNew), j, m);
  }

  /** Every normalised row is wide enough to hold the key column. */
  lemma KeyWithinRows(t: Table, name: string)
    requires WellFormed(t) && KeyLookup(t.columns, name).At?
    ensures forall i :: 0 <= i < |KeyNormalized(t, name).rows| ==>
              KeyLookup(t.columns, name).index < |KeyNormalized(t, name).rows[i]|
  {
  }

  /** An inner merge has one row per partnered left row, in the left
      table's order and as often as the left table holds it: row `j` is the
      `j`-th partnered normalised left row followed by its right row. */
  lemma InnerMergeRows(base: Table, other: Table, keyBase: string, keyNew: string)
    requires WellFormed(base) && WellFormed(other)
    requires Merge(base, other, keyBase, keyNew, InnerJoin).Merged?
    ensures KeyLookup(base.columns, keyBase).At? && KeyLookup(other.columns, keyNew).At?
    ensures |Output(base, other, keyBase, keyNew, InnerJoin).rows| == |Partners(base, other, keyBase, keyNew)|
    ensures forall j, m ::
              0 <= j < |Partners(base, other, keyBase, keyNew)| && 0 <= m < |other.rows|
                && KeysMatch(base, keyBase, Partners(base, other, keyBase, keyNew)[j], other, keyNew, m) ==>
              Output(base, other, keyBase, keyNew, InnerJoin).rows[j]
              == KeyNormalized(base, keyBase).rows[Partners(base, other, keyBase, keyNew)[j]]
                 + RightPart(base, other, keyBase, keyNew, m)
  {
    MergedShape(base, other, keyBase, keyNew, InnerJoin);
    InnerJoinOfNormalizedRows(base, other, keyBase, keyNew);
  }

  // ---------------------------------------------------------------------
  // When the merge goes through

  /** With both key labels resolved and a unique right key, the merge goes
      through exactly when the effective right key names one renamed right
      column and pandas' `_x`/`_y` suffixes create no repeated label. */
  lemma MergeGoesThrough(base: Table, other: Table, keyBase: string, keyNew: string, mode: JoinMode)
    requires WellFormed(base) && WellFormed(other)
    requires KeyLookup(base.columns, keyBase).At? && KeyLookup(other.columns, keyNew).At?
    requires RightKeyUnique(other, keyNew)
    ensures Merge(base, other, keyBase, keyNew, mode).Merged?
        <==> && KeyLookup(RenameRight(base.columns, other.columns, keyNew), EffectiveKey(base.columns, keyNew)).At?
             && OverlapLabels(base.columns,
                              Carry(RenameRight(base.columns, other.columns, keyNew),
                                    KeyLookup(RenameRight(base.columns, other.columns, keyNew), EffectiveKey(base.columns, keyNew)).index,
                                    SharedKey(base.columns, keyBase, keyNew))).Some?
  {
    var n := KeyNormalized(other, keyNew);
    var j := RightKeyAt(other, keyNew);
    MergeUnfold(base, other, keyBase, keyNew, mode);
    RightKeyUniqueTexts(other, keyNew);
    RepeatsEmpty(ColumnTexts(n.rows, j));
    var renamed := RenameRight(base.columns, other.columns, keyNew);
    var lookup := KeyLookup(renamed, EffectiveKey(base.columns, keyNew));
    if lookup.At? {
      KeyedMergeJoins(KeyNormalized(base, keyBase), n, LeftKeyAt(base, keyBase), j, keyNew, mode, lookup.index);
      JoinAtRows(KeyNormalized(base, keyBase), n, LeftKeyAt(base, keyBase), lookup.index, keyNew, mode);
    }
  }

  /** With both key labels resolved, a unique right key, labels that are
      distinct within each table, and one suffix level enough to separate
      them, the merge succeeds and its labels are all different. */
  lemma MergeSucceeds(base: Table, other: Table, keyBase: string, keyNew: string, mode: JoinMode)
    requires WellFormed(base) && WellFormed(other)
    requires KeyLookup(base.columns, keyBase).At? && KeyLookup(other.columns, keyNew).At?
    requires RightKeyUnique(other, keyNew)
    requires NoRepeats(base.columns) && NoRepeats(other.columns)
    requires SingleLevelSuffices(base.columns, other.columns)
    ensures Merge(base, other, keyBase, keyNew, mode).Merged?
    ensures NoRepeats(Output(base, other, keyBase, keyNew, mode).columns)
    ensures Output(base, other, keyBase, keyNew, mode).columns
         == base.columns + RenameRight(base.columns, other.columns, keyNew)
  {
    var renamed := RenameRight(base.columns, other.columns, keyNew);
    EffectiveKeyResolves(base.columns, other.columns, keyNew, RightKeyAt(other, keyNew));
    SharedKeyExcluded(base.columns, other.columns, keyBase, keyNew);
    RenamedLabelsDistinct(base.columns, other.columns, keyNew);
    NoRepeatsDisjoint(base.columns, renamed);
    OverlapLabelsDisjoint(base.columns, renamed);
    MergeGoesThrough(base, other, keyBase, keyNew, mode);
    MergedLabels(base, other, keyBase, keyNew, mode);
  }
}
