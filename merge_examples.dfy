/** Worked examples of the steps of a merge on small inputs. */
module MergeExamples {
  import opened Wrappers
  import opened Text
  import opened Tables
  import opened MergeEngine

  /** Both tables carry "ID"; merging on it renames the right key column to
      "ID_1", which is also the label the join looks up, and keeps "Y". */
  lemma ExampleRenaming()
    ensures RenameRight(["ID", "X"], ["ID", "Y"], "ID") == ["ID_1", "Y"]
    ensures EffectiveKey(["ID", "X"], "ID") == "ID_1"
    ensures KeyLookup(["ID_1", "Y"], "ID_1") == At(0)
  {
    assert RenamedLabel(["ID", "X"], "ID", "ID") == "ID_1";
    assert RenamedLabel(["ID", "X"], "ID", "Y") == "Y";
  }

  /** A label shared with the left table other than the key gets "_1"; the
      right key keeps its label when the left table lacks it. */
  lemma ExampleSharedLabel()
    ensures RenameRight(["Code", "Name"], ["Key", "Name"], "Key") == ["Key", "Name_1"]
    ensures EffectiveKey(["Code", "Name"], "Key") == "Key"
  {
    assert RenamedLabel(["Code", "Name"], "Key", "Key") == "Key";
    assert RenamedLabel(["Code", "Name"], "Key", "Name") == "Name_1";
  }

  /** Keys " 1" and "1 " both normalise to "1". */
  lemma ExamplePaddedKeys()
    ensures NormalizeCell(Some(" 1")) == Some("1")
    ensures NormalizeCell(Some("1 ")) == Some("1")
  {
    assert IsSpace(' ') && !IsSpace('1');
    assert TrimStart("1") == "1" && TrimEnd("1") == "1";
    assert TrimStart(" 1") == "1" by { assert " 1"[1..] == "1"; }
    assert Trim(" 1") == "1";
    assert TrimStart("1 ") == "1 ";
    assert TrimEnd("1 ") == "1" by { assert "1 "[..1] == "1"; }
    assert Trim("1 ") == "1";
  }

  /** A key occurring twice is the value the warning lists. */
  lemma ExampleRepeatedKey(v: string)
    ensures Repeats([v, v]) == [v]
  {
    assert [v, v][..1] == [v];
    assert Repeats([v]) == [] by { assert [v][..0] == []; }
  }

  /** A left join keeps the unmatched row keyed "3" with missing cells; an
      inner join drops it. */
  lemma ExampleJoin()
    ensures JoinRows([[Some("1"), Some("a")], [Some("3"), Some("c")]], 0,
                     [[Some("1"), Some("p")]], 0, [[Some("1"), Some("p")]], 2, LeftJoin)
         == [[Some("1"), Some("a"), Some("1"), Some("p")], [Some("3"), Some("c"), None, None]]
    ensures JoinRows([[Some("1"), Some("a")], [Some("3"), Some("c")]], 0,
                     [[Some("1"), Some("p")]], 0, [[Some("1"), Some("p")]], 2, InnerJoin)
         == [[Some("1"), Some("a"), Some("1"), Some("p")]]
  {
    var right := [[Some("1"), Some("p")]];
    assert FindRow(right, 0, Some("1")) == Some(0);
    assert FindRow(right, 0, Some("3")) == None by { assert right[1..] == []; }
    assert MissingCells(2) == [None, None];
    var left := [[Some("1"), Some("a")], [Some("3"), Some("c")]];
    var out := JoinRows(left, 0, right, 0, right, 2, LeftJoin);
    assert out[0] == left[0] + right[0];
    assert out[1] == left[1] + MissingCells(2);
    assert left[0] + right[0] == [Some("1"), Some("a"), Some("1"), Some("p")];
    assert left[1] + MissingCells(2) == [Some("3"), Some("c"), None, None];
    assert |out| == 2;
    var inner := JoinRows(left, 0, right, 0, right, 2, InnerJoin);
    assert inner == [left[0] + right[0]] + JoinRows(left[1..], 0, right, 0, right, 2, InnerJoin);
    assert JoinRows(left[1..], 0, right, 0, right, 2, InnerJoin) == [] by { assert left[1..][1..] == []; }
  }

  /** After a first merge on a shared "ID", the working table holds "ID" and
      "ID_1". Merging it on "ID_1" with a table keyed "ID" renames that key to
      "ID_1" as well, so the two join labels coincide and the right key
      column is dropped: the merged labels are "ID", "ID_1", "Y". */
  lemma ExampleSharedKey()
    ensures SharedKey(["ID", "ID_1"], "ID_1", "ID")
    ensures KeyLookup(RenameRight(["ID", "ID_1"], ["ID", "Y"], "ID"), "ID_1") == At(0)
    ensures Carry(RenameRight(["ID", "ID_1"], ["ID", "Y"], "ID"), 0, true) == ["Y"]
    ensures Carry([Some("k"), Some("y")], 0, true) == [Some("y")]
  {
    var renamed := RenameRight(["ID", "ID_1"], ["ID", "Y"], "ID");
    assert RenamedLabel(["ID", "ID_1"], "ID", "ID") == "ID_1";
    assert RenamedLabel(["ID", "ID_1"], "ID", "Y") == "Y";
    assert renamed == ["ID_1", "Y"];
    assert renamed[1..] == ["Y"];
  }

  /** A left row and its duplicate both find the right row keyed "1": the
      inner join holds the joined row twice, once per left row. */
  lemma ExampleRepeatedLeftRow()
    ensures JoinRows([[Some("1"), Some("a")], [Some("1"), Some("a")]], 0,
                     [[Some("1"), Some("p")]], 0, [[Some("1"), Some("p")]], 2, InnerJoin)
         == [[Some("1"), Some("a"), Some("1"), Some("p")], [Some("1"), Some("a"), Some("1"), Some("p")]]
  {
    var left, right := [[Some("1"), Some("a")], [Some("1"), Some("a")]], [[Some("1"), Some("p")]];
    assert FindRow(right, 0, Some("1")) == Some(0);
    assert left[1..] == [left[1]] && left[1..][1..] == [];
    assert left[1] + right[0] == [Some("1"), Some("a"), Some("1"), Some("p")];
  }

  /** The third file of a chain keyed on "ID" throughout: the working table
      already holds "ID_1", and the new key is renamed to "ID_1" too. */
  lemma ExampleThirdFile()
    ensures RenameRight(["ID", "X", "ID_1", "Y"], ["ID", "Z"], "ID") == ["ID_1", "Z"]
  {
    var left := ["ID", "X", "ID_1", "Y"];
    assert RenamedLabel(left, "ID", "ID") == "ID_1";
    assert RenamedLabel(left, "ID", "Z") == "Z";
  }

  /** pandas tells the two "ID_1" labels of the third merge apart as
      "ID_1_x" and "ID_1_y". */
  lemma ExampleThirdFileLabels()
    ensures OverlapLabels(["ID", "X", "ID_1", "Y"], ["ID_1", "Z"])
         == Some(["ID", "X", "ID_1_x", "Y", "ID_1_y", "Z"])
  {
    var left := ["ID", "X", "ID_1", "Y"];
    var l := SuffixShared(left, ["ID_1", "Z"], LeftOverlapSuffix);
    var r := SuffixShared(["ID_1", "Z"], left, RightOverlapSuffix);
    assert "ID" !in ["ID_1", "Z"] && "X" !in ["ID_1", "Z"] && "Y" !in ["ID_1", "Z"];
    assert "ID_1" in ["ID_1", "Z"] && "ID_1" in left && "Z" !in left;
    assert "ID_1" + "_x" == "ID_1_x" && "ID_1" + "_y" == "ID_1_y";
    assert l == ["ID", "X", "ID_1_x", "Y"];
    assert r == ["ID_1_y", "Z"];
    assert !CreatesDuplicate(left, l) by {
      forall p | 0 <= p < |l| ensures l[p] !in l[..p] {
        assert forall q :: 0 <= q < p ==> l[..p][q] != l[p];
      }
    }
    assert !CreatesDuplicate(["ID_1", "Z"], r) by {
      forall p | 0 <= p < |r| ensures r[p] !in r[..p] {
        assert forall q :: 0 <= q < p ==> r[..p][q] != r[p];
      }
    }
    assert l + r == ["ID", "X", "ID_1_x", "Y", "ID_1_y", "Z"];
  }

  /** The fifth file of that chain: the working table holds "ID_1_x" from
      the third merge and "ID_1" from the fourth, so suffixing "ID_1" again
      repeats "ID_1_x" and pandas refuses the merge. */
  lemma ExampleFifthFile()
    ensures OverlapLabels(["ID", "X", "ID_1_x", "Y", "ID_1_y", "Z", "ID_1", "W"], ["ID_1", "V"]) == None
  {
    var left := ["ID", "X", "ID_1_x", "Y", "ID_1_y", "Z", "ID_1", "W"];
    var l := SuffixShared(left, ["ID_1", "V"], LeftOverlapSuffix);
    assert l[6] == "ID_1_x" && l[2] == left[2];
    assert l[6] in l[..6] by { assert l[..6][2] == "ID_1_x"; }
    assert left[6] !in left[..6];
    assert CreatesDuplicate(left, l);
  }
}
