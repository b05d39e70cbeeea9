/** The state the app keeps between reruns: the loaded tables by file name,
    the chosen sheet per file, the running merged table, the files already
    merged into it and the number of the next step. */
module Workflow {
  import opened Wrappers
  import opened Tables
  import opened Cleaning
  import opened MergeEngine

  class MergeSession {
    /** `file_data`: `null` stands for the `None` a file holds between being
        registered and being loaded. */
    var fileData: map<string, Frame?>
    /** `sheet_selections` */
    var sheetSelections: map<string, Option<string>>
    /** `merged_df`: `null` until the first merge goes through. */
    var mergedDf: Frame?
    /** `used_files` */
    var usedFiles: set<string>
    /** `step_number` */
    var stepNumber: int

    /** The session's bookkeeping is consistent. */
    predicate Valid()
      reads this
    {
      Consistent(fileData, sheetSelections, mergedDf, usedFiles, stepNumber)
    }

    /** The session as first initialised: no files, no selections, nothing
        merged, no used files, step one. */
    constructor ()
      ensures Valid()
      ensures fileData == map[] && sheetSelections == map[]
      ensures mergedDf == null && usedFiles == {} && stepNumber == 1
    {
      fileData := map[];
      sheetSelections := map[];
      mergedDf := null;
      usedFiles := {};
      stepNumber := 1;
    }

    /** `reset_session`: every key back to its initial value. */
    method Reset()
      modifies this
      ensures Valid()
      ensures fileData == map[] && sheetSelections == map[]
      ensures mergedDf == null && usedFiles == {} && stepNumber == 1
    {
      fileData := map[];
      sheetSelections := map[];
      mergedDf := null;
      usedFiles := {};
      stepNumber := 1;
    }

    /** Forgets every file that is no longer uploaded: its table, its sheet
        selection and its place among the used files. The merged table and
        the step number are kept. */
    method Prune(uploaded: set<string>)
      requires Valid()
      modifies this
      ensures Valid()
      ensures forall f :: f in fileData <==> f in old(fileData) && f in uploaded
      ensures forall f :: f in fileData ==> fileData[f] == old(fileData)[f]
      ensures forall f :: f in sheetSelections ==> sheetSelections[f] == old(sheetSelections)[f]
      ensures forall f :: f in usedFiles <==> f in old(usedFiles) && f in uploaded
      ensures mergedDf == old(mergedDf) && stepNumber == old(stepNumber)
    {
      var data, selections, used := fileData, sheetSelections, usedFiles;
      var removed := data.Keys - uploaded;
      while removed != {}
        invariant forall f :: f in data <==> f in fileData && (f in uploaded || f in removed)
        invariant forall f :: f in data ==> data[f] == fileData[f]
        invariant selections.Keys == data.Keys
        invariant forall f :: f in selections ==> selections[f] == sheetSelections[f]
        invariant used <= usedFiles
        invariant forall f :: f in used <==> f in usedFiles && (f in uploaded || f in removed)
        decreases removed
      {
        var f :| f in removed;
        data := data - {f};
        selections := selections - {f};
        used := used - {f};
        removed := removed - {f};
      }
      PruneKeepsConsistent(fileData, sheetSelections, mergedDf, usedFiles, stepNumber, data, selections, used);
      fileData, sheetSelections, usedFiles := data, selections, used;
    }

    /** The upload list changed: an empty list resets the session, any
        other forgets the files no longer in it. */
    method SyncUploads(uploaded: set<string>)
      requires Valid()
      modifies this
      ensures Valid()
      ensures uploaded == {} ==> fileData == map[] && mergedDf == null && usedFiles == {} && stepNumber == 1
      ensures uploaded != {} ==> && (forall f :: f in fileData <==> f in old(fileData) && f in uploaded)
                                 && (forall f :: f in fileData ==> fileData[f] == old(fileData)[f])
                                 && (forall f :: f in sheetSelections ==> sheetSelections[f] == old(sheetSelections)[f])
                                 && (forall f :: f in usedFiles <==> f in old(usedFiles) && f in uploaded)
                                 && mergedDf == old(mergedDf) && stepNumber == old(stepNumber)
    {
      if uploaded == {} {
        Reset();
      } else {
        Prune(uploaded);
      }
    }

    /** A file seen for the first time is registered with no table and no
        sheet selection; a known file is left as it is. This is all that
        happens to a workbook whose sheet list cannot be read. */
    method Track(name: string)
      requires Valid()
      modifies this
      ensures Valid()
      ensures name in old(fileData) ==> fileData == old(fileData) && sheetSelections == old(sheetSelections)
      ensures name !in old(fileData) ==>
                fileData == old(fileData)[name := null] && sheetSelections == old(sheetSelections)[name := None]
      ensures mergedDf == old(mergedDf) && usedFiles == old(usedFiles) && stepNumber == old(stepNumber)
    {
      if name !in fileData {
        TrackKeepsConsistent(fileData, sheetSelections, mergedDf, usedFiles, stepNumber, name);
        fileData := fileData[name := null];
        sheetSelections := sheetSelections[name := None];
      }
    }

    /** One uploaded file on one rerun: it is tracked, a chosen sheet is
        recorded, and the table loaded for the requested sheet, once
        cleaned, replaces whatever the file held. `loaded` is what the
        loader returned (`None` when loading failed); `requested` is the
        sheet asked for: the one just chosen, else the remembered one. */
    method Ingest(name: string, sheet: Option<string>, loaded: Option<Table>) returns (requested: Option<string>)
      requires Valid()
      requires loaded.Some? ==> WellFormed(loaded.value)
      modifies this
      ensures Valid()
      ensures requested == if sheet.Some? then sheet
                           else if name in old(sheetSelections) then old(sheetSelections)[name]
                           else None
      ensures sheetSelections == old(sheetSelections)[name := requested]
      ensures fileData.Keys == old(fileData).Keys + {name}
      ensures fileData[name] != null && fresh(fileData[name]) && fileData[name].View() == CleanData(loaded)
      ensures forall f :: f in old(fileData) && f != name ==> fileData[f] == old(fileData)[f]
      ensures mergedDf == old(mergedDf) && usedFiles == old(usedFiles) && stepNumber == old(stepNumber)
    {
      Track(name);
      requested := if sheet.Some? then sheet else sheetSelections[name];
      Store(name, requested, CleanData(loaded));
    }

    /** A known file gets a new table holding `table`, and `sheet` as its
        sheet selection. */
    method Store(name: string, sheet: Option<string>, table: Rectangular)
      requires Valid() && name in fileData
      modifies this
      ensures Valid()
      ensures sheetSelections == old(sheetSelections)[name := sheet]
      ensures fileData.Keys == old(fileData).Keys
      ensures fileData[name] != null && fresh(fileData[name]) && fileData[name].View() == table
      ensures forall f :: f in old(fileData) && f != name ==> fileData[f] == old(fileData)[f]
      ensures mergedDf == old(mergedDf) && usedFiles == old(usedFiles) && stepNumber == old(stepNumber)
    {
      var frame := new Frame(table);
      forall f | f in fileData
        ensures fileData[f] != frame
      {
        assert old(allocated(fileData[f]));
      }
      StoreKeepsConsistent(fileData, sheetSelections, mergedDf, usedFiles, stepNumber, name, frame, sheet);
      sheetSelections := sheetSelections[name := sheet];
      fileData := fileData[name := frame];
    }

    /** "Merge Initial Files": merges `file2` into `file1`. The key
        columns of both tables are normalised in place whatever the
        outcome; on success the result becomes the merged table, exactly the
        two files count as used and the step is two, whatever came before;
        on failure nothing else changes. */
    method InitialMerge(file1: string, file2: string, key1: string, key2: string, mode: JoinMode)
      returns (outcome: MergeOutcome)
      requires Valid()
      requires file1 != file2 && file1 in fileData && file2 in fileData
      requires fileData[file1] != null && fileData[file2] != null
      modifies this, fileData[file1], fileData[file2]
      ensures Valid()
      ensures outcome == Merge(old(fileData[file1].View()), old(fileData[file2].View()), key1, key2, mode)
      ensures fileData == old(fileData) && sheetSelections == old(sheetSelections)
      ensures fileData[file1].View() == KeyNormalized(old(fileData[file1].View()), key1)
      ensures fileData[file2].View() == if KeyLookup(old(fileData[file1].View()).columns, key1).At?
                                        then KeyNormalized(old(fileData[file2].View()), key2)
                                        else old(fileData[file2].View())
      ensures outcome.Merged? ==> && mergedDf != null && fresh(mergedDf) && mergedDf.View() == outcome.table
                                  && usedFiles == {file1, file2} && stepNumber == 2
      ensures outcome.Failed? ==> mergedDf == old(mergedDf) && usedFiles == old(usedFiles) && stepNumber == old(stepNumber)
    {
      var base, other := fileData[file1], fileData[file2];
      outcome := MergeDatasets(base, other, key1, key2, mode);
      assert |{file1, file2}| == 2;
      Record(outcome, {file1, file2}, 2);
    }

    /** "Merge <file>": merges a file not used yet into the merged table.
        The merged table's key column and the file's key column are
        normalised in place whatever the outcome; on success the result
        replaces the merged table, the file becomes used and the step
        advances by one; on failure nothing else changes. */
    method AddFile(file: string, keyMerged: string, keyFile: string, mode: JoinMode)
      returns (outcome: MergeOutcome)
      requires Valid()
      requires mergedDf != null
      requires file in fileData && file !in usedFiles && fileData[file] != null
      modifies this, mergedDf, fileData[file]
      ensures Valid()
      ensures outcome == Merge(old(mergedDf.View()), old(fileData[file].View()), keyMerged, keyFile, mode)
      ensures fileData == old(fileData) && sheetSelections == old(sheetSelections)
      ensures old(mergedDf).View() == KeyNormalized(old(mergedDf.View()), keyMerged)
      ensures fileData[file].View() == if KeyLookup(old(mergedDf.View()).columns, keyMerged).At?
                                       then KeyNormalized(old(fileData[file].View()), keyFile)
                                       else old(fileData[file].View())
      ensures outcome.Merged? ==> && mergedDf != null && fresh(mergedDf) && mergedDf.View() == outcome.table
                                  && usedFiles == old(usedFiles) + {file} && stepNumber == old(stepNumber) + 1
      ensures outcome.Failed? ==> mergedDf == old(mergedDf) && usedFiles == old(usedFiles) && stepNumber == old(stepNumber)
    {
      var base, other := mergedDf, fileData[file];
      outcome := MergeDatasets(base, other, keyMerged, keyFile, mode);
      assert |usedFiles + {file}| == |usedFiles| + 1;
      Record(outcome, usedFiles + {file}, stepNumber + 1);
    }

    /** Records the outcome of a merge. When it went through, a new table
        holding the result becomes the merged table, `used` the used files
        and `step` the step number; when it failed nothing changes. */
    method Record(outcome: MergeOutcome, used: set<string>, step: int)
      requires Valid()
      requires outcome.Merged? ==> WellFormed(outcome.table) && step >= 2 && |used| <= step && used <= fileData.Keys
      modifies this
      ensures Valid()
      ensures outcome.Merged? ==> && mergedDf != null && fresh(mergedDf) && mergedDf.View() == outcome.table
                                  && usedFiles == used && stepNumber == step
      ensures outcome.Failed? ==> mergedDf == old(mergedDf) && usedFiles == old(usedFiles) && stepNumber == old(stepNumber)
      ensures fileData == old(fileData) && sheetSelections == old(sheetSelections)
    {
      if outcome.Failed? {
        return;
      }
      var merged := new Frame(outcome.table);
      forall f | f in fileData
        ensures fileData[f] != merged
      {
        assert old(allocated(fileData[f]));
      }
      CommitKeepsConsistent(fileData, sheetSelections, mergedDf, usedFiles, stepNumber, merged, used, step);
      mergedDf, usedFiles, stepNumber := merged, used, step;
    }
  }

  /** The invariant every step keeps: the step counter is at least one;
      while nothing is merged no file is used and the step is one; once
      something is merged the step is at least two; there are never more
      used files than the step number; used files and sheet selections
      belong to known files; and no two names, nor the merged table, share
      a table. */
  predicate Consistent(files: map<string, Frame?>, sheets: map<string, Option<string>>,
                       merged: Frame?, used: set<string>, step: int)
  {
    && step >= 1
    && (merged == null ==> used == {} && step == 1)
    && (merged != null ==> step >= 2)
    && |used| <= step
    && used <= files.Keys
    && sheets.Keys == files.Keys
    && (forall f, g :: f in files && g in files && f != g && files[f] != null ==> files[f] != files[g])
    && (forall f :: f in files && merged != null ==> files[f] != merged)
  }

  /** Registering a new file with no table keeps the invariant. */
  lemma TrackKeepsConsistent(files: map<string, Frame?>, sheets: map<string, Option<string>>,
                             merged: Frame?, used: set<string>, step: int, name: string)
    requires Consistent(files, sheets, merged, used, step) && name !in files
    ensures Consistent(files[name := null], sheets[name := None], merged, used, step)
  {
  }

  /** Storing a table no other name holds, and that is not the merged table,
      keeps the invariant. */
  lemma StoreKeepsConsistent(files: map<string, Frame?>, sheets: map<string, Option<string>>,
                             merged: Frame?, used: set<string>, step: int,
                             name: string, frame: Frame, sheet: Option<string>)
    requires Consistent(files, sheets, merged, used, step) && name in files
    requires frame != merged && forall f :: f in files ==> files[f] != frame
    ensures Consistent(files[name := frame], sheets[name := sheet], merged, used, step)
  {
  }

  /** Dropping files, with their selections and their places among the used
      files, keeps the invariant; the merged table and the step are kept. */
  lemma PruneKeepsConsistent(files: map<string, Frame?>, sheets: map<string, Option<string>>,
                             merged: Frame?, used: set<string>, step: int,
                             files': map<string, Frame?>, sheets': map<string, Option<string>>, used': set<string>)
    requires Consistent(files, sheets, merged, used, step)
    requires forall f :: f in files' ==> f in files && files'[f] == files[f]
    requires sheets'.Keys == files'.Keys
    requires used' <= used && used' <= files'.Keys
    ensures Consistent(files', sheets', merged, used', step)
  {
    SubsetSmaller(used', used);
  }

  /** Committing a merge keeps the invariant, whatever was merged before,
      as long as the new merged table is held by no file, the step is at
      least two, there are no more used files than the step number, and
      every used file is known. */
  lemma CommitKeepsConsistent(files: map<string, Frame?>, sheets: map<string, Option<string>>,
                              merged: Frame?, used: set<string>, step: int,
                              result: Frame, used': set<string>, step': int)
    requires Consistent(files, sheets, merged, used, step)
    requires forall f :: f in files ==> files[f] != result
    requires step' >= 2 && |used'| <= step' && used' <= files.Keys
    ensures Consistent(files, sheets, result, used', step')
  {
  }

  /** A subset is never larger than its superset. */
  lemma SubsetSmaller(a: set<string>, b: set<string>)
    requires a <= b
    ensures |a| <= |b|
  {
    assert b == a + (b - a);
  }
}
