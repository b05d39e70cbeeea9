/** Naming of the downloaded file. */
module Export {
  import opened Wrappers

  const CsvSuffix := ".csv"

  predicate EndsWith(s: string, suffix: string)
  {
    |suffix| <= |s| && s[|s| - |suffix|..] == suffix
  }

  /** The name the merged table is offered under: an empty name offers no
      download; a name ending in ".csv" is kept; any other gets ".csv"
      appended. */
  function OutputFileName(name: string): (r: Option<string>)
    ensures r.None? <==> name == ""
    ensures r.Some? ==> EndsWith(r.value, CsvSuffix) && name <= r.value
    ensures r.Some? ==> r.value == name || r.value == name + CsvSuffix
    ensures r.Some? && EndsWith(name, CsvSuffix) ==> r.value == name
  {
    if name == "" then None
    else if EndsWith(name, CsvSuffix) then Some(name)
    else Some(name + CsvSuffix)
  }

  /** Naming a file that was already named changes nothing. */
  lemma OutputFileNameIdempotent(name: string)
    requires name != ""
    ensures OutputFileName(OutputFileName(name).value) == OutputFileName(name)
  {
  }
}
