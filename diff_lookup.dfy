/** Lookup of the diff entry for one path, as the abstract VCS test suite
    uses it to inspect the result of a branches-diff query. */
module DiffLookup {
  import opened VcsTypes

  /** The entry with the given path that comes first, or None (Java null)
      when no entry has that path. */
  method GetEntryDiffForFile(entries: seq<DiffEntry>, filePath: string) returns (r: Option<DiffEntry>)
    ensures r.None? <==> forall j :: 0 <= j < |entries| ==> entries[j].filePath != filePath
    ensures r.Some? ==> exists i :: 0 <= i < |entries| && entries[i] == r.value &&
                          r.value.filePath == filePath &&
                          forall j :: 0 <= j < i ==> entries[j].filePath != filePath
  {
    for i := 0 to |entries|
      invariant forall j :: 0 <= j < i ==> entries[j].filePath != filePath
    {
      if entries[i].filePath == filePath {
        return Some(entries[i]);
      }
    }
    return None;
  }
}
