/** Values the abstract VCS test suite inspects: commits (by revision) and
    diff entries (by file path). */
module VcsTypes {

  /** Stands for a Java reference that may be null. */
  datatype Option<T> = None | Some(value: T)

  /** A commit as the test helpers see it: only its revision id matters. */
  datatype Commit = Commit(revision: string)

  datatype ChangeType = Add | Modify | Delete

  /** One changed path between two comparison points. */
  datatype DiffEntry = DiffEntry(filePath: string, changeType: ChangeType, unifiedDiff: string)

  /** The revision ids of a commit list, in list order. */
  function Revisions(commits: seq<Commit>): (revs: seq<string>)
    ensures |revs| == |commits|
    ensures forall j :: 0 <= j < |commits| ==> revs[j] == commits[j].revision
  {
    seq(|commits|, j requires 0 <= j < |commits| => commits[j].revision)
  }
}
