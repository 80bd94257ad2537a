/** The three commit-list checks the abstract VCS test suite uses to judge
    commit-range queries: containment of every id, a contiguous run of ids
    anchored at the first occurrence of the first id, and the misleadingly
    named "consists of" check, which is containment again.

    Each check is a method with the source's loops, proved against a
    specification function over the revision ids of the commits. */
module CommitChecks {
  import opened VcsTypes

  // ---------------------------------------------------------------------
  // Specification

  /** Index of the first occurrence of `x` in `revs`, or `|revs|` if absent. */
  function FirstIndexOf(revs: seq<string>, x: string): (i: nat)
    ensures i <= |revs|
    ensures i < |revs| ==> revs[i] == x
  {
    if |revs| == 0 then 0
    else if revs[0] == x then 0
    else 1 + FirstIndexOf(revs[1..], x)
  }

  /** Some commit of the list has revision `id`. */
  predicate HasRevision(commits: seq<Commit>, id: string)
  {
    exists j :: 0 <= j < |commits| && commits[j].revision == id
  }

  /** Every requested id is one of the revisions; both lists are non-empty. */
  predicate ContainsAllIds(revs: seq<string>, ids: seq<string>)
  {
    |revs| > 0 && |ids| > 0 && forall k :: 0 <= k < |ids| ==> ids[k] in revs
  }

  /** `ids` occurs as a contiguous run of `revs` starting at index `i`. */
  predicate RunAt(revs: seq<string>, ids: seq<string>, i: nat)
  {
    i + |ids| <= |revs| && forall t :: 0 <= t < |ids| ==> revs[i + t] == ids[t]
  }

  /** `i` is the first index at which `x` occurs in `revs`. */
  predicate IsFirstOccurrence(revs: seq<string>, x: string, i: nat)
  {
    i < |revs| && revs[i] == x && forall j :: 0 <= j < i ==> revs[j] != x
  }

  /** The ids form a contiguous run that starts exactly at the first
      revision equal to `ids[0]`; a later run does not count. */
  predicate ContainsRunFromFirst(revs: seq<string>, ids: seq<string>)
  {
    |revs| > 0 && |ids| > 0 && RunAt(revs, ids, FirstIndexOf(revs, ids[0]))
  }

  /** The first `n` ids match the revisions from index `start` on. */
  predicate MatchedPrefix(revs: seq<string>, ids: seq<string>, start: nat, n: nat)
  {
    n <= |ids| && start + n <= |revs| && forall t :: 0 <= t < n ==> revs[start + t] == ids[t]
  }

  /** How many of `ids` (duplicates counted separately) occur among `revs`. */
  function FoundCount(revs: seq<string>, ids: seq<string>): (n: nat)
    ensures n <= |ids|
  {
    if |ids| == 0 then 0
    else FoundCount(revs, ids[..|ids| - 1]) + (if ids[|ids| - 1] in revs then 1 else 0)
  }

  // ---------------------------------------------------------------------
  // Properties of the specification

  /** No revision before `FirstIndexOf` is `x`, and it is `|revs|` exactly
      when `x` does not occur. */
  lemma {:induction false} FirstIndexOfIsFirst(revs: seq<string>, x: string)
    ensures forall j :: 0 <= j < FirstIndexOf(revs, x) ==> revs[j] != x
    ensures FirstIndexOf(revs, x) == |revs| <==> x !in revs
  {
    if |revs| > 0 && revs[0] != x {
      FirstIndexOfIsFirst(revs[1..], x);
      assert revs == [revs[0]] + revs[1..];
    }
  }

  /** An index holding `x` with no earlier `x` is the first occurrence. */
  lemma FirstIndexAt(revs: seq<string>, x: string, k: nat)
    requires k < |revs| && revs[k] == x
    requires forall j :: 0 <= j < k ==> revs[j] != x
    ensures FirstIndexOf(revs, x) == k
  {
    FirstIndexOfIsFirst(revs, x);
  }

  /** The found-count reaches the number of ids exactly when every id is found. */
  lemma {:induction false} FoundCountFull(revs: seq<string>, ids: seq<string>)
    ensures FoundCount(revs, ids) == |ids| <==> forall k :: 0 <= k < |ids| ==> ids[k] in revs
  {
    if |ids| > 0 {
      var init := ids[..|ids| - 1];
      FoundCountFull(revs, init);
      assert forall k :: 0 <= k < |init| ==> init[k] == ids[k];
    }
  }

  /** The anchored-run check, stated with an explicit starting index: some
      index is both the first occurrence of `ids[0]` and the start of a run. */
  lemma RunFromFirstWitness(revs: seq<string>, ids: seq<string>)
    ensures ContainsRunFromFirst(revs, ids) <==>
              |ids| > 0 && exists i: nat :: IsFirstOccurrence(revs, ids[0], i) && RunAt(revs, ids, i)
  {
    if |ids| > 0 {
      var f := FirstIndexOf(revs, ids[0]);
      FirstIndexOfIsFirst(revs, ids[0]);
      if ContainsRunFromFirst(revs, ids) {
        assert revs[f + 0] == ids[0];
        assert IsFirstOccurrence(revs, ids[0], f);
      }
      forall i: nat | IsFirstOccurrence(revs, ids[0], i) && RunAt(revs, ids, i)
        ensures ContainsRunFromFirst(revs, ids)
      {
        assert i == f;
      }
    }
  }

  /** No restart: once the run starting at the first occurrence of `ids[0]`
      meets a revision other than the next expected id, the check fails,
      whatever runs appear later. */
  lemma NoRestartAfterMismatch(revs: seq<string>, ids: seq<string>, f: nat, m: nat)
    requires 0 < m < |ids|
    requires IsFirstOccurrence(revs, ids[0], f)
    requires f + m < |revs| && revs[f + m] != ids[m]
    ensures !ContainsRunFromFirst(revs, ids)
  {
    FirstIndexAt(revs, ids[0], f);
  }

  /** The example the anchoring produces: `[a, a, b]` holds the run `[a, b]`
      at index 1, yet the check rejects it, because matching is anchored at
      index 0 and does not restart. */
  lemma NoRestartExample(a: string, b: string)
    requires a != b
    ensures RunAt([a, a, b], [a, b], 1)
    ensures !ContainsRunFromFirst([a, a, b], [a, b])
  {
    NoRestartAfterMismatch([a, a, b], [a, b], 0, 1);
  }

  /** A run found by the anchored check consists of revisions, so every id is
      contained. */
  lemma RunImpliesContainsAll(revs: seq<string>, ids: seq<string>)
    requires ContainsRunFromFirst(revs, ids)
    ensures ContainsAllIds(revs, ids)
  {
    var f := FirstIndexOf(revs, ids[0]);
    forall k | 0 <= k < |ids| ensures ids[k] in revs {
      assert ids[k] == revs[f + k];
    }
  }

  /** With a single id both checks agree: the id occurs among the revisions. */
  lemma SingleIdChecksAgree(revs: seq<string>, x: string)
    ensures ContainsRunFromFirst(revs, [x]) <==> x in revs
    ensures ContainsAllIds(revs, [x]) <==> x in revs
  {
    var f := FirstIndexOf(revs, x);
    FirstIndexOfIsFirst(revs, x);
    if x in revs {
      assert revs[f + 0] == [x][0];
    }
  }

  // Steps of the scan in CommitsContainsSequenceOfIds

  /** A matched prefix grows by one revision equal to the next expected id. */
  lemma ExtendMatch(revs: seq<string>, ids: seq<string>, start: nat, n: nat)
    requires n < |ids| && start + n < |revs| && revs[start + n] == ids[n]
    requires n == 0 || MatchedPrefix(revs, ids, start, n)
    ensures MatchedPrefix(revs, ids, start, n + 1)
  {
  }

  /** A prefix matched in full from the first occurrence of `ids[0]` is the run. */
  lemma MatchComplete(revs: seq<string>, ids: seq<string>, start: nat)
    requires |ids| > 0 && IsFirstOccurrence(revs, ids[0], start)
    requires MatchedPrefix(revs, ids, start, |ids|)
    ensures ContainsRunFromFirst(revs, ids)
  {
    FirstIndexAt(revs, ids[0], start);
  }

  /** A partial match that reaches the end of the revisions is no run. */
  lemma MatchCutShort(revs: seq<string>, ids: seq<string>, n: nat)
    requires 0 < n < |ids| && n <= |revs|
    requires IsFirstOccurrence(revs, ids[0], |revs| - n)
    ensures !ContainsRunFromFirst(revs, ids)
  {
    FirstIndexAt(revs, ids[0], |revs| - n);
  }

  /** Without any revision equal to `ids[0]` there is no run. */
  lemma FirstIdAbsent(revs: seq<string>, ids: seq<string>)
    requires |ids| > 0
    requires forall j :: 0 <= j < |revs| ==> revs[j] != ids[0]
    ensures !ContainsRunFromFirst(revs, ids)
  {
    FirstIndexOfIsFirst(revs, ids[0]);
  }

  /** Containment over the revision ids is containment over the commits. */
  lemma ContainsAllIdsOfCommits(commits: seq<Commit>, ids: seq<string>)
    ensures ContainsAllIds(Revisions(commits), ids) <==>
              |commits| > 0 && |ids| > 0 &&
              forall k :: 0 <= k < |ids| ==> HasRevision(commits, ids[k])
  {
    var revs := Revisions(commits);
    forall k | 0 <= k < |ids|
      ensures ids[k] in revs <==> HasRevision(commits, ids[k])
    {
      if ids[k] in revs {
        var j :| 0 <= j < |revs| && revs[j] == ids[k];
        assert commits[j].revision == ids[k];
      }
      if HasRevision(commits, ids[k]) {
        var j :| 0 <= j < |commits| && commits[j].revision == ids[k];
        assert revs[j] == ids[k];
      }
    }
  }

  // ---------------------------------------------------------------------
  // The checks as the test suite runs them

  /** True iff both lists are non-empty and every id is the revision of some
      commit. Each id adds at most one to `count`, so duplicate ids and extra
      commits do not matter. */
  method CommitsContainsIds(commits: seq<Commit>, ids: seq<string>) returns (r: bool)
    ensures r == ContainsAllIds(Revisions(commits), ids)
    ensures r <==> |commits| > 0 && |ids| > 0 &&
                   forall k :: 0 <= k < |ids| ==> HasRevision(commits, ids[k])
  {
    ghost var revs := Revisions(commits);
    ContainsAllIdsOfCommits(commits, ids);
    if |commits| == 0 || |ids| == 0 {
      return false;
    }
    var count := 0;
    var k := 0;
    while k < |ids|
      invariant 0 <= k <= |ids|
      invariant count == FoundCount(revs, ids[..k])
    {
      var id := ids[k];
      ghost var before := count;
      var j := 0;
      while j < |commits|
        invariant 0 <= j <= |commits|
        invariant count == before
        invariant forall i :: 0 <= i < j ==> revs[i] != id
      {
        if commits[j].revision == id {
          count := count + 1;
          break;
        }
        j := j + 1;
      }
      assert ids[..k + 1][..k] == ids[..k];
      assert (id in revs) == (count == before + 1);
      k := k + 1;
    }
    assert ids[..k] == ids;
    FoundCountFull(revs, ids);
    r := count == |ids|;
  }

  /** Despite its name this is a containment check: it returns false as soon
      as some id matches no commit, and true otherwise; extra commits are
      ignored. It agrees with `CommitsContainsIds` on every input. */
  method CommitsConsistsOfIds(commits: seq<Commit>, ids: seq<string>) returns (r: bool)
    ensures r == ContainsAllIds(Revisions(commits), ids)
    ensures r <==> |commits| > 0 && |ids| > 0 &&
                   forall k :: 0 <= k < |ids| ==> HasRevision(commits, ids[k])
  {
    ghost var revs := Revisions(commits);
    ContainsAllIdsOfCommits(commits, ids);
    if |commits| == 0 || |ids| == 0 {
      return false;
    }
    var count := 0;
    var k := 0;
    while k < |ids|
      invariant 0 <= k <= |ids|
      invariant count == k
      invariant forall i :: 0 <= i < k ==> ids[i] in revs
    {
      var id := ids[k];
      var found := false;
      var j := 0;
      while j < |commits|
        invariant 0 <= j <= |commits|
        invariant count == k && !found
        invariant forall i :: 0 <= i < j ==> revs[i] != id
      {
        if commits[j].revision == id {
          count := count + 1;
          found := true;
          break;
        }
        j := j + 1;
      }
      if !found {
        assert id !in revs;
        return false;
      }
      k := k + 1;
    }
    r := count == |ids|;
  }

  /** True iff the ids appear as one contiguous run of commits that starts at
      the first commit whose revision is `ids[0]`. A mismatch after a partial
      match fails at once; matching never restarts. `idIndex` stays below
      `|ids|` whenever `ids[idIndex]` is read. */
  method CommitsContainsSequenceOfIds(commits: seq<Commit>, ids: seq<string>) returns (r: bool)
    ensures r == ContainsRunFromFirst(Revisions(commits), ids)
  {
    ghost var revs := Revisions(commits);
    if |commits| == 0 || |ids| == 0 {
      return false;
    }
    var idIndex := 0;
    for k := 0 to |commits|
      invariant 0 <= idIndex < |ids|
      invariant idIndex == 0 ==> forall j :: 0 <= j < k ==> revs[j] != ids[0]
      invariant idIndex > 0 ==>
                  idIndex <= k && IsFirstOccurrence(revs, ids[0], k - idIndex) &&
                  MatchedPrefix(revs, ids, k - idIndex, idIndex)
    {
      if commits[k].revision == ids[idIndex] {
        ExtendMatch(revs, ids, k - idIndex, idIndex);
        idIndex := idIndex + 1;
      } else if idIndex != 0 {
        NoRestartAfterMismatch(revs, ids, k - idIndex, idIndex);
        return false;
      }
      if idIndex >= |ids| {
        MatchComplete(revs, ids, k + 1 - idIndex);
        return true;
      }
    }
    if idIndex == 0 {
      FirstIdAbsent(revs, ids);
    } else {
      MatchCutShort(revs, ids, idIndex);
    }
    return false;
  }
}
