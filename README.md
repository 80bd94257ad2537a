# scm4j VCS abstract test suite: commit and diff checks

The scm4j VCS API ships an abstract JUnit suite, `VCSAbstractTest`, that every
backend (Git, SVN, ...) runs against its own repository. The suite judges the
results of commit-range and branches-diff queries with four private helpers.
Those helpers are the only self-contained logic in the suite, and this project
models them:

- `commitsContainsIds`: every requested revision id is the revision of some
  commit in a list.
- `commitsContainsSequenceOfIds`: the ids occur as one contiguous run of the
  commit list. The run must start at the first commit whose revision is the
  first id. A mismatch after a partial match fails at once, and matching never
  restarts, so `[a, a, b]` does not hold `[a, b]`.
- `commitsConsistsOfIds`: despite its name, a containment check again. It
  returns false as soon as some id matches no commit and ignores extra
  commits. It is proved equal to `commitsContainsIds` on every input.
- `getEntryDiffForFile`: the first diff entry with a given path, or null.

Each helper is a method with the source's loops, early returns and counters
(`count`, `found`, `idIndex`). It is proved against a specification predicate
over the revision ids of the commits (`ContainsAllIds`, `ContainsRunFromFirst`)
or against a direct characterisation of its result. Lemmas then state what
those specifications mean: the count reaches the number of ids exactly when
all are found, the anchored run has an explicit first-occurrence witness, a
mismatch after a partial match rules the run out, a run implies containment,
and with one id both checks agree.

Files:

- `vcs_types.dfy` (module `VcsTypes`): `Commit` (only its revision),
  `DiffEntry`, `ChangeType`, `Option` for Java's nullable references, and
  `Revisions`, the revision ids of a commit list.
- `commit_checks.dfy` (module `CommitChecks`): the three commit checks, their
  specification and the lemmas about it.
- `diff_lookup.dfy` (module `DiffLookup`): the diff-entry lookup.

Java lists and varargs arrays are read-only here, so they are modelled as
`seq`; Java `Boolean` results are `bool`; a `null` result is `None`.

## Model

| member | source | states |
|---|---|---|
| `CommitChecks.CommitsContainsIds` | src/main/java/org/scm4j/vcs/api/abstracttest/VCSAbstractTest.java:518-532 | True iff both lists are non-empty and every id is the revision of some commit; duplicate ids and extra commits do not matter; equal to `ContainsAllIds` over the revisions |
| `CommitChecks.CommitsConsistsOfIds` | src/main/java/org/scm4j/vcs/api/abstracttest/VCSAbstractTest.java:552-572 | Same result as `CommitsContainsIds` on every input: false on an empty list or as soon as an id matches no commit, true otherwise, extra commits ignored |
| `CommitChecks.CommitsContainsSequenceOfIds` | src/main/java/org/scm4j/vcs/api/abstracttest/VCSAbstractTest.java:534-550 | True iff both lists are non-empty and the ids are the revisions at the first index holding `ids[0]` and the indices after it, in order; `ids[idIndex]` is read only while `idIndex < |ids|` |
| `DiffLookup.GetEntryDiffForFile` | src/main/java/org/scm4j/vcs/api/abstracttest/VCSAbstractTest.java:306-313 | None iff no entry has the path; otherwise the entry at the smallest index whose path equals the argument |
| `CommitChecks.FoundCount` | src/main/java/org/scm4j/vcs/api/abstracttest/VCSAbstractTest.java:522-530 | The found-count never exceeds the number of ids, since each id adds at most one |
| `CommitChecks.FoundCountFull` | src/main/java/org/scm4j/vcs/api/abstracttest/VCSAbstractTest.java:522-531 | The found-count equals the number of ids exactly when every id occurs among the revisions |
| `CommitChecks.ContainsAllIdsOfCommits` | src/main/java/org/scm4j/vcs/api/abstracttest/VCSAbstractTest.java:519-531 | Containment over the revision ids is equivalent to containment over the commits (some commit has each id as its revision), including the empty-input cases |
| `CommitChecks.FirstIndexOfIsFirst` | src/main/java/org/scm4j/vcs/api/abstracttest/VCSAbstractTest.java:538-542 | No revision before the anchor equals the first id, and the anchor is past the end exactly when the first id does not occur |
| `CommitChecks.FirstIndexAt` | src/main/java/org/scm4j/vcs/api/abstracttest/VCSAbstractTest.java:540-541 | The first commit equal to `ids[0]` after a run of non-matching commits is the anchor of the run |
| `CommitChecks.RunFromFirstWitness` | src/main/java/org/scm4j/vcs/api/abstracttest/VCSAbstractTest.java:538-549 | The anchored-run check holds iff some index is both the first occurrence of `ids[0]` and the start of a run equal to `ids` (both directions) |
| `CommitChecks.NoRestartAfterMismatch` | src/main/java/org/scm4j/vcs/api/abstracttest/VCSAbstractTest.java:540-544 | After a partial match from the anchor, a revision that differs from the next expected id makes the check false, whatever runs occur later |
| `CommitChecks.NoRestartExample` | src/main/java/org/scm4j/vcs/api/abstracttest/VCSAbstractTest.java:538-549 | For `a != b`, `[a, a, b]` holds `[a, b]` at index 1, yet the anchored check rejects it |
| `CommitChecks.RunImpliesContainsAll` | src/main/java/org/scm4j/vcs/api/abstracttest/VCSAbstractTest.java:534-550 | Whenever the sequence check holds, the containment check holds for the same ids |
| `CommitChecks.SingleIdChecksAgree` | src/main/java/org/scm4j/vcs/api/abstracttest/VCSAbstractTest.java:534-550 | With a single id, the sequence check and the containment check both hold exactly when the id occurs among the revisions |
| `CommitChecks.MatchComplete` | src/main/java/org/scm4j/vcs/api/abstracttest/VCSAbstractTest.java:545-547 | When `idIndex` reaches the number of ids, the run from the anchor is complete and the check is true |
| `CommitChecks.MatchCutShort` | src/main/java/org/scm4j/vcs/api/abstracttest/VCSAbstractTest.java:548-549 | A partial match that runs out of commits is no run, so the final `return false` is right |
| `CommitChecks.FirstIdAbsent` | src/main/java/org/scm4j/vcs/api/abstracttest/VCSAbstractTest.java:539-549 | If no commit equals `ids[0]`, the check is false |

## Left out

- Every `@Test` method of the suite: their behaviour is that of an unseen backend (branches, tags, merge, diff, commit walks, locked working copies) reached through `getVCS`; it is not part of this model.
- `setUp` and `setUpAndTearDown`: they create and delete directories under the temp directory and build repository names from random UUIDs (filesystem I/O and randomness).
- `resetMocks` and `verifyMocks`: Mockito spy and verify plumbing around the locked working copy, library code that is not visible here.
- The `Thread.sleep` calls: timing workarounds for remote latency.
- `getVcs` and `setVcs`: trivial accessors.
- The older `com.projectkaiser` copy of the suite: only mock setup and one network-backed branch test.
- Java `null` inside the inputs (a null list, a null commit, a null revision or path) is not modelled: the source would throw `NullPointerException` or compare unequal; strings are never null here.
- A commit is modelled by its revision only, and equality of revisions is equality of `string` values (Java `String.equals`).
