/** Commit subjects the classifier accepts and rejects. */
module CommitsExamples {
  import opened Wrappers
  import opened Commits

  lemma PlainFix(s: string)
    requires s == "fix: bug"
    ensures IsPatchCommit(s)
  {
    var h := Head(false, "fix", None);
    assert HeadText(h) + " bug" == s;
    ScanHeadComplete(h, " bug");
  }

  lemma ScopedChore(s: string)
    requires s == "chore(deps): bump x"
    ensures IsPatchCommit(s)
  {
    var h := Head(false, "chore", Some("deps"));
    assert ValidScope("deps");
    assert HeadText(h) + " bump x" == s;
    ScanHeadComplete(h, " bump x");
  }

  lemma MergedCi(s: string)
    requires s == "Merge pull request 'ci: cache' (#7)"
    ensures IsPatchCommit(s)
  {
    var h := Head(true, "ci", None);
    assert HeadText(h) + " cache' (#7)" == s;
    ScanHeadComplete(h, " cache' (#7)");
  }

  lemma FeatureIsNotPatch(s: string)
    requires s == "feat: new thing"
    ensures !IsPatchCommit(s)
  {
    assert !("Merge pull request '" <= s) by {
      assert s[0] != 'M';
    }
  }

  /** The type is matched case-sensitively. */
  lemma CapitalisedIsNotPatch(s: string)
    requires s == "Fix: bug"
    ensures !IsPatchCommit(s)
  {
    assert s[0] == 'F';
  }

  /** A scope may not be empty. */
  lemma EmptyScopeIsNotPatch(s: string)
    requires s == "fix(): bug"
    ensures !IsPatchCommit(s)
  {
    assert ScanHead(s).None? by {
      assert s[3..][1..][0] == ')';
      assert s[0] != 'M';
    }
  }

  /** The type must be followed by the scope or the colon. */
  lemma LongerWordIsNotPatch(s: string)
    requires s == "fixup: bug"
    ensures !IsPatchCommit(s)
  {
    assert s[3..][0] == 'u';
    assert s[0] != 'M';
  }

  lemma PlainChore(s: string)
    requires s == "chore: cleanup"
    ensures IsPatchCommit(s)
  {
    var h := Head(false, "chore", None);
    assert HeadText(h) + " cleanup" == s;
    ScanHeadComplete(h, " cleanup");
  }

  /** Fixes and chores only: a patch history. */
  lemma PatchHistory(a: string, b: string)
    requires a == "fix: bug" && b == "chore: cleanup"
    ensures AllPatch([a, b])
  {
    PlainFix(a);
    PlainChore(b);
  }

  /** One feature among fixes: not a patch history. */
  lemma FeatureHistory(a: string, c: string)
    requires a == "fix: bug" && c == "feat: new thing"
    ensures !AllPatch([a, c])
  {
    FeatureIsNotPatch(c);
    assert [a, c][1] == c;
  }
}
