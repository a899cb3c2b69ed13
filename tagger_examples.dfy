/** Whole runs of the command on concrete repositories. */
module TaggerExamples {
  import opened Wrappers
  import opened Semver
  import opened Commits
  import opened Tagger
  import SemverExamples
  import CommitsExamples

  /** No flags at all: a fix and a chore since the tag 1.2.3 (five commits back) give the patch release 1.2.4. */
  lemma DefaultRunOnFixes(d: string, a: string, b: string)
    requires d == "1.2.3-5-gabcdef" && a == "fix: bug" && b == "chore: cleanup"
    ensures var f := Flags(false, false, false, false, false, false, false, false);
      Decide(f, Repo(Some(true), Some("main"), Some(d), Some([a, b])))
        == Tag(SemVer("", 1, 2, 3, 0, 5), SemVer("", 1, 2, 4, 0, 5))
  {
    var f := Flags(false, false, false, false, false, false, false, false);
    var repo := Repo(Some(true), Some("main"), Some(d), Some([a, b]));
    SemverExamples.ParseCommitDistance(d);
    CommitsExamples.PatchHistory(a, b);
    AutoClassifiesCommits(f, repo, SemVer("", 1, 2, 3, 0, 5), [a, b]);
  }

  /** No flags at all: a feature among the commits gives the minor release 1.3.0. */
  lemma DefaultRunOnFeature(d: string, a: string, c: string)
    requires d == "1.2.3-5-gabcdef" && a == "fix: bug" && c == "feat: new thing"
    ensures var f := Flags(false, false, false, false, false, false, false, false);
      Decide(f, Repo(Some(true), Some("master"), Some(d), Some([a, c])))
        == Tag(SemVer("", 1, 2, 3, 0, 5), SemVer("", 1, 3, 0, 0, 5))
  {
    var f := Flags(false, false, false, false, false, false, false, false);
    var repo := Repo(Some(true), Some("master"), Some(d), Some([a, c]));
    SemverExamples.ParseCommitDistance(d);
    CommitsExamples.FeatureHistory(a, c);
    AutoClassifiesCommits(f, repo, SemVer("", 1, 2, 3, 0, 5), [a, c]);
  }

  /** Without -force a dirty tree stops the command, and with it the tag is still made. */
  lemma DirtyTree(d: string)
    requires d == "1.2.3-rc4-5-gabcdef"
    ensures var f := Flags(false, false, false, false, false, false, false, false);
      Decide(f, Repo(Some(false), Some("main"), Some(d), None)) == Refused(RepoNotClean)
    ensures var f := Flags(false, false, false, false, false, false, false, true);
      Decide(f, Repo(Some(false), Some("main"), Some(d), None))
        == Tag(SemVer("", 1, 2, 3, 4, 5), SemVer("", 1, 2, 3, 5, 5))
  {
    var f := Flags(false, false, false, false, false, false, false, true);
    SemverExamples.ParseReleaseCandidateAndDistance(d);
    AutoContinuesCandidate(f, Repo(Some(false), Some("main"), Some(d), None), SemVer("", 1, 2, 3, 4, 5));
  }

  /** A feature branch is refused without -force. */
  lemma FeatureBranch(d: string, b: string)
    requires d == "1.2.3-5-gabcdef" && b == "feature/x"
    ensures var f := Flags(false, true, false, false, false, false, false, false);
      Decide(f, Repo(Some(true), Some(b), Some(d), None)) == Refused(NotDefaultBranch(b))
  {
    var f := Flags(false, true, false, false, false, false, false, false);
    assert b !in DefaultBranches by {
      assert b[0] == 'f';
    }
    assert UsageError(f).None?;
    assert RepoError(f, Repo(Some(true), Some(b), Some(d), None)) == Some(NotDefaultBranch(b));
  }

  /** -init on a repository without tags, where `git describe` fails, creates v0.1.0. */
  lemma InitOnEmptyRepository()
    ensures var f := Flags(false, false, false, false, false, false, true, false);
      Decide(f, Repo(Some(true), Some("main"), None, None))
        == Tag(SemVer("v", 0, 0, 0, 0, 0), SemVer("v", 0, 1, 0, 0, 0))
  {
    var f := Flags(false, false, false, false, false, false, true, false);
    InitCreatesFirstVersion(f, Repo(Some(true), Some("main"), None, None));
  }

  /** On the tag itself the command stops without a tag. */
  lemma NothingToTag(d: string)
    requires d == "v1.2.3"
    ensures var f := Flags(false, false, false, false, false, false, false, false);
      Decide(f, Repo(Some(true), Some("develop"), Some(d), None)) == NoNewCommits(SemVer("v", 1, 2, 3, 0, 0))
  {
    var f := Flags(false, false, false, false, false, false, false, false);
    var repo := Repo(Some(true), Some("develop"), Some(d), None);
    var v := SemVer("v", 1, 2, 3, 0, 0);
    SemverExamples.ParseSimpleWithPrefix(d);
    assert Proceeds(f, repo);
    assert CurrentOf(f, repo) == Ok(v);
    assert FromCurrent(f, None, Ok(v)) == NoNewCommits(v);
    DecidePastChecks(f, repo);
  }
}
