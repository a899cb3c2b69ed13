/**
 The command of main.go: check the flags, check the repository, read the
 current version from `git describe --tags`, decide the kind of bump (in
 automatic mode from the rc counter or the commit subjects since the last tag)
 and compute the new tag.

 The git commands are inputs (`Repo`), each of them possibly failing; the
 process exits become `Outcome` values. `Decide` states the whole decision as a
 function; `Run` computes it the way main.go does, step by step with its
 flag variables.
 */
module Tagger {
  import opened Wrappers
  import opened Semver
  import opened Commits

  /** The command-line flags that decide the tag; verbose, confirmation and push do not. */
  datatype Flags = Flags(auto: bool, major: bool, minor: bool, patch: bool,
                         rc: bool, noRc: bool, init: bool, force: bool)

  /**
   What the git commands report: whether the working tree is clean, the current
   branch, the describe string and the subjects of the commits since the last
   tag. `None` where the command fails.
   */
  datatype Repo = Repo(clean: Option<bool>, branch: Option<string>,
                       describe: Option<string>, commits: Option<seq<string>>)

  /** Why the command stops with exit status 1. */
  datatype Refusal =
    | TooManyTypeFlags
    | InitWithTypeFlag
    | RcWithNoRc
    | StatusFailed
    | RepoNotClean
    | BranchFailed
    | NotDefaultBranch(branch: string)
    | DescribeFailed
    | VersionsExist
    | Unparsable(description: string)
    | CommitsUnavailable

  /** A tag from `prev` to `next`; no commits since the last tag (exit status 0); or a refusal. */
  datatype Outcome = Tag(prev: SemVer, next: SemVer) | NoNewCommits(current: SemVer) | Refused(reason: Refusal)

  /** The branches on which tagging is allowed without `-force`. */
  const DefaultBranches: seq<string> := ["main", "master", "develop"]

  /** The version that `-init` bumps from: v0.0.0. */
  const Initial: SemVer := SemVer("v", 0, 0, 0, 0, 0)

  // ---------------------------------------------------------------------------
  // The specification

  /** At least one of -a, -M, -m and -p. */
  predicate AnyTypeFlag(f: Flags) { f.auto || f.major || f.minor || f.patch }

  /** Two or more of -a, -M, -m and -p. */
  predicate SeveralTypeFlags(f: Flags) {
    || (f.auto && (f.major || f.minor || f.patch))
    || (f.major && (f.minor || f.patch))
    || (f.minor && f.patch)
  }

  /** With no type flag, no -rc and no -init, automatic mode is assumed. */
  predicate AutoAssumed(f: Flags) { !AnyTypeFlag(f) && !f.rc && !f.init }

  predicate Automatic(f: Flags) { f.auto || AutoAssumed(f) }

  /**
   The usage errors, in the order the command reports them. The flags are
   accepted exactly when at most one type flag is counted, -init comes with
   none, and -rc and -no-rc are not given together.
   */
  function UsageError(f: Flags): (r: Option<Refusal>)
    ensures r.None? <==> TypeFlagCount(f) <= 1 && !(TypeFlagCount(f) > 0 && f.init) && !(f.rc && f.noRc)
  {
    if SeveralTypeFlags(f) then Some(TooManyTypeFlags)
    else if AnyTypeFlag(f) && f.init then Some(InitWithTypeFlag)
    else if f.rc && f.noRc then Some(RcWithNoRc)
    else None
  }

  /**
   The repository checks; `-force` overrides a dirty tree and a branch that is
   not a default one. They pass exactly when git answers and the tree is clean
   on a default branch, or -force is given.
   */
  function RepoError(f: Flags, repo: Repo): (r: Option<Refusal>)
    ensures r.None?
        <==> repo.clean.Some? && repo.branch.Some?
             && (f.force || (repo.clean.value && repo.branch.value in DefaultBranches))
  {
    if repo.clean.None? then Some(StatusFailed)
    else if !repo.clean.value && !f.force then Some(RepoNotClean)
    else if repo.branch.None? then Some(BranchFailed)
    else if repo.branch.value !in DefaultBranches && !f.force then Some(NotDefaultBranch(repo.branch.value))
    else None
  }

  /** The describe string, "" when `git describe` fails. */
  function Description(repo: Repo): string {
    if repo.describe.Some? then repo.describe.value else ""
  }

  /**
   The whole decision of the command. It tags, or stops without a tag, only
   when the flags and the repository pass their checks, and a tag starts from
   the version read (or v0.0.0 with -init).
   */
  function Decide(f: Flags, repo: Repo): (r: Outcome)
    ensures r.Tag? || r.NoNewCommits? ==> Proceeds(f, repo)
    ensures r.Tag? ==> CurrentOf(f, repo) == Ok(r.prev)
  {
    if UsageError(f).Some? then Refused(UsageError(f).value)
    else if RepoError(f, repo).Some? then Refused(RepoError(f, repo).value)
    else if repo.describe.None? && !f.init then Refused(DescribeFailed)
    else if f.init && Description(repo) != "" then Refused(VersionsExist)
    else FromCurrent(f, repo.commits, if f.init then Ok(Initial) else FromString(Description(repo)))
  }

  /**
   The rest of the decision once the current version is read (or v0.0.0 with
   -init): an unparsable describe string is refused, the command stops without
   a tag exactly when the version has no commits since it and neither -init nor
   -force is given, and a tag starts from the version.
   */
  function FromCurrent(f: Flags, commits: Option<seq<string>>, current: ParseResult): (r: Outcome)
    ensures current.Err? ==> r == Refused(Unparsable(current.input))
    ensures r.NoNewCommits? <==> current.Ok? && !f.init && !f.force && current.version.commitDistance == 0
    ensures r.Tag? ==> current.Ok? && r.prev == current.version
  {
    if current.Err? then Refused(Unparsable(current.input))
    else if !f.init && current.version.commitDistance == 0 && !f.force then NoNewCommits(current.version)
    else Classify(f, current.version, commits)
  }

  /**
   The bump from `current`: the flags as given (with -init a minor bump), and in
   automatic mode an rc bump on a release candidate, otherwise a patch bump if
   every commit subject is a patch commit and a minor bump if not. It refuses
   only when it needs the commit subjects and git cannot list them; a tag starts
   from `current` and keeps its prefix and distance.
   */
  function Classify(f: Flags, current: SemVer, commits: Option<seq<string>>): (r: Outcome)
    ensures !r.NoNewCommits?
    ensures r.Refused? <==> Automatic(f) && current.rc == 0 && commits.None?
    ensures r.Refused? ==> r.reason == CommitsUnavailable
    ensures r.Tag? ==> r.prev == current && r.next.prefix == current.prefix
    ensures r.Tag? ==> r.next.commitDistance == current.commitDistance
  {
    var minor := f.minor || f.init;
    if !Automatic(f) then Tag(current, Bump(current, f.major, minor, f.patch, f.rc, f.noRc))
    else if current.rc > 0 then Tag(current, Bump(current, f.major, minor, f.patch, true, f.noRc))
    else if commits.None? then Refused(CommitsUnavailable)
    else
      var all := AllPatch(commits.value);
      Tag(current, Bump(current, f.major, minor || !all, f.patch || all, f.rc, f.noRc))
  }

  // ---------------------------------------------------------------------------
  // The command

  /** Counts the type flags, assumes automatic mode, and reports the first usage error. */
  method CheckUsage(f: Flags) returns (auto: bool, err: Option<Refusal>)
    ensures auto == Automatic(f)
    ensures err == UsageError(f)
  {
    var count := 0;
    if f.auto {
      count := count + 1;
    }
    if f.major {
      count := count + 1;
    }
    if f.minor {
      count := count + 1;
    }
    if f.patch {
      count := count + 1;
    }
    auto := f.auto;
    if count == 0 && !f.rc && !f.init {
      auto := true;
    }
    if count > 1 {
      return auto, Some(TooManyTypeFlags);
    }
    if count > 0 && f.init {
      return auto, Some(InitWithTypeFlag);
    }
    if f.rc && f.noRc {
      return auto, Some(RcWithNoRc);
    }
    err := None;
  }

  /** Whether every subject is a patch commit, stopping at the first that is not. */
  method AllPatchCommits(subjects: seq<string>) returns (all: bool)
    ensures all <==> AllPatch(subjects)
    ensures !all ==> exists i :: 0 <= i < |subjects| && !IsPatchCommit(subjects[i])
  {
    all := true;
    var i := 0;
    while i < |subjects|
      invariant 0 <= i <= |subjects|
      invariant forall j :: 0 <= j < i ==> IsPatchCommit(subjects[j])
    {
      if !IsPatchCommit(subjects[i]) {
        all := false;
        break;
      }
      i := i + 1;
    }
  }

  /** The command from its flags to its outcome. */
  method Run(f: Flags, repo: Repo) returns (o: Outcome)
    ensures o == Decide(f, repo)
  {
    var auto, usage := CheckUsage(f);
    if usage.Some? {
      return Refused(usage.value);
    }

    if repo.clean.None? {
      return Refused(StatusFailed);
    }
    if !repo.clean.value && !f.force {
      return Refused(RepoNotClean);
    }
    if repo.branch.None? {
      return Refused(BranchFailed);
    }
    if repo.branch.value !in DefaultBranches && !f.force {
      return Refused(NotDefaultBranch(repo.branch.value));
    }

    var description := "";
    if repo.describe.Some? {
      description := repo.describe.value;
    } else if !f.init {
      return Refused(DescribeFailed);
    }

    var major, minor, patch, rc := f.major, f.minor, f.patch, f.rc;
    var current: SemVer;
    if f.init {
      if description != "" {
        return Refused(VersionsExist);
      }
      current := Initial;
      minor := true;
    } else {
      var parsed := FromString(description);
      if parsed.Err? {
        return Refused(Unparsable(description));
      }
      current := parsed.version;
    }
    assert Decide(f, repo) == FromCurrent(f, repo.commits, Ok(current)) by {
      DecidePastChecks(f, repo);
    }

    if current.commitDistance == 0 && !f.init && !f.force {
      return NoNewCommits(current);
    }

    if auto {
      if current.rc > 0 {
        rc := true;
      } else {
        if repo.commits.None? {
          return Refused(CommitsUnavailable);
        }
        var all := AllPatchCommits(repo.commits.value);
        if all {
          patch := true;
        } else {
          minor := true;
        }
      }
    }

    o := Tag(current, Bump(current, major, minor, patch, rc, f.noRc));
  }

  // ---------------------------------------------------------------------------
  // Properties of the decision

  /** The number of type flags given. */
  function TypeFlagCount(f: Flags): nat {
    (if f.auto then 1 else 0) + (if f.major then 1 else 0) + (if f.minor then 1 else 0) + (if f.patch then 1 else 0)
  }

  /** The counter of main.go: more than one type flag is exactly two of them together. */
  lemma SeveralMeansCountAboveOne(f: Flags)
    ensures SeveralTypeFlags(f) <==> TypeFlagCount(f) > 1
  {
  }

  /** Accepted flags in automatic mode carry no other type flag and no -init. */
  lemma AutomaticAlone(f: Flags)
    requires UsageError(f).None? && Automatic(f)
    ensures !f.major && !f.minor && !f.patch && !f.init
  {
  }

  /** The state in which the command gets as far as reading the version. */
  predicate Proceeds(f: Flags, repo: Repo) {
    UsageError(f).None? && RepoError(f, repo).None?
  }

  /** -init on a repository without tags creates v0.1.0, or v0.1.0-rc1 with -rc. */
  lemma InitCreatesFirstVersion(f: Flags, repo: Repo)
    requires Proceeds(f, repo) && f.init
    requires repo.describe.None? || repo.describe == Some("")
    ensures Decide(f, repo) == Tag(Initial, SemVer("v", 0, 1, 0, if f.rc then 1 else 0, 0))
  {
    assert !Automatic(f);
  }

  /** -init is refused once `git describe` finds a tag. */
  lemma InitRefusedWhenVersionsExist(f: Flags, repo: Repo, d: string)
    requires Proceeds(f, repo) && f.init
    requires repo.describe == Some(d) && d != ""
    ensures Decide(f, repo) == Refused(VersionsExist)
  {
  }

  /** The version the rest of the decision starts from, once the checks before it pass. */
  function CurrentOf(f: Flags, repo: Repo): ParseResult {
    if f.init then Ok(Initial) else FromString(Description(repo))
  }

  /** Past the checks and the describe step, the decision is the rest of the decision on `CurrentOf`. */
  lemma DecidePastChecks(f: Flags, repo: Repo)
    requires Proceeds(f, repo)
    requires repo.describe.Some? || f.init
    requires !(f.init && Description(repo) != "")
    ensures Decide(f, repo) == FromCurrent(f, repo.commits, CurrentOf(f, repo))
  {
  }

  /** The command stops without a tag exactly when the last tag is on the current commit and -force is not given. */
  lemma NoNewCommitsExactly(f: Flags, repo: Repo)
    requires Proceeds(f, repo)
    ensures Decide(f, repo).NoNewCommits?
        <==> (&& !f.init && !f.force && repo.describe.Some?
              && FromString(repo.describe.value).Ok?
              && FromString(repo.describe.value).version.commitDistance == 0)
  {
    if repo.describe.None? && !f.init {
      assert Decide(f, repo) == Refused(DescribeFailed);
    } else if f.init && Description(repo) != "" {
      assert Decide(f, repo) == Refused(VersionsExist);
    } else {
      DecidePastChecks(f, repo);
      var cur := CurrentOf(f, repo);
      if cur.Ok? {
        assert !Classify(f, cur.version, repo.commits).NoNewCommits?;
      }
    }
  }

  /** The conditions under which the version read from `git describe` is bumped. */
  predicate BumpsParsed(f: Flags, repo: Repo, v: SemVer) {
    && Proceeds(f, repo) && !f.init
    && repo.describe.Some? && FromString(repo.describe.value) == Ok(v)
    && (v.commitDistance > 0 || f.force)
  }

  /** A parsed version with commits since it (or -force) goes on to the classification. */
  lemma DecideParsed(f: Flags, repo: Repo, v: SemVer)
    requires BumpsParsed(f, repo, v)
    ensures Decide(f, repo) == Classify(f, v, repo.commits)
  {
    DecidePastChecks(f, repo);
    assert CurrentOf(f, repo) == Ok(v);
  }

  /** A tag is the classification of the version it starts from, and that version has a valid prefix. */
  lemma DecidedTag(f: Flags, repo: Repo)
    requires Decide(f, repo).Tag?
    ensures Proceeds(f, repo)
    ensures Decide(f, repo) == Classify(f, Decide(f, repo).prev, repo.commits)
    ensures ValidPrefix(Decide(f, repo).prev.prefix)
  {
    var cur := CurrentOf(f, repo);
    var o := FromCurrent(f, repo.commits, cur);
    assert Decide(f, repo) == o by {
      assert Proceeds(f, repo) && (repo.describe.Some? || f.init) && !(f.init && Description(repo) != "");
      DecidePastChecks(f, repo);
    }
    assert cur.Ok?;
    assert o == Classify(f, cur.version, repo.commits);
  }

  /** In automatic mode a release candidate gets the next rc (or, with -no-rc, its release), whatever the commits. */
  lemma AutoContinuesCandidate(f: Flags, repo: Repo, v: SemVer)
    requires BumpsParsed(f, repo, v) && Automatic(f) && v.rc > 0
    ensures Decide(f, repo) == Tag(v, v.(rc := if f.noRc then 0 else v.rc + 1))
  {
    AutomaticAlone(f);
    DecideParsed(f, repo, v);
  }

  /**
   In automatic mode a release gets a patch bump when every commit since the tag
   is a patch commit (so also when there are none), and a minor bump otherwise.
   */
  lemma AutoClassifiesCommits(f: Flags, repo: Repo, v: SemVer, subjects: seq<string>)
    requires BumpsParsed(f, repo, v) && Automatic(f) && v.rc == 0
    requires repo.commits == Some(subjects)
    ensures Decide(f, repo) == Tag(v,
      if AllPatch(subjects) then v.(patch := v.patch + 1, rc := if f.rc then 1 else 0)
      else v.(minor := v.minor + 1, patch := 0, rc := if f.rc then 1 else 0))
  {
    DecideParsed(f, repo, v);
    ClassifyRelease(f, v, subjects);
  }

  lemma ClassifyRelease(f: Flags, v: SemVer, subjects: seq<string>)
    requires UsageError(f).None? && Automatic(f) && v.rc == 0
    ensures Classify(f, v, Some(subjects)) == Tag(v,
      if AllPatch(subjects) then v.(patch := v.patch + 1, rc := if f.rc then 1 else 0)
      else v.(minor := v.minor + 1, patch := 0, rc := if f.rc then 1 else 0))
  {
    AutomaticAlone(f);
    var all := AllPatch(subjects);
    var next := Bump(v, false, !all, all, f.rc, f.noRc);
    assert Classify(f, v, Some(subjects)) == Tag(v, next);
    if all {
      assert next == v.(patch := v.patch + 1, rc := if f.rc then 1 else 0);
    } else {
      assert next == v.(minor := v.minor + 1, patch := 0, rc := if f.rc then 1 else 0);
    }
  }

  /** Automatic mode never bumps the major number. */
  lemma AutoKeepsMajor(f: Flags, repo: Repo)
    requires Automatic(f) && Decide(f, repo).Tag?
    ensures Decide(f, repo).next.major == Decide(f, repo).prev.major
  {
    DecidedTag(f, repo);
    AutomaticAlone(f);
  }

  /** -no-rc alone, which assumes automatic mode, releases a release candidate. */
  lemma NoRcReleasesCandidate(f: Flags, repo: Repo, v: SemVer)
    requires BumpsParsed(f, repo, v) && v.rc > 0
    requires f == Flags(false, false, false, false, false, true, false, f.force)
    ensures Decide(f, repo) == Tag(v, v.(rc := 0))
    ensures Older(v, v.(rc := 0))
  {
    AutoContinuesCandidate(f, repo, v);
  }

  /**
   Every tag is later than the version it starts from, except for -rc alone on
   a release: that starts the candidates of the same numbers, which come before
   the release.
   */
  lemma TagAdvances(f: Flags, repo: Repo)
    requires Decide(f, repo).Tag?
    ensures var o := Decide(f, repo);
      if f.rc && !AnyTypeFlag(f) && !f.init && o.prev.rc == 0
      then o.next == o.prev.(rc := 1) && Older(o.next, o.prev)
      else Older(o.prev, o.next)
  {
    DecidedTag(f, repo);
    var o := Decide(f, repo);
    var p := o.prev;
    if Automatic(f) {
      AutomaticAlone(f);
      if p.rc > 0 {
        BumpAdvances(p, false, false, false, true, f.noRc);
      } else {
        var all := AllPatch(repo.commits.value);
        BumpAdvances(p, false, !all, all, f.rc, f.noRc);
      }
    } else {
      BumpAdvances(p, f.major, f.minor || f.init, f.patch, f.rc, f.noRc);
    }
  }

  /** The new tag keeps the prefix and parses back, so the next run reads it as the version it names. */
  lemma TagParsesBack(f: Flags, repo: Repo)
    requires Decide(f, repo).Tag?
    ensures var o := Decide(f, repo);
      o.next.prefix == o.prev.prefix && FromString(ToString(o.next)) == Ok(o.next.(commitDistance := 0))
  {
    DecidedTag(f, repo);
    var o := Decide(f, repo);
    RoundTrip(o.next);
  }
}
