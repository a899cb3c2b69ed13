# semver-tagger, modelled in Dafny

semver-tagger creates the next semantic-version git tag for a repository.
It reads the latest tag with `git describe --tags`, for example
`v1.2.3-rc4-5-gabcdef`. That string holds an optional `v`/`V` prefix, the three
numbers, an optional release-candidate counter, and the number of commits since
the tag with an abbreviated hash. The tool then bumps the version as the flags
ask. In automatic mode it picks the bump from the commit subjects since the tag.

This project models two parts of the tool:

- the `SemVer` value of `internal/semver/main.go`: `FromString`, `String` and `Bump`;
- the decision logic of `main.go`: the flag checks, the repository checks, `-init`,
  the "no new commits" stop, the commit-subject classifier and automatic mode.

The model has five modules:

- `Text` holds the character classes of the two regular expressions. It also
  holds `strconv.Atoi` on digit strings (`DecimalValue`) and `%d` (`NatToString`).
- `Semver` models the version value. The anchored describe pattern is a grammar:
  a `Match` of group texts, `WellFormed` and `Render`. `Lex` is a hand-written
  scanner. It is proved sound by its contract and complete by `LexComplete`, so
  `FromString` accepts exactly the strings of the pattern.
- `Commits` models `patchCommitPattern` the same way. `Head` and `HeadText`
  describe what a patch subject starts with, and `ScanHead` is the scanner.
- `Tagger` models `main()`. `Decide` is the whole decision as a function. `Run`
  computes it as `main()` does, with its flag variables, a type-flag counter
  (`CheckUsage`) and the early-exit loop over commit subjects
  (`AllPatchCommits`). Each method is proved equal to the specification
  functions.
- `SemverExamples`, `CommitsExamples` and `TaggerExamples` hold concrete cases:
  the test tables of `internal/semver/main_test.go` and whole runs of the command.

The git commands are inputs to the model: a `Repo` value holds the clean flag,
the branch, the describe string and the commit subjects, each of which may fail
(`None`). The process exits become `Outcome` values: `Tag`, `NoNewCommits`
(exit status 0) or `Refused` with the reason (exit status 1).

Some details of the code that the model keeps:

- `Bump` acts on only the first of major, minor and patch that is set, as the
  Go `switch` does.
- Formatting a parsed describe string gives back the string without its
  distance suffix only when its numerals have no leading zeros and its rc group
  is not `0`. `FormatAfterParse` proves this under those conditions, and
  `SemverExamples.FormatNormalises` shows `v01.2.3-rc0-4-g1f` formatting as
  `v1.2.3`.
- In automatic mode an empty list of commit subjects counts as "all patch"
  (the loop never clears its accumulator), so the bump is a patch bump.
- Numbers are not bounded by a machine integer.

## Model

| member | source | states |
|---|---|---|
| Text.Span | internal/semver/main.go:18 | the longest run of one character class at the start of a text, as a `+` repetition consumes it: every character of the run is in the class, and the next character is not |
| Text.SpanOfRun | internal/semver/main.go:18 | a run of class characters followed by a non-class character is consumed exactly |
| Text.NatToString | internal/semver/main.go:70-72 | `%d` of a natural number is a canonical numeral whose `Atoi` value is that number |
| Text.NatToStringOfDecimal | internal/semver/main.go:28-56 | `Atoi` then `%d` on a canonical numeral gives the same numeral back |
| Text.DecimalValue | internal/semver/main.go:28-56 | `strconv.Atoi` of a digit string, leading zeros allowed: a numeral of n digits has a value below 10 to the n |
| Text.CanonicalUnique | internal/semver/main.go:28-56 | two canonical numerals with the same value are equal |
| Semver.LexNumbers | internal/semver/main.go:18-21 | a successful scan of the text after the prefix gives a well-formed match that renders back to the prefix plus that text |
| Semver.Lex | internal/semver/main.go:18-21 | soundness of the scanner: a match it returns is well-formed and renders back to the whole input |
| Semver.LexComplete | internal/semver/main.go:18-21 | completeness of the scanner: the rendering of every well-formed match is scanned back into exactly that match |
| Semver.FromString | internal/semver/main.go:20-67 | an error carries the rejected text; a parsed string is in the anchored grammar and its prefix is "", "v" or "V" |
| Semver.ParseAcceptsExactlyGrammar | internal/semver/main.go:18-24 | a string parses if and only if the whole of it matches the anchored pattern; partial matches are rejected |
| Semver.ParseReadsGroups | internal/semver/main.go:26-66 | the fields are the `Atoi` values of the groups; an absent rc group gives 0 and an absent distance group gives 0 |
| Semver.ParseIgnoresHash | internal/semver/main.go:18 | the abbreviated hash is not kept: describe strings that differ only in it parse alike |
| Semver.ToString | internal/semver/main.go:69-75 | the prefix is written first, unchanged, and for a prefix without a dash the result has a `-` exactly when rc > 0 |
| Semver.FormatDropsDistance | internal/semver/main.go:69-75 | the distance is never written |
| Semver.RoundTrip | internal/semver/main.go:18-75 | parsing the format of any version with a valid prefix gives the version back with distance 0 |
| Semver.FormatAfterParse | internal/semver/main.go:18-75 | formatting a parsed describe string whose numerals are canonical and whose rc group is not "0" gives the string without its distance suffix |
| Semver.Bump | internal/semver/main.go:77-104 | only the first of major, minor, patch takes effect and resets the fields below it and rc; rc then adds one after any reset; noRc clears rc last; prefix and distance never change |
| Semver.BumpAdvances | internal/semver/main.go:77-104 | a bump gives a later version in release order exactly when it raises a number or acts on the rc of a release candidate |
| Semver.RcOnReleaseGoesBack | internal/semver/main.go:95-97 | rc alone on a release gives the first candidate of the same numbers, which comes before that release |
| Semver.BumpWithoutFlags | internal/semver/main.go:77-104 | with every flag false the version is unchanged |
| Semver.BumpExamples | internal/semver/main.go:77-104 | major bump from an rc, rc on a release, patch plus rc, and noRc winning over rc, on concrete versions |
| SemverExamples.ParseSimpleWithPrefix | internal/semver/main_test.go:10-13 | "v1.2.3" parses to v, 1, 2, 3, rc 0, distance 0 |
| SemverExamples.ParseSimpleNoPrefix | internal/semver/main_test.go:14-17 | "1.2.3" parses with an empty prefix |
| SemverExamples.ParseReleaseCandidate | internal/semver/main_test.go:18-21 | "1.2.3-rc4" parses to rc 4, distance 0 |
| SemverExamples.ParseCommitDistance | internal/semver/main_test.go:22-25 | "1.2.3-5-gabcdef" parses to rc 0, distance 5 |
| SemverExamples.ParseReleaseCandidateAndDistance | internal/semver/main_test.go:26-29 | "1.2.3-rc4-5-gabcdef" parses to rc 4, distance 5 |
| SemverExamples.FormatExamples | internal/semver/main_test.go:51-70 | the five cases of TestString, distance never written |
| SemverExamples.RejectNotAVersion | internal/semver/main.go:21-24 | "not-a-version" is rejected |
| SemverExamples.RejectTwoNumbers | internal/semver/main.go:21-24 | "1.2" is rejected |
| SemverExamples.RejectEmptyRc | internal/semver/main.go:18-24 | a `-rc` without digits is rejected for any numbers and prefix |
| SemverExamples.RejectDistanceWithoutHash | internal/semver/main.go:18-24 | a distance without `-g` and the hash is rejected, with or without an rc group |
| SemverExamples.FormatNormalises | internal/semver/main.go:43-75 | "v01.2.3-rc0-4-g1f" parses to v1.2.3 with rc 0, which formats as "v1.2.3" |
| Commits.ScanHead | main.go:35 | soundness of the classifier: a head it finds is well-formed and starts the subject |
| Commits.ScanHeadComplete | main.go:35 | completeness: whatever follows a head, the classifier finds exactly that head; the pattern's greedy `?` tries the wrapper first and the scanner tries it last, which agree because a subject starting with the wrapper starts with no type |
| Commits.IsPatchCommit | main.go:35 | `patchCommitPattern.MatchString`: a subject is a patch commit if and only if it starts with an optional `Merge pull request '`, then `chore`, `fix` or `ci`, then an optional non-empty scope of word, space or hyphen characters in parentheses, then `:` |
| Commits.AllPatch | main.go:179-185 | the answer of the loop over the subjects: every subject matches the pattern, which holds of the empty list |
| CommitsExamples.PlainFix | main.go:35 | "fix: bug" is a patch commit |
| CommitsExamples.ScopedChore | main.go:35 | "chore(deps): bump x" is a patch commit |
| CommitsExamples.MergedCi | main.go:35 | a merge subject wrapping "ci: cache" is a patch commit |
| CommitsExamples.FeatureIsNotPatch | main.go:35 | "feat: new thing" is not |
| CommitsExamples.CapitalisedIsNotPatch | main.go:35 | "Fix: bug" is not: matching is case-sensitive |
| CommitsExamples.EmptyScopeIsNotPatch | main.go:35 | "fix(): bug" is not: a scope is not empty |
| CommitsExamples.LongerWordIsNotPatch | main.go:35 | "fixup: bug" is not |
| CommitsExamples.PatchHistory | main.go:179-189 | fixes and chores only make a patch history |
| CommitsExamples.FeatureHistory | main.go:179-192 | one feature among fixes makes a history that is not all patch |
| Tagger.UsageError | main.go:67-99 | the flags are accepted exactly when at most one type flag is counted, -init comes with none, and -rc and -no-rc are not given together |
| Tagger.RepoError | main.go:101-129 | the repository checks pass exactly when git answers and the tree is clean on main, master or develop, or -force is given |
| Tagger.Decide | main.go:67-199 | the whole decision: it tags or stops without a tag only when the flag and repository checks pass, and a tag starts from the version read from `git describe`, or v0.0.0 with -init |
| Tagger.FromCurrent | main.go:150-164 | an unparsable describe string is refused with that string; the command stops without a tag exactly when the version has distance 0 and neither -init nor -force is given; a tag starts from the version |
| Tagger.Classify | main.go:166-199 | the bump never stops the command; it refuses exactly when automatic mode needs the subjects of a release and git cannot list them; a tag starts from the current version and keeps its prefix and distance |
| Tagger.CheckUsage | main.go:67-99 | the counted type flags give exactly the usage errors of the specification (two or more type flags, -init with a type flag, -rc with -no-rc, in that order) and automatic mode exactly when -a is given or assumed |
| Tagger.SeveralMeansCountAboveOne | main.go:67-89 | more than one type flag counted is exactly two of them given together |
| Tagger.AutomaticAlone | main.go:81-94 | accepted flags in automatic mode carry no other type flag and no -init |
| Tagger.AllPatchCommits | main.go:179-185 | the loop with its early break answers whether every subject is a patch commit, and a false answer has a witness |
| Tagger.Run | main.go:67-199 | the command, step by step, gives exactly the outcome of `Decide` |
| Tagger.InitCreatesFirstVersion | main.go:139-148 | -init without an existing tag bumps v0.0.0 by minor: v0.1.0, or v0.1.0-rc1 with -rc |
| Tagger.InitRefusedWhenVersionsExist | main.go:139-143 | -init is refused when `git describe` finds a tag |
| Tagger.NoNewCommitsExactly | main.go:157-164 | without -init, the command stops without a tag exactly when the describe string parses with distance 0 and -force is not given |
| Tagger.DecideParsed | main.go:150-199 | a parsed version with commits since it, or -force, goes on to the classification |
| Tagger.DecidedTag | main.go:139-199 | a tag starts from the version read (or v0.0.0), whose prefix is valid |
| Tagger.AutoContinuesCandidate | main.go:168-171 | in automatic mode a release candidate gets the next rc, or its release with -no-rc, and the commits are not looked at |
| Tagger.AutoClassifiesCommits | main.go:173-194 | in automatic mode a release gets a patch bump when every subject is a patch commit (the empty list included) and a minor bump otherwise |
| Tagger.AutoKeepsMajor | main.go:168-199 | automatic mode never bumps the major number |
| Tagger.NoRcReleasesCandidate | main.go:81-84 | -no-rc alone assumes automatic mode and releases a release candidate |
| Tagger.TagAdvances | main.go:199 | every tag is later than its start, except -rc alone on a release, which gives an earlier candidate |
| Tagger.TagParsesBack | main.go:199-202 | the new tag keeps the prefix and parses back into the new version |
| TaggerExamples.DefaultRunOnFixes | main.go:81-199 | no flags, fixes and chores after 1.2.3-5-gabcdef: tag 1.2.4 |
| TaggerExamples.DefaultRunOnFeature | main.go:81-199 | no flags, a feature among the commits: tag 1.3.0 |
| TaggerExamples.DirtyTree | main.go:101-115 | a dirty tree is refused without -force and tagged with it |
| TaggerExamples.FeatureBranch | main.go:117-129 | a branch other than main, master or develop is refused |
| TaggerExamples.InitOnEmptyRepository | main.go:133-148 | -init where `git describe` fails creates v0.1.0 |
| TaggerExamples.NothingToTag | main.go:157-164 | on the tag itself the command stops without a tag |

## Left out

- internal/git/main.go is I/O. It runs `git` through a shell and reads a confirmation from stdin. Its four answers are inputs (`Repo`), and a failing command is `None`.
- `CreateTag`, the Y/n confirmation and `PushTags` (main.go:204-217) come after the decision. The model ends with the tag it would create.
- The `-v`, `-y` and `-P` flags only change logging, confirmation and pushing, so they are not modelled.
- internal/log/log.go, the printing of the previous and new tag (main.go:201-202), the bold ANSI formatting and the usage text are output only.
- Parsing of the command line by the `flag` package is not modelled; `Flags` is its result.
- `os.Exit` is replaced by the `Outcome` value.
- cmd/main.go is not part of this model. It is an older entry point that `main.go` replaces.
- `strconv.Atoi` overflow is not modelled. Numbers are unbounded, so the error branches after the grammar check (internal/semver/main.go:28-56) cannot be reached. Go's `int` width is also left out of `Bump`'s increments.
- Semver.ToString: its own contract states only the prefix and the `-rc` suffix condition. The full format is stated by `RoundTrip`, `FormatAfterParse` and the examples.
- The Go regular-expression engine is not modelled. The two patterns are modelled as grammars with hand-written scanners.
