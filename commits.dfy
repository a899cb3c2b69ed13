/**
 The commit-subject classifier of main.go: a subject is a patch commit when it
 starts with a patch type (`chore`, `fix` or `ci`), an optional parenthesised
 scope and a colon, possibly inside the wrapper `Merge pull request '` that
 merge commits carry. The pattern is anchored at the start only, so anything
 may follow the colon.

 `HeadText` renders the heads the pattern describes, `MatchesPatchPattern`
 is its language (a subject starts with such a head), and `ScanHead` is the
 hand-written scanner that stands in for the regular expression.
 */
module Commits {
  import opened Wrappers
  import opened Text

  /** The optional wrapper of a merge commit's subject. */
  const MergePrefix: string := "Merge pull request '"

  /** The commit types that count as patch changes, matched case-sensitively. */
  const PatchTypes: seq<string> := ["chore", "fix", "ci"]

  /** The head of a patch subject: the wrapper or not, the type, and the scope if there is one. */
  datatype Head = Head(merged: bool, kind: string, scope: Option<string>)

  /** `[\w \-]+`: a scope is one or more word characters, spaces or hyphens. */
  predicate ValidScope(sc: string) { |sc| > 0 && All(sc, Scope) }

  predicate WellFormedHead(h: Head) {
    h.kind in PatchTypes && (h.scope.Some? ==> ValidScope(h.scope.value))
  }

  function ScopeText(sc: Option<string>): string {
    match sc
    case None => ""
    case Some(x) => "(" + x + ")"
  }

  function HeadText(h: Head): string {
    (if h.merged then MergePrefix else "") + (h.kind + (ScopeText(h.scope) + ":"))
  }

  /** The language of the pattern: the subject starts with a head. */
  ghost predicate MatchesPatchPattern(s: string) {
    exists h :: WellFormedHead(h) && HeadText(h) <= s
  }

  // ---------------------------------------------------------------------------
  // The scanner

  /** The patch type at the start of `t`, if any. */
  function ScanKind(t: string): (r: Option<string>)
    ensures r.Some? ==> r.value in PatchTypes && r.value <= t
  {
    if "chore" <= t then Some("chore")
    else if "fix" <= t then Some("fix")
    else if "ci" <= t then Some("ci")
    else None
  }

  /** The optional scope and the colon at the start of `t`. */
  function ScanScope(t: string): (r: Option<Option<string>>)
    ensures r.Some? ==> (r.value.Some? ==> ValidScope(r.value.value)) && ScopeText(r.value) + ":" <= t
  {
    if |t| > 0 && t[0] == ':' then Some(None)
    else if |t| > 0 && t[0] == '(' then
      var n := Span(t[1..], Scope);
      if n > 0 && n + 3 <= |t| && t[n + 1] == ')' && t[n + 2] == ':' then
        var x := t[1..n + 1];
        assert x == t[1..][..n];
        assert t[..n + 3] == "(" + x + ")" + ":";
        Some(Some(x))
      else None
    else None
  }

  /** A type, the optional scope and the colon at the start of `t`. */
  function ScanTyped(t: string, merged: bool): (r: Option<Head>)
    ensures r.Some? ==> WellFormedHead(r.value) && r.value.merged == merged
    ensures r.Some? ==> r.value.kind + (ScopeText(r.value.scope) + ":") <= t
  {
    match ScanKind(t)
    case None => None
    case Some(k) =>
      match ScanScope(t[|k|..])
      case None => None
      case Some(sc) =>
        assert t == k + t[|k|..];
        Some(Head(merged, k, sc))
  }

  /**
   The head of a subject: first without the wrapper, then inside it. The
   regular expression's `?` is greedy and tries the wrapper first; the order
   here is the reverse, and gives the same head because a subject that starts
   with the wrapper starts with no type (`WrapperIsNotTyped`), so at most one
   of the two tries can succeed.
   */
  function ScanHead(s: string): (r: Option<Head>)
    ensures r.Some? ==> WellFormedHead(r.value) && HeadText(r.value) <= s
  {
    match ScanTyped(s, false)
    case Some(h) => Some(h)
    case None =>
      if MergePrefix <= s then
        var r := ScanTyped(s[|MergePrefix|..], true);
        assert s == MergePrefix + s[|MergePrefix|..];
        r
      else None
  }

  /** `patchCommitPattern.MatchString`: the subject starts with a head the pattern describes. */
  predicate IsPatchCommit(s: string)
    ensures IsPatchCommit(s) <==> MatchesPatchPattern(s)
  {
    ScanHeadExact(s);
    ScanHead(s).Some?
  }

  /** Every subject in the list is a patch commit; the empty list is, vacuously. */
  predicate AllPatch(subjects: seq<string>)
    ensures AllPatch(subjects) <==> forall i :: 0 <= i < |subjects| ==> MatchesPatchPattern(subjects[i])
  {
    forall i :: 0 <= i < |subjects| ==> IsPatchCommit(subjects[i])
  }

  // ---------------------------------------------------------------------------
  // The scanner reads back every head

  lemma ScanKindComplete(k: string, rest: string)
    requires k in PatchTypes
    ensures ScanKind(k + rest) == Some(k)
  {
    var t := k + rest;
    assert t[..|k|] == k;
    if k == "fix" {
      assert t[0] == 'f';
    } else if k == "ci" {
      assert t[0] == 'c' && t[1] == 'i';
    }
  }

  lemma ScanScopeComplete(sc: Option<string>, rest: string)
    requires sc.Some? ==> ValidScope(sc.value)
    ensures ScanScope(ScopeText(sc) + (":" + rest)) == Some(sc)
  {
    if sc.Some? {
      var x := sc.value;
      var u := x + ("):" + rest);
      assert ScopeText(sc) + (":" + rest) == "(" + u;
      ScopeRun(x, rest, u);
    }
  }

  lemma ScopeRun(x: string, rest: string, u: string)
    requires ValidScope(x) && u == x + ("):" + rest)
    ensures ScanScope("(" + u) == Some(Some(x))
  {
    var t := "(" + u;
    assert t[1..] == u;
    SpanOfRun(x, "):" + rest, Scope);
    var n := |x|;
    assert t[n + 1] == ')' && t[n + 2] == ':';
    assert t[1..n + 1] == x;
  }

  lemma ScanTypedComplete(h: Head, rest: string)
    requires WellFormedHead(h)
    ensures ScanTyped(h.kind + (ScopeText(h.scope) + (":" + rest)), h.merged) == Some(h)
  {
    var after := ScopeText(h.scope) + (":" + rest);
    ScanKindComplete(h.kind, after);
    assert (h.kind + after)[|h.kind|..] == after;
    ScanScopeComplete(h.scope, rest);
  }

  /** No subject that begins with the merge wrapper begins with a type. */
  lemma WrapperIsNotTyped(t: string)
    requires MergePrefix <= t
    ensures ScanKind(t) == None
  {
    assert t[0] == 'M';
  }

  /** Whatever follows a head, the scanner finds exactly that head. */
  lemma ScanHeadComplete(h: Head, rest: string)
    requires WellFormedHead(h)
    ensures ScanHead(HeadText(h) + rest) == Some(h)
  {
    var typed := h.kind + (ScopeText(h.scope) + (":" + rest));
    ScanTypedComplete(h, rest);
    if h.merged {
      MergedHead(h, rest, typed);
    } else {
      assert HeadText(h) + rest == typed;
    }
  }

  lemma MergedHead(h: Head, rest: string, typed: string)
    requires h.merged && ScanTyped(typed, true) == Some(h)
    requires typed == h.kind + (ScopeText(h.scope) + (":" + rest))
    ensures ScanHead(HeadText(h) + rest) == Some(h)
  {
    var s := MergePrefix + typed;
    assert HeadText(h) + rest == s;
    assert s[..|MergePrefix|] == MergePrefix;
    WrapperIsNotTyped(s);
    assert s[|MergePrefix|..] == typed;
  }

  /** The scanner finds a head in exactly the subjects that start with one. */
  lemma ScanHeadExact(s: string)
    ensures ScanHead(s).Some? <==> MatchesPatchPattern(s)
  {
    if MatchesPatchPattern(s) {
      var h :| WellFormedHead(h) && HeadText(h) <= s;
      var n := |HeadText(h)|;
      assert s == HeadText(h) + s[n..];
      ScanHeadComplete(h, s[n..]);
    }
  }
}
