/**
 The version value of semver-tagger (internal/semver/main.go): parsing the output
 of `git describe --tags`, formatting a version back into a tag name, and the
 bump transition.

 The anchored pattern
   [vV]? D "." D "." D ("-rc" D)? ("-" D "-g" HEX)?     (D = one or more digits)
 is given here as a grammar: a `Match` holds the text of each group, `WellFormed`
 says which texts a group may hold, and `Render` glues the groups back together.
 The strings the pattern accepts are exactly the renderings of well-formed
 matches (`InGrammar`). `Lex` is the hand-written scanner that stands in for the
 regular expression.
 */
module Semver {
  import opened Wrappers
  import opened Text

  /** A version. The distance to the tag comes only from a describe string and is never written out. */
  datatype SemVer = SemVer(prefix: string, major: nat, minor: nat, patch: nat, rc: nat, commitDistance: nat)

  /** The outcome of parsing: a version, or an error that carries the rejected text. */
  datatype ParseResult = Ok(version: SemVer) | Err(input: string)

  predicate ValidPrefix(p: string) { p == "" || p == "v" || p == "V" }

  /**
   The groups of a describe string: prefix, major, minor, patch, the rc digits
   ("" when the `-rc` group is absent), the distance digits and the abbreviated
   hash (both "" when the distance group is absent). The hash is not a capture
   group of the pattern; it is kept here only so that a match can be rendered.
   */
  datatype Match = Match(prefix: string, major: string, minor: string, patch: string,
                         rc: string, distance: string, hash: string)

  predicate RcGroup(rc: string) { rc == "" || Digits(rc) }

  predicate DistanceGroup(d: string, h: string) {
    if d == "" then h == "" else Digits(d) && |h| > 0 && All(h, Hexadecimal)
  }

  predicate WellFormed(m: Match) {
    && ValidPrefix(m.prefix)
    && Digits(m.major) && Digits(m.minor) && Digits(m.patch)
    && RcGroup(m.rc)
    && DistanceGroup(m.distance, m.hash)
  }

  function RcText(rc: string): string { if rc == "" then "" else "-rc" + rc }

  function DistanceText(d: string, h: string): string { if d == "" then "" else "-" + d + "-g" + h }

  function Render(m: Match): string {
    m.prefix + m.major + "." + m.minor + "." + m.patch + RcText(m.rc) + DistanceText(m.distance, m.hash)
  }

  /** The language of the anchored describe pattern. */
  ghost predicate InGrammar(s: string) { exists m :: WellFormed(m) && Render(m) == s }

  // ---------------------------------------------------------------------------
  // The scanner

  /** Digits followed by a dot: the digits and what follows the dot. */
  function LexNumberDot(a: string): (r: Option<(string, string)>)
    ensures r.Some? ==> Digits(r.value.0) && a == r.value.0 + ("." + r.value.1)
  {
    var n := Span(a, Decimal);
    if n == 0 || n == |a| || a[n] != '.' then None
    else
      assert a == a[..n] + ("." + a[n + 1..]);
      Some((a[..n], a[n + 1..]))
  }

  /** The optional `-N-gHEX` group, which must end the text. */
  function LexDistance(t: string): (r: Option<(string, string)>)
    ensures r.Some? ==> DistanceGroup(r.value.0, r.value.1) && DistanceText(r.value.0, r.value.1) == t
  {
    if t == [] then Some(("", ""))
    else if t[0] != '-' then None
    else
      var u := t[1..];
      var n := Span(u, Decimal);
      var w := u[n..];
      if n == 0 || |w| < 3 || w[..2] != "-g" || !All(w[2..], Hexadecimal) then None
      else
        DistanceSplit(t, u, n, w);
        Some((u[..n], w[2..]))
  }

  lemma DistanceSplit(t: string, u: string, n: nat, w: string)
    requires |t| > 0 && t[0] == '-' && u == t[1..]
    requires n <= |u| && w == u[n..] && |w| >= 2 && w[..2] == "-g"
    ensures t == "-" + u[..n] + "-g" + w[2..]
  {
    assert u == u[..n] + w && w == w[..2] + w[2..];
  }

  /** The optional `-rcN` group, then the optional distance group. */
  function LexTail(t: string): (r: Option<(string, string, string)>)
    ensures r.Some? ==> RcGroup(r.value.0) && DistanceGroup(r.value.1, r.value.2)
    ensures r.Some? ==> RcText(r.value.0) + DistanceText(r.value.1, r.value.2) == t
  {
    if |t| >= 3 && t[..3] == "-rc" then
      var u := t[3..];
      var n := Span(u, Decimal);
      if n == 0 then None
      else
        match LexDistance(u[n..])
        case None => None
        case Some(dh) =>
          CandidateSplit(t, n);
          Some((u[..n], dh.0, dh.1))
    else
      match LexDistance(t)
      case None => None
      case Some(dh) => Some(("", dh.0, dh.1))
  }

  lemma CandidateSplit(t: string, n: nat)
    requires |t| >= 3 && t[..3] == "-rc" && n <= |t| - 3
    ensures t == "-rc" + t[3..][..n] + t[3..][n..]
  {
    assert t == t[..3] + t[3..];
    SplitAt(t[3..], n);
  }

  /** The patch digits, then the optional groups, to the end of the text. */
  function LexPatch(c: string): (r: Option<(string, string, string, string)>)
    ensures r.Some? ==> Digits(r.value.0) && RcGroup(r.value.1) && DistanceGroup(r.value.2, r.value.3)
    ensures r.Some? ==> c == r.value.0 + (RcText(r.value.1) + DistanceText(r.value.2, r.value.3))
  {
    var n := Span(c, Decimal);
    if n == 0 then None
    else
      var digits, rest := c[..n], c[n..];
      match LexTail(rest)
      case None => None
      case Some(groups) =>
        SplitAt(c, n);
        Some((digits, groups.0, groups.1, groups.2))
  }

  /** Scans what follows the prefix `p`: the three numbers and the optional groups. */
  function LexNumbers(p: string, a: string): (r: Option<Match>)
    requires ValidPrefix(p)
    ensures r.Some? ==> WellFormed(r.value) && r.value.prefix == p && Render(r.value) == p + a
  {
    match LexNumberDot(a)
    case None => None
    case Some((major, afterMajor)) =>
      match LexNumberDot(afterMajor)
      case None => None
      case Some((minor, afterMinor)) =>
        match LexPatch(afterMinor)
        case None => None
        case Some((patch, rc, d, h)) =>
          var m := Match(p, major, minor, patch, rc, d, h);
          assert Render(m) == p + a by {
            RenderNested(m);
          }
          Some(m)
  }

  /** Scans a whole describe string; a result is a well-formed match that renders back to the input. */
  function Lex(s: string): (r: Option<Match>)
    ensures r.Some? ==> WellFormed(r.value) && Render(r.value) == s
  {
    var p := if |s| > 0 && (s[0] == 'v' || s[0] == 'V') then s[..1] else "";
    assert s == p + s[|p|..];
    LexNumbers(p, s[|p|..])
  }

  /** `Render` with its concatenations grouped from the right, the order in which `Lex` reads them. */
  lemma RenderNested(m: Match)
    ensures Render(m) == m.prefix + (m.major + ("." + (m.minor + ("." + (m.patch
                           + (RcText(m.rc) + DistanceText(m.distance, m.hash)))))))
  {
  }

  lemma LexNumberDotComplete(ds: string, rest: string)
    requires Digits(ds)
    ensures LexNumberDot(ds + ("." + rest)) == Some((ds, rest))
  {
    var a := ds + ("." + rest);
    SpanOfRun(ds, "." + rest, Decimal);
    assert a[|ds| + 1..] == rest;
  }

  lemma LexDistanceComplete(d: string, h: string)
    requires DistanceGroup(d, h)
    ensures LexDistance(DistanceText(d, h)) == Some((d, h))
  {
    if d != "" {
      var t := DistanceText(d, h);
      var u := t[1..];
      assert u == d + ("-g" + h);
      SpanOfRun(d, "-g" + h, Decimal);
      assert u[|d|..] == "-g" + h;
    }
  }

  lemma LexTailComplete(rc: string, d: string, h: string)
    requires RcGroup(rc) && DistanceGroup(d, h)
    ensures LexTail(RcText(rc) + DistanceText(d, h)) == Some((rc, d, h))
  {
    if rc != "" {
      CandidateTail(rc, d, h);
    } else {
      ReleaseTail(d, h);
    }
  }

  lemma CandidateTail(rc: string, d: string, h: string)
    requires Digits(rc) && DistanceGroup(d, h)
    ensures LexTail(RcText(rc) + DistanceText(d, h)) == Some((rc, d, h))
  {
    var dt := DistanceText(d, h);
    var t := "-rc" + (rc + dt);
    ConcatAssociates("-rc", rc, dt);
    LexDistanceComplete(d, h);
    CandidateTailText(rc, d, h, t);
  }

  lemma ConcatAssociates(a: string, b: string, c: string)
    ensures (a + b) + c == a + (b + c)
  {
  }

  lemma CandidateTailText(rc: string, d: string, h: string, t: string)
    requires Digits(rc) && DistanceGroup(d, h)
    requires LexDistance(DistanceText(d, h)) == Some((d, h))
    requires t == "-rc" + (rc + DistanceText(d, h))
    ensures LexTail(t) == Some((rc, d, h))
  {
    var dt := DistanceText(d, h);
    assert t[..3] == "-rc";
    var u := t[3..];
    assert u == rc + dt;
    assert dt != [] ==> dt[0] == '-';
    SpanOfRun(rc, dt, Decimal);
    assert u[|rc|..] == dt;
  }

  lemma ReleaseTail(d: string, h: string)
    requires DistanceGroup(d, h)
    ensures LexTail(RcText("") + DistanceText(d, h)) == Some(("", d, h))
  {
    var t := DistanceText(d, h);
    assert RcText("") + t == t;
    LexDistanceComplete(d, h);
    if d != "" {
      ReleaseTailText(d, h, t);
    }
  }

  lemma ReleaseTailText(d: string, h: string, t: string)
    requires d != "" && DistanceGroup(d, h)
    requires LexDistance(DistanceText(d, h)) == Some((d, h))
    requires t == DistanceText(d, h)
    ensures LexTail(t) == Some(("", d, h))
  {
    assert t[1] == d[0] && IsDigit(d[0]);
    assert |t| >= 3 ==> t[..3][1] == t[1];
  }

  lemma LexPatchComplete(patch: string, rc: string, d: string, h: string)
    requires Digits(patch) && RcGroup(rc) && DistanceGroup(d, h)
    ensures LexPatch(patch + (RcText(rc) + DistanceText(d, h))) == Some((patch, rc, d, h))
  {
    var tail := RcText(rc) + DistanceText(d, h);
    assert tail != [] ==> tail[0] == '-';
    SpanOfRun(patch, tail, Decimal);
    assert (patch + tail)[|patch|..] == tail;
    LexTailComplete(rc, d, h);
  }

  /** After a valid prefix, a text that starts with a digit is scanned as the numbers that follow the prefix. */
  lemma LexAfterPrefix(p: string, a: string)
    requires ValidPrefix(p)
    requires |a| > 0 && IsDigit(a[0])
    ensures Lex(p + a) == LexNumbers(p, a)
  {
    var s := p + a;
    if p == "" {
      assert s[0] == a[0];
    } else {
      assert s[..1] == p;
    }
    var q := if |s| > 0 && (s[0] == 'v' || s[0] == 'V') then s[..1] else "";
    assert q == p;
    assert s[|q|..] == a;
  }

  /** Every well-formed match is scanned back into exactly its own groups. */
  lemma LexComplete(m: Match)
    requires WellFormed(m)
    ensures Lex(Render(m)) == Some(m)
  {
    var s := Render(m);
    var afterMinor := m.patch + (RcText(m.rc) + DistanceText(m.distance, m.hash));
    var afterMajor := m.minor + ("." + afterMinor);
    var a := m.major + ("." + afterMajor);
    RenderNested(m);
    LexAfterPrefix(m.prefix, a);
    LexNumberDotComplete(m.major, afterMajor);
    LexNumberDotComplete(m.minor, afterMinor);
    LexPatchComplete(m.patch, m.rc, m.distance, m.hash);
  }

  // ---------------------------------------------------------------------------
  // FromString and String

  /** `FromString`: a describe string becomes a version, or an error naming the string. */
  function FromString(s: string): (r: ParseResult)
    ensures r.Err? ==> r.input == s
    ensures r.Ok? ==> InGrammar(s) && ValidPrefix(r.version.prefix)
  {
    match Lex(s)
    case None => Err(s)
    case Some(m) =>
      assert WellFormed(m) && Render(m) == s;
      Ok(SemVer(m.prefix,
                DecimalValue(m.major), DecimalValue(m.minor), DecimalValue(m.patch),
                if m.rc != "" then DecimalValue(m.rc) else 0,
                if m.distance != "" then DecimalValue(m.distance) else 0))
  }

  /** A string parses if and only if the whole of it is in the anchored grammar. */
  lemma ParseAcceptsExactlyGrammar(s: string)
    ensures FromString(s).Ok? <==> InGrammar(s)
  {
    if InGrammar(s) {
      var m :| WellFormed(m) && Render(m) == s;
      LexComplete(m);
    }
  }

  /**
   The parsed fields are the values of the groups: an absent rc group gives rc 0,
   an absent distance group gives distance 0, and the hash is not kept.
   */
  lemma ParseReadsGroups(m: Match)
    requires WellFormed(m)
    ensures FromString(Render(m)) == Ok(SemVer(m.prefix,
      DecimalValue(m.major), DecimalValue(m.minor), DecimalValue(m.patch),
      if m.rc == "" then 0 else DecimalValue(m.rc),
      if m.distance == "" then 0 else DecimalValue(m.distance)))
  {
    LexComplete(m);
  }

  /** Two describe strings that differ only in their abbreviated hash parse to the same version. */
  lemma ParseIgnoresHash(m: Match, hash: string)
    requires WellFormed(m) && m.distance != ""
    requires |hash| > 0 && All(hash, Hexadecimal)
    ensures FromString(Render(m)) == FromString(Render(m.(hash := hash)))
  {
    ParseReadsGroups(m);
    ParseReadsGroups(m.(hash := hash));
  }

  /** `String`: the tag name of a version; distance is never written and `-rc` only for a positive rc. */
  function ToString(v: SemVer): (r: string)
    ensures v.prefix <= r
    ensures '-' !in v.prefix ==> ('-' in r <==> v.rc > 0)
  {
    var out := v.prefix + NatToString(v.major) + "." + NatToString(v.minor) + "." + NatToString(v.patch);
    assert '-' !in NatToString(v.major) + "." + NatToString(v.minor) + "." + NatToString(v.patch) by {
      NoDashInNumeral(v.major);
      NoDashInNumeral(v.minor);
      NoDashInNumeral(v.patch);
    }
    if v.rc > 0 then out + "-rc" + NatToString(v.rc) else out
  }

  lemma NoDashInNumeral(n: nat)
    ensures '-' !in NatToString(n)
  {
    var r := NatToString(n);
    assert forall i :: 0 <= i < |r| ==> IsDigit(r[i]);
  }

  /** The distance is never written: versions that differ only in it format alike. */
  lemma FormatDropsDistance(v: SemVer, d: nat)
    ensures ToString(v.(commitDistance := d)) == ToString(v)
  {
  }

  /** The groups that `ToString` writes for a version. */
  function FormatMatch(v: SemVer): Match {
    Match(v.prefix, NatToString(v.major), NatToString(v.minor), NatToString(v.patch),
          if v.rc > 0 then NatToString(v.rc) else "", "", "")
  }

  /** A formatted version is a rendering of its groups, so it is in the grammar when the prefix is. */
  lemma FormatRendersMatch(v: SemVer)
    ensures ToString(v) == Render(FormatMatch(v))
    ensures ValidPrefix(v.prefix) ==> WellFormed(FormatMatch(v))
  {
  }

  /** Round trip: parsing a formatted version gives the version back, with distance 0. */
  lemma RoundTrip(v: SemVer)
    requires ValidPrefix(v.prefix)
    ensures FromString(ToString(v)) == Ok(v.(commitDistance := 0))
  {
    var m := FormatMatch(v);
    FormatRendersMatch(v);
    ParseReadsGroups(m);
    FormatMatchReadsBack(v);
  }

  /** The groups that `ToString` writes read back as the fields of the version, distance aside. */
  lemma FormatMatchReadsBack(v: SemVer)
    ensures var m := FormatMatch(v);
      Digits(m.major) && Digits(m.minor) && Digits(m.patch) && RcGroup(m.rc) && m.distance == "" &&
      SemVer(v.prefix, DecimalValue(m.major), DecimalValue(m.minor), DecimalValue(m.patch),
             if m.rc == "" then 0 else DecimalValue(m.rc), 0) == v.(commitDistance := 0)
  {
    var m := FormatMatch(v);
    assert m.rc == "" <==> v.rc == 0;
  }

  /**
   The other direction: formatting a parsed describe string gives the string
   without its distance suffix, provided its numerals have no leading zeros and
   an rc group, if present, is not zero.
   */
  lemma FormatAfterParse(m: Match)
    requires WellFormed(m)
    requires Canonical(m.major) && Canonical(m.minor) && Canonical(m.patch)
    requires m.rc == "" || (Canonical(m.rc) && m.rc != "0")
    ensures FromString(Render(m)).Ok?
    ensures ToString(FromString(Render(m)).version) == Render(m.(distance := "", hash := ""))
  {
    ParseReadsGroups(m);
    var v := SemVer(m.prefix, DecimalValue(m.major), DecimalValue(m.minor), DecimalValue(m.patch),
                    if m.rc == "" then 0 else DecimalValue(m.rc),
                    if m.distance == "" then 0 else DecimalValue(m.distance));
    assert FromString(Render(m)) == Ok(v);
    CanonicalGroupsFormat(m, v);
    FormatRendersMatch(v);
  }

  /** Canonical groups are exactly what `ToString` writes for their values. */
  lemma CanonicalGroupsFormat(m: Match, v: SemVer)
    requires WellFormed(m)
    requires Canonical(m.major) && Canonical(m.minor) && Canonical(m.patch)
    requires m.rc == "" || (Canonical(m.rc) && m.rc != "0")
    requires v.prefix == m.prefix
    requires v.major == DecimalValue(m.major) && v.minor == DecimalValue(m.minor) && v.patch == DecimalValue(m.patch)
    requires v.rc == if m.rc == "" then 0 else DecimalValue(m.rc)
    ensures FormatMatch(v) == m.(distance := "", hash := "")
  {
    NatToStringOfDecimal(m.major);
    NatToStringOfDecimal(m.minor);
    NatToStringOfDecimal(m.patch);
    if m.rc != "" {
      assert m.rc[0] != '0' by {
        assert |m.rc| == 1 ==> m.rc == [m.rc[0]];
      }
      DecimalValuePositive(m.rc);
      NatToStringOfDecimal(m.rc);
    }
  }

  // ---------------------------------------------------------------------------
  // Bump

  /**
   `Bump`: at most one of major, minor and patch takes effect, the first that is
   set; it resets the lower fields and rc. Then `rc` adds one to rc, and last
   `noRc` clears it. Prefix and distance are carried over.
   */
  function Bump(v: SemVer, major: bool, minor: bool, patch: bool, rc: bool, noRc: bool): (r: SemVer)
    ensures r.prefix == v.prefix && r.commitDistance == v.commitDistance
    ensures r.major == if major then v.major + 1 else v.major
    ensures r.minor == if major then 0 else if minor then v.minor + 1 else v.minor
    ensures r.patch == if major || minor then 0 else if patch then v.patch + 1 else v.patch
    ensures r.rc == if noRc then 0
                    else (if major || minor || patch then 0 else v.rc) + (if rc then 1 else 0)
  {
    var sv :=
      if major then v.(major := v.major + 1, minor := 0, patch := 0, rc := 0)
      else if minor then v.(minor := v.minor + 1, patch := 0, rc := 0)
      else if patch then v.(patch := v.patch + 1, rc := 0)
      else v;
    var sv := if rc then sv.(rc := sv.rc + 1) else sv;
    if noRc then sv.(rc := 0) else sv
  }

  /**
   Release order of the tool's versions: by major, minor and patch, and on the
   same numbers the release candidates in rc order come before the release
   itself (rc 0). Prefix and distance play no part.
   */
  predicate Older(a: SemVer, b: SemVer) {
    || a.major < b.major
    || (a.major == b.major && a.minor < b.minor)
    || (a.major == b.major && a.minor == b.minor && a.patch < b.patch)
    || (a.major == b.major && a.minor == b.minor && a.patch == b.patch
        && a.rc > 0 && (b.rc == 0 || a.rc < b.rc))
  }

  /**
   A bump produces a later version exactly when it raises one of the numbers or
   acts on the rc of a release candidate.
   */
  lemma BumpAdvances(v: SemVer, major: bool, minor: bool, patch: bool, rc: bool, noRc: bool)
    ensures Older(v, Bump(v, major, minor, patch, rc, noRc))
        <==> (major || minor || patch || (v.rc > 0 && (rc || noRc)))
  {
  }

  /** `rc` alone on a release starts candidates for the same numbers, which come before that release. */
  lemma RcOnReleaseGoesBack(v: SemVer)
    requires v.rc == 0
    ensures Bump(v, false, false, false, true, false) == v.(rc := 1)
    ensures Older(Bump(v, false, false, false, true, false), v)
  {
  }

  /** With every flag false the version is unchanged. */
  lemma BumpWithoutFlags(v: SemVer)
    ensures Bump(v, false, false, false, false, false) == v
  {
  }

  lemma BumpExamples()
    ensures Bump(SemVer("", 1, 2, 3, 4, 0), true, false, false, false, false) == SemVer("", 2, 0, 0, 0, 0)
    ensures Bump(SemVer("", 1, 2, 3, 0, 0), false, false, false, true, false) == SemVer("", 1, 2, 3, 1, 0)
    ensures Bump(SemVer("", 1, 2, 3, 4, 0), false, false, true, true, false) == SemVer("", 1, 2, 4, 1, 0)
    ensures Bump(SemVer("", 1, 2, 3, 4, 0), false, false, false, true, true) == SemVer("", 1, 2, 3, 0, 0)
  {
  }
}
