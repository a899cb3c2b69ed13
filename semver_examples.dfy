/**
 The cases of internal/semver/main_test.go and a few more, stated as lemmas
 about the model: concrete describe strings, their parses and their formats,
 and the shapes of text the pattern rejects.
 */
module SemverExamples {
  import opened Wrappers
  import opened Text
  import opened Semver

  /*
   The cases of TestFromString, one lemma each. The describe string is a
   parameter fixed by the precondition, and its groups, their values and the
   parse are proved in separate steps, which keeps the verifier from unfolding
   the scanner on the literal character by character.
   */

  /** The values of the numerals in the examples. */
  lemma SmallNumerals()
    ensures DecimalValue("0") == 0 && DecimalValue("1") == 1 && DecimalValue("2") == 2
    ensures DecimalValue("3") == 3 && DecimalValue("4") == 4 && DecimalValue("5") == 5
    ensures DecimalValue("01") == 1
  {
  }

  lemma ParseSimpleWithPrefixGroups(s: string)
    requires s == "v1.2.3"
    ensures Render(Match("v", "1", "2", "3", "", "", "")) == s
  {
  }

  lemma ParseSimpleWithPrefix(s: string)
    requires s == "v1.2.3"
    ensures FromString(s) == Ok(SemVer("v", 1, 2, 3, 0, 0))
  {
    SmallNumerals();
    ParseSimpleWithPrefixGroups(s);
    assert WellFormed(Match("v", "1", "2", "3", "", "", ""));
    ParseReadsGroups(Match("v", "1", "2", "3", "", "", ""));
  }

  lemma ParseSimpleNoPrefixGroups(s: string)
    requires s == "1.2.3"
    ensures Render(Match("", "1", "2", "3", "", "", "")) == s
  {
  }

  lemma ParseSimpleNoPrefix(s: string)
    requires s == "1.2.3"
    ensures FromString(s) == Ok(SemVer("", 1, 2, 3, 0, 0))
  {
    SmallNumerals();
    ParseSimpleNoPrefixGroups(s);
    assert WellFormed(Match("", "1", "2", "3", "", "", ""));
    ParseReadsGroups(Match("", "1", "2", "3", "", "", ""));
  }

  lemma ParseReleaseCandidateGroups(s: string)
    requires s == "1.2.3-rc4"
    ensures Render(Match("", "1", "2", "3", "4", "", "")) == s
  {
  }

  lemma ParseReleaseCandidate(s: string)
    requires s == "1.2.3-rc4"
    ensures FromString(s) == Ok(SemVer("", 1, 2, 3, 4, 0))
  {
    SmallNumerals();
    ParseReleaseCandidateGroups(s);
    assert WellFormed(Match("", "1", "2", "3", "4", "", ""));
    ParseReadsGroups(Match("", "1", "2", "3", "4", "", ""));
  }

  lemma ParseCommitDistanceGroups(s: string)
    requires s == "1.2.3-5-gabcdef"
    ensures Render(Match("", "1", "2", "3", "", "5", "abcdef")) == s
  {
  }

  lemma ParseCommitDistance(s: string)
    requires s == "1.2.3-5-gabcdef"
    ensures FromString(s) == Ok(SemVer("", 1, 2, 3, 0, 5))
  {
    SmallNumerals();
    ParseCommitDistanceGroups(s);
    assert WellFormed(Match("", "1", "2", "3", "", "5", "abcdef"));
    ParseReadsGroups(Match("", "1", "2", "3", "", "5", "abcdef"));
  }

  lemma ParseReleaseCandidateAndDistanceGroups(s: string)
    requires s == "1.2.3-rc4-5-gabcdef"
    ensures Render(Match("", "1", "2", "3", "4", "5", "abcdef")) == s
  {
  }

  lemma ParseReleaseCandidateAndDistance(s: string)
    requires s == "1.2.3-rc4-5-gabcdef"
    ensures FromString(s) == Ok(SemVer("", 1, 2, 3, 4, 5))
  {
    SmallNumerals();
    ParseReleaseCandidateAndDistanceGroups(s);
    assert WellFormed(Match("", "1", "2", "3", "4", "5", "abcdef"));
    ParseReadsGroups(Match("", "1", "2", "3", "4", "5", "abcdef"));
  }

  /** The cases of TestString. */
  lemma FormatExamples()
    ensures ToString(SemVer("v", 1, 2, 3, 0, 0)) == "v1.2.3"
    ensures ToString(SemVer("", 1, 2, 3, 0, 0)) == "1.2.3"
    ensures ToString(SemVer("", 1, 2, 3, 4, 0)) == "1.2.3-rc4"
    ensures ToString(SemVer("", 1, 2, 3, 0, 5)) == "1.2.3"
    ensures ToString(SemVer("", 1, 2, 3, 4, 5)) == "1.2.3-rc4"
  {
  }

  /** Text that is not a version at all is rejected. */
  lemma RejectNotAVersion()
    ensures FromString("not-a-version") == Err("not-a-version")
  {
  }

  /** A partial match, two numbers only, is rejected. */
  lemma RejectTwoNumbers()
    ensures FromString("1.2") == Err("1.2")
  {
    assert LexNumberDot("2") == None;
  }

  /** Once the scan of the patch and the optional groups fails, the whole describe string is rejected. */
  lemma RejectAtPatch(p: string, major: string, minor: string, afterMinor: string)
    requires ValidPrefix(p) && Digits(major) && Digits(minor)
    requires LexPatch(afterMinor) == None
    ensures FromString(p + (major + ("." + (minor + ("." + afterMinor))))).Err?
  {
    LexAfterPrefix(p, major + ("." + (minor + ("." + afterMinor))));
    LexNumberDotComplete(major, minor + ("." + afterMinor));
    LexNumberDotComplete(minor, afterMinor);
  }

  /** Once the scan of the optional groups fails, so does the scan of the patch in front of them. */
  lemma RejectAtTail(patch: string, tail: string)
    requires Digits(patch)
    requires LexTail(tail) == None && (tail == [] || tail[0] == '-')
    ensures LexPatch(patch + tail) == None
  {
    SpanOfRun(patch, tail, Decimal);
    assert (patch + tail)[|patch|..] == tail;
  }

  /** An `-rc` group without digits is rejected, whatever the numbers are. */
  lemma RejectEmptyRc(p: string, major: string, minor: string, patch: string)
    requires ValidPrefix(p) && Digits(major) && Digits(minor) && Digits(patch)
    ensures FromString(p + (major + ("." + (minor + ("." + (patch + "-rc")))))).Err?
  {
    var t := "-rc";
    assert LexTail(t) == None by {
      assert |t| >= 3 && t[..3] == "-rc" && t[3..] == [];
    }
    RejectAtTail(patch, t);
    RejectAtPatch(p, major, minor, patch + t);
  }

  /** The distance group needs `-g` and the hash after its digits. */
  lemma DistanceNeedsHash(d: string)
    requires Digits(d)
    ensures LexDistance("-" + d) == None
  {
    var t := "-" + d;
    SpanOfRun(d, "", Decimal);
    assert t[1..] == d + "";
  }

  /** The optional groups of a distance without a hash, with or without an rc group, fail to scan. */
  lemma TailWithoutHash(rc: string, d: string)
    requires RcGroup(rc) && Digits(d)
    ensures LexTail(RcText(rc) + ("-" + d)) == None
  {
    var dt := "-" + d;
    DistanceNeedsHash(d);
    if rc != "" {
      assert dt[..1] == "-";
      assert RcText(rc) + dt == "-rc" + (rc + dt);
      CandidateWithoutHash(rc, dt);
    } else {
      assert RcText(rc) + dt == dt;
      ReleaseWithoutHash(d);
    }
  }

  lemma ReleaseWithoutHash(d: string)
    requires Digits(d) && LexDistance("-" + d) == None
    ensures LexTail("-" + d) == None
  {
    var dt := "-" + d;
    assert dt[1] == d[0];
    assert |dt| >= 3 ==> dt[..3][1] == dt[1];
  }

  lemma CandidateWithoutHash(rc: string, dt: string)
    requires Digits(rc) && LexDistance(dt) == None && dt[..1] == "-"
    ensures LexTail("-rc" + (rc + dt)) == None
  {
    var t := "-rc" + (rc + dt);
    assert t[..3] == "-rc";
    var u := t[3..];
    assert u == rc + dt;
    assert dt[0] == '-';
    SpanOfRun(rc, dt, Decimal);
    assert u[|rc|..] == dt;
  }

  /** A distance that is not followed by `-g` and the hash is rejected, with or without an rc group. */
  lemma RejectDistanceWithoutHash(p: string, major: string, minor: string, patch: string, rc: string, d: string)
    requires ValidPrefix(p) && Digits(major) && Digits(minor) && Digits(patch)
    requires RcGroup(rc) && Digits(d)
    ensures FromString(p + (major + ("." + (minor + ("." + (patch + (RcText(rc) + ("-" + d)))))))).Err?
  {
    var tail := RcText(rc) + ("-" + d);
    TailWithoutHash(rc, d);
    assert tail[0] == '-';
    RejectAtTail(patch, tail);
    RejectAtPatch(p, major, minor, patch + tail);
  }

  lemma FormatNormalisesGroups(s: string)
    requires s == "v01.2.3-rc0-4-g1f"
    ensures Render(Match("v", "01", "2", "3", "0", "4", "1f")) == s
  {
  }

  /** Formatting is lossy beyond the distance: leading zeros and a zero rc group are not written back. */
  lemma FormatNormalises(s: string)
    requires s == "v01.2.3-rc0-4-g1f"
    ensures FromString(s) == Ok(SemVer("v", 1, 2, 3, 0, 4))
    ensures ToString(SemVer("v", 1, 2, 3, 0, 4)) == "v1.2.3"
  {
    SmallNumerals();
    FormatNormalisesGroups(s);
    assert WellFormed(Match("v", "01", "2", "3", "0", "4", "1f"));
    ParseReadsGroups(Match("v", "01", "2", "3", "0", "4", "1f"));
    FormatOfRelease();
  }

  lemma FormatOfRelease()
    ensures ToString(SemVer("v", 1, 2, 3, 0, 4)) == "v1.2.3"
  {
  }

}
