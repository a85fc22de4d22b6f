/** Concrete cases from the repository's test suites
    (tests/SemanticVersionTest.php, tests/PHPFeatureTest.php), stated about
    the model. */
module Scenarios {
  import opened Wrappers
  import opened PhpText
  import opened VersionPattern
  import opened SemVer
  import opened Registry
  import opened KnownFeatures
  import opened Features

  /** The plain release `major.minor.patch`. */
  function Release(major: nat, minor: nat, patch: nat): Version {
    Version(major, minor, patch, "", "")
  }

  // ---------------------------------------------------------------------
  // Versions

  /** A text that starts with something other than a digit is rejected in
      both modes. */
  lemma LeadingNonDigitRejected(text: string, partial: bool)
    requires text != [] && !IsTrimChar(text[0]) && !IsTrimChar(text[|text| - 1]) && !IsDigit(text[0])
    ensures Parse(TextVersion(text), partial) == Failure(NoMatch(text))
  {
    TrimOfTrimmed(text);
    NoLeadingDigitRejected(text, partial);
  }

  /** The texts the version tests expect to be rejected in either mode. */
  lemma NonVersionsRejected(text: string, partial: bool)
    requires text in {"nonsense", ".1.2.3", "-alpha", "+20160101"}
    ensures Parse(TextVersion(text), partial) == Failure(NoMatch(text))
  {
    LeadingNonDigitRejected(text, partial);
  }

  /** The pattern has room for three numbers only. */
  lemma ExtraNumberUnmatched(m: Match, extra: string)
    requires WellFormed(m) && m.patch.Some? && m.preRelease.None? && m.build.None?
    requires extra != [] && AllIn(extra, Digits)
    ensures MatchVersion(Render(m) + "." + extra) == None
  {
    var text := Render(m) + "." + extra;
    var rest := "." + extra;
    var tail := Tagged('.', m.minor) + (Tagged('.', m.patch) + rest);
    assert text == m.major + tail;
    RunOfConcat(m.major, tail, Digits);
    assert text[|m.major|..] == tail;
    OptionalOfTagged('.', m.minor, Tagged('.', m.patch) + rest, Digits, true);
    OptionalOfTagged('.', m.patch, rest, Digits, true);
    assert Optional(rest, '-', LabelChars, false) == Piece(None, rest);
    assert Optional(rest, '+', LabelChars, false) == Piece(None, rest);
  }

  /** A fourth number, as in `1.2.3.4`, is rejected in both modes. */
  lemma FourNumbersRejected(m: Match, extra: string, partial: bool)
    requires WellFormed(m) && m.patch.Some? && m.preRelease.None? && m.build.None?
    requires extra != [] && AllIn(extra, Digits)
    ensures var text := Render(m) + "." + extra;
      Parse(TextVersion(text), partial) == Failure(NoMatch(text))
  {
    var text := Render(m) + "." + extra;
    assert text[0] == m.major[0] && text[|text| - 1] == extra[|extra| - 1];
    TrimOfTrimmed(text);
    ExtraNumberUnmatched(m, extra);
    RejectsExactlyNonMatching(TextVersion(text), partial);
  }

  /** `1` and `1.2` are rejected outside partial mode. */
  lemma PartialVersionsRejected(text: string)
    requires text in {"1", "1.2"}
    ensures Parse(TextVersion(text), false) == Failure(PartialRejected(text))
  {
    var m := if text == "1" then Match("1", None, None, None, None) else Match("1", Some("2"), None, None, None);
    assert Render(m) == text;
    NonPartialRejects(m);
  }

  /** `1.2` is `1.2.0` in partial mode. */
  lemma MajorMinorPartial()
    ensures Parse(TextVersion("1.2"), true) == Success(Release(1, 2, 0))
  {
    var m := Match("1", Some("2"), None, None, None);
    assert WellFormed(m);
    assert Render(m) == "1.2";
    assert MatchedVersion(m) == Release(1, 2, 0) by {
      assert DigitsValue("1") == 1 && DigitsValue("2") == 2;
    }
    ParseRender(m, true);
  }

  /** `1-alpha` is accepted even outside partial mode, as `1.0.0-alpha`. */
  lemma MajorPreReleaseText()
    ensures Parse(TextVersion("1-alpha"), false) == Success(Version(1, 0, 0, "alpha", ""))
  {
    var m := Match("1", None, None, Some("alpha"), None);
    assert WellFormed(m);
    assert Render(m) == "1-alpha";
    assert MatchedVersion(m) == Version(1, 0, 0, "alpha", "") by {
      assert DigitsValue("1") == 1;
    }
    FullMatchCaptures(m);
    ParseRender(m, false);
  }

  /** A non-negative integer is read as its decimal string, a lone major
      number: `n.0.0` in partial mode, rejected outside it (the integer 25 of
      the version tests). */
  lemma IntegerIsMajorOnly(n: nat)
    ensures Parse(IntVersion(n), true) == Success(Release(n, 0, 0))
    ensures Parse(IntVersion(n), false) == Failure(PartialRejected(NatToString(n)))
  {
    var m := Match(NatToString(n), None, None, None, None);
    assert Render(m) == NatToString(n);
    IntegerIsDecimalText(n, true);
    IntegerIsDecimalText(n, false);
    ParseRender(m, true);
    DigitsValueOfNatToString(n);
    NonPartialRejects(m);
  }

  // ---------------------------------------------------------------------
  // Features

  /** An operator token followed by the canonical text of a version splits
      back into the two. */
  lemma SplitsFormatted(token: string, v: Version)
    requires OperatorOf(token).Some? && CanonicalVersion(v)
    ensures ParseRequirement(token + Format(v)) == Some(Requirement(token, OperatorOf(token).value, Format(v)))
  {
    var text := Format(v);
    FormattedMilestone(v);
    OperatorTokenHasNoDigit(token);
    assert !IsTrimChar(token[0]);
    var requirement := token + text;
    assert requirement[|requirement| - 1] == text[|text| - 1];
    TrimOfTrimmed(requirement);
    ParseRequirementComplete(requirement, token, text);
  }

  /** The canonical text of a version starts with a digit and holds no white
      space. */
  lemma FormattedMilestone(v: Version)
    requires CanonicalVersion(v)
    ensures var text := Format(v);
      text != [] && IsDigit(text[0]) && !IsTrimChar(text[|text| - 1]) && '\n' !in text
  {
    var m := FormatMatch(v);
    var text := Format(v);
    FormatIsRender(v);
    RenderIsTrimmed(m);
    assert text[0] == m.major[0];
    assert '\n' !in text by {
      forall i | 0 <= i < |text| ensures text[i] != '\n' {
        assert !IsTrimChar(text[i]);
      }
    }
  }

  lemma ResolveOfParts(requirement: string, p: Requirement, v: Version)
    requires ParseRequirement(requirement) == Some(p)
    requires Parse(TextVersion(p.milestone), true) == Success(v)
    ensures Resolve(requirement) == Success(Resolved(p.op, p.milestone, v))
  {
  }

  /** A requirement written as an operator token followed by the canonical
      text of a version resolves to that operator and version. */
  lemma ResolvesFormatted(token: string, op: Operator, v: Version)
    requires OperatorOf(token) == Some(op) && CanonicalVersion(v)
    ensures Resolve(token + Format(v)) == Success(Resolved(op, Format(v), v))
  {
    SplitsFormatted(token, v);
    FormatParse(v, true);
    ResolveOfParts(token + Format(v), Requirement(token, op, Format(v)), v);
  }

  /** A single requirement holds exactly when its own check does. */
  lemma SingleRequirementHolds(target: Version, requirement: string)
    ensures RequirementsHold(target, [requirement]) == RequirementCheck(target, requirement)
  {
    assert [requirement][..0] == [];
  }

  /** A feature with a single requirement is supported exactly by the
      targets that satisfy it. */
  lemma SingleRequirementSupport(config: Config, feature: string, target: Version, r: Resolved)
    requires feature in config && config[feature].OneRequirement?
    requires Resolve(config[feature].requirement) == Success(r)
    ensures FeatureSupported(config, target, feature) == Success(Satisfies(target, r.op, r.milestone))
  {
    SingleRequirementHolds(target, config[feature].requirement);
  }

  /** A release with one-digit numbers is written `a.b.c`. */
  lemma FormatRelease(a: nat, b: nat, c: nat)
    requires a < 10 && b < 10 && c < 10
    ensures Format(Release(a, b, c)) == [DigitChar(a), '.', DigitChar(b), '.', DigitChar(c)]
  {
    assert !Truthy("");
  }

  /** `namespaces` needs PHP 5.3.0. */
  lemma KnownNamespacesEntry()
    ensures "namespaces" in Known && Known["namespaces"] == OneRequirement(">=" + Format(Release(5, 3, 0)))
  {
    FormatRelease(5, 3, 0);
  }

  /** The requirement of `namespaces` resolves to `>= 5.3.0`. */
  lemma KnownNamespaces()
    ensures "namespaces" in Known && Known["namespaces"].OneRequirement?
    ensures Resolve(Known["namespaces"].requirement) == Success(Resolved(Ge, Format(Release(5, 3, 0)), Release(5, 3, 0)))
  {
    KnownNamespacesEntry();
    assert OperatorOf(">=") == Some(Ge);
    ResolvesFormatted(">=", Ge, Release(5, 3, 0));
  }

  /** `traits` needs PHP 5.4.0. */
  lemma KnownTraitsEntry()
    ensures "traits" in Known && Known["traits"] == OneRequirement(">=" + Format(Release(5, 4, 0)))
  {
    FormatRelease(5, 4, 0);
  }

  /** The requirement of `traits` resolves to `>= 5.4.0`. */
  lemma KnownTraits()
    ensures "traits" in Known && Known["traits"].OneRequirement?
    ensures Resolve(Known["traits"].requirement) == Success(Resolved(Ge, Format(Release(5, 4, 0)), Release(5, 4, 0)))
  {
    KnownTraitsEntry();
    assert OperatorOf(">=") == Some(Ge);
    ResolvesFormatted(">=", Ge, Release(5, 4, 0));
  }

  /** `namespaces` is supported exactly from 5.3.0 on. */
  lemma NamespacesFrom530(target: Version)
    ensures FeatureSupported(Known, target, "namespaces") == Success(Satisfies(target, Ge, Release(5, 3, 0)))
  {
    KnownNamespaces();
    SingleRequirementSupport(Known, "namespaces", target, Resolved(Ge, Format(Release(5, 3, 0)), Release(5, 3, 0)));
  }

  /** `traits` is supported exactly from 5.4.0 on. */
  lemma TraitsFrom540(target: Version)
    ensures FeatureSupported(Known, target, "traits") == Success(Satisfies(target, Ge, Release(5, 4, 0)))
  {
    KnownTraits();
    SingleRequirementSupport(Known, "traits", target, Resolved(Ge, Format(Release(5, 4, 0)), Release(5, 4, 0)));
  }

  /** Where the targets of the support tests stand against 5.3.0 and 5.4.0:
      5.2.9 and the pre-release 5.3.0-beta are below 5.3.0, while 5.3.0 with
      build metadata is not; 5.3.0 is below 5.4.0. */
  lemma TestTargetsOrder()
    ensures Less(Release(5, 2, 9), Release(5, 3, 0))
    ensures Less(Version(5, 3, 0, "beta", ""), Release(5, 3, 0))
    ensures !Less(Version(5, 3, 0, "", "20160101"), Release(5, 3, 0))
    ensures !Less(Release(5, 3, 0), Release(5, 3, 0))
    ensures Less(Release(5, 3, 0), Release(5, 4, 0)) && !Less(Release(5, 4, 0), Release(5, 4, 0))
  {
    LessIrreflexive(Release(5, 3, 0));
    LessIrreflexive(Release(5, 4, 0));
  }

  /** Two features are supported exactly when both are, provided neither
      check fails. */
  lemma PairSupported(config: Config, target: Version, first: string, second: string, ok1: bool, ok2: bool)
    requires FeatureSupported(config, target, first) == Success(ok1)
    requires FeatureSupported(config, target, second) == Success(ok2)
    ensures AllSupported(config, target, [first, second]) == Success(ok1 && ok2)
  {
    var features := [first, second];
    assert features[..1] == [first] && [first][..0] == [];
    assert AllSupported(config, target, [first]) == Success(ok1);
  }

  /** Meeting `>=b` implies meeting `>=a` for a lower `a`. */
  lemma AtLeastMonotone(target: Version, a: Version, b: Version)
    requires Less(a, b)
    ensures Satisfies(target, Ge, b) ==> Satisfies(target, Ge, a)
  {
    if !Less(target, b) && Less(target, a) {
      LessTransitive(target, a, b);
    }
  }

  /** `[namespaces, traits]` is supported exactly from 5.4.0 on. */
  lemma NamespacesAndTraits(target: Version)
    ensures AllSupported(Known, target, ["namespaces", "traits"]) == Success(Satisfies(target, Ge, Release(5, 4, 0)))
  {
    var ok1, ok2 := Satisfies(target, Ge, Release(5, 3, 0)), Satisfies(target, Ge, Release(5, 4, 0));
    NamespacesFrom530(target);
    TraitsFrom540(target);
    PairSupported(Known, target, "namespaces", "traits", ok1, ok2);
    TestTargetsOrder();
    AtLeastMonotone(target, Release(5, 3, 0), Release(5, 4, 0));
  }

  /** A feature the configuration does not know sets no minimum. */
  lemma UnknownFeatureNoMinimum(config: Config, feature: string)
    requires feature !in config
    ensures MinimumRequired(config, [feature]) == Success(None)
  {
    assert [feature][..0] == [];
    assert FloorOverFeatures(config, InitialFloor, [feature]) == Success(InitialFloor);
  }

  /** A feature with a single requirement raises the floor to that
      requirement's milestone, if higher. */
  lemma SingleRequirementFloor(config: Config, f: Floor, feature: string, r: Resolved)
    requires feature in config && config[feature].OneRequirement?
    requires Resolve(config[feature].requirement) == Success(r)
    ensures FloorOverFeature(config, f, feature) == Success(RaiseFloor(f, r))
  {
    var q := config[feature].requirement;
    assert RequirementsOf(config[feature]) == [q];
    assert [q][..0] == [];
    var g := RaiseFloor(f, r);
    assert FloorOver(f, [q]) == FloorOver(g, []);
  }

  /** The floors of two features, the second one first. */
  lemma PairFloor(config: Config, f: Floor, first: string, second: string, g: Floor, h: Floor)
    requires FloorOverFeature(config, f, second) == Success(g)
    requires FloorOverFeature(config, g, first) == Success(h)
    ensures FloorOverFeatures(config, f, [first, second]) == Success(h)
  {
    var features := [first, second];
    assert features[..1] == [first] && [first][..0] == [];
    assert FloorOverFeatures(config, g, [first]) == Success(h);
  }

  /** `traits` lifts the initial floor to 5.4.0. */
  lemma TraitsFloor()
    ensures FloorOverFeature(Known, InitialFloor, "traits") == Success(Floor(Format(Release(5, 4, 0)), Release(5, 4, 0)))
  {
    var v := Release(5, 4, 0);
    var r := Resolved(Ge, Format(v), v);
    KnownTraits();
    assert Less(Zero, v);
    assert RaiseFloor(InitialFloor, r) == Floor(Format(v), v);
    SingleRequirementFloor(Known, InitialFloor, "traits", r);
  }

  /** `namespaces` leaves a 5.4.0 floor alone. */
  lemma NamespacesUnderFloor()
    ensures var g := Floor(Format(Release(5, 4, 0)), Release(5, 4, 0));
      FloorOverFeature(Known, g, "namespaces") == Success(g)
  {
    var v := Release(5, 3, 0);
    var r := Resolved(Ge, Format(v), v);
    var g := Floor(Format(Release(5, 4, 0)), Release(5, 4, 0));
    KnownNamespaces();
    assert !Less(g.version, v);
    assert RaiseFloor(g, r) == g;
    SingleRequirementFloor(Known, g, "namespaces", r);
  }

  /** Over `[namespaces, traits]` the floor ends at 5.4.0. */
  lemma NamespacesAndTraitsFloor()
    ensures FloorOverFeatures(Known, InitialFloor, ["namespaces", "traits"]) == Success(Floor(Format(Release(5, 4, 0)), Release(5, 4, 0)))
  {
    var v := Release(5, 4, 0);
    var g := Floor(Format(v), v);
    TraitsFloor();
    NamespacesUnderFloor();
    PairFloor(Known, InitialFloor, "namespaces", "traits", g, g);
  }

  /** `getMinimumRequired(['namespaces', 'traits'])` is 5.4.0. */
  lemma MinimumOfNamespacesAndTraits()
    ensures MinimumRequired(Known, ["namespaces", "traits"]) == Success(Some(Release(5, 4, 0)))
  {
    NamespacesAndTraitsFloor();
    assert Format(Release(5, 4, 0)) != "0.0.0" by {
      assert Format(Release(5, 4, 0))[0] == '5';
    }
  }

  /** `namespaces` lifts the initial floor to 5.3.0. */
  lemma NamespacesFloor()
    ensures FloorOverFeature(Known, InitialFloor, "namespaces") == Success(Floor(Format(Release(5, 3, 0)), Release(5, 3, 0)))
  {
    var v := Release(5, 3, 0);
    var r := Resolved(Ge, Format(v), v);
    KnownNamespaces();
    assert Less(Zero, v);
    assert RaiseFloor(InitialFloor, r) == Floor(Format(v), v);
    SingleRequirementFloor(Known, InitialFloor, "namespaces", r);
  }

  /** `getMinimumRequired('namespaces')` is 5.3.0. */
  lemma MinimumOfNamespaces()
    ensures MinimumRequired(Known, ["namespaces"]) == Success(Some(Release(5, 3, 0)))
  {
    NamespacesFloor();
    assert ["namespaces"][..0] == [];
    assert Format(Release(5, 3, 0)) != "0.0.0" by {
      assert Format(Release(5, 3, 0))[0] == '5';
    }
  }

  /** With a configuration whose feature has the single requirement
      `<token><milestone>`, the minimum required version is the milestone
      itself, whatever the operator: `>5.0.0` gives 5.0.0 and `<7.0.2` gives
      7.0.2, because the required version of a requirement is its milestone
      unchanged. */
  lemma MinimumOfSingleRequirement(config: Config, feature: string, token: string, op: Operator, v: Version)
    requires OperatorOf(token) == Some(op) && CanonicalVersion(v) && Less(Zero, v)
    requires feature in config && config[feature] == OneRequirement(token + Format(v))
    ensures MinimumRequired(config, [feature]) == Success(Some(v))
  {
    var r := Resolved(op, Format(v), v);
    ResolvesFormatted(token, op, v);
    SingleRequirementFloor(config, InitialFloor, feature, r);
    assert RaiseFloor(InitialFloor, r) == Floor(Format(v), v);
    assert [feature][..0] == [];
    assert FloorOverFeatures(config, InitialFloor, [feature]) == Success(Floor(Format(v), v));
    FormatNotInitial(v);
  }

  /** Only `0.0.0` is written `0.0.0`. */
  lemma FormatNotInitial(v: Version)
    requires CanonicalVersion(v) && Less(Zero, v)
    ensures Format(v) != "0.0.0"
  {
    FormatParse(v, true);
    InitialTextIsZero();
    LessIrreflexive(Zero);
  }
}
