/** `SemanticVersion` (src/SemanticVersion.php): a strict parser and normaliser
    for `major[.minor[.patch]][-pre-release][+build]`.

    The pure part of the module states what the class computes: which texts
    are accepted (`ValidatedComponents`), what the getters then report
    (`Reported`, `Parse`) and the canonical string (`Format`). The class
    `SemanticVersion` keeps the source's imperative shape: the constructor
    trims and matches the input, fills the `components` dictionary with five
    successive `SetComponent` writes and finally stores the canonical string.

    The module also defines the order on versions that the requirement engine
    uses wherever the source calls PHP's `version_compare`. */
module SemVer {
  import opened Wrappers
  import opened PhpText
  import opened VersionPattern

  /** A version as its getters report it: `getMajor()`, `getMinor()`,
      `getPatch()`, `getPreRelease()`, `getBuild()`. */
  datatype Version = Version(major: nat, minor: nat, patch: nat, preRelease: string, build: string)

  /** `0.0.0`, the version of a `null` input. */
  const Zero := Version(0, 0, 0, "", "")

  /** The two `RuntimeException`s of `validate`, with the trimmed text. */
  datatype ParseError =
    | NoMatch(text: string)          // the pattern does not match
    | PartialRejected(text: string)  // a partial version outside partial mode

  /** What the constructor may be given: `null`, an integer or a string. */
  datatype VersionInput = NoVersion | IntVersion(i: int) | TextVersion(s: string)

  /** The text `validate` works on: `null` becomes `'0.0.0'`, and `trim()`
      casts an integer to its decimal string. */
  function InputText(input: VersionInput): string {
    match input
    case NoVersion => "0.0.0"
    case IntVersion(i) => IntToString(i)
    case TextVersion(s) => s
  }

  /** The keys of the `$components` dictionary. */
  datatype Level = MajorLevel | MinorLevel | PatchLevel | PreReleaseLevel | BuildLevel

  /** A stored component: the numeric levels hold integers, the others strings. */
  datatype Component = Number(n: nat) | Label(s: string)

  type Components = map<Level, Component>

  /** `getComponent($level)`: the stored value, `null` when the key is absent. */
  function ComponentOf(c: Components, level: Level): Option<Component> {
    if level in c then Some(c[level]) else None
  }

  /** `(int)$value ?: 0` as the numeric getters apply it. Only numbers are ever
      stored under a numeric level. */
  function NumberOf(o: Option<Component>): nat {
    match o
    case Some(Number(n)) => n
    case _ => 0
  }

  /** `(string)$value ?: ''` as the label getters apply it: `null`, `''` and
      `'0'` all come out as `''`. */
  function LabelOf(o: Option<Component>): (s: string)
    ensures s != "0"
  {
    var text := match o
      case None => ""
      case Some(Label(l)) => l
      case Some(Number(n)) => NatToString(n);
    if Truthy(text) then text else ""
  }

  /** What the five getters report for a dictionary of components. */
  function Reported(c: Components): (v: Version)
    ensures v.preRelease != "0" && v.build != "0"
  {
    Version(
      NumberOf(ComponentOf(c, MajorLevel)),
      NumberOf(ComponentOf(c, MinorLevel)),
      NumberOf(ComponentOf(c, PatchLevel)),
      LabelOf(ComponentOf(c, PreReleaseLevel)),
      LabelOf(ComponentOf(c, BuildLevel)))
  }

  /** The array `preg_match` fills in has a minor and a patch entry:
      `isset($components[2]) && isset($components[3])`. */
  predicate HasMinorAndPatch(c: seq<string>) {
    2 < |c| && 3 < |c|
  }

  /** The five values `validate` passes to `setComponent`, read off the
      `$components` array of a match. */
  function StoredComponents(c: seq<string>): (stored: Components)
    ensures Typed(stored)
  {
    map[
      MajorLevel := Number(if 1 < |c| then DigitsValue(c[1]) else 0),
      MinorLevel := Number(if 2 < |c| then DigitsValue(c[2]) else 0),
      PatchLevel := Number(if 3 < |c| then DigitsValue(c[3]) else 0),
      PreReleaseLevel := Label(if 4 < |c| then c[4] else ""),
      BuildLevel := Label(if 5 < |c| then c[5] else "")]
  }

  /** The dictionary `validate` stores for `text`, or the exception it throws. */
  function ValidatedComponents(text: string, partial: bool): Result<Components, ParseError> {
    ValidateTrimmed(Trim(text), partial)
  }

  /** `validate` once the input has been trimmed. */
  function ValidateTrimmed(t: string, partial: bool): Result<Components, ParseError> {
    match MatchVersion(t)
    case None => Failure(NoMatch(t))
    case Some(m) =>
      var c := Captures(m);
      if !partial && !HasMinorAndPatch(c) then
        Failure(PartialRejected(t))
      else
        Success(StoredComponents(c))
  }

  /** `validate` on a text whose trimmed form matches as `m`, when the
      partial-version check passes. */
  lemma ValidatedMatch(text: string, partial: bool, m: Match)
    requires MatchVersion(Trim(text)) == Some(m)
    requires partial || HasMinorAndPatch(Captures(m))
    ensures ValidatedComponents(text, partial) == Success(StoredComponents(Captures(m)))
  {
  }

  /** Five successive `setComponent` writes store the five stored components. */
  lemma WritesStore(base: Components, c: seq<string>)
    ensures base[MajorLevel := Number(if 1 < |c| then DigitsValue(c[1]) else 0)]
                [MinorLevel := Number(if 2 < |c| then DigitsValue(c[2]) else 0)]
                [PatchLevel := Number(if 3 < |c| then DigitsValue(c[3]) else 0)]
                [PreReleaseLevel := Label(if 4 < |c| then c[4] else "")]
                [BuildLevel := Label(if 5 < |c| then c[5] else "")]
            == StoredComponents(c)
  {
    var written := base[MajorLevel := Number(if 1 < |c| then DigitsValue(c[1]) else 0)]
                       [MinorLevel := Number(if 2 < |c| then DigitsValue(c[2]) else 0)]
                       [PatchLevel := Number(if 3 < |c| then DigitsValue(c[3]) else 0)]
                       [PreReleaseLevel := Label(if 4 < |c| then c[4] else "")]
                       [BuildLevel := Label(if 5 < |c| then c[5] else "")];
    forall l: Level
      ensures l in written && l in StoredComponents(c) && written[l] == StoredComponents(c)[l]
    {
      match l
      case MajorLevel =>
      case MinorLevel =>
      case PatchLevel =>
      case PreReleaseLevel =>
      case BuildLevel =>
    }
  }

  /** What the getters report for the components stored from a match: the
      decimal value of each captured digit run (0 for a missing minor or
      patch), and each label as captured, except that a missing label and
      the label `'0'` are both reported as `''`. */
  function MatchedVersion(m: Match): Version
  {
    Version(
      DigitsValue(m.major),
      if m.minor.Some? then DigitsValue(m.minor.value) else 0,
      if m.patch.Some? then DigitsValue(m.patch.value) else 0,
      if m.preRelease.Some? && Truthy(m.preRelease.value) then m.preRelease.value else "",
      if m.build.Some? && Truthy(m.build.value) then m.build.value else "")
  }

  lemma ReportedMatch(m: Match)
    ensures Reported(StoredComponents(Captures(m))) == MatchedVersion(m)
  {
    var c := Captures(m);
    assert c[1] == m.major;
    assert 2 < |c| ==> c[2] == OrEmpty(m.minor);
    assert 3 < |c| ==> c[3] == OrEmpty(m.patch);
    assert 4 < |c| ==> c[4] == OrEmpty(m.preRelease);
    assert 5 < |c| ==> c[5] == OrEmpty(m.build);
  }

  /** `new SemanticVersion($input, $partial)` seen through its getters. */
  function Parse(input: VersionInput, partial: bool): Result<Version, ParseError> {
    match ValidatedComponents(InputText(input), partial)
    case Failure(e) => Failure(e)
    case Success(c) => Success(Reported(c))
  }

  /** `getVersionFromComponents()`: `major.minor.patch`, then `-pre-release`
      and `+build` when the getter reports a truthy value. */
  function Format(v: Version): string {
    var pre := if Truthy(v.preRelease) then "-" + v.preRelease else "";
    var build := if Truthy(v.build) then "+" + v.build else "";
    NatToString(v.major) + "." + NatToString(v.minor) + "." + NatToString(v.patch) + pre + build
  }

  /** The versions a successful parse can report: labels made of
      `[0-9A-Za-z-]` and never `'0'`. */
  predicate CanonicalVersion(v: Version) {
    && AllIn(v.preRelease, LabelChars) && v.preRelease != "0"
    && AllIn(v.build, LabelChars) && v.build != "0"
  }

  // ---------------------------------------------------------------------
  // Properties of parsing and formatting

  /** After a successful parse the getters report `MatchedVersion` of the
      match of the trimmed text. */
  lemma ReportedValues(input: VersionInput, partial: bool)
    requires Parse(input, partial).Success?
    ensures MatchVersion(Trim(InputText(input))).Some?
    ensures Parse(input, partial).value == MatchedVersion(MatchVersion(Trim(InputText(input))).value)
  {
    var t := Trim(InputText(input));
    assert ValidatedComponents(InputText(input), partial) == ValidateTrimmed(t, partial);
    var m := MatchVersion(t).value;
    assert ValidateTrimmed(t, partial) == Success(StoredComponents(Captures(m)));
    ReportedMatch(m);
  }

  /** A text the pattern does not match is rejected in both modes, and only
      such a text is rejected in partial mode. */
  lemma RejectsExactlyNonMatching(input: VersionInput, partial: bool)
    ensures Parse(input, partial) == Failure(NoMatch(Trim(InputText(input))))
            <==> MatchVersion(Trim(InputText(input))).None?
    ensures partial ==> (Parse(input, partial).Success? <==> MatchVersion(Trim(InputText(input))).Some?)
  {
    var t := Trim(InputText(input));
    assert ValidatedComponents(InputText(input), partial) == ValidateTrimmed(t, partial);
    if MatchVersion(t).Some? {
      var m := MatchVersion(t).value;
      assert ValidateTrimmed(t, partial) != Failure(NoMatch(t));
      assert partial ==> ValidateTrimmed(t, partial) == Success(StoredComponents(Captures(m)));
    }
  }

  /** Outside partial mode a matching text is accepted exactly when it has a
      patch number, a pre-release or a build part: `1` and `1.2` are
      rejected, while `1-alpha` and `1.2+20160101` are accepted, because PHP
      reports a skipped group as `''` once a later group took part. */
  lemma NonPartialAcceptance(input: VersionInput)
    requires MatchVersion(Trim(InputText(input))).Some?
    ensures var m := MatchVersion(Trim(InputText(input))).value;
            Parse(input, false).Success? <==> m.patch.Some? || m.preRelease.Some? || m.build.Some?
  {
  }

  /** Every version a parse reports is canonical. */
  lemma ParseIsCanonical(input: VersionInput, partial: bool)
    requires Parse(input, partial).Success?
    ensures CanonicalVersion(Parse(input, partial).value)
  {
    ReportedValues(input, partial);
    MatchVersionSound(Trim(InputText(input)));
  }

  /** The match whose rendering is the canonical string. */
  function FormatMatch(v: Version): Match {
    Match(NatToString(v.major), Some(NatToString(v.minor)), Some(NatToString(v.patch)),
          if v.preRelease != "" then Some(v.preRelease) else None,
          if v.build != "" then Some(v.build) else None)
  }

  /** The canonical string of a canonical version is the text of a
      well-formed match. */
  lemma FormatIsRender(v: Version)
    requires CanonicalVersion(v)
    ensures WellFormed(FormatMatch(v)) && Format(v) == Render(FormatMatch(v))
  {
    FormatMatchWellFormed(v);
    var m := FormatMatch(v);
    var a, b, c := NatToString(v.major), NatToString(v.minor), NatToString(v.patch);
    var pre := if Truthy(v.preRelease) then "-" + v.preRelease else "";
    var build := if Truthy(v.build) then "+" + v.build else "";
    assert Tagged('-', m.preRelease) == pre && Tagged('+', m.build) == build;
    assert Tagged('.', m.minor) == "." + b && Tagged('.', m.patch) == "." + c;
    ConcatRegroup(a, b, c, pre, build);
    assert Format(v) == a + "." + b + "." + c + pre + build;
  }

  lemma ConcatRegroup(a: string, b: string, c: string, d: string, e: string)
    ensures a + "." + b + "." + c + d + e == a + (("." + b) + (("." + c) + (d + e)))
  {
  }

  lemma FormatMatchWellFormed(v: Version)
    requires CanonicalVersion(v)
    ensures WellFormed(FormatMatch(v))
  {
  }

  predicate NoTrimChars(s: string) {
    forall i | 0 <= i < |s| :: !IsTrimChar(s[i])
  }

  lemma NoTrimCharsConcat(a: string, b: string)
    requires NoTrimChars(a) && NoTrimChars(b)
    ensures NoTrimChars(a + b)
  {
    forall i | 0 <= i < |a + b| ensures !IsTrimChar((a + b)[i]) {
      if i >= |a| { assert (a + b)[i] == b[i - |a|]; }
    }
  }

  lemma NoTrimCharsTagged(tag: char, part: Option<string>, cls: CharClass)
    requires !IsTrimChar(tag) && cls != NonDigits
    requires part.Some? ==> AllIn(part.value, cls)
    ensures NoTrimChars(Tagged(tag, part))
  {
    if part.Some? { NoTrimCharsConcat([tag], part.value); }
  }

  /** The text of a match never carries surrounding white space. */
  lemma RenderIsTrimmed(m: Match)
    requires WellFormed(m)
    ensures NoTrimChars(Render(m)) && Trim(Render(m)) == Render(m)
  {
    NoTrimCharsTagged('+', m.build, LabelChars);
    NoTrimCharsTagged('-', m.preRelease, LabelChars);
    NoTrimCharsTagged('.', m.patch, Digits);
    NoTrimCharsTagged('.', m.minor, Digits);
    NoTrimCharsConcat(Tagged('-', m.preRelease), Tagged('+', m.build));
    NoTrimCharsConcat(Tagged('.', m.patch), Tagged('-', m.preRelease) + Tagged('+', m.build));
    var tail := Tagged('.', m.patch) + (Tagged('-', m.preRelease) + Tagged('+', m.build));
    NoTrimCharsConcat(Tagged('.', m.minor), tail);
    NoTrimCharsConcat(m.major, Tagged('.', m.minor) + tail);
    TrimOfTrimmed(Render(m));
  }

  /** The match built from a canonical version is well-formed and reports
      that version again; `FormatParse` lifts this to the parse round trip. */
  lemma MatchedFormat(v: Version)
    requires CanonicalVersion(v)
    ensures WellFormed(FormatMatch(v)) && MatchedVersion(FormatMatch(v)) == v
  {
    FormatIsRender(v);
    DigitsValueOfNatToString(v.major);
    DigitsValueOfNatToString(v.minor);
    DigitsValueOfNatToString(v.patch);
  }

  /** A match with a patch number, a pre-release or a build part reports
      the minor and patch groups, if only as `''`. */
  lemma FullMatchCaptures(m: Match)
    requires m.patch.Some? || m.preRelease.Some? || m.build.Some?
    ensures HasMinorAndPatch(Captures(m))
  {
    assert Group(m, 3).Some? || Group(m, 4).Some? || Group(m, 5).Some?;
  }

  /** The text of a match parses to what the match reports: always in
      partial mode, and outside it when the minor and patch groups are
      reported (see `FullMatchCaptures`). */
  lemma ParseRender(m: Match, partial: bool)
    requires WellFormed(m)
    requires partial || HasMinorAndPatch(Captures(m))
    ensures Parse(TextVersion(Render(m)), partial) == Success(MatchedVersion(m))
  {
    var r := Render(m);
    RenderIsTrimmed(m);
    MatchRender(m);
    ValidatedMatch(r, partial, m);
    ReportedMatch(m);
    assert InputText(TextVersion(r)) == r;
    assert Parse(TextVersion(r), partial) == Success(Reported(StoredComponents(Captures(m))));
  }

  /** The text of a match with neither a patch number, a pre-release nor a
      build part is rejected outside partial mode. */
  lemma NonPartialRejects(m: Match)
    requires WellFormed(m) && m.patch.None? && m.preRelease.None? && m.build.None?
    ensures Parse(TextVersion(Render(m)), false) == Failure(PartialRejected(Render(m)))
  {
    var r := Render(m);
    RenderIsTrimmed(m);
    MatchRender(m);
    assert !HasMinorAndPatch(Captures(m));
    assert ValidateTrimmed(r, false) == Failure(PartialRejected(r));
    assert ValidatedComponents(r, false) == Failure(PartialRejected(r));
  }

  /** A lone digit run is a major number only: `major.0.0` in partial mode. */
  lemma NumberIsMajorOnly(d: string)
    requires d != [] && AllIn(d, Digits)
    ensures Parse(TextVersion(d), true) == Success(Version(DigitsValue(d), 0, 0, "", ""))
  {
    var m := Match(d, None, None, None, None);
    assert Render(m) == d;
    ParseRender(m, true);
  }

  /** A text that, once trimmed, does not start with a digit is not a
      version. */
  lemma NoLeadingDigitRejected(text: string, partial: bool)
    requires Trim(text) == [] || !IsDigit(Trim(text)[0])
    ensures Parse(TextVersion(text), partial) == Failure(NoMatch(Trim(text)))
  {
    NoLeadingDigitNoMatch(Trim(text));
    RejectsExactlyNonMatching(TextVersion(text), partial);
  }

  /** The text `'0'` is version `0.0.0` in partial mode. */
  lemma LoneZeroIsZero(s: string)
    requires |s| == 1 && s[0] == '0'
    ensures Parse(TextVersion(s), true) == Success(Zero)
  {
    NumberIsMajorOnly(s);
    DigitsValueSingle(s);
  }

  /** The empty text is not a version. */
  lemma EmptyIsRejected(partial: bool)
    ensures Parse(TextVersion(""), partial) == Failure(NoMatch(""))
  {
    var e: string := [];
    assert Trim(e) == e;
    NoLeadingDigitRejected(e, partial);
  }

  lemma FormatParse(v: Version, partial: bool)
    requires CanonicalVersion(v)
    ensures Parse(TextVersion(Format(v)), partial) == Success(v)
  {
    FormatIsRender(v);
    MatchedFormat(v);
    FullMatchCaptures(FormatMatch(v));
    ParseRender(FormatMatch(v), partial);
  }

  /** Re-parsing what any successful parse formats gives the same getters. */
  lemma ReparseCanonical(input: VersionInput, partial: bool)
    requires Parse(input, partial).Success?
    ensures Parse(TextVersion(Format(Parse(input, partial).value)), false) == Parse(input, partial)
  {
    ParseIsCanonical(input, partial);
    FormatParse(Parse(input, partial).value, false);
  }

  /** A `null` input is version `0.0.0` in either mode. */
  lemma NullIsZero(partial: bool)
    ensures Parse(NoVersion, partial) == Success(Zero)
  {
    assert Format(Zero) == "0.0.0";
    FormatParse(Zero, partial);
  }

  lemma TrimIdempotent(s: string)
    ensures Trim(Trim(s)) == Trim(s)
  {
    TrimOfTrimmed(Trim(s));
  }

  /** Surrounding white space is ignored. */
  lemma SurroundingSpaceIgnored(text: string, partial: bool)
    ensures Parse(TextVersion(text), partial) == Parse(TextVersion(Trim(text)), partial)
  {
    TrimIdempotent(text);
    SameTrimmedText(TextVersion(text), TextVersion(Trim(text)), partial);
  }

  /** `parse` looks at its input only through the trimmed text. */
  lemma SameTrimmedText(a: VersionInput, b: VersionInput, partial: bool)
    requires Trim(InputText(a)) == Trim(InputText(b))
    ensures Parse(a, partial) == Parse(b, partial)
  {
    assert ValidatedComponents(InputText(a), partial) == ValidatedComponents(InputText(b), partial);
  }

  /** An integer input is parsed as its decimal string. */
  lemma IntegerIsDecimalText(i: int, partial: bool)
    ensures Parse(IntVersion(i), partial) == Parse(TextVersion(IntToString(i)), partial)
  {
    assert InputText(IntVersion(i)) == InputText(TextVersion(IntToString(i)));
  }

  // ---------------------------------------------------------------------
  // The version order

  /** Where a version sits among versions with the same numbers: one with a
      pre-release below the plain release, one with only build metadata
      above it. */
  function Rank(v: Version): nat {
    if v.preRelease != "" then 0 else if v.build == "" then 1 else 2
  }

  /** The order the model puts in place of `version_compare`: numbers first,
      then the rank, then the labels by character code. */
  predicate Less(a: Version, b: Version) {
    if a.major != b.major then a.major < b.major
    else if a.minor != b.minor then a.minor < b.minor
    else if a.patch != b.patch then a.patch < b.patch
    else if Rank(a) != Rank(b) then Rank(a) < Rank(b)
    else if a.preRelease != b.preRelease then TextLess(a.preRelease, b.preRelease)
    else TextLess(a.build, b.build)
  }

  predicate LessOrEqual(a: Version, b: Version) {
    !Less(b, a)
  }

  lemma LessIrreflexive(a: Version)
    ensures !Less(a, a)
  {
    TextLessIrreflexive(a.build);
  }

  lemma LessTransitive(a: Version, b: Version, c: Version)
    requires Less(a, b) && Less(b, c)
    ensures Less(a, c)
  {
    if a.major == b.major == c.major && a.minor == b.minor == c.minor && a.patch == b.patch == c.patch
       && Rank(a) == Rank(b) == Rank(c)
    {
      if a.preRelease != b.preRelease && b.preRelease != c.preRelease {
        TextLessTransitive(a.preRelease, b.preRelease, c.preRelease);
        if a.preRelease == c.preRelease {
          TextLessAsymmetric(a.preRelease, b.preRelease);
        }
      } else if a.preRelease == b.preRelease == c.preRelease {
        TextLessTransitive(a.build, b.build, c.build);
      }
    }
  }

  /** The order is total: two versions with the same getters are the same. */
  lemma LessTotal(a: Version, b: Version)
    ensures a == b || Less(a, b) || Less(b, a)
  {
    TextLessTotal(a.preRelease, b.preRelease);
    TextLessTotal(a.build, b.build);
  }

  lemma LessAsymmetric(a: Version, b: Version)
    requires Less(a, b)
    ensures !Less(b, a)
  {
    if a.major == b.major && a.minor == b.minor && a.patch == b.patch && Rank(a) == Rank(b) {
      if a.preRelease != b.preRelease {
        TextLessAsymmetric(a.preRelease, b.preRelease);
      } else {
        TextLessAsymmetric(a.build, b.build);
      }
    }
  }

  lemma LessOrEqualAntisymmetric(a: Version, b: Version)
    requires LessOrEqual(a, b) && LessOrEqual(b, a)
    ensures a == b
  {
    LessTotal(a, b);
  }

  lemma LessOrEqualTransitive(a: Version, b: Version, c: Version)
    requires LessOrEqual(a, b) && LessOrEqual(b, c)
    ensures LessOrEqual(a, c)
  {
    if Less(c, a) {
      LessTotal(a, b);
      if a == b {
      } else if Less(a, b) {
        LessTransitive(c, a, b);
      }
    }
  }

  /** A pre-release sorts below its release (`5.3.0-beta` below `5.3.0`). */
  lemma PreReleaseBelowRelease(v: Version)
    requires v.preRelease != ""
    ensures Less(v, v.(preRelease := "", build := ""))
  {
  }

  /** Build metadata does not sort below the plain release
      (`5.3.0+20160101` is not below `5.3.0`). */
  lemma BuildNotBelowRelease(v: Version)
    requires v.preRelease == ""
    ensures LessOrEqual(v.(build := ""), v)
  {
  }

  // ---------------------------------------------------------------------
  // The class

  /** The components every constructed object holds: one value per level, of
      the level's kind. */
  predicate Typed(c: Components) {
    && MajorLevel in c && c[MajorLevel].Number?
    && MinorLevel in c && c[MinorLevel].Number?
    && PatchLevel in c && c[PatchLevel].Number?
    && PreReleaseLevel in c && c[PreReleaseLevel].Label?
    && BuildLevel in c && c[BuildLevel].Label?
  }

  /** The components stored for an accepted input are typed, and the getters
      then report the parsed, canonical version. */
  lemma StoredParse(input: VersionInput, partial: bool)
    requires ValidatedComponents(InputText(input), partial).Success?
    ensures var c := ValidatedComponents(InputText(input), partial).value;
            && Typed(c) && Parse(input, partial) == Success(Reported(c)) && CanonicalVersion(Reported(c))
  {
    ParseIsCanonical(input, partial);
  }

  class SemanticVersion {
    /** `$version`: unset until the constructor assigns it. */
    var version: Option<string>
    /** `$components`. */
    var components: Components

    /** A constructed object: all five components stored, the getters report a
        canonical version, and `$version` is its canonical string. */
    ghost predicate Valid()
      reads this
    {
      && Typed(components)
      && CanonicalVersion(View())
      && version == Some(Format(View()))
    }

    /** The fresh object before `__construct` has run. */
    constructor Unset()
      ensures version == None && components == map[]
    {
      version := None;
      components := map[];
    }

    /** `new SemanticVersion($input, $partial)`: validates the input and keeps
        the canonical string, or throws what `validate` throws. */
    static method New(input: VersionInput, partial: bool) returns (r: Result<SemanticVersion, ParseError>)
      ensures r.Failure? ==> Parse(input, partial) == Failure(r.error)
      ensures r.Success? ==> fresh(r.value) && r.value.Valid() && Parse(input, partial) == Success(r.value.View())
    {
      var v := new SemanticVersion.Unset();
      var text := InputText(input);
      var s := v.Validate(text, partial);
      if s.Failure? {
        return Failure(s.error);
      }
      v.version := Some(s.value);
      StoredParse(input, partial);
      assert v.View() == Reported(ValidatedComponents(text, partial).value);
      return Success(v);
    }

    /** `validate($text, $partial)`: on success the five components are
        stored and the canonical string is returned; on failure nothing is
        stored. */
    method Validate(text: string, partial: bool) returns (r: Result<string, ParseError>)
      modifies this
      ensures version == old(version)
      ensures r.Failure? ==> ValidatedComponents(text, partial) == Failure(r.error) && components == old(components)
      ensures r.Success? ==> && ValidatedComponents(text, partial).Success?
                             && components == ValidatedComponents(text, partial).value
                             && r.value == Format(Reported(components))
    {
      var t := Trim(text);
      var m := MatchVersion(t);
      if m.None? {
        return Failure(NoMatch(t));
      }
      var c := Captures(m.value);
      if !partial && (!(2 < |c|) || !(3 < |c|)) {
        return Failure(PartialRejected(t));
      }
      ValidatedMatch(text, partial, m.value);
      WritesStore(components, c);
      SetComponent(MajorLevel, Number(if 1 < |c| then DigitsValue(c[1]) else 0));
      SetComponent(MinorLevel, Number(if 2 < |c| then DigitsValue(c[2]) else 0));
      SetComponent(PatchLevel, Number(if 3 < |c| then DigitsValue(c[3]) else 0));
      SetComponent(PreReleaseLevel, Label(if 4 < |c| then c[4] else ""));
      SetComponent(BuildLevel, Label(if 5 < |c| then c[5] else ""));
      r := Success(GetVersionFromComponents());
    }

    /** `setComponent($level, $value)`. */
    method SetComponent(level: Level, value: Component)
      modifies this
      ensures components == old(components)[level := value] && version == old(version)
    {
      components := components[level := value];
    }

    /** `getComponent($level)`: the stored value, `null` when not set. */
    function GetComponent(level: Level): (o: Option<Component>)
      reads this
      ensures o.Some? <==> level in components
      ensures o.Some? ==> o.value == components[level]
    {
      ComponentOf(components, level)
    }

    /** `getMajor()`: the stored number, 0 when not defined. */
    function GetMajor(): (n: nat)
      reads this
      ensures MajorLevel !in components ==> n == 0
      ensures MajorLevel in components && components[MajorLevel].Number? ==> n == components[MajorLevel].n
    {
      NumberOf(GetComponent(MajorLevel))
    }

    /** `getMinor()`: the stored number, 0 when not defined. */
    function GetMinor(): (n: nat)
      reads this
      ensures MinorLevel !in components ==> n == 0
      ensures MinorLevel in components && components[MinorLevel].Number? ==> n == components[MinorLevel].n
    {
      NumberOf(GetComponent(MinorLevel))
    }

    /** `getPatch()`: the stored number, 0 when not defined. */
    function GetPatch(): (n: nat)
      reads this
      ensures PatchLevel !in components ==> n == 0
      ensures PatchLevel in components && components[PatchLevel].Number? ==> n == components[PatchLevel].n
    {
      NumberOf(GetComponent(PatchLevel))
    }

    /** `getPreRelease()`: the stored label, `''` when not defined or `'0'`. */
    function GetPreRelease(): (s: string)
      reads this
      ensures s != "0"
      ensures PreReleaseLevel !in components ==> s == ""
      ensures PreReleaseLevel in components && components[PreReleaseLevel].Label? ==>
                s == (if Truthy(components[PreReleaseLevel].s) then components[PreReleaseLevel].s else "")
    {
      LabelOf(GetComponent(PreReleaseLevel))
    }

    /** `getBuild()`: the stored label, `''` when not defined or `'0'`. */
    function GetBuild(): (s: string)
      reads this
      ensures s != "0"
      ensures BuildLevel !in components ==> s == ""
      ensures BuildLevel in components && components[BuildLevel].Label? ==>
                s == (if Truthy(components[BuildLevel].s) then components[BuildLevel].s else "")
    {
      LabelOf(GetComponent(BuildLevel))
    }

    /** The five getters together. */
    function View(): (v: Version)
      reads this
      ensures v == Reported(components)
    {
      Version(GetMajor(), GetMinor(), GetPatch(), GetPreRelease(), GetBuild())
    }

    /** `getVersionFromComponents()`: the string built from the getters,
        which reads back as the same getters whenever they report a version a
        parse can report. */
    function GetVersionFromComponents(): (s: string)
      reads this
      ensures CanonicalVersion(View()) ==> Parse(TextVersion(s), false) == Success(View())
    {
      if CanonicalVersion(View()) then
        FormatParse(View(), false);
        Format(View())
      else
        Format(View())
    }

    /** `getVersion()` and `__toString()`: the stored string, `'0.0.0'` when unset. */
    function GetVersion(): (s: string)
      reads this
      ensures Valid() ==> s == Format(View())
      ensures version.None? ==> s == "0.0.0"
    {
      if version.Some? then version.value else "0.0.0"
    }
  }

  /** The canonical string of a constructed object parses back, outside
      partial mode, to the same getters. */
  lemma GetVersionReparses(sv: SemanticVersion)
    requires sv.Valid()
    ensures Parse(TextVersion(sv.GetVersion()), false) == Success(sv.View())
  {
    FormatParse(sv.View(), false);
  }
}
