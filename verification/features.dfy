/** `PHPFeature` (src/PHPFeature.php): checks whether a PHP version supports
    named features and computes the lowest version that supports them all.

    A feature maps, in the configuration, to one or more requirements such as
    `>=5.3.0`: an operator token followed by a version milestone. The pure
    part of the module gives the meaning of each step: `ParseRequirement`
    (the comparison pattern), `Satisfies` (the comparison), the folds
    `RequirementsHold`/`AllSupported` behind `isSupported` and
    `FloorOver`/`FloorOverFeatures`/`MinimumRequired` behind
    `getMinimumRequired`. The class `PHPFeature` keeps the source's loops,
    which pop the last element of their list until it is empty or the answer
    is known, and each loop is proved against its fold. */
module Features {
  import opened Wrappers
  import opened PhpText
  import opened SemVer
  import opened Registry
  import KnownFeatures

  // ---------------------------------------------------------------------
  // Requirements

  /** The six comparisons `version_compare` offers. */
  datatype Operator = Lt | Le | Gt | Ge | Eq | Ne

  /** The fourteen operator tokens the comparison pattern accepts, with the
      comparison each one names; any other text is not an operator. */
  function OperatorOf(token: string): Option<Operator> {
    if token == "<" || token == "lt" then Some(Lt)
    else if token == "<=" || token == "le" then Some(Le)
    else if token == ">" || token == "gt" then Some(Gt)
    else if token == ">=" || token == "ge" then Some(Ge)
    else if token == "=" || token == "==" || token == "eq" then Some(Eq)
    else if token == "!=" || token == "<>" || token == "ne" then Some(Ne)
    else None
  }

  /** No operator token is empty or holds a digit. */
  lemma OperatorTokenHasNoDigit(token: string)
    requires OperatorOf(token).Some?
    ensures token != [] && AllIn(token, NonDigits)
  {
  }

  /** A requirement split by the comparison pattern: the operator token, the
      comparison it names and the milestone text after it. */
  datatype Requirement = Requirement(token: string, op: Operator, milestone: string)

  /** `preg_match(COMPARISON_PATTERN, trim($requirement))`. The token must be
      followed by a digit, and no token holds a digit, so the token is the
      whole text before the first digit; the milestone runs from that digit
      to the end and, as `.` does not match a line feed, holds none. */
  function ParseRequirement(requirement: string): Option<Requirement> {
    var t := Trim(requirement);
    var n := Run(t, NonDigits);
    if n < |t| && OperatorOf(t[..n]).Some? && '\n' !in t[n..] then
      Some(Requirement(t[..n], OperatorOf(t[..n]).value, t[n..]))
    else
      None
  }

  /** Soundness: a parsed requirement is an operator token and a milestone
      that starts with a digit and holds no line feed, which together make up
      the trimmed text. */
  lemma ParseRequirementSound(requirement: string)
    ensures var r := ParseRequirement(requirement);
      r.Some? ==>
        && Trim(requirement) == r.value.token + r.value.milestone
        && OperatorOf(r.value.token) == Some(r.value.op)
        && r.value.milestone != [] && IsDigit(r.value.milestone[0])
        && '\n' !in r.value.milestone
  {
    var t := Trim(requirement);
    RunSound(t, NonDigits);
  }

  /** The converse: every operator token followed by a milestone that starts
      with a digit and holds no line feed is parsed back into its parts. */
  lemma ParseRequirementComplete(requirement: string, token: string, milestone: string)
    requires OperatorOf(token).Some?
    requires milestone != [] && IsDigit(milestone[0]) && '\n' !in milestone
    requires Trim(requirement) == token + milestone
    ensures ParseRequirement(requirement) == Some(Requirement(token, OperatorOf(token).value, milestone))
  {
    var t := token + milestone;
    OperatorTokenHasNoDigit(token);
    RunOfConcat(token, milestone, NonDigits);
    assert t[..|token|] == token;
    assert t[|token|..] == milestone;
  }

  /** What can go wrong while checking features. */
  datatype FeatureError =
    | InvalidArgument                        // neither a string nor an array of them
    | UnparsableRequirement(text: string)    // the comparison pattern does not match
    | InvalidMilestone(error: ParseError)    // the milestone is not a version

  /** A requirement whose milestone has been read as a (partial) version. */
  datatype Resolved = Resolved(op: Operator, text: string, milestone: Version)

  /** A requirement, parsed, with its milestone read as a partial version. */
  function Resolve(requirement: string): Result<Resolved, FeatureError> {
    match ParseRequirement(requirement)
    case None => Failure(UnparsableRequirement(Trim(requirement)))
    case Some(p) =>
      match Parse(TextVersion(p.milestone), true)
      case Failure(e) => Failure(InvalidMilestone(e))
      case Success(m) => Success(Resolved(p.op, p.milestone, m))
  }

  /** `version_compare($version, $milestone, $operator)`. */
  predicate Satisfies(v: Version, op: Operator, milestone: Version) {
    match op
    case Lt => Less(v, milestone)
    case Le => !Less(milestone, v)
    case Gt => Less(milestone, v)
    case Ge => !Less(v, milestone)
    case Eq => v == milestone
    case Ne => v != milestone
  }

  /** The operators pair up as complements, `=` holds exactly when `<=` and
      `>=` both do, and exactly one of `<`, `=`, `>` holds. */
  lemma OperatorsAgree(v: Version, m: Version)
    ensures Satisfies(v, Ge, m) <==> !Satisfies(v, Lt, m)
    ensures Satisfies(v, Le, m) <==> !Satisfies(v, Gt, m)
    ensures Satisfies(v, Ne, m) <==> !Satisfies(v, Eq, m)
    ensures Satisfies(v, Eq, m) <==> Satisfies(v, Le, m) && Satisfies(v, Ge, m)
    ensures Satisfies(v, Lt, m) || Satisfies(v, Eq, m) || Satisfies(v, Gt, m)
    ensures !(Satisfies(v, Lt, m) && Satisfies(v, Gt, m))
  {
    LessTotal(v, m);
    LessIrreflexive(v);
    if Less(v, m) {
      LessAsymmetric(v, m);
    }
  }

  /** `getRequiredVersion($milestone, $operator)`: the operator is ignored
      and the milestone itself is the required version. */
  function GetRequiredVersion(milestone: string, op: Operator): string {
    milestone
  }

  /** The required version of a requirement does not depend on its
      operator: `<5.3.0` and `>=5.3.0` both require `5.3.0`. */
  lemma RequiredVersionIgnoresOperator(milestone: string, op1: Operator, op2: Operator)
    ensures GetRequiredVersion(milestone, op1) == GetRequiredVersion(milestone, op2) == milestone
  {
  }

  // ---------------------------------------------------------------------
  // Whether features are supported

  /** `checkRequirement($requirement)` without a floor. */
  function RequirementCheck(target: Version, requirement: string): Result<bool, FeatureError> {
    match Resolve(requirement)
    case Failure(e) => Failure(e)
    case Success(r) => Success(Satisfies(target, r.op, r.milestone))
  }

  /** The requirement loop of `checkSupport` without a floor: the last
      requirement first, stopping at the first one not met. */
  function RequirementsHold(target: Version, reqs: seq<string>): Result<bool, FeatureError>
    decreases |reqs|
  {
    if reqs == [] then Success(true)
    else
      match RequirementCheck(target, reqs[|reqs| - 1])
      case Failure(e) => Failure(e)
      case Success(ok) => if ok then RequirementsHold(target, reqs[..|reqs| - 1]) else Success(false)
  }

  /** `checkSupport($feature)`: an unknown feature is not supported. */
  function FeatureSupported(config: Config, target: Version, feature: string): Result<bool, FeatureError> {
    if feature !in config then Success(false)
    else RequirementsHold(target, RequirementsOf(config[feature]))
  }

  /** The feature loop of `isSupported`: the last feature first, stopping at
      the first one not supported. */
  function AllSupported(config: Config, target: Version, features: seq<string>): Result<bool, FeatureError>
    decreases |features|
  {
    if features == [] then Success(true)
    else
      match FeatureSupported(config, target, features[|features| - 1])
      case Failure(e) => Failure(e)
      case Success(ok) => if ok then AllSupported(config, target, features[..|features| - 1]) else Success(false)
  }

  /** Every requirement of the list parses and has a valid milestone. */
  predicate AllResolve(reqs: seq<string>) {
    forall q | q in reqs :: Resolve(q).Success?
  }

  /** An element of all but the last element is an element. */
  lemma FrontMember(s: seq<string>, q: string)
    requires s != [] && q in s[..|s| - 1]
    ensures q in s
  {
    var i :| 0 <= i < |s| - 1 && s[..|s| - 1][i] == q;
    assert s[i] == q;
  }

  /** A list of requirements that holds has every requirement holding. */
  lemma {:induction false} RequirementsHoldEach(target: Version, reqs: seq<string>)
    requires RequirementsHold(target, reqs) == Success(true)
    ensures forall i | 0 <= i < |reqs| :: RequirementCheck(target, reqs[i]) == Success(true)
    decreases |reqs|
  {
    if reqs != [] {
      var front := reqs[..|reqs| - 1];
      assert RequirementCheck(target, reqs[|reqs| - 1]) == Success(true);
      RequirementsHoldEach(target, front);
      forall i | 0 <= i < |reqs| ensures RequirementCheck(target, reqs[i]) == Success(true) {
        if i < |reqs| - 1 {
          assert front[i] == reqs[i];
        }
      }
    }
  }

  /** A list of requirements each of which holds, holds. */
  lemma {:induction false} EachRequirementHolds(target: Version, reqs: seq<string>)
    requires forall i | 0 <= i < |reqs| :: RequirementCheck(target, reqs[i]) == Success(true)
    ensures RequirementsHold(target, reqs) == Success(true)
    decreases |reqs|
  {
    if reqs != [] {
      EachRequirementHolds(target, reqs[..|reqs| - 1]);
    }
  }

  /** A list of requirements holds exactly when each of them holds. */
  lemma RequirementsHoldIff(target: Version, reqs: seq<string>)
    ensures RequirementsHold(target, reqs) == Success(true)
            <==> forall q | q in reqs :: RequirementCheck(target, q) == Success(true)
  {
    if RequirementsHold(target, reqs) == Success(true) {
      RequirementsHoldEach(target, reqs);
      forall q | q in reqs ensures RequirementCheck(target, q) == Success(true) {
        var i :| 0 <= i < |reqs| && reqs[i] == q;
      }
    }
    if forall q | q in reqs :: RequirementCheck(target, q) == Success(true) {
      forall i | 0 <= i < |reqs| ensures RequirementCheck(target, reqs[i]) == Success(true) {
        assert reqs[i] in reqs;
      }
      EachRequirementHolds(target, reqs);
    }
  }


  /** Checking a list of requirements fails only on a requirement that does
      not resolve. */
  lemma {:induction false} RequirementsHoldFailure(target: Version, reqs: seq<string>)
    ensures RequirementsHold(target, reqs).Failure? ==> exists q | q in reqs :: Resolve(q).Failure?
    decreases |reqs|
  {
    if reqs != [] && RequirementsHold(target, reqs).Failure? {
      var front, last := reqs[..|reqs| - 1], reqs[|reqs| - 1];
      if Resolve(last).Failure? {
        assert last in reqs;
      } else {
        assert RequirementsHold(target, reqs) == RequirementsHold(target, front);
        RequirementsHoldFailure(target, front);
        var q :| q in front && Resolve(q).Failure?;
        FrontMember(reqs, q);
      }
    }
  }

  /** Checking a list of requirements that all resolve cannot fail. */
  lemma {:induction false} RequirementsHoldResolved(target: Version, reqs: seq<string>)
    requires AllResolve(reqs)
    ensures RequirementsHold(target, reqs).Success?
    decreases |reqs|
  {
    if reqs != [] {
      AllResolveSplit(reqs);
      RequirementsHoldResolved(target, reqs[..|reqs| - 1]);
    }
  }

  /** `isSupported` answers true exactly when every listed feature is
      supported, and so only when every listed feature is known. */
  lemma {:induction false} AllSupportedIff(config: Config, target: Version, features: seq<string>)
    ensures AllSupported(config, target, features) == Success(true)
            <==> forall f | f in features :: FeatureSupported(config, target, f) == Success(true)
    ensures AllSupported(config, target, features) == Success(true) ==> forall f | f in features :: f in config
    decreases |features|
  {
    if features != [] {
      AllSupportedIff(config, target, features[..|features| - 1]);
      AllSplit(features, f => FeatureSupported(config, target, f) == Success(true));
      AllSplit(features, f => f in config);
    }
  }

  /** `isSupported` fails only when the check of some listed feature fails. */
  lemma {:induction false} AllSupportedFailure(config: Config, target: Version, features: seq<string>)
    ensures AllSupported(config, target, features).Failure?
            ==> exists f | f in features :: FeatureSupported(config, target, f).Failure?
    decreases |features|
  {
    if features != [] && AllSupported(config, target, features).Failure? {
      var front, last := features[..|features| - 1], features[|features| - 1];
      if FeatureSupported(config, target, last).Failure? {
        assert last in features;
      } else {
        assert AllSupported(config, target, features) == AllSupported(config, target, front);
        AllSupportedFailure(config, target, front);
        var f :| f in front && FeatureSupported(config, target, f).Failure?;
        FrontMember(features, f);
      }
    }
  }

  /** Popping stops at an unknown last feature: the features before it are
      never looked at, whatever their requirements. */
  lemma UnknownLastFeatureStops(config: Config, target: Version, features: seq<string>)
    requires features != [] && features[|features| - 1] !in config
    ensures AllSupported(config, target, features) == Success(false)
  {
  }

  // ---------------------------------------------------------------------
  // The minimum required version

  /** `$minimumRequired` while `getMinimumRequired` runs: the text it holds
      and the version that text denotes. */
  datatype Floor = Floor(text: string, version: Version)

  /** The floor `getMinimumRequired` starts from, `'0.0.0'`. */
  const InitialFloor := Floor("0.0.0", Zero)

  /** The floor's text reads as its version, and it is either the initial
      `'0.0.0'` or a milestone above `0.0.0`. */
  predicate FloorInvariant(f: Floor) {
    && Parse(TextVersion(f.text), true) == Success(f.version)
    && (f.text == "0.0.0" || Less(Zero, f.version))
  }

  /** The text `'0.0.0'` is version `0.0.0`. */
  lemma InitialTextIsZero()
    ensures Parse(TextVersion("0.0.0"), true) == Success(Zero)
  {
    assert Format(Zero) == "0.0.0";
    FormatParse(Zero, true);
  }

  lemma InitialFloorInvariant()
    ensures FloorInvariant(InitialFloor)
  {
    InitialTextIsZero();
  }

  /** A floor is never a falsy string, and it is still `'0.0.0'` exactly
      when its version is `0.0.0`. */
  lemma FloorTruthy(f: Floor)
    requires FloorInvariant(f)
    ensures Truthy(f.text)
    ensures f.text == "0.0.0" <==> f.version == Zero
  {
    FloorNotEmpty(f);
    FloorNotZeroText(f);
    if f.text == "0.0.0" {
      InitialTextIsZero();
    }
    if f.version == Zero {
      LessIrreflexive(Zero);
    }
  }

  lemma FloorNotEmpty(f: Floor)
    requires FloorInvariant(f)
    ensures f.text != ""
  {
    EmptyIsRejected(true);
  }

  lemma FloorNotZeroText(f: Floor)
    requires FloorInvariant(f)
    ensures |f.text| == 1 ==> f.text[0] != '0'
  {
    if |f.text| == 1 && f.text[0] == '0' {
      LoneZeroIsZero(f.text);
      LessIrreflexive(Zero);
    }
  }

  /** The floor update of `checkRequirement`: the required version replaces
      the floor only when it is strictly greater, so the new floor is the
      larger of the two. */
  function RaiseFloor(f: Floor, r: Resolved): (g: Floor)
    ensures LessOrEqual(f.version, g.version) && LessOrEqual(r.milestone, g.version)
    ensures g == f || g == Floor(r.text, r.milestone)
    ensures Less(f.version, r.milestone) ==> g == Floor(r.text, r.milestone)
    ensures g != f ==> Less(f.version, r.milestone)
  {
    if Less(f.version, r.milestone) then
      LessAsymmetric(f.version, r.milestone);
      LessIrreflexive(r.milestone);
      Floor(GetRequiredVersion(r.text, r.op), r.milestone)
    else
      LessIrreflexive(f.version);
      f
  }

  /** The requirement loop of `checkSupport` with a floor: every requirement
      is visited, the last one first. */
  function FloorOver(f: Floor, reqs: seq<string>): Result<Floor, FeatureError>
    decreases |reqs|
  {
    if reqs == [] then Success(f)
    else
      match Resolve(reqs[|reqs| - 1])
      case Failure(e) => Failure(e)
      case Success(r) => FloorOver(RaiseFloor(f, r), reqs[..|reqs| - 1])
  }

  /** `checkSupport($feature, $minimumRequired)`: an unknown feature leaves
      the floor alone. */
  function FloorOverFeature(config: Config, f: Floor, feature: string): Result<Floor, FeatureError> {
    if feature !in config then Success(f) else FloorOver(f, RequirementsOf(config[feature]))
  }

  /** The feature loop of `getMinimumRequired`: every feature is visited,
      the last one first. */
  function FloorOverFeatures(config: Config, f: Floor, features: seq<string>): Result<Floor, FeatureError>
    decreases |features|
  {
    if features == [] then Success(f)
    else
      match FloorOverFeature(config, f, features[|features| - 1])
      case Failure(e) => Failure(e)
      case Success(g) => FloorOverFeatures(config, g, features[..|features| - 1])
  }

  /** `getMinimumRequired($features)`: the floor reached, or none when it is
      still `'0.0.0'`. */
  function MinimumRequired(config: Config, features: seq<string>): Result<Option<Version>, FeatureError> {
    match FloorOverFeatures(config, InitialFloor, features)
    case Failure(e) => Failure(e)
    case Success(f) => Success(if f.text != "0.0.0" then Some(f.version) else None)
  }

  /** Every requirement of the known features among `features`. */
  function Collected(config: Config, features: seq<string>): seq<string>
    decreases |features|
  {
    if features == [] then []
    else
      var f := features[|features| - 1];
      (if f in config then RequirementsOf(config[f]) else []) + Collected(config, features[..|features| - 1])
  }

  /** `v` is at least every resolved milestone of `reqs`. */
  predicate Bounds(reqs: seq<string>, v: Version) {
    forall q | q in reqs && Resolve(q).Success? :: LessOrEqual(Resolve(q).value.milestone, v)
  }

  /** `v` is the milestone of some requirement of `reqs`. */
  predicate Attains(reqs: seq<string>, v: Version) {
    exists q | q in reqs :: Resolve(q).Success? && Resolve(q).value.milestone == v
  }

  lemma RaiseFloorInvariant(f: Floor, requirement: string)
    requires FloorInvariant(f) && Resolve(requirement).Success?
    ensures FloorInvariant(RaiseFloor(f, Resolve(requirement).value))
  {
    var r := Resolve(requirement).value;
    if Less(f.version, r.milestone) {
      FloorTruthy(f);
      if f.text != "0.0.0" {
        LessTransitive(Zero, f.version, r.milestone);
      }
    }
  }

  /** A property of every element, split at the last element. */
  lemma AllSplit(s: seq<string>, p: string -> bool)
    requires s != []
    ensures (forall q | q in s :: p(q)) <==> (forall q | q in s[..|s| - 1] :: p(q)) && p(s[|s| - 1])
  {
    var front := s[..|s| - 1];
    if forall q | q in s :: p(q) {
      forall q | q in front ensures p(q) {
        var i :| 0 <= i < |front| && front[i] == q;
        assert s[i] == q;
      }
    }
    if (forall q | q in front :: p(q)) && p(s[|s| - 1]) {
      forall q | q in s ensures p(q) {
        var i :| 0 <= i < |s| && s[i] == q;
        if i < |s| - 1 {
          assert front[i] == q;
        }
      }
    }
  }

  /** `AllResolve` split at the last requirement, which the loops pop first. */
  lemma AllResolveSplit(reqs: seq<string>)
    requires reqs != []
    ensures AllResolve(reqs) <==> AllResolve(reqs[..|reqs| - 1]) && Resolve(reqs[|reqs| - 1]).Success?
  {
    AllSplit(reqs, q => Resolve(q).Success?);
  }

  /** The requirement loop with a floor succeeds when every requirement
      resolves. */
  lemma {:induction false} FloorOverResolved(f: Floor, reqs: seq<string>)
    requires AllResolve(reqs)
    ensures FloorOver(f, reqs).Success?
    decreases |reqs|
  {
    if reqs != [] {
      AllResolveSplit(reqs);
      var last := reqs[|reqs| - 1];
      FloorOverResolved(RaiseFloor(f, Resolve(last).value), reqs[..|reqs| - 1]);
    }
  }

  /** The requirement loop with a floor succeeds only when every requirement
      resolves. */
  lemma {:induction false} FloorOverSucceedsResolved(f: Floor, reqs: seq<string>)
    requires FloorOver(f, reqs).Success?
    ensures AllResolve(reqs)
    decreases |reqs|
  {
    if reqs != [] {
      var last := reqs[|reqs| - 1];
      assert Resolve(last).Success?;
      FloorOverSucceedsResolved(RaiseFloor(f, Resolve(last).value), reqs[..|reqs| - 1]);
      AllResolveSplit(reqs);
    }
  }

  /** The requirement loop with a floor fails exactly when some requirement
      does not resolve. */
  lemma FloorOverSucceeds(f: Floor, reqs: seq<string>)
    ensures FloorOver(f, reqs).Success? <==> AllResolve(reqs)
  {
    if AllResolve(reqs) {
      FloorOverResolved(f, reqs);
    }
    if FloorOver(f, reqs).Success? {
      FloorOverSucceedsResolved(f, reqs);
    }
  }

  /** The requirement loop with a floor never lowers the floor. */
  lemma {:induction false} FloorOverNeverLowers(f: Floor, reqs: seq<string>)
    requires FloorOver(f, reqs).Success?
    ensures LessOrEqual(f.version, FloorOver(f, reqs).value.version)
    decreases |reqs|
  {
    LessIrreflexive(f.version);
    if reqs != [] {
      var front, last := reqs[..|reqs| - 1], reqs[|reqs| - 1];
      var f1 := RaiseFloor(f, Resolve(last).value);
      FloorOverNeverLowers(f1, front);
      LessOrEqualTransitive(f.version, f1.version, FloorOver(f1, front).value.version);
    }
  }

  /** The requirement loop with a floor ends on a floor at least every
      milestone. */
  lemma {:induction false} FloorOverBounds(f: Floor, reqs: seq<string>)
    requires FloorOver(f, reqs).Success?
    ensures Bounds(reqs, FloorOver(f, reqs).value.version)
    decreases |reqs|
  {
    if reqs != [] {
      var front, last := reqs[..|reqs| - 1], reqs[|reqs| - 1];
      var r := Resolve(last).value;
      var f1 := RaiseFloor(f, r);
      var g := FloorOver(f1, front).value;
      assert g == FloorOver(f, reqs).value;
      FloorOverBounds(f1, front);
      FloorOverNeverLowers(f1, front);
      LessOrEqualTransitive(r.milestone, f1.version, g.version);
      forall q | q in reqs && Resolve(q).Success?
        ensures LessOrEqual(Resolve(q).value.milestone, g.version)
      {
        if q != last {
          assert q in front;
        }
      }
    }
  }

  /** The requirement loop with a floor ends on the starting floor or on one
      of the milestones. */
  lemma {:induction false} FloorOverAttains(f: Floor, reqs: seq<string>)
    requires FloorOver(f, reqs).Success?
    ensures FloorOver(f, reqs).value == f || Attains(reqs, FloorOver(f, reqs).value.version)
    decreases |reqs|
  {
    if reqs != [] {
      var front, last := reqs[..|reqs| - 1], reqs[|reqs| - 1];
      var r := Resolve(last).value;
      var f1 := RaiseFloor(f, r);
      var g := FloorOver(f1, front).value;
      assert g == FloorOver(f, reqs).value;
      FloorOverAttains(f1, front);
      if g != f1 {
        var q :| q in front && Resolve(q).Success? && Resolve(q).value.milestone == g.version;
        assert q in reqs;
      } else if f1 != f {
        assert Resolve(last).value.milestone == g.version;
      }
    }
  }

  /** The requirement loop with a floor keeps the floor invariant. */
  lemma {:induction false} FloorOverKeepsInvariant(f: Floor, reqs: seq<string>)
    requires FloorInvariant(f) && FloorOver(f, reqs).Success?
    ensures FloorInvariant(FloorOver(f, reqs).value)
    decreases |reqs|
  {
    if reqs != [] {
      var front, last := reqs[..|reqs| - 1], reqs[|reqs| - 1];
      RaiseFloorInvariant(f, last);
      FloorOverKeepsInvariant(RaiseFloor(f, Resolve(last).value), front);
    }
  }

  lemma {:induction false} CollectedMembership(config: Config, features: seq<string>, q: string)
    ensures q in Collected(config, features)
            <==> exists f | f in features :: f in config && q in RequirementsOf(config[f])
    decreases |features|
  {
    if features != [] {
      var front, last := features[..|features| - 1], features[|features| - 1];
      assert features == front + [last];
      CollectedMembership(config, front, q);
      forall f | f in front
        ensures f in features
      {
      }
    }
  }

  /** The feature loop of `getMinimumRequired` fails exactly when some
      requirement of a known feature does not resolve. */
  lemma {:induction false} FloorOverFeaturesSucceeds(config: Config, f: Floor, features: seq<string>)
    ensures FloorOverFeatures(config, f, features).Success? <==> AllResolve(Collected(config, features))
    decreases |features|
  {
    if features != [] {
      var front, last := features[..|features| - 1], features[|features| - 1];
      var own := if last in config then RequirementsOf(config[last]) else [];
      assert Collected(config, features) == own + Collected(config, front);
      if last in config {
        FloorOverSucceeds(f, own);
      }
      if FloorOverFeature(config, f, last).Success? {
        FloorOverFeaturesSucceeds(config, FloorOverFeature(config, f, last).value, front);
      } else {
        FloorOverFeaturesSucceeds(config, f, front);
      }
    }
  }

  /** The feature loop of `getMinimumRequired` ends on the largest of the
      starting floor and the milestones of the known features. */
  lemma {:induction false} FloorOverFeaturesIsMaximum(config: Config, f: Floor, features: seq<string>)
    requires FloorOverFeatures(config, f, features).Success?
    ensures var g := FloorOverFeatures(config, f, features).value;
            && LessOrEqual(f.version, g.version) && Bounds(Collected(config, features), g.version)
            && (g == f || Attains(Collected(config, features), g.version))
    decreases |features|
  {
    LessIrreflexive(f.version);
    if features != [] {
      var front, last := features[..|features| - 1], features[|features| - 1];
      var own := if last in config then RequirementsOf(config[last]) else [];
      assert Collected(config, features) == own + Collected(config, front);
      var f1 := FloorOverFeature(config, f, last).value;
      if last in config {
        FloorOverNeverLowers(f, own);
        FloorOverBounds(f, own);
        FloorOverAttains(f, own);
      }
      FloorOverFeaturesIsMaximum(config, f1, front);
      var g := FloorOverFeatures(config, f1, front).value;
      LessOrEqualTransitive(f.version, f1.version, g.version);
      forall q | q in own && Resolve(q).Success?
        ensures LessOrEqual(Resolve(q).value.milestone, g.version)
      {
        LessOrEqualTransitive(Resolve(q).value.milestone, f1.version, g.version);
      }
    }
  }

  /** The feature loop of `getMinimumRequired` keeps the floor invariant. */
  lemma {:induction false} FloorOverFeaturesKeepsInvariant(config: Config, f: Floor, features: seq<string>)
    requires FloorInvariant(f) && FloorOverFeatures(config, f, features).Success?
    ensures FloorInvariant(FloorOverFeatures(config, f, features).value)
    decreases |features|
  {
    if features != [] {
      var front, last := features[..|features| - 1], features[|features| - 1];
      if last in config {
        FloorOverKeepsInvariant(f, RequirementsOf(config[last]));
      }
      FloorOverFeaturesKeepsInvariant(config, FloorOverFeature(config, f, last).value, front);
    }
  }

  /** `getMinimumRequired` fails exactly when a requirement of a known
      feature does not resolve; it answers none exactly when no milestone is
      above `0.0.0`; otherwise it answers the largest milestone. */
  lemma MinimumRequiredIsMaximum(config: Config, features: seq<string>)
    ensures MinimumRequired(config, features).Failure? <==> !AllResolve(Collected(config, features))
    ensures MinimumRequired(config, features) == Success(None)
            <==> AllResolve(Collected(config, features)) && Bounds(Collected(config, features), Zero)
    ensures MinimumRequired(config, features).Success? && MinimumRequired(config, features).value.Some? ==>
              var v := MinimumRequired(config, features).value.value;
              Less(Zero, v) && Bounds(Collected(config, features), v) && Attains(Collected(config, features), v)
  {
    var all := Collected(config, features);
    FloorOverFeaturesSucceeds(config, InitialFloor, features);
    InitialFloorInvariant();
    if FloorOverFeatures(config, InitialFloor, features).Success? {
      var g := FloorOverFeatures(config, InitialFloor, features).value;
      FloorOverFeaturesIsMaximum(config, InitialFloor, features);
      FloorOverFeaturesKeepsInvariant(config, InitialFloor, features);
      FloorTruthy(g);
      if g.text != "0.0.0" {
        LessIrreflexive(Zero);
        var q :| q in all && Resolve(q).Success? && Resolve(q).value.milestone == g.version;
        assert !LessOrEqual(Resolve(q).value.milestone, Zero);
      } else {
        forall q | q in all && Resolve(q).Success?
          ensures LessOrEqual(Resolve(q).value.milestone, Zero)
        {
          assert LessOrEqual(Resolve(q).value.milestone, g.version);
        }
      }
    }
  }

  /** The order in which features are listed does not change the minimum
      required version, nor whether it can be computed. */
  lemma MinimumRequiredOrderIndependent(config: Config, features1: seq<string>, features2: seq<string>)
    requires multiset(features1) == multiset(features2)
    ensures MinimumRequired(config, features1).Success? <==> MinimumRequired(config, features2).Success?
    ensures MinimumRequired(config, features1).Success? ==>
              MinimumRequired(config, features1) == MinimumRequired(config, features2)
  {
    SameFeaturesSameRequirements(config, features1, features2);
    SameRequirementsSameMinimum(config, features1, features2);
  }

  /** Listing the same features in another order collects the same
      requirements, in another order. */
  lemma SameFeaturesSameRequirements(config: Config, features1: seq<string>, features2: seq<string>)
    requires multiset(features1) == multiset(features2)
    ensures forall q :: q in Collected(config, features1) <==> q in Collected(config, features2)
  {
    forall q
      ensures q in Collected(config, features1) <==> q in Collected(config, features2)
    {
      CollectedMembership(config, features1, q);
      CollectedMembership(config, features2, q);
      forall f
        ensures f in features1 <==> f in features2
      {
        assert f in features1 <==> f in multiset(features1);
        assert f in features2 <==> f in multiset(features2);
      }
    }
  }

  /** The minimum required version depends only on which requirements are
      collected. */
  lemma SameRequirementsSameMinimum(config: Config, features1: seq<string>, features2: seq<string>)
    requires forall q :: q in Collected(config, features1) <==> q in Collected(config, features2)
    ensures MinimumRequired(config, features1).Success? <==> MinimumRequired(config, features2).Success?
    ensures MinimumRequired(config, features1).Success? ==>
              MinimumRequired(config, features1) == MinimumRequired(config, features2)
  {
    var all1, all2 := Collected(config, features1), Collected(config, features2);
    MinimumRequiredIsMaximum(config, features1);
    MinimumRequiredIsMaximum(config, features2);
    var m1, m2 := MinimumRequired(config, features1), MinimumRequired(config, features2);
    if m1.Success? && m2.Success? && m1.value.Some? && m2.value.Some? {
      var v1, v2 := m1.value.value, m2.value.value;
      var q1 :| q1 in all1 && Resolve(q1).Success? && Resolve(q1).value.milestone == v1;
      var q2 :| q2 in all2 && Resolve(q2).Success? && Resolve(q2).value.milestone == v2;
      assert LessOrEqual(v1, v2) && LessOrEqual(v2, v1);
      LessOrEqualAntisymmetric(v1, v2);
    }
  }


  // ---------------------------------------------------------------------
  // The class

  /** What the constructor may be given as the PHP version: nothing (the
      running PHP's version), an integer, a string or a version object. */
  datatype Target = RuntimeTarget | IntTarget(i: int) | StringTarget(s: string) | ObjectTarget(sv: SemanticVersion)

  /** The input a non-object target is parsed from; an integer is cast to
      its decimal string first. */
  function TargetInput(target: Target, runtimeVersion: string): VersionInput {
    match target
    case RuntimeTarget => TextVersion(runtimeVersion)
    case IntTarget(i) => TextVersion(IntToString(i))
    case StringTarget(s) => TextVersion(s)
    case ObjectTarget(_) => NoVersion
  }

  /** What `isSupported` and `getMinimumRequired` may be given: a feature
      name, a list of them, or a value of any other type. */
  datatype FeatureArgument = OneFeature(name: string) | FeatureList(names: seq<string>) | OtherValue

  /** A string is wrapped into a one-element list; anything but a list is
      rejected. */
  function FeatureNames(features: FeatureArgument): Result<seq<string>, FeatureError> {
    match features
    case OneFeature(name) => Success([name])
    case FeatureList(names) => Success(names)
    case OtherValue => Failure(InvalidArgument)
  }

  /** What `checkSupport` and `checkRequirement` return: the support flag and
      the floor passed by reference (none when `null` was passed). */
  datatype Outcome = Outcome(supported: bool, floor: Option<Floor>)

  class PHPFeature {
    /** `$config`. */
    const config: Config
    /** `$version`: the target version as its getters report it. */
    const version: Version

    constructor (config: Config, version: Version)
      ensures this.config == config && this.version == version
    {
      this.config := config;
      this.version := version;
    }

    /** `new PHPFeature($phpVersion, $config)`: a missing configuration is
        the list of known features, a missing version is the running PHP's
        (`runtimeVersion`), and a string or integer is parsed in partial
        mode; a version object is taken as it is. */
    static method Create(target: Target, runtimeVersion: string, config: Option<Config>)
      returns (r: Result<PHPFeature, ParseError>)
      requires target.ObjectTarget? ==> target.sv.Valid()
      ensures target.ObjectTarget? ==> r.Success? && r.value.version == target.sv.View()
      ensures !target.ObjectTarget? && r.Failure? ==> Parse(TargetInput(target, runtimeVersion), true) == Failure(r.error)
      ensures !target.ObjectTarget? && r.Success? ==> Parse(TargetInput(target, runtimeVersion), true) == Success(r.value.version)
      ensures r.Success? ==> fresh(r.value) && r.value.config == (if config.Some? then config.value else KnownFeatures.Known)
    {
      var cfg := if config.Some? then config.value else KnownFeatures.Known;
      var text: string;
      match target {
        case ObjectTarget(sv) =>
          var feature := new PHPFeature(cfg, sv.View());
          return Success(feature);
        case RuntimeTarget =>
          text := runtimeVersion;
        case IntTarget(i) =>
          text := IntToString(i);
        case StringTarget(s) =>
          text := s;
      }
      var parsed := SemanticVersion.New(TextVersion(text), true);
      if parsed.Failure? {
        return Failure(parsed.error);
      }
      var feature := new PHPFeature(cfg, parsed.value.View());
      return Success(feature);
    }

    /** `isSupported($features)`: whether every feature is supported, popping
        from the end and stopping at the first one that is not. */
    method IsSupported(features: FeatureArgument) returns (r: Result<bool, FeatureError>)
      ensures FeatureNames(features).Failure? ==> r == Failure(FeatureNames(features).error)
      ensures FeatureNames(features).Success? ==> r == AllSupported(config, version, FeatureNames(features).value)
    {
      var names: seq<string>;
      match features {
        case OneFeature(name) => names := [name];
        case FeatureList(list) => names := list;
        case OtherValue => return Failure(InvalidArgument);
      }
      var supported := true;
      var rest := names;
      while supported && |rest| > 0
        invariant AllSupported(config, version, names)
                  == if supported then AllSupported(config, version, rest) else Success(false)
        decreases |rest|
      {
        var feature := rest[|rest| - 1];
        rest := rest[..|rest| - 1];
        var s := CheckSupport(feature, None);
        if s.Failure? {
          return Failure(s.error);
        }
        supported := supported && s.value.supported;
      }
      return Success(supported);
    }

    /** `getMinimumRequired($features)`: visits every feature, raising the
        floor from `'0.0.0'`, and answers a version object for the floor, or
        none when it was never raised. */
    method GetMinimumRequired(features: FeatureArgument) returns (r: Result<Option<SemanticVersion>, FeatureError>)
      ensures FeatureNames(features).Failure? ==> r == Failure(FeatureNames(features).error)
      ensures FeatureNames(features).Success? ==>
                var m := MinimumRequired(config, FeatureNames(features).value);
                && (r.Failure? <==> m.Failure?)
                && (r.Failure? ==> r.error == m.error)
                && (r.Success? ==> (r.value.Some? <==> m.value.Some?))
                && (r.Success? && r.value.Some? ==>
                      fresh(r.value.value) && r.value.value.Valid() && r.value.value.View() == m.value.value)
    {
      var names: seq<string>;
      match features {
        case OneFeature(name) => names := [name];
        case FeatureList(list) => names := list;
        case OtherValue => return Failure(InvalidArgument);
      }
      var floor := InitialFloor;
      InitialFloorInvariant();
      var supported := true;
      var rest := names;
      while |rest| > 0
        invariant FloorInvariant(floor)
        invariant FloorOverFeatures(config, InitialFloor, names) == FloorOverFeatures(config, floor, rest)
        decreases |rest|
      {
        var feature := rest[|rest| - 1];
        rest := rest[..|rest| - 1];
        var s := CheckSupport(feature, Some(floor));
        if s.Failure? {
          return Failure(s.error);
        }
        supported := supported && s.value.supported;
        floor := s.value.floor.value;
      }
      if floor.text != "0.0.0" {
        var sv := SemanticVersion.New(TextVersion(floor.text), true);
        if sv.Failure? {
          assert false;
        }
        return Success(Some(sv.value));
      }
      return Success(None);
    }

    /** `checkSupport($feature, $minimumRequired)`. Without a floor the
        requirements are popped until one is not met; with a floor, which is
        never a falsy string, all of them are visited. */
    method CheckSupport(feature: string, floor: Option<Floor>) returns (r: Result<Outcome, FeatureError>)
      requires floor.Some? ==> FloorInvariant(floor.value)
      ensures floor.None? && r.Failure? ==> FeatureSupported(config, version, feature) == Failure(r.error)
      ensures floor.None? && r.Success? ==>
                FeatureSupported(config, version, feature) == Success(r.value.supported) && r.value.floor.None?
      ensures floor.Some? ==>
                var g := FloorOverFeature(config, floor.value, feature);
                && (r.Failure? <==> g.Failure?)
                && (r.Failure? ==> r.error == g.error)
                && (r.Success? ==> r.value.floor == Some(g.value) && FloorInvariant(g.value))
    {
      if feature !in config {
        return Success(Outcome(false, floor));
      }
      var reqs := RequirementsOf(config[feature]);
      var supported := true;
      var current := floor;
      var rest := reqs;
      while (supported || (current.Some? && Truthy(current.value.text))) && |rest| > 0
        invariant current.Some? == floor.Some?
        invariant current.Some? ==> FloorInvariant(current.value)
        invariant current.Some? ==> FloorOver(floor.value, reqs) == FloorOver(current.value, rest)
        invariant current.None? ==>
                    RequirementsHold(version, reqs) == if supported then RequirementsHold(version, rest) else Success(false)
        decreases |rest|
      {
        var requirement := rest[|rest| - 1];
        rest := rest[..|rest| - 1];
        var c := CheckRequirement(requirement, current);
        if c.Failure? {
          return Failure(c.error);
        }
        supported := supported && c.value.supported;
        current := c.value.floor;
      }
      if current.Some? {
        FloorTruthy(current.value);
      }
      return Success(Outcome(supported, current));
    }

    /** `checkRequirement($requirement, $minimumRequired)`: whether the
        target meets the requirement, and with a floor the floor raised to
        the required version when that is greater. */
    method CheckRequirement(requirement: string, floor: Option<Floor>) returns (r: Result<Outcome, FeatureError>)
      requires floor.Some? ==> FloorInvariant(floor.value)
      ensures r.Failure? <==> Resolve(requirement).Failure?
      ensures r.Failure? ==> r.error == Resolve(requirement).error
      ensures r.Success? ==> RequirementCheck(version, requirement) == Success(r.value.supported)
      ensures r.Success? ==> r.value.floor.Some? == floor.Some?
      ensures r.Success? && floor.Some? ==>
                && r.value.floor.value == RaiseFloor(floor.value, Resolve(requirement).value)
                && FloorInvariant(r.value.floor.value)
    {
      var resolved := Resolve(requirement);
      if resolved.Failure? {
        return Failure(resolved.error);
      }
      var req := resolved.value;
      var supported := Satisfies(version, req.op, req.milestone);
      var next := floor;
      if floor.Some? {
        var required := GetRequiredVersion(req.text, req.op);
        if Less(floor.value.version, req.milestone) {
          next := Some(Floor(required, req.milestone));
        }
        RaiseFloorInvariant(floor.value, requirement);
      }
      return Success(Outcome(supported, next));
    }
  }
}
