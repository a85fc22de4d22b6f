# phpfeature in Dafny

A model of the requirement-resolution core of `brightnucleus/phpfeature`, a PHP
library that answers "does this PHP version support feature X?" and "what is
the lowest PHP version that supports all of these features?". The model
covers its two core classes:

- `SemanticVersion` (src/SemanticVersion.php). It trims the input, matches it
  against `VERSION_PATTERN`, rejects partial versions unless asked to accept
  them, stores the five components and reports them through getters that
  apply PHP's `?:` fallbacks. Its canonical string is
  `major.minor.patch[-pre][+build]`.
- `PHPFeature` (src/PHPFeature.php). It parses the target version, reads each
  feature's requirements (`>=5.3.0`, `<7.0.2`, ...) from the configuration and
  checks them with `version_compare`. With `getMinimumRequired` it raises a
  floor, starting from `'0.0.0'`, to the largest milestone it meets.

Modules:

| file | module | what it holds |
|---|---|---|
| wrappers.dfy | `Wrappers` | `Option` and `Result`, in place of `null` and thrown exceptions |
| php_text.dfy | `PhpText` | `trim()`, digit runs, the `(int)` and `(string)` casts, PHP truthiness, and the order on labels |
| version_pattern.dfy | `VersionPattern` | `VERSION_PATTERN` as a greedy left-to-right scanner. It is proved sound and complete against `Render`. `Captures` is the array `preg_match` fills in. |
| semantic_version.dfy | `SemVer` | `Parse`, `Format` and the version order. Also the class `SemanticVersion`, whose `validate` stores the components one `setComponent` at a time. |
| registry.dfy, known_features.dfy | `Registry`, `KnownFeatures` | the configuration as a map, and config/known_features.php transcribed |
| features.dfy | `Features` | the requirement parser and the specification folds of the pop-loops. Also the class `PHPFeature`, whose loops are proved against those folds. |
| scenarios.dfy | `Scenarios` | the cases of the two test suites, stated about the model |

Three behaviours of the code are modelled exactly as PHP runs them:

- `preg_match` drops trailing groups that did not take part, but reports a
  skipped group that comes before a matched one as `''`. So `isset($components[2])`
  holds for `1-alpha`, and outside partial mode `1-alpha` is accepted while
  `1` and `1.2` are rejected (`SemVer.NonPartialAcceptance`).
- The label getters use `?:`, so a pre-release or build label `0` reads back
  as `''`.
- `checkSupport` keeps looping while `$minimumRequired` is truthy. A floor is
  never `''` or `'0'` (`Features.FloorTruthy`), so with a floor every
  requirement is visited. Without a floor the loop stops at the first
  requirement that is not met.

Two points where the tests and the code deserve a note. The model follows
the code in both:

- Pre-release and build labels take part in the order. The tests expect
  `5.3.0-beta` to lack a `>=5.3.0` feature and `5.3.0+20160101` to have it
  (tests/PHPFeatureTest.php:62-64), which is what `version_compare` gives.
- `getRequiredVersion` (src/PHPFeature.php:258-264) is a stub that ignores the
  operator and returns the milestone. The cases at
  tests/PHPFeatureTest.php:159-283 (`>5.0.0` expecting `5.0.1`, ...) expect
  an answer from a catalog of PHP releases, so they do not hold of the code.
  `Scenarios.MinimumOfSingleRequirement` states what the code yields instead:
  the milestone itself, whatever the operator. No release catalog is part of
  this model.

## Model

| member | source | states |
|---|---|---|
| PhpText.TrimLeft | src/SemanticVersion.php:177 | the left half of `trim()`: a suffix of the input that does not start with a trim character |
| PhpText.TrimRight | src/SemanticVersion.php:177 | the right half of `trim()`: a prefix of the input that does not end with a trim character |
| PhpText.TrimLeftStripsTrimChars | src/SemanticVersion.php:177 | everything the left trim removes is one of space, tab, LF, CR, NUL, VT |
| PhpText.TrimRightStripsTrimChars | src/SemanticVersion.php:177 | everything the right trim removes is one of space, tab, LF, CR, NUL, VT |
| PhpText.Trim | src/SemanticVersion.php:177 | the trimmed text neither starts nor ends with a trim character and is no longer than the input |
| PhpText.TrimSound | src/SemanticVersion.php:177 | what `trim()` keeps is the slice of the input between its leading and trailing trim characters: everything removed on either side is a trim character |
| PhpText.DigitsValue | src/SemanticVersion.php:197-199 | the `(int)` cast of a digit run: its decimal value, leading zeros ignored. `DigitsValueOfNatToString` proves it inverts the printing of a number. |
| PhpText.Truthy | src/SemanticVersion.php:218-219 | PHP truthiness of a string, as `?:` and `if` read it: only `''` and `'0'` are falsy |
| PhpText.TrimOfTrimmed | src/PHPFeature.php:217 | a text that neither starts nor ends with a trim character is left unchanged by `trim()` |
| PhpText.RunSound | src/SemanticVersion.php:29 | a greedy character-class run: every character it takes is in the class, and the next one is not |
| PhpText.RunOfConcat | src/SemanticVersion.php:29 | a run over `a + b` takes exactly `a` when `a` is all in the class and `b` does not start in it |
| PhpText.NatToString | src/SemanticVersion.php:221-227 | `sprintf('%s', $int)` of a non-negative number: non-empty decimal digits without a leading zero |
| PhpText.DigitsValueOfNatToString | src/SemanticVersion.php:197-199 | the `(int)` cast of a printed number gives the number back |
| PhpText.IntToString | src/PHPFeature.php:76-78 | `(string)$int`: non-empty, and it starts with `-` exactly when the integer is negative |
| PhpText.TextLessIrreflexive | src/PHPFeature.php:233 | no label comes before itself |
| PhpText.TextLessTransitive | src/PHPFeature.php:233 | the order on labels is transitive |
| PhpText.TextLessTotal | src/PHPFeature.php:233 | any two different labels are ordered one way or the other |
| PhpText.TextLessAsymmetric | src/PHPFeature.php:233 | two labels are never each before the other |
| VersionPattern.MatchVersion | src/SemanticVersion.php:29 | `preg_match` of `VERSION_PATTERN` as a greedy scan: a digit run, then the optional `.minor`, `.patch`, `-pre` and `+build` groups, matching only when nothing is left. `MatchVersionSound` and `MatchRender` prove it accepts exactly the rendered well-formed matches. |
| VersionPattern.Captures | src/SemanticVersion.php:181 | the `$components` array `preg_match` fills in for a match; `CapturesShape` states its shape |
| VersionPattern.OptionalSound | src/SemanticVersion.php:29 | an optional group takes its tag and a greedy run of its class, non-empty for the digit groups, and leaves exactly the rest of the text |
| VersionPattern.MatchVersionSound | src/SemanticVersion.php:29 | soundness of the pattern: a match is well-formed (digit groups, label groups, no patch without minor) and spells out exactly the text |
| VersionPattern.MatchVersionWellFormed | src/SemanticVersion.php:29 | the groups of a match are well-formed: non-empty digit groups, label groups of `[0-9A-Za-z-]`, and a patch group only after a minor group |
| VersionPattern.MatchVersionCovers | src/SemanticVersion.php:29 | the pattern is anchored at both ends: the groups of a match spell out exactly the text |
| VersionPattern.NoLeadingDigitNoMatch | src/SemanticVersion.php:29 | a text that does not start with a digit is not matched |
| VersionPattern.MatchRender | src/SemanticVersion.php:29 | completeness of the pattern: every well-formed match is found again, with the same groups, in the text it spells |
| VersionPattern.CapturesShape | src/SemanticVersion.php:180-181 | the `$components` array: entry 0 is the whole match, it ends at the last group that took part, and every earlier group that did not take part is `''` |
| SemVer.Parse | src/SemanticVersion.php:63-73 | `new SemanticVersion($input, $partial)` seen through its getters: `null` becomes `'0.0.0'`, then `validate` runs on the trimmed text or throws. `ReportedValues`, `RejectsExactlyNonMatching` and `NonPartialAcceptance` characterise it. |
| SemVer.Format | src/SemanticVersion.php:215-231 | the canonical string `major.minor.patch`, with `-pre` and `+build` only when the getter reports a truthy label; `FormatParse` proves parsing inverts it |
| SemVer.LabelOf | src/SemanticVersion.php:131-134 | the `(string)$value ?: ''` fallback never reports `'0'` |
| SemVer.Reported | src/SemanticVersion.php:94-147 | the five getters together never report a pre-release or build `'0'` |
| SemVer.StoredComponents | src/SemanticVersion.php:197-201 | `validate` stores all five components, integers under the numeric levels and strings under the labels |
| SemVer.WritesStore | src/SemanticVersion.php:197-201 | the five `setComponent` calls, in their order, store `StoredComponents` whatever was there before |
| SemVer.ValidatedMatch | src/SemanticVersion.php:174-206 | when the trimmed text matches and the partial check passes, `validate` stores the components of that match |
| SemVer.ReportedMatch | src/SemanticVersion.php:94-147 | the getters after storing a match report its numbers (0 for groups that did not take part) and its labels (`''` for `'0'`) |
| SemVer.ReportedValues | src/SemanticVersion.php:174-206 | a successful parse is the match of the trimmed input, read through the getters |
| SemVer.RejectsExactlyNonMatching | src/SemanticVersion.php:181-188 | the "failed to validate" error happens exactly when the trimmed text does not match; in partial mode that is the only way to fail |
| SemVer.NonPartialAcceptance | src/SemanticVersion.php:190-195 | outside partial mode a matching text is accepted exactly when it has a patch, a pre-release or a build group, so `1-alpha` passes and `1.2` does not |
| SemVer.ParseIsCanonical | src/SemanticVersion.php:197-201 | every parsed version has labels of `[0-9A-Za-z-]` that are never `'0'` |
| SemVer.FormatIsRender | src/SemanticVersion.php:215-231 | the canonical string of a canonical version is the text of a well-formed match with all three numbers |
| SemVer.RenderIsTrimmed | src/SemanticVersion.php:177 | the text of a match holds no trim character, so `trim()` leaves it alone |
| SemVer.MatchedFormat | src/SemanticVersion.php:215-231 | the match of a canonical string reports the version it was formatted from |
| SemVer.FullMatchCaptures | src/SemanticVersion.php:190 | a patch, pre-release or build group makes `isset($components[2])` and `isset($components[3])` both hold |
| SemVer.ParseRender | src/SemanticVersion.php:174-206 | the text of a well-formed match parses to what the match reports: always in partial mode, and outside it when both `isset` checks hold |
| SemVer.NonPartialRejects | src/SemanticVersion.php:190-195 | a bare `major` or `major.minor` is rejected outside partial mode with the "partial version" error |
| SemVer.NumberIsMajorOnly | src/SemanticVersion.php:197-201 | a lone digit run is `major.0.0` in partial mode |
| SemVer.EmptyIsRejected | src/SemanticVersion.php:183-188 | the empty text is not a version in either mode |
| SemVer.NoLeadingDigitRejected | src/SemanticVersion.php:177-188 | a text that, once trimmed, does not start with a digit is rejected in either mode with the "failed to validate" error |
| SemVer.LoneZeroIsZero | src/SemanticVersion.php:197-201 | the text `0` is `0.0.0` in partial mode |
| SemVer.FormatParse | src/SemanticVersion.php:215-231 | round trip: the canonical string of a canonical version parses back to it in either mode |
| SemVer.ReparseCanonical | src/SemanticVersion.php:203-205 | re-parsing the string any successful parse returns, outside partial mode, gives the same getters |
| SemVer.NullIsZero | src/SemanticVersion.php:66-68 | a `null` version is `0.0.0` in either mode |
| SemVer.TrimIdempotent | src/SemanticVersion.php:177 | trimming twice is trimming once |
| SemVer.SurroundingSpaceIgnored | src/SemanticVersion.php:177 | surrounding white space does not change the parse |
| SemVer.SameTrimmedText | src/SemanticVersion.php:177 | two inputs with the same trimmed text parse alike |
| SemVer.IntegerIsDecimalText | src/SemanticVersion.php:177 | an integer input parses as its decimal string |
| SemVer.Less | src/PHPFeature.php:233 | the order used in place of `version_compare`: numbers first, then pre-release below plain below build-only, then labels by character code. The lemmas below prove it a strict total order. |
| SemVer.LessOrEqual | src/PHPFeature.php:237 | "not above", the negation of `version_compare(..., '>')` |
| SemVer.LessIrreflexive | src/PHPFeature.php:233 | no version is below itself |
| SemVer.LessTransitive | src/PHPFeature.php:233 | the version order is transitive |
| SemVer.LessTotal | src/PHPFeature.php:233 | any two different versions are ordered, so `=` is equality of the getters |
| SemVer.LessAsymmetric | src/PHPFeature.php:233 | two versions are never each below the other |
| SemVer.LessOrEqualAntisymmetric | src/PHPFeature.php:237 | versions at most each other are equal |
| SemVer.LessOrEqualTransitive | src/PHPFeature.php:237 | "at most" is transitive |
| SemVer.PreReleaseBelowRelease | src/PHPFeature.php:233 | a pre-release is below its release (`5.3.0-beta` < `5.3.0`) |
| SemVer.BuildNotBelowRelease | src/PHPFeature.php:233 | build metadata never puts a release below the plain release (`5.3.0+20160101` >= `5.3.0`) |
| SemVer.StoredParse | src/SemanticVersion.php:197-203 | for an accepted input the stored components are typed and the getters report the parse |
| SemVer.SemanticVersion.Unset | src/SemanticVersion.php:38-47 | the object before construction: `$version` unset, `$components` `null` until the first `setComponent`, modelled as an empty map |
| SemVer.SemanticVersion.New | src/SemanticVersion.php:63-73 | construction fails with the parse error, or yields an object whose getters report the parse and whose `$version` is its canonical string |
| SemVer.SemanticVersion.Validate | src/SemanticVersion.php:174-206 | on failure nothing is stored and the error is the parse error; on success the components are stored and the canonical string is returned |
| SemVer.SemanticVersion.SetComponent | src/SemanticVersion.php:259-262 | one key of `$components` is replaced and nothing else changes |
| SemVer.SemanticVersion.GetComponent | src/SemanticVersion.php:243-248 | the stored value, or none exactly when the key is absent |
| SemVer.SemanticVersion.GetMajor | src/SemanticVersion.php:94-97 | the stored major number, 0 when unset |
| SemVer.SemanticVersion.GetMinor | src/SemanticVersion.php:106-109 | the stored minor number, 0 when unset |
| SemVer.SemanticVersion.GetPatch | src/SemanticVersion.php:118-121 | the stored patch number, 0 when unset |
| SemVer.SemanticVersion.GetPreRelease | src/SemanticVersion.php:131-134 | the stored label when truthy, `''` otherwise, never `'0'` |
| SemVer.SemanticVersion.GetBuild | src/SemanticVersion.php:144-147 | the stored label when truthy, `''` otherwise, never `'0'` |
| SemVer.SemanticVersion.View | src/SemanticVersion.php:94-147 | the five getters together report the stored components as `Reported` reads them |
| SemVer.SemanticVersion.GetVersionFromComponents | src/SemanticVersion.php:215-231 | the string built from the getters parses back, outside partial mode, to the same getters whenever they report a canonical version |
| SemVer.SemanticVersion.GetVersion | src/SemanticVersion.php:82-85 | the canonical string of a constructed object, `'0.0.0'` when unset |
| SemVer.GetVersionReparses | src/SemanticVersion.php:82-85 | the string of a constructed object parses back, outside partial mode, to the same getters |
| Features.ParseRequirement | src/PHPFeature.php:217-223 | `preg_match(COMPARISON_PATTERN, trim($requirement))`: an operator token followed by a digit-led milestone with no line feed, or no match. `ParseRequirementSound` and `ParseRequirementComplete` prove it both ways. |
| Features.Resolve | src/PHPFeature.php:217-231 | a requirement's operator and milestone, with the milestone read as a partial version, or the "could not parse" error |
| Features.Satisfies | src/PHPFeature.php:233 | `version_compare($version, $milestone, $operator)` for the six operators; `OperatorsAgree` relates them |
| Features.GetRequiredVersion | src/PHPFeature.php:258-264 | the stub returns the milestone whatever the operator, as `RequiredVersionIgnoresOperator` states |
| Features.RequirementsHold | src/PHPFeature.php:192-199 | the requirement loop without a floor: it pops the last requirement first and stops at the first one that is not met or throws. `RequirementsHoldIff` and `RequirementsHoldFailure` characterise it. |
| Features.FeatureSupported | src/PHPFeature.php:179-200 | `checkSupport($feature)`: false for an unknown feature, otherwise the requirement loop |
| Features.AllSupported | src/PHPFeature.php:116-123 | the feature loop of `isSupported`: it pops the last feature first and stops at the first one not supported. `AllSupportedIff` and `AllSupportedFailure` characterise it. |
| Features.OperatorTokenHasNoDigit | src/PHPFeature.php:29 | no operator of `COMPARISON_PATTERN` is empty or holds a digit |
| Features.ParseRequirementSound | src/PHPFeature.php:217-231 | a parsed requirement is an operator token followed by a milestone that starts with a digit and holds no line feed, and together they make up the trimmed text |
| Features.ParseRequirementComplete | src/PHPFeature.php:217-231 | every trimmed text of that shape is parsed into that operator and milestone |
| Features.OperatorsAgree | src/PHPFeature.php:233 | `>=` is not `<`, `<=` is not `>`, `!=` is not `=`, `=` is both `<=` and `>=`, and exactly one of `<`, `=`, `>` holds |
| Features.RequiredVersionIgnoresOperator | src/PHPFeature.php:258-264 | the required version is the milestone, whatever the operator |
| Features.RequirementsHoldEach | src/PHPFeature.php:192-199 | a feature whose requirement loop answers true meets each of its requirements |
| Features.EachRequirementHolds | src/PHPFeature.php:192-199 | a feature that meets each of its requirements has its loop answer true |
| Features.RequirementsHoldIff | src/PHPFeature.php:192-199 | without a floor a feature is supported exactly when every requirement holds |
| Features.RequirementsHoldFailure | src/PHPFeature.php:192-199 | the requirement loop only throws when some requirement does not resolve |
| Features.RequirementsHoldResolved | src/PHPFeature.php:192-199 | when every requirement resolves, the requirement loop does not throw |
| Features.AllSupportedIff | src/PHPFeature.php:116-123 | `isSupported` answers true exactly when every feature is supported, and then every feature is known |
| Features.AllSupportedFailure | src/PHPFeature.php:116-123 | the feature loop only throws when some feature's check throws |
| Features.UnknownLastFeatureStops | src/PHPFeature.php:182-184 | an unknown feature, popped first, makes the answer false |
| Features.InitialTextIsZero | src/PHPFeature.php:157 | the initial floor `'0.0.0'` reads as version `0.0.0` |
| Features.InitialFloorInvariant | src/PHPFeature.php:157 | the initial floor satisfies the floor invariant |
| Features.FloorTruthy | src/PHPFeature.php:194 | a floor is never `''` or `'0'`, so the `$minimumRequired` half of the loop condition holds; its text is `'0.0.0'` exactly when its version is `0.0.0` |
| Features.FloorOver | src/PHPFeature.php:192-197 | the requirement loop with a floor: it visits every requirement, the last first, and raises the floor at each |
| Features.FloorOverFeature | src/PHPFeature.php:179-200 | `checkSupport($feature, $minimumRequired)`: an unknown feature leaves the floor alone |
| Features.FloorOverFeatures | src/PHPFeature.php:157-163 | the feature loop of `getMinimumRequired`: it visits every feature, the last first |
| Features.MinimumRequired | src/PHPFeature.php:143-166 | the floor reached from `'0.0.0'`, or none when it stayed `'0.0.0'`; `MinimumRequiredIsMaximum` characterises it |
| Features.RaiseFloor | src/PHPFeature.php:235-240 | the milestone replaces the floor exactly when it is strictly above it; otherwise the floor is kept, so on a tie the old floor stays. The new floor is at least both. |
| Features.RaiseFloorInvariant | src/PHPFeature.php:235-240 | raising the floor keeps the invariant: its text reads as its version, and it is `'0.0.0'` or above `0.0.0` |
| Features.FloorOverResolved | src/PHPFeature.php:194-197 | with a floor the requirement loop does not throw when every requirement resolves |
| Features.FloorOverSucceedsResolved | src/PHPFeature.php:194-197 | with a floor the requirement loop succeeds only when every requirement resolves |
| Features.FloorOverSucceeds | src/PHPFeature.php:194-197 | with a floor the requirement loop succeeds exactly when every requirement resolves |
| Features.FloorOverNeverLowers | src/PHPFeature.php:194-197 | the requirement loop never lowers the floor |
| Features.FloorOverBounds | src/PHPFeature.php:194-197 | the final floor is at least every milestone of the feature |
| Features.FloorOverAttains | src/PHPFeature.php:194-197 | the final floor is the starting floor or one of the milestones |
| Features.FloorOverKeepsInvariant | src/PHPFeature.php:194-197 | the requirement loop keeps the floor invariant |
| Features.CollectedMembership | src/PHPFeature.php:182-190 | the requirements visited are exactly those of the known features asked for |
| Features.FloorOverFeaturesSucceeds | src/PHPFeature.php:160-163 | the feature loop succeeds exactly when every visited requirement resolves |
| Features.FloorOverFeaturesIsMaximum | src/PHPFeature.php:160-163 | the feature loop ends at the largest of the starting floor and all visited milestones |
| Features.FloorOverFeaturesKeepsInvariant | src/PHPFeature.php:160-163 | the feature loop keeps the floor invariant |
| Features.MinimumRequiredIsMaximum | src/PHPFeature.php:143-166 | `getMinimumRequired` throws exactly when some requirement does not resolve. It answers false exactly when no milestone is above `0.0.0`. Otherwise it answers the largest milestone, which is above `0.0.0`. |
| Features.MinimumRequiredOrderIndependent | src/PHPFeature.php:160-163 | the answer does not depend on the order of the features |
| Features.SameFeaturesSameRequirements | src/PHPFeature.php:160-163 | reordering the features visits the same requirements |
| Features.SameRequirementsSameMinimum | src/PHPFeature.php:143-166 | the answer depends only on which requirements are visited |
| Features.TargetInput | src/PHPFeature.php:72-82 | a missing version is the running PHP's, an integer is cast to its decimal string, a string is kept |
| Features.FeatureNames | src/PHPFeature.php:105-114 | a string is wrapped into a one-element list, a list is kept, anything else is an invalid argument |
| Features.PHPFeature.constructor | src/PHPFeature.php:70-84 | the object keeps its configuration and the target's getters |
| Registry.RequirementsOf | src/PHPFeature.php:186-190 | a single requirement is wrapped into a one-element list, a list is kept |
| Features.PHPFeature.Create | src/PHPFeature.php:62-85 | a missing config is the known-features list; a version object is taken as is; `null`, an integer or a string is parsed in partial mode, and its parse error is thrown |
| Features.PHPFeature.IsSupported | src/PHPFeature.php:102-124 | a string is one feature, anything but a list is an invalid argument, and the pop-loop answers the feature fold |
| Features.PHPFeature.GetMinimumRequired | src/PHPFeature.php:143-166 | the pop-loop over all features answers `MinimumRequired`: a fresh constructed version for the floor, or false when the floor stayed `'0.0.0'` |
| Features.PHPFeature.CheckSupport | src/PHPFeature.php:179-200 | without a floor it answers the feature's requirement fold. With a floor it visits every requirement and returns the raised floor, which keeps the invariant. |
| Features.PHPFeature.CheckRequirement | src/PHPFeature.php:214-243 | it throws exactly when the requirement does not resolve; otherwise it answers whether the target meets it and raises a given floor |
| Scenarios.LeadingNonDigitRejected | tests/SemanticVersionTest.php:121-130 | a trimmed text that does not start with a digit is rejected in both modes |
| Scenarios.NonVersionsRejected | tests/SemanticVersionTest.php:121-130 | `nonsense`, `.1.2.3`, `-alpha` and `+20160101` are rejected in both modes |
| Scenarios.ExtraNumberUnmatched | tests/SemanticVersionTest.php:123-124 | the pattern does not match a fourth number |
| Scenarios.FourNumbersRejected | tests/SemanticVersionTest.php:123-124 | `major.minor.patch.n` (such as `1.2.3.4`) is rejected in both modes |
| Scenarios.PartialVersionsRejected | tests/SemanticVersionTest.php:131-132 | `1` and `1.2` are rejected outside partial mode |
| Scenarios.MajorMinorPartial | tests/SemanticVersionTest.php:68 | `1.2` is `1.2.0` in partial mode |
| Scenarios.MajorPreReleaseText | tests/SemanticVersionTest.php:77 | `1-alpha` is `1.0.0-alpha` even outside partial mode |
| Scenarios.IntegerIsMajorOnly | tests/SemanticVersionTest.php:120 | an integer such as 25 is `n.0.0` in partial mode and rejected outside it |
| Scenarios.SplitsFormatted | src/PHPFeature.php:217-231 | an operator followed by a canonical version string splits back into the two |
| Scenarios.ResolvesFormatted | src/PHPFeature.php:214-233 | such a requirement resolves to that operator and version |
| Scenarios.SingleRequirementHolds | src/PHPFeature.php:186-199 | a one-requirement list holds exactly when its requirement does |
| Scenarios.SingleRequirementSupport | src/PHPFeature.php:179-200 | a feature with a single requirement is supported exactly by the targets that satisfy it |
| Scenarios.KnownNamespacesEntry | config/known_features.php:19 | `namespaces` requires `>=5.3.0` |
| Scenarios.KnownNamespaces | config/known_features.php:19 | the `namespaces` requirement resolves to `>=` 5.3.0 |
| Scenarios.KnownTraitsEntry | config/known_features.php:29 | `traits` requires `>=5.4.0` |
| Scenarios.KnownTraits | config/known_features.php:29 | the `traits` requirement resolves to `>=` 5.4.0 |
| Scenarios.NamespacesFrom530 | tests/PHPFeatureTest.php:53-70 | `namespaces` is supported exactly by targets at least 5.3.0 |
| Scenarios.TraitsFrom540 | tests/PHPFeatureTest.php:72-73 | `traits` is supported exactly by targets at least 5.4.0 |
| Scenarios.TestTargetsOrder | tests/PHPFeatureTest.php:58-66 | 5.2.9 and 5.3.0-beta are below 5.3.0, 5.3.0+20160101 is not, and 5.3.0 is below 5.4.0 |
| Scenarios.PairSupported | src/PHPFeature.php:116-121 | two features are supported exactly when both are |
| Scenarios.NamespacesAndTraits | tests/PHPFeatureTest.php:74-75 | `[namespaces, traits]` is supported exactly by targets at least 5.4.0 |
| Scenarios.UnknownFeatureNoMinimum | tests/PHPFeatureTest.php:125 | an unknown feature yields no minimum (false) |
| Scenarios.SingleRequirementFloor | src/PHPFeature.php:194-197 | a one-requirement feature raises the floor by that requirement alone |
| Scenarios.PairFloor | src/PHPFeature.php:160-163 | two features raise the floor the second one first |
| Scenarios.TraitsFloor | tests/PHPFeatureTest.php:126-127 | `traits` lifts the initial floor to 5.4.0 |
| Scenarios.NamespacesUnderFloor | tests/PHPFeatureTest.php:128-129 | `namespaces` leaves a 5.4.0 floor alone |
| Scenarios.NamespacesAndTraitsFloor | tests/PHPFeatureTest.php:128-129 | over `[namespaces, traits]` the floor ends at 5.4.0 |
| Scenarios.MinimumOfNamespacesAndTraits | tests/PHPFeatureTest.php:128-129 | the minimum required for `[namespaces, traits]` is 5.4.0 |
| Scenarios.NamespacesFloor | tests/PHPFeatureTest.php:107-124 | `namespaces` lifts the initial floor to 5.3.0 |
| Scenarios.MinimumOfNamespaces | tests/PHPFeatureTest.php:107-124 | the minimum required for `namespaces` is 5.3.0, whatever the target |
| Scenarios.MinimumOfSingleRequirement | src/PHPFeature.php:258-264 | for a single requirement `<op><milestone>` the minimum required is the milestone, whatever the operator |
| Scenarios.FormatNotInitial | src/PHPFeature.php:165 | only `0.0.0` has the canonical string `'0.0.0'` |

## Left out

- `phpversion()` is a parameter (`runtimeVersion` of `PHPFeature.Create`), so the running interpreter is not modelled.
- `version_compare` is modelled by one total order (`SemVer.Less`). It compares the numbers, then ranks pre-release below plain below build-only, then compares labels by character code.
  - PHP's special forms are not modelled: `dev`, `alpha`/`a`, `beta`/`b`, `RC`, `pl`, and the splitting of labels at digit/letter boundaries.
  - The model agrees with PHP on the targets the tests use.
- Milestones are compared as parsed (partial) versions. So a milestone `5.3` equals `5.3.0`, while `version_compare('5.3.0', '5.3')` ranks the longer string higher. The configuration only holds full milestones.
- Features.Resolve: a milestone that is not a valid partial version makes `checkRequirement` fail at once (`InvalidMilestone`). PHP's `version_compare` would accept it, and only a final `new SemanticVersion` in `getMinimumRequired` would throw.
- A release-catalog search, which the tests at tests/PHPFeatureTest.php:159-283 expect, is not in the code and not modelled: `getRequiredVersion` returns the milestone.
- `Config` and `PHPFeature_Config` (src/Config.php, src/PHPFeature_Config.php) are a map from feature names to one requirement string or a list of them. Other value types are not modelled.
- PhpText.DigitsValue: the `(int)` cast is unbounded. PHP saturates at `PHP_INT_MAX`, so numbers above 2^63-1 are not modelled. It also casts only digit runs, the only strings the core casts.
- Exceptions are `Failure` values that carry the offending text. The message strings (`sprintf` formats) are not modelled.
- `isSupported`/`getMinimumRequired` arguments are a string, a list of strings, or "anything else". Lists with non-string entries are not modelled.
- `PHPFeature` takes a `SemanticVersion` object as its target through its getters; other objects passed as a version are not modelled.
- `__toString` is `getVersion` and has no member of its own.
- Scenarios.UnknownFeatureNoMinimum and Features.UnknownLastFeatureStops are stated for any feature missing from the configuration. That the literal name `nonsense` is missing from the 44 known features is not proved.
