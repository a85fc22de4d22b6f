/** The regular expression `SemanticVersion::VERSION_PATTERN`,

      ^(\d+)(?:\.(\d+))?(?:\.(\d+))?(?:-([0-9A-Za-z-]*))?(?:\+([0-9A-Za-z-]*))?$

    written as a deterministic left-to-right scanner (every quantifier in it is
    greedy and no backtracking can change the outcome), together with `Render`,
    which spells a match back out. `MatchVersion` is proved sound and complete
    with respect to `Render`: it accepts exactly the strings the pattern
    matches and reports the same groups PCRE reports. `Captures` then gives
    the array `preg_match` fills in, including PHP's way of reporting groups
    that did not take part. */
module VersionPattern {
  import opened Wrappers
  import opened PhpText

  /** The groups of one match: group 1 always takes part, the others may not. */
  datatype Match = Match(
    major: string,
    minor: Option<string>,
    patch: Option<string>,
    preRelease: Option<string>,
    build: Option<string>)

  /** The groups of a derivation of the pattern, as PCRE chooses it: digit
      groups are non-empty digit runs, label groups are runs of `[0-9A-Za-z-]`,
      and since group 2 is tried before group 3 a lone `.digits` part is
      always reported as the minor number. */
  predicate WellFormed(m: Match) {
    && m.major != [] && AllIn(m.major, Digits)
    && (m.minor.Some? ==> m.minor.value != [] && AllIn(m.minor.value, Digits))
    && (m.patch.Some? ==> m.minor.Some? && m.patch.value != [] && AllIn(m.patch.value, Digits))
    && (m.preRelease.Some? ==> AllIn(m.preRelease.value, LabelChars))
    && (m.build.Some? ==> AllIn(m.build.value, LabelChars))
  }

  function Tagged(tag: char, part: Option<string>): string {
    if part.Some? then [tag] + part.value else []
  }

  /** The text a match covers. */
  function Render(m: Match): string {
    m.major + (Tagged('.', m.minor) + (Tagged('.', m.patch) + (Tagged('-', m.preRelease) + Tagged('+', m.build))))
  }

  datatype Piece = Piece(part: Option<string>, rest: string)

  /** One optional group `(?:<tag>(<cls>+))?` (or `*` when `nonEmpty` is false),
      tried greedily at the start of `s`. */
  function Optional(s: string, tag: char, cls: CharClass, nonEmpty: bool): Piece {
    if s != [] && s[0] == tag && (!nonEmpty || Run(s[1..], cls) > 0) then
      var n := Run(s[1..], cls);
      Piece(Some(s[1..1 + n]), s[1 + n..])
    else
      Piece(None, s)
  }

  /** What one optional group takes is the tag and a greedy run of its class,
      and the rest is what follows. */
  lemma OptionalSound(s: string, tag: char, cls: CharClass, nonEmpty: bool)
    ensures var p := Optional(s, tag, cls, nonEmpty);
      && Tagged(tag, p.part) + p.rest == s
      && (p.part.Some? ==> AllIn(p.part.value, cls) && (nonEmpty ==> p.part.value != []))
      && (p.part.Some? ==> p.rest == [] || !InClass(p.rest[0], cls))
  {
    OptionalCovers(s, tag, cls, nonEmpty);
    if s != [] && s[0] == tag && (!nonEmpty || Run(s[1..], cls) > 0) {
      RunSound(s[1..], cls);
      assert s[1..][..Run(s[1..], cls)] == s[1..1 + Run(s[1..], cls)];
    }
  }

  lemma OptionalCovers(s: string, tag: char, cls: CharClass, nonEmpty: bool)
    ensures var p := Optional(s, tag, cls, nonEmpty); Tagged(tag, p.part) + p.rest == s
  {
    if s != [] && s[0] == tag && (!nonEmpty || Run(s[1..], cls) > 0) {
      var n := Run(s[1..], cls);
      RunSound(s[1..], cls);
      assert s[1..][..n] == s[1..1 + n] && s[1..][n..] == s[1 + n..];
      ConsSplit(s, s[1..1 + n], s[1 + n..]);
    }
  }

  lemma ConsSplit(s: string, x: string, y: string)
    requires s != [] && x + y == s[1..]
    ensures [s[0]] + x + y == s
  {
    assert [s[0]] + (x + y) == s;
  }

  /** `preg_match(VERSION_PATTERN, $s)`: `None` when the pattern does not
      match. */
  function MatchVersion(s: string): Option<Match> {
    var n := Run(s, Digits);
    if n == 0 then None
    else
      var minor := Optional(s[n..], '.', Digits, true);
      var patch := Optional(minor.rest, '.', Digits, true);
      var pre := Optional(patch.rest, '-', LabelChars, false);
      var build := Optional(pre.rest, '+', LabelChars, false);
      if build.rest == [] then
        Some(Match(s[..n], minor.part, patch.part, pre.part, build.part))
      else
        None
  }

  /** A text that does not start with a digit is not matched. */
  lemma NoLeadingDigitNoMatch(s: string)
    requires s == [] || !IsDigit(s[0])
    ensures MatchVersion(s) == None
  {
    assert Run(s, Digits) == 0;
  }

  /** Soundness: a match is well-formed and covers exactly `s`. */
  lemma MatchVersionSound(s: string)
    ensures MatchVersion(s).Some? ==> WellFormed(MatchVersion(s).value) && Render(MatchVersion(s).value) == s
  {
    MatchVersionWellFormed(s);
    MatchVersionCovers(s);
  }

  lemma MatchVersionWellFormed(s: string)
    ensures MatchVersion(s).Some? ==> WellFormed(MatchVersion(s).value)
  {
    var n := Run(s, Digits);
    RunSound(s, Digits);
    if n > 0 {
      var minor := Optional(s[n..], '.', Digits, true);
      var patch := Optional(minor.rest, '.', Digits, true);
      var pre := Optional(patch.rest, '-', LabelChars, false);
      OptionalSound(s[n..], '.', Digits, true);
      OptionalSound(minor.rest, '.', Digits, true);
      OptionalSound(patch.rest, '-', LabelChars, false);
      OptionalSound(pre.rest, '+', LabelChars, false);
      if minor.part.None? {
        assert patch.part.None? by {
          assert minor.rest == s[n..];
          assert s[n..] == [] || !IsDigit(s[n]);
        }
      }
    }
  }

  lemma MatchVersionCovers(s: string)
    ensures MatchVersion(s).Some? ==> Render(MatchVersion(s).value) == s
  {
    var n := Run(s, Digits);
    if n > 0 {
      var minor := Optional(s[n..], '.', Digits, true);
      var patch := Optional(minor.rest, '.', Digits, true);
      var pre := Optional(patch.rest, '-', LabelChars, false);
      var build := Optional(pre.rest, '+', LabelChars, false);
      OptionalCovers(s[n..], '.', Digits, true);
      OptionalCovers(minor.rest, '.', Digits, true);
      OptionalCovers(patch.rest, '-', LabelChars, false);
      OptionalCovers(pre.rest, '+', LabelChars, false);
      if build.rest == [] {
        Glue(s, n, Tagged('.', minor.part), Tagged('.', patch.part), Tagged('-', pre.part), Tagged('+', build.part),
          minor.rest, patch.rest, pre.rest);
      }
    }
  }

  /** Gluing the pieces of a left-to-right scan back together. */
  lemma Glue(s: string, k: nat, t1: string, t2: string, t3: string, t4: string, r1: string, r2: string, r3: string)
    requires k <= |s| && t1 + r1 == s[k..] && t2 + r2 == r1 && t3 + r3 == r2 && t4 + [] == r3
    ensures s[..k] + (t1 + (t2 + (t3 + t4))) == s
  {
    assert t4 + [] == t4;
    assert s[..k] + s[k..] == s;
  }

  lemma OptionalOfTagged(tag: char, part: Option<string>, rest: string, cls: CharClass, nonEmpty: bool)
    requires part.Some? ==> AllIn(part.value, cls) && (nonEmpty ==> part.value != [])
    requires part.Some? ==> rest == [] || !InClass(rest[0], cls)
    requires part.None? ==> rest == [] || rest[0] != tag
    ensures Optional(Tagged(tag, part) + rest, tag, cls, nonEmpty) == Piece(part, rest)
  {
    if part.Some? {
      var s := Tagged(tag, part) + rest;
      assert s[1..] == part.value + rest;
      RunOfConcat(part.value, rest, cls);
    }
  }

  /** Completeness: every well-formed match is found again in its own text,
      so the pattern accepts `Render(m)` and PCRE reports exactly `m`. */
  lemma MatchRender(m: Match)
    requires WellFormed(m)
    ensures MatchVersion(Render(m)) == Some(m)
  {
    var t4 := Tagged('+', m.build);
    var t3 := Tagged('-', m.preRelease) + t4;
    var t2 := Tagged('.', m.patch) + t3;
    var t1 := Tagged('.', m.minor) + t2;
    var s := Render(m);
    RunOfConcat(m.major, t1, Digits);
    assert s[|m.major|..] == t1 && s[..|m.major|] == m.major;
    OptionalOfTagged('.', m.minor, t2, Digits, true);
    OptionalOfTagged('.', m.patch, t3, Digits, true);
    OptionalOfTagged('-', m.preRelease, t4, LabelChars, false);
    assert t4 + [] == t4;
    OptionalOfTagged('+', m.build, [], LabelChars, false);
  }

  /** Group `k` (1 to 5) of a match, `None` when it did not take part. */
  function Group(m: Match, k: nat): Option<string> {
    if k == 1 then Some(m.major)
    else if k == 2 then m.minor
    else if k == 3 then m.patch
    else if k == 4 then m.preRelease
    else if k == 5 then m.build
    else None
  }

  /** The highest-numbered group that took part. */
  function LastGroup(m: Match): nat {
    if m.build.Some? then 5
    else if m.preRelease.Some? then 4
    else if m.patch.Some? then 3
    else if m.minor.Some? then 2
    else 1
  }

  function OrEmpty(o: Option<string>): string {
    if o.Some? then o.value else ""
  }

  /** The `$components` array `preg_match` fills in: entry 0 is the whole
      match; trailing groups that did not take part are left out, while a
      group that did not take part but precedes one that did is reported as
      `''`. */
  function Captures(m: Match): seq<string> {
    var whole := [Render(m), m.major];
    if m.build.Some? then whole + [OrEmpty(m.minor), OrEmpty(m.patch), OrEmpty(m.preRelease), m.build.value]
    else if m.preRelease.Some? then whole + [OrEmpty(m.minor), OrEmpty(m.patch), m.preRelease.value]
    else if m.patch.Some? then whole + [OrEmpty(m.minor), m.patch.value]
    else if m.minor.Some? then whole + [m.minor.value]
    else whole
  }

  /** So `isset($components[k])` holds exactly when `k` is at most the last
      group that took part, and entry `k` is group `k` or `''`. */
  lemma CapturesShape(m: Match)
    ensures var c := Captures(m);
      && |c| == LastGroup(m) + 1 && c[0] == Render(m)
      && Group(m, LastGroup(m)).Some?
      && (forall j | LastGroup(m) < j <= 5 :: Group(m, j).None?)
      && (forall k | 1 <= k < |c| :: c[k] == OrEmpty(Group(m, k)))
  {
  }
}
