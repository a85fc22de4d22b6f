/** The string primitives of PHP that the core relies on: `trim`, the `(int)`
    cast of a run of decimal digits, the decimal rendering of an integer, and
    PHP's notion of a "truthy" string. Also a plain lexicographic order on
    strings, used by the version order. */
module PhpText {

  /** The characters PHP's `trim()` strips by default: space, tab, line feed,
      carriage return, NUL and vertical tab. */
  predicate IsTrimChar(c: char) {
    c == ' ' || c == '\t' || c == '\n' || c == '\r' || c == 0 as char || c == 11 as char
  }

  /** `ltrim($s)`: a suffix of `s` that does not start with a trim character. */
  function TrimLeft(s: string): (r: string)
    ensures |r| <= |s| && r == s[|s| - |r|..]
    ensures r != [] ==> !IsTrimChar(r[0])
  {
    if s != [] && IsTrimChar(s[0]) then TrimLeft(s[1..]) else s
  }

  /** `rtrim($s)`: a prefix of `s` that does not end with a trim character. */
  function TrimRight(s: string): (r: string)
    ensures |r| <= |s| && r == s[..|r|]
    ensures r != [] ==> !IsTrimChar(r[|r| - 1])
  {
    if s != [] && IsTrimChar(s[|s| - 1]) then TrimRight(s[..|s| - 1]) else s
  }

  /** `ltrim` removes trim characters only. */
  lemma {:induction false} TrimLeftStripsTrimChars(s: string)
    ensures forall i | 0 <= i < |s| - |TrimLeft(s)| :: IsTrimChar(s[i])
  {
    if s != [] && IsTrimChar(s[0]) {
      TrimLeftStripsTrimChars(s[1..]);
      forall i | 1 <= i < |s| - |TrimLeft(s)| ensures IsTrimChar(s[i]) {
        assert s[i] == s[1..][i - 1];
      }
    }
  }

  /** `rtrim` removes trim characters only. */
  lemma {:induction false} TrimRightStripsTrimChars(s: string)
    ensures forall i | |TrimRight(s)| <= i < |s| :: IsTrimChar(s[i])
  {
    if s != [] && IsTrimChar(s[|s| - 1]) {
      TrimRightStripsTrimChars(s[..|s| - 1]);
      forall i | |TrimRight(s)| <= i < |s| - 1 ensures IsTrimChar(s[i]) {
        assert s[i] == s[..|s| - 1][i];
      }
    }
  }

  /** PHP's `trim($s)`: strips trim characters from both ends. What it
      keeps is a slice of `s` and all it removes are trim characters
      (`TrimSound`). */
  function Trim(s: string): (r: string)
    ensures r != [] ==> !IsTrimChar(r[0]) && !IsTrimChar(r[|r| - 1])
    ensures |r| <= |s|
  {
    TrimRight(TrimLeft(s))
  }

  /** `trim` keeps the slice of `s` between the leading and the trailing
      trim characters, and removes nothing else. */
  lemma TrimSound(s: string)
    ensures var k := |s| - |TrimLeft(s)|;
      && Trim(s) == s[k..k + |Trim(s)|]
      && (forall i | 0 <= i < k :: IsTrimChar(s[i]))
      && (forall i | k + |Trim(s)| <= i < |s| :: IsTrimChar(s[i]))
  {
    var l := TrimLeft(s);
    var t := TrimRight(l);
    assert Trim(s) == t;
    TrimLeftStripsTrimChars(s);
    TrimRightStripsTrimChars(l);
    PrefixOfSuffix(s, l, t);
  }

  /** A prefix `t` of a suffix `l` of `s` is a slice of `s`, and what `t`
      leaves of `l` is what it leaves at the end of `s`. */
  lemma PrefixOfSuffix(s: string, l: string, t: string)
    requires |l| <= |s| && l == s[|s| - |l|..]
    requires |t| <= |l| && t == l[..|t|]
    requires forall i | |t| <= i < |l| :: IsTrimChar(l[i])
    ensures var k := |s| - |l|;
      && t == s[k..k + |t|]
      && (forall i | k + |t| <= i < |s| :: IsTrimChar(s[i]))
  {
    var k := |s| - |l|;
    assert t == s[k..k + |t|];
    forall i | k + |t| <= i < |s| ensures IsTrimChar(s[i]) {
      assert s[i] == l[i - k];
    }
  }

  /** A string that starts and ends with a non-trim character is left alone by `trim`. */
  lemma TrimOfTrimmed(s: string)
    requires s != [] ==> !IsTrimChar(s[0]) && !IsTrimChar(s[|s| - 1])
    ensures Trim(s) == s
  {
  }

  predicate IsDigit(c: char) { '0' <= c <= '9' }

  /** Characters allowed in a pre-release or build label: `[0-9A-Za-z-]`. */
  predicate IsLabelChar(c: char) {
    IsDigit(c) || 'A' <= c <= 'Z' || 'a' <= c <= 'z' || c == '-'
  }

  /** The character classes the two regular expressions of the core scan for. */
  datatype CharClass = Digits | LabelChars | NonDigits

  predicate InClass(c: char, cls: CharClass) {
    match cls
    case Digits => IsDigit(c)
    case LabelChars => IsLabelChar(c)
    case NonDigits => !IsDigit(c)
  }

  predicate AllIn(s: string, cls: CharClass) {
    forall i | 0 <= i < |s| :: InClass(s[i], cls)
  }

  /** Length of the longest prefix of `s` in class `cls` (a greedy `[..]*`). */
  function Run(s: string, cls: CharClass): (n: nat)
    ensures n <= |s|
  {
    if s == [] || !InClass(s[0], cls) then 0 else 1 + Run(s[1..], cls)
  }

  /** The run is all of the class and stops at the first character outside it. */
  lemma {:induction false} RunSound(s: string, cls: CharClass)
    ensures AllIn(s[..Run(s, cls)], cls)
    ensures Run(s, cls) < |s| ==> !InClass(s[Run(s, cls)], cls)
    ensures s[..Run(s, cls)] + s[Run(s, cls)..] == s
  {
    assert s[..Run(s, cls)] + s[Run(s, cls)..] == s;
    if s != [] && InClass(s[0], cls) {
      RunSound(s[1..], cls);
      var n := Run(s, cls);
      forall i | 0 <= i < n ensures InClass(s[..n][i], cls) {
        if i > 0 { assert s[..n][i] == s[1..][..n - 1][i - 1]; }
      }
      if n < |s| { assert s[n] == s[1..][n - 1]; }
    }
  }

  /** A greedy run stops exactly where the class ends. */
  lemma {:induction false} RunOfConcat(a: string, b: string, cls: CharClass)
    requires AllIn(a, cls)
    requires b == [] || !InClass(b[0], cls)
    ensures Run(a + b, cls) == |a|
  {
    if a != [] {
      assert (a + b)[1..] == a[1..] + b;
      RunOfConcat(a[1..], b, cls);
    }
  }

  /** The value of a decimal digit (0 for any other character). */
  function DigitValue(c: char): nat {
    if IsDigit(c) then c as int - '0' as int else 0
  }

  /** PHP's `(int)` cast of a string of decimal digits (leading zeros vanish;
      the empty string casts to 0). The core only ever casts digit runs. */
  function DigitsValue(s: string): nat {
    if s == [] then 0 else DigitsValue(s[..|s| - 1]) * 10 + DigitValue(s[|s| - 1])
  }

  /** A single digit casts to its own value. */
  lemma DigitsValueSingle(s: string)
    requires |s| == 1
    ensures DigitsValue(s) == DigitValue(s[0])
  {
    assert s[..0] == [];
  }

  function DigitChar(d: nat): (c: char)
    requires d < 10
    ensures IsDigit(c) && c as int - '0' as int == d
  {
    ('0' as int + d) as char
  }

  /** The decimal rendering of a natural number, as `sprintf('%s', $n)` or a
      `(string)` cast produce it: digits only, no leading zero. */
  function NatToString(n: nat): (s: string)
    ensures s != [] && AllIn(s, Digits)
    ensures |s| > 1 ==> s[0] != '0'
  {
    if n < 10 then [DigitChar(n)] else NatToString(n / 10) + [DigitChar(n % 10)]
  }

  /** Casting the rendering back gives the number. */
  lemma {:induction false} DigitsValueOfNatToString(n: nat)
    ensures DigitsValue(NatToString(n)) == n
  {
    if n >= 10 {
      var s := NatToString(n);
      assert s[..|s| - 1] == NatToString(n / 10);
      DigitsValueOfNatToString(n / 10);
    }
  }

  /** PHP's `(string)` cast of an integer: a minus sign for negatives. */
  function IntToString(i: int): (s: string)
    ensures s != [] && (s[0] == '-' <==> i < 0)
  {
    if i < 0 then "-" + NatToString(-i) else NatToString(i)
  }

  /** PHP truthiness of a string: only `''` and `'0'` are falsy. */
  predicate Truthy(s: string) { s != "" && s != "0" }

  /** Lexicographic order on strings by character code. */
  predicate TextLess(a: string, b: string) {
    if a == [] then b != []
    else if b == [] then false
    else if a[0] != b[0] then a[0] < b[0]
    else TextLess(a[1..], b[1..])
  }

  lemma {:induction false} TextLessIrreflexive(a: string)
    ensures !TextLess(a, a)
  {
    if a != [] { TextLessIrreflexive(a[1..]); }
  }

  lemma {:induction false} TextLessTransitive(a: string, b: string, c: string)
    requires TextLess(a, b) && TextLess(b, c)
    ensures TextLess(a, c)
  {
    if a != [] && b != [] && c != [] && a[0] == b[0] == c[0] {
      TextLessTransitive(a[1..], b[1..], c[1..]);
    }
  }

  lemma {:induction false} TextLessTotal(a: string, b: string)
    ensures a == b || TextLess(a, b) || TextLess(b, a)
  {
    if a != [] && b != [] && a[0] == b[0] {
      TextLessTotal(a[1..], b[1..]);
      if a[1..] == b[1..] {
        assert a == [a[0]] + a[1..] && b == [b[0]] + b[1..];
      }
    }
  }

  lemma {:induction false} TextLessAsymmetric(a: string, b: string)
    requires TextLess(a, b)
    ensures !TextLess(b, a)
  {
    if a != [] && b != [] && a[0] == b[0] {
      TextLessAsymmetric(a[1..], b[1..]);
    }
  }
}
