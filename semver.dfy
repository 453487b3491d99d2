/** golang.org/x/mod/semver, restricted to versions "vMAJOR", "vMAJOR.MINOR" and
    "vMAJOR.MINOR.PATCH" (the short forms mean .0 for the missing parts) without
    pre-release or build suffixes; ordering follows section 11 of Semantic Versioning 2.0.0. */
module Semver {
  import opened Wrappers

  datatype Version = Version(major: nat, minor: nat, patch: nat)

  predicate IsDigit(c: char) { '0' <= c <= '9' }

  /** Length of the run of digits that starts `s`. */
  function DigitRun(s: string): (n: nat)
    ensures n <= |s|
    ensures forall i :: 0 <= i < n ==> IsDigit(s[i])
    ensures n < |s| ==> !IsDigit(s[n])
  {
    if s != [] && IsDigit(s[0]) then 1 + DigitRun(s[1..]) else 0
  }

  function DigitsValue(s: string): nat
    requires forall i :: 0 <= i < |s| ==> IsDigit(s[i])
  {
    if s == [] then 0
    else
      assert IsDigit(s[|s| - 1]);
      10 * DigitsValue(s[..|s| - 1]) + (s[|s| - 1] as int - '0' as int)
  }

  /** A decimal number without a leading zero, and what follows it. */
  function ParseNum(s: string): (r: Option<(nat, string)>)
    ensures r.Some? ==> |r.value.1| < |s|
  {
    var n := DigitRun(s);
    if n == 0 || (s[0] == '0' && n > 1) then None
    else Some((DigitsValue(s[..n]), s[n..]))
  }

  /** semver's parse: "v" then one to three dot-separated numbers. */
  function Parse(v: string): Option<Version>
  {
    if v == [] || v[0] != 'v' then None
    else match ParseNum(v[1..])
      case None => None
      case Some((major, r1)) =>
        if r1 == [] then Some(Version(major, 0, 0))
        else if r1[0] != '.' then None
        else match ParseNum(r1[1..])
          case None => None
          case Some((minor, r2)) =>
            if r2 == [] then Some(Version(major, minor, 0))
            else if r2[0] != '.' then None
            else match ParseNum(r2[1..])
              case None => None
              case Some((patch, r3)) => if r3 == [] then Some(Version(major, minor, patch)) else None
  }

  /** semver.IsValid */
  predicate IsValid(v: string)
  {
    Parse(v).Some?
  }

  function CompareNat(a: nat, b: nat): int
  {
    if a < b then -1 else if a > b then 1 else 0
  }

  function CompareVersions(x: Version, y: Version): int
  {
    if x.major != y.major then CompareNat(x.major, y.major)
    else if x.minor != y.minor then CompareNat(x.minor, y.minor)
    else CompareNat(x.patch, y.patch)
  }

  /** The comparison of two parse results: no version is below every version. */
  function CompareParsed(x: Option<Version>, y: Option<Version>): int
  {
    match (x, y)
    case (None, None) => 0
    case (None, Some(_)) => -1
    case (Some(_), None) => 1
    case (Some(a), Some(b)) => CompareVersions(a, b)
  }

  /** semver.Compare: -1, 0 or +1; an invalid version is below every valid one,
      and all invalid versions are equal. */
  function Compare(v: string, w: string): (c: int)
    ensures c == -1 || c == 0 || c == 1
    ensures !IsValid(v) && IsValid(w) ==> c == -1
    ensures !IsValid(v) && !IsValid(w) ==> c == 0
  {
    CompareParsed(Parse(v), Parse(w))
  }

  /** The order sort.Slice produces under `less(i, j) = Compare(i, j) == -1`:
      `a` may precede `b` when `b` is not less than `a`. */
  predicate Le(a: string, b: string)
  {
    Compare(a, b) <= 0
  }

  /** Swapping the arguments negates the comparison. */
  lemma CompareAntisymmetric(v: string, w: string)
    ensures Compare(v, w) == -Compare(w, v)
  {
    CompareParsedAntisymmetric(Parse(v), Parse(w));
  }

  lemma CompareParsedAntisymmetric(x: Option<Version>, y: Option<Version>)
    ensures CompareParsed(x, y) == -CompareParsed(y, x)
  {
  }

  lemma CompareParsedTransitive(x: Option<Version>, y: Option<Version>, z: Option<Version>)
    requires CompareParsed(x, y) <= 0 && CompareParsed(y, z) <= 0
    ensures CompareParsed(x, z) <= 0
  {
  }

  /** `Le` is a total preorder, so sorting by it is well defined. */
  lemma LeTotalPreorder()
    ensures forall a, b :: Le(a, b) || Le(b, a)
    ensures forall a, b, c :: Le(a, b) && Le(b, c) ==> Le(a, c)
  {
    forall a, b ensures Le(a, b) || Le(b, a) {
      CompareParsedAntisymmetric(Parse(a), Parse(b));
    }
    forall a, b, c | Le(a, b) && Le(b, c) ensures Le(a, c) {
      CompareParsedTransitive(Parse(a), Parse(b), Parse(c));
    }
  }

  lemma ParseOneDigitTriple(v: string, a: char, b: char, c: char)
    requires IsDigit(a) && IsDigit(b) && IsDigit(c)
    requires v == ['v', a, '.', b, '.', c]
    ensures Parse(v) == Some(Version(a as int - '0' as int, b as int - '0' as int, c as int - '0' as int))
  {
    var r0 := v[1..];
    assert r0 == [a, '.', b, '.', c];
    assert DigitRun(r0) == 1 by { assert DigitRun(r0[1..]) == 0; }
    assert r0[..1] == [a];
    assert DigitsValue([a]) == a as int - '0' as int by { assert [a][..0] == []; }
    var r1 := r0[1..];
    assert r1 == ['.', b, '.', c];
    var r1' := r1[1..];
    assert r1' == [b, '.', c];
    assert DigitRun(r1') == 1 by { assert DigitRun(r1'[1..]) == 0; }
    assert r1'[..1] == [b];
    assert DigitsValue([b]) == b as int - '0' as int by { assert [b][..0] == []; }
    var r2' := r1'[2..];
    assert r2' == [c];
    assert DigitRun(r2') == 1 by { assert DigitRun(r2'[1..]) == 0; }
    assert r2'[..1] == [c];
    assert DigitsValue([c]) == c as int - '0' as int by { assert [c][..0] == []; }
  }

  /** Between valid versions, Compare orders by major, then minor, then patch
      number, and calls two versions equal exactly when the three agree. */
  lemma CompareLexicographic(v: string, w: string)
    requires IsValid(v) && IsValid(w)
    ensures Compare(v, w) == 1 <==>
      Parse(v).value.major > Parse(w).value.major
      || (Parse(v).value.major == Parse(w).value.major && Parse(v).value.minor > Parse(w).value.minor)
      || (Parse(v).value.major == Parse(w).value.major && Parse(v).value.minor == Parse(w).value.minor
          && Parse(v).value.patch > Parse(w).value.patch)
    ensures Compare(v, w) == 0 <==> Parse(v).value == Parse(w).value
  {
  }

  /** A valid version sorts above every invalid one. */
  lemma ValidAboveInvalid(v: string, w: string)
    requires IsValid(v) && !IsValid(w)
    ensures Compare(v, w) == 1 && !Le(v, w)
  {
    CompareAntisymmetric(v, w);
  }
}
