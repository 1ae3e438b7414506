/** The vendor version number value type: four integer components, a
    lexicographic three-valued comparison, field-wise equality and its hash,
    the major/minor-only "analysis is at least" check, and the printer.
    The parser lives in module VersionParser. */
module CoverityVersion {
  import Decimal

  /** A version `major.minor.patch.hotfix`. Components are Java `int`s, so the
      constructor accepts negative values; only the parser is restricted to
      non-negative ones. */
  datatype Version = Version(major: int, minor: int, patch: int, hotfix: int)

  const VersionIndio: Version := Version(7, 7, 0, 0)
  const VersionJasper: Version := Version(8, 0, 0, 0)
  const MinimumSupportedVersion: Version := VersionIndio

  /** The two-argument constructor, used for `YYYY.MM` release numbers. */
  function OfMajorMinor(major: int, minor: int): (v: Version)
    ensures v.major == major && v.minor == minor
    ensures v.patch == 0 && v.hotfix == 0
  {
    Version(major, minor, 0, 0)
  }

  predicate IsNonNegative(v: Version) {
    v.major >= 0 && v.minor >= 0 && v.patch >= 0 && v.hotfix >= 0
  }

  // ---------------------------------------------------------------------
  // Ordering

  /** Three-valued comparison of two integers. */
  function Cmp(a: int, b: int): (r: int)
    ensures r == -1 || r == 0 || r == 1
    ensures r < 0 <==> a < b
    ensures r == 0 <==> a == b
  {
    if a < b then -1 else if a == b then 0 else 1
  }

  /** The components in significance order. */
  function Fields(v: Version): seq<int> {
    [v.major, v.minor, v.patch, v.hotfix]
  }

  /** Reference order: strict lexicographic order on integer sequences of
      equal length. */
  predicate LexLess(s: seq<int>, t: seq<int>)
    requires |s| == |t|
  {
    |s| > 0 && (s[0] < t[0] || (s[0] == t[0] && LexLess(s[1..], t[1..])))
  }

  lemma {:induction false} LexLessIrreflexive(s: seq<int>)
    ensures !LexLess(s, s)
  {
    if |s| > 0 {
      LexLessIrreflexive(s[1..]);
    }
  }

  lemma {:induction false} LexLessAsymmetric(s: seq<int>, t: seq<int>)
    requires |s| == |t|
    requires LexLess(s, t)
    ensures !LexLess(t, s)
  {
    if s[0] == t[0] {
      LexLessAsymmetric(s[1..], t[1..]);
    }
  }

  lemma {:induction false} LexLessTransitive(s: seq<int>, t: seq<int>, u: seq<int>)
    requires |s| == |t| == |u|
    requires LexLess(s, t) && LexLess(t, u)
    ensures LexLess(s, u)
  {
    if s[0] == t[0] && t[0] == u[0] {
      LexLessTransitive(s[1..], t[1..], u[1..]);
    }
  }

  /** Equal-length sequences are equal or ordered one way or the other. */
  lemma {:induction false} LexLessTrichotomy(s: seq<int>, t: seq<int>)
    requires |s| == |t|
    ensures s == t || LexLess(s, t) || LexLess(t, s)
  {
    if |s| > 0 && s[0] == t[0] {
      LexLessTrichotomy(s[1..], t[1..]);
      if s[1..] == t[1..] {
        assert s == [s[0]] + s[1..] && t == [t[0]] + t[1..];
      }
    }
  }

  /** The reference order on versions, component by component. */
  lemma LexLessFields(a: Version, b: Version)
    ensures LexLess(Fields(a), Fields(b)) <==>
      || a.major < b.major
      || (a.major == b.major && a.minor < b.minor)
      || (a.major == b.major && a.minor == b.minor && a.patch < b.patch)
      || (a.major == b.major && a.minor == b.minor && a.patch == b.patch && a.hotfix < b.hotfix)
  {
    var a3, b3 := [a.minor, a.patch, a.hotfix], [b.minor, b.patch, b.hotfix];
    var a2, b2 := [a.patch, a.hotfix], [b.patch, b.hotfix];
    var a1, b1 := [a.hotfix], [b.hotfix];
    assert Fields(a)[1..] == a3 && Fields(b)[1..] == b3;
    assert a3[1..] == a2 && b3[1..] == b2;
    assert a2[1..] == a1 && b2[1..] == b1;
    assert LexLess(a1, b1) <==> a.hotfix < b.hotfix by {
      assert a1[1..] == [] && b1[1..] == [];
    }
    assert LexLess(a2, b2) <==> a.patch < b.patch || (a.patch == b.patch && LexLess(a1, b1));
    assert LexLess(a3, b3) <==> a.minor < b.minor || (a.minor == b.minor && LexLess(a2, b2));
  }

  /** The component-by-component comparison of the source: the first
      component that differs decides, and only -1, 0 or 1 is returned. */
  function CompareTo(a: Version, b: Version): (r: int)
    ensures r == -1 || r == 0 || r == 1
    ensures r == 0 <==> a == b
    ensures r < 0 <==> LexLess(Fields(a), Fields(b))
    ensures r > 0 <==> LexLess(Fields(b), Fields(a))
  {
    LexLessFields(a, b);
    LexLessFields(b, a);
    if a.major == b.major then
      if a.minor == b.minor then
        if a.patch == b.patch then Cmp(a.hotfix, b.hotfix)
        else Cmp(a.patch, b.patch)
      else Cmp(a.minor, b.minor)
    else Cmp(a.major, b.major)
  }

  lemma CompareToAntisymmetric(a: Version, b: Version)
    ensures CompareTo(a, b) == -CompareTo(b, a)
  {
  }

  lemma CompareToTransitive(a: Version, b: Version, c: Version)
    requires CompareTo(a, b) <= 0 && CompareTo(b, c) <= 0
    ensures CompareTo(a, c) <= 0
    ensures CompareTo(a, c) == 0 ==> a == b == c
  {
    if a != b && b != c {
      LexLessTransitive(Fields(a), Fields(b), Fields(c));
    }
  }

  /** `CompareTo(a, b) <= 0` is a total order on versions. */
  lemma CompareToTotalOrder(a: Version, b: Version, c: Version)
    ensures CompareTo(a, a) == 0
    ensures CompareTo(a, b) <= 0 || CompareTo(b, a) <= 0
    ensures CompareTo(a, b) <= 0 && CompareTo(b, a) <= 0 ==> a == b
    ensures CompareTo(a, b) <= 0 && CompareTo(b, c) <= 0 ==> CompareTo(a, c) <= 0
  {
    if CompareTo(a, b) <= 0 && CompareTo(b, c) <= 0 {
      CompareToTransitive(a, b, c);
    }
  }

  // ---------------------------------------------------------------------
  // Equality and hashing

  /** Field-wise equality. */
  function Equals(a: Version, b: Version): (r: bool)
    ensures r <==> a == b
    ensures r <==> CompareTo(a, b) == 0
  {
    a.major == b.major && a.minor == b.minor && a.patch == b.patch && a.hotfix == b.hotfix
  }

  const TwoTo31: int := 0x8000_0000
  const TwoTo32: int := 0x1_0000_0000

  /** Java `int` wrap-around: the value congruent to `x` modulo 2^32 in
      [-2^31, 2^31). */
  function Wrap32(x: int): (r: int)
    ensures -TwoTo31 <= r < TwoTo31
    ensures (r - x) % TwoTo32 == 0
  {
    (x + TwoTo31) % TwoTo32 - TwoTo31
  }

  /** Two numbers congruent modulo 2^32 wrap to the same `int`. */
  lemma Wrap32Congruent(x: int, y: int)
    requires (x - y) % TwoTo32 == 0
    ensures Wrap32(x) == Wrap32(y)
  {
    var k := (x - y) / TwoTo32;
    assert x + TwoTo31 == (y + TwoTo31) + k * TwoTo32;
  }

  /** One step `31 * result + component` of the hash in 32-bit arithmetic. */
  function HashStep(result: int, component: int): int {
    Wrap32(Wrap32(31 * result) + component)
  }

  /** The hash of the source, evaluated in wrapping 32-bit arithmetic; it
      agrees with the wrapped value of the exact polynomial. */
  function HashCode(v: Version): (r: int)
    ensures -TwoTo31 <= r < TwoTo31
    ensures r == Wrap32(28629151 + 29791 * v.major + 961 * v.minor + 31 * v.patch + v.hotfix)
  {
    var h1 := HashStep(31, v.major);
    var h2 := HashStep(h1, v.minor);
    var h3 := HashStep(h2, v.patch);
    var h4 := HashStep(h3, v.hotfix);
    HashStepExact(31, v.major);
    HashStepCongruent(h1, 961 + v.major, v.minor);
    HashStepCongruent(h2, 29791 + 31 * v.major + v.minor, v.patch);
    HashStepCongruent(h3, 923521 + 961 * v.major + 31 * v.minor + v.patch, v.hotfix);
    h4
  }

  lemma HashStepExact(result: int, component: int)
    ensures HashStep(result, component) == Wrap32(31 * result + component)
  {
    Wrap32Congruent(Wrap32(31 * result) + component, 31 * result + component);
  }

  /** A hash step on a wrapped accumulator agrees with the step on the exact
      one. */
  lemma HashStepCongruent(h: int, exact: int, component: int)
    requires h == Wrap32(exact)
    ensures HashStep(h, component) == Wrap32(31 * exact + component)
  {
    var k := (h - exact) / TwoTo32;
    assert h - exact == k * TwoTo32;
    assert (31 * h + component) - (31 * exact + component) == (31 * k) * TwoTo32;
    HashStepExact(h, component);
    Wrap32Congruent(31 * h + component, 31 * exact + component);
  }

  /** Versions that are `Equals` have equal hashes. */
  lemma EqualsImpliesEqualHash(a: Version, b: Version)
    requires Equals(a, b)
    ensures HashCode(a) == HashCode(b)
  {
  }

  // ---------------------------------------------------------------------
  // Analysis-version check

  /** True when `self` is at least `analysis` in (major, minor); patch and
      hotfix play no part. */
  function CompareToAnalysis(self: Version, analysis: Version): (r: bool)
    ensures r <==> CompareTo(OfMajorMinor(self.major, self.minor),
                             OfMajorMinor(analysis.major, analysis.minor)) >= 0
  {
    if self.major == analysis.major then self.minor >= analysis.minor
    else self.major > analysis.major
  }

  lemma CompareToAnalysisReflexive(v: Version)
    ensures CompareToAnalysis(v, v)
  {
  }

  /** The check is implied by the full order and ignores patch and hotfix. */
  lemma CompareToAnalysisWeakerThanCompareTo(a: Version, b: Version, p: int, h: int)
    ensures CompareTo(a, b) >= 0 ==> CompareToAnalysis(a, b)
    ensures CompareToAnalysis(a, b) == CompareToAnalysis(Version(a.major, a.minor, p, h), b)
    ensures CompareToAnalysis(a, b) == CompareToAnalysis(a, Version(b.major, b.minor, p, h))
  {
  }

  lemma CompareToAnalysisTransitive(a: Version, b: Version, c: Version)
    requires CompareToAnalysis(a, b) && CompareToAnalysis(b, c)
    ensures CompareToAnalysis(a, c)
  {
  }

  /** The minimum supported version is 7.7.0.0, strictly below 8.0.0.0. */
  lemma MinimumSupportedBelowJasper()
    ensures MinimumSupportedVersion == VersionIndio == Version(7, 7, 0, 0)
    ensures CompareTo(MinimumSupportedVersion, VersionJasper) == -1
    ensures !CompareToAnalysis(MinimumSupportedVersion, VersionJasper)
  {
  }

  // ---------------------------------------------------------------------
  // Printing

  function Count(s: seq<char>, c: char): nat {
    if |s| == 0 then 0 else Count(s[..|s| - 1], c) + (if s[|s| - 1] == c then 1 else 0)
  }

  lemma CountConcat(s: seq<char>, t: seq<char>, c: char)
    ensures Count(s + t, c) == Count(s, c) + Count(t, c)
    decreases |t|
  {
    if |t| > 0 {
      assert (s + t)[..|s + t| - 1] == s + t[..|t| - 1];
      CountConcat(s, t[..|t| - 1], c);
    } else {
      assert s + t == s;
    }
  }

  lemma {:induction false} CountNoDots(s: seq<char>)
    requires forall k :: 0 <= k < |s| ==> s[k] != '.'
    ensures Count(s, '.') == 0
  {
    if |s| > 0 {
      CountNoDots(s[..|s| - 1]);
    }
  }

  /** Text without a dot. */
  predicate NoDots(s: seq<char>) {
    forall k :: 0 <= k < |s| ==> s[k] != '.'
  }

  /** The dot-separated fields of a text, as `String.split` with a limit of
      -1 gives them: empty fields are kept and there is always at least one. */
  function DotFields(s: seq<char>): (r: seq<seq<char>>)
    ensures |r| >= 1
    decreases |s|
  {
    if |s| == 0 then [[]]
    else
      var p := DotFields(s[..|s| - 1]);
      if s[|s| - 1] == '.' then p + [[]]
      else p[..|p| - 1] + [p[|p| - 1] + [s[|s| - 1]]]
  }

  /** Text without a dot is one field. */
  lemma {:induction false} DotFieldsNoDots(s: seq<char>)
    requires NoDots(s)
    ensures DotFields(s) == [s]
    decreases |s|
  {
    if |s| > 0 {
      DotFieldsNoDots(s[..|s| - 1]);
      assert s[..|s| - 1] + [s[|s| - 1]] == s;
    }
  }

  /** Appending dot-free text extends the last field. */
  lemma {:induction false} DotFieldsAppend(a: seq<char>, b: seq<char>)
    requires NoDots(b)
    ensures DotFields(a + b) == DotFields(a)[..|DotFields(a)| - 1] + [DotFields(a)[|DotFields(a)| - 1] + b]
    decreases |b|
  {
    var p := DotFields(a);
    if |b| == 0 {
      assert a + b == a;
      assert p[|p| - 1] + b == p[|p| - 1];
      assert p[..|p| - 1] + [p[|p| - 1]] == p;
    } else {
      var b', c := b[..|b| - 1], b[|b| - 1];
      assert (a + b)[..|a + b| - 1] == a + b';
      assert (a + b)[|a + b| - 1] == c != '.';
      DotFieldsAppend(a, b');
      var q := DotFields(a + b');
      assert q[..|q| - 1] == p[..|p| - 1];
      assert q[|q| - 1] + [c] == p[|p| - 1] + b;
    }
  }

  /** A dot, then dot-free text, adds exactly that text as a new field. */
  lemma {:induction false} DotFieldsJoin(a: seq<char>, b: seq<char>)
    requires NoDots(b)
    ensures DotFields(a + "." + b) == DotFields(a) + [b]
  {
    assert (a + ".")[..|a + "."| - 1] == a;
    assert DotFields(a + ".") == DotFields(a) + [[]];
    DotFieldsAppend(a + ".", b);
    assert [] + b == b;
  }

  /** The printed digits of a number contain no dot. */
  lemma NumberNoDots(i: int)
    ensures NoDots(Decimal.IntToString(i))
  {
    var r := Decimal.IntToString(i);
    if i < 0 {
      assert r[1..] == Decimal.NatToString(-i);
      forall k | 1 <= k < |r| ensures r[k] != '.' {
        assert r[k] == r[1..][k - 1];
      }
    }
  }

  /** The printed components of a version, in order, with the hotfix only
      when it is positive. */
  function PrintedFields(v: Version): seq<seq<char>> {
    [Decimal.IntToString(v.major), Decimal.IntToString(v.minor), Decimal.IntToString(v.patch)]
    + (if v.hotfix > 0 then [Decimal.IntToString(v.hotfix)] else [])
  }

  /** `major.minor.patch`, then `.hotfix` only when hotfix is positive: the
      text splits at its dots into the decimal forms of the components,
      three of them, four when hotfix > 0. */
  function ToString(v: Version): (r: seq<char>)
    ensures DotFields(r) == PrintedFields(v)
    ensures Count(r, '.') == if v.hotfix > 0 then 3 else 2
  {
    var head := Decimal.IntToString(v.major) + "." + Decimal.IntToString(v.minor) + "."
                + Decimal.IntToString(v.patch);
    var tail := if v.hotfix > 0 then "." + Decimal.IntToString(v.hotfix) else "";
    DotsInToString(v);
    DotFieldsInToString(v);
    head + tail
  }

  lemma DotFieldsInToString(v: Version)
    ensures DotFields(Decimal.IntToString(v.major) + "." + Decimal.IntToString(v.minor) + "."
                      + Decimal.IntToString(v.patch)
                      + (if v.hotfix > 0 then "." + Decimal.IntToString(v.hotfix) else ""))
            == PrintedFields(v)
  {
    NumberNoDots(v.major);
    NumberNoDots(v.minor);
    NumberNoDots(v.patch);
    NumberNoDots(v.hotfix);
    DotFieldsOfPieces(Decimal.IntToString(v.major), Decimal.IntToString(v.minor),
                      Decimal.IntToString(v.patch), Decimal.IntToString(v.hotfix), v.hotfix > 0);
  }

  lemma {:induction false} DotFieldsOfPieces(a: seq<char>, b: seq<char>, c: seq<char>, d: seq<char>, withD: bool)
    requires NoDots(a) && NoDots(b) && NoDots(c) && NoDots(d)
    ensures DotFields(a + "." + b + "." + c + (if withD then "." + d else ""))
            == [a, b, c] + (if withD then [d] else [])
  {
    DotFieldsNoDots(a);
    DotFieldsJoin(a, b);
    DotFieldsJoin(a + "." + b, c);
    var abc := a + "." + b + "." + c;
    if withD {
      DotFieldsJoin(abc, d);
      assert abc + ("." + d) == abc + "." + d;
    } else {
      assert abc + "" == abc;
    }
  }


  lemma DotsInToString(v: Version)
    ensures Count(Decimal.IntToString(v.major) + "." + Decimal.IntToString(v.minor) + "."
                  + Decimal.IntToString(v.patch)
                  + (if v.hotfix > 0 then "." + Decimal.IntToString(v.hotfix) else ""), '.')
            == if v.hotfix > 0 then 3 else 2
  {
    var a, b, c, d := Decimal.IntToString(v.major), Decimal.IntToString(v.minor),
                      Decimal.IntToString(v.patch), Decimal.IntToString(v.hotfix);
    NumberHasNoDots(v.major);
    NumberHasNoDots(v.minor);
    NumberHasNoDots(v.patch);
    NumberHasNoDots(v.hotfix);
    var tail := if v.hotfix > 0 then "." + d else "";
    CountConcat(a, ".", '.');
    CountConcat(a + ".", b, '.');
    CountConcat(a + "." + b, ".", '.');
    CountConcat(a + "." + b + ".", c, '.');
    CountConcat(a + "." + b + "." + c, tail, '.');
    CountConcat(".", d, '.');
    assert Count("", '.') == 0;
  }

  lemma NumberHasNoDots(i: int)
    ensures Count(Decimal.IntToString(i), '.') == 0
  {
    var r := Decimal.IntToString(i);
    if i < 0 {
      assert r[1..] == Decimal.NatToString(-i);
    }
    CountNoDots(r);
  }
}
