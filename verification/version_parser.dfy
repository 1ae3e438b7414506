/** `CoverityVersion.parse`: the leftmost match anywhere in the input of
        (\d+)\.(\d+)\.(\d+)(?:\.(\d+))?  |  (\d\d\d\d)\.(\d\d)
    written as an explicit scanner, together with a declarative statement of
    what the regular expression matches and the proof that the scanner
    agrees with it. */
module VersionParser {
  import opened Wrappers
  import opened Decimal
  import opened CoverityVersion

  // ---------------------------------------------------------------------
  // Declarative reading of the pattern

  /** `s[a..b]` is a non-empty digit run that cannot be extended to the
      right: what a greedy `\d+` starting at `a` consumes. */
  predicate MaximalRun(s: seq<char>, a: int, b: int) {
    a < b && DigitsBetween(s, a, b) && (b == |s| || !IsDigit(s[b]))
  }

  /** The first alternative `D.D.D` can match at `i`, with its dots at `p1`
      and `p2` and the greedy patch run ending at `p3`. */
  predicate FirstFormShape(s: seq<char>, i: int, p1: int, p2: int, p3: int) {
    && 0 <= i < p1 && p1 + 1 < p2 && p2 + 1 < p3 <= |s|
    && DigitsBetween(s, i, p1) && s[p1] == '.'
    && DigitsBetween(s, p1 + 1, p2) && s[p2] == '.'
    && MaximalRun(s, p2 + 1, p3)
  }

  ghost predicate FirstFormMatchesAt(s: seq<char>, i: int) {
    exists p1, p2, p3 :: FirstFormShape(s, i, p1, p2, p3)
  }

  /** The second alternative `DDDD.DD` matches at `i`; nothing is required
      of what follows. */
  predicate SecondFormMatchesAt(s: seq<char>, i: int) {
    0 <= i && i + 7 <= |s| && DigitsBetween(s, i, i + 4) && s[i + 4] == '.' && DigitsBetween(s, i + 5, i + 7)
  }

  ghost predicate MatchesAt(s: seq<char>, i: int) {
    FirstFormMatchesAt(s, i) || SecondFormMatchesAt(s, i)
  }

  /** The hotfix digits after a dot at `p3` run greedily up to `p4`. */
  predicate HotfixRun(s: seq<char>, p3: int, p4: int) {
    0 <= p3 && p3 < |s| && s[p3] == '.' && MaximalRun(s, p3 + 1, p4)
  }

  /** The optional `.hotfix` group after a patch run ending at `p3`: taken,
      greedily, when a dot and at least one digit follow; otherwise 0. */
  ghost predicate HotfixReads(s: seq<char>, p3: int, h: int)
    requires 0 <= p3 <= |s|
  {
    if p3 + 1 < |s| && s[p3] == '.' && IsDigit(s[p3 + 1]) then
      exists p4 :: HotfixRun(s, p3, p4) && h == RunValue(s, p3 + 1, p4)
    else
      h == 0
  }

  /** The version a first-form match at `i` denotes. */
  ghost predicate FirstFormReads(s: seq<char>, i: int, v: Version) {
    exists p1, p2, p3 ::
      && FirstFormShape(s, i, p1, p2, p3)
      && v.major == RunValue(s, i, p1)
      && v.minor == RunValue(s, p1 + 1, p2)
      && v.patch == RunValue(s, p2 + 1, p3)
      && HotfixReads(s, p3, v.hotfix)
  }

  /** The version the pattern denotes when its match starts at `i`: the first
      alternative wins over the second whenever both could match. */
  ghost predicate ReadsAt(s: seq<char>, i: int, v: Version) {
    if FirstFormMatchesAt(s, i) then FirstFormReads(s, i, v)
    else SecondFormMatchesAt(s, i) && v == OfMajorMinor(RunValue(s, i, i + 4), RunValue(s, i + 5, i + 7))
  }

  // ---------------------------------------------------------------------
  // The scanner

  /** Length of the longest digit run starting at `i`. */
  function DigitRun(s: seq<char>, i: nat): (n: nat)
    requires i <= |s|
    ensures DigitsBetween(s, i, i + n)
    ensures i + n == |s| || !IsDigit(s[i + n])
    decreases |s| - i
  {
    if i < |s| && IsDigit(s[i]) then 1 + DigitRun(s, i + 1) else 0
  }

  /** The dot positions and patch end of the first alternative at `i`,
      found by scanning greedily; `None` exactly when that alternative
      cannot match. */
  function FirstFormPositions(s: seq<char>, i: nat): (r: Option<(nat, nat, nat)>)
    requires i <= |s|
    ensures r.Some? ==> FirstFormShape(s, i, r.value.0, r.value.1, r.value.2)
    ensures r.None? ==> !FirstFormMatchesAt(s, i)
  {
    ShapesAreGreedy(s, i);
    var p1 := i + DigitRun(s, i);
    if p1 == i || p1 >= |s| || s[p1] != '.' then None
    else
      var p2 := p1 + 1 + DigitRun(s, p1 + 1);
      if p2 == p1 + 1 || p2 >= |s| || s[p2] != '.' then None
      else
        var p3 := p2 + 1 + DigitRun(s, p2 + 1);
        if p3 == p2 + 1 then None
        else Some((p1, p2, p3))
  }

  /** The optional hotfix group after a patch run ending at `p3`. */
  function Hotfix(s: seq<char>, p3: nat): (h: nat)
    requires p3 <= |s|
    ensures HotfixReads(s, p3, h)
  {
    if p3 + 1 < |s| && s[p3] == '.' && IsDigit(s[p3 + 1]) then
      var p4 := p3 + 1 + DigitRun(s, p3 + 1);
      assert HotfixRun(s, p3, p4);
      RunValue(s, p3 + 1, p4)
    else 0
  }

  /** The first alternative at `i`. */
  function FirstForm(s: seq<char>, i: nat): Option<Version>
    requires i <= |s|
  {
    match FirstFormPositions(s, i)
    case None => None
    case Some((p1, p2, p3)) =>
      Some(Version(RunValue(s, i, p1), RunValue(s, p1 + 1, p2), RunValue(s, p2 + 1, p3), Hotfix(s, p3)))
  }

  /** The second alternative at `i`: exactly four digits, a dot, exactly two
      digits; read through the two-argument constructor. */
  function SecondForm(s: seq<char>, i: nat): Option<Version> {
    if SecondFormMatchesAt(s, i) then Some(OfMajorMinor(RunValue(s, i, i + 4), RunValue(s, i + 5, i + 7)))
    else None
  }

  /** A match attempt at one start position: first alternative, then second. */
  function MatchAt(s: seq<char>, i: nat): Option<Version>
    requires i <= |s|
  {
    var first := FirstForm(s, i);
    if first.Some? then first else SecondForm(s, i)
  }

  /** `Matcher.find` from position `i` on. */
  function Find(s: seq<char>, i: nat): Option<Version>
    requires i <= |s|
    decreases |s| - i
  {
    if i == |s| then None
    else
      var m := MatchAt(s, i);
      if m.Some? then m else Find(s, i + 1)
  }

  /** `CoverityVersion.parse`: `None` (the source's `null`) when nothing in
      `s` matches; the components are never negative. */
  function Parse(s: seq<char>): (r: Option<Version>)
    ensures r.Some? ==> IsNonNegative(r.value)
  {
    FindNonNegative(s, 0);
    Find(s, 0)
  }

  lemma {:induction false} FindNonNegative(s: seq<char>, i: nat)
    requires i <= |s|
    ensures Find(s, i).Some? ==> IsNonNegative(Find(s, i).value)
    decreases |s| - i
  {
    if i < |s| && MatchAt(s, i).None? {
      FindNonNegative(s, i + 1);
    }
  }

  // ---------------------------------------------------------------------
  // Scanner agrees with the pattern

  /** A digit run that stops at a non-digit (or the end) is the maximal run. */
  lemma {:induction false} RunEnd(s: seq<char>, a: nat, b: nat)
    requires DigitsBetween(s, a, b)
    requires b == |s| || !IsDigit(s[b])
    ensures b == a + DigitRun(s, a)
  {
  }

  /** Any first-form shape at `i` has its dots exactly where the greedy
      scan stops. */
  lemma {:induction false} FirstFormShapeGreedy(s: seq<char>, i: nat, p1: int, p2: int, p3: int)
    requires FirstFormShape(s, i, p1, p2, p3)
    ensures p1 == i + DigitRun(s, i)
    ensures p2 == p1 + 1 + DigitRun(s, p1 + 1)
    ensures p3 == p2 + 1 + DigitRun(s, p2 + 1)
  {
    RunEnd(s, i, p1);
    RunEnd(s, p1 + 1, p2);
    RunEnd(s, p2 + 1, p3);
  }

  /** Every first-form shape at `i` is the greedy one. */
  lemma {:induction false} ShapesAreGreedy(s: seq<char>, i: nat)
    ensures forall p1, p2, p3 :: FirstFormShape(s, i, p1, p2, p3) ==>
      && p1 == i + DigitRun(s, i)
      && p2 == p1 + 1 + DigitRun(s, p1 + 1)
      && p3 == p2 + 1 + DigitRun(s, p2 + 1)
  {
    forall p1, p2, p3 | FirstFormShape(s, i, p1, p2, p3)
      ensures p1 == i + DigitRun(s, i)
      ensures p2 == p1 + 1 + DigitRun(s, p1 + 1)
      ensures p3 == p2 + 1 + DigitRun(s, p2 + 1)
    {
      FirstFormShapeGreedy(s, i, p1, p2, p3);
    }
  }

  /** The scanner's first alternative succeeds exactly when the pattern's
      first alternative can match at `i`, and then yields the version the
      match denotes. */
  lemma {:induction false} FirstFormCorrect(s: seq<char>, i: nat)
    requires i <= |s|
    ensures FirstForm(s, i).Some? <==> FirstFormMatchesAt(s, i)
    ensures FirstForm(s, i).Some? ==> FirstFormReads(s, i, FirstForm(s, i).value)
  {
    match FirstFormPositions(s, i)
    case None =>
    case Some((p1, p2, p3)) =>
      assert FirstFormShape(s, i, p1, p2, p3);
  }

  lemma {:induction false} MatchAtCorrect(s: seq<char>, i: nat)
    requires i <= |s|
    ensures MatchAt(s, i).Some? <==> MatchesAt(s, i)
    ensures MatchAt(s, i).Some? ==> ReadsAt(s, i, MatchAt(s, i).value)
  {
    FirstFormCorrect(s, i);
  }

  lemma {:induction false} FindCorrect(s: seq<char>, i: nat)
    requires i <= |s|
    ensures Find(s, i).None? <==> forall j :: i <= j < |s| ==> !MatchesAt(s, j)
    ensures Find(s, i).Some? ==>
      exists k :: i <= k < |s| && MatchesAt(s, k) && ReadsAt(s, k, Find(s, i).value)
                  && forall j :: i <= j < k ==> !MatchesAt(s, j)
    decreases |s| - i
  {
    if i < |s| {
      MatchAtCorrect(s, i);
      if MatchAt(s, i).Some? {
        assert Find(s, i) == MatchAt(s, i);
        assert MatchesAt(s, i) && ReadsAt(s, i, Find(s, i).value);
      } else {
        assert Find(s, i) == Find(s, i + 1);
        assert !MatchesAt(s, i);
        FindCorrect(s, i + 1);
        if Find(s, i).Some? {
          var k :| i + 1 <= k < |s| && MatchesAt(s, k) && ReadsAt(s, k, Find(s, i).value)
                   && forall j :: i + 1 <= j < k ==> !MatchesAt(s, j);
          assert forall j :: i <= j < k ==> !MatchesAt(s, j);
        }
      }
    }
  }

  /** `parse` returns null exactly when no substring matches either form;
      otherwise its result is what the match at the leftmost matching
      position denotes, the first form taking precedence there. */
  lemma {:induction false} ParseCorrect(s: seq<char>)
    ensures Parse(s).None? <==> forall i :: 0 <= i < |s| ==> !MatchesAt(s, i)
    ensures Parse(s).Some? ==>
      exists i :: 0 <= i < |s| && MatchesAt(s, i) && ReadsAt(s, i, Parse(s).value)
                  && forall j :: 0 <= j < i ==> !MatchesAt(s, j)
  {
    FindCorrect(s, 0);
  }

  /** Given a first-form shape, the scanner reads exactly its three runs and
      the hotfix after them. */
  lemma {:induction false} FirstFormAtShape(s: seq<char>, i: nat, p1: int, p2: int, p3: int)
    requires FirstFormShape(s, i, p1, p2, p3)
    ensures FirstForm(s, i) == Some(Version(RunValue(s, i, p1), RunValue(s, p1 + 1, p2), RunValue(s, p2 + 1, p3), Hotfix(s, p3)))
  {
    FirstFormShapeGreedy(s, i, p1, p2, p3);
    assert FirstFormPositions(s, i) == Some((p1, p2, p3));
  }

  /** A first-form reading is the one the scanner produces. */
  lemma {:induction false} FirstFormReadsDetermined(s: seq<char>, i: nat, v: Version)
    requires FirstFormReads(s, i, v)
    ensures i <= |s| && FirstForm(s, i) == Some(v)
  {
    var p1, p2, p3 :| FirstFormShape(s, i, p1, p2, p3) && v.major == RunValue(s, i, p1)
      && v.minor == RunValue(s, p1 + 1, p2) && v.patch == RunValue(s, p2 + 1, p3) && HotfixReads(s, p3, v.hotfix);
    FirstFormAtShape(s, i, p1, p2, p3);
    HotfixUnique(s, p3, v.hotfix, Hotfix(s, p3));
  }

  /** The declarative reading pins the version down: a position denotes `v`
      exactly when the scanner's match attempt there yields `v`. */
  lemma {:induction false} ReadsAtIff(s: seq<char>, i: nat, v: Version)
    requires i <= |s|
    ensures ReadsAt(s, i, v) <==> MatchAt(s, i) == Some(v)
  {
    MatchAtCorrect(s, i);
    if ReadsAt(s, i, v) && FirstFormMatchesAt(s, i) {
      FirstFormReadsDetermined(s, i, v);
    }
  }

  lemma {:induction false} HotfixUnique(s: seq<char>, p3: nat, h: int, g: int)
    requires p3 <= |s|
    requires HotfixReads(s, p3, h) && HotfixReads(s, p3, g)
    ensures h == g
  {
    if p3 + 1 < |s| && s[p3] == '.' && IsDigit(s[p3 + 1]) {
      var p4 :| HotfixRun(s, p3, p4) && h == RunValue(s, p3 + 1, p4);
      var q4 :| HotfixRun(s, p3, q4) && g == RunValue(s, p3 + 1, q4);
      RunEnd(s, p3 + 1, p4);
      RunEnd(s, p3 + 1, q4);
    }
  }
}

/** Printing and parsing of versions fit together. */
module VersionRoundTrip {
  import opened Wrappers
  import opened Decimal
  import opened CoverityVersion
  import opened VersionParser

  /** The pieces `ToString` glues together. */
  lemma {:induction false} ToStringPieces(v: Version)
    ensures ToString(v) == IntToString(v.major) + "." + IntToString(v.minor) + "." + IntToString(v.patch)
                           + (if v.hotfix > 0 then "." + IntToString(v.hotfix) else "")
  {
  }

  lemma {:induction false} Assoc(x: seq<char>, y: seq<char>, z: seq<char>)
    ensures x + y + z == x + (y + z)
  {
  }

  /** The printed text regrouped from the right, piece by piece. */
  lemma {:induction false} RightNested(a: seq<char>, b: seq<char>, c: seq<char>, tail: seq<char>)
    ensures a + "." + b + "." + c + tail == a + ("." + (b + ("." + (c + tail))))
  {
    var r2 := c + tail;
    Assoc(a + "." + b + ".", c, tail);
    Assoc(a + "." + b, ".", r2);
    Assoc(a + ".", b, "." + r2);
    Assoc(a, ".", b + ("." + r2));
  }

  /** Where each piece of `a.b.c` followed by `tail` sits in the text. */
  lemma {:induction false} ThreeRunsLayout(s: seq<char>, a: seq<char>, b: seq<char>, c: seq<char>, tail: seq<char>)
    requires s == a + ("." + (b + ("." + (c + tail))))
    ensures |s| == |a| + 1 + |b| + 1 + |c| + |tail|
    ensures forall j :: 0 <= j < |a| ==> s[j] == a[j]
    ensures s[|a|] == '.'
    ensures forall j :: |a| + 1 <= j < |a| + 1 + |b| ==> s[j] == b[j - (|a| + 1)]
    ensures s[|a| + 1 + |b|] == '.'
    ensures forall j :: |a| + 1 + |b| + 1 <= j < |a| + 1 + |b| + 1 + |c| ==> s[j] == c[j - (|a| + 1 + |b| + 1)]
    ensures forall j :: |a| + 1 + |b| + 1 + |c| <= j < |s| ==> s[j] == tail[j - (|a| + 1 + |b| + 1 + |c|)]
  {
  }

  /** Text `a.b.c` followed by nothing or by a dot is a first-form match at
      0 whose runs are exactly `a`, `b` and `c`. */
  lemma {:induction false} ThreeRunsShape(s: seq<char>, a: seq<char>, b: seq<char>, c: seq<char>, tail: seq<char>)
    requires |a| > 0 && |b| > 0 && |c| > 0 && AllDigits(a) && AllDigits(b) && AllDigits(c)
    requires tail == [] || tail[0] == '.'
    requires s == a + ("." + (b + ("." + (c + tail))))
    ensures FirstFormShape(s, 0, |a|, |a| + 1 + |b|, |a| + 1 + |b| + 1 + |c|)
    ensures RunValue(s, 0, |a|) == Value(a)
    ensures RunValue(s, |a| + 1, |a| + 1 + |b|) == Value(b)
    ensures RunValue(s, |a| + 1 + |b| + 1, |a| + 1 + |b| + 1 + |c|) == Value(c)
  {
    ThreeRunsLayout(s, a, b, c, tail);
    RunValueOf(s, 0, a);
    RunValueOf(s, |a| + 1, b);
    RunValueOf(s, |a| + 1 + |b| + 1, c);
    var p3 := |a| + 1 + |b| + 1 + |c|;
    if p3 < |s| {
      assert s[p3] == tail[0];
    }
  }

  /** A dot and a digit string after the patch run read as that hotfix. */
  lemma {:induction false} HotfixTail(s: seq<char>, p3: nat, d: seq<char>)
    requires p3 + 1 + |d| == |s| && |d| > 0 && AllDigits(d)
    requires s[p3] == '.' && forall j :: p3 + 1 <= j < |s| ==> s[j] == d[j - (p3 + 1)]
    ensures HotfixReads(s, p3, Value(d))
  {
    RunValueOf(s, p3 + 1, d);
    assert IsDigit(s[p3 + 1]);
    assert HotfixRun(s, p3, |s|);
  }

  /** Printing a version with non-negative components and parsing the text
      gives the version back: the missing hotfix of a three-part text reads
      as 0, which is exactly when the printer leaves it out. */
  lemma {:induction false} ParseToString(v: Version)
    requires IsNonNegative(v)
    ensures Parse(ToString(v)) == Some(v)
  {
    var a, b, c, d := IntToString(v.major), IntToString(v.minor), IntToString(v.patch), IntToString(v.hotfix);
    var tail := if v.hotfix > 0 then "." + d else "";
    var s := ToString(v);
    ToStringPieces(v);
    assert s == a + "." + b + "." + c + tail;
    var p3 := |a| + 1 + |b| + 1 + |c|;
    RightNested(a, b, c, tail);
    ThreeRunsShape(s, a, b, c, tail);
    ThreeRunsLayout(s, a, b, c, tail);
    if v.hotfix > 0 {
      assert s[p3] == tail[0];
      HotfixTail(s, p3, d);
    }
    assert FirstFormReads(s, 0, v);
    FirstFormReadsDetermined(s, 0, v);
  }
}

/** The `YYYY.MM` release form. */
module VersionYearMonth {
  import opened Wrappers
  import opened Decimal
  import opened CoverityVersion
  import opened VersionParser

  /** No match can start at a non-digit. */
  lemma {:induction false} NoMatchAtNonDigit(s: seq<char>, j: nat)
    requires j < |s| && !IsDigit(s[j])
    ensures !MatchesAt(s, j)
  {
  }

  /** Where each piece of `pre` + `y.m` sits in the text. */
  lemma {:induction false} YearMonthLayout(s: seq<char>, pre: seq<char>, y: seq<char>, m: seq<char>)
    requires s == pre + (y + ("." + m))
    ensures |s| == |pre| + |y| + 1 + |m|
    ensures forall j :: 0 <= j < |pre| ==> s[j] == pre[j]
    ensures forall j :: |pre| <= j < |pre| + |y| ==> s[j] == y[j - |pre|]
    ensures s[|pre| + |y|] == '.'
    ensures forall j :: |pre| + |y| + 1 <= j < |s| ==> s[j] == m[j - (|pre| + |y| + 1)]
  {
  }

  /** Text made of non-digits followed by `YYYY.MM` parses through the
      two-argument constructor: patch and hotfix are 0. */
  lemma {:induction false} ParseYearMonth(pre: seq<char>, y: seq<char>, m: seq<char>)
    requires forall k :: 0 <= k < |pre| ==> !IsDigit(pre[k])
    requires |y| == 4 && |m| == 2 && AllDigits(y) && AllDigits(m)
    ensures Parse(pre + y + "." + m) == Some(OfMajorMinor(Value(y), Value(m)))
    ensures Parse(pre + y + "." + m) == Some(Version(Value(y), Value(m), 0, 0))
  {
    var s := pre + y + "." + m;
    var n := |pre|;
    assert s == pre + (y + ("." + m));
    YearMonthLayout(s, pre, y, m);
    RunValueOf(s, n, y);
    RunValueOf(s, n + 5, m);
    assert SecondFormMatchesAt(s, n);
    forall j | 0 <= j < n
      ensures !MatchesAt(s, j)
    {
      NoMatchAtNonDigit(s, j);
    }
    assert !FirstFormMatchesAt(s, n);
    MatchAtCorrect(s, n);
    FirstFormCorrect(s, n);
    var w := OfMajorMinor(Value(y), Value(m));
    assert MatchAt(s, n) == Some(w);
    ParseCorrect(s);
    var i :| 0 <= i < |s| && MatchesAt(s, i) && ReadsAt(s, i, Parse(s).value)
             && forall j :: 0 <= j < i ==> !MatchesAt(s, j);
    assert i == n;
    ReadsAtIff(s, n, Parse(s).value);
  }
}

module VersionParserExamples {
  import opened Wrappers
  import Decimal
  import VersionRoundTrip
  import VersionYearMonth
  import opened CoverityVersion
  import opened VersionParser

  lemma {:induction false} ExampleYearMonth()
    ensures Parse("v2019.03") == Some(Version(2019, 3, 0, 0))
  {
    assert Decimal.Value("2019") == 2019 by {
      assert "2"[..0] == "";
      assert Decimal.Value("2") == 2;
      assert "20"[..1] == "2";
      assert Decimal.Value("20") == 20;
      assert "201"[..2] == "20";
      assert Decimal.Value("201") == 201;
      assert "2019"[..3] == "201";
    }
    assert Decimal.Value("03") == 3 by {
      assert "03"[..1] == "0" && "0"[..0] == "";
    }
    VersionYearMonth.ParseYearMonth("v", "2019", "03");
    assert "v" + "2019" + "." + "03" == "v2019.03";
  }

  lemma {:induction false} ExampleNone()
    ensures Parse("1.2") == None
  {
  }

  lemma {:induction false} ExampleFull()
    ensures Parse("8.7.0.1") == Some(Version(8, 7, 0, 1))
  {
    assert Decimal.IntToString(8) == "8" by { assert Decimal.DigitChar(8) == '8'; }
    assert Decimal.IntToString(7) == "7" by { assert Decimal.DigitChar(7) == '7'; }
    assert Decimal.IntToString(0) == "0" by { assert Decimal.DigitChar(0) == '0'; }
    assert Decimal.IntToString(1) == "1" by { assert Decimal.DigitChar(1) == '1'; }
    VersionRoundTrip.ToStringPieces(Version(8, 7, 0, 1));
    assert ToString(Version(8, 7, 0, 1)) == "8.7.0.1";
    VersionRoundTrip.ParseToString(Version(8, 7, 0, 1));
  }
}
