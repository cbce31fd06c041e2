/** utils.py: `format_sizes`, which renders a list of size labels as sorted
    values and ranges, and `has_valid_size`, the minimum-size filter the
    scrapers apply. Sizes are exact decimals (Dafny `real`); the source's
    floats and its 1.05 tolerance are kept as written. */
module Sizes {
  import opened Maybe
  import opened Text

  /** A parsed size: the cleaned text never carries a sign. */
  type Size = x: real | 0.0 <= x

  /** The default `min_size` of `has_valid_size`. */
  const DefaultMinSize: real := 41.0

  /** Neighbouring sizes at most this far apart belong to one run. */
  const RunGap: real := 1.05

  predicate IsSizeChar(c: char) {
    IsDigit(c) || c == '.' || c == ','
  }

  predicate IsCleaned(t: string) {
    forall i :: 0 <= i < |t| ==> IsDigit(t[i]) || t[i] == '.'
  }

  /** The cleaning step of both functions: keep digits, '.' and ',', then
      turn every ',' into '.'. */
  function Clean(s: string): (r: string)
    ensures |r| <= |s| && IsCleaned(r)
  {
    if s == [] then []
    else
      var head := if IsDigit(s[0]) then [s[0]] else if s[0] == '.' || s[0] == ',' then ['.'] else [];
      head + Clean(s[1..])
  }

  /** An entry cleans to nothing exactly when it holds no digit, '.' or ','. */
  lemma {:induction false} CleanEmpty(s: string)
    ensures Clean(s) == [] <==> forall i :: 0 <= i < |s| ==> !IsSizeChar(s[i])
  {
    if s != [] {
      CleanEmpty(s[1..]);
      if Clean(s) == [] {
        forall i | 0 <= i < |s| ensures !IsSizeChar(s[i]) {
          if i > 0 { assert s[i] == s[1..][i - 1]; }
        }
      }
      if forall i :: 0 <= i < |s| ==> !IsSizeChar(s[i]) {
        assert !IsSizeChar(s[0]);
        assert forall i :: 0 <= i < |s[1..]| ==> !IsSizeChar(s[1..][i]) by {
          forall i | 0 <= i < |s[1..]| ensures !IsSizeChar(s[1..][i]) {
            assert s[1..][i] == s[i + 1];
          }
        }
      }
    }
  }

  /** Cleaning works entry character by character, so it distributes over
      concatenation. */
  lemma {:induction false} CleanConcat(a: string, b: string)
    ensures Clean(a + b) == Clean(a) + Clean(b)
  {
    if a == [] {
      assert a + b == b;
    } else {
      var ab := a + b;
      assert ab[0] == a[0] && ab[1..] == a[1..] + b;
      CleanConcat(a[1..], b);
      var head := if IsDigit(a[0]) then [a[0]] else if a[0] == '.' || a[0] == ',' then ['.'] else [];
      assert Clean(ab) == head + Clean(a[1..] + b);
      assert Clean(a) == head + Clean(a[1..]);
      assert head + (Clean(a[1..]) + Clean(b)) == (head + Clean(a[1..])) + Clean(b);
    }
  }

  /** A token that is already clean is left as it is, so cleaning twice is
      cleaning once. */
  lemma {:induction false} CleanCleaned(t: string)
    requires IsCleaned(t)
    ensures Clean(t) == t
  {
    if t != [] {
      CleanCleaned(t[1..]);
    }
  }

  function Pow10(e: nat): (p: nat)
    ensures p >= 1
  {
    if e == 0 then 1 else 10 * Pow10(e - 1)
  }

  /** Index of the first '.' in `t`, or |t| when there is none. */
  function DotIndex(t: string): (k: nat)
    ensures k <= |t|
    ensures forall i :: 0 <= i < k ==> t[i] != '.'
    ensures k < |t| ==> t[k] == '.'
  {
    if t == [] || t[0] == '.' then 0 else 1 + DotIndex(t[1..])
  }

  /** At least one digit and at most one '.'. */
  predicate WellFormedNumber(t: string) {
    var k := DotIndex(t);
    t != [] && t != "." && (k == |t| || '.' !in t[k + 1..])
  }

  /** Python's `float(t)` on a cleaned token: digits with at most one '.'
      and at least one digit; anything else ("41.5.1", ".") raises
      ValueError, modelled as None. */
  function ParseNumber(t: string): (r: Option<Size>)
    requires IsCleaned(t)
    ensures r.Some? <==> WellFormedNumber(t)
  {
    var k := DotIndex(t);
    if k == |t| then
      if t == [] then None else Some(DigitsValue(t) as real)
    else
      ParseParts(t[..k], t[k + 1..])
  }

  /** The digits `a` before the first '.' and the text `b` after it: None
      when `b` holds another '.' or both are empty, otherwise whole part
      plus fraction. */
  function ParseParts(a: string, b: string): Option<Size>
    requires AllDigits(a) && IsCleaned(b)
  {
    if '.' in b || (a == [] && b == []) then None else Some(PartsValue(a, b))
  }

  /** Whole part `a` plus fraction digits `b` over 10^|b|. */
  function PartsValue(a: string, b: string): (v: Size)
    requires AllDigits(a) && AllDigits(b)
  {
    FractionNonNegative(DigitsValue(b), Pow10(|b|));
    DigitsValue(a) as real + DigitsValue(b) as real / Pow10(|b|) as real
  }

  lemma FractionNonNegative(n: nat, p: nat)
    requires p >= 1
    ensures 0.0 <= n as real / p as real
  {
  }

  /** The decimal digits of a natural number read back as that number. */
  lemma ParseNumberOfNat(n: nat)
    ensures ParseNumber(NatToString(n)) == Some(n as real)
  {
    DigitsValueOfNatToString(n);
  }

  /** The parsing loop: the cleaned values of the non-empty entries, in
      order, or None as soon as one of them is malformed. */
  function ParseAll(sizes: seq<string>): Option<seq<Size>>
  {
    if sizes == [] then Some([])
    else
      match ParseAll(sizes[..|sizes| - 1])
      case None => None
      case Some(vals) =>
        var c := Clean(sizes[|sizes| - 1]);
        if c == [] then Some(vals)
        else
          match ParseNumber(c)
          case None => None
          case Some(v) => Some(vals + [v])
  }

  predicate Malformed(s: string) {
    var c := Clean(s); c != [] && ParseNumber(c).None?
  }

  /** One more entry makes parsing fail exactly when it is malformed or
      parsing had failed already. */
  lemma ParseAllStep(sizes: seq<string>)
    requires sizes != []
    ensures ParseAll(sizes).None? <==> ParseAll(sizes[..|sizes| - 1]).None? || Malformed(sizes[|sizes| - 1])
  {
  }

  lemma SomeMalformedSnoc(init: seq<string>, x: string)
    ensures (exists i :: 0 <= i < |init + [x]| && Malformed((init + [x])[i]))
        <==> (exists i :: 0 <= i < |init| && Malformed(init[i])) || Malformed(x)
  {
    var sizes := init + [x];
    if exists i :: 0 <= i < |init| && Malformed(init[i]) {
      var i :| 0 <= i < |init| && Malformed(init[i]);
      assert sizes[i] == init[i];
    }
    if Malformed(x) {
      assert sizes[|init|] == x;
    }
    if exists i :: 0 <= i < |sizes| && Malformed(sizes[i]) {
      var i :| 0 <= i < |sizes| && Malformed(sizes[i]);
      if i < |init| { assert init[i] == sizes[i]; }
    }
  }

  /** What parsing one more entry does to a successful parse. */
  lemma ParseAllNext(sizes: seq<string>, i: nat, vals: seq<Size>)
    requires i < |sizes| && ParseAll(sizes[..i]) == Some(vals)
    ensures var c := Clean(sizes[i]);
      && (c == [] ==> ParseAll(sizes[..i + 1]) == Some(vals))
      && (c != [] && ParseNumber(c).Some? ==> ParseAll(sizes[..i + 1]) == Some(vals + [ParseNumber(c).value]))
      && (c != [] && ParseNumber(c).None? ==> ParseAll(sizes[..i + 1]).None?)
  {
    assert sizes[..i + 1][..i] == sizes[..i];
  }

  /** Parsing fails exactly when some entry is malformed. */
  lemma {:induction false} ParseAllFails(sizes: seq<string>)
    ensures ParseAll(sizes).None? <==> exists i :: 0 <= i < |sizes| && Malformed(sizes[i])
  {
    if sizes != [] {
      var init, last := sizes[..|sizes| - 1], sizes[|sizes| - 1];
      assert init + [last] == sizes;
      ParseAllFails(init);
      ParseAllStep(sizes);
      SomeMalformedSnoc(init, last);
    }
  }

  lemma {:induction false} ParseAllExtendsNone(sizes: seq<string>, n: nat)
    requires n <= |sizes| && ParseAll(sizes[..n]).None?
    ensures ParseAll(sizes).None?
  {
    ParseAllFails(sizes[..n]);
    var i :| 0 <= i < n && Malformed(sizes[..n][i]);
    assert Malformed(sizes[i]);
    ParseAllFails(sizes);
  }

  /** Entries that all clean to "" parse to the empty list. */
  lemma {:induction false} ParseAllEmpty(sizes: seq<string>)
    requires forall i :: 0 <= i < |sizes| ==> Clean(sizes[i]) == []
    ensures ParseAll(sizes) == Some([])
  {
    if sizes != [] {
      ParseAllEmpty(sizes[..|sizes| - 1]);
    }
  }

  predicate StrictlyIncreasing(s: seq<Size>) {
    forall i, j :: 0 <= i < j < |s| ==> s[i] < s[j]
  }

  function Insert(x: Size, s: seq<Size>): (r: seq<Size>)
    requires StrictlyIncreasing(s)
    ensures StrictlyIncreasing(r)
    ensures forall y :: y in r <==> y in s || y == x
  {
    if s == [] then [x]
    else if x < s[0] then [x] + s
    else if x == s[0] then s
    else
      var t := Insert(x, s[1..]);
      assert forall y :: y in s <==> y == s[0] || y in s[1..];
      forall i | 0 <= i < |t| ensures s[0] < t[i] {
        assert t[i] in t;
      }
      [s[0]] + t
  }

  /** `sorted(list(set(parsed_sizes)))`: the distinct values, ascending. */
  function SortedUnique(s: seq<Size>): (r: seq<Size>)
    ensures StrictlyIncreasing(r)
    ensures forall y :: y in r <==> y in s
  {
    if s == [] then []
    else
      var r := Insert(s[|s| - 1], SortedUnique(s[..|s| - 1]));
      assert s == s[..|s| - 1] + [s[|s| - 1]];
      r
  }

  /** A list that is already ascending without repeats comes back unchanged
      from `sorted(list(set(...)))`. */
  lemma SortedUniqueOfIncreasing(s: seq<Size>)
    requires StrictlyIncreasing(s)
    ensures SortedUnique(s) == s
  {
    StrictlyIncreasingUnique(SortedUnique(s), s);
  }

  /** A strictly increasing sequence is determined by its elements, so
      SortedUnique is the one sorted, duplicate-free listing of the values. */
  lemma {:induction false} StrictlyIncreasingUnique(a: seq<Size>, b: seq<Size>)
    requires StrictlyIncreasing(a) && StrictlyIncreasing(b)
    requires forall y :: y in a <==> y in b
    ensures a == b
  {
    assert a == [] <==> b == [] by {
      if a != [] { assert a[0] in a; }
      if b != [] { assert b[0] in b; }
    }
    if a != [] {
      assert a[0] == b[0] by {
        assert a[0] in b && b[0] in a;
        var i :| 0 <= i < |b| && b[i] == a[0];
        var j :| 0 <= j < |a| && a[j] == b[0];
        assert b[0] <= b[i];
        assert a[0] <= a[j];
      }
      forall y ensures y in a[1..] <==> y in b[1..] {
        assert y in a[1..] <==> y in a && y != a[0];
        assert y in b[1..] <==> y in b && y != b[0];
      }
      StrictlyIncreasingUnique(a[1..], b[1..]);
      assert a == [a[0]] + a[1..] && b == [b[0]] + b[1..];
    }
  }

  function Last(s: seq<Size>): Size
    requires s != []
  {
    s[|s| - 1]
  }

  function Flatten(gs: seq<seq<Size>>): seq<Size> {
    if gs == [] then [] else Flatten(gs[..|gs| - 1]) + gs[|gs| - 1]
  }

  /** The grouping loop: sorted values split into runs, a new run starting
      wherever the gap to the previous value exceeds 1.05. */
  function Runs(s: seq<Size>): (g: seq<seq<Size>>)
    ensures s != [] <==> g != []
    ensures forall i :: 0 <= i < |g| ==> g[i] != []
  {
    if s == [] then []
    else
      var prev := Runs(s[..|s| - 1]);
      var x := s[|s| - 1];
      if prev == [] then [[x]]
      else
        var last := prev[|prev| - 1];
        if x - Last(last) <= RunGap then prev[..|prev| - 1] + [last + [x]]
        else prev + [[x]]
  }

  /** Inside a run neighbouring values are at most 1.05 apart. */
  predicate GapsWithin(g: seq<seq<Size>>) {
    forall i, j :: 0 <= i < |g| && 0 < j < |g[i]| ==> g[i][j] - g[i][j - 1] <= RunGap
  }

  /** Between consecutive runs the gap exceeds 1.05, so no run could be
      extended by its neighbour. */
  predicate GapsBetween(g: seq<seq<Size>>)
    requires forall i :: 0 <= i < |g| ==> g[i] != []
  {
    forall i :: 0 < i < |g| ==> g[i][0] - Last(g[i - 1]) > RunGap
  }

  lemma FlattenJoin(prev: seq<seq<Size>>, x: Size)
    requires prev != []
    ensures Flatten(prev[..|prev| - 1] + [prev[|prev| - 1] + [x]]) == Flatten(prev) + [x]
  {
    var n := |prev|;
    var g := prev[..n - 1] + [prev[n - 1] + [x]];
    assert g[..n - 1] == prev[..n - 1];
    assert Flatten(prev) == Flatten(prev[..n - 1]) + prev[n - 1];
  }

  lemma FlattenSplit(prev: seq<seq<Size>>, x: Size)
    ensures Flatten(prev + [[x]]) == Flatten(prev) + [x]
  {
    assert (prev + [[x]])[..|prev|] == prev;
  }

  /** Concatenating the runs gives back the sorted values. */
  lemma {:induction false} RunsFlatten(s: seq<Size>)
    ensures Flatten(Runs(s)) == s
  {
    if s != [] {
      var init := s[..|s| - 1];
      var prev := Runs(init);
      var x := s[|s| - 1];
      RunsFlatten(init);
      assert s == init + [x];
      if prev == [] {
        assert Flatten([[x]]) == Flatten([]) + [x];
      } else if x - Last(prev[|prev| - 1]) <= RunGap {
        FlattenJoin(prev, x);
      } else {
        FlattenSplit(prev, x);
      }
    }
  }

  /** Extending the last run by a value close to its end keeps the gaps
      inside runs small. */
  lemma GapsWithinJoin(prev: seq<seq<Size>>, x: Size)
    requires prev != [] && prev[|prev| - 1] != [] && GapsWithin(prev)
    requires x - Last(prev[|prev| - 1]) <= RunGap
    ensures GapsWithin(prev[..|prev| - 1] + [prev[|prev| - 1] + [x]])
  {
    var n := |prev|;
    var last := prev[n - 1];
    var g := prev[..n - 1] + [last + [x]];
    forall i, j | 0 <= i < |g| && 0 < j < |g[i]| ensures g[i][j] - g[i][j - 1] <= RunGap {
      if i < n - 1 {
        assert g[i] == prev[i];
      } else if j < |last| {
        assert g[i][j] == last[j] && g[i][j - 1] == last[j - 1];
      }
    }
  }

  /** Starting a new run of one value keeps the gaps inside runs small. */
  lemma GapsWithinSplit(prev: seq<seq<Size>>, x: Size)
    requires GapsWithin(prev)
    ensures GapsWithin(prev + [[x]])
  {
    var g := prev + [[x]];
    forall i, j | 0 <= i < |g| && 0 < j < |g[i]| ensures g[i][j] - g[i][j - 1] <= RunGap {
      assert g[i] == prev[i];
    }
  }

  /** Neighbouring values inside a run are at most 1.05 apart. */
  lemma {:induction false} RunsGapsWithin(s: seq<Size>)
    ensures GapsWithin(Runs(s))
  {
    if s != [] {
      var init := s[..|s| - 1];
      var prev := Runs(init);
      var x := s[|s| - 1];
      RunsGapsWithin(init);
      if prev != [] {
        if x - Last(prev[|prev| - 1]) <= RunGap {
          GapsWithinJoin(prev, x);
        } else {
          GapsWithinSplit(prev, x);
        }
      }
    }
  }

  /** Consecutive runs are more than 1.05 apart, so each run is maximal. */
  lemma {:induction false} RunsGapsBetween(s: seq<Size>)
    ensures GapsBetween(Runs(s))
  {
    if s != [] {
      var init := s[..|s| - 1];
      var prev := Runs(init);
      var x := s[|s| - 1];
      var g := Runs(s);
      RunsGapsBetween(init);
      if prev != [] {
        var n := |prev|;
        var last := prev[n - 1];
        if x - Last(last) <= RunGap {
          forall i | 0 < i < |g| ensures g[i][0] - Last(g[i - 1]) > RunGap {
            assert g[i - 1] == prev[i - 1];
            assert g[i][0] == prev[i][0];
          }
        } else {
          forall i | 0 < i < |g| ensures g[i][0] - Last(g[i - 1]) > RunGap {
            assert g[i - 1] == prev[i - 1];
            if i < n { assert g[i] == prev[i]; }
          }
        }
      }
    }
  }

  /** The last run ends with the last value. */
  lemma RunsLast(s: seq<Size>)
    requires s != []
    ensures Last(Runs(s)[|Runs(s)| - 1]) == Last(s)
  {
  }

  /** A value within 1.05 of the previous one joins the current run. */
  lemma RunsJoin(s: seq<Size>, x: Size)
    requires s != [] && x - Last(s) <= RunGap
    ensures Runs(s + [x]) == Runs(s)[..|Runs(s)| - 1] + [Runs(s)[|Runs(s)| - 1] + [x]]
  {
    assert (s + [x])[..|s|] == s;
    RunsLast(s);
  }

  /** A value more than 1.05 above the previous one starts a new run. */
  lemma RunsSplit(s: seq<Size>, x: Size)
    requires s != [] && x - Last(s) > RunGap
    ensures Runs(s + [x]) == Runs(s) + [[x]]
  {
    assert (s + [x])[..|s|] == s;
    RunsLast(s);
  }

  /** Sorted values whose every gap is at most 1.05 form a single run. */
  lemma {:induction false} RunsSingle(s: seq<Size>)
    requires s != []
    requires forall i :: 0 < i < |s| ==> s[i] - s[i - 1] <= RunGap
    ensures Runs(s) == [s]
  {
    var init := s[..|s| - 1];
    if init == [] {
      assert s == [s[0]];
    } else {
      forall i | 0 < i < |init| ensures init[i] - init[i - 1] <= RunGap {
        assert init[i] == s[i] && init[i - 1] == s[i - 1];
      }
      RunsSingle(init);
      assert Last(init) == s[|s| - 2];
      assert init + [s[|s| - 1]] == s;
    }
  }

  predicate IsIntegral(v: real) {
    v.Floor as real == v
  }

  /** `v` with the decimal point moved `e` places to the right. */
  function Scale(v: real, e: nat): (r: real)
    ensures 0.0 <= v ==> 0.0 <= r
  {
    if e == 0 then v else 10.0 * Scale(v, e - 1)
  }

  /** The least number of decimals, from `e` up to `k`, that shows `v`
      exactly (`k` when none does). */
  function MinScale(v: real, e: nat, k: nat): (r: nat)
    ensures e <= r
    decreases k - e
  {
    if e >= k || IsIntegral(Scale(v, e)) then e else MinScale(v, e + 1, k)
  }

  /** `s` with zeros in front up to `n` characters. */
  function PadZeros(s: string, n: nat): string
    decreases n - |s|
  {
    if |s| >= n then s else PadZeros("0" + s, n)
  }

  lemma {:induction false} PadZerosDigits(s: string, n: nat)
    requires AllDigits(s)
    ensures AllDigits(PadZeros(s, n))
    ensures DigitsValue(PadZeros(s, n)) == DigitsValue(s)
    decreases n - |s|
  {
    if |s| < n {
      DigitsValueZero(s);
      PadZerosDigits("0" + s, n);
    }
  }

  lemma DivNonNegative(m: nat, p: nat)
    requires 1 <= p
    ensures 0 <= m / p
  {
  }

  /** Python's text for a size: `int(v)` when the value is integral, the
      shortest decimal otherwise (`k` bounds the decimals looked at). */
  function Render(v: Size, k: nat): (r: string)
    ensures forall i :: 0 <= i < |r| ==> IsDigit(r[i]) || r[i] == '.'
  {
    if IsIntegral(v) then NatToString(v.Floor) else Decimal(v, MinScale(v, 1, k))
  }

  /** `v` written with exactly `e` decimals (truncated past them). */
  function Decimal(v: Size, e: nat): (r: string)
    ensures forall i :: 0 <= i < |r| ==> IsDigit(r[i]) || r[i] == '.'
  {
    var scaled := Scale(v, e);
    var m: nat := scaled.Floor;
    var p := Pow10(e);
    DivNonNegative(m, p);
    PadZerosDigits(NatToString(m % p), e);
    DecimalChars(NatToString(m / p), PadZeros(NatToString(m % p), e));
    NatToString(m / p) + "." + PadZeros(NatToString(m % p), e)
  }

  lemma DecimalChars(a: string, b: string)
    requires AllDigits(a) && AllDigits(b)
    ensures forall i :: 0 <= i < |a + "." + b| ==> IsDigit((a + "." + b)[i]) || (a + "." + b)[i] == '.'
  {
    forall i | 0 <= i < |a + "." + b| ensures IsDigit((a + "." + b)[i]) || (a + "." + b)[i] == '.' {
      if i < |a| {
        assert (a + "." + b)[i] == a[i];
      } else if i > |a| {
        assert (a + "." + b)[i] == b[i - |a| - 1];
      }
    }
  }

  /** Integral sizes print without ".0". */
  lemma RenderIntegral(n: nat, k: nat)
    ensures Render(n as real, k) == NatToString(n)
  {
  }

  /** The search for the fewest decimals stops at a scale that shows `v`
      exactly whenever scale `k` does. */
  lemma {:induction false} MinScaleIntegral(v: real, e: nat, k: nat)
    requires e <= k && IsIntegral(Scale(v, k))
    ensures IsIntegral(Scale(v, MinScale(v, e, k)))
    decreases k - e
  {
    if e < k && !IsIntegral(Scale(v, e)) {
      MinScaleIntegral(v, e + 1, k);
    }
  }

  /** A number below 10^e has at most `e` digits. */
  lemma {:induction false} NatToStringShort(n: nat, e: nat)
    requires 1 <= e && n < Pow10(e)
    ensures |NatToString(n)| <= e
  {
    if n >= 10 {
      assert 2 <= e;
      NatToStringShort(n / 10, e - 1);
    }
  }

  lemma {:induction false} PadZerosLength(s: string, n: nat)
    requires |s| <= n
    ensures |PadZeros(s, n)| == n
    decreases n - |s|
  {
    if |s| < n {
      PadZerosLength("0" + s, n);
    }
  }

  /** A leading zero does not change the value of a digit string. */
  lemma {:induction false} DigitsValueZero(s: string)
    requires AllDigits(s)
    ensures DigitsValue("0" + s) == DigitsValue(s)
  {
    var t := "0" + s;
    if s == [] {
      assert t[..|t| - 1] == [];
    } else {
      assert t[..|t| - 1] == "0" + s[..|s| - 1];
      DigitsValueZero(s[..|s| - 1]);
    }
  }

  /** The first '.' of `a + "." + b` is the one after `a` when `a` has none. */
  lemma DotIndexJoin(a: string, b: string)
    requires AllDigits(a)
    ensures DotIndex(a + "." + b) == |a|
  {
    var t := a + "." + b;
    assert t[|a|] == '.';
    assert forall i :: 0 <= i < |a| ==> t[i] == a[i];
  }

  /** Digits, one '.', and digits read back as whole part plus fraction. */
  lemma ParseDecimal(a: string, b: string)
    requires AllDigits(a) && AllDigits(b) && b != []
    ensures IsCleaned(a + "." + b)
    ensures ParseNumber(a + "." + b) == Some(PartsValue(a, b))
  {
    var t := a + "." + b;
    DecimalChars(a, b);
    DotIndexJoin(a, b);
    var k := DotIndex(t);
    assert t[..k] == a;
    assert t[k + 1..] == b;
    assert '.' !in b by {
      assert forall j :: 0 <= j < |b| ==> IsDigit(b[j]);
    }
    ParseNumberFraction(t, a, b);
  }

  /** The value of a well-formed token with a '.'. */
  lemma ParseNumberFraction(t: string, a: string, b: string)
    requires IsCleaned(t) && DotIndex(t) < |t|
    requires a == t[..DotIndex(t)] && b == t[DotIndex(t) + 1..] && '.' !in b && (a != [] || b != [])
    ensures AllDigits(a) && AllDigits(b)
    ensures ParseNumber(t) == Some(PartsValue(a, b))
  {
    assert ParseNumber(t) == ParseParts(a, b);
  }

  /** Quotient and remainder by `p`, put back together as reals. */
  lemma DivModReal(m: nat, p: nat)
    requires 1 <= p
    ensures (m / p) as real + (m % p) as real / p as real == m as real / p as real
  {
    var q, r := m / p, m % p;
    assert m == q * p + r;
    assert m as real == q as real * p as real + r as real;
    calc {
      m as real / p as real;
      (q as real * p as real + r as real) / p as real;
      q as real * p as real / p as real + r as real / p as real;
      q as real + r as real / p as real;
    }
  }

  lemma {:induction false} ScaleProduct(v: real, e: nat)
    ensures Scale(v, e) == v * Pow10(e) as real
  {
    if e > 0 {
      ScaleProduct(v, e - 1);
    }
  }

  /** When scale `e` shows `v` exactly, `v` is that whole number over
      10^e. */
  lemma ScaledBack(v: Size, e: nat)
    requires IsIntegral(Scale(v, e))
    ensures 0 <= Scale(v, e).Floor
    ensures v == Scale(v, e).Floor as real / Pow10(e) as real
  {
    var x := Scale(v, e);
    WholeOf(x);
    ScaleProduct(v, e);
    DivideBack(v, Pow10(e), x.Floor);
  }

  lemma WholeOf(x: real)
    requires IsIntegral(x) && 0.0 <= x
    ensures 0 <= x.Floor && x.Floor as real == x
  {
  }

  lemma DivideBack(v: real, p: nat, m: int)
    requires 1 <= p && v * p as real == m as real
    ensures v == m as real / p as real
  {
  }

  /** With `e` decimals enough to show `v` exactly, its decimal text reads
      back as `v`. */
  lemma DecimalReads(v: Size, e: nat)
    requires 1 <= e && IsIntegral(Scale(v, e))
    ensures IsCleaned(Decimal(v, e)) && ParseNumber(Decimal(v, e)) == Some(v)
  {
    ScaledBack(v, e);
    var p := Pow10(e);
    var m: nat := Scale(v, e).Floor;
    DivNonNegative(m, p);
    var a, s := NatToString(m / p), NatToString(m % p);
    var b := PadZeros(s, e);
    assert Decimal(v, e) == a + "." + b;
    NatToStringShort(m % p, e);
    PadZerosLength(s, e);
    PadZerosDigits(s, e);
    DigitsValueOfNatToString(m / p);
    DigitsValueOfNatToString(m % p);
    ParseDecimal(a, b);
    DivModReal(m, p);
  }

  /** Rendering with a bound `k` that shows `v` exactly gives text that
      `float` reads back as `v`. */
  lemma RenderReads(v: Size, k: nat)
    requires IsIntegral(Scale(v, k))
    ensures IsCleaned(Render(v, k)) && ParseNumber(Render(v, k)) == Some(v)
  {
    if IsIntegral(v) {
      ParseNumberOfNat(v.Floor);
    } else {
      assert Scale(v, 0) == v;
      MinScaleIntegral(v, 1, k);
      DecimalReads(v, MinScale(v, 1, k));
    }
  }

  lemma {:induction false} ScaleOfNat(n: nat, e: nat)
    ensures Scale(n as real, e) == (n * Pow10(e)) as real
  {
    if e > 0 {
      ScaleOfNat(n, e - 1);
      assert n * Pow10(e) == 10 * (n * Pow10(e - 1));
    }
  }

  lemma IntegralOfInt(x: real, n: int)
    requires x == n as real
    ensures IsIntegral(x)
  {
  }

  /** A token of at most `n` characters that `float` reads shows its value
      exactly with `n` decimals. */
  lemma ParseNumberScaled(t: string, n: nat)
    requires IsCleaned(t) && ParseNumber(t).Some? && |t| <= n
    ensures IsIntegral(Scale(ParseNumber(t).value, n))
  {
    var v := ParseNumber(t).value;
    var k := DotIndex(t);
    if k == |t| {
      ScaleOfNat(DigitsValue(t), n);
      IntegralOfInt(Scale(v, n), DigitsValue(t) * Pow10(n));
    } else {
      var a, b := t[..k], t[k + 1..];
      ParseNumberFraction(t, a, b);
      FractionScaled(a, b, n);
      IntegralOfInt(Scale(v, n), (DigitsValue(a) * Pow10(|b|) + DigitsValue(b)) * Pow10(n - |b|));
    }
  }

  lemma {:induction false} ScaleAdd(v: real, i: nat, j: nat)
    ensures Scale(v, i + j) == Scale(Scale(v, i), j)
  {
    if j > 0 {
      ScaleAdd(v, i, j - 1);
    }
  }

  lemma {:induction false} ScaleSum(x: real, y: real, e: nat)
    ensures Scale(x + y, e) == Scale(x, e) + Scale(y, e)
  {
    if e > 0 {
      ScaleSum(x, y, e - 1);
    }
  }

  lemma ScaleFraction(y: nat, e: nat)
    ensures Scale(y as real / Pow10(e) as real, e) == y as real
  {
    ScaleProduct(y as real / Pow10(e) as real, e);
  }

  /** Whole part and fraction digits, moved `n >= |b|` places, give the
      whole number written `a` then `b` then `n - |b|` zeros. */
  lemma FractionScaled(a: string, b: string, n: nat)
    requires AllDigits(a) && AllDigits(b) && |b| <= n
    ensures Scale(PartsValue(a, b), n)
      == ((DigitsValue(a) * Pow10(|b|) + DigitsValue(b)) * Pow10(n - |b|)) as real
  {
    var x, y, j := DigitsValue(a), DigitsValue(b), |b|;
    var v := PartsValue(a, b);
    ScaleSum(x as real, y as real / Pow10(j) as real, j);
    ScaleOfNat(x, j);
    ScaleFraction(y, j);
    assert Scale(v, j) == (x * Pow10(j) + y) as real;
    ScaleAdd(v, j, n - j);
    ScaleOfNat(x * Pow10(j) + y, n - j);
  }

  /** Each value rendered on its own, in order. */
  function RenderEach(g: seq<Size>, k: nat): (r: seq<string>)
    ensures |r| == |g|
    ensures forall i :: 0 <= i < |g| ==> r[i] == Render(g[i], k)
  {
    if g == [] then [] else RenderEach(g[..|g| - 1], k) + [Render(g[|g| - 1], k)]
  }

  /** One run: "first-last" when it holds three values or more, otherwise
      each value on its own. */
  function RenderRun(g: seq<Size>, k: nat): seq<string>
    requires g != []
  {
    if |g| >= 3 then [Render(g[0], k) + "-" + Render(Last(g), k)] else RenderEach(g, k)
  }

  /** What one run renders to: a run of three or more values gives one
      string whose two '-'-separated parts are its first and last values;
      a shorter run gives each value, in order. */
  lemma RenderRunShape(g: seq<Size>, k: nat)
    requires g != []
    ensures |g| >= 3 ==>
      |RenderRun(g, k)| == 1 && Split(RenderRun(g, k)[0], '-') == [Render(g[0], k), Render(Last(g), k)]
    ensures |g| < 3 ==>
      |RenderRun(g, k)| == |g| && forall i :: 0 <= i < |g| ==> RenderRun(g, k)[i] == Render(g[i], k)
  {
    if |g| >= 3 {
      var a, b := Render(g[0], k), Render(Last(g), k);
      assert '-' !in a && '-' !in b;
      assert RenderRun(g, k)[0] == a + ['-'] + b;
      SplitPrefix(a, b, '-');
      SplitNone(b, '-');
    }
  }

  function RenderRuns(gs: seq<seq<Size>>, k: nat): seq<string>
    requires forall i :: 0 <= i < |gs| ==> gs[i] != []
  {
    if gs == [] then [] else RenderRuns(gs[..|gs| - 1], k) + RenderRun(gs[|gs| - 1], k)
  }

  /** Rendering one more run appends its strings. */
  lemma RenderRunsSnoc(gs: seq<seq<Size>>, g: seq<Size>, k: nat)
    requires forall i :: 0 <= i < |gs| ==> gs[i] != []
    requires g != []
    ensures RenderRuns(gs + [g], k) == RenderRuns(gs, k) + RenderRun(g, k)
  {
    assert (gs + [g])[..|gs|] == gs;
  }

  lemma RenderRunsNext(gs: seq<seq<Size>>, g: nat, k: nat)
    requires forall i :: 0 <= i < |gs| ==> gs[i] != []
    requires g < |gs|
    ensures RenderRuns(gs[..g + 1], k) == RenderRuns(gs[..g], k) + RenderRun(gs[g], k)
  {
    assert gs[..g + 1] == gs[..g] + [gs[g]];
    RenderRunsSnoc(gs[..g], gs[g], k);
  }

  /** A bound on the decimals any entry can carry. */
  function MaxLength(sizes: seq<string>): nat {
    if sizes == [] then 0
    else var m := MaxLength(sizes[..|sizes| - 1]); if |sizes[|sizes| - 1]| > m then |sizes[|sizes| - 1]| else m
  }

  lemma {:induction false} MaxLengthBound(sizes: seq<string>, i: nat)
    requires i < |sizes|
    ensures |sizes[i]| <= MaxLength(sizes)
  {
    if i < |sizes| - 1 {
      MaxLengthBound(sizes[..|sizes| - 1], i);
    }
  }

  /** Every parsed value shows exactly with `n` decimals when no entry is
      longer than `n`. */
  lemma {:induction false} ParseAllScaledBy(sizes: seq<string>, n: nat)
    requires forall i :: 0 <= i < |sizes| ==> |sizes[i]| <= n
    requires ParseAll(sizes).Some?
    ensures forall v :: v in ParseAll(sizes).value ==> IsIntegral(Scale(v, n))
  {
    if sizes != [] {
      var init, last := sizes[..|sizes| - 1], sizes[|sizes| - 1];
      assert forall i :: 0 <= i < |init| ==> init[i] == sizes[i];
      ParseAllScaledBy(init, n);
      var c := Clean(last);
      if c != [] {
        ParseNumberScaled(c, n);
      }
    }
  }

  /** The bound `Formatted` renders with is large enough: every value the
      entries parse to reads back from its rendered text. The values
      rendered are those of `SortedUnique(vals)`, which holds exactly the
      values of `vals`. */
  lemma RenderReadsParsed(sizes: seq<string>)
    requires ParseAll(sizes).Some?
    ensures forall v :: v in ParseAll(sizes).value ==>
      IsCleaned(Render(v, MaxLength(sizes))) && ParseNumber(Render(v, MaxLength(sizes))) == Some(v)
  {
    forall i | 0 <= i < |sizes| ensures |sizes[i]| <= MaxLength(sizes) {
      MaxLengthBound(sizes, i);
    }
    ParseAllScaledBy(sizes, MaxLength(sizes));
    forall v | v in ParseAll(sizes).value
      ensures IsCleaned(Render(v, MaxLength(sizes))) && ParseNumber(Render(v, MaxLength(sizes))) == Some(v)
    {
      RenderReads(v, MaxLength(sizes));
    }
  }

  /** What `format_sizes(sizes_list)` returns. */
  function Formatted(sizes: seq<string>): string {
    if sizes == [] then ""
    else
      match ParseAll(sizes)
      case None => Join(sizes, ", ")
      case Some(vals) =>
        if vals == [] then Join(sizes, ", ")
        else Join(RenderRuns(Runs(SortedUnique(vals)), MaxLength(sizes)), ", ")
  }

  /** The empty list formats as "". */
  lemma FormattedEmpty()
    ensures Formatted([]) == ""
  {
  }

  /** Entries without any digit, '.' or ',' come back joined by ", ". */
  lemma FormattedNoNumbers(sizes: seq<string>)
    requires forall i :: 0 <= i < |sizes| ==> forall j :: 0 <= j < |sizes[i]| ==> !IsSizeChar(sizes[i][j])
    ensures Formatted(sizes) == Join(sizes, ", ")
  {
    forall i | 0 <= i < |sizes| ensures Clean(sizes[i]) == [] {
      CleanEmpty(sizes[i]);
    }
    ParseAllEmpty(sizes);
  }

  /** One malformed entry makes the result the input joined by ", ". */
  lemma FormattedMalformed(sizes: seq<string>, i: nat)
    requires i < |sizes| && Malformed(sizes[i])
    ensures Formatted(sizes) == Join(sizes, ", ")
  {
    ParseAllFails(sizes);
  }

  /** Otherwise the values shown are the distinct parsed values in strictly
      ascending order, split into maximal runs. */
  lemma FormattedRuns(sizes: seq<string>)
    requires forall i :: 0 <= i < |sizes| ==> !Malformed(sizes[i])
    requires exists i :: 0 <= i < |sizes| && Clean(sizes[i]) != []
    ensures ParseAll(sizes).Some?
    ensures var vals := ParseAll(sizes).value;
            vals != [] &&
            Formatted(sizes) == Join(RenderRuns(Runs(SortedUnique(vals)), MaxLength(sizes)), ", ")
  {
    ParseAllFails(sizes);
    var vals := ParseAll(sizes).value;
    if vals == [] {
      var i :| 0 <= i < |sizes| && Clean(sizes[i]) != [];
      ParseAllKeeps(sizes, i);
    }
  }

  lemma {:induction false} ParseAllKeeps(sizes: seq<string>, i: nat)
    requires i < |sizes| && Clean(sizes[i]) != [] && ParseAll(sizes).Some?
    ensures ParseAll(sizes).value != []
  {
    var init := sizes[..|sizes| - 1];
    if i < |init| {
      assert init[i] == sizes[i];
      ParseAllKeeps(init, i);
    }
  }

  /** `format_sizes`, with the loops of the source. */
  method FormatSizes(sizes: seq<string>) returns (r: string)
    ensures r == Formatted(sizes)
  {
    if |sizes| == 0 {
      return "";
    }
    var parsed := ParseEntries(sizes);
    if parsed.None? || parsed.value == [] {
      return Join(sizes, ", ");
    }

    var sorted := SortedUnique(parsed.value);
    assert sorted != [] by {
      assert parsed.value[0] in parsed.value;
    }
    var groups := GroupRuns(sorted);
    var finals := RenderGroups(groups, MaxLength(sizes));
    return Join(finals, ", ");
  }

  /** The parsing loop of `format_sizes` (`parsed_sizes`); a malformed
      entry ends it, as the source's `except ValueError` does. */
  method ParseEntries(sizes: seq<string>) returns (parsed: Option<seq<Size>>)
    ensures parsed == ParseAll(sizes)
  {
    var vals: seq<Size> := [];
    var i := 0;
    while i < |sizes|
      invariant 0 <= i <= |sizes|
      invariant ParseAll(sizes[..i]) == Some(vals)
    {
      ParseAllNext(sizes, i, vals);
      var c := Clean(sizes[i]);
      if c != [] {
        var v := ParseNumber(c);
        if v.None? {
          ParseAllExtendsNone(sizes, i + 1);
          return None;
        }
        vals := vals + [v.value];
      }
      i := i + 1;
    }
    assert sizes[..i] == sizes;
    return Some(vals);
  }

  /** The grouping loop of `format_sizes` (`current_group`, `groups`). */
  method GroupRuns(sorted: seq<Size>) returns (groups: seq<seq<Size>>)
    requires sorted != []
    ensures groups == Runs(sorted)
  {
    groups := [];
    var current: seq<Size> := [sorted[0]];
    var j := 1;
    assert sorted[..1] == [sorted[0]];
    while j < |sorted|
      invariant 1 <= j <= |sorted|
      invariant current != [] && Last(current) == sorted[j - 1]
      invariant groups + [current] == Runs(sorted[..j])
    {
      assert sorted[..j + 1][..j] == sorted[..j];
      if sorted[j] - sorted[j - 1] <= RunGap {
        current := current + [sorted[j]];
      } else {
        groups := groups + [current];
        current := [sorted[j]];
      }
      j := j + 1;
    }
    assert sorted[..j] == sorted;
    groups := groups + [current];
  }

  /** The rendering loop of `format_sizes` (`final_strings`). */
  method RenderGroups(groups: seq<seq<Size>>, k: nat) returns (finals: seq<string>)
    requires forall i :: 0 <= i < |groups| ==> groups[i] != []
    ensures finals == RenderRuns(groups, k)
  {
    finals := [];
    var g := 0;
    while g < |groups|
      invariant 0 <= g <= |groups|
      invariant finals == RenderRuns(groups[..g], k)
    {
      var strings := RenderGroup(groups[g], k);
      RenderRunsNext(groups, g, k);
      finals := finals + strings;
      g := g + 1;
    }
    assert groups[..g] == groups;
  }

  /** The body of the rendering loop: one string for a run of three or more,
      otherwise one per value. */
  method RenderGroup(group: seq<Size>, k: nat) returns (strings: seq<string>)
    requires group != []
    ensures strings == RenderRun(group, k)
  {
    if |group| >= 3 {
      strings := [Render(group[0], k) + "-" + Render(group[|group| - 1], k)];
    } else {
      strings := RenderValues(group, k);
    }
  }

  /** The inner loop `for v in group` of the rendering loop. */
  method RenderValues(group: seq<Size>, k: nat) returns (parts: seq<string>)
    ensures parts == RenderEach(group, k)
  {
    parts := [];
    var t := 0;
    while t < |group|
      invariant 0 <= t <= |group|
      invariant parts == RenderEach(group[..t], k)
    {
      assert group[..t + 1][..t] == group[..t];
      parts := parts + [Render(group[t], k)];
      t := t + 1;
    }
    assert group[..t] == group;
  }

  /** What `has_valid_size(sizes_list, min_size)` returns: scanning left to
      right, true at the first entry whose value reaches `minSize`, false at
      the first malformed entry (the except branch) or at the end. */
  function ValidSizeFound(sizes: seq<string>, minSize: real): bool {
    if sizes == [] then false
    else
      var c := Clean(sizes[0]);
      if c == [] then ValidSizeFound(sizes[1..], minSize)
      else
        match ParseNumber(c)
        case None => false
        case Some(v) => v >= minSize || ValidSizeFound(sizes[1..], minSize)
  }

  /** The entry's cleaned value parses and reaches `minSize`. */
  predicate Reaches(s: string, minSize: real) {
    var c := Clean(s); c != [] && ParseNumber(c).Some? && ParseNumber(c).value >= minSize
  }

  /** Entry `i` reaches `minSize` and no entry before it is malformed. */
  predicate FirstHit(sizes: seq<string>, i: int, minSize: real) {
    0 <= i < |sizes| && Reaches(sizes[i], minSize) && forall j :: 0 <= j < i ==> !Malformed(sizes[j])
  }

  lemma FirstHitShift(sizes: seq<string>, i: int, minSize: real)
    requires 0 < i
    ensures FirstHit(sizes, i, minSize) <==> |sizes| > 0 && !Malformed(sizes[0]) && FirstHit(sizes[1..], i - 1, minSize)
  {
    if |sizes| > 0 && !Malformed(sizes[0]) && FirstHit(sizes[1..], i - 1, minSize) {
      forall j | 0 <= j < i ensures !Malformed(sizes[j]) {
        if j > 0 { assert sizes[j] == sizes[1..][j - 1]; }
      }
    }
    if FirstHit(sizes, i, minSize) {
      forall j | 0 <= j < i - 1 ensures !Malformed(sizes[1..][j]) {
        assert sizes[1..][j] == sizes[j + 1];
      }
    }
  }

  lemma ValidSizeFoundHit(sizes: seq<string>, minSize: real)
    requires sizes != [] && ValidSizeFound(sizes, minSize)
    requires ValidSizeFound(sizes[1..], minSize) ==> exists i :: FirstHit(sizes[1..], i, minSize)
    ensures exists i :: FirstHit(sizes, i, minSize)
  {
    if !Reaches(sizes[0], minSize) {
      var i :| FirstHit(sizes[1..], i, minSize);
      FirstHitShift(sizes, i + 1, minSize);
      assert FirstHit(sizes, i + 1, minSize);
    } else {
      assert FirstHit(sizes, 0, minSize);
    }
  }

  lemma ValidSizeFoundOfHit(sizes: seq<string>, i: int, minSize: real)
    requires FirstHit(sizes, i, minSize)
    requires (exists i :: FirstHit(sizes[1..], i, minSize)) ==> ValidSizeFound(sizes[1..], minSize)
    ensures ValidSizeFound(sizes, minSize)
  {
    if i > 0 {
      FirstHitShift(sizes, i, minSize);
      assert FirstHit(sizes[1..], i - 1, minSize);
      assert !Malformed(sizes[0]);
    } else {
      assert Reaches(sizes[0], minSize);
    }
  }

  /** The filter holds iff some entry reaches `minSize` and no entry before
      it is malformed. */
  lemma {:induction false} ValidSizeFoundIff(sizes: seq<string>, minSize: real)
    ensures ValidSizeFound(sizes, minSize) <==> exists i :: FirstHit(sizes, i, minSize)
  {
    if sizes != [] {
      ValidSizeFoundIff(sizes[1..], minSize);
      if ValidSizeFound(sizes, minSize) {
        ValidSizeFoundHit(sizes, minSize);
      }
      if exists i :: FirstHit(sizes, i, minSize) {
        var i :| FirstHit(sizes, i, minSize);
        ValidSizeFoundOfHit(sizes, i, minSize);
      }
    }
  }

  /** `has_valid_size`, with the loop, the `found` flag and the `break` of
      the source. */
  method HasValidSize(sizes: seq<string>, minSize: real) returns (found: bool)
    ensures found == ValidSizeFound(sizes, minSize)
    ensures sizes == [] ==> !found
  {
    if |sizes| == 0 {
      return false;
    }
    found := false;
    var i := 0;
    while i < |sizes|
      invariant 0 <= i <= |sizes|
      invariant !found
      invariant ValidSizeFound(sizes, minSize) == ValidSizeFound(sizes[i..], minSize)
    {
      assert sizes[i..][1..] == sizes[i + 1..];
      var c := Clean(sizes[i]);
      if c != [] {
        var v := ParseNumber(c);
        if v.None? {
          return false;
        }
        if v.value >= minSize {
          found := true;
          break;
        }
      }
      i := i + 1;
    }
    return found;
  }
}
