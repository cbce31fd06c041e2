/** The worked examples at the end of utils.py, proved about the model of
    `format_sizes` and `has_valid_size`. */
module SizesExamples {
  import opened Maybe
  import opened Text
  import opened Sizes

  /** A whole number written out in digits cleans to itself and parses to
      its value. */
  lemma Whole(n: nat)
    ensures Clean(NatToString(n)) == NatToString(n)
    ensures ParseNumber(NatToString(n)) == Some(n as real)
  {
    CleanCleaned(NatToString(n));
    ParseNumberOfNat(n);
  }

  /** "n.5" cleans to itself and parses to n + 0.5. */
  lemma Half(n: nat)
    ensures Clean(NatToString(n) + ".5") == NatToString(n) + ".5"
    ensures ParseNumber(NatToString(n) + ".5") == Some(n as real + 0.5)
  {
    var a := NatToString(n);
    var t := a + ".5";
    assert t == a + "." + "5";
    ParseDecimal(a, "5");
    CleanCleaned(t);
    DigitsValueOfNatToString(n);
    assert DigitsValue("5") == 5 by { assert "5"[..0] == []; }
  }

  /** "n EU" cleans to the digits of n. */
  lemma WholeEU(n: nat)
    ensures Clean(NatToString(n) + " EU") == NatToString(n)
    ensures ParseNumber(Clean(NatToString(n) + " EU")) == Some(n as real)
  {
    CleanConcat(NatToString(n), " EU");
    var e := " EU";
    assert forall i :: 0 <= i < |e| ==> !IsSizeChar(e[i]);
    CleanEmpty(e);
    Whole(n);
  }

  /** Parsing one more entry that cleans to a well-formed number appends its
      value. */
  lemma ParseSnoc(prefix: seq<string>, vals: seq<Size>, t: string, v: Size)
    requires ParseAll(prefix) == Some(vals)
    requires Clean(t) != [] && ParseNumber(Clean(t)) == Some(v)
    ensures ParseAll(prefix + [t]) == Some(vals + [v])
  {
    var u := prefix + [t];
    assert u[..|u| - 1] == prefix;
  }

  lemma ParseSnocWhole(prefix: seq<string>, vals: seq<Size>, n: nat)
    requires ParseAll(prefix) == Some(vals)
    ensures ParseAll(prefix + [NatToString(n)]) == Some(vals + [n as real])
  {
    Whole(n);
    ParseSnoc(prefix, vals, NatToString(n), n as real);
  }

  lemma ParseSnocHalf(prefix: seq<string>, vals: seq<Size>, n: nat)
    requires ParseAll(prefix) == Some(vals)
    ensures ParseAll(prefix + [NatToString(n) + ".5"]) == Some(vals + [n as real + 0.5])
  {
    Half(n);
    ParseSnoc(prefix, vals, NatToString(n) + ".5", n as real + 0.5);
  }

  /** A single whole-number entry parses to its value. */
  lemma ParseOneWhole(n: nat)
    ensures ParseAll([NatToString(n)]) == Some([n as real])
  {
    var e: seq<string>, ev: seq<Size> := [], [];
    ParseSnocWhole(e, ev, n);
    assert e + [NatToString(n)] == [NatToString(n)] && ev + [n as real] == [n as real];
  }

  /** Entries all of length `w` give the bound `w`. */
  lemma {:induction false} MaxLengthUniform(s: seq<string>, w: nat)
    requires s != [] && forall i :: 0 <= i < |s| ==> |s[i]| == w
    ensures MaxLength(s) == w
  {
    var init := s[..|s| - 1];
    if init != [] {
      assert forall i :: 0 <= i < |init| ==> init[i] == s[i];
      MaxLengthUniform(init, w);
    }
  }

  lemma Example1Parse2()
    ensures ParseAll(["41", "42"]) == Some([41.0, 42.0])
  {
    assert NatToString(42) == "42";
    ParseOneWhole(41);
    assert NatToString(41) == "41";
    ParseSnocWhole(["41"], [41.0], 42);
    assert ["41"] + ["42"] == ["41", "42"] && [41.0] + [42.0] == [41.0, 42.0];
  }

  lemma Example1Parse()
    ensures ParseAll(["41", "42", "43"]) == Some([41.0, 42.0, 43.0])
  {
    assert NatToString(43) == "43";
    Example1Parse2();
    ParseSnocWhole(["41", "42"], [41.0, 42.0], 43);
    assert ["41", "42"] + ["43"] == ["41", "42", "43"] && [41.0, 42.0] + [43.0] == [41.0, 42.0, 43.0];
  }

  lemma Example1Runs()
    ensures Runs(SortedUnique([41.0, 42.0, 43.0])) == [[41.0, 42.0, 43.0]]
  {
    var v: seq<Size> := [41.0, 42.0, 43.0];
    SortedUniqueOfIncreasing(v);
    RunsSingle(v);
  }

  lemma Example1Render()
    ensures RenderRuns([[41.0, 42.0, 43.0]], 2) == ["41-43"]
  {
    var g: seq<Size> := [41.0, 42.0, 43.0];
    var gs: seq<seq<Size>> := [g];
    assert NatToString(41) == "41" && NatToString(43) == "43";
    RenderIntegral(41, 2);
    RenderIntegral(43, 2);
    assert RenderRun(g, 2) == ["41" + "-" + "43"];
    assert gs[..0] == [];
    assert RenderRuns(gs, 2) == RenderRuns(gs[..0], 2) + RenderRun(g, 2);
    assert "41" + "-" + "43" == "41-43";
  }

  lemma Example1Width()
    ensures MaxLength(["41", "42", "43"]) == 2
  {
    MaxLengthUniform(["41", "42", "43"], 2);
  }

  /** Three whole sizes one apart form a single run. */
  lemma Example1()
    ensures Formatted(["41", "42", "43"]) == "41-43"
  {
    Example1Parse();
    Example1Runs();
    Example1Width();
    Example1Render();
  }

  lemma Example2Parse2()
    ensures ParseAll(["40", "42"]) == Some([40.0, 42.0])
  {
    assert NatToString(42) == "42";
    ParseOneWhole(40);
    assert NatToString(40) == "40";
    ParseSnocWhole(["40"], [40.0], 42);
    assert ["40"] + ["42"] == ["40", "42"] && [40.0] + [42.0] == [40.0, 42.0];
  }

  lemma Example2Parse()
    ensures ParseAll(["40", "42", "44"]) == Some([40.0, 42.0, 44.0])
  {
    assert NatToString(44) == "44";
    Example2Parse2();
    ParseSnocWhole(["40", "42"], [40.0, 42.0], 44);
    assert ["40", "42"] + ["44"] == ["40", "42", "44"] && [40.0, 42.0] + [44.0] == [40.0, 42.0, 44.0];
  }

  lemma Example2Runs()
    ensures Runs(SortedUnique([40.0, 42.0, 44.0])) == [[40.0], [42.0], [44.0]]
  {
    var v: seq<Size> := [40.0, 42.0, 44.0];
    SortedUniqueOfIncreasing(v);
    assert Runs(v[..1]) == [v[..1]] by { assert v[..1][..0] == []; }
    RunsSplit(v[..1], 42.0);
    assert v[..1] + [42.0] == v[..2];
    RunsSplit(v[..2], 44.0);
    assert v[..2] + [44.0] == v[..3];
    assert v[..3] == v;
  }

  lemma RenderRunSingle(x: Size, k: nat)
    ensures RenderRun([x], k) == [Render(x, k)]
  {
    assert [x][..0] == [];
  }

  /** Two runs of one value each render as two strings. */
  lemma RenderPair(x: Size, y: Size, k: nat)
    ensures RenderRuns([[x], [y]], k) == [Render(x, k), Render(y, k)]
  {
    var a: seq<Size>, b: seq<Size> := [x], [y];
    assert RenderRuns([a], k) == [Render(x, k)] by {
      RenderRunSingle(x, k);
      RenderRunsSnoc([], a, k);
      assert [] + [a] == [a];
    }
    RenderRunSingle(y, k);
    RenderRunsSnoc([a], b, k);
    assert [a] + [b] == [a, b];
  }

  /** Three runs of one value each render as three strings. */
  lemma RenderSingles(x: Size, y: Size, z: Size, k: nat)
    ensures RenderRuns([[x], [y], [z]], k) == [Render(x, k), Render(y, k), Render(z, k)]
  {
    var a: seq<Size>, b: seq<Size>, c: seq<Size> := [x], [y], [z];
    RenderPair(x, y, k);
    RenderRunSingle(z, k);
    RenderRunsSnoc([a, b], c, k);
    assert [a, b] + [c] == [a, b, c];
  }

  lemma Example2Digits()
    ensures NatToString(40) == "40" && NatToString(42) == "42" && NatToString(44) == "44"
  {
  }

  lemma Example2Render()
    ensures RenderRuns([[40.0], [42.0], [44.0]], 2) == ["40", "42", "44"]
  {
    RenderSingles(40.0, 42.0, 44.0, 2);
    RenderIntegral(40, 2);
    RenderIntegral(42, 2);
    RenderIntegral(44, 2);
    Example2Digits();
  }

  /** Whole sizes two apart stay separate. */
  lemma Example2Join()
    ensures Join(["40", "42", "44"], ", ") == "40, 42, 44"
  {
    var s := ["40", "42", "44"];
    assert s[1..] == ["42", "44"] && s[1..][1..] == ["44"];
  }

  lemma Example2Width()
    ensures MaxLength(["40", "42", "44"]) == 2
  {
    MaxLengthUniform(["40", "42", "44"], 2);
  }

  lemma Example2()
    ensures Formatted(["40", "42", "44"]) == "40, 42, 44"
  {
    Example2Parse();
    Example2Runs();
    Example2Width();
    Example2Render();
    Example2Join();
  }

  lemma Example3Parse2()
    ensures ParseAll(["40", "40.5"]) == Some([40.0, 40.5])
  {
    assert NatToString(40) + ".5" == "40.5";
    ParseOneWhole(40);
    assert NatToString(40) == "40";
    ParseSnocHalf(["40"], [40.0], 40);
    assert ["40"] + ["40.5"] == ["40", "40.5"] && [40.0] + [40.5] == [40.0, 40.5];
  }

  lemma Example3Parse3()
    ensures ParseAll(["40", "40.5", "41"]) == Some([40.0, 40.5, 41.0])
  {
    assert NatToString(41) == "41";
    Example3Parse2();
    ParseSnocWhole(["40", "40.5"], [40.0, 40.5], 41);
    assert ["40", "40.5"] + ["41"] == ["40", "40.5", "41"] && [40.0, 40.5] + [41.0] == [40.0, 40.5, 41.0];
  }

  lemma Example3Parse4()
    ensures ParseAll(["40", "40.5", "41", "41.5"]) == Some([40.0, 40.5, 41.0, 41.5])
  {
    assert NatToString(41) + ".5" == "41.5";
    Example3Parse3();
    ParseSnocHalf(["40", "40.5", "41"], [40.0, 40.5, 41.0], 41);
    assert ["40", "40.5", "41"] + ["41.5"] == ["40", "40.5", "41", "41.5"] && [40.0, 40.5, 41.0] + [41.5] == [40.0, 40.5, 41.0, 41.5];
  }

  lemma Example3Parse()
    ensures ParseAll(["40", "40.5", "41", "41.5", "42"]) == Some([40.0, 40.5, 41.0, 41.5, 42.0])
  {
    assert NatToString(42) == "42";
    Example3Parse4();
    ParseSnocWhole(["40", "40.5", "41", "41.5"], [40.0, 40.5, 41.0, 41.5], 42);
    assert ["40", "40.5", "41", "41.5"] + ["42"] == ["40", "40.5", "41", "41.5", "42"] && [40.0, 40.5, 41.0, 41.5] + [42.0] == [40.0, 40.5, 41.0, 41.5, 42.0];
  }

  lemma Example3Runs()
    ensures Runs(SortedUnique([40.0, 40.5, 41.0, 41.5, 42.0])) == [[40.0, 40.5, 41.0, 41.5, 42.0]]
  {
    var v: seq<Size> := [40.0, 40.5, 41.0, 41.5, 42.0];
    SortedUniqueOfIncreasing(v);
    RunsSingle(v);
  }

  lemma Example3Width()
    ensures MaxLength(["40", "40.5", "41", "41.5", "42"]) == 4
  {
    var s := ["40", "40.5", "41", "41.5", "42"];
    assert s[..0] == [];
    assert s[..1][..0] == s[..0];
    assert MaxLength(s[..1]) == 2;
    assert s[..2][..1] == s[..1];
    assert MaxLength(s[..2]) == 4;
    assert s[..3][..2] == s[..2];
    assert MaxLength(s[..3]) == 4;
    assert s[..4][..3] == s[..3];
    assert MaxLength(s[..4]) == 4;
    assert s[..5][..4] == s[..4];
    assert MaxLength(s[..5]) == 4;
    assert s[..5] == s;
  }

  lemma Example3Render()
    ensures RenderRuns([[40.0, 40.5, 41.0, 41.5, 42.0]], 4) == ["40-42"]
  {
    var g: seq<Size> := [40.0, 40.5, 41.0, 41.5, 42.0];
    var gs: seq<seq<Size>> := [g];
    assert NatToString(40) == "40" && NatToString(42) == "42";
    RenderIntegral(40, 4);
    RenderIntegral(42, 4);
    assert RenderRun(g, 4) == ["40" + "-" + "42"];
    assert gs[..0] == [];
    assert RenderRuns(gs, 4) == RenderRuns(gs[..0], 4) + RenderRun(g, 4);
    assert "40" + "-" + "42" == "40-42";
  }

  /** Half sizes fill the gaps, so 40 to 42 is one run. */
  lemma Example3()
    ensures Formatted(["40", "40.5", "41", "41.5", "42"]) == "40-42"
  {
    Example3Parse();
    Example3Runs();
    Example3Width();
    Example3Render();
  }

  /** A half size prints with its one decimal, as Python's `str` of the
      float does: 40.5 gives "40.5", with no trailing zero. */
  lemma RenderHalf(n: nat, k: nat)
    requires 1 <= k
    ensures Render(n as real + 0.5, k) == NatToString(n) + ".5"
  {
    var v := n as real + 0.5;
    assert v.Floor == n;
    HalfScaled(n);
    assert MinScale(v, 1, k) == 1;
    DecimalHalf(n);
  }

  /** One decimal place makes a half size whole. */
  lemma HalfScaled(n: nat)
    ensures Scale(n as real + 0.5, 1) == (10 * n + 5) as real
    ensures IsIntegral(Scale(n as real + 0.5, 1))
    ensures Scale(n as real + 0.5, 1).Floor == 10 * n + 5
  {
    assert Scale(n as real + 0.5, 1) == 10.0 * Scale(n as real + 0.5, 0);
  }

  lemma DecimalHalf(n: nat)
    ensures Decimal(n as real + 0.5, 1) == NatToString(n) + ".5"
  {
    HalfScaled(n);
    var m: nat := 10 * n + 5;
    assert Pow10(1) == 10;
    assert m / 10 == n && m % 10 == 5;
    assert NatToString(5) == "5";
  }

  lemma RenderHalfExample()
    ensures Render(40.5, 2) == "40.5"
  {
    RenderHalf(40, 2);
    assert NatToString(40) == "40";
  }

  lemma Example4Parse2()
    ensures ParseAll(["39", "40"]) == Some([39.0, 40.0])
  {
    assert NatToString(40) == "40";
    ParseOneWhole(39);
    assert NatToString(39) == "39";
    ParseSnocWhole(["39"], [39.0], 40);
    assert ["39"] + ["40"] == ["39", "40"] && [39.0] + [40.0] == [39.0, 40.0];
  }

  lemma Example4Parse3()
    ensures ParseAll(["39", "40", "41"]) == Some([39.0, 40.0, 41.0])
  {
    assert NatToString(41) == "41";
    Example4Parse2();
    ParseSnocWhole(["39", "40"], [39.0, 40.0], 41);
    assert ["39", "40"] + ["41"] == ["39", "40", "41"] && [39.0, 40.0] + [41.0] == [39.0, 40.0, 41.0];
  }

  lemma Example4Parse4()
    ensures ParseAll(["39", "40", "41", "45"]) == Some([39.0, 40.0, 41.0, 45.0])
  {
    assert NatToString(45) == "45";
    Example4Parse3();
    ParseSnocWhole(["39", "40", "41"], [39.0, 40.0, 41.0], 45);
    assert ["39", "40", "41"] + ["45"] == ["39", "40", "41", "45"] && [39.0, 40.0, 41.0] + [45.0] == [39.0, 40.0, 41.0, 45.0];
  }

  lemma Example4Parse()
    ensures ParseAll(["39", "40", "41", "45", "46"]) == Some([39.0, 40.0, 41.0, 45.0, 46.0])
  {
    assert NatToString(46) == "46";
    Example4Parse4();
    ParseSnocWhole(["39", "40", "41", "45"], [39.0, 40.0, 41.0, 45.0], 46);
    assert ["39", "40", "41", "45"] + ["46"] == ["39", "40", "41", "45", "46"] && [39.0, 40.0, 41.0, 45.0] + [46.0] == [39.0, 40.0, 41.0, 45.0, 46.0];
  }

  /** Three close values, a gap, then two close values: two runs. */
  lemma RunsRangeThenPair(x0: Size, x1: Size, x2: Size, y0: Size, y1: Size)
    requires x1 - x0 <= RunGap && x2 - x1 <= RunGap
    requires y0 - x2 > RunGap && y1 - y0 <= RunGap
    ensures Runs([x0, x1, x2, y0, y1]) == [[x0, x1, x2], [y0, y1]]
  {
    var u: seq<Size> := [x0, x1, x2];
    var v := u + [y0];
    assert Runs(v) == [u, [y0]] by {
      RunsSingle(u);
      RunsSplit(u, y0);
      assert [u] + [[y0]] == [u, [y0]];
    }
    RunsJoin(v, y1);
    assert [u, [y0]][..1] == [u] && [u, [y0]][1] + [y1] == [y0, y1];
    assert v + [y1] == [x0, x1, x2, y0, y1];
  }

  lemma Example4Runs5()
    ensures Runs([39.0, 40.0, 41.0, 45.0, 46.0]) == [[39.0, 40.0, 41.0], [45.0, 46.0]]
  {
    RunsRangeThenPair(39.0, 40.0, 41.0, 45.0, 46.0);
  }

  lemma Example4Runs()
    ensures Runs(SortedUnique([39.0, 40.0, 41.0, 45.0, 46.0])) == [[39.0, 40.0, 41.0], [45.0, 46.0]]
  {
    SortedUniqueOfIncreasing([39.0, 40.0, 41.0, 45.0, 46.0]);
    Example4Runs5();
  }

  /** A run of three followed by a run of two renders as a range and two
      single values. */
  lemma RenderRangeThenPair(x0: Size, x1: Size, x2: Size, y0: Size, y1: Size, k: nat)
    ensures RenderRuns([[x0, x1, x2], [y0, y1]], k)
      == [Render(x0, k) + "-" + Render(x2, k), Render(y0, k), Render(y1, k)]
  {
    var g0: seq<Size> := [x0, x1, x2];
    var g1: seq<Size> := [y0, y1];
    assert Last(g0) == x2;
    assert RenderRun(g0, k) == [Render(x0, k) + "-" + Render(x2, k)];
    assert RenderRun(g1, k) == [Render(y0, k), Render(y1, k)] by {
      assert g1[..1] == [y0] && g1[..1][..0] == [];
      assert RenderEach(g1[..1], k) == [Render(y0, k)];
      assert RenderEach(g1, k) == RenderEach(g1[..1], k) + [Render(y1, k)];
    }
    RenderRunsSnoc([], g0, k);
    RenderRunsSnoc([g0], g1, k);
    assert [] + [g0] == [g0] && [g0] + [g1] == [g0, g1];
  }

  lemma Example4Render()
    ensures RenderRuns([[39.0, 40.0, 41.0], [45.0, 46.0]], 2) == ["39-41", "45", "46"]
  {
    RenderRangeThenPair(39.0, 40.0, 41.0, 45.0, 46.0, 2);
    RenderIntegral(39, 2);
    RenderIntegral(41, 2);
    RenderIntegral(45, 2);
    RenderIntegral(46, 2);
    assert NatToString(39) == "39" && NatToString(41) == "41";
    assert NatToString(45) == "45" && NatToString(46) == "46";
    assert "39" + "-" + "41" == "39-41";
  }

  lemma Example4Join()
    ensures Join(["39-41", "45", "46"], ", ") == "39-41, 45, 46"
  {
    var s := ["39-41", "45", "46"];
    assert s[1..] == ["45", "46"] && s[1..][1..] == ["46"];
  }

  lemma Example4Width()
    ensures MaxLength(["39", "40", "41", "45", "46"]) == 2
  {
    MaxLengthUniform(["39", "40", "41", "45", "46"], 2);
  }

  /** A run of three collapses; the two that follow it after a gap of 4 do
      not. */
  lemma Example4()
    ensures Formatted(["39", "40", "41", "45", "46"]) == "39-41, 45, 46"
  {
    Example4Parse();
    Example4Runs();
    Example4Width();
    Example4Render();
    Example4Join();
  }

  /** Two whole sizes in "n EU" form pass the filter exactly when one of
      them reaches `minSize`. */
  lemma ValidTwoWhole(m: nat, n: nat, minSize: real)
    ensures ValidSizeFound([NatToString(m) + " EU", NatToString(n) + " EU"], minSize)
        <==> m as real >= minSize || n as real >= minSize
  {
    WholeEU(m);
    WholeEU(n);
    var s := [NatToString(m) + " EU", NatToString(n) + " EU"];
    assert s[1..] == [NatToString(n) + " EU"] && s[1..][1..] == [];
    assert !ValidSizeFound(s[1..][1..], minSize);
    assert ValidSizeFound(s[1..], minSize) <==> n as real >= minSize;
  }

  /** No entry reaches the default minimum of 41. */
  lemma ValidExample1()
    ensures !ValidSizeFound(["39 EU", "40 EU"], DefaultMinSize)
  {
    ValidTwoWhole(39, 40, DefaultMinSize);
    assert NatToString(39) == "39" && NatToString(40) == "40";
    assert NatToString(39) + " EU" == "39 EU" && NatToString(40) + " EU" == "40 EU";
  }

  /** The second entry reaches 41. */
  lemma ValidExample2()
    ensures ValidSizeFound(["40 EU", "41 EU"], DefaultMinSize)
  {
    ValidTwoWhole(40, 41, DefaultMinSize);
    assert NatToString(40) == "40" && NatToString(41) == "41";
    assert NatToString(40) + " EU" == "40 EU" && NatToString(41) + " EU" == "41 EU";
  }
}
