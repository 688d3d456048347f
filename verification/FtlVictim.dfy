/** Which line a collection picks. */
module FtlVictim {
  import opened Radix
  import opened Geometry
  import opened FtlState
  import opened FtlSweep
  import opened FtlBounds

  const LLONG_MAX := 0x7fff_ffff_ffff_ffff
  const SCALER := 1_000_000_000_000

  /** age_levelize. */
  function AgeLevel(ageUs: int): (r: int)
    ensures 1 <= r <= 250
  {
    if ageUs < 5_000_000 then 1 else if ageUs < 10_000_000 then 5 else if ageUs < 25_000_000 then 10
    else if ageUs < 50_000_000 then 20 else if ageUs < 100_000_000 then 40 else if ageUs < 200_000_000 then 80 else 250
  }

  /** Age a is in a younger band than age b: a limit, in microseconds, lies between them. */
  predicate Younger(a: int, b: int) {
    || a < 5_000_000 <= b || a < 10_000_000 <= b || a < 25_000_000 <= b
    || a < 50_000_000 <= b || a < 100_000_000 <= b || a < 200_000_000 <= b
  }

  /** The weight at the ends of each band; and bands further on weigh at least twice as much. */
  lemma AgeLevels(a: int, b: int)
    ensures AgeLevel(0) == AgeLevel(4_999_999) == 1 && AgeLevel(5_000_000) == AgeLevel(9_999_999) == 5
    ensures AgeLevel(10_000_000) == AgeLevel(24_999_999) == 10 && AgeLevel(25_000_000) == AgeLevel(49_999_999) == 20
    ensures AgeLevel(50_000_000) == AgeLevel(99_999_999) == 40 && AgeLevel(100_000_000) == AgeLevel(199_999_999) == 80
    ensures AgeLevel(200_000_000) == 250 && (b >= 200_000_000 ==> AgeLevel(b) == 250)
    ensures if Younger(a, b) then 2 * AgeLevel(a) <= AgeLevel(b) else AgeLevel(b) <= AgeLevel(a)
  {}

  /** calculate_cost_benefit_val: cheap lines have few valid pages and are old. */
  function CostBenefit(vpc: int, ppl: nat, level: int): int
    requires vpc <= ppl && 1 <= level
  {
    if vpc == ppl then SCALER * 10
    else
      assert (ppl - vpc) * level >= 1;
      vpc * SCALER / ((ppl - vpc) * level)
  }

  ghost function LineCost(g: Geo, s: State, ageUs: seq<int>, l: nat): int {
    if l < |s.f.vpc| && l < |ageUs| && s.f.vpc[l] <= g.PgsPerLine(l)
    then CostBenefit(s.f.vpc[l], g.PgsPerLine(l), AgeLevel(ageUs[l])) else LLONG_MAX
  }

  /** No cost reaches the initial minimum, so some victim is always chosen. */
  lemma CostBound(vpc: nat, ppl: nat, level: int)
    requires vpc < ppl && 1 <= level && ppl * 250 < 0x8000_0000
    ensures CostBenefit(vpc, ppl, level) < LLONG_MAX
  {
    var n, d := vpc * SCALER, (ppl - vpc) * level;
    assert d >= 1;
    assert n / d <= n by { DivLe(n, d); }
  }

  lemma DivLe(n: nat, d: nat)
    requires d >= 1
    ensures n / d <= n
  {
    MulMono(1, d, n / d);
  }

  lemma VictimCosts(g: Geo, s: State, ageUs: seq<int>)
    requires Quiescent(g, s) && |ageUs| == g.Lines()
    ensures |s.f.vpc| == |s.f.ipc| == g.Lines()
    ensures forall l :: l in s.lm.victims ==>
      g.slcLines <= l < g.Lines() && s.f.ipc[l] != 0 && 0 <= s.f.vpc[l] < g.PgsPerLine(l)
          && LineCost(g, s, ageUs, l) < LLONG_MAX
  {
    forall l | l in s.lm.victims
      ensures g.slcLines <= l < g.Lines() && s.f.ipc[l] != 0 && 0 <= s.f.vpc[l] < g.PgsPerLine(l)
      ensures LineCost(g, s, ageUs, l) < LLONG_MAX
    {
      assert VictimLine(g, s.f, l);
      LineBounds(g, s, l);
      assert g.PgsPerLine(l) == g.PgsPerLine(g.slcLines);
      CostBound(s.f.vpc[l], g.PgsPerLine(l), AgeLevel(ageUs[l]));
    }
  }

  /** Line l is a TLC victim, and no victim costs less. */
  ghost predicate ChosenTlc(g: Geo, s: State, ageUs: seq<int>, l: nat) {
    l in s.lm.victims && forall y :: y in s.lm.victims ==> LineCost(g, s, ageUs, l) <= LineCost(g, s, ageUs, y)
  }

  // ---------- What the costs prefer ----------

  /** Line l is one that collections should take: every victim with fewer valid pages is younger,
      no victim with as many is older, and no victim is free of valid pages unless l is. */
  ghost predicate Preferred(s: State, ageUs: seq<int>, l: nat) {
    && l in s.lm.victims && l < |s.f.vpc| && l < |ageUs|
    && forall y :: y in s.lm.victims && y < |s.f.vpc| && y < |ageUs| ==>
         && (s.f.vpc[y] < s.f.vpc[l] ==> Younger(ageUs[y], ageUs[l]) && s.f.vpc[y] > 0)
         && (s.f.vpc[y] == s.f.vpc[l] > 0 ==> !Younger(ageUs[l], ageUs[y]))
  }

  lemma ChosenPreferred(g: Geo, s: State, ageUs: seq<int>, l: nat)
    requires Quiescent(g, s) && |ageUs| == g.Lines() && ChosenTlc(g, s, ageUs, l)
    ensures Preferred(s, ageUs, l)
  {
    hide Inv, AgeLevel, Younger, CostBenefit, Geo.PgsPerLine;
    VictimCosts(g, s, ageUs);
    LevelsFit(g, s);
    forall y | y in s.lm.victims
      ensures s.f.vpc[y] < s.f.vpc[l] ==> Younger(ageUs[y], ageUs[l]) && s.f.vpc[y] > 0
      ensures s.f.vpc[y] == s.f.vpc[l] > 0 ==> !Younger(ageUs[l], ageUs[y])
    {
      AgeLevels(ageUs[y], ageUs[l]);
      AgeLevels(ageUs[l], ageUs[y]);
      SameRegion(g, l, y);
      var ppl, v, a, b := g.PgsPerLine(l), s.f.vpc[l], AgeLevel(ageUs[l]), AgeLevel(ageUs[y]);
      assert LineCost(g, s, ageUs, l) <= LineCost(g, s, ageUs, y);
      if s.f.vpc[y] < v {
        if s.f.vpc[y] == 0 { NoPagesNoCost(v, ppl, a, b); }
        if b >= a { FewerPagesCostLess(s.f.vpc[y], v, ppl, b, a); }
      } else if s.f.vpc[y] == v > 0 && 2 * a <= b {
        OlderCostsLess(v, ppl, a, b);
      }
    }
  }

  lemma LevelsFit(g: Geo, s: State)
    requires Quiescent(g, s)
    ensures g.PgsPerLine(g.slcLines) * 250 < 0x8000_0000
  {}

  lemma SameRegion(g: Geo, l: nat, y: nat)
    requires g.slcLines <= l < g.Lines() && g.slcLines <= y < g.Lines()
    ensures g.PgsPerLine(l) == g.PgsPerLine(y) == g.PgsPerLine(g.slcLines)
  {}

  lemma NoPagesNoCost(vpc: nat, ppl: nat, level: int, level': int)
    requires 0 < vpc < ppl && 1 <= level <= 250 && 1 <= level' && ppl * 250 < 0x8000_0000
    ensures CostBenefit(0, ppl, level') == 0 < CostBenefit(vpc, ppl, level)
  {
    DivisorBound(vpc, ppl, level);
    var d, d' := (ppl - vpc) * level, ppl * level';
    assert CostBenefit(0, ppl, level') == 0 / d';
    DivGrows(d, vpc * SCALER, d);
  }

  lemma DivisorBound(vpc: nat, ppl: nat, level: int)
    requires vpc < ppl && 1 <= level <= 250 && ppl * 250 < 0x8000_0000
    ensures 1 <= (ppl - vpc) * level < 0x8000_0000
  {
    MulMono(level, 250, ppl - vpc);
    MulMono(1, level, ppl - vpc);
  }

  lemma DivGrows(m: nat, n: nat, d: nat)
    requires 1 <= d && m <= n
    ensures m / d <= n / d
  {
    var p, q := m / d, n / d;
    if q < p { MulMono(q + 1, p, d); }
  }

  lemma MoreOverLess(n: nat, d: nat, n': nat, d': nat)
    requires 1 <= d' <= d && n + d <= n'
    ensures n / d < n' / d'
  {
    var q, q' := n / d, n' / d';
    DivFloor(n, d);
    DivFloor(n', d');
    if q' <= q {
      MulMono(q' + 1, q + 1, d');
      MulMono(d', d, q + 1);
    }
  }

  lemma OverTwice(n: nat, d: nat, d': nat)
    requires 1 <= d <= n && 2 * d <= d'
    ensures n / d' < n / d
  {
    var q, q' := n / d, n / d';
    DivFloor(n, d);
    DivFloor(n, d');
    DivGrows(d, n, d);
    if q <= q' {
      MulMono(q, q', d');
      MulMono(2 * d, d', q);
      MulMono(1, q, d);
    }
  }

  lemma DivFloor(n: nat, d: nat)
    requires d >= 1
    ensures n / d * d <= n < n / d * d + d && (n / d + 1) * d == n / d * d + d
  {}

  /** With weights at least as large, fewer valid pages cost less. */
  lemma FewerPagesCostLess(vpc: nat, vpc': nat, ppl: nat, level: int, level': int)
    requires vpc < vpc' < ppl && 1 <= level' <= level <= 250 && ppl * 250 < 0x8000_0000
    ensures CostBenefit(vpc, ppl, level) < CostBenefit(vpc', ppl, level')
  {
    DivisorBound(vpc, ppl, level);
    DivisorBound(vpc', ppl, level');
    MulMono(level', level, ppl - vpc');
    MulMono(ppl - vpc', ppl - vpc, level);
    MoreOverLess(vpc * SCALER, (ppl - vpc) * level, vpc' * SCALER, (ppl - vpc') * level');
  }

  /** With as many valid pages, a weight at least twice as large costs less. */
  lemma OlderCostsLess(vpc: nat, ppl: nat, level: int, level': int)
    requires 0 < vpc < ppl && 1 <= level && 2 * level <= level' <= 250 && ppl * 250 < 0x8000_0000
    ensures CostBenefit(vpc, ppl, level') < CostBenefit(vpc, ppl, level)
  {
    DivisorBound(vpc, ppl, level);
    MulMono(2 * level, level', ppl - vpc);
    OverTwice(vpc * SCALER, (ppl - vpc) * level, (ppl - vpc) * level');
  }

  /** Half valid lines of 48 pages: with the least weight, and with the greatest. */
  lemma CostSamples()
    ensures CostBenefit(24, 48, 1) == 1_000_000_000_000 && CostBenefit(24, 48, 250) == 4_000_000_000
    ensures CostBenefit(16, 48, 5) == 100_000_000_000 && CostBenefit(48, 48, 5) == 10_000_000_000_000
  {}
}
