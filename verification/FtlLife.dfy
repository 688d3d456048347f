/** How long a host can go on writing: what is left to program shrinks by no more than a page for
    each page written, and where few LPNs are used the collections keep up for ever. */
module FtlLife {
  import opened Wrappers
  import opened Counting
  import opened Radix
  import opened Geometry
  import opened FtlState
  import opened FtlSteps
  import opened FtlOps
  import opened FtlGc
  import opened FtlInit
  import opened FtlBounds
  import opened FtlSweep
  import opened FtlVictim
  import opened FtlFlow
  import opened FtlRuns
  import opened FtlSpace

  /** Writing x to LPN n in state s sets off a round that runs out of TLC pages. */
  ghost predicate WriteFails(g: Geo, s: State, n: nat, x: int, ageUs: seq<int>, round: Round) {
    && Charged(g, s, n, x).Some? && Charged(g, s, n, x).value.writeCredits == 0
    && ForegroundFails(g, Charged(g, s, n, x).value, ageUs, round)
  }

  // ---------- Space ----------

  /** Pages of both regions that can be programmed without erasing a line. */
  ghost function Space(g: Geo, s: State): int {
    if Sized(g, s) then SlcSpace(g, s) + TlcSpace(g, s) else 0
  }

  /** What is left in both regions when a round may fail, at most. */
  function LastSpace(g: Geo): int { 3 * g.PgsPerLine(0) + SpaceNeeded(g) }

  lemma Known(g: Geo, s: State)
    requires Quiescent(g, s)
    ensures Sized(g, s) && Space(g, s) == SlcSpace(g, s) + TlcSpace(g, s)
  {
    CursorsSized(g, s, NoLine(g), {});
  }

  /** A page written takes a page of the SLC region. */
  lemma ChargedSpace(g: Geo, s: State, n: nat, x: int)
    requires Steady(g, s) && n < |s.m.maptbl|
    ensures Charged(g, s, n, x).Some?
    ensures var u := Charged(g, s, n, x).value;
      && Quiescent(g, u) && Sized(g, s) && Sized(g, u) && u.writeCredits == s.writeCredits - 1 >= 0
      && Space(g, u) == Space(g, s) - 1 && TlcSpace(g, u) == TlcSpace(g, s)
      && (u.writeCredits == 0 ==> g.Rank(u.wp) == 0)
  {
    hide Inv, HostWrite, Writes, Charged, CursorStep, TlcSpace, Domains, Geo.WellFormed, Geo.Rank, Geo.PgsPerLine;
    ChargedOk(g, s, n, x);
    var u := Charged(g, s, n, x).value;
    var u1 := u.(writeCredits := s.writeCredits);
    CreditsLeft(g, s, u1, n, x);
    assert u == u1.(writeCredits := u1.writeCredits - 1);
    SteadyQuiet(g, s);
    Known(g, s);
    Known(g, u);
    SameTlcSpace(g, s, u);
    HostSpace(g, s, u1, n, x);
  }

  lemma SteadyQuiet(g: Geo, s: State)
    requires Steady(g, s)
    ensures Quiescent(g, s) && s.creditsToRefill == g.PgsPerLine(0) && s.writeCredits >= 1
    ensures Sized(g, s) && g.Rank(s.wp) == g.PgsPerLine(0) - s.writeCredits
  {
    CursorsSized(g, s, NoLine(g), {});
    RankRoundTrip(g, s.wp);
    assert g.PgsPerLine(s.wp.blk) == g.PgsPerLine(0);
  }

  lemma SameTlcSpace(g: Geo, s: State, t: State)
    requires Sized(g, s) && Sized(g, t) && t.lm.free == s.lm.free && t.gcWp == s.gcWp
    ensures TlcSpace(g, t) == TlcSpace(g, s)
  {}

  lemma HostSpace(g: Geo, s: State, t: State, n: nat, x: int)
    requires Steady(g, s) && Unsettled(g, s, t, n, x) && Sized(g, s) && Sized(g, t)
    ensures SlcSpace(g, t) == SlcSpace(g, s) - 1
  {
    hide Inv, Writes, Domains, CursorStep, Geo.WellFormed, Geo.Rank, Geo.PgsPerLine;
    CreditsLeft(g, s, t, n, x);
    SteadyQuiet(g, s);
    if s.writeCredits == 1 {
      OneLineLess(|s.slm.free|, g.PgsPerLine(0));
    } else {
      StepKeepsFree(g, s, t, n, x);
    }
  }

  lemma StepKeepsFree(g: Geo, s: State, t: State, n: nat, x: int)
    requires Steady(g, s) && Unsettled(g, s, t, n, x) && s.writeCredits > 1
    ensures t.slm.free == s.slm.free
  {
    CursorsSized(g, s, NoLine(g), {});
    NextInLineRank(g, s.wp);
    assert g.PgsPerLine(s.wp.blk) == g.PgsPerLine(0);
  }

  /** A round that migrates frees an SLC line, and takes no more than a line's worth of TLC pages. */
  lemma RoundSpace(g: Geo, s: State, ageUs: seq<int>, r: Round, t: State)
    requires Quiescent(g, s) && Foreground(g, s, ageUs, r, t)
    ensures Quiescent(g, t) && Space(g, t) >= Space(g, s)
  {
    hide Inv, MovedOutOf, AllFree, TlcSpace, SameView, ChosenSlc, ChosenTlc, Domains, Geo.WellFormed, Geo.Rank,
      Geo.PgsPerLine;
    ForegroundEffect(g, s, ageUs, r, t);
    Known(g, s);
    Known(g, t);
    if |s.slm.free| <= MIG_THRES {
      CollectsKeeps(g, s, r.mid, r.gc);
      Known(g, r.mid);
      if r.gc.Some? { GcKeepsSpace(g, s, ageUs, r); }
      MigrationCosts(g, r.mid, t, r.mig);
      OneLineLess(|t.slm.free|, g.PgsPerLine(0));
    }
  }

  lemma GcKeepsSpace(g: Geo, s: State, ageUs: seq<int>, r: Round)
    requires Quiescent(g, s) && GcDone(g, s, ageUs, r) && r.gc.Some? && Sized(g, s) && Sized(g, r.mid)
    ensures r.gc.value < |s.f.ipc| && s.f.ipc[r.gc.value] >= 1
    ensures TlcSpace(g, r.mid) == TlcSpace(g, s) + s.f.ipc[r.gc.value]
  {
    GcGains(g, s, r.mid, r.gc.value);
  }

  /** A page write, with the round that it sets off, takes at most one page. */
  lemma WriteSpace(g: Geo, s: State, n: nat, x: int, ageUs: seq<int>, r: Round, t: State)
    requires Steady(g, s) && n < |s.m.maptbl| && PageWritten(g, s, n, x, ageUs, r, t)
    ensures Space(g, t) >= Space(g, s) - 1
  {
    hide Inv, HostWrite, Writes, Foreground, Charged, SlcSpace, TlcSpace, Domains, Geo.WellFormed, Geo.Rank,
      Geo.PgsPerLine;
    ChargedSpace(g, s, n, x);
    var u := Charged(g, s, n, x).value;
    if u.writeCredits == 0 {
      var w := t.(writeCredits := t.writeCredits - t.creditsToRefill);
      RoundSpace(g, u, ageUs, r, w);
      CreditsNoSpace(g, w, t.writeCredits);
    }
  }

  lemma CreditsNoSpace(g: Geo, s: State, credits: int)
    ensures Space(g, s.(writeCredits := credits)) == Space(g, s)
  {}

  /** Where a round fails, both regions are close to full. */
  lemma FailSpace(g: Geo, s: State, n: nat, x: int, ageUs: seq<int>, r: Round)
    requires Steady(g, s) && n < |s.m.maptbl| && WriteFails(g, s, n, x, ageUs, r)
    ensures s.writeCredits == 1 && Space(g, s) - 1 <= LastSpace(g)
  {
    hide Inv, Charged, TlcSpace, Domains, GcDone, CannotCollect, Geo.WellFormed, Geo.Rank, Geo.PgsPerLine;
    ChargedSpace(g, s, n, x);
    var u := Charged(g, s, n, x).value;
    RoomEnough(g, u, ageUs, r);
    MulMono(|u.slm.free|, 2, g.PgsPerLine(0));
  }

  /** After state s k page writes cannot fail: they leave a credit, or the space lasts. */
  ghost predicate Lasts(g: Geo, s: State, k: int) {
    k < s.writeCredits || k + LastSpace(g) < Space(g, s)
  }

  /** A write uses up one of them. */
  lemma LastsOn(g: Geo, s: State, n: nat, x: int, ageUs: seq<int>, r: Round, t: State)
    requires Steady(g, s) && n < |s.m.maptbl| && PageWritten(g, s, n, x, ageUs, r, t)
    ensures forall k :: Lasts(g, s, k) && k >= 1 ==> Lasts(g, t, k - 1)
  {
    hide Inv, HostWrite, Writes, Foreground, Charged, Space, Domains, Geo.WellFormed, Geo.Rank, Geo.PgsPerLine;
    WriteSpace(g, s, n, x, ageUs, r, t);
    ChargedSpace(g, s, n, x);
  }

  lemma NotLasting(g: Geo, s: State, n: nat, x: int, ageUs: seq<int>, r: Round)
    requires Steady(g, s) && n < |s.m.maptbl| && WriteFails(g, s, n, x, ageUs, r)
    ensures forall k :: k >= 1 ==> !Lasts(g, s, k)
  {
    hide Inv, WriteFails, Space, Domains, Geo.WellFormed, Geo.Rank, Geo.PgsPerLine;
    FailSpace(g, s, n, x, ageUs, r);
  }

  lemma FreshLasts(g: Geo, k: int)
    requires g.WellFormed() && g.slcLines >= 1 && g.tlcLines >= 1
    requires k < g.PgsPerLine(0) || k + LastSpace(g) < g.TtPgs()
    ensures Lasts(g, FreshState(g), k)
  {
    hide Geo.WellFormed, Geo.TtPgs, Geo.PgsPerLine, Space;
    FreshSpace(g);
  }

  lemma FreshSpace(g: Geo)
    requires g.WellFormed() && g.slcLines >= 1 && g.tlcLines >= 1
    ensures Quiescent(g, FreshState(g)) && Space(g, FreshState(g)) == g.TtPgs()
  {
    hide Geo.WellFormed, Geo.TtPgs, Geo.PgsPerLine, Geo.Rank;
    var s := FreshState(g);
    FreshOk(g);
    Known(g, s);
    SpaceConserved(g, s);
    NothingMapped(g, s);
    SumZeros(s.f.ipc, g.Lines());
  }

  lemma NothingMapped(g: Geo, s: State)
    requires s.m == FreshMapping(g)
    ensures Mapped(s.m, |s.m.maptbl|) == {}
  {}

  lemma {:induction false} SumZeros(c: seq<int>, l: nat)
    requires l <= |c| && forall i :: 0 <= i < |c| ==> c[i] == 0
    ensures SumTo(c, l) == 0
  {
    if l > 0 { SumZeros(c, l - 1); }
  }

  lemma {:induction false} RunSpace(g: Geo, ss: seq<State>, ops: seq<Op>)
    requires IsRun(g, ss, ops)
    ensures Steady(g, ss[|ops|]) && |ss[|ops|].m.maptbl| == g.TtPgs() && Space(g, ss[|ops|]) >= g.TtPgs() - |ops|
  {
    hide Steady, PageWritten, Space, FreshState, Geo.WellFormed, Geo.TtPgs;
    RunReads(g, ss, ops);
    if ops == [] {
      FreshSpace(g);
    } else {
      var k := |ops| - 1;
      RunSpace(g, ss[..k + 1], ops[..k]);
      WriteSpace(g, ss[k], ops[k].n, ops[k].x, ops[k].ageUs, ops[k].round, ss[k + 1]);
    }
  }

  /** As long as a run's writes, with the pages of three SLC lines and of the line that a
      collection may need, are fewer than the partition's pages, the next write does not fail,
      whatever is written and collected. */
  lemma ShortRunsGoOn(g: Geo, ss: seq<State>, ops: seq<Op>, n: nat, x: int, ageUs: seq<int>, round: Round)
    requires IsRun(g, ss, ops) && n < g.TtPgs() && |ops| + 1 + LastSpace(g) < g.TtPgs()
    ensures !WriteFails(g, ss[|ops|], n, x, ageUs, round)
  {
    hide Steady, PageWritten, Space, WriteFails, FreshState, Geo.WellFormed, Geo.TtPgs;
    RunSpace(g, ss, ops);
    if WriteFails(g, ss[|ops|], n, x, ageUs, round) { FailSpace(g, ss[|ops|], n, x, ageUs, round); }
  }

  // ---------- Few LPNs ----------

  /** m LPNs are few: their pages are less than one in d of those of the TLC lines, three lines
      aside, and at that rate the cheapest line has so many more invalid pages than any line with
      fewer than an SLC line's worth that no difference in age, at most 250 to 1, makes up for it. */
  predicate Sparse(g: Geo, m: nat, d: nat) {
    var p0, p1 := g.PgsPerLine(0), g.PgsPerLine(g.slcLines);
    d >= 2 && (d - 1) * (p1 - p0) >= 250 * p0 && m * d < (g.tlcLines - 3) * p1
  }

  /** A line of which less than one page in d is valid is cheap, however young, */
  lemma CheapLine(vpc: nat, ppl: nat, level: int, d: nat)
    requires d >= 2 && vpc * d < ppl && 1 <= level
    ensures vpc < ppl && CostBenefit(vpc, ppl, level) * (d - 1) <= SCALER
  {
    MulMono(1, d, vpc);
    var rest, cost := ppl - vpc, CostBenefit(vpc, ppl, level);
    assert vpc * d == vpc * (d - 1) + vpc;
    QuotientBelow(vpc * SCALER, rest, level);
    MulMono(cost * rest, vpc * SCALER, d - 1);
    MulMono(vpc * (d - 1), rest, SCALER);
    assert (vpc * SCALER) * (d - 1) == (vpc * (d - 1)) * SCALER;
    assert (cost * rest) * (d - 1) == (cost * (d - 1)) * rest;
    CancelLe(cost * (d - 1), SCALER, rest);
  }

  lemma QuotientBelow(n: nat, rest: nat, level: int)
    requires rest > 0 && level >= 1
    ensures rest * level > 0 && (n / (rest * level)) * rest <= n
  {
    MulPositive(rest, level);
    var q := n / (rest * level);
    assert q * (rest * level) <= n;
    MulMono(1, level, q * rest);
    assert (q * rest) * level == q * (rest * level);
  }

  lemma CancelLe(a: int, b: int, m: nat)
    requires m > 0 && a * m <= b * m
    ensures a <= b
  {
    if a > b { MulMono(b + 1, a, m); }
  }

  /** and a line with fewer invalid pages than an SLC line has is dear, however old. */
  lemma DearLine(vpc: nat, ppl: nat, level: int, p0: nat, d: nat)
    requires vpc < ppl < vpc + p0 && 1 <= level <= 250 && d >= 2 && (d - 1) * (ppl - p0) >= 250 * p0
    requires ppl * 250 < 0x8000_0000
    ensures CostBenefit(vpc, ppl, level) * (d - 1) > SCALER
  {
    hide CostBenefit;
    var cost := CostBenefit(vpc, ppl, level);
    CostAbove(vpc, ppl, level, p0);
    if cost * (d - 1) <= SCALER { CostTooLow(cost, d - 1, ppl - p0, p0); }
  }

  lemma CostAbove(vpc: nat, ppl: nat, level: int, p0: nat)
    requires vpc < ppl < vpc + p0 && 1 <= level <= 250
    ensures CostBenefit(vpc, ppl, level) >= 0
    ensures (CostBenefit(vpc, ppl, level) + 1) * (250 * (p0 - 1)) > (ppl - p0 + 1) * SCALER
  {
    var n, div := vpc * SCALER, (ppl - vpc) * level;
    MulPositive(ppl - vpc, level);
    MulMono(ppl - vpc, p0 - 1, level);
    MulMono(level, 250, p0 - 1);
    QuotientAbove(n, div, 250 * (p0 - 1));
  }

  lemma QuotientAbove(n: nat, div: nat, c: nat)
    requires 0 < div <= c
    ensures (n / div + 1) * c > n
  {
    assert (n / div + 1) * div > n;
    MulMono(div, c, n / div + 1);
  }

  lemma CostTooLow(cost: nat, e: nat, diff: int, p0: nat)
    requires cost * e <= SCALER && e >= 1 && p0 >= 1 && e * diff >= 250 * p0 && 250 * p0 < SCALER
    ensures (cost + 1) * (250 * (p0 - 1)) <= (diff + 1) * SCALER
  {
    var c := 250 * (p0 - 1);
    LessThanScaled(cost, e, c);
    MoreThanScaled(e, diff, p0);
    MulMono(c, SCALER, e);
    CancelLe((cost + 1) * c, (diff + 1) * SCALER, e);
  }

  lemma LessThanScaled(cost: nat, e: nat, c: nat)
    requires cost * e <= SCALER
    ensures ((cost + 1) * c) * e <= SCALER * c + c * e
  {
    assert (cost + 1) * e == cost * e + e;
    MulMono((cost + 1) * e, SCALER + e, c);
    assert ((cost + 1) * c) * e == ((cost + 1) * e) * c;
    assert (SCALER + e) * c == SCALER * c + c * e;
  }

  lemma MoreThanScaled(e: nat, diff: int, p0: nat)
    requires e * diff >= 250 * p0
    ensures ((diff + 1) * SCALER) * e >= (250 * p0 + e) * SCALER
  {
    assert e * (diff + 1) == e * diff + e;
    MulMono(250 * p0 + e, e * (diff + 1), SCALER);
    assert ((diff + 1) * SCALER) * e == (e * (diff + 1)) * SCALER;
  }

  // ---------- A line with few valid pages ----------

  ghost predicate ClosedTlc(g: Geo, s: State, l: nat) {
    g.slcLines <= l < g.Lines() && l !in s.lm.free && l != s.gcWp.blk
  }

  /** Where every closed TLC line had one valid page in d or more, so would the closed lines
      together. */
  lemma {:induction false} CrowdedLines(g: Geo, s: State, d: nat, l: nat, p1: nat)
    requires Quiescent(g, s) && g.slcLines <= l <= g.Lines() && p1 == g.PgsPerLine(g.slcLines)
    requires |s.f.vpc| == g.Lines()
    requires forall y: nat :: ClosedTlc(g, s, y) ==> s.f.vpc[y] * d >= p1
    requires forall y :: 0 <= y < g.Lines() ==> s.f.vpc[y] >= 0
    ensures SumTo(s.f.vpc, l) * d >= (l - g.slcLines - |FreeBelow(s.lm, l)| - if s.gcWp.blk < l then 1 else 0) * p1
  {
    hide Inv, FreeBelow, Geo.PgsPerLine, Geo.WellFormed;
    TlcLists(g, s);
    if l == g.slcLines {
      NoneBelow(s.lm, l);
      SumNotNegative(s.f.vpc, l);
      MulMono(0, SumTo(s.f.vpc, l), d);
    } else {
      CrowdedLines(g, s, d, l - 1, p1);
      FreeStep(s.lm, l);
      var x := s.f.vpc[l - 1];
      assert SumTo(s.f.vpc, l) * d == SumTo(s.f.vpc, l - 1) * d + x * d;
      MulMono(0, x, d);
      if ClosedTlc(g, s, l - 1) {
        var k := l - g.slcLines - |FreeBelow(s.lm, l)| - if s.gcWp.blk < l then 1 else 0;
        OneMore(k, p1);
      }
    }
  }

  lemma OneMore(k: int, p: nat)
    ensures (k - 1) * p + p == k * p
  {}

  lemma TlcLists(g: Geo, s: State)
    requires Quiescent(g, s)
    ensures g.slcLines <= s.gcWp.blk < g.Lines() && s.gcWp.blk !in s.lm.free && Distinct(s.lm.free)
    ensures forall x :: x in s.lm.free ==> g.slcLines <= x < g.Lines()
    ensures forall y: nat :: ClosedTlc(g, s, y) ==> y in s.lm.full || y in s.lm.victims
  {}

  /** So with few LPNs mapped and few free lines, some closed line has less than that. */
  lemma SparseLine(g: Geo, s: State, d: nat) returns (y: nat)
    requires Quiescent(g, s) && Sparse(g, |Mapped(s.m, |s.m.maptbl|)|, d) && |s.lm.free| <= GC_THRES
    ensures |s.f.vpc| == g.Lines() && y in s.lm.victims && y < g.Lines()
    ensures 0 <= s.f.vpc[y] && s.f.vpc[y] * d < g.PgsPerLine(g.slcLines)
  {
    hide Inv, FreeBelow, Mapped, Geo.PgsPerLine, Geo.WellFormed;
    var p1 := g.PgsPerLine(g.slcLines);
    CountersAddUp(g, s);
    TlcLists(g, s);
    forall l | 0 <= l < g.Lines() ensures s.f.vpc[l] >= 0 { LineBounds(g, s, l); }
    if forall y: nat :: ClosedTlc(g, s, y) ==> s.f.vpc[y] * d >= p1 {
      CrowdedLines(g, s, d, g.Lines(), p1);
      AllBelow(g, s);
      MulMono(g.tlcLines - 3, g.tlcLines - |s.lm.free| - 1, p1);
    }
    y :| ClosedTlc(g, s, y) && s.f.vpc[y] * d < p1;
    if y in s.lm.full { FullIsFull(g, s, y); MulMono(1, d, p1); }
  }

  lemma AllBelow(g: Geo, s: State)
    requires Distinct(s.lm.free) && forall x :: x in s.lm.free ==> g.slcLines <= x < g.Lines()
    ensures |FreeBelow(s.lm, g.Lines())| == |s.lm.free|
  {
    assert FreeBelow(s.lm, g.Lines()) == Elements(s.lm.free);
    DistinctCard(s.lm.free);
  }

  lemma FullIsFull(g: Geo, s: State, y: nat)
    requires Quiescent(g, s) && y in s.lm.full
    ensures y < |s.f.vpc| && s.f.vpc[y] == g.PgsPerLine(g.slcLines)
  {
    assert FullLine(g, s.f, y);
  }

  /** The line that is chosen then has at least as many invalid pages as an SLC line has pages. */
  lemma ChosenGains(g: Geo, s: State, ageUs: seq<int>, d: nat, v: nat)
    requires Quiescent(g, s) && |ageUs| == g.Lines() && ChosenTlc(g, s, ageUs, v)
    requires Sparse(g, |Mapped(s.m, |s.m.maptbl|)|, d) && |s.lm.free| <= GC_THRES
    ensures v < |s.f.vpc| && v < |s.f.ipc| && s.f.ipc[v] >= g.PgsPerLine(0) && s.f.vpc[v] >= 0
    ensures s.f.vpc[v] + s.f.ipc[v] == g.PgsPerLine(g.slcLines)
  {
    hide Inv, Mapped, CostBenefit, Geo.WellFormed;
    var y := SparseLine(g, s, d);
    VictimCosts(g, s, ageUs);
    TlcVictim(g, s, v);
    TlcVictim(g, s, y);
    LineLimit(g, s);
    var p1 := g.PgsPerLine(g.slcLines);
    if s.f.ipc[v] < g.PgsPerLine(0) {
      CheapLine(s.f.vpc[y], p1, AgeLevel(ageUs[y]), d);
      DearLine(s.f.vpc[v], p1, AgeLevel(ageUs[v]), g.PgsPerLine(0), d);
      MulMono(CostBenefit(s.f.vpc[v], p1, AgeLevel(ageUs[v])), CostBenefit(s.f.vpc[y], p1, AgeLevel(ageUs[y])), d - 1);
    }
  }

  lemma LineLimit(g: Geo, s: State)
    requires Quiescent(g, s)
    ensures g.PgsPerLine(g.slcLines) * 250 < 0x8000_0000
  {}

  // ---------- Runs without end ----------

  /** A line's worth of TLC pages is left. */
  ghost predicate Roomy(g: Geo, s: State) { Sized(g, s) && TlcSpace(g, s) >= g.PgsPerLine(g.slcLines) }

  /** With few LPNs mapped and a line's worth of TLC pages left, a round does not fail and leaves
      as much. */
  lemma SparseRound(g: Geo, s: State, ageUs: seq<int>, d: nat, r: Round)
    requires Quiescent(g, s) && Roomy(g, s) && |ageUs| == g.Lines() && Sparse(g, |Mapped(s.m, |s.m.maptbl|)|, d)
    ensures !ForegroundFails(g, s, ageUs, r)
    ensures forall t :: Foreground(g, s, ageUs, r, t) ==> Roomy(g, t)
  {
    hide Inv, Mapped, SameView, TlcSpace, Collected, ChosenTlc, ChosenSlc, Sparse, Geo.PgsPerLine, Geo.WellFormed;
    var p0, p1 := g.PgsPerLine(0), g.PgsPerLine(g.slcLines);
    SparseSizes(g, |Mapped(s.m, |s.m.maptbl|)|, d, s);
    if |s.slm.free| <= MIG_THRES {
      if r.gc.Some? && GcWanted(s) && ChosenTlc(g, s, ageUs, r.gc.value) { ChosenGains(g, s, ageUs, d, r.gc.value); }
      if GcDone(g, s, ageUs, r) {
        CollectsKeeps(g, s, r.mid, r.gc);
        Known(g, r.mid);
        if r.gc.Some? {
          GcKeepsSpace(g, s, ageUs, r);
        } else if |s.lm.free| <= GC_THRES {
          var y := SparseLine(g, s, d);
        } else {
          ManyFree(g, s);
        }
        assert TlcSpace(g, r.mid) >= p1 + p0;
        AfterGc(g, s, ageUs, r);
      }
    }
  }

  /** The migration then fits, and what it costs was gained before. */
  lemma AfterGc(g: Geo, s: State, ageUs: seq<int>, r: Round)
    requires Quiescent(g, r.mid) && Sized(g, r.mid) && |s.slm.free| <= MIG_THRES
    requires TlcSpace(g, r.mid) >= g.PgsPerLine(g.slcLines) + g.PgsPerLine(0) && g.PgsPerLine(g.slcLines) > 0
    ensures ChosenSlc(r.mid, r.mig) && g.IsSlc(r.mig) ==> !CannotCollect(g, r.mid, r.mig)
    ensures forall t :: Foreground(g, s, ageUs, r, t) ==> Roomy(g, t)
  {
    hide Inv, SameView, TlcSpace, Collected, ChosenSlc, ChosenTlc, GcDone, Geo.PgsPerLine, Geo.WellFormed;
    if ChosenSlc(r.mid, r.mig) && g.IsSlc(r.mig) { SlcLineSize(g, r.mid, r.mig); }
    forall t | Foreground(g, s, ageUs, r, t) ensures Roomy(g, t) {
      MigrationCosts(g, r.mid, t, r.mig);
    }
  }

  lemma SlcLineSize(g: Geo, q: State, v: nat)
    requires Quiescent(g, q) && ChosenSlc(q, v) && g.IsSlc(v)
    ensures v < |q.f.vpc| && q.f.vpc[v] <= g.PgsPerLine(0)
  {
    LineBounds(g, q, v);
    assert g.PgsPerLine(v) == g.PgsPerLine(0);
  }

  lemma SparseSizes(g: Geo, m: nat, d: nat, s: State)
    requires Sparse(g, m, d) && Quiescent(g, s)
    ensures 0 < g.PgsPerLine(0) < g.PgsPerLine(g.slcLines)
  {
    hide Geo.PgsPerLine, Inv;
    var p0, p1 := g.PgsPerLine(0), g.PgsPerLine(g.slcLines);
    LinesPositive(g, s);
    FactorPositive(d - 1, p1 - p0);
  }

  lemma FactorPositive(e: nat, x: int)
    requires e * x > 0
    ensures x > 0
  {
    if x <= 0 { MulMono(x, 0, e); }
  }

  lemma LinesPositive(g: Geo, s: State)
    requires Quiescent(g, s)
    ensures g.PgsPerLine(0) > 0
  {
    PositiveSizes(g);
  }

  lemma ManyFree(g: Geo, s: State)
    requires Quiescent(g, s) && Sized(g, s) && |s.lm.free| > GC_THRES
    ensures TlcSpace(g, s) >= 3 * g.PgsPerLine(g.slcLines)
  {
    RankRoundTrip(g, s.gcWp);
    assert g.PgsPerLine(s.gcWp.blk) == g.PgsPerLine(g.slcLines);
    MulMono(3, |s.lm.free|, g.PgsPerLine(g.slcLines));
  }

  /** The LPNs mapped after a write are the one written and those mapped before. */
  lemma MappedAfter(g: Geo, s: State, t: State, n: nat, x: int, lpns: set<nat>)
    requires Quiescent(g, s) && Quiescent(g, t) && Writes(s.m, t.m, n, x) && n in lpns
    requires forall k: nat :: k < |s.m.maptbl| && Lookup(s.m, k).Some? ==> k in lpns
    ensures |Mapped(t.m, |t.m.maptbl|)| <= |lpns|
  {
    hide Inv, Lookup;
    forall k | k in Mapped(t.m, |t.m.maptbl|) ensures k in lpns {
      MappedReads(g, t, k);
    }
    SubsetCard(Mapped(t.m, |t.m.maptbl|), lpns);
  }

  lemma MappedReads(g: Geo, s: State, n: nat)
    requires Quiescent(g, s) && n < |s.m.maptbl| && s.m.maptbl[n].Some?
    ensures Lookup(s.m, n).Some?
  {}

  /** A host write that uses one of a few LPNs does not fail, and leaves a line's worth of TLC pages. */
  lemma SparseWrite(g: Geo, s: State, n: nat, x: int, ageUs: seq<int>, d: nat, lpns: set<nat>, r: Round)
    requires Steady(g, s) && n < |s.m.maptbl| && |ageUs| == g.Lines() && n in lpns && Sparse(g, |lpns|, d)
    requires forall k: nat :: k < |s.m.maptbl| && Lookup(s.m, k).Some? ==> k in lpns
    requires Roomy(g, s)
    ensures !WriteFails(g, s, n, x, ageUs, r)
    ensures forall t :: PageWritten(g, s, n, x, ageUs, r, t) ==> Roomy(g, t)
  {
    hide Inv, HostWrite, Writes, Lookup, Mapped, Charged, Foreground, ForegroundFails, Roomy, CursorStep,
      Domains, Geo.WellFormed, Geo.PgsPerLine, Geo.Rank;
    ChargedSpace(g, s, n, x);
    ChargedOk(g, s, n, x);
    SteadyQuiet(g, s);
    var u := Charged(g, s, n, x).value;
    SameWrites(g, s, u, n, x);
    SameRoom(g, s, u);
    MappedAfter(g, s, u, n, x, lpns);
    FewerSparse(g, |Mapped(u.m, |u.m.maptbl|)|, |lpns|, d);
    SparseRound(g, u, ageUs, d, r);
    forall t | PageWritten(g, s, n, x, ageUs, r, t)
      ensures Roomy(g, t)
    {
      if u.writeCredits == 0 {
        CreditsNoTlc(g, t.(writeCredits := t.writeCredits - t.creditsToRefill), t.writeCredits);
      }
    }
  }

  lemma SameRoom(g: Geo, s: State, u: State)
    requires Roomy(g, s) && Sized(g, u) && TlcSpace(g, u) == TlcSpace(g, s)
    ensures Roomy(g, u)
  {}

  lemma SameWrites(g: Geo, s: State, u: State, n: nat, x: int)
    requires Unsettled(g, s, u.(writeCredits := s.writeCredits), n, x)
    ensures Writes(s.m, u.m, n, x)
  {
    hide Writes, Quiescent, CursorStep;
  }

  lemma CreditsNoTlc(g: Geo, s: State, credits: int)
    ensures Roomy(g, s.(writeCredits := credits)) <==> Roomy(g, s)
  {}

  lemma FewerSparse(g: Geo, m: nat, m': nat, d: nat)
    requires m <= m' && Sparse(g, m', d)
    ensures Sparse(g, m, d)
  {
    MulMono(m, m', d);
  }

  lemma FreshTlc(g: Geo)
    requires g.WellFormed() && g.slcLines >= 2 && g.tlcLines >= 1
    ensures Steady(g, FreshState(g)) && Roomy(g, FreshState(g))
  {
    var s := FreshState(g);
    FreshSteady(g);
    SteadyQuiet(g, s);
    RankZero(g, s.gcWp);
    MulMono(0, |s.lm.free|, g.PgsPerLine(g.slcLines));
  }

  lemma {:induction false} SparseRun(g: Geo, ss: seq<State>, ops: seq<Op>, d: nat, lpns: set<nat>)
    requires IsRun(g, ss, ops) && WrittenLpns(ops) <= lpns && Sparse(g, |lpns|, d)
    requires forall k :: 0 <= k < |ops| ==> |ops[k].ageUs| == g.Lines()
    ensures var s := ss[|ops|];
      && Steady(g, s) && Roomy(g, s) && |s.m.maptbl| == g.TtPgs()
      && forall k: nat :: k < |s.m.maptbl| && Lookup(s.m, k).Some? ==> k in lpns
  {
    hide Steady, PageWritten, Roomy, Lookup, Sparse, FreshState, LastWrite, Geo.WellFormed, Geo.TtPgs,
      Geo.PgsPerLine;
    RunReads(g, ss, ops);
    forall n: nat | LastWrite(ops, n).Some? ensures n in lpns { LastOfWritten(ops, n); }
    if ops == [] {
      FreshTlc(g);
    } else {
      var k := |ops| - 1;
      assert WrittenLpns(ops[..k]) <= WrittenLpns(ops) && ops[k].n in WrittenLpns(ops);
      SparseRun(g, ss[..k + 1], ops[..k], d, lpns);
      SparseWrite(g, ss[k], ops[k].n, ops[k].x, ops[k].ageUs, d, lpns, ops[k].round);
    }
  }

  /** A host that keeps to few LPNs never runs out of TLC pages, however long it writes and
      whatever the ages of the lines are. */
  lemma SparseRunsGoOn(g: Geo, ss: seq<State>, ops: seq<Op>, d: nat, lpns: set<nat>, n: nat, x: int, ageUs: seq<int>,
      round: Round)
    requires IsRun(g, ss, ops) && WrittenLpns(ops) <= lpns && n in lpns && Sparse(g, |lpns|, d)
    requires (forall k :: 0 <= k < |ops| ==> |ops[k].ageUs| == g.Lines()) && |ageUs| == g.Lines() && n < g.TtPgs()
    ensures !WriteFails(g, ss[|ops|], n, x, ageUs, round)
  {
    hide Steady, PageWritten, Roomy, Lookup, Sparse, WriteFails, FreshState, Geo.WellFormed, Geo.TtPgs,
      Geo.PgsPerLine;
    SparseRun(g, ss, ops, d, lpns);
    SparseWrite(g, ss[|ops|], n, x, ageUs, d, lpns, round);
  }
}
