/** How the pages of a partition divide up, and how many LPNs it can hold. A partition accepts as
    many LPNs as it has pages, but cannot hold them all: TLC must run out of pages before every
    LPN has been written. */
module FtlSpace {
  import opened Wrappers
  import opened Counting
  import opened Radix
  import opened Geometry
  import opened FtlState
  import opened FtlSteps
  import opened FtlOps
  import opened FtlGc
  import opened FtlBounds
  import opened FtlSweep
  import opened FtlFlow
  import opened FtlRuns

  // ---------- Pages not yet written ----------

  /** Pages that can still be programmed in the SLC region without erasing a line. */
  function SlcSpace(g: Geo, s: State): int
    requires g.Oneshot(s.wp.blk) > 0
  {
    |s.slm.free| * g.PgsPerLine(0) + g.PgsPerLine(0) - g.Rank(s.wp)
  }

  /** Pages of line l that have not been programmed since it was erased. */
  ghost function Unwritten(g: Geo, f: Flash, l: nat): int
    requires l < |f.vpc| == |f.ipc|
  {
    g.PgsPerLine(l) - f.vpc[l] - f.ipc[l]
  }

  ghost function UnwrittenIn(g: Geo, f: Flash, lo: nat, hi: nat): int
    requires lo <= hi <= |f.vpc| == |f.ipc|
  {
    if lo == hi then 0 else UnwrittenIn(g, f, lo, hi - 1) + Unwritten(g, f, hi - 1)
  }

  ghost function FreeBelow(r: Region, l: nat): set<nat> {
    set x | x in r.free && x < l
  }

  /** Free lines are unwritten, closed ones written, and the open one is written up to its
      pointer. */
  lemma UnwrittenLine(g: Geo, f: Flash, r: Region, lo: nat, hi: nat, c: Ppa, l: nat)
    requires g.WellFormed() && |f.vpc| == |f.ipc| == g.Lines() && lo <= l < hi <= g.Lines()
    requires RegionOk(g, f, r, lo, hi, c.blk, NoLine(g)) && CursorOk(g, f, c)
    ensures Unwritten(g, f, l) ==
            if l in r.free then g.PgsPerLine(l) else if l == c.blk then g.PgsPerLine(l) - g.Rank(c) else 0
  {
    hide CursorOk, Distinct, Geo.Rank, Geo.PgsPerLine, Geo.WellFormed;
    CursorCount(g, f, c);
    if l in r.free {
      assert FreeLine(g, f, l);
    } else if l in r.full {
      assert FullLine(g, f, l);
    } else if l in r.victims {
      assert VictimLine(g, f, l);
    }
  }

  lemma CursorCount(g: Geo, f: Flash, c: Ppa)
    requires g.WellFormed() && c.blk < |f.vpc| == |f.ipc| && CursorOk(g, f, c)
    ensures f.vpc[c.blk] + f.ipc[c.blk] == g.Rank(c)
  {}

  lemma {:induction false} RegionUnwritten(g: Geo, f: Flash, r: Region, lo: nat, hi: nat, c: Ppa, l: nat, ppl: nat)
    requires g.WellFormed() && |f.vpc| == |f.ipc| == g.Lines() && lo <= l <= hi <= g.Lines()
    requires RegionOk(g, f, r, lo, hi, c.blk, NoLine(g)) && CursorOk(g, f, c)
    requires forall x: nat :: lo <= x < hi ==> g.PgsPerLine(x) == ppl
    ensures UnwrittenIn(g, f, lo, l) == |FreeBelow(r, l)| * ppl + if c.blk < l then ppl - g.Rank(c) else 0
  {
    hide RegionOk, CursorOk, Unwritten, FreeBelow, Geo.Rank, Geo.PgsPerLine, Geo.WellFormed;
    RegionLists(g, f, r, lo, hi, c.blk);
    if l == lo {
      NoneBelow(r, l);
    } else {
      RegionUnwritten(g, f, r, lo, hi, c, l - 1, ppl);
      UnwrittenLine(g, f, r, lo, hi, c, l - 1);
      FreeStep(r, l);
      if l - 1 in r.free { OneLineLess(|FreeBelow(r, l)|, ppl); }
    }
  }

  lemma NoneBelow(r: Region, l: nat)
    requires forall x :: x in r.free ==> x >= l
    ensures FreeBelow(r, l) == {}
  {}

  lemma FreeStep(r: Region, l: nat)
    requires l > 0
    ensures |FreeBelow(r, l)| == |FreeBelow(r, l - 1)| + if l - 1 in r.free then 1 else 0
  {
    assert FreeBelow(r, l) == FreeBelow(r, l - 1) + if l - 1 in r.free then {l - 1} else {};
  }

  lemma RegionLists(g: Geo, f: Flash, r: Region, lo: nat, hi: nat, open: nat)
    requires |f.vpc| == |f.ipc| && hi <= |f.vpc| && RegionOk(g, f, r, lo, hi, open, NoLine(g))
    ensures lo <= open < hi && open !in r.free && Distinct(r.free) && forall l :: l in r.free ==> lo <= l < hi
  {}

  /** All lines of a region taken together. */
  lemma RegionSpace(g: Geo, f: Flash, r: Region, lo: nat, hi: nat, c: Ppa, ppl: nat)
    requires g.WellFormed() && |f.vpc| == |f.ipc| == g.Lines() && lo <= hi <= g.Lines()
    requires RegionOk(g, f, r, lo, hi, c.blk, NoLine(g)) && CursorOk(g, f, c)
    requires forall x: nat :: lo <= x < hi ==> g.PgsPerLine(x) == ppl
    ensures UnwrittenIn(g, f, lo, hi) == |r.free| * ppl + ppl - g.Rank(c)
  {
    hide CursorOk, Unwritten, UnwrittenIn, Geo.Rank, Geo.PgsPerLine, Geo.WellFormed;
    RegionUnwritten(g, f, r, lo, hi, c, hi, ppl);
    RegionLists(g, f, r, lo, hi, c.blk);
    assert FreeBelow(r, hi) == Elements(r.free);
    DistinctCard(r.free);
  }

  lemma {:induction false} UnwrittenSplits(g: Geo, f: Flash, mid: nat, hi: nat)
    requires mid <= hi <= |f.vpc| == |f.ipc|
    ensures UnwrittenIn(g, f, 0, hi) == UnwrittenIn(g, f, 0, mid) + UnwrittenIn(g, f, mid, hi)
  {
    if mid < hi { UnwrittenSplits(g, f, mid, hi - 1); }
  }

  // ---------- All pages of a partition ----------

  ghost function PagesBelow(g: Geo, l: nat): int {
    if l == 0 then 0 else PagesBelow(g, l - 1) + g.PgsPerLine(l - 1)
  }

  lemma {:induction false} PagesBelowIs(g: Geo, l: nat)
    requires l <= g.Lines()
    ensures PagesBelow(g, l) == if l <= g.slcLines then l * g.PgsPerLine(0)
                                else g.slcLines * g.PgsPerLine(0) + (l - g.slcLines) * g.PgsPerLine(g.slcLines)
  {
    if l > 0 {
      PagesBelowIs(g, l - 1);
      LineSize(g, l - 1);
      OneLineLess(l, g.PgsPerLine(0));
      if l > g.slcLines { OneLineLess(l - g.slcLines, g.PgsPerLine(g.slcLines)); }
    }
  }

  lemma LineSize(g: Geo, l: nat)
    ensures g.PgsPerLine(l) == if l < g.slcLines then g.PgsPerLine(0) else g.PgsPerLine(g.slcLines)
  {}

  lemma AllLines(g: Geo)
    ensures PagesBelow(g, g.Lines()) == g.TtPgs()
  {
    PagesBelowIs(g, g.Lines());
    LineSize(g, 0);
    var dies, b0, b1 := g.lunsPerCh * g.nchs, g.PgsPerBlkSlc(), g.PgsPerBlkTlc();
    assert g.slcLines > 0 ==> g.PgsPerLine(0) == dies * b0;
    assert g.PgsPerLine(g.slcLines) == dies * b1;
    Spread(g.slcLines, g.tlcLines, g.lunsPerCh, g.nchs, b0, b1);
  }

  lemma Spread(s: nat, t: nat, l: nat, c: nat, b0: nat, b1: nat)
    ensures s * ((l * c) * b0) + t * ((l * c) * b1) == c * (l * (s * b0 + t * b1))
  {
    assert s * ((l * c) * b0) == (l * c) * (s * b0);
    assert t * ((l * c) * b1) == (l * c) * (t * b1);
    assert (l * c) * (s * b0) + (l * c) * (t * b1) == (l * c) * (s * b0 + t * b1);
    assert (l * c) * (s * b0 + t * b1) == c * (l * (s * b0 + t * b1));
  }

  lemma {:induction false} LinesDivide(g: Geo, f: Flash, l: nat)
    requires l <= |f.vpc| == |f.ipc|
    ensures SumTo(f.vpc, l) + SumTo(f.ipc, l) + UnwrittenIn(g, f, 0, l) == PagesBelow(g, l)
  {
    if l > 0 { LinesDivide(g, f, l - 1); }
  }

  // ---------- Conservation of pages ----------

  /** Every page of a partition is valid, and then an LPN's, or invalid, or can still be
      programmed: mapped LPNs, invalid pages and the space of both regions make up all pages. */
  lemma SpaceConserved(g: Geo, s: State)
    requires Quiescent(g, s)
    ensures Sized(g, s) && |s.f.ipc| == g.Lines()
    ensures |Mapped(s.m, |s.m.maptbl|)| + SumTo(s.f.ipc, g.Lines()) + SlcSpace(g, s) + TlcSpace(g, s) == g.TtPgs()
  {
    hide MapOk, CountsOk, RegionOk, CursorOk, Mapped, Geo.Rank, Geo.PgsPerLine, Geo.WellFormed, Geo.TtPgs;
    CursorsSized(g, s, NoLine(g), {});
    CountersAddUp(g, s);
    LinesDivide(g, s.f, g.Lines());
    AllLines(g);
    UnwrittenSplits(g, s.f, g.slcLines, g.Lines());
    forall l: nat
      ensures g.PgsPerLine(l) == if l < g.slcLines then g.PgsPerLine(0) else g.PgsPerLine(g.slcLines)
    {
      LineSize(g, l);
    }
    RegionSpace(g, s.f, s.slm, 0, g.slcLines, s.wp, g.PgsPerLine(0));
    RegionSpace(g, s.f, s.lm, g.slcLines, g.Lines(), s.gcWp, g.PgsPerLine(g.slcLines));
  }

  lemma {:induction false} SumNotNegative(c: seq<int>, l: nat)
    requires l <= |c| && forall i :: 0 <= i < l ==> c[i] >= 0
    ensures SumTo(c, l) >= 0
  {
    if l > 0 { SumNotNegative(c, l - 1); }
  }

  /** How many LPNs a partition can have mapped between page writes: the lines that migration
      keeps free, and a page under either pointer, hold none of them. */
  function Capacity(g: Geo): int {
    g.TtPgs() - MinFreeSlc(g) * g.PgsPerLine(0) - 2
  }

  lemma MappedBound(g: Geo, s: State)
    requires Steady(g, s)
    ensures |Mapped(s.m, |s.m.maptbl|)| + |s.slm.free| * g.PgsPerLine(0) + 2 <= g.TtPgs()
    ensures |Mapped(s.m, |s.m.maptbl|)| <= Capacity(g)
  {
    hide Inv, Mapped, SumTo, Geo.Rank, Geo.PgsPerLine, Geo.WellFormed, Geo.TtPgs;
    SpaceConserved(g, s);
    SpacePositive(g, s, NoLine(g), {});
    SlcSpacePositive(g, s);
    forall l | 0 <= l < g.Lines() ensures s.f.ipc[l] >= 0 { LineBounds(g, s, l); }
    SumNotNegative(s.f.ipc, g.Lines());
    MulMono(MinFreeSlc(g), |s.slm.free|, g.PgsPerLine(0));
  }

  lemma SlcSpacePositive(g: Geo, s: State)
    requires Quiescent(g, s)
    ensures g.Oneshot(s.wp.blk) > 0 && SlcSpace(g, s) >= |s.slm.free| * g.PgsPerLine(0) + 1
  {
    RankRoundTrip(g, s.wp);
    assert g.PgsPerLine(s.wp.blk) == g.PgsPerLine(0);
  }

  // ---------- Runs ----------

  ghost function WrittenLpns(ops: seq<Op>): set<nat> {
    set k | 0 <= k < |ops| :: ops[k].n
  }

  lemma {:induction false} LastOfWritten(ops: seq<Op>, n: nat)
    ensures LastWrite(ops, n).Some? <==> n in WrittenLpns(ops)
  {
    if ops != [] {
      var init := ops[..|ops| - 1];
      LastOfWritten(init, n);
      assert WrittenLpns(ops) == WrittenLpns(init) + {ops[|ops| - 1].n};
    }
  }

  /** No run writes more LPNs than the capacity, which is less than there are: a host that goes
      on writing new LPNs does not get to the end. */
  lemma RunsStayBelow(g: Geo, ss: seq<State>, ops: seq<Op>)
    requires IsRun(g, ss, ops)
    ensures |WrittenLpns(ops)| <= Capacity(g) < g.TtPgs()
    ensures exists n: nat :: n < g.TtPgs() && n !in WrittenLpns(ops)
  {
    hide PageWritten, Steady, Lookup, LastWrite, WrittenLpns, Geo.PgsPerLine, Geo.WellFormed, Geo.TtPgs;
    var m := ss[|ops|].m;
    RunReads(g, ss, ops);
    MappedBound(g, ss[|ops|]);
    forall n | n in WrittenLpns(ops) ensures n in Mapped(m, |m.maptbl|) { WrittenIsMapped(g, ss, ops, n); }
    SubsetCard(WrittenLpns(ops), Mapped(m, |m.maptbl|));
    CapacityBelow(g);
    if forall n: nat :: n < g.TtPgs() ==> n in WrittenLpns(ops) {
      RangeIs(0, g.TtPgs());
      SubsetCard(Range(0, g.TtPgs()), WrittenLpns(ops));
    }
  }

  lemma CapacityBelow(g: Geo)
    requires g.slcLines >= 2
    ensures Capacity(g) < g.TtPgs()
  {
    MulMono(0, MinFreeSlc(g), g.PgsPerLine(0));
  }

  lemma WrittenIsMapped(g: Geo, ss: seq<State>, ops: seq<Op>, n: nat)
    requires IsRun(g, ss, ops) && n in WrittenLpns(ops) && |ss[|ops|].m.maptbl| == g.TtPgs()
    requires forall k: nat :: k < g.TtPgs() ==> Lookup(ss[|ops|].m, k) == LastWrite(ops, k)
    ensures n in Mapped(ss[|ops|].m, g.TtPgs())
  {
    hide PageWritten, LastWrite;
    LastOfWritten(ops, n);
    assert n < g.TtPgs();
    assert Lookup(ss[|ops|].m, n).Some?;
  }
}
