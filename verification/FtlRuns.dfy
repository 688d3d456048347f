/** Whole runs of page writes on one partition, and how its lines account for its pages. */
module FtlRuns {
  import opened Wrappers
  import opened Geometry
  import opened FtlState
  import opened FtlInit
  import opened FtlFlow

  // ---------- Runs ----------

  /** A page write, with the ages and the choices of the collection that it set off, if any. */
  datatype Op = Op(n: nat, x: int, ageUs: seq<int>, round: Round)

  /** ss are the states before and after each of the writes ops, from the fresh state on. */
  ghost predicate IsRun(g: Geo, ss: seq<State>, ops: seq<Op>) {
    && g.slcLines >= 2 && g.tlcLines >= 1 && g.WellFormed()
    && |ss| == |ops| + 1 && ss[0] == FreshState(g)
    && forall k :: 0 <= k < |ops| ==>
         ops[k].n < g.TtPgs() && PageWritten(g, ss[k], ops[k].n, ops[k].x, ops[k].ageUs, ops[k].round, ss[k + 1])
  }

  /** What the writes left in LPN n. */
  function LastWrite(ops: seq<Op>, n: nat): Option<int> {
    if ops == [] then None
    else if ops[|ops| - 1].n == n then Some(ops[|ops| - 1].x)
    else LastWrite(ops[..|ops| - 1], n)
  }

  /** In every run each state is steady, so the next write finds an SLC page, and every LPN
      reads back what was last written to it, whatever was collected in between. */
  lemma {:induction false} RunReads(g: Geo, ss: seq<State>, ops: seq<Op>)
    requires IsRun(g, ss, ops)
    ensures var s := ss[|ops|];
      && Steady(g, s) && s.slm.freeCnt >= MinFreeSlc(g) && |s.m.maptbl| == g.TtPgs()
      && forall n: nat :: n < g.TtPgs() ==> Lookup(s.m, n) == LastWrite(ops, n)
  {
    hide Inv, PageWritten, Lookup, FreshState, Geo.WellFormed, Geo.Rank, Geo.PgsPerLine;
    if ops == [] {
      FreshSteady(g);
      FreshOk(g);
      SteadyParts(g, ss[0]);
    } else {
      var k := |ops| - 1;
      RunReads(g, ss[..k + 1], ops[..k]);
      PageWrittenSteady(g, ss[k], ops[k].n, ops[k].x, ops[k].ageUs, ops[k].round, ss[k + 1]);
      SteadyParts(g, ss[k + 1]);
    }
  }

  lemma SteadyParts(g: Geo, s: State)
    requires Steady(g, s)
    ensures s.slm.freeCnt >= MinFreeSlc(g) && |s.m.maptbl| == g.TtPgs()
  {}

  // ---------- The valid pages of all lines ----------

  function SumTo(s: seq<int>, k: nat): int
    requires k <= |s|
  {
    if k == 0 then 0 else SumTo(s, k - 1) + s[k - 1]
  }

  ghost function Mapped(m: Mapping, k: nat): set<nat>
    requires k <= |m.maptbl|
  {
    set n: nat | n < k && m.maptbl[n].Some?
  }

  ghost function PagesMapped(m: Mapping, k: nat): set<Ppa>
    requires k <= |m.maptbl|
  {
    set n: nat | n < k && m.maptbl[n].Some? :: m.maptbl[n].value
  }

  ghost function ValidBelow(st: map<Ppa, PageStatus>, l: nat): set<Ppa> {
    set p | p in st && p.blk < l && st[p] == PgValid
  }

  lemma {:induction false} LinesAddUp(g: Geo, s: State, l: nat)
    requires Quiescent(g, s) && l <= g.Lines()
    ensures |s.f.vpc| == g.Lines() && SumTo(s.f.vpc, l) == |ValidBelow(s.f.status, l)|
  {
    hide Inv;
    var st := s.f.status;
    LineSizes(g, s);
    if l == 0 {
      assert ValidBelow(st, 0) == {};
    } else {
      LinesAddUp(g, s, l - 1);
      LineCount(g, s, l - 1);
      assert ValidBelow(st, l) == ValidBelow(st, l - 1) + InLine(st, l - 1, PgValid);
      assert |ValidBelow(st, l - 1) + InLine(st, l - 1, PgValid)|
             == |ValidBelow(st, l - 1)| + |InLine(st, l - 1, PgValid)|;
    }
  }

  lemma LineSizes(g: Geo, s: State)
    requires Quiescent(g, s)
    ensures |s.f.vpc| == g.Lines()
  {}

  lemma LineCount(g: Geo, s: State, l: nat)
    requires Quiescent(g, s) && l < g.Lines()
    ensures |s.f.vpc| == g.Lines() && s.f.vpc[l] == |InLine(s.f.status, l, PgValid)|
  {}

  lemma {:induction false} OnePageEach(g: Geo, s: State, k: nat)
    requires Quiescent(g, s) && k <= |s.m.maptbl|
    ensures |PagesMapped(s.m, k)| == |Mapped(s.m, k)|
  {
    hide Inv, PagesMapped, Mapped;
    if k == 0 {
      NoneMapped(s.m);
    } else {
      OnePageEach(g, s, k - 1);
      OneMoreLpn(s.m, k - 1);
      if s.m.maptbl[k - 1].Some? { OwnPage(g, s, k - 1); }
    }
  }

  lemma NoneMapped(m: Mapping)
    ensures PagesMapped(m, 0) == {} && Mapped(m, 0) == {}
  {}

  lemma OneMoreLpn(m: Mapping, k: nat)
    requires k < |m.maptbl|
    ensures match m.maptbl[k]
            case None => PagesMapped(m, k + 1) == PagesMapped(m, k) && Mapped(m, k + 1) == Mapped(m, k)
            case Some(p) => PagesMapped(m, k + 1) == PagesMapped(m, k) + {p} && Mapped(m, k + 1) == Mapped(m, k) + {k}
    ensures k !in Mapped(m, k)
  {}

  lemma OwnPage(g: Geo, s: State, k: nat)
    requires Quiescent(g, s) && k < |s.m.maptbl| && s.m.maptbl[k].Some?
    ensures s.m.maptbl[k].value !in PagesMapped(s.m, k)
  {
    hide Inv;
    forall n: nat | n < k && s.m.maptbl[n].Some? ensures s.m.maptbl[n].value != s.m.maptbl[k].value {
      if s.m.maptbl[n].value == s.m.maptbl[k].value { MappingInjective(g, s, n, k); }
    }
  }

  lemma ValidPages(g: Geo, s: State)
    requires Quiescent(g, s)
    ensures |s.m.maptbl| == g.TtPgs() && ValidBelow(s.f.status, g.Lines()) == PagesMapped(s.m, |s.m.maptbl|)
  {
    forall p | p in ValidBelow(s.f.status, g.Lines()) ensures p in PagesMapped(s.m, |s.m.maptbl|) {
      ValidIffMapped(g, s, p);
    }
  }

  /** The valid-page counters of all lines add up to the number of mapped LPNs. */
  lemma CountersAddUp(g: Geo, s: State)
    requires Quiescent(g, s)
    ensures |s.f.vpc| == g.Lines() && SumTo(s.f.vpc, g.Lines()) == |Mapped(s.m, |s.m.maptbl|)|
  {
    hide Inv;
    LinesAddUp(g, s, g.Lines());
    ValidPages(g, s);
    OnePageEach(g, s, |s.m.maptbl|);
  }
}
