/** The state conv_init_ftl builds. */
module FtlInit {
  import opened Wrappers
  import opened Geometry
  import opened Counting
  import opened FtlState
  import opened FtlSteps

  function AllPages(g: Geo): (r: set<Ppa>)
    ensures forall p :: p in r <==> g.ValidPpa(p)
  {
    set ch: nat, lun: nat, blk: nat, pg: nat |
      ch < g.nchs && lun < g.lunsPerCh && blk < g.Lines() && pg < g.PgsPerBlk(blk) :: Ppa(ch, lun, blk, pg)
  }

  function AllBlocks(g: Geo): (r: set<Block>)
    ensures forall b :: b in r <==> ValidBlock(g, b)
  {
    set ch: nat, lun: nat, blk: nat | ch < g.nchs && lun < g.lunsPerCh && blk < g.Lines() :: Block(ch, lun, blk)
  }

  /** The line ids lo .. hi - 1 in order. */
  function Ids(lo: nat, hi: nat): (r: seq<nat>)
    requires lo <= hi
    ensures |r| == hi - lo && forall i :: 0 <= i < |r| ==> r[i] == lo + i
    ensures forall l :: l in r <==> lo <= l < hi
  {
    if lo == hi then [] else Ids(lo, hi - 1) + [hi - 1]
  }

  function FreshRegion(lo: nat, hi: nat): Region
    requires lo < hi
  {
    Region(Ids(lo, hi)[1..], [], {}, hi - lo - 1, 0, 0)
  }

  function Zeros(n: nat): (r: seq<int>)
    ensures |r| == n && forall i :: 0 <= i < n ==> r[i] == 0
  {
    if n == 0 then [] else Zeros(n - 1) + [0]
  }

  function Nones<T>(n: nat): (r: seq<Option<T>>)
    ensures |r| == n && forall i :: 0 <= i < n ==> r[i] == None
  {
    if n == 0 then [] else Nones(n - 1) + [None]
  }

  /** init_maptbl and init_rmap. */
  function FreshMapping(g: Geo): Mapping {
    Mapping(Nones(g.TtPgs()), Nones(g.TtPgs()), map p | p in AllPages(g) :: 0)
  }

  function FreshFlash(g: Geo): Flash {
    Flash(map p | p in AllPages(g) :: PgFree, map b | b in AllBlocks(g) :: 0, map b | b in AllBlocks(g) :: 0,
          Zeros(g.Lines()), Zeros(g.Lines()))
  }

  /** Nothing is mapped, every page is free, and each region has its first line open. */
  function FreshState(g: Geo): State
    requires g.slcLines >= 1 && g.tlcLines >= 1
  {
    State(
      FreshMapping(g), FreshFlash(g),
      FreshRegion(0, g.slcLines), FreshRegion(g.slcLines, g.Lines()),
      Ppa(0, 0, 0, 0), Ppa(0, 0, g.slcLines, 0), g.PgsPerLine(0), g.PgsPerLine(0))
  }

  /** The fresh device satisfies the invariant, and every LPN is unmapped. */
  lemma FreshOk(g: Geo)
    requires g.WellFormed() && g.slcLines >= 1 && g.tlcLines >= 1
    ensures Quiescent(g, FreshState(g))
    ensures forall n :: 0 <= n < g.TtPgs() ==> Lookup(FreshState(g).m, n) == None
  {
    var s := FreshState(g);
    RankZero(g, s.wp);
    RankZero(g, s.gcWp);
    FreshCounts(g, s.f);
    FreshRegionOk(g, s.f, 0, g.slcLines);
    FreshRegionOk(g, s.f, g.slcLines, g.Lines());
  }

  lemma FreshCounts(g: Geo, f: Flash)
    requires |f.vpc| == g.Lines() && |f.ipc| == g.Lines()
    requires forall p :: p in f.status ==> f.status[p] == PgFree
    requires forall l :: 0 <= l < g.Lines() ==> f.vpc[l] == 0 && f.ipc[l] == 0
    requires forall b :: ValidBlock(g, b) ==> b in f.blkVpc && b in f.blkIpc && f.blkVpc[b] == 0 && f.blkIpc[b] == 0
    ensures CountsOk(g, f, NoLine(g))
  {
    forall l, x | x != PgFree ensures InLine(f.status, l, x) == {} {}
    forall b, x | x != PgFree ensures InBlock(f.status, b, x) == {} {}
  }

  lemma FreshRegionOk(g: Geo, f: Flash, lo: nat, hi: nat)
    requires |f.vpc| == |f.ipc| && lo < hi <= |f.vpc| && hi <= NoLine(g)
    requires forall p :: p in f.status ==> f.status[p] == PgFree
    requires forall l :: 0 <= l < |f.vpc| ==> f.vpc[l] == 0 && f.ipc[l] == 0
    ensures RegionOk(g, f, FreshRegion(lo, hi), lo, hi, lo, NoLine(g))
  {
    var ids := Ids(lo, hi);
    DistinctTail(ids);
  }
}
