/** The state of one FTL partition as a value, and the invariant that every page write keeps.
    The invariant is written for a line v under collection whose pages in `done` have been
    dealt with; the quiescent invariant is the case of no such line. */
module FtlState {
  import opened Wrappers
  import opened Counting
  import opened Geometry

  datatype PageStatus = PgFree | PgInvalid | PgValid

  /** maptbl, rmap (None is INVALID_LPN) and what each page was last programmed with. */
  datatype Mapping = Mapping(maptbl: seq<Option<Ppa>>, rmap: seq<Option<nat>>, data: map<Ppa, int>)

  /** Page states with the per-block and per-line counters. */
  datatype Flash = Flash(
    status: map<Ppa, PageStatus>, blkVpc: map<Block, int>, blkIpc: map<Block, int>,
    vpc: seq<int>, ipc: seq<int>)

  /** struct line_mgmt: the line lists by line id, and their counters. */
  datatype Region = Region(
    free: seq<nat>, full: seq<nat>, victims: set<nat>,
    freeCnt: int, fullCnt: int, victimCnt: int)

  /** wp and gcWp are the next pages to write; their block is the open line. */
  datatype State = State(
    m: Mapping, f: Flash, slm: Region, lm: Region, wp: Ppa, gcWp: Ppa,
    writeCredits: int, creditsToRefill: int)

  // ---------- Lookup ----------

  /** What LPN n reads back; None when it is unmapped. */
  function Lookup(m: Mapping, n: nat): Option<int>
    requires n < |m.maptbl|
  {
    match m.maptbl[n]
    case None => None
    case Some(p) => if p in m.data then Some(m.data[p]) else None
  }

  /** The logical contents of m' are those of m, with x written to LPN n. */
  ghost predicate Writes(m: Mapping, m': Mapping, n: nat, x: int) {
    && n < |m.maptbl| == |m'.maptbl|
    && forall k :: 0 <= k < |m.maptbl| ==> Lookup(m', k) == if k == n then Some(x) else Lookup(m, k)
  }

  /** m and m' have the same logical contents. */
  ghost predicate SameView(m: Mapping, m': Mapping) {
    && |m'.maptbl| == |m.maptbl|
    && forall k :: 0 <= k < |m.maptbl| ==> Lookup(m', k) == Lookup(m, k)
  }

  // ---------- Counting pages ----------

  ghost function InLine(st: map<Ppa, PageStatus>, l: nat, x: PageStatus): set<Ppa> {
    set p | p in st && p.blk == l && st[p] == x
  }

  ghost function InBlock(st: map<Ppa, PageStatus>, b: Block, x: PageStatus): set<Ppa> {
    set p | p in st && BlockOf(p) == b && st[p] == x
  }

  predicate ValidBlock(g: Geo, b: Block) {
    b.ch < g.nchs && b.lun < g.lunsPerCh && b.blk < g.Lines()
  }

  // ---------- The invariant ----------

  ghost predicate Domains(g: Geo, m: Mapping, f: Flash) {
    && g.WellFormed()
    && |m.maptbl| == g.TtPgs() && |m.rmap| == g.TtPgs()
    && |f.vpc| == g.Lines() && |f.ipc| == g.Lines()
    && (forall p :: p in f.status <==> g.ValidPpa(p))
    && (forall b :: ValidBlock(g, b) ==> b in f.blkVpc && b in f.blkIpc)
  }

  /** Outside `done`, a page is valid exactly when an LPN maps to it, and rmap inverts maptbl. */
  ghost predicate MapOk(g: Geo, m: Mapping, st: map<Ppa, PageStatus>, done: set<Ppa>) {
    && (forall n :: 0 <= n < |m.maptbl| && m.maptbl[n].Some? ==>
          var p := m.maptbl[n].value;
          && p in st && st[p] == PgValid && p !in done && p in m.data
          && g.Idx(p) < |m.rmap| && m.rmap[g.Idx(p)] == Some(n))
    && (forall p :: p in st && st[p] == PgValid && p !in done ==>
          && g.Idx(p) < |m.rmap| && m.rmap[g.Idx(p)].Some?
          && m.rmap[g.Idx(p)].value < |m.maptbl|
          && m.maptbl[m.rmap[g.Idx(p)].value] == Some(p))
  }

  /** The counters are true counts, the line counters except those of line v. */
  ghost predicate CountsOk(g: Geo, f: Flash, v: nat)
    requires |f.vpc| == g.Lines() && |f.ipc| == g.Lines()
    requires forall b :: ValidBlock(g, b) ==> b in f.blkVpc && b in f.blkIpc
  {
    && (forall l :: 0 <= l < g.Lines() && l != v ==>
          f.vpc[l] == |InLine(f.status, l, PgValid)| && f.ipc[l] == |InLine(f.status, l, PgInvalid)|)
    && (forall b :: ValidBlock(g, b) ==>
          f.blkVpc[b] == |InBlock(f.status, b, PgValid)| && f.blkIpc[b] == |InBlock(f.status, b, PgInvalid)|)
  }

  ghost predicate AllFree(st: map<Ppa, PageStatus>, l: nat) {
    forall p :: p in st && p.blk == l ==> st[p] == PgFree
  }

  ghost predicate NoneFree(st: map<Ppa, PageStatus>, l: nat) {
    forall p :: p in st && p.blk == l ==> st[p] != PgFree
  }

  ghost predicate FreeLine(g: Geo, f: Flash, l: nat)
    requires l < |f.vpc| && l < |f.ipc|
  {
    f.vpc[l] == 0 && f.ipc[l] == 0 && AllFree(f.status, l)
  }

  ghost predicate FullLine(g: Geo, f: Flash, l: nat)
    requires l < |f.vpc| && l < |f.ipc|
  {
    f.vpc[l] == g.PgsPerLine(l) && f.ipc[l] == 0 && NoneFree(f.status, l)
  }

  ghost predicate VictimLine(g: Geo, f: Flash, l: nat)
    requires l < |f.vpc| && l < |f.ipc|
  {
    f.vpc[l] + f.ipc[l] == g.PgsPerLine(l) && f.ipc[l] > 0 && NoneFree(f.status, l)
  }

  /** The lines [lo, hi) of a region are split between its free list, its full list, its
      victims, the open line and the line v, and each list holds lines of its own kind. */
  ghost predicate RegionOk(g: Geo, f: Flash, r: Region, lo: nat, hi: nat, open: nat, v: nat)
    requires |f.vpc| == |f.ipc| && hi <= |f.vpc|
  {
    lo <= open < hi && open != v && ListsOk(g, f, r, lo, hi, open, v)
  }

  ghost predicate ListsOk(g: Geo, f: Flash, r: Region, lo: nat, hi: nat, open: nat, v: nat)
    requires |f.vpc| == |f.ipc| && hi <= |f.vpc|
  {
    && Distinct(r.free) && Distinct(r.full)
    && r.freeCnt == |r.free| && r.fullCnt == |r.full| && r.victimCnt == |r.victims|
    && (forall l :: l in r.free ==>
          lo <= l < hi && l !in r.full && l !in r.victims && l != open && l != v && FreeLine(g, f, l))
    && (forall l :: l in r.full ==>
          lo <= l < hi && l !in r.victims && l != open && l != v && FullLine(g, f, l))
    && (forall l :: l in r.victims ==>
          lo <= l < hi && l != open && l != v && VictimLine(g, f, l))
    && (forall l :: lo <= l < hi ==> l in r.free || l in r.full || l in r.victims || l == open || l == v)
  }

  /** In the open line exactly the pages of smaller rank than the cursor have been written. */
  ghost predicate CursorOk(g: Geo, f: Flash, c: Ppa)
    requires g.WellFormed() && c.blk < |f.vpc| == |f.ipc|
  {
    && g.ValidPpa(c)
    && f.vpc[c.blk] + f.ipc[c.blk] == g.Rank(c)
    && (forall p :: p in f.status && p.blk == c.blk ==> (g.Rank(p) < g.Rank(c) <==> f.status[p] != PgFree))
  }

  /** No line under collection. */
  function NoLine(g: Geo): nat { g.Lines() }

  ghost predicate Inv(g: Geo, s: State, v: nat, done: set<Ppa>) {
    && Domains(g, s.m, s.f)
    && MapOk(g, s.m, s.f.status, done)
    && CountsOk(g, s.f, v)
    && RegionOk(g, s.f, s.slm, 0, g.slcLines, s.wp.blk, v) && CursorOk(g, s.f, s.wp)
    && RegionOk(g, s.f, s.lm, g.slcLines, g.Lines(), s.gcWp.blk, v) && CursorOk(g, s.f, s.gcWp)
  }

  ghost predicate Quiescent(g: Geo, s: State) { Inv(g, s, NoLine(g), {}) }

  // ---------- What the invariant means ----------

  /** maptbl is injective on mapped LPNs. */
  lemma MappingInjective(g: Geo, s: State, n1: nat, n2: nat)
    requires Quiescent(g, s) && n1 < |s.m.maptbl| && n2 < |s.m.maptbl|
    requires s.m.maptbl[n1].Some? && s.m.maptbl[n1] == s.m.maptbl[n2]
    ensures n1 == n2
  {
    assert s.m.rmap[g.Idx(s.m.maptbl[n1].value)] == Some(n1);
    assert s.m.rmap[g.Idx(s.m.maptbl[n2].value)] == Some(n2);
  }

  /** A page is valid exactly when some LPN maps to it, and that LPN is the one in rmap. */
  lemma ValidIffMapped(g: Geo, s: State, p: Ppa)
    requires Quiescent(g, s) && g.ValidPpa(p)
    ensures g.Idx(p) < |s.m.rmap|
    ensures s.f.status[p] == PgValid <==> exists n: nat :: n < |s.m.maptbl| && s.m.maptbl[n] == Some(p)
    ensures s.f.status[p] == PgValid ==>
              s.m.rmap[g.Idx(p)].Some? && s.m.rmap[g.Idx(p)].value < |s.m.maptbl|
              && s.m.maptbl[s.m.rmap[g.Idx(p)].value] == Some(p)
  {
    IdxRoundTrip(g, p);
  }

  datatype Place = OnFreeList | OnFullList | InVictimHeap | OpenForWriting

  ghost predicate At(s: State, r: Region, open: nat, l: nat, at: Place) {
    match at
    case OnFreeList => l in r.free
    case OnFullList => l in r.full
    case InVictimHeap => l in r.victims
    case OpenForWriting => l == open
  }

  /** Every line of either region is in exactly one place. */
  lemma LineInOnePlace(g: Geo, s: State, l: nat)
    requires Quiescent(g, s) && l < g.Lines()
    ensures var r := if g.IsSlc(l) then s.slm else s.lm;
            var open := if g.IsSlc(l) then s.wp.blk else s.gcWp.blk;
            exists at :: At(s, r, open, l, at) && forall at' :: At(s, r, open, l, at') ==> at' == at
  {
    var r := if g.IsSlc(l) then s.slm else s.lm;
    var open := if g.IsSlc(l) then s.wp.blk else s.gcWp.blk;
    var at := if l in r.free then OnFreeList else if l in r.full then OnFullList
              else if l in r.victims then InVictimHeap else OpenForWriting;
    assert At(s, r, open, l, at);
  }
}
