/** The elementary changes of the FTL state, as functions on values, and what each keeps. */
module FtlSteps {
  import opened Wrappers
  import opened Geometry
  import opened Counting
  import opened FtlState

  // ---------- Page states and counters ----------

  /** mark_page_valid. */
  function SetValid(f: Flash, p: Ppa): Flash
    requires BlockOf(p) in f.blkVpc && p.blk < |f.vpc|
  {
    f.(status := f.status[p := PgValid],
       blkVpc := f.blkVpc[BlockOf(p) := f.blkVpc[BlockOf(p)] + 1],
       vpc := f.vpc[p.blk := f.vpc[p.blk] + 1])
  }

  /** The page and counter part of mark_page_invalid. */
  function SetInvalid(f: Flash, p: Ppa): Flash
    requires BlockOf(p) in f.blkVpc && BlockOf(p) in f.blkIpc && p.blk < |f.vpc| && p.blk < |f.ipc|
  {
    f.(status := f.status[p := PgInvalid],
       blkVpc := f.blkVpc[BlockOf(p) := f.blkVpc[BlockOf(p)] - 1],
       blkIpc := f.blkIpc[BlockOf(p) := f.blkIpc[BlockOf(p)] + 1],
       vpc := f.vpc[p.blk := f.vpc[p.blk] - 1],
       ipc := f.ipc[p.blk := f.ipc[p.blk] + 1])
  }

  /** mark_block_free. */
  function EraseBlock(f: Flash, b: Block): Flash {
    f.(status := map p | p in f.status :: if BlockOf(p) == b then PgFree else f.status[p],
       blkVpc := f.blkVpc[b := 0],
       blkIpc := f.blkIpc[b := 0])
  }

  /** The counter part of mark_line_free. */
  function ResetLine(f: Flash, l: nat): Flash
    requires l < |f.vpc| && l < |f.ipc|
  {
    f.(vpc := f.vpc[l := 0], ipc := f.ipc[l := 0])
  }

  /** Recounting a line after one page changes state. */
  lemma RecountLine(st: map<Ppa, PageStatus>, p: Ppa, y: PageStatus)
    requires p in st && st[p] != y
    ensures var st' := st[p := y];
      && |InLine(st', p.blk, y)| == |InLine(st, p.blk, y)| + 1
      && |InLine(st', p.blk, st[p])| == |InLine(st, p.blk, st[p])| - 1
      && forall x :: x != y && x != st[p] ==> InLine(st', p.blk, x) == InLine(st, p.blk, x)
  {
    var st' := st[p := y];
    assert InLine(st', p.blk, y) == InLine(st, p.blk, y) + {p};
    assert InLine(st, p.blk, st[p]) == InLine(st', p.blk, st[p]) + {p};
  }

  /** Recounting a block after one page changes state. */
  lemma RecountBlock(st: map<Ppa, PageStatus>, p: Ppa, y: PageStatus)
    requires p in st && st[p] != y
    ensures var st', b := st[p := y], BlockOf(p);
      && |InBlock(st', b, y)| == |InBlock(st, b, y)| + 1
      && |InBlock(st', b, st[p])| == |InBlock(st, b, st[p])| - 1
      && forall x :: x != y && x != st[p] ==> InBlock(st', b, x) == InBlock(st, b, x)
  {
    var st', b := st[p := y], BlockOf(p);
    assert InBlock(st', b, y) == InBlock(st, b, y) + {p};
    assert InBlock(st, b, st[p]) == InBlock(st', b, st[p]) + {p};
  }

  lemma RecountElsewhere(st: map<Ppa, PageStatus>, p: Ppa, y: PageStatus, l: nat, b: Block, x: PageStatus)
    requires p in st
    ensures l != p.blk ==> InLine(st[p := y], l, x) == InLine(st, l, x)
    ensures b != BlockOf(p) ==> InBlock(st[p := y], b, x) == InBlock(st, b, x)
  {}

  lemma SetValidCounts(g: Geo, m: Mapping, f: Flash, v: nat, p: Ppa)
    requires Domains(g, m, f) && CountsOk(g, f, v)
    requires p in f.status && f.status[p] == PgFree && p.blk != v
    ensures Domains(g, m, SetValid(f, p)) && CountsOk(g, SetValid(f, p), v)
  {
    var f' := SetValid(f, p);
    RecountLine(f.status, p, PgValid);
    RecountBlock(f.status, p, PgValid);
    forall l | 0 <= l < g.Lines() && l != v
      ensures f'.vpc[l] == |InLine(f'.status, l, PgValid)| && f'.ipc[l] == |InLine(f'.status, l, PgInvalid)|
    {
      RecountElsewhere(f.status, p, PgValid, l, BlockOf(p), PgValid);
      RecountElsewhere(f.status, p, PgValid, l, BlockOf(p), PgInvalid);
    }
    forall b | ValidBlock(g, b)
      ensures f'.blkVpc[b] == |InBlock(f'.status, b, PgValid)| && f'.blkIpc[b] == |InBlock(f'.status, b, PgInvalid)|
    {
      RecountElsewhere(f.status, p, PgValid, p.blk, b, PgValid);
      RecountElsewhere(f.status, p, PgValid, p.blk, b, PgInvalid);
    }
  }

  lemma SetInvalidCounts(g: Geo, m: Mapping, f: Flash, v: nat, p: Ppa)
    requires Domains(g, m, f) && CountsOk(g, f, v)
    requires p in f.status && f.status[p] == PgValid && p.blk != v
    ensures Domains(g, m, SetInvalid(f, p)) && CountsOk(g, SetInvalid(f, p), v)
  {
    var f' := SetInvalid(f, p);
    RecountLine(f.status, p, PgInvalid);
    RecountBlock(f.status, p, PgInvalid);
    forall l | 0 <= l < g.Lines() && l != v
      ensures f'.vpc[l] == |InLine(f'.status, l, PgValid)| && f'.ipc[l] == |InLine(f'.status, l, PgInvalid)|
    {
      RecountElsewhere(f.status, p, PgInvalid, l, BlockOf(p), PgValid);
      RecountElsewhere(f.status, p, PgInvalid, l, BlockOf(p), PgInvalid);
    }
    forall b | ValidBlock(g, b)
      ensures f'.blkVpc[b] == |InBlock(f'.status, b, PgValid)| && f'.blkIpc[b] == |InBlock(f'.status, b, PgInvalid)|
    {
      RecountElsewhere(f.status, p, PgInvalid, p.blk, b, PgValid);
      RecountElsewhere(f.status, p, PgInvalid, p.blk, b, PgInvalid);
    }
  }

  lemma EraseCounts(g: Geo, m: Mapping, f: Flash, b: Block)
    requires Domains(g, m, f) && CountsOk(g, f, b.blk) && ValidBlock(g, b)
    ensures Domains(g, m, EraseBlock(f, b)) && CountsOk(g, EraseBlock(f, b), b.blk)
  {
    var f' := EraseBlock(f, b);
    forall l, x | l != b.blk ensures InLine(f'.status, l, x) == InLine(f.status, l, x) {}
    forall c, x | c != b ensures InBlock(f'.status, c, x) == InBlock(f.status, c, x) {}
    assert InBlock(f'.status, b, PgValid) == {} && InBlock(f'.status, b, PgInvalid) == {};
  }

  lemma ResetCounts(g: Geo, m: Mapping, f: Flash, l: nat)
    requires Domains(g, m, f) && CountsOk(g, f, l) && l < g.Lines() && AllFree(f.status, l)
    ensures Domains(g, m, ResetLine(f, l)) && CountsOk(g, ResetLine(f, l), NoLine(g))
  {
    assert InLine(f.status, l, PgValid) == {} && InLine(f.status, l, PgInvalid) == {};
  }

  // ---------- The mapping ----------

  lemma DomainsMapping(g: Geo, m: Mapping, m': Mapping, f: Flash)
    requires Domains(g, m, f) && |m'.maptbl| == |m.maptbl| && |m'.rmap| == |m.rmap|
    ensures Domains(g, m', f)
  {}

  /** Maps LPN n to page p in both tables, and programs the page. */
  function PlaceMap(g: Geo, m: Mapping, n: nat, p: Ppa, x: int): Mapping
    requires n < |m.maptbl| && g.Idx(p) < |m.rmap|
  {
    Mapping(m.maptbl[n := Some(p)], m.rmap[g.Idx(p) := Some(n)], m.data[p := x])
  }

  /** Forgets LPN n, mapped to page p. */
  function DropMap(g: Geo, m: Mapping, n: nat, p: Ppa): Mapping
    requires n < |m.maptbl| && g.Idx(p) < |m.rmap|
  {
    m.(maptbl := m.maptbl[n := None], rmap := m.rmap[g.Idx(p) := None])
  }

  /** Programming a free page for an LPN: the page it had before, if any, is dealt with. */
  lemma PlaceMapOk(g: Geo, m: Mapping, f: Flash, done: set<Ppa>, n: nat, p: Ppa, x: int, done': set<Ppa>)
    requires Domains(g, m, f) && MapOk(g, m, f.status, done)
    requires n < |m.maptbl| && p in f.status && f.status[p] == PgFree && p !in done'
    requires done' == if m.maptbl[n].Some? then done + {m.maptbl[n].value} else done
    ensures g.Idx(p) < |m.rmap|
    ensures MapOk(g, PlaceMap(g, m, n, p, x), SetValid(f, p).status, done')
  {
    IdxRoundTrip(g, p);
    var m', st' := PlaceMap(g, m, n, p, x), f.status[p := PgValid];
    forall k | 0 <= k < |m'.maptbl| && m'.maptbl[k].Some? && k != n
      ensures var q := m'.maptbl[k].value;
              q in st' && st'[q] == PgValid && q !in done' && q in m'.data && m'.rmap[g.Idx(q)] == Some(k)
    {
      var q := m.maptbl[k].value;
      assert q != p;
      if g.Idx(q) == g.Idx(p) { IdxInjective(g, q, p); }
    }
    forall q | q in st' && st'[q] == PgValid && q !in done' && q != p
      ensures g.Idx(q) < |m'.rmap| && m'.rmap[g.Idx(q)].Some? && m'.rmap[g.Idx(q)].value < |m'.maptbl|
      ensures m'.maptbl[m'.rmap[g.Idx(q)].value] == Some(q)
    {
      if g.Idx(q) == g.Idx(p) { IdxInjective(g, q, p); }
      assert m'.rmap[g.Idx(q)] == m.rmap[g.Idx(q)];
    }
  }

  /** Invalidating the page of an LPN that is about to be rewritten. */
  lemma DropMapOk(g: Geo, m: Mapping, f: Flash, n: nat, p: Ppa)
    requires Domains(g, m, f) && MapOk(g, m, f.status, {})
    requires n < |m.maptbl| && m.maptbl[n] == Some(p)
    ensures g.Idx(p) < |m.rmap|
    ensures |DropMap(g, m, n, p).maptbl| == |m.maptbl| && |DropMap(g, m, n, p).rmap| == |m.rmap|
    ensures MapOk(g, DropMap(g, m, n, p), SetInvalid(f, p).status, {})
  {
    var m', st' := DropMap(g, m, n, p), f.status[p := PgInvalid];
    forall k | 0 <= k < |m'.maptbl| && m'.maptbl[k].Some?
      ensures var q := m'.maptbl[k].value;
              q in st' && st'[q] == PgValid && q in m'.data && m'.rmap[g.Idx(q)] == Some(k)
    {
      var q := m.maptbl[k].value;
      assert m.rmap[g.Idx(q)] == Some(k) && m.rmap[g.Idx(p)] == Some(n);
    }
    forall q | q in st' && st'[q] == PgValid
      ensures g.Idx(q) < |m'.rmap| && m'.rmap[g.Idx(q)].Some? && m'.rmap[g.Idx(q)].value < |m'.maptbl|
      ensures m'.maptbl[m'.rmap[g.Idx(q)].value] == Some(q)
    {
      if g.Idx(q) == g.Idx(p) { IdxInjective(g, q, p); }
      assert m.maptbl[m.rmap[g.Idx(q)].value] == Some(q);
    }
  }

  // ---------- Line lists ----------

  /** list_del: the list without its entry l. */
  function Without(s: seq<nat>, l: nat): seq<nat> {
    if s == [] then [] else if s[0] == l then s[1..] else [s[0]] + Without(s[1..], l)
  }

  lemma {:induction false} WithoutIs(s: seq<nat>, l: nat)
    requires Distinct(s) && l in s
    ensures Distinct(Without(s, l)) && |Without(s, l)| == |s| - 1
    ensures forall x :: x in Without(s, l) <==> x in s && x != l
  {
    DistinctTail(s);
    if s[0] != l {
      WithoutIs(s[1..], l);
      DistinctPrepend(s[0], Without(s[1..], l));
    }
  }

  lemma DistinctPrepend(x: nat, s: seq<nat>)
    requires Distinct(s) && x !in s
    ensures Distinct([x] + s) && forall y :: y in [x] + s <==> y == x || y in s
  {}

  lemma DistinctAppend(s: seq<nat>, l: nat)
    requires Distinct(s) && l !in s
    ensures Distinct(s + [l])
  {}

  lemma DistinctTail(s: seq<nat>)
    requires Distinct(s) && s != []
    ensures Distinct(s[1..]) && s[0] !in s[1..] && forall x :: x in s <==> x == s[0] || x in s[1..]
  {
    assert s == [s[0]] + s[1..];
  }

  /** The list part of mark_page_invalid: a full line turns into a victim. */
  function Demote(g: Geo, f: Flash, r: Region, l: nat): Region
    requires l < |f.vpc|
  {
    if f.vpc[l] == g.PgsPerLine(l) then
      r.(full := Without(r.full, l), fullCnt := r.fullCnt - 1,
         victims := r.victims + {l}, victimCnt := r.victimCnt + 1)
    else r
  }

  /** The list part of advance_write_pointer when it has used up line l. */
  function Close(g: Geo, f: Flash, r: Region, l: nat): Region
    requires l < |f.vpc|
  {
    if f.vpc[l] == g.PgsPerLine(l) then r.(full := r.full + [l], fullCnt := r.fullCnt + 1)
    else r.(victims := r.victims + {l}, victimCnt := r.victimCnt + 1)
  }

  /** advance_write_pointer on one region: None when no free line is left to open. */
  function Advance(g: Geo, f: Flash, r: Region, c: Ppa): Option<(Region, Ppa)>
    requires g.Oneshot(c.blk) > 0 && c.pg < g.PgsPerBlk(c.blk) && c.blk < |f.vpc|
  {
    match NextInLine(g, c)
    case Same(next) => Some((r, next))
    case LineUsedUp =>
      var r1 := Close(g, f, r, c.blk);
      if r1.free == [] then None
      else Some((r1.(free := r1.free[1..], freeCnt := r1.freeCnt - 1), Ppa(0, 0, r1.free[0], 0)))
  }

  /** Taking line l out of the victims, or the first line out of the full list, to collect it. */
  function TakeVictim(r: Region, l: nat): Region {
    r.(victims := r.victims - {l}, victimCnt := r.victimCnt - 1)
  }

  function TakeFull(r: Region): Region
    requires r.full != []
  {
    r.(full := r.full[1..], fullCnt := r.fullCnt - 1)
  }

  /** The list part of mark_line_free. */
  function Release(r: Region, l: nat): Region {
    r.(free := r.free + [l], freeCnt := r.freeCnt + 1)
  }

  // ---------- What a region's lists need ----------

  /** Line facts read only the line's own counters and page states. */
  ghost predicate SameLine(f: Flash, f': Flash, l: nat) {
    && l < |f.vpc| == |f'.vpc| && l < |f.ipc| == |f'.ipc|
    && f'.vpc[l] == f.vpc[l] && f'.ipc[l] == f.ipc[l]
    && f'.status.Keys == f.status.Keys
    && forall p :: p in f.status && p.blk == l ==> f'.status[p] == f.status[p]
  }

  /** Changing only lines that are open or under collection keeps a region. */
  lemma RegionFrame(g: Geo, f: Flash, f': Flash, r: Region, lo: nat, hi: nat, open: nat, v: nat)
    requires |f.vpc| == |f.ipc| && hi <= |f.vpc| && |f'.vpc| == |f'.ipc| == |f.vpc|
    requires RegionOk(g, f, r, lo, hi, open, v)
    requires forall l :: lo <= l < hi && l != open && l != v ==> SameLine(f, f', l)
    ensures RegionOk(g, f', r, lo, hi, open, v)
  {
    forall l | l in r.free ensures FreeLine(g, f', l) {
      assert SameLine(f, f', l);
    }
    forall l | l in r.full ensures FullLine(g, f', l) {
      assert SameLine(f, f', l);
    }
    forall l | l in r.victims ensures VictimLine(g, f', l) {
      assert SameLine(f, f', l);
    }
  }

  lemma CursorFrame(g: Geo, f: Flash, f': Flash, c: Ppa)
    requires g.WellFormed() && c.blk < |f.vpc| == |f.ipc|
    requires CursorOk(g, f, c) && SameLine(f, f', c.blk)
    ensures CursorOk(g, f', c)
  {}

  // ---------- Writing at the cursor ----------

  /** The open line after its page c is programmed and before the cursor moves on. */
  ghost predicate CursorWritten(g: Geo, f: Flash, c: Ppa)
    requires g.WellFormed() && c.blk < |f.vpc| == |f.ipc|
  {
    && g.ValidPpa(c)
    && f.vpc[c.blk] + f.ipc[c.blk] == g.Rank(c) + 1
    && (forall p :: p in f.status && p.blk == c.blk ==> (g.Rank(p) <= g.Rank(c) <==> f.status[p] != PgFree))
  }

  /** The cursor stands on a free page, and programming it leaves the other lines alone. */
  lemma WriteAtCursor(g: Geo, m: Mapping, f: Flash, c: Ppa)
    requires Domains(g, m, f) && g.ValidPpa(c) && CursorOk(g, f, c)
    ensures c in f.status && f.status[c] == PgFree
    ensures CursorWritten(g, SetValid(f, c), c)
    ensures forall l :: 0 <= l < g.Lines() && l != c.blk ==> SameLine(f, SetValid(f, c), l)
  {
    var f' := SetValid(f, c);
    forall p | p in f'.status && p.blk == c.blk
      ensures g.Rank(p) <= g.Rank(c) <==> f'.status[p] != PgFree
    {
      if g.Rank(p) == g.Rank(c) { RankInjective(g, p, c); }
    }
  }

  /** Moving the cursor on keeps the region, closing and opening lines as needed. */
  lemma AdvanceOk(g: Geo, m: Mapping, f: Flash, r: Region, lo: nat, hi: nat, c: Ppa, v: nat)
    requires Domains(g, m, f) && lo < hi <= g.Lines()
    requires RegionOk(g, f, r, lo, hi, c.blk, v) && CursorWritten(g, f, c)
    requires f.ipc[c.blk] >= 0
    requires Advance(g, f, r, c).Some?
    ensures var (r', c') := Advance(g, f, r, c).value;
            c'.blk < g.Lines() && RegionOk(g, f, r', lo, hi, c'.blk, v) && CursorOk(g, f, c')
  {
    NextInLineRank(g, c);
    match NextInLine(g, c) {
      case Same(next) =>
      case LineUsedUp =>
        CloseOk(g, m, f, r, lo, hi, c, v);
        OpenOk(g, m, f, Close(g, f, r, c.blk), lo, hi, v);
    }
  }

  /** A region without an open line: all of [lo, hi) except v is on some list. */
  ghost predicate Closed(g: Geo, f: Flash, r: Region, lo: nat, hi: nat, v: nat)
    requires |f.vpc| == |f.ipc| && hi <= |f.vpc|
  {
    ListsOk(g, f, r, lo, hi, v, v)
  }

  lemma CloseOk(g: Geo, m: Mapping, f: Flash, r: Region, lo: nat, hi: nat, c: Ppa, v: nat)
    requires Domains(g, m, f) && lo < hi <= g.Lines()
    requires RegionOk(g, f, r, lo, hi, c.blk, v) && CursorWritten(g, f, c)
    requires g.Rank(c) + 1 == g.PgsPerLine(c.blk) && f.ipc[c.blk] >= 0
    ensures Closed(g, f, Close(g, f, r, c.blk), lo, hi, v)
  {
    var l := c.blk;
    forall p | p in f.status && p.blk == l ensures f.status[p] != PgFree {
      RankRoundTrip(g, p);
    }
    if f.vpc[l] == g.PgsPerLine(l) {
      DistinctAppend(r.full, l);
    }
  }

  lemma OpenOk(g: Geo, m: Mapping, f: Flash, r: Region, lo: nat, hi: nat, v: nat)
    requires Domains(g, m, f) && lo < hi <= g.Lines()
    requires Closed(g, f, r, lo, hi, v) && r.free != []
    ensures var l := r.free[0];
            && l < g.Lines()
            && RegionOk(g, f, r.(free := r.free[1..], freeCnt := r.freeCnt - 1), lo, hi, l, v)
            && CursorOk(g, f, Ppa(0, 0, l, 0))
  {
    var l := r.free[0];
    DistinctTail(r.free);
    assert l in r.free;
    PositiveSizes(g);
    var c := Ppa(0, 0, l, 0);
    RankZero(g, c);
  }

  lemma RankZero(g: Geo, c: Ppa)
    requires g.WellFormed() && c.blk < g.Lines() && c.ch == c.lun == c.pg == 0
    ensures g.Rank(c) == 0 && g.ValidPpa(c)
  {
    PositiveSizes(g);
  }

  // ---------- Invalidating a page ----------

  /** Invalidating a page touches no line but its own. */
  lemma InvalidatesOneLine(g: Geo, m: Mapping, f: Flash, p: Ppa, l: nat)
    requires Domains(g, m, f) && p in f.status && l < g.Lines() && l != p.blk
    ensures SameLine(f, SetInvalid(f, p), l)
  {}

  /** A line with a valid page is not free, and it is full only with every page valid. */
  lemma LineWithValidPage(g: Geo, m: Mapping, f: Flash, r: Region, lo: nat, hi: nat, open: nat, p: Ppa)
    requires Domains(g, m, f) && CountsOk(g, f, NoLine(g)) && hi <= g.Lines()
    requires p in f.status && f.status[p] == PgValid
    requires RegionOk(g, f, r, lo, hi, open, NoLine(g)) && lo <= p.blk < hi
    requires f.vpc[open] != g.PgsPerLine(open)
    ensures p.blk !in r.free && f.vpc[p.blk] > 0
    ensures f.vpc[p.blk] == g.PgsPerLine(p.blk) <==> p.blk in r.full
    ensures p.blk in r.full || p.blk in r.victims || p.blk == open
  {
    assert p in InLine(f.status, p.blk, PgValid);
  }

  /** Invalidating a valid page keeps its region, with Demote on the lists. */
  lemma DemoteOk(g: Geo, m: Mapping, f: Flash, r: Region, lo: nat, hi: nat, open: nat, p: Ppa)
    requires Domains(g, m, f) && CountsOk(g, f, NoLine(g)) && lo < hi <= g.Lines()
    requires p in f.status && f.status[p] == PgValid
    requires RegionOk(g, f, r, lo, hi, open, NoLine(g)) && lo <= p.blk < hi
    requires f.vpc[open] != g.PgsPerLine(open)
    ensures RegionOk(g, SetInvalid(f, p), Demote(g, f, r, p.blk), lo, hi, open, NoLine(g))
  {
    LineWithValidPage(g, m, f, r, lo, hi, open, p);
    forall l | lo <= l < hi && l != p.blk ensures SameLine(f, SetInvalid(f, p), l) {
      InvalidatesOneLine(g, m, f, p, l);
    }
    if p.blk == open {
      RegionFrame(g, f, SetInvalid(f, p), r, lo, hi, open, NoLine(g));
    } else if p.blk in r.victims {
      RegionChange(g, f, SetInvalid(f, p), r, lo, hi, open, p.blk);
    } else {
      DemoteFullOk(g, m, f, r, lo, hi, open, p);
    }
  }

  /** Changing a victim line to another state of a victim line. */
  lemma RegionChange(g: Geo, f: Flash, f': Flash, r: Region, lo: nat, hi: nat, open: nat, l: nat)
    requires |f.vpc| == |f.ipc| && hi <= |f.vpc| && |f'.vpc| == |f'.ipc| == |f.vpc|
    requires RegionOk(g, f, r, lo, hi, open, NoLine(g)) && l in r.victims && VictimLine(g, f', l)
    requires forall k :: lo <= k < hi && k != l ==> SameLine(f, f', k)
    ensures RegionOk(g, f', r, lo, hi, open, NoLine(g))
  {
    forall k | k in r.free ensures FreeLine(g, f', k) { assert SameLine(f, f', k); }
    forall k | k in r.full ensures FullLine(g, f', k) { assert SameLine(f, f', k); }
    forall k | k in r.victims && k != l ensures VictimLine(g, f', k) { assert SameLine(f, f', k); }
  }

  lemma DemoteFullOk(g: Geo, m: Mapping, f: Flash, r: Region, lo: nat, hi: nat, open: nat, p: Ppa)
    requires Domains(g, m, f) && lo < hi <= g.Lines()
    requires p in f.status && f.status[p] == PgValid
    requires RegionOk(g, f, r, lo, hi, open, NoLine(g)) && p.blk in r.full
    requires forall l :: lo <= l < hi && l != p.blk ==> SameLine(f, SetInvalid(f, p), l)
    ensures RegionOk(g, SetInvalid(f, p), Demote(g, f, r, p.blk), lo, hi, open, NoLine(g))
  {
    var l, f' := p.blk, SetInvalid(f, p);
    WithoutIs(r.full, l);
    assert VictimLine(g, f', l);
    forall k | k in r.free ensures FreeLine(g, f', k) { assert SameLine(f, f', k); }
    forall k | k in r.full && k != l ensures FullLine(g, f', k) { assert SameLine(f, f', k); }
    forall k | k in r.victims ensures VictimLine(g, f', k) { assert SameLine(f, f', k); }
  }

  lemma CursorInvalid(g: Geo, f: Flash, c: Ppa, p: Ppa)
    requires g.WellFormed() && c.blk < |f.vpc| == |f.ipc| && p.blk < |f.vpc|
    requires BlockOf(p) in f.blkVpc && BlockOf(p) in f.blkIpc
    requires p in f.status && f.status[p] == PgValid && CursorOk(g, f, c)
    ensures CursorOk(g, SetInvalid(f, p), c)
  {}

  // ---------- Collecting a line ----------

  lemma TakeVictimOk(g: Geo, f: Flash, r: Region, lo: nat, hi: nat, open: nat, l: nat)
    requires |f.vpc| == |f.ipc| && hi <= |f.vpc| && hi <= NoLine(g)
    requires RegionOk(g, f, r, lo, hi, open, NoLine(g)) && l in r.victims
    ensures RegionOk(g, f, TakeVictim(r, l), lo, hi, open, l)
  {}

  lemma TakeFullOk(g: Geo, f: Flash, r: Region, lo: nat, hi: nat, open: nat)
    requires |f.vpc| == |f.ipc| && hi <= |f.vpc| && hi <= NoLine(g)
    requires RegionOk(g, f, r, lo, hi, open, NoLine(g)) && r.full != []
    ensures RegionOk(g, f, TakeFull(r), lo, hi, open, r.full[0])
  {
    DistinctTail(r.full);
  }

  /** A region that does not hold the line under collection does not see it. */
  lemma OtherRegionTake(g: Geo, f: Flash, r: Region, lo: nat, hi: nat, open: nat, v: nat, v': nat)
    requires |f.vpc| == |f.ipc| && hi <= |f.vpc|
    requires RegionOk(g, f, r, lo, hi, open, v) && !(lo <= v < hi) && !(lo <= v' < hi)
    ensures RegionOk(g, f, r, lo, hi, open, v')
  {}

  lemma ReleaseOk(g: Geo, f: Flash, r: Region, lo: nat, hi: nat, open: nat, v: nat)
    requires |f.vpc| == |f.ipc| && hi <= |f.vpc| && hi <= NoLine(g)
    requires RegionOk(g, f, r, lo, hi, open, v) && lo <= v < hi
    requires AllFree(f.status, v)
    ensures RegionOk(g, ResetLine(f, v), Release(r, v), lo, hi, open, NoLine(g))
  {
    var f' := ResetLine(f, v);
    DistinctAppend(r.free, v);
    forall k | lo <= k < hi && k != v ensures SameLine(f, f', k) {}
    forall k | k in r.free ensures FreeLine(g, f', k) { assert SameLine(f, f', k); }
    forall k | k in r.full ensures FullLine(g, f', k) { assert SameLine(f, f', k); }
    forall k | k in r.victims ensures VictimLine(g, f', k) { assert SameLine(f, f', k); }
  }
}
