/** Collecting a line: garbage collection of a TLC victim and migration of an SLC victim copy
    every valid page of the line to the TLC write pointer, then erase the line's blocks. */
module FtlGc {
  import opened Wrappers
  import opened Geometry
  import opened FtlState
  import opened FtlSteps
  import opened FtlOps

  /** Pages that can still be programmed in the TLC region without erasing a line. */
  function TlcSpace(g: Geo, s: State): int
    requires g.Oneshot(s.gcWp.blk) > 0
  {
    |s.lm.free| * g.PgsPerLine(g.slcLines) + g.PgsPerLine(g.slcLines) - g.Rank(s.gcWp)
  }

  // ---------- Progress of a collection ----------

  /** The pages of `done` that held data when the collection began. */
  ghost function Moved(st0: map<Ppa, PageStatus>, done: set<Ppa>): set<Ppa> {
    set p | p in done && p in st0 && st0[p] == PgValid
  }

  /** An LPN whose page changed had a page of line v and has a TLC page of another line. */
  ghost predicate MovedOutOf(g: Geo, m0: Mapping, m: Mapping, v: nat) {
    && |m.maptbl| == |m0.maptbl|
    && forall n :: 0 <= n < |m0.maptbl| && m.maptbl[n] != m0.maptbl[n] ==>
         && m0.maptbl[n].Some? && m0.maptbl[n].value.blk == v
         && m.maptbl[n].Some? && !g.IsSlc(m.maptbl[n].value.blk) && m.maptbl[n].value.blk != v
  }

  /** Pages of line v are as they were, except that pages dealt with may have been erased. */
  ghost predicate VictimPages(st0: map<Ppa, PageStatus>, st: map<Ppa, PageStatus>, v: nat, done: set<Ppa>) {
    && st.Keys == st0.Keys
    && (forall p :: p in done ==> p in st0 && p.blk == v)
    && forall p :: p in st0 && p.blk == v ==>
         st0[p] != PgFree && (st[p] == st0[p] || (p in done && st[p] == PgFree))
  }

  /** The list rest is the list free with some lines taken from its front. */
  predicate TakenFrom(free: seq<nat>, rest: seq<nat>) {
    |rest| <= |free| && rest == free[|free| - |rest|..]
  }

  /** s is reached from s0 while collecting line v, with the pages in `done` dealt with. */
  ghost predicate Collecting(g: Geo, s0: State, s: State, v: nat, done: set<Ppa>) {
    && Inv(g, s0, v, {}) && Inv(g, s, v, done) && v < g.Lines()
    && SameView(s0.m, s.m) && MovedOutOf(g, s0.m, s.m, v)
    && VictimPages(s0.f.status, s.f.status, v, done)
    && TlcSpace(g, s) == TlcSpace(g, s0) - |Moved(s0.f.status, done)|
    && s.wp == s0.wp && s.slm == s0.slm && TakenFrom(s0.lm.free, s.lm.free)
    && s.writeCredits == s0.writeCredits && s.creditsToRefill == s0.creditsToRefill
  }

  // ---------- Copying one page ----------

  /** gc_write_page: the LPN that rmap names moves to the next TLC page. */
  function CopyPage(g: Geo, s: State, p: Ppa): Option<State>
    requires Sized(g, s) && g.Idx(p) < |s.m.rmap| && s.m.rmap[g.Idx(p)].Some? && p in s.m.data
    requires s.m.rmap[g.Idx(p)].value < |s.m.maptbl|
  {
    AdvanceWp(g, Program(g, s, s.m.rmap[g.Idx(p)].value, false, s.m.data[p]), false)
  }

  /** A valid page not yet dealt with can be copied. */
  lemma CopyDefined(g: Geo, s: State, v: nat, done: set<Ppa>, p: Ppa)
    requires Inv(g, s, v, done) && p in s.f.status && s.f.status[p] == PgValid && p !in done
    ensures Sized(g, s) && g.Idx(p) < |s.m.rmap| && s.m.rmap[g.Idx(p)].Some? && p in s.m.data
    ensures s.m.rmap[g.Idx(p)].value < |s.m.maptbl| && s.m.maptbl[s.m.rmap[g.Idx(p)].value] == Some(p)
  {
    CursorsSized(g, s, v, done);
    hide RegionOk, CountsOk, CursorOk, Geo.WellFormed, Geo.ValidPpa;
    var n := s.m.rmap[g.Idx(p)].value;
    assert s.m.maptbl[n] == Some(p);
  }

  /** What moving the TLC cursor on does to the lists, and to the space left. */
  lemma AdvanceTlc(g: Geo, s: State)
    requires Sized(g, s) && !g.IsSlc(s.gcWp.blk)
    requires forall l :: l in s.lm.free ==> g.slcLines <= l < g.Lines()
    ensures AdvanceWp(g, s, false).None? <==> TlcSpace(g, s) == 1
    ensures AdvanceWp(g, s, false).Some? ==>
      var s' := AdvanceWp(g, s, false).value;
      && s' == s.(lm := s'.lm, gcWp := s'.gcWp)
      && g.Oneshot(s'.gcWp.blk) > 0 && TlcSpace(g, s') == TlcSpace(g, s) - 1
      && (s'.lm.free == s.lm.free || (s.lm.free != [] && s'.lm.free == s.lm.free[1..]))
  {
    assert g.ValidPpa(s.gcWp);
    RankRoundTrip(g, s.gcWp);
    NextInLineRank(g, s.gcWp);
    AdvanceFails(g, s, false);
    assert g.PgsPerLine(s.gcWp.blk) == g.PgsPerLine(g.slcLines);
    SpaceLeft(|s.lm.free|, g.PgsPerLine(g.slcLines), g.Rank(s.gcWp));
    if NextInLine(g, s.gcWp).LineUsedUp? && s.lm.free != [] {
      assert s.lm.free[0] in s.lm.free;
      RankZero(g, Ppa(0, 0, s.lm.free[0], 0));
      OneLineLess(|s.lm.free|, g.PgsPerLine(g.slcLines));
    }
  }

  lemma SpaceLeft(free: nat, ppl: nat, rank: nat)
    requires rank < ppl
    ensures free * ppl + ppl - rank == 1 <==> free == 0 && rank + 1 == ppl
  {
    if free > 0 { assert free * ppl >= ppl; }
  }

  lemma OneLineLess(free: nat, ppl: nat)
    requires free > 0
    ensures (free - 1) * ppl + ppl == free * ppl
  {}

  lemma MovedOne(st0: map<Ppa, PageStatus>, done: set<Ppa>, p: Ppa)
    requires p in st0 && p !in done
    ensures st0[p] == PgValid ==> |Moved(st0, done + {p})| == |Moved(st0, done)| + 1
    ensures st0[p] != PgValid ==> Moved(st0, done + {p}) == Moved(st0, done)
  {
    if st0[p] == PgValid {
      assert Moved(st0, done + {p}) == Moved(st0, done) + {p};
    } else {
      assert Moved(st0, done + {p}) == Moved(st0, done);
    }
  }

  lemma CollectingInv(g: Geo, s0: State, s: State, v: nat, done: set<Ppa>)
    requires Collecting(g, s0, s, v, done)
    ensures Inv(g, s, v, done) && Sized(g, s) && forall q :: q in done ==> q.blk == v
  {
    CursorsSized(g, s, v, done);
    hide Inv, MovedOutOf, SameView, TlcSpace, Moved;
  }

  /** What a collection in progress says about one of its valid pages. */
  lemma ToCopy(g: Geo, s0: State, s: State, v: nat, done: set<Ppa>, p: Ppa)
    requires Collecting(g, s0, s, v, done)
    requires p in s.f.status && p.blk == v && s.f.status[p] == PgValid && p !in done
    ensures Sized(g, s) && p in s.m.data && !g.IsSlc(s.gcWp.blk) && s.gcWp.blk != v && NamedLpn(g, s, p) < |s.m.maptbl|
    ensures s.m.maptbl[NamedLpn(g, s, p)] == Some(p)
    ensures p in s0.f.status && s0.f.status[p] == PgValid
    ensures forall q :: q in done ==> q.blk == v
  {
    hide Inv, MovedOutOf, SameView, TlcSpace, Moved;
    CopyDefined(g, s, v, done, p);
    CursorsSized(g, s, v, done);
  }

  /** The LPN that rmap names for page p. */
  ghost function NamedLpn(g: Geo, s: State, p: Ppa): nat {
    if g.Idx(p) < |s.m.rmap| && s.m.rmap[g.Idx(p)].Some? then s.m.rmap[g.Idx(p)].value else |s.m.maptbl|
  }

  /** Copying a valid page keeps the progress, and fails exactly when one TLC page is left. */
  lemma CopyPageOk(g: Geo, s0: State, s: State, v: nat, done: set<Ppa>, p: Ppa)
    requires Collecting(g, s0, s, v, done)
    requires p in s.f.status && p.blk == v && s.f.status[p] == PgValid && p !in done
    ensures Sized(g, s) && g.Idx(p) < |s.m.rmap| && s.m.rmap[g.Idx(p)].Some? && p in s.m.data
    ensures s.m.rmap[g.Idx(p)].value < |s.m.maptbl|
    ensures CopyPage(g, s, p).None? <==> TlcSpace(g, s) == 1
    ensures CopyPage(g, s, p).Some? ==> Collecting(g, s0, CopyPage(g, s, p).value, v, done + {p})
  {
    hide Inv, MovedOutOf, VictimPages, SameView, Program, AdvanceWp, Domains, TlcSpace, Moved, TakenFrom,
      Geo.WellFormed, Geo.ValidPpa;
    ToCopy(g, s0, s, v, done, p);
    var n := s.m.rmap[g.Idx(p)].value;
    ProgramInvariant(g, s, v, done, n, p);
    CopyView(g, s0, s, v, done, n, p);
    ProgramVictim(g, s0, s, v, done, n, p);
    MovedOne(s0.f.status, done, p);
    FreeAreTlc(g, s, v, done);
    SameSpace(g, s, n, s.m.data[p]);
    var s1 := Program(g, s, n, false, s.m.data[p]);
    AdvanceTlc(g, s1);
    if AdvanceWp(g, s1, false).Some? { TakenOn(s0.lm.free, s.lm.free, AdvanceWp(g, s1, false).value.lm.free); }
  }

  lemma TakenOn(free: seq<nat>, rest: seq<nat>, rest': seq<nat>)
    requires TakenFrom(free, rest) && (rest' == rest || (rest != [] && rest' == rest[1..]))
    ensures TakenFrom(free, rest')
  {}

  lemma SameSpace(g: Geo, s: State, n: nat, x: int)
    requires Sized(g, s) && n < |s.m.maptbl|
    ensures var s1 := Program(g, s, n, false, x);
            && TlcSpace(g, s1) == TlcSpace(g, s) && s1.lm == s.lm && s1 == s.(m := s1.m, f := s1.f)
  {}

  lemma FreeAreTlc(g: Geo, s: State, v: nat, done: set<Ppa>)
    requires Inv(g, s, v, done)
    ensures forall l :: l in s.lm.free ==> g.slcLines <= l < g.Lines()
  {}

  /** The copied LPN's new page keeps the invariant, once the cursor has moved on. */
  lemma ProgramInvariant(g: Geo, s: State, v: nat, done: set<Ppa>, n: nat, p: Ppa)
    requires Inv(g, s, v, done) && Sized(g, s) && p in s.m.data
    requires n < |s.m.maptbl| && s.m.maptbl[n] == Some(p) && p.blk == v
    requires forall q :: q in done ==> q.blk == v
    ensures var s1 := Program(g, s, n, false, s.m.data[p]);
            AdvanceWp(g, s1, false).Some? ==> Inv(g, AdvanceWp(g, s1, false).value, v, done + {p})
  {
    ProgramOk(g, s, v, done, n, false, s.m.data[p], done + {p});
    AdvanceWpOk(g, Program(g, s, n, false, s.m.data[p]), v, done + {p}, false);
  }

  /** The copy is invisible to lookups, and moves only this LPN. */
  lemma CopyView(g: Geo, s0: State, s: State, v: nat, done: set<Ppa>, n: nat, p: Ppa)
    requires Inv(g, s, v, done) && Sized(g, s) && p in s.m.data
    requires n < |s.m.maptbl| && s.m.maptbl[n] == Some(p) && p.blk == v
    requires SameView(s0.m, s.m) && MovedOutOf(g, s0.m, s.m, v)
    ensures var s1 := Program(g, s, n, false, s.m.data[p]);
            SameView(s0.m, s1.m) && MovedOutOf(g, s0.m, s1.m, v)
  {
    CursorsSized(g, s, v, done);
    ProgramView(g, s, v, done, n, false, s.m.data[p]);
    hide Inv, Domains, SetValid, Geo.WellFormed, Geo.ValidPpa, Geo.Idx;
  }

  /** The copy leaves the victim's pages as they are. */
  lemma ProgramVictim(g: Geo, s0: State, s: State, v: nat, done: set<Ppa>, n: nat, p: Ppa)
    requires Inv(g, s, v, done) && Sized(g, s) && n < |s.m.maptbl| && p in s.m.data
    requires p.blk == v && p in s0.f.status && VictimPages(s0.f.status, s.f.status, v, done)
    ensures VictimPages(s0.f.status, Program(g, s, n, false, s.m.data[p]).f.status, v, done + {p})
  {
    hide Inv, Domains, Geo.WellFormed, Geo.ValidPpa, Geo.Idx;
    CursorsSized(g, s, v, done);
    CursorFree(g, s, v, done, false);
  }

  // ---------- Beginning, passing over pages, erasing, finishing ----------

  lemma BeginCollecting(g: Geo, s: State, v: nat)
    requires Inv(g, s, v, {}) && v < g.Lines() && NoneFree(s.f.status, v)
    ensures Collecting(g, s, s, v, {})
  {
    CursorsSized(g, s, v, {});
    assert Moved(s.f.status, {}) == {};
  }

  /** A page that holds no data needs no copy. */
  lemma PassOver(g: Geo, s0: State, s: State, v: nat, done: set<Ppa>, p: Ppa)
    requires Collecting(g, s0, s, v, done)
    requires p in s.f.status && p.blk == v && s.f.status[p] != PgValid && p !in done
    ensures Collecting(g, s0, s, v, done + {p})
  {
    hide Inv, TlcSpace, Moved, MovedOutOf, SameView;
    PassOverInvariant(g, s, v, done, p);
    MovedOne(s0.f.status, done, p);
  }

  lemma PassOverInvariant(g: Geo, s: State, v: nat, done: set<Ppa>, p: Ppa)
    requires Inv(g, s, v, done) && p in s.f.status && s.f.status[p] != PgValid
    ensures Inv(g, s, v, done + {p})
  {
    hide RegionOk, CountsOk, CursorOk, Domains, Geo.Idx;
  }

  /** Erasing a block whose pages have all been dealt with. */
  lemma EraseOk(g: Geo, s0: State, s: State, v: nat, done: set<Ppa>, b: Block)
    requires Collecting(g, s0, s, v, done) && ValidBlock(g, b) && b.blk == v
    requires forall p :: p in s.f.status && BlockOf(p) == b ==> p in done
    ensures Collecting(g, s0, s.(f := EraseBlock(s.f, b)), v, done)
  {
    hide Inv, TlcSpace, Moved, MovedOutOf, SameView, EraseBlock, VictimPages;
    EraseInvariant(g, s, v, done, b);
    EraseVictim(s0.f.status, s.f, v, done, b);
    CursorsSized(g, s, v, done);
    EraseSpace(g, s, b);
  }

  lemma EraseVictim(st0: map<Ppa, PageStatus>, f: Flash, v: nat, done: set<Ppa>, b: Block)
    requires VictimPages(st0, f.status, v, done) && b.blk == v
    requires forall p :: p in f.status && BlockOf(p) == b ==> p in done
    ensures VictimPages(st0, EraseBlock(f, b).status, v, done)
  {}

  lemma EraseSpace(g: Geo, s: State, b: Block)
    requires Sized(g, s)
    ensures TlcSpace(g, s.(f := EraseBlock(s.f, b))) == TlcSpace(g, s)
  {}

  lemma EraseInvariant(g: Geo, s: State, v: nat, done: set<Ppa>, b: Block)
    requires Inv(g, s, v, done) && ValidBlock(g, b) && b.blk == v
    requires forall p :: p in s.f.status && BlockOf(p) == b ==> p in done
    ensures Inv(g, s.(f := EraseBlock(s.f, b)), v, done)
  {
    CursorsSized(g, s, v, done);
    var f' := EraseBlock(s.f, b);
    EraseMap(g, s, v, done, b);
    hide MapOk, RegionOk, CountsOk, CursorOk, SameLine, Geo.WellFormed, Geo.ValidPpa, Geo.Idx;
    EraseCounts(g, s.m, s.f, b);
    forall l | 0 <= l < g.Lines() && l != v ensures SameLine(s.f, f', l) { ErasesOneLine(g, s.m, s.f, b, l); }
    RegionFrame(g, s.f, f', s.slm, 0, g.slcLines, s.wp.blk, v);
    RegionFrame(g, s.f, f', s.lm, g.slcLines, g.Lines(), s.gcWp.blk, v);
    CursorFrame(g, s.f, f', s.wp);
    CursorFrame(g, s.f, f', s.gcWp);
  }

  lemma EraseMap(g: Geo, s: State, v: nat, done: set<Ppa>, b: Block)
    requires Inv(g, s, v, done)
    requires forall p :: p in s.f.status && BlockOf(p) == b ==> p in done
    ensures MapOk(g, s.m, EraseBlock(s.f, b).status, done)
  {
    hide RegionOk, CountsOk, CursorOk, Domains, Geo.Idx;
  }

  lemma ErasesOneLine(g: Geo, m: Mapping, f: Flash, b: Block, l: nat)
    requires Domains(g, m, f) && l < g.Lines() && l != b.blk
    ensures SameLine(f, EraseBlock(f, b), l)
  {}

  /** mark_line_free. */
  function FinishLine(g: Geo, s: State, v: nat): State
    requires v < |s.f.vpc| && v < |s.f.ipc|
  {
    var s1 := s.(f := ResetLine(s.f, v));
    if g.IsSlc(v) then s1.(slm := Release(s.slm, v)) else s1.(lm := Release(s.lm, v))
  }

  lemma FinishOk(g: Geo, s: State, v: nat, done: set<Ppa>)
    requires Inv(g, s, v, done) && v < g.Lines() && AllFree(s.f.status, v)
    requires forall p :: p in done ==> p.blk == v
    ensures Quiescent(g, FinishLine(g, s, v))
  {
    CursorsSized(g, s, v, done);
    var f' := ResetLine(s.f, v);
    NothingLeft(g, s, v, done);
    hide MapOk, RegionOk, CountsOk, CursorOk, AllFree, SameLine, Geo.WellFormed, Geo.ValidPpa, Geo.Idx;
    ResetCounts(g, s.m, s.f, v);
    forall l | 0 <= l < g.Lines() && l != v ensures SameLine(s.f, f', l) { ResetsOneLine(g, s.m, s.f, v, l); }
    CursorFrame(g, s.f, f', s.wp);
    CursorFrame(g, s.f, f', s.gcWp);
    if g.IsSlc(v) {
      ReleaseOk(g, s.f, s.slm, 0, g.slcLines, s.wp.blk, v);
      OtherRegionTake(g, s.f, s.lm, g.slcLines, g.Lines(), s.gcWp.blk, v, NoLine(g));
      RegionFrame(g, s.f, f', s.lm, g.slcLines, g.Lines(), s.gcWp.blk, NoLine(g));
    } else {
      ReleaseOk(g, s.f, s.lm, g.slcLines, g.Lines(), s.gcWp.blk, v);
      OtherRegionTake(g, s.f, s.slm, 0, g.slcLines, s.wp.blk, v, NoLine(g));
      RegionFrame(g, s.f, f', s.slm, 0, g.slcLines, s.wp.blk, NoLine(g));
    }
  }

  lemma ResetsOneLine(g: Geo, m: Mapping, f: Flash, v: nat, l: nat)
    requires Domains(g, m, f) && v < g.Lines() && l < g.Lines() && l != v
    ensures SameLine(f, ResetLine(f, v), l)
  {}

  /** With the whole victim erased, the mapping needs no exception. */
  lemma NothingLeft(g: Geo, s: State, v: nat, done: set<Ppa>)
    requires Inv(g, s, v, done) && AllFree(s.f.status, v) && forall p :: p in done ==> p.blk == v
    ensures MapOk(g, s.m, s.f.status, {})
  {
    hide RegionOk, CountsOk, CursorOk, Domains, Geo.Idx;
  }
}
