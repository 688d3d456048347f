/** Page writes on the whole state: a host write, and the copy of one page during collection. */
module FtlOps {
  import opened Wrappers
  import opened Geometry
  import opened FtlState
  import opened FtlSteps

  /** Preconditions under which the operations below are defined. */
  ghost predicate Sized(g: Geo, s: State) {
    Domains(g, s.m, s.f) && s.wp in s.f.status && s.gcWp in s.f.status
  }

  // ---------- Programming the next page of a region ----------

  /** Maps LPN n to the next page of the SLC or TLC region and programs it with x. */
  function Program(g: Geo, s: State, n: nat, slc: bool, x: int): (s': State)
    requires Sized(g, s) && n < |s.m.maptbl|
    ensures Sized(g, s')
  {
    var p := if slc then s.wp else s.gcWp;
    IdxRoundTrip(g, p);
    s.(m := PlaceMap(g, s.m, n, p, x), f := SetValid(s.f, p))
  }

  /** advance_write_pointer: None when the region has no line left to open. */
  function AdvanceWp(g: Geo, s: State, slc: bool): Option<State>
    requires Sized(g, s)
  {
    if slc then
      match Advance(g, s.f, s.slm, s.wp)
      case None => None
      case Some(a) => Some(s.(slm := a.0, wp := a.1))
    else
      match Advance(g, s.f, s.lm, s.gcWp)
      case None => None
      case Some(a) => Some(s.(lm := a.0, gcWp := a.1))
  }

  /** The invariant after the page under a cursor is programmed, before the cursor moves. */
  ghost predicate Programmed(g: Geo, s: State, v: nat, done: set<Ppa>, slc: bool) {
    && Domains(g, s.m, s.f)
    && MapOk(g, s.m, s.f.status, done)
    && CountsOk(g, s.f, v)
    && RegionOk(g, s.f, s.slm, 0, g.slcLines, s.wp.blk, v)
    && RegionOk(g, s.f, s.lm, g.slcLines, g.Lines(), s.gcWp.blk, v)
    && (if slc then CursorWritten(g, s.f, s.wp) && CursorOk(g, s.f, s.gcWp)
        else CursorOk(g, s.f, s.wp) && CursorWritten(g, s.f, s.gcWp))
  }

  lemma CursorsSized(g: Geo, s: State, v: nat, done: set<Ppa>)
    requires Inv(g, s, v, done)
    ensures Sized(g, s)
    ensures s.wp.blk < g.slcLines <= s.gcWp.blk < g.Lines() && s.wp.blk != v && s.gcWp.blk != v
  {}

  /** Programming the next page for LPN n; done' adds the page n had before. */
  lemma ProgramOk(g: Geo, s: State, v: nat, done: set<Ppa>, n: nat, slc: bool, x: int, done': set<Ppa>)
    requires Inv(g, s, v, done) && n < |s.m.maptbl|
    requires done' == if s.m.maptbl[n].Some? then done + {s.m.maptbl[n].value} else done
    requires forall p :: p in done' ==> p.blk == v
    ensures Sized(g, s) && Programmed(g, Program(g, s, n, slc, x), v, done', slc)
  {
    hide MapOk, CountsOk, RegionOk, SameLine, PlaceMap, SetValid;
    CursorsSized(g, s, v, done);
    var c := if slc then s.wp else s.gcWp;
    var s' := Program(g, s, n, slc, x);
    WriteAtCursor(g, s.m, s.f, c);
    PlaceMapOk(g, s.m, s.f, done, n, c, x, done');
    SetValidCounts(g, s.m, s.f, v, c);
    RegionFrame(g, s.f, s'.f, s.slm, 0, g.slcLines, s.wp.blk, v);
    RegionFrame(g, s.f, s'.f, s.lm, g.slcLines, g.Lines(), s.gcWp.blk, v);
    CursorFrame(g, s.f, s'.f, if slc then s.gcWp else s.wp);
  }

  lemma AdvanceWpOk(g: Geo, s: State, v: nat, done: set<Ppa>, slc: bool)
    requires Programmed(g, s, v, done, slc)
    ensures Sized(g, s)
    ensures AdvanceWp(g, s, slc).Some? ==> Inv(g, AdvanceWp(g, s, slc).value, v, done)
  {
    if slc && AdvanceWp(g, s, slc).Some? {
      AdvanceOk(g, s.m, s.f, s.slm, 0, g.slcLines, s.wp, v);
    } else if AdvanceWp(g, s, slc).Some? {
      AdvanceOk(g, s.m, s.f, s.lm, g.slcLines, g.Lines(), s.gcWp, v);
    }
  }

  lemma CursorIndex(g: Geo, s: State)
    requires Sized(g, s)
    ensures g.Idx(s.wp) < |s.m.rmap| && g.Idx(s.gcWp) < |s.m.rmap|
  {
    IdxRoundTrip(g, s.wp);
    IdxRoundTrip(g, s.gcWp);
  }

  /** The cursor cannot move on exactly when it has used up its line and none is free. */
  lemma AdvanceFails(g: Geo, s: State, slc: bool)
    requires Sized(g, s)
    ensures AdvanceWp(g, s, slc).None? <==>
              NextInLine(g, if slc then s.wp else s.gcWp).LineUsedUp? && (if slc then s.slm else s.lm).free == []
  {
    hide NextInLine, Domains, Geo.WellFormed, Geo.PgsPerLine;
  }

  // ---------- A host write ----------

  /** mark_page_invalid. */
  function MarkInvalid(g: Geo, s: State, p: Ppa): (s': State)
    requires Sized(g, s) && p in s.f.status
    ensures Sized(g, s') && s'.m == s.m
  {
    var s1 := s.(f := SetInvalid(s.f, p));
    if g.IsSlc(p.blk) then s1.(slm := Demote(g, s.f, s.slm, p.blk))
    else s1.(lm := Demote(g, s.f, s.lm, p.blk))
  }

  /** Gives up the page LPN n had, if it had one. */
  function Forget(g: Geo, s: State, n: nat): (s': State)
    requires Sized(g, s) && n < |s.m.maptbl|
    requires s.m.maptbl[n].Some? ==> s.m.maptbl[n].value in s.f.status
    ensures Sized(g, s') && s'.m.data == s.m.data && s'.m.maptbl == s.m.maptbl[n := None]
  {
    match s.m.maptbl[n]
    case None => s
    case Some(p) =>
      IdxRoundTrip(g, p);
      MarkInvalid(g, s, p).(m := DropMap(g, s.m, n, p))
  }

  /** Giving up a page moves no cursor and changes no free list. */
  lemma ForgetKeeps(g: Geo, s: State, n: nat)
    requires Sized(g, s) && n < |s.m.maptbl|
    requires s.m.maptbl[n].Some? ==> s.m.maptbl[n].value in s.f.status
    ensures var s' := Forget(g, s, n);
            && s'.slm.free == s.slm.free && s'.lm.free == s.lm.free
            && s' == s.(m := s'.m, f := s'.f, slm := s'.slm, lm := s'.lm)
  {
    hide Domains, Geo.WellFormed, Geo.PgsPerLine, Geo.ValidPpa, Geo.Idx, SetInvalid;
  }

  lemma ForgetOk(g: Geo, s: State, n: nat)
    requires Quiescent(g, s) && n < |s.m.maptbl|
    ensures Sized(g, s) && (s.m.maptbl[n].Some? ==> s.m.maptbl[n].value in s.f.status)
    ensures Quiescent(g, Forget(g, s, n))
  {
    CursorsSized(g, s, NoLine(g), {});
    if s.m.maptbl[n].Some? {
      MarkInvalidOk(g, s, n, s.m.maptbl[n].value);
    }
  }

  lemma MarkInvalidOk(g: Geo, s: State, n: nat, p: Ppa)
    requires Quiescent(g, s) && n < |s.m.maptbl| && s.m.maptbl[n] == Some(p)
    ensures Sized(g, s) && p in s.f.status && g.Idx(p) < |s.m.rmap|
    ensures Quiescent(g, MarkInvalid(g, s, p).(m := DropMap(g, s.m, n, p)))
  {
    CursorsSized(g, s, NoLine(g), {});
    assert p in s.f.status && s.f.status[p] == PgValid && p.blk < g.Lines();
    hide Domains, MapOk, CountsOk, RegionOk, CursorOk, DropMap, SetInvalid, Demote, Geo.WellFormed, Geo.PgsPerLine,
      Geo.ValidPpa, Geo.Idx;
    DropMapOk(g, s.m, s.f, n, p);
    SetInvalidCounts(g, s.m, s.f, NoLine(g), p);
    DomainsMapping(g, s.m, DropMap(g, s.m, n, p), SetInvalid(s.f, p));
    CursorInvalid(g, s.f, s.wp, p);
    CursorInvalid(g, s.f, s.gcWp, p);
    if g.IsSlc(p.blk) {
      InvalidateRegions(g, s, s.slm, 0, g.slcLines, s.wp, s.lm, g.slcLines, g.Lines(), s.gcWp, p);
    } else {
      InvalidateRegions(g, s, s.lm, g.slcLines, g.Lines(), s.gcWp, s.slm, 0, g.slcLines, s.wp, p);
    }
  }

  /** Invalidating page p of region r keeps r, and the other region o. */
  lemma InvalidateRegions(g: Geo, s: State, r: Region, lo: nat, hi: nat, c: Ppa, o: Region, lo': nat, hi': nat,
      c': Ppa, p: Ppa)
    requires Domains(g, s.m, s.f) && CountsOk(g, s.f, NoLine(g))
    requires p in s.f.status && s.f.status[p] == PgValid && lo <= p.blk < hi <= g.Lines()
    requires hi' <= g.Lines() && !(lo' <= p.blk < hi') && c.blk < g.Lines()
    requires RegionOk(g, s.f, r, lo, hi, c.blk, NoLine(g)) && CursorOk(g, s.f, c)
    requires RegionOk(g, s.f, o, lo', hi', c'.blk, NoLine(g))
    ensures |SetInvalid(s.f, p).vpc| == |SetInvalid(s.f, p).ipc| == g.Lines()
    ensures RegionOk(g, SetInvalid(s.f, p), Demote(g, s.f, r, p.blk), lo, hi, c.blk, NoLine(g))
    ensures RegionOk(g, SetInvalid(s.f, p), o, lo', hi', c'.blk, NoLine(g))
  {
    assert ValidBlock(g, BlockOf(p));
    hide CountsOk, RegionOk, CursorOk, SameLine, Demote, ValidBlock, Geo.WellFormed, Geo.PgsPerLine;
    OpenNotFull(g, s.m, s.f, c);
    forall l | 0 <= l < g.Lines() && l != p.blk ensures SameLine(s.f, SetInvalid(s.f, p), l) {
      InvalidatesOneLine(g, s.m, s.f, p, l);
    }
    DemoteOk(g, s.m, s.f, r, lo, hi, c.blk, p);
    RegionFrame(g, s.f, SetInvalid(s.f, p), o, lo', hi', c'.blk, NoLine(g));
  }

  lemma OpenNotFull(g: Geo, m: Mapping, f: Flash, c: Ppa)
    requires Domains(g, m, f) && c.blk < g.Lines() && CursorOk(g, f, c) && CountsOk(g, f, NoLine(g))
    ensures f.vpc[c.blk] < g.PgsPerLine(c.blk)
  {
    RankRoundTrip(g, c);
  }

  /** One pass of the loop in conv_write, up to and including advance_write_pointer. */
  function HostWrite(g: Geo, s: State, n: nat, x: int): Option<State>
    requires Sized(g, s) && n < |s.m.maptbl|
    requires s.m.maptbl[n].Some? ==> s.m.maptbl[n].value in s.f.status
  {
    AdvanceWp(g, Program(g, Forget(g, s, n), n, true, x), true)
  }

  /** A host write keeps the invariant, and fails only when the SLC line it fills cannot be
      replaced because no SLC line is free. */
  lemma HostWriteOk(g: Geo, s: State, n: nat, x: int)
    requires Quiescent(g, s) && n < |s.m.maptbl|
    ensures Sized(g, s) && (s.m.maptbl[n].Some? ==> s.m.maptbl[n].value in s.f.status)
    ensures HostWrite(g, s, n, x).Some? ==> Quiescent(g, HostWrite(g, s, n, x).value)
    ensures HostWrite(g, s, n, x).None? <==> NextInLine(g, s.wp).LineUsedUp? && s.slm.free == []
  {
    hide Inv, AdvanceWp, NextInLine, Domains, Geo.WellFormed, Geo.PgsPerLine, Geo.ValidPpa, Geo.Idx;
    ForgetOk(g, s, n);
    ForgetKeeps(g, s, n);
    var s1 := Forget(g, s, n);
    ProgramOk(g, s1, NoLine(g), {}, n, true, x, {});
    var s2 := Program(g, s1, n, true, x);
    AdvanceWpOk(g, s2, NoLine(g), {}, true);
    AdvanceFails(g, s2, true);
    assert s2.wp == s.wp && s2.slm.free == s.slm.free;
  }

  /** A host write changes what one LPN reads back. */
  lemma HostWriteView(g: Geo, s: State, n: nat, x: int)
    requires Quiescent(g, s) && n < |s.m.maptbl|
    ensures Sized(g, s) && (s.m.maptbl[n].Some? ==> s.m.maptbl[n].value in s.f.status)
    ensures HostWrite(g, s, n, x).Some? ==> Writes(s.m, HostWrite(g, s, n, x).value.m, n, x)
  {
    hide Inv, Forget, Program, AdvanceWp, NextInLine, Domains, Lookup, Geo.WellFormed, Geo.ValidPpa;
    ForgetOk(g, s, n);
    var s1 := Forget(g, s, n);
    ForgetView(g, s, n);
    ProgramView(g, s1, NoLine(g), {}, n, true, x);
    AdvanceLists(g, Program(g, s1, n, true, x));
  }

  lemma ForgetView(g: Geo, s: State, n: nat)
    requires Sized(g, s) && n < |s.m.maptbl| && (s.m.maptbl[n].Some? ==> s.m.maptbl[n].value in s.f.status)
    ensures forall k :: 0 <= k < |s.m.maptbl| && k != n ==> Lookup(Forget(g, s, n).m, k) == Lookup(s.m, k)
  {
    hide Domains, Geo.WellFormed, Geo.ValidPpa;
  }

  /** What moving the host cursor on does to the line lists. */
  lemma AdvanceLists(g: Geo, s: State)
    requires Sized(g, s)
    ensures AdvanceWp(g, s, true).Some? ==>
      var s' := AdvanceWp(g, s, true).value;
      && s' == s.(slm := s'.slm, wp := s'.wp)
      && (match NextInLine(g, s.wp)
          case Same(c) => s'.wp == c && s'.slm.free == s.slm.free
          case LineUsedUp =>
            && s.slm.free != [] && s'.wp == Ppa(0, 0, s.slm.free[0], 0) && s'.slm.free == s.slm.free[1..]
            && (s.wp.blk in s'.slm.full || s.wp.blk in s'.slm.victims))
  {
    hide NextInLine, Domains, Geo.WellFormed, Geo.PgsPerLine, Geo.ValidPpa;
  }

  /** What a host write does to the line lists. */
  lemma HostWriteLists(g: Geo, s: State, n: nat, x: int)
    requires Quiescent(g, s) && n < |s.m.maptbl|
    ensures Sized(g, s) && (s.m.maptbl[n].Some? ==> s.m.maptbl[n].value in s.f.status)
    ensures HostWrite(g, s, n, x).Some? ==>
      var s' := HostWrite(g, s, n, x).value;
      && s'.lm.free == s.lm.free && s'.gcWp == s.gcWp
      && s'.writeCredits == s.writeCredits && s'.creditsToRefill == s.creditsToRefill
      && (match NextInLine(g, s.wp)
          case Same(c) => s'.wp == c && s'.slm.free == s.slm.free
          case LineUsedUp =>
            && s.slm.free != [] && s'.wp == Ppa(0, 0, s.slm.free[0], 0) && s'.slm.free == s.slm.free[1..]
            && (s.wp.blk in s'.slm.full || s.wp.blk in s'.slm.victims))
  {
    hide Inv, Forget, AdvanceWp, NextInLine, Domains, Geo.WellFormed, Geo.PgsPerLine, Geo.ValidPpa, Geo.Idx;
    ForgetOk(g, s, n);
    ForgetKeeps(g, s, n);
    AdvanceLists(g, Program(g, Forget(g, s, n), n, true, x));
  }

  /** Programming changes what one LPN reads back. */
  lemma ProgramView(g: Geo, s: State, v: nat, done: set<Ppa>, n: nat, slc: bool, x: int)
    requires Inv(g, s, v, done) && n < |s.m.maptbl|
    ensures Sized(g, s) && Writes(s.m, Program(g, s, n, slc, x).m, n, x)
  {
    hide RegionOk, CountsOk, CursorOk, Domains, Geo.WellFormed, Geo.PgsPerLine, Geo.ValidPpa, Geo.Idx, Geo.Rank;
    CursorsSized(g, s, v, done);
    CursorFree(g, s, v, done, slc);
    forall k | 0 <= k < |s.m.maptbl| && s.m.maptbl[k].Some?
      ensures s.m.maptbl[k].value != if slc then s.wp else s.gcWp
    {}
  }

  /** The page under a cursor is free. */
  lemma CursorFree(g: Geo, s: State, v: nat, done: set<Ppa>, slc: bool)
    requires Inv(g, s, v, done)
    ensures var c := if slc then s.wp else s.gcWp; c in s.f.status && s.f.status[c] == PgFree
  {
    hide MapOk, RegionOk, CountsOk;
  }
}
