/** The page order of do_gc, and what a whole collection does to the state. */
module FtlSweep {
  import opened Wrappers
  import opened Counting
  import opened Radix
  import opened Geometry
  import opened FtlState
  import opened FtlSteps
  import opened FtlOps
  import opened FtlGc
  import opened FtlBounds

  // ---------- The sweep over the victim's flash pages ----------

  /** Pages from .. to - 1 of block b. */
  ghost function PagesOf(b: Block, from: nat, to: nat): set<Ppa> {
    set pg: nat | from <= pg < to :: Ppa(b.ch, b.lun, b.blk, pg)
  }

  lemma PagesOfIs(b: Block, from: nat, to: nat, p: Ppa)
    ensures p in PagesOf(b, from, to) <==> BlockOf(p) == b && from <= p.pg < to
  {
    if BlockOf(p) == b && from <= p.pg < to {
      assert p == Ppa(b.ch, b.lun, b.blk, p.pg);
    }
  }

  /** The loops of do_gc have passed page p when they stand at (flashpg, ch, lun). */
  predicate Passed(g: Geo, p: Ppa, flashpg: nat, ch: nat, lun: nat)
    requires g.pgsPerFlashpg > 0
  {
    var f := p.pg / g.pgsPerFlashpg;
    f < flashpg || (f == flashpg && (p.ch < ch || (p.ch == ch && p.lun < lun)))
  }

  ghost predicate Swept(g: Geo, v: nat, done: set<Ppa>, flashpg: nat, ch: nat, lun: nat)
    requires g.pgsPerFlashpg > 0
  {
    forall p :: g.ValidPpa(p) && p.blk == v ==> (p in done <==> Passed(g, p, flashpg, ch, lun))
  }

  /** In the last round every block passed has been erased. */
  ghost predicate Erased(g: Geo, st: map<Ppa, PageStatus>, v: nat, ch: nat, lun: nat) {
    forall p :: p in st && p.blk == v && (p.ch < ch || (p.ch == ch && p.lun < lun)) ==> st[p] == PgFree
  }

  lemma InFlashpg(pg: nat, f: nat, n: nat)
    requires f > 0
    ensures pg / f == n <==> n * f <= pg < n * f + f
  {
    if n * f <= pg < n * f + f {
      DivModUnique(pg, f, n, pg - n * f);
    }
  }

  /** Handling one flash page moves the sweep to the next LUN. */
  lemma SweepLun(g: Geo, v: nat, done: set<Ppa>, flashpg: nat, ch: nat, lun: nat)
    requires g.pgsPerFlashpg > 0 && Swept(g, v, done, flashpg, ch, lun)
    ensures Swept(g, v, done + PagesOf(Block(ch, lun, v), flashpg * g.pgsPerFlashpg,
      flashpg * g.pgsPerFlashpg + g.pgsPerFlashpg),
                  flashpg, ch, lun + 1)
  {
    var from := flashpg * g.pgsPerFlashpg;
    var now := PagesOf(Block(ch, lun, v), from, from + g.pgsPerFlashpg);
    forall p | g.ValidPpa(p) && p.blk == v
      ensures p in done + now <==> Passed(g, p, flashpg, ch, lun + 1)
    {
      PagesOfIs(Block(ch, lun, v), from, from + g.pgsPerFlashpg, p);
      InFlashpg(p.pg, g.pgsPerFlashpg, flashpg);
    }
  }

  lemma SweepCh(g: Geo, v: nat, done: set<Ppa>, flashpg: nat, ch: nat)
    requires g.pgsPerFlashpg > 0 && Swept(g, v, done, flashpg, ch, g.lunsPerCh)
    ensures Swept(g, v, done, flashpg, ch + 1, 0)
  {}

  lemma SweepFlashpg(g: Geo, v: nat, done: set<Ppa>, flashpg: nat)
    requires g.pgsPerFlashpg > 0 && Swept(g, v, done, flashpg, g.nchs, 0)
    ensures Swept(g, v, done, flashpg + 1, 0, 0)
  {}

  /** The pages of the flash page at hand are in the block, and none has been dealt with. */
  lemma SweepFresh(g: Geo, v: nat, done: set<Ppa>, flashpg: nat, ch: nat, lun: nat, i: nat)
    requires g.WellFormed() && Swept(g, v, done, flashpg, ch, lun)
    requires v < g.Lines() && ch < g.nchs && lun < g.lunsPerCh && flashpg < g.FlashpgsPerBlk(v) && i < g.pgsPerFlashpg
    ensures var p := Ppa(ch, lun, v, flashpg * g.pgsPerFlashpg + i); g.ValidPpa(p) && p !in done
  {
    FlashpgsTileBlock(g, v);
    JoinBound(flashpg, i, g.pgsPerFlashpg, g.FlashpgsPerBlk(v));
    InFlashpg(flashpg * g.pgsPerFlashpg + i, g.pgsPerFlashpg, flashpg);
  }

  /** After the last flash page of a block every page of it has been dealt with. */
  lemma BlockSwept(g: Geo, m: Mapping, f: Flash, v: nat, done: set<Ppa>, ch: nat, lun: nat)
    requires Domains(g, m, f) && v < g.Lines() && g.FlashpgsPerBlk(v) > 0
    requires Swept(g, v, done, g.FlashpgsPerBlk(v) - 1, ch, lun + 1)
    ensures forall p :: p in f.status && BlockOf(p) == Block(ch, lun, v) ==> p in done
  {
    forall p | p in f.status && BlockOf(p) == Block(ch, lun, v) ensures p in done {
      FlashpgsTileBlock(g, v);
      DivBound(p.pg, g.pgsPerFlashpg, g.FlashpgsPerBlk(v));
    }
  }

  /** ... all of them. */
  lemma SweepFreshAll(g: Geo, m: Mapping, f: Flash, v: nat, done: set<Ppa>, flashpg: nat, ch: nat, lun: nat)
    requires Domains(g, m, f) && Swept(g, v, done, flashpg, ch, lun)
    requires v < g.Lines() && ch < g.nchs && lun < g.lunsPerCh && flashpg < g.FlashpgsPerBlk(v)
    ensures forall p :: p in PagesOf(Block(ch, lun, v), flashpg * g.pgsPerFlashpg,
      flashpg * g.pgsPerFlashpg + g.pgsPerFlashpg) ==>
              p in f.status && p !in done
  {
    var from := flashpg * g.pgsPerFlashpg;
    forall p | p in PagesOf(Block(ch, lun, v), from, from + g.pgsPerFlashpg) ensures p in f.status && p !in done {
      PagesOfIs(Block(ch, lun, v), from, from + g.pgsPerFlashpg, p);
      SweepFresh(g, v, done, flashpg, ch, lun, p.pg - from);
    }
  }

  lemma ErasedOne(g: Geo, f: Flash, v: nat, ch: nat, lun: nat)
    requires Erased(g, f.status, v, ch, lun)
    ensures Erased(g, EraseBlock(f, Block(ch, lun, v)).status, v, ch, lun + 1)
  {}

  lemma ErasedCh(g: Geo, m: Mapping, f: Flash, v: nat, ch: nat)
    requires Domains(g, m, f) && Erased(g, f.status, v, ch, g.lunsPerCh)
    ensures Erased(g, f.status, v, ch + 1, 0)
  {}

  lemma ErasedAll(g: Geo, m: Mapping, f: Flash, v: nat)
    requires Domains(g, m, f) && Erased(g, f.status, v, g.nchs, 0)
    ensures AllFree(f.status, v)
  {}

  /** The sweep begins with nothing dealt with. */
  lemma SweepNone(g: Geo, v: nat)
    requires g.pgsPerFlashpg > 0
    ensures Swept(g, v, {}, 0, 0, 0)
  {
    forall p | g.ValidPpa(p) && p.blk == v ensures !Passed(g, p, 0, 0, 0) {
      assert p.pg / g.pgsPerFlashpg >= 0;
    }
  }

  // ---------- Counting what was moved ----------

  /** A collection that fails had at most as many TLC pages as the victim had valid. */
  lemma CopyFails(g: Geo, s0: State, s: State, v: nat, done: set<Ppa>, p: Ppa)
    requires Collecting(g, s0, s, v, done) && TlcSpace(g, s) == 1
    requires p in s.f.status && p.blk == v && s.f.status[p] == PgValid && p !in done
    ensures TlcSpace(g, s0) <= |InLine(s0.f.status, v, PgValid)|
  {
    hide Inv, SameView, MovedOutOf;
    MovedOne(s0.f.status, done, p);
    assert s0.f.status[p] == PgValid;
    SubsetCard(Moved(s0.f.status, done + {p}), InLine(s0.f.status, v, PgValid));
  }

  /** Passing over several pages that hold no data. */
  lemma PassOverAll(g: Geo, s0: State, s: State, v: nat, done: set<Ppa>, more: set<Ppa>)
    requires Collecting(g, s0, s, v, done)
    requires forall p :: p in more ==> p in s.f.status && p.blk == v && s.f.status[p] != PgValid && p !in done
    ensures Collecting(g, s0, s, v, done + more)
    decreases more
  {
    hide Collecting;
    if more == {} {
      assert done + more == done;
    } else {
      var p :| p in more;
      PassOver(g, s0, s, v, done, p);
      PassOverAll(g, s0, s, v, done + {p}, more - {p});
      assert done + {p} + (more - {p}) == done + more;
    }
  }

  // ---------- A whole collection ----------

  /** The TLC space never runs to nothing. */
  lemma SpacePositive(g: Geo, s: State, v: nat, done: set<Ppa>)
    requires Inv(g, s, v, done)
    ensures TlcSpace(g, s) >= 1
  {
    RankRoundTrip(g, s.gcWp);
    assert g.PgsPerLine(s.gcWp.blk) == g.PgsPerLine(g.slcLines);
    assert |s.lm.free| * g.PgsPerLine(g.slcLines) >= 0;
  }

  /** q and s are the states before and after collecting line v. */
  ghost predicate Collected(g: Geo, q: State, s: State, v: nat)
    requires v < |q.f.vpc| && v < |q.f.ipc| && g.Oneshot(q.gcWp.blk) > 0 && g.Oneshot(s.gcWp.blk) > 0
  {
    && Quiescent(g, s)
    && SameView(q.m, s.m) && MovedOutOf(g, q.m, s.m, v)
    && AllFree(s.f.status, v)
    && TlcSpace(g, s) == TlcSpace(g, q) - q.f.vpc[v] + (if g.IsSlc(v) then 0 else g.PgsPerLine(v))
    && s.wp == q.wp && s.writeCredits == q.writeCredits
    && (if g.IsSlc(v)
        then s.slm.free == q.slm.free + [v] && TakenFrom(q.lm.free, s.lm.free)
             && s.creditsToRefill == g.PgsPerLine(v)
        else s.slm == q.slm && s.creditsToRefill == q.f.ipc[v]
             && s.lm.free != [] && s.lm.free[|s.lm.free| - 1] == v
             && TakenFrom(q.lm.free, s.lm.free[..|s.lm.free| - 1]))
  }

  /** Line l is the SLC line that select_victim_line_slc picks, up to ties. */
  ghost predicate ChosenSlc(s: State, l: nat) {
    && l < |s.f.vpc|
    && if s.slm.victims == {} then s.slm.full != [] && l == s.slm.full[0]
       else l in s.slm.victims && forall y :: y in s.slm.victims && y < |s.f.vpc| ==> s.f.vpc[l] <= s.f.vpc[y]
  }

  /** The lists without the chosen SLC line. */
  ghost function TakeSlc(s: State, l: nat): State {
    if s.slm.victims != {} then s.(slm := TakeVictim(s.slm, l))
    else if s.slm.full != [] then s.(slm := TakeFull(s.slm))
    else s
  }

  ghost function TakeTlc(s: State, l: nat): State { s.(lm := TakeVictim(s.lm, l)) }

  /** A chosen SLC line is under collection once it is off its list. */
  lemma TakeSlcOk(g: Geo, q: State, l: nat)
    requires Quiescent(g, q) && ChosenSlc(q, l)
    ensures l < g.slcLines && Inv(g, TakeSlc(q, l), l, {}) && NoneFree(q.f.status, l)
  {
    assert l in q.slm.victims || l in q.slm.full;
    hide MapOk, CursorOk, CountsOk, NoneFree, Geo.WellFormed, Geo.ValidPpa;
    if q.slm.victims != {} {
      assert VictimLine(g, q.f, l);
      TakeVictimOk(g, q.f, q.slm, 0, g.slcLines, q.wp.blk, l);
    } else {
      assert FullLine(g, q.f, l);
      TakeFullOk(g, q.f, q.slm, 0, g.slcLines, q.wp.blk);
    }
    OtherRegionTake(g, q.f, q.lm, g.slcLines, g.Lines(), q.gcWp.blk, NoLine(g), l);
    CountsLess(g, q.m, q.f, l);
  }

  lemma TakeTlcOk(g: Geo, q: State, l: nat)
    requires Quiescent(g, q) && l in q.lm.victims
    ensures g.slcLines <= l < g.Lines() && Inv(g, TakeTlc(q, l), l, {}) && NoneFree(q.f.status, l)
  {
    hide MapOk, CursorOk, CountsOk, NoneFree, Geo.WellFormed, Geo.ValidPpa;
    assert VictimLine(g, q.f, l);
    TakeVictimOk(g, q.f, q.lm, g.slcLines, g.Lines(), q.gcWp.blk, l);
    OtherRegionTake(g, q.f, q.slm, 0, g.slcLines, q.wp.blk, NoLine(g), l);
    CountsLess(g, q.m, q.f, l);
  }

  lemma CountsLess(g: Geo, m: Mapping, f: Flash, l: nat)
    requires Domains(g, m, f) && CountsOk(g, f, NoLine(g))
    ensures CountsOk(g, f, l)
  {}

  /** With the whole victim swept, exactly its valid pages have moved. */
  lemma AllMoved(g: Geo, m: Mapping, f: Flash, v: nat, done: set<Ppa>)
    requires Domains(g, m, f) && CountsOk(g, f, NoLine(g)) && v < g.Lines()
    requires Swept(g, v, done, g.FlashpgsPerBlk(v), 0, 0) && forall p :: p in done ==> p.blk == v
    ensures |Moved(f.status, done)| == f.vpc[v]
  {
    forall p | p in InLine(f.status, v, PgValid) ensures p in Moved(f.status, done) {
      FlashpgsTileBlock(g, v);
      DivBound(p.pg, g.pgsPerFlashpg, g.FlashpgsPerBlk(v));
    }
    assert Moved(f.status, done) == InLine(f.status, v, PgValid);
  }

  lemma FinishSpace(g: Geo, s: State, v: nat)
    requires Sized(g, s) && v < |s.f.vpc| && v < |s.f.ipc|
    ensures TlcSpace(g, FinishLine(g, s, v)) == TlcSpace(g, s) + if g.IsSlc(v) then 0 else g.PgsPerLine(v)
  {
    if !g.IsSlc(v) {
      assert g.PgsPerLine(v) == g.PgsPerLine(g.slcLines);
      OneLineLess(|s.lm.free| + 1, g.PgsPerLine(v));
    }
  }

  /** From the swept and erased victim to the finished collection. */
  lemma Finished(g: Geo, q: State, s0: State, s: State, v: nat, done: set<Ppa>)
    requires Quiescent(g, q) && Collecting(g, s0, s, v, done) && AllFree(s.f.status, v) && v < g.Lines()
    requires Swept(g, v, done, g.FlashpgsPerBlk(v), 0, 0)
    requires s0.m == q.m && s0.f == q.f && s0.wp == q.wp && s0.gcWp == q.gcWp && s0.writeCredits == q.writeCredits
    requires s0.lm.free == q.lm.free && s0.slm.free == q.slm.free && (!g.IsSlc(v) ==> s0.slm == q.slm)
    requires s0.creditsToRefill == if g.IsSlc(v) then g.PgsPerLine(v) else q.f.ipc[v]
    ensures Sized(g, q) && v < |q.f.vpc| && v < |q.f.ipc|
    ensures Sized(g, FinishLine(g, s, v)) && Collected(g, q, FinishLine(g, s, v), v)
    ensures q.f.vpc[v] < TlcSpace(g, q)
  {
    hide Inv, SameView, MovedOutOf, AllFree, Swept, Moved, TlcSpace, FinishLine, TakenFrom, Geo.FlashpgsPerBlk,
      Geo.WellFormed, Geo.ValidPpa;
    CursorsSized(g, q, NoLine(g), {});
    CollectingInv(g, s0, s, v, done);
    QuiescentCounts(g, q);
    AllMoved(g, q.m, q.f, v, done);
    SpacePositive(g, s, v, done);
    FinishSpace(g, s, v);
    FinishOk(g, s, v, done);
    CursorsSized(g, FinishLine(g, s, v), NoLine(g), {});
    FinishFree(g, s, v);
    if !g.IsSlc(v) { assert (s.lm.free + [v])[..|s.lm.free|] == s.lm.free; }
    SpaceSame(g, s0, q);
  }

  lemma QuiescentCounts(g: Geo, q: State)
    requires Quiescent(g, q)
    ensures Domains(g, q.m, q.f) && CountsOk(g, q.f, NoLine(g))
  {}

  lemma SpaceSame(g: Geo, s: State, q: State)
    requires s.lm.free == q.lm.free && s.gcWp == q.gcWp && Sized(g, q)
    ensures TlcSpace(g, s) == TlcSpace(g, q)
  {}

  lemma FinishFree(g: Geo, s: State, v: nat)
    requires v < |s.f.vpc| && v < |s.f.ipc|
    ensures var s' := FinishLine(g, s, v);
      && s'.f.status == s.f.status && s'.m == s.m && s'.wp == s.wp && s'.gcWp == s.gcWp
      && s'.writeCredits == s.writeCredits && s'.creditsToRefill == s.creditsToRefill
      && (if g.IsSlc(v) then s'.slm.free == s.slm.free + [v] && s'.lm == s.lm
          else s'.lm.free == s.lm.free + [v] && s'.slm == s.slm)
  {}
}
