/** Write credits and the supply of free SLC lines. */
module FtlFlow {
  import opened Wrappers
  import opened Geometry
  import opened Radix
  import opened FtlState
  import opened FtlSteps
  import opened FtlOps
  import opened FtlGc
  import opened FtlBounds
  import opened FtlInit
  import opened FtlSweep
  import opened FtlVictim

  /** mig_thres_lines_high and gc_thres_lines_high. */
  const MIG_THRES := 2
  const GC_THRES := 2

  /** Free SLC lines between page writes: three, or all but the open one on a smaller cache. */
  function MinFreeSlc(g: Geo): int {
    if g.slcLines >= 4 then 3 else g.slcLines - 1
  }

  /** The invariant between page writes: the credits are the pages left in the open SLC line,
      and the migrations have kept up with the lines used. */
  ghost predicate Steady(g: Geo, s: State) {
    && Quiescent(g, s)
    && g.slcLines >= 2
    && s.writeCredits == g.PgsPerLine(0) - g.Rank(s.wp)
    && s.creditsToRefill == g.PgsPerLine(0)
    && |s.slm.free| >= MinFreeSlc(g)
  }

  lemma FreshSteady(g: Geo)
    requires g.WellFormed() && g.slcLines >= 2 && g.tlcLines >= 1
    ensures Steady(g, FreshState(g))
  {
    FreshOk(g);
    RankZero(g, FreshState(g).wp);
  }

  /** With at most this much TLC space a collection may fail. */
  function SpaceNeeded(g: Geo): int {
    if g.PgsPerLine(0) >= g.PgsPerLine(g.slcLines) then g.PgsPerLine(0) else g.PgsPerLine(g.slcLines) - 1
  }

  /** A host write before its credit is settled. */
  ghost predicate Unsettled(g: Geo, s: State, t: State, n: nat, x: int) {
    && Quiescent(g, t) && n < |s.m.maptbl| && Writes(s.m, t.m, n, x)
    && t.lm.free == s.lm.free && t.gcWp == s.gcWp
    && t.writeCredits == s.writeCredits && t.creditsToRefill == s.creditsToRefill
    && (match CursorStep(g, s.wp)
        case Same(c) => t.wp == c && t.slm.free == s.slm.free
        case LineUsedUp =>
          && s.slm.free != [] && t.wp == Ppa(0, 0, s.slm.free[0], 0) && t.slm.free == s.slm.free[1..]
          && (t.slm.full != [] || t.slm.victims != {}))
  }

  /** NextInLine, total. */
  ghost function CursorStep(g: Geo, c: Ppa): Step {
    if g.Oneshot(c.blk) > 0 && c.pg < g.PgsPerBlk(c.blk) then NextInLine(g, c) else LineUsedUp
  }

  /** From a steady state a host write always finds its next page. */
  lemma HostWriteRuns(g: Geo, s: State, n: nat, x: int)
    requires Steady(g, s) && n < |s.m.maptbl|
    ensures Sized(g, s) && (s.m.maptbl[n].Some? ==> s.m.maptbl[n].value in s.f.status)
    ensures HostWrite(g, s, n, x).Some? && Unsettled(g, s, HostWrite(g, s, n, x).value, n, x)
  {
    hide Inv, HostWrite, Writes, NextInLine, Geo.WellFormed, Geo.Rank, Geo.PgsPerLine;
    HostWriteOk(g, s, n, x);
    HostWriteView(g, s, n, x);
    HostWriteLists(g, s, n, x);
  }

  /** How far the cursor moved, in credits. */
  lemma CreditsLeft(g: Geo, s: State, t: State, n: nat, x: int)
    requires Steady(g, s) && Unsettled(g, s, t, n, x)
    ensures t.writeCredits - 1 >= 0
    ensures t.writeCredits - 1 > 0 ==>
              Steady(g, t.(writeCredits := t.writeCredits - 1)) && g.Rank(t.wp) == g.Rank(s.wp) + 1
    ensures t.writeCredits - 1 == 0 ==>
              && g.Rank(t.wp) == 0 && |t.slm.free| == |s.slm.free| - 1
              && (t.slm.full != [] || t.slm.victims != {})
  {
    CursorsSized(g, s, NoLine(g), {});
    CursorsSized(g, t, NoLine(g), {});
    NextInLineRank(g, s.wp);
    assert g.PgsPerLine(s.wp.blk) == g.PgsPerLine(0);
    if NextInLine(g, s.wp).LineUsedUp? {
      RankZero(g, t.wp);
    } else {
      CreditsDoNotMatter(g, t, t.writeCredits - 1, t.creditsToRefill);
    }
  }

  /** The invariant does not read the credits. */
  lemma CreditsDoNotMatter(g: Geo, s: State, w: int, r: int)
    requires Quiescent(g, s)
    ensures Quiescent(g, s.(writeCredits := w, creditsToRefill := r))
  {
    hide MapOk, CountsOk, RegionOk, CursorOk, Domains;
  }

  /** Refilling restores the steady state, and the write is all that lookups see. */
  lemma Refilled(g: Geo, s: State, t: State, ageUs: seq<int>, round: Round, w: State, n: nat, x: int)
    requires Steady(g, s) && Unsettled(g, s, t, n, x) && t.writeCredits == 1
    requires Foreground(g, t.(writeCredits := 0), ageUs, round, w)
    ensures var w' := w.(writeCredits := w.writeCredits + w.creditsToRefill);
            Steady(g, w') && Writes(s.m, w'.m, n, x)
  {
    hide Inv, Geo.WellFormed, Geo.Rank, Geo.PgsPerLine, Writes, SameView, CursorStep;
    CreditsLeft(g, s, t, n, x);
    CreditsDoNotMatter(g, t, 0, t.creditsToRefill);
    ForegroundEffect(g, t.(writeCredits := 0), ageUs, round, w);
    CreditsDoNotMatter(g, w, w.writeCredits + w.creditsToRefill, w.creditsToRefill);
    WritesThenSame(s.m, t.m, w.m, n, x);
  }

  lemma WritesThenSame(m0: Mapping, m1: Mapping, m2: Mapping, n: nat, x: int)
    requires Writes(m0, m1, n, x) && SameView(m1, m2)
    ensures Writes(m0, m2, n, x)
  {
    hide Lookup;
  }

  lemma HeadIn(l: seq<nat>)
    ensures l != [] ==> l[0] in l
  {}

  /** With one SLC line the cache starves: filling that line leaves no line to open. */
  lemma OneSlcLineStarves(g: Geo, s: State, n: nat, x: int)
    requires Quiescent(g, s) && g.slcLines == 1 && n < |s.m.maptbl|
    requires g.Rank(s.wp) + 1 == g.PgsPerLine(0)
    ensures Sized(g, s) && (s.m.maptbl[n].Some? ==> s.m.maptbl[n].value in s.f.status)
    ensures HostWrite(g, s, n, x).None?
  {
    CursorsSized(g, s, NoLine(g), {});
    HostWriteOk(g, s, n, x);
    NextInLineRank(g, s.wp);
    HeadIn(s.slm.free);
  }

  /** Host writes one after the other, as far as they go. */
  ghost function HostWrites(g: Geo, s: State, ws: seq<(nat, int)>): Option<State> {
    if ws == [] then Some(s)
    else
      match HostWrites(g, s, ws[..|ws| - 1])
      case None => None
      case Some(t) => Charged(g, t, ws[|ws| - 1].0, ws[|ws| - 1].1)
  }

  /** From the fresh state on, the last page of the only SLC line is where that happens. */
  lemma {:induction false} OneSlcLineRun(g: Geo, ws: seq<(nat, int)>)
    requires g.WellFormed() && g.slcLines == 1 && g.tlcLines >= 1 && |ws| <= g.PgsPerLine(0)
    requires forall k :: 0 <= k < |ws| ==> ws[k].0 < g.TtPgs()
    ensures HostWrites(g, FreshState(g), ws).Some? <==> |ws| < g.PgsPerLine(0)
    ensures |ws| < g.PgsPerLine(0) ==>
      var t := HostWrites(g, FreshState(g), ws).value;
      Quiescent(g, t) && t.wp.blk == 0 && g.Rank(t.wp) == |ws| && t.writeCredits == g.PgsPerLine(0) - |ws|
  {
    if ws == [] {
      FreshOk(g);
      RankZero(g, FreshState(g).wp);
      PositiveSizes(g);
    } else {
      var k := |ws| - 1;
      OneSlcLineRun(g, ws[..k]);
      OneSlcLineStep(g, HostWrites(g, FreshState(g), ws[..k]).value, ws[k].0, ws[k].1);
    }
  }

  lemma OneSlcLineStep(g: Geo, s: State, n: nat, x: int)
    requires Quiescent(g, s) && g.slcLines == 1 && n < g.TtPgs()
    ensures |s.m.maptbl| == g.TtPgs() && g.Oneshot(s.wp.blk) > 0
    ensures Charged(g, s, n, x).Some? <==> g.Rank(s.wp) + 1 < g.PgsPerLine(0)
    ensures Charged(g, s, n, x).Some? ==>
      var t := Charged(g, s, n, x).value;
      Quiescent(g, t) && t.wp.blk == s.wp.blk && g.Oneshot(t.wp.blk) > 0 && g.Rank(t.wp) == g.Rank(s.wp) + 1
      && t.writeCredits == s.writeCredits - 1
  {
    hide MapOk, CountsOk, HostWrite;
    CursorsSized(g, s, NoLine(g), {});
    NextInLineRank(g, s.wp);
    HostWriteOk(g, s, n, x);
    HostWriteLists(g, s, n, x);
    HeadIn(s.slm.free);
    if g.Rank(s.wp) + 1 < g.PgsPerLine(0) {
      var t := HostWrite(g, s, n, x).value;
      CreditsDoNotMatter(g, t, t.writeCredits - 1, t.creditsToRefill);
    } else {
      OneSlcLineStarves(g, s, n, x);
    }
  }

  // ---------- What foreground_gc does ----------

  /** Garbage collection of a TLC victim frees its invalid pages, at least one, and never
      leaves fewer free lines. */
  lemma GcGains(g: Geo, q: State, s: State, v: nat)
    requires Quiescent(g, q) && Sized(g, q) && Sized(g, s) && v in q.lm.victims
    requires v < |q.f.vpc| && v < |q.f.ipc| && Collected(g, q, s, v)
    ensures !g.IsSlc(v) && q.f.ipc[v] >= 1 && q.f.vpc[v] <= g.PgsPerLine(g.slcLines) - 1
    ensures TlcSpace(g, s) == TlcSpace(g, q) + q.f.ipc[v]
    ensures s.lm.freeCnt >= q.lm.freeCnt
  {
    CursorsSized(g, q, NoLine(g), {});
    CursorsSized(g, s, NoLine(g), {});
    RankRoundTrip(g, q.gcWp);
    RankRoundTrip(g, s.gcWp);
    TlcVictim(g, q, v);
    MoreLines(|q.lm.free|, |s.lm.free|, g.PgsPerLine(g.slcLines), g.Rank(q.gcWp), g.Rank(s.gcWp));
  }

  lemma TlcVictim(g: Geo, q: State, v: nat)
    requires Quiescent(g, q) && v in q.lm.victims
    ensures g.slcLines <= v < g.Lines() && v < |q.f.vpc| && v < |q.f.ipc|
    ensures q.f.ipc[v] >= 1 && q.f.vpc[v] + q.f.ipc[v] == g.PgsPerLine(g.slcLines)
    ensures g.PgsPerLine(v) == g.PgsPerLine(g.slcLines)
  {
    assert VictimLine(g, q.f, v);
  }

  /** More space with cursors inside their lines means no fewer lines. */
  lemma MoreLines(a: nat, b: nat, ppl: nat, ra: nat, rb: nat)
    requires ra < ppl && rb < ppl && b * ppl + ppl - rb >= a * ppl + ppl - ra
    ensures b >= a
  {
    if b + 1 <= a { MulMono(b + 1, a, ppl); }
  }

  /** Migrating an SLC line costs TLC space for its valid pages and frees the line. */
  lemma MigrationCosts(g: Geo, q: State, s: State, v: nat)
    requires Quiescent(g, q) && Sized(g, q) && Sized(g, s) && ChosenSlc(q, v) && g.IsSlc(v)
    requires v < |q.f.vpc| && v < |q.f.ipc| && Collected(g, q, s, v)
    ensures 0 <= q.f.vpc[v] <= g.PgsPerLine(0)
    ensures TlcSpace(g, s) == TlcSpace(g, q) - q.f.vpc[v]
    ensures s.slm.freeCnt == q.slm.freeCnt + 1
  {
    hide Inv, TlcSpace, SameView, MovedOutOf, AllFree, ChosenSlc, TakenFrom, Geo.WellFormed;
    ListCounts(g, q);
    ListCounts(g, s);
    LineBounds(g, q, v);
    assert g.PgsPerLine(v) == g.PgsPerLine(0);
  }

  /** Line v of q can be collected, and s is q with it collected. */
  ghost predicate Collects(g: Geo, q: State, s: State, v: nat) {
    && Sized(g, q) && Sized(g, s) && v < |q.f.vpc| && v < |q.f.ipc|
    && q.f.vpc[v] < TlcSpace(g, q) && Collected(g, q, s, v)
  }

  /** The valid pages of line v do not fit into the TLC space, the last page of which is not used. */
  ghost predicate CannotCollect(g: Geo, q: State, v: nat) {
    Quiescent(g, q) && Sized(g, q) && v < |q.f.vpc| && q.f.vpc[v] >= TlcSpace(g, q)
  }

  /** One round of foreground_gc: the TLC victim collected, if any, the state after that, and
      the SLC line migrated. */
  datatype Round = Round(mid: State, gc: Option<nat>, mig: nat)

  ghost predicate GcWanted(s: State) { |s.lm.free| <= GC_THRES && s.lm.victims != {} }

  /** What foreground_gc does: s before, t after. */
  ghost predicate Foreground(g: Geo, s: State, ageUs: seq<int>, r: Round, t: State) {
    if |s.slm.free| > MIG_THRES then t == s
    else
      && GcDone(g, s, ageUs, r)
      && ChosenSlc(r.mid, r.mig) && g.IsSlc(r.mig) && Collects(g, r.mid, t, r.mig)
  }

  ghost predicate GcDone(g: Geo, s: State, ageUs: seq<int>, r: Round) {
    && (r.gc.Some? <==> GcWanted(s))
    && match r.gc
       case None => r.mid == s
       case Some(v) => ChosenTlc(g, s, ageUs, v) && !g.IsSlc(v) && Collects(g, s, r.mid, v)
  }

  /** Where foreground_gc runs out of TLC pages. */
  ghost predicate ForegroundFails(g: Geo, s: State, ageUs: seq<int>, r: Round) {
    && |s.slm.free| <= MIG_THRES
    && ((r.gc.Some? && GcWanted(s) && ChosenTlc(g, s, ageUs, r.gc.value) && CannotCollect(g, s, r.gc.value))
        || (GcDone(g, s, ageUs, r) && ChosenSlc(r.mid, r.mig) && g.IsSlc(r.mig) && CannotCollect(g, r.mid, r.mig)))
  }

  lemma CollectsKeeps(g: Geo, s: State, q: State, v: Option<nat>)
    requires match v case None => q == s && Quiescent(g, s) case Some(x) => Collects(g, s, q, x) && !g.IsSlc(x)
    ensures Quiescent(g, q) && SameView(s.m, q.m) && q.slm == s.slm && q.wp == s.wp && q.writeCredits == s.writeCredits
  {}

  lemma SameViewAgain(m0: Mapping, m1: Mapping, m2: Mapping)
    ensures SameView(m0, m0) && (SameView(m0, m1) && SameView(m1, m2) ==> SameView(m0, m2))
  {
    hide Lookup;
  }

  /** A round changes nothing that lookups see, leaves the host pointer alone, and frees one
      SLC line when it was needed. */
  lemma ForegroundEffect(g: Geo, s: State, ageUs: seq<int>, r: Round, t: State)
    requires Quiescent(g, s) && Foreground(g, s, ageUs, r, t)
    ensures Quiescent(g, t) && SameView(s.m, t.m) && t.wp == s.wp && t.writeCredits == s.writeCredits
    ensures if |s.slm.free| > 2 then t == s
            else |t.slm.free| == |s.slm.free| + 1 && t.creditsToRefill == g.PgsPerLine(0)
    ensures |s.slm.free| <= 2 ==> (r.gc.Some? <==> |s.lm.free| <= 2 && s.lm.victims != {})
  {
    hide Inv, MovedOutOf, AllFree, TlcSpace, SameView, ChosenSlc, ChosenTlc, Domains;
    SameViewAgain(s.m, s.m, s.m);
    if |s.slm.free| <= MIG_THRES {
      CollectsKeeps(g, s, r.mid, r.gc);
      SameViewAgain(s.m, r.mid.m, t.m);
      assert g.PgsPerLine(r.mig) == g.PgsPerLine(0);
    }
  }

  /** Where TLC space never drops to what a single line may need, no round fails. */
  lemma RoomEnough(g: Geo, s: State, ageUs: seq<int>, r: Round)
    requires Quiescent(g, s) && ForegroundFails(g, s, ageUs, r)
    ensures Sized(g, s) && TlcSpace(g, s) <= SpaceNeeded(g)
  {
    hide Inv, ChosenSlc, ChosenTlc, Collected, TlcSpace, Geo.WellFormed, Geo.PgsPerLine;
    CursorsSized(g, s, NoLine(g), {});
    if r.gc.Some? { TlcVictimChosen(g, s, ageUs, r.gc.value); }
    if GcDone(g, s, ageUs, r) {
      CollectsKeeps(g, s, r.mid, r.gc);
      if r.gc.Some? { GcGains(g, s, r.mid, r.gc.value); }
      if ChosenSlc(r.mid, r.mig) && g.IsSlc(r.mig) { SlcVictimBound(g, r.mid, r.mig); }
    }
  }

  lemma TlcVictimChosen(g: Geo, s: State, ageUs: seq<int>, v: nat)
    requires Quiescent(g, s) && ChosenTlc(g, s, ageUs, v)
    ensures v in s.lm.victims && v < |s.f.vpc| && s.f.vpc[v] <= SpaceNeeded(g)
  {
    TlcVictim(g, s, v);
  }

  lemma SlcVictimBound(g: Geo, q: State, v: nat)
    requires Quiescent(g, q) && ChosenSlc(q, v) && g.IsSlc(v)
    ensures v < |q.f.vpc| && q.f.vpc[v] <= SpaceNeeded(g)
  {
    LineBounds(g, q, v);
    assert g.PgsPerLine(v) == g.PgsPerLine(0);
  }

  // ---------- One pass of the loop of conv_write ----------

  /** The state in which the credit of a host write is settled. */
  ghost function Charged(g: Geo, s: State, n: nat, x: int): Option<State> {
    if !(Sized(g, s) && n < |s.m.maptbl| && (s.m.maptbl[n].Some? ==> s.m.maptbl[n].value in s.f.status)) then None
    else match HostWrite(g, s, n, x) case None => None case Some(u) => Some(u.(writeCredits := u.writeCredits - 1))
  }

  /** t is s after writing x to LPN n, with the round of foreground_gc that the write set off
      if it took the last credit. */
  ghost predicate PageWritten(g: Geo, s: State, n: nat, x: int, ageUs: seq<int>, r: Round, t: State) {
    && Charged(g, s, n, x).Some?
    && var u := Charged(g, s, n, x).value;
       if u.writeCredits > 0 then t == u
       else Foreground(g, u, ageUs, r, t.(writeCredits := t.writeCredits - t.creditsToRefill))
  }

  /** From a steady state a page write never lacks an SLC page. */
  lemma ChargedOk(g: Geo, s: State, n: nat, x: int)
    requires Steady(g, s) && n < |s.m.maptbl|
    ensures Charged(g, s, n, x).Some?
    ensures var u := Charged(g, s, n, x).value;
      && u.writeCredits == s.writeCredits - 1 >= 0 && Unsettled(g, s, u.(writeCredits := s.writeCredits), n, x)
      && Quiescent(g, u)
      && (u.writeCredits == 0 && |u.slm.free| <= MIG_THRES ==> u.slm.full != [] || u.slm.victims != {})
  {
    hide Inv, HostWrite, Writes, CursorStep, Geo.WellFormed, Geo.Rank, Geo.PgsPerLine, Sized, Domains;
    HostWriteRuns(g, s, n, x);
    var u := HostWrite(g, s, n, x).value;
    CreditsLeft(g, s, u, n, x);
    CreditsDoNotMatter(g, u, u.writeCredits - 1, u.creditsToRefill);
    assert Charged(g, s, n, x).value.(writeCredits := s.writeCredits) == u;
  }

  /** Every page write that completes keeps the steady state, and is all that lookups see. */
  lemma PageWrittenSteady(g: Geo, s: State, n: nat, x: int, ageUs: seq<int>, r: Round, t: State)
    requires Steady(g, s) && n < |s.m.maptbl| && PageWritten(g, s, n, x, ageUs, r, t)
    ensures Steady(g, t) && Writes(s.m, t.m, n, x)
  {
    hide Inv, HostWrite, Writes, CursorStep, Foreground, Charged, Geo.WellFormed, Geo.Rank, Geo.PgsPerLine;
    ChargedOk(g, s, n, x);
    var u := Charged(g, s, n, x).value;
    var u1 := u.(writeCredits := s.writeCredits);
    CreditsLeft(g, s, u1, n, x);
    assert u == u1.(writeCredits := u1.writeCredits - 1);
    if u.writeCredits == 0 {
      Refilled(g, s, u1, ageUs, r, t.(writeCredits := t.writeCredits - t.creditsToRefill), n, x);
    }
  }

  /** The cursor moves to the next page of its one-shot page, or to the start of another one. */
  lemma NextOffset(g: Geo, c: Ppa)
    requires g.WellFormed() && g.ValidPpa(c) && g.IsSlc(c.blk)
    ensures var a := g.pgsPerOneshotSlc;
      && (CursorStep(g, c).Same? ==>
            CursorStep(g, c).next.pg % a == if c.pg % a == a - 1 then 0 else c.pg % a + 1)
      && (CursorStep(g, c).LineUsedUp? ==> c.pg % a == a - 1)
  {
    PgStep(c.pg, g.pgsPerOneshotSlc, g.oneshotsPerBlk);
  }

  ghost predicate PointerMoved(g: Geo, c: Ppa, c': Ppa) {
    match CursorStep(g, c)
    case Same(next) => c' == next
    case LineUsedUp => c'.pg == 0
  }

  /** A page write moves the host pointer by one page; the round it sets off does not move it. */
  lemma HostPointer(g: Geo, s: State, n: nat, x: int, ageUs: seq<int>, r: Round, t: State)
    requires Steady(g, s) && n < |s.m.maptbl| && PageWritten(g, s, n, x, ageUs, r, t)
    ensures g.WellFormed() && g.ValidPpa(s.wp) && g.IsSlc(s.wp.blk) && PointerMoved(g, s.wp, t.wp)
  {
    hide Inv, HostWrite, Writes, Foreground, Charged, CursorStep, Domains, Geo.ValidPpa, Geo.WellFormed, Geo.Rank,
      Geo.PgsPerLine;
    HostCursor(g, s);
    ChargedOk(g, s, n, x);
    var u := Charged(g, s, n, x).value;
    if u.writeCredits == 0 {
      ForegroundEffect(g, u, ageUs, r, t.(writeCredits := t.writeCredits - t.creditsToRefill));
    }
  }

  lemma HostCursor(g: Geo, s: State)
    requires Quiescent(g, s)
    ensures g.WellFormed() && g.ValidPpa(s.wp) && g.IsSlc(s.wp.blk) && g.pgsPerOneshotSlc > 0
  {}

  /** How many pages of its one-shot page the host pointer has behind it. */
  function Offset(g: Geo, c: Ppa): nat
    requires g.pgsPerOneshotSlc > 0
  {
    c.pg % g.pgsPerOneshotSlc
  }

  lemma OffsetMoves(g: Geo, c: Ppa, c': Ppa)
    requires g.WellFormed() && g.ValidPpa(c) && g.IsSlc(c.blk) && PointerMoved(g, c, c')
    ensures Offset(g, c) < g.pgsPerOneshotSlc
    ensures Offset(g, c') == if Offset(g, c) == g.pgsPerOneshotSlc - 1 then 0 else Offset(g, c) + 1
  {
    NextOffset(g, c);
  }
}
