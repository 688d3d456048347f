/** The FTL of conv_ftl.c as an object. Each method's effect on the abstract state S() is a
    function of the state it found, or a relation proved about the whole collection; the C
    code's NVMEV_ASSERTs appear as assert statements. */
module ConvFtl {
  import opened Wrappers
  import opened Radix
  import opened Geometry
  import opened FtlState
  import opened FtlSteps
  import opened FtlOps
  import opened FtlGc
  import opened FtlBounds
  import opened FtlInit
  import opened FtlSweep
  import opened FtlFlow
  import opened FtlVictim
  import opened LineMgmt
  import Pq = Pqueue

  datatype LineMode = SlcMode | TlcMode

  function Vpcs(ls: seq<Pq.Line>): (r: seq<int>)
    ensures |r| == |ls| && forall i :: 0 <= i < |ls| ==> r[i] == ls[i].vpc
  {
    seq(|ls|, i requires 0 <= i < |ls| => ls[i].vpc)
  }

  function Ipcs(ls: seq<Pq.Line>): (r: seq<int>)
    ensures |r| == |ls| && forall i :: 0 <= i < |ls| ==> r[i] == ls[i].ipc
  {
    seq(|ls|, i requires 0 <= i < |ls| => ls[i].ipc)
  }

  lemma SameCounters(ls: seq<Pq.Line>, ls': seq<Pq.Line>, lo: nat, hi: nat)
    requires Repositioned(ls, ls', lo, hi)
    ensures Vpcs(ls') == Vpcs(ls) && Ipcs(ls') == Ipcs(ls)
  {}

  lemma CountersUpdate(ls: seq<Pq.Line>, x: nat, line: Pq.Line)
    requires x < |ls|
    ensures Vpcs(ls[x := line]) == Vpcs(ls)[x := line.vpc] && Ipcs(ls[x := line]) == Ipcs(ls)[x := line.ipc]
  {}

  lemma VpcIpcAt(ls: seq<Pq.Line>, l: nat)
    requires l < |ls|
    ensures Vpcs(ls)[l] == ls[l].vpc && Ipcs(ls)[l] == ls[l].ipc
  {}

  lemma NoCounts(ls: seq<Pq.Line>)
    requires forall i :: 0 <= i < |ls| ==> ls[i] == Pq.Line(0, 0, 0)
    ensures Vpcs(ls) == Zeros(|ls|) && Ipcs(ls) == Zeros(|ls|)
  {}

  /** A region without its first free line. */
  function FirstTaken(r: Region): Region
    requires r.free != []
  {
    r.(free := r.free[1..], freeCnt := r.freeCnt - 1)
  }

  class Partition {
    const g: Geo
    const lines: array<Pq.Line> // lines of both regions, indexed by line id
    const slm: LineMgmt
    const lm: LineMgmt
    var maptbl: seq<Option<Ppa>>
    var rmap: seq<Option<nat>>
    var status: map<Ppa, PageStatus>
    var blkVpc: map<Block, int>
    var blkIpc: map<Block, int>
    var wp: Ppa
    var gcWp: Ppa
    var writeCredits: int
    var creditsToRefill: int
    var dynSlcMode: LineMode
    ghost var data: map<Ppa, int> // what each page was last programmed with

    ghost function Repr(): set<object> {
      {this, lines, slm, lm, slm.pq, lm.pq, slm.pq.d, lm.pq.d}
    }

    ghost function S(): State
      reads Repr()
    {
      State(Mapping(maptbl, rmap, data),
            Flash(status, blkVpc, blkIpc, Vpcs(lines[..]), Ipcs(lines[..])),
            slm.Lists(), lm.Lists(), wp, gcWp, writeCredits, creditsToRefill)
    }

    /** The parts are distinct objects, and each region covers its lines. */
    ghost predicate Rep()
      reads Repr()
    {
      && slm != lm && slm.pq != lm.pq && slm.pq.d != lm.pq.d
      && slm.lines == lines && lm.lines == lines && lines.Length == g.Lines()
      && slm.lo == 0 && slm.hi == g.slcLines == lm.lo && lm.hi == g.Lines()
      && slm.Valid() && lm.Valid()
    }

    // ---------- Initialisation ----------

    /** conv_init_ftl: needs a line for each of the two write pointers. */
    constructor (g: Geo)
      requires g.WellFormed() && g.slcLines >= 1 && g.tlcLines >= 1
      ensures this.g == g && fresh(Repr())
      ensures Rep() && S() == FreshState(g)
    {
      hide HeapOk, Vpcs, Ipcs, Geo.WellFormed, AllPages, AllBlocks, Zeros, Nones, Ids;
      this.g := g;
      var ls := new Pq.Line[g.Lines()](_ => Pq.Line(0, 0, 0));
      lines := ls;
      slm := new LineMgmt(ls, 0, g.slcLines);
      lm := new LineMgmt(ls, g.slcLines, g.Lines());
      maptbl, rmap, data := FreshMapping(g).maptbl, FreshMapping(g).rmap, FreshMapping(g).data;
      status, blkVpc, blkIpc := FreshFlash(g).status, FreshFlash(g).blkVpc, FreshFlash(g).blkIpc;
      wp, gcWp := Ppa(0, 0, 0, 0), Ppa(0, 0, g.slcLines, 0);
      dynSlcMode := TlcMode;
      writeCredits, creditsToRefill := g.PgsPerLine(0), g.PgsPerLine(0);
      new;
      NoCounts(ls[..]);
      StartWriting();
    }

    /** The list part of init_lines. */
    method InitLines()
      requires Rep() && slm.Lists() == lm.Lists() == Region([], [], {}, 0, 0, 0)
      modifies slm`free, slm`freeCnt, lm`free, lm`freeCnt
      ensures Rep()
      ensures S() == old(S()).(slm := Region(Ids(0, g.slcLines), [], {}, g.slcLines, 0, 0),
                               lm := Region(Ids(g.slcLines, g.Lines()), [], {}, g.tlcLines, 0, 0))
    {
      hide HeapOk, Vpcs, Ipcs, Ids;
      slm.InitLines();
      lm.InitLines();
    }

    /** prepare_write_pointer, for the host's pointer or that of collections; the assertion is
        that the region has a free line. */
    method PrepareWritePointer(userIo: bool)
      requires Rep() && (if userIo then S().slm else S().lm).free != []
      modifies this`wp, this`gcWp, this`dynSlcMode, slm`free, slm`freeCnt, lm`free, lm`freeCnt
      ensures Rep()
      ensures S() == if userIo then old(S()).(slm := FirstTaken(old(S()).slm), wp := Ppa(0, 0, old(S()).slm.free[0], 0))
                     else old(S()).(lm := FirstTaken(old(S()).lm), gcWp := Ppa(0, 0, old(S()).lm.free[0], 0))
    {
      hide HeapOk, Vpcs, Ipcs;
      dynSlcMode := if userIo then SlcMode else TlcMode;
      var found, l := GetNextFreeLine();
      assert found;
      if userIo {
        wp := Ppa(0, 0, l, 0);
      } else {
        gcWp := Ppa(0, 0, l, 0);
      }
    }

    /** The part of conv_init_ftl from init_lines on. */
    method StartWriting()
      requires Rep() && slm.Lists() == lm.Lists() == Region([], [], {}, 0, 0, 0)
      requires g.slcLines >= 1 && g.tlcLines >= 1
      modifies this`wp, this`gcWp, this`dynSlcMode, slm`free, slm`freeCnt, lm`free, lm`freeCnt
      ensures Rep()
      ensures S() == old(S()).(slm := FreshRegion(0, g.slcLines), lm := FreshRegion(g.slcLines, g.Lines()),
                               wp := Ppa(0, 0, 0, 0), gcWp := Ppa(0, 0, g.slcLines, 0))
    {
      hide Rep, Ids;
      InitLines();
      PrepareWritePointer(true);
      PrepareWritePointer(false);
    }

    /** Takes the first free line of the region that dynSlcMode selects. */
    method GetNextFreeLine() returns (found: bool, l: nat)
      requires Rep()
      modifies slm`free, slm`freeCnt, lm`free, lm`freeCnt
      ensures Rep()
      ensures var r := if dynSlcMode == SlcMode then old(S()).slm else old(S()).lm;
        && (found <==> r.free != [])
        && (found ==> l == r.free[0])
        && S() == if !found then old(S())
                  else if dynSlcMode == SlcMode then old(S()).(slm := FirstTaken(r))
                  else old(S()).(lm := FirstTaken(r))
    {
      hide HeapOk, Vpcs, Ipcs;
      if dynSlcMode == SlcMode {
        found, l := slm.TakeFree();
      } else {
        found, l := lm.TakeFree();
      }
    }

    // ---------- Page states ----------

    /** Writes the counters of a line that is in no victim heap. */
    method SetCounters(l: nat, vpc: int, ipc: int)
      requires Rep() && l < lines.Length && lines[l].pos == 0
      modifies lines
      ensures Rep()
      ensures S() == old(S()).(f := old(S()).f.(vpc := old(S()).f.vpc[l := vpc], ipc := old(S()).f.ipc[l := ipc]))
    {
      ghost var ls, line := lines[..], lines[l].(vpc := vpc, ipc := ipc);
      CountersUpdate(ls, l, line);
      HeapFrameLine(slm.pq.d[..], ls, l, line, slm.pq.size, slm.pq.elems, slm.lo, slm.hi);
      HeapFrameLine(lm.pq.d[..], ls, l, line, lm.pq.size, lm.pq.elems, lm.lo, lm.hi);
      hide HeapOk, Vpcs, Ipcs;
      lines[l] := lines[l].(vpc := vpc, ipc := ipc);
      assert lines[..] == ls[l := line];
    }

    method MarkPageValid(p: Ppa)
      requires Rep() && p in status && BlockOf(p) in blkVpc && p.blk < lines.Length
      requires status[p] == PgFree && lines[p.blk].pos == 0
      requires 0 <= blkVpc[BlockOf(p)] < g.PgsPerBlk(p.blk) && 0 <= lines[p.blk].vpc < g.PgsPerLine(p.blk)
      modifies `status, `blkVpc, lines
      ensures Rep() && S() == old(S()).(f := SetValid(old(S()).f, p))
    {
      hide HeapOk, Vpcs, Ipcs;
      assert status[p] == PgFree;
      status := status[p := PgValid];
      var b := BlockOf(p);
      assert blkVpc[b] >= 0 && blkVpc[b] < g.PgsPerBlk(p.blk);
      blkVpc := blkVpc[b := blkVpc[b] + 1];
      assert lines[p.blk].vpc >= 0 && lines[p.blk].vpc < g.PgsPerLine(p.blk);
      SetCounters(p.blk, lines[p.blk].vpc + 1, lines[p.blk].ipc);
      assert S().f.ipc == old(S()).f.ipc;
    }

    method MarkPageInvalid(p: Ppa)
      requires Rep() && Quiescent(g, S()) && p in status && status[p] == PgValid
      modifies `status, `blkVpc, `blkIpc, Repr() - {this}
      ensures Sized(g, old(S())) && Rep() && S() == MarkInvalid(g, old(S()), p)
    {
      hide HeapOk, Vpcs, Ipcs, Inv, Domains, Without, Geo.WellFormed, Geo.ValidPpa, Geo.PgsPerLine, Geo.PgsPerBlk;
      ghost var s := S();
      CursorsSized(g, s, NoLine(g), {});
      InvalidBounds(g, s, p);
      VpcIpcAt(lines[..], p.blk);
      var b := BlockOf(p);
      status := status[p := PgInvalid];
      assert blkIpc[b] >= 0 && blkIpc[b] < g.PgsPerBlk(p.blk);
      blkIpc := blkIpc[b := blkIpc[b] + 1];
      assert blkVpc[b] > 0 && blkVpc[b] <= g.PgsPerBlk(p.blk);
      blkVpc := blkVpc[b := blkVpc[b] - 1];
      LosePage(p.blk);
    }

    /** The line part of mark_page_invalid, on the region the line belongs to. */
    method LosePage(l: nat)
      requires Rep() && l < lines.Length
      requires 0 <= lines[l].ipc < g.PgsPerLine(l) && 0 < lines[l].vpc <= g.PgsPerLine(l)
      requires lines[l].vpc == g.PgsPerLine(l) ==> lines[l].ipc == 0 && l !in slm.pq.elems && l !in lm.pq.elems
      modifies Repr() - {this}
      ensures Rep()
      ensures var s := old(S());
        var s1 := s.(f := s.f.(vpc := s.f.vpc[l := s.f.vpc[l] - 1], ipc := s.f.ipc[l := s.f.ipc[l] + 1]));
        S() == if g.IsSlc(l) then s1.(slm := Demote(g, s.f, s.slm, l)) else s1.(lm := Demote(g, s.f, s.lm, l))
    {
      hide HeapOk, Vpcs, Ipcs, Geo.PgsPerLine, Without;
      ghost var ls := lines[..];
      ghost var ls1 := ls[l := LessOne(ls[l])];
      VpcIpcAt(ls, l);
      CountersUpdate(ls, l, LessOne(ls[l]));
      if g.IsSlc(l) {
        OtherLine(lm.pq.d[..], ls, l, lm.pq.size, lm.pq.elems, lm.lo, lm.hi);
        slm.LosePage(l, g.PgsPerLine(l));
        OtherHeapKept(lm.pq.d[..], ls1, lines[..], lm.pq.size, lm.pq.elems, slm.lo, slm.hi, lm.lo, lm.hi);
        SameCounters(ls1, lines[..], slm.lo, slm.hi);
      } else {
        OtherLine(slm.pq.d[..], ls, l, slm.pq.size, slm.pq.elems, slm.lo, slm.hi);
        lm.LosePage(l, g.PgsPerLine(l));
        OtherHeapKept(slm.pq.d[..], ls1, lines[..], slm.pq.size, slm.pq.elems, lm.lo, lm.hi, slm.lo, slm.hi);
        SameCounters(ls1, lines[..], lm.lo, lm.hi);
      }
    }

    // ---------- Write pointers ----------

    /** The pointer arithmetic of advance_write_pointer, for a region with the given sizes. */
    method StepPointer(c: Ppa, pgsPerOneshotpg: nat, pgsPerBlk: nat) returns (usedUp: bool, next: Ppa)
      requires g.WellFormed() && g.ValidPpa(c) && pgsPerOneshotpg == g.Oneshot(c.blk) && pgsPerBlk == g.PgsPerBlk(c.blk)
      ensures usedUp <==> NextInLine(g, c) == LineUsedUp
      ensures !usedUp ==> NextInLine(g, c) == Same(next)
    {
      PgStep(c.pg, pgsPerOneshotpg, g.oneshotsPerBlk);
      usedUp, next := false, c;
      assert 0 <= next.pg < pgsPerBlk;
      next := next.(pg := next.pg + 1);
      if next.pg % pgsPerOneshotpg != 0 {
        return;
      }
      next := next.(pg := next.pg - pgsPerOneshotpg);
      assert 0 <= next.ch < g.nchs;
      next := next.(ch := next.ch + 1);
      if next.ch != g.nchs {
        return;
      }
      next := next.(ch := 0);
      assert 0 <= next.lun < g.lunsPerCh;
      next := next.(lun := next.lun + 1);
      if next.lun != g.lunsPerCh {
        return;
      }
      next := next.(lun := 0, pg := next.pg + pgsPerOneshotpg);
      if next.pg != pgsPerBlk {
        return;
      }
      usedUp := true;
    }

    /** Moves the host pointer (gc false) or the GC pointer past the page just programmed.
        Not ok means that the region has no free line, where the C code stops the kernel. */
    method AdvanceWritePointer(gc: bool, ghost v: nat, ghost done: set<Ppa>) returns (ok: bool)
      requires Rep() && Programmed(g, S(), v, done, !gc)
      modifies `wp, `gcWp, `dynSlcMode, Repr() - {this}
      ensures Sized(g, old(S()))
      ensures ok <==> AdvanceWp(g, old(S()), !gc).Some?
      ensures ok ==> Rep() && S() == AdvanceWp(g, old(S()), !gc).value
      ensures dynSlcMode == old(dynSlcMode) || dynSlcMode == (if gc then TlcMode else SlcMode)
    {
      hide HeapOk, Vpcs, Ipcs, Programmed, Sized, AdvanceWp, Advance, Close, Geo.WellFormed, Geo.ValidPpa,
        Geo.PgsPerLine, Geo.PgsPerBlk, NextInLine;
      ghost var s := S();
      AdvanceFacts(g, s, v, done, !gc);
      AdvanceUnfold(g, s, !gc);
      var c := if gc then gcWp else wp;
      var usedUp, next := StepPointer(c, g.Oneshot(c.blk), g.PgsPerBlk(c.blk));
      if !usedUp {
        if gc { gcWp := next; } else { wp := next; }
        return true;
      }
      CloseLine(c.blk);
      ok := OpenNextLine(gc);
    }

    /** The end of advance_write_pointer: the next free line becomes the open line. */
    method OpenNextLine(gc: bool) returns (ok: bool)
      requires Rep()
      modifies `wp, `gcWp, `dynSlcMode, slm`free, slm`freeCnt, lm`free, lm`freeCnt
      ensures dynSlcMode == if gc then TlcMode else SlcMode
      ensures var r := if gc then old(S()).lm else old(S()).slm;
        && (ok <==> r.free != [])
        && (ok ==>
              var r1 := r.(free := r.free[1..], freeCnt := r.freeCnt - 1);
              && Rep()
              && S() == if gc then old(S()).(lm := r1, gcWp := Ppa(0, 0, r.free[0], 0))
                        else old(S()).(slm := r1, wp := Ppa(0, 0, r.free[0], 0)))
    {
      hide HeapOk, Vpcs, Ipcs;
      dynSlcMode := if gc then TlcMode else SlcMode;
      var l;
      ok, l := GetNextFreeLine();
      if ok {
        if gc { gcWp := Ppa(0, 0, l, 0); } else { wp := Ppa(0, 0, l, 0); }
      }
    }

    /** The list part of advance_write_pointer, on the region the line belongs to. */
    method CloseLine(l: nat)
      requires Rep() && l < lines.Length && l !in slm.pq.elems && l !in lm.pq.elems
      requires 0 <= lines[l].vpc && 0 <= lines[l].ipc && lines[l].vpc + lines[l].ipc == g.PgsPerLine(l)
      modifies Repr() - {this}
      ensures Rep()
      ensures var s := old(S());
        S() == if g.IsSlc(l) then s.(slm := Close(g, s.f, s.slm, l)) else s.(lm := Close(g, s.f, s.lm, l))
    {
      hide HeapOk, Vpcs, Ipcs, Geo.PgsPerLine;
      ghost var ls := lines[..];
      VpcIpcAt(ls, l);
      if g.IsSlc(l) {
        slm.CloseLine(l, g.PgsPerLine(l));
        OtherHeapKept(lm.pq.d[..], ls, lines[..], lm.pq.size, lm.pq.elems, slm.lo, slm.hi, lm.lo, lm.hi);
        SameCounters(ls, lines[..], slm.lo, slm.hi);
      } else {
        lm.CloseLine(l, g.PgsPerLine(l));
        OtherHeapKept(slm.pq.d[..], ls, lines[..], slm.pq.size, slm.pq.elems, lm.lo, lm.hi, slm.lo, slm.hi);
        SameCounters(ls, lines[..], lm.lo, lm.hi);
      }
    }

    // ---------- Collecting a line ----------

    /** Copies one valid page of the victim to the GC pointer. */
    method GcWritePage(p: Ppa, ghost s0: State, ghost v: nat, ghost done: set<Ppa>) returns (ok: bool)
      requires Rep() && Collecting(g, s0, S(), v, done)
      requires p in status && p.blk == v && status[p] == PgValid && p !in done
      modifies `maptbl, `rmap, `data, `status, `blkVpc, `wp, `gcWp, `dynSlcMode, Repr() - {this}
      ensures Sized(g, old(S())) && g.Idx(p) < |old(rmap)| && old(rmap)[g.Idx(p)].Some? && p in old(data)
      ensures old(rmap)[g.Idx(p)].value < |old(maptbl)|
      ensures ok <==> TlcSpace(g, old(S())) != 1
      ensures ok ==> Rep() && Some(S()) == CopyPage(g, old(S()), p) && Collecting(g, s0, S(), v, done + {p})
      ensures ok ==> SameVictim(old(status), status, v)
      ensures dynSlcMode == SlcMode ==> old(dynSlcMode) == SlcMode
    {
      hide HeapOk, Vpcs, Ipcs, Inv, Domains, AdvanceWp, Collecting, Programmed, TlcSpace, Geo.WellFormed,
        Geo.ValidPpa, Geo.PgsPerLine, Geo.PgsPerBlk, Geo.Idx;
      ghost var s := S();
      CollectingInv(g, s0, s, v, done);
      CopyPageOk(g, s0, s, v, done, p);
      ToCopy(g, s0, s, v, done, p);
      ProgramBounds(g, s, v, done, false);
      NotInHeap(gcWp.blk);
      VpcIpcAt(lines[..], gcWp.blk);
      CursorIndex(g, s);
      var lpn := rmap[g.Idx(p)].value;
      assert lpn < |maptbl|;
      var newPpa := gcWp;
      ProgramOk(g, s, v, done, lpn, false, data[p], done + {p});
      maptbl := maptbl[lpn := Some(newPpa)];
      rmap := rmap[g.Idx(newPpa) := Some(lpn)];
      data := data[newPpa := data[p]];
      MarkPageValid(newPpa);
      assert S() == Program(g, s, lpn, false, s.m.data[p]);
      ok := AdvanceWritePointer(true, v, done + {p});
    }

    /** Outside the victim heaps a line's stored position is 0. */
    lemma NotInHeap(l: nat)
      requires Rep() && l < lines.Length && l !in slm.pq.elems && l !in lm.pq.elems
      ensures lines[l].pos == 0
    {}

    /** Handles the pages of one flash page, starting at page base of block b: the valid ones
        are copied, in one go with the read counted first. */
    method CleanOneFlashpg(b: Block, base: nat, ghost s0: State, ghost done: set<Ppa>) returns (ok: bool)
      requires Rep() && Collecting(g, s0, S(), b.blk, done)
      requires forall p :: p in PagesOf(b, base, base + g.pgsPerFlashpg) ==> p in status && p !in done
      requires dynSlcMode == SlcMode ==> g.IsSlc(b.blk)
      modifies `maptbl, `rmap, `data, `status, `blkVpc, `wp, `gcWp, `dynSlcMode, Repr() - {this}
      ensures ok ==> Rep() && Collecting(g, s0, S(), b.blk, done + PagesOf(b, base, base + g.pgsPerFlashpg))
      ensures ok ==> SameVictim(old(status), status, b.blk)
      ensures !ok ==> TlcSpace(g, s0) <= |InLine(s0.f.status, b.blk, PgValid)|
      ensures dynSlcMode == SlcMode ==> g.IsSlc(b.blk)
    {
      hide HeapOk, Vpcs, Ipcs, Inv, MovedOutOf, SameView, TlcSpace, Geo.WellFormed, Geo.ValidPpa, Geo.Idx;
      if dynSlcMode == SlcMode {
        assert b.blk < g.slcLines;
      }
      var cnt := CountValid(b, base, s0, done);
      if cnt == 0 {
        NoneValid(status, PagesOf(b, base, base + g.pgsPerFlashpg));
        PassOverAll(g, s0, S(), b.blk, done, PagesOf(b, base, base + g.pgsPerFlashpg));
        return true;
      }
      ok := CopyValid(b, base, s0, done);
    }

    /** The second loop of clean_one_flashpg. */
    method CopyValid(b: Block, base: nat, ghost s0: State, ghost done: set<Ppa>) returns (ok: bool)
      requires Rep() && Collecting(g, s0, S(), b.blk, done)
      requires forall p :: p in PagesOf(b, base, base + g.pgsPerFlashpg) ==> p in status && p !in done
      requires dynSlcMode == SlcMode ==> g.IsSlc(b.blk)
      modifies `maptbl, `rmap, `data, `status, `blkVpc, `wp, `gcWp, `dynSlcMode, Repr() - {this}
      ensures ok ==> Rep() && Collecting(g, s0, S(), b.blk, done + PagesOf(b, base, base + g.pgsPerFlashpg))
      ensures ok ==> SameVictim(old(status), status, b.blk)
      ensures !ok ==> TlcSpace(g, s0) <= |InLine(s0.f.status, b.blk, PgValid)|
      ensures dynSlcMode == SlcMode ==> g.IsSlc(b.blk)
    {
      hide HeapOk, Vpcs, Ipcs, Collecting, CopyPage, TlcSpace, PagesOf, Geo.WellFormed, Geo.ValidPpa, Geo.Idx;
      NoPagesYet(done, b, base);
      ok := true;
      for i: nat := 0 to g.pgsPerFlashpg
        invariant Rep() && Collecting(g, s0, S(), b.blk, done + PagesOf(b, base, base + i))
        invariant SameVictim(old(status), status, b.blk)
        invariant dynSlcMode == SlcMode ==> g.IsSlc(b.blk)
      {
        var p := Ppa(b.ch, b.lun, b.blk, base + i);
        ghost var sofar := done + PagesOf(b, base, base + i);
        PagesOfIs(b, base, base + g.pgsPerFlashpg, p);
        OneMorePage(done, b, base, i);
        if status[p] == PgValid {
          ghost var s := S();
          ok := GcWritePage(p, s0, b.blk, sofar);
          if !ok {
            CopyFails(g, s0, s, b.blk, sofar, p);
            return;
          }
        } else {
          PassOver(g, s0, S(), b.blk, sofar, p);
        }
      }
    }

    /** Counts the valid pages of a flash page of the victim; none of its pages is free. */
    method CountValid(b: Block, base: nat, ghost s0: State, ghost done: set<Ppa>) returns (cnt: nat)
      requires Collecting(g, s0, S(), b.blk, done)
      requires forall p :: p in PagesOf(b, base, base + g.pgsPerFlashpg) ==> p in status && p !in done
      ensures cnt == |ValidAmong(status, PagesOf(b, base, base + g.pgsPerFlashpg))|
    {
      hide Inv, MovedOutOf, SameView, TlcSpace, Moved, HeapOk, ValidAmong, PagesOf;
      cnt := 0;
      NoneYet(status, b, base);
      for i: nat := 0 to g.pgsPerFlashpg
        invariant cnt == |ValidAmong(status, PagesOf(b, base, base + i))|
      {
        var p := Ppa(b.ch, b.lun, b.blk, base + i);
        PagesOfIs(b, base, base + g.pgsPerFlashpg, p);
        assert status[p] != PgFree;
        OneMoreValid(status, b, base, i);
        if status[p] == PgValid {
          cnt := cnt + 1;
        }
      }
    }

    method MarkBlockFree(b: Block)
      requires b in blkVpc && b in blkIpc && ValidBlock(g, b)
      requires forall p :: p in status <==> g.ValidPpa(p)
      modifies `status, `blkVpc, `blkIpc
      ensures S() == old(S()).(f := EraseBlock(old(S()).f, b))
    {
      hide HeapOk, Geo.PgsPerBlk;
      for i: nat := 0 to g.PgsPerBlk(b.blk)
        invariant status.Keys == old(status).Keys && blkVpc == old(blkVpc) && blkIpc == old(blkIpc)
        invariant forall p :: p in status ==>
          status[p] == if BlockOf(p) == b && p.pg < i then PgFree else old(status)[p]
      {
        status := status[Ppa(b.ch, b.lun, b.blk, i) := PgFree];
      }
      assert status == EraseBlock(old(S()).f, b).status;
      blkIpc := blkIpc[b := 0];
      blkVpc := blkVpc[b := 0];
    }

    method MarkLineFree(l: nat)
      requires Rep() && l < lines.Length && l !in slm.pq.elems && l !in lm.pq.elems
      modifies lines, slm`free, slm`freeCnt, lm`free, lm`freeCnt
      ensures Rep() && S() == FinishLine(g, old(S()), l)
    {
      hide HeapOk, Vpcs, Ipcs;
      NotInHeap(l);
      SetCounters(l, 0, 0);
      if g.IsSlc(l) {
        slm.free := slm.free + [l];
        slm.freeCnt := slm.freeCnt + 1;
      } else {
        lm.free := lm.free + [l];
        lm.freeCnt := lm.freeCnt + 1;
      }
    }

    // ---------- Choosing a victim ----------

    /** Takes TLC victim x out of its heap. */
    method RemoveVictim(x: nat)
      requires Rep() && x in lm.pq.elems
      modifies Repr() - {this}
      ensures Rep() && S() == old(S()).(lm := TakeVictim(old(S()).lm, x))
    {
      hide HeapOk, Vpcs, Ipcs;
      ghost var ls := lines[..];
      lm.RemoveVictim(x);
      OtherHeapKept(slm.pq.d[..], ls, lines[..], slm.pq.size, slm.pq.elems, lm.lo, lm.hi, slm.lo, slm.hi);
      SameCounters(ls, lines[..], lm.lo, lm.hi);
    }

    /** Pops the root of the SLC heap. */
    method PopVictimSlc() returns (x: nat)
      requires Rep() && slm.pq.elems != {}
      modifies Repr() - {this}
      ensures Rep() && S() == old(S()).(slm := TakeVictim(old(S()).slm, x))
      ensures old(slm.pq.size) > 1 && x == old(slm.pq.d[1])
    {
      hide HeapOk, Vpcs, Ipcs;
      ghost var ls := lines[..];
      x := slm.PopVictim();
      OtherHeapKept(lm.pq.d[..], ls, lines[..], lm.pq.size, lm.pq.elems, slm.lo, slm.hi, lm.lo, lm.hi);
      SameCounters(ls, lines[..], slm.lo, slm.hi);
    }

    /** Greedy choice in the SLC region: the victim with the fewest valid pages; with no victims,
        the line that has been full longest. Unless forced, a victim more than an eighth valid
        is left alone. */
    method SelectVictimLineSlc(force: bool) returns (found: bool, l: nat)
      requires Rep() && Quiescent(g, S())
      modifies Repr() - {this}
      ensures found ==> ChosenSlc(old(S()), l) && l < g.slcLines
      ensures found ==> Rep() && S() == TakeSlc(old(S()), l)
      ensures !found ==> Rep() && S() == old(S())
      ensures old(S()).slm.victims == {} ==> (found <==> old(S()).slm.full != [])
      ensures found && old(S()).slm.victims == {} ==> old(S()).slm.full != [] && l == old(S()).slm.full[0]
      ensures old(S()).slm.victims != {} ==>
        if found then force || old(S()).f.vpc[l] <= g.PgsPerLine(0) / 8
        else !force && forall y :: y in old(S()).slm.victims && y < |old(S()).f.vpc| ==>
          old(S()).f.vpc[y] > g.PgsPerLine(0) / 8
    {
      hide HeapOk, Vpcs, Ipcs, Inv, Geo.PgsPerLine;
      ghost var s := S();
      SlcListed(g, s);
      found, l := slm.PeekVictim();
      if !found {
        if slm.full == [] {
          return false, 0;
        }
        found, l := true, slm.full[0];
        assert l in s.slm.full;
        slm.full := slm.full[1..];
        slm.fullCnt := slm.fullCnt - 1;
        return;
      }
      VpcsAt(lines[..]);
      if !force && lines[l].vpc > g.PgsPerLine(0) / 8 {
        return false, 0;
      }
      l := PopVictimSlc();
    }

    /** Cost-benefit choice in the TLC region: of the victims, the first in heap order whose
        cost is least. ageUs gives each line's microseconds since its last invalidation. */
    method SelectVictimLine(ageUs: seq<int>) returns (found: bool, l: nat)
      requires Rep() && Quiescent(g, S()) && |ageUs| == g.Lines()
      modifies Repr() - {this}
      ensures found <==> old(S()).lm.victims != {}
      ensures found ==> ChosenTlc(g, old(S()), ageUs, l) && Preferred(old(S()), ageUs, l)
      ensures Rep() && S() == if found then old(S()).(lm := TakeVictim(old(S()).lm, l)) else old(S())
    {
      hide HeapOk, Vpcs, Ipcs, Inv, Geo.PgsPerLine, Pq.Ordered, Preferred;
      ghost var s := S();
      VictimCosts(g, s, ageUs);
      VpcsAt(lines[..]);
      IpcsAt(lines[..]);
      found, l := false, 0;
      ListedVictims(lm.pq.d[..], lines[..], lm.pq.size, lm.pq.elems, lm.lo, lm.hi);
      var cbMin := LLONG_MAX;
      for i: nat := 1 to lm.pq.size
        invariant forall j :: 1 <= j < i ==> found && cbMin <= LineCost(g, s, ageUs, lm.pq.d[j])
        invariant found ==> l in s.lm.victims && l < |s.f.vpc| && cbMin == LineCost(g, s, ageUs, l)
        invariant !found ==> cbMin == LLONG_MAX
      {
        var x := lm.pq.d[i];
        if lines[x].ipc != 0 {
          var cur := CostBenefit(lines[x].vpc, g.PgsPerLine(x), AgeLevel(ageUs[x]));
          if cur < cbMin {
            found, cbMin, l := true, cur, x;
          }
        }
      }
      if found {
        forall y | y in s.lm.victims ensures cbMin <= LineCost(g, s, ageUs, y) {
          assert lm.pq.d[lines[y].pos] == y;
        }
        ChosenPreferred(g, s, ageUs, l);
        RemoveVictim(l);
      }
    }

    // ---------- do_gc ----------

    /** One round of do_gc: flash page flashpg of every block of the victim. In the last round
        each block is erased as soon as it has been handled. */
    method CleanAcross(v: nat, flashpg: nat, ghost s0: State, ghost done0: set<Ppa>)
        returns (ok: bool, ghost done: set<Ppa>)
      requires Rep() && Collecting(g, s0, S(), v, done0) && g.WellFormed()
      requires flashpg < g.FlashpgsPerBlk(v) && Swept(g, v, done0, flashpg, 0, 0)
      requires dynSlcMode == SlcMode ==> g.IsSlc(v)
      modifies Repr()
      ensures ok ==> Rep() && Collecting(g, s0, S(), v, done) && Swept(g, v, done, flashpg + 1, 0, 0)
      ensures ok && flashpg + 1 == g.FlashpgsPerBlk(v) ==> AllFree(status, v)
      ensures !ok ==> TlcSpace(g, s0) <= |InLine(s0.f.status, v, PgValid)|
      ensures dynSlcMode == SlcMode ==> g.IsSlc(v)
    {
      hide HeapOk, Vpcs, Ipcs, Collecting, Swept, Erased, Domains, TlcSpace, Sized, AllFree, Geo.FlashpgsPerBlk,
        Geo.ValidPpa;
      done := done0;
      ok := true;
      var last := flashpg + 1 == g.FlashpgsPerBlk(v);
      CollectingDomains(g, s0, S(), v, done);
      assert Erased(g, status, v, 0, 0) by { ErasedNone(g, status, v); }
      for ch: nat := 0 to g.nchs
        invariant Rep() && Collecting(g, s0, S(), v, done) && Swept(g, v, done, flashpg, ch, 0)
        invariant last ==> Erased(g, status, v, ch, 0)
        invariant dynSlcMode == SlcMode ==> g.IsSlc(v)
      {
        for lun: nat := 0 to g.lunsPerCh
          invariant Rep() && Collecting(g, s0, S(), v, done) && Swept(g, v, done, flashpg, ch, lun)
          invariant last ==> Erased(g, status, v, ch, lun)
          invariant dynSlcMode == SlcMode ==> g.IsSlc(v)
        {
          ok, done := CleanDie(v, flashpg, ch, lun, s0, done);
          if !ok {
            return;
          }
        }
        SweepCh(g, v, done, flashpg, ch);
        CollectingDomains(g, s0, S(), v, done);
        if last { ErasedCh(g, S().m, S().f, v, ch); }
      }
      SweepFlashpg(g, v, done, flashpg);
      CollectingDomains(g, s0, S(), v, done);
      if last { ErasedAll(g, S().m, S().f, v); }
    }

    /** The body of the loops of do_gc. */
    method CleanDie(v: nat, flashpg: nat, ch: nat, lun: nat, ghost s0: State, ghost done0: set<Ppa>)
        returns (ok: bool, ghost done: set<Ppa>)
      requires Rep() && Collecting(g, s0, S(), v, done0) && g.WellFormed() && ch < g.nchs && lun < g.lunsPerCh
      requires flashpg < g.FlashpgsPerBlk(v) && Swept(g, v, done0, flashpg, ch, lun)
      requires flashpg + 1 == g.FlashpgsPerBlk(v) ==> Erased(g, status, v, ch, lun)
      requires dynSlcMode == SlcMode ==> g.IsSlc(v)
      modifies Repr()
      ensures ok ==> Rep() && Collecting(g, s0, S(), v, done) && Swept(g, v, done, flashpg, ch, lun + 1)
      ensures ok && flashpg + 1 == g.FlashpgsPerBlk(v) ==> Erased(g, status, v, ch, lun + 1)
      ensures !ok ==> TlcSpace(g, s0) <= |InLine(s0.f.status, v, PgValid)|
      ensures dynSlcMode == SlcMode ==> g.IsSlc(v)
    {
      hide HeapOk, Vpcs, Ipcs, Collecting, Swept, Erased, Domains, TlcSpace, Sized, EraseBlock, Geo.FlashpgsPerBlk,
        Geo.ValidPpa;
      ghost var st := status;
      var b := Block(ch, lun, v);
      var base := flashpg * g.pgsPerFlashpg;
      CollectingDomains(g, s0, S(), v, done0);
      SweepFreshAll(g, S().m, S().f, v, done0, flashpg, ch, lun);
      done := done0 + PagesOf(b, base, base + g.pgsPerFlashpg);
      ok := CleanOneFlashpg(b, base, s0, done0);
      if !ok {
        return;
      }
      SweepLun(g, v, done0, flashpg, ch, lun);
      if flashpg == g.FlashpgsPerBlk(v) - 1 {
        ErasedSame(g, st, status, v, ch, lun);
        CollectingDomains(g, s0, S(), v, done);
        BlockSwept(g, S().m, S().f, v, done, ch, lun);
        EraseOk(g, s0, S(), v, done, b);
        ErasedOne(g, S().f, v, ch, lun);
        MarkBlockFree(b);
      }
    }

    /** Copies the victim's valid pages away and erases its blocks. */
    method CopyBack(v: nat, ghost s0: State) returns (ok: bool, ghost done: set<Ppa>)
      requires Rep() && Collecting(g, s0, S(), v, {}) && g.WellFormed()
      requires dynSlcMode == SlcMode ==> g.IsSlc(v)
      modifies Repr()
      ensures ok ==> Rep() && Collecting(g, s0, S(), v, done) && AllFree(status, v)
      ensures ok ==> Swept(g, v, done, g.FlashpgsPerBlk(v), 0, 0)
      ensures !ok ==> TlcSpace(g, s0) <= |InLine(s0.f.status, v, PgValid)|
    {
      hide HeapOk, Vpcs, Ipcs, Collecting, Swept, AllFree, TlcSpace, Geo.FlashpgsPerBlk;
      ok, done := true, {};
      FlashpgsTileBlock(g, v);
      SweepNone(g, v);
      for flashpg: nat := 0 to g.FlashpgsPerBlk(v)
        invariant Rep() && Collecting(g, s0, S(), v, done) && Swept(g, v, done, flashpg, 0, 0)
        invariant dynSlcMode == SlcMode ==> g.IsSlc(v)
        invariant flashpg == g.FlashpgsPerBlk(v) ==> AllFree(status, v)
      {
        ok, done := CleanAcross(v, flashpg, s0, done);
        if !ok {
          return;
        }
      }
    }

    /** do_gc: collects one line of the region that dynSlcMode selects, if it has a victim.
        It goes through exactly when the victim's valid pages fit into the TLC space, the last
        page of which cannot be used. */
    method DoGc(force: bool, ageUs: seq<int>) returns (ok: bool, found: bool, victim: nat)
      requires Rep() && Quiescent(g, S()) && |ageUs| == g.Lines()
      modifies Repr()
      ensures force ==>
        (found <==> if old(dynSlcMode) == SlcMode then old(S()).slm.victims != {} || old(S()).slm.full != []
                                    else old(S()).lm.victims != {})
      ensures !found ==> ok && Rep() && S() == old(S())
      ensures found ==> if old(dynSlcMode) == SlcMode then ChosenSlc(old(S()), victim) && g.IsSlc(victim)
                        else ChosenTlc(g, old(S()), ageUs, victim) && !g.IsSlc(victim)
                             && Preferred(old(S()), ageUs, victim)
      ensures found && ok ==> Rep() && Collects(g, old(S()), S(), victim)
      ensures found && !ok ==> CannotCollect(g, old(S()), victim)
    {
      hide HeapOk, Vpcs, Ipcs, Inv, Collecting, Collected, Swept, AllFree, NoneFree, ChosenSlc, ChosenTlc, TlcSpace,
        Domains, Collects, CannotCollect, Geo.WellFormed, Geo.PgsPerLine, Preferred;
      ghost var q := S();
      CursorsSized(g, q, NoLine(g), {});
      DomainsSizes(g, q);
      ok, found, victim := SelectForGc(force, ageUs);
      if !found {
        return;
      }
      ghost var s0 := S();
      BeginCollecting(g, s0, victim);
      ghost var done;
      ok, done := CopyBack(victim, s0);
      CountValidPages(g, q, victim);
      if !ok {
        SpaceSame(g, s0, q);
        Collection(g, q, false, s0, victim);
        return;
      }
      Finished(g, q, s0, S(), victim, done);
      CollectedVictim(g, s0, S(), victim, done);
      MarkLineFree(victim);
      Collection(g, q, true, S(), victim);
    }

    /** The choice of a victim at the start of do_gc, with the credits it will refill. */
    method SelectForGc(force: bool, ageUs: seq<int>) returns (ok: bool, found: bool, victim: nat)
      requires Rep() && Quiescent(g, S()) && |ageUs| == g.Lines() == |S().f.vpc| == |S().f.ipc|
      modifies Repr()
      ensures ok && Rep() && dynSlcMode == old(dynSlcMode)
      ensures force ==> (found <==> if dynSlcMode == SlcMode then old(S()).slm.victims != {} || old(S()).slm.full != []
                                    else old(S()).lm.victims != {})
      ensures !found ==> S() == old(S())
      ensures found ==> victim < g.Lines() && Inv(g, S(), victim, {}) && NoneFree(S().f.status, victim)
      ensures found ==>
        if dynSlcMode == SlcMode
        then ChosenSlc(old(S()), victim) && g.IsSlc(victim)
             && S() == TakeSlc(old(S()), victim).(creditsToRefill := g.PgsPerLine(victim))
        else ChosenTlc(g, old(S()), ageUs, victim) && !g.IsSlc(victim) && Preferred(old(S()), ageUs, victim)
             && S() == TakeTlc(old(S()), victim).(creditsToRefill := old(S()).f.ipc[victim])
    {
      hide HeapOk, Vpcs, Ipcs, MapOk, RegionOk, CountsOk, CursorOk, NoneFree, ChosenSlc, LineCost, Domains,
        Geo.PgsPerLine, Preferred;
      ghost var q := S();
      ok := true;
      if dynSlcMode == SlcMode {
        found, victim := SelectVictimLineSlc(force);
        if found {
          TakeSlcOk(g, q, victim);
          creditsToRefill := g.PgsPerLine(victim);
        }
      } else {
        found, victim := SelectVictimLine(ageUs);
        if found {
          TakeTlcOk(g, q, victim);
          IpcsAt(lines[..]);
          creditsToRefill := lines[victim].ipc;
        }
      }
    }

    // ---------- Flow control and host writes ----------

    /** foreground_gc: at most one collection of a TLC victim, then one migration; round tells
        which. Not ok means that the TLC region ran out of pages, where the C code stops the
        kernel. */
    method ForegroundGc(ageUs: seq<int>) returns (ok: bool, ghost round: Round)
      requires Rep() && Quiescent(g, S()) && |ageUs| == g.Lines()
      requires |slm.free| <= MIG_THRES ==> S().slm.victims != {} || S().slm.full != []
      modifies Repr()
      ensures ok ==> Rep() && Foreground(g, old(S()), ageUs, round, S())
      ensures !ok ==> ForegroundFails(g, old(S()), ageUs, round)
    {
      hide HeapOk, Vpcs, Ipcs, Inv, Collects, CannotCollect, Collected, ChosenSlc, ChosenTlc, TlcSpace, Domains,
        SameView, Geo.WellFormed, Geo.PgsPerLine;
      ghost var s := S();
      ListCounts(g, s);
      ok, round := true, Round(s, None, 0);
      if slm.freeCnt <= MIG_THRES {
        ok, round := CollectTlc(ageUs);
        if !ok {
          return;
        }
        CollectsKeeps(g, s, round.mid, round.gc);
        dynSlcMode := SlcMode;
        var found, victim;
        ok, found, victim := DoGc(true, ageUs);
        round := round.(mig := victim);
      }
    }

    /** The first part of a round: a TLC victim is collected if few lines are free and there is one. */
    method CollectTlc(ageUs: seq<int>) returns (ok: bool, ghost round: Round)
      requires Rep() && Quiescent(g, S()) && |ageUs| == g.Lines()
      modifies Repr()
      ensures ok ==> Rep() && round.mid == S() && GcDone(g, old(S()), ageUs, round)
      ensures !ok ==> round.gc.Some? && GcWanted(old(S())) && ChosenTlc(g, old(S()), ageUs, round.gc.value)
                      && CannotCollect(g, old(S()), round.gc.value)
    {
      hide HeapOk, Vpcs, Ipcs, Inv, Collects, CannotCollect, Collected, ChosenSlc, ChosenTlc, TlcSpace, Domains,
        SameView, Geo.WellFormed, Geo.PgsPerLine;
      ghost var s := S();
      ListCounts(g, s);
      ok, round := true, Round(s, None, 0);
      if lm.freeCnt <= GC_THRES {
        dynSlcMode := TlcMode;
        var found, victim;
        ok, found, victim := DoGc(true, ageUs);
        if found {
          round := round.(gc := Some(victim));
        }
        if ok {
          round := round.(mid := S());
        }
      }
    }

    /** The part of a host page write up to advance_write_pointer: the old page is given up, and
        LPN n goes to the next SLC page. */
    method Remap(n: nat, x: int) returns (ok: bool)
      requires Rep() && Quiescent(g, S()) && n < |maptbl|
      modifies Repr()
      ensures Sized(g, old(S())) && (old(maptbl)[n].Some? ==> old(maptbl)[n].value in old(status))
      ensures ok <==> HostWrite(g, old(S()), n, x).Some?
      ensures ok ==> Rep() && Some(S()) == HostWrite(g, old(S()), n, x)
    {
      hide HeapOk, Vpcs, Ipcs, Inv, Domains, AdvanceWp, MarkInvalid, Programmed, SetValid, Geo.WellFormed,
        Geo.ValidPpa, Geo.PgsPerLine, Geo.PgsPerBlk, Geo.Idx;
      ghost var s := S();
      ForgetOk(g, s, n);
      ForgetKeeps(g, s, n);
      MappedIndex(g, s, n);
      ghost var s1 := Forget(g, s, n);
      var before := maptbl[n];
      if before.Some? {
        MappedValid(g, s, n);
        MarkPageInvalid(before.value);
        rmap := rmap[g.Idx(before.value) := None];
      }
      MapToNext(n, x, s1);
      ProgramOk(g, s1, NoLine(g), {}, n, true, x, {});
      ok := AdvanceWritePointer(false, NoLine(g), {});
    }

    /** Maps LPN n to the page under the host pointer; s1 is the state with n unmapped. */
    method MapToNext(n: nat, x: int, ghost s1: State)
      requires Rep() && Quiescent(g, s1) && n < |maptbl| && maptbl[n := None] == s1.m.maptbl
      requires S() == s1.(m := s1.m.(maptbl := maptbl))
      modifies Repr()
      ensures Sized(g, s1) && Rep() && S() == Program(g, s1, n, true, x)
    {
      hide HeapOk, Vpcs, Ipcs, Inv, Domains, SetValid, Geo.WellFormed, Geo.ValidPpa, Geo.PgsPerLine, Geo.PgsPerBlk,
        Geo.Idx;
      CursorsSized(g, s1, NoLine(g), {});
      ProgramBounds(g, s1, NoLine(g), {}, true);
      CursorIndex(g, s1);
      NotInHeap(wp.blk);
      VpcIpcAt(lines[..], wp.blk);
      var newPpa := wp;
      maptbl := maptbl[n := Some(newPpa)];
      assert maptbl == s1.m.maptbl[n := Some(newPpa)];
      rmap := rmap[g.Idx(newPpa) := Some(n)];
      data := data[newPpa := x];
      MarkPageValid(newPpa);
      assert S() == Program(g, s1, n, true, x);
    }

    /** One pass of the loop of conv_write: writes x to LPN n of this partition and pays for it
        with a write credit. Not ok means that collecting for it ran out of TLC pages. */
    method WritePage(n: nat, x: int, ageUs: seq<int>) returns (ok: bool, ghost round: Round)
      requires Rep() && Steady(g, S()) && n < |maptbl| && |ageUs| == g.Lines()
      modifies Repr()
      ensures ok ==> Rep() && PageWritten(g, old(S()), n, x, ageUs, round, S())
      ensures ok ==> Steady(g, S()) && Writes(old(S()).m, S().m, n, x)
      ensures Charged(g, old(S()), n, x).Some?
      ensures !ok ==> Charged(g, old(S()), n, x).value.writeCredits == 0
                      && ForegroundFails(g, Charged(g, old(S()), n, x).value, ageUs, round)
    {
      hide HeapOk, Vpcs, Ipcs, Inv, Unsettled, HostWrite, Foreground, ForegroundFails, Writes, Domains,
        Geo.WellFormed, Geo.PgsPerLine, Geo.Rank;
      ghost var s := S();
      SteadyQuiescent(g, s);
      ChargedOk(g, s, n, x);
      ok := Remap(n, x);
      round := Round(s, None, 0);
      writeCredits := writeCredits - 1;
      assert S() == Charged(g, s, n, x).value;
      if writeCredits <= 0 {
        ok, round := ForegroundGc(ageUs);
        if !ok {
          return;
        }
        ghost var w := S();
        writeCredits := writeCredits + creditsToRefill;
        assert S().(writeCredits := S().writeCredits - S().creditsToRefill) == w;
      }
      PageWrittenSteady(g, s, n, x, ageUs, round, S());
    }
  }

  /** What do_gc promises of the victim it found, in the words of a round. */
  lemma Collection(g: Geo, q: State, ok: bool, s: State, v: nat)
    requires Quiescent(g, q) && Sized(g, q) && v < |q.f.vpc|
    requires ok <==> q.f.vpc[v] < TlcSpace(g, q)
    requires ok ==> v < |q.f.ipc| && Sized(g, s) && Collected(g, q, s, v)
    ensures if ok then Collects(g, q, s, v) else CannotCollect(g, q, v)
  {}

  lemma MappedIndex(g: Geo, s: State, n: nat)
    requires Quiescent(g, s) && n < |s.m.maptbl|
    ensures s.m.maptbl[n].Some? ==> g.Idx(s.m.maptbl[n].value) < |s.m.rmap|
  {}

  lemma MappedValid(g: Geo, s: State, n: nat)
    requires Quiescent(g, s) && n < |s.m.maptbl| && s.m.maptbl[n].Some?
    ensures s.m.maptbl[n].value in s.f.status && s.f.status[s.m.maptbl[n].value] == PgValid
  {}

  lemma SteadyQuiescent(g: Geo, s: State)
    requires Steady(g, s)
    ensures Quiescent(g, s)
  {}

  lemma DomainsSizes(g: Geo, s: State)
    requires Quiescent(g, s)
    ensures g.WellFormed() && |s.f.vpc| == |s.f.ipc| == g.Lines()
  {}

  lemma CountValidPages(g: Geo, q: State, v: nat)
    requires Quiescent(g, q) && v < g.Lines()
    ensures |q.f.vpc| == g.Lines() && q.f.vpc[v] == |InLine(q.f.status, v, PgValid)|
  {}

  lemma CollectedVictim(g: Geo, s0: State, s: State, v: nat, done: set<Ppa>)
    requires Collecting(g, s0, s, v, done)
    ensures v < g.Lines() && v !in s.slm.victims && v !in s.lm.victims
  {}

  lemma ErasedNone(g: Geo, st: map<Ppa, PageStatus>, v: nat)
    ensures Erased(g, st, v, 0, 0)
  {}

  lemma ErasedSame(g: Geo, st: map<Ppa, PageStatus>, st': map<Ppa, PageStatus>, v: nat, ch: nat, lun: nat)
    requires Erased(g, st, v, ch, lun) && SameVictim(st, st', v)
    ensures Erased(g, st', v, ch, lun)
  {}

  lemma CollectingDomains(g: Geo, s0: State, s: State, v: nat, done: set<Ppa>)
    requires Collecting(g, s0, s, v, done)
    ensures Domains(g, s.m, s.f) && v < g.Lines() && Sized(g, s)
    ensures forall b :: ValidBlock(g, b) ==> b in s.f.blkVpc && b in s.f.blkIpc
    ensures forall p :: p in s.f.status <==> g.ValidPpa(p)
  {
    CursorsSized(g, s, v, done);
    hide MapOk, CountsOk, RegionOk, CursorOk, SameView, MovedOutOf, VictimPages, TlcSpace, Moved;
  }

  lemma IpcsAt(ls: seq<Pq.Line>)
    ensures forall l :: 0 <= l < |ls| ==> Ipcs(ls)[l] == ls[l].ipc
  {}

  lemma ListedVictims(d: seq<nat>, ls: seq<Pq.Line>, size: nat, elems: set<nat>, lo: nat, hi: nat)
    requires HeapOk(d, ls, size, elems, lo, hi)
    ensures Pq.Indexed(d, ls, size, elems) && hi <= |ls| && Within(elems, lo, hi)
  {}

  lemma VpcsAt(ls: seq<Pq.Line>)
    ensures forall l :: 0 <= l < |ls| ==> Vpcs(ls)[l] == ls[l].vpc
  {}

  lemma SlcListed(g: Geo, s: State)
    requires Quiescent(g, s)
    ensures |s.f.vpc| == g.Lines()
    ensures forall l :: l in s.slm.victims || l in s.slm.full ==> l < g.slcLines
    ensures forall l :: l in s.lm.victims ==> g.slcLines <= l < g.Lines()
  {}

  /** Pages of line v have the same state in both. */
  ghost predicate SameVictim(st: map<Ppa, PageStatus>, st': map<Ppa, PageStatus>, v: nat) {
    st'.Keys == st.Keys && forall p :: p in st && p.blk == v ==> st'[p] == st[p]
  }

  ghost function ValidAmong(st: map<Ppa, PageStatus>, ps: set<Ppa>): set<Ppa> {
    set p | p in ps && p in st && st[p] == PgValid
  }

  lemma NoneValid(st: map<Ppa, PageStatus>, ps: set<Ppa>)
    requires |ValidAmong(st, ps)| == 0 && forall p :: p in ps ==> p in st
    ensures forall p :: p in ps ==> st[p] != PgValid
  {
    forall p | p in ps ensures st[p] != PgValid { assert p !in ValidAmong(st, ps); }
  }

  lemma NoneYet(st: map<Ppa, PageStatus>, b: Block, base: nat)
    ensures |ValidAmong(st, PagesOf(b, base, base))| == 0
  {
    assert ValidAmong(st, PagesOf(b, base, base)) == {};
  }

  lemma OneMoreValid(st: map<Ppa, PageStatus>, b: Block, base: nat, i: nat)
    requires Ppa(b.ch, b.lun, b.blk, base + i) in st
    ensures |ValidAmong(st, PagesOf(b, base, base + i + 1))| ==
            |ValidAmong(st, PagesOf(b, base, base + i))|
            + if st[Ppa(b.ch, b.lun, b.blk, base + i)] == PgValid then 1 else 0
  {
    var p := Ppa(b.ch, b.lun, b.blk, base + i);
    var ps, ps' := PagesOf(b, base, base + i), PagesOf(b, base, base + i + 1);
    OneMorePage({}, b, base, i);
    assert ps' == ps + {p};
    if st[p] == PgValid {
      assert ValidAmong(st, ps') == ValidAmong(st, ps) + {p};
    } else {
      assert ValidAmong(st, ps') == ValidAmong(st, ps);
    }
  }

  lemma NoPagesYet(done: set<Ppa>, b: Block, base: nat)
    ensures done + PagesOf(b, base, base) == done
  {}

  lemma OneMorePage(done: set<Ppa>, b: Block, base: nat, i: nat)
    ensures done + PagesOf(b, base, base + i) + {Ppa(b.ch, b.lun, b.blk, base + i)}
            == done + PagesOf(b, base, base + i + 1)
    ensures Ppa(b.ch, b.lun, b.blk, base + i) !in PagesOf(b, base, base + i)
  {}

  /** What advance_write_pointer asserts about the pointer and its line. */
  lemma AdvanceFacts(g: Geo, s: State, v: nat, done: set<Ppa>, slc: bool)
    requires Programmed(g, s, v, done, slc)
    ensures Sized(g, s) && g.WellFormed()
    ensures var c := if slc then s.wp else s.gcWp;
      && g.ValidPpa(c) && c.blk < g.Lines() && g.IsSlc(c.blk) == slc
      && c.blk !in s.slm.victims && c.blk !in s.lm.victims
      && |s.f.vpc| == |s.f.ipc| == g.Lines() && s.f.vpc[c.blk] >= 0 && s.f.ipc[c.blk] >= 0
      && (NextInLine(g, c).LineUsedUp? ==> s.f.vpc[c.blk] + s.f.ipc[c.blk] == g.PgsPerLine(c.blk))
  {
    var c := if slc then s.wp else s.gcWp;
    NextInLineRank(g, c);
  }

  /** AdvanceWp, by what the pointer arithmetic says. */
  lemma AdvanceUnfold(g: Geo, s: State, slc: bool)
    requires Sized(g, s)
    ensures var c := if slc then s.wp else s.gcWp;
      && (NextInLine(g, c).Same? ==>
           AdvanceWp(g, s, slc) == Some(if slc then s.(wp := NextInLine(g, c).next)
               else s.(gcWp := NextInLine(g, c).next)))
      && (NextInLine(g, c).LineUsedUp? ==>
           var r := Close(g, s.f, if slc then s.slm else s.lm, c.blk);
           AdvanceWp(g, s, slc) ==
             if r.free == [] then None
             else var r1 := r.(free := r.free[1..], freeCnt := r.freeCnt - 1);
                  Some(if slc then s.(slm := r1, wp := Ppa(0, 0, r.free[0], 0))
                      else s.(lm := r1, gcWp := Ppa(0, 0, r.free[0], 0))))
  {
    hide Domains, NextInLine, Close;
  }

  lemma OtherLine(d: seq<nat>, ls: seq<Pq.Line>, l: nat, size: nat, elems: set<nat>, lo: nat, hi: nat)
    requires HeapOk(d, ls, size, elems, lo, hi) && l < |ls| && !(lo <= l < hi)
    ensures HeapOk(d, ls[l := LessOne(ls[l])], size, elems, lo, hi)
  {}

  /** A region does not see positions of the other region's lines change. */
  lemma OtherHeapKept(d: seq<nat>, ls: seq<Pq.Line>, ls': seq<Pq.Line>, size: nat, elems: set<nat>, lo': nat,
      hi': nat, lo: nat, hi: nat)
    requires HeapOk(d, ls, size, elems, lo, hi) && Repositioned(ls, ls', lo', hi') && (hi' <= lo || hi <= lo')
    ensures HeapOk(d, ls', size, elems, lo, hi)
  {
    HeapFrame(d, ls, ls', size, elems, lo, hi);
  }
}
