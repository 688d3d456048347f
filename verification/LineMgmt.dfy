/** struct line_mgmt: the free and full lists and the victim heap of one region, whose lines
    are lines[lo .. hi) of the table shared by both regions. */
module LineMgmt {
  import opened FtlState
  import opened FtlBounds
  import opened Pqueue
  import opened FtlInit
  import opened FtlSteps
  import opened Counting

  ghost predicate Within(elems: set<nat>, lo: nat, hi: nat) {
    forall l :: l in elems ==> lo <= l < hi
  }

  /** A heap of lines of one region has room for a line of the region that is not in it. */
  lemma HeapHasRoom(elems: set<nat>, lo: nat, hi: nat, x: nat)
    requires Within(elems, lo, hi) && lo <= x < hi && x !in elems
    ensures |elems| < hi - lo
  {
    RangeIs(lo, hi);
    SubsetCard(elems + {x}, Range(lo, hi));
  }

  /** The heap is well formed, holds lines of the region only, and a line of the region has a
      nonzero stored position exactly while it is in the heap. */
  ghost predicate HeapOk(d: seq<nat>, ls: seq<Line>, size: nat, elems: set<nat>, lo: nat, hi: nat) {
    && Indexed(d, ls, size, elems) && Ordered(d, ls, size)
    && hi <= |ls| && Within(elems, lo, hi)
    && forall l :: lo <= l < hi ==> (ls[l].pos != 0 <==> l in elems)
  }

  /** A region does not see changes to the lines of the other. */
  lemma HeapFrame(d: seq<nat>, ls: seq<Line>, ls': seq<Line>, size: nat, elems: set<nat>, lo: nat, hi: nat)
    requires HeapOk(d, ls, size, elems, lo, hi) && |ls'| == |ls|
    requires forall y :: lo <= y < hi ==> ls'[y] == ls[y]
    ensures HeapOk(d, ls', size, elems, lo, hi)
  {}

  /** A region's heap does not see the counters of lines outside it change. */
  lemma HeapFrameLine(d: seq<nat>, ls: seq<Line>, x: nat, line: Line, size: nat, elems: set<nat>, lo: nat, hi: nat)
    requires HeapOk(d, ls, size, elems, lo, hi) && x < |ls| && x !in elems
    requires lo <= x < hi ==> line.pos == 0
    ensures HeapOk(d, ls[x := line], size, elems, lo, hi)
  {}

  /** Positions of lines in [lo, hi) may differ, and nothing else. */
  ghost predicate Repositioned(ls: seq<Line>, ls': seq<Line>, lo: nat, hi: nat) {
    && |ls'| == |ls|
    && (forall y :: 0 <= y < |ls| ==> ls'[y] == ls[y].(pos := ls'[y].pos))
    && (forall y :: 0 <= y < |ls| && !(lo <= y < hi) ==> ls'[y] == ls[y])
  }

  lemma PositionsWithin(ls: seq<Line>, ls': seq<Line>, elems: set<nat>, lo: nat, hi: nat)
    requires OnlyPositions(ls, ls', elems) && Within(elems, lo, hi)
    ensures Repositioned(ls, ls', lo, hi)
  {}

  /** The flags after the heap operation turned ls into ls' and the heap's elements into elems'. */
  lemma FlagsKept(d: seq<nat>, ls: seq<Line>, ls': seq<Line>, size: nat, elems: set<nat>, elems': set<nat>, lo: nat,
      hi: nat)
    requires Indexed(d, ls', size, elems') && Ordered(d, ls', size) && hi <= |ls'| == |ls| && Within(elems', lo, hi)
    requires forall l :: lo <= l < hi ==> (ls[l].pos != 0 <==> l in elems)
    requires forall l :: lo <= l < hi && l !in elems' ==> ls'[l].pos == 0
    ensures HeapOk(d, ls', size, elems', lo, hi)
  {}

  class LineMgmt {
    const lines: array<Line>
    const lo: nat
    const hi: nat
    const pq: Pqueue
    var free: seq<nat>
    var full: seq<nat>
    var freeCnt: int
    var fullCnt: int
    var victimCnt: int

    ghost predicate Valid()
      reads this, pq, pq.d, lines
    {
      && lo <= hi && pq.lines == lines && pq.d.Length == hi - lo + 1
      && pq.Shape() && HeapOk(pq.d[..], lines[..], pq.size, pq.elems, lo, hi)
    }

    ghost function Lists(): Region
      reads this, pq
    {
      Region(free, full, pq.elems, freeCnt, fullCnt, victimCnt)
    }

    constructor (lines: array<Line>, lo: nat, hi: nat)
      requires lo <= hi <= lines.Length && forall l :: lo <= l < hi ==> lines[l].pos == 0
      ensures this.lines == lines && this.lo == lo && this.hi == hi && fresh(pq) && fresh(pq.d)
      ensures Valid() && Lists() == Region([], [], {}, 0, 0, 0)
    {
      this.lines, this.lo, this.hi := lines, lo, hi;
      pq := new Pqueue(lines, hi - lo);
      free, full := [], [];
      freeCnt, fullCnt, victimCnt := 0, 0, 0;
    }

    /** The part of init_lines that puts every line of the region on its free list. */
    method InitLines()
      requires Valid() && free == [] && freeCnt == 0
      modifies `free, `freeCnt
      ensures free == Ids(lo, hi) && freeCnt == hi - lo
    {
      for i := lo to hi
        invariant free == Ids(lo, i) && freeCnt == i - lo
      {
        free := free + [i];
        freeCnt := freeCnt + 1;
      }
    }

    /** pqueue_insert and victim_line_cnt++. */
    method AddVictim(x: nat)
      requires Valid() && lo <= x < hi && lines[x].pos == 0
      modifies `victimCnt, pq, pq.d, lines
      ensures Valid() && Repositioned(old(lines[..]), lines[..], lo, hi)
      ensures Lists() == old(Lists()).(victims := old(Lists()).victims + {x}, victimCnt := old(victimCnt) + 1)
    {
      ghost var ls, elems := lines[..], pq.elems;
      HeapHasRoom(elems, lo, hi, x);
      pq.Insert(x);
      victimCnt := victimCnt + 1;
      PositionsWithin(ls, lines[..], elems + {x}, lo, hi);
      FlagsKept(pq.d[..], ls, lines[..], pq.size, elems, elems + {x}, lo, hi);
    }

    /** pqueue_remove, the caller's reset of the position, and victim_line_cnt--. */
    method RemoveVictim(x: nat)
      requires Valid() && x in pq.elems
      modifies `victimCnt, pq, pq.d, lines
      ensures Valid() && Repositioned(old(lines[..]), lines[..], lo, hi)
      ensures Lists() == old(Lists()).(victims := old(Lists()).victims - {x}, victimCnt := old(victimCnt) - 1)
    {
      ghost var ls, elems := lines[..], pq.elems;
      pq.Remove(x);
      ResetPosition(ls, elems, x);
    }

    /** victim_line->pos = 0 after a removal, which makes the line dangle. */
    method ResetPosition(ghost ls: seq<Line>, ghost elems: set<nat>, x: nat)
      requires pq.Valid() && pq.lines == lines && lo <= hi <= |ls| && pq.d.Length == hi - lo + 1
      requires Within(elems, lo, hi) && x in elems && pq.elems == elems - {x}
      requires forall l :: lo <= l < hi ==> (ls[l].pos != 0 <==> l in elems)
      requires OnlyPositions(ls, lines[..], elems)
      modifies `victimCnt, lines
      ensures Valid() && Repositioned(ls, lines[..], lo, hi) && victimCnt == old(victimCnt) - 1
    {
      ghost var ls1 := lines[..];
      lines[x] := lines[x].(pos := 0);
      victimCnt := victimCnt - 1;
      ghost var ls2 := ls1[x := ls1[x].(pos := 0)];
      assert lines[..] == ls2;
      assert OnlyPositions(ls, ls2, elems);
      PositionsWithin(ls, ls2, elems, lo, hi);
      FlagsKept(pq.d[..], ls, ls2, pq.size, elems, elems - {x}, lo, hi);
    }

    /** pqueue_peek. */
    method PeekVictim() returns (found: bool, x: nat)
      requires Valid()
      ensures found <==> pq.elems != {}
      ensures found ==> x in pq.elems && forall y :: y in pq.elems ==> lines[x].vpc <= lines[y].vpc
      ensures found ==> pq.size > 1 && x == pq.d[1]
    {
      found, x := pq.Peek();
    }

    /** pqueue_pop of the root, the reset of its position, and victim_line_cnt--. */
    method PopVictim() returns (x: nat)
      requires Valid() && pq.elems != {}
      modifies `victimCnt, pq, pq.d, lines
      ensures Valid() && Repositioned(old(lines[..]), lines[..], lo, hi)
      ensures x in old(pq.elems) && old(pq.size) > 1 && x == old(pq.d[1])
      ensures Lists() == old(Lists()).(victims := old(Lists()).victims - {x}, victimCnt := old(victimCnt) - 1)
    {
      ghost var ls, elems := lines[..], pq.elems;
      var found;
      found, x := pq.Pop();
      ResetPosition(ls, elems, x);
    }

    /** pqueue_change_priority to one valid page fewer. */
    method LowerVictim(x: nat)
      requires Valid() && x in pq.elems
      modifies pq.d, lines
      ensures Valid() && Repositioned(old(lines[..])[x := old(lines[x]).(vpc := old(lines[x]).vpc - 1)], lines[..],
        lo, hi)
    {
      ghost var ls, elems := lines[..][x := lines[x].(vpc := lines[x].vpc - 1)], pq.elems;
      pq.ChangePriority(lines[x].vpc - 1, x);
      PositionsWithin(ls, lines[..], elems, lo, hi);
      FlagsKept(pq.d[..], ls, lines[..], pq.size, elems, elems, lo, hi);
    }
 
    /** The line part of mark_page_invalid: line l, of ppl pages, loses a valid page. */
    method LosePage(l: nat, ppl: nat)
      requires Valid() && lo <= l < hi
      requires 0 <= lines[l].ipc < ppl && 0 < lines[l].vpc <= ppl
      requires lines[l].vpc == ppl ==> lines[l].ipc == 0 && l !in pq.elems
      modifies `full, `fullCnt, `victimCnt, pq, pq.d, lines
      ensures Valid()
      ensures Repositioned(old(lines[..])[l := LessOne(old(lines[l]))], lines[..], lo, hi)
      ensures Lists() == if old(lines[l].vpc) == ppl
              then old(Lists()).(full := Without(old(full), l), fullCnt := old(fullCnt) - 1,
                                 victims := old(Lists()).victims + {l}, victimCnt := old(victimCnt) + 1)
              else old(Lists())
    {
      hide Indexed, Ordered, Without;
      assert lines[l].ipc >= 0 && lines[l].ipc < ppl;
      var wasFull := false;
      if lines[l].vpc == ppl {
        assert lines[l].ipc == 0;
        wasFull := true;
      }
      assert lines[l].vpc > 0 && lines[l].vpc <= ppl;
      TakeOne(l);
      if wasFull {
        full := Without(full, l);
        fullCnt := fullCnt - 1;
        assert lines[l].vpc + lines[l].ipc == ppl;
        AddVictim(l);
      }
    }

    /** Moves one page of line l from valid to invalid, in its heap if it is in one. */
    method TakeOne(l: nat)
      requires Valid() && lo <= l < hi
      modifies pq.d, lines
      ensures Valid() && Lists() == old(Lists())
      ensures Repositioned(old(lines[..])[l := LessOne(old(lines[l]))], lines[..], lo, hi)
      ensures l !in pq.elems ==> lines[l] == LessOne(old(lines[l]))
    {
      ghost var ls := lines[..];
      InvalidCountFree(pq.d[..], ls, pq.size, pq.elems, lo, hi, l, lines[l].ipc + 1);
      lines[l] := lines[l].(ipc := lines[l].ipc + 1);
      assert lines[..] == ls[l := ls[l].(ipc := ls[l].ipc + 1)];
      if lines[l].pos != 0 {
        LowerVictim(l);
      } else {
        HeapFrameLine(pq.d[..], lines[..], l, LessOne(ls[l]), pq.size, pq.elems, lo, hi);
        lines[l] := lines[l].(vpc := lines[l].vpc - 1);
        assert lines[..] == ls[l := LessOne(ls[l])];
      }
    }

    /** The list part of advance_write_pointer when line l, of ppl pages, is used up. */
    method CloseLine(l: nat, ppl: nat)
      requires Valid() && lo <= l < hi && l !in pq.elems
      requires 0 <= lines[l].vpc && 0 <= lines[l].ipc && lines[l].vpc + lines[l].ipc == ppl
      modifies `full, `fullCnt, `victimCnt, pq, pq.d, lines
      ensures Valid() && Repositioned(old(lines[..]), lines[..], lo, hi)
      ensures Lists() == if old(lines[l].vpc) == ppl
              then old(Lists()).(full := old(full) + [l], fullCnt := old(fullCnt) + 1)
              else old(Lists()).(victims := old(Lists()).victims + {l}, victimCnt := old(victimCnt) + 1)
    {
      if lines[l].vpc == ppl {
        assert lines[l].ipc == 0;
        full := full + [l];
        fullCnt := fullCnt + 1;
      } else {
        assert lines[l].vpc >= 0 && lines[l].vpc < ppl;
        assert lines[l].ipc > 0;
        assert lines[l].vpc + lines[l].ipc == ppl;
        AddVictim(l);
      }
    }

    /** get_next_free_line on this region. */
    method TakeFree() returns (found: bool, l: nat)
      modifies `free, `freeCnt
      ensures found <==> old(free) != []
      ensures found ==> l == old(free)[0] && free == old(free)[1..] && freeCnt == old(freeCnt) - 1
      ensures !found ==> free == old(free) && freeCnt == old(freeCnt)
    {
      if free == [] {
        return false, 0;
      }
      found, l := true, free[0];
      free := free[1..];
      freeCnt := freeCnt - 1;
    }
  }

  /** A line with one page moved from valid to invalid. */
  function LessOne(line: Line): Line {
    line.(ipc := line.ipc + 1, vpc := line.vpc - 1)
  }

  /** The heap does not read invalid-page counts. */
  lemma InvalidCountFree(d: seq<nat>, ls: seq<Line>, size: nat, elems: set<nat>, lo: nat, hi: nat, l: nat, ipc: int)
    requires HeapOk(d, ls, size, elems, lo, hi) && l < |ls|
    ensures HeapOk(d, ls[l := ls[l].(ipc := ipc)], size, elems, lo, hi)
  {}
}
