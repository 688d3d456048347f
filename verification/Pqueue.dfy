/** The indexed binary min-heap of victim lines (pqueue/pqueue.c), with the priority and the
    position callbacks of conv_ftl.c: a line's priority is its valid-page count, and its slot
    in the heap is stored in the line itself. A line pointer is the line's index. */
module Pqueue {

  /** struct line, without the list links and the modification time. */
  datatype Line = Line(ipc: int, vpc: int, pos: nat)

  // ---------- Heaps as values ----------

  /** d (slots 1 .. size - 1) and the stored positions are mutually inverse. */
  ghost predicate Indexed(d: seq<nat>, ls: seq<Line>, size: nat, elems: set<nat>) {
    && 1 <= size <= |d|
    && (forall i :: 1 <= i < size ==> d[i] in elems && d[i] < |ls| && ls[d[i]].pos == i)
    && (forall x :: x in elems ==> x < |ls| && 1 <= ls[x].pos < size && d[ls[x].pos] == x)
  }

  ghost predicate Ordered(d: seq<nat>, ls: seq<Line>, size: nat)
    requires size <= |d| && forall i :: 1 <= i < size ==> d[i] < |ls|
  {
    forall i :: 2 <= i < size ==> ls[d[i / 2]].vpc <= ls[d[i]].vpc
  }

  /** Element x is on its way to slot i; every other element is where its position says. */
  ghost predicate Hole(d: seq<nat>, ls: seq<Line>, size: nat, elems: set<nat>, i: nat, x: nat) {
    && 1 <= i < size <= |d| && x in elems && x < |ls|
    && (forall j :: 1 <= j < size && j != i ==> d[j] in elems && d[j] != x && d[j] < |ls| && ls[d[j]].pos == j)
    && (forall y :: y in elems && y != x ==>
          y < |ls| && 1 <= ls[y].pos < size && ls[y].pos != i && d[ls[y].pos] == y)
  }

  /** Heap order away from slot i, and from i's parent to i's children. */
  ghost predicate OrderedAround(d: seq<nat>, ls: seq<Line>, size: nat, i: nat)
    requires 1 <= i < size <= |d| && forall j :: 1 <= j < size && j != i ==> d[j] < |ls|
  {
    && (forall j :: 2 <= j < size && j != i && j / 2 != i ==> ls[d[j / 2]].vpc <= ls[d[j]].vpc)
    && (forall j :: 2 <= j < size && j / 2 == i && i >= 2 ==> ls[d[i / 2]].vpc <= ls[d[j]].vpc)
  }

  ghost predicate BelowChildren(d: seq<nat>, ls: seq<Line>, size: nat, i: nat, pri: int)
    requires 1 <= i < size <= |d| && forall j :: 1 <= j < size && j != i ==> d[j] < |ls|
  {
    forall j :: 2 <= j < size && j / 2 == i ==> pri <= ls[d[j]].vpc
  }

  ghost predicate AboveParent(d: seq<nat>, ls: seq<Line>, size: nat, i: nat, pri: int)
    requires 1 <= i < size <= |d| && forall j :: 1 <= j < size && j != i ==> d[j] < |ls|
  {
    i >= 2 ==> ls[d[i / 2]].vpc <= pri
  }

  /** The displaced element may still have to rise from slot i. */
  ghost predicate Rising(d: seq<nat>, ls: seq<Line>, size: nat, elems: set<nat>, i: nat, x: nat) {
    && Hole(d, ls, size, elems, i, x) && OrderedAround(d, ls, size, i)
    && BelowChildren(d, ls, size, i, ls[x].vpc)
  }

  /** The displaced element may still have to sink from slot i. */
  ghost predicate Sinking(d: seq<nat>, ls: seq<Line>, size: nat, elems: set<nat>, i: nat, x: nat) {
    && Hole(d, ls, size, elems, i, x) && OrderedAround(d, ls, size, i)
    && AboveParent(d, ls, size, i, ls[x].vpc)
  }

  /** Putting the displaced element down in a slot that suits it completes the heap. */
  lemma Fill(d: seq<nat>, ls: seq<Line>, size: nat, elems: set<nat>, i: nat, x: nat)
    requires Rising(d, ls, size, elems, i, x) && Sinking(d, ls, size, elems, i, x)
    ensures var d', ls' := d[i := x], ls[x := ls[x].(pos := i)];
            Indexed(d', ls', size, elems) && Ordered(d', ls', size)
  {
    var d', ls' := d[i := x], ls[x := ls[x].(pos := i)];
    forall j | 2 <= j < size ensures ls'[d'[j / 2]].vpc <= ls'[d'[j]].vpc {
      if j != i && j / 2 != i { assert ls[d[j / 2]].vpc <= ls[d[j]].vpc; }
    }
  }

  /** The slot's content and position after element y moved into slot i. */
  lemma MoveInto(d: seq<nat>, ls: seq<Line>, size: nat, elems: set<nat>, i: nat, x: nat, from: nat)
    requires Hole(d, ls, size, elems, i, x) && 1 <= from < size && from != i
    ensures var d', ls' := d[i := d[from]], ls[d[from] := ls[d[from]].(pos := i)];
            Hole(d', ls', size, elems, from, x)
  {
  }

  /** The priorities by slot after element y moved from slot `from` into slot i. */
  lemma MovedPriorities(d: seq<nat>, ls: seq<Line>, size: nat, elems: set<nat>, i: nat, x: nat, from: nat)
    requires Hole(d, ls, size, elems, i, x) && 1 <= from < size && from != i
    ensures var d', ls' := d[i := d[from]], ls[d[from] := ls[d[from]].(pos := i)];
      && x < |ls| && ls'[x].vpc == ls[x].vpc && OnlyPositions(ls, ls', elems)
      && (forall j :: 1 <= j < size && j != i ==> d[j] < |ls|)
      && forall j :: 1 <= j < size && j != from ==>
           d'[j] < |ls| && ls'[d'[j]].vpc == if j == i then ls[d[from]].vpc else ls[d[j]].vpc
  {}

  lemma UpStep(d: seq<nat>, ls: seq<Line>, size: nat, elems: set<nat>, i: nat, x: nat)
    requires Rising(d, ls, size, elems, i, x)
    requires i > 1 && ls[d[i / 2]].vpc > ls[x].vpc
    ensures var d', ls' := d[i := d[i / 2]], ls[d[i / 2] := ls[d[i / 2]].(pos := i)];
            Rising(d', ls', size, elems, i / 2, x) && OnlyPositions(ls, ls', elems)
  {
    hide Hole, OnlyPositions;
    HoleBounds(d, ls, size, elems, i, x);
    MoveInto(d, ls, size, elems, i, x, i / 2);
    MovedPriorities(d, ls, size, elems, i, x, i / 2);
    var d', ls' := d[i := d[i / 2]], ls[d[i / 2] := ls[d[i / 2]].(pos := i)];
    forall j | 2 <= j < size && j != i / 2 && j / 2 != i / 2 ensures ls'[d'[j / 2]].vpc <= ls'[d'[j]].vpc {
      if j / 2 != i { assert ls[d[j / 2]].vpc <= ls[d[j]].vpc; }
    }
    forall j | 2 <= j < size && j / 2 == i / 2
      ensures ls[x].vpc <= ls'[d'[j]].vpc
      ensures i / 2 >= 2 ==> ls'[d'[i / 2 / 2]].vpc <= ls'[d'[j]].vpc
    {
      if j != i { assert ls[d[j / 2]].vpc <= ls[d[j]].vpc; }
      if i / 2 >= 2 { assert ls[d[i / 2 / 2]].vpc <= ls[d[i / 2]].vpc; }
    }
  }

  lemma HoleBounds(d: seq<nat>, ls: seq<Line>, size: nat, elems: set<nat>, i: nat, x: nat)
    requires Hole(d, ls, size, elems, i, x)
    ensures 1 <= i < size <= |d| && x < |ls|
  {}

  lemma DownStep(d: seq<nat>, ls: seq<Line>, size: nat, elems: set<nat>, i: nat, x: nat, c: nat)
    requires Sinking(d, ls, size, elems, i, x)
    requires c < size && c / 2 == i && c != i && LeastChild(d, ls, size, i, c) && ls[x].vpc > ls[d[c]].vpc
    ensures var d', ls' := d[i := d[c]], ls[d[c] := ls[d[c]].(pos := i)];
            Sinking(d', ls', size, elems, c, x) && OnlyPositions(ls, ls', elems)
  {
    MoveInto(d, ls, size, elems, i, x, c);
    var d', ls' := d[i := d[c]], ls[d[c] := ls[d[c]].(pos := i)];
    forall j | 2 <= j < size && j != c && j / 2 != c ensures ls'[d'[j / 2]].vpc <= ls'[d'[j]].vpc {
      if j == i {
        assert ls[d[i / 2]].vpc <= ls[d[c]].vpc;
      } else if j / 2 != i {
        assert ls[d[j / 2]].vpc <= ls[d[j]].vpc;
      }
    }
    forall j | 2 <= j < size && j / 2 == c ensures ls'[d'[c / 2]].vpc <= ls'[d'[j]].vpc {
      assert ls[d[j / 2]].vpc <= ls[d[j]].vpc;
    }
  }

  ghost predicate LeastChild(d: seq<nat>, ls: seq<Line>, size: nat, i: nat, c: nat)
    requires 1 <= i < size <= |d| && c < size && c / 2 == i && c != i
    requires forall j :: 1 <= j < size && j != i ==> d[j] < |ls|
  {
    forall j :: 2 <= j < size && j / 2 == i ==> ls[d[c]].vpc <= ls[d[j]].vpc
  }

  /** The displaced element is not above its least child: it may stay in slot i. */
  lemma Rests(d: seq<nat>, ls: seq<Line>, size: nat, elems: set<nat>, i: nat, x: nat, c: nat)
    requires Sinking(d, ls, size, elems, i, x)
    requires 2 * i >= size
             || (c < size && c / 2 == i && c != i && LeastChild(d, ls, size, i, c) && ls[x].vpc <= ls[d[c]].vpc)
    ensures Rising(d, ls, size, elems, i, x)
  {}

  /** ls' is ls with other positions for elements, and nothing else changed. */
  ghost predicate OnlyPositions(ls: seq<Line>, ls': seq<Line>, elems: set<nat>) {
    && |ls'| == |ls|
    && (forall y :: 0 <= y < |ls| ==> ls'[y] == ls[y].(pos := ls'[y].pos))
    && (forall y :: 0 <= y < |ls| && y !in elems ==> ls'[y] == ls[y])
  }

  /** Nothing has smaller priority than the root. */
  lemma RootIsLeast(d: seq<nat>, ls: seq<Line>, size: nat, elems: set<nat>)
    requires Indexed(d, ls, size, elems) && Ordered(d, ls, size) && size > 1
    ensures d[1] in elems && forall y :: y in elems ==> ls[d[1]].vpc <= ls[y].vpc
  {
    forall y | y in elems ensures ls[d[1]].vpc <= ls[y].vpc {
      RootBelow(d, ls, size, ls[y].pos);
    }
  }

  lemma {:induction false} RootBelow(d: seq<nat>, ls: seq<Line>, size: nat, i: nat)
    requires 1 <= i < size <= |d| && forall j :: 1 <= j < size ==> d[j] < |ls|
    requires Ordered(d, ls, size)
    ensures ls[d[1]].vpc <= ls[d[i]].vpc
  {
    if i > 1 { RootBelow(d, ls, size, i / 2); }
  }

  /** At the root nothing lies above. */
  lemma RootSinks(d: seq<nat>, ls: seq<Line>, size: nat, elems: set<nat>, x: nat)
    requires Rising(d, ls, size, elems, 1, x) || Sinking(d, ls, size, elems, 1, x)
    ensures Sinking(d, ls, size, elems, 1, x)
  {}

  lemma WidenPositions(ls: seq<Line>, ls': seq<Line>, elems: set<nat>, x: nat)
    requires OnlyPositions(ls, ls', elems - {x}) && x < |ls|
    ensures OnlyPositions(ls, ls', elems) && ls'[x] == ls[x]
  {}

  // ---------- The heap ----------

  class Pqueue {
    const lines: array<Line> // the elements live here, outside the heap
    const d: array<nat>      // slot 0 is not used
    var size: nat            // one more than the number of elements
    ghost var elems: set<nat>

    ghost predicate Shape()
      reads this
    {
      1 <= size <= d.Length && |elems| == size - 1
    }

    ghost predicate Valid()
      reads this, d, lines
    {
      && Shape()
      && Indexed(d[..], lines[..], size, elems)
      && Ordered(d[..], lines[..], size)
    }

    constructor (lines: array<Line>, n: nat)
      ensures this.lines == lines && d.Length == n + 1 && fresh(d)
      ensures Valid() && elems == {}
    {
      this.lines := lines;
      d := new nat[n + 1];
      size := 1;
      elems := {};
    }

    // ---------- Sifting one displaced element ----------

    method BubbleUp(start: nat)
      requires Shape() && 1 <= start < size
      requires Rising(d[..], lines[..], size, elems, start, d[start])
      modifies d, lines
      ensures Valid() && OnlyPositions(old(lines[..]), lines[..], elems)
    {
      var i: nat := start;
      var moving := d[i];
      var pri := lines[moving].vpc;
      ghost var slots, ls := d[..], lines[..];
      while i > 1 && lines[d[i / 2]].vpc > pri
        invariant slots == d[..] && ls == lines[..] && |ls| == |old(lines[..])|
        invariant Rising(slots, ls, size, elems, i, moving) && ls[moving].vpc == pri
        invariant OnlyPositions(old(lines[..]), ls, elems)
      {
        UpStep(slots, ls, size, elems, i, moving);
        slots, ls := slots[i := slots[i / 2]], ls[slots[i / 2] := ls[slots[i / 2]].(pos := i)];
        Move(i / 2, i);
        i := i / 2;
      }
      Put(i, moving);
    }

    /** Moves the element of one slot into another. */
    method Move(from: nat, to: nat)
      requires 1 <= from < d.Length && 1 <= to < d.Length && d[from] < lines.Length
      modifies d, lines
      ensures d[..] == old(d[..][to := d[from]])
      ensures lines[..] == old(lines[..][d[from] := lines[d[from]].(pos := to)])
    {
      d[to] := d[from];
      lines[d[to]] := lines[d[to]].(pos := to);
    }

    /** Writes the displaced element down where it belongs. */
    method Put(i: nat, moving: nat)
      requires Shape() && Rising(d[..], lines[..], size, elems, i, moving)
        && Sinking(d[..], lines[..], size, elems, i, moving)
      modifies d, lines
      ensures Valid() && OnlyPositions(old(lines[..]), lines[..], elems)
    {
      Fill(d[..], lines[..], size, elems, i, moving);
      ghost var d', ls' := d[..][i := moving], lines[..][moving := lines[moving].(pos := i)];
      d[i] := moving;
      lines[moving] := lines[moving].(pos := i);
      assert d[..] == d' && lines[..] == ls';
    }

    /** The child of slot i with the smaller priority, the left one on a tie; 0 for a leaf. */
    method MaxChild(i: nat) returns (c: nat)
      requires 1 <= i < size <= d.Length
      requires forall j :: 1 <= j < size && j != i ==> d[j] < lines.Length
      ensures c == 0 <==> 2 * i >= size
      ensures c != 0 ==> c < size && c / 2 == i && c != i && LeastChild(d[..], lines[..], size, i, c)
    {
      c := 2 * i;
      if c >= size {
        return 0;
      }
      if c + 1 < size && lines[d[c]].vpc > lines[d[c + 1]].vpc {
        c := c + 1;
      }
    }

    method PercolateDown(start: nat)
      requires Shape() && 1 <= start < size
      requires Sinking(d[..], lines[..], size, elems, start, d[start])
      modifies d, lines
      ensures Valid() && OnlyPositions(old(lines[..]), lines[..], elems)
    {
      var i: nat := start;
      var moving := d[i];
      var pri := lines[moving].vpc;
      ghost var slots, ls := d[..], lines[..];
      while true
        invariant slots == d[..] && ls == lines[..] && |ls| == |old(lines[..])|
        invariant Sinking(slots, ls, size, elems, i, moving) && ls[moving].vpc == pri
        invariant OnlyPositions(old(lines[..]), ls, elems)
        decreases size - i
      {
        var child := MaxChild(i);
        if child == 0 || pri <= lines[d[child]].vpc {
          Rests(slots, ls, size, elems, i, moving, child);
          break;
        }
        DownStep(slots, ls, size, elems, i, moving, child);
        slots, ls := slots[i := slots[child]], ls[slots[child] := ls[slots[child]].(pos := i)];
        Move(child, i);
        i := child;
      }
      Put(i, moving);
    }

    // ---------- Operations ----------

    /** The caller must leave room: the C code only logs an overflow and writes past the array. */
    method Insert(x: nat)
      requires Valid() && x !in elems && x < lines.Length && size < d.Length
      modifies this, d, lines
      ensures Valid() && elems == old(elems) + {x}
      ensures OnlyPositions(old(lines[..]), lines[..], elems)
    {
      var i := size;
      size := size + 1;
      elems := elems + {x};
      d[i] := x;
      BubbleUp(i);
    }

    method ChangePriority(newPri: int, x: nat)
      requires Valid() && x in elems
      modifies d, lines
      ensures Valid()
      ensures OnlyPositions(old(lines[..])[x := old(lines[x]).(vpc := newPri)], lines[..], elems)
    {
      var oldPri := lines[x].vpc;
      var posn := lines[x].pos;
      Lift(d[..], lines[..], size, elems, posn, newPri);
      ghost var ls' := lines[..][x := lines[x].(vpc := newPri)];
      lines[x] := lines[x].(vpc := newPri);
      assert lines[..] == ls';
      if oldPri > newPri {
        BubbleUp(posn);
      } else {
        PercolateDown(posn);
      }
    }

    /** Takes x out. The position stored in x is left as it was, for the caller to reset. */
    method Remove(x: nat)
      requires Valid() && x in elems
      modifies this, d, lines
      ensures Valid() && elems == old(elems) - {x}
      ensures OnlyPositions(old(lines[..]), lines[..], old(elems)) && lines[x].pos == old(lines[x].pos)
    {
      hide Hole, OrderedAround, AboveParent, BelowChildren, Rising, Sinking, Indexed, Ordered;
      ghost var ls, es := lines[..], elems;
      var posn := Vacate(x);
      if lines[x].vpc > lines[d[posn]].vpc {
        BubbleUp(posn);
      } else if posn < size {
        PercolateDown(posn);
      } else {
        // x was in the last slot: percolate_down finds no child and stores the slot again
        lines[d[posn]] := lines[d[posn]].(pos := posn);
        assert lines[..] == ls;
      }
      WidenPositions(ls, lines[..], es, x);
    }

    /** Moves the last element into the slot of x, from where it may have to rise or sink. */
    method Vacate(x: nat) returns (posn: nat)
      requires Valid() && x in elems
      modifies this, d
      ensures Shape() && elems == old(elems) - {x} && x < lines.Length
      ensures posn == lines[x].pos && 1 <= posn <= size < d.Length && d[posn] < lines.Length
      ensures posn == size ==> Valid() && d[posn] == x
      ensures posn < size && lines[x].vpc > lines[d[posn]].vpc ==> Rising(d[..], lines[..], size, elems, posn, d[posn])
      ensures posn < size && lines[x].vpc <= lines[d[posn]].vpc ==>
                Sinking(d[..], lines[..], size, elems, posn, d[posn])
    {
      hide Hole, OrderedAround, AboveParent, BelowChildren;
      posn := lines[x].pos;
      ghost var slots, ls, es := d[..], lines[..], elems;
      VacateLast(slots, ls, size, elems);
      if posn < size - 1 {
        VacateHole(slots, ls, size, elems, posn);
        VacateOrder(slots, ls, size, elems, posn);
      }
      size := size - 1;
      elems := elems - {x};
      d[posn] := d[size];
      assert d[..] == slots[posn := slots[size]];
    }

    method Pop() returns (found: bool, head: nat)
      requires Valid()
      modifies this, d, lines
      ensures found <==> old(elems) != {}
      ensures !found ==> elems == old(elems) && lines[..] == old(lines[..]) && Valid()
      ensures found ==>
        && head in old(elems) && (forall y :: y in old(elems) ==> old(lines[..])[head].vpc <= old(lines[..])[y].vpc)
        && head == old(d[..])[1]
        && Valid() && elems == old(elems) - {head}
        && OnlyPositions(old(lines[..]), lines[..], old(elems))
    {
      hide Hole, OrderedAround, AboveParent, BelowChildren;
      if size == 1 {
        return false, 0;
      }
      head := d[1];
      ghost var slots, ls, es := d[..], lines[..], elems;
      RootIsLeast(slots, ls, size, elems);
      VacateLast(slots, ls, size, elems);
      if size > 2 {
        VacateHole(slots, ls, size, elems, 1);
        VacateOrder(slots, ls, size, elems, 1);
      }
      size := size - 1;
      elems := elems - {head};
      d[1] := d[size];
      assert d[..] == slots[1 := slots[size]];
      if size > 1 {
        RootSinks(d[..], ls, size, elems, slots[size]);
        PercolateDown(1);
      } else {
        // the heap is now empty: percolate_down stores the head's position again
        lines[d[1]] := lines[d[1]].(pos := 1);
        assert lines[..] == ls && d[..] == slots;
      }
      WidenPositions(ls, lines[..], es, head);
      found := true;
    }

    /** The root, which no element's priority is below; not found on an empty heap. */
    method Peek() returns (found: bool, head: nat)
      requires Valid()
      ensures found <==> elems != {}
      ensures found ==> head in elems && forall y :: y in elems ==> lines[head].vpc <= lines[y].vpc
      ensures found ==> head == d[1]
    {
      if size == 1 {
        return false, 0;
      }
      RootIsLeast(d[..], lines[..], size, elems);
      return true, d[1];
    }
  }

  /** Giving the element in slot i another priority leaves a hole there that fits one way. */
  lemma Lift(d: seq<nat>, ls: seq<Line>, size: nat, elems: set<nat>, i: nat, pri: int)
    requires Indexed(d, ls, size, elems) && Ordered(d, ls, size) && 1 <= i < size
    ensures var x := d[i]; var ls' := ls[x := ls[x].(vpc := pri)];
            && Hole(d, ls', size, elems, i, x) && OrderedAround(d, ls', size, i)
            && (pri <= ls[x].vpc ==> BelowChildren(d, ls', size, i, pri))
            && (pri >= ls[x].vpc ==> AboveParent(d, ls', size, i, pri))
  {
    OrderedMeansAround(d, ls, size, elems, i);
  }

  lemma OrderedMeansAround(d: seq<nat>, ls: seq<Line>, size: nat, elems: set<nat>, i: nat)
    requires Indexed(d, ls, size, elems) && Ordered(d, ls, size) && 1 <= i < size
    ensures Hole(d, ls, size, elems, i, d[i]) && OrderedAround(d, ls, size, i)
    ensures BelowChildren(d, ls, size, i, ls[d[i]].vpc) && AboveParent(d, ls, size, i, ls[d[i]].vpc)
  {
    forall j | 2 <= j < size && j / 2 == i
      ensures ls[d[i]].vpc <= ls[d[j]].vpc
      ensures i >= 2 ==> ls[d[i / 2]].vpc <= ls[d[j]].vpc
    {
      assert ls[d[j / 2]].vpc <= ls[d[j]].vpc;
    }
  }

  /** Dropping the element in the last slot. */
  lemma VacateLast(d: seq<nat>, ls: seq<Line>, size: nat, elems: set<nat>)
    requires Indexed(d, ls, size, elems) && Ordered(d, ls, size) && size > 1
    ensures Indexed(d, ls, size - 1, elems - {d[size - 1]}) && Ordered(d, ls, size - 1)
  {}

  /** Moving the last element into slot i, whose element leaves: every other element stays
      where its position says. */
  lemma VacateHole(d: seq<nat>, ls: seq<Line>, size: nat, elems: set<nat>, i: nat)
    requires Indexed(d, ls, size, elems) && 1 <= i < size - 1
    ensures Hole(d[i := d[size - 1]], ls, size - 1, elems - {d[i]}, i, d[size - 1])
  {
    var d', x := d[i := d[size - 1]], d[i];
    forall j | 1 <= j < size - 1 && j != i
      ensures d'[j] in elems - {x} && d'[j] != d[size - 1] && d'[j] < |ls| && ls[d'[j]].pos == j
    {
      assert ls[d[j]].pos == j && ls[x].pos == i && ls[d[size - 1]].pos == size - 1;
    }
  }

  /** ... and the heap order around the slot depends on how the two priorities compare. */
  lemma VacateOrder(d: seq<nat>, ls: seq<Line>, size: nat, elems: set<nat>, i: nat)
    requires Indexed(d, ls, size, elems) && Ordered(d, ls, size) && 1 <= i < size - 1
    requires Hole(d[i := d[size - 1]], ls, size - 1, elems - {d[i]}, i, d[size - 1])
    ensures var d', x, y := d[i := d[size - 1]], d[i], d[size - 1];
            && (ls[x].vpc > ls[y].vpc ==> Rising(d', ls, size - 1, elems - {x}, i, y))
            && (ls[x].vpc <= ls[y].vpc ==> Sinking(d', ls, size - 1, elems - {x}, i, y))
  {
    OrderedMeansAround(d, ls, size, elems, i);
  }

  // ---------- The validity check ----------

  predicate SubtreeIsValid(d: seq<nat>, ls: seq<Line>, size: nat, pos: nat)
    requires 1 <= pos && size <= |d| && forall i :: 1 <= i < size ==> d[i] < |ls|
    decreases size - pos
  {
    && (2 * pos < size ==> ls[d[pos]].vpc <= ls[d[2 * pos]].vpc && SubtreeIsValid(d, ls, size, 2 * pos))
    && (2 * pos + 1 < size ==> ls[d[pos]].vpc <= ls[d[2 * pos + 1]].vpc && SubtreeIsValid(d, ls, size, 2 * pos + 1))
  }

  /** pqueue_is_valid, the check from the root, holds exactly of heaps. */
  lemma IsValidIffOrdered(d: seq<nat>, ls: seq<Line>, size: nat)
    requires size <= |d| && forall i :: 1 <= i < size ==> d[i] < |ls|
    ensures SubtreeIsValid(d, ls, size, 1) <==> Ordered(d, ls, size)
  {
    if Ordered(d, ls, size) { OrderedSubtree(d, ls, size, 1); }
    if SubtreeIsValid(d, ls, size, 1) {
      forall i | 2 <= i < size ensures ls[d[i / 2]].vpc <= ls[d[i]].vpc {
        EverySubtreeValid(d, ls, size, i / 2);
      }
    }
  }

  lemma {:induction false} OrderedSubtree(d: seq<nat>, ls: seq<Line>, size: nat, pos: nat)
    requires size <= |d| && forall i :: 1 <= i < size ==> d[i] < |ls|
    requires Ordered(d, ls, size) && 1 <= pos
    ensures SubtreeIsValid(d, ls, size, pos)
    decreases size - pos
  {
    if 2 * pos < size {
      assert ls[d[2 * pos / 2]].vpc <= ls[d[2 * pos]].vpc;
      OrderedSubtree(d, ls, size, 2 * pos);
    }
    if 2 * pos + 1 < size {
      assert ls[d[(2 * pos + 1) / 2]].vpc <= ls[d[2 * pos + 1]].vpc;
      OrderedSubtree(d, ls, size, 2 * pos + 1);
    }
  }

  lemma {:induction false} EverySubtreeValid(d: seq<nat>, ls: seq<Line>, size: nat, i: nat)
    requires size <= |d| && forall i :: 1 <= i < size ==> d[i] < |ls|
    requires SubtreeIsValid(d, ls, size, 1) && 1 <= i < size
    ensures SubtreeIsValid(d, ls, size, i)
  {
    if i > 1 {
      EverySubtreeValid(d, ls, size, i / 2);
      assert i == 2 * (i / 2) || i == 2 * (i / 2) + 1;
    }
  }
}
