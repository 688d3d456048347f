/** The work queue of one I/O worker (io.c): a free chain and a time-ordered in-flight chain,
    threaded by index through one array. The dispatcher's and the worker's steps are atomic. */
module IoQueue {
  import opened Counting

  /** The index -1 as an unsigned int. */
  const NIL: nat := 0xffff_ffff

  /** struct nvmev_io_work, as far as scheduling goes; bytes are released on completion. */
  datatype Work = Work(target: nat, copied: bool, completed: bool, internal: bool, bytes: nat, next: nat, prev: nat)

  // ---------- Chains as values ----------

  function At(c: seq<nat>, i: int): nat {
    if 0 <= i < |c| then c[i] else NIL
  }

  /** The next links lead through the entries of c in order, and end there. */
  ghost predicate Linked(q: seq<Work>, c: seq<nat>) {
    && (forall i :: 0 <= i < |c| ==> c[i] < |q|)
    && forall i :: 0 <= i < |c| ==> q[c[i]].next == At(c, i + 1)
  }

  /** The prev links lead back. */
  ghost predicate LinkedBack(q: seq<Work>, c: seq<nat>) {
    && (forall i :: 0 <= i < |c| ==> c[i] < |q|)
    && forall i :: 0 <= i < |c| ==> q[c[i]].prev == At(c, i - 1)
  }

  /** When an entry is due, as seen by a worker whose clock stands at latest. */
  function Due(w: Work, latest: nat): nat {
    if w.target >= latest then w.target else latest
  }

  ghost predicate Sorted(q: seq<Work>, c: seq<nat>, latest: nat)
    requires forall i :: 0 <= i < |c| ==> c[i] < |q|
  {
    forall i, j :: 0 <= i < j < |c| ==> Due(q[c[i]], latest) <= Due(q[c[j]], latest)
  }

  /** Every entry of the array is in exactly one of the two chains. */
  ghost predicate Split(n: nat, free: seq<nat>, io: seq<nat>) {
    && Distinct(free) && Distinct(io)
    && (forall e :: e in free ==> e < n && e !in io)
    && (forall e :: e in io ==> e < n)
    && forall e :: 0 <= e < n ==> e in free || e in io
  }

  /** A completed entry has been copied, and was due. */
  ghost predicate Honest(q: seq<Work>, io: seq<nat>, latest: nat)
    requires forall i :: 0 <= i < |io| ==> io[i] < |q|
  {
    forall i :: 0 <= i < |io| && q[io[i]].completed ==> q[io[i]].copied && q[io[i]].target <= latest
  }

  /** What the in-flight chain keeps. */
  ghost predicate InFlight(q: seq<Work>, io: seq<nat>, latest: nat) {
    Linked(q, io) && LinkedBack(q, io) && Sorted(q, io, latest) && Honest(q, io, latest)
  }

  /** q' has the entries of q, up to their links. */
  ghost predicate SameWork(q: seq<Work>, q': seq<Work>) {
    |q'| == |q| && forall e :: 0 <= e < |q| ==> q'[e] == q[e].(next := q'[e].next, prev := q'[e].prev)
  }

  // ---------- Insertion ----------

  function Inserted(c: seq<nat>, k: nat, e: nat): (r: seq<nat>)
    requires k <= |c|
    ensures |r| == |c| + 1
    ensures forall i :: 0 <= i < |r| ==> r[i] == if i < k then c[i] else if i == k then e else c[i - 1]
  {
    c[..k] + [e] + c[k..]
  }

  /** The links after putting e between c[k - 1] and c[k], where either may be missing. */
  function InsertLinks(q: seq<Work>, c: seq<nat>, k: nat, e: nat): (r: seq<Work>)
    requires k <= |c|
    ensures |r| == |q|
    ensures forall x :: 0 <= x < |q| ==>
      r[x] == q[x].(next := if x == e then At(c, k) else if k > 0 && x == c[k - 1] then e else q[x].next,
                    prev := if x == e then At(c, k - 1) else if k < |c| && x == c[k] then e else q[x].prev)
  {
    seq(|q|, x requires 0 <= x < |q| =>
      q[x].(next := if x == e then At(c, k) else if k > 0 && x == c[k - 1] then e else q[x].next,
            prev := if x == e then At(c, k - 1) else if k < |c| && x == c[k] then e else q[x].prev))
  }

  /** An entry is put behind those that are due already or not after it, and before all others. */
  ghost predicate PlaceFor(q: seq<Work>, c: seq<nat>, latest: nat, w: Work, k: nat)
    requires forall i :: 0 <= i < |c| ==> c[i] < |q|
  {
    && k <= |c|
    && (forall j :: 0 <= j < k ==> q[c[j]].target <= latest || q[c[j]].target <= w.target)
    && (forall j :: k <= j < |c| ==> q[c[j]].target > latest && q[c[j]].target > w.target)
  }

  /** That is the place that its due time gives it, behind entries due at the same time. */
  lemma PlaceByDue(q: seq<Work>, c: seq<nat>, latest: nat, w: Work, k: nat)
    requires (forall i :: 0 <= i < |c| ==> c[i] < |q|) && k <= |c|
    ensures PlaceFor(q, c, latest, w, k) <==>
      && (forall j :: 0 <= j < k ==> Due(q[c[j]], latest) <= Due(w, latest))
      && (forall j :: k <= j < |c| ==> Due(q[c[j]], latest) > Due(w, latest))
  {
    forall j | 0 <= j < |c|
      ensures Due(q[c[j]], latest) <= Due(w, latest) <==> q[c[j]].target <= latest || q[c[j]].target <= w.target
    {}
  }

  lemma InsertLinked(q: seq<Work>, c: seq<nat>, k: nat, e: nat)
    requires Linked(q, c) && LinkedBack(q, c) && Distinct(c) && e !in c && e < |q| && k <= |c|
    ensures Linked(InsertLinks(q, c, k, e), Inserted(c, k, e)) && LinkedBack(InsertLinks(q, c, k, e), Inserted(c, k, e))
  {
    hide Inserted, InsertLinks;
    var q', c' := InsertLinks(q, c, k, e), Inserted(c, k, e);
    forall i | 0 <= i < |c'|
      ensures c'[i] < |q'| && q'[c'[i]].next == At(c', i + 1)
        && q'[c'[i]].prev == At(c', i - 1)
    {
      InsertLinkedAt(q, c, k, e, i);
    }
  }

  lemma InsertLinkedAt(q: seq<Work>, c: seq<nat>, k: nat, e: nat, i: nat)
    requires Linked(q, c) && LinkedBack(q, c) && Distinct(c) && e !in c && e < |q| && k <= |c| && i <= |c|
    ensures var q', c' := InsertLinks(q, c, k, e), Inserted(c, k, e);
      c'[i] < |q'| && q'[c'[i]].next == At(c', i + 1) && q'[c'[i]].prev == At(c', i - 1)
  {
    var q', c' := InsertLinks(q, c, k, e), Inserted(c, k, e);
    assert c'[i] == if i < k then c[i] else if i == k then e else c[i - 1];
    if i != k {
      var j := if i < k then i else i - 1;
      assert Inserted(c, k, e)[i] == c[j] && c[j] in c;
    }
  }

  lemma InsertElements(c: seq<nat>, k: nat, e: nat)
    requires k <= |c|
    ensures forall x :: x in Inserted(c, k, e) <==> x in c || x == e
    ensures Distinct(c) && e !in c ==> Distinct(Inserted(c, k, e))
  {
    var r := Inserted(c, k, e);
    forall x | x in c ensures x in r {
      var i :| 0 <= i < |c| && c[i] == x;
      assert r[if i < k then i else i + 1] == x;
    }
    assert r[k] == e;
  }

  lemma HeadAndTail(c: seq<nat>)
    requires c != [] && Distinct(c)
    ensures Distinct(c[1..]) && c[0] !in c[1..] && forall x :: x in c <==> x == c[0] || x in c[1..]
  {
    assert c == [c[0]] + c[1..];
  }

  lemma InsertDistinct(n: nat, free: seq<nat>, io: seq<nat>, k: nat)
    requires Split(n, free, io) && free != [] && k <= |io|
    ensures Split(n, free[1..], Inserted(io, k, free[0]))
  {
    HeadAndTail(free);
    InsertElements(io, k, free[0]);
  }

  lemma InsertOrdered(q: seq<Work>, q': seq<Work>, c: seq<nat>, latest: nat, k: nat, e: nat)
    requires (forall i :: 0 <= i < |c| ==> c[i] < |q|) && e < |q| && SameWork(q, q')
    requires Sorted(q, c, latest) && Honest(q, c, latest) && PlaceFor(q, c, latest, q[e], k) && !q[e].completed
    ensures forall i :: 0 <= i < |Inserted(c, k, e)| ==> Inserted(c, k, e)[i] < |q'|
    ensures Sorted(q', Inserted(c, k, e), latest) && Honest(q', Inserted(c, k, e), latest)
  {
    PlaceBound(q, c, latest, q[e], k);
    PlaceByDue(q, c, latest, q[e], k);
    hide Due, PlaceFor;
    SameDue(q, q', latest);
    var r := Inserted(c, k, e);
    forall i | 0 <= i < |r| ensures r[i] < |q'| {}
  }

  lemma SameDue(q: seq<Work>, q': seq<Work>, latest: nat)
    requires SameWork(q, q')
    ensures forall x :: 0 <= x < |q| ==> Due(q'[x], latest) == Due(q[x], latest)
  {}

  lemma FirstFree(n: nat, free: seq<nat>, io: seq<nat>)
    requires Split(n, free, io) && free != []
    ensures free[0] < n
  {
    assert free[0] in free;
  }

  lemma NotInFlight(n: nat, free: seq<nat>, io: seq<nat>)
    requires Split(n, free, io) && free != []
    ensures forall i :: 0 <= i < |io| ==> io[i] != free[0] && io[i] < n
    ensures forall i, j :: 0 <= i < j < |io| ==> io[i] != io[j]
  {
    forall i | 0 <= i < |io| ensures io[i] != free[0] && io[i] < n {
      assert io[i] in io && free[0] in free;
    }
  }

  lemma InsertedEnds(c: seq<nat>, k: nat, e: nat)
    requires k <= |c| && c != []
    ensures Inserted(c, k, e)[0] == (if k == 0 then e else c[0])
    ensures Inserted(c, k, e)[|c|] == if k == |c| then e else c[|c| - 1]
  {}

  lemma InsertAt(q: seq<Work>, q': seq<Work>, c: seq<nat>, k: nat, e: nat)
    requires k <= |c| && |q'| == |q|
    requires forall x :: 0 <= x < |q| ==>
      q'[x] == q[x].(next := if x == e then At(c, k) else if k > 0 && x == c[k - 1] then e else q[x].next,
                     prev := if x == e then At(c, k - 1) else if k < |c| && x == c[k] then e else q[x].prev)
    ensures q' == InsertLinks(q, c, k, e)
  {}

  lemma InsertBetween(q: seq<Work>, c: seq<nat>, k: nat, e: nat)
    requires 0 < k < |c| && e < |q| && (forall i :: 0 <= i < |c| ==> c[i] != e && c[i] < |q|) && Distinct(c)
    ensures var q1 := q[e := q[e].(prev := c[k - 1], next := c[k])];
      var q2 := q1[c[k] := q1[c[k]].(prev := e)];
      q2[c[k - 1] := q2[c[k - 1]].(next := e)] == InsertLinks(q, c, k, e)
  {}

  lemma InsertFirst(q: seq<Work>, c: seq<nat>, latest: nat, e: nat)
    requires c == [] && e < |q|
    ensures PlaceFor(q, c, latest, q[e], 0) && Inserted(c, 0, e) == [e]
  {}

  lemma InsertSame(q: seq<Work>, c: seq<nat>, k: nat, e: nat)
    requires k <= |c|
    ensures SameWork(q, InsertLinks(q, c, k, e))
  {}

  lemma LinkedBounds(q: seq<Work>, c: seq<nat>)
    requires Linked(q, c)
    ensures forall i :: 0 <= i < |c| ==> c[i] < |q|
  {}

  lemma InFlightLinked(q: seq<Work>, io: seq<nat>, latest: nat)
    requires InFlight(q, io, latest)
    ensures Linked(q, io)
  {}

  /** One step of the walk back. */
  lemma StepBack(q: seq<Work>, c: seq<nat>, k: nat)
    requires Linked(q, c) && LinkedBack(q, c) && k <= |c| && |q| < NIL
    ensures At(c, k - 1) == NIL <==> k == 0
    ensures k > 0 ==> c[k - 1] < |q| && q[c[k - 1]].prev == At(c, k - 2)
  {}

  /** The walk back from the tail has stopped at the entry's place. */
  lemma Placed(q: seq<Work>, c: seq<nat>, latest: nat, e: nat, k: nat)
    requires Linked(q, c) && Sorted(q, c, latest) && e < |q| && k <= |c|
    requires k > 0 ==> Due(q[c[k - 1]], latest) <= Due(q[e], latest)
    requires forall j :: k <= j < |c| ==> Due(q[c[j]], latest) > Due(q[e], latest)
    ensures PlaceFor(q, c, latest, q[e], k)
  {
    hide Due, Linked, PlaceFor;
    LinkedBounds(q, c);
    PlaceByDue(q, c, latest, q[e], k);
    forall j | 0 <= j < k ensures Due(q[c[j]], latest) <= Due(q[e], latest) {
      if j < k - 1 { assert Due(q[c[j]], latest) <= Due(q[c[k - 1]], latest); }
    }
  }

  /** Writing the entry taken off the free chain disturbs neither the rest of it nor what is in flight. */
  lemma Unchained(n: nat, q: seq<Work>, free: seq<nat>, io: seq<nat>, latest: nat, w: Work)
    requires |q| == n && Split(n, free, io) && free != [] && Linked(q, free) && InFlight(q, io, latest)
    ensures Linked(q[free[0] := w], free[1..]) && InFlight(q[free[0] := w], io, latest)
    ensures forall k :: PlaceFor(q[free[0] := w], io, latest, w, k) ==> PlaceFor(q, io, latest, w, k)
  {
    HeadAndTail(free);
    forall i | 0 <= i < |io| ensures io[i] != free[0] { assert io[i] in io && free[0] in free; }
  }

  /** Insertion does not touch the free chain. */
  lemma FreeKept(n: nat, q: seq<Work>, free: seq<nat>, io: seq<nat>, k: nat)
    requires |q| == n && Split(n, free, io) && free != [] && Linked(q, free[1..]) && k <= |io|
    ensures Linked(InsertLinks(q, io, k, free[0]), free[1..])
  {
    hide InsertLinks;
    HeadAndTail(free);
    forall i | 1 <= i < |free| ensures free[i] !in io && free[i] != free[0] { assert free[i] in free; }
    forall i | 0 <= i < |io| ensures io[i] in io {}
  }

  /** An entry taken off the free chain, written and put in its place. */
  lemma Enqueued(n: nat, q: seq<Work>, free: seq<nat>, io: seq<nat>, latest: nat, w: Work, k: nat)
    requires |q| == n && Split(n, free, io) && free != [] && free[0] < n && Linked(q, free) && InFlight(q, io, latest)
    requires !w.completed && (forall i :: 0 <= i < |io| ==> io[i] < |q|) && PlaceFor(q[free[0] := w], io, latest, w, k)
    ensures k <= |io| && PlaceFor(q, io, latest, w, k)
    ensures var q1, io1 := q[free[0] := w], Inserted(io, k, free[0]);
      var q2 := InsertLinks(q1, io, k, free[0]);
      && Split(n, free[1..], io1) && Linked(q2, free[1..]) && InFlight(q2, io1, latest) && SameWork(q1, q2)
  {
    hide Linked, LinkedBack, Sorted, PlaceFor, Inserted, InsertLinks, Due, Honest;
    var q1, e := q[free[0] := w], free[0];
    Unchained(n, q, free, io, latest, w);
    assert PlaceFor(q, io, latest, w, k);
    PlaceBound(q, io, latest, w, k);
    assert e in free;
    InsertLinked(q1, io, k, e);
    InsertDistinct(n, free, io, k);
    InsertSame(q1, io, k, e);
    InsertOrdered(q1, InsertLinks(q1, io, k, e), io, latest, k, e);
    FreeKept(n, q1, free, io, k);
  }

  /** curr is the last entry in flight not due later than w; NIL exactly when all are. */
  ghost predicate LastNotLater(q: seq<Work>, io: seq<nat>, latest: nat, w: Work, curr: nat)
    requires forall i :: 0 <= i < |io| ==> io[i] < |q|
  {
    && (curr == NIL <==> forall e :: e in io ==> Due(q[e], latest) > Due(w, latest))
    && (curr != NIL ==>
          && curr in io && Due(q[curr], latest) <= Due(w, latest)
          && (q[curr].next != NIL ==> q[curr].next in io && Due(q[q[curr].next], latest) > Due(w, latest)))
  }

  lemma PlaceIsLast(q: seq<Work>, io: seq<nat>, latest: nat, w: Work, k: nat)
    requires Linked(q, io) && (forall i :: 0 <= i < |io| ==> io[i] < |q|) && |q| < NIL && PlaceFor(q, io, latest, w, k)
    ensures LastNotLater(q, io, latest, w, At(io, k - 1))
  {
    PlaceBound(q, io, latest, w, k);
    hide Linked, Due, PlaceFor;
    PlaceByDue(q, io, latest, w, k);
    StepOn(q, io, k);
    if k > 0 {
      StepOn(q, io, k - 1);
    } else {
      forall e | e in io ensures Due(q[e], latest) > Due(w, latest) {
        var j :| 0 <= j < |io| && io[j] == e;
      }
    }
  }

  lemma PlaceBound(q: seq<Work>, c: seq<nat>, latest: nat, w: Work, k: nat)
    requires (forall i :: 0 <= i < |c| ==> c[i] < |q|) && PlaceFor(q, c, latest, w, k)
    ensures k <= |c|
  {}

  // ---------- Reclaiming ----------

  predicate Reclaimable(w: Work, latest: nat) {
    w.completed && w.copied && w.target <= latest
  }

  /** The links after moving the first k > 0 in-flight entries behind the free chain. */
  function ReclaimLinks(q: seq<Work>, free: seq<nat>, io: seq<nat>, k: nat): (r: seq<Work>)
    requires 0 < k <= |io| && free != []
    ensures |r| == |q|
    ensures forall x :: 0 <= x < |q| ==>
      r[x] == q[x].(next := if x == free[|free| - 1] then io[0] else if x == io[k - 1] then NIL else q[x].next,
                    prev := if x == io[0] then free[|free| - 1] else if k < |io| && x == io[k] then NIL else q[x].prev)
  {
    seq(|q|, x requires 0 <= x < |q| =>
      q[x].(next := if x == free[|free| - 1] then io[0] else if x == io[k - 1] then NIL else q[x].next,
            prev := if x == io[0] then free[|free| - 1] else if k < |io| && x == io[k] then NIL else q[x].prev))
  }

  lemma ReclaimLinked(n: nat, q: seq<Work>, free: seq<nat>, io: seq<nat>, k: nat)
    requires |q| == n && Split(n, free, io) && free != [] && 0 < k <= |io|
    requires Linked(q, free) && Linked(q, io) && LinkedBack(q, io)
    ensures var q' := ReclaimLinks(q, free, io, k);
      Linked(q', free + io[..k]) && Linked(q', io[k..]) && LinkedBack(q', io[k..])
  {
    hide ReclaimLinks;
    var q', f' := ReclaimLinks(q, free, io, k), free + io[..k];
    forall i | 0 <= i < |f'| ensures f'[i] < |q'| && q'[f'[i]].next == At(f', i + 1) {
      ReclaimFreed(n, q, free, io, k, i);
    }
    var rest := io[k..];
    forall i | 0 <= i < |rest|
      ensures rest[i] < |q'| && q'[rest[i]].next == At(rest, i + 1)
        && q'[rest[i]].prev == At(rest, i - 1)
    {
      ReclaimKept(n, q, free, io, k, i);
    }
  }

  lemma ReclaimKept(n: nat, q: seq<Work>, free: seq<nat>, io: seq<nat>, k: nat, i: nat)
    requires |q| == n && Split(n, free, io) && free != [] && 0 < k && k + i < |io|
    requires Linked(q, io) && LinkedBack(q, io)
    ensures var q', rest := ReclaimLinks(q, free, io, k), io[k..];
      rest[i] < |q'| && q'[rest[i]].next == At(rest, i + 1) && q'[rest[i]].prev == At(rest, i - 1)
  {
    hide ReclaimLinks, Split;
    ChainsApart(n, free, io);
    var j := k + i;
    assert q[io[j]].next == At(io, j + 1) && q[io[j]].prev == At(io, j - 1);
  }

  lemma ReclaimFreed(n: nat, q: seq<Work>, free: seq<nat>, io: seq<nat>, k: nat, i: nat)
    requires |q| == n && Split(n, free, io) && free != [] && 0 < k <= |io| && i < |free| + k
    requires Linked(q, free) && Linked(q, io)
    ensures var q', f' := ReclaimLinks(q, free, io, k), free + io[..k];
      f'[i] < |q'| && q'[f'[i]].next == At(f', i + 1)
  {
    hide ReclaimLinks;
    if i < |free| {
      assert free[i] in free;
    } else {
      assert io[i - |free|] in io;
    }
  }

  lemma ReclaimSplit(n: nat, free: seq<nat>, io: seq<nat>, k: nat)
    requires Split(n, free, io) && k <= |io|
    ensures Split(n, free + io[..k], io[k..])
  {
    forall e ensures e in io <==> e in io[..k] || e in io[k..] {
      assert io == io[..k] + io[k..];
    }
    var f := free + io[..k];
    forall i, j | 0 <= i < j < |f| ensures f[i] != f[j] {
      assert j >= |free| ==> f[j] in io;
      assert i < |free| ==> f[i] in free;
    }
    forall e | e in f ensures e < n && e !in io[k..] {
      assert e in free || e in io[..k];
    }
  }

  /** Entries whose time has come form a prefix of the in-flight chain. */
  lemma DuePrefix(q: seq<Work>, io: seq<nat>, latest: nat, i: nat, j: nat)
    requires InFlight(q, io, latest) && i <= j < |io| && q[io[j]].target <= latest
    ensures q[io[i]].target <= latest
  {
    if i < j { assert Due(q[io[i]], latest) <= Due(q[io[j]], latest); }
  }

  /** A later clock keeps the order. */
  lemma ClockKeepsOrder(q: seq<Work>, io: seq<nat>, latest: nat, latest': nat)
    requires InFlight(q, io, latest) && latest <= latest'
    ensures InFlight(q, io, latest')
  {
    forall i, j | 0 <= i < j < |io| ensures Due(q[io[i]], latest') <= Due(q[io[j]], latest') {
      assert Due(q[io[i]], latest) <= Due(q[io[j]], latest);
    }
  }

  /** The two chains hold all entries between them. */
  lemma NoneLost(n: nat, free: seq<nat>, io: seq<nat>)
    requires Split(n, free, io)
    ensures |free| + |io| == n
  {
    DistinctCard(free);
    DistinctCard(io);
    RangeIs(0, n);
    assert Elements(free) + Elements(io) == Range(0, n);
    assert |Elements(free) + Elements(io)| == |Elements(free)| + |Elements(io)|;
  }

  // ---------- The worker's pass ----------

  /** What one visit of a worker whose clock reads now does to an entry. */
  function Visited(w: Work, now: nat): Work {
    if w.completed then w else w.(copied := true, completed := w.target <= now)
  }

  /** The bytes given back to the write buffer by that visit. */
  function Given(w: Work, now: nat): nat {
    if !w.completed && w.internal && w.target <= now then w.bytes else 0
  }

  /** A visit moves no entry, and leaves completed entries copied and due. */
  lemma VisitKeeps(q: seq<Work>, io: seq<nat>, latest: nat, now: nat, x: nat)
    requires InFlight(q, io, latest) && latest <= now && x < |q|
    ensures InFlight(q[x := Visited(q[x], now)], io, now)
  {
    hide Sorted, Honest, Due;
    ClockKeepsOrder(q, io, latest, now);
    VisitOrder(q, io, now, x);
    VisitHonest(q, io, latest, now, x);
  }

  lemma VisitOrder(q: seq<Work>, io: seq<nat>, now: nat, x: nat)
    requires (forall i :: 0 <= i < |io| ==> io[i] < |q|) && Sorted(q, io, now) && x < |q|
    ensures Sorted(q[x := Visited(q[x], now)], io, now)
  {
    hide Due;
    assert Due(Visited(q[x], now), now) == Due(q[x], now) by { SameTarget(q[x], now); }
  }

  lemma SameTarget(w: Work, now: nat)
    ensures Due(Visited(w, now), now) == Due(w, now)
  {}

  lemma VisitHonest(q: seq<Work>, io: seq<nat>, latest: nat, now: nat, x: nat)
    requires (forall i :: 0 <= i < |io| ==> io[i] < |q|) && Honest(q, io, latest) && latest <= now && x < |q|
    ensures Honest(q[x := Visited(q[x], now)], io, now)
  {}

  /** What is completed in flight has been copied. */
  lemma CompletedCopied(q: seq<Work>, io: seq<nat>, latest: nat, x: nat)
    requires InFlight(q, io, latest) && x < |q|
    ensures x in io && q[x].completed ==> q[x].copied
  {}

  lemma VisitKeepsFree(q: seq<Work>, free: seq<nat>, now: nat, x: nat)
    requires Linked(q, free) && x < |q|
    ensures Linked(q[x := Visited(q[x], now)], free)
  {}

  /** One step along a chain. */
  lemma StepOn(q: seq<Work>, c: seq<nat>, k: nat)
    requires Linked(q, c) && k <= |c| && |q| < NIL
    ensures At(c, k) == NIL <==> k == |c|
    ensures k < |c| ==> c[k] < |q| && q[c[k]].next == At(c, k + 1)
  {}

  lemma NextInChain(q: seq<Work>, c: seq<nat>, k: nat)
    requires Linked(q, c) && k < |c| && |q| < NIL
    ensures (forall i :: 0 <= i < |c| ==> c[i] < |q|) && q[c[k]].next == At(c, k + 1)
    ensures q[c[k]].next == NIL <==> k + 1 == |c|
  {}

  lemma ChainsApart(n: nat, free: seq<nat>, io: seq<nat>)
    requires Split(n, free, io)
    ensures forall i, j :: 0 <= i < |free| && 0 <= j < |io| ==> free[i] != io[j]
    ensures Distinct(io)
  {
    forall i, j | 0 <= i < |free| && 0 <= j < |io| ensures free[i] != io[j] {
      assert free[i] in free && io[j] in io;
    }
  }

  lemma ReclaimAt(q: seq<Work>, q': seq<Work>, free: seq<nat>, io: seq<nat>, k: nat)
    requires 0 < k <= |io| && free != [] && |q'| == |q|
    requires forall x :: 0 <= x < |q| ==>
      q'[x] == q[x].(next := if x == free[|free| - 1] then io[0] else if x == io[k - 1] then NIL else q[x].next,
                     prev := if x == io[0] then free[|free| - 1] else if k < |io| && x == io[k] then NIL else q[x].prev)
    ensures q' == ReclaimLinks(q, free, io, k)
  {}

  lemma ReclaimSame(q: seq<Work>, free: seq<nat>, io: seq<nat>, k: nat)
    requires 0 < k <= |io| && free != []
    ensures SameWork(q, ReclaimLinks(q, free, io, k))
  {}

  /** What is left in flight keeps its order. */
  lemma RestInFlight(q: seq<Work>, q': seq<Work>, io: seq<nat>, latest: nat, k: nat)
    requires InFlight(q, io, latest) && SameWork(q, q') && k <= |io| && Linked(q', io[k..]) && LinkedBack(q', io[k..])
    ensures InFlight(q', io[k..], latest)
  {
    var rest := io[k..];
    forall i | 0 <= i < |rest| ensures rest[i] == io[k + i] && rest[i] < |q'| {}
  }

  /** Behind an entry that is not due nothing is. */
  lemma LaterTargets(q: seq<Work>, io: seq<nat>, latest: nat, now: nat, n: nat)
    requires InFlight(q, io, latest) && latest <= now && n < |io| && q[io[n]].target > now
    ensures forall i :: n <= i < |io| ==> io[i] < |q| && q[io[i]].target > now
  {
    hide Sorted, Honest;
    ClockKeepsOrder(q, io, latest, now);
    forall i | n <= i < |io| ensures q[io[i]].target > now {
      if q[io[i]].target <= now { DuePrefix(q, io, now, n, i); }
    }
  }

  // ---------- Buffer bytes still to be given back ----------

  function Weight(w: Work): nat { if w.internal && !w.completed then w.bytes else 0 }

  /** The buffer bytes that the entries of chain c still hold. */
  function Owed(q: seq<Work>, c: seq<nat>): nat
    requires forall i :: 0 <= i < |c| ==> c[i] < |q|
  {
    if c == [] then 0 else Weight(q[c[0]]) + Owed(q, c[1..])
  }

  lemma {:induction false} OwedJoin(q: seq<Work>, a: seq<nat>, b: seq<nat>)
    requires (forall i :: 0 <= i < |a| ==> a[i] < |q|) && forall i :: 0 <= i < |b| ==> b[i] < |q|
    ensures forall i :: 0 <= i < |a + b| ==> (a + b)[i] < |q|
    ensures Owed(q, a + b) == Owed(q, a) + Owed(q, b)
  {
    if a == [] {
      assert a + b == b;
    } else {
      OwedJoin(q, a[1..], b);
      assert (a + b)[1..] == a[1..] + b;
    }
  }

  lemma {:induction false} OwedSame(q: seq<Work>, q': seq<Work>, c: seq<nat>)
    requires |q'| == |q| && forall i :: 0 <= i < |c| ==> c[i] < |q| && Weight(q'[c[i]]) == Weight(q[c[i]])
    ensures Owed(q', c) == Owed(q, c)
  {
    if c != [] { OwedSame(q, q', c[1..]); }
  }

  lemma OwedSplit(q: seq<Work>, a: seq<nat>, e: nat, b: seq<nat>)
    requires (forall i :: 0 <= i < |a| ==> a[i] < |q|) && e < |q| && forall i :: 0 <= i < |b| ==> b[i] < |q|
    ensures forall i :: 0 <= i < |a + [e] + b| ==> (a + [e] + b)[i] < |q|
    ensures Owed(q, a + [e] + b) == Owed(q, a) + Weight(q[e]) + Owed(q, b)
  {
    OwedJoin(q, a, [e] + b);
    assert a + [e] + b == a + ([e] + b);
    assert ([e] + b)[1..] == b;
  }

  /** A new entry adds what it holds. */
  lemma OwedInsert(q: seq<Work>, q': seq<Work>, c: seq<nat>, k: nat, e: nat, w: Work)
    requires (forall i :: 0 <= i < |c| ==> c[i] < |q| && c[i] != e) && e < |q| && k <= |c| && SameWork(q[e := w], q')
    ensures forall i :: 0 <= i < |Inserted(c, k, e)| ==> Inserted(c, k, e)[i] < |q'|
    ensures Owed(q', Inserted(c, k, e)) == Owed(q, c) + Weight(w)
  {
    OwedSame(q, q', c);
    OwedSplit(q', c[..k], e, c[k..]);
    OwedJoin(q', c[..k], c[k..]);
    assert c == c[..k] + c[k..];
  }

  /** A visit pays back what it gives. */
  lemma OwedVisit(q: seq<Work>, c: seq<nat>, i: nat, now: nat)
    requires (forall j :: 0 <= j < |c| ==> c[j] < |q|) && i < |c| && Distinct(c)
    ensures Owed(q[c[i] := Visited(q[c[i]], now)], c) == Owed(q, c) - Given(q[c[i]], now)
  {
    var q' := q[c[i] := Visited(q[c[i]], now)];
    assert c == c[..i] + [c[i]] + c[i + 1..];
    OwedSplit(q, c[..i], c[i], c[i + 1..]);
    OwedSplit(q', c[..i], c[i], c[i + 1..]);
    OwedSame(q, q', c[..i]);
    OwedSame(q, q', c[i + 1..]);
  }

  lemma VisitedOwed(n: nat, q: seq<Work>, free: seq<nat>, io: seq<nat>, x: nat, now: nat)
    requires |q| == n && Split(n, free, io) && x in io && (forall j :: 0 <= j < |io| ==> io[j] < |q|)
    ensures x < n && Owed(q[x := Visited(q[x], now)], io) == Owed(q, io) - Given(q[x], now)
  {
    var i :| 0 <= i < |io| && io[i] == x;
    OwedVisit(q, io, i, now);
  }

  /** Reclaimed entries hold nothing. */
  lemma OwedReclaim(q: seq<Work>, q': seq<Work>, c: seq<nat>, k: nat, latest: nat)
    requires (forall i :: 0 <= i < |c| ==> c[i] < |q|) && k <= |c| && SameWork(q, q')
    requires forall i :: 0 <= i < k ==> Reclaimable(q[c[i]], latest)
    ensures forall i :: 0 <= i < |c[k..]| ==> c[k..][i] < |q'|
    ensures Owed(q', c[k..]) == Owed(q, c)
  {
    NothingOwed(q, c[..k]);
    OwedJoin(q, c[..k], c[k..]);
    assert c == c[..k] + c[k..];
    OwedSame(q, q', c[k..]);
  }

  lemma {:induction false} NothingOwed(q: seq<Work>, c: seq<nat>)
    requires forall i :: 0 <= i < |c| ==> c[i] < |q| && q[c[i]].completed
    ensures Owed(q, c) == 0
  {
    if c != [] { NothingOwed(q, c[1..]); }
  }

  // ---------- Entries that have been used ----------

  /** The free chain begins with `unused` entries never used; the others were copied and completed. */
  ghost predicate Worn(q: seq<Work>, free: seq<nat>, unused: nat) {
    && unused <= |free|
    && forall i :: unused <= i < |free| ==> free[i] < |q| && q[free[i]].completed && q[free[i]].copied
  }

  lemma WornEnqueue(n: nat, q: seq<Work>, q': seq<Work>, free: seq<nat>, io: seq<nat>, unused: nat, w: Work)
    requires Worn(q, free, unused) && |q| == n && Split(n, free, io) && free != [] && free[0] < n
    requires SameWork(q[free[0] := w], q')
    ensures Worn(q', free[1..], if unused > 0 then unused - 1 else 0)
  {
    HeadAndTail(free);
  }

  lemma WornReclaim(q: seq<Work>, q': seq<Work>, free: seq<nat>, io: seq<nat>, unused: nat, k: nat)
    requires Worn(q, free, unused) && SameWork(q, q') && k <= |io|
    requires forall i :: 0 <= i < k ==> io[i] < |q| && q[io[i]].completed && q[io[i]].copied
    ensures Worn(q', free + io[..k], unused)
  {}

  lemma WornVisit(q: seq<Work>, free: seq<nat>, unused: nat, x: nat, now: nat)
    requires Worn(q, free, unused) && x < |q|
    ensures Worn(q[x := Visited(q[x], now)], free, unused)
  {}

  /** Entry e is in flight or has been before. */
  ghost predicate Known(free: seq<nat>, io: seq<nat>, unused: nat, e: nat) {
    e in io || exists i :: unused <= i < |free| && free[i] == e
  }

  /** A dispatcher that takes the next free entry leaves known entries known; so does one that
      reclaims entries. */
  lemma KnownEnqueue(q: seq<Work>, free: seq<nat>, io: seq<nat>, unused: nat, k: nat)
    requires free != [] && Worn(q, free, unused) && k <= |io|
    ensures forall e :: Known(free, io, unused, e) ==>
              Known(free[1..], Inserted(io, k, free[0]), if unused > 0 then unused - 1 else 0, e)
  {
    hide Inserted;
    InsertElements(io, k, free[0]);
    forall e | Known(free, io, unused, e)
      ensures Known(free[1..], Inserted(io, k, free[0]), if unused > 0 then unused - 1 else 0, e)
    {
      if e !in io {
        var i :| unused <= i < |free| && free[i] == e;
        if i > 0 { assert free[1..][i - 1] == e; }
      }
    }
  }

  lemma KnownReclaim(q: seq<Work>, free: seq<nat>, io: seq<nat>, unused: nat, k: nat)
    requires Worn(q, free, unused) && k <= |io|
    ensures forall e :: Known(free, io, unused, e) ==> Known(free + io[..k], io[k..], unused, e)
  {
    forall e | Known(free, io, unused, e) ensures Known(free + io[..k], io[k..], unused, e) {
      if e in io {
        var i :| 0 <= i < |io| && io[i] == e;
        if i < k { assert (free + io[..k])[|free| + i] == e; } else { assert io[k..][i - k] == e; }
      } else {
        var i :| unused <= i < |free| && free[i] == e;
        assert (free + io[..k])[i] == e;
      }
    }
  }

  /** From an entry that has been reclaimed the links lead only through completed entries, to the
      end of the free chain. */
  lemma ReclaimedLeadsOn(q: seq<Work>, free: seq<nat>, unused: nat, i: nat)
    requires Linked(q, free) && Worn(q, free, unused) && unused <= i < |free| && |q| < NIL
    ensures free[i] < |q| && q[free[i]].completed && q[free[i]].copied
    ensures q[free[i]].next == if i + 1 < |free| then free[i + 1] else NIL
  {}

  /** So the links of a known entry lead to known entries. */
  lemma NextKnown(n: nat, q: seq<Work>, free: seq<nat>, io: seq<nat>, unused: nat, e: nat)
    requires |q| == n < NIL && Split(n, free, io) && Linked(q, free) && Linked(q, io) && Worn(q, free, unused)
    requires Known(free, io, unused, e)
    ensures e < n && (e !in io ==> q[e].completed && q[e].copied)
    ensures q[e].next == NIL || Known(free, io, unused, q[e].next)
  {
    if e in io {
      var i :| 0 <= i < |io| && io[i] == e;
      StepOn(q, io, i);
      StepOn(q, io, i + 1);
    } else {
      var i :| unused <= i < |free| && free[i] == e;
      ReclaimedLeadsOn(q, free, unused, i);
    }
  }

  /** All that enqueueing an entry keeps, and the bytes that it adds. */
  lemma EnqueuedAll(n: nat, q: seq<Work>, free: seq<nat>, io: seq<nat>, latest: nat, unused: nat, w: Work, k: nat)
    requires |q| == n && Split(n, free, io) && free != [] && free[0] < n && Linked(q, free) && InFlight(q, io, latest)
    requires !w.completed && (forall i :: 0 <= i < |io| ==> io[i] < |q| && io[i] != free[0])
    requires PlaceFor(q[free[0] := w], io, latest, w, k) && Worn(q, free, unused)
    ensures k <= |io| && PlaceFor(q, io, latest, w, k)
    ensures var q1, io1, unused1 := q[free[0] := w], Inserted(io, k, free[0]), if unused > 0 then unused - 1 else 0;
      var q2 := InsertLinks(q1, io, k, free[0]);
      && Split(n, free[1..], io1) && Linked(q2, free[1..]) && InFlight(q2, io1, latest) && SameWork(q1, q2)
      && Worn(q2, free[1..], unused1)
      && (forall e :: Known(free, io, unused, e) ==> Known(free[1..], io1, unused1, e))
      && (forall i :: 0 <= i < |io1| ==> io1[i] < |q2|) && Owed(q2, io1) == Owed(q, io) + Weight(w)
  {
    hide Linked, LinkedBack, InFlight, Sorted, Split, PlaceFor, Inserted, InsertLinks, Due, Worn, Known, Owed, SameWork;
    Enqueued(n, q, free, io, latest, w, k);
    var q2 := InsertLinks(q[free[0] := w], io, k, free[0]);
    OwedInsert(q, q2, io, k, free[0], w);
    WornEnqueue(n, q, q2, free, io, unused, w);
    KnownEnqueue(q, free, io, unused, k);
  }

  class Worker {
    const queue: array<Work>
    var freeSeq: nat
    var freeSeqEnd: nat
    var ioSeq: nat
    var ioSeqEnd: nat // stale while nothing is in flight
    var latest: nat
    ghost var free: seq<nat>
    ghost var io: seq<nat>
    ghost var unused: nat // entries at the head of the free chain that were never taken

    ghost predicate Ends()
      reads this
    {
      && free != [] && freeSeq == free[0] && freeSeqEnd == free[|free| - 1]
      && ioSeq == At(io, 0) && (io != [] ==> ioSeqEnd == io[|io| - 1])
    }

    ghost predicate Valid()
      reads this, queue
    {
      && queue.Length < NIL && Ends() && Split(queue.Length, free, io)
      && Linked(queue[..], free) && InFlight(queue[..], io, latest)
      && Worn(queue[..], free, unused)
    }

    /** Entry e is in flight or has been before. */
    ghost predicate Seen(e: nat)
      reads this
    {
      Known(free, io, unused, e)
    }

    /** Buffer bytes whose release is still in flight. */
    ghost function InDebt(): nat
      requires Valid()
      reads this, queue
    {
      Owed(queue[..], io)
    }

    /** The list part of NVMEV_IO_WORKER_INIT: all entries are free, in order. */
    constructor (n: nat)
      requires 1 <= n < NIL
      ensures Valid() && queue.Length == n && io == [] && fresh(queue)
    {
      var q := new Work[n]((i: nat) => Work(0, false, false, false, 0, i + 1, if i > 0 then i - 1 else NIL));
      q[n - 1] := q[n - 1].(next := NIL);
      queue := q;
      freeSeq, freeSeqEnd, ioSeq, ioSeqEnd, latest := 0, n - 1, NIL, NIL, 0;
      free, io, unused := seq(n, i => i), [], n;
      new;
      forall e | 0 <= e < n ensures e in free { assert free[e] == e; }
    }

    /** __allocate_work_queue_entry: never takes the last free entry. */
    method Allocate() returns (ok: bool, e: nat)
      requires Valid()
      modifies `freeSeq
      ensures ok <==> |free| >= 2
      ensures ok ==> e == free[0] && freeSeq == free[1]
      ensures !ok ==> freeSeq == old(freeSeq)
    {
      e := freeSeq;
      if queue[e].next >= queue.Length {
        return false, e;
      }
      freeSeq := queue[e].next;
      assert freeSeq < queue.Length;
      ok := true;
    }

    /** __insert_req_sorted for the entry just taken off the free chain. */
    method InsertSorted(entry: nat, nsecsTarget: nat) returns (ghost k: nat)
      requires queue.Length < NIL && InFlightEnds() && entry == free[0] < queue.Length
      requires Split(queue.Length, free, io) && InFlight(queue[..], io, latest)
      requires queue[entry].prev == NIL && queue[entry].next == NIL && queue[entry].target == nsecsTarget
      modifies `ioSeq, `ioSeqEnd, queue
      ensures forall i :: 0 <= i < |io| ==> io[i] < |old(queue[..])|
      ensures PlaceFor(old(queue[..]), io, latest, old(queue[..])[entry], k)
      ensures queue[..] == InsertLinks(old(queue[..]), io, k, entry)
      ensures ioSeq == Inserted(io, k, entry)[0] && ioSeqEnd == Inserted(io, k, entry)[|io|]
    {
      hide InFlight, PlaceFor, InsertLinks, Inserted, Split, LastNotLater;
      NotInFlight(queue.Length, free, io);
      if ioSeq == NIL {
        ghost var q := queue[..];
        k := 0;
        ioSeq := entry;
        ioSeqEnd := entry;
        InsertAt(q, queue[..], io, 0, entry);
        InsertFirst(q, io, latest, entry);
        return;
      }
      var curr;
      curr, k := FindPlace(entry, nsecsTarget);
      InFlightLinked(queue[..], io, latest);
      LinkIn(entry, curr, k);
      InsertedEnds(io, k, entry);
    }

    ghost predicate InFlightEnds()
      reads this
    {
      free != [] && ioSeq == At(io, 0) && (io != [] ==> ioSeqEnd == io[|io| - 1])
    }

    /** The walk from the tail to the last entry not due after the new one. */
    method FindPlace(entry: nat, nsecsTarget: nat) returns (curr: nat, ghost k: nat)
      requires queue.Length < NIL && InFlightEnds() && io != [] && entry < queue.Length
      requires InFlight(queue[..], io, latest) && queue[entry].target == nsecsTarget
      ensures forall i :: 0 <= i < |io| ==> io[i] < queue.Length
      ensures PlaceFor(queue[..], io, latest, queue[entry], k) && k <= |io| && curr == At(io, k - 1)
      ensures LastNotLater(queue[..], io, latest, queue[entry], curr)
    {
      hide Linked, LinkedBack, Sorted, Honest, LastNotLater;
      LinkedBounds(queue[..], io);
      curr, k := ioSeqEnd, |io|;
      StepBack(queue[..], io, k);
      while curr != NIL
        invariant k <= |io| && curr == At(io, k - 1)
        invariant (curr == NIL <==> k == 0) && (k > 0 ==> curr < queue.Length && queue[curr].prev == At(io, k - 2))
        invariant forall j :: k <= j < |io| ==> Due(queue[io[j]], latest) > Due(queue[entry], latest)
        decreases k
      {
        if queue[curr].target <= latest || queue[curr].target <= nsecsTarget {
          break;
        }
        curr := queue[curr].prev;
        k := k - 1;
        StepBack(queue[..], io, k);
      }
      Placed(queue[..], io, latest, entry, k);
      PlaceIsLast(queue[..], io, latest, queue[entry], k);
    }

    /** The three ways of linking the entry in behind curr. */
    method LinkIn(entry: nat, curr: nat, ghost k: nat)
      requires queue.Length < NIL && InFlightEnds() && io != [] && entry == free[0] < queue.Length
      requires Split(queue.Length, free, io) && Linked(queue[..], io) && k <= |io| && curr == At(io, k - 1)
      requires queue[entry].prev == NIL && queue[entry].next == NIL
      modifies `ioSeq, `ioSeqEnd, queue
      ensures queue[..] == InsertLinks(old(queue[..]), io, k, entry)
      ensures ioSeq == (if k == 0 then entry else old(ioSeq)) && ioSeqEnd == if k == |io| then entry else old(ioSeqEnd)
    {
      hide Inserted, Split, InsertLinks;
      ghost var q := queue[..];
      NotInFlight(queue.Length, free, io);
      if curr == NIL {
        assert k == 0;
        queue[ioSeq] := queue[ioSeq].(prev := entry);
        queue[entry] := queue[entry].(next := ioSeq);
        ioSeq := entry;
        InsertAt(q, queue[..], io, k, entry);
      } else if queue[curr].next == NIL {
        assert k == |io|;
        queue[entry] := queue[entry].(prev := curr);
        ioSeqEnd := entry;
        queue[curr] := queue[curr].(next := entry);
        InsertAt(q, queue[..], io, k, entry);
      } else {
        assert 0 < k < |io| && q[curr].next == io[k];
        queue[entry] := queue[entry].(prev := curr);
        queue[entry] := queue[entry].(next := queue[curr].next);
        ghost var q1 := q[entry := q[entry].(prev := curr, next := io[k])];
        assert queue[..] == q1;
        queue[queue[entry].next] := queue[queue[entry].next].(prev := entry);
        ghost var q2 := q1[io[k] := q1[io[k]].(prev := entry)];
        assert queue[..] == q2;
        queue[curr] := queue[curr].(next := entry);
        assert queue[..] == q2[curr := q2[curr].(next := entry)];
        InsertBetween(q, io, k, entry);
      }
    }

    /** __enqueue_io_req (internal false) and schedule_internal_operation: dropped when only one
        free entry is left, otherwise placed by target time behind entries due at the same time. */
    method Enqueue(target: nat, internal: bool, bytes: nat) returns (ok: bool, ghost k: nat)
      requires Valid()
      modifies this, queue
      ensures Valid() && latest == old(latest)
      ensures ok <==> old(|free|) >= 2
      ensures !ok ==> queue[..] == old(queue[..]) && free == old(free) && io == old(io)
      ensures forall e: nat :: old(Seen(e)) ==> Seen(e)
      ensures ok ==>
        && var w := Work(target, internal, false, internal, bytes, NIL, NIL);
        && PlaceFor(old(queue[..]), old(io), latest, w, k)
        && free == old(free)[1..] && io == Inserted(old(io), k, old(free)[0])
        && SameWork(old(queue[..])[old(free)[0] := w], queue[..])
        && InDebt() == old(InDebt()) + if internal then bytes else 0
    {
      hide Linked, LinkedBack, InFlight, Sorted, Split, PlaceFor, Inserted, InsertLinks, Due, Worn, Known, Owed,
        SameWork;
      var entry;
      k := 0;
      FirstFree(queue.Length, free, io);
      ok, entry := Allocate();
      if !ok {
        return;
      }
      ghost var q := queue[..];
      var w := Work(target, internal, false, internal, bytes, NIL, NIL);
      queue[entry] := w;
      ghost var q1 := q[entry := w];
      assert queue[..] == q1;
      Unchained(queue.Length, q, free, io, latest, w);
      NotInFlight(queue.Length, free, io);
      k := InsertSorted(entry, target);
      EnqueuedAll(queue.Length, q, free, io, latest, unused, w, k);
      unused := if unused > 0 then unused - 1 else 0;
      io := Inserted(io, k, entry);
      free := free[1..];
    }

    /** __reclaim_completed_reqs: the longest run of finished entries at the head of the
        in-flight chain goes back to the end of the free chain. */
    method Reclaim() returns (nrReclaimed: nat)
      requires Valid()
      modifies this, queue
      ensures Valid() && latest == old(latest) && SameWork(old(queue[..]), queue[..])
      ensures InDebt() == old(InDebt())
      ensures nrReclaimed <= |old(io)| && free == old(free) + old(io)[..nrReclaimed] && io == old(io)[nrReclaimed..]
      ensures forall i :: 0 <= i < |old(io)| ==> old(io)[i] < |old(queue[..])|
      ensures forall i :: 0 <= i < nrReclaimed ==>
        var w := old(queue[..])[old(io)[i]]; w.completed && w.copied && w.target <= latest
      ensures nrReclaimed < |old(io)| ==>
        var w := old(queue[..])[old(io)[nrReclaimed]]; !(w.completed && w.copied && w.target <= latest)
      ensures forall e: nat :: old(Seen(e)) ==> Seen(e)
    {
      hide Linked, LinkedBack, Sorted, Honest, Split, Worn, Known;
      ghost var q := queue[..];
      LinkedBounds(q, io);
      LinkedBounds(q, free);
      var firstEntry, lastEntry := ioSeq, NIL;
      var curr := firstEntry;
      nrReclaimed := 0;
      StepOn(q, io, 0);
      while curr != NIL
        invariant nrReclaimed <= |io| && curr == At(io, nrReclaimed) && lastEntry == At(io, nrReclaimed - 1)
        invariant (curr == NIL <==> nrReclaimed == |io|)
          && (nrReclaimed < |io| ==> curr < |q| && q[curr].next == At(io, nrReclaimed + 1))
        invariant forall i :: 0 <= i < nrReclaimed ==> Reclaimable(q[io[i]], latest)
        decreases |io| - nrReclaimed
        modifies {}
      {
        if queue[curr].completed && queue[curr].copied && queue[curr].target <= latest {
          lastEntry := curr;
          curr := queue[curr].next;
          nrReclaimed := nrReclaimed + 1;
          StepOn(q, io, nrReclaimed);
        } else {
          break;
        }
      }
      StepBack(q, io, nrReclaimed);
      ghost var was := io;
      if lastEntry != NIL {
        MoveToFree(firstEntry, lastEntry, nrReclaimed);
      } else {
        assert free + io[..0] == free && io[0..] == io;
      }
      OwedReclaim(q, queue[..], was, nrReclaimed, latest);
    }

    /** Relinks the first k in-flight entries behind the free chain. */
    method MoveToFree(firstEntry: nat, lastEntry: nat, ghost k: nat)
      requires Valid() && 0 < k <= |io| && firstEntry == io[0] && lastEntry == io[k - 1]
      requires forall i :: 0 <= i < k ==> io[i] < queue.Length && Reclaimable(queue[io[i]], latest)
      modifies this, queue
      ensures Valid() && latest == old(latest) && SameWork(old(queue[..]), queue[..])
      ensures free == old(free) + old(io)[..k] && io == old(io)[k..]
      ensures forall e: nat :: old(Seen(e)) ==> Seen(e)
    {
      hide Linked, LinkedBack, Sorted, Honest, Split, ReclaimLinks, Worn, Known;
      ghost var q := queue[..];
      ChainsApart(queue.Length, free, io);
      LinkedBounds(q, free);
      NextInChain(q, io, k - 1);
      Relink(firstEntry, lastEntry, k);
      ReclaimLinked(queue.Length, q, free, io, k);
      ReclaimSplit(queue.Length, free, io, k);
      ReclaimSame(q, free, io, k);
      RestInFlight(q, queue[..], io, latest, k);
      WornReclaim(q, queue[..], free, io, unused, k);
      KnownReclaim(q, free, io, unused, k);
      free, io := free + io[..k], io[k..];
    }

    method Relink(firstEntry: nat, lastEntry: nat, ghost k: nat)
      requires queue.Length < NIL && free != [] && 0 < k <= |io| && firstEntry == io[0] && lastEntry == io[k - 1]
      requires freeSeqEnd == free[|free| - 1] < queue.Length && Distinct(io)
      requires forall i :: 0 <= i < |io| ==> io[i] < queue.Length && io[i] != freeSeqEnd
      requires queue[lastEntry].next == At(io, k)
      modifies `ioSeq, `freeSeqEnd, queue
      ensures queue[..] == ReclaimLinks(old(queue[..]), free, io, k)
      ensures ioSeq == At(io, k) && freeSeqEnd == lastEntry
    {
      hide ReclaimLinks;
      ghost var q := queue[..];
      ioSeq := queue[lastEntry].next;
      if queue[lastEntry].next != NIL {
        queue[queue[lastEntry].next] := queue[queue[lastEntry].next].(prev := NIL);
      }
      queue[lastEntry] := queue[lastEntry].(next := NIL);
      queue[firstEntry] := queue[firstEntry].(prev := freeSeqEnd);
      queue[freeSeqEnd] := queue[freeSeqEnd].(next := firstEntry);
      ReclaimAt(q, queue[..], free, io, k);
      freeSeqEnd := lastEntry;
    }

    /** One iteration of the worker's loop, at an entry in flight or one that the dispatcher has
        reclaimed meanwhile: the data is copied, and the entry is completed once it is due, giving
        back its buffer bytes. The walk goes on to the end or to an entry of the same kind, which
        no step of the dispatcher changes. */
    method Visit(curr: nat, now: nat) returns (next: nat, released: nat)
      requires Valid() && Seen(curr) && latest <= now
      modifies `latest, queue
      ensures Valid() && latest == now && (next == NIL || Seen(next))
      ensures curr < queue.Length
      ensures var w := old(queue[curr]);
        && queue[..] == old(queue[..])[curr := w.(copied := true, completed := w.completed || w.target <= now)]
        && released == if !w.completed && w.internal && w.target <= now then w.bytes else 0
      ensures next == queue[curr].next && (curr !in io ==> queue[..] == old(queue[..]))
      ensures InDebt() == old(InDebt()) - released
    {
      hide Linked, LinkedBack, Sorted, Honest, Split, InFlight, Worn, Known;
      ghost var q := queue[..];
      InFlightLinked(q, io, latest);
      NextKnown(queue.Length, q, free, io, unused, curr);
      LinkedBounds(q, io);
      CompletedCopied(q, io, latest, curr);
      VisitKeeps(q, io, latest, now, curr);
      VisitKeepsFree(q, free, now, curr);
      WornVisit(q, free, unused, curr, now);
      latest := now;
      released := 0;
      if !queue[curr].completed {
        if !queue[curr].copied {
          queue[curr] := queue[curr].(copied := true);
        }
        if queue[curr].target <= now {
          if queue[curr].internal {
            released := queue[curr].bytes;
          }
          queue[curr] := queue[curr].(completed := true);
        }
      }
      next := queue[curr].next;
      assert queue[..] == q[curr := Visited(q[curr], now)];
      if curr in io {
        VisitedOwed(queue.Length, q, free, io, curr, now);
      } else {
        assert queue[..] == q;
      }
    }

    /** A pass of the worker over its queue while the dispatcher rests: io[k] is visited when the
        clock reads clock[k]. Every entry is copied, exactly the due ones are completed, and what
        they held goes back to the buffer. */
    method Pass(clock: seq<nat>) returns (released: nat)
      requires Valid() && |clock| == |io| && Ticks(latest, clock)
      modifies `latest, queue
      ensures Valid() && latest == (if clock == [] then old(latest) else clock[|clock| - 1])
      ensures forall k :: 0 <= k < |io| ==> io[k] < queue.Length
      ensures forall k :: 0 <= k < |io| ==> var w := old(queue[..])[io[k]];
        queue[io[k]] == w.(copied := true, completed := w.completed || w.target <= clock[k])
      ensures forall x :: 0 <= x < queue.Length && x !in io ==> queue[x] == old(queue[..])[x]
      ensures released == old(InDebt()) - InDebt()
      ensures (forall k :: 0 <= k < |io| ==> old(queue[..])[io[k]].target <= clock[k]) ==> InDebt() == 0
    {
      hide Valid, InDebt, Known, Passed;
      ghost var q := queue[..];
      InChain(0);
      PassedNone(q, io, clock);
      var curr := ioSeq;
      released := 0;
      var k := 0;
      while curr != NIL
        invariant Valid() && k <= |io| && curr == At(io, k) && (curr == NIL <==> k == |io|)
        invariant latest == (if k == 0 then old(latest) else clock[k - 1]) && Passed(q, queue[..], io, clock, k)
        invariant released == old(InDebt()) - InDebt()
        decreases |io| - k
      {
        InChain(k);
        ghost var q1 := queue[..];
        var given;
        curr, given := Visit(curr, clock[k]);
        PassedOne(q, q1, queue[..], io, clock, k);
        InChain(k);
        InChain(k + 1);
        released := released + given;
        k := k + 1;
      }
      PassedAll(q, queue[..], io, clock);
      if forall j :: 0 <= j < |io| ==> q[io[j]].target <= clock[j] { NothingHeld(); }
    }

    /** Where a walk stands that has come to entry k in flight. */
    lemma InChain(k: nat)
      requires Valid() && k <= |io|
      ensures queue.Length < NIL && ioSeq == At(io, 0) && Distinct(io)
      ensures forall i :: 0 <= i < |io| ==> io[i] < queue.Length
      ensures At(io, k) == NIL <==> k == |io|
      ensures k < |io| ==> Seen(io[k]) && queue[io[k]].next == At(io, k + 1)
    {
      hide LinkedBack, Sorted, Honest, Worn;
      StepOn(queue[..], io, k);
      if k < |io| { assert io[k] in io; }
    }

    /** Once all entries are completed no bytes are in flight. */
    lemma NothingHeld()
      requires Valid() && forall i :: 0 <= i < |io| ==> io[i] < queue.Length && queue[io[i]].completed
      ensures InDebt() == 0
    {
      hide Linked, LinkedBack, Sorted, Honest, Worn, Split;
      NothingOwed(queue[..], io);
    }

    /** Such a pass, and the dispatcher's next reclaiming. Every entry due when the pass begins
        leaves the queue; so a pass not before the last target time empties it. */
    method PassAndReclaim(clock: seq<nat>) returns (released: nat, nrReclaimed: nat)
      requires Valid() && |clock| == |io| && Ticks(latest, clock)
      modifies this, queue
      ensures Valid() && forall i :: 0 <= i < |old(io)| ==> old(io)[i] < queue.Length
      ensures nrReclaimed <= |old(io)| && free == old(free) + old(io)[..nrReclaimed] && io == old(io)[nrReclaimed..]
      ensures forall i :: 0 <= i < nrReclaimed ==> old(queue[..])[old(io)[i]].target <= clock[|clock| - 1]
      ensures forall i :: nrReclaimed <= i < |old(io)| ==> old(queue[..])[old(io)[i]].target > clock[0]
      ensures (forall i :: 0 <= i < |old(io)| ==> old(queue[..])[old(io)[i]].target <= clock[0]) ==>
                io == [] && InDebt() == 0
    {
      hide Linked, LinkedBack, Sorted, Honest, InFlight, Worn, Owed, Split;
      ghost var q, io0, latest0 := queue[..], io, latest;
      released := Pass(clock);
      ghost var q1 := queue[..];
      nrReclaimed := Reclaim();
      if nrReclaimed < |io0| {
        assert q[io0[nrReclaimed]].target > clock[0];
        LaterTargets(q, io0, latest0, clock[0], nrReclaimed);
      }
      if io == [] { NothingHeld(); }
    }
  }

  /** The walk of a pass has visited the first k of the entries in flight. */
  ghost predicate Passed(q: seq<Work>, q': seq<Work>, io: seq<nat>, clock: seq<nat>, k: nat) {
    && |q'| == |q| && |clock| == |io| && k <= |io| && (forall j :: 0 <= j < |io| ==> io[j] < |q|)
    && (forall j :: 0 <= j < |io| ==> var w := q[io[j]];
          q'[io[j]] == if j < k then w.(copied := true, completed := w.completed || w.target <= clock[j]) else w)
    && forall x :: 0 <= x < |q| && x !in io ==> q'[x] == q[x]
  }

  lemma PassedNone(q: seq<Work>, io: seq<nat>, clock: seq<nat>)
    requires |clock| == |io| && forall j :: 0 <= j < |io| ==> io[j] < |q|
    ensures Passed(q, q, io, clock, 0)
  {}

  lemma PassedOne(q: seq<Work>, q1: seq<Work>, q2: seq<Work>, io: seq<nat>, clock: seq<nat>, k: nat)
    requires Passed(q, q1, io, clock, k) && k < |io| && Distinct(io)
    requires var w := q1[io[k]]; q2 == q1[io[k] := w.(copied := true, completed := w.completed || w.target <= clock[k])]
    ensures Passed(q, q2, io, clock, k + 1)
  {
    assert io[k] in io;
  }

  lemma PassedAll(q: seq<Work>, q': seq<Work>, io: seq<nat>, clock: seq<nat>)
    requires Passed(q, q', io, clock, |io|)
    ensures |q'| == |q|
    ensures forall k :: 0 <= k < |io| ==> var w := q[io[k]];
      q'[io[k]] == w.(copied := true, completed := w.completed || w.target <= clock[k])
    ensures forall x :: 0 <= x < |q| && x !in io ==> q'[x] == q[x]
  {}

  /** Clock readings from time t on, none before the one before. */
  ghost predicate Ticks(t: nat, clock: seq<nat>) {
    && (clock != [] ==> t <= clock[0])
    && forall i, j :: 0 <= i < j < |clock| ==> clock[i] <= clock[j]
  }
}
