/** A namespace with the worker that carries out the releases of its write buffer: where the bytes
    of the buffer are, and which are lost when the queue is full. */
module ConvDevice {
  import opened Geometry
  import opened FtlState
  import opened FtlInit
  import opened FtlFlow
  import opened FtlLife
  import opened WriteBuffer
  import opened Striping
  import opened ConvNs
  import Io = IoQueue

  class Device {
    const ns: Namespace
    const worker: Io.Worker
    ghost var lost: nat // bytes of the releases that the worker's full queue dropped

    ghost predicate Apart() {
      this !in ns.All() && worker !in ns.All() && worker.queue !in ns.All()
    }

    /** Every byte whose release was scheduled is with an entry in flight, or lost. */
    ghost predicate Valid()
      reads this, worker, worker.queue, ns.All()
    {
      Apart() && ns.Valid() && worker.Valid() && ns.pending == worker.InDebt() + lost
    }

    /** The bytes of the write buffer: free, with an entry in flight, or of unfinished one-shot
        pages. */
    ghost function Balance(): int
      requires ns.Shape() && worker.Valid()
      reads this, worker, worker.queue, ns.All()
    {
      ns.wbuf.remaining + worker.InDebt() + PGSZ * Sum(ns.Unfinished())
    }

    constructor (ns: Namespace, worker: Io.Worker)
      requires ns.Valid() && worker.Valid() && worker !in ns.All() && worker.queue !in ns.All()
      requires ns.pending == 0 && worker.io == []
      ensures Valid() && lost == 0 && this.ns == ns && this.worker == worker && Balance() == ns.Accounted()
    {
      hide Namespace.Valid, Io.Worker.Valid;
      this.ns, this.worker, lost := ns, worker, 0;
      new;
      NotOwn(this, ns);
    }

    /** conv_write with its calls of schedule_internal_operation, one for each one-shot page that
        it fills; times gives their completion times. The accounts move as those of the
        namespace, but for the bytes of the releases that find the queue full. */
    method Write(slba: nat, nlb: nat, xs: seq<int>, ageUs: seq<seq<int>>, times: nat -> nat)
      returns (r: WriteResult, flushes: nat, ghost at: nat)
      requires Valid() && 1 <= nlb && LBA_SIZE * nlb <= ns.wbuf.size
      requires |xs| == |ageUs| == PagesTouched(slba, nlb)
      requires forall k :: 0 <= k < |ageUs| ==> |ageUs[k]| == ns.g.Lines()
      modifies this, worker, worker.queue, ns.All()
      ensures r == PastEnd <==> Local(FirstPage(slba) + |xs| - 1, |ns.parts|) >= ns.g.TtPgs()
      ensures r == BufferBusy <==> r != PastEnd && old(ns.wbuf.remaining) < LBA_SIZE * nlb
      ensures r == OutOfTlcPages ==>
        && at < |xs| && |ns.parts| > 0
        && !ns.LastsFor(old(ns.States()), Part(FirstPage(slba) + at, |ns.parts|), FirstPage(slba),
          FirstPage(slba) + at + 1)
      ensures r == PastEnd || r == BufferBusy ==> Valid() && lost == old(lost) && Balance() == old(Balance())
      ensures r == Written ==>
        && Valid()
        && lost == old(lost) + Dropped(flushes, |old(worker.free)|) * OneshotBytes(ns.g)
        && Balance() + lost == old(Balance() + lost) + PGSZ * |xs| - LBA_SIZE * nlb
        && ns.wbuf.remaining == old(ns.wbuf.remaining) - LBA_SIZE * nlb
        && ns.pending == old(ns.pending) + flushes * OneshotBytes(ns.g)
        && ns.Accounted() == old(ns.Accounted()) + PGSZ * |xs| - LBA_SIZE * nlb
        && RangeWritten(old(ns.Maps()), ns.Maps(), ns.g.TtPgs(), FirstPage(slba), FirstPage(slba) + |xs|, xs)
    {
      hide Namespace.Valid, Namespace.All, Namespace.Shape, Namespace.Maps, Io.Worker.Valid, Sum, RangeWritten,
        ForegroundFails, Namespace.States, Namespace.LastsLess, Namespace.LastsFor;
      ghost var stuck, round;
      NamespaceShape(ns);
      InMemory(ns);
      r, flushes, stuck, round, at := ns.Write(slba, nlb, xs, ageUs);
      if r == Written {
        InMemory(ns);
        Deliver(flushes, times);
      }
    }

    /** The calls of schedule_internal_operation for one-shot pages just filled. */
    method Deliver(flushes: nat, times: nat -> nat)
      requires Apart() && worker.Valid() && ns.pending == worker.InDebt() + lost + flushes * OneshotBytes(ns.g)
      modifies this, worker, worker.queue
      ensures worker.Valid() && ns.pending == worker.InDebt() + lost
      ensures lost == old(lost) + Dropped(flushes, |old(worker.free)|) * OneshotBytes(ns.g)
    {
      hide Io.Worker.Valid;
      ghost var bytes := OneshotBytes(ns.g);
      Chains(worker);
      for k := 0 to flushes
        invariant worker.Valid() && ns.pending == worker.InDebt() + lost + (flushes - k) * bytes
        invariant |worker.free| == if k < |old(worker.free)| then |old(worker.free)| - k else 1
        invariant lost == old(lost) + Dropped(k, |old(worker.free)|) * bytes
      {
        Split(flushes - k, Dropped(k, |old(worker.free)|), bytes);
        var ok;
        ghost var place;
        ok, place := worker.Enqueue(times(k), true, PGSZ * ns.g.pgsPerOneshotSlc);
        if !ok {
          lost := lost + bytes;
        }
      }
    }

    /** The worker at an entry: its buffer bytes go back to the buffer once it is due. */
    method Work(curr: nat, now: nat) returns (next: nat)
      requires Valid() && worker.Seen(curr) && worker.latest <= now
      modifies this, worker, worker.queue, ns, ns.wbuf
      ensures Valid() && (next == Io.NIL || worker.Seen(next)) && lost == old(lost) && Balance() == old(Balance())
      ensures curr < worker.queue.Length
      ensures var w := old(worker.queue[curr]);
        && worker.queue[curr] == w.(copied := true, completed := w.completed || w.target <= now)
        && ns.wbuf.remaining == old(ns.wbuf.remaining)
                                + if !w.completed && w.internal && w.target <= now then w.bytes else 0
    {
      hide Namespace.Valid, Namespace.All, Namespace.Shape, Namespace.Maps, Io.Worker.Valid, Sum;
      var released;
      InMemory(ns);
      next, released := worker.Visit(curr, now);
      ns.Drain(released);
    }

    /** A request of the host takes a queue entry, if there is one, and no buffer bytes. */
    method Serve(target: nat) returns (ok: bool)
      requires Valid()
      modifies worker, worker.queue
      ensures Valid() && Balance() == old(Balance()) && (ok <==> old(|worker.free|) >= 2)
    {
      hide Namespace.Valid, Namespace.All, Namespace.Shape, Io.Worker.Valid, Sum;
      InMemory(ns);
      ghost var place;
      ok, place := worker.Enqueue(target, false, 0);
    }

    /** Once every entry in flight is completed, all bytes are back in the buffer but those whose
        release was dropped. */
    lemma OnlyLostMissing()
      requires Valid()
      ensures forall i :: 0 <= i < |worker.io| ==> worker.io[i] < worker.queue.Length
      ensures (forall i :: 0 <= i < |worker.io| ==> worker.queue[worker.io[i]].completed) ==> ns.pending == lost
    {
      hide Namespace.Valid, Io.Worker.InDebt, Sum;
      worker.InChain(0);
      if forall i :: 0 <= i < |worker.io| ==> worker.queue[worker.io[i]].completed { worker.NothingHeld(); }
    }

    /** Reclaiming finished entries moves no byte. */
    method Reclaim()
      requires Valid()
      modifies worker, worker.queue
      ensures Valid() && Balance() == old(Balance())
    {
      hide Namespace.Valid, Namespace.All, Namespace.Shape, Io.Worker.Valid, Sum;
      InMemory(ns);
      var nrReclaimed := worker.Reclaim();
    }
  }

  /** How many of n releases find a queue with `free` free entries full. */
  function Dropped(n: nat, free: nat): nat {
    if n < free then 0 else if free == 0 then n else n - (free - 1)
  }

  lemma NotOwn(d: Device, ns: Namespace)
    ensures d !in ns.All()
  {}

  lemma InMemory(ns: Namespace)
    ensures forall o :: o in ns.All() ==> allocated(o)
  {}

  lemma Chains(w: Io.Worker)
    requires w.Valid()
    ensures w.free != [] && |w.free| + |w.io| == w.queue.Length
  {
    Io.NoneLost(w.queue.Length, w.free, w.io);
  }

  /** A request for the first o pages of a single partition, while that lasts for o pages. */
  lemma OneRequest(ns: Namespace, ss: seq<State>, o: nat)
    requires |ns.parts| == |ss| == 1 && Lasts(ns.g, ss[0], o) && o > 0
    ensures forall e :: 0 <= e <= o ==> ns.LastsFor(ss, 0, 0, e)
    ensures forall lpn: nat :: Part(lpn, 1) == 0 && Local(lpn, 1) == lpn
    ensures FirstPage(0) == 0 && PagesTouched(0, SECS_PER_PG * o) == o
  {
    hide Lasts;
    forall e | 0 <= e <= o ensures ns.LastsFor(ss, 0, 0, e) {
      PagesInBound(0, 1, 0, e);
      FewerLast(ns.g, ss[0], PagesIn(0, 1, 0, e), o);
    }
  }

  lemma {:induction false} PagesInBound(i: nat, nr: nat, s: nat, e: nat)
    requires nr > 0 && s <= e
    ensures PagesIn(i, nr, s, e) <= e - s
  {
    if s < e { PagesInBound(i, nr, s, e - 1); }
  }

  lemma Split(n: nat, d: nat, b: nat)
    ensures n > 0 ==> n * b == (n - 1) * b + b
    ensures (d + 1) * b == d * b + b
  {}

  lemma NamespaceShape(ns: Namespace)
    requires ns.Valid()
    ensures |ns.parts| > 0 && ns.Shape()
  {}

  /** A device of one partition whose worker has one queue entry. */
  method NewDevice(g: Geo, wbSize: nat) returns (d: Device)
    requires g.WellFormed() && g.slcLines >= 2 && g.tlcLines >= 1 && g.pgsPerOneshotSlc < g.PgsPerLine(0)
    ensures fresh(d) && fresh(d.ns.All()) && fresh(d.worker) && fresh(d.worker.queue)
    ensures d.Valid() && d.ns.g == g && |d.ns.parts| == 1 && |d.worker.free| == 1 && d.lost == d.ns.pending == 0
    ensures d.ns.wbuf.size == d.ns.wbuf.remaining == d.ns.Accounted() == wbSize
    ensures d.worker.InDebt() == 0 && Lasts(g, d.ns.States()[0], g.pgsPerOneshotSlc)
  {
    hide Namespace.Valid, Namespace.All, Namespace.Maps, Namespace.States, Namespace.AllFresh, Io.Worker.Valid, Lasts,
      FreshState, Sum, Geo.WellFormed, Geo.TtPgs, Geo.PgsPerLine;
    var ns := new Namespace(g, 1, wbSize);
    NamespaceShape(ns);
    ns.FreshNamespace();
    ns.FreshLasting(g.pgsPerOneshotSlc);
    InMemory(ns);
    var worker := new Io.Worker(1);
    d := new Device(ns, worker);
    Chains(worker);
  }

  /** With its queue down to one free entry, a device that is written a one-shot page loses it. */
  method LoseRelease(g: Geo, wbSize: nat, x: int, ageUs: seq<int>) returns (d: Device)
    requires g.WellFormed() && g.slcLines >= 2 && g.tlcLines >= 1 && g.pgsPerOneshotSlc < g.PgsPerLine(0)
    requires wbSize >= PGSZ * g.pgsPerOneshotSlc && |ageUs| == g.Lines()
    ensures d.Valid() && d.ns.g == g && d.ns.wbuf.size == wbSize && d.lost == OneshotBytes(g) > 0
    ensures d.worker.InDebt() == 0 && d.ns.wbuf.remaining == wbSize - d.lost && d.ns.Accounted() == wbSize
  {
    hide Device.Valid, Device.Balance, Namespace.Valid, Namespace.All, Namespace.Maps, Namespace.States,
      Namespace.Accounted, Namespace.LastsFor, Namespace.Unfinished, Io.Worker.Valid, Lasts, Sum,
      Geo.WellFormed, Geo.TtPgs, Geo.PgsPerLine;
    var o := g.pgsPerOneshotSlc;
    EnoughPages(g);
    PositiveOneshot(g);
    d := NewDevice(g, wbSize);
    OneRequest(d.ns, d.ns.States(), o);
    var r, flushes;
    ghost var at;
    r, flushes, at := d.Write(0, SECS_PER_PG * o, seq(o, _ => x), seq(o, _ => ageUs), _ => 0);
    AllLost(d, flushes);
  }

  /** What a device without queue entries holds after a one-shot page was written to it. */
  lemma AllLost(d: Device, flushes: nat)
    requires d.Valid() && |d.ns.parts| == 1 && d.ns.g.pgsPerOneshotSlc > 0
    requires d.ns.Accounted() == d.ns.wbuf.remaining + OneshotBytes(d.ns.g)
    requires d.ns.pending == flushes * OneshotBytes(d.ns.g) == d.lost
    ensures d.lost == OneshotBytes(d.ns.g) > 0 && d.worker.InDebt() == 0
  {
    hide Namespace.Valid, Namespace.All, Io.Worker.Valid, Sum;
    var u := d.ns.OneUnfinished();
    OneFlush(d.ns.g, flushes, u);
  }
}
