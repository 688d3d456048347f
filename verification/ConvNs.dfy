/** A namespace over several FTL partitions that share a write buffer: conv_write and
    conv_read. Logical page lpn is page lpn / parts of partition lpn % parts. */
module ConvNs {
  import opened Wrappers
  import opened Radix
  import opened Geometry
  import opened FtlState
  import opened FtlGc
  import opened FtlInit
  import opened FtlFlow
  import opened FtlSpace
  import opened FtlLife
  import opened ConvFtl
  import opened LineMgmt
  import opened WriteBuffer
  import opened Striping
  import opened ConvRead

  datatype WriteResult = Written | PastEnd | BufferBusy | OutOfTlcPages

  class Namespace {
    const g: Geo
    const parts: seq<Partition>
    const wbuf: Buffer
    ghost var pending: nat // bytes whose release is scheduled and has not happened yet

    ghost function All(): set<object> {
      {this, wbuf} + set i, o | 0 <= i < |parts| && o in parts[i].Repr() :: o
    }

    ghost predicate Shape() {
      && |parts| > 0 && g.WellFormed()
      && (forall i :: 0 <= i < |parts| ==> parts[i].g == g && this !in parts[i].Repr() && wbuf !in parts[i].Repr())
      && (forall i, j :: 0 <= i < j < |parts| ==> parts[i].Repr() !! parts[j].Repr())
    }

    ghost predicate Valid()
      reads All()
    {
      Shape() && forall i :: 0 <= i < |parts| ==> parts[i].Rep() && Steady(g, parts[i].S())
    }

    ghost function States(): (r: seq<State>)
      reads All()
      ensures |r| == |parts| && forall i :: 0 <= i < |parts| ==> r[i] == parts[i].S()
    {
      seq(|parts|, i requires 0 <= i < |parts| reads All() => parts[i].S())
    }

    ghost function Maps(): (r: seq<Mapping>)
      reads All()
      ensures |r| == |parts| && forall i :: 0 <= i < |parts| ==> r[i] == parts[i].S().m
    {
      seq(|parts|, i requires 0 <= i < |parts| reads All() => parts[i].S().m)
    }

    /** Pages in the one-shot page that each partition's host pointer is filling. */
    ghost function Unfinished(): (r: seq<nat>)
      requires Shape()
      reads All()
      ensures |r| == |parts| && forall i :: 0 <= i < |parts| ==> r[i] == Offset(g, parts[i].wp)
    {
      seq(|parts|, i requires 0 <= i < |parts| reads All() => Offset(g, parts[i].wp))
    }

    /** A partition's unfinished pages are those of its pointer's one-shot page before the pointer. */
    lemma UnfinishedAt(i: nat)
      requires Shape() && i < |parts|
      ensures g.pgsPerOneshotSlc > 0 && Unfinished()[i] == parts[i].wp.pg % g.pgsPerOneshotSlc
    {}

    /** Free bytes of the write buffer, and the bytes that will come back to it. */
    ghost function Accounted(): int
      requires Shape()
      reads All()
    {
      wbuf.remaining + pending + PGSZ * Sum(Unfinished())
    }

    /** The part of conv_init_namespace that builds the partitions. */
    constructor (g: Geo, nrParts: nat, wbSize: nat)
      requires g.WellFormed() && g.slcLines >= 2 && g.tlcLines >= 1 && nrParts > 0
      ensures Valid() && this.g == g && |parts| == nrParts && fresh(All()) && AllFresh()
      ensures wbuf.size == wbuf.remaining == wbSize && pending == 0
    {
      hide Geo.WellFormed, Steady, FreshState, Partition.Rep, Partition.S, Partition.Repr, All;
      this.g := g;
      wbuf := new Buffer(wbSize);
      var ps := Namespace.MakeParts(g, nrParts);
      parts := ps;
      pending := 0;
      new;
      FreshSteady(g);
      forall i | 0 <= i < |parts| ensures this !in parts[i].Repr() && wbuf !in parts[i].Repr() {
        ForeignObjects(parts[i], this, wbuf);
      }
      AllNew(this);
    }

    /** A namespace of new objects is all new. */
    static twostate lemma AllNew(new ns: Namespace)
      requires fresh(ns) && fresh(ns.wbuf) && forall i :: 0 <= i < |ns.parts| ==> fresh(ns.parts[i].Repr())
      ensures fresh(ns.All())
    {}

    ghost predicate AllFresh()
      requires g.slcLines >= 1 && g.tlcLines >= 1
      reads All()
    {
      forall i :: 0 <= i < |parts| ==> parts[i].S() == FreshState(g)
    }

    /** A new namespace has all its buffer accounted for, and every logical page unmapped. */
    lemma FreshNamespace()
      requires Valid() && g.slcLines >= 2 && g.tlcLines >= 1 && AllFresh()
      ensures Accounted() == wbuf.remaining + pending
      ensures AllSized(Maps(), g.TtPgs())
      ensures forall lpn: nat :: Local(lpn, |parts|) < g.TtPgs() ==> NsLookup(Maps(), lpn) == None
    {
      hide Geo.WellFormed, Steady, FreshState, Offset, Lookup, Part, Local, Sum, Partition.Rep, Partition.S;
      FreshFacts(g);
      forall i | 0 <= i < |parts| ensures parts[i].wp == FreshState(g).wp { StateFields(parts[i]); }
      SumZero(Unfinished());
    }

    static method MakeParts(g: Geo, nrParts: nat) returns (ps: seq<Partition>)
      requires g.WellFormed() && g.slcLines >= 1 && g.tlcLines >= 1
      ensures |ps| == nrParts
      ensures forall i :: 0 <= i < nrParts ==>
        fresh(ps[i].Repr()) && ps[i].g == g && ps[i].Rep() && ps[i].S() == FreshState(g)
      ensures forall i, j :: 0 <= i < j < nrParts ==> ps[i].Repr() !! ps[j].Repr()
    {
      hide Geo.WellFormed, FreshState, Partition.Rep, Partition.S;
      ps := [];
      for k := 0 to nrParts
        invariant |ps| == k
        invariant forall i :: 0 <= i < k ==>
          fresh(ps[i].Repr()) && ps[i].g == g && ps[i].Rep() && ps[i].S() == FreshState(g)
        invariant forall i, j :: 0 <= i < j < k ==> ps[i].Repr() !! ps[j].Repr()
      {
        var part := new Partition(g);
        ps := ps + [part];
      }
    }

    /** A page write in partition i, which leaves the others alone. */
    method WriteLocal(i: nat, n: nat, x: int, ageUs: seq<int>)
        returns (ok: bool, ghost stuck: State, ghost round: Round)
      requires Valid() && i < |parts| && n < g.TtPgs() && |ageUs| == g.Lines()
      modifies All()
      ensures wbuf.remaining == old(wbuf.remaining) && pending == old(pending)
      ensures ok ==> Valid() && Maps() == old(Maps())[i := Maps()[i]] && Writes(old(Maps())[i], Maps()[i], n, x)
      ensures ok ==> Unfinished() == old(Unfinished())[i := NextUnfinished(g, old(Unfinished())[i])]
      ensures var s := old(States())[i];
        if ok then PageWritten(g, s, n, x, ageUs, round, States()[i]) && States() == old(States())[i := States()[i]]
        else WriteFails(g, s, n, x, ageUs, round) && Charged(g, s, n, x) == Some(stuck) && Quiescent(g, stuck)
    {
      hide Steady, Writes, PageWritten, ForegroundFails, Charged, Offset, Partition.Rep, Partition.S, Partition.Repr,
        Geo.WellFormed, Geo.ValidPpa;
      ghost var s, ss, ms, un := parts[i].S(), States(), Maps(), Unfinished();
      SteadySizes(g, s);
      StateFields(parts[i]);
      forall j | 0 <= j < |parts| { OwnObjects(parts[j]); }
      ok, round := parts[i].WritePage(n, x, ageUs);
      stuck := s;
      if !ok {
        ChargedOk(g, s, n, x);
        stuck := Charged(g, s, n, x).value;
        return;
      }
      StateFields(parts[i]);
      HostPointer(g, s, n, x, ageUs, round, parts[i].S());
      OffsetMoves(g, s.wp, parts[i].wp);
      forall j | 0 <= j < |parts| && j != i
        ensures parts[j].S() == old(parts[j].S()) && parts[j].wp == old(parts[j].wp) && parts[j].Rep()
      {
        assert parts[j].Repr() !! parts[i].Repr();
      }
      assert States() == ss[i := States()[i]];
      assert Maps() == ms[i := Maps()[i]];
      assert Unfinished() == un[i := Unfinished()[i]];
    }

    /** The pass of the loop of conv_write for logical page lpn; the last page of a one-shot
        page schedules the release of its bytes. */
    method WriteOne(lpn: nat, x: int, ageUs: seq<int>)
      returns (ok: bool, flushed: bool, ghost stuck: State, ghost round: Round)
      requires Valid() && Local(lpn, |parts|) < g.TtPgs() && |ageUs| == g.Lines()
      modifies All()
      ensures ok ==> Valid() && wbuf.remaining == old(wbuf.remaining)
      ensures ok ==> var i := Part(lpn, |parts|);
        Writes(old(Maps())[i], Maps()[i], Local(lpn, |parts|), x) && Maps() == old(Maps())[i := Maps()[i]]
      ensures ok ==> Accounted() == old(Accounted()) + PGSZ
      ensures ok ==> pending == old(pending) + if flushed then OneshotBytes(g) else 0
      ensures flushed <==> old(Unfinished())[Part(lpn, |parts|)] == g.pgsPerOneshotSlc - 1
      ensures var s, n := old(States())[Part(lpn, |parts|)], Local(lpn, |parts|);
        if ok
        then PageWritten(g, s, n, x, ageUs, round, States()[Part(lpn, |parts|)])
             && States() == old(States())[Part(lpn, |parts|) := States()[Part(lpn, |parts|)]]
        else WriteFails(g, s, n, x, ageUs, round) && Charged(g, s, n, x) == Some(stuck) && Quiescent(g, stuck)
    {
      hide Valid, Shape, All, States, Maps, Unfinished, Writes, PageWritten, WriteFails, Charged, Offset, Part, Local,
        Sum,
        Geo.WellFormed;
      Shaped();
      PositiveOneshot(g);
      var i := Part(lpn, |parts|);
      ghost var un := Unfinished();
      flushed := Offset(g, parts[i].wp) == g.pgsPerOneshotSlc - 1;
      ok, stuck, round := WriteLocal(i, Local(lpn, |parts|), x, ageUs);
      if ok {
        SumUpdate(un, i, NextUnfinished(g, un[i]));
        if flushed {
          ScheduleRelease(OneshotBytes(g));
        }
      }
    }

    /** schedule_internal_operation for bytes of the write buffer. */
    ghost method ScheduleRelease(bytes: nat)
      requires Valid()
      modifies `pending
      ensures Valid() && States() == old(States()) && Maps() == old(Maps()) && Unfinished() == old(Unfinished())
      ensures pending == old(pending) + bytes
    {
      hide Steady, Offset, Partition.Rep, Partition.S, Partition.Repr, Geo.WellFormed;
      ghost var ss, ms, un := States(), Maps(), Unfinished();
      pending := pending + bytes;
      assert States() == ss && Maps() == ms && Unfinished() == un;
    }

    /** conv_write: nlb blocks from block slba, page k of the request holding xs[k]. Not
        written at all when the request ends past the partitions or the buffer is short. TLC pages
        run out only in a partition whose credits and space do not last for its pages. */
    method Write(slba: nat, nlb: nat, xs: seq<int>, ageUs: seq<seq<int>>)
      returns (r: WriteResult, flushes: nat, ghost stuck: State, ghost round: Round, ghost at: nat)
      requires Valid() && 1 <= nlb && LBA_SIZE * nlb <= wbuf.size
      requires |xs| == |ageUs| == PagesTouched(slba, nlb) && forall k :: 0 <= k < |ageUs| ==> |ageUs[k]| == g.Lines()
      modifies All()
      ensures r == PastEnd <==> Local(FirstPage(slba) + |xs| - 1, |parts|) >= g.TtPgs()
      ensures r == BufferBusy <==> r != PastEnd && old(wbuf.remaining) < LBA_SIZE * nlb
      ensures r == PastEnd || r == BufferBusy ==> Valid() && Maps() == old(Maps()) && Accounted() == old(Accounted())
      ensures r == PastEnd || r == BufferBusy ==> flushes == 0 && pending == old(pending)
      ensures r == Written ==>
        && Valid() && RangeWritten(old(Maps()), Maps(), g.TtPgs(), FirstPage(slba), FirstPage(slba) + |xs|, xs)
        && Accounted() == old(Accounted()) + PGSZ * |xs| - LBA_SIZE * nlb
        && wbuf.remaining == old(wbuf.remaining) - LBA_SIZE * nlb && pending == old(pending) + flushes * OneshotBytes(g)
      ensures r == Written ==> LastsLess(old(States()), States(), FirstPage(slba), FirstPage(slba) + |xs|)
      ensures r == OutOfTlcPages ==>
        && at < |ageUs| && Quiescent(g, stuck) && ForegroundFails(g, stuck, ageUs[at], round)
        && !LastsFor(old(States()), Part(FirstPage(slba) + at, |parts|), FirstPage(slba), FirstPage(slba) + at + 1)
    {
      hide Valid, Shape, All, States, Maps, Accounted, ForegroundFails, Part, Local, RangeWritten, LastsLess, LastsFor;
      Shaped();
      var first, last := slba / SECS_PER_PG, (slba + nlb - 1) / SECS_PER_PG;
      flushes, stuck, round, at := 0, *, *, 0;
      if Local(last, |parts|) >= g.TtPgs() {
        return PastEnd, 0, stuck, round, at;
      }
      var got := Reserve(LBA_SIZE * nlb);
      if got < LBA_SIZE * nlb {
        return BufferBusy, 0, stuck, round, at;
      }
      var ok;
      ok, flushes, stuck, round, at := WriteRange(first, last, xs, ageUs);
      r := if ok then Written else OutOfTlcPages;
    }

    /** buffer_allocate, as the namespace sees it. */
    method Reserve(bytes: nat) returns (got: nat)
      requires Valid() && bytes <= wbuf.size
      modifies wbuf
      ensures Valid() && States() == old(States()) && Maps() == old(Maps()) && Accounted() == old(Accounted()) - got
      ensures wbuf.remaining == old(wbuf.remaining) - got
      ensures got == if old(wbuf.remaining) < bytes then 0 else bytes
    {
      hide Steady, Offset, Sum, Partition.Rep, Partition.S, Partition.Repr, Geo.WellFormed;
      ghost var ss, ms, un := States(), Maps(), Unfinished();
      forall j | 0 <= j < |parts| { OwnObjects(parts[j]); }
      got := wbuf.Allocate(bytes);
      assert States() == ss && Maps() == ms && Unfinished() == un;
    }

    /** The loop of conv_write. */
    method WriteRange(first: nat, last: nat, xs: seq<int>, ageUs: seq<seq<int>>)
      returns (ok: bool, flushes: nat, ghost stuck: State, ghost round: Round, ghost at: nat)
      requires Valid() && first <= last && |xs| == |ageUs| == last + 1 - first && Local(last, |parts|) < g.TtPgs()
      requires forall k :: 0 <= k < |ageUs| ==> |ageUs[k]| == g.Lines()
      modifies All()
      ensures ok ==> Valid() && RangeWritten(old(Maps()), Maps(), g.TtPgs(), first, first + |xs|, xs)
      ensures ok ==> Accounted() == old(Accounted()) + PGSZ * |xs| && wbuf.remaining == old(wbuf.remaining)
      ensures ok ==> pending == old(pending) + flushes * OneshotBytes(g)
      ensures ok ==> LastsLess(old(States()), States(), first, first + |xs|)
      ensures !ok ==>
        && at < |ageUs| && Quiescent(g, stuck) && ForegroundFails(g, stuck, ageUs[at], round)
        && !LastsFor(old(States()), Part(first + at, |parts|), first, first + at + 1)
    {
      hide Valid, Shape, All, States, Maps, Accounted, Writes, PageWritten, WriteFails, Charged, ForegroundFails, Part,
        Local, RangeWritten, LastsLess, LastsFor, Lasts, Steady, OneshotBytes, Quiescent;
      Shaped();
      ghost var ss, ms := States(), Maps();
      LastsNone(ss, first);
      MapsSized();
      NothingWritten(ms, g.TtPgs(), first, xs);
      ok, flushes, stuck, round, at := true, 0, *, *, 0;
      for lpn: nat := first to last + 1
        invariant Valid() && RangeWritten(ms, Maps(), g.TtPgs(), first, lpn, xs) && LastsLess(ss, States(), first, lpn)
        invariant Accounted() == old(Accounted()) + PGSZ * (lpn - first) && wbuf.remaining == old(wbuf.remaining)
        invariant pending == old(pending) + flushes * OneshotBytes(g)
      {
        LocalMono(lpn, last, |parts|);
        ghost var ss1, ms1 := States(), Maps();
        AllSteady();
        var flushed;
        ok, flushed, stuck, round := WriteOne(lpn, xs[lpn - first], ageUs[lpn - first]);
        if !ok {
          at := lpn - first;
          FailsAt(ss, ss1, first, lpn, xs[lpn - first], ageUs[lpn - first], stuck, round);
          return;
        }
        if flushed {
          AddProducts(flushes, 1, OneshotBytes(g));
          flushes := flushes + 1;
        }
        LastsStep(ss, ss1, States(), first, lpn, xs[lpn - first], ageUs[lpn - first], round);
        RangeGrows(ms, ms1, Maps()[Part(lpn, |parts|)], g.TtPgs(), first, lpn, xs);
      }
    }

    /** The credits and the space of partition i last for its pages among [s, e). */
    ghost predicate LastsFor(ss: seq<State>, i: nat, s: nat, e: nat)
      requires |ss| == |parts| > 0 && i < |ss|
    {
      Lasts(g, ss[i], PagesIn(i, |parts|, s, e))
    }

    /** Writing pages [s, e) took ss to ss': each partition lasts as much less as it has pages there. */
    ghost predicate LastsLess(ss: seq<State>, ss': seq<State>, s: nat, e: nat)
      requires |ss| == |parts| > 0 && |ss'| == |parts|
    {
      forall i, k :: 0 <= i < |ss| && k >= 0 && Lasts(g, ss[i], PagesIn(i, |parts|, s, e) + k) ==> Lasts(g, ss'[i], k)
    }

    lemma LastsNone(ss: seq<State>, s: nat)
      requires |ss| == |parts| > 0
      ensures LastsLess(ss, ss, s, s)
    {
      hide Lasts;
    }

    lemma AllSteady()
      requires Valid()
      ensures forall i :: 0 <= i < |parts| ==> Steady(g, States()[i]) && |States()[i].m.maptbl| == g.TtPgs()
    {
      hide Steady, Partition.Rep, Partition.S, Geo.WellFormed;
      forall i | 0 <= i < |parts| ensures |States()[i].m.maptbl| == g.TtPgs() { SteadySizes(g, parts[i].S()); }
    }

    lemma LastsStep(ss: seq<State>, ss1: seq<State>, ss2: seq<State>, s: nat, lpn: nat, x: int, ageUs: seq<int>,
        round: Round)
      requires |ss| == |ss1| == |ss2| == |parts| > 0 && s <= lpn && LastsLess(ss, ss1, s, lpn)
      requires forall i :: 0 <= i < |parts| ==> Steady(g, ss1[i]) && |ss1[i].m.maptbl| == g.TtPgs()
      requires var i, n := Part(lpn, |parts|), Local(lpn, |parts|);
        n < g.TtPgs() && PageWritten(g, ss1[i], n, x, ageUs, round, ss2[i]) && ss2 == ss1[i := ss2[i]]
      ensures LastsLess(ss, ss2, s, lpn + 1)
    {
      hide Steady, PageWritten, Lasts, Part, Local, Geo.TtPgs;
      var i := Part(lpn, |parts|);
      LastsOn(g, ss1[i], Local(lpn, |parts|), x, ageUs, round, ss2[i]);
      forall j, k | 0 <= j < |ss| && k >= 0 && Lasts(g, ss[j], PagesIn(j, |parts|, s, lpn + 1) + k)
        ensures Lasts(g, ss2[j], k)
      {
        if j == i {
          assert Lasts(g, ss[i], PagesIn(i, |parts|, s, lpn) + (k + 1));
          assert Lasts(g, ss1[i], k + 1);
        }
      }
    }

    lemma FailsAt(ss: seq<State>, ss1: seq<State>, s: nat, lpn: nat, x: int, ageUs: seq<int>, stuck: State,
        round: Round)
      requires |ss| == |ss1| == |parts| > 0 && s <= lpn && LastsLess(ss, ss1, s, lpn)
      requires forall i :: 0 <= i < |parts| ==> Steady(g, ss1[i]) && |ss1[i].m.maptbl| == g.TtPgs()
      requires var i, n := Part(lpn, |parts|), Local(lpn, |parts|);
        n < g.TtPgs() && WriteFails(g, ss1[i], n, x, ageUs, round) && Charged(g, ss1[i], n, x) == Some(stuck)
      ensures ForegroundFails(g, stuck, ageUs, round) && !LastsFor(ss, Part(lpn, |parts|), s, lpn + 1)
    {
      hide Steady, Charged, ForegroundFails, Lasts, Part, Local, Geo.TtPgs;
      var i := Part(lpn, |parts|);
      NotLasting(g, ss1[i], Local(lpn, |parts|), x, ageUs, round);
      assert !Lasts(g, ss1[i], 1);
      assert !Lasts(g, ss[i], PagesIn(i, |parts|, s, lpn) + 1);
      assert PagesIn(i, |parts|, s, lpn + 1) == PagesIn(i, |parts|, s, lpn) + 1;
    }

    /** With one partition, page k of a request of one page. */
    lemma OnePart(ss: seq<State>, k: nat, m: int)
      requires |parts| == |ss| == 1 && m >= 1 && Lasts(g, ss[0], m)
      ensures Part(k, 1) == 0 && Local(k, 1) == k && LastsFor(ss, 0, k, k + 1)
      ensures forall ss' :: |ss'| == 1 && LastsLess(ss, ss', k, k + 1) ==> Lasts(g, ss'[0], m - 1)
    {
      hide Lasts;
      assert PagesIn(0, 1, k, k + 1) == 1;
      assert Lasts(g, ss[0], PagesIn(0, 1, k, k + 1) + (m - 1));
      FewerLast(g, ss[0], 1, m);
    }

    /** A new namespace with k pages of credit lasts for k pages in each partition. */
    lemma FreshLasting(k: int)
      requires Valid() && g.slcLines >= 2 && g.tlcLines >= 1 && AllFresh() && k < g.PgsPerLine(0)
      ensures forall i :: 0 <= i < |parts| ==> Lasts(g, States()[i], k)
    {
      hide Steady, FreshState, Lasts, Partition.Rep, Partition.S, Geo.PgsPerLine, Geo.WellFormed;
      FreshLasts(g, k);
    }

    /** With one partition at most the pages of one one-shot page are unfinished. */
    lemma OneUnfinished() returns (u: nat)
      requires Valid() && |parts| == 1
      ensures u < g.pgsPerOneshotSlc && Accounted() == wbuf.remaining + pending + PGSZ * u
    {
      hide Steady, Offset, Partition.Rep, Partition.S, Partition.Repr, Geo.WellFormed;
      PositiveOneshot(g);
      u := Unfinished()[0];
      assert Unfinished()[1..] == [] && Sum(Unfinished()) == u + Sum([]);
    }

    lemma Shaped()
      requires Valid()
      ensures Shape() && |parts| > 0 && g.WellFormed() && this in All() && wbuf in All()
    {}

    lemma MapsSized()
      requires Valid()
      ensures AllSized(Maps(), g.TtPgs())
    {
      hide Steady, Partition.Rep, Partition.S, Geo.WellFormed;
      forall i | 0 <= i < |parts| ensures |Maps()[i].maptbl| == g.TtPgs() { SteadySizes(g, parts[i].S()); }
    }

    /** The worker's buffer_release for n of the bytes whose release was scheduled. */
    method Drain(n: nat)
      requires Valid() && n <= pending
      modifies this, wbuf
      ensures Valid() && Maps() == old(Maps()) && Accounted() == old(Accounted())
      ensures wbuf.remaining == old(wbuf.remaining) + n && pending == old(pending) - n
    {
      hide Steady, Offset, Sum, Partition.Rep, Partition.S, Partition.Repr, Geo.WellFormed;
      ghost var ms, un := Maps(), Unfinished();
      forall j | 0 <= j < |parts| { OwnObjects(parts[j]); }
      wbuf.Release(n);
      pending := pending - n;
      assert Maps() == ms && Unfinished() == un;
    }

    /** The mapping tables of the partitions. */
    ghost function Tables(): (r: Tables)
      requires |parts| > 0
      reads All()
      ensures |r| == |parts| && forall i :: 0 <= i < |parts| ==> r[i] == parts[i].S().m.maptbl
    {
      seq(|parts|, i requires 0 <= i < |parts| reads All() => parts[i].S().m.maptbl)
    }

    /** conv_read: each mapped page of the request is read once, pages of one flash page that
        follow each other in a partition together. */
    method Read(slba: nat, nlb: nat) returns (ok: bool, rs: seq<NandRead>, ghost gs: seq<set<nat>>)
      requires Valid() && 1 <= nlb
      ensures ok <==> Local(FirstPage(slba) + PagesTouched(slba, nlb) - 1, |parts|) < g.TtPgs()
      ensures ok ==>
        var mapped := MappedPages(Tables(), FirstPage(slba), FirstPage(slba) + PagesTouched(slba, nlb));
        && g.pgsPerFlashpg > 0 && Reads(g, Tables(), rs, gs, mapped)
        && Ordered(FirstPage(slba), |parts|, gs) && Separate(g, rs)
        && (forall k :: 0 <= k < |rs| ==> rs[k].bytes <= PGSZ * g.pgsPerFlashpg)
        && Bytes(rs) == PGSZ * |mapped|
    {
      hide Valid, Shape, All, Tables, Part, Local, Reads, Bytes, AllReadable, MappedPages, Ordered, Separate;
      Shaped();
      var start, last := slba / SECS_PER_PG, (slba + nlb - 1) / SECS_PER_PG;
      rs, gs := [], [];
      if Local(last, |parts|) >= g.TtPgs() {
        return false, rs, gs;
      }
      rs, gs := ReadParts(start, last);
      ok := true;
    }

    /** The pages that reads look at are the mapped ones. */
    lemma ReadableIsMapped(s: nat, e: nat)
      requires Valid()
      ensures AllReadable(g, Tables(), s, e) == MappedPages(Tables(), s, e)
    {
      hide Steady, Readable, Part, Local, Partition.Rep, Partition.S, Partition.Repr;
      forall lpn: nat
        ensures lpn in AllReadable(g, Tables(), s, e) <==> lpn in MappedPages(Tables(), s, e)
      {
        var p := parts[Part(lpn, |parts|)];
        SteadyQuiescent(g, p.S());
        SteadySizes(g, p.S());
        if Local(lpn, |parts|) < g.TtPgs() {
          MappedReadable(g, p.S(), Local(lpn, |parts|));
        } else {
          NotReadable(g, Tables(), lpn);
        }
      }
    }

    /** The outer loop of conv_read, over the partitions from that of page first on. */
    method ReadParts(first: nat, last: nat) returns (rs: seq<NandRead>, ghost gs: seq<set<nat>>)
      requires Valid() && first <= last && Local(last, |parts|) < g.TtPgs()
      ensures g.pgsPerFlashpg > 0 && Reads(g, Tables(), rs, gs, MappedPages(Tables(), first, last + 1))
      ensures Ordered(first, |parts|, gs) && Separate(g, rs)
      ensures forall k :: 0 <= k < |rs| ==> rs[k].bytes <= PGSZ * g.pgsPerFlashpg
      ensures Bytes(rs) == PGSZ * |MappedPages(Tables(), first, last + 1)|
    {
      hide Steady, Part, Local, Reads, Bytes, ReadableUpTo, ReadableIn, AllReadable, MappedPages, Partition.Rep,
        Partition.S, Partition.Repr, Ordered, Separate, NoneFrom, Ascending;
      ghost var ts := Tables();
      var start := first;
      rs, gs := [], [];
      var i := 0;
      forall j | 0 <= j < |parts| { OwnObjects(parts[j]); }
      NoReads(g, ts, first, last + 1);
      NoneOrdered(g, first, |parts|);
      ReadableIsMapped(first, last + 1);
      while i < |parts| && start <= last
        invariant i <= |parts| && start == first + i && Valid() && Tables() == ts
        invariant Reads(g, ts, rs, gs, ReadableUpTo(g, ts, first, last + 1, i))
        invariant Ordered(first, |parts|, gs) && Separate(g, rs) && NoneFrom(rs, first, i, |parts|)
      {
        var p := Part(start, |parts|);
        StateFields(parts[p]);
        SteadySizes(g, parts[p].S());
        var rs1;
        ghost var gs1;
        rs1, gs1 := ReadPart(g, parts[p].maptbl, start, last, ts, |parts|);
        PartJoined(g, ts, first, last + 1, i, rs, gs, rs1, gs1);
        rs, gs := rs + rs1, gs + gs1;
        i, start := i + 1, start + 1;
      }
      EveryPart(g, ts, first, last + 1, i);
      ReadsBounded(rs, gs, AllReadable(g, ts, first, last + 1));
    }

    lemma ReadsBounded(rs: seq<NandRead>, gs: seq<set<nat>>, d: set<nat>)
      requires Valid() && g.pgsPerFlashpg > 0 && Reads(g, Tables(), rs, gs, d)
      ensures (forall k :: 0 <= k < |rs| ==> rs[k].bytes <= PGSZ * g.pgsPerFlashpg) && Bytes(rs) == PGSZ * |d|
    {
      hide Steady, Serves, Part, Local, Partition.Rep, Partition.S, Partition.Repr;
      forall k | 0 <= k < |rs| ensures rs[k].bytes <= PGSZ * g.pgsPerFlashpg {
        assert Serves(g, Tables(), rs[k], gs[k]);
        ServedPart(g, Tables(), rs[k], gs[k]);
        SteadyQuiescent(g, parts[rs[k].part].S());
        ReadBound(g, parts[rs[k].part].S(), Tables(), rs[k], gs[k]);
      }
    }

    /** With every byte accounted for, the buffer never holds more free bytes than its size, and
        once all scheduled releases are done any request within this bound is accepted. */
    lemma DrainedAccepts(bytes: nat)
      requires Valid() && Accounted() == wbuf.size
      ensures wbuf.remaining <= wbuf.size
      ensures pending == 0 && bytes <= wbuf.size - PGSZ * (|parts| * (g.pgsPerOneshotSlc - 1)) ==>
        bytes <= wbuf.remaining
    {
      hide Steady, Offset, Sum, Partition.Rep, Partition.S, Partition.Repr, Geo.WellFormed;
      PositiveOneshot(g);
      SumBound(Unfinished(), g.pgsPerOneshotSlc - 1);
    }
  }

  /** Bytes of an SLC one-shot page. */
  function OneshotBytes(g: Geo): nat { PGSZ * g.pgsPerOneshotSlc }

  /** How the count of unfinished pages of a partition moves with each page written. */
  function NextUnfinished(g: Geo, k: nat): nat {
    if k + 1 == g.pgsPerOneshotSlc then 0 else k + 1
  }

  lemma PositiveOneshot(g: Geo)
    requires g.WellFormed()
    ensures g.pgsPerOneshotSlc > 0 && forall c :: Offset(g, c) < g.pgsPerOneshotSlc
  {}

  lemma ForeignObjects(p: Partition, ns: Namespace, b: Buffer)
    ensures ns !in p.Repr() && b !in p.Repr()
  {}

  lemma OwnObjects(p: Partition)
    ensures p in p.Repr() && forall o :: o in p.Repr() ==> allocated(o)
  {}

  lemma NotReadable(g: Geo, ts: Tables, lpn: nat)
    requires Local(lpn, |ts|) >= |ts[Part(lpn, |ts|)]|
    ensures !Readable(g, ts[Part(lpn, |ts|)], Local(lpn, |ts|))
  {}

  lemma StateFields(p: Partition)
    ensures p.S().wp == p.wp && p.S().m.maptbl == p.maptbl
  {}

  lemma SteadySizes(g: Geo, s: State)
    requires Steady(g, s)
    ensures |s.m.maptbl| == g.TtPgs() && g.WellFormed()
  {}

  lemma FreshFacts(g: Geo)
    requires g.WellFormed() && g.slcLines >= 1 && g.tlcLines >= 1
    ensures g.pgsPerOneshotSlc > 0 && Offset(g, FreshState(g).wp) == 0 && |FreshState(g).m.maptbl| == g.TtPgs()
    ensures forall n: nat :: n < g.TtPgs() ==> Lookup(FreshState(g).m, n) == None
  {
    FreshOk(g);
  }

  /** One block of page k of a namespace of one partition, while that lasts. */
  method WriteBlock(ns: Namespace, k: nat, x: int, ageUs: seq<int>, ghost m: nat) returns (flushes: nat)
    requires ns.Valid() && |ns.parts| == 1 && k < ns.g.TtPgs() && |ageUs| == ns.g.Lines()
    requires LBA_SIZE <= ns.wbuf.size && LBA_SIZE <= ns.wbuf.remaining && m >= 1 && Lasts(ns.g, ns.States()[0], m)
    modifies ns.All()
    ensures ns.Valid() && Lasts(ns.g, ns.States()[0], m - 1)
    ensures ns.wbuf.remaining == old(ns.wbuf.remaining) - LBA_SIZE
    ensures ns.Accounted() == old(ns.Accounted()) + PGSZ - LBA_SIZE
    ensures ns.pending == old(ns.pending) + flushes * OneshotBytes(ns.g)
  {
    hide Namespace.Valid, Namespace.All, Namespace.Maps, Namespace.States, Namespace.Accounted, Namespace.LastsLess,
      Namespace.LastsFor, RangeWritten, ForegroundFails, Quiescent, Lasts, OneshotBytes, Geo.WellFormed, Geo.TtPgs;
    ns.Shaped();
    ghost var ss := ns.States();
    ns.OnePart(ss, k, m);
    var r;
    ghost var stuck, round, at;
    r, flushes, stuck, round, at := ns.Write(SECS_PER_PG * k, 1, [x], [ageUs]);
  }

  /** One-block writes to the pages of a one-shot page, one after the other, give back the whole
      one-shot page: the drained buffer is left with more free bytes than its size. */
  method OverfillBuffer(g: Geo, wbSize: nat, x: int, ageUs: seq<int>) returns (ns: Namespace)
    requires g.WellFormed() && g.slcLines >= 2 && g.tlcLines >= 1 && g.pgsPerOneshotSlc < g.PgsPerLine(0)
    requires wbSize >= LBA_SIZE * g.pgsPerOneshotSlc && |ageUs| == g.Lines()
    ensures ns.Valid() && ns.g == g && ns.pending == 0 && ns.wbuf.size == wbSize
    ensures ns.wbuf.remaining == wbSize + (PGSZ - LBA_SIZE) * g.pgsPerOneshotSlc
  {
    hide Namespace.Valid, Namespace.All, Namespace.Maps, Namespace.States, Namespace.Accounted, Namespace.AllFresh,
      Namespace.Shape, Lasts, FreshState, OneshotBytes, Geo.WellFormed, Geo.TtPgs, Geo.PgsPerLine;
    ns := new Namespace(g, 1, wbSize);
    ns.Shaped();
    ns.FreshNamespace();
    ns.FreshLasting(g.pgsPerOneshotSlc);
    EnoughPages(g);
    var k, flushes: nat := 0, 0;
    while k < g.pgsPerOneshotSlc
      invariant k <= g.pgsPerOneshotSlc && fresh(ns.All()) && ns.Valid() && ns.g == g && |ns.parts| == 1
      invariant ns.wbuf.size == wbSize && ns.wbuf.remaining == wbSize - LBA_SIZE * k
      invariant ns.Accounted() == wbSize + (PGSZ - LBA_SIZE) * k && ns.pending == flushes * OneshotBytes(g)
      invariant Lasts(g, ns.States()[0], g.pgsPerOneshotSlc - k)
    {
      var f := WriteBlock(ns, k, x, ageUs, g.pgsPerOneshotSlc - k);
      AddProducts(flushes, f, OneshotBytes(g));
      k, flushes := k + 1, flushes + f;
    }
    ghost var u := ns.OneUnfinished();
    OneFlush(g, flushes, u);
    ns.Drain(OneshotBytes(g));
  }

  lemma AddProducts(a: nat, b: nat, m: nat)
    ensures (a + b) * m == a * m + b * m
  {}

  /** A one-shot page's worth of pages was flushed once, if fewer are left over. */
  lemma OneFlush(g: Geo, flushes: nat, u: nat)
    requires u < g.pgsPerOneshotSlc && PGSZ * g.pgsPerOneshotSlc == flushes * OneshotBytes(g) + PGSZ * u
    ensures flushes == 1 && u == 0 && OneshotBytes(g) == PGSZ * g.pgsPerOneshotSlc
  {
    if flushes >= 2 { MulMono(2, flushes, OneshotBytes(g)); }
  }

  /** The pages of a line are pages of the partition. */
  lemma EnoughPages(g: Geo)
    requires g.slcLines >= 1
    ensures g.PgsPerLine(0) <= g.TtPgs()
  {
    AllLines(g);
    PagesBelowIs(g, g.Lines());
    MulMono(1, g.slcLines, g.PgsPerLine(0));
    MulMono(0, g.tlcLines, g.PgsPerLine(g.slcLines));
  }

  lemma FewerLast(g: Geo, s: State, k: int, m: int)
    requires k <= m && Lasts(g, s, m)
    ensures Lasts(g, s, k)
  {}
}
