/** The zone state machine (zns_read_write.c, zns_mgmt_send.c, zns_ftl.h) and the counts of open
    and active zones (section 2.1.1.3 of Zoned Namespace Command Set Specification, revision
    1.1a). */
module Zns {
  import opened Counting
  import opened Radix
  import opened WriteBuffer
  import ZB = ZoneBuffer

  datatype ZoneState = Empty | OpenedImpl | OpenedExpl | Closed | ReadOnly | Full | Offline

  /** struct zone_descriptor, without its constants. */
  datatype Zone = Zone(state: ZoneState, wp: nat, zrwav: bool)

  datatype Resource = ActiveZone | OpenZone | ZrwaZone

  datatype Action = CloseZone | FinishZone | OpenAction | ResetZone | OfflineZone

  datatype Status = Success | InvalidTransition | NoActiveZone | NoOpenZone | ZrwaUnavailable
                  | InvalidWrite | ErrBoundary | ErrFull | ErrReadOnly | ErrOffline

  predicate Opened(st: ZoneState) { st == OpenedImpl || st == OpenedExpl }

  predicate Active(st: ZoneState) { Opened(st) || st == Closed }

  // ---------- The zone state machine ----------

  /** Where a zone management action takes a zone, if it is allowed there. */
  function Target(a: Action, st: ZoneState): (r: ZoneState)
  {
    match a
    case CloseZone => if Opened(st) then Closed else st
    case FinishZone => if Active(st) || st == Empty then Full else st
    case OpenAction => if Active(st) || st == Empty then OpenedExpl else st
    case ResetZone => if Active(st) || st == Full then Empty else st
    case OfflineZone => if st == ReadOnly then Offline else st
  }

  predicate Allowed(a: Action, st: ZoneState) {
    match a
    case CloseZone => Active(st)
    case FinishZone => Active(st) || st == Empty || st == Full
    case OpenAction => Active(st) || st == Empty
    case ResetZone => Active(st) || st == Empty || st == Full
    case OfflineZone => st == ReadOnly || st == Offline
  }

  // ---------- Who holds a resource ----------

  /** Which zones a resource counts: opened, opened or closed, and those with a ZRWA. */
  predicate Holds(z: Zone, t: Resource) {
    match t
    case ActiveZone => Active(z.state)
    case OpenZone => Opened(z.state)
    case ZrwaZone => Active(z.state) && z.zrwav
  }

  ghost function Holders(zs: seq<Zone>, t: Resource): set<nat> {
    set i: nat | i < |zs| && Holds(zs[i], t)
  }

  lemma HoldersUpdate(zs: seq<Zone>, i: nat, z: Zone, t: Resource)
    requires i < |zs|
    ensures |Holders(zs[i := z], t)| == |Holders(zs, t)| - One(Holds(zs[i], t)) + One(Holds(z, t))
  {
    hide Holds;
    CardToggle(Holders(zs, t), Holders(zs[i := z], t), i);
  }

  /** Counters that are the true counts, within their limits. */
  ghost predicate Counted(zs: seq<Zone>, acquired: map<Resource, int>, total: map<Resource, int>) {
    forall t: Resource :: t in acquired && t in total && acquired[t] == |Holders(zs, t)| <= total[t]
  }

  /** With limits no smaller than the number of zones, a zone that does not hold a resource can
      always have it. */
  lemma NeverRefused(zs: seq<Zone>, acquired: map<Resource, int>, total: map<Resource, int>, i: nat, t: Resource)
    requires Counted(zs, acquired, total) && i < |zs| && !Holds(zs[i], t) && total[t] >= |zs|
    ensures acquired[t] < total[t]
  {
    RangeIs(0, |zs|);
    SubsetCard(Holders(zs, t) + {i}, Range(0, |zs|));
  }

  /** The write pointer of zone i, whose LBAs are [i * lbas, (i + 1) * lbas). */
  ghost predicate PointerOk(z: Zone, i: nat, lbas: nat) {
    && (z.state == Empty ==> z.wp == i * lbas)
    && (Active(z.state) ==> i * lbas <= z.wp < i * lbas + lbas)
    && (z.state == Full ==> i * lbas <= z.wp <= i * lbas + lbas)
    && z.state != ReadOnly && z.state != Offline
    && (z.state == Empty ==> !z.zrwav)
  }

  // ---------- Zone numbers ----------

  lemma ZoneOf(lbas: nat, i: nat, lba: nat)
    requires lbas > 0
    ensures lba / lbas == i <==> i * lbas <= lba < i * lbas + lbas
  {
    var q := lba / lbas;
    assert lba == q * lbas + lba % lbas;
    if q < i { MulMono(q + 1, i, lbas); }
    if q > i { MulMono(i + 1, q, lbas); }
  }

  // ---------- The device ----------

  class ZnsFtl {
    const zones: array<Zone>
    const lbasPerZone: nat
    const lbasPerWriteUnit: nat
    const total: map<Resource, int>
    const shape: ZB.Shape
    const zoneWb: bool // zone_wb_size is not 0: each zone has a write buffer of its own
    const wbufs: seq<Buffer>
    var acquired: map<Resource, int>
    ghost var pending: seq<nat> // for each buffer, bytes whose release is scheduled

    ghost predicate Valid()
      reads this, zones
    {
      && lbasPerZone > 0 && lbasPerWriteUnit > 0
      && Counted(zones[..], acquired, total)
      && forall i :: 0 <= i < zones.Length ==> PointerOk(zones[i], i, lbasPerZone)
    }

    /** The shape of the zones and of the buffers. */
    ghost predicate Buffers()
      reads this
    {
      && shape.Ok() && lbasPerZone == SECS_PER_PG * shape.pages
      && |pending| == |wbufs| == (if zoneWb then zones.Length else 1)
      && forall b, c :: 0 <= b < c < |wbufs| ==> wbufs[b] != wbufs[c]
    }

    /** __init_descriptor and __init_resource, with the limits left open. The buffers have
        wbSize bytes each. */
    constructor (nrZones: nat, shape: ZB.Shape, lbasPerWriteUnit: nat, maxActive: nat, maxOpen: nat, maxZrwa: nat,
                 zoneWb: bool, wbSize: nat)
      requires shape.Ok() && shape.pages > 0 && lbasPerWriteUnit > 0
      ensures Valid() && Buffers() && zones.Length == nrZones && fresh(zones)
      ensures this.shape == shape && this.zoneWb == zoneWb && this.lbasPerWriteUnit == lbasPerWriteUnit
      ensures forall b :: 0 <= b < |wbufs| ==>
        fresh(wbufs[b]) && wbufs[b].size == wbufs[b].remaining == Accounted(b) == wbSize && pending[b] == 0
      ensures total == map[ActiveZone := maxActive, OpenZone := maxOpen, ZrwaZone := maxZrwa]
      ensures OnUnits() && forall i :: 0 <= i < nrZones ==> zones[i].state == Empty
    {
      hide AllOnUnits;
      zones := new Zone[nrZones]((i: nat) => Zone(Empty, i * (SECS_PER_PG * shape.pages), false));
      this.shape, lbasPerZone, this.lbasPerWriteUnit := shape, SECS_PER_PG * shape.pages, lbasPerWriteUnit;
      total := map[ActiveZone := maxActive, OpenZone := maxOpen, ZrwaZone := maxZrwa];
      var bufs := NewBuffers(if zoneWb then nrZones else 1, wbSize);
      this.zoneWb, wbufs, pending := zoneWb, bufs, seq(|bufs|, _ => 0);
      acquired := map[ActiveZone := 0, OpenZone := 0, ZrwaZone := 0];
      new;
      forall t: Resource ensures t in acquired && t in total && acquired[t] == |Holders(zones[..], t)| <= total[t] {
        assert Holders(zones[..], t) == {};
        match t { case ActiveZone => case OpenZone => case ZrwaZone => }
      }
      forall b | 0 <= b < |wbufs| ensures Accounted(b) == wbSize { NoDebts(zones[..], shape, zoneWb, b); }
      StartOnUnits(zones[..], lbasPerZone, lbasPerWriteUnit);
    }

    static method NewBuffers(n: nat, size: nat) returns (bufs: seq<Buffer>)
      ensures |bufs| == n && forall b :: 0 <= b < n ==> fresh(bufs[b]) && bufs[b].size == bufs[b].remaining == size
      ensures forall b, c :: 0 <= b < c < n ==> bufs[b] != bufs[c]
    {
      bufs := [];
      for k := 0 to n
        invariant |bufs| == k && forall b :: 0 <= b < k ==> fresh(bufs[b]) && bufs[b].size == bufs[b].remaining == size
        invariant forall b, c :: 0 <= b < c < k ==> bufs[b] != bufs[c]
      {
        var buf := new Buffer(size);
        bufs := bufs + [buf];
      }
    }

    /** The bytes of a write buffer: free, scheduled for release, or of a zone's unfinished
        one-shot page. */
    ghost function Accounted(b: nat): int
      requires Buffers() && b < |wbufs|
      reads this, zones, wbufs[b]
    {
      wbufs[b].remaining + pending[b] + Debts(zones[..], shape, zoneWb, b)
    }

    // ---------- Resources ----------

    predicate ResourceFull(t: Resource)
      requires t in acquired && t in total
      reads this
    {
      acquired[t] == total[t]
    }

    method Acquire(t: Resource) returns (ok: bool)
      requires t in acquired && t in total
      modifies `acquired
      ensures ok <==> old(acquired)[t] < total[t]
      ensures acquired == if ok then old(acquired)[t := old(acquired)[t] + 1] else old(acquired)
    {
      if acquired[t] < total[t] {
        acquired := acquired[t := acquired[t] + 1];
        return true;
      }
      return false;
    }

    method Release(t: Resource)
      requires t in acquired && acquired[t] > 0
      modifies `acquired
      ensures acquired == old(acquired)[t := old(acquired)[t] - 1]
    {
      assert acquired[t] > 0;
      acquired := acquired[t := acquired[t] - 1];
    }

    method ChangeState(zid: nat, state: ZoneState)
      requires zid < zones.Length
      modifies zones
      ensures zones[..] == old(zones[..])[zid := old(zones[zid]).(state := state)]
    {
      zones[zid] := zones[zid].(state := state);
    }

    // ---------- Zone management ----------

    /** The end of every action: the counters are right again. */
    lemma Settled(zs: seq<Zone>, cnt: map<Resource, int>, zid: nat)
      requires Counted(zs, cnt, total) && zid < zones.Length == |zs| && lbasPerZone > 0 && lbasPerWriteUnit > 0
      requires forall i :: 0 <= i < |zs| ==> PointerOk(zs[i], i, lbasPerZone)
      requires zones[..] == zs[zid := zones[zid]] && PointerOk(zones[zid], zid, lbasPerZone)
      requires Moves(zs[zid], zones[zid], cnt, acquired, total)
      ensures Valid()
    {
      hide Counted, Moves, PointerOk;
      Recounted(zs, zid, zones[zid], cnt, acquired, total);
      forall i | 0 <= i < zones.Length ensures PointerOk(zones[i], i, lbasPerZone) {
        assert zones[..][i] == if i == zid then zones[zid] else zs[i];
      }
    }

    /** __zmgmt_send_close_zone. */
    method Close(zid: nat) returns (status: Status)
      requires Valid() && zid < zones.Length
      modifies `acquired, zones
      ensures Valid() && status == ActionStatus(CloseZone, false, old(zones[zid]), old(acquired), total)
      ensures zones[..] == AfterAction(old(zones[..]), zid, CloseZone, false, status, lbasPerZone)
      ensures var z := old(zones[zid]);
        if z.state == OpenedImpl || z.state == OpenedExpl || z.state == Closed
        then status == Success && zones[zid] == z.(state := Closed)
        else status == InvalidTransition && zones[zid] == z
    {
      hide Counted;
      ghost var zs, cnt := zones[..], acquired;
      MayRelease(zs, cnt, total, zid);
      status := Success;
      if Opened(zones[zid].state) {
        ChangeState(zid, Closed);
        Release(OpenZone);
      } else if zones[zid].state != Closed {
        status := InvalidTransition;
      }
      assert zones[..] == zs[zid := zones[zid]];
      Settled(zs, cnt, zid);
    }

    /** __zmgmt_send_finish_zone, which always succeeds, and leaves the write pointer and the ZRWA
        flag as they are. */
    method Finish(zid: nat) returns (status: Status)
      requires Valid() && zid < zones.Length
      modifies `acquired, zones
      ensures Valid() && status == ActionStatus(FinishZone, false, old(zones[zid]), old(acquired), total)
      ensures zones[..] == AfterAction(old(zones[..]), zid, FinishZone, false, status, lbasPerZone)
      ensures status == Success && zones[zid] == old(zones[zid]).(state := Full)
    {
      hide Counted;
      ghost var zs, cnt := zones[..], acquired;
      MayRelease(zs, cnt, total, zid);
      status := Success;
      if Active(zones[zid].state) {
        if Opened(zones[zid].state) {
          Release(OpenZone);
        }
        Release(ActiveZone);
        if zones[zid].zrwav {
          Release(ZrwaZone);
        }
        ChangeState(zid, Full);
      } else if zones[zid].state == Empty {
        ChangeState(zid, Full);
      } else if zones[zid].state != Full {
        status := InvalidTransition;
      }
      assert zones[..] == zs[zid := zones[zid]];
      Settled(zs, cnt, zid);
    }

    /** __zmgmt_send_open_zone. */
    method Open(zid: nat, zrwa: bool) returns (status: Status)
      requires Valid() && zid < zones.Length
      modifies `acquired, zones
      ensures Valid() && status == ActionStatus(OpenAction, zrwa, old(zones[zid]), old(acquired), total)
      ensures zones[..] == AfterAction(old(zones[..]), zid, OpenAction, zrwa, status, lbasPerZone)
      ensures Granted(OpenAction, zrwa, old(zones[zid]), old(acquired), total, status, zones[zid])
    {
      hide Counted;
      ghost var zs, cnt := zones[..], acquired;
      MayRelease(zs, cnt, total, zid);
      var state := zones[zid].state;
      if state == Empty {
        if ResourceFull(ActiveZone) {
          return NoActiveZone;
        }
        if ResourceFull(OpenZone) {
          return NoOpenZone;
        }
        if zrwa {
          if ResourceFull(ZrwaZone) {
            return ZrwaUnavailable;
          }
          var got := Acquire(ZrwaZone);
          zones[zid] := zones[zid].(zrwav := true);
        }
        var got := Acquire(ActiveZone);
      }
      if state == Empty || state == Closed {
        var got := Acquire(OpenZone);
        if !got {
          return NoOpenZone;
        }
      }
      status := Success;
      if state == Empty || state == Closed || state == OpenedImpl {
        ChangeState(zid, OpenedExpl);
      } else if state != OpenedExpl {
        status := InvalidTransition;
      }
      assert zones[..] == zs[zid := zones[zid]];
      Settled(zs, cnt, zid);
    }

    /** __zmgmt_send_reset_zone, which always succeeds, and __reset_zone. */
    method Reset(zid: nat) returns (status: Status)
      requires Valid() && zid < zones.Length
      modifies `acquired, zones
      ensures Valid() && status == ActionStatus(ResetZone, false, old(zones[zid]), old(acquired), total)
      ensures zones[..] == AfterAction(old(zones[..]), zid, ResetZone, false, status, lbasPerZone)
      ensures status == Success && zones[zid] == Zone(Empty, zid * lbasPerZone, false)
    {
      hide Counted;
      ghost var zs, cnt := zones[..], acquired;
      MayRelease(zs, cnt, total, zid);
      var state := zones[zid].state;
      status := Success;
      if Opened(state) {
        Release(OpenZone);
      }
      if Active(state) {
        Release(ActiveZone);
        if zones[zid].zrwav {
          Release(ZrwaZone);
        }
      }
      if Active(state) || state == Full || state == Empty {
        ChangeState(zid, Empty);
        zones[zid] := zones[zid].(wp := zid * lbasPerZone, zrwav := false);
      } else {
        status := InvalidTransition;
      }
      assert zones[..] == zs[zid := zones[zid]];
      Settled(zs, cnt, zid);
    }

    /** __zmgmt_send_offline_zone. */
    method TakeOffline(zid: nat) returns (status: Status)
      requires Valid() && zid < zones.Length
      ensures status == InvalidTransition == ActionStatus(OfflineZone, false, zones[zid], acquired, total)
    {
      assert PointerOk(zones[zid], zid, lbasPerZone);
      status := InvalidTransition;
      if zones[zid].state == ReadOnly || zones[zid].state == Offline {
        assert false;
      }
    }

    /** __zmgmt_send. A reset loses the buffer bytes of the zone's unfinished one-shot page; no
        other action moves a byte. */
    method Send(zid: nat, a: Action, zrwa: bool) returns (status: Status)
      requires Valid() && Buffers() && zid < zones.Length
      modifies `acquired, zones
      ensures Valid() && Buffers() && status == ActionStatus(a, zrwa, old(zones[zid]), old(acquired), total)
      ensures zones[..] == AfterAction(old(zones[..]), zid, a, zrwa, status, lbasPerZone)
      ensures Granted(a, zrwa, old(zones[zid]), old(acquired), total, status, zones[zid])
      ensures forall b :: 0 <= b < |wbufs| ==>
        Accounted(b) == old(Accounted(b))
          - if a == ResetZone && status == Success && b == BufferOf(zoneWb, zid)
            then DebtOf(old(zones[zid]), zid, shape) else 0
      ensures old(OnUnits()) ==> OnUnits()
    {
      hide Counted, PointerOk, Debts, DebtOf, AllOnUnits, Granted;
      ghost var zs := zones[..];
      ActionTable(zs, acquired, total, zid, a, zrwa, lbasPerZone);
      match a {
        case CloseZone => status := Close(zid);
        case FinishZone => status := Finish(zid);
        case OpenAction => status := Open(zid, zrwa);
        case ResetZone => status := Reset(zid);
        case OfflineZone => status := TakeOffline(zid);
      }
      ActionDebts(zs, shape, zoneWb, zid, a, zrwa, status);
      if old(OnUnits()) { ActedUnit(a, zrwa, zs, zid, status, lbasPerZone, lbasPerWriteUnit); }
    }

    /** The limits do not restrict how many zones are open or active. */
    ghost predicate Unlimited()
      reads this
    {
      forall t: Resource :: t in total && total[t] >= zones.Length
    }

    /** zns_zmgmt_send with select_all: the action is asked of every zone, and what each answers
        is dropped. Unless it opens zones under a limit, it acts on every zone that allows it;
        under a limit, on those that it reaches while there is room. A reset of all zones loses
        the bytes of all their unfinished one-shot pages. */
    method SendAll(a: Action, zrwa: bool)
      requires Valid() && Buffers()
      modifies `acquired, zones
      ensures Valid() && Buffers()
      ensures (forall t: Resource :: t in total)
              && zones[..] == SentTo(old(zones[..]), zones.Length, a, zrwa, total, lbasPerZone)
      ensures a != OpenAction || Unlimited() ==> ActedOn(old(zones[..]), zones[..], zones.Length, a, zrwa, lbasPerZone)
      ensures forall b :: 0 <= b < |wbufs| ==>
        Accounted(b) ==
        old(Accounted(b)) - if a == ResetZone then Debts(old(zones[..]), shape, zoneWb, b) else 0
      ensures old(OnUnits()) ==> OnUnits()
    {
      hide Counted, PointerOk, Acted, Allowed, ActionStatus, AfterAction, SentTo, ActedOn, Debts, AllOnUnits;
      NoneOffline();
      HasCounters(zones[..], acquired, total);
      ghost var zs0 := zones[..];
      NoneSent(zs0, a, zrwa, total, lbasPerZone);
      for zid := 0 to zones.Length
        invariant Valid() && Buffers() && zones[..] == SentTo(zs0, zid, a, zrwa, total, lbasPerZone)
        invariant a != OpenAction || Unlimited() ==> ActedOn(zs0, zones[..], zid, a, zrwa, lbasPerZone)
      {
        ghost var zs, cnt := zones[..], acquired;
        HasCounters(zs, cnt, total);
        TrueCounts(a, zrwa, zs, cnt, total, zid);
        SendOne(zs0, zid, a, zrwa, total, lbasPerZone);
        var status := Send(zid, a, zrwa);
        if a != OpenAction || Unlimited() {
          NoLimitReached(a, zrwa, zs, cnt, total, zid);
          ActOne(zs0, zs, zid, a, zrwa, status, lbasPerZone);
        }
      }
      SentDebts(zs0, zones.Length, a, zrwa, total, shape, zoneWb);
      if a == ResetZone { ResetDebts(zs0, zones[..], shape, zoneWb, zrwa); }
      if old(OnUnits()) { SentUnits(zs0, zones.Length, a, zrwa, total, lbasPerZone, lbasPerWriteUnit); }
    }

    /** No zone is ever read-only or offline. */
    lemma NoneOffline()
      requires Valid()
      ensures forall i :: 0 <= i < zones.Length ==> Allowed(ResetZone, zones[..][i].state)
    {
      hide Counted;
      forall i | 0 <= i < zones.Length ensures Allowed(ResetZone, zones[..][i].state) {
        assert PointerOk(zones[i], i, lbasPerZone);
      }
    }

    /** Every write pointer is a whole number of write units into its zone. */
    ghost predicate OnUnits()
      requires lbasPerWriteUnit > 0
      reads this, zones
    {
      AllOnUnits(zones[..], lbasPerZone, lbasPerWriteUnit)
    }

    // ---------- Writes ----------

    /** __increase_write_ptr, for a zone that is open. */
    method IncreaseWritePtr(zid: nat, nrLba: nat)
      requires Valid() && zid < zones.Length && Opened(zones[zid].state) && !zones[zid].zrwav
      requires nrLba > 0 && zones[zid].wp + nrLba <= zid * lbasPerZone + lbasPerZone
      modifies `acquired, zones
      ensures Valid()
      ensures zones[..] == old(zones[..])[zid := WrittenTo(old(zones[zid]), nrLba, zid * lbasPerZone + lbasPerZone)]
    {
      hide Counted;
      ghost var zs, cnt := zones[..], acquired;
      MayRelease(zs, cnt, total, zid);
      var cur := zones[zid].wp + nrLba;
      zones[zid] := zones[zid].(wp := cur);
      if cur == zid * lbasPerZone + lbasPerZone {
        Release(OpenZone);
        Release(ActiveZone);
        assert !zones[zid].zrwav;
        ChangeState(zid, Full);
      } else if cur > zid * lbasPerZone + lbasPerZone {
        assert false;
      }
      assert zones[..] == zs[zid := zones[zid]];
      Settled(zs, cnt, zid);
    }

    /** Makes zone zid implicitly open for a write, or says why it may not be. */
    method OpenForWrite(zid: nat) returns (status: Status)
      requires Valid() && zid < zones.Length
      modifies `acquired, zones
      ensures Valid() && status == WriteStatus(old(zones[zid]), old(acquired), total)
      ensures zones[..] == if status == Success then old(zones[..])[zid := OpenedFor(old(zones[zid]))]
        else old(zones[..])
    {
      hide Counted;
      ghost var zs, cnt := zones[..], acquired;
      MayRelease(zs, cnt, total, zid);
      assert PointerOk(zones[zid], zid, lbasPerZone);
      status := Success;
      var state := zones[zid].state;
      match state {
        case Full => return ErrFull;
        case ReadOnly => return ErrReadOnly;
        case Offline => return ErrOffline;
        case _ =>
      }
      if state == Empty {
        if ResourceFull(ActiveZone) {
          return NoActiveZone;
        }
        if ResourceFull(OpenZone) {
          return NoOpenZone;
        }
        var got := Acquire(ActiveZone);
      }
      if state == Empty || state == Closed {
        var got := Acquire(OpenZone);
        if !got {
          return NoOpenZone;
        }
        ChangeState(zid, OpenedImpl);
      }
      assert zones[..] == zs[zid := zones[zid]];
      Settled(zs, cnt, zid);
    }

    /** The release loop of __zns_write: each one-shot page that ends in pages slpn to elpn,
        pages p to q - 1 of zone zid, has its bytes scheduled for release. */
    method FlushPages(zid: nat, slpn: nat, elpn: nat, ghost p: nat, ghost q: nat)
      requires Buffers() && zid < zones.Length && p < q <= shape.pages
      requires slpn == zid * shape.pages + p && elpn + 1 == zid * shape.pages + q
      modifies `pending
      ensures Buffers() && shape.Finished(q) >= shape.Finished(p)
      ensures var b := BufferOf(zoneWb, zid);
        pending == old(pending)[b := old(pending)[b] + PGSZ * (shape.Finished(q) - shape.Finished(p))]
    {
      hide ZB.Shape.Finished;
      ghost var was, b := pending, BufferOf(zoneWb, zid);
      assert was == was[b := was[b]];
      var lpn := slpn;
      ghost var at, given: nat := p, 0;
      while lpn <= elpn
        invariant p <= at <= q && lpn == zid * shape.pages + at && Buffers()
        invariant given == PGSZ * (shape.Finished(at) - shape.Finished(p)) && pending == was[b := was[b] + given]
      {
        var pgs, flush, bufsToRelease := FlushStep(zid, lpn, elpn, at, q);
        if flush {
          ScheduleRelease(BufferOf(zoneWb, zid), bufsToRelease);
          given := given + bufsToRelease;
        }
        lpn, at := lpn + pgs, at + pgs;
      }
    }

    /** One pass of that loop: how many pages it takes, and whether and how many bytes it gives back. */
    method FlushStep(zid: nat, lpn: nat, elpn: nat, ghost at: nat, ghost q: nat)
      returns (pgs: nat, flush: bool, bufsToRelease: nat)
      requires Buffers() && at < q <= shape.pages
      requires lpn == zid * shape.pages + at && elpn + 1 == zid * shape.pages + q
      ensures 0 < pgs && at + pgs <= q && shape.Finished(at + pgs) >= shape.Finished(at)
      ensures PGSZ * (shape.Finished(at + pgs) - shape.Finished(at)) == if flush then bufsToRelease else 0
    {
      hide ZB.Shape.Finished;
      var zslpn := zid * shape.pages;
      var pgOff := (lpn - zslpn) % shape.oneshot;
      pgs := if elpn - lpn + 1 <= shape.oneshot - pgOff then elpn - lpn + 1 else shape.oneshot - pgOff;
      flush, bufsToRelease := false, 0;
      shape.MorePages(at, pgs);
      if pgOff + pgs == shape.oneshot || lpn + pgs - 1 == zslpn + shape.pages - 1 {
        var unalignedSpace := (PGSZ * shape.pages) % (PGSZ * shape.oneshot);
        ZB.Scale(shape.pages, shape.oneshot, PGSZ);
        flush, bufsToRelease := true, PGSZ * shape.oneshot;
        if lpn + pgs - 1 == zslpn + shape.pages - 1 && unalignedSpace > 0 {
          bufsToRelease := unalignedSpace;
        }
      }
    }

    /** schedule_internal_operation for bytes of buffer b. */
    ghost method ScheduleRelease(b: nat, bytes: nat)
      requires b < |pending|
      modifies `pending
      ensures pending == old(pending)[b := old(pending)[b] + bytes]
    {
      pending := pending[b := pending[b] + bytes];
    }

    /** The worker's buffer_release for n of the bytes whose release was scheduled. */
    method Drain(b: nat, n: nat)
      requires Buffers() && b < |wbufs| && n <= pending[b]
      modifies `pending, wbufs[b]
      ensures Buffers() && pending == old(pending)[b := old(pending)[b] - n]
      ensures wbufs[b].remaining == old(wbufs[b].remaining) + n && Accounted(b) == old(Accounted(b))
    {
      wbufs[b].Release(n);
      pending := pending[b := pending[b] - n];
    }

    /** With a buffer for each zone and every byte accounted for: no more bytes are free than the
        buffer has, and once drained it accepts any write up to its size less an unfinished one-shot page. */
    lemma DrainedAccepts(zid: nat, bytes: nat)
      requires Valid() && Buffers() && zoneWb && zid < zones.Length && Accounted(zid) == wbufs[zid].size
      ensures wbufs[zid].remaining <= wbufs[zid].size
      ensures pending[zid] == 0 && bytes + PGSZ * shape.oneshot <= wbufs[zid].size + LBA_SIZE ==>
                bytes <= wbufs[zid].remaining
    {
      hide Counted, Debts, ZB.Shape.Debt;
      OneDebt(zones[..], shape, zid);
      assert PointerOk(zones[zid], zid, lbasPerZone);
      shape.DebtBound(zones[zid].wp - zid * lbasPerZone);
    }

    /** Where the write unit is whole one-shot pages, as in ZNS_PROTOTYPE, a buffer with every byte
        accounted for is free again once it is drained, whatever zones share it. */
    lemma DrainedIsFree(b: nat)
      requires Valid() && Buffers() && OnUnits() && lbasPerWriteUnit % (shape.oneshot * SECS_PER_PG) == 0
      requires b < |wbufs| && Accounted(b) == wbufs[b].size
      ensures wbufs[b].remaining == wbufs[b].size - pending[b]
    {
      hide Counted, Debts, AllOnUnits;
      forall i | 0 <= i < zones.Length
        ensures zones[i].wp <= i * lbasPerZone + lbasPerZone
      {
        assert PointerOk(zones[i], i, lbasPerZone);
      }
      UnitDebts(zones[..], shape, zoneWb, lbasPerWriteUnit, b);
    }

    /** The part of __zns_write behind the checks: what the write took is in the zone's one-shot
        page or scheduled for release, and more than that by the excess. */
    method MoveOn(zid: nat, nrLba: nat)
      requires Valid() && Buffers() && zid < zones.Length && Opened(zones[zid].state) && !zones[zid].zrwav
      requires nrLba > 0 && zones[zid].wp + nrLba <= zid * lbasPerZone + lbasPerZone
      modifies `acquired, `pending, zones
      ensures Valid() && Buffers()
      ensures zones[..] == old(zones[..])[zid := WrittenTo(old(zones[zid]), nrLba, zid * lbasPerZone + lbasPerZone)]
      ensures zones[zid].wp == old(zones[zid].wp) + nrLba >= zid * lbasPerZone
      ensures forall c :: 0 <= c < |wbufs| ==>
        Accounted(c) == old(Accounted(c))
          + if c == BufferOf(zoneWb, zid) then LBA_SIZE * nrLba + shape.Excess(zones[zid].wp - zid * lbasPerZone) else 0
    {
      hide Counted, Debts, ZB.Shape.Debt, ZB.Shape.Excess, ZB.Shape.Finished, ZB.Shape.PagesUpTo;
      ghost var zs := zones[..];
      assert PointerOk(zones[zid], zid, lbasPerZone);
      var slba := zones[zid].wp;
      ghost var o := slba - zid * lbasPerZone;
      IncreaseWritePtr(zid, nrLba);
      PagesWritten(zid, shape, slba, o, nrLba);
      FlushPages(zid, slba / SECS_PER_PG, (slba + nrLba - 1) / SECS_PER_PG, o / SECS_PER_PG,
          shape.PagesUpTo(o + nrLba));
      assert zones[..] == zs[zid := zones[zid]];
      forall c | 0 <= c < |wbufs| { WriteDebts(zs, zones[zid], shape, zoneWb, zid, o, nrLba, c); }
    }

    /** The part of __zns_write behind the checks of the command: the zone is opened if it may be,
        and written. */
    method WriteAtPointer(zid: nat, nrLba: nat) returns (status: Status)
      requires Valid() && Buffers() && zid < zones.Length && !zones[zid].zrwav && nrLba > 0
      requires zones[zid].wp / lbasPerZone == (zones[zid].wp + nrLba - 1) / lbasPerZone
      modifies `acquired, `pending, zones
      ensures Valid() && Buffers() && (forall t: Resource :: t in old(acquired) && t in total)
      ensures var z := old(zones[zid]);
        && status == WriteStatus(z, old(acquired), total)
        && zones[..] == (if status != Success then old(zones[..])
                        else old(zones[..])[zid := WrittenTo(OpenedFor(z), nrLba, zid * lbasPerZone + lbasPerZone)])
        && WriteGranted(z, old(acquired), total, nrLba, zid * lbasPerZone + lbasPerZone, status, zones[zid])
      ensures status == Success ==> zones[zid].wp >= zid * lbasPerZone
      ensures status != Success ==> pending == old(pending)
      ensures forall c :: 0 <= c < |wbufs| ==>
        Accounted(c) == old(Accounted(c))
          + if status == Success && c == BufferOf(zoneWb, zid)
            then LBA_SIZE * nrLba + shape.Excess(zones[zid].wp - zid * lbasPerZone) else 0
      ensures old(OnUnits()) && nrLba % lbasPerWriteUnit == 0 ==> OnUnits()
    {
      hide Counted, Debts, WrittenTo, OpenedFor, WriteStatus, WriteGranted, Holds, AllOnUnits;
      hide ZB.Shape.Debt, ZB.Shape.Excess, ZB.Shape.EndsInside, ZB.Shape.Finished, ZB.Shape.PagesUpTo;
      ghost var zs, at := zones[..], zones[zid].wp;
      assert PointerOk(zones[zid], zid, lbasPerZone);
      HasCounters(zs, acquired, total);
      WriteTable(zones[zid], zid, lbasPerZone, acquired, total, nrLba);
      status := OpenForWrite(zid);
      if status == Success {
        assert PointerOk(zones[zid], zid, lbasPerZone);
        ZoneOf(lbasPerZone, zid, at);
        ZoneOf(lbasPerZone, zid, at + nrLba - 1);
        SameDebts(zs, shape, zoneWb, zid, zones[zid]);
        MoveOn(zid, nrLba);
        if old(OnUnits()) && nrLba % lbasPerWriteUnit == 0 {
          WrittenUnit(zs, nrLba, zid, lbasPerZone, lbasPerWriteUnit);
        }
      }
    }

    /** __zns_write, for a zone without a ZRWA: nrLba blocks from slba, or from the write pointer
        of slba's zone for an append. The accounts of the zone's buffer stay balanced exactly
        when the write is accepted and does not end inside the last page of a one-shot page:
        refused writes keep the bytes they took, and a page written in part gives back its
        one-shot page more than once. */
    method Write(slba: nat, nrLba: nat, append: bool) returns (busy: bool, status: Status)
      requires Valid() && Buffers() && nrLba > 0
      requires slba / lbasPerZone < zones.Length && !zones[slba / lbasPerZone].zrwav
      requires LBA_SIZE * nrLba <= wbufs[BufferOf(zoneWb, slba / lbasPerZone)].size
      modifies `acquired, `pending, zones, wbufs[BufferOf(zoneWb, slba / lbasPerZone)]
      ensures Valid() && Buffers()
      ensures busy <==> old(wbufs[BufferOf(zoneWb, slba / lbasPerZone)].remaining) < LBA_SIZE * nrLba
      ensures var zid := slba / lbasPerZone; var z := old(zones[zid]); var at := if append then z.wp else slba;
        && (!busy ==>
             status ==
             if nrLba % lbasPerWriteUnit != 0 then InvalidWrite
             else if at / lbasPerZone != (at + nrLba - 1) / lbasPerZone then ErrBoundary
             else if at != z.wp then InvalidWrite
             else WriteStatus(z, old(acquired), total))
        && (!busy && nrLba % lbasPerWriteUnit == 0 && at / lbasPerZone == (at + nrLba - 1) / lbasPerZone
              && at == z.wp ==>
              WriteGranted(z, old(acquired), total, nrLba, zid * lbasPerZone + lbasPerZone, status, zones[zid]))
        && zones[..] == if busy || status != Success then old(zones[..])
                        else old(zones[..])[zid := WrittenTo(OpenedFor(z), nrLba, zid * lbasPerZone + lbasPerZone)]
      ensures var zid := slba / lbasPerZone; var b := BufferOf(zoneWb, zid);
        && wbufs[b].remaining == old(wbufs[b].remaining) - (if busy then 0 else LBA_SIZE * nrLba)
        && (busy || status != Success ==> pending == old(pending))
        && (!busy && status != Success ==> Accounted(b) == old(Accounted(b)) - LBA_SIZE * nrLba)
        && (!busy && status == Success ==>
              && zones[zid].wp >= zid * lbasPerZone
              && Accounted(b) == old(Accounted(b)) + shape.Excess(zones[zid].wp - zid * lbasPerZone))
        && (Accounted(b) == old(Accounted(b)) <==>
              busy || (status == Success && !shape.EndsInside(zones[zid].wp - zid * lbasPerZone)))
        && forall c :: 0 <= c < |wbufs| && c != b ==> Accounted(c) == old(Accounted(c))
      ensures old(OnUnits()) ==> OnUnits()
    {
      hide Counted, Debts, WrittenTo, OpenedFor, WriteStatus, WriteGranted, Holds, AllOnUnits;
      hide ZB.Shape.Debt, ZB.Shape.Excess, ZB.Shape.EndsInside, ZB.Shape.Finished, ZB.Shape.PagesUpTo;
      var zid := slba / lbasPerZone;
      HasCounters(zones[..], acquired, total);
      busy, status := false, Success;
      var at := slba;
      if append {
        at := zones[zid].wp;
      }
      var wbuf := wbufs[BufferOf(zoneWb, zid)];
      var got := wbuf.Allocate(LBA_SIZE * nrLba);
      if got < LBA_SIZE * nrLba {
        busy := true;
        return;
      }
      if nrLba % lbasPerWriteUnit != 0 {
        status := InvalidWrite;
        return;
      }
      if at / lbasPerZone != (at + nrLba - 1) / lbasPerZone {
        status := ErrBoundary;
        return;
      }
      if at != zones[zid].wp {
        status := InvalidWrite;
        return;
      }
      status := WriteAtPointer(zid, nrLba);
    }
  }

  // ---------- Write buffers ----------

  /** The buffer that zone zid uses. */
  function BufferOf(zoneWb: bool, zid: nat): nat { if zoneWb then zid else 0 }

  /** Bytes of zone i's unfinished one-shot page. */
  ghost function DebtOf(z: Zone, i: nat, shape: ZB.Shape): int
    requires shape.Ok()
  {
    if z.wp >= i * (SECS_PER_PG * shape.pages) then shape.Debt(z.wp - i * (SECS_PER_PG * shape.pages)) else 0
  }

  /** Those of all the zones that use buffer b. */
  ghost function Debts(zs: seq<Zone>, shape: ZB.Shape, zoneWb: bool, b: nat): int
    requires shape.Ok()
  {
    if zs == [] then 0
    else
      var i := |zs| - 1;
      Debts(zs[..i], shape, zoneWb, b) + if BufferOf(zoneWb, i) == b then DebtOf(zs[i], i, shape) else 0
  }

  lemma {:induction false} NoDebts(zs: seq<Zone>, shape: ZB.Shape, zoneWb: bool, b: nat)
    requires shape.Ok() && forall i :: 0 <= i < |zs| ==> zs[i].wp == i * (SECS_PER_PG * shape.pages)
    ensures Debts(zs, shape, zoneWb, b) == 0
  {
    if zs != [] { NoDebts(zs[..|zs| - 1], shape, zoneWb, b); }
  }

  lemma {:induction false} DebtsUpdate(zs: seq<Zone>, shape: ZB.Shape, zoneWb: bool, b: nat, i: nat, z: Zone)
    requires shape.Ok() && i < |zs|
    ensures Debts(zs[i := z], shape, zoneWb, b) ==
            Debts(zs, shape, zoneWb, b)
            + if BufferOf(zoneWb, i) == b then DebtOf(z, i, shape) - DebtOf(zs[i], i, shape) else 0
  {
    var k := |zs| - 1;
    if i == k {
      assert zs[i := z][..k] == zs[..k];
    } else {
      DebtsUpdate(zs[..k], shape, zoneWb, b, i, z);
      assert zs[i := z][..k] == zs[..k][i := z];
    }
  }

  /** What an accepted write, from block o of its zone, leaves in the buffers. */
  lemma WriteDebts(zs: seq<Zone>, z: Zone, shape: ZB.Shape, zoneWb: bool, zid: nat, o: nat, nrLba: nat, b: nat)
    requires shape.Ok() && zid < |zs| && nrLba > 0 && o + nrLba <= shape.pages * SECS_PER_PG
    requires zs[zid].wp == zid * (SECS_PER_PG * shape.pages) + o && z.wp == zs[zid].wp + nrLba
    ensures Debts(zs[zid := z], shape, zoneWb, b) == Debts(zs, shape, zoneWb, b)
            + if BufferOf(zoneWb, zid) == b
              then LBA_SIZE * nrLba + shape.Excess(o + nrLba) - PGSZ * FlushedPages(shape, o, nrLba)
              else 0
  {
    hide ZB.Shape.Debt, ZB.Shape.Excess, ZB.Shape.Finished, ZB.Shape.PagesUpTo;
    DebtsUpdate(zs, shape, zoneWb, b, zid, z);
    shape.WriteBalance(o, o + nrLba);
  }

  /** What does not move a write pointer leaves the buffers' shares alone. */
  lemma SameDebts(zs: seq<Zone>, shape: ZB.Shape, zoneWb: bool, zid: nat, z: Zone)
    requires shape.Ok() && zid < |zs| && z.wp == zs[zid].wp
    ensures forall b :: Debts(zs[zid := z], shape, zoneWb, b) == Debts(zs, shape, zoneWb, b)
  {
    hide Debts;
    forall b: nat ensures Debts(zs[zid := z], shape, zoneWb, b) == Debts(zs, shape, zoneWb, b) {
      DebtsUpdate(zs, shape, zoneWb, b, zid, z);
    }
  }

  lemma ActionDebts(zs: seq<Zone>, shape: ZB.Shape, zoneWb: bool, zid: nat, a: Action, zrwa: bool, status: Status)
    requires shape.Ok() && zid < |zs|
    ensures forall b :: Debts(AfterAction(zs, zid, a, zrwa, status, SECS_PER_PG * shape.pages), shape, zoneWb, b)
              == Debts(zs, shape, zoneWb, b)
                 - if a == ResetZone && status == Success && b == BufferOf(zoneWb, zid)
                   then DebtOf(zs[zid], zid, shape) else 0
  {
    hide Debts, DebtOf;
    var z := Acted(a, zrwa, zs[zid], zid * (SECS_PER_PG * shape.pages));
    if a == ResetZone {
      NoDebt(z, zid, shape);
    } else {
      SameDebts(zs, shape, zoneWb, zid, z);
    }
    forall b: nat
      ensures Debts(zs[zid := z], shape, zoneWb, b) ==
              Debts(zs, shape, zoneWb, b)
              + if BufferOf(zoneWb, zid) == b then DebtOf(z, zid, shape) - DebtOf(zs[zid], zid, shape) else 0
    {
      DebtsUpdate(zs, shape, zoneWb, b, zid, z);
    }
  }

  /** A zone whose write pointer is a whole number of units into it. */
  ghost predicate OnUnit(z: Zone, i: nat, lbas: nat, unit: nat)
    requires unit > 0
  {
    z.wp >= i * lbas && (z.wp - i * lbas) % unit == 0
  }

  ghost predicate AllOnUnits(zs: seq<Zone>, lbas: nat, unit: nat)
    requires unit > 0
  {
    forall i :: 0 <= i < |zs| ==> OnUnit(zs[i], i, lbas, unit)
  }

  lemma StartOnUnits(zs: seq<Zone>, lbas: nat, unit: nat)
    requires unit > 0 && forall i :: 0 <= i < |zs| ==> zs[i].wp == i * lbas
    ensures AllOnUnits(zs, lbas, unit)
  {}

  /** Actions leave the write pointer where it is, or put it at the start of its zone. */
  lemma ActedUnit(a: Action, zrwa: bool, zs: seq<Zone>, i: nat, status: Status, lbas: nat, unit: nat)
    requires unit > 0 && i < |zs| && AllOnUnits(zs, lbas, unit)
    ensures AllOnUnits(AfterAction(zs, i, a, zrwa, status, lbas), lbas, unit)
  {
    assert OnUnit(zs[i], i, lbas, unit);
  }

  /** Writes of whole units from the write pointer on keep it on units. */
  lemma WrittenUnit(zs: seq<Zone>, nrLba: nat, i: nat, lbas: nat, unit: nat)
    requires unit > 0 && i < |zs| && AllOnUnits(zs, lbas, unit) && nrLba % unit == 0
    ensures AllOnUnits(zs[i := WrittenTo(OpenedFor(zs[i]), nrLba, i * lbas + lbas)], lbas, unit)
  {
    assert OnUnit(zs[i], i, lbas, unit);
    var o := zs[i].wp - i * lbas;
    DivModUnique(o + nrLba, unit, o / unit + nrLba / unit, 0);
  }

  lemma {:induction false} SentUnits(zs: seq<Zone>, k: nat, a: Action, zrwa: bool, total: map<Resource, int>, lbas: nat,
      unit: nat)
    requires k <= |zs| && unit > 0 && forall t: Resource :: t in total
    requires AllOnUnits(zs, lbas, unit)
    ensures AllOnUnits(SentTo(zs, k, a, zrwa, total, lbas), lbas, unit)
  {
    hide AllOnUnits, AfterAction, ActionStatus;
    if k > 0 {
      SentUnits(zs, k - 1, a, zrwa, total, lbas, unit);
      SendOne(zs, k - 1, a, zrwa, total, lbas);
      var zs1 := SentTo(zs, k - 1, a, zrwa, total, lbas);
      ActedUnit(a, zrwa, zs1, k - 1, ActionStatus(a, zrwa, zs1[k - 1], Counts(zs1), total), lbas, unit);
    }
  }

  /** Only resets move the zones' shares of the buffers. */
  lemma {:induction false} SentDebts(zs: seq<Zone>, k: nat, a: Action, zrwa: bool, total: map<Resource, int>,
      shape: ZB.Shape, zoneWb: bool)
    requires k <= |zs| && shape.Ok() && forall t: Resource :: t in total
    ensures a != ResetZone ==> forall b ::
              Debts(SentTo(zs, k, a, zrwa, total, SECS_PER_PG * shape.pages), shape, zoneWb, b)
                  == Debts(zs, shape, zoneWb, b)
  {
    hide Debts, AfterAction, ActionStatus;
    if k > 0 {
      var lbas := SECS_PER_PG * shape.pages;
      SentDebts(zs, k - 1, a, zrwa, total, shape, zoneWb);
      SendOne(zs, k - 1, a, zrwa, total, lbas);
      var zs1 := SentTo(zs, k - 1, a, zrwa, total, lbas);
      ActionDebts(zs1, shape, zoneWb, k - 1, a, zrwa, ActionStatus(a, zrwa, zs1[k - 1], Counts(zs1), total));
    }
  }

  /** After all zones were reset nothing of them is in the buffers. */
  lemma ResetDebts(zs: seq<Zone>, zs': seq<Zone>, shape: ZB.Shape, zoneWb: bool, zrwa: bool)
    requires shape.Ok() && ActedOn(zs, zs', |zs|, ResetZone, zrwa, SECS_PER_PG * shape.pages)
    requires forall i :: 0 <= i < |zs| ==> Allowed(ResetZone, zs[i].state)
    ensures forall b :: Debts(zs', shape, zoneWb, b) == 0
  {
    hide Debts, Allowed;
    forall b: nat ensures Debts(zs', shape, zoneWb, b) == 0 { NoDebts(zs', shape, zoneWb, b); }
  }

  /** With pointers on write units of whole one-shot pages nothing is in the buffers. */
  lemma {:induction false} UnitDebts(zs: seq<Zone>, shape: ZB.Shape, zoneWb: bool, unit: nat, b: nat)
    requires shape.Ok() && unit > 0 && unit % (shape.oneshot * SECS_PER_PG) == 0
    requires AllOnUnits(zs, SECS_PER_PG * shape.pages, unit)
    requires forall i :: 0 <= i < |zs| ==>
      zs[i].wp <= i * (SECS_PER_PG * shape.pages) + SECS_PER_PG * shape.pages
    ensures Debts(zs, shape, zoneWb, b) == 0
  {
    if zs != [] {
      var i := |zs| - 1;
      UnitDebts(zs[..i], shape, zoneWb, unit, b);
      shape.WholeUnits(zs[i].wp - i * (SECS_PER_PG * shape.pages), unit);
    }
  }

  lemma NoDebt(z: Zone, i: nat, shape: ZB.Shape)
    requires shape.Ok() && z.wp == i * (SECS_PER_PG * shape.pages)
    ensures DebtOf(z, i, shape) == 0
  {}

  /** Pages that a write of nrLba blocks from block o of a zone has written back. */
  function FlushedPages(shape: ZB.Shape, o: nat, nrLba: nat): int
    requires shape.Ok()
  {
    shape.Finished(shape.PagesUpTo(o + nrLba)) - shape.Finished(o / SECS_PER_PG)
  }

  /** The pages that a write of nrLba blocks from block o of zone zid touches. */
  lemma PagesWritten(zid: nat, shape: ZB.Shape, lba: nat, o: nat, nrLba: nat)
    requires shape.Ok() && nrLba > 0 && lba == zid * (SECS_PER_PG * shape.pages) + o
      && o + nrLba <= SECS_PER_PG * shape.pages
    ensures lba / SECS_PER_PG == zid * shape.pages + o / SECS_PER_PG
    ensures (lba + nrLba - 1) / SECS_PER_PG + 1 == zid * shape.pages + shape.PagesUpTo(o + nrLba)
    ensures shape.PagesUpTo(o + nrLba) <= shape.pages && o / SECS_PER_PG < shape.PagesUpTo(o + nrLba)
  {
    assert zid * (SECS_PER_PG * shape.pages) == (zid * shape.pages) * SECS_PER_PG;
    DivModUnique(lba, SECS_PER_PG, zid * shape.pages + o / SECS_PER_PG, o % SECS_PER_PG);
    var e := o + nrLba - 1;
    DivModUnique(lba + nrLba - 1, SECS_PER_PG, zid * shape.pages + e / SECS_PER_PG, e % SECS_PER_PG);
  }

  /** A zone with nrLba more blocks written; it is full once its write pointer reaches end. */
  function WrittenTo(z: Zone, nrLba: nat, end: nat): Zone {
    if z.wp + nrLba == end then Zone(Full, z.wp + nrLba, z.zrwav) else z.(wp := z.wp + nrLba)
  }

  function OpenedFor(z: Zone): Zone {
    if z.state == Empty || z.state == Closed then z.(state := OpenedImpl) else z
  }

  /** Whether a zone may be written at its write pointer. */
  function WriteStatus(z: Zone, acquired: map<Resource, int>, total: map<Resource, int>): Status
    requires forall t: Resource :: t in acquired && t in total
  {
    if z.state == Full then ErrFull
    else if z.state == ReadOnly then ErrReadOnly
    else if z.state == Offline then ErrOffline
    else if z.state == Empty && acquired[ActiveZone] == total[ActiveZone] then NoActiveZone
    else if !Opened(z.state) && acquired[OpenZone] == total[OpenZone] then NoOpenZone
    else Success
  }

  /** What a write of nrLba blocks at the write pointer of zone z, which ends at block end, does to
      it, with cnt of each resource held by the zones. */
  ghost predicate WriteGranted(z: Zone, cnt: map<Resource, int>, total: map<Resource, int>, nrLba: nat, end: nat,
      status: Status, z': Zone)
  {
    && (forall t: Resource :: t in cnt && t in total)
    && status ==
       (if z.state == Full then ErrFull
        else if z.state == Empty && cnt[ActiveZone] == total[ActiveZone] then NoActiveZone
        else if (z.state == Empty || z.state == Closed) && cnt[OpenZone] == total[OpenZone] then NoOpenZone
        else Success)
    && z' == (if status != Success then z
              else if z.wp + nrLba == end then Zone(Full, end, z.zrwav)
              else Zone(if z.state == OpenedExpl then OpenedExpl else OpenedImpl, z.wp + nrLba, z.zrwav))
  }

  lemma WriteTable(z: Zone, i: nat, lbas: nat, acquired: map<Resource, int>, total: map<Resource, int>, nrLba: nat)
    requires PointerOk(z, i, lbas) && forall t: Resource :: t in acquired && t in total
    ensures var status := WriteStatus(z, acquired, total);
      WriteGranted(z, acquired, total, nrLba, i * lbas + lbas, status,
        if status == Success then WrittenTo(OpenedFor(z), nrLba, i * lbas + lbas) else z)
    ensures OpenedFor(z).wp == z.wp && OpenedFor(z).zrwav == z.zrwav
    ensures WriteStatus(z, acquired, total) == Success ==> Opened(OpenedFor(z).state)
  {}

  lemma HasCounters(zs: seq<Zone>, acquired: map<Resource, int>, total: map<Resource, int>)
    requires Counted(zs, acquired, total)
    ensures forall t: Resource :: t in acquired && t in total
  {
    forall t: Resource ensures t in acquired && t in total { assert acquired[t] == |Holders(zs, t)|; }
  }

  /** With limits no smaller than the number of zones every action that the zone's state allows
      succeeds, and no write is refused for want of resources. */
  lemma NoLimitReached(a: Action, zrwa: bool, zs: seq<Zone>, acquired: map<Resource, int>, total: map<Resource, int>,
      i: nat)
    requires Counted(zs, acquired, total) && i < |zs|
    requires a != OpenAction || forall t: Resource :: t in total && total[t] >= |zs|
    ensures forall t: Resource :: t in acquired && t in total
    ensures ActionStatus(a, zrwa, zs[i], acquired, total) == if Allowed(a, zs[i].state) then Success
      else InvalidTransition
    ensures a == OpenAction ==> WriteStatus(zs[i], acquired, total) !in {NoActiveZone, NoOpenZone}
  {
    HasCounters(zs, acquired, total);
    hide Counted;
    if a == OpenAction {
      if !Holds(zs[i], ActiveZone) { NeverRefused(zs, acquired, total, i, ActiveZone); }
      if !Holds(zs[i], OpenZone) { NeverRefused(zs, acquired, total, i, OpenZone); }
      if !Holds(zs[i], ZrwaZone) { NeverRefused(zs, acquired, total, i, ZrwaZone); }
    }
  }

  /** The zones after an action on zone zid that ended with status. */
  function AfterAction(zs: seq<Zone>, zid: nat, a: Action, zrwa: bool, status: Status, lbas: nat): seq<Zone>
    requires zid < |zs|
  {
    if status == Success then zs[zid := Acted(a, zrwa, zs[zid], zid * lbas)] else zs
  }

  /** The action was done to each of the first k zones that allows it, and to no other. */
  ghost predicate ActedOn(zs: seq<Zone>, zs': seq<Zone>, k: nat, a: Action, zrwa: bool, lbas: nat) {
    && |zs'| == |zs|
    && forall i :: 0 <= i < |zs| ==>
         zs'[i] == if i < k && Allowed(a, zs[i].state) then Acted(a, zrwa, zs[i], i * lbas) else zs[i]
  }

  /** The true numbers of zones that hold each resource. */
  ghost function Counts(zs: seq<Zone>): map<Resource, int> {
    map[ActiveZone := |Holders(zs, ActiveZone)|, OpenZone := |Holders(zs, OpenZone)|,
        ZrwaZone := |Holders(zs, ZrwaZone)|]
  }

  lemma TrueCounts(a: Action, zrwa: bool, zs: seq<Zone>, acquired: map<Resource, int>, total: map<Resource, int>,
      i: nat)
    requires Counted(zs, acquired, total) && i < |zs|
    ensures forall t: Resource :: t in acquired && t in total && t in Counts(zs)
    ensures ActionStatus(a, zrwa, zs[i], acquired, total) == ActionStatus(a, zrwa, zs[i], Counts(zs), total)
  {
    AllCounted(zs);
    HasCounters(zs, acquired, total);
    forall t: Resource ensures acquired[t] == Counts(zs)[t] {
      match t { case ActiveZone => case OpenZone => case ZrwaZone => }
    }
  }

  lemma AllCounted(zs: seq<Zone>)
    ensures forall t: Resource :: t in Counts(zs)
  {
    forall t: Resource ensures t in Counts(zs) {
      match t { case ActiveZone => case OpenZone => case ZrwaZone => }
    }
  }

  /** The zones after an action has been asked of the first k in turn: each is granted if what the
      zones then hold leaves room. */
  ghost function SentTo(zs: seq<Zone>, k: nat, a: Action, zrwa: bool, total: map<Resource, int>,
      lbas: nat): (r: seq<Zone>)
    requires k <= |zs| && forall t: Resource :: t in total
    ensures |r| == |zs|
  {
    if k == 0 then zs
    else
      var zs1 := SentTo(zs, k - 1, a, zrwa, total, lbas);
      AllCounted(zs1);
      AfterAction(zs1, k - 1, a, zrwa, ActionStatus(a, zrwa, zs1[k - 1], Counts(zs1), total), lbas)
  }

  lemma NoneSent(zs: seq<Zone>, a: Action, zrwa: bool, total: map<Resource, int>, lbas: nat)
    requires forall t: Resource :: t in total
    ensures SentTo(zs, 0, a, zrwa, total, lbas) == zs && ActedOn(zs, zs, 0, a, zrwa, lbas)
  {}

  lemma SendOne(zs: seq<Zone>, k: nat, a: Action, zrwa: bool, total: map<Resource, int>, lbas: nat)
    requires k < |zs| && forall t: Resource :: t in total
    ensures var zs1 := SentTo(zs, k, a, zrwa, total, lbas);
      && (forall t: Resource :: t in Counts(zs1))
      && SentTo(zs, k + 1, a, zrwa, total, lbas) ==
         AfterAction(zs1, k, a, zrwa, ActionStatus(a, zrwa, zs1[k], Counts(zs1), total), lbas)
  {
    AllCounted(SentTo(zs, k, a, zrwa, total, lbas));
  }

  lemma ActOne(zs: seq<Zone>, zs1: seq<Zone>, k: nat, a: Action, zrwa: bool, status: Status, lbas: nat)
    requires k < |zs| && ActedOn(zs, zs1, k, a, zrwa, lbas)
    requires status == if Allowed(a, zs1[k].state) then Success else InvalidTransition
    ensures ActedOn(zs, AfterAction(zs1, k, a, zrwa, status, lbas), k + 1, a, zrwa, lbas)
  {
    hide Allowed, Acted;
  }

  /** A zone after an action that succeeded; its first LBA is zslba. */
  function Acted(a: Action, zrwa: bool, z: Zone, zslba: nat): Zone {
    match a
    case OpenAction => z.(state := OpenedExpl, zrwav := z.zrwav || (zrwa && z.state == Empty))
    case ResetZone => Zone(Empty, zslba, false)
    case _ => z.(state := Target(a, z.state))
  }

  /** How an action ends. Only opening an empty or a closed zone takes resources. */
  function ActionStatus(a: Action, zrwa: bool, z: Zone, acquired: map<Resource, int>, total: map<Resource, int>): Status
    requires forall t: Resource :: t in acquired && t in total
  {
    if !Allowed(a, z.state) then InvalidTransition
    else if a == OpenAction && z.state == Empty && acquired[ActiveZone] == total[ActiveZone] then NoActiveZone
    else if a == OpenAction && (z.state == Empty || z.state == Closed) && acquired[OpenZone] == total[OpenZone]
    then NoOpenZone
    else if a == OpenAction && z.state == Empty && zrwa && acquired[ZrwaZone] == total[ZrwaZone] then ZrwaUnavailable
    else Success
  }

  /** What each action does to a zone z, with cnt of each resource held by the zones: its status and
      what the zone becomes. No zone is read-only or offline; an empty one has its write pointer at
      its start. */
  ghost predicate Granted(a: Action, zrwa: bool, z: Zone, cnt: map<Resource, int>, total: map<Resource, int>,
      status: Status, z': Zone)
  {
    && (forall t: Resource :: t in cnt && t in total)
    && match a
       case CloseZone =>
         if z.state == OpenedImpl || z.state == OpenedExpl || z.state == Closed
         then status == Success && z' == z.(state := Closed)
         else status == InvalidTransition && z' == z
       case FinishZone => status == Success && z' == z.(state := Full)
       case OpenAction =>
         && status ==
            (if z.state == Full then InvalidTransition
             else if z.state == Empty && cnt[ActiveZone] == total[ActiveZone] then NoActiveZone
             else if (z.state == Empty || z.state == Closed) && cnt[OpenZone] == total[OpenZone] then NoOpenZone
             else if z.state == Empty && zrwa && cnt[ZrwaZone] == total[ZrwaZone] then ZrwaUnavailable
             else Success)
         && z' == (if status != Success then z
                   else z.(state := OpenedExpl, zrwav := z.zrwav || (zrwa && z.state == Empty)))
       case ResetZone => status == Success && z' == Zone(Empty, z'.wp, false)
       case OfflineZone => status == InvalidTransition && z' == z
  }

  lemma ActionTable(zs: seq<Zone>, acquired: map<Resource, int>, total: map<Resource, int>, i: nat, a: Action,
      zrwa: bool, lbas: nat)
    requires Counted(zs, acquired, total) && i < |zs| && PointerOk(zs[i], i, lbas)
    ensures forall t: Resource :: t in acquired && t in total
    ensures var status := ActionStatus(a, zrwa, zs[i], acquired, total);
      Granted(a, zrwa, zs[i], acquired, total, status, AfterAction(zs, i, a, zrwa, status, lbas)[i])
  {
    HasCounters(zs, acquired, total);
  }

  /** Which zones each counter counts: those opened or closed, those opened, and those opened or
      closed that have a ZRWA. Full and empty zones hold nothing. */
  lemma WhoHolds(zs: seq<Zone>, acquired: map<Resource, int>, total: map<Resource, int>)
    requires Counted(zs, acquired, total)
    ensures forall t: Resource :: t in acquired && t in total
    ensures acquired[ActiveZone] ==
            |set i: nat | i < |zs| && (zs[i].state == OpenedImpl || zs[i].state == OpenedExpl || zs[i].state == Closed)|
    ensures acquired[OpenZone] == |set i: nat | i < |zs| && (zs[i].state == OpenedImpl || zs[i].state == OpenedExpl)|
    ensures acquired[ZrwaZone] ==
            |set i: nat | i < |zs| && zs[i].zrwav
              && (zs[i].state == OpenedImpl || zs[i].state == OpenedExpl || zs[i].state == Closed)|
  {
    HasCounters(zs, acquired, total);
    assert Holders(zs, ActiveZone) ==
      set i: nat | i < |zs| && (zs[i].state == OpenedImpl || zs[i].state == OpenedExpl || zs[i].state == Closed);
    assert Holders(zs, OpenZone) == set i: nat | i < |zs| && (zs[i].state == OpenedImpl || zs[i].state == OpenedExpl);
    assert Holders(zs, ZrwaZone) ==
      set i: nat | i < |zs| && zs[i].zrwav
        && (zs[i].state == OpenedImpl || zs[i].state == OpenedExpl || zs[i].state == Closed);
  }

  /** The counters allow what a zone in its state may give back. */
  lemma MayRelease(zs: seq<Zone>, acquired: map<Resource, int>, total: map<Resource, int>, i: nat)
    requires Counted(zs, acquired, total) && i < |zs|
    ensures forall t: Resource :: t in acquired && t in total && acquired[t] <= total[t]
    ensures Active(zs[i].state) ==> acquired[ActiveZone] > 0
    ensures Opened(zs[i].state) ==> acquired[OpenZone] > 0
    ensures Active(zs[i].state) && zs[i].zrwav ==> acquired[ZrwaZone] > 0
  {
    HolderCounts(zs, acquired, total, i, ActiveZone);
    HolderCounts(zs, acquired, total, i, OpenZone);
    HolderCounts(zs, acquired, total, i, ZrwaZone);
  }

  /** How the counters move when a zone turns from z into z'. */
  ghost predicate Moves(z: Zone, z': Zone, acquired: map<Resource, int>, acquired': map<Resource, int>,
      total: map<Resource, int>) {
    && (forall t: Resource :: t in acquired && t in acquired' && t in total)
    && acquired'[ActiveZone] == acquired[ActiveZone] - One(Active(z.state)) + One(Active(z'.state)) <= total[ActiveZone]
    && acquired'[OpenZone] == acquired[OpenZone] - One(Opened(z.state)) + One(Opened(z'.state)) <= total[OpenZone]
    && acquired'[ZrwaZone] == acquired[ZrwaZone] - One(Active(z.state) && z.zrwav) + One(Active(z'.state) && z'.zrwav)
       <= total[ZrwaZone]
  }

  /** A zone's new state with the counters moved accordingly. */
  lemma Recounted(zs: seq<Zone>, i: nat, z: Zone, acquired: map<Resource, int>, acquired': map<Resource, int>,
      total: map<Resource, int>)
    requires Counted(zs, acquired, total) && i < |zs| && Moves(zs[i], z, acquired, acquired', total)
    ensures Counted(zs[i := z], acquired', total)
  {
    forall t: Resource ensures t in acquired' && t in total && acquired'[t] == |Holders(zs[i := z], t)| <= total[t] {
      HoldersUpdate(zs, i, z, t);
      match t { case ActiveZone => case OpenZone => case ZrwaZone => }
    }
  }

  /** A zone that holds a resource keeps its count positive. */
  lemma HolderCounts(zs: seq<Zone>, acquired: map<Resource, int>, total: map<Resource, int>, i: nat, t: Resource)
    requires Counted(zs, acquired, total) && i < |zs|
    ensures t in acquired && t in total && (Holds(zs[i], t) ==> acquired[t] > 0)
  {
    if Holds(zs[i], t) { assert i in Holders(zs, t); }
  }

  /** A WD_ZN540: write unit of one block, one-shot pages of 24 pages, a buffer for each zone. */
  method NewZn540(nrZones: nat) returns (d: ZnsFtl)
    requires nrZones > 0
    ensures fresh(d) && fresh(d.zones) && d.Valid() && d.Buffers() && |d.wbufs| == d.zones.Length == nrZones
      && fresh(d.wbufs[0])
    ensures d.shape == ZB.Shape(524288, 24) && d.zoneWb && d.lbasPerZone == 4194304 && d.lbasPerWriteUnit == 1
    ensures d.wbufs[0].size == d.wbufs[0].remaining == d.Accounted(0) == 983040 && d.pending[0] == 0
    ensures forall t: Resource :: t in d.total && d.total[t] >= nrZones
    ensures d.zones[..][0] == Zone(Empty, 0, false)
  {
    hide Counted, Debts, ZnsFtl.OnUnits;
    d := new ZnsFtl(nrZones, ZB.Shape(524288, 24), 1, nrZones, nrZones, nrZones, true, 10 * (PGSZ * 24));
    assert PointerOk(d.zones[0], 0, d.lbasPerZone);
    forall t: Resource ensures t in d.total && d.total[t] >= nrZones {
      match t { case ActiveZone => case OpenZone => case ZrwaZone => }
    }
  }

  /** On a WD_ZN540, two writes that end in and at the end of page 23 of a zone leave its drained
      buffer with a one-shot page of bytes more than its size. */
  method OverfillBuffer(nrZones: nat) returns (d: ZnsFtl)
    requires nrZones > 0
    ensures d.Valid() && d.Buffers() && |d.wbufs| == nrZones && d.pending[0] == 0
    ensures d.wbufs[0].remaining == d.wbufs[0].size + PGSZ * 24
  {
    hide Counted, Debts, ActionStatus, Allowed, PointerOk, Opened, Active, ZnsFtl.OnUnits;
    hide ZB.Shape.Finished, ZB.Shape.PagesUpTo, ZB.Shape.Excess, ZB.Shape.Debt, ZB.Shape.EndsInside;
    d := NewZn540(nrZones);
    ZB.ReleasedTwice();
    NoLimitReached(OpenAction, false, d.zones[..], d.acquired, d.total, 0);
    var busy, status := d.Write(0, 191, false);
    assert status == Success && d.zones[..][0] == Zone(OpenedImpl, 191, false);
    NoLimitReached(OpenAction, false, d.zones[..], d.acquired, d.total, 0);
    busy, status := d.Write(191, 1, false);
    assert status == Success && d.zones[..][0] == Zone(OpenedImpl, 192, false);
    OneDebt(d.zones[..], d.shape, 0);
    d.Drain(0, 2 * (PGSZ * 24));
  }

  /** On a WD_ZN540, resetting a zone with one page written leaves its drained buffer a page short
      for good. */
  method LeakByReset(nrZones: nat) returns (d: ZnsFtl)
    requires nrZones > 0
    ensures d.Valid() && d.Buffers() && |d.wbufs| == nrZones && d.pending[0] == 0
    ensures d.zones.Length == nrZones && d.zones[0] == Zone(Empty, 0, false)
    ensures d.wbufs[0].remaining == d.wbufs[0].size - PGSZ
  {
    hide Counted, Debts, ActionStatus, Allowed, PointerOk, Opened, Active, ZnsFtl.OnUnits;
    hide ZB.Shape.Finished, ZB.Shape.PagesUpTo, ZB.Shape.Excess, ZB.Shape.Debt, ZB.Shape.EndsInside;
    d := NewZn540(nrZones);
    ZB.OnePageHeld();
    NoLimitReached(OpenAction, false, d.zones[..], d.acquired, d.total, 0);
    var busy, status := d.Write(0, SECS_PER_PG, false);
    assert status == Success && d.zones[..][0] == Zone(OpenedImpl, SECS_PER_PG, false);
    OneDebt(d.zones[..], d.shape, 0);
    HasCounters(d.zones[..], d.acquired, d.total);
    ResetAllowed(d.zones[..][0], d.acquired, d.total);
    status := d.Send(0, ResetZone, false);
    OneDebt(d.zones[..], d.shape, 0);
  }

  lemma ResetAllowed(z: Zone, acquired: map<Resource, int>, total: map<Resource, int>)
    requires z.state == OpenedImpl && forall t: Resource :: t in acquired && t in total
    ensures ActionStatus(ResetZone, false, z, acquired, total) == Success
  {}

  /** With a buffer for each zone only that zone's bytes are in it. */
  lemma {:induction false} OneDebt(zs: seq<Zone>, shape: ZB.Shape, b: nat)
    requires shape.Ok() && b < |zs|
    ensures Debts(zs, shape, true, b) == DebtOf(zs[b], b, shape)
  {
    var k := |zs| - 1;
    if b < k { OneDebt(zs[..k], shape, b); } else { OthersDebt(zs[..k], shape, b); }
  }

  lemma {:induction false} OthersDebt(zs: seq<Zone>, shape: ZB.Shape, b: nat)
    requires shape.Ok() && b >= |zs|
    ensures Debts(zs, shape, true, b) == 0
  {
    if zs != [] { OthersDebt(zs[..|zs| - 1], shape, b); }
  }
}
