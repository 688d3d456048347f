/** The bandwidth model of a channel (channel_model.c): a ring of credits per time slot that
    stands for a ledger over all slots from now on. */
module ChannelModel {
  import opened Radix

  const NR_CREDIT_ENTRIES := 1024 * 96
  const UNIT_TIME_INTERVAL := 4000
  const UNIT_XFER_SIZE := 128
  const UINT32 := 0x1_0000_0000

  function Min(a: nat, b: nat): nat { if a <= b then a else b }

  // ---------- The ledger ----------

  /** The ring as a value: view[k] is the credits left in slot `slot + k`, and from validLen on
      no slot has been booked. */
  datatype Ledger = Ledger(view: seq<nat>, validLen: nat, slot: nat, max: nat) {
    ghost predicate Ok() {
      && |view| == NR_CREDIT_ENTRIES && validLen <= |view|
      && (forall k :: 0 <= k < |view| ==> view[k] <= max)
      && (forall k :: validLen <= k < |view| ==> view[k] == max)
    }

    /** Credits left in an absolute time slot, now or later. */
    function Left(s: nat): nat
      requires s >= slot
    {
      if s - slot < |view| then view[s - slot] else max
    }
  }

  /** n slots nobody has booked. */
  function Unbooked(n: nat, max: nat): (r: seq<nat>)
    ensures |r| == n && forall k :: 0 <= k < n ==> r[k] == max
  {
    seq(n, _ => max)
  }

  /** How many slots the model drops when the clock moves on by gap slots: the gap is kept in
      32 bits. */
  function Dropped(gap: nat, validLen: nat): nat { Min(gap % UINT32, validLen) }

  /** Moving the clock to slot now. */
  function Aged(l: Ledger, now: nat): (r: Ledger)
    requires now >= l.slot && l.validLen <= |l.view|
    ensures r.slot == now && |r.view| == |l.view|
  {
    var n := Dropped(now - l.slot, l.validLen);
    Ledger(l.view[n..] + Unbooked(n, l.max), l.validLen - n, now, l.max)
  }

  /** The gap fits 32 bits, or what is left of it reaches past the window anyway. */
  predicate GapSeen(gap: nat, validLen: nat) { gap < UINT32 || gap % UINT32 >= validLen }

  /** The model drops as many slots as have passed, up to its window, exactly when GapSeen. */
  lemma DropsRight(gap: nat, validLen: nat)
    requires validLen <= NR_CREDIT_ENTRIES
    ensures Dropped(gap, validLen) == Min(gap, validLen) <==> GapSeen(gap, validLen)
  {}

  lemma AgedOk(l: Ledger, now: nat)
    requires l.Ok() && now >= l.slot
    ensures Aged(l, now).Ok()
  {}

  /** Ageing leaves every slot from now on as it was, if and only if the gap is seen or every
      booking that is carried over by mistake is empty. */
  lemma AgeingExact(l: Ledger, now: nat)
    requires l.Ok() && now >= l.slot
    ensures (forall s :: s >= now ==> Aged(l, now).Left(s) == l.Left(s)) <==>
      GapSeen(now - l.slot, l.validLen) || forall k :: (now - l.slot) % UINT32 <= k < l.validLen ==> l.view[k] == l.max
  {
    hide Aged, Dropped, Ledger.Left, GapSeen;
    if GapSeen(now - l.slot, l.validLen) {
      forall s | s >= now ensures Aged(l, now).Left(s) == l.Left(s) { AgedLeft(l, now, s); }
    } else {
      forall s | s >= now ensures l.Left(s) == l.max { UnseenIsFar(l, now, s); }
      var n := (now - l.slot) % UINT32;
      if forall k :: n <= k < l.validLen ==> l.view[k] == l.max {
        forall s | s >= now ensures Aged(l, now).Left(s) == l.max {
          AgedAt(l, now, s - now);
          DroppedUnseen(now - l.slot, l.validLen);
        }
      } else {
        var k :| n <= k < l.validLen && l.view[k] != l.max;
        AgedAt(l, now, k - n);
        DroppedUnseen(now - l.slot, l.validLen);
        assert Aged(l, now).Left(now + (k - n)) != l.Left(now + (k - n));
      }
    }
  }

  lemma DroppedUnseen(gap: nat, validLen: nat)
    requires !GapSeen(gap, validLen)
    ensures Dropped(gap, validLen) == gap % UINT32 < validLen
  {}

  /** A gap that is not seen is longer than the window. */
  lemma UnseenIsFar(l: Ledger, now: nat, s: nat)
    requires l.Ok() && now >= l.slot && !GapSeen(now - l.slot, l.validLen) && s >= now
    ensures l.Left(s) == l.max
  {}

  lemma AgedAt(l: Ledger, now: nat, k: nat)
    requires l.Ok() && now >= l.slot
    ensures var n := Dropped(now - l.slot, l.validLen);
      Aged(l, now).Left(now + k) == if n + k < l.validLen then l.view[n + k] else l.max
  {}

  lemma AgedLeft(l: Ledger, now: nat, s: nat)
    requires l.Ok() && now >= l.slot && GapSeen(now - l.slot, l.validLen) && s >= now
    ensures Aged(l, now).Left(s) == l.Left(s)
  {
    DropsRight(now - l.slot, l.validLen);
    AgedAt(l, now, s - now);
  }

  /** After an idle time of 2^32 slots a fully booked slot is taken for a slot of the present. */
  lemma LongIdleRevivesBookings(now: nat)
    requires now >= UINT32
    ensures var l := Ledger([0] + Unbooked(NR_CREDIT_ENTRIES - 1, 26), 1, now - UINT32, 26);
      l.Ok() && l.Left(now) == 26 && Aged(l, now).Left(now) == 0
  {
    var l := Ledger([0] + Unbooked(NR_CREDIT_ENTRIES - 1, 26), 1, now - UINT32, 26);
    AgedAt(l, now, 0);
  }

  // ---------- Booking ----------

  /** The ledger's slots after a booking, the last slot it reached and what it did not get. */
  datatype Booking = Booking(view: seq<nat>, last: nat, unmet: nat)

  /** Takes need credits from slot i on, slot by slot. */
  function Consume(v: seq<nat>, i: nat, need: nat): (b: Booking)
    requires i < |v|
    ensures |b.view| == |v| && i <= b.last < |v|
    decreases |v| - i
  {
    var c := Min(need, v[i]);
    var v1 := v[i := v[i] - c];
    if need == c || i + 1 == |v| then Booking(v1, i, need - c) else Consume(v1, i + 1, need - c)
  }

  function SumOf(v: seq<nat>, from: nat, to: nat): nat
    requires from <= to <= |v|
    decreases |v| - from
  {
    if from == to then 0 else v[from] + SumOf(v, from + 1, to)
  }

  lemma {:induction false} SumSame(v: seq<nat>, w: seq<nat>, from: nat, to: nat)
    requires from <= to <= |v| && |w| == |v| && forall k :: from <= k < to ==> v[k] == w[k]
    ensures SumOf(v, from, to) == SumOf(w, from, to)
    decreases |v| - from
  {
    if from < to { SumSame(v, w, from + 1, to); }
  }

  /** A booking empties the earliest slots: all slots before the last one it reaches, and it
      reaches no slot it does not need. It gets all it asked for unless it reaches the end of
      the ring and empties that too. No other slot changes. */
  lemma {:induction false} BookingTakesEarliest(v: seq<nat>, i: nat, need: nat)
    requires i < |v|
    ensures var b := Consume(v, i, need);
      && |b.view| == |v| && i <= b.last < |v| && b.unmet <= need
      && (forall k :: 0 <= k < |v| && (k < i || k > b.last) ==> b.view[k] == v[k])
      && (forall k :: i <= k < b.last ==> b.view[k] == 0)
      && b.view[b.last] <= v[b.last]
      && SumOf(v, i, b.last + 1) == SumOf(b.view, i, b.last + 1) + need - b.unmet
      && (b.last > i ==> SumOf(v, i, b.last) < need)
      && (b.unmet > 0 ==> b.last == |v| - 1 && b.view[b.last] == 0)
    decreases |v| - i
  {
    var c := Min(need, v[i]);
    var v1 := v[i := v[i] - c];
    var b := Consume(v, i, need);
    if need == c || i + 1 == |v| {
      assert SumOf(v, i + 1, i + 1) == 0 && SumOf(v1, i + 1, i + 1) == 0;
    } else {
      BookingTakesEarliest(v1, i + 1, need - c);
      SumSame(v, v1, i + 1, b.last + 1);
      SumSame(v, v1, i + 1, b.last);
    }
  }

  lemma {:induction false} SumFull(v: seq<nat>, from: nat, to: nat, max: nat)
    requires from <= to <= |v| && forall k :: from <= k < to ==> v[k] == max
    ensures SumOf(v, from, to) == (to - from) * max
    decreases |v| - from
  {
    if from < to { SumFull(v, from + 1, to, max); }
  }

  /** The delay that a request alone on the channel has is already in its transfer latency:
      with no other booking from slot i on, no extra delay is charged. */
  lemma AloneNoExtraDelay(v: seq<nat>, i: nat, need: nat, max: nat)
    requires i < |v| && max > 0 && forall k :: i <= k < |v| ==> v[k] == max
    ensures Consume(v, i, need).last - i <= need / max
  {
    hide Consume, SumOf;
    BookingTakesEarliest(v, i, need);
    var d := Consume(v, i, need).last - i;
    SumFull(v, i, i + d, max);
    WholeSlots(d, need, max);
  }

  lemma WholeSlots(d: nat, need: nat, max: nat)
    requires max > 0 && (d * max < need || d == 0)
    ensures d <= need / max
  {
    var q := need / max;
    assert need == q * max + need % max && (q + 1) * max == q * max + max;
    if d > q { MulMono(q + 1, d, max); }
  }

  /** From slot i on, m credits are booked one slot after the other, each filled before the next. */
  ghost predicate Packed(v: seq<nat>, i: nat, m: nat, max: nat)
    requires i <= |v|
    decreases |v| - i
  {
    if i == |v| then m == 0 else v[i] == max - Min(m, max) && Packed(v, i + 1, m - Min(m, max), max)
  }

  lemma {:induction false} PackedSame(v: seq<nat>, w: seq<nat>, i: nat, m: nat, max: nat)
    requires i <= |v| == |w| && (forall k :: i <= k < |v| ==> v[k] == w[k]) && Packed(v, i, m, max)
    ensures Packed(w, i, m, max)
    decreases |v| - i
  {
    if i < |v| { PackedSame(v, w, i + 1, m - Min(m, max), max); }
  }

  lemma {:induction false} NothingPacked(v: seq<nat>, i: nat, max: nat)
    requires i <= |v| && forall k :: i <= k < |v| ==> v[k] == max
    ensures Packed(v, i, 0, max)
    decreases |v| - i
  {
    if i < |v| { NothingPacked(v, i + 1, max); }
  }

  /** The slots of a ring that m credits are packed into have room for the rest. */
  lemma {:induction false} PackedRoom(v: seq<nat>, i: nat, m: nat, max: nat)
    requires i <= |v| && Packed(v, i, m, max)
    ensures m <= (|v| - i) * max
    decreases |v| - i
  {
    if i < |v| {
      PackedRoom(v, i + 1, m - Min(m, max), max);
      OneSlotMore(|v| - i, max);
    }
  }

  lemma OneSlotMore(n: nat, max: nat)
    requires n > 0
    ensures n * max == (n - 1) * max + max
  {}

  /** The bandwidth law: with m credits packed from slot i on, a booking of need more that fits the
      ring gets them all, packs them behind the others, and ends in the slot that the last of the
      m + need credits belongs to. */
  lemma {:induction false} PackedMore(v: seq<nat>, i: nat, m: nat, need: nat, max: nat)
    requires i < |v| && max > 0 && Packed(v, i, m, max) && need > 0 && m + need <= (|v| - i) * max
    ensures var b := Consume(v, i, need);
      && |b.view| == |v| && Packed(b.view, i, m + need, max) && b.unmet == 0 && b.last == i + (m + need - 1) / max
      && forall k :: 0 <= k < i ==> b.view[k] == v[k]
    decreases |v| - i
  {
    hide Consume;
    ConsumeStep(v, i, need);
    var c := Min(need, v[i]);
    var v1 := v[i := v[i] - c];
    OneSlotMore(|v| - i, max);
    PackedSame(v, v1, i + 1, m - Min(m, max), max);
    if need == c {
      FirstSlot(m + need, max);
    } else {
      MoreThanOneSlot(|v| - i, m + need, max);
      PackedMore(v1, i + 1, m - Min(m, max), need - c, max);
      SlotBack(m + need, max);
    }
  }

  lemma MoreThanOneSlot(n: int, m: nat, max: nat)
    requires max < m <= n * max
    ensures n > 1
  {
    if n <= 1 { MulMono(n, 1, max); }
  }

  lemma FirstSlot(m: nat, max: nat)
    requires 0 < m <= max
    ensures (m - 1) / max == 0
  {}

  lemma SlotBack(m: nat, max: nat)
    requires 0 < max < m
    ensures (m - 1) / max == 1 + (m - max - 1) / max
  {
    var n := m - max - 1;
    DivModUnique(m - 1, max, n / max + 1, n % max);
  }

  /** Booking keeps the ledger well formed. */
  function Book(l: Ledger, i: nat, need: nat): Ledger
    requires i < |l.view|
  {
    var b := Consume(l.view, i, need);
    l.(view := b.view, validLen := if b.last + 1 > l.validLen then b.last + 1 else l.validLen)
  }

  lemma BookOk(l: Ledger, i: nat, need: nat)
    requires l.Ok() && i < |l.view|
    ensures Book(l, i, need).Ok()
  {
    BookingTakesEarliest(l.view, i, need);
  }

  // ---------- The ring ----------

  /** Where slot k from the head sits. */
  function Ix(head: nat, k: nat): (i: nat)
    requires head < NR_CREDIT_ENTRIES && k < NR_CREDIT_ENTRIES
    ensures i < NR_CREDIT_ENTRIES && i == (head + k) % NR_CREDIT_ENTRIES
  {
    if head + k < NR_CREDIT_ENTRIES then head + k else head + k - NR_CREDIT_ENTRIES
  }

  /** The ring read from its head. */
  function ViewOf(cells: seq<nat>, head: nat): (v: seq<nat>)
    requires |cells| == NR_CREDIT_ENTRIES && head < NR_CREDIT_ENTRIES
    ensures |v| == NR_CREDIT_ENTRIES && forall k :: 0 <= k < |v| ==> v[k] == cells[Ix(head, k)]
  {
    cells[head..] + cells[..head]
  }

  lemma ViewUpdate(cells: seq<nat>, head: nat, k: nat, x: nat)
    requires |cells| == NR_CREDIT_ENTRIES && head < NR_CREDIT_ENTRIES && k < NR_CREDIT_ENTRIES
    ensures ViewOf(cells[Ix(head, k) := x], head) == ViewOf(cells, head)[k := x]
  {}

  /** Clearing the first n slots and moving the head past them. */
  lemma ViewCleared(cells: seq<nat>, cells': seq<nat>, head: nat, n: nat, max: nat)
    requires |cells| == |cells'| == NR_CREDIT_ENTRIES && head < NR_CREDIT_ENTRIES && n <= NR_CREDIT_ENTRIES
    requires forall i :: 0 <= i < NR_CREDIT_ENTRIES ==>
      cells'[i] == if head <= i < head + n || i + NR_CREDIT_ENTRIES < head + n then max else cells[i]
    ensures ViewOf(cells', (head + n) % NR_CREDIT_ENTRIES) == ViewOf(cells, head)[n..] + Unbooked(n, max)
  {
    hide ViewOf, Unbooked, Ix;
    var h := (head + n) % NR_CREDIT_ENTRIES;
    var v, w := ViewOf(cells', h), ViewOf(cells, head)[n..] + Unbooked(n, max);
    forall k | 0 <= k < NR_CREDIT_ENTRIES ensures v[k] == w[k] {
      ClearedIx(head, n, k);
    }
  }

  /** Slot k from the new head is slot n + k from the old one, or a cleared one. */
  lemma ClearedIx(head: nat, n: nat, k: nat)
    requires head < NR_CREDIT_ENTRIES && n <= NR_CREDIT_ENTRIES && k < NR_CREDIT_ENTRIES
    ensures var i := Ix((head + n) % NR_CREDIT_ENTRIES, k);
      if n + k < NR_CREDIT_ENTRIES then i == Ix(head, n + k)
          && !(head <= i < head + n || i + NR_CREDIT_ENTRIES < head + n)
      else head <= i < head + n || i + NR_CREDIT_ENTRIES < head + n
  {}

  /** BANDWIDTH_TO_MAX_CREDITS and BANDWIDTH_TO_TX_TIME, for a bandwidth in MB/s. */
  function MaxCredits(bandwidth: nat): nat {
    bandwidth * 0x10_0000 * UNIT_TIME_INTERVAL / 1_000_000_000 / UNIT_XFER_SIZE
  }

  function TxTime(bandwidth: nat): int
    requires bandwidth > 0
  {
    UNIT_XFER_SIZE * 1_000_000_000 / (bandwidth * 0x10_0000)
  }

  /** memset stores the low byte of its value. */
  function Byte(x: nat): nat { x % 256 }

  /** A fresh ring offers the channel's credits exactly when they fit a byte. */
  lemma FreshExact(max: nat)
    ensures Ledger(Unbooked(NR_CREDIT_ENTRIES, Byte(max)), 0, 0, max).Ok() <==> max < 256
  {
    if max >= 256 {
      assert Unbooked(NR_CREDIT_ENTRIES, Byte(max))[0] != max;
    }
  }

  /** Both configured bandwidths fit: 26 credits a slot for a NAND channel, 110 for PCIe. A credit
      takes 152 ns on the one and 36 ns on the other. */
  lemma ShippedCredits()
    ensures MaxCredits(800) == 26 && MaxCredits(3360) == 110 && TxTime(800) == 152 && TxTime(3360) == 36
  {
    assert 800 * 0x10_0000 * UNIT_TIME_INTERVAL / 1_000_000_000 == 3355;
    assert 3360 * 0x10_0000 * UNIT_TIME_INTERVAL / 1_000_000_000 == 14092;
  }

  class Channel {
    const credits: array<nat>
    var curTime: nat
    var head: nat
    var validLen: nat
    var maxCredits: nat
    var commandCredits: nat
    var xferLat: int

    ghost predicate Shape()
      reads this
    {
      credits.Length == NR_CREDIT_ENTRIES && head < NR_CREDIT_ENTRIES && 0 < maxCredits < 256
    }

    ghost function Now(): Ledger
      requires Shape()
      reads this, credits
    {
      Ledger(ViewOf(credits[..], head), validLen, curTime / UNIT_TIME_INTERVAL, maxCredits)
    }

    ghost predicate Valid()
      reads this, credits
    {
      Shape() && Now().Ok()
    }

    /** chmodel_init. */
    constructor (bandwidth: nat)
      requires bandwidth > 0 && 0 < MaxCredits(bandwidth) < 256
      ensures Valid() && fresh(credits) && curTime == 0 && maxCredits == MaxCredits(bandwidth)
        && xferLat == TxTime(bandwidth) && commandCredits == validLen == 0
      ensures forall s :: Now().Left(s) == MaxCredits(bandwidth)
    {
      hide MaxCredits, TxTime;
      head, validLen, curTime := 0, 0, 0;
      maxCredits := MaxCredits(bandwidth);
      commandCredits := 0;
      xferLat := TxTime(bandwidth);
      credits := new nat[NR_CREDIT_ENTRIES](_ => Byte(MaxCredits(bandwidth)));
    }

    method Memset(from: nat, value: nat, length: nat)
      requires from + length <= credits.Length
      modifies credits
      ensures forall i :: 0 <= i < credits.Length ==>
        credits[i] == if from <= i < from + length then Byte(value) else old(credits[i])
    {
      for i := from to from + length
        invariant forall j :: 0 <= j < credits.Length ==>
          credits[j] == if from <= j < i then Byte(value) else old(credits[j])
      {
        credits[i] := Byte(value);
      }
    }

    /** Clears the first n slots, around the end of the array if need be. */
    method ClearAhead(n: nat)
      requires Shape() && n <= NR_CREDIT_ENTRIES
      modifies credits
      ensures ViewOf(credits[..], (head + n) % NR_CREDIT_ENTRIES) == old(ViewOf(credits[..], head))[n..]
        + Unbooked(n, maxCredits)
    {
      ghost var cells := credits[..];
      if head + n >= NR_CREDIT_ENTRIES {
        Memset(head, maxCredits, NR_CREDIT_ENTRIES - head);
        Memset(0, maxCredits, n - (NR_CREDIT_ENTRIES - head));
      } else {
        Memset(head, maxCredits, n);
      }
      hide ViewOf, Unbooked;
      ViewCleared(cells, credits[..], head, n, maxCredits);
    }

    /** The first part of chmodel_request: the head moves to the slot of time now. */
    method Age(now: nat)
      requires Valid() && curTime <= now
      modifies `curTime, `head, `validLen, credits
      ensures Valid() && curTime == now && curTime / UNIT_TIME_INTERVAL >= old(curTime) / UNIT_TIME_INTERVAL
      ensures Now() == Aged(old(Now()), now / UNIT_TIME_INTERVAL)
    {
      hide ViewOf, Unbooked;
      SlotsGrow(curTime, now);
      AgedOk(Now(), now / UNIT_TIME_INTERVAL);
      var curTimeOffs: nat := (now / UNIT_TIME_INTERVAL - curTime / UNIT_TIME_INTERVAL) % UINT32;
      curTimeOffs := if curTimeOffs < validLen then curTimeOffs else validLen;
      ClearAhead(curTimeOffs);
      head := (head + curTimeOffs) % NR_CREDIT_ENTRIES;
      curTime := now;
      validLen := validLen - curTimeOffs;
      assert validLen <= NR_CREDIT_ENTRIES;
    }

    /** Takes what slot pos has, of need credits. */
    method TakeFrom(pos: nat, need: nat) returns (consumed: nat)
      requires pos < credits.Length
      modifies credits
      ensures consumed == if need <= old(credits[pos]) then need else old(credits[pos])
      ensures credits[..] == old(credits[..])[pos := old(credits[pos]) - consumed]
    {
      consumed := if need <= credits[pos] then need else credits[pos];
      credits[pos] := credits[pos] - consumed;
    }

    /** The consuming loop: need credits from the slot start slots after the head on. */
    method Take(start: nat, need: nat) returns (pos: nat, delay: nat)
      requires Shape() && start < NR_CREDIT_ENTRIES
      modifies credits
      ensures var b := Consume(old(ViewOf(credits[..], head)), start, need);
        ViewOf(credits[..], head) == b.view && pos == Ix(head, b.last) && b.last == start + delay
    {
      hide Consume, ViewOf, Ix;
      ghost var whole := Consume(ViewOf(credits[..], head), start, need);
      pos := (head + start) % NR_CREDIT_ENTRIES;
      NextIx(head, start);
      var remaining: nat := need;
      delay := 0;
      while true
        invariant start + delay < NR_CREDIT_ENTRIES && pos == Ix(head, start + delay)
        invariant Consume(ViewOf(credits[..], head), start + delay, remaining) == whole
        decreases NR_CREDIT_ENTRIES - delay
      {
        ghost var cells, k := credits[..], start + delay;
        NextIx(head, k);
        TakeStep(cells, head, k, remaining);
        var consumed := TakeFrom(pos, remaining);
        remaining := remaining - consumed;
        if remaining == 0 || (pos + 1) % NR_CREDIT_ENTRIES == head {
          break;
        }
        delay := delay + 1;
        pos := (pos + 1) % NR_CREDIT_ENTRIES;
      }
    }

    /** Books need credits and notes how far the bookings now reach. */
    method Reserve(start: nat, need: nat) returns (delay: nat)
      requires Valid() && start < NR_CREDIT_ENTRIES
      modifies `validLen, credits
      ensures Valid() && Now() == Book(old(Now()), start, need)
      ensures start + delay == Consume(old(Now()).view, start, need).last
    {
      hide Consume, ViewOf, Ix;
      ghost var l := Now();
      BookOk(l, start, need);
      var pos;
      pos, delay := Take(start, need);
      NextIx(head, start + delay);
      var validLength: nat := if pos >= head then pos - head + 1 else NR_CREDIT_ENTRIES - (head - pos - 1);
      assert validLength == start + delay + 1;
      if validLength > validLen {
        validLen := validLength;
      }
    }

    /** chmodel_request: when the transfer of length bytes that is asked for at requestTime ends. */
    method Request(now: nat, requestTime: nat, length: nat) returns (t: int)
      requires Valid() && curTime <= now
      modifies this, credits
      ensures Valid() && curTime == now && maxCredits == old(maxCredits) && xferLat == old(xferLat)
      ensures commandCredits == old(commandCredits)
      ensures var aged := Aged(old(Now()), now / UNIT_TIME_INTERVAL);
        if requestTime < now || SlotsAhead(now, requestTime) >= NR_CREDIT_ENTRIES
        then Now() == aged && t == requestTime
        else
          var offs, need := SlotsAhead(now, requestTime), Need(length, commandCredits);
          && Now() == Book(aged, offs, need)
          && var delay, expected := Consume(aged.view, offs, need).last - offs, need / maxCredits;
             t == requestTime + (xferLat * Units(length)) % UINT32
                  + (if delay > expected then delay - expected else 0) * UNIT_TIME_INTERVAL
    {
      hide Consume, ViewOf, Aged, Book;
      var units := (length + UNIT_XFER_SIZE - 1) / UNIT_XFER_SIZE % UINT32;
      Age(now);
      if requestTime < now {
        return requestTime;
      }
      SlotsGrow(now, requestTime);
      var requestOffs: nat := (requestTime / UNIT_TIME_INTERVAL - now / UNIT_TIME_INTERVAL) % UINT32;
      if requestOffs >= NR_CREDIT_ENTRIES {
        return requestTime;
      }
      var need := (units + commandCredits) % UINT32;
      var defaultDelay := need / maxCredits;
      var delay := Reserve(requestOffs, need);
      delay := if delay > defaultDelay then delay - defaultDelay else 0;
      t := requestTime + (xferLat * units) % UINT32 + delay * UNIT_TIME_INTERVAL;
    }

    /** The bandwidth law: requests one after the other for one time, on a channel on which nothing
        is booked and whose slots from then on their credits do not fill. Request k ends after its own transfer time and
        as many slots as the last credit of the first k + 1 requests lies beyond those that
        request k alone is expected to take. */
    method RequestAll(now: nat, time: nat, lengths: seq<nat>) returns (ts: seq<int>)
      requires Valid() && curTime <= now <= time
      requires forall k :: 0 <= k < NR_CREDIT_ENTRIES ==> Now().view[k] == maxCredits
      requires SlotsAhead(now, time) < NR_CREDIT_ENTRIES
      requires Credits(lengths, commandCredits) <= (NR_CREDIT_ENTRIES - SlotsAhead(now, time)) * maxCredits
      modifies this, credits
      ensures Valid() && maxCredits == old(maxCredits) && xferLat == old(xferLat) && |ts| == |lengths|
      ensures forall k :: 0 <= k < |ts| ==> EndsAt(lengths, old(commandCredits), maxCredits, xferLat, time, k, ts[k])
    {
      hide Aged, Consume, Book, ViewOf, Packed, EndsAt, Units, Need, Ledger.Left, Credits;
      ghost var slot, offs := now / UNIT_TIME_INTERVAL, SlotsAhead(now, time);
      SlotsGrow(curTime, now);
      IdleAged(Now(), slot, offs);
      ts := [];
      NoCredits(commandCredits);
      for k := 0 to |lengths|
        invariant Valid() && maxCredits == old(maxCredits) && xferLat == old(xferLat) && |ts| == k && curTime <= now
        invariant commandCredits == old(commandCredits) && Now().slot <= slot
        invariant var l := Aged(Now(), slot);
          l.Ok() && l.max == maxCredits && Packed(l.view, offs, Credits(lengths[..k], commandCredits), maxCredits)
        invariant forall j :: 0 <= j < k ==> EndsAt(lengths, commandCredits, maxCredits, xferLat, time, j, ts[j])
      {
        CreditsNext(lengths, k, commandCredits, maxCredits, NR_CREDIT_ENTRIES - offs);
        ghost var l := Aged(Now(), slot);
        var t := Request(now, time, lengths[k]);
        BookedMore(l, offs, Credits(lengths[..k], commandCredits), Need(lengths[k], commandCredits));
        AgedStill(Now());
        EndsThere(lengths, commandCredits, maxCredits, xferLat, time, k, t, l, offs);
        ts := ts + [t];
      }
    }
  }

  /** Request k of those of RequestAll ends at time t. */
  ghost predicate EndsAt(lengths: seq<nat>, command: nat, max: nat, lat: int, time: nat, k: nat, t: int)
    requires max > 0
  {
    k < |lengths| &&
    var units := (lengths[k] + 127) / 128;
    units + command > 0 ==>
      var last, expected := (Credits(lengths[..k + 1], command) - 1) / max, (units + command) / max;
      t == time + lat * units % 0x1_0000_0000 + (if last > expected then last - expected else 0) * 4000
  }

  /** The credits of requests of the given lengths, each with its command's. */
  function Credits(lengths: seq<nat>, command: nat): nat {
    if lengths == [] then 0
    else Credits(lengths[..|lengths| - 1], command) + (lengths[|lengths| - 1] + 127) / 128 + command
  }

  lemma IdleAged(l: Ledger, now: nat, offs: nat)
    requires l.Ok() && now >= l.slot && offs < NR_CREDIT_ENTRIES && forall k :: 0 <= k < |l.view| ==> l.view[k] == l.max
    ensures Aged(l, now).Ok() && Aged(l, now).max == l.max && Packed(Aged(l, now).view, offs, 0, l.max)
  {
    AgedOk(l, now);
    NothingPacked(Aged(l, now).view, offs, l.max);
  }

  lemma AgedStill(l: Ledger)
    requires l.Ok()
    ensures Aged(l, l.slot) == l
  {}

  lemma BookedMore(l: Ledger, i: nat, m: nat, need: nat)
    requires l.Ok() && l.max > 0 && i < NR_CREDIT_ENTRIES && Packed(l.view, i, m, l.max)
    requires m + need <= (NR_CREDIT_ENTRIES - i) * l.max
    ensures var l' := Book(l, i, need);
      l'.Ok() && l'.slot == l.slot && l'.max == l.max && Packed(l'.view, i, m + need, l.max)
    ensures need > 0 ==> Consume(l.view, i, need).last == i + (m + need - 1) / l.max
  {
    hide Packed;
    BookOk(l, i, need);
    if need > 0 { PackedMore(l.view, i, m, need, l.max); } else { assert Consume(l.view, i, 0).view == l.view; }
  }

  lemma {:induction false} CreditsNext(lengths: seq<nat>, k: nat, command: nat, max: nat, slots: nat)
    requires k < |lengths| && max < 256 && slots <= NR_CREDIT_ENTRIES && Credits(lengths, command) <= slots * max
    ensures Credits(lengths[..k + 1], command) == Credits(lengths[..k], command) + (lengths[k] + 127) / 128 + command
    ensures Credits(lengths[..k + 1], command) <= slots * max
    ensures Units(lengths[k]) == (lengths[k] + 127) / 128
    ensures Need(lengths[k], command) == (lengths[k] + 127) / 128 + command
    decreases |lengths|
  {
    hide Units, Need;
    CreditsOfPrefix(lengths, k, command);
    if k + 1 == |lengths| {
      assert lengths[..k + 1] == lengths;
      RingBound(slots, max);
      FitsWord(lengths[k], command);
    } else {
      var init := lengths[..|lengths| - 1];
      CreditsNext(init, k, command, max, slots);
      assert init[..k + 1] == lengths[..k + 1] && init[..k] == lengths[..k];
    }
  }

  lemma NoCredits(command: nat)
    ensures Credits([], command) == 0
  {}

  lemma CreditsOfPrefix(lengths: seq<nat>, k: nat, command: nat)
    requires k < |lengths|
    ensures Credits(lengths[..k + 1], command) == Credits(lengths[..k], command) + (lengths[k] + 127) / 128 + command
  {
    assert lengths[..k + 1][..k] == lengths[..k];
  }

  lemma FitsWord(length: nat, command: nat)
    requires (length + 127) / 128 + command < UINT32
    ensures Units(length) == (length + 127) / 128 && Need(length, command) == (length + 127) / 128 + command
  {}

  lemma RingBound(slots: nat, max: nat)
    requires max < 256 && slots <= NR_CREDIT_ENTRIES
    ensures slots * max < UINT32
  {
    MulMono(slots, NR_CREDIT_ENTRIES, max);
  }

  lemma EndsThere(lengths: seq<nat>, command: nat, max: nat, lat: int, time: nat, k: nat, t: int, l: Ledger, i: nat)
    requires k < |lengths| && max > 0 && l.Ok() && i < |l.view| && Units(lengths[k]) == (lengths[k] + 127) / 128
    requires var need := (lengths[k] + 127) / 128 + command;
      && (need > 0 ==> Consume(l.view, i, need).last == i + (Credits(lengths[..k + 1], command) - 1) / max)
      && var delay, expected := Consume(l.view, i, need).last - i, need / max;
         t == time + (lat * Units(lengths[k])) % UINT32
              + (if delay > expected then delay - expected else 0) * UNIT_TIME_INTERVAL
    ensures EndsAt(lengths, command, max, lat, time, k, t)
  {}

  /** units_to_xfer and the credits a request needs, in 32 bits. */
  function Units(length: nat): nat { (length + UNIT_XFER_SIZE - 1) / UNIT_XFER_SIZE % UINT32 }

  function Need(length: nat, commandCredits: nat): nat { (Units(length) + commandCredits) % UINT32 }

  lemma NextIx(head: nat, k: nat)
    requires head < NR_CREDIT_ENTRIES && k < NR_CREDIT_ENTRIES
    ensures Ix(head, k) == (head + k) % NR_CREDIT_ENTRIES
    ensures (Ix(head, k) + 1) % NR_CREDIT_ENTRIES == head <==> k + 1 == NR_CREDIT_ENTRIES
    ensures k + 1 < NR_CREDIT_ENTRIES ==> (Ix(head, k) + 1) % NR_CREDIT_ENTRIES == Ix(head, k + 1)
    ensures k + 1 == if Ix(head, k) >= head then Ix(head, k) - head + 1
                     else NR_CREDIT_ENTRIES - (head - Ix(head, k) - 1)
  {}

  lemma ViewAt(cells: seq<nat>, head: nat, k: nat)
    requires |cells| == NR_CREDIT_ENTRIES && head < NR_CREDIT_ENTRIES && k < NR_CREDIT_ENTRIES
    ensures ViewOf(cells, head)[k] == cells[Ix(head, k)]
  {}

  /** Taking what slot k has, of need credits. */
  lemma TakeStep(cells: seq<nat>, head: nat, k: nat, need: nat)
    requires |cells| == NR_CREDIT_ENTRIES && head < NR_CREDIT_ENTRIES && k < NR_CREDIT_ENTRIES
    ensures var v, pos := ViewOf(cells, head), Ix(head, k);
      var c := if need <= cells[pos] then need else cells[pos];
      var v1 := v[k := v[k] - c];
      && v[k] == cells[pos] && ViewOf(cells[pos := cells[pos] - c], head) == v1
      && Consume(v, k, need) == if need == c || k + 1 == |v| then Booking(v1, k, need - c)
          else Consume(v1, k + 1, need - c)
  {
    hide Consume, ViewOf, Ix;
    var pos := Ix(head, k);
    var c := if need <= cells[pos] then need else cells[pos];
    ViewAt(cells, head, k);
    ConsumeStep(ViewOf(cells, head), k, need);
    ViewUpdate(cells, head, k, cells[pos] - c);
  }

  lemma ConsumeStep(v: seq<nat>, i: nat, need: nat)
    requires i < |v|
    ensures var c := Min(need, v[i]); var v1 := v[i := v[i] - c];
      Consume(v, i, need) == if need == c || i + 1 == |v| then Booking(v1, i, need - c)
          else Consume(v1, i + 1, need - c)
  {}

  function SlotsAhead(now: nat, later: nat): nat
    requires now <= later
  {
    SlotsGrow(now, later);
    (later / UNIT_TIME_INTERVAL - now / UNIT_TIME_INTERVAL) % UINT32
  }

  lemma SlotsGrow(now: nat, later: nat)
    requires now <= later
    ensures now / UNIT_TIME_INTERVAL <= later / UNIT_TIME_INTERVAL
  {}

  lemma ThreeLengths()
    ensures var ls: seq<nat> := [3328, 3328, 3328];
      Credits(ls[..1], 0) == 26 && Credits(ls[..2], 0) == 52 && Credits(ls[..3], 0) == Credits(ls, 0) == 78
  {
    var ls: seq<nat> := [3328, 3328, 3328];
    assert ls[..1][..0] == [] && ls[..2][..1] == ls[..1] && ls[..3][..2] == ls[..2] && ls[..3] == ls;
  }

  /** A fresh NAND channel of 800 MB/s takes 26 credits a slot: of three requests for 26 credits
      at once the third is a slot late. */
  method ThreeAtOnce() returns (ts: seq<int>)
    ensures ts == [3952, 3952, 7952]
  {
    hide Aged, Consume, ViewOf;
    ShippedCredits();
    var c := new Channel(800);
    ThreeLengths();
    ts := c.RequestAll(0, 0, [3328, 3328, 3328]);
  }
}
