/** The write-buffer bytes of one zone (zns_read_write.c): a write takes a byte for each byte
    written, and gives back the bytes of every one-shot page whose last page it touches. All
    places are relative to the start of the zone. */
module ZoneBuffer {
  import opened Radix
  import opened WriteBuffer

  /** The sizes of a zone: its pages, and the pages of a one-shot page. */
  datatype Shape = Shape(pages: nat, oneshot: nat) {
    predicate Ok() { oneshot > 0 }

    /** Of the first p pages of a zone, those whose one-shot page ends among them. The last
        one-shot page of the zone may be cut short. */
    function Finished(p: nat): (r: nat)
      requires Ok()
      ensures r <= p < r + oneshot
    {
      if p == pages then p else p - p % oneshot
    }

    /** Page p is the last of its one-shot page, or of the zone. */
    predicate Closes(p: nat)
      requires Ok()
    {
      (p + 1) % oneshot == 0 || p + 1 == pages
    }

    /** Bytes of a zone written up to block o that are still in the buffer. */
    function Debt(o: nat): int
      requires Ok()
    {
      LBA_SIZE * o - PGSZ * Finished(o / SECS_PER_PG)
    }

    /** A write up to block o ends inside the last page of a one-shot page. */
    predicate EndsInside(o: nat)
      requires Ok()
    {
      o % SECS_PER_PG != 0 && Closes(o / SECS_PER_PG)
    }

    /** Bytes that a write up to block o gives back too many: a last page written in part gives
        back its one-shot page, and so will the write that goes on in that page. */
    function Excess(o: nat): (r: nat)
      requires Ok()
      ensures r > 0 <==> EndsInside(o)
    {
      if EndsInside(o) then PGSZ * (o / SECS_PER_PG + 1 - Finished(o / SECS_PER_PG)) else 0
    }

    /** The first page that a write up to block o does not touch. */
    function PagesUpTo(o: nat): nat { (o + SECS_PER_PG - 1) / SECS_PER_PG }

    /** Finishing one more page finishes its one-shot page, if it closes that, and nothing else. */
    lemma OneMorePage(p: nat)
      requires Ok() && p < pages
      ensures Finished(p + 1) == if Closes(p) then p + 1 else Finished(p)
    {
      Remainders(p, 1);
    }

    /** The step of the release loop: up to the end of a one-shot page, or of the write. */
    lemma MorePages(p: nat, n: nat)
      requires Ok() && 0 < n <= oneshot - p % oneshot && p + n <= pages
      ensures Finished(p + n) >= Finished(p)
      ensures PGSZ * (Finished(p + n) - Finished(p)) ==
              if p % oneshot + n != oneshot && p + n != pages then 0
              else if p + n == pages && pages % oneshot > 0 then PGSZ * (pages % oneshot)
              else PGSZ * oneshot
    {
      Remainders(p, n);
    }

    lemma Remainders(p: nat, n: nat)
      requires Ok() && 0 < n <= oneshot - p % oneshot
      ensures (p + n) % oneshot == if p % oneshot + n == oneshot then 0 else p % oneshot + n
    {
      var r := p % oneshot;
      assert p == (p / oneshot) * oneshot + r;
      if r + n < oneshot {
        DivModUnique(p + n, oneshot, p / oneshot, r + n);
      } else {
        DivModUnique(p + n, oneshot, p / oneshot + 1, 0);
      }
    }

    /** A write from block o to block e changes what the zone has in the buffer by what it takes
        and what it gives back, less the excess. */
    lemma WriteBalance(o: nat, e: nat)
      requires Ok() && o < e <= pages * SECS_PER_PG
      ensures PagesUpTo(e) <= pages
      ensures Debt(e) + PGSZ * (Finished(PagesUpTo(e)) - Finished(o / SECS_PER_PG))
              == Debt(o) + LBA_SIZE * (e - o) + Excess(e)
    {
      hide Finished, PagesUpTo, Closes;
      PageCount(e);
      if e % SECS_PER_PG != 0 { OneMorePage(e / SECS_PER_PG); }
    }

    lemma PageCount(e: nat)
      ensures PagesUpTo(e) == e / SECS_PER_PG + if e % SECS_PER_PG == 0 then 0 else 1
    {}

    /** Nothing of a zone is in the buffer exactly when its last one-shot page is finished, and
        never as much as a one-shot page. */
    lemma DebtBound(o: nat)
      requires Ok() && o <= pages * SECS_PER_PG
      ensures 0 <= Debt(o) <= PGSZ * oneshot - LBA_SIZE
      ensures Debt(o) == 0 <==> o == pages * 8 || o % (oneshot * 8) == 0
    {
      DebtIs(o);
    }

    /** What is in the buffer is what lies behind the last whole one-shot page; nothing at the end
        of the zone. */
    lemma DebtIs(o: nat)
      requires Ok() && o <= pages * SECS_PER_PG
      ensures Debt(o) == if o == pages * 8 then 0 else 512 * (o % (oneshot * 8))
    {
      var p, r := o / SECS_PER_PG, o % SECS_PER_PG;
      assert o == p * SECS_PER_PG + r;
      if o < pages * SECS_PER_PG {
        var q, u := p / oneshot, p % oneshot;
        assert p == q * oneshot + u;
        assert o == q * (oneshot * 8) + (u * 8 + r) by { assert (q * oneshot) * 8 == q * (oneshot * 8); }
        MulMono(u + 1, oneshot, 8);
        DivModUnique(o, oneshot * 8, q, u * 8 + r);
      }
    }

    /** The excess of a write that ends inside page p, the last of its one-shot page, is that
        one-shot page: a short one at the end of a zone that is no whole number of them. */
    lemma ExcessIs(o: nat)
      requires Ok() && o <= pages * SECS_PER_PG
      ensures var p := o / 8;
        Excess(o) ==
        if o % 8 != 0 && ((p + 1) % oneshot == 0 || p + 1 == pages)
        then 4096 * (if (p + 1) % oneshot == 0 then oneshot else (p + 1) % oneshot) else 0
    {
      Remainders(o / 8, 1);
    }

    /** Where the write unit is a whole number of one-shot pages, as in ZNS_PROTOTYPE, writes
        never give back too much, and leave nothing in the buffer. */
    lemma WholeUnits(o: nat, unit: nat)
      requires Ok() && unit > 0 && o % unit == 0 && unit % (oneshot * SECS_PER_PG) == 0 && o <= pages * SECS_PER_PG
      ensures Excess(o) == 0 && Debt(o) == 0
    {
      var m := oneshot * SECS_PER_PG;
      var k := (o / unit) * (unit / m);
      assert o == k * m by {
        assert o == (o / unit) * unit && unit == (unit / m) * m;
        assert (o / unit) * ((unit / m) * m) == k * m;
      }
      assert k * m == (k * oneshot) * SECS_PER_PG;
      DivModUnique(o, SECS_PER_PG, k * oneshot, 0);
      DivModUnique(k * oneshot, oneshot, k, 0);
    }
  }

  lemma Scale(a: nat, m: nat, k: nat)
    requires m > 0 && k > 0
    ensures (k * a) % (k * m) == k * (a % m)
  {
    var q, r := a / m, a % m;
    assert k * a == q * (k * m) + k * r by { assert a == q * m + r; }
    MulMono(r + 1, m, k);
    DivModUnique(k * a, k * m, q, k * r);
  }

  /** With the sizes of WD_ZN540, whose write unit is one block: a write that ends inside page
      23 gives back its one-shot page of 24 pages, and so does the one that ends that page. */
  lemma ReleasedTwice()
    ensures var z := Shape(524288, 24);
      && z.Excess(191) == PGSZ * 24 && z.Excess(192) == 0 && z.Debt(192) == 0
      && PGSZ * (z.Finished(z.PagesUpTo(191)) - z.Finished(0)) == PGSZ * 24
      && PGSZ * (z.Finished(z.PagesUpTo(192)) - z.Finished(191 / SECS_PER_PG)) == PGSZ * 24
  {
    assert 191 % SECS_PER_PG == 7 && 191 / SECS_PER_PG == 23;
  }

  /** A first page is held back until its one-shot page is full. */
  lemma OnePageHeld()
    ensures var z := Shape(524288, 24); z.Debt(SECS_PER_PG) == PGSZ && z.Debt(0) == 0 && z.Excess(SECS_PER_PG) == 0
  {}
}
