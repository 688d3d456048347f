/** Flash geometry of one FTL partition: the numbers fixed by ssd_init_params_slc, the
    physical page address, its linear page index, and the order in which a write pointer
    walks a line (a super-block: one block of every die). */
module Geometry {
  import opened Radix

  /** A physical page address; the plane is always 0 and is left out. */
  datatype Ppa = Ppa(ch: nat, lun: nat, blk: nat, pg: nat)

  /** One NAND block. */
  datatype Block = Block(ch: nat, lun: nat, blk: nat)

  function BlockOf(p: Ppa): Block { Block(p.ch, p.lun, p.blk) }

  datatype Geo = Geo(
    nchs: nat, lunsPerCh: nat, pgsPerFlashpg: nat,
    pgsPerOneshotSlc: nat, pgsPerOneshotTlc: nat, oneshotsPerBlk: nat,
    slcLines: nat, tlcLines: nat)
  {
    /** Blocks (and lines) [0, slcLines) are SLC, the rest are TLC. */
    predicate IsSlc(blk: nat) { blk < slcLines }

    function Lines(): nat { slcLines + tlcLines }

    function Oneshot(blk: nat): nat { if IsSlc(blk) then pgsPerOneshotSlc else pgsPerOneshotTlc }

    function PgsPerBlk(blk: nat): nat { Oneshot(blk) * oneshotsPerBlk }

    function FlashpgsPerBlk(blk: nat): nat
      requires pgsPerFlashpg > 0
    {
      (Oneshot(blk) / pgsPerFlashpg) * oneshotsPerBlk
    }

    function PgsPerBlkSlc(): nat { pgsPerOneshotSlc * oneshotsPerBlk }

    function PgsPerBlkTlc(): nat { pgsPerOneshotTlc * oneshotsPerBlk }

    /** Pages per line: one block on each of the lunsPerCh * nchs dies. */
    function PgsPerLine(blk: nat): nat { (lunsPerCh * nchs) * PgsPerBlk(blk) }

    function PgsPerLun(): nat { slcLines * PgsPerBlkSlc() + tlcLines * PgsPerBlkTlc() }

    function PgsPerCh(): nat { lunsPerCh * PgsPerLun() }

    function TtPgs(): nat { nchs * PgsPerCh() }

    /** What ssd_init_params_slc establishes: flash pages tile one-shot pages in both regions.
        The last bound keeps the cost-benefit divisor inside a C int. */
    predicate WellFormed() {
      && nchs > 0 && lunsPerCh > 0 && pgsPerFlashpg > 0
      && pgsPerOneshotSlc > 0 && pgsPerOneshotTlc > 0 && oneshotsPerBlk > 0
      && pgsPerOneshotSlc % pgsPerFlashpg == 0
      && pgsPerOneshotTlc % pgsPerFlashpg == 0
      && PgsPerLine(slcLines) * 250 < 0x8000_0000
    }

    /** valid_ppa. */
    predicate ValidPpa(p: Ppa) {
      p.ch < nchs && p.lun < lunsPerCh && p.blk < Lines() && p.pg < PgsPerBlk(p.blk)
    }

    /** First page of a block inside its die. */
    function BlkBase(blk: nat): nat {
      if IsSlc(blk) then blk * PgsPerBlkSlc()
      else slcLines * PgsPerBlkSlc() + (blk - slcLines) * PgsPerBlkTlc()
    }

    /** ppa2pgidx. */
    function Idx(p: Ppa): nat {
      p.ch * PgsPerCh() + p.lun * PgsPerLun() + BlkBase(p.blk) + p.pg
    }

    /** Position of a page in the order in which its line is written: page inside the
        one-shot page first, then channel, then LUN, then the next word-line. */
    function Rank(p: Ppa): nat
      requires Oneshot(p.blk) > 0
    {
      RankOf(p.pg, Oneshot(p.blk), lunsPerCh, p.lun, nchs, p.ch)
    }
  }

  // ---------- The page index ----------

  lemma PositiveSizes(g: Geo)
    requires g.WellFormed()
    ensures g.PgsPerBlkSlc() > 0 && g.PgsPerBlkTlc() > 0
    ensures forall blk: nat :: g.PgsPerLine(blk) > 0
  {
    MulPositive(g.pgsPerOneshotSlc, g.oneshotsPerBlk);
    MulPositive(g.pgsPerOneshotTlc, g.oneshotsPerBlk);
    MulPositive(g.lunsPerCh, g.nchs);
    MulPositive(g.lunsPerCh * g.nchs, g.PgsPerBlkSlc());
    MulPositive(g.lunsPerCh * g.nchs, g.PgsPerBlkTlc());
  }

  /** The block and page that a page offset inside a die belongs to. */
  function InDie(slcLines: nat, slcPgs: nat, tlcPgs: nat, q: nat): (nat, nat)
    requires slcPgs > 0 && tlcPgs > 0
  {
    if q < slcLines * slcPgs then (q / slcPgs, q % slcPgs)
    else (slcLines + (q - slcLines * slcPgs) / tlcPgs, (q - slcLines * slcPgs) % tlcPgs)
  }

  lemma InDieUndoesBase(slcLines: nat, tlcLines: nat, slcPgs: nat, tlcPgs: nat, blk: nat, pg: nat)
    requires slcPgs > 0 && tlcPgs > 0 && blk < slcLines + tlcLines
    requires pg < if blk < slcLines then slcPgs else tlcPgs
    ensures var q := (if blk < slcLines then blk * slcPgs else slcLines * slcPgs + (blk - slcLines) * tlcPgs) + pg;
            && q < slcLines * slcPgs + tlcLines * tlcPgs
            && InDie(slcLines, slcPgs, tlcPgs, q) == (blk, pg)
  {
    if blk < slcLines {
      JoinBound(blk, pg, slcPgs, slcLines);
      DivModUnique(blk * slcPgs + pg, slcPgs, blk, pg);
    } else {
      JoinBound(blk - slcLines, pg, tlcPgs, tlcLines);
      DivModUnique((blk - slcLines) * tlcPgs + pg, tlcPgs, blk - slcLines, pg);
    }
  }

  lemma InDieRange(slcLines: nat, tlcLines: nat, slcPgs: nat, tlcPgs: nat, q: nat)
    requires slcPgs > 0 && tlcPgs > 0 && q < slcLines * slcPgs + tlcLines * tlcPgs
    ensures var (blk, pg) := InDie(slcLines, slcPgs, tlcPgs, q);
            && blk < slcLines + tlcLines
            && pg < (if blk < slcLines then slcPgs else tlcPgs)
            && q == (if blk < slcLines then blk * slcPgs else slcLines * slcPgs + (blk - slcLines) * tlcPgs) + pg
  {
    if q < slcLines * slcPgs {
      Split2(q, slcPgs, slcLines);
    } else {
      Split2(q - slcLines * slcPgs, tlcPgs, tlcLines);
    }
  }

  /** The inverse of Idx, by successive division. */
  function PpaAt(g: Geo, n: nat): Ppa
    requires g.PgsPerLun() > 0 && g.PgsPerCh() > 0 && g.PgsPerBlkSlc() > 0 && g.PgsPerBlkTlc() > 0
  {
    var r := n % g.PgsPerCh();
    var (blk, pg) := InDie(g.slcLines, g.PgsPerBlkSlc(), g.PgsPerBlkTlc(), r % g.PgsPerLun());
    Ppa(n / g.PgsPerCh(), r / g.PgsPerLun(), blk, pg)
  }

  /** ppa2pgidx stays below tt_pgs on every valid address, and PpaAt undoes it. */
  lemma IdxRoundTrip(g: Geo, p: Ppa)
    requires g.WellFormed() && g.ValidPpa(p)
    ensures g.PgsPerLun() > 0 && g.PgsPerCh() > 0 && g.PgsPerBlkSlc() > 0 && g.PgsPerBlkTlc() > 0
    ensures g.Idx(p) < g.TtPgs()
    ensures PpaAt(g, g.Idx(p)) == p
  {
    hide InDie;
    PositiveSizes(g);
    InDieUndoesBase(g.slcLines, g.tlcLines, g.PgsPerBlkSlc(), g.PgsPerBlkTlc(), p.blk, p.pg);
    DieDigits(p.ch, g.nchs, p.lun, g.lunsPerCh, g.BlkBase(p.blk) + p.pg, g.PgsPerLun());
  }

  /** Channel, LUN and page of a die as the digits of a page index. */
  lemma DieDigits(ch: nat, chs: nat, lun: nat, luns: nat, q: nat, lunPgs: nat)
    requires ch < chs && lun < luns && q < lunPgs
    ensures var chPgs := luns * lunPgs;
            var k := ch * chPgs + lun * lunPgs + q;
            && chPgs > 0 && k < chs * chPgs && k / chPgs == ch
            && (k % chPgs) / lunPgs == lun && (k % chPgs) % lunPgs == q
  {
    var chPgs := luns * lunPgs;
    MulPositive(luns, lunPgs);
    JoinBound(lun, q, lunPgs, luns);
    JoinBound(ch, lun * lunPgs + q, chPgs, chs);
    DivModUnique(ch * chPgs + (lun * lunPgs + q), chPgs, ch, lun * lunPgs + q);
    DivModUnique(lun * lunPgs + q, lunPgs, lun, q);
  }

  /** Distinct valid pages have distinct indices. */
  lemma IdxInjective(g: Geo, p: Ppa, q: Ppa)
    requires g.WellFormed() && g.ValidPpa(p) && g.ValidPpa(q)
    requires g.Idx(p) == g.Idx(q)
    ensures p == q
  {
    IdxRoundTrip(g, p);
    IdxRoundTrip(g, q);
  }

  /** Two division steps stay in range and can be undone. */
  lemma TwoDigits(n: nat, chs: nat, luns: nat, lunPgs: nat)
    requires n < chs * (luns * lunPgs)
    ensures lunPgs > 0 && luns * lunPgs > 0
    ensures var r := n % (luns * lunPgs);
            && n / (luns * lunPgs) < chs && r / lunPgs < luns && r % lunPgs < lunPgs
            && n == (n / (luns * lunPgs)) * (luns * lunPgs) + r
            && r == (r / lunPgs) * lunPgs + r % lunPgs
  {
    MulZero(chs, luns, lunPgs);
    Split2(n, luns * lunPgs, chs);
    Split2(n % (luns * lunPgs), lunPgs, luns);
  }

  /** Every index below tt_pgs is the index of exactly the valid page that PpaAt gives. */
  lemma IdxOnto(g: Geo, n: nat)
    requires g.WellFormed() && n < g.TtPgs()
    ensures g.PgsPerLun() > 0 && g.PgsPerCh() > 0 && g.PgsPerBlkSlc() > 0 && g.PgsPerBlkTlc() > 0
    ensures g.ValidPpa(PpaAt(g, n)) && g.Idx(PpaAt(g, n)) == n
  {
    PositiveSizes(g);
    TwoDigits(n, g.nchs, g.lunsPerCh, g.PgsPerLun());
    InDieRange(g.slcLines, g.tlcLines, g.PgsPerBlkSlc(), g.PgsPerBlkTlc(), n % g.PgsPerCh() % g.PgsPerLun());
  }

  // ---------- Flash pages ----------

  /** The flash pages of a block are exactly its pages, in both regions. */
  lemma FlashpgsTileBlock(g: Geo, blk: nat)
    requires g.WellFormed()
    ensures g.FlashpgsPerBlk(blk) * g.pgsPerFlashpg == g.PgsPerBlk(blk)
    ensures g.FlashpgsPerBlk(blk) > 0
  {
    var a, f, o := g.Oneshot(blk), g.pgsPerFlashpg, g.oneshotsPerBlk;
    assert a == (a / f) * f;
    MulPositive(a / f, o);
    assert ((a / f) * o) * f == ((a / f) * f) * o;
  }

  // ---------- The write order of a line ----------

  /** The page of a line at a given rank. */
  function PageAt(g: Geo, blk: nat, k: nat): Ppa
    requires g.Oneshot(blk) > 0 && g.nchs > 0 && g.lunsPerCh > 0
  {
    var a := g.Oneshot(blk);
    var die: nat := k / a;
    var row: nat := die / g.nchs;
    var wordline: nat := row / g.lunsPerCh;
    Ppa(die % g.nchs, row % g.lunsPerCh, blk, wordline * a + k % a)
  }

  /** The digits of a rank give back the die and the page. */
  lemma RankOfDigits(pg: nat, a: nat, o: nat, l: nat, lun: nat, n: nat, ch: nat)
    requires a > 0 && pg < a * o && lun < l && ch < n
    ensures var k := RankOf(pg, a, l, lun, n, ch);
            && k < (l * n) * (a * o)
            && (k / a) % n == ch && ((k / a) / n) % l == lun && (((k / a) / n) / l) * a + k % a == pg
  {
    DivBound(pg, a, o);
    Join4Digits(pg / a, l, lun, n, ch, a, pg % a, o);
    Regroup(o, l, n, a);
  }

  /** Ranks of a line's pages lie below its page count, and PageAt undoes Rank. */
  lemma RankRoundTrip(g: Geo, p: Ppa)
    requires g.WellFormed() && g.ValidPpa(p)
    ensures g.Rank(p) < g.PgsPerLine(p.blk)
    ensures PageAt(g, p.blk, g.Rank(p)) == p
  {
    RankOfDigits(p.pg, g.Oneshot(p.blk), g.oneshotsPerBlk, g.lunsPerCh, p.lun, g.nchs, p.ch);
  }

  /** Two pages of one line have the same rank only if they are the same page. */
  lemma RankInjective(g: Geo, p: Ppa, q: Ppa)
    requires g.WellFormed() && g.ValidPpa(p) && g.ValidPpa(q) && p.blk == q.blk
    requires g.Rank(p) == g.Rank(q)
    ensures p == q
  {
    RankRoundTrip(g, p);
    RankRoundTrip(g, q);
  }

  /** The write order goes through the one-shot pages of the blocks upwards; in each, LUN by LUN; in
      each LUN, channel by channel; and there through the pages of the one-shot page. */
  lemma RankOrder(g: Geo, p: Ppa, q: Ppa)
    requires g.WellFormed() && g.ValidPpa(p) && g.ValidPpa(q) && p.blk == q.blk
    ensures var a := if p.blk < g.slcLines then g.pgsPerOneshotSlc else g.pgsPerOneshotTlc;
      g.Rank(p) < g.Rank(q) <==>
        || p.pg / a < q.pg / a
        || (p.pg / a == q.pg / a && p.lun < q.lun)
        || (p.pg / a == q.pg / a && p.lun == q.lun && p.ch < q.ch)
        || (p.pg / a == q.pg / a && p.lun == q.lun && p.ch == q.ch && p.pg % a < q.pg % a)
  {
    var a := g.Oneshot(p.blk);
    Join4Order(p.pg / a, q.pg / a, g.lunsPerCh, p.lun, q.lun, g.nchs, p.ch, q.ch, a, p.pg % a, q.pg % a);
  }

  lemma JoinOrder(h: nat, h': nat, m: nat, d: nat, d': nat)
    requires d < m && d' < m
    ensures Join(h, m, d) < Join(h', m, d') <==> h < h' || (h == h' && d < d')
    ensures Join(h, m, d) == Join(h', m, d') <==> h == h' && d == d'
  {
    if h < h' { MulMono(h + 1, h', m); }
    if h' < h { MulMono(h' + 1, h, m); }
  }

  lemma Join4Order(w: nat, w': nat, l: nat, lun: nat, lun': nat, n: nat, ch: nat, ch': nat, a: nat, z: nat, z': nat)
    requires lun < l && lun' < l && ch < n && ch' < n && z < a && z' < a
    ensures Join4(w, l, lun, n, ch, a, z) < Join4(w', l, lun', n, ch', a, z') <==>
      || w < w' || (w == w' && lun < lun') || (w == w' && lun == lun' && ch < ch')
      || (w == w' && lun == lun' && ch == ch' && z < z')
  {
    hide Join;
    JoinOrder(w, w', l, lun, lun');
    JoinOrder(Join(w, l, lun), Join(w', l, lun'), n, ch, ch');
    JoinOrder(Join(Join(w, l, lun), n, ch), Join(Join(w', l, lun'), n, ch'), a, z, z');
  }

  /** The page number made of word-line w and page z of its one-shot page. */
  lemma PageDigits(w: nat, z: nat, a: nat, o: nat)
    requires w < o && z < a
    ensures w * a + z < a * o && (w * a + z) / a == w && (w * a + z) % a == z
  {
    JoinBound(w, z, a, o);
    DivModUnique(w * a + z, a, w, z);
  }

  /** Every rank below the line's page count belongs to the valid page PageAt gives. */
  lemma RankOnto(g: Geo, blk: nat, k: nat)
    requires g.WellFormed() && blk < g.Lines() && k < g.PgsPerLine(blk)
    ensures var p := PageAt(g, blk, k); g.ValidPpa(p) && g.Rank(p) == k
  {
    var a := g.Oneshot(blk);
    Regroup(g.oneshotsPerBlk, g.lunsPerCh, g.nchs, a);
    Split4(k, g.lunsPerCh, g.nchs, a);
    Split4Bound(k, g.lunsPerCh, g.nchs, a, g.oneshotsPerBlk);
    PageDigits(((k / a) / g.nchs) / g.lunsPerCh, k % a, a, g.oneshotsPerBlk);
  }

  // ---------- Stepping a write pointer ----------

  datatype Step = Same(next: Ppa) | LineUsedUp

  /** Where advance_write_pointer puts the cursor inside its line. */
  function NextInLine(g: Geo, c: Ppa): Step
    requires g.Oneshot(c.blk) > 0 && c.pg < g.PgsPerBlk(c.blk)
  {
    var a := g.Oneshot(c.blk);
    PgStep(c.pg, a, g.oneshotsPerBlk);
    if (c.pg + 1) % a != 0 then Same(c.(pg := c.pg + 1))
    else if c.ch + 1 != g.nchs then Same(c.(pg := c.pg + 1 - a, ch := c.ch + 1))
    else if c.lun + 1 != g.lunsPerCh then Same(c.(pg := c.pg + 1 - a, ch := 0, lun := c.lun + 1))
    else if c.pg + 1 != g.PgsPerBlk(c.blk) then Same(Ppa(0, 0, c.blk, c.pg + 1))
    else LineUsedUp
  }

  /** The cursor stays on valid pages of its line. */
  lemma NextInLineValid(g: Geo, c: Ppa)
    requires g.WellFormed() && g.ValidPpa(c)
    ensures NextInLine(g, c).Same? ==> g.ValidPpa(NextInLine(g, c).next) && NextInLine(g, c).next.blk == c.blk
  {
    PgStep(c.pg, g.Oneshot(c.blk), g.oneshotsPerBlk);
  }

  /** One step of the cursor is one step of the rank, and the line is used up exactly on
      the page of the last rank. */
  lemma NextInLineRank(g: Geo, c: Ppa)
    requires g.WellFormed() && g.ValidPpa(c)
    ensures match NextInLine(g, c)
            case Same(n) => g.ValidPpa(n) && n.blk == c.blk && g.Rank(n) == g.Rank(c) + 1 < g.PgsPerLine(c.blk)
            case LineUsedUp => g.Rank(c) + 1 == g.PgsPerLine(c.blk)
  {
    NextInLineValid(g, c);
    var s := NextInLine(g, c);
    if s.Same? {
      RankRoundTrip(g, s.next);
      NextRankSame(g, c);
    } else {
      LastRank(g, c);
    }
  }

  lemma NextRankSame(g: Geo, c: Ppa)
    requires g.WellFormed() && g.ValidPpa(c) && NextInLine(g, c).Same?
    requires NextInLine(g, c).next.blk == c.blk
    ensures g.Rank(NextInLine(g, c).next) == g.Rank(c) + 1
  {
    var a := g.Oneshot(c.blk);
    RankSteps(c.pg, a, g.oneshotsPerBlk, g.lunsPerCh, c.lun, g.nchs, c.ch);
  }

  /** The rank of page pg of die (lun, ch), on nats. */
  function RankOf(pg: nat, a: nat, l: nat, lun: nat, n: nat, ch: nat): nat
    requires a > 0
  {
    Join4(pg / a, l, lun, n, ch, a, pg % a)
  }

  /** The four ways the cursor moves on each add one to the rank. */
  lemma RankSteps(pg: nat, a: nat, o: nat, l: nat, lun: nat, n: nat, ch: nat)
    requires a > 0 && pg < a * o
    ensures (pg + 1) % a != 0 ==> RankOf(pg + 1, a, l, lun, n, ch) == RankOf(pg, a, l, lun, n, ch) + 1
    ensures (pg + 1) % a == 0 ==>
              && pg + 1 >= a
              && RankOf(pg + 1 - a, a, l, lun, n, ch + 1) == RankOf(pg, a, l, lun, n, ch) + 1
              && (ch + 1 == n ==> RankOf(pg + 1 - a, a, l, lun + 1, n, 0) == RankOf(pg, a, l, lun, n, ch) + 1)
              && (ch + 1 == n && lun + 1 == l ==> RankOf(pg + 1, a, l, 0, n, 0) == RankOf(pg, a, l, lun, n, ch) + 1)
  {
    PgStep(pg, a, o);
    Carry(pg / a, l, lun, n, ch, a, pg % a);
  }

  lemma LastRank(g: Geo, c: Ppa)
    requires g.WellFormed() && g.ValidPpa(c) && NextInLine(g, c).LineUsedUp?
    ensures g.Rank(c) + 1 == g.PgsPerLine(c.blk)
  {
    var a, o, l, n := g.Oneshot(c.blk), g.oneshotsPerBlk, g.lunsPerCh, g.nchs;
    PgStep(c.pg, a, o);
    Carry(c.pg / a, l, c.lun, n, c.ch, a, c.pg % a);
    CarryOut(o, l, n, a);
    Regroup(o, l, n, a);
  }

  lemma CarryOut(o: nat, l: nat, c: nat, a: nat)
    ensures Join4(o, l, 0, c, 0, a, 0) == ((o * l) * c) * a
  {
    assert Join(o, l, 0) == o * l;
  }
}
