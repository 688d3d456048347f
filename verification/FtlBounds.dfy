/** Numeric consequences of the FTL invariant: the NVMEV_ASSERTs on counters. */
module FtlBounds {
  import opened Wrappers
  import opened Counting
  import opened Geometry
  import opened FtlState
  import opened FtlSteps
  import opened FtlOps
  import opened FtlGc

  ghost function BlockPages(b: Block, n: nat): set<Ppa> {
    if n == 0 then {} else BlockPages(b, n - 1) + {Ppa(b.ch, b.lun, b.blk, n - 1)}
  }

  lemma {:induction false} BlockPagesAre(b: Block, n: nat)
    ensures |BlockPages(b, n)| == n
    ensures forall p :: p in BlockPages(b, n) <==> BlockOf(p) == b && p.pg < n
  {
    if n > 0 { BlockPagesAre(b, n - 1); }
  }

  /** Valid and invalid pages of a block together are at most its pages. */
  lemma BlockCounts(g: Geo, m: Mapping, f: Flash, v: nat, b: Block)
    requires Domains(g, m, f) && CountsOk(g, f, v) && ValidBlock(g, b)
    ensures 0 <= f.blkVpc[b] && 0 <= f.blkIpc[b] && f.blkVpc[b] + f.blkIpc[b] <= g.PgsPerBlk(b.blk)
  {
    var valid, invalid := InBlock(f.status, b, PgValid), InBlock(f.status, b, PgInvalid);
    BlockPagesAre(b, g.PgsPerBlk(b.blk));
    forall p | p in valid + invalid ensures p in BlockPages(b, g.PgsPerBlk(b.blk)) {
      assert g.ValidPpa(p);
    }
    assert |valid + invalid| == |valid| + |invalid|;
    SubsetCard(valid + invalid, BlockPages(b, g.PgsPerBlk(b.blk)));
  }

  /** A page in a given state keeps the block's counter of that state positive. */
  lemma BlockHas(g: Geo, m: Mapping, f: Flash, v: nat, p: Ppa)
    requires Domains(g, m, f) && CountsOk(g, f, v) && p in f.status
    ensures ValidBlock(g, BlockOf(p))
    ensures f.status[p] == PgValid ==> f.blkVpc[BlockOf(p)] > 0
    ensures f.status[p] == PgFree ==> f.blkVpc[BlockOf(p)] < g.PgsPerBlk(p.blk)
  {
    var b := BlockOf(p);
    BlockCounts(g, m, f, v, b);
    if f.status[p] == PgValid {
      assert p in InBlock(f.status, b, PgValid);
    } else if f.status[p] == PgFree {
      var valid := InBlock(f.status, b, PgValid);
      BlockPagesAre(b, g.PgsPerBlk(b.blk));
      forall q | q in valid + {p} ensures q in BlockPages(b, g.PgsPerBlk(b.blk)) {
        assert g.ValidPpa(q);
      }
      SubsetCard(valid + {p}, BlockPages(b, g.PgsPerBlk(b.blk)));
    }
  }

  /** The bounds mark_page_invalid asserts, and which list the page's line is on. */
  lemma InvalidBounds(g: Geo, s: State, p: Ppa)
    requires Quiescent(g, s) && p in s.f.status && s.f.status[p] == PgValid
    ensures ValidBlock(g, BlockOf(p)) && BlockOf(p) in s.f.blkVpc && BlockOf(p) in s.f.blkIpc
    ensures 0 <= s.f.blkIpc[BlockOf(p)] < g.PgsPerBlk(p.blk) && 0 < s.f.blkVpc[BlockOf(p)] <= g.PgsPerBlk(p.blk)
    ensures p.blk < |s.f.vpc| == |s.f.ipc| == g.Lines()
    ensures 0 <= s.f.ipc[p.blk] < g.PgsPerLine(p.blk) && 0 < s.f.vpc[p.blk] <= g.PgsPerLine(p.blk)
    ensures s.f.vpc[p.blk] == g.PgsPerLine(p.blk) ==>
              s.f.ipc[p.blk] == 0 && p.blk !in s.slm.victims && p.blk !in s.lm.victims
              && p.blk in (if g.IsSlc(p.blk) then s.slm else s.lm).full
  {
    hide MapOk, RegionOk, CursorOk, Geo.WellFormed;
    CursorsSized(g, s, NoLine(g), {});
    BlockCounts(g, s.m, s.f, NoLine(g), BlockOf(p));
    BlockHas(g, s.m, s.f, NoLine(g), p);
    LineBounds(g, s, p.blk);
    LineFull(g, s, p);
  }

  /** Every line holds at most its page count of written pages. */
  lemma LineBounds(g: Geo, s: State, l: nat)
    requires Quiescent(g, s) && l < g.Lines()
    ensures |s.f.vpc| == |s.f.ipc| == g.Lines()
    ensures s.f.vpc[l] >= 0 && s.f.ipc[l] >= 0 && s.f.vpc[l] + s.f.ipc[l] <= g.PgsPerLine(l)
  {
    if g.IsSlc(l) {
      RegionLineBounds(g, s.m, s.f, s.slm, 0, g.slcLines, s.wp, l);
    } else {
      RegionLineBounds(g, s.m, s.f, s.lm, g.slcLines, g.Lines(), s.gcWp, l);
    }
  }

  lemma RegionLineBounds(g: Geo, m: Mapping, f: Flash, r: Region, lo: nat, hi: nat, c: Ppa, l: nat)
    requires Domains(g, m, f) && CountsOk(g, f, NoLine(g)) && lo <= l < hi <= g.Lines()
    requires RegionOk(g, f, r, lo, hi, c.blk, NoLine(g)) && CursorOk(g, f, c)
    ensures f.vpc[l] >= 0 && f.ipc[l] >= 0 && f.vpc[l] + f.ipc[l] <= g.PgsPerLine(l)
  {
    RankRoundTrip(g, c);
    hide Geo.Rank, Geo.PgsPerLine;
    if l in r.free {
      assert FreeLine(g, f, l);
    } else if l in r.full {
      assert FullLine(g, f, l);
    } else if l in r.victims {
      assert VictimLine(g, f, l);
    } else {
      assert l == c.blk;
    }
  }

  lemma LineFull(g: Geo, s: State, p: Ppa)
    requires Quiescent(g, s) && p in s.f.status && s.f.status[p] == PgValid
    ensures p.blk < g.Lines() && |s.f.vpc| == |s.f.ipc| == g.Lines() && s.f.vpc[p.blk] > 0
    ensures s.f.vpc[p.blk] == g.PgsPerLine(p.blk) ==>
              p.blk !in s.slm.victims && p.blk !in s.lm.victims
              && p.blk in (if g.IsSlc(p.blk) then s.slm else s.lm).full
  {
    hide MapOk, CountsOk;
    OpenNotFull(g, s.m, s.f, s.wp);
    OpenNotFull(g, s.m, s.f, s.gcWp);
    if g.IsSlc(p.blk) {
      LineWithValidPage(g, s.m, s.f, s.slm, 0, g.slcLines, s.wp.blk, p);
    } else {
      LineWithValidPage(g, s.m, s.f, s.lm, g.slcLines, g.Lines(), s.gcWp.blk, p);
    }
  }

  /** The bounds mark_page_valid asserts of the page under a cursor. */
  lemma ProgramBounds(g: Geo, s: State, v: nat, done: set<Ppa>, slc: bool)
    requires Inv(g, s, v, done)
    ensures var c := if slc then s.wp else s.gcWp;
            && c in s.f.status && s.f.status[c] == PgFree && BlockOf(c) in s.f.blkVpc
            && 0 <= s.f.blkVpc[BlockOf(c)] < g.PgsPerBlk(c.blk)
            && c.blk < |s.f.vpc| && 0 <= s.f.vpc[c.blk] < g.PgsPerLine(c.blk)
            && c.blk !in s.slm.victims && c.blk !in s.lm.victims
  {
    var c := if slc then s.wp else s.gcWp;
    hide MapOk;
    CursorsSized(g, s, v, done);
    CursorFree(g, s, v, done, slc);
    BlockCounts(g, s.m, s.f, v, BlockOf(c));
    BlockHas(g, s.m, s.f, v, c);
    RankRoundTrip(g, c);
  }

  lemma ListCounts(g: Geo, s: State)
    requires Quiescent(g, s)
    ensures s.slm.freeCnt == |s.slm.free| && s.lm.freeCnt == |s.lm.free|
  {}
}
