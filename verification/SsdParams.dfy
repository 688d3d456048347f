/** The geometry numbers that ssd_init_params_slc computes from the configuration. */
module SsdParams {
  import opened Radix
  import opened Geometry

  const PG_SIZE := 4096

  /** The build-time constants; sizes in bytes, slcPortion in percent. PLNS_PER_LUN is 1. */
  datatype Config = Config(
    channels: nat, lunsPerCh: nat, blksPerPln: nat,
    flashPageSize: nat, oneshotPageSize: nat, slcOneshotPageSize: nat, slcPortion: nat)

  /** What the function and the header assert about a configuration. */
  predicate Accepted(c: Config, nparts: nat) {
    && nparts > 0 && c.channels > 0 && c.channels % nparts == 0 && c.lunsPerCh > 0 && c.blksPerPln > 0
    && c.flashPageSize > 0 && c.flashPageSize % PG_SIZE == 0
    && c.oneshotPageSize > 0 && c.oneshotPageSize % PG_SIZE == 0 && c.oneshotPageSize % c.flashPageSize == 0
    && c.slcPortion <= 100
  }

  function DivRoundUp(a: nat, b: nat): nat
    requires b > 0
  {
    (a + b - 1) / b
  }

  /** Bytes per block of one partition. */
  function BlkSize(c: Config, capacity: nat, nparts: nat): nat
    requires Accepted(c, nparts)
  {
    SharePositive(c, nparts);
    DivRoundUp(capacity / nparts, c.blksPerPln * c.lunsPerCh * (c.channels / nparts))
  }

  lemma SharePositive(c: Config, nparts: nat)
    requires Accepted(c, nparts)
    ensures c.channels / nparts > 0 && c.blksPerPln * c.lunsPerCh * (c.channels / nparts) > 0
  {
    MulPositive(c.blksPerPln, c.lunsPerCh);
    MulPositive(c.blksPerPln * c.lunsPerCh, c.channels / nparts);
  }

  /** The geometry of each partition. */
  function GeoOf(c: Config, capacity: nat, nparts: nat): Geo
    requires Accepted(c, nparts)
  {
    var slc := c.blksPerPln * c.slcPortion / 100;
    SlcShare(c.blksPerPln, c.slcPortion);
    Geo(c.channels / nparts, c.lunsPerCh, c.flashPageSize / PG_SIZE,
        c.slcOneshotPageSize / PG_SIZE, c.oneshotPageSize / PG_SIZE,
        DivRoundUp(BlkSize(c, capacity, nparts), c.oneshotPageSize),
        slc, c.blksPerPln - slc)
  }

  lemma SlcShare(blks: nat, portion: nat)
    requires portion <= 100
    ensures blks * portion / 100 <= blks
  {
    MulMono(portion, 100, blks);
    assert blks * portion <= 100 * blks;
  }

  class Params {
    var nchs: int
    var lunsPerCh: int
    var ttLines: int
    var ttLinesSlc: int
    var ttLinesTlc: int
    var pgsPerOneshotpg: int
    var pgsPerOneshotpgSlc: int
    var oneshotpgsPerBlk: int
    var pgsPerFlashpg: int
    var flashpgsPerBlk: int
    var flashpgsPerBlkSlc: int
    var pgsPerBlk: int
    var pgsPerBlkSlc: int
    var pgsPerPl: int
    var pgsPerCh: int
    var ttPgs: int
    var pgsPerLine: int
    var pgsPerLineSlc: int

    /** The part of ssd_init_params_slc that fixes the geometry. */
    method InitSlc(c: Config, capacity: nat, nparts: nat)
      requires Accepted(c, nparts)
      modifies this
      ensures Sizes(c, GeoOf(c, capacity, nparts)) && Totals(GeoOf(c, capacity, nparts))
    {
      hide GeoOf;
      InitSizes(c, capacity, nparts);
      InitTotals(c, GeoOf(c, capacity, nparts));
    }

    /** The sizes of the parts are those of geometry g. */
    ghost predicate Sizes(c: Config, g: Geo)
      requires c.flashPageSize > 0
      reads this
    {
      && nchs == g.nchs && lunsPerCh == g.lunsPerCh && pgsPerFlashpg == g.pgsPerFlashpg
      && pgsPerOneshotpgSlc == g.pgsPerOneshotSlc && pgsPerOneshotpg == g.pgsPerOneshotTlc
      && oneshotpgsPerBlk == g.oneshotsPerBlk && ttLinesSlc == g.slcLines && ttLinesTlc == g.tlcLines
      && ttLines == g.Lines() && pgsPerBlkSlc == g.PgsPerBlkSlc() && pgsPerBlk == g.PgsPerBlkTlc()
      && flashpgsPerBlk == (c.oneshotPageSize / c.flashPageSize) * oneshotpgsPerBlk
      && flashpgsPerBlkSlc == (c.slcOneshotPageSize / c.flashPageSize) * oneshotpgsPerBlk
    }

    /** So are the calculated values. */
    ghost predicate Totals(g: Geo)
      reads this
    {
      && pgsPerPl == g.PgsPerLun() && pgsPerCh == g.PgsPerCh() && ttPgs == g.TtPgs()
      && pgsPerLineSlc == g.lunsPerCh * g.nchs * g.PgsPerBlkSlc()
      && pgsPerLine == g.lunsPerCh * g.nchs * g.PgsPerBlkTlc()
    }

    method InitSizes(c: Config, capacity: nat, nparts: nat)
      requires Accepted(c, nparts)
      modifies this
      ensures Sizes(c, GeoOf(c, capacity, nparts))
    {
      SharePositive(c, nparts);
      SlcShare(c.blksPerPln, c.slcPortion);
      nchs := c.channels;
      lunsPerCh := c.lunsPerCh;
      assert nchs % nparts == 0;
      nchs := nchs / nparts;
      var blkSize := DivRoundUp(capacity / nparts, c.blksPerPln * lunsPerCh * nchs);
      ttLines := c.blksPerPln;
      pgsPerOneshotpg := c.oneshotPageSize / PG_SIZE;
      oneshotpgsPerBlk := DivRoundUp(blkSize, c.oneshotPageSize);
      pgsPerFlashpg := c.flashPageSize / PG_SIZE;
      flashpgsPerBlk := (c.oneshotPageSize / c.flashPageSize) * oneshotpgsPerBlk;
      pgsPerBlk := pgsPerOneshotpg * oneshotpgsPerBlk;
      pgsPerOneshotpgSlc := c.slcOneshotPageSize / PG_SIZE;
      flashpgsPerBlkSlc := (c.slcOneshotPageSize / c.flashPageSize) * oneshotpgsPerBlk;
      pgsPerBlkSlc := pgsPerOneshotpgSlc * oneshotpgsPerBlk;
      ttLinesSlc := ttLines * c.slcPortion / 100;
      ttLinesTlc := ttLines - ttLinesSlc;
    }

    /** The values that the source calculates from those. */
    method InitTotals(c: Config, ghost g: Geo)
      requires c.flashPageSize > 0 && Sizes(c, g)
      modifies `pgsPerPl, `pgsPerCh, `ttPgs, `pgsPerLineSlc, `pgsPerLine
      ensures Sizes(c, g) && Totals(g)
    {
      pgsPerPl := ttLinesSlc * pgsPerBlkSlc + ttLinesTlc * pgsPerBlk;
      pgsPerCh := lunsPerCh * pgsPerPl;
      ttPgs := nchs * pgsPerCh;
      pgsPerLineSlc := lunsPerCh * nchs * pgsPerBlkSlc;
      pgsPerLine := lunsPerCh * nchs * pgsPerBlk;
    }
  }

  // ---------- When flash pages tile the blocks ----------

  lemma FlashPageHolds(c: Config, nparts: nat)
    requires Accepted(c, nparts)
    ensures c.flashPageSize / PG_SIZE >= 1 && c.flashPageSize == (c.flashPageSize / PG_SIZE) * PG_SIZE
  {}

  /** Pages of a one-shot page of size bytes: those of its whole flash pages, and the rest. */
  lemma OneshotSplit(size: nat, f: nat)
    requires f >= 1
    ensures size / PG_SIZE == (size / (f * PG_SIZE)) * f + (size % (f * PG_SIZE)) / PG_SIZE
    ensures (size % (f * PG_SIZE)) / PG_SIZE < f
  {
    var q, r := size / (f * PG_SIZE), size % (f * PG_SIZE);
    assert size == (q * f) * PG_SIZE + r by { assert q * (f * PG_SIZE) == (q * f) * PG_SIZE; }
    DivModUnique(size, PG_SIZE, q * f + r / PG_SIZE, r % PG_SIZE);
    DivBound(r, PG_SIZE, f);
  }

  /** The flash pages of an SLC block are exactly its pages if and only if an SLC one-shot page
      is a whole number of flash pages, up to a remainder of less than a page; no assertion in
      the code asks for that. */
  lemma SlcFlashpgsTile(c: Config, capacity: nat, nparts: nat)
    requires Accepted(c, nparts) && GeoOf(c, capacity, nparts).oneshotsPerBlk > 0
    ensures var g := GeoOf(c, capacity, nparts);
      ((c.slcOneshotPageSize / c.flashPageSize) * g.oneshotsPerBlk) * g.pgsPerFlashpg == g.PgsPerBlkSlc()
      <==> c.slcOneshotPageSize % c.flashPageSize < PG_SIZE
  {
    var g := GeoOf(c, capacity, nparts);
    FlashPageHolds(c, nparts);
    OneshotSplit(c.slcOneshotPageSize, g.pgsPerFlashpg);
    TileExact(c.slcOneshotPageSize / c.flashPageSize, g.pgsPerFlashpg,
        (c.slcOneshotPageSize % c.flashPageSize) / PG_SIZE, g.oneshotsPerBlk);
  }

  lemma TileExact(q: nat, f: nat, rest: nat, o: nat)
    requires o > 0
    ensures (q * o) * f == (q * f + rest) * o <==> rest == 0
  {
    assert (q * o) * f == (q * f) * o;
    assert (q * f + rest) * o == (q * f) * o + rest * o;
    if rest > 0 { MulPositive(rest, o); }
  }

  /** TLC blocks are tiled in every accepted configuration. */
  lemma TlcFlashpgsTile(c: Config, capacity: nat, nparts: nat)
    requires Accepted(c, nparts)
    ensures var g := GeoOf(c, capacity, nparts);
      ((c.oneshotPageSize / c.flashPageSize) * g.oneshotsPerBlk) * g.pgsPerFlashpg == g.PgsPerBlkTlc()
  {
    var g := GeoOf(c, capacity, nparts);
    FlashPageHolds(c, nparts);
    OneshotSplit(c.oneshotPageSize, g.pgsPerFlashpg);
    var q, f, o := c.oneshotPageSize / c.flashPageSize, g.pgsPerFlashpg, g.oneshotsPerBlk;
    assert (q * o) * f == (q * f) * o;
  }

  lemma RoundUpPositive(a: nat, b: nat)
    requires b > 0
    ensures DivRoundUp(a, b) > 0 <==> a > 0
  {
    var n := a + b - 1;
    assert n == (n / b) * b + n % b;
    if a == 0 { DivModUnique(n, b, 0, n); }
  }

  /** A region each for the SLC and the TLC lines. */
  lemma LineShares(blks: nat, portion: nat)
    requires blks > 0 && portion <= 100
    ensures blks * portion / 100 >= 1 <==> blks * portion >= 100
    ensures blks * portion / 100 < blks <==> portion < 100
  {
    if portion < 100 {
      MulMono(1, blks, 100 - portion);
      assert blks * (100 - portion) == blks * 100 - blks * portion;
    }
  }

  /** What conv_init_ftl needs of a geometry: the sizes fit, and each write pointer has a line. */
  predicate Runnable(g: Geo) { g.WellFormed() && g.slcLines >= 1 && g.tlcLines >= 1 }

  /** The geometry is one the FTL can run on exactly when there is a page of capacity for each
      partition, SLC one-shot pages are whole flash pages, at least one, the percentage leaves a
      line to either region, and the cost-benefit divisor fits an int. */
  lemma GeometryFits(c: Config, capacity: nat, nparts: nat)
    requires Accepted(c, nparts)
    ensures var g := GeoOf(c, capacity, nparts);
      Runnable(g) <==>
        && capacity >= nparts && c.slcOneshotPageSize >= PG_SIZE && c.slcOneshotPageSize % c.flashPageSize < PG_SIZE
        && c.blksPerPln * c.slcPortion >= 100 && c.slcPortion < 100
        && (c.lunsPerCh * g.nchs) * (c.oneshotPageSize / PG_SIZE * g.oneshotsPerBlk) * 250 < 0x8000_0000
  {
    var g := GeoOf(c, capacity, nparts);
    SharePositive(c, nparts);
    FlashPageHolds(c, nparts);
    OneshotSplit(c.slcOneshotPageSize, g.pgsPerFlashpg);
    OneshotSplit(c.oneshotPageSize, g.pgsPerFlashpg);
    DivModUnique(g.pgsPerOneshotSlc, g.pgsPerFlashpg, c.slcOneshotPageSize / c.flashPageSize,
                 (c.slcOneshotPageSize % c.flashPageSize) / PG_SIZE);
    DivModUnique(g.pgsPerOneshotTlc, g.pgsPerFlashpg, c.oneshotPageSize / c.flashPageSize, 0);
    LineShares(c.blksPerPln, c.slcPortion);
    Blocks(c, capacity, nparts);
  }

  /** Blocks have pages as soon as partitions have capacity. */
  lemma Blocks(c: Config, capacity: nat, nparts: nat)
    requires Accepted(c, nparts)
    ensures GeoOf(c, capacity, nparts).oneshotsPerBlk > 0 <==> capacity >= nparts
  {
    SharePositive(c, nparts);
    RoundUpPositive(capacity / nparts, c.blksPerPln * c.lunsPerCh * (c.channels / nparts));
    RoundUpPositive(BlkSize(c, capacity, nparts), c.oneshotPageSize);
    DivModUnique(capacity, nparts, capacity / nparts, capacity % nparts);
    if capacity / nparts > 0 { MulMono(1, capacity / nparts, nparts); }
  }

  /** The SAMSUNG_970PRO configuration, split into its four partitions. */
  const SHIPPED := Config(4, 4, 1024, 16 * 1024, 3 * 16 * 1024, 16 * 1024, 10)
  const SSD_PARTITIONS := 4

  /** The shipped configuration gives every partition 102 SLC lines and a geometry that fits,
      for every capacity up to 64 TiB. */
  lemma ShippedGeometry(capacity: nat)
    requires SSD_PARTITIONS <= capacity <= 0x4000_0000_0000
    ensures Accepted(SHIPPED, SSD_PARTITIONS)
    ensures var g := GeoOf(SHIPPED, capacity, SSD_PARTITIONS); Runnable(g) && g.slcLines == 102 && g.tlcLines == 922
  {
    GeometryFits(SHIPPED, capacity, SSD_PARTITIONS);
  }

  /** The namespace size that the host is told, of a device with `size` bytes. */
  function LogicalBytes(c: Config, size: nat): nat
    requires c.slcPortion <= 100
  {
    ((100 - c.slcPortion) * size + c.slcPortion * size / 3) / 100
  }

  /** With SLC one-shot pages of half a flash page the code accepts the configuration, but has
      no flash page in an SLC block of at least two pages: a migration would move none of them. */
  lemma HalfFlashPage(capacity: nat)
    requires capacity >= SSD_PARTITIONS
    ensures var c := SHIPPED.(slcOneshotPageSize := 8 * 1024);
      && Accepted(c, SSD_PARTITIONS)
      && var g := GeoOf(c, capacity, SSD_PARTITIONS);
         (c.slcOneshotPageSize / c.flashPageSize) * g.oneshotsPerBlk == 0 && g.PgsPerBlkSlc() >= 2
  {
    Blocks(SHIPPED.(slcOneshotPageSize := 8 * 1024), capacity, SSD_PARTITIONS);
  }
}
