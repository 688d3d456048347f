/** A host that writes page after page to a new partition: its writes are a run, which goes on for
    ever where it uses few LPNs, and ends, with the kernel stopped, before every LPN is written. */
module ConvRuns {
  import opened Wrappers
  import opened Geometry
  import opened FtlState
  import opened FtlInit
  import opened FtlFlow
  import opened FtlRuns
  import opened FtlSpace
  import opened FtlLife
  import opened ConvFtl
  import opened SsdParams

  /** A page write, with the ages that its collection finds if it sets one off. */
  datatype Request = Request(n: nat, x: int, ageUs: seq<int>)

  ghost function Lpns(reqs: seq<Request>): set<nat> {
    set k | 0 <= k < |reqs| :: reqs[k].n
  }

  /** ops are the first writes of reqs, each with the round that it set off. */
  ghost predicate Served(reqs: seq<Request>, ops: seq<Op>) {
    |ops| <= |reqs| && forall k :: 0 <= k < |ops| ==>
      ops[k].n == reqs[k].n && ops[k].x == reqs[k].x && ops[k].ageUs == reqs[k].ageUs
  }

  /** Writes the requests in order, up to the first that runs out of TLC pages. More distinct
      LPNs than the capacity, as when the host writes every LPN, always get there; all requests
      are served where their number, or that of their LPNs, is small enough. */
  method WriteAll(g: Geo, reqs: seq<Request>)
    returns (p: Partition, done: nat, ghost ss: seq<State>, ghost ops: seq<Op>, ghost round: Round)
    requires g.WellFormed() && g.slcLines >= 2 && g.tlcLines >= 1
    requires forall k :: 0 <= k < |reqs| ==> reqs[k].n < g.TtPgs() && |reqs[k].ageUs| == g.Lines()
    ensures IsRun(g, ss, ops) && Served(reqs, ops) && done == |ops|
    ensures done == |reqs| ==> p.Rep() && p.S() == ss[done]
    ensures done < |reqs| ==> WriteFails(g, ss[done], reqs[done].n, reqs[done].x, reqs[done].ageUs, round)
    ensures |Lpns(reqs)| > Capacity(g) ==> done < |reqs|
    ensures (forall n: nat :: n < g.TtPgs() ==> n in Lpns(reqs)) ==> done < |reqs|
    ensures |reqs| + LastSpace(g) < g.TtPgs() ==> done == |reqs|
    ensures forall d :: Sparse(g, |Lpns(reqs)|, d) ==> done == |reqs|
  {
    hide Steady, PageWritten, ForegroundFails, WriteFails, Charged, Writes, Sparse, FreshState, Lpns, Partition.Rep,
      Partition.S,
      Partition.Repr, Geo.WellFormed;
    p := new Partition(g);
    FreshSteady(g);
    ss, ops, done, round := [FreshState(g)], [], 0, Round(FreshState(g), None, 0);
    while done < |reqs|
      invariant done == |ops| && IsRun(g, ss, ops) && Served(reqs, ops)
      invariant fresh(p.Repr()) && p.g == g && p.Rep() && p.S() == ss[done] && Steady(g, ss[done])
    {
      var r := reqs[done];
      SteadyParts(g, ss[done]);
      Tables(p);
      var ok;
      ok, round := p.WritePage(r.n, r.x, r.ageUs);
      if !ok {
        FailIs(g, ss[done], r.n, r.x, r.ageUs, round);
        Outgrown(g, ss, ops, reqs);
        Lasting(g, ss, ops, reqs, round);
        return;
      }
      ss, ops := ss + [p.S()], ops + [Op(r.n, r.x, r.ageUs, round)];
      done := done + 1;
    }
    Outgrown(g, ss, ops, reqs);
  }

  lemma FailIs(g: Geo, s: State, n: nat, x: int, ageUs: seq<int>, round: Round)
    requires Charged(g, s, n, x).Some? && Charged(g, s, n, x).value.writeCredits == 0
    requires ForegroundFails(g, Charged(g, s, n, x).value, ageUs, round)
    ensures WriteFails(g, s, n, x, ageUs, round)
  {}

  /** A run that ends early was too long, and used too many LPNs. */
  lemma Lasting(g: Geo, ss: seq<State>, ops: seq<Op>, reqs: seq<Request>, round: Round)
    requires IsRun(g, ss, ops) && Served(reqs, ops) && |ops| < |reqs|
    requires forall k :: 0 <= k < |reqs| ==> reqs[k].n < g.TtPgs() && |reqs[k].ageUs| == g.Lines()
    requires var r := reqs[|ops|]; WriteFails(g, ss[|ops|], r.n, r.x, r.ageUs, round)
    ensures |reqs| + LastSpace(g) >= g.TtPgs()
    ensures forall d :: !Sparse(g, |Lpns(reqs)|, d)
  {
    hide PageWritten, WriteFails, Sparse, Geo.TtPgs, Geo.PgsPerLine;
    var r := reqs[|ops|];
    if |reqs| + LastSpace(g) < g.TtPgs() { ShortRunsGoOn(g, ss, ops, r.n, r.x, r.ageUs, round); }
    forall d | Sparse(g, |Lpns(reqs)|, d) ensures false {
      SparseRunsGoOn(g, ss, ops, d, Lpns(reqs), r.n, r.x, r.ageUs, round);
    }
  }

  lemma Tables(p: Partition)
    ensures p.S().m.maptbl == p.maptbl
  {}

  /** A run that served all requests wrote their LPNs. */
  lemma Outgrown(g: Geo, ss: seq<State>, ops: seq<Op>, reqs: seq<Request>)
    requires IsRun(g, ss, ops) && Served(reqs, ops)
    ensures |Lpns(reqs)| > Capacity(g) || (forall n: nat :: n < g.TtPgs() ==> n in Lpns(reqs)) ==> |ops| < |reqs|
  {
    hide PageWritten;
    RunsStayBelow(g, ss, ops);
    if |ops| == |reqs| {
      assert Lpns(reqs) == WrittenLpns(ops);
    }
  }

  // ---------- The shipped configuration ----------

  /** One-shot pages per block, for a device of `size` bytes: one for each 768 MiB, or part of that. */
  function OneshotsPerBlk(size: nat): nat { DivRoundUp(size / SSD_PARTITIONS, 201326592) }

  lemma ShippedSizes(size: nat)
    requires SSD_PARTITIONS <= size <= 0x4000_0000_0000
    ensures var g, k := GeoOf(SHIPPED, size, SSD_PARTITIONS), OneshotsPerBlk(size);
      && g == Geo(1, 4, 4, 4, 12, k, 102, 922) && Runnable(g) && k >= 1
      && g.TtPgs() == 45888 * k && g.PgsPerLine(0) == 16 * k && g.PgsPerLine(g.slcLines) == 48 * k
  {
    var g, k := GeoOf(SHIPPED, size, SSD_PARTITIONS), OneshotsPerBlk(size);
    ShippedGeometry(size);
    assert BlkSize(SHIPPED, size, SSD_PARTITIONS) == DivRoundUp(size / 4, 4096);
    RoundTwice(size / 4);
  }

  lemma RoundTwice(n: nat)
    ensures DivRoundUp(DivRoundUp(n, 4096), 49152) == DivRoundUp(n, 201326592)
  {}

  /** Logical pages that a host is told of, for each partition. */
  function Promised(size: nat): nat { LogicalBytes(SHIPPED, size) / PG_SIZE / SSD_PARTITIONS }

  /** The host is told of more pages than a partition can ever hold. */
  predicate Overpromised(size: nat)
    requires SSD_PARTITIONS <= size
  {
    Promised(size) > Capacity(GeoOf(SHIPPED, size, SSD_PARTITIONS))
  }

  /** That is so if and only if the size of the device falls short of the next multiple of 768 MiB
      by so little; whatever the size, a partition accepts as many LPNs as are promised. */
  lemma PromisedTooMuch(size: nat)
    requires SSD_PARTITIONS <= size <= 0x4000_0000_0000
    ensures var g, k := GeoOf(SHIPPED, size, SSD_PARTITIONS), OneshotsPerBlk(size);
      && (Overpromised(size) <==> 7 * (805306368 * k - size) <= 4325376 * k + 122880)
      && Promised(size) <= g.TtPgs()
  {
    ShippedSizes(size);
    assert Promised(size) == 7 * size / 122880;
  }

  /** It is so for 12 GiB and 3 GiB of reserved memory, of which storage takes all but one MiB, and
      not for 10 GiB. */
  lemma DocumentedSizes()
    ensures Overpromised(12 * 1024 * 1048576 - 1048576) && Overpromised(3 * 1024 * 1048576 - 1048576)
    ensures !Overpromised(10 * 1024 * 1048576 - 1048576)
  {
    hide Overpromised;
    ShortOf(12 * 1024 * 1048576 - 1048576, 16, 1048576);
    ShortOf(3 * 1024 * 1048576 - 1048576, 4, 1048576);
    ShortOf(10 * 1024 * 1048576 - 1048576, 14, 537919488);
  }

  lemma ShortOf(size: nat, k: nat, d: nat)
    requires SSD_PARTITIONS <= size <= 0x4000_0000_0000 && size % 4 == 0
    requires size + d == 805306368 * k && d < 805306368
    ensures Overpromised(size) <==> 7 * d <= 4325376 * k + 122880
  {
    hide Overpromised, Promised, GeoOf;
    PromisedTooMuch(size);
    RoundedUp(size, k, d);
  }

  lemma RoundedUp(size: nat, k: nat, d: nat)
    requires size % 4 == 0 && size + d == 805306368 * k && d < 805306368
    ensures OneshotsPerBlk(size) == k
  {}

  /** From 1303 times 768 MiB on it is so for every size. */
  lemma LargeSizes(size: nat)
    requires 1303 * 805306368 <= size <= 0x4000_0000_0000
    ensures Overpromised(size)
  {
    hide Overpromised, Promised, GeoOf;
    PromisedTooMuch(size);
  }

  /** A host of the shipped configuration that keeps to 350 LPNs of a partition for each 768 MiB
      uses few LPNs. */
  lemma ShippedSparse(size: nat)
    requires SSD_PARTITIONS <= size <= 0x4000_0000_0000
    ensures Sparse(GeoOf(SHIPPED, size, SSD_PARTITIONS), 350 * OneshotsPerBlk(size), 126)
  {
    ShippedSizes(size);
  }
}
