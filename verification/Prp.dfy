/** The data transfer of a command (io.c): page by page through its PRP entries, and the DMA
    variant that joins runs of adjacent pages (section 4.3 of NVM Express Base Specification,
    revision 1.4). */
module Prp {
  const PAGE_SIZE := 4096

  /** The DMA variant's static table has this many entries, of which entry 0 is not used. */
  const TABLE_SIZE := 513

  /** The data pointer of a command: list is what the PRP list at prp2 holds, if prp2 points to
      one; length and the storage offset are in bytes. */
  datatype Command = Command(prp1: nat, prp2: nat, list: seq<nat>, length: nat, offset: nat)

  /** size bytes between memory address mem and storage address storage. */
  datatype Move = Move(mem: nat, storage: nat, size: nat)

  // ---------- Moves as bytes ----------

  /** The bytes of a move, each as its memory and its storage address. */
  function Block(mem: nat, storage: nat, n: nat): (r: seq<(nat, nat)>)
    ensures |r| == n && forall j :: 0 <= j < n ==> r[j] == (mem + j, storage + j)
  {
    seq(n, j => (mem + j, storage + j))
  }

  function Bytes(ms: seq<Move>): seq<(nat, nat)> {
    if ms == [] then [] else Block(ms[0].mem, ms[0].storage, ms[0].size) + Bytes(ms[1..])
  }

  lemma BytesCons(m: Move, ms: seq<Move>)
    ensures Bytes([m] + ms) == Block(m.mem, m.storage, m.size) + Bytes(ms)
  {
    assert ([m] + ms)[1..] == ms;
  }

  lemma {:induction false} BytesAppend(ms: seq<Move>, m: Move)
    ensures Bytes(ms + [m]) == Bytes(ms) + Block(m.mem, m.storage, m.size)
  {
    if ms == [] {
      assert ms + [m] == [m] && [m][1..] == [];
    } else {
      BytesAppend(ms[1..], m);
      assert (ms + [m])[1..] == ms[1..] + [m];
    }
  }

  lemma BlockSplit(mem: nat, storage: nat, a: nat, b: nat)
    ensures Block(mem, storage, a + b) == Block(mem, storage, a) + Block(mem + a, storage + a, b)
  {}

  // ---------- PRP entries ----------

  /** How much of the rest goes to the page of entry p. */
  function Chunk(p: nat, rest: nat): (r: nat)
    ensures r <= rest && r <= PAGE_SIZE && (rest > 0 ==> r > 0)
  {
    if rest <= PAGE_SIZE - p % PAGE_SIZE then rest else PAGE_SIZE - p % PAGE_SIZE
  }

  /** The entries ps are used up exactly by moving rest bytes. */
  predicate Exact(ps: seq<nat>, rest: nat) {
    if ps == [] then rest == 0 else rest > 0 && Exact(ps[1..], rest - Chunk(ps[0], rest))
  }

  /** The entries suffice for rest bytes. */
  predicate Suffice(ps: seq<nat>, rest: nat) {
    rest == 0 || (ps != [] && Suffice(ps[1..], rest - Chunk(ps[0], rest)))
  }

  /** How many entries moving rest bytes takes. */
  function Count(ps: seq<nat>, rest: nat): (n: nat)
    requires Suffice(ps, rest)
    ensures n <= |ps|
  {
    if rest == 0 then 0 else 1 + Count(ps[1..], rest - Chunk(ps[0], rest))
  }

  lemma {:induction false} CountExact(ps: seq<nat>, rest: nat)
    requires Suffice(ps, rest)
    ensures Exact(ps[..Count(ps, rest)], rest)
  {
    if rest > 0 {
      CountExact(ps[1..], rest - Chunk(ps[0], rest));
      assert ps[..Count(ps, rest)][1..] == ps[1..][..Count(ps, rest) - 1];
    }
  }

  /** The entries of a command: the first is prp1; the second is prp2 when at most a page is
      left for it, and otherwise the rest are those of the list. */
  function Entries(c: Command): seq<nat> {
    var rest := c.length - Chunk(c.prp1, c.length);
    [c.prp1] + if rest == 0 then [] else if rest <= PAGE_SIZE then [c.prp2] else c.list
  }

  /** The host's side: enough entries for the command. */
  predicate Supplied(c: Command) { Suffice(Entries(c), c.length) }

  /** Every entry but the first is page-aligned. */
  predicate Aligned(ps: seq<nat>) {
    forall i :: 1 <= i < |ps| ==> ps[i] % PAGE_SIZE == 0
  }

  /** With aligned entries, the count is that of the pages touched. */
  lemma {:induction false} CountOfAligned(ps: seq<nat>, rest: nat)
    requires Suffice(ps, rest) && Aligned(ps[..Count(ps, rest)]) && rest > 0
    ensures Count(ps, rest) == (ps[0] % PAGE_SIZE + rest + PAGE_SIZE - 1) / PAGE_SIZE
  {
    var left := rest - Chunk(ps[0], rest);
    if left > 0 {
      var n := Count(ps, rest);
      forall i | 1 <= i < n ensures ps[i] % PAGE_SIZE == 0 { assert ps[..n][i] == ps[i]; }
      CountOfAligned(ps[1..], left);
    }
  }

  /** The DMA variant's table holds the entries of aligned commands up to 512 pages, and of no
      longer ones. */
  lemma TableFits(c: Command)
    requires Supplied(c) && c.length > 0 && Aligned(Entries(c)[..Count(Entries(c), c.length)])
    ensures Count(Entries(c), c.length) < TABLE_SIZE <==> c.prp1 % PAGE_SIZE + c.length <= 512 * PAGE_SIZE
  {
    CountOfAligned(Entries(c), c.length);
  }

  // ---------- Page by page ----------

  function PageMoves(ps: seq<nat>, rest: nat, storage: nat): seq<Move>
    requires Exact(ps, rest)
  {
    if ps == [] then []
    else [Move(ps[0], storage, Chunk(ps[0], rest))] + PageMoves(ps[1..], rest - Chunk(ps[0], rest),
      storage + Chunk(ps[0], rest))
  }

  /** Where the loops stand after k entries: the list is in use once more than a page was left
      for the second entry. */
  ghost predicate Reading(c: Command, k: nat, remaining: nat, prp2Offs: nat) {
    var rest := c.length - Chunk(c.prp1, c.length);
    && (k == 0 ==> remaining == c.length)
    && (k == 1 ==> remaining == rest)
    && (k >= 2 && remaining > 0 ==> rest > PAGE_SIZE)
    && prp2Offs == if k >= 2 && rest > PAGE_SIZE then k - 1 else 0
  }

  /** The entry to read next, and where the loops stand after it. */
  lemma NextEntry(c: Command, n: nat, k: nat, remaining: nat, prp2Offs: nat)
    requires k <= n <= |Entries(c)| && Exact(Entries(c)[k..n], remaining) && remaining > 0
      && Reading(c, k, remaining, prp2Offs)
    ensures k < n
    ensures var p := Entries(c)[k]; var left := remaining - Chunk(p, remaining);
      && Exact(Entries(c)[k + 1..n], left)
      && (k == 0 ==> p == c.prp1 && Reading(c, 1, left, prp2Offs))
      && (k == 1 && remaining <= PAGE_SIZE ==> p == c.prp2 && Reading(c, 2, left, prp2Offs))
      && ((k == 1 && remaining > PAGE_SIZE) || k >= 2 ==>
            prp2Offs < |c.list| && p == c.list[prp2Offs] && Reading(c, k + 1, left, prp2Offs + 1))
  {
    hide Chunk;
    var qs := Entries(c)[k..n];
    assert qs[1..] == Entries(c)[k + 1..n];
    if k == 1 && remaining <= PAGE_SIZE { assert |Entries(c)| == 2 && qs[1..] == []; }
  }

  /** __do_perform_io. */
  method PerformIo(c: Command) returns (ms: seq<Move>)
    requires Supplied(c)
    ensures Exact(Entries(c)[..Count(Entries(c), c.length)], c.length)
    ensures ms == PageMoves(Entries(c)[..Count(Entries(c), c.length)], c.length, c.offset)
  {
    hide Chunk, Exact, Suffice, PageMoves, Entries, Count, Reading;
    ghost var ps := Entries(c);
    ghost var n := Count(ps, c.length);
    CountExact(ps, c.length);
    ghost var whole := PageMoves(ps[..n], c.length, c.offset);
    var remaining: nat, offset: nat := c.length, c.offset;
    var prpOffs: nat, prp2Offs: nat := 0, 0;
    ms := [];
    BeginReading(c);
    assert ps[0..n] == ps[..n];
    while remaining > 0
      invariant prpOffs <= n && Exact(ps[prpOffs..n], remaining) && Reading(c, prpOffs, remaining, prp2Offs)
      invariant whole == ms + PageMoves(ps[prpOffs..n], remaining, offset)
    {
      NextEntry(c, n, prpOffs, remaining, prp2Offs);
      PageStep(ps, n, prpOffs, remaining, offset, whole, ms);
      prpOffs := prpOffs + 1;
      var paddr;
      if prpOffs == 1 {
        paddr := c.prp1;
      } else if prpOffs == 2 {
        paddr := c.prp2;
        if remaining > PAGE_SIZE {
          paddr := c.list[prp2Offs];
          prp2Offs := prp2Offs + 1;
        }
      } else {
        paddr := c.list[prp2Offs];
        prp2Offs := prp2Offs + 1;
      }
      var ioSize := IoSize(paddr, remaining);
      ms := ms + [Move(paddr, offset, ioSize)];
      remaining := remaining - ioSize;
      offset := offset + ioSize;
    }
    NoMorePages(ps[prpOffs..n], offset);
  }

  lemma BeginReading(c: Command)
    ensures Reading(c, 0, c.length, 0)
  {}

  lemma NoMorePages(ps: seq<nat>, storage: nat)
    requires Exact(ps, 0)
    ensures PageMoves(ps, 0, storage) == []
  {}

  lemma PageStep(ps: seq<nat>, n: nat, k: nat, rem: nat, storage: nat, whole: seq<Move>, ms: seq<Move>)
    requires k < n <= |ps| && Exact(ps[k..n], rem) && rem > 0 && whole == ms + PageMoves(ps[k..n], rem, storage)
    ensures var c := Chunk(ps[k], rem);
      Exact(ps[k + 1..n], rem - c) && whole == ms + [Move(ps[k], storage, c)]
        + PageMoves(ps[k + 1..n], rem - c, storage + c)
  {
    hide Chunk;
    var qs := ps[k..n];
    assert qs[1..] == ps[k + 1..n] && qs[0] == ps[k];
  }

  /** Each move stays inside a page, and all but the last go up to its end. */
  lemma {:induction false} MovesFillPages(ps: seq<nat>, rest: nat, storage: nat)
    requires Exact(ps, rest)
    ensures var ms := PageMoves(ps, rest, storage);
      && |ms| == |ps|
      && (forall k :: 0 <= k < |ms| ==> ms[k].mem == ps[k] && 0 < ms[k].size && ms[k].mem % 4096 + ms[k].size <= 4096)
      && forall k :: 0 <= k < |ms| - 1 ==> ms[k].mem % 4096 + ms[k].size == 4096
  {
    if ps != [] {
      var c := Chunk(ps[0], rest);
      MovesFillPages(ps[1..], rest - c, storage + c);
      var ms, tail := PageMoves(ps, rest, storage), PageMoves(ps[1..], rest - c, storage + c);
      assert ms == [Move(ps[0], storage, c)] + tail;
      forall k | 0 <= k < |ms| - 1 ensures ms[k].mem % 4096 + ms[k].size == 4096 {
        if k > 0 { assert ms[k] == tail[k - 1]; }
      }
    }
  }

  /** Where a command's moves go: the first to prp1; then, if no more than a page is left, one to
      prp2, and otherwise to the pages that the list names. */
  lemma MovesFollowEntries(c: Command)
    requires Supplied(c) && c.length > 0
    ensures Exact(Entries(c)[..Count(Entries(c), c.length)], c.length)
    ensures var ms := PageMoves(Entries(c)[..Count(Entries(c), c.length)], c.length, c.offset);
      && |ms| > 0 && ms[0].mem == c.prp1 && ms[0].storage == c.offset
      && (forall k :: 1 <= k < |ms| ==>
            if c.length - ms[0].size <= 4096 then k == 1 && ms[k].mem == c.prp2
            else k - 1 < |c.list| && ms[k].mem == c.list[k - 1])
  {
    var ps := Entries(c)[..Count(Entries(c), c.length)];
    CountExact(Entries(c), c.length);
    MovesFillPages(ps, c.length, c.offset);
  }

  /** The size of one transfer, as both variants compute it. */
  method IoSize(paddr: nat, remaining: nat) returns (ioSize: nat)
    ensures ioSize == Chunk(paddr, remaining)
  {
    ioSize := if remaining <= PAGE_SIZE then remaining else PAGE_SIZE;
    if paddr % PAGE_SIZE != 0 {
      var memOffs := paddr % PAGE_SIZE;
      if ioSize + memOffs > PAGE_SIZE {
        ioSize := PAGE_SIZE - memOffs;
      }
    }
  }

  // ---------- Runs of adjacent pages ----------

  /** How many entries from the first on continue one another. */
  function Run(ps: seq<nat>): (n: nat)
    requires ps != []
    ensures 1 <= n <= |ps|
  {
    if |ps| >= 2 && ps[1] == ps[0] + PAGE_SIZE then 1 + Run(ps[1..]) else 1
  }

  /** The bytes of the move for the run at the head of ps. */
  function RunSize(ps: seq<nat>, rest: nat): (r: nat)
    requires ps != [] && rest > 0
    ensures 0 < r <= rest
  {
    var size := Chunk(ps[0], rest) + (Run(ps) - 1) * PAGE_SIZE;
    if rest <= size then rest else size
  }

  /** The moves of the DMA variant. */
  function RunMoves(ps: seq<nat>, rest: nat, storage: nat): seq<Move>
    decreases rest
  {
    if rest == 0 || ps == [] then []
    else [Move(ps[0], storage, RunSize(ps, rest))] + RunMoves(ps[Run(ps)..], rest - RunSize(ps, rest),
      storage + RunSize(ps, rest))
  }

  /** What page-by-page transfer has left after k entries. */
  function After(ps: seq<nat>, k: nat, rest: nat): nat
    requires Exact(ps, rest) && k <= |ps|
  {
    if k == 0 then rest else After(ps[1..], k - 1, rest - Chunk(ps[0], rest))
  }

  lemma {:induction false} AfterIs(ps: seq<nat>, k: nat, rest: nat)
    requires Exact(ps, rest) && k <= |ps|
    ensures Exact(ps[k..], After(ps, k, rest))
    ensures k > 0 ==> After(ps, k, rest) >= rest - Chunk(ps[0], rest) - (k - 1) * PAGE_SIZE
  {
    hide Chunk;
    if k == 0 {
      assert ps[0..] == ps;
    } else {
      AfterIs(ps[1..], k - 1, rest - Chunk(ps[0], rest));
      assert ps[1..][k - 1..] == ps[k..];
    }
  }

  /** A run never moves less than its entries page by page. */
  lemma RunCovers(ps: seq<nat>, rest: nat, rem: nat)
    requires Exact(ps, rest) && 0 < rem <= rest
    ensures ps != [] && rem - RunSize(ps, rem) <= After(ps, Run(ps), rest)
    ensures Exact(ps[Run(ps)..], After(ps, Run(ps), rest))
  {
    AfterIs(ps, Run(ps), rest);
  }

  /** __do_perform_io_using_dma: the entries go into the table first. */
  method PerformIoUsingDma(c: Command, table: array<nat>) returns (ms: seq<Move>)
    requires Supplied(c) && table.Length == TABLE_SIZE && Count(Entries(c), c.length) < TABLE_SIZE
    modifies table
    ensures ms == RunMoves(Entries(c)[..Count(Entries(c), c.length)], c.length, c.offset)
  {
    hide Chunk, Run, RunSize, RunMoves, Exact, Suffice, Entries, Count, After;
    ghost var ps := Entries(c)[..Count(Entries(c), c.length)];
    var numPrps := GatherEntries(c, table);
    CountExact(Entries(c), c.length);
    var remaining: nat, offset: nat, prpOffs: nat := c.length, c.offset, 1;
    ghost var left := c.length;
    ms := [];
    assert ps[0..] == ps;
    while remaining > 0
      invariant 1 <= prpOffs <= numPrps + 1 && Exact(ps[prpOffs - 1..], left) && remaining <= left
      invariant RunMoves(ps, c.length, c.offset) == ms + RunMoves(ps[prpOffs - 1..], remaining, offset)
      modifies {}
    {
      ghost var start := prpOffs - 1;
      RunCovers(ps[start..], left, remaining);
      RunStep(ps, start, remaining, offset, RunMoves(ps, c.length, c.offset), ms);
      left := After(ps[start..], Run(ps[start..]), left);
      var paddr := table[prpOffs];
      var pageSize := IoSize(paddr, remaining);
      assert table[start + 1] == ps[start];
      prpOffs, pageSize := JoinPages(table, numPrps, prpOffs, pageSize, ps);
      var ioSize: nat := if remaining <= pageSize then remaining else pageSize;
      ms := ms + [Move(paddr, offset, ioSize)];
      remaining := remaining - ioSize;
      offset := offset + ioSize;
    }
    NoMoreRuns(ps[prpOffs - 1..], offset);
  }

  lemma NoMoreRuns(ps: seq<nat>, storage: nat)
    ensures RunMoves(ps, 0, storage) == []
  {}

  lemma RunStep(ps: seq<nat>, start: nat, rem: nat, storage: nat, whole: seq<Move>, ms: seq<Move>)
    requires start < |ps| && rem > 0 && whole == ms + RunMoves(ps[start..], rem, storage)
    ensures var qs := ps[start..];
      && RunSize(qs, rem) == (var size := Chunk(ps[start], rem) + (Run(qs) - 1) * PAGE_SIZE;
        if rem <= size then rem else size)
      && qs[Run(qs)..] == ps[start + Run(qs)..]
      && whole == ms + [Move(ps[start], storage, RunSize(qs, rem))]
           + RunMoves(ps[start + Run(qs)..], rem - RunSize(qs, rem), storage + RunSize(qs, rem))
  {
    hide Chunk, Run, RunSize;
    var qs := ps[start..];
    RunSizeIs(qs, rem);
    assert qs[Run(qs)..] == ps[start + Run(qs)..];
  }

  lemma RunSizeIs(ps: seq<nat>, rem: nat)
    requires ps != [] && rem > 0
    ensures RunSize(ps, rem) == (var size := Chunk(ps[0], rem) + (Run(ps) - 1) * PAGE_SIZE;
      if rem <= size then rem else size)
  {}

  lemma RunSteps(ps: seq<nat>, k: nat)
    requires k < |ps|
    ensures Run(ps[k..]) == if k + 1 < |ps| && ps[k + 1] == ps[k] + PAGE_SIZE then 1 + Run(ps[k + 1..]) else 1
  {
    if k + 1 < |ps| { assert ps[k..][1..] == ps[k + 1..]; }
  }

  /** The inner loop: grows the transfer by a page for each entry that continues the one before. */
  method JoinPages(table: array<nat>, numPrps: nat, at: nat, first: nat, ghost ps: seq<nat>)
      returns (prpOffs: nat, pageSize: nat)
    requires 1 <= at <= numPrps == |ps| < table.Length && forall k :: 0 <= k < numPrps ==> table[k + 1] == ps[k]
    ensures prpOffs == at + Run(ps[at - 1..]) && pageSize == first + (Run(ps[at - 1..]) - 1) * PAGE_SIZE
  {
    hide Run;
    prpOffs, pageSize := at + 1, first;
    while prpOffs <= numPrps && table[prpOffs] == table[prpOffs - 1] + PAGE_SIZE
      invariant at + 1 <= prpOffs <= numPrps + 1
      invariant Run(ps[at - 1..]) == prpOffs - at - 1 + Run(ps[prpOffs - 2..])
      invariant pageSize == first + (prpOffs - at - 1) * PAGE_SIZE
    {
      RunSteps(ps, prpOffs - 2);
      assert table[prpOffs] == ps[prpOffs - 1] && table[prpOffs - 1] == ps[prpOffs - 2];
      pageSize := pageSize + PAGE_SIZE;
      prpOffs := prpOffs + 1;
    }
    RunSteps(ps, prpOffs - 2);
    assert prpOffs <= numPrps ==> table[prpOffs] == ps[prpOffs - 1] && table[prpOffs - 1] == ps[prpOffs - 2];
  }

  /** The first loop of the DMA variant. */
  method GatherEntries(c: Command, table: array<nat>) returns (numPrps: nat)
    requires Supplied(c) && table.Length == TABLE_SIZE && Count(Entries(c), c.length) < TABLE_SIZE
    modifies table
    ensures numPrps == Count(Entries(c), c.length)
    ensures forall k :: 0 <= k < numPrps ==> table[k + 1] == Entries(c)[k]
  {
    hide Chunk, Exact, Suffice, Entries, Count, Reading;
    ghost var ps := Entries(c);
    ghost var n := Count(ps, c.length);
    CountExact(ps, c.length);
    forall i | 0 <= i < table.Length { table[i] := 0; }
    var remaining: nat := c.length;
    var prp2Offs: nat := 0;
    numPrps := 0;
    BeginReading(c);
    assert ps[0..n] == ps[..n];
    while remaining > 0
      invariant numPrps <= n && Exact(ps[numPrps..n], remaining) && Reading(c, numPrps, remaining, prp2Offs)
      invariant forall k :: 0 <= k < numPrps ==> table[k + 1] == ps[k]
    {
      NextEntry(c, n, numPrps, remaining, prp2Offs);
      numPrps := numPrps + 1;
      if numPrps == 1 {
        table[numPrps] := c.prp1;
      } else if numPrps == 2 {
        table[numPrps] := c.prp2;
        if remaining > PAGE_SIZE {
          table[numPrps] := c.list[prp2Offs];
          prp2Offs := prp2Offs + 1;
        }
      } else {
        table[numPrps] := c.list[prp2Offs];
        prp2Offs := prp2Offs + 1;
      }
      var ioSize := IoSize(table[numPrps], remaining);
      remaining := remaining - ioSize;
    }
    NoEntriesLeft(ps[numPrps..n]);
  }

  lemma NoEntriesLeft(ps: seq<nat>)
    requires Exact(ps, 0)
    ensures ps == []
  {}

  // ---------- The two variants agree ----------

  /** No entry with an offset is continued a page further on. */
  predicate Unskewed(ps: seq<nat>) {
    forall i :: 0 <= i < |ps| - 1 && ps[i + 1] == ps[i] + PAGE_SIZE ==> ps[i] % PAGE_SIZE == 0
  }

  lemma AlignedUnskewed(ps: seq<nat>)
    requires Aligned(ps)
    ensures Unskewed(ps)
  {}

  lemma TailUnskewed(ps: seq<nat>)
    requires Unskewed(ps) && ps != []
    ensures Unskewed(ps[1..]) && (Run(ps) > 1 ==> ps[0] % PAGE_SIZE == 0)
  {
    forall i | 0 <= i < |ps[1..]| - 1 && ps[1..][i + 1] == ps[1..][i] + PAGE_SIZE ensures ps[1..][i] % PAGE_SIZE == 0 {
      assert ps[i + 2] == ps[i + 1] + PAGE_SIZE;
    }
  }

  /** Joining runs moves the same bytes. */
  lemma {:induction false} SameBytes(ps: seq<nat>, rest: nat, storage: nat)
    requires Exact(ps, rest) && Unskewed(ps)
    ensures Bytes(RunMoves(ps, rest, storage)) == Bytes(PageMoves(ps, rest, storage))
    decreases |ps|
  {
    if ps == [] {
    } else {
      hide Chunk, Bytes, RunMoves, PageMoves, Unskewed, Run;
      var c := Chunk(ps[0], rest);
      TailUnskewed(ps);
      SameBytes(ps[1..], rest - c, storage + c);
      FirstPageAlike(ps, rest, storage);
    }
  }

  /** The first page of a run can be moved on its own. */
  lemma RunPeels(ps: seq<nat>, rest: nat, storage: nat)
    requires Exact(ps, rest) && ps != [] && Run(ps) > 1 && ps[0] % PAGE_SIZE == 0
    ensures Chunk(ps[0], rest) == PAGE_SIZE < rest
    ensures Bytes(RunMoves(ps, rest, storage)) ==
            Block(ps[0], storage, PAGE_SIZE) + Bytes(RunMoves(ps[1..], rest - PAGE_SIZE, storage + PAGE_SIZE))
  {
    hide Bytes, Block, Run, RunSize, Chunk, Exact;
    PeeledSizes(ps, rest);
    var qs, s := ps[1..], RunSize(ps[1..], rest - PAGE_SIZE);
    var tail := RunMoves(ps[Run(ps)..], rest - RunSize(ps, rest), storage + RunSize(ps, rest));
    BytesCons(Move(ps[0], storage, RunSize(ps, rest)), tail);
    BytesCons(Move(qs[0], storage + PAGE_SIZE, s), tail);
    BlockSplit(ps[0], storage, PAGE_SIZE, s);
  }

  /** The run without its first page, which moves a page less. */
  lemma PeeledSizes(ps: seq<nat>, rest: nat)
    requires Exact(ps, rest) && ps != [] && Run(ps) > 1 && ps[0] % PAGE_SIZE == 0
    ensures Chunk(ps[0], rest) == PAGE_SIZE < rest
    ensures ps[1..] != [] && ps[1..][0] == ps[0] + PAGE_SIZE && ps[1..][Run(ps[1..])..] == ps[Run(ps)..]
    ensures RunSize(ps, rest) == PAGE_SIZE + RunSize(ps[1..], rest - PAGE_SIZE)
  {}

  /** Where the two variants part at an entry with an offset that is continued. */
  lemma SkewHere(ps: seq<nat>, rest: nat, storage: nat)
    requires Exact(ps, rest) && 1 < |ps| && ps[1] == ps[0] + PAGE_SIZE && ps[0] % PAGE_SIZE != 0
    ensures var a, b := Bytes(RunMoves(ps, rest, storage)), Bytes(PageMoves(ps, rest, storage));
      var c := Chunk(ps[0], rest);
      c < |a| && c < |b| && a[c] == (ps[0] + c, storage + c) && b[c] == (ps[0] + PAGE_SIZE, storage + c)
          && c != PAGE_SIZE
  {
    hide Chunk, Exact, Bytes, RunMoves, PageMoves;
    SkewRuns(ps, rest, storage);
    SkewPages(ps, rest, storage);
  }

  /** The DMA variant goes on behind the first entry's page part, */
  lemma SkewRuns(ps: seq<nat>, rest: nat, storage: nat)
    requires Exact(ps, rest) && 1 < |ps| && ps[1] == ps[0] + PAGE_SIZE && ps[0] % PAGE_SIZE != 0
    ensures var a, c := Bytes(RunMoves(ps, rest, storage)), Chunk(ps[0], rest);
      c < |a| && a[c] == (ps[0] + c, storage + c) && c != PAGE_SIZE
  {
    hide Bytes, PageMoves;
    BytesCons(Move(ps[0], storage, RunSize(ps, rest)),
              RunMoves(ps[Run(ps)..], rest - RunSize(ps, rest), storage + RunSize(ps, rest)));
  }

  /** and the page-by-page variant at the second entry. */
  lemma SkewPages(ps: seq<nat>, rest: nat, storage: nat)
    requires Exact(ps, rest) && 1 < |ps| && ps[1] == ps[0] + PAGE_SIZE && ps[0] % PAGE_SIZE != 0
    ensures var b, c := Bytes(PageMoves(ps, rest, storage)), Chunk(ps[0], rest);
      c < |b| && b[c] == (ps[0] + PAGE_SIZE, storage + c)
  {
    hide Bytes, RunMoves;
    var c := Chunk(ps[0], rest);
    var d := Chunk(ps[1], rest - c);
    BytesCons(Move(ps[0], storage, c), PageMoves(ps[1..], rest - c, storage + c));
    BytesCons(Move(ps[1], storage + c, d), PageMoves(ps[1..][1..], rest - c - d, storage + c + d));
  }

  /** Both variants move the first page alike when its entry is not skewed. */
  lemma FirstPageAlike(ps: seq<nat>, rest: nat, storage: nat)
    requires Exact(ps, rest) && ps != [] && (Run(ps) > 1 ==> ps[0] % PAGE_SIZE == 0)
    ensures var c := Chunk(ps[0], rest);
      && Bytes(RunMoves(ps, rest, storage)) == Block(ps[0], storage, c)
        + Bytes(RunMoves(ps[1..], rest - c, storage + c))
      && Bytes(PageMoves(ps, rest, storage)) == Block(ps[0], storage, c)
        + Bytes(PageMoves(ps[1..], rest - c, storage + c))
  {
    hide Bytes, Block;
    var c := Chunk(ps[0], rest);
    BytesCons(Move(ps[0], storage, c), PageMoves(ps[1..], rest - c, storage + c));
    if Run(ps) > 1 {
      RunPeels(ps, rest, storage);
    } else {
      assert RunMoves(ps, rest, storage) == [Move(ps[0], storage, c)] + RunMoves(ps[1..], rest - c, storage + c);
      BytesCons(Move(ps[0], storage, c), RunMoves(ps[1..], rest - c, storage + c));
    }
  }

  /** An entry with an offset that is continued sends the two variants to different addresses. */
  lemma {:induction false} SkewDiffers(ps: seq<nat>, rest: nat, storage: nat, i: nat)
    requires Exact(ps, rest) && i + 1 < |ps| && ps[i + 1] == ps[i] + PAGE_SIZE && ps[i] % PAGE_SIZE != 0
    requires forall j :: 0 <= j < i && ps[j + 1] == ps[j] + PAGE_SIZE ==> ps[j] % PAGE_SIZE == 0
    ensures Bytes(RunMoves(ps, rest, storage)) != Bytes(PageMoves(ps, rest, storage))
  {
    hide Chunk, Bytes, RunMoves, PageMoves;
    if i == 0 {
      SkewHere(ps, rest, storage);
    } else {
      var c := Chunk(ps[0], rest);
      forall j | 0 <= j < i - 1 && ps[1..][j + 1] == ps[1..][j] + PAGE_SIZE ensures ps[1..][j] % PAGE_SIZE == 0 {
        assert ps[j + 2] == ps[j + 1] + PAGE_SIZE;
      }
      SkewDiffers(ps[1..], rest - c, storage + c, i - 1);
      FirstPageAlike(ps, rest, storage);
      SuffixesDiffer(Block(ps[0], storage, c), Bytes(RunMoves(ps[1..], rest - c, storage + c)),
                     Bytes(PageMoves(ps[1..], rest - c, storage + c)));
    }
  }

  lemma SuffixesDiffer<T>(h: seq<T>, x: seq<T>, y: seq<T>)
    requires x != y
    ensures h + x != h + y
  {
    assert (h + x)[|h|..] == x && (h + y)[|h|..] == y;
  }

  lemma {:induction false} FirstSkew(ps: seq<nat>, i: nat) returns (k: nat)
    requires i + 1 < |ps| && ps[i + 1] == ps[i] + PAGE_SIZE && ps[i] % PAGE_SIZE != 0
    ensures k + 1 < |ps| && ps[k + 1] == ps[k] + PAGE_SIZE && ps[k] % PAGE_SIZE != 0
    ensures forall j :: 0 <= j < k && ps[j + 1] == ps[j] + PAGE_SIZE ==> ps[j] % PAGE_SIZE == 0
  {
    k := i;
    if j :| 0 <= j < i && ps[j + 1] == ps[j] + PAGE_SIZE && ps[j] % PAGE_SIZE != 0 {
      k := FirstSkew(ps, j);
    }
  }

  /** The DMA variant moves exactly the bytes of the page-by-page loop, between the same
      addresses, if and only if no entry with an offset is continued a page further on; the
      alignment rule sees to that. */
  lemma VariantsAgree(ps: seq<nat>, rest: nat, storage: nat)
    requires Exact(ps, rest)
    ensures Bytes(RunMoves(ps, rest, storage)) == Bytes(PageMoves(ps, rest, storage)) <==> Unskewed(ps)
    ensures Aligned(ps) ==> Unskewed(ps)
  {
    if Unskewed(ps) {
      SameBytes(ps, rest, storage);
    } else {
      var i :| 0 <= i < |ps| - 1 && ps[i + 1] == ps[i] + PAGE_SIZE && ps[i] % PAGE_SIZE != 0;
      var k := FirstSkew(ps, i);
      SkewDiffers(ps, rest, storage, k);
    }
    if Aligned(ps) { AlignedUnskewed(ps); }
  }

  /** Page by page, the command's bytes are covered once each, in storage order. */
  lemma {:induction false} PagesCover(ps: seq<nat>, rest: nat, storage: nat)
    requires Exact(ps, rest)
    ensures var bs := Bytes(PageMoves(ps, rest, storage));
            |bs| == rest && forall j :: 0 <= j < rest ==> bs[j].1 == storage + j
  {
    if ps != [] {
      var c := Chunk(ps[0], rest);
      PagesCover(ps[1..], rest - c, storage + c);
      BytesCons(Move(ps[0], storage, c), PageMoves(ps[1..], rest - c, storage + c));
    }
  }

  /** So does the DMA variant, whatever the entries' offsets. */
  lemma {:induction false} RunsCover(ps: seq<nat>, rest: nat, rem: nat, storage: nat)
    requires Exact(ps, rest) && rem <= rest
    ensures var bs := Bytes(RunMoves(ps, rem, storage));
            |bs| == rem && forall j :: 0 <= j < rem ==> bs[j].1 == storage + j
    decreases rem
  {
    if rem > 0 {
      RunCovers(ps, rest, rem);
      var s := RunSize(ps, rem);
      RunsCover(ps[Run(ps)..], After(ps, Run(ps), rest), rem - s, storage + s);
      BytesCons(Move(ps[0], storage, s), RunMoves(ps[Run(ps)..], rem - s, storage + s));
    }
  }
}
