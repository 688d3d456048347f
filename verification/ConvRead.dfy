/** Which NAND reads conv_read issues, as values. */
module ConvRead {
  import opened Wrappers
  import opened Radix
  import opened Geometry
  import opened FtlState
  import opened FtlBounds
  import opened FtlSweep
  import opened Striping
  import opened WriteBuffer

  /** A NAND read of some pages of one flash page of a partition. */
  datatype NandRead = NandRead(part: nat, ppa: Ppa, bytes: nat)

  /** is_same_flash_page. */
  predicate SameFlashPage(g: Geo, p: Ppa, q: Ppa)
    requires g.pgsPerFlashpg > 0
  {
    BlockOf(p) == BlockOf(q) && p.pg / g.pgsPerFlashpg == q.pg / g.pgsPerFlashpg
  }

  /** Page n of a partition is mapped, and to a valid address. */
  predicate Readable(g: Geo, maptbl: seq<Option<Ppa>>, n: nat) {
    n < |maptbl| && maptbl[n].Some? && g.ValidPpa(maptbl[n].value)
  }

  type Tables = t: seq<seq<Option<Ppa>>> | |t| > 0 witness [[]]

  /** The readable logical pages lpn of partition i with s <= lpn < e. */
  ghost function ReadableIn(g: Geo, ts: Tables, i: nat, s: nat, e: nat): set<nat>
    requires i < |ts|
  {
    set lpn: nat | s <= lpn < e && Part(lpn, |ts|) == i && Readable(g, ts[i], Local(lpn, |ts|))
  }

  /** Read r covers exactly the logical pages in `group`, all in one flash page. */
  ghost predicate Serves(g: Geo, ts: Tables, r: NandRead, group: set<nat>)
    requires g.pgsPerFlashpg > 0
  {
    && r.part < |ts| && group != {} && r.bytes == PGSZ * |group|
    && forall lpn :: lpn in group ==>
         && Part(lpn, |ts|) == r.part && Readable(g, ts[r.part], Local(lpn, |ts|))
         && var p := ts[r.part][Local(lpn, |ts|)].value;
            p.ch == r.ppa.ch && p.lun == r.ppa.lun && p.blk == r.ppa.blk
            && p.pg / g.pgsPerFlashpg == r.ppa.pg / g.pgsPerFlashpg
  }

  ghost function Union(gs: seq<set<nat>>): set<nat> {
    if gs == [] then {} else Union(gs[..|gs| - 1]) + gs[|gs| - 1]
  }

  function Bytes(rs: seq<NandRead>): nat {
    if rs == [] then 0 else Bytes(rs[..|rs| - 1]) + rs[|rs| - 1].bytes
  }

  /** The reads rs serve disjoint groups gs that together are the pages in d. */
  ghost predicate Reads(g: Geo, ts: Tables, rs: seq<NandRead>, gs: seq<set<nat>>, d: set<nat>)
    requires g.pgsPerFlashpg > 0
  {
    && |rs| == |gs| && (forall k :: 0 <= k < |rs| ==> Serves(g, ts, rs[k], gs[k]))
    && Union(gs) == d && Bytes(rs) == PGSZ * |d|
    && (forall k, l :: 0 <= k < l < |gs| ==> gs[k] !! gs[l])
  }

  /** The groups of pages come in the order of conv_read: the partitions from that of page s on,
      and in each the pages upwards. */
  ghost predicate Ordered(s: nat, nr: nat, gs: seq<set<nat>>)
    requires nr > 0
  {
    forall k, l, a, b :: 0 <= k < l < |gs| && a in gs[k] && b in gs[l] ==>
      (a - s) % nr < (b - s) % nr || ((a - s) % nr == (b - s) % nr && a < b)
  }

  /** No two neighbouring reads of a partition are of the same flash page: each read is as large
      as the order allows. */
  ghost predicate Separate(g: Geo, rs: seq<NandRead>)
    requires g.pgsPerFlashpg > 0
  {
    forall k, l :: 0 <= k < |rs| && l == k + 1 < |rs| && rs[k].part == rs[l].part ==>
      var p, q := rs[k].ppa, rs[l].ppa;
      p.ch != q.ch || p.lun != q.lun || p.blk != q.blk || p.pg / g.pgsPerFlashpg != q.pg / g.pgsPerFlashpg
  }

  lemma {:induction false} UnionHas(gs: seq<set<nat>>)
    ensures forall lpn :: lpn in Union(gs) <==> exists k :: 0 <= k < |gs| && lpn in gs[k]
  {
    if gs != [] {
      UnionHas(gs[..|gs| - 1]);
      assert gs == gs[..|gs| - 1] + [gs[|gs| - 1]];
    }
  }

  /** Issuing one more read, for pages not read so far. */
  lemma OneMoreRead(g: Geo, ts: Tables, rs: seq<NandRead>, gs: seq<set<nat>>, d: set<nat>, r: NandRead, group: set<nat>)
    requires g.pgsPerFlashpg > 0 && Reads(g, ts, rs, gs, d) && Serves(g, ts, r, group) && group !! d
    ensures Reads(g, ts, rs + [r], gs + [group], d + group)
  {
    hide Serves, Union, Bytes;
    ServedBytes(g, ts, r, group);
    UnionAppend(gs, group);
    BytesAppend(rs, r);
    assert |d + group| == |d| + |group|;
    forall k | 0 <= k < |gs| ensures gs[k] !! group {
      UnionHas(gs);
      assert gs[k] <= d;
    }
  }

  lemma UnionAppend(gs: seq<set<nat>>, group: set<nat>)
    ensures Union(gs + [group]) == Union(gs) + group
  {
    assert (gs + [group])[..|gs|] == gs;
  }

  lemma BytesAppend(rs: seq<NandRead>, r: NandRead)
    ensures Bytes(rs + [r]) == Bytes(rs) + r.bytes
  {
    assert (rs + [r])[..|rs|] == rs;
  }

  lemma ServedBytes(g: Geo, ts: Tables, r: NandRead, group: set<nat>)
    requires g.pgsPerFlashpg > 0 && Serves(g, ts, r, group)
    ensures r.bytes == PGSZ * |group|
  {}

  lemma ServedPart(g: Geo, ts: Tables, r: NandRead, group: set<nat>)
    requires g.pgsPerFlashpg > 0 && Serves(g, ts, r, group)
    ensures r.part < |ts|
  {}

  /** The loop of conv_read over one partition: what it has issued, and the read in the making. */
  ghost predicate Gathering(g: Geo, ts: Tables, i: nat, s: nat, lpn: nat, rs: seq<NandRead>, gs: seq<set<nat>>,
      d: set<nat>, prev: Option<Ppa>, group: set<nat>)
    requires g.pgsPerFlashpg > 0 && i < |ts|
  {
    Reads(g, ts, rs, gs, d) && group !! d && d + group == ReadableIn(g, ts, i, s, lpn) && InHand(g, ts, i, prev, group)
  }

  /** The pages in hand are those that the next read will serve. */
  ghost predicate InHand(g: Geo, ts: Tables, i: nat, prev: Option<Ppa>, group: set<nat>)
    requires g.pgsPerFlashpg > 0
  {
    group != {} ==> prev.Some? && Serves(g, ts, NandRead(i, prev.value, PGSZ * |group|), group)
  }

  lemma NoneBetween(lpn: nat, l: nat, nr: nat)
    requires nr > 0 && lpn % nr == l % nr && lpn <= l < lpn + nr
    ensures l == lpn
  {
    var q := l / nr - lpn / nr;
    assert q * nr == l - lpn;
    if q >= 1 { MulMono(1, q, nr); }
    if q <= -1 { MulMono(q, -1, nr); }
  }

  lemma ModShift(x: nat, q: nat, m: nat)
    requires m > 0
    ensures (x + q * m) % m == x % m
  {
    var r := x % m;
    assert x + q * m == (x / m + q) * m + r;
    DivModUnique(x + q * m, m, x / m + q, r);
  }

  /** Page lpn + nr is the next page of its partition after lpn. */
  lemma NextOfPart(g: Geo, ts: Tables, i: nat, s: nat, lpn: nat)
    requires i < |ts| && s <= lpn && Part(lpn, |ts|) == i
    ensures Part(lpn + |ts|, |ts|) == i && lpn !in ReadableIn(g, ts, i, s, lpn)
    ensures ReadableIn(g, ts, i, s, lpn + |ts|) ==
            ReadableIn(g, ts, i, s, lpn) + if Readable(g, ts[i], Local(lpn, |ts|)) then {lpn} else {}
  {
    ModShift(lpn, 1, |ts|);
    forall l: nat | lpn <= l < lpn + |ts| && Part(l, |ts|) == i ensures l == lpn { NoneBetween(lpn, l, |ts|); }
  }

  lemma PastLast(g: Geo, ts: Tables, i: nat, s: nat, lpn: nat, last: nat)
    requires i < |ts| && Part(lpn, |ts|) == i && last < lpn <= last + |ts|
    ensures ReadableIn(g, ts, i, s, lpn) == ReadableIn(g, ts, i, s, last + 1)
  {
    forall l: nat | last < l < lpn ensures Part(l, |ts|) != i {
      if Part(l, |ts|) == i { NoneBetween(l, lpn, |ts|); }
    }
  }

  /** Nothing read before the first page. */
  lemma GatherNone(g: Geo, ts: Tables, i: nat, s: nat, prev: Option<Ppa>)
    requires g.pgsPerFlashpg > 0 && i < |ts|
    ensures Gathering(g, ts, i, s, s, [], [], {}, prev, {})
  {}

  lemma NoReads(g: Geo, ts: Tables, s: nat, e: nat)
    requires g.pgsPerFlashpg > 0
    ensures Reads(g, ts, [], [], ReadableUpTo(g, ts, s, e, 0))
  {
    assert ReadableUpTo(g, ts, s, e, 0) == {};
  }

  lemma GatherSkip(g: Geo, ts: Tables, i: nat, s: nat, lpn: nat, rs: seq<NandRead>, gs: seq<set<nat>>, d: set<nat>,
      prev: Option<Ppa>, group: set<nat>)
    requires g.pgsPerFlashpg > 0 && i < |ts| && s <= lpn && Part(lpn, |ts|) == i
    requires Gathering(g, ts, i, s, lpn, rs, gs, d, prev, group) && !Readable(g, ts[i], Local(lpn, |ts|))
    ensures Gathering(g, ts, i, s, lpn + |ts|, rs, gs, d, prev, group)
  {
    hide Reads, Serves, Readable, Part;
    NextOfPart(g, ts, i, s, lpn);
  }

  /** Page lpn is in the flash page of the read in the making. */
  lemma GatherJoin(g: Geo, ts: Tables, i: nat, s: nat, lpn: nat, rs: seq<NandRead>, gs: seq<set<nat>>, d: set<nat>,
      prev: Ppa, group: set<nat>)
    requires g.pgsPerFlashpg > 0 && i < |ts| && s <= lpn && Part(lpn, |ts|) == i
    requires Gathering(g, ts, i, s, lpn, rs, gs, d, Some(prev), group) && Readable(g, ts[i], Local(lpn, |ts|))
    requires SameFlashPage(g, ts[i][Local(lpn, |ts|)].value, prev)
    ensures |group + {lpn}| == |group| + 1
    ensures Gathering(g, ts, i, s, lpn + |ts|, rs, gs, d, Some(prev), group + {lpn})
  {
    hide Reads, Readable, Part, Local, Geo.ValidPpa;
    NextOfPart(g, ts, i, s, lpn);
    assert lpn !in group;
  }

  /** The read in the making is issued. */
  lemma GatherIssue(g: Geo, ts: Tables, i: nat, s: nat, lpn: nat, rs: seq<NandRead>, gs: seq<set<nat>>, d: set<nat>,
      prev: Ppa, group: set<nat>)
    requires g.pgsPerFlashpg > 0 && i < |ts| && group != {}
    requires Gathering(g, ts, i, s, lpn, rs, gs, d, Some(prev), group)
    ensures Gathering(g, ts, i, s, lpn, rs + [NandRead(i, prev, PGSZ * |group|)], gs + [group], d + group,
      Some(prev), {})
  {
    hide Reads, Serves, Readable, Part, Local, SameFlashPage;
    OneMoreRead(g, ts, rs, gs, d, NandRead(i, prev, PGSZ * |group|), group);
  }

  /** With no read in the making, page lpn begins one. */
  lemma GatherBegin(g: Geo, ts: Tables, i: nat, s: nat, lpn: nat, rs: seq<NandRead>, gs: seq<set<nat>>, d: set<nat>,
      prev: Option<Ppa>)
    requires g.pgsPerFlashpg > 0 && i < |ts| && s <= lpn && Part(lpn, |ts|) == i
    requires Gathering(g, ts, i, s, lpn, rs, gs, d, prev, {}) && Readable(g, ts[i], Local(lpn, |ts|))
    ensures Gathering(g, ts, i, s, lpn + |ts|, rs, gs, d, ts[i][Local(lpn, |ts|)], {lpn})
  {
    hide Reads, Part, Local;
    NextOfPart(g, ts, i, s, lpn);
  }

  // ---------- Order and size of the reads ----------

  ghost predicate Ascending(gs: seq<set<nat>>) {
    forall k, l, a, b :: 0 <= k < l < |gs| && a in gs[k] && b in gs[l] ==> a < b
  }

  /** The reads of one partition so far: the pages ascend, and the read in the making, of the
      flash page of prev, is of another flash page than the last one issued. */
  ghost predicate Tidy(g: Geo, i: nat, rs: seq<NandRead>, gs: seq<set<nat>>, prev: Option<Ppa>, group: set<nat>)
    requires g.pgsPerFlashpg > 0
  {
    && |rs| == |gs| && Ascending(gs + [group]) && Separate(g, rs) && (forall k :: 0 <= k < |rs| ==> rs[k].part == i)
    && (rs != [] ==> group != {} && prev.Some? && !SameFlashPage(g, prev.value, rs[|rs| - 1].ppa))
  }

  lemma TidyNone(g: Geo, i: nat, prev: Option<Ppa>)
    requires g.pgsPerFlashpg > 0
    ensures Tidy(g, i, [], [], prev, {})
  {}

  lemma TidyJoin(g: Geo, i: nat, rs: seq<NandRead>, gs: seq<set<nat>>, prev: Option<Ppa>, group: set<nat>, lpn: nat)
    requires g.pgsPerFlashpg > 0 && Tidy(g, i, rs, gs, prev, group) && forall a :: a in Union(gs) ==> a < lpn
    ensures Tidy(g, i, rs, gs, prev, group + {lpn})
  {
    hide Union, Separate, SameFlashPage;
    UnionHas(gs);
    var gs', h := gs + [group], gs + [group + {lpn}];
    forall k, l, a, b | 0 <= k < l < |h| && a in h[k] && b in h[l] ensures a < b {
      assert a in gs[k] && a in gs'[k] && a in Union(gs);
      if b in gs'[l] { assert a < b; }
    }
  }

  /** Issuing the read in the making, before one of another flash page begins. */
  lemma TidyNext(g: Geo, i: nat, rs: seq<NandRead>, gs: seq<set<nat>>, prev: Ppa, group: set<nat>, cur: Ppa, lpn: nat,
      bytes: nat)
    requires g.pgsPerFlashpg > 0 && Tidy(g, i, rs, gs, Some(prev), group) && !SameFlashPage(g, cur, prev)
    requires (forall a :: a in Union(gs) ==> a < lpn) && forall a :: a in group ==> a < lpn
    ensures Tidy(g, i, rs + [NandRead(i, prev, bytes)], gs + [group], Some(cur), {lpn})
  {
    TidyIssue(g, i, rs, gs, prev, group, bytes);
    hide Union, Separate, SameFlashPage;
    UnionHas(gs);
    var gs', h := gs + [group], gs + [group] + [{lpn}];
    forall k, l, a, b | 0 <= k < l < |h| && a in h[k] && b in h[l] ensures a < b {
      if l < |gs'| { assert a in gs'[k] && b in gs'[l]; } else if k < |gs| { assert a in gs[k] && a in Union(gs); }
    }
  }

  lemma TidyIssue(g: Geo, i: nat, rs: seq<NandRead>, gs: seq<set<nat>>, prev: Ppa, group: set<nat>, bytes: nat)
    requires g.pgsPerFlashpg > 0 && Tidy(g, i, rs, gs, Some(prev), group)
    ensures Separate(g, rs + [NandRead(i, prev, bytes)]) && Ascending(gs + [group])
    ensures forall k :: 0 <= k <= |rs| ==> (rs + [NandRead(i, prev, bytes)])[k].part == i
  {}

  lemma TidyFirst(g: Geo, i: nat, rs: seq<NandRead>, gs: seq<set<nat>>, prev: Option<Ppa>, cur: Option<Ppa>, lpn: nat)
    requires g.pgsPerFlashpg > 0 && Tidy(g, i, rs, gs, prev, {}) && rs == []
    ensures Tidy(g, i, rs, gs, cur, {lpn})
  {}

  lemma TidyDone(g: Geo, i: nat, rs: seq<NandRead>, gs: seq<set<nat>>, prev: Option<Ppa>, group: set<nat>)
    requires g.pgsPerFlashpg > 0 && Tidy(g, i, rs, gs, prev, group)
    ensures Separate(g, rs) && Ascending(gs) && forall k :: 0 <= k < |rs| ==> rs[k].part == i
  {
    hide Separate, SameFlashPage;
    var gs' := gs + [group];
    forall k, l, a, b | 0 <= k < l < |gs| && a in gs[k] && b in gs[l] ensures a < b {
      assert a in gs'[k] && b in gs'[l];
    }
  }

  /** Nothing that has been gathered lies ahead of the loop. */
  lemma GatheredBelow(g: Geo, ts: Tables, i: nat, s: nat, lpn: nat, rs: seq<NandRead>, gs: seq<set<nat>>, d: set<nat>,
      prev: Option<Ppa>, group: set<nat>)
    requires g.pgsPerFlashpg > 0 && i < |ts| && Gathering(g, ts, i, s, lpn, rs, gs, d, prev, group)
    ensures (forall a :: a in Union(gs) ==> a < lpn) && forall a :: a in group ==> a < lpn
  {
    hide Serves, Union, Readable, Part, Local;
    forall a | a in Union(gs) ensures a < lpn { assert a in ReadableIn(g, ts, i, s, lpn); }
    forall a | a in group ensures a < lpn { assert a in ReadableIn(g, ts, i, s, lpn); }
  }

  // ---------- All partitions ----------

  /** How many partitions page lpn's is after that of page s. */
  function Stride(s: nat, lpn: nat, nr: nat): nat
    requires nr > 0 && s <= lpn
  {
    (lpn - s) % nr
  }

  /** The readable pages of [s, e) in the first k of the partitions, counted from that of page s. */
  ghost function ReadableUpTo(g: Geo, ts: Tables, s: nat, e: nat, k: nat): set<nat> {
    set lpn: nat | s <= lpn < e && Stride(s, lpn, |ts|) < k && Readable(g, ts[Part(lpn, |ts|)], Local(lpn, |ts|))
  }

  /** All readable pages of [s, e). */
  ghost function AllReadable(g: Geo, ts: Tables, s: nat, e: nat): set<nat> {
    set lpn: nat | s <= lpn < e && Readable(g, ts[Part(lpn, |ts|)], Local(lpn, |ts|))
  }

  lemma StrideIs(s: nat, k: nat, lpn: nat, nr: nat)
    requires nr > 0 && k < nr && s <= lpn
    ensures Stride(s, lpn, nr) == k <==> s + k <= lpn && lpn % nr == (s + k) % nr
  {
    var q := (lpn - s) / nr;
    if Stride(s, lpn, nr) == k {
      assert lpn == s + k + q * nr;
      ModShift(s + k, q, nr);
    }
    if s + k <= lpn && lpn % nr == (s + k) % nr {
      var d := lpn / nr - (s + k) / nr;
      assert d * nr == lpn - (s + k);
      if d <= -1 { MulMono(d, -1, nr); }
      DivModUnique(lpn - s, nr, d, k);
    }
  }

  /** One partition more. */
  lemma OneMorePart(g: Geo, ts: Tables, s: nat, e: nat, k: nat)
    requires k < |ts|
    ensures ReadableUpTo(g, ts, s, e, k + 1) ==
            ReadableUpTo(g, ts, s, e, k) + ReadableIn(g, ts, Part(s + k, |ts|), s + k, e)
    ensures ReadableUpTo(g, ts, s, e, k) !! ReadableIn(g, ts, Part(s + k, |ts|), s + k, e)
  {
    forall lpn: nat | s <= lpn < e
      ensures Stride(s, lpn, |ts|) == k <==> s + k <= lpn && Part(lpn, |ts|) == Part(s + k, |ts|)
    {
      StrideIs(s, k, lpn, |ts|);
    }
  }

  lemma EveryPart(g: Geo, ts: Tables, s: nat, e: nat, k: nat)
    requires k >= |ts| || s + k >= e
    ensures ReadableUpTo(g, ts, s, e, k) == AllReadable(g, ts, s, e)
  {
    forall lpn: nat | s <= lpn < e ensures Stride(s, lpn, |ts|) < k {
      ModLe(lpn - s, |ts|);
    }
  }

  lemma ModLe(x: nat, m: nat)
    requires m > 0
    ensures x % m <= x && x % m < m
  {
    assert x == (x / m) * m + x % m;
    MulMono(0, x / m, m);
  }

  /** The reads of one partition more follow the others, and are not of their partitions. */
  lemma OrderedJoin(s: nat, nr: nat, k: nat, gs: seq<set<nat>>, gs': seq<set<nat>>)
    requires nr > 0 && Ordered(s, nr, gs) && Ascending(gs')
    requires forall a :: a in Union(gs) ==> a >= s && Stride(s, a, nr) < k
    requires forall b :: b in Union(gs') ==> b >= s && Stride(s, b, nr) == k
    ensures Ordered(s, nr, gs + gs')
  {
    hide Union;
    UnionHas(gs);
    UnionHas(gs');
    var h := gs + gs';
    forall i, j, a, b | 0 <= i < j < |h| && a in h[i] && b in h[j]
      ensures (a - s) % nr < (b - s) % nr || ((a - s) % nr == (b - s) % nr && a < b)
    {
      if j < |gs| {
        assert a in gs[i] && b in gs[j];
      } else {
        assert b in gs'[j - |gs|] && b in Union(gs') && Stride(s, b, nr) == k;
        if i < |gs| {
          assert a in gs[i] && a in Union(gs) && Stride(s, a, nr) < k;
        } else {
          assert a in gs'[i - |gs|] && a in Union(gs') && Stride(s, a, nr) == k;
        }
      }
    }
  }

  lemma StridesOf(g: Geo, ts: Tables, s: nat, e: nat, k: nat, d: set<nat>)
    requires k < |ts| && d == ReadableIn(g, ts, Part(s + k, |ts|), s + k, e)
    ensures forall a :: a in ReadableUpTo(g, ts, s, e, k) ==> a >= s && Stride(s, a, |ts|) < k
    ensures forall b :: b in d ==> b >= s && Stride(s, b, |ts|) == k
  {
    hide Readable, Local;
    forall b | b in d ensures b >= s && Stride(s, b, |ts|) == k {
      StrideIs(s, k, b, |ts|);
    }
  }

  /** The k-th partition from that of page s on. */
  function PartFrom(s: nat, k: nat, nr: nat): nat
    requires nr > 0
  {
    Part(s + k, nr)
  }

  /** No read is of the k-th partition from that of page s on, or of a later one. */
  ghost predicate NoneFrom(rs: seq<NandRead>, s: nat, k: nat, nr: nat)
    requires nr > 0
  {
    forall i, j: nat :: 0 <= i < |rs| && k <= j < nr ==> rs[i].part != PartFrom(s, j, nr)
  }

  lemma NoneOrdered(g: Geo, s: nat, nr: nat)
    requires g.pgsPerFlashpg > 0 && nr > 0
    ensures Ordered(s, nr, []) && Separate(g, []) && NoneFrom([], s, 0, nr)
  {}

  lemma ReadsUnion(g: Geo, ts: Tables, rs: seq<NandRead>, gs: seq<set<nat>>, d: set<nat>)
    requires g.pgsPerFlashpg > 0 && Reads(g, ts, rs, gs, d)
    ensures Union(gs) == d
  {}

  lemma SeparateJoin(g: Geo, s: nat, k: nat, nr: nat, rs: seq<NandRead>, rs': seq<NandRead>)
    requires g.pgsPerFlashpg > 0 && k < nr && Separate(g, rs) && Separate(g, rs') && NoneFrom(rs, s, k, nr)
    requires forall i :: 0 <= i < |rs'| ==> rs'[i].part == Part(s + k, nr)
    ensures Separate(g, rs + rs') && NoneFrom(rs + rs', s, k + 1, nr)
  {
    hide Part, Separate;
    forall j: nat | k < j < nr ensures PartFrom(s, k, nr) != PartFrom(s, j, nr) { PartsDiffer(s, k, j, nr); }
    assert PartFrom(s, k, nr) == Part(s + k, nr);
    SeparateAppend(g, rs, rs');
  }

  lemma PartsDiffer(s: nat, k: nat, j: nat, nr: nat)
    requires k < j < nr
    ensures PartFrom(s, k, nr) != PartFrom(s, j, nr)
  {
    if PartFrom(s, k, nr) == PartFrom(s, j, nr) { NoneBetween(s + k, s + j, nr); }
  }

  lemma SeparateAppend(g: Geo, rs: seq<NandRead>, rs': seq<NandRead>)
    requires g.pgsPerFlashpg > 0 && Separate(g, rs) && Separate(g, rs')
    requires rs != [] && rs' != [] ==> rs[|rs| - 1].part != rs'[0].part
    ensures Separate(g, rs + rs')
  {
    var r := rs + rs';
    forall k, l | 0 <= k < |r| && l == k + 1 < |r| && r[k].part == r[l].part
      ensures var p, q := r[k].ppa, r[l].ppa;
        p.ch != q.ch || p.lun != q.lun || p.blk != q.blk || p.pg / g.pgsPerFlashpg != q.pg / g.pgsPerFlashpg
    {
      if k >= |rs| { assert r[k] == rs'[k - |rs|] && r[l] == rs'[l - |rs|]; }
    }
  }

  /** Reads of disjoint sets of pages, one after the other. */
  lemma {:induction false} ReadsJoin(g: Geo, ts: Tables, rs: seq<NandRead>, gs: seq<set<nat>>, d: set<nat>,
      rs': seq<NandRead>, gs': seq<set<nat>>, d': set<nat>)
    requires g.pgsPerFlashpg > 0 && Reads(g, ts, rs, gs, d) && Reads(g, ts, rs', gs', d') && d !! d'
    ensures Reads(g, ts, rs + rs', gs + gs', d + d')
    decreases |rs'|, 1
  {
    hide Serves;
    if rs' == [] {
      assert rs + rs' == rs && gs + gs' == gs && d + d' == d;
    } else {
      ReadsJoinStep(g, ts, rs, gs, d, rs', gs', d');
    }
  }

  lemma ReadsJoinStep(g: Geo, ts: Tables, rs: seq<NandRead>, gs: seq<set<nat>>, d: set<nat>,
      rs': seq<NandRead>, gs': seq<set<nat>>, d': set<nat>)
    requires g.pgsPerFlashpg > 0 && Reads(g, ts, rs, gs, d) && Reads(g, ts, rs', gs', d') && d !! d' && rs' != []
    ensures Reads(g, ts, rs + rs', gs + gs', d + d')
    decreases |rs'|, 0
  {
    hide Reads, Serves, Union;
    var n := |rs'| - 1;
    ReadsInit(g, ts, rs', gs', d');
    var d1 := Union(gs'[..n]);
    ReadsJoin(g, ts, rs, gs, d, rs'[..n], gs'[..n], d1);
    OneMoreRead(g, ts, rs + rs'[..n], gs + gs'[..n], d + d1, rs'[n], gs'[n]);
    assert rs + rs'[..n] + [rs'[n]] == rs + rs' && gs + gs'[..n] + [gs'[n]] == gs + gs' && d + d1 + gs'[n] == d + d';
  }

  lemma ReadsInit(g: Geo, ts: Tables, rs: seq<NandRead>, gs: seq<set<nat>>, d: set<nat>)
    requires g.pgsPerFlashpg > 0 && Reads(g, ts, rs, gs, d) && rs != []
    ensures var n := |rs| - 1;
      && |gs| == |rs| && Reads(g, ts, rs[..n], gs[..n], Union(gs[..n])) && Union(gs[..n]) !! gs[n]
      && Serves(g, ts, rs[n], gs[n]) && Union(gs[..n]) + gs[n] == d
  {
    hide Serves, Bytes, Union;
    var n := |rs| - 1;
    UnionLast(gs);
    BytesLast(rs);
    ServedBytes(g, ts, rs[n], gs[n]);
    assert |Union(gs[..n]) + gs[n]| == |Union(gs[..n])| + |gs[n]|;
  }

  lemma UnionLast(gs: seq<set<nat>>)
    requires gs != [] && forall k, l :: 0 <= k < l < |gs| ==> gs[k] !! gs[l]
    ensures var n := |gs| - 1; Union(gs[..n]) !! gs[n] && Union(gs[..n]) + gs[n] == Union(gs)
  {
    var n := |gs| - 1;
    UnionHas(gs[..n]);
  }

  lemma BytesLast(rs: seq<NandRead>)
    requires rs != []
    ensures Bytes(rs) == Bytes(rs[..|rs| - 1]) + rs[|rs| - 1].bytes
  {}

  /** The reads of one partition more: everything that holds of the reads issued so far. */
  lemma PartJoined(g: Geo, ts: Tables, s: nat, e: nat, k: nat, rs: seq<NandRead>, gs: seq<set<nat>>,
      rs': seq<NandRead>, gs': seq<set<nat>>)
    requires g.pgsPerFlashpg > 0 && k < |ts| && Reads(g, ts, rs, gs, ReadableUpTo(g, ts, s, e, k))
    requires Ordered(s, |ts|, gs) && Separate(g, rs) && NoneFrom(rs, s, k, |ts|)
    requires Reads(g, ts, rs', gs', ReadableIn(g, ts, Part(s + k, |ts|), s + k, e)) && Ascending(gs')
    requires Separate(g, rs') && forall i :: 0 <= i < |rs'| ==> rs'[i].part == Part(s + k, |ts|)
    ensures Reads(g, ts, rs + rs', gs + gs', ReadableUpTo(g, ts, s, e, k + 1))
    ensures Ordered(s, |ts|, gs + gs') && Separate(g, rs + rs') && NoneFrom(rs + rs', s, k + 1, |ts|)
  {
    hide Part, Reads, ReadableUpTo, ReadableIn, Ordered, Ascending, Separate, NoneFrom, Union;
    var d, d' := ReadableUpTo(g, ts, s, e, k), ReadableIn(g, ts, Part(s + k, |ts|), s + k, e);
    OneMorePart(g, ts, s, e, k);
    ReadsJoin(g, ts, rs, gs, d, rs', gs', d');
    StridesOf(g, ts, s, e, k, d');
    ReadsUnion(g, ts, rs, gs, d);
    ReadsUnion(g, ts, rs', gs', d');
    OrderedJoin(s, |ts|, k, gs, gs');
    SeparateJoin(g, s, k, |ts|, rs, rs');
  }

  // ---------- How large one read can be ----------

  lemma {:induction false} PagesOfCard(b: Block, from: nat, n: nat)
    ensures |PagesOf(b, from, from + n)| == n
  {
    if n == 0 {
      assert PagesOf(b, from, from) == {};
    } else {
      PagesOfCard(b, from, n - 1);
      assert PagesOf(b, from, from + n) == PagesOf(b, from, from + n - 1) + {Ppa(b.ch, b.lun, b.blk, from + n - 1)};
    }
  }

  /** Logical pages with pages of their own are no more than the pages. */
  lemma {:induction false} OwnPages(maptbl: seq<Option<Ppa>>, nr: nat, group: set<nat>, pages: set<Ppa>)
    requires nr > 0
    requires forall lpn :: lpn in group ==>
      Local(lpn, nr) < |maptbl| && maptbl[Local(lpn, nr)].Some? && maptbl[Local(lpn, nr)].value in pages
    requires forall a, b :: a in group && b in group && maptbl[Local(a, nr)] == maptbl[Local(b, nr)] ==> a == b
    ensures |group| <= |pages|
    decreases |group|
  {
    if group != {} {
      var lpn :| lpn in group;
      var p := maptbl[Local(lpn, nr)].value;
      OwnPages(maptbl, nr, group - {lpn}, pages - {p});
    }
  }

  /** As maptbl is injective, no read takes more pages than a flash page has. */
  lemma ReadBound(g: Geo, s: State, ts: Tables, r: NandRead, group: set<nat>)
    requires Quiescent(g, s) && g.pgsPerFlashpg > 0 && Serves(g, ts, r, group) && ts[r.part] == s.m.maptbl
    ensures |group| <= g.pgsPerFlashpg && r.bytes <= PGSZ * g.pgsPerFlashpg
  {
    hide Inv, Part, Local, Geo.ValidPpa;
    var f := r.ppa.pg / g.pgsPerFlashpg;
    var pages := PagesOf(BlockOf(r.ppa), f * g.pgsPerFlashpg, f * g.pgsPerFlashpg + g.pgsPerFlashpg);
    forall lpn | lpn in group ensures ts[r.part][Local(lpn, |ts|)].value in pages {
      var p := ts[r.part][Local(lpn, |ts|)].value;
      InFlashpg(p.pg, g.pgsPerFlashpg, f);
      PagesOfIs(BlockOf(r.ppa), f * g.pgsPerFlashpg, f * g.pgsPerFlashpg + g.pgsPerFlashpg, p);
    }
    forall a, b | a in group && b in group && s.m.maptbl[Local(a, |ts|)] == s.m.maptbl[Local(b, |ts|)] ensures a == b {
      MappingInjective(g, s, Local(a, |ts|), Local(b, |ts|));
      OwnPage(|ts|, a, b);
    }
    OwnPages(s.m.maptbl, |ts|, group, pages);
    PagesOfCard(BlockOf(r.ppa), f * g.pgsPerFlashpg, g.pgsPerFlashpg);
  }

  /** The mapped logical pages lpn with s <= lpn < e. */
  ghost function MappedPages(ts: Tables, s: nat, e: nat): set<nat> {
    set lpn: nat | s <= lpn < e && Local(lpn, |ts|) < |ts[Part(lpn, |ts|)]|
        && ts[Part(lpn, |ts|)][Local(lpn, |ts|)].Some?
  }

  /** Under the invariant the readable pages are the mapped ones. */
  lemma MappedReadable(g: Geo, s: State, n: nat)
    requires Quiescent(g, s) && n < |s.m.maptbl|
    ensures Readable(g, s.m.maptbl, n) <==> s.m.maptbl[n].Some?
  {}

  // ---------- The loop over one partition ----------

  /** The inner loop of conv_read: pages start, start + parts, ... up to last, whose partition's
      table is maptbl. Neighbours in one flash page share a read. */
  method ReadPart(g: Geo, maptbl: seq<Option<Ppa>>, start: nat, last: nat, ghost ts: Tables, nrParts: nat)
      returns (rs: seq<NandRead>, ghost gs: seq<set<nat>>)
    requires g.pgsPerFlashpg > 0 && start <= last && nrParts == |ts|
    requires ts[Part(start, nrParts)] == maptbl && Local(last, nrParts) < |maptbl|
    ensures Reads(g, ts, rs, gs, ReadableIn(g, ts, Part(start, nrParts), start, last + 1))
    ensures Bytes(rs) == PGSZ * |ReadableIn(g, ts, Part(start, nrParts), start, last + 1)|
    ensures Ascending(gs) && Separate(g, rs) && forall k :: 0 <= k < |rs| ==> rs[k].part == Part(start, nrParts)
  {
    hide Gathering, Reads, Serves, ReadableIn, Part, Local, SameFlashPage, Geo.ValidPpa, Tidy, Ascending, Separate,
      Union;
    var i := Part(start, nrParts);
    LocalMono(start, last, nrParts);
    var prev := maptbl[Local(start, nrParts)];
    var xferSize := 0;
    ghost var d, group: set<nat> := {}, {};
    rs, gs := [], [];
    GatherNone(g, ts, i, start, prev);
    TidyNone(g, i, prev);
    var lpn := start;
    while lpn <= last
      invariant start <= lpn <= last + nrParts && Part(lpn, nrParts) == i
      invariant xferSize == PGSZ * |group| && (group != {} ==> prev.Some?)
      invariant Gathering(g, ts, i, start, lpn, rs, gs, d, prev, group) && Tidy(g, i, rs, gs, prev, group)
      invariant rs != [] ==> group != {}
    {
      GatheredBelow(g, ts, i, start, lpn, rs, gs, d, prev, group);
      LocalMono(lpn, last, nrParts);
      NextOfPart(g, ts, i, start, lpn);
      var cur := maptbl[Local(lpn, nrParts)];
      if cur.None? || !g.ValidPpa(cur.value) {
        GatherSkip(g, ts, i, start, lpn, rs, gs, d, prev, group);
      } else if prev.Some? && SameFlashPage(g, cur.value, prev.value) {
        GatherJoin(g, ts, i, start, lpn, rs, gs, d, prev.value, group);
        TidyJoin(g, i, rs, gs, prev, group, lpn);
        xferSize := xferSize + PGSZ;
        group := group + {lpn};
      } else {
        if xferSize > 0 {
          GatherIssue(g, ts, i, start, lpn, rs, gs, d, prev.value, group);
          TidyNext(g, i, rs, gs, prev.value, group, cur.value, lpn, xferSize);
          rs, gs, d := rs + [NandRead(i, prev.value, xferSize)], gs + [group], d + group;
        } else {
          TidyFirst(g, i, rs, gs, prev, cur, lpn);
        }
        GatherBegin(g, ts, i, start, lpn, rs, gs, d, prev);
        xferSize, prev, group := PGSZ, cur, {lpn};
      }
      lpn := lpn + nrParts;
    }
    PastLast(g, ts, i, start, lpn, last);
    TidyDone(g, i, rs, gs, prev, group);
    if xferSize > 0 {
      GatherIssue(g, ts, i, start, lpn, rs, gs, d, prev.value, group);
      TidyIssue(g, i, rs, gs, prev.value, group, xferSize);
      rs, gs, d := rs + [NandRead(i, prev.value, xferSize)], gs + [group], d + group;
    }
    GatherDone(g, ts, i, start, lpn, rs, gs, d, prev);
  }

  lemma GatherDone(g: Geo, ts: Tables, i: nat, s: nat, lpn: nat, rs: seq<NandRead>, gs: seq<set<nat>>, d: set<nat>,
      prev: Option<Ppa>)
    requires g.pgsPerFlashpg > 0 && i < |ts| && Gathering(g, ts, i, s, lpn, rs, gs, d, prev, {})
    ensures Reads(g, ts, rs, gs, ReadableIn(g, ts, i, s, lpn))
    ensures Bytes(rs) == PGSZ * |ReadableIn(g, ts, i, s, lpn)|
  {
    assert d + {} == d;
  }
}
