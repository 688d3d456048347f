/** Logical pages striped over the partitions of a namespace: page lpn is page lpn / parts of
    partition lpn % parts. */
module Striping {
  import opened Wrappers
  import opened Radix
  import opened FtlState
  import opened WriteBuffer

  // ---------- The namespace as a value ----------

  /** The partition that holds logical page lpn. */
  function Part(lpn: nat, nr: nat): (i: nat)
    requires nr > 0
    ensures i < nr
  {
    lpn % nr
  }

  /** The page number of logical page lpn in its partition. */
  function Local(lpn: nat, nr: nat): nat
    requires nr > 0
  {
    lpn / nr
  }

  /** What logical page lpn reads back. */
  function NsLookup(ms: seq<Mapping>, lpn: nat): Option<int>
    requires |ms| > 0 && Local(lpn, |ms|) < |ms[Part(lpn, |ms|)].maptbl|
  {
    Lookup(ms[Part(lpn, |ms|)], Local(lpn, |ms|))
  }

  ghost predicate AllSized(ms: seq<Mapping>, n: nat) {
    |ms| > 0 && forall i :: 0 <= i < |ms| ==> |ms[i].maptbl| == n
  }

  /** Logical pages [s, e) hold xs, and all others what they held before. */
  ghost predicate RangeWritten(ms: seq<Mapping>, ms': seq<Mapping>, n: nat, s: nat, e: nat, xs: seq<int>) {
    && AllSized(ms, n) && AllSized(ms', n) && |ms'| == |ms| && s <= e && e - s <= |xs|
    && forall lpn: nat :: Local(lpn, |ms|) < n ==>
         NsLookup(ms', lpn) == if s <= lpn < e then Some(xs[lpn - s]) else NsLookup(ms, lpn)
  }

  /** The pages lie in rows across the partitions: page lpn is in row Local and column Part. */
  lemma Rows(nr: nat, row: nat, column: nat)
    requires column < nr
    ensures Part(row * nr + column, nr) == column && Local(row * nr + column, nr) == row
  {
    DivModUnique(row * nr + column, nr, row, column);
  }

  lemma OwnPage(nr: nat, lpn: nat, lpn': nat)
    requires nr > 0 && Part(lpn, nr) == Part(lpn', nr) && Local(lpn, nr) == Local(lpn', nr)
    ensures lpn == lpn'
  {}

  /** Writing the next logical page in its partition extends the range. */
  lemma RangeGrows(ms: seq<Mapping>, ms1: seq<Mapping>, m2: Mapping, n: nat, s: nat, e: nat, xs: seq<int>)
    requires RangeWritten(ms, ms1, n, s, e, xs) && e - s < |xs|
    requires Writes(ms1[Part(e, |ms|)], m2, Local(e, |ms|), xs[e - s])
    ensures RangeWritten(ms, ms1[Part(e, |ms|) := m2], n, s, e + 1, xs)
  {
    var ms2 := ms1[Part(e, |ms|) := m2];
    forall lpn: nat | Local(lpn, |ms|) < n
      ensures NsLookup(ms2, lpn) == if s <= lpn < e + 1 then Some(xs[lpn - s]) else NsLookup(ms, lpn)
    {
      var i, k: nat := Part(lpn, |ms|), Local(lpn, |ms|);
      assert NsLookup(ms1, lpn) == Lookup(ms1[i], k);
      assert NsLookup(ms2, lpn) == Lookup(ms2[i], k);
      if i == Part(e, |ms|) && k == Local(e, |ms|) { OwnPage(|ms|, lpn, e); }
    }
  }

  function Sum(s: seq<nat>): nat {
    if s == [] then 0 else s[0] + Sum(s[1..])
  }

  lemma {:induction false} SumUpdate(s: seq<nat>, i: nat, x: nat)
    requires i < |s|
    ensures Sum(s[i := x]) == Sum(s) - s[i] + x
  {
    if i == 0 {
      assert s[0 := x][1..] == s[1..];
    } else {
      SumUpdate(s[1..], i - 1, x);
      assert s[i := x][1..] == s[1..][i - 1 := x];
    }
  }

  lemma {:induction false} SumBound(s: seq<nat>, b: nat)
    requires forall i :: 0 <= i < |s| ==> s[i] <= b
    ensures Sum(s) <= |s| * b
  {
    if s != [] {
      SumBound(s[1..], b);
      assert |s| * b == |s[1..]| * b + b;
    }
  }

  /** How many of the logical pages [s, e) are in partition i. */
  function PagesIn(i: nat, nr: nat, s: nat, e: nat): nat
    requires nr > 0
  {
    if e <= s then 0 else PagesIn(i, nr, s, e - 1) + if Part(e - 1, nr) == i then 1 else 0
  }

  /** Pages that a request of nlb blocks from slba touches. */
  function FirstPage(slba: nat): nat { slba / SECS_PER_PG }

  function PagesTouched(slba: nat, nlb: nat): nat
    requires nlb >= 1
  {
    (slba + nlb - 1) / SECS_PER_PG + 1 - slba / SECS_PER_PG
  }

  /** The pages of a request are those that hold its first block, its last, and all between. */
  lemma FirstToLast(slba: nat, nlb: nat)
    requires nlb >= 1
    ensures 8 * FirstPage(slba) <= slba < 8 * FirstPage(slba) + 8
    ensures var last := FirstPage(slba) + PagesTouched(slba, nlb) - 1; 8 * last <= slba + nlb - 1 < 8 * last + 8
  {}

  /** A request never covers more bytes than its pages hold, and as many only when it is
      page-aligned at both ends. */
  lemma PagesHold(slba: nat, nlb: nat)
    requires nlb >= 1
    ensures LBA_SIZE * nlb <= PGSZ * PagesTouched(slba, nlb)
    ensures LBA_SIZE * nlb == PGSZ * PagesTouched(slba, nlb) <==> slba % SECS_PER_PG == 0 && nlb % SECS_PER_PG == 0
  {}

  lemma {:induction false} SumZero(s: seq<nat>)
    requires forall i :: 0 <= i < |s| ==> s[i] == 0
    ensures Sum(s) == 0
  {
    if s != [] { SumZero(s[1..]); }
  }

  lemma NothingWritten(ms: seq<Mapping>, n: nat, s: nat, xs: seq<int>)
    requires AllSized(ms, n)
    ensures RangeWritten(ms, ms, n, s, s, xs)
  {}

  lemma LocalMono(lpn: nat, last: nat, nr: nat)
    requires nr > 0 && lpn <= last
    ensures Local(lpn, nr) <= Local(last, nr)
  {
    if lpn / nr > last / nr { MulMono(last / nr + 1, lpn / nr, nr); }
  }
}
