/** Stores and retrieves of the key-value FTL (kv_ftl.c) with the append-only allocator: which
    runs of stores read back what was stored last. */
module KvStore {
  import opened Wrappers
  import opened KvTable

  const SMALL_LENGTH := 1024

  // ---------- Values ----------

  /** The device's storage: a value is read from length bytes at an offset. */
  type Storage = nat -> int

  function Write(mem: Storage, off: nat, data: seq<int>): Storage {
    (a: nat) => if off <= a < off + |data| then data[a - off] else mem(a)
  }

  function Read(mem: Storage, off: nat, length: nat): (r: seq<int>)
    ensures |r| == length && forall i :: 0 <= i < length ==> r[i] == mem(off + i)
  {
    seq(length, (i: nat) => mem(off + i))
  }

  /** What stores and retrieves depend on: the map that the table stands for, the first byte
      never allocated, and the storage. */
  datatype KvState = KvState(c: map<Key, Loc>, latest: nat, mem: Storage)

  function Start(mem: Storage): KvState { KvState(map[], 0, mem) }

  ghost function Value(s: KvState, k: Key): seq<int>
    requires k in s.c
  {
    Read(s.mem, s.c[k].offset, s.c[k].length)
  }

  // ---------- One store ----------

  /** Where a store of key k writes. */
  function Target(c: map<Key, Loc>, latest: nat, k: Key): nat {
    if k in c then c[k].offset else latest
  }

  /** Whether a store of n bytes under key k sets the key's length to n. */
  predicate LengthTaken(c: map<Key, Loc>, k: Key, n: nat) {
    k in c ==> n == c[k].length || (n <= SMALL_LENGTH && c[k].length <= SMALL_LENGTH)
  }

  /** The state after a store, which writes its data even where its length is refused. */
  function StoreStep(s: KvState, k: Key, data: seq<int>): KvState {
    KvState(
      if LengthTaken(s.c, k, |data|) then s.c[k := Loc(Target(s.c, s.latest, k), |data|)] else s.c,
      if k in s.c then s.latest else s.latest + |data|,
      Write(s.mem, Target(s.c, s.latest, k), data))
  }

  /** The bytes [off, off + n) hold no byte of the value at l. */
  predicate Clear(off: nat, n: nat, l: Loc) {
    n == 0 || l.length == 0 || off + n <= l.offset || l.offset + l.length <= off
  }

  /** A store of n bytes under key k is safe where its length is taken and it is written over
      no byte of another key's value. */
  ghost predicate Safe(c: map<Key, Loc>, latest: nat, k: Key, n: nat) {
    LengthTaken(c, k, n) && forall j :: j in c && j != k ==> Clear(Target(c, latest, k), n, c[j])
  }

  /** What a store is for: its key reads back the data, and every other key what it did. */
  ghost predicate Faithful(s: KvState, k: Key, data: seq<int>) {
    var t := StoreStep(s, k, data);
    && t.c.Keys == s.c.Keys + {k}
    && Value(t, k) == data
    && forall j :: j in s.c && j != k ==> j in t.c && Value(t, j) == Value(s, j)
  }

  lemma SafeIsFaithful(s: KvState, k: Key, data: seq<int>)
    requires Safe(s.c, s.latest, k, |data|)
    ensures Faithful(s, k, data)
  {
    var t := StoreStep(s, k, data);
    forall j | j in s.c && j != k ensures j in t.c && Value(t, j) == Value(s, j) {
      assert Clear(Target(s.c, s.latest, k), |data|, s.c[j]);
    }
  }

  /** A byte of key j's value that a store under key k writes. */
  lemma Overlap(c: map<Key, Loc>, latest: nat, k: Key, n: nat, j: Key) returns (i: nat)
    requires j in c && !Clear(Target(c, latest, k), n, c[j])
    ensures i < c[j].length && Target(c, latest, k) <= c[j].offset + i < Target(c, latest, k) + n
  {
    var off := Target(c, latest, k);
    i := if off <= c[j].offset then 0 else off - c[j].offset;
  }

  /** A store that is not safe goes wrong for all data that differs everywhere from what the
      storage holds. */
  lemma UnsafeIsNot(s: KvState, k: Key, data: seq<int>)
    requires !Safe(s.c, s.latest, k, |data|)
    requires forall a: nat, i :: 0 <= i < |data| && a == Target(s.c, s.latest, k) + i ==> data[i] != s.mem(a)
    ensures !Faithful(s, k, data)
  {
    var t := StoreStep(s, k, data);
    if LengthTaken(s.c, k, |data|) {
      var j :| j in s.c && j != k && !Clear(Target(s.c, s.latest, k), |data|, s.c[j]);
      var i := Overlap(s.c, s.latest, k, |data|, j);
      assert j in t.c && Value(t, j)[i] != Value(s, j)[i];
    }
  }

  /** The storage does not matter to what is safe: a store of n bytes is faithful whatever is
      stored if and only if it is safe. */
  lemma StoreExact(c: map<Key, Loc>, latest: nat, k: Key, n: nat)
    ensures Safe(c, latest, k, n)
            <==> forall mem: Storage, data: seq<int> :: |data| == n ==> Faithful(KvState(c, latest, mem), k, data)
  {
    if Safe(c, latest, k, n) {
      forall mem: Storage, data: seq<int> | |data| == n ensures Faithful(KvState(c, latest, mem), k, data) {
        SafeIsFaithful(KvState(c, latest, mem), k, data);
      }
    } else {
      var zeros: Storage := (a: nat) => 0;
      UnsafeIsNot(KvState(c, latest, zeros), k, seq(n, _ => 1));
    }
  }

  // ---------- Runs of stores ----------

  datatype Op = Op(key: Key, data: seq<int>)

  function Init(ops: seq<Op>): seq<Op>
    requires ops != []
  {
    ops[..|ops| - 1]
  }

  function Last(ops: seq<Op>): Op
    requires ops != []
  {
    ops[|ops| - 1]
  }

  function Run(s: KvState, ops: seq<Op>): KvState {
    if ops == [] then s else StoreStep(Run(s, Init(ops)), Last(ops).key, Last(ops).data)
  }

  /** What was stored last under key k. */
  function LastStored(ops: seq<Op>, k: Key): Option<seq<int>> {
    if ops == [] then None
    else if Last(ops).key == k then Some(Last(ops).data)
    else LastStored(Init(ops), k)
  }

  /** Each key that was stored reads back what was stored last, and no other key is there. */
  ghost predicate ReadsBack(s: KvState, ops: seq<Op>) {
    forall k :: if k in s.c then LastStored(ops, k) == Some(Value(s, k)) else LastStored(ops, k) == None
  }

  ghost predicate AlwaysReadsBack(s: KvState, ops: seq<Op>) {
    ReadsBack(Run(s, ops), ops) && (ops != [] ==> AlwaysReadsBack(s, Init(ops)))
  }

  /** Each store of the run is safe in the state that it finds. */
  ghost predicate AllSafe(s: KvState, ops: seq<Op>) {
    ops != [] ==>
      AllSafe(s, Init(ops)) && Safe(Run(s, Init(ops)).c, Run(s, Init(ops)).latest, Last(ops).key, |Last(ops).data|)
  }

  /** The same keys and lengths, with any data. */
  ghost predicate SameLengths(ops: seq<Op>, ops': seq<Op>) {
    |ops'| == |ops| && forall i :: 0 <= i < |ops| ==> ops'[i].key == ops[i].key && |ops'[i].data| == |ops[i].data|
  }

  lemma {:induction false} SafeRunReads(mem: Storage, ops: seq<Op>)
    requires AllSafe(Start(mem), ops)
    ensures AlwaysReadsBack(Start(mem), ops)
  {
    if ops != [] {
      SafeRunReads(mem, Init(ops));
      var s := Run(Start(mem), Init(ops));
      SafeIsFaithful(s, Last(ops).key, Last(ops).data);
    }
  }

  /** Offsets and lengths do not depend on the data. */
  lemma {:induction false} SameLayout(mem: Storage, mem': Storage, ops: seq<Op>, ops': seq<Op>)
    requires SameLengths(ops, ops')
    ensures Run(Start(mem), ops).c == Run(Start(mem'), ops').c
    ensures Run(Start(mem), ops).latest == Run(Start(mem'), ops').latest
    ensures AllSafe(Start(mem), ops) <==> AllSafe(Start(mem'), ops')
  {
    if ops != [] { SameLayout(mem, mem', Init(ops), Init(ops')); }
  }

  /** The run with every byte set to x. */
  function Filled(ops: seq<Op>, x: int): (r: seq<Op>)
    ensures |r| == |ops| && forall i :: 0 <= i < |ops| ==> r[i] == Op(ops[i].key, seq(|ops[i].data|, _ => x))
  {
    seq(|ops|, i requires 0 <= i < |ops| => Op(ops[i].key, seq(|ops[i].data|, _ => x)))
  }

  /** A run of zeros over zeros leaves only zeros. */
  lemma {:induction false} ZerosStay(ops: seq<Op>, a: nat)
    ensures Run(Start((_: nat) => 0), Filled(ops, 0)).mem(a) == 0
  {
    if ops != [] {
      assert Init(Filled(ops, 0)) == Filled(Init(ops), 0);
      ZerosStay(Init(ops), a);
    }
  }

  /** A run with an unsafe store does not always read back what was stored. */
  lemma {:induction false} UnsafeRunFails(ops: seq<Op>) returns (ops': seq<Op>)
    requires !AllSafe(Start((_: nat) => 0), ops)
    ensures SameLengths(ops, ops') && !AlwaysReadsBack(Start((_: nat) => 0), ops')
  {
    hide Safe, ReadsBack, Run;
    if !AllSafe(Start((_: nat) => 0), Init(ops)) {
      var init := UnsafeRunFails(Init(ops));
      ops' := init + [Last(ops)];
      assert Init(ops') == init;
    } else {
      ops' := Filled(Init(ops), 0) + [Op(Last(ops).key, seq(|Last(ops).data|, _ => 1))];
      assert Init(ops') == Filled(Init(ops), 0);
      FirstUnsafeFails(Init(ops), Last(ops));
    }
  }

  /** Ones over zeros show the first unsafe store. */
  lemma FirstUnsafeFails(ops: seq<Op>, op: Op)
    requires var s := Run(Start((_: nat) => 0), ops);
      AllSafe(Start((_: nat) => 0), ops) && !Safe(s.c, s.latest, op.key, |op.data|)
    ensures var ops' := Filled(ops, 0) + [Op(op.key, seq(|op.data|, _ => 1))];
      !ReadsBack(Run(Start((_: nat) => 0), ops'), ops')
  {
    hide Safe, Run, StoreStep, Faithful, ReadsBack;
    var zeros: Storage := (_: nat) => 0;
    var zs, ones := Filled(ops, 0), seq(|op.data|, _ => 1);
    SameLayout(zeros, zeros, ops, zs);
    SafeRunReads(zeros, zs);
    forall a: nat ensures Run(Start(zeros), zs).mem(a) == 0 { ZerosStay(ops, a); }
    UnsafeIsNot(Run(Start(zeros), zs), op.key, ones);
    UnfaithfulShows(Run(Start(zeros), zs), zs, op.key, ones);
    RunMore(zeros, zs, Op(op.key, ones));
  }

  /** Where everything read back before a store that is not faithful, it does not after it. */
  lemma UnfaithfulShows(s: KvState, ops: seq<Op>, k: Key, data: seq<int>)
    requires ReadsBack(s, ops) && !Faithful(s, k, data)
    ensures !ReadsBack(StoreStep(s, k, data), ops + [Op(k, data)])
  {
    var t, ops' := StoreStep(s, k, data), ops + [Op(k, data)];
    assert Init(ops') == ops && Last(ops') == Op(k, data);
    assert t.c.Keys == s.c.Keys + {k};
    if Value(t, k) != data {
      assert LastStored(ops', k) == Some(data);
    } else {
      var j :| j in s.c && j != k && !(j in t.c && Value(t, j) == Value(s, j));
      assert LastStored(ops', j) == LastStored(ops, j) == Some(Value(s, j));
    }
  }

  /** Stores of given keys and lengths, on an empty device, always read back what was stored
      last, whatever the data, if and only if each of them is safe. */
  lemma RunExact(mem: Storage, ops: seq<Op>)
    ensures AllSafe(Start(mem), ops)
            <==> forall mem': Storage, ops': seq<Op> :: SameLengths(ops, ops') ==> AlwaysReadsBack(Start(mem'), ops')
  {
    var zeros: Storage := (_: nat) => 0;
    if AllSafe(Start(mem), ops) {
      forall mem': Storage, ops': seq<Op> | SameLengths(ops, ops') ensures AlwaysReadsBack(Start(mem'), ops') {
        SameLayout(mem, mem', ops, ops');
        SafeRunReads(mem', ops');
      }
    } else {
      SameLayout(mem, zeros, ops, ops);
      var ops' := UnsafeRunFails(ops);
    }
  }

  // ---------- A condition on the lengths alone ----------

  /** The bytes allocated to each key: those of its first store. */
  function FirstLengths(ops: seq<Op>): map<Key, nat> {
    if ops == [] then map[]
    else if Last(ops).key in FirstLengths(Init(ops)) then FirstLengths(Init(ops))
    else FirstLengths(Init(ops))[Last(ops).key := |Last(ops).data|]
  }

  /** No store is longer than the first one of its key, and only small lengths change. */
  ghost predicate WithinFirst(ops: seq<Op>) {
    ops != [] ==>
      && WithinFirst(Init(ops))
      && match LastStored(Init(ops), Last(ops).key)
         case None => true
         case Some(d) =>
           && Last(ops).key in FirstLengths(Init(ops)) && |Last(ops).data| <= FirstLengths(Init(ops))[Last(ops).key]
           && (|Last(ops).data| == |d| || (|Last(ops).data| <= SMALL_LENGTH && |d| <= SMALL_LENGTH))
  }

  /** Values stay inside the bytes allocated to their keys, below latest, and no two keys share one. */
  ghost predicate Apart(s: KvState, cap: map<Key, nat>) {
    && s.c.Keys == cap.Keys
    && (forall k :: k in s.c ==> s.c[k].length <= cap[k] && s.c[k].offset + cap[k] <= s.latest)
    && forall j, k :: j in s.c && k in s.c && j != k ==> Disjoint(s.c[j].offset, cap[j], s.c[k].offset, cap[k])
  }

  predicate Disjoint(off: nat, n: nat, off': nat, n': nat) {
    off + n <= off' || off' + n' <= off
  }

  lemma ApartSafe(s: KvState, cap: map<Key, nat>, k: Key, n: nat)
    requires Apart(s, cap) && LengthTaken(s.c, k, n) && (k in cap ==> n <= cap[k])
    ensures Safe(s.c, s.latest, k, n)
  {
    forall j | j in s.c && j != k ensures Clear(Target(s.c, s.latest, k), n, s.c[j]) {
      if k in s.c { assert Disjoint(s.c[j].offset, cap[j], s.c[k].offset, cap[k]); }
    }
  }

  lemma ApartStep(s: KvState, cap: map<Key, nat>, k: Key, data: seq<int>)
    requires Apart(s, cap) && LengthTaken(s.c, k, |data|) && (k in cap ==> |data| <= cap[k])
    ensures Apart(StoreStep(s, k, data), if k in cap then cap else cap[k := |data|])
  {
    hide Disjoint, Write;
    var t, cap' := StoreStep(s, k, data), if k in cap then cap else cap[k := |data|];
    forall i, j | i in t.c && j in t.c && i != j ensures Disjoint(t.c[i].offset, cap'[i], t.c[j].offset, cap'[j]) {
      if i in s.c && j in s.c {
        assert Disjoint(s.c[i].offset, cap[i], s.c[j].offset, cap[j]);
      } else if i in s.c {
        BelowDisjoint(s.c[i].offset, cap[i], s.latest, cap'[j]);
      } else {
        BelowDisjoint(s.c[j].offset, cap[j], s.latest, cap'[i]);
      }
    }
  }

  lemma BelowDisjoint(off: nat, n: nat, latest: nat, m: nat)
    requires off + n <= latest
    ensures Disjoint(off, n, latest, m) && Disjoint(latest, m, off, n)
  {}

  /** So every such run is safe. */
  lemma {:induction false} WithinFirstSafe(mem: Storage, ops: seq<Op>)
    requires WithinFirst(ops)
    ensures AllSafe(Start(mem), ops) && Apart(Run(Start(mem), ops), FirstLengths(ops))
  {
    hide Apart, Safe, StoreStep, Value;
    if ops == [] {
      NoneApart(mem);
    } else {
      WithinFirstSafe(mem, Init(ops));
      SafeRunReads(mem, Init(ops));
      var s, k := Run(Start(mem), Init(ops)), Last(ops).key;
      Stored(s, Init(ops), FirstLengths(Init(ops)), k);
      ApartSafe(s, FirstLengths(Init(ops)), k, |Last(ops).data|);
      ApartStep(s, FirstLengths(Init(ops)), k, Last(ops).data);
    }
  }

  lemma NoneApart(mem: Storage)
    ensures Apart(Start(mem), map[])
  {}

  /** A key that is there was stored before, with as many bytes as its value has. */
  lemma Stored(s: KvState, ops: seq<Op>, cap: map<Key, nat>, k: Key)
    requires ReadsBack(s, ops) && Apart(s, cap)
    ensures k in s.c <==> k in cap
    ensures k in s.c ==> LastStored(ops, k).Some? && |LastStored(ops, k).value| == s.c[k].length
    ensures k !in s.c ==> LastStored(ops, k).None?
  {}

  // ---------- Where stores go wrong ----------

  /** A small value that grows is written over the value of the key stored after it. */
  lemma GrowthOverwrites(mem: Storage, k: Key, a: seq<int>, j: Key, b: seq<int>, d: seq<int>)
    requires k != j && |b| > 0 && |a| < |d| <= 1024
    ensures var t := Run(Start(mem), [Op(k, a), Op(j, b), Op(k, d)]);
            k in t.c && Value(t, k) == d && j in t.c && |Value(t, j)| == |b| && Value(t, j)[0] == d[|a|]
  {
    TwoStores(mem, Op(k, a), Op(j, b));
    RunMore(mem, [Op(k, a), Op(j, b)], Op(k, d));
    assert [Op(k, a), Op(j, b)] + [Op(k, d)] == [Op(k, a), Op(j, b), Op(k, d)];
  }

  /** A store whose length is refused is written all the same: the key reads back its old
      length, with the new data in front or cut off. */
  lemma RefusedLength(mem: Storage, k: Key, a: seq<int>, d: seq<int>)
    requires |a| != |d| && (|a| > 1024 || |d| > 1024)
    ensures var t := Run(Start(mem), [Op(k, a), Op(k, d)]);
            k in t.c && Value(t, k) == if |d| < |a| then d + a[|d|..] else d[..|a|]
  {
    TwoStores(mem, Op(k, a), Op(k, d));
  }

  lemma TwoStores(mem: Storage, op1: Op, op2: Op)
    ensures Run(Start(mem), [op1, op2]) == StoreStep(StoreStep(Start(mem), op1.key, op1.data), op2.key, op2.data)
  {
    RunMore(mem, [], op1);
    RunMore(mem, [op1], op2);
    assert [] + [op1] == [op1] && [op1] + [op2] == [op1, op2];
  }

  // ---------- The device ----------

  datatype Outcome = Retrieved(value: seq<int>) | KeyNotExist

  /** The part of struct kv_ftl behind store and retrieve, with the append-only allocator. */
  class KvFtl {
    const table: Table
    const storageSize: nat
    var latest: nat
    var mem: Storage
    ghost const mem0: Storage // the storage when the device was set up
    ghost var history: seq<Op> // the stores so far

    ghost function S(): KvState
      requires table.Valid()
      reads this, table, table.slots
    {
      KvState(table.Contents(), latest, mem)
    }

    ghost predicate Valid()
      reads this, table, table.slots
    {
      table.Valid() && storageSize <= NO_OFFSET && S() == Run(Start(mem0), history)
    }

    constructor (n: nat, hash: Key -> nat, mem: Storage, storageSize: nat)
      requires 0 < n < NIL && storageSize <= NO_OFFSET
      ensures Valid() && fresh(table) && fresh(table.slots) && this.storageSize == storageSize
      ensures table.slots.Length == n && S() == Start(mem) && mem0 == mem && history == []
    {
      table := new Table(n, hash);
      this.storageSize := storageSize;
      latest := 0;
      this.mem := mem;
      mem0 := mem;
      history := [];
    }

    /** append_only_allocate. */
    method Allocate(length: nat) returns (offset: nat)
      modifies `latest
      ensures offset == old(latest) && latest == old(latest) + length
    {
      offset := latest;
      latest := latest + length;
    }

    /** __do_perform_kv_io for a store: a new key gets bytes of its own; a value of another length
        changes the entry's length only while both are small. Not ok where new_mapping_entry
        stops the kernel, because the new value would begin past the end of the storage. */
    method Store(key: Key, data: seq<int>, ghost free: nat) returns (ok: bool)
      requires Valid()
      requires key !in table.at ==> free < table.slots.Length && !Used(table.slots[free])
      modifies this, table, table.slots
      ensures ok <==> old(key in table.at || latest < storageSize)
      ensures ok ==> Valid() && S() == StoreStep(old(S()), key, data) && history == old(history) + [Op(key, data)]
    {
      hide Ok, Run;
      ghost var s := S();
      RunMore(mem0, history, Op(key, data));
      var f := table.Find(key);
      InTable(table, key);
      if f.Absent? {
        var offset := Allocate(|data|);
        mem := Write(mem, offset, data);
        if offset >= storageSize {
          return false;
        }
        table.NewMapping(key, offset, |data|, free);
      } else {
        var entry := table.slots[f.slot];
        mem := Write(mem, entry.offset, data);
        if |data| != entry.length && |data| <= SMALL_LENGTH && entry.length <= SMALL_LENGTH {
          var status := table.UpdateMapping(key, |data|);
        }
      }
      ok := true;
      history := history + [Op(key, data)];
      assert S() == StoreStep(s, key, data);
    }

    /** __do_perform_kv_io for a retrieve of up to length bytes: where all stores so far were
        safe, the first bytes of what was stored last. */
    method Retrieve(key: Key, length: nat) returns (o: Outcome)
      requires Valid()
      ensures if key !in S().c then o == KeyNotExist
              else var d := Value(S(), key); o == Retrieved(if |d| <= length then d else d[..length])
      ensures AllSafe(Start(mem0), history) ==>
                match LastStored(history, key)
                case None => o == KeyNotExist
                case Some(d) => o == Retrieved(if |d| <= length then d else d[..length])
    {
      hide Ok, Run;
      if AllSafe(Start(mem0), history) {
        SafeRunReads(mem0, history);
        assert ReadsBack(S(), history);
      }
      var f := table.Find(key);
      InTable(table, key);
      if f.Absent? {
        return KeyNotExist;
      }
      var entry := table.slots[f.slot];
      var n := if entry.length <= length then entry.length else length;
      o := Retrieved(Read(mem, entry.offset, n));
      assert Read(mem, entry.offset, n) == Value(S(), key)[..n];
      assert Value(S(), key)[..entry.length] == Value(S(), key);
    }
  }

  lemma RunMore(mem: Storage, ops: seq<Op>, op: Op)
    ensures Run(Start(mem), ops + [op]) == StoreStep(Run(Start(mem), ops), op.key, op.data)
  {
    assert Init(ops + [op]) == ops;
  }
}
