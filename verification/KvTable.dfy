/** The mapping table of the key-value FTL (kv_ftl.c): coalesced hashing, where a new entry is
    linked behind the tail of the chain that its home slot is on, whatever key began it. */
module KvTable {
  /** The indices and offsets -1 as an unsigned int and a size_t. */
  const NIL := 0xffff_ffff
  const NO_OFFSET := 0xffff_ffff_ffff_ffff

  /** Keys of one length, which memcmp compares whole. */
  type Key = seq<nat>

  /** struct mapping_entry; free when it has no offset. */
  datatype Entry = Entry(key: Key, offset: nat, length: nat, next: nat)

  /** Where a value lies. */
  datatype Loc = Loc(offset: nat, length: nat)

  predicate Used(e: Entry) { e.offset != NO_OFFSET }

  function Home(hash: Key -> nat, k: Key, n: nat): (h: nat)
    requires n > 0
    ensures h < n
  {
    hash(k) % n
  }

  // ---------- Chains ----------

  /** Links lead from used to used entries and up in rank, below top: chains have no cycles. */
  ghost predicate Chained(t: seq<Entry>, rank: seq<nat>, top: nat) {
    && 0 < |t| < NIL && |rank| == |t|
    && (forall i :: 0 <= i < |t| && Used(t[i]) ==> rank[i] < top)
    && (forall i :: 0 <= i < |t| && !Used(t[i]) ==> t[i].next == NIL)
    && forall i :: 0 <= i < |t| && t[i].next != NIL ==>
         t[i].next < |t| && Used(t[t[i].next]) && rank[i] < rank[t[i].next]
  }

  /** Slot b is on the chain from slot a on. */
  ghost predicate Reach(t: seq<Entry>, rank: seq<nat>, top: nat, a: nat, b: nat)
    requires Chained(t, rank, top) && a < |t|
    decreases top - rank[a]
  {
    a == b || (t[a].next != NIL && Reach(t, rank, top, t[a].next, b))
  }

  /** at gives each key's slot. */
  ghost predicate Placed(t: seq<Entry>, at: map<Key, nat>) {
    && (forall i :: 0 <= i < |t| && Used(t[i]) ==> t[i].key in at && at[t[i].key] == i)
    && (forall k :: k in at ==> at[k] < |t| && Used(t[at[k]]) && t[at[k]].key == k)
  }

  /** Every key is on the chain of its home slot. */
  ghost predicate Homed(t: seq<Entry>, rank: seq<nat>, top: nat, at: map<Key, nat>, hash: Key -> nat)
    requires Chained(t, rank, top)
  {
    forall k :: k in at ==> Used(t[Home(hash, k, |t|)]) && Reach(t, rank, top, Home(hash, k, |t|), at[k])
  }

  ghost predicate Ok(t: seq<Entry>, rank: seq<nat>, top: nat, at: map<Key, nat>, hash: Key -> nat) {
    Chained(t, rank, top) && Placed(t, at) && Homed(t, rank, top, at, hash)
  }

  /** The table with a new entry e in the free slot s, linked behind the tail p of a chain. */
  function Linked(t: seq<Entry>, s: nat, e: Entry, p: nat): seq<Entry>
    requires s < |t| && p < |t|
  {
    t[s := e][p := t[s := e][p].(next := s)]
  }

  lemma LinkChained(t: seq<Entry>, rank: seq<nat>, top: nat, s: nat, e: Entry, p: nat)
    requires Chained(t, rank, top) && s < |t| && p < |t| && p != s && !Used(t[s]) && Used(t[p]) && t[p].next == NIL
    requires Used(e) && e.next == NIL
    ensures Chained(Linked(t, s, e, p), rank[s := top], top + 1)
  {}

  /** Linking a new tail keeps everything that was on a chain on it, and puts the new entry on
      every chain that the old tail was on. */
  lemma {:induction false} LinkReach(t: seq<Entry>, rank: seq<nat>, top: nat, s: nat, e: Entry, p: nat, a: nat, b: nat)
    requires Chained(t, rank, top) && s < |t| && p < |t| && p != s && !Used(t[s]) && Used(t[p]) && t[p].next == NIL
    requires Used(e) && e.next == NIL && a < |t| && Used(t[a]) && Reach(t, rank, top, a, b)
    ensures Chained(Linked(t, s, e, p), rank[s := top], top + 1)
    ensures Reach(Linked(t, s, e, p), rank[s := top], top + 1, a, b)
    ensures b == p ==> Reach(Linked(t, s, e, p), rank[s := top], top + 1, a, s)
    decreases top - rank[a]
  {
    LinkChained(t, rank, top, s, e, p);
    if a != b {
      LinkReach(t, rank, top, s, e, p, t[a].next, b);
    } else if b == p {
      assert Reach(Linked(t, s, e, p), rank[s := top], top + 1, s, s);
    }
  }

  lemma LinkPlaced(t: seq<Entry>, at: map<Key, nat>, s: nat, e: Entry, p: nat)
    requires Placed(t, at) && e.key !in at && Used(e) && s < |t| && p < |t| && !Used(t[s]) && p != s
    ensures Placed(Linked(t, s, e, p), at[e.key := s])
  {}

  lemma LinkUsed(t: seq<Entry>, s: nat, e: Entry, p: nat)
    requires Used(e) && s < |t| && p < |t| && !Used(t[s]) && Used(t[p])
    ensures |Linked(t, s, e, p)| == |t| && forall i :: 0 <= i < |t| && Used(t[i]) ==> Used(Linked(t, s, e, p)[i])
  {}

  /** A new key behind the tail p of the chain from its home slot. */
  lemma LinkOk(t: seq<Entry>, rank: seq<nat>, top: nat, at: map<Key, nat>, hash: Key -> nat, s: nat, e: Entry, p: nat)
    requires Ok(t, rank, top, at, hash) && e.key !in at && Used(e) && e.next == NIL
    requires s < |t| && p < |t| && !Used(t[s]) && Used(t[p]) && t[p].next == NIL
    requires Used(t[Home(hash, e.key, |t|)]) && Reach(t, rank, top, Home(hash, e.key, |t|), p)
    ensures Ok(Linked(t, s, e, p), rank[s := top], top + 1, at[e.key := s], hash)
  {
    hide Reach, Home, Chained, Placed, Linked;
    ChainedSlots(t, rank, top);
    var t', rank', at' := Linked(t, s, e, p), rank[s := top], at[e.key := s];
    LinkChained(t, rank, top, s, e, p);
    LinkPlaced(t, at, s, e, p);
    LinkUsed(t, s, e, p);
    forall k | k in at'
      ensures Used(t'[Home(hash, k, |t'|)])
        && Reach(t', rank', top + 1, Home(hash, k, |t'|), at'[k])
    {
      if k == e.key {
        LinkReach(t, rank, top, s, e, p, Home(hash, k, |t|), p);
      } else {
        LinkReach(t, rank, top, s, e, p, Home(hash, k, |t|), at[k]);
      }
    }
  }

  /** Filling a free slot starts a chain. */
  lemma FillChained(t: seq<Entry>, rank: seq<nat>, top: nat, s: nat, e: Entry)
    requires Chained(t, rank, top) && s < |t| && !Used(t[s]) && Used(e) && e.next == NIL
    ensures Chained(t[s := e], rank[s := top], top + 1)
  {}

  lemma {:induction false} FillReach(t: seq<Entry>, rank: seq<nat>, top: nat, s: nat, e: Entry, a: nat, b: nat)
    requires Chained(t, rank, top) && s < |t| && !Used(t[s]) && Used(e) && e.next == NIL
    requires a < |t| && Used(t[a]) && Reach(t, rank, top, a, b)
    ensures Chained(t[s := e], rank[s := top], top + 1) && Reach(t[s := e], rank[s := top], top + 1, a, b)
    decreases top - rank[a]
  {
    FillChained(t, rank, top, s, e);
    if a != b { FillReach(t, rank, top, s, e, t[a].next, b); }
  }

  lemma FillPlaced(t: seq<Entry>, at: map<Key, nat>, s: nat, e: Entry)
    requires Placed(t, at) && e.key !in at && Used(e) && s < |t| && !Used(t[s])
    ensures Placed(t[s := e], at[e.key := s])
  {}

  lemma ReachSelf(t: seq<Entry>, rank: seq<nat>, top: nat, a: nat)
    requires Chained(t, rank, top) && a < |t|
    ensures Reach(t, rank, top, a, a)
  {}

  /** A new key in its own free home slot. */
  lemma FillOk(t: seq<Entry>, rank: seq<nat>, top: nat, at: map<Key, nat>, hash: Key -> nat, s: nat, e: Entry)
    requires Ok(t, rank, top, at, hash) && e.key !in at && Used(e) && e.next == NIL
    requires s < |t| && !Used(t[s]) && s == Home(hash, e.key, |t|)
    ensures Ok(t[s := e], rank[s := top], top + 1, at[e.key := s], hash)
  {
    hide Home, Chained, Placed, Reach;
    ChainedSlots(t, rank, top);
    var t', rank', at' := t[s := e], rank[s := top], at[e.key := s];
    FillChained(t, rank, top, s, e);
    FillPlaced(t, at, s, e);
    ReachSelf(t', rank', top + 1, s);
    forall k | k in at'
      ensures Used(t'[Home(hash, k, |t'|)])
        && Reach(t', rank', top + 1, Home(hash, k, |t'|), at'[k])
    {
      if k != e.key { FillReach(t, rank, top, s, e, Home(hash, k, |t|), at[k]); }
    }
  }

  /** Changing the length of an entry. */
  lemma {:induction false} LengthReach(t: seq<Entry>, rank: seq<nat>, top: nat, s: nat, length: nat, a: nat, b: nat)
    requires Chained(t, rank, top) && s < |t| && a < |t| && Reach(t, rank, top, a, b)
    ensures Chained(t[s := t[s].(length := length)], rank, top)
    ensures Reach(t[s := t[s].(length := length)], rank, top, a, b)
    decreases top - rank[a]
  {
    if a != b { LengthReach(t, rank, top, s, length, t[a].next, b); }
  }

  lemma LengthOk(t: seq<Entry>, rank: seq<nat>, top: nat, at: map<Key, nat>, hash: Key -> nat, s: nat, length: nat)
    requires Ok(t, rank, top, at, hash) && s < |t|
    ensures Ok(t[s := t[s].(length := length)], rank, top, at, hash)
  {
    hide Home, Placed, Chained, Reach;
    ChainedSlots(t, rank, top);
    LengthChained(t, rank, top, s, length);
    LengthPlaced(t, at, s, length);
    forall k | k in at
      ensures Reach(t[s := t[s].(length := length)], rank, top, Home(hash, k, |t|), at[k])
    {
      LengthReach(t, rank, top, s, length, Home(hash, k, |t|), at[k]);
    }
  }

  lemma ChainedSlots(t: seq<Entry>, rank: seq<nat>, top: nat)
    requires Chained(t, rank, top)
    ensures 0 < |t| < NIL && |rank| == |t|
  {}

  lemma LengthChained(t: seq<Entry>, rank: seq<nat>, top: nat, s: nat, length: nat)
    requires Chained(t, rank, top) && s < |t|
    ensures Chained(t[s := t[s].(length := length)], rank, top)
  {}

  lemma LengthPlaced(t: seq<Entry>, at: map<Key, nat>, s: nat, length: nat)
    requires Placed(t, at) && s < |t|
    ensures Placed(t[s := t[s].(length := length)], at)
  {}

  // ---------- Walking a chain ----------

  /** A key of the table is on the chain from a on, if it is on that of its home slot. */
  lemma OnChain(t: seq<Entry>, rank: seq<nat>, top: nat, at: map<Key, nat>, hash: Key -> nat, k: Key)
    requires Ok(t, rank, top, at, hash) && k in at
    ensures at[k] < |t| && Used(t[Home(hash, k, |t|)]) && Reach(t, rank, top, Home(hash, k, |t|), at[k])
  {}

  /** One step of a walk. */
  lemma Step(t: seq<Entry>, rank: seq<nat>, top: nat, a: nat)
    requires Chained(t, rank, top) && a < |t|
    ensures t[a].next != NIL ==> t[a].next < |t| && Used(t[t[a].next]) && rank[a] < rank[t[a].next] < top
    ensures Used(t[a]) ==> rank[a] < top
  {}

  /** Following a chain to its end keeps the start connected. */
  lemma {:induction false} ReachOn(t: seq<Entry>, rank: seq<nat>, top: nat, a: nat, b: nat)
    requires Chained(t, rank, top) && a < |t| && b < |t| && Reach(t, rank, top, a, b) && t[b].next != NIL
    ensures Reach(t, rank, top, a, t[b].next)
    decreases top - rank[a]
  {
    if a != b { ReachOn(t, rank, top, t[a].next, b); }
  }

  /** The finite map that a table stands for. */
  ghost function ContentsOf(t: seq<Entry>, at: map<Key, nat>): map<Key, Loc>
    requires Placed(t, at)
  {
    map k | k in at :: Loc(t[at[k]].offset, t[at[k]].length)
  }

  // ---------- The table ----------

  datatype Found = Found(slot: nat) | Absent

  class Table {
    const slots: array<Entry>
    const hash: Key -> nat
    ghost var rank: seq<nat>
    ghost var top: nat
    ghost var at: map<Key, nat>

    ghost predicate Valid()
      reads this, slots
    {
      Ok(slots[..], rank, top, at, hash)
    }

    /** The finite map that the table stands for. */
    ghost function Contents(): map<Key, Loc>
      requires Valid()
      reads this, slots
    {
      ContentsOf(slots[..], at)
    }

    /** The table part of kv_init_namespace. */
    constructor (n: nat, hash: Key -> nat)
      requires 0 < n < NIL
      ensures Valid() && Contents() == map[] && slots.Length == n && this.hash == hash && fresh(slots)
    {
      slots := new Entry[n](_ => Entry([], NO_OFFSET, NO_OFFSET, NIL));
      this.hash := hash;
      rank, top, at := seq(n, _ => 0), 0, map[];
    }

    /** get_mapping_entry: the walk from the key's home slot. */
    method Find(key: Key) returns (f: Found)
      requires Valid()
      ensures f.Found? <==> key in at
      ensures f.Found? ==> f.slot == at[key] < slots.Length
    {
      hide Placed, Homed, Reach, Home;
      ghost var t := slots[..];
      ChainedSlots(t, rank, top);
      var slot: nat := hash(key) % slots.Length;
      HomeIs(hash, key, slots.Length);
      if key in at {
        OnChain(t, rank, top, at, hash, key);
        SlotOf(t, at, key);
      }
      while slots[slot].offset != NO_OFFSET
        invariant slot < slots.Length
        invariant key in at ==> Used(t[slot]) && at[key] < |t| && Reach(t, rank, top, slot, at[key])
        decreases if Used(t[slot]) then top - rank[slot] else 0
      {
        Step(t, rank, top, slot);
        KeyAt(t, at, slot);
        if slots[slot].key == key {
          return Found(slot);
        }
        if key in at { ReachNext(t, rank, top, slot, at[key]); }
        slot := slots[slot].next;
        if slot == NIL {
          break;
        }
      }
      f := Absent;
    }

    /** The first loop of find_next_slot: the tail of the chain that slot `original` is on. */
    method FindTail(original: nat) returns (tail: nat)
      requires Valid() && original < slots.Length && Used(slots[original])
      ensures tail < slots.Length && Used(slots[tail]) && slots[tail].next == NIL
      ensures Reach(slots[..], rank, top, original, tail)
    {
      hide Placed, Homed, Reach;
      ghost var t := slots[..];
      ReachSelf(t, rank, top, original);
      var next := original;
      tail := original;
      while slots[next].offset != NO_OFFSET
        invariant tail < slots.Length && Used(t[tail]) && Reach(t, rank, top, original, tail)
        invariant next == tail
        decreases top - rank[tail]
      {
        Step(t, rank, top, next);
        next := slots[next].next;
        if next == NIL {
          break;
        }
        ReachOn(t, rank, top, original, tail);
        tail := next;
      }
    }

    /** The second loop of find_next_slot: the first free slot from the tail on, around the end
        of the table. It does not end on a full table. */
    method Probe(tail: nat, ghost free: nat) returns (slot: nat)
      requires tail < slots.Length && free < slots.Length && !Used(slots[free])
      ensures slot < slots.Length && !Used(slots[slot])
      ensures forall i :: 0 <= i < slots.Length && Between(tail, i, slot) ==> Used(slots[i])
    {
      slot := tail;
      ghost var wrapped := false;
      while slots[slot].offset != NO_OFFSET
        invariant slot < slots.Length && (if wrapped then slot <= free < tail else tail <= slot)
        invariant forall i ::
          0 <= i < slots.Length && (if wrapped then i >= tail || i < slot else tail <= i < slot) ==> Used(slots[i])
        decreases if wrapped then 0 else 1, slots.Length - slot
      {
        slot := slot + 1;
        if slot >= slots.Length {
          slot := 0;
          wrapped := true;
        }
      }
    }

    /** new_mapping_entry, for a key that has none; the table must have a free slot. */
    method NewMapping(key: Key, offset: nat, length: nat, ghost free: nat)
      requires Valid() && key !in at && offset != NO_OFFSET && free < slots.Length && !Used(slots[free])
      modifies this, slots
      ensures Valid() && Contents() == old(Contents())[key := Loc(offset, length)]
      ensures key in at && at == old(at)[key := at[key]]
    {
      hide Chained, Placed, Homed, Reach, Home, Linked;
      ChainedSlots(slots[..], rank, top);
      var slot: nat := hash(key) % slots.Length;
      HomeIs(hash, key, slots.Length);
      if slots[slot].offset == NO_OFFSET {
        PutHome(slot, key, offset, length);
      } else {
        var tail := FindTail(slot);
        slot := Probe(tail, free);
        PutBehind(slot, tail, key, offset, length);
      }
    }

    /** Writes a new entry into its free home slot. */
    method PutHome(slot: nat, key: Key, offset: nat, length: nat)
      requires Valid() && key !in at && offset != NO_OFFSET && slot < slots.Length && !Used(slots[slot])
      requires slot == Home(hash, key, slots.Length)
      modifies this, slots
      ensures Valid() && Contents() == old(Contents())[key := Loc(offset, length)] && at == old(at)[key := slot]
    {
      hide Chained, Placed, Homed, Reach, Home;
      ghost var t, e := slots[..], Entry(key, offset, length, NIL);
      ChainedSlots(t, rank, top);
      FreeNext(t, rank, top, slot);
      FillOk(t, rank, top, at, hash, slot, e);
      FillContents(t, at, slot, e);
      slots[slot] := slots[slot].(key := key, offset := offset, length := length);
      assert slots[..] == t[slot := e];
      rank, top, at := rank[slot := top], top + 1, at[key := slot];
    }

    /** Writes a new entry into a free slot and links it behind the tail of its chain. */
    method PutBehind(slot: nat, tail: nat, key: Key, offset: nat, length: nat)
      requires Valid() && key !in at && offset != NO_OFFSET && slot < slots.Length && !Used(slots[slot])
      requires tail < slots.Length && Used(slots[tail]) && slots[tail].next == NIL
      requires Used(slots[Home(hash, key, slots.Length)])
        && Reach(slots[..], rank, top, Home(hash, key, slots.Length), tail)
      modifies this, slots
      ensures Valid() && Contents() == old(Contents())[key := Loc(offset, length)] && at == old(at)[key := slot]
    {
      hide Chained, Placed, Homed, Reach, Home, Linked;
      ghost var t, e := slots[..], Entry(key, offset, length, NIL);
      ChainedSlots(t, rank, top);
      FreeNext(t, rank, top, slot);
      LinkOk(t, rank, top, at, hash, slot, e, tail);
      LinkContents(t, at, slot, e, tail);
      slots[slot] := slots[slot].(key := key, offset := offset, length := length);
      slots[tail] := slots[tail].(next := slot);
      LinkIs(t, slot, e, tail);
      assert slots[..] == t[slot := e][tail := t[tail].(next := slot)];
      rank, top, at := rank[slot := top], top + 1, at[key := slot];
    }

    /** update_mapping_entry: 0 when the key is there, 1 when it is not. */
    method UpdateMapping(key: Key, length: nat) returns (status: nat)
      requires Valid()
      modifies slots
      ensures Valid() && at == old(at)
      ensures status == if key in at then 0 else 1
      ensures Contents() == if key in at then old(Contents())[key := Loc(old(Contents())[key].offset, length)]
        else old(Contents())
    {
      hide Chained, Homed, Reach, Home;
      ghost var t := slots[..];
      var f := Find(key);
      if f.Absent? {
        return 1;
      }
      LengthOk(t, rank, top, at, hash, f.slot, length);
      LengthContents(t, at, f.slot, length);
      slots[f.slot] := slots[f.slot].(length := length);
      assert slots[..] == t[f.slot := t[f.slot].(length := length)];
      status := 0;
    }
  }

  /** Slot i is passed when going up from slot s, around the end, to slot e. */
  predicate Between(s: nat, i: nat, e: nat) {
    if s <= e then s <= i < e else i >= s || i < e
  }

  lemma FreeNext(t: seq<Entry>, rank: seq<nat>, top: nat, s: nat)
    requires Chained(t, rank, top) && s < |t| && !Used(t[s])
    ensures t[s].next == NIL
  {}

  lemma LinkIs(t: seq<Entry>, s: nat, e: Entry, p: nat)
    requires s < |t| && p < |t| && s != p
    ensures Linked(t, s, e, p) == t[s := e][p := t[p].(next := s)]
  {}

  lemma FillContents(t: seq<Entry>, at: map<Key, nat>, s: nat, e: Entry)
    requires Placed(t, at) && e.key !in at && Used(e) && s < |t| && !Used(t[s])
    ensures Placed(t[s := e], at[e.key := s])
    ensures ContentsOf(t[s := e], at[e.key := s]) == ContentsOf(t, at)[e.key := Loc(e.offset, e.length)]
  {
    FillPlaced(t, at, s, e);
  }

  lemma LinkContents(t: seq<Entry>, at: map<Key, nat>, s: nat, e: Entry, p: nat)
    requires Placed(t, at) && e.key !in at && Used(e) && s < |t| && p < |t| && !Used(t[s]) && Used(t[p])
    ensures Placed(Linked(t, s, e, p), at[e.key := s])
    ensures ContentsOf(Linked(t, s, e, p), at[e.key := s]) == ContentsOf(t, at)[e.key := Loc(e.offset, e.length)]
  {
    LinkPlaced(t, at, s, e, p);
  }

  lemma LengthContents(t: seq<Entry>, at: map<Key, nat>, s: nat, length: nat)
    requires Placed(t, at) && s < |t| && Used(t[s])
    ensures Placed(t[s := t[s].(length := length)], at)
    ensures ContentsOf(t[s := t[s].(length := length)], at) == ContentsOf(t, at)[t[s].key := Loc(t[s].offset, length)]
  {
    LengthPlaced(t, at, s, length);
  }

  lemma HomeIs(hash: Key -> nat, k: Key, n: nat)
    requires n > 0
    ensures Home(hash, k, n) == hash(k) % n && 0 <= hash(k) % n < n
  {}

  lemma KeyAt(t: seq<Entry>, at: map<Key, nat>, i: nat)
    requires Placed(t, at) && i < |t| && Used(t[i])
    ensures t[i].key in at && at[t[i].key] == i
  {}

  lemma SlotOf(t: seq<Entry>, at: map<Key, nat>, k: Key)
    requires Placed(t, at) && k in at
    ensures at[k] < |t| && Used(t[at[k]]) && t[at[k]].key == k
  {}

  lemma ReachNext(t: seq<Entry>, rank: seq<nat>, top: nat, a: nat, b: nat)
    requires Chained(t, rank, top) && a < |t| && Reach(t, rank, top, a, b) && a != b
    ensures t[a].next != NIL && Reach(t, rank, top, t[a].next, b)
  {}

  /** What the map says of a key is what its slot says. */
  lemma InTable(table: Table, k: Key)
    requires table.Valid()
    ensures k in table.Contents() <==> k in table.at
    ensures k in table.at ==>
      && table.at[k] < table.slots.Length
      && table.Contents()[k] == Loc(table.slots[table.at[k]].offset, table.slots[table.at[k]].length)
  {
    hide Chained, Homed;
  }
}
