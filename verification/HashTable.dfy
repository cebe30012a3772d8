/**
 * The open-addressed tables of src/file_scan.c: donors of layout copies (donor_*) and inodes met by the walk
 * (seen_*). The two differ only in what they do when growing fails.
 */
module HashTable {
  import opened Options

  datatype Slot<+K, +V> = Free | Taken(key: K, val: V)

  // ---- Probing ----

  /** The slot a key's probe starts at; the tables' sizes are powers of two, so the mask is a remainder. */
  function Home(h: nat, cap: nat): (i: nat)
    requires cap > 0
    ensures i < cap
  {
    h % cap
  }

  function Next(i: nat, cap: nat): nat { if i + 1 == cap then 0 else i + 1 }

  /** How many steps a probe takes from `home` to slot i. */
  function Dist(home: nat, i: nat, cap: nat): int {
    if i >= home then i - home else i + cap - home
  }

  /** No free slot lies between a key's home and its slot, so a probe may stop at the first one. */
  ghost predicate NoGaps<K(!new), V(!new)>(s: seq<Slot<K, V>>, hash: K -> nat) {
    forall i, x :: 0 <= i < |s| && s[i].Taken? && 0 <= x < |s|
                   && Dist(Home(hash(s[i].key), |s|), x, |s|) < Dist(Home(hash(s[i].key), |s|), i, |s|)
                   ==> s[x].Taken?
  }

  ghost predicate Distinct<K(!new), V(!new)>(s: seq<Slot<K, V>>) {
    forall i, j :: 0 <= i < j < |s| && s[i].Taken? && s[j].Taken? ==> s[i].key != s[j].key
  }

  /** The table is the map: every taken slot is an entry, and every entry has a slot. */
  ghost predicate Represents<K(!new), V(!new)>(s: seq<Slot<K, V>>, m: map<K, V>) {
    && (forall i :: 0 <= i < |s| && s[i].Taken? ==> s[i].key in m && m[s[i].key] == s[i].val)
    && (forall k :: k in m ==> exists i :: 0 <= i < |s| && s[i].Taken? && s[i].key == k)
  }

  function Used<K, V>(s: seq<Slot<K, V>>): nat {
    if s == [] then 0
    else Used(s[..|s| - 1]) + (if s[|s| - 1].Taken? then 1 else 0)
  }

  lemma {:induction false} SomeFree<K, V>(s: seq<Slot<K, V>>)
    ensures Used(s) <= |s|
    ensures Used(s) < |s| ==> exists i :: 0 <= i < |s| && s[i].Free?
  {
    if s != [] {
      var init := s[..|s| - 1];
      SomeFree(init);
      if s[|s| - 1].Free? {
        assert s[|s| - 1].Free?;
      } else if Used(s) < |s| {
        var i :| 0 <= i < |init| && init[i].Free?;
        assert s[i].Free?;
      }
    }
  }

  lemma {:induction false} UsedTake<K, V>(s: seq<Slot<K, V>>, i: nat, e: Slot<K, V>)
    requires i < |s| && s[i].Free? && e.Taken?
    ensures Used(s[i := e]) == Used(s) + 1
  {
    var init := s[..|s| - 1];
    if i < |s| - 1 {
      UsedTake(init, i, e);
      assert s[i := e][..|s| - 1] == init[i := e];
    } else {
      assert s[i := e][..|s| - 1] == init;
    }
  }

  lemma {:induction false} UsedNone<K, V>(s: seq<Slot<K, V>>)
    requires forall i :: 0 <= i < |s| ==> s[i].Free?
    ensures Used(s) == 0
  {
    if s != [] {
      UsedNone(s[..|s| - 1]);
    }
  }

  lemma {:induction false} UsedPrefix<K, V>(s: seq<Slot<K, V>>, n: nat)
    requires n <= |s|
    ensures Used(s[..n]) <= Used(s)
  {
    if n < |s| {
      UsedPrefix(s[..|s| - 1], n);
      assert s[..|s| - 1][..n] == s[..n];
    } else {
      assert s[..n] == s;
    }
  }

  /** A probe for k from `home` has come to slot i: all slots before it are taken by other keys. */
  ghost predicate Passed<K(!new), V(!new)>(s: seq<Slot<K, V>>, home: nat, i: nat, k: K) {
    forall x :: 0 <= x < |s| && Dist(home, x, |s|) < Dist(home, i, |s|) ==> s[x].Taken? && s[x].key != k
  }

  lemma PassedNone<K(!new), V(!new)>(s: seq<Slot<K, V>>, home: nat, k: K)
    requires home < |s|
    ensures Passed(s, home, home, k)
  {
  }

  /** A free slot anywhere is reached before the probe comes round to its start. */
  lemma PassedNext<K(!new), V(!new)>(s: seq<Slot<K, V>>, home: nat, i: nat, k: K, free: nat)
    requires home < |s| && i < |s| && free < |s| && s[free].Free?
    requires Passed(s, home, i, k) && s[i].Taken? && s[i].key != k
    ensures Passed(s, home, Next(i, |s|), k)
    ensures Dist(home, i, |s|) < Dist(home, Next(i, |s|), |s|) < |s|
  {
    assert Dist(home, i, |s|) < Dist(home, free, |s|) < |s|;
  }

  lemma NotThere<K(!new), V(!new)>(s: seq<Slot<K, V>>, hash: K -> nat, m: map<K, V>, i: nat, k: K)
    requires NoGaps(s, hash) && Represents(s, m) && i < |s| && s[i].Free?
    requires Passed(s, Home(hash(k), |s|), i, k)
    ensures k !in m
  {
    hide Home;
    if k in m {
      var j :| 0 <= j < |s| && s[j].Taken? && s[j].key == k;
    }
  }

  lemma SlotOf<K(!new), V(!new)>(s: seq<Slot<K, V>>, m: map<K, V>, i: nat)
    requires Represents(s, m) && i < |s| && s[i].Taken?
    ensures s[i].key in m && m[s[i].key] == s[i].val
  {
  }

  // ---- The table ----

  class Table<K(==, !new), V(!new)> {
    const hash: K -> nat
    var slots: array<Slot<K, V>>  // no slots: the first allocation failed and the table is off
    var count: nat
    ghost var entries: map<K, V>

    ghost predicate Valid()
      reads this, slots
    {
      && NoGaps(slots[..], hash) && Distinct(slots[..]) && Represents(slots[..], entries)
      && count == Used(slots[..]) == |entries|
      && (slots.Length > 0 ==> count < slots.Length)
    }

    /** Tables start with 1024 slots. */
    constructor (hash: K -> nat, memory: bool)
      ensures Valid() && entries == map[] && fresh(slots)
      ensures slots.Length == if memory then 1024 else 0
      ensures this.hash == hash
    {
      this.hash := hash;
      count, entries := 0, map[];
      slots := new Slot<K, V>[if memory then 1024 else 0](_ => Free);
      new;
      UsedNone(slots[..]);
    }

    /** The loop of every operation: on from the key's home to its slot, or to the first free one. */
    method Probe(k: K) returns (i: nat)
      requires Valid() && slots.Length > 0
      ensures i < slots.Length
      ensures slots[i].Taken? ==> k in entries && slots[i].key == k && slots[i].val == entries[k]
      ensures slots[i].Free? ==> k !in entries && Passed(slots[..], Home(hash(k), slots.Length), i, k)
    {
      hide Used, NoGaps, Represents, Distinct, Passed;
      var cap := slots.Length;
      ghost var s := slots[..];
      SomeFree(s);
      ghost var free :| 0 <= free < cap && s[free].Free?;
      i := Home(hash(k), cap);
      PassedNone(s, i, k);
      while slots[i].Taken?
        invariant i < cap && Passed(s, Home(hash(k), cap), i, k)
        decreases cap - Dist(Home(hash(k), cap), i, cap)
      {
        if slots[i].key == k {
          SlotOf(s, entries, i);
          return;
        }
        PassedNext(s, Home(hash(k), cap), i, k, free);
        i := Next(i, cap);
      }
      NotThere(s, hash, entries, i, k);
    }

    /** donor_find(), seen_inode(). */
    method Find(k: K) returns (v: Option<V>)
      requires Valid()
      ensures v == if k in entries then Some(entries[k]) else None
    {
      if slots.Length == 0 {
        return None;
      }
      var i := Probe(k);
      v := if slots[i].Taken? then Some(slots[i].val) else None;
    }

    /** donor_insert(), seen_insert(): the caller sees to it that a slot stays free. */
    method Insert(k: K, v: V)
      requires Valid() && (k in entries || count + 1 < slots.Length)
      modifies this`count, this`entries, slots
      ensures Valid() && entries == if k in old(entries) then old(entries) else old(entries)[k := v]
    {
      hide Used, Home, NoGaps, Distinct, Represents;
      assert slots.Length > 0 by {
        if slots.Length == 0 { NothingIn(slots[..], entries); }
      }
      var i := Probe(k);
      if slots[i].Taken? {
        return;
      }
      ghost var s := slots[..];
      slots[i] := Taken(k, v);
      assert slots[..] == s[i := Taken(k, v)];
      UsedTake(s, i, Taken(k, v));
      Inserted(s, hash, entries, i, k, v);
      entries := entries[k := v];
      count := count + 1;
    }

    /** donor_grow(), seen_grow(): twice the slots, every entry inserted again; refused memory changes nothing. */
    method Grow(memory: bool) returns (ok: bool)
      requires Valid() && slots.Length > 0
      modifies this, slots
      ensures Valid() && entries == old(entries) && count == old(count)
      ensures ok == memory
      ensures if ok then fresh(slots) && slots.Length == 2 * old(slots.Length) else slots == old(slots)
    {
      hide Used, NoGaps, Represents, Distinct, Moved;
      if !memory {
        return false;
      }
      ghost var all := entries;
      var was := slots;
      ghost var s := was[..];
      slots := new Slot<K, V>[2 * was.Length](_ => Free);
      count, entries := 0, map[];
      EmptyTable(slots[..], hash);
      NothingMoved(s, all);
      for i := 0 to was.Length
        invariant Valid() && fresh(slots) && slots.Length == 2 * was.Length && was[..] == s
        invariant count == Used(s[..i]) && Moved(s, all, entries, i)
      {
        UsedPrefix(s, i);
        StepUsed(s, i);
        MovedNext(s, all, entries, i);
        if was[i].Taken? {
          Insert(was[i].key, was[i].val);
        }
      }
      assert s[..was.Length] == s;
      AllMoved(s, all, entries);
      ok := true;
    }

    /** layout_donor_add(): once the table wants to grow and cannot, no more donors are taken. */
    method AddDonor(k: K, v: V, memory: bool)
      requires Valid() && slots.Length > 0
      modifies this, slots
      ensures Valid() && slots.Length > 0
      ensures State(entries, slots.Length) == DonorStep(State(old(entries), old(slots.Length)), Op(k, v, memory))
    {
      if (count + 1) * 10 >= slots.Length * 7 {
        var ok := Grow(memory);
        if !ok {
          return;
        }
      }
      Insert(k, v);
    }

    /** mark_inode_seen(): a table that cannot grow still takes keys while a slot would stay free. */
    method Mark(k: K, v: V, memory: bool)
      requires Valid()
      modifies this, slots
      ensures Valid()
      ensures State(entries, slots.Length) == MarkStep(State(old(entries), old(slots.Length)), Op(k, v, memory))
    {
      if slots.Length == 0 {
        return;
      }
      if (count + 1) * 10 >= slots.Length * 7 {
        var ok := Grow(memory);
        if !ok && count + 1 >= slots.Length {
          return;
        }
      }
      Insert(k, v);
    }
  }

  lemma NothingIn<K(!new), V(!new)>(s: seq<Slot<K, V>>, m: map<K, V>)
    requires s == [] && Represents(s, m)
    ensures forall k :: k !in m
  {
  }

  lemma EmptyTable<K(!new), V(!new)>(s: seq<Slot<K, V>>, hash: K -> nat)
    requires forall i :: 0 <= i < |s| ==> s[i].Free?
    ensures NoGaps(s, hash) && Distinct(s) && Used(s) == 0
    ensures Represents(s, map[])
  {
    UsedNone(s);
  }

  /** Taking the slot a probe found keeps the table in order. */
  lemma Inserted<K(!new), V(!new)>(s: seq<Slot<K, V>>, hash: K -> nat, m: map<K, V>, i: nat, k: K, v: V)
    requires NoGaps(s, hash) && Distinct(s) && Represents(s, m)
    requires i < |s| && s[i].Free? && k !in m
    requires Passed(s, Home(hash(k), |s|), i, k)
    ensures var s' := s[i := Taken(k, v)];
            NoGaps(s', hash) && Distinct(s') && Represents(s', m[k := v])
  {
    hide Home, Dist;
    var s', m' := s[i := Taken(k, v)], m[k := v];
    assert s'[i].Taken? && s'[i].key == k;
    forall q | q in m'
      ensures exists j :: 0 <= j < |s'| && s'[j].Taken? && s'[j].key == q
    {
      if q != k {
        var j :| 0 <= j < |s| && s[j].Taken? && s[j].key == q;
        assert s'[j] == s[j];
      }
    }
  }

  lemma StepUsed<K, V>(s: seq<Slot<K, V>>, i: nat)
    requires i < |s|
    ensures Used(s[..i + 1]) == Used(s[..i]) + (if s[i].Taken? then 1 else 0)
  {
    assert s[..i + 1][..i] == s[..i];
  }

  /** The entries of the first n old slots are in the new table, and nothing else. */
  ghost predicate Moved<K(!new), V(!new)>(s: seq<Slot<K, V>>, all: map<K, V>, now: map<K, V>, n: nat)
    requires n <= |s|
  {
    && (forall k :: k in now <==> exists j :: 0 <= j < n && s[j].Taken? && s[j].key == k)
    && (forall k :: k in now ==> k in all && now[k] == all[k])
  }

  lemma NothingMoved<K(!new), V(!new)>(s: seq<Slot<K, V>>, all: map<K, V>)
    ensures Moved(s, all, map[], 0) && Used(s[..0]) == 0
  {
    UsedNone(s[..0]);
  }

  lemma MovedNext<K(!new), V(!new)>(s: seq<Slot<K, V>>, all: map<K, V>, now: map<K, V>, i: nat)
    requires Distinct(s) && Represents(s, all) && i < |s| && Moved(s, all, now, i)
    ensures s[i].Free? ==> Moved(s, all, now, i + 1)
    ensures s[i].Taken? ==> s[i].key !in now && Moved(s, all, now[s[i].key := s[i].val], i + 1)
  {
  }

  lemma AllMoved<K(!new), V(!new)>(s: seq<Slot<K, V>>, all: map<K, V>, now: map<K, V>)
    requires Represents(s, all) && Moved(s, all, now, |s|)
    ensures now == all
  {
  }

  // ---- Over a run ----

  datatype State<K, V> = State(entries: map<K, V>, cap: nat)

  /** One registration, and whether memory could be had if the table wanted to grow. */
  datatype Op<K, V> = Op(key: K, val: V, memory: bool)

  predicate Wants<K(!new), V(!new)>(s: State<K, V>) {
    (|s.entries| + 1) * 10 >= s.cap * 7
  }

  function Grown<K(!new), V(!new)>(s: State<K, V>, op: Op<K, V>): State<K, V> {
    if Wants(s) && op.memory then s.(cap := 2 * s.cap) else s
  }

  /** The first value registered for a key stays. */
  function Put<K(!new), V(!new)>(s: State<K, V>, op: Op<K, V>): State<K, V> {
    if op.key in s.entries then s else s.(entries := s.entries[op.key := op.val])
  }

  function DonorStep<K(!new), V(!new)>(s: State<K, V>, op: Op<K, V>): State<K, V> {
    if Wants(s) && !op.memory then s else Put(Grown(s, op), op)
  }

  function MarkStep<K(!new), V(!new)>(s: State<K, V>, op: Op<K, V>): State<K, V> {
    if s.cap == 0 || (Wants(s) && !op.memory && |s.entries| + 1 >= s.cap) then s else Put(Grown(s, op), op)
  }

  function Donors<K(!new), V(!new)>(cap: nat, ops: seq<Op<K, V>>, n: nat): State<K, V>
    requires n <= |ops|
  {
    if n == 0 then State(map[], cap) else DonorStep(Donors(cap, ops, n - 1), ops[n - 1])
  }

  function Marks<K(!new), V(!new)>(cap: nat, ops: seq<Op<K, V>>, n: nat): State<K, V>
    requires n <= |ops|
  {
    if n == 0 then State(map[], cap) else MarkStep(Marks(cap, ops, n - 1), ops[n - 1])
  }

  /** A registration that was turned away because memory was. */
  ghost predicate DonorDropped<K(!new), V(!new)>(cap: nat, ops: seq<Op<K, V>>, i: nat)
    requires i < |ops|
  {
    Wants(Donors(cap, ops, i)) && !ops[i].memory
  }

  /**
   * Over any run a key answers with the value of its first registration that was not turned away; a key
   * without one answers nothing.
   */
  lemma {:induction false} FirstDonorWins<K(!new), V(!new)>(cap: nat, ops: seq<Op<K, V>>, n: nat, k: K)
    requires n <= |ops|
    ensures k in Donors(cap, ops, n).entries <==>
            exists i :: 0 <= i < n && ops[i].key == k && !DonorDropped(cap, ops, i)
    ensures forall i :: 0 <= i < n && ops[i].key == k && !DonorDropped(cap, ops, i)
                        && (forall j :: 0 <= j < i && ops[j].key == k ==> DonorDropped(cap, ops, j))
                        ==> k in Donors(cap, ops, n).entries && Donors(cap, ops, n).entries[k] == ops[i].val
  {
    if n > 0 {
      FirstDonorWins(cap, ops, n - 1, k);
      if ops[n - 1].key == k && !DonorDropped(cap, ops, n - 1) {
        assert k in Donors(cap, ops, n).entries;
      }
    }
  }

  ghost predicate MarkDropped<K(!new), V(!new)>(cap: nat, ops: seq<Op<K, V>>, i: nat)
    requires i < |ops|
  {
    var s := Marks(cap, ops, i);
    Wants(s) && !ops[i].memory && |s.entries| + 1 >= s.cap
  }

  /**
   * An inode is found exactly when some mark of it was not dropped: refused memory can lose marks, but never
   * makes an inode look seen that was not.
   */
  lemma {:induction false} SeenExactly<K(!new), V(!new)>(cap: nat, ops: seq<Op<K, V>>, n: nat, k: K)
    requires n <= |ops| && cap > 0
    ensures Marks(cap, ops, n).cap > 0
    ensures k in Marks(cap, ops, n).entries <==> exists i :: 0 <= i < n && ops[i].key == k && !MarkDropped(cap, ops, i)
  {
    if n > 0 {
      SeenExactly(cap, ops, n - 1, k);
      if ops[n - 1].key == k && !MarkDropped(cap, ops, n - 1) {
        assert k in Marks(cap, ops, n).entries;
      }
    }
  }

  /** With memory to be had, nothing is ever dropped. */
  lemma NothingDropped<K(!new), V(!new)>(cap: nat, ops: seq<Op<K, V>>, n: nat, k: K)
    requires n <= |ops| && cap > 0 && forall i :: 0 <= i < |ops| ==> ops[i].memory
    ensures k in Marks(cap, ops, n).entries <==> exists i :: 0 <= i < n && ops[i].key == k
    ensures k in Donors(cap, ops, n).entries <==> exists i :: 0 <= i < n && ops[i].key == k
  {
    hide Marks, Donors, Wants;
    SeenExactly(cap, ops, n, k);
    FirstDonorWins(cap, ops, n, k);
    if i :| 0 <= i < n && ops[i].key == k {
      assert !MarkDropped(cap, ops, i) && !DonorDropped(cap, ops, i);
    }
  }
}
