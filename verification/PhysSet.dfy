/** The addresses a dedupe group has accounted for, and what each destination is credited (src/fiemap.c). */
module PhysSet {
  import opened Fiemap
  import opened Options

  function Elems(s: seq<nat>): set<nat> { set x | x in s }

  ghost predicate Rising(s: seq<nat>) {
    forall i, j :: 0 <= i < j < |s| ==> s[i] <= s[j]
  }

  ghost predicate Strict(s: seq<nat>) {
    forall i, j :: 0 <= i < j < |s| ==> s[i] < s[j]
  }

  lemma ElemsAppend(s: seq<nat>, x: nat)
    ensures Elems(s + [x]) == Elems(s) + {x}
    ensures Elems([x] + s) == Elems(s) + {x}
  {
  }

  lemma InElems(s: seq<nat>, i: nat)
    requires i < |s|
    ensures s[i] in Elems(s)
  {
  }

  /** In a rising sequence nothing exceeds the last entry. */
  lemma LastIsGreatest(s: seq<nat>)
    requires Rising(s) && s != []
    ensures forall y :: y in Elems(s) ==> y <= s[|s| - 1]
  {
  }

  lemma RisingInit(s: seq<nat>)
    requires Rising(s) && s != []
    ensures Rising(s[..|s| - 1])
  {
  }

  lemma StrictRises(s: seq<nat>)
    requires Strict(s)
    ensures Rising(s)
    ensures forall n :: 0 <= n <= |s| ==> Strict(s[..n])
  {
  }

  lemma {:induction false} StrictSize(s: seq<nat>)
    requires Strict(s)
    ensures |Elems(s)| == |s|
  {
    if s == [] {
      NoElems();
    } else {
      var init, last := s[..|s| - 1], s[|s| - 1];
      assert s == init + [last];
      StrictSize(init);
      ElemsAppend(init, last);
      assert last !in Elems(init);
    }
  }

  lemma StrictAppend(s: seq<nat>, x: nat)
    requires Strict(s) && (s != [] ==> s[|s| - 1] < x)
    ensures Strict(s + [x])
  {
  }

  lemma RisingAppend(s: seq<nat>, x: nat)
    requires Rising(s) && forall y :: y in Elems(s) ==> y <= x
    ensures Rising(s + [x])
  {
    forall i | 0 <= i < |s| ensures s[i] <= x { assert s[i] in Elems(s); }
  }

  function Insert(s: seq<nat>, x: nat): (r: seq<nat>) {
    if s == [] || s[|s| - 1] <= x then s + [x]
    else Insert(s[..|s| - 1], x) + [s[|s| - 1]]
  }

  lemma {:induction false} InsertProps(s: seq<nat>, x: nat)
    requires Rising(s)
    ensures Rising(Insert(s, x)) && |Insert(s, x)| == |s| + 1 && Elems(Insert(s, x)) == Elems(s) + {x}
  {
    hide Rising, Elems;
    if s == [] || s[|s| - 1] <= x {
      if s != [] { LastIsGreatest(s); }
      if s == [] { NoElems(); }
      RisingAppend(s, x);
      ElemsAppend(s, x);
    } else {
      var init, last := s[..|s| - 1], s[|s| - 1];
      LastIsGreatest(s);
      RisingInit(s);
      InsertProps(init, x);
      assert s == init + [last];
      ElemsAppend(init, last);
      ElemsAppend(Insert(init, x), last);
      RisingAppend(Insert(init, x), last);
    }
  }

  /** What qsort() leaves. */
  function Sort(s: seq<nat>): (r: seq<nat>)
    ensures Rising(r) && |r| == |s| && Elems(r) == Elems(s)
  {
    if s == [] then [] else
      var init, last := s[..|s| - 1], s[|s| - 1];
      assert s == init + [last];
      ElemsAppend(init, last);
      InsertProps(Sort(init), last);
      Insert(Sort(init), last)
  }

  /** Equal neighbours collapsed. */
  function Unique(s: seq<nat>): (r: seq<nat>)
    ensures |r| <= |s|
    ensures s != [] ==> r != [] && r[|r| - 1] == s[|s| - 1]
  {
    if |s| < 2 then s
    else
      var r := Unique(s[..|s| - 1]);
      if s[|s| - 2] == s[|s| - 1] then r else r + [s[|s| - 1]]
  }

  lemma {:induction false} UniqueProps(s: seq<nat>)
    requires Rising(s)
    ensures Strict(Unique(s)) && Elems(Unique(s)) == Elems(s)
  {
    hide Elems;
    if |s| >= 2 {
      var init, last := s[..|s| - 1], s[|s| - 1];
      UniqueProps(init);
      InElems(init, |init| - 1);
      assert s == init + [last];
      ElemsAppend(init, last);
      ElemsAppend(Unique(init), last);
      hide Rising, Strict;
      if s[|s| - 2] != last { StrictAppend(Unique(init), last) by { assert init[|init| - 1] < last; } }
    }
  }

  /** What the first i entries collapse to. */
  ghost predicate Collapsed(s: seq<nat>, i: nat, out: seq<nat>)
    requires i <= |s|
  {
    out == Unique(s[..i])
  }

  lemma CollapsedOne(s: seq<nat>)
    requires s != []
    ensures Collapsed(s, 1, [s[0]])
  {
  }

  lemma CollapsedStep(s: seq<nat>, i: nat, out: seq<nat>)
    requires 0 < i < |s| && Collapsed(s, i, out)
    ensures out != []
    ensures Collapsed(s, i + 1, if s[i] == out[|out| - 1] then out else out + [s[i]])
  {
    assert s[..i + 1][..i] == s[..i];
  }

  lemma CollapsedAll(s: seq<nat>, out: seq<nat>)
    requires Collapsed(s, |s|, out)
    ensures out == Unique(s)
  {
    assert s[..|s|] == s;
  }

  /** The second half of sort_uniq() and phys_set_merge(): equal neighbours collapse in place. */
  method Compact(v: array<nat>, n: nat) returns (w: nat)
    requires n <= v.Length
    modifies v
    ensures w <= n && v[..w] == Unique(old(v[..n]))
  {
    if n == 0 {
      return 0;
    }
    hide *;
    ghost var s := v[..n];
    ghost var out := [v[0]];
    w := 1;
    var i := 1;
    CollapsedOne(s);
    while i < n
      invariant 1 <= w <= i <= n && |out| == w
      invariant forall k :: i <= k < n ==> v[k] == s[k]
      invariant forall k :: 0 <= k < w ==> v[k] == out[k]
      invariant Collapsed(s, i, out)
    {
      CollapsedStep(s, i, out);
      if v[i] != v[w - 1] {
        v[w] := v[i];
        out := out + [s[i]];
        w := w + 1;
      }
      i := i + 1;
    }
    CollapsedAll(s, out);
    assert v[..w] == out;
  }

  /** Both sequences in order, built from the back; on a tie the added entry goes last. */
  function Merged(a: seq<nat>, b: seq<nat>): (r: seq<nat>)
    ensures |r| == |a| + |b|
  {
    if b == [] then a
    else if a != [] && a[|a| - 1] > b[|b| - 1] then Merged(a[..|a| - 1], b) + [a[|a| - 1]]
    else Merged(a, b[..|b| - 1]) + [b[|b| - 1]]
  }

  lemma {:induction false} MergedProps(a: seq<nat>, b: seq<nat>)
    requires Strict(a) && Strict(b)
    ensures Rising(Merged(a, b)) && Elems(Merged(a, b)) == Elems(a) + Elems(b)
    decreases |a| + |b|
  {
    hide Elems, Rising, Strict;
    StrictRises(a);
    StrictRises(b);
    if b != [] {
      var i, j := |a| - 1, |b| - 1;
      assert b == b[..j] + [b[j]];
      ElemsAppend(b[..j], b[j]);
      LastIsGreatest(b);
      if a != [] { LastIsGreatest(a); }
      if a != [] && a[i] > b[j] {
        MergedProps(a[..i], b);
        assert a == a[..i] + [a[i]];
        ElemsAppend(a[..i], a[i]);
        ElemsAppend(Merged(a[..i], b), a[i]);
        RisingAppend(Merged(a[..i], b), a[i]);
      } else {
        MergedProps(a, b[..j]);
        if a == [] { NoElems(); }
        ElemsAppend(Merged(a, b[..j]), b[j]);
        RisingAppend(Merged(a, b[..j]), b[j]);
      }
    } else {
      assert Elems(b) == {} by { NoElems(); }
    }
  }

  lemma NoElems()
    ensures Elems([]) == {}
  {
  }

  lemma MergedStep(a: seq<nat>, b: seq<nat>, i: nat, j: nat)
    requires i <= |a| && 0 < j <= |b|
    ensures Merged(a[..i], b[..j]) ==
            if i > 0 && a[i - 1] > b[j - 1] then Merged(a[..i - 1], b[..j]) + [a[i - 1]]
            else Merged(a[..i], b[..j - 1]) + [b[j - 1]]
  {
    assert i > 0 ==> a[..i][..i - 1] == a[..i - 1];
    assert b[..j][..j - 1] == b[..j - 1];
  }

  /** sort_uniq() on the first n entries. */
  method SortUniq(v: array<nat>, n: nat) returns (w: nat)
    requires n <= v.Length
    modifies v
    ensures w <= n && v[..w] == Unique(Sort(old(v[..n])))
  {
    if n < 2 {
      return n;
    }
    var sorted := Sort(v[..n]);
    forall i | 0 <= i < n { v[i] := sorted[i]; }
    assert v[..n] == sorted;
    w := Compact(v, n);
  }

  /** The merge is what is left to merge, then `tail`. */
  ghost predicate Merging(a: seq<nat>, b: seq<nat>, i: nat, j: nat, tail: seq<nat>)
    requires i <= |a| && j <= |b|
  {
    Merged(a[..i], b[..j]) + tail == Merged(a, b)
  }

  lemma MergingAll(a: seq<nat>, b: seq<nat>)
    ensures Merging(a, b, |a|, |b|, [])
  {
    assert a[..|a|] == a && b[..|b|] == b;
  }

  lemma MergingStep(a: seq<nat>, b: seq<nat>, i: nat, j: nat, tail: seq<nat>)
    requires i <= |a| && 0 < j <= |b| && Merging(a, b, i, j, tail)
    ensures if i > 0 && a[i - 1] > b[j - 1] then Merging(a, b, i - 1, j, [a[i - 1]] + tail)
            else Merging(a, b, i, j - 1, [b[j - 1]] + tail)
  {
    hide Merged;
    MergedStep(a, b, i, j);
    if i > 0 && a[i - 1] > b[j - 1] {
      Moved(Merged(a[..i - 1], b[..j]), a[i - 1], tail);
    } else {
      Moved(Merged(a[..i], b[..j - 1]), b[j - 1], tail);
    }
  }

  lemma Moved(head: seq<nat>, x: nat, tail: seq<nat>)
    ensures head + [x] + tail == head + ([x] + tail)
  {
  }

  lemma MergingDone(a: seq<nat>, b: seq<nat>, i: nat, tail: seq<nat>)
    requires i <= |a| && Merging(a, b, i, 0, tail)
    ensures Merged(a, b) == a[..i] + tail
  {
  }

  class AddressSet {
    var v: array<nat>
    var n: nat

    ghost predicate Valid()
      reads this, v
    {
      n <= v.Length && Strict(v[..n])
    }

    ghost function Addresses(): set<nat>
      reads this, v
      requires n <= v.Length
    {
      Elems(v[..n])
    }

    /** fiemap_phys_set_init(): the addresses of the target's map; none without a map or memory. */
    constructor (fm: Option<seq<Extent>>, memory: bool)
      ensures Valid() && fresh(v)
      ensures Addresses() == if fm.Some? && memory then AddressesOf(fm.value, |fm.value|) else {}
    {
      v := new nat[0];
      n := 0;
      new;
      hide Sort, Unique, Elems;
      assert v[..n] == [];
      NoElems();
      if fm.Some? && |fm.value| > 0 && memory {
        var m := fm.value;
        v := new nat[|m|](_ => 0);
        assert v[..0] == [];
        for i := 0 to |m|
          invariant v.Length == |m| && fresh(v) && n <= i
          invariant Elems(v[..n]) == AddressesOf(m, i)
        {
          if Addressable(m[i]) {
            ghost var before := v[..n];
            v[n] := m[i].physical;
            assert v[..n + 1] == before + [m[i].physical];
            ElemsAppend(before, m[i].physical);
            n := n + 1;
          }
        }
        UniqueProps(Sort(v[..n]));
        n := SortUniq(v, n);
      }
    }

    /** realloc() to a capacity that holds `want`, by doubling; what is there stays. */
    method Grow(want: nat)
      requires n <= v.Length
      modifies this`v
      ensures fresh(v) && want <= v.Length && n <= v.Length && v[..n] == old(v[..n])
    {
      var cap := if v.Length > 0 then v.Length else 16;
      while cap < want
        invariant cap > 0 && n <= cap
      {
        cap := cap * 2;
      }
      var grown := new nat[cap](_ => 0);
      forall i | 0 <= i < n { grown[i] := v[i]; }
      v := grown;
    }

    /**
     * phys_set_merge(): merges `add` into the set from the back, in place. If the memory it would need is
     * refused the set stays as it was.
     */
    method Merge(add: seq<nat>, memory: bool)
      requires Valid() && Strict(add)
      modifies this, v
      ensures Valid() && (v == old(v) || fresh(v))
      ensures memory || old(n) + |add| <= old(v.Length) ==> Addresses() == old(Addresses()) + Elems(add)
      ensures !memory && old(n) + |add| > old(v.Length) ==> Addresses() == old(Addresses())
    {
      hide Elems, Strict, Rising, Merged, Unique;
      if |add| == 0 {
        NoElems();
        return;
      }
      ghost var orig := v[..n];
      if n + |add| > v.Length {
        if !memory {
          return;
        }
        Grow(n + |add|);
      }
      MergedProps(orig, add);
      UniqueProps(Merged(orig, add));
      MergeBackwards(add);
      n := Compact(v, n + |add|);
    }

    /** The merge loop, from the last free entry down. */
    method MergeBackwards(add: seq<nat>)
      requires n + |add| <= v.Length
      modifies v
      ensures v[..n + |add|] == Merged(old(v[..n]), add)
    {
      hide Merged, Merging;
      ghost var orig := v[..n];
      var t := n + |add|;
      var i, j, k := n, |add|, t;
      ghost var tail: seq<nat> := [];
      MergingAll(orig, add);
      while j > 0
        invariant 0 <= i <= n && 0 <= j <= |add| && k == i + j
        invariant forall x :: 0 <= x < i ==> v[x] == orig[x]
        invariant |tail| == t - k && forall y :: k <= y < t ==> v[y] == tail[y - k]
        invariant Merging(orig, add, i, j, tail)
        decreases j + i
      {
        MergingStep(orig, add, i, j, tail);
        var x: nat;
        if i > 0 && v[i - 1] > add[j - 1] {
          i := i - 1;
          x := v[i];
        } else {
          j := j - 1;
          x := add[j];
        }
        k := k - 1;
        v[k] := x;
        tail := [x] + tail;
      }
      MergingDone(orig, add, i, tail);
      assert v[..t] == orig[..i] + tail;
    }

    /**
     * fiemap_unshared_bytes(): the destination's bytes on storage not accounted for yet, whose addresses then
     * join the set. If memory is refused, for their list or for a set that has to grow, the set stays as it was.
     */
    method UnsharedBytes(dm: Option<seq<Extent>>, off: nat, len: nat, list: bool, memory: bool) returns (bytes: nat)
      requires Valid()
      modifies this, v
      ensures Valid() && (v == old(v) || fresh(v))
      ensures bytes == if dm.Some? then Credit(dm.value, off, len, old(Addresses()), |dm.value|) else len
      ensures dm == None ==> Addresses() == old(Addresses())
      ensures dm.Some? ==>
                var unseen := Credited(dm.value, off, len, old(Addresses()), |dm.value|);
                var joined := list && (memory || old(n) + |unseen| <= old(v.Length));
                Addresses() == old(Addresses()) + (if joined then unseen else {})
    {
      hide Strict, Rising, Sort, Unique, Elems, Credit, Credited;
      if dm == None {
        return len;
      }
      ghost var before := v[..n];
      var found, nFound;
      bytes, found, nFound := Measure(dm.value, off, len);
      assert v[..n] == before;
      if list {
        UniqueProps(Sort(found[..nFound]));
        var w := SortUniq(found, nFound);
        StrictSize(found[..w]);
        assert v[..n] == before;
        Merge(found[..w], memory);
      }
    }

    /**
     * One destination of a group after the other. `joined` says for each whether its addresses joined the set:
     * the set is then the one of SeenAfter, and the credits are of what was unseen there.
     */
    method MeasureAll(calls: seq<Call>) returns (credits: seq<nat>, ghost joined: seq<bool>)
      requires Valid()
      modifies this, v
      ensures Valid() && (v == old(v) || fresh(v))
      ensures Measured(old(Addresses()), calls, joined, credits, Addresses())
    {
      hide Elems, Strict, Credit, Credited, Measured;
      credits, joined := [], [];
      ghost var seen := Addresses();
      assert Measured(seen, calls[..0], joined, credits, seen) by { NothingMeasured(seen, calls[..0]); }
      for k := 0 to |calls|
        invariant Valid() && (v == old(v) || fresh(v))
        invariant Measured(seen, calls[..k], joined, credits, Addresses())
      {
        var c := calls[k];
        ghost var before := Addresses();
        ghost var joins := c.list && (c.memory || n + |Unseen(c, before)| <= v.Length);
        var bytes := UnsharedBytes(c.dm, c.off, c.len, c.list, c.memory);
        assert bytes == Reported(c, before);
        assert Addresses() == before + (if joins then Unseen(c, before) else {});
        MeasuredOneMore(seen, calls[..k], joined, credits, before, c, joins);
        assert calls[..k + 1] == calls[..k] + [c];
        credits, joined := credits + [bytes], joined + [joins];
      }
      assert calls[..|calls|] == calls;
    }

    /** The walk over the records: what counts, and the addresses it is on. */
    method Measure(m: seq<Extent>, off: nat, len: nat) returns (bytes: nat, found: array<nat>, nFound: nat)
      requires n <= v.Length
      ensures fresh(found) && nFound <= found.Length && v[..n] == old(v[..n])
      ensures bytes == Credit(m, off, len, Addresses(), |m|)
      ensures Elems(found[..nFound]) == Credited(m, off, len, Addresses(), |m|)
    {
      found, nFound, bytes := new nat[|m|](_ => 0), 0, 0;
      assert found[..0] == [];
      for i := 0 to |m|
        invariant nFound <= i
        invariant bytes == Credit(m, off, len, Addresses(), i)
        invariant Elems(found[..nFound]) == Credited(m, off, len, Addresses(), i)
      {
        var e := m[i];
        var clipped := Clipped(e, off, len);
        if clipped == 0 || (Addressable(e) && n > 0 && e.physical in v[..n]) {
          continue;
        }
        bytes := bytes + clipped;
        if Addressable(e) {
          ghost var before := found[..nFound];
          found[nFound] := e.physical;
          assert found[..nFound + 1] == before + [e.physical];
          ElemsAppend(before, e.physical);
          nFound := nFound + 1;
        }
      }
    }
  }

  // ---- What a destination is credited ----

  predicate Addressable(e: Extent) { e.flags * NO_PHYS == {} }

  /** The addresses of the first n records that have one. */
  function AddressesOf(m: seq<Extent>, n: nat): set<nat>
    requires n <= |m|
  {
    if n == 0 then {}
    else AddressesOf(m, n - 1) + (if Addressable(m[n - 1]) then {m[n - 1].physical} else {})
  }

  /** How much of the record lies in [off, off + len). */
  function Clipped(e: Extent, off: nat, len: nat): nat {
    var start := if e.logical > off then e.logical else off;
    var end := if e.End() > off + len then off + len else e.End();
    if end <= start then 0 else end - start
  }

  predicate Counted(e: Extent, off: nat, len: nat, seen: set<nat>) {
    Clipped(e, off, len) > 0 && (Addressable(e) ==> e.physical !in seen)
  }

  /** Bytes of the first n records that lie in the range and on no storage seen before. */
  function Credit(m: seq<Extent>, off: nat, len: nat, seen: set<nat>, n: nat): nat
    requires n <= |m|
  {
    if n == 0 then 0
    else Credit(m, off, len, seen, n - 1)
         + (if Counted(m[n - 1], off, len, seen) then Clipped(m[n - 1], off, len) else 0)
  }

  /** The byte is in a record of the map that has no address, or one not seen before. */
  ghost predicate Unpaid(m: seq<Extent>, n: nat, seen: set<nat>, x: nat)
    requires n <= |m|
  {
    exists i :: 0 <= i < n && Pays(m[i], seen, x)
  }

  predicate Pays(e: Extent, seen: set<nat>, x: nat) {
    && e.logical <= x < e.logical + e.length
    && (UNKNOWN in e.flags || DELALLOC in e.flags || DATA_INLINE in e.flags || e.physical !in seen)
  }

  /** Those bytes, one by one. */
  ghost function UnpaidIn(m: seq<Extent>, n: nat, seen: set<nat>, off: nat, len: nat): set<nat>
    requires n <= |m|
  {
    set x: nat | off <= x < off + len && Unpaid(m, n, seen, x)
  }

  function Range(a: nat, b: nat): (s: set<nat>)
    ensures forall x :: x in s <==> a <= x < b
    decreases b
  {
    if a < b then Range(a, b - 1) + {b - 1} else {}
  }

  lemma {:induction false} RangeSize(a: nat, b: nat)
    requires a <= b
    ensures |Range(a, b)| == b - a
    decreases b - a
  {
    if a < b {
      RangeSize(a, b - 1);
    }
  }

  /** The bytes of the range that one record pays for. */
  function Part(e: Extent, off: nat, len: nat, seen: set<nat>): set<nat> {
    if Counted(e, off, len, seen)
    then Range(if e.logical > off then e.logical else off, if e.End() > off + len then off + len else e.End())
    else {}
  }

  lemma PartPays(e: Extent, off: nat, len: nat, seen: set<nat>)
    ensures |Part(e, off, len, seen)| == if Counted(e, off, len, seen) then Clipped(e, off, len) else 0
    ensures forall x: nat :: x in Part(e, off, len, seen) <==> off <= x < off + len && Pays(e, seen, x)
  {
    NoPhysFlags(e.flags);
    if Counted(e, off, len, seen) {
      RangeSize(if e.logical > off then e.logical else off, if e.End() > off + len then off + len else e.End());
    }
  }

  /** No byte is in two records. */
  lemma RecordPays(m: seq<Extent>, off: nat, len: nat, seen: set<nat>, n: nat)
    requires Sorted(m) && 0 < n <= |m|
    ensures Part(m[n - 1], off, len, seen) !! UnpaidIn(m, n - 1, seen, off, len)
    ensures UnpaidIn(m, n, seen, off, len) == UnpaidIn(m, n - 1, seen, off, len) + Part(m[n - 1], off, len, seen)
  {
    hide Part, Sorted;
    PartPays(m[n - 1], off, len, seen);
    forall x: nat
      ensures Unpaid(m, n, seen, x) <==> Unpaid(m, n - 1, seen, x) || Pays(m[n - 1], seen, x)
      ensures !(Unpaid(m, n - 1, seen, x) && Pays(m[n - 1], seen, x))
    {
      PaysOnce(m, seen, n, x);
    }
    var part := Part(m[n - 1], off, len, seen);
    forall x | x in part
      ensures x !in UnpaidIn(m, n - 1, seen, off, len)
    {
      PaysOnce(m, seen, n, x);
    }
  }

  lemma PaysOnce(m: seq<Extent>, seen: set<nat>, n: nat, x: nat)
    requires Sorted(m) && 0 < n <= |m|
    ensures Unpaid(m, n, seen, x) <==> Unpaid(m, n - 1, seen, x) || Pays(m[n - 1], seen, x)
    ensures !(Unpaid(m, n - 1, seen, x) && Pays(m[n - 1], seen, x))
  {
    if i :| 0 <= i < n - 1 && Pays(m[i], seen, x) {
      assert m[i].End() <= m[n - 1].logical;
    }
  }

  /** The credit is how many bytes of the range are on no storage seen before, in a record of the map. */
  lemma {:induction false} CreditCounts(m: seq<Extent>, off: nat, len: nat, seen: set<nat>, n: nat)
    requires Sorted(m) && n <= |m|
    ensures Credit(m, off, len, seen, n) == |UnpaidIn(m, n, seen, off, len)|
  {
    hide Unpaid, UnpaidIn, Clipped, Counted, Part;
    if n > 0 {
      CreditCounts(m, off, len, seen, n - 1);
      RecordPays(m, off, len, seen, n);
      PartPays(m[n - 1], off, len, seen);
      UnionSize(UnpaidIn(m, n - 1, seen, off, len), Part(m[n - 1], off, len, seen));
    } else {
      NonePays(m, seen, off, len);
    }
  }

  lemma UnionSize(a: set<nat>, b: set<nat>)
    requires a !! b
    ensures |a + b| == |a| + |b|
  {
  }

  lemma NonePays(m: seq<Extent>, seen: set<nat>, off: nat, len: nat)
    ensures UnpaidIn(m, 0, seen, off, len) == {} && Credit(m, off, len, seen, 0) == 0
  {
  }

  /** The addresses those bytes are on. */
  function Credited(m: seq<Extent>, off: nat, len: nat, seen: set<nat>, n: nat): set<nat>
    requires n <= |m|
  {
    if n == 0 then {}
    else Credited(m, off, len, seen, n - 1)
         + (if Counted(m[n - 1], off, len, seen) && Addressable(m[n - 1]) then {m[n - 1].physical} else {})
  }

  /**
   * One measured destination, and whether its addresses joined the set. One without a map uses no address;
   * it is one without records here.
   */
  datatype Dest = Dest(recs: seq<Extent>, off: nat, len: nat, joined: bool)

  predicate On(e: Extent, off: nat, len: nat, x: nat) {
    Clipped(e, off, len) > 0 && Addressable(e) && e.physical == x
  }

  /** The destination's range has bytes at the address. */
  ghost predicate Uses(d: Dest, x: nat) {
    exists i :: 0 <= i < |d.recs| && On(d.recs[i], d.off, d.len, x)
  }

  /** The set once the first n destinations have been measured, one after the other. */
  function SeenAfter(seen: set<nat>, ds: seq<Dest>, n: nat): set<nat>
    requires n <= |ds|
    decreases n, 0
  {
    if n == 0 then seen
    else SeenAfter(seen, ds, n - 1) + (if ds[n - 1].joined then CreditedTo(seen, ds, n - 1) else {})
  }

  function CreditedTo(seen: set<nat>, ds: seq<Dest>, k: nat): set<nat>
    requires k < |ds|
    decreases k, 1
  {
    Credited(ds[k].recs, ds[k].off, ds[k].len, SeenAfter(seen, ds, k), |ds[k].recs|)
  }

  /** fiemap_unshared_bytes() for one destination, with the memory there was. */
  datatype Call = Call(dm: Option<seq<Extent>>, off: nat, len: nat, list: bool, memory: bool)

  function Dests(calls: seq<Call>, joined: seq<bool>): (ds: seq<Dest>)
    requires |joined| == |calls|
    ensures |ds| == |calls|
    ensures forall k :: 0 <= k < |ds| ==> ds[k] == DestOf(calls[k], joined[k])
  {
    seq(|calls|, k requires 0 <= k < |calls| => DestOf(calls[k], joined[k]))
  }

  function DestOf(c: Call, joined: bool): Dest {
    Dest(if c.dm.Some? then c.dm.value else [], c.off, c.len, joined)
  }

  function Unseen(c: Call, seen: set<nat>): set<nat> {
    if c.dm.Some? then Credited(c.dm.value, c.off, c.len, seen, |c.dm.value|) else {}
  }

  function Reported(c: Call, seen: set<nat>): nat {
    if c.dm.Some? then Credit(c.dm.value, c.off, c.len, seen, |c.dm.value|) else c.len
  }

  /** What the calls report, and the set they leave. Where no memory was refused, all addresses joined. */
  ghost predicate Measured(seen: set<nat>, calls: seq<Call>, joined: seq<bool>, credits: seq<nat>, now: set<nat>) {
    && |joined| == |credits| == |calls|
    && now == SeenAfter(seen, Dests(calls, joined), |calls|)
    && (forall k :: 0 <= k < |calls| ==> credits[k] == Reported(calls[k], SeenAfter(seen, Dests(calls, joined), k)))
    && (forall k :: 0 <= k < |calls| && calls[k].list && calls[k].memory ==> joined[k])
  }

  lemma NothingMeasured(seen: set<nat>, calls: seq<Call>)
    requires calls == []
    ensures Measured(seen, calls, [], [], seen)
  {
  }

  /** What later destinations do does not change what was seen before them. */
  lemma {:induction false} SameSeen(seen: set<nat>, ds: seq<Dest>, d: Dest, n: nat)
    requires n <= |ds|
    ensures SeenAfter(seen, ds + [d], n) == SeenAfter(seen, ds, n)
  {
    if n > 0 {
      SameSeen(seen, ds, d, n - 1);
    }
  }

  lemma SeenNext(seen: set<nat>, ds: seq<Dest>, d: Dest)
    ensures SeenAfter(seen, ds + [d], |ds| + 1) ==
            var before := SeenAfter(seen, ds, |ds|);
            before + (if d.joined then Credited(d.recs, d.off, d.len, before, |d.recs|) else {})
  {
    SameSeen(seen, ds, d, |ds|);
  }

  lemma UnseenOf(c: Call, joined: bool, seen: set<nat>)
    ensures var d := DestOf(c, joined); Credited(d.recs, d.off, d.len, seen, |d.recs|) == Unseen(c, seen)
  {
  }

  lemma MeasuredOneMore(seen: set<nat>, calls: seq<Call>, joined: seq<bool>, credits: seq<nat>, before: set<nat>,
                        c: Call, joins: bool)
    requires Measured(seen, calls, joined, credits, before) && (c.list && c.memory ==> joins)
    ensures Measured(seen, calls + [c], joined + [joins], credits + [Reported(c, before)],
                     before + if joins then Unseen(c, before) else {})
  {
    hide Credited, Credit, SeenAfter, Unseen, Reported;
    var ds, d := Dests(calls, joined), DestOf(c, joins);
    assert Dests(calls + [c], joined + [joins]) == ds + [d];
    SeenNext(seen, ds, d);
    UnseenOf(c, joins, before);
    forall k | 0 <= k <= |calls|
      ensures SeenAfter(seen, ds + [d], k) == SeenAfter(seen, ds, k)
    {
      SameSeen(seen, ds, d, k);
    }
  }

  lemma {:induction false} CreditedIsUnseen(m: seq<Extent>, off: nat, len: nat, seen: set<nat>, n: nat, x: nat)
    requires n <= |m|
    ensures x in Credited(m, off, len, seen, n) <==> x !in seen && exists i :: 0 <= i < n && On(m[i], off, len, x)
  {
    if n > 0 {
      CreditedIsUnseen(m, off, len, seen, n - 1, x);
      assert x in Credited(m, off, len, seen, n) && x !in Credited(m, off, len, seen, n - 1) ==>
          On(m[n - 1], off, len, x);
    }
  }

  /** An address is accounted for exactly if the target is on it or some measured destination's joined. */
  lemma {:induction false} SeenExactly(seen: set<nat>, ds: seq<Dest>, n: nat, x: nat)
    requires n <= |ds|
    ensures x in SeenAfter(seen, ds, n) <==>
            x in seen || exists l :: 0 <= l < n && ds[l].joined && Uses(ds[l], x)
  {
    hide Uses, Credited;
    if n > 0 {
      SeenExactly(seen, ds, n - 1, x);
      CreditedToExactly(seen, ds, n - 1, x);
    }
  }

  lemma CreditedToExactly(seen: set<nat>, ds: seq<Dest>, k: nat, x: nat)
    requires k < |ds|
    ensures x in CreditedTo(seen, ds, k) <==> x !in SeenAfter(seen, ds, k) && Uses(ds[k], x)
  {
    CreditedIsUnseen(ds[k].recs, ds[k].off, ds[k].len, SeenAfter(seen, ds, k), |ds[k].recs|, x);
  }

  /**
   * Over any destinations, whatever memory was refused: one is credited for an address it uses exactly if
   * the target is not on it and no destination before that uses it had its addresses join the set.
   */
  lemma CreditedExactly(seen: set<nat>, ds: seq<Dest>, k: nat, x: nat)
    requires k < |ds| && Uses(ds[k], x)
    ensures x in CreditedTo(seen, ds, k) <==>
            x !in seen && forall l :: 0 <= l < k && Uses(ds[l], x) ==> !ds[l].joined
  {
    hide Uses, Credited;
    CreditedToExactly(seen, ds, k, x);
    SeenExactly(seen, ds, k, x);
  }

  /**
   * Crediting is single for what joined: a credited address is credited to a later destination on it exactly
   * if neither joined the set then nor through any destination between.
   */
  lemma CreditedOnce(seen: set<nat>, ds: seq<Dest>, i: nat, k: nat, x: nat)
    requires i < k < |ds| && x in CreditedTo(seen, ds, i) && Uses(ds[k], x)
    ensures x in CreditedTo(seen, ds, k) <==> forall l :: i <= l < k && Uses(ds[l], x) ==> !ds[l].joined
    ensures ds[i].joined ==> x !in CreditedTo(seen, ds, k)
  {
    hide Uses, Credited;
    CreditedToExactly(seen, ds, i, x);
    CreditedExactly(seen, ds, i, x);
    CreditedExactly(seen, ds, k, x);
  }
}
