/** Extent maps as the kernel reports them, and what two of them say about shared storage (src/fiemap.c). */
module Fiemap {
  import opened Options

  datatype Flag =
    | LAST | UNKNOWN | DELALLOC | ENCODED | DATA_ENCRYPTED | NOT_ALIGNED | DATA_INLINE
    | DATA_TAIL | UNWRITTEN | MERGED | SHARED

  datatype Extent = Extent(logical: nat, physical: nat, length: nat, flags: set<Flag>) {
    function End(): nat { logical + length }
  }

  /** Records whose address is not a real, stable place on disk. */
  const NO_PHYS: set<Flag> := {UNKNOWN, DELALLOC, DATA_INLINE}

  ghost predicate Sorted(m: seq<Extent>) {
    && (forall i :: 0 <= i < |m| ==> m[i].length > 0)
    && (forall i, j :: 0 <= i < j < |m| ==> m[i].End() <= m[j].logical)
  }

  /** A map of the range [off, off + len): every record overlaps it, as do_fiemap_range() asks the kernel. */
  ghost predicate MapOf(m: seq<Extent>, off: nat, len: nat) {
    Sorted(m) && forall i :: 0 <= i < |m| ==> off < m[i].End() && m[i].logical < off + len
  }

  ghost predicate Covers(m: seq<Extent>, i: int, x: nat) {
    0 <= i < |m| && m[i].logical <= x < m[i].End()
  }

  ghost predicate HoleAt(m: seq<Extent>, x: nat) {
    forall i :: 0 <= i < |m| ==> !Covers(m, i, x)
  }

  /** Both bytes are in the same place of the same stored extent, by the i-th record of each map. */
  ghost predicate SameStored(a: seq<Extent>, x: nat, b: seq<Extent>, y: nat, i: int) {
    && Covers(a, i, x) && Covers(b, i, y)
    && (a[i].flags + b[i].flags) * NO_PHYS == {}
    && a[i].physical == b[i].physical
    && x - a[i].logical == y - b[i].logical
  }

  ghost predicate AgreeAt(a: seq<Extent>, x: nat, b: seq<Extent>, y: nat) {
    (HoleAt(a, x) && HoleAt(b, y)) || exists i :: SameStored(a, x, b, y, i)
  }

  /** The flags that stand for no real address. */
  lemma NoPhysFlags(flags: set<Flag>)
    ensures flags * NO_PHYS == {} <==> UNKNOWN !in flags && DELALLOC !in flags && DATA_INLINE !in flags
  {
    assert forall f :: f in flags * NO_PHYS <==> f in flags && f in NO_PHYS;
  }

  lemma HoleOnRecords(m: seq<Extent>, x: nat)
    ensures HoleAt(m, x) <==> forall i :: 0 <= i < |m| ==> !(m[i].logical <= x < m[i].logical + m[i].length)
  {
    if HoleAt(m, x) {
      forall i | 0 <= i < |m|
        ensures !(m[i].logical <= x < m[i].logical + m[i].length)
      {
        assert !Covers(m, i, x);
      }
    }
  }

  /** What agreeing means, on the records alone. */
  lemma AgreeOnRecords(a: seq<Extent>, x: nat, b: seq<Extent>, y: nat)
    ensures AgreeAt(a, x, b, y) <==>
            || ((forall i :: 0 <= i < |a| ==> !(a[i].logical <= x < a[i].logical + a[i].length))
                && (forall i :: 0 <= i < |b| ==> !(b[i].logical <= y < b[i].logical + b[i].length)))
            || exists i :: 0 <= i < |a| && i < |b| && OneStorage(a[i], x, b[i], y)
  {
    HoleOnRecords(a, x);
    HoleOnRecords(b, y);
    hide HoleAt;
    if i :| SameStored(a, x, b, y, i) {
      NoPhysFlags(a[i].flags + b[i].flags);
      assert OneStorage(a[i], x, b[i], y);
    }
    if i :| 0 <= i < |a| && i < |b| && OneStorage(a[i], x, b[i], y) {
      NoPhysFlags(a[i].flags + b[i].flags);
      assert SameStored(a, x, b, y, i);
    }
  }

  /** Both records have a real address, the same one, and the bytes are as far into them. */
  predicate OneStorage(e: Extent, x: nat, f: Extent, y: nat) {
    && e.logical <= x < e.logical + e.length && f.logical <= y < f.logical + f.length
    && x - e.logical == y - f.logical && e.physical == f.physical
    && UNKNOWN !in e.flags && DELALLOC !in e.flags && DATA_INLINE !in e.flags
    && UNKNOWN !in f.flags && DELALLOC !in f.flags && DATA_INLINE !in f.flags
  }

  /** gap_at(): unallocated bytes at `off` before record i, or `rest` if there is no such record. */
  function GapAt(m: seq<Extent>, i: nat, off: nat, rest: nat): (gap: nat) {
    if i >= |m| then rest
    else if m[i].logical > off then m[i].logical - off
    else 0
  }

  /** The records before i are behind `off`, and record i is not. */
  ghost predicate Reached(m: seq<Extent>, i: nat, off: nat) {
    (0 < i <= |m| ==> m[i - 1].End() <= off) && (i < |m| ==> off < m[i].End())
  }

  lemma GapIsHole(m: seq<Extent>, i: nat, off: nat, rest: nat, x: nat)
    requires Sorted(m) && i <= |m| && Reached(m, i, off) && off <= x < off + GapAt(m, i, off, rest)
    ensures HoleAt(m, x)
  {
    forall k | 0 <= k < |m|
      ensures !Covers(m, k, x)
    {
      if k < i {
        assert k < i - 1 ==> m[k].End() <= m[i - 1].logical;
      } else if i < k {
        assert m[i].End() <= m[k].logical;
      }
    }
  }

  /** Only one record covers a byte. */
  lemma CoverUnique(m: seq<Extent>, i: int, k: int, x: nat)
    requires Sorted(m) && Covers(m, i, x) && Covers(m, k, x)
    ensures i == k
  {
  }

  /** A gap on one side only, or of different lengths, is a byte on which the maps disagree. */
  lemma GapsDiffer(a: seq<Extent>, p: nat, b: seq<Extent>, q: nat, i: nat, rest: nat) returns (d: nat)
    requires Sorted(a) && Sorted(b) && i <= |a| && i <= |b| && Reached(a, i, p) && Reached(b, i, q) && rest > 0
    requires i < |a| ==> a[i].logical < p + rest
    requires i < |b| ==> b[i].logical < q + rest
    requires GapAt(a, i, p, rest) < GapAt(b, i, q, rest)
    ensures d < rest && !AgreeAt(a, p + d, b, q + d)
  {
    d := GapAt(a, i, p, rest);
    assert Covers(a, i, p + d);
    GapIsHole(b, i, q, rest, q + d);
  }

  lemma AgreeSymmetric(a: seq<Extent>, x: nat, b: seq<Extent>, y: nat)
    ensures AgreeAt(a, x, b, y) == AgreeAt(b, y, a, x)
  {
    if i :| SameStored(a, x, b, y, i) {
      assert SameStored(b, y, a, x, i);
    }
    if i :| SameStored(b, y, a, x, i) {
      assert SameStored(a, x, b, y, i);
    }
  }

  ghost predicate AgreeInRange(a: seq<Extent>, aOff: nat, b: seq<Extent>, bOff: nat, x: nat) {
    AgreeAt(a, aOff + x, b, bOff + x)
  }

  ghost predicate AgreeUpTo(a: seq<Extent>, p: nat, b: seq<Extent>, q: nat, n: nat) {
    forall x: nat :: x < n ==> AgreeInRange(a, p, b, q, x)
  }

  lemma Disagree(a: seq<Extent>, aOff: nat, b: seq<Extent>, bOff: nat, len: nat, i: nat, pos: nat)
    requires MapOf(a, aOff, len) && MapOf(b, bOff, len) && pos < len && i <= |a| && i <= |b|
    requires Reached(a, i, aOff + pos) && Reached(b, i, bOff + pos)
    requires GapAt(a, i, aOff + pos, len - pos) != GapAt(b, i, bOff + pos, len - pos)
    ensures !AgreeUpTo(a, aOff, b, bOff, len)
  {
    hide Sorted, HoleAt, AgreeAt;
    var p, q := aOff + pos, bOff + pos;
    if GapAt(a, i, p, len - pos) < GapAt(b, i, q, len - pos) {
      var d := GapsDiffer(a, p, b, q, i, len - pos);
      assert !AgreeInRange(a, aOff, b, bOff, pos + d);
    } else {
      var d := GapsDiffer(b, q, a, p, i, len - pos);
      AgreeSymmetric(a, p + d, b, q + d);
      assert !AgreeInRange(a, aOff, b, bOff, pos + d);
    }
  }

  lemma HoleStep(a: seq<Extent>, aOff: nat, b: seq<Extent>, bOff: nat, pos: nat, i: nat, rest: nat)
    requires Sorted(a) && Sorted(b) && i <= |a| && i <= |b|
    requires Reached(a, i, aOff + pos) && Reached(b, i, bOff + pos)
    requires GapAt(a, i, aOff + pos, rest) == GapAt(b, i, bOff + pos, rest)
    requires AgreeUpTo(a, aOff, b, bOff, pos)
    ensures var to := pos + GapAt(a, i, aOff + pos, rest);
            AgreeUpTo(a, aOff, b, bOff, to) && Reached(a, i, aOff + to) && Reached(b, i, bOff + to)
  {
    hide HoleAt;
    forall x: nat | pos <= x < pos + GapAt(a, i, aOff + pos, rest)
      ensures AgreeInRange(a, aOff, b, bOff, x)
    {
      GapIsHole(a, i, aOff + pos, rest, aOff + x);
      GapIsHole(b, i, bOff + pos, rest, bOff + x);
    }
  }

  lemma NotSame(a: seq<Extent>, p: nat, b: seq<Extent>, q: nat, i: nat)
    requires Sorted(a) && Sorted(b) && Covers(a, i, p) && Covers(b, i, q) && !SameStored(a, p, b, q, i)
    ensures !AgreeAt(a, p, b, q)
  {
    hide Sorted;
    if k :| SameStored(a, p, b, q, k) {
      CoverUnique(a, i, k, p);
    }
  }

  lemma RecordStep(a: seq<Extent>, aOff: nat, b: seq<Extent>, bOff: nat, pos: nat, i: nat, step: nat)
    requires i < |a| && i < |b| && SameStored(a, aOff + pos, b, bOff + pos, i)
    requires aOff + pos + step <= a[i].End() && bOff + pos + step <= b[i].End()
    requires AgreeUpTo(a, aOff, b, bOff, pos)
    ensures AgreeUpTo(a, aOff, b, bOff, pos + step)
  {
    forall x: nat | pos <= x < pos + step
      ensures AgreeInRange(a, aOff, b, bOff, x)
    {
      assert SameStored(a, aOff + x, b, bOff + x, i);
    }
  }

  /** One record goes on where the other has ended: whatever follows is described by another index. */
  lemma Unequal(a: seq<Extent>, p: nat, b: seq<Extent>, q: nat, i: nat)
    requires Sorted(a) && Sorted(b) && i < |a| && i < |b|
    requires (a[i].End() == p && Covers(b, i, q)) || (b[i].End() == q && Covers(a, i, p))
    ensures !AgreeAt(a, p, b, q)
  {
    hide Sorted;
    if k :| SameStored(a, p, b, q, k) {
      if Covers(b, i, q) { CoverUnique(b, i, k, q); }
      if Covers(a, i, p) { CoverUnique(a, i, k, p); }
    }
  }

  lemma NextReached(m: seq<Extent>, i: nat, x: nat)
    requires Sorted(m) && 0 < i <= |m|
    ensures m[i - 1].End() == x ==> Reached(m, i, x)
  {
    assert i < |m| ==> m[i - 1].End() <= m[i].logical && m[i].length > 0;
  }

  /**
   * fiemap_maps_share(): true exactly when both maps could be read, the target's is not empty, and byte by
   * byte both ranges are holes or both are at the same place of the same stored extent, described by records
   * of the same index.
   */
  method MapsShare(tgt: Option<seq<Extent>>, tgtOff: nat, dm: Option<seq<Extent>>, destOff: nat, len: nat)
    returns (share: bool)
    requires tgt.Some? ==> MapOf(tgt.value, tgtOff, len)
    requires dm.Some? ==> MapOf(dm.value, destOff, len)
    ensures share <==> len > 0 && tgt.Some? && dm.Some? && |tgt.value| > 0
                       && AgreeUpTo(tgt.value, tgtOff, dm.value, destOff, len)
  {
    if len == 0 || tgt == None || dm == None || |tgt.value| == 0 {
      return false;
    }
    share := Compare(tgt.value, tgtOff, dm.value, destOff, len);
  }

  /** The walk over both maps: they advance together, or it bails. */
  method Compare(tgt: seq<Extent>, tgtOff: nat, dm: seq<Extent>, destOff: nat, len: nat) returns (share: bool)
    requires MapOf(tgt, tgtOff, len) && MapOf(dm, destOff, len)
    ensures share <==> AgreeUpTo(tgt, tgtOff, dm, destOff, len)
  {
    hide Sorted, HoleAt;
    var i, pos := 0, 0;
    while pos < len
      invariant AgreeUpTo(tgt, tgtOff, dm, destOff, pos)
      invariant pos < len ==> i <= |tgt| && i <= |dm| && Reached(tgt, i, tgtOff + pos) && Reached(dm, i, destOff + pos)
      decreases len - pos
    {
      var p, q := tgtOff + pos, destOff + pos;
      var ha, hb := GapAt(tgt, i, p, len - pos), GapAt(dm, i, q, len - pos);
      if ha != 0 || hb != 0 {
        if ha != hb {
          Disagree(tgt, tgtOff, dm, destOff, len, i, pos);
          return false;
        }
        HoleStep(tgt, tgtOff, dm, destOff, pos, i, len - pos);
        pos := pos + ha;
        continue;
      }
      var ea, eb := tgt[i], dm[i];
      var pa, pb := p - ea.logical, q - eb.logical;
      if (ea.flags + eb.flags) * NO_PHYS != {} || pa != pb || ea.physical != eb.physical {
        NotSame(tgt, p, dm, q, i);
        assert !AgreeInRange(tgt, tgtOff, dm, destOff, pos);
        return false;
      }
      var ra, rb := ea.length - pa, eb.length - pb;
      var step := if ra < rb then ra else rb;
      RecordStep(tgt, tgtOff, dm, destOff, pos, i, step);
      pos := pos + step;
      i := i + 1;
      if ra != rb && pos < len {
        Unequal(tgt, tgtOff + pos, dm, destOff + pos, i - 1);
        assert !AgreeInRange(tgt, tgtOff, dm, destOff, pos);
        return false;
      }
      NextReached(tgt, i, tgtOff + pos);
      NextReached(dm, i, destOff + pos);
    }
    return true;
  }

  /** Two maps of ranges agree or not whichever is called the target. */
  lemma ShareSymmetric(a: seq<Extent>, aOff: nat, b: seq<Extent>, bOff: nat, len: nat)
    requires MapOf(a, aOff, len) && MapOf(b, bOff, len) && len > 0
    ensures |a| > 0 && AgreeUpTo(a, aOff, b, bOff, len) <==> |b| > 0 && AgreeUpTo(b, bOff, a, aOff, len)
  {
    hide Sorted, HoleAt, AgreeAt;
    forall x: nat | x < len
      ensures AgreeInRange(a, aOff, b, bOff, x) == AgreeInRange(b, bOff, a, aOff, x)
    {
      AgreeSymmetric(a, aOff + x, b, bOff + x);
    }
    if AgreeUpTo(a, aOff, b, bOff, len) {
      if |a| > 0 { RecordAgreed(a, aOff, b, bOff, len); }
      if |b| > 0 { RecordAgreed(b, bOff, a, aOff, len); }
    }
  }

  lemma RecordAgreed(a: seq<Extent>, aOff: nat, b: seq<Extent>, bOff: nat, len: nat)
    requires MapOf(a, aOff, len) && len > 0 && |a| > 0 && AgreeUpTo(a, aOff, b, bOff, len)
    ensures |b| > 0
  {
    var x := if a[0].logical > aOff then a[0].logical - aOff else 0;
    assert Covers(a, 0, aOff + x);
    assert AgreeInRange(a, aOff, b, bOff, x);
  }

  // ---- What it means for the bytes ----

  /** Storage: the bytes at each address, and the contents of the encoded extent at each address. */
  datatype Disk = Disk(raw: nat -> int, decoded: (nat, nat) -> int)

  /**
   * What a byte `delta` into a record reads as. Preallocated space is zero. An encoded record's address is that
   * of the whole extent; where in its contents the record begins is `ref`, which the map does not show. Without
   * a stable address nothing is known.
   */
  ghost predicate ReadsAs(e: Extent, delta: nat, v: int, ref: nat, disk: Disk) {
    if UNWRITTEN in e.flags then v == 0
    else if e.flags * NO_PHYS != {} then true
    else if ENCODED in e.flags then v == disk.decoded(e.physical, ref + delta)
    else v == disk.raw(e.physical + delta)
  }

  /** The file's bytes are what its map says: zero in holes, and in the i-th record, begun at refs(i), the disk's. */
  ghost predicate Backed(content: nat -> int, m: seq<Extent>, refs: nat -> nat, disk: Disk) {
    && (forall x :: HoleAt(m, x) ==> content(x) == 0)
    && (forall i: nat, x: nat :: Covers(m, i, x) ==> ReadsAs(m[i], x - m[i].logical, content(x), refs(i), disk))
  }

  /** Equal addresses of these two records mean equal bytes. */
  predicate Telling(e: Extent, f: Extent) {
    if UNWRITTEN in e.flags || UNWRITTEN in f.flags then UNWRITTEN in e.flags * f.flags
    else ENCODED !in e.flags + f.flags
  }

  /** The i-th records match x bytes into the range. */
  ghost predicate Match(a: seq<Extent>, aOff: nat, b: seq<Extent>, bOff: nat, x: nat, i: nat) {
    SameStored(a, aOff + x, b, bOff + x, i)
  }

  /** All records that match somewhere in the range are such. */
  ghost predicate AllTelling(a: seq<Extent>, aOff: nat, b: seq<Extent>, bOff: nat, len: nat) {
    forall x: nat, i: nat :: x < len && Match(a, aOff, b, bOff, x, i) ==> Telling(a[i], b[i])
  }

  ghost predicate EqualAt(c: nat -> int, aOff: nat, d: nat -> int, bOff: nat, x: nat) {
    c(aOff + x) == d(bOff + x)
  }

  ghost predicate EqualIn(c: nat -> int, aOff: nat, d: nat -> int, bOff: nat, len: nat) {
    forall x: nat :: x < len ==> EqualAt(c, aOff, d, bOff, x)
  }

  /** Whatever the disk and the hidden references, two files with these maps have equal bytes in the range. */
  ghost predicate MustBeEqual(a: seq<Extent>, aOff: nat, b: seq<Extent>, bOff: nat, len: nat) {
    forall c: nat -> int, d: nat -> int, ra: nat -> nat, rb: nat -> nat, disk: Disk ::
      Backed(c, a, ra, disk) && Backed(d, b, rb, disk) ==> EqualIn(c, aOff, d, bOff, len)
  }

  lemma TellingByte(c: nat -> int, a: seq<Extent>, aOff: nat, ra: nat -> nat,
                    d: nat -> int, b: seq<Extent>, bOff: nat, rb: nat -> nat, disk: Disk, len: nat, x: nat)
    requires AgreeUpTo(a, aOff, b, bOff, len) && AllTelling(a, aOff, b, bOff, len)
    requires Backed(c, a, ra, disk) && Backed(d, b, rb, disk) && x < len
    ensures EqualAt(c, aOff, d, bOff, x)
  {
    hide HoleAt;
    var p, q := aOff + x, bOff + x;
    assert AgreeInRange(a, aOff, b, bOff, x);
    if i :| SameStored(a, p, b, q, i) {
      assert Match(a, aOff, b, bOff, x, i);
      assert Covers(a, i, p) && Covers(b, i, q);
      assert a[i].flags * NO_PHYS <= (a[i].flags + b[i].flags) * NO_PHYS;
      assert b[i].flags * NO_PHYS <= (a[i].flags + b[i].flags) * NO_PHYS;
    }
  }

  // A disk on which every raw byte is 1, and an encoded extent's contents are 2 up to `cut` and 3 from there on.

  function Two(cut: nat): Disk {
    Disk((_: nat) => 1, (_: nat, at: nat) => if at < cut then 2 else 3)
  }

  function ByteIn(e: Extent, delta: nat, ref: nat, cut: nat): int {
    if UNWRITTEN in e.flags then 0
    else if ENCODED in e.flags then (if ref + delta < cut then 2 else 3)
    else 1
  }

  ghost function ByteAt(m: seq<Extent>, ref: nat, cut: nat, x: nat): int {
    if HoleAt(m, x) then 0
    else
      var i :| Covers(m, i, x);
      ByteIn(m[i], x - m[i].logical, ref, cut)
  }

  /** A file with this map on that disk, all its encoded records begun at `ref`. */
  ghost function Filled(m: seq<Extent>, ref: nat, cut: nat): nat -> int {
    (x: nat) => ByteAt(m, ref, cut, x)
  }

  lemma ByteCovered(m: seq<Extent>, ref: nat, cut: nat, x: nat, i: nat)
    requires Sorted(m) && Covers(m, i, x)
    ensures Filled(m, ref, cut)(x) == ByteIn(m[i], x - m[i].logical, ref, cut)
  {
    var k :| Covers(m, k, x) && ByteAt(m, ref, cut, x) == ByteIn(m[k], x - m[k].logical, ref, cut);
    CoverUnique(m, i, k, x);
  }

  lemma FilledIsBacked(m: seq<Extent>, ref: nat, cut: nat)
    requires Sorted(m)
    ensures Backed(Filled(m, ref, cut), m, (_: nat) => ref, Two(cut))
  {
    hide Sorted;
    forall i: nat, x: nat | Covers(m, i, x)
      ensures ReadsAs(m[i], x - m[i].logical, Filled(m, ref, cut)(x), ref, Two(cut))
    {
      ByteCovered(m, ref, cut, x, i);
    }
  }

  /** Two files with these maps that differ, when some records that match are not telling. */
  lemma Differ(a: seq<Extent>, aOff: nat, b: seq<Extent>, bOff: nat, x: nat, i: nat)
    returns (c: nat -> int, d: nat -> int, ra: nat -> nat, rb: nat -> nat, disk: Disk)
    requires Sorted(a) && Sorted(b) && SameStored(a, aOff + x, b, bOff + x, i) && !Telling(a[i], b[i])
    ensures Backed(c, a, ra, disk) && Backed(d, b, rb, disk) && c(aOff + x) != d(bOff + x)
  {
    hide Sorted;
    var cut := aOff + x - a[i].logical + 1;
    disk, ra, rb := Two(cut), (_: nat) => 0, (_: nat) => cut;
    c, d := Filled(a, 0, cut), Filled(b, cut, cut);
    FilledIsBacked(a, 0, cut);
    FilledIsBacked(b, cut, cut);
    ByteCovered(a, 0, cut, aOff + x, i);
    ByteCovered(b, cut, cut, bOff + x, i);
  }

  /**
   * Ranges that share by their maps are sure to hold equal bytes if and only if no records that match are
   * encoded, or preallocated on one side only.
   */
  lemma ShareMeansEqualBytes(a: seq<Extent>, aOff: nat, b: seq<Extent>, bOff: nat, len: nat)
    requires MapOf(a, aOff, len) && MapOf(b, bOff, len) && AgreeUpTo(a, aOff, b, bOff, len)
    ensures MustBeEqual(a, aOff, b, bOff, len) <==> AllTelling(a, aOff, b, bOff, len)
  {
    hide Sorted, Backed, AgreeUpTo, Telling, EqualAt;
    if AllTelling(a, aOff, b, bOff, len) {
      forall c: nat -> int, d: nat -> int, ra: nat -> nat, rb: nat -> nat, disk: Disk
        | Backed(c, a, ra, disk) && Backed(d, b, rb, disk)
        ensures EqualIn(c, aOff, d, bOff, len)
      {
        forall x: nat | x < len
          ensures EqualAt(c, aOff, d, bOff, x)
        {
          TellingByte(c, a, aOff, ra, d, b, bOff, rb, disk, len, x);
        }
      }
    } else {
      var x: nat, i: nat :| x < len && Match(a, aOff, b, bOff, x, i) && !Telling(a[i], b[i]);
      var c, d, ra, rb, disk := Differ(a, aOff, b, bOff, x, i);
      assert !EqualAt(c, aOff, d, bOff, x) by { Unequals(c, aOff, d, bOff, x); }
      assert !EqualIn(c, aOff, d, bOff, len);
    }
  }

  lemma Unequals(c: nat -> int, aOff: nat, d: nat -> int, bOff: nat, x: nat)
    ensures EqualAt(c, aOff, d, bOff, x) <==> c(aOff + x) == d(bOff + x)
  {
  }

  /** Two files that reference different parts of one encoded extent: shared by their maps, and different. */
  lemma EncodedMayDiffer()
    returns (m: seq<Extent>, c: nat -> int, d: nat -> int, ra: nat -> nat, rb: nat -> nat, disk: Disk)
    ensures m == [Extent(0, 7, 4096, {ENCODED})] && MapOf(m, 0, 4096) && AgreeUpTo(m, 0, m, 0, 4096)
    ensures Backed(c, m, ra, disk) && Backed(d, m, rb, disk) && c(0) != d(0)
  {
    m := [Extent(0, 7, 4096, {ENCODED})];
    OneRecordAgrees(m[0], m[0]);
    assert SameStored(m, 0, m, 0, 0);
    c, d, ra, rb, disk := Differ(m, 0, m, 0, 0, 0);
  }

  /** Nor are a preallocated and a written record at one address alike, encoded or not. */
  lemma UnwrittenMayDiffer()
    returns (m: seq<Extent>, n: seq<Extent>, c: nat -> int, d: nat -> int, ra: nat -> nat, rb: nat -> nat, disk: Disk)
    ensures m == [Extent(0, 7, 4096, {})] && n == [Extent(0, 7, 4096, {UNWRITTEN})]
    ensures MapOf(m, 0, 4096) && MapOf(n, 0, 4096) && AgreeUpTo(m, 0, n, 0, 4096)
    ensures Backed(c, m, ra, disk) && Backed(d, n, rb, disk) && c(0) != d(0)
  {
    m, n := [Extent(0, 7, 4096, {})], [Extent(0, 7, 4096, {UNWRITTEN})];
    OneRecordAgrees(m[0], n[0]);
    assert SameStored(m, 0, n, 0, 0);
    c, d, ra, rb, disk := Differ(m, 0, n, 0, 0, 0);
  }

  lemma OneRecordAgrees(e: Extent, f: Extent)
    requires e.logical == f.logical == 0 && e.length == f.length && e.physical == f.physical
    requires (e.flags + f.flags) * NO_PHYS == {}
    ensures AgreeUpTo([e], 0, [f], 0, e.length)
  {
    forall x: nat | x < e.length
      ensures AgreeInRange([e], 0, [f], 0, x)
    {
      assert SameStored([e], x, [f], x, 0);
    }
  }
}
