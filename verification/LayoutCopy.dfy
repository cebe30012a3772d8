/**
 * Copying another file's hashes instead of hashing (src/file_scan.c try_layout_copy, src/fiemap.c
 * fiemap_layout_key, src/dbfile.c dbfile_layout_matches and dbfile_copy_scanned_file).
 */
module LayoutCopy {
  import opened Options
  import opened Fiemap
  import opened ScanSpec
  import opened Resume

  const REJECT: set<Flag> := {UNKNOWN, DELALLOC, DATA_INLINE, DATA_ENCRYPTED, ENCODED}
  const IGNORE: set<Flag> := {SHARED, LAST}
  const INT_MAX := 0x7fff_ffff

  /** The words of one record in the key. */
  datatype KeyRec = KeyRec(logical: nat, physical: nat, length: nat, flags: set<Flag>)

  /** What the key digests: the file size, the number of records, and each record. */
  datatype Key = Key(size: nat, count: nat, recs: seq<KeyRec>)

  function KeyOf(e: Extent): KeyRec {
    KeyRec(e.logical, e.physical, e.length, e.flags - IGNORE)
  }

  /** No record is one whose address says nothing certain about its bytes. */
  predicate Keyable(m: seq<Extent>) {
    |m| > 0 && (2 + 4 * |m|) * 8 <= INT_MAX && forall i :: 0 <= i < |m| ==> m[i].flags * REJECT == {}
  }

  /** Which maps have a key, and what of a record's flags is in it. */
  lemma KeyOnFlags(m: seq<Extent>)
    ensures Keyable(m) <==>
            && |m| > 0 && 16 + 32 * |m| <= INT_MAX
            && forall i :: 0 <= i < |m| ==>
                 && UNKNOWN !in m[i].flags && DELALLOC !in m[i].flags && DATA_INLINE !in m[i].flags
                 && DATA_ENCRYPTED !in m[i].flags && ENCODED !in m[i].flags
    ensures forall i, f :: 0 <= i < |m| ==> (f in KeyOf(m[i]).flags <==> f in m[i].flags && f != SHARED && f != LAST)
  {
    forall i | 0 <= i < |m|
      ensures m[i].flags * REJECT == {} <==>
              && UNKNOWN !in m[i].flags && DELALLOC !in m[i].flags && DATA_INLINE !in m[i].flags
              && DATA_ENCRYPTED !in m[i].flags && ENCODED !in m[i].flags
    {
      assert forall f :: f in m[i].flags * REJECT <==> f in m[i].flags && f in REJECT;
    }
  }

  const STACK_EXTENTS := 32

  /** fiemap_layout_key(); nothing when no key can be formed, or the memory for a long one is refused. */
  method LayoutKey(m: seq<Extent>, size: nat, memory: bool) returns (key: Option<Key>)
    ensures key.Some? <==> Keyable(m) && (memory || |m| <= STACK_EXTENTS)
    ensures key.Some? ==> key.value == Key(size, |m|, seq(|m|, i requires 0 <= i < |m| => KeyOf(m[i])))
  {
    if |m| == 0 || (2 + 4 * |m|) * 8 > INT_MAX {
      return None;
    }
    if 2 + 4 * |m| > 2 + 4 * STACK_EXTENTS && !memory {
      return None;
    }
    var recs: seq<KeyRec> := [];
    for i := 0 to |m|
      invariant |recs| == i && forall k :: 0 <= k < i ==> recs[k] == KeyOf(m[k])
      invariant forall k :: 0 <= k < i ==> m[k].flags * REJECT == {}
    {
      if m[i].flags * REJECT != {} {
        return None;
      }
      recs := recs + [KeyOf(m[i])];
    }
    key := Some(Key(size, |m|, recs));
  }

  /** dbfile_layout_matches(): the donor's stored rows, in offset order, are these records one by one. */
  method LayoutMatches(rows: seq<ExtentRow>, m: seq<Extent>) returns (same: bool)
    ensures same <==> RowsAreRecords(rows, m)
  {
    var i := 0;
    while i < |rows|
      invariant i <= |rows| && i <= |m|
      invariant forall k :: 0 <= k < i ==> RowIs(rows[k], m[k])
    {
      if i >= |m| || !RowIs(rows[i], m[i]) {
        return false;
      }
      i := i + 1;
    }
    same := i == |m| && i > 0;
  }

  predicate RowIs(r: ExtentRow, e: Extent) {
    r.loff == e.logical && r.poff == e.physical && r.len == e.length
  }

  ghost predicate RowsAreRecords(rows: seq<ExtentRow>, m: seq<Extent>) {
    |m| > 0 && |rows| == |m| && forall k :: 0 <= k < |m| ==> RowIs(rows[k], m[k])
  }

  /** What the scan reads of a record. */
  function View(m: seq<Extent>): (v: seq<Layout.Rec>)
    ensures |v| == |m|
  {
    seq(|m|, i requires 0 <= i < |m| =>
      Layout.Rec(m[i].logical, m[i].physical, m[i].length, DATA_INLINE in m[i].flags, UNWRITTEN in m[i].flags))
  }

  /** A file's bytes are what its map says of the disk, up to its end. */
  ghost predicate OnDisk(content: seq<Byte>, m: seq<Extent>, refs: nat -> nat, disk: Disk) {
    forall x :: 0 <= x < |content| ==>
      && (HoleAt(m, x) ==> content[x] == 0)
      && (forall i: nat :: Covers(m, i, x) ==> ReadsAs(m[i], x - m[i].logical, content[x], refs(i), disk))
  }

  /** Two keys agree on everything but the addresses, which the records themselves are compared for. */
  ghost predicate KeysVouch(a: seq<Extent>, aSize: nat, b: seq<Extent>, bSize: nat) {
    && Keyable(a) && Keyable(b) && aSize == bSize && |a| == |b|
    && forall i :: 0 <= i < |a| ==> a[i].flags - IGNORE == b[i].flags - IGNORE
  }

  lemma EqualKeysVouch(a: seq<Extent>, aSize: nat, b: seq<Extent>, bSize: nat)
    requires Keyable(a) && Keyable(b)
    requires Key(aSize, |a|, seq(|a|, i requires 0 <= i < |a| => KeyOf(a[i])))
          == Key(bSize, |b|, seq(|b|, i requires 0 <= i < |b| => KeyOf(b[i])))
    ensures KeysVouch(a, aSize, b, bSize)
  {
    var ka, kb := seq(|a|, i requires 0 <= i < |a| => KeyOf(a[i])), seq(|b|, i requires 0 <= i < |b| => KeyOf(b[i]));
    assert forall i :: 0 <= i < |a| ==> ka[i] == KeyOf(a[i]) && kb[i] == KeyOf(b[i]);
  }

  /** dbfile_copy_scanned_file(): all rows and the digest of the donor, under the new file's id. */
  function Copied(donor: Table): Table {
    Table(donor.extents, donor.blocks, None, donor.digest)
  }

  lemma SameRecords(rows: seq<ExtentRow>, j: Job, a: seq<Extent>, b: seq<Extent>, aSize: nat, bSize: nat)
    requires j.Valid() && j.recs == View(a) && rows == j.ExtentRows(j.Size())
    requires KeysVouch(a, aSize, b, bSize) && RowsAreRecords(rows, b)
    ensures forall i :: 0 <= i < |a| ==>
              a[i].logical == b[i].logical && a[i].physical == b[i].physical && a[i].length == b[i].length
  {
    assert !j.onlyWholeFiles;
    FullRows(j, |j.recs|, j.Size());
    forall i | 0 <= i < |a|
      ensures a[i].logical == b[i].logical && a[i].physical == b[i].physical && a[i].length == b[i].length
    {
      assert rows[i] == j.RowOf(j.recs[i]);
      assert RowIs(rows[i], b[i]);
    }
  }

  /** As many rows as records means every record got its row. */
  lemma {:induction false} FullRows(j: Job, n: nat, off: nat)
    requires j.Valid() && n <= |j.recs|
    ensures |j.RowsOf(n, off)| <= n
    ensures |j.RowsOf(n, off)| == n ==>
              forall i :: 0 <= i < n ==> j.Done(j.recs[i], off) && j.RowsOf(n, off)[i] == j.RowOf(j.recs[i])
  {
    if n > 0 {
      FullRows(j, n - 1, off);
    }
  }

  /** Equal records that can be keyed read the same on one disk: their bytes need no hidden reference. */
  lemma SameContent(c: seq<Byte>, a: seq<Extent>, ra: nat -> nat,
                    d: seq<Byte>, b: seq<Extent>, rb: nat -> nat, disk: Disk)
    requires |c| == |d| && |a| == |b| && OnDisk(c, a, ra, disk) && OnDisk(d, b, rb, disk)
    requires Keyable(a) && Keyable(b)
    requires forall i :: 0 <= i < |a| ==>
               && a[i].logical == b[i].logical && a[i].physical == b[i].physical && a[i].length == b[i].length
               && (UNWRITTEN in a[i].flags <==> UNWRITTEN in b[i].flags)
    ensures c == d
  {
    forall x | 0 <= x < |c|
      ensures c[x] == d[x]
    {
      if i :| Covers(a, i, x) {
        assert Covers(b, i, x);
        Addressed(a, i);
        Addressed(b, i);
      } else {
        assert forall k :: Covers(b, k, x) ==> Covers(a, k, x);
      }
    }
  }

  lemma Addressed(m: seq<Extent>, i: nat)
    requires Keyable(m) && i < |m|
    ensures m[i].flags * NO_PHYS == {} && ENCODED !in m[i].flags
  {
    assert m[i].flags * NO_PHYS <= m[i].flags * REJECT;
    assert ENCODED in m[i].flags * REJECT <==> ENCODED in m[i].flags;
  }

  /**
   * When the keys vouch for size, count and flags and the donor's rows are this file's records, the copied
   * rows, digest and extent count are those that hashing the file would store.
   */
  lemma CopyEqualsHash(donor: Job, dm: seq<Extent>, dr: nat -> nat,
                       file: Job, fm: seq<Extent>, fr: nat -> nat, disk: Disk)
    requires donor.Valid() && donor.recs == View(dm) && OnDisk(donor.content, dm, dr, disk)
    requires file == donor.(content := file.content, recs := View(fm)) && file.Valid()
    requires OnDisk(file.content, fm, fr, disk)
    requires KeysVouch(dm, donor.Size(), fm, file.Size())
    requires RowsAreRecords(Reference(donor).extents, fm)
    ensures Copied(Reference(donor)) == Reference(file)
    ensures |dm| == |fm|
  {
    hide Reference, Keyable;
    assert Reference(donor).extents == donor.ExtentRows(donor.Size()) by { ReferenceExtents(donor); }
    SameRecords(Reference(donor).extents, donor, dm, fm, donor.Size(), file.Size());
    forall i | 0 <= i < |dm|
      ensures UNWRITTEN in dm[i].flags <==> UNWRITTEN in fm[i].flags
      ensures DATA_INLINE in dm[i].flags <==> DATA_INLINE in fm[i].flags
    {
      assert UNWRITTEN in dm[i].flags <==> UNWRITTEN in dm[i].flags - IGNORE;
      assert UNWRITTEN in fm[i].flags <==> UNWRITTEN in fm[i].flags - IGNORE;
      assert DATA_INLINE in dm[i].flags <==> DATA_INLINE in dm[i].flags - IGNORE;
      assert DATA_INLINE in fm[i].flags <==> DATA_INLINE in fm[i].flags - IGNORE;
    }
    SameContent(donor.content, dm, dr, file.content, fm, fr, disk);
    assert View(dm) == View(fm);
    assert donor == file;
    ReferenceDone(donor);
  }

  lemma ReferenceExtents(j: Job)
    requires j.Valid()
    ensures Reference(j).extents == j.ExtentRows(j.Size())
  {
  }

  lemma ReferenceDone(j: Job)
    requires j.Valid()
    ensures Reference(j).checkpoint == None
  {
  }
}
