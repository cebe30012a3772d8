/**
 * What hashing one file means (src/file_scan.c, csum_whole_file): every pass as a function of the file
 * offset alone, and the rows as functions of how far the scan has come. Nothing here remembers a read cap,
 * a cursor or leftover bytes; ScanLoop proves that the loop, which does, emits the same.
 *
 * A digest is modelled as the bytes fed to it, so a running checksum is a byte sequence.
 */
module ScanSpec {
  import opened Grid
  import opened Layout
  import opened Options

  type Byte = b: int | 0 <= b < 256

  datatype ExtentRow = ExtentRow(loff: nat, poff: nat, len: nat, data: seq<Byte>)
  datatype BlockRow = BlockRow(loff: nat, data: seq<Byte>)

  /** One pass of the main loop. */
  datatype Action =
    | Hole(len: nat)                        // skipped unread, described in the digest
    | Fake(len: nat)                        // taken as zeroes, unread
    | Read(used: nat, filled: nat, eof: bool) // `filled` bytes in the buffer, `used` of them consumed

  function Zeroes(n: nat): (z: seq<Byte>)
    ensures |z| == n && forall i :: 0 <= i < n ==> z[i] == 0
  {
    seq(n, _ => 0)
  }

  /** A 64-bit word as the host stores it, lowest byte first. */
  function Word(x: nat, bytes: nat): (w: seq<Byte>)
    ensures |w| == bytes
  {
    if bytes == 0 then [] else [x % 256] + Word(x / 256, bytes - 1)
  }

  function Descriptor(off: nat, len: nat): seq<Byte> {
    Word(off, 8) + Word(len, 8)
  }

  function Min(a: nat, b: nat): nat { if a < b then a else b }

  /** A file as stat and fiemap describe it, and the options it is hashed under. */
  datatype Job = Job(
    content: seq<Byte>, recs: seq<Rec>,
    bs: nat, buf: nat, blockHash: bool, skipZeroes: bool, onlyWholeFiles: bool)
  {
    function Size(): nat { |content| }

    ghost predicate Valid() {
      0 < bs <= buf && Sorted(recs)
    }

    // ---- The action at an offset ----

    function At(off: nat): (i: nat)
      ensures i <= |recs|
    {
      Reaching(recs, off, 0)
    }

    /** The block starting at `off` maps no data: block_is_hole() on the record reaching `off`. */
    predicate HoleBlock(off: nat) {
      At(off) == |recs| || recs[At(off)].logical >= off + bs
    }

    /** Length of the hole run the scan skips at `off`; it may overshoot the file (see ScanEnds). */
    function HoleRun(off: nat): (len: nat)
      requires 0 < bs && off < Size() && HoleBlock(off)
      ensures len > 0
    {
      if At(off) == |recs| then Size() - off else RoundDown(recs[At(off)].logical, bs) - off
    }

    /** The first all-hole block at or after `from`, or the file size. */
    function NextHole(from: nat): (b: nat)
      requires 0 < bs && from < Size()
      ensures from <= b <= Size()
      decreases Size() - from
    {
      if HoleBlock(from) then from
      else
        var b := RoundUp(recs[At(from)].End(), bs);
        if b >= Size() then Size() else NextHole(b)
    }

    /** Whole blocks in one buffer. */
    function FakeLen(): (n: nat)
      requires 0 < bs <= buf
      ensures 0 < n <= buf
    {
      RoundDown(buf, bs)
    }

    ghost function ActionAt(off: nat): Action
      requires Valid() && off < Size()
    {
      if HoleBlock(off) then Hole(HoleRun(off))
      else if Ignored(recs, off, off + FakeLen()) && off + FakeLen() <= Size() then Fake(FakeLen())
      else
        var n := Min(buf, NextHole(off) - off);
        var eof := off + n >= Size();
        Read(if blockHash && !eof then RoundDown(n, bs) else n, n, eof)
    }

    ghost function Advance(off: nat): nat
      requires Valid() && off < Size()
    {
      match ActionAt(off)
      case Hole(len) => len
      case Fake(len) => len
      case Read(used, _, _) => used
    }

    /** The bytes the pass at `off` feeds to the file digest. */
    ghost function Fed(off: nat): seq<Byte>
      requires Valid() && off < Size()
    {
      match ActionAt(off)
      case Hole(len) => Descriptor(off, len)
      case Fake(len) => Zeroes(len)
      case Read(used, _, _) => content[off..off + used]
    }

    // ---- The grid ----

    /** The scan keeps to the block grid: block hashing is on, or the block size divides the buffer. */
    predicate GridMode()
      requires 0 < bs
    {
      blockHash || Aligned(buf, bs)
    }

    /** The offsets the scan visits. */
    ghost predicate OnGrid(off: nat)
      requires 0 < bs
    {
      GridMode() && off < Size() ==> Aligned(off, bs)
    }

    lemma HoleRunStaysOnGrid(off: nat)
      requires Valid() && off < Size() && HoleBlock(off) && OnGrid(off)
      ensures OnGrid(off + HoleRun(off))
    {
    }

    lemma NextHoleBeyond(off: nat)
      requires Valid() && off < Size() && !HoleBlock(off)
      ensures off < NextHole(off) <= Size()
    {
    }

    lemma {:induction false} NextHoleOnGrid(from: nat)
      requires Valid() && from < Size() && !HoleBlock(from)
      ensures NextHole(from) == Size() || Aligned(NextHole(from), bs)
      decreases Size() - from
    {
      var b := RoundUp(recs[At(from)].End(), bs);
      if b < Size() && !HoleBlock(b) {
        NextHoleOnGrid(b);
      }
    }

    lemma ReadAdvances(off: nat)
      requires Valid() && off < Size() && OnGrid(off) && ActionAt(off).Read?
      ensures 0 < ActionAt(off).used <= ActionAt(off).filled <= buf
      ensures off + ActionAt(off).filled <= NextHole(off)
      ensures OnGrid(off + ActionAt(off).used)
    {
      hide Reaching, Sorted, Ignored, RoundDown;
      NextHoleBeyond(off);
      var n := Min(buf, NextHole(off) - off);
      if GridMode() && off + n < Size() {
        NextHoleOnGrid(off);
        if n < bs {
          GridGap(off, NextHole(off), bs);
        }
        GridAdd(off, if blockHash then RoundDown(n, bs) else buf, bs);
      }
    }

    /** Every pass moves the offset and keeps it on the grid; only a hole skip can pass the end. */
    lemma PassAdvances(off: nat)
      requires Valid() && off < Size() && OnGrid(off)
      ensures Advance(off) > 0
      ensures OnGrid(off + Advance(off))
      ensures !ActionAt(off).Hole? ==> off + Advance(off) <= Size()
    {
      hide Reaching, Sorted, Ignored, RoundDown, NextHole;
      if HoleBlock(off) {
        HoleRunStaysOnGrid(off);
      } else if ActionAt(off).Fake? {
        if GridMode() { GridAdd(off, FakeLen(), bs); }
      } else {
        ReadAdvances(off);
      }
    }

    // ---- The whole scan ----

    /** Where the scan stops, and everything it has fed to the file digest by then. */
    ghost function Final(off: nat, stream: seq<Byte>): (r: (nat, seq<Byte>))
      requires Valid() && OnGrid(off)
      decreases Size() - off
    {
      if off >= Size() then (off, stream)
      else
        PassAdvances(off);
        Final(off + Advance(off), stream + Fed(off))
    }

    // ---- The rows, as functions of how far the scan has come ----

    /** The part of a record that lies before the end of the file ends here. */
    function StopOf(e: Rec): nat { Min(e.End(), Size()) }

    /** A data record that starts before the end of the file and has been passed. */
    predicate Done(e: Rec, off: nat) {
      !e.Skip() && e.logical < Size() && StopOf(e) <= off
    }

    function RowOf(e: Rec): ExtentRow
      requires e.logical <= Size()
    {
      ExtentRow(e.logical, e.physical, e.length, content[e.logical..Min(e.End(), Size())])
    }

    function RowsOf(n: nat, off: nat): seq<ExtentRow>
      requires n <= |recs|
    {
      if n == 0 then [] else
        RowsOf(n - 1, off) + (if Done(recs[n - 1], off) then [RowOf(recs[n - 1])] else [])
    }

    function ExtentRows(off: nat): seq<ExtentRow> {
      if onlyWholeFiles then [] else RowsOf(|recs|, off)
    }

    /** The record `off` is strictly inside of, if it holds data: its digest is in progress. */
    predicate InData(off: nat) {
      At(off) < |recs| && off < Size() && recs[At(off)].logical < off && !recs[At(off)].Skip()
    }

    function Progress(off: nat): Option<seq<Byte>> {
      if !onlyWholeFiles && InData(off) then Some(content[recs[At(off)].logical..off]) else None
    }

    ghost predicate AllZero(a: nat, b: nat)
      requires a <= b <= Size()
    {
      forall i :: a <= i < b ==> content[i] == 0
    }

    /**
     * The grid block at `g` gets a row. A whole block is left out when it is a hole, when nothing in it is
     * backed by data, or when it is all zeroes and --skip-zeroes is on; the last partial block only when it
     * is a hole.
     */
    ghost predicate Stored(g: nat)
      requires g < Size()
    {
      && !HoleBlock(g)
      && (g + bs <= Size() ==>
            !Ignored(recs, g, g + bs) && !(skipZeroes && AllZero(g, g + bs)))
    }

    ghost function BlockAt(g: nat): seq<BlockRow>
      requires g < Size()
    {
      if Stored(g) then [BlockRow(g, content[g..Min(g + bs, Size())])] else []
    }

    /** Rows of the grid blocks that start before `off`. */
    ghost function BlocksBelow(off: nat): seq<BlockRow>
      requires 0 < bs && off <= Size()
    {
      if off == 0 then []
      else
        var g := RoundDown(off - 1, bs);
        BlocksBelow(g) + BlockAt(g)
    }

    ghost function BlockRows(off: nat): seq<BlockRow>
      requires 0 < bs
    {
      if blockHash then BlocksBelow(Min(off, Size())) else []
    }
  }
}
