/**
 * The loop of csum_whole_file() (src/file_scan.c) with what it remembers between passes: the read cap, the
 * extent cursor, the leftover bytes in the buffer and the checksums in progress. Every method is proved
 * against the memoryless functions of ScanSpec.
 */
module ScanLoop {
  import opened Grid
  import opened Layout
  import opened Options
  import opened ScanSpec
  import opened ScanTheorems
  import opened ScanRows
  import opened ScanPass

  class ScanCtxt {
    const job: Job
    const buf: array<Byte>
    var off: nat
    var readCap: nat
    var cursor: nat
    var dlOffset: nat  // unprocessed bytes: buf[dlOffset..dlOffset + dlLen]
    var dlLen: nat
    var faked: bool
    var fileCsum: seq<Byte>
    var extentCsum: Option<seq<Byte>>
    var extents: seq<ExtentRow>
    var blocks: seq<BlockRow>
    ghost var capFrom: nat  // where the read cap was computed

    /** The rows and the extent digest in progress are those of the offset. */
    ghost predicate RowsAt(p: nat)
      reads this
      requires job.Valid()
    {
      && extents == job.ExtentRows(p)
      && extentCsum == job.Progress(p)
    }

    ghost predicate CapOk()
      reads this
      requires job.Valid()
    {
      readCap <= off || (capFrom <= off && capFrom < job.Size() && readCap == job.NextHole(capFrom))
    }

    /** Leftover bytes are the file's, and never stand at a hole. */
    ghost predicate LeftoverOk()
      reads this, buf
      requires job.Valid() && dlOffset + dlLen <= buf.Length
    {
      dlLen > 0 ==>
        && off < job.Size() && job.blockHash && dlLen < job.bs
        && !job.HoleBlock(off) && off + dlLen <= job.NextHole(off)
        && buf[dlOffset..dlOffset + dlLen] == job.content[off..off + dlLen]
    }

    ghost predicate Valid()
      reads this, buf
    {
      && job.Valid() && buf.Length == job.buf && job.OnGrid(off)
      && dlOffset + dlLen <= buf.Length
      && CapOk() && LeftoverOk()
      && RowsAt(Min(off, job.Size()))
      && blocks == job.BlockRows(off)
    }

    /** hole_run_length(): how far to skip if the block at `off` is all hole, else 0. */
    method HoleRunLength() returns (len: nat)
      requires job.Valid() && off < job.Size()
      modifies this`cursor
      ensures len == if job.HoleBlock(off) then job.HoleRun(off) else 0
    {
      var i;
      i, cursor := GetExtent(job.recs, off, cursor);
      if i < |job.recs| && job.recs[i].logical < off + job.bs {
        return 0;
      }
      if i == |job.recs| {
        return job.Size() - off;
      }
      RoundDownIsDivision(job.recs[i].logical, job.bs);
      len := (job.recs[i].logical / job.bs) * job.bs - off;
    }

    /** next_hole_block(), with a cursor of its own. */
    method NextHoleBlock(from: nat) returns (b: nat)
      requires job.Valid() && from < job.Size()
      ensures b == job.NextHole(from)
    {
      var cur, i := cursor, 0;
      b := from;
      while true
        invariant from <= b < job.Size()
        invariant job.NextHole(b) == job.NextHole(from)
        decreases job.Size() - b
      {
        i, cur := GetExtent(job.recs, b, cur);
        if i == |job.recs| || job.recs[i].logical >= b + job.bs {
          return;
        }
        RoundUpIsDivision(job.recs[i].End(), job.bs);
        b := ((job.recs[i].End() + job.bs - 1) / job.bs) * job.bs;
        if b >= job.Size() {
          return job.Size();
        }
      }
    }

    /** The cached cap is recomputed only once the offset has caught up with it; it is right either way. */
    method RefreshReadCap()
      requires job.Valid() && off < job.Size() && !job.HoleBlock(off) && CapOk()
      modifies this`readCap, this`capFrom
      ensures CapOk() && readCap == job.NextHole(off) && off < readCap
    {
      job.NextHoleBeyond(off);
      if off >= readCap {
        readCap := NextHoleBlock(off);
        capFrom := off;
      } else {
        ReadCapStable(job, capFrom, off);
      }
    }

    /** The leftovers move to the front of the buffer. */
    method MoveLeftovers()
      requires dlOffset + dlLen <= buf.Length
      modifies this`dlOffset, buf
      ensures dlOffset == 0 && buf[..dlLen] == old(buf[dlOffset..dlOffset + dlLen])
    {
      if dlLen != 0 {
        forall i | 0 <= i < dlLen { buf[i] := buf[dlOffset + i]; }
      }
      dlOffset := 0;
    }

    /** pread() of `want` bytes behind what is buffered. */
    method ReadMore(want: nat)
      requires dlLen + want <= buf.Length && off + dlLen + want <= job.Size()
      requires buf[..dlLen] == job.content[off..off + dlLen]
      modifies this`dlLen, buf
      ensures dlLen == old(dlLen) + want
      ensures buf[..dlLen] == job.content[off..off + dlLen]
    {
      var pos := off + dlLen;
      forall i | 0 <= i < want { buf[dlLen + i] := job.content[pos + i]; }
      forall i | 0 <= i < dlLen + want
        ensures buf[i] == job.content[off + i]
      {
        assert i < dlLen ==> old(buf[..dlLen])[i] == job.content[off..off + dlLen][i];
        assert i >= dlLen ==> buf[dlLen + (i - dlLen)] == job.content[pos + (i - dlLen)];
      }
      dlLen := dlLen + want;
    }

    /** The buffer is taken as zeroes. */
    method Fake(len: nat)
      requires len <= buf.Length
      modifies this`dlLen, this`dlOffset, this`faked, buf
      ensures faked && dlOffset == 0 && dlLen == len && buf[..dlLen] == Zeroes(dlLen)
    {
      forall i | 0 <= i < len { buf[i] := 0; }
      dlLen, dlOffset, faked := len, 0, true;
    }

    /** The leftovers are topped up to the read cap or the end of the buffer. */
    method TopUp()
      requires Valid() && off < job.Size() && !job.HoleBlock(off)
      modifies this`dlLen, this`dlOffset, this`faked, this`readCap, this`capFrom, buf
      ensures CapOk() && !faked && dlOffset == 0 && dlLen <= buf.Length && off + dlLen <= job.Size()
      ensures dlLen == Min(buf.Length, job.NextHole(off) - off)
      ensures buf[..dlLen] == job.content[off..off + dlLen]
    {
      hide job.HoleBlock, job.NextHole, Sorted, Aligned, job.ExtentRows, job.Progress, job.BlockRows;
      assert off + dlLen <= job.NextHole(off) by { job.NextHoleBeyond(off); }
      MoveLeftovers();
      faked := false;
      RefreshReadCap();
      var pos := off + dlLen;
      assert pos <= readCap;
      var want := buf.Length - dlLen;
      if want > readCap - pos {
        want := readCap - pos;
      }
      ReadMore(want);
    }

    /**
     * fill_buffer(): fakes a whole buffer when nothing in it is backed by data, else reads on. What ends up
     * in the buffer depends on the offset alone. True at the end of the file.
     */
    method FillBuffer() returns (eof: bool)
      requires Valid() && off < job.Size() && !job.HoleBlock(off)
      modifies this`dlLen, this`dlOffset, this`faked, this`readCap, this`cursor, this`capFrom, buf
      ensures CapOk() && dlOffset == 0 && dlLen <= buf.Length
      ensures faked <==> job.ActionAt(off).Fake?
      ensures faked ==> dlLen == job.FakeLen() && buf[..dlLen] == Zeroes(dlLen)
      ensures !faked ==> dlLen == job.ActionAt(off).filled && off + dlLen <= job.Size()
                         && buf[..dlLen] == job.content[off..off + dlLen]
      ensures eof <==> off + dlLen >= job.Size()
    {
      hide job.HoleBlock, job.NextHole, Sorted, Ignored, Aligned, job.ExtentRows, job.Progress, job.BlockRows;
      var fake := job.buf - job.buf % job.bs;
      assert fake == job.FakeLen() by { RoundDownIsDivision(job.buf, job.bs); }
      hide RoundDown;
      var ignored;
      ignored, cursor := IsAreaIgnored(job.recs, off, fake, cursor);
      if ignored && off + fake <= job.Size() {
        Fake(fake);
        return job.Size() <= off + fake;
      }
      TopUp();
      eof := off + dlLen >= job.Size();
    }

    /** is_block_zeroed(): the block at buf[at..] equals itself moved by one byte, and starts with a zero. */
    method IsBlockZeroed(at: nat) returns (z: bool)
      requires 0 < job.bs && at + job.bs <= buf.Length
      ensures z <==> forall i :: at <= i < at + job.bs ==> buf[i] == 0
    {
      if buf[at] != 0 {
        return false;
      }
      var i := 1;
      while i < job.bs
        invariant 1 <= i <= job.bs
        invariant forall k :: at <= k < at + i ==> buf[k] == 0
      {
        if buf[at + i] != buf[at + i - 1] {
          return false;
        }
        i := i + 1;
      }
      z := true;
    }

    /** Any part of a buffer that holds the file's bytes holds them at their place. */
    lemma Piece(n: nat, a: nat, b: nat)
      requires a <= b <= n <= buf.Length && off + n <= job.Size()
      requires buf[..n] == job.content[off..off + n]
      ensures buf[a..b] == job.content[off + a..off + b]
    {
      var piece := buf[a..b];
      forall k | 0 <= k < |piece|
        ensures piece[k] == job.content[off + a + k]
      {
        assert piece[k] == buf[..n][a + k] == job.content[off..off + n][a + k];
      }
    }

    lemma ZeroBlock(at: nat)
      requires 0 < job.bs && at + job.bs <= buf.Length
      ensures buf[at..at + job.bs] == Zeroes(job.bs) <==> forall i :: at <= i < at + job.bs ==> buf[i] == 0
    {
      var block := buf[at..at + job.bs];
      if block == Zeroes(job.bs) {
        forall i | at <= i < at + job.bs
          ensures buf[i] == 0
        {
          assert buf[i] == block[i - at];
        }
      }
    }

    /** A whole block in the buffer: a row unless nothing in it is data, or it is skipped as zeroes. */
    method ProcessBlock(at: nat)
      requires job.Valid() && at + job.bs <= buf.Length
      modifies this`cursor, this`blocks
      ensures blocks == old(blocks) + BlockPass(job, off + at, buf[at..at + job.bs])
    {
      hide Sorted, Ignored;
      var g := off + at;
      var ignored, zero := false, false;
      ignored, cursor := IsAreaIgnored(job.recs, g, job.bs, cursor);
      if !ignored && job.skipZeroes {
        zero := IsBlockZeroed(at);
        ZeroBlock(at);
      }
      BlockPassOne(job, g, buf[at..at + job.bs]);
      if !ignored && !zero {
        blocks := blocks + [BlockRow(g, buf[at..at + job.bs])];
      }
    }

    /** process_blocks(): the whole blocks of the buffer; a partial one waits for more bytes. */
    method ProcessBlocks() returns (bytes: nat)
      requires job.Valid() && dlLen <= buf.Length
      modifies this`cursor, this`blocks
      ensures bytes == if !job.blockHash || faked then dlLen else RoundDown(dlLen, job.bs)
      ensures blocks == old(blocks)
                        + if !job.blockHash || faked then [] else BlockPass(job, off, buf[..bytes])
    {
      hide Sorted, BlockPass;
      if !job.blockHash || faked {
        return dlLen;
      }
      bytes := 0;
      NoBytes(job, off, buf[..0]);
      while bytes + job.bs <= dlLen
        invariant bytes <= dlLen && Aligned(bytes, job.bs)
        invariant blocks == old(blocks) + BlockPass(job, off, buf[..bytes])
      {
        BlockPassSplit(job, off, buf[..bytes + job.bs], bytes);
        Cut(bytes, bytes + job.bs);
        ProcessBlock(bytes);
        OneBlock(job.bs);
        GridAdd(bytes, job.bs, job.bs);
        bytes := bytes + job.bs;
      }
      if bytes < RoundDown(dlLen, job.bs) {
        GridGap(bytes, RoundDown(dlLen, job.bs), job.bs);
      } else if RoundDown(dlLen, job.bs) < bytes {
        GridGap(RoundDown(dlLen, job.bs), bytes, job.bs);
      }
    }

    lemma Cut(a: nat, b: nat)
      requires a <= b <= buf.Length
      ensures buf[..b][..a] == buf[..a] && buf[..b][a..] == buf[a..b]
    {
    }

    /** The last, partial block of the file is hashed whatever it holds. */
    method ProcessLastBlock(bytes: nat)
      requires job.Valid() && bytes < dlLen <= buf.Length && dlLen < bytes + job.bs
      modifies this`blocks
      ensures blocks == old(blocks) + BlockPass(job, off + bytes, buf[bytes..dlLen])
    {
      BlockPassOne(job, off + bytes, buf[bytes..dlLen]);
      blocks := blocks + [BlockRow(off + bytes, buf[bytes..dlLen])];
    }

    /**
     * process_extents(): feeds the buffer to the digests of the extents it crosses, stepping over holes,
     * and closes a digest where its extent, or the file, ends.
     */
    method ProcessExtents(bytes: nat)
      requires job.Valid() && off + bytes <= job.Size() && bytes <= buf.Length
      modifies this`cursor, this`extentCsum, this`extents
      ensures var r := ExtentPass(job, off, buf[..bytes], old(extentCsum));
              extents == old(extents) + r.0 && extentCsum == r.1
    {
      hide Sorted, Reaching, ExtentPass;
      var fileOff, bufOff := off, 0;
      ghost var all := ExtentPass(job, off, buf[..bytes], extentCsum);
      assert buf[0..bytes] == buf[..bytes];
      while fileOff < off + bytes
        invariant fileOff == off + bufOff <= off + bytes
        invariant Goes(old(extents), all, fileOff, buf[bufOff..bytes])
      {
        ghost var data := buf[bufOff..bytes];
        ExtentPassGap(job, fileOff, data, extentCsum);
        var i;
        i, cursor := GetExtent(job.recs, fileOff, cursor);
        if i == |job.recs| {
          extentCsum := None;
          return;
        }
        var e := job.recs[i];
        if fileOff < e.logical {
          var gap := e.logical - fileOff;
          if gap > bytes - bufOff {
            gap := bytes - bufOff;
          }
          Skip(bufOff, gap, bytes);
          bufOff, fileOff := bufOff + gap, fileOff + gap;
          continue;
        }
        var n := ProcessRecord(i, fileOff, bufOff, bytes);
        bufOff, fileOff := bufOff + n, fileOff + n;
      }
      ExtentPassGap(job, fileOff, buf[bufOff..bytes], extentCsum);
    }

    lemma Skip(a: nat, n: nat, b: nat)
      requires a + n <= b <= buf.Length
      ensures buf[a..b][..n] == buf[a..a + n] && buf[a..b][n..] == buf[a + n..b]
    {
    }

    /** What is done so far and what the rest of the bytes will do is all that the bytes do. */
    ghost predicate Goes(before: seq<ExtentRow>, all: (seq<ExtentRow>, Option<seq<Byte>>), at: nat, rest: seq<Byte>)
      reads this
    {
      var r := ExtentPass(job, at, rest, extentCsum);
      before + all.0 == extents + r.0 && all.1 == r.1
    }

    /** The part of the buffer inside one record. */
    method ProcessRecord(i: nat, fileOff: nat, bufOff: nat, bytes: nat) returns (n: nat)
      requires job.Valid() && off + bytes <= job.Size() && bytes <= buf.Length
      requires fileOff == off + bufOff && bufOff < bytes
      requires i == job.At(fileOff) && i < |job.recs| && job.recs[i].logical <= fileOff
      modifies this`extentCsum, this`extents
      ensures 0 < n <= bytes - bufOff && n == Min(job.recs[i].End() - fileOff, bytes - bufOff)
      ensures Goes(old(extents), ExtentPass(job, fileOff, buf[bufOff..bytes], old(extentCsum)), fileOff + n,
                   buf[bufOff + n..bytes])
    {
      hide Sorted, ExtentPass, Reaching;
      var e := job.recs[i];
      n := if e.End() > off + bytes then bytes - bufOff else e.End() - fileOff;
      ghost var data, done := buf[bufOff..bytes], extents;
      ExtentPassRecord(job, fileOff, data, extentCsum);
      Skip(bufOff, n, bytes);
      if !e.Skip() {
        AddToExtent(bufOff, n);
      }
      var dummy := 0;
      if e.End() > job.Size() {
        dummy := e.End() - job.Size();
      }
      if fileOff + n + dummy == e.End() {
        StoreExtent(e);
      }
      RowFirst(done, extents, ExtentPass(job, fileOff + n, data[n..], extentCsum).0);
    }

    lemma RowFirst(done: seq<ExtentRow>, extents: seq<ExtentRow>, rest: seq<ExtentRow>)
      requires done <= extents
      ensures done + (extents[|done|..] + rest) == extents + rest
    {
      assert done + extents[|done|..] == extents;
    }

    /** The running checksum of the extent in progress takes `n` more bytes. */
    method AddToExtent(bufOff: nat, n: nat)
      requires bufOff + n <= buf.Length
      modifies this`extentCsum
      ensures extentCsum == Some(SoFar(old(extentCsum)) + buf[bufOff..bufOff + n])
    {
      if extentCsum == None {
        extentCsum := Some([]);
      }
      extentCsum := Some(extentCsum.value + buf[bufOff..bufOff + n]);
    }

    /** store_extent(): a row for a data extent; for a skipped one nothing that reaches the hashfile. */
    method StoreExtent(e: Rec)
      requires !e.Skip() ==> extentCsum.Some?
      modifies this`extentCsum, this`extents
      ensures extents == old(extents)
                         + if e.Skip() then []
                           else [ExtentRow(e.logical, e.physical, e.length, old(extentCsum).value)]
      ensures extentCsum == if e.Skip() then old(extentCsum) else None
    {
      if !e.Skip() {
        extents := extents + [ExtentRow(e.logical, e.physical, e.length, extentCsum.value)];
        extentCsum := None;
      }
    }

    /** An all-hole run: skipped, and only its place and length folded into the digest. */
    method SkipHole(len: nat)
      requires Valid() && off < job.Size() && job.HoleBlock(off) && len == job.HoleRun(off)
      modifies this`off, this`fileCsum
      ensures Valid() && off == old(off) + job.Advance(old(off))
      ensures fileCsum == old(fileCsum) + job.Fed(old(off))
    {
      hide job.NextHole, Sorted, Aligned, job.ExtentRows, job.Progress, job.BlocksBelow, Descriptor, Reaching,
           RoundDown;
      assert dlLen == 0;
      SkippedRows(job, off);
      if job.blockHash {
        SkippedBlocks(job, off);
      }
      job.HoleRunStaysOnGrid(off);
      fileCsum := fileCsum + Descriptor(off, len);
      off := off + len;
    }

    /** The block rows of a filled buffer, and how much of it this pass consumes. */
    method ConsumeBlocks(eof: bool) returns (bytes: nat)
      requires job.Valid() && job.OnGrid(off) && off < job.Size() && !job.HoleBlock(off)
      requires dlLen <= buf.Length && blocks == job.BlockRows(off)
      requires faked <==> job.ActionAt(off).Fake?
      requires faked ==> dlLen == job.FakeLen() && buf[..dlLen] == Zeroes(dlLen)
      requires !faked ==> dlLen == job.ActionAt(off).filled && off + dlLen <= job.Size()
                          && buf[..dlLen] == job.content[off..off + dlLen]
      requires eof <==> off + dlLen >= job.Size()
      modifies this`cursor, this`blocks
      ensures bytes == job.Advance(off) <= dlLen
      ensures buf[..bytes] == job.Fed(off)
      ensures eof ==> bytes == dlLen
      ensures blocks == old(blocks) + PassBlocks(job, off) == job.BlockRows(off + bytes)
    {
      hide job.NextHole, Sorted, Aligned, job.BlockRows, Ignored, job.HoleBlock, Reaching, NoData, RoundDown,
           BlockPass;
      PassBlocksRight(job, off);
      if !faked {
        job.ReadAdvances(off);
      }
      bytes := ProcessBlocks();
      if eof && bytes < dlLen {
        BlockPassSplit(job, off, buf[..dlLen], bytes);
        Cut(bytes, dlLen);
        ProcessLastBlock(bytes);
        bytes := dlLen;
      }
      if !faked {
        Piece(dlLen, 0, bytes);
      }
    }

    /** One pass of the main loop, at whatever offset. */
    method Pass() returns (eof: bool)
      requires Valid() && off < job.Size()
      modifies this, buf
      ensures Valid()
      ensures off == old(off) + job.Advance(old(off))
      ensures fileCsum == old(fileCsum) + job.Fed(old(off))
      ensures eof ==> off == job.Size()
    {
      hide job.ActionAt, job.Advance, job.Fed, Sorted, Aligned, job.BlockRows, job.ExtentRows, job.Progress,
           Reaching, RoundDown, job.HoleBlock;
      var hole := HoleRunLength();
      if hole != 0 {
        SkipHole(hole);
        return false;
      }
      eof := ReadPass();
    }

    method ReadPass() returns (eof: bool)
      requires Valid() && off < job.Size() && !job.HoleBlock(off)
      modifies this, buf
      ensures Valid()
      ensures off == old(off) + job.Advance(old(off))
      ensures fileCsum == old(fileCsum) + job.Fed(old(off))
      ensures eof ==> off == job.Size()
    {
      hide job.NextHole, Sorted, Aligned, job.BlockRows, job.ExtentRows, job.Progress, Reaching, RoundDown,
           job.HoleBlock, job.Fed;
      job.PassAdvances(off);
      eof := FillBuffer();
      var bytes := ConsumeBlocks(eof);
      fileCsum := fileCsum + buf[..bytes];
      assert faked ==> NoData(job.recs, off, off + bytes);
      Consume(bytes);
    }

    /** The extents and the offset take the bytes of this pass; the rest of the buffer is left over. */
    method Consume(bytes: nat)
      requires job.Valid() && buf.Length == job.buf && job.OnGrid(off) && off < job.Size()
      requires dlOffset == 0 && bytes <= dlLen <= buf.Length && CapOk() && RowsAt(off)
      requires off + bytes <= job.Size() && job.OnGrid(off + bytes) && blocks == job.BlockRows(off + bytes)
      requires (off + dlLen <= job.Size() && buf[..dlLen] == job.content[off..off + dlLen])
               || NoData(job.recs, off, off + bytes)
      requires bytes < dlLen ==>
                 && job.ActionAt(off) == Read(bytes, dlLen, false) && off + dlLen <= job.Size()
                 && buf[..dlLen] == job.content[off..off + dlLen]
      modifies this`cursor, this`extentCsum, this`extents, this`off, this`dlOffset, this`dlLen
      ensures Valid() && off == old(off) + bytes
    {
      hide job.NextHole, Sorted, Aligned, job.BlockRows, job.ExtentRows, job.Progress, Reaching, RoundDown,
           job.ActionAt, NoData, RowsAt;
      ConsumeExtents(bytes);
      Shift(bytes);
    }

    method ConsumeExtents(bytes: nat)
      requires job.Valid() && dlOffset == 0 && bytes <= dlLen <= buf.Length && RowsAt(off)
      requires off + bytes <= job.Size()
      requires (off + dlLen <= job.Size() && buf[..dlLen] == job.content[off..off + dlLen])
               || NoData(job.recs, off, off + bytes)
      modifies this`cursor, this`extentCsum, this`extents
      ensures RowsAt(off + bytes)
    {
      hide Sorted, job.ExtentRows, job.Progress, Reaching, NoData, ExtentPass;
      if job.onlyWholeFiles {
        WholeFileRows(off + bytes);
        return;
      }
      if off + dlLen <= job.Size() && buf[..dlLen] == job.content[off..off + dlLen] {
        Piece(dlLen, 0, bytes);
      }
      ExtentPassRight(job, off, buf[..bytes]);
      ProcessExtents(bytes);
    }

    method Shift(bytes: nat)
      requires job.Valid() && buf.Length == job.buf && job.OnGrid(off) && off < job.Size()
      requires dlOffset == 0 && bytes <= dlLen <= buf.Length && CapOk() && RowsAt(off + bytes)
      requires off + bytes <= job.Size() && job.OnGrid(off + bytes) && blocks == job.BlockRows(off + bytes)
      requires bytes < dlLen ==>
                 && job.ActionAt(off) == Read(bytes, dlLen, false) && off + dlLen <= job.Size()
                 && buf[..dlLen] == job.content[off..off + dlLen]
      modifies this`off, this`dlOffset, this`dlLen
      ensures Valid() && off == old(off) + bytes
    {
      hide job.NextHole, Sorted, Aligned, job.BlockRows, job.ExtentRows, job.Progress, RoundDown, Reaching,
           job.HoleBlock, job.ActionAt;
      if bytes < dlLen {
        Leftover(job, off);
        Piece(dlLen, bytes, dlLen);
      }
      dlOffset := bytes;
      dlLen := dlLen - bytes;
      off := off + bytes;
    }

    lemma WholeFileRows(p: nat)
      requires job.Valid() && job.onlyWholeFiles
      requires RowsAt(off)
      ensures RowsAt(p)
    {
    }

    /**
     * The whole scan, from the start or from a checkpoint: it stops where the memoryless scan stops, with
     * the same digest stream, the same extent rows and the same block rows.
     */
    method Hash() returns (complete: bool)
      requires Valid()
      modifies this, buf
      ensures Valid()
      ensures (off, fileCsum) == job.Final(old(off), old(fileCsum))
      ensures complete <==> off == job.Size()
      ensures complete ==> extents == job.ExtentRows(job.Size()) && blocks == job.BlockRows(job.Size())
    {
      hide job.ActionAt, job.Advance, job.Fed, Sorted, job.ExtentRows, job.BlockRows, job.Progress, Reaching,
           RoundDown, Aligned, job.NextHole;
      while off < job.Size()
        invariant Valid()
        invariant job.Final(off, fileCsum) == job.Final(old(off), old(fileCsum))
        decreases job.Size() - off
      {
        job.PassAdvances(off);
        var eof := Pass();
        if eof {
          break;
        }
      }
      complete := off == job.Size();
    }

    /** A fresh scan, or one that carries on where a checkpoint left its digests. */
    constructor (job: Job, off: nat, fileCsum: seq<Byte>, extentCsum: Option<seq<Byte>>,
                 extents: seq<ExtentRow>, blocks: seq<BlockRow>)
      requires job.Valid() && job.OnGrid(off) && off <= job.Size()
      requires extentCsum == job.Progress(off)
      requires extents == job.ExtentRows(off) && blocks == job.BlockRows(off)
      ensures Valid() && fresh(buf)
      ensures this.job == job && this.off == off && this.fileCsum == fileCsum
    {
      this.job := job;
      this.buf := new Byte[job.buf](_ => 0);
      this.off, this.fileCsum, this.extentCsum := off, fileCsum, extentCsum;
      this.extents, this.blocks := extents, blocks;
      this.readCap, this.cursor, this.dlOffset, this.dlLen := 0, 0, 0, 0;
      this.faked, this.capFrom := false, 0;
    }
  }
}
