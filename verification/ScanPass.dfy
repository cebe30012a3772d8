/**
 * What process_extents() and process_blocks() (src/file_scan.c) make of a pass's bytes, whatever digest they find
 * in progress; and that with the digest of the offset this gives the rows of the offset.
 */
module ScanPass {
  import opened Grid
  import opened Layout
  import opened Options
  import opened ScanSpec
  import opened ScanRows

  /** A digest as far as it has come; none yet counts as nothing fed. */
  function SoFar(ext: Option<seq<Byte>>): seq<Byte> {
    if ext.Some? then ext.value else []
  }

  /** process_extents(): the rows a pass's bytes finish, and the digest in progress after them. */
  function ExtentPass(j: Job, off: nat, data: seq<Byte>, ext: Option<seq<Byte>>): (seq<ExtentRow>, Option<seq<Byte>>)
    decreases |data|
  {
    if data == [] then ([], ext)
    else if j.At(off) == |j.recs| then ([], None)
    else
      var e := j.recs[j.At(off)];
      if off < e.logical then
        var gap := Min(e.logical - off, |data|);
        ExtentPass(j, off + gap, data[gap..], ext)
      else
        var n := Min(e.End() - off, |data|);
        var fed := if e.Skip() then ext else Some(SoFar(ext) + data[..n]);
        var unread := if e.End() > j.Size() then e.End() - j.Size() else 0;
        if off + n + unread == e.End() && fed.Some? && !e.Skip() then
          var rest := ExtentPass(j, off + n, data[n..], None);
          ([ExtentRow(e.logical, e.physical, e.length, fed.value)] + rest.0, rest.1)
        else
          ExtentPass(j, off + n, data[n..], fed)
  }

  /** process_blocks() and the last partial block: the rows of the pass's bytes. */
  ghost function BlockPass(j: Job, off: nat, data: seq<Byte>): seq<BlockRow>
    requires j.Valid()
    decreases |data|
  {
    if data == [] then []
    else
      var n := Min(j.bs, |data|);
      var skipped := n == j.bs && (Ignored(j.recs, off, off + n) || (j.skipZeroes && data[..n] == Zeroes(n)));
      (if skipped then [] else [BlockRow(off, data[..n])]) + BlockPass(j, off + n, data[n..])
  }

  /** The extent rows of one pass, and the digest in progress after it: of the bytes, and of the digest before. */
  ghost function PassExtents(j: Job, off: nat, ext: Option<seq<Byte>>): (seq<ExtentRow>, Option<seq<Byte>>)
    requires j.Valid() && off < j.Size()
  {
    if j.onlyWholeFiles || j.ActionAt(off).Hole? then ([], ext) else ExtentPass(j, off, j.Fed(off), ext)
  }

  /** Its block rows; a skipped hole and a faked buffer have none. */
  ghost function PassBlocks(j: Job, off: nat): seq<BlockRow>
    requires j.Valid() && off < j.Size()
  {
    if j.blockHash && j.ActionAt(off).Read? then BlockPass(j, off, j.Fed(off)) else []
  }

  // ---- Extent rows ----

  /** The bytes are the file's, or none of them belongs to a data extent. */
  ghost predicate PassBytes(j: Job, off: nat, data: seq<Byte>) {
    && off + |data| <= j.Size()
    && (data == j.content[off..off + |data|] || NoData(j.recs, off, off + |data|))
  }

  lemma PassBytesRest(j: Job, off: nat, data: seq<Byte>, n: nat)
    requires PassBytes(j, off, data) && n <= |data|
    ensures PassBytes(j, off + n, data[n..])
  {
  }

  /** Bytes inside a data extent are the file's. */
  lemma PassBytesHead(j: Job, off: nat, data: seq<Byte>, n: nat, i: nat)
    requires PassBytes(j, off, data) && 0 < n <= |data| && i < |j.recs| && !j.recs[i].Skip()
    requires j.recs[i].logical <= off < j.recs[i].End()
    ensures data[..n] == j.content[off..off + n]
  {
    assert Overlaps(j.recs[i], off, off + |data|);
  }

  /** Up to the next record, or past the last, a pass has nothing to feed to an extent. */
  lemma ExtentPassGap(j: Job, off: nat, data: seq<Byte>, ext: Option<seq<Byte>>)
    ensures data == [] ==> ExtentPass(j, off, data, ext) == ([], ext)
    ensures data != [] && j.At(off) == |j.recs| ==> ExtentPass(j, off, data, ext) == ([], None)
    ensures data != [] && j.At(off) < |j.recs| && off < j.recs[j.At(off)].logical ==>
              var gap := Min(j.recs[j.At(off)].logical - off, |data|);
              ExtentPass(j, off, data, ext) == ExtentPass(j, off + gap, data[gap..], ext)
  {
  }

  /** Inside a record: its bytes are fed to the digest in hand, and at its end that digest becomes a row. */
  lemma ExtentPassRecord(j: Job, off: nat, data: seq<Byte>, ext: Option<seq<Byte>>)
    requires data != [] && j.At(off) < |j.recs| && j.recs[j.At(off)].logical <= off && off + |data| <= j.Size()
    ensures var e := j.recs[j.At(off)];
            var n := Min(e.End() - off, |data|);
            0 < n
            && (e.Skip() ==> ExtentPass(j, off, data, ext) == ExtentPass(j, off + n, data[n..], ext))
            && (!e.Skip() && off + n != j.StopOf(e) ==>
                  ExtentPass(j, off, data, ext) == ExtentPass(j, off + n, data[n..], Some(SoFar(ext) + data[..n])))
            && (!e.Skip() && off + n == j.StopOf(e) ==>
                  var rest := ExtentPass(j, off + n, data[n..], None);
                  ExtentPass(j, off, data, ext) ==
                    ([ExtentRow(e.logical, e.physical, e.length, SoFar(ext) + data[..n])] + rest.0, rest.1))
  {
    hide SoFar, Reaching;
  }

  /** The digest the worker holds is the offset's: then the pass's rows and its new digest are the offset's too. */
  lemma {:induction false} ExtentPassRight(j: Job, off: nat, data: seq<Byte>)
    requires j.Valid() && !j.onlyWholeFiles && PassBytes(j, off, data)
    ensures var r := ExtentPass(j, off, data, j.Progress(off));
            j.ExtentRows(off + |data|) == j.ExtentRows(off) + r.0 && r.1 == j.Progress(off + |data|)
    decreases |data|
  {
    hide j.ExtentRows, j.Progress, Sorted, Reaching, PassBytes, ExtentPass;
    BytesInFile(j, off, data);
    ExtentPassGap(j, off, data, j.Progress(off));
    if data != [] {
      var i := j.At(off);
      if i == |j.recs| {
        GapStep(j, off, off + |data|);
      } else if off < j.recs[i].logical {
        var gap := Min(j.recs[i].logical - off, |data|);
        GapStep(j, off, off + gap);
        PassBytesRest(j, off, data, gap);
        ExtentPassRight(j, off + gap, data[gap..]);
      } else {
        var n := Min(j.recs[i].End() - off, |data|);
        RecordPass(j, off, data, n);
        PassBytesRest(j, off, data, n);
        ExtentPassRight(j, off + n, data[n..]);
      }
    }
  }

  lemma BytesInFile(j: Job, off: nat, data: seq<Byte>)
    requires PassBytes(j, off, data)
    ensures off + |data| <= j.Size()
  {
  }

  /** The step inside one record: what ExtentPass goes on with, and the row it adds. */
  lemma RecordPass(j: Job, off: nat, data: seq<Byte>, n: nat)
    requires j.Valid() && !j.onlyWholeFiles && PassBytes(j, off, data) && data != []
    requires j.At(off) < |j.recs| && j.recs[j.At(off)].logical <= off
    requires n == Min(j.recs[j.At(off)].End() - off, |data|)
    ensures 0 < n <= |data|
    ensures var rest := ExtentPass(j, off + n, data[n..], j.Progress(off + n));
            var r := ExtentPass(j, off, data, j.Progress(off));
            r.1 == rest.1 && j.ExtentRows(off) + r.0 == j.ExtentRows(off + n) + rest.0
  {
    hide j.ExtentRows, j.Progress, Sorted, Reaching, PassBytes, ExtentPass;
    BytesInFile(j, off, data);
    var e := j.recs[j.At(off)];
    ExtentPassRecord(j, off, data, j.Progress(off));
    ExtentStep(j, off, off + n);
    if e.Skip() {
      assert j.ExtentRows(off) + [] == j.ExtentRows(off);
    } else {
      FedDigest(j, off, data, n);
      if off + n == j.StopOf(e) {
        var rest := ExtentPass(j, off + n, data[n..], None);
        assert j.ExtentRows(off) + ([j.RowOf(e)] + rest.0) == j.ExtentRows(off) + [j.RowOf(e)] + rest.0;
      }
    }
  }

  lemma FedDigest(j: Job, off: nat, data: seq<Byte>, n: nat)
    requires j.Valid() && !j.onlyWholeFiles && PassBytes(j, off, data) && 0 < n <= |data|
    requires j.At(off) < |j.recs| && j.recs[j.At(off)].logical <= off && !j.recs[j.At(off)].Skip()
    ensures SoFar(j.Progress(off)) + data[..n] == j.content[j.recs[j.At(off)].logical..off + n]
  {
    BytesInFile(j, off, data);
    PassBytesHead(j, off, data, n, j.At(off));
    hide Reaching, Sorted, PassBytes;
    var e := j.recs[j.At(off)];
    assert SoFar(j.Progress(off)) == j.content[e.logical..off];
    assert j.content[e.logical..off] + j.content[off..off + n] == j.content[e.logical..off + n];
  }

  /** What a pass at `off` feeds, if it is no hole skip. */
  lemma PassFeeds(j: Job, off: nat)
    requires j.Valid() && j.OnGrid(off) && off < j.Size() && !j.ActionAt(off).Hole?
    ensures |j.Fed(off)| == j.Advance(off) && PassBytes(j, off, j.Fed(off))
  {
    hide j.NextHole, RoundDown, Reaching, Sorted, Aligned;
    j.PassAdvances(off);
    if j.ActionAt(off).Fake? {
      FakedArea(j, off);
    }
  }

  /** With the offset's digest in hand a pass yields the next offset's rows and digest. */
  lemma PassExtentsRight(j: Job, off: nat)
    requires j.Valid() && j.OnGrid(off) && off < j.Size()
    ensures var p, r := Min(off + j.Advance(off), j.Size()), PassExtents(j, off, j.Progress(off));
            j.ExtentRows(p) == j.ExtentRows(off) + r.0 && r.1 == j.Progress(p)
  {
    hide j.NextHole, RoundDown, Reaching, Sorted, Aligned, j.RowsOf, j.Fed, ExtentPass;
    if j.onlyWholeFiles {
      assert PassExtents(j, off, j.Progress(off)) == ([], None);
    } else if j.ActionAt(off).Hole? {
      SkippedRows(j, off);
    } else {
      PassFeeds(j, off);
      hide j.ActionAt, j.Advance;
      ExtentPassRight(j, off, j.Fed(off));
      BytesInFile(j, off, j.Fed(off));
    }
  }

  // ---- Block rows ----

  ghost predicate NoHoles(j: Job, a: nat, b: nat)
    requires 0 < j.bs
  {
    forall g: nat :: a <= g < b && Aligned(g, j.bs) ==> !j.HoleBlock(g)
  }

  lemma BlockIsStored(j: Job, g: nat, data: seq<Byte>)
    requires j.Valid() && g < j.Size() && !j.HoleBlock(g) && data == j.content[g..Min(g + j.bs, j.Size())]
    ensures j.Stored(g) <==>
            !(|data| == j.bs && (Ignored(j.recs, g, g + j.bs) || (j.skipZeroes && data == Zeroes(j.bs))))
  {
    hide j.HoleBlock, Ignored, Sorted;
    if g + j.bs <= j.Size() {
      assert j.AllZero(g, g + j.bs) <==> data == Zeroes(j.bs) by {
        assert forall k :: 0 <= k < j.bs ==> data[k] == j.content[g + k];
        if j.AllZero(g, g + j.bs) {
          assert data == Zeroes(j.bs);
        }
        if data == Zeroes(j.bs) {
          forall k | g <= k < g + j.bs ensures j.content[k] == 0 { assert data[k - g] == 0; }
        }
      }
    }
  }

  lemma CutPiece(c: seq<Byte>, a: nat, m: nat, b: nat)
    requires a <= m <= b <= |c|
    ensures c[a..b][..m - a] == c[a..m] && c[a..b][m - a..] == c[m..b]
  {
  }

  /** Up to a block: its row, unless it is left out. */
  lemma BlockPassOne(j: Job, off: nat, data: seq<Byte>)
    requires j.Valid() && 0 < |data| <= j.bs
    ensures BlockPass(j, off, data)
            == if |data| == j.bs && (Ignored(j.recs, off, off + j.bs) || (j.skipZeroes && data == Zeroes(j.bs))) then []
               else [BlockRow(off, data)]
  {
    hide Ignored, Sorted;
    assert data[..|data|] == data;
    assert BlockPass(j, off + |data|, data[|data|..]) == [];
  }

  lemma BlockPassStep(j: Job, off: nat, data: seq<Byte>)
    requires j.Valid() && j.bs <= |data|
    ensures BlockPass(j, off, data) == BlockPass(j, off, data[..j.bs]) + BlockPass(j, off + j.bs, data[j.bs..])
  {
    hide Ignored, Sorted;
    BlockPassOne(j, off, data[..j.bs]);
  }

  /** The bytes can be taken in two parts that meet at a block boundary. */
  lemma {:induction false} BlockPassSplit(j: Job, off: nat, data: seq<Byte>, m: nat)
    requires j.Valid() && m <= |data| && Aligned(m, j.bs)
    ensures BlockPass(j, off, data) == BlockPass(j, off, data[..m]) + BlockPass(j, off + m, data[m..])
    decreases m
  {
    hide BlockPass, Sorted;
    if m == 0 {
      assert data[0..] == data;
      NoBytes(j, off, data[..0]);
    } else {
      var rest := data[j.bs..];
      BlockPassStep(j, off, data);
      BlockPassStep(j, off, data[..m]);
      BlockPassSplit(j, off + j.bs, rest, m - j.bs);
      assert data[..m][..j.bs] == data[..j.bs];
      assert data[..m][j.bs..] == rest[..m - j.bs];
      assert rest[m - j.bs..] == data[m..];
    }
  }

  /** The first block of a pass's bytes. */
  lemma BlockPassHead(j: Job, off: nat, upto: nat)
    requires j.Valid() && off < upto <= j.Size() && !j.HoleBlock(off)
    requires Min(off + j.bs, upto) == Min(off + j.bs, j.Size())
    ensures var next := Min(off + j.bs, upto);
            BlockPass(j, off, j.content[off..upto]) == j.BlockAt(off) + BlockPass(j, next, j.content[next..upto])
  {
    hide j.HoleBlock, Ignored, Sorted, j.Stored;
    var next := Min(off + j.bs, upto);
    CutPiece(j.content, off, next, upto);
    BlockIsStored(j, off, j.content[off..next]);
  }

  lemma {:induction false} BlockPassRight(j: Job, off: nat, upto: nat)
    requires j.Valid() && off <= upto <= j.Size() && (off < j.Size() ==> Aligned(off, j.bs))
    requires (upto < j.Size() ==> Aligned(upto, j.bs)) && NoHoles(j, off, upto)
    ensures j.BlocksBelow(upto) == j.BlocksBelow(off) + BlockPass(j, off, j.content[off..upto])
    decreases upto - off
  {
    hide j.HoleBlock, Ignored, Sorted, j.BlocksBelow, Aligned, j.BlockAt, BlockPass;
    if off < upto {
      var next := Min(off + j.bs, upto);
      if upto < j.Size() { GridGap(off, upto, j.bs); }
      BlocksBelowStep(j, off);
      BlockPassHead(j, off, upto);
      OneBlock(j.bs);
      if next < j.Size() { GridAdd(off, j.bs, j.bs); }
      BlockPassRight(j, next, upto);
    } else {
      assert BlockPass(j, off, j.content[off..upto]) == [] by { NoBytes(j, off, j.content[off..upto]); }
    }
  }

  lemma NoBytes(j: Job, off: nat, data: seq<Byte>)
    requires j.Valid() && data == []
    ensures BlockPass(j, off, data) == []
  {
  }

  lemma PassBlocksRight(j: Job, off: nat)
    requires j.Valid() && j.OnGrid(off) && off < j.Size()
    ensures j.BlockRows(off) + PassBlocks(j, off) == j.BlockRows(off + j.Advance(off))
  {
    hide j.NextHole, RoundDown, Reaching, Sorted, Aligned, j.BlocksBelow, BlockPass;
    if j.blockHash {
      if j.ActionAt(off).Hole? {
        SkippedBlocks(j, off);
      } else if j.ActionAt(off).Fake? {
        FakedBlocks(j, off);
      } else {
        ReadBlocks(j, off);
      }
    }
  }

  lemma ReadBlocks(j: Job, off: nat)
    requires j.Valid() && j.OnGrid(off) && off < j.Size() && j.blockHash && j.ActionAt(off).Read?
    ensures var to := off + j.Advance(off);
            to <= j.Size() && j.BlocksBelow(to) == j.BlocksBelow(off) + BlockPass(j, off, j.Fed(off))
  {
    hide j.NextHole, RoundDown, Reaching, Sorted, Aligned, j.BlocksBelow, j.HoleBlock, Ignored, BlockPass;
    var to := off + j.Advance(off);
    j.ReadAdvances(off);
    forall g: nat | off <= g < to && Aligned(g, j.bs)
      ensures !j.HoleBlock(g)
    {
      NoHoleInBuffer(j, off, g);
    }
    BlockPassRight(j, off, to);
  }
}
