/** The rows and the digest stream a finished scan leaves. */
module ScanRows {
  import opened Grid
  import opened Layout
  import opened Options
  import opened ScanSpec
  import opened ScanTheorems

  // ---- Extent rows ----

  /** Moving from `a` to `b` without leaving the record reaching `a` can only finish that record. */
  lemma {:induction false} RowsStep(j: Job, a: nat, b: nat, n: nat)
    requires j.Valid() && n <= |j.recs| && a <= b <= j.Size()
    requires j.At(a) < |j.recs| ==> b <= j.recs[j.At(a)].End()
    ensures var i := j.At(a);
            j.RowsOf(n, b) == j.RowsOf(n, a) +
              (if i < n && j.Done(j.recs[i], b) && !j.Done(j.recs[i], a) then [j.RowOf(j.recs[i])] else [])
  {
    if n > 0 {
      RowsStep(j, a, b, n - 1);
      var i, e := j.At(a), j.recs[n - 1];
      if n - 1 < i {
        assert e.End() <= a;
      } else if i < n - 1 {
        assert j.recs[i].End() <= e.logical;
      }
    }
  }

  ghost predicate DataBefore(j: Job, i: nat, off: nat) {
    i < |j.recs| && j.Done(j.recs[i], off)
  }

  /** Strictly increasing in offset: no row is there twice. */
  ghost predicate Increasing(rows: seq<ExtentRow>) {
    forall k, l :: 0 <= k < l < |rows| ==> rows[k].loff < rows[l].loff
  }

  lemma {:induction false} RowsExact(j: Job, n: nat, off: nat)
    requires j.Valid() && n <= |j.recs|
    ensures var rows := j.RowsOf(n, off);
            && Increasing(rows)
            && (forall i :: 0 <= i < n && DataBefore(j, i, off) ==> j.RowOf(j.recs[i]) in rows)
            && (forall r :: r in rows ==> exists i :: 0 <= i < n && DataBefore(j, i, off) && r == j.RowOf(j.recs[i]))
  {
    if n > 0 {
      RowsExact(j, n - 1, off);
      var rows, rows' := j.RowsOf(n - 1, off), j.RowsOf(n, off);
      var e := j.recs[n - 1];
      forall k | 0 <= k < |rows|
        ensures rows[k].loff < e.logical
      {
        assert rows[k] in rows;
        var i :| 0 <= i < n - 1 && DataBefore(j, i, off) && rows[k] == j.RowOf(j.recs[i]);
        assert j.recs[i].End() <= e.logical;
      }
      if j.Done(e, off) {
        assert DataBefore(j, n - 1, off);
      }
    }
  }

  /** Neither inline nor preallocated. */
  predicate IsData(e: Rec) { !e.inline && !e.unwritten }

  /**
   * A completed scan stores one row for every data record that starts before the end of the file, with
   * exactly the bytes from its start to its end or the end of the file, and no other row.
   */
  lemma ExtentRowsComplete(j: Job)
    requires j.Valid() && !j.onlyWholeFiles
    ensures Increasing(j.ExtentRows(j.Size()))
    ensures forall i :: 0 <= i < |j.recs| && IsData(j.recs[i]) && j.recs[i].logical < j.Size()
                        ==> j.RowOf(j.recs[i]) in j.ExtentRows(j.Size())
    ensures forall r :: r in j.ExtentRows(j.Size())
                        ==> exists i :: 0 <= i < |j.recs| && IsData(j.recs[i]) && j.recs[i].logical < j.Size()
                                        && r == j.RowOf(j.recs[i])
  {
    assert forall i :: 0 <= i < |j.recs| ==> (IsData(j.recs[i]) <==> !j.recs[i].Skip());
    RowsExact(j, |j.recs|, j.Size());
    assert forall i :: 0 <= i < |j.recs| && !j.recs[i].Skip() && j.recs[i].logical < j.Size()
                       ==> DataBefore(j, i, j.Size());
  }

  // ---- Block rows ----

  /** The rows are those of the Stored grid blocks below `off`, each once, with the block's own bytes. */
  ghost predicate BlocksExact(j: Job, rows: seq<BlockRow>, off: nat)
    requires j.Valid() && off <= j.Size()
  {
    && (forall k, l :: 0 <= k < l < |rows| ==> rows[k].loff < rows[l].loff)
    && (forall k :: 0 <= k < |rows| ==>
          && rows[k].loff < off && Aligned(rows[k].loff, j.bs) && j.Stored(rows[k].loff)
          && rows[k].data == j.content[rows[k].loff..Min(rows[k].loff + j.bs, j.Size())])
    && (forall g: nat :: g < off && Aligned(g, j.bs) && j.Stored(g) ==>
          exists k :: 0 <= k < |rows| && rows[k].loff == g)
  }

  lemma BlocksExactStep(j: Job, rows: seq<BlockRow>, g: nat, off: nat)
    requires j.Valid() && g < off <= j.Size() && off <= g + j.bs
    requires Aligned(g, j.bs) && BlocksExact(j, rows, g)
    ensures BlocksExact(j, rows + j.BlockAt(g), off)
  {
    hide j.Stored, Aligned, Sorted;
    forall h: nat | h < off && Aligned(h, j.bs) && j.Stored(h)
      ensures exists k :: 0 <= k < |rows + j.BlockAt(g)| && (rows + j.BlockAt(g))[k].loff == h
    {
      BlockFound(j, rows, g, off, h);
    }
  }

  lemma BlockFound(j: Job, rows: seq<BlockRow>, g: nat, off: nat, h: nat)
    requires j.Valid() && g < off <= j.Size() && off <= g + j.bs
    requires Aligned(g, j.bs) && BlocksExact(j, rows, g)
    requires h < off && Aligned(h, j.bs) && j.Stored(h)
    ensures exists k :: 0 <= k < |rows + j.BlockAt(g)| && (rows + j.BlockAt(g))[k].loff == h
  {
    hide j.Stored, Aligned, Sorted;
    var rows' := rows + j.BlockAt(g);
    if g < h { GridGap(g, h, j.bs); }
    if h < g {
      var k :| 0 <= k < |rows| && rows[k].loff == h;
      assert rows'[k].loff == h;
    } else {
      assert rows'[|rows|].loff == h;
    }
  }

  lemma {:induction false} BlockRowsExact(j: Job, off: nat)
    requires j.Valid() && off <= j.Size()
    ensures BlocksExact(j, j.BlocksBelow(off), off)
    decreases off
  {
    hide BlocksExact, Sorted, j.BlockAt;
    if off > 0 {
      var g := RoundDown(off - 1, j.bs);
      BlockRowsExact(j, g);
      BlocksExactStep(j, j.BlocksBelow(g), g, off);
    } else {
      NoBlocks(j);
    }
  }

  lemma NoBlocks(j: Job)
    requires j.Valid()
    ensures BlocksExact(j, [], 0)
  {
  }

  /** Adding the blocks of one buffer: the next whole block extends the rows by its own. */
  lemma BlocksBelowStep(j: Job, g: nat)
    requires j.Valid() && g < j.Size() && Aligned(g, j.bs)
    ensures j.BlocksBelow(Min(g + j.bs, j.Size())) == j.BlocksBelow(g) + j.BlockAt(g)
  {
    hide j.BlockAt;
    var off := Min(g + j.bs, j.Size());
    var d := RoundDown(off - 1, j.bs);
    if d < g { GridGap(d, g, j.bs); } else if g < d { GridGap(g, d, j.bs); }
  }

  lemma {:induction false} UnstoredRun(j: Job, a: nat, b: nat)
    requires j.Valid() && a <= b <= j.Size() && (a < j.Size() ==> Aligned(a, j.bs))
    requires forall g: nat :: a <= g < b && Aligned(g, j.bs) ==> !j.Stored(g)
    ensures j.BlocksBelow(b) == j.BlocksBelow(a)
    decreases b
  {
    hide j.Stored, Sorted;
    if a < b {
      var g := RoundDown(b - 1, j.bs);
      if g < a { GridGap(g, a, j.bs); }
      UnstoredRun(j, a, g);
    }
  }

  /** A faked buffer leaves no block rows behind: each of its blocks is a hole or holds no data. */
  lemma FakedBlocks(j: Job, off: nat)
    requires j.Valid() && j.blockHash && j.OnGrid(off) && off < j.Size() && j.ActionAt(off).Fake?
    ensures j.BlocksBelow(off + j.FakeLen()) == j.BlocksBelow(off)
  {
    hide j.Stored, Aligned, Sorted, j.HoleBlock, j.NextHole, Reaching, Ignored, NoData, RoundDown;
    var to := off + j.FakeLen();
    assert to <= j.Size() && NoData(j.recs, off, to) by { FakedArea(j, off); }
    forall g: nat | off <= g < to && Aligned(g, j.bs)
      ensures !j.Stored(g)
    {
      FakedBlock(j, g, off, to);
    }
    UnstoredRun(j, off, to);
  }

  lemma FakedArea(j: Job, off: nat)
    requires j.Valid() && off < j.Size() && j.ActionAt(off).Fake?
    ensures off + j.FakeLen() <= j.Size() && NoData(j.recs, off, off + j.FakeLen())
  {
    hide j.NextHole, Reaching, Sorted, NoData;
  }

  lemma FakedBlock(j: Job, g: nat, a: nat, b: nat)
    requires j.Valid() && NoData(j.recs, a, b) && a <= g < b == a + j.FakeLen() <= j.Size()
    requires Aligned(a, j.bs) && Aligned(g, j.bs)
    ensures !j.Stored(g)
  {
    hide Sorted, Reaching;
    assert g + j.bs <= b by {
      GridAdd(a, j.FakeLen(), j.bs);
      GridGap(g, b, j.bs);
    }
    assert NoData(j.recs, g, g + j.bs);
    if !j.HoleBlock(g) {
      assert Overlaps(j.recs[j.At(g)], g, g + j.bs);
    }
  }

  /** Nor does a skipped hole run. */
  lemma SkippedBlocks(j: Job, off: nat)
    requires j.Valid() && j.blockHash && j.OnGrid(off) && off < j.Size() && j.HoleBlock(off)
    ensures j.BlocksBelow(Min(off + j.HoleRun(off), j.Size())) == j.BlocksBelow(off)
  {
    var to := Min(off + j.HoleRun(off), j.Size());
    forall g: nat | off <= g < to && Aligned(g, j.bs)
      ensures !j.Stored(g)
    {
      ReachingUnique(j.recs, g, j.At(off));
      if j.At(off) < |j.recs| {
        GridGap(g, RoundDown(j.recs[j.At(off)].logical, j.bs), j.bs);
      }
    }
    UnstoredRun(j, off, to);
  }

  /** The record reaching `a` also reaches `b`, or `b` is its end. */
  lemma ReachAlong(j: Job, a: nat, b: nat)
    requires j.Valid() && a < b && (j.At(a) < |j.recs| ==> b <= j.recs[j.At(a)].End())
    ensures j.At(b) == if j.At(a) < |j.recs| && b == j.recs[j.At(a)].End() then j.At(a) + 1 else j.At(a)
    ensures j.At(b) < |j.recs| && j.At(b) != j.At(a) ==> b <= j.recs[j.At(b)].logical
  {
    var i := j.At(a);
    if i < |j.recs| && b == j.recs[i].End() {
      ReachingUnique(j.recs, b, i + 1);
    } else {
      ReachingUnique(j.recs, b, i);
    }
  }

  /** Bytes of a hole, or past the last record, change no row and no extent digest. */
  lemma GapStep(j: Job, a: nat, b: nat)
    requires j.Valid() && !j.onlyWholeFiles && a < b <= j.Size()
    requires j.At(a) < |j.recs| ==> b <= j.recs[j.At(a)].logical
    ensures j.ExtentRows(b) == j.ExtentRows(a) && j.Progress(a) == j.Progress(b) == None
  {
    hide Reaching;
    RowsStep(j, a, b, |j.recs|);
    ReachAlong(j, a, b);
  }

  /** What the bytes from `a` to `b` of one record do to the extent rows and to the digest in progress. */
  lemma ExtentStep(j: Job, a: nat, b: nat)
    requires j.Valid() && !j.onlyWholeFiles && a < b <= j.Size()
    requires j.At(a) < |j.recs| && j.recs[j.At(a)].logical <= a && b <= j.recs[j.At(a)].End()
    ensures var e := j.recs[j.At(a)];
            && j.Progress(a) == (if !e.Skip() && e.logical < a then Some(j.content[e.logical..a]) else None)
            && (b != j.StopOf(e) ==>
                  && j.ExtentRows(b) == j.ExtentRows(a)
                  && j.Progress(b) == (if e.Skip() then None else Some(j.content[e.logical..b])))
            && (b == j.StopOf(e) ==>
                  && j.ExtentRows(b) == j.ExtentRows(a) + (if e.Skip() then [] else [j.RowOf(e)])
                  && j.Progress(b) == None)
  {
    hide Reaching, Sorted, j.RowOf;
    RowsStep(j, a, b, |j.recs|);
    ReachAlong(j, a, b);
  }

  /** A hole skip crosses no data. */
  lemma SkippedRows(j: Job, off: nat)
    requires j.Valid() && off < j.Size() && j.HoleBlock(off)
    ensures var to := Min(off + j.HoleRun(off), j.Size());
            j.ExtentRows(to) == j.ExtentRows(off) && j.Progress(to) == j.Progress(off)
  {
    hide Reaching, Sorted, j.RowsOf;
    if !j.onlyWholeFiles {
      GapStep(j, off, Min(off + j.HoleRun(off), j.Size()));
    }
  }

  /** What is left in the buffer after a pass is less than a block, and no hole begins in it. */
  lemma Leftover(j: Job, off: nat)
    requires j.Valid() && off < j.Size() && j.OnGrid(off) && j.ActionAt(off).Read?
    requires j.ActionAt(off).used < j.ActionAt(off).filled
    ensures var to := off + j.ActionAt(off).used;
            && j.blockHash && to < j.Size() && !j.HoleBlock(to)
            && j.ActionAt(off).filled < j.ActionAt(off).used + j.bs
            && off + j.ActionAt(off).filled <= j.NextHole(to)
  {
    hide j.NextHole, RoundDown, Reaching, Sorted, j.HoleBlock, Ignored;
    LeftoverIsBlocks(j, off);
    var to := off + j.ActionAt(off).used;
    j.ReadAdvances(off);
    hide j.ActionAt, Aligned;
    NoHoleBelowReadCap(j, off, to);
    ReadCapStable(j, off, to);
  }

  lemma LeftoverIsBlocks(j: Job, off: nat)
    requires j.Valid() && off < j.Size() && j.ActionAt(off).Read?
    requires j.ActionAt(off).used < j.ActionAt(off).filled
    ensures var to := off + j.ActionAt(off).used;
            && j.blockHash && to < j.Size() && !j.HoleBlock(off)
            && j.ActionAt(off).filled < j.ActionAt(off).used + j.bs
  {
    hide j.NextHole, RoundDown, Reaching, Sorted, Ignored;
  }

  /** No block that starts in a filled buffer is a hole. */
  lemma NoHoleInBuffer(j: Job, off: nat, g: nat)
    requires j.Valid() && j.blockHash && off < j.Size() && j.OnGrid(off) && j.ActionAt(off).Read?
    requires off <= g < off + j.ActionAt(off).filled && Aligned(g, j.bs)
    ensures !j.HoleBlock(g)
  {
    j.ReadAdvances(off);
    hide j.NextHole, RoundDown, Reaching, Sorted, Ignored, Aligned;
    NoHoleBelowReadCap(j, off, g);
  }
}
