/**
 * The file digest against the block grid: what a digest would be that read every block and described every hole,
 * and exactly when the scan's is that. It is not when a buffer taken as zeroes covers a hole or bytes that are
 * none; whether one does can be read off the extent map.
 */
module GridDigest {
  import opened Grid
  import opened Layout
  import opened ScanSpec
  import opened ScanTheorems
  import opened ScanEnd

  // ---- The grid's stream ----

  /**
   * The digest stream read off the grid: the bytes of every block that is no hole, and one (offset, length)
   * descriptor per maximal run of hole blocks. No buffer appears in it.
   */
  ghost function GridStream(j: Job, off: nat): seq<Byte>
    requires j.Valid()
    decreases j.Size() - off
  {
    if off >= j.Size() then []
    else if j.HoleBlock(off) then
      Descriptor(off, j.HoleRun(off)) + GridStream(j, off + j.HoleRun(off))
    else
      j.content[off..Min(off + j.bs, j.Size())] + GridStream(j, off + j.bs)
  }

  lemma GridBlock(j: Job, off: nat)
    requires j.Valid() && off < j.Size() && !j.HoleBlock(off)
    ensures GridStream(j, off) == j.content[off..Min(off + j.bs, j.Size())] + GridStream(j, off + j.bs)
  {
    hide j.HoleBlock, Sorted, j.HoleRun;
  }

  /** Blocks from `off` to `upto` are no holes: the stream there is just the bytes. */
  lemma {:induction false} GridStreamRun(j: Job, off: nat, upto: nat)
    requires j.Valid() && off <= upto <= j.Size() && (off < j.Size() ==> Aligned(off, j.bs))
    requires upto < j.Size() ==> Aligned(upto, j.bs)
    requires forall g: nat :: off <= g < upto && Aligned(g, j.bs) ==> !j.HoleBlock(g)
    ensures GridStream(j, off) == j.content[off..upto] + GridStream(j, upto)
    decreases upto - off
  {
    hide j.HoleBlock, Sorted, GridStream;
    if off < upto {
      var next := off + j.bs;
      if upto < j.Size() { GridGap(off, upto, j.bs); }
      GridBlock(j, off);
      if next <= upto {
        GridStreamRun(j, next, upto);
        assert j.content[off..upto] == j.content[off..next] + j.content[next..upto];
      } else {
        EndOfGrid(j, next);
        EndOfGrid(j, upto);
      }
    }
  }

  lemma ReadRun(j: Job, off: nat)
    requires j.Valid() && j.GridMode() && off < j.Size() && Aligned(off, j.bs) && j.ActionAt(off).Read?
    ensures var to := off + j.Advance(off);
            to <= j.Size() && GridStream(j, off) == j.Fed(off) + GridStream(j, to)
  {
    hide j.NextHole, Ignored, RoundDown, Sorted, Reaching, GridStream, Aligned, j.HoleBlock;
    var to := off + j.Advance(off);
    j.ReadAdvances(off);
    forall g: nat | off <= g < to && Aligned(g, j.bs)
      ensures !j.HoleBlock(g)
    {
      NoHoleBelowReadCap(j, off, g);
    }
    GridStreamRun(j, off, to);
  }

  lemma EndOfGrid(j: Job, off: nat)
    requires j.Valid() && off >= j.Size()
    ensures GridStream(j, off) == []
  {
  }

  lemma GridHole(j: Job, off: nat)
    requires j.Valid() && off < j.Size() && j.HoleBlock(off)
    ensures |GridStream(j, off)| == 16 + |GridStream(j, off + j.HoleRun(off))|
  {
    hide j.HoleBlock, Sorted, j.HoleRun;
  }

  // ---- What a buffer taken as zeroes gets wrong ----

  ghost predicate HoleAt(j: Job, g: nat)
    requires 0 < j.bs
  {
    Aligned(g, j.bs) && j.HoleBlock(g)
  }

  ghost predicate HoleIn(j: Job, a: nat, b: nat)
    requires 0 < j.bs
  {
    exists g: nat :: a <= g < b && HoleAt(j, g)
  }

  /** The buffer faked at x covers a hole block. */
  ghost predicate TakesHole(j: Job, x: nat)
    requires j.Valid()
  {
    Faked(j, x) && HoleIn(j, x, x + j.FakeLen())
  }

  /** Or bytes that are not zero. */
  ghost predicate Amiss(j: Job, x: nat)
    requires j.Valid()
  {
    Faked(j, x) && (HoleIn(j, x, x + j.FakeLen()) || !j.AllZero(x, x + j.FakeLen()))
  }

  /** A later block of a hole run is in the same run. */
  lemma InRun(j: Job, a: nat, b: nat)
    requires j.Valid() && a < b < j.Size() && Aligned(b, j.bs) && j.HoleBlock(a) && b < a + j.HoleRun(a)
    ensures j.HoleBlock(b) && b + j.HoleRun(b) == a + j.HoleRun(a)
  {
    hide RoundDown;
    ReachingUnique(j.recs, b, j.At(a));
    if j.At(a) < |j.recs| {
      GridGap(b, RoundDown(j.recs[j.At(a)].logical, j.bs), j.bs);
    }
  }

  lemma RunOnGrid(j: Job, a: nat, b: nat)
    requires j.Valid() && a < j.Size() && j.HoleBlock(a) && a + j.HoleRun(a) <= b <= j.Size() && Aligned(b, j.bs)
    ensures Aligned(a + j.HoleRun(a), j.bs)
  {
  }

  /** The stream from one grid point is no longer than the bytes to the next and what follows, shorter over a hole. */
  lemma {:induction false} GridShorter(j: Job, a: nat, b: nat)
    requires j.Valid() && j.bs > 16 && a <= b <= j.Size() && Aligned(a, j.bs) && Aligned(b, j.bs)
    ensures |GridStream(j, a)| <= b - a + |GridStream(j, b)|
    ensures HoleIn(j, a, b) ==> |GridStream(j, a)| < b - a + |GridStream(j, b)|
    decreases b - a
  {
    hide j.HoleBlock, j.HoleRun, Sorted, Aligned, GridStream;
    if a < b {
      GridGap(a, b, j.bs);
      if j.HoleBlock(a) {
        GridHole(j, a);
        RunShorter(j, a, b);
      } else {
        GridBlock(j, a);
        GridAdd(a, j.bs, j.bs) by { OneBlock(j.bs); }
        GridShorter(j, a + j.bs, b);
        if g: nat :| a <= g < b && HoleAt(j, g) {
          GridGap(a, g, j.bs);
          assert HoleIn(j, a + j.bs, b);
        }
      }
    }
  }

  lemma {:induction false} RunShorter(j: Job, a: nat, b: nat)
    requires j.Valid() && j.bs > 16 && a + j.bs <= b <= j.Size() && Aligned(a, j.bs) && Aligned(b, j.bs)
    requires j.HoleBlock(a)
    ensures |GridStream(j, a)| < b - a + |GridStream(j, b)|
    decreases b - a, 0
  {
    hide j.HoleBlock, j.HoleRun, Sorted, Aligned, GridStream;
    var e := a + j.HoleRun(a);
    GridHole(j, a);
    if e <= b {
      RunOnGrid(j, a, b);
      GridGap(a, e, j.bs);
      GridShorter(j, e, b);
    } else if b < j.Size() {
      InRun(j, a, b);
      GridHole(j, b);
    } else {
      EndOfGrid(j, e);
    }
  }

  // ---- One pass ----

  lemma ReadIsGrid(j: Job, off: nat)
    requires j.Valid() && j.GridMode() && off < j.Size() && Aligned(off, j.bs) && !Faked(j, off)
    ensures GridStream(j, off) == j.Fed(off) + GridStream(j, off + j.Advance(off))
  {
    hide j.NextHole, RoundDown, Sorted, Reaching, Aligned, Ignored, j.HoleRun, j.FakeLen;
    if !j.HoleBlock(off) {
      ReadRun(j, off);
    }
  }

  /** What a pass feeds when it fakes, and what the grid has there when no hole is covered. */
  lemma FakeOnGrid(j: Job, off: nat)
    requires j.Valid() && j.GridMode() && j.bs > 16 && off < j.Size() && Aligned(off, j.bs) && Faked(j, off)
    ensures j.Advance(off) == j.FakeLen() && j.Fed(off) == Zeroes(j.FakeLen())
    ensures var to := off + j.FakeLen();
            && to <= j.Size() && |GridStream(j, off)| <= j.FakeLen() + |GridStream(j, to)|
            && (TakesHole(j, off) ==> |GridStream(j, off)| < j.FakeLen() + |GridStream(j, to)|)
            && (!TakesHole(j, off) ==> GridStream(j, off) == j.content[off..to] + GridStream(j, to))
  {
    hide j.HoleBlock, j.NextHole, Sorted, Reaching, Ignored, RoundDown, Aligned, GridStream;
    var to := off + j.FakeLen();
    GridAdd(off, j.FakeLen(), j.bs);
    GridShorter(j, off, to);
    if !TakesHole(j, off) {
      forall g: nat | off <= g < to && Aligned(g, j.bs)
        ensures !j.HoleBlock(g)
      {
        assert !HoleAt(j, g);
      }
      GridStreamRun(j, off, to);
    }
  }

  /** A pass keeps what was fed and what the grid has to come the same, unless it takes something amiss. */
  lemma PassOnGrid(j: Job, off: nat)
    requires j.Valid() && j.GridMode() && j.bs > 16 && off < j.Size() && Aligned(off, j.bs)
    ensures var to := off + j.Advance(off);
            && |GridStream(j, off)| <= |j.Fed(off)| + |GridStream(j, to)|
            && (!Amiss(j, off) ==> GridStream(j, off) == j.Fed(off) + GridStream(j, to))
            && (Amiss(j, off) ==>
                 || |GridStream(j, off)| < |j.Fed(off)| + |GridStream(j, to)|
                 || (!(j.Fed(off) <= GridStream(j, off))))
  {
    hide j.Advance, j.Fed, Faked, GridStream, Aligned, Sorted, HoleIn;
    if Faked(j, off) {
      FakeOnGrid(j, off);
      var to := off + j.FakeLen();
      var piece := j.content[off..to];
      ZeroPiece(j, off, to);
      if !TakesHole(j, off) && !j.AllZero(off, to) {
        assert GridStream(j, off)[..|piece|] == piece;
      }
    } else {
      ReadIsGrid(j, off);
    }
  }

  lemma ZeroPiece(j: Job, a: nat, b: nat)
    requires a <= b <= j.Size()
    ensures j.content[a..b] == Zeroes(b - a) <==> j.AllZero(a, b)
  {
    if j.content[a..b] == Zeroes(b - a) {
      forall i | a <= i < b
        ensures j.content[i] == 0
      {
        assert j.content[i] == j.content[a..b][i - a];
      }
    }
  }

  // ---- The whole scan ----

  lemma {:induction false} Longer(j: Job, off: nat, stream: seq<Byte>)
    requires j.Valid() && j.GridMode() && j.bs > 16 && j.OnGrid(off)
    ensures stream <= j.Final(off, stream).1
    ensures |stream| + |GridStream(j, off)| <= |j.Final(off, stream).1|
    decreases j.Size() - off
  {
    hide j.Advance, j.Fed, GridStream, Aligned, Sorted, j.GridMode, Amiss, j.Final;
    if off < j.Size() {
      j.PassAdvances(off);
      PassOnGrid(j, off);
      FinalStep(j, off, stream);
      Longer(j, off + j.Advance(off), stream + j.Fed(off));
    } else {
      FinalPast(j, off, stream);
      EndOfGrid(j, off);
    }
  }

  ghost predicate NoneAmiss(j: Job, from: nat)
    requires j.Valid() && j.OnGrid(from)
  {
    forall x: nat :: x < j.Size() && Visits(j, from, x) ==> !Amiss(j, x)
  }

  lemma NoneAmissStep(j: Job, from: nat)
    requires j.Valid() && j.OnGrid(from) && from < j.Size() && j.OnGrid(from + j.Advance(from))
    ensures NoneAmiss(j, from) <==> !Amiss(j, from) && NoneAmiss(j, from + j.Advance(from))
  {
    hide Amiss, j.OnGrid, Visits, j.Advance;
    forall x: nat
      ensures Visits(j, from, x) <==> x == from || Visits(j, from + j.Advance(from), x)
    {
      VisitsFirst(j, from, x);
    }
  }

  /** The stream is the grid's from here on exactly if nothing is amiss at any offset still to come. */
  lemma {:induction false} StreamFrom(j: Job, off: nat, stream: seq<Byte>)
    requires j.Valid() && j.GridMode() && j.bs > 16 && j.OnGrid(off)
    ensures j.Final(off, stream).1 == stream + GridStream(j, off) <==> NoneAmiss(j, off)
    decreases j.Size() - off
  {
    hide j.Advance, j.Fed, GridStream, Aligned, Sorted, j.GridMode, Amiss, j.Final, NoneAmiss;
    if off < j.Size() {
      j.PassAdvances(off);
      var to, fed := off + j.Advance(off), j.Fed(off);
      PassOnGrid(j, off);
      FinalStep(j, off, stream);
      NoneAmissStep(j, off);
      StreamFrom(j, to, stream + fed);
      if Amiss(j, off) {
        Longer(j, to, stream + fed);
        if j.Final(off, stream).1 == stream + GridStream(j, off) {
          SamePrefix(stream, fed, GridStream(j, off), j.Final(off, stream).1);
        }
      } else {
        assert stream + fed + GridStream(j, to) == stream + (fed + GridStream(j, to));
      }
    } else {
      FinalPast(j, off, stream);
      EndOfGrid(j, off);
      NothingToCome(j, off);
    }
  }

  lemma SamePrefix(s: seq<Byte>, fed: seq<Byte>, grid: seq<Byte>, all: seq<Byte>)
    requires s + fed <= all && all == s + grid
    ensures fed <= grid
  {
    assert all[|s|..] == grid;
    assert all[..|s + fed|][|s|..] == fed;
  }

  lemma NothingToCome(j: Job, off: nat)
    requires j.Valid() && j.OnGrid(off) && off >= j.Size()
    ensures NoneAmiss(j, off)
  {
  }

  // ---- Read off the map ----

  /** A run of whole buffers from a start comes to one that is faked and amiss. */
  ghost predicate FakesAmiss(j: Job, r: int, m: nat)
    requires j.Valid()
  {
    -1 <= r < |j.recs| && Start(j, r) && WholeRun(j, r, m) && Amiss(j, Pos(j, r, m))
  }

  /**
   * The file digest is the grid's if and only if no run of whole buffers comes to one that is taken as zeroes
   * over a hole or over bytes that are not zero.
   */
  lemma StreamIsGridStream(j: Job)
    requires j.Valid() && j.GridMode() && j.bs > 16
    ensures j.Final(0, []).1 == GridStream(j, 0) <==> forall r: int, m: nat :: !FakesAmiss(j, r, m)
  {
    hide j.Final, GridStream, Amiss, Start, WholeRun, Pos, Visits;
    StartOnGrid(j, -1);
    FromStart(j);
    StreamFrom(j, 0, []);
    AmissOnMap(j);
  }

  lemma AmissOnMap(j: Job)
    requires j.Valid() && j.OnGrid(0)
    ensures NoneAmiss(j, 0) <==> forall r: int, m: nat :: !FakesAmiss(j, r, m)
  {
    hide Amiss, Start, WholeRun, Pos, Visits, j.OnGrid;
    forall x: nat | x < j.Size() && Visits(j, 0, x) && Amiss(j, x)
      ensures exists r: int, m: nat :: FakesAmiss(j, r, m)
    {
      AmissInFile(j, x);
      VisitsExactly(j, x);
      var r: int, m: nat :| RunTo(j, x, r, m);
      assert FakesAmiss(j, r, m);
    }
    forall r: int, m: nat | FakesAmiss(j, r, m)
      ensures !NoneAmiss(j, 0)
    {
      var x := Pos(j, r, m);
      AmissInFile(j, x);
      VisitsExactly(j, x);
      assert RunTo(j, x, r, m);
    }
  }

  lemma AmissInFile(j: Job, x: nat)
    requires j.Valid() && Amiss(j, x)
    ensures x < j.Size() && !j.HoleBlock(x)
  {
  }

  // ---- Preallocated and written ----

  /** The same map with every record written: what the file would have if its zeroes had been. */
  function Written(recs: seq<Rec>): (w: seq<Rec>)
    ensures |w| == |recs|
  {
    seq(|recs|, i requires 0 <= i < |recs| => recs[i].(inline := false, unwritten := false))
  }

  /** Two files of the same bytes and holes. */
  ghost predicate SameLayout(j: Job, k: Job) {
    && k.content == j.content && k.bs == j.bs && |k.recs| == |j.recs|
    && forall i :: 0 <= i < |j.recs| ==> k.recs[i].logical == j.recs[i].logical && k.recs[i].length == j.recs[i].length
  }

  lemma SameHoles(j: Job, k: Job, off: nat)
    requires j.Valid() && k.Valid() && SameLayout(j, k) && off < j.Size()
    ensures j.At(off) == k.At(off) && j.HoleBlock(off) == k.HoleBlock(off)
    ensures j.HoleBlock(off) ==> j.HoleRun(off) == k.HoleRun(off)
  {
    hide RoundDown;
    ReachingUnique(k.recs, off, j.At(off));
  }

  lemma {:induction false} SameGrid(j: Job, k: Job, off: nat)
    requires j.Valid() && k.Valid() && SameLayout(j, k)
    ensures GridStream(j, off) == GridStream(k, off)
    decreases j.Size() - off
  {
    hide j.HoleBlock, j.HoleRun, Sorted, Descriptor;
    if off < j.Size() {
      SameHoles(j, k, off);
      SameGrid(j, k, if j.HoleBlock(off) then off + j.HoleRun(off) else off + j.bs);
    }
  }

  lemma WrittenIsGrid(j: Job)
    requires j.Valid() && j.GridMode() && j.bs > 16 && forall i :: 0 <= i < |j.recs| ==> !j.recs[i].Skip()
    ensures j.Final(0, []).1 == GridStream(j, 0)
  {
    hide j.Final, GridStream, Start, WholeRun, Pos;
    forall x: nat
      ensures !Amiss(j, x)
    {
    }
    hide Amiss;
    StreamIsGridStream(j);
  }

  /**
   * Two files of the same bytes and holes, one with some records preallocated or inline and one with all of
   * them written, have the same digest if and only if no faked buffer of the first is amiss.
   */
  lemma PreallocationShows(j: Job)
    requires j.Valid() && j.GridMode() && j.bs > 16
    ensures var k := j.(recs := Written(j.recs));
            && k.Valid() && k.OnGrid(0)
            && (j.Final(0, []).1 == k.Final(0, []).1 <==> forall r: int, m: nat :: !FakesAmiss(j, r, m))
  {
    var k := j.(recs := Written(j.recs));
    hide j.Final, GridStream, FakesAmiss;
    WrittenIsGrid(k);
    StreamIsGridStream(j);
    SameGrid(j, k, 0);
  }

  // ---- Read off the map alone ----

  /** What the kernel promises: an area of a block or more that no data record is in reads as zeroes. */
  ghost predicate ReadsZero(j: Job) {
    forall a: nat, b: nat :: a + j.bs <= b <= j.Size() && NoData(j.recs, a, b) ==> j.AllZero(a, b)
  }

  ghost predicate FakesHole(j: Job, r: int, m: nat)
    requires j.Valid()
  {
    -1 <= r < |j.recs| && Start(j, r) && WholeRun(j, r, m) && TakesHole(j, Pos(j, r, m))
  }

  lemma OnlyHoles(j: Job, x: nat)
    requires j.Valid() && ReadsZero(j)
    ensures Amiss(j, x) <==> TakesHole(j, x)
  {
    hide RoundDown;
    if Faked(j, x) {
      FakeIsBlocks(j);
      assert NoData(j.recs, x, x + j.FakeLen());
    }
  }

  lemma FakeIsBlocks(j: Job)
    requires j.Valid()
    ensures j.bs <= j.FakeLen()
  {
  }

  /** Then the digest is the grid's if and only if no faked buffer covers a hole block. */
  lemma StreamOverHoles(j: Job)
    requires j.Valid() && j.GridMode() && j.bs > 16 && ReadsZero(j)
    ensures j.Final(0, []).1 == GridStream(j, 0) <==> forall r: int, m: nat :: !FakesHole(j, r, m)
  {
    hide j.Final, GridStream, Start, WholeRun, Pos, ReadsZero, Amiss, TakesHole;
    StreamIsGridStream(j);
    forall r: int, m: nat
      ensures FakesAmiss(j, r, m) <==> FakesHole(j, r, m)
    {
      if -1 <= r < |j.recs| {
        OnlyHoles(j, Pos(j, r, m));
      }
    }
  }

  // ---- Any buffer ----

  function WithBuffer(j: Job, buf: nat): Job { j.(buf := buf) }

  /** A buffer of at least a block with which the scan keeps to the grid. */
  ghost predicate Keeps(j: Job, buf: nat)
    requires 0 < j.bs
  {
    j.bs <= buf && WithBuffer(j, buf).GridMode()
  }

  ghost predicate NoHoleFaked(j: Job)
    requires j.Valid()
  {
    forall r: int, m: nat :: !FakesHole(j, r, m)
  }

  ghost predicate Agree(j: Job, b: nat, c: nat)
    requires j.Valid()
  {
    Keeps(j, b) && Keeps(j, c) ==> WithBuffer(j, b).Final(0, []).1 == WithBuffer(j, c).Final(0, []).1
  }

  /** A faked buffer of less than two blocks covers one block, which is no hole. */
  lemma OneBlockTakesNone(j: Job, r: int, m: nat)
    requires j.Valid() && j.GridMode() && j.buf < j.bs + j.bs
    ensures !FakesHole(j, r, m)
  {
    hide Start, StartOf, Pos, j.HoleBlock, Ignored;
    if FakesHole(j, r, m) {
      RunPasses(j, r, m);
      var x := Pos(j, r, m);
      var g: nat :| x <= g < x + j.FakeLen() && HoleAt(j, g);
      ShortBuffer(j);
      if x < g { GridGap(x, g, j.bs); }
    }
  }

  lemma ShortBuffer(j: Job)
    requires j.Valid() && j.buf < j.bs + j.bs
    ensures j.FakeLen() == j.bs
  {
  }

  lemma BufferStream(j: Job, buf: nat)
    requires j.Valid() && j.bs > 16 && ReadsZero(j) && Keeps(j, buf)
    ensures var k := WithBuffer(j, buf);
            k.Valid() && k.OnGrid(0) && (k.Final(0, []).1 == GridStream(j, 0) <==> NoHoleFaked(k))
  {
    var k := WithBuffer(j, buf);
    assert ReadsZero(k) by {
      forall a: nat, b: nat | a + k.bs <= b <= k.Size() && NoData(k.recs, a, b)
        ensures k.AllZero(a, b)
      {
        assert j.AllZero(a, b);
      }
    }
    hide k.Final, GridStream, FakesHole, ReadsZero;
    StreamOverHoles(k);
    SameGrid(j, k, 0);
  }

  /** All buffers that keep to the grid give one digest if and only if none of them is faked over a hole. */
  lemma DigestIgnoresBuffer(j: Job)
    requires j.Valid() && j.bs > 16 && ReadsZero(j)
    ensures (forall b: nat, c: nat :: Agree(j, b, c))
            <==> forall b: nat :: Keeps(j, b) ==> NoHoleFaked(WithBuffer(j, b))
  {
    hide j.Final, GridStream, FakesHole, ReadsZero;
    OneBlockKeeps(j);
    BufferStream(j, j.bs);
    assert NoHoleFaked(WithBuffer(j, j.bs)) by {
      forall r: int, m: nat
        ensures !FakesHole(WithBuffer(j, j.bs), r, m)
      {
        OneBlockTakesNone(WithBuffer(j, j.bs), r, m);
      }
    }
    hide NoHoleFaked, Keeps;
    forall b: nat | Keeps(j, b)
      ensures Agree(j, b, j.bs) <==> NoHoleFaked(WithBuffer(j, b))
      ensures NoHoleFaked(WithBuffer(j, b)) <==> WithBuffer(j, b).Final(0, []).1 == GridStream(j, 0)
    {
      BufferStream(j, b);
    }
  }

  lemma OneBlockKeeps(j: Job)
    requires j.Valid()
    ensures Keeps(j, j.bs) && WithBuffer(j, j.bs).Valid()
  {
  }

  // ---- Which block sizes ----

  ghost predicate DigestIsGrid(j: Job, bs: nat, buf: nat) {
    j.Valid() && j.GridMode() && j.bs == bs && j.buf == buf && ReadsZero(j) ==> j.Final(0, []).1 == GridStream(j, 0)
  }

  /** A preallocated block, and a hole up to the end of the buffer's whole blocks. */
  function HoleBehind(bs: nat, buf: nat): Job
    requires 0 < bs <= buf
  {
    Job(Zeroes(RoundDown(buf, bs)), [Rec(0, 4096, bs, false, true)], bs, buf, true, false, false)
  }

  /** With two blocks in the buffer, its digest has zeroes where that of a written block has a descriptor. */
  lemma HoleFaked(bs: nat, buf: nat)
    requires 16 < bs && bs + bs <= buf
    ensures var j := HoleBehind(bs, buf);
            && j.Valid() && j.GridMode() && ReadsZero(j) && FakesHole(j, -1, 0)
            && j.(recs := Written(j.recs)).Valid()
            && j.Final(0, []).1 != j.(recs := Written(j.recs)).Final(0, []).1
            && j.Final(0, []).1 != GridStream(j, 0)
  {
    var j := HoleBehind(bs, buf);
    OneBlock(bs);
    TwoBlocks(bs, buf);
    assert Overlaps(j.recs[0], 0, j.FakeLen());
    assert HoleAt(j, bs);
    FromStart(j);
    hide Start, j.Final, GridStream, RoundDown;
    assert FakesHole(j, -1, 0);
    assert FakesAmiss(j, -1, 0);
    PreallocationShows(j);
    StreamOverHoles(j);
  }

  lemma TwoBlocks(bs: nat, buf: nat)
    requires 0 < bs && bs + bs <= buf
    ensures bs + bs <= RoundDown(buf, bs)
  {
  }

  /** Every file that reads as its map says has the grid's digest if and only if the buffer is under two blocks. */
  lemma BuffersOfOneBlock(bs: nat, buf: nat)
    requires 16 < bs <= buf
    ensures (forall j :: DigestIsGrid(j, bs, buf)) <==> buf < bs + bs
  {
    hide GridStream, ReadsZero, HoleBehind, FakesHole;
    if buf < bs + bs {
      forall j
        ensures DigestIsGrid(j, bs, buf)
      {
        if j.Valid() && j.GridMode() && j.bs == bs && j.buf == buf && ReadsZero(j) {
          StreamOverHoles(j);
          forall r: int, m: nat
            ensures !FakesHole(j, r, m)
          {
            OneBlockTakesNone(j, r, m);
          }
        }
      }
    } else {
      HoleFaked(bs, buf);
      BehindOptions(bs, buf);
      assert !DigestIsGrid(HoleBehind(bs, buf), bs, buf);
    }
  }

  lemma BehindOptions(bs: nat, buf: nat)
    requires 0 < bs <= buf
    ensures HoleBehind(bs, buf).bs == bs && HoleBehind(bs, buf).buf == buf
  {
  }
}
