/**
 * Where the scan stops. Whether it passes the end of the file can be read off the extent map, record by record:
 * the scan skips a hole exactly where a run of whole buffers, from the start of the file or of the record behind
 * an earlier such hole, comes to it.
 */
module ScanEnd {
  import opened Grid
  import opened Layout
  import opened ScanSpec
  import opened ScanTheorems

  // ---- Read off the map ----

  /** Where reading goes on behind the hole before record r; -1 stands for the start of the file. */
  function StartOf(j: Job, r: int): nat
    requires 0 < j.bs && r < |j.recs|
  {
    if r < 0 then 0 else RoundDown(j.recs[r].logical, j.bs)
  }

  /** The buffer at x is taken as zeroes. */
  ghost predicate Faked(j: Job, x: nat)
    requires j.Valid()
  {
    !j.HoleBlock(x) && Ignored(j.recs, x, x + j.FakeLen()) && x + j.FakeLen() <= j.Size()
  }

  /** What a pass consumes of a whole buffer read at x. */
  ghost function Whole(j: Job, x: nat): (n: nat)
    requires j.Valid()
    ensures 0 < n <= j.buf
  {
    if j.blockHash || Faked(j, x) then j.FakeLen() else j.buf
  }

  /** A whole buffer fits at x: it is faked, or ends before the next hole. */
  ghost predicate Fits(j: Job, x: nat)
    requires j.Valid()
  {
    x < j.Size() && !j.HoleBlock(x) && (Faked(j, x) || x + j.buf < j.NextHole(x))
  }

  /** The offset m whole buffers behind the start of record r. */
  ghost function Pos(j: Job, r: int, m: nat): nat
    requires j.Valid() && r < |j.recs|
  {
    if m == 0 then StartOf(j, r) else Pos(j, r, m - 1) + Whole(j, Pos(j, r, m - 1))
  }

  ghost predicate FitsAt(j: Job, r: int, t: nat)
    requires j.Valid() && r < |j.recs|
  {
    Fits(j, Pos(j, r, t))
  }

  ghost predicate WholeRun(j: Job, r: int, m: nat)
    requires j.Valid() && r < |j.recs|
  {
    forall t: nat :: t < m ==> FitsAt(j, r, t)
  }

  /** At x no whole buffer fits any more, and the hole that is in the way ends at record r. */
  ghost predicate StopsBefore(j: Job, x: nat, r: nat)
    requires j.Valid()
  {
    && x < j.Size() && !Fits(j, x)
    && (if j.HoleBlock(x) then j.At(x) == r else j.NextHole(x) < j.Size() && j.At(j.NextHole(x)) == r)
  }

  /** The scan starts reading anew behind the hole before record r. */
  ghost predicate Start(j: Job, r: int)
    requires j.Valid() && -1 <= r < |j.recs|
    decreases r + 1
  {
    r == -1
    || exists q: int, m: nat :: -1 <= q < r && Start(j, q) && WholeRun(j, q, m) && StopsBefore(j, Pos(j, q, m), r)
  }

  /** Such a record lies past the end of the file: the hole run is measured to it, and not to the end. */
  ghost predicate Overshoots(j: Job, k: nat)
    requires j.Valid()
  {
    k < |j.recs| && j.Size() < StartOf(j, k) && Start(j, k)
  }

  // ---- One pass ----

  lemma NextHoleIsHole(j: Job, from: nat)
    requires j.Valid() && from < j.Size()
    ensures j.NextHole(from) < j.Size() ==> j.HoleBlock(j.NextHole(from))
    decreases j.Size() - from
  {
    hide j.HoleBlock, Reaching, Sorted, RoundUp;
    if !j.HoleBlock(from) && After(j, from) < j.Size() {
      NextHoleIsHole(j, After(j, from));
    }
  }

  /** Where one pass lands. */
  lemma Lands(j: Job, off: nat)
    requires j.Valid() && j.OnGrid(off) && off < j.Size()
    ensures var to := off + j.Advance(off);
            && (j.HoleBlock(off) ==> to == if j.At(off) < |j.recs| then StartOf(j, j.At(off)) else j.Size())
            && (Fits(j, off) ==> to == off + Whole(j, off) <= j.Size())
            && (!j.HoleBlock(off) && !Fits(j, off) ==> to == j.NextHole(off))
  {
    hide Reaching, Sorted, Ignored, j.NextHole;
    if !j.HoleBlock(off) {
      j.NextHoleBeyond(off);
      if !Faked(j, off) && j.blockHash {
        HashedRead(j, off);
      }
    }
  }

  /** With block hashing a read stops at the last whole block, which the next hole begins. */
  lemma HashedRead(j: Job, off: nat)
    requires j.Valid() && j.OnGrid(off) && off < j.Size() && j.blockHash && j.ActionAt(off).Read?
    ensures j.Advance(off) == if off + j.buf < j.NextHole(off) then j.FakeLen() else j.NextHole(off) - off
  {
    hide Reaching, Sorted, Ignored, j.NextHole, j.HoleBlock, Aligned;
    j.NextHoleBeyond(off);
    var n := Min(j.buf, j.NextHole(off) - off);
    if off + n < j.Size() && n == j.NextHole(off) - off {
      j.NextHoleOnGrid(off);
      GridSub(j.NextHole(off), off, j.bs);
      RoundDownAligned(n, j.bs);
    }
  }

  lemma {:induction false} RoundDownAligned(x: nat, bs: nat)
    requires bs > 0 && Aligned(x, bs)
    ensures RoundDown(x, bs) == x
  {
    if x > 0 {
      RoundDownAligned(x - bs, bs);
    }
  }

  // ---- The whole scan ----

  lemma FinalStep(j: Job, off: nat, stream: seq<Byte>)
    requires j.Valid() && j.OnGrid(off) && off < j.Size()
    ensures j.OnGrid(off + j.Advance(off))
    ensures j.Final(off, stream) == j.Final(off + j.Advance(off), stream + j.Fed(off))
  {
    hide j.Advance, j.Fed;
    j.PassAdvances(off);
  }

  lemma FinalPast(j: Job, off: nat, stream: seq<Byte>)
    requires j.Valid() && j.OnGrid(off) && off >= j.Size()
    ensures j.Final(off, stream) == (off, stream)
  {
  }

  ghost function EndAt(j: Job, off: nat): nat
    requires j.Valid() && j.OnGrid(off)
    decreases j.Size() - off
  {
    if off >= j.Size() then off
    else
      j.PassAdvances(off);
      EndAt(j, off + j.Advance(off))
  }

  lemma {:induction false} FinalIsEnd(j: Job, off: nat, stream: seq<Byte>)
    requires j.Valid() && j.OnGrid(off)
    ensures j.Final(off, stream).0 == EndAt(j, off)
    decreases j.Size() - off
  {
    hide j.Advance, j.Fed, j.OnGrid;
    if off < j.Size() {
      j.PassAdvances(off);
      FinalIsEnd(j, off + j.Advance(off), stream + j.Fed(off));
    }
  }

  /** A hole met at or after the start of record r ends at a later record. */
  lemma LaterRecord(j: Job, r: int, h: nat)
    requires j.Valid() && -1 <= r < |j.recs| && StartOf(j, r) <= h
    requires j.HoleBlock(h) && j.At(h) < |j.recs|
    ensures r < j.At(h)
  {
    hide Reaching;
  }

  lemma {:induction false} PosBehind(j: Job, r: int, m: nat)
    requires j.Valid() && r < |j.recs|
    ensures StartOf(j, r) <= Pos(j, r, m)
  {
    hide StartOf, Whole;
    if m > 0 {
      PosBehind(j, r, m - 1);
    }
  }

  ghost predicate RunTo(j: Job, off: nat, r: int, m: nat)
    requires j.Valid()
  {
    -1 <= r < |j.recs| && Start(j, r) && WholeRun(j, r, m) && off == Pos(j, r, m)
  }

  /** Every offset the scan visits: in a run of whole buffers, at a hole, or at the end. */
  ghost predicate Tracked(j: Job, off: nat)
    requires j.Valid()
  {
    || off == j.Size()
    || (off < j.Size() && j.HoleBlock(off) && (j.At(off) < |j.recs| ==> Start(j, j.At(off))))
    || exists r: int, m: nat :: RunTo(j, off, r, m)
  }

  lemma StartTracked(j: Job, r: int)
    requires j.Valid() && -1 <= r < |j.recs| && Start(j, r)
    ensures Tracked(j, StartOf(j, r))
  {
    hide Start, StartOf;
    assert RunTo(j, StartOf(j, r), r, 0);
  }

  /** A run of whole buffers that comes to a hole makes the record behind it a start. */
  lemma HoleReached(j: Job, x: nat, r: int, m: nat, h: nat)
    requires j.Valid() && RunTo(j, x, r, m) && x < j.Size() && !Fits(j, x)
    requires h == (if j.HoleBlock(x) then x else j.NextHole(x)) && h < j.Size() && j.HoleBlock(h)
    ensures j.At(h) < |j.recs| ==> Start(j, j.At(h))
  {
    hide Fits, WholeRun, j.HoleBlock, j.NextHole, StartOf, Reaching;
    PosBehind(j, r, m);
    if !j.HoleBlock(x) { j.NextHoleBeyond(x); }
    if j.At(h) < |j.recs| {
      LaterRecord(j, r, h);
      assert StopsBefore(j, Pos(j, r, m), j.At(h));
    }
  }

  lemma TrackedStep(j: Job, off: nat)
    requires j.Valid() && j.OnGrid(off) && off < j.Size() && Tracked(j, off)
    ensures Tracked(j, off + j.Advance(off))
  {
    hide Fits, Start, j.NextHole, StartOf, Reaching, j.Advance, Sorted, j.HoleBlock, Whole;
    Lands(j, off);
    if j.HoleBlock(off) {
      if r: int, m: nat :| RunTo(j, off, r, m) {
        HoleNeverFits(j, off);
        HoleReached(j, off, r, m, off);
      }
      if j.At(off) < |j.recs| {
        StartTracked(j, j.At(off));
      }
    } else {
      var r: int, m: nat :| RunTo(j, off, r, m);
      if Fits(j, off) {
        assert FitsAt(j, r, m);
        assert WholeRun(j, r, m + 1);
        assert RunTo(j, off + j.Advance(off), r, m + 1);
      } else if j.NextHole(off) < j.Size() {
        NextHoleIsHole(j, off);
        HoleReached(j, off, r, m, j.NextHole(off));
      } else {
        j.NextHoleBeyond(off);
      }
    }
  }

  lemma HoleNeverFits(j: Job, x: nat)
    requires j.Valid() && j.HoleBlock(x)
    ensures !Fits(j, x)
  {
  }

  /** Past the end there is only the start of a record. */
  lemma TrackedPast(j: Job, off: nat) returns (k: nat)
    requires j.Valid() && Tracked(j, off) && j.Size() < off
    ensures Overshoots(j, k)
  {
    hide Start, j.HoleBlock, Whole, Reaching, StartOf;
    var r: int, m: nat :| RunTo(j, off, r, m);
    if m > 0 {
      assert FitsAt(j, r, m - 1);
      FitsInFile(j, Pos(j, r, m - 1));
    }
    assert StartOf(j, -1) == 0 by { FromStart(j); }
    k := r;
  }

  lemma FromStart(j: Job)
    requires j.Valid()
    ensures StartOf(j, -1) == 0 && Start(j, -1)
  {
  }

  lemma FitsInFile(j: Job, x: nat)
    requires j.Valid() && Fits(j, x)
    ensures x + Whole(j, x) <= j.Size()
  {
    hide Ignored, j.HoleBlock;
  }

  lemma {:induction false} OvershootHasRecord(j: Job, off: nat) returns (k: nat)
    requires j.Valid() && j.OnGrid(off) && Tracked(j, off) && EndAt(j, off) != j.Size()
    ensures Overshoots(j, k)
    decreases j.Size() - off
  {
    hide Tracked, j.Advance, j.OnGrid, Overshoots;
    if off < j.Size() {
      j.PassAdvances(off);
      TrackedStep(j, off);
      k := OvershootHasRecord(j, off + j.Advance(off));
    } else {
      k := TrackedPast(j, off);
    }
  }

  lemma EndStep(j: Job, off: nat)
    requires j.Valid() && j.OnGrid(off) && off < j.Size()
    ensures j.OnGrid(off + j.Advance(off)) && EndAt(j, off) == EndAt(j, off + j.Advance(off))
  {
    hide j.Advance;
    j.PassAdvances(off);
  }

  lemma StartOnGrid(j: Job, r: int)
    requires j.Valid() && r < |j.recs|
    ensures j.OnGrid(StartOf(j, r))
  {
  }

  // ---- The offsets the scan comes to ----

  /** The scan, begun at `from`, has a pass at `off` or ends there. */
  ghost predicate Visits(j: Job, from: nat, off: nat)
    requires j.Valid() && j.OnGrid(from)
    decreases j.Size() - from
  {
    || off == from
    || (from < j.Size() && (j.PassAdvances(from); Visits(j, from + j.Advance(from), off)))
  }

  lemma VisitsHere(j: Job, off: nat)
    requires j.Valid() && j.OnGrid(off)
    ensures Visits(j, off, off)
  {
  }

  /** The first step of a longer visit. */
  lemma VisitsFirst(j: Job, from: nat, off: nat)
    requires j.Valid() && j.OnGrid(from) && from < j.Size() && j.OnGrid(from + j.Advance(from))
    ensures Visits(j, from, off) <==> off == from || Visits(j, from + j.Advance(from), off)
  {
    hide j.Advance, j.OnGrid;
  }

  lemma {:induction false} VisitsThrough(j: Job, a: nat, b: nat, c: nat)
    requires j.Valid() && j.OnGrid(a) && j.OnGrid(b) && Visits(j, a, b) && Visits(j, b, c)
    ensures Visits(j, a, c)
    decreases j.Size() - a
  {
    hide j.Advance, j.OnGrid;
    if a != b {
      j.PassAdvances(a);
      VisitsThrough(j, a + j.Advance(a), b, c);
    }
  }

  /** The next offset after a visited one is visited too. */
  lemma VisitsNext(j: Job, from: nat, off: nat)
    requires j.Valid() && j.OnGrid(from) && j.OnGrid(off) && Visits(j, from, off) && off < j.Size()
    ensures j.OnGrid(off + j.Advance(off)) && Visits(j, from, off + j.Advance(off))
  {
    hide *;
    j.PassAdvances(off);
    VisitsHere(j, off + j.Advance(off));
    VisitsFirst(j, off, off + j.Advance(off));
    VisitsThrough(j, from, off, off + j.Advance(off));
  }

  lemma {:induction false} VisitsEnd(j: Job, from: nat, off: nat)
    requires j.Valid() && j.OnGrid(from) && Visits(j, from, off)
    ensures j.OnGrid(off) && EndAt(j, off) == EndAt(j, from)
    decreases j.Size() - from
  {
    hide j.Advance, j.OnGrid, EndAt;
    if off != from {
      EndStep(j, from);
      j.PassAdvances(from);
      VisitsEnd(j, from + j.Advance(from), off);
    }
  }

  lemma {:induction false} VisitsTracked(j: Job, from: nat, off: nat)
    requires j.Valid() && j.OnGrid(from) && Tracked(j, from) && Visits(j, from, off)
    ensures Tracked(j, off)
    decreases j.Size() - from
  {
    hide j.Advance, j.OnGrid, Tracked;
    if off != from {
      j.PassAdvances(from);
      TrackedStep(j, from);
      VisitsTracked(j, from + j.Advance(from), off);
    }
  }

  /** The scan goes through a run of whole buffers. */
  lemma {:induction false} RunPasses(j: Job, r: int, m: nat)
    requires j.Valid() && r < |j.recs| && WholeRun(j, r, m)
    ensures j.OnGrid(StartOf(j, r)) && j.OnGrid(Pos(j, r, m))
    ensures Visits(j, StartOf(j, r), Pos(j, r, m))
  {
    hide StartOf, j.Advance, j.OnGrid, Whole, Fits, Visits;
    StartOnGrid(j, r);
    if m > 0 {
      RunPasses(j, r, m - 1);
      var x := Pos(j, r, m - 1);
      assert FitsAt(j, r, m - 1);
      assert x < j.Size() by { FitsInFile(j, x); }
      Lands(j, x);
      VisitsNext(j, StartOf(j, r), x);
    } else {
      VisitsHere(j, StartOf(j, r));
    }
  }

  /** And, where none fits any more, to the record behind the hole in the way. */
  lemma StopPasses(j: Job, x: nat, r: nat)
    requires j.Valid() && j.OnGrid(x) && r < |j.recs| && StopsBefore(j, x, r)
    ensures j.OnGrid(StartOf(j, r))
    ensures Visits(j, x, StartOf(j, r))
  {
    hide StartOf, j.Advance, j.OnGrid, Whole, Fits, Visits, j.HoleBlock, j.NextHole;
    Lands(j, x);
    VisitsHere(j, x);
    VisitsNext(j, x, x);
    if !j.HoleBlock(x) {
      var h := j.NextHole(x);
      NextHoleIsHole(j, x);
      Lands(j, h);
      VisitsNext(j, x, h);
    }
  }

  /** The scan passes every start. */
  lemma {:induction false} StartPassed(j: Job, r: int)
    requires j.Valid() && -1 <= r < |j.recs| && Start(j, r)
    ensures j.OnGrid(0) && j.OnGrid(StartOf(j, r))
    ensures Visits(j, 0, StartOf(j, r))
    decreases r + 1
  {
    hide StartOf, j.OnGrid, Visits, WholeRun, StopsBefore, Pos;
    FromStart(j);
    StartOnGrid(j, -1);
    if r >= 0 {
      var q: int, m: nat :| -1 <= q < r && Start(j, q) && WholeRun(j, q, m) && StopsBefore(j, Pos(j, q, m), r);
      StartPassed(j, q);
      RunPasses(j, q, m);
      StopPasses(j, Pos(j, q, m), r);
      VisitsThrough(j, 0, StartOf(j, q), Pos(j, q, m));
      VisitsThrough(j, 0, Pos(j, q, m), StartOf(j, r));
    } else {
      VisitsHere(j, 0);
    }
  }

  /** The scan reads or fakes at an offset exactly if a run of whole buffers from a start comes to it. */
  lemma VisitsExactly(j: Job, x: nat)
    requires j.Valid() && x < j.Size() && !j.HoleBlock(x)
    ensures j.OnGrid(0)
    ensures Visits(j, 0, x) <==> exists r: int, m: nat :: RunTo(j, x, r, m)
  {
    hide Start, StartOf, Pos, WholeRun, Visits, j.HoleBlock, j.OnGrid;
    FromStart(j);
    StartOnGrid(j, -1);
    if Visits(j, 0, x) {
      StartTracked(j, -1);
      VisitsTracked(j, 0, x);
    }
    if r: int, m: nat :| RunTo(j, x, r, m) {
      StartPassed(j, r);
      RunPasses(j, r, m);
      VisitsThrough(j, 0, StartOf(j, r), x);
    }
  }

  /**
   * The scan ends exactly at the file size if and only if no record past the end of the file is one where it
   * starts reading anew. Else it overshoots, and the file is reported as changed, on every run.
   */
  lemma ScanEnds(j: Job)
    requires j.Valid()
    ensures j.Final(0, []).0 == j.Size() <==> !exists k: nat :: Overshoots(j, k)
  {
    hide Start, Tracked, EndAt, j.Final, StartOf;
    FromStart(j);
    StartOnGrid(j, -1);
    FinalIsEnd(j, 0, []);
    if EndAt(j, 0) != j.Size() {
      StartTracked(j, -1);
      var k := OvershootHasRecord(j, 0);
    }
    if k: nat :| Overshoots(j, k) {
      StartPassed(j, k);
      VisitsEnd(j, 0, StartOf(j, k));
      assert EndAt(j, StartOf(j, k)) == StartOf(j, k) by { EndPast(j, StartOf(j, k)); }
    }
  }

  lemma EndPast(j: Job, off: nat)
    requires j.Valid() && j.OnGrid(off) && off >= j.Size()
    ensures EndAt(j, off) == off
  {
  }

  // ---- Quick checks ----

  /** With block hashing on, or a block size that divides the buffer, whole buffers are evenly spaced. */
  lemma {:induction false} EvenSpacing(j: Job, r: int, m: nat)
    requires j.Valid() && j.GridMode() && r < |j.recs|
    ensures Pos(j, r, m) == StartOf(j, r) + m * j.FakeLen()
  {
    hide StartOf, Faked;
    if m > 0 {
      EvenSpacing(j, r, m - 1);
      if !j.blockHash { RoundDownAligned(j.buf, j.bs); }
      assert m * j.FakeLen() == (m - 1) * j.FakeLen() + j.FakeLen();
    }
  }

  /** Where the last record before record k ends. */
  function EndBefore(j: Job, k: nat): nat
    requires k <= |j.recs|
  {
    if k == 0 then 0 else j.recs[k - 1].End()
  }

  /** No record past the end is a whole block away from it: then the scan ends there. */
  lemma EndsWithoutTail(j: Job)
    requires j.Valid() && forall k: nat :: k < |j.recs| ==> StartOf(j, k) <= j.Size()
    ensures j.Final(0, []).0 == j.Size()
  {
    hide Start, j.Final, StartOf;
    ScanEnds(j);
  }

  /** On the grid it also does if the hole in front of such a record has no block boundary in the file. */
  lemma EndsOnGrid(j: Job)
    requires j.Valid() && j.GridMode()
    requires forall k: nat :: k < |j.recs| && j.Size() < StartOf(j, k) ==> j.Size() <= RoundUp(EndBefore(j, k), j.bs)
    ensures j.Final(0, []).0 == j.Size()
  {
    hide j.Final, StartOf, RoundUp, EndBefore, WholeRun, Pos;
    ScanEnds(j);
    if k: nat :| Overshoots(j, k) {
      assert k >= 0;
      var q: int, m: nat :| -1 <= q < k && Start(j, q) && WholeRun(j, q, m) && StopsBefore(j, Pos(j, q, m), k);
      RunPasses(j, q, m);
      HoleOnGrid(j, Pos(j, q, m), k);
    }
  }

  lemma HoleOnGrid(j: Job, x: nat, k: nat)
    requires j.Valid() && j.GridMode() && j.OnGrid(x) && k < |j.recs| && StopsBefore(j, x, k)
    ensures RoundUp(EndBefore(j, k), j.bs) < j.Size()
  {
    hide j.NextHole, RoundUp, j.HoleBlock, Fits;
    var h := if j.HoleBlock(x) then x else j.NextHole(x);
    if !j.HoleBlock(x) { j.NextHoleOnGrid(x); }
    RoundUpBelow(EndBefore(j, k), h, j.bs);
  }

  /** A data record, then a whole block of hole, then the end, and a record a block or more behind it. */
  ghost predicate TailAfterData(j: Job, k: nat)
    requires j.Valid()
  {
    && k < |j.recs| && j.Size() < StartOf(j, k) && 0 < j.Size()
    && RoundUp(EndBefore(j, k), j.bs) < j.Size()
    && (k > 0 ==> !j.recs[k - 1].Skip())
  }

  /** Then the scan overshoots, whatever the options and the buffer. */
  lemma TailOvershoots(j: Job, k: nat)
    requires j.Valid() && TailAfterData(j, k)
    ensures k < |j.recs| && j.Final(0, []).0 == StartOf(j, k) > j.Size()
  {
    hide j.Final, EndAt, StartOf, RoundUp, TailAfterData;
    StartOnGrid(j, -1);
    FromStart(j);
    FinalIsEnd(j, 0, []);
    TailBehind(j, k);
    TailFrom(j, k, 0);
  }

  lemma TailBehind(j: Job, k: nat)
    requires j.Valid() && TailAfterData(j, k)
    ensures k < |j.recs| && j.Size() < StartOf(j, k)
  {
  }

  lemma {:induction false} TailFrom(j: Job, k: nat, off: nat)
    requires j.Valid() && TailAfterData(j, k) && j.OnGrid(off) && off <= RoundUp(EndBefore(j, k), j.bs)
    ensures k < |j.recs| && EndAt(j, off) == StartOf(j, k)
    decreases j.Size() - off
  {
    TailBehind(j, k);
    hide *;
    var to := TailNext(j, k, off);
    if to == StartOf(j, k) {
      EndPast(j, to);
    } else {
      TailFrom(j, k, to);
    }
  }

  lemma TailNext(j: Job, k: nat, off: nat) returns (to: nat)
    requires j.Valid() && TailAfterData(j, k) && j.OnGrid(off) && off <= RoundUp(EndBefore(j, k), j.bs)
    ensures k < |j.recs| && off < j.Size() && off < to && j.OnGrid(to) && EndAt(j, off) == EndAt(j, to)
    ensures to == StartOf(j, k) || to <= RoundUp(EndBefore(j, k), j.bs)
  {
    hide *;
    TailStep(j, k, off);
    j.PassAdvances(off);
    EndStep(j, off);
    to := off + j.Advance(off);
  }

  /** From the last record's end to the next block boundary, the hole before record k is met. */
  lemma TailHole(j: Job, k: nat, off: nat)
    requires j.Valid() && TailAfterData(j, k) && EndBefore(j, k) <= off <= RoundUp(EndBefore(j, k), j.bs)
    ensures k < |j.recs| && j.At(off) == k && j.HoleBlock(off)
  {
    var b := RoundUp(EndBefore(j, k), j.bs);
    GridGap(b, StartOf(j, k), j.bs);
    ReachingUnique(j.recs, off, k);
  }

  lemma {:induction false} TailCap(j: Job, k: nat, off: nat)
    requires j.Valid() && TailAfterData(j, k) && off < EndBefore(j, k) && off < j.Size()
    ensures j.NextHole(off) <= RoundUp(EndBefore(j, k), j.bs)
    decreases j.Size() - off
  {
    hide Sorted, Reaching, RoundUp, j.HoleBlock, RoundDown;
    var b := RoundUp(EndBefore(j, k), j.bs);
    if !j.HoleBlock(off) {
      BeforeEnd(j, k, off);
      var c := After(j, off);
      if c < EndBefore(j, k) {
        TailCap(j, k, c);
      } else {
        TailHole(j, k, c);
      }
    }
  }

  lemma BeforeEnd(j: Job, k: nat, off: nat)
    requires j.Valid() && k <= |j.recs| && off < EndBefore(j, k)
    ensures j.At(off) < k
    ensures j.recs[j.At(off)].logical <= EndBefore(j, k)
    ensures RoundUp(j.recs[j.At(off)].End(), j.bs) <= RoundUp(EndBefore(j, k), j.bs)
  {
    hide RoundUp;
    assert j.recs[k - 1].End() > off;
    var i := j.At(off);
    assert i < k - 1 ==> j.recs[i].End() <= j.recs[k - 1].logical;
    RoundUpBelow(j.recs[i].End(), RoundUp(EndBefore(j, k), j.bs), j.bs);
  }

  lemma FakeOverData(j: Job, k: nat, off: nat)
    requires j.Valid() && TailAfterData(j, k) && off < EndBefore(j, k) && EndBefore(j, k) < off + j.FakeLen()
    ensures !Faked(j, off)
  {
    assert Overlaps(j.recs[k - 1], off, off + j.FakeLen());
  }

  /** Every pass up to the tail's hole stays in front of it, and one at the hole ends at the record behind. */
  lemma TailStep(j: Job, k: nat, off: nat)
    requires j.Valid() && TailAfterData(j, k) && j.OnGrid(off) && off <= RoundUp(EndBefore(j, k), j.bs)
    ensures off < j.Size() && k < |j.recs|
    ensures off + j.Advance(off) == StartOf(j, k) || off + j.Advance(off) <= RoundUp(EndBefore(j, k), j.bs)
  {
    hide Sorted, Reaching, RoundUp, j.HoleBlock, RoundDown, j.NextHole, j.Advance, Faked;
    TailBehind(j, k);
    Lands(j, off);
    if EndBefore(j, k) <= off {
      TailHole(j, k, off);
    } else {
      BeforeEnd(j, k, off);
      TailCap(j, k, off);
      if EndBefore(j, k) < off + j.FakeLen() { FakeOverData(j, k, off); }
    }
  }
}
