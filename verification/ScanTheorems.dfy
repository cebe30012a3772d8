/** What the scan of one file promises, proved about the functions of ScanSpec. */
module ScanTheorems {
  import opened Grid
  import opened Layout
  import opened ScanSpec

  // ---- The cached read cap and the leftover bytes ----

  /** Where next_hole_block() looks next after the record reaching `off`. */
  function After(j: Job, off: nat): (b: nat)
    requires 0 < j.bs && !j.HoleBlock(off)
    ensures b > off
  {
    RoundUp(j.recs[j.At(off)].End(), j.bs)
  }

  /** Between an offset and where the search goes next, the search goes to the same place. */
  lemma SameNext(j: Job, from: nat, off: nat)
    requires j.Valid() && from < j.Size() && !j.HoleBlock(from) && !j.HoleBlock(off)
    requires from <= off < After(j, from)
    ensures var b := After(j, from);
            After(j, off) == b || (After(j, off) > b && !j.HoleBlock(b) && After(j, b) == After(j, off))
  {
    hide Reaching, RoundUp;
    var b, c, e := After(j, from), After(j, off), j.recs[j.At(off)];
    if j.recs[j.At(from)].End() > off {
      ReachingUnique(j.recs, off, j.At(from));
    } else if e.End() <= b {
      if b < c { GridGap(b, c, j.bs); }
      if c < b { GridGap(c, b, j.bs); }
    } else {
      ReachingUnique(j.recs, b, j.At(off));
    }
  }

  /** A read cap computed earlier is still what a fresh computation would give. */
  lemma {:induction false} ReadCapStable(j: Job, from: nat, off: nat)
    requires j.Valid() && from < j.Size()
    requires from <= off < j.NextHole(from) && !j.HoleBlock(off)
    ensures j.NextHole(off) == j.NextHole(from)
    decreases j.Size() - from
  {
    hide Reaching, RoundUp, Sorted, j.HoleBlock;
    var b := After(j, from);
    if off < b {
      SameNext(j, from, off);
    } else {
      ReadCapStable(j, b, off);
    }
  }

  /** A grid block before the read cap is not a hole, so leftover bytes never meet a hole skip. */
  lemma {:induction false} NoHoleBelowReadCap(j: Job, from: nat, off: nat)
    requires j.Valid() && from < j.Size() && !j.HoleBlock(from)
    requires Aligned(from, j.bs) && Aligned(off, j.bs) && from <= off < j.NextHole(from)
    ensures !j.HoleBlock(off)
    decreases j.Size() - from
  {
    var e := j.recs[j.At(from)];
    var b := RoundUp(e.End(), j.bs);
    if e.End() > off {
      ReachingUnique(j.recs, off, j.At(from));
    } else if off < b {
      GridGap(off, b, j.bs);
    } else {
      NoHoleBelowReadCap(j, b, off);
    }
  }

  lemma RoundUpBelow(x: nat, g: nat, bs: nat)
    requires bs > 0 && Aligned(g, bs) && x <= g
    ensures RoundUp(x, bs) <= g
  {
    if g < RoundUp(x, bs) {
      GridGap(g, RoundUp(x, bs), bs);
    }
  }
}
