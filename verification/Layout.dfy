/** The extent map of one file as the scan reads it (src/fiemap.c, src/file_scan.c). */
module Layout {

  /** One fiemap record. The two flags are the ones FIEMAP_SKIP_FLAGS names; the scan looks at no other. */
  datatype Rec = Rec(logical: nat, physical: nat, length: nat, inline: bool, unwritten: bool) {
    function End(): nat { logical + length }

    predicate Skip() { inline || unwritten }
  }

  /** What the kernel promises about a map: records of positive length, in order, disjoint. */
  ghost predicate Sorted(m: seq<Rec>) {
    && (forall i :: 0 <= i < |m| ==> m[i].length > 0)
    && (forall i, j :: 0 <= i < j < |m| ==> m[i].End() <= m[j].logical)
  }

  /** The scan from index 0: the first record at or after `from` that reaches `off`, or |m| if none does. */
  function Reaching(m: seq<Rec>, off: nat, from: nat): (i: nat)
    requires from <= |m|
    ensures from <= i <= |m|
    ensures forall k :: from <= k < i ==> m[k].End() <= off
    ensures i < |m| ==> m[i].End() > off
    decreases |m| - from
  {
    if from == |m| || m[from].End() > off then from else Reaching(m, off, from + 1)
  }

  /** `Reaching` is the only index with these two properties. */
  lemma ReachingUnique(m: seq<Rec>, off: nat, i: nat)
    requires Sorted(m) && i <= |m|
    requires i > 0 ==> m[i - 1].End() <= off
    requires i < |m| ==> m[i].End() > off
    ensures Reaching(m, off, 0) == i
  {
    forall k | 0 <= k < i
      ensures m[k].End() <= off
    {
      assert k < i - 1 ==> m[k].End() <= m[i - 1].logical;
    }
  }

  /**
   * get_extent(): the record covering `loff`, or the next one if `loff` is in a hole. The index |m| stands
   * for NULL. Whatever the resume cursor holds, the answer is the scan's from index 0.
   */
  method GetExtent(m: seq<Rec>, loff: nat, index: nat) returns (i: nat, index': nat)
    requires Sorted(m)
    ensures i == Reaching(m, loff, 0)
    ensures index' == if i < |m| then i else index
  {
    var start := 0;
    if index < |m| && (index == 0 || m[index - 1].End() <= loff) {
      start := index;
    }
    i := start;
    while i < |m|
      invariant start <= i <= |m|
      invariant i > 0 ==> m[i - 1].End() <= loff
    {
      if m[i].End() - 1 >= loff {
        ReachingUnique(m, loff, i);
        return i, i;
      }
      i := i + 1;
    }
    ReachingUnique(m, loff, i);
    index' := index;
  }

  // What an area [a, b) of the file holds.

  ghost predicate Overlaps(e: Rec, a: nat, b: nat) { a < b && e.logical < b && a < e.End() }

  ghost predicate NoData(m: seq<Rec>, a: nat, b: nat) {
    forall i :: 0 <= i < |m| && Overlaps(m[i], a, b) ==> m[i].Skip()
  }

  /** Nothing in [a, b) is backed by data, and some preallocated or inline record is there. */
  ghost predicate Ignored(m: seq<Rec>, a: nat, b: nat) {
    NoData(m, a, b) && exists i :: 0 <= i < |m| && Overlaps(m[i], a, b)
  }

  /** is_area_ignored(): decides `Ignored`, hopping from record to record. */
  method IsAreaIgnored(m: seq<Rec>, from: nat, len: nat, cursor: nat) returns (skipped: bool, cursor': nat)
    requires Sorted(m)
    ensures skipped <==> Ignored(m, from, from + len)
  {
    hide Reaching;
    var start, end := from, from + len;
    var cur := cursor;
    cursor' := cursor;
    var first := true;
    skipped := false;
    while start < end
      invariant from <= start
      invariant skipped ==> exists i :: 0 <= i < |m| && Overlaps(m[i], from, end)
      invariant !skipped ==> start == from
      invariant forall k :: 0 <= k < |m| && Overlaps(m[k], from, end) && m[k].End() <= start ==> m[k].Skip()
      invariant from < start ==> forall k :: 0 <= k < |m| ==> m[k].End() <= start || start <= m[k].logical
      decreases end - start
    {
      var i;
      i, cur := GetExtent(m, start, cur);
      if first {
        cursor' := cur;
      }
      first := false;
      if i == |m| || m[i].logical >= end {
        break;
      }
      assert Overlaps(m[i], from, end);
      if !m[i].Skip() {
        assert !NoData(m, from, end);
        return false, cursor';
      }
      skipped := true;
      start := m[i].End();
    }
  }
}
