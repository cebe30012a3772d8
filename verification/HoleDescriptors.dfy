/**
 * What the file digest says of holes (src/file_scan.c:4139-4158): where each one is and how long. Two scans that
 * differ in a hole differ in their digests, and so do two files of the same data with different holes.
 */
module HoleDescriptors {
  import opened Grid
  import opened ScanSpec
  import opened ScanEnd
  import opened GridDigest

  const WORD := 0x1_0000_0000_0000_0000

  /** Offsets are 64-bit. */
  ghost predicate Fits64(j: Job) {
    j.Size() < WORD && forall i :: 0 <= i < |j.recs| ==> j.recs[i].logical < WORD
  }

  // ---- One descriptor ----

  function Pow256(n: nat): nat { if n == 0 then 1 else 256 * Pow256(n - 1) }

  lemma {:induction false} WordTells(x: nat, y: nat, n: nat)
    requires x < Pow256(n) && y < Pow256(n) && Word(x, n) == Word(y, n)
    ensures x == y
  {
    if n > 0 {
      assert Word(x, n)[0] == Word(y, n)[0] && Word(x, n)[1..] == Word(y, n)[1..];
      WordTells(x / 256, y / 256, n - 1);
    }
  }

  /** A word of eight bytes is told by them. */
  lemma EightBytes(x: nat, y: nat)
    requires x < WORD && y < WORD
    ensures Word(x, 8) == Word(y, 8) ==> x == y
  {
    assert Pow256(8) == WORD;
    if Word(x, 8) == Word(y, 8) {
      WordTells(x, y, 8);
    }
  }

  lemma DescriptorTells(x: nat, m: nat, y: nat, n: nat)
    requires x < WORD && m < WORD && y < WORD && n < WORD && Descriptor(x, m) == Descriptor(y, n)
    ensures x == y && m == n
  {
    hide Word;
    assert Descriptor(x, m)[..8] == Word(x, 8) && Descriptor(x, m)[8..] == Word(m, 8);
    assert Descriptor(y, n)[..8] == Word(y, 8) && Descriptor(y, n)[8..] == Word(n, 8);
    EightBytes(x, y);
    EightBytes(m, n);
  }

  lemma RunFits64(j: Job, off: nat)
    requires j.Valid() && Fits64(j) && off < j.Size() && j.HoleBlock(off)
    ensures off < WORD && j.HoleRun(off) < WORD
  {
  }

  // ---- Two scans ----

  /** The scan, having fed `s` by `from`, comes to `off` having fed `t`. */
  ghost predicate Reaches(j: Job, from: nat, s: seq<Byte>, off: nat, t: seq<Byte>)
    requires j.Valid() && j.OnGrid(from)
    decreases j.Size() - from
  {
    || (off == from && t == s)
    || (from < j.Size() && (j.PassAdvances(from); Reaches(j, from + j.Advance(from), s + j.Fed(from), off, t)))
  }

  lemma {:induction false} ReachesFinal(j: Job, from: nat, s: seq<Byte>, off: nat, t: seq<Byte>)
    requires j.Valid() && j.OnGrid(from) && Reaches(j, from, s, off, t)
    ensures j.OnGrid(off) && j.Final(off, t) == j.Final(from, s)
    decreases j.Size() - from
  {
    hide j.Advance, j.Fed, j.OnGrid, j.Final;
    if !(off == from && t == s) {
      j.PassAdvances(from);
      FinalStep(j, from, s);
      ReachesFinal(j, from + j.Advance(from), s + j.Fed(from), off, t);
    }
  }

  lemma {:induction false} FinalExtends(j: Job, off: nat, s: seq<Byte>)
    requires j.Valid() && j.OnGrid(off)
    ensures s <= j.Final(off, s).1
    decreases j.Size() - off
  {
    hide j.Advance, j.Fed, j.OnGrid, j.Final;
    if off < j.Size() {
      FinalStep(j, off, s);
      j.PassAdvances(off);
      FinalExtends(j, off + j.Advance(off), s + j.Fed(off));
    } else {
      FinalPast(j, off, s);
    }
  }

  lemma FedHole(j: Job, off: nat)
    requires j.Valid() && off < j.Size() && j.HoleBlock(off)
    ensures j.Fed(off) == Descriptor(off, j.HoleRun(off))
  {
  }

  /** A scan that skips a hole after `s` has its descriptor next in the stream. */
  lemma HoleFollows(j: Job, off: nat, s: seq<Byte>)
    requires j.Valid() && j.OnGrid(off) && off < j.Size() && j.HoleBlock(off)
    ensures s + Descriptor(off, j.HoleRun(off)) <= j.Final(off, s).1
  {
    hide *;
    FedHole(j, off);
    FinalStep(j, off, s);
    FinalExtends(j, off + j.Advance(off), s + j.Fed(off));
  }

  lemma NextSixteen(s: seq<Byte>, d: seq<Byte>, e: seq<Byte>, all: seq<Byte>)
    requires |d| == |e| && s + d <= all && s + e <= all
    ensures d == e
  {
    assert all[|s|..|s| + |d|] == (s + d)[|s|..] == d;
    assert all[|s|..|s| + |e|] == (s + e)[|s|..] == e;
  }

  /**
   * Two scans that have fed the same bytes so far, and now skip holes that differ in place or in length, end
   * with different streams.
   */
  lemma HolesTold(a: Job, x: nat, b: Job, y: nat, s: seq<Byte>)
    requires a.Valid() && Fits64(a) && a.OnGrid(0) && Reaches(a, 0, [], x, s) && x < a.Size() && a.HoleBlock(x)
    requires b.Valid() && Fits64(b) && b.OnGrid(0) && Reaches(b, 0, [], y, s) && y < b.Size() && b.HoleBlock(y)
    requires x != y || a.HoleRun(x) != b.HoleRun(y)
    ensures a.Final(0, []).1 != b.Final(0, []).1
  {
    hide Reaches, Descriptor, a.HoleBlock, a.HoleRun, a.Final, a.OnGrid;
    ReachesFinal(a, 0, [], x, s);
    ReachesFinal(b, 0, [], y, s);
    HoleFollows(a, x, s);
    HoleFollows(b, y, s);
    RunFits64(a, x);
    RunFits64(b, y);
    var d, e := Descriptor(x, a.HoleRun(x)), Descriptor(y, b.HoleRun(y));
    DescriptorSize(x, a.HoleRun(x));
    DescriptorSize(y, b.HoleRun(y));
    if a.Final(0, []).1 == b.Final(0, []).1 {
      NextSixteen(s, d, e, a.Final(0, []).1);
      DescriptorTells(x, a.HoleRun(x), y, b.HoleRun(y));
    }
  }

  lemma DescriptorSize(off: nat, len: nat)
    ensures |Descriptor(off, len)| == 16
  {
  }

  // ---- Same data, other holes ----

  /** The bytes of the blocks that are no hole. */
  function DataFrom(j: Job, off: nat): seq<Byte>
    requires j.Valid()
    decreases j.Size() - off
  {
    if off >= j.Size() then []
    else if j.HoleBlock(off) then DataFrom(j, off + j.HoleRun(off))
    else j.content[off..Min(off + j.bs, j.Size())] + DataFrom(j, off + j.bs)
  }

  /** The hole runs, each with its place and length. */
  function HolesFrom(j: Job, off: nat): seq<(nat, nat)>
    requires j.Valid()
    decreases j.Size() - off
  {
    if off >= j.Size() then []
    else if j.HoleBlock(off) then [(off, j.HoleRun(off))] + HolesFrom(j, off + j.HoleRun(off))
    else HolesFrom(j, off + j.bs)
  }

  /** How often `w` is among the 16-byte words of the bytes. */
  function WordCount(s: seq<Byte>, w: seq<Byte>): nat {
    if |s| < 16 then 0 else (if s[..16] == w then 1 else 0) + WordCount(s[16..], w)
  }

  /** How many of the holes have this descriptor. */
  function HoleCount(holes: seq<(nat, nat)>, w: seq<Byte>): nat {
    if holes == [] then 0
    else (if Descriptor(holes[0].0, holes[0].1) == w then 1 else 0) + HoleCount(holes[1..], w)
  }

  lemma {:induction false} WordsAppend(s: seq<Byte>, t: seq<Byte>, w: seq<Byte>)
    requires Aligned(|s|, 16)
    ensures WordCount(s + t, w) == WordCount(s, w) + WordCount(t, w)
  {
    if s == [] {
      assert s + t == t;
    } else {
      assert (s + t)[..16] == s[..16] && (s + t)[16..] == s[16..] + t;
      WordsAppend(s[16..], t, w);
    }
  }

  /** The words of the stream are those of the data and the descriptors. */
  lemma {:induction false} WordsOfStream(j: Job, off: nat, w: seq<Byte>)
    requires j.Valid() && Aligned(j.bs, 16)
    ensures WordCount(GridStream(j, off), w) == WordCount(DataFrom(j, off), w) + HoleCount(HolesFrom(j, off), w)
    decreases j.Size() - off
  {
    hide j.HoleBlock, j.HoleRun, Descriptor, WordCount;
    if off < j.Size() {
      if j.HoleBlock(off) {
        var next := off + j.HoleRun(off);
        DescriptorSize(off, j.HoleRun(off));
        OneBlock(16);
        WordsAppend(Descriptor(off, j.HoleRun(off)), GridStream(j, next), w);
        OneWord(Descriptor(off, j.HoleRun(off)), w);
        WordsOfStream(j, next, w);
        assert HolesFrom(j, off)[1..] == HolesFrom(j, next);
      } else {
        var next := off + j.bs;
        var block := j.content[off..Min(next, j.Size())];
        WordsOfStream(j, next, w);
        if next <= j.Size() {
          WordsAppend(block, GridStream(j, next), w);
          WordsAppend(block, DataFrom(j, next), w);
        } else {
          EndOfGrid(j, next);
          assert block + GridStream(j, next) == block + DataFrom(j, next);
          NoWords(w);
        }
      }
    } else {
      NoWords(w);
    }
  }

  lemma OneWord(s: seq<Byte>, w: seq<Byte>)
    requires |s| == 16
    ensures WordCount(s, w) == if s == w then 1 else 0
  {
    assert s[..16] == s;
  }

  lemma NoWords(w: seq<Byte>)
    ensures WordCount([], w) == 0 && HoleCount([], w) == 0
  {
  }

  lemma {:induction false} Counted(holes: seq<(nat, nat)>, h: (nat, nat))
    requires h in holes
    ensures HoleCount(holes, Descriptor(h.0, h.1)) > 0
  {
    hide Descriptor;
    if holes[0] != h {
      Counted(holes[1..], h);
    }
  }

  lemma {:induction false} CountedHole(holes: seq<(nat, nat)>, w: seq<Byte>) returns (h: (nat, nat))
    requires HoleCount(holes, w) > 0
    ensures h in holes && Descriptor(h.0, h.1) == w
  {
    hide Descriptor;
    if Descriptor(holes[0].0, holes[0].1) == w {
      h := holes[0];
    } else {
      h := CountedHole(holes[1..], w);
    }
  }

  /** The runs are in order, and their places and lengths are words. */
  ghost predicate Runs(holes: seq<(nat, nat)>, from: nat) {
    && (forall i :: 0 <= i < |holes| ==> from <= holes[i].0 < WORD && holes[i].1 < WORD)
    && (forall i, k :: 0 <= i < k < |holes| ==> holes[i].0 < holes[k].0)
  }

  lemma {:induction false} HolesAreRuns(j: Job, off: nat)
    requires j.Valid() && Fits64(j)
    ensures Runs(HolesFrom(j, off), off)
    decreases j.Size() - off
  {
    hide j.HoleBlock, j.HoleRun, Fits64;
    if off < j.Size() {
      if j.HoleBlock(off) {
        RunFits64(j, off);
        HolesAreRuns(j, off + j.HoleRun(off));
      } else {
        HolesAreRuns(j, off + j.bs);
      }
    }
  }

  lemma FirstRun(g: seq<(nat, nat)>, h: seq<(nat, nat)>, from: nat)
    requires Runs(h, from) && g != [] && g[0] in h
    ensures h != [] && h[0].0 <= g[0].0 && (h[0].0 == g[0].0 ==> h[0] == g[0])
  {
    var i :| 0 <= i < |h| && h[i] == g[0];
    if 0 < i {
      assert h[0].0 < h[i].0;
    }
  }

  lemma {:induction false} SameRuns(g: seq<(nat, nat)>, h: seq<(nat, nat)>, from: nat)
    requires Runs(g, from) && Runs(h, from) && forall r :: r in g <==> r in h
    ensures g == h
  {
    if g != [] {
      assert g[0] in h;
      FirstRun(g, h, from);
      assert h[0] in g;
      FirstRun(h, g, from);
      forall r
        ensures r in g[1..] <==> r in h[1..]
      {
        assert r in g <==> r == g[0] || r in g[1..];
        assert r in h <==> r == h[0] || r in h[1..];
        assert g[0] !in g[1..] && h[0] !in h[1..];
      }
      SameRuns(g[1..], h[1..], from);
    } else {
      NoRuns(h);
    }
  }

  lemma NoRuns(h: seq<(nat, nat)>)
    ensures h != [] ==> h[0] in h
  {
  }

  lemma HoleOfOther(a: Job, b: Job, h: (nat, nat))
    requires a.Valid() && b.Valid() && Fits64(a) && Fits64(b) && Aligned(a.bs, 16) && Aligned(b.bs, 16)
    requires DataFrom(a, 0) == DataFrom(b, 0) && GridStream(a, 0) == GridStream(b, 0) && h in HolesFrom(a, 0)
    ensures h in HolesFrom(b, 0)
  {
    hide Descriptor, GridStream, DataFrom, HolesFrom, Fits64, Aligned;
    var w := Descriptor(h.0, h.1);
    HolesAreRuns(a, 0);
    HolesAreRuns(b, 0);
    WordsOfStream(a, 0, w);
    WordsOfStream(b, 0, w);
    Counted(HolesFrom(a, 0), h);
    var g := CountedHole(HolesFrom(b, 0), w);
    DescriptorTells(h.0, h.1, g.0, g.1);
  }

  /** The same stream from the same data means the same holes. */
  lemma StreamTellsHoles(a: Job, b: Job)
    requires a.Valid() && b.Valid() && Fits64(a) && Fits64(b) && Aligned(a.bs, 16) && Aligned(b.bs, 16)
    requires DataFrom(a, 0) == DataFrom(b, 0) && GridStream(a, 0) == GridStream(b, 0)
    ensures HolesFrom(a, 0) == HolesFrom(b, 0)
  {
    hide GridStream, DataFrom, HolesFrom, Fits64, Aligned;
    HolesAreRuns(a, 0);
    HolesAreRuns(b, 0);
    forall h
      ensures h in HolesFrom(a, 0) <==> h in HolesFrom(b, 0)
    {
      if h in HolesFrom(a, 0) { HoleOfOther(a, b, h); }
      if h in HolesFrom(b, 0) { HoleOfOther(b, a, h); }
    }
    SameRuns(HolesFrom(a, 0), HolesFrom(b, 0), 0);
  }

  lemma {:induction false} HolesTellStream(a: Job, b: Job, off: nat)
    requires a.Valid() && b.Valid() && Fits64(a) && Fits64(b) && a.bs == b.bs && a.Size() == b.Size()
    requires DataFrom(a, off) == DataFrom(b, off) && HolesFrom(a, off) == HolesFrom(b, off)
    ensures GridStream(a, off) == GridStream(b, off)
    decreases a.Size() - off
  {
    hide a.HoleBlock, a.HoleRun, Descriptor, Fits64;
    if off < a.Size() {
      if a.HoleBlock(off) || b.HoleBlock(off) {
        FirstHole(a, off);
        FirstHole(b, off);
        var next := off + a.HoleRun(off);
        assert HolesFrom(a, off)[1..] == HolesFrom(a, next) && HolesFrom(b, off)[1..] == HolesFrom(b, next);
        HolesTellStream(a, b, next);
      } else {
        var next, n := off + a.bs, Min(off + a.bs, a.Size()) - off;
        assert DataFrom(a, off)[..n] == a.content[off..off + n] && DataFrom(a, off)[n..] == DataFrom(a, next);
        assert DataFrom(b, off)[..n] == b.content[off..off + n] && DataFrom(b, off)[n..] == DataFrom(b, next);
        HolesTellStream(a, b, next);
      }
    }
  }

  /** There is a hole at the offset exactly if the first run to come is there. */
  lemma FirstHole(j: Job, off: nat)
    requires j.Valid() && Fits64(j) && off < j.Size()
    ensures j.HoleBlock(off) <==> HolesFrom(j, off) != [] && HolesFrom(j, off)[0].0 == off
    ensures j.HoleBlock(off) ==> HolesFrom(j, off)[0].1 == j.HoleRun(off)
  {
    hide j.HoleBlock, j.HoleRun, Fits64;
    if !j.HoleBlock(off) {
      HolesAreRuns(j, off + j.bs);
    }
  }

  /**
   * Two files of one size with identical data have the same digest if and only if they have the same holes, as
   * long as nothing is faked amiss in either.
   */
  lemma SparseLayoutShows(a: Job, b: Job)
    requires a.Valid() && a.GridMode() && Fits64(a) && forall r: int, m: nat :: !FakesAmiss(a, r, m)
    requires b.Valid() && b.GridMode() && Fits64(b) && forall r: int, m: nat :: !FakesAmiss(b, r, m)
    requires a.bs == b.bs > 16 && Aligned(a.bs, 16) && a.Size() == b.Size() && DataFrom(a, 0) == DataFrom(b, 0)
    ensures a.Final(0, []).1 == b.Final(0, []).1 <==> HolesFrom(a, 0) == HolesFrom(b, 0)
  {
    hide GridStream, DataFrom, HolesFrom, Fits64, FakesAmiss, Aligned, a.Final;
    StreamIsGridStream(a);
    StreamIsGridStream(b);
    if GridStream(a, 0) == GridStream(b, 0) {
      StreamTellsHoles(a, b);
    }
    if HolesFrom(a, 0) == HolesFrom(b, 0) {
      HolesTellStream(a, b, 0);
    }
  }
}
