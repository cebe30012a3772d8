/** When hashing blocks too shows in a file's digest: exactly if the block size does not divide the buffer. */
module DigestOptions {
  import opened Grid
  import opened Layout
  import opened ScanSpec
  import opened ScanTheorems
  import opened ScanEnd
  import opened GridDigest

  function With(j: Job, blockHash: bool): Job { j.(blockHash := blockHash) }

  // ---- When the block size divides the buffer ----

  /** The bytes a pass feeds: a hole's descriptor, zeroes, or what it consumes. */
  function FedBy(content: seq<Byte>, off: nat, used: nat, hole: bool, faked: bool): seq<Byte> {
    if hole then Descriptor(off, used)
    else if faked then Zeroes(used)
    else if off + used <= |content| then content[off..off + used]
    else []
  }

  lemma FedIs(j: Job, off: nat)
    requires j.Valid() && off < j.Size() && j.OnGrid(off)
    ensures j.Fed(off) == FedBy(j.content, off, j.Advance(off), j.HoleBlock(off), Faked(j, off))
  {
    j.PassAdvances(off);
    hide j.HoleBlock, j.NextHole, Reaching, Sorted, Ignored, RoundDown, Aligned, Descriptor;
  }

  /** Then a whole buffer fits in the same places and is as long, whether blocks are hashed or not. */
  lemma SameFits(a: Job, b: Job, off: nat)
    requires a.Valid() && b == With(a, !a.blockHash) && Aligned(a.buf, a.bs) && off < a.Size()
    ensures b.Valid() && a.HoleBlock(off) == b.HoleBlock(off) && a.At(off) == b.At(off)
    ensures a.NextHole(off) == b.NextHole(off) && Faked(a, off) == Faked(b, off)
    ensures Fits(a, off) == Fits(b, off) && Whole(a, off) == Whole(b, off) && a.FakeLen() == b.FakeLen()
  {
    SameHoles(a, b, off);
    SameNextHole(a, b, off);
    RoundDownAligned(a.buf, a.bs);
    hide a.HoleBlock, a.NextHole, Reaching, Sorted, Ignored, RoundDown, Aligned;
  }

  lemma SameAdvance(a: Job, b: Job, off: nat)
    requires a.Valid() && b == With(a, !a.blockHash) && Aligned(a.buf, a.bs) && off < a.Size() && Aligned(off, a.bs)
    ensures b.Valid() && a.Advance(off) == b.Advance(off)
  {
    SameFits(a, b, off);
    Lands(a, off);
    Lands(b, off);
    hide a.HoleBlock, a.NextHole, a.Advance, Fits, Whole, Reaching, Sorted, RoundDown;
  }

  lemma SameFed(a: Job, b: Job, off: nat)
    requires a.Valid() && b == With(a, !a.blockHash) && Aligned(a.buf, a.bs) && off < a.Size() && Aligned(off, a.bs)
    ensures b.Valid() && a.Fed(off) == b.Fed(off)
  {
    SameFits(a, b, off);
    SameAdvance(a, b, off);
    OnBothGrids(a, b, off);
    hide *;
    FedIs(a, off);
    FedIs(b, off);
  }

  lemma OnBothGrids(a: Job, b: Job, off: nat)
    requires a.Valid() && b == With(a, !a.blockHash) && off < a.Size() && Aligned(off, a.bs)
    ensures b.Valid() && a.content == b.content && off < b.Size() && a.OnGrid(off) && b.OnGrid(off)
  {
  }

  lemma {:induction false} SameNextHole(j: Job, k: Job, from: nat)
    requires j.Valid() && k.Valid() && k.content == j.content && k.recs == j.recs && k.bs == j.bs && from < j.Size()
    ensures j.NextHole(from) == k.NextHole(from)
    decreases j.Size() - from
  {
    hide j.HoleBlock, Sorted, Reaching, RoundUp;
    SameHoles(j, k, from);
    if !j.HoleBlock(from) && After(j, from) < j.Size() {
      SameNextHole(j, k, After(j, from));
    }
  }

  lemma {:induction false} SameScan(j: Job, off: nat, stream: seq<Byte>)
    requires j.Valid() && Aligned(j.buf, j.bs) && With(j, true).OnGrid(off) && With(j, false).OnGrid(off)
    ensures With(j, true).Final(off, stream) == With(j, false).Final(off, stream)
    decreases j.Size() - off
  {
    hide j.Advance, j.Fed, Aligned, Sorted;
    if off < j.Size() {
      var a, b := With(j, true), With(j, false);
      a.PassAdvances(off);
      b.PassAdvances(off);
      SameAdvance(a, b, off);
      SameFed(a, b, off);
      SameScan(j, off + a.Advance(off), stream + a.Fed(off));
    }
  }

  // ---- When it does not ----

  /** One buffer of data, and a hole to the end of the block after. */
  function Uneven(bs: nat, buf: nat, blockHash: bool): Job
    requires 0 < bs <= buf
  {
    Job(Zeroes(RoundUp(buf, bs) + bs), [Rec(0, 1, buf, false, false)], bs, buf, blockHash, false, false)
  }

  lemma UnevenMap(bs: nat, buf: nat, h: bool, off: nat)
    requires 0 < bs <= buf && !Aligned(buf, bs) && off < RoundUp(buf, bs) + bs
    ensures var j := Uneven(bs, buf, h);
            && j.Valid() && j.Size() == RoundUp(buf, bs) + bs
            && (j.HoleBlock(off) <==> off >= buf) && j.At(off) == (if off < buf then 0 else 1)
            && (off < buf ==> j.NextHole(off) == RoundUp(buf, bs) && !Faked(j, off))
  {
    var j := Uneven(bs, buf, h);
    if off < buf {
      assert Overlaps(j.recs[0], off, off + j.FakeLen());
      assert j.HoleBlock(RoundUp(buf, bs));
    }
  }

  lemma UnevenGrid(bs: nat, buf: nat)
    requires 0 < bs <= buf && !Aligned(buf, bs)
    ensures 0 < RoundDown(buf, bs) < buf < RoundUp(buf, bs) == RoundDown(buf, bs) + bs
  {
    assert RoundDown(buf, bs) != buf;
  }

  /** Where a pass lands there, and how much it feeds. */
  lemma UnevenPass(bs: nat, buf: nat, h: bool, off: nat)
    requires 0 < bs <= buf && !Aligned(buf, bs) && off < RoundUp(buf, bs) + bs && Uneven(bs, buf, h).OnGrid(off)
    ensures var j, b := Uneven(bs, buf, h), RoundUp(buf, bs);
            && j.Valid()
            && (off >= buf ==> off + j.Advance(off) == j.Size() && |j.Fed(off)| == 16)
            && (off < buf ==> |j.Fed(off)| == j.Advance(off))
            && (off < buf ==>
                  off + j.Advance(off) == if off + buf < b then off + (if h then RoundDown(buf, bs) else buf) else b)
  {
    var j := Uneven(bs, buf, h);
    UnevenMap(bs, buf, h, off);
    UnevenGrid(bs, buf);
    Lands(j, off);
    hide Uneven, RoundUp, RoundDown, Reaching, Sorted, Ignored, Aligned, j.NextHole, j.HoleBlock;
    if off < buf {
      j.PassAdvances(off);
    }
  }

  /** One pass further, with what it fed. */
  lemma UnevenStep(bs: nat, buf: nat, h: bool, off: nat, stream: seq<Byte>) returns (to: nat, stream': seq<Byte>)
    requires 0 < bs <= buf && !Aligned(buf, bs) && off < RoundUp(buf, bs) + bs
    requires Uneven(bs, buf, h).Valid() && Uneven(bs, buf, h).OnGrid(off)
    ensures off < buf ==> |stream'| == |stream| + to - off
    ensures off < buf ==> to == if off + buf >= RoundUp(buf, bs) then RoundUp(buf, bs)
                                else off + (if h then RoundDown(buf, bs) else buf)
    ensures off >= buf ==> |stream'| == |stream| + 16 && to == RoundUp(buf, bs) + bs
    ensures Uneven(bs, buf, h).OnGrid(to)
    ensures Uneven(bs, buf, h).Final(off, stream) == Uneven(bs, buf, h).Final(to, stream')
  {
    var j := Uneven(bs, buf, h);
    UnevenPass(bs, buf, h, off);
    assert j.Size() == RoundUp(buf, bs) + bs by { UnevenMap(bs, buf, h, off); }
    hide *;
    FinalStep(j, off, stream);
    to, stream' := off + j.Advance(off), stream + j.Fed(off);
  }

  lemma UnevenValid(bs: nat, buf: nat, h: bool)
    requires 0 < bs <= buf
    ensures Uneven(bs, buf, h).Valid() && Uneven(bs, buf, h).OnGrid(0)
    ensures Uneven(bs, buf, h).bs == bs && Uneven(bs, buf, h).buf == buf
    ensures With(Uneven(bs, buf, h), true) == Uneven(bs, buf, true)
    ensures With(Uneven(bs, buf, h), false) == Uneven(bs, buf, false)
    ensures Uneven(bs, buf, h).Size() == RoundUp(buf, bs) + bs
  {
  }

  /** Hashing blocks, the hole is met at a block boundary; not hashing them, where the first buffer ends. */
  lemma UnevenDigests(bs: nat, buf: nat)
    requires 0 < bs <= buf && !Aligned(buf, bs)
    ensures Uneven(bs, buf, true).Valid() && Uneven(bs, buf, false).Valid()
    ensures Uneven(bs, buf, true).Final(0, []).1 != Uneven(bs, buf, false).Final(0, []).1
  {
    UnevenValid(bs, buf, true);
    UnevenValid(bs, buf, false);
    UnevenGrid(bs, buf);
    hide *;
    var a, s := UnevenStep(bs, buf, true, 0, []);
    a, s := UnevenStep(bs, buf, true, a, s);
    a, s := UnevenStep(bs, buf, true, a, s);
    var b, t := UnevenStep(bs, buf, false, 0, []);
    b, t := UnevenStep(bs, buf, false, b, t);
    FinalPast(Uneven(bs, buf, true), a, s);
    FinalPast(Uneven(bs, buf, false), b, t);
  }

  // ---- The exact condition ----

  /** The file's digest is the same whether its blocks are hashed too or not. */
  ghost predicate SameDigest(j: Job, bs: nat, buf: nat) {
    j.Valid() && j.bs == bs && j.buf == buf ==>
      With(j, true).Final(0, []).1 == With(j, false).Final(0, []).1
  }

  /** So it is for every file, whatever its layout, if and only if the block size divides the buffer. */
  lemma DigestIgnoresBlocks(bs: nat, buf: nat)
    requires 0 < bs <= buf
    ensures (forall j :: SameDigest(j, bs, buf)) <==> Aligned(buf, bs)
  {
    hide Aligned, Uneven;
    if Aligned(buf, bs) {
      forall j
        ensures SameDigest(j, bs, buf)
      {
        if j.Valid() && j.bs == bs && j.buf == buf {
          AtStart(j);
          SameScan(j, 0, []);
        }
      }
    } else {
      UnevenValid(bs, buf, true);
      UnevenDigests(bs, buf);
      assert !SameDigest(Uneven(bs, buf, true), bs, buf);
    }
  }

  lemma AtStart(j: Job)
    requires j.Valid()
    ensures With(j, true).OnGrid(0) && With(j, false).OnGrid(0)
  {
  }
}
