/** The search for equal runs of blocks around a pair of equal blocks (src/find_dupes.c). */
module BlockMatch {
  import opened ScanSpec

  /** A stored block. Its digest is the bytes it was made of. */
  datatype Block = Block(loff: nat, digest: seq<Byte>)

  /** A file's blocks by offset. */
  datatype BlockFile = BlockFile(size: nat, blocks: seq<Block>)

  /** block_len(). */
  function BlockLen(loff: nat, size: nat, bs: nat): (n: nat)
    requires bs > 0
    ensures n == if loff >= size then 0 else Min(bs, size - loff)
  {
    if loff + bs <= size then bs
    else if loff >= size then 0
    else
      assert size - loff < bs;
      (size - loff) % bs
  }

  /** What record_match() puts into the results tree: the run's id, and first and last byte on both sides. */
  datatype Match = Match(id: seq<seq<Byte>>, soff0: nat, soff1: nat, eoff0: int, eoff1: int)

  /** A search: both cursors move together, so one number says where they are. */
  datatype Search = Search(f: BlockFile, i: nat, g: BlockFile, j: nat, len: nat, bs: nat) {

    predicate Valid() { bs > 0 && i < |f.blocks| && j < |g.blocks| }

    /** The last byte of the walked file the search may cover. */
    function Last(): int
      requires Valid()
    {
      g.blocks[j].loff + len - 1
    }

    predicate Has(k: nat) { i + k < |f.blocks| && j + k < |g.blocks| }

    predicate Same(k: nat) { Has(k) && f.blocks[i + k].digest == g.blocks[j + k].digest }

    predicate Within(k: nat)
      requires Valid()
    {
      Has(k) && g.blocks[j + k].loff < Last()
    }

    /** The blocks after k follow on directly, in both files. */
    predicate Joined(k: nat) {
      Has(k + 1)
      && f.blocks[i + k + 1].loff == f.blocks[i + k].loff + bs
      && g.blocks[j + k + 1].loff == g.blocks[j + k].loff + bs
    }

    function End(b: BlockFile, k: nat): int
      requires bs > 0 && k < |b.blocks|
    {
      BlockLen(b.blocks[k].loff, b.size, bs) + b.blocks[k].loff - 1
    }

    /** Steps from..to find equal blocks, one after the other in both files. */
    ghost predicate Run(from: nat, to: nat)
      requires Valid()
    {
      && from <= to && Has(from) && Has(to)
      && (forall k :: from <= k <= to ==> Same(k) && Within(k))
      && (forall k :: from <= k < to ==> Joined(k))
    }

    /** A run as long as it can be. */
    ghost predicate Maximal(from: nat, to: nat)
      requires Valid()
    {
      && Run(from, to)
      && (from > 0 ==> !Same(from - 1))
      && !(Same(to + 1) && Within(to + 1) && Joined(to))
    }

    /** The id of n steps: their digests in order. */
    function IdOf(from: nat, n: nat): (id: seq<seq<Byte>>)
      requires i + from + n <= |f.blocks|
      ensures |id| == n
    {
      seq(n, k requires 0 <= k < n => f.blocks[i + from + k].digest)
    }

    function MatchOf(from: nat, to: nat): Match
      requires Valid() && from <= to && Has(from) && Has(to)
    {
      Match(IdOf(from, to + 1 - from), f.blocks[i + from].loff, g.blocks[j + from].loff, End(f, i + to), End(g, j + to))
    }

    ghost predicate Recorded(m: Match, r: (nat, nat))
      requires Valid()
    {
      Maximal(r.0, r.1) && m == MatchOf(r.0, r.1) && m.eoff1 <= Last()
    }

    ghost predicate Covered(runs: seq<(nat, nat)>, k: nat) {
      exists n :: 0 <= n < |runs| && runs[n].0 <= k <= runs[n].1
    }

    ghost predicate Sound(res: seq<Match>)
      requires Valid()
    {
      forall n :: 0 <= n < |res| ==> exists from: nat, to: nat :: Recorded(res[n], (from, to))
    }

    /** The recorded runs, in order, with every equal pair before `upTo` in one of them. */
    ghost predicate Complete(res: seq<Match>, runs: seq<(nat, nat)>, upTo: nat)
      requires Valid()
    {
      && |res| == |runs|
      && (forall n :: 0 <= n < |runs| ==> Recorded(res[n], runs[n]) && runs[n].1 < upTo)
      && (forall n :: 0 < n < |runs| ==> runs[n - 1].1 < runs[n].0)
      && (forall k: nat :: k < upTo && Same(k) ==> Covered(runs, k))
    }

    /** Why a search may end at `upTo`. */
    ghost predicate Stops(runs: seq<(nat, nat)>, upTo: nat)
      requires Valid()
    {
      || !Has(upTo)                          // one of the files has no more blocks
      || !Within(upTo)                       // the search length is used up
      || (runs != [] && runs[|runs| - 1].1 + 1 == upTo && !Joined(upTo - 1)) // a run was cut by a gap
      || exists to: nat :: Overshoots(upTo, to) // the run from here goes past the search length
    }

    ghost predicate Overshoots(from: nat, to: nat)
      requires Valid()
    {
      Maximal(from, to) && End(g, j + to) > Last()
    }
  }

  /** On to the next equal pair, or to where the search gives up. */
  method FastForward(s: Search, from: nat) returns (found: bool, k: nat)
    requires s.Valid() && s.Has(from)
    ensures from <= k && s.Has(k) && forall l :: from <= l < k ==> !s.Same(l)
    ensures found ==> s.Same(k) || !s.Within(k)
    ensures !found ==> !s.Same(k) && !s.Has(k + 1)
  {
    k := from;
    while s.g.blocks[s.j + k].digest != s.f.blocks[s.i + k].digest && s.g.blocks[s.j + k].loff < s.Last()
      invariant from <= k && s.Has(k) && forall l :: from <= l < k ==> !s.Same(l)
      decreases |s.f.blocks| - s.i - k
    {
      if s.i + k + 1 == |s.f.blocks| || s.j + k + 1 == |s.g.blocks| {
        return false, k;
      }
      k := k + 1;
    }
    found := true;
  }

  lemma IdNone(s: Search, from: nat)
    requires s.i + from <= |s.f.blocks|
    ensures s.IdOf(from, 0) == []
  {
  }

  lemma IdNext(s: Search, from: nat, n: nat)
    requires s.i + from + n < |s.f.blocks|
    ensures s.IdOf(from, n + 1) == s.IdOf(from, n) + [s.f.blocks[s.i + from + n].digest]
  {
  }

  /** Along a run: its last step, its id, and whether to look for another one behind it. */
  method FollowRun(s: Search, from: nat) returns (to: nat, id: seq<seq<Byte>>, more: bool)
    requires s.Valid() && s.Same(from) && s.Within(from)
    ensures s.Run(from, to) && id == s.IdOf(from, to + 1 - from)
    ensures more ==> s.Joined(to) && !(s.Same(to + 1) && s.Within(to + 1))
    ensures !more ==> !s.Joined(to)
  {
    hide s.IdOf;
    var k := from;
    to, id, more := from, [], true;
    IdNone(s, from);
    while s.g.blocks[s.j + k].digest == s.f.blocks[s.i + k].digest && s.g.blocks[s.j + k].loff < s.Last()
      invariant from <= k && s.Has(k) && id == s.IdOf(from, k - from)
      invariant k > from ==> to == k - 1 && s.Run(from, to) && s.Joined(to)
      decreases |s.f.blocks| - s.i - k
    {
      IdNext(s, from, k - from);
      to, id := k, id + [s.f.blocks[s.i + k].digest];
      if s.i + k + 1 == |s.f.blocks| || s.j + k + 1 == |s.g.blocks| {
        more := false;
        break;
      }
      k := k + 1;
      if s.f.blocks[s.i + k].loff != s.f.blocks[s.i + k - 1].loff + s.bs
         || s.g.blocks[s.j + k].loff != s.g.blocks[s.j + k - 1].loff + s.bs {
        more := false;
        break;
      }
    }
  }

  /**
   * compare_extents(): every match is a longest run of equal blocks, contiguous in both files, ending within
   * the search length; every equal pair before the place where the search stops is in one; and it stops for
   * one of four reasons.
   */
  method CompareExtents(s: Search) returns (res: seq<Match>, ghost runs: seq<(nat, nat)>, ghost upTo: nat)
    requires s.Valid()
    ensures s.Complete(res, runs, upTo) && s.Stops(runs, upTo)
    ensures s.Sound(res)
  {
    hide s.IdOf, s.Complete, s.Covered, s.Sound;
    res, runs, upTo := [], [], 0;
    NoMatches(s);
    var k := 0;
    while true
      invariant s.Has(k) && upTo == k && s.Complete(res, runs, upTo) && s.Sound(res)
      invariant k > 0 ==> !s.Same(k) || !s.Within(k)
      decreases |s.f.blocks| - s.i - k
    {
      var found, from := FastForward(s, k);
      Skipped(s, res, runs, k, from);
      upTo := from;
      if !found {
        Skipped(s, res, runs, from, from + 1);
        upTo := from + 1;
        return;
      }
      if s.g.blocks[s.j + from].loff >= s.Last() {
        return;
      }
      var to, id, more := FollowRun(s, from);
      assert s.Maximal(from, to) && s.Has(to);
      if s.End(s.g, s.j + to) > s.Last() {
        assert s.Overshoots(upTo, to);
        return;
      }
      var m := Match(id, s.f.blocks[s.i + from].loff, s.g.blocks[s.j + from].loff,
                     s.End(s.f, s.i + to), s.End(s.g, s.j + to));
      Extend(s, res, runs, upTo, m, (from, to));
      res, runs, upTo := res + [m], runs + [(from, to)], to + 1;
      if !more || s.g.blocks[s.j + to + 1].loff > s.Last() {
        return;
      }
      k := to + 1;
    }
  }

  lemma NoMatches(s: Search)
    requires s.Valid()
    ensures s.Complete([], [], 0) && s.Sound([])
  {
  }

  lemma Skipped(s: Search, res: seq<Match>, runs: seq<(nat, nat)>, a: nat, b: nat)
    requires s.Valid() && s.Complete(res, runs, a) && a <= b && forall k :: a <= k < b ==> !s.Same(k)
    ensures s.Complete(res, runs, b)
  {
    hide s.Same, s.Covered;
  }

  lemma Extend(s: Search, res: seq<Match>, runs: seq<(nat, nat)>, upTo: nat, m: Match, r: (nat, nat))
    requires s.Valid() && s.Complete(res, runs, upTo) && s.Recorded(m, r) && r.0 == upTo
    ensures s.Complete(res + [m], runs + [r], r.1 + 1)
    ensures s.Sound(res) ==> s.Sound(res + [m])
  {
    var runs' := runs + [r];
    assert s.Recorded(m, (r.0, r.1));
    forall k: nat | k < r.1 + 1 && s.Same(k)
      ensures s.Covered(runs', k)
    {
      if k < upTo {
        var n :| 0 <= n < |runs| && runs[n].0 <= k <= runs[n].1;
        assert runs'[n] == runs[n];
      } else {
        assert runs'[|runs|] == r;
      }
    }
  }

  // ---- On the blocks alone ----

  /** Where the search may go: `len` bytes from where it began in the walked file. */
  function Limit(s: Search): nat
    requires s.Valid()
  {
    s.g.blocks[s.j].loff + s.len
  }

  /** The blocks k steps on are there and have equal digests. */
  predicate EqualPair(s: Search, k: nat) {
    s.i + k < |s.f.blocks| && s.j + k < |s.g.blocks| && s.f.blocks[s.i + k].digest == s.g.blocks[s.j + k].digest
  }

  /** In both files the block k + 1 steps on is directly behind the one k steps on. */
  predicate Behind(s: Search, k: nat) {
    && s.i + k + 1 < |s.f.blocks| && s.j + k + 1 < |s.g.blocks|
    && s.f.blocks[s.i + k + 1].loff == s.f.blocks[s.i + k].loff + s.bs
    && s.g.blocks[s.j + k + 1].loff == s.g.blocks[s.j + k].loff + s.bs
  }

  /**
   * A match is of blocks with equal digests, each directly behind the one before in both files, and its last byte
   * lies within the search length; and no shorter one would do: the blocks around it differ, leave a gap, or begin
   * where the search length ends.
   */
  lemma MatchOnBlocks(s: Search, m: Match, from: nat, to: nat)
    requires s.Valid() && s.Recorded(m, (from, to))
    ensures from <= to && s.i + to < |s.f.blocks| && s.j + to < |s.g.blocks|
    ensures m.soff0 == s.f.blocks[s.i + from].loff && m.soff1 == s.g.blocks[s.j + from].loff
    ensures m.eoff0 + 1 == EndOf(s.f, s.i + to, s.bs) && m.eoff1 + 1 == EndOf(s.g, s.j + to, s.bs) <= Limit(s)
    ensures forall k :: from <= k <= to ==> EqualPair(s, k)
    ensures forall k :: from <= k < to ==> Behind(s, k)
    ensures from > 0 ==> !EqualPair(s, from - 1)
    ensures EqualPair(s, to + 1) && Behind(s, to) ==> s.g.blocks[s.j + to + 1].loff + 1 >= Limit(s)
  {
    forall k | from <= k <= to
      ensures EqualPair(s, k)
    {
      assert s.Same(k);
    }
    forall k | from <= k < to
      ensures Behind(s, k)
    {
      assert s.Joined(k);
    }
    assert s.Has(to);
    if from > 0 { assert s.Has(from) && !s.Same(from - 1); }
  }

  /** The blocks from `from` to `to` have equal digests, and the last one ends past the search length. */
  ghost predicate RunsPast(s: Search, from: nat, to: nat)
    requires s.Valid()
  {
    && from <= to && s.i + to < |s.f.blocks| && s.j + to < |s.g.blocks|
    && (forall k :: from <= k <= to ==> EqualPair(s, k))
    && Limit(s) < EndOf(s.g, s.j + to, s.bs)
  }

  /** And the search stops only for lack of blocks, at the search length, at a gap, or at a run that goes past it. */
  lemma StopsOnBlocks(s: Search, runs: seq<(nat, nat)>, upTo: nat)
    requires s.Valid() && s.Stops(runs, upTo)
    ensures || s.i + upTo >= |s.f.blocks| || s.j + upTo >= |s.g.blocks|
            || s.g.blocks[s.j + upTo].loff + 1 >= Limit(s)
            || (0 < upTo && !Behind(s, upTo - 1))
            || exists to: nat :: RunsPast(s, upTo, to)
  {
    if to: nat :| s.Overshoots(upTo, to) {
      forall k | upTo <= k <= to
        ensures EqualPair(s, k)
      {
        assert s.Same(k);
      }
      assert s.Has(to);
      assert RunsPast(s, upTo, to);
    }
  }

  // ---- What a match means for the bytes ----

  /** The blocks are pieces of the file. */
  ghost predicate BlocksOf(b: BlockFile, content: seq<Byte>, bs: nat)
    requires bs > 0
  {
    && b.size == |content|
    && forall k :: 0 <= k < |b.blocks| ==>
         var l := b.blocks[k].loff;
         l < |content| && b.blocks[k].digest == content[l..l + BlockLen(l, b.size, bs)]
  }

  /** The bytes of n blocks from the p-th, taken from their digests. */
  function Bytes(b: BlockFile, p: nat, n: nat): seq<Byte>
    requires p + n <= |b.blocks|
  {
    if n == 0 then [] else Bytes(b, p, n - 1) + b.blocks[p + n - 1].digest
  }

  function EndOf(b: BlockFile, k: nat, bs: nat): nat
    requires bs > 0 && k < |b.blocks|
  {
    b.blocks[k].loff + BlockLen(b.blocks[k].loff, b.size, bs)
  }

  /** Blocks that follow on directly cover the bytes from the first one's start to the last one's end. */
  lemma {:induction false} RunBytes(b: BlockFile, c: seq<Byte>, bs: nat, p: nat, n: nat)
    requires bs > 0 && BlocksOf(b, c, bs) && n > 0 && p + n <= |b.blocks|
    requires forall k :: p <= k < p + n - 1 ==> b.blocks[k + 1].loff == b.blocks[k].loff + bs
    ensures b.blocks[p].loff < EndOf(b, p + n - 1, bs) <= |c|
    ensures c[b.blocks[p].loff..EndOf(b, p + n - 1, bs)] == Bytes(b, p, n)
  {
    var last := b.blocks[p + n - 1];
    if n == 1 {
      assert Bytes(b, p, 0) == [];
    } else {
      assert Bytes(b, p, n) == Bytes(b, p, n - 1) + last.digest;
      hide Bytes;
      RunBytes(b, c, bs, p, n - 1);
      assert EndOf(b, p + n - 2, bs) == last.loff;
      assert c[b.blocks[p].loff..EndOf(b, p + n - 1, bs)] == c[b.blocks[p].loff..last.loff] + last.digest;
    }
  }

  lemma {:induction false} SameDigests(s: Search, from: nat, n: nat)
    requires s.i + from + n <= |s.f.blocks| && s.j + from + n <= |s.g.blocks|
    requires forall k :: from <= k < from + n ==> s.Same(k)
    ensures Bytes(s.f, s.i + from, n) == Bytes(s.g, s.j + from, n)
  {
    if n > 0 {
      SameDigests(s, from, n - 1);
      assert s.Same(from + n - 1);
    }
  }

  lemma JoinedBlocks(s: Search, from: nat, to: nat)
    requires s.Valid() && s.Run(from, to)
    ensures forall k :: s.i + from <= k < s.i + to ==> s.f.blocks[k + 1].loff == s.f.blocks[k].loff + s.bs
    ensures forall k :: s.j + from <= k < s.j + to ==> s.g.blocks[k + 1].loff == s.g.blocks[k].loff + s.bs
  {
    forall k | s.i + from <= k < s.i + to
      ensures s.f.blocks[k + 1].loff == s.f.blocks[k].loff + s.bs
    {
      assert s.Joined(k - s.i);
    }
    forall k | s.j + from <= k < s.j + to
      ensures s.g.blocks[k + 1].loff == s.g.blocks[k].loff + s.bs
    {
      assert s.Joined(k - s.j);
    }
  }

  lemma RunsAreEqualBytes(s: Search, c: seq<Byte>, d: seq<Byte>, from: nat, to: nat)
    requires s.Valid() && s.Run(from, to) && BlocksOf(s.f, c, s.bs) && BlocksOf(s.g, d, s.bs)
    ensures var a, b := s.f.blocks[s.i + from].loff, s.g.blocks[s.j + from].loff;
            var a', b' := EndOf(s.f, s.i + to, s.bs), EndOf(s.g, s.j + to, s.bs);
            a < a' <= |c| && b < b' <= |d| && c[a..a'] == d[b..b']
  {
    hide Bytes, BlocksOf, BlockLen;
    JoinedBlocks(s, from, to);
    RunBytes(s.f, c, s.bs, s.i + from, to + 1 - from);
    RunBytes(s.g, d, s.bs, s.j + from, to + 1 - from);
    SameDigests(s, from, to + 1 - from);
  }

  /** The two ranges of a recorded match are equally long and hold the same bytes. */
  lemma MatchesAreEqualBytes(s: Search, c: seq<Byte>, d: seq<Byte>, m: Match, r: (nat, nat))
    requires s.Valid() && s.Recorded(m, r) && BlocksOf(s.f, c, s.bs) && BlocksOf(s.g, d, s.bs)
    ensures m.soff0 <= m.eoff0 < |c| && m.soff1 <= m.eoff1 < |d|
    ensures c[m.soff0..m.eoff0 + 1] == d[m.soff1..m.eoff1 + 1]
    ensures m.eoff0 - m.soff0 == m.eoff1 - m.soff1
  {
    hide s.IdOf, BlocksOf, BlockLen, s.Same, s.Within, s.Joined;
    RunsAreEqualBytes(s, c, d, r.0, r.1);
    assert |c[m.soff0..m.eoff0 + 1]| == |d[m.soff1..m.eoff1 + 1]|;
  }
}
