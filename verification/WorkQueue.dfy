/** The scan's work queue (src/file_scan.c, scan_workq_*): largest size class first, walk order within a class. */
module WorkQueue {
  import opened Options

  const FLOOR: nat := 0x10_0000
  const BUCKETS: nat := 64
  const WORD: nat := 0x1_0000_0000_0000_0000

  datatype Item = Item(id: nat, size: nat, resumeOff: nat) {
    /** The work left, which is what a file is queued by. */
    function Left(): int { size - resumeOff }
  }

  /** A resume offset lies inside its file, and sizes fit 64 bits. */
  type File = f: Item | f.resumeOff <= f.size < WORD witness Item(0, 0, 0)

  /** highest_set_bit(). */
  function HighestBit(x: nat): nat {
    if x < 2 then 0 else HighestBit(x / 2) + 1
  }

  /** scan_bucket(). */
  function Bucket(left: nat): nat {
    if left < FLOOR then 0
    else
      Powers();
      BitAtLeast(left, 20);
      HighestBit(left) - 19
  }

  function Pow2(n: nat): nat { if n == 0 then 1 else 2 * Pow2(n - 1) }

  lemma FourBits(n: nat)
    ensures Pow2(n + 4) == 16 * Pow2(n)
  {
    assert Pow2(n + 1) == 2 * Pow2(n);
    assert Pow2(n + 2) == 4 * Pow2(n);
    assert Pow2(n + 3) == 8 * Pow2(n);
  }

  lemma SixteenBits(n: nat)
    ensures Pow2(n + 16) == 0x1_0000 * Pow2(n)
  {
    hide Pow2;
    FourBits(n);
    FourBits(n + 4);
    FourBits(n + 8);
    FourBits(n + 12);
  }

  lemma Powers()
    ensures Pow2(20) == FLOOR && Pow2(64) == WORD
  {
    assert Pow2(0) == 1;
    hide Pow2;
    SixteenBits(0);
    FourBits(16);
    SixteenBits(16);
    SixteenBits(32);
    SixteenBits(48);
  }

  lemma {:induction false} BitBelow(x: nat, n: nat)
    requires x < Pow2(n)
    ensures HighestBit(x) < if n == 0 then 1 else n
  {
    if x >= 2 {
      BitBelow(x / 2, n - 1);
    }
  }

  lemma {:induction false} BitAtLeast(x: nat, n: nat)
    requires Pow2(n) <= x
    ensures n <= HighestBit(x)
  {
    if n > 0 {
      assert 1 <= Pow2(n - 1) by { PowPositive(n - 1); }
      BitAtLeast(x / 2, n - 1);
    }
  }

  lemma {:induction false} PowPositive(n: nat)
    ensures 1 <= Pow2(n)
  {
    if n > 0 {
      PowPositive(n - 1);
    }
  }

  /** Every 64-bit size has a bucket, and only sizes under the floor share the first. */
  lemma BucketRange(left: nat)
    requires left < WORD
    ensures Bucket(left) < BUCKETS
    ensures Bucket(left) == 0 <==> left < FLOOR
  {
    Powers();
    BitBelow(left, 64);
    if left >= FLOOR {
      BitAtLeast(left, 20);
    }
  }

  lemma {:induction false} BitHalf(x: nat, y: nat)
    requires 1 <= x && HighestBit(y) <= HighestBit(x)
    ensures y < 2 * x
  {
    if y >= 2 {
      BitHalf(x / 2, y / 2);
    }
  }

  /** A file in the same or a higher bucket has more than half the work of the other, or both are small. */
  lemma BucketHalf(x: nat, y: nat)
    requires x < WORD && y < WORD && Bucket(y) <= Bucket(x)
    ensures y < 2 * x || (x < FLOOR && y < FLOOR)
  {
    hide HighestBit;
    Powers();
    BucketRange(x);
    BucketRange(y);
    if x >= FLOOR {
      BitAtLeast(x, 20);
      if y >= FLOOR {
        BitAtLeast(y, 20);
        BitHalf(x, y);
      }
    }
  }

  // ---- What the queue holds ----

  type Fifos = q: seq<seq<File>> | |q| == BUCKETS witness seq(BUCKETS, _ => [])

  function BucketOf(f: File): (b: nat)
    ensures b < BUCKETS
  {
    BucketRange(f.Left());
    Bucket(f.Left())
  }

  function Pushed(q: Fifos, f: File): Fifos {
    q[BucketOf(f) := q[BucketOf(f)] + [f]]
  }

  predicate Empty(q: Fifos) { forall b :: 0 <= b < BUCKETS ==> q[b] == [] }

  function TopBelow(q: Fifos, n: nat): (b: nat)
    requires n <= BUCKETS && exists i :: 0 <= i < n && q[i] != []
    ensures b < n && q[b] != [] && forall i :: b < i < n ==> q[i] == []
  {
    if q[n - 1] != [] then n - 1 else TopBelow(q, n - 1)
  }

  function Top(q: Fifos): (b: nat)
    requires !Empty(q)
    ensures b < BUCKETS && q[b] != [] && forall i :: b < i < BUCKETS ==> q[i] == []
  {
    TopBelow(q, BUCKETS)
  }

  function Popped(q: Fifos): Fifos
    requires !Empty(q)
  {
    q[Top(q) := q[Top(q)][1..]]
  }

  /** Every file is in the FIFO of its own size class. */
  ghost predicate InClass(q: Fifos) {
    forall b, k :: 0 <= b < BUCKETS && 0 <= k < |q[b]| ==> BucketOf(q[b][k]) == b
  }

  /** No file still queued has twice the work of the one popped, unless both are small. */
  lemma LargestFirst(q: Fifos, b: nat, k: nat)
    requires InClass(q) && !Empty(q) && b < BUCKETS && k < |q[b]|
    ensures var f, g := q[Top(q)][0], q[b][k];
            g.size - g.resumeOff < 2 * (f.size - f.resumeOff)
            || (f.size - f.resumeOff < 0x10_0000 && g.size - g.resumeOff < 0x10_0000)
  {
    hide Bucket;
    var f, g := q[Top(q)][0], q[b][k];
    assert b <= Top(q);
    BucketHalf(f.Left(), g.Left());
  }

  // ---- The queue ----

  class ScanWorkq {
    const fifo: array<seq<File>>
    var occupied: set<nat>  // the bits of the occupancy mask
    var draining: bool

    ghost predicate Valid()
      reads this, fifo
    {
      && fifo.Length == BUCKETS && InClass(fifo[..])
      && forall b :: b in occupied <==> 0 <= b < BUCKETS && fifo[b] != []
    }

    constructor ()
      ensures Valid() && Empty(fifo[..]) && !draining
      ensures fresh(fifo)
    {
      fifo := new seq<File>[BUCKETS](_ => []);
      occupied, draining := {}, false;
    }

    /** scan_workq_push(). */
    method Push(f: File)
      requires Valid()
      modifies this`occupied, fifo
      ensures Valid() && fifo[..] == Pushed(old(fifo[..]), f)
    {
      hide Bucket;
      var b := BucketOf(f);
      assert b !in occupied ==> fifo[b] + [f] == [f];
      fifo[b] := if b in occupied then fifo[b] + [f] else [f];
      occupied := occupied + {b};
      assert fifo[..] == Pushed(old(fifo[..]), f);
    }

    /** The highest bit of the mask. */
    method HighestOccupied() returns (b: nat)
      requires Valid() && occupied != {}
      ensures !Empty(fifo[..]) && b == Top(fifo[..])
    {
      hide InClass;
      ghost var o :| o in occupied;
      assert fifo[..][o] != [];
      b := BUCKETS - 1;
      while b !in occupied
        invariant o <= b < BUCKETS && forall i :: b < i < BUCKETS ==> fifo[i] == []
        decreases b
      {
        b := b - 1;
      }
    }

    /** scan_workq_pop(), once there is work or the queue is draining; None ends the worker. */
    method Pop() returns (f: Option<File>)
      requires Valid() && (occupied != {} || draining)
      modifies this`occupied, fifo
      ensures Valid()
      ensures f == if Empty(old(fifo[..])) then None else Some(old(fifo[..])[Top(old(fifo[..]))][0])
      ensures fifo[..] == if Empty(old(fifo[..])) then old(fifo[..]) else Popped(old(fifo[..]))
    {
      if occupied == {} {
        return None;
      }
      var b := HighestOccupied();
      f := Some(fifo[b][0]);
      fifo[b] := fifo[b][1..];
      if fifo[b] == [] {
        occupied := occupied - {b};
      }
      assert fifo[..] == Popped(old(fifo[..]));
    }

    /** scan_workq_drain(): no more files come. */
    method Drain()
      modifies this`draining
      ensures draining
    {
      draining := true;
    }
  }

  // ---- Over a run ----

  datatype Op = Push(f: File) | Pop

  datatype Run = Run(q: Fifos, pushed: seq<File>, popped: seq<File>)

  function Start(): Run { Run(seq(BUCKETS, _ => []), [], []) }

  /** The lock makes every operation one step; a worker that finds nothing waits, or leaves. */
  function Step(r: Run, op: Op): Run {
    match op
    case Push(f) => Run(Pushed(r.q, f), r.pushed + [f], r.popped)
    case Pop => if Empty(r.q) then r else Run(Popped(r.q), r.pushed, r.popped + [r.q[Top(r.q)][0]])
  }

  function After(ops: seq<Op>, n: nat): Run
    requires n <= |ops|
  {
    if n == 0 then Start() else Step(After(ops, n - 1), ops[n - 1])
  }

  /** The files of one size class, in order. */
  function Class(s: seq<File>, b: nat): seq<File> {
    if s == [] then []
    else Class(s[..|s| - 1], b) + (if BucketOf(s[|s| - 1]) == b then [s[|s| - 1]] else [])
  }

  lemma ClassAdd(s: seq<File>, f: File, b: nat)
    ensures Class(s + [f], b) == Class(s, b) + (if BucketOf(f) == b then [f] else [])
  {
    assert (s + [f])[..|s|] == s;
  }

  /**
   * However pushes and pops interleave, each class is a FIFO: what was pushed is what was popped, followed
   * by what is queued, in that order.
   */
  lemma {:induction false} ClassesAreFifos(ops: seq<Op>, n: nat, b: nat)
    requires n <= |ops| && b < BUCKETS
    ensures var r := After(ops, n);
            InClass(r.q) && Class(r.pushed, b) == Class(r.popped, b) + r.q[b]
  {
    hide BucketOf, Class;
    if n == 0 {
      assert Class([], b) == [] by { NoneInClass(b); }
    } else {
      ClassesAreFifos(ops, n - 1, b);
      var r := After(ops, n - 1);
      match ops[n - 1]
      case Push(f) => ClassAdd(r.pushed, f, b);
      case Pop =>
        if !Empty(r.q) {
          ClassAdd(r.popped, r.q[Top(r.q)][0], b);
        }
    }
  }

  lemma NoneInClass(b: nat)
    ensures Class([], b) == []
  {
  }

  function Count(s: seq<File>, f: File): nat {
    if s == [] then 0 else Count(s[..|s| - 1], f) + (if s[|s| - 1] == f then 1 else 0)
  }

  lemma {:induction false} CountInClass(s: seq<File>, f: File)
    ensures Count(Class(s, BucketOf(f)), f) == Count(s, f)
  {
    hide BucketOf;
    if s != [] {
      var init, last := s[..|s| - 1], s[|s| - 1];
      assert s == init + [last];
      CountInClass(init, f);
      CountAdd(Class(init, BucketOf(f)), last, f);
      assert BucketOf(last) != BucketOf(f) ==> Class(s, BucketOf(f)) == Class(init, BucketOf(f));
    }
  }

  lemma CountAdd(s: seq<File>, g: File, f: File)
    ensures Count(s + [g], f) == Count(s, f) + (if g == f then 1 else 0)
  {
    assert (s + [g])[..|s|] == s;
  }

  /** A worker leaves when the queue is empty after the last push: by then every file was handed out once. */
  lemma DrainedIsDone(ops: seq<Op>, n: nat, f: File)
    requires n <= |ops| && Empty(After(ops, n).q)
    ensures Count(After(ops, n).popped, f) == Count(After(ops, n).pushed, f)
  {
    hide BucketOf, After, Class, Count;
    var r := After(ops, n);
    ClassesAreFifos(ops, n, BucketOf(f));
    assert Class(r.popped, BucketOf(f)) + [] == Class(r.popped, BucketOf(f));
    CountInClass(r.popped, f);
    CountInClass(r.pushed, f);
  }

  /** Every pop of a run takes the largest class there is. */
  lemma EveryPopLargest(ops: seq<Op>, n: nat, b: nat, k: nat)
    requires n < |ops| && ops[n].Pop? && b < BUCKETS && k < |After(ops, n).q[b]|
    ensures !Empty(After(ops, n).q)
    ensures var r, r' := After(ops, n), After(ops, n + 1);
            var f, g := r'.popped[|r'.popped| - 1], r.q[b][k];
            g.size - g.resumeOff < 2 * (f.size - f.resumeOff)
            || (f.size - f.resumeOff < 0x10_0000 && g.size - g.resumeOff < 0x10_0000)
  {
    hide BucketOf;
    ClassesAreFifos(ops, n, b);
    LargestFirst(After(ops, n).q, b, k);
  }
}
