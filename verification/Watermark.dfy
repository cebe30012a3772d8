/** How far the durable watermark moves while a run streams its windows (src/oans.c). */
module Watermark {
  import opened Windows
  import opened Convergence

  /** The end of the window that begins at `lo`. */
  function WindowEnd(lo: nat, max: nat, stride: nat): nat {
    if lo + stride < max then lo + stride else max
  }

  ghost predicate Stride(cuts: seq<nat>, w: nat, max: nat, stride: nat) {
    w + 1 < |cuts| && cuts[w] < max && cuts[w + 1] == WindowEnd(cuts[w], max, stride)
  }

  /** The windows (cuts[w], cuts[w + 1]] that steps of `stride` make of (first, max]. */
  ghost predicate Strides(cuts: seq<nat>, max: nat, stride: nat) {
    |cuts| > 0 && forall w: nat :: w < |cuts| - 1 ==> Stride(cuts, w, max, stride)
  }

  lemma StridesSplit(cuts: seq<nat>, max: nat, stride: nat)
    requires Strides(cuts, max, stride) && stride > 0
    ensures Split(cuts)
  {
    forall i | 0 < i < |cuts|
      ensures cuts[i - 1] < cuts[i]
    {
      assert Stride(cuts, i - 1, max, stride);
    }
  }

  lemma OneMore(cuts: seq<nat>, max: nat, stride: nat)
    requires Strides(cuts, max, stride) && cuts[|cuts| - 1] < max
    ensures Strides(cuts + [WindowEnd(cuts[|cuts| - 1], max, stride)], max, stride)
  {
    var cuts' := cuts + [WindowEnd(cuts[|cuts| - 1], max, stride)];
    forall w: nat | w < |cuts'| - 1
      ensures Stride(cuts', w, max, stride)
    {
      assert w < |cuts| - 1 ==> Stride(cuts, w, max, stride);
    }
  }

  /** The first window whose load failed, or n. */
  function FirstFailed(loads: nat -> bool, n: nat): (f: nat)
    ensures f <= n && (f < n ==> !loads(f)) && forall w :: 0 <= w < f ==> loads(w)
  {
    if n == 0 then 0
    else
      var f := FirstFailed(loads, n - 1);
      if f < n - 1 then f else if loads(n - 1) then n else n - 1
  }

  function Min(a: nat, b: nat): nat { if a < b then a else b }

  function Max(a: nat, b: nat): nat { if a < b then b else a }

  /** How many batches the w-th turn, or the end of the phase, finds complete, of those loaded by then. */
  function Complete(reaps: nat -> nat, w: nat, n: nat): nat {
    Min(reaps(w), Min(w + 1, n))
  }

  /** The most any of the first t turns found. */
  ghost predicate IsMost(reaps: nat -> nat, reaped: nat, t: nat, n: nat) {
    && (forall w: nat :: w < t ==> Complete(reaps, w, n) <= reaped)
    && (reaped == 0 || exists w: nat :: w < t && reaped == Complete(reaps, w, n))
  }

  lemma OneTurnMore(reaps: nat -> nat, reaped: nat, t: nat)
    requires IsMost(reaps, reaped, t, t)
    ensures IsMost(reaps, Max(reaped, Min(reaps(t), t + 1)), t + 1, t + 1)
  {
    var n := t + 1;
    forall w: nat | w < t
      ensures Complete(reaps, w, n) <= reaped
    {
      assert Complete(reaps, w, t) <= reaped;
    }
    assert Complete(reaps, t, t + 1) == Min(reaps(t), t + 1);
    if reaped > 0 {
      var w: nat :| w < t && reaped == Complete(reaps, w, t);
      assert Complete(reaps, w, t + 1) == reaped;
    }
  }

  lemma LastTurn(reaps: nat -> nat, reaped: nat, n: nat)
    requires IsMost(reaps, reaped, n, n)
    ensures IsMost(reaps, Max(reaped, Min(reaps(n), n)), n + 1, n)
  {
    assert Complete(reaps, n, n) == Min(reaps(n), n);
  }

  /** Each window is a stride long, but for the last, which ends at the last generation. */
  lemma StridesExact(cuts: seq<nat>, max: nat, stride: nat, w: nat)
    requires Strides(cuts, max, stride) && w + 1 < |cuts|
    ensures cuts[w + 1] <= max
    ensures cuts[w + 1] == cuts[w] + stride || (cuts[w + 1] == max && max < cuts[w] + stride)
  {
    assert Stride(cuts, w, max, stride);
  }

  class DedupePhase {
    var dedupeSeq: nat
    var loadFailedAny: bool
    var loadFailedAt: nat

    constructor (dedupeSeq: nat)
      ensures this.dedupeSeq == dedupeSeq && !loadFailedAny
    {
      this.dedupeSeq := dedupeSeq;
      loadFailedAny, loadFailedAt := false, 0;
    }

    /** dedupe_advance_seq(): a batch up to `hi` was reaped; never past a window that did not load. */
    method AdvanceSeq(hi: nat)
      modifies this`dedupeSeq
      ensures var to := if loadFailedAny && hi > loadFailedAt then loadFailedAt else hi;
              dedupeSeq == if to <= old(dedupeSeq) then old(dedupeSeq) else to
    {
      var to := hi;
      if loadFailedAny && to > loadFailedAt {
        to := loadFailedAt;
      }
      if to <= dedupeSeq {
        return;
      }
      dedupeSeq := to;
    }

    /** load_failed() */
    method LoadFailed(lo: nat)
      modifies this`loadFailedAny, this`loadFailedAt
      ensures loadFailedAny
      ensures loadFailedAt == if !old(loadFailedAny) || lo < old(loadFailedAt) then lo else old(loadFailedAt)
    {
      if !loadFailedAny || lo < loadFailedAt {
        loadFailedAt := lo;
      }
      loadFailedAny := true;
    }

    /** After `loaded` windows, `reaped` of which are done: where the watermark and the failure stand. */
    ghost predicate At(cuts: seq<nat>, loads: nat -> bool, reaped: nat, loaded: nat)
      reads this
      requires loaded < |cuts|
    {
      var f := FirstFailed(loads, loaded);
      && (loadFailedAny <==> f < loaded) && (loadFailedAny ==> loadFailedAt == cuts[f])
      && reaped <= loaded && dedupeSeq == cuts[Min(reaped, f)]
    }

    /** Reaping the next batch, in generation order. */
    method ReapOne(ghost cuts: seq<nat>, loads: nat -> bool, reaped: nat, ghost loaded: nat, hi: nat)
      requires Split(cuts) && reaped < loaded < |cuts| && At(cuts, loads, reaped, loaded) && hi == cuts[reaped + 1]
      modifies this`dedupeSeq
      ensures At(cuts, loads, reaped + 1, loaded)
    {
      ghost var f := FirstFailed(loads, loaded);
      CutsRise(cuts, Min(reaped, f), reaped + 1);
      CutsRise(cuts, Min(reaped, f), f);
      if f <= reaped { CutsRise(cuts, f, reaped + 1); } else { CutsRise(cuts, reaped + 1, f); }
      AdvanceSeq(hi);
    }

    /** The callback for every batch complete by now. */
    method ReapUpTo(cuts: seq<nat>, loads: nat -> bool, reaped: nat, limit: nat) returns (reaped': nat)
      requires Split(cuts) && At(cuts, loads, reaped, |cuts| - 1)
      modifies this`dedupeSeq
      ensures At(cuts, loads, reaped', |cuts| - 1)
      ensures reaped' == Max(reaped, Min(limit, |cuts| - 1))
    {
      hide FirstFailed, Split;
      reaped' := reaped;
      while reaped' < |cuts| - 1 && reaped' < limit
        invariant At(cuts, loads, reaped', |cuts| - 1)
        invariant reaped <= reaped' <= Max(reaped, limit)
      {
        ReapOne(cuts, loads, reaped', |cuts| - 1, cuts[reaped' + 1]);
        reaped' := reaped' + 1;
      }
    }

    /** stream_load_batch(): one more window, whose load may fail. */
    method Load(cuts: seq<nat>, loads: nat -> bool, ghost reaped: nat, hi: nat) returns (cuts': seq<nat>)
      requires Split(cuts) && At(cuts, loads, reaped, |cuts| - 1)
      modifies this`loadFailedAny, this`loadFailedAt
      ensures cuts' == cuts + [hi] && At(cuts', loads, reaped, |cuts|)
    {
      cuts' := cuts + [hi];
      CutsRise(cuts, FirstFailed(loads, |cuts| - 1), |cuts| - 1);
      if !loads(|cuts| - 1) {
        LoadFailed(cuts[|cuts| - 1]);
      }
    }

    /**
     * stream_duplicates(): loads window after window. `loads` says which loads succeed, `reaps` how many
     * batches are complete by the end of each turn, `stop` at which window the run is interrupted. The
     * watermark ends at the last window that is complete with every window before it loaded: exactly the batches
     * found complete are reaped, and a run that is not interrupted, loads all and finds all complete at the end
     * leaves it at the last generation.
     */
    method Stream(max: nat, stride: nat, loads: nat -> bool, reaps: nat -> nat, stop: nat)
      returns (ok: bool, cuts: seq<nat>, reaped: nat)
      requires stride > 0 && !loadFailedAny
      modifies this
      ensures Strides(cuts, max, stride) && cuts[0] == old(dedupeSeq) && reaped < |cuts|
      ensures |cuts| - 1 <= stop && (|cuts| - 1 < stop ==> cuts[|cuts| - 1] >= max)
      ensures dedupeSeq == cuts[Min(reaped, FirstFailed(loads, |cuts| - 1))]
      ensures ok <==> FirstFailed(loads, |cuts| - 1) == |cuts| - 1
      ensures IsMost(reaps, reaped, |cuts|, |cuts| - 1)
      ensures ok && |cuts| - 1 < stop && reaps(|cuts| - 1) >= |cuts| - 1 ==>
                dedupeSeq == if old(dedupeSeq) < max then max else old(dedupeSeq)
    {
      hide FirstFailed, Split, Strides, IsMost, Complete, Stride;
      var i := dedupeSeq;
      cuts, reaped := [i], 0;
      assert Strides(cuts, max, stride) by { OneCut(i, max, stride); }
      assert At(cuts, loads, 0, 0);
      assert IsMost(reaps, 0, 0, 0) by { NoTurns(reaps); }
      while i < max
        invariant Strides(cuts, max, stride) && |cuts| > 0 && cuts[0] == old(dedupeSeq)
        invariant |cuts| - 1 <= stop && (i == cuts[|cuts| - 1] || max == cuts[|cuts| - 1] <= i)
        invariant At(cuts, loads, reaped, |cuts| - 1)
        invariant IsMost(reaps, reaped, |cuts| - 1, |cuts| - 1)
        decreases max - i
      {
        if |cuts| - 1 == stop {
          break;
        }
        StridesSplit(cuts, max, stride);
        OneMore(cuts, max, stride);
        cuts := Load(cuts, loads, reaped, if i + stride < max then i + stride else max);
        StridesSplit(cuts, max, stride);
        OneTurnMore(reaps, reaped, |cuts| - 2);
        reaped := ReapUpTo(cuts, loads, reaped, reaps(|cuts| - 2));
        i := i + stride;
      }
      StridesSplit(cuts, max, stride);
      LastTurn(reaps, reaped, |cuts| - 1);
      reaped := ReapUpTo(cuts, loads, reaped, reaps(|cuts| - 1));
      StridesEnd(cuts, max, stride);
      ok := !loadFailedAny;
    }
  }

  lemma StridesEnd(cuts: seq<nat>, max: nat, stride: nat)
    requires Strides(cuts, max, stride)
    ensures |cuts| > 1 ==> cuts[0] < max && cuts[|cuts| - 1] <= max
  {
    if |cuts| > 1 {
      assert Stride(cuts, 0, max, stride);
      StridesExact(cuts, max, stride, |cuts| - 2);
    }
  }

  lemma NoTurns(reaps: nat -> nat)
    ensures IsMost(reaps, 0, 0, 0)
  {
  }

  lemma OneCut(i: nat, max: nat, stride: nat)
    ensures Strides([i], max, stride)
  {
  }

  /**
   * Whatever loads failed and wherever the run stopped: if the windows that were loaded and reaped made all
   * their moves, the hashfile is converged at the watermark the run leaves.
   */
  lemma WatermarkIsSafe(t: Files, s: Storage, cuts: seq<nat>, max: nat, stride: nat, loads: nat -> bool, reaped: nat,
                        moves: seq<Move>)
    requires Strides(cuts, max, stride) && stride > 0 && reaped < |cuts|
    requires Converged(t, s, cuts[0]) && MovesOf(t, cuts, moves)
    requires forall w, m ::
               0 <= w < reaped && loads(w) && WindowMoves(t, cuts[w], cuts[w + 1], cuts[0], m) ==> m in moves
    ensures Converged(t, Exec(s, moves), cuts[Min(reaped, FirstFailed(loads, |cuts| - 1))])
  {
    hide WindowMoves, Exec, Converged, MovesOf, Strides, Split;
    StridesSplit(cuts, max, stride);
    RunConverges(t, s, cuts, Min(reaped, FirstFailed(loads, |cuts| - 1)), moves);
  }
}
