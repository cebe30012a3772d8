/** However often a scan is killed and resumed, it stores what one uninterrupted scan stores. */
module ResumeProof {
  import opened Grid
  import opened Layout
  import opened Options
  import opened ScanSpec
  import opened ScanRows
  import opened Resume
  import opened ScanPass

  // ---- Rows only ever grow at the end ----

  /** Block rows of a longer stretch begin with those of a shorter one, and go on past it. */
  lemma {:induction false} BlocksPrefix(j: Job, a: nat, b: nat)
    requires j.Valid() && a <= b <= j.Size()
    ensures j.BlocksBelow(a) <= j.BlocksBelow(b)
    ensures Aligned(a, j.bs) ==>
              forall k :: |j.BlocksBelow(a)| <= k < |j.BlocksBelow(b)| ==> a <= j.BlocksBelow(b)[k].loff
    decreases b
  {
    hide j.Stored, Sorted;
    if a < b {
      var g := RoundDown(b - 1, j.bs);
      if g < a {
        assert a > 0;
        var h := RoundDown(a - 1, j.bs);
        if h < g { GridGap(h, g, j.bs); } else if g < h { GridGap(g, h, j.bs); }
        if Aligned(a, j.bs) { GridGap(g, a, j.bs); }
      } else {
        BlocksPrefix(j, a, g);
      }
    }
  }

  lemma BlockRowsPrefix(j: Job, a: nat, b: nat)
    requires j.Valid() && a <= b
    ensures j.BlockRows(a) <= j.BlockRows(b) <= j.BlockRows(j.Size())
  {
    hide j.BlocksBelow, Sorted;
    BlocksPrefix(j, Min(a, j.Size()), Min(b, j.Size()));
    BlocksPrefix(j, Min(b, j.Size()), j.Size());
  }

  // ---- What a resume removes ----

  lemma {:induction false} ExtentsAllBefore(rows: seq<ExtentRow>, loff: nat)
    requires forall k :: 0 <= k < |rows| ==> rows[k].loff < loff
    ensures ExtentsBefore(rows, loff) == rows
  {
    if rows != [] {
      ExtentsAllBefore(rows[1..], loff);
      assert rows == [rows[0]] + rows[1..];
    }
  }

  lemma {:induction false} BlocksSplit(rows: seq<BlockRow>, n: nat, loff: nat)
    requires n <= |rows|
    requires forall k :: 0 <= k < n ==> rows[k].loff < loff
    requires forall k :: n <= k < |rows| ==> loff <= rows[k].loff
    ensures BlocksBefore(rows, loff) == rows[..n]
  {
    if rows != [] {
      if n > 0 {
        BlocksSplit(rows[1..], n - 1, loff);
        assert rows[..n] == [rows[0]] + rows[1..][..n - 1];
      } else {
        BlocksSplit(rows[1..], 0, loff);
      }
    }
  }

  lemma DoneRowsBefore(j: Job, off: nat)
    requires j.Valid() && off <= j.Size()
    ensures forall k :: 0 <= k < |j.ExtentRows(off)| ==> j.ExtentRows(off)[k].loff < off
  {
    if !j.onlyWholeFiles {
      RowsExact(j, |j.recs|, off);
      var rows := j.ExtentRows(off);
      forall k | 0 <= k < |rows|
        ensures rows[k].loff < off
      {
        assert rows[k] in rows;
        var i :| 0 <= i < |j.recs| && DataBefore(j, i, off) && rows[k] == j.RowOf(j.recs[i]);
      }
    }
  }

  /** Rolling back to a checkpoint leaves exactly the rows of its offset, whatever had overflowed since. */
  lemma RollBack(j: Job, t: Table, loff: nat)
    requires j.Valid() && loff < j.Size() && j.OnGrid(loff)
    requires t.extents == j.ExtentRows(loff)
    requires j.BlockRows(loff) <= t.blocks <= j.BlockRows(j.Size())
    ensures RemoveFrom(t, loff) == t.(extents := j.ExtentRows(loff), blocks := j.BlockRows(loff))
  {
    hide Sorted, j.BlocksBelow, j.ExtentRows, BlocksExact;
    DoneRowsBefore(j, loff);
    ExtentsAllBefore(t.extents, loff);
    if j.blockHash {
      var a, all := j.BlocksBelow(loff), j.BlocksBelow(j.Size());
      BlocksPrefix(j, loff, j.Size());
      assert forall k :: 0 <= k < |a| ==> a[k].loff < loff by { BlockRowsExact(j, loff); RowsBelow(j, a, loff); }
      assert forall k :: 0 <= k < |t.blocks| ==> t.blocks[k] == all[k];
      assert forall k :: 0 <= k < |a| ==> a[k] == t.blocks[k];
      BlocksSplit(t.blocks, |a|, loff);
    } else {
      assert t.blocks == [];
    }
  }

  lemma RowsBelow(j: Job, rows: seq<BlockRow>, off: nat)
    requires j.Valid() && off <= j.Size() && BlocksExact(j, rows, off)
    ensures forall k :: 0 <= k < |rows| ==> rows[k].loff < off
  {
  }

  // ---- The invariant ----

  ghost function ExtAt(j: Job, off: nat): Option<ExtState>
    requires j.Valid()
  {
    if j.Progress(off).Some? then
      Some(ExtState(j.recs[j.At(off)].logical, j.recs[j.At(off)].length, j.Progress(off).value))
    else None
  }

  ghost predicate CheckpointOk(j: Job, cp: Checkpoint)
    requires j.Valid()
  {
    && 0 < cp.loff < j.Size() && cp.size == j.Size() && j.OnGrid(cp.loff)
    && j.Final(cp.loff, cp.stream) == j.Final(0, [])
    && cp.ext == ExtAt(j, cp.loff)
  }

  function Saved(t: Table): nat {
    if t.checkpoint.Some? then t.checkpoint.value.loff else 0
  }

  /** Rows and checkpoint agree; only block rows may run ahead of the checkpoint. */
  ghost predicate TableOk(j: Job, t: Table)
    requires j.Valid()
  {
    if t.digest.Some? then t == Reference(j)
    else
      && (t.checkpoint.Some? ==> CheckpointOk(j, t.checkpoint.value))
      && t.extents == j.ExtentRows(Saved(t))
      && j.BlockRows(Saved(t)) <= t.blocks <= j.BlockRows(j.Size())
      && (Inlined(j) ==> t.checkpoint.None? && t.blocks == [])
  }

  ghost predicate WorkerOk(j: Job, s: State)
    requires j.Valid()
  {
    s.worker.Hashing? ==>
      var w := s.worker;
      var p := Min(w.off, j.Size());
      && j.OnGrid(w.off) && j.Final(w.off, w.stream) == j.Final(0, [])
      && w.ext == j.Progress(p)
      && s.batch.digest.None?
      && s.batch.extents + w.stagedExtents == j.ExtentRows(p)
      && s.batch.blocks + w.stagedBlocks == j.BlockRows(w.off)
      && (Inlined(j) ==> w.off == 0 || w.off >= j.Size())
  }

  ghost predicate Inv(j: Job, s: State)
    requires j.Valid()
  {
    TableOk(j, s.committed) && TableOk(j, s.batch) && WorkerOk(j, s)
  }

  /** An inline file fits in a block, so it has at most one block row and no pass stops inside it. */
  ghost predicate InlineFits(j: Job) {
    Inlined(j) ==> j.Size() <= j.bs
  }

  lemma InlineOneRow(j: Job, off: nat)
    requires j.Valid() && j.Size() <= j.bs
    ensures |j.BlockRows(off)| <= 1
  {
    hide j.Stored;
    var p := Min(off, j.Size());
    if p > 0 {
      var g := RoundDown(p - 1, j.bs);
      assert g == 0;
      assert j.BlocksBelow(0) == [];
    }
  }

  lemma InlineOnePass(j: Job)
    requires j.Valid() && 0 < j.Size() <= j.bs
    ensures j.Advance(0) >= j.Size()
  {
    if !j.HoleBlock(0) {
      var b := RoundUp(j.recs[j.At(0)].End(), j.bs);
      GridGap(0, b, j.bs);
      if j.ActionAt(0).Fake? {
        GridGap(0, j.FakeLen(), j.bs);
      }
    } else if j.At(0) < |j.recs| {
      assert Aligned(j.HoleRun(0), j.bs);
    }
  }

  lemma {:induction false} NoRowsAtStart(j: Job, n: nat)
    requires j.Valid() && n <= |j.recs|
    ensures j.RowsOf(n, 0) == []
  {
    if n > 0 {
      NoRowsAtStart(j, n - 1);
      assert j.recs[n - 1].length > 0;
    }
  }

  lemma NothingAtStart(j: Job)
    requires j.Valid()
    ensures j.ExtentRows(0) == [] && j.BlockRows(0) == [] && j.Progress(0) == None
  {
    NoRowsAtStart(j, |j.recs|);
  }

  // ---- Every step keeps it ----

  /** The layout always backs a checkpoint of this version: adopt_resume() never declines one. */
  lemma NeverDeclined(j: Job, cp: Checkpoint)
    requires j.Valid() && CheckpointOk(j, cp)
    ensures Adopted(j, cp)
  {
  }

  lemma StartKeeps(j: Job, s: State)
    requires j.Valid() && Inv(j, s) && Enabled(j, s, Start)
    ensures Inv(j, Begin(j, s))
  {
    hide j.ExtentRows, j.BlockRows, j.Progress, Reference, Sorted, Reaching;
    NothingAtStart(j);
    BlockRowsPrefix(j, 0, j.Size());
    if s.batch.checkpoint.Some? {
      var cp := s.batch.checkpoint.value;
      NeverDeclined(j, cp);
      RollBack(j, s.batch, cp.loff);
      BlockRowsPrefix(j, cp.loff, j.Size());
    }
  }

  lemma PassAddsBlocks(j: Job, s: State)
    requires j.Valid() && WorkerOk(j, s) && s.worker.Hashing? && s.worker.off < j.Size()
    ensures s.batch.blocks + NewBlocks(j, s.worker) == j.BlockRows(s.worker.off + j.Advance(s.worker.off))
    ensures s.batch.digest.None?
  {
    hide j.ExtentRows, j.BlockRows, j.Progress, Sorted, j.ActionAt, j.Final, j.Advance, j.Fed, PassBlocks;
    var w := s.worker;
    PassBlocksRight(j, w.off);
    assert s.batch.blocks + w.stagedBlocks + PassBlocks(j, w.off) == s.batch.blocks + NewBlocks(j, w);
  }

  /** Block rows may be added to a table ahead of its checkpoint. */
  lemma TableGrows(j: Job, t: Table, blocks: seq<BlockRow>)
    requires j.Valid() && TableOk(j, t) && t.digest.None? && t.blocks <= blocks <= j.BlockRows(j.Size())
    requires Inlined(j) ==> blocks == []
    ensures TableOk(j, t.(blocks := blocks))
  {
    hide j.ExtentRows, j.BlockRows, Reference, CheckpointOk, Inlined;
  }

  lemma PartOf(a: seq<BlockRow>, b: seq<BlockRow>, n: nat)
    requires n <= |b|
    ensures a <= a + b[..n] <= a + b
  {
  }

  /** An inline file's one block row cannot have overflowed. */
  lemma InlineFlushesNothing(j: Job, s: State, flushed: nat)
    requires j.Valid() && InlineFits(j) && Inlined(j) && Inv(j, s) && Enabled(j, s, Pass(flushed))
    requires s.batch.blocks + NewBlocks(j, s.worker) == j.BlockRows(s.worker.off + j.Advance(s.worker.off))
    requires s.batch.digest.None?
    ensures flushed == 0 && s.batch.blocks == []
  {
    hide j.ExtentRows, j.BlockRows, Reference, CheckpointOk, NewBlocks, WorkerOk, j.Advance;
    InlineOneRow(j, s.worker.off + j.Advance(s.worker.off));
  }

  lemma PassTable(j: Job, s: State, flushed: nat)
    requires j.Valid() && InlineFits(j) && Inv(j, s) && Enabled(j, s, Pass(flushed))
    ensures s.batch.blocks + NewBlocks(j, s.worker) == j.BlockRows(s.worker.off + j.Advance(s.worker.off))
    ensures TableOk(j, AfterPass(j, s, flushed).batch)
  {
    hide j.BlockRows, j.Advance, j.Fed, NewBlocks, PassExtents, WorkerOk, TableOk, Inlined, InlineFits;
    PassAddsBlocks(j, s);
    BlockRowsPrefix(j, s.worker.off, s.worker.off + j.Advance(s.worker.off));
    PartOf(s.batch.blocks, NewBlocks(j, s.worker), flushed);
    if Inlined(j) {
      InlineFlushesNothing(j, s, flushed);
    }
    TableGrows(j, s.batch, s.batch.blocks + NewBlocks(j, s.worker)[..flushed]);
  }

  lemma PassWorker(j: Job, s: State, flushed: nat)
    requires j.Valid() && InlineFits(j) && Inv(j, s) && Enabled(j, s, Pass(flushed))
    requires s.batch.blocks + NewBlocks(j, s.worker) == j.BlockRows(s.worker.off + j.Advance(s.worker.off))
    ensures WorkerOk(j, AfterPass(j, s, flushed))
  {
    hide j.ExtentRows, j.BlockRows, j.Progress, Reference, Sorted, Reaching, j.ActionAt, CheckpointOk, j.Advance,
         j.Fed, TableOk,
         NewBlocks, PassExtents;
    var w := s.worker;
    j.PassAdvances(w.off);
    PassExtentsRight(j, w.off);
    assert s.batch.extents + (w.stagedExtents + PassExtents(j, w.off, w.ext).0)
           == s.batch.extents + w.stagedExtents + PassExtents(j, w.off, w.ext).0;
    var blocks := NewBlocks(j, w);
    assert s.batch.blocks + blocks[..flushed] + blocks[flushed..] == s.batch.blocks + blocks;
    if Inlined(j) {
      InlineOnePass(j);
    }
  }

  lemma PassKeeps(j: Job, s: State, flushed: nat)
    requires j.Valid() && InlineFits(j) && Inv(j, s) && Enabled(j, s, Pass(flushed))
    ensures Inv(j, AfterPass(j, s, flushed))
  {
    hide TableOk, WorkerOk, NewBlocks, PassExtents, j.Advance, j.Fed, j.BlockRows;
    PassTable(j, s, flushed);
    PassWorker(j, s, flushed);
  }

  lemma SaveKeeps(j: Job, s: State)
    requires j.Valid() && Inv(j, s) && Enabled(j, s, Save)
    ensures Inv(j, AfterSave(j, s))
  {
    hide j.ExtentRows, j.BlockRows, Reference, Sorted, Reaching;
    BlockRowsPrefix(j, s.worker.off, j.Size());
  }

  lemma FinishKeeps(j: Job, s: State)
    requires j.Valid() && Inv(j, s) && Enabled(j, s, Finish)
    ensures Inv(j, AfterFinish(j, s))
  {
    hide j.ExtentRows, j.BlockRows, j.Progress, Sorted, Reaching, CheckpointOk;
  }

  lemma StepKeeps(j: Job, s: State, step: Step)
    requires j.Valid() && InlineFits(j) && Inv(j, s) && Enabled(j, s, step)
    ensures Inv(j, Apply(j, s, step))
  {
    hide TableOk;
    match step
    case Start => StartKeeps(j, s);
    case Pass(flushed) => PassKeeps(j, s, flushed);
    case Save => SaveKeeps(j, s);
    case Commit =>
    case Kill =>
    case Finish => FinishKeeps(j, s);
  }

  lemma {:induction false} RunKeeps(j: Job, states: seq<State>, steps: seq<Step>, n: nat)
    requires j.Valid() && InlineFits(j) && IsRun(j, states, steps) && n <= |steps|
    ensures Inv(j, states[n])
  {
    hide Inv, Enabled;
    if n == 0 {
      assert Inv(j, states[0]) by { InitInv(j); }
    } else {
      RunKeeps(j, states, steps, n - 1);
      StepKeeps(j, states[n - 1], steps[n - 1]);
    }
  }

  lemma InitInv(j: Job)
    requires j.Valid()
    ensures Inv(j, State(EMPTY, EMPTY, Idle))
  {
    NothingAtStart(j);
    BlockRowsPrefix(j, 0, j.Size());
  }

  // ---- The theorem ----

  ghost predicate NoDuplicates(t: Table) {
    && (forall k, l :: 0 <= k < l < |t.extents| ==> t.extents[k].loff < t.extents[l].loff)
    && (forall k, l :: 0 <= k < l < |t.blocks| ==> t.blocks[k].loff < t.blocks[l].loff)
  }

  lemma RowsDistinct(j: Job, t: Table)
    requires j.Valid() && TableOk(j, t)
    ensures NoDuplicates(t)
  {
    hide CheckpointOk, Sorted, BlocksExact, j.Final;
    assert Increasing(t.extents) by {
      if !j.onlyWholeFiles { RowsExact(j, |j.recs|, if t.digest.Some? then j.Size() else Saved(t)); }
    }
    BlockRowsExact(j, j.Size());
    BlocksDistinct(j, j.BlocksBelow(j.Size()), j.Size());
    if t.digest.None? {
      assert forall k :: 0 <= k < |t.blocks| ==> t.blocks[k] == j.BlockRows(j.Size())[k];
    }
  }

  lemma BlocksDistinct(j: Job, rows: seq<BlockRow>, off: nat)
    requires j.Valid() && off <= j.Size() && BlocksExact(j, rows, off)
    ensures forall k, l :: 0 <= k < l < |rows| ==> rows[k].loff < rows[l].loff
  {
  }

  /**
   * After any sequence of kills, commits, checkpoints and resumes: a file whose digest is stored has exactly
   * the rows and the digest of one uninterrupted scan, no row is ever there twice, and no checkpoint is ever
   * declined.
   */
  lemma KillsDoNotShow(j: Job, states: seq<State>, steps: seq<Step>, n: nat)
    requires j.Valid() && InlineFits(j) && IsRun(j, states, steps) && n <= |steps|
    ensures states[n].batch.digest.Some? ==> states[n].batch == Reference(j)
    ensures states[n].committed.digest.Some? ==> states[n].committed == Reference(j)
    ensures NoDuplicates(states[n].batch) && NoDuplicates(states[n].committed)
    ensures states[n].batch.checkpoint.Some? ==>
              Usable(j, states[n].batch) && Adopted(j, states[n].batch.checkpoint.value)
  {
    RunKeeps(j, states, steps, n);
    hide Reference, j.ExtentRows, j.BlockRows, IsRun, NoDuplicates, Adopted;
    RowsDistinct(j, states[n].batch);
    RowsDistinct(j, states[n].committed);
    if states[n].batch.checkpoint.Some? {
      NeverDeclined(j, states[n].batch.checkpoint.value);
    }
  }

  /** Left alone from any state of such a run, the worker's passes end, and finish with the reference rows. */
  lemma {:induction false} LeftAlone(j: Job, s: State)
    requires j.Valid() && InlineFits(j) && Inv(j, s) && s.worker.Hashing?
    requires j.Final(0, []).0 == j.Size()
    ensures RunOut(j, s).batch == Reference(j)
    decreases j.Size() - s.worker.off
  {
    hide Inv, Reference, AfterPass;
    assert WorkerOk(j, s) by { InvParts(j, s); }
    if s.worker.off < j.Size() {
      j.PassAdvances(s.worker.off);
      PassKeeps(j, s, 0);
      PassMoves(j, s);
      LeftAlone(j, AfterPass(j, s, 0));
    } else {
      FinishReference(j, s);
    }
  }

  lemma InvParts(j: Job, s: State)
    requires j.Valid() && Inv(j, s)
    ensures TableOk(j, s.batch) && WorkerOk(j, s)
  {
  }

  lemma PassMoves(j: Job, s: State)
    requires j.Valid() && s.worker.Hashing? && s.worker.off < j.Size()
    ensures var t := AfterPass(j, s, 0);
            t.worker.Hashing? && t.worker.off == s.worker.off + j.Advance(s.worker.off)
  {
  }

  lemma FinishReference(j: Job, s: State)
    requires j.Valid() && Inv(j, s) && s.worker.Hashing? && s.worker.off >= j.Size()
    requires j.Final(0, []).0 == j.Size()
    ensures AfterFinish(j, s).batch == Reference(j)
  {
    hide j.ExtentRows, j.BlockRows, j.Progress, Sorted, Reaching, CheckpointOk;
  }

  ghost function RunOut(j: Job, s: State): State
    requires j.Valid() && s.worker.Hashing? && j.OnGrid(s.worker.off)
    decreases j.Size() - s.worker.off
  {
    if s.worker.off >= j.Size() then AfterFinish(j, s)
    else
      j.PassAdvances(s.worker.off);
      RunOut(j, AfterPass(j, s, 0))
  }
}
