/** What resuming is for: over any run, work that a checkpoint has claimed is not done again. */
module ResumeProgress {
  import opened Layout
  import opened Options
  import opened ScanSpec
  import opened Resume
  import opened ResumeProof

  /** How far the file is claimed, in the hashfile, in the batch, and by the worker. */
  ghost predicate Claims(s: State) {
    && (s.batch.digest.None? ==> s.committed.digest.None? && Saved(s.committed) <= Saved(s.batch))
    && (s.worker.Hashing? ==> s.batch.digest.None? && Saved(s.batch) <= s.worker.off)
  }

  lemma StepClaims(j: Job, s: State, step: Step)
    requires j.Valid() && Inv(j, s) && Enabled(j, s, step) && Claims(s)
    ensures Claims(Apply(j, s, step))
    ensures Apply(j, s, step).committed.digest.None? ==>
              s.committed.digest.None? && Saved(s.committed) <= Saved(Apply(j, s, step).committed)
  {
    hide j.ExtentRows, j.BlockRows, j.Progress, Reference, NewBlocks, j.Advance, j.Fed, Inv;
    if step.Start? {
      TakesUpWhereSaved(j, s);
    }
  }

  /** Taking a file up goes on at the checkpoint, if there is one. */
  lemma TakesUpWhereSaved(j: Job, s: State)
    requires j.Valid() && Inv(j, s) && Enabled(j, s, Start)
    ensures var s' := Apply(j, s, Start);
            && s'.worker.Hashing? && s'.worker.off == Saved(s.batch) == Saved(s'.batch)
            && s'.committed == s.committed && s'.batch.digest.None?
  {
    hide j.ExtentRows, j.BlockRows, j.Progress, Reference;
    if s.batch.checkpoint.Some? {
      NeverDeclined(j, s.batch.checkpoint.value);
    }
  }

  lemma {:induction false} RunClaims(j: Job, states: seq<State>, steps: seq<Step>, n: nat)
    requires j.Valid() && InlineFits(j) && IsRun(j, states, steps) && n <= |steps|
    ensures Claims(states[n])
  {
    hide Inv, Enabled, Claims, Apply;
    if n > 0 {
      RunClaims(j, states, steps, n - 1);
      RunKeeps(j, states, steps, n - 1);
      StepClaims(j, states[n - 1], steps[n - 1]);
    } else {
      assert Claims(states[0]) by { InitClaims(); }
    }
  }

  lemma InitClaims()
    ensures Claims(State(EMPTY, EMPTY, Idle))
  {
  }

  /** Whenever a run takes the file up, the worker begins where the last checkpoint was. */
  lemma ResumesWhereSaved(j: Job, states: seq<State>, steps: seq<Step>, n: nat)
    requires j.Valid() && InlineFits(j) && IsRun(j, states, steps) && n < |steps| && steps[n].Start?
    ensures states[n + 1].worker.Hashing? && states[n + 1].worker.off == Saved(states[n].batch)
  {
    hide Inv, Apply;
    RunKeeps(j, states, steps, n);
    TakesUpWhereSaved(j, states[n]);
  }

  /** A checkpoint claims all that has been hashed, and is in the hashfile at once. */
  lemma SavesAll(j: Job, states: seq<State>, steps: seq<Step>, n: nat)
    requires j.Valid() && IsRun(j, states, steps) && n < |steps| && steps[n].Save?
    ensures states[n].worker.Hashing? && Saved(states[n + 1].committed) == states[n].worker.off > 0
    ensures states[n + 1].worker.Hashing? && states[n + 1].worker.off == states[n].worker.off
  {
  }

  /** What the hashfile claims never becomes less, until the file is finished; then it stays finished. */
  lemma {:induction false} NeverFalls(j: Job, states: seq<State>, steps: seq<Step>, i: nat, n: nat)
    requires j.Valid() && InlineFits(j) && IsRun(j, states, steps) && i <= n <= |steps|
    ensures states[n].committed.digest.None? ==>
              states[i].committed.digest.None? && Saved(states[i].committed) <= Saved(states[n].committed)
    decreases n
  {
    hide Inv, Enabled, Claims, Apply;
    if i < n {
      NeverFalls(j, states, steps, i, n - 1);
      RunKeeps(j, states, steps, n - 1);
      RunClaims(j, states, steps, n - 1);
      StepClaims(j, states[n - 1], steps[n - 1]);
    }
  }

  /**
   * So a kill costs only the passes since the last checkpoint: whatever happens after one at step i, a worker
   * that takes the file up at step n begins at or past where that one was, the hashfile not having the digest.
   */
  lemma KillCosts(j: Job, states: seq<State>, steps: seq<Step>, i: nat, n: nat)
    requires j.Valid() && InlineFits(j) && IsRun(j, states, steps) && i < n < |steps|
    requires steps[i].Save? && steps[n].Start?
    ensures states[i].worker.Hashing? && states[n + 1].worker.Hashing?
    ensures states[i].worker.off <= states[n + 1].worker.off
  {
    hide Inv, Apply, TableOk, WorkerOk;
    SavesAll(j, states, steps, i);
    RunClaims(j, states, steps, n);
    NeverFalls(j, states, steps, i + 1, n);
    ResumesWhereSaved(j, states, steps, n);
  }

  /** And once a finished file is committed, nothing that is killed or resumed later takes it back. */
  lemma FinishedForGood(j: Job, states: seq<State>, steps: seq<Step>, i: nat, n: nat)
    requires j.Valid() && InlineFits(j) && IsRun(j, states, steps) && i < n <= |steps|
    requires steps[i].Commit? && states[i].batch.digest.Some?
    ensures states[n].committed == Reference(j)
  {
    hide Inv, Reference;
    assert states[i + 1].committed == states[i].batch;
    NeverFalls(j, states, steps, i + 1, n);
    KillsDoNotShow(j, states, steps, n);
  }

  // ---- When the file is not what it was ----

  /** A record of the map in whose middle the offset lies. */
  predicate Inside(e: Rec, off: nat) { e.logical < off < e.logical + e.length }

  /**
   * Whatever the map is now, a checkpoint is adopted exactly if the digest it has in progress is of a record that
   * is still there and reaches over its offset; or, if it has none, no data record reaches over it, unless extents
   * are not hashed at all.
   */
  lemma AdoptedExactly(j: Job, cp: Checkpoint)
    requires j.Valid()
    ensures Adopted(j, cp) <==>
            if cp.ext.Some? then
              exists i :: 0 <= i < |j.recs| && Inside(j.recs[i], cp.loff)
                          && j.recs[i].logical == cp.ext.value.loff && j.recs[i].length == cp.ext.value.len
            else
              j.onlyWholeFiles
              || forall i :: 0 <= i < |j.recs| && Inside(j.recs[i], cp.loff) ==> j.recs[i].inline || j.recs[i].unwritten
  {
    var i := j.At(cp.loff);
    assert i < |j.recs| && j.recs[i].logical < cp.loff ==> Inside(j.recs[i], cp.loff);
    forall k | 0 <= k < |j.recs| && Inside(j.recs[k], cp.loff)
      ensures k == i
    {
      InsideIsAt(j, cp.loff, k);
    }
  }

  lemma InsideIsAt(j: Job, off: nat, k: nat)
    requires j.Valid() && k < |j.recs| && Inside(j.recs[k], off)
    ensures j.At(off) == k
  {
    ReachingUnique(j.recs, off, k);
  }

  /** If it is not, or the file's size has changed, or the checkpoint is not in the file, all starts anew. */
  lemma ChangedStartsOver(j: Job, s: State)
    requires j.Valid() && s.worker.Idle? && s.batch.digest.None? && s.batch.checkpoint.Some?
    requires var cp := s.batch.checkpoint.value;
             !Adopted(j, cp) || cp.size != j.Size() || cp.loff == 0 || cp.loff >= j.Size()
    ensures Apply(j, s, Start) == State(s.committed, EMPTY, Hashing(0, [], None, [], []))
  {
  }
}
