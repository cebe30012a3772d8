/** The worker of Resume as the loop of ScanLoop: what the loop makes of the state a resume leaves. */
module ResumeLoop {
  import opened Options
  import opened ScanSpec
  import opened ScanLoop
  import opened Resume
  import opened ResumeProof

  /** After any kills and resumes the worker's state is one the loop can carry on from. */
  lemma LoopReady(j: Job, s: State)
    requires j.Valid() && Inv(j, s) && s.worker.Hashing? && s.worker.off <= j.Size()
    ensures j.OnGrid(s.worker.off) && s.worker.ext == j.Progress(s.worker.off)
    ensures s.batch.extents + s.worker.stagedExtents == j.ExtentRows(s.worker.off)
    ensures s.batch.blocks + s.worker.stagedBlocks == j.BlockRows(s.worker.off)
  {
    hide j.ExtentRows, j.BlockRows, j.Progress;
  }

  /**
   * csum_whole_file() from such a state on: it ends at the file size exactly if an uninterrupted scan does,
   * and then stores what that would have stored.
   */
  method CarryOn(j: Job, s: State) returns (complete: bool, t: Table)
    requires j.Valid() && Inv(j, s) && s.worker.Hashing? && s.worker.off <= j.Size()
    ensures complete <==> j.Final(0, []).0 == j.Size()
    ensures complete ==> t == Reference(j)
  {
    hide j.ExtentRows, j.BlockRows, j.Progress, j.OnGrid;
    LoopReady(j, s);
    var w := s.worker;
    var c := new ScanCtxt(j, w.off, w.stream, w.ext,
                          s.batch.extents + w.stagedExtents, s.batch.blocks + w.stagedBlocks);
    complete := c.Hash();
    t := Table(c.extents, if Inlined(j) then [] else c.blocks, None, Some(c.fileCsum));
  }

  /** So it is from any state a run of kills and resumes can leave, once the file is taken up again. */
  method TakeUpAgain(j: Job, ghost states: seq<State>, ghost steps: seq<Step>, s: State)
    returns (complete: bool, t: Table)
    requires j.Valid() && InlineFits(j) && IsRun(j, states, steps) && s == states[|steps|]
    requires Enabled(j, s, Start)
    ensures complete <==> j.Final(0, []).0 == j.Size()
    ensures complete ==> t == Reference(j)
  {
    RunKeeps(j, states, steps, |steps|);
    StartKeeps(j, s);
    hide Inv;
    TakenUp(j, s);
    complete, t := CarryOn(j, Begin(j, s));
  }

  lemma TakenUp(j: Job, s: State)
    requires j.Valid()
    ensures Begin(j, s).worker.Hashing? && Begin(j, s).worker.off <= j.Size()
  {
  }
}
