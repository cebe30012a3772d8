/**
 * Checkpoints, kills and resumes of one file's scan (src/file_scan.c). The hashfile is what is committed plus
 * the open batch; a kill drops the batch and everything in memory. Content, layout and options stay as they
 * are, writes succeed, and every checkpoint was written by this version.
 */
module Resume {
  import opened Options
  import opened ScanSpec
  import opened ScanPass

  /** The extent digest in progress, and the record it belongs to. */
  datatype ExtState = ExtState(loff: nat, len: nat, data: seq<Byte>)

  datatype Checkpoint = Checkpoint(loff: nat, size: nat, stream: seq<Byte>, ext: Option<ExtState>)

  /** One file's rows in the hashfile. */
  datatype Table = Table(
    extents: seq<ExtentRow>, blocks: seq<BlockRow>,
    checkpoint: Option<Checkpoint>, digest: Option<seq<Byte>>)

  datatype Worker =
    | Idle
    | Hashing(off: nat, stream: seq<Byte>, ext: Option<seq<Byte>>,
              stagedExtents: seq<ExtentRow>, stagedBlocks: seq<BlockRow>)

  datatype State = State(committed: Table, batch: Table, worker: Worker)

  datatype Step =
    | Start               // a run takes the file up
    | Pass(flushed: nat)  // one pass of the loop; that many staged block rows overflow into the batch
    | Save                // write_checkpoint()
    | Commit              // the batch is committed, for whatever reason
    | Kill
    | Finish              // the end of the file: the rows and the digest

  const EMPTY := Table([], [], None, None)

  // ---- Taking a file up ----

  function ExtentsBefore(rows: seq<ExtentRow>, loff: nat): seq<ExtentRow> {
    if rows == [] then [] else
      (if rows[0].loff < loff then [rows[0]] else []) + ExtentsBefore(rows[1..], loff)
  }

  function BlocksBefore(rows: seq<BlockRow>, loff: nat): seq<BlockRow> {
    if rows == [] then [] else
      (if rows[0].loff < loff then [rows[0]] else []) + BlocksBefore(rows[1..], loff)
  }

  /** dbfile_remove_hashes_from(): drops the rows at and past `loff`. */
  function RemoveFrom(t: Table, loff: nat): Table {
    t.(extents := ExtentsBefore(t.extents, loff), blocks := BlocksBefore(t.blocks, loff))
  }

  /** resume_scan(): whether the checkpoint still describes the file. */
  predicate Usable(j: Job, t: Table) {
    t.checkpoint.Some? && t.checkpoint.value.size == j.Size() && 0 < t.checkpoint.value.loff < j.Size()
  }

  /** adopt_resume(): whether the layout still backs the checkpoint. */
  predicate Adopted(j: Job, cp: Checkpoint) {
    var i := j.At(cp.loff);
    if cp.ext.Some? then
      && i < |j.recs| && j.recs[i].logical == cp.ext.value.loff && j.recs[i].length == cp.ext.value.len
      && j.recs[i].logical < cp.loff
    else
      j.onlyWholeFiles || i == |j.recs| || j.recs[i].logical >= cp.loff || j.recs[i].Skip()
  }

  /** __scan_file() and the head of csum_whole_file(): resume, or start over with a fresh row. */
  function Begin(j: Job, s: State): State {
    if Usable(j, s.batch) && Adopted(j, s.batch.checkpoint.value) then
      var cp := s.batch.checkpoint.value;
      var ext := if cp.ext.Some? then Some(cp.ext.value.data) else None;
      s.(batch := RemoveFrom(s.batch, cp.loff), worker := Hashing(cp.loff, cp.stream, ext, [], []))
    else
      s.(batch := EMPTY, worker := Hashing(0, [], None, [], []))
  }

  // ---- Hashing ----

  ghost function NewBlocks(j: Job, w: Worker): seq<BlockRow>
    requires j.Valid() && w.Hashing? && w.off < j.Size()
  {
    w.stagedBlocks + PassBlocks(j, w.off)
  }

  ghost function AfterPass(j: Job, s: State, flushed: nat): State
    requires j.Valid() && s.worker.Hashing? && s.worker.off < j.Size()
    requires flushed <= |NewBlocks(j, s.worker)|
  {
    var w := s.worker;
    var rows, blocks := PassExtents(j, w.off, w.ext), NewBlocks(j, w);
    s.(batch := s.batch.(blocks := s.batch.blocks + blocks[..flushed]),
       worker := Hashing(w.off + j.Advance(w.off), w.stream + j.Fed(w.off), rows.1,
                         w.stagedExtents + rows.0, blocks[flushed..]))
  }

  /** write_checkpoint(): the staged rows and the checkpoint that claims them, committed together. */
  function AfterSave(j: Job, s: State): State
    requires s.worker.Hashing?
  {
    var w, i := s.worker, j.At(s.worker.off);
    var ext := if w.ext.Some? && i < |j.recs|
               then Some(ExtState(j.recs[i].logical, j.recs[i].length, w.ext.value)) else None;
    var t := Table(s.batch.extents + w.stagedExtents, s.batch.blocks + w.stagedBlocks,
                   Some(Checkpoint(w.off, j.Size(), w.stream, ext)), s.batch.digest);
    State(t, t, w.(stagedExtents := [], stagedBlocks := []))
  }

  predicate Inlined(j: Job) {
    j.Size() > 0 && j.At(j.Size() - 1) < |j.recs| && j.recs[j.At(j.Size() - 1)].inline
  }

  function AfterFinish(j: Job, s: State): State
    requires s.worker.Hashing?
  {
    var w := s.worker;
    if w.off != j.Size() then s.(worker := Idle) else
      s.(batch := Table(s.batch.extents + w.stagedExtents,
                        if Inlined(j) then s.batch.blocks else s.batch.blocks + w.stagedBlocks,
                        None, Some(w.stream)),
         worker := Idle)
  }

  // ---- Runs ----

  /** A step the program, or its killer, can take. A block batch overflows only when one more block comes. */
  ghost predicate Enabled(j: Job, s: State, step: Step)
    requires j.Valid()
  {
    match step
    case Start => s.worker.Idle? && s.batch.digest.None?
    case Pass(flushed) => s.worker.Hashing? && s.worker.off < j.Size() &&
                          (flushed == 0 || flushed < |NewBlocks(j, s.worker)|)
    case Save => s.worker.Hashing? && 0 < s.worker.off < j.Size()
    case Commit => true
    case Kill => true
    case Finish => s.worker.Hashing? && s.worker.off >= j.Size()
  }

  ghost function Apply(j: Job, s: State, step: Step): State
    requires j.Valid() && Enabled(j, s, step)
  {
    match step
    case Start => Begin(j, s)
    case Pass(flushed) => AfterPass(j, s, flushed)
    case Save => AfterSave(j, s)
    case Commit => s.(committed := s.batch)
    case Kill => State(s.committed, s.committed, Idle)
    case Finish => AfterFinish(j, s)
  }

  /** Any sequence of steps, kills and resumes among them, from an empty hashfile. */
  ghost predicate IsRun(j: Job, states: seq<State>, steps: seq<Step>)
    requires j.Valid()
  {
    && |states| == |steps| + 1
    && states[0] == State(EMPTY, EMPTY, Idle)
    && forall i :: 0 <= i < |steps| ==>
         Enabled(j, states[i], steps[i]) && states[i + 1] == Apply(j, states[i], steps[i])
  }

  /** What one uninterrupted scan stores. */
  ghost function Reference(j: Job): Table
    requires j.Valid()
  {
    Table(j.ExtentRows(j.Size()), if Inlined(j) then [] else j.BlockRows(j.Size()), None, Some(j.Final(0, []).1))
  }
}
