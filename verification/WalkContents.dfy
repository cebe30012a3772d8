/** What the walk hands on: every file found reaches the consumer, and every directory found one walker, once. */
module WalkContents {
  import opened Options
  import opened Walk

  // ---- Files ----

  /** The files found by the first n steps, in order. */
  function FoundFiles(steps: seq<Step>, n: nat): seq<nat>
    requires n <= |steps|
  {
    if n == 0 then [] else FoundFiles(steps, n - 1) + (if steps[n - 1].FoundFile? then [steps[n - 1].f] else [])
  }

  /** The files of the queue, without the marker. */
  function Names(files: seq<FileItem>): seq<nat> {
    if files == [] then [] else
      var last := files[|files| - 1];
      Names(files[..|files| - 1]) + (if last.File? then [last.f] else [])
  }

  lemma NamesAppend(files: seq<FileItem>, e: FileItem)
    ensures Names(files + [e]) == Names(files) + (if e.File? then [e.f] else [])
  {
    assert (files + [e])[..|files|] == files;
  }

  /** In every interleaving the file queue has what was found, in the order in which it was. */
  lemma {:induction false} QueueIsFound(walkers: nat, states: seq<State>, steps: seq<Step>, n: nat)
    requires IsRun(walkers, states, steps) && n <= |steps|
    ensures Names(states[n].files) == FoundFiles(steps, n)
  {
    hide Names;
    if n == 0 {
      NoNames();
    } else {
      QueueIsFound(walkers, states, steps, n - 1);
      var s, step := states[n - 1], steps[n - 1];
      assert Enabled(s, step) && states[n - 1 + 1] == Apply(s, step);
      if step.FoundFile? { NamesAppend(s.files, File(step.f)); }
      if step.PushStop? { NamesAppend(s.files, StopConsumer); }
    }
  }

  lemma NoNames()
    ensures Names([]) == []
  {
  }

  /** So when the consumer stops it has taken exactly the files found, in that order, and the marker. */
  lemma ConsumerTakesFound(walkers: nat, states: seq<State>, steps: seq<Step>, n: nat)
    requires IsRun(walkers, states, steps) && n <= |steps|
    requires |states[n].threads| > 0 && states[n].threads[0].Done?
    ensures states[n].taken == |states[n].files| == |FoundFiles(steps, n)| + 1
    ensures Names(states[n].files[..states[n].taken]) == FoundFiles(steps, n)
  {
    ConsumerMissesNothing(walkers, states, steps, n);
    QueueIsFound(walkers, states, steps, n);
    var files := states[n].files;
    assert files[..states[n].taken] == files;
    var init := files[..|files| - 1];
    assert files == init + [StopConsumer];
    NamesAppend(init, StopConsumer);
    NamesOfFiles(init);
  }

  lemma {:induction false} NamesOfFiles(files: seq<FileItem>)
    requires OnlyFiles(files)
    ensures |Names(files)| == |files|
  {
    if files != [] {
      NamesOfFiles(files[..|files| - 1]);
    }
  }

  // ---- Directories ----

  /** How often a directory has been found. */
  function TimesFound(steps: seq<Step>, n: nat, d: nat): nat
    requires n <= |steps|
  {
    if n == 0 then 0
    else TimesFound(steps, n - 1, d) + (if steps[n - 1].FoundDir? && steps[n - 1].d == d then 1 else 0)
  }

  /** How often a walker has taken it. */
  function TimesTaken(states: seq<State>, steps: seq<Step>, n: nat, d: nat): nat
    requires n <= |steps| < |states|
  {
    if n == 0 then 0
    else
      TimesTaken(states, steps, n - 1, d)
      + (if steps[n - 1].Take? && states[n - 1].dirq != [] && states[n - 1].dirq[0] == Dir(d) then 1 else 0)
  }

  function Queued(q: seq<DirItem>, d: nat): nat {
    if q == [] then 0 else (if q[0] == Dir(d) then 1 else 0) + Queued(q[1..], d)
  }

  lemma {:induction false} QueuedAppend(q: seq<DirItem>, e: DirItem, d: nat)
    ensures Queued(q + [e], d) == Queued(q, d) + (if e == Dir(d) then 1 else 0)
  {
    if q != [] {
      QueuedAppend(q[1..], e, d);
      assert (q + [e])[1..] == q[1..] + [e];
    }
  }

  function Owes(d: nat): Thread -> nat {
    (a: Thread) => if a == Working(Some(d)) then 1 else 0
  }

  lemma StepMovesDirs(s: State, step: Step, d: nat)
    requires Enabled(s, step)
    ensures var s' := Apply(s, step);
            Queued(s'.dirq, d) + Weight(s'.threads, Owes(d))
            + (if step.Take? && s.dirq[0] == Dir(d) then 1 else 0)
            == Queued(s.dirq, d) + Weight(s.threads, Owes(d))
               + (if step.FoundDir? && step.d == d then 1 else 0)
  {
    hide Weight, Queued;
    var s' := Apply(s, step);
    match step
    case FoundFile(t, f) =>
    case Consume =>
      if s.files[s.taken].StopConsumer? { WeightNow(s.threads, Owes(d), 0, Done); }
    case FoundDir(t, e) => WeightNow(s.threads, Owes(d), t, s'.threads[t]);
    case Queue(t) =>
      WeightNow(s.threads, Owes(d), t, s'.threads[t]);
      QueuedAppend(s.dirq, Dir(s.threads[t].owed.value), d);
    case Finish(t) => WeightNow(s.threads, Owes(d), t, s'.threads[t]);
    case PushStop(t) =>
      WeightNow(s.threads, Owes(d), t, s'.threads[t]);
      QueuedAppend(s.dirq, StopWalker, d);
    case Take(t) =>
      WeightNow(s.threads, Owes(d), t, s'.threads[t]);
      QueuedFirst(s.dirq, d);
  }

  lemma QueuedFirst(q: seq<DirItem>, d: nat)
    requires q != []
    ensures Queued(q, d) == (if q[0] == Dir(d) then 1 else 0) + Queued(q[1..], d)
  {
  }

  /** No directory is lost or walked twice: each one found is taken, queued, or about to be queued. */
  lemma {:induction false} DirsConserved(walkers: nat, states: seq<State>, steps: seq<Step>, n: nat, d: nat)
    requires IsRun(walkers, states, steps) && n <= |steps|
    ensures TimesFound(steps, n, d)
            == TimesTaken(states, steps, n, d) + Queued(states[n].dirq, d) + Weight(states[n].threads, Owes(d))
  {
    hide Weight, Queued, Apply;
    if n == 0 {
      NothingOwed(walkers, d);
    } else {
      DirsConserved(walkers, states, steps, n - 1, d);
      var s, step := states[n - 1], steps[n - 1];
      assert Enabled(s, step) && states[n - 1 + 1] == Apply(s, step);
      StepMovesDirs(s, step, d);
    }
  }

  lemma NothingOwed(walkers: nat, d: nat)
    ensures Queued(Begin(walkers).dirq, d) == 0 && Weight(Begin(walkers).threads, Owes(d)) == 0
  {
    NobodyOwes(Begin(walkers).threads, d);
  }

  lemma {:induction false} NobodyOwes(s: seq<Thread>, d: nat)
    requires forall t :: 0 <= t < |s| ==> s[t] != Working(Some(d))
    ensures Weight(s, Owes(d)) == 0
  {
    if s != [] {
      NobodyOwes(s[..|s| - 1], d);
    }
  }

  lemma {:induction false} NoneQueued(q: seq<DirItem>, d: nat)
    requires forall k :: 0 <= k < |q| ==> q[k] == StopWalker
    ensures Queued(q, d) == 0
  {
    if q != [] {
      NoneQueued(q[1..], d);
    }
  }

  /** Once the stop marker is there every directory found has been walked exactly as often as it was found. */
  lemma EveryDirWalked(walkers: nat, states: seq<State>, steps: seq<Step>, n: nat, d: nat)
    requires IsRun(walkers, states, steps) && n <= |steps| && OneMarker(states[n].files)
    ensures TimesTaken(states, steps, n, d) == TimesFound(steps, n, d)
  {
    MarkerMeansDone(walkers, states, steps, n);
    DirsConserved(walkers, states, steps, n, d);
    NoneQueued(states[n].dirq, d);
    NobodyOwes(states[n].threads, d);
  }
}
