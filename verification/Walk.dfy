/**
 * How the parallel directory walk of src/file_scan.c ends: walkers and the main thread share two queues and a
 * count of outstanding directories. Every step below is one the threads can interleave at.
 */
module Walk {
  import opened Options

  datatype DirItem = Dir(d: nat) | StopWalker
  datatype FileItem = File(f: nat) | StopConsumer

  /** Thread 0 is the main one: it seeds the walk, then consumes files. The others are walkers. */
  datatype Thread =
    | Waiting                    // a walker popping the directory queue
    | Working(owed: Option<nat>) // in a directory, or seeding; `owed` is counted but not queued yet
    | Stopping(left: nat)        // brought the count to zero: stop markers still to push
    | Gone                       // a walker that took a stop marker
    | Consuming
    | Done

  /** `files` is everything ever pushed on the file queue; the consumer has taken the first `taken`. */
  datatype State = State(pending: int, dirq: seq<DirItem>, files: seq<FileItem>, taken: nat, threads: seq<Thread>)

  datatype Step =
    | FoundFile(t: nat, f: nat) // fileq_push()
    | FoundDir(t: nat, d: nat)  // dirq_push(): the count goes up
    | Queue(t: nat)             // dirq_push(): then the directory is queued
    | Finish(t: nat)            // dirq_finished(): the count goes down; the seeding token counts as one
    | PushStop(t: nat)          // dirq_stop_walkers(): one marker for each walker, then the consumer's
    | Take(t: nat)              // a walker pops
    | Consume                   // the consumer pops

  function Rest(t: nat): Thread { if t == 0 then Consuming else Waiting }

  predicate InDirectory(s: State, t: nat) {
    t < |s.threads| && s.threads[t].Working?
  }

  /** An aborted walk finishes its directories without finding anything in them: no other step differs. */
  predicate Enabled(s: State, step: Step) {
    match step
    case FoundFile(t, f) => InDirectory(s, t) && s.threads[t].owed == None
    case FoundDir(t, d) => InDirectory(s, t) && s.threads[t].owed == None
    case Queue(t) => InDirectory(s, t) && s.threads[t].owed.Some?
    case Finish(t) => InDirectory(s, t) && s.threads[t].owed == None
    case PushStop(t) => t < |s.threads| && s.threads[t].Stopping?
    case Take(t) => 0 < t < |s.threads| && s.threads[t].Waiting? && s.dirq != []
    case Consume => |s.threads| > 0 && s.threads[0].Consuming? && s.taken < |s.files|
  }

  function Now(s: State, t: nat, a: Thread): State
    requires t < |s.threads|
  {
    s.(threads := s.threads[t := a])
  }

  function Apply(s: State, step: Step): State
    requires Enabled(s, step)
  {
    match step
    case FoundFile(t, f) => s.(files := s.files + [File(f)])
    case FoundDir(t, d) => Now(s, t, Working(Some(d))).(pending := s.pending + 1)
    case Queue(t) => Now(s, t, Working(None)).(dirq := s.dirq + [Dir(s.threads[t].owed.value)])
    case Finish(t) =>
      Now(s, t, if s.pending - 1 == 0 then Stopping(|s.threads| - 1) else Rest(t)).(pending := s.pending - 1)
    case PushStop(t) =>
      if s.threads[t].left > 0 then Now(s, t, Stopping(s.threads[t].left - 1)).(dirq := s.dirq + [StopWalker])
      else Now(s, t, Rest(t)).(files := s.files + [StopConsumer])
    case Take(t) => Now(s, t, if s.dirq[0].Dir? then Working(None) else Gone).(dirq := s.dirq[1..])
    case Consume =>
      (if s.files[s.taken].StopConsumer? then Now(s, 0, Done) else s).(taken := s.taken + 1)
  }

  /** filescan_walk_begin(): nothing queued, and one token for the seeding main thread. */
  function Begin(walkers: nat): State {
    State(1, [], [], 0, [Working(None)] + seq(walkers, _ => Waiting))
  }

  ghost predicate IsRun(walkers: nat, states: seq<State>, steps: seq<Step>) {
    && |states| == |steps| + 1 && states[0] == Begin(walkers)
    && forall i :: 0 <= i < |steps| ==> Enabled(states[i], steps[i]) && states[i + 1] == Apply(states[i], steps[i])
  }

  // ---- Counting ----

  function Weight(s: seq<Thread>, f: Thread -> nat): nat {
    if s == [] then 0 else Weight(s[..|s| - 1], f) + f(s[|s| - 1])
  }

  lemma {:induction false} WeightNow(s: seq<Thread>, f: Thread -> nat, t: nat, a: Thread)
    requires t < |s|
    ensures Weight(s[t := a], f) == Weight(s, f) - f(s[t]) + f(a)
  {
    var init := s[..|s| - 1];
    if t < |s| - 1 {
      WeightNow(init, f, t, a);
      assert s[t := a][..|s| - 1] == init[t := a];
    } else {
      assert s[t := a][..|s| - 1] == init;
    }
  }

  lemma {:induction false} WeightPart(s: seq<Thread>, f: Thread -> nat, t: nat)
    requires t < |s|
    ensures f(s[t]) <= Weight(s, f)
  {
    if t < |s| - 1 {
      WeightPart(s[..|s| - 1], f, t);
    }
  }

  lemma {:induction false} WeightSome(s: seq<Thread>, f: Thread -> nat) returns (t: nat)
    requires Weight(s, f) > 0
    ensures t < |s| && f(s[t]) > 0
  {
    if f(s[|s| - 1]) > 0 {
      t := |s| - 1;
    } else {
      t := WeightSome(s[..|s| - 1], f);
    }
  }

  lemma {:induction false} WeightNone(s: seq<Thread>, f: Thread -> nat)
    requires forall t :: 0 <= t < |s| ==> f(s[t]) == 0
    ensures Weight(s, f) == 0
  {
    if s != [] {
      WeightNone(s[..|s| - 1], f);
    }
  }

  function Dirs(q: seq<DirItem>): (n: nat)
    ensures n <= |q|
  {
    if q == [] then 0 else (if q[0].Dir? then 1 else 0) + Dirs(q[1..])
  }

  function Stops(q: seq<DirItem>): nat { |q| - Dirs(q) }

  lemma {:induction false} DirsAppend(q: seq<DirItem>, e: DirItem)
    ensures Dirs(q + [e]) == Dirs(q) + (if e.Dir? then 1 else 0)
  {
    if q != [] {
      DirsAppend(q[1..], e);
      assert (q + [e])[1..] == q[1..] + [e];
    }
  }

  lemma {:induction false} NoDirs(q: seq<DirItem>)
    requires Dirs(q) == 0
    ensures forall k :: 0 <= k < |q| ==> q[k] == StopWalker
  {
    if q != [] {
      NoDirs(q[1..]);
    }
  }

  const DEBT: Thread -> nat := (a: Thread) => match a { case Working(None) => 1 case Working(Some(_)) => 2 case _ => 0 }
  const STOPPING: Thread -> nat := (a: Thread) => if a.Stopping? then 1 else 0
  const MARKERS: Thread -> nat := (a: Thread) => if a.Stopping? then a.left else 0
  const GONE: Thread -> nat := (a: Thread) => if a.Gone? then 1 else 0

  // ---- What holds in every interleaving ----

  /** The marker, once pushed, is the only one and the last thing pushed. */
  ghost predicate OneMarker(files: seq<FileItem>) {
    |files| > 0 && files[|files| - 1].StopConsumer? && forall k :: 0 <= k < |files| - 1 ==> files[k].File?
  }

  ghost predicate OnlyFiles(files: seq<FileItem>) {
    forall k :: 0 <= k < |files| ==> files[k].File?
  }

  ghost predicate Roles(s: State) {
    && |s.threads| > 0
    && (s.threads[0].Working? || s.threads[0].Stopping? || s.threads[0].Consuming? || s.threads[0].Done?)
    && (forall t :: 0 < t < |s.threads| ==> !s.threads[t].Consuming? && !s.threads[t].Done?)
    && s.taken <= |s.files|
    && (s.threads[0].Done? <==> s.taken > 0 && s.files[s.taken - 1].StopConsumer?)
  }

  ghost predicate Inv(s: State) {
    && Roles(s)
    && s.pending == Weight(s.threads, DEBT) + Dirs(s.dirq)
    && Stops(s.dirq) + Weight(s.threads, MARKERS) + Weight(s.threads, GONE)
       == (if s.pending > 0 then 0 else |s.threads| - 1)
    && Weight(s.threads, STOPPING) <= 1
    && (s.pending > 0 ==> Weight(s.threads, STOPPING) == 0)
    && (s.pending > 0 || Weight(s.threads, STOPPING) > 0 ==> OnlyFiles(s.files))
    && (s.pending == 0 && Weight(s.threads, STOPPING) == 0 ==> OneMarker(s.files))
  }

  lemma Thread4(s: State, t: nat, a: Thread)
    requires t < |s.threads|
    ensures Weight(s.threads[t := a], DEBT) == Weight(s.threads, DEBT) - DEBT(s.threads[t]) + DEBT(a)
    ensures Weight(s.threads[t := a], STOPPING) == Weight(s.threads, STOPPING) - STOPPING(s.threads[t]) + STOPPING(a)
    ensures Weight(s.threads[t := a], MARKERS) == Weight(s.threads, MARKERS) - MARKERS(s.threads[t]) + MARKERS(a)
    ensures Weight(s.threads[t := a], GONE) == Weight(s.threads, GONE) - GONE(s.threads[t]) + GONE(a)
    ensures DEBT(s.threads[t]) <= Weight(s.threads, DEBT) && STOPPING(s.threads[t]) <= Weight(s.threads, STOPPING)
  {
    WeightNow(s.threads, DEBT, t, a);
    WeightNow(s.threads, STOPPING, t, a);
    WeightNow(s.threads, MARKERS, t, a);
    WeightNow(s.threads, GONE, t, a);
    WeightPart(s.threads, DEBT, t);
    WeightPart(s.threads, STOPPING, t);
  }

  lemma BeginInv(walkers: nat)
    ensures Inv(Begin(walkers))
  {
    var s := Begin(walkers);
    var idle := seq(walkers + 1, _ => Waiting);
    assert s.threads == idle[0 := Working(None)];
    WeightNone(idle, DEBT);
    WeightNone(idle, STOPPING);
    WeightNone(idle, MARKERS);
    WeightNone(idle, GONE);
    Thread4(State(0, [], [], 0, idle), 0, Working(None));
  }

  lemma FoundKeeps(s: State, step: Step)
    requires Inv(s) && Enabled(s, step) && (step.FoundFile? || step.FoundDir? || step.Queue?)
    ensures Inv(Apply(s, step))
  {
    hide Weight, Dirs;
    Thread4(s, step.t, Apply(s, step).threads[step.t]);
    if step.Queue? {
      DirsAppend(s.dirq, Dir(s.threads[step.t].owed.value));
    }
  }

  lemma FinishKeeps(s: State, t: nat)
    requires Inv(s) && Enabled(s, Finish(t))
    ensures Inv(Apply(s, Finish(t)))
  {
    hide Weight, Dirs;
    Thread4(s, t, Apply(s, Finish(t)).threads[t]);
  }

  lemma PushStopKeeps(s: State, t: nat)
    requires Inv(s) && Enabled(s, PushStop(t))
    ensures Inv(Apply(s, PushStop(t)))
  {
    hide Weight, Dirs;
    Thread4(s, t, Apply(s, PushStop(t)).threads[t]);
    DirsAppend(s.dirq, StopWalker);
  }

  lemma TakeKeeps(s: State, t: nat)
    requires Inv(s) && Enabled(s, Take(t))
    ensures Inv(Apply(s, Take(t)))
  {
    hide Weight;
    Thread4(s, t, Apply(s, Take(t)).threads[t]);
  }

  lemma ConsumeKeeps(s: State)
    requires Inv(s) && Enabled(s, Consume)
    ensures Inv(Apply(s, Consume))
  {
    hide Weight, Dirs;
    Thread4(s, 0, Apply(s, Consume).threads[0]);
    assert !s.files[s.taken].StopConsumer? ==> s.threads[0 := s.threads[0]] == s.threads;
  }

  lemma StepKeeps(s: State, step: Step)
    requires Inv(s) && Enabled(s, step)
    ensures Inv(Apply(s, step))
  {
    hide Inv;
    match step
    case FoundFile(_, _) => FoundKeeps(s, step);
    case FoundDir(_, _) => FoundKeeps(s, step);
    case Queue(_) => FoundKeeps(s, step);
    case Finish(t) => FinishKeeps(s, t);
    case PushStop(t) => PushStopKeeps(s, t);
    case Take(t) => TakeKeeps(s, t);
    case Consume => ConsumeKeeps(s);
  }

  lemma {:induction false} RunKeeps(walkers: nat, states: seq<State>, steps: seq<Step>, n: nat)
    requires IsRun(walkers, states, steps) && n <= |steps|
    ensures Inv(states[n]) && |states[n].threads| == walkers + 1
  {
    hide Inv, Enabled;
    if n == 0 {
      BeginInv(walkers);
    } else {
      RunKeeps(walkers, states, steps, n - 1);
      StepKeeps(states[n - 1], steps[n - 1]);
      SameThreads(states[n - 1], steps[n - 1]);
    }
  }

  lemma SameThreads(s: State, step: Step)
    requires Enabled(s, step)
    ensures |Apply(s, step).threads| == |s.threads|
  {
  }

  // ---- The promises ----

  /**
   * The stop marker comes at most once and after every file. Once it is there no directory is queued or in
   * process, and the walkers' markers still to be taken are one for each walker still there.
   */
  lemma MarkerMeansDone(walkers: nat, states: seq<State>, steps: seq<Step>, n: nat)
    requires IsRun(walkers, states, steps) && n <= |steps|
    ensures OnlyFiles(states[n].files) || OneMarker(states[n].files)
    ensures OneMarker(states[n].files) ==>
              && (forall t :: 0 <= t < |states[n].threads| ==>
                     !states[n].threads[t].Working? && !states[n].threads[t].Stopping?)
              && (forall k :: 0 <= k < |states[n].dirq| ==> states[n].dirq[k] == StopWalker)
              && |states[n].dirq| + Weight(states[n].threads, GONE) == walkers
  {
    hide Weight, Dirs;
    RunKeeps(walkers, states, steps, n);
    var s := states[n];
    if OneMarker(s.files) {
      assert !OnlyFiles(s.files);
      forall t | 0 <= t < |s.threads|
        ensures !s.threads[t].Working? && !s.threads[t].Stopping?
      {
        WeightPart(s.threads, DEBT, t);
        WeightPart(s.threads, STOPPING, t);
      }
      NoDirs(s.dirq);
      if Weight(s.threads, MARKERS) > 0 {
        var t := WeightSome(s.threads, MARKERS);
        WeightPart(s.threads, STOPPING, t);
      }
    }
  }

  /** The consumer stops only after it has taken every file the walk ever pushes. */
  lemma ConsumerMissesNothing(walkers: nat, states: seq<State>, steps: seq<Step>, n: nat)
    requires IsRun(walkers, states, steps) && n <= |steps|
    requires |states[n].threads| > 0 && states[n].threads[0].Done?
    ensures OneMarker(states[n].files) && states[n].taken == |states[n].files|
    ensures n < |steps| ==> states[n + 1].files == states[n].files
  {
    hide Weight, Dirs, Inv;
    RunKeeps(walkers, states, steps, n);
    MarkerMeansDone(walkers, states, steps, n);
    assert Roles(states[n]) by { InvRoles(states[n]); }
    var s := states[n];
    assert s.files[s.taken - 1].StopConsumer?;
    if n < |steps| {
      assert Enabled(s, steps[n]) && states[n + 1] == Apply(s, steps[n]);
    }
  }

  lemma InvRoles(s: State)
    requires Inv(s)
    ensures Roles(s)
  {
  }

  ghost predicate Finished(s: State) {
    |s.threads| > 0 && s.threads[0].Done? && forall t :: 0 < t < |s.threads| ==> s.threads[t].Gone?
  }

  /** The walk never hangs: while a walker or the consumer is still there, some thread can take a step. */
  lemma NeverHangs(walkers: nat, states: seq<State>, steps: seq<Step>, n: nat) returns (step: Step)
    requires walkers > 0 && IsRun(walkers, states, steps) && n <= |steps| && !Finished(states[n])
    ensures Enabled(states[n], step)
  {
    hide Weight, Dirs;
    RunKeeps(walkers, states, steps, n);
    var s := states[n];
    if t :| 0 <= t < |s.threads| && s.threads[t].Working? {
      return if s.threads[t].owed == None then Finish(t) else Queue(t);
    }
    if t :| 0 <= t < |s.threads| && s.threads[t].Stopping? {
      return PushStop(t);
    }
    if s.threads[0].Consuming? && s.taken < |s.files| {
      return Consume;
    }
    var t := SomeoneWaits(s);
    step := Take(t);
  }

  lemma SomeoneWaits(s: State) returns (t: nat)
    requires Inv(s) && |s.threads| > 1 && !Finished(s)
    requires forall t :: 0 <= t < |s.threads| ==> !s.threads[t].Working? && !s.threads[t].Stopping?
    requires s.threads[0].Consuming? ==> s.taken == |s.files|
    ensures Enabled(s, Take(t))
  {
    hide Weight;
    WeightNone(s.threads, DEBT);
    WeightNone(s.threads, STOPPING);
    WeightNone(s.threads, MARKERS);
    NotGone(s.threads);
    if s.dirq == [] {
      OnlyOneLeft(s.threads);
    } else {
      WeightPart(s.threads, GONE, 1);
    }
    if Weight(s.threads, GONE) == |s.threads| - 1 {
      OnlyOneLeft(s.threads);
    } else {
      t := SecondLeft(s.threads);
    }
  }

  const LEFT: Thread -> nat := (a: Thread) => if a.Gone? then 0 else 1

  lemma {:induction false} NotGone(s: seq<Thread>)
    ensures Weight(s, GONE) + Weight(s, LEFT) == |s|
  {
    if s != [] {
      NotGone(s[..|s| - 1]);
    }
  }

  lemma OnlyOneLeft(s: seq<Thread>)
    requires |s| > 0 && !s[0].Gone? && Weight(s, LEFT) == 1
    ensures forall t :: 0 < t < |s| ==> s[t].Gone?
  {
    hide Weight;
    WeightNow(s, LEFT, 0, Gone);
    forall t | 0 < t < |s|
      ensures s[t].Gone?
    {
      WeightPart(s[0 := Gone], LEFT, t);
    }
  }

  lemma SecondLeft(s: seq<Thread>) returns (t: nat)
    requires |s| > 0 && !s[0].Gone? && Weight(s, LEFT) > 1
    ensures 0 < t < |s| && !s[t].Gone?
  {
    hide Weight;
    WeightNow(s, LEFT, 0, Gone);
    t := WeightSome(s[0 := Gone], LEFT);
  }

  // ---- And it ends ----

  /** What is left to do, not counting what is yet to be found. */
  const LABOUR: Thread -> nat := (a: Thread) =>
    match a { case Working(None) => 1 case Working(Some(_)) => 4 case Stopping(left) => 2 * left + 2 case _ => 0 }

  function Labour(s: State): int {
    Weight(s.threads, LABOUR) + |s.dirq| + Dirs(s.dirq) + (if s.pending > 0 then 2 * |s.threads| else 0)
    + |s.files| - s.taken
  }

  /** What a step costs: finding something is the only step that makes more work. */
  function Cost(step: Step): int {
    if step.FoundFile? then 1 else if step.FoundDir? then 3 else -1
  }

  lemma StepCosts(s: State, step: Step)
    requires Inv(s) && Enabled(s, step)
    ensures Labour(Apply(s, step)) == Labour(s) + Cost(step)
  {
    hide Weight, Inv, Dirs, Labour;
    match step
    case Take(t) => TakeCosts(s, t);
    case Consume => ConsumeCosts(s);
    case _ => ThreadCosts(s, step);
  }

  lemma TakeCosts(s: State, t: nat)
    requires Enabled(s, Take(t))
    ensures Labour(Apply(s, Take(t))) == Labour(s) - 1
  {
    hide Weight;
    WeightNow(s.threads, LABOUR, t, Apply(s, Take(t)).threads[t]);
  }

  lemma ConsumeCosts(s: State)
    requires Enabled(s, Consume)
    ensures Labour(Apply(s, Consume)) == Labour(s) - 1
  {
    hide Weight, Dirs;
    WeightNow(s.threads, LABOUR, 0, Apply(s, Consume).threads[0]);
    assert s.threads[0 := s.threads[0]] == s.threads;
  }

  lemma ThreadCosts(s: State, step: Step)
    requires Inv(s) && Enabled(s, step) && !step.Take? && !step.Consume?
    ensures Labour(Apply(s, step)) == Labour(s) + Cost(step)
  {
    hide Weight, Dirs, OnlyFiles, OneMarker, Roles;
    WeightNow(s.threads, LABOUR, step.t, Apply(s, step).threads[step.t]);
    WeightPart(s.threads, DEBT, step.t);
    DirsAppend(s.dirq, StopWalker);
    assert s.threads[step.t := s.threads[step.t]] == s.threads;
    if step.Queue? {
      DirsAppend(s.dirq, Dir(s.threads[step.t].owed.value));
    }
  }

  function Found(steps: seq<Step>, n: nat): nat
    requires n <= |steps|
  {
    if n == 0 then 0
    else Found(steps, n - 1) + (if steps[n - 1].FoundFile? then 2 else if steps[n - 1].FoundDir? then 4 else 0)
  }

  /** A walk that finds finitely many files and directories takes finitely many steps, in every interleaving. */
  lemma {:induction false} WalkEnds(walkers: nat, states: seq<State>, steps: seq<Step>, n: nat)
    requires IsRun(walkers, states, steps) && n <= |steps|
    ensures Labour(states[n]) >= 0
    ensures n + Labour(states[n]) == 2 * walkers + 3 + Found(steps, n)
  {
    hide Inv, Enabled, Labour;
    RunKeeps(walkers, states, steps, n);
    assert Labour(states[n]) >= 0 by { SomeLabour(states[n]); }
    if n == 0 {
      FirstLabour(walkers);
    } else {
      WalkEnds(walkers, states, steps, n - 1);
      RunKeeps(walkers, states, steps, n - 1);
      StepCosts(states[n - 1], steps[n - 1]);
    }
  }

  lemma SomeLabour(s: State)
    requires Inv(s)
    ensures Labour(s) >= 0
  {
  }

  lemma FirstLabour(walkers: nat)
    ensures Labour(Begin(walkers)) == 2 * walkers + 3
  {
    var idle := seq(walkers + 1, _ => Waiting);
    assert Begin(walkers).threads == idle[0 := Working(None)];
    WeightNone(idle, LABOUR);
    WeightNow(idle, LABOUR, 0, Working(None));
  }
}
