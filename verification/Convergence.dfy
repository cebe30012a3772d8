/**
 * What the windows of one run, and of many runs, do to the storage of duplicate files (src/dbfile.c,
 * src/oans.c). Deduplicating a file puts it on its group's target's storage.
 */
module Convergence {
  import opened Windows

  datatype Move = Move(dest: nat, target: nat)

  /** Which storage each file is on. */
  type Storage = map<nat, int>

  /** Every file's group has one key. */
  function KeyOf(f: FileRow): Key
    requires Eligible(f)
  {
    (f.digest.value, f.size)
  }

  /** The window moves `dest` onto `target`. */
  ghost predicate WindowMoves(t: Files, lo: nat, hi: nat, first: nat, m: Move) {
    && m.dest in t && Eligible(t[m.dest])
    && m.dest in Loaded(t, KeyOf(t[m.dest]), lo, hi, first)
    && m.target == Target(t, KeyOf(t[m.dest]))
    && m.dest != m.target
  }

  /** Two rows of one duplicate group. */
  predicate OneGroup(a: FileRow, b: FileRow) {
    a.digest.Some? && a.digest == b.digest && a.size == b.size && !a.inlined && !b.inlined
  }

  /** The row is ahead of the other: read-only first, then fewer extents, then the lower id. */
  predicate Ahead(t: Files, g: nat, i: nat)
    requires g in t && i in t
  {
    && (t[i].readOnly ==> t[g].readOnly)
    && (t[i].readOnly == t[g].readOnly ==> t[g].nrExtents <= t[i].nrExtents)
    && (t[i].readOnly == t[g].readOnly && t[g].nrExtents == t[i].nrExtents ==> g <= i)
  }

  /**
   * A window's moves, on the rows alone: every file moves onto the one of its group that is read-only if any is,
   * has the fewest extents of those, and the lowest id, when it is new in the window, or when that one is and the
   * file is older than the run. So a read-only file is a destination only when its target is read-only too.
   */
  lemma MovesOnRows(t: Files, lo: nat, hi: nat, first: nat, d: nat, g: nat)
    requires d in t && g in t
    ensures WindowMoves(t, lo, hi, first, Move(d, g)) <==>
            && d != g && OneGroup(t[d], t[g])
            && (forall i :: i in t && OneGroup(t[g], t[i]) ==> Ahead(t, g, i))
            && (lo < t[d].gen <= hi || (lo < t[g].gen <= hi && t[d].gen <= first))
  {
    if OneGroup(t[d], t[g]) {
      var ms := Members(t, KeyOf(t[d]));
      assert d in ms && g in ms;
      if forall i :: i in t && OneGroup(t[g], t[i]) ==> Ahead(t, g, i) {
        assert IsTarget(t, ms, g);
        TargetUnique(t, ms, g, Target(t, KeyOf(t[d])));
      }
      if d != g {
        TwoMembers(ms, d, g);
      }
      if d != g && g == Target(t, KeyOf(t[d])) {
        forall i | i in t && OneGroup(t[g], t[i])
          ensures Ahead(t, g, i)
        {
          assert i in ms;
        }
        LoadsWhen(t, lo, hi, first, d, g);
      }
    }
  }

  /** Which of the group the window loads besides the target. */
  lemma LoadsWhen(t: Files, lo: nat, hi: nat, first: nat, d: nat, g: nat)
    requires d in t && g in t && d != g && OneGroup(t[d], t[g])
    requires Members(t, KeyOf(t[d])) != {} && g == Target(t, KeyOf(t[d]))
    ensures d in Loaded(t, KeyOf(t[d]), lo, hi, first) <==>
            InWindow(t, d, lo, hi) || (InWindow(t, g, lo, hi) && t[d].gen <= first)
  {
    var ms := Members(t, KeyOf(t[d]));
    TwoMembers(ms, d, g);
    if InWindow(t, d, lo, hi) {
      assert d in ms && InWindow(t, d, lo, hi);
    } else if InWindow(t, g, lo, hi) && t[d].gen <= first {
      assert g in ms && InWindow(t, g, lo, hi);
      assert d in ms && t[d].gen <= first;
    }
  }

  function Exec(s: Storage, moves: seq<Move>): Storage {
    if moves == [] then s
    else
      var before := Exec(s, moves[..|moves| - 1]);
      var m := moves[|moves| - 1];
      if m.target in before then before[m.dest := before[m.target]] else before
  }

  ghost predicate RunMove(t: Files, cuts: seq<nat>, m: Move) {
    exists w :: 0 <= w < |cuts| - 1 && WindowMoves(t, cuts[w], cuts[w + 1], cuts[0], m)
  }

  /** The moves of a run, in whatever order the workers made them. */
  ghost predicate MovesOf(t: Files, cuts: seq<nat>, moves: seq<Move>) {
    forall m :: m in moves ==> RunMove(t, cuts, m)
  }

  /** The windows up to the n-th have made all their moves. */
  ghost predicate Completed(t: Files, cuts: seq<nat>, n: nat, moves: seq<Move>)
    requires n < |cuts|
  {
    forall w, m :: 0 <= w < n && WindowMoves(t, cuts[w], cuts[w + 1], cuts[0], m) ==> m in moves
  }

  // ---- Within a run ----

  /** A member other than the target, moving onto the target of its group. */
  ghost predicate Toward(t: Files, m: Move) {
    && m.dest in t && Eligible(t[m.dest])
    && m.dest in Members(t, KeyOf(t[m.dest]))
    && m.target == Target(t, KeyOf(t[m.dest])) && m.target in t
    && m.dest != m.target
  }

  lemma RunMoveToward(t: Files, cuts: seq<nat>, m: Move)
    requires Split(cuts) && RunMove(t, cuts, m)
    ensures Toward(t, m)
  {
    assert Target(t, KeyOf(t[m.dest])) in Members(t, KeyOf(t[m.dest]));
  }

  /** A target is never a destination, so nobody's target moves while others converge on it. */
  lemma TargetsStay(t: Files, m: Move, n: Move)
    requires Toward(t, m) && Toward(t, n)
    ensures m.target != n.dest
    ensures m.dest == n.dest ==> m.target == n.target
  {
    assert m.target in Members(t, KeyOf(t[m.dest]));
    assert KeyOf(t[m.target]) == KeyOf(t[m.dest]);
  }

  /** Where the moves leave a file: on its target's first storage if any moves it, else where it was. */
  ghost predicate LeftAt(s: Storage, moves: seq<Move>, s': Storage, f: nat)
    requires f in s
  {
    && f in s'
    && (forall m :: m in moves && m.dest == f && m.target in s ==> s'[f] == s[m.target])
    && ((forall m :: m in moves ==> m.dest != f) ==> s'[f] == s[f])
  }

  lemma {:induction false} ExecResult(t: Files, s: Storage, moves: seq<Move>, f: nat)
    requires (forall m :: m in moves ==> Toward(t, m)) && t.Keys <= s.Keys && f in s
    ensures LeftAt(s, moves, Exec(s, moves), f)
    ensures Exec(s, moves).Keys == s.Keys
  {
    hide Members, Outranks;
    if moves != [] {
      var init, last := moves[..|moves| - 1], moves[|moves| - 1];
      assert moves == init + [last];
      assert Toward(t, last);
      ExecResult(t, s, init, f);
      ExecResult(t, s, init, last.target);
      forall m | m in init
        ensures m.dest != last.target
        ensures m.dest == last.dest ==> m.target == last.target
      {
        TargetsStay(t, last, m);
      }
      hide Toward;
      assert Exec(s, moves) == Exec(s, init)[last.dest := s[last.target]];
    }
  }

  /** The order in which the windows' moves are made does not matter. */
  lemma AnyInterleaving(t: Files, s: Storage, cuts: seq<nat>, moves: seq<Move>, moves': seq<Move>)
    requires Split(cuts) && MovesOf(t, cuts, moves) && MovesOf(t, cuts, moves') && t.Keys <= s.Keys
    requires forall m :: m in moves <==> m in moves'
    ensures Exec(s, moves) == Exec(s, moves')
  {
    hide Exec, WindowMoves, RunMove;
    AllToward(t, cuts, moves);
    AllToward(t, cuts, moves');
    ExecKeys(t, s, moves);
    ExecKeys(t, s, moves');
    forall f | f in s
      ensures Exec(s, moves)[f] == Exec(s, moves')[f]
    {
      ExecResult(t, s, moves, f);
      ExecResult(t, s, moves', f);
      if m :| m in moves && m.dest == f {
        assert Toward(t, m) && m in moves';
      }
    }
  }

  lemma AllToward(t: Files, cuts: seq<nat>, moves: seq<Move>)
    requires Split(cuts) && MovesOf(t, cuts, moves)
    ensures forall m :: m in moves ==> Toward(t, m)
  {
    forall m | m in moves
      ensures Toward(t, m)
    {
      RunMoveToward(t, cuts, m);
    }
  }

  lemma {:induction false} ExecKeys(t: Files, s: Storage, moves: seq<Move>)
    requires (forall m :: m in moves ==> Toward(t, m)) && t.Keys <= s.Keys
    ensures Exec(s, moves).Keys == s.Keys
  {
    if moves != [] {
      var init, last := moves[..|moves| - 1], moves[|moves| - 1];
      assert moves == init + [last];
      assert Toward(t, last);
      ExecKeys(t, s, init);
    }
  }

  // ---- Over runs ----

  /**
   * The hashfile's promise at a watermark: a group whose elected target is at or below it has all its
   * members at or below it on the target's storage.
   */
  ghost predicate GroupConverged(t: Files, s: Storage, mark: nat, k: Key)
    requires t.Keys <= s.Keys
  {
    Members(t, k) != {} && t[Target(t, k)].gen <= mark ==>
      forall i :: i in Members(t, k) && t[i].gen <= mark ==> s[i] == s[Target(t, k)]
  }

  ghost predicate Converged(t: Files, s: Storage, mark: nat) {
    t.Keys <= s.Keys && forall k :: GroupConverged(t, s, mark, k)
  }

  /** A member some completed window should have moved was moved. */
  lemma MemberMoved(t: Files, cuts: seq<nat>, n: nat, k: Key, i: nat)
    requires Split(cuts) && n < |cuts| && Members(t, k) != {}
    requires i in Members(t, k) && i != Target(t, k) && t[Target(t, k)].gen <= cuts[n]
    requires t[i].gen <= cuts[n] && (cuts[0] < t[i].gen || cuts[0] < t[Target(t, k)].gen)
    ensures exists w :: 0 <= w < n && WindowMoves(t, cuts[w], cuts[w + 1], cuts[0], Move(i, Target(t, k)))
  {
    var g := Target(t, k);
    assert KeyOf(t[i]) == k;
    var w := WindowOf(cuts, n, if cuts[0] < t[i].gen then t[i].gen else t[g].gen);
    CutsRise(cuts, 0, w);
    TwoMembers(Members(t, k), i, g);
    var lo, hi, first := cuts[w], cuts[w + 1], cuts[0];
    assert Loads(t, k, lo, hi, first) by {
      if InWindow(t, i, lo, hi) {
        assert i in Members(t, k) && InWindow(t, i, lo, hi);
      } else {
        assert g in Members(t, k) && InWindow(t, g, lo, hi);
      }
    }
    assert i in Loaded(t, k, lo, hi, first);
  }

  lemma TwoMembers(s: set<nat>, a: nat, b: nat)
    requires a in s && b in s && a != b
    ensures |s| > 1
  {
    assert b in s - {a} && |s - {a}| == |s| - 1;
  }

  /**
   * A run from a converged hashfile: whatever its windows are, in whatever order they make their moves, and
   * however many of them complete, the hashfile is converged at the last completed window.
   */
  lemma RunConverges(t: Files, s: Storage, cuts: seq<nat>, n: nat, moves: seq<Move>)
    requires Split(cuts) && n < |cuts| && Converged(t, s, cuts[0])
    requires MovesOf(t, cuts, moves) && Completed(t, cuts, n, moves)
    ensures Converged(t, Exec(s, moves), cuts[n])
  {
    hide Exec, WindowMoves, RunMove, Members, MovesOf, Completed;
    AllToward(t, cuts, moves);
    ExecKeys(t, s, moves);
    forall k
      ensures GroupConverged(t, Exec(s, moves), cuts[n], k)
    {
      if Members(t, k) != {} && t[Target(t, k)].gen <= cuts[n] {
        forall i | i in Members(t, k) && t[i].gen <= cuts[n]
          ensures Exec(s, moves)[i] == Exec(s, moves)[Target(t, k)]
        {
          MemberConverges(t, s, cuts, n, moves, k, i);
        }
      }
    }
  }

  lemma MemberConverges(t: Files, s: Storage, cuts: seq<nat>, n: nat, moves: seq<Move>, k: Key, i: nat)
    requires Split(cuts) && n < |cuts| && Converged(t, s, cuts[0])
    requires (forall m :: m in moves ==> Toward(t, m)) && Completed(t, cuts, n, moves)
    requires Members(t, k) != {} && t[Target(t, k)].gen <= cuts[n]
    requires i in Members(t, k) && t[i].gen <= cuts[n]
    ensures i in Exec(s, moves) && Target(t, k) in Exec(s, moves)
    ensures Exec(s, moves)[i] == Exec(s, moves)[Target(t, k)]
  {
    hide Exec, WindowMoves, Outranks;
    var g := Target(t, k);
    assert KeyOf(t[i]) == k == KeyOf(t[g]);
    ExecResult(t, s, moves, i);
    ExecResult(t, s, moves, g);
    assert Exec(s, moves)[g] == s[g];
    if i != g {
      if cuts[0] < t[i].gen || cuts[0] < t[g].gen {
        MemberMoved(t, cuts, n, k, i);
        assert Move(i, g) in moves;
      } else {
        assert GroupConverged(t, s, cuts[0], k);
        if m :| m in moves && m.dest == i {
          assert Toward(t, m);
        }
      }
    }
  }

  /** A run that completes all its windows puts every duplicate group on one storage. */
  lemma FullRunConverges(t: Files, s: Storage, cuts: seq<nat>, moves: seq<Move>, k: Key, i: nat, j: nat)
    requires Split(cuts) && Converged(t, s, cuts[0])
    requires MovesOf(t, cuts, moves) && Completed(t, cuts, |cuts| - 1, moves)
    requires forall f :: f in t ==> t[f].gen <= cuts[|cuts| - 1]
    requires i in Members(t, k) && j in Members(t, k)
    ensures i in Exec(s, moves) && j in Exec(s, moves) && Exec(s, moves)[i] == Exec(s, moves)[j]
  {
    hide Exec, WindowMoves, RunMove;
    RunConverges(t, s, cuts, |cuts| - 1, moves);
    assert GroupConverged(t, Exec(s, moves), cuts[|cuts| - 1], k);
  }

  /**
   * Between runs files arrive above the watermark, and files go. A target above the watermark stays: the
   * run that was to move the rest onto it may have moved some of them already.
   */
  ghost predicate Arrivals(t: Files, t': Files, mark: nat) {
    && (forall i :: i in t' && t'[i].gen <= mark ==> i in t && t[i] == t'[i])
    && (forall k :: Members(t, k) != {} && mark < t[Target(t, k)].gen ==>
          Target(t, k) in t' && t'[Target(t, k)] == t[Target(t, k)])
  }

  lemma ArrivalsKeep(t: Files, t': Files, s: Storage, s': Storage, mark: nat)
    requires Converged(t, s, mark) && Arrivals(t, t', mark)
    requires t'.Keys <= s'.Keys && forall i :: i in t && i in t' ==> s'[i] == s[i]
    ensures Converged(t', s', mark)
  {
    forall k
      ensures GroupConverged(t', s', mark, k)
    {
      if Members(t', k) != {} && t'[Target(t', k)].gen <= mark {
        ArrivalsKeepGroup(t, t', s, s', mark, k);
      }
    }
  }

  lemma ArrivalsKeepGroup(t: Files, t': Files, s: Storage, s': Storage, mark: nat, k: Key)
    requires Converged(t, s, mark) && Arrivals(t, t', mark)
    requires t'.Keys <= s'.Keys && forall i :: i in t && i in t' ==> s'[i] == s[i]
    requires Members(t', k) != {} && t'[Target(t', k)].gen <= mark
    ensures GroupConverged(t', s', mark, k)
  {
    var g' := Target(t', k);
    assert g' in Members(t, k);
    var g := Target(t, k);
    assert mark < t[g].gen ==> g in Members(t', k);
    assert GroupConverged(t, s, mark, k);
  }

  // ---- Over any history ----

  datatype World = World(files: Files, storage: Storage, mark: nat)

  datatype Event =
    | Run(cuts: seq<nat>, done: nat, moves: seq<Move>)
    | Change(files: Files, storage: Storage)

  ghost predicate Happens(w: World, e: Event, w': World) {
    match e
    case Run(cuts, done, moves) =>
      && Split(cuts) && done < |cuts| && cuts[0] == w.mark
      && MovesOf(w.files, cuts, moves) && Completed(w.files, cuts, done, moves)
      && w' == World(w.files, Exec(w.storage, moves), cuts[done])
    case Change(files, storage) =>
      && Arrivals(w.files, files, w.mark) && files.Keys <= storage.Keys
      && (forall i :: i in w.files && i in files && i in w.storage ==> storage[i] == w.storage[i])
      && w' == World(files, storage, w.mark)
  }

  /** A new hashfile's watermark is 0, below every generation: nothing is promised yet. */
  ghost predicate Fresh(w: World) {
    w.mark == 0 && w.files.Keys <= w.storage.Keys && forall i :: i in w.files ==> w.files[i].gen > 0
  }

  /** Through any sequence of runs, complete or cut short, and of arrivals between them. */
  lemma {:induction false} HistoryConverges(worlds: seq<World>, events: seq<Event>, n: nat)
    requires |worlds| == |events| + 1 && Fresh(worlds[0]) && n <= |events|
    requires forall i :: 0 <= i < |events| ==> Happens(worlds[i], events[i], worlds[i + 1])
    ensures Converged(worlds[n].files, worlds[n].storage, worlds[n].mark)
  {
    hide Completed, MovesOf, GroupConverged;
    if n == 0 {
      StartConverged(worlds[0]);
    } else {
      HistoryConverges(worlds, events, n - 1);
      var w, e := worlds[n - 1], events[n - 1];
      assert Happens(w, e, worlds[n - 1 + 1]);
      match e
      case Run(cuts, done, moves) => RunConverges(w.files, w.storage, cuts, done, moves);
      case Change(files, storage) => ArrivalsKeep(w.files, files, w.storage, storage, w.mark);
    }
  }

  lemma StartConverged(w: World)
    requires Fresh(w)
    ensures Converged(w.files, w.storage, w.mark)
  {
    forall k
      ensures GroupConverged(w.files, w.storage, 0, k)
    {
      assert Members(w.files, k) != {} ==> Target(w.files, k) in Members(w.files, k);
    }
  }
}
