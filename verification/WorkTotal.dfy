/**
 * The progress total of the dedupe phase (src/dbfile.c COUNT_FILES_WORK) against what its windows load: for
 * every group, length times the copies that move.
 */
module WorkTotal {
  import opened Windows
  import opened Convergence
  import opened Sums

  /** Members of generations (a, b]. */
  function Between(t: Files, k: Key, a: nat, b: nat): set<nat> {
    set i | i in Members(t, k) && a < t[i].gen <= b
  }

  /** Members at or below `first`: OLD in the query. */
  function Old(t: Files, k: Key, first: nat): set<nat> {
    set i | i in Members(t, k) && t[i].gen <= first
  }

  function New(t: Files, k: Key, first: nat): set<nat> {
    set i | i in Members(t, k) && first < t[i].gen
  }

  /** COUNT_FILES_WORK_SINCE: how many copies of the group a run from `first` moves. */
  ghost function CopiesSince(t: Files, k: Key, first: nat): nat {
    var c, o := |New(t, k, first)|, |Old(t, k, first)|;
    if c == 0 then 0
    else if o > 0 then
      NewIsMember(t, k, first);
      c + (if first < t[Target(t, k)].gen then o - 1 else 0)
    else if c > 1 then c - 1
    else 0
  }

  /** COUNT_FILES_WORK_ALL: the form without a window, for a first scan. */
  ghost function CopiesAll(t: Files, k: Key): nat {
    if |Members(t, k)| > 1 then |Members(t, k)| - 1 else 0
  }

  lemma NewIsMember(t: Files, k: Key, first: nat)
    requires |New(t, k, first)| > 0
    ensures Members(t, k) != {}
  {
    var i :| i in New(t, k, first);
    assert i in Members(t, k);
  }

  /** dext_work() of what one window loads, per unit of length. */
  ghost function CopiesIn(t: Files, k: Key, lo: nat, hi: nat, first: nat): nat {
    var n := |Loaded(t, k, lo, hi, first)|;
    if n == 0 then 0 else n - 1
  }

  ghost function CopiesOver(t: Files, k: Key, cuts: seq<nat>, n: nat): nat
    requires n < |cuts|
  {
    if n == 0 then 0
    else CopiesOver(t, k, cuts, n - 1) + CopiesIn(t, k, cuts[n - 1], cuts[n], cuts[0])
  }

  // ---- One window ----

  lemma CardUnion(a: set<nat>, b: set<nat>)
    requires a !! b
    ensures |a + b| == |a| + |b|
  {
  }

  lemma SomeIn(s: set<nat>)
    ensures |s| > 0 <==> exists i :: i in s
  {
    if |s| > 0 {
      var i :| i in s;
    }
  }

  /** A window without the target moves its own members; the target's window moves the old ones too. */
  lemma WindowCopies(t: Files, k: Key, lo: nat, hi: nat, first: nat)
    requires first <= lo < hi && Members(t, k) != {}
    ensures var g := Target(t, k);
            var c := |Between(t, k, lo, hi)|;
            CopiesIn(t, k, lo, hi, first) == if InWindow(t, g, lo, hi) then c - 1 + |Old(t, k, first)| else c
  {
    var g := Target(t, k);
    SomeIn(Between(t, k, lo, hi));
    if InWindow(t, g, lo, hi) {
      TargetWindow(t, k, lo, hi, first);
    } else {
      OtherWindow(t, k, lo, hi, first);
    }
  }

  lemma OtherWindow(t: Files, k: Key, lo: nat, hi: nat, first: nat)
    requires first <= lo < hi && Members(t, k) != {} && !InWindow(t, Target(t, k), lo, hi)
    ensures CopiesIn(t, k, lo, hi, first) == |Between(t, k, lo, hi)|
  {
    var g, w := Target(t, k), Between(t, k, lo, hi);
    if i :| i in w {
      TwoMembers(Members(t, k), i, g);
      assert i in Members(t, k) && InWindow(t, i, lo, hi);
      assert Loaded(t, k, lo, hi, first) == w + {g};
      CardUnion(w, {g});
    } else {
      assert forall i :: i in Members(t, k) && InWindow(t, i, lo, hi) ==> i in w;
      assert w == {};
    }
  }

  lemma TargetWindow(t: Files, k: Key, lo: nat, hi: nat, first: nat)
    requires first <= lo < hi && Members(t, k) != {} && InWindow(t, Target(t, k), lo, hi)
    ensures |Between(t, k, lo, hi)| > 0
    ensures CopiesIn(t, k, lo, hi, first) == |Between(t, k, lo, hi)| - 1 + |Old(t, k, first)|
  {
    var g, w, o := Target(t, k), Between(t, k, lo, hi), Old(t, k, first);
    assert g in w && w !! o;
    CardUnion(w, o);
    if m :| m in w + o && m != g {
      TwoMembers(Members(t, k), m, g);
      assert g in Members(t, k) && InWindow(t, g, lo, hi);
      assert m in Members(t, k) && (t[m].gen <= first || InWindow(t, m, lo, hi));
      assert Loads(t, k, lo, hi, first);
      assert Loaded(t, k, lo, hi, first) == w + o;
    } else {
      assert w + o == {g};
      assert !Loads(t, k, lo, hi, first) by {
        assert forall m :: m in Members(t, k) && m != g && (t[m].gen <= first || InWindow(t, m, lo, hi)) ==> m in w + o;
      }
    }
  }

  // ---- All windows of a run ----

  lemma {:induction false} WindowsCopies(t: Files, k: Key, cuts: seq<nat>, n: nat)
    requires Split(cuts) && n < |cuts| && Members(t, k) != {}
    ensures var g, first := Target(t, k), cuts[0];
            CopiesOver(t, k, cuts, n) + (if first < t[g].gen <= cuts[n] then 1 else 0)
            == |Between(t, k, first, cuts[n])| + (if first < t[g].gen <= cuts[n] then |Old(t, k, first)| else 0)
  {
    if n == 0 {
      assert Between(t, k, cuts[0], cuts[0]) == {};
    } else {
      WindowsCopies(t, k, cuts, n - 1);
      CutsRise(cuts, 0, n - 1);
      WindowCopies(t, k, cuts[n - 1], cuts[n], cuts[0]);
      if InWindow(t, Target(t, k), cuts[n - 1], cuts[n]) {
        TargetWindow(t, k, cuts[n - 1], cuts[n], cuts[0]);
      }
      assert Between(t, k, cuts[0], cuts[n])
          == Between(t, k, cuts[0], cuts[n - 1]) + Between(t, k, cuts[n - 1], cuts[n]);
      CardUnion(Between(t, k, cuts[0], cuts[n - 1]), Between(t, k, cuts[n - 1], cuts[n]));
    }
  }

  /** However the run is split into windows, they move exactly the copies the query counts. */
  lemma GroupTotal(t: Files, k: Key, cuts: seq<nat>)
    requires Split(cuts) && forall i :: i in t ==> t[i].gen <= cuts[|cuts| - 1]
    ensures CopiesOver(t, k, cuts, |cuts| - 1) == CopiesSince(t, k, cuts[0])
  {
    var first, n := cuts[0], |cuts| - 1;
    if Members(t, k) == {} {
      NoMembers(t, k, cuts, n);
      assert New(t, k, first) == {};
    } else {
      WindowsCopies(t, k, cuts, n);
      assert Between(t, k, first, cuts[n]) == New(t, k, first);
      var g := Target(t, k);
      SomeIn(New(t, k, first));
      SomeIn(Old(t, k, first));
      assert g in New(t, k, first) || g in Old(t, k, first);
    }
  }

  lemma {:induction false} NoMembers(t: Files, k: Key, cuts: seq<nat>, n: nat)
    requires Split(cuts) && n < |cuts| && Members(t, k) == {}
    ensures CopiesOver(t, k, cuts, n) == 0
  {
    if n > 0 {
      NoMembers(t, k, cuts, n - 1);
    }
  }

  // ---- All groups ----

  ghost function Groups(t: Files): set<Key> {
    set i | i in t && Eligible(t[i]) :: KeyOf(t[i])
  }

  /** The bytes the count query gives a group. */
  ghost function FileGroupWork(t: Files, first: nat): Key -> nat {
    (k: Key) => k.1 * (if first > 0 then CopiesSince(t, k, first) else CopiesAll(t, k))
  }

  /** The bytes compared for a group in one window, and in the first n. */
  ghost function FileGroupIn(t: Files, lo: nat, hi: nat, first: nat): Key -> nat {
    (k: Key) => k.1 * CopiesIn(t, k, lo, hi, first)
  }

  ghost function FileGroupOver(t: Files, cuts: seq<nat>, n: nat): Key -> nat
    requires n < |cuts|
  {
    (k: Key) => k.1 * CopiesOver(t, k, cuts, n)
  }

  /** The byte total of the count query. */
  ghost function FilesWork(t: Files, first: nat): nat {
    Sum(Groups(t), FileGroupWork(t, first))
  }

  /** The bytes the workers compare for what the first n windows load. */
  ghost function WindowsWork(t: Files, cuts: seq<nat>, n: nat): nat
    requires n < |cuts|
  {
    if n == 0 then 0
    else WindowsWork(t, cuts, n - 1) + Sum(Groups(t), FileGroupIn(t, cuts[n - 1], cuts[n], cuts[0]))
  }

  lemma FileOverStep(t: Files, cuts: seq<nat>, n: nat, k: Key)
    requires 0 < n < |cuts|
    ensures FileGroupOver(t, cuts, n)(k)
            == FileGroupOver(t, cuts, n - 1)(k) + FileGroupIn(t, cuts[n - 1], cuts[n], cuts[0])(k)
  {
    hide CopiesIn;
    Distribute(k.1, CopiesOver(t, k, cuts, n - 1), CopiesIn(t, k, cuts[n - 1], cuts[n], cuts[0]));
  }

  lemma {:induction false} WorkByGroup(t: Files, cuts: seq<nat>, n: nat)
    requires n < |cuts|
    ensures WindowsWork(t, cuts, n) == Sum(Groups(t), FileGroupOver(t, cuts, n))
  {
    hide CopiesIn, Groups, Sum;
    if n == 0 {
      SumNothing(Groups(t), FileGroupOver(t, cuts, 0));
    } else {
      hide FileGroupOver, FileGroupIn;
      WorkByGroup(t, cuts, n - 1);
      var f, g := FileGroupOver(t, cuts, n - 1), FileGroupIn(t, cuts[n - 1], cuts[n], cuts[0]);
      forall k | k in Groups(t)
        ensures FileGroupOver(t, cuts, n)(k) == f(k) + g(k)
      {
        FileOverStep(t, cuts, n, k);
      }
      SumPlus(Groups(t), f, g, FileGroupOver(t, cuts, n));
    }
  }

  lemma Distribute(a: nat, b: nat, c: nat)
    ensures a * (b + c) == a * b + a * c
  {
  }

  /** Without an older run there is nothing old: the two forms of the query agree. */
  lemma FormsAgree(t: Files, k: Key)
    requires forall i :: i in t ==> t[i].gen > 0
    ensures CopiesSince(t, k, 0) == CopiesAll(t, k)
  {
    assert New(t, k, 0) == Members(t, k);
    assert Old(t, k, 0) == {};
  }

  /** The total is exact for every table and every split of the run into windows. */
  lemma FilesWorkExact(t: Files, cuts: seq<nat>)
    requires Split(cuts) && forall i :: i in t ==> 0 < t[i].gen <= cuts[|cuts| - 1]
    ensures WindowsWork(t, cuts, |cuts| - 1) == FilesWork(t, cuts[0])
  {
    hide CopiesOver, CopiesSince, CopiesAll, Groups, WindowsWork, Sum;
    var n := |cuts| - 1;
    WorkByGroup(t, cuts, n);
    forall k | k in Groups(t)
      ensures FileGroupOver(t, cuts, n)(k) == FileGroupWork(t, cuts[0])(k)
    {
      GroupTotal(t, k, cuts);
      if cuts[0] == 0 {
        FormsAgree(t, k);
      }
    }
    SumSame(Groups(t), FileGroupOver(t, cuts, n), FileGroupWork(t, cuts[0]));
  }
}
