/**
 * Duplicate extents, loaded one generation window at a time (src/dbfile.c GET_DUPLICATE_EXTENTS,
 * EXTENTS_OLDER_COPY, FILEDUP_MEMBER), and their part of the progress total (COUNT_EXTENTS_WORK).
 */
module ExtentWindows {
  import opened Options
  import opened Windows
  import opened Convergence
  import opened Sums
  import opened WorkTotal

  /** A row of the extents table; its rowid is its key there. */
  datatype ExtRow = ExtRow(file: nat, digest: nat, len: nat)

  type Extents = map<nat, ExtRow>

  /** FILEDUP_MEMBER: the file has a whole-file duplicate. */
  predicate Filedup(t: Files, i: nat)
    requires i in t
  {
    && Eligible(t[i])
    && exists j :: j in t && j != i && Eligible(t[j]) && t[j].digest == t[i].digest && t[j].size == t[i].size
  }

  /** The group of an extent: digest and length. Extents of whole-file duplicates are in no group. */
  function Copies(t: Files, x: Extents, k: Key): (c: set<nat>)
    ensures forall r :: r in c ==> r in x && x[r].file in t
  {
    set r | r in x && x[r].file in t && !Filedup(t, x[r].file) && x[r].digest == k.0 && x[r].len == k.1
  }

  function Gen(t: Files, x: Extents, r: nat): nat
    requires r in x && x[r].file in t
  {
    t[x[r].file].gen
  }

  // ---- The order of the loader's rows ----

  predicate Known(t: Files, x: Extents, s: set<nat>) {
    forall r :: r in s ==> r in x && x[r].file in t
  }

  /** By generation, file id, rowid. */
  predicate Precedes(t: Files, x: Extents, a: nat, b: nat)
    requires a in x && x[a].file in t && b in x && x[b].file in t
  {
    if Gen(t, x, a) != Gen(t, x, b) then Gen(t, x, a) < Gen(t, x, b)
    else if x[a].file != x[b].file then x[a].file < x[b].file
    else a < b
  }

  ghost predicate IsLeast(t: Files, x: Extents, s: set<nat>, r: nat)
    requires Known(t, x, s)
  {
    r in s && forall q :: q in s && q != r ==> Precedes(t, x, r, q)
  }

  lemma {:induction false} LeastExists(t: Files, x: Extents, s: set<nat>)
    requires Known(t, x, s) && s != {}
    ensures exists r :: IsLeast(t, x, s, r)
    decreases s
  {
    var a :| a in s;
    var rest := s - {a};
    if rest == {} {
      assert s == {a};
      assert IsLeast(t, x, s, a);
    } else {
      LeastExists(t, x, rest);
      var b :| IsLeast(t, x, rest, b);
      forall q | q in s && q != a && q != b
        ensures Precedes(t, x, b, q)
      {
        assert q in rest;
      }
      assert IsLeast(t, x, s, if Precedes(t, x, a, b) then a else b);
    }
  }

  ghost function Least(t: Files, x: Extents, s: set<nat>): (r: nat)
    requires Known(t, x, s) && s != {}
    ensures IsLeast(t, x, s, r)
  {
    LeastExists(t, x, s);
    var r :| IsLeast(t, x, s, r);
    r
  }

  lemma LeastUnique(t: Files, x: Extents, s: set<nat>, a: nat, b: nat)
    requires Known(t, x, s) && IsLeast(t, x, s, a) && IsLeast(t, x, s, b)
    ensures a == b
  {
  }

  /** The rows of a set in that order. */
  ghost function Ordered(t: Files, x: Extents, s: set<nat>): seq<nat>
    requires Known(t, x, s)
  {
    if s == {} then []
    else
      var r := Least(t, x, s);
      [r] + Ordered(t, x, s - {r})
  }

  lemma {:induction false} OrderedRows(t: Files, x: Extents, s: set<nat>)
    requires Known(t, x, s)
    ensures |Ordered(t, x, s)| == |s|
    ensures forall r :: r in Ordered(t, x, s) <==> r in s
    ensures forall i, j :: 0 <= i < j < |s| ==> Ordered(t, x, s)[i] != Ordered(t, x, s)[j]
    decreases s
  {
    if s != {} {
      var r := Least(t, x, s);
      OrderedRows(t, x, s - {r});
      forall q
        ensures q in Ordered(t, x, s) <==> q in s
      {
        assert q in s <==> q == r || q in s - {r};
      }
    }
  }

  /** The extent is of an older generation, or of a lower file id in it, or of a lower rowid in that. */
  predicate Before(t: Files, x: Extents, a: nat, b: nat) {
    && a in x && b in x && x[a].file in t && x[b].file in t
    && var e, f := x[a].file, x[b].file;
       t[e].gen < t[f].gen || (t[e].gen == t[f].gen && (e < f || (e == f && a < b)))
  }

  lemma LeastBefore(t: Files, x: Extents, s: set<nat>, q: nat)
    requires Known(t, x, s) && q in s && q != Least(t, x, s)
    ensures Before(t, x, Least(t, x, s), q)
  {
    assert IsLeast(t, x, s, Least(t, x, s));
  }

  lemma OrderedHead(t: Files, x: Extents, s: set<nat>)
    requires Known(t, x, s) && s != {}
    ensures Least(t, x, s) in s && Ordered(t, x, s) == [Least(t, x, s)] + Ordered(t, x, s - {Least(t, x, s)})
  {
    assert IsLeast(t, x, s, Least(t, x, s));
  }

  /** And they rise in that order. */
  lemma {:induction false} OrderedRises(t: Files, x: Extents, s: set<nat>, i: nat, k: nat)
    requires Known(t, x, s) && i < k < |s|
    ensures |Ordered(t, x, s)| == |s| && Before(t, x, Ordered(t, x, s)[i], Ordered(t, x, s)[k])
    decreases s
  {
    hide Ordered, Precedes, Before, IsLeast;
    OrderedHead(t, x, s);
    var r := Least(t, x, s);
    var rest := Ordered(t, x, s - {r});
    OrderedRows(t, x, s);
    OrderedRows(t, x, s - {r});
    if i > 0 {
      OrderedRises(t, x, s - {r}, i - 1, k - 1);
    } else {
      assert rest[k - 1] in rest;
      LeastBefore(t, x, s, rest[k - 1]);
    }
  }

  // ---- One window ----

  function Window(t: Files, x: Extents, k: Key, lo: nat, hi: nat): (w: set<nat>)
    ensures Known(t, x, w)
  {
    set r | r in Copies(t, x, k) && lo < Gen(t, x, r) <= hi
  }

  /** The rows that can be the group's older member. */
  function Older(t: Files, x: Extents, k: Key, lo: nat): (o: set<nat>)
    ensures Known(t, x, o)
  {
    set r | r in Copies(t, x, k) && Gen(t, x, r) <= lo
  }

  /** The anchor: the first of the older members, asked for only past the first pass. */
  ghost function Anchor(t: Files, x: Extents, k: Key, lo: nat): Option<nat> {
    if lo > 0 && Older(t, x, k, lo) != {} then Some(Least(t, x, Older(t, x, k, lo))) else None
  }

  ghost predicate GroupLoads(t: Files, x: Extents, k: Key, lo: nat, hi: nat) {
    var c := |Window(t, x, k, lo, hi)|;
    c > 0 && (c > 1 || Anchor(t, x, k, lo).Some?)
  }

  /** The group's rows as the loader returns them: the anchor, then the window's own in order. */
  ghost function Rows(t: Files, x: Extents, k: Key, lo: nat, hi: nat): seq<nat> {
    if !GroupLoads(t, x, k, lo, hi) then []
    else
      (match Anchor(t, x, k, lo) case Some(a) => [a] case None => [])
      + Ordered(t, x, Window(t, x, k, lo, hi))
  }

  ghost predicate GensPositive(t: Files) {
    forall i :: i in t ==> t[i].gen > 0
  }

  /** The least of a set is the least of any part of it that has everything up to some generation. */
  lemma LeastOfPart(t: Files, x: Extents, all: set<nat>, part: set<nat>)
    requires Known(t, x, all) && part <= all && part != {} && all != {}
    requires forall r, q :: r in part && q in all && q !in part ==> Gen(t, x, r) < Gen(t, x, q)
    ensures Known(t, x, part) && Least(t, x, part) == Least(t, x, all)
  {
    var r := Least(t, x, part);
    assert IsLeast(t, x, all, r);
    LeastUnique(t, x, all, r, Least(t, x, all));
  }

  /** Every window that loads a group puts the same extent first: the least of all its copies. */
  lemma OneLeader(t: Files, x: Extents, k: Key, lo: nat, hi: nat)
    requires lo < hi && GensPositive(t) && GroupLoads(t, x, k, lo, hi)
    ensures Copies(t, x, k) != {}
    ensures Rows(t, x, k, lo, hi) != [] && Rows(t, x, k, lo, hi)[0] == Least(t, x, Copies(t, x, k))
  {
    var w, o, all := Window(t, x, k, lo, hi), Older(t, x, k, lo), Copies(t, x, k);
    var e :| e in w;
    assert e in all;
    if o != {} {
      assert lo > 0 by {
        var r :| r in o;
        assert Gen(t, x, r) > 0;
      }
      LeastOfPart(t, x, all, o);
    } else {
      assert forall q :: q in all && q !in w ==> hi < Gen(t, x, q) by {
        forall q | q in all && q !in w ensures hi < Gen(t, x, q) { assert q !in o; }
      }
      LeastOfPart(t, x, all, w);
    }
  }

  /** The row is of a file that no other file duplicates as a whole. */
  ghost predicate Alone(t: Files, i: nat)
    requires i in t
  {
    forall j :: j in t && j != i ==> !OneGroup(t[i], t[j])
  }

  /**
   * What a window loads of a group, on the rows alone: extents of the group's digest and length, of files no
   * other duplicates as a whole; the first is of the oldest generation, then the lowest file id, then the lowest
   * rowid of all such extents there are, and every other one is new in the window.
   */
  lemma LoadedRows(t: Files, x: Extents, k: Key, lo: nat, hi: nat, i: nat)
    requires lo < hi && GensPositive(t) && i < |Rows(t, x, k, lo, hi)|
    ensures var rows := Rows(t, x, k, lo, hi);
            && rows[i] in x && rows[0] in x && x[rows[i]].file in t && x[rows[0]].file in t
            && (x[rows[i]].digest, x[rows[i]].len) == k && Alone(t, x[rows[i]].file)
            && (i > 0 ==> lo < t[x[rows[i]].file].gen <= hi)
            && forall r :: r in x && x[r].file in t && (x[r].digest, x[r].len) == k && Alone(t, x[r].file) ==>
                 r == rows[0] || Before(t, x, rows[0], r)
  {
    hide Ordered, Precedes, Before, Alone, Copies, Rows;
    RowIsCopy(t, x, k, lo, hi, i);
    var rows := Rows(t, x, k, lo, hi);
    CopiesOnRows(t, x, k, rows[i]);
    CopiesOnRows(t, x, k, rows[0]);
    forall r | r in x && x[r].file in t && (x[r].digest, x[r].len) == k && Alone(t, x[r].file)
      ensures r == rows[0] || Before(t, x, rows[0], r)
    {
      CopiesOnRows(t, x, k, r);
      if r != rows[0] { LeastBefore(t, x, Copies(t, x, k), r); }
    }
  }

  lemma CopiesOnRows(t: Files, x: Extents, k: Key, r: nat)
    ensures r in Copies(t, x, k) <==>
            r in x && x[r].file in t && (x[r].digest, x[r].len) == k && Alone(t, x[r].file)
  {
  }

  lemma RowIsCopy(t: Files, x: Extents, k: Key, lo: nat, hi: nat, i: nat)
    requires lo < hi && GensPositive(t) && i < |Rows(t, x, k, lo, hi)|
    ensures Copies(t, x, k) != {} && Rows(t, x, k, lo, hi)[0] == Least(t, x, Copies(t, x, k))
    ensures Rows(t, x, k, lo, hi)[0] in Copies(t, x, k) && Rows(t, x, k, lo, hi)[i] in Copies(t, x, k)
    ensures i > 0 ==> Rows(t, x, k, lo, hi)[i] in Window(t, x, k, lo, hi)
  {
    hide Ordered, Precedes, Copies;
    OneLeader(t, x, k, lo, hi);
    var w := Window(t, x, k, lo, hi);
    OrderedRows(t, x, w);
    var rows, own := Rows(t, x, k, lo, hi), Ordered(t, x, w);
    assert IsLeast(t, x, Copies(t, x, k), rows[0]);
    var head := match Anchor(t, x, k, lo) case Some(a) => [a] case None => [];
    assert rows == head + own;
    if i > 0 {
      assert rows[i] in own;
    }
  }

  /**
   * Over all windows of a run, each new copy other than the leader is loaded exactly once, with the leader
   * before it.
   */
  lemma LoadedOnce(t: Files, x: Extents, k: Key, cuts: seq<nat>, r: nat) returns (w: nat)
    requires Split(cuts) && GensPositive(t) && r in Copies(t, x, k)
    requires cuts[0] < Gen(t, x, r) <= cuts[|cuts| - 1]
    requires r != Least(t, x, Copies(t, x, k))
    ensures w < |cuts| - 1
    ensures r in Rows(t, x, k, cuts[w], cuts[w + 1])
    ensures Rows(t, x, k, cuts[w], cuts[w + 1])[0] == Least(t, x, Copies(t, x, k))
    ensures forall v :: 0 <= v < |cuts| - 1 && v != w ==> r !in Rows(t, x, k, cuts[v], cuts[v + 1])
    ensures multiset(Rows(t, x, k, cuts[w], cuts[w + 1]))[r] == 1
  {
    hide Ordered, Precedes;
    var l := Least(t, x, Copies(t, x, k));
    w := WindowOf(cuts, |cuts| - 1, Gen(t, x, r));
    var lo, hi := cuts[w], cuts[w + 1];
    LoadsWithLeader(t, x, k, lo, hi, r, l);
    OneLeader(t, x, k, lo, hi);
    InRows(t, x, k, lo, hi, r);
    forall v | 0 <= v < |cuts| - 1 && v != w
      ensures r !in Rows(t, x, k, cuts[v], cuts[v + 1])
    {
      if v < w { CutsRise(cuts, v + 1, w); } else { CutsRise(cuts, w + 1, v); }
      InRows(t, x, k, cuts[v], cuts[v + 1], r);
    }
  }

  /** The window of a copy that is not the leader loads the group. */
  lemma LoadsWithLeader(t: Files, x: Extents, k: Key, lo: nat, hi: nat, r: nat, l: nat)
    requires lo < hi && GensPositive(t) && r in Window(t, x, k, lo, hi)
    requires IsLeast(t, x, Copies(t, x, k), l) && r != l
    ensures GroupLoads(t, x, k, lo, hi)
  {
    assert Gen(t, x, l) <= Gen(t, x, r) && Gen(t, x, l) > 0;
    if Gen(t, x, l) <= lo {
      assert l in Older(t, x, k, lo);
    } else {
      assert l in Window(t, x, k, lo, hi);
      TwoMembers(Window(t, x, k, lo, hi), r, l);
    }
  }

  /** A copy other than the leader is in a window's rows exactly when it is one of its own, and then once. */
  lemma InRows(t: Files, x: Extents, k: Key, lo: nat, hi: nat, r: nat)
    requires lo < hi && GensPositive(t) && r in Copies(t, x, k) && r != Least(t, x, Copies(t, x, k))
    ensures r in Rows(t, x, k, lo, hi) <==> r in Window(t, x, k, lo, hi) && GroupLoads(t, x, k, lo, hi)
    ensures r in Rows(t, x, k, lo, hi) ==> multiset(Rows(t, x, k, lo, hi))[r] == 1
  {
    hide Ordered, Precedes, Copies;
    if GroupLoads(t, x, k, lo, hi) {
      OneLeader(t, x, k, lo, hi);
      OrderedRows(t, x, Window(t, x, k, lo, hi));
      var rows := Ordered(t, x, Window(t, x, k, lo, hi));
      OnceIn(rows, r);
      var head := match Anchor(t, x, k, lo) case Some(a) => [a] case None => [];
      assert Rows(t, x, k, lo, hi) == head + rows;
      assert head != [] ==> head[0] == Rows(t, x, k, lo, hi)[0];
    }
  }

  lemma {:induction false} OnceIn(s: seq<nat>, r: nat)
    requires forall i, j :: 0 <= i < j < |s| ==> s[i] != s[j]
    ensures r in s ==> multiset(s)[r] == 1
  {
    if r in s {
      var i :| 0 <= i < |s| && s[i] == r;
      assert s == s[..i] + [r] + s[i + 1..];
      assert r !in s[..i] && r !in s[i + 1..];
    }
  }

  // ---- Later runs ----

  /** Later runs only add rows: files and extents above every generation there was. */
  ghost predicate Added(t: Files, x: Extents, t': Files, x': Extents, mark: nat) {
    && (forall i :: i in t ==> i in t' && t'[i] == t[i] && t[i].gen <= mark)
    && (forall i :: i in t' && i !in t ==> mark < t'[i].gen)
    && (forall r :: r in x ==> r in x' && x'[r] == x[r] && x[r].file in t)
    && (forall r :: r in x' && r !in x ==> x'[r].file !in t)
  }

  /**
   * The leader survives whatever arrives later, unless its own file turns out to have a whole-file
   * duplicate; then it leaves the group. So it stays exactly when that does not happen.
   */
  lemma LeaderStays(t: Files, x: Extents, t': Files, x': Extents, mark: nat, k: Key)
    requires Added(t, x, t', x', mark) && Copies(t, x, k) != {} && Copies(t', x', k) != {}
    ensures Least(t', x', Copies(t', x', k)) == Least(t, x, Copies(t, x, k))
            <==> !Filedup(t', x[Least(t, x, Copies(t, x, k))].file)
  {
    var l := Least(t, x, Copies(t, x, k));
    if !Filedup(t', x[l].file) {
      assert l in Copies(t', x', k);
      forall q | q in Copies(t', x', k) && q != l
        ensures Precedes(t', x', l, q)
      {
        if q in x {
          FiledupGrows(t, t', x[q].file);
          assert q in Copies(t, x, k) && Precedes(t, x, l, q);
        }
      }
      LeastUnique(t', x', Copies(t', x', k), l, Least(t', x', Copies(t', x', k)));
    }
  }

  /** It can happen: a copy of the leader's whole file arrives, and the next extent takes over. */
  lemma LeaderLeaves() returns (t: Files, x: Extents, t': Files, x': Extents, k: Key)
    ensures GensPositive(t) && Added(t, x, t', x', 1)
    ensures Copies(t, x, k) == {1, 2} && Least(t, x, Copies(t, x, k)) == 1
    ensures 3 in x' && x'[3].file == 3 && (x'[3].digest, x'[3].len) == k
    ensures Copies(t', x', k) == {2} && Least(t', x', Copies(t', x', k)) == 2
  {
    t := map[1 := FileRow(Some(10), 100, false, false, 1, 1), 2 := FileRow(Some(20), 200, false, false, 1, 1)];
    x := map[1 := ExtRow(1, 5, 8), 2 := ExtRow(2, 5, 8)];
    t' := t[3 := FileRow(Some(10), 100, false, false, 1, 2)];
    x' := x[3 := ExtRow(3, 5, 8)];
    k := (5, 8);
    assert Filedup(t', 1) by { assert 3 in t' && Eligible(t'[3]); }
    assert Filedup(t', 3) by { assert 1 in t' && Eligible(t'[1]); }
    assert Copies(t, x, k) == {1, 2};
    assert IsLeast(t, x, {1, 2}, 1);
    assert Copies(t', x', k) == {2};
    assert IsLeast(t', x', {2}, 2);
  }

  lemma FiledupGrows(t: Files, t': Files, i: nat)
    requires i in t && i in t' && t'[i] == t[i]
    requires forall j :: j in t ==> j in t' && t'[j] == t[j]
    ensures Filedup(t, i) ==> Filedup(t', i)
  {
  }

  // ---- The progress total ----

  /** COUNT_EXTENTS_WORK_SINCE, per unit of length. */
  ghost function ExtentsSince(t: Files, x: Extents, k: Key, first: nat): nat {
    var c := |set r | r in Copies(t, x, k) && first < Gen(t, x, r)|;
    if c == 0 then 0
    else if Older(t, x, k, first) != {} then c
    else if c > 1 then c - 1
    else 0
  }

  /** COUNT_EXTENTS_WORK_ALL, per unit of length. */
  function ExtentsAll(t: Files, x: Extents, k: Key): nat {
    if |Copies(t, x, k)| > 1 then |Copies(t, x, k)| - 1 else 0
  }

  ghost function ExtentsIn(t: Files, x: Extents, k: Key, lo: nat, hi: nat): nat {
    var n := |Rows(t, x, k, lo, hi)|;
    if n == 0 then 0 else n - 1
  }

  ghost function ExtentsOver(t: Files, x: Extents, k: Key, cuts: seq<nat>, n: nat): nat
    requires n < |cuts|
  {
    if n == 0 then 0
    else ExtentsOver(t, x, k, cuts, n - 1) + ExtentsIn(t, x, k, cuts[n - 1], cuts[n])
  }

  lemma WindowExtents(t: Files, x: Extents, k: Key, lo: nat, hi: nat)
    requires lo < hi && GensPositive(t)
    ensures var c := |Window(t, x, k, lo, hi)|;
            ExtentsIn(t, x, k, lo, hi) == if c == 0 || Older(t, x, k, lo) != {} then c else c - 1
  {
    OrderedRows(t, x, Window(t, x, k, lo, hi));
    if r :| r in Older(t, x, k, lo) {
      assert Gen(t, x, r) > 0;
    }
  }

  /** Two adjoining windows, and what the second one finds before it. */
  lemma Adjoining(t: Files, x: Extents, k: Key, a: nat, b: nat, c: nat)
    requires a <= b < c
    ensures |Window(t, x, k, a, c)| == |Window(t, x, k, a, b)| + |Window(t, x, k, b, c)|
    ensures Older(t, x, k, b) != {} <==> Older(t, x, k, a) != {} || |Window(t, x, k, a, b)| > 0
  {
    hide Copies, Gen;
    assert Window(t, x, k, a, c) == Window(t, x, k, a, b) + Window(t, x, k, b, c);
    CardUnion(Window(t, x, k, a, b), Window(t, x, k, b, c));
    assert Older(t, x, k, b) == Older(t, x, k, a) + Window(t, x, k, a, b);
    SomeIn(Window(t, x, k, a, b));
  }

  /** Up to a cut, all copies but the leader, if the leader is new; else all of them. */
  lemma {:induction false} ExtentsUpTo(t: Files, x: Extents, k: Key, cuts: seq<nat>, n: nat)
    requires Split(cuts) && n < |cuts| && GensPositive(t)
    ensures var c := |Window(t, x, k, cuts[0], cuts[n])|;
            ExtentsOver(t, x, k, cuts, n) == if c == 0 || Older(t, x, k, cuts[0]) != {} then c else c - 1
  {
    hide Rows, ExtentsIn, Older;
    if n == 0 {
      assert Window(t, x, k, cuts[0], cuts[0]) == {};
    } else {
      hide Window, GensPositive;
      ExtentsUpTo(t, x, k, cuts, n - 1);
      CutsRise(cuts, 0, n - 1);
      WindowExtents(t, x, k, cuts[n - 1], cuts[n]);
      Adjoining(t, x, k, cuts[0], cuts[n - 1], cuts[n]);
    }
  }

  lemma ExtentsTotal(t: Files, x: Extents, k: Key, cuts: seq<nat>)
    requires Split(cuts) && forall i :: i in t ==> 0 < t[i].gen <= cuts[|cuts| - 1]
    ensures ExtentsOver(t, x, k, cuts, |cuts| - 1) == ExtentsSince(t, x, k, cuts[0])
    ensures cuts[0] == 0 ==> ExtentsSince(t, x, k, 0) == ExtentsAll(t, x, k)
  {
    hide ExtentsOver;
    ExtentsUpTo(t, x, k, cuts, |cuts| - 1);
    var first := cuts[0];
    assert Window(t, x, k, first, cuts[|cuts| - 1]) == set r | r in Copies(t, x, k) && first < Gen(t, x, r);
    if first == 0 {
      assert Older(t, x, k, 0) == {};
      assert (set r | r in Copies(t, x, k) && 0 < Gen(t, x, r)) == Copies(t, x, k);
    }
  }

  ghost function ExtentGroups(x: Extents): set<Key> {
    set r | r in x :: (x[r].digest, x[r].len)
  }

  /** The bytes the count query gives a group. */
  ghost function GroupWork(t: Files, x: Extents, first: nat): Key -> nat {
    (k: Key) => k.1 * (if first > 0 then ExtentsSince(t, x, k, first) else ExtentsAll(t, x, k))
  }

  /** The bytes compared for a group in one window, and in the first n. */
  ghost function GroupIn(t: Files, x: Extents, lo: nat, hi: nat): Key -> nat {
    (k: Key) => k.1 * ExtentsIn(t, x, k, lo, hi)
  }

  ghost function GroupOver(t: Files, x: Extents, cuts: seq<nat>, n: nat): Key -> nat
    requires n < |cuts|
  {
    (k: Key) => k.1 * ExtentsOver(t, x, k, cuts, n)
  }

  /** The byte total of the count query. */
  ghost function ExtentsWork(t: Files, x: Extents, first: nat): nat {
    Sum(ExtentGroups(x), GroupWork(t, x, first))
  }

  /** The bytes the workers compare for what the first n windows load. */
  ghost function ExtentWindowsWork(t: Files, x: Extents, cuts: seq<nat>, n: nat): nat
    requires n < |cuts|
  {
    if n == 0 then 0
    else ExtentWindowsWork(t, x, cuts, n - 1) + Sum(ExtentGroups(x), GroupIn(t, x, cuts[n - 1], cuts[n]))
  }

  lemma OverStep(t: Files, x: Extents, cuts: seq<nat>, n: nat, k: Key)
    requires 0 < n < |cuts|
    ensures GroupOver(t, x, cuts, n)(k) == GroupOver(t, x, cuts, n - 1)(k) + GroupIn(t, x, cuts[n - 1], cuts[n])(k)
  {
    hide ExtentsIn;
    Distribute(k.1, ExtentsOver(t, x, k, cuts, n - 1), ExtentsIn(t, x, k, cuts[n - 1], cuts[n]));
  }

  lemma {:induction false} ExtentWorkByGroup(t: Files, x: Extents, cuts: seq<nat>, n: nat)
    requires n < |cuts|
    ensures ExtentWindowsWork(t, x, cuts, n) == Sum(ExtentGroups(x), GroupOver(t, x, cuts, n))
  {
    hide ExtentsIn, ExtentGroups, Sum;
    if n == 0 {
      SumNothing(ExtentGroups(x), GroupOver(t, x, cuts, 0));
    } else {
      hide GroupOver, GroupIn;
      ExtentWorkByGroup(t, x, cuts, n - 1);
      forall k | k in ExtentGroups(x)
        ensures GroupOver(t, x, cuts, n)(k) == GroupOver(t, x, cuts, n - 1)(k) + GroupIn(t, x, cuts[n - 1], cuts[n])(k)
      {
        OverStep(t, x, cuts, n, k);
      }
      SumPlus(ExtentGroups(x), GroupOver(t, x, cuts, n - 1), GroupIn(t, x, cuts[n - 1], cuts[n]),
              GroupOver(t, x, cuts, n));
    }
  }

  /** The extent part of the total is exact too, for every table and every split. */
  lemma ExtentsWorkExact(t: Files, x: Extents, cuts: seq<nat>)
    requires Split(cuts) && forall i :: i in t ==> 0 < t[i].gen <= cuts[|cuts| - 1]
    ensures ExtentWindowsWork(t, x, cuts, |cuts| - 1) == ExtentsWork(t, x, cuts[0])
  {
    hide ExtentsOver, ExtentsSince, ExtentsAll, ExtentGroups, ExtentWindowsWork, Sum;
    var n := |cuts| - 1;
    ExtentWorkByGroup(t, x, cuts, n);
    forall k | k in ExtentGroups(x)
      ensures GroupOver(t, x, cuts, n)(k) == GroupWork(t, x, cuts[0])(k)
    {
      ExtentsTotal(t, x, k, cuts);
    }
    SumSame(ExtentGroups(x), GroupOver(t, x, cuts, n), GroupWork(t, x, cuts[0]));
  }

  /** No file is counted in both parts: a file of a whole-file group has no extent in any extent group. */
  lemma PartsDisjoint(t: Files, x: Extents, k: Key, i: nat, e: Key, r: nat)
    requires i in Members(t, k) && |Members(t, k)| > 1
    requires r in Copies(t, x, e)
    ensures x[r].file != i
  {
    assert Members(t, k) != {i} by { assert |{i}| == 1; }
    var j :| j in Members(t, k) && j != i;
    assert Filedup(t, i);
  }

  /** dbfile_count_dupe_work(): the whole byte total, and what all the windows of the run compare. */
  lemma WorkTotalExact(t: Files, x: Extents, cuts: seq<nat>)
    requires Split(cuts) && forall i :: i in t ==> 0 < t[i].gen <= cuts[|cuts| - 1]
    ensures FilesWork(t, cuts[0]) + ExtentsWork(t, x, cuts[0])
            == WindowsWork(t, cuts, |cuts| - 1) + ExtentWindowsWork(t, x, cuts, |cuts| - 1)
  {
    hide FilesWork, ExtentsWork, WindowsWork, ExtentWindowsWork;
    FilesWorkExact(t, cuts);
    ExtentsWorkExact(t, x, cuts);
  }
}
