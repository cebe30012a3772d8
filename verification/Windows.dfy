/**
 * Whole-file duplicate groups, loaded one generation window at a time (src/dbfile.c GET_DUPLICATE_FILES).
 * The query is modelled as set comprehensions over the rows of the files table.
 */
module Windows {
  import opened Options

  /** A row of the files table; its id is its key there. `gen` is dedupe_seq. */
  datatype FileRow = FileRow(
    digest: Option<nat>, size: nat, inlined: bool, readOnly: bool, nrExtents: nat, gen: nat)

  type Files = map<nat, FileRow>

  /** A duplicate group: a digest and a size. */
  type Key = (nat, nat)

  predicate Eligible(f: FileRow) { f.digest.Some? && !f.inlined }

  function Members(t: Files, k: Key): (m: set<nat>)
    ensures m <= t.Keys
  {
    set i | i in t && Eligible(t[i]) && t[i].digest.value == k.0 && t[i].size == k.1
  }

  // ---- The elected target ----

  /** The election's order: read-only first, then fewest extents, then lowest id. */
  predicate Outranks(t: Files, a: nat, b: nat)
    requires a in t && b in t
  {
    if t[a].readOnly != t[b].readOnly then t[a].readOnly
    else if t[a].nrExtents != t[b].nrExtents then t[a].nrExtents < t[b].nrExtents
    else a < b
  }

  ghost predicate IsTarget(t: Files, ms: set<nat>, i: nat)
    requires ms <= t.Keys
  {
    i in ms && forall m :: m in ms && m != i ==> Outranks(t, i, m)
  }

  lemma {:induction false} TargetExists(t: Files, ms: set<nat>)
    requires ms <= t.Keys && ms != {}
    ensures exists i :: IsTarget(t, ms, i)
    decreases ms
  {
    var x :| x in ms;
    var rest := ms - {x};
    if rest == {} {
      assert ms == {x};
      assert IsTarget(t, ms, x);
    } else {
      TargetExists(t, rest);
      var i :| IsTarget(t, rest, i);
      forall m | m in ms && m != i && m != x
        ensures Outranks(t, i, m)
      {
        assert m in rest;
      }
      assert IsTarget(t, ms, if Outranks(t, i, x) then i else x);
    }
  }

  lemma TargetUnique(t: Files, ms: set<nat>, i: nat, j: nat)
    requires ms <= t.Keys && IsTarget(t, ms, i) && IsTarget(t, ms, j)
    ensures i == j
  {
  }

  /** The first row of the ranking, over every member of the group and not just a window's. */
  ghost function Target(t: Files, k: Key): (i: nat)
    requires Members(t, k) != {}
    ensures IsTarget(t, Members(t, k), i)
  {
    TargetExists(t, Members(t, k));
    var i :| IsTarget(t, Members(t, k), i);
    i
  }

  // ---- One window ----

  predicate InWindow(t: Files, i: nat, lo: nat, hi: nat)
    requires i in t
  {
    lo < t[i].gen <= hi
  }

  /** grp and tgt: the group is loaded in the window (lo, hi] of a run that began at `first`. */
  ghost predicate Loads(t: Files, k: Key, lo: nat, hi: nat, first: nat) {
    var ms := Members(t, k);
    && (exists i :: i in ms && InWindow(t, i, lo, hi))
    && |ms| > 1
    && var g := Target(t, k);
       || t[g].gen <= lo || hi < t[g].gen
       || exists m :: m in ms && m != g && (t[m].gen <= first || InWindow(t, m, lo, hi))
  }

  /** The members the window loads: its own, the target, and the old ones if the target is new in it. */
  ghost function Loaded(t: Files, k: Key, lo: nat, hi: nat, first: nat): set<nat> {
    if !Loads(t, k, lo, hi, first) then {} else
      var g := Target(t, k);
      set i | i in Members(t, k) &&
              (InWindow(t, i, lo, hi) || i == g || (InWindow(t, g, lo, hi) && t[i].gen <= first))
  }

  // ---- Splitting a run into windows ----

  /** Any way to cut the generations (first, max] into windows. */
  ghost predicate Split(cuts: seq<nat>) {
    |cuts| > 0 && forall i :: 0 < i < |cuts| ==> cuts[i - 1] < cuts[i]
  }

  lemma {:induction false} CutsRise(cuts: seq<nat>, i: nat, j: nat)
    requires Split(cuts) && i <= j < |cuts|
    ensures cuts[i] <= cuts[j]
  {
    if i < j {
      CutsRise(cuts, i, j - 1);
    }
  }

  /** Every generation between two cuts is in one window. */
  lemma {:induction false} WindowOf(cuts: seq<nat>, n: nat, g: nat) returns (w: nat)
    requires Split(cuts) && n < |cuts| && cuts[0] < g <= cuts[n]
    ensures w < n && cuts[w] < g <= cuts[w + 1]
  {
    if g <= cuts[n - 1] {
      w := WindowOf(cuts, n - 1, g);
    } else {
      w := n - 1;
    }
  }
}
