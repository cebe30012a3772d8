/**
 * The scan's batched writer (src/file_scan.c, scan_write_*): one transaction over many files, each file's
 * writes a unit inside a savepoint. SQLite itself is its documented behaviour, on a value; every call to it
 * may fail.
 */
module WriteUnits {
  import opened Options

  /** What one statement wrote. */
  type Row = nat

  /** How a statement ends: on some errors SQLite drops the whole transaction by itself. */
  datatype Outcome = Success | Failure | RolledBack

  /** A connection: what is durable, and the open transaction if there is one. */
  datatype Conn = Conn(committed: seq<Row>, open: bool, pending: seq<Row>, savepoint: Option<nat>) {

    function Dropped(): Conn { Conn(committed, false, [], None) }

    /** A statement; without a transaction it commits on its own. */
    function Write(row: Row, o: Outcome): Conn {
      match o
      case Success => if open then this.(pending := pending + [row]) else this.(committed := committed + [row])
      case Failure => this
      case RolledBack => Dropped()
    }

    function Commit(o: Outcome): Conn {
      match o
      case Success => Conn(committed + pending, false, [], None)
      case Failure => this
      case RolledBack => Dropped()
    }
  }

  /** The rows of some units, in order. */
  function Flat(units: seq<seq<Row>>): seq<Row> {
    if units == [] then [] else Flat(units[..|units| - 1]) + units[|units| - 1]
  }

  lemma FlatAdd(units: seq<seq<Row>>, u: seq<Row>)
    ensures Flat(units + [u]) == Flat(units) + u
  {
    assert (units + [u])[..|units|] == units;
  }

  lemma {:induction false} FlatSplit(units: seq<seq<Row>>, n: nat)
    requires n <= |units|
    ensures Flat(units[..n]) + Flat(units[n..]) == Flat(units)
  {
    if n == |units| {
      assert units[..n] == units && units[n..] == [];
    } else {
      hide Flat;
      var init, last := units[..|units| - 1], units[|units| - 1];
      FlatSplit(init, n);
      assert units[n..] == init[n..] + [last] && init[..n] == units[..n] && units == init + [last];
      FlatAdd(init[n..], last);
      FlatAdd(init, last);
    }
  }

  // ---- What the calls mean, without a database ----

  datatype Op =
    | Begin(begin: bool, savepoint: bool)             // scan_write_begin()
    | Write(row: Row, o: Outcome)                     // a statement of the open unit
    | Flush(release: bool, commit: Outcome)           // scan_write_flush()
    | End(release: bool, due: bool, commit: Outcome)  // scan_write_end()
    | Abort(rollback: bool, release: bool)            // scan_write_abort()

  /** The units ended and kept, how many of them a commit has covered, and the one open now. */
  datatype History = History(
    batchOpen: bool,
    unitOpen: bool,
    undercut: bool,         // SQLite has dropped the transaction under the open unit
    lost: bool,
    units: seq<seq<Row>>,
    durable: nat,
    unit: seq<Row>,
    late: seq<Row>)         // what units wrote after SQLite dropped the transaction under them
  {
    /** The batch is gone: nothing is open, and nothing more will be. */
    function Lose(): History { this.(batchOpen := false, unitOpen := false, undercut := false, lost := true) }

    function Keep(release: bool): History {
      if !unitOpen then this
      else if release && !undercut then this.(unitOpen := false, units := units + [unit])
      else Lose()
    }

    function Settle(commit: Outcome): History {
      if !batchOpen then this
      else if commit.Success? then this.(batchOpen := false, durable := |units|)
      else Lose()
    }

    /** Callers write only in a unit they opened, and open none inside it. */
    function Next(op: Op): History {
      match op
      case Begin(begin, savepoint) =>
        if lost || unitOpen || (!batchOpen && !begin) then this
        else if !savepoint then this.(batchOpen := true)
        else this.(batchOpen := true, unitOpen := true, undercut := false, unit := [])
      case Write(row, o) =>
        if !unitOpen || o.Failure? then this
        else if o.RolledBack? then this.(undercut := true)
        else if undercut then this.(late := late + [row])
        else this.(unit := unit + [row])
      case Flush(release, commit) => Keep(release).Settle(commit)
      case End(release, due, commit) => if due then Keep(release).Settle(commit) else Keep(release)
      case Abort(rollback, release) =>
        if !unitOpen then this
        else if undercut || !rollback || !release then Lose()
        else this.(unitOpen := false)
    }
  }

  const START := History(false, false, false, false, [], 0, [], [])

  function After(ops: seq<Op>, n: nat): History
    requires n <= |ops|
  {
    if n == 0 then START else After(ops, n - 1).Next(ops[n - 1])
  }

  // ---- The writer ----

  class ScanWriter {
    var conn: Conn
    var transOpen: bool
    var unitOpen: bool
    var lost: bool
    ghost var h: History

    /** The units kept since the last commit. */
    ghost function Batch(): seq<Row>
      reads this
      requires h.durable <= |h.units|
    {
      Flat(h.units[h.durable..])
    }

    /** The connection holds exactly what the history says. */
    ghost predicate Valid()
      reads this
    {
      && h.durable <= |h.units|
      && h.batchOpen == transOpen && h.unitOpen == unitOpen && h.lost == lost
      && h.undercut == (unitOpen && !conn.open)
      && conn.committed == Flat(h.units[..h.durable]) + h.late
      && (h.late != [] ==> lost || h.undercut)
      && (lost ==> !transOpen)
      && (!transOpen ==> !unitOpen && !conn.open && (lost || h.durable == |h.units|))
      && (transOpen && !unitOpen ==> conn.open && conn.savepoint == None && conn.pending == Batch())
      && (unitOpen && conn.open ==> conn.savepoint == Some(|Batch()|) && conn.pending == Batch() + h.unit)
    }

    constructor ()
      ensures Valid() && h == START
    {
      conn := Conn([], false, [], None);
      transOpen, unitOpen, lost := false, false, false;
      h := START;
    }

    /** batch_lost(). */
    method BatchLost()
      requires h.durable <= |h.units| && conn.committed == Flat(h.units[..h.durable]) + h.late
      modifies this
      ensures Valid() && h == old(h).Lose() && conn.committed == old(conn.committed)
    {
      if conn.open {
        conn := conn.Dropped();
      }
      transOpen, unitOpen, lost := false, false, true;
      h := h.Lose();
    }

    /** scan_write_begin(): the savepoint opens on the batch as it is, never inside another. */
    method Begin(begin: bool, savepoint: bool) returns (ok: bool)
      requires Valid() && (lost || !unitOpen)
      modifies this
      ensures Valid() && h == old(h).Next(Op.Begin(begin, savepoint)) && ok == unitOpen
      ensures conn.committed == old(conn.committed)
      ensures ok ==> conn.pending == Batch() && conn.savepoint == Some(|conn.pending|)
    {
      ghost var op := Op.Begin(begin, savepoint);
      if lost {
        return false;
      }
      if !transOpen {
        if !begin {
          return false;
        }
        conn := conn.(open := true, pending := [], savepoint := None);
        transOpen := true;
        assert h.units[h.durable..] == [];
      }
      h := h.Next(op);
      if !savepoint {
        return false;
      }
      assert conn.open && conn.savepoint == None;
      conn := conn.(savepoint := Some(|conn.pending|));
      unitOpen := true;
      ok := true;
    }

    /** A statement of the open unit. */
    method Write(row: Row, o: Outcome)
      requires Valid() && unitOpen
      modifies this`conn, this`h
      ensures Valid() && h == old(h).Next(Op.Write(row, o)) && conn == old(conn).Write(row, o)
    {
      h := h.Next(Op.Write(row, o));
      conn := conn.Write(row, o);
    }

    /** scan_unit_release(). */
    method Release(release: bool) returns (ok: bool)
      requires Valid()
      modifies this
      ensures Valid() && h == old(h).Keep(release) && conn.committed == old(conn.committed)
      ensures ok == (lost == old(lost))
    {
      if !unitOpen {
        return true;
      }
      unitOpen := false;
      if !release || conn.savepoint == None || !conn.open {
        BatchLost();
        return false;
      }
      conn := conn.(savepoint := None);
      FlatAdd(h.units[h.durable..], h.unit);
      h := h.Keep(release);
      assert h.units[h.durable..] == old(h).units[h.durable..] + [h.unit];
      assert h.units[..h.durable] == old(h).units[..h.durable];
      ok := true;
    }

    /** scan_write_flush(): everything kept becomes durable, or nothing more does. */
    method Flush(release: bool, commit: Outcome) returns (ok: bool)
      requires Valid()
      modifies this
      ensures Valid() && h == old(h).Next(Op.Flush(release, commit))
      ensures ok == (lost == old(lost))
    {
      hide Flat;
      ok := Release(release);
      if !ok || !transOpen {
        return;
      }
      conn := conn.Commit(commit);
      if !commit.Success? {
        BatchLost();
        return false;
      }
      transOpen := false;
      FlatSplit(h.units, h.durable);
      h := h.Settle(commit);
      assert h.units[..h.durable] == h.units;
    }

    /** scan_write_end(); `due` once the batch has been open for the commit interval. */
    method End(release: bool, due: bool, commit: Outcome) returns (ok: bool)
      requires Valid()
      modifies this
      ensures Valid() && h == old(h).Next(Op.End(release, due, commit))
      ensures ok == (lost == old(lost))
    {
      ok := Release(release);
      if !ok {
        return;
      }
      if transOpen && due {
        ok := Flush(true, commit);
      }
    }

    /** scan_write_abort(): the batch is as it was before the unit, or it is lost. */
    method Abort(rollback: bool, release: bool)
      requires Valid()
      modifies this
      ensures Valid() && h == old(h).Next(Op.Abort(rollback, release)) && conn.committed == old(conn.committed)
      ensures old(unitOpen) && !lost ==> conn.open && conn.pending == Batch() == old(Batch())
    {
      ghost var op := Op.Abort(rollback, release);
      if !unitOpen {
        return;
      }
      unitOpen := false;
      if !rollback || !conn.open || conn.savepoint == None {
        BatchLost();
        return;
      }
      conn := conn.(pending := conn.pending[..conn.savepoint.value]);
      if !release {
        BatchLost();
        return;
      }
      conn := conn.(savepoint := None);
      h := h.Next(op);
    }
  }

  // ---- Over any sequence of calls ----

  method Perform(w: ScanWriter, op: Op)
    requires w.Valid()
    modifies w
    ensures w.Valid() && w.h == old(w.h).Next(op)
  {
    match op
    case Begin(begin, savepoint) =>
      if !w.unitOpen {
        var _ := w.Begin(begin, savepoint);
      }
    case Write(row, o) =>
      if w.unitOpen {
        w.Write(row, o);
      }
    case Flush(release, commit) =>
      var _ := w.Flush(release, commit);
    case End(release, due, commit) =>
      var _ := w.End(release, due, commit);
    case Abort(rollback, release) =>
      w.Abort(rollback, release);
  }

  /** Whatever fails, what is durable is a prefix of the units kept, and what came too late for one. */
  method Run(ops: seq<Op>) returns (committed: seq<Row>)
    ensures After(ops, |ops|).durable <= |After(ops, |ops|).units|
    ensures committed == Durable(After(ops, |ops|))
  {
    hide Flat;
    var w := new ScanWriter();
    for i := 0 to |ops|
      invariant w.Valid() && fresh(w) && w.h == After(ops, i)
    {
      Perform(w, ops[i]);
    }
    committed := w.conn.committed;
  }

  // ---- When it is a prefix of the units kept ----

  /** Callers write only in a unit they opened, and open none inside it. */
  ghost predicate Disciplined(ops: seq<Op>) {
    forall i :: 0 <= i < |ops| ==>
      (ops[i].Write? ==> After(ops, i).unitOpen) && (ops[i].Begin? ==> !After(ops, i).unitOpen)
  }

  /** A row stands for what one statement wrote: no two have the same. */
  ghost predicate OwnRows(ops: seq<Op>) {
    forall i, k :: 0 <= i < k < |ops| && ops[i].Write? && ops[k].Write? ==> ops[i].row != ops[k].row
  }

  predicate DropsAt(ops: seq<Op>, i: nat) {
    i < |ops| && ops[i].Write? && ops[i].o.RolledBack?
  }

  predicate StoresAt(ops: seq<Op>, i: nat) {
    i < |ops| && ops[i].Write? && ops[i].o.Success?
  }

  /** Between two calls the unit is not ended. */
  ghost predicate SameUnit(ops: seq<Op>, i: nat, k: nat) {
    k <= |ops| && forall l :: i < l < k ==> ops[l].Write?
  }

  /** Some unit stores a row after one of its statements made SQLite drop the transaction. */
  ghost predicate WritesOn(ops: seq<Op>, n: nat) {
    exists i: nat, k: nat :: i < k < n && DropsAt(ops, i) && StoresAt(ops, k) && SameUnit(ops, i, k)
  }

  ghost predicate DroppedInUnit(ops: seq<Op>, n: nat) {
    exists i: nat :: i < n && DropsAt(ops, i) && SameUnit(ops, i, n)
  }

  lemma DroppedStep(ops: seq<Op>, n: nat)
    requires 0 < n <= |ops|
    ensures DroppedInUnit(ops, n) <==> DropsAt(ops, n - 1) || (ops[n - 1].Write? && DroppedInUnit(ops, n - 1))
  {
    if i: nat :| i < n && DropsAt(ops, i) && SameUnit(ops, i, n) {
      assert i < n - 1 ==> SameUnit(ops, i, n - 1);
    }
    if DropsAt(ops, n - 1) {
      assert SameUnit(ops, n - 1, n);
    } else if ops[n - 1].Write? {
      if i: nat :| i < n - 1 && DropsAt(ops, i) && SameUnit(ops, i, n - 1) {
        assert SameUnit(ops, i, n);
      }
    }
  }

  lemma WritesOnStep(ops: seq<Op>, n: nat)
    requires 0 < n <= |ops|
    ensures WritesOn(ops, n) <==> WritesOn(ops, n - 1) || (StoresAt(ops, n - 1) && DroppedInUnit(ops, n - 1))
  {
    hide SameUnit, DropsAt, StoresAt;
    if i: nat, k: nat :| i < k < n && DropsAt(ops, i) && StoresAt(ops, k) && SameUnit(ops, i, k) {
      assert k < n - 1 || k == n - 1;
    }
    if i: nat, k: nat :| i < k < n - 1 && DropsAt(ops, i) && StoresAt(ops, k) && SameUnit(ops, i, k) {
      assert k < n;
    }
    if i: nat :| i < n - 1 && DropsAt(ops, i) && SameUnit(ops, i, n - 1) {
      assert StoresAt(ops, n - 1) ==> WritesOn(ops, n);
    }
  }

  lemma CallAt(ops: seq<Op>, n: nat)
    requires 0 < n <= |ops| && Disciplined(ops)
    ensures After(ops, n) == After(ops, n - 1).Next(ops[n - 1])
    ensures ops[n - 1].Write? ==> After(ops, n - 1).unitOpen
    ensures ops[n - 1].Begin? ==> !After(ops, n - 1).unitOpen
  {
    assert ops[n - 1].Write? ==> After(ops, n - 1).unitOpen;
  }

  lemma NothingYet(ops: seq<Op>)
    ensures After(ops, 0) == START && !WritesOn(ops, 0) && !DroppedInUnit(ops, 0)
  {
  }

  /** The transaction is gone under the open unit exactly if one of its statements made SQLite drop it. */
  lemma {:induction false} UndercutExactly(ops: seq<Op>, n: nat)
    requires n <= |ops| && Disciplined(ops)
    ensures After(ops, n).undercut ==> After(ops, n).unitOpen
    ensures After(ops, n).unitOpen ==> (After(ops, n).undercut <==> DroppedInUnit(ops, n))
  {
    hide After, Disciplined, DroppedInUnit;
    if n == 0 {
      NothingYet(ops);
    } else {
      UndercutExactly(ops, n - 1);
      CallAt(ops, n);
      DroppedStep(ops, n);
    }
  }

  /** So something is stored too late exactly if some unit writes on. */
  lemma {:induction false} LateExactly(ops: seq<Op>, n: nat)
    requires n <= |ops| && Disciplined(ops)
    ensures After(ops, n).late == [] <==> !WritesOn(ops, n)
  {
    hide After, Disciplined, DroppedInUnit, WritesOn, History.Next;
    if n == 0 {
      NothingYet(ops);
    } else {
      LateExactly(ops, n - 1);
      UndercutExactly(ops, n - 1);
      CallAt(ops, n);
      WritesOnStep(ops, n);
      LateStep(After(ops, n - 1), ops[n - 1]);
    }
  }

  lemma LateStep(h: History, op: Op)
    ensures h.Next(op).late
            == h.late + (if op.Write? && op.o.Success? && h.unitOpen && h.undercut then [op.row] else [])
  {
  }

  /** The rows the first n calls stored. */
  function Stored(ops: seq<Op>, n: nat): set<Row>
    requires n <= |ops|
  {
    if n == 0 then {} else Stored(ops, n - 1) + (if StoresAt(ops, n - 1) then {ops[n - 1].row} else {})
  }

  lemma {:induction false} StoredBy(ops: seq<Op>, n: nat, row: Row) returns (i: nat)
    requires n <= |ops| && row in Stored(ops, n)
    ensures i < n && StoresAt(ops, i) && ops[i].row == row
  {
    if row in Stored(ops, n - 1) {
      i := StoredBy(ops, n - 1, row);
    } else {
      i := n - 1;
    }
  }

  ghost predicate Within(s: seq<Row>, rows: set<Row>) {
    forall r :: r in s ==> r in rows
  }

  ghost predicate Apart(s: seq<Row>, t: seq<Row>) {
    forall r :: r in s ==> r !in t
  }

  /** Every row comes from a call, and goes either into a unit or to what is too late. */
  ghost predicate RowsApart(h: History, rows: set<Row>) {
    && Within(Flat(h.units), rows) && Within(h.unit, rows) && Within(h.late, rows)
    && Apart(h.late, Flat(h.units)) && Apart(h.late, h.unit)
  }

  /** What a call does to the three places a row can be. */
  lemma NextRows(h: History, op: Op)
    ensures var g := h.Next(op);
            && (Flat(g.units) == Flat(h.units) || Flat(g.units) == Flat(h.units) + h.unit)
            && (g.unit == h.unit || g.unit == []
                || (op.Write? && op.o.Success? && g.unit == h.unit + [op.row] && g.late == h.late))
            && (g.late == h.late || (op.Write? && op.o.Success? && g.late == h.late + [op.row] && g.unit == h.unit))
  {
    FlatAdd(h.units, h.unit);
    hide Flat;
  }

  lemma RowsApartStep(h: History, op: Op, rows: set<Row>)
    requires RowsApart(h, rows) && (op.Write? && op.o.Success? ==> op.row !in rows)
    ensures RowsApart(h.Next(op), if op.Write? && op.o.Success? then rows + {op.row} else rows)
  {
    NextRows(h, op);
    hide Flat, h.Next;
  }

  lemma {:induction false} RowsStayApart(ops: seq<Op>, n: nat)
    requires n <= |ops| && OwnRows(ops)
    ensures RowsApart(After(ops, n), Stored(ops, n))
  {
    hide RowsApart, Flat;
    if n > 0 {
      RowsStayApart(ops, n - 1);
      if StoresAt(ops, n - 1) && ops[n - 1].row in Stored(ops, n - 1) {
        var i := StoredBy(ops, n - 1, ops[n - 1].row);
      }
      RowsApartStep(After(ops, n - 1), ops[n - 1], Stored(ops, n - 1));
      hide Stored;
      StoredStep(ops, n);
      assert StoresAt(ops, n - 1) || Stored(ops, n) == Stored(ops, n - 1);
    } else {
      NothingApart(ops);
    }
  }

  lemma StoredStep(ops: seq<Op>, n: nat)
    requires 0 < n <= |ops|
    ensures Stored(ops, n) == Stored(ops, n - 1) + (if StoresAt(ops, n - 1) then {ops[n - 1].row} else {})
  {
  }

  lemma NothingApart(ops: seq<Op>)
    ensures RowsApart(After(ops, 0), Stored(ops, 0))
  {
  }

  /** What is durable: the kept units a commit has covered, and what came too late for one. */
  function Durable(h: History): seq<Row>
    requires h.durable <= |h.units|
  {
    Flat(h.units[..h.durable]) + h.late
  }

  ghost predicate IsPrefixOfKept(rows: seq<Row>, h: History) {
    exists n :: 0 <= n <= |h.units| && rows == Flat(h.units[..n])
  }

  /**
   * Whatever fails, what is durable is that of a prefix of the units kept if and only if no unit stores a row
   * after one of its statements made SQLite drop the transaction.
   */
  lemma DurableIsPrefix(ops: seq<Op>)
    requires Disciplined(ops) && OwnRows(ops)
    ensures After(ops, |ops|).durable <= |After(ops, |ops|).units|
    ensures IsPrefixOfKept(Durable(After(ops, |ops|)), After(ops, |ops|)) <==> !WritesOn(ops, |ops|)
  {
    hide WritesOn, After, Disciplined, OwnRows, Flat, Stored;
    var h := After(ops, |ops|);
    AlwaysSane(ops, |ops|);
    LateExactly(ops, |ops|);
    RowsStayApart(ops, |ops|);
    if h.late == [] {
      assert Durable(h) == Flat(h.units[..h.durable]);
    } else if n :| 0 <= n <= |h.units| && Durable(h) == Flat(h.units[..n]) {
      assert h.late[0] in h.late && h.late[0] in Durable(h);
      FlatSplit(h.units, n);
    }
  }

  /** Each unit ends at its first failed write. */
  ghost predicate EndsAtFailure(ops: seq<Op>, n: nat)
    requires n <= |ops|
  {
    forall i :: 0 < i < n && ops[i - 1].Write? && !ops[i - 1].o.Success? ==>
                  ops[i].Flush? || ops[i].End? || ops[i].Abort?
  }

  /** Then nothing ever comes too late. */
  lemma {:induction false} NothingLate(ops: seq<Op>, n: nat)
    requires n <= |ops| && EndsAtFailure(ops, n)
    ensures After(ops, n).late == []
    ensures After(ops, n).undercut ==> n > 0 && ops[n - 1].Write? && !ops[n - 1].o.Success?
    ensures After(ops, n).undercut ==> After(ops, n).unitOpen
  {
    if n > 0 {
      NothingLate(ops, n - 1);
    }
  }

  ghost predicate Sane(h: History) {
    h.durable <= |h.units| && (h.lost ==> !h.unitOpen && !h.batchOpen)
  }

  lemma NextGrows(h: History, op: Op)
    requires Sane(h)
    ensures Sane(h.Next(op)) && h.units <= h.Next(op).units && h.durable <= h.Next(op).durable
    ensures h.lost ==> h.Next(op) == h
  {
  }

  lemma {:induction false} AlwaysSane(ops: seq<Op>, n: nat)
    requires n <= |ops|
    ensures Sane(After(ops, n))
  {
    if n > 0 {
      AlwaysSane(ops, n - 1);
      NextGrows(After(ops, n - 1), ops[n - 1]);
    }
  }

  /** What is kept or durable stays so; once a batch is lost nothing is added and no unit opens. */
  lemma {:induction false} LostForGood(ops: seq<Op>, i: nat, n: nat)
    requires i <= n <= |ops|
    ensures After(ops, i).units <= After(ops, n).units && After(ops, i).durable <= After(ops, n).durable
    ensures After(ops, i).lost ==> After(ops, n) == After(ops, i) && !After(ops, n).unitOpen
    decreases n
  {
    AlwaysSane(ops, n);
    if i < n {
      LostForGood(ops, i, n - 1);
      AlwaysSane(ops, n - 1);
      NextGrows(After(ops, n - 1), ops[n - 1]);
    }
  }

  ghost predicate Writes(ops: seq<Op>, i: nat, n: nat)
    requires n <= |ops|
  {
    forall k :: i < k < n ==> ops[k].Write?
  }

  ghost predicate NoRollback(ops: seq<Op>, i: nat, n: nat)
    requires n <= |ops|
  {
    forall k :: i < k < n && ops[k].Write? ==> !ops[k].o.RolledBack?
  }

  /**
   * An aborted unit, wherever it got to, leaves the units kept as they were before it was opened, and those
   * durable; and nothing else is durable unless SQLite had dropped the transaction under it.
   */
  lemma AbortedLeavesNoTrace(ops: seq<Op>, i: nat, n: nat)
    requires i < n < |ops| && ops[i].Begin? && ops[n].Abort? && !After(ops, i).unitOpen && Writes(ops, i, n)
    ensures After(ops, n + 1).units == After(ops, i).units && After(ops, n + 1).durable == After(ops, i).durable
    ensures NoRollback(ops, i, n) ==> After(ops, n + 1).late == After(ops, i).late
  {
    WritesOnly(ops, i, n);
  }

  lemma {:induction false} WritesOnly(ops: seq<Op>, i: nat, n: nat)
    requires i < n <= |ops| && ops[i].Begin? && !After(ops, i).unitOpen && Writes(ops, i, n)
    ensures After(ops, n).units == After(ops, i).units && After(ops, n).durable == After(ops, i).durable
    ensures NoRollback(ops, i, n) ==> After(ops, n).late == After(ops, i).late
                                      && (After(ops, n).unitOpen ==> !After(ops, n).undercut)
  {
    if i + 1 < n {
      WritesOnly(ops, i, n - 1);
    }
  }

  // ---- A unit that goes well ----

  /** The rows of the writes between two calls. */
  function Wrote(ops: seq<Op>, i: nat, n: nat): seq<Row>
    requires i <= n <= |ops| && forall k :: i <= k < n ==> ops[k].Write?
  {
    if i == n then [] else Wrote(ops, i, n - 1) + [ops[n - 1].row]
  }

  lemma {:induction false} WritesJoin(ops: seq<Op>, i: nat, n: nat)
    requires i < n <= |ops| && ops[i] == Begin(true, true) && !After(ops, i).lost && !After(ops, i).unitOpen
    requires forall k :: i < k < n ==> ops[k].Write? && ops[k].o.Success?
    ensures var h, g := After(ops, i), After(ops, n);
            && g.unitOpen && g.batchOpen && !g.undercut && !g.lost && g.unit == Wrote(ops, i + 1, n)
            && g.units == h.units && g.durable == h.durable && g.late == h.late
  {
    if i + 1 < n {
      WritesJoin(ops, i, n - 1);
    }
  }

  /**
   * A unit whose writes succeed is kept whole, as one more unit; an end that is due, or a flush, makes it and all
   * units before it durable, and one that is not due leaves that for later. If the commit fails, nothing more
   * becomes durable and the batch is lost.
   */
  lemma UnitStored(ops: seq<Op>, i: nat, n: nat)
    requires i < n < |ops| && ops[i] == Begin(true, true) && !After(ops, i).lost && !After(ops, i).unitOpen
    requires forall k :: i < k < n ==> ops[k].Write? && ops[k].o.Success?
    requires (ops[n].End? || ops[n].Flush?) && ops[n].release
    ensures var h, g := After(ops, i), After(ops, n + 1);
            && g.units == h.units + [Wrote(ops, i + 1, n)] && !g.unitOpen && g.late == h.late
            && (if ops[n].End? && !ops[n].due then !g.lost && g.batchOpen && g.durable == h.durable
                else if ops[n].commit.Success? then !g.lost && !g.batchOpen && g.durable == |g.units|
                else g.lost && g.durable == h.durable)
  {
    WritesJoin(ops, i, n);
  }

  // ---- store_file_row() ----

  datatype Stmt = Stmt(row: Row, o: Outcome)

  function Does(s: Stmt): Op { Write(s.row, s.o) }

  /** dbfile_remove_hashes(): the block hashes, and the extent hashes if that went well. */
  function RemoveHashes(blocks: Stmt, extents: Stmt): seq<Op> {
    if blocks.o.Success? then [Does(blocks), Does(extents)] else [Does(blocks)]
  }

  predicate RemovalDrops(removed: Option<(Stmt, Stmt)>) {
    removed.Some? && (removed.value.0.o.RolledBack? || (removed.value.0.o.Success? && removed.value.1.o.RolledBack?))
  }

  /** The calls of store_file_row(): whether removing the old hashes failed is not looked at. */
  function StoreFileRow(renamed: Option<Stmt>, removed: Option<(Stmt, Stmt)>, info: Stmt, end: Op, abort: Op): seq<Op> {
    if renamed.Some? && !renamed.value.o.Success? then [Begin(true, true), Does(renamed.value), abort]
    else
      [Begin(true, true)]
      + (if renamed.Some? then [Does(renamed.value)] else [])
      + (if removed.Some? then RemoveHashes(removed.value.0, removed.value.1) else [])
      + [Does(info), if info.o.Success? then end else abort]
  }

  /** It stores a row too late exactly if SQLite drops the transaction over the removal and the row goes in. */
  lemma StoreFileRowWritesOn(renamed: Option<Stmt>, removed: Option<(Stmt, Stmt)>, info: Stmt, end: Op, abort: Op)
    requires end.End? && abort.Abort?
    ensures var ops := StoreFileRow(renamed, removed, info, end, abort);
            WritesOn(ops, |ops|)
            <==> (renamed.Some? ==> renamed.value.o.Success?) && RemovalDrops(removed) && info.o.Success?
  {
    var ops := StoreFileRow(renamed, removed, info, end, abort);
    if (renamed.Some? ==> renamed.value.o.Success?) && RemovalDrops(removed) && info.o.Success? {
      var k := |ops| - 2;
      assert DropsAt(ops, k - 1) && StoresAt(ops, k) && SameUnit(ops, k - 1, k);
    }
  }

  /**
   * Then the row is durable on its own, outside any kept unit, while the files of the batch are gone; the
   * unit's end finds the batch lost.
   */
  lemma IgnoredFailure() returns (ops: seq<Op>)
    ensures ops == [Begin(true, true), Write(1, Success), End(true, false, Success)]
                   + StoreFileRow(None, Some((Stmt(0, RolledBack), Stmt(3, Success))), Stmt(2, Success),
                                  End(true, false, Success), Abort(true, true))
    ensures Disciplined(ops) && OwnRows(ops) && WritesOn(ops, |ops|)
    ensures !EndsAtFailure(ops, |ops|)
    ensures var r := After(ops, |ops|);
            r.lost && r.units == [[1]] && r.durable == 0 && r.late == [2] && !IsPrefixOfKept(Durable(r), r)
  {
    ops := [Begin(true, true), Write(1, Success), End(true, false, Success),
            Begin(true, true), Write(0, RolledBack), Write(2, Success), End(true, false, Success)];
    assert After(ops, 3) == History(true, false, false, false, [[1]], 0, [1], []) by {
      assert After(ops, 1) == History(true, true, false, false, [], 0, [], []);
      assert After(ops, 2) == History(true, true, false, false, [], 0, [1], []);
    }
    assert After(ops, 5) == History(true, true, true, false, [[1]], 0, [], []) by {
      assert After(ops, 4) == History(true, true, false, false, [[1]], 0, [], []);
    }
    assert After(ops, 6) == History(true, true, true, false, [[1]], 0, [], [2]);
    assert DropsAt(ops, 4) && StoresAt(ops, 5) && SameUnit(ops, 4, 5);
    assert ops[4].Write? && !ops[4].o.Success? && ops[4 + 1].Write?;
    DurableIsPrefix(ops);
  }
}
