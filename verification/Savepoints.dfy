/**
 The savepoint undo log of a connection: a stack of history entries, a stack of savepoints marking
 heights of the history, and the rollback that undoes the entries above a mark, newest first.
 */
module Savepoints {
  import opened RowLocks

  /** What was done, with what it needs to be undone. */
  datatype Entry =
    | RowLocked(k: RowKey)
    | IndexLocked(iTable: int)
    | TableCreated(iTable: int)
    | IndexCreated(iTable: int)
    | TableLockChanged(iTable: int, prev: nat)
    | TableCleared(iTable: int, was: bool)

  datatype Mark = Mark(iSavepoint: int, height: nat)

  datatype SavepointOp = Release | RollbackTo

  /**
   What the transaction knows of a table: whether its insertion and deletion trees exist, and whether all its
   shared rows are deleted. A table that was only cleared has no trees yet.
   */
  datatype RootPage = RootPage(hasTrees: bool, deleteAll: bool)

  type RootPages = map<int, RootPage>

  predicate IsOpen(pages: RootPages, t: int) {
    t in pages && pages[t].hasTrees
  }

  predicate IsCleared(pages: RootPages, t: int) {
    t in pages && pages[t].deleteAll
  }

  /** The connection's own level on each table. */
  type Levels = map<int, nat>

  function LevelAt(levels: Levels, t: int): nat {
    if t in levels then levels[t] else 0
  }

  /** The state the log can restore: the row locks, the root pages and the own table-lock levels. */
  datatype State = State(held: Locks, pages: RootPages, levels: Levels)

  /**
   Undoing the opening of a table forgets its root page, with a delete-all flag that was set before, and goes on
   to its table lock, whose recorded level is then 0.
   */
  function Undo(s: State, e: Entry): State {
    match e
    case RowLocked(k) => s.(held := s.held - {k})
    case TableCreated(t) => s.(pages := s.pages - {t}, levels := s.levels[t := 0])
    case TableLockChanged(t, prev) => s.(levels := s.levels[t := prev])
    case TableCleared(t, was) =>
      if t in s.pages then s.(pages := s.pages[t := s.pages[t].(deleteAll := was)]) else s
    case _ => s
  }

  /** The entries between two heights undone, newest first. */
  function UndoRange(s: State, history: seq<Entry>, top: nat, height: nat): State
    requires height <= top <= |history|
    decreases top
  {
    if height == top then s else UndoRange(Undo(s, history[top - 1]), history, top - 1, height)
  }

  lemma UndoNext(s: State, history: seq<Entry>, top: nat, height: nat)
    requires height < top <= |history|
    ensures UndoRange(s, history, top, height) == UndoRange(Undo(s, history[top - 1]), history, top - 1, height)
  {
  }

  /** The entries above a height undone, newest first. */
  function UndoTo(s: State, history: seq<Entry>, height: nat): State
    requires height <= |history|
  {
    UndoRange(s, history, |history|, height)
  }

  /** Marks never go down, and none is above the history. */
  ghost predicate MarksFit(marks: seq<Mark>, n: nat) {
    && (forall i, j :: 0 <= i < j < |marks| ==> marks[i].height <= marks[j].height)
    && (forall i :: 0 <= i < |marks| ==> marks[i].height <= n)
  }

  /** The latest mark of a savepoint number; the number of marks when there is none. */
  function Latest(marks: seq<Mark>, iSavepoint: int): (i: nat)
    ensures i <= |marks|
    ensures i < |marks| ==> marks[i].iSavepoint == iSavepoint
    ensures i < |marks| ==> forall j :: i < j < |marks| ==> marks[j].iSavepoint != iSavepoint
    ensures i == |marks| ==> forall j :: 0 <= j < |marks| ==> marks[j].iSavepoint != iSavepoint
  {
    if marks == [] then 0
    else if marks[|marks| - 1].iSavepoint == iSavepoint then |marks| - 1
    else
      var i := Latest(marks[..|marks| - 1], iSavepoint);
      if i < |marks| - 1 then i else |marks|
  }

  /** Row entries name a table. */
  ghost predicate Named(history: seq<Entry>) {
    forall i :: 0 <= i < |history| && history[i].RowLocked? ==> history[i].k.iTable != 0
  }

  const HISTORY_DEFAULT: nat := 1024
  const SAVEPOINT_DEFAULT: nat := 64

  class UndoLog {
    var history: seq<Entry>
    var nHistoryMax: nat
    var marks: seq<Mark>
    var nSavepointMax: nat
    var pages: RootPages
    /** The connection's levels in the table-lock area. */
    var levels: Levels
    const locks: RowLockArea

    ghost predicate Valid()
      reads this, locks, locks.slots
    {
      && locks.Valid()
      && MarksFit(marks, |history|)
      && |history| <= nHistoryMax && |marks| <= nSavepointMax
      && Named(history)
    }

    ghost function Now(): State
      reads this, locks
    {
      State(locks.held, pages, levels)
    }

    constructor (locks: RowLockArea)
      requires locks.Valid()
      ensures Valid() && history == [] && marks == [] && pages == map[] && levels == map[] && this.locks == locks
    {
      history, nHistoryMax, marks, nSavepointMax, pages, levels := [], 0, [], 0, map[], map[];
      this.locks := locks;
    }

    /** Appends an entry; alloc tells whether an enlargement of the stack succeeds. */
    method AddHistory(e: Entry, alloc: bool) returns (rc: Rc)
      requires Valid() && (e.RowLocked? ==> e.k.iTable != 0)
      modifies this`history, this`nHistoryMax
      ensures Valid()
      ensures rc == Ok || rc == NoMem
      ensures rc == NoMem <==> !alloc && old(|history| == nHistoryMax)
      ensures history == if rc == Ok then old(history) + [e] else old(history)
    {
      if nHistoryMax == 0 {
        if !alloc { return NoMem; }
        nHistoryMax := HISTORY_DEFAULT;
      }
      if nHistoryMax <= |history| {
        if !alloc { return NoMem; }
        nHistoryMax := nHistoryMax * 2;
      }
      history := history + [e];
      rc := Ok;
    }

    /** Marks the present height, unless the latest mark already says so. */
    method Create(iSavepoint: int, alloc: bool) returns (rc: Rc)
      requires Valid()
      modifies this`marks, this`nSavepointMax
      ensures Valid()
      ensures rc == Ok || rc == NoMem
      ensures rc == NoMem <==> !alloc && old(|marks| == nSavepointMax)
      ensures rc == NoMem ==> marks == old(marks)
      ensures rc == Ok ==> |marks| > 0 && marks[|marks| - 1] == Mark(iSavepoint, |history|)
      ensures rc == Ok ==>
                var was, mark := old(marks), Mark(iSavepoint, |history|);
                marks == if was != [] && was[|was| - 1] == mark then was else was + [mark]
    {
      if nSavepointMax == 0 {
        if !alloc { return NoMem; }
        nSavepointMax := SAVEPOINT_DEFAULT;
      }
      if nSavepointMax <= |marks| {
        if !alloc { return NoMem; }
        nSavepointMax := nSavepointMax * 2;
      }
      if |marks| > 0 && marks[|marks| - 1].iSavepoint == iSavepoint && marks[|marks| - 1].height == |history| {
        return Ok;
      }
      marks := marks + [Mark(iSavepoint, |history|)];
      rc := Ok;
    }

    method FindMark(iSavepoint: int) returns (i: nat)
      requires Valid()
      ensures i == Latest(marks, iSavepoint)
    {
      if |marks| > 0 {
        i := |marks| - 1;
        while true
          invariant i < |marks|
          invariant Latest(marks[..i + 1], iSavepoint) < i + 1 ==>
                    Latest(marks, iSavepoint) == Latest(marks[..i + 1], iSavepoint)
          invariant Latest(marks[..i + 1], iSavepoint) == i + 1 ==> Latest(marks, iSavepoint) == |marks|
          decreases i
        {
          assert marks[..i + 1][..i] == marks[..i];
          if marks[i].iSavepoint == iSavepoint {
            return;
          }
          if i == 0 {
            return |marks|;
          }
          i := i - 1;
        }
      }
      i := 0;
    }

    /** Undoes one entry: releases the row, forgets the table, or restores the level or the flag. */
    method UndoEntry(e: Entry)
      requires locks.Valid() && (e.RowLocked? ==> e.k.iTable != 0)
      modifies this`pages, this`levels, locks, locks.slots
      ensures locks.Valid() && Now() == Undo(old(Now()), e)
    {
      match e
      case RowLocked(k) => locks.Unlock(k);
      case TableCreated(t) =>
        pages := pages - {t};
        levels := levels[t := 0];
      case TableLockChanged(t, prev) => levels := levels[t := prev];
      case TableCleared(t, was) =>
        if t in pages {
          pages := pages[t := pages[t].(deleteAll := was)];
        }
      case _ =>
    }

    /** Releases a savepoint, or rolls back to it and keeps it. */
    method Savepoint(op: SavepointOp, iSavepoint: int)
      requires Valid()
      modifies this, locks, locks.slots
      ensures Valid()
      ensures var i := Latest(old(marks), iSavepoint);
              if i == |old(marks)| then history == old(history) && marks == old(marks) && Now() == old(Now())
              else if op.Release? then history == old(history) && marks == old(marks)[..i] && Now() == old(Now())
              else
                && history == old(history)[..old(marks)[i].height]
                && marks == old(marks)[..i + 1]
                && Now() == UndoTo(old(Now()), old(history), old(marks)[i].height)
    {
      var i := FindMark(iSavepoint);
      if i == |marks| {
        return;
      }
      var height := marks[i].height;
      if op.RollbackTo? && |history| > 0 {
        UndoDownTo(height);
      }
      Cut(if op.RollbackTo? then i + 1 else i, if op.RollbackTo? then height else |history|);
    }

    /** Erases the marks and the history above given heights. */
    method Cut(keep: nat, height: nat)
      requires Valid() && keep <= |marks| && height <= |history|
      requires forall j :: 0 <= j < keep ==> marks[j].height <= height
      modifies this`marks, this`history
      ensures Valid() && marks == old(marks)[..keep] && history == old(history)[..height]
    {
      if |marks| > keep {
        marks := marks[..keep];
      }
      if |history| > height {
        history := history[..height];
      }
    }

    /** Walks the history from its top down to a height, undoing each entry on the way. */
    method UndoDownTo(height: nat)
      requires locks.Valid() && height <= |history| && Named(history)
      modifies this`pages, this`levels, locks, locks.slots
      ensures locks.Valid() && Now() == UndoTo(old(Now()), history, height)
    {
      ghost var now := Now();
      ghost var goal := UndoTo(now, history, height);
      for iStack := |history| downto height
        invariant locks.Valid() && Now() == now && UndoRange(now, history, iStack, height) == goal
      {
        UndoNext(now, history, iStack + 1, height);
        now := Undo(now, history[iStack]);
        UndoEntry(history[iStack]);
      }
    }
  }

  /**
   What can happen after a savepoint: the connection acquires rows and gives up rows it has (as deleting an
   inserted row does, without touching the history), opens, locks and clears tables, and others use the lock area.
   */
  datatype Act =
    | AcquireRow(k: RowKey)
    | GiveUpRow(k: RowKey)
    | OpenTable(t: int)
    | RaiseTable(t: int, e: nat)
    | ClearTable(t: int)
    | OthersCall(c: Call)

  datatype Logged = Logged(s: State, history: seq<Entry>)

  /** n is the number of slots of the lock area. */
  function Perform(g: Logged, n: nat, me: Holder, a: Act): Logged {
    match a
    case AcquireRow(k) =>
      if Reply(g.s.held, n, LockRow(k, me)).Ok? then
        Logged(g.s.(held := g.s.held[k := me]), g.history + [RowLocked(k)])
      else g
    case GiveUpRow(k) => g.(s := g.s.(held := After(g.s.held, n, UnlockRow(k))))
    case OpenTable(t) =>
      if IsOpen(g.s.pages, t) then g
      else
        Logged(g.s.(pages := g.s.pages[t := RootPage(true, IsCleared(g.s.pages, t))]), g.history + [TableCreated(t)])
    case RaiseTable(t, e) =>
      if e <= LevelAt(g.s.levels, t) then g
      else Logged(g.s.(levels := g.s.levels[t := e]), g.history + [TableLockChanged(t, LevelAt(g.s.levels, t))])
    case ClearTable(t) =>
      Logged(g.s.(pages := g.s.pages[t := RootPage(IsOpen(g.s.pages, t), true)]),
             g.history + [TableCleared(t, IsCleared(g.s.pages, t))])
    case OthersCall(c) => g.(s := g.s.(held := After(g.s.held, n, c)))
  }

  function Mine(held: Locks, me: Holder): set<RowKey> {
    set k | k in held && held[k] == me
  }

  /** gs[i + 1] is what act i made of gs[i]; the others do not lock in this connection's name. */
  ghost predicate IsSpan(gs: seq<Logged>, acts: seq<Act>, n: nat, me: Holder) {
    && |gs| == |acts| + 1
    && forall i :: 0 <= i < |acts| ==> gs[i + 1] == Perform(gs[i], n, me, acts[i]) && IsProper(acts[i], me)
  }

  predicate IsProper(a: Act, me: Holder) {
    a.OthersCall? && a.c.LockRow? ==> a.c.me != me
  }

  /** The rows an act costs the connection: the one it gives up, or those that another's call releases. */
  function Lost(held: Locks, me: Holder, a: Act): set<RowKey> {
    match a
    case GiveUpRow(k) => {k} * Mine(held, me)
    case OthersCall(UnlockRow(k)) => {k} * Mine(held, me)
    case OthersCall(ReleaseRows(pid, owner)) => if Selects(pid, owner, me) then Mine(held, me) else {}
    case _ => {}
  }

  /** The rows the connection lost during the first i acts. */
  function LostBy(gs: seq<Logged>, acts: seq<Act>, me: Holder, i: nat): set<RowKey>
    requires |gs| == |acts| + 1 && i <= |acts|
  {
    if i == 0 then {} else LostBy(gs, acts, me, i - 1) + Lost(gs[i - 1].s.held, me, acts[i - 1])
  }

  /** The rows named by the entries above a height. */
  function NamedAbove(history: seq<Entry>, height: nat): set<RowKey>
    requires height <= |history|
  {
    set e | e in history[height..] && e.RowLocked? :: e.k
  }

  /** An act adds at most one entry. */
  lemma HistoryGrows(g: Logged, n: nat, me: Holder, a: Act)
    ensures var next := Perform(g, n, me, a);
            next.history == g.history || (next.history != [] && next.history[..|next.history| - 1] == g.history)
  {
  }

  /** Undoing takes from the connection exactly the rows that the entries name. */
  lemma {:induction false} UndoTakesNamed(s: State, history: seq<Entry>, top: nat, height: nat, me: Holder)
    requires height <= top <= |history|
    ensures Mine(UndoRange(s, history, top, height).held, me) == Mine(s.held, me) - NamedAbove(history[..top], height)
    decreases top
  {
    if height < top {
      var e := history[top - 1];
      UndoTakesNamed(Undo(s, e), history, top - 1, height, me);
      NamedOneMore(history[..top], height);
      assert history[..top][..top - 1] == history[..top - 1];
      assert Mine(Undo(s, e).held, me) == Mine(s.held, me) - (if e.RowLocked? then {e.k} else {});
    }
  }

  lemma NamedOneMore(history: seq<Entry>, height: nat)
    requires height < |history|
    ensures var last := |history| - 1;
            NamedAbove(history, height) == NamedAbove(history[..last], height)
                                         + (if history[last].RowLocked? then {history[last].k} else {})
  {
    var last := |history| - 1;
    assert history[height..] == history[..last][height..] + [history[last]];
  }

  /** The row an act acquires, which it also logs. */
  function Acquired(g: Logged, n: nat, me: Holder, a: Act): set<RowKey> {
    if a.AcquireRow? && Reply(g.s.held, n, LockRow(a.k, me)).Ok? then {a.k} else {}
  }

  /** An act adds the row it acquires, which was not the connection's, and takes the rows it costs. */
  lemma MineAfter(g: Logged, n: nat, me: Holder, a: Act)
    requires IsProper(a, me)
    ensures Mine(Perform(g, n, me, a).s.held, me)
            == (Mine(g.s.held, me) + Acquired(g, n, me, a)) - Lost(g.s.held, me, a)
    ensures Acquired(g, n, me, a) !! Mine(g.s.held, me)
  {
    match a
    case OthersCall(c) => CallCosts(g.s.held, n, me, c);
    case GiveUpRow(k) => assert After(g.s.held, n, UnlockRow(k)) == g.s.held - {k};
    case _ =>
  }

  lemma CallCosts(held: Locks, n: nat, me: Holder, c: Call)
    requires c.LockRow? ==> c.me != me
    ensures Mine(After(held, n, c), me) == Mine(held, me) - Lost(held, me, OthersCall(c))
  {
    match c
    case LockRow(k, h) =>
    case QueryRow(_, _) =>
    case UnlockRow(k) =>
    case ReleaseRows(pid, owner) =>
  }

  lemma NamedAfter(g: Logged, n: nat, me: Holder, a: Act, height: nat)
    requires height <= |g.history|
    ensures var next := Perform(g, n, me, a);
            && height <= |next.history|
            && NamedAbove(next.history, height) == NamedAbove(g.history, height) + Acquired(g, n, me, a)
  {
    var next := Perform(g, n, me, a);
    HistoryGrows(g, n, me, a);
    if next.history != g.history {
      NamedOneMore(next.history, height);
    }
  }

  /** Over a span the rows acquired are named, and all others are those of the savepoint that were not lost. */
  lemma {:induction false} SpanBalances(gs: seq<Logged>, acts: seq<Act>, n: nat, me: Holder, i: nat)
    requires IsSpan(gs, acts, n, me) && i < |gs|
    ensures |gs[0].history| <= |gs[i].history|
    ensures Mine(gs[i].s.held, me) - NamedAbove(gs[i].history, |gs[0].history|)
            == Mine(gs[0].s.held, me) - LostBy(gs, acts, me, i)
    ensures NamedAbove(gs[i].history, |gs[0].history|) <= Mine(gs[i].s.held, me) + LostBy(gs, acts, me, i)
  {
    hide Perform, Mine, NamedAbove, Acquired, Lost;
    if i == 0 {
      NothingYet(gs[0].history);
    } else {
      var g, a := gs[i - 1], acts[i - 1];
      SpanBalances(gs, acts, n, me, i - 1);
      MineAfter(g, n, me, a);
      NamedAfter(g, n, me, a, |gs[0].history|);
      Balance(Mine(g.s.held, me), NamedAbove(g.history, |gs[0].history|), Mine(gs[0].s.held, me),
              LostBy(gs, acts, me, i - 1), Acquired(g, n, me, a), Lost(g.s.held, me, a));
    }
  }

  lemma Balance<T>(mine: set<T>, named: set<T>, start: set<T>, given: set<T>, acquired: set<T>, lost: set<T>)
    requires mine - named == start - given && acquired !! mine
    ensures ((mine + acquired) - lost) - (named + acquired) == start - (given + lost)
  {
    assert ((mine + acquired) - lost) - (named + acquired) == (mine - named) - lost;
  }

  lemma NothingYet(history: seq<Entry>)
    ensures NamedAbove(history, |history|) == {}
  {
  }

  /**
   After any span of acts the rollback leaves the connection the rows it had at the savepoint without those it
   gave up or others released since, also when it has acquired them again. So its row locks are restored exactly
   when it lost no row that it had at the savepoint.
   */
  lemma RowsRestoredIff(gs: seq<Logged>, acts: seq<Act>, n: nat, me: Holder)
    requires IsSpan(gs, acts, n, me)
    ensures |gs[0].history| <= |gs[|acts|].history|
    ensures var after := UndoTo(gs[|acts|].s, gs[|acts|].history, |gs[0].history|);
            var lost := LostBy(gs, acts, me, |acts|);
            && Mine(after.held, me) == Mine(gs[0].s.held, me) - lost
            && (Mine(after.held, me) == Mine(gs[0].s.held, me) <==> lost !! Mine(gs[0].s.held, me))
  {
    SpanBalances(gs, acts, n, me, |acts|);
    var g := gs[|acts|];
    UndoTakesNamed(g.s, g.history, |g.history|, |gs[0].history|, me);
    assert g.history[..|g.history|] == g.history;
  }

  /** A row given up and acquired again is not the connection's after the rollback. */
  lemma RegainedIsLost(k: RowKey, me: Holder)
    ensures var g0 := Logged(State(map[k := me], map[], map[]), []);
            var g1 := Perform(g0, 10, me, GiveUpRow(k));
            var g2 := Perform(g1, 10, me, AcquireRow(k));
            && k in Mine(g2.s.held, me)
            && k !in UndoTo(g2.s, g2.history, |g0.history|).held
  {
    var g1 := Perform(Logged(State(map[k := me], map[], map[]), []), 10, me, GiveUpRow(k));
    assert g1.s.held == map[];
    var g2 := Perform(g1, 10, me, AcquireRow(k));
    UndoNext(g2.s, g2.history, 1, 0);
  }

  /** The table was opened between two heights of the history. */
  ghost predicate OpenedIn(history: seq<Entry>, height: nat, top: nat, t: int)
    requires height <= top <= |history|
  {
    exists i :: height <= i < top && history[i] == TableCreated(t)
  }

  /** The flag that the oldest clearing between two heights recorded, or the present one when there was none. */
  ghost function Recorded(history: seq<Entry>, height: nat, top: nat, t: int, now: bool): bool
    requires height <= top <= |history|
  {
    if height == top then now
    else
      var e := history[top - 1];
      Recorded(history, height, top - 1, t, if e.TableCleared? && e.iTable == t then e.was else now)
  }

  lemma {:induction false} RecordedPrefix(h: seq<Entry>, more: seq<Entry>, height: nat, top: nat, t: int, now: bool)
    requires height <= top <= |h|
    ensures Recorded(h + more, height, top, t, now) == Recorded(h, height, top, t, now)
  {
    if height < top {
      var e := h[top - 1];
      RecordedPrefix(h, more, height, top - 1, t, if e.TableCleared? && e.iTable == t then e.was else now);
    }
  }

  /** Undoing forgets a table that was opened; otherwise it leaves the flag that was recorded. */
  lemma {:induction false} FlagAfterUndo(s: State, history: seq<Entry>, top: nat, height: nat, t: int)
    requires height <= top <= |history|
    ensures var after := UndoRange(s, history, top, height).pages;
            if t !in s.pages || OpenedIn(history, height, top, t) then t !in after
            else IsCleared(after, t) == Recorded(history, height, top, t, IsCleared(s.pages, t))
    decreases top
  {
    if height < top {
      var e := history[top - 1];
      FlagAfterUndo(Undo(s, e), history, top - 1, height, t);
      assert OpenedIn(history, height, top, t) <==> OpenedIn(history, height, top - 1, t) || e == TableCreated(t);
    }
  }

  /** Over a span tables stay known, and the flag at the savepoint stays recorded. */
  lemma {:induction false} SpanRecords(gs: seq<Logged>, acts: seq<Act>, n: nat, me: Holder, i: nat, t: int)
    requires IsSpan(gs, acts, n, me) && i < |gs|
    ensures |gs[0].history| <= |gs[i].history| && (t in gs[0].s.pages ==> t in gs[i].s.pages)
    ensures Recorded(gs[i].history, |gs[0].history|, |gs[i].history|, t, IsCleared(gs[i].s.pages, t))
            == IsCleared(gs[0].s.pages, t)
  {
    hide Perform, IsCleared;
    if i > 0 {
      SpanRecords(gs, acts, n, me, i - 1, t);
      ActRecords(gs[i - 1], n, me, acts[i - 1], |gs[0].history|, t);
    }
  }

  /** An act keeps tables known and what is recorded. */
  lemma ActRecords(g: Logged, n: nat, me: Holder, a: Act, height: nat, t: int)
    requires height <= |g.history|
    ensures var next := Perform(g, n, me, a);
            && height <= |next.history| && (t in g.s.pages ==> t in next.s.pages)
            && Recorded(next.history, height, |next.history|, t, IsCleared(next.s.pages, t))
               == Recorded(g.history, height, |g.history|, t, IsCleared(g.s.pages, t))
  {
    var next := Perform(g, n, me, a);
    HistoryGrows(g, n, me, a);
    if next.history != g.history {
      var e := next.history[|g.history|];
      assert next.history == g.history + [e];
      RecordedPrefix(g.history, [e], height, |g.history|, t, IsCleared(g.s.pages, t));
    }
  }

  /**
   After any span of acts the rollback restores the delete-all flag of a table exactly when the flag was not set
   at the savepoint or the table was not opened since.
   */
  lemma FlagRestoredIff(gs: seq<Logged>, acts: seq<Act>, n: nat, me: Holder, t: int)
    requires IsSpan(gs, acts, n, me)
    ensures |gs[0].history| <= |gs[|acts|].history|
    ensures var g, height := gs[|acts|], |gs[0].history|;
            IsCleared(UndoTo(g.s, g.history, height).pages, t) == IsCleared(gs[0].s.pages, t) <==>
            !IsCleared(gs[0].s.pages, t) || !OpenedIn(g.history, height, |g.history|, t)
  {
    var g, height := gs[|acts|], |gs[0].history|;
    SpanRecords(gs, acts, n, me, |acts|, t);
    FlagAfterUndo(g.s, g.history, |g.history|, height, t);
  }

  /** The entry is about the level of the table. */
  predicate AboutLevel(e: Entry, t: int) {
    (e.TableCreated? || e.TableLockChanged?) && e.iTable == t
  }

  /** The level an entry about it sets. */
  function LevelBefore(e: Entry): nat {
    if e.TableLockChanged? then e.prev else 0
  }

  /** The oldest entry above a height that is about the level of the table. */
  ghost predicate IsOldest(history: seq<Entry>, height: nat, t: int, i: nat) {
    height <= i < |history| && AboutLevel(history[i], t) && forall j :: height <= j < i ==> !AboutLevel(history[j], t)
  }

  /** Undoing leaves a table the level its oldest entry says, or the one it has when there is none. */
  lemma {:induction false} LevelAfterUndo(s: State, history: seq<Entry>, top: nat, height: nat, t: int)
    requires height <= top <= |history|
    ensures forall i: nat :: IsOldest(history[..top], height, t, i) ==>
                          LevelAt(UndoRange(s, history, top, height).levels, t) == LevelBefore(history[i])
    ensures (forall i :: height <= i < top ==> !AboutLevel(history[i], t)) ==>
              LevelAt(UndoRange(s, history, top, height).levels, t) == LevelAt(s.levels, t)
    decreases top
  {
    if height < top {
      LevelAfterUndo(Undo(s, history[top - 1]), history, top - 1, height, t);
      forall i: nat | IsOldest(history[..top], height, t, i)
        ensures LevelAt(UndoRange(s, history, top, height).levels, t) == LevelBefore(history[i])
      {
        if i < top - 1 {
          assert IsOldest(history[..top - 1], height, t, i);
        }
      }
    }
  }

  /** Without an entry about it a level is that at the savepoint, and the oldest entry has recorded it. */
  ghost predicate LevelKnown(g: Logged, height: nat, t: int, level: nat)
    requires height <= |g.history|
  {
    && ((forall i :: height <= i < |g.history| ==> !AboutLevel(g.history[i], t)) ==> LevelAt(g.s.levels, t) == level)
    && (forall i: nat :: IsOldest(g.history, height, t, i) && g.history[i].TableLockChanged? ==>
          g.history[i].prev == level)
  }

  lemma ActKeepsLevelKnown(g: Logged, n: nat, me: Holder, a: Act, height: nat, t: int, level: nat)
    requires height <= |g.history| && LevelKnown(g, height, t, level)
    ensures var next := Perform(g, n, me, a);
            height <= |next.history| && LevelKnown(next, height, t, level)
  {
    var next := Perform(g, n, me, a);
    HistoryGrows(g, n, me, a);
    assert forall i :: 0 <= i < |g.history| ==> next.history[i] == g.history[i];
    if forall i :: height <= i < |next.history| ==> !AboutLevel(next.history[i], t) {
      assert forall i :: height <= i < |g.history| ==> !AboutLevel(next.history[i], t);
      assert |next.history| > |g.history| ==> !AboutLevel(next.history[|g.history|], t);
    }
    forall i: nat | IsOldest(next.history, height, t, i) && next.history[i].TableLockChanged?
      ensures next.history[i].prev == level
    {
      if i < |g.history| {
        assert IsOldest(g.history, height, t, i);
      }
    }
  }

  lemma {:induction false} SpanKeepsLevelKnown(gs: seq<Logged>, acts: seq<Act>, n: nat, me: Holder, i: nat, t: int)
    requires IsSpan(gs, acts, n, me) && i < |gs|
    ensures |gs[0].history| <= |gs[i].history|
    ensures LevelKnown(gs[i], |gs[0].history|, t, LevelAt(gs[0].s.levels, t))
  {
    if i > 0 {
      SpanKeepsLevelKnown(gs, acts, n, me, i - 1, t);
      ActKeepsLevelKnown(gs[i - 1], n, me, acts[i - 1], |gs[0].history|, t, LevelAt(gs[0].s.levels, t));
    }
  }

  /**
   After any span of acts the rollback restores the connection's level on a table, unless the table had a level
   at the savepoint and the first thing recorded about it since is its opening.
   */
  lemma LevelRestoredIff(gs: seq<Logged>, acts: seq<Act>, n: nat, me: Holder, t: int)
    requires IsSpan(gs, acts, n, me)
    ensures |gs[0].history| <= |gs[|acts|].history|
    ensures var g, height := gs[|acts|], |gs[0].history|;
            LevelAt(UndoTo(g.s, g.history, height).levels, t) == LevelAt(gs[0].s.levels, t) <==>
            || LevelAt(gs[0].s.levels, t) == 0
            || !exists i: nat :: IsOldest(g.history, height, t, i) && g.history[i].TableCreated?
  {
    var g, height := gs[|acts|], |gs[0].history|;
    SpanKeepsLevelKnown(gs, acts, n, me, |acts|, t);
    LevelAfterUndo(g.s, g.history, |g.history|, height, t);
    assert g.history[..|g.history|] == g.history;
    if i :| height <= i < |g.history| && AboutLevel(g.history[i], t) {
      var j := Oldest(g.history, height, t, i);
    }
  }

  /**
   A transaction locks and clears a table, makes a savepoint, writes to the table and rolls back to the savepoint:
   the rows it had deleted are back, and its lock of the table is gone.
   */
  lemma OpeningLosesClear(t: int, level: nat, me: Holder)
    requires level > 0
    ensures var g0 := Logged(State(map[], map[], map[]), []);
            var g1 := Perform(Perform(g0, 10, me, RaiseTable(t, level)), 10, me, ClearTable(t));
            var g2 := Perform(g1, 10, me, OpenTable(t));
            && |g1.history| == 2 && IsCleared(g1.s.pages, t) && LevelAt(g1.s.levels, t) == level
            && |g2.history| == 3 && IsCleared(g2.s.pages, t) && LevelAt(g2.s.levels, t) == level
            && var after := UndoTo(g2.s, g2.history, 2);
               !IsCleared(after.pages, t) && LevelAt(after.levels, t) == 0
  {
    var g0 := Logged(State(map[], map[], map[]), []);
    var g1 := Perform(Perform(g0, 10, me, RaiseTable(t, level)), 10, me, ClearTable(t));
    var g2 := Perform(g1, 10, me, OpenTable(t));
    UndoNext(g2.s, g2.history, 3, 2);
  }

  /** The level a table had at the savepoint is lost when the table is opened after it. */
  lemma OpeningLosesLevel(t: int, level: nat, me: Holder)
    requires level > 0
    ensures var g0 := Logged(State(map[], map[], map[t := level]), []);
            var g1 := Perform(g0, 10, me, OpenTable(t));
            LevelAt(g1.s.levels, t) == level && LevelAt(UndoTo(g1.s, g1.history, |g0.history|).levels, t) == 0
  {
    var g1 := Perform(Logged(State(map[], map[], map[t := level]), []), 10, me, OpenTable(t));
    UndoNext(g1.s, g1.history, 1, 0);
  }

  lemma {:induction false} Oldest(history: seq<Entry>, height: nat, t: int, i: nat) returns (j: nat)
    requires height <= i < |history| && AboutLevel(history[i], t)
    ensures IsOldest(history, height, t, j)
  {
    if k :| height <= k < i && AboutLevel(history[k], t) {
      j := Oldest(history, height, t, k);
    } else {
      j := i;
    }
  }

  /** Undoing own rows takes no lock from anyone else. */
  lemma {:induction false} UndoSparesOthers(s: State, history: seq<Entry>, top: nat, height: nat, me: Holder, k: RowKey)
    requires height <= top <= |history| && k in s.held && s.held[k] != me
    requires forall i :: height <= i < top && history[i].RowLocked? ==> history[i].k != k
    ensures var after := UndoRange(s, history, top, height); k in after.held && after.held[k] == s.held[k]
    decreases top
  {
    if height < top {
      UndoSparesOthers(Undo(s, history[top - 1]), history, top - 1, height, me, k);
    }
  }

  /** A row whose acquisition is undone is held by nobody afterwards. */
  lemma {:induction false} UndoneIsGone(s: State, history: seq<Entry>, top: nat, height: nat, k: RowKey)
    requires height <= top <= |history|
    ensures k !in s.held ==> k !in UndoRange(s, history, top, height).held
    ensures (exists i :: height <= i < top && history[i] == RowLocked(k)) ==>
              k !in UndoRange(s, history, top, height).held
    decreases top
  {
    if height < top {
      UndoneIsGone(Undo(s, history[top - 1]), history, top - 1, height, k);
    }
  }

  /** A rollback spares the other connections' locks exactly when no entry it undoes names a row one of them holds. */
  lemma RollbackSparesIff(s: State, history: seq<Entry>, height: nat, me: Holder)
    requires height <= |history|
    ensures (forall k :: k in s.held && s.held[k] != me ==>
               k in UndoTo(s, history, height).held && UndoTo(s, history, height).held[k] == s.held[k])
       <==> (forall i :: height <= i < |history| && history[i].RowLocked? && history[i].k in s.held ==>
               s.held[history[i].k] == me)
  {
    if i :| height <= i < |history| && history[i].RowLocked? && history[i].k in s.held && s.held[history[i].k] != me {
      var k := history[i].k;
      assert history[i] == RowLocked(k);
      UndoneIsGone(s, history, |history|, height, k);
    } else {
      forall k | k in s.held && s.held[k] != me
        ensures k in UndoTo(s, history, height).held && UndoTo(s, history, height).held[k] == s.held[k]
      {
        UndoSparesOthers(s, history, |history|, height, me, k);
      }
    }
  }

  /** After any span the rollback leaves the others' locks in place, of all rows the connection did not lose. */
  lemma RollbackSparesOthers(gs: seq<Logged>, acts: seq<Act>, n: nat, me: Holder, k: RowKey)
    requires IsSpan(gs, acts, n, me)
    requires k in gs[|acts|].s.held && gs[|acts|].s.held[k] != me && k !in LostBy(gs, acts, me, |acts|)
    ensures |gs[0].history| <= |gs[|acts|].history|
    ensures var s := gs[|acts|].s;
            var after := UndoTo(s, gs[|acts|].history, |gs[0].history|);
            k in after.held && after.held[k] == s.held[k]
  {
    var g, height := gs[|acts|], |gs[0].history|;
    SpanBalances(gs, acts, n, me, |acts|);
    forall i | height <= i < |g.history| && g.history[i].RowLocked? ensures g.history[i].k != k {
      assert g.history[i] in g.history[height..];
      assert g.history[i].k in NamedAbove(g.history, height);
    }
    UndoSparesOthers(g.s, g.history, |g.history|, height, me, k);
  }

  /**
   When the connection has given up an acquired row and another connection has locked it since, the rollback
   takes the other connection's lock.
   */
  lemma StaleEntryTakesOthersLock(k: RowKey, me: Holder, other: Holder)
    requires me != other
    ensures var g := Perform(Logged(State(map[], map[], map[]), []), 10, me, AcquireRow(k));
            var held := After(After(g.s.held, 10, UnlockRow(k)), 10, LockRow(k, other));
            && k in held && held[k] == other
            && |g.history| == 1 && k !in UndoTo(State(held, map[], map[]), g.history, 0).held
  {
  }
}
