/**
 Serial equivalence of committed transactions: when the shared rows of an interleaved run are those
 of running each committed transaction's statements alone, in commit order, and when they are not.
 */
module Serial {
  import opened RowLocks
  import opened Transactions
  import opened Wrappers

  /** A statement that took effect, as a direct write to the table. */
  datatype Write = Put(k: RowKey, rec: Record) | Del(k: RowKey)

  function Apply(rows: Rows, w: Write): Rows {
    match w
    case Put(k, rec) => rows[k := rec]
    case Del(k) => rows - {k}
  }

  /** The writes performed directly on the rows, nothing buffered. */
  function Direct(rows: Rows, log: seq<Write>): Rows {
    if log == [] then rows else Apply(Direct(rows, log[..|log| - 1]), log[|log| - 1])
  }

  /** The last write of a key. */
  function Last(log: seq<Write>, k: RowKey): Option<Write> {
    if log == [] then None
    else if log[|log| - 1].k == k then Some(log[|log| - 1])
    else Last(log[..|log| - 1], k)
  }

  /**
   A run beside which the writes of the open transactions are logged and the committed ones are
   performed serially.
   */
  datatype History = History(db: Db, logs: map<Holder, seq<Write>>, serial: Rows)

  function Log(h: History, c: Holder): seq<Write> {
    if c in h.logs then h.logs[c] else []
  }

  function Writes(db: Db, n: nat, c: Holder, op: Op): seq<Write> {
    match op
    case Insert(k, rec, _, _) => if Granted(LockReply(db, n, c, k)) then [Put(k, rec)] else []
    case Delete(k, st) => if UsesTrans(st) || Granted(LockReply(db, n, c, k)) then [Del(k)] else []
    case _ => []
  }

  function NextHistory(h: History, n: nat, c: Holder, op: Op): History {
    History(Step(h.db, n, c, op),
            h.logs[c := if op.Commit? || op.Rollback? then [] else Log(h, c) + Writes(h.db, n, c, op)],
            if op.Commit? then Direct(h.serial, Log(h, c)) else h.serial)
  }

  /** The overlay holds what the last write of each key left. */
  ghost predicate Reflects(o: Overlay, log: seq<Write>, k: RowKey) {
    match Last(log, k)
    case None => k !in o.ins && k !in o.del
    case Some(Put(_, rec)) => k in o.ins && o.ins[k] == rec
    case Some(Del(_)) => k !in o.ins
  }

  ghost predicate Logged(h: History) {
    forall c, k :: Reflects(Own(h.db, c), Log(h, c), k)
  }

  /**
   A row the transaction inserted and deleted again, whose lock it gave up on the way, is back in the
   shared rows by another connection's doing.
   */
  predicate Revived(shared: Rows, o: Overlay, log: seq<Write>, k: RowKey) {
    k in shared && k !in o.del && Last(log, k).Some? && Last(log, k).value.Del?
  }

  lemma {:induction false} DirectByLast(rows: Rows, log: seq<Write>, k: RowKey)
    ensures match Last(log, k) {
              case None => (k in Direct(rows, log) <==> k in rows) && (k in rows ==> Direct(rows, log)[k] == rows[k])
              case Some(Put(_, rec)) => k in Direct(rows, log) && Direct(rows, log)[k] == rec
              case Some(Del(_)) => k !in Direct(rows, log)
            }
  {
    if log != [] {
      DirectByLast(rows, log[..|log| - 1], k);
    }
  }

  /** A commit equals the direct performance of the transaction's writes exactly when no row of it is revived. */
  lemma CommitIsSerialIff(shared: Rows, o: Overlay, log: seq<Write>)
    requires Fits(shared, o) && forall k :: Reflects(o, log, k)
    ensures View(shared, o) == Direct(shared, log) <==> forall k :: !Revived(shared, o, log, k)
  {
    forall k ensures !Revived(shared, o, log, k) ==> Same(View(shared, o), Direct(shared, log), k)
             ensures Revived(shared, o, log, k) ==> View(shared, o) != Direct(shared, log)
    {
      DirectByLast(shared, log, k);
      assert Reflects(o, log, k);
    }
    if forall k :: !Revived(shared, o, log, k) {
      SameRows(View(shared, o), Direct(shared, log));
    }
  }

  lemma SameRows(a: Rows, b: Rows)
    requires forall k :: Same(a, b, k)
    ensures a == b
  {
    assert forall k :: k in a ==> Same(a, b, k);
    assert forall k :: k in b ==> Same(a, b, k);
  }

  ghost predicate Same(a: Rows, b: Rows, k: RowKey) {
    (k in a <==> k in b) && (k in a && k in b ==> a[k] == b[k])
  }

  lemma LastAppended(log: seq<Write>, more: seq<Write>, k: RowKey)
    requires |more| <= 1
    ensures Last(log + more, k) == if |more| == 1 && more[0].k == k then Some(more[0]) else Last(log, k)
  {
    if |more| == 1 {
      assert (log + more)[..|log|] == log;
    } else {
      assert log + more == log;
    }
  }

  /** A statement leaves the overlay of its own connection as its write says. */
  lemma StatementReflected(h: History, n: nat, c: Holder, op: Op, k: RowKey)
    requires Fits(h.db.shared, Own(h.db, c)) && Reflects(Own(h.db, c), Log(h, c), k) && Enabled(h.db, c, op)
    requires !op.Commit? && !op.Rollback?
    ensures Reflects(Own(Step(h.db, n, c, op), c), Log(h, c) + Writes(h.db, n, c, op), k)
  {
    LastAppended(Log(h, c), Writes(h.db, n, c, op), k);
    match op
    case Insert(_, _, _, _) =>
    case Delete(_, _) =>
    case LockOnly(_) =>
  }

  lemma NextKeepsLogged(h: History, n: nat, c: Holder, op: Op)
    requires Inv(h.db) && Logged(h) && IsConnection(c) && Enabled(h.db, c, op)
    ensures Logged(NextHistory(h, n, c, op))
  {
    var next := NextHistory(h, n, c, op);
    assert Fits(h.db.shared, Own(h.db, c));
    forall d, k ensures Reflects(Own(next.db, d), Log(next, d), k) {
      assert Reflects(Own(h.db, d), Log(h, d), k);
      if d != c {
        assert Own(next.db, d) == Own(h.db, d) && Log(next, d) == Log(h, d);
      } else if !op.Commit? && !op.Rollback? {
        StatementReflected(h, n, c, op, k);
      }
    }
  }

  /** A connection about to commit finds none of the rows it released revived. */
  ghost predicate NoneRevived(h: History, c: Holder) {
    forall k :: !Revived(h.db.shared, Own(h.db, c), Log(h, c), k)
  }

  /** The shared rows are those of the committed transactions run one after the other. */
  ghost predicate IsSerial(h: History) {
    h.serial == h.db.shared
  }

  /** A serial history stays serial through one more event exactly when a commit finds nothing revived. */
  lemma NextIsSerialIff(h: History, n: nat, c: Holder, op: Op)
    requires Inv(h.db) && Logged(h) && IsSerial(h)
    ensures IsSerial(NextHistory(h, n, c, op)) <==> (op.Commit? ==> NoneRevived(h, c))
  {
    if op.Commit? {
      assert Fits(h.db.shared, Own(h.db, c));
      assert forall k :: Reflects(Own(h.db, c), Log(h, c), k);
      CommitIsSerialIff(h.db.shared, Own(h.db, c), Log(h, c));
    }
  }

  /** The states of a run that starts with no transaction open, with what is logged beside them. */
  ghost predicate IsHistory(n: nat, hs: seq<History>, events: seq<Event>) {
    && |hs| == |events| + 1
    && hs[0] == History(Db(hs[0].serial, map[], map[]), map[], hs[0].serial)
    && forall i :: 0 <= i < |events| ==>
                     && Moves(hs[i].db, n, events[i], hs[i + 1].db)
                     && hs[i + 1] == NextHistory(hs[i], n, events[i].c, events[i].op)
  }

  lemma {:induction false} HistoryKeepsLogged(n: nat, hs: seq<History>, events: seq<Event>, i: nat)
    requires IsHistory(n, hs, events) && i < |hs|
    ensures Inv(hs[i].db) && Logged(hs[i])
  {
    if i > 0 {
      HistoryKeepsLogged(n, hs, events, i - 1);
      var e := events[i - 1];
      assert Moves(hs[i - 1].db, n, e, hs[i].db);
      StepKeepsInv(hs[i - 1].db, n, e.c, e.op);
      NextKeepsLogged(hs[i - 1], n, e.c, e.op);
    }
  }

  lemma {:induction false} SerialUpTo(n: nat, hs: seq<History>, events: seq<Event>, i: nat)
    requires IsHistory(n, hs, events) && i < |hs|
    requires forall j :: 0 <= j < i && events[j].op.Commit? ==> NoneRevived(hs[j], events[j].c)
    ensures IsSerial(hs[i])
  {
    if i > 0 {
      SerialUpTo(n, hs, events, i - 1);
      HistoryKeepsLogged(n, hs, events, i - 1);
      NextIsSerialIff(hs[i - 1], n, events[i - 1].c, events[i - 1].op);
    }
  }

  /**
   In every interleaving the shared rows are at every point those of running the committed transactions one
   after the other, alone and unbuffered, in the order of their commits, exactly when no commit finds a row
   that its transaction released revived.
   */
  lemma RunIsSerialIff(n: nat, hs: seq<History>, events: seq<Event>)
    requires IsHistory(n, hs, events)
    ensures (forall i :: 0 <= i < |hs| ==> IsSerial(hs[i])) <==>
            (forall j :: 0 <= j < |events| && events[j].op.Commit? ==> NoneRevived(hs[j], events[j].c))
  {
    if forall i :: 0 <= i < |hs| ==> IsSerial(hs[i]) {
      forall j | 0 <= j < |events| && events[j].op.Commit? ensures NoneRevived(hs[j], events[j].c) {
        HistoryKeepsLogged(n, hs, events, j);
        NextIsSerialIff(hs[j], n, events[j].c, events[j].op);
        assert IsSerial(hs[j]) && IsSerial(hs[j + 1]);
      }
    }
    if forall j :: 0 <= j < |events| && events[j].op.Commit? ==> NoneRevived(hs[j], events[j].c) {
      forall i | 0 <= i < |hs| ensures IsSerial(hs[i]) {
        SerialUpTo(n, hs, events, i);
      }
    }
  }

  /** Two connections and two rows, with the records they write. */
  datatype Cast = Cast(a: Holder, b: Holder, x: RowKey, y: RowKey, r: Record, q: Record)

  ghost predicate Distinct(w: Cast) {
    IsConnection(w.a) && IsConnection(w.b) && w.a != w.b && w.x != w.y && w.r != w.q
  }

  function S0(): Db {
    Db(map[], map[], map[])
  }

  function S1(w: Cast): Db {
    Db(map[], map[w.a := Overlay(map[w.x := w.r], {})], map[w.x := w.a])
  }

  function S2(w: Cast): Db {
    Db(map[], map[w.a := EMPTY], map[])
  }

  function S3(w: Cast): Db {
    Db(map[], S2(w).overlays[w.b := Overlay(map[w.x := w.q], {})], map[w.x := w.b])
  }

  function S4(w: Cast): Db {
    Db(map[], S2(w).overlays[w.b := Overlay(map[w.x := w.q, w.y := w.q], {})], map[w.x := w.b, w.y := w.b])
  }

  function S5(w: Cast): Db {
    Db(map[w.x := w.q, w.y := w.q], S2(w).overlays[w.b := EMPTY], map[])
  }

  function S6(w: Cast): Db {
    Db(map[w.x := w.q, w.y := w.q], S5(w).overlays[w.a := Overlay(map[w.y := w.r], {w.y})], map[w.y := w.a])
  }

  function S7(w: Cast): Db {
    Db(map[w.x := w.q, w.y := w.r], S5(w).overlays, map[])
  }

  lemma Move0(w: Cast)
    requires Distinct(w)
    ensures Moves(S0(), 10, Event(w.a, Insert(w.x, w.r, false, OnShared)), S1(w))
  {
  }

  lemma Move1(w: Cast)
    requires Distinct(w)
    ensures Moves(S1(w), 10, Event(w.a, Delete(w.x, OnTrans)), S2(w))
  {
  }

  lemma Move2(w: Cast)
    requires Distinct(w)
    ensures Moves(S2(w), 10, Event(w.b, Insert(w.x, w.q, false, OnShared)), S3(w))
  {
  }

  lemma Move3(w: Cast)
    requires Distinct(w)
    ensures Moves(S3(w), 10, Event(w.b, Insert(w.y, w.q, false, OnShared)), S4(w))
  {
    var o := S4(w).overlays[w.b];
    assert S3(w).overlays[w.b := o] == S4(w).overlays;
  }

  lemma Move4(w: Cast)
    requires Distinct(w)
    ensures Moves(S4(w), 10, Event(w.b, Commit), S5(w))
  {
    assert S4(w).overlays[w.b := EMPTY] == S5(w).overlays;
    assert Released(S4(w).held, w.b.pid, w.b.owner) == map[];
    assert View(map[], S4(w).overlays[w.b]) == S5(w).shared;
  }

  lemma Move5(w: Cast)
    requires Distinct(w)
    ensures Moves(S5(w), 10, Event(w.a, Insert(w.y, w.r, false, OnShared)), S6(w))
  {
  }

  lemma Move6(w: Cast)
    requires Distinct(w)
    ensures Moves(S6(w), 10, Event(w.a, Commit), S7(w))
  {
    assert S6(w).overlays[w.a := EMPTY] == S7(w).overlays;
    assert Released(S6(w).held, w.a.pid, w.a.owner) == map[];
    assert View(S6(w).shared, S6(w).overlays[w.a]) == S7(w).shared;
  }

  /**
   Giving up the lock of an inserted row at its deletion is not serializable. In this run a inserts row x and
   deletes it again, b inserts rows x and y and commits, and a overwrites row y and commits: the rows left are
   not those of either order of running the two transactions alone.
   */
  lemma EarlyReleaseIsNotSerial(w: Cast)
    requires Distinct(w)
    ensures Moves(S0(), 10, Event(w.a, Insert(w.x, w.r, false, OnShared)), S1(w))
    ensures Moves(S1(w), 10, Event(w.a, Delete(w.x, OnTrans)), S2(w))
    ensures Moves(S2(w), 10, Event(w.b, Insert(w.x, w.q, false, OnShared)), S3(w))
    ensures Moves(S3(w), 10, Event(w.b, Insert(w.y, w.q, false, OnShared)), S4(w))
    ensures Moves(S4(w), 10, Event(w.b, Commit), S5(w))
    ensures Moves(S5(w), 10, Event(w.a, Insert(w.y, w.r, false, OnShared)), S6(w))
    ensures Moves(S6(w), 10, Event(w.a, Commit), S7(w))
    ensures var logA, logB := [Put(w.x, w.r), Del(w.x), Put(w.y, w.r)], [Put(w.x, w.q), Put(w.y, w.q)];
            S7(w).shared != Direct(Direct(map[], logA), logB) && S7(w).shared != Direct(Direct(map[], logB), logA)
  {
    Move0(w);
    Move1(w);
    Move2(w);
    Move3(w);
    Move4(w);
    Move5(w);
    Move6(w);
    NeitherOrder(w);
  }

  lemma NeitherOrder(w: Cast)
    requires Distinct(w)
    ensures var logA, logB := [Put(w.x, w.r), Del(w.x), Put(w.y, w.r)], [Put(w.x, w.q), Put(w.y, w.q)];
            S7(w).shared != Direct(Direct(map[], logA), logB) && S7(w).shared != Direct(Direct(map[], logB), logA)
  {
    var logA, logB := [Put(w.x, w.r), Del(w.x), Put(w.y, w.r)], [Put(w.x, w.q), Put(w.y, w.q)];
    DirectByLast(Direct(map[], logB), logA, w.x);
    DirectByLast(Direct(map[], logA), logB, w.y);
    assert logA[..2] == [Put(w.x, w.r), Del(w.x)];
  }
}
