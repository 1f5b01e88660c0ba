/**
 The row-lock transaction protocol as a transition system. Any number of connections buffer
 their writes in a private overlay (inserted rows, deleted keys) above the shared rows, take a
 row lock per key, and publish the overlay at commit. One step is one statement.
 */
module Transactions {
  import opened RowLocks

  type Record = seq<bv8>

  type Rows = map<RowKey, Record>

  /** A connection's insertion and deletion trees. */
  datatype Overlay = Overlay(ins: Rows, del: set<RowKey>)

  const EMPTY: Overlay := Overlay(map[], {})

  datatype Db = Db(shared: Rows, overlays: map<Holder, Overlay>, held: Locks)

  function Own(db: Db, c: Holder): Overlay {
    if c in db.overlays then db.overlays[c] else EMPTY
  }

  /** What a transaction reads: the shared rows without the deleted ones, overlaid by the inserted ones. */
  function View(shared: Rows, o: Overlay): Rows {
    (shared - o.del) + o.ins
  }

  /** Which trees the writing cursor is positioned on. */
  datatype CursorState = OnShared | OnTrans | OnBoth

  predicate UsesShared(st: CursorState) { !st.OnTrans? }

  predicate UsesTrans(st: CursorState) { !st.OnShared? }

  /**
   One statement or transaction end. append stands for an insert that was told the key is new,
   so that it does not look the key up.
   */
  datatype Op =
    | Insert(k: RowKey, rec: Record, append: bool, st: CursorState)
    | Delete(k: RowKey, st: CursorState)
    | LockOnly(k: RowKey)
    | Commit
    | Rollback

  function SetOwn(db: Db, c: Holder, o: Overlay): Db {
    db.(overlays := db.overlays[c := o])
  }

  /** An insert is an update of a shared row when it looks the key up there and finds it. */
  predicate IsUpdate(db: Db, op: Op)
    requires op.Insert?
  {
    !op.append && UsesShared(op.st) && op.k in db.shared
  }

  /** n is the number of slots of the lock area. */
  function LockReply(db: Db, n: nat, c: Holder, k: RowKey): Rc {
    Reply(db.held, n, LockRow(k, c))
  }

  predicate Granted(rc: Rc) { rc.Ok? || rc.Done? }

  function WithLock(db: Db, n: nat, c: Holder, k: RowKey): Db {
    db.(held := After(db.held, n, LockRow(k, c)))
  }

  function InsertStep(db: Db, n: nat, c: Holder, op: Op): Db
    requires op.Insert?
  {
    if !Granted(LockReply(db, n, c, op.k)) then db
    else
      var o := Own(db, c);
      SetOwn(WithLock(db, n, c, op.k), c,
             Overlay(o.ins[op.k := op.rec], if IsUpdate(db, op) then o.del + {op.k} else o.del))
  }

  /** A row of the insertion tree is dropped, and its lock too unless the row hides a shared one. */
  function DeleteStep(db: Db, n: nat, c: Holder, op: Op): Db
    requires op.Delete?
  {
    var o := Own(db, c);
    if UsesTrans(op.st) then
      var held := if op.k in o.del then db.held else After(db.held, n, UnlockRow(op.k));
      SetOwn(db.(held := held), c, Overlay(o.ins - {op.k}, o.del))
    else if !Granted(LockReply(db, n, c, op.k)) then db
    else SetOwn(WithLock(db, n, c, op.k), c, Overlay(o.ins, o.del + {op.k}))
  }

  /** Both transaction ends drop the overlay and release every lock of the connection. */
  function EndStep(db: Db, n: nat, c: Holder, shared: Rows): Db {
    SetOwn(db.(shared := shared, held := After(db.held, n, ReleaseRows(c.pid, c.owner))), c, EMPTY)
  }

  function Step(db: Db, n: nat, c: Holder, op: Op): Db {
    match op
    case Insert(_, _, _, _) => InsertStep(db, n, c, op)
    case Delete(_, _) => DeleteStep(db, n, c, op)
    case LockOnly(k) => WithLock(db, n, c, k)
    case Commit => EndStep(db, n, c, View(db.shared, Own(db, c)))
    case Rollback => EndStep(db, n, c, db.shared)
  }

  /** A connection names itself with a process and an owner, neither of them the wildcard 0. */
  predicate IsConnection(c: Holder) {
    c.pid != 0 && c.owner != 0
  }

  /**
   What the cursor layer promises a statement: a delete stands on a row the transaction sees, and an
   insert that does not consult the shared rows is not aimed at a shared row the transaction still sees.
   */
  predicate Enabled(db: Db, c: Holder, op: Op) {
    match op
    case Insert(k, _, append, st) => append || !UsesShared(st) ==> k in db.shared ==> k in Own(db, c).del
    case Delete(k, st) => if UsesTrans(st) then k in Own(db, c).ins else k in db.shared && k !in Own(db, c).del
    case _ => true
  }

  /** The connection has a row lock on every key it has written. */
  ghost predicate Locked(held: Locks, c: Holder, o: Overlay) {
    && (forall k :: k in o.ins ==> k in held && held[k] == c)
    && (forall k :: k in o.del ==> k in held && held[k] == c)
  }

  /** Deleted keys are shared rows, and an inserted row that hides a shared one is recorded as deleted. */
  ghost predicate Fits(shared: Rows, o: Overlay) {
    && (forall k :: k in o.del ==> k in shared)
    && (forall k :: k in o.ins && k in shared ==> k in o.del)
  }

  ghost predicate Inv(db: Db) {
    forall c :: Locked(db.held, c, Own(db, c)) && Fits(db.shared, Own(db, c))
  }

  ghost predicate Kept(held: Locks, shared: Rows, c: Holder, o: Overlay) {
    Locked(held, c, o) && Fits(shared, o)
  }

  /** A step that changes only the overlay of c, and no lock of another's written row, keeps what the others have. */
  lemma OwnStepKeepsInv(db: Db, next: Db, c: Holder, o: Overlay)
    requires Inv(db) && next == Db(db.shared, db.overlays[c := o], next.held) && Kept(next.held, next.shared, c, o)
    requires forall k :: k in db.held && db.held[k] != c ==> k in next.held && next.held[k] == db.held[k]
    ensures Inv(next)
  {
    forall d ensures Locked(next.held, d, Own(next, d)) && Fits(next.shared, Own(next, d)) {
      if d != c {
        assert Own(next, d) == Own(db, d);
        assert Locked(db.held, d, Own(db, d)) && Fits(db.shared, Own(db, d));
      }
    }
  }

  lemma InsertKeepsInv(db: Db, n: nat, c: Holder, op: Op)
    requires Inv(db) && op.Insert? && Enabled(db, c, op)
    ensures Inv(InsertStep(db, n, c, op))
  {
    var next := InsertStep(db, n, c, op);
    assert Locked(db.held, c, Own(db, c)) && Fits(db.shared, Own(db, c));
    if Granted(LockReply(db, n, c, op.k)) {
      hide Inv;
      OwnStepKeepsInv(db, next, c, Own(next, c));
    }
  }

  lemma DropKeepsInv(db: Db, n: nat, c: Holder, op: Op)
    requires Inv(db) && op.Delete? && UsesTrans(op.st) && Enabled(db, c, op)
    ensures Inv(DeleteStep(db, n, c, op))
  {
    var next := DeleteStep(db, n, c, op);
    assert Locked(db.held, c, Own(db, c)) && Fits(db.shared, Own(db, c));
    hide Inv;
    OwnStepKeepsInv(db, next, c, Own(next, c));
  }

  lemma HideKeepsInv(db: Db, n: nat, c: Holder, op: Op)
    requires Inv(db) && op.Delete? && !UsesTrans(op.st) && Enabled(db, c, op)
    ensures Inv(DeleteStep(db, n, c, op))
  {
    var next := DeleteStep(db, n, c, op);
    assert Locked(db.held, c, Own(db, c)) && Fits(db.shared, Own(db, c));
    if Granted(LockReply(db, n, c, op.k)) {
      hide Inv;
      OwnStepKeepsInv(db, next, c, Own(next, c));
    }
  }

  lemma EndKeepsInv(db: Db, n: nat, c: Holder, commit: bool)
    requires Inv(db) && IsConnection(c)
    ensures Inv(EndStep(db, n, c, if commit then View(db.shared, Own(db, c)) else db.shared))
  {
    var next := EndStep(db, n, c, if commit then View(db.shared, Own(db, c)) else db.shared);
    assert Locked(db.held, c, Own(db, c)) && Fits(db.shared, Own(db, c));
    forall d ensures Locked(next.held, d, Own(next, d)) && Fits(next.shared, Own(next, d)) {
      assert Locked(db.held, d, Own(db, d)) && Fits(db.shared, Own(db, d));
    }
  }

  lemma StepKeepsInv(db: Db, n: nat, c: Holder, op: Op)
    requires Inv(db) && IsConnection(c) && Enabled(db, c, op)
    ensures Inv(Step(db, n, c, op))
  {
    match op
    case Insert(_, _, _, _) => InsertKeepsInv(db, n, c, op);
    case Delete(_, st) => if UsesTrans(st) { DropKeepsInv(db, n, c, op); } else { HideKeepsInv(db, n, c, op); }
    case LockOnly(k) =>
      var next := WithLock(db, n, c, k);
      forall d ensures Locked(next.held, d, Own(next, d)) && Fits(next.shared, Own(next, d)) {
        assert Locked(db.held, d, Own(db, d)) && Fits(db.shared, Own(db, d));
      }
    case Commit => EndKeepsInv(db, n, c, true);
    case Rollback => EndKeepsInv(db, n, c, false);
  }

  /** A connection gets the lock of a row that is free, if there is room, or its own already. */
  predicate Obtains(held: Locks, n: nat, c: Holder, k: RowKey) {
    if k in held then held[k] == c else |held| < n - 1
  }

  /**
   A transaction sees its own statements at once: a granted insert puts the record under the key in what it reads,
   a granted delete takes the key out, a refused statement changes nothing. No statement changes the shared rows
   or what another connection has written.
   */
  lemma StatementSeen(db: Db, n: nat, c: Holder, op: Op)
    requires Inv(db) && Enabled(db, c, op) && !op.Commit? && !op.Rollback?
    ensures var next := Step(db, n, c, op);
            var was, now := View(db.shared, Own(db, c)), View(next.shared, Own(next, c));
            && next.shared == db.shared
            && (forall d :: d != c ==> Own(next, d) == Own(db, d))
            && match op
               case Insert(k, rec, _, _) => now == if Obtains(db.held, n, c, k) then was[k := rec] else was
               case Delete(k, st) => now == if st != OnShared || Obtains(db.held, n, c, k) then was - {k} else was
               case _ => now == was
  {
    hide Inv, LockReply, Granted, Obtains, WithLock, View, Locked;
    assert Fits(db.shared, Own(db, c)) by { OwnFits(db, c); }
    match op
    case Insert(k, rec, _, _) =>
      LockIs(db, n, c, k);
      ViewInserted(db.shared, Own(db, c), k, rec);
    case Delete(k, st) =>
      LockIs(db, n, c, k);
      ViewDeleted(db.shared, Own(db, c), k);
    case LockOnly(k) => LockIs(db, n, c, k);
  }

  lemma OwnFits(db: Db, c: Holder)
    requires Inv(db)
    ensures Fits(db.shared, Own(db, c))
  {
  }

  /** The lock area answers a request with Ok or Done exactly when the connection obtains the row. */
  lemma LockIs(db: Db, n: nat, c: Holder, k: RowKey)
    ensures Granted(LockReply(db, n, c, k)) <==> Obtains(db.held, n, c, k)
    ensures WithLock(db, n, c, k) ==
            Db(db.shared, db.overlays, if Obtains(db.held, n, c, k) then db.held[k := c] else db.held)
  {
    assert k in db.held && db.held[k] == c ==> db.held[k := c] == db.held;
  }

  lemma ViewInserted(shared: Rows, o: Overlay, k: RowKey, rec: Record)
    ensures View(shared, Overlay(o.ins[k := rec], o.del)) == View(shared, o)[k := rec]
    ensures View(shared, Overlay(o.ins[k := rec], o.del + {k})) == View(shared, o)[k := rec]
  {
  }

  lemma ViewDeleted(shared: Rows, o: Overlay, k: RowKey)
    requires Fits(shared, o)
    ensures k in o.ins ==> View(shared, Overlay(o.ins - {k}, o.del)) == View(shared, o) - {k}
    ensures k in shared && k !in o.del ==> View(shared, Overlay(o.ins, o.del + {k})) == View(shared, o) - {k}
  {
  }

  /**
   What a statement does to the row locks: one that needs the lock of its key has it afterwards, and a row that
   was inserted and is deleted again is given up, unless it hides a shared one. No other lock changes.
   */
  lemma StatementLocks(db: Db, n: nat, c: Holder, op: Op)
    requires !op.Commit? && !op.Rollback?
    ensures var next := Step(db, n, c, op).held;
            match op
            case Insert(k, _, _, _) => next == if Obtains(db.held, n, c, k) then db.held[k := c] else db.held
            case Delete(k, st) =>
              if st == OnShared then next == if Obtains(db.held, n, c, k) then db.held[k := c] else db.held
              else next == if k in Own(db, c).del then db.held else db.held - {k}
            case LockOnly(k) => next == if Obtains(db.held, n, c, k) then db.held[k := c] else db.held
  {
    hide LockReply, Granted, Obtains, WithLock;
    LockIs(db, n, c, op.k);
  }

  /**
   The end of a transaction, either way: the connection's locks and no others are free, its overlay is empty, and
   the others' are as they were. A rollback leaves the shared rows.
   */
  lemma EndFrees(db: Db, n: nat, c: Holder, op: Op)
    requires IsConnection(c) && (op.Commit? || op.Rollback?)
    ensures var next := Step(db, n, c, op);
            && (forall k :: k in next.held <==> k in db.held && db.held[k] != c)
            && (forall k :: k in next.held ==> next.held[k] == db.held[k])
            && Own(next, c).ins == map[] && Own(next, c).del == {}
            && (forall d :: d != c ==> Own(next, d) == Own(db, d))
            && (op.Rollback? ==> next.shared == db.shared)
  {
    ReleasedExactly(db.held, c.pid, c.owner);
  }

  /** A row whose holder has ended its transaction is granted to the next that asks, when there is room. */
  lemma FreedRowIsGranted(db: Db, n: nat, c: Holder, op: Op, d: Holder, k: RowKey)
    requires IsConnection(c) && (op.Commit? || op.Rollback?) && k in db.held && db.held[k] == c
    ensures var next := Step(db, n, c, op);
            |next.held| < n - 1 ==> k in WithLock(next, n, d, k).held && WithLock(next, n, d, k).held[k] == d
  {
    EndFrees(db, n, c, op);
  }

  /** What the cursor layer must promise an insert is exact: without it a granted insert breaks the protocol. */
  lemma InsertKeepsInvIffEnabled(db: Db, n: nat, c: Holder, op: Op)
    requires Inv(db) && op.Insert? && Granted(LockReply(db, n, c, op.k))
    ensures Inv(InsertStep(db, n, c, op)) <==> Enabled(db, c, op)
  {
    if Enabled(db, c, op) {
      InsertKeepsInv(db, n, c, op);
    } else {
      var next := InsertStep(db, n, c, op);
      assert !Fits(next.shared, Own(next, c));
    }
  }

  /** One step of a run: who moved and how. */
  datatype Event = Event(c: Holder, op: Op)

  /** states[i + 1] is what event i made of states[i]. */
  ghost predicate IsRun(n: nat, states: seq<Db>, events: seq<Event>) {
    && |states| == |events| + 1
    && forall i :: 0 <= i < |events| ==> Moves(states[i], n, events[i], states[i + 1])
  }

  ghost predicate Moves(db: Db, n: nat, e: Event, next: Db) {
    IsConnection(e.c) && Enabled(db, e.c, e.op) && next == Step(db, n, e.c, e.op)
  }

  /** In every interleaving, started with no transaction open, the protocol invariant holds in every state. */
  lemma {:induction false} RunKeepsInv(n: nat, states: seq<Db>, events: seq<Event>, i: nat)
    requires IsRun(n, states, events) && i < |states|
    requires states[0].overlays == map[] && states[0].held == map[]
    ensures Inv(states[i])
  {
    if i > 0 {
      RunKeepsInv(n, states, events, i - 1);
      assert Moves(states[i - 1], n, events[i - 1], states[i]);
      StepKeepsInv(states[i - 1], n, events[i - 1].c, events[i - 1].op);
    }
  }

  function Touched(o: Overlay): set<RowKey> {
    o.ins.Keys + o.del
  }

  /** Different connections have written different keys. */
  lemma WritesAreDisjoint(db: Db, c: Holder, d: Holder)
    requires Inv(db) && c != d
    ensures Touched(Own(db, c)) !! Touched(Own(db, d))
  {
  }

  /** Publishing two overlays over different keys gives the same rows in either order. */
  lemma ViewsCommute(shared: Rows, o: Overlay, p: Overlay)
    requires Touched(o) !! Touched(p)
    ensures View(View(shared, o), p) == View(View(shared, p), o)
  {
  }

  /** The commits of two connections can be exchanged: rows, overlays and locks end up the same. */
  lemma CommitsCommute(db: Db, n: nat, c: Holder, d: Holder)
    requires Inv(db) && c != d && IsConnection(c) && IsConnection(d)
    ensures Step(Step(db, n, c, Commit), n, d, Commit) == Step(Step(db, n, d, Commit), n, c, Commit)
  {
    WritesAreDisjoint(db, c, d);
    ViewsCommute(db.shared, Own(db, c), Own(db, d));
    ReleasesCommute(db.held, c, d);
    assert db.overlays[c := EMPTY][d := EMPTY] == db.overlays[d := EMPTY][c := EMPTY];
    hide View, Released, Inv;
  }

  lemma ReleasesCommute(held: Locks, c: Holder, d: Holder)
    ensures Released(Released(held, c.pid, c.owner), d.pid, d.owner)
            == Released(Released(held, d.pid, d.owner), c.pid, c.owner)
  {
  }

  /** Another connection's commit changes what a transaction sees by that connection's writes and nothing else. */
  lemma CommitUnderOpenTransaction(db: Db, n: nat, c: Holder, d: Holder)
    requires Inv(db) && c != d && IsConnection(d)
    ensures var next := Step(db, n, d, Commit);
            && View(next.shared, Own(next, c)) == View(View(db.shared, Own(db, c)), Own(db, d))
            && (forall k :: k in Touched(Own(db, c)) ==>
                  (k in View(next.shared, Own(next, c)) <==> k in View(db.shared, Own(db, c))) &&
                  (k in View(db.shared, Own(db, c)) ==>
                    View(next.shared, Own(next, c))[k] == View(db.shared, Own(db, c))[k]))
  {
    WritesAreDisjoint(db, c, d);
    ViewsCommute(db.shared, Own(db, c), Own(db, d));
  }

  /** The row count kept by the engine: shared rows plus inserted rows minus deleted keys. */
  lemma ViewSize(shared: Rows, o: Overlay)
    requires Fits(shared, o)
    ensures |View(shared, o)| == |shared| + |o.ins| - |o.del|
  {
  }
}
