/**
 The mutexes of shared B-trees. Each connection has its shared B-trees in a list ordered by the address of
 the shared part, which owns the mutex. A connection that cannot take a mutex at once releases those of
 larger address first, then waits, then takes the released ones back in order. Any number of connections
 interleave between the single steps of this.
 */
module BtreeMutex {

  /** A B-tree of a connection: the address of its shared part, how often it is entered, whether it is locked. */
  datatype Tree = Tree(addr: nat, want: nat, locked: bool)

  /** Between calls; walking the trees after p to unlock them; waiting for p or taking later trees back. */
  datatype Pc = Idle | Releasing(p: nat, k: nat) | Acquiring(p: nat, k: nat)

  datatype Conn = Conn(trees: seq<Tree>, pc: Pc)

  /** owner tells who holds the mutex of an address; user is the connection the shared part was last given to. */
  datatype State = State(conns: seq<Conn>, owner: map<nat, nat>, user: map<nat, nat>)

  /** Enter with its attempt to take the mutex, a step of either walk, and Leave. */
  datatype Op = Enter(p: nat, got: bool) | Release | Acquire | Leave(p: nat)

  /** What a step does to the mutex of an address. */
  datatype Effect = Nothing | Take(a: nat) | Give(a: nat)

  datatype Change = Change(conn: Conn, effect: Effect)

  function WithTree(conn: Conn, k: nat, t: Tree): Conn
    requires k < |conn.trees|
  {
    conn.(trees := conn.trees[k := t])
  }

  function Locked(conn: Conn, k: nat): Change
    requires k < |conn.trees|
  {
    Change(WithTree(conn, k, conn.trees[k].(locked := true)), Take(conn.trees[k].addr))
  }

  function Unlocked(conn: Conn, k: nat): Change
    requires k < |conn.trees|
  {
    Change(WithTree(conn, k, conn.trees[k].(locked := false)), Give(conn.trees[k].addr))
  }

  function Wanted(conn: Conn, k: nat, want: nat): Conn
    requires k < |conn.trees|
  {
    WithTree(conn, k, conn.trees[k].(want := want))
  }

  function At(x: Change, pc: Pc): Change {
    x.(conn := x.conn.(pc := pc))
  }

  /** The mutex a connection is about to take, if any. */
  ghost predicate Awaits(conn: Conn, a: nat) {
    && conn.pc.Acquiring? && conn.pc.k < |conn.trees| && conn.trees[conn.pc.k].addr == a
    && (conn.pc.k == conn.pc.p || conn.trees[conn.pc.k].want > 0)
  }

  /** The calls and steps a connection can make by itself. */
  predicate Able(conn: Conn, op: Op) {
    match op
    case Enter(p, got) => conn.pc.Idle? && p < |conn.trees|
    case Release => conn.pc.Releasing?
    case Acquire => conn.pc.Acquiring?
    case Leave(p) => conn.pc.Idle? && p < |conn.trees| && conn.trees[p].want > 0
  }

  function EnterStep(conn: Conn, p: nat, got: bool): Change
    requires p < |conn.trees|
  {
    var w := Wanted(conn, p, conn.trees[p].want + 1);
    if conn.trees[p].locked then Change(w, Nothing)
    else if got then Locked(w, p)
    else At(Change(w, Nothing), Releasing(p, p + 1))
  }

  function ReleaseStep(conn: Conn, p: nat, k: nat): Change {
    if k >= |conn.trees| then At(Change(conn, Nothing), Acquiring(p, p))
    else At(if conn.trees[k].locked then Unlocked(conn, k) else Change(conn, Nothing), Releasing(p, k + 1))
  }

  function AcquireStep(conn: Conn, p: nat, k: nat): Change {
    if k >= |conn.trees| then At(Change(conn, Nothing), Idle)
    else At(if k == p || conn.trees[k].want > 0 then Locked(conn, k) else Change(conn, Nothing), Acquiring(p, k + 1))
  }

  function LeaveStep(conn: Conn, p: nat): Change
    requires p < |conn.trees| && conn.trees[p].want > 0
  {
    var w := Wanted(conn, p, conn.trees[p].want - 1);
    if w.trees[p].want == 0 then Unlocked(w, p) else Change(w, Nothing)
  }

  function ConnStep(conn: Conn, op: Op): Change
    requires Able(conn, op)
  {
    match op
    case Enter(p, got) => EnterStep(conn, p, got)
    case Release => ReleaseStep(conn, conn.pc.p, conn.pc.k)
    case Acquire => AcquireStep(conn, conn.pc.p, conn.pc.k)
    case Leave(p) => LeaveStep(conn, p)
  }

  /** A mutex can be taken only when nobody holds it. */
  predicate Can(s: State, c: nat, op: Op) {
    && c < |s.conns| && Able(s.conns[c], op)
    && (ConnStep(s.conns[c], op).effect.Take? ==> ConnStep(s.conns[c], op).effect.a !in s.owner)
  }

  function Applied(s: State, c: nat, x: Change): State
    requires c < |s.conns|
  {
    var conns := s.conns[c := x.conn];
    match x.effect
    case Nothing => s.(conns := conns)
    case Take(a) => State(conns, s.owner[a := c], s.user[a := c])
    case Give(a) => s.(conns := conns, owner := s.owner - {a})
  }

  function Step(s: State, c: nat, op: Op): State
    requires Can(s, c, op)
  {
    Applied(s, c, ConnStep(s.conns[c], op))
  }

  /** The trees from lo to hi are locked just when they are entered. */
  ghost predicate Settled(trees: seq<Tree>, lo: nat, hi: nat) {
    forall j :: lo <= j < hi <= |trees| ==> (trees[j].locked <==> trees[j].want > 0)
  }

  ghost predicate Free(trees: seq<Tree>, lo: nat, hi: nat) {
    forall j :: lo <= j < hi <= |trees| ==> !trees[j].locked
  }

  /** The trees of a connection are in the order of their addresses. */
  ghost predicate Ordered(trees: seq<Tree>) {
    forall i, j :: 0 <= i < j < |trees| ==> trees[i].addr < trees[j].addr
  }

  /** What a connection has locked, by where it is. */
  ghost predicate Placed(conn: Conn) {
    && Ordered(conn.trees)
    && var n := |conn.trees|;
       match conn.pc
       case Idle => Settled(conn.trees, 0, n)
       case Releasing(p, k) =>
         && p < k <= n && conn.trees[p].want > 0
         && Settled(conn.trees, 0, p) && Free(conn.trees, p, k) && Settled(conn.trees, k, n)
       case Acquiring(p, k) =>
         p <= k <= n && p < n && conn.trees[p].want > 0 && Settled(conn.trees, 0, k) && Free(conn.trees, k, n)
  }

  ghost predicate Holds(conn: Conn, a: nat) {
    exists k :: 0 <= k < |conn.trees| && conn.trees[k].addr == a && conn.trees[k].locked
  }

  /** The locked flags tell who holds the mutexes, and the shared part belongs to the holder. */
  ghost predicate OwnersRight(s: State) {
    && (forall c, a | 0 <= c < |s.conns| && Holds(s.conns[c], a) :: a in s.owner && s.owner[a] == c)
    && (forall a | a in s.owner :: s.owner[a] < |s.conns| && Holds(s.conns[s.owner[a]], a))
    && (forall a | a in s.owner :: a in s.user && s.user[a] == s.owner[a])
  }

  ghost predicate Inv(s: State) {
    (forall c :: 0 <= c < |s.conns| ==> Placed(s.conns[c])) && OwnersRight(s)
  }

  lemma CallKeepsPlaced(conn: Conn, op: Op)
    requires Placed(conn) && Able(conn, op) && (op.Enter? || op.Leave?)
    ensures Placed(ConnStep(conn, op).conn)
  {
  }

  lemma ReleaseKeepsPlaced(conn: Conn, op: Op)
    requires Placed(conn) && Able(conn, op) && op.Release?
    ensures Placed(ConnStep(conn, op).conn)
  {
    hide EnterStep, LeaveStep, AcquireStep;
  }

  lemma AcquireKeepsPlaced(conn: Conn, op: Op)
    requires Placed(conn) && Able(conn, op) && op.Acquire?
    ensures Placed(ConnStep(conn, op).conn)
  {
    hide EnterStep, LeaveStep, ReleaseStep;
  }

  /** A step keeps a connection's locks in order. */
  lemma StepKeepsPlaced(conn: Conn, op: Op)
    requires Placed(conn) && Able(conn, op)
    ensures Placed(ConnStep(conn, op).conn)
  {
    hide Placed, ConnStep;
    if op.Enter? || op.Leave? {
      CallKeepsPlaced(conn, op);
    } else if op.Release? {
      ReleaseKeepsPlaced(conn, op);
    } else {
      AcquireKeepsPlaced(conn, op);
    }
  }

  /** What a connection holds after a change with this effect. */
  ghost predicate HeldAfter(conn: Conn, x: Change) {
    forall a :: Holds(x.conn, a) <==>
      match x.effect
      case Nothing => Holds(conn, a)
      case Take(b) => Holds(conn, a) || a == b
      case Give(b) => Holds(conn, a) && a != b
  }

  lemma HoldsByFlag(conn: Conn, k: nat)
    requires k < |conn.trees| && conn.trees[k].locked
    ensures Holds(conn, conn.trees[k].addr)
  {
  }

  /** Only the flag of tree k changes: its mutex is taken or given back. */
  lemma FlagChanged(conn: Conn, conn': Conn, k: nat)
    requires |conn'.trees| == |conn.trees| && k < |conn.trees| && Ordered(conn.trees)
    requires forall j | 0 <= j < |conn.trees| ::
              conn'.trees[j].addr == conn.trees[j].addr && (j != k ==> conn'.trees[j].locked == conn.trees[j].locked)
    ensures forall a :: a != conn.trees[k].addr ==> (Holds(conn', a) <==> Holds(conn, a))
    ensures Holds(conn', conn.trees[k].addr) <==> conn'.trees[k].locked
  {
  }

  lemma LockedHolds(conn: Conn, k: nat)
    requires k < |conn.trees| && Ordered(conn.trees)
    ensures HeldAfter(conn, Locked(conn, k))
  {
    FlagChanged(conn, Locked(conn, k).conn, k);
  }

  lemma UnlockedHolds(conn: Conn, k: nat)
    requires k < |conn.trees| && Ordered(conn.trees)
    ensures HeldAfter(conn, Unlocked(conn, k))
  {
    FlagChanged(conn, Unlocked(conn, k).conn, k);
  }

  lemma SameHolds(conn: Conn, conn': Conn)
    requires |conn'.trees| == |conn.trees|
    requires forall j | 0 <= j < |conn.trees| ::
              conn'.trees[j].addr == conn.trees[j].addr && conn'.trees[j].locked == conn.trees[j].locked
    ensures forall a :: Holds(conn', a) <==> Holds(conn, a)
  {
  }

  /** The effect of a step tells what it does to the mutexes its connection holds. */
  lemma StepHolds(conn: Conn, op: Op)
    requires Placed(conn) && Able(conn, op)
    ensures HeldAfter(conn, ConnStep(conn, op))
    ensures ConnStep(conn, op).effect.Give? ==> Holds(conn, ConnStep(conn, op).effect.a)
  {
    var x := ConnStep(conn, op);
    match op
    case Enter(p, got) =>
      var w := Wanted(conn, p, conn.trees[p].want + 1);
      SameHolds(conn, w);
      if !conn.trees[p].locked && got {
        LockedHolds(w, p);
      } else {
        SameHolds(conn, x.conn);
      }
    case Release =>
      var k := conn.pc.k;
      if k < |conn.trees| && conn.trees[k].locked {
        UnlockedHolds(conn, k);
        HoldsByFlag(conn, k);
        SameHolds(Unlocked(conn, k).conn, x.conn);
      } else {
        SameHolds(conn, x.conn);
      }
    case Acquire =>
      var k := conn.pc.k;
      if k < |conn.trees| && (k == conn.pc.p || conn.trees[k].want > 0) {
        LockedHolds(conn, k);
        SameHolds(Locked(conn, k).conn, x.conn);
      } else {
        SameHolds(conn, x.conn);
      }
    case Leave(p) =>
      var w := Wanted(conn, p, conn.trees[p].want - 1);
      SameHolds(conn, w);
      if conn.trees[p].want == 1 {
        UnlockedHolds(w, p);
        HoldsByFlag(conn, p);
      }
  }

  /** A change whose effect is right keeps the owners right. */
  lemma AppliedKeepsOwners(s: State, c: nat, x: Change)
    requires OwnersRight(s) && c < |s.conns| && HeldAfter(s.conns[c], x)
    requires x.effect.Take? ==> x.effect.a !in s.owner
    requires x.effect.Give? ==> Holds(s.conns[c], x.effect.a)
    ensures OwnersRight(Applied(s, c, x))
  {
    hide Holds;
    var s' := Applied(s, c, x);
    forall d, a | 0 <= d < |s'.conns| && Holds(s'.conns[d], a) ensures a in s'.owner && s'.owner[a] == d {
      if d != c {
        assert Holds(s.conns[d], a);
      }
    }
    forall a | a in s'.owner ensures s'.owner[a] < |s'.conns| && Holds(s'.conns[s'.owner[a]], a) {
      if a in s.owner {
        assert Holds(s.conns[s.owner[a]], a);
      }
    }
  }

  /** Every step of every connection keeps the locks in order. */
  lemma StepKeepsInv(s: State, c: nat, op: Op)
    requires Inv(s) && Can(s, c, op)
    ensures Inv(Step(s, c, op))
  {
    hide Placed, Holds, ConnStep, Able, OwnersRight, HeldAfter;
    StepKeepsPlaced(s.conns[c], op);
    StepHolds(s.conns[c], op);
    AppliedKeepsOwners(s, c, ConnStep(s.conns[c], op));
  }

  /** At the start nothing is entered or locked. */
  ghost predicate Init(s: State) {
    && s.owner == map[]
    && forall c :: 0 <= c < |s.conns| ==>
                     && Ordered(s.conns[c].trees) && s.conns[c].pc == Idle
                     && forall k :: 0 <= k < |s.conns[c].trees| ==>
                                   s.conns[c].trees[k].want == 0 && !s.conns[c].trees[k].locked
  }

  datatype Event = Event(c: nat, op: Op)

  /** A run: the states it goes through, one step by one connection at a time. */
  ghost predicate IsRun(states: seq<State>, events: seq<Event>) {
    && |states| == |events| + 1 && Init(states[0])
    && forall i :: 0 <= i < |events| ==>
                     && Can(states[i], events[i].c, events[i].op)
                     && states[i + 1] == Step(states[i], events[i].c, events[i].op)
  }

  lemma {:induction false} RunKeepsInv(states: seq<State>, events: seq<Event>, n: nat)
    requires IsRun(states, events) && n <= |events|
    ensures Inv(states[n])
  {
    if n > 0 {
      RunKeepsInv(states, events, n - 1);
      StepKeepsInv(states[n - 1], events[n - 1].c, events[n - 1].op);
    }
  }

  /** Connection c waits for a mutex that d holds. */
  ghost predicate WaitsFor(s: State, c: nat, d: nat, a: nat) {
    c < |s.conns| && d < |s.conns| && Awaits(s.conns[c], a) && Holds(s.conns[d], a)
  }

  /** A waiting connection holds only mutexes of smaller address than the one it waits for. */
  lemma WaiterHoldsSmaller(s: State, c: nat, a: nat, b: nat)
    requires Inv(s) && c < |s.conns| && Awaits(s.conns[c], a) && Holds(s.conns[c], b)
    ensures b < a
  {
  }

  /** Each member of the ring waits for a mutex held by the next one. */
  ghost predicate Ring(s: State, ring: seq<nat>, addrs: seq<nat>) {
    && |ring| == |addrs| > 0
    && (forall i :: 0 <= i < |ring| - 1 ==> WaitsFor(s, ring[i], ring[i + 1], addrs[i]))
    && WaitsFor(s, ring[|ring| - 1], ring[0], addrs[|ring| - 1])
  }

  lemma {:induction false} AddressesGrow(s: State, ring: seq<nat>, addrs: seq<nat>, i: nat)
    requires Inv(s) && Ring(s, ring, addrs) && i < |ring|
    ensures addrs[0] <= addrs[i] && ring[i] < |s.conns| && Awaits(s.conns[ring[i]], addrs[i])
  {
    if i > 0 {
      AddressesGrow(s, ring, addrs, i - 1);
      assert WaitsFor(s, ring[i - 1], ring[i - 1 + 1], addrs[i - 1]);
      if i < |ring| - 1 {
        assert WaitsFor(s, ring[i], ring[i + 1], addrs[i]);
      }
      WaiterHoldsSmaller(s, ring[i], addrs[i], addrs[i - 1]);
    } else if |ring| > 1 {
      assert WaitsFor(s, ring[0], ring[0 + 1], addrs[0]);
    }
  }

  /** In no state of any run do connections wait for each other in a circle. */
  lemma NoDeadlock(states: seq<State>, events: seq<Event>, n: nat, ring: seq<nat>, addrs: seq<nat>)
    requires IsRun(states, events) && n <= |events|
    ensures !Ring(states[n], ring, addrs)
  {
    RunKeepsInv(states, events, n);
    if Ring(states[n], ring, addrs) {
      AddressesGrow(states[n], ring, addrs, |ring| - 1);
      AddressesGrow(states[n], ring, addrs, 0);
      WaiterHoldsSmaller(states[n], ring[0], addrs[0], addrs[|ring| - 1]);
    }
  }

  /** A connection that no other one keeps from going on. */
  ghost predicate Moves(s: State, c: nat) {
    c < |s.conns| && (s.conns[c].pc.Idle? || Can(s, c, Release) || Can(s, c, Acquire))
  }

  ghost predicate WaitsOn(s: State, c: nat, d: nat) {
    exists a :: WaitsFor(s, c, d, a)
  }

  /** A line of connections, each waiting for the next. */
  ghost predicate Line(s: State, line: seq<nat>) {
    |line| > 0 && forall i :: 0 <= i < |line| - 1 ==> WaitsOn(s, line[i], line[i + 1])
  }

  /** No address of a tree reaches bound. */
  ghost predicate Below(s: State, bound: nat) {
    forall c, k | 0 <= c < |s.conns| && 0 <= k < |s.conns[c].trees| :: s.conns[c].trees[k].addr < bound
  }

  /** A connection that cannot go on waits for a mutex that is held. */
  lemma StuckWaits(s: State, c: nat) returns (d: nat, a: nat)
    requires Inv(s) && c < |s.conns| && !Moves(s, c)
    ensures d < |s.conns| && WaitsFor(s, c, d, a)
  {
    var conn := s.conns[c];
    assert conn.pc.Acquiring? && ConnStep(conn, Acquire).effect.Take?;
    a := ConnStep(conn, Acquire).effect.a;
    d := s.owner[a];
  }

  lemma AwaitedBelow(s: State, c: nat, a: nat, bound: nat)
    requires Below(s, bound) && c < |s.conns| && Awaits(s.conns[c], a)
    ensures a < bound
  {
  }

  /** Whoever waits, there is someone at the end of the line who can go on. */
  lemma {:induction false} LineMoves(s: State, c: nat, bound: nat, low: nat) returns (line: seq<nat>)
    requires Inv(s) && Below(s, bound) && c < |s.conns|
    requires forall a: nat :: Awaits(s.conns[c], a) ==> low <= a
    ensures Line(s, line) && line[0] == c && Moves(s, line[|line| - 1])
    decreases bound - low
  {
    hide Inv, Below, Moves, Awaits, Holds;
    line := [c];
    if !Moves(s, c) {
      var d, a := StuckWaits(s, c);
      forall b: nat | Awaits(s.conns[d], b) ensures a + 1 <= b {
        WaiterHoldsSmaller(s, d, b, a);
      }
      AwaitedBelow(s, c, a, bound);
      var rest := LineMoves(s, d, bound, a + 1);
      assert WaitsOn(s, c, rest[0]);
      line := [c] + rest;
    }
  }

  /** How often a connection has entered a tree more than it has left it, in the first n events. */
  ghost function Entries(events: seq<Event>, n: nat, c: nat, k: nat): int
    requires n <= |events|
  {
    if n == 0 then 0
    else
      var e := events[n - 1];
      Entries(events, n - 1, c, k) +
      if e.c != c then 0
      else if e.op.Enter? && e.op.p == k then 1
      else if e.op.Leave? && e.op.p == k then -1
      else 0
  }

  /** Entering and leaving count; the steps of the slow path do not. */
  lemma StepCounts(conn: Conn, op: Op, k: nat)
    requires Placed(conn) && Able(conn, op) && k < |conn.trees|
    ensures var x := ConnStep(conn, op).conn;
            && |x.trees| == |conn.trees|
            && x.trees[k].addr == conn.trees[k].addr
            && x.trees[k].want == conn.trees[k].want +
                                  (if op.Enter? && op.p == k then 1 else if op.Leave? && op.p == k then -1 else 0)
  {
  }

  /** Calls nest: in every run a tree is wanted as often as it was entered and not yet left. */
  lemma {:induction false} WantCounts(states: seq<State>, events: seq<Event>, n: nat, c: nat, k: nat)
    requires IsRun(states, events) && n <= |events|
    requires c < |states[0].conns| && k < |states[0].conns[c].trees|
    ensures |states[n].conns| == |states[0].conns| && |states[n].conns[c].trees| == |states[0].conns[c].trees|
    ensures states[n].conns[c].trees[k].want == Entries(events, n, c, k)
    ensures states[n].conns[c].trees[k].addr == states[0].conns[c].trees[k].addr
  {
    if n > 0 {
      WantCounts(states, events, n - 1, c, k);
      RunKeepsInv(states, events, n - 1);
      hide Placed, ConnStep, OwnersRight;
      if events[n - 1].c == c {
        StepCounts(states[n - 1].conns[c], events[n - 1].op, k);
      }
    }
  }

  /** A connection between calls has the mutex of a tree exactly when it has entered it more often than left. */
  lemma OwnsWhileEntered(states: seq<State>, events: seq<Event>, n: nat, c: nat, k: nat)
    requires IsRun(states, events) && n <= |events|
    requires c < |states[0].conns| && k < |states[0].conns[c].trees|
    ensures c < |states[n].conns|
    ensures var s, a := states[n], states[0].conns[c].trees[k].addr;
            s.conns[c].pc.Idle? ==> (Entries(events, n, c, k) > 0 <==> a in s.owner && s.owner[a] == c)
  {
    WantCounts(states, events, n, c, k);
    if states[n].conns[c].pc.Idle? {
      BetweenCalls(states, events, n, c, k);
    }
  }

  /** Between calls a tree is locked just when it is entered, and then its mutex and shared part are the caller's. */
  lemma BetweenCalls(states: seq<State>, events: seq<Event>, n: nat, c: nat, k: nat)
    requires IsRun(states, events) && n <= |events|
    requires c < |states[n].conns| && states[n].conns[c].pc.Idle? && k < |states[n].conns[c].trees|
    ensures var s, t := states[n], states[n].conns[c].trees[k];
            && (t.locked <==> t.want > 0)
            && (t.want > 0 <==> t.addr in s.owner && s.owner[t.addr] == c)
            && (t.want > 0 ==> t.addr in s.user && s.user[t.addr] == c)
  {
    RunKeepsInv(states, events, n);
    IdleOwns(states[n], c, k);
  }

  lemma IdleOwns(s: State, c: nat, k: nat)
    requires Inv(s) && c < |s.conns| && s.conns[c].pc.Idle? && k < |s.conns[c].trees|
    ensures var t := s.conns[c].trees[k];
            && (t.locked <==> t.want > 0)
            && (t.want > 0 <==> t.addr in s.owner && s.owner[t.addr] == c)
            && (t.want > 0 ==> t.addr in s.user && s.user[t.addr] == c)
  {
  }

  /** The mutex of a shared part is never with two connections. */
  lemma Exclusive(states: seq<State>, events: seq<Event>, n: nat, c: nat, d: nat, a: nat)
    requires IsRun(states, events) && n <= |events| && c < |states[n].conns| && d < |states[n].conns|
    requires Holds(states[n].conns[c], a) && Holds(states[n].conns[d], a)
    ensures c == d
  {
    RunKeepsInv(states, events, n);
    assert states[n].owner[a] == c;
  }

  /** The steps a call can still take. */
  ghost function StepsLeft(conn: Conn): nat {
    var n := |conn.trees|;
    match conn.pc
    case Idle => 0
    case Releasing(p, k) => if k <= n then (n - k) + n + 2 else 0
    case Acquiring(p, k) => if k <= n then n - k + 1 else 0
  }

  /** A call ends: every step it makes leaves fewer to make. */
  lemma CallsEnd(s: State, c: nat, op: Op)
    requires Inv(s) && Can(s, c, op) && (op.Release? || op.Acquire?)
    ensures StepsLeft(Step(s, c, op).conns[c]) < StepsLeft(s.conns[c])
  {
    hide OwnersRight;
    assert Placed(s.conns[c]);
  }

  /** No step touches the trees of another connection or what it holds. */
  lemma OthersKeep(s: State, c: nat, op: Op, d: nat)
    requires Inv(s) && Can(s, c, op) && d < |s.conns| && d != c
    ensures |Step(s, c, op).conns| == |s.conns| && Step(s, c, op).conns[d] == s.conns[d]
    ensures forall a :: Holds(s.conns[d], a) ==> a in Step(s, c, op).owner && Step(s, c, op).owner[a] == d
  {
    hide Placed, Holds, ConnStep, Able;
    StepKeepsInv(s, c, op);
  }
}
