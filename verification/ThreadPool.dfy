/** The hand-off of connections between the accepting thread and the pool of
    worker threads in server/thread_pool.cpp, as interleaved atomic steps. */
module ThreadPool {
  import opened Lists
  import opened XmlChars

  /** A worker between the statements of connection_handler and releaseThread. */
  datatype WorkerPc =
    | Serving     // about to call readData
    | Reading     // in readData
    | Releasing   // about to clear client_sock
    | Locking     // about to take idle_threads_lock
    | Linking     // about to set next
    | Pushing     // about to set idle_threads
    | Unlocking   // about to drop the lock
    | Waiting     // in sigwait

  /** ConnectionThread, with the number of SIGUSR1 pending for its thread: 0 or
      1, as a signal that is already pending is not queued again. */
  datatype Worker = Worker(pc: WorkerPc, clientSock: int, nbConnections: nat, next: Option<nat>, pending: nat)

  /** The acceptor between the statements of handleNewConnection, reuseThread and
      newThread, serving connection `c` and, once popped, worker `t`. */
  datatype AcceptorPc =
    | Accepting
    | Testing(c: nat)
    | TakingLock(c: nat)
    | Popping(c: nat)
    | Relinking(c: nat, head: Option<nat>)
    | DroppingLock(c: nat, t: nat)
    | Assigning(c: nat, t: nat)
    | Counting(c: nat, t: nat)
    | Killing(c: nat, t: nat)
    | Creating(c: nat)
    | Crashed     // a null thread was dereferenced

  datatype Owner = Nobody | TheAcceptor | TheWorker(t: nat)

  /** The shared state, and three histories: the idle list, the worker each
      connection was given to, and the connections whose serving has started.
      Workers are numbered in order of creation, connections in order of arrival. */
  datatype State = State(
    workers: seq<Worker>,
    idleThreads: Option<nat>,
    lock: Owner,
    acceptor: AcceptorPc,
    accepted: nat,
    stack: seq<nat>,
    givenTo: seq<nat>,
    started: seq<nat>)

  const INIT := State([], None, Nobody, Accepting, 0, [], [], [])

  datatype Action = Accept | AcceptorStep | WorkerStep(t: nat)

  // ----- Steps -----

  function Head(stack: seq<nat>): Option<nat> {
    if stack == [] then None else Some(stack[0])
  }

  /** all_threads: the worker created last, which newThread first stores in next. */
  function Newest(workers: seq<Worker>): Option<nat> {
    if workers == [] then None else Some(|workers| - 1)
  }

  function StepWorker(s: State, t: nat): Option<State>
    requires t < |s.workers|
  {
    var w := s.workers[t];
    match w.pc
    case Serving =>
      Some(s.(workers := s.workers[t := w.(pc := Reading)],
              started := s.started + (if w.clientSock >= 0 then [w.clientSock] else [])))
    case Reading => Some(s.(workers := s.workers[t := w.(pc := Releasing)]))
    case Releasing => Some(s.(workers := s.workers[t := w.(pc := Locking, clientSock := -1)]))
    case Locking =>
      if s.lock != Nobody then None
      else Some(s.(workers := s.workers[t := w.(pc := Linking)], lock := TheWorker(t)))
    case Linking => Some(s.(workers := s.workers[t := w.(pc := Pushing, next := s.idleThreads)]))
    case Pushing =>
      Some(s.(workers := s.workers[t := w.(pc := Unlocking)], idleThreads := Some(t), stack := [t] + s.stack))
    case Unlocking => Some(s.(workers := s.workers[t := w.(pc := Waiting)], lock := Nobody))
    case Waiting =>
      if w.pending == 0 then None
      else Some(s.(workers := s.workers[t := w.(pc := Serving, pending := 0)]))
  }

  /** accept() returns. */
  function StepAccept(s: State): Option<State> {
    if s.acceptor != Accepting then None
    else Some(s.(acceptor := Testing(s.accepted), accepted := s.accepted + 1))
  }

  function StepAcceptor(s: State): Option<State> {
    match s.acceptor
    case Accepting => None
    case Crashed => None
    case Testing(c) =>
      Some(s.(acceptor := if s.idleThreads == None then Creating(c) else TakingLock(c)))
    case TakingLock(c) =>
      if s.lock != Nobody then None else Some(s.(acceptor := Popping(c), lock := TheAcceptor))
    case Popping(c) => Some(s.(acceptor := Relinking(c, s.idleThreads)))
    case Relinking(c, head) =>
      if head == None || head.value >= |s.workers| then Some(s.(acceptor := Crashed))
      else
        Some(s.(acceptor := DroppingLock(c, head.value), idleThreads := s.workers[head.value].next,
                stack := if s.stack == [] then [] else s.stack[1..]))
    case DroppingLock(c, t) => Some(s.(acceptor := Assigning(c, t), lock := Nobody))
    case Assigning(c, t) =>
      if t >= |s.workers| then None
      else Some(s.(acceptor := Counting(c, t), workers := s.workers[t := s.workers[t].(clientSock := c)],
                   givenTo := s.givenTo + [t]))
    case Counting(c, t) =>
      if t >= |s.workers| then None
      else Some(s.(acceptor := Killing(c, t),
                   workers := s.workers[t := s.workers[t].(nbConnections := s.workers[t].nbConnections + 1)]))
    case Killing(c, t) =>
      if t >= |s.workers| then None
      else Some(s.(acceptor := Accepting, workers := s.workers[t := s.workers[t].(pending := 1)]))
    case Creating(c) =>
      Some(s.(acceptor := Accepting, workers := s.workers + [Worker(Serving, c, 1, Newest(s.workers), 0)],
              givenTo := s.givenTo + [|s.workers|]))
  }

  /** None if the action cannot be taken in `s`. */
  function Step(s: State, a: Action): Option<State> {
    match a
    case Accept => StepAccept(s)
    case AcceptorStep => StepAcceptor(s)
    case WorkerStep(t) => if t < |s.workers| then StepWorker(s, t) else None
  }

  /** The state after a schedule; actions that cannot be taken are skipped. */
  function Run(s: State, schedule: seq<Action>): State {
    if schedule == [] then s
    else
      var before := Run(s, schedule[..|schedule| - 1]);
      match Step(before, schedule[|schedule| - 1])
      case None => before
      case Some(after) => after
  }

  // ----- The invariant -----

  /** The links from idle_threads spell out the stack: acyclic, no duplicates. */
  predicate IdleList(s: State) {
    && s.idleThreads == Head(s.stack) && NoDuplicates(s.stack)
    && (forall k :: 0 <= k < |s.stack| ==> s.stack[k] < |s.workers|)
    && (forall k :: 0 <= k < |s.stack| ==> s.workers[s.stack[k]].next == Head(s.stack[k + 1..]))
  }

  predicate WorkerInside(pc: WorkerPc) {
    pc == Linking || pc == Pushing || pc == Unlocking
  }

  predicate AcceptorInside(a: AcceptorPc) {
    a.Popping? || a.Relinking? || a.DroppingLock?
  }

  predicate MutualExclusion(s: State) {
    && (forall t :: 0 <= t < |s.workers| ==> (WorkerInside(s.workers[t].pc) <==> s.lock == TheWorker(t)))
    && (AcceptorInside(s.acceptor) <==> s.lock == TheAcceptor)
    && (s.lock.TheWorker? ==> s.lock.t < |s.workers|)
  }

  /** The acceptor has popped `t` and not signalled it yet. */
  predicate Held(s: State, t: nat) {
    match s.acceptor
    case DroppingLock(_, u) => u == t
    case Assigning(_, u) => u == t
    case Counting(_, u) => u == t
    case Killing(_, u) => u == t
    case _ => false
  }

  /** What a worker's fields are, by where it stands. A worker off the idle list
      that waits has exactly one wake-up coming or pending. */
  predicate WorkerOk(s: State, t: nat)
    requires t < |s.workers|
  {
    var w := s.workers[t];
    match w.pc
    case Serving => !Held(s, t) && t !in s.stack && w.pending == 0 && w.clientSock >= 0
    case Reading => !Held(s, t) && t !in s.stack && w.pending == 0 && w.clientSock >= 0
    case Releasing => !Held(s, t) && t !in s.stack && w.pending == 0 && w.clientSock >= 0
    case Locking => !Held(s, t) && t !in s.stack && w.pending == 0 && w.clientSock == -1
    case Linking => !Held(s, t) && t !in s.stack && w.pending == 0 && w.clientSock == -1
    case Pushing => !Held(s, t) && t !in s.stack && w.pending == 0 && w.clientSock == -1 && w.next == s.idleThreads
    case _ =>
      if t in s.stack then !Held(s, t) && w.pending == 0 && w.clientSock == -1
      else if Held(s, t) then
        w.pending == 0 && w.clientSock == (if s.acceptor.Counting? || s.acceptor.Killing? then s.acceptor.c else -1)
      else w.pending == 1 && w.clientSock >= 0
  }

  predicate WorkersOk(s: State) {
    forall t :: 0 <= t < |s.workers| ==> WorkerOk(s, t)
  }

  /** Once the unlocked test has found the list nonempty, it stays so until the
      acceptor pops, and the popped thread is its head. */
  predicate AcceptorOk(s: State) {
    match s.acceptor
    case Crashed => false
    case TakingLock(_) => s.stack != []
    case Popping(_) => s.stack != []
    case Relinking(_, head) => s.stack != [] && head == Some(s.stack[0])
    case DroppingLock(_, t) => t < |s.workers| && WaitingOrUnlocking(s.workers[t].pc)
    case Assigning(_, t) => t < |s.workers| && WaitingOrUnlocking(s.workers[t].pc)
    case Counting(_, t) => t < |s.workers| && WaitingOrUnlocking(s.workers[t].pc)
    case Killing(_, t) => t < |s.workers| && WaitingOrUnlocking(s.workers[t].pc)
    case _ => true
  }

  predicate WaitingOrUnlocking(pc: WorkerPc) {
    pc == Waiting || pc == Unlocking
  }

  function Count(q: seq<nat>, t: nat): nat {
    if q == [] then 0 else Count(q[..|q| - 1], t) + (if q[|q| - 1] == t then 1 else 0)
  }

  /** The connection the acceptor has not given to a worker yet, if any, is the last one. */
  predicate Unassigned(a: AcceptorPc) {
    a.Testing? || a.TakingLock? || a.Popping? || a.Relinking? || a.DroppingLock? || a.Assigning? || a.Creating?
  }

  /** Connections are given out in order of arrival, and each worker's counter is
      the number of connections given to it, up to the one being counted. */
  predicate Accounts(s: State) {
    && s.accepted == |s.givenTo| + (if Unassigned(s.acceptor) then 1 else 0)
    && (Unassigned(s.acceptor) ==> s.acceptor.c == |s.givenTo|)
    && (s.acceptor.Counting? || s.acceptor.Killing? ==>
          s.givenTo != [] && s.acceptor.c == |s.givenTo| - 1 && s.givenTo[s.acceptor.c] == s.acceptor.t)
    && (forall c :: 0 <= c < |s.givenTo| ==> s.givenTo[c] < |s.workers|)
    && (forall t :: 0 <= t < |s.workers| ==>
          Count(s.givenTo, t) == s.workers[t].nbConnections + (if s.acceptor.Counting? && s.acceptor.t == t then 1 else 0))
  }

  /** Connection `c` sits in its worker and serving it has not started. */
  predicate InHand(s: State, c: nat)
    requires c < |s.givenTo| && s.givenTo[c] < |s.workers|
  {
    var w := s.workers[s.givenTo[c]];
    w.clientSock == c && (w.pc == Serving || WaitingOrUnlocking(w.pc))
  }

  /** Every connection given out is either in the hands of its worker or has been
      started, once. */
  predicate Deliveries(s: State) {
    && (forall c :: 0 <= c < |s.givenTo| ==> s.givenTo[c] < |s.workers|)
    && NoDuplicates(s.started)
    && (forall k :: 0 <= k < |s.started| ==> s.started[k] < |s.givenTo|)
    && (forall c :: 0 <= c < |s.givenTo| ==> (InHand(s, c) <==> c !in s.started))
    && (forall t :: 0 <= t < |s.workers| && s.workers[t].clientSock >= 0 ==>
          s.workers[t].clientSock < |s.givenTo| && s.givenTo[s.workers[t].clientSock] == t)
  }

  predicate Inv(s: State) {
    IdleList(s) && MutualExclusion(s) && WorkersOk(s) && AcceptorOk(s) && Accounts(s) && Deliveries(s)
  }

  lemma InitInv()
    ensures Inv(INIT)
  {
  }

  // ----- Every step keeps it -----

  lemma StackSuffix(t: nat, stack: seq<nat>)
    ensures ([t] + stack)[1..] == stack
  {
  }

  lemma StackSuffixes(t: nat, stack: seq<nat>, k: nat)
    requires k < |stack|
    ensures ([t] + stack)[k + 1] == stack[k] && ([t] + stack)[k + 2..] == stack[k + 1..]
  {
  }

  lemma PushKeepsIdleList(s: State, after: State, t: nat)
    requires IdleList(s) && t < |s.workers| == |after.workers| && t !in s.stack && s.workers[t].next == s.idleThreads
    requires after.stack == [t] + s.stack && after.idleThreads == Some(t)
    requires forall u :: 0 <= u < |s.workers| ==> after.workers[u].next == s.workers[u].next
    ensures IdleList(after)
  {
    StackSuffix(t, s.stack);
    forall k | 0 <= k < |after.stack|
      ensures after.stack[k] < |s.workers| && after.workers[after.stack[k]].next == Head(after.stack[k + 1..])
    {
      if k > 0 {
        StackSuffixes(t, s.stack, k - 1);
        assert after.workers[after.stack[k]].next == s.workers[s.stack[k - 1]].next;
      } else {
        assert after.workers[t].next == s.workers[t].next;
      }
    }
  }

  lemma LinksKeepIdleList(s: State, after: State)
    requires IdleList(s) && |s.workers| == |after.workers|
    requires after.stack == s.stack && after.idleThreads == s.idleThreads
    requires forall u :: 0 <= u < |s.workers| && u in s.stack ==> after.workers[u].next == s.workers[u].next
    ensures IdleList(after)
  {
    forall k | 0 <= k < |s.stack|
      ensures after.workers[s.stack[k]].next == Head(s.stack[k + 1..])
    {
      assert s.stack[k] in s.stack;
    }
  }

  lemma WorkerKeepsIdleList(s: State, t: nat)
    requires Inv(s) && t < |s.workers| && StepWorker(s, t).Some?
    ensures IdleList(StepWorker(s, t).value)
  {
    hide Accounts, Deliveries, AcceptorOk, MutualExclusion, IdleList, Held;
    assert WorkerOk(s, t);
    var after := StepWorker(s, t).value;
    if s.workers[t].pc == Pushing {
      PushKeepsIdleList(s, after, t);
    } else {
      LinksKeepIdleList(s, after);
    }
  }

  lemma WorkerKeepsExclusion(s: State, t: nat)
    requires Inv(s) && t < |s.workers| && StepWorker(s, t).Some?
    ensures MutualExclusion(StepWorker(s, t).value)
  {
    hide Accounts, Deliveries, AcceptorOk, IdleList, WorkersOk;
  }

  lemma WorkerKeepsWorkers(s: State, t: nat)
    requires Inv(s) && t < |s.workers| && StepWorker(s, t).Some?
    ensures WorkersOk(StepWorker(s, t).value)
  {
    hide Accounts, Deliveries, AcceptorOk, IdleList;
    assert WorkerOk(s, t);
    var after := StepWorker(s, t).value;
    forall u | 0 <= u < |after.workers|
      ensures WorkerOk(after, u)
    {
      assert WorkerOk(s, u);
      assert u != t ==> after.workers[u] == s.workers[u];
      assert u in after.stack <==> u in s.stack || (s.workers[t].pc == Pushing && u == t);
    }
  }

  lemma WorkerKeepsAcceptor(s: State, t: nat)
    requires Inv(s) && t < |s.workers| && StepWorker(s, t).Some?
    ensures AcceptorOk(StepWorker(s, t).value)
  {
    hide Accounts, Deliveries, IdleList;
    assert WorkerOk(s, t);
  }

  lemma WorkerKeepsAccounts(s: State, t: nat)
    requires Inv(s) && t < |s.workers| && StepWorker(s, t).Some?
    ensures Accounts(StepWorker(s, t).value)
  {
    hide MutualExclusion, Deliveries, AcceptorOk, IdleList, WorkersOk, Count;
  }

  lemma WorkerKeepsDeliveries(s: State, t: nat)
    requires Inv(s) && t < |s.workers| && StepWorker(s, t).Some?
    ensures Deliveries(StepWorker(s, t).value)
  {
    hide MutualExclusion, Accounts, AcceptorOk, IdleList, Count;
    assert WorkerOk(s, t);
    var after := StepWorker(s, t).value;
    var w := s.workers[t];
    if w.pc == Serving {
      assert InHand(s, w.clientSock);
    }
    forall c | 0 <= c < |after.givenTo|
      ensures InHand(after, c) <==> c !in after.started
    {
      assert InHand(s, c) <==> c !in s.started;
      assert s.givenTo[c] != t ==> after.workers[s.givenTo[c]] == s.workers[s.givenTo[c]];
    }
  }

  lemma PopKeepsIdleList(s: State, after: State)
    requires IdleList(s) && s.stack != [] && after.workers == s.workers
    requires after.stack == s.stack[1..] && after.idleThreads == s.workers[s.stack[0]].next
    ensures IdleList(after)
  {
    forall k | 0 <= k < |after.stack|
      ensures after.workers[after.stack[k]].next == Head(after.stack[k + 1..])
    {
      assert after.stack[k] == s.stack[k + 1] && after.stack[k + 1..] == s.stack[k + 2..];
    }
  }

  lemma MoreKeepIdleList(s: State, after: State)
    requires IdleList(s) && |s.workers| <= |after.workers|
    requires after.stack == s.stack && after.idleThreads == s.idleThreads
    requires forall u :: 0 <= u < |s.workers| ==> after.workers[u].next == s.workers[u].next
    ensures IdleList(after)
  {
  }

  lemma AcceptorKeepsIdleList(s: State)
    requires Inv(s) && StepAcceptor(s).Some?
    ensures IdleList(StepAcceptor(s).value)
  {
    hide Accounts, Deliveries, MutualExclusion, WorkersOk, NoDuplicates, Unassigned;
    var after := StepAcceptor(s).value;
    if s.acceptor.Relinking? {
      PopKeepsIdleList(s, after);
    } else {
      hide IdleList;
      MoreKeepIdleList(s, after);
    }
  }

  lemma AcceptorKeepsExclusion(s: State)
    requires Inv(s) && StepAcceptor(s).Some?
    ensures MutualExclusion(StepAcceptor(s).value)
  {
    AcceptorMovesNoWorker(s);
    LockChanges(s);
    hide Inv, StepAcceptor;
  }

  lemma AcceptorMovesNoWorker(s: State)
    requires StepAcceptor(s).Some?
    ensures var after := StepAcceptor(s).value;
      && |s.workers| <= |after.workers|
      && (forall t :: 0 <= t < |s.workers| ==> after.workers[t].pc == s.workers[t].pc)
      && forall t :: |s.workers| <= t < |after.workers| ==> after.workers[t].pc == Serving
  {
  }

  lemma LockChanges(s: State)
    requires Inv(s) && StepAcceptor(s).Some?
    ensures var after := StepAcceptor(s).value;
      && MutualExclusion(s) && (AcceptorInside(after.acceptor) <==> after.lock == TheAcceptor)
      && (after.lock != s.lock ==> {after.lock, s.lock} == {Nobody, TheAcceptor})
  {
    hide Accounts, Deliveries, WorkersOk, NoDuplicates;
  }

  lemma PopOnlyRemovesHead(stack: seq<nat>, u: nat)
    requires stack != [] && NoDuplicates(stack)
    ensures u in stack[1..] <==> u in stack && u != stack[0]
  {
    if u in stack && u != stack[0] {
      var i :| 0 <= i < |stack| && stack[i] == u;
      assert stack[1..][i - 1] == u;
    }
  }

  lemma PopKeepsWorker(s: State, u: nat)
    requires Inv(s) && s.acceptor.Relinking? && StepAcceptor(s).Some? && u < |s.workers|
    ensures |StepAcceptor(s).value.workers| == |s.workers| && WorkerOk(StepAcceptor(s).value, u)
  {
    hide Accounts, Deliveries, NoDuplicates;
    PopOnlyRemovesHead(s.stack, u);
    assert WorkerOk(s, u);
  }

  lemma AcceptorKeepsWorkers(s: State)
    requires Inv(s) && StepAcceptor(s).Some?
    ensures WorkersOk(StepAcceptor(s).value)
  {
    hide Accounts, Deliveries, NoDuplicates, MutualExclusion;
    var after := StepAcceptor(s).value;
    if s.acceptor.Relinking? {
      forall u | 0 <= u < |after.workers|
        ensures WorkerOk(after, u)
      {
        PopKeepsWorker(s, u);
      }
    } else {
      forall u | 0 <= u < |after.workers|
        ensures WorkerOk(after, u)
      {
        assert u < |s.workers| ==> WorkerOk(s, u);
      }
    }
  }

  lemma AcceptorKeepsAcceptor(s: State)
    requires Inv(s) && StepAcceptor(s).Some?
    ensures AcceptorOk(StepAcceptor(s).value)
  {
    hide Accounts, Deliveries, MutualExclusion, WorkersOk, NoDuplicates, WorkerOk;
    if s.acceptor.Relinking? {
      HeadIsIdle(s);
    }
  }

  lemma HeadIsIdle(s: State)
    requires IdleList(s) && WorkersOk(s) && s.stack != []
    ensures s.stack[0] < |s.workers| && WaitingOrUnlocking(s.workers[s.stack[0]].pc)
  {
    hide NoDuplicates;
    assert s.stack[0] in s.stack && WorkerOk(s, s.stack[0]);
  }

  lemma CountAppend(q: seq<nat>, u: nat, t: nat)
    ensures Count(q + [u], t) == Count(q, t) + (if u == t then 1 else 0)
  {
    assert (q + [u])[..|q|] == q;
  }

  lemma {:induction false} CountNone(q: seq<nat>, t: nat)
    requires forall c :: 0 <= c < |q| ==> q[c] < t
    ensures Count(q, t) == 0
  {
    if q != [] {
      CountNone(q[..|q| - 1], t);
    }
  }

  lemma AcceptorKeepsAccounts(s: State)
    requires Inv(s) && StepAcceptor(s).Some?
    ensures Accounts(StepAcceptor(s).value)
  {
    hide Deliveries, MutualExclusion, WorkersOk, Count;
    var after := StepAcceptor(s).value;
    var n := |s.workers|;
    if s.acceptor.Creating? {
      CountNone(s.givenTo, n);
    }
    forall t | 0 <= t < |after.workers|
      ensures Count(after.givenTo, t) == after.workers[t].nbConnections
            + (if after.acceptor.Counting? && after.acceptor.t == t then 1 else 0)
    {
      if s.acceptor.Assigning? {
        CountAppend(s.givenTo, s.acceptor.t, t);
      } else if s.acceptor.Creating? {
        CountAppend(s.givenTo, n, t);
      }
    }
  }

  lemma AcceptorKeepsDeliveries(s: State)
    requires Inv(s) && StepAcceptor(s).Some?
    ensures Deliveries(StepAcceptor(s).value)
  {
    hide MutualExclusion, Count;
    var after := StepAcceptor(s).value;
    if s.acceptor.Assigning? {
      assert WorkerOk(s, s.acceptor.t);
    }
    forall c | 0 <= c < |after.givenTo|
      ensures InHand(after, c) <==> c !in after.started
    {
      assert c < |s.givenTo| ==> (InHand(s, c) <==> c !in s.started);
    }
  }

  lemma StepInv(s: State, a: Action)
    requires Inv(s) && Step(s, a).Some?
    ensures Inv(Step(s, a).value)
  {
    hide IdleList, MutualExclusion, WorkersOk, AcceptorOk, Accounts, Deliveries, StepWorker, StepAcceptor;
    match a
    case Accept => AcceptKeeps(s);
    case AcceptorStep =>
      AcceptorKeepsIdleList(s);
      AcceptorKeepsExclusion(s);
      AcceptorKeepsWorkers(s);
      AcceptorKeepsAcceptor(s);
      AcceptorKeepsAccounts(s);
      AcceptorKeepsDeliveries(s);
    case WorkerStep(t) =>
      WorkerKeepsIdleList(s, t);
      WorkerKeepsExclusion(s, t);
      WorkerKeepsWorkers(s, t);
      WorkerKeepsAcceptor(s, t);
      WorkerKeepsAccounts(s, t);
      WorkerKeepsDeliveries(s, t);
  }

  lemma AcceptKeeps(s: State)
    requires Inv(s) && StepAccept(s).Some?
    ensures Inv(StepAccept(s).value)
  {
    var after := StepAccept(s).value;
    forall t | 0 <= t < |after.workers|
      ensures WorkerOk(after, t)
    {
      assert WorkerOk(s, t);
    }
    forall c | 0 <= c < |after.givenTo|
      ensures InHand(after, c) <==> c !in after.started
    {
      assert InHand(s, c) <==> c !in s.started;
    }
  }

  /** The invariant holds after every schedule, however the threads interleave. */
  lemma {:induction false} RunInv(schedule: seq<Action>)
    ensures Inv(Run(INIT, schedule))
  {
    hide Inv, Step;
    if schedule == [] {
      InitInv();
    } else {
      var n := |schedule| - 1;
      RunInv(schedule[..n]);
      var before := Run(INIT, schedule[..n]);
      if Step(before, schedule[n]).Some? {
        StepInv(before, schedule[n]);
      }
    }
  }

  // ----- What it means -----

  /** The unlocked test never leads to popping a null thread. */
  lemma NeverPopsNull(schedule: seq<Action>)
    ensures var s := Run(INIT, schedule);
      !s.acceptor.Crashed? && (s.acceptor.Relinking? ==> s.acceptor.head.Some? && s.acceptor.head.value < |s.workers|)
  {
    RunInv(schedule);
  }

  /** A signal is only ever sent to a worker that has none pending, so no wake-up
      is merged into another. */
  lemma WakeUpsAreNotMerged(schedule: seq<Action>)
    ensures var s := Run(INIT, schedule);
      s.acceptor.Killing? ==> s.acceptor.t < |s.workers| && s.workers[s.acceptor.t].pending == 0
  {
    hide Run;
    RunInv(schedule);
    var s := Run(INIT, schedule);
    if s.acceptor.Killing? {
      assert WorkerOk(s, s.acceptor.t);
    }
  }

  /** The idle list holds no thread twice and none that is serving. */
  lemma IdleThreadsAreIdle(schedule: seq<Action>)
    ensures var s := Run(INIT, schedule);
      && NoDuplicates(s.stack)
      && forall t :: t in s.stack ==>
           t < |s.workers| && s.workers[t].clientSock == -1 && s.workers[t].pc in {Unlocking, Waiting}
  {
    hide Run;
    RunInv(schedule);
    var s := Run(INIT, schedule);
    forall t | t in s.stack
      ensures t < |s.workers| && s.workers[t].clientSock == -1 && s.workers[t].pc in {Unlocking, Waiting}
    {
      assert WorkerOk(s, t);
    }
  }

  function TotalConnections(workers: seq<Worker>): nat {
    if workers == [] then 0 else TotalConnections(workers[..|workers| - 1]) + workers[|workers| - 1].nbConnections
  }

  function CountBelow(q: seq<nat>, n: nat): nat {
    if n == 0 then 0 else CountBelow(q, n - 1) + Count(q, n - 1)
  }

  lemma {:induction false} CountBelowAppend(q: seq<nat>, u: nat, n: nat)
    ensures CountBelow(q + [u], n) == CountBelow(q, n) + (if u < n then 1 else 0)
  {
    if n > 0 {
      CountBelowAppend(q, u, n - 1);
      CountAppend(q, u, n - 1);
    }
  }

  lemma {:induction false} CountBelowEmpty(n: nat)
    ensures CountBelow([], n) == 0
  {
    if n > 0 {
      CountBelowEmpty(n - 1);
    }
  }

  lemma {:induction false} CountBelowAll(q: seq<nat>, n: nat)
    requires forall c :: 0 <= c < |q| ==> q[c] < n
    ensures CountBelow(q, n) == |q|
  {
    if q == [] {
      CountBelowEmpty(n);
    } else {
      var front, last := q[..|q| - 1], q[|q| - 1];
      CountBelowAll(front, n);
      CountBelowAppend(front, last, n);
      assert q == front + [last];
    }
  }

  lemma {:induction false} TotalIsCount(workers: seq<Worker>, q: seq<nat>)
    requires forall t :: 0 <= t < |workers| ==> Count(q, t) == workers[t].nbConnections
    ensures TotalConnections(workers) == CountBelow(q, |workers|)
  {
    hide Count;
    if workers != [] {
      TotalIsCount(workers[..|workers| - 1], q);
    }
  }

  /** Whenever the acceptor is back in accept(), the counters add up to the
      number of connections accepted, all of which have been given out. */
  lemma CountersAddUp(schedule: seq<Action>)
    ensures var s := Run(INIT, schedule);
      s.acceptor.Accepting? ==> TotalConnections(s.workers) == |s.givenTo| == s.accepted
  {
    hide Run, Count, TotalConnections, CountBelow;
    RunInv(schedule);
    var s := Run(INIT, schedule);
    if s.acceptor.Accepting? {
      TotalIsCount(s.workers, s.givenTo);
      CountBelowAll(s.givenTo, |s.workers|);
    }
  }

  /** Nothing but the arrival of a connection can happen. */
  predicate Quiescent(s: State) {
    StepAcceptor(s).None? && forall t :: 0 <= t < |s.workers| ==> StepWorker(s, t).None?
  }

  /** No wake-up is ever lost and nobody deadlocks: when nothing more can happen,
      every connection that arrived has been served, once, by the worker it was
      given to, and every worker is on the idle list. */
  lemma QuiescentMeansServed(schedule: seq<Action>)
    requires Quiescent(Run(INIT, schedule))
    ensures var s := Run(INIT, schedule);
      && s.acceptor == Accepting && s.lock == Nobody
      && (forall t :: 0 <= t < |s.workers| ==> t in s.stack)
      && |s.givenTo| == s.accepted && NoDuplicates(s.started)
      && (forall c :: 0 <= c < s.accepted ==> c in s.started)
  {
    hide Run;
    RunInv(schedule);
    QuietState(Run(INIT, schedule));
  }

  lemma QuietState(s: State)
    requires Inv(s) && Quiescent(s)
    ensures s.acceptor == Accepting && s.lock == Nobody
    ensures forall t :: 0 <= t < |s.workers| ==> t in s.stack
    ensures |s.givenTo| == s.accepted
    ensures forall c :: 0 <= c < s.accepted ==> c in s.started
  {
    hide Count;
    LockIsFree(s);
    AcceptorIsAccepting(s);
    forall t | 0 <= t < |s.workers|
      ensures t in s.stack && s.workers[t].clientSock == -1
    {
      assert WorkerOk(s, t) && StepWorker(s, t).None?;
    }
    forall c | 0 <= c < s.accepted
      ensures c in s.started
    {
      assert !InHand(s, c);
    }
  }

  /** Whoever holds the lock can go on. */
  lemma HolderGoesOn(s: State)
    requires MutualExclusion(s)
    ensures s.lock.TheWorker? ==> StepWorker(s, s.lock.t).Some?
    ensures s.lock == TheAcceptor ==> StepAcceptor(s).Some?
  {
  }

  lemma LockIsFree(s: State)
    requires MutualExclusion(s) && Quiescent(s)
    ensures s.lock == Nobody
  {
    hide StepWorker, StepAcceptor;
    HolderGoesOn(s);
  }

  lemma AcceptorIsAccepting(s: State)
    requires AcceptorOk(s) && s.lock == Nobody && StepAcceptor(s).None?
    ensures s.acceptor == Accepting
  {
  }

  // ----- Progress -----

  /** The steps a worker can take before it must be signalled again. */
  function WorkLeft(w: Worker): nat {
    (match w.pc
     case Serving => 7
     case Reading => 6
     case Releasing => 5
     case Locking => 4
     case Linking => 3
     case Pushing => 2
     case Unlocking => 1
     case Waiting => 0) + (if w.pending == 0 then 0 else 8)
  }

  function WorkersLeft(workers: seq<Worker>): nat {
    if workers == [] then 0 else WorkersLeft(workers[..|workers| - 1]) + WorkLeft(workers[|workers| - 1])
  }

  /** Counts the steps of the woken worker with those of the acceptor. */
  function AcceptorLeft(a: AcceptorPc): nat {
    match a
    case Accepting => 0
    case Crashed => 0
    case Creating(_) => 8
    case Killing(_, _) => 9
    case Counting(_, _) => 10
    case Assigning(_, _) => 11
    case DroppingLock(_, _) => 12
    case Relinking(_, _) => 13
    case Popping(_) => 14
    case TakingLock(_) => 15
    case Testing(_) => 16
  }

  function StepsLeft(s: State): nat {
    WorkersLeft(s.workers) + AcceptorLeft(s.acceptor)
  }

  lemma {:induction false} WorkersLeftUpdate(workers: seq<Worker>, t: nat, w: Worker)
    requires t < |workers|
    ensures WorkersLeft(workers[t := w]) + WorkLeft(workers[t]) == WorkersLeft(workers) + WorkLeft(w)
  {
    var n := |workers| - 1;
    if t < n {
      WorkersLeftUpdate(workers[..n], t, w);
      assert workers[t := w][..n] == workers[..n][t := w];
    } else {
      assert workers[t := w][..n] == workers[..n];
    }
  }

  lemma WorkersLeftAppend(workers: seq<Worker>, w: Worker)
    ensures WorkersLeft(workers + [w]) == WorkersLeft(workers) + WorkLeft(w)
  {
    assert (workers + [w])[..|workers|] == workers;
  }

  /** Every step but an arrival uses up some of the work left. */
  lemma StepsLeftFall(s: State, a: Action)
    requires a != Accept && Step(s, a).Some?
    ensures StepsLeft(Step(s, a).value) < StepsLeft(s)
  {
    hide WorkersLeft;
    var after := Step(s, a).value;
    match a
    case WorkerStep(t) => WorkersLeftUpdate(s.workers, t, after.workers[t]);
    case AcceptorStep =>
      match s.acceptor {
        case Creating(c) => WorkersLeftAppend(s.workers, after.workers[|s.workers|]);
        case Assigning(c, t) => WorkersLeftUpdate(s.workers, t, after.workers[t]);
        case Counting(c, t) => WorkersLeftUpdate(s.workers, t, after.workers[t]);
        case Killing(c, t) => WorkersLeftUpdate(s.workers, t, after.workers[t]);
        case _ =>
      }
  }

  /** Every action of the schedule can be taken when its turn comes. */
  predicate Enabled(s: State, schedule: seq<Action>) {
    schedule == [] ||
    (Enabled(s, schedule[..|schedule| - 1]) &&
     Step(Run(s, schedule[..|schedule| - 1]), schedule[|schedule| - 1]).Some?)
  }

  /** Once connections stop arriving, only so many more steps can be taken, in
      whatever order, before the pool is quiescent: no thread spins or starves. */
  lemma {:induction false} ArrivalsAreServed(s: State, schedule: seq<Action>)
    requires Enabled(s, schedule) && Accept !in schedule
    ensures |schedule| + StepsLeft(Run(s, schedule)) <= StepsLeft(s)
  {
    hide Step, StepsLeft;
    if schedule != [] {
      var front, last := schedule[..|schedule| - 1], schedule[|schedule| - 1];
      assert last in schedule;
      ArrivalsAreServed(s, front);
      StepsLeftFall(Run(s, front), last);
    }
  }

  // ----- Which thread a connection goes to -----

  /** The n-th action of the schedule is the emptiness test for connection `c`. */
  ghost predicate Tests(schedule: seq<Action>, n: nat, c: nat) {
    n < |schedule| && schedule[n] == AcceptorStep && Run(INIT, schedule[..n]).acceptor == Testing(c)
  }

  /** The acceptor has tested for `c` and is bound by what it found: only if no thread
      was idle does it go to make one. No thread has been made since. */
  ghost predicate Bound(schedule: seq<Action>, n: nat, c: nat, s: State) {
    && Tests(schedule, n, c) && var found := Run(INIT, schedule[..n]);
    && |s.workers| == |found.workers| && (s.acceptor.Creating? <==> found.stack == [])
  }

  /** `c` went to a new thread if no thread was idle when the acceptor tested for it,
      and to one of those there were otherwise. */
  ghost predicate Decided(schedule: seq<Action>, n: nat, c: nat, t: nat) {
    && Tests(schedule, n, c) && var found := Run(INIT, schedule[..n]);
    if found.stack == [] then t == |found.workers| else t < |found.workers|
  }

  ghost predicate GoesByTest(schedule: seq<Action>, c: nat, t: nat) {
    exists n :: Decided(schedule, n, c, t)
  }

  /** Between its test and the moment it has a thread for the connection. */
  predicate Undecided(a: AcceptorPc) {
    a.TakingLock? || a.Popping? || a.Relinking? || a.DroppingLock? || a.Assigning? || a.Creating?
  }

  ghost predicate Decisions(schedule: seq<Action>, s: State) {
    && (Undecided(s.acceptor) ==> exists n :: Bound(schedule, n, s.acceptor.c, s))
    && forall c :: 0 <= c < |s.givenTo| ==> GoesByTest(schedule, c, s.givenTo[c])
  }

  lemma TestsLonger(schedule: seq<Action>, a: Action, n: nat, c: nat)
    requires Tests(schedule, n, c)
    ensures Tests(schedule + [a], n, c) && (schedule + [a])[..n] == schedule[..n]
  {
    hide Run;
    assert (schedule + [a])[..n] == schedule[..n];
  }

  lemma DecidedLonger(schedule: seq<Action>, a: Action, n: nat, c: nat, t: nat)
    requires Decided(schedule, n, c, t)
    ensures Decided(schedule + [a], n, c, t)
  {
    hide Run;
    TestsLonger(schedule, a, n, c);
  }

  /** A step of the acceptor that keeps it bound, or gives the connection out. */
  lemma BoundStep(schedule: seq<Action>, a: Action, n: nat, s: State, after: State)
    requires Inv(s) && Undecided(s.acceptor) && Bound(schedule, n, s.acceptor.c, s)
    requires a != Accept && Step(s, a) == Some(after)
    ensures Undecided(after.acceptor) ==>
      after.acceptor.c == s.acceptor.c && after.givenTo == s.givenTo && Bound(schedule + [a], n, s.acceptor.c, after)
    ensures !Undecided(after.acceptor) ==>
      && |after.givenTo| == |s.givenTo| + 1 && after.givenTo[..|s.givenTo|] == s.givenTo
      && Decided(schedule + [a], n, |s.givenTo|, after.givenTo[|s.givenTo|])
  {
    hide Run, Count, MutualExclusion, WorkersOk, Deliveries, NoDuplicates;
    TestsLonger(schedule, a, n, s.acceptor.c);
  }

  /** The test itself binds the acceptor. */
  lemma TestBinds(schedule: seq<Action>, a: Action, s: State, after: State)
    requires s == Run(INIT, schedule) && Inv(s) && s.acceptor.Testing? && Step(s, a) == Some(after)
    ensures after.givenTo == s.givenTo
    ensures Undecided(after.acceptor) ==>
      after.acceptor.c == s.acceptor.c && Bound(schedule + [a], |schedule|, s.acceptor.c, after)
  {
    TestFinds(s, a, after);
    hide Run, Step, Inv;
    assert (schedule + [a])[..|schedule|] == schedule;
  }

  lemma TestFinds(s: State, a: Action, after: State)
    requires Inv(s) && s.acceptor.Testing? && Step(s, a) == Some(after)
    ensures after.givenTo == s.givenTo
    ensures Undecided(after.acceptor) ==>
      && a == AcceptorStep && after.acceptor.c == s.acceptor.c && |after.workers| == |s.workers|
      && (after.acceptor.Creating? <==> s.stack == [])
  {
    hide Count, MutualExclusion, WorkersOk, Deliveries, Accounts, NoDuplicates;
  }

  /** Elsewhere nothing is decided. */
  lemma NothingToDecide(s: State, a: Action, after: State)
    requires Inv(s) && !Undecided(s.acceptor) && !s.acceptor.Testing? && Step(s, a) == Some(after)
    ensures !Undecided(after.acceptor) && after.givenTo == s.givenTo
  {
    hide Count, IdleList, MutualExclusion, WorkersOk, Deliveries, Accounts;
  }

  lemma StepDecides(schedule: seq<Action>, a: Action, s: State, after: State)
    requires s == Run(INIT, schedule) && Inv(s) && Decisions(schedule, s) && Step(s, a) == Some(after)
    ensures Decisions(schedule + [a], after)
  {
    hide Run, Step, Inv, Tests, Bound, Decided;
    if s.acceptor.Testing? {
      TestBinds(schedule, a, s, after);
    } else if Undecided(s.acceptor) {
      var n :| Bound(schedule, n, s.acceptor.c, s);
      BusyAcceptor(s, a);
      BoundStep(schedule, a, n, s, after);
    } else {
      NothingToDecide(s, a, after);
    }
    forall c | 0 <= c < |after.givenTo|
      ensures GoesByTest(schedule + [a], c, after.givenTo[c])
    {
      if c < |s.givenTo| {
        var n :| Decided(schedule, n, c, s.givenTo[c]);
        assert after.givenTo[..|s.givenTo|][c] == after.givenTo[c];
        DecidedLonger(schedule, a, n, c, s.givenTo[c]);
      }
    }
  }

  lemma BusyAcceptor(s: State, a: Action)
    requires Undecided(s.acceptor) && Step(s, a).Some?
    ensures a != Accept
  {
  }

  lemma {:induction false} RunDecides(schedule: seq<Action>)
    ensures Decisions(schedule, Run(INIT, schedule))
  {
    hide Decisions, Step, Inv;
    if schedule == [] {
      NothingDecided();
    } else {
      var n := |schedule| - 1;
      var front, a := schedule[..n], schedule[n];
      assert schedule == front + [a];
      var s := Run(INIT, front);
      RunInv(front);
      RunDecides(front);
      if Step(s, a).Some? {
        StepDecides(front, a, s, Step(s, a).value);
      } else {
        StillDecided(front, a, s);
      }
    }
  }

  lemma NothingDecided()
    ensures Decisions([], INIT)
  {
  }

  lemma StillDecided(schedule: seq<Action>, a: Action, s: State)
    requires Decisions(schedule, s)
    ensures Decisions(schedule + [a], s)
  {
    hide Run, Tests, Bound, Decided;
    if Undecided(s.acceptor) {
      var n :| Bound(schedule, n, s.acceptor.c, s);
      BoundLonger(schedule, a, n, s.acceptor.c, s);
    }
    forall c | 0 <= c < |s.givenTo|
      ensures GoesByTest(schedule + [a], c, s.givenTo[c])
    {
      var n :| Decided(schedule, n, c, s.givenTo[c]);
      DecidedLonger(schedule, a, n, c, s.givenTo[c]);
    }
  }

  lemma BoundLonger(schedule: seq<Action>, a: Action, n: nat, c: nat, s: State)
    requires Bound(schedule, n, c, s)
    ensures Bound(schedule + [a], n, c, s)
  {
    hide Run;
    TestsLonger(schedule, a, n, c);
  }

  /** Over all schedules: the emptiness test made for a connection decides which thread
      it goes to. Only if the idle list was empty then is a thread made for it. */
  lemma TestDecides(schedule: seq<Action>, c: nat)
    requires c < |Run(INIT, schedule).givenTo|
    ensures GoesByTest(schedule, c, Run(INIT, schedule).givenTo[c])
  {
    hide Run;
    RunDecides(schedule);
  }

  // ----- One connection at a time -----

  predicate Idle(s: State, t: nat)
    requires t < |s.workers|
  {
    s.workers[t].pc == Waiting && s.workers[t].pending == 0
  }

  lemma QuietWorkersAreIdle(s: State)
    requires Inv(s) && Quiescent(s)
    ensures forall t :: 0 <= t < |s.workers| ==> Idle(s, t)
    ensures s.workers != [] ==> s.stack != [] && s.stack[0] < |s.workers|
    ensures s.workers == [] ==> s.stack == []
  {
    hide Count, Accounts, Deliveries;
    QuietState(s);
    forall t | 0 <= t < |s.workers|
      ensures Idle(s, t)
    {
      assert WorkerOk(s, t) && StepWorker(s, t).None?;
    }
    assert s.workers != [] ==> 0 in s.stack;
  }

  lemma IdleWorkerStays(s: State, t: nat)
    requires t < |s.workers| && Idle(s, t)
    ensures StepWorker(s, t).None?
  {
  }

  /** Behind the arrival of a connection at the quiescent state `q`, as long as no other
      arrives: the acceptor is on its way to the thread that was released last, which
      alone leaves the idle list. */
  predicate Reusing(q: State, s: State)
    requires q.stack != []
  {
    var t := q.stack[0];
    && |s.workers| == |q.workers|
    && match s.acceptor
       case Testing(_) => s.workers == q.workers && s.stack == q.stack && s.givenTo == q.givenTo
       case TakingLock(_) => s.workers == q.workers && s.stack == q.stack && s.givenTo == q.givenTo
       case Popping(_) => s.workers == q.workers && s.stack == q.stack && s.givenTo == q.givenTo
       case Relinking(_, _) => s.workers == q.workers && s.stack == q.stack && s.givenTo == q.givenTo
       case DroppingLock(_, u) =>
         u == t && s.workers == q.workers && s.stack == q.stack[1..] && s.givenTo == q.givenTo
       case Assigning(_, u) =>
         u == t && s.workers == q.workers && s.stack == q.stack[1..] && s.givenTo == q.givenTo
       case Counting(_, u) => u == t && Signalling(q, s)
       case Killing(_, u) => u == t && Signalling(q, s)
       case Accepting => Signalling(q, s)
       case _ => false
  }

  predicate Signalling(q: State, s: State)
    requires q.stack != []
  {
    var t := q.stack[0];
    && |s.workers| == |q.workers| && s.givenTo == q.givenTo + [t] && (s.stack == q.stack[1..] || s.stack == q.stack)
    && forall u :: 0 <= u < |s.workers| && u != t ==> Idle(s, u)
  }

  /** The same, if there is no thread yet: one is made. */
  predicate Creates(q: State, s: State) {
    match s.acceptor
    case Testing(_) => s.workers == [] && s.givenTo == q.givenTo
    case Creating(_) => s.workers == [] && s.givenTo == q.givenTo
    case Accepting => |s.workers| == 1 && s.givenTo == q.givenTo + [0]
    case _ => false
  }

  lemma AcceptorReuses(q: State, s: State)
    requires q.stack != [] && Inv(s) && Reusing(q, s) && StepAcceptor(s).Some?
    requires forall t :: 0 <= t < |q.workers| ==> Idle(q, t)
    ensures Reusing(q, StepAcceptor(s).value)
  {
    hide MutualExclusion, Accounts, Deliveries, WorkersOk, NoDuplicates, Idle;
    AcceptorWakesOne(s);
    AllIdle(q, s);
    if s.acceptor.Testing? {
      assert s.idleThreads == Some(s.stack[0]);
    } else if s.acceptor.Relinking? {
      assert StepAcceptor(s).value.acceptor == DroppingLock(s.acceptor.c, q.stack[0]);
    }
  }

  lemma AllIdle(q: State, s: State)
    requires forall t :: 0 <= t < |q.workers| ==> Idle(q, t)
    ensures s.workers == q.workers ==> forall t :: 0 <= t < |s.workers| ==> Idle(s, t)
  {
    if s.workers == q.workers {
      forall t | 0 <= t < |s.workers|
        ensures Idle(s, t)
      {
        assert Idle(q, t);
      }
    }
  }

  lemma AcceptorWakesOne(s: State)
    requires StepAcceptor(s).Some?
    ensures var after := StepAcceptor(s).value;
      s.acceptor.Assigning? || s.acceptor.Counting? || s.acceptor.Killing? ==>
        && |after.workers| == |s.workers| && after.stack == s.stack
        && forall u :: 0 <= u < |s.workers| && u != s.acceptor.t ==> (Idle(after, u) <==> Idle(s, u))
  {
  }

  lemma WorkerReuses(q: State, s: State, t: nat)
    requires q.stack != [] && Inv(s) && Reusing(q, s) && t < |s.workers| && StepWorker(s, t).Some?
    requires forall u :: 0 <= u < |q.workers| ==> Idle(q, u)
    ensures Reusing(q, StepWorker(s, t).value)
  {
    hide MutualExclusion, Accounts, Deliveries, IdleList, AcceptorOk, NoDuplicates, Idle;
    assert WorkerOk(s, t);
    OnlyOneMoves(q, s, t);
    OthersStayIdle(s, t);
    assert [q.stack[0]] + q.stack[1..] == q.stack;
  }

  /** Only the thread that was signalled can take a step. */
  lemma OnlyOneMoves(q: State, s: State, t: nat)
    requires q.stack != [] && Reusing(q, s) && t < |s.workers| && StepWorker(s, t).Some?
    requires forall u :: 0 <= u < |q.workers| ==> Idle(q, u)
    ensures Signalling(q, s) && t == q.stack[0]
  {
    assert Idle(q, t);
    assert Signalling(q, s) && t != q.stack[0] ==> Idle(s, t);
  }

  lemma OthersStayIdle(s: State, t: nat)
    requires t < |s.workers| && StepWorker(s, t).Some?
    ensures var after := StepWorker(s, t).value;
      && |after.workers| == |s.workers| && after.acceptor == s.acceptor && after.givenTo == s.givenTo
      && (after.stack == s.stack || (s.workers[t].pc == Pushing && after.stack == [t] + s.stack))
      && forall u :: 0 <= u < |s.workers| && u != t ==> (Idle(after, u) <==> Idle(s, u))
  {
  }

  lemma StepCreates(q: State, s: State, a: Action)
    requires Inv(s) && Creates(q, s) && a != Accept && Step(s, a).Some?
    ensures Creates(q, Step(s, a).value)
  {
    hide MutualExclusion, Accounts, Deliveries, WorkersOk, NoDuplicates;
  }

  lemma {:induction false} RunReuses(q: State, s: State, rest: seq<Action>)
    requires q.stack != [] && Inv(s) && Reusing(q, s) && Accept !in rest
    requires forall t :: 0 <= t < |q.workers| ==> Idle(q, t)
    ensures Inv(Run(s, rest)) && Reusing(q, Run(s, rest))
  {
    hide Inv, Reusing, StepAcceptor, StepWorker, Idle;
    if rest != [] {
      var front, a := rest[..|rest| - 1], rest[|rest| - 1];
      assert a in rest;
      RunReuses(q, s, front);
      var before := Run(s, front);
      if Step(before, a).Some? {
        StepInv(before, a);
        match a
        case AcceptorStep => AcceptorReuses(q, before);
        case WorkerStep(t) => WorkerReuses(q, before, t);
      }
    }
  }

  lemma {:induction false} RunCreates(q: State, s: State, rest: seq<Action>)
    requires Inv(s) && Creates(q, s) && Accept !in rest
    ensures Inv(Run(s, rest)) && Creates(q, Run(s, rest))
  {
    hide Inv, Creates, Step;
    if rest != [] {
      var front, a := rest[..|rest| - 1], rest[|rest| - 1];
      assert a in rest;
      RunCreates(q, s, front);
      var before := Run(s, front);
      if Step(before, a).Some? {
        StepInv(before, a);
        StepCreates(q, before, a);
      }
    }
  }

  lemma {:induction false} RunConcat(s: State, a: seq<Action>, b: seq<Action>)
    ensures Run(s, a + b) == Run(Run(s, a), b)
  {
    hide Step;
    if b == [] {
      assert a + b == a;
    } else {
      var n := |b| - 1;
      assert (a + b)[..|a + b| - 1] == a + b[..n];
      RunConcat(s, a, b[..n]);
    }
  }

  lemma Arrival(s: State)
    requires Inv(s) && Quiescent(s)
    ensures var after := Run(s, [Accept]);
      && Inv(after) && (s.workers != [] ==> s.stack != [] && Reusing(s, after)) && (s.workers == [] ==> Creates(s, after))
  {
    QuietState(s);
    QuietWorkersAreIdle(s);
    AcceptKeeps(s);
    assert [Accept][..0] == [];
    assert Run(s, []) == s;
  }

  /** A connection that arrives when everything is quiet goes, however the threads
      interleave, to the thread released last, which ends up on top of the idle list
      again; only if there is no thread at all is one made. */
  lemma NextConnection(before: seq<Action>, rest: seq<Action>)
    requires Accept !in rest && Quiescent(Run(INIT, before)) && Quiescent(Run(INIT, before + [Accept] + rest))
    ensures var q, s := Run(INIT, before), Run(INIT, before + [Accept] + rest);
      && (q.workers != [] ==>
            && q.stack != [] && |s.workers| == |q.workers| && s.givenTo == q.givenTo + [q.stack[0]] && s.stack == q.stack)
      && (q.workers == [] ==> |s.workers| == 1 && s.givenTo == q.givenTo + [0] && s.stack == [0])
  {
    hide Run, Step, Inv, Quiescent;
    var q := Run(INIT, before);
    RunInv(before);
    RunConcat(INIT, before, [Accept]);
    RunConcat(INIT, before + [Accept], rest);
    Arrival(q);
    QuietWorkersAreIdle(q);
    var arrived := Run(q, [Accept]);
    if q.workers != [] {
      RunReuses(q, arrived, rest);
      QuietAgain(q, Run(arrived, rest));
    } else {
      RunCreates(q, arrived, rest);
      OneThread(q, Run(arrived, rest));
    }
  }

  lemma QuietAgain(q: State, s: State)
    requires q.stack != [] && q.stack[0] < |q.workers| && Inv(q) && Inv(s) && Quiescent(s) && Reusing(q, s)
    ensures |s.workers| == |q.workers| && s.givenTo == q.givenTo + [q.stack[0]] && s.stack == q.stack
  {
    QuietState(s);
    hide Quiescent, MutualExclusion, Accounts, Deliveries, WorkersOk;
    PopOnlyRemovesHead(q.stack, q.stack[0]);
  }

  lemma FirstTwoDiffer(stack: seq<nat>)
    requires NoDuplicates(stack)
    ensures |stack| > 1 ==> stack[0] != stack[1]
  {
  }

  lemma OneThread(q: State, s: State)
    requires Inv(s) && Quiescent(s) && Creates(q, s)
    ensures |s.workers| == 1 && s.givenTo == q.givenTo + [0] && s.stack == [0]
  {
    QuietState(s);
    hide Quiescent, MutualExclusion, Accounts, Deliveries, WorkersOk;
    assert 0 in s.stack;
    FirstTwoDiffer(s.stack);
  }

  // ----- The life of a thread -----

  /** A thread goes round in this order: it serves its connection before it gives up the
      socket, and is back on the idle list before it waits. */
  lemma ThreadsGoRound(s: State, t: nat)
    requires t < |s.workers| && StepWorker(s, t).Some?
    ensures var cycle := [Serving, Reading, Releasing, Locking, Linking, Pushing, Unlocking, Waiting, Serving];
      var w, v := s.workers[t], StepWorker(s, t).value.workers[t];
      && (exists k :: 0 <= k < 8 && w.pc == cycle[k] && v.pc == cycle[k + 1])
      && (v.clientSock != w.clientSock <==> w.pc == Releasing && w.clientSock != -1)
  {
    var cycle := [Serving, Reading, Releasing, Locking, Linking, Pushing, Unlocking, Waiting, Serving];
    var w, v := s.workers[t], StepWorker(s, t).value.workers[t];
    var k := match w.pc
      case Serving => 0
      case Reading => 1
      case Releasing => 2
      case Locking => 3
      case Linking => 4
      case Pushing => 5
      case Unlocking => 6
      case Waiting => 7;
    assert w.pc == cycle[k] && v.pc == cycle[k + 1];
  }

  /** A new thread serves the connection it was made for and is linked to the one made
      before it. */
  lemma ThreadIsMade(s: State, a: Action)
    requires Step(s, a).Some? && |Step(s, a).value.workers| > |s.workers|
    ensures var after, n := Step(s, a).value, |s.workers|;
      && s.acceptor.Creating? && |after.workers| == n + 1 && after.givenTo == s.givenTo + [n]
      && after.workers[n] == Worker(Serving, s.acceptor.c, 1, if n == 0 then None else Some(n - 1), 0)
  {
  }
}
