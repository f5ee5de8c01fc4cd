/** The thread pool of src/utils/ThreadPool.cpp as a transition system: worker threads, threads that
    call threadpool_add and one call of threadpool_destroy, interleaved statement by statement around
    the mutex and the condition variable. */
module ThreadPool {

  /** Stands for the closure a caller submits. */
  type Task = int

  /** A slot of the ring buffer: an empty std::function or a task. */
  datatype Cell = Empty | Filled(task: Task)

  datatype Mode = Running | Immediate | Graceful

  /** Where a worker is in threadpool_thread. A worker that came back from pthread_cond_wait
      and has not finished its turn carries woken == true. */
  datatype Worker =
    | Start                  // line 160, wants the lock
    | Test(woken: bool)      // line 161, has the lock
    | Blocked                // line 162, inside pthread_cond_wait
    | Woken                  // line 162, signalled, wants the lock back
    | Decide(woken: bool)    // line 164, has the lock
    | Take(woken: bool)      // lines 168-173, has the lock
    | Release(cell: Cell)    // line 174, has the lock
    | Run(cell: Cell)        // line 175
    | Leave                  // line 177, has the lock
    | LeaveUnlock            // line 178, has the lock
    | Gone

  datatype Outcome = Accepted | QueueFull | ShutDown

  datatype Adder =
    | Idle
    | WantLock(task: Task)   // line 58
    | Inside(task: Task)     // lines 63-80, has the lock
    | Signal                 // line 83, has the lock
    | Unlock(outcome: Outcome) // line 90, has the lock

  datatype Destroyer =
    | NotCalled
    | DWantLock(mode: Mode)  // line 104
    | DInside(mode: Mode)    // lines 109-114, has the lock
    | Broadcast              // line 116, has the lock
    | DUnlock                // line 117, has the lock
    | Join(next: nat)        // lines 124-129
    | Free                   // line 141
    | FreeLock               // line 144
    | Finished(freed: bool)  // has returned; after freeing the pool it still has the lock

  datatype Holder = Nobody | ByWorker(worker: nat) | ByAdder(adder: nat) | ByDestroyer

  datatype State = State(
    queue: seq<Cell>, head: nat, tail: nat, count: int,
    mode: Mode, started: int, lock: Holder,
    workers: seq<Worker>, adders: seq<Adder>, destroyer: Destroyer,
    // history: tasks in the order of acceptance, of removal from the buffer, of completion
    accepted: seq<Task>, taken: seq<Task>, ran: seq<Task>)

  const MAX_THREADS := 1024
  const MAX_QUEUE := 65535

  /** The pool after threadpool_create(threads, size), with any number of client threads. */
  function Create(threads: int, size: int, clients: nat): State {
    var sane := 0 < threads <= MAX_THREADS && 0 < size <= MAX_QUEUE;
    var t := if sane then threads else 4;
    var q := if sane then size else 1024;
    State(seq(q, _ => Empty), 0, 0, 0, Running, t, Nobody,
          seq(t, _ => Start), seq(clients, _ => Idle), NotCalled, [], [], [])
  }

  /** A pool has the threads and the capacity that were asked for, if both are in range, otherwise 4 and 1024; it is
      empty, and nothing has happened. */
  lemma Created(threads: int, size: int, clients: nat)
    ensures var s := Create(threads, size, clients);
      (1 <= threads <= 1024 && 1 <= size <= 65535 ==> |s.workers| == threads && |s.queue| == size) &&
      (threads < 1 || threads > 1024 || size < 1 || size > 65535 ==> |s.workers| == 4 && |s.queue| == 1024) &&
      s.count == 0 && s.mode == Running && s.lock == Nobody && s.started == |s.workers| && |s.adders| == clients &&
      s.accepted == [] && s.destroyer == NotCalled
  {
  }

  // ---------- steps ----------

  datatype Step =
    | WorkerMoves(i: nat)
    | SpuriousWakeup(i: nat)
    | AddCalled(j: nat, task: Task)
    | AdderMoves(j: nat, wake: set<nat>)
    | DestroyCalled(how: Mode)
    | DestroyerMoves

  predicate HasBlocked(ws: seq<Worker>) {
    Blocked in ws
  }

  predicate AllGone(ws: seq<Worker>) {
    forall k :: 0 <= k < |ws| ==> ws[k] == Gone
  }

  /** The effect of waking a set of blocked workers. */
  function Wake(ws: seq<Worker>, wake: set<nat>): seq<Worker> {
    seq(|ws|, k requires 0 <= k < |ws| => if k in wake && ws[k].Blocked? then Woken else ws[k])
  }

  function AllBlocked(ws: seq<Worker>): set<nat> {
    set k: nat | k < |ws| && ws[k].Blocked?
  }

  predicate WorkerEnabled(s: State, i: nat) {
    i < |s.workers| &&
    match s.workers[i]
    case Start | Woken => s.lock == Nobody
    case Test(_) | Decide(_) | Take(_) | Release(_) | Leave | LeaveUnlock => s.lock == ByWorker(i)
    case Run(_) => true
    case Blocked | Gone => false
  }

  function WorkerStep(s: State, i: nat): State
    requires WorkerEnabled(s, i) && s.head < |s.queue|
  {
    match s.workers[i]
    case Start => s.(lock := ByWorker(i), workers := s.workers[i := Test(false)])
    case Woken => s.(lock := ByWorker(i), workers := s.workers[i := Test(true)])
    case Test(woken) =>
      if s.count == 0 && s.mode == Running
      then s.(lock := Nobody, workers := s.workers[i := Blocked])
      else s.(workers := s.workers[i := Decide(woken)])
    case Decide(woken) =>
      if s.mode == Immediate || (s.mode == Graceful && s.count == 0)
      then s.(workers := s.workers[i := Leave])
      else s.(workers := s.workers[i := Take(woken)])
    case Take(_) =>
      var cell := s.queue[s.head];
      s.(workers := s.workers[i := Release(cell)],
         queue := s.queue[s.head := Empty],
         head := (s.head + 1) % |s.queue|,
         count := s.count - 1,
         taken := if cell.Filled? then s.taken + [cell.task] else s.taken)
    case Release(cell) => s.(lock := Nobody, workers := s.workers[i := Run(cell)])
    case Run(cell) =>
      s.(workers := s.workers[i := Start],
         ran := if cell.Filled? then s.ran + [cell.task] else s.ran)
    case Leave => s.(started := s.started - 1, workers := s.workers[i := LeaveUnlock])
    case LeaveUnlock => s.(lock := Nobody, workers := s.workers[i := Gone])
  }

  predicate AdderEnabled(s: State, j: nat, wake: set<nat>) {
    j < |s.adders| &&
    match s.adders[j]
    case Idle => false
    case WantLock(_) => s.lock == Nobody && wake == {}
    case Inside(_) | Unlock(_) => s.lock == ByAdder(j) && wake == {}
    // pthread_cond_signal wakes at least one of the blocked threads, if there is one
    case Signal =>
      s.lock == ByAdder(j) && (forall k :: k in wake ==> k < |s.workers| && s.workers[k].Blocked?) &&
      (HasBlocked(s.workers) ==> wake != {})
  }

  function AdderStep(s: State, j: nat, wake: set<nat>): State
    requires AdderEnabled(s, j, wake) && s.tail < |s.queue|
  {
    match s.adders[j]
    case WantLock(t) => s.(lock := ByAdder(j), adders := s.adders[j := Inside(t)])
    case Inside(t) =>
      if s.count == |s.queue| then s.(adders := s.adders[j := Unlock(QueueFull)])
      else if s.mode != Running then s.(adders := s.adders[j := Unlock(ShutDown)])
      else s.(adders := s.adders[j := Signal],
              queue := s.queue[s.tail := Filled(t)],
              tail := (s.tail + 1) % |s.queue|,
              count := s.count + 1,
              accepted := s.accepted + [t])
    case Signal => s.(workers := Wake(s.workers, wake), adders := s.adders[j := Unlock(Accepted)])
    case Unlock(_) => s.(lock := Nobody, adders := s.adders[j := Idle])
  }

  predicate DestroyerEnabled(s: State) {
    match s.destroyer
    case NotCalled | Finished(_) => false
    case DWantLock(_) | FreeLock => s.lock == Nobody
    case DInside(_) | Broadcast | DUnlock => s.lock == ByDestroyer
    case Join(k) => k < |s.workers| ==> s.workers[k] == Gone
    case Free => true
  }

  /** One call of threadpool_destroy per pool: its test of shutdown (line 109) is then false. threadpool_free
      takes the lock once more, to destroy it, and never gives it back. */
  function DestroyerStep(s: State): State
    requires DestroyerEnabled(s)
  {
    match s.destroyer
    case DWantLock(m) => s.(lock := ByDestroyer, destroyer := DInside(m))
    case DInside(m) => s.(mode := m, destroyer := Broadcast)
    case Broadcast => s.(workers := Wake(s.workers, AllBlocked(s.workers)), destroyer := DUnlock)
    case DUnlock => s.(lock := Nobody, destroyer := Join(0))
    case Join(k) => s.(destroyer := if k < |s.workers| then Join(k + 1) else Free)
    case Free => s.(destroyer := if s.started > 0 then Finished(false) else FreeLock)
    case FreeLock => s.(lock := ByDestroyer, destroyer := Finished(true))
  }

  predicate Enabled(s: State, e: Step) {
    s.head < |s.queue| && s.tail < |s.queue| &&
    match e
    case WorkerMoves(i) => WorkerEnabled(s, i)
    case SpuriousWakeup(i) => i < |s.workers| && s.workers[i].Blocked?
    case AddCalled(j, _) => j < |s.adders| && s.adders[j].Idle?
    case AdderMoves(j, wake) => AdderEnabled(s, j, wake)
    case DestroyCalled(m) => s.destroyer.NotCalled? && m != Running
    case DestroyerMoves => DestroyerEnabled(s)
  }

  function Apply(s: State, e: Step): State
    requires Enabled(s, e)
  {
    match e
    case WorkerMoves(i) => WorkerStep(s, i)
    case SpuriousWakeup(i) => s.(workers := s.workers[i := Woken])
    case AddCalled(j, t) => s.(adders := s.adders[j := WantLock(t)])
    case AdderMoves(j, wake) => AdderStep(s, j, wake)
    case DestroyCalled(m) => s.(destroyer := DWantLock(m))
    case DestroyerMoves => DestroyerStep(s)
  }

  /** The pool's own steps, as opposed to new calls from clients and spurious wake-ups. */
  predicate Internal(e: Step) {
    e.WorkerMoves? || e.AdderMoves? || e.DestroyerMoves?
  }

  /** A run of the pool. */
  ghost predicate Runs(s: State, steps: seq<Step>, s': State)
    decreases |steps|
  {
    if steps == [] then s == s'
    else Enabled(s, steps[0]) && Runs(Apply(s, steps[0]), steps[1..], s')
  }

  // ---------- sums over threads ----------

  function Sum<T>(ts: seq<T>, f: T -> nat): nat {
    if ts == [] then 0 else Sum(ts[..|ts| - 1], f) + f(ts[|ts| - 1])
  }

  lemma {:induction false} SumUpdate<T>(ts: seq<T>, i: nat, t: T, f: T -> nat)
    requires i < |ts|
    ensures Sum(ts[i := t], f) + f(ts[i]) == Sum(ts, f) + f(t)
  {
    var n := |ts| - 1;
    if i == n {
      assert ts[i := t][..n] == ts[..n];
    } else {
      assert ts[i := t][..n] == ts[..n][i := t];
      SumUpdate(ts[..n], i, t, f);
    }
  }

  lemma {:induction false} SumAllZero<T>(ts: seq<T>, f: T -> nat)
    requires forall k :: 0 <= k < |ts| ==> f(ts[k]) == 0
    ensures Sum(ts, f) == 0
  {
    if ts != [] {
      SumAllZero(ts[..|ts| - 1], f);
    }
  }

  lemma {:induction false} SumConstant<T>(ts: seq<T>, f: T -> nat, c: nat)
    requires forall k :: 0 <= k < |ts| ==> f(ts[k]) == c
    ensures Sum(ts, f) == c * |ts|
  {
    if ts != [] {
      SumConstant(ts[..|ts| - 1], f, c);
    }
  }

  lemma {:induction false} SumGap<T>(ts: seq<T>, us: seq<T>, f: T -> nat, c: nat)
    requires |ts| == |us| && forall k :: 0 <= k < |ts| ==> f(us[k]) <= f(ts[k]) + c
    ensures Sum(us, f) <= Sum(ts, f) + c * |ts|
  {
    if ts != [] {
      SumGap(ts[..|ts| - 1], us[..|us| - 1], f, c);
    }
  }

  lemma {:induction false} SumAtLeast<T>(ts: seq<T>, us: seq<T>, f: T -> nat)
    requires |ts| == |us| && forall k :: 0 <= k < |ts| ==> f(ts[k]) <= f(us[k])
    ensures Sum(ts, f) <= Sum(us, f)
    ensures forall k :: 0 <= k < |ts| && f(ts[k]) < f(us[k]) ==> Sum(ts, f) < Sum(us, f)
  {
    if ts != [] {
      SumAtLeast(ts[..|ts| - 1], us[..|us| - 1], f);
    }
  }

  lemma SumSame<T>(ts: seq<T>, us: seq<T>, f: T -> nat)
    requires |ts| == |us| && forall k :: 0 <= k < |ts| ==> f(ts[k]) == f(us[k])
    ensures Sum(ts, f) == Sum(us, f)
  {
    SumAtLeast(ts, us, f);
    SumAtLeast(us, ts, f);
  }

  // ---------- the ring buffer ----------

  /** x modulo n, for the one wrap-around a ring index can make. */
  function Wrap(x: nat, n: nat): nat {
    if x < n then x else x - n
  }

  lemma NoThirdRound(n: nat, q: nat, x: nat)
    requires n * q <= x < 2 * n
    ensures q < 2
  {
  }

  lemma ModIsWrap(x: nat, n: nat)
    requires 0 < n && x < 2 * n
    ensures x % n == Wrap(x, n)
  {
    var q := x / n;
    assert x == n * q + x % n;
    NoThirdRound(n, q, x);
    assert q == 0 || q == 1;
  }

  /** The buffer holds exactly the accepted tasks not yet taken, oldest first, and no other cell is filled. */
  ghost predicate Ring(s: State) {
    s.head < |s.queue| && 0 <= s.count <= |s.queue| &&
    s.tail == Wrap(s.head + s.count, |s.queue|) && s.tail < |s.queue| &&
    |s.accepted| == |s.taken| + s.count && s.taken == s.accepted[..|s.taken|] &&
    (forall k :: 0 <= k < |s.queue| ==> CellAt(s, k))
  }

  /** The k-th cell after head holds the k-th waiting task, or nothing. */
  ghost predicate CellAt(s: State, k: nat)
    requires s.head < |s.queue| && k < |s.queue| && 0 <= s.count && |s.accepted| == |s.taken| + s.count
  {
    s.queue[Wrap(s.head + k, |s.queue|)] == if k < s.count then Filled(s.accepted[|s.taken| + k]) else Empty
  }

  lemma RingAdd(s: State, s': State, t: Task)
    requires Ring(s) && s.count < |s.queue|
    requires s'.queue == s.queue[s.tail := Filled(t)] && s'.tail == (s.tail + 1) % |s.queue|
    requires s'.count == s.count + 1 && s'.accepted == s.accepted + [t]
    requires s'.head == s.head && s'.taken == s.taken
    ensures Ring(s')
  {
    ModIsWrap(s.tail + 1, |s.queue|);
    forall k | 0 <= k < |s'.queue| ensures CellAt(s', k) {
      assert CellAt(s, k);
    }
  }

  lemma RingTake(s: State, s': State)
    requires Ring(s) && s.count > 0
    requires s'.queue == s.queue[s.head := Empty] && s'.head == (s.head + 1) % |s.queue|
    requires s'.count == s.count - 1 && s'.accepted == s.accepted && s'.tail == s.tail
    requires s'.taken == s.taken + [s.accepted[|s.taken|]]
    ensures Ring(s')
  {
    var n := |s.queue|;
    ModIsWrap(s.head + 1, n);
    forall k | 0 <= k < n ensures CellAt(s', k) {
      assert CellAt(s, Wrap(k + 1, n));
    }
  }

  lemma RingOldest(s: State)
    requires Ring(s) && s.count > 0
    ensures s.queue[s.head] == Filled(s.accepted[|s.taken|])
  {
    assert CellAt(s, 0);
  }

  // ---------- the invariant ----------

  predicate HoldsLock(w: Worker) {
    w.Test? || w.Decide? || w.Take? || w.Release? || w.Leave? || w.LeaveUnlock?
  }

  predicate AdderHoldsLock(a: Adder) {
    a.Inside? || a.Signal? || a.Unlock?
  }

  predicate DestroyerHoldsLock(d: Destroyer) {
    d.DInside? || d.Broadcast? || d.DUnlock? || (d.Finished? && d.freed)
  }

  /** Mutual exclusion: the lock belongs to exactly the thread that is between lock and unlock, or for good to the
      call that has freed the pool. */
  ghost predicate Mutex(s: State) {
    (forall i :: 0 <= i < |s.workers| ==> (HoldsLock(s.workers[i]) <==> s.lock == ByWorker(i))) &&
    (forall j :: 0 <= j < |s.adders| ==> (AdderHoldsLock(s.adders[j]) <==> s.lock == ByAdder(j))) &&
    (DestroyerHoldsLock(s.destroyer) <==> s.lock == ByDestroyer) &&
    (s.lock.ByWorker? ==> s.lock.worker < |s.workers|) && (s.lock.ByAdder? ==> s.lock.adder < |s.adders|)
  }

  /** What a worker's position says about the shared variables. */
  ghost predicate WorkerOk(s: State, w: Worker) {
    match w
    case Decide(_) => s.mode != Running || s.count > 0
    case Take(_) => s.count > 0 && s.mode != Immediate
    case Release(c) => c.Filled?
    case Run(c) => c.Filled?
    case Leave | LeaveUnlock | Gone => s.mode != Running && (s.mode == Graceful ==> s.count == 0)
    case Start | Test(_) | Blocked | Woken => true
  }

  ghost predicate Workers(s: State) {
    |s.workers| > 0 && forall i :: 0 <= i < |s.workers| ==> WorkerOk(s, s.workers[i])
  }

  ghost predicate Phase(s: State) {
    (forall j :: 0 <= j < |s.adders| && s.adders[j].Signal? ==> s.mode == Running) &&
    match s.destroyer
    case NotCalled => s.mode == Running
    case DWantLock(m) => s.mode == Running && m != Running
    case DInside(m) => s.mode == Running && m != Running
    case Broadcast => s.mode != Running
    case DUnlock => s.mode != Running && !HasBlocked(s.workers)
    case Join(k) =>
      s.mode != Running && !HasBlocked(s.workers) && k <= |s.workers| && AllGone(s.workers[..k])
    case Free | FreeLock => s.mode != Running && AllGone(s.workers)
    case Finished(freed) => s.mode != Running && AllGone(s.workers) && freed
  }

  function Alive(w: Worker): nat {
    if w.LeaveUnlock? || w.Gone? then 0 else 1
  }

  ghost predicate Started(s: State) {
    s.started == Sum(s.workers, Alive)
  }

  /** A worker that was woken and has not yet taken a task or gone back to sleep. */
  function Credit(w: Worker): nat {
    if w.Woken? || (w.Test? && w.woken) || (w.Decide? && w.woken) || (w.Take? && w.woken) then 1 else 0
  }

  /** A task has been queued and its signal is still to come. */
  function Pending(a: Adder): nat {
    if a.Signal? then 1 else 0
  }

  /** No lost wake-up: while a worker sleeps, every queued task has a woken worker or a signal under way. */
  ghost predicate NoLostWakeup(s: State) {
    s.mode == Running && HasBlocked(s.workers) ==>
      s.count <= Sum(s.workers, Credit) + Sum(s.adders, Pending)
  }

  /** 1 for a worker that has task t in its hands. */
  function Holding(t: Task): Worker -> nat {
    (w: Worker) => if (w.Release? || w.Run?) && w.cell == Filled(t) then 1 else 0
  }

  /** How often t occurs in ts. */
  function Times(ts: seq<Task>, t: Task): nat {
    if ts == [] then 0 else Times(ts[..|ts| - 1], t) + if ts[|ts| - 1] == t then 1 else 0
  }

  lemma {:induction false} TimesIsMultiplicity(ts: seq<Task>, t: Task)
    ensures Times(ts, t) == multiset(ts)[t]
  {
    if ts != [] {
      TimesIsMultiplicity(ts[..|ts| - 1], t);
      assert ts == ts[..|ts| - 1] + [ts[|ts| - 1]];
    }
  }

  /** Every task taken from the buffer has run once or is in the hands of one worker. */
  ghost predicate ExactlyOnce(s: State) {
    forall t: Task :: Balanced(s, t)
  }

  ghost predicate Balanced(s: State, t: Task) {
    Times(s.ran, t) + Sum(s.workers, Holding(t)) == Times(s.taken, t)
  }

  ghost predicate Inv(s: State) {
    Ring(s) && Mutex(s) && Workers(s) && Phase(s) && Started(s) && NoLostWakeup(s) && ExactlyOnce(s)
  }

  // ---------- every step keeps the invariant ----------

  lemma InitialInv(threads: int, size: int, clients: nat)
    ensures Inv(Create(threads, size, clients))
  {
    var s := Create(threads, size, clients);
    assert forall k :: 0 <= k < |s.queue| ==> CellAt(s, k);
    SumConstant(s.workers, Alive, 1);
    forall t: Task ensures Balanced(s, t) {
      SumAllZero(s.workers, Holding(t));
    }
  }

  lemma WorkerKeepsRing(s: State, i: nat)
    requires Inv(s) && WorkerEnabled(s, i)
    ensures Ring(WorkerStep(s, i))
  {
    var s' := WorkerStep(s, i);
    assert WorkerOk(s, s.workers[i]);
    if s.workers[i].Take? {
      RingOldest(s);
      RingTake(s, s');
    } else {
      assert forall k :: 0 <= k < |s.queue| ==> CellAt(s, k) == CellAt(s', k);
    }
  }

  lemma WorkerKeepsMutex(s: State, i: nat)
    requires Inv(s) && WorkerEnabled(s, i)
    ensures Mutex(WorkerStep(s, i))
  {
  }

  lemma WorkerKeepsWorkers(s: State, i: nat)
    requires Inv(s) && WorkerEnabled(s, i)
    ensures Workers(WorkerStep(s, i))
  {
    var s' := WorkerStep(s, i);
    assert WorkerOk(s, s.workers[i]);
    if s.workers[i].Take? {
      RingOldest(s);
    }
    forall k | 0 <= k < |s'.workers| ensures WorkerOk(s', s'.workers[k]) {
      assert WorkerOk(s, s.workers[k]);
    }
  }

  lemma WorkerKeepsPhase(s: State, i: nat)
    requires Inv(s) && WorkerEnabled(s, i)
    ensures Phase(WorkerStep(s, i))
  {
  }

  lemma WorkerKeepsSums(s: State, i: nat)
    requires Ring(s) && Started(s) && NoLostWakeup(s) && WorkerEnabled(s, i) && WorkerOk(s, s.workers[i])
    ensures Started(WorkerStep(s, i)) && NoLostWakeup(WorkerStep(s, i))
  {
    var s' := WorkerStep(s, i);
    SumUpdate(s.workers, i, s'.workers[i], Alive);
    SumUpdate(s.workers, i, s'.workers[i], Credit);
    assert s'.workers == s.workers[i := s'.workers[i]];
    if HasBlocked(s'.workers) && !s'.workers[i].Blocked? {
      assert HasBlocked(s.workers);
    }
  }

  lemma TimesAppend(ts: seq<Task>, x: Task, t: Task)
    ensures Times(ts + [x], t) == Times(ts, t) + if x == t then 1 else 0
  {
    assert (ts + [x])[..|ts|] == ts;
  }

  lemma TakeKeepsBalance(s: State, i: nat, t: Task)
    requires Ring(s) && WorkerEnabled(s, i) && s.workers[i].Take? && s.count > 0 && Balanced(s, t)
    ensures Balanced(WorkerStep(s, i), t)
  {
    RingOldest(s);
    var task := s.accepted[|s.taken|];
    SumUpdate(s.workers, i, Release(Filled(task)), Holding(t));
    TimesAppend(s.taken, task, t);
  }

  lemma RunKeepsBalance(s: State, i: nat, t: Task)
    requires Ring(s) && WorkerEnabled(s, i) && s.workers[i].Run? && s.workers[i].cell.Filled? && Balanced(s, t)
    ensures Balanced(WorkerStep(s, i), t)
  {
    SumUpdate(s.workers, i, Start, Holding(t));
    TimesAppend(s.ran, s.workers[i].cell.task, t);
  }

  lemma MoveKeepsBalance(s: State, i: nat, t: Task)
    requires Ring(s) && WorkerEnabled(s, i) && !s.workers[i].Take? && !s.workers[i].Run? && Balanced(s, t)
    ensures Balanced(WorkerStep(s, i), t)
  {
    SumUpdate(s.workers, i, WorkerStep(s, i).workers[i], Holding(t));
  }

  lemma WorkerKeepsExactlyOnce(s: State, i: nat)
    requires Inv(s) && WorkerEnabled(s, i)
    ensures ExactlyOnce(WorkerStep(s, i))
  {
    forall t: Task ensures Balanced(WorkerStep(s, i), t) {
      assert Balanced(s, t) && WorkerOk(s, s.workers[i]);
      if s.workers[i].Take? {
        TakeKeepsBalance(s, i, t);
      } else if s.workers[i].Run? {
        RunKeepsBalance(s, i, t);
      } else {
        MoveKeepsBalance(s, i, t);
      }
    }
  }

  lemma WorkerKeepsInv(s: State, i: nat)
    requires Inv(s) && WorkerEnabled(s, i)
    ensures Inv(WorkerStep(s, i))
  {
    WorkerKeepsRing(s, i);
    WorkerKeepsMutex(s, i);
    WorkerKeepsWorkers(s, i);
    WorkerKeepsPhase(s, i);
    assert WorkerOk(s, s.workers[i]);
    WorkerKeepsSums(s, i);
    WorkerKeepsExactlyOnce(s, i);
  }

  lemma WakeKeepsBalance(s: State, wake: set<nat>, s': State)
    requires ExactlyOnce(s) && s'.workers == Wake(s.workers, wake) && s'.ran == s.ran && s'.taken == s.taken
    ensures ExactlyOnce(s')
  {
    forall t: Task ensures Balanced(s', t) {
      assert Balanced(s, t);
      SumSame(s.workers, s'.workers, Holding(t));
    }
  }

  lemma WakeKeepsWorkers(s: State, wake: set<nat>, s': State)
    requires Workers(s) && s'.workers == Wake(s.workers, wake) && s'.mode == s.mode && s'.count == s.count
    ensures Workers(s')
    ensures forall i :: 0 <= i < |s.workers| ==> HoldsLock(s.workers[i]) == HoldsLock(s'.workers[i])
    ensures HasBlocked(s'.workers) ==> HasBlocked(s.workers)
  {
    forall k | 0 <= k < |s'.workers| ensures WorkerOk(s', s'.workers[k]) {
      assert WorkerOk(s, s.workers[k]);
    }
    if HasBlocked(s'.workers) {
      var k :| 0 <= k < |s'.workers| && s'.workers[k] == Blocked;
      assert s.workers[k] == Blocked;
    }
  }

  lemma SameRing(s: State, s': State)
    requires Ring(s) && s'.queue == s.queue && s'.head == s.head && s'.tail == s.tail && s'.count == s.count
    requires s'.accepted == s.accepted && s'.taken == s.taken
    ensures Ring(s')
  {
    forall k | 0 <= k < |s'.queue| ensures CellAt(s', k) {
      assert CellAt(s, k);
    }
  }

  /** Waking workers leaves alone everything but the sleepers. */
  lemma WakeKeeps(s: State, wake: set<nat>, s': State)
    requires Inv(s) && s' == s.(workers := Wake(s.workers, wake), adders := s'.adders, destroyer := s'.destroyer)
    ensures Ring(s') && Workers(s') && Started(s') && ExactlyOnce(s')
    ensures forall i :: 0 <= i < |s.workers| ==> HoldsLock(s.workers[i]) == HoldsLock(s'.workers[i])
    ensures HasBlocked(s'.workers) ==> HasBlocked(s.workers)
  {
    SameRing(s, s');
    WakeKeepsWorkers(s, wake, s');
    WakeKeepsBalance(s, wake, s');
    SumSame(s.workers, s'.workers, Alive);
  }

  /** Waking somebody adds a credit. */
  lemma WakeAddsCredit(ws: seq<Worker>, wake: set<nat>, k: nat)
    requires k in wake && k < |ws| && ws[k].Blocked?
    ensures Sum(ws, Credit) < Sum(Wake(ws, wake), Credit)
  {
    var vs := Wake(ws, wake);
    SumAtLeast(ws, vs, Credit);
    assert Credit(ws[k]) < Credit(vs[k]);
  }

  lemma SignalKeepsInv(s: State, j: nat, wake: set<nat>)
    requires Inv(s) && AdderEnabled(s, j, wake) && s.adders[j].Signal?
    ensures Inv(AdderStep(s, j, wake))
  {
    var s' := AdderStep(s, j, wake);
    WakeKeeps(s, wake, s');
    SumUpdate(s.adders, j, s'.adders[j], Pending);
    if HasBlocked(s'.workers) {
      var k :| k in wake;
      WakeAddsCredit(s.workers, wake, k);
    }
  }

  lemma SameThreads(s: State, s': State)
    requires Inv(s) && s'.workers == s.workers && s'.ran == s.ran && s'.taken == s.taken && s'.started == s.started
    ensures Started(s') && ExactlyOnce(s')
  {
    forall t: Task ensures Balanced(s', t) {
      assert Balanced(s, t);
    }
  }

  lemma AdderKeepsInv(s: State, j: nat, wake: set<nat>)
    requires Inv(s) && AdderEnabled(s, j, wake) && !s.adders[j].Signal?
    ensures Inv(AdderStep(s, j, wake))
  {
    var s' := AdderStep(s, j, wake);
    SameThreads(s, s');
    SumUpdate(s.adders, j, s'.adders[j], Pending);
    if s'.accepted != s.accepted {
      RingAdd(s, s', s.adders[j].task);
    } else {
      SameRing(s, s');
    }
    assert Workers(s') by {
      forall k | 0 <= k < |s'.workers| ensures WorkerOk(s', s'.workers[k]) {
        assert WorkerOk(s, s.workers[k]);
      }
    }
  }

  lemma BroadcastKeepsInv(s: State)
    requires Inv(s) && DestroyerEnabled(s) && s.destroyer.Broadcast?
    ensures Inv(DestroyerStep(s))
  {
    var s' := DestroyerStep(s);
    WakeKeeps(s, AllBlocked(s.workers), s');
    assert forall k :: 0 <= k < |s.workers| ==> s'.workers[k] != Blocked;
  }

  lemma DestroyerKeepsWorkers(s: State)
    requires Mutex(s) && Workers(s) && Phase(s) && DestroyerEnabled(s) && !s.destroyer.Broadcast?
    ensures Workers(DestroyerStep(s))
  {
    var s' := DestroyerStep(s);
    forall k | 0 <= k < |s'.workers| ensures WorkerOk(s', s'.workers[k]) {
      assert WorkerOk(s, s.workers[k]);
    }
  }

  lemma DestroyerKeepsPhase(s: State)
    requires Mutex(s) && Workers(s) && Phase(s) && Started(s) && DestroyerEnabled(s) && !s.destroyer.Broadcast?
    ensures Phase(DestroyerStep(s))
  {
    if s.destroyer.Free? {
      SumAllZero(s.workers, Alive);
    }
    if s.destroyer.Join? {
      JoinKeepsPhase(s);
    }
  }

  lemma JoinKeepsPhase(s: State)
    requires Phase(s) && DestroyerEnabled(s) && s.destroyer.Join?
    ensures Phase(DestroyerStep(s))
  {
    var k := s.destroyer.next;
    if k == |s.workers| {
      assert s.workers[..k] == s.workers;
    } else {
      assert s.workers[..k + 1] == s.workers[..k] + [s.workers[k]];
    }
  }

  lemma DestroyerKeepsInv(s: State)
    requires Inv(s) && DestroyerEnabled(s) && !s.destroyer.Broadcast?
    ensures Inv(DestroyerStep(s))
  {
    var s' := DestroyerStep(s);
    SameThreads(s, s');
    SameRing(s, s');
    DestroyerKeepsWorkers(s);
    DestroyerKeepsPhase(s);
  }

  lemma CallsKeepInv(s: State, e: Step)
    requires Inv(s) && Enabled(s, e) && !Internal(e)
    ensures Inv(Apply(s, e))
  {
    var s' := Apply(s, e);
    SameRing(s, s');
    if e.SpuriousWakeup? {
      assert s'.workers == Wake(s.workers, {e.i});
      WakeKeeps(s, {e.i}, s');
      WakeAddsCredit(s.workers, {e.i}, e.i);
    } else {
      SameThreads(s, s');
      if e.AddCalled? {
        SumUpdate(s.adders, e.j, s'.adders[e.j], Pending);
      }
      forall k | 0 <= k < |s'.workers| ensures WorkerOk(s', s'.workers[k]) {
        assert WorkerOk(s, s.workers[k]);
      }
    }
  }

  lemma StepKeepsInv(s: State, e: Step)
    requires Inv(s) && Enabled(s, e)
    ensures Inv(Apply(s, e))
  {
    match e
    case WorkerMoves(i) => WorkerKeepsInv(s, i);
    case AdderMoves(j, wake) =>
      if s.adders[j].Signal? { SignalKeepsInv(s, j, wake); } else { AdderKeepsInv(s, j, wake); }
    case DestroyerMoves =>
      if s.destroyer.Broadcast? { BroadcastKeepsInv(s); } else { DestroyerKeepsInv(s); }
    case _ => CallsKeepInv(s, e);
  }

  lemma {:induction false} RunKeepsInv(s: State, steps: seq<Step>, s': State)
    requires Inv(s) && Runs(s, steps, s')
    ensures Inv(s')
    decreases |steps|
  {
    if steps != [] {
      StepKeepsInv(s, steps[0]);
      RunKeepsInv(Apply(s, steps[0]), steps[1..], s');
    }
  }

  // ---------- what every run guarantees ----------

  ghost predicate Reachable(s: State) {
    exists threads: int, size: int, clients: nat, steps :: Runs(Create(threads, size, clients), steps, s)
  }

  lemma ReachableInv(s: State)
    requires Reachable(s)
    ensures Inv(s)
  {
    var threads: int, size: int, clients: nat, steps :| Runs(Create(threads, size, clients), steps, s);
    InitialInv(threads, size, clients);
    RunKeepsInv(Create(threads, size, clients), steps, s);
  }

  function IsWoken(w: Worker): nat {
    if w.Woken? then 1 else 0
  }

  /** Before shutdown, whenever the lock is free and a worker sleeps, there are at least as many woken
      workers as queued tasks; so the queue is empty when all workers sleep. */
  lemma NoTaskSleeps(s: State)
    requires Reachable(s) && s.mode == Running && s.lock == Nobody && HasBlocked(s.workers)
    ensures s.count <= Sum(s.workers, IsWoken)
    ensures (forall i :: 0 <= i < |s.workers| ==> s.workers[i].Blocked?) ==> s.count == 0
  {
    ReachableInv(s);
    assert forall i :: 0 <= i < |s.workers| ==> !HoldsLock(s.workers[i]);
    SumAgree(s.workers, Credit, IsWoken);
    SumAllZero(s.adders, Pending);
    if forall i :: 0 <= i < |s.workers| ==> s.workers[i].Blocked? {
      SumAllZero(s.workers, IsWoken);
    }
  }

  lemma {:induction false} SumAgree<T>(ts: seq<T>, f: T -> nat, g: T -> nat)
    requires forall k :: 0 <= k < |ts| ==> f(ts[k]) == g(ts[k])
    ensures Sum(ts, f) == Sum(ts, g)
  {
    if ts != [] {
      SumAgree(ts[..|ts| - 1], f, g);
    }
  }

  /** The tasks waiting in the buffer, oldest first, as read through head and count. */
  ghost function Contents(s: State): seq<Task>
    requires Ring(s)
  {
    seq(s.count, k requires 0 <= k < s.count =>
      assert CellAt(s, k); s.queue[Wrap(s.head + k, |s.queue|)].task)
  }

  lemma ContentsAreWaiting(s: State)
    requires Ring(s)
    ensures Contents(s) == s.accepted[|s.taken|..]
    ensures s.accepted == s.taken + Contents(s)
  {
    forall k | 0 <= k < s.count ensures Contents(s)[k] == s.accepted[|s.taken|..][k] {
      assert CellAt(s, k);
    }
  }

  /** A step of a bounded FIFO queue of the given capacity, open or closed for new tasks. */
  ghost predicate QueueStep(q: seq<Task>, q': seq<Task>, capacity: nat, open: bool) {
    q' == q
    || (exists t :: open && |q| < capacity && q' == q + [t])
    || (q != [] && q' == q[1..])
  }

  /** The ring buffer refines the bounded FIFO queue: a task enters only at the end, before shutdown and
      below capacity; tasks leave only from the front, into the hands of the worker that moves. */
  lemma BufferRefinesQueue(s: State, e: Step)
    requires Reachable(s) && Enabled(s, e)
    ensures Inv(s) && Inv(Apply(s, e))
    ensures QueueStep(Contents(s), Contents(Apply(s, e)), |s.queue|, s.mode == Running)
    ensures e.WorkerMoves? && s.workers[e.i].Take? ==>
      Contents(s) != [] && Apply(s, e).workers[e.i] == Release(Filled(Contents(s)[0])) &&
      Contents(Apply(s, e)) == Contents(s)[1..]
    ensures e.AdderMoves? && s.adders[e.j].Inside? ==>
      Apply(s, e).adders[e.j] ==
        (if |Contents(s)| == |s.queue| then Unlock(QueueFull)
         else if s.mode != Running then Unlock(ShutDown) else Signal) &&
      Contents(Apply(s, e)) ==
        (if |Contents(s)| < |s.queue| && s.mode == Running then Contents(s) + [s.adders[e.j].task] else Contents(s))
  {
    ReachableInv(s);
    StepKeepsInv(s, e);
    var s' := Apply(s, e);
    ContentsAreWaiting(s);
    ContentsAreWaiting(s');
    if e.WorkerMoves? && s.workers[e.i].Take? {
      assert WorkerOk(s, s.workers[e.i]);
      RingOldest(s);
      assert s.accepted[|s.taken|..][1..] == s.accepted[|s.taken| + 1..];
    } else if e.AdderMoves? && s.adders[e.j].Inside? && s'.accepted != s.accepted {
      var t := s.adders[e.j].task;
      assert (s.accepted + [t])[|s.taken|..] == s.accepted[|s.taken|..] + [t];
    } else {
      assert s'.accepted == s.accepted && s'.taken == s.taken;
    }
  }

  lemma BalancedLogs(s: State)
    requires ExactlyOnce(s) && forall k :: 0 <= k < |s.workers| ==> !s.workers[k].Release? && !s.workers[k].Run?
    ensures multiset(s.ran) == multiset(s.taken)
  {
    forall t: Task ensures multiset(s.ran)[t] == multiset(s.taken)[t] {
      assert Balanced(s, t);
      SumAllZero(s.workers, Holding(t));
      TimesIsMultiplicity(s.ran, t);
      TimesIsMultiplicity(s.taken, t);
    }
  }

  /** When threadpool_destroy has returned, the pool is freed, every worker has left and nothing is half done;
      after a graceful shutdown every accepted task has run exactly once. */
  lemma DestroyRunsEverything(s: State)
    requires Reachable(s) && s.destroyer.Finished?
    ensures s.destroyer.freed && s.started == 0 && AllGone(s.workers)
    ensures multiset(s.ran) == multiset(s.taken) && s.taken <= s.accepted
    ensures s.mode == Graceful ==> s.count == 0 && multiset(s.ran) == multiset(s.accepted)
  {
    ReachableInv(s);
    SumAllZero(s.workers, Alive);
    BalancedLogs(s);
    assert WorkerOk(s, s.workers[0]);
    ContentsAreWaiting(s);
  }

  // ---------- the pool always drains ----------

  function Rank(w: Worker): nat {
    match w
    case Release(_) => 7
    case Run(_) => 6
    case Start | Woken => 5
    case Test(_) => 4
    case Decide(_) => 3
    case Take(_) | Leave => 2
    case LeaveUnlock | Blocked => 1
    case Gone => 0
  }

  /** A signal may wake all n workers. */
  function AdderRank(n: nat): Adder -> nat {
    (a: Adder) => match a
    case WantLock(_) => 4 * n + 10
    case Inside(_) => 4 * n + 9
    case Signal => 4 * n + 2
    case Unlock(_) => 1
    case Idle => 0
  }

  function DestroyerRank(d: Destroyer, n: nat): nat {
    match d
    case DWantLock(_) => 5 * n + 9
    case DInside(_) => 5 * n + 8
    case Broadcast => 5 * n + 7
    case DUnlock => n + 6
    case Join(k) => if k <= n then n - k + 4 else 4
    case Free => 2
    case FreeLock => 1
    case NotCalled | Finished(_) => 0
  }

  /** An upper bound on the number of internal steps still to come. */
  function Work(s: State): int {
    Sum(s.workers, Rank) + 6 * s.count + Sum(s.adders, AdderRank(|s.workers|)) + DestroyerRank(s.destroyer, |s.workers|)
  }

  lemma WakeRank(ws: seq<Worker>, wake: set<nat>)
    ensures Sum(Wake(ws, wake), Rank) <= Sum(ws, Rank) + 4 * |ws|
  {
    SumGap(ws, Wake(ws, wake), Rank, 4);
  }

  lemma WorkerUsesWork(s: State, i: nat)
    requires Ring(s) && WorkerEnabled(s, i)
    ensures Work(WorkerStep(s, i)) < Work(s)
  {
    SumUpdate(s.workers, i, WorkerStep(s, i).workers[i], Rank);
  }

  lemma AdderUsesWork(s: State, j: nat, wake: set<nat>)
    requires Ring(s) && AdderEnabled(s, j, wake)
    ensures Work(AdderStep(s, j, wake)) < Work(s)
  {
    WakeRank(s.workers, wake);
    SumUpdate(s.adders, j, AdderStep(s, j, wake).adders[j], AdderRank(|s.workers|));
  }

  lemma DestroyerUsesWork(s: State)
    requires Phase(s) && DestroyerEnabled(s)
    ensures Work(DestroyerStep(s)) < Work(s)
  {
    WakeRank(s.workers, AllBlocked(s.workers));
  }

  lemma InternalStepsRunOut(s: State, e: Step)
    requires Inv(s) && Enabled(s, e) && Internal(e)
    ensures 0 <= Work(Apply(s, e)) < Work(s)
  {
    StepKeepsInv(s, e);
    match e
    case WorkerMoves(i) => WorkerUsesWork(s, i);
    case AdderMoves(j, wake) => AdderUsesWork(s, j, wake);
    case DestroyerMoves => DestroyerUsesWork(s);
  }

  /** However the pool is scheduled, it takes at most Work(s) steps before it needs a new call. */
  lemma {:induction false} RunsAreShort(s: State, steps: seq<Step>, s': State)
    requires Inv(s) && Runs(s, steps, s') && forall k :: 0 <= k < |steps| ==> Internal(steps[k])
    ensures |steps| <= Work(s)
    decreases |steps|
  {
    if steps != [] {
      StepKeepsInv(s, steps[0]);
      InternalStepsRunOut(s, steps[0]);
      RunsAreShort(Apply(s, steps[0]), steps[1..], s');
    }
  }

  ghost predicate Stuck(s: State) {
    forall e :: Internal(e) ==> !Enabled(s, e)
  }

  /** Whoever holds the lock can go on, until threadpool_destroy has returned. */
  lemma HolderMoves(s: State) returns (e: Step)
    requires Inv(s) && s.lock != Nobody && !s.destroyer.Finished?
    ensures Internal(e) && Enabled(s, e)
  {
    match s.lock
    case ByWorker(i) => e := WorkerMoves(i);
    case ByAdder(j) =>
      e := AdderMoves(j, if s.adders[j].Signal? then AllBlocked(s.workers) else {});
      if HasBlocked(s.workers) {
        var k :| 0 <= k < |s.workers| && s.workers[k] == Blocked;
        assert k in AllBlocked(s.workers);
      }
    case ByDestroyer => e := DestroyerMoves;
  }

  /** After it has returned nothing can move any more: its lock on the mutex stays. */
  lemma FinishedIsStuck(s: State)
    requires Inv(s) && s.destroyer.Finished?
    ensures s.lock == ByDestroyer && Stuck(s)
    ensures forall j :: 0 <= j < |s.adders| ==> s.adders[j].Idle? || s.adders[j].WantLock?
  {
    forall e | Internal(e) ensures !Enabled(s, e) {
      if e.AdderMoves? && e.j < |s.adders| {
        assert !AdderHoldsLock(s.adders[e.j]);
      }
    }
  }

  /** Every worker sleeps, no call is under way. */
  ghost predicate Resting(s: State) {
    (forall i :: 0 <= i < |s.workers| ==> s.workers[i].Blocked?) && s.destroyer.NotCalled? &&
    (forall j :: 0 <= j < |s.adders| ==> s.adders[j].Idle?)
  }

  lemma StuckIsResting(s: State)
    requires Inv(s) && Stuck(s) && !s.destroyer.Finished?
    ensures Resting(s)
  {
    if s.lock != Nobody {
      var e := HolderMoves(s);
    }
    forall i | 0 <= i < |s.workers| ensures s.workers[i].Blocked? || s.workers[i].Gone? {
      assert !Enabled(s, WorkerMoves(i));
    }
    forall j | 0 <= j < |s.adders| ensures s.adders[j].Idle? {
      assert !Enabled(s, AdderMoves(j, {}));
    }
    assert !Enabled(s, DestroyerMoves);
    assert forall k :: 0 <= k < |s.workers| ==> s.workers[k] in s.workers;
    forall i | 0 <= i < |s.workers| ensures s.workers[i].Blocked? {
      assert WorkerOk(s, s.workers[i]);
    }
  }

  /** The pool stops exactly when it rests or when threadpool_destroy has returned. */
  lemma StuckIff(s: State)
    requires Inv(s)
    ensures Stuck(s) <==> Resting(s) || s.destroyer.Finished?
  {
    if s.destroyer.Finished? {
      FinishedIsStuck(s);
    } else if Stuck(s) {
      StuckIsResting(s);
    }
  }

  /** The pool can stop only when it is done: either all workers sleep and every call has returned, or
      threadpool_destroy has returned, and then a call of threadpool_add may still wait for the lock; and unless the
      pool was told to stop at once, every accepted task has run exactly once. */
  lemma StuckMeansDrained(s: State)
    requires Reachable(s) && Stuck(s)
    ensures Resting(s) || (AllGone(s.workers) && s.destroyer == Finished(true))
    ensures forall j :: 0 <= j < |s.adders| ==>
      s.adders[j].Idle? || (s.adders[j].WantLock? && s.destroyer.Finished?)
    ensures s.mode != Immediate ==> s.count == 0 && multiset(s.ran) == multiset(s.accepted)
  {
    ReachableInv(s);
    StuckIff(s);
    if s.destroyer.Finished? {
      FinishedIsStuck(s);
      DestroyRunsEverything(s);
    } else {
      RestingIsDrained(s);
    }
  }

  lemma RestingIsDrained(s: State)
    requires Reachable(s) && Inv(s) && Resting(s)
    ensures s.count == 0 && multiset(s.ran) == multiset(s.accepted)
  {
    assert s.lock == Nobody;
    assert s.workers[0] in s.workers;
    NoTaskSleeps(s);
    BalancedLogs(s);
    ContentsAreWaiting(s);
  }

  // ---------- calls that never return ----------

  /** A call of threadpool_add that waits when threadpool_destroy returns waits for ever, whatever else happens. */
  lemma {:induction false} LateAddHangs(s: State, j: nat, task: Task, steps: seq<Step>, s': State)
    requires Inv(s) && s.destroyer.Finished? && j < |s.adders| && s.adders[j] == WantLock(task)
    requires Runs(s, steps, s')
    ensures j < |s'.adders| && s'.adders[j] == WantLock(task)
    decreases |steps|
  {
    if steps != [] {
      FinishedIsStuck(s);
      StepKeepsInv(s, steps[0]);
      LateAddHangs(Apply(s, steps[0]), j, task, steps[1..], s');
    }
  }

  predicate MovesAdder(e: Step, j: nat) {
    e.AdderMoves? && e.j == j
  }

  /** Without a step of its own, a waiting call goes on waiting. */
  lemma {:induction false} OnlyItsOwnSteps(s: State, j: nat, steps: seq<Step>, s': State)
    requires j < |s.adders| && s.adders[j].WantLock? && Runs(s, steps, s')
    requires forall k :: 0 <= k < |steps| ==> !MovesAdder(steps[k], j)
    ensures |s'.adders| == |s.adders| && s'.adders[j] == s.adders[j]
    decreases |steps|
  {
    if steps != [] {
      assert !MovesAdder(steps[0], j);
      OnlyItsOwnSteps(Apply(s, steps[0]), j, steps[1..], s');
    }
  }

  /** No internal step begins a call, so a call that has got the lock does not wait for it again. */
  lemma {:induction false} NeverWaitsAgain(s: State, j: nat, steps: seq<Step>, s': State)
    requires j < |s.adders| && !s.adders[j].WantLock? && Runs(s, steps, s')
    requires forall k :: 0 <= k < |steps| ==> Internal(steps[k])
    ensures |s'.adders| == |s.adders| && !s'.adders[j].WantLock?
    decreases |steps|
  {
    if steps != [] {
      assert Internal(steps[0]);
      NeverWaitsAgain(Apply(s, steps[0]), j, steps[1..], s');
    }
  }

  lemma {:induction false} GotTheLock(s: State, j: nat, steps: seq<Step>, s': State)
    requires j < |s.adders| && s.adders[j].WantLock? && Runs(s, steps, s')
    requires forall k :: 0 <= k < |steps| ==> Internal(steps[k])
    requires exists k :: 0 <= k < |steps| && MovesAdder(steps[k], j)
    ensures |s'.adders| == |s.adders| && !s'.adders[j].WantLock?
    decreases |steps|
  {
    var k :| 0 <= k < |steps| && MovesAdder(steps[k], j);
    assert Internal(steps[0]);
    var rest := steps[1..];
    if MovesAdder(steps[0], j) {
      NeverWaitsAgain(Apply(s, steps[0]), j, rest, s');
    } else {
      assert rest[k - 1] == steps[k];
      GotTheLock(Apply(s, steps[0]), j, rest, s');
    }
  }

  /** Let the pool run until it stops, as it must: a call that was waiting for the lock has then returned if and only
      if it got the lock before threadpool_destroy took it for good. */
  lemma AddReturnsIff(s: State, j: nat, steps: seq<Step>, s': State)
    requires Inv(s) && j < |s.adders| && s.adders[j].WantLock? && Runs(s, steps, s') && Stuck(s')
    requires forall k :: 0 <= k < |steps| ==> Internal(steps[k])
    ensures |s'.adders| == |s.adders|
    ensures s'.adders[j].Idle? <==> exists k :: 0 <= k < |steps| && MovesAdder(steps[k], j)
    ensures !s'.adders[j].Idle? ==> s'.destroyer.Finished? && s'.adders[j] == s.adders[j]
  {
    RunKeepsInv(s, steps, s');
    StuckIff(s');
    if s'.destroyer.Finished? {
      FinishedIsStuck(s');
    }
    if exists k :: 0 <= k < |steps| && MovesAdder(steps[k], j) {
      GotTheLock(s, j, steps, s');
    } else {
      OnlyItsOwnSteps(s, j, steps, s');
    }
  }

  // ---------- what a call returns ----------

  /** Step e of state m, in which the call of adder j for task t tests the pool, leads to the outcome: the queue was
      full; or it was not, and the pool had been shut down; or else the task, and nothing else, was accepted. */
  ghost predicate Decides(m: State, j: nat, t: Task, outcome: Outcome) {
    Ring(m) && j < |m.adders| && m.adders[j] == Inside(t) && Enabled(m, AdderMoves(j, {})) &&
    (var m' := Apply(m, AdderMoves(j, {}));
     (outcome == QueueFull <==> |Contents(m)| == |m.queue|) &&
     (outcome == ShutDown <==> |Contents(m)| < |m.queue| && m.mode != Running) &&
     (outcome == Accepted <==> m'.accepted == m.accepted + [t]) &&
     (outcome != Accepted ==> m' == m.(adders := m'.adders)))
  }

  /** No new call of the same client begins. */
  ghost predicate SameCall(steps: seq<Step>, j: nat) {
    forall k :: 0 <= k < |steps| ==> !(steps[k].AddCalled? && steps[k].j == j)
  }

  lemma {:induction false} LastStep(s: State, steps: seq<Step>, s': State) returns (m: State)
    requires steps != [] && Runs(s, steps, s')
    ensures Runs(s, steps[..|steps| - 1], m)
    ensures Enabled(m, steps[|steps| - 1]) && s' == Apply(m, steps[|steps| - 1])
    decreases |steps|
  {
    if |steps| == 1 {
      m := s;
      assert steps[1..] == [];
    } else {
      m := LastStep(Apply(s, steps[0]), steps[1..], s');
      assert steps[1..][..|steps| - 2] == steps[..|steps| - 1][1..];
    }
  }

  /** The result that a call is about to return. */
  predicate Returning(a: Adder, outcome: Outcome) {
    a == Unlock(outcome) || (a.Signal? && outcome == Accepted)
  }

  /** Whatever a call returns was decided by one test of this call. */
  lemma {:induction false} CallDecided(s: State, steps: seq<Step>, s': State, j: nat, outcome: Outcome)
      returns (t: Task, m: State, before: seq<Step>, after: seq<Step>)
    requires Inv(s) && (forall k :: 0 <= k < |s.adders| ==> s.adders[k].Idle?) && Runs(s, steps, s')
    requires j < |s'.adders| && Returning(s'.adders[j], outcome)
    ensures Runs(s, before, m) && Decides(m, j, t, outcome)
    ensures Runs(Apply(m, AdderMoves(j, {})), after, s') && SameCall(after, j)
    decreases |steps|
  {
    var e, init := steps[|steps| - 1], steps[..|steps| - 1];
    var last := LastStep(s, steps, s');
    RunKeepsInv(s, init, last);
    if MovesAdder(e, j) && last.adders[j].Inside? {
      t, m, before, after := last.adders[j].task, last, init, [];
      TestDecides(m, e, j, t, outcome);
    } else {
      BeforeReturning(last, e, j, outcome);
      t, m, before, after := CallDecided(s, init, last, j, outcome);
      CallGoesOn(Apply(m, AdderMoves(j, {})), after, last, e, j);
      after := after + [e];
    }
  }

  lemma CallGoesOn(s: State, steps: seq<Step>, s': State, e: Step, j: nat)
    requires Runs(s, steps, s') && Enabled(s', e) && SameCall(steps, j) && !(e.AddCalled? && e.j == j)
    ensures Runs(s, steps + [e], Apply(s', e)) && SameCall(steps + [e], j)
  {
    RunsOn(s, steps, s', e);
  }

  lemma BeforeReturning(s: State, e: Step, j: nat, outcome: Outcome)
    requires Enabled(s, e) && j < |s.adders| && Returning(Apply(s, e).adders[j], outcome)
    ensures (MovesAdder(e, j) && s.adders[j].Inside?) || Returning(s.adders[j], outcome)
    ensures !(e.AddCalled? && e.j == j)
  {
  }

  lemma TestDecides(s: State, e: Step, j: nat, t: Task, outcome: Outcome)
    requires Inv(s) && Enabled(s, e) && MovesAdder(e, j) && s.adders[j] == Inside(t)
    requires Returning(Apply(s, e).adders[j], outcome)
    ensures e == AdderMoves(j, {}) && Decides(s, j, t, outcome)
  {
    StepKeepsInv(s, e);
    var s' := Apply(s, e);
    assert s.accepted != s.accepted + [t];
  }

  lemma {:induction false} AcceptedStays(s: State, steps: seq<Step>, s': State)
    requires Runs(s, steps, s')
    ensures s.accepted <= s'.accepted
    decreases |steps|
  {
    if steps != [] {
      AcceptedStays(Apply(s, steps[0]), steps[1..], s');
    }
  }

  /** In every reachable state, what a call of threadpool_add is about to return is what its own test of the pool
      gave: it has put its task among the accepted ones if and only if it returns success. */
  lemma OutcomeOfCall(s: State, j: nat, outcome: Outcome) returns (t: Task, m: State, after: seq<Step>)
    requires Reachable(s) && j < |s.adders| && Returning(s.adders[j], outcome)
    ensures Reachable(m) && Decides(m, j, t, outcome)
    ensures Runs(Apply(m, AdderMoves(j, {})), after, s) && SameCall(after, j)
    ensures outcome == Accepted ==> |m.accepted| < |s.accepted| && s.accepted[|m.accepted|] == t
  {
    var threads: int, size: int, clients: nat, steps :| Runs(Create(threads, size, clients), steps, s);
    InitialInv(threads, size, clients);
    var before;
    t, m, before, after := CallDecided(Create(threads, size, clients), steps, s, j, outcome);
    AcceptedStays(Apply(m, AdderMoves(j, {})), after, s);
    if outcome == Accepted {
      assert Apply(m, AdderMoves(j, {})).accepted[|m.accepted|] == t;
    }
  }

  // ---------- which calls can hang ----------

  /** The pool runs by itself until it stops. */
  ghost predicate Stops(s: State, steps: seq<Step>, s': State) {
    Runs(s, steps, s') && Stuck(s') && forall k :: 0 <= k < |steps| ==> Internal(steps[k])
  }

  lemma StopsAfter(s: State, e: Step, steps: seq<Step>, s': State)
    requires Enabled(s, e) && Internal(e) && Stops(Apply(s, e), steps, s')
    ensures Stops(s, [e] + steps, s')
  {
    assert ([e] + steps)[1..] == steps;
  }

  /** Sooner or later it stops. */
  lemma {:induction false} SomeRunStops(s: State) returns (steps: seq<Step>, s': State)
    requires Inv(s)
    ensures Stops(s, steps, s')
    decreases Work(s)
  {
    if Stuck(s) {
      steps, s' := [], s;
    } else {
      var e :| Internal(e) && Enabled(s, e);
      StepKeepsInv(s, e);
      InternalStepsRunOut(s, e);
      steps, s' := SomeRunStops(Apply(s, e));
      StopsAfter(s, e, steps, s');
      steps := [e] + steps;
    }
  }

  /** Until threadpool_destroy has returned, its caller can wait only for threads other than a given waiting one. */
  lemma OthersMove(s: State, j: nat) returns (e: Step)
    requires Inv(s) && j < |s.adders| && s.adders[j].WantLock? && !s.destroyer.NotCalled? && !s.destroyer.Finished?
    ensures Internal(e) && Enabled(s, e) && !MovesAdder(e, j)
  {
    if s.lock != Nobody {
      e := HolderMoves(s);
    } else if s.destroyer.Join? && s.destroyer.next < |s.workers| && s.workers[s.destroyer.next] != Gone {
      e := WorkerMoves(s.destroyer.next);
      assert WorkerOk(s, s.workers[s.destroyer.next]);
    } else {
      e := DestroyerMoves;
    }
  }

  lemma StillWaits(s: State, e: Step, j: nat)
    requires Enabled(s, e) && Internal(e) && !MovesAdder(e, j) && j < |s.adders| && !s.destroyer.NotCalled?
    ensures j < |Apply(s, e).adders| && Apply(s, e).adders[j] == s.adders[j] && !Apply(s, e).destroyer.NotCalled?
  {
  }

  /** Once threadpool_destroy has been called, the pool can stop without ever letting the waiting call in. */
  lemma {:induction false} PassedOver(s: State, j: nat) returns (steps: seq<Step>, s': State)
    requires Inv(s) && j < |s.adders| && s.adders[j].WantLock? && !s.destroyer.NotCalled?
    ensures Stops(s, steps, s') && j < |s'.adders| && s'.adders[j] == s.adders[j]
    decreases Work(s)
  {
    if s.destroyer.Finished? {
      FinishedIsStuck(s);
      steps, s' := [], s;
    } else {
      var e := OthersMove(s, j);
      StillWaits(s, e, j);
      StepKeepsInv(s, e);
      InternalStepsRunOut(s, e);
      steps, s' := PassedOver(Apply(s, e), j);
      StopsAfter(s, e, steps, s');
      steps := [e] + steps;
    }
  }

  /** Until threadpool_destroy has returned, the waiting call can get the lock as soon as it is free. */
  lemma {:induction false} LetIn(s: State, j: nat) returns (steps: seq<Step>, s': State)
    requires Inv(s) && j < |s.adders| && s.adders[j].WantLock? && !s.destroyer.Finished?
    ensures Stops(s, steps, s') && j < |s'.adders| && s'.adders[j].Idle?
    decreases Work(s)
  {
    if s.lock == Nobody {
      var e := AdderMoves(j, {});
      StepKeepsInv(s, e);
      steps, s' := SomeRunStops(Apply(s, e));
      StopsAfter(s, e, steps, s');
      steps := [e] + steps;
      assert MovesAdder(steps[0], j);
      AddReturnsIff(s, j, steps, s');
    } else {
      var e := HolderMoves(s);
      StepKeepsInv(s, e);
      InternalStepsRunOut(s, e);
      HolderIsNotLast(s, j, e);
      steps, s' := LetIn(Apply(s, e), j);
      StopsAfter(s, e, steps, s');
      steps := [e] + steps;
    }
  }

  lemma HolderIsNotLast(s: State, j: nat, e: Step)
    requires Inv(s) && s.lock != Nobody && Enabled(s, e) && Internal(e) && !s.destroyer.Finished?
    requires j < |s.adders| && s.adders[j].WantLock?
    ensures j < |Apply(s, e).adders| && Apply(s, e).adders[j].WantLock? && !Apply(s, e).destroyer.Finished?
  {
    if s.destroyer.Free? {
      SumAllZero(s.workers, Alive);
    }
  }

  lemma {:induction false} NotCalledByItself(s: State, steps: seq<Step>, s': State)
    requires s.destroyer.NotCalled? && Runs(s, steps, s') && forall k :: 0 <= k < |steps| ==> Internal(steps[k])
    ensures s'.destroyer.NotCalled? && |s'.adders| == |s.adders|
    decreases |steps|
  {
    if steps != [] {
      assert Internal(steps[0]);
      NotCalledByItself(Apply(s, steps[0]), steps[1..], s');
    }
  }

  /** A waiting call is sure to return if and only if threadpool_destroy has not been called. */
  lemma SureToReturnIff(s: State, j: nat)
    requires Inv(s) && j < |s.adders| && s.adders[j].WantLock?
    ensures (forall steps, s' :: Stops(s, steps, s') ==> j < |s'.adders| && s'.adders[j].Idle?) <==>
      s.destroyer.NotCalled?
  {
    if s.destroyer.NotCalled? {
      forall steps, s' | Stops(s, steps, s') ensures j < |s'.adders| && s'.adders[j].Idle? {
        NotCalledByItself(s, steps, s');
        RunKeepsInv(s, steps, s');
        StuckIff(s');
      }
    } else {
      var steps, s' := PassedOver(s, j);
    }
  }

  /** It can still return if and only if threadpool_destroy has not returned. */
  lemma CanReturnIff(s: State, j: nat)
    requires Inv(s) && j < |s.adders| && s.adders[j].WantLock?
    ensures (exists steps, s' :: Stops(s, steps, s') && j < |s'.adders| && s'.adders[j].Idle?) <==>
      !s.destroyer.Finished?
  {
    if s.destroyer.Finished? {
      forall steps, s' | Stops(s, steps, s') ensures j < |s'.adders| && !s'.adders[j].Idle? {
        LateAddHangs(s, j, s.adders[j].task, steps, s');
      }
    } else {
      var steps, s' := LetIn(s, j);
    }
  }

  lemma {:induction false} RunsOn(s: State, steps: seq<Step>, s': State, e: Step)
    requires Runs(s, steps, s') && Enabled(s', e)
    ensures Runs(s, steps + [e], Apply(s', e))
    decreases |steps|
  {
    if steps == [] {
      assert (steps + [e])[1..] == [];
    } else {
      RunsOn(Apply(s, steps[0]), steps[1..], s', e);
      assert (steps + [e])[1..] == steps[1..] + [e];
    }
  }

  lemma ReachesOn(s: State, e: Step)
    requires Reachable(s) && Enabled(s, e)
    ensures Reachable(Apply(s, e))
  {
    var threads: int, size: int, clients: nat, steps :| Runs(Create(threads, size, clients), steps, s);
    RunsOn(Create(threads, size, clients), steps, s, e);
  }

  /** A pool with one thread, a call of threadpool_add that comes too late, and threadpool_destroy. */
  function LateAdd(task: Task, lock: Holder, mode: Mode, started: int, worker: Worker, destroyer: Destroyer): State {
    State([Empty], 0, 0, 0, mode, started, lock, [worker], [WantLock(task)], destroyer, [], [], [])
  }

  lemma LateAddStarts(task: Task)
    ensures Reachable(LateAdd(task, Nobody, Running, 1, Start, NotCalled))
  {
    var s := Create(1, 1, 1);
    assert Runs(s, [], s);
    ReachesOn(s, AddCalled(0, task));
    var s' := LateAdd(task, Nobody, Running, 1, Start, NotCalled);
    assert Apply(s, AddCalled(0, task)) == s';
  }

  lemma LateAddDestroy(task: Task)
    ensures Reachable(LateAdd(task, Nobody, Immediate, 1, Start, Join(0)))
  {
    LateAddStarts(task);
    ReachesOn(LateAdd(task, Nobody, Running, 1, Start, NotCalled), DestroyCalled(Immediate));
    ReachesOn(LateAdd(task, Nobody, Running, 1, Start, DWantLock(Immediate)), DestroyerMoves);
    ReachesOn(LateAdd(task, ByDestroyer, Running, 1, Start, DInside(Immediate)), DestroyerMoves);
    var s := LateAdd(task, ByDestroyer, Immediate, 1, Start, Broadcast);
    ReachesOn(s, DestroyerMoves);
    assert Wake(s.workers, AllBlocked(s.workers)) == s.workers;
    ReachesOn(LateAdd(task, ByDestroyer, Immediate, 1, Start, DUnlock), DestroyerMoves);
  }

  lemma WorkerReaches(s: State, s': State)
    requires Reachable(s) && Enabled(s, WorkerMoves(0)) && |s.workers| == |s'.workers| == 1
    requires s' == WorkerStep(s, 0).(workers := s'.workers) && s'.workers[0] == WorkerStep(s, 0).workers[0]
    ensures Reachable(s')
  {
    ReachesOn(s, WorkerMoves(0));
    assert s'.workers == WorkerStep(s, 0).workers;
  }

  lemma LateAddWorker(task: Task)
    ensures Reachable(LateAdd(task, Nobody, Immediate, 0, Gone, Join(0)))
  {
    LateAddDestroy(task);
    var start := LateAdd(task, Nobody, Immediate, 1, Start, Join(0));
    var test := LateAdd(task, ByWorker(0), Immediate, 1, Test(false), Join(0));
    var decide := LateAdd(task, ByWorker(0), Immediate, 1, Decide(false), Join(0));
    var leave := LateAdd(task, ByWorker(0), Immediate, 1, Leave, Join(0));
    var unlock := LateAdd(task, ByWorker(0), Immediate, 0, LeaveUnlock, Join(0));
    WorkerReaches(start, test);
    WorkerReaches(test, decide);
    WorkerReaches(decide, leave);
    WorkerReaches(leave, unlock);
    WorkerReaches(unlock, LateAdd(task, Nobody, Immediate, 0, Gone, Join(0)));
  }

  /** There is a run in which a call of threadpool_add hangs for ever. */
  lemma SomeAddHangs(task: Task) returns (s: State)
    ensures Reachable(s) && Stuck(s) && s.destroyer.Finished? && |s.adders| == 1 && s.adders[0] == WantLock(task)
  {
    LateAddWorker(task);
    ReachesOn(LateAdd(task, Nobody, Immediate, 0, Gone, Join(0)), DestroyerMoves);
    ReachesOn(LateAdd(task, Nobody, Immediate, 0, Gone, Join(1)), DestroyerMoves);
    ReachesOn(LateAdd(task, Nobody, Immediate, 0, Gone, Free), DestroyerMoves);
    ReachesOn(LateAdd(task, Nobody, Immediate, 0, Gone, FreeLock), DestroyerMoves);
    s := LateAdd(task, ByDestroyer, Immediate, 0, Gone, Finished(true));
    ReachableInv(s);
    FinishedIsStuck(s);
  }
}
