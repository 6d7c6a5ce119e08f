/**
The background jobs of one type (bio.c:94-154): any number of threads that create
jobs or ask how many are pending, and the worker. Every step between two
operations on shared state is a step of its own, and the steps of the threads
interleave in any way the mutex allows.
*/
module Bio {
  type Job = nat

  /** Where a thread stands: in bioCreateBackgroundJob or bioPendingJobsOfType.
      `Answer` holds the value read and how many jobs had been created by then. */
  datatype Client =
    | Idle
    | Creating(job: Job) | CreateLocked(job: Job) | Listed | Counted | Signalled
    | Asking | AskLocked | Answer(val: int, seen: nat)

  /** Where the worker stands in its loop; `job` is the one it has taken. */
  datatype Worker =
    | Top | Waiting(woken: bool) | Taken(job: Job) | Running(job: Job)
    | Ran(job: Job) | Relocked(job: Job) | Unlisted

  datatype Holder = Free | ByWorker | ByClient(id: nat)

  /** `created` and `executed` are the jobs in the order in which they were listed
      and processed. */
  datatype State = State(
    mutex: Holder, jobs: seq<Job>, pending: int, worker: Worker, clients: map<nat, Client>,
    created: seq<Job>, executed: seq<Job>)

  const START: State := State(ByWorker, [], 0, Top, map[], [], [])

  datatype Event = Create(id: nat, job: Job) | Ask(id: nat) | ClientMoves(id: nat) | WorkerMoves

  function At(s: State, id: nat): Client {
    if id in s.clients then s.clients[id] else Idle
  }

  function Put(s: State, id: nat, c: Client): State {
    s.(clients := s.clients[id := c])
  }

  predicate Enabled(s: State, e: Event) {
    match e
    case Create(id, _) => At(s, id).Idle?
    case Ask(id) => At(s, id).Idle?
    case ClientMoves(id) =>
      (match At(s, id)
       case Idle => false
       case Creating(_) => s.mutex.Free?
       case Asking => s.mutex.Free?
       case _ => true)
    case WorkerMoves =>
      (match s.worker
       case Waiting(_) => s.mutex.Free?
       case Ran(_) => s.mutex.Free?
       case _ => true)
  }

  function ClientStep(s: State, id: nat): State {
    match At(s, id)
    case Idle => s
    case Creating(job) => Put(s, id, CreateLocked(job)).(mutex := ByClient(id))
    case CreateLocked(job) => Put(s, id, Listed).(jobs := s.jobs + [job], created := s.created + [job])
    case Listed => Put(s, id, Counted).(pending := s.pending + 1)
    case Counted => Put(s, id, Signalled).(worker := if s.worker.Waiting? then Waiting(true) else s.worker)
    case Signalled => Put(s, id, Idle).(mutex := Free)
    case Asking => Put(s, id, AskLocked).(mutex := ByClient(id))
    case AskLocked => Put(s, id, Answer(s.pending, |s.created|))
    case Answer(_, _) => Put(s, id, Idle).(mutex := Free)
  }

  /** A wait may also end without a signal. */
  function WorkerStep(s: State): State {
    match s.worker
    case Top =>
      if s.jobs == [] then s.(worker := Waiting(false), mutex := Free)
      else s.(worker := Taken(s.jobs[0]))
    case Waiting(_) => s.(worker := Top, mutex := ByWorker)
    case Taken(job) => s.(worker := Running(job), mutex := Free)
    case Running(job) => s.(worker := Ran(job), executed := s.executed + [job])
    case Ran(job) => s.(worker := Relocked(job), mutex := ByWorker)
    case Relocked(_) => s.(worker := Unlisted, jobs := if s.jobs == [] then [] else s.jobs[1..])
    case Unlisted => s.(worker := Top, pending := s.pending - 1)
  }

  function Next(s: State, e: Event): State {
    match e
    case Create(id, job) => Put(s, id, Creating(job))
    case Ask(id) => Put(s, id, Asking)
    case ClientMoves(id) => ClientStep(s, id)
    case WorkerMoves => WorkerStep(s)
  }

  ghost predicate EnabledRun(s: State, es: seq<Event>)
    decreases |es|
  {
    es != [] ==> Enabled(s, es[0]) && EnabledRun(Next(s, es[0]), es[1..])
  }

  ghost function Run(s: State, es: seq<Event>): State
    decreases |es|
  {
    if es == [] then s else Run(Next(s, es[0]), es[1..])
  }

  // ---- the invariant --------------------------------------------------------

  /** Inside its critical section. */
  predicate Inside(c: Client) {
    !c.Idle? && !c.Creating? && !c.Asking?
  }

  predicate WorkerInside(w: Worker) {
    w.Top? || w.Taken? || w.Relocked? || w.Unlisted?
  }

  predicate MutexOk(s: State) {
    && (WorkerInside(s.worker) <==> s.mutex.ByWorker?)
    && (forall id :: id in s.clients ==> (Inside(s.clients[id]) <==> s.mutex == ByClient(id)))
    && (s.mutex.ByClient? ==> s.mutex.id in s.clients)
  }

  /** What the holder of the mutex has changed of the list but not yet of the
      counter. */
  function Owed(s: State): int {
    if s.worker.Unlisted? then 1
    else if s.mutex.ByClient? && At(s, s.mutex.id).Listed? then -1
    else 0
  }

  /** The job the worker is busy with, once it has run it and until it has removed it. */
  function Finished(s: State): seq<Job> {
    if s.worker.Ran? || s.worker.Relocked? then [s.worker.job] else []
  }

  predicate Busy(w: Worker) { w.Taken? || w.Running? || w.Ran? || w.Relocked? }

  /** Whether a thread has listed a job and not yet signalled. */
  predicate Unsignalled(s: State) {
    s.mutex.ByClient? && (At(s, s.mutex.id).Listed? || At(s, s.mutex.id).Counted?)
  }

  /** The list, the counter and what has been executed. */
  predicate QueueOk(s: State) {
    && s.pending == |s.jobs| + Owed(s)
    && |s.jobs| <= |s.created|
    && s.created[|s.created| - |s.jobs|..] == s.jobs
    && s.executed == s.created[..|s.created| - |s.jobs|] + Finished(s)
    && (Busy(s.worker) ==> s.jobs != [] && s.jobs[0] == s.worker.job)
    && (s.worker == Waiting(false) && s.jobs != [] ==> Unsignalled(s))
  }

  predicate AnswersOk(s: State) {
    forall id :: id in s.clients && s.clients[id].Answer? ==> AnswerOk(s, s.clients[id])
  }

  predicate Inv(s: State) {
    MutexOk(s) && QueueOk(s) && AnswersOk(s)
  }

  /** An answer of zero: all jobs created before it was read have been executed. */
  predicate AnswerOk(s: State, c: Client)
    requires c.Answer?
  {
    c.seen <= |s.created| && c.val >= 0 && (c.val == 0 ==> c.seen <= |s.executed|)
  }

  lemma WorkerMutex(s: State)
    requires MutexOk(s) && Enabled(s, WorkerMoves)
    ensures MutexOk(WorkerStep(s))
  {
  }

  lemma ClientMutex(s: State, id: nat)
    requires MutexOk(s) && Enabled(s, ClientMoves(id))
    ensures MutexOk(ClientStep(s, id))
  {
    var t := ClientStep(s, id);
    if id in s.clients {
      assert Inside(s.clients[id]) <==> s.mutex == ByClient(id);
    }
    forall d | d in t.clients ensures Inside(t.clients[d]) <==> t.mutex == ByClient(d) {
      if d != id { assert Inside(s.clients[d]) <==> s.mutex == ByClient(d); }
    }
  }

  /** The worker holds the mutex when it works on the list, so no client owes
      anything then. */
  lemma WorkerQueue(s: State)
    requires MutexOk(s) && QueueOk(s) && Enabled(s, WorkerMoves)
    ensures QueueOk(WorkerStep(s))
  {
    hide MutexOk;
    WorkerAlone(s);
    var cut := |s.created| - |s.jobs|;
    if s.worker.Relocked? {
      Removed(s.created, cut, s.jobs);
    } else if s.worker.Running? {
      assert s.created[..cut] + [] + [s.worker.job] == s.created[..cut] + [s.worker.job];
    }
  }

  lemma WorkerAlone(s: State)
    requires MutexOk(s) && Enabled(s, WorkerMoves)
    ensures s.worker.Running? || s.mutex.ByWorker? || s.mutex.Free?
    ensures WorkerInside(s.worker) <==> s.mutex.ByWorker?
  {
  }

  lemma Removed(created: seq<Job>, cut: nat, jobs: seq<Job>)
    requires cut < |created| && created[cut..] == jobs
    ensures created[cut + 1..] == jobs[1..] && created[..cut + 1] == created[..cut] + [jobs[0]]
    ensures created[..cut + 1] + [] == created[..cut + 1]
  {
    assert created[cut] == created[cut..][0];
    assert created[cut + 1..] == created[cut..][1..];
  }

  lemma {:induction false} ClientQueue(s: State, id: nat)
    requires MutexOk(s) && QueueOk(s) && Enabled(s, ClientMoves(id))
    ensures QueueOk(ClientStep(s, id))
  {
    hide MutexOk;
    ClientAlone(s, id);
    if At(s, id).CreateLocked? { JobAdded(s, id); } else { ListKept(s, id); }
  }

  lemma JobAdded(s: State, id: nat)
    requires QueueOk(s) && At(s, id).CreateLocked? && s.mutex == ByClient(id) && !WorkerInside(s.worker)
    ensures QueueOk(ClientStep(s, id))
  {
    Added(s.created, |s.created| - |s.jobs|, At(s, id).job);
  }

  lemma ListKept(s: State, id: nat)
    requires QueueOk(s) && Enabled(s, ClientMoves(id)) && !At(s, id).CreateLocked? && !WorkerInside(s.worker)
    requires if Inside(At(s, id)) then s.mutex == ByClient(id) else s.mutex.Free?
    ensures QueueOk(ClientStep(s, id))
  {
    CounterKept(s, id);
    hide ClientStep, Owed, Unsignalled;
  }

  /** The list stays, the counter catches up with it, and who signals wakes the worker. */
  lemma CounterKept(s: State, id: nat)
    requires Enabled(s, ClientMoves(id)) && !At(s, id).CreateLocked? && !WorkerInside(s.worker)
    requires if Inside(At(s, id)) then s.mutex == ByClient(id) else s.mutex.Free?
    ensures var t := ClientStep(s, id);
      && t.jobs == s.jobs && t.created == s.created && t.executed == s.executed
      && t.pending - Owed(t) == s.pending - Owed(s)
      && (t.worker == s.worker || (s.worker.Waiting? && t.worker == Waiting(true)))
      && (t.worker == Waiting(false) && Unsignalled(s) ==> Unsignalled(t))
  {
  }

  lemma ClientAlone(s: State, id: nat)
    requires MutexOk(s) && Enabled(s, ClientMoves(id))
    ensures if Inside(At(s, id)) then s.mutex == ByClient(id) else s.mutex.Free?
    ensures !WorkerInside(s.worker)
  {
  }

  lemma Added(created: seq<Job>, cut: nat, job: Job)
    requires cut <= |created|
    ensures (created + [job])[cut..] == created[cut..] + [job] && (created + [job])[..cut] == created[..cut]
  {
  }

  lemma AllExecuted(s: State)
    requires QueueOk(s) && s.mutex.ByClient? && At(s, s.mutex.id).AskLocked? && !WorkerInside(s.worker)
    ensures s.pending == |s.jobs|
    ensures s.pending == 0 ==> |s.executed| >= |s.created|
  {
  }

  lemma MoreAnswers(s: State, t: State)
    requires AnswersOk(s) && |s.created| <= |t.created| && |s.executed| <= |t.executed|
    requires forall id :: id in t.clients && t.clients[id].Answer? ==>
      (id in s.clients && s.clients[id] == t.clients[id]) || AnswerOk(t, t.clients[id])
    ensures AnswersOk(t)
  {
    forall id | id in t.clients && t.clients[id].Answer? ensures AnswerOk(t, t.clients[id]) {
      if id in s.clients && s.clients[id] == t.clients[id] { assert AnswerOk(s, s.clients[id]); }
    }
  }

  lemma WorkerKeeps(s: State)
    requires Inv(s) && Enabled(s, WorkerMoves)
    ensures Inv(WorkerStep(s))
  {
    hide MutexOk, QueueOk, AnswersOk, AnswerOk;
    WorkerMutex(s);
    WorkerQueue(s);
    MoreAnswers(s, WorkerStep(s));
  }

  lemma ClientKeeps(s: State, id: nat)
    requires Inv(s) && Enabled(s, ClientMoves(id))
    ensures Inv(ClientStep(s, id))
  {
    hide MutexOk, QueueOk, AnswersOk;
    ClientMutex(s, id);
    ClientQueue(s, id);
    if At(s, id).AskLocked? {
      ClientAlone(s, id);
      AllExecuted(s);
    }
    MoreAnswers(s, ClientStep(s, id));
  }

  lemma BeginKeeps(s: State, e: Event)
    requires Inv(s) && Enabled(s, e) && (e.Create? || e.Ask?)
    ensures Inv(Next(s, e))
  {
    BeginMutex(s, e);
    hide MutexOk, AnswersOk, AnswerOk, WorkerStep, ClientStep;
    MoreAnswers(s, Next(s, e));
  }

  lemma BeginMutex(s: State, e: Event)
    requires MutexOk(s) && Enabled(s, e) && (e.Create? || e.Ask?)
    ensures MutexOk(Next(s, e))
    ensures s.mutex != ByClient(e.id)
  {
    var t := Next(s, e);
    forall d | d in t.clients ensures Inside(t.clients[d]) <==> t.mutex == ByClient(d) {
      if d in s.clients { assert Inside(s.clients[d]) <==> s.mutex == ByClient(d); }
    }
  }

  lemma {:induction false} NextKeeps(s: State, e: Event)
    requires Inv(s) && Enabled(s, e)
    ensures Inv(Next(s, e))
  {
    hide Inv, ClientStep, WorkerStep;
    match e
    case Create(_, _) => BeginKeeps(s, e);
    case Ask(_) => BeginKeeps(s, e);
    case ClientMoves(id) => ClientKeeps(s, id);
    case WorkerMoves => WorkerKeeps(s);
  }

  lemma {:induction false} RunKeeps(s: State, es: seq<Event>)
    requires Inv(s) && EnabledRun(s, es)
    ensures Inv(Run(s, es))
    decreases |es|
  {
    hide Inv, Next, Enabled;
    if es != [] {
      NextKeeps(s, es[0]);
      RunKeeps(Next(s, es[0]), es[1..]);
    }
  }

  /** A thread that has read zero knows that the jobs created before have been
      executed. */
  predicate Informed(s: State, c: Client) {
    c.Answer? && c.val == 0 ==> c.seen <= |s.created| && s.created[..c.seen] <= s.executed
  }

  /**
  In every interleaving: jobs are executed at most once and in the order in which
  they were created, and only listed ones wait; whenever the mutex is free the
  counter is the length of the list; a thread that reads zero is informed; and the
  worker sleeps only when there is nothing to do, unless a signal is on its way.
  */
  lemma EveryInterleaving(es: seq<Event>)
    requires EnabledRun(START, es)
    ensures var s := Run(START, es);
      && s.executed <= s.created
      && |s.created| - |s.executed| <= |s.jobs|
      && (s.mutex.Free? ==> s.pending == |s.jobs|)
      && (forall id :: id in s.clients ==> Informed(s, s.clients[id]))
      && (s.mutex.Free? && s.worker == Waiting(false) ==> s.executed == s.created)
  {
    hide Next, Enabled;
    StartOk();
    RunKeeps(START, es);
    Consequences(Run(START, es));
  }

  lemma StartOk()
    ensures Inv(START)
  {
  }

  lemma Consequences(s: State)
    requires Inv(s)
    ensures s.executed <= s.created && |s.created| - |s.executed| <= |s.jobs|
    ensures s.mutex.Free? ==> s.pending == |s.jobs|
    ensures forall id :: id in s.clients ==> Informed(s, s.clients[id])
    ensures s.mutex.Free? && s.worker == Waiting(false) ==> s.executed == s.created
  {
    Prefix(s);
    hide AnswerOk, AnswersOk;
    forall id | id in s.clients ensures Informed(s, s.clients[id]) {
      if s.clients[id].Answer? { Told(s, id); }
    }
  }

  lemma Told(s: State, id: nat)
    requires AnswersOk(s) && s.executed <= s.created && id in s.clients && s.clients[id].Answer?
    ensures Informed(s, s.clients[id])
  {
    assert AnswerOk(s, s.clients[id]);
  }

  lemma Prefix(s: State)
    requires QueueOk(s)
    ensures s.executed <= s.created
    ensures s.jobs == [] ==> s.executed == s.created
  {
    var cut := |s.created| - |s.jobs|;
    if s.worker.Ran? || s.worker.Relocked? {
      assert s.created[cut] == s.created[cut..][0];
      assert s.executed == s.created[..cut + 1];
    }
  }
  // ---- progress ---------------------------------------------------------------

  /** How many moves of the worker from now on execute the next job. */
  function Distance(w: Worker): nat {
    match w
    case Running(_) => 1
    case Taken(_) => 2
    case Top => 3
    case Waiting(_) => 4
    case Unlisted => 4
    case Relocked(_) => 5
    case Ran(_) => 6
  }

  /** How many of its moves execute the first `n` jobs that were created. */
  function MovesFor(s: State, n: nat): nat {
    if n <= |s.executed| then 0 else Distance(s.worker) + 6 * (n - |s.executed| - 1)
  }

  function WorkerMovesIn(es: seq<Event>): nat {
    if es == [] then 0 else (if es[0].WorkerMoves? then 1 else 0) + WorkerMovesIn(es[1..])
  }

  lemma MoveCounts(s: State, e: Event, n: nat)
    requires Inv(s) && Enabled(s, e) && n <= |s.created|
    ensures n <= |Next(s, e).created|
    ensures MovesFor(Next(s, e), n) <= MovesFor(s, n)
    ensures e.WorkerMoves? && MovesFor(s, n) > 0 ==> MovesFor(Next(s, e), n) < MovesFor(s, n)
  {
    Prefix(s);
    hide MutexOk, AnswersOk;
  }

  lemma {:induction false} EnoughMoves(s: State, n: nat, es: seq<Event>)
    requires Inv(s) && EnabledRun(s, es) && n <= |s.created| && WorkerMovesIn(es) >= MovesFor(s, n)
    ensures n <= |Run(s, es).executed|
    decreases |es|
  {
    hide Inv, Next, Enabled, MovesFor;
    if es == [] {
      NoMovesLeft(s, n);
    } else {
      MoveCounts(s, es[0], n);
      NextKeeps(s, es[0]);
      EnoughMoves(Next(s, es[0]), n, es[1..]);
    }
  }

  lemma NoMovesLeft(s: State, n: nat)
    ensures MovesFor(s, n) == 0 ==> n <= |s.executed|
  {
  }

  lemma {:induction false} CreatedGrows(s: State, es: seq<Event>)
    ensures s.created <= Run(s, es).created
    decreases |es|
  {
    if es != [] { CreatedGrows(Next(s, es[0]), es[1..]); }
  }

  /**
  From every state that can be reached, and however the threads are scheduled from
  there: when the worker has made six moves for each job that was not yet executed,
  all jobs that had been created are.
  */
  lemma {:induction false} JobsDone(before: seq<Event>, es: seq<Event>)
    requires EnabledRun(START, before) && EnabledRun(Run(START, before), es)
    requires var s := Run(START, before); WorkerMovesIn(es) >= 6 * (|s.created| - |s.executed|)
    ensures Run(START, before).created <= Run(Run(START, before), es).executed
  {
    hide Next, Enabled, Inv;
    var s := Run(START, before);
    StartOk();
    RunKeeps(START, before);
    Consequences(s);
    RunKeeps(s, es);
    EnoughMoves(s, |s.created|, es);
    var t := Run(s, es);
    Consequences(t);
    CreatedGrows(s, es);
    assert t.executed == t.created[..|t.executed|];
    assert s.created == t.created[..|s.created|];
  }

  /** Nor can the threads be stuck: while a job is left, the worker can move, without
      waking up unsignalled, or the thread that holds the mutex can. */
  lemma NoDeadlock(s: State)
    requires Inv(s) && s.executed != s.created
    ensures (Enabled(s, WorkerMoves) && s.worker != Waiting(false)) ||
            (s.mutex.ByClient? && Enabled(s, ClientMoves(s.mutex.id)) && Inside(At(s, s.mutex.id)))
  {
    Prefix(s);
  }

  /** How many moves a thread that holds the mutex makes before it lets go. */
  function Hold(c: Client): nat {
    match c
    case CreateLocked(_) => 4
    case Listed => 3
    case Counted => 2
    case Signalled => 1
    case AskLocked => 2
    case Answer(_, _) => 1
    case _ => 0
  }

  lemma Releases(s: State, id: nat)
    requires Inv(s) && s.mutex == ByClient(id)
    ensures Hold(At(s, id)) > 0 && Enabled(s, ClientMoves(id))
    ensures var t := Next(s, ClientMoves(id));
      if Hold(At(s, id)) == 1 then t.mutex.Free? else t.mutex == s.mutex && Hold(At(t, id)) == Hold(At(s, id)) - 1
  {
    assert Inside(s.clients[id]) <==> s.mutex == ByClient(id);
  }

  /** How many moves the worker makes before it lets go of the mutex. */
  function WorkerHold(s: State): nat {
    var top := if |s.jobs| == 0 then 1 else 2;
    match s.worker
    case Top => top
    case Taken(_) => 1
    case Relocked(_) => if |s.jobs| <= 1 then 3 else 4
    case Unlisted => top + 1
    case _ => 0
  }

  lemma WorkerReleases(s: State)
    requires Inv(s) && s.mutex == ByWorker
    ensures WorkerHold(s) > 0 && Enabled(s, WorkerMoves)
    ensures var t := Next(s, WorkerMoves);
      if WorkerHold(s) == 1 then t.mutex.Free? else t.mutex == s.mutex && WorkerHold(t) == WorkerHold(s) - 1
  {
  }

  // ---- calls return ---------------------------------------------------------------

  /** How many moves of its own are left of the call a thread is in. */
  function Left(c: Client): nat {
    match c
    case Creating(_) => 5
    case Asking => 3
    case _ => Hold(c)
  }

  /** What the call will have created. */
  function Promised(c: Client): seq<Job> {
    match c
    case Creating(job) => [job]
    case CreateLocked(job) => [job]
    case _ => []
  }

  function MovesOf(id: nat, es: seq<Event>): nat {
    if es == [] then 0 else (if es[0] == ClientMoves(id) then 1 else 0) + MovesOf(id, es[1..])
  }

  /** `id` begins no other call. */
  predicate SameCall(id: nat, es: seq<Event>) {
    forall i :: 0 <= i < |es| ==> !(es[i].Create? && es[i].id == id) && !(es[i].Ask? && es[i].id == id)
  }

  /** A move of the thread itself. */
  lemma OwnStep(s: State, id: nat)
    requires Enabled(s, ClientMoves(id))
    ensures var t := ClientStep(s, id);
      && Left(At(t, id)) == Left(At(s, id)) - 1
      && (if At(s, id).CreateLocked? then Promised(At(t, id)) == [] && t.created == s.created + Promised(At(s, id))
          else Promised(At(t, id)) == Promised(At(s, id)) && t.created == s.created)
      && (At(s, id).AskLocked? ==> At(t, id) == Answer(s.pending, |s.created|))
  {
  }

  /** Nothing else moves it. */
  lemma OthersStep(s: State, id: nat, e: Event)
    requires Enabled(s, e) && e != ClientMoves(id) && SameCall(id, [e])
    ensures At(Next(s, e), id) == At(s, id)
  {
    assert e == [e][0];
  }

  lemma OneStep(s: State, id: nat, e: Event)
    requires Enabled(s, e) && SameCall(id, [e])
    ensures var t := Next(s, e);
      && Left(At(t, id)) == Left(At(s, id)) - (if e == ClientMoves(id) then 1 else 0)
      && (Promised(At(t, id)) == Promised(At(s, id))
          || (Promised(At(t, id)) == [] && t.created == s.created + Promised(At(s, id))))
  {
    hide Enabled, ClientStep, WorkerStep, Left, Promised, SameCall;
    if e == ClientMoves(id) { OwnStep(s, id); } else { OthersStep(s, id, e); }
  }

  /** However the threads are scheduled: when a thread in a call has made the moves that
      are left of it, it is back, and the job it was to create has been created. */
  lemma {:induction false} CallReturns(s: State, id: nat, es: seq<Event>)
    requires Inv(s) && EnabledRun(s, es) && SameCall(id, es)
    ensures var t := Run(s, es);
      && Left(At(t, id)) == Left(At(s, id)) - MovesOf(id, es)
      && s.created <= t.created
      && (Promised(At(t, id)) == [] ==>
            forall job :: job in Promised(At(s, id)) ==> job in t.created[|s.created|..])
    decreases |es|
  {
    hide Inv, Enabled, Next, Left, Promised;
    CreatedGrows(s, es);
    if es == [] {
      assert s.created[|s.created|..] == [];
    } else {
      var e, s1 := es[0], Next(s, es[0]);
      forall i | 0 <= i < 1 ensures [e][i] == es[i] {}
      OneStep(s, id, e);
      NextKeeps(s, e);
      CreatedGrows(s1, es[1..]);
      CreatedGrows(s, [e]);
      CallReturns(s1, id, es[1..]);
      var t := Run(s, es);
      assert Run(s1, es[1..]) == t;
      forall job | job in Promised(At(s, id)) && Promised(At(t, id)) == [] ensures job in t.created[|s.created|..] {
        CreatedInside(s.created, s1.created, t.created, job, Promised(At(s, id)));
      }
    }
  }

  lemma CreatedInside(a: seq<Job>, b: seq<Job>, c: seq<Job>, job: Job, more: seq<Job>)
    requires a <= b <= c && job in more
    ensures b == a + more || job in c[|b|..] ==> job in c[|a|..]
  {
    if b == a + more {
      var i :| 0 <= i < |more| && more[i] == job;
      assert c[|a| + i] == b[|a| + i] == job;
      assert c[|a|..][i] == job;
    } else if job in c[|b|..] {
      var i :| 0 <= i < |c| - |b| && c[|b|..][i] == job;
      assert c[|a|..][|b| - |a| + i] == job;
    }
  }

  /** A thread that creates a job has created it, and is back, when it has made five moves;
      with CallReturns one that asks is back after three. */
  lemma CreateReturns(s: State, id: nat, job: Job, es: seq<Event>)
    requires Inv(s) && At(s, id).Idle? && EnabledRun(s, [Create(id, job)] + es)
    requires SameCall(id, es) && MovesOf(id, es) == 5
    ensures var t := Run(s, [Create(id, job)] + es);
      Left(At(t, id)) == 0 && s.created <= t.created && job in t.created[|s.created|..]
  {
    hide Inv;
    var all := [Create(id, job)] + es;
    assert all[1..] == es;
    var s1 := Next(s, all[0]);
    NextKeeps(s, all[0]);
    CallReturns(s1, id, es);
    assert job in Promised(At(s1, id));
  }
}
