/** The hand-off of requests in SbieAPI.cpp: any number of threads in `CallServer` and the one
    worker in `run` share a mailbox under a lock word of six states.  Each interlocked operation
    and each access to a field of the mailbox is a step of its own. */
module Mailbox {
  import opened Common

  const IDLE: nat := 0
  const PREP: nat := 1
  const START: nat := 2
  const EXEC: nat := 3
  const DONE: nat := 4
  const EVAL: nat := 5

  type Status = int
  const SB_OK: Status := 0

  /** Where a thread is in `CallServer`.  Each call has a number of its own, which also stands for
      its request and its reply. */
  datatype Caller =
    | Away
    | Claim(k: nat)
    | PutRequest(k: nat) | PutReply(k: nat) | PutStatus(k: nat) | Post(k: nat)
    | Await(k: nat)
    | DropRequest(k: nat) | DropReply(k: nat) | GetStatus(k: nat) | Leave(k: nat, result: Status)

  /** Where the worker is in its loop. */
  datatype Worker = Look | Execute | Store(result: Status) | Finish

  /** A request as it was executed, the place its reply went to, and the status it got. */
  datatype Entry = Entry(request: Option<nat>, reply: Option<nat>, status: Status)

  datatype State = State(lockWord: nat, request: Option<nat>, reply: Option<nat>, status: Status,
                         callers: seq<Caller>, worker: Worker,
                         calls: nat, log: seq<Entry>, returned: map<nat, Status>)

  predicate Initial(s: State) {
    && s.lockWord == IDLE && s.worker == Look && s.calls == 0 && s.log == [] && s.returned == map[]
    && forall i | 0 <= i < |s.callers| :: s.callers[i] == Away
  }

  function Go(s: State, i: nat, c: Caller): State
    requires i < |s.callers|
  {
    s.(callers := s.callers[i := c])
  }

  /** A step of thread `i`. */
  function CallerStep(s: State, i: nat): State
    requires i < |s.callers|
  {
    match s.callers[i]
    case Away => Go(s.(calls := s.calls + 1), i, Claim(s.calls))
    case Claim(k) => if s.lockWord == IDLE then Go(s.(lockWord := PREP), i, PutRequest(k)) else s
    case PutRequest(k) => Go(s.(request := Some(k)), i, PutReply(k))
    case PutReply(k) => Go(s.(reply := Some(k)), i, PutStatus(k))
    case PutStatus(k) => Go(s.(status := SB_OK), i, Post(k))
    case Post(k) => Go(s.(lockWord := START), i, Await(k))
    case Await(k) => if s.lockWord == DONE then Go(s.(lockWord := EVAL), i, DropRequest(k)) else s
    case DropRequest(k) => Go(s.(request := None), i, DropReply(k))
    case DropReply(k) => Go(s.(reply := None), i, GetStatus(k))
    case GetStatus(k) => Go(s, i, Leave(k, s.status))
    case Leave(k, r) => Go(s.(lockWord := IDLE, returned := s.returned[k := r]), i, Away)
  }

  /** A step of the worker; `answer` is what the service says to a request. */
  function WorkerStep(s: State, answer: Status): State {
    match s.worker
    case Look => if s.lockWord == START then s.(lockWord := EXEC, worker := Execute) else s
    case Execute => s.(log := s.log + [Entry(s.request, s.reply, answer)], worker := Store(answer))
    case Store(r) => s.(status := r, worker := Finish)
    case Finish => s.(lockWord := DONE, worker := Look)
  }

  /** Who moves: a thread, or the worker with the answer it gets. */
  datatype Move = ByCaller(i: nat) | ByWorker(answer: Status)

  predicate Step(s: State, m: Move, s': State) {
    match m
    case ByCaller(i) => i < |s.callers| && s' == CallerStep(s, i)
    case ByWorker(a) => s' == WorkerStep(s, a)
  }

  predicate Run(states: seq<State>, moves: seq<Move>) {
    && |states| == |moves| + 1 && Initial(states[0])
    && forall n | 0 <= n < |moves| :: Step(states[n], moves[n], states[n + 1])
  }

  // ---- the invariant

  /** Between its two operations on the lock word that leave and reach IDLE. */
  predicate Owns(c: Caller) {
    c != Away && !c.Claim?
  }

  predicate Executed(log: seq<Entry>, k: nat) {
    exists a | 0 <= a < |log| :: log[a].request == Some(k)
  }

  /** The request went in with its own reply and got this status. */
  predicate Answered(log: seq<Entry>, k: nat, r: Status) {
    exists a | 0 <= a < |log| :: log[a] == Entry(Some(k), Some(k), r)
  }

  predicate Posted(s: State, k: nat) {
    s.request == Some(k) && s.reply == Some(k)
  }

  predicate Emptied(s: State) {
    s.request == None && s.reply == None
  }

  /** What holds for the owner, step by step. */
  predicate Phase(s: State, c: Caller) {
    match c
    case PutRequest(k) => s.lockWord == PREP && s.worker == Look && !Executed(s.log, k)
    case PutReply(k) => s.lockWord == PREP && s.worker == Look && s.request == Some(k) && !Executed(s.log, k)
    case PutStatus(k) => s.lockWord == PREP && s.worker == Look && Posted(s, k) && !Executed(s.log, k)
    case Post(k) => s.lockWord == PREP && s.worker == Look && Posted(s, k) && s.status == SB_OK && !Executed(s.log, k)
    case Await(k) =>
      && Posted(s, k)
      && (match s.worker
          case Look => (s.lockWord == START && s.status == SB_OK && !Executed(s.log, k)) || (s.lockWord == DONE && Answered(s.log, k, s.status))
          case Execute => s.lockWord == EXEC && s.status == SB_OK && !Executed(s.log, k)
          case Store(r) => s.lockWord == EXEC && Answered(s.log, k, r)
          case Finish => s.lockWord == EXEC && Answered(s.log, k, s.status))
    case DropRequest(k) => s.lockWord == EVAL && s.worker == Look && Posted(s, k) && Answered(s.log, k, s.status)
    case DropReply(k) => s.lockWord == EVAL && s.worker == Look && s.request == None && s.reply == Some(k) && Answered(s.log, k, s.status)
    case GetStatus(k) => s.lockWord == EVAL && s.worker == Look && Emptied(s) && Answered(s.log, k, s.status)
    case Leave(k, r) => s.lockWord == EVAL && s.worker == Look && Emptied(s) && Answered(s.log, k, r)
    case _ => true
  }

  /** One owner just while the lock word is not IDLE; without one the worker looks on. */
  predicate OneOwner(s: State) {
    && (forall i, j | 0 <= i < j < |s.callers| :: !(Owns(s.callers[i]) && Owns(s.callers[j])))
    && (s.lockWord == IDLE <==> forall i | 0 <= i < |s.callers| :: !Owns(s.callers[i]))
    && (s.lockWord == IDLE ==> s.worker == Look)
  }

  /** The calls under way are distinct, not returned, and not executed before they own the mailbox. */
  predicate CallsOk(s: State) {
    && (forall i | 0 <= i < |s.callers| && s.callers[i] != Away :: s.callers[i].k < s.calls && s.callers[i].k !in s.returned)
    && (forall i, j | 0 <= i < j < |s.callers| && s.callers[i] != Away && s.callers[j] != Away :: s.callers[i].k != s.callers[j].k)
    && (forall i | 0 <= i < |s.callers| && s.callers[i].Claim? :: !Executed(s.log, s.callers[i].k))
    && (forall k | k in s.returned :: k < s.calls)
  }

  /** No request is executed twice, and each with its own reply. */
  predicate LogOk(s: State) {
    && (forall a | 0 <= a < |s.log| :: s.log[a].request.Some? && s.log[a].reply == s.log[a].request && s.log[a].request.value < s.calls)
    && (forall a, b | 0 <= a < b < |s.log| :: s.log[a].request != s.log[b].request)
    && (forall k | k in s.returned :: Answered(s.log, k, s.returned[k]))
  }

  predicate Inv(s: State) {
    && OneOwner(s) && CallsOk(s) && LogOk(s)
    && forall i | 0 <= i < |s.callers| :: Phase(s, s.callers[i])
  }

  lemma InvStarts(s: State)
    requires Initial(s)
    ensures Inv(s)
  {
  }

  lemma LogGrows(log: seq<Entry>, e: Entry, k: nat, r: Status)
    ensures Executed(log + [e], k) <==> Executed(log, k) || e.request == Some(k)
    ensures Answered(log + [e], k, r) <==> Answered(log, k, r) || e == Entry(Some(k), Some(k), r)
  {
    var all := log + [e];
    assert all[|log|] == e;
    if a :| 0 <= a < |log| && log[a].request == Some(k) {
      assert all[a] == log[a];
    }
    if a :| 0 <= a < |log| && log[a] == Entry(Some(k), Some(k), r) {
      assert all[a] == log[a];
    }
  }

  // ---- every step keeps it

  lemma CallerOwners(s: State, i: nat)
    requires Inv(s) && i < |s.callers|
    ensures OneOwner(CallerStep(s, i))
  {
    hide LogOk, CallsOk, Executed, Answered;
    assert Phase(s, s.callers[i]);
    var t := CallerStep(s, i);
    assert forall j | 0 <= j < |s.callers| && j != i :: t.callers[j] == s.callers[j];
    if s.lockWord != IDLE {
      var o := Owner(s);
      assert t.lockWord != IDLE ==> Owns(t.callers[o]);
    } else {
      assert t.lockWord != IDLE ==> Owns(t.callers[i]);
    }
  }

  lemma CallerCalls(s: State, i: nat)
    requires Inv(s) && i < |s.callers|
    ensures CallsOk(CallerStep(s, i))
  {
    hide LogOk, OneOwner, Phase, Executed, Answered;
    var t := CallerStep(s, i);
    assert forall j | 0 <= j < |s.callers| && j != i :: t.callers[j] == s.callers[j];
    assert t.log == s.log;
    if s.callers[i] == Away {
      NewIsUnknown(s);
    }
  }

  lemma NewIsUnknown(s: State)
    requires LogOk(s)
    ensures !Executed(s.log, s.calls)
  {
  }

  lemma CallerLog(s: State, i: nat)
    requires Inv(s) && i < |s.callers|
    ensures LogOk(CallerStep(s, i))
  {
    hide OneOwner, CallsOk, Answered, Executed;
    assert Phase(s, s.callers[i]);
  }

  lemma CallerPhases(s: State, i: nat, j: nat)
    requires Inv(s) && i < |s.callers| && j < |s.callers|
    ensures var t := CallerStep(s, i); Phase(t, t.callers[j])
  {
    hide LogOk, Answered, Executed;
    assert Phase(s, s.callers[i]) && Phase(s, s.callers[j]);
    var t := CallerStep(s, i);
    if i != j {
      assert t.callers[j] == s.callers[j];
    }
  }

  lemma CallerKeepsInv(s: State, i: nat)
    requires Inv(s) && i < |s.callers|
    ensures Inv(CallerStep(s, i))
  {
    hide OneOwner, CallsOk, LogOk, Phase;
    CallerOwners(s, i);
    CallerCalls(s, i);
    CallerLog(s, i);
    forall j | 0 <= j < |s.callers|
      ensures Phase(CallerStep(s, i), CallerStep(s, i).callers[j])
    {
      CallerPhases(s, i, j);
    }
    SameCallers(s, i);
  }

  lemma SameCallers(s: State, i: nat)
    requires i < |s.callers|
    ensures |CallerStep(s, i).callers| == |s.callers|
  {
  }

  /** While the lock word is not IDLE, the thread that owns the mailbox. */
  lemma Owner(s: State) returns (i: nat)
    requires OneOwner(s) && s.lockWord != IDLE
    ensures i < |s.callers| && Owns(s.callers[i])
    ensures forall j | 0 <= j < |s.callers| && j != i :: !Owns(s.callers[j])
  {
    hide Owns;
    var o :| 0 <= o < |s.callers| && Owns(s.callers[o]);
    i := o;
  }

  /** Away from its loop the worker has the request of a thread that waits. */
  lemma WorkerAtWork(s: State) returns (i: nat)
    requires Inv(s) && (s.worker != Look || s.lockWord == START)
    ensures i < |s.callers| && s.callers[i].Await? && Phase(s, s.callers[i])
    ensures forall j | 0 <= j < |s.callers| && j != i :: !Owns(s.callers[j])
  {
    hide LogOk, CallsOk, Executed, Answered;
    i := Owner(s);
    assert Phase(s, s.callers[i]);
  }

  lemma WorkerKeepsInv(s: State, answer: Status)
    requires Inv(s)
    ensures Inv(WorkerStep(s, answer))
  {
    if s.worker != Look || s.lockWord == START {
      var i := WorkerAtWork(s);
      var t := WorkerStep(s, answer);
      WorkerPhases(s, answer, i);
      if s.worker == Execute {
        ExecuteLog(s, answer, i);
      } else {
        hide Phase, Executed, Answered;
      }
    }
  }

  lemma WorkerPhases(s: State, answer: Status, i: nat)
    requires Inv(s) && (s.worker != Look || s.lockWord == START)
    requires i < |s.callers| && s.callers[i].Await? && forall j | 0 <= j < |s.callers| && j != i :: !Owns(s.callers[j])
    ensures var t := WorkerStep(s, answer); forall j | 0 <= j < |s.callers| :: Phase(t, s.callers[j])
  {
    hide LogOk, CallsOk, OneOwner, Executed, Answered;
    var t := WorkerStep(s, answer);
    var k := s.callers[i].k;
    assert Phase(s, s.callers[i]);
    LogGrows(s.log, Entry(s.request, s.reply, answer), k, answer);
    assert Phase(t, s.callers[i]);
    forall j | 0 <= j < |s.callers|
      ensures Phase(t, s.callers[j])
    {
      assert j != i ==> !Owns(s.callers[j]);
    }
  }

  lemma ExecuteLog(s: State, answer: Status, i: nat)
    requires Inv(s) && s.worker == Execute
    requires i < |s.callers| && s.callers[i].Await? && forall j | 0 <= j < |s.callers| && j != i :: !Owns(s.callers[j])
    ensures OneOwner(WorkerStep(s, answer)) && CallsOk(WorkerStep(s, answer)) && LogOk(WorkerStep(s, answer))
  {
    var t, k, e := WorkerStep(s, answer), s.callers[i].k, Entry(s.request, s.reply, answer);
    assert Phase(s, s.callers[i]);
    forall j | 0 <= j < |s.callers| && s.callers[j].Claim?
      ensures !Executed(t.log, s.callers[j].k)
    {
      LogGrows(s.log, e, s.callers[j].k, answer);
    }
    ExecutedOnce(s, answer, k);
    hide Phase, LogOk, Executed, Answered;
  }

  lemma ExecutedOnce(s: State, answer: Status, k: nat)
    requires LogOk(s) && s.worker == Execute && Posted(s, k) && !Executed(s.log, k) && k < s.calls
    ensures LogOk(WorkerStep(s, answer))
  {
    var t, e := WorkerStep(s, answer), Entry(s.request, s.reply, answer);
    forall m | m in s.returned
      ensures Answered(t.log, m, s.returned[m])
    {
      LogGrows(s.log, e, m, s.returned[m]);
    }
    hide Answered;
  }

  lemma StepKeepsInv(s: State, m: Move, s': State)
    requires Inv(s) && Step(s, m, s')
    ensures Inv(s')
  {
    hide Inv, CallerStep, WorkerStep;
    match m
    case ByCaller(i) => CallerKeepsInv(s, i);
    case ByWorker(a) => WorkerKeepsInv(s, a);
  }

  lemma {:induction false} RunKeepsInv(states: seq<State>, moves: seq<Move>, n: nat)
    requires Run(states, moves) && n < |states|
    ensures Inv(states[n])
  {
    hide Inv, Initial, Step;
    if n == 0 {
      InvStarts(states[0]);
    } else {
      RunKeepsInv(states, moves, n - 1);
      StepKeepsInv(states[n - 1], moves[n - 1], states[n]);
    }
  }

  // ---- what a run guarantees

  /** Just one entry of the log is for call `k`, and it is this one. */
  predicate ExecutedOnceAs(log: seq<Entry>, k: nat, r: Status) {
    exists a | 0 <= a < |log| :: log[a] == Entry(Some(k), Some(k), r) && forall b | 0 <= b < |log| && b != a :: log[b].request != Some(k)
  }

  /** Safety over every run: a call that has returned was executed exactly once, with its own reply,
      and got the status of that execution; no request was executed twice; no two threads own the
      mailbox. */
  lemma RunIsSafe(states: seq<State>, moves: seq<Move>, n: nat)
    requires Run(states, moves) && n < |states|
    ensures var s := states[n];
      && (forall k | k in s.returned :: ExecutedOnceAs(s.log, k, s.returned[k]))
      && (forall a, b | 0 <= a < b < |s.log| :: s.log[a].request != s.log[b].request)
      && (forall i, j | 0 <= i < j < |s.callers| :: !(Owns(s.callers[i]) && Owns(s.callers[j])))
      && (s.lockWord == IDLE <==> forall i | 0 <= i < |s.callers| :: !Owns(s.callers[i]))
  {
    RunKeepsInv(states, moves, n);
    var s := states[n];
    assert LogOk(s) && OneOwner(s);
    forall k | k in s.returned
      ensures ExecutedOnceAs(s.log, k, s.returned[k])
    {
      assert Answered(s.log, k, s.returned[k]);
    }
  }

  /** What each value of the lock word says of the thread that owns the mailbox, and of the worker. */
  lemma WordTells(states: seq<State>, moves: seq<Move>, n: nat, i: nat)
    requires Run(states, moves) && n < |states| && i < |states[n].callers| && Owns(states[n].callers[i])
    ensures var s, c := states[n], states[n].callers[i];
      && (s.lockWord == PREP <==> c.PutRequest? || c.PutReply? || c.PutStatus? || c.Post?)
      && (s.lockWord == START || s.lockWord == EXEC || s.lockWord == DONE <==> c.Await?)
      && (s.lockWord == EVAL <==> c.DropRequest? || c.DropReply? || c.GetStatus? || c.Leave?)
      && (s.lockWord == EXEC <==> s.worker != Look)
      && (s.lockWord == START ==> s.status == SB_OK && Posted(s, c.k) && !Executed(s.log, c.k))
      && (s.lockWord == DONE ==> Posted(s, c.k) && Answered(s.log, c.k, s.status))
      && (c.Leave? ==> Emptied(s) && Answered(s.log, c.k, c.result))
  {
    RunKeepsInv(states, moves, n);
    assert Phase(states[n], states[n].callers[i]);
    hide OneOwner, CallsOk, LogOk, Executed, Answered;
  }

  /** Where the caller is between posting its request and dropping it. */
  predicate Waits(c: Caller) {
    c.Post? || c.Await? || c.DropRequest?
  }

  /** Nobody but the owner touches the request and the reply, and from the post until the owner
      drops them they are its own. */
  lemma MailboxIsOwned(s: State, m: Move, s': State)
    requires Inv(s) && Step(s, m, s')
    ensures s'.request != s.request || s'.reply != s.reply ==> m.ByCaller? && Owns(s.callers[m.i])
    ensures forall i | 0 <= i < |s.callers| && Waits(s.callers[i]) :: Posted(s, s.callers[i].k)
  {
    hide OneOwner, CallsOk, LogOk, Executed, Answered;
    forall i | 0 <= i < |s.callers| && Waits(s.callers[i])
      ensures Posted(s, s.callers[i].k)
    {
      assert Phase(s, s.callers[i]);
    }
  }

  // ---- progress

  /** Steps until the owner leaves. */
  function Rank(c: Caller, w: Worker, lockWord: nat): nat {
    match c
    case PutRequest(_) => 12
    case PutReply(_) => 11
    case PutStatus(_) => 10
    case Post(_) => 9
    case Await(_) =>
      (match w
       case Look => if lockWord == DONE then 4 else 8
       case Execute => 7
       case Store(_) => 6
       case Finish => 5)
    case DropRequest(_) => 3
    case DropReply(_) => 2
    case GetStatus(_) => 1
    case _ => 0
  }

  /** While the lock word is not IDLE, the owner or the worker has a step that brings it nearer to
      IDLE: the owner at every place but one, the worker while the owner waits. */
  lemma Progress(s: State, answer: Status) returns (i: nat, m: Move, s': State)
    requires Inv(s) && s.lockWord != IDLE
    ensures i < |s.callers| && Owns(s.callers[i]) && (m == ByCaller(i) || m == ByWorker(answer)) && Step(s, m, s')
    ensures |s'.callers| == |s.callers|
    ensures s'.lockWord == IDLE || (Owns(s'.callers[i]) && Rank(s'.callers[i], s'.worker, s'.lockWord) < Rank(s.callers[i], s.worker, s.lockWord))
    ensures s'.lockWord == IDLE ==> s.callers[i].Leave? && s'.returned == s.returned[s.callers[i].k := s.callers[i].result]
    ensures s'.lockWord == IDLE ==> s'.callers[i] == Away && Emptied(s')
    ensures s'.lockWord != IDLE ==> s'.returned == s.returned
  {
    hide CallsOk, LogOk, Executed, Answered;
    i := Owner(s);
    assert Phase(s, s.callers[i]);
    if s.callers[i].Await? && !(s.worker == Look && s.lockWord == DONE) {
      m, s' := ByWorker(answer), WorkerStep(s, answer);
    } else {
      m, s' := ByCaller(i), CallerStep(s, i);
    }
  }

  /** ... and no step of anybody else undoes it. */
  lemma OthersDoNotHinder(s: State, m: Move, s': State, i: nat)
    requires Inv(s) && Step(s, m, s') && i < |s.callers| && Owns(s.callers[i])
    ensures |s'.callers| == |s.callers|
    ensures s'.callers[i] == s.callers[i] || m == ByCaller(i)
    ensures Owns(s'.callers[i]) ==> Rank(s'.callers[i], s'.worker, s'.lockWord) <= Rank(s.callers[i], s.worker, s.lockWord)
  {
    hide CallsOk, LogOk, Executed, Answered;
    assert Phase(s, s.callers[i]);
    if m.ByCaller? && m.i != i {
      assert !Owns(s.callers[m.i]);
    }
  }

  /** A way on from a state, step by step. */
  predicate Path(states: seq<State>, moves: seq<Move>) {
    |states| == |moves| + 1 && forall n | 0 <= n < |moves| :: Step(states[n], moves[n], states[n + 1])
  }

  function Last(states: seq<State>): State
    requires states != []
  {
    states[|states| - 1]
  }

  /** The log has grown, and the worker got `answer` each time. */
  predicate Longer(s: State, t: State, answer: Status) {
    |s.log| <= |t.log| && t.log[..|s.log|] == s.log && forall a | |s.log| <= a < |t.log| :: t.log[a].status == answer
  }

  /** What a move of thread `i` or of the worker leaves as it was. */
  predicate OthersStay(s: State, t: State, i: nat, answer: Status) {
    && |t.callers| == |s.callers| && t.calls == s.calls && Longer(s, t, answer)
    && forall j | 0 <= j < |s.callers| && j != i :: t.callers[j] == s.callers[j]
  }

  lemma OneStays(s: State, m: Move, s': State, i: nat, answer: Status)
    requires Step(s, m, s') && (m == ByCaller(i) || m == ByWorker(answer))
    requires i < |s.callers| && s.callers[i] != Away
    ensures OthersStay(s, s', i, answer)
  {
  }

  lemma BothStay(s: State, t: State, u: State, i: nat, answer: Status)
    requires OthersStay(s, t, i, answer) && OthersStay(t, u, i, answer)
    ensures OthersStay(s, u, i, answer)
  {
    assert u.log[..|s.log|] == t.log[..|s.log|];
    forall a | |s.log| <= a < |u.log|
      ensures u.log[a].status == answer
    {
      if a < |t.log| {
        assert u.log[..|t.log|][a] == t.log[a];
      }
    }
  }

  /** So from every state of every run the mailbox gets free again in at most thirteen steps, with
      the request of its owner answered, the mailbox empty and everybody else where they were. */
  lemma {:induction false} GetsFree(s: State, answer: Status, i: nat) returns (states: seq<State>, moves: seq<Move>)
    requires Inv(s) && s.lockWord != IDLE && i < |s.callers| && Owns(s.callers[i])
    ensures Path(states, moves) && states[0] == s && |moves| <= Rank(s.callers[i], s.worker, s.lockWord) + 1
    ensures Last(states).lockWord == IDLE && Inv(Last(states)) && Emptied(Last(states)) && OthersStay(s, Last(states), i, answer)
    ensures s.callers[i].k in Last(states).returned && Last(states).callers[i] == Away
    ensures Last(states).returned == s.returned[s.callers[i].k := Last(states).returned[s.callers[i].k]]
    decreases Rank(s.callers[i], s.worker, s.lockWord)
  {
    hide Inv, Step, Rank, OthersStay, Emptied;
    var o, m, s' := Progress(s, answer);
    OneOwnerOnly(s, i, o);
    StepKeepsInv(s, m, s');
    OneStays(s, m, s', i, answer);
    if s'.lockWord == IDLE {
      states, moves := [s, s'], [m];
    } else {
      SameCall(s, m, s', i);
      var rest, more := GetsFree(s', answer, i);
      states, moves := [s] + rest, [m] + more;
      BothStay(s, s', Last(rest), i, answer);
    }
  }

  lemma OneOwnerOnly(s: State, i: nat, j: nat)
    requires Inv(s) && i < |s.callers| && j < |s.callers| && Owns(s.callers[i]) && Owns(s.callers[j])
    ensures i == j
  {
    assert OneOwner(s);
    hide Phase, CallsOk, LogOk, Owns;
  }

  lemma SameCall(s: State, m: Move, s': State, i: nat)
    requires Inv(s) && Step(s, m, s') && i < |s.callers| == |s'.callers| && Owns(s.callers[i]) && Owns(s'.callers[i])
    ensures s'.callers[i].k == s.callers[i].k
  {
    hide Inv;
  }

  // ---- every call is executed

  lemma JoinedPath(states: seq<State>, moves: seq<Move>, more: seq<State>, moves': seq<Move>)
    requires Path(states, moves) && Path(more, moves') && Last(states) == more[0]
    ensures Path(states + more[1..], moves + moves') && Last(states + more[1..]) == Last(more) && (states + more[1..])[0] == states[0]
  {
    hide Step;
    var all, ms := states + more[1..], moves + moves';
    forall n | 0 <= n < |ms|
      ensures Step(all[n], ms[n], all[n + 1])
    {
      if n >= |moves| {
        assert all[n] == more[n - |moves|] && all[n + 1] == more[n - |moves| + 1];
      }
    }
  }

  /** A free mailbox is taken by the thread that asks for it. */
  lemma Claims(s: State, i: nat, answer: Status) returns (s': State)
    requires Inv(s) && s.lockWord == IDLE && i < |s.callers| && s.callers[i].Claim?
    ensures Step(s, ByCaller(i), s') && Inv(s') && s'.lockWord != IDLE && Owns(s'.callers[i]) && s'.callers[i].k == s.callers[i].k
    ensures s'.returned == s.returned && OthersStay(s, s', i, answer)
    ensures Rank(s'.callers[i], s'.worker, s'.lockWord) <= 12
  {
    s' := CallerStep(s, i);
    StepKeepsInv(s, ByCaller(i), s');
    hide Inv;
  }

  lemma RankBound(c: Caller, w: Worker, lockWord: nat)
    ensures Rank(c, w, lockWord) <= 12
  {
  }

  /** A call that is under way comes back, from where the mailbox belongs to another thread as well. */
  lemma CallComesBack(s: State, i: nat, answer: Status) returns (states: seq<State>, moves: seq<Move>)
    requires Inv(s) && i < |s.callers| && s.callers[i] != Away
    ensures Path(states, moves) && states[0] == s && |moves| <= 27 && Inv(Last(states))
    ensures Longer(s, Last(states), answer) && Last(states).calls == s.calls && s.callers[i].k in Last(states).returned
    ensures Last(states).lockWord == IDLE && Emptied(Last(states))
    ensures s.lockWord == IDLE ==> Last(states).returned == s.returned[s.callers[i].k := Last(states).returned[s.callers[i].k]]
  {
    hide Inv, Step, Rank, Longer, Emptied;
    if s.callers[i].Claim? {
      var t := s;
      states, moves := [s], [];
      LongerItself(s, answer);
      if s.lockWord != IDLE {
        var o := OwnerOf(s);
        RankBound(s.callers[o], s.worker, s.lockWord);
        states, moves := GetsFree(s, answer, o);
        t := Last(states);
      }
      var t' := Claims(t, i, answer);
      JoinedPath(states, moves, [t, t'], [ByCaller(i)]);
      states, moves := states + [t, t'][1..], moves + [ByCaller(i)];
      var rest, more := GetsFree(t', answer, i);
      JoinedPath(states, moves, rest, more);
      states, moves := states + rest[1..], moves + more;
      LongerTwice(s, t, t', answer);
      LongerTwice(s, t', Last(rest), answer);
    } else {
      OwnsBusy(s, i);
      RankBound(s.callers[i], s.worker, s.lockWord);
      states, moves := GetsFree(s, answer, i);
    }
  }

  lemma LongerItself(s: State, answer: Status)
    ensures Longer(s, s, answer)
  {
  }

  lemma LongerTwice(s: State, t: State, u: State, answer: Status)
    requires Longer(s, t, answer) && Longer(t, u, answer)
    ensures Longer(s, u, answer)
  {
    assert u.log[..|s.log|] == t.log[..|s.log|];
    forall a | |s.log| <= a < |u.log|
      ensures u.log[a].status == answer
    {
      if a < |t.log| {
        assert u.log[..|t.log|][a] == t.log[a];
      }
    }
  }

  lemma OwnerOf(s: State) returns (i: nat)
    requires Inv(s) && s.lockWord != IDLE
    ensures i < |s.callers| && Owns(s.callers[i])
  {
    hide Phase, CallsOk, LogOk;
    i := Owner(s);
  }

  lemma OwnsBusy(s: State, i: nat)
    requires Inv(s) && i < |s.callers| && Owns(s.callers[i])
    ensures s.lockWord != IDLE
  {
    hide Phase, CallsOk, LogOk;
  }

  /** No call is lost: wherever a run has got, for every call under way there are at most 27 more steps after which it has
      returned, executed exactly once and with the status that the worker got: `answer`, unless it was executed
      before. */
  lemma EveryCallReturns(states: seq<State>, moves: seq<Move>, n: nat, i: nat, answer: Status) returns (more: seq<State>, moves': seq<Move>)
    requires Run(states, moves) && n < |states| && i < |states[n].callers| && states[n].callers[i] != Away
    ensures Path(more, moves') && more[0] == states[n] && |moves'| <= 27
    ensures var k, t := states[n].callers[i].k, Last(more);
      && k in t.returned && ExecutedOnceAs(t.log, k, t.returned[k])
      && (!Executed(states[n].log, k) ==> t.returned[k] == answer)
      && t.lockWord == IDLE && Emptied(t)
  {
    hide Run, Step, Emptied;
    RunKeepsInv(states, moves, n);
    more, moves' := CallComesBack(states[n], i, answer);
    ReturnedIs(states[n], Last(more), states[n].callers[i].k, answer);
  }

  lemma ReturnedIs(s: State, t: State, k: nat, answer: Status)
    requires Inv(t) && k in t.returned && Longer(s, t, answer)
    ensures ExecutedOnceAs(t.log, k, t.returned[k]) && (!Executed(s.log, k) ==> t.returned[k] == answer)
  {
    assert LogOk(t);
    var a :| 0 <= a < |t.log| && t.log[a] == Entry(Some(k), Some(k), t.returned[k]);
    assert a < |s.log| ==> t.log[..|s.log|][a] == s.log[a];
    hide Inv;
  }

  /** And calls are made: with one thread at least a run leads from the start to its first call executed once, with whatever
      the worker got for an answer, and returned. */
  lemma FirstCall(s: State, i: nat, answer: Status) returns (states: seq<State>, moves: seq<Move>)
    requires Initial(s) && i < |s.callers|
    ensures Run(states, moves) && states[0] == s
    ensures Last(states).returned == map[0 := answer] && Last(states).log == [Entry(Some(0), Some(0), answer)]
  {
    hide Inv, Longer;
    InvStarts(s);
    var s' := CallerStep(s, i);
    StepKeepsInv(s, ByCaller(i), s');
    assert s'.callers[i] == Claim(0) && s'.calls == 1;
    var rest, more := CallComesBack(s', i, answer);
    JoinedPath([s, s'], [ByCaller(i)], rest, more);
    states, moves := [s, s'] + rest[1..], [ByCaller(i)] + more;
    var t := Last(rest);
    ReturnedIs(s', t, 0, answer);
    OneEntry(t, answer);
  }

  lemma OneEntry(t: State, answer: Status)
    requires Inv(t) && t.calls == 1 && ExecutedOnceAs(t.log, 0, answer)
    ensures t.log == [Entry(Some(0), Some(0), answer)]
  {
    assert LogOk(t);
    hide Inv;
    var a :| 0 <= a < |t.log| && t.log[a] == Entry(Some(0), Some(0), answer) && forall b | 0 <= b < |t.log| && b != a :: t.log[b].request != Some(0);
    OnlyOne(t, a, 0);
    OnlyOne(t, a, |t.log| - 1);
  }

  lemma OnlyOne(t: State, a: nat, b: nat)
    requires LogOk(t) && t.calls == 1 && a < |t.log| && b < |t.log|
    requires forall c | 0 <= c < |t.log| && c != a :: t.log[c].request != Some(0)
    ensures b == a
  {
    assert t.log[b].request == Some(0);
  }
}
