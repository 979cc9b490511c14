/**
 * The handoff of disk requests to an I/O thread. The simulator thread and the I/O thread share
 * a context guarded by `io_lock`, with the condition variables `io_cond`, `io_done` and
 * `startup_cond`. Each event is one thread running from one point where the other can interfere to
 * the next; a waiting thread is woken by a signal only.
 */
module AsyncIo {
  import opened Options

  datatype Dop = Done | ReadSectors | WriteSectors | IsAvailable

  /** A request: what to do, where, and whom to call back. */
  datatype Request = Request(dop: Dop, lba: nat, sects: nat, callback: Option<nat>)

  datatype Execution = Execution(request: Request, status: int)

  datatype Completion = Completion(callback: nat, status: int)

  /** Where the simulator thread is. */
  datatype Main = Idle | AwaitStartup | StartupSignalled | AwaitDone | DoneSignalled | Joining | Aborted

  /** Where the I/O thread is. While `Activating` and `Looping` it holds the lock. */
  datatype Worker = Absent | Created | Waiting | Woken | Running | Finishing | Activating | Looping | Exited

  datatype Context = Context(
    asynch: bool,
    dop: Dop,
    request: Request,
    callback: Option<nat>,
    status: int,
    queued: nat,
    main: Main,
    worker: Worker,
    accepted: seq<Request>,
    executed: seq<Execution>,
    called: seq<Completion>)

  datatype Event =
    | SetAsync | StartupReturn
    | Issue(request: Request, inlineStatus: int)
    | Dispatch
    | Cancel | CancelReturn
    | ClrAsync | Join
    | WorkerStart | WorkerWake | WorkerExecute(status: int) | WorkerFinish | WorkerActivate | WorkerLoop

  const NO_REQUEST := Request(Done, 0, 0, None)

  const INITIAL := Context(false, Done, NO_REQUEST, None, 0, 0, Idle, Absent, [], [], [])

  predicate LockFree(c: Context) {
    c.worker != Activating && c.worker != Looping
  }

  /** When an event can happen. Who needs the lock cannot run while the other holds it. */
  predicate Enabled(c: Context, e: Event) {
    match e
    case SetAsync => c.main == Idle && !c.asynch && c.worker == Absent
    case StartupReturn => c.main == StartupSignalled && LockFree(c)
    case Issue(r, _) => c.main == Idle && c.asynch && LockFree(c) && r.dop != Done
    case Dispatch => c.main == Idle && c.queued > 0
    case Cancel => c.main == Idle && c.asynch && LockFree(c)
    case CancelReturn => c.main == DoneSignalled && LockFree(c)
    case ClrAsync => c.main == Idle && c.asynch && LockFree(c)
    case Join => c.main == Joining && c.worker == Exited
    case WorkerStart => c.worker == Created && LockFree(c)
    case WorkerWake => c.worker == Woken && LockFree(c)
    case WorkerExecute(_) => c.worker == Running
    case WorkerFinish => c.worker == Finishing && LockFree(c)
    case WorkerActivate => c.worker == Activating
    case WorkerLoop => c.worker == Looping
  }

  function SignalWorker(w: Worker): Worker {
    if w == Waiting then Woken else w
  }

  /**
   * Handing over a request. Without a callback the request is first carried out on the spot, and
   * then handed over all the same.
   */
  function DoIssue(c: Context, r: Request, inlineStatus: int): Context {
    var c1 := if r.callback.None? then c.(executed := c.executed + [Execution(r, inlineStatus)]) else c;
    if c.callback.Some? then c1.(main := Aborted)
    else
      c1.(dop := r.dop, request := r, callback := r.callback, worker := SignalWorker(c.worker),
          accepted := c.accepted + [r])
  }

  function Do(c: Context, e: Event): Context
    requires Enabled(c, e)
  {
    match e
    case SetAsync => c.(asynch := true, worker := Created, main := AwaitStartup)
    case StartupReturn => c.(main := Idle)
    case Issue(r, inlineStatus) => DoIssue(c, r, inlineStatus)
    case Dispatch =>
      if c.dop != Done then c.(queued := c.queued - 1, main := Aborted)
      else if c.callback.Some? then
        c.(queued := c.queued - 1, callback := None,
           called := c.called + [Completion(c.callback.value, c.status)])
      else c.(queued := c.queued - 1)
    case Cancel => if c.dop == Done then c else c.(main := AwaitDone)
    case CancelReturn => if c.dop == Done then c.(main := Idle) else c.(main := AwaitDone)
    case ClrAsync => c.(asynch := false, worker := SignalWorker(c.worker), main := Joining)
    case Join => c.(worker := Absent, main := Idle)
    case WorkerStart =>
      c.(main := if c.main == AwaitStartup then StartupSignalled else c.main,
         worker := if c.asynch then Waiting else Exited)
    case WorkerWake => c.(worker := if c.dop == Done then Exited else Running)
    case WorkerExecute(status) =>
      c.(status := status, executed := c.executed + [Execution(c.request, status)], worker := Finishing)
    case WorkerFinish =>
      c.(dop := Done, main := if c.main == AwaitDone then DoneSignalled else c.main, worker := Activating)
    case WorkerActivate => c.(queued := c.queued + 1, worker := Looping)
    case WorkerLoop => c.(worker := if c.asynch then Waiting else Exited)
  }

  /** The rule for callers: a request has a callback, and none is issued before the last one's ran. */
  predicate Disciplined(c: Context, e: Event) {
    e.Issue? ==> e.request.callback.Some? && c.callback.None?
  }

  // ----- the invariant -----

  /** The histories: accepted requests are executed in order, and called back in order. */
  predicate Histories(c: Context) {
    && |c.called| <= |c.executed| <= |c.accepted| <= |c.called| + 1
    && (forall i :: 0 <= i < |c.accepted| ==> c.accepted[i].callback.Some?)
    && (forall i :: 0 <= i < |c.executed| ==> c.executed[i].request == c.accepted[i])
    && (forall i :: 0 <= i < |c.called| ==>
          c.called[i] == Completion(c.accepted[i].callback.value, c.executed[i].status))
  }

  /** What the context holds while a request is outstanding. */
  predicate Outstanding(c: Context) {
    && (c.callback.None? <==> |c.called| == |c.accepted|)
    && (c.callback.Some? ==> |c.accepted| > 0 && c.callback == c.accepted[|c.accepted| - 1].callback)
    && (c.dop != Done ==> c.callback.Some? && c.request == c.accepted[|c.accepted| - 1])
    && (c.dop == Done ==> |c.executed| == |c.accepted|)
    && (c.callback.Some? && |c.executed| == |c.accepted| ==>
          c.status == c.executed[|c.executed| - 1].status)
  }

  /** How the I/O thread stands to the request, whatever callers do. */
  predicate Attending(c: Context) {
    && (c.dop != Done ==> c.worker in {Woken, Running, Finishing})
    && (c.worker in {Running, Finishing} ==> c.dop != Done)
    && (c.worker == Woken && c.dop == Done ==> !c.asynch)
  }

  /** Where the I/O thread can be, given the histories and the activation queue. */
  predicate WorkerPlace(c: Context) {
    && Attending(c)
    && (c.dop != Done ==> (|c.executed| == |c.accepted| <==> c.worker == Finishing))
    && (c.worker == Activating ==> c.callback.Some?)
    && c.queued == (if c.callback.Some? && c.dop == Done && c.worker != Activating then 1 else 0)
  }

  /** Where the simulator thread can be, whatever callers do. */
  predicate MainPlace(c: Context) {
    match c.main
    case Idle => if c.asynch then c.worker !in {Absent, Created, Exited} else c.worker == Absent
    case AwaitStartup => c.asynch && c.worker == Created
    case StartupSignalled => c.asynch && c.worker == Waiting
    case AwaitDone => c.asynch && c.dop != Done
    case DoneSignalled => c.asynch && c.dop == Done && c.worker in {Activating, Looping, Waiting}
    case Joining => !c.asynch && c.worker !in {Absent, Created, Waiting}
    case Aborted => c.asynch && c.worker !in {Absent, Created, Exited}
  }

  ghost predicate Inv(c: Context) {
    Histories(c) && Outstanding(c) && WorkerPlace(c) && MainPlace(c) && c.main != Aborted
  }

  lemma StepSimulator(c: Context, e: Event)
    requires Inv(c) && Enabled(c, e)
    requires e in {SetAsync, StartupReturn, Cancel, CancelReturn, ClrAsync, Join}
    ensures Inv(Do(c, e))
  {
  }

  lemma StepIssue(c: Context, r: Request, inlineStatus: int)
    requires Inv(c) && Enabled(c, Issue(r, inlineStatus)) && Disciplined(c, Issue(r, inlineStatus))
    ensures Inv(Do(c, Issue(r, inlineStatus)))
  {
  }

  lemma StepDispatch(c: Context)
    requires Inv(c) && Enabled(c, Dispatch)
    ensures Inv(Do(c, Dispatch))
  {
  }

  lemma StepWorker(c: Context, e: Event)
    requires Inv(c) && Enabled(c, e)
    requires e in {WorkerStart, WorkerWake, WorkerFinish, WorkerActivate, WorkerLoop}
    ensures Inv(Do(c, e))
  {
  }

  lemma StepExecute(c: Context, status: int)
    requires Inv(c) && Enabled(c, WorkerExecute(status))
    ensures Inv(Do(c, WorkerExecute(status)))
  {
  }

  lemma StepInv(c: Context, e: Event)
    requires Inv(c) && Enabled(c, e) && Disciplined(c, e)
    ensures Inv(Do(c, e))
  {
    hide Inv, Do, Disciplined;
    match e
    case Issue(r, inlineStatus) => StepIssue(c, r, inlineStatus);
    case Dispatch => StepDispatch(c);
    case WorkerExecute(status) => StepExecute(c, status);
    case SetAsync => StepSimulator(c, e);
    case StartupReturn => StepSimulator(c, e);
    case Cancel => StepSimulator(c, e);
    case CancelReturn => StepSimulator(c, e);
    case ClrAsync => StepSimulator(c, e);
    case Join => StepSimulator(c, e);
    case _ => StepWorker(c, e);
  }

  // ----- runs -----

  /** The context after a sequence of events, each of which must have been possible. */
  function After(c: Context, es: seq<Event>): Option<Context> {
    if es == [] then Some(c)
    else
      var before := After(c, es[..|es| - 1]);
      var e := es[|es| - 1];
      if before.Some? && Enabled(before.value, e) then Some(Do(before.value, e)) else None
  }

  /** Every request issued along the way kept the rule for callers. */
  predicate AllDisciplined(c: Context, es: seq<Event>) {
    es == [] ||
    (var before := After(c, es[..|es| - 1]);
     AllDisciplined(c, es[..|es| - 1]) && (before.Some? ==> Disciplined(before.value, es[|es| - 1])))
  }

  lemma {:induction false} RunInv(c: Context, es: seq<Event>)
    requires Inv(c) && AllDisciplined(c, es) && After(c, es).Some?
    ensures Inv(After(c, es).value)
  {
    if es != [] {
      hide Inv, Do, Enabled, Disciplined;
      RunInv(c, es[..|es| - 1]);
      StepInv(After(c, es[..|es| - 1]).value, es[|es| - 1]);
    }
  }

  /**
   * In every context that disciplined callers can reach: no abort; at most one request outstanding;
   * requests carried out once each, in order; callbacks run once each, in order, with the status of
   * their own request; and nobody sleeps through work or through its completion.
   */
  lemma Safety(es: seq<Event>, c: Context)
    requires AllDisciplined(INITIAL, es) && After(INITIAL, es) == Some(c)
    ensures c.main != Aborted
    ensures |c.called| <= |c.executed| <= |c.accepted| <= |c.called| + 1
    ensures forall i :: 0 <= i < |c.executed| ==> c.executed[i].request == c.accepted[i]
    ensures forall i :: 0 <= i < |c.called| ==>
      c.accepted[i].callback == Some(c.called[i].callback) && c.called[i].status == c.executed[i].status
    ensures |c.executed| < |c.accepted| ==> c.worker in {Woken, Running}
    ensures |c.called| < |c.executed| ==> c.queued == 1 || c.worker in {Finishing, Activating}
    ensures c.main == AwaitDone ==> c.worker in {Woken, Running, Finishing}
    ensures c.main == Joining ==> c.worker != Waiting
  {
    assert Inv(INITIAL);
    RunInv(INITIAL, es);
  }

  /** Turning asynchronous operation off while a request is pending still carries it out first. */
  lemma ClrWaitsForRequest(es: seq<Event>, c: Context)
    requires AllDisciplined(INITIAL, es) && After(INITIAL, es) == Some(c) && Enabled(c, Join)
    ensures Do(c, Join).executed == c.executed && |c.executed| == |c.accepted|
    ensures c.dop == Done && !Do(c, Join).asynch
  {
    assert Inv(INITIAL);
    RunInv(INITIAL, es);
  }

  // ----- waiting ends -----

  /** Events of the I/O thread, and of the simulator thread returning from a wait. */
  predicate Unblocking(e: Event) {
    e in {StartupReturn, CancelReturn, Join, WorkerStart, WorkerWake, WorkerFinish, WorkerActivate, WorkerLoop}
    || e.WorkerExecute?
  }

  function WorkerRank(w: Worker): nat {
    match w
    case Created => 1
    case Woken => 6
    case Running => 5
    case Finishing => 4
    case Activating => 3
    case Looping => 2
    case Exited => 1
    case Waiting => 0
    case Absent => 0
  }

  function MainRank(m: Main): nat {
    match m
    case Idle => 0
    case StartupSignalled => 1
    case DoneSignalled => 1
    case Joining => 1
    case AwaitStartup => 2
    case AwaitDone => 2
    case Aborted => 0
  }

  /** How many unblocking events can still happen. */
  function Rank(c: Context): nat {
    2 * WorkerRank(c.worker) + MainRank(c.main)
  }

  lemma SomeoneMoves(c: Context)
    requires Inv(c) && c.main != Idle
    ensures exists e :: Unblocking(e) && Enabled(c, e)
  {
    var e :=
      match c.worker
      case Created => WorkerStart
      case Woken => WorkerWake
      case Running => WorkerExecute(0)
      case Finishing => WorkerFinish
      case Activating => WorkerActivate
      case Looping => WorkerLoop
      case Exited => Join
      case _ => if c.main == StartupSignalled then StartupReturn else CancelReturn;
    assert Unblocking(e) && Enabled(c, e);
  }

  lemma MovesNearer(c: Context, e: Event)
    requires Inv(c) && Unblocking(e) && Enabled(c, e)
    ensures Rank(Do(c, e)) < Rank(c)
  {
    hide Histories, Outstanding;
  }

  /** While the simulator thread waits, some unblocking event can happen, and each brings the end nearer. */
  lemma Progress(c: Context)
    requires Inv(c)
    ensures c.main != Idle ==> exists e :: Unblocking(e) && Enabled(c, e)
    ensures forall e :: Unblocking(e) && Enabled(c, e) ==> Rank(Do(c, e)) < Rank(c)
  {
    hide Inv, Unblocking, Enabled, Do, Rank;
    if c.main != Idle {
      SomeoneMoves(c);
    }
    forall e | Unblocking(e) && Enabled(c, e)
      ensures Rank(Do(c, e)) < Rank(c)
    {
      MovesNearer(c, e);
    }
  }

  /** Unblocking events alone bring the simulator thread out of any wait, within `Rank` of them. */
  lemma {:induction false} WaitEnds(c: Context) returns (es: seq<Event>)
    requires Inv(c)
    ensures |es| <= Rank(c) && forall e :: e in es ==> Unblocking(e)
    ensures After(c, es).Some? && Inv(After(c, es).value) && After(c, es).value.main == Idle
    decreases Rank(c)
  {
    if c.main == Idle {
      return [];
    }
    Progress(c);
    var e :| Unblocking(e) && Enabled(c, e);
    StepInv(c, e);
    var rest := WaitEnds(Do(c, e));
    es := [e] + rest;
    AfterCons(c, e, rest);
  }

  lemma {:induction false} AfterCons(c: Context, e: Event, es: seq<Event>)
    requires Enabled(c, e)
    ensures After(c, [e] + es) == After(Do(c, e), es)
  {
    hide Do, Enabled;
    if es == [] {
      assert [e] + es == [e] && [e][..0] == [];
      assert After(c, [e][..0]) == Some(c);
    } else {
      assert ([e] + es)[..|es|] == [e] + es[..|es| - 1];
      AfterCons(c, e, es[..|es| - 1]);
    }
  }

  // ----- what the rule for callers is needed for -----

  /** Issuing aborts exactly when an earlier request has not been called back yet. */
  lemma IssueAborts(c: Context, r: Request, inlineStatus: int)
    requires Inv(c) && Enabled(c, Issue(r, inlineStatus))
    ensures Do(c, Issue(r, inlineStatus)).main == Aborted <==> |c.called| < |c.accepted|
  {
  }

  // ----- callers that break the rule -----

  ghost predicate Threads(c: Context) {
    Attending(c) && MainPlace(c)
  }

  lemma StepThreads(c: Context, e: Event)
    requires Threads(c) && Enabled(c, e)
    ensures Threads(Do(c, e))
  {
  }

  /** In every context that any callers can reach, the threads are where they should be. */
  lemma {:induction false} AnyRun(es: seq<Event>, c: Context)
    requires After(INITIAL, es) == Some(c)
    ensures Threads(c)
  {
    if es != [] {
      hide Threads, Do, Enabled;
      AnyRun(es[..|es| - 1], After(INITIAL, es[..|es| - 1]).value);
      StepThreads(After(INITIAL, es[..|es| - 1]).value, es[|es| - 1]);
    }
  }

  /** No request is handed over along the way. */
  predicate IssueFree(es: seq<Event>) {
    forall e :: e in es ==> !e.Issue?
  }

  /** What is executed on the spot when a request is handed over. */
  function OnTheSpot(r: Request, inlineStatus: int): seq<Execution> {
    if r.callback.None? then [Execution(r, inlineStatus)] else []
  }

  /** Between `c`, where a request is handed over, and `d` the I/O thread has carried it out. */
  predicate CarriedOut(c: Context, d: Context) {
    c.worker != Finishing && (d.dop == Done || d.worker == Finishing)
  }

  /** What has become of request `r`, handed over in `c`, by the time of `d`. */
  ghost predicate Fate(c: Context, r: Request, inlineStatus: int, d: Context) {
    var before := c.executed + OnTheSpot(r, inlineStatus);
    && Threads(d)
    && (if CarriedOut(c, d) then exists status :: d.executed == before + [Execution(r, status)]
        else d.executed == before)
    && (d.dop != Done && d.worker != Finishing ==> d.request == r)
    && (c.worker == Finishing && d.dop != Done ==> d.worker == Finishing)
  }

  lemma FateBegins(c: Context, r: Request, inlineStatus: int)
    requires Threads(c) && Enabled(c, Issue(r, inlineStatus)) && c.callback.None?
    ensures Fate(c, r, inlineStatus, Do(c, Issue(r, inlineStatus)))
  {
    StepThreads(c, Issue(r, inlineStatus));
  }

  lemma FateStep(c: Context, r: Request, inlineStatus: int, d: Context, e: Event)
    requires Fate(c, r, inlineStatus, d) && Enabled(d, e) && !e.Issue?
    ensures Fate(c, r, inlineStatus, Do(d, e))
  {
    StepThreads(d, e);
    var before := c.executed + OnTheSpot(r, inlineStatus);
    if e.WorkerExecute? {
      assert Do(d, e).executed == before + [Execution(r, e.status)];
    } else {
      assert Do(d, e).executed == d.executed;
    }
  }

  lemma {:induction false} FateRun(c: Context, r: Request, inlineStatus: int, es: seq<Event>, d: Context)
    requires Threads(c) && Enabled(c, Issue(r, inlineStatus)) && c.callback.None?
    requires IssueFree(es) && After(Do(c, Issue(r, inlineStatus)), es) == Some(d)
    ensures Fate(c, r, inlineStatus, d)
  {
    hide Threads, Fate, Do, Enabled;
    var c1 := Do(c, Issue(r, inlineStatus));
    if es == [] {
      FateBegins(c, r, inlineStatus);
    } else {
      var before := After(c1, es[..|es| - 1]).value;
      assert IssueFree(es[..|es| - 1]);
      FateRun(c, r, inlineStatus, es[..|es| - 1], before);
      FateStep(c, r, inlineStatus, before, es[|es| - 1]);
    }
  }

  /**
   * Whatever callers have done before and whatever happens until the next request is handed over,
   * the request is executed on the spot if it has no callback, and by the I/O thread unless that
   * was just finishing an earlier one. So it is executed exactly once if and only if one of these
   * holds without the other: twice without a callback, and never with one, otherwise.
   */
  lemma ExactlyOnce(before: seq<Event>, c: Context, r: Request, inlineStatus: int, es: seq<Event>, d: Context)
    requires After(INITIAL, before) == Some(c) && Enabled(c, Issue(r, inlineStatus)) && c.callback.None?
    requires IssueFree(es) && After(Do(c, Issue(r, inlineStatus)), es) == Some(d)
    ensures c.executed <= d.executed
    ensures forall i :: |c.executed| <= i < |d.executed| ==> d.executed[i].request == r
    ensures r.callback.None? ==> c.executed + [Execution(r, inlineStatus)] <= d.executed
    ensures |d.executed| - |c.executed| ==
      (if r.callback.None? then 1 else 0) + (if CarriedOut(c, d) then 1 else 0)
    ensures d.dop == Done ==>
      (|d.executed| - |c.executed| == 1 <==> (r.callback.Some? <==> c.worker != Finishing))
  {
    AnyRun(before, c);
    FateRun(c, r, inlineStatus, es, d);
    hide Threads, Do, Enabled;
  }

  /** Callers that keep the rule get each request executed exactly once. */
  lemma RuleMakesItOnce(before: seq<Event>, c: Context, r: Request, es: seq<Event>, d: Context)
    requires AllDisciplined(INITIAL, before) && After(INITIAL, before) == Some(c)
    requires Enabled(c, Issue(r, 0)) && Disciplined(c, Issue(r, 0))
    requires IssueFree(es) && After(Do(c, Issue(r, 0)), es) == Some(d) && d.dop == Done
    ensures |d.executed| == |c.executed| + 1 && c.executed <= d.executed
    ensures d.executed[|c.executed|].request == r
  {
    assert Inv(INITIAL);
    RunInv(INITIAL, before);
    ExactlyOnce(before, c, r, 0, es, d);
  }

  // ----- when a call has returned -----

  /**
   * What callers find when a call has returned, whatever they did before: no request in progress
   * after a cancel, the I/O thread waiting for requests once asynchronous operation is on, and gone
   * once it is off. Until then the simulator thread waits.
   */
  lemma Returned(es: seq<Event>, c: Context)
    requires es != [] && After(INITIAL, es) == Some(c)
    ensures var last := es[|es| - 1];
      && (last in {Cancel, CancelReturn} && c.main == Idle ==> c.dop == Done)
      && (last in {Cancel, CancelReturn} && c.dop != Done ==> c.main == AwaitDone)
      && (last == SetAsync ==> c.main == AwaitStartup && c.asynch)
      && (last == StartupReturn ==> c.main == Idle && c.asynch && c.worker == Waiting && c.dop == Done)
      && (last == ClrAsync ==> c.main == Joining && !c.asynch)
      && (last == Join ==> c.main == Idle && !c.asynch && c.worker == Absent && c.dop == Done)
  {
    hide AnyCalls;
    AnyRun(es[..|es| - 1], After(INITIAL, es[..|es| - 1]).value);
  }

  /** Callers that keep the rule find every request carried out, in order, when a cancel has returned. */
  lemma CancelCarriesOut(es: seq<Event>, c: Context)
    requires es != [] && AllDisciplined(INITIAL, es) && After(INITIAL, es) == Some(c)
    requires es[|es| - 1] in {Cancel, CancelReturn} && c.main == Idle
    ensures |c.executed| == |c.accepted|
    ensures forall i :: 0 <= i < |c.accepted| ==> c.executed[i].request == c.accepted[i]
  {
    Returned(es, c);
    hide Do, Enabled, AllDisciplined, After;
    assert Inv(INITIAL);
    RunInv(INITIAL, es);
    hide WorkerPlace, MainPlace;
  }

  /** The calls a simulator thread makes: it has to be free for them. */
  predicate AnyCalls(e: Event) {
    e in {SetAsync, Dispatch, Cancel, ClrAsync} || e.Issue?
  }

  /** From the beginning of a cancel with a request in progress until it comes back no call is made. */
  lemma {:induction false} CancelBlocks(c: Context, es: seq<Event>, d: Context)
    requires Enabled(c, Cancel) && c.dop != Done && CancelReturn !in es && After(Do(c, Cancel), es) == Some(d)
    ensures d.main in {AwaitDone, DoneSignalled}
    ensures forall e :: e in es ==> !AnyCalls(e)
    ensures d.main == DoneSignalled ==> exists i :: 0 <= i < |es| && es[i] == WorkerFinish
  {
    if es != [] {
      var before := es[..|es| - 1];
      var b := After(Do(c, Cancel), before).value;
      CancelBlocks(c, before, b);
      var last := es[|es| - 1];
      assert !AnyCalls(last);
      assert forall e :: e in es ==> e in before || e == last;
      if d.main == DoneSignalled {
        if b.main == DoneSignalled {
          var i :| 0 <= i < |before| && before[i] == WorkerFinish;
          assert es[i] == WorkerFinish;
        }
      }
    }
  }

  /** For callers that keep the rule every completion the simulator thread takes up calls back once. */
  lemma DispatchCallsBack(es: seq<Event>, c: Context)
    requires AllDisciplined(INITIAL, es) && After(INITIAL, es) == Some(c) && Enabled(c, Dispatch)
    ensures var d, n := Do(c, Dispatch), |c.called|;
      && n < |c.executed| && n < |c.accepted| && c.accepted[n].callback.Some?
      && d.called == c.called + [Completion(c.accepted[n].callback.value, c.executed[n].status)]
      && |d.called| == |d.executed| == |d.accepted| && d.callback.None? && d.queued == 0
  {
    assert Inv(INITIAL);
    RunInv(INITIAL, es);
    hide After, AllDisciplined, MainPlace;
    var n := |c.called|;
    assert |c.executed| == n + 1 == |c.accepted| && c.callback == c.accepted[n].callback;
  }

  // ----- what becomes of all requests together -----

  /** A handover loses a request, the new one or the one before it, when that is not finished. */
  predicate Loses(c: Context, e: Event) {
    e.Issue? && c.callback.None? && c.dop != Done
  }

  ghost predicate LosesAt(es: seq<Event>, i: nat)
    requires i < |es|
  {
    var before := After(INITIAL, es[..i]);
    before.Some? && Loses(before.value, es[i])
  }

  /** How many requests the events have lost. */
  ghost function Lost(es: seq<Event>): nat {
    if es == [] then 0
    else Lost(es[..|es| - 1]) + if LosesAt(es, |es| - 1) then 1 else 0
  }

  /** How many requests were executed on the spot. */
  ghost function Spot(es: seq<Event>): nat {
    if es == [] then 0
    else
      var e := es[|es| - 1];
      Spot(es[..|es| - 1]) + if e.Issue? && e.request.callback.None? then 1 else 0
  }

  /** A request is handed over and not yet carried out. */
  function Pending(c: Context): nat {
    if c.dop != Done && c.worker != Finishing then 1 else 0
  }

  ghost predicate Balanced(es: seq<Event>, c: Context) {
    |c.executed| + Lost(es) + Pending(c) == |c.accepted| + Spot(es)
  }

  lemma BalanceStep(es: seq<Event>, c: Context, e: Event)
    requires After(INITIAL, es) == Some(c) && Balanced(es, c) && Threads(c) && Enabled(c, e)
    ensures Balanced(es + [e], Do(c, e))
  {
    assert (es + [e])[..|es|] == es;
  }

  /**
   * For any callers at all: the requests handed over are those the I/O thread has executed, the one
   * pending and those lost.
   */
  lemma {:induction false} NothingElseLost(es: seq<Event>, c: Context)
    requires After(INITIAL, es) == Some(c)
    ensures Balanced(es, c)
  {
    if es != [] {
      hide Do, Enabled, Threads, Balanced;
      var before := es[..|es| - 1];
      var b := After(INITIAL, before).value;
      NothingElseLost(before, b);
      AnyRun(before, b);
      BalanceStep(before, b, es[|es| - 1]);
      assert before + [es[|es| - 1]] == es;
    }
  }

  lemma LosesSame(es: seq<Event>, n: nat, i: nat)
    requires i < n <= |es|
    ensures LosesAt(es[..n], i) == LosesAt(es, i)
  {
    assert es[..n][..i] == es[..i];
  }

  lemma {:induction false} NoneLost(es: seq<Event>)
    ensures Lost(es) == 0 <==> forall i :: 0 <= i < |es| ==> !LosesAt(es, i)
  {
    if es != [] {
      hide LosesAt;
      var n := |es| - 1;
      NoneLost(es[..n]);
      forall i: nat | i < n
        ensures LosesAt(es[..n], i) == LosesAt(es, i)
      {
        LosesSame(es, n, i);
      }
    }
  }

  /**
   * Once nothing is pending, the I/O thread has executed all that was handed over to it if and only
   * if every handover found it done with the one before, which the code does not look at.
   */
  lemma AllExecuted(es: seq<Event>, c: Context)
    requires After(INITIAL, es) == Some(c) && c.dop == Done
    ensures |c.executed| - Spot(es) == |c.accepted| <==> forall i :: 0 <= i < |es| ==> !LosesAt(es, i)
  {
    NothingElseLost(es, c);
    NoneLost(es);
    hide After, LosesAt;
  }

  // ----- runs that lose and runs that abort -----

  lemma Then(es: seq<Event>, c: Context, e: Event)
    requires After(INITIAL, es) == Some(c) && Enabled(c, e)
    ensures After(INITIAL, es + [e]) == Some(Do(c, e))
  {
    hide Do, Enabled;
    assert (es + [e])[..|es|] == es;
  }

  /** The context once asynchronous operation has been turned on. */
  const READY := INITIAL.(asynch := true, worker := Waiting)

  lemma TurnedOn()
    ensures After(INITIAL, [] + [SetAsync] + [WorkerStart] + [StartupReturn]) == Some(READY)
  {
    Then([], INITIAL, SetAsync);
    Then([] + [SetAsync], Do(INITIAL, SetAsync), WorkerStart);
    Then([] + [SetAsync] + [WorkerStart], Do(Do(INITIAL, SetAsync), WorkerStart), StartupReturn);
  }

  /** A request without a callback that has just been carried out on a new I/O thread. */
  lemma FirstCarriedOut(r: Request, s0: int, s1: int) returns (es: seq<Event>, c: Context)
    requires r.callback.None? && r.dop != Done
    ensures After(INITIAL, es) == Some(c)
    ensures c == READY.(dop := r.dop, request := r, status := s1, worker := Finishing,
                        accepted := [r], executed := [Execution(r, s0), Execution(r, s1)])
  {
    TurnedOn();
    var e0 := [] + [SetAsync] + [WorkerStart] + [StartupReturn];
    Then(e0, READY, Issue(r, s0));
    var c1 := Do(READY, Issue(r, s0));
    Then(e0 + [Issue(r, s0)], c1, WorkerWake);
    var c2 := Do(c1, WorkerWake);
    Then(e0 + [Issue(r, s0)] + [WorkerWake], c2, WorkerExecute(s1));
    es, c := e0 + [Issue(r, s0)] + [WorkerWake] + [WorkerExecute(s1)], Do(c2, WorkerExecute(s1));
    hide After;
  }

  /** The I/O thread finishes what it has just carried out. */
  lemma Finishes(before: seq<Event>, c: Context) returns (es: seq<Event>, d: Context)
    requires After(INITIAL, before) == Some(c) && c.worker == Finishing && c.main == Idle && c.asynch
    ensures After(INITIAL, es) == Some(d)
    ensures d == c.(dop := Done, worker := Waiting, queued := c.queued + 1)
  {
    hide After;
    Then(before, c, WorkerFinish);
    var c1 := Do(c, WorkerFinish);
    Then(before + [WorkerFinish], c1, WorkerActivate);
    var c2 := Do(c1, WorkerActivate);
    Then(before + [WorkerFinish] + [WorkerActivate], c2, WorkerLoop);
    es, d := before + [WorkerFinish] + [WorkerActivate] + [WorkerLoop], Do(c2, WorkerLoop);
  }

  /**
   * A request with a callback, handed over while the I/O thread is finishing one without, is never
   * executed; its callback runs all the same, with the status of the other.
   */
  lemma LostRequest(r1: Request, r2: Request, s0: int, s1: int) returns (es: seq<Event>, c: Context)
    requires r1.callback.None? && r2.callback.Some? && r1.dop != Done && r2.dop != Done
    ensures After(INITIAL, es) == Some(c) && c.main == Idle && c.dop == Done && c.worker == Waiting
    ensures c.accepted == [r1, r2] && c.executed == [Execution(r1, s0), Execution(r1, s1)]
    ensures c.called == [Completion(r2.callback.value, s1)] && c.callback.None? && c.queued == 0
  {
    var e0, c0 := FirstCarriedOut(r1, s0, s1);
    hide After;
    var issue := Issue(r2, 0);
    Then(e0, c0, issue);
    var e1, c1 := Finishes(e0 + [issue], Do(c0, issue));
    Then(e1, c1, Dispatch);
    es, c := e1 + [Dispatch], Do(c1, Dispatch);
  }

  /** A request without a callback that another overtakes is executed on the spot only. */
  lemma Overtaken(r1: Request, r2: Request, s0: int, s2: int) returns (es: seq<Event>, c: Context)
    requires r1.callback.None? && r2.callback.Some? && r1.dop != Done && r2.dop != Done
    ensures After(INITIAL, es) == Some(c) && c.main == Idle && c.accepted == [r1, r2]
    ensures c.worker == Finishing && c.executed == [Execution(r1, s0), Execution(r2, s2)]
  {
    TurnedOn();
    hide After;
    var e0 := [] + [SetAsync] + [WorkerStart] + [StartupReturn];
    var i1, i2 := Issue(r1, s0), Issue(r2, 0);
    Then(e0, READY, i1);
    var c1 := Do(READY, i1);
    Then(e0 + [i1], c1, i2);
    var c2 := Do(c1, i2);
    Then(e0 + [i1] + [i2], c2, WorkerWake);
    var c3 := Do(c2, WorkerWake);
    Then(e0 + [i1] + [i2] + [WorkerWake], c3, WorkerExecute(s2));
    es, c := e0 + [i1] + [i2] + [WorkerWake] + [WorkerExecute(s2)], Do(c3, WorkerExecute(s2));
  }

  /** The completion of a request without a callback aborts when the next one is on its way. */
  lemma StaleCompletion(r1: Request, r2: Request, s0: int, s1: int) returns (es: seq<Event>, c: Context)
    requires r1.callback.None? && r2.callback.Some? && r1.dop != Done && r2.dop != Done
    ensures After(INITIAL, es) == Some(c) && c.main == Aborted && c.accepted == [r1, r2]
  {
    var e0, c0 := FirstCarriedOut(r1, s0, s1);
    hide After;
    var issue := Issue(r2, 0);
    var e1, c1 := Finishes(e0, c0);
    Then(e1, c1, issue);
    var c2 := Do(c1, issue);
    Then(e1 + [issue], c2, Dispatch);
    es, c := e1 + [issue] + [Dispatch], Do(c2, Dispatch);
  }
}
