/** Whole runs of one message: retries, alerts, sweeps, crashes and restarts in any order. */
module Lifecycle {
  import opened Wrappers
  import opened MessageStore
  import opened Routing
  import opened Forwarder

  /**
    * One step. A retry and an alert work on the row as it was when they listed it; a crash
    * is the end of the process in the middle of sending.
    */
  datatype Step =
    | Retry(m: Row, env: Env)
    | Crash
    | Alert(m: Row, source: Source, now: int)
    | Sweep(now: int)
    | Restart(now: int)

  function Do(l: Ledger, s: Step): Ledger {
    match s
    case Retry(m, env) => Retried(l, m, env)
    case Crash => Apply(l, Claim(RETRYABLE))
    case Alert(m, source, now) => if Awaiting(m, FilterOf(source)) then Apply(l, AlertCall(m, source, now)) else l
    case Sweep(now) => if Overdue(l.row, now) then ApplyAll(l, SweepCalls(l.row, now)) else l
    case Restart(now) => Recovered(l, now)
  }

  function Run(l: Ledger, steps: seq<Step>): Ledger
    decreases |steps|
  {
    if steps == [] then l else Run(Do(l, steps[0]), steps[1..])
  }

  /** A row that differs from another at most in what a sweep or an alert without a stale cursor changes. */
  predicate Listed(m: Row, row: Row) {
    && m.retryCount == row.retryCount && m.routeCursor == row.routeCursor
    && m.deferredInterface == row.deferredInterface && m.submittedAt == row.submittedAt
    && (m.reason == SgdAlertRetry ==> row.reason == SgdAlertRetry)
  }

  lemma RunNone(l: Ledger)
    ensures Run(l, []) == l
  {
  }

  lemma RunOne(l: Ledger, s: Step)
    ensures Run(l, [s]) == Do(l, s)
  {
    hide Do;
    assert [s][1..] == [];
  }

  lemma RunTwo(l: Ledger, s: Step, t: Step)
    ensures Run(l, [s, t]) == Do(Do(l, s), t)
  {
    hide Do;
    RunOne(Do(l, s), t);
    assert [s, t][1..] == [t];
  }

  /**
    * What is listed was there: an alert's row at any time before, in `past` if not now; a
    * retry's since the one scheduler last came to the message, in `listed` if not now.
    */
  ghost predicate Timely(past: set<Row>, listed: set<Row>, l: Ledger, steps: seq<Step>)
    decreases |steps|
  {
    steps == [] ||
    var s := steps[0];
    && (s.Retry? ==> s.m in listed + {l.row})
    && (s.Alert? ==> s.m in past + {l.row})
    && Timely(past + {l.row}, StillListed(listed, l, s), Do(l, s), steps[1..])
  }

  ghost function StillListed(listed: set<Row>, l: Ledger, s: Step): set<Row> {
    if s.Alert? || s.Sweep? then listed + {l.row} else {}
  }

  /** Every retry of a run works on a row that was due. */
  ghost predicate OnTime(steps: seq<Step>) { forall s :: s in steps && s.Retry? ==> Due(s.m, s.env.now) }

  // ----- what one retry does -----

  predicate Claimable(l: Ledger) { l.row.status in RETRYABLE }

  /** What a deferral leaves alone, and where it puts the cursor. */
  lemma AfterDefer(l: Ledger, env: Env, cursor: int, from: int, route: Option<Route>)
    ensures var d := ApplyAll(l, Defer(env, cursor, from, route));
            var r := if route.Some? then route.value else Planned(env, cursor);
            && d.reports == l.reports && d.writes == l.writes
            && d.row.status == l.row.status && d.row.retryCount == l.row.retryCount
            && d.row.submittedAt == l.row.submittedAt && d.row.receiptWanted == l.row.receiptWanted
            && d.row.nextRetryAt == l.row.nextRetryAt
            && d.row.deferredInterface == (if r.egress == Sgd then Sgd else NoInterface)
            && d.row.routeCursor == CursorAfter(Some(r)) && d.row.reason != SgdAlertRetry
            && (env.queueLifetime > 0 ==> d.row.expiryAt.Some?)
            && (l.row.expiryAt.Some? ==> d.row.expiryAt.Some?)
  {
    hide Planned, Lifetime, ApplyAll;
    var c, caps := Deferral(env, cursor, route), CapCalls(env, from, route);
    ApplyAllAppend(l, [c], caps);
    ApplyOne(l, c);
    if caps != [] {
      ApplyOne(Apply(l, c), caps[0]);
    } else {
      ApplyNone(Apply(l, c));
    }
    LifetimeOfQueue(env, route);
  }

  lemma ApplyNone(l: Ledger)
    ensures ApplyAll(l, []) == l
  {
  }

  lemma LifetimeOfQueue(env: Env, route: Option<Route>)
    ensures env.queueLifetime > 0 ==> Lifetime(env, route).Some?
  {
  }

  /** The last writes of a finaliser, made on a row that was deferred. */
  lemma Finish(l: Ledger, calls: seq<Call>, a: Call, more: seq<Call>)
    ensures ApplyAll(l, calls + [a]) == Apply(ApplyAll(l, calls), a)
    ensures ApplyAll(l, calls + []) == ApplyAll(l, calls)
    ensures ApplyAll(l, calls + [a] + more) == ApplyAll(Apply(ApplyAll(l, calls), a), more)
  {
    hide Apply;
    var d := ApplyAll(l, calls);
    ApplyAllAppend(l, calls, [a]);
    ApplyOne(d, a);
    assert calls + [] == calls;
    ApplyAllAppend(l, calls + [a], more);
  }

  function EndOf(m: Row, env: Env): PassOutcome { RetryResult(m, env).outcome }

  function RouteOf(m: Row, env: Env): Option<Route> {
    var r := RetryResult(m, env);
    if r.outcome == PassWaitTimer then r.lastAttempted else r.eventRoute
  }

  function NextOf(m: Row, env: Env): Schedule { NextRetry(m, env, RouteOf(m, env)) }

  lemma RetriedDelivered(l: Ledger, m: Row, env: Env)
    requires Claimable(l) && EndOf(m, env) == PassDelivered
    ensures var a := Retried(l, m, env);
            && a.row.status == Delivered && a.reports == l.reports + [Delivered]
            && a.writes == l.writes + [Dispatched, Delivered]
            && a.row.(status := l.row.status, egress := l.row.egress, egressPeer := l.row.egressPeer,
                      deliveredAt := l.row.deliveredAt) == l.row
  {
    hide Pass, Single;
    DeliveredRetry(m, env);
    var c := Apply(l, Claim(RETRYABLE));
    var route := RetryResult(m, env).deliveredRoute.value;
    ApplyThree(c, SetRouting(route.egress, route.peer), SetStatus(Delivered, env.now), Report(Delivered));
  }

  /** What a retry writes behind its deferral, if it does not deliver. */
  function EndCalls(m: Row, env: Env): seq<Call> {
    var event, route := SetStatus(WaitTimerEvent, env.now), RouteOf(m, env);
    match EndOf(m, env)
    case PassWaitEvent => [SetStatus(WaitEvent, env.now)]
    case PassWaitTimerEvent =>
      (match NextOf(m, env)
       case Next(t) => [SetRetry(m.retryCount + 1, t, CursorAfter(route)), event]
       case Exhausted => [SetStatus(Failed, env.now), Report(Failed), event]
       case Panic => [])
    case _ => ScheduleCalls(m, env, route)
  }

  function DeferCalls(m: Row, env: Env): seq<Call> {
    Defer(env, m.routeCursor, m.submittedAt, RouteOf(m, env))
  }

  lemma RetryIsDeferAndEnd(m: Row, env: Env)
    requires EndOf(m, env) != PassDelivered
    ensures EndOf(m, env) != PassFailed
    ensures RetryCalls(m, env) == DeferCalls(m, env) + EndCalls(m, env)
  {
    hide Pass, Single, Defer, NextRetry, CursorAfter;
    PassRoutes(env, m.routeCursor);
    SingleRoutes(env, m.routeCursor);
    var defer, event := DeferCalls(m, env), SetStatus(WaitTimerEvent, env.now);
    var schedule := ScheduleCalls(m, env, RouteOf(m, env));
    assert defer + schedule + [event] == defer + (schedule + [event]);
    assert Fail(env.now) + [event] == [SetStatus(Failed, env.now), Report(Failed), event];
    assert defer + [] + [] == defer + [];
  }

  function Deferred(l: Ledger, m: Row, env: Env): Ledger {
    ApplyAll(Apply(l, Claim(RETRYABLE)), Defer(env, m.routeCursor, m.submittedAt, RouteOf(m, env)))
  }

  /** A retry that does not deliver, as a deferral of the claimed row followed by at most two status writes. */
  lemma RetriedDeferred(l: Ledger, m: Row, env: Env)
    requires Claimable(l) && EndOf(m, env) != PassDelivered
    ensures EndOf(m, env) != PassFailed
    ensures var d, a, t := Deferred(l, m, env), Retried(l, m, env), NextOf(m, env);
            var failed := Apply(Apply(d, SetStatus(Failed, env.now)), Report(Failed));
            var next := if t.Next? then SetRetry(m.retryCount + 1, t.time, CursorAfter(RouteOf(m, env)))
                        else SetStatus(Failed, env.now);
            a == match EndOf(m, env)
                 case PassWaitTimer => if t.Panic? then d else if t.Exhausted? then failed else Apply(d, next)
                 case PassWaitTimerEvent =>
                   if t.Panic? then d
                   else Apply(if t.Exhausted? then failed else Apply(d, next), SetStatus(WaitTimerEvent, env.now))
                 case _ => Apply(d, SetStatus(WaitEvent, env.now))
  {
    hide Pass, Single, Apply, Defer, NextRetry, CursorAfter;
    PassRoutes(env, m.routeCursor);
    SingleRoutes(env, m.routeCursor);
    var c, route, t := Apply(l, Claim(RETRYABLE)), RouteOf(m, env), NextOf(m, env);
    var defer, end := Defer(env, m.routeCursor, m.submittedAt, route), SetStatus(WaitTimerEvent, env.now);
    var failed := SetStatus(Failed, env.now);
    Finish(c, defer, SetStatus(WaitEvent, env.now), []);
    Finish(c, defer, failed, [Report(Failed)]);
    assert defer + Fail(env.now) == defer + [failed] + [Report(Failed)];
    ApplyOne(Apply(ApplyAll(c, defer), failed), Report(Failed));
    Finish(c, defer + Fail(env.now), end, []);
    match t {
      case Next(_) =>
        var next := SetRetry(m.retryCount + 1, t.time, CursorAfter(route));
        Finish(c, defer, next, []);
        Finish(c, defer + [next], end, []);
        assert ScheduleCalls(m, env, route) == [next];
      case Exhausted =>
        assert ScheduleCalls(m, env, route) == Fail(env.now);
      case Panic =>
        assert ScheduleCalls(m, env, route) == [];
        assert defer + [] + [] == defer;
    }
  }

  lemma DeferredRow(l: Ledger, m: Row, env: Env)
    requires Claimable(l)
    ensures var d := Deferred(l, m, env);
            var r := if RouteOf(m, env).Some? then RouteOf(m, env).value else Planned(env, m.routeCursor);
            && d.reports == l.reports && d.writes == l.writes + [Dispatched]
            && d.row.status == Dispatched && d.row.retryCount == l.row.retryCount
            && d.row.submittedAt == l.row.submittedAt && d.row.receiptWanted == l.row.receiptWanted
            && d.row.nextRetryAt == l.row.nextRetryAt
            && d.row.deferredInterface == (if r.egress == Sgd then Sgd else NoInterface)
            && d.row.routeCursor == CursorAfter(Some(r)) && d.row.reason != SgdAlertRetry
            && (env.queueLifetime > 0 ==> d.row.expiryAt.Some?)
            && (l.row.expiryAt.Some? ==> d.row.expiryAt.Some?)
  {
    hide RouteOf, Planned, CursorAfter, Defer;
    AfterDefer(Apply(l, Claim(RETRYABLE)), env, m.routeCursor, m.submittedAt, RouteOf(m, env));
  }

  lemma FirstDelivered(validity: Option<int>, receiptWanted: bool, env: Env)
    requires Pass(env, 0).outcome == PassDelivered
    ensures var l, a := Inserted(validity, receiptWanted, env.now), FirstDispatch(validity, receiptWanted, env);
            && a.row.status == Delivered && a.reports == [Delivered] && a.writes == [Dispatched, Delivered]
            && a.row.(status := Dispatched, egress := NoInterface, egressPeer := "", deliveredAt := None) == l.row
  {
    hide Pass;
    PassRoutes(env, 0);
    var l, route := Inserted(validity, receiptWanted, env.now), Pass(env, 0).deliveredRoute.value;
    ApplyThree(l, SetRouting(route.egress, route.peer), SetStatus(Delivered, env.now), Report(Delivered));
  }

  lemma FirstDeferred(validity: Option<int>, receiptWanted: bool, env: Env)
    requires Pass(env, 0).outcome != PassDelivered
    ensures Pass(env, 0).outcome == PassWaitTimer || Pass(env, 0).outcome == PassWaitTimerEvent
    ensures var l, r := Inserted(validity, receiptWanted, env.now), Pass(env, 0);
            var route := if r.outcome == PassWaitTimer then r.lastAttempted else r.eventRoute;
            var deferred := ApplyAll(l, Defer(env, 0, env.now, route));
            var waiting := Apply(deferred, SetRetry(1, env.now + 30, CursorAfter(route)));
            FirstDispatch(validity, receiptWanted, env) ==
            if r.outcome == PassWaitTimer then waiting else Apply(waiting, SetStatus(WaitTimerEvent, env.now))
  {
    hide Pass, Defer, Apply, CursorAfter;
    var l, r := Inserted(validity, receiptWanted, env.now), Pass(env, 0);
    PassRoutes(env, 0);
    WaitEventOnlyFromSgd(env, 0);
    BaseOfIndex(env, 0);
    var route := if r.outcome == PassWaitTimer then r.lastAttempted else r.eventRoute;
    var defer, next := Defer(env, 0, env.now, route), SetRetry(1, env.now + 30, CursorAfter(route));
    Finish(l, defer, next, [SetStatus(WaitTimerEvent, env.now)]);
    assert defer + [next] + [SetStatus(WaitTimerEvent, env.now)] == defer + [next, SetStatus(WaitTimerEvent, env.now)];
    ApplyOne(Apply(ApplyAll(l, defer), next), SetStatus(WaitTimerEvent, env.now));
  }

  /** The first dispatch ends deferred or delivered, and never in a permanent failure or waiting for an event alone. */
  lemma FirstDispatchEnds(validity: Option<int>, receiptWanted: bool, env: Env)
    ensures var a, r := FirstDispatch(validity, receiptWanted, env), Pass(env, 0);
            && a.row.submittedAt == env.now && a.row.receiptWanted == receiptWanted && a.row.reason != SgdAlertRetry
            && match r.outcome
               case PassDelivered =>
                 a.row.status == Delivered && a.reports == [Delivered] && a.writes == [Dispatched, Delivered]
                 && a.row.routeCursor == 0 && a.row.deferredInterface == NoInterface && a.row.retryCount == 0
               case PassWaitTimer =>
                 a.row.status == WaitTimer && a.reports == [] && a.writes == [Dispatched, WaitTimer]
                 && a.row.retryCount == 1 && a.row.nextRetryAt == Some(env.now + 30)
                 && r.lastAttempted.Some? && a.row.routeCursor == CursorAfter(r.lastAttempted)
                 && (a.row.deferredInterface == Sgd <==> r.lastAttempted.value.egress == Sgd)
                 && (env.queueLifetime > 0 ==> a.row.expiryAt.Some?)
               case PassWaitTimerEvent =>
                 a.row.status == WaitTimerEvent && a.reports == []
                 && a.writes == [Dispatched, WaitTimer, WaitTimerEvent]
                 && a.row.retryCount == 1 && a.row.nextRetryAt == Some(env.now + 30)
                 && a.row.routeCursor == SGD_INDEX && a.row.deferredInterface == Sgd
                 && (env.queueLifetime > 0 ==> a.row.expiryAt.Some?)
               case _ => false
  {
    hide Pass, Defer, Planned, FirstDispatch, ApplyAll;
    var l, r := Inserted(validity, receiptWanted, env.now), Pass(env, 0);
    PassRoutes(env, 0);
    if r.outcome == PassDelivered {
      FirstDelivered(validity, receiptWanted, env);
    } else {
      FirstDeferred(validity, receiptWanted, env);
      AfterDefer(l, env, 0, env.now, if r.outcome == PassWaitTimer then r.lastAttempted else r.eventRoute);
    }
  }

  /** How the life of a message begins: a first dispatch that ran to its end, or one that crashed in it. */
  datatype Start = Start(validity: Option<int>, receiptWanted: bool, env: Env, crashed: bool)

  function Begin(b: Start): Ledger {
    if b.crashed then Inserted(b.validity, b.receiptWanted, b.env.now)
    else FirstDispatch(b.validity, b.receiptWanted, b.env)
  }

  lemma {:induction false} RunAppend(l: Ledger, a: seq<Step>, b: seq<Step>)
    ensures Run(l, a + b) == Run(Run(l, a), b)
    decreases |a|
  {
    hide Do;
    if a == [] {
      assert a + b == b;
    } else {
      assert (a + b)[1..] == a[1..] + b;
      RunAppend(Do(l, a[0]), a[1..], b);
    }
  }

  // ----- terminal statuses and their reports -----

  /** The step that writes FAILED, reports it, and then writes WAIT_TIMER_EVENT over it. */
  predicate Revives(l: Ledger, s: Step) {
    s.Retry? && Claimable(l) && EndOf(s.m, s.env) == PassWaitTimerEvent && NextOf(s.m, s.env).Exhausted?
  }

  function Revivals(l: Ledger, steps: seq<Step>): nat
    decreases |steps|
  {
    if steps == [] then 0
    else (if Revives(l, steps[0]) then 1 else 0) + Revivals(Do(l, steps[0]), steps[1..])
  }

  /** The report that a row's status calls for. */
  function Expected(row: Row): seq<Status> {
    if row.status == Delivered || row.status == Failed then [row.status]
    else if row.status == Expired && row.receiptWanted then [Expired]
    else []
  }

  function TerminalWrites(writes: seq<Status>): nat {
    if writes == [] then 0
    else TerminalWrites(writes[..|writes| - 1]) + if Terminal(writes[|writes| - 1]) then 1 else 0
  }

  lemma OneMoreWrite(writes: seq<Status>, s: Status)
    ensures TerminalWrites(writes + [s]) == TerminalWrites(writes) + if Terminal(s) then 1 else 0
  {
    assert (writes + [s])[..|writes|] == writes;
  }

  function FalseReports(k: nat): seq<Status> { seq(k, _ => Failed) }

  predicate Accounted(l: Ledger, k: nat) {
    && l.reports == FalseReports(k) + Expected(l.row)
    && l.writes != [] && l.writes[|l.writes| - 1] == l.row.status
    && TerminalWrites(l.writes) == k + if Terminal(l.row.status) then 1 else 0
  }

  /** A finished message is never touched again. */
  lemma {:induction false} TerminalIsAbsorbing(l: Ledger, steps: seq<Step>)
    requires Terminal(l.row.status)
    ensures Run(l, steps) == l && Revivals(l, steps) == 0
    decreases |steps|
  {
    if steps == [] {
    } else {
      assert Do(l, steps[0]) == l;
      TerminalIsAbsorbing(l, steps[1..]);
    }
  }

  lemma WriteAccounts(l: Ledger, row: Row, k: nat)
    requires Accounted(l, k) && !Terminal(l.row.status) && !Terminal(row.status)
    ensures Accounted(Write(l, row), k)
  {
    OneMoreWrite(l.writes, row.status);
  }

  lemma DeliveryAccounts(l: Ledger, m: Row, env: Env, k: nat)
    requires Accounted(l, k) && Claimable(l) && EndOf(m, env) == PassDelivered
    ensures Accounted(Retried(l, m, env), k)
  {
    hide Retried, EndOf, TerminalWrites;
    var w := l.writes + [Dispatched];
    OneMoreWrite(l.writes, Dispatched);
    RetriedDelivered(l, m, env);
    OneMoreWrite(w, Delivered);
    assert l.writes + [Dispatched, Delivered] == w + [Delivered];
  }

  lemma DeferralAccounts(l: Ledger, m: Row, env: Env, k: nat)
    requires Accounted(l, k) && Claimable(l) && EndOf(m, env) != PassDelivered
    ensures Accounted(Retried(l, m, env), if Revives(l, Retry(m, env)) then k + 1 else k)
  {
    hide Retried, EndOf, NextOf, RouteOf, TerminalWrites, CursorAfter, Deferred, FalseReports;
    var w := l.writes + [Dispatched];
    OneMoreWrite(l.writes, Dispatched);
    RetriedDeferred(l, m, env);
    DeferredRow(l, m, env);
    OneMoreWrite(w, Failed);
    OneMoreWrite(w, WaitTimer);
    OneMoreWrite(w, WaitEvent);
    OneMoreWrite(w + [Failed], WaitTimerEvent);
    OneMoreWrite(w + [WaitTimer], WaitTimerEvent);
    OneMoreFalseReport(k);
  }

  lemma OneMoreFalseReport(k: nat)
    ensures FalseReports(k) + [Failed] == FalseReports(k + 1)
  {
  }

  lemma RetryAccounts(l: Ledger, m: Row, env: Env, k: nat)
    requires Accounted(l, k) && Claimable(l)
    ensures Accounted(Retried(l, m, env), if Revives(l, Retry(m, env)) then k + 1 else k)
  {
    hide Retried, Accounted;
    if EndOf(m, env) == PassDelivered {
      DeliveryAccounts(l, m, env, k);
    } else {
      DeferralAccounts(l, m, env, k);
    }
  }

  lemma StepAccounts(l: Ledger, s: Step, k: nat)
    requires Accounted(l, k)
    ensures Accounted(Do(l, s), if Revives(l, s) then k + 1 else k)
  {
    hide TerminalWrites, Retried, EndOf, NextOf, FalseReports;
    match s {
      case Retry(m, env) =>
        if Claimable(l) {
          RetryAccounts(l, m, env, k);
        } else {
          assert Do(l, s) == l by { NotClaimed(l, m, env); }
        }
      case Crash =>
        if Claimable(l) {
          WriteAccounts(l, l.row.(status := Dispatched), k);
        }
      case Alert(m, source, now) =>
        if Awaiting(m, FilterOf(source)) && l.row.status in PENDING {
          WriteAccounts(l, Do(l, s).row, k);
        }
      case Sweep(now) =>
        if Overdue(l.row, now) {
          OneMoreWrite(l.writes, Expired);
          Swept(l, now);
        }
      case Restart(now) =>
        if l.row.status == Dispatched {
          WriteAccounts(l, Recovered(l, now).row, k);
        }
    }
  }

  lemma NotClaimed(l: Ledger, m: Row, env: Env)
    requires !Claimable(l)
    ensures Retried(l, m, env) == l
  {
  }

  lemma {:induction false} RunAccounts(l: Ledger, steps: seq<Step>, k: nat)
    requires Accounted(l, k)
    ensures Accounted(Run(l, steps), k + Revivals(l, steps))
    decreases |steps|
  {
    hide Accounted, Do, Revives;
    if steps == [] {
    } else {
      StepAccounts(l, steps[0], k);
      RunAccounts(Do(l, steps[0]), steps[1..], if Revives(l, steps[0]) then k + 1 else k);
    }
  }

  lemma BeginAccounts(b: Start)
    ensures Accounted(Begin(b), 0)
  {
    hide Pass, FirstDispatch;
    var a := Begin(b);
    OneMoreWrite([], Dispatched);
    OneMoreWrite([Dispatched], Delivered);
    OneMoreWrite([Dispatched], WaitTimer);
    OneMoreWrite([Dispatched, WaitTimer], WaitTimerEvent);
    assert [] + [Dispatched] == [Dispatched];
    assert [Dispatched] + [Delivered] == [Dispatched, Delivered];
    assert [Dispatched] + [WaitTimer] == [Dispatched, WaitTimer];
    assert [Dispatched, WaitTimer] + [WaitTimerEvent] == [Dispatched, WaitTimer, WaitTimerEvent];
    if !b.crashed {
      FirstDispatchEnds(b.validity, b.receiptWanted, b.env);
    }
  }

  /**
    * Conservation of reports: after any run, the reports are one false FAILED for each
    * revival, and then exactly the one that the final status calls for.
    */
  lemma {:induction false} ReportsAreAccountedFor(b: Start, steps: seq<Step>)
    ensures var end, k := Run(Begin(b), steps), Revivals(Begin(b), steps);
            && end.reports == FalseReports(k) + Expected(end.row)
            && TerminalWrites(end.writes) == k + if Terminal(end.row.status) then 1 else 0
  {
    hide Run, Begin, Revivals, TerminalWrites;
    BeginAccounts(b);
    RunAccounts(Begin(b), steps, 0);
  }

  lemma {:induction false} NoTerminalWrites(writes: seq<Status>)
    ensures TerminalWrites(writes) == 0 <==> forall i :: 0 <= i < |writes| ==> !Terminal(writes[i])
  {
    if writes == [] {
    } else {
      NoTerminalWrites(writes[..|writes| - 1]);
    }
  }

  /** No terminal status is ever overwritten, and the reports are right, exactly in runs without a revival. */
  lemma {:induction false} TerminalWritesAreLast(b: Start, steps: seq<Step>)
    ensures var end := Run(Begin(b), steps);
            && (end.reports == Expected(end.row) <==> Revivals(Begin(b), steps) == 0)
            && ((forall i :: 0 <= i < |end.writes| - 1 ==> !Terminal(end.writes[i]))
                <==> Revivals(Begin(b), steps) == 0)
  {
    hide Run, Begin, Revivals;
    BeginAccounts(b);
    RunAccounts(Begin(b), steps, 0);
    var end, k := Run(Begin(b), steps), Revivals(Begin(b), steps);
    assert |end.reports| == k + |Expected(end.row)|;
    assert k == 0 ==> FalseReports(k) + Expected(end.row) == Expected(end.row);
    NoTerminalWrites(end.writes[..|end.writes| - 1]);
  }

  /** FAILED is only ever left behind by a retry that ran out of attempts on a plain WAIT_TIMER outcome. */
  lemma FailedIsExhaustion(l: Ledger, s: Step)
    requires l.row.status != Failed
    ensures Do(l, s).row.status == Failed <==>
              s.Retry? && Claimable(l) && EndOf(s.m, s.env) == PassWaitTimer && NextOf(s.m, s.env).Exhausted?
  {
    hide Retried, EndOf, NextOf, RouteOf, Deferred, CursorAfter;
    match s {
      case Retry(m, env) =>
        if !Claimable(l) {
          NotClaimed(l, m, env);
        } else if EndOf(m, env) == PassDelivered {
          RetriedDelivered(l, m, env);
        } else {
          RetriedDeferred(l, m, env);
          DeferredRow(l, m, env);
        }
      case Sweep(now) =>
        Swept(l, now);
      case _ =>
    }
  }

  // ----- where the cursor can be -----

  /** Every retry sees n candidates, and no SGd alert arrives. */
  ghost predicate FixedRules(steps: seq<Step>, n: nat) {
    forall s :: s in steps ==> (s.Retry? ==> Candidates(s.env) == n) && !(s.Alert? && s.source == FromSgd)
  }

  predicate CursorKnown(row: Row, n: nat) {
    row.routeCursor in {0, SGD_INDEX, n} && row.reason != SgdAlertRetry
  }

  lemma CursorBehindPass(env: Env, cursor: int)
    requires cursor in {0, SGD_INDEX, Candidates(env)}
    ensures var r, n := Pass(env, cursor), Candidates(env);
            && r.outcome != PassFailed
            && (r.outcome == PassWaitTimer ==>
                  r.lastAttempted.Some? &&
                  CursorAfter(r.lastAttempted) == if cursor == SGD_INDEX || n == 3 then SGD_INDEX else n)
            && (r.outcome == PassWaitEvent || r.outcome == PassWaitTimerEvent ==>
                  r.eventRoute.Some? && CursorAfter(r.eventRoute) == SGD_INDEX)
  {
    hide Pass, Base, At, Fallback;
    PassRoutes(env, cursor);
    AtCandidate(env, cursor, Candidates(env) - 1);
    assert cursor < Candidates(env) ==> Base(env, cursor) == cursor by {
      if cursor < Candidates(env) { BaseOfIndex(env, cursor); }
    }
    assert cursor == Candidates(env) ==> Base(env, cursor) == 0 by { BaseOfEnd(env); }
  }

  lemma BaseOfEnd(env: Env)
    ensures Base(env, Candidates(env)) == 0
  {
    hide Fallback;
  }

  lemma StepKeepsCursor(l: Ledger, s: Step, n: nat)
    requires CursorKnown(l.row, n) && FixedRules([s], n)
    requires s.Retry? || s.Alert? ==> CursorKnown(s.m, n)
    ensures CursorKnown(Do(l, s).row, n)
  {
    hide Retried, Pass, Single, Deferred, CursorAfter, Fallback, NextRetry;
    assert s in [s];
    match s {
      case Retry(m, env) =>
        if !Claimable(l) {
          NotClaimed(l, m, env);
        } else if EndOf(m, env) == PassDelivered {
          RetriedDelivered(l, m, env);
        } else {
          RetriedDeferred(l, m, env);
          DeferredRow(l, m, env);
          CursorBehindPass(env, m.routeCursor);
        }
      case Sweep(now) =>
        Swept(l, now);
      case _ =>
    }
  }

  lemma {:induction false} RunKeepsCursor(past: set<Row>, listed: set<Row>, l: Ledger, steps: seq<Step>, n: nat)
    requires forall m :: m in past + listed + {l.row} ==> CursorKnown(m, n)
    requires FixedRules(steps, n) && Timely(past, listed, l, steps)
    ensures CursorKnown(Run(l, steps).row, n)
    decreases |steps|
  {
    hide Do, CursorKnown;
    assert l.row in past + listed + {l.row};
    if steps == [] {
    } else {
      StepKeepsCursor(l, steps[0], n);
      RunKeepsCursor(past + {l.row}, StillListed(listed, l, steps[0]), Do(l, steps[0]), steps[1..], n);
    }
  }

  /** With n candidates throughout and no SGd alert, the cursor is always 0, 2 or n. */
  lemma ReachableCursors(b: Start, steps: seq<Step>, n: nat)
    requires Candidates(b.env) == n && FixedRules(steps, n) && Timely({}, {}, Begin(b), steps)
    ensures Run(Begin(b), steps).row.routeCursor in {0, SGD_INDEX, n}
  {
    hide FirstDispatch, Pass, CursorAfter, Fallback;
    if !b.crashed {
      FirstDispatchEnds(b.validity, b.receiptWanted, b.env);
      CursorBehindPass(b.env, 0);
    }
    RunKeepsCursor({}, {}, Begin(b), steps, n);
  }

  /** Which of them the first dispatch leaves. */
  lemma CursorOfFirstDispatch(validity: Option<int>, receiptWanted: bool, env: Env)
    ensures FirstDispatch(validity, receiptWanted, env).row.routeCursor ==
            match Pass(env, 0).outcome
            case PassDelivered => 0
            case PassWaitTimer => if Candidates(env) == 3 then SGD_INDEX else Candidates(env)
            case _ => SGD_INDEX
  {
    hide Pass, FirstDispatch, CursorAfter, Fallback;
    FirstDispatchEnds(validity, receiptWanted, env);
    CursorBehindPass(env, 0);
  }

  // ----- waiting for an event -----

  /** A message that waits for an event alone will be tried at SGd next. */
  predicate WaitsAtSgd(row: Row) {
    row.status == WaitEvent ==> row.routeCursor == SGD_INDEX && row.deferredInterface == Sgd
  }

  lemma StepKeepsWaiting(l: Ledger, s: Step)
    requires WaitsAtSgd(l.row)
    ensures WaitsAtSgd(Do(l, s).row)
  {
    hide Retried, Pass, Single, Deferred, Fallback, NextRetry;
    match s {
      case Retry(m, env) =>
        if !Claimable(l) {
          NotClaimed(l, m, env);
        } else if EndOf(m, env) == PassDelivered {
          RetriedDelivered(l, m, env);
        } else {
          RetriedDeferred(l, m, env);
          DeferredRow(l, m, env);
          PassRoutes(env, m.routeCursor);
          SingleRoutes(env, m.routeCursor);
        }
      case Sweep(now) =>
        Swept(l, now);
      case _ =>
    }
  }

  lemma {:induction false} RunKeepsWaiting(l: Ledger, steps: seq<Step>)
    requires WaitsAtSgd(l.row)
    ensures WaitsAtSgd(Run(l, steps).row)
    decreases |steps|
  {
    hide Do, WaitsAtSgd;
    if steps == [] {
    } else {
      StepKeepsWaiting(l, steps[0]);
      RunKeepsWaiting(Do(l, steps[0]), steps[1..]);
    }
  }

  /** In every run; and the first dispatch itself never leaves a message waiting for an event alone. */
  lemma {:induction false} WaitingMeansSgd(b: Start, steps: seq<Step>)
    ensures Begin(b).row.status != WaitEvent
    ensures WaitsAtSgd(Run(Begin(b), steps).row)
  {
    hide FirstDispatch, Pass;
    if !b.crashed {
      FirstDispatchEnds(b.validity, b.receiptWanted, b.env);
    }
    RunKeepsWaiting(Begin(b), steps);
  }

  /** Exactly when a step leaves a message waiting for an event alone. */
  lemma WhenEventAlone(l: Ledger, s: Step)
    requires l.row.status != WaitEvent
    ensures Do(l, s).row.status == WaitEvent <==>
              s.Retry? && Claimable(l) && !WokenByAlert(s.m)
              && Base(s.env, s.m.routeCursor) == 2 && SgdWaits(s.env)
  {
    hide Retried, Pass, Single, Deferred, Fallback, NextRetry, CursorAfter, Base, Usual, SgdWaits;
    match s {
      case Retry(m, env) =>
        WaitEventOnlyFromSgd(env, m.routeCursor);
        SingleRoutes(env, m.routeCursor);
        if !Claimable(l) {
          NotClaimed(l, m, env);
        } else if EndOf(m, env) == PassDelivered {
          RetriedDelivered(l, m, env);
        } else {
          RetriedDeferred(l, m, env);
          DeferredRow(l, m, env);
        }
      case Sweep(now) =>
        Swept(l, now);
      case _ =>
    }
  }

  // ----- an alert aims at SGd -----

  /** A message deferred for SGd has its cursor there, which is where an alert makes it try. */
  predicate AimsAtSgd(row: Row) { row.deferredInterface == Sgd ==> row.routeCursor == SGD_INDEX }

  /**
    * A retry that an alert asked for finds SGd gone, and goes back on the schedule; or an
    * alert requeues a message deferred for SGd at a cursor that it listed before.
    */
  predicate LosesAim(l: Ledger, s: Step) {
    || (s.Retry? && Claimable(l) && WokenByAlert(s.m)
        && Base(s.env, s.m.routeCursor) == SGD_INDEX && Usual(s.env, SGD_INDEX).None? && NextOf(s.m, s.env).Next?)
    || (s.Alert? && Awaiting(s.m, FilterOf(s.source)) && l.row.status in PENDING
        && l.row.deferredInterface == Sgd && s.m.routeCursor != SGD_INDEX)
  }

  /** Those are the two steps which break the aim, whatever row a worker listed and whenever it did. */
  lemma OnlyLostAlertsMiss(l: Ledger, s: Step)
    requires AimsAtSgd(l.row)
    ensures AimsAtSgd(Do(l, s).row) <==> !LosesAim(l, s)
  {
    hide Retried, Pass, Single, Deferred, Fallback, NextRetry, Base, Usual, Planned;
    match s {
      case Retry(m, env) =>
        if !Claimable(l) {
          NotClaimed(l, m, env);
        } else if EndOf(m, env) == PassDelivered {
          RetriedDelivered(l, m, env);
          PassRoutes(env, m.routeCursor);
          SingleRoutes(env, m.routeCursor);
        } else {
          AimOfRetry(l, m, env);
        }
      case Sweep(now) =>
        Swept(l, now);
      case _ =>
    }
  }

  lemma AimOfRetry(l: Ledger, m: Row, env: Env)
    requires Claimable(l) && EndOf(m, env) != PassDelivered
    ensures AimsAtSgd(Retried(l, m, env).row) <==> !LosesAim(l, Retry(m, env))
  {
    hide Retried, Pass, Single, Deferred, Fallback, NextRetry, Base, Usual, Planned;
    RetriedDeferred(l, m, env);
    DeferredRow(l, m, env);
    PassRoutes(env, m.routeCursor);
    SingleRoutes(env, m.routeCursor);
    EgressOfIndex(env, m.routeCursor);
  }

  /** No step of a run loses the aim. */
  predicate KeepsAim(l: Ledger, steps: seq<Step>)
    decreases |steps|
  {
    steps == [] || (!LosesAim(l, steps[0]) && KeepsAim(Do(l, steps[0]), steps[1..]))
  }

  /** The message aims at SGd at the beginning of a run and after each of its steps. */
  predicate AlwaysAims(l: Ledger, steps: seq<Step>)
    decreases |steps|
  {
    AimsAtSgd(l.row) && (steps == [] || AlwaysAims(Do(l, steps[0]), steps[1..]))
  }

  lemma {:induction false} AimOfRun(l: Ledger, steps: seq<Step>)
    requires AimsAtSgd(l.row)
    ensures AlwaysAims(l, steps) <==> KeepsAim(l, steps)
    decreases |steps|
  {
    hide Do, AimsAtSgd, LosesAim;
    if steps == [] {
    } else {
      var next := Do(l, steps[0]);
      OnlyLostAlertsMiss(l, steps[0]);
      if AimsAtSgd(next.row) {
        AimOfRun(next, steps[1..]);
      }
    }
  }

  /** Every message aims at SGd from its first dispatch on, exactly as long as no step loses the aim. */
  lemma {:induction false} AimOfMessage(b: Start, steps: seq<Step>)
    ensures AimsAtSgd(Begin(b).row)
    ensures AlwaysAims(Begin(b), steps) <==> KeepsAim(Begin(b), steps)
  {
    hide FirstDispatch, Pass, AlwaysAims, KeepsAim, Fallback;
    if !b.crashed {
      FirstDispatchEnds(b.validity, b.receiptWanted, b.env);
      CursorBehindPass(b.env, 0);
      PassRoutes(b.env, 0);
    }
    AimOfRun(Begin(b), steps);
  }

  /** What the aim is for: a retry that an alert asked for tries SGd, under every rule table. */
  lemma AimedRetryTriesSgd(m: Row, env: Env)
    requires AimsAtSgd(m) && WokenByAlert(m)
    ensures Base(env, m.routeCursor) == SGD_INDEX
  {
    hide Fallback;
    BaseOfIndex(env, SGD_INDEX);
  }

  /**
    * After a lost aim the next SGd alert makes the message try another candidate, which is
    * the first one when the cursor was 0 or stood behind the last.
    */
  lemma LostAimTriesFirstCandidate(l: Ledger, s: Step, now: int)
    requires AimsAtSgd(l.row) && LosesAim(l, s)
    ensures var lost := Do(l, s);
            var woken := Do(lost, Alert(lost.row, FromSgd, now)).row;
            && WokenByAlert(woken)
            && woken.routeCursor == (if s.Retry? then 0 else s.m.routeCursor) != SGD_INDEX
            && forall env :: woken.routeCursor in {0, Candidates(env)} ==> Base(env, woken.routeCursor) == 0
  {
    hide Retried, Pass, Deferred, Fallback, NextRetry, Base, Planned;
    if s.Retry? {
      RetriedDeferred(l, s.m, s.env);
      DeferredRow(l, s.m, s.env);
      SingleRoutes(s.env, s.m.routeCursor);
      EgressOfIndex(s.env, s.m.routeCursor);
    }
    forall env ensures Base(env, 0) == 0 && Base(env, Candidates(env)) == 0 {
      BaseOfIndex(env, 0);
      BaseOfEnd(env);
    }
  }

  // ----- termination -----

  /** No alert, crash or restart, and no policy with more than `limit` retries. */
  ghost predicate Quiet(steps: seq<Step>, limit: nat) {
    forall s :: s in steps ==>
      (s.Retry? && forall id :: s.env.policies(id).Some? ==> s.env.policies(id).value.maxRetries <= limit) || s.Sweep?
  }

  /** How many retries can still be made. */
  function RetriesLeft(row: Row, limit: nat): int {
    if row.status !in RETRYABLE then 0
    else limit - row.retryCount + if row.routeCursor == SGD_INDEX then 1 else 2
  }

  predicate Limited(row: Row, limit: nat) { row.retryCount <= limit && row.reason != SgdAlertRetry }

  lemma RetryLimit(m: Row, env: Env, limit: nat)
    requires limit >= 8 && Quiet([Retry(m, env)], limit)
    ensures NextOf(m, env).Next? ==> m.retryCount + 1 <= limit
  {
    hide RouteOf, PolicyIdFor;
    var s := Retry(m, env);
    assert s in [s];
  }

  lemma StaysAtSgd(env: Env)
    ensures var r := Pass(env, SGD_INDEX);
            && (r.outcome == PassWaitTimer ==> CursorAfter(r.lastAttempted) == SGD_INDEX)
            && r.outcome != PassWaitTimerEvent
  {
    hide Pass, Fallback;
    CursorBehindPass(env, SGD_INDEX);
    WaitEventOnlyFromSgd(env, SGD_INDEX);
    BaseOfIndex(env, SGD_INDEX);
  }

  lemma RetryUsesOneUp(l: Ledger, m: Row, env: Env, limit: nat)
    requires limit >= 8 && Quiet([Retry(m, env)], limit)
    requires Claimable(l) && Listed(m, l.row) && Limited(l.row, limit)
    ensures var a := Retried(l, m, env).row;
            Limited(a, limit) && 0 <= RetriesLeft(a, limit) < RetriesLeft(l.row, limit)
            && (l.row.routeCursor == SGD_INDEX ==> a.routeCursor == SGD_INDEX && !Revives(l, Retry(m, env)))
            && (Revives(l, Retry(m, env)) ==> a.routeCursor == SGD_INDEX)
  {
    hide Retried, Pass, Single, Deferred, Fallback, NextRetry, Base, Planned, Quiet;
    RetryLimit(m, env, limit);
    StaysAtSgd(env);
    if EndOf(m, env) == PassDelivered {
      RetriedDelivered(l, m, env);
    } else {
      RetriedDeferred(l, m, env);
      DeferredRow(l, m, env);
      PassRoutes(env, m.routeCursor);
    }
  }

  /** The retries of a run that got their claim. */
  function RetriesMade(l: Ledger, steps: seq<Step>): nat
    decreases |steps|
  {
    if steps == [] then 0
    else (if steps[0].Retry? && Claimable(l) then 1 else 0) + RetriesMade(Do(l, steps[0]), steps[1..])
  }

  lemma {:induction false} RetriesAreBounded(
    past: set<Row>, listed: set<Row>, l: Ledger, steps: seq<Step>, limit: nat)
    requires limit >= 8 && Quiet(steps, limit) && Timely(past, listed, l, steps) && Limited(l.row, limit)
    requires forall m :: m in listed ==> Listed(m, l.row)
    ensures RetriesMade(l, steps) <= RetriesLeft(l.row, limit)
    ensures Revivals(l, steps) <= if l.row.routeCursor == SGD_INDEX then 0 else 1
    decreases |steps|
  {
    hide Retried, Listed, Revives, Quiet;
    if steps == [] {
    } else {
      var s := steps[0];
      QuietSplit(steps, limit);
      assert Listed(l.row, l.row) by { ListedNow(l.row); }
      match s {
        case Retry(m, env) =>
          if Claimable(l) {
            RetryUsesOneUp(l, m, env, limit);
          } else {
            NotClaimed(l, m, env);
            NoRevival(l, s);
          }
        case Sweep(now) =>
          Swept(l, now);
          NoRevival(l, s);
          ListedThroughSweep(listed, l, now);
      }
      RetriesAreBounded(past + {l.row}, StillListed(listed, l, s), Do(l, s), steps[1..], limit);
    }
  }

  lemma ListedNow(row: Row)
    ensures Listed(row, row)
  {
  }

  lemma ListedThroughSweep(listed: set<Row>, l: Ledger, now: int)
    requires forall m :: m in listed ==> Listed(m, l.row)
    ensures forall m :: m in listed + {l.row} ==> Listed(m, Do(l, Sweep(now)).row)
  {
    Swept(l, now);
  }

  lemma QuietSplit(steps: seq<Step>, limit: nat)
    requires steps != [] && Quiet(steps, limit)
    ensures Quiet([steps[0]], limit) && Quiet(steps[1..], limit) && (steps[0].Retry? || steps[0].Sweep?)
  {
    assert steps[0] in steps;
  }

  lemma NoRevival(l: Ledger, s: Step)
    requires !s.Retry? || !Claimable(l)
    ensures !Revives(l, s)
  {
  }

  /**
    * Without alerts, crashes and restarts, with `limit` bounding the default schedule's
    * eight retries and every policy's: a message is retried at most limit + 1 times, and
    * at most one FAILED is reported too early.
    */
  lemma EveryMessageTerminates(b: Start, steps: seq<Step>, limit: nat)
    requires limit >= 8 && Quiet(steps, limit) && Timely({}, {}, Begin(b), steps)
    ensures RetriesMade(Begin(b), steps) <= limit + 1
    ensures Revivals(Begin(b), steps) <= 1
    ensures |Run(Begin(b), steps).reports| <= 2
  {
    hide FirstDispatch, Pass, Quiet, CursorAfter;
    if !b.crashed {
      FirstDispatchEnds(b.validity, b.receiptWanted, b.env);
    }
    RetriesAreBounded({}, {}, Begin(b), steps, limit);
    ReportsAreAccountedFor(b, steps);
  }

  // ----- expiry -----

  /** The calls that a step makes. */
  function CallsOf(l: Ledger, s: Step): seq<Call> {
    match s
    case Retry(m, env) => if Claimable(l) then [Claim(RETRYABLE)] + RetryCalls(m, env) else []
    case Crash => [Claim(RETRYABLE)]
    case Alert(m, source, now) => if Awaiting(m, FilterOf(source)) then [AlertCall(m, source, now)] else []
    case Sweep(now) => if Overdue(l.row, now) then SweepCalls(l.row, now) else []
    case Restart(_) => []
  }

  /** Every limit that a run imposed. */
  function CapsOf(l: Ledger, steps: seq<Step>): seq<int>
    decreases |steps|
  {
    if steps == [] then [] else Caps(CallsOf(l, steps[0])) + CapsOf(Do(l, steps[0]), steps[1..])
  }

  lemma StepIsItsCalls(l: Ledger, s: Step)
    ensures Do(l, s) == if s.Restart? then Recovered(l, s.now) else ApplyAll(l, CallsOf(l, s))
  {
    hide Apply, ApplyAll, RetryCalls, AlertCall, SweepCalls;
    ApplyNone(l);
    ApplyOne(l, Claim(RETRYABLE));
    match s {
      case Retry(m, env) =>
        ApplyAllAppend(l, [Claim(RETRYABLE)], RetryCalls(m, env));
      case Alert(m, source, now) =>
        ApplyOne(l, AlertCall(m, source, now));
      case _ =>
    }
  }

  lemma LeastOfBoth(e: Option<int>, mid: Option<int>, initial: Option<int>, a: seq<int>, b: seq<int>)
    requires IsLeast(mid, initial, a) && IsLeast(e, mid, b)
    ensures IsLeast(e, initial, a + b)
  {
    var all := a + b;
    assert forall i :: 0 <= i < |all| ==> all[i] == if i < |a| then a[i] else b[i - |a|];
  }

  /** After any run a message expires at the least of its own validity and of every limit imposed on it. */
  lemma {:induction false} ExpiryOfRun(l: Ledger, steps: seq<Step>)
    ensures IsLeast(Run(l, steps).row.expiryAt, l.row.expiryAt, CapsOf(l, steps))
    decreases |steps|
  {
    hide Do, CallsOf, ApplyAll, Caps, IsLeast;
    if steps == [] {
      NothingImposed(l.row.expiryAt);
    } else {
      var next := Do(l, steps[0]);
      StepIsItsCalls(l, steps[0]);
      if steps[0].Restart? {
        RestartImposesNothing(l, steps[0]);
      } else {
        ExpiryIsLeast(l, CallsOf(l, steps[0]));
      }
      ExpiryOfRun(next, steps[1..]);
      LeastOfBoth(Run(l, steps).row.expiryAt, next.row.expiryAt, l.row.expiryAt, Caps(CallsOf(l, steps[0])),
                  CapsOf(next, steps[1..]));
    }
  }

  /** The same from the moment a message is inserted, with the caps of its first dispatch. */
  function CapsOfMessage(b: Start, steps: seq<Step>): seq<int> {
    FirstRoutes(b.env);
    (if b.crashed then [] else Caps(DispatchCalls(b.env, Pass(b.env, 0)))) + CapsOf(Begin(b), steps)
  }

  lemma FirstRoutes(env: Env)
    ensures Pass(env, 0).outcome == PassDelivered ==> Pass(env, 0).deliveredRoute.Some?
  {
    hide Pass;
    PassRoutes(env, 0);
  }

  /**
    * In every run a message expires at the least of its submission plus its validity and of
    * every cap; and if its retries read it with its time of submission, each cap is that time
    * plus a lifetime that a pass of it allowed.
    */
  lemma {:induction false} ExpiryOfMessage(b: Start, steps: seq<Step>)
    ensures IsLeast(Run(Begin(b), steps).row.expiryAt,
                    if b.validity.Some? then Some(b.env.now + b.validity.value) else None, CapsOfMessage(b, steps))
    ensures SubmittedAt(steps, b.env.now) ==> forall cap :: cap in CapsOfMessage(b, steps) ==>
              Allows(b.env, cap - b.env.now) || exists s :: s in steps && s.Retry? && Allows(s.env, cap - b.env.now)
  {
    hide Pass, FirstDispatch, DispatchCalls, Caps, IsLeast, CapsOf, Run, Allows, SubmittedAt;
    var l := Inserted(b.validity, b.receiptWanted, b.env.now);
    FirstRoutes(b.env);
    var first := if b.crashed then [] else Caps(DispatchCalls(b.env, Pass(b.env, 0)));
    if b.crashed {
      NothingImposed(l.row.expiryAt);
    } else {
      FirstIsItsCalls(b);
      ExpiryIsLeast(l, DispatchCalls(b.env, Pass(b.env, 0)));
      FirstCaps(b.env);
    }
    ExpiryOfRun(Begin(b), steps);
    LeastOfBoth(Run(Begin(b), steps).row.expiryAt, Begin(b).row.expiryAt, l.row.expiryAt,
                first, CapsOf(Begin(b), steps));
    BeginSubmitted(b);
    if SubmittedAt(steps, b.env.now) {
      CapsAreLifetimes(Begin(b), steps);
    }
  }

  ghost predicate SubmittedAt(steps: seq<Step>, t: int) { forall s :: s in steps && s.Retry? ==> s.m.submittedAt == t }

  /** A lifetime in a network: the queue's, or the lifetime or the override of a matching rule's policy. */
  ghost predicate Allows(env: Env, t: int) {
    && t > 0
    && (t == env.queueLifetime ||
        exists d :: d in env.matched && env.policies(d.policyId).Some? &&
          (t == env.policies(d.policyId).value.maxTtl || env.policies(d.policyId).value.vpOverride == Some(t)))
  }

  /** A route names no policy, or one of the rules'. */
  ghost predicate NamesRule(env: Env, route: Option<Route>) {
    route.Some? && route.value.policyId != "" ==> exists d :: d in env.matched && d.policyId == route.value.policyId
  }

  lemma CandidateNamesRule(env: Env, i: nat)
    requires i < Candidates(env)
    ensures NamesRule(env, Usual(env, i)) && NamesRule(env, Some(Attempted(env, i)))
  {
    hide Fallback, Base;
    BaseOfIndex(env, i);
    FallbackUsable(env.matched);
    if i >= BUILT_IN {
      assert Fallback(env.matched)[i - BUILT_IN] in Fallback(env.matched);
    }
  }

  lemma PassNamesRules(env: Env, cursor: int)
    ensures NamesRule(env, Pass(env, cursor).lastAttempted) && NamesRule(env, Pass(env, cursor).eventRoute)
    ensures NamesRule(env, Single(env, cursor).lastAttempted) && NamesRule(env, Single(env, cursor).eventRoute)
  {
    hide Fallback, At, Attempted, Resolved, NamesRule, Base;
    assert NamesRule(env, None) by { NothingNamesRule(env); }
    var stop := StopOffset(env, cursor);
    CandidateNamesRule(env, At(env, cursor, if stop.Some? then stop.value else Candidates(env) - 1));
    CandidateNamesRule(env, Base(env, cursor));
  }

  lemma NothingNamesRule(env: Env)
    ensures NamesRule(env, None)
  {
  }

  lemma LifetimeAllowed(env: Env, route: Option<Route>)
    requires NamesRule(env, route) && Lifetime(env, route).Some?
    ensures Allows(env, Lifetime(env, route).value)
  {
  }

  lemma FirstIsItsCalls(b: Start)
    requires !b.crashed
    ensures Pass(b.env, 0).outcome == PassDelivered ==> Pass(b.env, 0).deliveredRoute.Some?
    ensures Begin(b) == ApplyAll(Inserted(b.validity, b.receiptWanted, b.env.now), DispatchCalls(b.env, Pass(b.env, 0)))
  {
    hide Pass, DispatchCalls, ApplyAll;
    FirstRoutes(b.env);
  }

  lemma BeginSubmitted(b: Start)
    ensures Begin(b).row.submittedAt == b.env.now
  {
    hide Pass, FirstDispatch;
    if !b.crashed {
      FirstDispatchEnds(b.validity, b.receiptWanted, b.env);
    }
  }

  lemma {:induction false} CapsAppend(a: seq<Call>, b: seq<Call>)
    ensures Caps(a + b) == Caps(a) + Caps(b)
  {
    hide CapOf;
    if a == [] {
      assert a + b == b;
    } else {
      assert (a + b)[0] == a[0] && (a + b)[1..] == a[1..] + b;
      CapsAppend(a[1..], b);
    }
  }

  lemma {:induction false} NoCaps(calls: seq<Call>)
    requires forall i :: 0 <= i < |calls| ==> !calls[i].CapExpiry?
    ensures Caps(calls) == []
  {
    if calls == [] {
    } else {
      NoCaps(calls[1..]);
    }
  }

  /** A deferral imposes at most one limit, which is a lifetime behind where it counts from. */
  lemma DeferCaps(env: Env, cursor: int, from: int, route: Option<Route>, end: seq<Call>)
    requires NamesRule(env, route) && forall i :: 0 <= i < |end| ==> !end[i].CapExpiry?
    ensures forall cap :: cap in Caps(Defer(env, cursor, from, route) + end) ==> Allows(env, cap - from)
  {
    hide Lifetime, Caps, Planned, Allows, NamesRule;
    var deferral, caps := Deferral(env, cursor, route), CapCalls(env, from, route);
    CapsAppend([deferral] + caps, end);
    CapsAppend([deferral], caps);
    NoCaps([deferral]);
    NoCaps(end);
    if caps == [] {
      NoCaps(caps);
    } else {
      OneCap(caps[0]);
      assert Lifetime(env, route) == Some(caps[0].limit - from);
      LifetimeAllowed(env, route);
    }
  }

  lemma OneCap(c: Call)
    ensures Caps([c]) == if c.CapExpiry? then [c.limit] else []
  {
    assert [c][1..] == [];
  }

  lemma FirstCaps(env: Env)
    ensures Pass(env, 0).outcome == PassDelivered ==> Pass(env, 0).deliveredRoute.Some?
    ensures forall cap :: cap in Caps(DispatchCalls(env, Pass(env, 0))) ==> Allows(env, cap - env.now)
  {
    hide Pass, Defer, Caps, Allows, CursorAfter, NamesRule;
    PassRoutes(env, 0);
    PassNamesRules(env, 0);
    var r := Pass(env, 0);
    if r.outcome == PassDelivered {
      NoCaps(DispatchCalls(env, r));
    } else {
      var route := if r.outcome == PassWaitTimer then r.lastAttempted else r.eventRoute;
      var next, event := SetRetry(1, env.now + 30, CursorAfter(route)), SetStatus(WaitTimerEvent, env.now);
      DeferCaps(env, 0, env.now, route, [next]);
      DeferCaps(env, 0, env.now, route, [next, event]);
      DeferCaps(env, 0, env.now, route, [SetStatus(WaitEvent, env.now)]);
    }
  }

  lemma RetryCaps(m: Row, env: Env)
    ensures forall cap :: cap in Caps(RetryCalls(m, env)) ==> Allows(env, cap - m.submittedAt)
  {
    hide RetryCalls, Pass, Single, Defer, Caps, Allows, NextRetry, CursorAfter, NamesRule;
    PassNamesRules(env, m.routeCursor);
    NothingNamesRule(env);
    if EndOf(m, env) == PassDelivered {
      DeliveredRetry(m, env);
      NoCaps(RetryCalls(m, env));
    } else {
      RetryIsDeferAndEnd(m, env);
      DeferCaps(env, m.routeCursor, m.submittedAt, RouteOf(m, env), EndCalls(m, env));
    }
  }

  lemma {:induction false} SubmissionStays(l: Ledger, calls: seq<Call>)
    ensures ApplyAll(l, calls).row.submittedAt == l.row.submittedAt
    decreases |calls|
  {
    if calls == [] {
    } else {
      SubmissionStays(Apply(l, calls[0]), calls[1..]);
    }
  }

  lemma StepCaps(l: Ledger, s: Step)
    requires s.Retry? ==> s.m.submittedAt == l.row.submittedAt
    ensures Do(l, s).row.submittedAt == l.row.submittedAt
    ensures forall cap :: cap in Caps(CallsOf(l, s)) ==> s.Retry? && Allows(s.env, cap - l.row.submittedAt)
  {
    hide RetryCalls, ApplyAll, Caps, Allows;
    StepIsItsCalls(l, s);
    SubmissionStays(l, CallsOf(l, s));
    if s.Retry? {
      RetryCaps(s.m, s.env);
      CapsAppend([Claim(RETRYABLE)], RetryCalls(s.m, s.env));
      NoCaps([Claim(RETRYABLE)]);
      NoCaps([]);
    } else {
      NoCaps(CallsOf(l, s));
    }
  }

  lemma {:induction false} CapsAreLifetimes(l: Ledger, steps: seq<Step>)
    requires SubmittedAt(steps, l.row.submittedAt)
    ensures forall cap :: cap in CapsOf(l, steps) ==>
              exists s :: s in steps && s.Retry? && Allows(s.env, cap - l.row.submittedAt)
    decreases |steps|
  {
    hide Do, CallsOf, Caps, Allows;
    if steps == [] {
    } else {
      var next, rest := Do(l, steps[0]), steps[1..];
      assert steps[0] in steps;
      StepCaps(l, steps[0]);
      CapsAreLifetimes(next, rest);
      forall cap | cap in CapsOf(l, steps)
        ensures exists s :: s in steps && s.Retry? && Allows(s.env, cap - l.row.submittedAt)
      {
        if cap in Caps(CallsOf(l, steps[0])) {
          assert steps[0] in steps;
        } else {
          assert cap in CapsOf(next, rest);
          var s :| s in rest && s.Retry? && Allows(s.env, cap - l.row.submittedAt);
          assert s in steps;
        }
      }
    }
  }

  lemma NothingImposed(e: Option<int>)
    ensures IsLeast(e, e, [])
  {
  }

  lemma RestartImposesNothing(l: Ledger, s: Step)
    requires s.Restart?
    ensures IsLeast(Do(l, s).row.expiryAt, l.row.expiryAt, Caps(CallsOf(l, s)))
  {
  }

  /** Nothing ever moves an expiry back. */
  lemma ExpiryNeverLater(l: Ledger, steps: seq<Step>)
    requires l.row.expiryAt.Some?
    ensures Run(l, steps).row.expiryAt.Some? && Run(l, steps).row.expiryAt.value <= l.row.expiryAt.value
  {
    hide Run, CapsOf;
    ExpiryOfRun(l, steps);
  }

  predicate Waits(row: Row) { row.status == WaitTimer || row.status == WaitEvent || row.status == WaitTimerEvent }

  /** A message that waits will expire. */
  predicate Covered(row: Row) { Waits(row) ==> row.expiryAt.Some? }

  /** An alert finds a message that a restart put back in the queue before anything limited it. */
  predicate AlertsUnlimited(l: Ledger, s: Step) {
    s.Alert? && Awaiting(s.m, FilterOf(s.source)) && l.row.status == Queued && l.row.expiryAt.None?
  }

  /** With a queue lifetime, waiting without an expiry comes from exactly one kind of step. */
  lemma OnlyAlertsUncover(l: Ledger, s: Step)
    requires Covered(l.row) && (s.Retry? ==> s.env.queueLifetime > 0)
    ensures Covered(Do(l, s).row) <==> !AlertsUnlimited(l, s)
  {
    hide Retried, Pass, Single, Deferred, Fallback, NextRetry, Planned, CursorAfter;
    match s {
      case Retry(m, env) =>
        if !Claimable(l) {
          NotClaimed(l, m, env);
        } else if EndOf(m, env) == PassDelivered {
          RetriedDelivered(l, m, env);
        } else {
          RetriedDeferred(l, m, env);
          DeferredRow(l, m, env);
        }
      case Sweep(now) =>
        Swept(l, now);
      case _ =>
    }
  }

  ghost predicate QueueLifetimes(steps: seq<Step>) {
    forall s :: s in steps && s.Retry? ==> s.env.queueLifetime > 0
  }

  lemma {:induction false} WaitingIsCovered(l: Ledger, steps: seq<Step>)
    requires Covered(l.row) && (l.row.status == Dispatched || l.row.status == Queued ==> l.row.expiryAt.Some?)
    requires QueueLifetimes(steps)
    ensures Covered(Run(l, steps).row)
    decreases |steps|
  {
    hide Do, Covered, QueueLifetimes;
    if steps == [] {
    } else {
      var s := steps[0];
      assert QueueLifetimes(steps[1..]) && (s.Retry? ==> s.env.queueLifetime > 0) by { LifetimeSplit(steps); }
      OnlyAlertsUncover(l, s);
      StartedStaysCovered(l, s);
      WaitingIsCovered(Do(l, s), steps[1..]);
    }
  }

  lemma LifetimeSplit(steps: seq<Step>)
    requires steps != [] && QueueLifetimes(steps)
    ensures QueueLifetimes(steps[1..]) && (steps[0].Retry? ==> steps[0].env.queueLifetime > 0)
  {
  }

  lemma StartedStaysCovered(l: Ledger, s: Step)
    requires Covered(l.row) && (l.row.status == Dispatched || l.row.status == Queued ==> l.row.expiryAt.Some?)
    ensures !AlertsUnlimited(l, s)
    ensures Do(l, s).row.status == Dispatched || Do(l, s).row.status == Queued ==> Do(l, s).row.expiryAt.Some?
  {
    hide Do;
    if l.row.expiryAt.Some? {
      ExpiryNeverLater(l, [s]);
      RunOne(l, s);
    } else {
      assert Terminal(l.row.status);
      TerminalIsAbsorbing(l, [s]);
      RunOne(l, s);
    }
  }

  /**
    * With queue lifetimes, whatever waits has an expiry in every run of a message that came
    * with a validity or survived its first dispatch.
    */
  lemma {:induction false} EveryWaitEnds(b: Start, steps: seq<Step>)
    requires b.env.queueLifetime > 0 && QueueLifetimes(steps)
    requires b.crashed ==> b.validity.Some?
    ensures Covered(Run(Begin(b), steps).row)
  {
    hide FirstDispatch, Pass, CursorAfter;
    if !b.crashed {
      FirstDispatchEnds(b.validity, b.receiptWanted, b.env);
    }
    WaitingIsCovered(Begin(b), steps);
  }

  /**
    * The exception: a first dispatch that crashed, a restart, and an alert. No sweep sees the
    * message before its next retry, which gives it an expiry if it waits on.
    */
  lemma AlertedWithoutExpiry(b: Start, restart: int, alert: int, later: int, env: Env)
    requires b.crashed && b.validity.None? && env.queueLifetime > 0
    ensures var queued := Do(Begin(b), Restart(restart));
            var l := Do(queued, Alert(queued.row, FromS6c, alert));
            && l.row.status == WaitTimer && l.row.expiryAt.None? && Due(l.row, alert) && Do(l, Sweep(later)) == l
            && Covered(Do(l, Retry(l.row, env)).row)
  {
    hide Retried, Deferred, CursorAfter, RetryResult, NextRetry;
    var queued := Do(Begin(b), Restart(restart));
    var l := Do(queued, Alert(queued.row, FromS6c, alert));
    if EndOf(l.row, env) == PassDelivered {
      RetriedDelivered(l, l.row, env);
    } else {
      RetriedDeferred(l, l.row, env);
      DeferredRow(l, l.row, env);
    }
  }

  /** A sweep at or after its expiry ends the wait. */
  lemma CoveredIsSwept(l: Ledger, now: int)
    requires Covered(l.row) && Waits(l.row) && now >= l.row.expiryAt.value
    ensures Do(l, Sweep(now)).row == l.row.(status := Expired)
    ensures Do(l, Sweep(now)).reports == l.reports + if l.row.receiptWanted then [Expired] else []
  {
    Swept(l, now);
  }

  // ----- runs that show the exceptions -----

  const RULES := [Decision(Smpp, "peer", "policy")]

  /** A network with one SMPP rule whose peer is down, and whose policy allows a single retry. */
  function Network(host: nat -> Option<string>, again: bool, send: nat -> Option<SendError>, now: int): Env {
    Env(RULES, host, _ => false, send, _ => None, _ => again,
        _ => Some(Policy(1, [60], 0, None)), 3600, now)
  }

  /** Nobody is reachable; SGd reports the subscriber absent; SGd delivers. */
  function Unreachable(again: bool, now: int): (e: Env)
    ensures e.now == now && e.matched == RULES
  {
    Network(_ => None, again, _ => None, now)
  }

  function Absent(again: bool, now: int): (e: Env)
    ensures e.now == now
  {
    var unable := SendError(None, Some(UNABLE_TO_DELIVER));
    Network(i => if i == SGD_INDEX then Some("mme") else None, again, _ => Some(unable), now)
  }

  function Reachable(now: int): (e: Env)
    ensures e.now == now
  {
    Network(i => if i == SGD_INDEX then Some("mme") else None, true, _ => None, now)
  }

  lemma NetworkCandidates(env: Env)
    requires env.matched == RULES
    ensures Fallback(env.matched) == env.matched && Candidates(env) == 4
    ensures Base(env, 0) == 0 && Base(env, 2) == 2 && Base(env, 4) == 0
    ensures Planned(env, 0) == Route(0, Sip3gpp, "", "") && Planned(env, 2) == Route(2, Sgd, "", "")
  {
    assert env.matched[1..] == [];
    assert Fallback(env.matched[1..]) == [];
  }

  lemma NetworkPass(env: Env, cursor: int, k: nat)
    requires env.matched == RULES
    requires cursor == 0 || cursor == 2 || cursor == 4
    requires k < 4 ==> Stops(env, At(env, cursor, k))
    requires forall j: nat :: j < k && j < 4 ==> !Stops(env, At(env, cursor, j))
    ensures Candidates(env) == 4
    ensures StopOffset(env, cursor) == if k < 4 then Some(k) else None
  {
    hide Stops, At;
    NetworkCandidates(env);
    if k < 4 {
      StopOffsetIsFirst(env, cursor, k);
    }
  }

  lemma UnreachablePass(again: bool, now: int)
    ensures Pass(Unreachable(again, now), 0) ==
            PassResult(PassWaitTimer, None, Some(Route(3, Smpp, "peer", "policy")), None)
  {
    var env := Unreachable(again, now);
    NetworkCandidates(env);
    NetworkPass(env, 0, 4);
    AtCandidate(env, 0, 3);
    BaseOfIndex(env, 3);
  }

  lemma AbsentPass(again: bool, now: int, cursor: int)
    requires cursor == 0 || cursor == 4
    ensures var sgd := Some(Route(2, Sgd, "mme", ""));
            Pass(Absent(again, now), cursor) == PassResult(PassWaitTimerEvent, None, sgd, sgd)
    ensures NextRetryIs(Absent(again, now), cursor, if again then Exhausted else Next(now + 300))
  {
    var env := Absent(again, now);
    NetworkCandidates(env);
    AtCandidate(env, cursor, 0);
    AtCandidate(env, cursor, 1);
    AtCandidate(env, cursor, 2);
    NetworkPass(env, cursor, 2);
    if again {
      NetworkSelection(env, cursor);
    } else {
      NothingSelected(env, cursor);
    }
  }

  lemma NothingSelected(env: Env, cursor: int)
    requires env.matched == RULES && (cursor == 0 || cursor == SGD_INDEX || cursor == 4)
    requires forall i :: env.hostAgain(i).None? && !env.activeAgain(i)
    ensures Selected(env, cursor).None? && Planned(env, cursor).policyId == ""
  {
    hide First;
    NetworkCandidates(env);
  }

  /** What becomes of a first retry whose route is SGd. */
  ghost predicate NextRetryIs(env: Env, cursor: int, s: Schedule) {
    forall m: Row :: m.retryCount == 1 && m.routeCursor == cursor ==>
      NextRetry(m, env, Some(Route(2, Sgd, "mme", ""))) == s
  }

  lemma NetworkSelection(env: Env, cursor: int)
    requires env.matched == RULES && (cursor == 0 || cursor == 4)
    requires forall i :: env.hostAgain(i).None? && env.activeAgain(i)
    ensures Selected(env, cursor) == Some(Route(3, Smpp, "peer", "policy"))
    ensures Planned(env, cursor).policyId == ""
  {
    NetworkCandidates(env);
    AtCandidate(env, cursor, 0);
    AtCandidate(env, cursor, 1);
    AtCandidate(env, cursor, 2);
    AtCandidate(env, cursor, 3);
    var p := (k: nat) => Resolved(env, env.hostAgain, env.activeAgain, At(env, cursor, k)).Some?;
    assert !p(0) && !p(1) && !p(2) && p(3);
    assert First(p, 0, 4) == Some(3);
  }

  lemma ReachablePass(now: int)
    ensures Pass(Reachable(now), SGD_INDEX).outcome == PassDelivered
  {
    var env := Reachable(now);
    NetworkCandidates(env);
    AtCandidate(env, SGD_INDEX, 0);
    NetworkPass(env, SGD_INDEX, 0);
  }

  lemma FalseFailure(l: Ledger)
    requires l.row.status == WaitTimer && l.row.retryCount == 1 && l.row.routeCursor == 4
    requires l.row.reason != SgdAlertRetry
    ensures var s := Retry(l.row, Absent(true, 100));
            && Do(l, s).row.nextRetryAt == l.row.nextRetryAt
            && Revives(l, s) && Do(l, s).row.status == WaitTimerEvent && Do(l, s).reports == l.reports + [Failed]
            && Do(l, s).row.routeCursor == SGD_INDEX && Do(l, s).row.reason != SgdAlertRetry
  {
    hide Pass, Retried, Absent, Deferred, NextRetry;
    var s := Retry(l.row, Absent(true, 100));
    AbsentPass(true, 100, 4);
    RetriedDeferred(l, s.m, s.env);
    DeferredRow(l, s.m, s.env);
  }

  lemma LateDelivery(l: Ledger)
    requires l.row.status == WaitTimerEvent && l.row.routeCursor == SGD_INDEX && l.row.reason != SgdAlertRetry
    ensures var s := Retry(l.row, Reachable(200));
            !Revives(l, s) && Do(l, s).row.status == Delivered && Do(l, s).reports == l.reports + [Delivered]
  {
    hide Pass, Retried, Reachable;
    ReachablePass(200);
    RetriedDelivered(l, l.row, Reachable(200));
  }

  lemma FirstStep(past: set<Row>, listed: set<Row>, l: Ledger, s: Step, rest: seq<Step>)
    ensures Run(l, [s] + rest) == Run(Do(l, s), rest) && Run(l, []) == l
    ensures Revivals(l, [s] + rest) == (if Revives(l, s) then 1 else 0) + Revivals(Do(l, s), rest)
    ensures Revivals(l, []) == 0
    ensures (s.Retry? || s.Alert? ==> s.m == l.row || (s.Alert? && s.m in past))
            && Timely(past + {l.row}, StillListed(listed, l, s), Do(l, s), rest)
            ==> Timely(past, listed, l, [s] + rest)
    ensures Timely(past, listed, l, [])
  {
    hide Do, Revives;
    var steps := [s] + rest;
    assert steps[0] == s && steps[1..] == rest;
  }

  /** A reachable run whose originator is told FAILED, and then DELIVRD. */
  lemma FailedThenDelivered() returns (b: Start, steps: seq<Step>)
    ensures Timely({}, {}, Begin(b), steps) && OnTime(steps) && Revivals(Begin(b), steps) == 1
    ensures Run(Begin(b), steps).row.status == Delivered
    ensures Run(Begin(b), steps).reports == [Failed, Delivered]
  {
    hide Pass, FirstDispatch, Retried, Do, Revives, Unreachable, Absent, Reachable, Run, Timely, Revivals;
    b := Start(None, true, Unreachable(true, 0), false);
    var l0 := Begin(b);
    FirstDispatchEnds(None, true, b.env);
    UnreachablePass(true, 0);
    var s1 := Retry(l0.row, Absent(true, 100));
    FalseFailure(l0);
    var l1 := Do(l0, s1);
    var s2 := Retry(l1.row, Reachable(200));
    LateDelivery(l1);
    steps := [s1] + ([s2] + []);
    FirstStep({}, {}, l0, s1, [s2] + []);
    FirstStep({} + {l0.row}, StillListed({}, l0, s1), l1, s2, []);
    FirstStep({} + {l0.row} + {l1.row}, StillListed(StillListed({}, l0, s1), l1, s2), Do(l1, s2), s2, []);
  }

  lemma AlertAfterAbsence(l: Ledger)
    requires l.row.status == WaitTimerEvent && l.row.deferredInterface == Sgd && l.row.routeCursor == SGD_INDEX
    requires l.row.retryCount == 1
    ensures var woken := Do(l, Alert(l.row, FromSgd, 40));
            && LosesAim(woken, Retry(woken.row, Unreachable(false, 50)))
            && AimsAtSgd(woken.row) && Due(woken.row, 50)
  {
    hide NextRetry;
    var woken := Do(l, Alert(l.row, FromSgd, 40));
    var env := Unreachable(false, 50);
    NetworkCandidates(env);
    UnreachableIsRescheduled(env, woken.row);
  }

  lemma UnreachableIsRescheduled(env: Env, m: Row)
    requires env.matched == RULES && m.routeCursor == SGD_INDEX && m.retryCount == 1
    requires forall i :: env.hostAgain(i).None? && !env.activeAgain(i)
    ensures NextRetry(m, env, None).Next?
  {
    hide Selected, Planned;
    NothingSelected(env, SGD_INDEX);
  }

  /** A reachable run in which the second of two SGd alerts makes the message try the first candidate. */
  lemma AlertsCanMiss() returns (b: Start, steps: seq<Step>)
    ensures Timely({}, {}, Begin(b), steps) && OnTime(steps)
    ensures var end := Run(Begin(b), steps).row; WokenByAlert(end) && end.routeCursor == 0
  {
    hide Pass, FirstDispatch, Do, LosesAim, Unreachable, Absent, Run, Timely;
    b := Start(None, true, Absent(true, 0), false);
    var l0 := Begin(b);
    FirstDispatchEnds(None, true, b.env);
    AbsentPass(true, 0, 0);
    var s1 := Alert(l0.row, FromSgd, 40);
    AlertAfterAbsence(l0);
    var l1 := Do(l0, s1);
    var s2 := Retry(l1.row, Unreachable(false, 50));
    LostAimTriesFirstCandidate(l1, s2, 60);
    assert s2.Retry?;
    steps := ThreeSteps(l0, s1, s2, FromSgd, 60, true);
  }

  /** Three steps of which the last is an alert, and the second works on the row that the first left or found. */
  lemma ThreeSteps(l: Ledger, s: Step, t: Step, source: Source, now: int, current: bool) returns (steps: seq<Step>)
    requires (s.Retry? || s.Alert?) && s.m == l.row
    requires if current then (t.Retry? || t.Alert?) && t.m == Do(l, s).row else t.Alert? && t.m == l.row
    ensures var l2 := Do(Do(l, s), t);
            steps == [s, t, Alert(l2.row, source, now)] && Run(l, steps) == Do(l2, Alert(l2.row, source, now))
    ensures Timely({}, {}, l, steps)
    ensures Revivals(l, steps) == (if Revives(l, s) then 1 else 0) + if Revives(Do(l, s), t) then 1 else 0
  {
    hide Do, Revives, Timely, Run, Revivals;
    var l1 := Do(l, s);
    var l2 := Do(l1, t);
    var u := Alert(l2.row, source, now);
    var p0, g0 := {}, {};
    var p1, g1 := p0 + {l.row}, StillListed(g0, l, s);
    var p2, g2 := p1 + {l1.row}, StillListed(g1, l1, t);
    steps := [s] + ([t] + ([u] + []));
    FirstStep(p0, g0, l, s, [t] + ([u] + []));
    FirstStep(p1, g1, l1, t, [u] + []);
    FirstStep(p2, g2, l2, u, []);
    FirstStep(p2 + {l2.row}, StillListed(g2, l2, u), Do(l2, u), u, []);
    NoRevival(l2, u);
  }

  /**
    * A reachable run in which an alert requeues the message at a cursor that a retry has
    * changed since it was listed, and the next SGd alert makes it try the first candidate.
    * One scheduler and one alert handler are enough, and no retry runs out of attempts.
    */
  lemma StaleAlertsMiss() returns (b: Start, steps: seq<Step>)
    ensures Timely({}, {}, Begin(b), steps) && OnTime(steps) && Revivals(Begin(b), steps) == 0
    ensures forall s :: s in steps && s.Retry? ==> !WokenByAlert(s.m)
    ensures var end := Run(Begin(b), steps).row;
            WokenByAlert(end) && end.routeCursor == 4 && Base(b.env, end.routeCursor) == 0
  {
    hide Pass, FirstDispatch, Do, LosesAim, Unreachable, Absent, Run, Timely, Revivals, Base;
    b := Start(None, true, Unreachable(true, 0), false);
    var l0 := Begin(b);
    FirstDispatchEnds(None, true, b.env);
    UnreachablePass(true, 0);
    NetworkCandidates(b.env);
    var s1 := Retry(l0.row, Absent(false, 100));
    AbsentRetry(l0);
    var l1 := Do(l0, s1);
    var s2 := Alert(l0.row, FromS6c, 101);
    StaleRequeue(l0.row, l1, 101);
    LostAimTriesFirstCandidate(l1, s2, 110);
    NoRevival(l1, s2);
    steps := ThreeSteps(l0, s1, s2, FromSgd, 110, false);
  }

  lemma AbsentRetry(l: Ledger)
    requires l.row.status == WaitTimer && l.row.retryCount == 1 && l.row.routeCursor == 4
    requires l.row.reason != SgdAlertRetry
    ensures var s := Retry(l.row, Absent(false, 100));
            && !Revives(l, s) && Do(l, s).row.status == WaitTimerEvent
            && Do(l, s).row.deferredInterface == Sgd && Do(l, s).row.routeCursor == SGD_INDEX
  {
    hide Pass, Retried, Absent, Deferred, NextRetry;
    var s := Retry(l.row, Absent(false, 100));
    AbsentPass(false, 100, 4);
    RetriedDeferred(l, s.m, s.env);
    DeferredRow(l, s.m, s.env);
  }

  lemma StaleRequeue(m: Row, l: Ledger, now: int)
    requires m.status in PENDING && m.routeCursor != SGD_INDEX
    requires l.row.status in PENDING && l.row.deferredInterface == Sgd
    ensures LosesAim(l, Alert(m, FromS6c, now))
  {
  }
}
