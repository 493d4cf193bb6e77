/** What the forwarder, the retry scheduler, the sweeper and an alert write for a message. */
module Forwarder {
  import opened Wrappers
  import opened MessageStore
  import opened Routing

  // ----- what is written after a pass -----

  /** deferredRouteCursor: stay at SGd, go on behind any other candidate, start over without one. */
  function CursorAfter(route: Option<Route>): int {
    match route
    case None => 0
    case Some(r) => if r.egress == Sgd then r.index else r.index + 1
  }

  /** markDeferred. */
  function Deferral(env: Env, cursor: int, route: Option<Route>): Call {
    var r := if route.Some? then route.value else Planned(env, cursor);
    if r.egress == Sgd then
      SetDeferred(if r.peer != "" then SgdDelivery else SgdLookup, Sgd, r.peer, CursorAfter(Some(r)))
    else SetDeferred(RouteLookup, NoInterface, "", CursorAfter(Some(r)))
  }

  function PolicyOf(env: Env, route: Option<Route>): Option<Policy> {
    if route.None? || route.value.policyId == "" then None else env.policies(route.value.policyId)
  }

  /** The lifetime that a deferral allows: the policy's, else the queue's, and never more than the override. */
  function Lifetime(env: Env, route: Option<Route>): Option<int> {
    var pol := PolicyOf(env, route);
    var ttl := if pol.Some? && pol.value.maxTtl > 0 then pol.value.maxTtl else env.queueLifetime;
    var queued := if ttl > 0 then Some(ttl) else None;
    if pol.Some? && pol.value.vpOverride.Some? && pol.value.vpOverride.value > 0
    then Some(if ttl > 0 && ttl <= pol.value.vpOverride.value then ttl else pol.value.vpOverride.value)
    else queued
  }

  function CapCalls(env: Env, from: int, route: Option<Route>): seq<Call> {
    match Lifetime(env, route) case None => [] case Some(t) => [CapExpiry(from + t)]
  }

  function Defer(env: Env, cursor: int, from: int, route: Option<Route>): seq<Call> {
    [Deferral(env, cursor, route)] + CapCalls(env, from, route)
  }

  function Deliver(env: Env, route: Route): seq<Call> {
    [SetRouting(route.egress, route.peer), SetStatus(Delivered, env.now), Report(Delivered)]
  }

  function Fail(now: int): seq<Call> { [SetStatus(Failed, now), Report(Failed)] }

  /** finalizeRoutingPass, as Dispatch calls it: cursor zero, first retry, caps counted from now. */
  function DispatchCalls(env: Env, r: PassResult): seq<Call>
    requires r.outcome == PassDelivered ==> r.deliveredRoute.Some?
  {
    match r.outcome
    case PassDelivered => Deliver(env, r.deliveredRoute.value)
    case PassWaitTimer =>
      Defer(env, 0, env.now, r.lastAttempted) + [SetRetry(1, env.now + 30, CursorAfter(r.lastAttempted))]
    case PassWaitEvent => Defer(env, 0, env.now, r.eventRoute) + [SetStatus(WaitEvent, env.now)]
    case PassWaitTimerEvent =>
      Defer(env, 0, env.now, r.eventRoute)
      + [SetRetry(1, env.now + 30, CursorAfter(r.eventRoute)), SetStatus(WaitTimerEvent, env.now)]
    case PassFailed => Fail(env.now)
  }

  // ----- retries -----

  const DEFAULT_SCHEDULE := [30, 300, 1800, 3600, 3600, 3600, 3600, 3600]

  /** A message that an SGd alert woke is tried at its cursor only. */
  predicate WokenByAlert(m: Row) { m.reason == SgdAlertRetry && m.deferredInterface == Sgd }

  /** retryMessage. */
  function RetryResult(m: Row, env: Env): PassResult {
    if WokenByAlert(m) then Single(env, m.routeCursor) else Pass(env, m.routeCursor)
  }

  /** sfPolicyForMessage: of the route, else of the planned candidate, else of one that resolves now. */
  function PolicyIdFor(m: Row, env: Env, route: Option<Route>): string {
    if route.Some? && route.value.policyId != "" then route.value.policyId
    else if Planned(env, m.routeCursor).policyId != "" then Planned(env, m.routeCursor).policyId
    else match Selected(env, m.routeCursor) case None => "" case Some(r) => r.policyId
  }

  /** What becomes of a retry; an empty schedule is indexed at -1, which ends the process. */
  datatype Schedule = Next(time: int) | Exhausted | Panic

  function PolicyFor(m: Row, env: Env, route: Option<Route>): Option<Policy> {
    var id := PolicyIdFor(m, env, route);
    if id == "" then None else env.policies(id)
  }

  function MaxRetries(m: Row, env: Env, route: Option<Route>): int {
    match PolicyFor(m, env, route) case None => |DEFAULT_SCHEDULE| case Some(p) => p.maxRetries
  }

  /** nextRetry. */
  function NextRetry(m: Row, env: Env, route: Option<Route>): Schedule {
    var schedule := match PolicyFor(m, env, route) case None => DEFAULT_SCHEDULE case Some(p) => p.schedule;
    if m.retryCount + 1 > MaxRetries(m, env, route) then Exhausted
    else if schedule == [] then Panic
    else Next(env.now + schedule[if m.retryCount < |schedule| then m.retryCount else |schedule| - 1])
  }

  /** scheduleOrFail. */
  function ScheduleCalls(m: Row, env: Env, route: Option<Route>): seq<Call> {
    match NextRetry(m, env, route)
    case Next(t) => [SetRetry(m.retryCount + 1, t, CursorAfter(route))]
    case Exhausted => Fail(env.now)
    case Panic => []
  }

  /** dispatch behind its claim: what is written for the message that was read as `m`. */
  function RetryCalls(m: Row, env: Env): seq<Call> {
    SingleRoutes(env, m.routeCursor);
    PassRoutes(env, m.routeCursor);
    var r := RetryResult(m, env);
    match r.outcome
    case PassDelivered => Deliver(env, r.deliveredRoute.value)
    case PassWaitTimer =>
      Defer(env, m.routeCursor, m.submittedAt, r.lastAttempted) + ScheduleCalls(m, env, r.lastAttempted)
    case PassWaitEvent => Defer(env, m.routeCursor, m.submittedAt, r.eventRoute) + [SetStatus(WaitEvent, env.now)]
    case PassWaitTimerEvent =>
      Defer(env, m.routeCursor, m.submittedAt, r.eventRoute) + ScheduleCalls(m, env, r.eventRoute)
      + (if NextRetry(m, env, r.eventRoute).Panic? then [] else [SetStatus(WaitTimerEvent, env.now)])
    case PassFailed => Fail(env.now)
  }

  /** The process ends inside a retry. */
  predicate Panics(m: Row, env: Env) {
    var r := RetryResult(m, env);
    || (r.outcome == PassWaitTimer && NextRetry(m, env, r.lastAttempted).Panic?)
    || (r.outcome == PassWaitTimerEvent && NextRetry(m, env, r.eventRoute).Panic?)
  }

  /** That takes a policy with retries left and an empty schedule. */
  lemma PanicNeedsEmptySchedule(m: Row, env: Env)
    requires Panics(m, env)
    ensures exists id :: env.policies(id).Some? && env.policies(id).value.schedule == []
                         && env.policies(id).value.maxRetries > m.retryCount
  {
    hide Pass, Single, PolicyIdFor;
    var r := RetryResult(m, env);
    var route := if r.outcome == PassWaitTimer then r.lastAttempted else r.eventRoute;
    assert env.policies(PolicyIdFor(m, env, route)).Some?;
  }

  lemma SingleRoutes(env: Env, cursor: int)
    ensures var r := Single(env, cursor);
            && (r.outcome == PassDelivered || r.outcome == PassWaitTimer)
            && (r.outcome == PassDelivered ==> r.deliveredRoute.Some? && r.deliveredRoute == r.lastAttempted)
            && (r.lastAttempted.Some? ==>
                  r.lastAttempted.value.index == Base(env, cursor)
                  && (r.lastAttempted.value.egress == Sgd <==> Base(env, cursor) == SGD_INDEX))
            && (r.lastAttempted.None? <==> Usual(env, Base(env, cursor)).None?)
  {
    hide Fallback, Base, Planned, Resolved;
    EgressOfIndex(env, cursor);
  }

  // ----- as it runs -----

  /** The store, and the calls that a worker has made for one message. */
  class Worker {
    const st: Store
    const id: Id
    ghost const start: Table
    ghost var made: seq<Call>

    ghost predicate Valid()
      reads this, st
    {
      st.table == WrittenAll(start, id, made)
    }

    constructor (st: Store, id: Id)
      ensures Valid() && this.st == st && this.id == id && start == st.table && made == []
    {
      this.st, this.id, start := st, id, st.table;
      made := [];
      new;
      WrittenAfter(st.table, id, [], Report(Failed));
    }

    ghost method Note(c: Call)
      requires st.table == Written(WrittenAll(start, id, made), id, c)
      modifies this
      ensures Valid() && made == old(made) + [c]
    {
      WrittenAfter(start, id, made, c);
      made := made + [c];
    }

    method MarkDeferred(env: Env, cursor: int, route: Option<Route>)
      requires Valid()
      modifies this, st
      ensures Valid() && made == old(made) + [Deferral(env, cursor, route)]
    {
      hide Planned, WrittenAll, Written;
      var r := if route.Some? then route.value else Planned(env, cursor);
      var reason, deferred, node := RouteLookup, NoInterface, "";
      var next := CursorAfter(Some(r));
      if r.egress == Sgd {
        reason, deferred := SgdLookup, Sgd;
        if r.peer != "" {
          reason, node := SgdDelivery, r.peer;
        }
      }
      st.UpdateMessageDeferred(id, reason, deferred, node, next);
      Note(SetDeferred(reason, deferred, node, next));
    }

    method ApplyDeferredExpiryCap(env: Env, from: int, route: Option<Route>)
      requires Valid()
      modifies this, st
      ensures Valid() && made == old(made) + CapCalls(env, from, route)
    {
      hide WrittenAll, Written;
      var expiryAt: Option<int> := None;
      var pol := PolicyOf(env, route);
      var lifetime := env.queueLifetime;
      if pol.Some? && pol.value.maxTtl > 0 {
        lifetime := pol.value.maxTtl;
      }
      if lifetime > 0 {
        expiryAt := Some(from + lifetime);
      }
      if pol.Some? && pol.value.vpOverride.Some? && pol.value.vpOverride.value > 0 {
        var t := from + pol.value.vpOverride.value;
        if expiryAt.None? || t < expiryAt.value {
          expiryAt := Some(t);
        }
      }
      if expiryAt.None? {
        assert made == old(made) + [];
        return;
      }
      st.UpdateMessageExpiryCap(id, expiryAt.value);
      Note(CapExpiry(expiryAt.value));
    }

    method WriteStatus(s: Status, now: int)
      requires Valid()
      modifies this, st
      ensures Valid() && made == old(made) + [SetStatus(s, now)]
    {
      hide WrittenAll, Written;
      st.UpdateMessageStatus(id, s, now);
      Note(SetStatus(s, now));
    }

    method WriteReport(s: Status)
      requires Valid()
      modifies this, st
      ensures Valid() && made == old(made) + [Report(s)]
    {
      hide WrittenAll, Written;
      st.SendReport(id, s);
      Note(Report(s));
    }

    method WriteRetry(count: nat, next: int, cursor: int)
      requires Valid()
      modifies this, st
      ensures Valid() && made == old(made) + [SetRetry(count, next, cursor)]
    {
      hide WrittenAll, Written;
      st.UpdateMessageRetry(id, count, next, cursor);
      Note(SetRetry(count, next, cursor));
    }

    method WriteDelivered(env: Env, route: Route)
      requires Valid()
      modifies this, st
      ensures Valid() && made == old(made) + Deliver(env, route)
    {
      hide WrittenAll, Written;
      st.UpdateMessageRouting(id, route.egress, route.peer);
      Note(SetRouting(route.egress, route.peer));
      WriteStatus(Delivered, env.now);
      WriteReport(Delivered);
    }

    method WriteFailed(now: int)
      requires Valid()
      modifies this, st
      ensures Valid() && made == old(made) + Fail(now)
    {
      WriteStatus(Failed, now);
      WriteReport(Failed);
    }

    /** The two calls with which every finaliser defers a message. */
    method WriteDeferral(env: Env, cursor: int, from: int, route: Option<Route>)
      requires Valid()
      modifies this, st
      ensures Valid() && made == old(made) + Defer(env, cursor, from, route)
    {
      hide Deferral, CapCalls, WrittenAll;
      MarkDeferred(env, cursor, route);
      ApplyDeferredExpiryCap(env, from, route);
    }

    /** finalizeRoutingPass. */
    method FinalizeRoutingPass(env: Env, r: PassResult)
      requires Valid()
      requires r.outcome == PassDelivered ==> r.deliveredRoute.Some?
      modifies this, st
      ensures Valid() && made == old(made) + DispatchCalls(env, r)
    {
      hide Defer, Deliver, Fail, CursorAfter, WrittenAll;
      match r.outcome {
        case PassDelivered =>
          WriteDelivered(env, r.deliveredRoute.value);
        case PassWaitTimer =>
          WriteDeferral(env, 0, env.now, r.lastAttempted);
          WriteRetry(1, env.now + 30, CursorAfter(r.lastAttempted));
        case PassWaitEvent =>
          WriteDeferral(env, 0, env.now, r.eventRoute);
          WriteStatus(WaitEvent, env.now);
        case PassWaitTimerEvent =>
          WriteDeferral(env, 0, env.now, r.eventRoute);
          WriteRetry(1, env.now + 30, CursorAfter(r.eventRoute));
          WriteStatus(WaitTimerEvent, env.now);
        case PassFailed =>
          WriteFailed(env.now);
      }
    }

    /** scheduleOrFail; `alive` is false when the process ended inside it. */
    method ScheduleOrFail(m: Row, env: Env, route: Option<Route>) returns (alive: bool)
      requires Valid()
      modifies this, st
      ensures Valid() && made == old(made) + ScheduleCalls(m, env, route)
      ensures alive <==> !NextRetry(m, env, route).Panic?
    {
      hide Planned, Fail, CursorAfter, WrittenAll;
      var policyId := "";
      if route.Some? && route.value.policyId != "" {
        policyId := route.value.policyId;
      } else {
        var planned := Planned(env, m.routeCursor);
        if planned.policyId != "" {
          policyId := planned.policyId;
        } else {
          var selected := SelectRoute(env, m.routeCursor);
          if selected.Some? {
            policyId := selected.value.policyId;
          }
        }
      }
      var schedule, maxRetries := DEFAULT_SCHEDULE, |DEFAULT_SCHEDULE|;
      if policyId != "" && env.policies(policyId).Some? {
        schedule, maxRetries := env.policies(policyId).value.schedule, env.policies(policyId).value.maxRetries;
      }
      var attempt := m.retryCount + 1;
      if attempt > maxRetries {
        WriteFailed(env.now);
        return true;
      }
      var idx := attempt - 1;
      if idx >= |schedule| {
        idx := |schedule| - 1;
      }
      if idx < 0 {
        assert made == old(made) + [];
        return false;
      }
      WriteRetry(attempt, env.now + schedule[idx], CursorAfter(route));
      return true;
    }

    /** finalizeNonDelivered. */
    method FinalizeNonDelivered(m: Row, env: Env, r: PassResult) returns (alive: bool)
      requires Valid()
      requires r == RetryResult(m, env) && r.outcome != PassDelivered
      modifies this, st
      ensures Valid() && made == old(made) + RetryCalls(m, env)
      ensures alive <==> !Panics(m, env)
    {
      hide Defer, Fail, Deliver, NextRetry, ScheduleCalls, RetryResult, WrittenAll;
      alive := true;
      match r.outcome {
        case PassWaitTimer =>
          WriteDeferral(env, m.routeCursor, m.submittedAt, r.lastAttempted);
          alive := ScheduleOrFail(m, env, r.lastAttempted);
        case PassWaitEvent =>
          WriteDeferral(env, m.routeCursor, m.submittedAt, r.eventRoute);
          WriteStatus(WaitEvent, env.now);
        case PassWaitTimerEvent =>
          WriteDeferral(env, m.routeCursor, m.submittedAt, r.eventRoute);
          alive := ScheduleOrFail(m, env, r.eventRoute);
          if alive {
            WriteStatus(WaitTimerEvent, env.now);
          }
        case PassFailed =>
          WriteFailed(env.now);
      }
    }
  }

  /** The row that persistMessage inserts. */
  function NewRow(validity: Option<int>, receiptWanted: bool, now: int): Row {
    Row(Dispatched, 0, None, 0, NoReason, NoInterface, "", NoInterface, "", receiptWanted, now, None,
        if validity.Some? then Some(now + validity.value) else None)
  }

  function Inserted(validity: Option<int>, receiptWanted: bool, now: int): Ledger {
    Ledger(NewRow(validity, receiptWanted, now), [], [Dispatched])
  }

  /** A message after its first dispatch. */
  function FirstDispatch(validity: Option<int>, receiptWanted: bool, env: Env): Ledger {
    PassRoutes(env, 0);
    ApplyAll(Inserted(validity, receiptWanted, env.now), DispatchCalls(env, Pass(env, 0)))
  }

  /** Dispatch: insert, one pass from the first candidate, and its outcome. */
  method Dispatch(st: Store, id: Id, validity: Option<int>, receiptWanted: bool, env: Env)
    requires id !in st.table
    modifies st
    ensures st.table == old(st.table)[id := FirstDispatch(validity, receiptWanted, env)]
  {
    hide Pass, DispatchCalls, ApplyAll;
    st.SaveMessage(id, NewRow(validity, receiptWanted, env.now));
    var w := new Worker(st, id);
    PassRoutes(env, 0);
    var r, visited := RunRoutingPass(env, 0);
    w.FinalizeRoutingPass(env, r);
    assert w.made == DispatchCalls(env, Pass(env, 0));
  }

  /** A message after a retry by a worker that read its row as `m`. */
  function Retried(l: Ledger, m: Row, env: Env): Ledger {
    if l.row.status in RETRYABLE then ApplyAll(Apply(l, Claim(RETRYABLE)), RetryCalls(m, env)) else l
  }

  /** dispatch of the retry scheduler. */
  method RetryDispatch(st: Store, id: Id, m: Row, env: Env) returns (alive: bool)
    modifies st
    ensures st.table.Keys == old(st.table).Keys
    ensures id in st.table ==> st.table[id] == Retried(old(st.table)[id], m, env)
    ensures alive <==> !(id in st.table && old(st.table)[id].row.status in RETRYABLE && Panics(m, env))
    ensures forall other :: other in st.table && other != id ==> st.table[other] == old(st.table)[other]
  {
    hide Pass, Single, RetryCalls, ApplyAll, Apply, Deliver;
    var claimed := st.ClaimMessageForDispatch(id, RETRYABLE);
    if !claimed {
      assert st.table == old(st.table) by { FailedClaim(old(st.table), id); }
      return true;
    }
    var w := new Worker(st, id);
    var r: PassResult;
    if WokenByAlert(m) {
      r := TryRouteAt(env, m.routeCursor);
    } else {
      ghost var visited;
      r, visited := RunRoutingPass(env, m.routeCursor);
    }
    assert r == RetryResult(m, env);
    if r.outcome != PassDelivered {
      alive := w.FinalizeNonDelivered(m, env, r);
    } else {
      DeliveredRetry(m, env);
      w.WriteDelivered(env, r.deliveredRoute.value);
      alive := true;
    }
    assert w.made == RetryCalls(m, env);
  }

  lemma FailedClaim(table: Table, id: Id)
    requires id in table ==> table[id].row.status !in RETRYABLE
    ensures Written(table, id, Claim(RETRYABLE)) == table
  {
  }

  lemma DeliveredRetry(m: Row, env: Env)
    requires RetryResult(m, env).outcome == PassDelivered
    ensures RetryResult(m, env).deliveredRoute.Some?
    ensures RetryCalls(m, env) == Deliver(env, RetryResult(m, env).deliveredRoute.value)
  {
    hide Pass, Single, Deliver;
    SingleRoutes(env, m.routeCursor);
    PassRoutes(env, m.routeCursor);
  }

  function RowsOf(table: Table, list: seq<Id>): seq<Row>
    requires forall i :: 0 <= i < |list| ==> list[i] in table
  {
    seq(|list|, i requires 0 <= i < |list| => table[list[i]].row)
  }

  /** A due row by its columns. */
  predicate DueFields(row: Row, now: int) {
    && (row.status == Queued || row.status == WaitTimer || row.status == WaitTimerEvent)
    && (row.nextRetryAt.None? || row.nextRetryAt.value <= now)
  }

  /** The messages of a tick: due ones, all of them or a hundred that no other due one comes before. */
  ghost predicate ListsDue(table: Table, now: int, list: seq<Id>) {
    && |list| <= 100
    && (forall i :: 0 <= i < |list| ==> list[i] in table && DueFields(table[list[i]].row, now))
    && (forall id :: id in table && DueFields(table[id].row, now) && id !in list ==>
          |list| == 100
          && forall i :: 0 <= i < |list| ==>
               var first, other := table[list[i]].row.nextRetryAt, table[id].row.nextRetryAt;
               first.None? || (other.Some? && first.value <= other.value))
  }

  lemma DueIsListed(table: Table, now: int, list: seq<Id>)
    requires Answers(list, DueIds(table, now), LIST_LIMIT)
    requires forall i, id :: 0 <= i < |list| && id in DueIds(table, now) && id !in list ==>
               NoLater(table[list[i]].row.nextRetryAt, table[id].row.nextRetryAt)
    ensures ListsDue(table, now, list)
    ensures forall id :: id in list ==> id in table && table[id].row.status in RETRYABLE
  {
    hide Due;
    forall row: Row ensures Due(row, now) <==> DueFields(row, now) { DueIsFields(row, now); }
  }

  lemma DueIsFields(row: Row, now: int)
    ensures Due(row, now) <==> DueFields(row, now)
  {
  }

  /** tick: every message on the list is dispatched as it was read, until the process ends. */
  method Tick(st: Store, now: int, envs: Id -> Env) returns (alive: bool, list: seq<Id>)
    modifies st
    ensures st.table.Keys == old(st.table).Keys
    ensures Answers(list, DueIds(old(st.table), now), LIST_LIMIT) && ListsDue(old(st.table), now, list)
    ensures alive <==> forall id :: id in list ==> !Panics(old(st.table)[id].row, envs(id))
    ensures forall id :: id in st.table ==>
              st.table[id] == old(st.table)[id]
              || (id in list && st.table[id] == Retried(old(st.table)[id], old(st.table)[id].row, envs(id)))
    ensures alive ==> forall id :: id in st.table ==>
              st.table[id] == if id in list then Retried(old(st.table)[id], old(st.table)[id].row, envs(id))
                              else old(st.table)[id]
  {
    hide Retried, Panics, Due, ListsDue;
    list := st.ListRetryableMessages(now);
    ghost var start := st.table;
    DueIsListed(start, now, list);
    var read := RowsOf(st.table, list);
    for i := 0 to |list|
      invariant st.table.Keys == start.Keys
      invariant forall id :: id in list[..i] ==> !Panics(start[id].row, envs(id))
      invariant forall id :: id in st.table ==>
                  st.table[id] == if id in list[..i] then Retried(start[id], start[id].row, envs(id)) else start[id]
    {
      assert list[i] !in list[..i] && list[i] in list;
      alive := RetryDispatch(st, list[i], read[i], envs(list[i]));
      if !alive {
        return;
      }
    }
    alive := true;
  }

  // ----- expiry -----

  /** A row that has outlived its expiry, by its columns. */
  predicate LateFields(row: Row, now: int) {
    && row.expiryAt.Some? && row.expiryAt.value <= now
    && (row.status == Queued || row.status == WaitTimer || row.status == WaitEvent || row.status == WaitTimerEvent)
  }

  /** The messages of a sweep: late ones, and all of them if they are fewer than a hundred. */
  ghost predicate ListsLate(table: Table, now: int, list: seq<Id>) {
    && |list| <= 100
    && (forall i :: 0 <= i < |list| ==> list[i] in table && LateFields(table[list[i]].row, now))
    && (|list| < 100 ==> forall id :: id in table && LateFields(table[id].row, now) ==> id in list)
  }

  lemma LateIsListed(table: Table, now: int, list: seq<Id>)
    requires Answers(list, OverdueIds(table, now), LIST_LIMIT)
    ensures ListsLate(table, now, list)
    ensures forall id :: id in list ==> id in table && LateFields(table[id].row, now)
  {
    hide Overdue;
    forall row: Row ensures Overdue(row, now) <==> LateFields(row, now) { OverdueIsFields(row, now); }
  }

  lemma OverdueIsFields(row: Row, now: int)
    ensures Overdue(row, now) <==> LateFields(row, now)
  {
  }

  lemma Swept(l: Ledger, now: int)
    ensures ApplyAll(l, SweepCalls(l.row, now)) ==
            Ledger(l.row.(status := Expired), l.reports + if l.row.receiptWanted then [Expired] else [],
                   l.writes + [Expired])
  {
    hide ApplyAll;
    if l.row.receiptWanted {
      ApplyTwo(l, SetStatus(Expired, now), Report(Expired));
      assert SweepCalls(l.row, now) == [SetStatus(Expired, now), Report(Expired)];
    } else {
      ApplyOne(l, SetStatus(Expired, now));
      assert l.reports + [] == l.reports;
      assert SweepCalls(l.row, now) == [SetStatus(Expired, now)];
    }
  }

  function SweepCalls(m: Row, now: int): seq<Call> {
    [SetStatus(Expired, now)] + if m.receiptWanted then [Report(Expired)] else []
  }

  /** sweep. */
  method Sweep(st: Store, now: int) returns (list: seq<Id>)
    modifies st
    ensures st.table.Keys == old(st.table).Keys
    ensures Answers(list, OverdueIds(old(st.table), now), LIST_LIMIT) && ListsLate(old(st.table), now, list)
    ensures forall id :: id in st.table && st.table[id] != old(st.table)[id] ==>
              var was := old(st.table)[id].row;
              && LateFields(was, now) && st.table[id].row == was.(status := Expired)
              && st.table[id].reports == old(st.table)[id].reports + if was.receiptWanted then [Expired] else []
    ensures forall id :: id in st.table ==>
              st.table[id] == if id in list then ApplyAll(old(st.table)[id], SweepCalls(old(st.table)[id].row, now))
                              else old(st.table)[id]
  {
    hide ApplyAll, Apply, Overdue, ListsLate, LateFields;
    list := st.ListExpiredMessages(now);
    ghost var start := st.table;
    LateIsListed(start, now, list);
    var read := RowsOf(st.table, list);
    for i := 0 to |list|
      invariant st.table.Keys == start.Keys
      invariant forall id :: id in st.table ==>
                  st.table[id] == if id in list[..i] then ApplyAll(start[id], SweepCalls(start[id].row, now))
                                  else start[id]
    {
      assert list[i] !in list[..i];
      assert st.table[list[i]] == start[list[i]];
      var w := new Worker(st, list[i]);
      w.WriteStatus(Expired, now);
      if read[i].receiptWanted {
        w.WriteReport(Expired);
      }
      assert read[i] == start[list[i]].row;
      assert w.made == SweepCalls(start[list[i]].row, now);
    }
    forall id | id in list
      ensures ApplyAll(start[id], SweepCalls(start[id].row, now)) ==
              Ledger(start[id].row.(status := Expired),
                     start[id].reports + if start[id].row.receiptWanted then [Expired] else [],
                     start[id].writes + [Expired])
    {
      Swept(start[id], now);
    }
  }

  // ----- alerts -----

  datatype Source = FromS6c | FromSgd

  function FilterOf(source: Source): Interface { if source == FromSgd then Sgd else NoInterface }

  /** A row that an alert is about, by its columns: one from SGd leaves other interfaces alone. */
  predicate AwaitingFields(row: Row, source: Source) {
    && (row.status == Queued || row.status == WaitTimer || row.status == WaitEvent || row.status == WaitTimerEvent)
    && (source == FromSgd ==> row.deferredInterface == Sgd)
  }

  function AlertCall(m: Row, source: Source, now: int): Call {
    Requeue(now, m.routeCursor, if source == FromSgd then SgdAlertRetry else NoReason, PENDING)
  }

  /** The waiting messages an alert is about: by its correlation identifier, or else by its subscriber. */
  function Addressed(table: Table, correlated: Option<set<Id>>, subscriber: Option<set<Id>>, filter: Interface)
    : set<Id>
  {
    var first := match correlated case None => {} case Some(ids) => AwaitingIds(table, ids, filter);
    if first != {} || subscriber.None? then first else AwaitingIds(table, subscriber.value, filter)
  }

  method FindAddressed(st: Store, correlated: Option<set<Id>>, subscriber: Option<set<Id>>, filter: Interface)
    returns (list: seq<Id>)
    requires correlated.Some? || subscriber.Some?
    ensures Answers(list, Addressed(st.table, correlated, subscriber, filter), 1000)
  {
    hide AwaitingIds;
    if correlated.Some? {
      list := st.ListAwaitingMessages(correlated.value, filter);
      if |list| == 0 && subscriber.Some? {
        assert AwaitingIds(st.table, correlated.value, filter) == {};
        list := st.ListAwaitingMessages(subscriber.value, filter);
      } else if |list| > 0 {
        assert list[0] in AwaitingIds(st.table, correlated.value, filter);
      }
    } else {
      list := st.ListAwaitingMessages(subscriber.value, filter);
    }
  }

  /** A waiting message that an identifier of an alert names. */
  predicate Meant(table: Table, named: Option<set<Id>>, source: Source, id: Id) {
    named.Some? && id in named.value && id in table && AwaitingFields(table[id].row, source)
  }

  /** The messages of an alert: those its correlation identifier means, or if there are none, its subscriber. */
  ghost predicate ListsMeant(table: Table, correlated: Option<set<Id>>, subscriber: Option<set<Id>>, source: Source,
                             list: seq<Id>)
  {
    var named := if exists id :: Meant(table, correlated, source, id) then correlated else subscriber;
    && |list| <= 1000
    && (forall i :: 0 <= i < |list| ==> Meant(table, named, source, list[i]))
    && (|list| < 1000 ==> forall id :: Meant(table, named, source, id) ==> id in list)
  }

  lemma AddressedIsMeant(table: Table, correlated: Option<set<Id>>, subscriber: Option<set<Id>>, source: Source)
    ensures var addressed := Addressed(table, correlated, subscriber, FilterOf(source));
            var named := if exists id :: Meant(table, correlated, source, id) then correlated else subscriber;
            forall id :: id in addressed <==> Meant(table, named, source, id)
  {
    hide Awaiting, AwaitingFields;
    forall row: Row ensures Awaiting(row, FilterOf(source)) <==> AwaitingFields(row, source) {
      AwaitingIsFields(row, source);
    }
    if correlated.Some? {
      var first := AwaitingIds(table, correlated.value, FilterOf(source));
      forall id ensures id in first <==> Meant(table, correlated, source, id) { }
    }
  }

  lemma AlertLists(table: Table, correlated: Option<set<Id>>, subscriber: Option<set<Id>>, source: Source,
                   list: seq<Id>, now: int)
    requires Answers(list, Addressed(table, correlated, subscriber, FilterOf(source)), 1000)
    ensures ListsMeant(table, correlated, subscriber, source, list)
    ensures forall id :: id in list ==>
              && id in table && AwaitingFields(table[id].row, source) && table[id].row.status in PENDING
              && Apply(table[id], AlertCall(table[id].row, source, now)).row ==
                 table[id].row.(status := WaitTimer, nextRetryAt := Some(now),
                                reason := if source == FromSgd then SgdAlertRetry else table[id].row.reason)
  {
    hide Addressed, Awaiting, Apply, AwaitingFields;
    AddressedIsMeant(table, correlated, subscriber, source);
    forall id | id in list
      ensures id in table && AwaitingFields(table[id].row, source) && table[id].row.status in PENDING
      ensures Apply(table[id], AlertCall(table[id].row, source, now)).row ==
              table[id].row.(status := WaitTimer, nextRetryAt := Some(now),
                             reason := if source == FromSgd then SgdAlertRetry else table[id].row.reason)
    {
      Requeued(table[id], source, now);
    }
  }

  lemma AwaitingIsFields(row: Row, source: Source)
    ensures Awaiting(row, FilterOf(source)) <==> AwaitingFields(row, source)
  {
  }

  lemma Requeued(l: Ledger, source: Source, now: int)
    requires AwaitingFields(l.row, source)
    ensures l.row.status in PENDING
    ensures Apply(l, AlertCall(l.row, source, now)).row ==
            l.row.(status := WaitTimer, nextRetryAt := Some(now),
                   reason := if source == FromSgd then SgdAlertRetry else l.row.reason)
  {
  }

  /**
    * triggerAlertRetry: messages are looked for by the alert's correlation identifier, then
    * by its subscriber; all of those found are requeued.
    */
  method TriggerAlertRetry(
    st: Store, source: Source, correlated: Option<set<Id>>, subscriber: Option<set<Id>>, now: int)
    returns (r: Result<(nat, nat), ()>, list: seq<Id>)
    modifies st
    ensures r.Err? <==> correlated.None? && subscriber.None?
    ensures r.Err? ==> st.table == old(st.table) && list == []
    ensures st.table.Keys == old(st.table).Keys
    ensures r.Ok? ==> r.value == (|list|, 0)
    ensures r.Ok? ==> Answers(list, Addressed(old(st.table), correlated, subscriber, FilterOf(source)), 1000)
    ensures r.Ok? ==> ListsMeant(old(st.table), correlated, subscriber, source, list)
    ensures forall id :: id in st.table && st.table[id] != old(st.table)[id] ==>
              var was := old(st.table)[id].row;
              && AwaitingFields(was, source)
              && st.table[id].row == was.(status := WaitTimer, nextRetryAt := Some(now),
                                          reason := if source == FromSgd then SgdAlertRetry else was.reason)
    ensures forall id :: id in st.table ==>
              st.table[id] == if id in list then Apply(old(st.table)[id], AlertCall(old(st.table)[id].row, source, now))
                              else old(st.table)[id]
  {
    hide Apply, Addressed, ListsMeant, AwaitingFields;
    if correlated.None? && subscriber.None? {
      return Err(()), [];
    }
    list := FindAddressed(st, correlated, subscriber, FilterOf(source));
    ghost var start := st.table;
    AlertLists(start, correlated, subscriber, source, list, now);
    var read := RowsOf(st.table, list);
    var requeued, skipped := 0, 0;
    var reason := if source == FromSgd then SgdAlertRetry else NoReason;
    for i := 0 to |list|
      invariant requeued == i && skipped == 0
      invariant st.table.Keys == start.Keys
      invariant forall id :: id in st.table ==>
                  st.table[id] == if id in list[..i] then Apply(start[id], AlertCall(start[id].row, source, now))
                                  else start[id]
    {
      assert list[i] !in list[..i];
      var ok := st.RequeueMessageForAlert(list[i], now, read[i].routeCursor, reason, PENDING);
      if ok {
        requeued := requeued + 1;
      } else {
        skipped := skipped + 1;
      }
    }
    return Ok((requeued, skipped)), list;
  }
}
