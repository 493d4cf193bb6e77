/**
  * What the forwarder does to a message, told in what can be seen from outside: which
  * hosts and peers there are, how sends end, what policies say, and the columns of the row.
  */
module Outcomes {
  import opened Wrappers
  import opened MessageStore
  import opened Routing
  import opened Forwarder
  import opened Lifecycle

  // ----- candidates -----

  /** The rules that offer candidates keep their order, and only SMPP and SIP SIMPLE ones do. */
  lemma {:induction false} RulesInOrder(a: seq<Decision>, b: seq<Decision>, d: Decision)
    ensures Fallback(a + b) == Fallback(a) + Fallback(b)
    ensures Fallback([d]) == if d.egress == Smpp || d.egress == SipSimple then [d] else []
    ensures Fallback([]) == []
  {
    assert [d][1..] == [];
    if a == [] {
      assert a + b == b;
    } else {
      assert (a + b)[1..] == a[1..] + b;
      RulesInOrder(a[1..], b, d);
    }
  }

  /** The rule behind a candidate that is not built in. */
  function Rule(env: Env, i: nat): Decision
    requires 3 <= i < |Fallback(env.matched)| + 3
  {
    Fallback(env.matched)[i - 3]
  }

  /** The candidate k places behind a cursor, of which any integer may be stored. */
  function Place(env: Env, cursor: int, k: nat): nat { (cursor + k) % (|Fallback(env.matched)| + 3) }

  /** A built-in candidate is there if its lookup finds a host, another one if its peer is named and active. */
  predicate Up(env: Env, i: nat)
    requires i < |Fallback(env.matched)| + 3
  {
    if i < 3 then env.host(i).Some? else Rule(env, i).peer != "" && env.active(i)
  }

  predicate Takes(env: Env, i: nat)
    requires i < |Fallback(env.matched)| + 3
  {
    Up(env, i) && env.send(i).None?
  }

  /** The first candidate behind the cursor that takes the message, with no wait for SGd before it. */
  ghost predicate TakenAt(env: Env, cursor: int, k: nat) {
    && k < |Fallback(env.matched)| + 3 && Takes(env, Place(env, cursor, k))
    && forall j: nat :: j < k ==> !Takes(env, Place(env, cursor, j)) && !(Place(env, cursor, j) == 2 && SgdWaits(env))
  }

  /** SGd makes the message wait, and no candidate before it takes it. */
  ghost predicate WaitedAt(env: Env, cursor: int, k: nat) {
    && k < |Fallback(env.matched)| + 3 && Place(env, cursor, k) == 2 && SgdWaits(env)
    && forall j: nat :: j < k ==> !Takes(env, Place(env, cursor, j))
  }

  lemma UniqueRemainder(v: int, n: nat, q: int, r: nat)
    requires n > 0 && v == q * n + r && r < n
    ensures v % n == r
  {
    var d := v / n - q;
    assert v == v / n * n + v % n;
    assert d * n == r - v % n;
    AtLeastOnce(d, n);
  }

  lemma AtLeastOnce(d: int, n: nat)
    requires n > 0
    ensures (d > 0 ==> d * n >= n) && (d < 0 ==> d * n + n <= 0)
  {
  }

  lemma PlaceIsAt(env: Env, cursor: int, k: nat)
    requires k < Candidates(env)
    ensures Place(env, cursor, k) == At(env, cursor, k)
  {
    hide Fallback, At;
    var n := Candidates(env);
    ModuloInRange(cursor, n);
    var q: int :| cursor == q * n + Modulo(cursor, n);
    AtCandidate(env, cursor, k);
    var b := Base(env, cursor);
    if b + k < n {
      UniqueRemainder(cursor + k, n, q, b + k);
    } else {
      assert (q + 1) * n == q * n + n;
      UniqueRemainder(cursor + k, n, q + 1, b + k - n);
    }
  }

  lemma StopsIs(env: Env, i: nat)
    requires i < Candidates(env)
    ensures Stops(env, i) <==> Takes(env, i) || (i == 2 && SgdWaits(env))
    ensures Usual(env, i).Some? <==> Up(env, i)
  {
    hide Fallback;
    FallbackUsable(env.matched);
    if i >= 3 {
      assert Rule(env, i) in Fallback(env.matched);
    }
  }

  lemma StopOffsetIs(env: Env, cursor: int)
    ensures var stop, n := StopOffset(env, cursor), Candidates(env);
            && (stop.Some? ==> stop.value < n && Stops(env, At(env, cursor, stop.value)))
            && forall j: nat :: j < (if stop.Some? then stop.value else n) ==> !Stops(env, At(env, cursor, j))
  {
    hide Fallback, At, Stops;
    var p := (k: nat) => Stops(env, At(env, cursor, k));
    assert StopOffset(env, cursor) == First(p, 0, Candidates(env));
    forall j: nat ensures p(j) == Stops(env, At(env, cursor, j)) { }
  }

  /** The stop of a pass in these terms. */
  lemma StopIs(env: Env, cursor: int)
    ensures match StopOffset(env, cursor)
            case Some(k) => TakenAt(env, cursor, k) || WaitedAt(env, cursor, k)
            case None => forall k: nat :: !TakenAt(env, cursor, k) && !WaitedAt(env, cursor, k)
    ensures forall k: nat :: TakenAt(env, cursor, k) || WaitedAt(env, cursor, k) ==>
              StopOffset(env, cursor) == Some(k)
  {
    hide Fallback, At, Stops, Takes, SgdWaits, Place, StopOffset;
    var n := Candidates(env);
    StopOffsetIs(env, cursor);
    forall j: nat | j < n
      ensures Place(env, cursor, j) == At(env, cursor, j)
      ensures Stops(env, At(env, cursor, j)) <==>
                Takes(env, Place(env, cursor, j)) || (Place(env, cursor, j) == 2 && SgdWaits(env))
    {
      PlaceIsAt(env, cursor, j);
      StopsIs(env, At(env, cursor, j));
    }
    TakesOrWaits(env);
    forall j: nat, k: nat | j < k < n ensures At(env, cursor, j) != At(env, cursor, k) {
      AtCandidate(env, cursor, j);
      AtCandidate(env, cursor, k);
    }
  }

  lemma TakesOrWaits(env: Env)
    ensures !(Takes(env, 2) && SgdWaits(env))
  {
  }

  /** A route of a candidate that is there, by its interface, peer and policy. */
  function RouteAt(env: Env, i: nat): Route
    requires i < |Fallback(env.matched)| + 3 && Up(env, i)
  {
    if i == 2 then Route(2, Sgd, env.host(2).value, "")
    else if i < 2 then Route(i, Sip3gpp, env.host(i).value, "")
    else Route(i, Rule(env, i).egress, Rule(env, i).peer, Rule(env, i).policyId)
  }

  /** A route of one that is not: the built-in ones have no peer then. */
  function AbsentAt(env: Env, i: nat): Route
    requires i < |Fallback(env.matched)| + 3
  {
    if i == 2 then Route(2, Sgd, "", "")
    else if i < 2 then Route(i, Sip3gpp, "", "")
    else Route(i, Rule(env, i).egress, Rule(env, i).peer, Rule(env, i).policyId)
  }

  lemma RoutesAre(env: Env, i: nat)
    requires i < Candidates(env)
    ensures Up(env, i) ==> Usual(env, i) == Some(RouteAt(env, i))
    ensures Planned(env, i) == AbsentAt(env, i)
  {
    hide Fallback, Base;
    BaseOfIndex(env, i);
  }

  /** What each answer means where it comes from: 3002 from SGd, 404 from SIP, and anything else a wait. */
  lemma HowAnswersAreTaken(env: Env, i: nat)
    requires i < |Fallback(env.matched)| + 3 && Up(env, i)
    ensures Attempt(env, RouteAt(env, i)) ==
            match env.send(i)
            case None => RouteDelivered
            case Some(e) =>
              if i == 2 then if e.resultCode == Some(3002) then RouteWaitEvent else RouteWaitTimer
              else if i < 2 || Rule(env, i).egress == SipSimple then
                if e.sipCode == Some(404) then Permanent else RouteWaitTimer
              else RouteWaitTimer
  {
    hide Fallback;
    FallbackUsable(env.matched);
    if i >= 3 {
      assert Rule(env, i) in Fallback(env.matched);
    }
  }

  /**
    * How a pass ends for every network: at the first candidate in cyclic order that is there
    * and takes the message; or waiting, if SGd comes first and answers 3002, for the event
    * alone exactly when nobody was before it; and otherwise at the last candidate.
    */
  lemma HowPassesEnd(env: Env, cursor: int)
    ensures var r, n := Pass(env, cursor), |Fallback(env.matched)| + 3;
            && (r.outcome == PassDelivered <==> exists k: nat :: TakenAt(env, cursor, k))
            && (forall k: nat :: TakenAt(env, cursor, k) ==>
                  r.deliveredRoute == Some(RouteAt(env, Place(env, cursor, k))))
            && (r.outcome == PassWaitEvent || r.outcome == PassWaitTimerEvent <==>
                  exists k: nat :: WaitedAt(env, cursor, k))
            && (r.outcome == PassWaitEvent || r.outcome == PassWaitTimerEvent ==>
                  r.eventRoute == Some(Route(2, Sgd, env.host(2).value, "")))
            && (r.outcome == PassWaitEvent ==> cursor % n == 2)
            && (r.outcome == PassWaitTimerEvent ==> cursor % n != 2)
            && (r.outcome == PassWaitTimer ==>
                  var last := Place(env, cursor, n - 1);
                  r.lastAttempted == Some(if Up(env, last) then RouteAt(env, last) else AbsentAt(env, last)))
            && r.outcome != PassFailed
  {
    hide Fallback, At, Stops, Planned, Resolved, Takes, Up, SgdWaits, Place, StopOffset, RouteAt, AbsentAt;
    var n, stop := Candidates(env), StopOffset(env, cursor);
    StopIs(env, cursor);
    var k := if stop.Some? then stop.value else n - 1;
    PlaceIsAt(env, cursor, k);
    var i := At(env, cursor, k);
    RoutesAre(env, i);
    StopsIs(env, i);
    if stop.Some? {
      StopEnds(env, cursor, k);
    }
  }

  lemma StopEnds(env: Env, cursor: int, k: nat)
    requires k < Candidates(env)
    requires TakenAt(env, cursor, k) || WaitedAt(env, cursor, k)
    ensures var i := Place(env, cursor, k);
            && Up(env, i) && RouteAt(env, i).index == i
            && (env.send(i).None? <==> TakenAt(env, cursor, k))
            && !(TakenAt(env, cursor, k) && WaitedAt(env, cursor, k))
            && (WaitedAt(env, cursor, k) ==> RouteAt(env, i) == Route(2, Sgd, env.host(2).value, ""))
            && (WaitedAt(env, cursor, k) ==> (k == 0 <==> cursor % (|Fallback(env.matched)| + 3) == 2))
  {
    hide Fallback;
    var n := Candidates(env);
    if k > 0 && WaitedAt(env, cursor, k) {
      PlaceIsAt(env, cursor, 0);
      PlaceIsAt(env, cursor, k);
      AtCandidate(env, cursor, 0);
      AtCandidate(env, cursor, k);
    }
  }

  /** The same of a retry after an SGd alert, which tries one candidate and never waits for an event. */
  lemma HowSinglesEnd(env: Env, cursor: int)
    ensures var r, i := Single(env, cursor), Place(env, cursor, 0);
            && (r.outcome == PassDelivered <==> Takes(env, i))
            && (r.outcome == PassDelivered ==> r.deliveredRoute == Some(RouteAt(env, i)))
            && (r.outcome != PassDelivered ==>
                  r.outcome == PassWaitTimer && r.lastAttempted == if Up(env, i) then Some(RouteAt(env, i)) else None)
  {
    hide Fallback, At, Resolved, RouteAt, Planned;
    PlaceIsAt(env, cursor, 0);
    AtCandidate(env, cursor, 0);
    RoutesAre(env, Place(env, cursor, 0));
    StopsIs(env, Place(env, cursor, 0));
    if Up(env, Place(env, cursor, 0)) {
      assert RouteAt(env, Place(env, cursor, 0)).index == Place(env, cursor, 0) by {
        IndexOfRoute(env, Place(env, cursor, 0));
      }
    }
  }

  lemma IndexOfRoute(env: Env, i: nat)
    requires i < |Fallback(env.matched)| + 3 && Up(env, i)
    ensures RouteAt(env, i).index == i
  {
  }

  /** A delivery by a first dispatch or a retry, and where it went. */
  lemma HowDeliveriesAreRecorded(validity: Option<int>, receiptWanted: bool, env: Env, k: nat)
    requires TakenAt(env, 0, k)
    ensures var a, route := FirstDispatch(validity, receiptWanted, env), RouteAt(env, Place(env, 0, k));
            && a.reports == [Delivered]
            && a.row == NewRow(validity, receiptWanted, env.now).(
                 status := Delivered, deliveredAt := Some(env.now), egress := route.egress, egressPeer := route.peer)
  {
    hide Fallback, Pass, Place, RouteAt;
    HowPassesEnd(env, 0);
    PassRoutes(env, 0);
    var l, route := Inserted(validity, receiptWanted, env.now), Pass(env, 0).deliveredRoute.value;
    ApplyThree(l, SetRouting(route.egress, route.peer), SetStatus(Delivered, env.now), Report(Delivered));
  }

  lemma HowRetriesDeliver(l: Ledger, m: Row, env: Env)
    requires Claimable(l) && EndOf(m, env) == PassDelivered
    ensures var a, route := Retried(l, m, env), RetryResult(m, env).deliveredRoute;
            && route.Some? && a.reports == l.reports + [Delivered]
            && a.row == l.row.(status := Delivered, deliveredAt := Some(env.now),
                               egress := route.value.egress, egressPeer := route.value.peer)
  {
    hide Pass, Single;
    DeliveredRetry(m, env);
    var c, route := Apply(l, Claim(RETRYABLE)), RetryResult(m, env).deliveredRoute.value;
    ApplyThree(c, SetRouting(route.egress, route.peer), SetStatus(Delivered, env.now), Report(Delivered));
  }

  /** The row that a message begins with, column by column. */
  lemma HowMessagesBegin(validity: Option<int>, receiptWanted: bool, now: int)
    ensures var l := Inserted(validity, receiptWanted, now);
            && l.row.status == Dispatched && l.row.retryCount == 0 && l.row.nextRetryAt.None?
            && l.row.routeCursor == 0 && l.row.reason == NoReason && l.row.deferredInterface == NoInterface
            && l.row.servingNode == "" && l.row.egress == NoInterface && l.row.egressPeer == ""
            && l.row.receiptWanted == receiptWanted && l.row.submittedAt == now && l.row.deliveredAt.None?
            && l.row.expiryAt == (if validity.Some? then Some(now + validity.value) else None)
            && l.reports == [] && l.writes == [Dispatched]
  {
  }

  // ----- deferrals -----

  /** The columns that a deferral writes, for the route it was given or the candidate at the cursor. */
  predicate Marked(row: Row, r: Route) {
    if r.egress == Sgd then
      && row.deferredInterface == Sgd && row.routeCursor == r.index && row.servingNode == r.peer
      && row.reason == if r.peer != "" then SgdDelivery else SgdLookup
    else
      && row.deferredInterface == NoInterface && row.routeCursor == r.index + 1 && row.servingNode == ""
      && row.reason == RouteLookup
  }

  /** `e` is the least member of a set, and absent if there is none. */
  ghost predicate IsMin(e: Option<int>, s: set<int>) {
    && (e.None? <==> s == {})
    && (e.Some? ==> e.value in s && forall x :: x in s ==> e.value <= x)
  }

  /**
    * What bounds an expiry: the one there is; the policy's lifetime if it has one, and else
    * the queue's if that is positive; and the policy's override if that is positive.
    */
  function Bounds(before: Option<int>, start: int, p: Option<Policy>, queueLifetime: int): set<int> {
    (if before.Some? then {before.value} else {})
    + (if p.Some? && p.value.maxTtl > 0 then {start + p.value.maxTtl}
       else if queueLifetime > 0 then {start + queueLifetime} else {})
    + (if p.Some? && p.value.vpOverride.Some? && p.value.vpOverride.value > 0
       then {start + p.value.vpOverride.value} else {})
  }

  /** The policy that a route names. */
  function Named(env: Env, r: Option<Route>): Option<Policy> {
    if r.Some? && r.value.policyId != "" then env.policies(r.value.policyId) else None
  }

  lemma DeferralMarks(l: Ledger, env: Env, cursor: int, from: int, route: Option<Route>)
    ensures var d := ApplyAll(l, Defer(env, cursor, from, route)).row;
            && Marked(d, if route.Some? then route.value else Planned(env, cursor))
            && IsMin(d.expiryAt, Bounds(l.row.expiryAt, from, Named(env, route), env.queueLifetime))
  {
    hide Planned, ApplyAll, Lifetime;
    var c, caps := Deferral(env, cursor, route), CapCalls(env, from, route);
    ApplyAllAppend(l, [c], caps);
    ApplyOne(l, c);
    ApplyNone(Apply(l, c));
    if caps != [] {
      ApplyOne(Apply(l, c), caps[0]);
      assert caps == [caps[0]];
    }
    LifetimeBounds(l.row.expiryAt, env, from, route);
  }

  lemma LifetimeBounds(before: Option<int>, env: Env, from: int, route: Option<Route>)
    ensures var t := Lifetime(env, route);
            IsMin(if t.None? then before else Least(before, from + t.value),
                  Bounds(before, from, Named(env, route), env.queueLifetime))
  {
  }

  /** A first dispatch that defers the message: its marks, its expiry, and its first retry half a minute later. */
  lemma HowDispatchesDefer(validity: Option<int>, receiptWanted: bool, env: Env)
    requires Pass(env, 0).outcome != PassDelivered
    ensures var a, r := FirstDispatch(validity, receiptWanted, env).row, Pass(env, 0);
            var route := if r.outcome == PassWaitTimer then r.lastAttempted else r.eventRoute;
            var submitted := if validity.Some? then Some(env.now + validity.value) else None;
            && a.retryCount == 1 && a.nextRetryAt == Some(env.now + 30)
            && route.Some? && Marked(a, route.value)
            && IsMin(a.expiryAt, Bounds(submitted, env.now, Named(env, route), env.queueLifetime))
  {
    hide Pass, Defer, FirstDispatch, Planned, Bounds, IsMin;
    var l, r := Inserted(validity, receiptWanted, env.now), Pass(env, 0);
    PassRoutes(env, 0);
    FirstDeferred(validity, receiptWanted, env);
    DeferralMarks(l, env, 0, env.now, if r.outcome == PassWaitTimer then r.lastAttempted else r.eventRoute);
  }

  /** A retry that defers the message marks it, and bounds its expiry from its submission. */
  lemma HowRetriesDefer(l: Ledger, m: Row, env: Env)
    requires Claimable(l) && EndOf(m, env) != PassDelivered
    ensures var a, route := Retried(l, m, env).row, RouteOf(m, env);
            && IsMin(a.expiryAt, Bounds(l.row.expiryAt, m.submittedAt, Named(env, route), env.queueLifetime))
            && (route.Some? || !NextOf(m, env).Next? ==>
                  Marked(a, if route.Some? then route.value else Planned(env, m.routeCursor)))
  {
    hide Retried, Defer, Planned, Bounds, IsMin, RouteOf, NextOf, RetryResult;
    RetriedDeferred(l, m, env);
    DeferralMarks(Apply(l, Claim(RETRYABLE)), env, m.routeCursor, m.submittedAt, RouteOf(m, env));
  }

  // ----- schedules -----

  function RulePolicy(env: Env, i: nat): string
    requires i < |Fallback(env.matched)| + 3
  {
    if i < 3 then "" else Rule(env, i).policyId
  }

  /** A candidate is there when it is looked up again after the pass. */
  predicate UpAgain(env: Env, i: nat)
    requires i < |Fallback(env.matched)| + 3
  {
    if i < 3 then env.hostAgain(i).Some? else Rule(env, i).peer != "" && env.activeAgain(i)
  }

  ghost predicate FirstAgain(env: Env, cursor: int, k: nat) {
    && k < |Fallback(env.matched)| + 3 && UpAgain(env, Place(env, cursor, k))
    && forall j: nat :: j < k ==> !UpAgain(env, Place(env, cursor, j))
  }

  /**
    * The policy of a retry is the one named where its pass ended; else at the cursor; else by
    * the first candidate behind the cursor that is there when looked up again.
    */
  ghost predicate Governs(env: Env, cursor: int, ended: Option<Route>, p: Option<Policy>) {
    if ended.Some? && ended.value.policyId != "" then p == env.policies(ended.value.policyId)
    else if RulePolicy(env, Place(env, cursor, 0)) != "" then p == env.policies(RulePolicy(env, Place(env, cursor, 0)))
    else if exists k: nat :: FirstAgain(env, cursor, k) then
      exists k: nat :: FirstAgain(env, cursor, k) &&
        var id := RulePolicy(env, Place(env, cursor, k)); p == if id == "" then None else env.policies(id)
    else p.None?
  }

  lemma SelectedIs(env: Env, cursor: int)
    ensures match Selected(env, cursor)
            case None => forall k: nat :: !FirstAgain(env, cursor, k)
            case Some(r) =>
              exists k: nat :: FirstAgain(env, cursor, k) && r.policyId == RulePolicy(env, Place(env, cursor, k))
    ensures forall j: nat, k: nat :: FirstAgain(env, cursor, j) && FirstAgain(env, cursor, k) ==> j == k
  {
    hide Fallback, At, Resolved, Place, UpAgain, RulePolicy;
    var n := Candidates(env);
    var p := (k: nat) => Resolved(env, env.hostAgain, env.activeAgain, At(env, cursor, k)).Some?;
    var first := First(p, 0, n);
    forall j: nat | j < n
      ensures Place(env, cursor, j) == At(env, cursor, j) && (p(j) <==> UpAgain(env, Place(env, cursor, j)))
    {
      PlaceIsAt(env, cursor, j);
      AgainIs(env, At(env, cursor, j));
    }
    if first.Some? {
      AgainIs(env, At(env, cursor, first.value));
      assert FirstAgain(env, cursor, first.value);
    }
  }

  lemma AgainIs(env: Env, i: nat)
    requires i < Candidates(env)
    ensures var r := Resolved(env, env.hostAgain, env.activeAgain, i);
            (r.Some? <==> UpAgain(env, i)) && (r.Some? ==> r.value.policyId == RulePolicy(env, i))
  {
    hide Fallback;
  }

  lemma PolicyGoverns(m: Row, env: Env, ended: Option<Route>, p: Option<Policy>)
    ensures Governs(env, m.routeCursor, ended, p) <==> p == PolicyFor(m, env, ended)
  {
    hide Fallback, Place, Selected, Planned, FirstAgain;
    SelectedIs(env, m.routeCursor);
    PlaceIsAt(env, m.routeCursor, 0);
    AtCandidate(env, m.routeCursor, 0);
    PolicyOfPlanned(env, m.routeCursor);
  }

  lemma PolicyOfPlanned(env: Env, cursor: int)
    ensures Planned(env, cursor).policyId == RulePolicy(env, Base(env, cursor))
  {
    hide Fallback, Base;
  }

  /** The default delays in seconds, by the retries made before. */
  function DefaultDelay(count: nat): int {
    if count == 0 then 30 else if count == 1 then 300 else if count == 2 then 1800 else 3600
  }

  /** The delay behind so many retries: a policy's schedule goes on with its last entry. */
  function Delay(p: Option<Policy>, count: nat): int
    requires p.Some? ==> p.value.schedule != []
  {
    if p.None? then DefaultDelay(count)
    else if count < |p.value.schedule| then p.value.schedule[count]
    else p.value.schedule[|p.value.schedule| - 1]
  }

  lemma NextIs(m: Row, env: Env, ended: Option<Route>, p: Option<Policy>)
    requires Governs(env, m.routeCursor, ended, p)
    ensures NextRetry(m, env, ended) ==
            if m.retryCount >= (if p.Some? then p.value.maxRetries else 8) then Exhausted
            else if p.Some? && p.value.schedule == [] then Panic
            else Next(env.now + Delay(p, m.retryCount))
  {
    hide Governs, PolicyFor;
    PolicyGoverns(m, env, ended, p);
  }

  /**
    * When retries run out and what the next one is: a claimed retry that waits for its timer
    * is FAILED exactly if the governing policy's retries are used up, or eight without one;
    * and else it is counted and comes after that policy's delay.
    */
  lemma HowRetriesAreScheduled(l: Ledger, m: Row, env: Env, p: Option<Policy>)
    requires Claimable(l) && EndOf(m, env) == PassWaitTimer
    requires Governs(env, m.routeCursor, RetryResult(m, env).lastAttempted, p)
    ensures var a, max := Retried(l, m, env), if p.Some? then p.value.maxRetries else 8;
            && (a.row.status == Failed <==> m.retryCount >= max)
            && (a.row.status == Failed ==> a.reports == l.reports + [Failed])
            && (m.retryCount < max && (p.Some? ==> p.value.schedule != []) ==>
                  && a.row.status == WaitTimer && a.reports == l.reports
                  && a.row.retryCount == m.retryCount + 1
                  && a.row.nextRetryAt == Some(env.now + Delay(p, m.retryCount)))
  {
    hide Retried, Governs, RetryResult, NextRetry, Deferred, CursorAfter, Delay;
    NextIs(m, env, RetryResult(m, env).lastAttempted, p);
    RetriedDeferred(l, m, env);
    DeferredRow(l, m, env);
  }

  /** So a step leaves a message FAILED exactly if it is such a retry with none left. */
  lemma WhenMessagesFail(l: Ledger, s: Step, p: Option<Policy>)
    requires l.row.status != Failed
    requires s.Retry? ==> Governs(s.env, s.m.routeCursor, RetryResult(s.m, s.env).lastAttempted, p)
    ensures Do(l, s).row.status == Failed <==>
              && s.Retry? && Claimable(l) && EndOf(s.m, s.env) == PassWaitTimer
              && s.m.retryCount >= if p.Some? then p.value.maxRetries else 8
  {
    hide Do, Governs, RetryResult, NextRetry;
    FailedIsExhaustion(l, s);
    if s.Retry? && EndOf(s.m, s.env) == PassWaitTimer {
      NextIs(s.m, s.env, RetryResult(s.m, s.env).lastAttempted, p);
    }
  }

  /** The same where the retry waits for an event too: its status is that in either case. */
  lemma HowEventRetriesAreScheduled(l: Ledger, m: Row, env: Env, p: Option<Policy>)
    requires Claimable(l) && EndOf(m, env) == PassWaitTimerEvent
    requires Governs(env, m.routeCursor, RetryResult(m, env).eventRoute, p)
    ensures var a, max := Retried(l, m, env), if p.Some? then p.value.maxRetries else 8;
            && (m.retryCount >= max ==>
                  && a.row.status == WaitTimerEvent && a.reports == l.reports + [Failed]
                  && a.row.retryCount == l.row.retryCount && a.row.nextRetryAt == l.row.nextRetryAt)
            && (m.retryCount < max && (p.Some? ==> p.value.schedule != []) ==>
                  && a.row.status == WaitTimerEvent && a.reports == l.reports
                  && a.row.retryCount == m.retryCount + 1
                  && a.row.nextRetryAt == Some(env.now + Delay(p, m.retryCount)))
  {
    hide Retried, Governs, RetryResult, NextRetry, Deferred, CursorAfter, Delay;
    NextIs(m, env, RetryResult(m, env).eventRoute, p);
    RetriedDeferred(l, m, env);
    DeferredRow(l, m, env);
  }

  // ----- a message that reaches nobody -----

  /** No candidate is there, and no rule has a policy. */
  ghost predicate Nobody(env: Env) {
    (forall i :: env.host(i).None? && !env.active(i)) && forall id :: env.policies(id).None?
  }

  /** Only retries, each of the row as it is, and each in vain. */
  ghost predicate InVain(l: Ledger, steps: seq<Step>)
    decreases |steps|
  {
    steps == [] ||
    (steps[0].Retry? && steps[0].m == l.row && Nobody(steps[0].env) && InVain(Do(l, steps[0]), steps[1..]))
  }

  lemma NobodyTakesIt(env: Env, cursor: int)
    requires Nobody(env)
    ensures Pass(env, cursor).outcome == PassWaitTimer
  {
    hide Pass, Fallback, Place, Governs;
    HowPassesEnd(env, cursor);
    forall k: nat ensures !TakenAt(env, cursor, k) && !WaitedAt(env, cursor, k) { }
    PassRoutes(env, cursor);
  }

  lemma RetryInVain(l: Ledger, env: Env)
    requires Claimable(l) && l.row.status == WaitTimer && l.row.reason != SgdAlertRetry && Nobody(env)
    ensures var a := Do(l, Retry(l.row, env));
            if l.row.retryCount >= 8 then a.row.status == Failed && a.reports == l.reports + [Failed]
            else a.row.status == WaitTimer && a.reports == l.reports && a.row.retryCount == l.row.retryCount + 1
                 && a.row.nextRetryAt == Some(env.now + DefaultDelay(l.row.retryCount))
                 && a.row.reason != SgdAlertRetry
  {
    hide Retried, Pass, Governs, Delay;
    NobodyTakesIt(env, l.row.routeCursor);
    NoPolicyGoverns(l.row, env, RetryResult(l.row, env).lastAttempted);
    HowRetriesAreScheduled(l, l.row, env, None);
    assert Delay(None, l.row.retryCount) == DefaultDelay(l.row.retryCount) by { DelayOfNone(l.row.retryCount); }
    ReasonAfter(l, env);
  }

  lemma DelayOfNone(count: nat)
    ensures Delay(None, count) == DefaultDelay(count)
  {
  }

  lemma NoPolicyGoverns(m: Row, env: Env, ended: Option<Route>)
    requires Nobody(env)
    ensures Governs(env, m.routeCursor, ended, None)
  {
    hide Governs, PolicyIdFor;
    PolicyGoverns(m, env, ended, None);
  }

  lemma ReasonAfter(l: Ledger, env: Env)
    requires Claimable(l) && EndOf(l.row, env) == PassWaitTimer
    ensures Retried(l, l.row, env).row.reason != SgdAlertRetry
  {
    hide Retried, RetryResult, NextRetry, Deferred, CursorAfter;
    RetriedDeferred(l, l.row, env);
    DeferredRow(l, l.row, env);
  }

  /**
    * A message that nobody takes and no policy governs: its first dispatch and seven retries
    * leave it waiting, the last of them and only that for the eighth time, and the eighth
    * retry fails it and reports that once.
    */
  lemma {:induction false} EightRetriesInVain(b: Start, steps: seq<Step>)
    requires !b.crashed && Nobody(b.env) && InVain(Begin(b), steps) && |steps| <= 8
    ensures var end := Run(Begin(b), steps);
            if |steps| < 8 then end.row.status == WaitTimer && end.row.retryCount == |steps| + 1 && end.reports == []
            else end.row.status == Failed && end.reports == [Failed]
  {
    hide FirstDispatch, Pass, InVain, Run;
    NobodyTakesIt(b.env, 0);
    FirstDispatchEnds(b.validity, b.receiptWanted, b.env);
    VainRun(Begin(b), steps);
  }

  lemma {:induction false} VainRun(l: Ledger, steps: seq<Step>)
    requires l.row.status == WaitTimer && l.row.reason != SgdAlertRetry && InVain(l, steps)
    requires 1 <= l.row.retryCount && l.row.retryCount + |steps| <= 9
    ensures var end := Run(l, steps);
            if l.row.retryCount + |steps| < 9 then
              end.row.status == WaitTimer && end.row.retryCount == l.row.retryCount + |steps|
              && end.reports == l.reports
            else if steps == [] then end == l
            else end.row.status == Failed && end.reports == l.reports + [Failed]
    decreases |steps|
  {
    hide Do, Nobody;
    if steps == [] {
    } else {
      RetryInVain(l, steps[0].env);
      if |steps| > 1 {
        VainRun(Do(l, steps[0]), steps[1..]);
      } else {
        assert steps[1..] == [];
        RunNone(Do(l, steps[0]));
      }
    }
  }

  /** Retries of the row as it is each time, in one environment. */
  function Retries(l: Ledger, env: Env, n: nat): (steps: seq<Step>)
    ensures |steps| == n
    decreases n
  {
    if n == 0 then [] else [Retry(l.row, env)] + Retries(Do(l, Retry(l.row, env)), env, n - 1)
  }

  lemma {:induction false} RetriesAreInVain(l: Ledger, env: Env, n: nat)
    requires Nobody(env)
    ensures InVain(l, Retries(l, env, n))
    decreases n
  {
    hide Do, Nobody;
    if n == 0 {
    } else {
      var s := Retry(l.row, env);
      assert ([s] + Retries(Do(l, s), env, n - 1))[1..] == Retries(Do(l, s), env, n - 1);
      RetriesAreInVain(Do(l, s), env, n - 1);
    }
  }

  /** Every message begins such a run, whatever its validity, in every environment that offers nobody. */
  lemma EightRetriesFail(b: Start)
    requires !b.crashed && Nobody(b.env)
    ensures var first := Begin(b);
            && Run(first, Retries(first, b.env, 7)).row.status == WaitTimer
            && Run(first, Retries(first, b.env, 8)).row.status == Failed
            && Run(first, Retries(first, b.env, 8)).reports == [Failed]
  {
    hide Run, Retries, Begin, Nobody, InVain;
    RetriesAreInVain(Begin(b), b.env, 7);
    RetriesAreInVain(Begin(b), b.env, 8);
    EightRetriesInVain(b, Retries(Begin(b), b.env, 7));
    EightRetriesInVain(b, Retries(Begin(b), b.env, 8));
  }

  // ----- expiry and alerts -----

  /** A message becomes EXPIRED by a sweep at or after its expiry while it is pending, and never otherwise. */
  lemma OnlyLateMessagesExpire(l: Ledger, s: Step)
    requires l.row.status != Expired
    ensures Do(l, s).row.status == Expired <==>
              && s.Sweep? && l.row.expiryAt.Some? && l.row.expiryAt.value <= s.now
              && (l.row.status == Queued || l.row.status == WaitTimer || l.row.status == WaitEvent
                  || l.row.status == WaitTimerEvent)
  {
    hide Retried, EndOf, NextOf, RouteOf, Deferred, CursorAfter;
    match s {
      case Retry(m, env) =>
        if !Claimable(l) {
          NotClaimed(l, m, env);
        } else if EndOf(m, env) == PassDelivered {
          RetriedDelivered(l, m, env);
        } else {
          RetriedDeferred(l, m, env);
          DeferredRow(l, m, env);
        }
      case Sweep(now) =>
        Swept(l, now);
      case _ =>
    }
  }

  /** Which messages an alert requeues, and what of them it changes. */
  lemma WhatAlertsRequeue(l: Ledger, source: Source, now: int)
    ensures var a := Do(l, Alert(l.row, source, now));
            if (l.row.status == Queued || l.row.status == WaitTimer || l.row.status == WaitEvent
                || l.row.status == WaitTimerEvent) && (source == FromSgd ==> l.row.deferredInterface == Sgd)
            then a.row == l.row.(status := WaitTimer, nextRetryAt := Some(now),
                                 reason := if source == FromSgd then SgdAlertRetry else l.row.reason)
                 && a.reports == l.reports
            else a == l
  {
  }
}
