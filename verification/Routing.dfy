/** One routing pass over the candidates of a message, for every behaviour of the network. */
module Routing {
  import opened Wrappers
  import opened MessageStore

  /** What a matching routing rule asks for. */
  datatype Decision = Decision(egress: Interface, peer: string, policyId: string)

  datatype Policy = Policy(maxRetries: int, schedule: seq<int>, maxTtl: int, vpOverride: Option<int>)

  datatype Route = Route(index: nat, egress: Interface, peer: string, policyId: string)

  /** The parts of a send error that are looked at: a SIP status code, and an SGd result code. */
  datatype SendError = SendError(sipCode: Option<int>, resultCode: Option<nat>)

  /**
    * Everything outside the forwarder that one step sees, none of it constrained: the
    * rules that match, which built-in candidates resolve to what host, which peers are
    * there, and how each send ends. Lookups made again after a pass may differ.
    */
  datatype Env = Env(
    matched: seq<Decision>,
    host: nat -> Option<string>, active: nat -> bool, send: nat -> Option<SendError>,
    hostAgain: nat -> Option<string>, activeAgain: nat -> bool,
    policies: string -> Option<Policy>, queueLifetime: int, now: int)

  datatype RouteOutcome = RouteDelivered | TryNext | RouteWaitTimer | RouteWaitEvent | Permanent

  datatype PassOutcome = PassDelivered | PassWaitTimer | PassWaitEvent | PassWaitTimerEvent | PassFailed

  datatype PassResult = PassResult(
    outcome: PassOutcome, deliveredRoute: Option<Route>, lastAttempted: Option<Route>, eventRoute: Option<Route>)

  const BUILT_IN := 3
  const SGD_INDEX := 2
  const UNABLE_TO_DELIVER := 3002

  // ----- candidates -----

  predicate Usable(d: Decision) { d.egress == Smpp || d.egress == SipSimple }

  function Fallback(matched: seq<Decision>): (out: seq<Decision>)
    ensures |out| <= |matched|
  {
    if matched == [] then []
    else (if Usable(matched[0]) then [matched[0]] else []) + Fallback(matched[1..])
  }

  lemma {:induction false} FallbackAppend(a: seq<Decision>, d: Decision)
    ensures Fallback(a + [d]) == Fallback(a) + if Usable(d) then [d] else []
  {
    if a == [] {
      assert Fallback([d][1..]) == [];
    } else {
      assert (a + [d])[1..] == a[1..] + [d];
      FallbackAppend(a[1..], d);
    }
  }

  lemma {:induction false} FallbackUsable(matched: seq<Decision>)
    ensures forall d :: d in Fallback(matched) <==> d in matched && Usable(d)
  {
    if matched == [] {
    } else {
      FallbackUsable(matched[1..]);
      assert matched == [matched[0]] + matched[1..];
    }
  }

  /** fallbackDecisions: only SMPP and SIP SIMPLE rules are kept, in order. */
  method FallbackDecisions(matched: seq<Decision>) returns (filtered: seq<Decision>)
    ensures filtered == Fallback(matched)
  {
    hide Fallback;
    filtered := [];
    assert Fallback([]) == [] by { NoFallback(); }
    for i := 0 to |matched|
      invariant filtered == Fallback(matched[..i])
    {
      FallbackAppend(matched[..i], matched[i]);
      assert matched[..i + 1] == matched[..i] + [matched[i]];
      match matched[i].egress {
        case Smpp => filtered := filtered + [matched[i]];
        case SipSimple => filtered := filtered + [matched[i]];
        case _ =>
      }
    }
    assert matched[..|matched|] == matched;
  }

  lemma NoFallback()
    ensures Fallback([]) == []
  {
  }

  function Candidates(env: Env): nat { |Fallback(env.matched)| + BUILT_IN }

  /** The remainder of Go, which takes the sign of its left operand. */
  function Remainder(v: int, size: nat): int
    requires size > 0
  {
    if v >= 0 then v % size else -(-v % size)
  }

  function Modulo(v: int, size: nat): int {
    if size == 0 then 0
    else
      var m := Remainder(v, size);
      if m < 0 then m + size else m
  }

  lemma ModuloInRange(v: int, size: nat)
    requires size > 0
    ensures 0 <= Modulo(v, size) < size
    ensures exists q: int :: v == q * size + Modulo(v, size)
  {
    if v >= 0 {
      assert v == v / size * size + Modulo(v, size);
    } else {
      var a := -v;
      var q := a / size;
      assert a == q * size + a % size;
      if a % size == 0 {
        assert v == (-q) * size + Modulo(v, size);
      } else {
        assert v == (-q - 1) * size + Modulo(v, size);
      }
    }
  }

  function Base(env: Env, cursor: int): (i: nat)
    ensures i < Candidates(env)
  {
    ModuloInRange(cursor, Candidates(env));
    Modulo(cursor, Candidates(env))
  }

  /** The candidate that is k places behind a cursor. */
  function At(env: Env, cursor: int, k: nat): (i: nat)
    ensures i < Candidates(env)
  {
    (Base(env, cursor) + k) % Candidates(env)
  }

  lemma BaseOfIndex(env: Env, i: nat)
    requires i < Candidates(env)
    ensures Base(env, i) == i
  {
    hide Candidates;
    SmallRemainder(i, Candidates(env));
  }

  lemma SmallRemainder(i: nat, n: nat)
    requires i < n
    ensures i % n == i
  {
  }

  /** plannedRouteAt: a candidate as the table names it, without any lookup. */
  function Planned(env: Env, cursor: int): Route {
    var i := Base(env, cursor);
    match i
    case 0 => Route(i, Sip3gpp, "", "")
    case 1 => Route(i, Sip3gpp, "", "")
    case 2 => Route(i, Sgd, "", "")
    case _ =>
      var d := Fallback(env.matched)[i - BUILT_IN];
      Route(i, d.egress, d.peer, d.policyId)
  }

  /** resolveCandidateAt: the same candidate when it can be used now. */
  function Resolved(env: Env, host: nat -> Option<string>, active: nat -> bool, i: nat): Option<Route>
    requires i < Candidates(env)
  {
    if i < BUILT_IN then
      match host(i)
      case None => None
      case Some(h) => Some(Route(i, if i == SGD_INDEX then Sgd else Sip3gpp, h, ""))
    else
      var d := Fallback(env.matched)[i - BUILT_IN];
      if d.peer != "" && active(i) then Some(Route(i, d.egress, d.peer, d.policyId)) else None
  }

  function Usual(env: Env, i: nat): Option<Route>
    requires i < Candidates(env)
  {
    Resolved(env, env.host, env.active, i)
  }

  /** Only the third candidate is SGd; the rules contribute SMPP and SIP SIMPLE. */
  lemma EgressOfIndex(env: Env, cursor: int)
    ensures Planned(env, cursor).index == Base(env, cursor)
    ensures Planned(env, cursor).egress == Sgd <==> Base(env, cursor) == SGD_INDEX
    ensures var i := Base(env, cursor);
            Usual(env, i).Some? ==>
              Usual(env, i).value.index == i && Usual(env, i).value.egress == Planned(env, cursor).egress
              && Usual(env, i).value.policyId == Planned(env, cursor).policyId
  {
    hide Fallback, Modulo;
    var i := Base(env, cursor);
    FallbackUsable(env.matched);
    if i >= BUILT_IN {
      assert Fallback(env.matched)[i - BUILT_IN] in Fallback(env.matched);
    }
  }

  // ----- attempts -----

  /** classifyRouteError. */
  function Classify(route: Option<Route>, err: Option<SendError>): RouteOutcome {
    if route.None? || err.None? then TryNext
    else
      match route.value.egress
      case Sip3gpp | SipSimple => if err.value.sipCode == Some(404) then Permanent else RouteWaitTimer
      case Sgd => if err.value.resultCode == Some(UNABLE_TO_DELIVER) then RouteWaitEvent else RouteWaitTimer
      case _ => RouteWaitTimer
  }

  /** attemptRoute. */
  function Attempt(env: Env, route: Route): RouteOutcome {
    match env.send(route.index)
    case None => RouteDelivered
    case Some(err) => Classify(Some(route), Some(err))
  }

  /** A candidate at which a pass ends. */
  predicate Stops(env: Env, i: nat)
    requires i < Candidates(env)
  {
    match Usual(env, i)
    case None => false
    case Some(route) => Attempt(env, route) == RouteDelivered || Attempt(env, route) == RouteWaitEvent
  }

  /** The least number at or above `from` and below `n` with a property. */
  function First(p: nat -> bool, from: nat, n: nat): (r: Option<nat>)
    requires from <= n
    ensures r.Some? ==> from <= r.value < n && p(r.value) && forall k: nat :: from <= k < r.value ==> !p(k)
    ensures r.None? ==> forall k: nat :: from <= k < n ==> !p(k)
    decreases n - from
  {
    if from == n then None else if p(from) then Some(from) else First(p, from + 1, n)
  }

  function StopOffset(env: Env, cursor: int): Option<nat> {
    First((k: nat) => Stops(env, At(env, cursor, k)), 0, Candidates(env))
  }

  /** The route of a candidate that was tried, or of one that could not be. */
  function Attempted(env: Env, i: nat): Route
    requires i < Candidates(env)
  {
    match Usual(env, i) case Some(route) => route case None => Planned(env, i)
  }

  /**
    * What a routing pass means: the first candidate behind the cursor that accepts the
    * message or wants it to wait for an event decides; without one it waits for its timer.
    */
  function Pass(env: Env, cursor: int): PassResult {
    match StopOffset(env, cursor)
    case None =>
      PassResult(PassWaitTimer, None, Some(Attempted(env, At(env, cursor, Candidates(env) - 1))), None)
    case Some(k) =>
      var route := Usual(env, At(env, cursor, k));
      if env.send(route.value.index).None? then PassResult(PassDelivered, route, route, None)
      else PassResult(if k == 0 then PassWaitEvent else PassWaitTimerEvent, None, route, route)
  }

  function Visited(env: Env, cursor: int): seq<nat> {
    var count := match StopOffset(env, cursor) case None => Candidates(env) case Some(k) => k + 1;
    seq(count, (k: nat) => At(env, cursor, k))
  }

  lemma Wrap(b: nat, k: nat, n: nat)
    requires b < n && k < n
    ensures (b + k) % n == if b + k < n then b + k else b + k - n
  {
  }

  lemma AtCandidate(env: Env, cursor: int, k: nat)
    requires k < Candidates(env)
    ensures var i := At(env, cursor, k);
            && (k == 0 ==> i == Base(env, cursor))
            && i == if Base(env, cursor) + k < Candidates(env) then Base(env, cursor) + k
                    else Base(env, cursor) + k - Candidates(env)
  {
    hide Candidates, Base;
    Wrap(Base(env, cursor), k, Candidates(env));
  }

  lemma AttemptedIndex(env: Env, i: nat)
    requires i < Candidates(env)
    ensures var route := Attempted(env, i);
            route.index == i && (route.egress == Sgd <==> i == SGD_INDEX)
  {
    hide Fallback, Modulo, Base, Planned, Resolved;
    BaseOfIndex(env, i);
    EgressOfIndex(env, i);
  }

  /** Whether a candidate that was visited leads the pass on: never as TryNext, and SGd never permanently. */
  lemma AttemptCases(env: Env, i: nat)
    requires i < Candidates(env) && Usual(env, i).Some?
    ensures var route := Usual(env, i).value;
            && Attempt(env, route) != TryNext
            && (i == SGD_INDEX ==> Attempt(env, route) != Permanent)
            && (i != SGD_INDEX ==> Attempt(env, route) != RouteWaitEvent)
            && (Attempt(env, route) == RouteDelivered <==> env.send(i).None?)
  {
    hide Fallback, Modulo, Base, Planned, Resolved;
    BaseOfIndex(env, i);
    EgressOfIndex(env, i);
  }

  /**
    * runRoutingPass: the loop with its two flags computes exactly what a pass means, and
    * so never ends in failure.
    */
  method RunRoutingPass(env: Env, cursor: int) returns (r: PassResult, ghost visited: seq<nat>)
    ensures r == Pass(env, cursor) && visited == Visited(env, cursor)
    ensures r.outcome != PassFailed
  {
    hide Fallback, Attempt, Planned, Base, Resolved, At;
    visited := [];
    var decisions := FallbackDecisions(env.matched);
    var total := |decisions| + BUILT_IN;
    if total <= 0 {
      return PassResult(PassWaitTimer, None, None, None), [];
    }
    var sawRetry, sawPermanent := false, false;
    var lastAttempted: Option<Route> := None;
    ghost var stops := (k: nat) => Stops(env, At(env, cursor, k));
    for offset := 0 to total
      invariant First(stops, 0, total) == First(stops, offset, total)
      invariant visited == seq(offset, (k: nat) => At(env, cursor, k))
      invariant sawRetry || sawPermanent <==> offset > 0
      invariant forall k: nat :: k < offset && At(env, cursor, k) == SGD_INDEX ==> sawRetry
      invariant offset > 0 ==> lastAttempted == Some(Attempted(env, At(env, cursor, offset - 1)))
    {
      var index := At(env, cursor, offset);
      AtCandidate(env, cursor, offset);
      visited := visited + [index];
      var route := Usual(env, index);
      if route.None? {
        lastAttempted := Some(Planned(env, index));
        sawRetry := true;
        continue;
      }
      AttemptedIndex(env, index);
      AttemptCases(env, index);
      match Attempt(env, route.value) {
        case RouteDelivered =>
          return PassResult(PassDelivered, route, route, None), visited;
        case RouteWaitEvent =>
          var pass := if sawRetry || sawPermanent then PassWaitTimerEvent else PassWaitEvent;
          return PassResult(pass, None, route, route), visited;
        case RouteWaitTimer =>
          sawRetry, lastAttempted := true, route;
        case Permanent =>
          sawPermanent, lastAttempted := true, route;
        case TryNext =>
          sawRetry, lastAttempted := true, route;
      }
    }
    SgdIsVisited(env, cursor);
    if sawRetry {
      return PassResult(PassWaitTimer, None, lastAttempted, None), visited;
    } else if sawPermanent {
      return PassResult(PassFailed, None, lastAttempted, None), visited;
    } else {
      return PassResult(PassFailed, None, None, None), visited;
    }
  }

  /** The offset at which a candidate lies behind a cursor. */
  function OffsetOf(env: Env, cursor: int, i: nat): nat
    requires i < Candidates(env)
  {
    if i >= Base(env, cursor) then i - Base(env, cursor) else i + Candidates(env) - Base(env, cursor)
  }

  lemma OffsetFinds(env: Env, cursor: int, i: nat)
    requires i < Candidates(env)
    ensures OffsetOf(env, cursor, i) < Candidates(env) && At(env, cursor, OffsetOf(env, cursor, i)) == i
  {
    hide Fallback;
    AtCandidate(env, cursor, OffsetOf(env, cursor, i));
  }

  lemma SgdIsVisited(env: Env, cursor: int)
    ensures exists k: nat :: k < Candidates(env) && At(env, cursor, k) == SGD_INDEX
  {
    OffsetFinds(env, cursor, SGD_INDEX);
  }

  /** Candidates are visited in cyclic order, none twice, and all of them unless one ends the pass. */
  lemma VisitsEachOnce(env: Env, cursor: int)
    ensures var v := Visited(env, cursor);
            && |v| > 0 && v[0] == Base(env, cursor)
            && (forall j :: 0 <= j < |v| - 1 ==> v[j + 1] == (v[j] + 1) % Candidates(env))
            && (forall j, k :: 0 <= j < k < |v| ==> v[j] != v[k])
            && (forall i: nat :: i < Candidates(env) && i !in v ==>
                  exists j :: 0 <= j < |v| && v[j] < Candidates(env) && Stops(env, v[j]))
  {
    hide Fallback, Base, Stops, At;
    var v, n := Visited(env, cursor), Candidates(env);
    forall j, k | 0 <= j < k < |v| ensures v[j] != v[k] {
      AtCandidate(env, cursor, j);
      AtCandidate(env, cursor, k);
    }
    forall j | 0 <= j < |v| - 1 ensures v[j + 1] == (v[j] + 1) % n {
      AtCandidate(env, cursor, j);
      AtCandidate(env, cursor, j + 1);
      NextIsModular(v[j], n);
    }
    if StopOffset(env, cursor).None? {
      forall i: nat | i < n ensures i in v {
        OffsetFinds(env, cursor, i);
        assert v[OffsetOf(env, cursor, i)] == i;
      }
    } else {
      assert Stops(env, v[|v| - 1]);
    }
    AtCandidate(env, cursor, 0);
  }

  lemma NextIsModular(i: nat, n: nat)
    requires i < n
    ensures (i + 1) % n == if i + 1 == n then 0 else i + 1
  {
  }

  /** SGd is there, and answers that the subscriber cannot be reached. */
  predicate SgdWaits(env: Env) {
    env.host(2).Some? && env.send(2).Some? && env.send(2).value.resultCode == Some(3002)
  }

  /**
    * A pass waits for an event alone exactly when it begins at SGd and SGd reports the
    * subscriber unreachable; waiting for both needs another candidate before it.
    */
  lemma WaitEventOnlyFromSgd(env: Env, cursor: int)
    ensures Pass(env, cursor).outcome == PassWaitEvent <==>
              Base(env, cursor) == 2 && SgdWaits(env)
    ensures Pass(env, cursor).outcome == PassWaitTimerEvent ==> Base(env, cursor) != 2 && SgdWaits(env)
  {
    hide Fallback, Base, Resolved, Attempt, At, SgdWaits;
    var stop := StopOffset(env, cursor);
    AtCandidate(env, cursor, 0);
    AttemptAtSgd(env);
    StopOffsetIsFirst(env, cursor, 0);
    if stop.Some? {
      var i := At(env, cursor, stop.value);
      AtCandidate(env, cursor, stop.value);
      AttemptCases(env, i);
      AttemptedIndex(env, i);
    }
  }

  lemma StopOffsetIsFirst(env: Env, cursor: int, k: nat)
    requires k < Candidates(env)
    ensures Stops(env, At(env, cursor, k)) ==> StopOffset(env, cursor).Some? && StopOffset(env, cursor).value <= k
  {
    hide Fallback, At, Stops;
    var p := (j: nat) => Stops(env, At(env, cursor, j));
    assert p(k) == Stops(env, At(env, cursor, k));
    var first := First(p, 0, Candidates(env));
    assert StopOffset(env, cursor) == first;
  }

  lemma AttemptAtSgd(env: Env)
    ensures SgdWaits(env) <==>
              Usual(env, SGD_INDEX).Some? && Attempt(env, Usual(env, SGD_INDEX).value) == RouteWaitEvent
    ensures SgdWaits(env) ==> Stops(env, SGD_INDEX) && env.send(SGD_INDEX).Some?
  {
    if Usual(env, SGD_INDEX).Some? {
      AttemptCases(env, SGD_INDEX);
    }
  }

  /** The routes that a pass hands on: where they lie, and when they are SGd. */
  lemma PassRoutes(env: Env, cursor: int)
    ensures var r := Pass(env, cursor);
            && (r.outcome == PassDelivered ==> r.deliveredRoute.Some? && r.deliveredRoute == r.lastAttempted)
            && (r.outcome == PassWaitTimer ==>
                  r.lastAttempted.Some? && r.lastAttempted.value.index == At(env, cursor, Candidates(env) - 1)
                  && (r.lastAttempted.value.egress == Sgd <==> r.lastAttempted.value.index == SGD_INDEX))
            && (r.outcome == PassWaitEvent || r.outcome == PassWaitTimerEvent ==>
                  r.eventRoute.Some? && r.eventRoute.value.index == SGD_INDEX && r.eventRoute.value.egress == Sgd)
            && r.outcome != PassFailed
  {
    hide Fallback, Base, Attempt, At, Planned, Resolved;
    var stop := StopOffset(env, cursor);
    var k := if stop.Some? then stop.value else Candidates(env) - 1;
    AtCandidate(env, cursor, k);
    var i := At(env, cursor, k);
    AttemptedIndex(env, i);
    if stop.Some? {
      AttemptCases(env, i);
    }
  }

  // ----- single candidates -----

  /** What a retry after an SGd alert does: only the candidate at the cursor is tried. */
  function Single(env: Env, cursor: int): PassResult {
    match Usual(env, Base(env, cursor))
    case None => PassResult(PassWaitTimer, None, None, None)
    case Some(route) =>
      if env.send(route.index).None? then PassResult(PassDelivered, Some(route), Some(route), None)
      else PassResult(PassWaitTimer, None, Some(route), None)
  }

  /** tryRouteAt, with its result turned into a pass result as retryMessage does. */
  method TryRouteAt(env: Env, cursor: int) returns (r: PassResult)
    ensures r == Single(env, cursor)
  {
    hide Fallback, Modulo;
    var decisions := FallbackDecisions(env.matched);
    var index := Modulo(cursor, |decisions| + BUILT_IN);
    ModuloInRange(cursor, |decisions| + BUILT_IN);
    var route := Usual(env, index);
    if route.None? {
      return PassResult(PassWaitTimer, None, None, None);
    }
    if env.send(route.value.index).Some? {
      return PassResult(PassWaitTimer, None, route, None);
    }
    return PassResult(PassDelivered, route, route, None);
  }

  /** selectRoute, made after the pass: the first candidate behind the cursor that resolves. */
  function Selected(env: Env, cursor: int): Option<Route> {
    match First((k: nat) => Resolved(env, env.hostAgain, env.activeAgain, At(env, cursor, k)).Some?, 0, Candidates(env))
    case None => None
    case Some(k) => Resolved(env, env.hostAgain, env.activeAgain, At(env, cursor, k))
  }

  method SelectRoute(env: Env, cursor: int) returns (r: Option<Route>)
    ensures r == Selected(env, cursor)
  {
    hide Fallback, Base, Resolved, At;
    var decisions := FallbackDecisions(env.matched);
    var total := |decisions| + BUILT_IN;
    ghost var p := (k: nat) => Resolved(env, env.hostAgain, env.activeAgain, At(env, cursor, k)).Some?;
    for offset := 0 to total
      invariant First(p, 0, total) == First(p, offset, total)
    {
      var route := Resolved(env, env.hostAgain, env.activeAgain, At(env, cursor, offset));
      if route.Some? {
        return route;
      }
    }
    return None;
  }
}
