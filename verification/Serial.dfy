/**
  * What single store calls have to do with whole steps: where no finaliser splits its
  * writes, every interleaving of calls leaves what some run of steps leaves.
  */
module Serial {
  import opened Wrappers
  import opened MessageStore
  import opened Routing
  import opened Forwarder
  import opened Claims
  import Lifecycle

  predicate Busy(s: State, w: nat) { w in s.workers && s.workers[w].todo != [] }

  /** Every worker has made all its calls. */
  predicate Idle(s: State) { forall w :: w in s.workers ==> s.workers[w].todo == [] }

  /** Only a terminal status is written before the last call. */
  predicate Closed(calls: seq<Call>) {
    calls == [] ||
    (Closed(calls[1..]) &&
     (IsWrite(calls[0]) && calls[1..] != [] ==> calls[0].SetStatus? && Terminal(calls[0].status)))
  }

  /**
    * At most one worker has calls to make, while nobody can claim or requeue the message;
    * what it leaves when it has made them, or what is there when nobody has any, is `done`.
    */
  ghost predicate Follows(s: State, done: Ledger) {
    && PlainWork(s)
    && (forall w :: w in s.workers ==> Closed(s.workers[w].todo))
    && (forall v, w :: Busy(s, v) && Busy(s, w) ==> v == w)
    && (forall w :: Busy(s, w) ==> s.l.row.status == Dispatched || Terminal(s.l.row.status))
    && (forall w :: Busy(s, w) ==> ApplyAll(s.l, s.workers[w].todo) == done)
    && (Idle(s) ==> s.l == done)
  }

  // ----- finalisers are closed -----

  lemma {:induction false} ClosedBehind(defer: seq<Call>, end: seq<Call>)
    requires forall i :: 0 <= i < |defer| ==> !IsWrite(defer[i])
    requires Closed(end)
    ensures Closed(defer + end)
  {
    hide IsWrite;
    if defer == [] {
      assert defer + end == end;
    } else {
      assert (defer + end)[0] == defer[0] && (defer + end)[1..] == defer[1..] + end;
      ClosedBehind(defer[1..], end);
    }
  }

  lemma ShortIsClosed(a: Call, b: Call, c: Call)
    ensures Closed([]) && Closed([a])
    ensures (IsWrite(a) ==> a.SetStatus? && Terminal(a.status)) ==> Closed([a, b])
    ensures !IsWrite(a) && (IsWrite(b) ==> b.SetStatus? && Terminal(b.status)) ==> Closed([a, b, c])
    ensures a.SetStatus? && Terminal(a.status) && !IsWrite(b) ==> Closed([a, b, c])
  {
    hide IsWrite;
    assert [a][1..] == [] && [b][1..] == [] && [c][1..] == [];
    assert [a, b][1..] == [b] && [b, c][1..] == [c] && [a, b, c][1..] == [b, c];
    assert Closed([c]) && Closed([b]);
  }

  lemma DeliveryIsClosed(env: Env, route: Route)
    ensures Closed(Deliver(env, route))
  {
    hide Closed;
    ShortIsClosed(SetRouting(route.egress, route.peer), SetStatus(Delivered, env.now), Report(Delivered));
  }

  lemma UnsplitIsClosed(m: Row, env: Env)
    requires !Splits(m, env)
    ensures Closed(RetryCalls(m, env))
  {
    hide Closed, RetryCalls, RetryResult, NextRetry, Defer, CursorAfter, Deliver;
    if Lifecycle.EndOf(m, env) == PassDelivered {
      DeliveredRetry(m, env);
      DeliveryIsClosed(env, RetryResult(m, env).deliveredRoute.value);
    } else {
      Lifecycle.RetryIsDeferAndEnd(m, env);
      DeferWritesNothing(m, env);
      var end, failed := Lifecycle.EndCalls(m, env), SetStatus(Failed, env.now);
      ShortIsClosed(failed, Report(Failed), SetStatus(WaitTimerEvent, env.now));
      if |end| == 1 {
        ShortIsClosed(end[0], failed, failed);
        assert end == [end[0]];
      }
      ClosedBehind(Lifecycle.DeferCalls(m, env), end);
    }
  }

  lemma UnsplitDispatchIsClosed(env: Env)
    requires Pass(env, 0).outcome != PassWaitTimerEvent
    ensures Pass(env, 0).outcome == PassDelivered ==> Pass(env, 0).deliveredRoute.Some?
    ensures Closed(DispatchCalls(env, Pass(env, 0)))
  {
    hide Closed, Pass, Defer, CursorAfter, Deliver;
    PassRoutes(env, 0);
    var r := Pass(env, 0);
    if r.outcome == PassDelivered {
      DeliveryIsClosed(env, r.deliveredRoute.value);
    } else {
      var route := if r.outcome == PassWaitTimer then r.lastAttempted else r.eventRoute;
      var next, alone := SetRetry(1, env.now + 30, CursorAfter(route)), SetStatus(WaitEvent, env.now);
      var defer := Defer(env, 0, env.now, route);
      DeferIsPlain(env, 0, env.now, route);
      ShortIsClosed(next, alone, alone);
      ShortIsClosed(alone, next, next);
      ClosedBehind(defer, [next]);
      ClosedBehind(defer, [alone]);
    }
  }

  // ----- one call -----

  /** A call of the one busy worker brings it nearer to the same end. */
  lemma CallFollows(s: State, w: nat, done: Ledger)
    requires Follows(s, done) && Busy(s, w)
    ensures Follows(Claims.Next(s, Advance(w), false), done)
  {
    hide Apply, Claims.Next, Plain;
    var todo, after := s.workers[w].todo, Claims.Next(s, Advance(w), false);
    CallNext(s, w);
    NonWriteKeepsStatus(s.l, todo[0]);
    StatusWritten(s.l, todo[0]);
    assert ApplyAll(s.l, todo) == ApplyAll(Apply(s.l, todo[0]), todo[1..]);
    forall v ensures Busy(after, v) ==> v == w {
      assert Busy(after, v) && v != w ==> Busy(s, v);
    }
    assert Busy(after, w) <==> todo[1..] != [];
    assert Closed(todo);
    Lifecycle.ApplyNone(after.l);
    assert PlainWork(after);
  }

  lemma StatusWritten(l: Ledger, c: Call)
    ensures c.SetStatus? ==> Apply(l, c).row.status == c.status
  {
  }

  /** A claim begins a retry: the worker's calls leave what the whole step leaves. */
  lemma ClaimFollows(s: State, w: nat, process: nat, m: Row, env: Env, done: Ledger)
    requires Follows(s, done) && !Splits(m, env) && w !in s.workers && s.l.row.status in RETRYABLE
    ensures Follows(Claims.Next(s, Try(w, process, m, env), false), Lifecycle.Do(done, Lifecycle.Retry(m, env)))
  {
    hide RetryCalls, Splits, ApplyAll, Plain, Closed;
    var after := Claims.Next(s, Try(w, process, m, env), false);
    NobodyBusy(s, done);
    FinalisersArePlain(m, env);
    UnsplitIsClosed(m, env);
    forall v ensures Busy(after, v) ==> v == w {
      assert Busy(after, v) && v != w ==> Busy(s, v);
    }
    assert after.workers[w].todo == RetryCalls(m, env);
    assert ApplyAll(after.l, RetryCalls(m, env)) == Retried(s.l, m, env);
    if RetryCalls(m, env) == [] {
      Lifecycle.ApplyNone(after.l);
    }
  }

  lemma NobodyBusy(s: State, done: Ledger)
    requires Follows(s, done) && s.l.row.status in PENDING
    ensures Idle(s) && s.l == done
  {
    forall w | w in s.workers ensures s.workers[w].todo == [] {
      assert !Busy(s, w);
    }
  }

  lemma AlertFollows(s: State, m: Row, source: Source, now: int, done: Ledger)
    requires Follows(s, done)
    ensures var alert := Lifecycle.Alert(m, source, now);
            Follows(Claims.Next(s, AlertFrom(m, source, now), false),
                    if s.l.row.status in PENDING then Lifecycle.Do(done, alert) else done)
  {
    hide ApplyAll, Plain, Closed;
    var after := Claims.Next(s, AlertFrom(m, source, now), false);
    if s.l.row.status in PENDING {
      NobodyBusy(s, done);
      forall v ensures !Busy(after, v) { assert Busy(after, v) <==> Busy(s, v); }
    } else {
      assert after == s;
    }
  }

  /** A restart that interrupts nobody is a whole step too. */
  lemma RestartFollows(s: State, process: nat, now: int, done: Ledger)
    requires Follows(s, done) && Idle(s)
    ensures Follows(Claims.Next(s, RestartOf(process, now), false), Lifecycle.Do(done, Lifecycle.Restart(now)))
  {
    hide ApplyAll, Plain, Closed;
    var after := Claims.Next(s, RestartOf(process, now), false);
    forall v ensures !Busy(after, v) { assert Busy(after, v) ==> Busy(s, v); }
  }

  /** Each call is a step, a part of one, or nothing. */
  lemma MoveFollows(s: State, move: Move, done: Ledger) returns (steps: seq<Lifecycle.Step>)
    requires Follows(s, done) && (move.RestartOf? ==> Idle(s)) && (move.Try? ==> !Splits(move.m, move.env))
    ensures Follows(Claims.Next(s, move, false), Lifecycle.Run(done, steps))
  {
    hide RetryCalls, Splits, ApplyAll, Follows, Lifecycle.Do, Lifecycle.Run;
    steps := [];
    Lifecycle.RunNone(done);
    match move {
      case Try(w, process, m, env) =>
        if w !in s.workers && s.l.row.status in RETRYABLE {
          ClaimFollows(s, w, process, m, env, done);
          steps := [Lifecycle.Retry(m, env)];
          Lifecycle.RunOne(done, Lifecycle.Retry(m, env));
        }
      case Advance(w) =>
        if Busy(s, w) {
          CallFollows(s, w, done);
        }
      case AlertFrom(m, source, now) =>
        AlertFollows(s, m, source, now, done);
        if s.l.row.status in PENDING {
          steps := [Lifecycle.Alert(m, source, now)];
          Lifecycle.RunOne(done, Lifecycle.Alert(m, source, now));
        }
      case RestartOf(process, now) =>
        RestartFollows(s, process, now, done);
        steps := [Lifecycle.Restart(now)];
        Lifecycle.RunOne(done, Lifecycle.Restart(now));
    }
  }

  // ----- runs -----

  /** No restart of a run comes while a worker has calls to make. */
  ghost predicate Uninterrupted(s: State, moves: seq<Move>)
    decreases |moves|
  {
    moves == [] ||
    ((moves[0].RestartOf? ==> Idle(s)) && Uninterrupted(Claims.Next(s, moves[0], false), moves[1..]))
  }

  lemma {:induction false} RunFollows(s: State, moves: seq<Move>, done: Ledger) returns (steps: seq<Lifecycle.Step>)
    requires Follows(s, done) && Unsplit(moves) && Uninterrupted(s, moves)
    ensures Follows(Claims.Run(s, moves, false), Lifecycle.Run(done, steps))
    decreases |moves|
  {
    hide Claims.Next, Follows, Splits, Lifecycle.Run;
    if moves == [] {
      steps := [];
      Lifecycle.RunNone(done);
    } else {
      assert moves[0] in moves;
      var first := MoveFollows(s, moves[0], done);
      var rest := RunFollows(Claims.Next(s, moves[0], false), moves[1..], Lifecycle.Run(done, first));
      steps := first + rest;
      Lifecycle.RunAppend(done, first, rest);
    }
  }

  lemma BeginFollows(b: Lifecycle.Start)
    requires !b.crashed && Pass(b.env, 0).outcome != PassWaitTimerEvent
    ensures Follows(Claims.Begin(b.validity, b.receiptWanted, b.env), Lifecycle.Begin(b))
  {
    hide Pass, DispatchCalls, ApplyAll, Plain, Closed;
    DispatchIsPlain(b.env);
    UnsplitDispatchIsClosed(b.env);
    var s := Claims.Begin(b.validity, b.receiptWanted, b.env);
    assert ApplyAll(s.l, s.workers[0].todo) == Lifecycle.Begin(b);
    Lifecycle.ApplyNone(s.l);
  }

  /**
    * Whatever schedulers and alerts interleave their single calls on a message, once all
    * calls are made its row, its reports and the statuses written to it are those of a run
    * of whole steps, if no finaliser splits its writes and no restart interrupts a worker.
    */
  lemma InterleavingIsSerial(b: Lifecycle.Start, moves: seq<Move>) returns (steps: seq<Lifecycle.Step>)
    requires !b.crashed && Pass(b.env, 0).outcome != PassWaitTimerEvent && Unsplit(moves)
    requires Uninterrupted(Claims.Begin(b.validity, b.receiptWanted, b.env), moves)
    ensures var end := Claims.Run(Claims.Begin(b.validity, b.receiptWanted, b.env), moves, false);
            Idle(end) ==> end.l == Lifecycle.Run(Lifecycle.Begin(b), steps)
  {
    hide Pass, DispatchCalls, Claims.Run, Lifecycle.Run, Lifecycle.Begin, Unsplit, Uninterrupted, Claims.Begin;
    BeginFollows(b);
    steps := RunFollows(Claims.Begin(b.validity, b.receiptWanted, b.env), moves, Lifecycle.Begin(b));
  }

  /** So the reports add up there too, and a finished message has the one its status calls for as its last. */
  lemma InterleavedReports(b: Lifecycle.Start, moves: seq<Move>) returns (k: nat)
    requires !b.crashed && Pass(b.env, 0).outcome != PassWaitTimerEvent && Unsplit(moves)
    requires Uninterrupted(Claims.Begin(b.validity, b.receiptWanted, b.env), moves)
    ensures var end := Claims.Run(Claims.Begin(b.validity, b.receiptWanted, b.env), moves, false);
            Idle(end) ==>
              && end.l.reports == Lifecycle.FalseReports(k) + Lifecycle.Expected(end.l.row)
              && Lifecycle.TerminalWrites(end.l.writes) == k + if Terminal(end.l.row.status) then 1 else 0
  {
    hide Pass, Claims.Run, Lifecycle.Run, Claims.Begin, Lifecycle.Begin, Lifecycle.Revivals, Uninterrupted;
    var steps := InterleavingIsSerial(b, moves);
    k := Lifecycle.Revivals(Lifecycle.Begin(b), steps);
    Lifecycle.ReportsAreAccountedFor(b, steps);
  }
}
