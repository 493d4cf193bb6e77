/**
  * Any number of processes at work on one message, each with its schedulers and alerts, and
  * each store call a step of its own. The sweep, whose write has no guard, is not among them.
  */
module Claims {
  import opened Wrappers
  import opened MessageStore
  import opened Routing
  import opened Forwarder
  import Lifecycle

  /** The process a worker runs in, what it has still to write, and whether it has written a status yet. */
  datatype Worker = Worker(process: nat, todo: seq<Call>, wrote: bool)

  datatype State = State(l: Ledger, workers: map<nat, Worker>)

  /** A restart ends the workers of one process, and recovers the row as that process opens the database. */
  datatype Move =
    | Try(w: nat, process: nat, m: Row, env: Env)
    | Advance(w: nat)
    | AlertFrom(m: Row, source: Source, now: int)
    | RestartOf(process: nat, now: int)

  predicate IsWrite(c: Call) { c.SetStatus? || c.SetRetry? }

  /** The calls up to the last status write. */
  function ThroughLastWrite(calls: seq<Call>): nat {
    if calls == [] then 0
    else if IsWrite(calls[|calls| - 1]) then |calls|
    else ThroughLastWrite(calls[..|calls| - 1])
  }

  /** How many calls a worker makes in one step: all its status writes together if they are fused. */
  function BlockSize(todo: seq<Call>, fused: bool): nat
    requires todo != []
  {
    if fused && IsWrite(todo[0]) then ThroughLastWrite(todo) else 1
  }

  lemma {:induction false} LastWriteIsLast(calls: seq<Call>)
    ensures ThroughLastWrite(calls) <= |calls|
    ensures forall i :: ThroughLastWrite(calls) <= i < |calls| ==> !IsWrite(calls[i])
    ensures calls != [] && IsWrite(calls[0]) ==> ThroughLastWrite(calls) > 0
  {
    if calls == [] || IsWrite(calls[|calls| - 1]) {
    } else {
      LastWriteIsLast(calls[..|calls| - 1]);
    }
  }

  function Next(s: State, move: Move, fused: bool): State {
    match move
    case Try(w, process, m, env) =>
      if w !in s.workers && s.l.row.status in RETRYABLE then
        State(Apply(s.l, Claim(RETRYABLE)), s.workers[w := Worker(process, RetryCalls(m, env), false)])
      else s
    case Advance(w) =>
      if w in s.workers && s.workers[w].todo != [] then
        var todo := s.workers[w].todo;
        LastWriteIsLast(todo);
        var n := BlockSize(todo, fused);
        State(ApplyAll(s.l, todo[..n]),
              s.workers[w := s.workers[w].(todo := todo[n..], wrote := s.workers[w].wrote || IsWrite(todo[0]))])
      else s
    case AlertFrom(m, source, now) => s.(l := Lifecycle.Do(s.l, Lifecycle.Alert(m, source, now)))
    case RestartOf(process, now) =>
      State(Recovered(s.l, now), map w | w in s.workers && s.workers[w].process != process :: s.workers[w])
  }

  function Run(s: State, moves: seq<Move>, fused: bool): State
    decreases |moves|
  {
    if moves == [] then s else Run(Next(s, moves[0], fused), moves[1..], fused)
  }

  /** The message was just inserted by the worker that dispatches it. */
  function Begin(validity: Option<int>, receiptWanted: bool, env: Env): State {
    PassRoutes(env, 0);
    State(Inserted(validity, receiptWanted, env.now), map[0 := Worker(0, DispatchCalls(env, Pass(env, 0)), false)])
  }

  // ----- ownership -----

  /** A worker between its claim and its first status write. */
  predicate Owns(s: State, w: nat) { w in s.workers && !s.workers[w].wrote }

  /** Nobody shares the message. */
  ghost predicate Unshared(s: State) { forall v, w :: Owns(s, v) && Owns(s, w) ==> v == w }

  /** At most one worker owns the message, and only while it is DISPATCHED. */
  ghost predicate Exclusive(s: State) {
    && Unshared(s)
    && (forall w :: Owns(s, w) ==> s.l.row.status == Dispatched)
  }

  /** The calls that finalisers make: no claim, no requeue, and no status DISPATCHED. */
  predicate Plain(c: Call) {
    !c.Claim? && !c.Requeue? && (c.SetStatus? ==> c.status != Dispatched)
  }

  ghost predicate PlainWork(s: State) {
    forall w, i :: w in s.workers && 0 <= i < |s.workers[w].todo| ==> Plain(s.workers[w].todo[i])
  }

  lemma FinalisersArePlain(m: Row, env: Env)
    ensures forall i :: 0 <= i < |RetryCalls(m, env)| ==> Plain(RetryCalls(m, env)[i])
  {
    hide RetryResult, NextRetry, Deferral, CapCalls;
    PassRoutes(env, m.routeCursor);
    SingleRoutes(env, m.routeCursor);
    DeferIsPlain(env, m.routeCursor, m.submittedAt, RetryResult(m, env).lastAttempted);
    DeferIsPlain(env, m.routeCursor, m.submittedAt, RetryResult(m, env).eventRoute);
  }

  lemma DispatchIsPlain(env: Env)
    ensures Pass(env, 0).outcome == PassDelivered ==> Pass(env, 0).deliveredRoute.Some?
    ensures forall i :: 0 <= i < |DispatchCalls(env, Pass(env, 0))| ==> Plain(DispatchCalls(env, Pass(env, 0))[i])
  {
    hide Pass, Deferral, CapCalls;
    PassRoutes(env, 0);
    DeferIsPlain(env, 0, env.now, Pass(env, 0).lastAttempted);
    DeferIsPlain(env, 0, env.now, Pass(env, 0).eventRoute);
  }

  lemma DeferIsPlain(env: Env, cursor: int, from: int, route: Option<Route>)
    ensures var calls := Defer(env, cursor, from, route);
            forall i :: 0 <= i < |calls| ==> Plain(calls[i]) && !IsWrite(calls[i])
  {
    hide Planned, Lifetime;
  }

  lemma NonWriteKeepsStatus(l: Ledger, c: Call)
    requires Plain(c)
    ensures if IsWrite(c) then Apply(l, c).row.status != Dispatched else Apply(l, c).row.status == l.row.status
  {
  }

  /** A block of plain calls leaves the status as it was without a status write, and not DISPATCHED with one. */
  lemma {:induction false} BlockStatus(l: Ledger, calls: seq<Call>)
    requires forall i :: 0 <= i < |calls| ==> Plain(calls[i])
    ensures (forall i :: 0 <= i < |calls| ==> !IsWrite(calls[i])) ==> ApplyAll(l, calls).row.status == l.row.status
    ensures (exists i :: 0 <= i < |calls| && IsWrite(calls[i])) ==> ApplyAll(l, calls).row.status != Dispatched
    decreases |calls|
  {
    hide Apply;
    if calls == [] {
    } else {
      var rest := calls[1..];
      NonWriteKeepsStatus(l, calls[0]);
      BlockStatus(Apply(l, calls[0]), rest);
      assert forall i :: 1 <= i < |calls| ==> calls[i] == rest[i - 1];
      assert forall i :: 0 <= i < |rest| ==> rest[i] == calls[i + 1];
    }
  }

  lemma ClaimTakes(s: State, w: nat, process: nat, m: Row, env: Env, fused: bool)
    requires Exclusive(s)
    ensures Exclusive(Next(s, Try(w, process, m, env), fused))
  {
    var after := Next(s, Try(w, process, m, env), fused);
    if w !in s.workers && s.l.row.status in RETRYABLE {
      assert after.l.row.status == Dispatched;
      forall v | Owns(after, v) ensures v == w {
        if v != w {
          assert Owns(s, v);
        }
      }
    }
  }

  lemma AlertFinds(s: State, m: Row, source: Source, now: int, fused: bool)
    requires Exclusive(s)
    ensures Exclusive(Next(s, AlertFrom(m, source, now), fused))
  {
    var after := Next(s, AlertFrom(m, source, now), fused);
    forall v ensures Owns(after, v) <==> Owns(s, v) { }
    if s.l.row.status == Dispatched {
      assert after.l == s.l;
    }
  }

  // ----- restarts beside live processes -----

  /** A process restarts while a worker of another one owns the message. */
  predicate Orphans(s: State, move: Move) {
    move.RestartOf? && exists v :: v in s.workers && !s.workers[v].wrote && s.workers[v].process != move.process
  }

  /** A restart breaks exclusion exactly then: recovery does not ask whose row it resets. */
  lemma OnlyOrphansBreak(s: State, process: nat, now: int, fused: bool)
    requires Exclusive(s)
    ensures Exclusive(Next(s, RestartOf(process, now), fused)) <==> !Orphans(s, RestartOf(process, now))
  {
    var after := Next(s, RestartOf(process, now), fused);
    forall v ensures Owns(after, v) <==> Owns(s, v) && s.workers[v].process != process { }
    if Orphans(s, RestartOf(process, now)) {
      var v :| v in s.workers && !s.workers[v].wrote && s.workers[v].process != process;
      assert Owns(after, v) && after.l.row.status == Queued;
    }
  }

  /** A scheduler that lists the message afterwards owns it together with the surviving worker. */
  lemma OrphanIsShared(s: State, process: nat, now: int, w: nat, other: nat, env: Env, fused: bool)
    requires Exclusive(s) && Orphans(s, RestartOf(process, now)) && w !in s.workers && env.now >= now
    ensures var restarted := Next(s, RestartOf(process, now), fused);
            var end := Next(restarted, Try(w, other, restarted.l.row, env), fused);
            Due(restarted.l.row, env.now) && Owns(end, w) && exists v :: v != w && Owns(end, v)
  {
    hide RetryCalls;
    var v :| v in s.workers && !s.workers[v].wrote && s.workers[v].process != process;
    assert Owns(s, v);
    var restarted := Next(s, RestartOf(process, now), fused);
    var end := Next(restarted, Try(w, other, restarted.l.row, env), fused);
    assert v != w && Owns(end, v);
  }

  /** It happens to every message whose first dispatch is on its way when another process starts. */
  lemma OrphanedDispatch(validity: Option<int>, receiptWanted: bool, env: Env, fused: bool)
    ensures var s := Begin(validity, receiptWanted, env);
            var restarted := Next(s, RestartOf(1, env.now), fused);
            var end := Next(restarted, Try(1, 1, restarted.l.row, env), fused);
            && Exclusive(s) && Orphans(s, RestartOf(1, env.now)) && Due(restarted.l.row, env.now)
            && Owns(end, 0) && Owns(end, 1) && end.workers[0].process == 0 && end.workers[1].process == 1
  {
    hide Pass, DispatchCalls, RetryCalls;
    DispatchIsPlain(env);
    var s := Begin(validity, receiptWanted, env);
    assert s.workers[0].process == 0 && !s.workers[0].wrote;
  }

  /** No restart of a run finds the message owned by another process. */
  ghost predicate Spares(s: State, moves: seq<Move>, fused: bool)
    decreases |moves|
  {
    moves == [] || (!Orphans(s, moves[0]) && Spares(Next(s, moves[0], fused), moves[1..], fused))
  }

  /** All workers and restarts are those of one process. */
  ghost predicate OneProcess(s: State, moves: seq<Move>, process: nat) {
    && (forall w :: w in s.workers ==> s.workers[w].process == process)
    && (forall move :: move in moves ==> (move.Try? || move.RestartOf?) ==> move.process == process)
  }

  lemma {:induction false} OneProcessSpares(s: State, moves: seq<Move>, process: nat, fused: bool)
    requires OneProcess(s, moves, process)
    ensures Spares(s, moves, fused)
    decreases |moves|
  {
    hide RetryCalls, ApplyAll;
    if moves == [] {
    } else {
      assert moves[0] in moves;
      var next := Next(s, moves[0], fused);
      assert forall w :: w in next.workers ==> next.workers[w].process == process;
      assert OneProcess(next, moves[1..], process);
      OneProcessSpares(next, moves[1..], process, fused);
    }
  }

  // ----- fused writes -----

  /** Who has written a status has no more to write. */
  ghost predicate WritesOnce(s: State) {
    forall w, i :: w in s.workers && s.workers[w].wrote && 0 <= i < |s.workers[w].todo| ==>
      !IsWrite(s.workers[w].todo[i])
  }

  lemma FusedStep(s: State, move: Move)
    requires Exclusive(s) && PlainWork(s) && WritesOnce(s)
    ensures var next := Next(s, move, true); PlainWork(next) && WritesOnce(next)
    ensures Exclusive(Next(s, move, true)) <==> !Orphans(s, move)
  {
    hide RetryCalls, Apply, ApplyAll, ThroughLastWrite, Plain, IsWrite;
    match move {
      case Try(w, process, m, env) =>
        FinalisersArePlain(m, env);
        ClaimTakes(s, w, process, m, env, true);
      case Advance(w) =>
        if w in s.workers && s.workers[w].todo != [] {
          FusedAdvance(s, w);
        }
      case AlertFrom(m, source, now) =>
        AlertFinds(s, m, source, now, true);
      case RestartOf(process, now) =>
        OnlyOrphansBreak(s, process, now, true);
    }
  }

  lemma FusedAdvance(s: State, w: nat)
    requires Exclusive(s) && PlainWork(s) && WritesOnce(s) && w in s.workers && s.workers[w].todo != []
    ensures var next := Next(s, Advance(w), true); Exclusive(next) && PlainWork(next) && WritesOnce(next)
  {
    hide Apply, ApplyAll, ThroughLastWrite, Plain, IsWrite;
    var todo := s.workers[w].todo;
    LastWriteIsLast(todo);
    var n, after := BlockSize(todo, true), Next(s, Advance(w), true);
    BlockStatus(s.l, todo[..n]);
    assert todo[..n][0] == todo[0];
    forall v ensures Owns(after, v) <==> Owns(s, v) && !(v == w && IsWrite(todo[0])) { }
    assert after.workers[w].todo == todo[n..];
    assert s.workers[w].wrote <==> !Owns(s, w);
    if s.workers[w].wrote || !IsWrite(todo[0]) {
      assert forall i :: 0 <= i < n ==> !IsWrite(todo[i]);
    }
  }

  lemma {:induction false} FusedRun(s: State, moves: seq<Move>)
    requires Exclusive(s) && PlainWork(s) && WritesOnce(s) && Spares(s, moves, true)
    ensures Exclusive(Run(s, moves, true))
    decreases |moves|
  {
    hide Next, Exclusive, PlainWork, WritesOnce, Orphans;
    if moves == [] {
    } else {
      FusedStep(s, moves[0]);
      FusedRun(Next(s, moves[0], true), moves[1..]);
    }
  }

  /**
    * However the schedulers and alerts of any number of processes interleave, nobody shares
    * a message, if the status writes of a finaliser are one step and no restart finds the
    * message owned by another process.
    */
  lemma AtMostOneOwner(validity: Option<int>, receiptWanted: bool, env: Env, moves: seq<Move>)
    requires Spares(Begin(validity, receiptWanted, env), moves, true)
    ensures Exclusive(Run(Begin(validity, receiptWanted, env), moves, true))
  {
    hide Pass, DispatchCalls, Run, Spares;
    DispatchIsPlain(env);
    FusedRun(Begin(validity, receiptWanted, env), moves);
  }

  // ----- which finalisers split their writes -----

  function WriteCount(calls: seq<Call>): nat {
    if calls == [] then 0 else (if IsWrite(calls[0]) then 1 else 0) + WriteCount(calls[1..])
  }

  lemma {:induction false} WriteCountAppend(a: seq<Call>, b: seq<Call>)
    ensures WriteCount(a + b) == WriteCount(a) + WriteCount(b)
  {
    if a == [] {
      assert a + b == b;
    } else {
      assert (a + b)[1..] == a[1..] + b;
      WriteCountAppend(a[1..], b);
    }
  }

  lemma {:induction false} NoWrites(calls: seq<Call>)
    ensures WriteCount(calls) == 0 <==> forall i :: 0 <= i < |calls| ==> !IsWrite(calls[i])
  {
    if calls == [] {
    } else {
      NoWrites(calls[1..]);
      assert forall i :: 1 <= i < |calls| ==> calls[i] == calls[1..][i - 1];
      assert forall i :: 0 <= i < |calls| - 1 ==> calls[1..][i] == calls[i + 1];
    }
  }

  lemma WritesAtEnd(defer: seq<Call>, end: seq<Call>)
    requires forall i :: 0 <= i < |defer| ==> !IsWrite(defer[i])
    ensures WriteCount(defer + end) == WriteCount(end)
  {
    hide IsWrite;
    NoWrites(defer);
    WriteCountAppend(defer, end);
  }

  lemma ShortCounts(a: Call, b: Call, c: Call)
    ensures WriteCount([]) == 0
    ensures WriteCount([a]) == if IsWrite(a) then 1 else 0
    ensures WriteCount([a, b]) == WriteCount([a]) + WriteCount([b])
    ensures WriteCount([a, b, c]) == WriteCount([a]) + WriteCount([b]) + WriteCount([c])
  {
    hide IsWrite;
    assert [a][1..] == [] && [b][1..] == [] && [c][1..] == [];
    assert [a, b][1..] == [b] && [a, b, c][1..] == [b, c] && [b, c][1..] == [c];
    assert WriteCount([b, c]) == WriteCount([b]) + WriteCount([c]);
  }

  lemma DeferWritesNothing(m: Row, env: Env)
    ensures forall i :: 0 <= i < |Lifecycle.DeferCalls(m, env)| ==> !IsWrite(Lifecycle.DeferCalls(m, env)[i])
  {
    DeferIsPlain(env, m.routeCursor, m.submittedAt, Lifecycle.RouteOf(m, env));
  }

  /**
    * A finaliser of a retry writes a status twice exactly if its outcome is to wait for timer
    * and event and its schedule does not end the process, and otherwise at most once.
    */
  lemma TwoWritesOfRetry(m: Row, env: Env)
    ensures WriteCount(RetryCalls(m, env)) ==
            if Panics(m, env) then 0
            else if Lifecycle.EndOf(m, env) == PassWaitTimerEvent then 2 else 1
  {
    hide WriteCount, NextRetry, RetryResult;
    if Lifecycle.EndOf(m, env) == PassDelivered {
      DeliveredRetry(m, env);
      var route := RetryResult(m, env).deliveredRoute.value;
      ShortCounts(SetRouting(route.egress, route.peer), SetStatus(Delivered, env.now), Report(Delivered));
      ShortCounts(SetStatus(Delivered, env.now), Report(Delivered), Report(Delivered));
      ShortCounts(Report(Delivered), Report(Delivered), Report(Delivered));
    } else {
      Lifecycle.RetryIsDeferAndEnd(m, env);
      DeferWritesNothing(m, env);
      WritesAtEnd(Lifecycle.DeferCalls(m, env), Lifecycle.EndCalls(m, env));
      EndWrites(m, env);
    }
  }

  lemma EndWrites(m: Row, env: Env)
    requires Lifecycle.EndOf(m, env) != PassDelivered && Lifecycle.EndOf(m, env) != PassFailed
    ensures WriteCount(Lifecycle.EndCalls(m, env)) ==
            if Panics(m, env) then 0
            else if Lifecycle.EndOf(m, env) == PassWaitTimerEvent then 2 else 1
  {
    hide WriteCount, NextRetry, RetryResult, CursorAfter;
    var end, failed := Lifecycle.EndCalls(m, env), SetStatus(Failed, env.now);
    var event, report := SetStatus(WaitTimerEvent, env.now), Report(Failed);
    ShortCounts(failed, report, event);
    ShortCounts(report, event, event);
    ShortCounts(event, event, event);
    if end != [] {
      ShortCounts(end[0], event, event);
    }
  }

  /** The same of a first dispatch, whose retry is always scheduled. */
  lemma TwoWritesOfDispatch(env: Env)
    ensures Pass(env, 0).outcome == PassDelivered ==> Pass(env, 0).deliveredRoute.Some?
    ensures WriteCount(DispatchCalls(env, Pass(env, 0))) == if Pass(env, 0).outcome == PassWaitTimerEvent then 2 else 1
  {
    hide WriteCount, Pass, Defer, CursorAfter;
    PassRoutes(env, 0);
    var r := Pass(env, 0);
    var route := if r.outcome == PassWaitTimer then r.lastAttempted else r.eventRoute;
    var defer, next := Defer(env, 0, env.now, route), SetRetry(1, env.now + 30, CursorAfter(route));
    var event, alone := SetStatus(WaitTimerEvent, env.now), SetStatus(WaitEvent, env.now);
    DeferIsPlain(env, 0, env.now, route);
    WritesAtEnd(defer, [next]);
    WritesAtEnd(defer, [alone]);
    WritesAtEnd(defer, [next, event]);
    ShortCounts(next, event, event);
    ShortCounts(event, alone, event);
    ShortCounts(alone, event, event);
    if r.outcome == PassDelivered {
      var to := r.deliveredRoute.value;
      ShortCounts(SetRouting(to.egress, to.peer), SetStatus(Delivered, env.now), Report(Delivered));
      ShortCounts(SetStatus(Delivered, env.now), Report(Delivered), Report(Delivered));
      ShortCounts(Report(Delivered), Report(Delivered), Report(Delivered));
    }
  }

  // ----- every store call a step of its own -----

  /** A finaliser that schedules a retry and then marks the message as waiting for an event too. */
  predicate Splits(m: Row, env: Env) {
    Lifecycle.EndOf(m, env) == PassWaitTimerEvent && Lifecycle.NextOf(m, env).Next?
  }

  /** The first status write is FAILED, which nobody claims or requeues. */
  predicate FailsFirst(calls: seq<Call>) {
    calls != [] &&
    if IsWrite(calls[0]) then calls[0].SetStatus? && calls[0].status == Failed else FailsFirst(calls[1..])
  }

  /** A worker with one status write to make, or two of which the first is FAILED. */
  predicate Tame(k: Worker) {
    WriteCount(k.todo) <= 1 || (!k.wrote && WriteCount(k.todo) == 2 && FailsFirst(k.todo))
  }

  /** A worker that has written a status and will write another. */
  predicate Trails(s: State, w: nat) { w in s.workers && s.workers[w].wrote && WriteCount(s.workers[w].todo) > 0 }

  ghost predicate Orderly(s: State) {
    && Exclusive(s) && PlainWork(s)
    && (forall w :: w in s.workers ==> Tame(s.workers[w]))
    && (forall w :: Trails(s, w) ==> s.l.row.status == Failed)
    && (forall v, w :: Trails(s, v) && Trails(s, w) ==> v == w)
  }

  lemma {:induction false} FailsBehind(defer: seq<Call>, end: seq<Call>)
    requires forall i :: 0 <= i < |defer| ==> !IsWrite(defer[i])
    ensures FailsFirst(defer + end) == FailsFirst(end)
  {
    hide IsWrite;
    if defer == [] {
      assert defer + end == end;
    } else {
      assert (defer + end)[0] == defer[0] && (defer + end)[1..] == defer[1..] + end;
      FailsBehind(defer[1..], end);
    }
  }

  /** Finalisers that do not split are tame: an exhausted one writes FAILED before its second status. */
  lemma UnsplitIsTame(process: nat, m: Row, env: Env)
    ensures !Splits(m, env) ==> Tame(Worker(process, RetryCalls(m, env), false))
  {
    hide WriteCount, NextRetry, RetryResult, Defer, RetryCalls;
    TwoWritesOfRetry(m, env);
    if Lifecycle.EndOf(m, env) == PassWaitTimerEvent && Lifecycle.NextOf(m, env).Exhausted? {
      Lifecycle.RetryIsDeferAndEnd(m, env);
      DeferWritesNothing(m, env);
      FailsBehind(Lifecycle.DeferCalls(m, env), Lifecycle.EndCalls(m, env));
    }
  }

  lemma CallNext(s: State, w: nat)
    requires w in s.workers && s.workers[w].todo != []
    ensures var k := s.workers[w];
            Next(s, Advance(w), false) ==
            State(Apply(s.l, k.todo[0]),
                  s.workers[w := k.(todo := k.todo[1..], wrote := k.wrote || IsWrite(k.todo[0]))])
  {
    hide Apply, ApplyAll;
    var todo := s.workers[w].todo;
    assert todo[..1] == [todo[0]];
    ApplyOne(s.l, todo[0]);
  }

  lemma TameAdvance(s: State, w: nat)
    requires Orderly(s) && w in s.workers && s.workers[w].todo != []
    ensures Orderly(Next(s, Advance(w), false))
  {
    hide Apply, Next, Plain, IsWrite;
    var k, after := s.workers[w], Next(s, Advance(w), false);
    CallNext(s, w);
    NonWriteKeepsStatus(s.l, k.todo[0]);
    WriteOfFailed(s.l, k.todo[0]);
    assert s.workers[w].wrote <==> !Owns(s, w);
    forall v ensures Owns(after, v) <==> Owns(s, v) && !(v == w && IsWrite(k.todo[0])) { }
    forall v | v != w ensures Trails(after, v) <==> Trails(s, v) { }
    assert WriteCount(k.todo) == (if IsWrite(k.todo[0]) then 1 else 0) + WriteCount(k.todo[1..]);
    assert Trails(s, w) <==> k.wrote && WriteCount(k.todo) > 0;
    assert PlainWork(after);
    assert Tame(after.workers[w]);
  }

  lemma WriteOfFailed(l: Ledger, c: Call)
    ensures c.SetStatus? && c.status == Failed ==> Apply(l, c).row.status == Failed
  {
  }

  /** A step of a run without split finalisers, in which no restart orphans an owner. */
  lemma OrderlyStep(s: State, move: Move)
    requires Orderly(s) && !Orphans(s, move)
    requires move.Try? ==> !Splits(move.m, move.env)
    ensures Orderly(Next(s, move, false))
  {
    hide RetryCalls, Splits, WriteCount, ApplyAll, Plain;
    var after := Next(s, move, false);
    match move {
      case Try(w, process, m, env) =>
        FinalisersArePlain(m, env);
        UnsplitIsTame(process, m, env);
        ClaimTakes(s, w, process, m, env, false);
        if w !in s.workers && s.l.row.status in RETRYABLE {
          forall v ensures !Trails(after, v) {
            assert v != w ==> (Trails(after, v) <==> Trails(s, v));
          }
        }
      case Advance(w) =>
        if w in s.workers && s.workers[w].todo != [] {
          TameAdvance(s, w);
        }
      case AlertFrom(m, source, now) =>
        AlertFinds(s, m, source, now, false);
        forall v ensures Trails(after, v) <==> Trails(s, v) { }
        assert s.l.row.status == Failed ==> after.l == s.l;
      case RestartOf(process, now) =>
        OnlyOrphansBreak(s, process, now, false);
        forall v ensures Trails(after, v) ==> Trails(s, v) { }
        assert s.l.row.status == Failed ==> after.l == s.l;
    }
  }

  /** No scheduler of a run gets an outcome that makes its finaliser split. */
  ghost predicate Unsplit(moves: seq<Move>) {
    forall move :: move in moves && move.Try? ==> !Splits(move.m, move.env)
  }

  lemma {:induction false} OrderlyRun(s: State, moves: seq<Move>)
    requires Orderly(s) && Unsplit(moves) && Spares(s, moves, false)
    ensures Orderly(Run(s, moves, false))
    decreases |moves|
  {
    hide Next, Orderly, Orphans, Splits;
    if moves == [] {
    } else {
      assert moves[0] in moves;
      OrderlyStep(s, moves[0]);
      OrderlyRun(Next(s, moves[0], false), moves[1..]);
    }
  }

  // ----- split finalisers are shared -----

  /** What a retry or an alert of a run works on was listed just before, by a retry when it was due. */
  ghost predicate Listed(s: State, moves: seq<Move>, fused: bool)
    decreases |moves|
  {
    moves == [] ||
    ((moves[0].Try? || moves[0].AlertFrom? ==> moves[0].m == s.l.row)
     && (moves[0].Try? ==> Due(s.l.row, moves[0].env.now))
     && Listed(Next(s, moves[0], fused), moves[1..], fused))
  }

  ghost predicate NoRestarts(moves: seq<Move>) { forall move :: move in moves ==> !move.RestartOf? }

  lemma {:induction false} NoRestartsSpare(s: State, moves: seq<Move>, fused: bool)
    requires NoRestarts(moves)
    ensures Spares(s, moves, fused)
    decreases |moves|
  {
    hide Next;
    if moves == [] {
    } else {
      assert moves[0] in moves;
      NoRestartsSpare(Next(s, moves[0], fused), moves[1..], fused);
    }
  }

  /** A network in which nobody can be reached, so that a retry goes back to its timer. */
  ghost predicate Harmless(env: Env) { forall i :: env.host(i).None? && !env.active(i) }

  lemma HarmlessDoesNotSplit(m: Row, env: Env)
    requires Harmless(env)
    ensures !Splits(m, env)
  {
    hide NextRetry, Fallback, Base, At;
    forall i: nat | i < Candidates(env) ensures !Stops(env, i) { }
    assert StopOffset(env, m.routeCursor).None?;
    SingleRoutes(env, m.routeCursor);
  }

  predicate OwnsIn(s: State, w: nat, process: nat) { Owns(s, w) && s.workers[w].process == process }

  /**
    * A worker with a retry to schedule and then an event to wait for, and two schedulers that
    * find the message between its writes and behind them, once an alert has made it due.
    */
  lemma SharedAfterRetry(s: State, w: nat, v: nat, u: nat, p: nat, q: nat, env: Env)
    returns (moves: seq<Move>)
    requires w in s.workers && v !in s.workers && u !in s.workers && u != v && Harmless(env)
    requires !s.workers[w].wrote && |s.workers[w].todo| == 2
    requires var todo := s.workers[w].todo;
             todo[0].SetRetry? && todo[1].SetStatus? && todo[1].status == WaitTimerEvent
    ensures Listed(s, moves, false) && Unsplit(moves) && NoRestarts(moves)
    ensures var end := Run(s, moves, false); OwnsIn(end, v, p) && OwnsIn(end, u, q)
  {
    hide RetryCalls, Harmless, Splits, ApplyAll, Next, Run, Listed;
    var s1 := Next(s, Advance(w), false);
    var alert := AlertFrom(s1.l.row, FromS6c, env.now);
    var s2 := Next(s1, alert, false);
    AlertBetween(s, w, env.now);
    var first := Try(v, p, s2.l.row, env);
    var s3 := Next(s2, first, false);
    var s4 := Next(s3, Advance(w), false);
    ClaimBetween(s2, w, v, p, s2.l.row, env);
    var second := Try(u, q, s4.l.row, env);
    ClaimBehind(s4, u, q, s4.l.row, env);
    HarmlessDoesNotSplit(s2.l.row, env);
    HarmlessDoesNotSplit(s4.l.row, env);
    moves := [Advance(w), alert, first, Advance(w), second];
    ListedFive(s, moves);
    OneListed(s, Advance(w));
    OneListed(s1, alert);
    OneListed(s2, first);
    OneListed(s3, Advance(w));
    OneListed(s4, second);
  }

  /** An alert behind the first write makes the message due at once. */
  lemma AlertBetween(s: State, w: nat, now: int)
    requires w in s.workers && !s.workers[w].wrote && |s.workers[w].todo| == 2 && s.workers[w].todo[0].SetRetry?
    ensures var s1 := Next(s, Advance(w), false);
            var s2 := Next(s1, AlertFrom(s1.l.row, FromS6c, now), false);
            && Due(s2.l.row, now) && s2.l.row.nextRetryAt == Some(now)
            && s2.workers == s.workers[w := s.workers[w].(todo := [s.workers[w].todo[1]], wrote := true)]
  {
    hide ApplyAll;
    assert s.workers[w].todo[1..] == [s.workers[w].todo[1]];
    CallNext(s, w);
  }

  /** A claim then takes it, and the second write gives it away again. */
  lemma ClaimBetween(s: State, w: nat, v: nat, p: nat, m: Row, env: Env)
    requires w in s.workers && v !in s.workers && Due(s.l.row, env.now) && s.l.row.nextRetryAt == Some(env.now)
    requires var todo := s.workers[w].todo;
             |todo| == 1 && todo[0].SetStatus? && todo[0].status == WaitTimerEvent
    ensures var s4 := Next(Next(s, Try(v, p, m, env), false), Advance(w), false);
            Due(s4.l.row, env.now) && OwnsIn(s4, v, p) && s4.workers.Keys == s.workers.Keys + {v}
  {
    hide ApplyAll, RetryCalls;
    CallNext(Next(s, Try(v, p, m, env), false), w);
  }

  lemma ClaimBehind(s: State, u: nat, q: nat, m: Row, env: Env)
    requires u !in s.workers && Due(s.l.row, env.now)
    ensures var end := Next(s, Try(u, q, m, env), false);
            OwnsIn(end, u, q) && forall v, p :: OwnsIn(s, v, p) ==> OwnsIn(end, v, p)
  {
    hide RetryCalls;
  }

  lemma OneListed(s: State, move: Move)
    ensures Listed(s, [move], false) <==>
              (move.Try? || move.AlertFrom? ==> move.m == s.l.row) && (move.Try? ==> Due(s.l.row, move.env.now))
  {
    hide Next, Due;
    assert [move][1..] == [];
  }

  lemma ListedFive(s: State, moves: seq<Move>)
    requires |moves| == 5
    ensures var s1 := Next(s, moves[0], false);
            var s2 := Next(s1, moves[1], false);
            var s3 := Next(s2, moves[2], false);
            var s4 := Next(s3, moves[3], false);
            && Run(s, moves, false) == Next(s4, moves[4], false)
            && (Listed(s, moves, false) <==>
                  Listed(s, [moves[0]], false) && Listed(s1, [moves[1]], false) && Listed(s2, [moves[2]], false)
                  && Listed(s3, [moves[3]], false) && Listed(s4, [moves[4]], false))
  {
    hide Next, Due;
    var s1 := Next(s, moves[0], false);
    var s2 := Next(s1, moves[1], false);
    var s3 := Next(s2, moves[2], false);
    var s4 := Next(s3, moves[3], false);
    ListedStep(s, moves);
    ListedStep(s1, moves[1..]);
    ListedStep(s2, moves[1..][1..]);
    ListedStep(s3, moves[1..][1..][1..]);
    assert moves[1..][1..][1..][1..] == [moves[4]];
    ListedStep(s4, [moves[4]]);
  }

  lemma ListedStep(s: State, moves: seq<Move>)
    requires moves != []
    ensures var next := Next(s, moves[0], false);
            && Run(s, moves, false) == Run(next, moves[1..], false) && Run(next, [], false) == next
            && (Listed(s, moves, false) <==> Listed(s, [moves[0]], false) && Listed(next, moves[1..], false))
            && Listed(next, [], false)
  {
    hide Next, Due;
    assert [moves[0]][1..] == [];
  }

  /** The calls of a deferral move no status; a worker can always make them first. */
  lemma {:induction false} SharedAfterDefer(s: State, w: nat, n: nat, v: nat, u: nat, p: nat, q: nat, env: Env)
    returns (moves: seq<Move>)
    requires w in s.workers && v !in s.workers && u !in s.workers && u != v && Harmless(env)
    requires !s.workers[w].wrote && |s.workers[w].todo| == n + 2
    requires forall i :: 0 <= i < n ==> !IsWrite(s.workers[w].todo[i])
    requires var todo := s.workers[w].todo;
             todo[n].SetRetry? && todo[n + 1].SetStatus? && todo[n + 1].status == WaitTimerEvent
    ensures Listed(s, moves, false) && Unsplit(moves) && NoRestarts(moves)
    ensures var end := Run(s, moves, false); OwnsIn(end, v, p) && OwnsIn(end, u, q)
    decreases n
  {
    hide Next, Run, OwnsIn, Harmless, Splits, Due;
    if n == 0 {
      moves := SharedAfterRetry(s, w, v, u, p, q, env);
    } else {
      CallNext(s, w);
      var rest := SharedAfterDefer(Next(s, Advance(w), false), w, n - 1, v, u, p, q, env);
      moves := [Advance(w)] + rest;
      assert moves[0] == Advance(w) && moves[1..] == rest;
      ListedStep(s, moves);
      OneListed(s, Advance(w));
    }
  }

  /** The two writes of a first dispatch, behind its deferral. */
  lemma DispatchSplits(env: Env)
    requires Pass(env, 0).outcome == PassWaitTimerEvent
    ensures var todo := DispatchCalls(env, Pass(env, 0));
            var n := |todo| - 2;
            && n >= 0 && todo[n].SetRetry? && todo[n + 1].SetStatus? && todo[n + 1].status == WaitTimerEvent
            && forall i :: 0 <= i < n ==> !IsWrite(todo[i])
  {
    hide Pass, Defer, CursorAfter;
    DeferIsPlain(env, 0, env.now, Pass(env, 0).eventRoute);
  }

  lemma RetrySplits(m: Row, env: Env)
    requires Splits(m, env)
    ensures var todo := RetryCalls(m, env);
            var n := |todo| - 2;
            && n >= 0 && todo[n].SetRetry? && todo[n + 1].SetStatus? && todo[n + 1].status == WaitTimerEvent
            && forall i :: 0 <= i < n ==> !IsWrite(todo[i])
  {
    hide RetryResult, NextRetry, Defer, CursorAfter, RetryCalls;
    Lifecycle.RetryIsDeferAndEnd(m, env);
    DeferWritesNothing(m, env);
  }

  /** Nobody ever does, if no other finaliser splits and no restart orphans an owner. */
  ghost predicate Keeps(s: State) {
    forall moves :: Unsplit(moves) && Spares(s, moves, false) ==> Unshared(Run(s, moves, false))
  }

  lemma {:induction false} SharedIsNotKept(s: State, moves: seq<Move>, v: nat, u: nat)
    requires Unsplit(moves) && NoRestarts(moves) && u != v
    requires var end := Run(s, moves, false); Owns(end, v) && Owns(end, u)
    ensures !Keeps(s)
  {
    hide Run, Unsplit, Spares, NoRestarts;
    NoRestartsSpare(s, moves, false);
    assert !Unshared(Run(s, moves, false));
  }

  lemma {:induction false} OrderlyKeeps(s: State)
    requires Orderly(s)
    ensures Keeps(s)
  {
    hide Run, Unsplit, Spares, PlainWork, Tame, Trails;
    forall moves | Unsplit(moves) && Spares(s, moves, false) ensures Unshared(Run(s, moves, false)) {
      OrderlyRun(s, moves);
    }
  }

  lemma BeginIsOrderly(validity: Option<int>, receiptWanted: bool, env: Env)
    requires Pass(env, 0).outcome != PassWaitTimerEvent
    ensures Orderly(Begin(validity, receiptWanted, env))
  {
    hide Pass, DispatchCalls, WriteCount;
    DispatchIsPlain(env);
    TwoWritesOfDispatch(env);
  }

  /**
    * With every store call a step of its own, a message that was just inserted is never
    * shared exactly if its first pass does not end in waiting for timer and event.
    */
  lemma DispatchIsUnshared(validity: Option<int>, receiptWanted: bool, env: Env)
    ensures Keeps(Begin(validity, receiptWanted, env)) <==> Pass(env, 0).outcome != PassWaitTimerEvent
  {
    hide Pass, DispatchCalls, Keeps, Orderly, Run, Harmless, Listed;
    var s := Begin(validity, receiptWanted, env);
    if Pass(env, 0).outcome != PassWaitTimerEvent {
      BeginIsOrderly(validity, receiptWanted, env);
      OrderlyKeeps(s);
    } else {
      DispatchSplits(env);
      var later := Quiet(env, env.now);
      var moves := SharedAfterDefer(s, 0, |s.workers[0].todo| - 2, 1, 2, 1, 2, later);
      SharedIsNotKept(s, moves, 1, 2);
    }
  }

  /** The same network when nobody can be reached. */
  function Quiet(env: Env, now: int): (e: Env)
    ensures Harmless(e) && e.now == now
  {
    env.(host := _ => None, active := _ => false, now := now)
  }

  /**
    * The same of a message that a retry has just claimed: it is never shared exactly if the
    * retry's pass does not end so, or has no attempts left, or ends the process.
    */
  lemma RetryIsUnshared(s: State, w: nat, process: nat, m: Row, env: Env, v: nat, u: nat)
    requires Orderly(s) && s.l.row.status in RETRYABLE
    requires w !in s.workers && v !in s.workers && u !in s.workers && w != v && w != u && u != v
    ensures Keeps(Next(s, Try(w, process, m, env), false)) <==> !Splits(m, env)
  {
    hide RetryCalls, Keeps, Orderly, Run, Harmless, Listed, Splits, RetryResult;
    var claimed := Next(s, Try(w, process, m, env), false);
    if !Splits(m, env) {
      OrderlyStep(s, Try(w, process, m, env));
      OrderlyKeeps(claimed);
    } else {
      RetrySplits(m, env);
      var later := Quiet(env, env.now);
      var moves := SharedAfterDefer(claimed, w, |claimed.workers[w].todo| - 2, v, u, process + 1, process + 2, later);
      SharedIsNotKept(claimed, moves, v, u);
    }
  }

  /** A reachable run in which schedulers of two processes, each listing the message when it is due, share it. */
  lemma TwoOwners() returns (env: Env, moves: seq<Move>)
    ensures var s := Begin(None, true, env);
            var end := Run(s, moves, false);
            Listed(s, moves, false) && NoRestarts(moves) && OwnsIn(end, 1, 1) && OwnsIn(end, 2, 2)
  {
    hide DispatchCalls, Run, Listed, Lifecycle.Absent, Pass, Harmless;
    env := Lifecycle.Absent(true, 0);
    Lifecycle.AbsentPass(true, 0, 0);
    DispatchSplits(env);
    var s := Begin(None, true, env);
    moves := SharedAfterDefer(s, 0, |s.workers[0].todo| - 2, 1, 2, 1, 2, Quiet(env, 1));
  }

  // ----- the single step -----

  /** A status write by a worker that has written before, made while another one owns the message. */
  predicate Overwrites(s: State, move: Move) {
    && move.Advance? && move.w in s.workers && s.workers[move.w].wrote
    && s.workers[move.w].todo != [] && IsWrite(s.workers[move.w].todo[0])
    && exists v :: v in s.workers && !s.workers[v].wrote
  }

  /** Where exclusion is lost: at the second write itself, or at a restart that orphans an owner. */
  lemma OnlyOverwritesBreak(s: State, move: Move)
    requires Exclusive(s) && PlainWork(s)
    ensures PlainWork(Next(s, move, false))
    ensures Exclusive(Next(s, move, false)) <==> !Overwrites(s, move) && !Orphans(s, move)
  {
    hide RetryCalls, Apply;
    match move {
      case Try(w, process, m, env) =>
        FinalisersArePlain(m, env);
        ClaimTakes(s, w, process, m, env, false);
      case Advance(w) =>
        if w in s.workers && s.workers[w].todo != [] {
          AdvanceOne(s, w);
        }
      case AlertFrom(m, source, now) =>
        AlertFinds(s, m, source, now, false);
      case RestartOf(process, now) =>
        OnlyOrphansBreak(s, process, now, false);
    }
  }

  lemma AdvanceOne(s: State, w: nat)
    requires Exclusive(s) && PlainWork(s) && w in s.workers && s.workers[w].todo != []
    ensures PlainWork(Next(s, Advance(w), false))
    ensures Exclusive(Next(s, Advance(w), false)) <==> !Overwrites(s, Advance(w))
  {
    hide Apply, ApplyAll, Plain, IsWrite;
    var todo, after := s.workers[w].todo, Next(s, Advance(w), false);
    CallNext(s, w);
    NonWriteKeepsStatus(s.l, todo[0]);
    forall v ensures Owns(after, v) <==> Owns(s, v) && !(v == w && IsWrite(todo[0])) { }
    assert s.workers[w].wrote <==> !Owns(s, w);
    if Overwrites(s, Advance(w)) {
      var v :| v in s.workers && !s.workers[v].wrote;
      assert Owns(after, v);
    }
  }
}
