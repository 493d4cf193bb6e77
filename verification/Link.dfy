/**
  * Matching responses to requests on one SMPP link: any number of callers of SendAndWait
  * and of readers in DispatchPending, each critical section or channel operation a step.
  */
module Link {
  import opened Wrappers
  import opened Bytes
  import opened SmppWire

  const NUMBERS := 0x1_0000_0000

  datatype Phase = Numbered | Waiting | Leaving(result: Option<Pdu>) | Done(result: Option<Pdu>)

  /** A call of SendAndWait; `draw` counts the numbers drawn before its own, without wrapping. */
  datatype Call = Call(draw: nat, phase: Phase)

  function NumberOf(c: Call): u32 { c.draw % NUMBERS }

  /** What a reader took out of the map and has still to send to a call's channel. */
  datatype Errand = Errand(call: nat, pdu: Pdu)

  datatype State = State(
    drawn: nat,
    calls: map<nat, Call>,
    pending: map<u32, nat>,
    channels: map<nat, seq<Pdu>>,
    errands: map<nat, Errand>)

  /**
    * Draw is any other use of the counter; GiveUp is a timeout or a failed write. A step
    * that is not enabled changes nothing.
    */
  datatype Step =
    | Draw
    | Number(c: nat)
    | Register(c: nat)
    | Receive(c: nat)
    | GiveUp(c: nat)
    | Leave(c: nat)
    | Take(d: nat, pdu: Pdu)
    | Put(d: nat)

  const EMPTY := State(0, map[], map[], map[], map[])

  predicate In(s: State, c: nat, phase: Phase) { c in s.calls && s.calls[c].phase == phase }

  predicate IsLeaving(s: State, c: nat) { c in s.calls && s.calls[c].phase.Leaving? }

  function Channel(s: State, c: nat): seq<Pdu> { if c in s.channels then s.channels[c] else [] }

  predicate Enabled(s: State, step: Step) {
    match step
    case Draw => true
    case Number(c) => c !in s.calls
    case Register(c) => In(s, c, Numbered)
    case Receive(c) => In(s, c, Waiting) && Channel(s, c) != []
    case GiveUp(c) => In(s, c, Waiting)
    case Leave(c) => IsLeaving(s, c)
    case Take(d, pdu) => d !in s.errands
    case Put(d) => d in s.errands && |Channel(s, s.errands[d].call)| < 1
  }

  function Move(s: State, c: nat, phase: Phase): map<nat, Call>
    requires c in s.calls
  {
    s.calls[c := s.calls[c].(phase := phase)]
  }

  function Next(s: State, step: Step): State {
    if !Enabled(s, step) then s
    else
      match step
      case Draw => s.(drawn := s.drawn + 1)
      case Number(c) => s.(drawn := s.drawn + 1, calls := s.calls[c := Call(s.drawn + 1, Numbered)])
      case Register(c) =>
        s.(calls := Move(s, c, Waiting), pending := s.pending[NumberOf(s.calls[c]) := c],
           channels := s.channels[c := []])
      case Receive(c) =>
        s.(calls := Move(s, c, Leaving(Some(s.channels[c][0]))), channels := s.channels[c := s.channels[c][1..]])
      case GiveUp(c) => s.(calls := Move(s, c, Leaving(None)))
      case Leave(c) =>
        s.(calls := Move(s, c, Done(s.calls[c].phase.result)), pending := s.pending - {NumberOf(s.calls[c])})
      case Take(d, pdu) =>
        if pdu.sequence in s.pending then
          s.(pending := s.pending - {pdu.sequence}, errands := s.errands[d := Errand(s.pending[pdu.sequence], pdu)])
        else s
      case Put(d) =>
        var e := s.errands[d];
        s.(channels := s.channels[e.call := Channel(s, e.call) + [e.pdu]], errands := s.errands - {d})
  }

  function Run(s: State, steps: seq<Step>): State
    decreases |steps|
  {
    if steps == [] then s else Run(Next(s, steps[0]), steps[1..])
  }

  // ----- safety -----

  predicate HasEntry(s: State, c: nat) {
    c in s.calls && NumberOf(s.calls[c]) in s.pending && s.pending[NumberOf(s.calls[c])] == c
  }

  ghost predicate Carried(s: State, c: nat) { exists d :: d in s.errands && s.errands[d].call == c }

  predicate Answered(s: State, c: nat) {
    c in s.calls && (s.calls[c].phase.Leaving? || s.calls[c].phase.Done?) && s.calls[c].phase.result.Some?
  }

  /** Every entry is that of a call which registered it and has not returned. */
  ghost predicate EntriesLive(s: State) {
    forall n :: n in s.pending ==>
      var c := s.pending[n];
      c in s.calls && NumberOf(s.calls[c]) == n && (s.calls[c].phase == Waiting || s.calls[c].phase.Leaving?)
  }

  /** A call has at most one of: an entry, a reader on its way, a response in its channel, a response. */
  ghost predicate OneResponse(s: State) {
    && (forall c :: HasEntry(s, c) ==> Channel(s, c) == [] && !Answered(s, c) && !Carried(s, c))
    && (forall d :: d in s.errands ==> Channel(s, s.errands[d].call) == [] && !Answered(s, s.errands[d].call))
    && (forall d, e :: d in s.errands && e in s.errands && s.errands[d].call == s.errands[e].call ==> d == e)
    && (forall c :: |Channel(s, c)| <= 1 && (Channel(s, c) != [] ==> !Answered(s, c)))
  }

  /** Whatever is on its way to a call, or reached it, carries the number that the call drew. */
  ghost predicate NumbersMatch(s: State) {
    && (forall d :: d in s.errands ==> MatchesCall(s, s.errands[d].call, s.errands[d].pdu))
    && (forall c, i :: c in s.channels && 0 <= i < |s.channels[c]| ==> MatchesCall(s, c, s.channels[c][i]))
    && (forall c :: Answered(s, c) ==> MatchesCall(s, c, s.calls[c].phase.result.value))
  }

  predicate MatchesCall(s: State, c: nat, pdu: Pdu) { c in s.calls && pdu.sequence == NumberOf(s.calls[c]) }

  /** A call that has not registered has nothing yet. */
  ghost predicate NothingBefore(s: State) {
    && (forall c :: In(s, c, Numbered) ==> !HasEntry(s, c) && Channel(s, c) == [] && !Carried(s, c))
    && (forall c :: c in s.channels ==> c in s.calls)
    && (forall d :: d in s.errands ==> s.errands[d].call in s.channels)
    && (forall c :: c in s.calls && s.calls[c].phase != Numbered ==> c in s.channels)
  }

  ghost predicate Safe(s: State) { EntriesLive(s) && OneResponse(s) && NumbersMatch(s) && NothingBefore(s) }

  lemma EmptyIsSafe()
    ensures Safe(EMPTY)
  {
  }

  lemma StepKeepsEntries(s: State, step: Step)
    requires Safe(s)
    ensures EntriesLive(Next(s, step))
  {
    hide OneResponse, NumbersMatch;
  }

  lemma StepKeepsNumbers(s: State, step: Step)
    requires Safe(s)
    ensures NumbersMatch(Next(s, step))
  {
    hide OneResponse;
    if Enabled(s, step) {
      var a := Next(s, step);
      forall c, pdu ensures MatchesCall(s, c, pdu) ==> MatchesCall(a, c, pdu) { }
      forall c | Answered(a, c) ensures MatchesCall(a, c, a.calls[c].phase.result.value) {
        assert Answered(s, c) || (step == Receive(c) && s.channels[c][0] in s.channels[c]);
      }
    }
  }

  /** How each step moves what a call has. */
  lemma Effects(s: State, step: Step, x: nat)
    requires Safe(s) && Enabled(s, step)
    ensures var a := Next(s, step);
            && (HasEntry(a, x) <==>
                  match step
                  case Register(c) => x == c || (HasEntry(s, x) && NumberOf(s.calls[x]) != NumberOf(s.calls[c]))
                  case Leave(c) => HasEntry(s, x) && NumberOf(s.calls[x]) != NumberOf(s.calls[c])
                  case Take(d, pdu) => HasEntry(s, x) && NumberOf(s.calls[x]) != pdu.sequence
                  case _ => HasEntry(s, x))
            && Channel(a, x) == (match step
                                 case Receive(c) => if x == c then [] else Channel(s, x)
                                 case Put(d) => if x == s.errands[d].call then [s.errands[d].pdu] else Channel(s, x)
                                 case _ => Channel(s, x))
            && (Answered(a, x) <==> Answered(s, x) || step == Receive(x))
  {
    hide NumbersMatch;
    assert |Channel(s, x)| <= 1;
  }

  lemma CarriedAfter(s: State, step: Step, x: nat)
    requires Safe(s) && Enabled(s, step)
    ensures Carried(Next(s, step), x) <==>
              match step
              case Take(d, pdu) => Carried(s, x) || (HasEntry(s, x) && NumberOf(s.calls[x]) == pdu.sequence)
              case Put(d) => Carried(s, x) && x != s.errands[d].call
              case _ => Carried(s, x)
  {
    hide NumbersMatch;
    var a := Next(s, step);
    match step {
      case Take(d, pdu) =>
        if pdu.sequence in s.pending {
          assert a.errands[d].call == s.pending[pdu.sequence];
          forall e | e in s.errands ensures e in a.errands && a.errands[e] == s.errands[e] { }
        }
      case Put(d) =>
        if Carried(s, x) && x != s.errands[d].call {
          var e :| e in s.errands && s.errands[e].call == x;
          assert e in a.errands && a.errands[e].call == x;
        }
      case _ =>
        assert a.errands == s.errands;
    }
  }

  lemma StepKeepsNothing(s: State, step: Step)
    requires Safe(s)
    ensures NothingBefore(Next(s, step))
  {
    hide NumbersMatch;
    if Enabled(s, step) {
      var a := Next(s, step);
      forall x | In(a, x, Numbered) ensures !HasEntry(a, x) && Channel(a, x) == [] && !Carried(a, x) {
        Effects(s, step, x);
        CarriedAfter(s, step, x);
      }
    }
  }

  lemma StepKeepsOne(s: State, step: Step)
    requires Safe(s)
    ensures OneResponse(Next(s, step))
  {
    hide NumbersMatch;
    if Enabled(s, step) {
      var a := Next(s, step);
      forall x ensures HasEntry(a, x) ==> Channel(a, x) == [] && !Answered(a, x) && !Carried(a, x) {
        Effects(s, step, x);
        CarriedAfter(s, step, x);
      }
      forall x ensures Carried(a, x) ==> Channel(a, x) == [] && !Answered(a, x) {
        Effects(s, step, x);
        CarriedAfter(s, step, x);
      }
      forall x ensures |Channel(a, x)| <= 1 && (Channel(a, x) != [] ==> !Answered(a, x)) {
        Effects(s, step, x);
      }
      ErrandsDistinct(s, step);
    }
  }

  lemma ErrandsDistinct(s: State, step: Step)
    requires Safe(s)
    ensures var a := Next(s, step);
            forall d, e :: d in a.errands && e in a.errands && a.errands[d].call == a.errands[e].call ==> d == e
  {
    hide NumbersMatch, NothingBefore;
  }

  lemma StepIsSafe(s: State, step: Step)
    requires Safe(s)
    ensures Safe(Next(s, step))
  {
    hide Next, EntriesLive, OneResponse, NumbersMatch, NothingBefore;
    StepKeepsEntries(s, step);
    StepKeepsNumbers(s, step);
    StepKeepsNothing(s, step);
    StepKeepsOne(s, step);
  }

  lemma {:induction false} RunIsSafe(s: State, steps: seq<Step>)
    requires Safe(s)
    ensures Safe(Run(s, steps))
    decreases |steps|
  {
    hide Next, Safe;
    if steps == [] {
    } else {
      StepIsSafe(s, steps[0]);
      RunIsSafe(Next(s, steps[0]), steps[1..]);
    }
  }

  /**
    * Under every interleaving, numbers reused or not: a reader with an errand can always
    * send, a returned response carries the number its call drew, and nothing refers to a
    * call that has returned.
    */
  lemma EveryRunIsSafe(steps: seq<Step>)
    ensures var s := Run(EMPTY, steps);
            && (forall d :: d in s.errands ==> Enabled(s, Put(d)))
            && (forall c :: c in s.calls && s.calls[c].phase.Done? && s.calls[c].phase.result.Some? ==>
                  s.calls[c].phase.result.value.sequence == NumberOf(s.calls[c]))
            && (forall c :: c in s.calls && s.calls[c].phase.Done? ==> c !in s.pending.Values)
  {
    hide Run, Next;
    EmptyIsSafe();
    RunIsSafe(EMPTY, steps);
    var s := Run(EMPTY, steps);
    forall c | c in s.calls && s.calls[c].phase.Done? && s.calls[c].phase.result.Some?
      ensures s.calls[c].phase.result.value.sequence == NumberOf(s.calls[c])
    {
      assert Answered(s, c);
    }
  }

  /**
    * The response to a call that waits with its entry is the one that it returns; if the time
    * is up as well, either may win.
    */
  lemma HowCallsEnd(s: State, c: nat, d: nat, pdu: Pdu)
    requires Safe(s) && In(s, c, Waiting) && HasEntry(s, c) && d !in s.errands
    requires pdu.sequence == NumberOf(s.calls[c])
    ensures In(Run(s, [Take(d, pdu), Put(d), Receive(c), Leave(c)]), c, Done(Some(pdu)))
    ensures In(Run(s, [Take(d, pdu), Put(d), GiveUp(c), Leave(c)]), c, Done(None))
  {
    hide Next;
    RunFour(s, Take(d, pdu), Put(d), Receive(c), Leave(c));
    RunFour(s, Take(d, pdu), Put(d), GiveUp(c), Leave(c));
    var b := Next(Next(s, Take(d, pdu)), Put(d));
    Answer(s, c, d, pdu);
    assert In(Next(Next(b, Receive(c)), Leave(c)), c, Done(Some(pdu)))
        && In(Next(Next(b, GiveUp(c)), Leave(c)), c, Done(None)) by {
      Ends(b, c, pdu);
    }
  }

  lemma RunFour(s: State, p: Step, q: Step, r: Step, t: Step)
    ensures Run(s, [p, q, r, t]) == Next(Next(Next(Next(s, p), q), r), t)
  {
    hide Next, Run;
    RunStep(s, p, [q, r, t]);
    RunStep(Next(s, p), q, [r, t]);
    RunStep(Next(Next(s, p), q), r, [t]);
    RunStep(Next(Next(Next(s, p), q), r), t, []);
    assert [p] + [q, r, t] == [p, q, r, t] && [q] + [r, t] == [q, r, t] && [r] + [t] == [r, t] && [t] + [] == [t];
  }

  lemma RunStep(s: State, step: Step, rest: seq<Step>)
    ensures Run(s, [step] + rest) == Run(Next(s, step), rest) && Run(Next(s, step), []) == Next(s, step)
  {
    assert ([step] + rest)[1..] == rest;
  }

  lemma Answer(s: State, c: nat, d: nat, pdu: Pdu)
    requires Safe(s) && In(s, c, Waiting) && HasEntry(s, c) && d !in s.errands
    requires pdu.sequence == NumberOf(s.calls[c])
    ensures var b := Next(Next(s, Take(d, pdu)), Put(d)); In(b, c, Waiting) && Channel(b, c) == [pdu]
  {
  }

  lemma Ends(b: State, c: nat, pdu: Pdu)
    requires In(b, c, Waiting) && Channel(b, c) == [pdu]
    ensures In(Next(Next(b, Receive(c)), Leave(c)), c, Done(Some(pdu)))
    ensures In(Next(Next(b, GiveUp(c)), Leave(c)), c, Done(None))
  {
  }

  // ----- no response is lost -----

  /** A waiting call still has its entry, a reader on its way, or a response in its channel. */
  ghost predicate Reachable(s: State, c: nat) { HasEntry(s, c) || Carried(s, c) || Channel(s, c) != [] }

  ghost predicate NoneForgotten(s: State) { forall c :: In(s, c, Waiting) ==> Reachable(s, c) }

  /** A call registers, or returns, with the number of another call that is still in the map and waiting. */
  ghost predicate Steals(s: State, step: Step) {
    (step.Register? || step.Leave?) && Enabled(s, step) &&
    exists v :: v != step.c && In(s, v, Waiting) && HasEntry(s, v)
                && NumberOf(s.calls[v]) == NumberOf(s.calls[step.c])
  }

  /** That is the one step which leaves a waiting call forgotten. */
  lemma OnlyReuseForgets(s: State, step: Step)
    requires Safe(s) && NoneForgotten(s)
    ensures NoneForgotten(Next(s, step)) <==> !Steals(s, step)
  {
    hide EntriesLive, NumbersMatch, OneResponse, Next, Carried, HasEntry;
    var a := Next(s, step);
    if Enabled(s, step) {
      if Steals(s, step) {
        var v :| v != step.c && In(s, v, Waiting) && HasEntry(s, v)
                 && NumberOf(s.calls[v]) == NumberOf(s.calls[step.c]);
        Effects(s, step, v);
        CarriedAfter(s, step, v);
        EntryExcludes(s, v);
        PhaseAfter(s, step, v);
        assert !Reachable(a, v);
      } else {
        forall v | In(a, v, Waiting) ensures Reachable(a, v) {
          Effects(s, step, v);
          CarriedAfter(s, step, v);
          PhaseAfter(s, step, v);
        }
      }
    } else {
      assert a == s by { StaysPut(s, step); }
    }
  }

  lemma StaysPut(s: State, step: Step)
    requires !Enabled(s, step)
    ensures Next(s, step) == s
  {
  }

  lemma EntryExcludes(s: State, c: nat)
    requires Safe(s) && HasEntry(s, c)
    ensures Channel(s, c) == [] && !Carried(s, c)
  {
  }

  lemma PhaseAfter(s: State, step: Step, x: nat)
    requires Enabled(s, step)
    ensures In(Next(s, step), x, Waiting) <==>
              match step
              case Register(c) => x == c || In(s, x, Waiting)
              case Receive(c) => x != c && In(s, x, Waiting)
              case GiveUp(c) => x != c && In(s, x, Waiting)
              case _ => In(s, x, Waiting)
  {
  }

  // ----- numbers are not reused in time -----

  /** Calls that have drawn a number and not returned. */
  predicate InProgress(s: State, c: nat) { c in s.calls && !s.calls[c].phase.Done? }

  /** Draws are counted once each. */
  ghost predicate Counted(s: State) {
    && (forall c :: c in s.calls ==> s.calls[c].draw <= s.drawn)
    && (forall c, d :: c in s.calls && d in s.calls && s.calls[c].draw == s.calls[d].draw ==> c == d)
  }

  /** Every call in progress drew one of the last 2^32 numbers. */
  ghost predicate Young(s: State) { forall c :: InProgress(s, c) ==> s.drawn < s.calls[c].draw + NUMBERS }

  lemma YoungNumbersDiffer(s: State, c: nat, d: nat)
    requires Counted(s) && Young(s) && InProgress(s, c) && InProgress(s, d)
    ensures NumberOf(s.calls[c]) == NumberOf(s.calls[d]) <==> c == d
  {
    var a, b := s.calls[c].draw, s.calls[d].draw;
    if a % NUMBERS == b % NUMBERS {
      SameRemainder(a, b);
    }
  }

  lemma SameRemainder(a: nat, b: nat)
    requires a % NUMBERS == b % NUMBERS && a < b + NUMBERS && b < a + NUMBERS
    ensures a == b
  {
  }

  lemma StepCounts(s: State, step: Step)
    requires Counted(s)
    ensures Counted(Next(s, step))
  {
  }

  /** Before every step of a run, calls in progress are young. */
  ghost predicate StaysYoung(s: State, steps: seq<Step>)
    decreases |steps|
  {
    Young(s) && (steps == [] || StaysYoung(Next(s, steps[0]), steps[1..]))
  }

  lemma YoungStealsNothing(s: State, step: Step)
    requires Counted(s) && Young(s)
    ensures !Steals(s, step)
  {
    if Steals(s, step) {
      var v :| v != step.c && In(s, v, Waiting) && HasEntry(s, v) && NumberOf(s.calls[v]) == NumberOf(s.calls[step.c]);
      YoungNumbersDiffer(s, v, step.c);
    }
  }

  lemma {:induction false} YoungRun(s: State, steps: seq<Step>)
    requires Safe(s) && Counted(s) && NoneForgotten(s) && StaysYoung(s, steps)
    ensures NoneForgotten(Run(s, steps))
    decreases |steps|
  {
    hide Next, Safe, Counted, NoneForgotten, Young, Steals;
    if steps == [] {
    } else {
      YoungStealsNothing(s, steps[0]);
      OnlyReuseForgets(s, steps[0]);
      StepIsSafe(s, steps[0]);
      StepCounts(s, steps[0]);
      YoungRun(Next(s, steps[0]), steps[1..]);
    }
  }

  /** No waiting call is forgotten while fewer than 2^32 numbers are drawn during any call. */
  lemma NoResponseIsLost(steps: seq<Step>)
    requires StaysYoung(EMPTY, steps)
    ensures NoneForgotten(Run(EMPTY, steps))
  {
    hide Next, Run, StaysYoung;
    EmptyIsSafe();
    assert Counted(EMPTY) && NoneForgotten(EMPTY);
    YoungRun(EMPTY, steps);
  }

  lemma {:induction false} RunDraws(s: State, n: nat, rest: seq<Step>)
    ensures Run(s, seq(n, _ => Draw) + rest) == Run(s.(drawn := s.drawn + n), rest)
    decreases n
  {
    var steps := seq(n, _ => Draw) + rest;
    if n == 0 {
      assert steps == rest;
    } else {
      assert steps[0] == Draw && steps[1..] == seq(n - 1, _ => Draw) + rest;
      RunDraws(Next(s, Draw), n - 1, rest);
    }
  }

  /** With enough draws in between, a call takes over another's number, and the other waits in vain. */
  lemma ReuseLosesAResponse() returns (steps: seq<Step>)
    ensures var s := Run(EMPTY, steps); In(s, 0, Waiting) && !Reachable(s, 0)
  {
    hide Run, Next;
    var last := [Number(1), Register(1)];
    steps := [Number(0), Register(0)] + (seq(NUMBERS - 1, _ => Draw) + last);
    var s2 := Next(Next(EMPTY, Number(0)), Register(0));
    RunBegins(EMPTY, Number(0), Register(0), seq(NUMBERS - 1, _ => Draw) + last);
    RunDraws(s2, NUMBERS - 1, last);
    var s3 := s2.(drawn := s2.drawn + (NUMBERS - 1));
    RunBegins(s3, Number(1), Register(1), []);
    assert last + [] == last;
    Takeover(s2, s3);
  }

  lemma RunBegins(s: State, a: Step, b: Step, rest: seq<Step>)
    ensures Run(s, [a, b] + rest) == Run(Next(Next(s, a), b), rest)
    ensures Run(s, []) == s
  {
    hide Next;
    var steps := [a, b] + rest;
    assert steps[1..] == [b] + rest && steps[1..][1..] == rest;
    assert Run(Next(s, a), steps[1..]) == Run(Next(Next(s, a), b), steps[1..][1..]);
  }

  lemma Takeover(s2: State, s3: State)
    requires s2 == Next(Next(EMPTY, Number(0)), Register(0)) && s3 == s2.(drawn := s2.drawn + (NUMBERS - 1))
    ensures var s := Run(Next(Next(s3, Number(1)), Register(1)), []); In(s, 0, Waiting) && !Reachable(s, 0)
  {
    var s := Next(Next(s3, Number(1)), Register(1));
    assert s3.calls[0].draw == 1 && s.calls[1].draw == NUMBERS + 1;
    assert NumberOf(s.calls[0]) == NumberOf(s.calls[1]);
  }

  lemma NextRemainder(n: nat)
    ensures (n + 1) % NUMBERS == if n % NUMBERS == NUMBERS - 1 then 0 else n % NUMBERS + 1
  {
  }

  // ----- the link as it runs -----

  /** A link's counter, map and channels; `state` follows them, and adds where each caller and reader is. */
  class PendingMap {
    var counter: u32
    var pending: map<u32, nat>
    var channels: map<nat, seq<Pdu>>
    ghost var state: State

    ghost predicate Valid()
      reads this
    {
      Safe(state) && counter == state.drawn % NUMBERS && pending == state.pending && channels == state.channels
    }

    constructor ()
      ensures Valid() && state == EMPTY
    {
      counter, pending, channels, state := 0, map[], map[], EMPTY;
      EmptyIsSafe();
    }

    /** Takes the step that the fields have just made. */
    ghost method Follow(step: Step)
      requires Safe(state)
      requires var next := Next(state, step);
               counter == next.drawn % NUMBERS && pending == next.pending && channels == next.channels
      modifies this`state
      ensures Valid() && state == Next(old(state), step)
    {
      StepIsSafe(state, step);
      state := Next(state, step);
    }

    /** NextSeq: an atomic 32-bit increment. */
    method NextSeq(ghost user: Option<nat>) returns (n: u32)
      requires Valid() && (user.Some? ==> user.value !in state.calls)
      modifies this
      ensures Valid() && n == state.drawn % NUMBERS
      ensures state == Next(old(state), if user.Some? then Number(user.value) else Draw)
      ensures user.Some? ==> user.value in state.calls && n == NumberOf(state.calls[user.value])
    {
      hide Safe;
      NextRemainder(state.drawn);
      counter := if counter == 0xFFFF_FFFF then 0 else counter + 1;
      Follow(if user.Some? then Number(user.value) else Draw);
      return counter;
    }

    /** SendAndWait's first critical section: a fresh channel with room for one response. */
    method RegisterCall(c: nat, n: u32)
      requires Valid() && In(state, c, Numbered) && n == NumberOf(state.calls[c])
      modifies this
      ensures Valid() && state == Next(old(state), Register(c))
      ensures pending == old(pending)[n := c] && channels == old(channels)[c := []]
    {
      channels := channels[c := []];
      pending := pending[n := c];
      Follow(Register(c));
    }

    /** The select that ends the wait, made when one of its branches is ready; it takes either one if both are. */
    method Await(c: nat, timeout: bool) returns (r: Option<Pdu>)
      requires Valid() && In(state, c, Waiting)
      requires timeout || Channel(state, c) != []
      modifies this
      ensures Valid() && IsLeaving(state, c)
      ensures state == Next(old(state), if r.Some? then Receive(c) else GiveUp(c))
      ensures r.Some? ==> r.value.sequence == NumberOf(state.calls[c])
      ensures r.Some? ==> old(Channel(state, c)) != [] && r.value == old(Channel(state, c))[0]
      ensures !timeout ==> r.Some?
    {
      if {
        case c in channels && channels[c] != [] =>
          r := Some(channels[c][0]);
          channels := channels[c := channels[c][1..]];
          Follow(Receive(c));
          assert Answered(state, c);
        case timeout =>
          r := None;
          Follow(GiveUp(c));
      }
    }

    /** SendAndWait's deferred critical section. */
    method Unregister(c: nat, n: u32)
      requires Valid() && IsLeaving(state, c) && n == NumberOf(state.calls[c])
      modifies this
      ensures Valid() && state == Next(old(state), Leave(c)) && c !in pending.Values
    {
      pending := pending - {n};
      Follow(Leave(c));
    }

    /** DispatchPending's critical section: looks the number up and takes the entry out. */
    method TakePending(ghost d: nat, pdu: Pdu) returns (call: Option<nat>)
      requires Valid() && d !in state.errands
      modifies this
      ensures Valid() && state == Next(old(state), Take(d, pdu))
      ensures call == if pdu.sequence in old(pending) then Some(old(pending)[pdu.sequence]) else None
      ensures call.Some? ==> d in state.errands && state.errands[d] == Errand(call.value, pdu)
      ensures call.None? ==> state == old(state)
      ensures pending == old(pending) - {pdu.sequence} && channels == old(channels)
    {
      call := None;
      if pdu.sequence in pending {
        call := Some(pending[pdu.sequence]);
        pending := pending - {pdu.sequence};
      }
      Follow(Take(d, pdu));
    }

    /** The channel send behind it, which never has to wait. */
    method SendTo(ghost d: nat, call: nat, pdu: Pdu)
      requires Valid() && d in state.errands && state.errands[d] == Errand(call, pdu)
      modifies this
      ensures Valid() && state == Next(old(state), Put(d))
      ensures channels == old(channels)[call := [pdu]] && pending == old(pending)
    {
      assert Enabled(state, Put(d));
      assert channels[call] + [pdu] == [pdu];
      channels := channels[call := channels[call] + [pdu]];
      Follow(Put(d));
    }

    /** DispatchPending, when nothing comes between its two parts. */
    method DispatchPending(ghost d: nat, pdu: Pdu) returns (consumed: bool)
      requires Valid() && d !in state.errands
      modifies this
      ensures Valid() && (consumed <==> pdu.sequence in old(pending))
      ensures state == Next(Next(old(state), Take(d, pdu)), Put(d))
      ensures pending == old(pending) - {pdu.sequence}
      ensures channels == if consumed then old(channels)[old(pending)[pdu.sequence] := [pdu]] else old(channels)
    {
      hide Next, Safe;
      var call := TakePending(d, pdu);
      if call.Some? {
        SendTo(d, call.value, pdu);
      } else {
        StaysPut(state, Put(d));
      }
      return call.Some?;
    }
  }
}
