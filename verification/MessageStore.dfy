/** The messages table: one row per message, changed only by the store's calls. */
module MessageStore {
  import opened Wrappers

  datatype Status = Queued | Dispatched | WaitTimer | WaitEvent | WaitTimerEvent | Delivered | Failed | Expired

  datatype Interface = NoInterface | Sip3gpp | SipSimple | Smpp | Sgd

  datatype Reason = NoReason | RouteLookup | SgdLookup | SgdDelivery | SgdAlertRetry

  datatype Row = Row(
    status: Status, retryCount: nat, nextRetryAt: Option<int>, routeCursor: int,
    reason: Reason, deferredInterface: Interface, servingNode: string,
    egress: Interface, egressPeer: string,
    receiptWanted: bool, submittedAt: int, deliveredAt: Option<int>, expiryAt: Option<int>)

  /** A row with the terminal reports made for it, and every status written to it so far, oldest first. */
  datatype Ledger = Ledger(row: Row, reports: seq<Status>, writes: seq<Status>)

  datatype Call =
    | SetRouting(egress: Interface, peer: string)
    | SetDeferred(reason: Reason, deferredInterface: Interface, servingNode: string, cursor: int)
    | SetStatus(status: Status, at: int)
    | SetRetry(count: nat, next: int, cursor: int)
    | CapExpiry(limit: int)
    | Claim(allowed: set<Status>)
    | Requeue(next: int, cursor: int, reason: Reason, allowed: set<Status>)
    | Report(outcome: Status)

  const RETRYABLE := {Queued, WaitTimer, WaitTimerEvent}
  const PENDING := {Queued, WaitTimer, WaitEvent, WaitTimerEvent}

  predicate Terminal(s: Status) { s == Delivered || s == Failed || s == Expired }

  function Write(l: Ledger, row: Row): Ledger { l.(row := row, writes := l.writes + [row.status]) }

  function Least(a: Option<int>, b: int): Option<int> { if a.None? || a.value > b then Some(b) else a }

  /** The effect of one call on the message it names; the two guarded calls change nothing when the guard fails. */
  function Apply(l: Ledger, c: Call): Ledger {
    match c
    case SetRouting(egress, peer) => l.(row := l.row.(egress := egress, egressPeer := peer))
    case SetDeferred(reason, deferred, node, cursor) =>
      l.(row := l.row.(reason := reason, deferredInterface := deferred, servingNode := node, routeCursor := cursor))
    case SetStatus(s, at) =>
      Write(l, if s == Delivered then l.row.(status := s, deliveredAt := Some(at)) else l.row.(status := s))
    case SetRetry(count, next, cursor) =>
      Write(l, l.row.(status := WaitTimer, retryCount := count, nextRetryAt := Some(next), routeCursor := cursor))
    case CapExpiry(limit) => l.(row := l.row.(expiryAt := Least(l.row.expiryAt, limit)))
    case Claim(allowed) => if l.row.status in allowed then Write(l, l.row.(status := Dispatched)) else l
    case Requeue(next, cursor, reason, allowed) =>
      if l.row.status in allowed then
        Write(l, l.row.(status := WaitTimer, nextRetryAt := Some(next), routeCursor := cursor,
                        reason := if reason != NoReason then reason else l.row.reason))
      else l
    case Report(outcome) => l.(reports := l.reports + [outcome])
  }

  function ApplyAll(l: Ledger, calls: seq<Call>): Ledger
    decreases |calls|
  {
    if calls == [] then l else ApplyAll(Apply(l, calls[0]), calls[1..])
  }

  lemma {:induction false} ApplyAllAppend(l: Ledger, a: seq<Call>, b: seq<Call>)
    ensures ApplyAll(l, a + b) == ApplyAll(ApplyAll(l, a), b)
    decreases |a|
  {
    hide Apply;
    if a == [] {
      assert a + b == b;
    } else {
      assert (a + b)[1..] == a[1..] + b;
      ApplyAllAppend(Apply(l, a[0]), a[1..], b);
    }
  }

  // ----- the list predicates -----

  predicate Due(row: Row, now: int) {
    row.status in RETRYABLE && (row.nextRetryAt.None? || row.nextRetryAt.value <= now)
  }

  predicate Overdue(row: Row, now: int) {
    row.status in PENDING && row.expiryAt.Some? && row.expiryAt.value <= now
  }

  /** The rows an alert is about; the subscriber's identity is not part of a row here. */
  predicate Awaiting(row: Row, filter: Interface) {
    row.status in PENDING && (filter != NoInterface ==> row.deferredInterface == filter)
  }

  /** The order of next retry times, with absent ones first. */
  predicate NoLater(a: Option<int>, b: Option<int>) { a.None? || (b.Some? && a.value <= b.value) }

  const LIST_LIMIT := 100

  type Id = nat
  type Table = map<Id, Ledger>

  function Written(table: Table, id: Id, c: Call): Table {
    if id in table then table[id := Apply(table[id], c)] else table
  }

  function WrittenAll(table: Table, id: Id, calls: seq<Call>): Table {
    if id in table then table[id := ApplyAll(table[id], calls)] else table
  }

  lemma WrittenAfter(table: Table, id: Id, calls: seq<Call>, c: Call)
    ensures Written(WrittenAll(table, id, calls), id, c) == WrittenAll(table, id, calls + [c])
    ensures WrittenAll(table, id, []) == table
    ensures WrittenAll(table, id, [c]) == Written(table, id, c)
  {
    hide Apply;
    if id in table {
      ApplyAllAppend(table[id], calls, [c]);
      ApplyOne(table[id], c);
      ApplyOne(ApplyAll(table[id], calls), c);
      assert table[id := table[id]] == table;
    }
  }

  function DueIds(table: Table, now: int): set<Id> { set id | id in table && Due(table[id].row, now) }

  function OverdueIds(table: Table, now: int): set<Id> { set id | id in table && Overdue(table[id].row, now) }

  function AwaitingIds(table: Table, subscriber: set<Id>, filter: Interface): set<Id> {
    set id | id in subscriber && id in table && Awaiting(table[id].row, filter)
  }

  lemma ApplyOne(l: Ledger, c: Call)
    ensures ApplyAll(l, [c]) == Apply(l, c)
  {
    assert [c][1..] == [];
  }

  lemma ApplyTwo(l: Ledger, a: Call, b: Call)
    ensures ApplyAll(l, [a, b]) == Apply(Apply(l, a), b)
  {
    hide Apply;
    ApplyOne(Apply(l, a), b);
    assert [a, b][1..] == [b];
  }

  lemma ApplyThree(l: Ledger, a: Call, b: Call, c: Call)
    ensures ApplyAll(l, [a, b, c]) == Apply(Apply(Apply(l, a), b), c)
  {
    hide Apply;
    ApplyTwo(Apply(l, a), b, c);
    assert [a, b, c][1..] == [b, c];
  }

  /** A list query's answer: distinct members of the wanted set, and all of them unless the limit cut it off. */
  ghost predicate Answers(list: seq<Id>, wanted: set<Id>, limit: nat) {
    && (forall i :: 0 <= i < |list| ==> list[i] in wanted)
    && (forall i, j :: 0 <= i < j < |list| ==> list[i] != list[j])
    && |list| <= limit
    && (|list| < limit ==> forall id :: id in wanted ==> id in list)
  }

  /** Removes members in no particular order, up to a limit. */
  method Limited(wanted: set<Id>, limit: nat) returns (list: seq<Id>)
    ensures Answers(list, wanted, limit)
  {
    list := [];
    var todo := wanted;
    while todo != {} && |list| < limit
      invariant todo <= wanted && |list| <= limit
      invariant forall id :: id in wanted <==> id in todo || id in list
      invariant forall i :: 0 <= i < |list| ==> list[i] !in todo
      invariant forall i, j :: 0 <= i < j < |list| ==> list[i] != list[j]
      decreases todo
    {
      var id :| id in todo;
      list := list + [id];
      todo := todo - {id};
    }
  }

  class Store {
    var table: Table

    constructor ()
      ensures table == map[]
    {
      table := map[];
    }

    /** SaveMessage: a new row; the history of the message begins with its first status. */
    method SaveMessage(id: Id, row: Row)
      requires id !in table
      modifies this
      ensures table == old(table)[id := Ledger(row, [], [row.status])]
    {
      table := table[id := Ledger(row, [], [row.status])];
    }

    method UpdateMessageRouting(id: Id, egress: Interface, peer: string)
      modifies this
      ensures table == Written(old(table), id, SetRouting(egress, peer))
      ensures id in table ==>
                table[id] == old(table)[id].(row := old(table)[id].row.(egress := egress, egressPeer := peer))
    {
      if id in table {
        var l := table[id];
        table := table[id := l.(row := l.row.(egress := egress, egressPeer := peer))];
      }
    }

    method UpdateMessageDeferred(id: Id, reason: Reason, deferred: Interface, node: string, cursor: int)
      modifies this
      ensures table == Written(old(table), id, SetDeferred(reason, deferred, node, cursor))
      ensures id in table ==>
                table[id] == old(table)[id].(row := old(table)[id].row.(
                               reason := reason, deferredInterface := deferred, servingNode := node,
                               routeCursor := cursor))
    {
      if id in table {
        var l := table[id];
        var row := l.row.(reason := reason, deferredInterface := deferred, servingNode := node, routeCursor := cursor);
        table := table[id := l.(row := row)];
      }
    }

    method UpdateMessageStatus(id: Id, status: Status, now: int)
      modifies this
      ensures table == Written(old(table), id, SetStatus(status, now))
      ensures id in table ==>
                var was := old(table)[id];
                && table[id].writes == was.writes + [status] && table[id].reports == was.reports
                && table[id].row == was.row.(
                     status := status, deliveredAt := if status == Delivered then Some(now) else was.row.deliveredAt)
    {
      if id in table {
        var l := table[id];
        if status == Delivered {
          table := table[id := Write(l, l.row.(status := status, deliveredAt := Some(now)))];
        } else {
          table := table[id := Write(l, l.row.(status := status))];
        }
      }
    }

    method ClaimMessageForDispatch(id: Id, allowed: set<Status>) returns (claimed: bool)
      modifies this
      ensures claimed <==> id in old(table) && old(table)[id].row.status in allowed
      ensures table == Written(old(table), id, Claim(allowed))
      ensures if claimed then
                && id in table && table[id].row == old(table)[id].row.(status := Dispatched)
                && table[id].writes == old(table)[id].writes + [Dispatched]
                && table[id].reports == old(table)[id].reports
              else table == old(table)
    {
      claimed := false;
      if id in table && table[id].row.status in allowed {
        table := table[id := Write(table[id], table[id].row.(status := Dispatched))];
        claimed := true;
      }
    }

    method UpdateMessageRetry(id: Id, count: nat, next: int, cursor: int)
      modifies this
      ensures table == Written(old(table), id, SetRetry(count, next, cursor))
      ensures id in table ==>
                var was := old(table)[id];
                && table[id].writes == was.writes + [WaitTimer] && table[id].reports == was.reports
                && table[id].row == was.row.(
                     status := WaitTimer, retryCount := count, nextRetryAt := Some(next), routeCursor := cursor)
    {
      if id in table {
        var l := table[id];
        var row := l.row.(status := WaitTimer, retryCount := count, nextRetryAt := Some(next), routeCursor := cursor);
        table := table[id := Write(l, row)];
      }
    }

    method UpdateMessageExpiryCap(id: Id, limit: int)
      modifies this
      ensures table == Written(old(table), id, CapExpiry(limit))
      ensures id in table ==>
                var was := old(table)[id];
                var e := was.row.expiryAt;
                table[id] == was.(row := was.row.(expiryAt := if e.Some? && e.value <= limit then e else Some(limit)))
    {
      if id in table {
        var l := table[id];
        if l.row.expiryAt.None? || l.row.expiryAt.value > limit {
          table := table[id := l.(row := l.row.(expiryAt := Some(limit)))];
        }
      }
    }

    method RequeueMessageForAlert(id: Id, next: int, cursor: int, reason: Reason, allowed: set<Status>)
      returns (requeued: bool)
      modifies this
      ensures requeued <==> id in old(table) && old(table)[id].row.status in allowed
      ensures table == Written(old(table), id, Requeue(next, cursor, reason, allowed))
      ensures if requeued then
                var was := old(table)[id];
                && table[id].writes == was.writes + [WaitTimer] && table[id].reports == was.reports
                && table[id].row == was.row.(
                     status := WaitTimer, nextRetryAt := Some(next), routeCursor := cursor,
                     reason := if reason == NoReason then was.row.reason else reason)
              else table == old(table)
    {
      requeued := false;
      if id in table && table[id].row.status in allowed {
        var l := table[id];
        var row := l.row.(status := WaitTimer, nextRetryAt := Some(next), routeCursor := cursor);
        if reason != NoReason {
          row := row.(reason := reason);
        }
        table := table[id := Write(l, row)];
        requeued := true;
      }
    }

    /** The report that is made to the originator of a message that is still in the table. */
    method SendReport(id: Id, outcome: Status)
      modifies this
      ensures table == Written(old(table), id, Report(outcome))
      ensures id in table ==> table[id] == old(table)[id].(reports := old(table)[id].reports + [outcome])
    {
      if id in table {
        table := table[id := table[id].(reports := table[id].reports + [outcome])];
      }
    }

    /** Crash recovery when the database is opened: whatever was left DISPATCHED is QUEUED again. */
    method Recover(now: int)
      modifies this
      ensures table.Keys == old(table).Keys
      ensures forall id :: id in table ==> table[id] == Recovered(old(table)[id], now)
      ensures forall id :: id in table ==>
                var was := old(table)[id].row;
                table[id].row ==
                  if was.status == Dispatched then was.(status := Queued, nextRetryAt := Some(now)) else was
    {
      table := map id | id in table :: Recovered(table[id], now);
    }

    /** ListRetryableMessages: those that are due, the earliest first, with absent times before all others. */
    method ListRetryableMessages(now: int) returns (list: seq<Id>)
      ensures Answers(list, DueIds(table, now), LIST_LIMIT)
      ensures forall i, j :: 0 <= i < j < |list| ==>
                NoLater(table[list[i]].row.nextRetryAt, table[list[j]].row.nextRetryAt)
      ensures forall i, id :: 0 <= i < |list| && id in DueIds(table, now) && id !in list ==>
                NoLater(table[list[i]].row.nextRetryAt, table[id].row.nextRetryAt)
    {
      list := [];
      var wanted := DueIds(table, now);
      var todo := wanted;
      while todo != {} && |list| < LIST_LIMIT
        invariant todo <= wanted && |list| <= LIST_LIMIT
        invariant forall id :: id in wanted <==> id in todo || id in list
        invariant forall i :: 0 <= i < |list| ==> list[i] !in todo && list[i] in wanted
        invariant forall i, j :: 0 <= i < j < |list| ==> list[i] != list[j]
        invariant forall i, j :: 0 <= i < j < |list| ==>
                    NoLater(table[list[i]].row.nextRetryAt, table[list[j]].row.nextRetryAt)
        invariant forall i, id :: 0 <= i < |list| && id in todo ==>
                    NoLater(table[list[i]].row.nextRetryAt, table[id].row.nextRetryAt)
        decreases todo
      {
        var first := Earliest(todo);
        list := list + [first];
        todo := todo - {first};
      }
    }

    method Earliest(todo: set<Id>) returns (first: Id)
      requires todo != {} && todo <= table.Keys
      ensures first in todo
      ensures forall id :: id in todo ==> NoLater(table[first].row.nextRetryAt, table[id].row.nextRetryAt)
    {
      first :| first in todo;
      var rest := todo - {first};
      while rest != {}
        invariant rest <= todo && first in todo
        invariant forall id :: id in todo && id !in rest ==>
                    NoLater(table[first].row.nextRetryAt, table[id].row.nextRetryAt)
        decreases rest
      {
        var id :| id in rest;
        if !NoLater(table[first].row.nextRetryAt, table[id].row.nextRetryAt) {
          first := id;
        }
        rest := rest - {id};
      }
    }

    method ListExpiredMessages(now: int) returns (list: seq<Id>)
      ensures Answers(list, OverdueIds(table, now), LIST_LIMIT)
    {
      list := Limited(OverdueIds(table, now), LIST_LIMIT);
    }

    /** ListFilteredMessages as an alert uses it, for the messages of one subscriber. */
    method ListAwaitingMessages(subscriber: set<Id>, filter: Interface) returns (list: seq<Id>)
      ensures Answers(list, AwaitingIds(table, subscriber, filter), 1000)
    {
      list := Limited(AwaitingIds(table, subscriber, filter), 1000);
    }
  }

  function Recovered(l: Ledger, now: int): Ledger {
    if l.row.status == Dispatched then Write(l, l.row.(status := Queued, nextRetryAt := Some(now))) else l
  }

  // ----- expiry -----

  function CapOf(c: Call): seq<int> { if c.CapExpiry? then [c.limit] else [] }

  /** The limits that a list of calls imposes, in order. */
  function Caps(calls: seq<Call>): seq<int> {
    if calls == [] then [] else CapOf(calls[0]) + Caps(calls[1..])
  }

  /** `e` is the least of an initial expiry and a list of limits. */
  ghost predicate IsLeast(e: Option<int>, initial: Option<int>, caps: seq<int>) {
    && (e.None? <==> initial.None? && caps == [])
    && (e.Some? ==>
          && (e == initial || e.value in caps)
          && (initial.Some? ==> e.value <= initial.value)
          && (forall i :: 0 <= i < |caps| ==> e.value <= caps[i]))
  }

  /** Whatever else a list of calls does, it leaves the least of the expiry it found and the caps it applied. */
  lemma {:induction false} ExpiryIsLeast(l: Ledger, calls: seq<Call>)
    ensures IsLeast(ApplyAll(l, calls).row.expiryAt, l.row.expiryAt, Caps(calls))
    decreases |calls|
  {
    hide Apply;
    if calls == [] {
    } else {
      var next := Apply(l, calls[0]);
      ApplyExpiry(l, calls[0]);
      ExpiryIsLeast(next, calls[1..]);
      var head := CapOf(calls[0]);
      assert Caps(calls) == head + Caps(calls[1..]);
      assert forall i :: 0 <= i < |Caps(calls[1..])| ==> Caps(calls)[|head| + i] == Caps(calls[1..])[i];
    }
  }

  lemma ApplyExpiry(l: Ledger, c: Call)
    ensures Apply(l, c).row.expiryAt == if c.CapExpiry? then Least(l.row.expiryAt, c.limit) else l.row.expiryAt
  {
  }
}
