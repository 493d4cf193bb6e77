/** The whole store: whatever is called, every message in it stays in order. */
module Service {
  import opened Wrappers
  import opened MessageStore
  import opened Routing
  import Forwarder
  import Lifecycle

  /** Reports and status writes add up, and a wait for an event alone aims at SGd. */
  ghost predicate InOrder(l: Ledger) {
    (exists k :: Lifecycle.Accounted(l, k)) && Lifecycle.WaitsAtSgd(l.row)
  }

  ghost predicate AllInOrder(table: Table) { forall id :: id in table ==> InOrder(table[id]) }

  lemma BeginsInOrder(b: Lifecycle.Start)
    ensures InOrder(Lifecycle.Begin(b))
  {
    hide Lifecycle.Accounted, Lifecycle.WaitsAtSgd, Lifecycle.Begin;
    Lifecycle.BeginAccounts(b);
    Lifecycle.WaitingMeansSgd(b, []);
    assert Lifecycle.Run(Lifecycle.Begin(b), []) == Lifecycle.Begin(b);
  }

  lemma StaysInOrder(l: Ledger, s: Lifecycle.Step)
    requires InOrder(l)
    ensures InOrder(Lifecycle.Do(l, s))
  {
    hide Lifecycle.Accounted, Lifecycle.WaitsAtSgd, Lifecycle.Do, Lifecycle.Revives;
    var k :| Lifecycle.Accounted(l, k);
    Lifecycle.StepAccounts(l, s, k);
    Lifecycle.StepKeepsWaiting(l, s);
  }

  /** A message that is in order and delivered or failed has exactly one report that says so, and it is the last. */
  lemma InOrderIsReported(l: Ledger)
    requires InOrder(l) && (l.row.status == Delivered || l.row.status == Failed)
    ensures |l.reports| > 0 && l.reports[|l.reports| - 1] == l.row.status
    ensures forall i :: 0 <= i < |l.reports| - 1 ==> l.reports[i] == Failed
  {
  }

  method Dispatch(st: Store, id: Id, validity: Option<int>, receiptWanted: bool, env: Env)
    requires id !in st.table && AllInOrder(st.table)
    modifies st
    ensures AllInOrder(st.table) && st.table.Keys == old(st.table).Keys + {id}
  {
    hide Forwarder.FirstDispatch, InOrder;
    var b := Lifecycle.Start(validity, receiptWanted, env, false);
    BeginsInOrder(b);
    Forwarder.Dispatch(st, id, validity, receiptWanted, env);
  }

  /** The retry scheduler's tick, even one in which the process ends. */
  method Tick(st: Store, now: int, envs: Id -> Env) returns (alive: bool)
    requires AllInOrder(st.table)
    modifies st
    ensures AllInOrder(st.table) && st.table.Keys == old(st.table).Keys
  {
    hide InOrder, Forwarder.Retried;
    ghost var start := st.table;
    var list;
    alive, list := Forwarder.Tick(st, now, envs);
    forall id | id in st.table ensures InOrder(st.table[id]) {
      StaysInOrder(start[id], Lifecycle.Retry(start[id].row, envs(id)));
    }
  }

  method Sweep(st: Store, now: int)
    requires AllInOrder(st.table)
    modifies st
    ensures AllInOrder(st.table) && st.table.Keys == old(st.table).Keys
    ensures forall id :: id in st.table && Terminal(old(st.table)[id].row.status) ==>
              st.table[id] == old(st.table)[id]
  {
    hide InOrder, ApplyAll;
    ghost var start := st.table;
    var list := Forwarder.Sweep(st, now);
    forall id | id in st.table ensures InOrder(st.table[id]) {
      StaysInOrder(start[id], Lifecycle.Sweep(now));
      if id in list {
        assert Overdue(start[id].row, now);
      }
    }
  }

  method Alert(st: Store, source: Forwarder.Source, correlated: Option<set<Id>>, subscriber: Option<set<Id>>, now: int)
    returns (r: Result<(nat, nat), ()>)
    requires AllInOrder(st.table)
    modifies st
    ensures AllInOrder(st.table) && st.table.Keys == old(st.table).Keys
  {
    hide InOrder, Apply, Forwarder.Addressed, Forwarder.AwaitingFields;
    ghost var start := st.table;
    var list;
    r, list := Forwarder.TriggerAlertRetry(st, source, correlated, subscriber, now);
    forall id | id in st.table ensures InOrder(st.table[id]) {
      StaysInOrder(start[id], Lifecycle.Alert(start[id].row, source, now));
      if id in list {
        Forwarder.AwaitingIsFields(start[id].row, source);
      }
    }
  }

  method Restart(st: Store, now: int)
    requires AllInOrder(st.table)
    modifies st
    ensures AllInOrder(st.table) && st.table.Keys == old(st.table).Keys
    ensures forall id :: id in st.table ==> st.table[id].row.status != Dispatched
  {
    hide InOrder;
    ghost var start := st.table;
    st.Recover(now);
    forall id | id in st.table ensures InOrder(st.table[id]) {
      StaysInOrder(start[id], Lifecycle.Restart(now));
    }
  }
}
