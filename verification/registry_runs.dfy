/**
 Whole runs of the subscription index: any interleaving of subscriptions, unsubscriptions,
 disconnections, publications and acknowledgements from any sessions.
 */
module RegistryRuns {
  import opened Names
  import opened GoStrings
  import opened Sorting
  import opened AckToken
  import opened Ledger
  import opened Registry

  /** One call on the index. `order` is how the disconnecting session's set happens to be
      listed, `fails` are the subscribers whose send fails. */
  datatype Op =
    | Subscribe(dest: string, id: string, ackMode: string, sess: string)
    | Unsubscribe(id: string)
    | Disconnect(sess: string, order: seq<string>)
    | Publish(dest: string, fails: set<string>)
    | Acknowledge(ackVal: string)

  function Step(guard: Guard, r: Index, op: Op): Result {
    match op
    case Subscribe(dest, id, ackMode, sess) => Add(guard, r, dest, id, ackMode, sess)
    case Unsubscribe(id) => Remove(r, id)
    case Disconnect(sess, order) => Cleanup(r, sess, order)
    case Publish(dest, fails) => PublishTo(r, dest, fails)
    case Acknowledge(ackVal) => ProcessAck(r, ackVal)
  }

  function Run(guard: Guard, ops: seq<Op>): Index {
    if ops == [] then EMPTY else Step(guard, Run(guard, ops[..|ops| - 1]), ops[|ops| - 1]).index
  }

  /** A disconnection lists the session's set as it is at that moment. */
  predicate TrueListing(r: Index, op: Op) {
    op.Disconnect? && op.sess in r.sessToSubs ==> Lists(op.order, r.sessToSubs[op.sess])
  }

  predicate Feasible(guard: Guard, ops: seq<Op>) {
    forall k :: 0 <= k < |ops| ==> TrueListing(Run(guard, ops[..k]), ops[k])
  }

  // ---------- consistency ----------

  /** An accepted subscription fits the index it meets. */
  predicate Fits(guard: Guard, r: Index, op: Op) {
    op.Subscribe? && op.id != "" && op.dest != "" ==> AddFits(guard, r, op.dest, op.id, op.sess)
  }

  /** One step keeps the index consistent exactly when it is not a subscription that does not fit. */
  lemma StepExact(guard: Guard, r: Index, op: Op)
    requires Consistent(r) && TrueListing(r, op)
    ensures Consistent(Step(guard, r, op).index) <==> Fits(guard, r, op)
  {
    hide Consistent, Add, Remove, Cleanup, PublishTo, ProcessAck;
    match op
    case Subscribe(dest, id, ackMode, sess) =>
      if id != "" && dest != "" {
        AddExact(guard, r, dest, id, ackMode, sess);
      } else {
        AddRefuses(guard, r, dest, id, ackMode, sess);
      }
    case Unsubscribe(id) =>
      RemoveExact(r, id);
      WithoutConsistent(r, {id});
      if id !in r.subsToDest {
        RemoveRefuses(r, id);
      }
    case Disconnect(sess, order) => CleanupExact(r, sess, order);
    case Publish(dest, fails) => PublishExact(r, dest, fails);
    case Acknowledge(ackVal) => AckExact(r, ackVal);
  }

  lemma AddRefuses(guard: Guard, r: Index, dest: string, id: string, ackMode: string, sess: string)
    requires id == "" || dest == ""
    ensures Add(guard, r, dest, id, ackMode, sess) == Result(Err, r)
  {
  }

  lemma RemoveRefuses(r: Index, id: string)
    requires id !in r.subsToDest
    ensures Remove(r, id) == Result(Err, r)
  {
  }

  lemma EmptyConsistent()
    ensures Consistent(EMPTY)
  {
  }

  lemma RunSnoc(guard: Guard, ops: seq<Op>, k: nat)
    requires k < |ops|
    ensures Run(guard, ops[..k + 1]) == Step(guard, Run(guard, ops[..k]), ops[k]).index
  {
    hide Step;
    assert ops[..k + 1][..k] == ops[..k];
  }

  /** The index is consistent throughout a run exactly when every subscription fits when it is made. */
  lemma {:induction false} RunExact(guard: Guard, ops: seq<Op>, n: nat)
    requires Feasible(guard, ops) && n <= |ops|
    ensures (forall k :: 0 <= k <= n ==> Consistent(Run(guard, ops[..k])))
      <==> (forall k :: 0 <= k < n ==> Fits(guard, Run(guard, ops[..k]), ops[k]))
  {
    hide Consistent, Run, Step, Fits;
    if n == 0 {
      RunEmpty(guard, ops);
      EmptyConsistent();
    } else {
      RunExact(guard, ops, n - 1);
      RunSnoc(guard, ops, n - 1);
      if Consistent(Run(guard, ops[..n - 1])) {
        StepExact(guard, Run(guard, ops[..n - 1]), ops[n - 1]);
      }
    }
  }

  lemma RunEmpty(guard: Guard, ops: seq<Op>)
    ensures Run(guard, ops[..0]) == EMPTY
  {
    assert ops[..0] == [];
  }

  /** Every subscription carries an id that no earlier one carried, as a client's UUIDs do. */
  predicate FreshIds(ops: seq<Op>) {
    forall i, j :: 0 <= i < j < |ops| && ops[i].Subscribe? && ops[j].Subscribe? ==> ops[i].id != ops[j].id
  }

  /** A subscription on record was made by some subscription call. */
  lemma {:induction false} OnRecordWasMade(guard: Guard, ops: seq<Op>, id: string)
    requires id in Run(guard, ops).subsToDest
    ensures exists k :: 0 <= k < |ops| && ops[k].Subscribe? && ops[k].id == id
  {
    var n := |ops| - 1;
    var init := ops[..n];
    StepRecords(guard, Run(guard, init), ops[n], id);
    if ops[n].Subscribe? && ops[n].id == id {
      assert ops[n].Subscribe? && ops[n].id == id;
    } else {
      OnRecordWasMade(guard, init, id);
      var k :| 0 <= k < |init| && init[k].Subscribe? && init[k].id == id;
      assert ops[k].Subscribe? && ops[k].id == id;
    }
  }

  lemma StepRecords(guard: Guard, r: Index, op: Op, id: string)
    requires id in Step(guard, r, op).index.subsToDest
    ensures id in r.subsToDest || (op.Subscribe? && op.id == id)
  {
    if op.Disconnect? {
      RemoveAllShrinks(r, op.order);
    }
  }

  lemma {:induction false} RemoveAllShrinks(r: Index, order: seq<string>)
    ensures RemoveAll(r, order).index.subsToDest.Keys <= r.subsToDest.Keys
    decreases |order|
  {
    if order != [] && Remove(r, order[0]).reply == Ok {
      RemoveAllShrinks(Remove(r, order[0]).index, order[1..]);
    }
  }

  /** With fresh ids and the guard on the destination, the index is consistent in every reachable
      state. With the guard as written, it is so exactly as long as nobody subscribes to a
      destination that has a subscriber. */
  lemma FreshRunExact(guard: Guard, ops: seq<Op>, n: nat)
    requires Feasible(guard, ops) && FreshIds(ops) && n <= |ops|
    ensures (forall k :: 0 <= k <= n ==> Consistent(Run(guard, ops[..k])))
      <==> (guard == Literal ==> forall k :: 0 <= k < n ==> !Crowds(Run(guard, ops[..k]), ops[k]))
  {
    hide Consistent, Run;
    RunExact(guard, ops, n);
    forall k | 0 <= k < n
      ensures Fits(guard, Run(guard, ops[..k]), ops[k]) <==> (guard == Literal ==> !Crowds(Run(guard, ops[..k]), ops[k]))
    {
      if ops[k].Subscribe? {
        FreshIsNew(guard, ops, k);
      }
    }
  }

  /** A subscription to a destination that has a subscriber already. */
  predicate Crowds(r: Index, op: Op) {
    op.Subscribe? && op.id != "" && op.dest != "" && op.dest in r.destToSubs
  }

  lemma FreshIsNew(guard: Guard, ops: seq<Op>, k: nat)
    requires FreshIds(ops) && k < |ops| && ops[k].Subscribe?
    ensures ops[k].id !in Run(guard, ops[..k]).subsToDest
  {
    if ops[k].id in Run(guard, ops[..k]).subsToDest {
      OnRecordWasMade(guard, ops[..k], ops[k].id);
      assert false;
    }
  }

  /** The smallest run that goes wrong under the guard as written: of two subscribers to one
      destination the first is displaced, and unsubscribing it then fails in the runtime. */
  lemma SecondSubscriberDisplaces()
    ensures
      var ops := [Subscribe("q", "1", ACK_AUTO, "A"), Subscribe("q", "2", ACK_AUTO, "B")];
      var r := Run(Literal, ops);
      && !Under(r, "q", "1") && "1" in r.subsToDest
      && !Consistent(r)
      && Step(Literal, r, Unsubscribe("1")).reply == Trap
  {
    var ops := [Subscribe("q", "1", ACK_AUTO, "A"), Subscribe("q", "2", ACK_AUTO, "B")];
    RunEmpty(Literal, ops);
    RunSnoc(Literal, ops, 0);
    RunSnoc(Literal, ops, 1);
    assert ops[..2] == ops;
    var r1, r := Run(Literal, ops[..1]), Run(Literal, ops);
    hide Run;
    assert "1"[0] != "2"[0];
    AddSays(Literal, EMPTY, "q", "1", ACK_AUTO, "A");
    AddSays(Literal, r1, "q", "2", ACK_AUTO, "B");
    hide Add;
    assert !Under(r, "q", "1") && r.subsToDest["1"] == "q";
  }

  // ---------- the ledgers of a run ----------

  /** What a run did to one subscription since it was last made. */
  function History(ops: seq<Op>, dest: string, id: string): seq<Event> {
    if ops == [] then []
    else
      var before := History(ops[..|ops| - 1], dest, id);
      match ops[|ops| - 1]
      case Subscribe(d, i, _, _) => if d == dest && i == id then [] else before
      case Publish(d, fails) => if d == dest && id !in fails then before + [Sent] else before
      case Acknowledge(ackVal) =>
        var scan := ScanAckNum(ackVal);
        if scan.Scanned? && scan.dest == dest && scan.subsID == id then before + [Ack(scan.ackNum)] else before
      case _ => before
  }

  lemma LedgerSnoc(session: string, ackMode: string, history: seq<Event>, e: Event)
    ensures LedgerRun(session, ackMode, history + [e]) == Apply(LedgerRun(session, ackMode, history), e)
  {
    assert (history + [e])[..|history|] == history;
  }

  lemma {:induction false} RemoveAllKeepsLedgers(r: Index, order: seq<string>, dest: string, id: string)
    requires Under(RemoveAll(r, order).index, dest, id)
    ensures Under(r, dest, id) && RemoveAll(r, order).index.destToSubs[dest][id] == r.destToSubs[dest][id]
    decreases |order|
  {
    if order != [] && Remove(r, order[0]).reply == Ok {
      RemoveAllKeepsLedgers(Remove(r, order[0]).index, order[1..], dest, id);
    }
  }

  /** In every reachable state, under either guard, the ledger of a subscription is what its own
      history makes it: other subscriptions, sessions and destinations leave no trace in it. */
  lemma {:induction false} LedgerOfRun(guard: Guard, ops: seq<Op>, dest: string, id: string)
    requires Under(Run(guard, ops), dest, id)
    ensures dest != "" && id != ""
    ensures var info := Run(guard, ops).destToSubs[dest][id];
      info == LedgerRun(info.session, info.ackMode, History(ops, dest, id))
  {
    if ops != [] {
      var n := |ops| - 1;
      var r, op := Run(guard, ops[..n]), ops[n];
      StepLedger(guard, r, op, dest, id);
      if Under(r, dest, id) {
        LedgerOfRun(guard, ops[..n], dest, id);
      }
      if !(op.Subscribe? && op.dest == dest && op.id == id) {
        var info, h := r.destToSubs[dest][id], History(ops[..n], dest, id);
        LedgerSnoc(info.session, info.ackMode, h, Sent);
        if op.Acknowledge? && ScanAckNum(op.ackVal).Scanned? {
          LedgerSnoc(info.session, info.ackMode, h, Ack(ScanAckNum(op.ackVal).ackNum));
        }
      }
    }
  }

  /** What one step does to the ledger of a subscription that is there afterwards. */
  lemma StepLedger(guard: Guard, r: Index, op: Op, dest: string, id: string)
    requires Under(Step(guard, r, op).index, dest, id)
    ensures
      var info := Step(guard, r, op).index.destToSubs[dest][id];
      if op.Subscribe? && op.dest == dest && op.id == id then
        if dest == "" || id == "" then Under(r, dest, id) else info == NewInfo(op.sess, op.ackMode)
      else
        Under(r, dest, id) && info ==
          match op
          case Publish(d, fails) => Reached(r.destToSubs[dest][id], dest == d && dest != "" && id !in fails)
          case Acknowledge(ackVal) => Acknowledged(r.destToSubs[dest][id], ScanAckNum(ackVal), dest, id)
          case _ => r.destToSubs[dest][id]
  {
    hide PublishTo, ProcessAck, ScanAckNum;
    match op
    case Subscribe(d, i, ackMode, sess) =>
    case Unsubscribe(_) =>
    case Disconnect(sess, order) =>
      if sess in r.sessToSubs {
        RemoveAllKeepsLedgers(r, order, dest, id);
      }
    case Publish(d, fails) => PublishExact(r, d, fails);
    case Acknowledge(ackVal) => AckExact(r, ackVal);
  }

  /** Over a whole run, below 2^32 messages to a subscription: its next number is the count of
      messages it was sent since it was made, and what is pending is what its history of sends
      and acknowledgements leaves outstanding in its mode. */
  lemma PendingOfRun(guard: Guard, ops: seq<Op>, dest: string, id: string)
    requires Under(Run(guard, ops), dest, id)
    requires Sends(History(ops, dest, id)) < UINT32_RANGE
    ensures var info := Run(guard, ops).destToSubs[dest][id];
      var history := History(ops, dest, id);
      && info.nextAckNum == Sends(history)
      && forall n :: n in info.pending <==> Outstanding(info.ackMode, history, n)
  {
    hide Run;
    var info := Run(guard, ops).destToSubs[dest][id];
    LedgerOfRun(guard, ops, dest, id);
    LedgerExact(info.session, info.ackMode, History(ops, dest, id));
  }
}
