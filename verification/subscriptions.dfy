/** The index as the broker keeps it (subscribe.go:26-172): three maps, updated in place. */
module Subscriptions {
  import opened Sorting
  import opened AckToken
  import opened Ledger
  import opened Registry

  class Tables {
    var destToSubs: map<string, Subs>
    var sessToSubs: map<string, set<string>>
    var subsToDest: map<string, string>

    constructor ()
      ensures Value() == EMPTY
    {
      destToSubs, sessToSubs, subsToDest := map[], map[], map[];
    }

    function Value(): Index
      reads this
    {
      Index(destToSubs, sessToSubs, subsToDest)
    }

    method AddSubscription(dest: string, subsID: string, ackMode: string, sess: string) returns (reply: Reply)
      modifies this
      ensures Result(reply, Value()) == Add(Literal, old(Value()), dest, subsID, ackMode, sess)
    {
      if subsID == "" {
        return Err;
      }
      if dest == "" {
        return Err;
      }
      if !(dest in destToSubs && subsID in destToSubs[dest]) {
        destToSubs := destToSubs[dest := map[]];
      }
      destToSubs := destToSubs[dest := destToSubs[dest][subsID := NewInfo(sess, ackMode)]];
      assert destToSubs == Add(Literal, old(Value()), dest, subsID, ackMode, sess).index.destToSubs;
      subsToDest := subsToDest[subsID := dest];
      if sess !in sessToSubs {
        sessToSubs := sessToSubs[sess := {}];
      }
      sessToSubs := sessToSubs[sess := sessToSubs[sess] + {subsID}];
      assert sessToSubs == Add(Literal, old(Value()), dest, subsID, ackMode, sess).index.sessToSubs;
      return Ok;
    }

    method RemoveSubscription(subsID: string) returns (reply: Reply)
      modifies this
      ensures Result(reply, Value()) == Remove(old(Value()), subsID)
    {
      if subsID == "" {
        return Err;
      }
      if subsID !in subsToDest {
        return Err;
      }
      var dest := subsToDest[subsID];
      if dest !in destToSubs {
        return Err;
      }
      if subsID !in destToSubs[dest] {
        return Trap;
      }
      var sess := destToSubs[dest][subsID].session;
      if sess !in sessToSubs {
        return Trap;
      }
      sessToSubs := sessToSubs[sess := sessToSubs[sess] - {subsID}];
      destToSubs := destToSubs[dest := destToSubs[dest] - {subsID}];
      if |destToSubs[dest]| == 0 {
        destToSubs := destToSubs - {dest};
      }
      subsToDest := subsToDest - {subsID};
      return Ok;
    }

    /** `order` is the slice that the session's set is turned into. */
    method CleanupSubscriptions(sessionID: string, order: seq<string>) returns (reply: Reply)
      requires sessionID in sessToSubs ==> Lists(order, sessToSubs[sessionID])
      modifies this
      ensures Result(reply, Value()) == Cleanup(old(Value()), sessionID, order)
    {
      if sessionID !in sessToSubs {
        return Ok;
      }
      var n := 0;
      assert order[0..] == order;
      while n < |order|
        invariant 0 <= n <= |order|
        invariant RemoveAll(old(Value()), order) == RemoveAll(Value(), order[n..])
      {
        assert order[n..][1..] == order[n + 1..];
        reply := RemoveSubscription(order[n]);
        if reply != Ok {
          return;
        }
        n := n + 1;
      }
      sessToSubs := sessToSubs - {sessionID};
      return Ok;
    }

    /** The fan-out of `publish`: `order` is how the inner map happens to be ranged over, `fails`
        are the subscribers whose send fails. */
    method Publish(dest: string, order: seq<string>, fails: set<string>) returns (reply: Reply, sent: seq<Delivery>)
      requires dest in destToSubs ==> Lists(order, destToSubs[dest].Keys)
      modifies this
      ensures Result(reply, Value()) == PublishTo(old(Value()), dest, fails)
      ensures dest != "" && dest in old(destToSubs) ==>
        (forall id :: id in order ==> id in old(destToSubs)[dest])
        && sent == Deliveries(old(destToSubs)[dest], order, fails)
      ensures dest == "" || dest !in old(destToSubs) ==> sent == []
    {
      sent := [];
      if dest == "" {
        return Err, sent;
      }
      if dest !in destToSubs {
        return Ok, sent;
      }
      ListsMembers(order, destToSubs[dest].Keys);
      var stuck;
      sent, stuck := SendAll(dest, order, fails);
      return if stuck then Hang else Ok, sent;
    }

    /** One message to each subscriber, one after the other. */
    method SendAll(dest: string, order: seq<string>, fails: set<string>) returns (sent: seq<Delivery>, stuck: bool)
      requires dest in destToSubs && Lists(order, destToSubs[dest].Keys)
      requires forall id :: id in order ==> id in destToSubs[dest]
      modifies `destToSubs
      ensures destToSubs == old(destToSubs)[dest := Advance(old(destToSubs[dest]), fails)]
      ensures sent == Deliveries(old(destToSubs[dest]), order, fails)
      ensures stuck <==> !(old(destToSubs[dest]).Keys !! fails)
    {
      hide AfterSend, Deliveries, SendTo, Advance;
      ghost var subs, tables, done: set<string> := destToSubs[dest], destToSubs, {};
      var n := 0;
      sent, stuck := [], false;
      SendToNone(subs, fails);
      assert order[0..] == order && subs.Keys - done == subs.Keys;
      while n < |order|
        invariant 0 <= n <= |order|
        invariant done <= subs.Keys && Lists(order[n..], subs.Keys - done)
        invariant destToSubs == tables[dest := SendTo(subs, done, fails)]
        invariant sent + Deliveries(subs, order[n..], fails) == Deliveries(subs, order, fails)
        invariant stuck <==> !(done !! fails)
      {
        var subsID := order[n];
        assert order[n..][0] == subsID && order[n..][1..] == order[n + 1..];
        DeliverStep(subs, order[n..], fails);
        SendStep(subs, done, fails, subsID);
        var info := destToSubs[dest][subsID];
        if subsID in fails {
          stuck := true;
        } else {
          sent := sent + [Delivery(info.session, subsID, info.nextAckNum)];
          destToSubs := destToSubs[dest := destToSubs[dest][subsID := AfterSend(info)]];
        }
        assert subs.Keys - done - {subsID} == subs.Keys - (done + {subsID});
        done := done + {subsID};
        n := n + 1;
      }
      assert order[n..] == [] && done == subs.Keys;
      DeliverNone(subs, fails);
      SendToAll(subs, fails);
    }

    method ProcessAckVal(ackVal: string) returns (reply: Reply)
      modifies this
      ensures Result(reply, Value()) == ProcessAck(old(Value()), ackVal)
    {
      var scan := ScanAckNum(ackVal);
      match scan {
        case TooFewParts => return Trap;
        case BadNumber => return Err;
        case Scanned(dest, subsID, ackNum) =>
          if dest !in destToSubs {
            return Err;
          }
          if subsID !in destToSubs[dest] {
            return Err;
          }
          var trap, info := Acknowledge(destToSubs[dest][subsID], ackNum);
          destToSubs := destToSubs[dest := destToSubs[dest][subsID := info]];
          return if trap then Trap else Ok;
      }
    }
  }

  /** The subscribers of a destination when those in `done` have been served. */
  function SendTo(subs: Subs, done: set<string>, fails: set<string>): Subs {
    map id | id in subs :: if id in done && id !in fails then AfterSend(subs[id]) else subs[id]
  }

  lemma SendStep(subs: Subs, done: set<string>, fails: set<string>, id: string)
    requires id in subs && id !in done
    ensures id in SendTo(subs, done, fails) && SendTo(subs, done, fails)[id] == subs[id]
    ensures SendTo(subs, done + {id}, fails)
         == if id in fails then SendTo(subs, done, fails) else SendTo(subs, done, fails)[id := AfterSend(subs[id])]
  {
  }

  lemma SendToNone(subs: Subs, fails: set<string>)
    ensures SendTo(subs, {}, fails) == subs
  {
  }

  lemma SendToAll(subs: Subs, fails: set<string>)
    ensures SendTo(subs, subs.Keys, fails) == Advance(subs, fails)
  {
    assert forall id :: id in subs ==> id in subs.Keys;
  }

  lemma DeliverNone(subs: Subs, fails: set<string>)
    ensures Deliveries(subs, [], fails) == []
  {
  }

  lemma DeliverStep(subs: Subs, order: seq<string>, fails: set<string>)
    requires order != [] && forall id :: id in order ==> id in subs
    ensures Deliveries(subs, order, fails) ==
      (if order[0] in fails then [] else [Delivery(subs[order[0]].session, order[0], subs[order[0]].nextAckNum)])
      + Deliveries(subs, order[1..], fails)
  {
  }
}
