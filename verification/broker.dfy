/**
 The broker's command dispatch (broker.go:83-158) over the shared index and buffers, and
 whole runs of it from many sessions.
 */
module Broker {
  import opened Names
  import opened Sorting
  import opened Serializer
  import opened Registry
  import opened Subscriptions
  import opened Transactions

  datatype State = State(index: Index, tx: Buffers)

  const START: State := State(EMPTY, map[])

  /** For each message that a frame makes the broker publish, the subscribers whose connection
      refuses it; nobody refuses a message behind the last one named. */
  type Failures = seq<set<string>>

  function FirstOf(fails: Failures): set<string> {
    if fails == [] then {} else fails[0]
  }

  function RestOf(fails: Failures): Failures {
    if fails == [] then [] else fails[1..]
  }

  /** One frame from one session. `order` lists the session's subscriptions if it disconnects. */
  datatype Input = Input(sess: string, frame: Frame, order: seq<string>, fails: Failures)

  /** A message handed to the subscribers of its destination, and the transaction it came from. */
  datatype Pub = Pub(frame: Frame, txID: string)

  datatype Stepped = Stepped(reply: Reply, state: State, pubs: seq<Pub>)

  /** The ack mode that the dispatch passes on: the header is used only when it is empty. */
  function SubscribeMode(header: string): string {
    if header == "" then header else ACK_AUTO
  }

  /** The outcome of several publications. */
  datatype Batch = Batch(reply: Reply, index: Index, pubs: seq<Pub>) {
    function Behind(earlier: seq<Pub>): Batch {
      Batch(reply, index, earlier + pubs)
    }
  }

  /** `publish` on each frame in turn, until one fails or never returns. */
  function PublishAll(r: Index, frames: seq<Frame>, txID: string, fails: Failures): Batch
    decreases |frames|
  {
    if frames == [] then Batch(Ok, r, [])
    else
      var one := PublishTo(r, frames[0].Get(KEY_DESTINATION), FirstOf(fails));
      if one.reply == Err then Batch(Err, one.index, [])
      else if one.reply != Ok then Batch(one.reply, one.index, [Pub(frames[0], txID)])
      else PublishAll(one.index, frames[1..], txID, RestOf(fails)).Behind([Pub(frames[0], txID)])
  }

  /** One message of a batch, at a position of the queue. */
  lemma BatchStep(r: Index, queue: seq<Frame>, n: nat, txID: string, fails: Failures)
    requires n < |queue|
    ensures var one := PublishTo(r, queue[n].Get(KEY_DESTINATION), FirstOf(fails));
      PublishAll(r, queue[n..], txID, fails) ==
        if one.reply == Err then Batch(Err, one.index, [])
        else if one.reply != Ok then Batch(one.reply, one.index, [Pub(queue[n], txID)])
        else PublishAll(one.index, queue[n + 1..], txID, RestOf(fails)).Behind([Pub(queue[n], txID)])
  {
    hide PublishTo;
    assert queue[n..][0] == queue[n] && queue[n..][1..] == queue[n + 1..];
  }

  lemma BatchEnd(r: Index, txID: string, fails: Failures)
    ensures PublishAll(r, [], txID, fails) == Batch(Ok, r, [])
  {
  }

  lemma PublishOne(r: Index, f: Frame, txID: string, fails: Failures)
    ensures var one := PublishTo(r, f.Get(KEY_DESTINATION), FirstOf(fails));
      PublishAll(r, [f], txID, fails) == Batch(one.reply, one.index, if one.reply == Err then [] else [Pub(f, txID)])
  {
    hide PublishTo;
    assert [f][1..] == [];
  }

  function OnIndex(st: State, r: Result): Stepped {
    Stepped(r.reply, st.(index := r.index), [])
  }

  function Publishing(st: State, frames: seq<Frame>, txID: string, fails: Failures): Stepped {
    var p := PublishAll(st.index, frames, txID, fails);
    Stepped(p.reply, st.(index := p.index), p.pubs)
  }

  function Step(st: State, i: Input): Stepped {
    var f := i.frame;
    var txID := f.Get(KEY_TRANSACTION);
    if f.command == CMD_SEND then
      if txID != "" then
        if txID !in st.tx then Stepped(Err, st, [])
        else Stepped(Ok, st.(tx := st.tx[txID := st.tx[txID] + [f]]), [])
      else Publishing(st, [f], "", i.fails)
    else if f.command == CMD_SUBSCRIBE then
      OnIndex(st, Add(Literal, st.index, f.Get(KEY_DESTINATION), f.Get(KEY_ID), SubscribeMode(f.Get(KEY_ACK)), i.sess))
    else if f.command == CMD_UNSUBSCRIBE then OnIndex(st, Remove(st.index, f.Get(KEY_ID)))
    else if f.command == CMD_ACK then OnIndex(st, ProcessAck(st.index, f.Get(KEY_ID)))
    else if f.command == CMD_BEGIN then
      if txID == "" || txID in st.tx then Stepped(Err, st, []) else Stepped(Ok, st.(tx := st.tx[txID := []]), [])
    else if f.command == CMD_COMMIT then
      if txID == "" || txID !in st.tx then Stepped(Err, st, []) else Publishing(st, st.tx[txID], txID, i.fails)
    else if f.command == CMD_ABORT then
      if txID == "" || txID !in st.tx then Stepped(Err, st, []) else Stepped(Ok, st.(tx := st.tx - {txID}), [])
    else if f.command == CMD_DISCONNECT then
      var r := Cleanup(st.index, i.sess, i.order);
      Stepped(if r.reply == Reply.Trap then Reply.Trap else Ok, st.(index := r.index), [])
    else Stepped(Ok, st, [])
  }

  // ---------- the code ----------

  class SharedState {
    const tables: Tables
    const buffers: TxBuffer

    constructor ()
      ensures fresh(tables) && fresh(buffers)
      ensures Value() == START
    {
      tables := new Tables();
      buffers := new TxBuffer();
    }

    function Value(): State
      reads this, tables, buffers
    {
      State(tables.Value(), buffers.txBuffer)
    }

    /** `publish`: the fan-out ranges over the subscribers in whatever order they come. */
    method PublishFrame(frame: Frame, fails: set<string>) returns (reply: Reply)
      modifies tables
      ensures Result(reply, tables.Value()) == PublishTo(old(tables.Value()), frame.Get(KEY_DESTINATION), fails)
    {
      var dest := frame.Get(KEY_DESTINATION);
      var order := ListKeys(if dest in tables.destToSubs then tables.destToSubs[dest].Keys else {});
      var sent;
      reply, sent := tables.Publish(dest, order, fails);
    }

    /** `foreachTx` with the callback of the commit. */
    method PublishBuffer(txID: string, fails: Failures) returns (reply: Reply, pubs: seq<Pub>)
      modifies tables
      ensures txID == "" || txID !in buffers.txBuffer ==> reply == Err && pubs == [] && tables.Value() == old(tables.Value())
      ensures txID != "" && txID in buffers.txBuffer ==>
        Batch(reply, tables.Value(), pubs) == PublishAll(old(tables.Value()), buffers.txBuffer[txID], txID, fails)
    {
      pubs := [];
      if txID == "" || txID !in buffers.txBuffer {
        return Err, pubs;
      }
      hide PublishTo, PublishAll, FirstOf, RestOf;
      var queue := buffers.txBuffer[txID];
      ghost var all := PublishAll(tables.Value(), queue, txID, fails);
      var n, left := 0, fails;
      assert queue[0..] == queue;
      while n < |queue|
        invariant 0 <= n <= |queue|
        invariant all == PublishAll(tables.Value(), queue[n..], txID, left).Behind(pubs)
      {
        BatchStep(tables.Value(), queue, n, txID, left);
        reply := PublishFrame(queue[n], FirstOf(left));
        if reply == Err {
          return;
        }
        pubs := pubs + [Pub(queue[n], txID)];
        if reply != Ok {
          return;
        }
        n, left := n + 1, RestOf(left);
      }
      assert queue[n..] == [];
      BatchEnd(tables.Value(), txID, left);
      reply := Ok;
    }

    method StateMachine(i: Input) returns (reply: Reply, pubs: seq<Pub>)
      requires i.sess in tables.sessToSubs ==> Lists(i.order, tables.sessToSubs[i.sess])
      modifies tables, buffers
      ensures Stepped(reply, Value(), pubs) == Step(old(Value()), i)
    {
      hide Add, Remove, ProcessAck, Cleanup, PublishTo;
      var frame := i.frame;
      reply, pubs := Ok, [];
      if frame.command == CMD_SEND {
        var txID := frame.Get(KEY_TRANSACTION);
        if txID != "" {
          reply := buffers.BufferTxMessage(txID, frame);
          return;
        }
        PublishOne(tables.Value(), frame, "", i.fails);
        reply := PublishFrame(frame, FirstOf(i.fails));
        pubs := if reply == Err then [] else [Pub(frame, "")];
      } else if frame.command == CMD_SUBSCRIBE {
        var ack := ACK_AUTO;
        var ackStr := frame.Get(KEY_ACK);
        if ackStr == "" {
          ack := ackStr;
        }
        reply := tables.AddSubscription(frame.Get(KEY_DESTINATION), frame.Get(KEY_ID), ack, i.sess);
      } else if frame.command == CMD_UNSUBSCRIBE {
        reply := tables.RemoveSubscription(frame.Get(KEY_ID));
      } else if frame.command == CMD_ACK {
        reply := tables.ProcessAckVal(frame.Get(KEY_ID));
      } else if frame.command == CMD_BEGIN {
        reply := buffers.StartTx(frame.Get(KEY_TRANSACTION));
      } else if frame.command == CMD_COMMIT {
        reply, pubs := PublishBuffer(frame.Get(KEY_TRANSACTION), i.fails);
      } else if frame.command == CMD_ABORT {
        reply := buffers.DropTx(frame.Get(KEY_TRANSACTION));
      } else if frame.command == CMD_DISCONNECT {
        reply := tables.CleanupSubscriptions(i.sess, i.order);
        reply := if reply == Reply.Trap then Reply.Trap else Ok;
      }
    }
  }
}
