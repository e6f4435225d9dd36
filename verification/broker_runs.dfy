/**
 Whole runs of the broker: every interleaving of frames from any sessions, with any number of
 transactions and subscriptions in flight.
 */
module BrokerRuns {
  import opened Names
  import opened GoStrings
  import opened Sorting
  import opened Serializer
  import opened AckToken
  import opened Ledger
  import opened Registry
  import RegistryRuns
  import opened Transactions
  import opened Broker

  function Run(inputs: seq<Input>): State {
    if inputs == [] then START else Step(Run(inputs[..|inputs| - 1]), inputs[|inputs| - 1]).state
  }

  /** Everything published in a run, in order. */
  function Log(inputs: seq<Input>): seq<Pub> {
    if inputs == [] then []
    else Log(inputs[..|inputs| - 1]) + Step(Run(inputs[..|inputs| - 1]), inputs[|inputs| - 1]).pubs
  }

  // ---------- transactions ----------

  /** The messages of a log that a transaction published. */
  function Tagged(pubs: seq<Pub>, txID: string): seq<Frame> {
    if pubs == [] then []
    else (if pubs[0].txID == txID then [pubs[0].frame] else []) + Tagged(pubs[1..], txID)
  }

  /** A frame that opens, feeds or ends this transaction. */
  predicate Concerns(f: Frame, txID: string) {
    f.Get(KEY_TRANSACTION) == txID && f.command in [CMD_BEGIN, CMD_SEND, CMD_COMMIT, CMD_ABORT]
  }

  /** The frames of a run that concern one transaction, in order. */
  function Related(inputs: seq<Input>, txID: string): seq<Frame> {
    if inputs == [] then []
    else
      var (init, f) := (inputs[..|inputs| - 1], inputs[|inputs| - 1].frame);
      if Concerns(f, txID) then Related(init, txID) + [f] else Related(init, txID)
  }

  /** No subscriber refuses a message. */
  predicate NoneFails(fails: Failures) {
    forall k :: 0 <= k < |fails| ==> fails[k] == {}
  }

  predicate Commits(f: Frame, txID: string) {
    f.command == CMD_COMMIT && f.Get(KEY_TRANSACTION) == txID
  }

  /** No subscriber refuses a message that a COMMIT of this transaction publishes. */
  predicate CommitsReach(inputs: seq<Input>, txID: string) {
    forall k :: 0 <= k < |inputs| && Commits(inputs[k].frame, txID) ==> NoneFails(inputs[k].fails)
  }

  lemma TaggedStep(p: Pub, rest: seq<Pub>, txID: string)
    ensures Tagged([p] + rest, txID) == (if p.txID == txID then [p.frame] else []) + Tagged(rest, txID)
  {
    assert ([p] + rest)[1..] == rest;
  }

  lemma {:induction false} TaggedConcat(a: seq<Pub>, b: seq<Pub>, txID: string)
    ensures Tagged(a + b, txID) == Tagged(a, txID) + Tagged(b, txID)
  {
    if a == [] {
      assert a + b == b && Tagged(a, txID) == [];
    } else {
      hide Tagged;
      TaggedConcat(a[1..], b, txID);
      TaggedStep(a[0], a[1..] + b, txID);
      TaggedStep(a[0], a[1..], txID);
      assert a == [a[0]] + a[1..];
      assert a + b == [a[0]] + (a[1..] + b);
      Associate(if a[0].txID == txID then [a[0].frame] else [], Tagged(a[1..], txID), Tagged(b, txID));
    }
  }

  // ---------- what one frame publishes ----------

  /** How many messages of a batch are handed to subscribers: up to the first without a
      destination, and up to and including the first that somebody refuses. */
  ghost function Handed(r: Index, frames: seq<Frame>, fails: Failures): (n: nat)
    ensures n <= |frames|
    decreases |frames|
  {
    if frames == [] || frames[0].Get(KEY_DESTINATION) == "" then 0
    else if Refused(r, frames[0].Get(KEY_DESTINATION), FirstOf(fails)) then 1
    else 1 + Handed(r, frames[1..], RestOf(fails))
  }

  /** The frames, published under a tag. */
  function Pubs(frames: seq<Frame>, tag: string): seq<Pub> {
    if frames == [] then [] else [Pub(frames[0], tag)] + Pubs(frames[1..], tag)
  }

  ghost predicate SameSubscribers(r: Index, r': Index) {
    forall d, id :: Under(r', d, id) <==> Under(r, d, id)
  }

  lemma {:induction false} HandedAlike(r: Index, r': Index, frames: seq<Frame>, fails: Failures)
    requires SameSubscribers(r, r')
    ensures Handed(r, frames, fails) == Handed(r', frames, fails)
    decreases |frames|
  {
    if frames != [] {
      HandedAlike(r, r', frames[1..], RestOf(fails));
    }
  }

  lemma PublishedOne(r: Index, dest: string, fails: set<string>)
    ensures SameSubscribers(r, PublishTo(r, dest, fails).index)
  {
    hide PublishTo;
    PublishExact(r, dest, fails);
  }

  /** A batch publishes exactly the messages handed out, under its tag. It ends well exactly when
      these are all and nobody refused one, and with an error exactly when the next message has no
      destination. */
  lemma {:induction false} BatchExact(r: Index, frames: seq<Frame>, tag: string, fails: Failures)
    ensures PublishAll(r, frames, tag, fails).pubs == Pubs(frames[..Handed(r, frames, fails)], tag)
    ensures PublishAll(r, frames, tag, fails).reply == Err <==> NextHasNoDest(r, frames, fails)
    ensures PublishAll(r, frames, tag, fails).reply == Hang <==> LastIsRefused(r, frames, fails)
    ensures PublishAll(r, frames, tag, fails).reply in {Ok, Err, Hang}
    decreases |frames|
  {
    hide PublishTo, Refused, LastIsRefused, NextHasNoDest, PublishAll, Handed;
    if frames != [] {
      var dest := frames[0].Get(KEY_DESTINATION);
      var one := PublishTo(r, dest, FirstOf(fails));
      PublishReplies(r, dest, FirstOf(fails));
      var rest, more := frames[1..], RestOf(fails);
      assert frames[0..] == frames;
      BatchStep(r, frames, 0, tag, fails);
      HandedStep(r, frames, fails);
      if one.reply == Ok {
        BatchExact(one.index, rest, tag, more);
        PublishedOne(r, dest, FirstOf(fails));
        HandedAlike(r, one.index, rest, more);
        RefusedAlike(r, one.index, rest, more);
        PubsCons(frames[0], rest[..Handed(r, rest, more)], tag);
        assert frames[..Handed(r, rest, more) + 1] == [frames[0]] + rest[..Handed(r, rest, more)];
      } else {
        PubsCons(frames[0], [], tag);
        assert frames[..0] == [] && frames[..1] == [frames[0]] + [];
      }
    } else {
      BatchEnd(r, tag, fails);
      NothingHanded(r, fails);
      assert frames[..0] == [];
    }
  }

  lemma PubsCons(f: Frame, frames: seq<Frame>, tag: string)
    ensures Pubs([], tag) == [] && Pubs([f] + frames, tag) == [Pub(f, tag)] + Pubs(frames, tag)
  {
    assert ([f] + frames)[1..] == frames;
  }

  lemma NothingHanded(r: Index, fails: Failures)
    ensures Handed(r, [], fails) == 0 && !LastIsRefused(r, [], fails) && !NextHasNoDest(r, [], fails)
  {
  }

  /** The first message of a batch, and the others. */
  lemma HandedStep(r: Index, frames: seq<Frame>, fails: Failures)
    requires frames != []
    ensures
      var dest := frames[0].Get(KEY_DESTINATION);
      var rest, more := frames[1..], RestOf(fails);
      if dest == "" then Handed(r, frames, fails) == 0 && NextHasNoDest(r, frames, fails) && !LastIsRefused(r, frames, fails)
      else if Refused(r, dest, FirstOf(fails)) then
        Handed(r, frames, fails) == 1 && !NextHasNoDest(r, frames, fails) && LastIsRefused(r, frames, fails)
      else
        && Handed(r, frames, fails) == 1 + Handed(r, rest, more)
        && (NextHasNoDest(r, frames, fails) <==> NextHasNoDest(r, rest, more))
        && (LastIsRefused(r, frames, fails) <==> LastIsRefused(r, rest, more))
  {
    hide Refused;
    var n := Handed(r, frames[1..], RestOf(fails));
    assert n > 0 ==> FailsAt(fails, n) == FailsAt(RestOf(fails), n - 1) && frames[n] == frames[1..][n - 1];
    assert FailsAt(fails, 0) == FirstOf(fails);
  }

  /** The message behind those handed out is there and has no destination. */
  ghost predicate NextHasNoDest(r: Index, frames: seq<Frame>, fails: Failures) {
    var n := Handed(r, frames, fails);
    !LastIsRefused(r, frames, fails) && n < |frames| && frames[n].Get(KEY_DESTINATION) == ""
  }

  /** The last message handed out was refused. */
  ghost predicate LastIsRefused(r: Index, frames: seq<Frame>, fails: Failures) {
    var n := Handed(r, frames, fails);
    n > 0 && Refused(r, frames[n - 1].Get(KEY_DESTINATION), FailsAt(fails, n - 1))
  }

  /** Who refuses the message at position `k` of a batch. */
  function FailsAt(fails: Failures, k: nat): set<string> {
    if k < |fails| then fails[k] else {}
  }

  lemma RefusedAlike(r: Index, r': Index, frames: seq<Frame>, fails: Failures)
    requires SameSubscribers(r, r')
    ensures LastIsRefused(r, frames, fails) == LastIsRefused(r', frames, fails)
    ensures NextHasNoDest(r, frames, fails) == NextHasNoDest(r', frames, fails)
  {
    HandedAlike(r, r', frames, fails);
  }

  /** When every send succeeds, a batch publishes what is deliverable, under its own tag. */
  lemma {:induction false} BatchTags(r: Index, frames: seq<Frame>, tag: string, fails: Failures)
    requires NoneFails(fails)
    ensures Tagged(PublishAll(r, frames, tag, fails).pubs, tag) == Deliverable(frames)
    decreases |frames|
  {
    if frames != [] && frames[0].Get(KEY_DESTINATION) != "" {
      var one := PublishTo(r, frames[0].Get(KEY_DESTINATION), {});
      BatchTags(one.index, frames[1..], tag, RestOf(fails));
      var rest := PublishAll(one.index, frames[1..], tag, RestOf(fails)).pubs;
      assert ([Pub(frames[0], tag)] + rest)[1..] == rest;
    }
  }

  /** Whatever sends fail, a batch publishes a first part of what is deliverable. */
  lemma {:induction false} BatchPrefix(r: Index, frames: seq<Frame>, tag: string, fails: Failures)
    ensures Tagged(PublishAll(r, frames, tag, fails).pubs, tag) <= Deliverable(frames)
    decreases |frames|
  {
    if frames != [] && frames[0].Get(KEY_DESTINATION) != "" {
      var one := PublishTo(r, frames[0].Get(KEY_DESTINATION), FirstOf(fails));
      BatchPrefix(one.index, frames[1..], tag, RestOf(fails));
      hide Tagged, PublishTo;
      TaggedStep(Pub(frames[0], tag), PublishAll(one.index, frames[1..], tag, RestOf(fails)).pubs, tag);
      TaggedStep(Pub(frames[0], tag), [], tag);
      TaggedNone(tag);
    } else {
      TaggedNone(tag);
    }
  }

  lemma TaggedNone(txID: string)
    ensures Tagged([], txID) == []
  {
  }

  /** The state of one transaction inside the broker. */
  function View(st: State, txID: string, out: seq<Frame>): TxView {
    if txID in st.tx then TxView(true, st.tx[txID], out) else TxView(false, [], out)
  }

  /** One broker step, seen from one transaction. */
  lemma StepAlone(st: State, i: Input, txID: string, out: seq<Frame>)
    requires txID != ""
    ensures var s := Step(st, i);
      var v := if Concerns(i.frame, txID) then TxStep(View(st, txID, out), i.frame) else View(st, txID, out);
      && View(s.state, txID, v.out) == v
      && out + Tagged(s.pubs, txID) <= v.out
      && ((Commits(i.frame, txID) ==> NoneFails(i.fails)) ==> out + Tagged(s.pubs, txID) == v.out)
  {
    hide Add, Remove, ProcessAck, Cleanup, PublishTo, PublishAll, Deliverable, Frame.Get;
    CommandsDiffer();
    var f := i.frame;
    var tag := f.Get(KEY_TRANSACTION);
    if f.command == CMD_SEND && tag == "" {
      BatchTagged(st.index, [f], "", i.fails);
      OtherTag(PublishAll(st.index, [f], "", i.fails).pubs, "", txID);
    } else if f.command == CMD_COMMIT && tag in st.tx {
      var pubs := PublishAll(st.index, st.tx[tag], tag, i.fails).pubs;
      BatchTagged(st.index, st.tx[tag], tag, i.fails);
      BatchPrefix(st.index, st.tx[tag], tag, i.fails);
      if NoneFails(i.fails) {
        BatchTags(st.index, st.tx[tag], tag, i.fails);
      }
      if tag != txID {
        OtherTag(pubs, tag, txID);
      }
    }
    assert out + [] == out;
    OtherCommands();
  }

  lemma {:induction false} OtherTag(pubs: seq<Pub>, tag: string, txID: string)
    requires tag != txID && forall p :: p in pubs ==> p.txID == tag
    ensures Tagged(pubs, txID) == []
  {
    if pubs != [] {
      OtherTag(pubs[1..], tag, txID);
    }
  }

  lemma OtherCommands()
    ensures CMD_SUBSCRIBE !in [CMD_BEGIN, CMD_SEND, CMD_COMMIT, CMD_ABORT]
    ensures CMD_UNSUBSCRIBE !in [CMD_BEGIN, CMD_SEND, CMD_COMMIT, CMD_ABORT]
    ensures CMD_ACK !in [CMD_BEGIN, CMD_SEND, CMD_COMMIT, CMD_ABORT]
    ensures CMD_DISCONNECT !in [CMD_BEGIN, CMD_SEND, CMD_COMMIT, CMD_ABORT]
  {
    assert |CMD_SUBSCRIBE| == 9 && |CMD_UNSUBSCRIBE| == 11 && |CMD_ACK| == 3 && |CMD_DISCONNECT| == 10;
    assert |CMD_BEGIN| == 5 && |CMD_SEND| == 4 && |CMD_COMMIT| == 6 && |CMD_ABORT| == 5;
  }

  /** Whatever else the sessions do in between, and whichever sends fail, a transaction is open and
      holds exactly what its own frames by themselves make it hold. When nobody refuses a message
      of its own commits, it has published exactly what they make it publish. */
  lemma {:induction false} TransactionAlone(inputs: seq<Input>, txID: string)
    requires txID != ""
    ensures var alone := TxRun(Related(inputs, txID));
      && View(Run(inputs), txID, alone.out) == alone
      && (CommitsReach(inputs, txID) ==> Tagged(Log(inputs), txID) == alone.out)
  {
    if inputs != [] {
      var n := |inputs| - 1;
      var init, i := inputs[..n], inputs[n];
      TransactionAlone(init, txID);
      hide Step;
      StepAlone(Run(init), i, txID, TxRun(Related(init, txID)).out);
      TaggedConcat(Log(init), Step(Run(init), i).pubs, txID);
      if Concerns(i.frame, txID) {
        TxSnoc(Related(init, txID), i.frame);
      }
      assert CommitsReach(inputs, txID) ==> CommitsReach(init, txID);
    }
  }

  /** A single commit publishes a first part of its buffer, in order, whichever sends fail. */
  lemma CommitPublishesPrefix(st: State, i: Input, txID: string)
    requires txID != "" && i.frame.command == CMD_COMMIT && i.frame.Get(KEY_TRANSACTION) == txID
    ensures Tagged(Step(st, i).pubs, txID) <= if txID in st.tx then Deliverable(st.tx[txID]) else []
  {
    hide Add, Remove, ProcessAck, Cleanup, PublishTo, PublishAll, Deliverable, Frame.Get, Tagged;
    CommandsDiffer();
    OtherCommands();
    TaggedNone(txID);
    if txID in st.tx {
      BatchPrefix(st.index, st.tx[txID], txID, i.fails);
    }
  }

  /** How a transaction's frames look when they come from one client transaction object. */
  predicate OneShot(frames: seq<Frame>, sends: seq<Frame>, ending: seq<Frame>) {
    && AllSends(sends)
    && |ending| <= 1
    && (forall i :: 0 <= i < |ending| ==> ending[i].command in [CMD_COMMIT, CMD_ABORT])
    && |frames| > 0 && frames[0].command == CMD_BEGIN && frames == [frames[0]] + sends + ending
  }

  /** A transaction that a client object begins, feeds and ends at most once holds what it was
      sent, whatever the other sessions do. It publishes nothing before it is committed and nothing
      when it is aborted; and when it is committed and nobody refuses its messages, it publishes
      them once, in order, up to the first without a destination. */
  lemma ClientTransaction(inputs: seq<Input>, txID: string, sends: seq<Frame>, ending: seq<Frame>)
    requires txID != "" && OneShot(Related(inputs, txID), sends, ending)
    ensures CommitsReach(inputs, txID) ==>
      Tagged(Log(inputs), txID) == if ending != [] && ending[0].command == CMD_COMMIT then Deliverable(sends) else []
    ensures txID in Run(inputs).tx <==> ending == [] || ending[0].command == CMD_COMMIT
    ensures txID in Run(inputs).tx ==> Run(inputs).tx[txID] == sends
  {
    hide Run, Log, Tagged, Related, TxRun, Deliverable;
    TransactionAlone(inputs, txID);
    OneShotRun(Related(inputs, txID), sends, ending);
  }

  lemma OneShotRun(frames: seq<Frame>, sends: seq<Frame>, ending: seq<Frame>)
    requires OneShot(frames, sends, ending)
    ensures TxRun(frames) ==
      if ending == [] then TxView(true, sends, [])
      else if ending[0].command == CMD_COMMIT then TxView(true, sends, Deliverable(sends))
      else IDLE
  {
    hide TxRun, Deliverable;
    CommandsDiffer();
    var begin := frames[0];
    if ending == [] {
      BeginThenSends(begin, sends);
      assert frames == [begin] + sends;
    } else if ending[0].command == CMD_COMMIT {
      CommitsRepeat(begin, sends, ending);
      assert Repeat(Deliverable(sends), 1) == Repeat(Deliverable(sends), 0) + Deliverable(sends);
    } else {
      AbortDiscards(begin, sends, ending[0]);
      assert ending == [ending[0]];
    }
  }

  /** Only a commit of a transaction publishes under its tag. */
  lemma OnlyCommitPublishes(st: State, i: Input, txID: string)
    requires txID != ""
    requires exists p :: p in Step(st, i).pubs && p.txID == txID
    ensures i.frame.command == CMD_COMMIT && i.frame.Get(KEY_TRANSACTION) == txID && txID in st.tx
  {
    hide Add, Remove, ProcessAck, Cleanup, PublishTo, PublishAll, Frame.Get;
    var f := i.frame;
    if f.command == CMD_SEND && f.Get(KEY_TRANSACTION) == "" {
      BatchTagged(st.index, [f], "", i.fails);
    } else if f.command == CMD_COMMIT && f.Get(KEY_TRANSACTION) in st.tx {
      BatchTagged(st.index, st.tx[f.Get(KEY_TRANSACTION)], f.Get(KEY_TRANSACTION), i.fails);
    }
  }

  lemma {:induction false} BatchTagged(r: Index, frames: seq<Frame>, tag: string, fails: Failures)
    ensures forall p :: p in PublishAll(r, frames, tag, fails).pubs ==> p.txID == tag
    decreases |frames|
  {
    hide PublishTo;
    if frames != [] {
      BatchTagged(PublishTo(r, frames[0].Get(KEY_DESTINATION), FirstOf(fails)).index, frames[1..], tag, RestOf(fails));
    }
  }

  // ---------- messages outside transactions ----------

  /** A SEND outside transactions that has a destination. */
  predicate PlainSend(f: Frame) {
    f.command == CMD_SEND && f.Get(KEY_TRANSACTION) == "" && f.Get(KEY_DESTINATION) != ""
  }

  function PlainSends(inputs: seq<Input>): seq<Frame> {
    if inputs == [] then []
    else
      var (init, f) := (inputs[..|inputs| - 1], inputs[|inputs| - 1].frame);
      if PlainSend(f) then PlainSends(init) + [f] else PlainSends(init)
  }

  /** What one step publishes outside transactions. */
  lemma StepPlain(st: State, i: Input)
    ensures Tagged(Step(st, i).pubs, "") == if PlainSend(i.frame) then [i.frame] else []
  {
    hide Add, Remove, ProcessAck, Cleanup, PublishTo, PublishAll, Frame.Get, Tagged;
    CommandsDiffer();
    OtherCommands();
    TaggedNone("");
    var f := i.frame;
    var tag := f.Get(KEY_TRANSACTION);
    if f.command == CMD_SEND && tag == "" {
      PublishOne(st.index, f, "", i.fails);
      PublishReplies(st.index, f.Get(KEY_DESTINATION), FirstOf(i.fails));
      TaggedStep(Pub(f, ""), [], "");
      assert [Pub(f, "")] + [] == [Pub(f, "")];
    } else if f.command == CMD_COMMIT && tag != "" && tag in st.tx {
      BatchTagged(st.index, st.tx[tag], tag, i.fails);
      OtherTag(PublishAll(st.index, st.tx[tag], tag, i.fails).pubs, tag, "");
    }
  }

  /** Whatever else the sessions do, and whoever refuses what, every SEND outside transactions with
      a destination is published once, in the order of arrival, and nothing else is. */
  lemma {:induction false} PlainSendsPublished(inputs: seq<Input>)
    ensures Tagged(Log(inputs), "") == PlainSends(inputs)
  {
    if inputs != [] {
      var n := |inputs| - 1;
      PlainSendsPublished(inputs[..n]);
      hide Step;
      StepPlain(Run(inputs[..n]), inputs[n]);
      TaggedConcat(Log(inputs[..n]), Step(Run(inputs[..n]), inputs[n]).pubs, "");
    }
  }

  /** A COMMIT publishes exactly the messages of its buffer that are handed out, in order. */
  lemma CommitExact(st: State, i: Input, txID: string)
    requires Commits(i.frame, txID)
    ensures Step(st, i).pubs ==
      if txID == "" || txID !in st.tx then [] else Pubs(st.tx[txID][..Handed(st.index, st.tx[txID], i.fails)], txID)
  {
    hide Add, Remove, ProcessAck, Cleanup, PublishTo, PublishAll, Frame.Get, Handed, Pubs;
    CommandsDiffer();
    OtherCommands();
    if txID in st.tx {
      BatchExact(st.index, st.tx[txID], txID, i.fails);
    }
  }

  // ---------- replies ----------

  /** When a command that feeds or ends a transaction is refused. */
  predicate TxRefused(st: State, f: Frame) {
    var txID := f.Get(KEY_TRANSACTION);
    || (f.command == CMD_SEND && txID != "" && txID !in st.tx)
    || (f.command == CMD_BEGIN && (txID == "" || txID in st.tx))
    || (f.command in [CMD_COMMIT, CMD_ABORT] && (txID == "" || txID !in st.tx))
  }

  /** What the broker answers to a frame; any answer but `Ok` ends the session. */
  lemma StepReplies(st: State, i: Input)
    ensures var (f, reply) := (i.frame, Step(st, i).reply);
      var (dest, txID) := (f.Get(KEY_DESTINATION), f.Get(KEY_TRANSACTION));
      if TxRefused(st, f) then reply == Err && Step(st, i).state == st && Step(st, i).pubs == []
      else if f.command == CMD_SEND && txID == "" then
        reply == if dest == "" then Err else if Refused(st.index, dest, FirstOf(i.fails)) then Hang else Ok
      else if f.command == CMD_COMMIT then
        && (reply == Err <==> NextHasNoDest(st.index, st.tx[txID], i.fails))
        && (reply == Hang <==> LastIsRefused(st.index, st.tx[txID], i.fails))
        && reply in {Ok, Err, Hang}
      else if f.command == CMD_SUBSCRIBE then reply == if f.Get(KEY_ID) == "" || dest == "" then Err else Ok
      else if f.command == CMD_UNSUBSCRIBE then reply == Remove(st.index, f.Get(KEY_ID)).reply
      else if f.command == CMD_ACK then reply == ProcessAck(st.index, f.Get(KEY_ID)).reply
      else if f.command == CMD_DISCONNECT then
        reply == if Cleanup(st.index, i.sess, i.order).reply == Reply.Trap then Reply.Trap else Ok
      else reply == Ok
  {
    hide Add, Remove, ProcessAck, Cleanup, PublishTo, PublishAll, Frame.Get, Refused, NextHasNoDest, LastIsRefused;
    CommandsDiffer();
    OtherCommands();
    var f := i.frame;
    var (dest, txID) := (f.Get(KEY_DESTINATION), f.Get(KEY_TRANSACTION));
    if f.command == CMD_SEND && txID == "" {
      PublishOne(st.index, f, "", i.fails);
      PublishReplies(st.index, dest, FirstOf(i.fails));
    } else if f.command == CMD_COMMIT && txID in st.tx {
      BatchExact(st.index, st.tx[txID], txID, i.fails);
    } else if f.command == CMD_SUBSCRIBE {
      AddReplies(Literal, st.index, dest, f.Get(KEY_ID), SubscribeMode(f.Get(KEY_ACK)), i.sess);
    }
  }

  /** No transaction has an empty id. */
  lemma {:induction false} TransactionsNamed(inputs: seq<Input>)
    ensures "" !in Run(inputs).tx
  {
    hide Add, Remove, ProcessAck, Cleanup, PublishTo, PublishAll, Frame.Get;
    if inputs != [] {
      TransactionsNamed(inputs[..|inputs| - 1]);
    }
  }

  // ---------- the index inside the broker ----------

  /** The calls on the index that one frame leads to. */
  ghost function OpsOf(st: State, i: Input): seq<RegistryRuns.Op> {
    var f := i.frame;
    if f.command == CMD_SUBSCRIBE then
      [RegistryRuns.Subscribe(f.Get(KEY_DESTINATION), f.Get(KEY_ID), SubscribeMode(f.Get(KEY_ACK)), i.sess)]
    else if f.command == CMD_UNSUBSCRIBE then [RegistryRuns.Unsubscribe(f.Get(KEY_ID))]
    else if f.command == CMD_ACK then [RegistryRuns.Acknowledge(f.Get(KEY_ID))]
    else if f.command == CMD_DISCONNECT then [RegistryRuns.Disconnect(i.sess, i.order)]
    else if f.command == CMD_SEND then
      if f.Get(KEY_TRANSACTION) == "" && f.Get(KEY_DESTINATION) != "" then
        [RegistryRuns.Publish(f.Get(KEY_DESTINATION), FirstOf(i.fails))]
      else []
    else if f.command == CMD_COMMIT && f.Get(KEY_TRANSACTION) != "" && f.Get(KEY_TRANSACTION) in st.tx then
      var queue := st.tx[f.Get(KEY_TRANSACTION)];
      PublishOps(queue[..Handed(st.index, queue, i.fails)], i.fails)
    else []
  }

  function PublishOps(frames: seq<Frame>, fails: Failures): seq<RegistryRuns.Op> {
    if frames == [] then []
    else [RegistryRuns.Publish(frames[0].Get(KEY_DESTINATION), FirstOf(fails))] + PublishOps(frames[1..], RestOf(fails))
  }

  ghost function AllOps(inputs: seq<Input>): seq<RegistryRuns.Op> {
    if inputs == [] then []
    else AllOps(inputs[..|inputs| - 1]) + OpsOf(Run(inputs[..|inputs| - 1]), inputs[|inputs| - 1])
  }

  function Steps(r: Index, ops: seq<RegistryRuns.Op>): Index
    decreases |ops|
  {
    if ops == [] then r else Steps(RegistryRuns.Step(Literal, r, ops[0]).index, ops[1..])
  }

  lemma {:induction false} RunThenSteps(a: seq<RegistryRuns.Op>, b: seq<RegistryRuns.Op>)
    ensures RegistryRuns.Run(Literal, a + b) == Steps(RegistryRuns.Run(Literal, a), b)
    decreases |b|
  {
    hide RegistryRuns.Step;
    if b == [] {
      assert a + b == a;
    } else {
      RunThenSteps(a + [b[0]], b[1..]);
      assert a + b == a + [b[0]] + b[1..];
      assert (a + [b[0]])[..|a|] == a;
    }
  }

  lemma {:induction false} BatchSteps(r: Index, frames: seq<Frame>, tag: string, fails: Failures)
    ensures PublishAll(r, frames, tag, fails).index == Steps(r, PublishOps(frames[..Handed(r, frames, fails)], fails))
    decreases |frames|
  {
    hide PublishTo, Refused;
    if frames != [] && frames[0].Get(KEY_DESTINATION) != "" {
      var dest := frames[0].Get(KEY_DESTINATION);
      var one, op := PublishTo(r, dest, FirstOf(fails)), RegistryRuns.Publish(dest, FirstOf(fails));
      PublishReplies(r, dest, FirstOf(fails));
      var rest, more := frames[1..], RestOf(fails);
      var n := if one.reply == Ok then Handed(r, rest, more) else 0;
      if one.reply == Ok {
        BatchSteps(one.index, rest, tag, more);
        PublishedOne(r, dest, FirstOf(fails));
        HandedAlike(r, one.index, rest, more);
      } else {
        assert PublishOps(rest[..0], more) == [] by { assert rest[..0] == []; }
      }
      assert frames[..n + 1] == [frames[0]] + rest[..n];
      assert ([frames[0]] + rest[..n])[1..] == rest[..n];
      StepsCons(r, op, PublishOps(rest[..n], more));
    } else {
      NoPublication(r, frames, tag, fails);
    }
  }

  lemma NoPublication(r: Index, frames: seq<Frame>, tag: string, fails: Failures)
    requires frames == [] || frames[0].Get(KEY_DESTINATION) == ""
    ensures PublishAll(r, frames, tag, fails).index == r && PublishOps(frames[..0], fails) == [] && Steps(r, []) == r
  {
  }

  lemma StepsCons(r: Index, op: RegistryRuns.Op, ops: seq<RegistryRuns.Op>)
    ensures Steps(r, [op] + ops) == Steps(RegistryRuns.Step(Literal, r, op).index, ops)
  {
    hide RegistryRuns.Step;
    assert ([op] + ops)[1..] == ops;
  }

  /** One frame changes the index as the calls it leads to do. */
  lemma StepRefines(st: State, i: Input)
    ensures Step(st, i).state.index == Steps(st.index, OpsOf(st, i))
  {
    hide Add, Remove, ProcessAck, Cleanup, PublishTo, PublishAll, Frame.Get, Handed;
    OtherCommands();
    CommandsDiffer();
    var f := i.frame;
    var ops := OpsOf(st, i);
    if f.command in [CMD_SUBSCRIBE, CMD_UNSUBSCRIBE, CMD_ACK, CMD_DISCONNECT] {
      assert ops == [ops[0]] && ops[1..] == [];
    } else if f.command == CMD_SEND {
      if f.Get(KEY_TRANSACTION) == "" {
        SendSteps(st.index, f, i.fails);
      }
    } else if f.command == CMD_COMMIT && f.Get(KEY_TRANSACTION) in st.tx {
      BatchSteps(st.index, st.tx[f.Get(KEY_TRANSACTION)], f.Get(KEY_TRANSACTION), i.fails);
    }
  }

  /** A SEND outside transactions is one publication on the index. */
  lemma SendSteps(r: Index, f: Frame, fails: Failures)
    ensures PublishAll(r, [f], "", fails).index ==
      Steps(r, if f.Get(KEY_DESTINATION) == "" then [] else [RegistryRuns.Publish(f.Get(KEY_DESTINATION), FirstOf(fails))])
  {
    hide PublishAll, PublishTo;
    var dest := f.Get(KEY_DESTINATION);
    PublishOne(r, f, "", fails);
    PublishReplies(r, dest, FirstOf(fails));
    StepsCons(r, RegistryRuns.Publish(dest, FirstOf(fails)), []);
    NoDestination(r, FirstOf(fails));
  }

  lemma NoDestination(r: Index, fails: set<string>)
    ensures PublishTo(r, "", fails).index == r
  {
  }

  /** The broker's index after any run is the index after a run of its calls under the guard as
      written. So everything proved of runs of the index holds inside the broker. */
  lemma {:induction false} BrokerRefinesIndex(inputs: seq<Input>)
    ensures Run(inputs).index == RegistryRuns.Run(Literal, AllOps(inputs))
  {
    if inputs != [] {
      var n := |inputs| - 1;
      BrokerRefinesIndex(inputs[..n]);
      StepRefines(Run(inputs[..n]), inputs[n]);
      RunThenSteps(AllOps(inputs[..n]), OpsOf(Run(inputs[..n]), inputs[n]));
    }
  }

  // ---------- the three maps inside the broker ----------

  /** A session that disconnects lists the set it has at that moment. */
  predicate TrueListing(st: State, i: Input) {
    i.frame.command == CMD_DISCONNECT && i.sess in st.index.sessToSubs ==> Lists(i.order, st.index.sessToSubs[i.sess])
  }

  predicate Subscribes(f: Frame) {
    f.command == CMD_SUBSCRIBE && f.Get(KEY_ID) != "" && f.Get(KEY_DESTINATION) != ""
  }

  /** An accepted SUBSCRIBE fits the index it meets. */
  predicate Fits(st: State, i: Input) {
    Subscribes(i.frame) ==> AddFits(Literal, st.index, i.frame.Get(KEY_DESTINATION), i.frame.Get(KEY_ID), i.sess)
  }

  lemma {:induction false} BatchConsistent(r: Index, frames: seq<Frame>, tag: string, fails: Failures)
    ensures Consistent(r) ==> Consistent(PublishAll(r, frames, tag, fails).index)
    ensures PublishAll(r, frames, tag, fails).index.subsToDest == r.subsToDest
    decreases |frames|
  {
    hide PublishTo, Consistent;
    if frames != [] {
      var dest := frames[0].Get(KEY_DESTINATION);
      PublishExact(r, dest, FirstOf(fails));
      BatchConsistent(PublishTo(r, dest, FirstOf(fails)).index, frames[1..], tag, RestOf(fails));
    }
  }

  /** One frame keeps the three maps in agreement exactly when it is not a SUBSCRIBE that does not fit. */
  lemma StepConsistent(st: State, i: Input)
    requires Consistent(st.index) && TrueListing(st, i)
    ensures Consistent(Step(st, i).state.index) <==> Fits(st, i)
  {
    hide Consistent, Add, Remove, ProcessAck, Cleanup, PublishTo, PublishAll, AddFits, Frame.Get;
    OtherCommands();
    var f := i.frame;
    if f.command in [CMD_SUBSCRIBE, CMD_UNSUBSCRIBE, CMD_ACK, CMD_DISCONNECT] {
      RegistryRuns.StepExact(Literal, st.index, OpsOf(st, i)[0]);
    } else if f.command == CMD_SEND {
      BatchConsistent(st.index, [f], "", i.fails);
    } else if f.command == CMD_COMMIT && f.Get(KEY_TRANSACTION) in st.tx {
      BatchConsistent(st.index, st.tx[f.Get(KEY_TRANSACTION)], f.Get(KEY_TRANSACTION), i.fails);
    }
  }

  /** The true listings of a run. */
  predicate Feasible(inputs: seq<Input>) {
    forall k :: 0 <= k < |inputs| ==> TrueListing(Run(inputs[..k]), inputs[k])
  }

  lemma RunSnoc(inputs: seq<Input>, k: nat)
    requires k < |inputs|
    ensures Run(inputs[..k + 1]) == Step(Run(inputs[..k]), inputs[k]).state
  {
    hide Step;
    assert inputs[..k + 1][..k] == inputs[..k];
  }

  /** The broker's three maps agree throughout a run exactly when every SUBSCRIBE fits when it is made. */
  lemma {:induction false} BrokerConsistent(inputs: seq<Input>, n: nat)
    requires Feasible(inputs) && n <= |inputs|
    ensures (forall k :: 0 <= k <= n ==> Consistent(Run(inputs[..k]).index))
      <==> (forall k :: 0 <= k < n ==> Fits(Run(inputs[..k]), inputs[k]))
  {
    hide Consistent, Run, Step, Fits;
    if n == 0 {
      StartConsistent(inputs);
    } else {
      BrokerConsistent(inputs, n - 1);
      RunSnoc(inputs, n - 1);
      if Consistent(Run(inputs[..n - 1]).index) {
        StepConsistent(Run(inputs[..n - 1]), inputs[n - 1]);
      }
    }
  }

  lemma StartConsistent(inputs: seq<Input>)
    ensures Consistent(Run(inputs[..0]).index)
  {
    assert inputs[..0] == [];
    RegistryRuns.EmptyConsistent();
  }

  /** Every SUBSCRIBE carries an id that no earlier one carried, as a client's UUIDs do. */
  predicate FreshIds(inputs: seq<Input>) {
    forall i, j :: 0 <= i < j < |inputs| && Subscribes(inputs[i].frame) && Subscribes(inputs[j].frame) ==>
      inputs[i].frame.Get(KEY_ID) != inputs[j].frame.Get(KEY_ID)
  }

  /** A SUBSCRIBE to a destination that has a subscriber already. */
  predicate Crowds(st: State, i: Input) {
    Subscribes(i.frame) && i.frame.Get(KEY_DESTINATION) in st.index.destToSubs
  }

  /** A subscription on record was made by some SUBSCRIBE. */
  lemma {:induction false} OnRecordWasMade(inputs: seq<Input>, id: string)
    requires id in Run(inputs).index.subsToDest
    ensures exists k :: 0 <= k < |inputs| && Subscribes(inputs[k].frame) && inputs[k].frame.Get(KEY_ID) == id
  {
    hide Step, Frame.Get;
    var n := |inputs| - 1;
    var init := inputs[..n];
    StepRecords(Run(init), inputs[n], id);
    if !(Subscribes(inputs[n].frame) && inputs[n].frame.Get(KEY_ID) == id) {
      OnRecordWasMade(init, id);
      var k :| 0 <= k < |init| && Subscribes(init[k].frame) && init[k].frame.Get(KEY_ID) == id;
      assert inputs[k] == init[k];
    }
  }

  lemma StepRecords(st: State, i: Input, id: string)
    requires id in Step(st, i).state.index.subsToDest
    ensures id in st.index.subsToDest || (Subscribes(i.frame) && i.frame.Get(KEY_ID) == id)
  {
    hide Add, Remove, ProcessAck, Cleanup, PublishTo, PublishAll, Frame.Get;
    OtherCommands();
    var f := i.frame;
    if f.command in [CMD_SUBSCRIBE, CMD_UNSUBSCRIBE, CMD_ACK, CMD_DISCONNECT] {
      var op := OpsOf(st, i)[0];
      RegistryRuns.StepRecords(Literal, st.index, op, id);
      if f.command == CMD_SUBSCRIBE && !Subscribes(f) {
        RegistryRuns.AddRefuses(Literal, st.index, op.dest, op.id, op.ackMode, op.sess);
      }
    } else if f.command == CMD_SEND {
      BatchConsistent(st.index, [f], "", i.fails);
    } else if f.command == CMD_COMMIT && f.Get(KEY_TRANSACTION) in st.tx {
      BatchConsistent(st.index, st.tx[f.Get(KEY_TRANSACTION)], f.Get(KEY_TRANSACTION), i.fails);
    }
  }

  /** With fresh ids, the broker's three maps agree throughout a run exactly as long as nobody
      subscribes to a destination that has a subscriber. */
  lemma FreshBrokerConsistent(inputs: seq<Input>, n: nat)
    requires Feasible(inputs) && FreshIds(inputs) && n <= |inputs|
    ensures (forall k :: 0 <= k <= n ==> Consistent(Run(inputs[..k]).index))
      <==> (forall k :: 0 <= k < n ==> !Crowds(Run(inputs[..k]), inputs[k]))
  {
    hide Consistent, Run, Frame.Get;
    BrokerConsistent(inputs, n);
    forall k | 0 <= k < n ensures Fits(Run(inputs[..k]), inputs[k]) <==> !Crowds(Run(inputs[..k]), inputs[k]) {
      if Subscribes(inputs[k].frame) {
        FreshIsNew(inputs, k);
      }
    }
  }

  lemma FreshIsNew(inputs: seq<Input>, k: nat)
    requires FreshIds(inputs) && k < |inputs| && Subscribes(inputs[k].frame)
    ensures inputs[k].frame.Get(KEY_ID) !in Run(inputs[..k]).index.subsToDest
  {
    hide Run, Frame.Get;
    var id := inputs[k].frame.Get(KEY_ID);
    if id in Run(inputs[..k]).index.subsToDest {
      OnRecordWasMade(inputs[..k], id);
      assert false;
    }
  }

  // ---------- acknowledgement modes inside the broker ----------

  /** The mode a subscriber asks for; none asked for means `auto`. */
  function RequestedMode(header: string): string {
    if header == "" then ACK_AUTO else header
  }

  /** The dispatch passes on the mode asked for exactly when `auto` is asked for by name. */
  lemma ModeExact(header: string)
    ensures SubscribeMode(header) == RequestedMode(header) <==> header == ACK_AUTO
  {
    assert ACK_AUTO != "";
  }

  predicate InertOps(ops: seq<RegistryRuns.Op>) {
    forall k :: 0 <= k < |ops| && ops[k].Subscribe? ==> ops[k].ackMode in [ACK_AUTO, ""]
  }

  lemma {:induction false} OpsInert(inputs: seq<Input>)
    ensures InertOps(AllOps(inputs))
  {
    if inputs != [] {
      var n := |inputs| - 1;
      OpsInert(inputs[..n]);
      var st, i := Run(inputs[..n]), inputs[n];
      hide Step, Handed;
      CommandsDiffer();
      OtherCommands();
      if i.frame.command == CMD_COMMIT && i.frame.Get(KEY_TRANSACTION) in st.tx {
        var queue := st.tx[i.frame.Get(KEY_TRANSACTION)];
        PublishOpsInert(queue[..Handed(st.index, queue, i.fails)], i.fails);
      }
    }
  }

  lemma {:induction false} PublishOpsInert(frames: seq<Frame>, fails: Failures)
    ensures forall k :: 0 <= k < |PublishOps(frames, fails)| ==> PublishOps(frames, fails)[k].Publish?
  {
    if frames != [] {
      PublishOpsInert(frames[1..], RestOf(fails));
    }
  }

  lemma {:induction false} InertModes(ops: seq<RegistryRuns.Op>, dest: string, id: string)
    requires InertOps(ops) && Under(RegistryRuns.Run(Literal, ops), dest, id)
    ensures RegistryRuns.Run(Literal, ops).destToSubs[dest][id].ackMode in [ACK_AUTO, ""]
  {
    if ops != [] {
      var n := |ops| - 1;
      var r := RegistryRuns.Run(Literal, ops[..n]);
      assert RegistryRuns.Run(Literal, ops) == RegistryRuns.Step(Literal, r, ops[n]).index;
      assert InertOps(ops[..n]) by {
        assert forall k :: 0 <= k < n ==> ops[..n][k] == ops[k];
      }
      StepKeepsMode(r, ops[n], dest, id);
      if Under(r, dest, id) {
        InertModes(ops[..n], dest, id);
      }
    }
  }

  lemma StepKeepsMode(r: Index, op: RegistryRuns.Op, dest: string, id: string)
    requires Under(RegistryRuns.Step(Literal, r, op).index, dest, id)
    ensures var info := RegistryRuns.Step(Literal, r, op).index.destToSubs[dest][id];
      (op.Subscribe? && info.ackMode == op.ackMode) || (Under(r, dest, id) && info.ackMode == r.destToSubs[dest][id].ackMode)
  {
    RegistryRuns.StepLedger(Literal, r, op, dest, id);
    hide ScanAckNum, Add, Remove, Cleanup, PublishTo, ProcessAck;
    if op.Subscribe? && (op.dest == "" || op.id == "") {
      RefusedSubscribe(r, op);
    }
  }

  lemma RefusedSubscribe(r: Index, op: RegistryRuns.Op)
    requires op.Subscribe? && (op.dest == "" || op.id == "")
    ensures RegistryRuns.Step(Literal, r, op).index == r
  {
  }

  /** In every reachable state of the broker an acknowledgement changes nothing: the dispatch
      never hands a client mode to the index. */
  lemma AcksAreInert(inputs: seq<Input>, ackVal: string)
    ensures ProcessAck(Run(inputs).index, ackVal).index == Run(inputs).index
  {
    BrokerRefinesIndex(inputs);
    OpsInert(inputs);
    var r := Run(inputs).index;
    var scan := ScanAckNum(ackVal);
    if scan.Scanned? && Under(r, scan.dest, scan.subsID) {
      InertModes(AllOps(inputs), scan.dest, scan.subsID);
      InertAck(r.destToSubs[scan.dest][scan.subsID], scan.ackNum);
      assert r.destToSubs[scan.dest][scan.subsID := r.destToSubs[scan.dest][scan.subsID]] == r.destToSubs[scan.dest];
    }
  }

  lemma InertAck(info: SubsInfo, n: nat)
    requires info.ackMode in [ACK_AUTO, ""]
    ensures AfterAck(info, n) == info
  {
    assert |ACK_AUTO| == 4 && |ACK_CLIENT| == 6 && |ACK_INDIVIDUAL| == 17;
  }
}
