/**
 Transactions (transaction.go): the buffer of every transaction, and what one transaction
 does by itself.
 */
module Transactions {
  import opened Names
  import opened Serializer
  import opened Registry

  type Buffers = map<string, seq<Frame>>

  /** The package's buffer map, updated in place. */
  class TxBuffer {
    var txBuffer: Buffers

    constructor ()
      ensures txBuffer == map[]
    {
      txBuffer := map[];
    }

    method StartTx(txID: string) returns (reply: Reply)
      modifies this
      ensures txBuffer == if reply == Ok then old(txBuffer)[txID := []] else old(txBuffer)
      ensures reply == if txID != "" && txID !in old(txBuffer) then Ok else Err
    {
      if txID == "" {
        return Err;
      }
      if txID in txBuffer {
        return Err;
      }
      txBuffer := txBuffer[txID := []];
      return Ok;
    }

    method BufferTxMessage(txID: string, msgFrame: Frame) returns (reply: Reply)
      modifies this
      ensures reply == if txID in old(txBuffer) then Ok else Err
      ensures txBuffer == if reply == Ok then old(txBuffer)[txID := old(txBuffer)[txID] + [msgFrame]] else old(txBuffer)
    {
      if txID !in txBuffer {
        return Err;
      }
      txBuffer := txBuffer[txID := txBuffer[txID] + [msgFrame]];
      return Ok;
    }

    method DropTx(txID: string) returns (reply: Reply)
      modifies this
      ensures reply == if txID != "" && txID in old(txBuffer) then Ok else Err
      ensures txBuffer == if reply == Ok then old(txBuffer) - {txID} else old(txBuffer)
    {
      if txID == "" {
        return Err;
      }
      if txID !in txBuffer {
        return Err;
      }
      txBuffer := txBuffer - {txID};
      return Ok;
    }
  }

  // ---------- one transaction by itself ----------

  /** The messages of a buffer that a commit publishes: up to the first one without a destination. */
  function Deliverable(frames: seq<Frame>): seq<Frame> {
    if frames == [] || frames[0].Get(KEY_DESTINATION) == "" then [] else [frames[0]] + Deliverable(frames[1..])
  }

  /** Whether a transaction is open, what it holds, and what it has published so far. */
  datatype TxView = TxView(open: bool, buffer: seq<Frame>, out: seq<Frame>)

  const IDLE: TxView := TxView(false, [], [])

  function TxStep(v: TxView, f: Frame): TxView {
    if f.command == CMD_BEGIN then
      if v.open then v else TxView(true, [], v.out)
    else if !v.open then v
    else if f.command == CMD_SEND then v.(buffer := v.buffer + [f])
    else if f.command == CMD_COMMIT then v.(out := v.out + Deliverable(v.buffer))
    else if f.command == CMD_ABORT then TxView(false, [], v.out)
    else v
  }

  function TxRun(frames: seq<Frame>): TxView {
    if frames == [] then IDLE else TxStep(TxRun(frames[..|frames| - 1]), frames[|frames| - 1])
  }

  lemma TxSnoc(frames: seq<Frame>, f: Frame)
    ensures TxRun(frames + [f]) == TxStep(TxRun(frames), f)
  {
    assert (frames + [f])[..|frames|] == frames;
  }

  predicate AllSends(frames: seq<Frame>) {
    forall i :: 0 <= i < |frames| ==> frames[i].command == CMD_SEND
  }

  lemma CommandsDiffer()
    ensures CMD_BEGIN[0] == 'B' && CMD_SEND[0] == 'S' && CMD_COMMIT[0] == 'C' && CMD_ABORT[0] == 'A'
  {
  }

  lemma {:induction false} BeginThenSends(begin: Frame, sends: seq<Frame>)
    requires begin.command == CMD_BEGIN && AllSends(sends)
    ensures TxRun([begin] + sends) == TxView(true, sends, [])
    decreases |sends|
  {
    CommandsDiffer();
    if sends == [] {
      assert [begin] + sends == [] + [begin];
      TxSnoc([], begin);
    } else {
      var n := |sends| - 1;
      BeginThenSends(begin, sends[..n]);
      TxSnoc([begin] + sends[..n], sends[n]);
      assert [begin] + sends == [begin] + sends[..n] + [sends[n]];
      assert sends == sends[..n] + [sends[n]];
    }
  }

  function Repeat(frames: seq<Frame>, k: nat): seq<Frame> {
    if k == 0 then [] else Repeat(frames, k - 1) + frames
  }

  predicate AllCommits(frames: seq<Frame>) {
    forall i :: 0 <= i < |frames| ==> frames[i].command == CMD_COMMIT
  }

  /** A commit does not close its transaction: committed `k` times, it publishes `k` times over. */
  lemma {:induction false} CommitsRepeat(begin: Frame, sends: seq<Frame>, commits: seq<Frame>)
    requires begin.command == CMD_BEGIN && AllSends(sends) && AllCommits(commits)
    ensures TxRun([begin] + sends + commits) == TxView(true, sends, Repeat(Deliverable(sends), |commits|))
    decreases |commits|
  {
    CommandsDiffer();
    if commits == [] {
      BeginThenSends(begin, sends);
      assert [begin] + sends + commits == [begin] + sends;
    } else {
      var n := |commits| - 1;
      CommitsRepeat(begin, sends, commits[..n]);
      TxSnoc([begin] + sends + commits[..n], commits[n]);
      assert [begin] + sends + commits == [begin] + sends + commits[..n] + [commits[n]];
    }
  }

  /** An aborted transaction that was never committed has published nothing. */
  lemma AbortDiscards(begin: Frame, sends: seq<Frame>, abort: Frame)
    requires begin.command == CMD_BEGIN && AllSends(sends) && abort.command == CMD_ABORT
    ensures TxRun([begin] + sends + [abort]) == IDLE
  {
    CommandsDiffer();
    BeginThenSends(begin, sends);
    TxSnoc([begin] + sends, abort);
  }

  /** A commit publishes the whole buffer exactly when every message in it has a destination. */
  lemma {:induction false} DeliverableAll(frames: seq<Frame>)
    ensures Deliverable(frames) == frames <==> forall i :: 0 <= i < |frames| ==> frames[i].Get(KEY_DESTINATION) != ""
    ensures Deliverable(frames) <= frames
  {
    if frames != [] {
      DeliverableAll(frames[1..]);
      assert frames == [frames[0]] + frames[1..];
      assert |Deliverable(frames)| == |frames| ==> frames[0].Get(KEY_DESTINATION) != "" && |Deliverable(frames[1..])| == |frames[1..]|;
      if Deliverable(frames) == frames {
        assert Deliverable(frames[1..]) == Deliverable(frames)[1..];
      }
    }
  }

  // ---------- what a buffer holds ----------

  predicate NoAbortFrom(frames: seq<Frame>, i: nat) {
    forall k :: i <= k < |frames| ==> frames[k].command != CMD_ABORT
  }

  /** Some BEGIN was not followed by an ABORT. */
  ghost predicate Begun(frames: seq<Frame>) {
    exists i :: 0 <= i < |frames| && frames[i].command == CMD_BEGIN && NoAbortFrom(frames, i)
  }

  /** The BEGIN that opened the transaction as it stands: not aborted since, and accepted, because
      the transaction was not open before it. */
  ghost predicate OpenedAt(frames: seq<Frame>, i: nat) {
    i < |frames| && frames[i].command == CMD_BEGIN && NoAbortFrom(frames, i) && !Begun(frames[..i])
  }

  function SendsIn(frames: seq<Frame>): seq<Frame> {
    if frames == [] then []
    else
      var (init, f) := (frames[..|frames| - 1], frames[|frames| - 1]);
      if f.command == CMD_SEND then SendsIn(init) + [f] else SendsIn(init)
  }

  lemma BegunStep(frames: seq<Frame>)
    requires frames != []
    ensures
      var (init, f) := (frames[..|frames| - 1], frames[|frames| - 1]);
      Begun(frames) <==> f.command == CMD_BEGIN || (f.command != CMD_ABORT && Begun(init))
  {
    CommandsDiffer();
    var n := |frames| - 1;
    var init := frames[..n];
    if i :| 0 <= i < |frames| && frames[i].command == CMD_BEGIN && NoAbortFrom(frames, i) {
      assert i < n ==> init[i].command == CMD_BEGIN && NoAbortFrom(init, i);
    }
    if i :| 0 <= i < n && init[i].command == CMD_BEGIN && NoAbortFrom(init, i) {
      assert frames[n].command != CMD_ABORT ==> frames[i].command == CMD_BEGIN && NoAbortFrom(frames, i);
    }
    if frames[n].command == CMD_BEGIN {
      assert NoAbortFrom(frames, n);
    }
  }

  /** A transaction is open exactly when one of its BEGINs was not followed by an ABORT. */
  lemma {:induction false} OpenExact(frames: seq<Frame>)
    ensures TxRun(frames).open <==> Begun(frames)
  {
    if frames != [] {
      CommandsDiffer();
      BegunStep(frames);
      OpenExact(frames[..|frames| - 1]);
    }
  }

  /** An open buffer holds, in order, the SENDs since the BEGIN that opened it. */
  lemma {:induction false} BufferExact(frames: seq<Frame>, i: nat)
    requires OpenedAt(frames, i)
    ensures TxRun(frames).open && TxRun(frames).buffer == SendsIn(frames[i + 1..])
    decreases |frames|
  {
    CommandsDiffer();
    var n := |frames| - 1;
    var init := frames[..n];
    if i == n {
      OpenExact(init);
      assert frames[i + 1..] == [];
    } else {
      assert init[..i] == frames[..i];
      assert forall k :: i <= k < n ==> init[k] == frames[k];
      BufferExact(init, i);
      assert frames[i + 1..][..n - i - 1] == init[i + 1..];
      assert frames[n].command != CMD_ABORT;
    }
  }
}
