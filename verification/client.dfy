/**
 What a client sends (client.go:325-416): SEND frames with their content-length, and the
 life of a transaction object.
 */
module Client {
  import opened Wrappers
  import opened Names
  import opened GoStrings
  import opened Escaping
  import opened Sorting
  import opened Serializer
  import opened WireFraming
  import opened StreamRoundTrip
  import opened Heartbeat
  import opened Transactions
  import opened BrokerRuns
  import opened Broker
  import opened Registry

  // ---------- SEND ----------

  function SendHeaders(dest: string, body: string, contentType: string): Headers {
    map[KEY_DESTINATION := dest, KEY_CONTENT_TYPE := contentType, KEY_CONTENT_LENGTH := Itoa(|body|)]
  }

  /** The frame of `ClientHandler.Send`; custom headers win over the client's own. */
  function SendFrame(dest: string, body: string, contentType: string, custom: Headers): Frame {
    Frame(CMD_SEND, Some(SendHeaders(dest, body, contentType) + custom), Some(body))
  }

  /** A SEND to a destination: the custom headers as they are, the client's own where no custom
      header has their name, and no others. */
  predicate Addressed(f: Frame, dest: string, body: string, contentType: string, custom: Headers) {
    var h := f.HeaderMap();
    && f.command == CMD_SEND && f.headers.Some? && f.body == Some(body)
    && h.Keys == custom.Keys + {KEY_DESTINATION, KEY_CONTENT_TYPE, KEY_CONTENT_LENGTH}
    && (forall k :: k in custom ==> h[k] == custom[k])
    && (KEY_DESTINATION !in custom ==> h[KEY_DESTINATION] == dest)
    && (KEY_CONTENT_TYPE !in custom ==> h[KEY_CONTENT_TYPE] == contentType)
    && (KEY_CONTENT_LENGTH !in custom ==> Atoi(h[KEY_CONTENT_LENGTH]) == Some(|body|))
  }

  lemma SendSays(dest: string, body: string, contentType: string, custom: Headers)
    requires |body| <= INT_MAX
    ensures Addressed(SendFrame(dest, body, contentType, custom), dest, body, contentType, custom)
  {
    hide Atoi, Itoa;
    AtoiOfItoa(|body|);
    assert |KEY_DESTINATION| == 11 && |KEY_CONTENT_TYPE| == 12 && |KEY_CONTENT_LENGTH| == 14;
  }

  method BuildSend(dest: string, body: string, contentType: string, custom: Headers) returns (f: Frame)
    ensures f == SendFrame(dest, body, contentType, custom)
    ensures |body| <= INT_MAX ==> Addressed(f, dest, body, contentType, custom)
  {
    if |body| <= INT_MAX {
      SendSays(dest, body, contentType, custom);
    }
    var h := SendHeaders(dest, body, contentType);
    ghost var own := h;
    var todo := custom.Keys;
    while todo != {}
      invariant todo <= custom.Keys
      invariant h == own + (custom - todo)
      decreases todo
    {
      var k :| k in todo;
      h := h[k := custom[k]];
      todo := todo - {k};
      assert h == own + (custom - todo);
    }
    assert custom - {} == custom;
    return Frame(CMD_SEND, Some(h), Some(body));
  }

  predicate CleanMap(headers: Headers) {
    forall k :: k in headers ==> CleanText(k) && CleanText(headers[k])
  }

  /** Custom content-length keys, in whatever capitals: one in small letters has to fit the
      body, and the others only have to be numbers. */
  predicate LengthsFit(custom: Headers, body: string) {
    forall k :: k in custom && IsContentLength(k) ==>
      if k == KEY_CONTENT_LENGTH then LengthFits(custom[k], body) else Atoi(custom[k]).Some?
  }

  /** A SEND of clean texts survives any stream, whatever bytes but carriage returns its body
      holds, exactly when its custom content-length headers fit. */
  lemma SendWellFormed(dest: string, body: string, contentType: string, custom: Headers)
    requires CleanText(dest) && CleanText(contentType) && CleanMap(custom) && CR !in body && |body| <= INT_MAX
    ensures WellFormed(SendFrame(dest, body, contentType, custom)) <==> LengthsFit(custom, body)
  {
    hide IsContentLength, Faithful, BodyLength, Atoi, Itoa;
    SendFaithful(dest, body, contentType, custom);
    var f := SendFrame(dest, body, contentType, custom);
    var headers := f.HeaderMap();
    assert headers == SendHeaders(dest, body, contentType) + custom;
    BodyLengthExact(f);
    IsLengthKey();
    OtherKey(KEY_CONTENT_TYPE);
    OtherKey(KEY_DESTINATION);
    AtoiOfItoa(|body|);
    assert forall k :: k in headers && IsContentLength(k) ==> k == KEY_CONTENT_LENGTH || k in custom;
    assert CMD_SEND != "";
  }

  lemma SendFaithful(dest: string, body: string, contentType: string, custom: Headers)
    requires CleanText(dest) && CleanText(contentType) && CleanMap(custom) && CR !in body
    ensures Faithful(SendFrame(dest, body, contentType, custom))
  {
    hide Safe, Itoa;
    FixedTextClean(KEY_DESTINATION);
    FixedTextClean(KEY_CONTENT_TYPE);
    FixedTextClean(KEY_CONTENT_LENGTH);
    FixedTextClean(CMD_SEND);
    ItoaChars(|body|, CR);
    ItoaChars(|body|, BACKSLASH);
    PlainIsSafe(Itoa(|body|));
  }

  /** A client's SEND outside transactions, once received, is published as one message, to the
      subscribers of its destination, with its body. */
  lemma SendPublished(st: State, sess: string, fails: Failures, dest: string, body: string, contentType: string, custom: Headers)
    requires CleanText(dest) && CleanText(contentType) && CleanMap(custom) && CR !in body
    requires LengthsFit(custom, body) && |Wire(SendFrame(dest, body, contentType, custom))| <= INT_MAX
    requires dest != "" && KEY_DESTINATION !in custom && KEY_TRANSACTION !in custom
    ensures
      var s := Step(st, Input(sess, Received(SendFrame(dest, body, contentType, custom)), [], fails));
      && |s.pubs| == 1 && s.pubs[0].txID == ""
      && s.pubs[0].frame.Get(KEY_DESTINATION) == dest && s.pubs[0].frame.Payload() == body
      && (forall k :: k in custom ==> s.pubs[0].frame.Get(k) == custom[k])
      && s.state.index == PublishTo(st.index, dest, FirstOf(fails)).index && s.state.tx == st.tx
  {
    hide Wire, LengthsFit, CleanMap, CleanText, PublishTo, PublishAll, Received, WellFormed, Itoa, Atoi;
    var f := SendFrame(dest, body, contentType, custom);
    PayloadFits(f);
    SendWellFormed(dest, body, contentType, custom);
    SendSays(dest, body, contentType, custom);
    Arrives(f, KEY_DESTINATION);
    PublishOne(st.index, f.Normal(), "", fails);
    PublishReplies(st.index, dest, FirstOf(fails));
    assert |KEY_TRANSACTION| == 11 && KEY_TRANSACTION[0] != KEY_DESTINATION[0];
    assert |KEY_CONTENT_TYPE| == 12 && |KEY_CONTENT_LENGTH| == 14;
  }

  lemma PayloadFits(f: Frame)
    ensures |f.Payload()| <= |Wire(f)|
  {
    hide Head;
  }

  // ---------- lower-casing a header map ----------

  /** Writes headers over a map under lower-cased keys, in the order given. */
  function MergeLower(base: Headers, headers: Headers, order: seq<string>): Headers
    requires forall k :: k in order ==> k in headers
    decreases |order|
  {
    if order == [] then base
    else MergeLower(base[ToLower(order[0]) := headers[order[0]]], headers, order[1..])
  }

  /** A key that no written header lower-cases to keeps its value, and no other key appears. */
  lemma {:induction false} MergeKeeps(base: Headers, headers: Headers, order: seq<string>, x: string)
    requires forall k :: k in order ==> k in headers
    requires forall k :: k in order ==> ToLower(k) != x
    ensures x in MergeLower(base, headers, order) <==> x in base
    ensures x in base ==> MergeLower(base, headers, order)[x] == base[x]
    decreases |order|
  {
    hide ToLower;
    if order != [] {
      assert order[0] in order;
      MergeKeeps(base[ToLower(order[0]) := headers[order[0]]], headers, order[1..], x);
    }
  }

  /** The last header of the order whose key lower-cases to `x`. */
  predicate WritesLast(order: seq<string>, i: nat, x: string) {
    i < |order| && ToLower(order[i]) == x && forall j :: i < j < |order| ==> ToLower(order[j]) != x
  }

  lemma {:induction false} LastWriter(order: seq<string>, x: string) returns (i: nat)
    requires exists k :: k in order && ToLower(k) == x
    ensures WritesLast(order, i, x)
  {
    hide ToLower;
    i := |order| - 1;
    if ToLower(order[i]) != x {
      i := LastWriter(order[..i], x);
    }
  }

  /** What is found under a key is the value of the last header that lower-cases to it. */
  lemma {:induction false} MergeTakes(base: Headers, headers: Headers, order: seq<string>, i: nat, x: string)
    requires forall k :: k in order ==> k in headers
    requires WritesLast(order, i, x)
    ensures x in MergeLower(base, headers, order) && MergeLower(base, headers, order)[x] == headers[order[i]]
    decreases |order|
  {
    hide ToLower;
    var base' := base[ToLower(order[0]) := headers[order[0]]];
    if i > 0 {
      MergeTakes(base', headers, order[1..], i - 1, x);
    } else {
      MergeKeeps(base', headers, order[1..], x);
    }
  }

  /** Headers that stay apart in lower case end up the same in whatever order they are written. */
  lemma MergeAnyOrder(base: Headers, headers: Headers, a: seq<string>, b: seq<string>)
    requires Lists(a, headers.Keys) && Lists(b, headers.Keys)
    requires forall k, x :: k in headers && x in headers && k != x ==> ToLower(k) != ToLower(x)
    ensures (forall k :: k in a ==> k in headers) && (forall k :: k in b ==> k in headers)
    ensures MergeLower(base, headers, a) == MergeLower(base, headers, b)
  {
    hide ToLower, MergeLower;
    ListsMembers(a, headers.Keys);
    ListsMembers(b, headers.Keys);
    var ma, mb := MergeLower(base, headers, a), MergeLower(base, headers, b);
    forall x ensures (x in ma <==> x in mb) && (x in ma && x in mb ==> ma[x] == mb[x]) {
      if k :| k in headers && ToLower(k) == x {
        var i := LastWriter(a, x);
        var j := LastWriter(b, x);
        MergeTakes(base, headers, a, i, x);
        MergeTakes(base, headers, b, j, x);
        assert a[i] in a && b[j] in b;
      } else {
        MergeKeeps(base, headers, a, x);
        MergeKeeps(base, headers, b, x);
      }
    }
  }

  method LowerKeys(headers: Headers, order: seq<string>) returns (hdr: Headers)
    requires forall k :: k in order ==> k in headers
    ensures hdr == MergeLower(map[], headers, order)
  {
    hdr := map[];
    var n := 0;
    assert order[0..] == order;
    while n < |order|
      invariant 0 <= n <= |order|
      invariant MergeLower(hdr, headers, order[n..]) == MergeLower(map[], headers, order)
    {
      assert order[n..][0] == order[n] && order[n..][1..] == order[n + 1..];
      hdr := hdr[ToLower(order[n]) := headers[order[n]]];
      n := n + 1;
    }
  }

  // ---------- transactions ----------

  lemma MoreSends(wire: seq<Frame>, sends: seq<Frame>, f: Frame)
    requires OneShot(wire, sends, []) && f.command == CMD_SEND
    ensures OneShot(wire + [f], sends + [f], [])
  {
    assert wire + [f] == [wire[0]] + (sends + [f]) + [];
  }

  /** A client's transaction object. `live` is whether it still has its client; the ghost fields
      record what it put on the wire. */
  class Transaction {
    var live: bool
    const TxID: string
    ghost var sends: seq<Frame>
    ghost var ending: seq<Frame>

    ghost predicate Valid()
      reads this
    {
      && OneShot(Wire(), sends, ending)
      && (live <==> ending == [])
      && forall i :: 0 <= i < |Wire()| ==> Concerns(Wire()[i], TxID)
    }

    /** The frames sent so far. */
    ghost function Wire(): seq<Frame>
      reads this
    {
      [Frame(CMD_BEGIN, Some(map[KEY_TRANSACTION := TxID]), None)] + sends + ending
    }

    /** `BeginTransaction`, once its BEGIN is sent. */
    constructor (txID: string)
      ensures Valid() && live && TxID == txID
      ensures Wire() == [Frame(CMD_BEGIN, Some(map[KEY_TRANSACTION := txID]), None)]
    {
      live := true;
      TxID := txID;
      sends, ending := [], [];
    }

    /** `order` is how the custom headers are ranged over; `sent` is whether the write succeeds. */
    method Send(dest: string, body: string, contentType: string, headers: Headers, order: seq<string>, sent: bool)
      returns (ok: bool)
      requires Valid() && Lists(order, headers.Keys)
      modifies this
      ensures Valid() && live == old(live) && ending == old(ending)
      ensures ok ==> sends == old(sends) + [Wire()[|Wire()| - 1]]
      ensures ok == (live && sent)
      ensures (forall k :: k in order ==> k in headers)
        && Wire() == if ok then old(Wire()) + [SendFrame(dest, body, contentType,
                                                        MergeLower(map[], headers, order)[KEY_TRANSACTION := TxID])]
                     else old(Wire())
    {
      hide MergeLower, OneShot, Concerns;
      ListsMembers(order, headers.Keys);
      if !live {
        return false;
      }
      var hdr := LowerKeys(headers, order);
      hdr := hdr[KEY_TRANSACTION := TxID];
      var f := BuildSend(dest, body, contentType, hdr);
      if !sent {
        return false;
      }
      ghost var before := Wire();
      SendConcerns(dest, body, contentType, hdr, TxID);
      MoreSends(before, sends, f);
      sends := sends + [f];
      assert Wire() == before + [f];
      return true;
    }

    method AbortTransaction(sent: bool) returns (ok: bool)
      requires Valid()
      modifies this
      ensures Valid() && ok == (old(live) && sent) && live == (old(live) && !sent)
      ensures Wire() == if ok then old(Wire()) + [Frame(CMD_ABORT, Some(map[KEY_TRANSACTION := TxID]), None)] else old(Wire())
      ensures ok ==> TxRun(Wire()) == IDLE
    {
      if !live {
        return false;
      }
      if !sent {
        return false;
      }
      hide TxRun, Deliverable;
      CommandsDiffer();
      ending := [Frame(CMD_ABORT, Some(map[KEY_TRANSACTION := TxID]), None)];
      live := false;
      assert Wire() == old(Wire()) + ending;
      OneShotRun(Wire(), sends, ending);
      return true;
    }

    method CommitTransaction(sent: bool) returns (ok: bool)
      requires Valid()
      modifies this
      ensures Valid() && ok == (old(live) && sent) && live == (old(live) && !sent)
      ensures Wire() == if ok then old(Wire()) + [Frame(CMD_COMMIT, Some(map[KEY_TRANSACTION := TxID]), None)] else old(Wire())
      ensures ok ==> sends == old(sends) && TxRun(Wire()) == TxView(true, sends, Deliverable(sends))
    {
      if !live {
        return false;
      }
      if !sent {
        return false;
      }
      hide TxRun, Deliverable;
      CommandsDiffer();
      ending := [Frame(CMD_COMMIT, Some(map[KEY_TRANSACTION := TxID]), None)];
      live := false;
      assert Wire() == old(Wire()) + ending;
      OneShotRun(Wire(), sends, ending);
      return true;
    }
  }

  lemma SendConcerns(dest: string, body: string, contentType: string, custom: Headers, txID: string)
    requires KEY_TRANSACTION in custom && custom[KEY_TRANSACTION] == txID
    ensures Concerns(SendFrame(dest, body, contentType, custom), txID)
  {
  }

  /** The frames as the broker parses them. */
  function Normals(frames: seq<Frame>): (r: seq<Frame>)
    ensures |r| == |frames|
  {
    seq(|frames|, i requires 0 <= i < |frames| => frames[i].Normal())
  }

  lemma OneShotNormals(frames: seq<Frame>, sends: seq<Frame>, ending: seq<Frame>)
    requires OneShot(frames, sends, ending)
    ensures OneShot(Normals(frames), Normals(sends), Normals(ending))
  {
    assert Normals(frames) == [Normals(frames)[0]] + Normals(sends) + Normals(ending);
  }

  /** A transaction object never lets through more than one ending, nor anything after it. So,
      whatever the other sessions do, and if nobody refuses its messages, the broker publishes
      what the object sent exactly when it was committed, once and in order (up to a message
      without a destination). */
  lemma TransactionPublishesOnce(t: Transaction, inputs: seq<Input>)
    requires t.Valid() && t.TxID != "" && CommitsReach(inputs, t.TxID)
    requires Related(inputs, t.TxID) == Normals(t.Wire())
    ensures Tagged(Log(inputs), t.TxID)
         == if t.ending != [] && t.ending[0].command == CMD_COMMIT then Deliverable(Normals(t.sends)) else []
  {
    hide OneShot;
    OneShotNormals(t.Wire(), t.sends, t.ending);
    ClientTransaction(inputs, t.TxID, Normals(t.sends), Normals(t.ending));
  }

  lemma LastIsEnding(t: Transaction, command: string)
    requires t.Valid() && command in [CMD_COMMIT, CMD_ABORT]
    requires t.Wire()[|t.Wire()| - 1].command == command
    ensures t.ending != [] && t.ending[0].command == command
  {
    CommandsDiffer();
    var w := t.Wire();
    if t.ending != [] {
      assert w[|w| - 1] == t.ending[0];
    }
  }

  lemma {:induction false} RelatedHas(inputs: seq<Input>, k: nat, txID: string)
    requires k < |inputs| && Concerns(inputs[k].frame, txID)
    ensures inputs[k].frame in Related(inputs, txID)
  {
    if k < |inputs| - 1 {
      RelatedHas(inputs[..|inputs| - 1], k, txID);
    }
  }

  /** After an accepted abort: whatever the other sessions do and whoever refuses what, nothing the
      object sent is published, and the broker holds nothing of it. */
  lemma AbortedPublishesNothing(t: Transaction, inputs: seq<Input>)
    requires t.Valid() && t.TxID != "" && t.Wire()[|t.Wire()| - 1].command == CMD_ABORT
    requires Related(inputs, t.TxID) == Normals(t.Wire())
    ensures Tagged(Log(inputs), t.TxID) == [] && t.TxID !in Run(inputs).tx
  {
    hide OneShot, Run, Log, Tagged;
    CommandsDiffer();
    LastIsEnding(t, CMD_ABORT);
    OneShotNormals(t.Wire(), t.sends, t.ending);
    forall k | 0 <= k < |inputs| ensures !Commits(inputs[k].frame, t.TxID) {
      if Concerns(inputs[k].frame, t.TxID) {
        RelatedHas(inputs, k, t.TxID);
        NoCommitInAborted(t, inputs[k].frame);
      }
    }
    ClientTransaction(inputs, t.TxID, Normals(t.sends), Normals(t.ending));
  }

  lemma NoCommitInAborted(t: Transaction, f: Frame)
    requires t.Valid() && t.ending != [] && t.ending[0].command == CMD_ABORT && f in Normals(t.Wire())
    ensures f.command != CMD_COMMIT
  {
    CommandsDiffer();
    var i :| 0 <= i < |t.Wire()| && f == t.Wire()[i].Normal();
    assert t.Wire()[i] == if i == 0 then t.Wire()[0] else if i <= |t.sends| then t.sends[i - 1] else t.ending[0];
  }

  /** After an accepted commit that nobody refuses: what the object sent is published once, in
      order, up to a message without a destination. */
  lemma CommittedPublishesOnce(t: Transaction, inputs: seq<Input>)
    requires t.Valid() && t.TxID != "" && t.Wire()[|t.Wire()| - 1].command == CMD_COMMIT
    requires Related(inputs, t.TxID) == Normals(t.Wire()) && CommitsReach(inputs, t.TxID)
    ensures Tagged(Log(inputs), t.TxID) == Deliverable(Normals(t.sends))
  {
    hide OneShot, Log, Tagged, Related, Deliverable;
    LastIsEnding(t, CMD_COMMIT);
    TransactionPublishesOnce(t, inputs);
  }
}
