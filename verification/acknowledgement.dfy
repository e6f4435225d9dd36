/**
 An acknowledgement from end to end: the MESSAGE that carries a token (broker.go:160-176), the
 ACK that returns it (client.go:410-416), and the ledger it finds (subscribe.go:147-172).
 */
module Acknowledgement {
  import opened Wrappers
  import opened Names
  import opened GoStrings
  import opened Escaping
  import opened Sorting
  import opened Serializer
  import opened WireFraming
  import opened Heartbeat
  import opened AckToken
  import opened Ledger
  import opened Registry
  import opened Client

  // ---------- MESSAGE ----------

  /** The broker's own headers of a MESSAGE. */
  function MessageBase(dest: string, subsID: string, ackNum: nat, txID: string, messageID: string): Headers {
    var h: Headers := map[KEY_DESTINATION := dest, KEY_MESSAGE_ID := messageID, KEY_SUBSCRIPTION := subsID];
    var h := h[KEY_ACK := FmtAckNum(dest, subsID, ackNum)];
    if txID != "" then h[KEY_TRANSACTION := txID] else h
  }

  /** The frame of `sendMessage`: the publisher's headers win, under lower-cased keys. */
  function MessageFrame(dest: string, subsID: string, ackNum: nat, txID: string, messageID: string,
                        headers: Headers, order: seq<string>, body: Option<string>): Frame
    requires forall k :: k in order ==> k in headers
  {
    Frame(CMD_MESSAGE, Some(MergeLower(MessageBase(dest, subsID, ackNum, txID, messageID), headers, order)), body)
  }

  method SendMessage(dest: string, subsID: string, ackNum: nat, txID: string, messageID: string,
                     headers: Headers, order: seq<string>, body: Option<string>) returns (f: Frame)
    requires Lists(order, headers.Keys)
    ensures forall k :: k in order ==> k in headers
    ensures f == MessageFrame(dest, subsID, ackNum, txID, messageID, headers, order, body)
  {
    ListsMembers(order, headers.Keys);
    var h: Headers := map[KEY_DESTINATION := dest, KEY_MESSAGE_ID := messageID, KEY_SUBSCRIPTION := subsID];
    h := h[KEY_ACK := FmtAckNum(dest, subsID, ackNum)];
    if txID != "" {
      h := h[KEY_TRANSACTION := txID];
    }
    assert h == MessageBase(dest, subsID, ackNum, txID, messageID);
    var n := 0;
    assert order[0..] == order;
    while n < |order|
      invariant 0 <= n <= |order|
      invariant MergeLower(h, headers, order[n..])
             == MergeLower(MessageBase(dest, subsID, ackNum, txID, messageID), headers, order)
    {
      assert order[n..][0] == order[n] && order[n..][1..] == order[n + 1..];
      h := h[ToLower(order[n]) := headers[order[n]]];
      n := n + 1;
    }
    return Frame(CMD_MESSAGE, Some(h), body);
  }

  /** Of the broker's own headers, each that no publisher header lower-cases to reaches the frame. */
  lemma MessageKeeps(dest: string, subsID: string, ackNum: nat, txID: string, messageID: string,
                     headers: Headers, order: seq<string>, body: Option<string>, key: string)
    requires forall k :: k in order ==> k in headers
    requires forall k :: k in order ==> ToLower(k) != key
    ensures var value := MessageFrame(dest, subsID, ackNum, txID, messageID, headers, order, body).Get(key);
      && (key == KEY_ACK ==> value == FmtAckNum(dest, subsID, ackNum))
      && (key == KEY_SUBSCRIPTION ==> value == subsID)
      && (key == KEY_MESSAGE_ID ==> value == messageID)
      && (key == KEY_TRANSACTION ==> value == txID)
      && (key == KEY_DESTINATION ==> value == dest)
  {
    hide ToLower, FmtAckNum, MergeLower;
    assert |KEY_ACK| == 3 && |KEY_MESSAGE_ID| == 10 && |KEY_SUBSCRIPTION| == 12;
    assert |KEY_TRANSACTION| == 11 && |KEY_DESTINATION| == 11 && KEY_TRANSACTION[0] != KEY_DESTINATION[0];
    MergeKeeps(MessageBase(dest, subsID, ackNum, txID, messageID), headers, order, key);
  }

  /** Of the publisher headers that lower-case to the token's key, the last one to be written
      displaces the token. */
  lemma PublisherDisplacesToken(dest: string, subsID: string, ackNum: nat, txID: string, messageID: string,
                                headers: Headers, order: seq<string>, body: Option<string>)
    requires forall k :: k in order ==> k in headers
    requires exists k :: k in order && ToLower(k) == KEY_ACK
    ensures exists i: nat :: (
      && WritesLast(order, i, KEY_ACK)
      && MessageFrame(dest, subsID, ackNum, txID, messageID, headers, order, body).Get(KEY_ACK) == headers[order[i]])
  {
    hide ToLower, FmtAckNum, MergeLower, MessageBase;
    var i := LastWriter(order, KEY_ACK);
    MergeTakes(MessageBase(dest, subsID, ackNum, txID, messageID), headers, order, i, KEY_ACK);
  }

  /** A MESSAGE in full: the publisher's body; the broker's own keys and the publisher's in lower
      case, and no others; and under a publisher's key the value that was written last. */
  lemma MessageSays(dest: string, subsID: string, ackNum: nat, txID: string, messageID: string,
                    headers: Headers, order: seq<string>, body: Option<string>, x: string)
    requires forall k :: k in order ==> k in headers
    ensures
      var f := MessageFrame(dest, subsID, ackNum, txID, messageID, headers, order, body);
      && f.command == "MESSAGE" && f.headers.Some? && f.body == body
      && (x in f.HeaderMap() <==>
          || x in {KEY_DESTINATION, KEY_MESSAGE_ID, KEY_SUBSCRIPTION, KEY_ACK}
          || (x == KEY_TRANSACTION && txID != "")
          || exists k :: k in order && ToLower(k) == x)
      && (forall i: nat :: WritesLast(order, i, x) ==> f.HeaderMap()[x] == headers[order[i]])
  {
    hide ToLower, FmtAckNum, MergeLower, WritesLast;
    var base := MessageBase(dest, subsID, ackNum, txID, messageID);
    if exists k :: k in order && ToLower(k) == x {
      var i := LastWriter(order, x);
      MergeTakes(base, headers, order, i, x);
    } else {
      MergeKeeps(base, headers, order, x);
    }
    forall i: nat | WritesLast(order, i, x)
      ensures x in MergeLower(base, headers, order) && i < |order| && MergeLower(base, headers, order)[x] == headers[order[i]]
    {
      MergeTakes(base, headers, order, i, x);
      WriterIsThere(order, i, x);
    }
  }

  lemma WriterIsThere(order: seq<string>, i: nat, x: string)
    requires WritesLast(order, i, x)
    ensures i < |order| && exists k :: k in order && ToLower(k) == x
  {
    assert order[i] in order;
  }

  // ---------- which MESSAGEs survive the wire ----------

  /** Names every key of a header map; Go's iteration names each once. */
  ghost predicate Ranges(order: seq<string>, headers: Headers) {
    forall k :: k in order <==> k in headers
  }

  /** The MESSAGE that `publish` makes of a SEND for one subscription. */
  ghost function MessageFor(sent: Frame, subsID: string, ackNum: nat, txID: string, messageID: string, order: seq<string>): Frame
    requires Ranges(order, sent.HeaderMap())
  {
    MessageFrame(sent.Get(KEY_DESTINATION), subsID, ackNum, txID, messageID, sent.HeaderMap(), order, sent.body)
  }

  lemma {:induction false} LowerCR(s: string)
    ensures CR in ToLower(s) <==> CR in s
  {
    if s != "" {
      LowerCR(s[1..]);
      assert s == [s[0]] + s[1..];
    }
  }

  lemma {:induction false} LowerTwice(s: string)
    ensures ToLower(ToLower(s)) == ToLower(s)
  {
    if s != "" {
      LowerTwice(s[1..]);
    }
  }

  lemma SmallText(s: string)
    requires forall i :: 0 <= i < |s| ==> s[i] != CR && s[i] != BACKSLASH && !('A' <= s[i] <= 'Z')
    ensures CleanText(s) && ToLower(s) == s
  {
    LowerAlready(s);
    PlainIsSafe(s);
  }

  lemma BaseClean(dest: string, subsID: string, ackNum: nat, txID: string, messageID: string)
    requires CleanText(dest) && CleanText(subsID) && CleanText(txID) && CleanText(messageID)
    ensures CleanMap(MessageBase(dest, subsID, ackNum, txID, messageID))
    ensures forall x :: x in MessageBase(dest, subsID, ackNum, txID, messageID) ==> ToLower(x) == x
  {
    hide Safe, FmtAckNum, ToLower;
    TokenClean(dest, subsID, ackNum);
    SmallText(KEY_DESTINATION);
    SmallText(KEY_MESSAGE_ID);
    SmallText(KEY_SUBSCRIPTION);
    SmallText(KEY_ACK);
    SmallText(KEY_TRANSACTION);
  }

  /** Every header of a merged map is the base's, or a publisher's under its key in lower case. */
  lemma MergeSources(base: Headers, headers: Headers, order: seq<string>, x: string)
    requires forall k :: k in order ==> k in headers
    ensures var m := MergeLower(base, headers, order);
      x in m ==> (x in base && m[x] == base[x]) || exists k :: k in order && ToLower(k) == x && m[x] == headers[k]
  {
    hide ToLower, MergeLower;
    if exists k :: k in order && ToLower(k) == x {
      var i := LastWriter(order, x);
      MergeTakes(base, headers, order, i, x);
      assert order[i] in order;
    } else {
      MergeKeeps(base, headers, order, x);
    }
  }

  lemma MergeHas(base: Headers, headers: Headers, order: seq<string>, k: string)
    requires forall k :: k in order ==> k in headers
    requires k in order
    ensures ToLower(k) in MergeLower(base, headers, order)
  {
    hide ToLower, MergeLower;
    var i := LastWriter(order, ToLower(k));
    MergeTakes(base, headers, order, i, ToLower(k));
  }

  /** Lower-casing leaves every key one that survives the wire. */
  predicate LowersSafely(headers: Headers) {
    forall k :: k in headers ==> Safe(ToLower(k))
  }

  /** A MESSAGE made of a frame that was read off the wire survives the wire exactly when the
      lower-cased keys do. */
  lemma MessageFaithful(sent: Frame, subsID: string, ackNum: nat, txID: string, messageID: string, order: seq<string>)
    requires Faithful(sent) && Ranges(order, sent.HeaderMap())
    requires CleanText(subsID) && CleanText(txID) && CleanText(messageID)
    ensures Faithful(MessageFor(sent, subsID, ackNum, txID, messageID, order)) <==> LowersSafely(sent.HeaderMap())
  {
    hide Safe, FmtAckNum, ToLower, MergeLower, MessageBase;
    var dest, headers := sent.Get(KEY_DESTINATION), sent.HeaderMap();
    HeaderClean(sent, KEY_DESTINATION);
    var base := MessageBase(dest, subsID, ackNum, txID, messageID);
    var merged := MergeLower(base, headers, order);
    BaseClean(dest, subsID, ackNum, txID, messageID);
    FixedTextClean(CMD_MESSAGE);
    forall x | x in merged && LowersSafely(headers) ensures CleanText(x) && CleanText(merged[x]) {
      MergeSources(base, headers, order, x);
      if k :| k in order && ToLower(k) == x && merged[x] == headers[k] {
        LowerCR(k);
      }
    }
    forall k | k in headers ensures ToLower(k) in merged {
      MergeHas(base, headers, order, k);
    }
  }

  /** A key that the wire and `checkValidEscapes` accept, before and after, and that lower-casing
      spoils: two backslashes and an `N`. */
  lemma LowerCaseSpoilsKey()
    ensures var k := "\\\\N"; CleanText(k) && ValidEscapes(k) && ValidEscapes(ToLower(k))
    ensures var k := ToLower("\\\\N"); !Safe(k) && Unescape(Escape(k)) != k
  {
    hide Escape, Unescape, ToLower;
    var k, low := "\\\\N", "\\\\n";
    LowerThree(k[0], k[1], k[2]);
    assert ToLower(k) == low;
    EscapedPair(k);
    EscapedPair(low);
    assert low[1] == BACKSLASH && low[2] == 'n' && !Free(low, 'n');
    UnescapeInvertsEscape(low);
  }

  lemma LowerThree(a: char, b: char, c: char)
    ensures ToLower([a, b, c]) == [LowerChar(a), LowerChar(b), LowerChar(c)]
  {
    hide LowerChar;
    assert [a, b, c][1..] == [b, c] && [b, c][1..] == [c] && [c][1..] == [];
    assert ToLower([c]) == [LowerChar(c)];
    assert ToLower([b, c]) == [LowerChar(b), LowerChar(c)];
  }

  lemma EscapedPair(s: string)
    requires |s| == 3 && s[0] == s[1] == BACKSLASH && s[2] != BACKSLASH
    ensures ValidEscapes(s)
  {
    assert s[2..] == [s[2]] && [s[2]][1..] == "";
    assert ValidEscapes([s[2]]);
  }

  /** Every content-length that a frame carries, in whatever capitals, fits its body, and without
      one there is no NUL in it. */
  predicate LengthsAgree(f: Frame) {
    && (forall k :: k in f.HeaderMap() && IsContentLength(k) ==> LengthFits(f.HeaderMap()[k], f.Payload()))
    && ((forall k :: k in f.HeaderMap() ==> !IsContentLength(k)) ==> NUL !in f.Payload())
  }

  lemma BaseSmall(dest: string, subsID: string, ackNum: nat, txID: string, messageID: string)
    ensures forall x :: x in MessageBase(dest, subsID, ackNum, txID, messageID) ==> ToLower(x) == x
    ensures KEY_CONTENT_LENGTH !in MessageBase(dest, subsID, ackNum, txID, messageID)
  {
    hide Safe, FmtAckNum, ToLower;
    SmallText(KEY_DESTINATION);
    SmallText(KEY_MESSAGE_ID);
    SmallText(KEY_SUBSCRIPTION);
    SmallText(KEY_ACK);
    SmallText(KEY_TRANSACTION);
    assert |KEY_ACK| == 3 && |KEY_MESSAGE_ID| == 10 && |KEY_SUBSCRIPTION| == 12;
    assert |KEY_TRANSACTION| == 11 && |KEY_DESTINATION| == 11 && |KEY_CONTENT_LENGTH| == 14;
  }

  /** The splitter cuts a MESSAGE at its end exactly when the content-length header that is written
      last fits the body; without any, exactly when the body has no NUL. */
  lemma MessageFramed(sent: Frame, subsID: string, ackNum: nat, txID: string, messageID: string, order: seq<string>)
    requires Ranges(order, sent.HeaderMap())
    ensures Framed(MessageFor(sent, subsID, ackNum, txID, messageID, order)) <==>
      && (forall i: nat :: WritesLast(order, i, KEY_CONTENT_LENGTH) ==> LengthFits(sent.HeaderMap()[order[i]], sent.Payload()))
      && ((forall k :: k in sent.HeaderMap() ==> !IsContentLength(k)) ==> NUL !in sent.Payload())
  {
    hide FmtAckNum, ToLower, MergeLower, MessageBase, Atoi, BodyLength;
    var dest, headers := sent.Get(KEY_DESTINATION), sent.HeaderMap();
    var message := MessageFor(sent, subsID, ackNum, txID, messageID, order);
    var base := MessageBase(dest, subsID, ackNum, txID, messageID);
    var merged := MergeLower(base, headers, order);
    assert message.HeaderMap() == merged && message.Payload() == sent.Payload();
    BaseSmall(dest, subsID, ackNum, txID, messageID);
    forall x | x in merged ensures ToLower(x) == x {
      MergeSources(base, headers, order, x);
      if k :| k in order && ToLower(k) == x {
        LowerTwice(k);
      }
    }
    BodyLengthExact(message);
    if k :| k in headers && IsContentLength(k) {
      var i := LastWriter(order, KEY_CONTENT_LENGTH);
      MergeTakes(base, headers, order, i, KEY_CONTENT_LENGTH);
    } else {
      MergeKeeps(base, headers, order, KEY_CONTENT_LENGTH);
      assert forall i :: 0 <= i < |order| ==> order[i] in order;
    }
  }

  ghost predicate FramedInOrder(sent: Frame, subsID: string, ackNum: nat, txID: string, messageID: string, order: seq<string>) {
    Ranges(order, sent.HeaderMap()) && Framed(MessageFor(sent, subsID, ackNum, txID, messageID, order))
  }

  /** Whatever the order in which its headers are written, a frame makes a MESSAGE that is cut at
      its end, exactly when all its lengths agree with its body. */
  lemma AnyOrderFramed(sent: Frame, subsID: string, ackNum: nat, txID: string, messageID: string)
    ensures (forall order :: Lists(order, sent.HeaderMap().Keys) ==> FramedInOrder(sent, subsID, ackNum, txID, messageID, order))
      <==> LengthsAgree(sent)
  {
    hide Framed, MessageFor, IsContentLength, LengthFits, Lists;
    var headers := sent.HeaderMap();
    forall order | Lists(order, headers.Keys) && LengthsAgree(sent)
      ensures FramedInOrder(sent, subsID, ackNum, txID, messageID, order)
    {
      ListsMembers(order, headers.Keys);
      AgreedLengths(sent, subsID, ackNum, txID, messageID, order);
    }
    if forall order :: Lists(order, headers.Keys) ==> FramedInOrder(sent, subsID, ackNum, txID, messageID, order) {
      forall k | k in headers ensures IsContentLength(k) ==> LengthFits(headers[k], sent.Payload()) {
        var order := SomeListing(headers.Keys - {k}) + [k];
        ListsSnoc(SomeListing(headers.Keys - {k}), headers.Keys - {k}, k);
        assert headers.Keys - {k} + {k} == headers.Keys;
        assert FramedInOrder(sent, subsID, ackNum, txID, messageID, order);
        MessageFramed(sent, subsID, ackNum, txID, messageID, order);
        assert IsContentLength(k) ==> WritesLast(order, |order| - 1, KEY_CONTENT_LENGTH) by { WrittenLast(order); }
      }
      var order := SomeListing(headers.Keys);
      assert FramedInOrder(sent, subsID, ackNum, txID, messageID, order);
      MessageFramed(sent, subsID, ackNum, txID, messageID, order);
    }
  }

  lemma WrittenLast(order: seq<string>)
    requires order != []
    ensures IsContentLength(order[|order| - 1]) ==> WritesLast(order, |order| - 1, KEY_CONTENT_LENGTH)
  {
  }

  lemma AgreedLengths(sent: Frame, subsID: string, ackNum: nat, txID: string, messageID: string, order: seq<string>)
    requires Ranges(order, sent.HeaderMap()) && LengthsAgree(sent)
    ensures Framed(MessageFor(sent, subsID, ackNum, txID, messageID, order))
  {
    hide Framed, MessageFor, ToLower, LengthFits;
    assert forall i :: 0 <= i < |order| ==> order[i] in order;
    MessageFramed(sent, subsID, ackNum, txID, messageID, order);
  }

  /** A frame that is cut at its end on the way in, and not in every MESSAGE made of it: one of two
      content-length keys wins by its capitals there and by the order of writing here. */
  lemma TwoLengthsDisagree()
    ensures
      var f := Frame(CMD_SEND, Some(map["Content-length" := "2", "content-length" := "1"]), Some("x"));
      Framed(f) && !LengthsAgree(f)
  {
    hide Atoi, ToLower, Itoa, BodyLength;
    var f := Frame(CMD_SEND, Some(map["Content-length" := "2", "content-length" := "1"]), Some("x"));
    BodyLengthExact(f);
    IsLengthKey();
    CapitalLengthKey();
    SmallNumbers();
    assert "Content-length" in f.HeaderMap() && f.HeaderMap()["Content-length"] == "2";
    assert f.HeaderMap()[KEY_CONTENT_LENGTH] == "1" && f.Payload() == "x";
  }

  lemma CapitalLengthKey()
    ensures IsContentLength("Content-length") && "Content-length" != KEY_CONTENT_LENGTH
  {
    hide ToLower;
    var rest := "ontent-length";
    LowerStep('C', rest);
    LowerAlready(rest);
    assert ['C'] + rest == "Content-length" && ['c'] + rest == KEY_CONTENT_LENGTH;
    assert "Content-length"[0] != KEY_CONTENT_LENGTH[0];
  }

  lemma LowerStep(c: char, s: string)
    ensures ToLower([c] + s) == [LowerChar(c)] + ToLower(s)
  {
    assert ([c] + s)[1..] == s;
  }

  lemma SmallNumbers()
    ensures Atoi("1") == Some(1) && Atoi("2") == Some(2)
  {
    hide Atoi;
    AtoiOfItoa(1);
    AtoiOfItoa(2);
    assert Itoa(1) == "1" && Itoa(2) == "2";
  }

  // ---------- ACK ----------

  /** The frame of `sendAck`. */
  function AckFrame(id: string, txID: string): Frame {
    Frame(CMD_ACK, Some(if txID != "" then map[KEY_ID := id, KEY_TRANSACTION := txID] else map[KEY_ID := id]), None)
  }

  /** The ACK that a client sends back for a MESSAGE to an individually acknowledged subscription. */
  function AckFor(message: Frame): Frame {
    AckFrame(message.Get(KEY_ACK), message.Get(KEY_TRANSACTION))
  }

  /** An ACK in full. */
  lemma AckSays(id: string, txID: string)
    ensures
      var f := AckFrame(id, txID);
      && f.command == "ACK" && f.Payload() == ""
      && f.Get(KEY_ID) == id && f.Get(KEY_TRANSACTION) == txID
      && f.HeaderMap().Keys == if txID == "" then {KEY_ID} else {KEY_ID, KEY_TRANSACTION}
  {
    assert |KEY_ID| == 2 && |KEY_TRANSACTION| == 11;
  }

  lemma AckSendable(id: string, txID: string)
    requires CleanText(id) && CleanText(txID)
    ensures Sendable(AckFrame(id, txID))
  {
    hide Safe, IsContentLength, BodyLength, Wire;
    FixedTextClean(KEY_ID);
    FixedTextClean(KEY_TRANSACTION);
    FixedTextClean(CMD_ACK);
    assert |KEY_ID| == 2 && |KEY_TRANSACTION| == 11;
    OtherKey(KEY_ID);
    OtherKey(KEY_TRANSACTION);
    HeadersOnly(AckFrame(id, txID));
  }

  // ---------- end to end ----------

  lemma HeaderClean(f: Frame, key: string)
    requires Faithful(f)
    ensures CleanText(f.Get(key))
  {
    PlainIsSafe("");
  }

  /** A frame from a publisher whose MESSAGEs get through: it came off the wire, its lengths agree,
      and no key is spoilt in lower case or displaces the token. */
  predicate Relayable(sent: Frame) {
    Faithful(sent) && LengthsAgree(sent) && LowersSafely(sent.HeaderMap())
    && forall k :: k in sent.HeaderMap() ==> ToLower(k) != KEY_ACK
  }

  /** What a client sends can be relayed, if its custom headers leave content-length and the token
      alone and survive lower-casing. */
  lemma ClientSendRelays(dest: string, body: string, contentType: string, custom: Headers)
    requires CleanText(dest) && CleanText(contentType) && CleanMap(custom) && CR !in body && |body| <= INT_MAX
    requires LowersSafely(custom)
    requires forall k :: k in custom ==> !IsContentLength(k) && ToLower(k) != KEY_ACK
    ensures Relayable(SendFrame(dest, body, contentType, custom).Normal())
  {
    hide Faithful, LengthsAgree, CleanMap, ToLower, Safe, Itoa;
    var sent := SendFrame(dest, body, contentType, custom);
    SendFaithful(dest, body, contentType, custom);
    NormalFaithful(sent);
    SendLengthsAgree(dest, body, contentType, custom);
    SmallText(KEY_DESTINATION);
    SmallText(KEY_CONTENT_TYPE);
    SmallText(KEY_CONTENT_LENGTH);
    assert |KEY_ACK| == 3 && |KEY_DESTINATION| == 11 && |KEY_CONTENT_TYPE| == 12 && |KEY_CONTENT_LENGTH| == 14;
    assert sent.Normal().HeaderMap() == SendHeaders(dest, body, contentType) + custom;
  }

  lemma NormalFaithful(f: Frame)
    requires Faithful(f)
    ensures Faithful(f.Normal()) && f.Normal().HeaderMap() == f.HeaderMap() && f.Normal().Payload() == f.Payload()
  {
  }

  lemma SendLengthsAgree(dest: string, body: string, contentType: string, custom: Headers)
    requires |body| <= INT_MAX && forall k :: k in custom ==> !IsContentLength(k)
    ensures LengthsAgree(SendFrame(dest, body, contentType, custom).Normal())
  {
    hide IsContentLength, Atoi, Itoa;
    OtherKey(KEY_DESTINATION);
    OtherKey(KEY_CONTENT_TYPE);
    IsLengthKey();
    AtoiOfItoa(|body|);
    assert SendFrame(dest, body, contentType, custom).Normal().HeaderMap() == SendHeaders(dest, body, contentType) + custom;
  }

  lemma MessageSendable(sent: Frame, subsID: string, ackNum: nat, txID: string, messageID: string, order: seq<string>)
    requires Relayable(sent) && Ranges(order, sent.HeaderMap())
    requires CleanText(subsID) && CleanText(txID) && CleanText(messageID)
    requires |Wire(MessageFor(sent, subsID, ackNum, txID, messageID, order))| <= INT_MAX
    ensures Sendable(MessageFor(sent, subsID, ackNum, txID, messageID, order))
  {
    hide Faithful, Framed, LengthsAgree, LowersSafely, CleanText, Wire, ToLower;
    MessageFaithful(sent, subsID, ackNum, txID, messageID, order);
    AgreedLengths(sent, subsID, ackNum, txID, messageID, order);
    assert CMD_MESSAGE != "";
  }

  /** The token of a MESSAGE comes back in the ACK as it was made: printed, cut and parsed on the
      way out, and again on the way back. */
  lemma TokenReturns(sent: Frame, subsID: string, ackNum: nat, txID: string, messageID: string, order: seq<string>)
    requires Relayable(sent) && Ranges(order, sent.HeaderMap())
    requires CleanText(subsID) && CleanText(txID) && CleanText(messageID)
    requires |Wire(MessageFor(sent, subsID, ackNum, txID, messageID, order))| <= INT_MAX
    ensures
      var message := MessageFor(sent, subsID, ackNum, txID, messageID, order);
      var ack := Received(AckFor(Received(message)));
      && ack.command == CMD_ACK
      && ack.Get(KEY_ID) == FmtAckNum(sent.Get(KEY_DESTINATION), subsID, ackNum)
      && ack.Get(KEY_TRANSACTION) == message.Get(KEY_TRANSACTION)
  {
    var message := MessageFor(sent, subsID, ackNum, txID, messageID, order);
    var dest, headers := sent.Get(KEY_DESTINATION), sent.HeaderMap();
    MessageSendable(sent, subsID, ackNum, txID, messageID, order);
    hide MessageFrame, AckFrame, FmtAckNum, Faithful, ToLower, CleanText, Received, Frame.Get, Framed, Wire, BodyLength;
    MessageKeeps(dest, subsID, ackNum, txID, messageID, headers, order, sent.body, KEY_ACK);
    Arrives(message, KEY_ACK);
    Arrives(message, KEY_TRANSACTION);
    HeaderClean(message, KEY_ACK);
    HeaderClean(message, KEY_TRANSACTION);
    var id, tx := message.Get(KEY_ACK), message.Get(KEY_TRANSACTION);
    AckSendable(id, tx);
    Arrives(AckFrame(id, tx), KEY_ID);
    Arrives(AckFrame(id, tx), KEY_TRANSACTION);
    AckSays(id, tx);
  }

  /** An acknowledged message, end to end: for names without colons, the ACK that answers message
      `ackNum` of a live, individually acknowledged subscription is accepted and takes exactly that
      number off that subscription's ledger. No other ledger and no index map changes. */
  lemma AckEndToEnd(r: Index, sent: Frame, subsID: string, ackNum: nat, txID: string, messageID: string, order: seq<string>)
    requires Relayable(sent) && Ranges(order, sent.HeaderMap())
    requires CleanText(subsID) && CleanText(txID) && CleanText(messageID)
    requires |Wire(MessageFor(sent, subsID, ackNum, txID, messageID, order))| <= INT_MAX
    requires COLON !in sent.Get(KEY_DESTINATION) && COLON !in subsID && ackNum < UINT32_RANGE
    requires Under(r, sent.Get(KEY_DESTINATION), subsID)
    requires r.destToSubs[sent.Get(KEY_DESTINATION)][subsID].ackMode == ACK_INDIVIDUAL
    ensures
      var dest := sent.Get(KEY_DESTINATION);
      var message := MessageFor(sent, subsID, ackNum, txID, messageID, order);
      var Result(reply, r') := ProcessAck(r, Received(AckFor(Received(message))).Get(KEY_ID));
      var info := r.destToSubs[dest][subsID];
      && reply == Ok
      && r'.sessToSubs == r.sessToSubs && r'.subsToDest == r.subsToDest
      && (forall d, id :: Under(r', d, id) <==> Under(r, d, id))
      && Under(r', dest, subsID) && r'.destToSubs[dest][subsID] == info.(pending := info.pending - {ackNum})
      && (forall d, id :: Under(r, d, id) && !(d == dest && id == subsID) ==> r'.destToSubs[d][id] == r.destToSubs[d][id])
  {
    var dest := sent.Get(KEY_DESTINATION);
    TokenReturns(sent, subsID, ackNum, txID, messageID, order);
    TokenRoundTrip(dest, subsID, ackNum);
    var token := FmtAckNum(dest, subsID, ackNum);
    AckExact(r, token);
    IndividualAck(r.destToSubs[dest][subsID], ackNum);
    hide MessageFor, AckFor, Received, Faithful, FmtAckNum, ScanAckNum, AfterAck, ToLower, Frame.Get, Wire;
  }

  lemma IndividualAck(info: SubsInfo, ackNum: nat)
    requires info.ackMode == ACK_INDIVIDUAL
    ensures !AckTraps(info) && AfterAck(info, ackNum) == info.(pending := info.pending - {ackNum})
  {
    assert |ACK_CLIENT| == 6 && |ACK_INDIVIDUAL| == 17;
  }
}
