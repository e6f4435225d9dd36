/**
 The heart-beat handshake (broker.go, client.go, common.go): offers are printed, parsed and
 negotiated on both sides.
 */
module Heartbeat {
  import opened Wrappers
  import opened Names
  import opened GoStrings
  import opened Escaping
  import opened Serializer
  import opened FrameScanner
  import opened WireFraming
  import opened Streams
  import opened StreamRoundTrip

  // ---------- header values ----------

  function FormatHbVal(send: int, recv: int): string {
    Itoa(send) + "," + Itoa(recv)
  }

  /** `parseHbVal`: two non-negative machine integers around one comma. */
  function ParseHbVal(hbVal: string): Option<(int, int)> {
    var intervals := Split(hbVal, ',');
    if |intervals| != 2 then None
    else
      match Atoi(intervals[0])
      case None => None
      case Some(send) =>
        if send < 0 then None
        else
          match Atoi(intervals[1])
          case None => None
          case Some(recv) => if recv < 0 then None else Some((send, recv))
  }

  lemma HbValParts(send: int, recv: int)
    ensures Split(FormatHbVal(send, recv), ',') == [Itoa(send), Itoa(recv)]
  {
    ItoaChars(send, ',');
    ItoaChars(recv, ',');
    SplitCons(Itoa(send), ',', Itoa(recv));
    SplitParts(Itoa(recv), ',');
    var i := IndexByte(Itoa(recv), ',');
  }

  /** A printed pair of machine integers parses back exactly when neither is negative. */
  lemma HbValRoundTrip(send: int, recv: int)
    requires INT_MIN <= send <= INT_MAX && INT_MIN <= recv <= INT_MAX
    ensures ParseHbVal(FormatHbVal(send, recv)) == if send >= 0 && recv >= 0 then Some((send, recv)) else None
  {
    hide Split, Atoi, Itoa;
    HbValParts(send, recv);
    AtoiOfItoa(send);
    AtoiOfItoa(recv);
  }

  /** Two texts without commas around one comma. */
  predicate AroundComma(hbVal: string, x: string, y: string) {
    hbVal == x + "," + y && ',' !in x && ',' !in y
  }

  /** A header value is read exactly when it is two non-negative numbers around one comma. */
  lemma ParseHbValExact(hbVal: string, send: int, recv: int)
    ensures ParseHbVal(hbVal) == Some((send, recv)) <==>
      send >= 0 && recv >= 0 && exists x, y :: AroundComma(hbVal, x, y) && Atoi(x) == Some(send) && Atoi(y) == Some(recv)
  {
    hide Split, Atoi;
    var parts := Split(hbVal, ',');
    if |parts| == 2 {
      SplitParts(hbVal, ',');
      JoinOfSplit(hbVal, ',');
      assert parts == [parts[0]] + [parts[1]];
      assert AroundComma(hbVal, parts[0], parts[1]);
    }
    if x, y :| AroundComma(hbVal, x, y) && Atoi(x) == Some(send) && Atoi(y) == Some(recv) {
      SplitCons(x, ',', y);
      SplitParts(y, ',');
      JoinOfSplit(y, ',');
      assert parts == [x, y];
    }
  }

  // ---------- negotiation ----------

  /** One side's intervals, and the interval of its heart-beat job if it has one. */
  datatype Beat = Beat(send: int, recv: int, job: Option<int>)

  /** What a side makes of the other side's offer. */
  function Negotiated(own: Beat, peerSend: int, peerRecv: int): Beat {
    var recv := if peerSend == 0 || own.recv == 0 then 0 else if peerSend > own.recv then peerSend else own.recv;
    if peerRecv == 0 || own.send == 0 then Beat(0, recv, own.job)
    else
      var send := if peerRecv > own.send then peerRecv else own.send;
      Beat(send, recv, Some(send))
  }

  /** What a side makes of a header value; a bad value changes nothing. */
  function AfterHeader(own: Beat, hbVal: string): Option<Beat> {
    match ParseHbVal(hbVal)
    case None => None
    case Some(offer) => Some(Negotiated(own, offer.0, offer.1))
  }

  class Session {
    var hbSendIntervalMsec: int
    var hbRecvIntervalMsec: int
    var hbJob: Option<int>

    constructor (send: int, recv: int)
      ensures Value() == Beat(send, recv, None)
    {
      hbSendIntervalMsec, hbRecvIntervalMsec, hbJob := send, recv, None;
    }

    function Value(): Beat
      reads this
    {
      Beat(hbSendIntervalMsec, hbRecvIntervalMsec, hbJob)
    }

    method NegotiateHeartbeats(hbVal: string) returns (ok: bool)
      modifies this
      ensures ok == AfterHeader(old(Value()), hbVal).Some?
      ensures Value() == if ok then AfterHeader(old(Value()), hbVal).value else old(Value())
    {
      var offer := ParseHbVal(hbVal);
      if offer.None? {
        return false;
      }
      var clientSendInterval, clientRecvInterval := offer.value.0, offer.value.1;
      if clientSendInterval == 0 || hbRecvIntervalMsec == 0 {
        hbRecvIntervalMsec := 0;
      } else if clientSendInterval > hbRecvIntervalMsec {
        hbRecvIntervalMsec := clientSendInterval;
      }
      if clientRecvInterval == 0 || hbSendIntervalMsec == 0 {
        hbSendIntervalMsec := 0;
        return true;
      } else if clientRecvInterval > hbSendIntervalMsec {
        hbSendIntervalMsec := clientRecvInterval;
      }
      hbJob := Some(hbSendIntervalMsec);
      return true;
    }

    /** The heart-beat part of `handleConnect`, and the frame it answers with. */
    method HandleConnect(f: Frame, sessionID: string, server: string) returns (answer: Option<Frame>)
      modifies this
      ensures var b := AfterConnect(old(Value()), f);
        && answer.Some? == b.Some?
        && Value() == (if b.Some? then b.value else old(Value()))
        && (b.Some? ==> answer.value == ConnectedFrame(sessionID, server, b.value))
    {
      var hbVal := f.Get(KEY_HEART_BEAT);
      if hbVal != "" {
        var ok := NegotiateHeartbeats(hbVal);
        if !ok {
          return None;
        }
      }
      return Some(ConnectedFrame(sessionID, server, Value()));
    }
  }

  class ClientHandler {
    var hbSendInterval: int
    var hbRecvInterval: int
    var hbJob: Option<int>

    constructor (send: int, recv: int)
      ensures Value() == Beat(send, recv, None)
    {
      hbSendInterval, hbRecvInterval, hbJob := send, recv, None;
    }

    function Value(): Beat
      reads this
    {
      Beat(hbSendInterval, hbRecvInterval, hbJob)
    }

    method NegotiateHeartbeats(hbVal: string) returns (ok: bool)
      modifies this
      ensures ok == AfterHeader(old(Value()), hbVal).Some?
      ensures Value() == if ok then AfterHeader(old(Value()), hbVal).value else old(Value())
    {
      var offer := ParseHbVal(hbVal);
      if offer.None? {
        return false;
      }
      var brokerSendInterval, brokerRecvInterval := offer.value.0, offer.value.1;
      if brokerSendInterval == 0 || hbRecvInterval == 0 {
        hbRecvInterval := 0;
      } else if brokerSendInterval > hbRecvInterval {
        hbRecvInterval := brokerSendInterval;
      }
      if brokerRecvInterval == 0 || hbSendInterval == 0 {
        hbSendInterval := 0;
        return true;
      } else if brokerRecvInterval > hbSendInterval {
        hbSendInterval := brokerRecvInterval;
      }
      hbJob := Some(hbSendInterval);
      return true;
    }

    /** `handleConnected` */
    method HandleConnected(f: Frame) returns (ok: bool)
      modifies this
      ensures ok == AfterConnected(old(Value()), f).Some?
      ensures Value() == if ok then AfterConnected(old(Value()), f).value else old(Value())
    {
      if f.Get(KEY_SESSION) == "" {
        return false;
      }
      var hbVal := f.Get(KEY_HEART_BEAT);
      if hbVal != "" {
        ok := NegotiateHeartbeats(hbVal);
        return;
      }
      return true;
    }
  }

  // ---------- the two frames ----------

  function ConnectFrame(useStomp: bool, host: string, login: string, passcode: string, own: Beat): Frame {
    var headers: Headers := map[KEY_ACCEPT_VERSION := "1.2", KEY_HOST := host];
    var headers := if login != "" then headers[KEY_LOGIN := login][KEY_PASSCODE := passcode] else headers;
    var headers := if own.send != 0 || own.recv != 0 then headers[KEY_HEART_BEAT := FormatHbVal(own.send, own.recv)] else headers;
    Frame(if useStomp then CMD_STOMP else CMD_CONNECT, Some(headers), None)
  }

  function ConnectedFrame(sessionID: string, server: string, own: Beat): Frame {
    Frame(CMD_CONNECTED,
          Some(map[KEY_VERSION := "1.2", KEY_SESSION := sessionID, KEY_SERVER := server,
                   KEY_HEART_BEAT := FormatHbVal(own.send, own.recv)]),
          None)
  }

  function AfterConnect(own: Beat, f: Frame): Option<Beat> {
    if f.Get(KEY_HEART_BEAT) == "" then Some(own) else AfterHeader(own, f.Get(KEY_HEART_BEAT))
  }

  function AfterConnected(own: Beat, f: Frame): Option<Beat> {
    if f.Get(KEY_SESSION) == "" then None
    else if f.Get(KEY_HEART_BEAT) == "" then Some(own)
    else AfterHeader(own, f.Get(KEY_HEART_BEAT))
  }

  /** A CONNECT or STOMP frame in full. */
  lemma ConnectSays(useStomp: bool, host: string, login: string, passcode: string, own: Beat)
    ensures
      var f := ConnectFrame(useStomp, host, login, passcode, own);
      var offers := own.send != 0 || own.recv != 0;
      && f.command == (if useStomp then "STOMP" else "CONNECT") && f.Payload() == ""
      && f.Get(KEY_ACCEPT_VERSION) == "1.2" && f.Get(KEY_HOST) == host
      && f.Get(KEY_LOGIN) == login && f.Get(KEY_PASSCODE) == (if login == "" then "" else passcode)
      && f.Get(KEY_HEART_BEAT) == (if offers then FormatHbVal(own.send, own.recv) else "")
      && f.HeaderMap().Keys == {KEY_ACCEPT_VERSION, KEY_HOST}
                             + (if login == "" then {} else {KEY_LOGIN, KEY_PASSCODE})
                             + (if offers then {KEY_HEART_BEAT} else {})
  {
    hide FormatHbVal;
    assert |KEY_HEART_BEAT| == 10 && |KEY_ACCEPT_VERSION| == 14 && |KEY_HOST| == 4 && |KEY_LOGIN| == 5 && |KEY_PASSCODE| == 8;
  }

  /** A CONNECTED frame in full. */
  lemma ConnectedSays(sessionID: string, server: string, own: Beat)
    ensures
      var f := ConnectedFrame(sessionID, server, own);
      && f.command == "CONNECTED" && f.Payload() == ""
      && f.Get(KEY_VERSION) == "1.2" && f.Get(KEY_SESSION) == sessionID && f.Get(KEY_SERVER) == server
      && f.Get(KEY_HEART_BEAT) == FormatHbVal(own.send, own.recv)
      && f.HeaderMap().Keys == {KEY_VERSION, KEY_SESSION, KEY_SERVER, KEY_HEART_BEAT}
  {
    hide FormatHbVal;
    assert |KEY_HEART_BEAT| == 10 && |KEY_VERSION| == 7 && |KEY_SESSION| == 7 && |KEY_SERVER| == 6;
    assert KEY_VERSION[0] != KEY_SESSION[0];
  }

  /** Each side refuses a handshake frame exactly when its heart-beat header is there and is not
      two non-negative numbers around a comma; the client also when no session is named. */
  lemma HandshakeRefused(own: Beat, f: Frame)
    ensures AfterConnect(own, f).None? <==>
      f.Get(KEY_HEART_BEAT) != "" && forall send, recv :: ParseHbVal(f.Get(KEY_HEART_BEAT)) != Some((send, recv))
    ensures AfterConnected(own, f).None? <==> f.Get(KEY_SESSION) == "" || AfterConnect(own, f).None?
    ensures f.Get(KEY_HEART_BEAT) == "" ==> AfterConnect(own, f) == Some(own)
  {
    hide ParseHbVal, Frame.Get;
    var offer := ParseHbVal(f.Get(KEY_HEART_BEAT));
    assert offer.Some? ==> offer == Some((offer.value.0, offer.value.1));
  }

  // ---------- agreement ----------

  /** A header string that survives the wire. */
  predicate CleanText(s: string) {
    CR !in s && Safe(s)
  }

  lemma HbValClean(send: int, recv: int)
    ensures CleanText(FormatHbVal(send, recv)) && FormatHbVal(send, recv) != ""
  {
    ItoaChars(send, CR);
    ItoaChars(recv, CR);
    ItoaChars(send, BACKSLASH);
    ItoaChars(recv, BACKSLASH);
    PlainIsSafe(FormatHbVal(send, recv));
  }

  lemma FixedTextClean(s: string)
    requires forall i :: 0 <= i < |s| ==> s[i] != CR && s[i] != BACKSLASH && s[i] != LF
    ensures CleanText(s) && LF !in s
  {
    PlainIsSafe(s);
  }

  lemma ConnectFaithful(useStomp: bool, host: string, login: string, passcode: string, own: Beat)
    requires CleanText(host) && CleanText(login) && CleanText(passcode)
    ensures Faithful(ConnectFrame(useStomp, host, login, passcode, own))
  {
    hide FormatHbVal, Safe;
    HbValClean(own.send, own.recv);
    FixedTextClean(KEY_ACCEPT_VERSION);
    FixedTextClean(KEY_HOST);
    FixedTextClean(KEY_LOGIN);
    FixedTextClean(KEY_PASSCODE);
    FixedTextClean(KEY_HEART_BEAT);
    FixedTextClean("1.2");
    FixedTextClean(CMD_STOMP);
    FixedTextClean(CMD_CONNECT);
  }

  lemma ConnectedFaithful(sessionID: string, server: string, own: Beat)
    requires CleanText(sessionID) && CleanText(server)
    ensures Faithful(ConnectedFrame(sessionID, server, own))
  {
    hide FormatHbVal, Safe;
    HbValClean(own.send, own.recv);
    FixedTextClean(KEY_VERSION);
    FixedTextClean(KEY_SESSION);
    FixedTextClean(KEY_SERVER);
    FixedTextClean(KEY_HEART_BEAT);
    FixedTextClean("1.2");
    FixedTextClean(CMD_CONNECTED);
  }

  /** The interval two parties settle on: none if either declines, otherwise the longer offer. */
  function Agreed(a: int, b: int): int {
    if a == 0 || b == 0 then 0 else if a > b then a else b
  }

  /** Whatever a side had, it ends up with the agreed intervals, and with a job for the send
      interval unless that is zero. */
  lemma NegotiatedExact(own: Beat, peerSend: int, peerRecv: int)
    ensures
      var b, send := Negotiated(own, peerSend, peerRecv), Agreed(own.send, peerRecv);
      b.send == send && b.recv == Agreed(peerSend, own.recv)
      && b.job == if own.send == 0 || peerRecv == 0 then own.job else Some(send)
  {
  }

  /** The frame that the other side cuts off the stream and parses; empty if that fails. */
  ghost function Received(f: Frame): Frame {
    var s := ScanAll(Wire(f));
    if s.stop == More && |s.tokens| == 1 && ParseFrame(s.tokens[0]).Parsed? then ParseFrame(s.tokens[0]).frame
    else Frame("", None, None)
  }

  /** A well-formed frame within the range of an index, or with no index to compute. */
  ghost predicate Sendable(f: Frame) {
    WellFormed(f) && (|Wire(f)| <= INT_MAX || BodyLength(f) == Some(-1))
  }

  lemma Arrives(f: Frame, key: string)
    requires Sendable(f)
    ensures Received(f) == f.Normal() && Received(f).Get(key) == f.Get(key)
  {
    hide Wire, ParseFrame, ScanAll, WellFormed, BodyLength;
    AloneInStream(f);
  }

  /** A frame with no body and no content-length header only has to be faithful. */
  lemma HeadersOnly(f: Frame)
    requires Faithful(f) && f.command != "" && f.Payload() == ""
    requires forall k :: k in f.HeaderMap() ==> !IsContentLength(k)
    ensures Sendable(f)
  {
    hide Wire, Faithful, BodyLength, IsContentLength;
    BodyLengthExact(f);
  }

  lemma NoLengthInConnect(useStomp: bool, host: string, login: string, passcode: string, own: Beat, k: string)
    requires k in ConnectFrame(useStomp, host, login, passcode, own).HeaderMap()
    ensures !IsContentLength(k)
  {
    hide FormatHbVal, ToLower;
    var key := KEY_ACCEPT_VERSION;
    assert forall i :: 0 <= i < |key| ==> !('A' <= key[i] <= 'Z');
    LowerAlready(key);
    assert KEY_ACCEPT_VERSION[0] != KEY_CONTENT_LENGTH[0];
    if k != KEY_ACCEPT_VERSION {
      assert |KEY_HEART_BEAT| == 10 && |KEY_HOST| == 4 && |KEY_LOGIN| == 5 && |KEY_PASSCODE| == 8;
      LowerLength(k);
    }
  }

  lemma NoLengthInConnected(sessionID: string, server: string, own: Beat, k: string)
    requires k in ConnectedFrame(sessionID, server, own).HeaderMap()
    ensures !IsContentLength(k)
  {
    hide FormatHbVal, ToLower;
    assert |KEY_HEART_BEAT| == 10 && |KEY_VERSION| == 7 && |KEY_SESSION| == 7 && |KEY_SERVER| == 6;
    LowerLength(k);
  }

  /** A printed offer, once received, negotiates like the offer itself. */
  lemma OfferArrives(own: Beat, send: int, recv: int)
    requires 0 <= send <= INT_MAX && 0 <= recv <= INT_MAX
    ensures AfterHeader(own, FormatHbVal(send, recv)) == Some(Negotiated(own, send, recv))
  {
    HbValRoundTrip(send, recv);
  }

  lemma ConnectOffer(useStomp: bool, host: string, login: string, passcode: string, own: Beat)
    ensures ConnectFrame(useStomp, host, login, passcode, own).Get(KEY_HEART_BEAT)
         == if own.send != 0 || own.recv != 0 then FormatHbVal(own.send, own.recv) else ""
  {
    hide FormatHbVal;
    assert |KEY_HEART_BEAT| == 10 && |KEY_ACCEPT_VERSION| == 14 && |KEY_HOST| == 4 && |KEY_LOGIN| == 5 && |KEY_PASSCODE| == 8;
  }

  lemma ConnectedOffer(sessionID: string, server: string, own: Beat)
    ensures ConnectedFrame(sessionID, server, own).Get(KEY_HEART_BEAT) == FormatHbVal(own.send, own.recv)
    ensures ConnectedFrame(sessionID, server, own).Get(KEY_SESSION) == sessionID
  {
    hide FormatHbVal;
    assert KEY_SESSION[0] != KEY_SESSION[1] && KEY_SESSION[1] != KEY_VERSION[0];
    assert |KEY_HEART_BEAT| == 10 && |KEY_VERSION| == 7 && |KEY_SESSION| == 7 && |KEY_SERVER| == 6;
    assert KEY_VERSION[0] != KEY_SESSION[0];
  }

  lemma ConnectSendable(useStomp: bool, host: string, login: string, passcode: string, own: Beat)
    requires CleanText(host) && CleanText(login) && CleanText(passcode)
    ensures Sendable(ConnectFrame(useStomp, host, login, passcode, own))
  {
    hide Sendable, Faithful, CleanText, IsContentLength, FormatHbVal;
    var f := ConnectFrame(useStomp, host, login, passcode, own);
    ConnectFaithful(useStomp, host, login, passcode, own);
    forall k | k in f.HeaderMap() ensures !IsContentLength(k) {
      NoLengthInConnect(useStomp, host, login, passcode, own, k);
    }
    HeadersOnly(f);
  }

  lemma ConnectedSendable(sessionID: string, server: string, own: Beat)
    requires CleanText(sessionID) && CleanText(server)
    ensures Sendable(ConnectedFrame(sessionID, server, own))
  {
    hide Sendable, Faithful, CleanText, IsContentLength, FormatHbVal;
    var f := ConnectedFrame(sessionID, server, own);
    ConnectedFaithful(sessionID, server, own);
    forall k | k in f.HeaderMap() ensures !IsContentLength(k) {
      NoLengthInConnected(sessionID, server, own, k);
    }
    HeadersOnly(f);
  }

  lemma ConnectArrives(client: Beat, broker: Beat, useStomp: bool, host: string, login: string, passcode: string)
    requires 0 <= client.send <= INT_MAX && 0 <= client.recv <= INT_MAX
    requires CleanText(host) && CleanText(login) && CleanText(passcode)
    ensures AfterConnect(broker, Received(ConnectFrame(useStomp, host, login, passcode, client)))
         == Some(if client.send != 0 || client.recv != 0 then Negotiated(broker, client.send, client.recv) else broker)
  {
    hide Received, Sendable, FormatHbVal, ConnectFrame, Frame.Get, AfterHeader, Negotiated;
    ConnectSendable(useStomp, host, login, passcode, client);
    Arrives(ConnectFrame(useStomp, host, login, passcode, client), KEY_HEART_BEAT);
    ConnectOffer(useStomp, host, login, passcode, client);
    HbValClean(client.send, client.recv);
    OfferArrives(broker, client.send, client.recv);
  }

  lemma ConnectedArrives(client: Beat, broker: Beat, sessionID: string, server: string)
    requires 0 <= broker.send <= INT_MAX && 0 <= broker.recv <= INT_MAX
    requires CleanText(sessionID) && CleanText(server) && sessionID != ""
    ensures AfterConnected(client, Received(ConnectedFrame(sessionID, server, broker)))
         == Some(Negotiated(client, broker.send, broker.recv))
  {
    hide Received, Sendable, FormatHbVal, ConnectedFrame, Frame.Get, AfterHeader, Negotiated;
    var connected := ConnectedFrame(sessionID, server, broker);
    ConnectedSendable(sessionID, server, broker);
    Arrives(connected, KEY_HEART_BEAT);
    Arrives(connected, KEY_SESSION);
    ConnectedOffer(sessionID, server, broker);
    HbValClean(broker.send, broker.recv);
    OfferArrives(client, broker.send, broker.recv);
  }

  /** After CONNECT and CONNECTED have crossed the wire, the client has the agreed intervals and
      each side has a job exactly when its agreed send interval is not zero. The broker's
      intervals mirror the client's exactly when the client offered anything or the broker
      offered nothing: a client that offers nothing sends no header, and the broker keeps its offer. */
  lemma HandshakeAgrees(client: Beat, broker: Beat, useStomp: bool, host: string, login: string, passcode: string,
                        sessionID: string, server: string)
    requires 0 <= client.send <= INT_MAX && 0 <= client.recv <= INT_MAX && client.job == None
    requires 0 <= broker.send <= INT_MAX && 0 <= broker.recv <= INT_MAX && broker.job == None
    requires CleanText(host) && CleanText(login) && CleanText(passcode)
    requires CleanText(sessionID) && CleanText(server) && sessionID != ""
    ensures
      var b := AfterConnect(broker, Received(ConnectFrame(useStomp, host, login, passcode, client)));
      b.Some? &&
      var c := AfterConnected(client, Received(ConnectedFrame(sessionID, server, b.value)));
      c.Some? &&
      var (up, down) := (Agreed(client.send, broker.recv), Agreed(broker.send, client.recv));
      && c.value.send == up && c.value.recv == down
      && c.value.job == (if up == 0 then None else Some(up))
      && b.value.job == (if down == 0 then None else Some(down))
      && (b.value.recv == up && b.value.send == down <==>
          client.send != 0 || client.recv != 0 || (broker.send == 0 && broker.recv == 0))
  {
    hide Received, ConnectFrame, ConnectedFrame, AfterConnect, AfterConnected, CleanText;
    ConnectArrives(client, broker, useStomp, host, login, passcode);
    var offered := client.send != 0 || client.recv != 0;
    var b := if offered then Negotiated(broker, client.send, client.recv) else broker;
    ConnectedArrives(client, b, sessionID, server);
  }
}
