/**
 Frames on the wire (serializer.go, frame.go): printing, parsing, and exactly which
 frames survive the trip.
 */
module Serializer {
  import opened Wrappers
  import opened GoStrings
  import opened Escaping
  import opened Sorting

  type Headers = map<string, string>

  /** The value of a Go `Frame`. `None` is Go's nil map or nil slice. */
  datatype Frame = Frame(command: string, headers: Option<Headers>, body: Option<string>) {
    function HeaderMap(): Headers {
      if headers.Some? then headers.value else map[]
    }

    function Payload(): string {
      if body.Some? then body.value else ""
    }

    /** What a parser can give back: a non-nil map, and nil for an empty body. */
    function Normal(): Frame {
      Frame(command, Some(HeaderMap()), if Payload() == "" then None else Some(Payload()))
    }

    /** `getHeader` */
    function Get(key: string): string {
      if key in HeaderMap() then HeaderMap()[key] else ""
    }
  }

  // ---------- printing ----------

  function HeaderLine(k: string, v: string): string {
    Escape(k) + ":" + Escape(v)
  }

  function HeaderBlock(keys: seq<string>, headers: Headers): string
    requires forall k :: k in keys ==> k in headers
  {
    if keys == [] then "" else HeaderLine(keys[0], headers[keys[0]]) + "\n" + HeaderBlock(keys[1..], headers)
  }

  /** Everything up to and including the blank line. */
  ghost function Head(f: Frame): string {
    f.command + "\n" + HeaderBlock(SortedKeys(f.HeaderMap().Keys), f.HeaderMap()) + "\n"
  }

  /** The bytes of a frame. */
  ghost function Wire(f: Frame): string {
    Head(f) + f.Payload() + [NUL]
  }

  method GetSortedHeaderKeys(headers: Headers) returns (keys: seq<string>)
    ensures keys == SortedKeys(headers.Keys)
  {
    keys := ListKeys(headers.Keys);
    CanonicalOrder(keys, headers.Keys);
    keys := SortStrings(keys);
  }

  method Serialize(f: Frame) returns (sb: string)
    ensures sb == Wire(f)
  {
    sb := f.command + "\n";
    if f.headers.Some? {
      var headers := f.headers.value;
      var keys := GetSortedHeaderKeys(headers);
      ghost var done := f.command + "\n" + HeaderBlock(keys, headers);
      for i := 0 to |keys|
        invariant sb + HeaderBlock(keys[i..], headers) == done
      {
        assert keys[i..][1..] == keys[i + 1..];
        var line := HeaderLine(keys[i], headers[keys[i]]) + "\n";
        Associate(sb, line, HeaderBlock(keys[i + 1..], headers));
        sb := sb + line;
      }
      assert sb == done;
    } else {
      assert SortedKeys({}) == [];
    }
    sb := sb + "\n";
    if f.body.Some? {
      sb := sb + f.body.value;
    }
    sb := sb + [NUL];
  }

  // ---------- parsing ----------

  /** A parse ends in a frame, in an error, or in a failed bounds check of the Go runtime. */
  datatype Parse = Parsed(frame: Frame) | Malformed | Trap

  /** Position of the NUL that only line feeds follow; 0 when there is nothing but line feeds. */
  function LastNul(buf: string): (pos: Option<nat>)
    ensures pos.Some? ==> pos.value <= |buf|
  {
    if buf == "" then Some(0)
    else
      var last := buf[|buf| - 1];
      if last == LF then LastNul(buf[..|buf| - 1])
      else if last == NUL then Some(|buf| - 1)
      else None
  }

  /** Reads header lines up to the first empty one; a repeated key keeps its last value. */
  function ParseHeaders(lines: seq<string>, headers: Headers): Option<Headers> {
    if lines == [] || lines[0] == "" then Some(headers)
    else
      var h := Split(lines[0], COLON);
      if |h| != 2 then None
      else ParseHeaders(lines[1..], headers[Unescape(h[0]) := Unescape(h[1])])
  }

  function WithoutCR(s: string): string {
    ReplaceAll(s, "\r", "")
  }

  /** The frame in a buffer whose terminator is already cut off. */
  function ParseText(buf: string): Parse {
    var s := WithoutCR(buf);
    var lines := Split(s, LF);
    match ParseHeaders(lines[1..], map[])
    case None => Malformed
    case Some(headers) =>
      var i := Index(s, "\n\n");
      if i == -1 then Malformed
      else if i + 2 == |buf| then Parsed(Frame(lines[0], Some(headers), None))
      else if |buf| > |s| then Trap
      else
        DeleteByte(buf, CR);
        Parsed(Frame(lines[0], Some(headers), Some(s[i + 2..|buf|])))
  }

  function ParseFrame(buf: string): Parse {
    match LastNul(buf)
    case None => Malformed
    case Some(nulPos) => ParseText(buf[..nulPos])
  }

  /** A frame object that the parser fills in place. */
  class FrameObject {
    var command: string
    var headers: Option<Headers>
    var body: Option<string>

    constructor ()
      ensures Value() == Frame("", None, None)
    {
      command, headers, body := "", None, None;
    }

    function Value(): Frame
      reads this
    {
      Frame(command, headers, body)
    }

    /** Fills the object on success and leaves it alone otherwise. */
    method Deserialize(buf: string) returns (r: Parse)
      modifies this
      ensures r == ParseFrame(buf)
      ensures r.Parsed? ==> Value() == r.frame
      ensures !r.Parsed? ==> Value() == old(Value())
    {
      var nulPos := 0;
      var i := |buf| - 1;
      assert buf[..i + 1] == buf;
      while i >= 0
        invariant -1 <= i < |buf|
        invariant nulPos == 0
        invariant LastNul(buf) == LastNul(buf[..i + 1])
      {
        assert buf[..i + 1][..i] == buf[..i];
        if buf[i] == LF {
          i := i - 1;
          continue;
        }
        if buf[i] == NUL {
          nulPos := i;
          break;
        }
        return Malformed;
      }
      assert LastNul(buf) == Some(nulPos);
      var text := buf[..nulPos];
      var s := WithoutCR(text);
      var lines := Split(s, LF);
      var cmd := lines[0];
      var rest := lines[1..];
      var hdrs: Headers := map[];
      var n := 0;
      while n < |rest| && rest[n] != ""
        invariant 0 <= n <= |rest|
        invariant ParseHeaders(rest, map[]) == ParseHeaders(rest[n..], hdrs)
      {
        assert rest[n..][1..] == rest[n + 1..];
        var h := Split(rest[n], COLON);
        if |h| != 2 {
          return Malformed;
        }
        hdrs := hdrs[Unescape(h[0]) := Unescape(h[1])];
        n := n + 1;
      }
      assert ParseHeaders(rest, map[]) == Some(hdrs);
      var blank := Index(s, "\n\n");
      if blank == -1 {
        return Malformed;
      }
      var payload: Option<string> := None;
      if blank + 2 != |text| {
        if |text| > |s| {
          return Trap;
        }
        DeleteByte(text, CR);
        payload := Some(s[blank + 2..|text|]);
      }
      command := cmd;
      headers := Some(hdrs);
      body := payload;
      r := Parsed(Value());
    }
  }

  // ---------- carriage returns ----------

  /** The body is cut at the length the text had before carriage returns were dropped. So a
      text with one never parses: it traps exactly when it would parse without them. */
  lemma CarriageReturnTraps(text: string)
    ensures ParseText(text) == Trap <==> CR in text && ParseText(WithoutCR(text)).Parsed?
    ensures CR in text ==> !ParseText(text).Parsed?
  {
    DeleteByte(text, CR);
    DeleteByte(WithoutCR(text), CR);
    NoByteLeft(text, CR);
  }

  lemma {:induction false} NoByteLeft(s: string, c: char)
    ensures c !in ReplaceAll(s, [c], "")
  {
    if s != "" {
      NoByteLeft(s[1..], c);
      assert s == [s[0]] + s[1..];
      ReplaceAllStep(s[0], s[1..], [c], "");
    }
  }

  // ---------- the printed text, taken apart ----------

  /** The parser finds the terminator behind any number of trailing line feeds. */
  lemma {:induction false} LastNulOfPadded(text: string, k: nat)
    ensures LastNul(text + [NUL] + Feeds(k)) == Some(|text|)
  {
    var buf := text + [NUL] + Feeds(k);
    if k == 0 {
      assert buf == text + [NUL];
    } else {
      LastNulOfPadded(text, k - 1);
      assert Feeds(k) == Feeds(k - 1) + [LF];
      assert buf[..|buf| - 1] == text + [NUL] + Feeds(k - 1);
    }
  }

  function Feeds(k: nat): (s: string)
    ensures |s| == k
    ensures forall c :: c in s ==> c == LF
  {
    seq(k, _ => LF)
  }

  lemma ParsePadded(text: string, k: nat)
    ensures ParseFrame(text + [NUL] + Feeds(k)) == ParseText(text)
  {
    LastNulOfPadded(text, k);
    assert (text + [NUL] + Feeds(k))[..|text|] == text;
  }

  /** No empty line: a line feed is never followed by another. */
  predicate NoBlankLine(s: string) {
    forall j :: 0 <= j < |s| - 1 && s[j] == LF ==> s[j + 1] != LF
  }

  lemma LineShape(k: string, v: string)
    ensures LF !in HeaderLine(k, v) && HeaderLine(k, v) != ""
    ensures CR in HeaderLine(k, v) <==> CR in k || CR in v
  {
    EscapeHidesDelimiters(k);
    EscapeHidesDelimiters(v);
  }

  lemma {:induction false} BlockShape(keys: seq<string>, headers: Headers)
    requires forall k :: k in keys ==> k in headers
    ensures NoBlankLine(HeaderBlock(keys, headers))
    ensures var b := HeaderBlock(keys, headers); b == "" || (b[0] != LF && b[|b| - 1] == LF)
    ensures CR in HeaderBlock(keys, headers) <==> exists k :: k in keys && (CR in k || CR in headers[k])
  {
    if keys != [] {
      BlockShape(keys[1..], headers);
      LineShape(keys[0], headers[keys[0]]);
      assert keys == [keys[0]] + keys[1..];
      var line, rest := HeaderLine(keys[0], headers[keys[0]]), HeaderBlock(keys[1..], headers);
      assert forall j :: 0 <= j < |line| ==> line[j] in line;
    }
  }

  /** The first blank line is the one that ends the headers, whatever the body holds. */
  lemma FirstBlankLine(command: string, block: string, body: string)
    requires LF !in command
    requires NoBlankLine(block)
    requires block == "" || (block[0] != LF && block[|block| - 1] == LF)
    ensures Index(command + "\n" + block + "\n" + body, "\n\n") == |command| + |block|
  {
    var s := command + "\n" + block + "\n" + body;
    var n := |command| + |block|;
    assert forall j :: 0 <= j < |command| ==> command[j] in command;
    assert s[n] == LF && s[n + 1] == LF;
    assert OccursAt(s, "\n\n", n);
    forall j | OccursAt(s, "\n\n", j) ensures n <= j {
      assert s[j..][0] == s[j] && s[j..][1] == s[j + 1];
    }
  }

  /** The header map that the parser builds from a printed block. */
  function Returned(keys: seq<string>, headers: Headers, acc: Headers): Headers
    requires forall k :: k in keys ==> k in headers
  {
    if keys == [] then acc
    else Returned(keys[1..], headers, acc[Unescape(Escape(keys[0])) := Unescape(Escape(headers[keys[0]]))])
  }

  lemma {:induction false} ParseOfBlock(keys: seq<string>, headers: Headers, body: string, acc: Headers)
    requires forall k :: k in keys ==> k in headers
    ensures ParseHeaders(Split(HeaderBlock(keys, headers) + "\n" + body, LF), acc) == Some(Returned(keys, headers, acc))
  {
    if keys == [] {
      assert "" + "\n" + body == "" + [LF] + body;
      SplitCons("", LF, body);
    } else {
      var k, v := keys[0], headers[keys[0]];
      var rest := HeaderBlock(keys[1..], headers) + "\n" + body;
      BlockLines(keys, headers, body);
      ParseOfLine(k, v, Split(rest, LF), acc);
      ParseOfBlock(keys[1..], headers, body, acc[Unescape(Escape(k)) := Unescape(Escape(v))]);
    }
  }

  lemma BlockLines(keys: seq<string>, headers: Headers, body: string)
    requires keys != [] && forall k :: k in keys ==> k in headers
    ensures Split(HeaderBlock(keys, headers) + "\n" + body, LF)
         == [HeaderLine(keys[0], headers[keys[0]])] + Split(HeaderBlock(keys[1..], headers) + "\n" + body, LF)
  {
    var line, rest := HeaderLine(keys[0], headers[keys[0]]), HeaderBlock(keys[1..], headers);
    LineShape(keys[0], headers[keys[0]]);
    assert HeaderBlock(keys, headers) == line + "\n" + rest;
    hide HeaderLine, HeaderBlock, Split;
    SplitCons(line, LF, rest + "\n" + body);
    Associate(line + "\n", rest, "\n");
    Associate(line + "\n", rest + "\n", body);
  }

  lemma ParseOfLine(k: string, v: string, lines: seq<string>, acc: Headers)
    ensures ParseHeaders([HeaderLine(k, v)] + lines, acc)
         == ParseHeaders(lines, acc[Unescape(Escape(k)) := Unescape(Escape(v))])
  {
    LineShape(k, v);
    ColonsOnLine(k, v);
    assert ([HeaderLine(k, v)] + lines)[1..] == lines;
  }

  /** How a text without carriage returns parses, given its lines and its first blank line. */
  lemma ParseOfPieces(command: string, block: string, body: string, headers: Headers)
    requires LF !in command && CR !in command + "\n" + block + "\n" + body
    requires NoBlankLine(block)
    requires block == "" || (block[0] != LF && block[|block| - 1] == LF)
    requires ParseHeaders(Split(block + "\n" + body, LF), map[]) == Some(headers)
    ensures ParseText(command + "\n" + block + "\n" + body)
         == Parsed(Frame(command, Some(headers), if body == "" then None else Some(body)))
  {
    var head := command + "\n" + block + "\n";
    FirstBlankLine(command, block, body);
    TextLines(command, block, body);
    assert Split(head + body, LF)[1..] == Split(block + "\n" + body, LF);
    CutText(head, body, headers);
  }

  lemma CutText(head: string, body: string, headers: Headers)
    requires CR !in head + body
    requires ParseHeaders(Split(head + body, LF)[1..], map[]) == Some(headers)
    requires Index(head + body, "\n\n") == |head| - 2 >= 0
    ensures ParseText(head + body)
         == Parsed(Frame(Split(head + body, LF)[0], Some(headers), if body == "" then None else Some(body)))
  {
    DeleteByte(head + body, CR);
    BodyPart(head, body);
  }

  lemma TextLines(command: string, block: string, body: string)
    requires LF !in command
    ensures Split(command + "\n" + block + "\n" + body, LF) == [command] + Split(block + "\n" + body, LF)
  {
    SplitCons(command, LF, block + "\n" + body);
    assert command + "\n" + block + "\n" + body == command + [LF] + (block + "\n" + body);
  }

  lemma BodyPart(head: string, body: string)
    ensures (head + body)[|head|..|head + body|] == body
  {
  }

  /** What comes back from a printed frame without carriage returns, for any header strings. */
  lemma ParseOfPrinted(f: Frame)
    requires LF !in f.command && CR !in Head(f) + f.Payload()
    ensures ParseText(Head(f) + f.Payload())
         == Parsed(Frame(f.command, Some(Returned(SortedKeys(f.HeaderMap().Keys), f.HeaderMap(), map[])), f.Normal().body))
  {
    var headers := f.HeaderMap();
    var keys := SortedKeys(headers.Keys);
    var block, body := HeaderBlock(keys, headers), f.Payload();
    BlockShape(keys, headers);
    ParseOfBlock(keys, headers, body, map[]);
    assert Head(f) + body == f.command + "\n" + block + "\n" + body;
    ParseOfPieces(f.command, block, body, Returned(keys, headers, map[]));
  }

  // ---------- which frames come back ----------

  predicate SafeHeaders(headers: Headers) {
    forall k :: k in headers ==> Safe(k) && Safe(headers[k])
  }

  predicate FreeOfCR(f: Frame) {
    CR !in f.command && CR !in f.Payload() && forall k :: k in f.HeaderMap() ==> CR !in k && CR !in f.HeaderMap()[k]
  }

  /** The frames that survive printing and parsing. */
  predicate Faithful(f: Frame) {
    LF !in f.command && FreeOfCR(f) && SafeHeaders(f.HeaderMap())
  }

  lemma {:induction false} ReturnedSame(keys: seq<string>, headers: Headers, acc: Headers)
    requires forall k :: k in keys ==> k in headers
    requires SafeHeaders(headers)
    ensures Returned(keys, headers, acc).Keys == acc.Keys + (set k | k in keys)
    ensures forall k :: k in keys ==> Returned(keys, headers, acc)[k] == headers[k]
    ensures forall k :: k in acc && k !in keys ==> Returned(keys, headers, acc)[k] == acc[k]
  {
    if keys != [] {
      var k, v := keys[0], headers[keys[0]];
      UnescapeInvertsEscape(k);
      UnescapeInvertsEscape(v);
      ReturnedSame(keys[1..], headers, acc[k := v]);
      assert keys == [k] + keys[1..];
    }
  }

  /** Header strings as the parser leaves them. */
  predicate CleanHeaders(headers: Headers) {
    forall k :: k in headers ==> CR !in k && CR !in headers[k] && Safe(k) && Safe(headers[k])
  }

  lemma {:induction false} ParsedHeadersClean(lines: seq<string>, acc: Headers)
    requires CleanHeaders(acc) && forall l :: l in lines ==> CR !in l
    ensures ParseHeaders(lines, acc).Some? ==> CleanHeaders(ParseHeaders(lines, acc).value)
  {
    if lines != [] && lines[0] != "" {
      var h := Split(lines[0], COLON);
      if |h| == 2 {
        SplitWithin(lines[0], COLON, CR);
        UnescapeIsSafe(h[0]);
        UnescapeIsSafe(h[1]);
        UnescapeKeepsCR(h[0]);
        UnescapeKeepsCR(h[1]);
        ParsedHeadersClean(lines[1..], acc[Unescape(h[0]) := Unescape(h[1])]);
      }
    }
  }

  /** Every frame the parser accepts is faithful and normal. */
  lemma ParsedIsFaithful(text: string)
    requires ParseText(text).Parsed?
    ensures Faithful(ParseText(text).frame) && ParseText(text).frame.Normal() == ParseText(text).frame
  {
    var f := ParseText(text).frame;
    DeleteByte(text, CR);
    CarriageReturnTraps(text);
    SplitParts(text, LF);
    SplitWithin(text, LF, CR);
    ParsedHeadersClean(Split(text, LF)[1..], map[]);
    assert f.body.Some? ==> forall c :: c in f.body.value ==> c in text;
  }

  /** A frame read off the wire is printed and read back unchanged by the next hop. */
  lemma Relay(buf: string, k: nat)
    requires ParseFrame(buf).Parsed?
    ensures ParseFrame(Wire(ParseFrame(buf).frame) + Feeds(k)) == ParseFrame(buf)
  {
    ParsedIsFaithful(buf[..LastNul(buf).value]);
    RoundTrip(ParseFrame(buf).frame, k);
  }

  lemma PrintedCR(f: Frame)
    ensures CR !in Head(f) + f.Payload() <==> FreeOfCR(f)
  {
    var headers := f.HeaderMap();
    BlockShape(SortedKeys(headers.Keys), headers);
    assert Head(f) + f.Payload() == f.command + "\n" + HeaderBlock(SortedKeys(headers.Keys), headers) + "\n" + f.Payload();
  }

  lemma ReturnedAll(headers: Headers)
    requires SafeHeaders(headers)
    ensures Returned(SortedKeys(headers.Keys), headers, map[]) == headers
  {
    ReturnedSame(SortedKeys(headers.Keys), headers, map[]);
  }

  lemma FaithfulParses(f: Frame)
    requires Faithful(f)
    ensures ParseText(Head(f) + f.Payload()) == Parsed(f.Normal())
  {
    PrintedCR(f);
    ParseOfPrinted(f);
    ReturnedAll(f.HeaderMap());
  }

  /** Printing, padding with heartbeats and parsing gives the frame back exactly when its
      command has no line feed, nothing in it has a carriage return, and no header string
      has a backslash directly before `n` or `c`. */
  lemma RoundTrip(f: Frame, k: nat)
    ensures ParseFrame(Wire(f) + Feeds(k)) == Parsed(f.Normal()) <==> Faithful(f)
  {
    var text := Head(f) + f.Payload();
    ParsePadded(text, k);
    if Faithful(f) {
      FaithfulParses(f);
    } else if ParseText(text) == Parsed(f.Normal()) {
      ParsedIsFaithful(text);
      assert false;
    }
  }

  /** Faithful frames with the same bytes are the same frame, up to nil and empty. */
  lemma WireInjective(f: Frame, g: Frame)
    requires Faithful(f) && Faithful(g) && Wire(f) == Wire(g)
    ensures f.Normal() == g.Normal()
  {
    RoundTrip(f, 0);
    RoundTrip(g, 0);
  }
}
