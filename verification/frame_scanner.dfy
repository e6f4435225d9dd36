/**
 Cutting a byte stream into frames (frame_scanner.go): the splitter, its safety, and
 its stability under more input.
 */
module FrameScanner {
  import opened Wrappers
  import opened Names
  import opened GoStrings
  import opened Escaping


  predicate IsEol(c: char) { c == LF || c == CR }

  datatype Why = LineTooLong | MissingColon | BadContentLength | NotNulTerminated

  // ---------- what the splitter finds ----------

  /** Number of line-end bytes at the front. */
  function EolPrefix(data: string): (n: nat)
    ensures n <= |data|
    ensures n < |data| ==> !IsEol(data[n])
  {
    if data == "" || !IsEol(data[0]) then 0 else 1 + EolPrefix(data[1..])
  }

  lemma {:induction false} EolPrefixEols(data: string)
    ensures forall i :: 0 <= i < EolPrefix(data) ==> IsEol(data[i])
  {
    if EolPrefix(data) > 0 {
      EolPrefixEols(data[1..]);
      assert forall i :: 1 <= i < |data| ==> data[i] == data[1..][i - 1];
    }
  }

  /** Header lines either break the scan or end, after `size` bytes, with the body length they declare. */
  datatype HeaderScan = Broken(why: Why) | Headers(size: nat, bodyLen: int) {
    function After(n: nat): HeaderScan {
      if Broken? then this else Headers(size + n, bodyLen)
    }
  }

  function LengthAfter(hdr: seq<string>, bodyLen: int): Option<int>
    requires |hdr| >= 2
  {
    if ToLower(hdr[0]) == KEY_CONTENT_LENGTH then Atoi(hdr[1]) else Some(bodyLen)
  }

  function ScanHeaders(d: string, bodyLen: int): (r: HeaderScan)
    ensures r.Headers? ==> 1 <= r.size <= |d|
    decreases |d|
  {
    var offset := IndexByte(d, LF);
    if offset == -1 then Broken(LineTooLong)
    else if offset == 0 then Headers(1, bodyLen)
    else
      var hdr := Split(d[..offset], COLON);
      if |hdr| == 1 then Broken(MissingColon)
      else
        match LengthAfter(hdr, bodyLen)
        case None => Broken(BadContentLength)
        case Some(n) => ScanHeaders(d[offset + 1..], n).After(offset + 1)
  }

  /** Command line, header lines and the blank line. */
  function ScanHead(d: string): (r: HeaderScan)
    ensures r.Headers? ==> 2 <= r.size <= |d|
  {
    var offset := IndexByte(d, LF);
    if offset == -1 then Broken(LineTooLong) else ScanHeaders(d[offset + 1..], -1).After(offset + 1)
  }

  /** A frame found at `start`, with `end` just after its NUL; or no frame yet; or none ever. */
  datatype Framing = NeedMore | Refused(why: Why) | Trap | Found(start: nat, end: nat)

  /** The end of a frame whose body begins at `start`. Index arithmetic is 64-bit. */
  function FindEnd(data: string, frameStart: nat, start: nat, bodyLen: int): (r: Framing)
    requires start <= |data|
    ensures r.Found? ==> r.start == frameStart && 1 <= r.end <= |data| && data[r.end - 1] == NUL
  {
    if start == |data| then NeedMore
    else if bodyLen == -1 then
      var offset := IndexByte(data[start..], NUL);
      if offset == -1 then NeedMore else Found(frameStart, start + offset + 1)
    else
      var end := WrapInt(start + bodyLen);
      if end > |data| - 1 then NeedMore
      else if end < 0 then Trap
      else if data[end] != NUL then Refused(NotNulTerminated)
      else Found(frameStart, end + 1)
  }

  function FrameAt(data: string, start: nat, head: HeaderScan): (r: Framing)
    requires start <= |data| && (head.Headers? ==> start + head.size <= |data|)
    ensures r.Found? ==> r.start == start && 1 <= r.end <= |data| && data[r.end - 1] == NUL
  {
    match head
    case Broken(why) => Refused(why)
    case Headers(size, bodyLen) => FindEnd(data, start, start + size, bodyLen)
  }

  function FindFrame(data: string): (r: Framing)
    ensures r.Found? ==> r.start == EolPrefix(data) && 1 <= r.end <= |data| && data[r.end - 1] == NUL
  {
    hide ScanHead, EolPrefix;
    var start := EolPrefix(data);
    if start == |data| then NeedMore else FrameAt(data, start, ScanHead(data[start..]))
  }

  /** The bytes of a found frame, up to and including its NUL. */
  function FrameBytes(data: string): string
    requires FindFrame(data).Found?
  {
    hide FindFrame;
    FoundBounds(data);
    data[FindFrame(data).start..FindFrame(data).end]
  }

  /** The splitter's answer. A token may take one line-end byte along after its NUL. */
  datatype Cut = More | Fail(why: Why) | Panic | Token(advance: nat, token: string)

  function TakeEol(data: string, s: nat, e: nat): Cut
    requires s < e <= |data|
  {
    var e := if e < |data| && IsEol(data[e]) then e + 1 else e;
    Token(e, data[s..e])
  }

  function CutOf(data: string): Cut {
    match FindFrame(data)
    case NeedMore => More
    case Refused(why) => Fail(why)
    case Trap => Panic
    case Found(s, e) =>
      FoundBounds(data);
      TakeEol(data, s, e)
  }

  /** A found frame starts at the first byte that is not a line end, is not empty and ends in NUL. */
  lemma FoundBounds(data: string)
    requires FindFrame(data).Found?
    ensures EolPrefix(data) == FindFrame(data).start < FindFrame(data).end <= |data|
    ensures data[FindFrame(data).end - 1] == NUL
  {
    hide FindFrame, EolPrefix;
    EolPrefixEols(data);
    assert !IsEol(data[FindFrame(data).end - 1]);
  }

  // ---------- the code ----------

  // One step of each scan, at a position of the buffer.

  lemma EolStep(data: string, i: nat)
    requires i <= |data|
    ensures EolPrefix(data[i..]) == if i == |data| || !IsEol(data[i]) then 0 else 1 + EolPrefix(data[i + 1..])
  {
    assert i < |data| ==> data[i..][1..] == data[i + 1..];
  }

  lemma FrameStep(data: string)
    ensures
      var start := EolPrefix(data);
      FindFrame(data) == if start == |data| then NeedMore else FrameAt(data, start, ScanHead(data[start..]))
  {
  }

  lemma HeadStep(data: string, i: nat)
    requires i <= |data|
    ensures
      var offset := IndexByte(data[i..], LF);
      ScanHead(data[i..]) ==
        if offset == -1 then Broken(LineTooLong) else ScanHeaders(data[i + offset + 1..], -1).After(offset + 1)
  {
    hide ScanHeaders, IndexByte;
    var offset := IndexByte(data[i..], LF);
    assert offset != -1 ==> data[i..][offset + 1..] == data[i + offset + 1..];
  }

  lemma ScanStep(data: string, i: nat, bodyLen: int)
    requires i <= |data|
    ensures
      var offset := IndexByte(data[i..], LF);
      ScanHeaders(data[i..], bodyLen) ==
        if offset == -1 then Broken(LineTooLong)
        else if offset == 0 then Headers(1, bodyLen)
        else
          var hdr := Split(data[i..i + offset], COLON);
          if |hdr| == 1 then Broken(MissingColon)
          else
            var n := LengthAfter(hdr, bodyLen);
            if n.None? then Broken(BadContentLength)
            else ScanHeaders(data[i + offset + 1..], n.value).After(offset + 1)
  {
    hide ScanHeaders, Split, LengthAfter, IndexByte;
    ScanLine(data[i..], bodyLen);
    var offset := IndexByte(data[i..], LF);
    if offset != -1 {
      assert data[i..][offset + 1..] == data[i + offset + 1..];
      assert data[i..][..offset] == data[i..i + offset];
    }
  }

  lemma ScanLine(d: string, bodyLen: int)
    ensures
      var offset := IndexByte(d, LF);
      ScanHeaders(d, bodyLen) ==
        if offset == -1 then Broken(LineTooLong)
        else if offset == 0 then Headers(1, bodyLen)
        else
          var hdr := Split(d[..offset], COLON);
          if |hdr| == 1 then Broken(MissingColon)
          else
            var n := LengthAfter(hdr, bodyLen);
            if n.None? then Broken(BadContentLength)
            else ScanHeaders(d[offset + 1..], n.value).After(offset + 1)
  {
  }

  /** The command line and the header lines of a frame that starts at `frameStart`. */
  method ReadHead(data: string, frameStart: nat) returns (head: HeaderScan)
    requires frameStart < |data|
    ensures head == ScanHead(data[frameStart..])
  {
    hide ScanHeaders, ScanHead, Split, Atoi, ToLower, IndexByte;
    HeadStep(data, frameStart);
    var bodyLen := -1;
    var offset := IndexByte(data[frameStart..], LF);
    if offset == -1 {
      return Broken(LineTooLong);
    }
    var start := frameStart + offset + 1;
    while true
      invariant frameStart < start <= |data|
      invariant ScanHead(data[frameStart..]) == ScanHeaders(data[start..], bodyLen).After(start - frameStart)
      decreases |data| - start
    {
      ScanStep(data, start, bodyLen);
      offset := IndexByte(data[start..], LF);
      if offset == -1 {
        return Broken(LineTooLong);
      }
      var end := start + offset;
      var line := data[start..end];
      if line == "" {
        start := start + 1;
        break;
      }
      var hdr := Split(line, COLON);
      if |hdr| == 1 {
        return Broken(MissingColon);
      }
      if KEY_CONTENT_LENGTH == ToLower(hdr[0]) {
        var n := Atoi(hdr[1]);
        if n.None? {
          return Broken(BadContentLength);
        }
        bodyLen := n.value;
      }
      start := end + 1;
    }
    return Headers(start - frameStart, bodyLen);
  }

  /** The body of that frame, from `start` on. */
  method ReadBody(data: string, frameStart: nat, start: nat, bodyLen: int) returns (r: Framing)
    requires start <= |data|
    ensures r == FindEnd(data, frameStart, start, bodyLen)
  {
    if start == |data| {
      return NeedMore;
    }
    if bodyLen == -1 {
      var offset := IndexByte(data[start..], NUL);
      if offset == -1 {
        return NeedMore;
      }
      return Found(frameStart, start + offset + 1);
    }
    var end := WrapInt(start + bodyLen);
    if end > |data| - 1 {
      return NeedMore;
    }
    if end < 0 {
      return Trap;
    }
    if data[end] != NUL {
      return Refused(NotNulTerminated);
    }
    return Found(frameStart, end + 1);
  }

  method FrameSplitter(data: string) returns (r: Cut)
    ensures r == CutOf(data)
  {
    hide ScanHead, EolPrefix, FindFrame, FindEnd, IndexByte;
    FrameStep(data);
    EolStep(data, 0);
    assert data[0..] == data;
    if |data| == 0 {
      return More;
    }
    var start := 0;
    while data[start] == LF || data[start] == CR
      invariant 0 <= start < |data|
      invariant EolPrefix(data) == start + EolPrefix(data[start..])
      decreases |data| - start
    {
      EolStep(data, start);
      start := start + 1;
      EolStep(data, start);
      if start == |data| {
        return More;
      }
    }
    EolStep(data, start);
    var frameStart := start;
    var head := ReadHead(data, frameStart);
    if head.Broken? {
      return Fail(head.why);
    }
    var framing := ReadBody(data, frameStart, frameStart + head.size, head.bodyLen);
    match framing {
      case NeedMore => return More;
      case Refused(why) => return Fail(why);
      case Trap => return Panic;
      case Found(_, nulEnd) =>
        FoundBounds(data);
        var end := nulEnd;
        if end < |data| && (data[end] == CR || data[end] == LF) {
          end := end + 1;
        }
        return Token(end, data[frameStart..end]);
    }
  }

  // ---------- safety ----------

  /** Index arithmetic stays in bounds exactly as long as the declared body length does not
      reach before the buffer or past the largest integer. */
  lemma PanicsOnlyOutOfRange(data: string)
    requires |data| <= INT_MAX
    ensures CutOf(data) == Panic <==>
      var start := EolPrefix(data);
      start < |data| && ScanHead(data[start..]).Headers? &&
      var body := start + ScanHead(data[start..]).size;
      var n := ScanHead(data[start..]).bodyLen;
      body < |data| && (body + n > INT_MAX || (n != -1 && body + n < 0))
    ensures CutOf(data) == Panic ==>
      var n := ScanHead(data[EolPrefix(data)..]).bodyLen; n < -1 || n > INT_MAX - |data|
  {
    hide ScanHead;
    var start := EolPrefix(data);
    if start < |data| {
      DeclaredFits(data[start..]);
    }
  }

  lemma {:induction false} ScannedFits(d: string, bodyLen: int)
    requires INT_MIN <= bodyLen <= INT_MAX
    ensures ScanHeaders(d, bodyLen).Headers? ==> INT_MIN <= ScanHeaders(d, bodyLen).bodyLen <= INT_MAX
    decreases |d|
  {
    var offset := IndexByte(d, LF);
    if offset > 0 {
      var hdr := Split(d[..offset], COLON);
      if |hdr| > 1 && LengthAfter(hdr, bodyLen).Some? {
        ScannedFits(d[offset + 1..], LengthAfter(hdr, bodyLen).value);
      }
    }
  }

  lemma DeclaredFits(d: string)
    ensures ScanHead(d).Headers? ==> INT_MIN <= ScanHead(d).bodyLen <= INT_MAX
  {
    var offset := IndexByte(d, LF);
    if offset != -1 {
      ScannedFits(d[offset + 1..], -1);
    }
  }

  /** A frame's bytes up to and including its NUL. */
  function Trim(token: string): string {
    if token != "" && IsEol(token[|token| - 1]) then token[..|token| - 1] else token
  }

  /** A token is a nonempty slice that ends at the positive advance, has only line ends before
      it, and carries at most one line end after its NUL. */
  lemma TokenShape(data: string)
    requires CutOf(data).Token?
    ensures WellShaped(data, CutOf(data).advance, CutOf(data).token)
    ensures FindFrame(data).Found?
    ensures Trim(CutOf(data).token) == FrameBytes(data)
  {
    hide FindFrame, EolPrefix;
    FoundBounds(data);
    TakeEolShape(data, FindFrame(data).start, FindFrame(data).end);
  }

  /** The shape of a token `t` that advances by `a`. */
  predicate WellShaped(data: string, a: nat, t: string) {
    && 0 < |t| <= a <= |data|
    && t == data[a - |t|..a]
    && a - |t| == EolPrefix(data)
    && Trim(t) != "" && Trim(t)[|Trim(t)| - 1] == NUL
    && (t == Trim(t) || t == Trim(t) + [data[a - 1]])
    && (t == Trim(t) && a < |data| ==> !IsEol(data[a]))
  }

  lemma TakeEolShape(data: string, s: nat, e: nat)
    requires s == EolPrefix(data) < e <= |data| && data[e - 1] == NUL
    ensures WellShaped(data, TakeEol(data, s, e).advance, TakeEol(data, s, e).token)
    ensures Trim(TakeEol(data, s, e).token) == data[s..e]
  {
    hide EolPrefix, Trim;
    var u := data[s..e];
    assert u[|u| - 1] == NUL;
    if e < |data| && IsEol(data[e]) {
      TrimEnd(u, data[e]);
      assert data[s..e + 1] == u + [data[e]];
    } else {
      TrimEnd(u, LF);
    }
  }

  lemma TrimEnd(u: string, c: char)
    requires u != "" && !IsEol(u[|u| - 1])
    ensures Trim(u) == u
    ensures IsEol(c) ==> Trim(u + [c]) == u
  {
    assert (u + [c])[..|u|] == u;
  }

  // ---------- stability under more input ----------

  lemma IndexByteGrows(s: string, x: string, c: char)
    requires IndexByte(s, c) != -1
    ensures IndexByte(s + x, c) == IndexByte(s, c)
  {
    var i := IndexByte(s, c);
    IndexByteFirst(s, c);
    assert s + x == s[..i] + [c] + (s[i + 1..] + x);
    IndexByteAt(s[..i], c, s[i + 1..] + x);
  }

  /** Complete header lines scan the same with more bytes behind them. */
  lemma {:induction false} ScanHeadersGrows(d: string, x: string, bodyLen: int)
    requires ScanHeaders(d, bodyLen) != Broken(LineTooLong)
    ensures ScanHeaders(d + x, bodyLen) == ScanHeaders(d, bodyLen)
    decreases |d|
  {
    hide ScanHeaders, Split, LengthAfter, IndexByte;
    ScanLine(d, bodyLen);
    ScanLine(d + x, bodyLen);
    var offset := IndexByte(d, LF);
    IndexByteGrows(d, x, LF);
    assert (d + x)[..offset] == d[..offset];
    assert (d + x)[offset + 1..] == d[offset + 1..] + x;
    if offset > 0 {
      var hdr := Split(d[..offset], COLON);
      if |hdr| > 1 && LengthAfter(hdr, bodyLen).Some? {
        ScanHeadersGrows(d[offset + 1..], x, LengthAfter(hdr, bodyLen).value);
      }
    }
  }

  lemma ScanHeadGrows(d: string, x: string)
    requires ScanHead(d) != Broken(LineTooLong)
    ensures ScanHead(d + x) == ScanHead(d)
  {
    hide ScanHeaders, IndexByte;
    var offset := IndexByte(d, LF);
    IndexByteGrows(d, x, LF);
    assert (d + x)[offset + 1..] == d[offset + 1..] + x;
    ScanHeadersGrows(d[offset + 1..], x, -1);
  }

  lemma {:induction false} EolPrefixGrows(data: string, x: string)
    ensures EolPrefix(data) < |data| ==> EolPrefix(data + x) == EolPrefix(data)
    ensures EolPrefix(data) == |data| ==> EolPrefix(data + x) == |data| + EolPrefix(x)
  {
    if data == "" {
      assert data + x == x;
    } else {
      EolPrefixGrows(data[1..], x);
      assert (data + x)[1..] == data[1..] + x;
    }
  }

  lemma EndGrows(data: string, x: string, frameStart: nat, start: nat, bodyLen: int)
    requires start <= |data| && !FindEnd(data, frameStart, start, bodyLen).NeedMore?
    ensures FindEnd(data + x, frameStart, start, bodyLen) == FindEnd(data, frameStart, start, bodyLen)
  {
    if bodyLen == -1 {
      assert (data + x)[start..] == data[start..] + x;
      IndexByteGrows(data[start..], x, NUL);
    }
  }

  /** Whatever the splitter finds behind complete lines, a frame or a fault, it finds again
      when more bytes have arrived. */
  lemma FindingStays(data: string, x: string)
    requires !FindFrame(data).NeedMore? && FindFrame(data) != Refused(LineTooLong)
    ensures FindFrame(data + x) == FindFrame(data)
  {
    hide ScanHead, EolPrefix, FindEnd;
    var start := EolPrefix(data);
    var head := ScanHead(data[start..]);
    EolPrefixGrows(data, x);
    HeadGrows(data, x, start);
    if head.Headers? {
      EndGrows(data, x, start, start + head.size, head.bodyLen);
    }
  }

  lemma HeadGrows(data: string, x: string, start: nat)
    requires start <= |data| && ScanHead(data[start..]) != Broken(LineTooLong)
    ensures ScanHead((data + x)[start..]) == ScanHead(data[start..])
  {
    assert (data + x)[start..] == data[start..] + x;
    ScanHeadGrows(data[start..], x);
  }

  /** More input leaves a token as it is, except that a token ending in NUL at the end of the
      buffer takes along one line end that arrives next. */
  lemma TokenGrows(data: string, x: string)
    requires CutOf(data).Token?
    ensures var Token(a, t) := CutOf(data);
      CutOf(data + x) ==
        if a == |data| && t == Trim(t) && x != "" && IsEol(x[0]) then Token(a + 1, t + [x[0]])
        else Token(a, t)
  {
    hide ScanHead;
    FindingStays(data, x);
    FoundBounds(data);
    FoundBounds(data + x);
    TakeEolGrows(data, x, FindFrame(data).start, FindFrame(data).end);
  }

  lemma TakeEolGrows(data: string, x: string, s: nat, e: nat)
    requires s < e <= |data| && data[e - 1] == NUL
    ensures var Token(a, t) := TakeEol(data, s, e);
      TakeEol(data + x, s, e) ==
        if a == |data| && t == Trim(t) && x != "" && IsEol(x[0]) then Token(a + 1, t + [x[0]])
        else Token(a, t)
  {
    hide Trim;
    var u := data[s..e];
    assert u[|u| - 1] == NUL;
    TrimEnd(u, if e < |data| then data[e] else LF);
    if e < |data| && IsEol(data[e]) {
      assert data[s..e + 1] == u + [data[e]];
      assert (data + x)[s..e + 1] == data[s..e + 1];
    } else {
      assert (data + x)[s..e] == u;
      if e == |data| && x != "" && IsEol(x[0]) {
        assert (data + x)[s..e + 1] == u + [x[0]];
      }
    }
  }

  // ---------- one line end fewer in front ----------

  lemma EolPrefixCons(c: char, data: string)
    requires IsEol(c)
    ensures EolPrefix([c] + data) == 1 + EolPrefix(data)
  {
    assert ([c] + data)[1..] == data;
  }

  /** The same frame, found `k` bytes further on. */
  function Moved(f: Framing, k: nat): Framing {
    if f.Found? then Found(f.start + k, f.end + k) else f
  }

  /** Complete headers declare a body that ends on the last index there is, or just before the
      first; one byte in front of the buffer then takes it past the edge. */
  predicate AtEdge(data: string) {
    hide ScanHead, EolPrefix;
    var start := EolPrefix(data);
    start < |data|
    && match ScanHead(data[start..])
       case Broken(_) => false
       case Headers(size, n) => EndAtEdge(data, start + size, n)
  }

  predicate EndAtEdge(data: string, start: nat, bodyLen: int) {
    start < |data| && (start + bodyLen == INT_MAX || start + bodyLen == -1)
  }

  lemma EndMoves(c: char, data: string, frameStart: nat, start: nat, bodyLen: int)
    requires 0 < start <= |data| < INT_MAX && INT_MIN <= bodyLen <= INT_MAX && c != NUL
    ensures FindEnd([c] + data, frameStart + 1, start + 1, bodyLen) == Moved(FindEnd(data, frameStart, start, bodyLen), 1)
      <==> !EndAtEdge(data, start, bodyLen)
    ensures EndAtEdge(data, start, bodyLen) ==>
      var f, g := FindEnd(data, frameStart, start, bodyLen), FindEnd([c] + data, frameStart + 1, start + 1, bodyLen);
      (f.NeedMore? && g.Trap?) || (f.Trap? && g.Refused?)
  {
    assert ([c] + data)[start + 1..] == data[start..];
  }

  /** A line end in front of a buffer moves what is found by one, and changes nothing else,
      exactly when the declared length is not at the edge of the index arithmetic. */
  lemma DropEol(c: char, data: string)
    requires IsEol(c) && |data| < INT_MAX
    ensures FindFrame([c] + data) == Moved(FindFrame(data), 1) <==> !AtEdge(data)
    ensures AtEdge(data) ==>
      var f, g := FindFrame(data), FindFrame([c] + data);
      (f.NeedMore? && g.Trap?) || (f.Trap? && g.Refused?)
  {
    hide FindFrame, FindEnd, ScanHead, EolPrefix, EndAtEdge;
    var full := [c] + data;
    var start := EolPrefix(data);
    EolPrefixCons(c, data);
    FrameStep(full);
    FrameStep(data);
    assert full[start + 1..] == data[start..];
    if start < |data| {
      var head := ScanHead(data[start..]);
      if head.Headers? {
        DeclaredFits(data[start..]);
        EndMoves(c, data, start, start + head.size, head.bodyLen);
      }
    }
  }

  // ---------- the body a buffer waits for ----------

  /** Only line ends, or a complete header block: nothing is cut off inside a command or a header. */
  predicate Ready(rest: string) {
    var start := EolPrefix(rest);
    start == |rest| || ScanHead(rest[start..]).Headers?
  }

  /** The body length that the complete header block at the front of a buffer declares; -1 without one. */
  function PendingLength(rest: string): int {
    var start := EolPrefix(rest);
    if start == |rest| then -1
    else
      match ScanHead(rest[start..])
      case Broken(_) => -1
      case Headers(_, n) => n
  }

  lemma PendingMoves(c: char, data: string)
    requires IsEol(c)
    ensures PendingLength([c] + data) == PendingLength(data)
  {
    hide ScanHead, EolPrefix;
    var start := EolPrefix(data);
    EolPrefixCons(c, data);
    assert ([c] + data)[start + 1..] == data[start..];
  }

  /** A buffer that waits for a body within range is not at the edge. */
  lemma WaitsInside(data: string)
    requires |data| + PendingLength(data) < INT_MAX && FindFrame(data).NeedMore?
    ensures !AtEdge(data)
  {
    hide ScanHead, EolPrefix;
  }

  /** Waiting buffers are ready, and ready buffers that do not wait never will. */
  lemma ReadyOrStuck(data: string, x: string)
    ensures FindFrame(data).NeedMore? ==> Ready(data)
    ensures Ready(data) && !FindFrame(data).NeedMore? ==> FindFrame(data + x) == FindFrame(data)
  {
    hide ScanHead, EolPrefix, FindEnd;
    var start := EolPrefix(data);
    if Ready(data) && start < |data| {
      var head := ScanHead(data[start..]);
      RefusedEnd(data, start, start + head.size, head.bodyLen);
      if !FindFrame(data).NeedMore? {
        FindingStays(data, x);
      }
    }
  }

  lemma RefusedEnd(data: string, frameStart: nat, start: nat, bodyLen: int)
    requires start <= |data|
    ensures FindEnd(data, frameStart, start, bodyLen) != Refused(LineTooLong)
  {
  }
}
