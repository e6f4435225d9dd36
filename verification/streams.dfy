/**
 Streams: the repeated split of `frameScanner` (frame_scanner.go:101-117), over a whole
 stream and over a stream that arrives in pieces.
 */
module Streams {
  import opened GoStrings
  import opened FrameScanner

  // ---------- repeated splitting ----------

  /** The tokens cut off a buffer, the bytes left over, and the splitter's last answer. */
  datatype Scan = Scan(tokens: seq<string>, rest: string, stop: Cut) {
    function Behind(earlier: seq<string>): Scan {
      Scan(earlier + tokens, rest, stop)
    }
  }

  function ScanAll(data: string): (s: Scan)
    ensures !s.stop.Token?
    decreases |data|
  {
    match CutOf(data)
    case Token(a, t) =>
      TokenShape(data);
      ScanAll(data[a..]).Behind([t])
    case answer => Scan([], data, answer)
  }

  function Concat(chunks: seq<string>): string {
    if chunks == [] then "" else chunks[0] + Concat(chunks[1..])
  }

  /** A scanner that reads chunk after chunk, and cuts what it can before it reads on. At the
      end of the input it looks at its buffer once more. */
  function Incremental(buf: string, chunks: seq<string>): Scan
    decreases |chunks|
  {
    var s := ScanAll(if chunks == [] then buf else buf + chunks[0]);
    if chunks == [] || s.stop != More then s else Incremental(s.rest, chunks[1..]).Behind(s.tokens)
  }

  lemma DrainStep(data: string)
    ensures CutOf(data).Token? ==>
      var Token(a, t) := CutOf(data);
      0 < a <= |data| && ScanAll(data) == ScanAll(data[a..]).Behind([t])
    ensures !CutOf(data).Token? ==> ScanAll(data) == Scan([], data, CutOf(data))
  {
    hide CutOf;
    if CutOf(data).Token? {
      TokenShape(data);
    }
  }

  /** Cuts every complete frame off a buffer. */
  method Drain(data: string) returns (s: Scan)
    ensures s == ScanAll(data)
  {
    hide CutOf, ScanAll;
    var tokens, buf := [], data;
    DrainStep(buf);
    var stop := FrameSplitter(buf);
    while stop.Token?
      invariant stop == CutOf(buf)
      invariant ScanAll(data) == ScanAll(buf).Behind(tokens)
      decreases |buf|
    {
      DrainStep(buf);
      tokens := tokens + [stop.token];
      buf := buf[stop.advance..];
      stop := FrameSplitter(buf);
    }
    DrainStep(buf);
    return Scan(tokens, buf, stop);
  }

  /** The scanning loop, with the connection's reads given as chunks. */
  method ScanFrames(chunks: seq<string>) returns (tokens: seq<string>, stop: Cut)
    ensures tokens == Incremental("", chunks).tokens && stop == Incremental("", chunks).stop
  {
    hide ScanAll;
    var buf, next := "", 0;
    tokens := [];
    assert chunks[0..] == chunks;
    while true
      invariant 0 <= next <= |chunks|
      invariant Incremental("", chunks) == Incremental(buf, chunks[next..]).Behind(tokens)
      decreases |chunks| - next
    {
      assert next < |chunks| ==> chunks[next..][0] == chunks[next] && chunks[next..][1..] == chunks[next + 1..];
      var atEof := next == |chunks|;
      var s := Drain(if atEof then buf else buf + chunks[next]);
      tokens := tokens + s.tokens;
      if atEof || s.stop != More {
        return tokens, s.stop;
      }
      buf, next := s.rest, next + 1;
    }
  }

  // ---------- any stream, cut anywhere ----------

  function Trimmed(tokens: seq<string>): seq<string> {
    if tokens == [] then [] else [Trim(tokens[0])] + Trimmed(tokens[1..])
  }

  lemma {:induction false} TrimmedConcat(a: seq<string>, b: seq<string>)
    ensures Trimmed(a + b) == Trimmed(a) + Trimmed(b)
  {
    if a == [] {
      assert a + b == b;
    } else {
      TrimmedConcat(a[1..], b);
      TrimmedStep(a[0], a[1..]);
      TrimmedStep(a[0], a[1..] + b);
      assert a == [a[0]] + a[1..];
      assert a + b == [a[0]] + (a[1..] + b);
      hide Trimmed, Trim;
      Associate([Trim(a[0])], Trimmed(a[1..]), Trimmed(b));
    }
  }

  lemma TrimmedStep(t: string, rest: seq<string>)
    ensures Trimmed([t] + rest) == [Trim(t)] + Trimmed(rest)
  {
    hide Trim;
    assert ([t] + rest)[1..] == rest;
  }

  lemma TakeEolMoves(c: char, data: string, s: nat, e: nat)
    requires s < e <= |data|
    ensures var Token(a, t) := TakeEol(data, s, e);
      TakeEol([c] + data, s + 1, e + 1) == Token(a + 1, t)
  {
    var a := TakeEol(data, s, e).advance;
    assert ([c] + data)[s + 1..a + 1] == data[s..a];
  }

  lemma CutMoves(c: char, data: string)
    requires IsEol(c) && |data| < INT_MAX
    ensures CutOf([c] + data) == More <==> CutOf(data) == More && !AtEdge(data)
    ensures CutOf([c] + data).Token? <==> CutOf(data).Token?
    ensures CutOf(data).Token? ==>
      CutOf([c] + data) == Token(CutOf(data).advance + 1, CutOf(data).token)
  {
    hide FindFrame, EolPrefix, AtEdge;
    DropEol(c, data);
    if FindFrame(data).Found? {
      FoundBounds(data);
      TakeEolMoves(c, data, FindFrame(data).start, FindFrame(data).end);
    }
  }

  /** A line end in front of a buffer never shows in the frames cut off it, and it stops the
      scanner exactly when no frame is in front and the pending length is at the edge. */
  lemma LeadingEol(c: char, data: string)
    requires IsEol(c) && |data| < INT_MAX
    ensures ScanAll([c] + data).tokens == ScanAll(data).tokens
    ensures ScanAll([c] + data).stop == More <==>
      ScanAll(data).stop == More && (CutOf(data).Token? || !AtEdge(data))
    ensures PendingLength(ScanAll([c] + data).rest) == PendingLength(ScanAll(data).rest)
  {
    hide CutOf, ScanAll, AtEdge, PendingLength;
    DrainStep([c] + data);
    DrainStep(data);
    CutMoves(c, data);
    PendingMoves(c, data);
    if CutOf(data).Token? {
      var a := CutOf(data).advance;
      assert ([c] + data)[a + 1..] == data[a..];
    }
  }

  /** The scanner gets through a buffer, and the body it then waits for is within the range of
      an index wherever in the buffer its header block ends. */
  predicate WaitsInRange(data: string) {
    ScanAll(data).stop == More && |data| + PendingLength(ScanAll(data).rest) <= INT_MAX
  }

  /** Two scans that end alike. */
  predicate EndAlike(a: Scan, b: Scan) {
    a.stop == More && b.stop == More && PendingLength(a.rest) == PendingLength(b.rest)
  }

  /** Scanning, then scanning the rest with more bytes behind it, cuts off the same frames as
      scanning everything at once, and gets through when that does. */
  lemma {:induction false} Resume(data: string, x: string)
    requires |data + x| <= INT_MAX
    ensures Trimmed(ScanAll(data + x).tokens) == Trimmed(ScanAll(data).tokens) + Trimmed(ScanAll(ScanAll(data).rest + x).tokens)
    ensures ScanAll(ScanAll(data).rest + x).stop == More ==> ScanAll(data + x).stop == More
    ensures WaitsInRange(data + x) ==> EndAlike(ScanAll(ScanAll(data).rest + x), ScanAll(data + x))
    decreases |data|
  {
    hide CutOf, Trim, ScanAll, PendingLength;
    DrainStep(data);
    if CutOf(data).Token? {
      var Token(a, t) := CutOf(data);
      var rest := data[a..];
      Resume(rest, x);
      ResumeToken(data, x);
      TrimmedConcat([t], ScanAll(rest).tokens);
      TrimmedConcat([CutOf(data + x).token], ScanAll(rest + x).tokens);
      Associate(Trimmed([t]), Trimmed(ScanAll(rest).tokens), Trimmed(ScanAll(ScanAll(rest).rest + x).tokens));
    } else {
      assert Trimmed([]) + Trimmed(ScanAll(data + x).tokens) == Trimmed(ScanAll(data + x).tokens);
    }
  }

  /** A token cut off a longer buffer: the same frame, and behind it the same frames. */
  lemma ResumeToken(data: string, x: string)
    requires |data + x| <= INT_MAX && CutOf(data).Token?
    ensures CutOf(data + x).Token? && Trim(CutOf(data + x).token) == Trim(CutOf(data).token)
    ensures ScanAll(data + x).tokens == [CutOf(data + x).token] + ScanAll(data[CutOf(data).advance..] + x).tokens
    ensures ScanAll(data[CutOf(data).advance..] + x).stop == More ==> ScanAll(data + x).stop == More
    ensures WaitsInRange(data + x) ==>
      EndAlike(ScanAll(data[CutOf(data).advance..] + x), ScanAll(data + x)) && WaitsInRange(data[CutOf(data).advance..] + x)
  {
    hide CutOf, Trim, ScanAll, PendingLength, AtEdge;
    DrainStep(data);
    var a := CutOf(data).advance;
    var rest := data[a..];
    TokenGrows(data, x);
    TrimToken(data, x);
    DrainStep(data + x);
    if CutOf(data + x).advance == a {
      assert (data + x)[a..] == rest + x;
    } else {
      assert rest + x == x == [x[0]] + x[1..];
      assert (data + x)[a + 1..] == x[1..];
      LeadingEol(x[0], x[1..]);
      DrainStep(x[1..]);
      if WaitsInRange(data + x) && !CutOf(x[1..]).Token? {
        WaitsBelowEdge(x[1..]);
      }
    }
  }

  lemma WaitsBelowEdge(data: string)
    requires CutOf(data) == More && |data| + PendingLength(data) < INT_MAX
    ensures !AtEdge(data)
  {
    hide FindFrame, PendingLength, AtEdge;
    WaitsInside(data);
  }

  lemma TrimToken(data: string, x: string)
    requires CutOf(data).Token? && CutOf(data + x).Token?
    ensures Trim(CutOf(data + x).token) == Trim(CutOf(data).token)
  {
    hide CutOf, FindFrame;
    TokenShape(data);
    TokenShape(data + x);
    FindingStays(data, x);
    FoundBounds(data);
    var Found(s, e) := FindFrame(data);
    assert (data + x)[s..e] == data[s..e];
  }

  /** What every read leaves in the buffer, once its frames are cut off, is ready: only line ends,
      or a complete header block. */
  predicate BuffersReady(buf: string, chunks: seq<string>)
    decreases |chunks|
  {
    chunks == []
    || (var rest := ScanAll(buf + chunks[0]).rest;
        Ready(rest) && BuffersReady(rest, chunks[1..]))
  }

  /** However a stream is cut into chunks, the scanner delivers a first part of the frames that
      scanning the whole stream delivers, up to a line end after a NUL, and all of them when it
      is never refused. With a pending body within range, it is never refused exactly when the
      whole stream is not and every read leaves a buffer that is ready. */
  lemma {:induction false} ChunkInvariance(buf: string, chunks: seq<string>)
    requires |buf + Concat(chunks)| <= INT_MAX
    ensures Trimmed(Incremental(buf, chunks).tokens) <= Trimmed(ScanAll(buf + Concat(chunks)).tokens)
    ensures Incremental(buf, chunks).stop == More ==>
      Trimmed(Incremental(buf, chunks).tokens) == Trimmed(ScanAll(buf + Concat(chunks)).tokens)
    ensures Incremental(buf, chunks).stop == More ==> ScanAll(buf + Concat(chunks)).stop == More && BuffersReady(buf, chunks)
    ensures WaitsInRange(buf + Concat(chunks)) ==> (Incremental(buf, chunks).stop == More <==> BuffersReady(buf, chunks))
    decreases |chunks|
  {
    hide CutOf, Trim, ScanAll, Ready, PendingLength, FindFrame;
    if chunks == [] {
      assert buf + Concat(chunks) == buf;
    } else {
      var data, x := buf + chunks[0], Concat(chunks[1..]);
      var s := ScanAll(data);
      assert buf + Concat(chunks) == data + x;
      RestShorter(data);
      ChunkInvariance(s.rest, chunks[1..]);
      Resume(data, x);
      TrimmedConcat(s.tokens, Incremental(s.rest, chunks[1..]).tokens);
      RestReady(data, x);
    }
  }

  /** The range matters: behind a frame and a line end, a body that would end on the last index
      there is can be waited for in one read and fails the bounds check in two. */
  lemma EdgeStopsPieces(t: string, c: char, r: string)
    requires CutOf(t) == Token(|t|, t) && Trim(t) == t && IsEol(c)
    requires CutOf(r) == More && AtEdge(r) && |t| + 1 + |r| <= INT_MAX
    ensures ScanAll(t + [c] + r).stop == More
    ensures BuffersReady("", [t, [c] + r]) && Incremental("", [t, [c] + r]).stop == Panic
  {
    hide CutOf, ScanAll, Trim, AtEdge, FindFrame, Ready;
    var x := [c] + r;
    assert t + x == t + [c] + r;
    TokenGrows(t, x);
    DrainStep(t);
    DrainStep(t + x);
    DrainStep("");
    DrainStep(r);
    DrainStep(x);
    assert (t + x)[|t| + 1..] == r;
    StopsAtEdge(c, r);
    assert t[|t|..] == "" && "" + t == t && "" + x == x;
    assert [t, x][1..] == [x] && [x][1..] == [];
    assert BuffersReady(x, []);
    assert ScanAll("" + [x][0]).rest == x;
    assert BuffersReady("", [x]);
    assert ScanAll("" + [t, x][0]).rest == "";
  }

  lemma StopsAtEdge(c: char, r: string)
    requires IsEol(c) && |r| < INT_MAX && CutOf(r) == More && AtEdge(r)
    ensures CutOf([c] + r) == Panic && Ready([c] + r)
    ensures CutOf("") == More && Ready("")
  {
    hide FindFrame, ScanHead;
    DropEol(c, r);
    FrameStep("");
    EolPrefixCons(c, r);
    assert ([c] + r)[1 + EolPrefix(r)..] == r[EolPrefix(r)..];
  }

  /** The rest of a scan that got through is ready; one that is ready but was refused stays refused. */
  lemma RestReady(data: string, x: string)
    ensures ScanAll(data).stop == More ==> Ready(ScanAll(data).rest)
    ensures ScanAll(data).stop != More && Ready(ScanAll(data).rest) ==> ScanAll(ScanAll(data).rest + x).stop != More
  {
    hide ScanAll, Ready, FindFrame;
    var rest := ScanAll(data).rest;
    RestIsDrained(data);
    ReadyOrStuck(rest, x);
    DrainStep(rest + x);
  }

  lemma {:induction false} RestIsDrained(data: string)
    ensures CutOf(ScanAll(data).rest) == ScanAll(data).stop
    decreases |data|
  {
    hide CutOf, ScanAll;
    DrainStep(data);
    if CutOf(data).Token? {
      RestIsDrained(data[CutOf(data).advance..]);
    }
  }

  lemma {:induction false} RestShorter(data: string)
    ensures |ScanAll(data).rest| <= |data|
    decreases |data|
  {
    hide CutOf;
    if CutOf(data).Token? {
      TokenShape(data);
      RestShorter(data[CutOf(data).advance..]);
    }
  }
}
