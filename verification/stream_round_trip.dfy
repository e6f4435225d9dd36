/**
 Printing, scanning and parsing together: lists of frames with heartbeats around them come
 back through the scanner, whole or in pieces.
 */
module StreamRoundTrip {
  import opened Wrappers
  import opened GoStrings
  import opened Escaping
  import opened Serializer
  import opened FrameScanner
  import opened WireFraming
  import opened Streams

  /** A frame that survives printing, cutting and parsing. */
  ghost predicate WellFormed(f: Frame) {
    f.command != "" && Faithful(f) && Framed(f)
  }

  ghost predicate AllWellFormed(frames: seq<Frame>) {
    forall i :: 0 <= i < |frames| ==> WellFormed(frames[i])
  }

  /** Printed frames, with a number of line-feed heartbeats before, between and after them. */
  ghost function Stream(gaps: seq<nat>, frames: seq<Frame>): string
    requires |gaps| == |frames| + 1
  {
    if frames == [] then Feeds(gaps[0])
    else Feeds(gaps[0]) + Wire(frames[0]) + Stream(gaps[1..], frames[1..])
  }

  /** The tokens parse to these frames, one for one. */
  ghost predicate ParseTo(tokens: seq<string>, frames: seq<Frame>) {
    && |tokens| == |frames|
    && forall i :: 0 <= i < |tokens| ==> ParseFrame(tokens[i]) == Parsed(frames[i].Normal())
  }

  // ---------- one frame at the front of a buffer ----------

  lemma HasItsCommand(f: Frame)
    requires WellFormed(f)
    ensures HasCommand(f) && Wire(f) != ""
  {
    assert f.command[0] in f.command;
  }

  lemma FeedsAreEol(n: nat)
    ensures AllEol(Feeds(n))
  {
    forall i | 0 <= i < n ensures IsEol(Feeds(n)[i]) {
      assert Feeds(n)[i] in Feeds(n);
    }
  }

  /** What the splitter cuts off a buffer that begins with heartbeats and a whole frame. */
  lemma CutFront(f: Frame, gap: nat, rest: string)
    requires WellFormed(f) && |Feeds(gap) + Wire(f) + rest| <= INT_MAX
    ensures CutOf(Feeds(gap) + Wire(f) + rest) ==
      if rest != "" && IsEol(rest[0]) then Token(gap + |Wire(f)| + 1, Wire(f) + [rest[0]])
      else Token(gap + |Wire(f)|, Wire(f))
  {
    hide FindFrame, Wire;
    var data := Feeds(gap) + Wire(f) + rest;
    HasItsCommand(f);
    FeedsAreEol(gap);
    FramingExact(f, Feeds(gap), rest);
    var e := gap + |Wire(f)|;
    assert data[gap..e] == Wire(f);
    if rest != "" && IsEol(rest[0]) {
      assert data[e] == rest[0];
      assert data[gap..e + 1] == Wire(f) + [rest[0]];
    }
  }

  /** A carriage return right behind a frame goes into its token, and the parser then refuses the
      token; that is why heartbeats are line feeds here. */
  lemma CarriageReturnBehindFrame(f: Frame, gap: nat, rest: string)
    requires WellFormed(f) && |Feeds(gap) + Wire(f) + [CR] + rest| <= INT_MAX
    ensures CutOf(Feeds(gap) + Wire(f) + [CR] + rest) == Token(gap + |Wire(f)| + 1, Wire(f) + [CR])
    ensures ParseFrame(Wire(f) + [CR]) == Malformed
  {
    hide CutOf, Wire;
    CutFront(f, gap, [CR] + rest);
    assert Feeds(gap) + Wire(f) + ([CR] + rest) == Feeds(gap) + Wire(f) + [CR] + rest;
    assert LastNul(Wire(f) + [CR]) == None;
  }

  /** A well-formed frame that arrives alone is one token, with nothing left over. Without a
      declared length no index is computed, so its size does not matter. */
  lemma AloneInStream(f: Frame)
    requires WellFormed(f) && (|Wire(f)| <= INT_MAX || BodyLength(f) == Some(-1))
    ensures ScanAll(Wire(f)) == Scan([Wire(f)], "", More)
    ensures ParseFrame(Wire(f)) == Parsed(f.Normal())
  {
    hide CutOf, FindFrame, Wire, BodyLength, ParseFrame, ScanAll, Faithful, Framed;
    var w := Wire(f);
    HasItsCommand(f);
    assert "" + w + "" == w;
    FramingExact(f, "", "");
    TakeWhole(w);
    DrainStep(w);
    DrainStep("");
    assert w[|w|..] == "";
    ParsesBack(f, 0);
  }

  lemma TakeWhole(w: string)
    requires FindFrame(w) == Found(0, |w|)
    ensures CutOf(w) == Token(|w|, w) && CutOf("") == More
  {
    hide FindFrame;
    FoundBounds(w);
    assert w[0..|w|] == w;
    FrameStep("");
  }

  // ---------- one frame, not yet complete ----------

  lemma IndexByteShort(s: string, n: nat, c: char)
    requires n <= |s|
    ensures IndexByte(s[..n], c) == if 0 <= IndexByte(s, c) < n then IndexByte(s, c) else -1
  {
    var i := IndexByte(s, c);
    IndexByteFirst(s, c);
    if 0 <= i < n {
      assert s[..n] == s[..i] + [c] + s[i + 1..n];
      IndexByteAt(s[..i], c, s[i + 1..n]);
    } else {
      IndexByteFirst(s[..n], c);
      assert i >= n ==> forall j :: 0 <= j < n ==> s[..n][j] == s[..i][j] && s[..i][j] in s[..i];
      assert i == -1 ==> forall j :: 0 <= j < n ==> s[..n][j] in s;
    }
  }

  /** A header block cut short makes the splitter give up, and a whole one does not. */
  lemma {:induction false} ScanShort(d: string, n: nat, bodyLen: int)
    requires n <= |d| && ScanHeaders(d, bodyLen).Headers?
    ensures ScanHeaders(d[..n], bodyLen) ==
      if ScanHeaders(d, bodyLen).size <= n then ScanHeaders(d, bodyLen) else Broken(LineTooLong)
    decreases |d|
  {
    hide ScanHeaders, Split, LengthAfter, IndexByte;
    ScanLine(d, bodyLen);
    ScanLine(d[..n], bodyLen);
    IndexByteShort(d, n, LF);
    var offset := IndexByte(d, LF);
    if 0 < offset < n {
      assert d[..n][..offset] == d[..offset];
      assert d[..n][offset + 1..] == d[offset + 1..][..n - offset - 1];
      ScanShort(d[offset + 1..], n - offset - 1, LengthAfter(Split(d[..offset], COLON), bodyLen).value);
    }
  }

  lemma HeadShort(d: string, n: nat)
    requires n <= |d| && ScanHead(d).Headers?
    ensures ScanHead(d[..n]) == if ScanHead(d).size <= n then ScanHead(d) else Broken(LineTooLong)
  {
    hide ScanHead, ScanHeaders, IndexByte;
    HeadLine(d);
    HeadLine(d[..n]);
    IndexByteShort(d, n, LF);
    var offset := IndexByte(d, LF);
    if 0 <= offset < n {
      assert d[..n][offset + 1..] == d[offset + 1..][..n - offset - 1];
      ScanShort(d[offset + 1..], n - offset - 1, -1);
    }
  }

  lemma HeadLine(d: string)
    ensures
      var offset := IndexByte(d, LF);
      ScanHead(d) == if offset == -1 then Broken(LineTooLong) else ScanHeaders(d[offset + 1..], -1).After(offset + 1)
  {
  }

  /** The splitter waits for the rest of a frame exactly when the cut is behind its headers. */
  lemma CutShort(f: Frame, gap: nat, n: nat)
    requires WellFormed(f) && 0 < n < |Wire(f)| && gap + |Wire(f)| <= INT_MAX
    ensures CutOf(Feeds(gap) + Wire(f)[..n]) == if |Head(f)| <= n then More else Fail(LineTooLong)
  {
    hide FindFrame, FindEnd, ScanHead, DeclaredLength;
    HasItsCommand(f);
    HeadStarts(f);
    FeedsAreEol(gap);
    var part := Wire(f)[..n];
    var data := Feeds(gap) + part;
    FrameBehindGap(Feeds(gap), part);
    assert Wire(f) == Head(f) + (f.Payload() + [NUL]);
    ScanOfHead(f, f.Payload() + [NUL]);
    HeadShort(Wire(f), n);
    if |Head(f)| <= n {
      EndShort(Feeds(gap) + Head(f), f.Payload(), n - |Head(f)|, gap, BodyLength(f).value);
      assert data == Feeds(gap) + Head(f) + f.Payload()[..n - |Head(f)|];
    }
  }

  lemma EndShort(head: string, body: string, n: nat, frameStart: nat, bodyLen: int)
    requires n <= |body| && |head| + |body| <= INT_MAX
    requires if bodyLen == -1 then NUL !in body else bodyLen == |body|
    ensures FindEnd(head + body[..n], frameStart, |head|, bodyLen) == NeedMore
  {
    var data := head + body[..n];
    if bodyLen == -1 {
      assert data[|head|..] == body[..n];
      IndexByteShort(body, n, NUL);
      IndexByteFirst(body, NUL);
    }
  }

  // ---------- cutting a stream at a position ----------

  /** Position `n` of the stream is not inside a frame's command or headers. */
  ghost predicate CutOk(gaps: seq<nat>, frames: seq<Frame>, n: nat)
    requires |gaps| == |frames| + 1
    decreases |frames|
  {
    n <= gaps[0]
    || (frames != []
        && var m := n - gaps[0];
           if m < |Wire(frames[0])| then |Head(frames[0])| <= m
           else CutOk(gaps[1..], frames[1..], m - |Wire(frames[0])|))
  }

  /** One heartbeat fewer in front moves every position back by one. */
  lemma OneFeedFewer(gaps: seq<nat>, frames: seq<Frame>)
    requires |gaps| == |frames| + 1 && gaps[0] > 0
    ensures Stream(gaps, frames) == [LF] + Stream(gaps[0 := gaps[0] - 1], frames)
    ensures forall n :: n > 0 ==> (CutOk(gaps, frames, n) <==> CutOk(gaps[0 := gaps[0] - 1], frames, n - 1))
  {
    var fewer := gaps[0 := gaps[0] - 1];
    assert fewer[1..] == gaps[1..];
    assert Feeds(gaps[0]) == [LF] + Feeds(gaps[0] - 1);
  }

  /** What a scan of the first `n` bytes leaves: the first `i` frames are delivered, and the
      rest of the buffer with the rest of the stream is a stream of the other frames, with the
      same good positions. */
  ghost predicate Leaves(gaps: seq<nat>, frames: seq<Frame>, n: nat, s: Scan, i: nat, gaps': seq<nat>)
    requires |gaps| == |frames| + 1 && n <= |Stream(gaps, frames)|
  {
    && i <= |frames| && |gaps'| == |frames| - i + 1
    && ParseTo(s.tokens, frames[..i])
    && |s.rest| <= n
    && s.rest + Stream(gaps, frames)[n..] == Stream(gaps', frames[i..])
    && forall k :: k >= n ==> (CutOk(gaps, frames, k) <==> CutOk(gaps', frames[i..], k - n + |s.rest|))
  }

  /** Scanning a prefix of a stream of well-formed frames stops in good order exactly when the
      prefix ends at a good position. */
  lemma {:induction false} PrefixScan(gaps: seq<nat>, frames: seq<Frame>, n: nat) returns (i: nat, gaps': seq<nat>)
    requires |gaps| == |frames| + 1 && AllWellFormed(frames)
    requires n <= |Stream(gaps, frames)| <= INT_MAX
    ensures ScanAll(Stream(gaps, frames)[..n]).stop == if CutOk(gaps, frames, n) then More else Fail(LineTooLong)
    ensures CutOk(gaps, frames, n) ==> Leaves(gaps, frames, n, ScanAll(Stream(gaps, frames)[..n]), i, gaps')
    decreases |frames|, n
  {
    hide CutOf, ScanAll, Wire, Head, Faithful, Framed;
    var stream := Stream(gaps, frames);
    var part := stream[..n];
    i, gaps' := 0, gaps;
    DrainStep(part);
    if n <= gaps[0] {
      FirstGap(gaps, frames, n);
      Untouched(gaps, frames, n);
    } else {
      var f, m := frames[0], n - gaps[0];
      if m < |Wire(f)| {
        FirstFrame(gaps, frames, n);
        CutShort(f, gaps[0], m);
        Untouched(gaps, frames, n);
      } else {
        var next, k := BehindFrame(gaps, frames, n);
        var i', gaps'' := PrefixScan(next, frames[1..], k);
        i, gaps' := i' + 1, gaps'';
        if CutOk(gaps, frames, n) {
          AddFrame(gaps, frames, n, next, k, CutOf(part).token, ScanAll(Stream(next, frames[1..])[..k]), i', gaps'');
        }
      }
    }
  }

  /** A stream behind its first frame: what is left of it once that frame's token is cut off. */
  ghost predicate Behind(gaps: seq<nat>, frames: seq<Frame>, n: nat, next: seq<nat>, k: nat)
    requires |gaps| == |frames| + 1 && frames != [] && n <= |Stream(gaps, frames)|
  {
    && |next| == |frames|
    && k <= |Stream(next, frames[1..])| <= |Stream(gaps, frames)|
    && Stream(gaps, frames)[n..] == Stream(next, frames[1..])[k..]
    && forall p :: p >= n ==> (CutOk(gaps, frames, p) <==> CutOk(next, frames[1..], p - n + k))
  }

  lemma BehindFrame(gaps: seq<nat>, frames: seq<Frame>, n: nat) returns (next: seq<nat>, k: nat)
    requires |gaps| == |frames| + 1 && frames != [] && AllWellFormed(frames)
    requires gaps[0] + |Wire(frames[0])| <= n <= |Stream(gaps, frames)| <= INT_MAX
    ensures Behind(gaps, frames, n, next, k)
    ensures var c := CutOf(Stream(gaps, frames)[..n]);
      && c.Token?
      && c.advance <= n
      && Stream(gaps, frames)[..n][c.advance..] == Stream(next, frames[1..])[..k]
      && ParseFrame(c.token) == Parsed(frames[0].Normal())
  {
    hide CutOf, Wire, WellFormed, Stream, ParseFrame, CutOk;
    var f := frames[0];
    next, k := gaps[1..], n - gaps[0] - |Wire(f)|;
    StreamLayout(gaps, frames, n, k);
    FrontToken(gaps, frames, n, k);
    BehindPositions(gaps, frames, n);
    ParsesBack(f, 0);
    ParsesBack(f, 1);
    var rest := Stream(next, frames[1..])[..k];
    if rest != "" && rest[0] == LF {
      StreamHead(next, frames[1..]);
      OneFeedFewer(next, frames[1..]);
      next, k := next[0 := next[0] - 1], k - 1;
      assert rest[1..] == Stream(next, frames[1..])[..k];
    }
  }

  lemma FrontToken(gaps: seq<nat>, frames: seq<Frame>, n: nat, k: nat)
    requires |gaps| == |frames| + 1 && frames != [] && AllWellFormed(frames)
    requires n == gaps[0] + |Wire(frames[0])| + k && n <= |Stream(gaps, frames)| <= INT_MAX
    ensures k <= |Stream(gaps[1..], frames[1..])|
    ensures
      var w := Wire(frames[0]);
      var rest := Stream(gaps[1..], frames[1..])[..k];
      var c := CutOf(Stream(gaps, frames)[..n]);
      w != "" && c.Token? && c.advance <= n &&
      if rest != "" && rest[0] == LF then c.token == w + Feeds(1) && Stream(gaps, frames)[..n][c.advance..] == rest[1..]
      else c.token == w && Stream(gaps, frames)[..n][c.advance..] == rest
  {
    hide CutOf, Wire, Stream, WellFormed;
    StreamLayout(gaps, frames, n, k);
    StreamHead(gaps[1..], frames[1..]);
    HasItsCommand(frames[0]);
    var rest := Stream(gaps[1..], frames[1..])[..k];
    CutFront(frames[0], gaps[0], rest);
    assert Feeds(1) == [LF];
    Suffixes(Feeds(gaps[0]) + Wire(frames[0]), rest);
  }

  lemma Suffixes(a: string, b: string)
    ensures (a + b)[|a|..] == b
    ensures b != "" ==> (a + b)[|a| + 1..] == b[1..]
  {
  }

  /** Past its first frame, a stream's good positions are those of the stream behind it. */
  lemma BehindPositions(gaps: seq<nat>, frames: seq<Frame>, n: nat)
    requires |gaps| == |frames| + 1 && frames != [] && Wire(frames[0]) != ""
    requires gaps[0] + |Wire(frames[0])| <= n
    ensures forall p :: p >= n ==>
      (CutOk(gaps, frames, p) <==> CutOk(gaps[1..], frames[1..], p - gaps[0] - |Wire(frames[0])|))
  {
    hide Wire, Head;
  }

  lemma StreamLayout(gaps: seq<nat>, frames: seq<Frame>, n: nat, k: nat)
    requires |gaps| == |frames| + 1 && frames != []
    requires n <= |Stream(gaps, frames)| && n == gaps[0] + |Wire(frames[0])| + k
    ensures k <= |Stream(gaps[1..], frames[1..])| <= |Stream(gaps, frames)|
    ensures Stream(gaps, frames)[n..] == Stream(gaps[1..], frames[1..])[k..]
    ensures Stream(gaps, frames)[..n] == Feeds(gaps[0]) + Wire(frames[0]) + Stream(gaps[1..], frames[1..])[..k]
  {
    hide Wire;
  }

  lemma StreamHead(gaps: seq<nat>, frames: seq<Frame>)
    requires |gaps| == |frames| + 1 && AllWellFormed(frames)
    ensures var s := Stream(gaps, frames); s != "" ==> s[0] != CR && (s[0] == LF <==> gaps[0] > 0)
  {
    hide Framed;
    if gaps[0] > 0 {
      FeedsAreEol(gaps[0]);
      assert Feeds(gaps[0])[0] in Feeds(gaps[0]);
    } else if frames != [] {
      HasItsCommand(frames[0]);
      HeadStarts(frames[0]);
    }
  }

  lemma ParsesBack(f: Frame, k: nat)
    requires WellFormed(f)
    ensures ParseFrame(Wire(f) + Feeds(k)) == Parsed(f.Normal())
    ensures k == 0 ==> Wire(f) + Feeds(k) == Wire(f)
  {
    hide Wire, ParseFrame;
    RoundTrip(f, k);
  }

  lemma AddFrame(gaps: seq<nat>, frames: seq<Frame>, n: nat, next: seq<nat>, k: nat, t: string, s: Scan, i: nat, gaps': seq<nat>)
    requires |gaps| == |frames| + 1 && frames != [] && n <= |Stream(gaps, frames)|
    requires Behind(gaps, frames, n, next, k) && k <= n
    requires ParseFrame(t) == Parsed(frames[0].Normal())
    requires Leaves(next, frames[1..], k, s, i, gaps')
    ensures Leaves(gaps, frames, n, s.Behind([t]), i + 1, gaps')
  {
    hide Stream, CutOk, ParseFrame, Frame.Normal;
    assert frames[1..][i..] == frames[i + 1..];
    assert forall j :: 0 <= j < i ==> frames[..i + 1][j + 1] == frames[1..][..i][j];
    forall p | p >= n ensures CutOk(gaps, frames, p) <==> CutOk(gaps', frames[i + 1..], p - n + |s.rest|) {
      var q := p - n + k;
      assert CutOk(next, frames[1..], q) <==> CutOk(gaps', frames[1..][i..], q - k + |s.rest|);
    }
  }

  lemma FirstGap(gaps: seq<nat>, frames: seq<Frame>, n: nat)
    requires |gaps| == |frames| + 1 && n <= gaps[0]
    ensures n <= |Stream(gaps, frames)| && CutOf(Stream(gaps, frames)[..n]) == More
  {
    hide Wire;
    assert Stream(gaps, frames)[..n] == Feeds(n) + "";
    FeedsAreEol(n);
    EolPrefixOfGap(Feeds(n), "");
  }

  lemma FirstFrame(gaps: seq<nat>, frames: seq<Frame>, n: nat)
    requires |gaps| == |frames| + 1 && frames != []
    requires gaps[0] <= n <= gaps[0] + |Wire(frames[0])| <= |Stream(gaps, frames)|
    ensures Stream(gaps, frames)[..n] == Feeds(gaps[0]) + Wire(frames[0])[..n - gaps[0]]
  {
    hide Wire;
  }

  lemma Untouched(gaps: seq<nat>, frames: seq<Frame>, n: nat)
    requires |gaps| == |frames| + 1 && n <= |Stream(gaps, frames)|
    ensures Leaves(gaps, frames, n, Scan([], Stream(gaps, frames)[..n], More), 0, gaps)
  {
    hide Wire, CutOk, Stream;
    assert frames[0..] == frames;
  }

  // ---------- whole streams ----------

  lemma {:induction false} EndIsOk(gaps: seq<nat>, frames: seq<Frame>)
    requires |gaps| == |frames| + 1
    ensures CutOk(gaps, frames, |Stream(gaps, frames)|)
    decreases |frames|
  {
    hide Wire, Head;
    if frames != [] {
      EndIsOk(gaps[1..], frames[1..]);
    }
  }

  lemma FrameIsCut(gaps: seq<nat>, frames: seq<Frame>)
    requires |gaps| == |frames| + 1 && frames != [] && AllWellFormed(frames) && |Stream(gaps, frames)| <= INT_MAX
    ensures CutOf(Stream(gaps, frames)) != More
  {
    hide CutOf, Wire, Faithful, Framed;
    StreamHead(gaps[1..], frames[1..]);
    CutFront(frames[0], gaps[0], Stream(gaps[1..], frames[1..]));
  }

  /** Any list of well-formed frames, with any heartbeats around them, comes back from the
      scanner and the parser as exactly that list, and only heartbeats are left over. */
  lemma StreamComesBack(gaps: seq<nat>, frames: seq<Frame>)
    requires |gaps| == |frames| + 1 && AllWellFormed(frames) && |Stream(gaps, frames)| <= INT_MAX
    ensures var s := ScanAll(Stream(gaps, frames));
      s.stop == More && ParseTo(s.tokens, frames) && exists k :: s.rest == Feeds(k)
  {
    hide CutOf, ScanAll, WellFormed, CutOk;
    var stream := Stream(gaps, frames);
    EndIsOk(gaps, frames);
    var i, gaps' := PrefixScan(gaps, frames, |stream|);
    var s := ScanAll(stream);
    assert stream[..|stream|] == stream;
    assert s.rest + stream[|stream|..] == s.rest;
    RestIsDrained(stream);
    if i < |frames| {
      FrameIsCut(gaps', frames[i..]);
      assert false;
    }
    assert frames[..i] == frames;
  }

  // ---------- streams in pieces ----------

  /** Every chunk, read after `n` bytes of the stream, ends at a good position. */
  ghost predicate CutsOk(gaps: seq<nat>, frames: seq<Frame>, n: nat, chunks: seq<string>)
    requires |gaps| == |frames| + 1
    decreases |chunks|
  {
    chunks == [] || (CutOk(gaps, frames, n + |chunks[0]|) && CutsOk(gaps, frames, n + |chunks[0]|, chunks[1..]))
  }

  lemma {:induction false} ShiftCuts(gaps: seq<nat>, frames: seq<Frame>, n: nat, gaps': seq<nat>, frames': seq<Frame>, n': nat, chunks: seq<string>)
    requires |gaps| == |frames| + 1 && |gaps'| == |frames'| + 1
    requires forall k :: k >= n ==> (CutOk(gaps, frames, k) <==> CutOk(gaps', frames', k - n + n'))
    ensures CutsOk(gaps, frames, n, chunks) <==> CutsOk(gaps', frames', n', chunks)
    decreases |chunks|
  {
    hide CutOk;
    if chunks != [] {
      var c := |chunks[0]|;
      assert CutOk(gaps, frames, n + c) <==> CutOk(gaps', frames', n + c - n + n');
      ShiftCuts(gaps, frames, n + c, gaps', frames', n' + c, chunks[1..]);
    }
  }

  /** A stream of well-formed frames that arrives in chunks is never refused exactly when no
      chunk ends inside a command or a header block, and then the frames come back as sent. */
  lemma {:induction false} ChunksComeBack(buf: string, chunks: seq<string>, gaps: seq<nat>, frames: seq<Frame>)
    requires |gaps| == |frames| + 1 && AllWellFormed(frames)
    requires buf + Concat(chunks) == Stream(gaps, frames) && |Stream(gaps, frames)| <= INT_MAX
    ensures Incremental(buf, chunks).stop == More <==> CutsOk(gaps, frames, |buf|, chunks)
    ensures CutsOk(gaps, frames, |buf|, chunks) ==> ParseTo(Incremental(buf, chunks).tokens, frames)
    decreases |chunks|
  {
    hide CutOf, ScanAll, WellFormed, CutOk, Stream, ParseFrame;
    if chunks == [] {
      assert buf + Concat(chunks) == buf;
      StreamComesBack(gaps, frames);
    } else {
      var data, x := buf + chunks[0], Concat(chunks[1..]);
      var stream := Stream(gaps, frames);
      var n := |data|;
      assert stream == data + x;
      assert stream[..n] == data && stream[n..] == x;
      var i, gaps' := PrefixScan(gaps, frames, n);
      if CutOk(gaps, frames, n) {
        var s := ScanAll(data);
        ChunksComeBack(s.rest, chunks[1..], gaps', frames[i..]);
        ShiftCuts(gaps, frames, n, gaps', frames[i..], |s.rest|, chunks[1..]);
        if CutsOk(gaps, frames, |buf|, chunks) {
          ParseToConcat(s.tokens, Incremental(s.rest, chunks[1..]).tokens, frames, i);
        }
      }
    }
  }

  lemma ParseToConcat(a: seq<string>, b: seq<string>, frames: seq<Frame>, i: nat)
    requires i <= |frames| && ParseTo(a, frames[..i]) && ParseTo(b, frames[i..])
    ensures ParseTo(a + b, frames)
  {
    hide ParseFrame;
    forall j | 0 <= j < |frames| ensures ParseFrame((a + b)[j]) == Parsed(frames[j].Normal()) {
      if j < i {
        assert (a + b)[j] == a[j] && frames[..i][j] == frames[j];
      } else {
        assert (a + b)[j] == b[j - i] && frames[i..][j - i] == frames[j];
      }
    }
  }

  /** The scanner as the connection drives it. */
  lemma SentIsReceived(chunks: seq<string>, gaps: seq<nat>, frames: seq<Frame>)
    requires |gaps| == |frames| + 1 && AllWellFormed(frames)
    requires Concat(chunks) == Stream(gaps, frames) && |Stream(gaps, frames)| <= INT_MAX
    ensures Incremental("", chunks).stop == More <==> CutsOk(gaps, frames, 0, chunks)
    ensures CutsOk(gaps, frames, 0, chunks) ==> ParseTo(Incremental("", chunks).tokens, frames)
  {
    assert "" + Concat(chunks) == Concat(chunks);
    ChunksComeBack("", chunks, gaps, frames);
  }

  // ---------- arbitrary streams without carriage returns ----------

  lemma ParseTrimmed(t: string)
    requires CR !in t
    ensures ParseFrame(Trim(t)) == ParseFrame(t)
  {
    hide ParseText;
    if t != "" && IsEol(t[|t| - 1]) {
      assert t[|t| - 1] in t;
      var u := t[..|t| - 1];
      assert LastNul(t) == LastNul(u);
      assert LastNul(u).Some? ==> t[..LastNul(u).value] == u[..LastNul(u).value];
    }
  }

  function Parses(tokens: seq<string>): seq<Parse> {
    if tokens == [] then [] else [ParseFrame(tokens[0])] + Parses(tokens[1..])
  }

  predicate NoneHasCR(tokens: seq<string>) {
    forall i :: 0 <= i < |tokens| ==> CR !in tokens[i]
  }

  lemma {:induction false} ParsesOfTrimmed(a: seq<string>, b: seq<string>)
    requires NoneHasCR(a) && NoneHasCR(b) && Trimmed(a) == Trimmed(b)
    ensures Parses(a) == Parses(b)
  {
    hide ParseFrame, Trim;
    if a != [] && b != [] {
      ParseTrimmed(a[0]);
      ParseTrimmed(b[0]);
      assert Trimmed(a)[1..] == Trimmed(a[1..]) && Trimmed(b)[1..] == Trimmed(b[1..]);
      ParsesOfTrimmed(a[1..], b[1..]);
    }
  }

  lemma {:induction false} TokensWithoutCR(data: string)
    requires CR !in data
    ensures NoneHasCR(ScanAll(data).tokens) && CR !in ScanAll(data).rest
    decreases |data|
  {
    hide CutOf, ScanAll;
    DrainStep(data);
    if CutOf(data).Token? {
      TokenShape(data);
      TokensWithoutCR(data[CutOf(data).advance..]);
    }
  }

  lemma {:induction false} IncrementalWithoutCR(buf: string, chunks: seq<string>)
    requires CR !in buf && NoneHasCR(chunks)
    ensures NoneHasCR(Incremental(buf, chunks).tokens)
    decreases |chunks|
  {
    hide ScanAll;
    var data := if chunks == [] then buf else buf + chunks[0];
    TokensWithoutCR(data);
    if chunks != [] && ScanAll(data).stop == More {
      IncrementalWithoutCR(ScanAll(data).rest, chunks[1..]);
    }
  }

  lemma {:induction false} ConcatWithoutCR(chunks: seq<string>)
    requires NoneHasCR(chunks)
    ensures CR !in Concat(chunks)
  {
    if chunks != [] {
      ConcatWithoutCR(chunks[1..]);
    }
  }

  /** However any stream without carriage returns is cut: a scanner that is not refused on the
      way parses the same frames, or the same errors, as one that sees the stream whole; and
      with a pending body within range it is not refused exactly when the whole stream is not
      and every read leaves a buffer that is ready. */
  lemma ChunksParseAlike(chunks: seq<string>)
    requires NoneHasCR(chunks) && |Concat(chunks)| <= INT_MAX
    ensures Incremental("", chunks).stop == More ==>
      Parses(Incremental("", chunks).tokens) == Parses(ScanAll(Concat(chunks)).tokens)
    ensures WaitsInRange(Concat(chunks)) ==> (Incremental("", chunks).stop == More <==> BuffersReady("", chunks))
  {
    hide ScanAll, Incremental, BuffersReady, WaitsInRange;
    assert "" + Concat(chunks) == Concat(chunks);
    ChunkInvariance("", chunks);
    if Incremental("", chunks).stop == More {
      ConcatWithoutCR(chunks);
      TokensWithoutCR(Concat(chunks));
      IncrementalWithoutCR("", chunks);
      ParsesOfTrimmed(Incremental("", chunks).tokens, ScanAll(Concat(chunks)).tokens);
    }
  }
}
