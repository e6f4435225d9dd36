/**
 Printed frames (serializer.go) as the splitter (frame_scanner.go) reads them, and exactly
 which of them it cuts at their end.
 */
module WireFraming {
  import opened Wrappers
  import opened Names
  import opened GoStrings
  import opened Escaping
  import opened Sorting
  import opened Serializer
  import opened FrameScanner

  // ---------- which printed frames the splitter cuts at their end ----------

  predicate IsContentLength(k: string) {
    ToLower(k) == KEY_CONTENT_LENGTH
  }

  /** The body length that printed headers declare: the last content-length key wins. */
  function DeclaredLength(keys: seq<string>, headers: Serializer.Headers, n: int): Option<int>
    requires forall k :: k in keys ==> k in headers
  {
    if keys == [] then Some(n)
    else if IsContentLength(keys[0]) then
      match Atoi(headers[keys[0]])
      case None => None
      case Some(m) => DeclaredLength(keys[1..], headers, m)
    else DeclaredLength(keys[1..], headers, n)
  }

  ghost function BodyLength(f: Frame): Option<int> {
    DeclaredLength(SortedKeys(f.HeaderMap().Keys), f.HeaderMap(), -1)
  }

  /** The declared body length is the real one, or there is none and the body has no NUL. */
  ghost predicate Framed(f: Frame) {
    match BodyLength(f)
    case None => false
    case Some(n) => if n == -1 then NUL !in f.Payload() else n == |f.Payload()|
  }

  /** A content-length value that fits a body. */
  predicate LengthFits(value: string, body: string) {
    match Atoi(value)
    case None => false
    case Some(n) => if n == -1 then NUL !in body else n == |body|
  }

  /** A command line that the splitter does not take for a heartbeat or cut in two. */
  predicate HasCommand(f: Frame) {
    f.command != "" && LF !in f.command && !IsEol(f.command[0])
  }

  /** The characters that `Escape` rewrites. */
  predicate IsSpecial(c: char) {
    c == BACKSLASH || c == LF || c == COLON
  }

  predicate Plain(s: string) {
    forall i :: 0 <= i < |s| ==> !IsSpecial(s[i])
  }

  lemma {:induction false} PlainEncode(s: string)
    ensures Plain(s) ==> Encode(s, 3) == s
    ensures !Plain(s) ==> BACKSLASH in Encode(s, 3)
  {
    if s != "" {
      PlainEncode(s[1..]);
      assert s == [s[0]] + s[1..];
      assert Plain(s) <==> !IsSpecial(s[0]) && Plain(s[1..]);
    }
  }

  lemma {:induction false} LowerKeeps(s: string, c: char)
    requires LowerChar(c) == c && c in s
    ensures c in ToLower(s)
  {
    if s[0] != c {
      LowerKeeps(s[1..], c);
    }
  }

  lemma AtoiRefuses(s: string, c: char)
    requires c in s && IsSpecial(c)
    ensures Atoi(s) == None
  {
    var i :| 0 <= i < |s| && s[i] == c;
    var signed := s[0] == '+' || s[0] == '-';
    if signed {
      assert s[1..][i - 1] == c;
    }
  }

  lemma SpecialKey(s: string, c: char)
    requires c in s && IsSpecial(c)
    ensures !IsContentLength(s)
  {
    LowerKeeps(s, c);
    var t := KEY_CONTENT_LENGTH;
    assert forall i :: 0 <= i < |t| ==> !IsSpecial(t[i]);
  }

  /** Escaping changes neither whether a key is content-length nor what a length parses to. */
  lemma EscapeNeutral(s: string)
    ensures IsContentLength(Escape(s)) <==> IsContentLength(s)
    ensures Atoi(Escape(s)) == Atoi(s)
  {
    hide Escape, Encode, Atoi, IsContentLength;
    EscapeIsEncode(s);
    PlainEncode(s);
    if !Plain(s) {
      var i :| 0 <= i < |s| && IsSpecial(s[i]);
      SpecialKey(s, s[i]);
      SpecialKey(Escape(s), BACKSLASH);
      AtoiRefuses(s, s[i]);
      AtoiRefuses(Escape(s), BACKSLASH);
    }
  }

  lemma ScanOfLine(k: string, v: string, rest: string, n: int)
    ensures
      var size := |HeaderLine(k, v)| + 1;
      ScanHeaders(HeaderLine(k, v) + "\n" + rest, n) ==
        if !IsContentLength(k) then ScanHeaders(rest, n).After(size)
        else if Atoi(v).None? then Broken(BadContentLength)
        else ScanHeaders(rest, Atoi(v).value).After(size)
  {
    var line := HeaderLine(k, v);
    var d := line + "\n" + rest;
    hide ScanHeaders, Split, Atoi, ToLower, IndexByte, Escape;
    LineShape(k, v);
    IndexByteAt(line, LF, rest);
    assert d[..|line|] == line;
    assert d[|line| + 1..] == rest;
    ColonsOnLine(k, v);
    EscapeNeutral(k);
    EscapeNeutral(v);
    ScanLine(d, n);
  }

  /** The splitter reads a printed header block as the length it declares. */
  lemma {:induction false} ScanOfBlock(keys: seq<string>, headers: Serializer.Headers, tail: string, n: int)
    requires forall k :: k in keys ==> k in headers
    ensures ScanHeaders(HeaderBlock(keys, headers) + "\n" + tail, n) ==
      match DeclaredLength(keys, headers, n)
      case None => Broken(BadContentLength)
      case Some(m) => FrameScanner.Headers(|HeaderBlock(keys, headers)| + 1, m)
  {
    hide ScanHeaders, IsContentLength, Atoi;
    if keys == [] {
      var d := "" + "\n" + tail;
      IndexByteAt("", LF, tail);
      ScanLine(d, n);
    } else {
      var k, v := keys[0], headers[keys[0]];
      var block := HeaderBlock(keys[1..], headers);
      var rest := block + "\n" + tail;
      assert HeaderBlock(keys, headers) + "\n" + tail == HeaderLine(k, v) + "\n" + rest;
      ScanOfLine(k, v, rest, n);
      ScanOfBlock(keys[1..], headers, tail, n);
      if Atoi(v).Some? {
        ScanOfBlock(keys[1..], headers, tail, Atoi(v).value);
      }
    }
  }

  lemma ScanOfHead(f: Frame, tail: string)
    requires LF !in f.command
    ensures ScanHead(Head(f) + tail) ==
      match BodyLength(f)
      case None => Broken(BadContentLength)
      case Some(m) => FrameScanner.Headers(|Head(f)|, m)
  {
    hide ScanHeaders, IndexByte, DeclaredLength;
    var keys := SortedKeys(f.HeaderMap().Keys);
    var rest := HeaderBlock(keys, f.HeaderMap()) + "\n" + tail;
    assert Head(f) + tail == f.command + [LF] + rest;
    IndexByteAt(f.command, LF, rest);
    assert (f.command + [LF] + rest)[|f.command| + 1..] == rest;
    ScanOfBlock(keys, f.HeaderMap(), tail, -1);
  }

  lemma {:induction false} DeclaredInRange(keys: seq<string>, headers: Serializer.Headers, n: int)
    requires forall k :: k in keys ==> k in headers
    requires INT_MIN <= n <= INT_MAX
    ensures DeclaredLength(keys, headers, n).Some? ==> INT_MIN <= DeclaredLength(keys, headers, n).value <= INT_MAX
  {
    if keys != [] {
      if IsContentLength(keys[0]) {
        if Atoi(headers[keys[0]]).Some? {
          DeclaredInRange(keys[1..], headers, Atoi(headers[keys[0]]).value);
        }
      } else {
        DeclaredInRange(keys[1..], headers, n);
      }
    }
  }

  predicate AllEol(gap: string) {
    forall i :: 0 <= i < |gap| ==> IsEol(gap[i])
  }

  lemma {:induction false} EolPrefixOfGap(gap: string, d: string)
    requires AllEol(gap) && (d != "" ==> !IsEol(d[0]))
    ensures EolPrefix(gap + d) == |gap|
  {
    if gap == "" {
      assert gap + d == d;
    } else {
      EolPrefixOfGap(gap[1..], d);
      assert (gap + d)[1..] == gap[1..] + d;
    }
  }

  /** The body of a frame ends where its NUL is, exactly when the declared length says so. */
  lemma EndOfBody(head: string, body: string, rest: string, frameStart: nat, n: int)
    requires INT_MIN <= n <= INT_MAX && (n == -1 || |head + body + [NUL] + rest| <= INT_MAX)
    ensures FindEnd(head + body + [NUL] + rest, frameStart, |head|, n) == Found(frameStart, |head| + |body| + 1)
      <==> if n == -1 then NUL !in body else n == |body|
  {
    var data := head + body + [NUL] + rest;
    if n == -1 {
      assert data[|head|..] == body + [NUL] + rest;
      if NUL in body {
        IndexByteFirst(body, NUL);
        IndexByteGrows(body, [NUL] + rest, NUL);
        assert body + [NUL] + rest == body + ([NUL] + rest);
      } else {
        IndexByteAt(body, NUL, rest);
      }
    } else {
      assert data[|head| + |body|] == NUL;
    }
  }

  /** A printed frame behind heartbeats, with anything after it, is cut at its end exactly when
      its declared body length fits its body. */
  lemma FramingExact(f: Frame, gap: string, rest: string)
    requires HasCommand(f) && AllEol(gap)
    requires |gap + Wire(f) + rest| <= INT_MAX || BodyLength(f) == Some(-1)
    ensures FindFrame(gap + Wire(f) + rest) == Found(|gap|, |gap| + |Wire(f)|) <==> Framed(f)
  {
    hide ScanHead, FindFrame, FindEnd, DeclaredLength, Head;
    var body := f.Payload();
    var tail := body + [NUL] + rest;
    HeadStarts(f);
    Regroup(gap, Head(f), body, rest);
    FrameBehindGap(gap, Head(f) + tail);
    ScanOfHead(f, tail);
    DeclaredInRange(SortedKeys(f.HeaderMap().Keys), f.HeaderMap(), -1);
    if BodyLength(f).Some? {
      EndOfBody(gap + Head(f), body, rest, |gap|, BodyLength(f).value);
    }
  }

  lemma Regroup(gap: string, head: string, body: string, rest: string)
    ensures gap + (head + body + [NUL]) + rest == gap + (head + (body + [NUL] + rest))
    ensures gap + (head + body + [NUL]) + rest == gap + head + body + [NUL] + rest
  {
  }

  lemma FrameBehindGap(gap: string, d: string)
    requires AllEol(gap) && d != "" && !IsEol(d[0])
    ensures |gap| == EolPrefix(gap + d)
    ensures FindFrame(gap + d) == FrameAt(gap + d, |gap|, ScanHead(d))
  {
    hide ScanHead, EolPrefix, FindFrame, FindEnd;
    EolPrefixOfGap(gap, d);
    FrameStep(gap + d);
    assert (gap + d)[|gap|..] == d;
  }

  lemma HeadStarts(f: Frame)
    ensures |Head(f)| >= |f.command| + 2
    ensures HasCommand(f) ==> Head(f)[0] == f.command[0]
  {
  }

  // ---------- which length counts ----------

  lemma {:induction false} LowerLength(s: string)
    ensures |ToLower(s)| == |s|
  {
    if s != "" {
      LowerLength(s[1..]);
    }
  }

  /** The splitter takes a key for content-length exactly when it is spelled so, in any capitals. */
  lemma ContentLengthExact(k: string)
    ensures IsContentLength(k) <==>
      |k| == |"content-length"| && forall i :: 0 <= i < |k| ==> k[i] == "content-length"[i] || k[i] == "CONTENT-LENGTH"[i]
  {
    hide ToLower;
    LowerLength(k);
    var key, caps := "content-length", "CONTENT-LENGTH";
    if |k| == |key| {
      forall i | 0 <= i < |k| ensures ToLower(k)[i] == key[i] <==> k[i] == key[i] || k[i] == caps[i] {
        LowerAt(k, i);
        SpelledSo(k[i], i);
      }
    }
  }

  lemma SpelledSo(c: char, i: nat)
    requires i < 14
    ensures |"content-length"| == |"CONTENT-LENGTH"| == 14
    ensures LowerChar(c) == "content-length"[i] <==> c == "content-length"[i] || c == "CONTENT-LENGTH"[i]
  {
  }

  /** Text without capitals is its own lower case. */
  lemma {:induction false} LowerAlready(s: string)
    requires forall i :: 0 <= i < |s| ==> !('A' <= s[i] <= 'Z')
    ensures ToLower(s) == s
  {
    if s != "" {
      LowerAlready(s[1..]);
      assert s == [s[0]] + s[1..];
    }
  }

  lemma IsLengthKey()
    ensures IsContentLength(KEY_CONTENT_LENGTH)
  {
    hide ToLower;
    var key := KEY_CONTENT_LENGTH;
    assert forall i :: 0 <= i < |key| ==> !('A' <= key[i] <= 'Z');
    LowerAlready(key);
  }

  lemma OtherKey(k: string)
    requires |k| != |KEY_CONTENT_LENGTH|
    ensures !IsContentLength(k)
  {
    LowerLength(k);
  }

  /** Capitals sort before small letters. */
  lemma {:induction false} LowerIsLast(s: string)
    ensures LexLe(s, ToLower(s))
  {
    if s != "" {
      LowerIsLast(s[1..]);
    }
  }

  lemma {:induction false} NoLengthKeys(keys: seq<string>, headers: Serializer.Headers, n: int)
    requires forall k :: k in keys ==> k in headers
    requires forall k :: k in keys ==> !IsContentLength(k)
    ensures DeclaredLength(keys, headers, n) == Some(n)
  {
    hide IsContentLength;
    if keys != [] {
      assert keys[0] in keys;
      NoLengthKeys(keys[1..], headers, n);
    }
  }

  predicate AllLengthsParse(keys: seq<string>, headers: Serializer.Headers)
    requires forall k :: k in keys ==> k in headers
  {
    forall k :: k in keys && IsContentLength(k) ==> Atoi(headers[k]).Some?
  }

  /** In sorted order the key in small letters is the last content-length key. */
  lemma {:induction false} SmallLettersWin(keys: seq<string>, headers: Serializer.Headers, n: int, todo: set<string>)
    requires Sorted(keys) && Lists(keys, todo) && KEY_CONTENT_LENGTH in keys
    requires forall k :: k in keys ==> k in headers
    ensures DeclaredLength(keys, headers, n)
         == if AllLengthsParse(keys, headers) then Atoi(headers[KEY_CONTENT_LENGTH]) else None
    decreases |keys|
  {
    hide IsContentLength, Atoi;
    var k, rest := keys[0], keys[1..];
    assert keys == [k] + rest;
    IsLengthKey();
    ListsMembers(rest, todo - {k});
    if k == KEY_CONTENT_LENGTH {
      forall y | y in rest ensures !IsContentLength(y) {
        NothingBehind(y);
      }
      if Atoi(headers[k]).Some? {
        NoLengthKeys(rest, headers, Atoi(headers[k]).value);
      }
    } else if IsContentLength(k) {
      if Atoi(headers[k]).Some? {
        SmallLettersWin(rest, headers, Atoi(headers[k]).value, todo - {k});
      }
    } else {
      SmallLettersWin(rest, headers, n, todo - {k});
    }
  }

  lemma NothingBehind(y: string)
    requires LexLe(KEY_CONTENT_LENGTH, y) && y != KEY_CONTENT_LENGTH
    ensures !IsContentLength(y)
  {
    hide LexLe, ToLower;
    if ToLower(y) == KEY_CONTENT_LENGTH {
      LowerIsLast(y);
      LexAntisymmetric(y, KEY_CONTENT_LENGTH);
    }
  }

  /** The length that the header map of a frame declares, by cases on its key in small letters. */
  lemma BodyLengthExact(f: Frame)
    ensures KEY_CONTENT_LENGTH in f.HeaderMap() ==>
      BodyLength(f) == if forall k :: k in f.HeaderMap() && IsContentLength(k) ==> Atoi(f.HeaderMap()[k]).Some?
                       then Atoi(f.HeaderMap()[KEY_CONTENT_LENGTH]) else None
    ensures (forall k :: k in f.HeaderMap() ==> !IsContentLength(k)) ==> BodyLength(f) == Some(-1)
  {
    hide IsContentLength, Atoi, DeclaredLength;
    var keys := SortedKeys(f.HeaderMap().Keys);
    if KEY_CONTENT_LENGTH in f.HeaderMap() {
      SmallLettersWin(keys, f.HeaderMap(), -1, f.HeaderMap().Keys);
    }
    if forall k :: k in f.HeaderMap() ==> !IsContentLength(k) {
      NoLengthKeys(keys, f.HeaderMap(), -1);
    }
  }
}
