/**
 Which bytes are accepted: the exact texts that `deserialize` parses (serializer.go:52-106) and
 the exact buffers that `frameSplitter` cuts, waits for or refuses (frame_scanner.go:12-97), in
 terms of their lines.
 */
module Acceptance {
  import opened Wrappers
  import opened GoStrings
  import opened Escaping
  import opened Serializer
  import opened FrameScanner
  import opened WireFraming

  // ---------- lines ----------

  /** Lines with the line feeds that end them. */
  function Ended(lines: seq<string>): string {
    if lines == [] then "" else lines[0] + [LF] + Ended(lines[1..])
  }

  lemma EndedCons(l: string, lines: seq<string>)
    ensures Ended([l] + lines) == l + [LF] + Ended(lines)
  {
    assert ([l] + lines)[1..] == lines;
  }

  /** A text is its first lines, ended, and the join of the others. */
  lemma {:induction false} EndedPrefix(s: string, n: nat)
    requires n < |Split(s, LF)|
    ensures s == Ended(Split(s, LF)[..n]) + Join(Split(s, LF)[n..], LF)
    decreases n
  {
    hide Split, Join, Ended;
    var lines := Split(s, LF);
    JoinOfSplit(s, LF);
    assert Ended([]) == "" by { EndedNone(); }
    if n == 0 {
      assert lines[..0] == [] && lines[0..] == lines;
    } else {
      SplitHead(s);
      var rest := s[|lines[0]| + 1..];
      EndedPrefix(rest, n - 1);
      var more := Split(rest, LF);
      assert lines[..n] == [lines[0]] + more[..n - 1] && lines[n..] == more[n - 1..];
      EndedCons(lines[0], more[..n - 1]);
      Associate(lines[0] + [LF], Ended(more[..n - 1]), Join(more[n - 1..], LF));
    }
  }

  lemma EndedNone()
    ensures Ended([]) == ""
  {
  }

  /** Splitting off the first line. */
  lemma SplitHead(s: string)
    ensures IndexByte(s, LF) == if |Split(s, LF)| == 1 then -1 else |Split(s, LF)[0]|
    ensures |Split(s, LF)| > 1 ==>
      var l := Split(s, LF)[0];
      && |l| < |s| && s == l + [LF] + s[|l| + 1..] && s[..|l|] == l
      && Split(s, LF) == [l] + Split(s[|l| + 1..], LF) && Split(s, LF)[1..] == Split(s[|l| + 1..], LF)
  {
    var i := IndexByte(s, LF);
    if i != -1 {
      CutAt(s, i);
    }
  }

  // ---------- what the parser accepts ----------

  /** Exactly one colon: nothing behind the first is another. */
  predicate OneColon(l: string) {
    COLON in l && COLON !in l[IndexByte(l, COLON) + 1..]
  }

  lemma SplitTwo(l: string)
    ensures |Split(l, COLON)| == 2 <==> OneColon(l)
    ensures OneColon(l) ==> Split(l, COLON) == [l[..IndexByte(l, COLON)], l[IndexByte(l, COLON) + 1..]]
  {
    hide IndexByte;
    var i := IndexByte(l, COLON);
    IndexByteFirst(l, COLON);
    if i != -1 {
      var rest := l[i + 1..];
      SplitParts(rest, COLON);
      IndexByteFirst(rest, COLON);
    }
  }

  /** The decoded text before the colon of a line, and behind it. */
  function NameOf(l: string): string {
    if OneColon(l) then Unescape(l[..IndexByte(l, COLON)]) else ""
  }

  function ValueOf(l: string): string {
    if OneColon(l) then Unescape(l[IndexByte(l, COLON) + 1..]) else ""
  }

  /** Line `j` is the last one with this name. */
  predicate NamesLast(lines: seq<string>, j: nat, k: string) {
    j < |lines| && NameOf(lines[j]) == k && forall i :: j < i < |lines| ==> NameOf(lines[i]) != k
  }

  ghost predicate Named(lines: seq<string>, k: string) {
    exists j: nat :: j < |lines| && NameOf(lines[j]) == k
  }

  /** A header map that holds for every name the value of the last line with it, and for the
      others what another map holds. */
  ghost predicate HeldBy(lines: seq<string>, headers: Headers, acc: Headers) {
    && (forall k :: k in headers <==> k in acc || Named(lines, k))
    && (forall j: nat, k :: NamesLast(lines, j, k) && k in headers ==> headers[k] == ValueOf(lines[j]))
    && (forall k :: k in headers && k in acc && !Named(lines, k) ==> headers[k] == acc[k])
  }

  lemma ParseLine(l: string, rest: seq<string>, acc: Headers)
    requires l != ""
    ensures ParseHeaders([l] + rest, acc) ==
      if OneColon(l) then ParseHeaders(rest, acc[NameOf(l) := ValueOf(l)]) else None
  {
    SplitTwo(l);
    assert ([l] + rest)[1..] == rest;
  }

  /** The header lines end at the first empty line or with the text. All of them have one colon,
      or the text is refused. */
  lemma {:induction false} HeaderLines(lines: seq<string>, b: nat, acc: Headers)
    requires b <= |lines| && (b < |lines| ==> lines[b] == "")
    requires forall j :: 0 <= j < b ==> lines[j] != ""
    ensures ParseHeaders(lines, acc).Some? <==> forall j :: 0 <= j < b ==> OneColon(lines[j])
    ensures ParseHeaders(lines, acc).Some? ==> HeldBy(lines[..b], ParseHeaders(lines, acc).value, acc)
    decreases b
  {
    hide ParseHeaders, NameOf, ValueOf, OneColon, HeldBy;
    if b == 0 {
      NoHeaderLines(lines, acc);
    } else {
      var l, rest := lines[0], lines[1..];
      assert lines == [l] + rest;
      ParseLine(l, rest, acc);
      if OneColon(l) {
        var acc' := acc[NameOf(l) := ValueOf(l)];
        HeaderLines(rest, b - 1, acc');
        if ParseHeaders(rest, acc').Some? {
          HeldStep(l, rest[..b - 1], ParseHeaders(rest, acc').value, acc);
          assert lines[..b] == [l] + rest[..b - 1];
        }
      }
    }
  }

  lemma NoHeaderLines(lines: seq<string>, acc: Headers)
    requires lines != [] ==> lines[0] == ""
    ensures ParseHeaders(lines, acc) == Some(acc)
    ensures HeldBy(lines[..0], acc, acc)
  {
  }

  lemma NamedStep(l: string, rest: seq<string>, k: string)
    ensures Named([l] + rest, k) <==> NameOf(l) == k || Named(rest, k)
  {
    hide NameOf;
    var lines := [l] + rest;
    assert NameOf(lines[0]) == NameOf(l);
    if j: nat :| j < |rest| && NameOf(rest[j]) == k {
      assert NameOf(lines[j + 1]) == k;
    }
  }

  lemma NamesLastStep(l: string, rest: seq<string>, j: nat, k: string)
    ensures NamesLast([l] + rest, j, k) ==> if j == 0 then NameOf(l) == k && !Named(rest, k) else NamesLast(rest, j - 1, k)
  {
    hide NameOf;
    var lines := [l] + rest;
    assert forall i :: 0 <= i < |rest| ==> rest[i] == lines[i + 1];
  }

  lemma HeldStep(l: string, rest: seq<string>, headers: Headers, acc: Headers)
    requires HeldBy(rest, headers, acc[NameOf(l) := ValueOf(l)])
    ensures HeldBy([l] + rest, headers, acc)
  {
    hide NameOf, ValueOf, Named, NamesLast;
    var lines := [l] + rest;
    forall k ensures Named(lines, k) <==> NameOf(l) == k || Named(rest, k) {
      NamedStep(l, rest, k);
    }
    forall j: nat, k | NamesLast(lines, j, k) && k in headers ensures j < |lines| && headers[k] == ValueOf(lines[j]) {
      NamesLastStep(l, rest, j, k);
      LastIsLine(lines, j, k);
    }
  }

  lemma LastIsLine(lines: seq<string>, j: nat, k: string)
    requires NamesLast(lines, j, k)
    ensures j < |lines|
  {
  }

  /** Line `b` is empty and ends the headers of a frame: every line between it and the command has
      exactly one colon, and it is not the last line. */
  predicate EndsHeaders(lines: seq<string>, b: nat) {
    1 <= b < |lines| - 1 && lines[b] == "" && forall j :: 1 <= j < b ==> OneColon(lines[j])
  }

  /** A blank line lies between two line feeds. */
  lemma {:induction false} BlankLines(s: string)
    ensures NoBlankLine(s) <==> forall b :: 1 <= b < |Split(s, LF)| - 1 ==> Split(s, LF)[b] != ""
    ensures s != "" && s[0] == LF <==> |Split(s, LF)| > 1 && Split(s, LF)[0] == ""
    decreases |s|
  {
    hide Split, NoBlankLine;
    var lines := Split(s, LF);
    SplitHead(s);
    JoinOfSplit(s, LF);
    SplitParts(s, LF);
    if |lines| == 1 {
      assert lines == [lines[0]];
      NoLineFeed(s);
    } else {
      var l := lines[0];
      var rest := s[|l| + 1..];
      BlankLines(rest);
      OneLineMore(l, rest);
      assert forall b :: 1 <= b < |lines| - 1 ==> lines[b] == Split(rest, LF)[b - 1];
      assert forall b :: 1 <= b < |Split(rest, LF)| - 1 ==> Split(rest, LF)[b] == lines[b + 1];
    }
  }

  lemma NoLineFeed(s: string)
    requires LF !in s
    ensures NoBlankLine(s) && (s == "" || s[0] != LF)
  {
  }

  lemma OneLineMore(l: string, rest: string)
    requires LF !in l
    ensures NoBlankLine(l + [LF] + rest) <==> NoBlankLine(rest) && (rest == "" || rest[0] != LF)
    ensures (l + [LF] + rest)[0] == LF <==> l == ""
  {
    var s := l + [LF] + rest;
    assert forall j :: 0 <= j < |rest| ==> s[|l| + 1 + j] == rest[j];
    assert forall j :: 0 <= j < |l| ==> s[j] == l[j] && s[j] in l;
    assert s[|l|] == LF;
    if NoBlankLine(s) {
      forall j | 0 <= j < |rest| - 1 && rest[j] == LF ensures rest[j + 1] != LF {
        assert s[|l| + 1 + j] == LF && s[|l| + 1 + j + 1] == rest[j + 1];
      }
    }
  }

  lemma BlankAt(s: string, j: int)
    ensures OccursAt(s, "\n\n", j) <==> 0 <= j < |s| - 1 && s[j] == LF && s[j + 1] == LF
  {
    if 0 <= j < |s| - 1 {
      assert s[j..][..2] == [s[j], s[j + 1]];
    }
  }

  lemma IndexOfBlank(s: string)
    ensures Index(s, "\n\n") == -1 <==> NoBlankLine(s)
  {
    hide Index, OccursAt;
    var i := Index(s, "\n\n");
    if i >= 0 {
      BlankAt(s, i);
    } else {
      forall j | 0 <= j < |s| - 1 && s[j] == LF ensures s[j + 1] != LF {
        BlankAt(s, j);
      }
    }
  }

  lemma {:induction false} EndedShape(lines: seq<string>)
    requires forall i :: 0 <= i < |lines| ==> lines[i] != "" && LF !in lines[i]
    ensures NoBlankLine(Ended(lines))
    ensures var b := Ended(lines); b == "" || (b[0] != LF && b[|b| - 1] == LF)
  {
    if lines != [] {
      EndedShape(lines[1..]);
      var l, rest := lines[0], Ended(lines[1..]);
      OneLineMore(l, rest);
    }
  }

  /** The first empty line behind the command, if another line feed follows, is the first blank one. */
  lemma BlankFound(s: string, b: nat)
    requires 1 <= b < |Split(s, LF)| - 1 && Split(s, LF)[b] == ""
    requires forall j :: 1 <= j < b ==> Split(s, LF)[j] != ""
    ensures Index(s, "\n\n") + 2 == |Ended(Split(s, LF)[..b + 1])| <= |s|
    ensures s[Index(s, "\n\n") + 2..] == Join(Split(s, LF)[b + 1..], LF)
  {
    hide Split, Index, Join;
    var lines := Split(s, LF);
    SplitParts(s, LF);
    var block := Ended(lines[1..b]);
    EndedShape(lines[1..b]);
    EndedPrefix(s, b + 1);
    EndedParts(lines, b);
    var body := Join(lines[b + 1..], LF);
    FirstBlankLine(lines[0], block, body);
    var head := Ended(lines[..b + 1]);
    assert s == head + body;
    assert lines[0] + "\n" + block + "\n" + body == head + body;
    assert s[|head|..] == body;
  }

  lemma EndedParts(lines: seq<string>, b: nat)
    requires 1 <= b < |lines| && lines[b] == ""
    ensures Ended(lines[..b + 1]) == lines[0] + "\n" + Ended(lines[1..b]) + "\n"
  {
    assert lines[..b + 1] == [lines[0]] + (lines[1..b] + [""]);
    EndedCons(lines[0], lines[1..b] + [""]);
    EndedSnoc(lines[1..b], "");
  }

  lemma {:induction false} EndedSnoc(lines: seq<string>, l: string)
    ensures Ended(lines + [l]) == Ended(lines) + l + [LF]
  {
    if lines == [] {
      assert [] + [l] == [l];
    } else {
      EndedSnoc(lines[1..], l);
      EndedCons(lines[0], lines[1..] + [l]);
      assert lines + [l] == [lines[0]] + (lines[1..] + [l]);
    }
  }

  lemma RefusedText(text: string)
    requires CR !in text
    requires ParseHeaders(Split(text, LF)[1..], map[]).None? || Index(text, "\n\n") == -1
    ensures ParseText(text) == Malformed
  {
    hide Split, Index, OccursAt, ParseHeaders, ReplaceAll, WithoutCR;
    NothingDropped(text);
  }

  lemma AcceptedText(text: string, i: nat)
    requires CR !in text
    requires ParseHeaders(Split(text, LF)[1..], map[]).Some? && Index(text, "\n\n") == i
    ensures i + 2 <= |text|
    ensures ParseText(text)
         == Parsed(Frame(Split(text, LF)[0], ParseHeaders(Split(text, LF)[1..], map[]),
                         if i + 2 == |text| then None else Some(text[i + 2..])))
  {
    BlankFits(text);
    hide Split, Index, OccursAt, ParseHeaders, ReplaceAll, WithoutCR;
    NothingDropped(text);
  }

  lemma NothingDropped(text: string)
    requires CR !in text
    ensures WithoutCR(text) == text
  {
    DeleteByte(text, CR);
  }

  lemma BlankFits(text: string)
    ensures var i := Index(text, "\n\n"); i >= 0 ==> i + 2 <= |text| && text[i + 2..|text|] == text[i + 2..]
  {
  }

  /** A text without carriage returns is accepted exactly when some blank line ends its headers,
      and every other one is refused with an error. */
  lemma ParseTextExact(text: string)
    requires CR !in text
    ensures ParseText(text).Parsed? <==> exists b: nat :: EndsHeaders(Split(text, LF), b)
    ensures ParseText(text).Parsed? || ParseText(text) == Malformed
  {
    hide ParseText, Split, Index, ParseHeaders, OneColon, HeldBy, NoBlankLine;
    var lines := Split(text, LF);
    if ParseHeaders(lines[1..], map[]).None? || Index(text, "\n\n") == -1 {
      RefusedText(text);
    } else {
      AcceptedText(text, Index(text, "\n\n"));
    }
    IndexOfBlank(text);
    BlankLines(text);
    var b := FirstEmpty(lines);
    HeaderLines(lines[1..], b - 1, map[]);
    if ParseText(text).Parsed? {
      EndsThere(lines, b);
    }
    if c: nat :| EndsHeaders(lines, c) {
      OnlyFirstEnds(lines, c, b);
      NonemptyLines(lines, b);
    }
  }

  lemma EndsThere(lines: seq<string>, b: nat)
    requires 1 <= b <= |lines| && (b < |lines| ==> lines[b] == "")
    requires forall j :: 1 <= j < b ==> lines[j] != ""
    requires forall j :: 0 <= j < b - 1 ==> OneColon(lines[1..][j])
    requires exists c :: 1 <= c < |lines| - 1 && lines[c] == ""
    ensures EndsHeaders(lines, b)
  {
    hide OneColon;
    assert forall j :: 1 <= j < b ==> lines[1..][j - 1] == lines[j];
  }

  lemma OnlyFirstEnds(lines: seq<string>, c: nat, b: nat)
    requires EndsHeaders(lines, c) && 1 <= b <= |lines| && (b < |lines| ==> lines[b] == "")
    requires forall j :: 1 <= j < b ==> lines[j] != ""
    ensures c == b
  {
    if b < c {
      assert false;
    }
  }

  lemma {:induction false} FirstEmpty(lines: seq<string>) returns (b: nat)
    requires lines != []
    ensures 1 <= b <= |lines| && (b < |lines| ==> lines[b] == "")
    ensures forall j :: 1 <= j < b ==> lines[j] != ""
  {
    b := 1;
    while b < |lines| && lines[b] != ""
      invariant 1 <= b <= |lines|
      invariant forall j :: 1 <= j < b ==> lines[j] != ""
    {
      b := b + 1;
    }
  }

  /** What an accepted text parses to: its first line, for every name the value of the last header
      line with it, and everything behind the blank line. */
  lemma ParseTextSays(text: string, b: nat)
    requires CR !in text && EndsHeaders(Split(text, LF), b)
    ensures ParseText(text).Parsed?
    ensures
      var lines, f := Split(text, LF), ParseText(text).frame;
      var body := Join(lines[b + 1..], LF);
      && f.command == lines[0]
      && f.headers.Some? && HeldBy(lines[1..b], f.headers.value, map[])
      && f.body == if body == "" then None else Some(body)
  {
    hide ParseText, Split, Index, ParseHeaders, OneColon, HeldBy, Join;
    var lines := Split(text, LF);
    NonemptyLines(lines, b);
    HeaderLines(lines[1..], b - 1, map[]);
    assert lines[1..][..b - 1] == lines[1..b];
    BlankFound(text, b);
    var i := Index(text, "\n\n");
    AcceptedText(text, i);
    assert text[i + 2..] == "" <==> i + 2 == |text|;
  }

  lemma NonemptyLines(lines: seq<string>, b: nat)
    requires EndsHeaders(lines, b)
    ensures forall j :: 1 <= j < b ==> lines[j] != ""
    ensures forall j :: 0 <= j < b - 1 ==> lines[1..][j] != "" && OneColon(lines[1..][j])
    ensures lines[1..][b - 1] == ""
  {
  }

  /** The parser finds the terminator of exactly the buffers that end in a NUL and line feeds; a
      buffer of nothing but line feeds counts as empty. */
  lemma {:induction false} LastNulExact(buf: string, p: nat)
    ensures LastNul(buf) == Some(p) <==>
      || (p < |buf| && buf == buf[..p] + [NUL] + Feeds(|buf| - p - 1))
      || (p == 0 && buf == Feeds(|buf|))
  {
    if buf == "" {
      assert buf == Feeds(0);
    } else {
      var init, last := buf[..|buf| - 1], buf[|buf| - 1];
      assert buf == init + [last];
      if last == LF {
        LastNulExact(init, p);
        FeedsSnoc(|init|);
        if p < |init| {
          FeedsSnoc(|init| - p - 1);
          assert buf[..p] == init[..p];
        }
        PaddedInit(buf, p);
      } else {
        PaddedEnd(buf, p);
      }
    }
  }

  lemma FeedsSnoc(k: nat)
    ensures Feeds(k + 1) == Feeds(k) + [LF]
  {
  }

  lemma PaddedInit(buf: string, p: nat)
    requires buf != "" && buf[|buf| - 1] == LF
    ensures var init := buf[..|buf| - 1];
      (p < |buf| && buf == buf[..p] + [NUL] + Feeds(|buf| - p - 1)) <==>
      (p < |init| && init == init[..p] + [NUL] + Feeds(|init| - p - 1))
    ensures buf == Feeds(|buf|) <==> buf[..|buf| - 1] == Feeds(|buf| - 1)
  {
    var init := buf[..|buf| - 1];
    assert buf == init + [LF];
    FeedsSnoc(|init|);
    if p < |init| {
      FeedsSnoc(|init| - p - 1);
      var rest := Feeds(|init| - p - 1);
      assert init[..p] + [NUL] + (rest + [LF]) == init[..p] + [NUL] + rest + [LF];
      if buf == buf[..p] + [NUL] + Feeds(|buf| - p - 1) {
        assert init == (init[..p] + [NUL] + rest + [LF])[..|init|];
      }
    }
  }

  lemma PaddedEnd(buf: string, p: nat)
    requires buf != "" && buf[|buf| - 1] != LF
    ensures buf != Feeds(|buf|)
    ensures p < |buf| && buf == buf[..p] + [NUL] + Feeds(|buf| - p - 1) <==> p == |buf| - 1 && buf[p] == NUL
  {
    hide Feeds;
    FeedsEnd(|buf|);
    if p < |buf| - 1 {
      FeedsEnd(|buf| - p - 1);
    }
  }

  lemma FeedsEnd(k: nat)
    requires k > 0
    ensures Feeds(k)[k - 1] == LF
  {
  }

  // ---------- what the splitter accepts ----------

  /** The text before the first colon of a line, and between the first and the second. */
  function FieldName(l: string): string {
    if COLON in l then l[..IndexByteIn(l)] else ""
  }

  function FieldValue(l: string): string {
    if COLON !in l then ""
    else
      var rest := l[IndexByteIn(l) + 1..];
      if COLON in rest then rest[..IndexByteIn(rest)] else rest
  }

  function IndexByteIn(l: string): (i: nat)
    requires COLON in l
    ensures i < |l| && l[i] == COLON && COLON !in l[..i]
  {
    IndexByteFirst(l, COLON);
    IndexByte(l, COLON)
  }

  lemma SplitFields(l: string)
    ensures |Split(l, COLON)| == 1 <==> COLON !in l
    ensures COLON in l ==> Split(l, COLON)[0] == FieldName(l) && Split(l, COLON)[1] == FieldValue(l)
  {
    IndexByteFirst(l, COLON);
    SplitParts(l, COLON);
    if COLON in l {
      IndexByteFirst(l[IndexByteIn(l) + 1..], COLON);
    }
  }

  /** A header line that the splitter reads on behind. */
  predicate GoodLine(l: string) {
    l != "" && COLON in l && (IsContentLength(FieldName(l)) ==> Atoi(FieldValue(l)).Some?)
  }

  /** Line `i` is the last one that declares a length. */
  predicate DeclaresLast(lines: seq<string>, i: nat) {
    && i < |lines| && IsContentLength(FieldName(lines[i]))
    && forall j :: i < j < |lines| ==> !IsContentLength(FieldName(lines[j]))
  }

  /** The length `n` is the last one declared, or `start` when there is none. */
  ghost predicate Declares(lines: seq<string>, start: int, n: int) {
    && (forall i: nat :: DeclaresLast(lines, i) ==> Atoi(FieldValue(lines[i])) == Some(n))
    && ((forall i :: 0 <= i < |lines| ==> !IsContentLength(FieldName(lines[i]))) ==> n == start)
  }

  lemma DeclaresStep(l: string, rest: seq<string>, start: int, n: int)
    requires GoodLine(l)
    requires Declares(rest, if IsContentLength(FieldName(l)) then Atoi(FieldValue(l)).value else start, n)
    ensures Declares([l] + rest, start, n)
  {
    hide IsContentLength, FieldName, FieldValue, Atoi;
    var lines := [l] + rest;
    assert lines[0] == l && forall i :: 0 <= i < |rest| ==> rest[i] == lines[i + 1];
    forall i: nat | DeclaresLast(lines, i) ensures i < |lines| &&  Atoi(FieldValue(lines[i])) == Some(n) {
      if i > 0 {
        assert DeclaresLast(rest, i - 1);
      }
    }
  }

  lemma {:induction false} DeclaresOnce(lines: seq<string>, start: int, m: int, n: int)
    requires Declares(lines, start, m) && Declares(lines, start, n)
    ensures m == n
  {
    hide IsContentLength, FieldName, FieldValue, Atoi;
    if i :| 0 <= i < |lines| && IsContentLength(FieldName(lines[i])) {
      var k := LastDeclaring(lines, i);
      assert DeclaresLast(lines, k);
    }
  }

  lemma LastDeclaring(lines: seq<string>, i: nat) returns (k: nat)
    requires i < |lines| && IsContentLength(FieldName(lines[i]))
    ensures DeclaresLast(lines, k)
    decreases |lines| - i
  {
    hide IsContentLength, FieldName;
    k := i;
    if j :| i < j < |lines| && IsContentLength(FieldName(lines[j])) {
      k := LastDeclaring(lines, j);
    }
  }

  /** Where the splitter stops reading lines: at the first that is empty or bad, or at the last,
      which no line feed ends. */
  predicate StopsAt(lines: seq<string>, e: nat) {
    && e < |lines|
    && (forall j :: 0 <= j < e ==> GoodLine(lines[j]))
    && (e < |lines| - 1 ==> !GoodLine(lines[e]))
  }

  /** What stops it there. */
  function WhyStopped(lines: seq<string>, e: nat): Option<Why>
    requires e < |lines|
  {
    if e == |lines| - 1 then Some(LineTooLong)
    else if lines[e] == "" then None
    else if COLON !in lines[e] then Some(MissingColon)
    else Some(BadContentLength)
  }

  lemma OneLine(d: string, start: int)
    requires |Split(d, LF)| > 1
    ensures
      var l := Split(d, LF)[0];
      && |l| < |d|
      && ScanHeaders(d, start) ==
         if l == "" then FrameScanner.Headers(1, start)
         else if COLON !in l then Broken(MissingColon)
         else if !GoodLine(l) then Broken(BadContentLength)
         else ScanHeaders(d[|l| + 1..], if IsContentLength(FieldName(l)) then Atoi(FieldValue(l)).value else start).After(|l| + 1)
  {
    hide ScanHeaders, Split, Atoi, FieldName, FieldValue, ToLower;
    SplitHead(d);
    ScanLine(d, start);
    SplitFields(Split(d, LF)[0]);
  }

  lemma NoLine(d: string, start: int)
    requires |Split(d, LF)| == 1
    ensures ScanHeaders(d, start) == Broken(LineTooLong)
  {
    SplitHead(d);
  }

  /** The header loop, on the lines of what it reads. */
  lemma {:induction false} HeaderLoopExact(d: string, start: int, e: nat)
    requires StopsAt(Split(d, LF), e)
    ensures
      var lines, r := Split(d, LF), ScanHeaders(d, start);
      match WhyStopped(lines, e)
      case Some(why) => r == Broken(why)
      case None => r.Headers? && r.size == |Ended(lines[..e + 1])| && Declares(lines[..e], start, r.bodyLen)
    decreases e
  {
    hide ScanHeaders, Split, GoodLine, IsContentLength, FieldName, FieldValue, Ended, Declares;
    var lines := Split(d, LF);
    if |lines| == 1 {
      NoLine(d, start);
    } else {
      SplitHead(d);
      OneLine(d, start);
      var l := lines[0];
      var rest := d[|l| + 1..];
      GoodIsNot(l);
      if e == 0 {
        EmptyBlock(lines, start);
      } else {
        var next := if IsContentLength(FieldName(l)) then Atoi(FieldValue(l)).value else start;
        assert lines[1..][..e - 1] == lines[1..e];
        HeaderLoopExact(rest, next, e - 1);
        if WhyStopped(lines, e).None? {
          assert lines[..e] == [l] + lines[1..e] && lines[..e + 1] == [l] + lines[1..e + 1];
          assert lines[1..][..e] == lines[1..e + 1];
          DeclaresStep(l, lines[1..e], start, ScanHeaders(rest, next).bodyLen);
          EndedCons(l, lines[1..e + 1]);
        }
      }
    }
  }

  lemma GoodIsNot(l: string)
    ensures GoodLine(l) ==> l != "" && COLON in l && (IsContentLength(FieldName(l)) ==> Atoi(FieldValue(l)).Some?)
  {
  }

  lemma EmptyBlock(lines: seq<string>, start: int)
    requires lines != []
    ensures Declares(lines[..0], start, start)
    ensures lines[0] == "" ==> |Ended(lines[..1])| == 1
  {
    assert lines[..1] == [lines[0]];
    EndedCons(lines[0], []);
  }

  lemma {:induction false} FindStop(lines: seq<string>) returns (e: nat)
    requires lines != []
    ensures StopsAt(lines, e)
  {
    hide GoodLine;
    e := 0;
    while e < |lines| - 1 && GoodLine(lines[e])
      invariant e < |lines| && forall j :: 0 <= j < e ==> GoodLine(lines[j])
    {
      e := e + 1;
    }
  }

  /** Command line and header lines: without a complete command line, or with lines that stop
      before an empty one, the splitter gives up; otherwise it has the size of the block and the
      length that its last content-length line declares. */
  lemma HeadExact(d: string, e: nat)
    requires |Split(d, LF)| > 1 ==> StopsAt(Split(d, LF)[1..], e)
    ensures
      var lines, r := Split(d, LF), ScanHead(d);
      if |lines| == 1 then r == Broken(LineTooLong)
      else
        match WhyStopped(lines[1..], e)
        case Some(why) => r == Broken(why)
        case None => r.Headers? && r.size == |Ended(lines[..e + 2])| && Declares(lines[1..e + 1], -1, r.bodyLen)
  {
    hide ScanHeaders, Split, StopsAt, Declares, Ended;
    var lines := Split(d, LF);
    SplitHead(d);
    if |lines| > 1 {
      LineOfStop(lines[1..], e);
      HeaderLoopExact(d[|lines[0]| + 1..], -1, e);
      assert lines[1..][..e] == lines[1..e + 1];
      assert lines[1..][..e + 1] == lines[1..e + 2];
      assert lines[..e + 2] == [lines[0]] + lines[1..e + 2];
      EndedCons(lines[0], lines[1..e + 2]);
    }
  }

  lemma LineOfStop(lines: seq<string>, e: nat)
    requires StopsAt(lines, e)
    ensures e < |lines|
  {
  }

  /** A buffer is refused for its lines exactly when its command and header lines are not a
      complete block: no line feed behind the last of them, or a bad line before an empty one. */
  lemma LinesRefused(data: string, e: nat)
    requires EolPrefix(data) < |data|
    requires |Split(data[EolPrefix(data)..], LF)| > 1 ==> StopsAt(Split(data[EolPrefix(data)..], LF)[1..], e)
    ensures
      var lines := Split(data[EolPrefix(data)..], LF);
      forall why :: why != NotNulTerminated ==>
        (CutOf(data) == Fail(why) <==> if |lines| == 1 then why == LineTooLong else WhyStopped(lines[1..], e) == Some(why))
  {
    hide ScanHead, Split, StopsAt, EolPrefix, Ended, Declares;
    var start := EolPrefix(data);
    HeadExact(data[start..], e);
    if |Split(data[start..], LF)| > 1 {
      LineOfStop(Split(data[start..], LF)[1..], e);
    }
  }

  /** A buffer whose lines begin with a complete block: its body begins at `body`, and its block
      declares the length `n`. */
  ghost predicate HasBlock(data: string, body: nat, n: int) {
    var start := EolPrefix(data);
    && start < |data|
    && var lines := Split(data[start..], LF);
       |lines| > 1 && exists e: nat :: (
         && StopsAt(lines[1..], e) && WhyStopped(lines[1..], e).None?
         && body == start + |Ended(lines[..e + 2])| && Declares(lines[1..e + 1], -1, n))
  }

  lemma BlockScans(data: string, body: nat, n: int)
    requires HasBlock(data, body, n)
    ensures EolPrefix(data) < body <= |data| && INT_MIN <= n <= INT_MAX
    ensures FindFrame(data) == FindEnd(data, EolPrefix(data), body, n)
  {
    hide HasBlock, ScanHead, EolPrefix, FindEnd, FindFrame;
    BlockHead(data, body, n);
    DeclaredFits(data[EolPrefix(data)..]);
    FrameStep(data);
  }

  lemma BlockHead(data: string, body: nat, n: int)
    requires HasBlock(data, body, n)
    ensures EolPrefix(data) < body && EolPrefix(data) < |data|
    ensures ScanHead(data[EolPrefix(data)..]) == FrameScanner.Headers(body - EolPrefix(data), n)
  {
    hide ScanHead, Split, GoodLine, EolPrefix, Ended, Declares;
    var d := data[EolPrefix(data)..];
    var lines := Split(d, LF);
    var e: nat :| StopsAt(lines[1..], e) && WhyStopped(lines[1..], e).None?
      && body == EolPrefix(data) + |Ended(lines[..e + 2])| && Declares(lines[1..e + 1], -1, n);
    hide StopsAt, WhyStopped;
    HeadExact(d, e);
    DeclaresOnce(lines[1..e + 1], -1, ScanHead(d).bodyLen, n);
  }

  /** Behind a complete block without a declared length, the frame ends at the first NUL, and the
      splitter waits for one. */
  lemma BodyToNul(data: string, body: nat, p: nat)
    requires HasBlock(data, body, -1)
    ensures body <= |data| && (CutOf(data) == More <==> NUL !in data[body..])
    ensures body <= p < |data| && data[p] == NUL && NUL !in data[body..p] ==>
      CutOf(data).Token? && Trim(CutOf(data).token) == data[EolPrefix(data)..p + 1]
  {
    hide HasBlock, FindFrame, FindEnd, EolPrefix, Trim;
    BlockScans(data, body, -1);
    EndAtNul(data, EolPrefix(data), body, p);
    if CutOf(data).Token? {
      TokenShape(data);
    }
  }

  lemma EndAtNul(data: string, frameStart: nat, body: nat, p: nat)
    requires body <= |data|
    ensures FindEnd(data, frameStart, body, -1) == NeedMore <==> NUL !in data[body..]
    ensures FindEnd(data, frameStart, body, -1).NeedMore? || FindEnd(data, frameStart, body, -1).Found?
    ensures body <= p < |data| && data[p] == NUL && NUL !in data[body..p] ==>
      FindEnd(data, frameStart, body, -1) == Found(frameStart, p + 1)
  {
    var rest := data[body..];
    IndexByteFirst(rest, NUL);
    if body <= p < |data| && data[p] == NUL && NUL !in data[body..p] {
      assert rest == data[body..p] + [NUL] + data[p + 1..];
      IndexByteAt(data[body..p], NUL, data[p + 1..]);
    }
  }

  /** Behind a complete block with a declared length: the splitter waits for the byte behind the
      body, takes the frame if that is NUL, refuses it for good if it is another, and fails its
      bounds check if it is out of range. */
  lemma BodyOfLength(data: string, body: nat, n: int)
    requires HasBlock(data, body, n) && n != -1 && |data| <= INT_MAX
    ensures body <= |data|
    ensures CutOf(data) == More <==> body == |data| || |data| <= body + n <= INT_MAX
    ensures CutOf(data) == Panic <==> body < |data| && !(0 <= body + n <= INT_MAX)
    ensures CutOf(data) == Fail(NotNulTerminated) <==> body < |data| && 0 <= body + n < |data| && data[body + n] != NUL
    ensures CutOf(data).Token? <==> body < |data| && 0 <= body + n < |data| && data[body + n] == NUL
    ensures CutOf(data).Token? ==> EolPrefix(data) <= body + n && Trim(CutOf(data).token) == data[EolPrefix(data)..body + n + 1]
  {
    hide HasBlock, FindFrame, EolPrefix, Trim;
    BlockScans(data, body, n);
    if CutOf(data).Token? {
      TokenShape(data);
      FoundBounds(data);
    }
  }

  /** A printed frame is such a block, wherever its body then ends: with a wrong length it is
      refused, waited for, or cut elsewhere, as the bytes behind its header say. */
  lemma PrintedBlock(f: Frame, gap: string, tail: string)
    requires HasCommand(f) && AllEol(gap) && BodyLength(f).Some?
    ensures HasBlock(gap + Head(f) + tail, |gap| + |Head(f)|, BodyLength(f).value)
  {
    hide Head, BodyLength, ScanHead, Split, StopsAt, EolPrefix, Ended, Declares, HasCommand;
    var data := gap + Head(f) + tail;
    HeadStarts(f);
    assert data == gap + (Head(f) + tail);
    CommandLine(f);
    FrameBehindGap(gap, Head(f) + tail);
    assert data[|gap|..] == Head(f) + tail;
    ScanOfHead(f, tail);
    BlockOfScan(data);
  }

  /** A printed frame with a length that its headers declare, in any surroundings. */
  lemma WrongLength(f: Frame, gap: string, rest: string)
    requires HasCommand(f) && AllEol(gap) && BodyLength(f).Some? && BodyLength(f).value != -1
    requires |gap + Wire(f) + rest| <= INT_MAX
    ensures
      var data, at := gap + Wire(f) + rest, |gap| + |Head(f)| + BodyLength(f).value;
      && (CutOf(data) == Fail(NotNulTerminated) <==> 0 <= at < |data| && data[at] != NUL)
      && (CutOf(data) == More <==> |data| <= at <= INT_MAX)
      && (CutOf(data) == Panic <==> !(0 <= at <= INT_MAX))
      && (CutOf(data).Token? <==> 0 <= at < |data| && data[at] == NUL)
  {
    hide CutOf, HasBlock, Head, BodyLength, HasCommand;
    var tail := f.Payload() + [NUL] + rest;
    assert gap + Head(f) + tail == gap + Wire(f) + rest;
    PrintedBlock(f, gap, tail);
    BodyOfLength(gap + Head(f) + tail, |gap| + |Head(f)|, BodyLength(f).value);
  }

  lemma CommandLine(f: Frame)
    requires HasCommand(f)
    ensures LF !in f.command && Head(f) != "" && !IsEol(Head(f)[0])
  {
    HeadStarts(f);
  }

  lemma BlockOfScan(data: string)
    requires EolPrefix(data) < |data| && ScanHead(data[EolPrefix(data)..]).Headers?
    ensures var r := ScanHead(data[EolPrefix(data)..]); HasBlock(data, EolPrefix(data) + r.size, r.bodyLen)
  {
    hide ScanHead, Split, StopsAt, EolPrefix, Ended, Declares;
    var d := data[EolPrefix(data)..];
    var lines := Split(d, LF);
    var e: nat := 0;
    if |lines| > 1 {
      e := FindStop(lines[1..]);
      LineOfStop(lines[1..], e);
    }
    HeadExact(d, e);
  }
}
