/** The ack token of a MESSAGE (subscribe.go:129-145): destination, subscription and number. */
module AckToken {
  import opened GoStrings
  import opened Escaping

  /** `fmtAckNum` */
  function FmtAckNum(dest: string, subsID: string, ackNum: nat): string {
    dest + ":" + subsID + ":" + Itoa(ackNum)
  }

  /** A token read back, refused, or with too few parts for the index that is taken of it. */
  datatype AckScan = Scanned(dest: string, subsID: string, ackNum: nat) | BadNumber | TooFewParts

  /** `scanAckNum`. The number is truncated to 32 bits. */
  function ScanAckNum(fmtAck: string): AckScan {
    var parts := Split(fmtAck, COLON);
    if |parts| < 3 then TooFewParts
    else
      match Atoi(parts[2])
      case None => BadNumber
      case Some(n) => if n < 0 then BadNumber else Scanned(parts[0], parts[1], n % UINT32_RANGE)
  }

  /** A token reads back as what it was made of exactly when neither name holds a colon. */
  lemma TokenRoundTrip(dest: string, subsID: string, ackNum: nat)
    requires ackNum < UINT32_RANGE
    ensures ScanAckNum(FmtAckNum(dest, subsID, ackNum)) == Scanned(dest, subsID, ackNum)
      <==> COLON !in dest && COLON !in subsID
  {
    hide Split, Atoi, Itoa;
    var token, num := FmtAckNum(dest, subsID, ackNum), Itoa(ackNum);
    var tail := subsID + ":" + num;
    assert token == dest + [COLON] + tail && tail == subsID + [COLON] + num;
    if COLON !in dest && COLON !in subsID {
      ItoaChars(ackNum, COLON);
      SplitCons(dest, COLON, tail);
      SplitCons(subsID, COLON, num);
      NotSplit(num, COLON);
      AtoiOfItoa(ackNum);
    }
    SplitParts(token, COLON);
  }

  lemma NotSplit(s: string, c: char)
    requires c !in s
    ensures Split(s, c) == [s]
  {
    IndexByteFirst(s, c);
  }

  /** A token of clean names is clean, whether or not it can be read back. */
  lemma TokenClean(dest: string, subsID: string, ackNum: nat)
    requires Safe(dest) && Safe(subsID) && CR !in dest && CR !in subsID
    ensures Safe(FmtAckNum(dest, subsID, ackNum)) && CR !in FmtAckNum(dest, subsID, ackNum)
    ensures FmtAckNum(dest, subsID, ackNum) != ""
  {
    hide Itoa;
    var num := Itoa(ackNum);
    ItoaChars(ackNum, BACKSLASH);
    ItoaChars(ackNum, CR);
    PlainIsSafe(num);
    ItoaChars(ackNum, 'n');
    ItoaChars(ackNum, 'c');
    FreeToken(dest, subsID, num, 'n');
    FreeToken(dest, subsID, num, 'c');
  }

  lemma FreeToken(dest: string, subsID: string, num: string, x: char)
    requires Free(dest, x) && Free(subsID, x) && Free(num, x) && x != COLON
    ensures Free(dest + ":" + subsID + ":" + num, x)
  {
    assert dest + ":" + subsID + ":" + num == dest + (":" + (subsID + (":" + num)));
  }

  // ---------- any token ----------

  /** Three parts without colons at the front of a token, and the third one ends there or at a colon. */
  predicate Reads(fmtAck: string, dest: string, subsID: string, value: string) {
    var front := dest + ":" + subsID + ":" + value;
    && COLON !in dest && COLON !in subsID && COLON !in value
    && front <= fmtAck
    && (|front| < |fmtAck| ==> fmtAck[|front|] == COLON)
  }

  /** A token of three parts or more reads as its first three, if the third is a number that is
      not negative; a number too large loses its upper bits. */
  lemma ScanExact(fmtAck: string, dest: string, subsID: string, value: string)
    requires Reads(fmtAck, dest, subsID, value)
    ensures ScanAckNum(fmtAck) ==
      match Atoi(value)
      case None => BadNumber
      case Some(n) => if n < 0 then BadNumber else Scanned(dest, subsID, n % UINT32_RANGE)
  {
    hide Split, Atoi;
    var front := dest + ":" + subsID + ":" + value;
    var rest := fmtAck[|front|..];
    assert fmtAck == front + rest;
    var tail := value + rest;
    assert fmtAck == dest + [COLON] + (subsID + [COLON] + tail);
    SplitCons(dest, COLON, subsID + [COLON] + tail);
    SplitCons(subsID, COLON, tail);
    if rest == "" {
      NotSplit(value, COLON);
      assert tail == value;
    } else {
      assert tail == value + [COLON] + rest[1..];
      SplitCons(value, COLON, rest[1..]);
    }
  }

  /** Every other token fails on the index that is taken of its parts. */
  lemma ScanTooFew(fmtAck: string)
    ensures ScanAckNum(fmtAck) == TooFewParts <==> !exists dest, subsID, value :: Reads(fmtAck, dest, subsID, value)
  {
    hide Split, Atoi;
    if dest, subsID, value :| Reads(fmtAck, dest, subsID, value) {
      ScanExact(fmtAck, dest, subsID, value);
    } else {
      var parts := Split(fmtAck, COLON);
      if |parts| >= 3 {
        ThreeParts(fmtAck);
      }
    }
  }

  lemma ThreeParts(fmtAck: string)
    requires |Split(fmtAck, COLON)| >= 3
    ensures var parts := Split(fmtAck, COLON); Reads(fmtAck, parts[0], parts[1], parts[2])
  {
    hide Split;
    var parts := Split(fmtAck, COLON);
    SplitParts(fmtAck, COLON);
    JoinOfSplit(fmtAck, COLON);
    JoinFront(parts[0], parts[1..]);
    JoinFront(parts[1], parts[2..]);
    assert parts == [parts[0]] + parts[1..] && parts[1..] == [parts[1]] + parts[2..];
    var front := parts[0] + ":" + parts[1] + ":" + parts[2];
    var tail := Join(parts[2..], COLON);
    assert fmtAck == parts[0] + ":" + (parts[1] + ":" + tail);
    if |parts| == 3 {
      assert parts[2..] == [parts[2]];
      assert fmtAck == front;
    } else {
      JoinFront(parts[2], parts[3..]);
      assert parts[2..] == [parts[2]] + parts[3..];
      assert fmtAck == front + ":" + Join(parts[3..], COLON);
    }
  }

  lemma JoinFront(p: string, parts: seq<string>)
    requires parts != []
    ensures Join([p] + parts, COLON) == p + ":" + Join(parts, COLON)
  {
    JoinCons(p, parts, COLON);
  }
}
