/**
 Header escaping (serializer.go, frame.go): the three-pass replacements, the one-pass
 codec they stand for, and the exact inputs on which decoding inverts encoding.
 */
module Escaping {
  import opened GoStrings

  const BACKSLASH: char := '\\'
  const COLON: char := ':'

  // ---------- the code: three replacements each way ----------

  function Escape(l: string): string {
    var l := ReplaceAll(l, "\\", "\\\\");
    var l := ReplaceAll(l, "\n", "\\n");
    ReplaceAll(l, ":", "\\c")
  }

  function Unescape(l: string): string {
    var l := ReplaceAll(l, "\\\\", "\\");
    var l := ReplaceAll(l, "\\n", "\n");
    ReplaceAll(l, "\\c", ":")
  }

  // ---------- the reference: one character at a time ----------

  /** How many of the three escapes a string still carries while `Unescape` undoes them in turn. */
  type Stage = n: nat | n <= 3

  function EncodeChar(c: char, stage: Stage): string {
    if c == BACKSLASH && stage == 3 then "\\\\"
    else if c == LF && stage >= 2 then "\\n"
    else if c == COLON && stage >= 1 then "\\c"
    else [c]
  }

  function Encode(s: string, stage: Stage): string {
    if s == "" then "" else EncodeChar(s[0], stage) + Encode(s[1..], stage)
  }

  /** A decoder that reads each escape sequence once, from the left. */
  function DecodeOnce(s: string): string {
    if |s| >= 2 && s[0] == BACKSLASH && s[1] in "\\nc" then
      [if s[1] == 'n' then LF else if s[1] == 'c' then COLON else BACKSLASH] + DecodeOnce(s[2..])
    else if s == "" then ""
    else [s[0]] + DecodeOnce(s[1..])
  }

  /** No backslash stands directly before `x`. */
  predicate Free(s: string, x: char) {
    forall i :: 0 <= i < |s| - 1 && s[i] == BACKSLASH ==> s[i + 1] != x
  }

  /** No backslash stands directly before `n` or `c`. */
  predicate Safe(s: string) {
    Free(s, 'n') && Free(s, 'c')
  }

  // ---------- the three-pass encoder is the one-pass encoder ----------

  lemma EscapeConcat(a: string, b: string)
    ensures Escape(a + b) == Escape(a) + Escape(b)
  {
    var a1, b1 := ReplaceAll(a, "\\", "\\\\"), ReplaceAll(b, "\\", "\\\\");
    ReplaceByteConcat(a, b, BACKSLASH, "\\\\");
    ReplaceByteConcat(a1, b1, LF, "\\n");
    ReplaceByteConcat(ReplaceAll(a1, "\n", "\\n"), ReplaceAll(b1, "\n", "\\n"), COLON, "\\c");
  }

  lemma ReplaceInByte(x: char, c: char, sub: string)
    ensures ReplaceAll([x], [c], sub) == if x == c then sub else [x]
  {
    var s := [x];
    assert s[1..] == "" && sub + "" == sub;
    if x == c {
      assert ReplaceAll(s, [c], sub) == sub + ReplaceAll("", [c], sub);
    } else {
      assert !([c] <= s) && ReplaceAll(s[1..], [c], sub) == "";
      assert ReplaceAll(s, [c], sub) == [s[0]] + ReplaceAll(s[1..], [c], sub);
    }
  }

  lemma EscapeChar(x: char)
    ensures Escape([x]) == EncodeChar(x, 3)
  {
    ReplaceInByte(x, BACKSLASH, "\\\\");
    if x == BACKSLASH {
      ReplaceByteConcat("\\", "\\", LF, "\\n");
      ReplaceByteConcat("\\", "\\", COLON, "\\c");
      ReplaceInByte(BACKSLASH, LF, "\\n");
      ReplaceInByte(BACKSLASH, COLON, "\\c");
    } else {
      ReplaceInByte(x, LF, "\\n");
      if x == LF {
        ReplaceByteConcat("\\", "n", COLON, "\\c");
        ReplaceInByte(BACKSLASH, COLON, "\\c");
        ReplaceInByte('n', COLON, "\\c");
      } else {
        ReplaceInByte(x, COLON, "\\c");
      }
    }
  }

  lemma {:induction false} EscapeIsEncode(s: string)
    ensures Escape(s) == Encode(s, 3)
  {
    if s != "" {
      EscapeConcat([s[0]], s[1..]);
      assert s == [s[0]] + s[1..];
      EscapeChar(s[0]);
      EscapeIsEncode(s[1..]);
    }
  }

  lemma {:induction false} EncodeHides(s: string)
    ensures LF !in Encode(s, 3) && COLON !in Encode(s, 3)
    ensures CR in Encode(s, 3) <==> CR in s
  {
    if s != "" {
      EncodeHides(s[1..]);
      assert s == [s[0]] + s[1..];
    }
  }

  /** Escaping hides both header delimiters, and neither adds nor removes a carriage return. */
  lemma EscapeHidesDelimiters(s: string)
    ensures LF !in Escape(s) && COLON !in Escape(s)
    ensures CR in Escape(s) <==> CR in s
    ensures s != "" ==> Escape(s) != ""
  {
    EscapeIsEncode(s);
    EncodeHides(s);
  }

  // ---------- decoding ----------

  /** The one-pass decoder inverts the encoder on every string. */
  lemma {:induction false} DecodeOnceOfEscape(s: string)
    ensures DecodeOnce(Escape(s)) == s
  {
    EscapeIsEncode(s);
    DecodeOnceOfEncode(s);
  }

  lemma {:induction false} DecodeOnceOfEncode(s: string)
    ensures DecodeOnce(Encode(s, 3)) == s
  {
    if s != "" {
      DecodeOnceOfEncode(s[1..]);
      var e, t := EncodeChar(s[0], 3), Encode(s[1..], 3);
      assert (e + t)[|e|..] == t;
      assert s == [s[0]] + s[1..];
    }
  }

  /** Escaping is injective. */
  lemma EscapeInjective(a: string, b: string)
    requires Escape(a) == Escape(b)
    ensures a == b
  {
    DecodeOnceOfEscape(a);
    DecodeOnceOfEscape(b);
  }

  /** The first pass of `Unescape` undoes the backslash escapes and nothing else, for every string. */
  lemma {:induction false} FirstPass(s: string)
    ensures ReplaceAll(Encode(s, 3), "\\\\", "\\") == Encode(s, 2)
  {
    if s != "" {
      FirstPass(s[1..]);
      var t := Encode(s[1..], 3);
      if s[0] == BACKSLASH {
        ReplaceAllMatch(t, "\\\\", "\\");
      } else {
        PassOver(s[0], 3, t, "\\\\", "\\");
      }
    }
  }

  /** A pass steps over the encoding of a character that it neither matches nor overlaps. */
  lemma PassOver(c: char, stage: Stage, t: string, pat: string, sub: string)
    requires |pat| == 2 && pat[0] == BACKSLASH
    requires c == BACKSLASH ==> stage < 3 && (t != "" ==> t[0] != pat[1])
    requires EncodeChar(c, stage) != pat
    ensures ReplaceAll(EncodeChar(c, stage) + t, pat, sub) == EncodeChar(c, stage) + ReplaceAll(t, pat, sub)
  {
    var e := EncodeChar(c, stage);
    if |e| == 1 {
      ReplaceAllStep(c, t, pat, sub);
    } else {
      ReplaceAllStep(e[1], t, pat, sub);
      ReplaceAllStep(e[0], [e[1]] + t, pat, sub);
      assert e + t == [e[0]] + ([e[1]] + t);
    }
  }

  lemma EncodeHead(s: string, stage: Stage)
    ensures s != "" ==> Encode(s, stage)[0] == EncodeChar(s[0], stage)[0]
    ensures s == "" <==> Encode(s, stage) == ""
  {
  }

  lemma FreeTail(s: string, x: char)
    requires s != "" && Free(s, x)
    ensures Free(s[1..], x)
    ensures s[0] == BACKSLASH && |s| > 1 ==> s[1] != x
  {
  }

  /** The second pass undoes the line-feed escapes where no original backslash precedes an `n`. */
  lemma {:induction false} SecondPass(s: string)
    requires Free(s, 'n')
    ensures ReplaceAll(Encode(s, 2), "\\n", "\n") == Encode(s, 1)
  {
    if s != "" {
      FreeTail(s, 'n');
      SecondPass(s[1..]);
      var t := Encode(s[1..], 2);
      EncodeHead(s[1..], 2);
      if s[0] == LF {
        ReplaceAllMatch(t, "\\n", "\n");
      } else {
        PassOver(s[0], 2, t, "\\n", "\n");
      }
    }
  }

  /** The third pass undoes the colon escapes where no original backslash precedes a `c`. */
  lemma {:induction false} ThirdPass(s: string)
    requires Free(s, 'c')
    ensures ReplaceAll(Encode(s, 1), "\\c", ":") == s
  {
    if s != "" {
      FreeTail(s, 'c');
      ThirdPass(s[1..]);
      var t := Encode(s[1..], 1);
      EncodeHead(s[1..], 1);
      if s[0] == COLON {
        ReplaceAllMatch(t, "\\c", ":");
      } else {
        PassOver(s[0], 1, t, "\\c", ":");
      }
      assert s == [s[0]] + s[1..];
    }
  }

  /** A pass leaves no occurrence of its own pattern behind and brings in none of another. */
  lemma {:induction false} PassFrees(s: string, x: char, sub: char, y: char)
    requires sub != BACKSLASH && sub != y
    requires y == x || Free(s, y)
    ensures Free(ReplaceAll(s, [BACKSLASH, x], [sub]), y)
    ensures s != "" ==> ReplaceAll(s, [BACKSLASH, x], [sub]) != ""
    ensures s != "" ==> ReplaceAll(s, [BACKSLASH, x], [sub])[0] in [s[0], sub]
  {
    if s != "" {
      var pat := [BACKSLASH, x];
      var k := if pat <= s then 2 else 1;
      var t := s[k..];
      assert y == x || Free(t, y);
      PassFrees(t, x, sub, y);
    }
  }

  /** Whatever is decoded, the result has no backslash directly before `n` or `c`. */
  lemma UnescapeIsSafe(l: string)
    ensures Safe(Unescape(l))
  {
    var l1 := ReplaceAll(l, "\\\\", "\\");
    var l2 := ReplaceAll(l1, "\\n", "\n");
    PassFrees(l1, 'n', LF, 'n');
    PassFrees(l2, 'c', COLON, 'n');
    PassFrees(l2, 'c', COLON, 'c');
  }

  lemma {:induction false} ReplaceKeepsOut(s: string, pat: string, sub: string, c: char)
    requires pat != "" && c !in s && c !in sub
    ensures c !in ReplaceAll(s, pat, sub)
  {
    if s != "" {
      var k := if pat <= s then |pat| else 1;
      ReplaceKeepsOut(s[k..], pat, sub, c);
    }
  }

  /** Decoding brings in no carriage return. */
  lemma UnescapeKeepsCR(l: string)
    requires CR !in l
    ensures CR !in Unescape(l)
  {
    var l1 := ReplaceAll(l, "\\\\", "\\");
    ReplaceKeepsOut(l, "\\\\", "\\", CR);
    ReplaceKeepsOut(l1, "\\n", "\n", CR);
    ReplaceKeepsOut(ReplaceAll(l1, "\\n", "\n"), "\\c", ":", CR);
  }

  /** Decoding inverts encoding on exactly the strings with no backslash directly before `n` or `c`. */
  lemma UnescapeInvertsEscape(s: string)
    ensures Unescape(Escape(s)) == s <==> Safe(s)
  {
    if Safe(s) {
      EscapeIsEncode(s);
      FirstPass(s);
      SecondPass(s);
      ThirdPass(s);
    }
    UnescapeIsSafe(Escape(s));
  }

  /** The three-pass decoder agrees with the one-pass decoder on an encoded string exactly when it is safe. */
  lemma UnescapeMeetsDecodeOnce(s: string)
    ensures Unescape(Escape(s)) == DecodeOnce(Escape(s)) <==> Safe(s)
  {
    UnescapeInvertsEscape(s);
    DecodeOnceOfEscape(s);
  }

  /** The smallest string that does not come back: a backslash and an `n` return as a line feed. */
  lemma UnescapeLosesBackslashN()
    ensures Unescape(Escape("\\n")) == "\n"
  {
    EscapeIsEncode("\\n");
    assert Encode("\\n", 3) == "\\\\n";
    FirstPass("\\n");
    assert Encode("\\n", 2) == "\\n" + "";
    ReplaceAllMatch("", "\\n", "\n");
    ReplaceAllStep(LF, "", "\\c", ":");
    assert [LF] + "" == "\n";
  }

  /** A string without backslashes is safe. */
  lemma PlainIsSafe(s: string)
    requires BACKSLASH !in s
    ensures Safe(s)
  {
  }

  // ---------- the grammar check ----------

  /** Every backslash opens one of the sequences \\, \n, \r and \c. */
  predicate ValidEscapes(s: string) {
    if s == "" then true
    else if s[0] != BACKSLASH then ValidEscapes(s[1..])
    else |s| >= 2 && s[1] in "nrc\\" && ValidEscapes(s[2..])
  }

  /** Number of backslashes directly before position `i`. */
  function BackslashesBefore(s: string, i: nat): nat
    requires i <= |s|
  {
    if i == 0 || s[i - 1] != BACKSLASH then 0 else 1 + BackslashesBefore(s, i - 1)
  }

  /** A backslash that is not the second half of a sequence. */
  predicate Opens(s: string, i: nat) {
    i < |s| && s[i] == BACKSLASH && BackslashesBefore(s, i) % 2 == 0
  }

  predicate Completed(s: string, i: nat) {
    i + 1 < |s| && s[i + 1] in ['n', 'r', 'c', BACKSLASH]
  }

  lemma {:induction false} ValidFrom(s: string, k: nat)
    requires k <= |s| && BackslashesBefore(s, k) % 2 == 0
    ensures ValidEscapes(s[k..]) <==> forall i: nat :: k <= i && Opens(s, i) ==> Completed(s, i)
    decreases |s| - k
  {
    if k < |s| {
      assert s[k..][1..] == s[k + 1..];
      if s[k] != BACKSLASH {
        ValidFrom(s, k + 1);
      } else {
        assert Opens(s, k);
        if Completed(s, k) {
          assert s[k..][2..] == s[k + 2..];
          assert !Opens(s, k + 1);
          ValidFrom(s, k + 2);
        }
      }
    }
  }

  /** The check accepts exactly the texts in which `n`, `r`, `c` or a backslash follows every
      backslash that has an even number of them before it. */
  lemma ValidEscapesExact(s: string)
    ensures ValidEscapes(s) <==> forall i: nat :: Opens(s, i) ==> Completed(s, i)
  {
    ValidFrom(s, 0);
    assert s[0..] == s;
  }

  method CheckValidEscapes(s: string) returns (ok: bool)
    ensures ok <==> ValidEscapes(s)
  {
    var i := 0;
    while i < |s|
      invariant 0 <= i <= |s|
      invariant ValidEscapes(s) <==> ValidEscapes(s[i..])
    {
      assert s[i..][1..] == s[i + 1..];
      if s[i] == BACKSLASH {
        if i + 1 == |s| {
          return false;
        }
        if s[i + 1] != 'n' && s[i + 1] != 'r' && s[i + 1] != 'c' && s[i + 1] != BACKSLASH {
          return false;
        }
        assert s[i..][2..] == s[i + 2..];
        i := i + 1;
      }
      i := i + 1;
    }
    return true;
  }

  lemma {:induction false} EncodeIsValid(s: string)
    ensures ValidEscapes(Encode(s, 3))
  {
    if s != "" {
      EncodeIsValid(s[1..]);
      var e, t := EncodeChar(s[0], 3), Encode(s[1..], 3);
      assert (e + t)[|e|..] == t;
    }
  }

  /** `checkValidEscapes` accepts every encoded string. */
  lemma EscapeIsValid(s: string)
    ensures ValidEscapes(Escape(s))
  {
    EscapeIsEncode(s);
    EncodeIsValid(s);
  }

  /** A header line holds exactly one colon, and splitting there gives back the two encoded halves. */
  lemma ColonsOnLine(k: string, v: string)
    ensures Split(Escape(k) + ":" + Escape(v), COLON) == [Escape(k), Escape(v)]
  {
    EscapeHidesDelimiters(k);
    EscapeHidesDelimiters(v);
    SplitCons(Escape(k), COLON, Escape(v));
  }
}
