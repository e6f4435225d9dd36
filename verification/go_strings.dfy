/**
 The parts of Go's `strings`, `bytes` and `strconv` packages that the STOMP code calls.
 A string stands for a byte sequence: one character for one octet.
 */
module GoStrings {
  import opened Wrappers

  const LF: char := '\n'
  const CR: char := '\r'
  const NUL: char := '\0'

  /** Bounds of Go's 64-bit `int`. */
  const INT_MAX: int := 0x7fff_ffff_ffff_ffff
  const INT_MIN: int := -0x8000_0000_0000_0000
  const UINT32_RANGE: int := 0x1_0000_0000

  /** The sum of two 64-bit integers, wrapped as Go wraps it. */
  function WrapInt(n: int): int {
    if n > INT_MAX then n - 2 * (INT_MAX + 1)
    else if n < INT_MIN then n + 2 * (INT_MAX + 1)
    else n
  }

  lemma Associate<T>(a: seq<T>, b: seq<T>, c: seq<T>)
    ensures a + (b + c) == a + b + c
  {
  }

  // ---------- searching ----------

  /** `bytes.IndexByte` */
  function IndexByte(s: string, c: char): (i: int)
    ensures -1 <= i < |s|
    ensures i >= 0 ==> s[i] == c
  {
    if s == "" then -1
    else if s[0] == c then 0
    else
      var r := IndexByte(s[1..], c);
      if r == -1 then -1 else r + 1
  }

  /** The first occurrence, or -1 when there is none. */
  lemma {:induction false} IndexByteFirst(s: string, c: char)
    ensures IndexByte(s, c) == -1 <==> c !in s
    ensures IndexByte(s, c) >= 0 ==> c !in s[..IndexByte(s, c)]
  {
    if s != "" && s[0] != c {
      IndexByteFirst(s[1..], c);
      assert s == [s[0]] + s[1..];
      var i := IndexByte(s[1..], c);
      assert i >= 0 ==> s[..i + 1] == [s[0]] + s[1..][..i];
    }
  }

  lemma {:induction false} IndexByteAt(p: string, c: char, q: string)
    requires c !in p
    ensures IndexByte(p + [c] + q, c) == |p|
  {
    var s := p + [c] + q;
    if p != "" {
      assert p == [p[0]] + p[1..];
      IndexByteAt(p[1..], c, q);
      assert s[1..] == p[1..] + [c] + q;
    }
  }

  /** The pattern occurs at position `j`. */
  predicate OccursAt(s: string, pat: string, j: int) {
    0 <= j <= |s| && pat <= s[j..]
  }

  /** `strings.Index` for a nonempty pattern: the first occurrence. */
  function Index(s: string, pat: string): (i: int)
    requires pat != ""
    ensures -1 <= i <= |s|
    ensures i >= 0 ==> OccursAt(s, pat, i)
    ensures forall j :: OccursAt(s, pat, j) ==> 0 <= i <= j
  {
    if pat <= s then 0
    else if s == "" then -1
    else
      assert forall j :: OccursAt(s, pat, j) ==> j >= 1 && OccursAt(s[1..], pat, j - 1) by {
        forall j | OccursAt(s, pat, j) ensures j >= 1 && OccursAt(s[1..], pat, j - 1) {
          assert s[0..] == s;
          assert j >= 1 ==> s[j..] == s[1..][j - 1..];
        }
      }
      var r := Index(s[1..], pat);
      assert r >= 0 ==> s[1..][r..] == s[r + 1..];
      if r == -1 then -1 else r + 1
  }

  // ---------- splitting ----------

  /** `strings.Split` at a one-byte separator. */
  function Split(s: string, c: char): (parts: seq<string>)
    ensures |parts| >= 1
  {
    var i := IndexByte(s, c);
    if i == -1 then [s] else [s[..i]] + Split(s[i + 1..], c)
  }

  function Join(parts: seq<string>, c: char): string
    requires parts != []
  {
    if |parts| == 1 then parts[0] else parts[0] + [c] + Join(parts[1..], c)
  }

  /** No part holds the separator, and there is one part exactly when the input holds none. */
  lemma {:induction false} SplitParts(s: string, c: char)
    ensures |Split(s, c)| == 1 <==> c !in s
    ensures forall i :: 0 <= i < |Split(s, c)| ==> c !in Split(s, c)[i]
    decreases |s|
  {
    var i := IndexByte(s, c);
    IndexByteFirst(s, c);
    if i != -1 {
      SplitParts(s[i + 1..], c);
    }
  }

  /** A byte that is not in the input is in no part. */
  lemma {:induction false} SplitWithin(s: string, c: char, x: char)
    requires x !in s
    ensures forall p :: p in Split(s, c) ==> x !in p
    decreases |s|
  {
    var i := IndexByte(s, c);
    if i != -1 {
      var rest := s[i + 1..];
      SplitWithin(rest, c, x);
      assert x !in s[..i];
    }
  }

  lemma SplitCons(p: string, c: char, q: string)
    requires c !in p
    ensures Split(p + [c] + q, c) == [p] + Split(q, c)
  {
    IndexByteAt(p, c, q);
    var s := p + [c] + q;
    assert s[..|p|] == p;
    assert s[|p| + 1..] == q;
  }

  /** Splitting recovers exactly the separator-free parts that were joined. */
  lemma {:induction false} SplitOfJoin(parts: seq<string>, c: char)
    requires parts != []
    requires forall p :: p in parts ==> c !in p
    ensures Split(Join(parts, c), c) == parts
  {
    if |parts| > 1 {
      SplitOfJoin(parts[1..], c);
      SplitCons(parts[0], c, Join(parts[1..], c));
      assert parts == [parts[0]] + parts[1..];
    } else {
      IndexByteFirst(parts[0], c);
    }
  }

  lemma JoinCons(p: string, parts: seq<string>, c: char)
    requires parts != []
    ensures Join([p] + parts, c) == p + [c] + Join(parts, c)
  {
    assert ([p] + parts)[1..] == parts;
  }

  /** Splitting loses nothing. */
  lemma {:induction false} JoinOfSplit(s: string, c: char)
    ensures Join(Split(s, c), c) == s
    decreases |s|
  {
    var i := IndexByte(s, c);
    if i != -1 {
      JoinOfSplit(s[i + 1..], c);
      JoinCons(s[..i], Split(s[i + 1..], c), c);
      CutAt(s, i);
    }
  }

  lemma CutAt(s: string, i: nat)
    requires i < |s|
    ensures s[..i] + [s[i]] + s[i + 1..] == s
  {
  }

  // ---------- replacing ----------

  /** `strings.ReplaceAll` for a nonempty pattern: left to right, without overlaps. */
  function ReplaceAll(s: string, pat: string, sub: string): string
    requires pat != ""
  {
    if s == "" then ""
    else if pat <= s then sub + ReplaceAll(s[|pat|..], pat, sub)
    else [s[0]] + ReplaceAll(s[1..], pat, sub)
  }

  /** One step of a replacement, for a subject given as head and tail. */
  lemma ReplaceAllStep(h: char, t: string, pat: string, sub: string)
    requires pat != ""
    ensures !(pat <= [h] + t) ==> ReplaceAll([h] + t, pat, sub) == [h] + ReplaceAll(t, pat, sub)
    ensures pat == [h] ==> ReplaceAll([h] + t, pat, sub) == sub + ReplaceAll(t, pat, sub)
  {
    var s := [h] + t;
    assert s[1..] == t;
  }

  lemma ReplaceAllMatch(t: string, pat: string, sub: string)
    requires pat != ""
    ensures ReplaceAll(pat + t, pat, sub) == sub + ReplaceAll(t, pat, sub)
  {
    assert (pat + t)[|pat|..] == t;
  }

  /** Replacing goes from one first occurrence to the next, and copies what is in between. */
  lemma {:induction false} ReplaceByIndex(s: string, pat: string, sub: string)
    requires pat != ""
    ensures var i := Index(s, pat);
      if i == -1 then ReplaceAll(s, pat, sub) == s
      else i + |pat| <= |s| && ReplaceAll(s, pat, sub) == s[..i] + sub + ReplaceAll(s[i + |pat|..], pat, sub)
    decreases |s|
  {
    hide ReplaceAll, Index, OccursAt;
    if s == "" || pat <= s {
      ReplaceFirst(s, pat, sub);
    } else {
      ReplaceByIndex(s[1..], pat, sub);
      ReplaceTail(s, pat, sub);
    }
  }

  lemma ReplaceFirst(s: string, pat: string, sub: string)
    requires pat != "" && (s == "" || pat <= s)
    ensures s == "" ==> Index(s, pat) == -1 && ReplaceAll(s, pat, sub) == s
    ensures pat <= s ==> Index(s, pat) == 0 && ReplaceAll(s, pat, sub) == s[..0] + sub + ReplaceAll(s[|pat|..], pat, sub)
  {
    hide OccursAt;
    assert s[..0] + sub == sub;
  }

  lemma ReplaceTail(s: string, pat: string, sub: string)
    requires pat != "" && s != "" && !(pat <= s)
    requires var i := Index(s[1..], pat);
      if i == -1 then ReplaceAll(s[1..], pat, sub) == s[1..]
      else i + |pat| <= |s| - 1 && ReplaceAll(s[1..], pat, sub) == s[1..][..i] + sub + ReplaceAll(s[1..][i + |pat|..], pat, sub)
    ensures var i := Index(s, pat);
      if i == -1 then ReplaceAll(s, pat, sub) == s
      else i + |pat| <= |s| && ReplaceAll(s, pat, sub) == s[..i] + sub + ReplaceAll(s[i + |pat|..], pat, sub)
  {
    hide ReplaceAll, Index, OccursAt;
    var i := Index(s[1..], pat);
    IndexTail(s, pat);
    ReplaceAllStep(s[0], s[1..], pat, sub);
    assert s == [s[0]] + s[1..];
    if i != -1 {
      var more := ReplaceAll(s[i + 1 + |pat|..], pat, sub);
      assert s[1..][i + |pat|..] == s[i + 1 + |pat|..];
      assert s[..i + 1] == [s[0]] + s[1..][..i];
      Associate([s[0]], s[1..][..i] + sub, more);
      Associate([s[0]], s[1..][..i], sub);
    }
  }

  lemma IndexTail(s: string, pat: string)
    requires pat != "" && s != "" && !(pat <= s)
    ensures Index(s, pat) == if Index(s[1..], pat) == -1 then -1 else Index(s[1..], pat) + 1
  {
  }

  /** A one-byte pattern is replaced on each side of a concatenation independently. */
  lemma {:induction false} ReplaceByteConcat(a: string, b: string, c: char, sub: string)
    ensures ReplaceAll(a + b, [c], sub) == ReplaceAll(a, [c], sub) + ReplaceAll(b, [c], sub)
  {
    if a == "" {
      assert a + b == b;
    } else {
      ReplaceByteConcat(a[1..], b, c, sub);
      var first := if a[0] == c then sub else [a[0]];
      ReplaceByteStep(a[0], a[1..] + b, c, sub);
      ReplaceByteStep(a[0], a[1..], c, sub);
      assert a == [a[0]] + a[1..];
      assert a + b == [a[0]] + (a[1..] + b);
      hide ReplaceAll;
      Associate(first, ReplaceAll(a[1..], [c], sub), ReplaceAll(b, [c], sub));
    }
  }

  lemma ReplaceByteStep(h: char, t: string, c: char, sub: string)
    ensures ReplaceAll([h] + t, [c], sub) == (if h == c then sub else [h]) + ReplaceAll(t, [c], sub)
  {
    ReplaceAllStep(h, t, [c], sub);
    assert ([h] + t)[0] == h;
  }

  /** Deleting a byte: nothing happens without it, and the text gets shorter with it. */
  lemma {:induction false} DeleteByte(s: string, c: char)
    ensures c !in s ==> ReplaceAll(s, [c], "") == s
    ensures c in s ==> |ReplaceAll(s, [c], "")| < |s|
    ensures |ReplaceAll(s, [c], "")| <= |s|
  {
    if s != "" {
      DeleteByte(s[1..], c);
      assert s == [s[0]] + s[1..];
      ReplaceAllStep(s[0], s[1..], [c], "");
    }
  }

  // ---------- case ----------

  /** `strings.ToLower` on ASCII. No other letter lower-cases to a letter of `content-length`; other
      header keys are taken to be ASCII. */
  function LowerChar(c: char): char {
    if 'A' <= c <= 'Z' then c - 'A' + 'a' else c
  }

  function ToLower(s: string): string {
    if s == "" then "" else [LowerChar(s[0])] + ToLower(s[1..])
  }

  const CAPITALS: string := "ABCDEFGHIJKLMNOPQRSTUVWXYZ"
  const SMALL_LETTERS: string := "abcdefghijklmnopqrstuvwxyz"

  lemma LetterAt(j: nat)
    requires j < 26
    ensures |CAPITALS| == |SMALL_LETTERS| == 26
    ensures CAPITALS[j] as int == 'A' as int + j && SMALL_LETTERS[j] as int == 'a' as int + j
  {
  }

  lemma IsCapital(c: char)
    ensures c in CAPITALS <==> 'A' <= c <= 'Z'
  {
    if 'A' <= c <= 'Z' {
      var j := c as int - 'A' as int;
      LetterAt(j);
      assert CAPITALS[j] == c;
    }
    if c in CAPITALS {
      var j: nat :| j < |CAPITALS| && CAPITALS[j] == c;
      LetterAt(j);
    }
  }

  lemma {:induction false} LowerAt(s: string, i: nat)
    requires i < |s|
    ensures |ToLower(s)| == |s| && ToLower(s)[i] == LowerChar(s[i])
  {
    if |s| > 1 {
      LowerAt(s[1..], if i == 0 then 0 else i - 1);
    }
  }

  /** Lower-casing replaces every capital by its own small letter and keeps everything else. */
  lemma ToLowerExact(s: string, i: nat)
    requires i < |s|
    ensures |ToLower(s)| == |s| && ToLower(s)[i] !in CAPITALS
    ensures s[i] !in CAPITALS ==> ToLower(s)[i] == s[i]
    ensures forall j :: 0 <= j < |CAPITALS| && s[i] == CAPITALS[j] ==>
      j < |SMALL_LETTERS| && ToLower(s)[i] == SMALL_LETTERS[j]
  {
    hide ToLower;
    LowerAt(s, i);
    IsCapital(s[i]);
    IsCapital(LowerChar(s[i]));
    forall j | 0 <= j < |CAPITALS| && s[i] == CAPITALS[j]
      ensures j < |SMALL_LETTERS| && LowerChar(s[i]) == SMALL_LETTERS[j]
    {
      LetterAt(j);
    }
  }

  // ---------- decimal numbers ----------

  predicate IsDigit(c: char) { '0' <= c <= '9' }

  predicate AllDigits(s: string) { forall i :: 0 <= i < |s| ==> IsDigit(s[i]) }

  function DigitChar(d: nat): (c: char)
    requires d < 10
    ensures IsDigit(c) && DigitValue(c) == d
  {
    '0' + d as char
  }

  function DigitValue(c: char): nat
    requires IsDigit(c)
  {
    c as int - '0' as int
  }

  function FormatNat(n: nat): (s: string)
    ensures s != "" && AllDigits(s)
  {
    if n < 10 then [DigitChar(n)] else FormatNat(n / 10) + [DigitChar(n % 10)]
  }

  function ParseDigits(s: string): nat
    requires AllDigits(s)
  {
    if s == "" then 0 else 10 * ParseDigits(s[..|s| - 1]) + DigitValue(s[|s| - 1])
  }

  /** `strconv.Itoa`, also what `%d` prints. */
  function Itoa(n: int): string {
    if n < 0 then "-" + FormatNat(-n) else FormatNat(n)
  }

  /** `strconv.Atoi`: an optional sign, at least one digit, and a value that fits 64 bits. */
  function Atoi(s: string): Option<int> {
    var signed := s != "" && (s[0] == '+' || s[0] == '-');
    var digits := if signed then s[1..] else s;
    if digits == "" || !AllDigits(digits) then None
    else
      var n: int := ParseDigits(digits);
      var n := if signed && s[0] == '-' then -n else n;
      if INT_MIN <= n <= INT_MAX then Some(n) else None
  }

  lemma {:induction false} ParseOfFormat(n: nat)
    ensures ParseDigits(FormatNat(n)) == n
  {
    var s := FormatNat(n);
    if n < 10 {
      assert s[..0] == "";
    } else {
      ParseOfFormat(n / 10);
      assert s[..|s| - 1] == FormatNat(n / 10);
    }
  }

  /** Printing and parsing a machine integer is the identity. */
  lemma AtoiOfItoa(n: int)
    requires INT_MIN <= n <= INT_MAX
    ensures Atoi(Itoa(n)) == Some(n)
  {
    ParseOfFormat(if n < 0 then -n else n);
    var s := Itoa(n);
    if n < 0 {
      assert s[1..] == FormatNat(-n);
    } else {
      assert IsDigit(s[0]);
    }
  }

  /** A printed number holds no byte other than digits and a sign. */
  lemma ItoaChars(n: int, c: char)
    requires c != '-' && !IsDigit(c)
    ensures c !in Itoa(n)
  {
    var digits := FormatNat(if n < 0 then -n else n);
    assert forall i :: 0 <= i < |digits| ==> IsDigit(digits[i]);
  }

  /** A printed number is its quotient by ten, printed, and one digit. */
  lemma ItoaExact(n: nat)
    ensures Itoa(n) == (if n < 10 then "" else Itoa(n / 10)) + ["0123456789"[n % 10]]
  {
    DigitIs(n % 10);
  }

  lemma DigitIs(d: nat)
    requires d < 10
    ensures DigitChar(d) == "0123456789"[d]
  {
  }

  function Zeros(k: nat): (s: string)
    ensures |s| == k
  {
    seq(k, _ => '0')
  }

  lemma {:induction false} ParseZeros(k: nat, t: string)
    requires t != "" && AllDigits(t)
    ensures AllDigits(Zeros(k) + t) && ParseDigits(Zeros(k) + t) == ParseDigits(t)
    decreases |t|, k
  {
    var s := Zeros(k) + t;
    var init := t[..|t| - 1];
    assert s[..|s| - 1] == Zeros(k) + init;
    if init != "" {
      ParseZeros(k, init);
    } else if k > 0 {
      assert Zeros(k) + init == Zeros(k - 1) + "0";
      ParseZeros(k - 1, "0");
      assert "0"[..0] == "";
    }
  }

  /** Digits are the number they stand for, behind some zeros. */
  lemma {:induction false} DigitsAreNumber(d: string) returns (k: nat)
    requires d != "" && AllDigits(d)
    ensures d == Zeros(k) + FormatNat(ParseDigits(d))
    decreases |d|
  {
    var init, c := d[..|d| - 1], d[|d| - 1];
    assert d == init + [c] && DigitChar(DigitValue(c)) == c;
    if init == "" {
      k := 0;
    } else {
      k := DigitsAreNumber(init);
      var m := ParseDigits(init);
      if m == 0 {
        k := k + 1;
        assert Zeros(k) == Zeros(k - 1) + "0";
      }
    }
  }

  /** The number `n`, printed with `k` zeros in front, with or without a sign that fits it. */
  predicate Prints(s: string, n: int, k: nat) {
    (n >= 0 && (s == Zeros(k) + Itoa(n) || s == "+" + Zeros(k) + Itoa(n))) || (n <= 0 && s == "-" + Zeros(k) + Itoa(-n))
  }

  /** Parsing accepts exactly the printed machine integers, with any zeros and a sign in front. */
  lemma AtoiExact(s: string, n: int)
    ensures Atoi(s) == Some(n) <==> INT_MIN <= n <= INT_MAX && exists k: nat :: Prints(s, n, k)
  {
    hide Atoi, Prints;
    if Atoi(s) == Some(n) {
      AtoiPrints(s, n);
    }
    if k: nat :| Prints(s, n, k) {
      PrintsAtoi(s, n, k);
    }
  }

  lemma AtoiPrints(s: string, n: int)
    requires Atoi(s) == Some(n)
    ensures INT_MIN <= n <= INT_MAX && exists k: nat :: Prints(s, n, k)
  {
    hide ParseDigits, FormatNat, Zeros;
    var d := Unsigned(s);
    var k := DigitsAreNumber(d);
    assert s == d || s == "+" + d || s == "-" + d;
    Associate("+", Zeros(k), FormatNat(ParseDigits(d)));
    Associate("-", Zeros(k), FormatNat(ParseDigits(d)));
    assert Prints(s, n, k);
  }

  lemma PrintsAtoi(s: string, n: int, k: nat)
    requires Prints(s, n, k)
    ensures Atoi(s) == if INT_MIN <= n <= INT_MAX then Some(n) else None
  {
    hide ParseDigits, FormatNat, Zeros;
    var m := if n < 0 then -n else n;
    var d := Zeros(k) + FormatNat(m);
    ParseOfFormat(m);
    ParseZeros(k, FormatNat(m));
    UnsignedDigits(d);
    Associate("+", Zeros(k), FormatNat(m));
    Associate("-", Zeros(k), FormatNat(m));
  }

  function Unsigned(s: string): string {
    if s != "" && (s[0] == '+' || s[0] == '-') then s[1..] else s
  }

  lemma UnsignedDigits(d: string)
    requires d != "" && AllDigits(d)
    ensures Unsigned(d) == Unsigned("+" + d) == Unsigned("-" + d) == d
  {
    assert IsDigit(d[0]);
  }
}
