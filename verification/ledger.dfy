/**
 One subscription's acknowledgement ledger (subscribe.go:14-21, 108-116, 161-170): a counter
 and the set of numbers sent and not yet acknowledged.
 */
module Ledger {
  import opened Names
  import opened GoStrings

  datatype SubsInfo = SubsInfo(session: string, ackMode: string, nextAckNum: nat, pending: set<nat>)

  function NewInfo(session: string, ackMode: string): SubsInfo {
    SubsInfo(session, ackMode, 0, {})
  }

  // ---------- one step ----------

  /** After a message went out under the next number. The counter has 32 bits. */
  function AfterSend(info: SubsInfo): SubsInfo {
    info.(pending := info.pending + {info.nextAckNum}, nextAckNum := (info.nextAckNum + 1) % UINT32_RANGE)
  }

  lemma {:induction false} FindMinimum(p: set<nat>) returns (m: nat)
    requires p != {}
    ensures m in p && forall x :: x in p ==> m <= x
  {
    m :| m in p;
    var q := p - {m};
    if q != {} {
      var k := FindMinimum(q);
      assert p == q + {m};
      m := if k <= m then k else m;
    } else {
      assert p == {m};
    }
  }

  lemma HasMinimum(p: set<nat>)
    requires p != {}
    ensures exists m :: m in p && forall x :: x in p ==> m <= x
  {
    var m := FindMinimum(p);
  }

  /** `Bitmap.Minimum`, which is defined on nonempty bitmaps only. */
  function Minimum(p: set<nat>): (m: nat)
    requires p != {}
    ensures m in p && forall x :: x in p ==> m <= x
  {
    HasMinimum(p);
    var m :| m in p && forall x :: x in p ==> m <= x;
    m
  }

  /** What is left once the run of numbers that begins at `i` is removed. */
  function WithoutRun(p: set<nat>, i: nat): set<nat>
    decreases |p|
  {
    if i in p then WithoutRun(p - {i}, (i + 1) % UINT32_RANGE) else p
  }

  /** An acknowledgement of an empty bitmap in client mode fails in the bitmap's own bounds check. */
  predicate AckTraps(info: SubsInfo) {
    info.ackMode == ACK_CLIENT && info.pending == {}
  }

  function AfterAck(info: SubsInfo, ackNum: nat): SubsInfo {
    if AckTraps(info) then info
    else if info.ackMode == ACK_CLIENT then info.(pending := WithoutRun(info.pending, Minimum(info.pending)))
    else if info.ackMode == ACK_INDIVIDUAL then info.(pending := info.pending - {ackNum})
    else info
  }

  /** The acknowledgement as `processAck` carries it out on one subscription. */
  method Acknowledge(info: SubsInfo, ackNum: nat) returns (trap: bool, after: SubsInfo)
    ensures trap == AckTraps(info) && after == AfterAck(info, ackNum)
  {
    var pending := info.pending;
    if info.ackMode == ACK_CLIENT {
      if pending == {} {
        return true, info;
      }
      var i: nat := Minimum(pending);
      while i in pending
        invariant WithoutRun(pending, i) == WithoutRun(info.pending, Minimum(info.pending))
        decreases |pending|
      {
        pending := pending - {i};
        i := (i + 1) % UINT32_RANGE;
      }
    } else if info.ackMode == ACK_INDIVIDUAL {
      pending := pending - {ackNum};
    }
    return false, info.(pending := pending);
  }

  // ---------- whole histories ----------

  /** What happens to a subscription after it is made. */
  datatype Event = Sent | Ack(ackNum: nat)

  function Apply(info: SubsInfo, e: Event): SubsInfo {
    match e
    case Sent => AfterSend(info)
    case Ack(n) => AfterAck(info, n)
  }

  function LedgerRun(session: string, ackMode: string, history: seq<Event>): SubsInfo {
    if history == [] then NewInfo(session, ackMode)
    else Apply(LedgerRun(session, ackMode, history[..|history| - 1]), history[|history| - 1])
  }

  function Sends(history: seq<Event>): nat {
    if history == [] then 0
    else Sends(history[..|history| - 1]) + if history[|history| - 1].Sent? then 1 else 0
  }

  /** Message `n` was acknowledged by its own number after it was sent. */
  ghost predicate AckedByNumber(history: seq<Event>, n: nat) {
    exists j :: 0 <= j < |history| && history[j] == Ack(n) && n < Sends(history[..j])
  }

  /** Some acknowledgement arrived after message `n` was sent. */
  ghost predicate AckedSince(history: seq<Event>, n: nat) {
    exists j :: 0 <= j < |history| && history[j].Ack? && n < Sends(history[..j])
  }

  /** The numbers that await acknowledgement, read off the history alone. */
  ghost predicate Outstanding(ackMode: string, history: seq<Event>, n: nat) {
    && n < Sends(history)
    && (ackMode == ACK_CLIENT ==> !AckedSince(history, n))
    && (ackMode == ACK_INDIVIDUAL ==> !AckedByNumber(history, n))
  }

  /** One more event: what it acknowledges. */
  lemma AckedStep(history: seq<Event>, n: nat)
    requires history != []
    ensures
      var (init, last) := (history[..|history| - 1], history[|history| - 1]);
      && (AckedByNumber(history, n) <==> AckedByNumber(init, n) || (last == Ack(n) && n < Sends(init)))
      && (AckedSince(history, n) <==> AckedSince(init, n) || (last.Ack? && n < Sends(init)))
  {
    hide Sends;
    var k := |history| - 1;
    var init := history[..k];
    assert forall j :: 0 <= j < k ==> init[j] == history[j] && init[..j] == history[..j];
    if j :| 0 <= j < |history| && history[j] == Ack(n) && n < Sends(history[..j]) {
      assert j < k ==> init[j] == Ack(n) && n < Sends(init[..j]);
    }
    if j :| 0 <= j < |history| && history[j].Ack? && n < Sends(history[..j]) {
      assert j < k ==> init[j].Ack? && n < Sends(init[..j]);
    }
  }

  lemma {:induction false} AckedWasSent(history: seq<Event>, n: nat)
    requires AckedByNumber(history, n) || AckedSince(history, n)
    ensures n < Sends(history)
  {
    AckedStep(history, n);
    var init := history[..|history| - 1];
    if AckedByNumber(init, n) || AckedSince(init, n) {
      AckedWasSent(init, n);
    }
  }

  ghost predicate IsInterval(p: set<nat>, lo: nat, hi: nat) {
    forall n :: n in p <==> lo <= n < hi
  }

  lemma {:induction false} WithoutInterval(p: set<nat>, lo: nat, hi: nat)
    requires lo <= hi < UINT32_RANGE && IsInterval(p, lo, hi)
    ensures WithoutRun(p, lo) == {}
    decreases hi - lo
  {
    if lo < hi {
      WithoutInterval(p - {lo}, lo + 1, hi);
    }
  }

  lemma IntervalMinimum(p: set<nat>, lo: nat, hi: nat)
    requires p != {} && IsInterval(p, lo, hi)
    ensures Minimum(p) == lo
  {
    var m := Minimum(p);
    assert lo in p;
  }

  /** Number of messages sent before the last acknowledgement. */
  function SentBeforeLastAck(history: seq<Event>): nat {
    if history == [] then 0
    else if history[|history| - 1].Ack? then Sends(history[..|history| - 1])
    else SentBeforeLastAck(history[..|history| - 1])
  }

  lemma {:induction false} AckedSinceBound(history: seq<Event>, n: nat)
    ensures AckedSince(history, n) <==> n < SentBeforeLastAck(history)
    ensures SentBeforeLastAck(history) <= Sends(history)
  {
    if history != [] {
      AckedStep(history, n);
      AckedSinceBound(history[..|history| - 1], n);
    }
  }

  /** Below 2^32 messages, the ledger holds exactly what the history says: messages are numbered
      0, 1, 2, ... in the order they are sent; in `auto` mode everything sent stays pending; in
      `client-individual` mode a number leaves when it is acknowledged after it was sent; in
      `client` mode every number leaves at the next acknowledgement. */
  lemma {:induction false} LedgerExact(session: string, ackMode: string, history: seq<Event>)
    requires Sends(history) < UINT32_RANGE
    ensures LedgerRun(session, ackMode, history).nextAckNum == Sends(history)
    ensures forall n :: n in LedgerRun(session, ackMode, history).pending <==> Outstanding(ackMode, history, n)
    ensures LedgerRun(session, ackMode, history).session == session
    ensures LedgerRun(session, ackMode, history).ackMode == ackMode
  {
    if history != [] {
      var k := |history| - 1;
      var init, last := history[..k], history[k];
      LedgerExact(session, ackMode, init);
      var before := LedgerRun(session, ackMode, init);
      if ackMode == ACK_CLIENT && last.Ack? {
        ClientInterval(session, init);
        if before.pending != {} {
          IntervalMinimum(before.pending, SentBeforeLastAck(init), Sends(init));
          WithoutInterval(before.pending, SentBeforeLastAck(init), Sends(init));
        }
      }
      forall n ensures n in LedgerRun(session, ackMode, history).pending <==> Outstanding(ackMode, history, n) {
        AckedStep(history, n);
        if AckedByNumber(init, n) || AckedSince(init, n) {
          AckedWasSent(init, n);
        }
      }
    }
  }

  /** In client mode the pending numbers are one interval that ends at the counter. */
  lemma ClientInterval(session: string, history: seq<Event>)
    requires forall n :: n in LedgerRun(session, ACK_CLIENT, history).pending <==> Outstanding(ACK_CLIENT, history, n)
    ensures IsInterval(LedgerRun(session, ACK_CLIENT, history).pending, SentBeforeLastAck(history), Sends(history))
    ensures SentBeforeLastAck(history) <= Sends(history)
  {
    forall n: nat ensures AckedSince(history, n) <==> n < SentBeforeLastAck(history) {
      AckedSinceBound(history, n);
    }
    AckedSinceBound(history, 0);
  }

  /** A client-mode acknowledgement leaves nothing pending, whatever number it carries. It is the
      cumulative acknowledgement of STOMP exactly when no pending number is above the one it names. */
  lemma ClientAck(session: string, history: seq<Event>, ackNum: nat)
    requires Sends(history) < UINT32_RANGE
    ensures var before := LedgerRun(session, ACK_CLIENT, history);
      var after := AfterAck(before, ackNum);
      && after.pending == {}
      && (after.pending == (set n | n in before.pending && n > ackNum) <==> forall n :: n in before.pending ==> n <= ackNum)
      && (before.pending != {} ==> Sends(history) > 0)
      && (before.pending != {} ==> ((forall n :: n in before.pending ==> n <= ackNum) <==> ackNum >= Sends(history) - 1))
  {
    LedgerExact(session, ACK_CLIENT, history);
    ClientInterval(session, history);
    var before := LedgerRun(session, ACK_CLIENT, history);
    if before.pending != {} {
      IntervalMinimum(before.pending, SentBeforeLastAck(history), Sends(history));
      WithoutInterval(before.pending, SentBeforeLastAck(history), Sends(history));
      assert Sends(history) - 1 in before.pending;
    }
    assert forall n :: n in before.pending && n > ackNum ==> n in (set n | n in before.pending && n > ackNum);
  }

  /** A client-mode acknowledgement traps exactly when nothing was sent since the last one. */
  lemma ClientAckTraps(session: string, history: seq<Event>)
    requires Sends(history) < UINT32_RANGE
    ensures AckTraps(LedgerRun(session, ACK_CLIENT, history)) <==> SentBeforeLastAck(history) == Sends(history)
  {
    LedgerExact(session, ACK_CLIENT, history);
    ClientInterval(session, history);
    if SentBeforeLastAck(history) < Sends(history) {
      assert SentBeforeLastAck(history) in LedgerRun(session, ACK_CLIENT, history).pending;
    }
  }

  // ---------- any number of messages ----------

  /** The counter is the number of messages, in 32 bits, after any history. */
  lemma {:induction false} CounterWraps(session: string, ackMode: string, history: seq<Event>)
    ensures LedgerRun(session, ackMode, history).nextAckNum == Sends(history) % UINT32_RANGE
  {
    if history != [] {
      CounterWraps(session, ackMode, history[..|history| - 1]);
    }
  }

  /** The number `k` steps above `i`, in 32 bits. */
  function Above(i: nat, k: nat): nat {
    (i + k) % UINT32_RANGE
  }

  /** Counting up from `i` reaches `n` after `k` steps and meets only members of the set. */
  predicate Reaches(p: set<nat>, i: nat, k: nat, n: nat) {
    n == Above(i, k) && forall j: nat :: j <= k ==> Above(i, j) in p
  }

  predicate In32(p: set<nat>) {
    forall n :: n in p ==> n < UINT32_RANGE
  }

  /** The removal loop takes out exactly the numbers that counting up reaches without a gap. */
  lemma {:induction false} WithoutRunExact(p: set<nat>, i: nat, n: nat)
    requires In32(p) && i < UINT32_RANGE
    ensures n in WithoutRun(p, i) <==> n in p && forall k: nat :: !Reaches(p, i, k, n)
    decreases |p|
  {
    hide Reaches;
    AtOnce(p, i);
    if i in p {
      WithoutRunExact(p - {i}, Above(i, 1), n);
      if k: nat :| Reaches(p - {i}, Above(i, 1), k, n) {
        FurtherOn(p, i, k, n);
      }
      if k: nat :| Reaches(p, i, k, n) && n != i {
        OneStepOn(p, i, k, n);
      }
    } else {
      forall k: nat ensures !Reaches(p, i, k, n) {
        NeverLeaves(p, i, k, n);
      }
    }
  }

  lemma AtOnce(p: set<nat>, i: nat)
    requires i < UINT32_RANGE
    ensures i in p ==> Reaches(p, i, 0, i)
  {
  }

  lemma NeverLeaves(p: set<nat>, i: nat, k: nat, n: nat)
    requires i < UINT32_RANGE && i !in p
    ensures !Reaches(p, i, k, n)
  {
    assert Above(i, 0) == i;
  }

  lemma Successor(i: nat, j: nat)
    ensures Above(Above(i, 1), j) == Above(i, j + 1)
  {
  }

  lemma FurtherOn(p: set<nat>, i: nat, k: nat, n: nat)
    requires i in p && i < UINT32_RANGE && Reaches(p - {i}, Above(i, 1), k, n)
    ensures Reaches(p, i, k + 1, n)
  {
    Successor(i, k);
    assert Above(i, 0) == i;
    forall j: nat | j <= k + 1 ensures Above(i, j) in p {
      if j > 0 {
        Successor(i, j - 1);
        hide Above;
        assert Above(Above(i, 1), j - 1) in p - {i};
      }
    }
  }

  lemma Distinct(i: nat, j: nat)
    requires i < UINT32_RANGE && 0 < j < UINT32_RANGE
    ensures Above(i, j) != i
  {
  }

  lemma Around(i: nat, k: nat)
    ensures Above(i, k % UINT32_RANGE) == Above(i, k)
  {
  }

  lemma OneStepOn(p: set<nat>, i: nat, k: nat, n: nat)
    requires i in p && i < UINT32_RANGE && Reaches(p, i, k, n) && n != i
    ensures exists m: nat, start :: start == Above(i, 1) && Reaches(p - {i}, start, m, n)
  {
    var start := Above(i, 1);
    var c := k % UINT32_RANGE;
    Around(i, k);
    assert Above(i, 0) == i && 0 < c <= k;
    forall j: nat | j <= c - 1 ensures Above(start, j) in p - {i} {
      Successor(i, j);
      Distinct(i, j + 1);
      hide Above;
      assert Above(i, j + 1) in p;
    }
    Successor(i, c - 1);
    assert Reaches(p - {i}, start, c - 1, n);
  }
}
