/**
 The broker's subscription index (subscribe.go): three maps that must mirror one another,
 as pure steps on their joint value.
 */
module Registry {
  import opened Sorting
  import opened AckToken
  import opened Ledger

  type Subs = map<string, SubsInfo>

  /** The package's three maps: destination to subscriptions, session to subscriptions,
      subscription to destination. */
  datatype Index = Index(destToSubs: map<string, Subs>, sessToSubs: map<string, set<string>>, subsToDest: map<string, string>)

  const EMPTY: Index := Index(map[], map[], map[])

  /** Normal return, error return, a Go runtime failure, or a call that never returns. */
  datatype Reply = Ok | Err | Trap | Hang

  datatype Result = Result(reply: Reply, index: Index)

  // ---------- what the maps say ----------

  predicate Under(r: Index, dest: string, id: string) {
    dest in r.destToSubs && id in r.destToSubs[dest]
  }

  predicate Listed(r: Index, sess: string, id: string) {
    sess in r.sessToSubs && id in r.sessToSubs[sess]
  }

  predicate Live(r: Index, id: string) {
    id in r.subsToDest && Under(r, r.subsToDest[id], id)
  }

  function Info(r: Index, id: string): SubsInfo
    requires Live(r, id)
  {
    r.destToSubs[r.subsToDest[id]][id]
  }

  /** A subscription is under a destination exactly when it maps to it. */
  ghost predicate Mirrored(r: Index) {
    forall d, id :: Under(r, d, id) <==> id in r.subsToDest && r.subsToDest[id] == d
  }

  /** A subscription is in the set of exactly the session it belongs to. */
  ghost predicate Owned(r: Index) {
    forall s, id :: Listed(r, s, id) <==> Live(r, id) && Info(r, id).session == s
  }

  /** The three maps agree, and no destination keeps an empty inner map. */
  ghost predicate Consistent(r: Index) {
    && "" !in r.subsToDest
    && Mirrored(r)
    && Owned(r)
    && (forall d :: d in r.destToSubs ==> r.destToSubs[d].Keys != {})
  }

  // ---------- subscribing ----------

  /** What `addSubscription` tests before it makes a fresh inner map: the code looks for the
      subscription, the comment on the map asks for the destination. */
  datatype Guard = Literal | ByDestination

  predicate KeepsInner(guard: Guard, r: Index, dest: string, id: string) {
    match guard
    case Literal => Under(r, dest, id)
    case ByDestination => dest in r.destToSubs
  }

  function Add(guard: Guard, r: Index, dest: string, id: string, ackMode: string, sess: string): Result {
    if id == "" || dest == "" then Result(Err, r)
    else
      var inner := if KeepsInner(guard, r, dest, id) then r.destToSubs[dest] else map[];
      var listed := if sess in r.sessToSubs then r.sessToSubs[sess] else {};
      Result(Ok, Index(r.destToSubs[dest := inner[id := NewInfo(sess, ackMode)]],
                       r.sessToSubs[sess := listed + {id}],
                       r.subsToDest[id := dest]))
  }

  /** The same subscription made again by its own session. */
  predicate Renewal(r: Index, dest: string, id: string, sess: string) {
    id in r.subsToDest && r.subsToDest[id] == dest && Under(r, dest, id) && r.destToSubs[dest][id].session == sess
  }

  /** When a subscription leaves the index consistent. */
  predicate AddFits(guard: Guard, r: Index, dest: string, id: string, sess: string) {
    || Renewal(r, dest, id, sess)
    || (id !in r.subsToDest && (guard == Literal ==> dest !in r.destToSubs))
  }

  /** What the maps say after a subscription, map by map. */
  lemma AddSays(guard: Guard, r: Index, dest: string, id: string, ackMode: string, sess: string)
    requires id != "" && dest != ""
    ensures
      var r' := Add(guard, r, dest, id, ackMode, sess).index;
      var kept := KeepsInner(guard, r, dest, id);
      && (forall d, x :: Under(r', d, x) <==> (d == dest && x == id) || (Under(r, d, x) && (d == dest ==> kept)))
      && Under(r', dest, id) && r'.destToSubs[dest][id] == NewInfo(sess, ackMode)
      && (forall d, x :: Under(r', d, x) && !(d == dest && x == id) ==> r'.destToSubs[d][x] == r.destToSubs[d][x])
      && (forall s, x :: Listed(r', s, x) <==> Listed(r, s, x) || (s == sess && x == id))
      && r'.subsToDest == r.subsToDest[id := dest]
      && r'.destToSubs.Keys == r.destToSubs.Keys + {dest}
      && (forall d :: d in r.destToSubs && d != dest ==> r'.destToSubs[d] == r.destToSubs[d])
  {
  }

  /** Subscribing is refused exactly without an id or a destination, and then changes nothing. */
  lemma AddReplies(guard: Guard, r: Index, dest: string, id: string, ackMode: string, sess: string)
    ensures Add(guard, r, dest, id, ackMode, sess).reply == Err <==> id == "" || dest == ""
    ensures Add(guard, r, dest, id, ackMode, sess).reply == Ok <==> id != "" && dest != ""
    ensures Add(guard, r, dest, id, ackMode, sess).reply == Err ==> Add(guard, r, dest, id, ackMode, sess).index == r
  {
  }

  lemma AddKeeps(guard: Guard, r: Index, dest: string, id: string, ackMode: string, sess: string)
    requires Consistent(r) && id != "" && dest != "" && AddFits(guard, r, dest, id, sess)
    ensures Consistent(Add(guard, r, dest, id, ackMode, sess).index)
  {
    AddSays(guard, r, dest, id, ackMode, sess);
    AddMirrored(guard, r, dest, id, ackMode, sess);
    AddOwned(guard, r, dest, id, ackMode, sess);
    var r' := Add(guard, r, dest, id, ackMode, sess).index;
    hide Add, Mirrored, Owned;
    assert forall d :: d in r'.destToSubs && d != dest ==> d in r.destToSubs;
    assert id in r'.destToSubs[dest];
  }

  lemma AddMirrored(guard: Guard, r: Index, dest: string, id: string, ackMode: string, sess: string)
    requires Consistent(r) && id != "" && dest != "" && AddFits(guard, r, dest, id, sess)
    ensures Mirrored(Add(guard, r, dest, id, ackMode, sess).index)
  {
    AddSays(guard, r, dest, id, ackMode, sess);
    var r' := Add(guard, r, dest, id, ackMode, sess).index;
    hide Add, Owned;
    assert Under(r, dest, id) <==> id in r.subsToDest && r.subsToDest[id] == dest;
    forall d, x ensures Under(r', d, x) <==> x in r'.subsToDest && r'.subsToDest[x] == d {
      assert Under(r, d, x) <==> x in r.subsToDest && r.subsToDest[x] == d;
    }
  }

  /** A subscription leaves every other one live or not, with its own ledger. */
  lemma AddLeavesOthers(guard: Guard, r: Index, dest: string, id: string, ackMode: string, sess: string, x: string)
    requires Consistent(r) && id != "" && dest != "" && AddFits(guard, r, dest, id, sess) && x != id
    ensures var r' := Add(guard, r, dest, id, ackMode, sess).index;
      && (Live(r', x) <==> Live(r, x))
      && (Live(r, x) ==> Info(r', x) == Info(r, x))
  {
    AddSays(guard, r, dest, id, ackMode, sess);
    hide Add, Owned;
    assert Under(r, dest, x) ==> dest in r.destToSubs;
  }

  lemma AddOwned(guard: Guard, r: Index, dest: string, id: string, ackMode: string, sess: string)
    requires Consistent(r) && id != "" && dest != "" && AddFits(guard, r, dest, id, sess)
    ensures Owned(Add(guard, r, dest, id, ackMode, sess).index)
  {
    var r' := Add(guard, r, dest, id, ackMode, sess).index;
    AddSays(guard, r, dest, id, ackMode, sess);
    assert Live(r, id) ==> Info(r, id).session == sess;
    hide Add, Mirrored, AddFits, KeepsInner;
    forall s, x ensures Listed(r', s, x) <==> Live(r', x) && Info(r', x).session == s {
      assert Listed(r, s, x) <==> Live(r, x) && Info(r, x).session == s;
      if x != id {
        AddLeavesOthers(guard, r, dest, id, ackMode, sess, x);
      }
    }
  }

  lemma AddBreaks(guard: Guard, r: Index, dest: string, id: string, ackMode: string, sess: string)
    requires Consistent(r) && id != "" && dest != "" && !AddFits(guard, r, dest, id, sess)
    ensures !Consistent(Add(guard, r, dest, id, ackMode, sess).index)
  {
    AddSays(guard, r, dest, id, ackMode, sess);
    var r' := Add(guard, r, dest, id, ackMode, sess).index;
    hide Add;
    if Under(r, dest, id) {
      var owner := r.destToSubs[dest][id].session;
      assert Listed(r, owner, id);
      assert Listed(r', owner, id) && Live(r', id) && Info(r', id).session == sess;
    } else if id in r.subsToDest {
      var d := r.subsToDest[id];
      assert Under(r, d, id);
      assert Under(r', d, id) && r'.subsToDest[id] != d;
    } else {
      var other :| other in r.destToSubs[dest];
      assert Under(r, dest, other);
      assert !Under(r', dest, other) && r'.subsToDest[other] == dest;
    }
  }

  /** Subscribing keeps a consistent index consistent exactly when it renews a subscription of
      the same session, or the id is new and, with the guard as written, the destination has no
      subscriber yet. */
  lemma AddExact(guard: Guard, r: Index, dest: string, id: string, ackMode: string, sess: string)
    requires Consistent(r) && id != "" && dest != ""
    ensures Consistent(Add(guard, r, dest, id, ackMode, sess).index) <==> AddFits(guard, r, dest, id, sess)
  {
    if AddFits(guard, r, dest, id, sess) {
      AddKeeps(guard, r, dest, id, ackMode, sess);
    } else {
      AddBreaks(guard, r, dest, id, ackMode, sess);
    }
  }

  /** The two guards act alike exactly when the destination is new or has the subscription already,
      or has an inner map with nothing in it to lose. */
  lemma GuardsAgree(r: Index, dest: string, id: string, ackMode: string, sess: string)
    requires id != "" && dest != ""
    ensures Add(Literal, r, dest, id, ackMode, sess) == Add(ByDestination, r, dest, id, ackMode, sess)
      <==> dest !in r.destToSubs || Under(r, dest, id) || r.destToSubs[dest].Keys == {}
  {
    var info := NewInfo(sess, ackMode);
    if dest in r.destToSubs && !Under(r, dest, id) {
      assert Add(Literal, r, dest, id, ackMode, sess).index.destToSubs[dest] == map[][id := info];
      assert Add(ByDestination, r, dest, id, ackMode, sess).index.destToSubs[dest] == r.destToSubs[dest][id := info];
      if other :| other in r.destToSubs[dest] {
        assert other in r.destToSubs[dest][id := info] && other !in map[][id := info];
      } else {
        assert r.destToSubs[dest] == map[];
      }
    }
  }

  // ---------- unsubscribing ----------

  function Remove(r: Index, id: string): Result {
    if id == "" || id !in r.subsToDest then Result(Err, r)
    else
      var dest := r.subsToDest[id];
      if dest !in r.destToSubs then Result(Err, r)
      else if id !in r.destToSubs[dest] then Result(Trap, r)
      else
        var sess := r.destToSubs[dest][id].session;
        if sess !in r.sessToSubs then Result(Trap, r)
        else
          var inner := r.destToSubs[dest] - {id};
          Result(Ok, Index(if inner.Keys == {} then r.destToSubs - {dest} else r.destToSubs[dest := inner],
                           r.sessToSubs[sess := r.sessToSubs[sess] - {id}],
                           r.subsToDest - {id}))
  }

  /** The destination and the session that a subscription is recorded under. */
  predicate RecordedAt(r: Index, id: string, dest: string, sess: string) {
    && id != "" && id in r.subsToDest && r.subsToDest[id] == dest
    && Under(r, dest, id) && r.destToSubs[dest][id].session == sess && sess in r.sessToSubs
  }

  /** In any index: what unsubscribing answers. A failed one changes nothing. */
  lemma RemoveReplies(r: Index, id: string)
    ensures Remove(r, id).reply == Ok <==> exists dest, sess :: RecordedAt(r, id, dest, sess)
    ensures Remove(r, id).reply == Err <==> id == "" || id !in r.subsToDest || r.subsToDest[id] !in r.destToSubs
    ensures Remove(r, id).reply in {Ok, Err, Trap}
    ensures Remove(r, id).reply != Ok ==> Remove(r, id).index == r
  {
    if Remove(r, id).reply == Ok {
      var dest := r.subsToDest[id];
      assert RecordedAt(r, id, dest, r.destToSubs[dest][id].session);
    }
  }

  /** In any index: what the maps say after unsubscribing. */
  lemma RemoveSays(r: Index, id: string, dest: string, sess: string)
    requires RecordedAt(r, id, dest, sess)
    ensures
      var r' := Remove(r, id).index;
      && (forall d, x :: Under(r', d, x) <==> Under(r, d, x) && !(d == dest && x == id))
      && (forall d, x :: Under(r', d, x) ==> r'.destToSubs[d][x] == r.destToSubs[d][x])
      && (forall s, x :: Listed(r', s, x) <==> Listed(r, s, x) && !(s == sess && x == id))
      && r'.sessToSubs.Keys == r.sessToSubs.Keys
      && r'.subsToDest == r.subsToDest - {id}
      && (dest in r'.destToSubs <==> exists x :: Under(r, dest, x) && x != id)
      && (forall d :: d != dest ==> (d in r'.destToSubs <==> d in r.destToSubs))
  {
    var inner := r.destToSubs[dest] - {id};
    if x :| x in inner {
      assert Under(r, dest, x);
    }
    assert forall x :: Under(r, dest, x) && x != id ==> x in inner;
  }

  /** The index without some subscriptions. */
  function Without(r: Index, ids: set<string>): Index {
    Index(map d | d in r.destToSubs && r.destToSubs[d].Keys - ids != {} :: r.destToSubs[d] - ids,
          map s | s in r.sessToSubs :: r.sessToSubs[s] - ids,
          r.subsToDest - ids)
  }

  /** What a reduced index still says. */
  lemma WithoutSays(r: Index, ids: set<string>)
    ensures forall d, id :: Under(Without(r, ids), d, id) <==> Under(r, d, id) && id !in ids
    ensures forall d, id :: Under(Without(r, ids), d, id) ==> Without(r, ids).destToSubs[d][id] == r.destToSubs[d][id]
    ensures forall s, id :: Listed(Without(r, ids), s, id) <==> Listed(r, s, id) && id !in ids
    ensures forall id :: id in Without(r, ids).subsToDest <==> id in r.subsToDest && id !in ids
    ensures forall id :: id in Without(r, ids).subsToDest ==> Without(r, ids).subsToDest[id] == r.subsToDest[id]
    ensures forall d :: d in Without(r, ids).destToSubs ==> Without(r, ids).destToSubs[d].Keys != {}
  {
    var w := Without(r, ids);
    forall d, id ensures Under(w, d, id) <==> Under(r, d, id) && id !in ids {
      if Under(r, d, id) && id !in ids {
        assert id in r.destToSubs[d] - ids;
      }
    }
  }

  lemma WithoutConsistent(r: Index, ids: set<string>)
    requires Consistent(r)
    ensures Consistent(Without(r, ids))
  {
    WithoutSays(r, ids);
    var w := Without(r, ids);
    hide Without;
    forall d, id ensures Under(w, d, id) <==> id in w.subsToDest && w.subsToDest[id] == d {
      assert Under(r, d, id) <==> id in r.subsToDest && r.subsToDest[id] == d;
    }
    forall s, id ensures Listed(w, s, id) <==> Live(w, id) && Info(w, id).session == s {
      assert Listed(r, s, id) <==> Live(r, id) && Info(r, id).session == s;
    }
  }

  /** In a consistent index, removing a live subscription succeeds, and takes it and nothing
      else out of all three maps. */
  lemma RemoveExact(r: Index, id: string)
    requires Consistent(r)
    ensures Remove(r, id).reply == if id in r.subsToDest then Ok else Err
    ensures id in r.subsToDest ==> Remove(r, id).index == Without(r, {id})
  {
    if id in r.subsToDest {
      var dest := r.subsToDest[id];
      assert Under(r, dest, id);
      var sess := r.destToSubs[dest][id].session;
      assert Listed(r, sess, id);
      RemoveIsWithout(r, id, dest, sess);
    }
  }

  lemma RemoveIsWithout(r: Index, id: string, dest: string, sess: string)
    requires Consistent(r) && id != "" && id in r.subsToDest && r.subsToDest[id] == dest
    requires Under(r, dest, id) && r.destToSubs[dest][id].session == sess && Listed(r, sess, id)
    ensures Remove(r, id) == Result(Ok, Without(r, {id}))
  {
    var r', w := Remove(r, id).index, Without(r, {id});
    forall d | d in r.destToSubs && d != dest ensures r.destToSubs[d] - {id} == r.destToSubs[d] {
      assert Under(r, d, id) <==> d == dest;
    }
    forall s | s in r.sessToSubs && s != sess ensures r.sessToSubs[s] - {id} == r.sessToSubs[s] {
      assert Listed(r, s, id) <==> Live(r, id) && Info(r, id).session == s;
    }
    assert (r.destToSubs[dest] - {id}).Keys == r.destToSubs[dest].Keys - {id};
    assert r'.destToSubs == w.destToSubs;
    assert r'.sessToSubs == w.sessToSubs;
  }

  /** Unsubscribing undoes a fresh subscription, up to an empty set left for the session. */
  lemma RemoveUndoesAdd(guard: Guard, r: Index, dest: string, id: string, ackMode: string, sess: string)
    requires Consistent(r) && id != "" && dest != "" && id !in r.subsToDest
    requires guard == Literal ==> dest !in r.destToSubs
    ensures Remove(Add(guard, r, dest, id, ackMode, sess).index, id)
         == Result(Ok, r.(sessToSubs := r.sessToSubs[sess := if sess in r.sessToSubs then r.sessToSubs[sess] else {}]))
  {
    var info := NewInfo(sess, ackMode);
    var inner := if KeepsInner(guard, r, dest, id) then r.destToSubs[dest] else map[];
    var listed := if sess in r.sessToSubs then r.sessToSubs[sess] else {};
    assert !Under(r, dest, id) && !Listed(r, sess, id);
    assert (inner[id := info] - {id}) == inner && listed + {id} - {id} == listed;
    assert r.subsToDest[id := dest] - {id} == r.subsToDest;
    assert r.sessToSubs[sess := listed + {id}][sess := listed] == r.sessToSubs[sess := listed];
    if dest in r.destToSubs {
      assert r.destToSubs[dest := inner[id := info]][dest := inner] == r.destToSubs;
    } else {
      assert r.destToSubs[dest := inner[id := info]] - {dest} == r.destToSubs;
    }
  }

  // ---------- session cleanup ----------

  /** Removes subscriptions in the order given, up to the first that fails. */
  function RemoveAll(r: Index, order: seq<string>): Result
    decreases |order|
  {
    if order == [] then Result(Ok, r)
    else
      var first := Remove(r, order[0]);
      if first.reply != Ok then first else RemoveAll(first.index, order[1..])
  }

  /** Removal goes on exactly as long as nothing fails. */
  lemma {:induction false} RemoveAllConcat(r: Index, a: seq<string>, b: seq<string>)
    ensures RemoveAll(r, a + b) == if RemoveAll(r, a).reply == Ok then RemoveAll(RemoveAll(r, a).index, b) else RemoveAll(r, a)
    decreases |a|
  {
    hide Remove;
    if a == [] {
      assert a + b == b;
    } else {
      assert (a + b)[0] == a[0] && (a + b)[1..] == a[1..] + b;
      RemoveAllConcat(Remove(r, a[0]).index, a[1..], b);
    }
  }

  /** `cleanupSubscriptions`, given the order in which the session's set is listed. */
  function Cleanup(r: Index, sess: string, order: seq<string>): Result {
    if sess !in r.sessToSubs then Result(Ok, r)
    else
      var all := RemoveAll(r, order);
      if all.reply != Ok then all else Result(Ok, all.index.(sessToSubs := all.index.sessToSubs - {sess}))
  }

  lemma {:induction false} RemoveAllKeepsSets(r: Index, order: seq<string>)
    ensures RemoveAll(r, order).index.sessToSubs.Keys == r.sessToSubs.Keys
    decreases |order|
  {
    if order != [] && Remove(r, order[0]).reply == Ok {
      RemoveAllKeepsSets(Remove(r, order[0]).index, order[1..]);
    }
  }

  /** In any index, a cleanup drops the session's set exactly when all its removals succeed, and
      otherwise stops where the first one failed. */
  lemma CleanupDropsSet(r: Index, sess: string, order: seq<string>)
    ensures sess !in Cleanup(r, sess, order).index.sessToSubs <==> Cleanup(r, sess, order).reply == Ok
    ensures Cleanup(r, sess, order).reply == Ok <==> sess !in r.sessToSubs || RemoveAll(r, order).reply == Ok
    ensures Cleanup(r, sess, order).reply != Ok ==> Cleanup(r, sess, order) == RemoveAll(r, order)
  {
    hide Remove;
    RemoveAllKeepsSets(r, order);
  }

  lemma WithoutTwice(r: Index, a: set<string>, b: set<string>)
    ensures Without(Without(r, a), b) == Without(r, a + b)
  {
    var two, one := Without(Without(r, a), b), Without(r, a + b);
    forall d | d in r.destToSubs
      ensures r.destToSubs[d] - a - b == r.destToSubs[d] - (a + b)
      ensures d in two.destToSubs <==> d in one.destToSubs
    {
      SubsTwice(r.destToSubs[d], a, b);
    }
    assert two.destToSubs == one.destToSubs;
    assert forall s :: s in r.sessToSubs ==> r.sessToSubs[s] - a - b == r.sessToSubs[s] - (a + b);
    assert two.sessToSubs == one.sessToSubs;
    assert two.subsToDest == one.subsToDest;
  }

  lemma SubsTwice(m: Subs, a: set<string>, b: set<string>)
    ensures m - a - b == m - (a + b)
    ensures (m - a).Keys - b == m.Keys - (a + b)
  {
  }

  lemma WithoutNothing(r: Index)
    requires Consistent(r)
    ensures Without(r, {}) == r
  {
    forall d | d in r.destToSubs ensures r.destToSubs[d] - {} == r.destToSubs[d] && r.destToSubs[d].Keys - {} != {} {
      assert r.destToSubs[d].Keys - {} == r.destToSubs[d].Keys;
    }
    assert Without(r, {}).destToSubs == r.destToSubs;
    assert forall s :: s in r.sessToSubs ==> r.sessToSubs[s] - {} == r.sessToSubs[s];
    assert Without(r, {}).sessToSubs == r.sessToSubs;
    assert Without(r, {}).subsToDest == r.subsToDest;
  }

  /** Removing live subscriptions one by one never fails, and the order does not matter. */
  lemma {:induction false} RemoveAllExact(r: Index, order: seq<string>, ids: set<string>)
    requires Consistent(r) && Lists(order, ids) && ids <= r.subsToDest.Keys
    ensures RemoveAll(r, order) == Result(Ok, Without(r, ids))
    decreases |order|
  {
    hide Remove, Without, Consistent;
    if order == [] {
      WithoutNothing(r);
    } else {
      var id := order[0];
      RemoveExact(r, id);
      WithoutSays(r, {id});
      WithoutConsistent(r, {id});
      RemoveAllExact(Without(r, {id}), order[1..], ids - {id});
      WithoutTwice(r, {id}, ids - {id});
      assert {id} + (ids - {id}) == ids;
    }
  }

  /** In a consistent index, cleaning up a session succeeds whatever the order of its set, and
      keeps the index consistent. Exactly the session's subscriptions disappear, from all three
      maps; the others keep their ledgers, and the other sessions their sets. */
  lemma CleanupExact(r: Index, sess: string, order: seq<string>)
    requires Consistent(r)
    requires sess in r.sessToSubs ==> Lists(order, r.sessToSubs[sess])
    ensures
      var Result(reply, r') := Cleanup(r, sess, order);
      && reply == Ok
      && Consistent(r')
      && sess !in r'.sessToSubs
      && (forall d, id :: Under(r', d, id) <==> Under(r, d, id) && r.destToSubs[d][id].session != sess)
      && (forall d, id :: Under(r', d, id) ==> r'.destToSubs[d][id] == r.destToSubs[d][id])
      && (forall id :: id in r'.subsToDest <==> Live(r, id) && Info(r, id).session != sess)
      && (forall id :: id in r'.subsToDest ==> r'.subsToDest[id] == r.subsToDest[id])
      && (forall s :: s in r'.sessToSubs <==> s in r.sessToSubs && s != sess)
      && (forall s :: s in r'.sessToSubs ==> r'.sessToSubs[s] == r.sessToSubs[s])
  {
    if sess in r.sessToSubs {
      var ids := r.sessToSubs[sess];
      assert forall id :: id in ids ==> Listed(r, sess, id) && Live(r, id);
      RemoveAllExact(r, order, ids);
      CleanupSays(r, sess);
    } else {
      assert forall d, id :: Under(r, d, id) ==> Live(r, id) && Listed(r, r.destToSubs[d][id].session, id);
    }
  }

  lemma CleanupSays(r: Index, sess: string)
    requires Consistent(r) && sess in r.sessToSubs
    ensures
      var w := Without(r, r.sessToSubs[sess]);
      var r' := w.(sessToSubs := w.sessToSubs - {sess});
      && Consistent(r')
      && (forall d, id :: Under(r', d, id) <==> Under(r, d, id) && r.destToSubs[d][id].session != sess)
      && (forall d, id :: Under(r', d, id) ==> r'.destToSubs[d][id] == r.destToSubs[d][id])
      && (forall id :: id in r'.subsToDest <==> Live(r, id) && Info(r, id).session != sess)
      && (forall id :: id in r'.subsToDest ==> r'.subsToDest[id] == r.subsToDest[id])
      && (forall s :: s in r'.sessToSubs <==> s in r.sessToSubs && s != sess)
      && (forall s :: s in r'.sessToSubs ==> r'.sessToSubs[s] == r.sessToSubs[s])
  {
    var ids := r.sessToSubs[sess];
    var w := Without(r, ids);
    var r' := w.(sessToSubs := w.sessToSubs - {sess});
    WithoutSays(r, ids);
    WithoutConsistent(r, ids);
    assert forall s :: s in w.sessToSubs <==> s in r.sessToSubs;
    forall s | s in r.sessToSubs && s != sess ensures w.sessToSubs[s] == r.sessToSubs[s] {
      OtherSet(r, s, sess);
    }
    assert w.sessToSubs[sess] == {};
    DropSession(w, sess);
    hide Without;
    forall d, id ensures Under(r', d, id) <==> Under(r, d, id) && r.destToSubs[d][id].session != sess {
      assert Under(r, d, id) ==> Live(r, id) && (Listed(r, sess, id) <==> Info(r, id).session == sess);
    }
    forall id ensures id in r'.subsToDest <==> Live(r, id) && Info(r, id).session != sess {
      assert id in r.subsToDest ==> Under(r, r.subsToDest[id], id);
      assert Listed(r, sess, id) <==> Live(r, id) && Info(r, id).session == sess;
    }
  }

  /** A session without subscriptions can be dropped. */
  lemma DropSession(w: Index, sess: string)
    requires Consistent(w) && sess in w.sessToSubs && w.sessToSubs[sess] == {}
    ensures Consistent(w.(sessToSubs := w.sessToSubs - {sess}))
  {
    var r' := w.(sessToSubs := w.sessToSubs - {sess});
    forall d, id ensures Under(r', d, id) <==> id in r'.subsToDest && r'.subsToDest[id] == d {
      assert Under(w, d, id) <==> id in w.subsToDest && w.subsToDest[id] == d;
    }
    forall s, id ensures Listed(r', s, id) <==> Live(r', id) && Info(r', id).session == s {
      assert Listed(w, s, id) <==> Live(w, id) && Info(w, id).session == s;
    }
  }

  lemma OtherSet(r: Index, s: string, sess: string)
    requires Consistent(r) && s in r.sessToSubs && sess in r.sessToSubs && s != sess
    ensures r.sessToSubs[s] - r.sessToSubs[sess] == r.sessToSubs[s]
  {
    forall id | id in r.sessToSubs[s] ensures id !in r.sessToSubs[sess] {
      assert Listed(r, s, id);
      assert Listed(r, sess, id) <==> Live(r, id) && Info(r, id).session == sess;
    }
  }

  // ---------- publishing ----------

  /** Every subscriber of a destination after a message, where `fails` are those whose send fails. */
  function Advance(subs: Subs, fails: set<string>): Subs {
    map id | id in subs :: if id in fails then subs[id] else AfterSend(subs[id])
  }

  /** `publish`. A failed send never reports back, so the call waits for it forever. */
  function PublishTo(r: Index, dest: string, fails: set<string>): Result {
    if dest == "" then Result(Err, r)
    else if dest !in r.destToSubs then Result(Ok, r)
    else Result(if r.destToSubs[dest].Keys !! fails then Ok else Hang,
                r.(destToSubs := r.destToSubs[dest := Advance(r.destToSubs[dest], fails)]))
  }

  /** A MESSAGE sent: to which session and subscription, under which number. */
  datatype Delivery = Delivery(session: string, subsID: string, ackNum: nat)

  /** The messages of one publication, with the subscribers taken in the order given. */
  function Deliveries(subs: Subs, order: seq<string>, fails: set<string>): seq<Delivery>
    requires forall id :: id in order ==> id in subs
  {
    if order == [] then []
    else
      var id := order[0];
      (if id in fails then [] else [Delivery(subs[id].session, id, subs[id].nextAckNum)])
      + Deliveries(subs, order[1..], fails)
  }

  function Receivers(ds: seq<Delivery>): seq<string> {
    if ds == [] then [] else [ds[0].subsID] + Receivers(ds[1..])
  }

  /** Whatever the order, each subscriber whose send succeeds gets exactly one message, under its
      own next number and through its own session, and nobody else gets any. */
  lemma {:induction false} FanOut(subs: Subs, order: seq<string>, ids: set<string>, fails: set<string>)
    requires Lists(order, ids) && ids <= subs.Keys
    requires forall id :: id in order ==> id in subs
    ensures Lists(Receivers(Deliveries(subs, order, fails)), ids - fails)
    ensures forall d :: d in Deliveries(subs, order, fails) ==>
      d.subsID in subs && d.session == subs[d.subsID].session && d.ackNum == subs[d.subsID].nextAckNum
    decreases |order|
  {
    if order == [] {
      assert ids - fails == {};
    } else {
      var id := order[0];
      FanOut(subs, order[1..], ids - {id}, fails);
      var rest := Deliveries(subs, order[1..], fails);
      if id in fails {
        assert [] + rest == rest && ids - {id} - fails == ids - fails;
      } else {
        var d := Delivery(subs[id].session, id, subs[id].nextAckNum);
        assert ([d] + rest)[1..] == rest;
        assert Receivers([d] + rest)[1..] == Receivers(rest);
        assert ids - fails - {id} == ids - {id} - fails;
      }
    }
  }

  function Reached(info: SubsInfo, reached: bool): SubsInfo {
    if reached then AfterSend(info) else info
  }

  /** A publication moves the counters of exactly the reached subscribers by one (modulo 2^32)
      and marks the numbers they were sent as pending; it touches nothing else. */
  lemma PublishExact(r: Index, dest: string, fails: set<string>)
    ensures var r' := PublishTo(r, dest, fails).index;
      && r'.sessToSubs == r.sessToSubs && r'.subsToDest == r.subsToDest
      && r'.destToSubs.Keys == r.destToSubs.Keys
      && (forall d, id :: Under(r', d, id) <==> Under(r, d, id))
      && (forall d, id :: Under(r, d, id) ==> r'.destToSubs[d][id] == Reached(r.destToSubs[d][id], d == dest && d != "" && id !in fails))
    ensures Consistent(r) ==> Consistent(PublishTo(r, dest, fails).index)
  {
    SameShape(r, PublishTo(r, dest, fails).index);
  }

  /** Some subscriber of a destination refuses a message. */
  ghost predicate Refused(r: Index, dest: string, fails: set<string>) {
    exists id :: Under(r, dest, id) && id in fails
  }

  /** What publishing answers: an error exactly without a destination, and nothing, ever, exactly
      when a subscriber refuses. */
  lemma PublishReplies(r: Index, dest: string, fails: set<string>)
    ensures PublishTo(r, dest, fails).reply ==
      if dest == "" then Err else if Refused(r, dest, fails) then Hang else Ok
  {
    if dest in r.destToSubs {
      assert forall id :: id in r.destToSubs[dest].Keys <==> Under(r, dest, id);
    }
  }

  /** Indexes with the same keys and owners are consistent together. */
  lemma SameShape(r: Index, r': Index)
    requires r'.sessToSubs == r.sessToSubs && r'.subsToDest == r.subsToDest
    requires r'.destToSubs.Keys == r.destToSubs.Keys
    requires forall d :: d in r.destToSubs ==> r'.destToSubs[d].Keys == r.destToSubs[d].Keys
    requires forall d, id :: Under(r, d, id) && Under(r', d, id) ==> r'.destToSubs[d][id].session == r.destToSubs[d][id].session
    ensures Consistent(r) ==> Consistent(r')
  {
    assert forall d, id :: Under(r', d, id) <==> Under(r, d, id);
    if Consistent(r) {
      forall s, id ensures Listed(r', s, id) <==> Live(r', id) && Info(r', id).session == s {
        assert Listed(r, s, id) <==> Live(r, id) && Info(r, id).session == s;
      }
    }
  }

  // ---------- acknowledging ----------

  /** `processAck` */
  function ProcessAck(r: Index, ackVal: string): Result {
    match ScanAckNum(ackVal)
    case TooFewParts => Result(Trap, r)
    case BadNumber => Result(Err, r)
    case Scanned(dest, id, n) =>
      if !Under(r, dest, id) then Result(Err, r)
      else
        var info := r.destToSubs[dest][id];
        Result(if AckTraps(info) then Trap else Ok,
               r.(destToSubs := r.destToSubs[dest := r.destToSubs[dest][id := AfterAck(info, n)]]))
  }

  function Acknowledged(info: SubsInfo, scan: AckScan, dest: string, id: string): SubsInfo {
    if scan.Scanned? && scan.dest == dest && scan.subsID == id then AfterAck(info, scan.ackNum) else info
  }

  lemma AfterAckKeepsOwner()
    ensures forall info, n :: AfterAck(info, n).session == info.session
  {
  }

  /** An acknowledgement changes the ledger it names and nothing else. */
  lemma AckExact(r: Index, ackVal: string)
    ensures var r' := ProcessAck(r, ackVal).index;
      var scan := ScanAckNum(ackVal);
      && r'.sessToSubs == r.sessToSubs && r'.subsToDest == r.subsToDest
      && r'.destToSubs.Keys == r.destToSubs.Keys
      && (forall d, id :: Under(r', d, id) <==> Under(r, d, id))
      && (forall d, id :: Under(r, d, id) ==> r'.destToSubs[d][id] == Acknowledged(r.destToSubs[d][id], scan, d, id))
    ensures Consistent(r) ==> Consistent(ProcessAck(r, ackVal).index)
  {
    hide ScanAckNum, AfterAck, AckTraps;
    AfterAckKeepsOwner();
    SameShape(r, ProcessAck(r, ackVal).index);
  }

  /** What an acknowledgement answers: it is accepted exactly when its token names a live
      subscription whose ledger can take it. */
  lemma AckReplies(r: Index, ackVal: string)
    ensures
      var scan, reply := ScanAckNum(ackVal), ProcessAck(r, ackVal).reply;
      var found := scan.Scanned? && Under(r, scan.dest, scan.subsID);
      && (reply == Ok <==> found && !AckTraps(r.destToSubs[scan.dest][scan.subsID]))
      && (reply == Trap <==> scan.TooFewParts? || (found && AckTraps(r.destToSubs[scan.dest][scan.subsID])))
      && (reply == Err <==> !scan.TooFewParts? && !found)
  {
    hide ScanAckNum, AckTraps, AfterAck;
  }
}
