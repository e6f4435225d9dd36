/** `sort.Strings` and the byte-wise order it sorts by. */
module Sorting {

  predicate LexLe(a: string, b: string) {
    a == "" || (b != "" && (a[0] < b[0] || (a[0] == b[0] && LexLe(a[1..], b[1..]))))
  }

  /** The first difference decides, and a prefix comes first. */
  lemma {:induction false} LexExact(a: string, b: string)
    ensures LexLe(a, b) <==> a <= b || exists i :: 0 <= i < |a| && i < |b| && a[..i] == b[..i] && a[i] < b[i]
  {
    if a != "" && b != "" {
      if a[0] == b[0] {
        LexExact(a[1..], b[1..]);
        assert a == [a[0]] + a[1..] && b == [b[0]] + b[1..];
        if i :| 0 <= i < |a| - 1 && i < |b| - 1 && a[1..][..i] == b[1..][..i] && a[1..][i] < b[1..][i] {
          assert a[..i + 1] == [a[0]] + a[1..][..i] && b[..i + 1] == [b[0]] + b[1..][..i];
          assert a[i + 1] < b[i + 1];
        }
        if i :| 0 <= i < |a| && i < |b| && a[..i] == b[..i] && a[i] < b[i] {
          assert i > 0 && a[1..][..i - 1] == a[..i][1..] && b[1..][..i - 1] == b[..i][1..];
          assert a[1..][i - 1] < b[1..][i - 1];
        }
      } else {
        assert a[0] < b[0] ==> a[..0] == b[..0];
        DifferAt(a, b);
      }
    }
  }

  lemma DifferAt(a: string, b: string)
    requires a != "" && b != "" && a[0] != b[0]
    ensures !(a <= b) && forall i :: 0 < i < |a| && i < |b| ==> a[..i] != b[..i]
  {
    forall i | 0 < i < |a| && i < |b| ensures a[..i] != b[..i] {
      assert a[..i][0] != b[..i][0];
    }
  }

  lemma {:induction false} LexTotal(a: string, b: string)
    ensures LexLe(a, b) || LexLe(b, a)
  {
    if a != "" && b != "" && a[0] == b[0] {
      LexTotal(a[1..], b[1..]);
    }
  }

  lemma {:induction false} LexAntisymmetric(a: string, b: string)
    requires LexLe(a, b) && LexLe(b, a)
    ensures a == b
  {
    if a != "" {
      LexAntisymmetric(a[1..], b[1..]);
      assert a == [a[0]] + a[1..] && b == [b[0]] + b[1..];
    }
  }

  lemma {:induction false} LexTransitive(a: string, b: string, c: string)
    requires LexLe(a, b) && LexLe(b, c)
    ensures LexLe(a, c)
  {
    if a != "" && a[0] == b[0] && b[0] == c[0] {
      LexTransitive(a[1..], b[1..], c[1..]);
    }
  }

  predicate AllAtLeast(x: string, s: seq<string>) {
    forall y :: y in s ==> LexLe(x, y)
  }

  predicate Sorted(s: seq<string>) {
    s == [] || (AllAtLeast(s[0], s[1..]) && Sorted(s[1..]))
  }

  /** The sequence names every element of the set once, in some order. */
  predicate Lists(order: seq<string>, keys: set<string>) {
    if order == [] then keys == {}
    else order[0] in keys && Lists(order[1..], keys - {order[0]})
  }

  lemma {:induction false} ListsMembers(order: seq<string>, keys: set<string>)
    requires Lists(order, keys)
    ensures forall k :: k in order <==> k in keys
    ensures |order| == |keys|
  {
    if order != [] {
      ListsMembers(order[1..], keys - {order[0]});
      assert order == [order[0]] + order[1..];
    }
  }

  /** Appending a new element to a listing. */
  lemma {:induction false} ListsSnoc(order: seq<string>, keys: set<string>, k: string)
    requires Lists(order, keys) && k !in keys
    ensures Lists(order + [k], keys + {k})
  {
    if order == [] {
      assert Lists([], {k} - {k});
    } else {
      ListsSnoc(order[1..], keys - {order[0]}, k);
      assert (order + [k])[1..] == order[1..] + [k];
      assert keys + {k} - {order[0]} == keys - {order[0]} + {k};
    }
  }

  function Insert(x: string, s: seq<string>): (r: seq<string>)
    ensures forall y :: y in r <==> y == x || y in s
  {
    if s == [] || LexLe(x, s[0]) then [x] + s
    else
      assert s == [s[0]] + s[1..];
      [s[0]] + Insert(x, s[1..])
  }

  lemma {:induction false} InsertSorted(x: string, s: seq<string>)
    requires Sorted(s)
    ensures Sorted(Insert(x, s))
  {
    if s == [] {
    } else if LexLe(x, s[0]) {
      forall y | y in s ensures LexLe(x, y) {
        if y in s[1..] {
          LexTransitive(x, s[0], y);
        }
      }
    } else {
      InsertSorted(x, s[1..]);
      LexTotal(x, s[0]);
    }
  }

  lemma {:induction false} InsertLists(x: string, s: seq<string>, keys: set<string>)
    requires Lists(s, keys) && x !in keys
    ensures Lists(Insert(x, s), keys + {x})
  {
    if s == [] || LexLe(x, s[0]) {
      assert keys + {x} - {x} == keys;
    } else {
      InsertLists(x, s[1..], keys - {s[0]});
      assert keys + {x} - {s[0]} == keys - {s[0]} + {x};
    }
  }

  /** `sort.Strings` */
  function SortStrings(s: seq<string>): seq<string> {
    if s == [] then [] else Insert(s[0], SortStrings(s[1..]))
  }

  /** Sorting returns an increasing sequence of the same elements. */
  lemma {:induction false} SortStringsSorts(s: seq<string>, keys: set<string>)
    requires Lists(s, keys)
    ensures Sorted(SortStrings(s)) && Lists(SortStrings(s), keys)
  {
    if s != [] {
      SortStringsSorts(s[1..], keys - {s[0]});
      InsertSorted(s[0], SortStrings(s[1..]));
      InsertLists(s[0], SortStrings(s[1..]), keys - {s[0]});
      assert keys - {s[0]} + {s[0]} == keys;
    }
  }

  /** An increasing listing of a set is unique. */
  lemma {:induction false} SortedUnique(a: seq<string>, b: seq<string>, keys: set<string>)
    requires Sorted(a) && Sorted(b) && Lists(a, keys) && Lists(b, keys)
    ensures a == b
  {
    ListsMembers(a, keys);
    ListsMembers(b, keys);
    if a != [] {
      assert a == [a[0]] + a[1..] && b == [b[0]] + b[1..];
      assert a[0] in b && b[0] in a;
      LexTotal(a[0], a[0]);
      LexAntisymmetric(a[0], b[0]);
      SortedUnique(a[1..], b[1..], keys - {a[0]});
    }
  }

  /** Ranges over a set, as Go ranges over a map: in whatever order it comes. */
  method ListKeys(keys: set<string>) returns (order: seq<string>)
    ensures Lists(order, keys)
  {
    order := [];
    var todo := keys;
    while todo != {}
      invariant todo <= keys
      invariant Lists(order, keys - todo)
      decreases todo
    {
      var k :| k in todo;
      ListsSnoc(order, keys - todo, k);
      assert keys - (todo - {k}) == keys - todo + {k};
      order, todo := order + [k], todo - {k};
    }
    assert keys - todo == keys;
  }

  ghost function SomeListing(keys: set<string>): (order: seq<string>)
    ensures Lists(order, keys)
  {
    if keys == {} then []
    else
      var k :| k in keys;
      [k] + SomeListing(keys - {k})
  }

  /** The keys in increasing order. */
  ghost function SortedKeys(keys: set<string>): (r: seq<string>)
    ensures Lists(r, keys) && Sorted(r)
    ensures forall k :: k in r <==> k in keys
  {
    SortStringsSorts(SomeListing(keys), keys);
    ListsMembers(SortStrings(SomeListing(keys)), keys);
    SortStrings(SomeListing(keys))
  }

  /** Sorting forgets the order in which the keys were collected. */
  lemma CanonicalOrder(order: seq<string>, keys: set<string>)
    requires Lists(order, keys)
    ensures SortStrings(order) == SortedKeys(keys)
  {
    SortStringsSorts(order, keys);
    SortedUnique(SortStrings(order), SortedKeys(keys), keys);
  }
}
