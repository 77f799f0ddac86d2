/** The visiting order `big.Entries.OrderBy(e => e.Offset)` (Program.cs line
    142). LINQ's `OrderBy` is stable, so the order is the one by key and, among
    equal keys, by position in the table. It is computed here as an insertion
    sort of positions. */
module EntryOrder {

  /** Position `i` comes before position `j`. */
  predicate Precedes(keys: seq<int>, i: nat, j: nat)
    requires i < |keys| && j < |keys|
  {
    keys[i] < keys[j] || (keys[i] == keys[j] && i < j)
  }

  /** `order` lists positions of `keys`, each before every later one. */
  predicate InOrder(keys: seq<int>, order: seq<nat>) {
    && (forall k :: 0 <= k < |order| ==> order[k] < |keys|)
    && (forall a, b :: 0 <= a < b < |order| ==> Precedes(keys, order[a], order[b]))
  }

  function Insert(keys: seq<int>, i: nat, order: seq<nat>): (r: seq<nat>)
    requires i < |keys| && i !in order && InOrder(keys, order)
    ensures |r| == |order| + 1
    ensures forall x :: x in r <==> x in order || x == i
    ensures InOrder(keys, r)
  {
    if order == [] then [i]
    else if Precedes(keys, i, order[0]) then [i] + order
    else
      var rest := Insert(keys, i, order[1..]);
      assert forall b :: 0 <= b < |rest| ==> Precedes(keys, order[0], rest[b]) by {
        forall b | 0 <= b < |rest|
          ensures Precedes(keys, order[0], rest[b])
        {
          if rest[b] != i {
            assert rest[b] in rest;
            assert rest[b] in order[1..];
            var c :| 0 <= c < |order[1..]| && order[1..][c] == rest[b];
            assert order[c + 1] == rest[b];
          }
        }
      }
      [order[0]] + rest
  }

  /** The first `n` positions in order. */
  function Sort(keys: seq<int>, n: nat): (r: seq<nat>)
    requires n <= |keys|
    ensures |r| == n && InOrder(keys, r)
    ensures forall x :: x in r <==> 0 <= x < n
  {
    if n == 0 then [] else Insert(keys, n - 1, Sort(keys, n - 1))
  }

  /** The stable ascending order of all positions: every position once, each
      before every later one. */
  function StableOrder(keys: seq<int>): (r: seq<nat>)
    ensures |r| == |keys| && InOrder(keys, r)
    ensures forall x :: x in r <==> 0 <= x < |keys|
  {
    Sort(keys, |keys|)
  }

  lemma FirstPrecedesOthers(keys: seq<int>, a: seq<nat>, x: nat)
    requires InOrder(keys, a) && x in a
    ensures x == a[0] || (a[0] < |keys| && x < |keys| && Precedes(keys, a[0], x))
  {
  }

  lemma EmptyOrFirst(s: seq<nat>)
    ensures s == [] || s[0] in s
  {
  }

  /** There is only one such order, so any stable sort by key yields it. */
  lemma {:induction false} InOrderUnique(keys: seq<int>, a: seq<nat>, b: seq<nat>)
    requires InOrder(keys, a) && InOrder(keys, b)
    requires forall x :: x in a <==> x in b
    ensures a == b
  {
    EmptyOrFirst(a);
    EmptyOrFirst(b);
    if a != [] {
      FirstPrecedesOthers(keys, a, b[0]);
      FirstPrecedesOthers(keys, b, a[0]);
      assert a[0] == b[0];
      forall x
        ensures x in a[1..] <==> x in b[1..]
      {
        if x in a[1..] {
          var i :| 0 <= i < |a[1..]| && a[1..][i] == x;
          assert Precedes(keys, a[0], x);
          assert x in b && b == [b[0]] + b[1..];
        }
        if x in b[1..] {
          var i :| 0 <= i < |b[1..]| && b[1..][i] == x;
          assert Precedes(keys, b[0], x);
          assert x in a && a == [a[0]] + a[1..];
        }
      }
      InOrderUnique(keys, a[1..], b[1..]);
      assert a == [a[0]] + a[1..] && b == [b[0]] + b[1..];
    }
  }

  /** The elements of `xs` at the positions `order`, in that order. */
  function Arrange<T>(xs: seq<T>, order: seq<nat>): (r: seq<T>)
    requires forall k :: 0 <= k < |order| ==> order[k] < |xs|
    ensures |r| == |order| && forall k :: 0 <= k < |order| ==> r[k] == xs[order[k]]
  {
    seq(|order|, k requires 0 <= k < |order| => xs[order[k]])
  }

  lemma ArrangeCons<T>(xs: seq<T>, j: nat, order: seq<nat>)
    requires j < |xs| && forall k :: 0 <= k < |order| ==> order[k] < |xs|
    ensures Arrange(xs, [j] + order) == [xs[j]] + Arrange(xs, order)
  {
  }

  lemma {:induction false} InsertArrange<T>(keys: seq<int>, xs: seq<T>, i: nat, order: seq<nat>)
    requires |xs| == |keys| && i < |keys| && i !in order && InOrder(keys, order)
    ensures multiset(Arrange(xs, Insert(keys, i, order))) == multiset(Arrange(xs, order)) + multiset{xs[i]}
  {
    if order == [] {
      assert Arrange(xs, [i]) == [xs[i]];
    } else if Precedes(keys, i, order[0]) {
      ArrangeCons(xs, i, order);
    } else {
      var tail := order[1..];
      assert order == [order[0]] + tail;
      assert i !in tail;
      InsertArrange(keys, xs, i, tail);
      var rest := Insert(keys, i, tail);
      assert Insert(keys, i, order) == [order[0]] + rest;
      ArrangeCons(xs, order[0], rest);
      ArrangeCons(xs, order[0], tail);
      assert multiset([xs[order[0]]] + Arrange(xs, rest)) == multiset{xs[order[0]]} + multiset(Arrange(xs, rest));
      assert multiset([xs[order[0]]] + Arrange(xs, tail)) == multiset{xs[order[0]]} + multiset(Arrange(xs, tail));
    }
  }

  /** Sorting positions permutes the elements. */
  lemma {:induction false} SortArrange<T>(keys: seq<int>, xs: seq<T>, n: nat)
    requires |xs| == |keys| && n <= |keys|
    ensures multiset(Arrange(xs, Sort(keys, n))) == multiset(xs[..n])
  {
    if n > 0 {
      SortArrange(keys, xs, n - 1);
      var prev := Sort(keys, n - 1);
      assert n - 1 !in prev;
      InsertArrange(keys, xs, n - 1, prev);
      assert xs[..n] == xs[..n - 1] + [xs[n - 1]];
    }
  }
}
