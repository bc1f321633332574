/** Python's order on strings, by code points, and `sorted(set(...))`. */
module Ordering {

  predicate Below(a: string, b: string) {
    if b == "" then false
    else if a == "" then true
    else a[0] < b[0] || (a[0] == b[0] && Below(a[1..], b[1..]))
  }

  lemma {:induction false} BelowIsTotal(a: string, b: string)
    ensures a == b || Below(a, b) || Below(b, a)
    ensures !(Below(a, b) && Below(b, a))
  {
    if a != "" && b != "" {
      BelowIsTotal(a[1..], b[1..]);
      assert a == [a[0]] + a[1..] && b == [b[0]] + b[1..];
    }
  }

  lemma {:induction false} BelowIsTransitive(a: string, b: string, c: string)
    requires Below(a, b) && Below(b, c)
    ensures Below(a, c)
  {
    if a != "" && a[0] == b[0] == c[0] {
      BelowIsTransitive(a[1..], b[1..], c[1..]);
    }
  }

  predicate IsLeast(m: string, s: set<string>) {
    m in s && forall x <- s :: x != m ==> Below(m, x)
  }

  lemma {:induction false} LeastExists(s: set<string>) returns (m: string)
    requires s != {}
    ensures IsLeast(m, s)
  {
    var x :| x in s;
    var rest := s - {x};
    if rest == {} {
      m := x;
      assert s == {x};
    } else {
      var y := LeastExists(rest);
      BelowIsTotal(x, y);
      m := if Below(x, y) then x else y;
      forall z <- s | z != m ensures Below(m, z) {
        if z != x && z != y && m == x {
          BelowIsTransitive(x, y, z);
        }
      }
    }
  }

  lemma LeastIsUnique(m: string, n: string, s: set<string>)
    requires IsLeast(m, s) && IsLeast(n, s)
    ensures m == n
  {
    BelowIsTotal(m, n);
  }

  ghost predicate Ascending(t: seq<string>) {
    forall i, j :: 0 <= i < j < |t| ==> Below(t[i], t[j])
  }

  /** `tuple(sorted(s))`. */
  function Sorted(s: set<string>): (t: seq<string>)
    ensures Ascending(t) && (forall x :: x in t <==> x in s) && |t| == |s|
    decreases |s|
  {
    if s == {} then []
    else
      var rest := Sorted(s - {Least(s)});
      assert forall j :: 0 <= j < |rest| ==> rest[j] in rest;
      assert forall x <- rest :: x in s && x != Least(s) && Below(Least(s), x);
      [Least(s)] + rest
  }

  function Least(s: set<string>): (m: string)
    requires s != {}
    ensures IsLeast(m, s)
  {
    LeastIsThere(s);
    var m :| m in s && IsLeast(m, s);
    m
  }

  lemma LeastIsThere(s: set<string>)
    requires s != {}
    ensures exists m :: m in s && IsLeast(m, s)
    ensures forall m, n :: IsLeast(m, s) && IsLeast(n, s) ==> m == n
  {
    var m := LeastExists(s);
    forall m, n | IsLeast(m, s) && IsLeast(n, s) ensures m == n {
      LeastIsUnique(m, n, s);
    }
  }

  /** There is only one ascending listing of a set. */
  lemma {:induction false} AscendingIsUnique(t: seq<string>, u: seq<string>)
    requires Ascending(t) && Ascending(u) && forall x :: x in t <==> x in u
    ensures t == u
  {
    if t != [] {
      assert t[0] in t;
    }
    if u != [] {
      assert u[0] in u;
    }
    if t != [] {
      assert t[0] in u && u != [] && u[0] in t;
      var i :| 0 <= i < |u| && u[i] == t[0];
      var j :| 0 <= j < |t| && t[j] == u[0];
      BelowIsTotal(t[0], u[0]);
      assert t[0] == u[0];
      BelowIsTotal(t[0], t[0]);
      assert t[0] !in t[1..] && u[0] !in u[1..];
      forall x ensures x in t[1..] <==> x in u[1..] {
        assert t == [t[0]] + t[1..] && u == [u[0]] + u[1..];
        assert x in t <==> x == t[0] || x in t[1..];
        assert x in u <==> x == u[0] || x in u[1..];
      }
      AscendingIsUnique(t[1..], u[1..]);
    }
  }

  // ----- sorted(..., key=...) -----

  function SortBy<T>(key: T -> string, items: seq<T>): (sorted: seq<T>)
    ensures multiset(sorted) == multiset(items)
  {
    if items == [] then []
    else
      assert items == items[..|items| - 1] + [items[|items| - 1]];
      Insert(key, SortBy(key, items[..|items| - 1]), items[|items| - 1])
  }

  function Insert<T>(key: T -> string, sorted: seq<T>, x: T): (more: seq<T>)
    ensures multiset(more) == multiset(sorted) + multiset{x}
  {
    if sorted == [] then [x]
    else if Below(key(x), key(sorted[0])) then [x] + sorted
    else
      assert sorted == [sorted[0]] + sorted[1..];
      [sorted[0]] + Insert(key, sorted[1..], x)
  }

  ghost predicate InOrder<T>(key: T -> string, items: seq<T>) {
    forall i, j :: 0 <= i < j < |items| ==> !Below(key(items[j]), key(items[i]))
  }

  lemma {:induction false} InsertKeepsOrder<T>(key: T -> string, sorted: seq<T>, x: T)
    requires InOrder(key, sorted)
    ensures InOrder(key, Insert(key, sorted, x))
  {
    hide Below;
    if sorted != [] {
      BelowIsTotal(key(x), key(sorted[0]));
      if Below(key(x), key(sorted[0])) {
        forall j | 0 <= j < |sorted| ensures !Below(key(sorted[j]), key(x)) {
          BelowIsTotal(key(sorted[j]), key(sorted[0]));
          BelowIsTotal(key(sorted[j]), key(x));
          if Below(key(sorted[j]), key(x)) {
            BelowIsTransitive(key(sorted[j]), key(x), key(sorted[0]));
          }
        }
      } else {
        InsertKeepsOrder(key, sorted[1..], x);
        var more := Insert(key, sorted[1..], x);
        forall j | 0 <= j < |more| ensures !Below(key(more[j]), key(sorted[0])) {
          assert more[j] in multiset(sorted[1..]) + multiset{x};
        }
      }
    }
  }

  lemma {:induction false} SortByOrders<T>(key: T -> string, items: seq<T>)
    ensures InOrder(key, SortBy(key, items))
  {
    if items != [] {
      SortByOrders(key, items[..|items| - 1]);
      InsertKeepsOrder(key, SortBy(key, items[..|items| - 1]), items[|items| - 1]);
    }
  }

  predicate DistinctBy<T>(key: T -> string, items: seq<T>) {
    forall i, j :: 0 <= i < j < |items| ==> key(items[i]) != key(items[j])
  }
}
