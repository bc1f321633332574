/** The bounded walk over protocol data before it is serialised
    (src/researchctl/serialization.py). Containers live in a heap and are referred to by
    identity, so data can be shared and can contain itself. */
module FiniteWalk {

  type Id = int

  datatype Value = Scalar | Float(finite: bool) | Ref(id: Id)

  datatype Key = Text(text: string) | OtherKey

  datatype Container = Mapping(entries: seq<(Key, Value)>) | Listing(items: seq<Value>) {
    function Children(): (vs: seq<Value>)
      ensures |vs| == if Mapping? then |entries| else |items|
    {
      if Mapping? then seq(|entries|, i requires 0 <= i < |entries| => entries[i].1) else items
    }

    predicate StringKeys() {
      Mapping? ==> forall i :: 0 <= i < |entries| ==> entries[i].0.Text?
    }
  }

  type Heap = map<Id, Container>

  /** References lead somewhere. */
  ghost predicate Closed(heap: Heap) {
    forall id, v :: id in heap && v in heap[id].Children() ==> Known(heap, v)
  }

  predicate Known(heap: Heap, v: Value) {
    v.Ref? ==> v.id in heap
  }

  const MAX_NODES := 100_000
  const MAX_DEPTH := 64

  // ----- What a value unfolds to -----

  datatype Tree = Leaf(finite: bool) | Node(stringKeys: bool, children: seq<Tree>)

  ghost predicate Unfolds(heap: Heap, v: Value, t: Tree)
    decreases t
  {
    match v
    case Scalar => t == Leaf(true)
    case Float(finite) => t == Leaf(finite)
    case Ref(id) =>
      && id in heap && t.Node? && t.stringKeys == heap[id].StringKeys()
      && |t.children| == |heap[id].Children()|
      && forall i :: 0 <= i < |t.children| ==> Unfolds(heap, heap[id].Children()[i], t.children[i])
  }

  function Size(t: Tree): (n: nat)
    ensures n >= 1
  {
    if t.Leaf? then 1 else 1 + TotalSize(t.children)
  }

  function TotalSize(ts: seq<Tree>): nat {
    if ts == [] then 0 else TotalSize(ts[..|ts| - 1]) + Size(ts[|ts| - 1])
  }

  /** How many levels of containers lie above the deepest leaf. */
  ghost predicate HeightWithin(t: Tree, n: int) {
    n >= 0 && (t.Node? ==> forall i :: 0 <= i < |t.children| ==> HeightWithin(t.children[i], n - 1))
  }

  ghost predicate Clean(t: Tree) {
    match t
    case Leaf(finite) => finite
    case Node(stringKeys, children) => stringKeys && forall i :: 0 <= i < |children| ==> Clean(children[i])
  }

  ghost predicate Within(t: Tree, budget: int, depth: int) {
    Clean(t) && Size(t) <= budget && HeightWithin(t, MAX_DEPTH - depth)
  }

  lemma {:induction false} UnfoldsOnce(heap: Heap, v: Value, t: Tree, u: Tree)
    requires Unfolds(heap, v, t) && Unfolds(heap, v, u)
    ensures t == u
    decreases t
  {
    if v.Ref? {
      forall i | 0 <= i < |t.children| ensures t.children[i] == u.children[i] {
        UnfoldsOnce(heap, heap[v.id].Children()[i], t.children[i], u.children[i]);
      }
      assert t.children == u.children;
    }
  }

  // ----- The walk -----

  /** Containers being walked: what v unfolds to is a proper part of what each of them does. */
  ghost predicate Above(heap: Heap, ancestors: set<Id>, v: Value) {
    forall a, t :: a in ancestors && Unfolds(heap, Ref(a), t) ==> PartOf(heap, v, t)
  }

  ghost predicate PartOf(heap: Heap, v: Value, t: Tree) {
    exists u :: Unfolds(heap, v, u) && Size(u) < Size(t)
  }

  lemma {:induction false} SizeOfChild(ts: seq<Tree>, i: nat)
    requires i < |ts|
    ensures Size(ts[i]) <= TotalSize(ts)
  {
    if i < |ts| - 1 {
      SizeOfChild(ts[..|ts| - 1], i);
    }
  }

  lemma {:induction false} SizeOfPrefix(ts: seq<Tree>, i: nat)
    requires i <= |ts|
    ensures TotalSize(ts[..i]) <= TotalSize(ts)
  {
    if i < |ts| {
      SizeOfPrefix(ts[..|ts| - 1], i);
      assert ts[..|ts| - 1][..i] == ts[..i];
    } else {
      assert ts[..i] == ts;
    }
  }

  lemma AboveChild(heap: Heap, ancestors: set<Id>, id: Id, i: nat)
    requires id in heap && Above(heap, ancestors, Ref(id)) && i < |heap[id].Children()|
    ensures Above(heap, ancestors + {id}, heap[id].Children()[i])
  {
    var child := heap[id].Children()[i];
    forall a, t | a in ancestors + {id} && Unfolds(heap, Ref(a), t) ensures PartOf(heap, child, t) {
      var whole := t;
      if a != id {
        assert PartOf(heap, Ref(id), t);
        whole :| Unfolds(heap, Ref(id), whole) && Size(whole) < Size(t);
      }
      SizeOfChild(whole.children, i);
      assert Unfolds(heap, child, whole.children[i]);
    }
  }

  lemma NoUnfoldingInsideItself(heap: Heap, ancestors: set<Id>, id: Id)
    requires Above(heap, ancestors, Ref(id)) && id in ancestors
    ensures forall t :: !Unfolds(heap, Ref(id), t)
  {
    forall t ensures !Unfolds(heap, Ref(id), t) {
      if Unfolds(heap, Ref(id), t) {
        assert PartOf(heap, Ref(id), t);
        var u :| Unfolds(heap, Ref(id), u) && Size(u) < Size(t);
        UnfoldsOnce(heap, Ref(id), t, u);
      }
    }
  }

  class Walk {
    var ancestors: set<Id>
    var budget: int

    constructor (budget: int)
      ensures this.ancestors == {} && this.budget == budget
    {
      this.ancestors := {};
      this.budget := budget;
    }

    /** `_assert_finite`: the tree is what the value unfolds to when the walk ends normally. */
    method AssertFinite(heap: Heap, v: Value, depth: nat) returns (ok: bool, ghost tree: Tree)
      requires Closed(heap) && Known(heap, v) && Above(heap, ancestors, v)
      modifies this
      ensures ancestors == old(ancestors)
      ensures ok ==> Unfolds(heap, v, tree) && Within(tree, old(budget), depth)
      ensures ok ==> budget == old(budget) - Size(tree)
      ensures !ok ==> forall t :: Unfolds(heap, v, t) ==> !Within(t, old(budget), depth)
      decreases MAX_DEPTH + 1 - depth
    {
      tree := Leaf(true);
      budget := budget - 1;
      if budget < 0 {
        return false, tree;
      }
      if depth > MAX_DEPTH {
        return false, tree;
      }
      if v.Float? && !v.finite {
        return false, tree;
      }
      if !v.Ref? {
        return true, tree;
      }
      if v.id in ancestors {
        NoUnfoldingInsideItself(heap, ancestors, v.id);
        return false, tree;
      }
      ancestors := ancestors + {v.id};
      var container := heap[v.id];
      ghost var trees: seq<Tree> := [];
      ok := true;
      var i := 0;
      while ok && i < |container.Children()|
        invariant 0 <= i <= |container.Children()|
        invariant ancestors == old(ancestors) + {v.id}
        invariant ok ==> Walked(heap, container, trees, i, old(budget), budget, depth)
        invariant !ok ==> forall t :: Unfolds(heap, v, t) ==> !Within(t, old(budget), depth)
        decreases |container.Children()| - i, ok
      {
        if container.Mapping? && !container.entries[i].0.Text? {
          ok := false;
        } else {
          AboveChild(heap, old(ancestors), v.id, i);
          ghost var left := budget;
          ghost var sub: Tree;
          ok, sub := AssertFinite(heap, container.Children()[i], depth + 1);
          if ok {
            WalkedOne(heap, container, trees, sub, i, old(budget), left, depth);
            trees := trees + [sub];
            i := i + 1;
          } else {
            ChildTooMuch(heap, v, trees, i, old(budget), left, depth);
          }
        }
      }
      ancestors := ancestors - {v.id};
      tree := Node(container.StringKeys(), trees);
    }
  }

  /** The first i children have been walked. */
  ghost predicate Walked(heap: Heap, c: Container, trees: seq<Tree>, i: nat, before: int, now: int, depth: nat) {
    && |trees| == i <= |c.Children()|
    && (forall k :: 0 <= k < i ==> Unfolds(heap, c.Children()[k], trees[k]))
    && (forall k :: 0 <= k < i ==> Clean(trees[k]) && HeightWithin(trees[k], MAX_DEPTH - depth - 1))
    && (c.Mapping? ==> forall k :: 0 <= k < i ==> c.entries[k].0.Text?)
    && 0 <= now == before - 1 - TotalSize(trees)
  }

  lemma WalkedOne(heap: Heap, c: Container, trees: seq<Tree>, sub: Tree, i: nat, before: int, left: int, depth: nat)
    requires Walked(heap, c, trees, i, before, left, depth) && i < |c.Children()|
    requires Unfolds(heap, c.Children()[i], sub) && Within(sub, left, depth + 1)
    requires c.Mapping? ==> c.entries[i].0.Text?
    ensures Walked(heap, c, trees + [sub], i + 1, before, left - Size(sub), depth)
  {
    assert (trees + [sub])[..i] == trees;
  }

  lemma ChildTooMuch(heap: Heap, v: Value, trees: seq<Tree>, i: nat, before: int, left: int, depth: nat)
    requires v.Ref? && v.id in heap && i < |heap[v.id].Children()|
    requires Walked(heap, heap[v.id], trees, i, before, left, depth)
    requires forall t :: Unfolds(heap, heap[v.id].Children()[i], t) ==> !Within(t, left, depth + 1)
    ensures forall t :: Unfolds(heap, v, t) ==> !Within(t, before, depth)
  {
    forall t | Unfolds(heap, v, t) ensures !Within(t, before, depth) {
      forall k | 0 <= k < i ensures t.children[k] == trees[k] {
        UnfoldsOnce(heap, heap[v.id].Children()[k], t.children[k], trees[k]);
      }
      assert t.children[..i] == trees;
      SizeOfPrefix(t.children, i + 1);
      assert t.children[..i + 1][..i] == trees;
      assert Unfolds(heap, heap[v.id].Children()[i], t.children[i]);
    }
  }

  /** What `to_jsonable` lets through: values that unfold to something clean, small and shallow. */
  ghost predicate Acceptable(heap: Heap, v: Value) {
    exists t :: Unfolds(heap, v, t) && Within(t, MAX_NODES, 0)
  }

  /** MAIN: the walk from the outside accepts exactly the acceptable values. */
  method Check(heap: Heap, v: Value) returns (ok: bool)
    requires Closed(heap) && Known(heap, v)
    ensures ok <==> Acceptable(heap, v)
  {
    var walk := new Walk(MAX_NODES);
    ghost var tree: Tree;
    ok, tree := walk.AssertFinite(heap, v, 0);
  }

  // ----- Unfolding means having no cycle -----

  /** A way down from v through containers. */
  ghost predicate Chain(heap: Heap, v: Value, p: seq<Id>) {
    && p != [] && v == Ref(p[0])
    && (forall i :: 0 <= i < |p| ==> p[i] in heap)
    && forall i :: 0 < i < |p| ==> Ref(p[i]) in heap[p[i - 1]].Children()
  }

  ghost predicate Cyclic(heap: Heap, v: Value) {
    exists p :: Chain(heap, v, p) && !Distinct(p)
  }

  ghost predicate Distinct<T>(s: seq<T>) {
    forall i, j :: 0 <= i < j < |s| ==> s[i] != s[j]
  }

  /** MAIN: a value unfolds to a finite tree exactly when no way down from it repeats a container. */
  lemma UnfoldsIffAcyclic(heap: Heap, v: Value)
    requires Closed(heap) && Known(heap, v)
    ensures (exists t :: Unfolds(heap, v, t)) <==> !Cyclic(heap, v)
  {
    if Cyclic(heap, v) {
      forall t ensures !Unfolds(heap, v, t) {
        if Unfolds(heap, v, t) {
          NoRepetition(heap, v, t);
        }
      }
    } else {
      if v.Ref? {
        assert Chain(heap, v, [v.id]) && [] + [v.id] == [v.id];
      }
      var t := Build(heap, v, v, []);
      assert Unfolds(heap, v, t);
    }
  }

  lemma {:induction false} PartDown(heap: Heap, p: seq<Id>, t: Tree, k: nat) returns (u: Tree)
    requires p != [] && Chain(heap, Ref(p[0]), p) && Unfolds(heap, Ref(p[0]), t) && k < |p|
    ensures Unfolds(heap, Ref(p[k]), u) && Size(u) + k <= Size(t)
  {
    u := t;
    if k > 0 {
      var w := PartDown(heap, p, t, k - 1);
      assert Ref(p[k]) in heap[p[k - 1]].Children();
      var i :| 0 <= i < |heap[p[k - 1]].Children()| && heap[p[k - 1]].Children()[i] == Ref(p[k]);
      SizeOfChild(w.children, i);
      u := w.children[i];
    }
  }

  lemma NoRepetition(heap: Heap, v: Value, t: Tree)
    requires Unfolds(heap, v, t)
    ensures !Cyclic(heap, v)
  {
    forall p | Chain(heap, v, p) ensures Distinct(p) {
      forall i, j | 0 <= i < j < |p| ensures p[i] != p[j] {
        NotTwice(heap, v, t, p, i, j);
      }
    }
  }

  lemma NotTwice(heap: Heap, v: Value, t: Tree, p: seq<Id>, i: nat, j: nat)
    requires Unfolds(heap, v, t) && Chain(heap, v, p) && i < j < |p|
    ensures p[i] != p[j]
  {
    hide Unfolds, Size;
    var u := PartDown(heap, p, t, i);
    assert Chain(heap, Ref(p[i]), p[i..]);
    var w := PartDown(heap, p[i..], u, j - i);
    if p[i] == p[j] {
      UnfoldsOnce(heap, Ref(p[i]), u, w);
    }
  }

  lemma {:induction false} DistinctFits<T>(s: seq<T>, from: set<T>)
    requires Distinct(s) && forall x :: x in s ==> x in from
    ensures |s| <= |from|
  {
    if s != [] {
      var last := s[|s| - 1];
      var rest := s[..|s| - 1];
      DistinctFits(rest, from - {last});
    }
  }

  /** Unfolds what the way p leads to from the root. */
  lemma {:induction false} Build(heap: Heap, root: Value, v: Value, p: seq<Id>) returns (t: Tree)
    requires Closed(heap) && Known(heap, v) && !Cyclic(heap, root)
    requires v.Ref? ==> Chain(heap, root, p + [v.id])
    ensures Unfolds(heap, v, t)
    decreases |heap| - |p|, 1, 0
  {
    if v.Ref? {
      var q := p + [v.id];
      assert Distinct(q);
      DistinctFits(q, heap.Keys);
      var ts := BuildAll(heap, root, v.id, q, |heap[v.id].Children()|);
      t := Node(heap[v.id].StringKeys(), ts);
    } else {
      t := Leaf(v.Float? ==> v.finite);
    }
  }

  lemma {:induction false} BuildAll(heap: Heap, root: Value, id: Id, q: seq<Id>, n: nat) returns (ts: seq<Tree>)
    requires Closed(heap) && id in heap && !Cyclic(heap, root)
    requires Chain(heap, root, q) && q[|q| - 1] == id && |q| <= |heap| && n <= |heap[id].Children()|
    ensures |ts| == n && forall i :: 0 <= i < n ==> Unfolds(heap, heap[id].Children()[i], ts[i])
    decreases |heap| - |q|, 2, n
  {
    ts := [];
    if n > 0 {
      var child := heap[id].Children()[n - 1];
      ts := BuildAll(heap, root, id, q, n - 1);
      var t := Build(heap, root, child, q);
      ts := ts + [t];
    }
  }
}
