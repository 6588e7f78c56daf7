/** Heap-ordered forests with marks, and the Fibonacci bound on their degrees. */
module FibTree {
  import opened Bits

  /** A heap node with its children, most recently linked first. */
  datatype Tree<T> = Tree(elem: T, mark: bool, kids: seq<Tree<T>>)

  function Nodes<T>(ts: seq<Tree<T>>): set<T> {
    if ts == [] then {} else {ts[0].elem} + Nodes(ts[0].kids) + Nodes(ts[1..])
  }

  function Size<T>(ts: seq<Tree<T>>): nat {
    if ts == [] then 0 else 1 + Size(ts[0].kids) + Size(ts[1..])
  }

  /** No node occurs twice. */
  ghost predicate Distinct<T>(ts: seq<Tree<T>>) {
    ts == [] ||
    (&& ts[0].elem !in Nodes(ts[0].kids) + Nodes(ts[1..])
     && Nodes(ts[0].kids) !! Nodes(ts[1..])
     && Distinct(ts[0].kids) && Distinct(ts[1..]))
  }

  ghost predicate HeapOrdered<T>(ts: seq<Tree<T>>, prioreq: (T, T) -> bool) {
    ts == [] ||
    ((forall i :: 0 <= i < |ts[0].kids| ==> prioreq(ts[0].elem, ts[0].kids[i].elem))
     && HeapOrdered(ts[0].kids, prioreq) && HeapOrdered(ts[1..], prioreq))
  }

  /** A child was linked when its parent had as many children as come after it,
      and then had at least that degree; a mark lets it have lost one since. */
  ghost predicate KidsDeep<T>(kids: seq<Tree<T>>) {
    forall i :: 0 <= i < |kids| ==> |kids[i].kids| + (if kids[i].mark then 1 else 0) >= |kids| - 1 - i
  }

  ghost predicate Deep<T>(ts: seq<Tree<T>>) {
    ts == [] || (KidsDeep(ts[0].kids) && Deep(ts[0].kids) && Deep(ts[1..]))
  }

  function Bit(b: bool): nat {
    if b then 1 else 0
  }

  /** The marked nodes of a forest. */
  function Marks<T>(ts: seq<Tree<T>>): nat {
    if ts == [] then 0 else Bit(ts[0].mark) + Marks(ts[0].kids) + Marks(ts[1..])
  }

  // ------------------------------------------------------------- concatenation

  lemma {:induction false} MarksAppend<T>(ts: seq<Tree<T>>, us: seq<Tree<T>>)
    ensures Marks(ts + us) == Marks(ts) + Marks(us)
  {
    if ts == [] {
      assert ts + us == us;
    } else {
      assert (ts + us)[1..] == ts[1..] + us;
      MarksAppend(ts[1..], us);
    }
  }

  lemma MarksOne<T>(t: Tree<T>)
    ensures Marks([t]) == Bit(t.mark) + Marks(t.kids) && Marks<T>([]) == 0
  {
    assert [t][1..] == [];
  }

  lemma {:induction false} NodesAppend<T>(ts: seq<Tree<T>>, us: seq<Tree<T>>)
    ensures Nodes(ts + us) == Nodes(ts) + Nodes(us) && Size(ts + us) == Size(ts) + Size(us)
  {
    if ts == [] {
      assert ts + us == us;
    } else {
      assert (ts + us)[1..] == ts[1..] + us;
      NodesAppend(ts[1..], us);
    }
  }

  lemma {:induction false} DistinctAppend<T>(ts: seq<Tree<T>>, us: seq<Tree<T>>)
    ensures Distinct(ts + us) <==> Distinct(ts) && Distinct(us) && Nodes(ts) !! Nodes(us)
  {
    if ts == [] {
      assert ts + us == us;
    } else {
      assert (ts + us)[1..] == ts[1..] + us;
      NodesAppend(ts[1..], us);
      DistinctAppend(ts[1..], us);
    }
  }

  /** Distinct nodes are counted once each. */
  lemma {:induction false} SizeIsCard<T>(ts: seq<Tree<T>>)
    requires Distinct(ts)
    ensures Size(ts) == |Nodes(ts)|
  {
    if ts != [] {
      SizeIsCard(ts[0].kids);
      SizeIsCard(ts[1..]);
      var a, b := Nodes(ts[0].kids), Nodes(ts[1..]);
      assert |{ts[0].elem} + a| == 1 + |a|;
      assert |{ts[0].elem} + a + b| == |{ts[0].elem} + a| + |b|;
    }
  }

  lemma {:induction false} HeapAppend<T>(ts: seq<Tree<T>>, us: seq<Tree<T>>, prioreq: (T, T) -> bool)
    ensures HeapOrdered(ts + us, prioreq) <==> HeapOrdered(ts, prioreq) && HeapOrdered(us, prioreq)
  {
    if ts == [] {
      assert ts + us == us;
    } else {
      assert (ts + us)[1..] == ts[1..] + us;
      HeapAppend(ts[1..], us, prioreq);
    }
  }

  lemma {:induction false} DeepAppend<T>(ts: seq<Tree<T>>, us: seq<Tree<T>>)
    ensures Deep(ts + us) <==> Deep(ts) && Deep(us)
  {
    if ts == [] {
      assert ts + us == us;
    } else {
      assert (ts + us)[1..] == ts[1..] + us;
      DeepAppend(ts[1..], us);
    }
  }

  lemma NodesOne<T>(t: Tree<T>)
    ensures Nodes([t]) == {t.elem} + Nodes(t.kids) && Size([t]) == 1 + Size(t.kids)
    ensures Distinct([t]) <==> t.elem !in Nodes(t.kids) && Distinct(t.kids)
  {
    assert [t][1..] == [];
  }

  lemma HeapOne<T>(t: Tree<T>, prioreq: (T, T) -> bool)
    ensures HeapOrdered([t], prioreq) <==>
      (forall i :: 0 <= i < |t.kids| ==> prioreq(t.elem, t.kids[i].elem)) && HeapOrdered(t.kids, prioreq)
  {
    assert [t][1..] == [];
  }

  lemma DeepOne<T>(t: Tree<T>)
    ensures Deep([t]) <==> KidsDeep(t.kids) && Deep(t.kids)
  {
    assert [t][1..] == [];
  }

  // --------------------------------------------------------- the size theorem

  function Fib(n: nat): nat {
    if n < 2 then n else Fib(n - 1) + Fib(n - 2)
  }

  lemma {:induction false} FibMonotone(m: nat, n: nat)
    requires m <= n
    ensures Fib(m) <= Fib(n)
    decreases n
  {
    if m < n {
      FibMonotone(m, n - 1);
    }
  }

  /** The children of a node of degree d, with all below them, number at least
      Fib(d+2) - 1. */
  lemma {:induction false} KidsSize<T>(kids: seq<Tree<T>>)
    requires KidsDeep(kids) && Deep(kids)
    ensures Size(kids) + 1 >= Fib(|kids| + 2)
  {
    if kids != [] {
      var t, older := kids[0], kids[1..];
      assert KidsDeep(older);
      KidsSize(older);
      KidsSize(t.kids);
      FibMonotone(|kids|, |t.kids| + 2);
    }
  }

  /** A node of degree d roots at least Fib(d+2) nodes. */
  lemma TreeSize<T>(t: Tree<T>)
    requires Deep([t])
    ensures Size([t]) >= Fib(|t.kids| + 2)
  {
    DeepOne(t);
    KidsSize(t.kids);
    NodesOne(t);
  }

  /** `_max_degree`. */
  function MaxDegree(card: nat): nat
    requires card > 0
  {
    (3 * CeilLog2(card) + 1) / 2
  }

  lemma {:induction false} FibBeatsPow2(l: nat)
    requires l >= 1
    ensures Fib((3 * l + 1) / 2 + 2) > Pow2(l)
  {
    if l <= 2 {
      assert Fib(2) == 1 && Fib(3) == 2;
      assert Fib(4) == 3;
      assert Fib(5) == 5;
      assert Pow2(1) == 2;
    } else {
      FibBeatsPow2(l - 2);
      var n := (3 * (l - 2) + 1) / 2 + 2;
      assert (3 * l + 1) / 2 + 2 == n + 3;
      FibMonotone(n - 1, n);
      FibMonotone(n - 2, n - 1);
      assert Fib(n + 3) == Fib(n + 2) + Fib(n + 1);
      assert Fib(n + 2) == Fib(n + 1) + Fib(n);
      assert Fib(n + 1) == Fib(n) + Fib(n - 1);
      assert Fib(n) == Fib(n - 1) + Fib(n - 2);
      assert Pow2(l) == 2 * Pow2(l - 1) && Pow2(l - 1) == 2 * Pow2(l - 2);
    }
  }

  /** A single node leaves no slot even for degree 0. */
  lemma NoSlots(card: nat)
    requires card > 0
    ensures MaxDegree(card) == 0 <==> card == 1
  {
    if card > 1 { assert CeilLog2(card) == CeilLog2((card + 1) / 2) + 1; }
  }

  /** In a queue of at least two nodes every root's degree indexes the
      `nodes_by_degree` array. */
  lemma DegreeBound<T>(t: Tree<T>, card: nat)
    requires Deep([t]) && Size([t]) <= card && card >= 2
    ensures |t.kids| < MaxDegree(card)
  {
    TreeSize(t);
    var l := CeilLog2(card);
    FibBeatsPow2(l);
    if |t.kids| >= MaxDegree(card) {
      FibMonotone(MaxDegree(card) + 2, |t.kids| + 2);
    }
  }

  // ------------------------------------------------------------------ linking

  lemma LinkDistinct<T>(parent: Tree<T>, child: Tree<T>)
    requires Distinct([parent]) && Distinct([child]) && Nodes([parent]) !! Nodes([child])
    ensures Distinct([Link(parent, child)])
  {
    NodesOne(parent); NodesOne(Link(parent, child));
    NodesAppend([child], parent.kids);
    DistinctAppend([child], parent.kids);
  }

  /** `child` becomes the newest child of `parent`. */
  function Link<T>(parent: Tree<T>, child: Tree<T>): Tree<T> {
    parent.(kids := [child] + parent.kids)
  }

  lemma LinkKeeps<T>(parent: Tree<T>, child: Tree<T>, prioreq: (T, T) -> bool)
    requires HeapOrdered([parent], prioreq) && HeapOrdered([child], prioreq)
    requires Deep([parent]) && Deep([child])
    requires prioreq(parent.elem, child.elem) && |child.kids| == |parent.kids|
    ensures var t := Link(parent, child);
            HeapOrdered([t], prioreq) && Deep([t]) && Nodes([t]) == Nodes([parent]) + Nodes([child])
            && Size([t]) == Size([parent]) + Size([child]) && Marks([t]) == Marks([parent]) + Marks([child])
  {
    var t := Link(parent, child);
    NodesOne(t); NodesOne(parent);
    HeapOne(t, prioreq); HeapOne(parent, prioreq);
    DeepOne(t); DeepOne(parent);
    NodesAppend([child], parent.kids);
    HeapAppend([child], parent.kids, prioreq);
    DeepAppend([child], parent.kids);
    MarksOne(t); MarksOne(parent);
    MarksAppend([child], parent.kids);
  }
}
