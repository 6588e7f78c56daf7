/** Linked heap nodes and the forests their links represent. */
module FibLinks {
  import opened FibTree

  class Node {
    var siblings: Node?
    var children: Node?
    var mark: bool
    var degree: nat
    constructor ()
      ensures siblings == null && children == null && !mark && degree == 0
    {
      siblings, children, mark, degree := null, null, false, 0;
    }
  }

  /** The place a link is stored. */
  datatype Slot = Roots | Children(owner: Node) | Siblings(owner: Node)

  /** Priorities: any total preorder of finitely many nodes is given by a rank,
      lower ranks being prior. */
  function Prioreq(rank: Node -> int): (Node, Node) -> bool {
    (x: Node, y: Node) => rank(x) <= rank(y)
  }

  /** The chain from `head` represents the forest `ts` and goes on to `end`. */
  ghost predicate Seg(head: Node?, ts: seq<Tree<Node>>, end: Node?)
    reads Nodes(ts)
  {
    if ts == [] then head == end
    else
      head == ts[0].elem && head.mark == ts[0].mark && head.degree == |ts[0].kids| &&
      Seg(head.children, ts[0].kids, null) && Seg(head.siblings, ts[1..], end)
  }

  /** The node of a tree and what hangs below it, wherever its sibling link goes. */
  ghost predicate RepTree(t: Tree<Node>)
    reads t.elem, Nodes(t.kids)
  {
    t.elem.mark == t.mark && t.elem.degree == |t.kids| && Seg(t.elem.children, t.kids, null)
  }

  ghost predicate RepAll(ts: seq<Tree<Node>>)
    reads Nodes(ts)
  {
    ts == [] || (RepTree(ts[0]) && RepAll(ts[1..]))
  }

  lemma {:induction false} SegAppend(head: Node?, ts: seq<Tree<Node>>, mid: Node?, us: seq<Tree<Node>>, end: Node?)
    requires Seg(head, ts, mid) && Seg(mid, us, end)
    ensures Seg(head, ts + us, end)
  {
    if ts == [] {
      assert ts + us == us;
    } else {
      assert (ts + us)[1..] == ts[1..] + us;
      SegAppend(head.siblings, ts[1..], mid, us, end);
    }
  }

  lemma {:induction false} SegSplit(head: Node?, ts: seq<Tree<Node>>, us: seq<Tree<Node>>, end: Node?)
      returns (mid: Node?)
    requires Seg(head, ts + us, end)
    ensures Seg(head, ts, mid) && Seg(mid, us, end)
  {
    if ts == [] {
      assert ts + us == us;
      mid := head;
    } else {
      assert (ts + us)[1..] == ts[1..] + us;
      mid := SegSplit(head.siblings, ts[1..], us, end);
    }
  }

  lemma SegOne(t: Tree<Node>, end: Node?)
    ensures Seg(t.elem, [t], end) <==> RepTree(t) && t.elem.siblings == end
  {
    assert [t][1..] == [];
  }

  ghost predicate Good(ts: seq<Tree<Node>>, rank: Node -> int) {
    Distinct(ts) && HeapOrdered(ts, Prioreq(rank)) && Deep(ts)
  }

  lemma GoodIsDistinct(ts: seq<Tree<Node>>, rank: Node -> int)
    requires Good(ts, rank)
    ensures Distinct(ts)
  {}

  lemma GoodAppend(ts: seq<Tree<Node>>, us: seq<Tree<Node>>, rank: Node -> int)
    ensures Good(ts + us, rank) <==> Good(ts, rank) && Good(us, rank) && Nodes(ts) !! Nodes(us)
    ensures Nodes(ts + us) == Nodes(ts) + Nodes(us) && Size(ts + us) == Size(ts) + Size(us)
    ensures Marks(ts + us) == Marks(ts) + Marks(us)
  {
    MarksAppend(ts, us);
    NodesAppend(ts, us);
    DistinctAppend(ts, us);
    HeapAppend(ts, us, Prioreq(rank));
    DeepAppend(ts, us);
  }

  function Last(ts: seq<Tree<Node>>): Node
    requires ts != []
  {
    ts[|ts| - 1].elem
  }

  function TailSlot(ts: seq<Tree<Node>>): Slot {
    if ts == [] then Roots else Siblings(Last(ts))
  }

  /** A chain is all but its last node, and its last node. */
  lemma TakeLast(head: Node?, ts: seq<Tree<Node>>, front: seq<Tree<Node>>, t: Tree<Node>, end: Node?)
    requires ts == front + [t] && Seg(head, ts, end)
    ensures Seg(head, front, t.elem) && RepTree(t) && t.elem.siblings == end
  {
    var m := SegSplit(head, front, [t], end);
    SegOne(t, end);
  }

  lemma PutLast(head: Node?, front: seq<Tree<Node>>, t: Tree<Node>, mid: Node?)
    requires Seg(head, front, t.elem) && RepTree(t) && t.elem.siblings == mid
    ensures Seg(head, front + [t], mid)
  {
    SegOne(t, mid);
    SegAppend(head, front, t.elem, [t], mid);
  }

  /** Overwriting the last sibling link of a chain turns it to another end. */
  method RelinkLast(last: Node, mid: Node?, ghost head: Node?, ghost ts: seq<Tree<Node>>, ghost end: Node?,
      ghost us: seq<Tree<Node>>, ghost others: set<Node>)
    requires ts != [] && last == Last(ts) && Distinct(ts) && last !in Nodes(us) + others
    requires Seg(head, ts, end) && Seg(mid, us, null)
    modifies last`siblings
    ensures Seg(head, ts, mid) && Seg(mid, us, null) && unchanged(others)
  {
    hide Size, Nodes, Distinct;
    ghost var front, t := ts[..|ts| - 1], ts[|ts| - 1];
    assert ts == front + [t];
    TakeLast(head, ts, front, t, end);
    LastApart(ts, front, t);
    last.siblings := mid;
    PutLast(head, front, t, mid);
  }

  lemma LastApart(ts: seq<Tree<Node>>, front: seq<Tree<Node>>, t: Tree<Node>)
    requires ts == front + [t] && Distinct(ts)
    ensures t.elem !in Nodes(front) && t.elem !in Nodes(t.kids)
  {
    NodesAppend(front, [t]);
    DistinctAppend(front, [t]);
    NodesOne(t);
  }
}
