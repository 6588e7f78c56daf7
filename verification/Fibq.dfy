/** The queue-optimised Fibonacci heap.

    Roots and children are singly linked over `siblings`; the queue keeps the slot
    holding the last link of its root chain. */
module Fibq {
  import opened FibTree
  import opened FibFilter
  import opened FibStay
  import opened FibLinks
  import opened FibMarks
  import opened FibPairing

  // ------------------------------------------------------------------ the queue

  /** The first root is prior to every root. */
  ghost predicate MinFirst(forest: seq<Tree<Node>>, rank: Node -> int) {
    forall i :: 0 <= i < |forest| ==> rank(forest[0].elem) <= rank(forest[i].elem)
  }

  /** Below a root that is prior to the roots everything is less prior. */
  lemma {:induction false} RootPrior(x: Node, ts: seq<Tree<Node>>, rank: Node -> int)
    requires HeapOrdered(ts, Prioreq(rank))
    requires forall i :: 0 <= i < |ts| ==> rank(x) <= rank(ts[i].elem)
    ensures forall y :: y in Nodes(ts) ==> rank(x) <= rank(y)
  {
    if ts != [] {
      forall i | 0 <= i < |ts[0].kids| ensures rank(x) <= rank(ts[0].kids[i].elem) {
        assert Prioreq(rank)(ts[0].elem, ts[0].kids[i].elem);
      }
      RootPrior(x, ts[0].kids, rank);
      RootPrior(x, ts[1..], rank);
    }
  }

  /** One chain behind another. */
  lemma JoinedFacts(f: seq<Tree<Node>>, g: seq<Tree<Node>>, rank: Node -> int)
    ensures Nodes(f + g) == Nodes(f) + Nodes(g) && Size(f + g) == Size(f) + Size(g)
    ensures Marks(f + g) == Marks(f) + Marks(g)
    ensures |f| == 1 ==> MinFirst(f, rank)
    ensures MinFirst(f, rank) && MinFirst(g, rank) && (f == [] || g == [] || rank(f[0].elem) <= rank(g[0].elem)) ==>
              MinFirst(f + g, rank)
    ensures f == [] <==> Size(f) == 0
  {
    GoodAppend(f, g, rank);
    if f == [] {
      assert f + g == g;
    }
  }

  lemma RankedIsGood(rank: Node -> int, mt: Tree<Node>, acc: seq<Tree<Node>>, k: nat)
    requires Ranked(rank, mt, acc, k)
    ensures Good([mt] + acc, rank) && MinFirst([mt] + acc, rank)
    ensures forall i, j :: 0 <= i < j < |[mt] + acc| ==> |([mt] + acc)[i].kids| != |([mt] + acc)[j].kids|
  {
    forall i, j | 0 <= i < j < |[mt] + acc| ensures |([mt] + acc)[i].kids| != |([mt] + acc)[j].kids| {
      assert ([mt] + acc)[j] == acc[j - 1];
      if i > 0 { assert ([mt] + acc)[i] == acc[i - 1]; }
    }
  }

  /** The marks once all roots but the first have dropped theirs. */
  ghost function MarksPaired(ts: seq<Tree<Node>>): nat {
    if ts == [] then 0 else Marks([ts[0]]) + Marks(Unmarked(ts[1..]))
  }

  lemma FewerMarks(ts: seq<Tree<Node>>)
    ensures MarksPaired(ts) <= Marks(ts)
  {
    if ts != [] {
      MarksUnmarked(ts[1..]);
      MarksAppend([ts[0]], ts[1..]);
      assert ts == [ts[0]] + ts[1..];
    }
  }

  lemma LastIn(ts: seq<Tree<Node>>)
    requires ts != []
    ensures Last(ts) in Nodes(ts)
  {
    MemberNodes(ts, ts[|ts| - 1]);
  }

  lemma Leaf(t: Tree<Node>, rank: Node -> int)
    requires t.kids == []
    ensures Good([t], rank) && Nodes([t]) == {t.elem} && Size([t]) == 1
  {
    assert [t][1..] == [];
  }

  class Fibq {
    const rank: Node -> int
    var card: nat
    var roots: Node?
    var rootTail: Slot
    ghost var forest: seq<Tree<Node>>
    /** The accepted nodes that filters have cut out of their chain so far. */
    ghost var cut: nat
    /** The nodes that filters have rejected so far. */
    ghost var rejected: nat

    /** The links represent `forest`; `rootTail` is its last link. */
    ghost predicate Represents()
      reads this, Nodes(forest)
    {
      Seg(roots, forest, null) && Good(forest, rank) && rootTail == TailSlot(forest)
    }

    /** Each cut and each mark goes back to a rejected node of its own. */
    ghost predicate Valid()
      reads this, Nodes(forest)
    {
      Represents() && card == Size(forest) && MinFirst(forest, rank) && cut + Marks(forest) <= rejected
    }

    ghost function Content(): set<Node>
      reads this
    {
      Nodes(forest)
    }

    constructor (rank: Node -> int)
      ensures Valid() && Content() == {} && this.rank == rank && cut == rejected == 0
    {
      this.rank := rank;
      card, roots, rootTail, forest := 0, null, Roots, [];
      cut, rejected := 0, 0;
    }

    /** The queue of one tree of linked nodes. */
    constructor OfTree(rank: Node -> int, root: Node, card: nat, ghost t: Tree<Node>)
      requires Seg(root, [t], null) && Good([t], rank) && card == Size([t]) && Marks([t]) == 0
      ensures Valid() && this.rank == rank && this.card == card && forest == [t]
    {
      this.rank := rank;
      this.card, roots, rootTail, forest := card, root, Siblings(root), [t];
      cut, rejected := 0, 0;
    }

    /** `*Q->root_tail = x`, appending the chain `us` to the roots. */
    method SetTail(x: Node?, ghost us: seq<Tree<Node>>)
      requires Represents() && Seg(x, us, null) && Good(us, rank) && Nodes(forest) !! Nodes(us)
      modifies `roots, Nodes(forest)
      ensures Seg(roots, forest + us, null) && Good(forest + us, rank)
      ensures forest != [] ==> roots == old(roots)
    {
      hide Good, Size, Marks;
      GoodAppend(forest, us, rank);
      GoodIsDistinct(forest, rank);
      match rootTail {
        case Roots =>
          roots := x;
          assert forest + us == us;
        case Siblings(last) =>
          LastIn(forest);
          RelinkLast(last, x, roots, forest, null, us, {});
          SegAppend(roots, forest, x, us, null);
        case Children(_) => assert false;
      }
    }

    method PushFront(node: Node, ghost t: Tree<Node>)
      requires Represents() && roots != null && t == Tree(node, false, []) && RepTree(t) && node !in Content()
      modifies `roots, `forest, node`siblings
      ensures Represents() && forest == [t] + old(forest) && roots == node
    {
      node.siblings := roots;
      roots := node;
      Leaf(t, rank);
      GoodAppend([t], forest, rank);
      forest := [t] + forest;
      assert forest[1..] == old(forest);
    }

    method PushBack(node: Node, ghost t: Tree<Node>)
      requires Represents() && t == Tree(node, false, []) && RepTree(t) && node !in Content()
      modifies `roots, `rootTail, `forest, node`siblings, Content()
      ensures Represents() && forest == old(forest) + [t] && rootTail == Siblings(node)
      ensures roots == if old(roots) == null then node else old(roots)
    {
      hide Good;
      node.siblings := null;
      Leaf(t, rank);
      SegOne(t, null);
      SetTail(node, [t]);
      SegHead(roots, forest + [t]);
      assert forest == [] ==> (forest + [t])[0] == t;
      rootTail := Siblings(node);
      forest := forest + [t];
    }

    /** Inserts a node, in front if it is prior to the front. */
    method Insert(node: Node)
      requires Valid() && node !in Content()
      modifies this, node, Content()
      ensures Valid() && Content() == old(Content()) + {node}
      ensures card == old(card) + 1 && cut == old(cut) && rejected == old(rejected)
      ensures forest == if old(forest) != [] && rank(node) <= rank(old(forest[0].elem))
                        then [Tree(node, false, [])] + old(forest) else old(forest) + [Tree(node, false, [])]
      ensures roots == if old(forest) != [] && rank(node) > rank(old(forest[0].elem)) then old(roots) else node
    {
      hide Good, Size, Marks, Nodes, Seg, MinFirst;
      ghost var t := Tree(node, false, []);
      SegHead(roots, forest);
      Leaf(t, rank);
      MarksOne(t);
      JoinedFacts([t], forest, rank);
      JoinedFacts(forest, [t], rank);
      Reset(node);
      if roots != null && Prioreq(rank)(node, roots) {
        PushFront(node, t);
      } else {
        PushBack(node, t);
      }
      card := card + 1;
    }

    method Reset(node: Node)
      requires Represents() && node !in Content()
      modifies node
      ensures Represents() && RepTree(Tree(node, false, []))
    {
      node.children := null;
      node.mark := false;
      node.degree := 0;
    }

    /** Links the chain of another queue after the roots. */
    method TakeAfter(other: Fibq)
      requires Represents() && other.Represents() && other != this && other.rank == rank
      requires forest != [] && other.forest != [] && Content() !! other.Content()
      modifies `roots, `rootTail, `forest, Content()
      ensures Represents() && forest == old(forest) + other.forest && roots == old(roots)
    {
      hide Good;
      ghost var both := forest + other.forest;
      SetTail(other.roots, other.forest);
      assert forall n :: n in Nodes(both) ==> n as object != this;
      assert both[|both| - 1] == other.forest[|other.forest| - 1];
      rootTail := other.rootTail;
      forest := both;
    }

    /** Moves the content of another queue to the end of this one, or in front of it if
        its front is prior; the other queue is destructed. The source compares the two
        fronts before anything else, so with an empty queue it goes on to access a node
        that is not there; here the result says so. */
    method UnionD(other: Fibq) returns (defined: bool)
      requires Valid() && other.Valid() && other != this && other.rank == rank && Content() !! other.Content()
      modifies this, other, Content(), other.Content()
      ensures defined <==> old(Content()) != {} && old(other.Content()) != {}
      ensures defined ==>
                && Valid() && Content() == old(Content()) + old(other.Content()) && card == old(card) + old(other.card)
                && cut == old(cut) + old(other.cut) && rejected == old(rejected) + old(other.rejected)
                && forest == if old(rank(roots)) <= old(rank(other.roots)) then old(forest) + old(other.forest)
                             else old(other.forest) + old(forest)
    {
      NoContent(forest);
      NoContent(other.forest);
      SegHead(roots, forest);
      SegHead(other.roots, other.forest);
      if roots == null || other.roots == null {
        return false;
      }
      Join(other);
      return true;
    }

    /** The union of two queues that are not empty. */
    method Join(other: Fibq)
      requires Valid() && other.Valid() && other != this && other.rank == rank
      requires roots != null && other.roots != null && Content() !! other.Content()
      modifies this, other, Content(), other.Content()
      ensures Valid() && Content() == old(Content()) + old(other.Content())
      ensures card == old(card) + old(other.card)
      ensures cut == old(cut) + old(other.cut) && rejected == old(rejected) + old(other.rejected)
      ensures forest == if old(rank(roots)) <= old(rank(other.roots)) then old(forest) + old(other.forest)
                        else old(other.forest) + old(forest)
    {
      hide Good, Size, Marks, Nodes, Seg, MinFirst;
      ghost var f, g := forest, other.forest;
      SegHead(roots, forest);
      SegHead(other.roots, other.forest);
      JoinedFacts(f, g, rank);
      JoinedFacts(g, f, rank);
      if Prioreq(rank)(roots, other.roots) {
        TakeAfter(other);
      } else {
        TakeBefore(other);
      }
      AddCounts(other);
      other.Wipe(this);
    }

    /** Links the roots after the chain of another queue. */
    method TakeBefore(other: Fibq)
      requires Represents() && other.Represents() && other != this && other.rank == rank
      requires forest != [] && other.forest != [] && Content() !! other.Content()
      modifies `roots, `forest, other`roots, other`rootTail, other`forest, other.Content()
      ensures Represents() && forest == old(other.forest) + old(forest)
    {
      hide Good;
      ghost var both := other.forest + forest;
      other.TakeAfter(this);
      assert both[|both| - 1] == forest[|forest| - 1];
      assert forall n :: n in Nodes(both) ==> n as object != this;
      roots := other.roots;
      forest := both;
    }

    method AddCounts(other: Fibq)
      requires Represents() && other != this
      modifies `card, `cut, `rejected
      ensures Represents() && card == old(card) + other.card
      ensures cut == old(cut) + other.cut && rejected == old(rejected) + other.rejected
    {
      assert forall n :: n in Content() ==> n as object != this;
      card := card + other.card;
      cut, rejected := cut + other.cut, rejected + other.rejected;
    }

    /** Clears the links of a queue whose nodes have gone to another one. */
    method Wipe(ghost heir: Fibq)
      requires heir != this && heir.Valid()
      modifies `roots, `rootTail, `forest
      ensures heir.Valid() && roots == null && rootTail == Roots && forest == []
    {
      assert forall n :: n in heir.Content() ==> n as object != this;
      roots := null;
      rootTail := Roots;
      forest := [];
    }

    /** Pairs up the roots and puts the most prior first. The source takes the first root
        for granted and uses its degree as an index: without a root, or with an array that
        has no place for it, the first result is false and nothing has been done. The
        second result tells whether each root that takes a child is unmarked. */
    method UpdateMin() returns (defined: bool, held: bool)
      requires Seg(roots, forest, null) && Good(forest, rank) && Size(forest) <= card
      modifies `roots, `rootTail, `forest, Content()
      ensures defined <==> old(forest) != [] && card >= 2
      ensures defined ==>
                && Represents() && MinFirst(forest, rank) && forest != []
                && Nodes(forest) == old(Nodes(forest)) && Size(forest) == old(Size(forest))
                && forall i, j :: 0 <= i < j < |forest| ==> |forest[i].kids| != |forest[j].kids|
      ensures defined ==> held == WinnersUnmarked(RootsOf(rank, old(forest)))
      ensures defined ==> Marks(forest) == old(MarksPaired(forest))
      ensures defined && |old(forest)| == 1 ==> forest == old(forest)
    {
      hide Trees, Unmarked, RootsOf, Ranked, Indexed, RepAll, Good, Size, Marks, Nodes, Seg, WinnersUnmarked;
      SegHead(roots, forest);
      if roots == null {
        return false, true;
      }
      FirstDegree(forest, card, rank);
      if roots.degree >= MaxDegree(card) {
        return false, true;
      }
      var nbd;
      ghost var table;
      nbd, held, table := PairRoots(rank, roots, forest, card);
      var minRoot, tail, mt, acc := CollectRoots(rank, nbd, table);
      RankedIsGood(rank, mt, acc, nbd.Length);
      TreesMarks([mt] + acc, table);
      TreesOne([mt] + acc, table);
      forest := [mt] + acc;
      roots := minRoot;
      rootTail := Siblings(tail);
      defined := true;
    }

    /** Two nodes: what is left when the front goes. */
    method PopOfTwo(popNode: Node, ghost t: Tree<Node>, ghost rest: seq<Tree<Node>>)
      requires Represents() && roots == popNode && Size(forest) == 2 && forest == [t] + rest
      modifies `roots, `rootTail, `forest, Content()
      ensures Represents() && Size(forest) == 1 && |forest| == 1 && Content() == old(Content()) - {popNode}
      ensures Marks(forest) <= old(Marks(forest))
    {
      hide HeapOrdered, Deep, Distinct;
      ShapeOfTwo(t, rest, rank);
      MarksAppend([t], rest);
      assert forest[1..] == rest && RepTree(t);
      SegHead(popNode.siblings, rest);
      SegHead(popNode.children, t.kids);
      if popNode.siblings != null {
        roots := popNode.siblings;
        forest := rest;
      } else {
        ghost var k := t.kids[0].(mark := false);
        assert t.kids == [t.kids[0]];
        roots := popNode.children;
        roots.mark := false;
        rootTail := Siblings(roots);
        forest := [k];
        MarksOne(k);
        SegOne(k, null);
      }
    }

    /** `*root_tail = pop_node->children`: the children join the other roots. */
    method SpliceChildren(popNode: Node, ghost t: Tree<Node>, ghost rest: seq<Tree<Node>>)
      requires Represents() && roots == popNode && forest == [t] + rest
      modifies Content()
      ensures Seg(popNode.siblings, rest + t.kids, null) && Good(rest + t.kids, rank)
      ensures Nodes(rest + t.kids) == old(Content()) - {popNode} && Size(rest + t.kids) == Size(forest) - 1
    {
      hide HeapOrdered, Deep, Distinct;
      ChildrenAsRoots(t, rest, rank);
      assert forest[1..] == rest && RepTree(t);
      SegHead(popNode.siblings, rest);
      SegHead(popNode.children, t.kids);
      LastIn(forest);
      if popNode.children != null {
        match rootTail {
          case Siblings(last) =>
            LinkTail(last, popNode, t, rest);
          case _ => assert false;
        }
      } else {
        assert t.kids == [] && rest + t.kids == rest;
      }
    }

    /** More than two nodes: the roots and the children of the front are paired up. */
    method PopOfMany(popNode: Node, ghost t: Tree<Node>, ghost rest: seq<Tree<Node>>) returns (held: bool)
      requires Represents() && roots == popNode && card == Size(forest) > 2 && forest == [t] + rest
      modifies `roots, `rootTail, `forest, Content()
      ensures Represents() && MinFirst(forest, rank)
      ensures Content() == old(Content()) - {popNode} && Size(forest) == card - 1
      ensures held == WinnersUnmarked(RootsOf(rank, rest + t.kids))
      ensures Marks(forest) == MarksPaired(rest + t.kids) <= old(Marks(forest)) && popNode.children == null
    {
      hide Good, Size, Marks, Nodes, Seg, WinnersUnmarked, RootsOf;
      SegHead(roots, forest);
      FrontIn(t, rest);
      SpliceChildren(popNode, t, rest);
      ghost var f := rest + t.kids;
      NonEmpty(f);
      FewerMarks(f);
      MarksAppend(rest, t.kids);
      MarksAppend([t], rest);
      MarksOne(t);
      if popNode.children != null {
        ClearChildren(popNode, popNode.siblings, f);
      }
      roots := popNode.siblings;
      forest := f;
      var defined;
      defined, held := UpdateMin();
      assert defined;
    }

    /** Removes and returns the front, a node prior to every other. Tells whether each root
        that takes a child is unmarked. */
    method PopFront() returns (popNode: Node?, held: bool)
      requires Valid()
      modifies this, Content()
      ensures Valid()
      ensures old(card) == 0 ==> popNode == null && Content() == old(Content())
      ensures old(card) > 0 ==>
        && popNode != null && popNode in old(Content())
        && Content() == old(Content()) - {popNode} && card == old(card) - 1
        && forall x :: x in old(Content()) ==> rank(popNode) <= rank(x)
      ensures held == (old(card <= 2) || WinnersUnmarked(old(RootsOf(rank, forest[1..] + forest[0].kids))))
      ensures cut == old(cut) && rejected == old(rejected) && Marks(forest) <= old(Marks(forest))
      ensures old(card) > 2 ==>
                popNode.children == null && Marks(forest) == old(MarksPaired(forest[1..] + forest[0].kids))
    {
      hide Good, Size, Marks, Nodes, Seg, WinnersUnmarked, RootsOf;
      held := true;
      popNode := roots;
      SegHead(roots, forest);
      NonEmpty(forest);
      if card == 0 {
        return;
      }
      FrontPrior(forest, rank);
      ghost var t, rest := forest[0], forest[1..];
      assert forest == [t] + rest;
      if card == 1 {
        OneNode(t, rest);
        card := 0;
        roots := null;
        rootTail := Roots;
        forest := [];
        EmptyTable(rank, []);
        NoMarks();
      } else if card == 2 {
        PopOfTwo(popNode, t, rest);
        card := 1;
      } else {
        held := PopOfMany(popNode, t, rest);
        card := card - 1;
      }
    }

    // --------------------------------------------------------------- filtering

    /** Appends one detached node with its children to the roots. */
    method PushTree(node: Node, ghost t: Tree<Node>, ghost others: set<Node>)
      requires others !! Content() + {node}
      requires Represents() && t.elem == node && RepTree(t) && Good([t], rank) && Nodes([t]) !! Content()
      modifies `roots, `rootTail, `forest, node`siblings, Content()
      ensures Represents() && forest == old(forest) + [t] && RepTree(t) && unchanged(others)
    {
      hide Good;
      assert forall n :: n in others ==> n as object != this;
      ghost var both := forest + [t];
      Detach(node, t);
      GoodAppend(forest, [t], rank);
      SetTail(node, [t]);
      FinishPush(both, Siblings(node), [t]);
      TreeIn(roots, old(forest), t);
    }

    method Detach(node: Node, ghost t: Tree<Node>)
      requires Represents() && t.elem == node && RepTree(t) && Good([t], rank) && Nodes([t]) !! Content()
      modifies node`siblings
      ensures Represents() && RepTree(t) && Seg(node, [t], null)
    {
      hide Good;
      GoodApart(t, rank);
      NodesOne(t);
      node.siblings := null;
      SegOne(t, null);
    }

    /** Appends a chain to the roots and clears its marks. */
    method PushChain(head: Node, tail: Slot, ghost ts: seq<Tree<Node>>, ghost others: set<Node>)
      requires others !! Content() + Nodes(ts)
      requires Represents() && ts != [] && Seg(head, ts, null) && Good(ts, rank) && Nodes(ts) !! Content()
      requires tail == TailSlot(ts)
      modifies `roots, `rootTail, `forest, Content(), Nodes(ts)
      ensures Represents() && forest == old(forest) + Unmarked(ts) && unchanged(others)
    {
      hide Good, Seg;
      assert forall n :: n in others ==> n as object != this;
      ghost var both, us := forest + Unmarked(ts), Unmarked(ts);
      UnmarkedGood(ts, rank);
      GoodAppend(forest, us, rank);
      GoodIsDistinct(ts, rank);
      SetTailEnd(head, ts);
      UnmarkChain(head, ts, roots, forest);
      SegAppend(roots, forest, head, us, null);
      FinishPush(both, tail, us);
    }

    method SetTailEnd(x: Node?, ghost us: seq<Tree<Node>>)
      requires Represents() && Seg(x, us, null) && Good(us, rank) && Nodes(forest) !! Nodes(us)
      modifies `roots, Nodes(forest)
      ensures Seg(roots, forest, x) && Seg(x, us, null)
      ensures forest != [] ==> roots == old(roots)
    {
      hide Good, Size, Marks;
      GoodAppend(forest, us, rank);
      GoodIsDistinct(forest, rank);
      match rootTail {
        case Roots =>
          roots := x;
        case Siblings(last) =>
          LastIn(forest);
          RelinkLast(last, x, roots, forest, null, us, {});
        case Children(_) => assert false;
      }
    }

    method FinishPush(ghost both: seq<Tree<Node>>, tail: Slot, ghost us: seq<Tree<Node>>)
      requires Seg(roots, both, null) && Good(both, rank) && us != [] && both == forest + us && tail == TailSlot(us)
      modifies `rootTail, `forest
      ensures Represents() && forest == both
    {
      assert forall n :: n in Nodes(both) ==> n as object != this;
      assert both[|both| - 1] == us[|us| - 1];
      rootTail := tail;
      forest := both;
    }

    /** `*node_ptr = x`: the chain filtered so far goes on to `x`. */
    method SetSlot(slot: Slot, x: Node?, owner: Node, ghost kept: seq<Tree<Node>>, ghost node: Node,
        ghost rest: seq<Tree<Node>>)
      requires Represents() && Hanging(owner, slot, kept, node) && Seg(x, rest, null) && Distinct(kept)
      requires Separate(Content(), owner, Nodes(kept), Nodes(rest), {})
      modifies owner`children, Nodes(kept)
      ensures Represents() && Hanging(owner, slot, kept, x) && Seg(x, rest, null)
    {
      hide Good, Size, Marks, Nodes, Unmarked, Distinct;
      match slot {
        case Children(o) =>
          o.children := x;
        case Siblings(last) =>
          LastIn(kept);
          RelinkLast(last, x, owner.children, kept, node, rest, Content());
        case Roots => assert false;
      }
    }

    /** The children of a node join the roots. */
    method PushKids(node: Node, tail: Slot, ghost kids: seq<Tree<Node>>, ghost others: set<Node>)
      requires Represents() && Hanging(node, tail, kids, null) && Good(kids, rank) && Nodes(kids) !! Content()
      requires others !! Content() + Nodes(kids) && node !in Content() + Nodes(kids)
      modifies `roots, `rootTail, `forest, Content(), Nodes(kids)
      ensures Represents() && forest == old(forest) + Unmarked(kids) && unchanged(others)
    {
      hide Good, Distinct;
      if node.children != null {
        PushChain(node.children, tail, kids, others);
      } else {
        SegHead(node.children, kids);
        assert Unmarked(kids) == [];
      }
    }

    /** Rejects a node of a chain: its children join the roots. */
    method RejectNode(owner: Node, slot: Slot, node: Node, tail: Slot, next: Node?, ghost kept: seq<Tree<Node>>,
        ghost kids: seq<Tree<Node>>, ghost rest: seq<Tree<Node>>)
      requires Represents() && Hanging(owner, slot, kept, node) && Distinct(kept) && Seg(next, rest, null)
      requires Hanging(node, tail, kids, null) && Good(kids, rank) && Nodes(kids) !! Content()
      requires Separate(Content(), owner, Nodes(kept), Nodes(rest), {})
      requires Nodes(kids) !! Nodes(kept) + Nodes(rest) + {owner, node}
      requires node !in Nodes(kept) + Nodes(rest) + Content() && card > 0
      modifies `roots, `rootTail, `forest, `card, Content(), Nodes(kept), Nodes(kids), owner`children
      ensures Represents() && forest == old(forest) + Unmarked(kids) && card == old(card) - 1
      ensures Hanging(owner, slot, kept, next) && Seg(next, rest, null)
    {
      hide Good, Distinct, Nodes, Unmarked, Size, Marks;
      UnmarkedGood(kids, rank);
      PushKids(node, tail, kids, {owner} + Nodes(kept) + Nodes(rest));
      NodesAppend(old(forest), Unmarked(kids));
      SetSlot(slot, next, owner, kept, node, rest);
      card := card - 1;
    }

    method LoseChildren(node: Node, rm: nat, mark: bool, ghost head: Node?, ghost kept: seq<Tree<Node>>,
        ghost kids: seq<Tree<Node>>, ghost next: Node?, ghost rest: seq<Tree<Node>>)
      requires Represents() && Seg(head, kept, node) && Seg(node.children, kids, null) && Seg(next, rest, null)
      requires node !in Content() && node !in Nodes(kept) && node !in Nodes(kids) && node !in Nodes(rest)
      requires node.degree == |kids| + rm
      modifies node`degree, node`mark
      ensures Represents() && Seg(head, kept, node) && Seg(node.children, kids, null) && Seg(next, rest, null)
      ensures node.degree == |kids| && node.mark == mark
    {
      node.degree := node.degree - rm;
      node.mark := mark;
    }

    /** Moves a node of a chain with its children to the roots. */
    method MoveNode(owner: Node, slot: Slot, node: Node, rm: nat, next: Node?, ghost kept: seq<Tree<Node>>,
        ghost kids: seq<Tree<Node>>, ghost rest: seq<Tree<Node>>)
      requires Represents() && Hanging(owner, slot, kept, node) && Distinct(kept) && Seg(next, rest, null)
      requires Seg(node.children, kids, null) && node.degree == |kids| + rm && Good([Tree(node, false, kids)], rank)
      requires Nodes(kids) + {node} !! Content() + Nodes(kept) + Nodes(rest) + {owner} && node !in Nodes(kids)
      requires Separate(Content(), owner, Nodes(kept), Nodes(rest), {})
      modifies `roots, `rootTail, `forest, Content(), Nodes(kept), node, owner`children
      ensures Represents() && forest == old(forest) + [Tree(node, false, kids)]
      ensures Hanging(owner, slot, kept, next) && Seg(next, rest, null)
    {
      hide Good, Distinct, Nodes, Unmarked, Size, Marks;
      ghost var t := Tree(node, false, kids);
      NodesOne(t);
      LoseChildren(node, rm, false, owner.children, kept, kids, next, rest);
      PushTree(node, t, {owner} + Nodes(kept) + Nodes(rest));
      NodesAppend(old(forest), [t]);
      SetSlot(slot, next, owner, kept, node, rest);
    }

    /** Keeps a node in its chain; losing a child marks it. */
    method KeepNode(owner: Node, node: Node, rm: nat, ghost kept: seq<Tree<Node>>, ghost t: Tree<Node>,
        ghost kids: seq<Tree<Node>>, ghost rest: seq<Tree<Node>>)
      requires Represents() && Seg(owner.children, kept, node) && Seg(node.siblings, rest, null)
      requires Seg(node.children, kids, null) && node.degree == |kids| + rm && node == t.elem && node.mark == t.mark
      requires Nodes(kids) !! {node} && node !in Content() + Nodes(kept) + Nodes(rest) + {owner}
      modifies node`mark, node`degree
      ensures Represents() && node.siblings == old(node.siblings) && Seg(node.siblings, rest, null)
      ensures Hanging(owner, Siblings(node), kept + [Tree(node, t.mark || rm > 0, kids)], node.siblings)
    {
      hide Good, Distinct, Nodes, Unmarked, Size, Marks;
      if rm > 0 {
        LoseChildren(node, rm, true, owner.children, kept, kids, node.siblings, rest);
      }
      PutLast(owner.children, kept, Tree(node, t.mark || rm > 0, kids), node.siblings);
    }

    /** Filters the children of a node inside a chain. */
    method FilterBelow(f: Node -> bool, owner: Node, slot: Slot, node: Node, ghost kept: seq<Tree<Node>>,
        ghost t: Tree<Node>, ghost rest: seq<Tree<Node>>, ghost others: set<Node>)
        returns (rm: nat, tail: Slot)
      requires Represents() && Hanging(owner, slot, kept, node) && Good([t] + rest, rank)
      requires Seg(node, [t] + rest, null) && Separate(Content(), owner, Nodes(kept), Nodes([t] + rest), others)
      requires card >= Size([t])
      modifies `roots, `rootTail, `forest, `card, Content(), Nodes(t.kids), node`children
      ensures var sub := FilterKids(t.kids, f);
              && Represents() && forest == old(forest) + sub.moved
              && Hanging(node, tail, sub.kept, null) && rm == |t.kids| - |sub.kept|
              && card - Size(sub.kept) - Size(sub.moved) == old(card) - Size(t.kids)
              && Separate(Content() + Nodes(kept) + Nodes(rest) + others + {owner}, node, Nodes(sub.kept), {}, {})
              && Content() == old(Content()) + Nodes(sub.moved)
      ensures node == t.elem && node.mark == t.mark && node.degree == |t.kids|
      ensures Hanging(owner, slot, kept, node) && Seg(node.siblings, rest, null)
      ensures Separate(Content(), owner, Nodes(kept), Nodes(rest), others)
      ensures unchanged(others)
      decreases Size([t]), 0
    {
      hide Good, Size, Marks, Nodes, FilterKids, Distinct, Separate;
      FilterOneFacts(t, rest, f, rank);
      ghost var sub := FilterKids(t.kids, f);
      SeparateBelow(Content(), owner, Nodes(kept), node, Nodes(t.kids), Nodes(rest), others, Nodes(sub.kept),
        Nodes(sub.moved));
      rm, tail := FilterChain(f, node, t.kids, others + Nodes(kept) + Nodes(rest) + {owner});
      GoodAppend(old(forest), sub.moved, rank);
    }

    /** One round of filtering a chain of children, with the children of the node. */
    method FilterNode(f: Node -> bool, owner: Node, slot: Slot, node: Node, ghost kept: seq<Tree<Node>>,
        ghost t: Tree<Node>, ghost rest: seq<Tree<Node>>, ghost others: set<Node>)
        returns (dropped: bool, slot': Slot, next: Node?)
      requires Represents() && Hanging(owner, slot, kept, node) && Distinct(kept) && Good([t] + rest, rank)
      requires Seg(node, [t] + rest, null) && Separate(Content(), owner, Nodes(kept), Nodes([t] + rest), others)
      requires card >= Size([t]) && node == t.elem
      modifies `roots, `rootTail, `forest, `card, Content(), Nodes(kept), Nodes([t]), owner`children
      ensures Represents() && forest == old(forest) + FilterKids([t], f).moved
      ensures Content() == old(Content()) + Nodes(FilterKids([t], f).moved)
      ensures Hanging(owner, slot', kept + FilterKids([t], f).kept, next) && Seg(next, rest, null)
      ensures dropped <==> FilterKids([t], f).kept == []
      ensures card - Size(FilterKids([t], f).kept) - Size(FilterKids([t], f).moved) == old(card) - Size([t])
      ensures unchanged(others)
      decreases Size([t]), 1
    {
      hide Good, Size, Marks, Nodes, FilterKids, Distinct, Seg, Hanging, Separate, FilterOne;
      FilterOneFacts(t, rest, f, rank);
      ghost var sub := FilterKids(t.kids, f);
      var rm, tail := FilterBelow(f, owner, slot, node, kept, t, rest, others);
      FilterOneSize(t, f(node), sub);
      dropped, slot', next := PlaceNode(f(node), rm, owner, slot, node, tail, kept, t, sub, rest, others);
      MovedAfter(old(forest), sub.moved, FilterKids([t], f).moved);
      NodesAppend(old(forest), FilterKids([t], f).moved);
    }

    /** Keeps, moves or rejects a node whose children have been filtered. */
    method PlaceNode(keep: bool, rm: nat, owner: Node, slot: Slot, node: Node, tail: Slot, ghost kept: seq<Tree<Node>>,
        ghost t: Tree<Node>, ghost sub: Filtered<Node>, ghost rest: seq<Tree<Node>>, ghost others: set<Node>)
        returns (dropped: bool, slot': Slot, next: Node?)
      requires Represents() && Hanging(owner, slot, kept, node) && Distinct(kept) && Seg(node.siblings, rest, null)
      requires node == t.elem && node.mark == t.mark && node.degree == |t.kids| && Hanging(node, tail, sub.kept, null)
      requires |sub.kept| <= |t.kids| && rm == |t.kids| - |sub.kept|
      requires Good(sub.kept, rank) && Good([Tree(node, false, sub.kept)], rank)
      requires Separate(Content(), owner, Nodes(kept), Nodes(rest), others) && card > 0
      requires Separate(Content() + Nodes(kept) + Nodes(rest) + others + {owner}, node, Nodes(sub.kept), {}, {})
      modifies `roots, `rootTail, `forest, `card, Content(), Nodes(kept), node, Nodes(sub.kept), owner`children
      ensures var one := FilterOne(t, keep, sub);
              && Represents() && sub.moved <= one.moved && forest == old(forest) + one.moved[|sub.moved|..]
              && (dropped <==> one.kept == [])
              && Hanging(owner, slot', kept + one.kept, next) && Seg(next, rest, null)
      ensures card == old(card) - if keep then 0 else 1
      ensures unchanged(others)
    {
      hide Good, Size, Marks, Nodes, Distinct, Unmarked, Seg;
      next := node.siblings;
      NodesOne(Tree(node, false, sub.kept));
      assert kept + [] == kept;
      dropped, slot' := true, slot;
      if keep {
        if rm > 0 && (node.mark || rm > 1) {
          MoveNode(owner, slot, node, rm, next, kept, sub.kept, rest);
        } else {
          KeepNode(owner, node, rm, kept, t, sub.kept, rest);
          dropped, slot' := false, Siblings(node);
        }
      } else {
        RejectNode(owner, slot, node, tail, next, kept, sub.kept, rest);
      }
    }

    /** Filters the chain of the children of `owner`, moving what has to go to the roots. */
    method FilterChain(f: Node -> bool, owner: Node, ghost ts: seq<Tree<Node>>, ghost others: set<Node>)
        returns (rmCount: nat, tail: Slot)
      requires Represents() && Seg(owner.children, ts, null) && Good(ts, rank)
      requires Separate(Content(), owner, {}, Nodes(ts), others)
      requires card >= Size(ts)
      modifies `roots, `rootTail, `forest, `card, Content(), Nodes(ts), owner`children
      ensures Represents() && forest == old(forest) + FilterKids(ts, f).moved
      ensures Hanging(owner, tail, FilterKids(ts, f).kept, null) && rmCount == |ts| - |FilterKids(ts, f).kept|
      ensures card - Size(FilterKids(ts, f).kept) - Size(FilterKids(ts, f).moved) == old(card) - Size(ts)
      ensures unchanged(others)
      decreases Size(ts), 2
    {
      hide Good, Size, Marks, Nodes, FilterKids, Distinct, Seg, Hanging, Separate;
      rmCount, tail := 0, Children(owner);
      var node := owner.children;
      ghost var kept, moved, rest := [], [], ts;
      assert forest + moved == forest;
      StartHanging(owner, ts, f, rank);
      while node != null
        invariant Represents() && forest == old(forest) + moved && Content() == old(Content()) + Nodes(moved)
        invariant Hanging(owner, tail, kept, node) && Seg(node, rest, null)
        invariant Filtering(ts, f, kept, moved, rest, rank)
        invariant Separate(Content(), owner, Nodes(kept), Nodes(rest), others)
        invariant rmCount == |ts| - |rest| - |kept|
        invariant card - Size(kept) - Size(moved) - Size(rest) == old(card) - Size(ts) && card >= Size(rest)
        invariant Size(rest) <= Size(ts)
        invariant unchanged(others)
        decreases |rest|
      {
        SegHead(node, rest);
        ghost var t, rest' := rest[0], rest[1..];
        FilteringStep(ts, f, kept, moved, rest, t, rest', rank);
        SeparateStep(Content(), owner, Nodes(kept), Nodes([t]), Nodes(rest'), others,
                     Nodes(FilterKids([t], f).kept), Nodes(FilterKids([t], f).moved));
        var dropped, slot, next := FilterNode(f, owner, tail, node, kept, t, rest', others);
        rmCount := rmCount + if dropped then 1 else 0;
        kept := kept + FilterKids([t], f).kept;
        moved := moved + FilterKids([t], f).moved;
        rest := rest';
        tail := slot;
        node := next;
      }
      SegHead(node, rest);
      EndHanging(ts, f, kept, moved);
    }

    method RootsAfterFilter(f: Node -> bool, root: Node, ghost t: Tree<Node>, ghost rest: seq<Tree<Node>>)
        returns (next: Node?)
      requires Represents() && Good([t] + rest, rank) && Seg(root, [t] + rest, null) && root == t.elem
      requires Content() !! Nodes([t] + rest) && card >= Size([t])
      modifies `roots, `rootTail, `forest, `card, Content(), Nodes([t])
      ensures Represents() && forest == old(forest) + FilterRoots([t], f) && Seg(next, rest, null)
      ensures Content() == old(Content()) + Nodes(FilterRoots([t], f))
      ensures card == old(card) - Size([t]) + Size(FilterRoots([t], f))
    {
      hide Good, Size, Marks, Nodes, FilterKids, Distinct, FilterRoots, FilterRoot, Separate;
      ghost var sub := FilterKids(t.kids, f);
      FilterRootFacts(t, rest, f, rank);
      SeparateRoot(Content(), root, Nodes(t.kids), Nodes(rest), Nodes(sub.kept), Nodes(sub.moved));
      NodesAppend(forest, FilterRoots([t], f));
      NodesAppend(forest, sub.moved);
      var rm, tail := FilterChain(f, root, t.kids, Nodes(rest));
      next := root.siblings;
      PlaceRoot(f(root), rm, root, tail, t, sub.kept, next, rest);
      RootMoves(old(forest), t, f(root), sub);
    }

    /** Keeps or rejects a root whose children have been filtered. */
    method PlaceRoot(keep: bool, rm: nat, root: Node, tail: Slot, ghost t: Tree<Node>, ghost kids: seq<Tree<Node>>,
        ghost next: Node?, ghost rest: seq<Tree<Node>>)
      requires Represents() && Hanging(root, tail, kids, null) && Seg(next, rest, null) && Good(kids, rank) && card > 0
      requires root == t.elem && root.mark == t.mark && root.degree == |kids| + rm && Good([t.(kids := kids)], rank)
      requires Separate(Content() + Nodes(rest), root, {}, Nodes(kids), {}) && Content() !! Nodes(rest)
      modifies `roots, `rootTail, `forest, `card, Content(), Nodes(kids), root
      ensures Represents() && forest == old(forest) + if keep then [t.(kids := kids)] else Unmarked(kids)
      ensures Seg(next, rest, null) && card == old(card) - if keep then 0 else 1
    {
      hide Good, Size, Marks, Nodes, Distinct, Unmarked;
      NodesOne(t.(kids := kids));
      LoseRootChildren(root, rm, kids, tail, next, rest);
      if keep {
        PushTree(root, t.(kids := kids), Nodes(rest));
      } else {
        PushKids(root, tail, kids, Nodes(rest));
        DropOne(next, rest);
      }
    }

    method DropOne(ghost next: Node?, ghost rest: seq<Tree<Node>>)
      requires Represents() && Seg(next, rest, null) && card > 0
      modifies `card
      ensures Represents() && Seg(next, rest, null) && card == old(card) - 1
    {
      assert forall n :: n in Nodes(forest) + Nodes(rest) ==> n as object != this;
      card := card - 1;
    }

    method LoseRootChildren(root: Node, rm: nat, ghost kids: seq<Tree<Node>>, ghost tail: Slot, ghost next: Node?,
        ghost rest: seq<Tree<Node>>)
      requires Represents() && Hanging(root, tail, kids, null) && Seg(next, rest, null)
      requires root !in Content() && root !in Nodes(kids) && root !in Nodes(rest) && root.degree == |kids| + rm
      modifies root`degree
      ensures Represents() && Hanging(root, tail, kids, null) && Seg(next, rest, null) && root.degree == |kids|
    {
      root.degree := root.degree - rm;
    }

    /** Removes the nodes that `f` rejects. With fewer than two nodes left of a
        non-empty queue the roots cannot be paired up, and the first result is false. */
    method FilterD(f: Node -> bool) returns (defined: bool, held: bool)
      requires Valid()
      modifies this, Content()
      ensures defined <==> old(Content()) == {} || |Accepted(old(Content()), f)| >= 2
      ensures defined ==> Valid() && Content() == Accepted(old(Content()), f) && card == |Accepted(old(Content()), f)|
      ensures defined && old(Content()) != {} ==>
                && held == WinnersUnmarked(RootsOf(rank, FilterRoots(old(forest), f)))
                && Marks(forest) == MarksPaired(FilterRoots(old(forest), f))
                && (|FilterRoots(old(forest), f)| == 1 ==> forest == FilterRoots(old(forest), f))
      ensures defined ==> cut == old(cut) + RootCuts(old(forest), f)
      ensures defined ==> rejected == old(rejected) + |old(Content())| - |Accepted(old(Content()), f)|
    {
      hide RootCuts, Rejects, MarksPaired, Good, Size, Marks, Nodes, FilterRoots, Distinct, WinnersUnmarked, RootsOf;
      hide Seg;
      ghost var all := forest;
      SegHead(roots, forest);
      FilterDOutcome(all, f, rank);
      if roots == null {
        return true, true;
      }
      Refill(f, roots);
      NonEmpty(forest);
      FilterDPaid(all, f);
      cut, rejected := cut + RootCuts(all, f), rejected + Rejects(all, f);
      defined, held := UpdateMin();
    }

    /** The roots are taken off and those that are left put back. */
    method Refill(f: Node -> bool, root: Node)
      requires Represents() && roots == root && card == Size(forest)
      modifies `roots, `rootTail, `forest, `card, Content()
      ensures Represents() && forest == FilterRoots(old(forest), f) && card == Size(forest)
    {
      hide Good, Size, Nodes, FilterRoots;
      ghost var all := forest;
      assert forall n :: n in Nodes(all) ==> n as object != this;
      roots := null;
      rootTail := Roots;
      forest := [];
      EmptyTable(rank, []);
      FilterAllRoots(f, root, all);
    }

    method FilterAllRoots(f: Node -> bool, first: Node, ghost all: seq<Tree<Node>>)
      requires Represents() && forest == [] && Seg(first, all, null) && Good(all, rank) && card == Size(all)
      modifies `roots, `rootTail, `forest, `card, Nodes(all)
      ensures Represents() && forest == FilterRoots(all, f) && card == Size(forest)
    {
      hide Good, Size, Marks, Nodes, Seg, FilterRoots, Distinct;
      var root: Node? := first;
      ghost var rest := all;
      StartRoots(all, f);
      while root != null
        invariant Represents() && Seg(root, rest, null) && Good(rest, rank) && Content() !! Nodes(rest)
        invariant FilterRoots(all, f) == forest + FilterRoots(rest, f) && Content() + Nodes(rest) <= Nodes(all)
        invariant card == Size(forest) + Size(rest)
        decreases |rest|
      {
        SegHead(root, rest);
        ghost var t, rest' := rest[0], rest[1..];
        assert rest == [t] + rest';
        FilterRootsStep(t, rest', forest, f, rank);
        root := RootsAfterFilter(f, root, t, rest');
        rest := rest';
      }
      SegHead(root, rest);
      SetTailEnd(null, []);
      StartRoots(all, f);
    }
  }

  /** The degree of the first root is an index just when there are two nodes or more. */
  lemma FirstDegree(forest: seq<Tree<Node>>, card: nat, rank: Node -> int)
    requires forest != [] && Good(forest, rank) && Size(forest) <= card
    ensures card > 0 && (|forest[0].kids| < MaxDegree(card) <==> card >= 2)
  {
    assert forest == [forest[0]] + forest[1..];
    GoodAppend([forest[0]], forest[1..], rank);
    NonEmpty(forest);
    NoSlots(card);
    if card >= 2 { DegreeBound(forest[0], card); }
  }

  /** A queue of two nodes. */
  method Pair() returns (q: Fibq, a: Node)
    ensures q.Valid() && Accepted(q.Content(), n => n == a) == {a} && fresh(q) && fresh(q.Content())
  {
    a := new Node();
    var b := new Node();
    q := new Fibq(n => 0);
    q.Insert(a);
    q.Insert(b);
    assert q.Content() == {a, b};
  }

  /** A filter that accepts one of two nodes. */
  method FilterToOne() returns (defined: bool)
    ensures !defined
  {
    var q, a := Pair();
    var held;
    defined, held := q.FilterD(n => n == a);
  }

  /** A root `p` with the children `a`, which has the child `b`, and `c`. */
  function Four(p: Node, a: Node, b: Node, c: Node): Tree<Node> {
    Tree(p, false, [Tree(a, false, [Tree(b, false, [])]), Tree(c, false, [])])
  }

  /** What is left without `b`. */
  function Three(p: Node, a: Node, c: Node): Tree<Node> {
    Tree(p, false, [Tree(a, true, []), Tree(c, false, [])])
  }

  lemma FourGood(p: Node, a: Node, b: Node, c: Node, rank: Node -> int)
    requires p != a && p != b && p != c && a != b && a != c && b != c && rank(p) == rank(a) == rank(b) == rank(c) == 0
    ensures Good([Four(p, a, b, c)], rank) && Size([Four(p, a, b, c)]) == 4 && Marks([Four(p, a, b, c)]) == 0
    ensures Nodes([Four(p, a, b, c)]) == {p, a, b, c}
  {
    var t, s, u, v := Four(p, a, b, c), Tree(a, false, [Tree(b, false, [])]), Tree(c, false, []), Tree(b, false, []);
    Leaf(u, rank);
    Leaf(v, rank);
    MarksOne(t); MarksOne(s); MarksOne(u); MarksOne(v);
    NodesOne(s); HeapOne(s, Prioreq(rank)); DeepOne(s);
    GoodAppend([s], [u], rank);
    assert [s] + [u] == t.kids;
    NodesOne(t); HeapOne(t, Prioreq(rank)); DeepOne(t);
  }

  lemma FourLinked(p: Node, a: Node, b: Node, c: Node)
    requires p.siblings == null && p.children == a && a.siblings == c && c.siblings == null
    requires a.children == b && b.siblings == null && b.children == null && c.children == null
    requires p.degree == 2 && a.degree == 1 && b.degree == c.degree == 0
    requires !p.mark && !a.mark && !b.mark && !c.mark
    ensures Seg(p, [Four(p, a, b, c)], null)
  {
    var t := Four(p, a, b, c);
    assert t.kids[1..] == [t.kids[1]] && [t.kids[1]][1..] == [] && [t][1..] == [];
    assert t.kids[0].kids[1..] == [];
    assert Seg(b, t.kids[0].kids, null);
    assert Seg(c, [t.kids[1]], null);
    assert Seg(a, t.kids, null);
  }

  lemma FourFiltered(p: Node, a: Node, b: Node, c: Node, f: Node -> bool)
    requires f(p) && f(a) && !f(b) && f(c)
    ensures FilterRoots([Four(p, a, b, c)], f) == [Three(p, a, c)]
  {
    var t := Four(p, a, b, c);
    var s, u, v := t.kids[0], t.kids[1], t.kids[0].kids[0];
    var s' := Tree(a, true, []);
    assert [t][1..] == [] && [v][1..] == [] && [s] + [u] == t.kids && [s'] + [u] == Three(p, a, c).kids;
    FilterKidsOne(s, [u], f);
    FilterKidsFirst(v, f);
    FilterKidsFirst(u, f);
    FilterKidsFirst(s, f);
    assert FilterKids(t.kids, f) == Filtered([s'] + [u], []);
    assert FilterRoot(t, true, Filtered([s'] + [u], [])) == [Three(p, a, c)];
  }

  lemma ThreeRoots(p: Node, a: Node, c: Node, rank: Node -> int)
    requires rank(a) == rank(c) == 0
    ensures Size([Three(p, a, c)]) == 3
    ensures RootsOf(rank, Three(p, a, c).kids) == [Root(0, 0, true), Root(0, 0, false)]
  {
    var t, s, u := Three(p, a, c), Tree(a, true, []), Tree(c, false, []);
    NodesOne(t); NodesOne(s); NodesOne(u);
    NodesAppend([s], [u]);
    assert [s] + [u] == t.kids && t.kids[1..] == [u] && [u][1..] == [];
    assert RootsOf(rank, t.kids) == [RootOf(rank, s)] + RootsOf(rank, [u]);
    assert RootsOf(rank, [u]) == [RootOf(rank, u)] + [];
  }

  /** A queue of one tree of four nodes, all of equal rank and none marked. */
  method FourNodes() returns (q: Fibq, p: Node, a: Node, b: Node, c: Node)
    ensures q.Valid() && fresh(q) && fresh(q.Content()) && q.forest == [Four(p, a, b, c)]
    ensures q.rank(p) == q.rank(a) == q.rank(b) == q.rank(c) == 0
    ensures p != a && p != b && p != c && a != b && a != c && b != c
  {
    hide Good, Size, Marks, Seg, Nodes, Four;
    p, a, b, c := FourLinks();
    FourGood(p, a, b, c, n => 0);
    q := new Fibq.OfTree(n => 0, p, 4, Four(p, a, b, c));
    FourGood(p, a, b, c, q.rank);
  }

  method FourLinks() returns (p: Node, a: Node, b: Node, c: Node)
    ensures fresh(p) && fresh(a) && fresh(b) && fresh(c)
    ensures p != a && p != b && p != c && a != b && a != c && b != c
    ensures Seg(p, [Four(p, a, b, c)], null)
  {
    hide Seg, Four;
    p := new Node();
    a := new Node();
    b := new Node();
    c := new Node();
    a.children, a.degree, a.siblings := b, 1, c;
    p.children, p.degree := a, 2;
    FourLinked(p, a, b, c);
  }

  /** A filter takes the only child of one child of a root. That child is marked, becomes
      the first root when the root goes, and takes the other child. */
  method PopMarked() returns (defined: bool, held: bool)
    ensures defined && !held
  {
    hide Good, Size, Marks, Seg, Nodes, RootsOf, FilterRoots;
    var q, p, a, b, c := FourNodes();
    var f := n => n != b;
    FourGood(p, a, b, c, q.rank);
    FourFiltered(p, a, b, c, f);
    ThreeRoots(p, a, c, q.rank);
    ghost var left := Accepted(q.Content(), f);
    assert left == {p, a, c} && |left| == 3;
    defined, held := q.FilterD(f);
    assert [] + q.forest[0].kids == q.forest[0].kids;
    var popNode;
    popNode, held := q.PopFront();
  }

  /** A queue of one node and an empty one. */
  method UnionWithEmpty() returns (defined: bool)
    ensures !defined
  {
    var rank: Node -> int := n => 0;
    var a := new Node();
    var q := new Fibq(rank);
    var e := new Fibq(rank);
    q.Insert(a);
    defined := q.UnionD(e);
  }

  lemma FilterDOutcome(all: seq<Tree<Node>>, f: Node -> bool, rank: Node -> int)
    requires Good(all, rank)
    ensures Nodes(FilterRoots(all, f)) == Accepted(Nodes(all), f)
    ensures Size(FilterRoots(all, f)) == |Accepted(Nodes(all), f)|
    ensures all == [] <==> Nodes(all) == {}
    ensures all == [] ==> Size(all) == 0 && Accepted(Nodes(all), f) == {} && RootCuts(all, f) == 0
    ensures Rejects(all, f) == |Nodes(all)| - |Accepted(Nodes(all), f)|
  {
    FilterRootsSize(all, f);
    SizeIsCard(all);
    FilterRootsNodes(all, f);
    SizeIsCard(FilterRoots(all, f));
  }

  lemma FilterDPaid(all: seq<Tree<Node>>, f: Node -> bool)
    ensures RootCuts(all, f) + MarksPaired(FilterRoots(all, f)) <= Marks(all) + Rejects(all, f)
  {
    hide RootCuts, MarksPaired, Rejects, Marks, FilterRoots;
    FilterRootsPaid(all, f);
    FewerMarks(FilterRoots(all, f));
  }

  lemma StartRoots(all: seq<Tree<Node>>, f: Node -> bool)
    ensures FilterRoots(all, f) == [] + FilterRoots(all, f) && Nodes<Node>([]) == {} && Size<Node>([]) == 0
    ensures FilterRoots<Node>([], f) == [] && Seg(null, [], null)
  {}

  lemma RootMoves(done: seq<Tree<Node>>, t: Tree<Node>, keep: bool, sub: Filtered<Node>)
    ensures done + sub.moved + (if keep then [t.(kids := sub.kept)] else Unmarked(sub.kept))
              == done + FilterRoot(t, keep, sub)
  {}

  lemma FilterRootsFirst(t: Tree<Node>, rest: seq<Tree<Node>>, done: seq<Tree<Node>>, f: Node -> bool)
    ensures done + FilterRoots([t] + rest, f) == done + FilterRoots([t], f) + FilterRoots(rest, f)
  {
    assert [t][1..] == [] && ([t] + rest)[1..] == rest;
    hide FilterRoot, FilterKids;
    var one := FilterRoot(t, f(t.elem), FilterKids(t.kids, f));
    assert one + [] == one;
    assert FilterRoots([t], f) == one;
    assert done + (one + FilterRoots(rest, f)) == done + one + FilterRoots(rest, f);
  }

  lemma FilterRootsStep(t: Tree<Node>, rest: seq<Tree<Node>>, done: seq<Tree<Node>>, f: Node -> bool, rank: Node -> int)
    requires Good([t] + rest, rank)
    ensures done + FilterRoots([t] + rest, f) == done + FilterRoots([t], f) + FilterRoots(rest, f)
    ensures Size(done + FilterRoots([t], f)) == Size(done) + Size(FilterRoots([t], f))
    ensures Size([t] + rest) == Size([t]) + Size(rest)
    ensures Nodes([t] + rest) == Nodes([t]) + Nodes(rest) && Nodes([t]) !! Nodes(rest) && Good(rest, rank)
    ensures Nodes(FilterRoots([t], f)) <= Nodes([t])
  {
    hide Nodes, Distinct, Size, Marks, Good, FilterRoots;
    FilterRootsFirst(t, rest, done, f);
    NodesAppend(done, FilterRoots([t], f));
    GoodAppend([t], rest, rank);
    GoodIsDistinct([t], rank);
    FilterRootsNodes([t], f);
  }

  lemma SeparateRoot(content: set<Node>, root: Node, kids: set<Node>, rest: set<Node>, subKept: set<Node>,
      subMoved: set<Node>)
    requires content !! {root} + kids + rest && root !in kids + rest && kids !! rest
    requires subKept + subMoved <= kids && subKept !! subMoved
    ensures Separate(content, root, {}, kids, rest)
    ensures Separate(content + subMoved + rest, root, {}, subKept, {}) && content + subMoved !! rest
  {}

  lemma FilterRootFacts(t: Tree<Node>, rest: seq<Tree<Node>>, f: Node -> bool, rank: Node -> int)
    requires Good([t] + rest, rank)
    ensures ([t] + rest)[1..] == rest && Good(t.kids, rank) && Nodes<Node>([]) == {}
    ensures t.elem !in Nodes(t.kids) + Nodes(rest) && Nodes(t.kids) !! Nodes(rest)
    ensures Nodes([t]) == {t.elem} + Nodes(t.kids)
    ensures Nodes([t] + rest) == {t.elem} + Nodes(t.kids) + Nodes(rest) && Size([t]) == Size(t.kids) + 1
    ensures FilterRoots([t], f) == FilterRoot(t, f(t.elem), FilterKids(t.kids, f))
    ensures var sub, roots := FilterKids(t.kids, f), FilterRoots([t], f);
            && Good(sub.kept, rank) && Good([t.(kids := sub.kept)], rank)
            && Nodes([t.(kids := sub.kept)]) == {t.elem} + Nodes(sub.kept)
            && Nodes(sub.kept) <= Nodes(t.kids) && Nodes(sub.moved) <= Nodes(t.kids)
            && Nodes(sub.kept) !! Nodes(sub.moved)
            && Size(roots) == Size(sub.moved) + Size(sub.kept) + if f(t.elem) then 1 else 0
  {
    FilterOneFacts(t, rest, f, rank);
    var sub := FilterKids(t.kids, f);
    var t' := t.(kids := sub.kept);
    TreeAnyMark(t', rank);
    assert [t][1..] == [];
    assert FilterRoot(t, f(t.elem), sub) + [] == FilterRoot(t, f(t.elem), sub);
    NodesOne(t');
    NodesAppend(sub.moved, [t']);
    UnmarkedNodes(sub.kept);
    NodesAppend(sub.moved, Unmarked(sub.kept));
  }

  lemma TreeAnyMark(t: Tree<Node>, rank: Node -> int)
    requires Good([Tree(t.elem, false, t.kids)], rank)
    ensures Good([t], rank)
  {
    assert [t][1..] == [];
    UnmarkedGood([t], rank);
    assert Unmarked([t]) == [Tree(t.elem, false, t.kids)];
  }

  lemma NoContent(ts: seq<Tree<Node>>)
    ensures ts == [] <==> Nodes(ts) == {}
  {}

  /** A chain `ts` filtered up to `rest`. */
  ghost predicate Filtering(ts: seq<Tree<Node>>, f: Node -> bool, kept: seq<Tree<Node>>, moved: seq<Tree<Node>>,
      rest: seq<Tree<Node>>, rank: Node -> int)
  {
    && FilterKids(ts, f) == Filtered(kept + FilterKids(rest, f).kept, moved + FilterKids(rest, f).moved)
    && Distinct(kept) && Good(rest, rank) && Nodes(kept) + Nodes(moved) + Nodes(rest) <= Nodes(ts)
    && Nodes(kept) !! Nodes(moved) && Nodes(kept) !! Nodes(rest) && Nodes(moved) !! Nodes(rest)
  }

  lemma StartHanging(owner: Node, ts: seq<Tree<Node>>, f: Node -> bool, rank: Node -> int)
    requires Good(ts, rank)
    ensures Hanging(owner, Children(owner), [], owner.children) && Filtering(ts, f, [], [], ts, rank)
    ensures Size<Node>([]) == 0 && Nodes<Node>([]) == {}
  {
    var r := FilterKids(ts, f);
    assert [] + r.kept == r.kept && [] + r.moved == r.moved;
  }

  lemma FilteringStep(ts: seq<Tree<Node>>, f: Node -> bool, kept: seq<Tree<Node>>, moved: seq<Tree<Node>>,
      rest: seq<Tree<Node>>, t: Tree<Node>, rest': seq<Tree<Node>>, rank: Node -> int)
    requires Filtering(ts, f, kept, moved, rest, rank) && rest != [] && t == rest[0] && rest' == rest[1..]
    ensures var one := FilterKids([t], f);
            && Filtering(ts, f, kept + one.kept, moved + one.moved, rest', rank) && rest == [t] + rest'
            && |one.kept| <= 1
            && Size(rest) == Size([t]) + Size(rest') && Size(kept + one.kept) == Size(kept) + Size(one.kept)
            && Size(moved + one.moved) == Size(moved) + Size(one.moved)
            && Nodes(moved + one.moved) == Nodes(moved) + Nodes(one.moved)
            && Nodes(kept + one.kept) == Nodes(kept) + Nodes(one.kept) && Nodes(one.kept) !! Nodes(one.moved)
            && Nodes(one.kept) <= Nodes([t]) && Nodes(one.moved) <= Nodes([t])
            && Nodes(rest) == Nodes([t]) + Nodes(rest')
            && Nodes([t]) !! Nodes(rest')
  {
    hide Nodes, Distinct, Size, Marks, Good, FilterKids;
    var one, r := FilterKids([t], f), FilterKids(rest', f);
    assert rest == [t] + rest';
    FilterKidsOne(t, rest', f);
    assert kept + (one.kept + r.kept) == kept + one.kept + r.kept;
    assert moved + (one.moved + r.moved) == moved + one.moved + r.moved;
    FilteringNodes(t, rest', f, rank);
    NodesAppend(kept, one.kept);
    NodesAppend(moved, one.moved);
    DistinctAppend(kept, one.kept);
  }

  lemma FilteringNodes(t: Tree<Node>, rest': seq<Tree<Node>>, f: Node -> bool, rank: Node -> int)
    requires Good([t] + rest', rank)
    ensures var one := FilterKids([t], f);
            && Nodes(one.kept) <= Nodes([t]) && Nodes(one.moved) <= Nodes([t]) && Nodes(one.kept) !! Nodes(one.moved)
            && Distinct(one.kept) && Good(rest', rank) && Nodes([t]) !! Nodes(rest')
            && Nodes([t] + rest') == Nodes([t]) + Nodes(rest') && Size([t] + rest') == Size([t]) + Size(rest')
  {
    GoodAppend([t], rest', rank);
    FilterKidsSplits([t], f);
  }

  lemma FilterKidsOne(t: Tree<Node>, rest: seq<Tree<Node>>, f: Node -> bool)
    ensures var one, r := FilterKids([t], f), FilterKids(rest, f);
            FilterKids([t] + rest, f) == Filtered(one.kept + r.kept, one.moved + r.moved) && |one.kept| <= 1
  {
    assert [t][1..] == [] && ([t] + rest)[1..] == rest;
    var one := FilterOne(t, f(t.elem), FilterKids(t.kids, f));
    assert one.kept + [] == one.kept && one.moved + [] == one.moved;
  }

  lemma FilterKidsFirst(t: Tree<Node>, f: Node -> bool)
    ensures FilterKids([t], f) == FilterOne(t, f(t.elem), FilterKids(t.kids, f))
    ensures FilterKids<Node>([], f) == Filtered([], [])
  {
    hide FilterOne;
    FilterKidsOne(t, [], f);
    assert [t][1..] == [];
    var one := FilterOne(t, f(t.elem), FilterKids(t.kids, f));
    assert one.kept + [] == one.kept && one.moved + [] == one.moved;
  }

  lemma EndHanging(ts: seq<Tree<Node>>, f: Node -> bool, kept: seq<Tree<Node>>, moved: seq<Tree<Node>>)
    requires FilterKids(ts, f) == Filtered(kept + FilterKids([], f).kept, moved + FilterKids([], f).moved)
    ensures FilterKids(ts, f) == Filtered(kept, moved)
  {}

  /** Separate nodes: the content, a node, a chain filtered so far, the rest of it and
      others that stay as they are. */
  ghost predicate Separate(content: set<Node>, owner: Node, kept: set<Node>, rest: set<Node>, others: set<Node>) {
    && content !! kept && content !! rest && kept !! rest
    && owner !in content && owner !in kept && owner !in rest
    && others !! content && others !! kept && others !! rest && owner !in others
  }

  /** The children of one node of the chain. */
  lemma SeparateBelow(content: set<Node>, owner: Node, kept: set<Node>, node: Node, kids: set<Node>, rest: set<Node>,
      others: set<Node>, subKept: set<Node>, subMoved: set<Node>)
    requires Separate(content, owner, kept, {node} + kids + rest, others)
    requires node !in kids + rest && kids !! rest && subKept + subMoved <= kids && subKept !! subMoved
    ensures Separate(content, node, {}, kids, others + kept + rest + {owner})
    ensures Separate(content + subMoved, owner, kept, rest, others)
    ensures Separate(content + subMoved + kept + rest + others + {owner}, node, subKept, {}, {})
  {}

  lemma SeparateStep(content: set<Node>, owner: Node, kept: set<Node>, one: set<Node>, rest: set<Node>,
      others: set<Node>, oneKept: set<Node>, oneMoved: set<Node>)
    requires Separate(content, owner, kept, one + rest, others)
    requires one !! rest && oneKept + oneMoved <= one && oneKept !! oneMoved
    ensures Separate(content + oneMoved, owner, kept + oneKept, rest, others)
  {}

  /** `slot` holds the link that ends the children of `owner` filtered so far. */
  ghost predicate Hanging(owner: Node, slot: Slot, kept: seq<Tree<Node>>, end: Node?)
    reads owner, Nodes(kept)
  {
    Seg(owner.children, kept, end) && slot == if kept == [] then Children(owner) else Siblings(Last(kept))
  }

  lemma TreeGood(t: Tree<Node>, rank: Node -> int)
    requires Good(t.kids, rank) && t.elem !in Nodes(t.kids)
    requires KidsBelow(t.elem, t.kids, Prioreq(rank)) && KidsDeep(t.kids)
    ensures Good([t], rank) && Nodes([t]) == {t.elem} + Nodes(t.kids)
  {
    NodesOne(t);
    HeapOne(t, Prioreq(rank));
    DeepOne(t);
  }

  lemma MovedAfter(before: seq<Tree<Node>>, sub: seq<Tree<Node>>, one: seq<Tree<Node>>)
    requires sub <= one
    ensures before + sub + one[|sub|..] == before + one
  {}

  lemma FilterOneFacts(t: Tree<Node>, rest: seq<Tree<Node>>, f: Node -> bool, rank: Node -> int)
    requires Good([t] + rest, rank)
    ensures ([t] + rest)[1..] == rest && Good(t.kids, rank) && Size([t]) == Size(t.kids) + 1
    ensures t.elem !in Nodes(t.kids) + Nodes(rest) && Nodes(t.kids) !! Nodes(rest)
    ensures Nodes([t] + rest) == {t.elem} + Nodes(t.kids) + Nodes(rest) && Nodes([t]) == {t.elem} + Nodes(t.kids)
    ensures Nodes<Node>([]) == {}
    ensures FilterKids([t], f) == FilterOne(t, f(t.elem), FilterKids(t.kids, f))
    ensures var sub := FilterKids(t.kids, f);
            && Nodes(sub.kept) <= Nodes(t.kids) && Nodes(sub.moved) <= Nodes(t.kids)
            && Nodes(sub.kept) !! Nodes(sub.moved)
            && Good(sub.kept, rank) && Good(sub.moved, rank)
            && Good([Tree(t.elem, false, sub.kept)], rank)
            && Nodes([Tree(t.elem, false, sub.kept)]) == {t.elem} + Nodes(sub.kept)
  {
    GoodAppend([t], rest, rank);
    NodesOne(t);
    HeapOne(t, Prioreq(rank));
    DeepOne(t);
    FilterKidsSplits(t.kids, f);
    FilterKidsHeap(t.kids, f, Prioreq(rank));
    FilterKidsDeep(t.kids, f);
    assert [t][1..] == [];
    var one := FilterOne(t, f(t.elem), FilterKids(t.kids, f));
    FilterKidsBelow(t.elem, t.kids, f, Prioreq(rank));
    FilterKidsStayDeep(t.kids, f);
    TreeGood(Tree(t.elem, false, FilterKids(t.kids, f).kept), rank);
    assert one.kept + [] == one.kept && one.moved + [] == one.moved;
  }

  lemma TreeIn(head: Node?, ts: seq<Tree<Node>>, t: Tree<Node>)
    requires Seg(head, ts + [t], null)
    ensures RepTree(t)
  {
    TakeLast(head, ts + [t], ts, t, null);
  }

  lemma UnmarkedGood(ts: seq<Tree<Node>>, rank: Node -> int)
    ensures Good(Unmarked(ts), rank) <==> Good(ts, rank)
    ensures Nodes(Unmarked(ts)) == Nodes(ts) && Size(Unmarked(ts)) == Size(ts)
    ensures TailSlot(Unmarked(ts)) == TailSlot(ts)
  {
    UnmarkedNodes(ts);
    UnmarkedHeap(ts, Prioreq(rank));
    UnmarkedDeep(ts);
  }

  /** Clears the marks along a chain. */
  method UnmarkChain(head: Node, ghost ts: seq<Tree<Node>>, ghost first: Node?, ghost front: seq<Tree<Node>>)
    requires Seg(head, ts, null) && ts != [] && Distinct(ts) && Seg(first, front, head) && Nodes(front) !! Nodes(ts)
    modifies Nodes(ts)
    ensures Seg(head, Unmarked(ts), null) && Seg(first, front, head)
  {
    hide Nodes, Distinct, Seg;
    var n: Node? := head;
    ghost var i := 0;
    assert Unmarked(ts)[..0] == [] && ts[0..] == ts;
    SegNil(head);
    while n != null
      invariant 0 <= i <= |ts|
      invariant Seg(head, Unmarked(ts)[..i], n) && Seg(n, ts[i..], null)
      invariant Seg(first, front, head)
      decreases |ts| - i
    {
      ChainAt(n, ts, i);
      UnmarkAt(head, ts, i, n);
      assert Unmarked(ts)[..i] + [ts[i].(mark := false)] == Unmarked(ts)[..i + 1];
      ClearMark(n, head, Unmarked(ts)[..i], ts[i], ts[i + 1..], first, front);
      n := n.siblings;
      i := i + 1;
    }
    ChainAt(n, ts, i);
    assert Unmarked(ts)[..i] == Unmarked(ts);
  }

  lemma SegNil(n: Node?)
    ensures Seg(n, [], n)
  {}

  lemma ChainAt(n: Node?, ts: seq<Tree<Node>>, i: nat)
    requires i <= |ts| && Seg(n, ts[i..], null)
    ensures n == null <==> i == |ts|
  {}

  method ClearMark(n: Node, ghost head: Node?, ghost a: seq<Tree<Node>>, ghost t: Tree<Node>, ghost b: seq<Tree<Node>>,
      ghost first: Node?, ghost front: seq<Tree<Node>>)
    requires n == t.elem && RepTree(t) && Seg(head, a, n) && Seg(n.siblings, b, null) && Seg(first, front, head)
    requires n !in Nodes(a) + Nodes(t.kids) + Nodes(b) + Nodes(front)
    modifies n`mark
    ensures Seg(head, a + [t.(mark := false)], n.siblings) && Seg(n.siblings, b, null) && Seg(first, front, head)
    ensures n.siblings == old(n.siblings)
  {
    n.mark := false;
    PutLast(head, a, t.(mark := false), n.siblings);
  }

  lemma UnmarkAt(head: Node, ts: seq<Tree<Node>>, i: nat, n: Node)
    requires i <= |ts| && Distinct(ts) && Seg(n, ts[i..], null)
    ensures i < |ts| && n == ts[i].elem && ts[i..][1..] == ts[i + 1..]
    ensures RepTree(ts[i]) && Seg(n.siblings, ts[i + 1..], null)
    ensures n !in Nodes(Unmarked(ts)[..i]) && n !in Nodes(ts[i].kids) && n !in Nodes(ts[i + 1..]) && n in Nodes(ts)
  {
    hide Nodes, Distinct, Size, Unmarked;
    var a, t, b := ts[..i], ts[i], ts[i + 1..];
    assert ts == a + ([t] + b) && ts[i..] == [t] + b;
    NodesAppend(a, [t] + b); NodesAppend([t], b);
    DistinctAppend(a, [t] + b); DistinctAppend([t], b);
    NodesOne(t);
    UnmarkedPrefix(ts, i);
    UnmarkedNodes(a);
  }

  lemma {:induction false} UnmarkedPrefix(ts: seq<Tree<Node>>, i: nat)
    requires i <= |ts|
    ensures Unmarked(ts)[..i] == Unmarked(ts[..i])
  {
    if i > 0 { UnmarkedPrefix(ts[1..], i - 1); assert ts[..i][1..] == ts[1..][..i - 1]; }
  }

  /** Links the children of the first root after the last root, which may be the
      first one itself. */
  method LinkTail(last: Node, popNode: Node, ghost t: Tree<Node>, ghost rest: seq<Tree<Node>>)
    requires t.elem == popNode && RepTree(t) && Seg(popNode.siblings, rest, null)
    requires last == (if rest == [] then popNode else Last(rest)) && Distinct(rest)
    requires popNode !in Nodes(rest) + Nodes(t.kids) && Nodes(rest) !! Nodes(t.kids)
    modifies last`siblings
    ensures Seg(popNode.siblings, rest + t.kids, null)
  {
    if rest != [] {
      LastIn(rest);
      LinkTailFrame(popNode, rest);
    }
    ghost var l := if rest == [] then t else rest[|rest| - 1];
    ghost var front := if rest == [] then [] else rest[..|rest| - 1];
    last.siblings := popNode.children;
    if rest != [] {
      PutLast(popNode.siblings, front, l, popNode.children);
      assert rest == front + [l];
      SegAppend(popNode.siblings, rest, popNode.children, t.kids, null);
    } else {
      assert rest + t.kids == t.kids;
    }
  }

  lemma LinkTailFrame(popNode: Node, rest: seq<Tree<Node>>)
    requires rest != [] && Seg(popNode.siblings, rest, null) && Distinct(rest)
    ensures var front, l := rest[..|rest| - 1], rest[|rest| - 1];
            && Seg(popNode.siblings, front, l.elem) && RepTree(l)
            && l.elem !in Nodes(front) && l.elem !in Nodes(l.kids)
  {
    var front, l := rest[..|rest| - 1], rest[|rest| - 1];
    assert rest == front + [l];
    TakeLast(popNode.siblings, rest, front, l, null);
    NodesAppend(front, [l]);
    DistinctAppend(front, [l]);
    NodesOne(l);
  }

  method ClearChildren(n: Node, ghost head: Node?, ghost f: seq<Tree<Node>>)
    requires Seg(head, f, null) && n !in Nodes(f)
    modifies n`children
    ensures n.children == null && Seg(head, f, null)
  {
    n.children := null;
  }

  lemma FrontIn(t: Tree<Node>, rest: seq<Tree<Node>>)
    ensures t.elem in Nodes([t] + rest)
  {}

  lemma FrontPrior(f: seq<Tree<Node>>, rank: Node -> int)
    requires Good(f, rank) && MinFirst(f, rank) && f != []
    ensures forall x :: x in Nodes(f) ==> rank(f[0].elem) <= rank(x)
  {
    RootPrior(f[0].elem, f, rank);
  }

  lemma OneNode(t: Tree<Node>, rest: seq<Tree<Node>>)
    requires Size([t] + rest) == 1
    ensures t.kids == [] && rest == [] && Nodes([t] + rest) == {t.elem}
  {
    NodesAppend([t], rest);
    NodesOne(t);
    NonEmpty(t.kids);
    NonEmpty(rest);
  }

  lemma ShapeOfTwo(t: Tree<Node>, rest: seq<Tree<Node>>, rank: Node -> int)
    requires Size([t] + rest) == 2 && Good([t] + rest, rank)
    ensures ([t] + rest)[1..] == rest && t.elem !in Nodes(t.kids) + Nodes(rest)
    ensures rest != [] ==> |rest| == 1 && t.kids == [] && Size(rest) == 1 && Good(rest, rank)
                           && Nodes([t] + rest) == {t.elem} + Nodes(rest)
    ensures rest == [] ==>
              && |t.kids| == 1
              && var k := t.kids[0].(mark := false);
                 t.kids[0].kids == [] && Good([k], rank) && Size([k]) == 1 && Nodes([t] + rest) == {t.elem} + Nodes([k])
  {
    GoodAppend([t], rest, rank);
    NodesOne(t);
    NonEmpty(rest);
    if rest == [] {
      assert [t] + rest == [t];
      OneNode(t.kids[0], t.kids[1..]);
      assert t.kids == [t.kids[0]] + t.kids[1..];
      Leaf(t.kids[0].(mark := false), rank);
    } else {
      NonEmpty(t.kids);
      OneNode(rest[0], rest[1..]);
      assert rest == [rest[0]] + rest[1..];
    }
  }

  lemma ChildrenAsRoots(t: Tree<Node>, rest: seq<Tree<Node>>, rank: Node -> int)
    requires Good([t] + rest, rank)
    ensures Good(rest, rank) && Good(t.kids, rank) && Good(rest + t.kids, rank)
    ensures t.elem !in Nodes(rest) + Nodes(t.kids) && Nodes(rest) !! Nodes(t.kids)
    ensures Nodes([t] + rest) == {t.elem} + Nodes(rest + t.kids)
    ensures Nodes(rest + t.kids) == Nodes(rest) + Nodes(t.kids) && Size(rest + t.kids) == Size([t] + rest) - 1
  {
    GoodAppend([t], rest, rank);
    GoodAppend(rest, t.kids, rank);
    NodesOne(t);
    HeapOne(t, Prioreq(rank));
    DeepOne(t);
  }

  lemma NonEmpty(ts: seq<Tree<Node>>)
    ensures ts == [] <==> Size(ts) == 0
  {}
}
