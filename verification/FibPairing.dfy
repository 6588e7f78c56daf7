/** Pairing up roots of equal degree through an array indexed by degree, and
    rebuilding the root chain from it. */
module FibPairing {
  import opened FibTree
  import opened FibFilter
  import opened FibLinks
  import opened FibMarks

  // -------------------------------------------------------------------- linking

  /** `child` becomes the newest child of `parent`. */
  method LinkNodes(parent: Node, child: Node, ghost pt: Tree<Node>, ghost ct: Tree<Node>, ghost others: seq<Tree<Node>>,
      ghost head: Node?, ghost rest: seq<Tree<Node>>)
    requires RepAll(others) && parent !in Nodes(others) && child !in Nodes(others)
    requires Seg(head, rest, null) && parent !in Nodes(rest) && child !in Nodes(rest)
    requires pt.elem == parent && ct.elem == child && RepTree(pt) && RepTree(ct)
    requires parent != child && parent !in Nodes(pt.kids) + Nodes(ct.kids) && child !in Nodes(pt.kids) + Nodes(ct.kids)
    modifies parent, child
    ensures RepTree(Link(pt, ct)) && RepAll(others) && Seg(head, rest, null)
  {
    child.siblings := parent.children;
    parent.children := child;
    parent.degree := parent.degree + 1;
    ghost var kids := [ct] + pt.kids;
    assert kids[1..] == pt.kids;
    assert Seg(child.children, ct.kids, null);
    assert Seg(child.siblings, pt.kids, null);
    assert Seg(child, kids, null);
    assert Link(pt, ct).kids == kids;
  }

  /** One round of pairing up: the prior of two trees of equal degree takes the
      other as its newest child. */
  method Combine(rank: Node -> int, y: Node, root: Node, ghost yt: Tree<Node>, ghost rt: Tree<Node>,
      ghost others: seq<Tree<Node>>, ghost head: Node?, ghost rest: seq<Tree<Node>>)
      returns (parent: Node, ghost t: Tree<Node>)
    requires RepAll(others) && y !in Nodes(others) && root !in Nodes(others)
    requires Seg(head, rest, null) && y !in Nodes(rest) && root !in Nodes(rest)
    requires yt.elem == y && rt.elem == root && RepTree(yt) && RepTree(rt)
    requires |yt.kids| == |rt.kids| && Distinct([yt]) && Distinct([rt]) && Nodes([yt]) !! Nodes([rt])
    requires HeapOrdered([yt], Prioreq(rank)) && HeapOrdered([rt], Prioreq(rank)) && Deep([yt]) && Deep([rt])
    modifies y, root
    ensures t.elem == parent && RepTree(t) && |t.kids| == |rt.kids| + 1
    ensures RepAll(others) && Seg(head, rest, null)
    ensures t == if rank(y) <= rank(root) then Link(yt, rt) else Link(rt, yt)
    ensures Nodes([t]) == Nodes([yt]) + Nodes([rt]) && Size([t]) == Size([yt]) + Size([rt]) && Distinct([t])
    ensures HeapOrdered([t], Prioreq(rank)) && Deep([t]) && Marks([t]) == Marks([yt]) + Marks([rt])
  {
    hide Size, Marks, Distinct, HeapOrdered, Deep, RepAll, Seg;
    assert y != root && y !in Nodes(yt.kids) + Nodes(rt.kids) && root !in Nodes(yt.kids) + Nodes(rt.kids) by {
      NodesOne(yt);
      NodesOne(rt);
    }
    if !Prioreq(rank)(y, root) {
      parent := root;
      t := Link(rt, yt);
      LinkNodes(root, y, rt, yt, others, head, rest);
      LinkKeeps(rt, yt, Prioreq(rank));
      LinkDistinct(rt, yt);
    } else {
      parent := y;
      t := Link(yt, rt);
      LinkNodes(y, root, yt, rt, others, head, rest);
      LinkKeeps(yt, rt, Prioreq(rank));
      LinkDistinct(yt, rt);
    }
  }

  // ------------------------------------------------------------------ the table

  lemma {:induction false} RepAllAppend(ts: seq<Tree<Node>>, us: seq<Tree<Node>>)
    ensures RepAll(ts + us) <==> RepAll(ts) && RepAll(us)
  {
    if ts == [] {
      assert ts + us == us;
    } else {
      assert (ts + us)[1..] == ts[1..] + us;
      RepAllAppend(ts[1..], us);
    }
  }

  lemma RepAllOne(t: Tree<Node>)
    ensures RepAll([t]) <==> RepTree(t)
  {
    assert [t][1..] == [];
  }

  function Without(ts: seq<Tree<Node>>, i: nat): seq<Tree<Node>>
    requires i < |ts|
  {
    ts[..i] + ts[i + 1..]
  }

  /** Taking one tree out of a forest. */
  lemma GoodOut(ts: seq<Tree<Node>>, i: nat, rank: Node -> int)
    requires i < |ts| && Good(ts, rank)
    ensures Good([ts[i]], rank) && Good(Without(ts, i), rank)
    ensures Nodes(ts) == Nodes([ts[i]]) + Nodes(Without(ts, i)) && Nodes([ts[i]]) !! Nodes(Without(ts, i))
    ensures Size(ts) == Size([ts[i]]) + Size(Without(ts, i)) && Marks(ts) == Marks([ts[i]]) + Marks(Without(ts, i))
  {
    hide Size, Marks, Nodes, Good;
    var a, t, b := ts[..i], ts[i], ts[i + 1..];
    assert ts == a + ([t] + b);
    GoodAppend(a, [t] + b, rank);
    GoodAppend([t], b, rank);
    GoodAppend(a, b, rank);
  }

  lemma RepOut(ts: seq<Tree<Node>>, i: nat)
    requires i < |ts| && RepAll(ts)
    ensures RepTree(ts[i]) && RepAll(Without(ts, i))
  {
    hide RepAll, RepTree;
    var a, t, b := ts[..i], ts[i], ts[i + 1..];
    assert ts == a + ([t] + b);
    RepAllAppend(a, [t] + b);
    RepAllAppend([t], b);
    RepAllAppend(a, b);
    RepAllOne(t);
  }

  /** The array holds the trees of `table`, each at its degree. */
  ghost predicate Indexed(nbd: seq<Node?>, table: seq<Tree<Node>>) {
    && (forall t :: t in table ==> |t.kids| < |nbd| && nbd[|t.kids|] == t.elem)
    && (forall d :: 0 <= d < |nbd| && nbd[d] != null ==> exists t :: t in table && |t.kids| == d)
    && (forall t, u :: t in table && u in table && |t.kids| == |u.kids| ==> t == u)
  }

  lemma {:induction false} MemberNodes(ts: seq<Tree<Node>>, t: Tree<Node>)
    requires t in ts
    ensures t.elem in Nodes(ts)
  {
    if t != ts[0] { MemberNodes(ts[1..], t); }
  }

  lemma RestMembers(ts: seq<Tree<Node>>, i: nat, rank: Node -> int)
    requires i < |ts| && Good(ts, rank)
    ensures forall u :: u in Without(ts, i) <==> u in ts && u != ts[i]
  {
    hide Size, Marks, Distinct, HeapOrdered, Deep, Nodes;
    var t, rest := ts[i], Without(ts, i);
    GoodOut(ts, i, rank);
    NodesOne(t);
    if t in rest { MemberNodes(rest, t); }
    forall u | u in ts && u != t ensures u in rest {
      var j :| 0 <= j < |ts| && ts[j] == u;
      assert if j < i then rest[j] == u else rest[j - 1] == u;
    }
  }

  lemma IndexedTake(nbd: seq<Node?>, table: seq<Tree<Node>>, i: nat, rank: Node -> int)
    requires Indexed(nbd, table) && Good(table, rank) && i < |table|
    ensures |table[i].kids| < |nbd| && Indexed(nbd[|table[i].kids| := null], Without(table, i))
  {
    hide Size, Marks, Distinct, HeapOrdered, Deep;
    var t, rest, nbd' := table[i], Without(table, i), nbd[|table[i].kids| := null];
    RestMembers(table, i, rank);
    assert t in table;
    forall d | 0 <= d < |nbd'| && nbd'[d] != null ensures exists u :: u in rest && |u.kids| == d {
      var u :| u in table && |u.kids| == d;
      assert u in rest;
    }
  }

  /** The tree at an occupied place, and the table without it. */
  lemma PickTree(nbd: seq<Node?>, table: seq<Tree<Node>>, d: nat, rank: Node -> int)
    returns (t: Tree<Node>, rest: seq<Tree<Node>>)
    requires Indexed(nbd, table) && Good(table, rank) && RepAll(table) && d < |nbd| && nbd[d] != null
    ensures t.elem == nbd[d] && |t.kids| == d && RepTree(t) && Good([t], rank)
    ensures Indexed(nbd[d := null], rest) && Good(rest, rank) && RepAll(rest) && |rest| < |table|
    ensures t in table && forall u :: u in rest <==> u in table && u != t
    ensures Nodes(table) == {t.elem} + Nodes(t.kids) + Nodes(rest) && Nodes([t]) == {t.elem} + Nodes(t.kids)
    ensures Nodes([t]) !! Nodes(rest) && Size(table) == Size([t]) + Size(rest)
    ensures Marks(table) == Marks([t]) + Marks(rest)
  {
    t :| t in table && |t.kids| == d;
    var i :| 0 <= i < |table| && table[i] == t;
    rest := Without(table, i);
    IndexedTake(nbd, table, i, rank);
    RestMembers(table, i, rank);
    GoodOut(table, i, rank);
    RepOut(table, i);
    NodesOne(t);
  }

  lemma IndexedPut(nbd: seq<Node?>, table: seq<Tree<Node>>, t: Tree<Node>)
    requires Indexed(nbd, table) && |t.kids| < |nbd| && nbd[|t.kids|] == null
    ensures Indexed(nbd[|t.kids| := t.elem], [t] + table)
  {
    var nbd', table' := nbd[|t.kids| := t.elem], [t] + table;
    assert forall u :: u in table' <==> u == t || u in table;
    forall d | 0 <= d < |nbd'| && nbd'[d] != null ensures exists u :: u in table' && |u.kids| == d {
      if d == |t.kids| {
        assert t in table';
      } else {
        var u :| u in table && |u.kids| == d;
        assert u in table';
      }
    }
  }

  /** The places taken by the trees of `table`. */
  ghost predicate Shows(places: Places, table: seq<Tree<Node>>, rank: Node -> int) {
    && (forall t :: t in table ==> |t.kids| in places && places[|t.kids|] == RootOf(rank, t))
    && forall d :: d in places ==> exists t :: t in table && |t.kids| == d
  }

  lemma ShowsTake(places: Places, nbd: seq<Node?>, table: seq<Tree<Node>>, t: Tree<Node>, rest: seq<Tree<Node>>,
      rank: Node -> int)
    requires Shows(places, table, rank) && Indexed(nbd, table) && t in table
    requires forall u :: u in rest <==> u in table && u != t
    ensures |t.kids| in places && places[|t.kids|] == RootOf(rank, t) && Shows(places - {|t.kids|}, rest, rank)
  {
    forall d | d in places - {|t.kids|} ensures exists u :: u in rest && |u.kids| == d {
      var u :| u in table && |u.kids| == d;
      assert u in rest;
    }
  }

  lemma ShowsPut(places: Places, nbd: seq<Node?>, table: seq<Tree<Node>>, t: Tree<Node>, rank: Node -> int)
    requires Shows(places, table, rank) && Indexed(nbd, table) && |t.kids| < |nbd| && nbd[|t.kids|] == null
    ensures |t.kids| !in places && Shows(places[|t.kids| := RootOf(rank, t)], [t] + table, rank)
  {
    var places', table' := places[|t.kids| := RootOf(rank, t)], [t] + table;
    assert forall u :: u in table' <==> u == t || u in table;
    forall d | d in places' ensures exists u :: u in table' && |u.kids| == d {
      if d == |t.kids| {
        assert t in table';
      } else {
        var u :| u in table && |u.kids| == d;
        assert u in table';
      }
    }
  }

  /** A tree being entered into the array. */
  ghost predicate Entering(rank: Node -> int, nbd: array<Node?>, table: seq<Tree<Node>>, cur: Tree<Node>)
    reads nbd, Nodes(table), cur.elem, Nodes(cur.kids)
  {
    && Indexed(nbd[..], table) && RepAll(table) && Good(table, rank)
    && RepTree(cur) && Good([cur], rank) && Nodes([cur]) !! Nodes(table)
  }

  /** An array write leaves the nodes as they are. */
  method Write(nbd: array<Node?>, d: nat, x: Node?, ghost table: seq<Tree<Node>>, ghost head: Node?,
      ghost rest: seq<Tree<Node>>, ghost t: Tree<Node>, ghost u: Tree<Node>)
    requires d < nbd.Length && RepAll(table) && Seg(head, rest, null) && RepTree(t) && RepTree(u)
    modifies nbd
    ensures nbd[..] == old(nbd[..])[d := x] && RepAll(table) && Seg(head, rest, null) && RepTree(t) && RepTree(u)
  {
    assert forall n :: n in Nodes(table) + Nodes(rest) + Nodes(t.kids) + Nodes(u.kids) ==> n as object != nbd;
    nbd[d] := x;
  }

  /** One round of the inner loop; tells whether the new parent is unmarked. */
  method PairUp(rank: Node -> int, nbd: array<Node?>, root: Node, ghost table: seq<Tree<Node>>, ghost cur: Tree<Node>,
      ghost head: Node?, ghost others: seq<Tree<Node>>, ghost places: Places)
      returns (parent: Node, held: bool, ghost table': seq<Tree<Node>>, ghost t: Tree<Node>)
    requires Seg(head, others, null) && Nodes(others) !! Nodes(table) && root !in Nodes(others)
    requires Entering(rank, nbd, table, cur) && cur.elem == root && |cur.kids| < nbd.Length && nbd[|cur.kids|] != null
    requires Shows(places, table, rank)
    modifies nbd, root, Nodes(table)
    ensures |cur.kids| in places && RootOf(rank, t) == Winner(places[|cur.kids|], RootOf(rank, cur)) && held == !t.mark
    ensures Shows(places - {|cur.kids|}, table', rank)
    ensures Entering(rank, nbd, table', t) && t.elem == parent && |t.kids| == |cur.kids| + 1
    ensures Seg(head, others, null)
    ensures |table'| < |table| && Nodes(table') <= Nodes(table) && parent in Nodes(table) + {root}
    ensures Nodes(table') + Nodes([t]) == Nodes(table) + Nodes([cur])
    ensures Size(table') + Size([t]) == Size(table) + Size([cur])
    ensures Marks(table') + Marks([t]) == Marks(table) + Marks([cur])
  {
    hide Size, Marks, Distinct, HeapOrdered, Deep, Indexed, Seg, RepAll, Shows, Link, Winner, RootOf, Nodes;
    var degree := root.degree;
    ghost var yt;
    yt, table' := PickTree(nbd[..], table, degree, rank);
    ShowsTake(places, nbd[..], table, yt, table', rank);
    var y := nbd[degree];
    Write(nbd, degree, null, table', head, others, yt, cur);
    assert y !in Nodes(table') && root !in Nodes(table') by { NodesOne(cur); }
    parent, t := Combine(rank, y, root, yt, cur, table', head, others);
    CombinedRoot(rank, yt, cur, t);
    held := !parent.mark;
  }

  lemma CombinedRoot(rank: Node -> int, yt: Tree<Node>, rt: Tree<Node>, t: Tree<Node>)
    requires t == if rank(yt.elem) <= rank(rt.elem) then Link(yt, rt) else Link(rt, yt)
    requires |yt.kids| == |rt.kids|
    ensures RootOf(rank, t) == Winner(RootOf(rank, yt), RootOf(rank, rt)) && t.elem in {yt.elem, rt.elem}
  {}

  /** Entering `r0` has come to entering `r`. */
  ghost predicate Entered(places0: Places, r0: Root, places: Places, r: Root, held: bool) {
    Enter(places0, r0) == (Enter(places, r).0, held && Enter(places, r).1)
  }

  /** Enters one tree into the array, pairing it up while its place is taken. */
  method Settle(rank: Node -> int, nbd: array<Node?>, node: Node, ghost table0: seq<Tree<Node>>, ghost tree: Tree<Node>,
      ghost head: Node?, ghost others: seq<Tree<Node>>, ghost card: nat, ghost places0: Places)
      returns (held: bool, ghost table: seq<Tree<Node>>, ghost places: Places)
    requires Seg(head, others, null) && Nodes(others) !! Nodes(table0) && node !in Nodes(others)
    requires Entering(rank, nbd, table0, tree) && tree.elem == node
    requires card >= 2 && nbd.Length == MaxDegree(card) && Size([tree]) + Size(table0) <= card
    requires Shows(places0, table0, rank)
    modifies nbd, node, Nodes(table0)
    ensures Shows(places, table, rank) && Enter(places0, RootOf(rank, tree)) == (places, held)
    ensures Indexed(nbd[..], table) && RepAll(table) && Good(table, rank) && table != []
    ensures Nodes(table) == Nodes(table0) + Nodes([tree]) && Size(table) == Size(table0) + Size([tree])
    ensures Marks(table) == Marks(table0) + Marks([tree]) && (table0 == [] ==> table == [tree])
    ensures Seg(head, others, null)
  {
    hide Size, Marks, Distinct, HeapOrdered, Deep, Indexed, Seg, RepAll, Shows;
    table, places, held := table0, places0, true;
    ghost var cur := tree;
    var root := node;
    var degree := root.degree;
    DegreeBound(cur, card);
    while nbd[degree] != null
      invariant degree == |cur.kids| < nbd.Length
      invariant cur.elem == root && Entering(rank, nbd, table, cur)
      invariant Seg(head, others, null)
      invariant Nodes(table) <= Nodes(table0) && root in Nodes(table0) + {node}
      invariant Nodes(table) + Nodes([cur]) == Nodes(table0) + Nodes([tree])
      invariant Size(table) + Size([cur]) == Size(table0) + Size([tree])
      invariant Marks(table) + Marks([cur]) == Marks(table0) + Marks([tree])
      invariant table0 == [] ==> table == [] && cur == tree
      invariant Shows(places, table, rank)
      invariant Entered(places0, RootOf(rank, tree), places, RootOf(rank, cur), held)
      decreases |table|
    {
      var unmarked;
      ghost var d := degree;
      root, unmarked, table, cur := PairUp(rank, nbd, root, table, cur, head, others, places);
      places := places - {d};
      held := held && unmarked;
      degree := degree + 1;
      DegreeBound(cur, card);
    }
    IndexedPut(nbd[..], table, cur);
    ShowsPut(places, nbd[..], table, cur, rank);
    places := places[degree := RootOf(rank, cur)];
    Write(nbd, degree, root, table, head, others, cur, cur);
    GoodAppend([cur], table, rank);
    RepAllOne(cur);
    RepAllAppend([cur], table);
    table := [cur] + table;
  }

  lemma EmptyTable(rank: Node -> int, nbd: seq<Node?>)
    requires forall d :: 0 <= d < |nbd| ==> nbd[d] == null
    ensures Indexed(nbd, []) && RepAll([]) && Good([], rank) && Nodes<Node>([]) == {} && Size<Node>([]) == 0
  {}

  /** The first tree of a chain and the rest of it; a root may lose its mark. */
  lemma SplitFirst(ts: seq<Tree<Node>>, rank: Node -> int)
    requires ts != [] && Good(ts, rank)
    ensures var t, u := ts[0], ts[0].(mark := false);
            && Good([t], rank) && Good([u], rank) && Good(ts[1..], rank)
            && Nodes([t]) == Nodes([u]) == {t.elem} + Nodes(t.kids) && Size([t]) == Size([u])
            && Nodes([t]) !! Nodes(ts[1..]) && t.elem !in Nodes(t.kids)
            && Nodes(ts) == Nodes([t]) + Nodes(ts[1..]) && Size(ts) == Size([t]) + Size(ts[1..])
            && Marks(Unmarked(ts)) == Marks([u]) + Marks(Unmarked(ts[1..]))
  {
    var t, u := ts[0], ts[0].(mark := false);
    assert ts == [t] + ts[1..];
    GoodAppend([t], ts[1..], rank);
    NodesOne(t); NodesOne(u);
    HeapOne(t, Prioreq(rank)); HeapOne(u, Prioreq(rank));
    DeepOne(t); DeepOne(u);
    MarksOne(u);
    assert Unmarked(ts)[1..] == Unmarked(ts[1..]);
  }

  /** Takes the first root off a chain, dropping its mark. */
  method TakeRoot(root: Node, ghost rest: seq<Tree<Node>>, ghost table: seq<Tree<Node>>) returns (next: Node?)
    requires rest != [] && Seg(root, rest, null) && RepAll(table)
    requires root !in Nodes(table) && root !in Nodes(rest[1..]) && root !in Nodes(rest[0].kids)
    modifies root
    ensures rest[0].elem == root && RepTree(rest[0].(mark := false))
    ensures Seg(next, rest[1..], null) && RepAll(table)
  {
    next := root.siblings;
    root.mark := false;
  }

  lemma NextRoot(rank: Node -> int, rest: seq<Tree<Node>>, places: Places)
    requires rest != []
    ensures var (after, held) := Enter(places, RootOf(rank, rest[0].(mark := false)));
            EnterAll(places, RootsOf(rank, rest)) == (held && EnterAll(after, RootsOf(rank, rest[1..])))
  {
    assert RootsOf(rank, rest)[1..] == RootsOf(rank, rest[1..]);
  }

  lemma FirstRoot(rank: Node -> int, forest: seq<Tree<Node>>)
    requires forest != []
    ensures var (after, held) := Enter(map[], RootOf(rank, forest[0]));
            WinnersUnmarked(RootsOf(rank, forest)) == EnterAll(after, RootsOf(rank, forest[1..]))
  {
    assert RootsOf(rank, forest)[1..] == RootsOf(rank, forest[1..]);
  }

  lemma SegHead(head: Node?, ts: seq<Tree<Node>>)
    requires Seg(head, ts, null)
    ensures head == null <==> ts == []
    ensures ts != [] ==> ts[0].elem == head && RepTree(ts[0]) && Seg(head.siblings, ts[1..], null)
    ensures ts != [] ==> head in Nodes(ts)
  {}

  /** Pairs up the trees of a root chain until all have different degrees. */
  method PairRoots(rank: Node -> int, head: Node, ghost forest: seq<Tree<Node>>, card: nat)
      returns (nbd: array<Node?>, held: bool, ghost table: seq<Tree<Node>>)
    requires Seg(head, forest, null) && forest != [] && Good(forest, rank)
    requires card >= 2 && Size(forest) <= card
    modifies Nodes(forest)
    ensures fresh(nbd) && nbd.Length == MaxDegree(card)
    ensures Indexed(nbd[..], table) && RepAll(table) && Good(table, rank) && table != []
    ensures Nodes(table) == Nodes(forest) && Size(table) == Size(forest)
    ensures held == WinnersUnmarked(RootsOf(rank, forest))
    ensures Marks(table) == Marks([forest[0]]) + Marks(Unmarked(forest[1..])) && (|forest| == 1 ==> table == forest)
  {
    hide Size, Marks, Unmarked, Good, Indexed, Nodes, Seg, RepAll, RepTree, Shows, Enter;
    var maxpDegree := MaxDegree(card);
    SegHead(head, forest);
    ghost var rest := forest[1..];
    var root: Node? := head.siblings;
    nbd := new Node?[maxpDegree](_ => null);
    EmptyTable(rank, nbd[..]);
    SplitFirst(forest, rank);
    ghost var places;
    table, places := StartTable(rank, nbd, head, forest, root, card);
    held := true;
    while root != null
      invariant Seg(root, rest, null) && Good(rest, rank)
      invariant nbd.Length == maxpDegree && Indexed(nbd[..], table) && RepAll(table) && Good(table, rank) && table != []
      invariant Nodes(table) !! Nodes(rest) && Nodes(table) + Nodes(rest) == Nodes(forest)
      invariant Size(table) + Size(rest) == Size(forest)
      invariant Marks(table) + Marks(Unmarked(rest)) == Marks([forest[0]]) + Marks(Unmarked(forest[1..]))
      invariant |forest| == 1 ==> table == forest && rest == []
      invariant Shows(places, table, rank)
      invariant WinnersUnmarked(RootsOf(rank, forest)) == (held && EnterAll(places, RootsOf(rank, rest)))
      decreases |rest|
    {
      SegHead(root, rest);
      SplitFirst(rest, rank);
      ghost var t := rest[0].(mark := false);
      var nextRoot := TakeRoot(root, rest, table);
      NextRoot(rank, rest, places);
      rest := rest[1..];
      var unmarked;
      unmarked, table, places := Settle(rank, nbd, root, table, t, nextRoot, rest, card, places);
      held := held && unmarked;
      root := nextRoot;
    }
    SegHead(root, rest);
    EmptyTable(rank, nbd[..0]);
    NoMarks();
  }

  lemma NoMarks()
    ensures Marks(Unmarked<Node>([])) == Marks<Node>([]) == 0
  {}

  /** The first root goes into the array as it is. */
  method StartTable(rank: Node -> int, nbd: array<Node?>, head: Node, ghost forest: seq<Tree<Node>>, ghost next: Node?,
      ghost card: nat)
      returns (ghost table: seq<Tree<Node>>, ghost places: Places)
    requires forest != [] && Seg(head, forest, null) && Good(forest, rank) && next == head.siblings
    requires forall d :: 0 <= d < nbd.Length ==> nbd[d] == null
    requires card >= 2 && nbd.Length == MaxDegree(card) && Size(forest) <= card
    modifies nbd, head
    ensures Indexed(nbd[..], table) && RepAll(table) && Good(table, rank) && table != []
    ensures Nodes(table) == Nodes([forest[0]]) && Size(table) == Size([forest[0]]) && table == [forest[0]]
    ensures Seg(next, forest[1..], null)
    ensures Shows(places, table, rank)
    ensures WinnersUnmarked(RootsOf(rank, forest)) == EnterAll(places, RootsOf(rank, forest[1..]))
  {
    hide Size, Marks, Distinct, HeapOrdered, Deep, Nodes, Indexed;
    EmptyTable(rank, nbd[..]);
    SplitFirst(forest, rank);
    var held;
    held, table, places := Settle(rank, nbd, head, [], forest[0], next, forest[1..], card, map[]);
    FirstRoot(rank, forest);
  }

  // ------------------------------------------------------- rebuilding the chain

  ghost function Trees(ts: seq<Tree<Node>>): multiset<Tree<Node>> {
    multiset(ts)
  }

  /** From place `k` on the array holds the trees of `table`. */
  ghost predicate IndexedFrom(nbd: seq<Node?>, table: seq<Tree<Node>>, k: nat) {
    && (forall t :: t in table ==> k <= |t.kids| < |nbd| && nbd[|t.kids|] == t.elem)
    && (forall d :: k <= d < |nbd| && nbd[d] != null ==> exists t :: t in table && |t.kids| == d)
    && (forall t, u :: t in table && u in table && |t.kids| == |u.kids| ==> t == u)
  }

  lemma PassEmpty(nbd: seq<Node?>, table: seq<Tree<Node>>, k: nat)
    requires IndexedFrom(nbd, table, k) && k < |nbd| && nbd[k] == null
    ensures IndexedFrom(nbd, table, k + 1)
  {}

  lemma InRange(nbd: seq<Node?>, table: seq<Tree<Node>>, k: nat)
    requires IndexedFrom(nbd, table, k)
    ensures table != [] ==> k < |nbd|
    ensures k == |nbd| ==> table == []
  {
    if table != [] { assert table[0] in table; }
  }

  lemma TakeFrom(nbd: seq<Node?>, table: seq<Tree<Node>>, k: nat, i: nat, rank: Node -> int)
    requires IndexedFrom(nbd, table, k) && Good(table, rank) && i < |table| && |table[i].kids| == k
    ensures IndexedFrom(nbd, Without(table, i), k + 1)
  {
    hide Good;
    var t, rest := table[i], Without(table, i);
    RestMembers(table, i, rank);
    assert t in table;
    forall d | k + 1 <= d < |nbd| && nbd[d] != null ensures exists u :: u in rest && |u.kids| == d {
      var u :| u in table && |u.kids| == d;
      assert u in rest;
    }
  }

  /** The tree at place `k`, and the table from the next place on. */
  lemma PickFrom(nbd: seq<Node?>, table: seq<Tree<Node>>, k: nat, rank: Node -> int)
    returns (t: Tree<Node>, rest: seq<Tree<Node>>)
    requires IndexedFrom(nbd, table, k) && Good(table, rank) && RepAll(table) && k < |nbd| && nbd[k] != null
    ensures t.elem == nbd[k] && |t.kids| == k && RepTree(t) && Good([t], rank)
    ensures IndexedFrom(nbd, rest, k + 1) && Good(rest, rank) && RepAll(rest)
    ensures Nodes(table) == Nodes([t]) + Nodes(rest) && Nodes([t]) == {t.elem} + Nodes(t.kids)
    ensures Nodes([t]) !! Nodes(rest) && Size(table) == Size([t]) + Size(rest)
    ensures Trees(table) == Trees(rest) + multiset{t}
  {
    hide Good, Size, Marks, Nodes, Seg;
    t :| t in table && |t.kids| == k;
    var i :| 0 <= i < |table| && table[i] == t;
    rest := Without(table, i);
    assert table == table[..i] + ([t] + table[i + 1..]);
    TakeFrom(nbd, table, k, i, rank);
    GoodOut(table, i, rank);
    RepOut(table, i);
    NodesOne(t);
  }

  /** Roots of different degrees below a bound, the first prior to the others. */
  ghost predicate Ranked(rank: Node -> int, mt: Tree<Node>, acc: seq<Tree<Node>>, below: nat) {
    && Good([mt] + acc, rank)
    && (forall t :: t in acc ==> rank(mt.elem) <= rank(t.elem))
    && (forall i :: 0 <= i < |acc| ==> |acc[i].kids| < below && |acc[i].kids| != |mt.kids|)
    && |mt.kids| < below
    && (forall i, j :: 0 <= i < j < |acc| ==> |acc[i].kids| != |acc[j].kids|)
  }

  lemma RankedExtends(rank: Node -> int, mt: Tree<Node>, rt: Tree<Node>, acc: seq<Tree<Node>>, mt': Tree<Node>,
      acc': seq<Tree<Node>>)
    requires Ranked(rank, mt, acc, |rt.kids|) && Good([rt], rank) && Nodes([rt]) !! Nodes([mt] + acc)
    requires mt' == if rank(mt.elem) <= rank(rt.elem) then mt else rt
    requires acc' == [if rank(mt.elem) <= rank(rt.elem) then rt else mt] + acc
    ensures Ranked(rank, mt', acc', |rt.kids| + 1)
    ensures Nodes([mt'] + acc') == Nodes([mt] + acc) + Nodes([rt])
    ensures Size([mt'] + acc') == Size([mt] + acc) + Size([rt])
    ensures Trees([mt'] + acc') == Trees([mt] + acc) + multiset{rt}
  {
    hide Size, Marks, Nodes, Good;
    GoodAppend([mt], acc, rank);
    GoodAppend([acc'[0]], acc, rank);
    GoodAppend([mt'], acc', rank);
  }

  lemma GoodApart(t: Tree<Node>, rank: Node -> int)
    requires Good([t], rank)
    ensures t.elem !in Nodes(t.kids)
  {
    NodesOne(t);
  }

  lemma RankedApart(rank: Node -> int, mt: Tree<Node>, acc: seq<Tree<Node>>, below: nat)
    requires Ranked(rank, mt, acc, below)
    ensures mt.elem !in Nodes(mt.kids) && mt.elem !in Nodes(acc) && Nodes(mt.kids) !! Nodes(acc)
  {
    GoodAppend([mt], acc, rank);
    NodesOne(mt);
  }

  /** Puts a root at the front of the chain under construction. */
  method Prepend(root: Node, roots: Node?, ghost t: Tree<Node>, ghost acc: seq<Tree<Node>>, ghost mt: Tree<Node>,
      ghost table: seq<Tree<Node>>)
    requires t.elem == root && RepTree(t) && Seg(roots, acc, null) && RepTree(mt) && RepAll(table)
    requires root !in Nodes(t.kids) && root !in Nodes(acc) && root != mt.elem && root !in Nodes(mt.kids)
    requires root !in Nodes(table)
    modifies root`siblings
    ensures Seg(root, [t] + acc, null) && RepTree(mt) && RepAll(table)
  {
    root.siblings := roots;
    assert ([t] + acc)[1..] == acc;
  }

  /** Keeps the prior of two roots apart and chains the other. */
  method Absorb(rank: Node -> int, minRoot: Node, root: Node, roots: Node?, ghost mt: Tree<Node>, ghost rt: Tree<Node>,
      ghost acc: seq<Tree<Node>>, ghost table: seq<Tree<Node>>)
      returns (minRoot': Node, roots': Node, ghost mt': Tree<Node>, ghost acc': seq<Tree<Node>>)
    requires mt.elem == minRoot && RepTree(mt) && rt.elem == root && RepTree(rt) && Good([rt], rank)
    requires Seg(roots, acc, null) && Ranked(rank, mt, acc, |rt.kids|) && Nodes([rt]) !! Nodes([mt] + acc)
    requires RepAll(table) && Nodes(table) !! Nodes([rt]) && Nodes(table) !! Nodes([mt] + acc)
    modifies minRoot, root
    ensures mt'.elem == minRoot' && RepTree(mt') && Seg(roots', acc', null) && RepAll(table)
    ensures Ranked(rank, mt', acc', |rt.kids| + 1)
    ensures acc' == [if rank(minRoot) <= rank(root) then rt else mt] + acc
    ensures mt' == if rank(minRoot) <= rank(root) then mt else rt
    ensures Nodes([mt'] + acc') == Nodes([mt] + acc) + Nodes([rt])
    ensures Size([mt'] + acc') == Size([mt] + acc) + Size([rt])
    ensures Trees([mt'] + acc') == Trees([mt] + acc) + multiset{rt}
  {
    hide Trees, Size, Marks, Good, Seg, RepAll, RepTree, Ranked, Nodes;
    RankedApart(rank, mt, acc, |rt.kids|);
    GoodApart(rt, rank);
    NodesOne(mt); NodesOne(rt);
    NodesAppend([mt], acc);
    if !Prioreq(rank)(minRoot, root) {
      mt', acc' := rt, [mt] + acc;
      Prepend(minRoot, roots, mt, acc, rt, table);
      roots', minRoot' := minRoot, root;
    } else {
      mt', acc' := mt, [rt] + acc;
      Prepend(root, roots, rt, acc, mt, table);
      roots', minRoot' := root, minRoot;
    }
    RankedExtends(rank, mt, rt, acc, mt', acc');
  }

  lemma StartFrom(nbd: seq<Node?>, table: seq<Tree<Node>>)
    requires Indexed(nbd, table)
    ensures IndexedFrom(nbd, table, 0)
  {}

  lemma OnlyRoot(rank: Node -> int, t: Tree<Node>, k: nat)
    requires Good([t], rank) && |t.kids| < k
    ensures Ranked(rank, t, [], k) && [t] + [] == [t] && Seg(null, [], null)
  {}

  lemma RankedMono(rank: Node -> int, mt: Tree<Node>, acc: seq<Tree<Node>>, k: nat, l: nat)
    requires Ranked(rank, mt, acc, k) && k <= l
    ensures Ranked(rank, mt, acc, l)
  {}

  /** Re-creates the root chain from the array; the prior root comes first. */
  method CollectRoots(rank: Node -> int, nbd: array<Node?>, ghost table0: seq<Tree<Node>>)
    returns (minRoot: Node, tail: Node, ghost mt: Tree<Node>, ghost acc: seq<Tree<Node>>)
    requires Indexed(nbd[..], table0) && RepAll(table0) && Good(table0, rank) && table0 != []
    modifies Nodes(table0)
    ensures mt.elem == minRoot && Seg(minRoot, [mt] + acc, null) && tail == Last([mt] + acc)
    ensures Ranked(rank, mt, acc, nbd.Length)
    ensures Nodes([mt] + acc) == Nodes(table0) && Size([mt] + acc) == Size(table0)
    ensures Trees([mt] + acc) == Trees(table0)
  {
    hide Trees, Size, Marks, Good, Seg, RepAll, RepTree, Ranked, Nodes, Indexed, IndexedFrom;
    ghost var table := table0;
    StartFrom(nbd[..], table);
    InRange(nbd[..], table, 0);
    var degree := 0;
    while nbd[degree] == null
      invariant 0 <= degree < nbd.Length && IndexedFrom(nbd[..], table, degree) && RepAll(table)
      decreases nbd.Length - degree
    {
      PassEmpty(nbd[..], table, degree);
      degree := degree + 1;
      InRange(nbd[..], table, degree);
    }
    mt, table := PickFrom(nbd[..], table, degree, rank);
    minRoot := nbd[degree];
    degree := degree + 1;
    acc := [];
    OnlyRoot(rank, mt, degree);
    OneTree(mt);
    NoTrees();
    // the second root, if there is one, ends the chain
    while degree < nbd.Length && nbd[degree] == null
      invariant 0 <= degree <= nbd.Length && IndexedFrom(nbd[..], table, degree) && Ranked(rank, mt, [], degree)
      invariant RepAll(table) && RepTree(mt) && Seg(null, [], null)
    {
      PassEmpty(nbd[..], table, degree);
      RankedMono(rank, mt, [], degree, degree + 1);
      degree := degree + 1;
    }
    if degree == nbd.Length {
      InRange(nbd[..], table, degree);
      EmptyTable(rank, []);
      tail := minRoot;
      GoodApart(mt, rank);
      CloseChain(minRoot, null, mt, []);
      return;
    }
    minRoot, tail, mt, acc := ChainFrom(rank, nbd, degree, minRoot, mt, table);
  }

  /** The second root ends the chain, and the others are chained in front. */
  method ChainFrom(rank: Node -> int, nbd: array<Node?>, degree: nat, minRoot0: Node, ghost mt0: Tree<Node>,
      ghost table0: seq<Tree<Node>>)
      returns (minRoot: Node, tail: Node, ghost mt: Tree<Node>, ghost acc: seq<Tree<Node>>)
    requires degree < nbd.Length && nbd[degree] != null && IndexedFrom(nbd[..], table0, degree)
    requires RepAll(table0) && Good(table0, rank) && Nodes(table0) !! Nodes([mt0])
    requires mt0.elem == minRoot0 && RepTree(mt0) && Ranked(rank, mt0, [], degree) && Nodes([mt0] + []) == Nodes([mt0])
    modifies Nodes(table0) + Nodes([mt0])
    ensures mt.elem == minRoot && Seg(minRoot, [mt] + acc, null) && tail == Last([mt] + acc)
    ensures Ranked(rank, mt, acc, nbd.Length)
    ensures Nodes([mt] + acc) == Nodes(table0) + Nodes([mt0]) && Size([mt] + acc) == Size(table0) + Size([mt0])
    ensures Trees([mt] + acc) == Trees(table0) + multiset{mt0}
  {
    hide Trees, Size, Marks, Good, Seg, RepAll, RepTree, Ranked, Nodes, Indexed, IndexedFrom;
    ghost var rt, table := PickFrom(nbd[..], table0, degree, rank);
    var roots: Node?;
    assert [mt0] + [] == [mt0];
    OneTree(mt0);
    NoChain();
    NodesOne(mt0);
    minRoot, roots, mt, acc := Absorb(rank, minRoot0, nbd[degree], null, mt0, rt, [], table);
    tail := roots;
    SegHead(roots, acc);
    minRoot, roots, mt, acc := AbsorbRest(rank, nbd, degree + 1, minRoot, roots, mt, acc, table);
    RankedApart(rank, mt, acc, nbd.Length);
    NodesAppend([mt], acc);
    NodesOne(mt);
    CloseChain(minRoot, roots, mt, acc);
  }

  lemma NoChain()
    ensures Seg(null, [], null)
  {}

  method CloseChain(minRoot: Node, roots: Node?, ghost mt: Tree<Node>, ghost acc: seq<Tree<Node>>)
    requires mt.elem == minRoot && RepTree(mt) && Seg(roots, acc, null)
    requires minRoot !in Nodes(mt.kids) && minRoot !in Nodes(acc)
    modifies minRoot`siblings
    ensures Seg(minRoot, [mt] + acc, null)
  {
    minRoot.siblings := roots;
    assert ([mt] + acc)[1..] == acc;
  }

  /** The loop over the rest of the array, each root chained in front. */
  method AbsorbRest(rank: Node -> int, nbd: array<Node?>, degree0: nat, minRoot0: Node, roots0: Node,
      ghost mt0: Tree<Node>, ghost acc0: seq<Tree<Node>>, ghost table0: seq<Tree<Node>>)
      returns (minRoot: Node, roots: Node, ghost mt: Tree<Node>, ghost acc: seq<Tree<Node>>)
    requires degree0 <= nbd.Length && IndexedFrom(nbd[..], table0, degree0) && RepAll(table0) && Good(table0, rank)
    requires mt0.elem == minRoot0 && RepTree(mt0) && Seg(roots0, acc0, null) && Ranked(rank, mt0, acc0, degree0)
    requires Nodes(table0) !! Nodes([mt0] + acc0) && acc0 != []
    modifies Nodes(table0) + Nodes([mt0] + acc0)
    ensures mt.elem == minRoot && RepTree(mt) && Seg(roots, acc, null) && Ranked(rank, mt, acc, nbd.Length)
    ensures Nodes([mt] + acc) == Nodes(table0) + Nodes([mt0] + acc0)
    ensures Size([mt] + acc) == Size(table0) + Size([mt0] + acc0)
    ensures acc != [] && acc[|acc| - 1] == acc0[|acc0| - 1]
    ensures Trees([mt] + acc) == Trees(table0) + Trees([mt0] + acc0)
  {
    hide Trees, Size, Marks, Good, Seg, RepAll, RepTree, Ranked, Nodes, Indexed, IndexedFrom;
    ghost var table := table0;
    var degree := degree0;
    minRoot, roots, mt, acc := minRoot0, roots0, mt0, acc0;
    while degree < nbd.Length
      invariant degree0 <= degree <= nbd.Length && IndexedFrom(nbd[..], table, degree) && RepAll(table)
      invariant Good(table, rank)
      invariant mt.elem == minRoot && RepTree(mt) && Seg(roots, acc, null) && Ranked(rank, mt, acc, degree)
      invariant Nodes(table) !! Nodes([mt] + acc) && acc != [] && acc[|acc| - 1] == acc0[|acc0| - 1]
      invariant Nodes(table) + Nodes([mt] + acc) == Nodes(table0) + Nodes([mt0] + acc0)
      invariant Size(table) + Size([mt] + acc) == Size(table0) + Size([mt0] + acc0)
      invariant Trees(table) + Trees([mt] + acc) == Trees(table0) + Trees([mt0] + acc0)
    {
      var root := nbd[degree];
      if root != null {
        ghost var rt: Tree<Node>;
        rt, table := PickFrom(nbd[..], table, degree, rank);
        NodesAppend([mt], acc);
        NodesOne(mt);
        minRoot, roots, mt, acc := Absorb(rank, minRoot, root, roots, mt, rt, acc, table);
      } else {
        PassEmpty(nbd[..], table, degree);
        RankedMono(rank, mt, acc, degree, degree + 1);
      }
      degree := degree + 1;
    }
    InRange(nbd[..], table, degree);
    EmptyTable(rank, []);
    NoTrees();
  }

  lemma NoTrees()
    ensures Trees([]) == multiset{}
  {}

  lemma OneTree(t: Tree<Node>)
    ensures Trees([t] + []) == Trees([t]) == multiset{t}
  {
    assert [t] + [] == [t];
  }

  /** The first tree of one is somewhere in the other. */
  lemma TreesWithout(ts: seq<Tree<Node>>, us: seq<Tree<Node>>) returns (i: nat)
    requires Trees(ts) == Trees(us) && ts != []
    ensures i < |us| && us[i] == ts[0] && Trees(ts[1..]) == Trees(us[..i] + us[i + 1..])
  {
    hide Trees;
    i := TreesMember(ts, us);
    OneLess(us, i);
    OneLess(ts, 0);
    assert ts[..0] + ts[1..] == ts[1..];
  }

  lemma TreesMember(ts: seq<Tree<Node>>, us: seq<Tree<Node>>) returns (i: nat)
    requires Trees(ts) == Trees(us) && ts != []
    ensures i < |us| && us[i] == ts[0]
  {
    assert ts[0] in multiset(ts) && ts[0] in multiset(us);
    i :| 0 <= i < |us| && us[i] == ts[0];
  }

  lemma OneLess(us: seq<Tree<Node>>, i: nat)
    requires i < |us|
    ensures Trees(us[..i] + us[i + 1..]) == Trees(us) - multiset{us[i]}
  {
    assert us == us[..i] + ([us[i]] + us[i + 1..]);
  }

  lemma MarksWithout(us: seq<Tree<Node>>, i: nat)
    requires i < |us|
    ensures Marks(us) == Marks([us[i]]) + Marks(us[..i] + us[i + 1..])
  {
    hide Marks;
    var a, b := us[..i], us[i + 1..];
    assert us == a + ([us[i]] + b);
    MarksAppend(a, [us[i]] + b);
    MarksAppend([us[i]], b);
    MarksAppend(a, b);
  }

  lemma TreesNone(us: seq<Tree<Node>>)
    requires Trees([]) == Trees(us)
    ensures us == []
  {
    assert |multiset(us)| == 0;
  }

  /** The same trees in another order. */
  lemma {:induction false} TreesMarks(ts: seq<Tree<Node>>, us: seq<Tree<Node>>)
    requires Trees(ts) == Trees(us)
    ensures Marks(ts) == Marks(us)
  {
    hide Trees, Marks;
    if ts == [] {
      TreesNone(us);
    } else {
      var i := TreesWithout(ts, us);
      TreesMarks(ts[1..], us[..i] + us[i + 1..]);
      MarksWithout(us, i);
      MarksWithout(ts, 0);
      assert ts[..0] + ts[1..] == ts[1..];
    }
  }

  lemma TreesOne(ts: seq<Tree<Node>>, us: seq<Tree<Node>>)
    requires Trees(ts) == Trees(us)
    ensures |us| == 1 ==> ts == us
  {
    if |us| != 1 { return; }
    assert |multiset(ts)| == |multiset(us)| == 1;
    assert ts[0] in multiset(us) && us == [us[0]];
  }
}
