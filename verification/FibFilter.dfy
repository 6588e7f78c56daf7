/** What filtering a forest yields: which trees stay in a child chain, which move to
    the roots, and why the result still meets the Fibonacci bound. */
module FibFilter {
  import opened FibTree

  datatype Filtered<T> = Filtered(kept: seq<Tree<T>>, moved: seq<Tree<T>>)

  function Unmarked<T>(ts: seq<Tree<T>>): (us: seq<Tree<T>>)
    ensures |us| == |ts| && forall i :: 0 <= i < |ts| ==> us[i] == ts[i].(mark := false)
  {
    if ts == [] then [] else [ts[0].(mark := false)] + Unmarked(ts[1..])
  }

  /** What becomes of one node of a child chain once its own children have been
      filtered into `sub`. */
  function FilterOne<T>(t: Tree<T>, keep: bool, sub: Filtered<T>): Filtered<T>
    requires |sub.kept| <= |t.kids|
  {
    var lost := |t.kids| - |sub.kept|;
    if !keep then Filtered([], sub.moved + Unmarked(sub.kept))
    else if lost == 0 then Filtered([t.(kids := sub.kept)], sub.moved)
    else if t.mark || lost > 1 then Filtered([], sub.moved + [Tree(t.elem, false, sub.kept)])
    else Filtered([Tree(t.elem, true, sub.kept)], sub.moved)
  }

  function FilterKids<T>(ts: seq<Tree<T>>, f: T -> bool): (r: Filtered<T>)
    ensures |r.kept| <= |ts|
  {
    if ts == [] then Filtered([], [])
    else
      var sub := FilterKids(ts[0].kids, f);
      var one := FilterOne(ts[0], f(ts[0].elem), sub);
      var rest := FilterKids(ts[1..], f);
      Filtered(one.kept + rest.kept, one.moved + rest.moved)
  }

  function FilterRoot<T>(t: Tree<T>, keep: bool, sub: Filtered<T>): seq<Tree<T>> {
    sub.moved + if keep then [t.(kids := sub.kept)] else Unmarked(sub.kept)
  }

  /** The roots after `cucon_fibq_filter_d`, before they are paired up. */
  function FilterRoots<T>(ts: seq<Tree<T>>, f: T -> bool): seq<Tree<T>> {
    if ts == [] then []
    else FilterRoot(ts[0], f(ts[0].elem), FilterKids(ts[0].kids, f)) + FilterRoots(ts[1..], f)
  }

  // ----------------------------------------------------------------- contents

  function Accepted<T>(s: set<T>, f: T -> bool): set<T> {
    set x | x in s && f(x)
  }

  lemma AcceptedParts<T>(ts: seq<Tree<T>>, f: T -> bool)
    requires ts != []
    ensures Accepted(Nodes(ts), f) ==
              Accepted(Nodes(ts[0].kids), f) + (if f(ts[0].elem) then {ts[0].elem} else {})
              + Accepted(Nodes(ts[1..]), f)
  {}

  lemma {:induction false} UnmarkedNodes<T>(ts: seq<Tree<T>>)
    ensures Nodes(Unmarked(ts)) == Nodes(ts) && Size(Unmarked(ts)) == Size(ts)
    ensures Distinct(Unmarked(ts)) <==> Distinct(ts)
  {
    if ts != [] {
      UnmarkedNodes(ts[1..]);
      assert Unmarked(ts)[1..] == Unmarked(ts[1..]);
    }
  }

  /** Both parts together hold each node of `s` once. */
  ghost predicate Splits<T>(r: Filtered<T>, s: set<T>) {
    Nodes(r.kept) + Nodes(r.moved) == s && Nodes(r.kept) !! Nodes(r.moved) && Distinct(r.kept) && Distinct(r.moved)
  }

  lemma FilterOneSplits<T>(t: Tree<T>, keep: bool, sub: Filtered<T>, s: set<T>)
    requires |sub.kept| <= |t.kids| && Splits(sub, s) && t.elem !in s
    ensures Splits(FilterOne(t, keep, sub), s + if keep then {t.elem} else {})
  {
    var lost := |t.kids| - |sub.kept|;
    if !keep {
      UnmarkedNodes(sub.kept);
      NodesAppend(sub.moved, Unmarked(sub.kept));
      DistinctAppend(sub.moved, Unmarked(sub.kept));
    } else if lost == 0 {
      NodesOne(t.(kids := sub.kept));
    } else if t.mark || lost > 1 {
      NodesAppend(sub.moved, [Tree(t.elem, false, sub.kept)]);
      DistinctAppend(sub.moved, [Tree(t.elem, false, sub.kept)]);
      NodesOne(Tree(t.elem, false, sub.kept));
    } else {
      NodesOne(Tree(t.elem, true, sub.kept));
    }
  }

  lemma SplitsUnion<T>(a: Filtered<T>, s: set<T>, b: Filtered<T>, u: set<T>)
    requires Splits(a, s) && Splits(b, u) && s !! u
    ensures Splits(Filtered(a.kept + b.kept, a.moved + b.moved), s + u)
  {
    NodesAppend(a.kept, b.kept);
    DistinctAppend(a.kept, b.kept);
    NodesAppend(a.moved, b.moved);
    DistinctAppend(a.moved, b.moved);
  }

  /** Filtering keeps exactly the accepted nodes, each once. */
  lemma {:induction false} FilterKidsSplits<T>(ts: seq<Tree<T>>, f: T -> bool)
    requires Distinct(ts)
    ensures Splits(FilterKids(ts, f), Accepted(Nodes(ts), f))
  {
    if ts != [] {
      var t, sub, rest := ts[0], FilterKids(ts[0].kids, f), FilterKids(ts[1..], f);
      var one := FilterOne(t, f(t.elem), sub);
      var s, u := Accepted(Nodes(t.kids), f), Accepted(Nodes(ts[1..]), f);
      FilterKidsSplits(t.kids, f);
      FilterKidsSplits(ts[1..], f);
      FilterOneSplits(t, f(t.elem), sub, s);
      var s' := s + if f(t.elem) then {t.elem} else {};
      SplitsUnion(one, s', rest, u);
      AcceptedParts(ts, f);
    }
  }

  lemma FilterRootNodes<T>(t: Tree<T>, keep: bool, sub: Filtered<T>, s: set<T>)
    requires Splits(sub, s) && t.elem !in s
    ensures Nodes(FilterRoot(t, keep, sub)) == s + (if keep then {t.elem} else {})
    ensures Distinct(FilterRoot(t, keep, sub))
  {
    var t' := t.(kids := sub.kept);
    NodesOne(t');
    NodesAppend(sub.moved, [t']);
    DistinctAppend(sub.moved, [t']);
    UnmarkedNodes(sub.kept);
    NodesAppend(sub.moved, Unmarked(sub.kept));
    DistinctAppend(sub.moved, Unmarked(sub.kept));
  }

  lemma JoinNodes<T>(a: seq<Tree<T>>, s: set<T>, b: seq<Tree<T>>, u: set<T>)
    requires Nodes(a) == s && Distinct(a) && Nodes(b) == u && Distinct(b) && s !! u
    ensures Nodes(a + b) == s + u && Distinct(a + b)
  {
    NodesAppend(a, b);
    DistinctAppend(a, b);
  }

  lemma {:induction false} FilterRootsNodes<T>(ts: seq<Tree<T>>, f: T -> bool)
    requires Distinct(ts)
    ensures Nodes(FilterRoots(ts, f)) == Accepted(Nodes(ts), f) && Distinct(FilterRoots(ts, f))
  {
    if ts != [] {
      var t, sub, rest := ts[0], FilterKids(ts[0].kids, f), FilterRoots(ts[1..], f);
      var s, u := Accepted(Nodes(t.kids), f), Accepted(Nodes(ts[1..]), f);
      var one := FilterRoot(t, f(t.elem), sub);
      var s' := s + if f(t.elem) then {t.elem} else {};
      assert Nodes(one) == s' && Distinct(one) by {
        FilterKidsSplits(t.kids, f);
        FilterRootNodes(t, f(t.elem), sub, s);
      }
      FilterRootsNodes(ts[1..], f);
      assert FilterRoots(ts, f) == one + rest;
      JoinNodes(one, s', rest, u);
      AcceptedParts(ts, f);
    }
  }

  // --------------------------------------------------------------- heap order

  lemma {:induction false} UnmarkedHeap<T>(ts: seq<Tree<T>>, prioreq: (T, T) -> bool)
    ensures HeapOrdered(Unmarked(ts), prioreq) <==> HeapOrdered(ts, prioreq)
  {
    if ts != [] {
      UnmarkedHeap(ts[1..], prioreq);
      assert Unmarked(ts)[1..] == Unmarked(ts[1..]);
    }
  }

  ghost predicate KidsBelow<T>(x: T, kids: seq<Tree<T>>, prioreq: (T, T) -> bool) {
    forall i :: 0 <= i < |kids| ==> prioreq(x, kids[i].elem)
  }

  /** Children that stay are children the node had. */
  lemma {:induction false} FilterKidsBelow<T>(x: T, ts: seq<Tree<T>>, f: T -> bool, prioreq: (T, T) -> bool)
    requires KidsBelow(x, ts, prioreq)
    ensures KidsBelow(x, FilterKids(ts, f).kept, prioreq)
  {
    if ts != [] {
      assert KidsBelow(x, ts[1..], prioreq);
      FilterKidsBelow(x, ts[1..], f, prioreq);
    }
  }

  lemma {:induction false} FilterKidsHeap<T>(ts: seq<Tree<T>>, f: T -> bool, prioreq: (T, T) -> bool)
    requires HeapOrdered(ts, prioreq)
    ensures HeapOrdered(FilterKids(ts, f).kept, prioreq) && HeapOrdered(FilterKids(ts, f).moved, prioreq)
  {
    if ts != [] {
      var t, sub, rest := ts[0], FilterKids(ts[0].kids, f), FilterKids(ts[1..], f);
      var one := FilterOne(t, f(t.elem), sub);
      FilterKidsHeap(t.kids, f, prioreq);
      FilterKidsHeap(ts[1..], f, prioreq);
      FilterKidsBelow(t.elem, t.kids, f, prioreq);
      OneHeap(t, f(t.elem), sub, prioreq);
      HeapAppend(one.kept, rest.kept, prioreq);
      HeapAppend(one.moved, rest.moved, prioreq);
    }
  }

  lemma OneHeap<T>(t: Tree<T>, keep: bool, sub: Filtered<T>, prioreq: (T, T) -> bool)
    requires |sub.kept| <= |t.kids|
    requires HeapOrdered(sub.kept, prioreq) && HeapOrdered(sub.moved, prioreq) && KidsBelow(t.elem, sub.kept, prioreq)
    ensures var one := FilterOne(t, keep, sub); HeapOrdered(one.kept, prioreq) && HeapOrdered(one.moved, prioreq)
  {
    UnmarkedHeap(sub.kept, prioreq);
    HeapAppend(sub.moved, Unmarked(sub.kept), prioreq);
    HeapAppend(sub.moved, [Tree(t.elem, false, sub.kept)], prioreq);
    HeapOne(Tree(t.elem, false, sub.kept), prioreq);
    HeapOne(Tree(t.elem, true, sub.kept), prioreq);
    HeapOne(t.(kids := sub.kept), prioreq);
  }

  // ------------------------------------------------------------ the size bound

  lemma {:induction false} UnmarkedDeep<T>(ts: seq<Tree<T>>)
    ensures Deep(Unmarked(ts)) <==> Deep(ts)
  {
    if ts != [] {
      UnmarkedDeep(ts[1..]);
      assert Unmarked(ts)[1..] == Unmarked(ts[1..]);
    }
  }

  /** Losing children leaves those that stay deep enough: a second loss would have
      moved the child to the roots. */
  lemma {:induction false} FilterKidsStayDeep<T>(ts: seq<Tree<T>>, f: T -> bool)
    requires KidsDeep(ts)
    ensures KidsDeep(FilterKids(ts, f).kept)
  {
    if ts != [] {
      assert KidsDeep(ts[1..]);
      FilterKidsStayDeep(ts[1..], f);
      var one, rest := FilterOne(ts[0], f(ts[0].elem), FilterKids(ts[0].kids, f)), FilterKids(ts[1..], f);
      assert |rest.kept| <= |ts| - 1;
      assert FilterKids(ts, f).kept == one.kept + rest.kept;
    }
  }

  lemma {:induction false} FilterKidsDeep<T>(ts: seq<Tree<T>>, f: T -> bool)
    requires Deep(ts)
    ensures Deep(FilterKids(ts, f).kept) && Deep(FilterKids(ts, f).moved)
  {
    if ts != [] {
      var t, sub, rest := ts[0], FilterKids(ts[0].kids, f), FilterKids(ts[1..], f);
      var one := FilterOne(t, f(t.elem), sub);
      FilterKidsDeep(t.kids, f);
      FilterKidsDeep(ts[1..], f);
      FilterKidsStayDeep(t.kids, f);
      OneDeep(t, f(t.elem), sub);
      DeepAppend(one.kept, rest.kept);
      DeepAppend(one.moved, rest.moved);
    }
  }

  lemma OneDeep<T>(t: Tree<T>, keep: bool, sub: Filtered<T>)
    requires |sub.kept| <= |t.kids|
    requires Deep(sub.kept) && Deep(sub.moved) && KidsDeep(sub.kept)
    ensures var one := FilterOne(t, keep, sub); Deep(one.kept) && Deep(one.moved)
  {
    UnmarkedDeep(sub.kept);
    DeepAppend(sub.moved, Unmarked(sub.kept));
    DeepAppend(sub.moved, [Tree(t.elem, false, sub.kept)]);
    DeepOne(Tree(t.elem, false, sub.kept));
    DeepOne(Tree(t.elem, true, sub.kept));
    DeepOne(t.(kids := sub.kept));
  }
}
