/** Which nodes a filter leaves where they are, which it cuts out of their chain, and
    which it marks, told by the marks and the losses of each node. */
module FibStay {
  import opened FibTree
  import opened FibFilter

  /** The mark of a node and the children it loses. */
  function Strain<T>(t: Tree<T>, f: T -> bool): nat
    decreases t, 0
  {
    Bit(t.mark) + Losses(t.kids, f)
  }

  /** The nodes of a chain that leave it. */
  function Losses<T>(ts: seq<Tree<T>>, f: T -> bool): nat
    decreases ts
  {
    if ts == [] then 0 else Bit(!Stays(ts[0], f)) + Losses(ts[1..], f)
  }

  /** An accepted node stays in its chain if its mark and its losses are at most one. */
  predicate Stays<T>(t: Tree<T>, f: T -> bool)
    decreases t, 1
  {
    f(t.elem) && Strain(t, f) <= 1
  }

  /** The nodes that stay in a chain, in order, each with the mark it has then. */
  function Stayers<T>(ts: seq<Tree<T>>, f: T -> bool): seq<(T, bool)> {
    if ts == [] then []
    else (if Stays(ts[0], f) then [(ts[0].elem, Strain(ts[0], f) == 1)] else []) + Stayers(ts[1..], f)
  }

  function Labels<T>(ts: seq<Tree<T>>): seq<(T, bool)> {
    if ts == [] then [] else [(ts[0].elem, ts[0].mark)] + Labels(ts[1..])
  }

  predicate TopsUnmarked<T>(ts: seq<Tree<T>>) {
    forall i :: 0 <= i < |ts| ==> !ts[i].mark
  }

  lemma {:induction false} StayersCount<T>(ts: seq<Tree<T>>, f: T -> bool)
    ensures |Stayers(ts, f)| + Losses(ts, f) == |ts|
  {
    if ts != [] { StayersCount(ts[1..], f); }
  }

  lemma {:induction false} LabelsAppend<T>(ts: seq<Tree<T>>, us: seq<Tree<T>>)
    ensures Labels(ts + us) == Labels(ts) + Labels(us) && |Labels(ts)| == |ts|
  {
    if ts == [] {
      assert ts + us == us;
    } else {
      assert (ts + us)[1..] == ts[1..] + us;
      LabelsAppend(ts[1..], us);
    }
  }

  lemma OneStays<T>(t: Tree<T>, f: T -> bool)
    requires |FilterKids(t.kids, f).kept| + Losses(t.kids, f) == |t.kids|
    requires TopsUnmarked(FilterKids(t.kids, f).moved)
    ensures var one := FilterOne(t, f(t.elem), FilterKids(t.kids, f));
            && Labels(one.kept) == (if Stays(t, f) then [(t.elem, Strain(t, f) == 1)] else [])
            && TopsUnmarked(one.moved)
  {
    hide FilterKids, Losses;
    var one := FilterOne(t, f(t.elem), FilterKids(t.kids, f));
    if one.kept != [] { assert one.kept[1..] == []; }
  }

  /** Filtering a chain leaves exactly the nodes in it that stay, marked if and only if their
      mark and their losses are one. What moves to the roots is unmarked. */
  lemma {:induction false} FilterKidsStay<T>(ts: seq<Tree<T>>, f: T -> bool)
    ensures Labels(FilterKids(ts, f).kept) == Stayers(ts, f)
    ensures |FilterKids(ts, f).kept| + Losses(ts, f) == |ts|
    ensures TopsUnmarked(FilterKids(ts, f).moved)
  {
    if ts != [] {
      FilterKidsStay(ts[0].kids, f);
      FilterKidsStay(ts[1..], f);
      hide Stays, Strain, FilterOne;
      OneStays(ts[0], f);
      var one, rest := FilterOne(ts[0], f(ts[0].elem), FilterKids(ts[0].kids, f)), FilterKids(ts[1..], f);
      LabelsAppend(one.kept, rest.kept);
      StayersCount(ts, f);
    }
  }

  // ------------------------------------------------------------------ families

  /** Each node with its children in order and their marks. */
  ghost function Families<T>(ts: seq<Tree<T>>): set<(T, seq<(T, bool)>)> {
    if ts == [] then {}
    else {(ts[0].elem, Labels(ts[0].kids))} + Families(ts[0].kids) + Families(ts[1..])
  }

  /** Each accepted node with the children that stay. */
  ghost function KeptFamilies<T>(ts: seq<Tree<T>>, f: T -> bool): set<(T, seq<(T, bool)>)> {
    if ts == [] then {}
    else
      (if f(ts[0].elem) then {(ts[0].elem, Stayers(ts[0].kids, f))} else {})
      + KeptFamilies(ts[0].kids, f) + KeptFamilies(ts[1..], f)
  }

  lemma {:induction false} FamiliesAppend<T>(ts: seq<Tree<T>>, us: seq<Tree<T>>)
    ensures Families(ts + us) == Families(ts) + Families(us)
  {
    if ts == [] {
      assert ts + us == us;
    } else {
      assert (ts + us)[1..] == ts[1..] + us;
      FamiliesAppend(ts[1..], us);
    }
  }

  lemma FamiliesOne<T>(t: Tree<T>)
    ensures Families([t]) == {(t.elem, Labels(t.kids))} + Families(t.kids) && Families<T>([]) == {}
  {
    assert [t][1..] == [];
  }

  lemma {:induction false} FamiliesUnmarked<T>(ts: seq<Tree<T>>)
    ensures Families(Unmarked(ts)) == Families(ts)
  {
    if ts != [] {
      assert Unmarked(ts)[1..] == Unmarked(ts[1..]);
      FamiliesUnmarked(ts[1..]);
    }
  }

  lemma OneFamilies<T>(t: Tree<T>, keep: bool, sub: Filtered<T>, one: Filtered<T>)
    requires |sub.kept| <= |t.kids| && one == FilterOne(t, keep, sub)
    ensures Families(one.kept) + Families(one.moved)
              == (if keep then {(t.elem, Labels(sub.kept))} else {}) + Families(sub.kept) + Families(sub.moved)
  {
    hide Families, Labels;
    var t0, t1 := Tree(t.elem, false, sub.kept), Tree(t.elem, true, sub.kept);
    FamiliesOne(t0);
    FamiliesOne(t1);
    FamiliesUnmarked(sub.kept);
    FamiliesAppend(sub.moved, [t0]);
    FamiliesAppend(sub.moved, Unmarked(sub.kept));
    assert t.(kids := sub.kept) in {t0, t1};
  }

  /** Filtering keeps of each accepted node exactly the children that stay, in order, wherever
      the node itself ends up. */
  lemma {:induction false} FilterKidsFamilies<T>(ts: seq<Tree<T>>, f: T -> bool)
    ensures Families(FilterKids(ts, f).kept) + Families(FilterKids(ts, f).moved) == KeptFamilies(ts, f)
  {
    if ts != [] {
      var t, sub, rest := ts[0], FilterKids(ts[0].kids, f), FilterKids(ts[1..], f);
      var one := FilterOne(t, f(t.elem), sub);
      FilterKidsStay(t.kids, f);
      FilterKidsFamilies(t.kids, f);
      FilterKidsFamilies(ts[1..], f);
      hide Families, Stayers, Labels, FilterOne;
      OneFamilies(t, f(t.elem), sub, one);
      FamiliesAppend(one.kept, rest.kept);
      FamiliesAppend(one.moved, rest.moved);
    }
  }

  lemma RootFamilies<T>(t: Tree<T>, keep: bool, sub: Filtered<T>)
    ensures Families(FilterRoot(t, keep, sub))
              == (if keep then {(t.elem, Labels(sub.kept))} else {}) + Families(sub.kept) + Families(sub.moved)
  {
    hide Families, Labels;
    FamiliesOne(t.(kids := sub.kept));
    FamiliesUnmarked(sub.kept);
    FamiliesAppend(sub.moved, [t.(kids := sub.kept)]);
    FamiliesAppend(sub.moved, Unmarked(sub.kept));
  }

  lemma {:induction false} FilterRootsFamilies<T>(ts: seq<Tree<T>>, f: T -> bool)
    ensures Families(FilterRoots(ts, f)) == KeptFamilies(ts, f)
  {
    if ts != [] {
      var t, sub := ts[0], FilterKids(ts[0].kids, f);
      FilterKidsStay(t.kids, f);
      FilterKidsFamilies(t.kids, f);
      FilterRootsFamilies(ts[1..], f);
      hide Families, Stayers, Labels, FilterRoot;
      RootFamilies(t, f(t.elem), sub);
      FamiliesAppend(FilterRoot(t, f(t.elem), sub), FilterRoots(ts[1..], f));
    }
  }

  /** The marked nodes of a chain itself. */
  ghost function MarkedTops<T>(ts: seq<Tree<T>>): set<T> {
    if ts == [] then {} else (if ts[0].mark then {ts[0].elem} else {}) + MarkedTops(ts[1..])
  }

  lemma {:induction false} MarkedTopsAppend<T>(ts: seq<Tree<T>>, us: seq<Tree<T>>)
    ensures MarkedTops(ts + us) == MarkedTops(ts) + MarkedTops(us)
  {
    if ts == [] {
      assert ts + us == us;
    } else {
      assert (ts + us)[1..] == ts[1..] + us;
      MarkedTopsAppend(ts[1..], us);
    }
  }

  lemma {:induction false} NoMarkedTops<T>(ts: seq<Tree<T>>)
    requires TopsUnmarked(ts)
    ensures MarkedTops(ts) == {}
  {
    if ts != [] { NoMarkedTops(ts[1..]); }
  }

  lemma RootTops<T>(t: Tree<T>, keep: bool, sub: Filtered<T>)
    requires TopsUnmarked(sub.moved)
    ensures MarkedTops(FilterRoot(t, keep, sub)) == if keep && t.mark then {t.elem} else {}
  {
    var t' := t.(kids := sub.kept);
    assert [t'][1..] == [] && MarkedTops([t']) == if t.mark then {t.elem} else {};
    NoMarkedTops(sub.moved);
    NoMarkedTops(Unmarked(sub.kept));
    MarkedTopsAppend(sub.moved, [t']);
    MarkedTopsAppend(sub.moved, Unmarked(sub.kept));
  }

  /** Accepted roots keep their marks, and the roots that join them are unmarked. */
  lemma {:induction false} FilterRootsTops<T>(ts: seq<Tree<T>>, f: T -> bool)
    ensures MarkedTops(FilterRoots(ts, f)) == Accepted(MarkedTops(ts), f)
  {
    if ts != [] {
      var t, sub := ts[0], FilterKids(ts[0].kids, f);
      FilterKidsStay(t.kids, f);
      FilterRootsTops(ts[1..], f);
      hide FilterRoot;
      RootTops(t, f(t.elem), sub);
      MarkedTopsAppend(FilterRoot(t, f(t.elem), sub), FilterRoots(ts[1..], f));
    }
  }

  // ------------------------------------------------------------ paying for cuts

  /** The rejected nodes of a forest. */
  function Rejects<T>(ts: seq<Tree<T>>, f: T -> bool): nat {
    if ts == [] then 0 else Bit(!f(ts[0].elem)) + Rejects(ts[0].kids, f) + Rejects(ts[1..], f)
  }

  lemma {:induction false} FilterKidsSize<T>(ts: seq<Tree<T>>, f: T -> bool)
    ensures Size(FilterKids(ts, f).kept) + Size(FilterKids(ts, f).moved) + Rejects(ts, f) == Size(ts)
  {
    if ts != [] {
      var t, sub, rest := ts[0], FilterKids(ts[0].kids, f), FilterKids(ts[1..], f);
      var one := FilterOne(t, f(t.elem), sub);
      FilterKidsSize(t.kids, f);
      FilterKidsSize(ts[1..], f);
      hide FilterOne;
      FilterOneSize(t, f(t.elem), sub);
      NodesAppend(one.kept, rest.kept);
      NodesAppend(one.moved, rest.moved);
    }
  }

  lemma FilterOneSize<T>(t: Tree<T>, keep: bool, sub: Filtered<T>)
    requires |sub.kept| <= |t.kids|
    ensures var one := FilterOne(t, keep, sub);
            Size(one.kept) + Size(one.moved) == Size(sub.kept) + Size(sub.moved) + if keep then 1 else 0
  {
    var t0, t1, t2 := Tree(t.elem, false, sub.kept), Tree(t.elem, true, sub.kept), t.(kids := sub.kept);
    NodesOne(t0); NodesOne(t1); NodesOne(t2);
    UnmarkedNodes(sub.kept);
    NodesAppend(sub.moved, Unmarked(sub.kept));
    NodesAppend(sub.moved, [t0]);
  }

  lemma {:induction false} FilterRootsSize<T>(ts: seq<Tree<T>>, f: T -> bool)
    ensures Size(FilterRoots(ts, f)) + Rejects(ts, f) == Size(ts)
  {
    if ts != [] {
      var t, sub := ts[0], FilterKids(ts[0].kids, f);
      var t' := t.(kids := sub.kept);
      FilterKidsSize(t.kids, f);
      FilterRootsSize(ts[1..], f);
      hide FilterKids;
      NodesOne(t');
      UnmarkedNodes(sub.kept);
      NodesAppend(sub.moved, [t']);
      NodesAppend(sub.moved, Unmarked(sub.kept));
      NodesAppend(FilterRoot(t, f(t.elem), sub), FilterRoots(ts[1..], f));
    }
  }

  /** The accepted nodes of a chain and below that are cut out of their chain. */
  function Cuts<T>(ts: seq<Tree<T>>, f: T -> bool): nat {
    if ts == [] then 0
    else Bit(f(ts[0].elem) && !Stays(ts[0], f)) + Cuts(ts[0].kids, f) + Cuts(ts[1..], f)
  }

  /** The same below a chain of roots, which are never cut. */
  function RootCuts<T>(ts: seq<Tree<T>>, f: T -> bool): nat {
    if ts == [] then 0 else Cuts(ts[0].kids, f) + RootCuts(ts[1..], f)
  }

  lemma {:induction false} MarksUnmarked<T>(ts: seq<Tree<T>>)
    ensures Marks(Unmarked(ts)) <= Marks(ts)
  {
    if ts != [] {
      assert Unmarked(ts)[1..] == Unmarked(ts[1..]);
      MarksUnmarked(ts[1..]);
    }
  }

  /** What one node adds: its own mark, unless it is marked or cut for its losses. */
  lemma OnePaid<T>(t: Tree<T>, f: T -> bool, sub: Filtered<T>, one: Filtered<T>)
    requires |sub.kept| + Losses(t.kids, f) == |t.kids| && one == FilterOne(t, f(t.elem), sub)
    ensures Marks(one.kept) + Marks(one.moved) + Bit(f(t.elem) && !Stays(t, f)) + Bit(!Stays(t, f))
              <= Marks(sub.kept) + Marks(sub.moved) + Bit(t.mark) + Losses(t.kids, f) + Bit(!f(t.elem))
  {
    hide Marks, Losses;
    var t0, t1 := Tree(t.elem, false, sub.kept), Tree(t.elem, true, sub.kept);
    MarksOne(t0);
    MarksOne(t1);
    MarksUnmarked(sub.kept);
    MarksAppend(sub.moved, [t0]);
    MarksAppend(sub.moved, Unmarked(sub.kept));
    assert t.(kids := sub.kept) == if t.mark then t1 else t0;
  }

  /** Cuts are paid for by marks that go and by rejected nodes. What the chain itself loses
      is left over for its owner. */
  lemma {:induction false} FilterKidsPaid<T>(ts: seq<Tree<T>>, f: T -> bool)
    ensures var r := FilterKids(ts, f);
            Cuts(ts, f) + Marks(r.kept) + Marks(r.moved) + Losses(ts, f) <= Marks(ts) + Rejects(ts, f)
  {
    if ts != [] {
      var t, sub, rest := ts[0], FilterKids(ts[0].kids, f), FilterKids(ts[1..], f);
      var one := FilterOne(t, f(t.elem), sub);
      FilterKidsStay(t.kids, f);
      FilterKidsPaid(t.kids, f);
      FilterKidsPaid(ts[1..], f);
      hide FilterOne, Stays, Strain;
      OnePaid(t, f, sub, one);
      MarksAppend(one.kept, rest.kept);
      MarksAppend(one.moved, rest.moved);
    }
  }

  lemma RootPaid<T>(t: Tree<T>, keep: bool, sub: Filtered<T>)
    ensures Marks(FilterRoot(t, keep, sub)) <= Marks(sub.kept) + Marks(sub.moved) + Bit(t.mark)
  {
    hide Marks;
    MarksOne(t.(kids := sub.kept));
    MarksUnmarked(sub.kept);
    MarksAppend(sub.moved, [t.(kids := sub.kept)]);
    MarksAppend(sub.moved, Unmarked(sub.kept));
  }

  /** The accepted nodes that are cut and the marks afterwards are at most the marks before
      and the rejected nodes. */
  lemma {:induction false} FilterRootsPaid<T>(ts: seq<Tree<T>>, f: T -> bool)
    ensures RootCuts(ts, f) + Marks(FilterRoots(ts, f)) <= Marks(ts) + Rejects(ts, f)
  {
    if ts != [] {
      var t, sub := ts[0], FilterKids(ts[0].kids, f);
      FilterKidsPaid(t.kids, f);
      FilterRootsPaid(ts[1..], f);
      hide FilterRoot, Losses;
      RootPaid(t, f(t.elem), sub);
      MarksAppend(FilterRoot(t, f(t.elem), sub), FilterRoots(ts[1..], f));
    }
  }
}
