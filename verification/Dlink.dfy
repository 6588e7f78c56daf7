/** Cyclic double links. */
module Dlink {
  import opened Seqs

  class Link {
    var next: Link
    var prev: Link
    constructor ()
      ensures Cycle([this])
    {
      next, prev := this, this;
    }
  }

  ghost predicate Distinct(s: seq<Link>) {
    forall i, j :: 0 <= i < j < |s| ==> s[i] != s[j]
  }

  ghost predicate Linked(u: Link, v: Link)
    reads u, v
  {
    u.next == v && v.prev == u
  }

  ghost predicate Joint(s: seq<Link>, i: nat)
    requires i + 1 < |s|
    reads Items(s)
  {
    s[i] in Items(s) && s[i + 1] in Items(s) && Linked(s[i], s[i + 1])
  }

  ghost predicate Chain(s: seq<Link>)
    reads Items(s)
  {
    forall i :: 0 <= i < |s| - 1 ==> Joint(s, i)
  }

  /** The nodes of a cycle in forward order, from any of them. */
  ghost predicate Cycle(s: seq<Link>)
    reads Items(s)
  {
    s != [] && Distinct(s) && Chain(s) && s[0] in Items(s) && s[|s| - 1] in Items(s) && Linked(s[|s| - 1], s[0])
  }

  lemma ItemsAppend(a: seq<Link>, b: seq<Link>)
    ensures Items(a + b) == Items(a) + Items(b)
    ensures Distinct(a + b) <==> Distinct(a) && Distinct(b) && Items(a) !! Items(b)
  {
    var c := a + b;
    forall x | x in Items(a) + Items(b) ensures x in c {
      if x in a { var i :| 0 <= i < |a| && a[i] == x; assert c[i] == x; }
      else { var i :| 0 <= i < |b| && b[i] == x; assert c[|a| + i] == x; }
    }
    if Distinct(c) {
      forall i, j | 0 <= i < j < |a| ensures a[i] != a[j] { assert c[i] == a[i] && c[j] == a[j]; }
      forall i, j | 0 <= i < j < |b| ensures b[i] != b[j] { assert c[|a| + i] == b[i] && c[|a| + j] == b[j]; }
      forall x | x in a ensures x !in b {
        var i :| 0 <= i < |a| && a[i] == x;
        forall j | 0 <= j < |b| ensures b[j] != x { assert c[i] == a[i] && c[|a| + j] == b[j]; }
      }
    }
    if Distinct(a) && Distinct(b) && Items(a) !! Items(b) {
      forall i, j | 0 <= i < j < |c| ensures c[i] != c[j] {
        if i < |a| <= j { assert c[i] in Items(a) && c[j] in Items(b); }
      }
    }
  }

  lemma ChainAppend(a: seq<Link>, b: seq<Link>)
    ensures Chain(a + b) <==> Chain(a) && Chain(b) && (a != [] && b != [] ==> Linked(a[|a| - 1], b[0]))
  {
    var c := a + b;
    ItemsAppend(a, b);
    if Chain(c) {
      forall i | 0 <= i < |a| - 1 ensures Joint(a, i) {
        assert Joint(c, i) && c[i] == a[i] && c[i + 1] == a[i + 1];
      }
      forall i | 0 <= i < |b| - 1 ensures Joint(b, i) {
        assert Joint(c, |a| + i) && c[|a| + i] == b[i] && c[|a| + i + 1] == b[i + 1];
      }
      if a != [] && b != [] { assert Joint(c, |a| - 1) && c[|a| - 1] == a[|a| - 1] && c[|a| - 1 + 1] == b[0]; }
    }
    if Chain(a) && Chain(b) && (a != [] && b != [] ==> Linked(a[|a| - 1], b[0])) {
      forall i | 0 <= i < |c| - 1 ensures Joint(c, i) {
        if i + 1 < |a| { assert Joint(a, i) && c[i] == a[i] && c[i + 1] == a[i + 1]; }
        else if i >= |a| { assert Joint(b, i - |a|) && c[i] == b[i - |a|] && c[i + 1] == b[i - |a| + 1]; }
        else { assert c[i] == a[|a| - 1] && c[i + 1] == b[0]; }
      }
    }
  }

  /** A cycle of two parts. */
  lemma CycleParts(a: seq<Link>, b: seq<Link>)
    requires a != [] && b != []
    ensures Cycle(a + b) <==>
              && Distinct(a) && Distinct(b) && Items(a) !! Items(b) && Chain(a) && Chain(b)
              && Linked(a[|a| - 1], b[0]) && Linked(b[|b| - 1], a[0])
  {
    ItemsAppend(a, b);
    ChainAppend(a, b);
    var c := a + b;
    assert c[0] == a[0] && c[|c| - 1] == b[|b| - 1];
    assert c[0] in Items(c) && c[|c| - 1] in Items(c);
  }

  lemma CycleWhole(a: seq<Link>)
    requires a != []
    ensures Cycle(a) <==> Distinct(a) && Chain(a) && Linked(a[|a| - 1], a[0])
  {
    assert a[0] in Items(a) && a[|a| - 1] in Items(a);
  }

  /** A cycle may be read from any of its nodes. */
  lemma Rotated(a: seq<Link>, b: seq<Link>)
    requires Cycle(a + b)
    ensures Cycle(b + a)
  {
    if a == [] { assert a + b == b + a; }
    else if b == [] { assert a + b == b + a; }
    else { CycleParts(a, b); CycleParts(b, a); }
  }

  /** Two cycles, or two parts of one. */
  ghost predicate Parts(a: seq<Link>, b: seq<Link>, one: bool)
    requires a != [] && b != []
    reads Items(a), Items(b)
  {
    if one then Cycle(a + b) else Cycle(a) && Cycle(b) && Items(a) !! Items(b)
  }


  lemma CyclePart(a: seq<Link>)
    requires Cycle(a)
    ensures a != [] && Distinct(a) && Chain(a) && Linked(a[|a| - 1], a[0]) && a[0] in Items(a) && a[|a| - 1] in Items(a)
  {}

  /** Swaps what comes before `x` and `y`: merges two cycles, or splits one. */
  method SpliceBefore(x: Link, y: Link, ghost a: seq<Link>, ghost b: seq<Link>, ghost one: bool)
    requires a != [] && b != [] && a[0] == x && b[0] == y && if x == y then Cycle(a) else Parts(a, b, one)
    modifies x`prev, y`prev, x.prev`next, y.prev`next
    ensures if x == y then unchanged(Items(a)) else Parts(a, b, !one)
  {
    if x != y { PartFacts(a, b, one); } else { CycleWhole(a); }
    var xp := x.prev;
    var yp := y.prev;
    x.prev := yp;
    y.prev := xp;
    yp.next := x;
    xp.next := y;
    if x == y { return; }
    forall i | 0 <= i < |a| - 1 ensures Joint(a, i) { assert old(Joint(a, i)); }
    forall i | 0 <= i < |b| - 1 ensures Joint(b, i) { assert old(Joint(b, i)); }
    PartsBack(a, b, !one);
  }

  method SpliceAfter(x: Link, y: Link, ghost a: seq<Link>, ghost b: seq<Link>, ghost one: bool)
    requires a != [] && b != [] && a[|a| - 1] == x && b[|b| - 1] == y && if x == y then Cycle(a) else Parts(a, b, one)
    modifies x`next, y`next, x.next`prev, y.next`prev
    ensures if x == y then unchanged(Items(a)) else Parts(a, b, !one)
  {
    if x != y { PartFacts(a, b, one); } else { CycleWhole(a); }
    var xn := x.next;
    var yn := y.next;
    x.next := yn;
    y.next := xn;
    yn.prev := x;
    xn.prev := y;
    if x == y { return; }
    forall i | 0 <= i < |a| - 1 ensures Joint(a, i) { assert old(Joint(a, i)); }
    forall i | 0 <= i < |b| - 1 ensures Joint(b, i) { assert old(Joint(b, i)); }
    PartsBack(a, b, !one);
  }

  lemma PartFacts(a: seq<Link>, b: seq<Link>, one: bool)
    requires a != [] && b != [] && Parts(a, b, one)
    ensures Distinct(a) && Distinct(b) && Items(a) !! Items(b) && Chain(a) && Chain(b)
    ensures a[0] in Items(a) && a[|a| - 1] in Items(a) && b[0] in Items(b) && b[|b| - 1] in Items(b)
    ensures if one then Linked(a[|a| - 1], b[0]) && Linked(b[|b| - 1], a[0])
              else Linked(a[|a| - 1], a[0]) && Linked(b[|b| - 1], b[0])
  {
    if one { CycleParts(a, b); } else { CycleWhole(a); CycleWhole(b); }
  }

  lemma PartsBack(a: seq<Link>, b: seq<Link>, one: bool)
    requires a != [] && b != [] && Distinct(a) && Distinct(b) && Items(a) !! Items(b) && Chain(a) && Chain(b)
    requires if one then Linked(a[|a| - 1], b[0]) && Linked(b[|b| - 1], a[0])
              else Linked(a[|a| - 1], a[0]) && Linked(b[|b| - 1], b[0])
    ensures Parts(a, b, one)
  {
    if one { CycleParts(a, b); } else { CycleWhole(a); CycleWhole(b); }
  }

  /** Concatenates two cycles, the first of which may be missing, and the second as well. */
  method CatD(x: Link?, y: Link?, ghost a: seq<Link>, ghost b: seq<Link>) returns (r: Link?)
    requires if x == null then a == [] else Cycle(a) && a[0] == x
    requires if y == null then b == [] else Cycle(b) && b[0] == y
    requires Items(a) !! Items(b)
    modifies Items(a), Items(b)
    ensures if r == null then a + b == [] else Cycle(a + b) && (a + b)[0] == r
  {
    if x == null {
      assert a + b == b;
      return y;
    } else {
      if y != null {
        CyclePart(a);
        CyclePart(b);
        SpliceBefore(x, y, a, b, false);
      } else {
        assert a + b == a;
      }
      return x;
    }
  }

  /** Makes a node a cycle of its own. */
  method Extract(l: Link, ghost a: seq<Link>)
    requires Cycle([l] + a)
    modifies l, l.prev`next, l.next`prev
    ensures Cycle([l]) && (a != [] ==> Cycle(a))
  {
    CyclePart([l] + a);
    if a != [] { CycleParts([l], a); }
    l.prev.next := l.next;
    l.next.prev := l.prev;
    l.prev := l;
    l.next := l;
    forall i | 0 <= i < |a| - 1 ensures Joint(a, i) { assert old(Joint(a, i)); }
    if a != [] { CycleWhole(a); }
    CycleWhole([l]);
  }

  /** Takes a node off its cycle. */
  method Erase(l: Link, ghost a: seq<Link>)
    requires Cycle([l] + a)
    modifies l.prev`next, l.next`prev
    ensures a != [] ==> Cycle(a)
  {
    CyclePart([l] + a);
    if a != [] { CycleParts([l], a); }
    assert a != [] ==> a[0] in Items(a) && a[|a| - 1] in Items(a) && l in Items([l]);
    l.prev.next := l.next;
    l.next.prev := l.prev;
    forall i | 0 <= i < |a| - 1 ensures Joint(a, i) { assert old(Joint(a, i)); }
    if a != [] { CycleWhole(a); }
  }

  /** Initialises a node as the predecessor of `l`. */
  method InsertBefore(l: Link, lInit: Link, ghost a: seq<Link>)
    requires Cycle(a) && a[0] == l && lInit !in Items(a)
    modifies lInit, l.prev`next, l`prev
    ensures Cycle(a + [lInit])
  {
    CyclePart(a);
    lInit.prev := l.prev;
    lInit.next := l;
    l.prev.next := lInit;
    l.prev := lInit;
    forall i | 0 <= i < |a| - 1 ensures Joint(a, i) { assert old(Joint(a, i)); }
    CycleParts(a, [lInit]);
  }

  method InsertAfter(l: Link, lInit: Link, ghost a: seq<Link>)
    requires Cycle(a) && a[|a| - 1] == l && lInit !in Items(a)
    modifies lInit, l.next`prev, l`next
    ensures Cycle(a + [lInit])
  {
    CyclePart(a);
    lInit.prev := l;
    lInit.next := l.next;
    l.next.prev := lInit;
    l.next := lInit;
    forall i | 0 <= i < |a| - 1 ensures Joint(a, i) { assert old(Joint(a, i)); }
    CycleParts(a, [lInit]);
  }

  /** A node `mv` and another node `l`, in one cycle or in two. */
  ghost predicate Pair(l: Link, a: seq<Link>, mv: Link, b: seq<Link>, one: bool)
    reads {l, mv} + Items(a) + Items(b)
  {
    if one then Whole(l, a, mv, b) else TwoOf(l, a, mv, b)
  }

  ghost predicate Whole(l: Link, a: seq<Link>, mv: Link, b: seq<Link>)
    reads {l, mv} + Items(a) + Items(b)
  {
    assert Items([l] + a + [mv] + b) <= {l, mv} + Items(a) + Items(b);
    Cycle([l] + a + [mv] + b)
  }

  ghost predicate TwoOf(l: Link, a: seq<Link>, mv: Link, b: seq<Link>)
    reads {l, mv} + Items(a) + Items(b)
  {
    assert Items([l] + a) <= {l} + Items(a) && Items([mv] + b) <= {mv} + Items(b);
    Cycle([l] + a) && Cycle([mv] + b) && Items([l] + a) !! Items([mv] + b)
  }

  /** The node `mv` at the head of its cycle. */
  lemma MovedFirst(l: Link, a: seq<Link>, mv: Link, b: seq<Link>)
    requires Whole(l, a, mv, b)
    ensures Cycle([mv] + (b + ([l] + a))) && mv !in Items(b + ([l] + a)) && l != mv
    ensures Items([mv] + (b + ([l] + a))) == {l, mv} + Items(a) + Items(b)
  {
    assert [l] + a + [mv] + b == ([l] + a) + ([mv] + b);
    assert ([mv] + b) + ([l] + a) == [mv] + (b + ([l] + a));
    Rotated([l] + a, [mv] + b);
    ItemsAppend([mv], b + ([l] + a));
    ItemsAppend(b, [l] + a);
    ItemsAppend([l], a);
    assert mv in Items([mv]) && l in Items([l]);
    assert Items([mv]) == {mv} && Items([l]) == {l};
  }

  /** Moves a node right before `l`, from the same cycle or from another. */
  method MoveBefore(l: Link, mv: Link, ghost a: seq<Link>, ghost b: seq<Link>, ghost one: bool)
    requires Pair(l, a, mv, b, one)
    modifies {l, mv} + Items(a) + Items(b)
    ensures Cycle(if one then [l] + a + b + [mv] else [l] + a + [mv])
    ensures !one && b != [] ==> Cycle(b)
  {
    hide Cycle, Chain, Distinct;
    ghost var rest := if one then b + ([l] + a) else b;
    ghost var to := if one then [l] + a + b else [l] + a;
    MoveParts(l, a, mv, b, one, rest, to);
    EraseBeside(mv, rest, if one then [] else to);
    if one { BackToL(l, a, b); }
    InsertBeside(l, mv, to, if one then [] else b);
  }

  lemma MoveParts(l: Link, a: seq<Link>, mv: Link, b: seq<Link>, one: bool, rest: seq<Link>, to: seq<Link>)
    requires Pair(l, a, mv, b, one)
    requires if one then rest == b + ([l] + a) && to == [l] + a + b else rest == b && to == [l] + a
    ensures Cycle([mv] + rest) && Items([mv] + rest) <= {l, mv} + Items(a) + Items(b)
    ensures to[0] == l && mv !in Items(to) && Items(to) <= {l} + Items(a) + Items(b)
    ensures !one ==> Cycle(to) && Items([mv] + rest) !! Items(to) && mv !in Items(b) && Items(to) !! Items(b)
  {
    ItemsAppend([l], a);
    ItemsAppend([l] + a, b);
    if one {
      MovedFirst(l, a, mv, b);
      ItemsAppend(b, [l] + a);
    } else {
      TwoFacts(l, a, mv, b);
      ItemsAppend([mv], b);
    }
  }

  lemma BackToL(l: Link, a: seq<Link>, b: seq<Link>)
    requires Cycle(b + ([l] + a))
    ensures Cycle([l] + a + b)
  {
    Rotated(b, [l] + a);
  }

  method EraseBeside(l: Link, ghost a: seq<Link>, ghost other: seq<Link>)
    requires Cycle([l] + a) && (other != [] ==> Cycle(other)) && Items([l] + a) !! Items(other)
    modifies Items([l] + a)
    ensures a != [] ==> Cycle(a)
    ensures other != [] ==> Cycle(other)
  {
    NextIn([l] + a);
    Erase(l, a);
  }

  method InsertBeside(l: Link, lInit: Link, ghost a: seq<Link>, ghost other: seq<Link>)
    requires Cycle(a) && a[0] == l && lInit !in Items(a) && (other != [] ==> Cycle(other)) && lInit !in Items(other)
    requires Items(a) !! Items(other)
    modifies Items(a), lInit
    ensures Cycle(a + [lInit])
    ensures other != [] ==> Cycle(other)
  {
    NextIn(a);
    InsertBefore(l, lInit, a);
  }

  lemma NextIn(a: seq<Link>)
    requires Cycle(a)
    ensures a[0] in Items(a) && a[0].prev in Items(a) && a[0].next in Items(a)
  {
    StepForward(a, 0);
  }

  /** Drops `lHead` from its cycle and splices the rest right before `l`: another cycle joins
      that of `l`, and what is left of the same cycle is split after `lHead`. */
  method SpliceComplementBefore(l: Link, lHead: Link, ghost a: seq<Link>, ghost b: seq<Link>, ghost one: bool)
    requires if l == lHead then a == [] && Cycle([l] + b) else Pair(l, a, lHead, b, one)
    modifies {l, lHead} + Items(a) + Items(b)
    ensures if l == lHead then b != [] ==> Cycle(b)
            else if one then Cycle([l] + a) && (b != [] ==> Cycle(b))
            else Cycle([l] + a + b)
  {
    ghost var f := [l] + a;
    if l == lHead { SameParts(l, b); } else if one { OneParts(l, a, lHead, b); } else { TwoParts(l, a, lHead, b); }
    if lHead.next != lHead {
      lHead.prev.next := l;
      lHead.next.prev := l.prev;
      l.prev.next := lHead.next;
      l.prev := lHead.prev;
      forall i | 0 <= i < |f| - 1 ensures Joint(f, i) { assert old(Joint(f, i)); }
      forall i | 0 <= i < |b| - 1 ensures Joint(b, i) { assert old(Joint(b, i)); }
      if b != [] { CycleWhole(b); }
      if l != lHead && one { CycleWhole(f); }
      if !one && b != [] { CycleParts(f, b); }
    }
    assert f + [] == f;
  }

  lemma SameParts(l: Link, b: seq<Link>)
    requires Cycle([l] + b)
    ensures Distinct(b) && Chain(b) && l !in Items(b)
    ensures if b == [] then l.next == l
            else b[0] in Items(b) && b[|b| - 1] in Items(b) && Linked(b[|b| - 1], l) && Linked(l, b[0])
  {
    CycleWhole([l] + b);
    if b != [] { CycleParts([l], b); }
    assert l in Items([l]) && b != [] ==> b[0] in Items(b) && b[|b| - 1] in Items(b);
  }

  lemma TwoParts(l: Link, a: seq<Link>, lHead: Link, b: seq<Link>)
    requires TwoOf(l, a, lHead, b)
    ensures var f := [l] + a;
            && Distinct(f) && Chain(f) && Linked(f[|f| - 1], l) && f[|f| - 1] in Items(f) && l in Items(f)
            && Distinct(b) && Chain(b) && lHead !in Items(f) && lHead !in Items(b) && Items(f) !! Items(b)
    ensures Items([l] + a) == {l} + Items(a) && l.prev in {l} + Items(a)
    ensures if b == [] then lHead.next == lHead
            else b[0] in Items(b) && b[|b| - 1] in Items(b) && Linked(b[|b| - 1], lHead) && Linked(lHead, b[0])
    ensures b == [] ==> Cycle([l] + a)
  {
    TwoFacts(l, a, lHead, b);
    CycleWhole([l] + a);
    CyclePart([l] + a);
    SameParts(lHead, b);
  }

  lemma OneParts(l: Link, a: seq<Link>, lHead: Link, b: seq<Link>)
    requires Whole(l, a, lHead, b)
    ensures var f := [l] + a;
            && Distinct(f) && Chain(f) && Linked(f[|f| - 1], lHead) && f[|f| - 1] in Items(f) && l in Items(f)
            && Distinct(b) && Chain(b) && lHead !in Items(f) && lHead !in Items(b) && Items(f) !! Items(b)
    ensures Items([l] + a) == {l} + Items(a)
    ensures if b == [] then Linked(lHead, l)
            else b[0] in Items(b) && b[|b| - 1] in Items(b) && Linked(b[|b| - 1], l) && Linked(lHead, b[0])
  {
    var f := [l] + a;
    assert [l] + a + [lHead] + b == f + ([lHead] + b);
    CycleParts(f, [lHead] + b);
    ItemsAppend([l], a);
    ItemsAppend([lHead], b);
    ChainAppend([lHead], b);
    assert Items([l]) == {l} && Items([lHead]) == {lHead};
    assert f[|f| - 1] in Items(f) && l in Items(f);
    if b != [] { assert b[0] in Items(b) && b[|b| - 1] in Items(b); }
  }

  lemma TwoFacts(l: Link, a: seq<Link>, mv: Link, b: seq<Link>)
    requires TwoOf(l, a, mv, b)
    ensures Cycle([l] + a) && Cycle([mv] + b) && mv !in Items([l] + a) && l != mv
    ensures Items([l] + a) == {l} + Items(a) && Items([mv] + b) == {mv} + Items(b)
    ensures Items([l] + a) !! Items([mv] + b)
  {
    ItemsAppend([l], a);
    ItemsAppend([mv], b);
    assert Items([mv]) == {mv} && Items([l]) == {l};
  }

  // ------------------------------------------------------------------ counting

  /** The number of nodes, but no more than `limit`. */
  method CardLim(x: Link?, limit: nat, ghost a: seq<Link>) returns (n: nat)
    requires if x == null then a == [] else Cycle(a) && a[0] == x
    ensures n == if |a| <= limit then |a| else limit
  {
    n := 0;
    if x != null && limit != 0 {
      CyclePart(a);
      var y: Link := x;
      while true
        invariant 0 <= n < |a| && n < limit && y == a[n]
        decreases |a| - n
      {
        StepForward(a, n);
        n := n + 1;
        y := y.next;
        if n < |a| { StepForward(a, n); }
        if y == x || n >= limit {
          break;
        }
      }
    }
  }

  lemma StepForward(a: seq<Link>, i: nat)
    requires Cycle(a) && i < |a|
    ensures a[i].next == (if i + 1 < |a| then a[i + 1] else a[0])
    ensures i > 0 ==> a[i] != a[0]
    ensures a[i].prev == if i > 0 then a[i - 1] else a[|a| - 1]
  {
    if i + 1 < |a| { assert Joint(a, i); }
    if i > 0 { assert Joint(a, i - 1); }
  }

  lemma {:induction false} SameRun(a: seq<Link>, b: seq<Link>, k: nat)
    requires Cycle(a) && Cycle(b) && a[0] == b[0] && k < |a| && k < |b|
    ensures a[k] == b[k]
  {
    if k > 0 {
      SameRun(a, b, k - 1);
      StepForward(a, k - 1);
      StepForward(b, k - 1);
    }
  }

  /** A cycle does not close before the whole of another from the same node. */
  lemma SameLength(a: seq<Link>, b: seq<Link>)
    requires Cycle(a) && Cycle(b) && a[0] == b[0]
    ensures |a| >= |b|
  {
    var n := if |a| <= |b| then |a| else |b|;
    SameRun(a, b, n - 1);
    StepForward(a, n - 1);
    StepForward(b, n - 1);
    StepForward(b, if n < |b| then n else 0);
  }

  /** A node determines its cycle. */
  lemma SameCycle(a: seq<Link>, b: seq<Link>)
    requires Cycle(a) && Cycle(b) && a[0] == b[0]
    ensures a == b
  {
    SameLength(a, b);
    SameLength(b, a);
    forall k | 0 <= k < |a| ensures a[k] == b[k] { SameRun(a, b, k); }
  }

  lemma TurnedTo(a: seq<Link>, x: Link) returns (t: seq<Link>)
    requires Cycle(a) && x in Items(a)
    ensures Cycle(t) && t[0] == x && Items(t) == Items(a)
  {
    hide Cycle, Distinct;
    var i :| 0 <= i < |a| && a[i] == x;
    assert a == a[..i] + a[i..];
    t := a[i..] + a[..i];
    Rotated(a[..i], a[i..]);
    ItemsAppend(a[..i], a[i..]);
    ItemsAppend(a[i..], a[..i]);
  }

  /** Two cycles have all nodes in common or none. */
  lemma SharedOrApart(a: seq<Link>, b: seq<Link>)
    requires Cycle(a) && Cycle(b)
    ensures Items(a) == Items(b) || Items(a) !! Items(b)
  {
    if x :| x in Items(a) && x in Items(b) {
      var s := TurnedTo(a, x);
      var t := TurnedTo(b, x);
      SameCycle(s, t);
    }
  }

  /** True iff the nodes are in the same cycle, after no more rounds than the smaller
      of the cycles has nodes. */
  method Cocyclic(x0: Link, y0: Link, ghost a: seq<Link>, ghost b: seq<Link>) returns (same: bool, ghost rounds: nat)
    requires Cycle(a) && a[0] == x0 && Cycle(b) && b[0] == y0
    ensures same <==> y0 in Items(a)
    ensures rounds <= |a| && rounds <= |b|
  {
    SharedOrApart(a, b);
    CyclePart(a);
    CyclePart(b);
    SameSize(a, b);
    var x, y := x0, y0;
    rounds := 0;
    ghost var k := 0;
    if y0 in Items(a) { k := IndexOf(a, y0); }
    while true
      invariant rounds < |a| && rounds < |b| && x == a[rounds]
      invariant if y0 in Items(a) then 2 * rounds <= k < |a| && y == a[k - rounds] && a[k] == y0
                else y == b[if rounds == 0 then 0 else |b| - rounds]
      decreases |a| - rounds
    {
      ghost var r := rounds;
      rounds := rounds + 1;
      assert x in Items(a);
      if x == y {
        return true, rounds;
      }
      StepForward(a, r);
      x := x.next;
      assert x in Items(a);
      if x == y {
        return true, rounds;
      }
      if y0 in Items(a) {
        assert 2 * r + 1 < k;
        StepForward(a, k - r);
        assert x != x0 && a[k - r - 1] != a[k];
      } else {
        StepForward(b, if r == 0 then 0 else |b| - r);
      }
      y := y.prev;
      if x == x0 || y == y0 {
        break;
      }
    }
    same := false;
  }

  lemma SameSize(a: seq<Link>, b: seq<Link>)
    requires Distinct(a) && Distinct(b)
    ensures |Items(a)| == |a| && |Items(b)| == |b|
  {
    SizeIs(a);
    SizeIs(b);
  }

  lemma {:induction false} SizeIs(a: seq<Link>)
    requires Distinct(a)
    ensures |Items(a)| == |a|
  {
    if a != [] {
      var i := |a| - 1;
      var f, l := a[..i], [a[i]];
      assert a == f + l;
      ItemsAppend(f, l);
      SizeIs(f);
      assert Items(l) == {a[i]};
    }
  }

  lemma IndexOf(a: seq<Link>, x: Link) returns (i: nat)
    requires x in Items(a)
    ensures i < |a| && a[i] == x
  {
    i :| 0 <= i < |a| && a[i] == x;
  }
}
