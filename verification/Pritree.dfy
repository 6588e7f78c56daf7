/** A priority queue as a linked complete heap, addressed by the bits of its size. */
module Pritree {
  import opened PritreeLinks
  import opened PritreeHeap
  import opened Bits

  ghost function Ratings(all: set<Node>): (p: Prios)
    reads all`priority
    ensures p.Keys == all
  {
    map x | x in all :: x.priority
  }

  class Pritree {
    const dblMax: real
    var front: Node?
    var size: nat
    /** The nodes by position. */
    ghost var s: seq<Node>

    ghost function Content(): set<Node>
      reads this
    {
      Items(s)
    }

    /** A heap whose priorities, except that of `y`, lie between the sentinels. */
    ghost predicate ValidBut(y: Node?)
      reads this, Content()
    {
      && size == |s| && front == At(s, 1) && Shape(View(Items(s)), s)
      && AllRated(Ratings(Items(s)), s) && HeapBut(Ratings(Items(s)), s, 0, 0)
      && forall x :: x in Items(s) && x != y ==> -dblMax < x.priority < dblMax
    }

    ghost predicate Valid()
      reads this, Content()
    {
      ValidBut(null)
    }

    constructor (dblMax: real)
      ensures Valid() && Content() == {} && this.dblMax == dblMax
    {
      this.dblMax := dblMax;
      front, size, s := null, 0, [];
    }

    method ChangePriority(t: Node, priority: real)
      requires Valid() && t in Content() && -dblMax < priority < dblMax
      modifies this, Content()
      ensures Valid() && Content() == old(Content()) && t.priority == priority
      ensures forall x :: x in Content() && x != t ==> x.priority == old(x.priority)
    {
      hide Shape, HeapBut, AllRated, Distinct, Sifted, View, Items;
      ghost var k := Position(s, t);
      ghost var r := s;
      ShapeAt(s, k);
      if priority > t.priority {
        RaiseReady(Ratings(Items(s)), s, k, priority);
        r := IncreasePriorityTo(t, priority, s, k);
      } else if priority < t.priority {
        LowerReady(Ratings(Items(s)), s, k, priority);
        r := DecreasePriorityTo(t, priority, s, k, 0);
        SiftedHeap(Ratings(Items(s)), s, k, r);
      }
      Relayout(r, null);
    }

    /** The nodes are laid out as `r` now. */
    method Relayout(ghost r: seq<Node>, ghost y: Node?)
      requires size == |r| && front == At(r, 1) && Shape(View(Items(r)), r)
      requires AllRated(Ratings(Items(r)), r) && HeapBut(Ratings(Items(r)), r, 0, 0)
      requires forall x :: x in Items(r) && x != y ==> -dblMax < x.priority < dblMax
      modifies `s
      ensures ValidBut(y) && s == r && Ratings(Items(r)) == old(Ratings(Items(r)))
    {
      s := r;
    }

    /** Removes the front node, which is prior to all others, by walking it to the last
        position. */
    method Pop()
      requires size > 0 && ValidBut(front)
      modifies this, Content()
      ensures Valid() && old(front) != null && Content() == old(Content()) - {old(front)} && size == old(size) - 1
      ensures forall x :: x in Content() ==> x.priority == old(x.priority)
      ensures forall x :: x in old(Content()) ==> old(x.priority) <= old(front.priority)
    {
      hide Shape, AllRated, HeapBut, View, Items;
      FrontIsMost(s);
      var n := size;
      size := size - 1;
      if n == 1 {
        front := null;
        OneNode(s);
        s := [];
      } else {
        ghost var r := WalkOut(front, n);
        Relayout(r, null);
      }
    }

    /** Removes any node: with the highest priority of all it moves to the front. */
    method Erase(prinode: Node)
      requires Valid() && prinode in Content()
      modifies this, Content()
      ensures Valid() && Content() == old(Content()) - {prinode} && size == old(size) - 1
      ensures forall x :: x in Content() ==> x.priority == old(x.priority)
    {
      hide Shape, HeapBut, AllRated, Distinct, View, Items;
      ghost var k := Position(s, prinode);
      ShapeAt(s, k);
      RaiseReady(Ratings(Items(s)), s, k, dblMax);
      ghost var r := IncreasePriorityTo(prinode, dblMax, s, k);
      Relayout(r, prinode);
      FrontIsTop(s, prinode, dblMax);
      Pop();
    }

    /** Inserts a node at the last position and moves it up. */
    method InsertInit(newprinode: Node, priority: real)
      requires Valid() && newprinode !in Content() && -dblMax < priority < dblMax
      modifies this, Content(), newprinode
      ensures Valid() && Content() == old(Content()) + {newprinode} && size == old(size) + 1
      ensures newprinode.priority == priority && forall x :: x in old(Content()) ==> x.priority == old(x.priority)
    {
      hide Shape, HeapBut, AllRated, Distinct, View, UpHeap;
      size := size + 1;
      var n := size;
      if n == 1 {
        front := newprinode;
        newprinode.priority := priority;
        newprinode.prior := null;
        newprinode.left := null;
        newprinode.right := null;
        s := [newprinode];
        SingleNode(newprinode);
      } else {
        ghost var r := Enter(newprinode, priority, n, s);
        Relayout(r, null);
      }
    }

    /** Finds the parent of the last position by the bits of `n`. */
    method Enter(newprinode: Node, priority: real, n: nat, ghost s: seq<Node>) returns (ghost r: seq<Node>)
      requires n == |s| + 1 >= 2 && front == At(s, 1) && Shape(View(Items(s)), s) && newprinode !in Items(s)
      requires AllRated(Ratings(Items(s)), s) && HeapBut(Ratings(Items(s)), s, 0, 0)
      modifies `front, newprinode, Items(s)`left, Items(s)`right, Items(s)`prior
      ensures Items(r) == Items(s) + {newprinode} && |r| == n && front == At(r, 1) && Shape(View(Items(r)), r)
      ensures Ratings(Items(r)) == old(Ratings(Items(s)))[newprinode := priority]
      ensures AllRated(Ratings(Items(r)), r) && HeapBut(Ratings(Items(r)), r, 0, 0)
    {
      hide Shape, HeapBut, AllRated, Distinct, View, UpHeap, Ratings, Items;
      var t, left := FindParent(n, s);
      r := Attach(t, newprinode, left, priority, s);
      r := IncreasePriorityTo(newprinode, priority, r, n);
    }

    /** The parent of the last of `n` positions, by the bits of `n`. */
    method FindParent(n: nat, ghost s: seq<Node>) returns (t: Node, left: bool)
      requires n == |s| + 1 >= 2 && front == At(s, 1) && Shape(View(Items(s)), s)
      ensures t == s[n / 2 - 1] && t in Items(s) && (left <==> n % 2 == 0)
      ensures View(Items(s)) == old(View(Items(s))) && Ratings(Items(s)) == old(Ratings(Items(s)))
    {
      hide Shape, IsPow2, Lead, Pow2;
      t := front;
      ghost var q := 1;
      SecondBit(n);
      TopBit(n);
      var l := FloorLog2(n);
      var m := Pow2(l);
      m := m / 2;
      while m > 1
        invariant m > 0 && IsPow2(m) && 1 <= q == Lead(n, m) / 2 <= |s| && t == s[q - 1]
        decreases m
      {
        BitIs(n, m);
        NextBit(n, m);
        HalfIsLess(n, m);
        ShapeAt(s, q);
        if BitClear(n, m) {
          t := t.left;
        } else {
          t := t.right;
        }
        q := Lead(n, m);
        m := m / 2;
      }
      NextBit(n, m);
      BitIs(n, m);
      left := BitClear(n, m);
      assert t in s;
    }

    /** Hangs the new node on its parent. */
    method Attach(t: Node, newprinode: Node, left: bool, priority: real, ghost s: seq<Node>)
        returns (ghost r: seq<Node>)
      requires |s| >= 1 && t == s[(|s| + 1) / 2 - 1] && (left <==> (|s| + 1) % 2 == 0) && newprinode !in Items(s)
      requires Shape(View(Items(s)), s) && AllRated(Ratings(Items(s)), s) && HeapBut(Ratings(Items(s)), s, 0, 0)
      modifies t`left, t`right, newprinode`left, newprinode`right, newprinode`prior
      ensures r == s + [newprinode] && Items(r) == Items(s) + {newprinode} && Shape(View(Items(r)), r)
      ensures At(r, 1) == At(s, 1)
      ensures UpHeap(Ratings(Items(r))[newprinode := priority], r, |r|)
      ensures Ratings(Items(r))[newprinode := priority] == old(Ratings(Items(s)))[newprinode := priority]
    {
      hide Shape, HeapBut, AllRated, Distinct, View, UpHeap;
      r := s + [newprinode];
      AppendReady(Ratings(Items(s)), s, newprinode, priority);
      AppendLast(t, newprinode, left, s);
      assert Ratings(Items(r))[newprinode := priority] == Ratings(Items(s))[newprinode := priority];
    }

    /** The front node leaves by the last position. */
    method WalkOut(prinode: Node, n: nat) returns (ghost r: seq<Node>)
      requires n >= 2 && n == |s| && prinode == front == s[0] && Shape(View(Items(s)), s)
      requires AllRated(Ratings(Items(s)), s) && HeapBut(Ratings(Items(s)), s, 0, 0)
      requires forall x :: x in Items(s) && x != front ==> -dblMax < x.priority < dblMax
      modifies `front, Items(s)
      ensures |r| == n - 1 && Items(r) == Items(s) - {prinode} && front == At(r, 1) && Shape(View(Items(r)), r)
      ensures Ratings(Items(s)) == old(Ratings(Items(s)))[prinode := -dblMax]
      ensures AllRated(Ratings(Items(r)), r) && HeapBut(Ratings(Items(r)), r, 0, 0)
    {
      hide Shape, AllRated, Distinct, PopHeap, HeapBut, View, Ratings, Items, IsPow2, Lead, Pow2, FloorLog2, At;
      SecondBit(n);
      var l := FloorLog2(n);
      var m := Pow2(l - 1);
      NextBit(n, m);
      r := LeaveTop(prinode, n, m, s);
      r := WalkDown(prinode, n, m, r);
      PopEnd(Ratings(Items(s)), r);
      DropOut(prinode, r);
      r := r[..n - 1];
    }

    /** Walks down by the bits of the size below `m0`, to the last position. */
    method WalkDown(prinode: Node, n: nat, m0: nat, ghost s: seq<Node>) returns (ghost r: seq<Node>)
      requires n == |s| && IsPow2(m0) && m0 > 0 && 2 <= Lead(n, m0) <= n && prinode == s[Lead(n, m0) - 1]
      requires front == At(s, 1) && Shape(View(Items(s)), s)
      requires AllRated(Ratings(Items(s)), s) && PopHeap(Ratings(Items(s)), s, Lead(n, m0))
      modifies `front, Items(s)`priority, Items(s)`left, Items(s)`right, Items(s)`prior
      ensures |r| == n && prinode == r[n - 1] && Items(r) == Items(s) && Shape(View(Items(s)), r) && front == At(r, 1)
      ensures AllRated(Ratings(Items(s)), r) && PopHeap(Ratings(Items(s)), r, n)
      ensures Ratings(Items(s)) == old(Ratings(Items(s)))
    {
      hide Shape, AllRated, Distinct, PopHeap, HeapBut, View, Ratings, Items, IsPow2, Lead, Pow2, FloorLog2, At;
      NextBit(n, m0);
      ghost var q := Lead(n, m0);
      r := s;
      var m: nat := m0 / 2;
      while m > 0
        invariant m == 0 || IsPow2(m)
        invariant 2 <= q <= n == |r| == |s| && prinode == r[q - 1] && (if m == 0 then q == n else q == Lead(n, m) / 2)
        invariant Items(r) == Items(s) && Shape(View(Items(s)), r) && front == At(r, 1)
        invariant AllRated(Ratings(Items(s)), r) && PopHeap(Ratings(Items(s)), r, q)
        invariant Ratings(Items(s)) == old(Ratings(Items(s)))
      {
        NextBit(n, m);
        r := PopStep(prinode, n, m, r, q, Lead(n, m));
        q := Lead(n, m);
        m := m / 2;
      }
    }

    /** The front node gives way to one of its children. */
    method LeaveTop(prinode: Node, n: nat, m: nat, ghost s: seq<Node>) returns (ghost r: seq<Node>)
      requires n == |s| && m > 0 && Lead(n, m) / 2 == 1 && Lead(n, m) <= n && prinode == s[0]
      requires Shape(View(Items(s)), s)
      requires AllRated(Ratings(Items(s)), s) && HeapBut(Ratings(Items(s)), s, 0, 0)
      requires forall x :: x in Items(s) && x != prinode ==> -dblMax < x.priority
      modifies `front, Items(s)`priority, Items(s)`left, Items(s)`right, Items(s)`prior
      ensures Items(r) == Items(s) && |r| == |s| && prinode == r[Lead(n, m) - 1] && front == At(r, 1)
      ensures Shape(View(Items(s)), r)
      ensures AllRated(Ratings(Items(s)), r) && PopHeap(Ratings(Items(s)), r, Lead(n, m))
      ensures Ratings(Items(s)) == old(Ratings(Items(s)))[prinode := -dblMax]
    {
      hide Shape, AllRated, Distinct, PopHeap, HeapBut, View, Ratings, Lead;
      assert prinode in Items(s);
      hide Items;
      StartOut(prinode, s, -dblMax);
      r := PopStep(prinode, n, m, s, 1, Lead(n, m));
      SetFront(prinode.prior, Items(s));
    }

    /** One step of the outgoing node towards the last position, by the bit `m` of `n`. */
    method PopStep(prinode: Node, n: nat, m: nat, ghost s: seq<Node>, ghost q: nat, ghost d: nat)
        returns (ghost r: seq<Node>)
      requires n == |s| && m > 0 && d == Lead(n, m) && q == d / 2 && 2 <= d <= n && prinode == s[q - 1]
      requires Shape(View(Items(s)), s) && AllRated(Ratings(Items(s)), s) && PopHeap(Ratings(Items(s)), s, q)
      modifies `front, Items(s)`priority, Items(s)`left, Items(s)`right, Items(s)`prior
      ensures |r| == |s| && prinode == r[d - 1] && Items(r) == Items(s) && Ratings(Items(s)) == old(Ratings(Items(s)))
      ensures Shape(View(Items(s)), r) && AllRated(Ratings(Items(s)), r) && PopHeap(Ratings(Items(s)), r, d)
      ensures q > 1 ==> front == old(front) && At(r, 1) == At(s, 1)
      ensures prinode.prior == At(r, d / 2)
    {
      hide Shape, AllRated, Distinct, Sifted, PopHeap, SiftReady, View, Ratings, Items, Swapped;
      ghost var u := Swapped(s, q, d);
      if BitClear(n, m) {
        ShapeAt(s, q);
        var tl := prinode.left;
        StepOut(prinode, tl, s, q, d);
        r := DecreasePriorityTo(tl, tl.priority, u, q, d);
      } else {
        ShapeAt(s, q);
        var tr := prinode.right;
        StepOut(prinode, tr, s, q, d);
        r := DecreasePriorityTo(tr, tr.priority, u, q, d);
      }
      ShapeAt(r, d);
      StepDone(Ratings(Items(s)), s, q, d, u, r);
    }

    /** Gives the node at position `k` of `s` a higher priority and moves it up; the
        nodes are then laid out as `r`. */
    method IncreasePriorityTo(t: Node, priority: real, ghost s: seq<Node>, ghost k: nat) returns (ghost r: seq<Node>)
      requires Shape(View(Items(s)), s) && 1 <= k <= |s| && t == s[k - 1] && front == At(s, 1)
      requires UpHeap(Ratings(Items(s))[t := priority], s, k)
      modifies `front, t`priority, Items(s)`left, Items(s)`right, Items(s)`prior
      ensures Items(r) == Items(s) && |r| == |s| && front == At(r, 1) && Shape(View(Items(s)), r)
      ensures Ratings(Items(s)) == old(Ratings(Items(s)))[t := priority] && AllRated(Ratings(Items(s)), r)
      ensures HeapBut(Ratings(Items(s)), r, 0, 0)
    {
      hide Shape, UpHeap, HeapBut, Swapped, Distinct, Items, AllRated, View, Ratings;
      SetPriority(t, priority, s, k);
      var tp := t.prior;
      if tp == null {
        r := s;
        UpDone(r, k);
        return;
      }
      r := RaiseBelow(t, tp, s, k);
    }

    /** Moves up a node that has a prior. */
    method RaiseBelow(t: Node, tp0: Node, ghost s: seq<Node>, ghost k: nat) returns (ghost r: seq<Node>)
      requires Shape(View(Items(s)), s) && 2 <= k <= |s| && t == s[k - 1] && tp0 == s[k / 2 - 1] && front == At(s, 1)
      requires AllRated(Ratings(Items(s)), s) && UpHeap(Ratings(Items(s)), s, k)
      modifies `front, Items(s)`left, Items(s)`right, Items(s)`prior
      ensures Items(r) == Items(s) && |r| == |s| && front == At(r, 1) && Shape(View(Items(s)), r)
      ensures Ratings(Items(s)) == old(Ratings(Items(s))) && AllRated(Ratings(Items(s)), r)
      ensures HeapBut(Ratings(Items(s)), r, 0, 0)
    {
      hide Shape, UpHeap, HeapBut, Swapped, Distinct, Items, AllRated, View, Ratings;
      var tp: Node? := tp0;
      r := s;
      ghost var c := k;
      while tp.priority < t.priority
        invariant 2 <= c <= |r| == |s| && Items(r) == Items(s) && t == r[c - 1] && tp == r[c / 2 - 1]
        invariant front == At(r, 1)
        invariant Ratings(Items(s)) == old(Ratings(Items(s)))
        invariant Shape(View(Items(s)), r) && AllRated(Ratings(Items(s)), r) && UpHeap(Ratings(Items(s)), r, c)
        decreases c
      {
        r, c := SwapUp(tp, t, r, c);
        tp := t.prior;
        if tp == null {
          SetFront(t, Items(s));
          break;
        }
      }
      UpDone(r, c);
    }

    /** Gives the node at position `k` of `s` a lower priority and sifts it down. */
    method DecreasePriorityTo(t: Node, priority: real, ghost s: seq<Node>, ghost k: nat, ghost h: nat)
        returns (ghost r: seq<Node>)
      requires Shape(View(Items(s)), s) && 1 <= k <= |s| && t == s[k - 1]
      requires SiftReady(Ratings(Items(s))[t := priority], s, k, h)
      modifies `front, t`priority, Items(s)`left, Items(s)`right, Items(s)`prior
      ensures Ratings(Items(s)) == old(Ratings(Items(s)))[t := priority] && AllRated(Ratings(Items(s)), s)
      ensures AllRated(Ratings(Items(s)), r)
      ensures |r| == |s| && Items(r) == Items(s) && Shape(View(Items(s)), r) && Sifted(Ratings(Items(s)), s, k, h, r)
      ensures front == if k > 1 || r[0] == t then old(front) else r[0]
    {
      hide Shape, SiftReady, Sifting, Sifted, Swapped, Distinct, Items, AllRated, View, Ratings;
      ShapeAt(s, k);
      var tl := t.left;
      var tr := t.right;
      SetPriority(t, priority, s, k);
      SiftStart(Ratings(Items(s)), s, k, h);
      r := SiftFrom(t, tl, tr, s, k, h);
    }

    /** Sifts down a node, which may be the front. */
    method SiftFrom(t: Node, tl: Node?, tr: Node?, ghost s: seq<Node>, ghost k: nat, ghost h: nat)
        returns (ghost r: seq<Node>)
      requires 1 <= k <= |s| && t == s[k - 1] && tl == At(s, 2 * k) && tr == At(s, 2 * k + 1) && t.prior == At(s, k / 2)
      requires Shape(View(Items(s)), s) && AllRated(Ratings(Items(s)), s) && Sifting(Ratings(Items(s)), s, k, h, s, k)
      modifies `front, Items(s)`left, Items(s)`right, Items(s)`prior
      ensures AllRated(Ratings(Items(s)), r) && Ratings(Items(s)) == old(Ratings(Items(s)))
      ensures |r| == |s| && Items(r) == Items(s) && Shape(View(Items(s)), r) && Sifted(Ratings(Items(s)), s, k, h, r)
      ensures front == if k > 1 || r[0] == t then old(front) else r[0]
    {
      hide Shape, Sifting, Sifted, Swapped, Distinct, Items, AllRated, View, Ratings;
      if t.prior == null && tl != null {
        if MorePrior(tl, tr).priority <= t.priority {
          r := s;
          SiftDoneHere(s, k, h, r, k);
          return;
        }
        SetFront(MorePrior(tl, tr), Items(s));
      }
      r := SiftDown(t, tl, tr, s, k, h);
    }

    method SetFront(t: Node?, ghost all: set<Node>)
      modifies `front
      ensures front == t && View(all) == old(View(all)) && Ratings(all) == old(Ratings(all))
    {
      front := t;
    }
  }

  /** Swaps the node at position `c` with its parent. */
  method SwapUp(tp: Node, t: Node, ghost s: seq<Node>, ghost c: nat) returns (ghost r: seq<Node>, ghost c': nat)
    requires 2 <= c <= |s| && t == s[c - 1] && tp == s[c / 2 - 1]
    requires Shape(View(Items(s)), s) && AllRated(Ratings(Items(s)), s) && UpHeap(Ratings(Items(s)), s, c)
    requires tp.priority < t.priority
    modifies Items(s)`left, Items(s)`right, Items(s)`prior
    ensures c' == c / 2 && Items(r) == Items(s) && |r| == |s| && Shape(View(Items(s)), r)
    ensures AllRated(Ratings(Items(s)), r) && UpHeap(Ratings(Items(s)), r, c')
    ensures Ratings(Items(s)) == old(Ratings(Items(s)))
    ensures t == r[c' - 1] && t.prior == At(r, c' / 2) && (c' >= 2 ==> At(r, 1) == At(s, 1))
  {
    hide Shape, UpHeap, Linked, View, AllRated;
    c' := c / 2;
    r := Swapped(s, c', c);
    UpStep(Ratings(Items(s)), s, c, r);
    SwappedItems(s, c', c);
    assert At(r, c') == At(s, c);
    WhichChild(s, c);
    hide Swapped;
    SwapChild(tp, t, s, c', c);
    ShapeAt(r, c');
  }

  /** Sifts down the node at position `k` of `s`, whose children are `left` and `right`. */
  method SiftDown(t: Node, left: Node?, right: Node?, ghost s: seq<Node>, ghost k: nat, ghost h: nat)
      returns (ghost r: seq<Node>)
    requires 1 <= k <= |s| && t == s[k - 1] && left == At(s, 2 * k) && right == At(s, 2 * k + 1)
    requires Shape(View(Items(s)), s) && AllRated(Ratings(Items(s)), s) && Sifting(Ratings(Items(s)), s, k, h, s, k)
    modifies Items(s)`left, Items(s)`right, Items(s)`prior
    ensures AllRated(Ratings(Items(s)), r) && Ratings(Items(s)) == old(Ratings(Items(s)))
    ensures Items(r) == Items(s) && Shape(View(Items(s)), r) && Sifted(Ratings(Items(s)), s, k, h, r)
    ensures |r| == |s|
    ensures r[k - 1] == if left != null && MorePrior(left, right).priority > t.priority
              then MorePrior(left, right) else t
  {
    hide Shape, Sifting, Sifted, Swapped, Distinct, Items, AllRated, View, Ratings;
    var tl, tr := left, right;
    ghost var c := k;
    r := s;
    while true
      invariant |r| == |s| && 1 <= k <= c <= |r| && t == r[c - 1] && tl == At(r, 2 * c) && tr == At(r, 2 * c + 1)
      invariant Shape(View(Items(s)), r) && Items(r) == Items(s) && AllRated(Ratings(Items(s)), s)
      invariant AllRated(Ratings(Items(s)), r)
      invariant Sifting(Ratings(Items(s)), s, k, h, r, c)
      invariant Ratings(Items(s)) == old(Ratings(Items(s)))
      invariant c == k ==> tl == left && tr == right && r == s
      invariant c > k ==> left != null && r[k - 1] == old(MorePrior(left, right))
      invariant c > k ==> old(MorePrior(left, right).priority) > t.priority
      decreases |r| - c
    {
      if tl == null {
        SiftDoneHere(s, k, h, r, c);
        return;
      } else if tr == null {
        if tl.priority <= t.priority {
          SiftDoneHere(s, k, h, r, c);
          return;
        }
        r, c := SwapDown(t, tl, s, k, h, r, c, 2 * c);
        SiftDoneHere(s, k, h, r, c);
        return;
      } else if tl.priority >= tr.priority {
        if tl.priority <= t.priority {
          SiftDoneHere(s, k, h, r, c);
          return;
        }
        r, c := SwapDown(t, tl, s, k, h, r, c, 2 * c);
      } else {
        if tr.priority <= t.priority {
          SiftDoneHere(s, k, h, r, c);
          return;
        }
        r, c := SwapDown(t, tr, s, k, h, r, c, 2 * c + 1);
      }
      tl := t.left;
      tr := t.right;
    }
  }

  /** The left child unless the right one is more prior. */
  function MorePrior(tl: Node, tr: Node?): Node
    reads tl, if tr == null then {} else {tr}
  {
    if tr == null || tl.priority >= tr.priority then tl else tr
  }

  /** Swaps the node at position `c` with its more prior child at position `e`. */
  method SwapDown(t: Node, d: Node, ghost s: seq<Node>, ghost k: nat, ghost h: nat, ghost r: seq<Node>, ghost c: nat,
      ghost e: nat)
      returns (ghost r': seq<Node>, ghost c': nat)
    requires |r| == |s| && 1 <= k <= c && e / 2 == c && 2 <= e <= |r| && t == r[c - 1] && d == r[e - 1]
    requires Shape(View(Items(s)), r) && Items(r) == Items(s) && AllRated(Ratings(Items(s)), s)
    requires AllRated(Ratings(Items(s)), r)
    requires Sifting(Ratings(Items(s)), s, k, h, r, c) && d.priority > t.priority
    requires At(r, 2 * c) != null && d == MorePrior(At(r, 2 * c), At(r, 2 * c + 1))
    modifies Items(s)`left, Items(s)`right, Items(s)`prior
    ensures c' == e && |r'| == |s| && t == r'[c' - 1] && t.left == At(r', 2 * c') && t.right == At(r', 2 * c' + 1)
    ensures Shape(View(Items(s)), r') && Items(r') == Items(s) && AllRated(Ratings(Items(s)), r')
    ensures Sifting(Ratings(Items(s)), s, k, h, r', c') && Ratings(Items(s)) == old(Ratings(Items(s)))
    ensures r'[k - 1] == if c == k then d else r[k - 1]
  {
    hide Shape, Sifting, Linked, Items;
    ShapeAt(r, c);
    c' := e;
    r' := Swapped(r, c, e);
    MorePriorIsMost(s, r, c, e);
    SiftStep(Ratings(Items(s)), s, k, h, r, c, e, r');
    SwappedItems(r, c, e);
    assert At(r', e) == t && At(r', c) == d && (k < c ==> At(r', k) == At(r, k));
    hide Swapped;
    SwapChild(t, d, r, c, e);
    ShapeAt(r', e);
  }

  lemma MorePriorIsMost(s: seq<Node>, r: seq<Node>, c: nat, e: nat)
    requires 1 <= c && e / 2 == c && 2 <= e <= |r| && At(r, 2 * c) != null
    requires r[e - 1] == MorePrior(At(r, 2 * c), At(r, 2 * c + 1))
    requires Items(r) == Items(s) && AllRated(Ratings(Items(s)), r)
    ensures forall j :: 2 <= j <= |r| && j / 2 == c ==> At1(Ratings(Items(s)), r, j) <= At1(Ratings(Items(s)), r, e)
  {
    forall j | 2 <= j <= |r| && j / 2 == c ensures At1(Ratings(Items(s)), r, j) <= At1(Ratings(Items(s)), r, e) {
      assert j == 2 * c || j == 2 * c + 1;
    }
  }

  lemma SiftDoneHere(s: seq<Node>, k: nat, h: nat, r: seq<Node>, c: nat)
    requires Items(r) == Items(s) && AllRated(Ratings(Items(s)), s) && AllRated(Ratings(Items(s)), r) && 1 <= c <= |r|
    requires Sifting(Ratings(Items(s)), s, k, h, r, c)
    requires At(r, 2 * c) != null ==> MorePrior(At(r, 2 * c), At(r, 2 * c + 1)).priority <= r[c - 1].priority
    ensures 1 <= k <= |s| && Sifted(Ratings(Items(s)), s, k, h, r)
  {
    SiftDone(Ratings(Items(s)), s, k, h, r, c);
  }

  /** Swaps the nodes at position `k` and its child position `c`. */
  method SwapChild(t: Node, d: Node, ghost s: seq<Node>, ghost k: nat, ghost c: nat)
    requires Shape(View(Items(s)), s) && k == c / 2 && 2 <= c <= |s| && t == s[k - 1] && d == s[c - 1]
    modifies Items(s)`left, Items(s)`right, Items(s)`prior
    ensures Shape(View(Items(s)), Swapped(s, k, c))
  {
    hide Shape, Swapped, Linked;
    WhichChild(s, c);
    if d == t.left {
      SwapLeftAt(t, s, k);
    } else {
      SwapRightAt(t, s, k);
    }
  }

  lemma Position(s: seq<Node>, t: Node) returns (k: nat)
    requires t in Items(s)
    ensures 1 <= k <= |s| && s[k - 1] == t
  {
    var i :| 0 <= i < |s| && s[i] == t;
    k := i + 1;
  }

  lemma SiftedHeap(p: Prios, s: seq<Node>, k: nat, r: seq<Node>)
    requires AllRated(p, s) && AllRated(p, r) && 1 <= k <= |s| && Sifted(p, s, k, 0, r)
    ensures HeapBut(p, r, 0, 0) && |r| == |s| && Items(r) == Items(s) && (k > 1 ==> At(r, 1) == At(s, 1))
  {}

  /** The outgoing node is cut off the last position. */
  method DropOut(prinode: Node, ghost s: seq<Node>)
    requires Shape(View(Items(s)), s) && |s| >= 2 && prinode == s[|s| - 1] && AllRated(Ratings(Items(s)), s[..|s| - 1])
    requires HeapBut(Ratings(Items(s)), s[..|s| - 1], 0, 0)
    modifies Items(s)`left, Items(s)`right
    ensures var r := s[..|s| - 1];
            && Items(r) == Items(s) - {prinode} && Shape(View(Items(r)), r) && At(r, 1) == At(s, 1)
            && AllRated(Ratings(Items(r)), r) && HeapBut(Ratings(Items(r)), r, 0, 0)
    ensures Ratings(Items(s)) == old(Ratings(Items(s)))
  {
    hide Shape, View;
    DropLast(prinode, s);
    FewerRated(Items(s), s[..|s| - 1]);
  }

  lemma FewerRated(all: set<Node>, r: seq<Node>)
    requires Items(r) <= all && AllRated(Ratings(all), r) && HeapBut(Ratings(all), r, 0, 0)
    ensures AllRated(Ratings(Items(r)), r) && HeapBut(Ratings(Items(r)), r, 0, 0)
  {
    var p, p' := Ratings(all), Ratings(Items(r));
    assert forall x :: x in r ==> x in Items(r);
    forall j | 2 <= j <= |r| ensures InOrder(p', r, j) { assert InOrder(p, r, j); }
  }

  lemma FrontIsMost(s: seq<Node>)
    requires s != [] && AllRated(Ratings(Items(s)), s) && HeapBut(Ratings(Items(s)), s, 0, 0)
    ensures forall x :: x in Items(s) ==> x.priority <= s[0].priority
  {
    forall x | x in Items(s) ensures x.priority <= s[0].priority {
      var k := Position(s, x);
      RootIsMost(Ratings(Items(s)), s, k);
      assert s[0] in Items(s);
    }
  }

  /** A node with the highest priority is in front. */
  lemma FrontIsTop(s: seq<Node>, x: Node, top: real)
    requires x in Items(s) && x.priority == top && forall y :: y in Items(s) && y != x ==> y.priority < top
    requires AllRated(Ratings(Items(s)), s) && HeapBut(Ratings(Items(s)), s, 0, 0)
    ensures s != [] && x == s[0]
  {
    FrontIsMost(s);
    assert s[0] in Items(s);
  }

  lemma SingleNode(x: Node)
    requires x.prior == null && x.left == null && x.right == null
    ensures Items([x]) == {x} && Shape(View(Items([x])), [x]) && AllRated(Ratings(Items([x])), [x])
    ensures HeapBut(Ratings(Items([x])), [x], 0, 0)
  {}

  lemma OneNode(s: seq<Node>)
    requires |s| == 1
    ensures Items(s) == {s[0]}
    ensures Items([]) == {} && Shape(View(Items([])), []) && AllRated(Ratings(Items([])), [])
    ensures HeapBut(Ratings(Items([])), [], 0, 0)
  {}

  /** The outgoing node becomes less prior than all others. */
  method StartOut(prinode: Node, ghost s: seq<Node>, lowest: real)
    requires s != [] && prinode == s[0] && Shape(View(Items(s)), s)
    requires AllRated(Ratings(Items(s)), s) && HeapBut(Ratings(Items(s)), s, 0, 0)
    requires forall x :: x in Items(s) && x != prinode ==> lowest < x.priority
    modifies prinode`priority
    ensures AllRated(Ratings(Items(s)), s) && PopHeap(Ratings(Items(s)), s, 1) && View(Items(s)) == old(View(Items(s)))
    ensures Ratings(Items(s)) == old(Ratings(Items(s)))[prinode := lowest]
  {
    hide Shape, AllRated, PopHeap, HeapBut;
    ShapeAt(s, 1);
    ghost var p := Ratings(Items(s));
    forall j | 2 <= j <= |s| ensures At1(p, s, j) > lowest {
      assert s[j - 1] in Items(s) && At(s, j) != At(s, 1);
    }
    PopStart(p, s, lowest);
    prinode.priority := lowest;
    assert prinode in Items(s);
    assert Ratings(Items(s)) == p[prinode := lowest];
  }

  /** Swaps the outgoing node with its child `c`. */
  method StepOut(prinode: Node, c: Node, ghost s: seq<Node>, ghost q: nat, ghost d: nat)
    requires d / 2 == q && 2 <= d <= |s| && prinode == s[q - 1] && c == s[d - 1]
    requires Shape(View(Items(s)), s) && AllRated(Ratings(Items(s)), s) && PopHeap(Ratings(Items(s)), s, q)
    modifies Items(s)`left, Items(s)`right, Items(s)`prior
    ensures var u := Swapped(s, q, d);
            && Items(u) == Items(s) && Shape(View(Items(s)), u) && u[q - 1] == c
            && AllRated(Ratings(Items(s)), u) && SiftReady(Ratings(Items(s))[c := c.priority], u, q, d)
    ensures Ratings(Items(s)) == old(Ratings(Items(s)))[c := c.priority] == old(Ratings(Items(s)))
  {
    hide Shape, AllRated, Distinct, PopHeap, SiftReady, View, Swapped;
    PopStage(Ratings(Items(s)), s, q, d, Swapped(s, q, d));
    SwapChild(prinode, c, s, q, d);
    SwappedItems(s, q, d);
    assert At(Swapped(s, q, d), q) == c;
    assert c in Items(s);
    assert Ratings(Items(s))[c := c.priority] == Ratings(Items(s));
  }

  lemma StepDone(p: Prios, s: seq<Node>, q: nat, d: nat, u: seq<Node>, r: seq<Node>)
    requires AllRated(p, s) && PopHeap(p, s, q) && d / 2 == q && 2 <= d <= |s| && u == Swapped(s, q, d)
    requires AllRated(p, u) && AllRated(p, r) && Distinct(r) && Sifted(p, u, q, d, r)
    ensures PopHeap(p, r, d) && |r| == |s| && r[d - 1] == s[q - 1] && Items(r) == Items(u)
    ensures q > 1 ==> At(r, 1) == At(s, 1)
  {
    PopStage(p, s, q, d, u);
    assert At(u, d) == At(s, q);
  }

  lemma WhichChild(s: seq<Node>, c: nat)
    requires Shape(View(Items(s)), s) && 2 <= c <= |s|
    ensures c / 2 <= |s| && (s[c / 2 - 1].left == s[c - 1] <==> c == 2 * (c / 2))
    ensures c == 2 * (c / 2) || c == 2 * (c / 2) + 1
  {
    ShapeAt(s, c / 2);
    assert At(s, c) == s[c - 1];
  }

  lemma ShapeAt(s: seq<Node>, k: nat)
    requires Shape(View(Items(s)), s) && 1 <= k <= |s|
    ensures var x := s[k - 1]; x.left == At(s, 2 * k) && x.right == At(s, 2 * k + 1) && x.prior == At(s, k / 2)
    ensures Distinct(s)
  {
    assert Linked(View(Items(s)), s, k);
  }

  lemma UpDone(s: seq<Node>, k: nat)
    requires 1 <= k <= |s| && AllRated(Ratings(Items(s)), s) && UpHeap(Ratings(Items(s)), s, k)
    requires k == 1 || s[k / 2 - 1].priority >= s[k - 1].priority
    ensures HeapBut(Ratings(Items(s)), s, 0, 0)
  {}

  method SetPriority(t: Node, priority: real, ghost s: seq<Node>, ghost k: nat)
    requires 1 <= k <= |s| && t == s[k - 1] && Shape(View(Items(s)), s)
    modifies t`priority
    ensures Ratings(Items(s)) == old(Ratings(Items(s)))[t := priority] && t.priority == priority
    ensures AllRated(Ratings(Items(s)), s)
    ensures t.prior == At(s, k / 2) && Shape(View(Items(s)), s)
  {
    ShapeAt(s, k);
    t.priority := priority;
    assert t in Items(s);
  }
}
