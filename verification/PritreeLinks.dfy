/** Linked nodes in the shape of a complete binary tree. */
module PritreeLinks {
  class Node {
    var priority: real
    var prior: Node?
    var left: Node?
    var right: Node?
    constructor () { priority, prior, left, right := 0.0, null, null, null; }
  }

  function Items(s: seq<Node>): set<Node> {
    set x | x in s
  }

  /** The node at a position, counting from 1; the positions of its children are
      twice its own and one more. */
  function At(s: seq<Node>, k: nat): Node? {
    if 1 <= k <= |s| then s[k - 1] else null
  }

  ghost predicate Distinct(s: seq<Node>) {
    forall i, j :: 1 <= i < j <= |s| ==> At(s, i) != At(s, j)
  }

  /** The links of all nodes. */
  datatype Links = Links(left: map<Node, Node?>, right: map<Node, Node?>, prior: map<Node, Node?>)

  ghost function View(all: set<Node>): (v: Links)
    reads all`left, all`right, all`prior
    ensures v.left.Keys == v.right.Keys == v.prior.Keys == all
  {
    Links(map x | x in all :: x.left, map x | x in all :: x.right, map x | x in all :: x.prior)
  }

  ghost predicate Over(v: Links, s: seq<Node>) {
    v.left.Keys == v.right.Keys == v.prior.Keys == Items(s)
  }

  /** The links of the node at a position. */
  ghost predicate Linked(v: Links, s: seq<Node>, k: nat)
    requires Over(v, s) && 1 <= k <= |s|
  {
    v.left[s[k - 1]] == At(s, 2 * k) && v.right[s[k - 1]] == At(s, 2 * k + 1) && v.prior[s[k - 1]] == At(s, k / 2)
  }

  /** The links make `s` a complete tree. */
  ghost predicate Shape(v: Links, s: seq<Node>) {
    Over(v, s) && Distinct(s) && forall k :: 1 <= k <= |s| ==> Linked(v, s, k)
  }

  function Swapped(s: seq<Node>, i: nat, j: nat): (r: seq<Node>)
    requires 1 <= i <= |s| && 1 <= j <= |s|
    ensures |r| == |s| && At(r, i) == At(s, j) && At(r, j) == At(s, i)
    ensures forall k :: 1 <= k <= |s| && k != i && k != j ==> At(r, k) == At(s, k)
  {
    s[i - 1 := s[j - 1]][j - 1 := s[i - 1]]
  }

  lemma SwappedItems(s: seq<Node>, i: nat, j: nat)
    requires 1 <= i <= |s| && 1 <= j <= |s|
    ensures Items(Swapped(s, i, j)) == Items(s) && (Distinct(s) ==> Distinct(Swapped(s, i, j)))
  {
    var r := Swapped(s, i, j);
    forall x | x in s ensures x in r {
      var k :| 0 <= k < |s| && s[k] == x;
      assert r[if k == i - 1 then j - 1 else if k == j - 1 then i - 1 else k] == x;
    }
    if Distinct(s) {
      forall a, b | 1 <= a < b <= |r| ensures At(r, a) != At(r, b) {
        var a' := if a == i then j else if a == j then i else a;
        var b' := if b == i then j else if b == j then i else b;
        assert At(r, a) == At(s, a') && At(r, b) == At(s, b') && a' != b';
      }
    }
  }

  /** The links after `t` has been swapped with its child `c`: `c` has the prior `tp`
      and the children `cl` and `cr`, `t` the children `tl` and `tr`. */
  ghost predicate Rotated(v: Links, w: Links, all: set<Node>, tp: Node?, t: Node, c: Node, cl: Node?, cr: Node?,
      tl: Node?, tr: Node?)
    requires v.left.Keys == v.right.Keys == v.prior.Keys == all == w.left.Keys == w.right.Keys == w.prior.Keys
    requires t in all && c in all
  {
    && (forall x :: x in all && x != t && x != c ==> w.left[x] == (if x == tp && v.left[x] == t then c else v.left[x]))
    && (forall x :: x in all && x != t && x != c ==>
          w.right[x] == (if x == tp && v.right[x] == t then c else v.right[x]))
    && (forall x :: x in all && x != t && x != c ==>
          w.prior[x] == (if x == cl || x == cr then c else if x == tl || x == tr then t else v.prior[x]))
    && w.prior[c] == tp && w.left[c] == cl && w.right[c] == cr && w.prior[t] == c && w.left[t] == tl && w.right[t] == tr
  }

  /** A node `t`, its child `c`, its prior, its other child and the children of `c`. */
  ghost predicate Separate(all: set<Node>, tp: Node?, t: Node, c: Node, b: Node?, c1: Node?, c2: Node?) {
    && t in all && c in all && t != c && (tp != null ==> tp in all && tp != t && tp != c)
    && (b != null ==> b in all && b != t && b != c && b != tp)
    && (c1 != null ==> c1 in all && c1 != t && c1 != c && c1 != tp && c1 != b)
    && (c2 != null ==> c2 in all && c2 != t && c2 != c && c2 != tp && c2 != b && c2 != c1)
  }

  /** Swaps a node with its left child. */
  method SwapLeft(t: Node, ghost all: set<Node>)
    requires t.left != null && Separate(all, t.prior, t, t.left, t.right, t.left.left, t.left.right)
    requires t.prior != null ==> (t == t.prior.left) != (t == t.prior.right)
    modifies all`left, all`right, all`prior
    ensures var tp, c, tr, tl', tr' := old(t.prior), old(t.left), old(t.right), old(t.left.left), old(t.left.right);
            && (forall x :: x in all && x != t && x != c ==>
                  x.left == if x == tp && old(x.left) == t then c else old(x.left))
            && (forall x :: x in all && x != t && x != c ==>
                  x.right == if x == tp && old(x.right) == t then c else old(x.right))
            && (forall x :: x in all && x != t && x != c ==>
                  x.prior == if x == tr then c else if x == tl' || x == tr' then t else old(x.prior))
            && c.prior == tp && c.left == t && c.right == tr && t.prior == c && t.left == tl' && t.right == tr'
  {
    var tp := t.prior;
    var tl := t.left;
    var tll := tl.left;
    var tlr := tl.right;
    if tp != null {
      if t == tp.left {
        tp.left := tl;
      } else {
        tp.right := tl;
      }
    }
    tl.prior := tp;
    tl.left := t;
    tl.right := t.right;
    if tl.right != null {
      tl.right.prior := tl;
    }
    t.prior := tl;
    t.left := tll;
    if tll != null {
      tll.prior := t;
    }
    t.right := tlr;
    if tlr != null {
      tlr.prior := t;
    }
  }

  /** Swaps a node with its right child. */
  method SwapRight(t: Node, ghost all: set<Node>)
    requires t.right != null && Separate(all, t.prior, t, t.right, t.left, t.right.left, t.right.right)
    requires t.prior != null ==> (t == t.prior.left) != (t == t.prior.right)
    modifies all`left, all`right, all`prior
    ensures var tp, c, tl, tl', tr' := old(t.prior), old(t.right), old(t.left), old(t.right.left), old(t.right.right);
            && (forall x :: x in all && x != t && x != c ==>
                  x.left == if x == tp && old(x.left) == t then c else old(x.left))
            && (forall x :: x in all && x != t && x != c ==>
                  x.right == if x == tp && old(x.right) == t then c else old(x.right))
            && (forall x :: x in all && x != t && x != c ==>
                  x.prior == if x == tl then c else if x == tl' || x == tr' then t else old(x.prior))
            && c.prior == tp && c.left == tl && c.right == t && t.prior == c && t.left == tl' && t.right == tr'
  {
    var tp := t.prior;
    var tr := t.right;
    var trr := tr.right;
    var trl := tr.left;
    if tp != null {
      if t == tp.right {
        tp.right := tr;
      } else {
        tp.left := tr;
      }
    }
    tr.prior := tp;
    tr.right := t;
    tr.left := t.left;
    if tr.left != null {
      tr.left.prior := tr;
    }
    t.prior := tr;
    t.right := trr;
    if trr != null {
      trr.prior := t;
    }
    t.left := trl;
    if trl != null {
      trl.prior := t;
    }
  }

  /** What a swap along the link from position `k` to its child at `c` leaves behind. */
  ghost predicate SwappedDown(v: Links, w: Links, s: seq<Node>, k: nat, c: nat)
    requires Over(v, s) && Over(w, s) && 1 <= k && c in {2 * k, 2 * k + 1} && c <= |s|
  {
    var cl, cr := if c == 2 * k then At(s, k) else At(s, 2 * k), if c == 2 * k then At(s, 2 * k + 1) else At(s, k);
    assert s[k - 1] in Items(s) && s[c - 1] in Items(s);
    Rotated(v, w, Items(s), At(s, k / 2), s[k - 1], s[c - 1], cl, cr, At(s, 2 * c), At(s, 2 * c + 1))
  }

  lemma NearRotation(v: Links, w: Links, s: seq<Node>, k: nat, c: nat, r: seq<Node>)
    requires Over(v, s) && Over(w, s) && 1 <= k && c in {2 * k, 2 * k + 1} && c <= |s| && SwappedDown(v, w, s, k, c)
    requires r == Swapped(s, k, c) && Over(w, r)
    ensures Linked(w, r, k) && Linked(w, r, c)
  {
    assert At(r, k) == At(s, c) && At(r, c) == At(s, k);
    assert At(r, 2 * c) == At(s, 2 * c) && At(r, 2 * c + 1) == At(s, 2 * c + 1);
    hide Swapped;
  }

  /** The forward links of the other positions. */
  lemma AroundDown(v: Links, w: Links, s: seq<Node>, k: nat, c: nat, j: nat, r: seq<Node>)
    requires Over(v, s) && Over(w, s) && 1 <= k && c in {2 * k, 2 * k + 1} && c <= |s| && SwappedDown(v, w, s, k, c)
    requires r == Swapped(s, k, c) && Distinct(s) && 1 <= j <= |s| && j != k && j != c && Linked(v, s, j)
    ensures s[j - 1] in w.left && r[j - 1] == s[j - 1]
    ensures w.left[s[j - 1]] == At(r, 2 * j) && w.right[s[j - 1]] == At(r, 2 * j + 1)
  {
    var x := s[j - 1];
    assert x == At(s, j) == At(r, j) && x in Items(s) && s[k - 1] == At(s, k) && s[c - 1] == At(s, c);
    assert x == At(s, k / 2) <==> j == k / 2;
  }

  lemma PriorOf(v: Links, w: Links, s: seq<Node>, k: nat, c: nat, x: Node)
    requires Over(v, s) && Over(w, s) && 1 <= k && c in {2 * k, 2 * k + 1} && c <= |s| && SwappedDown(v, w, s, k, c)
    requires x in Items(s) && x != s[k - 1] && x != s[c - 1]
    ensures w.prior[x] == if x == At(s, if c == 2 * k then 2 * k + 1 else 2 * k) then s[c - 1]
                          else if x == At(s, 2 * c) || x == At(s, 2 * c + 1) then s[k - 1] else v.prior[x]
  {}

  /** The backward links of the other positions. */
  lemma AroundUp(v: Links, w: Links, s: seq<Node>, k: nat, c: nat, j: nat, r: seq<Node>)
    requires Over(v, s) && Over(w, s) && 1 <= k && c in {2 * k, 2 * k + 1} && c <= |s| && SwappedDown(v, w, s, k, c)
    requires r == Swapped(s, k, c) && Distinct(s) && 1 <= j <= |s| && j != k && j != c && Linked(v, s, j)
    ensures s[j - 1] in w.prior && w.prior[s[j - 1]] == At(r, j / 2)
  {
    hide SwappedDown, Swapped;
    var x := s[j - 1];
    assert x == At(s, j) && x in Items(s) && s[k - 1] == At(s, k) && s[c - 1] == At(s, c);
    assert forall i :: 1 <= i <= |s| && x == At(s, i) ==> i == j;
    PriorOf(v, w, s, k, c, x);
  }

  lemma LinkedFrom(v: Links, w: Links, s: seq<Node>, k: nat, c: nat, j: nat, r: seq<Node>)
    requires Over(v, s) && Over(w, s) && 1 <= k && c in {2 * k, 2 * k + 1} && c <= |s| && SwappedDown(v, w, s, k, c)
    requires r == Swapped(s, k, c) && Over(w, r) && 1 <= j <= |s| && j != k && j != c && Shape(v, s)
    ensures Linked(w, r, j)
  {
    hide SwappedDown, Swapped;
    AroundDown(v, w, s, k, c, j, r);
    AroundUp(v, w, s, k, c, j, r);
  }

  /** A swap along a link is a swap of two positions. */
  lemma SwapKeepsShape(v: Links, w: Links, s: seq<Node>, k: nat, c: nat)
    requires Over(v, s) && Over(w, s) && 1 <= k && c in {2 * k, 2 * k + 1} && c <= |s| && SwappedDown(v, w, s, k, c)
    requires Shape(v, s)
    ensures Shape(w, Swapped(s, k, c))
  {
    hide SwappedDown, Swapped, Linked;
    var r := Swapped(s, k, c);
    SwappedItems(s, k, c);
    forall j | 1 <= j <= |s| ensures Linked(w, r, j) {
      if j == k || j == c {
        NearRotation(v, w, s, k, c, r);
      } else {
        LinkedFrom(v, w, s, k, c, j, r);
      }
    }
  }

  /** What a swap needs to know about the nodes around positions `k` and `c`. */
  lemma Surroundings(v: Links, s: seq<Node>, k: nat, c: nat)
    requires Shape(v, s) && 1 <= k && c in {2 * k, 2 * k + 1} && c <= |s|
    ensures var all, t, d := Items(s), s[k - 1], s[c - 1];
            && t in all && d in all && v.prior[t] == At(s, k / 2)
            && Separate(all, At(s, k / 2), t, d, At(s, if c == 2 * k then 2 * k + 1 else 2 * k), At(s, 2 * c),
                        At(s, 2 * c + 1))
            && v.left[t] == At(s, 2 * k) && v.right[t] == At(s, 2 * k + 1)
            && v.left[d] == At(s, 2 * c) && v.right[d] == At(s, 2 * c + 1)
    ensures Over(v, s) && forall i :: 1 <= i <= |s| ==> At(s, i) != null && s[i - 1] in Items(s)
    ensures k > 1 ==> (v.left[s[k / 2 - 1]] == s[k - 1]) != (v.right[s[k / 2 - 1]] == s[k - 1])
  {
    assert Linked(v, s, k) && Linked(v, s, c);
    if k > 1 { assert Linked(v, s, k / 2); }
    assert forall i :: 1 <= i <= |s| ==> At(s, i) in Items(s);
  }

  lemma HeapSurroundings(s: seq<Node>, k: nat, c: nat)
    requires Shape(View(Items(s)), s) && 1 <= k && c in {2 * k, 2 * k + 1} && c <= |s|
    ensures var t, d := s[k - 1], s[c - 1];
            && d == (if c == 2 * k then t.left else t.right)
            && Separate(Items(s), t.prior, t, d, if c == 2 * k then t.right else t.left, d.left, d.right)
            && (t.prior != null ==> (t == t.prior.left) != (t == t.prior.right))
            && t.prior == At(s, k / 2) && t.left == At(s, 2 * k) && t.right == At(s, 2 * k + 1)
            && d.left == At(s, 2 * c) && d.right == At(s, 2 * c + 1)
  {
    Surroundings(View(Items(s)), s, k, c);
  }

  lemma RotationIsSwap(v: Links, w: Links, s: seq<Node>, k: nat, c: nat, t: Node, d: Node)
    requires Over(v, s) && Over(w, s) && 1 <= k && c in {2 * k, 2 * k + 1} && c <= |s| && t == s[k - 1] && d == s[c - 1]
    requires t in Items(s) && d in Items(s)
    requires Rotated(v, w, Items(s), At(s, k / 2), t, d, if c == 2 * k then t else At(s, 2 * k),
                     if c == 2 * k then At(s, 2 * k + 1) else t, At(s, 2 * c), At(s, 2 * c + 1))
    ensures SwappedDown(v, w, s, k, c)
  {}

  method RotateLeft(t: Node, ghost all: set<Node>)
    requires t.left != null && Separate(all, t.prior, t, t.left, t.right, t.left.left, t.left.right)
    requires t.prior != null ==> (t == t.prior.left) != (t == t.prior.right)
    modifies all`left, all`right, all`prior
    ensures var tp, c, tr, tl', tr' := old(t.prior), old(t.left), old(t.right), old(t.left.left), old(t.left.right);
            Rotated(old(View(all)), View(all), all, tp, t, c, t, tr, tl', tr')
  {
    SwapLeft(t, all);
  }

  method RotateRight(t: Node, ghost all: set<Node>)
    requires t.right != null && Separate(all, t.prior, t, t.right, t.left, t.right.left, t.right.right)
    requires t.prior != null ==> (t == t.prior.left) != (t == t.prior.right)
    modifies all`left, all`right, all`prior
    ensures var tp, c, tl, tl', tr' := old(t.prior), old(t.right), old(t.left), old(t.right.left), old(t.right.right);
            Rotated(old(View(all)), View(all), all, tp, t, c, tl, t, tl', tr')
  {
    SwapRight(t, all);
  }

  /** Swaps the node at position `k` with its left child. */
  method SwapLeftAt(t: Node, ghost s: seq<Node>, ghost k: nat)
    requires Shape(View(Items(s)), s) && 1 <= k && 2 * k <= |s| && t == s[k - 1]
    modifies Items(s)`left, Items(s)`right, Items(s)`prior
    ensures Shape(View(Items(s)), Swapped(s, k, 2 * k))
  {
    hide Swapped, Linked, Shape, Distinct, Separate, SwappedDown, View, Rotated;
    ghost var v, all := View(Items(s)), Items(s);
    Surroundings(v, s, k, 2 * k);
    HeapSurroundings(s, k, 2 * k);
    RotateLeft(t, all);
    ghost var w := View(all);
    RotationIsSwap(v, w, s, k, 2 * k, s[k - 1], s[2 * k - 1]);
    SwapKeepsShape(v, w, s, k, 2 * k);
  }

  method SwapRightAt(t: Node, ghost s: seq<Node>, ghost k: nat)
    requires Shape(View(Items(s)), s) && 1 <= k && 2 * k + 1 <= |s| && t == s[k - 1]
    modifies Items(s)`left, Items(s)`right, Items(s)`prior
    ensures Shape(View(Items(s)), Swapped(s, k, 2 * k + 1))
  {
    hide Swapped, Linked, Shape, Distinct, Separate, SwappedDown, View, Rotated;
    ghost var v, all := View(Items(s)), Items(s);
    Surroundings(v, s, k, 2 * k + 1);
    HeapSurroundings(s, k, 2 * k + 1);
    RotateRight(t, all);
    ghost var w := View(all);
    RotationIsSwap(v, w, s, k, 2 * k + 1, s[k - 1], s[2 * k]);
    SwapKeepsShape(v, w, s, k, 2 * k + 1);
  }

  // ---------------------------------------------------------- the last position

  lemma ButLast(s: seq<Node>)
    requires s != [] && Distinct(s)
    ensures var r := s[..|s| - 1];
            && Items(r) == Items(s) - {s[|s| - 1]} && Distinct(r) && forall k :: 1 <= k <= |r| ==> At(r, k) == At(s, k)
  {
    var r, x := s[..|s| - 1], s[|s| - 1];
    assert s == r + [x];
    forall i, j | 1 <= i < j <= |r| ensures At(r, i) != At(r, j) { assert At(s, i) != At(s, j); }
    forall k | 1 <= k <= |r| ensures At(r, k) != x { assert At(s, k) != At(s, |s|); }
    forall y | y in r ensures y != x {
      var i :| 0 <= i < |r| && r[i] == y;
      assert At(r, i + 1) == y;
    }
  }

  lemma LinkedButLast(v: Links, s: seq<Node>, w: Links, k: nat)
    requires |s| >= 2 && Over(v, s) && Over(w, s[..|s| - 1]) && 1 <= k < |s| && Linked(v, s, k)
    requires var x := s[k - 1];
             && w.prior[x] == v.prior[x]
             && w.left[x] == (if 2 * k == |s| then null else v.left[x])
             && w.right[x] == (if 2 * k + 1 == |s| then null else v.right[x])
    ensures Linked(w, s[..|s| - 1], k)
  {}

  /** Takes the node at the last position off its parent. */
  method DropLast(prinode: Node, ghost s: seq<Node>)
    requires Shape(View(Items(s)), s) && |s| >= 2 && prinode == s[|s| - 1]
    modifies Items(s)`left, Items(s)`right
    ensures var r := s[..|s| - 1]; Items(r) == Items(s) - {prinode} && Shape(View(Items(r)), r)
  {
    ghost var n, r := |s|, s[..|s| - 1];
    ghost var v, all := View(Items(s)), Items(s);
    ButLast(s);
    LastParent(s, n);
    if prinode == prinode.prior.left {
      prinode.prior.left := null;
    } else {
      prinode.prior.right := null;
    }
    hide Distinct, Shape, Linked;
    forall k | 1 <= k <= |r| ensures Linked(View(Items(r)), r, k) {
      OneParent(v, s, n, k);
      LinkedButLast(v, s, View(Items(r)), k);
    }
    ShapeOf(View(Items(r)), r);
  }

  lemma ShapeOf(v: Links, s: seq<Node>)
    requires Over(v, s) && Distinct(s) && forall k :: 1 <= k <= |s| ==> Linked(v, s, k)
    ensures Shape(v, s)
  {}

  lemma LastParent(s: seq<Node>, n: nat)
    requires Shape(View(Items(s)), s) && n == |s| >= 2
    ensures s[n - 1].prior == s[n / 2 - 1] && (s[n / 2 - 1].left == s[n - 1] <==> n == 2 * (n / 2))
    ensures s[n / 2 - 1].left != s[n - 1] ==> s[n / 2 - 1].right == s[n - 1]
  {
    assert Linked(View(Items(s)), s, n) && Linked(View(Items(s)), s, n / 2);
    assert At(s, n) == s[n - 1];
  }

  lemma OneParent(v: Links, s: seq<Node>, n: nat, k: nat)
    requires Shape(v, s) && n == |s| >= 2 && 1 <= k < n
    ensures Linked(v, s, k) && (s[k - 1] == s[n / 2 - 1] <==> k == n / 2)
  {
    assert At(s, k) == s[k - 1] && At(s, n / 2) == s[n / 2 - 1];
  }

  /** Hangs a new node on `t` as the last position. */
  method AppendLast(t: Node, prinode: Node, left: bool, ghost s: seq<Node>)
    requires Shape(View(Items(s)), s) && s != [] && prinode !in s && t == s[(|s| + 1) / 2 - 1]
    requires left <==> (|s| + 1) % 2 == 0
    modifies t`left, t`right, prinode`left, prinode`right, prinode`prior
    ensures Items(s + [prinode]) == Items(s) + {prinode} && Shape(View(Items(s + [prinode])), s + [prinode])
  {
    ghost var n, r := |s| + 1, s + [prinode];
    ghost var v := View(Items(s));
    Append(s, prinode);
    if left {
      t.left := prinode;
    } else {
      t.right := prinode;
    }
    prinode.prior := t;
    prinode.left := null;
    prinode.right := null;
    hide Distinct, Shape, Linked;
    forall k | 1 <= k <= |s| ensures Linked(View(Items(r)), r, k) {
      OneParentToBe(v, s, k);
      LinkedAppend(v, s, prinode, View(Items(r)), k);
    }
    LastLinked(View(Items(r)), r);
    ShapeOf(View(Items(r)), r);
  }

  lemma Append(s: seq<Node>, x: Node)
    requires Distinct(s) && x !in s
    ensures Items(s + [x]) == Items(s) + {x} && Distinct(s + [x])
    ensures forall k :: 1 <= k <= |s| ==> At(s + [x], k) == At(s, k)
  {
    var r := s + [x];
    forall i, j | 1 <= i < j <= |r| ensures At(r, i) != At(r, j) {
      assert At(r, i) == At(s, i) && s[i - 1] in s;
      assert j == |r| || (At(r, j) == At(s, j) && At(s, i) != At(s, j));
    }
  }

  lemma OneParentToBe(v: Links, s: seq<Node>, k: nat)
    requires Shape(v, s) && 1 <= k <= |s|
    ensures Linked(v, s, k) && (s[k - 1] == s[(|s| + 1) / 2 - 1] <==> k == (|s| + 1) / 2)
  {
    assert At(s, k) == s[k - 1] && At(s, (|s| + 1) / 2) == s[(|s| + 1) / 2 - 1];
  }

  lemma LinkedAppend(v: Links, s: seq<Node>, x: Node, w: Links, k: nat)
    requires Over(v, s) && Over(w, s + [x]) && 1 <= k <= |s| && Linked(v, s, k)
    requires var y := s[k - 1];
             && (s + [x])[k - 1] == y && w.prior[y] == v.prior[y]
             && w.left[y] == (if 2 * k == |s| + 1 then x else v.left[y])
             && w.right[y] == (if 2 * k + 1 == |s| + 1 then x else v.right[y])
    ensures Linked(w, s + [x], k)
  {}

  lemma LastLinked(w: Links, r: seq<Node>)
    requires Over(w, r) && |r| >= 2
    requires var x := r[|r| - 1];
             x in Items(r) && w.prior[x] == r[|r| / 2 - 1] && w.left[x] == null && w.right[x] == null
    ensures Linked(w, r, |r|)
  {}
}
