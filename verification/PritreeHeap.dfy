/** Heap order on a complete tree laid out by positions, and how sifting restores it. */
module PritreeHeap {
  import opened PritreeLinks

  type Prios = map<Node, real>

  function At1(p: Prios, s: seq<Node>, k: nat): real
    requires 1 <= k <= |s| && s[k - 1] in p
  {
    p[s[k - 1]]
  }

  /** The node at position `j` is no more prior than its parent. */
  ghost predicate InOrder(p: Prios, s: seq<Node>, j: nat)
    requires 2 <= j <= |s| && s[j - 1] in p && s[j / 2 - 1] in p
  {
    At1(p, s, j / 2) >= At1(p, s, j)
  }

  ghost predicate AllRated(p: Prios, s: seq<Node>) {
    forall x :: x in s ==> x in p
  }

  /** Heap order, except for the children of positions `k` and `h`. */
  ghost predicate HeapBut(p: Prios, s: seq<Node>, k: nat, h: nat)
    requires AllRated(p, s)
  {
    forall j :: 2 <= j <= |s| && j / 2 != k && j / 2 != h ==> InOrder(p, s, j)
  }

  /** The children of position `k` are no more prior than its parent. */
  ghost predicate Bridged(p: Prios, s: seq<Node>, k: nat)
    requires AllRated(p, s)
  {
    k >= 2 ==> forall j :: 2 <= j <= |s| && j / 2 == k ==> At1(p, s, k / 2) >= At1(p, s, j)
  }

  /** Position `h`, if there is one, is less prior than all others. */
  ghost predicate Lowest(p: Prios, s: seq<Node>, h: nat)
    requires AllRated(p, s)
  {
    h > 0 ==> h <= |s| && forall j :: 1 <= j <= |s| && j != h ==> At1(p, s, j) > At1(p, s, h)
  }

  /** Only position `k` may be more prior than its parent. */
  ghost predicate UpHeap(p: Prios, s: seq<Node>, k: nat)
    requires AllRated(p, s)
  {
    Bridged(p, s, k) && forall j :: 2 <= j <= |s| && j != k ==> InOrder(p, s, j)
  }

  lemma SwappedRated(p: Prios, s: seq<Node>, i: nat, j: nat)
    requires 1 <= i <= |s| && 1 <= j <= |s| && AllRated(p, s)
    ensures AllRated(p, Swapped(s, i, j))
    ensures At1(p, Swapped(s, i, j), i) == At1(p, s, j) && At1(p, Swapped(s, i, j), j) == At1(p, s, i)
    ensures forall k :: 1 <= k <= |s| && k != i && k != j ==> At1(p, Swapped(s, i, j), k) == At1(p, s, k)
  {}

  /** Moving up one level. */
  lemma UpStep(p: Prios, s: seq<Node>, k: nat, r: seq<Node>)
    requires 2 <= k <= |s| && AllRated(p, s) && UpHeap(p, s, k) && At1(p, s, k / 2) < At1(p, s, k)
    requires r == Swapped(s, k / 2, k)
    ensures AllRated(p, r) && UpHeap(p, r, k / 2)
  {
    SwappedRated(p, s, k / 2, k);
    forall j | 2 <= j <= |r| && j != k / 2 ensures InOrder(p, r, j) {
      if j != k { assert InOrder(p, s, j); }
    }
    if k / 2 >= 2 {
      assert InOrder(p, s, k / 2);
      forall j | 2 <= j <= |r| && j / 2 == k / 2 ensures At1(p, r, k / 2 / 2) >= At1(p, r, j) {
        if j != k { assert InOrder(p, s, j); }
      }
    }
  }

  /** Moving down one level to the more prior child `d`. */
  lemma DownStep(p: Prios, s: seq<Node>, k: nat, d: nat, h: nat, r: seq<Node>)
    requires AllRated(p, s) && 1 <= k && d / 2 == k && 2 <= d <= |s| && r == Swapped(s, k, d)
    requires HeapBut(p, s, k, h) && Bridged(p, s, k) && h != k && h != d && (k > 1 ==> k / 2 != h)
    requires At1(p, s, d) > At1(p, s, k) && forall j :: 2 <= j <= |s| && j / 2 == k ==> At1(p, s, j) <= At1(p, s, d)
    ensures AllRated(p, r) && HeapBut(p, r, d, h) && Bridged(p, r, d)
    ensures h > 0 ==> forall j :: 1 <= j <= |s| && (j == h || j / 2 == h) ==> r[j - 1] == s[j - 1]
  {
    SwappedRated(p, s, k, d);
    forall j | 2 <= j <= |r| && j / 2 != d && j / 2 != h ensures InOrder(p, r, j) {
      if j / 2 != k && j != k { assert InOrder(p, s, j); }
    }
    forall j | 2 <= j <= |r| && j / 2 == d ensures At1(p, r, k) >= At1(p, r, j) {
      assert InOrder(p, s, j);
    }
  }

  lemma DownDone(p: Prios, s: seq<Node>, k: nat, h: nat)
    requires AllRated(p, s) && 1 <= k <= |s| && HeapBut(p, s, k, h)
    requires forall j :: 2 <= j <= |s| && j / 2 == k ==> At1(p, s, j) <= At1(p, s, k)
    ensures HeapBut(p, s, h, h)
  {
    forall j | 2 <= j <= |s| && j / 2 != h ensures InOrder(p, s, j) {
      if j / 2 != k { assert InOrder(p, s, j); }
    }
  }

  /** Position `k` may be less prior than its children; its child `h`, if any, is the
      outgoing node. */
  ghost predicate SiftReady(p: Prios, s: seq<Node>, k: nat, h: nat)
    requires AllRated(p, s)
  {
    1 <= k <= |s| && HeapBut(p, s, k, h) && Bridged(p, s, k) && Lowest(p, s, h) && (h > 0 ==> h / 2 == k)
  }

  /** The node at position `k` of `s` has been sifted down to position `c` of `r`. */
  ghost predicate Sifting(p: Prios, s: seq<Node>, k: nat, h: nat, r: seq<Node>, c: nat)
    requires AllRated(p, s) && AllRated(p, r)
  {
    && |r| == |s| && 1 <= k <= c <= |r| && s[k - 1] == r[c - 1] && Items(r) == Items(s)
    && HeapBut(p, r, c, h) && Bridged(p, r, c) && Lowest(p, r, h) && h != c && (c > 1 ==> c / 2 != h)
    && (h > 0 ==> h / 2 == k && forall j :: 1 <= j <= |s| && (j == h || j / 2 == h) ==> r[j - 1] == s[j - 1])
    && (forall j :: 1 <= j < k ==> At(r, j) == At(s, j))
    && At1(p, r, k) >= At1(p, r, c) && (c == k ==> r == s) && (c > k ==> r[k - 1] != s[k - 1])
  }

  lemma SiftStart(p: Prios, s: seq<Node>, k: nat, h: nat)
    requires AllRated(p, s) && SiftReady(p, s, k, h)
    ensures Sifting(p, s, k, h, s, k)
  {}

  lemma SiftStep(p: Prios, s: seq<Node>, k: nat, h: nat, r: seq<Node>, c: nat, d: nat, r': seq<Node>)
    requires AllRated(p, s) && AllRated(p, r) && Sifting(p, s, k, h, r, c) && d / 2 == c && 2 <= d <= |s|
    requires r' == Swapped(r, c, d)
    requires Distinct(r) && At1(p, r, d) > At1(p, r, c)
    requires forall j :: 2 <= j <= |r| && j / 2 == c ==> At1(p, r, j) <= At1(p, r, d)
    ensures AllRated(p, r') && Sifting(p, s, k, h, r', d)
  {
    assert h != d;
    DownStep(p, r, c, d, h, r');
    SwappedRated(p, r, c, d);
    SwappedItems(r, c, d);
    assert At(r, c) != At(r, d);
  }

  /** What sifting down achieves. */
  ghost predicate Sifted(p: Prios, s: seq<Node>, k: nat, h: nat, r: seq<Node>)
    requires AllRated(p, s) && AllRated(p, r) && 1 <= k <= |s|
  {
    && |r| == |s| && Items(r) == Items(s) && HeapBut(p, r, h, h) && At1(p, r, k) >= At1(p, s, k)
    && (forall j :: 1 <= j < k ==> At(r, j) == At(s, j))
    && (h > 0 ==> forall j :: 1 <= j <= |s| && (j == h || j / 2 == h) ==> r[j - 1] == s[j - 1])
  }

  lemma SiftDone(p: Prios, s: seq<Node>, k: nat, h: nat, r: seq<Node>, c: nat)
    requires AllRated(p, s) && AllRated(p, r) && Sifting(p, s, k, h, r, c)
    requires 2 * c <= |r| ==> At1(p, r, 2 * c) <= At1(p, r, c)
    requires 2 * c + 1 <= |r| ==> At1(p, r, 2 * c + 1) <= At1(p, r, c)
    ensures Sifted(p, s, k, h, r)
  {
    forall j | 2 <= j <= |r| && j / 2 == c ensures At1(p, r, j) <= At1(p, r, c) {
      assert j == 2 * c || j == 2 * c + 1;
    }
    DownDone(p, r, c, h);
  }

  /** The outgoing node has been swapped with its child `d` on the way to the last
      position; now position `q` may have to be sifted down. */
  lemma PopSwap(p: Prios, s: seq<Node>, q: nat, d: nat, r: seq<Node>)
    requires AllRated(p, s) && 1 <= q && d / 2 == q && 2 <= d <= |s| && r == Swapped(s, q, d)
    requires HeapBut(p, s, q, q) && Bridged(p, s, q) && Lowest(p, s, q)
    ensures AllRated(p, r) && HeapBut(p, r, q, d) && Bridged(p, r, q) && Lowest(p, r, d)
    ensures forall j :: 2 <= j <= |r| && j / 2 == d ==> At1(p, r, j) <= At1(p, r, q)
  {
    SwappedRated(p, s, q, d);
    forall j | 2 <= j <= |r| && j / 2 != q && j / 2 != d ensures InOrder(p, r, j) {
      if j != q { assert InOrder(p, s, j); }
    }
    forall j | 2 <= j <= |r| && j / 2 == d ensures At1(p, r, j) <= At1(p, r, q) {
      assert InOrder(p, s, j);
    }
    if q >= 2 {
      forall j | 2 <= j <= |r| && j / 2 == q ensures At1(p, r, q / 2) >= At1(p, r, j) {
        assert At1(p, s, q / 2) >= At1(p, s, j) && At1(p, s, q / 2) >= At1(p, s, d);
        assert At1(p, s, d) > At1(p, s, q);
      }
    }
  }

  /** Below the root nothing is more prior than it. */
  lemma {:induction false} RootIsMost(p: Prios, s: seq<Node>, j: nat)
    requires AllRated(p, s) && HeapBut(p, s, 0, 0) && 1 <= j <= |s|
    ensures At1(p, s, 1) >= At1(p, s, j)
    decreases j
  {
    if j > 1 {
      assert InOrder(p, s, j);
      RootIsMost(p, s, j / 2);
    }
  }

  // ------------------------------------------------------------- preparations

  lemma RaiseReady(p: Prios, s: seq<Node>, k: nat, x: real)
    requires AllRated(p, s) && Distinct(s) && HeapBut(p, s, 0, 0) && 1 <= k <= |s| && p[s[k - 1]] <= x
    ensures AllRated(p[s[k - 1] := x], s) && UpHeap(p[s[k - 1] := x], s, k)
  {
    var p' := p[s[k - 1] := x];
    forall j | 1 <= j <= |s| ensures At1(p', s, j) == if j == k then x else At1(p, s, j) {
      assert At(s, j) == s[j - 1] && At(s, k) == s[k - 1];
    }
    forall j | 2 <= j <= |s| && j != k ensures InOrder(p', s, j) { assert InOrder(p, s, j); }
    if k >= 2 {
      forall j | 2 <= j <= |s| && j / 2 == k ensures At1(p', s, k / 2) >= At1(p', s, j) {
        assert InOrder(p, s, j) && InOrder(p, s, k);
      }
    }
  }

  lemma LowerReady(p: Prios, s: seq<Node>, k: nat, x: real)
    requires AllRated(p, s) && Distinct(s) && HeapBut(p, s, 0, 0) && 1 <= k <= |s| && p[s[k - 1]] >= x
    ensures AllRated(p[s[k - 1] := x], s) && SiftReady(p[s[k - 1] := x], s, k, 0)
  {
    var p' := p[s[k - 1] := x];
    forall j | 1 <= j <= |s| ensures At1(p', s, j) == if j == k then x else At1(p, s, j) {
      assert At(s, j) == s[j - 1] && At(s, k) == s[k - 1];
    }
    forall j | 2 <= j <= |s| && j / 2 != k ensures InOrder(p', s, j) { assert InOrder(p, s, j); }
    if k >= 2 {
      forall j | 2 <= j <= |s| && j / 2 == k ensures At1(p', s, k / 2) >= At1(p', s, j) {
        assert InOrder(p, s, j) && InOrder(p, s, k);
      }
    }
  }

  /** A last position may be more prior than its parent. */
  lemma AppendReady(p: Prios, s: seq<Node>, t: Node, x: real)
    requires AllRated(p, s) && HeapBut(p, s, 0, 0) && t !in s
    ensures AllRated(p[t := x], s + [t]) && UpHeap(p[t := x], s + [t], |s| + 1)
  {
    var p', r := p[t := x], s + [t];
    forall j | 1 <= j <= |s| ensures At1(p', r, j) == At1(p, s, j) { assert s[j - 1] in s && r[j - 1] == s[j - 1]; }
    forall j | 2 <= j <= |r| && j != |r| ensures InOrder(p', r, j) { assert InOrder(p, s, j); }
  }

  /** The outgoing node is at position `q`. */
  ghost predicate PopHeap(p: Prios, s: seq<Node>, q: nat)
    requires AllRated(p, s)
  {
    1 <= q <= |s| && HeapBut(p, s, q, q) && Bridged(p, s, q) && Lowest(p, s, q)
  }

  lemma PopStart(p: Prios, s: seq<Node>, x: real)
    requires AllRated(p, s) && Distinct(s) && HeapBut(p, s, 0, 0) && s != []
    requires forall j :: 2 <= j <= |s| ==> At1(p, s, j) > x
    ensures AllRated(p[s[0] := x], s) && PopHeap(p[s[0] := x], s, 1)
  {
    var p' := p[s[0] := x];
    forall j | 2 <= j <= |s| ensures At1(p', s, j) == At1(p, s, j) {
      assert At(s, j) == s[j - 1] && At(s, 1) == s[0];
    }
    forall j | 2 <= j <= |s| && j / 2 != 1 ensures InOrder(p', s, j) { assert InOrder(p, s, j); }
  }

  /** Between two stages of the walk of the outgoing node. */
  lemma PopStage(p: Prios, s: seq<Node>, q: nat, d: nat, r: seq<Node>)
    requires AllRated(p, s) && PopHeap(p, s, q) && d / 2 == q && 2 <= d <= |s| && r == Swapped(s, q, d)
    ensures AllRated(p, r) && SiftReady(p, r, q, d)
    ensures forall u :: AllRated(p, u) && Distinct(u) && Sifted(p, r, q, d, u) ==> PopHeap(p, u, d)
  {
    PopSwap(p, s, q, d, r);
    forall u | AllRated(p, u) && Distinct(u) && Sifted(p, r, q, d, u) ensures PopHeap(p, u, d) {
      forall j | 2 <= j <= |u| && j / 2 == d ensures At1(p, u, q) >= At1(p, u, j) {
        assert u[j - 1] == r[j - 1] && At1(p, r, j) <= At1(p, r, q);
      }
      SiftedLowest(p, r, q, d, u);
    }
  }

  lemma SiftedLowest(p: Prios, s: seq<Node>, k: nat, h: nat, r: seq<Node>)
    requires AllRated(p, s) && AllRated(p, r) && 1 <= k <= |s| && Sifted(p, s, k, h, r) && Lowest(p, s, h)
    requires 1 <= h <= |s|
    requires Distinct(r) && h / 2 == k
    ensures Lowest(p, r, h)
  {
    assert r[h - 1] == s[h - 1];
    forall j | 1 <= j <= |r| && j != h ensures At1(p, r, j) > At1(p, r, h) {
      assert r[j - 1] in Items(r);
      var i :| 0 <= i < |s| && s[i] == r[j - 1];
      assert At(r, j) != At(r, h) && At1(p, s, i + 1) == At1(p, r, j);
    }
  }

  lemma PopEnd(p: Prios, s: seq<Node>)
    requires AllRated(p, s) && s != [] && PopHeap(p, s, |s|)
    ensures AllRated(p, s[..|s| - 1]) && HeapBut(p, s[..|s| - 1], 0, 0)
  {
    var r := s[..|s| - 1];
    forall j | 2 <= j <= |r| ensures InOrder(p, r, j) { assert InOrder(p, s, j); }
  }
}
