/** Moving the nodes of a hash map to more or fewer buckets. */
module HzmapResize {
  import opened HzmapLinks
  import opened HzmapSlots
  import opened Seqs

  /** Keys are unique over all buckets. */
  ghost predicate Unique(bs: Buckets) {
    forall m, n :: m in Nodes(bs) && n in Nodes(bs) && m.key == n.key ==> m == n
  }

  lemma PlacedUnique(bs: Buckets, count: bv64)
    requires AllPlaced(bs, count)
    ensures Unique(bs)
  {
    forall m, n | m in Nodes(bs) && n in Nodes(bs) && m.key == n.key ensures m == n {
      InItsBucket(bs, count, m);
      InItsBucket(bs, count, n);
      var b := bs[IndexOf(m.key, count, |bs|)];
      var j :| 0 <= j < |b| && b[j] == m;
      var k :| 0 <= k < |b| && b[k] == n;
    }
  }

  /** The buckets from `i` on are still linked. */
  ghost predicate LinkedFrom(a: seq<Node?>, bs: Buckets, i: nat)
    reads Nodes(bs)
  {
    |a| == |bs| && forall j :: i <= j < |a| ==> (assert Items(bs[j]) <= Nodes(bs); Seg(a[j], bs[j], null))
  }

  lemma NodesPrefix(bs: Buckets, i: nat)
    requires i < |bs|
    ensures Nodes(bs[..i + 1]) == Nodes(bs[..i]) + Items(bs[i]) && Nodes(bs[..i]) <= Nodes(bs)
    ensures Items(bs[i]) <= Nodes(bs)
  {
    forall n | n in Nodes(bs[..i + 1]) ensures n in Nodes(bs[..i]) + Items(bs[i]) {
      var j :| 0 <= j < i + 1 && n in bs[..i + 1][j];
      assert j < i ==> n in bs[..i][j];
    }
    forall n | n in Nodes(bs[..i]) + Items(bs[i]) ensures n in Nodes(bs[..i + 1]) && n in Nodes(bs) {
      if n in bs[i] { assert n in bs[..i + 1][i]; } else {
        var j :| 0 <= j < i && n in bs[..i][j];
        assert n in bs[..i + 1][j] && n in bs[j];
      }
    }
  }

  lemma {:induction false} CountPrefix(bs: Buckets, i: nat)
    requires i < |bs|
    ensures Count(bs[..i + 1]) == Count(bs[..i]) + |bs[i]|
  {
    if i > 0 {
      CountPrefix(bs[1..], i - 1);
      assert bs[..i + 1][1..] == bs[1..][..i] && bs[..i][1..] == bs[1..][..i - 1];
    } else {
      assert bs[..1] == [bs[0]] && bs[..0] == [];
    }
  }

  /** The nodes moved so far: all of the first `i` buckets and those of `pre`. */
  ghost predicate Moved(nb: Buckets, bs: Buckets, i: nat, pre: seq<Node>, count: bv64)
    requires i <= |bs|
  {
    && AllPlaced(nb, count) && Nodes(nb) == Nodes(bs[..i]) + Items(pre) && Count(nb) == Count(bs[..i]) + |pre|
  }

  lemma {:induction false} EmptyBuckets(cap: nat)
    ensures Count(seq(cap, _ => [])) == 0 && Nodes(seq(cap, _ => [])) == {}
  {
    if cap > 0 {
      EmptyBuckets(cap - 1);
      assert seq<seq<Node>>(cap, _ => [])[1..] == seq(cap - 1, _ => []);
    }
  }

  lemma MoveOne(nb: Buckets, bs: Buckets, i: nat, pre: seq<Node>, node: Node, rest: seq<Node>, count: bv64)
    requires i < |bs| && AllPlaced(bs, count) && bs[i] == pre + [node] + rest && Moved(nb, bs, i, pre, count)
    ensures var k := IndexOf(node.key, count, |nb|);
            Moved(nb[k := [node] + nb[k]], bs, i, pre + [node], count) && node !in Nodes(nb)
  {
    hide Nodes, Count, Placed, IndexOf;
    var k := IndexOf(node.key, count, |nb|);
    NotMoved(nb, bs, i, pre, node, rest, count);
    BucketIn(nb, k);
    assert node !in Nodes(nb);
    hide AllPlaced;
    NodesUpdate(nb, count, k, [node] + nb[k]);
    CountUpdate(nb, k, [node] + nb[k]);
    PlusNode(nb, count, k, node);
    assert Items([node] + nb[k]) == {node} + Items(nb[k]);
    assert Items(pre + [node]) == Items(pre) + {node};
  }

  lemma BucketIn(bs: Buckets, k: nat)
    requires k < |bs|
    ensures Items(bs[k]) <= Nodes(bs)
  {}

  /** A node of the rest has not been moved, nor any with its key. */
  lemma NotMoved(nb: Buckets, bs: Buckets, i: nat, pre: seq<Node>, node: Node, rest: seq<Node>, count: bv64)
    requires i < |bs| && AllPlaced(bs, count) && bs[i] == pre + [node] + rest && Moved(nb, bs, i, pre, count)
    ensures forall n :: n in Nodes(nb) ==> n.key != node.key
  {
    NodesPrefix(bs, i);
    PlacedUnique(bs, count);
    assert Placed(bs[i], i, count, |bs|);
    assert bs[i][|pre|] == node && node in bs[i];
    forall n | n in Nodes(nb) ensures n.key != node.key {
      if n in pre {
        var j :| 0 <= j < |pre| && pre[j] == n;
        assert bs[i][j] == n;
      } else {
        var j :| 0 <= j < i && n in bs[..i][j];
        BucketsApart(bs, count, j, i);
        assert n in bs[j] && n in Nodes(bs) && node in Nodes(bs);
      }
    }
  }

  lemma PlusNode(nb: Buckets, count: bv64, k: nat, node: Node)
    requires AllPlaced(nb, count) && k < |nb| && k == IndexOf(node.key, count, |nb|)
    requires forall n :: n in Nodes(nb) ==> n.key != node.key
    ensures AllPlaced(nb[k := [node] + nb[k]], count)
  {
    hide IndexOf;
    var nb' := nb[k := [node] + nb[k]];
    forall i | 0 <= i < |nb'| ensures Placed(nb'[i], i, count, |nb'|) {
      assert Placed(nb[i], i, count, |nb|);
      if i == k {
        forall n | n in nb[k] ensures n.key != node.key { assert n in Nodes(nb); }
      }
    }
  }

  /** Puts a node in front of its bucket. */
  method PushNode(newArr: array<Node?>, k: nat, node: Node, ghost nb: Buckets, ghost rest: seq<Node>,
      ghost a: seq<Node?>, ghost bs: Buckets, ghost i: nat)
    requires k < newArr.Length && Linked(newArr[..], nb) && node !in Nodes(nb) && Seg(node.next, rest, null)
    requires node !in Items(rest)
    requires LinkedFrom(a, bs, i) && forall j :: i <= j < |bs| ==> node !in Items(bs[j])
    modifies newArr, node`next
    ensures Linked(newArr[..], nb[k := [node] + nb[k]]) && Seg(old(node.next), rest, null) && LinkedFrom(a, bs, i)
  {
    ghost var b := newArr[..];
    BucketIn(nb, k);
    node.next := newArr[k];
    newArr[k] := node;
    assert ([node] + nb[k])[1..] == nb[k];
    forall j | 0 <= j < newArr.Length ensures Seg(newArr[j], nb[k := [node] + nb[k]][j], null) {
      BucketIn(nb, j);
      assert old(Seg(b[j], nb[j], null)) && Seg(b[j], nb[j], null);
    }
    forall j | i <= j < |a| ensures Seg(a[j], bs[j], null) {
      assert old(Seg(a[j], bs[j], null));
    }
  }

  lemma TakeNode(nb: Buckets, bs: Buckets, i: nat, pre: seq<Node>, node: Node, rest: seq<Node>, count: bv64)
    requires i < |bs| && AllPlaced(bs, count) && bs[i] == pre + [node] + rest
    ensures node !in Items(rest) && forall j :: i < j < |bs| ==> node !in Items(bs[j])
    ensures Items(bs[i]) <= Nodes(bs) && node in Items(bs[i])
  {
    hide Placed, Nodes, Items, IndexOf;
    assert Placed(bs[i], i, count, |bs|);
    BucketIn(bs, i);
    OnceIn(bs[i], pre, node, rest, i, count, |bs|);
    forall j | i < j < |bs| ensures node !in Items(bs[j]) { BucketsApart(bs, count, i, j); }
  }

  lemma OnceIn(b: seq<Node>, pre: seq<Node>, node: Node, rest: seq<Node>, i: nat, count: bv64, cap: nat)
    requires cap > 0 && Placed(b, i, count, cap) && b == pre + [node] + rest
    ensures node !in Items(rest) && node in Items(b)
  {
    hide IndexOf;
    assert b[|pre|] == node;
    forall k | 0 <= k < |rest| ensures rest[k] != node { assert b[|pre| + 1 + k] == rest[k]; }
  }

  /** Moves the nodes of bucket `i`. */
  method MoveBucket(head: Node?, newArr: array<Node?>, count: bv64, ghost nb0: Buckets, ghost a: seq<Node?>,
      ghost bs: Buckets, ghost i: nat)
      returns (ghost nb: Buckets)
    requires i < |bs| && AllPlaced(bs, count) && |a| == |bs| && head == a[i] && LinkedFrom(a, bs, i)
    requires |nb0| == newArr.Length > 0 && Linked(newArr[..], nb0) && Moved(nb0, bs, i, [], count)
    modifies newArr, Items(bs[i])`next
    ensures |nb| == |nb0| && Linked(newArr[..], nb) && Moved(nb, bs, i + 1, [], count) && LinkedFrom(a, bs, i + 1)
  {
    hide Moved, AllPlaced, IndexOf, Linked, LinkedFrom, Nodes;
    nb := nb0;
    FirstLinked(a, bs, i);
    LinkedNext(a, bs, i);
    var node := head;
    ghost var pre: seq<Node>, rest: seq<Node> := [], bs[i];
    while node != null
      invariant |nb| == |nb0| == newArr.Length > 0 && Linked(newArr[..], nb) && Moved(nb, bs, i, pre, count)
      invariant LinkedFrom(a, bs, i + 1)
      invariant bs[i] == pre + rest && Seg(node, rest, null)
      decreases |rest|
    {
      var next := node.next;
      var k := IndexOf(node.key, count, newArr.Length);
      ghost var rest' := rest[1..];
      assert rest == [node] + rest';
      TakeNode(nb, bs, i, pre, node, rest', count);
      MoveOne(nb, bs, i, pre, node, rest', count);
      PushNode(newArr, k, node, nb, rest', a, bs, i + 1);
      nb := nb[k := [node] + nb[k]];
      pre, rest := pre + [node], rest';
      node := next;
    }
    assert pre == bs[i];
    AllMoved(nb, bs, i, count);
  }

  lemma FirstLinked(a: seq<Node?>, bs: Buckets, i: nat)
    requires i < |a| && LinkedFrom(a, bs, i)
    ensures Seg(a[i], bs[i], null)
  {}

  lemma LinkedNext(a: seq<Node?>, bs: Buckets, i: nat)
    requires i < |a| && LinkedFrom(a, bs, i)
    ensures LinkedFrom(a, bs, i + 1)
  {}

  lemma AllMoved(nb: Buckets, bs: Buckets, i: nat, count: bv64)
    requires i < |bs| && Moved(nb, bs, i, bs[i], count)
    ensures Moved(nb, bs, i + 1, [], count)
  {
    NodesPrefix(bs, i);
    CountPrefix(bs, i);
  }

  /** Moves all nodes to the buckets of a new array. */
  method Rehash(oldArr: array<Node?>, newArr: array<Node?>, count: bv64, ghost bs: Buckets) returns (ghost nb: Buckets)
    requires oldArr != newArr && newArr.Length > 0 && forall i :: 0 <= i < newArr.Length ==> newArr[i] == null
    requires Linked(oldArr[..], bs) && AllPlaced(bs, count)
    modifies newArr, Nodes(bs)`next
    ensures |nb| == newArr.Length && Linked(newArr[..], nb) && AllPlaced(nb, count)
    ensures Nodes(nb) == Nodes(bs) && Count(nb) == Count(bs)
  {
    hide IndexOf;
    nb := seq(newArr.Length, _ => []);
    EmptyBuckets(newArr.Length);
    ghost var a := oldArr[..];
    assert bs[..0] == [];
    assert Linked(newArr[..], nb) && Moved(nb, bs, 0, [], count);
    hide Linked, LinkedFrom, Moved, AllPlaced, Nodes;
    StartFrom(a, bs);
    var i := 0;
    while i < oldArr.Length
      invariant 0 <= i <= oldArr.Length == |bs| && |nb| == newArr.Length && oldArr[..] == a
      invariant Linked(newArr[..], nb) && Moved(nb, bs, i, [], count) && LinkedFrom(a, bs, i)
    {
      BucketIn(bs, i);
      nb := MoveBucket(oldArr[i], newArr, count, nb, a, bs, i);
      i := i + 1;
    }
    EndMoved(nb, bs, count);
  }

  lemma StartFrom(a: seq<Node?>, bs: Buckets)
    requires Linked(a, bs)
    ensures LinkedFrom(a, bs, 0) && |a| == |bs|
  {}

  lemma EndMoved(nb: Buckets, bs: Buckets, count: bv64)
    requires Moved(nb, bs, |bs|, [], count)
    ensures AllPlaced(nb, count) && Nodes(nb) == Nodes(bs) && Count(nb) == Count(bs)
  {
    assert bs[..|bs|] == bs;
  }

  // ------------------------------------------------------------------- shrinking

  lemma FoldBucket(bs: Buckets, c: nat, k: nat, i: nat, count: bv64)
    requires c > 0 && |bs| == 2 * c && AllPlaced(bs, count) && k < c && i == k + c
    ensures Placed(bs[k], k, count, c) && Placed(bs[i], k, count, c) && Placed(bs[k] + bs[i], k, count, c)
    ensures Items(bs[k]) !! Items(bs[i])
  {
    hide IndexOf, Placed;
    BucketsApart(bs, count, k, i);
    PlacedUnique(bs, count);
    BucketIn(bs, k);
    BucketIn(bs, i);
    assert Placed(bs[k], k, count, |bs|) && Placed(bs[i], i, count, |bs|);
    HalfPlaced(bs[k], k, k, count, c);
    HalfPlaced(bs[i], i, k, count, c);
    JoinPlaced(bs[k], bs[i], k, count, c);
  }

  /** A bucket of the larger array, seen from the smaller one. */
  lemma HalfPlaced(b: seq<Node>, i: nat, k: nat, count: bv64, c: nat)
    requires c > 0 && Placed(b, i, count, 2 * c) && k < c && (i == k || i == k + c)
    ensures Placed(b, k, count, c)
  {
    hide IndexOf;
    assert i % c == k;
    forall n | n in b ensures IndexOf(n.key, count, c) == k { HalfIndex(n.key, count, c); }
  }

  lemma JoinPlaced(a: seq<Node>, b: seq<Node>, k: nat, count: bv64, c: nat)
    requires c > 0 && Placed(a, k, count, c) && Placed(b, k, count, c)
    requires forall m, n :: m in Items(a) && n in Items(b) ==> m.key != n.key
    ensures Placed(a + b, k, count, c)
  {
    hide IndexOf;
    forall x, y | 0 <= x < y < |a + b| ensures (a + b)[x].key != (a + b)[y].key {
      if x < |a| <= y { assert a[x] in Items(a) && b[y - |a|] in Items(b); }
    }
  }

  lemma FoldStart(bs: Buckets, c: nat, count: bv64)
    requires c > 0 && |bs| == 2 * c && AllPlaced(bs, count)
    ensures Moved(bs[..c], bs, c, [], count)
  {
    forall k | 0 <= k < c ensures Placed(bs[..c][k], k, count, c) { FoldBucket(bs, c, k, k + c, count); }
  }

  lemma FoldStep(nb: Buckets, bs: Buckets, c: nat, k: nat, i: nat, count: bv64)
    requires |nb| == c > 0 && |bs| == 2 * c && AllPlaced(bs, count) && k < c && i == k + c && nb[k] == bs[k]
    requires Moved(nb, bs, i, [], count)
    ensures Moved(nb[k := nb[k] + bs[i]], bs, i + 1, [], count) && Items(nb[k]) !! Items(bs[i])
  {
    var nb' := nb[k := nb[k] + bs[i]];
    FoldBucket(bs, c, k, i, count);
    FoldPlaced(nb, k, bs[i], count);
    NodesUpdate(nb, count, k, nb[k] + bs[i]);
    CountUpdate(nb, k, nb[k] + bs[i]);
    BucketIn(nb, k);
    PlacedPart(nb[k], bs[i], k, count, c);
    hide Placed, AllPlaced, Nodes, Count, IndexOf;
    NodesPrefix(bs, i);
    CountPrefix(bs, i);
  }

  lemma FoldPlaced(nb: Buckets, k: nat, b: seq<Node>, count: bv64)
    requires AllPlaced(nb, count) && k < |nb| && Placed(nb[k] + b, k, count, |nb|)
    ensures AllPlaced(nb[k := nb[k] + b], count)
  {
    hide Placed;
    var nb' := nb[k := nb[k] + b];
    forall i | 0 <= i < |nb'| ensures Placed(nb'[i], i, count, |nb'|) {
      assert Placed(nb[i], i, count, |nb|) || i == k;
    }
  }

  /** The link at the end of a chain. */
  method WalkToEnd(head: Node?, ghost b: seq<Node>) returns (slot: Slot)
    requires Seg(head, b, null)
    ensures slot == SlotAfter(b)
  {
    slot := Head;
    var p := head;
    ghost var pre: seq<Node>, rest: seq<Node> := [], b;
    while p != null
      invariant b == pre + rest && Seg(p, rest, null) && slot == SlotAfter(pre)
      decreases |rest|
    {
      slot := NextOf(p);
      pre, rest := pre + [p], rest[1..];
      p := p.next;
    }
  }

  /** Appends the upper half of the buckets to the lower half. */
  method Fold(oldArr: array<Node?>, newArr: array<Node?>, count: bv64, ghost bs: Buckets) returns (ghost nb: Buckets)
    requires oldArr != newArr && newArr.Length > 0 && oldArr.Length == 2 * newArr.Length
    requires newArr[..] == oldArr[..newArr.Length]
    requires Linked(oldArr[..], bs) && AllPlaced(bs, count)
    modifies newArr, Nodes(bs)`next
    ensures |nb| == newArr.Length && Linked(newArr[..], nb) && AllPlaced(nb, count)
    ensures Nodes(nb) == Nodes(bs) && Count(nb) == Count(bs)
  {
    hide Linked, LinkedFrom, Moved, AllPlaced, Nodes, IndexOf, Placed;
    var c := newArr.Length;
    ghost var a := oldArr[..];
    StartFrom(a, bs);
    nb := bs[..c];
    FoldStart(bs, c, count);
    LowerHalf(a, bs, c);
    var i := c;
    while i < oldArr.Length
      invariant c <= i <= oldArr.Length == 2 * c == |bs| && |nb| == c == newArr.Length && oldArr[..] == a
      invariant Linked(newArr[..], nb) && Moved(nb, bs, i, [], count) && LinkedFrom(a, bs, i)
      invariant forall k :: i - c <= k < c ==> nb[k] == bs[k]
    {
      FoldStep(nb, bs, c, i - c, i, count);
      FirstLinked(a, bs, i);
      FoldOne(oldArr[i], newArr, i - c, count, nb, a, bs, i);
      nb := nb[i - c := nb[i - c] + bs[i]];
      i := i + 1;
    }
    EndMoved(nb, bs, count);
  }

  lemma LowerHalf(a: seq<Node?>, bs: Buckets, c: nat)
    requires Linked(a, bs) && c <= |bs|
    ensures Linked(a[..c], bs[..c]) && LinkedFrom(a, bs, c)
  {
    forall i | 0 <= i < c ensures Seg(a[..c][i], bs[..c][i], null) { assert Seg(a[i], bs[i], null); }
  }

  /** Appends bucket `i` to bucket `k`, if there is anything to append. */
  method FoldOne(head: Node?, newArr: array<Node?>, k: nat, count: bv64, ghost nb: Buckets, ghost a: seq<Node?>,
      ghost bs: Buckets, ghost i: nat)
    requires k < newArr.Length == |nb| && i == k + newArr.Length < |bs| && |a| == |bs| && head == a[i] && nb[k] == bs[k]
    requires Linked(newArr[..], nb) && Moved(nb, bs, i, [], count) && LinkedFrom(a, bs, i) && Seg(head, bs[i], null)
    requires Items(nb[k]) !! Items(bs[i]) && AllPlaced(bs, count)
    modifies newArr, Nodes(bs)`next
    ensures Linked(newArr[..], nb[k := nb[k] + bs[i]]) && LinkedFrom(a, bs, i + 1)
  {
    LinkedNext(a, bs, i);
    if head != null {
      NodesPrefix(bs, i);
      BucketIn(nb, k);
      BucketIn(bs, k);
      assert Seg(newArr[k], nb[k], null) && Placed(nb[k], k, count, |nb|);
      forall j | i < j < |bs| ensures Items(bs[k]) !! Items(bs[j]) { BucketsApart(bs, count, k, j); }
      var slot := WalkToEnd(newArr[k], nb[k]);
      SetSlot(newArr, k, slot, head, nb, count, nb[k], null, bs[i], null);
      forall j | i < j < |bs| ensures Seg(a[j], bs[j], null) { assert old(Seg(a[j], bs[j], null)); }
    } else {
      assert bs[i] == [] && nb[k] + [] == nb[k] && nb[k := nb[k]] == nb;
    }
  }
}
