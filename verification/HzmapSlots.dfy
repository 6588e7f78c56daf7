/** The links through which the nodes of a bucket are reached. */
module HzmapSlots {
  import opened HzmapLinks
  import opened Seqs

  /** The place of a link: the head of the bucket or the next of a node. */
  datatype Slot = Head | NextOf(node: Node)

  function SlotAfter(pre: seq<Node>): Slot {
    if pre == [] then Head else NextOf(pre[|pre| - 1])
  }

  lemma PlacedPart(a: seq<Node>, b: seq<Node>, i: nat, count: bv64, cap: nat)
    requires cap > 0 && Placed(a + b, i, count, cap)
    ensures Placed(a, i, count, cap) && Placed(b, i, count, cap) && Items(a) !! Items(b)
    ensures Items(a + b) == Items(a) + Items(b)
  {
    var c := a + b;
    forall n | n in a ensures n in c && n !in b {
      var j :| 0 <= j < |a| && a[j] == n;
      assert c[j] == n;
      forall k | 0 <= k < |b| ensures b[k] != n { assert c[|a| + k] == b[k]; }
    }
    forall n | n in b ensures n in c {
      var k :| 0 <= k < |b| && b[k] == n;
      assert c[|a| + k] == n;
    }
    forall j, k | 0 <= j < k < |a| ensures a[j].key != a[k].key { assert c[j] == a[j] && c[k] == a[k]; }
    forall j, k | 0 <= j < k < |b| ensures b[j].key != b[k].key { assert c[|a| + j] == b[j] && c[|a| + k] == b[k]; }
  }

  lemma NotBefore(pre: seq<Node>, f: seq<Node>, last: Node)
    requires pre == f + [last] && forall j, k :: 0 <= j < k < |pre| ==> pre[j].key != pre[k].key
    ensures last !in Items(f) && last in Items(pre)
  {
    assert pre[|f|] == last;
    forall j | 0 <= j < |f| ensures f[j] != last { assert pre[j] == f[j]; }
  }

  /** Turns the end of a chain to another node. */
  method Relink(last: Node, x: Node?, ghost head: Node?, ghost pre: seq<Node>, ghost mid: Node?, ghost rest: seq<Node>,
      ghost end: Node?)
    requires pre != [] && last == pre[|pre| - 1] && Seg(head, pre, mid) && Seg(x, rest, end)
    requires (forall j, k :: 0 <= j < k < |pre| ==> pre[j].key != pre[k].key) && Items(pre) !! Items(rest)
    modifies last`next
    ensures Seg(head, pre, x) && Seg(x, rest, end)
  {
    ghost var f, l := pre[..|pre| - 1], [last];
    assert pre == f + l;
    ghost var m := SegSplit(head, f, l, mid);
    NotBefore(pre, f, last);
    assert Seg(m, l, mid) ==> m == l[0];
    last.next := x;
    assert Seg(last, l, x) by { assert l[1..] == []; }
    SegAppend(head, f, last, l, x);
  }

  /** `*p = x`: bucket `i` holds what comes before the slot, and then `rest` up to `end`. */
  method SetSlot(arr: array<Node?>, i: nat, slot: Slot, x: Node?, ghost bs: Buckets, ghost count: bv64,
      ghost pre: seq<Node>, ghost mid: Node?, ghost rest: seq<Node>, ghost end: Node?)
    requires i < arr.Length && Linked(arr[..], bs) && AllPlaced(bs, count) && Items(pre) <= Items(bs[i])
    requires (forall j, k :: 0 <= j < k < |pre| ==> pre[j].key != pre[k].key) && Items(pre) !! Items(rest)
    requires Seg(arr[i], pre, mid) && Seg(x, rest, end) && slot == SlotAfter(pre)
    modifies arr, Items(pre)`next
    ensures Seg(arr[i], pre + rest, end) && (end == null ==> Linked(arr[..], bs[i := pre + rest]))
  {
    hide IndexOf, Placed, AllPlaced;
    ghost var a := arr[..];
    match slot {
      case Head =>
        arr[i] := x;
        assert pre + rest == rest;
      case NextOf(last) =>
        assert last in Items(pre);
        Relink(last, x, arr[i], pre, mid, rest, end);
        SegAppend(arr[i], pre, x, rest, end);
    }
    forall j | 0 <= j < arr.Length ensures Seg(arr[j], bs[i := pre + rest][j], if j == i then end else null) {
      if j != i {
        BucketsApart(bs, count, i, j);
        assert old(Seg(a[j], bs[j], null));
      }
    }
  }
}
