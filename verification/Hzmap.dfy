/** A hash map with keys of a fixed number of words. */
module Hzmap {
  import opened Bits
  import opened HzmapLinks
  import opened HzmapSlots
  import opened HzmapResize
  import opened Seqs

  const MINFILL_NUMER: nat := 1
  const MINFILL_DENOM: nat := 2
  const MAXFILL_NUMER: nat := 3
  const MAXFILL_DENOM: nat := 2

  /** The buckets hold no more than the maximal fill on the average, and one node over. */
  predicate Sparse(size: nat, cap: nat) {
    size * MAXFILL_DENOM <= cap * MAXFILL_NUMER + MAXFILL_DENOM
  }

  /** An array of chains and the buckets with exactly the nodes `all` that it stands for. */
  ghost predicate Stands(a: seq<Node?>, bs: Buckets, count: bv64, all: set<Node>)
    reads Nodes(bs)
  {
    Linked(a, bs) && AllPlaced(bs, count) && Nodes(bs) == all
  }

  /** The least power of two that is no less. */
  function Exp2Ceil(n: nat): (p: nat)
    ensures IsPow2(p) && p >= n && (n > 1 ==> p < 2 * n)
  {
    if n <= 1 then (assert 1 == Pow2(0); 1)
    else
      var h := Exp2Ceil((n + 1) / 2);
      var i: nat :| h == Pow2(i);
      assert 2 * h == Pow2(i + 1);
      2 * h
  }

  class Hzmap {
    /** The number of words in a key. */
    const count: bv64
    /** The exponent of the number of buckets. */
    var capExpt: nat
    var size: nat
    var arr: array<Node?>
    ghost var bs: Buckets

    /** The number of buckets. */
    function Cap(): (c: nat)
      reads `capExpt
      ensures c > 0 && IsPow2(c)
    {
      Pow2(capExpt)
    }

    ghost predicate Valid()
      reads this, arr, Nodes(bs)
    {
      && arr.Length == Cap() == |bs| && Cap() >= 4
      && Linked(arr[..], bs) && AllPlaced(bs, count) && size == Count(bs) && Sparse(size, Cap())
    }

    ghost function Content(): set<Node>
      reads this
    {
      Nodes(bs)
    }

    /** The node with a key, or null if there is none. */
    method Find(key: Key) returns (node: Node?)
      requires Valid()
      ensures node == null <==> forall n :: n in Content() ==> n.key != key
      ensures node != null ==> node in Content() && node.key == key
    {
      var index := IndexOf(key, count, Cap());
      node := FindIn(index, key);
    }

    method FindIn(index: nat, key: Key) returns (node: Node?)
      requires Valid() && index == IndexOf(key, count, Cap())
      ensures node == null <==> forall n :: n in Content() ==> n.key != key
      ensures node != null ==> node in Content() && node.key == key
    {
      hide IndexOf, IsPow2, AllPlaced, Count;
      node := arr[index];
      ghost var pre, rest := [], bs[index];
      assert pre + rest == bs[index];
      while node != null
        invariant Seg(node, rest, null) && bs[index] == pre + rest && forall n: Node :: n in pre ==> n.key != key
        decreases |rest|
      {
        if node.key == key {
          assert node in bs[index];
          return;
        }
        pre, rest := pre + [node], rest[1..];
        node := node.next;
      }
      assert rest == [] && bs[index] == pre;
      forall n | n in Content() ensures n.key != key { InItsBucket(bs, count, n); }
    }
  
    method Find1w(key: Key) returns (node: Node?)
      requires Valid() && |key| == 1 && count == 1
      ensures node == null <==> forall n :: n in Content() ==> n.key != key
      ensures node != null ==> node in Content() && node.key == key
    {
      hide Hash, Hash1, Hash2, Linked, AllPlaced, IsPow2, Pow2, Nodes, Count;
      SpecialHashes(key);
      var index := (Hash1(key[0]) as int) % (Cap());
      node := FindIn(index, key);
    }

    method Find2w(key: Key) returns (node: Node?)
      requires Valid() && |key| == 2 && count == 2
      ensures node == null <==> forall n :: n in Content() ==> n.key != key
      ensures node != null ==> node in Content() && node.key == key
    {
      hide Hash, Hash1, Hash2, Linked, AllPlaced, IsPow2, Pow2, Nodes, Count;
      SpecialHashes(key);
      var index := (Hash2(key[0], key[1]) as int) % (Cap());
      node := FindIn(index, key);
    }

    constructor (count: bv64)
      ensures Valid() && Content() == {} && this.count == count && fresh(arr) && size == 0 && Cap() == 4
    {
      this.count := count;
      capExpt := 2;
      size := 0;
      arr := new Node?[4](_ => null);
      bs := seq(4, _ => []);
      new;
      EmptyBuckets(4);
      assert 4 == Pow2(2);
    }

    /** Looks for a key, up to the link that holds its node or ends the bucket. */
    method Locate(index: nat, key: Key) returns (slot: Slot, found: Node?, ghost pre: seq<Node>, ghost rest: seq<Node>)
      requires Valid() && index == IndexOf(key, count, Cap())
      ensures Valid() && bs[index] == pre + rest && slot == SlotAfter(pre) && Seg(arr[index], pre, found)
      ensures Seg(found, rest, null)
      ensures found == null <==> rest == []
      ensures found == null ==> forall n :: n in Content() ==> n.key != key
      ensures found != null ==> rest[0] == found && found.key == key
    {
      hide IndexOf, IsPow2, AllPlaced, Count;
      slot := Head;
      found := arr[index];
      pre, rest := [], bs[index];
      while found != null
        invariant Valid() && bs[index] == pre + rest && slot == SlotAfter(pre) && Seg(arr[index], pre, found)
        invariant Seg(found, rest, null)
        invariant forall n: Node :: n in pre ==> n.key != key
        decreases |rest|
      {
        if found.key == key {
          return;
        }
        slot := NextOf(found);
        StepOver(arr[index], pre, found, rest);
        pre, rest := pre + [found], rest[1..];
        found := found.next;
      }
      forall n | n in Content() ensures n.key != key { InItsBucket(bs, count, n); }
    }
  
    method Expand(newCap: nat)
      requires Valid() && newCap > Cap() && IsPow2(newCap)
      modifies `arr, `capExpt, `bs, Content()`next
      ensures Valid() && Content() == old(Content()) && Cap() == newCap && fresh(arr)
    {
      hide IsPow2, IndexOf;
      hide Linked, AllPlaced;
      var newArr := new Node?[newCap](_ => null);
      ghost var nb := Rehash(arr, newArr, count, bs);
      SetArray(newArr, newCap, nb);
    }

    /** The same nodes in the buckets of another array. */
    method SetArray(newArr: array<Node?>, newCap: nat, ghost nb: Buckets)
      requires newArr.Length == newCap == |nb| && newCap >= 4 && IsPow2(newCap)
      requires Linked(newArr[..], nb) && AllPlaced(nb, count) && size == Count(nb) && Nodes(nb) == Nodes(bs)
      requires Sparse(size, newCap)
      modifies `arr, `capExpt, `bs
      ensures Valid() && Content() == old(Content()) && arr == newArr && Cap() == newCap
    {
      hide IsPow2, AllPlaced, Pow2;
      ExactLog2(newCap);
      assert forall n :: n in Nodes(nb) ==> n as object != this;
      arr := newArr;
      capExpt := CeilLog2(newCap);
      bs := nb;
    }

    /** Halves the number of buckets, unless that would leave too few. */
    method Shrink(newCap: nat)
      requires Valid() && 2 * newCap == Cap() && size * MINFILL_DENOM < Cap() * MINFILL_NUMER
      modifies `arr, `capExpt, `bs, Content()`next
      ensures Valid() && Content() == old(Content()) && (arr == old(arr) || fresh(arr))
      ensures Cap() == if newCap < 4 then old(Cap()) else newCap
    {
      if newCap < 4 {
        return;
      }
      HalfPow2(newCap);
      hide IsPow2, IndexOf;
      var newArr := LowerCopy(arr, newCap, bs, Nodes(bs));
      hide Linked, AllPlaced;
      ghost var nb := Fold(arr, newArr, count, bs);
      SetArray(newArr, newCap, nb);
    }

    /** The number of buckets for one more node. */
    function RoomyCap(): nat
      reads `size, `capExpt
    {
      if size * MAXFILL_DENOM > Cap() * MAXFILL_NUMER then 2 * Cap() else Cap()
    }

    /** Makes room for one more node. */
    method MakeRoom()
      requires Valid()
      modifies `arr, `capExpt, `bs, Content()`next
      ensures Valid() && Content() == old(Content()) && (arr == old(arr) || fresh(arr))
      ensures Sparse(size + 1, Cap()) && Cap() == old(RoomyCap())
    {
      hide Linked, AllPlaced, IsPow2, Pow2;
      if size * MAXFILL_DENOM > Cap() * MAXFILL_NUMER {
        DoublePow2(Cap());
        Expand(Cap() * 2);
      }
    }

    /** Makes room for a number of nodes at once. */
    method PrepareInsert(n: nat)
      requires Valid()
      modifies `arr, `capExpt, `bs, Content()`next
      ensures Valid() && Content() == old(Content()) && (arr == old(arr) || fresh(arr))
      ensures (old(size) + n) * MAXFILL_DENOM <= Cap() * MAXFILL_NUMER
      ensures var want := (old(size) + n) * MINFILL_DENOM / MINFILL_NUMER;
              if (old(size) + n) * MAXFILL_DENOM <= old(Cap()) * MAXFILL_NUMER then Cap() == old(Cap())
              else want <= Cap() < 2 * want
    {
      hide Linked, AllPlaced, IsPow2;
      var newSize := size + n;
      if newSize * MAXFILL_DENOM > Cap() * MAXFILL_NUMER {
        Expand(Exp2Ceil(newSize * MINFILL_DENOM / MINFILL_NUMER));
      }
    }

    /** Inserts a node unless its key is there already. The link of the node is left as it
        is, so that the map takes the node in just when it has none. */
    method InsertNode(node: Node) returns (inserted: bool)
      requires Valid()
      modifies this, arr, Content()`next
      ensures inserted <==> forall n :: n in old(Content()) ==> n.key != node.key
      ensures !inserted ==> Valid() && Content() == old(Content()) && size == old(size)
      ensures inserted && old(node.next) == null ==> Valid() && Content() == old(Content()) + {node}
      ensures inserted ==>
                (old(node.next) == null <==>
                   exists nb: Buckets :: Stands(arr[..], nb, count, old(Content()) + {node}))
      ensures inserted ==> size == old(size) + 1
      ensures Cap() == old(RoomyCap()) && (arr == old(arr) || fresh(arr))
    {
      hide IndexOf, Linked, AllPlaced, IsPow2, Nodes, Pow2;
      MakeRoom();
      var index := IndexOf(node.key, count, Cap());
      ghost var pre, rest;
      var slot, found;
      slot, found, pre, rest := Locate(index, node.key);
      if found != null {
        FoundIn(bs, index, pre, rest);
        return false;
      }
      assert pre + [] == pre;
      Attach(index, slot, node);
      return true;
    }

    /** The node with a key, which is made if there is none. */
    method Insert(key: Key) returns (inserted: bool, node: Node)
      requires Valid()
      modifies this, arr, Content()`next
      ensures Valid() && (inserted <==> forall n :: n in old(Content()) ==> n.key != key)
      ensures node.key == key && node in Content()
      ensures inserted ==> fresh(node) && Content() == old(Content()) + {node}
      ensures !inserted ==> Content() == old(Content())
      ensures size == old(size) + (if inserted then 1 else 0) && Cap() == old(RoomyCap())
      ensures arr == old(arr) || fresh(arr)
    {
      hide IndexOf, Linked, AllPlaced, IsPow2, Nodes, Pow2;
      MakeRoom();
      var index := IndexOf(key, count, Cap());
      ghost var pre, rest;
      var slot, found;
      slot, found, pre, rest := Locate(index, key);
      if found != null {
        FoundIn(bs, index, pre, rest);
        return false, found;
      }
      assert pre + [] == pre;
      ghost var before := Content();
      node := NewNode(key, before);
      Attach(index, slot, node);
      return true, node;
    }

    method NewNode(key: Key, ghost before: set<Node>) returns (node: Node)
      requires Valid() && before == Content()
      ensures fresh(node) && node.key == key && node.next == null && node !in before && Valid()
    {
      node := new Node(key);
    }

    /** Erases the node with a key and leaves the capacity as it is. The node keeps its link. */
    method StepErase(key: Key) returns (erased: bool)
      requires Valid()
      modifies this, arr, Content()`next
      ensures Valid() && arr == old(arr) && (erased <==> exists n :: n in old(Content()) && n.key == key)
      ensures capExpt == old(capExpt) && size == old(size) - if erased then 1 else 0
      ensures Content() == set n | n in old(Content()) && n.key != key
      ensures forall n :: n in old(Content()) && n.key == key ==> n.next == old(n.next)
    {
      hide IndexOf, Linked, AllPlaced, IsPow2;
      var index := IndexOf(key, count, Cap());
      ghost var pre, rest;
      var slot, found;
      slot, found, pre, rest := Locate(index, key);
      if found == null {
        return false;
      }
      FoundIn(bs, index, pre, rest);
      OnlyOne(bs, count, found);
      hide Nodes;
      assert bs[index] == pre + [found] + rest[1..];
      Detach(index, slot, found, pre, rest[1..]);
      return true;
    }

    method FinishErase()
      requires Valid()
      modifies `arr, `capExpt, `bs, Content()`next
      ensures Valid() && Content() == old(Content()) && (arr == old(arr) || fresh(arr))
      ensures Cap() == if size * MINFILL_DENOM < old(Cap()) * MINFILL_NUMER && old(Cap()) >= 8 then old(Cap()) / 2
                       else old(Cap())
    {
      hide Linked, AllPlaced;
      if size * MINFILL_DENOM < Cap() * MINFILL_NUMER {
        EvenPow2(Cap());
        Shrink(Cap() / 2);
      }
    }

    method Erase(key: Key) returns (erased: bool)
      requires Valid()
      modifies this, arr, Content()`next
      ensures Valid() && (arr == old(arr) || fresh(arr))
      ensures erased <==> exists n :: n in old(Content()) && n.key == key
      ensures Content() == set n | n in old(Content()) && n.key != key
      ensures size == old(size) - if erased then 1 else 0
      ensures Cap() == if erased && size * MINFILL_DENOM < old(Cap()) * MINFILL_NUMER && old(Cap()) >= 8
                       then old(Cap()) / 2 else old(Cap())
      ensures forall n :: n in old(Content()) && n.key == key ==> n.next == old(n.next)
    {
      hide Linked, AllPlaced, IsPow2, Pow2;
      erased := StepErase(key);
      if erased {
        assert forall n :: n in old(Content()) && n.key == key ==> n !in Content();
        FinishErase();
      }
    }

    /** Keeps the nodes that `f` accepts. */
    method Filter(f: Node -> bool)
      requires Valid()
      modifies this, arr, Content()`next
      ensures Valid() && (arr == old(arr) || fresh(arr))
      ensures Content() == set n | n in old(Content()) && f(n)
      ensures Cap() == if size * MINFILL_DENOM < old(Cap()) * MINFILL_NUMER && old(Cap()) >= 8 then old(Cap()) / 2
                       else old(Cap())
    {
      hide Linked, AllPlaced, IsPow2, IndexOf;
      ghost var before := Content();
      var i := 0;
      while i < arr.Length
        invariant 0 <= i <= arr.Length && Valid() && arr == old(arr) && capExpt == old(capExpt) && Content() <= before
        invariant forall n :: n in before && f(n) ==> n in Content()
        invariant forall j, n :: 0 <= j < i && n in bs[j] ==> f(n)
      {
        FilterBucket(i, f);
        i := i + 1;
      }
      assert forall n :: n in Content() ==> f(n);
      hide Nodes;
      FinishErase();
    }

    method FilterBucket(i: nat, f: Node -> bool)
      requires Valid() && i < |bs|
      modifies `size, `bs, arr, Content()`next
      ensures Valid() && Content() <= old(Content()) && |bs| == old(|bs|) && capExpt == old(capExpt)
      ensures forall n :: n in old(Content()) && f(n) ==> n in Content()
      ensures forall j :: 0 <= j < |bs| && j != i ==> bs[j] == old(bs[j])
      ensures forall n :: n in bs[i] ==> f(n)
    {
      hide Linked, AllPlaced, IsPow2, IndexOf, Nodes, Seg;
      var slot := Head;
      var node := arr[i];
      ghost var pre: seq<Node>, rest := [], bs[i];
      ghost var before := Content();
      assert pre + rest == bs[i];
      NextIs(arr[..], bs, i, pre, rest);
      while node != null
        invariant Valid() && |bs| == old(|bs|) && bs[i] == pre + rest && slot == SlotAfter(pre)
        invariant capExpt == old(capExpt)
        invariant node == if rest == [] then null else rest[0]
        invariant Content() <= before && forall n :: n in before && f(n) ==> n in Content()
        invariant forall j :: 0 <= j < |bs| && j != i ==> bs[j] == old(bs[j])
        invariant forall n :: n in pre ==> f(n)
        decreases |rest|
      {
        assert rest == [node] + rest[1..] && bs[i] == pre + [node] + rest[1..];
        FoundIn(bs, i, pre, rest);
        FollowedBy(arr[..], bs, i, pre, node, rest[1..]);
        if f(node) {
          slot := NextOf(node);
          pre := pre + [node];
        } else {
          Detach(i, slot, node, pre, rest[1..]);
        }
        node := node.next;
        rest := rest[1..];
      }
      assert pre + [] == pre;
    }

    /** A new node at the end of its bucket, with whatever its link leads to. */
    method Place(index: nat, slot: Slot, node: Node)
      requires Valid() && index == IndexOf(node.key, count, Cap()) && slot == SlotAfter(bs[index])
      requires node !in Content() && forall n :: n in Content() ==> n.key != node.key
      modifies arr, Content()`next
      ensures Seg(arr[index], bs[index] + [node], node.next) && node.next == old(node.next)
      ensures node.next == null ==> Linked(arr[..], bs[index := bs[index] + [node]])
    {
      AppendedBucket(bs, count, index, node);
      SegsOf(arr[..], bs, index, node);
      hide IsPow2, IndexOf, AllPlaced, Placed, Pow2, Count, Nodes, Linked, Seg;
      SetSlot(arr, index, slot, node, bs, count, bs[index], null, [node], node.next);
    }

    method Attach(index: nat, slot: Slot, node: Node)
      requires Valid() && index == IndexOf(node.key, count, Cap()) && slot == SlotAfter(bs[index])
      requires node !in Content() && Sparse(size + 1, Cap())
      requires forall n :: n in Content() ==> n.key != node.key
      modifies `size, `bs, arr, Content()`next
      ensures node.next == old(node.next) && (node.next == null ==> Valid() && Content() == old(Content()) + {node})
      ensures (exists nb: Buckets :: Stands(arr[..], nb, count, old(Content()) + {node})) <==> node.next == null
      ensures size == old(size) + 1
    {
      AppendedBucket(bs, count, index, node);
      hide IsPow2, IndexOf, AllPlaced, Placed, Pow2, Count, Nodes, Stands, Linked, Seg;
      Place(index, slot, node);
      if node.next == null {
        SetBuckets(bs[index := bs[index] + [node]], size + 1);
        StandsSo(arr[..], bs, count);
      } else {
        CountStray(index, node, bs[index] + [node]);
        Strays(arr, bs, count, index, node);
      }
    }

    method CountStray(ghost index: nat, ghost node: Node, ghost b: seq<Node>)
      requires index < arr.Length && Seg(arr[index], b, node.next)
      modifies `size
      ensures size == old(size) + 1 && Seg(arr[index], b, node.next)
    {
      assert forall n :: n in Items(b) ==> n as object != this;
      size := size + 1;
    }

    /** Takes the node after the slot off its bucket. */
    method Detach(index: nat, slot: Slot, found: Node, ghost pre: seq<Node>, ghost rest: seq<Node>)
      requires Valid() && index < |bs| && bs[index] == pre + [found] + rest && slot == SlotAfter(pre)
      modifies `size, `bs, arr, Content()`next
      ensures Valid() && Content() == old(Content()) - {found} && size == old(size) - 1 && found in old(Content())
      ensures bs == old(bs)[index := pre + rest] && arr == old(arr) && capExpt == old(capExpt)
      ensures found.next == old(found.next)
    {
      DroppedBucket(bs, count, index, pre, found, rest);
      hide IsPow2, IndexOf, AllPlaced, Placed, Count, Linked, Seg, Items, Nodes;
      LinkOf(arr[..], bs, index, pre, found, rest);
      ghost var nb := bs[index := pre + rest];
      SetSlot(arr, index, slot, found.next, bs, count, pre, found, rest, null);
      SetBuckets(nb, size - 1);
    }

    method SetBuckets(ghost nb: Buckets, newSize: nat)
      requires Linked(arr[..], nb) && AllPlaced(nb, count) && newSize == Count(nb) && |nb| == Cap() >= 4
      requires Sparse(newSize, Cap())
      modifies `size, `bs
      ensures Valid() && bs == nb && size == newSize
    {
      hide IsPow2, AllPlaced;
      assert forall n :: n in Nodes(nb) ==> n as object != this;
      size := newSize;
      bs := nb;
    }
  }

  method LowerCopy(oldArr: array<Node?>, newCap: nat, ghost bs: Buckets, ghost nodes: set<Node>)
      returns (newArr: array<Node?>)
    requires 0 < newCap <= oldArr.Length && Linked(oldArr[..], bs) && nodes == Nodes(bs)
    ensures fresh(newArr) && newArr.Length == newCap && newArr[..] == oldArr[..newCap] && Linked(oldArr[..], bs)
  {
    newArr := new Node?[newCap](_ => null);
    forall i | 0 <= i < newCap { newArr[i] := oldArr[i]; }
  }

  /** The link of a node that is followed by `rest`. */
  lemma LinkOf(a: seq<Node?>, bs: Buckets, i: nat, pre: seq<Node>, found: Node, rest: seq<Node>)
    requires Linked(a, bs) && i < |bs| && bs[i] == pre + [found] + rest
    ensures Seg(a[i], pre, found) && Seg(found.next, rest, null)
  {
    assert Seg(a[i], bs[i], null) && bs[i] == pre + ([found] + rest);
    var m := SegSplit(a[i], pre, [found] + rest, null);
    assert ([found] + rest)[1..] == rest;
  }

  lemma DoublePow2(c: nat)
    requires IsPow2(c)
    ensures IsPow2(c * 2)
  {
    var i: nat :| c == Pow2(i);
    assert c * 2 == Pow2(i + 1);
  }

  lemma EvenPow2(c: nat)
    requires IsPow2(c) && c > 1
    ensures c == 2 * (c / 2)
  {
    Halve(c);
  }

  lemma FoundIn(bs: Buckets, i: nat, pre: seq<Node>, rest: seq<Node>)
    requires i < |bs| && bs[i] == pre + rest && rest != []
    ensures rest[0] in Nodes(bs)
  {
    assert bs[i][|pre|] == rest[0] && rest[0] in bs[i];
  }

  lemma OnlyOne(bs: Buckets, count: bv64, found: Node)
    requires AllPlaced(bs, count) && found in Nodes(bs)
    ensures Nodes(bs) - {found} == set n | n in Nodes(bs) && n.key != found.key
    ensures forall n :: n in Nodes(bs) && n.key == found.key ==> n == found
  {
    PlacedUnique(bs, count);
  }

  lemma NextIs(a: seq<Node?>, bs: Buckets, i: nat, pre: seq<Node>, rest: seq<Node>)
    requires Linked(a, bs) && i < |bs| && pre == [] && rest == bs[i]
    ensures a[i] == if rest == [] then null else rest[0]
  {
    assert Seg(a[i], bs[i], null);
  }

  lemma FollowedBy(a: seq<Node?>, bs: Buckets, i: nat, pre: seq<Node>, node: Node, rest: seq<Node>)
    requires Linked(a, bs) && i < |bs| && bs[i] == pre + [node] + rest
    ensures node.next == if rest == [] then null else rest[0]
  {
    LinkOf(a, bs, i, pre, node, rest);
  }

  lemma HalfPow2(c: nat)
    requires IsPow2(2 * c)
    ensures c > 1 ==> IsPow2(c)
  {
    Halve(2 * c);
  }

  lemma StepOver(head: Node?, pre: seq<Node>, node: Node, rest: seq<Node>)
    requires Seg(head, pre, node) && rest != [] && rest[0] == node
    ensures Seg(head, pre + [node], node.next)
  {
    assert [node][1..] == [];
    SegAppend(head, pre, node, [node], node.next);
  }

  /** If the array stands for the nodes with `node` added, the chain ends with it: the
      bucket has no other key, and no node of another bucket belongs to it. */
  lemma EndsThere(a: seq<Node?>, bs: Buckets, other: Buckets, count: bv64, i: nat, node: Node)
    requires AllPlaced(bs, count) && i < |bs| == |a| && i == IndexOf(node.key, count, |bs|)
    requires Seg(a[i], bs[i] + [node], node.next) && Stands(a, other, count, Nodes(bs) + {node})
    ensures node.next == null
  {
    hide IndexOf;
    assert Seg(a[i], other[i], null) && Placed(other[i], i, count, |bs|);
    var rest := SegFrom(a[i], bs[i] + [node], node.next, other[i]);
    if rest != [] {
      var n, k := rest[0], |bs[i]| + 1;
      assert other[i][k] == n && n in other[i] && other[i][k - 1] == node;
      FoundIn(other, i, bs[i] + [node], rest);
      InItsBucket(bs, count, n);
      assert forall j :: 0 <= j < |bs[i]| ==> other[i][j] == bs[i][j];
      assert false;
    }
  }

  lemma SegsOf(a: seq<Node?>, bs: Buckets, i: nat, node: Node)
    requires Linked(a, bs) && i < |bs|
    ensures Seg(a[i], bs[i], null) && Seg(node, [node], node.next)
  {
    assert [node][1..] == [];
  }

  lemma Strays(arr: array<Node?>, bs: Buckets, count: bv64, i: nat, node: Node)
    requires AllPlaced(bs, count) && i < |bs| == arr.Length && i == IndexOf(node.key, count, |bs|)
    requires Seg(arr[i], bs[i] + [node], node.next) && node.next != null
    ensures forall other: Buckets :: !Stands(arr[..], other, count, Nodes(bs) + {node})
  {
    forall other: Buckets ensures !Stands(arr[..], other, count, Nodes(bs) + {node}) {
      if Stands(arr[..], other, count, Nodes(bs) + {node}) { EndsThere(arr[..], bs, other, count, i, node); }
    }
  }

  lemma StandsSo(a: seq<Node?>, bs: Buckets, count: bv64)
    requires Linked(a, bs) && AllPlaced(bs, count)
    ensures Stands(a, bs, count, Nodes(bs))
  {}

  lemma AppendedBucket(bs: Buckets, count: bv64, i: nat, node: Node)
    requires AllPlaced(bs, count) && i < |bs| && i == IndexOf(node.key, count, |bs|)
    requires forall n :: n in Nodes(bs) ==> n.key != node.key
    ensures var nb := bs[i := bs[i] + [node]];
            AllPlaced(nb, count) && Nodes(nb) == Nodes(bs) + {node} && Count(nb) == Count(bs) + 1
    ensures node !in Items(bs[i]) && Items(bs[i]) <= Nodes(bs) && Items([node]) == {node}
    ensures Placed(bs[i], i, count, |bs|)
  {
    hide IndexOf;
    var b := bs[i] + [node];
    BucketIn(bs, i);
    CountUpdate(bs, i, b);
    NodesUpdate(bs, count, i, b);
    assert Placed(bs[i], i, count, |bs|);
    assert Items(b) == Items(bs[i]) + {node};
    assert forall j :: 0 <= j < |bs[i]| ==> bs[i][j] in Items(bs[i]);
    assert Placed(b, i, count, |bs|);
    BucketReplaced(bs, count, i, b);
  }

  lemma BucketReplaced(bs: Buckets, count: bv64, i: nat, b: seq<Node>)
    requires AllPlaced(bs, count) && i < |bs| && Placed(b, i, count, |bs|)
    ensures AllPlaced(bs[i := b], count)
  {
    hide Placed;
    var nb := bs[i := b];
    forall j | 0 <= j < |nb| ensures Placed(nb[j], j, count, |nb|) { assert j == i || Placed(bs[j], j, count, |bs|); }
  }

  lemma DroppedBucket(bs: Buckets, count: bv64, i: nat, pre: seq<Node>, node: Node, rest: seq<Node>)
    requires AllPlaced(bs, count) && i < |bs| && bs[i] == pre + [node] + rest
    ensures var nb := bs[i := pre + rest];
            AllPlaced(nb, count) && Nodes(nb) == Nodes(bs) - {node} && Count(nb) == Count(bs) - 1
    ensures node in Nodes(bs) && node !in Items(pre) && node !in Items(rest) && Items(pre) !! Items(rest)
    ensures Items(pre) <= Items(bs[i]) && Items(bs[i]) <= Nodes(bs)
    ensures forall j, k :: 0 <= j < k < |pre| ==> pre[j].key != pre[k].key
  {
    hide IndexOf;
    assert Placed(bs[i], i, count, |bs|);
    PlacedPart(pre + [node], rest, i, count, |bs|);
    PlacedPart(pre, [node], i, count, |bs|);
    BucketIn(bs, i);
    PlacedWithout(pre, node, rest, i, count, |bs|);
    BucketReplaced(bs, count, i, pre + rest);
    CountUpdate(bs, i, pre + rest);
    NodesUpdate(bs, count, i, pre + rest);
    assert Items([node]) == {node};
    assert Items(pre + rest) == Items(pre) + Items(rest);
  }

  lemma PlacedWithout(pre: seq<Node>, node: Node, rest: seq<Node>, i: nat, count: bv64, cap: nat)
    requires cap > 0 && Placed(pre + [node] + rest, i, count, cap)
    ensures Placed(pre + rest, i, count, cap)
  {
    hide IndexOf;
    var b, c := pre + [node] + rest, pre + rest;
    forall j | 0 <= j < |c| ensures c[j] == b[if j < |pre| then j else j + 1] {}
    forall j, k | 0 <= j < k < |c| ensures c[j].key != c[k].key {
      assert c[j] == b[if j < |pre| then j else j + 1] && c[k] == b[if k < |pre| then k else k + 1];
    }
    forall n | n in c ensures IndexOf(n.key, count, cap) == i {
      var j :| 0 <= j < |c| && c[j] == n;
      assert b[if j < |pre| then j else j + 1] in b;
    }
  }

  // ------------------------------------------------------------- an erased node

  lemma {:induction false} FewNodes(bs: Buckets)
    requires forall i :: 0 <= i < |bs| ==> |bs[i]| <= 1
    ensures Count(bs) <= |bs|
  {
    if bs != [] { FewNodes(bs[1..]); }
  }

  lemma Alone(a: seq<Node?>, bs: Buckets, i: nat)
    requires Linked(a, bs) && i < |bs| && (a[i] != null ==> a[i].next == null)
    ensures |bs[i]| <= 1
  {
    assert Seg(a[i], bs[i], null);
    if bs[i] != [] {
      var rest := bs[i][1..];
      assert Seg(bs[i][0].next, rest, null);
      assert rest == [] || rest[0] == bs[i][0].next;
    }
  }

  /** With more nodes than buckets, some node is followed by another. */
  method FollowedNode(map_: Hzmap) returns (node: Node)
    requires map_.Valid() && map_.size > map_.Cap()
    ensures node in map_.Content() && node.next != null && map_.Valid()
  {
    hide AllPlaced, Pow2, Count, Linked;
    var i := 0;
    while map_.arr[i] == null || map_.arr[i].next == null
      invariant map_.Valid() && i < map_.arr.Length && forall j :: 0 <= j < i ==> |map_.bs[j]| <= 1
      decreases map_.arr.Length - i
    {
      Alone(map_.arr[..], map_.bs, i);
      i := i + 1;
      if i == map_.arr.Length {
        FewNodes(map_.bs);
        assert false;
      }
    }
    node := map_.arr[i];
    NextIs(map_.arr[..], map_.bs, i, [], map_.bs[i]);
    assert node in map_.bs[i];
  }

  method FiveNodes() returns (map_: Hzmap)
    ensures map_.Valid() && map_.size == 5 && map_.Cap() == 4 && fresh(map_) && fresh(map_.arr) && fresh(map_.Content())
  {
    hide Linked, AllPlaced, Nodes, IsPow2;
    map_ := new Hzmap(1);
    var keys: seq<Key> := [[0], [1], [2], [3], [4]];
    var i := 0;
    while i < 5
      invariant 0 <= i <= 5 && map_.Valid() && map_.size == i && map_.Cap() == 4
      invariant fresh(map_) && fresh(map_.arr) && fresh(map_.Content())
      invariant forall n :: n in map_.Content() ==> n.key in keys[..i]
    {
      assert keys[i] !in keys[..i];
      assert keys[..i + 1] == keys[..i] + [keys[i]];
      var inserted, node := map_.Insert(keys[i]);
      i := i + 1;
    }
  }

  /** Erases a node that is followed by another. */
  method ErasedWithLink() returns (map_: Hzmap, node: Node)
    ensures map_.Valid() && node.next != null && forall n :: n in map_.Content() ==> n.key != node.key
    ensures fresh(map_) && fresh(map_.arr) && fresh(map_.Content())
  {
    hide Linked, AllPlaced, Nodes, IsPow2, Pow2;
    map_ := FiveNodes();
    node := FollowedNode(map_);
    var erased := map_.Erase(node.key);
  }

  /** An erased node that is inserted again is not taken in. */
  method InsertErased() returns (map_: Hzmap, node: Node, inserted: bool, ghost before: set<Node>)
    ensures inserted && node !in before
    ensures !exists nb: Buckets :: Stands(map_.arr[..], nb, map_.count, before + {node})
  {
    hide Linked, AllPlaced, Nodes, IsPow2, Pow2, Stands;
    map_, node := ErasedWithLink();
    before := map_.Content();
    inserted := map_.InsertNode(node);
  }

  // ------------------------------------------------------------------- iterating

  function Flat(bs: Buckets): seq<Node> {
    if bs == [] then [] else bs[0] + Flat(bs[1..])
  }

  /** The buckets one after the other hold each node once. */
  lemma {:induction false} FlatNodes(bs: Buckets)
    requires (forall i :: 0 <= i < |bs| ==> Once(bs[i]))
    requires forall i, j :: 0 <= i < j < |bs| ==> Items(bs[i]) !! Items(bs[j])
    ensures Items(Flat(bs)) == Nodes(bs) && Once(Flat(bs)) && |Flat(bs)| == Count(bs)
  {
    if bs != [] {
      var rest := bs[1..];
      forall i | 0 <= i < |rest| ensures Once(rest[i]) { assert rest[i] == bs[i + 1]; }
      forall i, j | 0 <= i < j < |rest| ensures Items(rest[i]) !! Items(rest[j]) {
        assert rest[i] == bs[i + 1] && rest[j] == bs[j + 1];
      }
      FlatNodes(rest);
      HeadNodes(bs);
      OnceAppend(bs[0], Flat(rest));
    }
  }

  ghost predicate Once(b: seq<Node>) {
    forall j, k :: 0 <= j < k < |b| ==> b[j] != b[k]
  }

  lemma OnceAppend(a: seq<Node>, b: seq<Node>)
    requires Once(a) && Once(b) && Items(a) !! Items(b)
    ensures Once(a + b) && Items(a + b) == Items(a) + Items(b)
  {
    forall j, k | 0 <= j < k < |a + b| ensures (a + b)[j] != (a + b)[k] {
      if j < |a| <= k { assert a[j] in Items(a) && b[k - |a|] in Items(b); }
    }
    forall n | n in b ensures n in a + b {
      var k :| 0 <= k < |b| && b[k] == n;
      assert (a + b)[|a| + k] == n;
    }
  }

  lemma HeadNodes(bs: Buckets)
    requires bs != [] && forall i, j :: 0 <= i < j < |bs| ==> Items(bs[i]) !! Items(bs[j])
    ensures Nodes(bs) == Items(bs[0]) + Nodes(bs[1..]) && Items(bs[0]) !! Nodes(bs[1..])
  {
    forall n | n in Nodes(bs) ensures n in Items(bs[0]) + Nodes(bs[1..]) {
      var i :| 0 <= i < |bs| && n in bs[i];
      if i > 0 { assert n in bs[1..][i - 1]; }
    }
    forall n | n in Nodes(bs[1..]) ensures n in Nodes(bs) && n !in Items(bs[0]) {
      var i :| 0 <= i < |bs[1..]| && n in bs[1..][i];
      assert n in Items(bs[i + 1]);
    }
  }

  /** The iterator goes through each node of the map once. */
  lemma IteratesAll(map_: Hzmap)
    requires map_.Valid()
    ensures Items(Flat(map_.bs)) == map_.Content() && Once(Flat(map_.bs)) && |Flat(map_.bs)| == map_.size
  {
    var bs := map_.bs;
    forall i | 0 <= i < |bs| ensures Once(bs[i]) { assert Placed(bs[i], i, map_.count, |bs|); }
    forall i, j | 0 <= i < j < |bs| ensures Items(bs[i]) !! Items(bs[j]) { BucketsApart(bs, map_.count, i, j); }
    FlatNodes(bs);
  }

  class Itr {
    const of: Hzmap
    var arrCur: nat
    var node: Node?
    ghost var chain: seq<Node>

    ghost predicate Valid()
      reads this, of, of.arr, Nodes(of.bs), Items(chain)
    {
      of.Valid() && arrCur <= of.arr.Length && Seg(node, chain, null)
    }

    /** What the calls to `Get` are still to return. */
    ghost function Remaining(): seq<Node>
      reads this, of
    {
      if arrCur <= |of.bs| then chain + Flat(of.bs[arrCur..]) else chain
    }

    constructor (of: Hzmap)
      requires of.Valid()
      ensures Valid() && Remaining() == Flat(of.bs) && this.of == of
    {
      hide AllPlaced, Count, IsPow2, Flat;
      this.of := of;
      arrCur, node, chain := 0, null, [];
      assert of.bs[0..] == of.bs && [] + Flat(of.bs) == Flat(of.bs);
      new;
      assert forall n :: n in Nodes(of.bs) ==> n as object != this;
      assert Linked(of.arr[..], of.bs);
    }

    method Get() returns (r: Node?)
      requires Valid()
      modifies this
      ensures Valid() && (r == null <==> old(Remaining()) == [])
      ensures r != null ==> r == old(Remaining())[0] && Remaining() == old(Remaining())[1..]
    {
      hide AllPlaced, Count, IsPow2, Flat;
      r := node;
      var cur := arrCur;
      ghost var ch, all := chain, Remaining();
      while r == null
        invariant cur <= of.arr.Length && Seg(r, ch, null) && ch + Flat(of.bs[cur..]) == all && Valid()
        decreases of.arr.Length - cur
      {
        NextBucket(of.bs, cur);
        if cur == of.arr.Length {
          assert ch == [] && ch + Flat(of.bs[cur..]) == [];
          SetItr(cur, null, []);
          return null;
        }
        r := of.arr[cur];
        ch := of.bs[cur];
        cur := cur + 1;
      }
      assert ch == [r] + ch[1..] && all == [r] + (ch[1..] + Flat(of.bs[cur..]));
      SetItr(cur, r.next, ch[1..]);
    }

    method SetItr(cur: nat, next: Node?, ghost rest: seq<Node>)
      requires of.Valid() && cur <= of.arr.Length && Seg(next, rest, null)
      modifies this
      ensures Valid() && arrCur == cur && node == next && chain == rest && of.bs == old(of.bs)
    {
      hide AllPlaced, Count, IsPow2;
      assert forall n :: n in Nodes(of.bs) + Items(rest) ==> n as object != this;
      arrCur, node, chain := cur, next, rest;
      assert Linked(of.arr[..], of.bs);
    }
  }

  lemma NextBucket(bs: Buckets, i: nat)
    requires i <= |bs|
    ensures i == |bs| ==> Flat(bs[i..]) == []
    ensures i < |bs| ==> Flat(bs[i..]) == bs[i] + Flat(bs[i + 1..])
  {
    if i < |bs| { assert bs[i..][1..] == bs[i + 1..]; }
  }
}
