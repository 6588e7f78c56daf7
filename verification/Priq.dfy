/** A priority queue as a heap in an array. */
module Priq {
  /** Priority as a total preorder, in its strict or in its reflexive form; lower ranks
      are prior. */
  predicate IsPrior<T>(rank: T -> int, strict: bool, x: T, y: T) {
    if strict then rank(x) < rank(y) else rank(x) <= rank(y)
  }

  ghost predicate InOrder<T>(s: seq<T>, rank: T -> int, j: nat)
    requires 0 < j < |s|
  {
    rank(s[(j - 1) / 2]) <= rank(s[j])
  }

  ghost predicate Heap<T>(s: seq<T>, rank: T -> int) {
    forall j :: 0 < j < |s| ==> InOrder(s, rank, j)
  }

  /** The children of `k` are not prior to its parent. */
  ghost predicate Bridged<T>(s: seq<T>, rank: T -> int, k: nat) {
    0 < k < |s| ==> forall j :: 0 < j < |s| && (j - 1) / 2 == k ==> rank(s[(k - 1) / 2]) <= rank(s[j])
  }

  /** Only `k` may be prior to its parent. */
  ghost predicate UpHeap<T>(s: seq<T>, rank: T -> int, k: nat) {
    Bridged(s, rank, k) && forall j :: 0 < j < |s| && j != k ==> InOrder(s, rank, j)
  }

  /** Only children of `k` may be prior to it. */
  ghost predicate DownHeap<T>(s: seq<T>, rank: T -> int, k: nat) {
    Bridged(s, rank, k) && forall j :: 0 < j < |s| && (j - 1) / 2 != k ==> InOrder(s, rank, j)
  }

  function Swapped<T>(s: seq<T>, i: nat, j: nat): (r: seq<T>)
    requires i < |s| && j < |s|
    ensures |r| == |s| && multiset(r) == multiset(s)
  {
    s[i := s[j]][j := s[i]]
  }

  lemma UpStep<T>(s: seq<T>, rank: T -> int, k: nat)
    requires 0 < k < |s| && UpHeap(s, rank, k) && rank(s[k]) <= rank(s[(k - 1) / 2])
    ensures UpHeap(Swapped(s, (k - 1) / 2, k), rank, (k - 1) / 2)
  {
    var m := (k - 1) / 2;
    var r := Swapped(s, m, k);
    forall j | 0 < j < |r| && j != m ensures InOrder(r, rank, j) {
      if j != k { assert InOrder(s, rank, j); }
    }
    if m > 0 {
      assert InOrder(s, rank, m);
      forall j | 0 < j < |r| && (j - 1) / 2 == m ensures rank(r[(m - 1) / 2]) <= rank(r[j]) {
        if j != k { assert InOrder(s, rank, j); }
      }
    }
  }

  lemma UpDone<T>(s: seq<T>, rank: T -> int, k: nat)
    requires k < |s| && UpHeap(s, rank, k) && (k == 0 || rank(s[(k - 1) / 2]) <= rank(s[k]))
    ensures Heap(s, rank)
  {}

  lemma Appended<T>(s: seq<T>, rank: T -> int, x: T)
    requires Heap(s, rank)
    ensures UpHeap(s + [x], rank, |s|)
  {
    var r := s + [x];
    forall j | 0 < j < |r| && j != |s| ensures InOrder(r, rank, j) { assert InOrder(s, rank, j); }
  }

  lemma DownStep<T>(s: seq<T>, rank: T -> int, k: nat, d: nat)
    requires k < |s| && 0 < d < |s| && (d - 1) / 2 == k && DownHeap(s, rank, k) && rank(s[d]) <= rank(s[k])
    requires forall j :: 0 < j < |s| && (j - 1) / 2 == k ==> rank(s[d]) <= rank(s[j])
    ensures DownHeap(Swapped(s, k, d), rank, d)
  {
    var r := Swapped(s, k, d);
    forall j | 0 < j < |r| && (j - 1) / 2 != d ensures InOrder(r, rank, j) {
      if (j - 1) / 2 != k && j != k { assert InOrder(s, rank, j); }
    }
    forall j | 0 < j < |r| && (j - 1) / 2 == d ensures rank(r[(d - 1) / 2]) <= rank(r[j]) {
      assert InOrder(s, rank, j);
    }
  }

  lemma DownDone<T>(s: seq<T>, rank: T -> int, k: nat)
    requires DownHeap(s, rank, k) && k < |s|
    requires forall j :: 0 < j < |s| && (j - 1) / 2 == k ==> rank(s[k]) <= rank(s[j])
    ensures Heap(s, rank)
  {
    forall j | 0 < j < |s| ensures InOrder(s, rank, j) {
      if (j - 1) / 2 == k { assert rank(s[k]) <= rank(s[j]); }
    }
  }

  lemma {:induction false} FrontIsMost<T>(s: seq<T>, rank: T -> int, j: nat)
    requires Heap(s, rank) && j < |s|
    ensures rank(s[0]) <= rank(s[j])
    decreases j
  {
    if j > 0 {
      assert InOrder(s, rank, j);
      FrontIsMost(s, rank, (j - 1) / 2);
    }
  }

  lemma OtherPositions<T>(s: seq<T>, x: T, rank: T -> int)
    requires Heap(s, rank) && x in multiset(s)
    ensures rank(s[0]) <= rank(x)
  {
    var j :| 0 <= j < |s| && s[j] == x;
    FrontIsMost(s, rank, j);
  }

  lemma MoreItems<T>(s: seq<T>, x: T)
    ensures multiset(s + [x]) == multiset(s) + multiset{x}
  {}

  lemma FrontOf<T>(s: seq<T>, rank: T -> int)
    requires s != [] && Heap(s, rank)
    ensures s[0] in multiset(s) && forall x :: x in multiset(s) ==> rank(s[0]) <= rank(x)
  {
    forall x | x in multiset(s) ensures rank(s[0]) <= rank(x) { OtherPositions(s, x, rank); }
  }

  /** The front replaced by the last item. */
  lemma Replaced<T>(s: seq<T>, rank: T -> int)
    requires s != [] && Heap(s, rank)
    ensures var n := |s| - 1; var r := if n == 0 then [] else s[..n][0 := s[n]];
            multiset(r) == multiset(s) - multiset{s[0]} && DownHeap(r, rank, 0)
  {
    var n := |s| - 1;
    assert s == s[..n] + [s[n]];
    if n > 0 {
      var r := s[..n][0 := s[n]];
      assert multiset(r) == multiset(s[..n])[s[0] := multiset(s[..n])[s[0]] - 1] + multiset{s[n]};
      forall j | 0 < j < |r| && (j - 1) / 2 != 0 ensures InOrder(r, rank, j) { assert InOrder(s, rank, j); }
    }
  }

  datatype Popped<T> = Nothing | Front(item: T)

  class Priq<T(0)> {
    const rank: T -> int
    const strict: bool
    var arr: array<T>
    var count: nat

    ghost predicate Valid()
      reads this, arr
    {
      count <= arr.Length && Heap(arr[..count], rank)
    }

    ghost function Content(): multiset<T>
      reads this, arr
      requires Valid()
    {
      multiset(arr[..count])
    }

    constructor (rank: T -> int, strict: bool)
      ensures Valid() && Content() == multiset{} && this.rank == rank && this.strict == strict && fresh(arr)
    {
      this.rank, this.strict := rank, strict;
      arr := new T[0];
      count := 0;
    }

    method Prior(x: T, y: T) returns (prior: bool)
      ensures prior == IsPrior(rank, strict, x, y)
    {
      prior := if strict then rank(x) < rank(y) else rank(x) <= rank(y);
    }

    method ExpandBy2()
      requires Valid() && count == arr.Length
      modifies this
      ensures Valid() && fresh(arr) && count == old(count) < arr.Length && arr[..count] == old(arr[..count])
      ensures arr.Length == if old(arr.Length) == 0 then 4 else 2 * old(arr.Length)
    {
      hide Heap;
      var oldArr := arr;
      ghost var s := arr[..count];
      if oldArr.Length == 0 {
        arr := new T[4];
      } else {
        arr := new T[oldArr.Length * 2];
        forall i | 0 <= i < oldArr.Length { arr[i] := oldArr[i]; }
      }
      assert arr[..count] == s;
    }

    method ReduceBy4()
      requires Valid() && count <= arr.Length / 4
      modifies this
      ensures Valid() && fresh(arr) && count == old(count) && arr[..count] == old(arr[..count])
      ensures arr.Length == old(arr.Length) / 4
    {
      hide Heap;
      var oldArr := arr;
      ghost var s := arr[..count];
      var capacity := oldArr.Length / 4;
      arr := new T[capacity];
      forall i | 0 <= i < capacity { arr[i] := oldArr[i]; }
      assert arr[..count] == s;
    }

    method Insert(key: T)
      requires Valid()
      modifies this, arr
      ensures Valid() && Content() == old(Content()) + multiset{key} && count == old(count) + 1
      ensures arr == old(arr) || fresh(arr)
      ensures arr.Length == if old(count) < old(arr.Length) then old(arr.Length)
                            else if old(arr.Length) == 0 then 4 else 2 * old(arr.Length)
    {
      hide Heap, UpHeap, InOrder, Swapped;
      var n := count;
      if n >= arr.Length {
        ExpandBy2();
      }
      Append(n, key);
    }

    /** Puts an item behind the last one and moves it up. */
    method Append(n: nat, key: T)
      requires Valid() && n == count < arr.Length
      modifies `count, arr
      ensures Valid() && Content() == old(Content()) + multiset{key} && count == old(count) + 1
    {
      hide Heap, UpHeap, InOrder, Swapped;
      ghost var before := arr[..count];
      PutLast(n, key);
      Appended(before, rank, key);
      MoreItems(before, key);
      SiftUp(count);
      count := count + 1;
    }

    method PutLast(n: nat, key: T)
      requires n < arr.Length
      modifies arr
      ensures arr[..n + 1] == old(arr[..n]) + [key]
    {
      arr[n] := key;
    }

    /** Swaps two slots, of which the second may be the one behind the first `n`. */
    method SwapSlots(i: nat, j: nat, n: nat)
      requires i < n <= arr.Length && j < arr.Length && j <= n && (j < n || arr[i] == arr[j])
      modifies arr
      ensures arr[..n] == old(if j < n then Swapped(arr[..n], i, j) else arr[..n])
      ensures arr[j] == old(arr[i]) && (j < n < arr.Length ==> arr[n] == old(arr[n]))
    {
      arr[i], arr[j] := arr[j], arr[i];
    }

    /** Moves up the item at the end. */
    method SiftUp(end: nat)
      requires end < arr.Length && UpHeap(arr[..end + 1], rank, end)
      modifies arr
      ensures Heap(arr[..end + 1], rank) && multiset(arr[..end + 1]) == old(multiset(arr[..end + 1]))
    {
      hide UpHeap, Heap, InOrder;
      var n := end;
      ghost var s := arr[..end + 1];
      while n > 0
        invariant 0 <= n <= end && s == arr[..end + 1]
        invariant multiset(s) == old(multiset(arr[..end + 1])) && UpHeap(s, rank, n)
      {
        var m := (n + 1) / 2 - 1;
        var prior := Prior(arr[m], arr[n]);
        if prior {
          break;
        }
        UpStep(s, rank, n);
        SwapSlots(m, n, end + 1);
        s := Swapped(s, m, n);
        n := m;
      }
      UpDone(s, rank, n);
    }

    /** Takes out the front and puts the last item in its place, from where it sifts down. */
    method TakeFront() returns (item: T)
      requires Valid() && count > 0
      modifies `count, arr
      ensures Valid() && count == old(count) - 1
      ensures item in old(Content()) && Content() == old(Content()) - multiset{item}
      ensures forall x :: x in old(Content()) ==> rank(item) <= rank(x)
    {
      hide Heap, DownHeap, InOrder, Bridged;
      ghost var before := arr[..count];
      Replaced(before, rank);
      FrontOf(before, rank);
      count := count - 1;
      var n := count;
      item := arr[0];
      assert arr[..n] == before[..n];
      PutFirst(n);
      SiftDown(n);
    }

    method PutFirst(n: nat)
      requires n < arr.Length
      modifies arr
      ensures arr[..n] == (if n == 0 then [] else old(arr[..n])[0 := old(arr[n])]) && arr[0] == arr[n] == old(arr[n])
    {
      arr[0] := arr[n];
    }

    /** Removes an item that no other is prior to. */
    method PopFront() returns (result: Popped<T>)
      requires Valid()
      modifies this, arr
      ensures Valid() && (arr == old(arr) || fresh(arr))
      ensures old(count) == 0 ==> result.Nothing? && Content() == old(Content())
      ensures old(count) > 0 ==>
                && result.Front? && result.item in old(Content()) && count == old(count) - 1
                && Content() == old(Content()) - multiset{result.item}
                && forall x :: x in old(Content()) ==> rank(result.item) <= rank(x)
      ensures arr.Length == if old(count) > 0 && 8 < count <= old(arr.Length) / 4 then old(arr.Length) / 4
                            else old(arr.Length)
    {
      hide Heap, DownHeap, InOrder, Bridged;
      if count == 0 {
        return Nothing;
      }
      var item := TakeFront();
      result := Front(item);
      if count > 8 && count <= arr.Length / 4 {
        ReduceBy4();
      }
    }

    /** Sifts down the front; the slot behind the items, which may be read in place of a
        missing right child, holds the same item and changes nothing. */
    method SiftDown(n: nat)
      requires n < arr.Length && arr[n] == arr[0] && DownHeap(arr[..n], rank, 0)
      modifies arr
      ensures Heap(arr[..n], rank) && multiset(arr[..n]) == old(multiset(arr[..n]))
    {
      hide DownHeap, Heap, InOrder;
      var i := 0;
      ghost var s := arr[..n];
      if n == 0 { NoItems(s, rank); }
      while true
        invariant 0 <= i <= n && arr[i] == arr[n] && s == arr[..n] && multiset(s) == old(multiset(arr[..n]))
        invariant if i < n then DownHeap(s, rank, i) else Heap(s, rank)
        decreases n - i
      {
        var j0 := 2 * i + 1;
        if j0 >= n {
          if i < n { DownDone(s, rank, i); }
          break;
        }
        var prior := Prior(arr[j0 + 1], arr[j0]);
        if prior {
          j0 := j0 + 1;
        }
        prior := Prior(arr[i], arr[j0]);
        if prior {
          DownDone(s, rank, i);
          break;
        }
        if j0 == n {
          DownDone(s, rank, i);
        } else {
          DownStep(s, rank, i, j0);
          s := Swapped(s, i, j0);
        }
        SwapSlots(i, j0, n);
        i := j0;
      }
    }
  }

  lemma NoItems<T>(s: seq<T>, rank: T -> int)
    requires s == []
    ensures Heap(s, rank)
  {}
}
