/** Buckets of singly linked nodes with hashed keys. */
module HzmapLinks {
  import opened Bits
  import opened Seqs

  type Key = seq<bv64>

  // -------------------------------------------------------------------- hashing

  function Plus(x: bv64, y: bv64): bv64 {
    x + y
  }

  function Minus(x: bv64, y: bv64): bv64 {
    x - y
  }

  function Xored(x: bv64, y: bv64): bv64 {
    x ^ y
  }

  function Right(x: bv64, n: nat): bv64
    requires n < 64
  {
    x >> n
  }

  function Left(x: bv64, n: nat): bv64
    requires n < 64
  {
    x << n
  }

  /** The three words that the hash function mixes. */
  datatype Mix = Mix(a: bv64, b: bv64, c: bv64)

  /** `a -= b + c;  a ^= (c >> n);` */
  function StepA(m: Mix, n: nat): Mix
    requires n < 64
  {
    m.(a := Turned(m.a, Plus(m.b, m.c), Right(m.c, n)))
  }

  /** `b -= c + a;  b ^= (a << n);` */
  function StepB(m: Mix, n: nat): Mix
    requires n < 64
  {
    m.(b := Turned(m.b, Plus(m.c, m.a), Left(m.a, n)))
  }

  /** `c -= a + b;  c ^= (b >> n);` */
  function StepC(m: Mix, n: nat): Mix
    requires n < 64
  {
    m.(c := Turned(m.c, Plus(m.a, m.b), Right(m.b, n)))
  }

  /** `x -= y;  x ^= z;` */
  function Turned(x: bv64, y: bv64, z: bv64): bv64 {
    Xored(Minus(x, y), z)
  }

  function Mixed(m: Mix): Mix {
    var m := StepC(StepB(StepA(m, 43), 9), 8);
    var m := StepC(StepB(StepA(m, 38), 23), 5);
    var m := StepC(StepB(StepA(m, 35), 49), 11);
    StepC(StepB(StepA(m, 12), 18), 22)
  }

  const SEED: bv64 := 0x9e3779b97f4a7c13

  /** The words before the first of the key is added. */
  const START: Mix := Mix(0, 0, SEED)

  /** Adds three words and mixes. */
  function MixTriple(m: Mix, key: Key): Mix
    requires |key| >= 3
  {
    Mixed(Mix(Plus(m.a, key[0]), Plus(m.b, key[1]), Plus(m.c, key[2])))
  }

  /** Adds the number of words and the last words. */
  function LastWords(m: Mix, key: Key, count: bv64): Mix {
    Mix(if |key| >= 1 then Plus(m.a, key[0]) else m.a, if |key| >= 2 then Plus(m.b, key[1]) else m.b,
        Plus(m.c, Left(count, 3)))
  }

  function MixRest(m: Mix, key: Key, count: bv64): Mix {
    Mixed(LastWords(m, key, count))
  }

  /** The three words once the rest of a key has been mixed in. */
  function MixAll(m: Mix, key: Key, count: bv64): Mix
    decreases |key|
  {
    if |key| < 3 then MixRest(m, key, count) else MixAll(MixTriple(m, key), key[3..], count)
  }

  /** The hash of a key of `count` words. */
  function Hash(key: Key, count: bv64): bv64 {
    MixAll(START, key, count).c
  }

  /** The hash computed as the source does. */
  method HashNoinit(count: bv64, arr: Key) returns (h: bv64)
    ensures h == Hash(arr, count)
  {
    hide MixTriple, MixRest;
    var n, rest := |arr|, arr;
    var m := START;
    while n >= 3
      invariant n == |rest| && MixAll(m, rest, count) == MixAll(START, arr, count)
    {
      m := MixTriple(m, rest);
      rest := rest[3..];
      n := n - 3;
    }
    m := MixRest(m, rest, count);
    return m.c;
  }

  // ------------------------------------------------------- mixing loses nothing

  function Unturned(x: bv64, y: bv64, z: bv64): bv64 {
    Plus(Xored(x, z), y)
  }

  lemma TurnedBack(x: bv64, y: bv64, z: bv64)
    ensures Unturned(Turned(x, y, z), y, z) == x && Turned(Unturned(x, y, z), y, z) == x
  {
    hide Plus, Minus, Xored;
    XoredBack(Minus(x, y), z);
    PlusBack(x, y);
    XoredBack(x, z);
    MinusBack(Xored(x, z), y);
  }

  lemma XoredBack(x: bv64, z: bv64)
    ensures Xored(Xored(x, z), z) == x
  {}

  lemma PlusBack(x: bv64, y: bv64)
    ensures Plus(Minus(x, y), y) == x
  {
    hide Plus;
    DifferenceBack(x, y);
  }

  lemma DifferenceBack(x: bv64, y: bv64)
    ensures Plus(x - y, y) == x
  {}

  lemma MinusBack(x: bv64, y: bv64)
    ensures Minus(Plus(x, y), y) == x
  {
    hide Minus;
    SumBack(x, y);
  }

  lemma SumBack(x: bv64, y: bv64)
    ensures Minus(x + y, y) == x
  {}

  function UnstepA(m: Mix, n: nat): Mix
    requires n < 64
  {
    m.(a := Unturned(m.a, Plus(m.b, m.c), Right(m.c, n)))
  }

  function UnstepB(m: Mix, n: nat): Mix
    requires n < 64
  {
    m.(b := Unturned(m.b, Plus(m.c, m.a), Left(m.a, n)))
  }

  function UnstepC(m: Mix, n: nat): Mix
    requires n < 64
  {
    m.(c := Unturned(m.c, Plus(m.a, m.b), Right(m.b, n)))
  }

  /** The steps undone one by one from the last. */
  function Unmixed(m: Mix): Mix {
    var m := UnstepA(UnstepB(UnstepC(m, 22), 18), 12);
    var m := UnstepA(UnstepB(UnstepC(m, 11), 49), 35);
    var m := UnstepA(UnstepB(UnstepC(m, 5), 23), 38);
    UnstepA(UnstepB(UnstepC(m, 8), 9), 43)
  }

  lemma StepsBack(m: Mix, n: nat)
    requires n < 64
    ensures UnstepA(StepA(m, n), n) == m && StepA(UnstepA(m, n), n) == m
    ensures UnstepB(StepB(m, n), n) == m && StepB(UnstepB(m, n), n) == m
    ensures UnstepC(StepC(m, n), n) == m && StepC(UnstepC(m, n), n) == m
  {
    hide Turned, Unturned, Plus, Left, Right;
    TurnedBack(m.a, Plus(m.b, m.c), Right(m.c, n));
    TurnedBack(m.b, Plus(m.c, m.a), Left(m.a, n));
    TurnedBack(m.c, Plus(m.a, m.b), Right(m.b, n));
  }

  /** One of the four rounds, undone and done again. */
  lemma RoundBack(m: Mix, i: nat, j: nat, k: nat)
    requires i < 64 && j < 64 && k < 64
    ensures UnstepA(UnstepB(UnstepC(StepC(StepB(StepA(m, i), j), k), k), j), i) == m
    ensures StepC(StepB(StepA(UnstepA(UnstepB(UnstepC(m, k), j), i), i), j), k) == m
  {
    hide StepA, StepB, StepC, UnstepA, UnstepB, UnstepC;
    StepsBack(m, i);
    StepsBack(StepA(m, i), j);
    StepsBack(StepB(StepA(m, i), j), k);
    StepsBack(m, k);
    StepsBack(UnstepC(m, k), j);
    StepsBack(UnstepB(UnstepC(m, k), j), i);
  }

  /** Mixing can be undone, and reaches every triple of words. */
  lemma MixedBack(m: Mix)
    ensures Unmixed(Mixed(m)) == m && Mixed(Unmixed(m)) == m
  {
    hide StepA, StepB, StepC, UnstepA, UnstepB, UnstepC;
    var m1 := StepC(StepB(StepA(m, 43), 9), 8);
    var m2 := StepC(StepB(StepA(m1, 38), 23), 5);
    var m3 := StepC(StepB(StepA(m2, 35), 49), 11);
    RoundBack(m, 43, 9, 8);
    RoundBack(m1, 38, 23, 5);
    RoundBack(m2, 35, 49, 11);
    RoundBack(m3, 12, 18, 22);
    var u3 := UnstepA(UnstepB(UnstepC(m, 22), 18), 12);
    var u2 := UnstepA(UnstepB(UnstepC(u3, 11), 49), 35);
    var u1 := UnstepA(UnstepB(UnstepC(u2, 5), 23), 38);
    RoundBack(u3, 35, 49, 11);
    RoundBack(u2, 38, 23, 5);
    RoundBack(u1, 43, 9, 8);
    RoundBack(m, 12, 18, 22);
  }

  /** Other words before a triple, or other words in it, leave other words behind. */
  lemma TripleApart(m: Mix, key: Key, m': Mix, key': Key)
    requires |key| >= 3 && |key'| >= 3
    ensures MixTriple(m, key) == MixTriple(m', key') <==>
            && Plus(m.a, key[0]) == Plus(m'.a, key'[0]) && Plus(m.b, key[1]) == Plus(m'.b, key'[1])
            && Plus(m.c, key[2]) == Plus(m'.c, key'[2])
  {
    hide Mixed, Unmixed, Plus;
    MixedBack(Mix(Plus(m.a, key[0]), Plus(m.b, key[1]), Plus(m.c, key[2])));
    MixedBack(Mix(Plus(m'.a, key'[0]), Plus(m'.b, key'[1]), Plus(m'.c, key'[2])));
  }

  lemma RestApart(m: Mix, key: Key, m': Mix, key': Key, count: bv64)
    ensures MixRest(m, key, count) == MixRest(m', key', count) <==>
            LastWords(m, key, count) == LastWords(m', key', count)
  {
    hide Mixed, Unmixed, LastWords;
    MixedBack(LastWords(m, key, count));
    MixedBack(LastWords(m', key', count));
  }

  lemma PlusApart(x: bv64, y: bv64, z: bv64)
    ensures Plus(x, z) == Plus(y, z) ==> x == y
    ensures Plus(z, x) == Plus(z, y) ==> x == y
  {
    hide Plus, Minus;
    MinusBack(x, z);
    MinusBack(y, z);
    PlusTurn(z, x);
    PlusTurn(z, y);
  }

  lemma PlusTurn(x: bv64, y: bv64)
    ensures Plus(x, y) == Plus(y, x)
  {}

  /** What is mixed in later keeps different words different. */
  lemma {:induction false} StaysApart(m: Mix, m': Mix, key: Key, count: bv64)
    requires m != m'
    ensures MixAll(m, key, count) != MixAll(m', key, count)
    decreases |key|
  {
    hide MixTriple, MixRest, Plus;
    if |key| >= 3 {
      TripleApart(m, key, m', key);
      PlusApart(m.a, m'.a, key[0]);
      PlusApart(m.b, m'.b, key[1]);
      PlusApart(m.c, m'.c, key[2]);
      StaysApart(MixTriple(m, key), MixTriple(m', key), key[3..], count);
    } else {
      RestApart(m, key, m', key, count);
      if |key| >= 1 { PlusApart(m.a, m'.a, key[0]); }
      if |key| >= 2 { PlusApart(m.b, m'.b, key[1]); }
      PlusApart(m.c, m'.c, Left(count, 3));
    }
  }

  /** The keys differ, but only in words of the triple number `i`. */
  ghost predicate DifferInTriple(key: Key, key': Key, i: nat) {
    |key| == |key'| && key != key' && forall j :: 0 <= j < |key| && j / 3 != i ==> key[j] == key'[j]
  }

  lemma DifferLater(key: Key, key': Key, i: nat)
    requires DifferInTriple(key, key', i) && |key| >= 3 && i > 0
    ensures key[0] == key'[0] && key[1] == key'[1] && key[2] == key'[2] && DifferInTriple(key[3..], key'[3..], i - 1)
  {
    assert 0 / 3 == 1 / 3 == 2 / 3 == 0;
    assert key == [key[0], key[1], key[2]] + key[3..] && key' == [key'[0], key'[1], key'[2]] + key'[3..];
    forall j | 0 <= j < |key[3..]| && j / 3 != i - 1 ensures key[3..][j] == key'[3..][j] {
      assert (j + 3) / 3 == j / 3 + 1 && key[j + 3] == key'[j + 3];
    }
  }

  lemma DifferHere(key: Key, key': Key)
    requires DifferInTriple(key, key', 0) && |key| >= 3
    ensures key[3..] == key'[3..] && (key[0] != key'[0] || key[1] != key'[1] || key[2] != key'[2])
  {
    forall j | 0 <= j < |key[3..]| ensures key[3..][j] == key'[3..][j] {
      assert (j + 3) / 3 != 0 && key[j + 3] == key'[j + 3];
    }
    assert key == [key[0], key[1], key[2]] + key[3..] && key' == [key'[0], key'[1], key'[2]] + key'[3..];
  }

  /** Two keys of one length that differ in one word, or in several of one triple, leave
      different words behind, of which the third is the hash. */
  lemma {:induction false} KeysApart(m: Mix, key: Key, key': Key, i: nat, count: bv64)
    requires DifferInTriple(key, key', i)
    ensures MixAll(m, key, count) != MixAll(m, key', count)
    decreases |key|
  {
    hide MixTriple, MixRest, Plus;
    if |key| < 3 {
      RestApart(m, key, m, key', count);
      assert |key| >= 1;
      PlusApart(key[0], key'[0], m.a);
      if |key| >= 2 { PlusApart(key[1], key'[1], m.b); }
    } else if i == 0 {
      DifferHere(key, key');
      TripleApart(m, key, m, key');
      PlusApart(key[0], key'[0], m.a);
      PlusApart(key[1], key'[1], m.b);
      PlusApart(key[2], key'[2], m.c);
      StaysApart(MixTriple(m, key), MixTriple(m, key'), key[3..], count);
    } else {
      DifferLater(key, key', i);
      TripleApart(m, key, m, key');
      KeysApart(MixTriple(m, key), key[3..], key'[3..], i - 1, count);
    }
  }

  /** So do two numbers of words that differ in their lower 61 bits. */
  lemma {:induction false} CountsApart(m: Mix, key: Key, count: bv64, count': bv64)
    requires Left(count, 3) != Left(count', 3)
    ensures MixAll(m, key, count) != MixAll(m, key, count')
    decreases |key|
  {
    hide MixTriple, Left, Plus;
    if |key| >= 3 {
      CountsApart(MixTriple(m, key), key[3..], count, count');
    } else {
      hide Mixed, Unmixed;
      MixedBack(LastWords(m, key, count));
      MixedBack(LastWords(m, key, count'));
      PlusApart(Left(count, 3), Left(count', 3), m.c);
    }
  }

  /** The hash of a key of one word. */
  function Hash1(d0: bv64): bv64 {
    Mixed(Mix(d0, 0, 0x9e3779b97f4a7c1b)).c
  }

  function Hash2(d0: bv64, d1: bv64): bv64 {
    Mixed(Mix(d0, d1, 0x9e3779b97f4a7c23)).c
  }

  lemma SpecialHashes(key: Key)
    ensures |key| == 1 ==> Hash1(key[0]) == Hash(key, 1)
    ensures |key| == 2 ==> Hash2(key[0], key[1]) == Hash(key, 2)
  {
    hide Mixed;
  }

  /** `hash & mask` for a capacity that is a power of two. */
  function IndexOf(key: Key, count: bv64, cap: nat): (i: nat)
    requires cap > 0
    ensures i < cap
  {
    (Hash(key, count) as int) % cap
  }

  /** Two keys share a bucket if and only if their hashes differ by a multiple of the number
      of buckets. */
  lemma SameIndex(key: Key, key': Key, count: bv64, cap: nat)
    requires cap > 0
    ensures IndexOf(key, count, cap) == IndexOf(key', count, cap) <==>
            exists q: int :: Hash(key, count) as int - Hash(key', count) as int == q * cap
  {
    hide Hash;
    SameRest(Hash(key, count) as int, Hash(key', count) as int, cap);
  }

  lemma SameRest(h: nat, h': nat, c: nat)
    requires c > 0
    ensures h % c == h' % c <==> exists q: int :: h - h' == q * c
  {
    var d := h / c - h' / c;
    if h % c == h' % c {
      assert h - h' == c * (h / c) - c * (h' / c) == d * c;
    }
    forall q: int | h - h' == q * c ensures h % c == h' % c {
      var p := h' / c + q;
      assert h == c * (h' / c) + h' % c + q * c == c * p + h' % c;
      ModIs(h, c, p, h' % c);
    }
  }

  lemma HalfIndex(key: Key, count: bv64, cap: nat)
    requires cap > 0
    ensures IndexOf(key, count, cap) == IndexOf(key, count, 2 * cap) % cap
  {
    hide Hash;
    ModHalf(Hash(key, count) as int, cap);
  }

  lemma ModHalf(h: nat, c: nat)
    requires c > 0
    ensures h % c == h % (2 * c) % c
  {
    HalfRest(h, c, h / (2 * c), h % (2 * c));
  }

  lemma HalfRest(h: nat, c: nat, q: nat, r: nat)
    requires c > 0 && h == (2 * c) * q + r && r < 2 * c
    ensures h % c == r % c
  {
    var b := if r < c then 0 else 1;
    ModIs(r, c, b, r - c * b);
    assert (2 * c) * q == c * (2 * q) && c * (2 * q + b) == c * (2 * q) + c * b;
    ModIs(h, c, 2 * q + b, r - c * b);
  }

  lemma ModIs(h: nat, c: nat, q: nat, r: nat)
    requires c > 0 && h == c * q + r && r < c
    ensures h % c == r
  {
    DivIs(h, c, q, r);
  }

  // --------------------------------------------------------------------- chains

  class Node {
    var next: Node?
    const key: Key
    constructor (key: Key)
      ensures this.key == key && next == null
    {
      this.key := key;
      next := null;
    }
  }

  /** The chain from `head` runs through `b` and goes on to `end`. */
  ghost predicate Seg(head: Node?, b: seq<Node>, end: Node?)
    reads Items(b)
  {
    if b == [] then head == end
    else
      assert b[0] in Items(b);
      head == b[0] && Seg(b[0].next, b[1..], end)
  }

  lemma {:induction false} SegAppend(head: Node?, a: seq<Node>, mid: Node?, b: seq<Node>, end: Node?)
    requires Seg(head, a, mid) && Seg(mid, b, end)
    ensures Seg(head, a + b, end)
  {
    if a == [] {
      assert a + b == b;
    } else {
      assert (a + b)[1..] == a[1..] + b;
      SegAppend(a[0].next, a[1..], mid, b, end);
    }
  }

  lemma {:induction false} SegSplit(head: Node?, a: seq<Node>, b: seq<Node>, end: Node?) returns (mid: Node?)
    requires Seg(head, a + b, end)
    ensures Seg(head, a, mid) && Seg(mid, b, end)
  {
    if a == [] {
      assert a + b == b;
      mid := head;
    } else {
      assert (a + b)[1..] == a[1..] + b;
      mid := SegSplit(a[0].next, a[1..], b, end);
    }
  }

  /** A chain that ends passes through what is known of its start. */
  lemma {:induction false} SegFrom(head: Node?, a: seq<Node>, mid: Node?, b: seq<Node>) returns (rest: seq<Node>)
    requires Seg(head, a, mid) && Seg(head, b, null)
    ensures b == a + rest && Seg(mid, rest, null)
  {
    if a == [] {
      rest := b;
    } else {
      rest := SegFrom(a[0].next, a[1..], mid, b[1..]);
      assert b == [b[0]] + b[1..] && a == [a[0]] + a[1..];
    }
  }

  // -------------------------------------------------------------------- buckets

  type Buckets = seq<seq<Node>>

  ghost function Nodes(bs: Buckets): set<Node> {
    set i, n | 0 <= i < |bs| && n in bs[i] :: n
  }

  function Count(bs: Buckets): nat {
    if bs == [] then 0 else |bs[0]| + Count(bs[1..])
  }

  /** Keys of bucket `i`: hashed there, and each once. */
  ghost predicate Placed(b: seq<Node>, i: nat, count: bv64, cap: nat)
    requires cap > 0
  {
    (forall n :: n in b ==> IndexOf(n.key, count, cap) == i)
    && forall j, k :: 0 <= j < k < |b| ==> b[j].key != b[k].key
  }

  ghost predicate AllPlaced(bs: Buckets, count: bv64) {
    |bs| > 0 && forall i :: 0 <= i < |bs| ==> Placed(bs[i], i, count, |bs|)
  }

  ghost predicate Linked(a: seq<Node?>, bs: Buckets)
    reads Nodes(bs)
  {
    |a| == |bs| && forall i :: 0 <= i < |a| ==> (assert Items(bs[i]) <= Nodes(bs); Seg(a[i], bs[i], null))
  }

  lemma {:induction false} CountUpdate(bs: Buckets, i: nat, b: seq<Node>)
    requires i < |bs|
    ensures Count(bs[i := b]) + |bs[i]| == Count(bs) + |b|
  {
    if i > 0 {
      CountUpdate(bs[1..], i - 1, b);
      assert bs[i := b][1..] == bs[1..][i - 1 := b];
    } else {
      assert bs[i := b][1..] == bs[1..];
    }
  }

  /** Nodes of different buckets are different. */
  lemma BucketsApart(bs: Buckets, count: bv64, i: nat, j: nat)
    requires AllPlaced(bs, count) && i < |bs| && j < |bs| && i != j
    ensures Items(bs[i]) !! Items(bs[j])
  {
    assert Placed(bs[i], i, count, |bs|) && Placed(bs[j], j, count, |bs|);
  }

  /** The nodes of a bucket after an update of that bucket. */
  lemma NodesUpdate(bs: Buckets, count: bv64, i: nat, b: seq<Node>)
    requires AllPlaced(bs, count) && i < |bs|
    ensures Nodes(bs[i := b]) == (Nodes(bs) - Items(bs[i])) + Items(b)
  {
    var r := bs[i := b];
    forall n | n in Nodes(r) ensures n in (Nodes(bs) - Items(bs[i])) + Items(b) {
      var j :| 0 <= j < |r| && n in r[j];
      if j != i { BucketsApart(bs, count, i, j); assert n in bs[j]; }
    }
    forall n | n in (Nodes(bs) - Items(bs[i])) + Items(b) ensures n in Nodes(r) {
      if n in b { assert n in r[i]; } else {
        var j :| 0 <= j < |bs| && n in bs[j];
        assert n in r[j];
      }
    }
  }

  /** The bucket that a key belongs to holds its node, if there is one. */
  lemma InItsBucket(bs: Buckets, count: bv64, n: Node)
    requires AllPlaced(bs, count) && n in Nodes(bs)
    ensures n in bs[IndexOf(n.key, count, |bs|)]
  {
    var i :| 0 <= i < |bs| && n in bs[i];
    assert Placed(bs[i], i, count, |bs|);
  }
}
