/** An immutable stack with skip links. */
module Frame {
  import opened Bits

  // --------------------------------------------------------------- single bits

  /** The lowest bit of a positive number. */
  function LowBit(d: nat): nat
    requires d > 0
  {
    if d % 2 == 1 then 0 else 1 + LowBit(d / 2)
  }

  predicate BitSet(d: nat, i: nat)
    decreases i
  {
    if i == 0 then d % 2 == 1 else BitSet(d / 2, i - 1)
  }

  /** `d & ~(1 << i)` */
  function Cleared(d: nat, i: nat): nat
    decreases i
  {
    if i == 0 then d - d % 2 else 2 * Cleared(d / 2, i - 1) + d % 2
  }

  /** The bits below `i` are clear. */
  predicate ClearBelow(d: nat, i: nat)
    decreases i
  {
    i == 0 || (d % 2 == 0 && ClearBelow(d / 2, i - 1))
  }

  lemma {:induction false} ClearedIs(d: nat, i: nat)
    ensures Cleared(d, i) == if BitSet(d, i) then d - Pow2(i) else d
    ensures BitSet(d, i) ==> d >= Pow2(i)
    decreases i
  {
    if i > 0 { ClearedIs(d / 2, i - 1); }
  }

  lemma {:induction false} LowBitClear(d: nat, i: nat)
    requires d > 0
    ensures ClearBelow(d, i) <==> i <= LowBit(d)
    decreases i
  {
    if i > 0 && d % 2 == 0 { LowBitClear(d / 2, i - 1); }
  }

  /** Taking away bit `i`, set or not, keeps the bits below it clear. */
  lemma {:induction false} ClearStep(d: nat, i: nat)
    requires ClearBelow(d, i)
    ensures ClearBelow(d, i + 1) <==> !BitSet(d, i)
    ensures BitSet(d, i) ==> d >= Pow2(i) && ClearBelow(d - Pow2(i), i + 1)
    ensures d > 0 ==> d >= Pow2(i)
    decreases i
  {
    if i > 0 {
      ClearStep(d / 2, i - 1);
      if BitSet(d, i) { assert (d - Pow2(i)) / 2 == d / 2 - Pow2(i - 1); }
    }
  }

  lemma ClearNone(d: nat)
    ensures ClearBelow(d, 0)
  {}

  /** Clear bits stay clear when a higher power is taken away. */
  lemma {:induction false} ClearMinus(d: nat, i: nat)
    requires ClearBelow(d, i + 1) && d >= Pow2(i)
    ensures ClearBelow(d, i) && ClearBelow(d - Pow2(i), i)
    decreases i
  {
    if i > 0 {
      assert (d - Pow2(i)) / 2 == d / 2 - Pow2(i - 1);
      ClearMinus(d / 2, i - 1);
    }
  }

  /** Bit `i` of a number below twice its weight. */
  lemma {:induction false} TopBitSet(d: nat, i: nat)
    requires d < 2 * Pow2(i)
    ensures BitSet(d, i) <==> d >= Pow2(i)
    decreases i
  {
    if i > 0 { TopBitSet(d / 2, i - 1); }
  }

  /** The number of bits it takes to write `k`. */
  function BitLength(k: nat): nat {
    if k == 0 then 0 else FloorLog2(k) + 1
  }

  lemma {:induction false} BitLengthBound(k: nat, i: nat)
    ensures k < Pow2(i) <==> BitLength(k) <= i
    decreases k
  {
    if k > 1 && i > 0 { BitLengthBound(k / 2, i - 1); }
  }

  // --------------------------------------------------------------- link counts

  function BitCount(n: nat): nat {
    if n == 0 then 0 else n % 2 + BitCount(n / 2)
  }

  lemma {:induction false} LowBitCount(n: nat)
    requires n > 0
    ensures LowBit(n) + BitCount(n) == BitCount(n - 1) + 1
  {
    if n % 2 == 0 {
      LowBitCount(n / 2);
      assert (n - 1) / 2 == n / 2 - 1;
    } else {
      assert (n - 1) / 2 == n / 2;
    }
  }

  // -------------------------------------------------------------------- frames

  /** A frame with as many link slots as are allocated for its depth. */
  class Frame {
    var depth: nat
    const link: array<Frame?>
    constructor (depth: nat, slots: nat)
      ensures this.depth == depth && fresh(link) && link.Length == slots
    {
      this.depth := depth;
      link := new Frame?[slots](_ => null);
    }
  }

  /** The frame at a depth, counting from 1. */
  function At(c: seq<Frame>, d: int): Frame? {
    if 1 <= d <= |c| then c[d - 1] else null
  }

  ghost function Arrays(c: seq<Frame>): set<array<Frame?>> {
    set f | f in c :: f.link
  }

  /** The frame at depth `d` has a link for each of its low bits. */
  ghost predicate Slots(c: seq<Frame>, d: nat)
    requires 1 <= d <= |c|
    reads c[d - 1], c[d - 1].link
  {
    && c[d - 1].depth == d && c[d - 1].link.Length == LowBit(d) + 1
    && forall i :: 0 <= i <= LowBit(d) ==> c[d - 1].link[i] == At(c, d - Pow2(i))
  }

  /** The frames of a stack from the bottom to the top. */
  ghost predicate Stack(c: seq<Frame>)
    reads (set f | f in c), Arrays(c)
  {
    forall d :: 1 <= d <= |c| ==> c[d - 1] in c && Slots(c, d)
  }

  function Top(c: seq<Frame>): Frame? {
    At(c, |c|)
  }

  lemma StackPrefix(c: seq<Frame>, n: nat)
    requires n <= |c| && Stack(c)
    ensures Stack(c[..n])
  {
    var p := c[..n];
    forall d | 1 <= d <= n ensures p[d - 1] in p && Slots(p, d) {
      assert p[d - 1] == c[d - 1] && Slots(c, d);
      forall i | 0 <= i <= LowBit(d) ensures At(p, d - Pow2(i)) == At(c, d - Pow2(i)) {}
    }
  }

  /** The link `i` of the frame at depth `d`. */
  method Follow(frame: Frame, i: nat, ghost c: seq<Frame>, ghost d: nat, ghost follows: nat)
      returns (to: Frame?, ghost follows': nat)
    requires Stack(c) && 1 <= d <= |c| && frame == c[d - 1] && ClearBelow(d, i)
    ensures to == At(c, d - Pow2(i)) && Stack(c) && follows' == follows + 1
  {
    LowBitClear(d, i);
    assert Slots(c, d);
    return frame.link[i], follows + 1;
  }

  /** The parent frame. */
  method Pop(frame: Frame, ghost c: seq<Frame>) returns (parent: Frame?)
    requires Stack(c) && c != [] && frame == Top(c)
    ensures parent == Top(c[..|c| - 1]) && Stack(c[..|c| - 1])
  {
    StackPrefix(c, |c| - 1);
    ghost var follows;
    parent, follows := Follow(frame, 0, c, |c|, 0);
  }

  /** A number of calls to pop, until there is nothing left. */
  ghost function Popped(frame: Frame?, n: nat): Frame?
    reads *
    decreases n
  {
    if n == 0 || frame == null || frame.link.Length == 0 then frame else Popped(frame.link[0], n - 1)
  }

  lemma {:induction false} PoppedIs(c: seq<Frame>, n: nat)
    requires Stack(c)
    ensures Popped(Top(c), n) == Top(c[..if n <= |c| then |c| - n else 0])
    decreases n
  {
    assert c[..|c|] == c;
    if n > 0 && c != [] {
      var p := c[..|c| - 1];
      StackPrefix(c, |c| - 1);
      assert Slots(c, |c|) && At(c, |c| - Pow2(0)) == Top(p);
      PoppedIs(p, n - 1);
      assert n <= |c| ==> p[..|p| - (n - 1)] == c[..|c| - n];
    }
  }

  /** The skip links lead to the same frame as calls to pop. */
  method FrameBelow(frame: Frame?, frameCnt: nat, ghost c: seq<Frame>) returns (to: Frame?)
    requires Stack(c) && frame == Top(c)
    ensures to == Popped(frame, frameCnt)
  {
    ghost var follows;
    to, follows := FrameAt(frame, frameCnt, c);
    PoppedIs(c, frameCnt);
  }

  lemma TopDepth(c: seq<Frame>)
    requires Stack(c) && c != []
    ensures Top(c).depth == |c|
  {
    assert Slots(c, |c|);
  }

  /** What `frameCnt` pops lead to, or null if there are not so many frames above the
      bottom; follows a number of links logarithmic in `frameCnt`. */
  method FrameAt(frame: Frame?, frameCnt: nat, ghost c: seq<Frame>) returns (to: Frame?, ghost follows: nat)
    requires Stack(c) && frame == Top(c)
    ensures to == Top(c[..if frameCnt <= |c| then |c| - frameCnt else 0])
    ensures follows <= 2 * BitLength(frameCnt) && Stack(c)
  {
    follows := 0;
    if frameCnt == 0 {
      assert c[..|c|] == c;
      return frame, 0;
    }
    var curDepth := if frame == null then 0 else frame.depth;
    if c != [] { TopDepth(c); }
    if frameCnt >= curDepth {
      return null, 0;
    }
    var f: Frame := frame;
    var dstDepth := curDepth - frameCnt;
    hide Cleared, ClearBelow, BitSet, LowBit, BitLength, FloorLog2, Stack;
    ClearNone(curDepth);
    var pow2Bit, bit: nat := 1, 0;
    while true
      invariant pow2Bit == Pow2(bit) && dstDepth < curDepth <= |c| && f == c[curDepth - 1] && ClearBelow(curDepth, bit)
      invariant Stack(c) && follows <= bit && follows <= BitLength(frameCnt)
      decreases |c| - pow2Bit
    {
      ClearedIs(curDepth, bit);
      ClearStep(curDepth, bit);
      var nextDepth := Cleared(curDepth, bit);
      if nextDepth < dstDepth {
        break;
      } else if nextDepth != curDepth {
        BitLengthBound(frameCnt, bit);
        f, follows := Follow(f, bit, c, curDepth, follows);
        curDepth := nextDepth;
        if curDepth == dstDepth {
          return f, follows;
        }
      }
      pow2Bit := pow2Bit * 2;
      bit := bit + 1;
    }
    to, follows := FrameAtLower(f, pow2Bit, bit, curDepth, dstDepth, c, frameCnt, follows);
  }

  /** The second half of the walk: down by the bits that are left, from the highest. */
  method FrameAtLower(frame: Frame, pow2: nat, bits: nat, depth: nat, dstDepth: nat, ghost c: seq<Frame>,
      ghost frameCnt: nat, ghost before: nat)
      returns (to: Frame?, ghost follows: nat)
    requires Stack(c) && 1 <= dstDepth < depth <= |c| && frame == c[depth - 1]
    requires pow2 == Pow2(bits) && ClearBelow(depth, bits) && depth - dstDepth < pow2 && depth - dstDepth <= frameCnt
    ensures to == At(c, dstDepth) && Stack(c) && before <= follows <= before + BitLength(frameCnt)
  {
    hide Cleared, ClearBelow, BitSet, LowBit, BitLength, FloorLog2, Stack;
    var f, pow2Bit, bit, curDepth := frame, pow2, bits, depth;
    follows := before;
    var cnt := curDepth - dstDepth;
    BitLengthBound(frameCnt, BitLength(frameCnt));
    BitLengthBound(cnt, BitLength(frameCnt));
    while true
      invariant pow2Bit == Pow2(bit) && 1 <= cnt < pow2Bit && 1 <= dstDepth == curDepth - cnt
      invariant curDepth <= |c| && Stack(c) && f == c[curDepth - 1] && ClearBelow(curDepth, bit)
      invariant before <= follows && follows + BitLength(cnt) <= before + BitLength(frameCnt)
      decreases bit
    {
      ClearStep(curDepth, bit);
      pow2Bit := pow2Bit / 2;
      bit := bit - 1;
      ClearMinus(curDepth, bit);
      TopBitSet(cnt, bit);
      if BitSet(cnt, bit) {
        BitLengthBound(cnt, bit);
        BitLengthBound(cnt - pow2Bit, bit);
        f, follows := Follow(f, bit, c, curDepth, follows);
        curDepth := curDepth - pow2Bit;
        ClearedIs(cnt, bit);
        cnt := Cleared(cnt, bit);
        if cnt == 0 {
          return f, follows;
        }
      }
    }
  }

  /** The slots allocated for the frames of a stack. */
  ghost function Allocated(c: seq<Frame>): nat
    reads Arrays(c)
  {
    if c == [] then 0 else
      var rest := c[..|c| - 1];
      assert c[|c| - 1] in c;
      Allocated(rest) + c[|c| - 1].link.Length
  }

  lemma {:induction false} AllocatedCount(c: seq<Frame>)
    requires Stack(c)
    ensures Allocated(c) == 2 * |c| - BitCount(|c|)
    decreases |c|
  {
    if c != [] {
      StackPrefix(c, |c| - 1);
      AllocatedCount(c[..|c| - 1]);
      LowBitCount(|c|);
      assert Slots(c, |c|);
    }
  }

  /** Pushes a frame and links it to the frames as many levels below as its depth has
      low powers of two. */
  method Push(frame: Frame?, ghost c: seq<Frame>) returns (newFrame: Frame)
    requires Stack(c) && frame == Top(c)
    ensures fresh(newFrame) && Stack(c + [newFrame]) && Stack(c)
  {
    if frame == null {
      newFrame := new Frame(1, 1);
      newFrame.link[0] := null;
      StackPush(c, newFrame);
      return;
    }
    var depth := frame.depth;
    var newDepth := depth + 1;
    var nLink := LowBit(newDepth) + 1;
    TopDepth(c);
    newFrame := new Frame(newDepth, nLink);
    FillLinks(newFrame, frame, depth, nLink, c);
    StackPush(c, newFrame);
  }

  /** Writes the link slots of a new frame on top of `frame`. */
  method FillLinks(newFrame: Frame, frame: Frame, frameDepth: nat, nLink: nat, ghost c: seq<Frame>)
    requires Stack(c) && frame == Top(c) && frameDepth == |c|
    requires nLink == LowBit(frameDepth + 1) + 1 == newFrame.link.Length
    requires newFrame.link !in Arrays(c)
    modifies newFrame.link
    ensures Stack(c) && forall j :: 0 <= j < nLink ==> newFrame.link[j] == At(c, |c| + 1 - Pow2(j))
  {
    hide Stack, LowBit, Arrays, At, Pow2;
    PowerSteps();
    var f: Frame? := frame;
    var depth, newDepth := frameDepth, frameDepth + 1;
    var pow2Bit := 1;
    var i := 0;
    LowBitPower(newDepth);
    while i < nLink
      invariant 0 <= i <= nLink && pow2Bit == Pow2(i)
      invariant depth == (if i == 0 then |c| else newDepth - Pow2(i - 1)) && 0 <= depth <= |c| && f == At(c, depth)
      invariant forall j :: 0 <= j < i ==> newFrame.link[j] == At(c, newDepth - Pow2(j))
      invariant Stack(c)
    {
      Powers(i, LowBit(newDepth));
      f := LinkTarget(f, pow2Bit + depth - newDepth, depth, c);
      depth := newDepth - pow2Bit;
      SetLink(newFrame, i, f, c);
      pow2Bit := pow2Bit * 2;
      i := i + 1;
    }
  }

  /** The frame `frameCnt` levels below the one at `depth`. */
  method LinkTarget(frame: Frame?, frameCnt: nat, depth: nat, ghost c: seq<Frame>) returns (to: Frame?)
    requires Stack(c) && depth <= |c| && frame == At(c, depth) && frameCnt <= depth
    ensures to == At(c, depth - frameCnt) && Stack(c)
  {
    hide BitLength, Slots;
    StackPrefix(c, depth);
    ghost var follows;
    to, follows := FrameAt(frame, frameCnt, c[..depth]);
    assert c[..depth][..depth - frameCnt] == c[..depth - frameCnt];
    StackPrefix(c, depth);
  }

  method SetLink(newFrame: Frame, i: nat, f: Frame?, ghost c: seq<Frame>)
    requires Stack(c) && i < newFrame.link.Length && newFrame.link !in Arrays(c)
    modifies newFrame.link
    ensures Stack(c) && newFrame.link[i] == f
    ensures forall j :: 0 <= j < newFrame.link.Length && j != i ==> newFrame.link[j] == old(newFrame.link[j])
  {
    newFrame.link[i] := f;
    assert forall d :: 1 <= d <= |c| ==> old(Slots(c, d)) && c[d - 1].link in Arrays(c);
  }

  lemma {:induction false} LowBitPower(d: nat)
    requires d > 0
    ensures d >= Pow2(LowBit(d))
  {
    if d % 2 == 0 { LowBitPower(d / 2); }
  }

  lemma PowerSteps()
    ensures Pow2(0) == 1 && forall i: nat :: Pow2(i + 1) == 2 * Pow2(i)
  {}

  lemma {:induction false} Powers(i: nat, j: nat)
    requires i <= j
    ensures Pow2(i) <= Pow2(j)
    decreases j - i
  {
    if i < j { Powers(i + 1, j); }
  }

  lemma StackPush(c: seq<Frame>, f: Frame)
    requires Stack(c) && f.depth == |c| + 1 && f.link.Length == LowBit(|c| + 1) + 1
    requires forall j :: 0 <= j <= LowBit(|c| + 1) ==> f.link[j] == At(c, |c| + 1 - Pow2(j))
    ensures Stack(c + [f])
  {
    var r := c + [f];
    forall d | 1 <= d <= |r| ensures r[d - 1] in r && Slots(r, d) {
      assert d <= |c| ==> r[d - 1] == c[d - 1] && Slots(c, d);
      forall i | 0 <= i <= LowBit(d) ensures At(r, d - Pow2(i)) == At(c, d - Pow2(i)) {}
    }
  }
}
