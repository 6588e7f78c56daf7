/** Slices of bit arrays at any offset. */
module BitSlice {
  import opened Words

  /** A range of `size` bits from bit `offset` of word `start`. */
  datatype Slice = Slice(arr: array<Word>, start: nat, offset: nat, size: nat)

  ghost predicate InRange(sl: Slice) {
    sl.offset < 64 && 64 * sl.start + sl.offset + sl.size <= 64 * sl.arr.Length
  }

  /** A source at least as long as the destination. */
  ghost predicate SourceFor(src: Slice, dst: Slice) {
    InRange(src) && dst.size <= src.size
  }

  /** The position of the first bit. */
  function Position(sl: Slice): nat {
    64 * sl.start + sl.offset
  }

  /** No bit of the source is loaded after it has been overwritten: the source is another
      array, does not start before the destination, or ends before it; or all is loaded
      before the first word is stored; or only whole words are copied, each of which is
      loaded one step ahead. */
  ghost predicate Clear(src: Slice, dst: Slice) {
    || src.arr != dst.arr || Position(dst) <= Position(src) || Position(src) + dst.size <= Position(dst)
    || dst.offset + dst.size <= 64
    || (dst.offset == 0 && src.offset > 0 && dst.start == src.start + 1 && dst.size % 64 == 0)
  }

  /** A bit of a source that is not clear which is overwritten before it is loaded. */
  function Clobbered(src: Slice, dst: Slice): nat {
    if dst.offset > 0 && Position(dst) < Position(src) + (64 - dst.offset) then Position(src) + (64 - dst.offset)
    else if dst.offset == 0 && src.offset > 0 && dst.start == src.start + 1 then Position(src) + 64 * (dst.size / 64)
    else Position(dst)
  }

  /** The words of the source that the copy loads are words of its array. What may lie
      behind is a word loaded for the partial first word of the destination: the first one
      of an empty slice, or the second one when the slice ends before it. */
  ghost predicate LoadsWithin(src: Slice, dst: Slice) {
    dst.offset > 0 ==>
      && src.start < src.arr.Length
      && (dst.size < 64 - dst.offset && src.offset > dst.offset ==> src.start + 1 < src.arr.Length)
  }

  // --------------------------------------------------------------- what is done

  /** Bits `n` from `d` on hold the image of those from `p0` and `p1` on; the others are
      what they were. */
  ghost predicate Done(was: seq<Word>, now: seq<Word>, d: nat, n: nat, f: Bool2f, s0: seq<Word>, p0: nat, s1: seq<Word>,
      p1: nat)
  {
    && |now| == |was| && d + n <= 64 * |was| && p0 + n <= 64 * |s0| && p1 + n <= 64 * |s1|
    && forall p :: 0 <= p < 64 * |was| ==>
         BitAt(now, p) == if d <= p < d + n then Apply2(f, BitAt(s0, p0 + (p - d)), BitAt(s1, p1 + (p - d)))
           else BitAt(was, p)
  }

  /** No bit but perhaps `p`. */
  ghost predicate OnlyBit(s: seq<Word>, p: nat) {
    forall q :: 0 <= q < 64 * |s| && q != p ==> !BitAt(s, q)
  }

  lemma OnlyBitWords(s: seq<Word>, p: nat)
    requires OnlyBit(s, p)
    ensures BlankBut(s, p / 64)
  {
    forall k | 0 <= k < |s| && k != p / 64 ensures Zero(s[k]) {
      forall i | 0 <= i < 64 ensures !s[k][i] { assert !BitAt(s, 64 * k + i); }
    }
  }

  lemma BlankBits(s: seq<Word>)
    ensures Blank(s) <==> forall q :: 0 <= q < 64 * |s| ==> !BitAt(s, q)
  {
    if forall q :: 0 <= q < 64 * |s| ==> !BitAt(s, q) {
      forall k | 0 <= k < |s| ensures Zero(s[k]) {
        forall i | 0 <= i < 64 ensures !s[k][i] { assert !BitAt(s, 64 * k + i); }
      }
    }
  }

  /** A copy within an array that overwrites its only bit, or finds none, leaves none. */
  lemma DoneBlank(was: seq<Word>, now: seq<Word>, d: nat, n: nat, p0: nat, s1: seq<Word>, p1: nat, p: nat)
    requires Done(was, now, d, n, 0xa, was, p0, s1, p1)
    requires Blank(was) || (OnlyBit(was, p) && d <= p < d + n && !(p0 <= p < p0 + n))
    ensures Blank(now)
  {
    BlankBits(was);
    BlankBits(now);
    assert |now| == |was| && p0 + n <= 64 * |was|;
    hide BitAt, Blank, Apply2, Done, OnlyBit;
    forall q | 0 <= q < 64 * |now| ensures !BitAt(now, q) {
      DoneAt(was, now, d, n, was, p0, s1, p1, q);
      var k := if d <= q < d + n then p0 + (q - d) else q;
      if !Blank(was) { OnlyAt(was, p, k); }
    }
  }

  lemma OnlyAt(s: seq<Word>, p: nat, q: nat)
    requires OnlyBit(s, p) && q < 64 * |s| && q != p
    ensures !BitAt(s, q)
  {}

  /** One bit after a copy of the first source. */
  lemma DoneAt(was: seq<Word>, now: seq<Word>, d: nat, n: nat, s0: seq<Word>, p0: nat, s1: seq<Word>, p1: nat, q: nat)
    requires Done(was, now, d, n, 0xa, s0, p0, s1, p1) && q < 64 * |was|
    ensures |was| == |now| && BitAt(now, q) == if d <= q < d + n then BitAt(s0, p0 + (q - d)) else BitAt(was, q)
  {
    hide BitAt;
  }

  /** Equal bits from position `p` up to `e`. */
  ghost predicate SameBits(s: seq<Word>, t: seq<Word>, p: nat, e: nat) {
    |s| == |t| && forall q :: p <= q < e && q < 64 * |s| ==> BitAt(s, q) == BitAt(t, q)
  }

  lemma DoneThenDone(was: seq<Word>, mid: seq<Word>, now: seq<Word>, d: nat, n: nat, more: nat, f: Bool2f,
      s0: seq<Word>, t0: seq<Word>, p0: nat, s1: seq<Word>, t1: seq<Word>, p1: nat)
    requires Done(was, mid, d, n, f, s0, p0, s1, p1) && Done(mid, now, d + n, more, f, t0, p0 + n, t1, p1 + n)
    requires SameBits(s0, t0, p0 + n, p0 + n + more) && SameBits(s1, t1, p1 + n, p1 + n + more)
    ensures Done(was, now, d, n + more, f, s0, p0, s1, p1)
  {
    forall p | 0 <= p < 64 * |was|
      ensures BitAt(now, p) == if d <= p < d + n + more
                then Apply2(f, BitAt(s0, p0 + (p - d)), BitAt(s1, p1 + (p - d)))
                else BitAt(was, p)
    {
      if d + n <= p < d + n + more {
        assert p0 + n + (p - (d + n)) == p0 + (p - d) && p1 + n + (p - (d + n)) == p1 + (p - d);
      }
    }
  }

  /** Words of images are bits of images. */
  lemma {:induction false} Images2Bits(f: Bool2f, s0: seq<Word>, j0: nat, o0: nat, s1: seq<Word>, j1: nat, o1: nat,
      count: nat, k: nat, i: nat)
    requires o0 < 64 && j0 + count + (if o0 == 0 then 0 else 1) <= |s0|
    requires o1 < 64 && j1 + count + (if o1 == 0 then 0 else 1) <= |s1|
    requires k < count && i < 64
    ensures (64 * (j0 + k) + o0 + i) / 64 < |s0| && (64 * (j1 + k) + o1 + i) / 64 < |s1|
    ensures Images2(f, s0, j0, o0, s1, j1, o1, count)[k][i] ==
              Apply2(f, BitAt(s0, 64 * (j0 + k) + o0 + i), BitAt(s1, 64 * (j1 + k) + o1 + i))
    decreases count
  {
    hide BitAt, Skew, Bitimg2, Apply2;
    SkewBits(s0, j0 + k, o0, i);
    SkewBits(s1, j1 + k, o1, i);
    if k == count - 1 {
      ImageBit(f, Skew(s0, j0 + k, o0), Skew(s1, j1 + k, o1), i);
    } else {
      Images2Bits(f, s0, j0, o0, s1, j1, o1, count - 1, k, i);
    }
  }

  lemma ImageBit(f: Bool2f, x: Word, y: Word, i: nat)
    requires i < 64
    ensures Bitimg2(f, x, y)[i] == Apply2(f, x[i], y[i])
  {}

  lemma PatchedBit(was: seq<Word>, w: nat, ws: seq<Word>, p: nat)
    requires w + |ws| <= |was| && p < 64 * |was|
    ensures BitAt(Patched(was, w, ws), p) == if 64 * w <= p < 64 * (w + |ws|) then ws[p / 64 - w][p % 64]
              else BitAt(was, p)
  {}

  lemma WordsDone(was: seq<Word>, now: seq<Word>, w: nat, count: nat, f: Bool2f, s0: seq<Word>, j0: nat, o0: nat,
      s1: seq<Word>, j1: nat, o1: nat)
    requires o0 < 64 && j0 + count + (if o0 == 0 then 0 else 1) <= |s0|
    requires o1 < 64 && j1 + count + (if o1 == 0 then 0 else 1) <= |s1|
    requires w + count <= |was| && now == Patched(was, w, Images2(f, s0, j0, o0, s1, j1, o1, count))
    ensures Done(was, now, 64 * w, 64 * count, f, s0, 64 * j0 + o0, s1, 64 * j1 + o1)
  {
    hide BitAt, Images2, Patched, Apply2;
    forall p | 0 <= p < 64 * |was|
      ensures BitAt(now, p) == if 64 * w <= p < 64 * w + 64 * count
                then Apply2(f, BitAt(s0, 64 * j0 + o0 + (p - 64 * w)), BitAt(s1, 64 * j1 + o1 + (p - 64 * w)))
                else BitAt(was, p)
    {
      PatchedBit(was, w, Images2(f, s0, j0, o0, s1, j1, o1, count), p);
      if 64 * w <= p < 64 * w + 64 * count {
        var k, i := p / 64 - w, p % 64;
        Images2Bits(f, s0, j0, o0, s1, j1, o1, count, k, i);
        assert 64 * (j0 + k) + o0 + i == 64 * j0 + o0 + (p - 64 * w);
        assert 64 * (j1 + k) + o1 + i == 64 * j1 + o1 + (p - 64 * w);
      }
    }
  }

  // -------------------------------------------------------------------- reading

  /** Loads a word, or whatever lies behind the array. */
  method Load(arr: array<Word>, j: nat) returns (w: Word, within: bool)
    ensures within <==> j < arr.Length
    ensures within ==> w == arr[j]
  {
    within := j < arr.Length;
    if within {
      w := arr[j];
    } else {
      w := *;
    }
  }

  /** Reads up to a word of bits and advances; the bits above `width` are of no account.
      Tells whether the words that were loaded are words of the array. */
  method ReadBits(width: nat, offset: nat, arr: array<Word>, j: nat)
      returns (w: Word, offset': nat, j': nat, within: bool)
    requires 0 < width <= 64 && offset < 64
    ensures within <==> j < arr.Length && (offset + width > 64 ==> j + 1 < arr.Length)
    ensures offset' < 64 && 64 * j' + offset' == 64 * j + offset + width
    ensures forall i :: 0 <= i < width && 64 * j + offset + i < 64 * arr.Length ==>
              w[i] == BitAt(arr[..], 64 * j + offset + i)
  {
    w, within := Load(arr, j);
    w := Shr(w, offset);
    if offset + width > 64 {
      j' := j + 1;
      var next, second := Load(arr, j');
      within := within && second;
      w := Or(w, Shl(next, 64 - offset));
      offset' := offset + width - 64;
    } else if offset + width == 64 {
      j', offset' := j + 1, 0;
    } else {
      j', offset' := j, offset + width;
    }
    forall i | 0 <= i < width && 64 * j + offset + i < 64 * arr.Length
      ensures w[i] == BitAt(arr[..], 64 * j + offset + i)
    {
      BitNumber(j, offset + i);
    }
  }

  lemma BitNumber(j: nat, i: nat)
    requires i < 128
    ensures (64 * j + i) / 64 == (if i < 64 then j else j + 1) && (64 * j + i) % 64 == if i < 64 then i else i - 64
  {}

  // ------------------------------------------------------------- partial words

  /** A word whose bits from `lo` up to `hi` have been replaced. */
  lemma PartDone(was: seq<Word>, w: nat, v: Word, lo: nat, hi: nat, f: Bool2f, x0: Word, s0: seq<Word>, p0: nat,
      x1: Word, s1: seq<Word>, p1: nat)
    requires w < |was| && lo <= hi <= 64 && p0 + (hi - lo) <= 64 * |s0| && p1 + (hi - lo) <= 64 * |s1|
    requires forall i :: 0 <= i < hi - lo ==> x0[i] == BitAt(s0, p0 + i) && x1[i] == BitAt(s1, p1 + i)
    requires forall i :: 0 <= i < 64 ==> v[i] == if lo <= i < hi then Apply2(f, x0[i - lo], x1[i - lo]) else was[w][i]
    ensures Done(was, was[w := v], 64 * w + lo, hi - lo, f, s0, p0, s1, p1)
  {
    hide Apply2;
    var now, d := was[w := v], 64 * w + lo;
    forall p | 0 <= p < 64 * |was|
      ensures BitAt(now, p) == if d <= p < d + (hi - lo)
                then Apply2(f, BitAt(s0, p0 + (p - d)), BitAt(s1, p1 + (p - d)))
                else BitAt(was, p)
    {
      if p / 64 == w {
        var i := p % 64;
        assert p == 64 * w + i;
        if lo <= i < hi { assert x0[i - lo] == BitAt(s0, p0 + (i - lo)); }
      }
    }
  }

  /** The bits of a destination word in its partial first word. */
  method Head(f: Bool2f, dst: array<Word>, d: nat, dstOffset: nat, size: nat, o0: nat, src0: array<Word>, j0: nat,
      o1: nat, src1: array<Word>, j1: nat)
      returns (o0': nat, j0': nat, o1': nat, j1': nat, within: bool)
    requires 0 < dstOffset < 64 && d < dst.Length && o0 < 64 && o1 < 64
    requires 64 * j0 + o0 + size <= 64 * src0.Length && 64 * j1 + o1 + size <= 64 * src1.Length
    modifies dst
    ensures Done(old(dst[..]), dst[..], 64 * d + dstOffset, if 64 - dstOffset > size then size else 64 - dstOffset, f,
                 old(src0[..]), 64 * j0 + o0, old(src1[..]), 64 * j1 + o1)
    ensures within <==> && j0 < src0.Length && (o0 > dstOffset ==> j0 + 1 < src0.Length)
                        && j1 < src1.Length && (o1 > dstOffset ==> j1 + 1 < src1.Length)
    ensures o0' < 64 && 64 * j0' + o0' == 64 * j0 + o0 + (64 - dstOffset)
    ensures o1' < 64 && 64 * j1' + o1' == 64 * j1 + o1 + (64 - dstOffset)
  {
    hide Done, Apply2, Masked, BitAt;
    ghost var was, s0, s1 := dst[..], src0[..], src1[..];
    var mask := Not(Mask(dstOffset));
    var firstWidth := 64 - dstOffset;
    var x0, x1;
    var within0, within1;
    x0, o0', j0', within0 := ReadBits(firstWidth, o0, src0, j0);
    x1, o1', j1', within1 := ReadBits(firstWidth, o1, src1, j1);
    within := within0 && within1;
    var y := Shl(Bitimg2(f, x0, x1), dstOffset);
    ghost var hi := 64;
    HeadMask(dst[d], f, x0, x1, dstOffset, size);
    if firstWidth > size {
      mask := And(mask, Mask(dstOffset + size));
      dst[d] := Or(And(dst[d], Not(mask)), And(y, mask));
      hi := dstOffset + size;
    } else {
      dst[d] := Or(And(dst[d], Not(mask)), y);
    }
    StoredPart(was, dst, d, dstOffset, hi, f, x0, s0, 64 * j0 + o0, x1, s1, 64 * j1 + o1);
  }

  /** `v` is `w` with the image in the bits from `lo` up to `hi`. */
  ghost predicate Masked(w: Word, v: Word, lo: nat, hi: nat, f: Bool2f, x0: Word, x1: Word) {
    forall i :: 0 <= i < 64 ==> v[i] == if lo <= i < hi then Apply2(f, x0[i - lo], x1[i - lo]) else w[i]
  }

  lemma HeadMask(w: Word, f: Bool2f, x0: Word, x1: Word, lo: nat, size: nat)
    requires 0 < lo < 64
    ensures var mask, y := Not(Mask(lo)), Shl(Bitimg2(f, x0, x1), lo);
            && Masked(w, Or(And(w, Not(mask)), y), lo, 64, f, x0, x1)
            && (64 - lo > size ==>
                  var m := And(mask, Mask(lo + size));
                  Masked(w, Or(And(w, Not(m)), And(y, m)), lo, lo + size, f, x0, x1))
  {
    hide Apply2;
  }

  lemma TailMask(w: Word, f: Bool2f, x0: Word, x1: Word, width: nat)
    requires 0 < width < 64
    ensures Masked(w, Or(And(w, Not(Mask(width))), And(Bitimg2(f, x0, x1), Mask(width))), 0, width, f, x0, x1)
  {
    hide Apply2;
  }

  lemma StoredPart(was: seq<Word>, dst: array<Word>, w: nat, lo: nat, hi: nat, f: Bool2f, x0: Word, s0: seq<Word>,
      p0: nat, x1: Word, s1: seq<Word>, p1: nat)
    requires w < dst.Length == |was| && lo <= hi <= 64 && p0 + (hi - lo) <= 64 * |s0| && p1 + (hi - lo) <= 64 * |s1|
    requires forall i :: 0 <= i < hi - lo ==> x0[i] == BitAt(s0, p0 + i) && x1[i] == BitAt(s1, p1 + i)
    requires Masked(was[w], dst[w], lo, hi, f, x0, x1) && forall k :: 0 <= k < dst.Length && k != w ==> dst[k] == was[k]
    ensures Done(was, dst[..], 64 * w + lo, hi - lo, f, s0, p0, s1, p1)
  {
    hide Done, Apply2;
    PartDone(was, w, dst[w], lo, hi, f, x0, s0, p0, x1, s1, p1);
    assert dst[..] == was[w := dst[w]];
  }

  /** The bits of a partial last word. */
  method Tail(f: Bool2f, dst: array<Word>, d: nat, lastWidth: nat, o0: nat, src0: array<Word>, j0: nat, o1: nat,
      src1: array<Word>, j1: nat)
    requires 0 < lastWidth < 64 && d < dst.Length && o0 < 64 && o1 < 64
    requires 64 * j0 + o0 + lastWidth <= 64 * src0.Length && 64 * j1 + o1 + lastWidth <= 64 * src1.Length
    modifies dst
    ensures Done(old(dst[..]), dst[..], 64 * d, lastWidth, f, old(src0[..]), 64 * j0 + o0, old(src1[..]), 64 * j1 + o1)
  {
    hide Done, Apply2, Masked, BitAt;
    ghost var was, s0, s1 := dst[..], src0[..], src1[..];
    var mask := Mask(lastWidth);
    var x0, x1, o, j, within0, within1;
    x0, o, j, within0 := ReadBits(lastWidth, o0, src0, j0);
    x1, o, j, within1 := ReadBits(lastWidth, o1, src1, j1);
    assert within0 && within1;
    var y := Bitimg2(f, x0, x1);
    TailMask(dst[d], f, x0, x1, lastWidth);
    dst[d] := Or(And(dst[d], Not(mask)), And(y, mask));
    StoredPart(was, dst, d, 0, lastWidth, f, x0, s0, 64 * j0 + o0, x1, s1, 64 * j1 + o1);
  }

  // --------------------------------------------------------------- whole slices

  /** The bits of a source that have not been used are what they were. */
  lemma StillIntact(dst: array<Word>, was: seq<Word>, d: nat, n: nat, more: nat, f: Bool2f, s0: seq<Word>, p0: nat,
      s1: seq<Word>, p1: nat, src: array<Word>, s: seq<Word>, p: nat)
    requires Done(was, dst[..], d, n, f, s0, p0, s1, p1)
    requires if src == dst then s == was && (n == 0 || more == 0 || d <= p || p + n + more <= d) else src[..] == s
    ensures SameBits(s, src[..], p + n, p + n + more)
  {}

  /** The whole words of a slice. */
  method Middle(f: Bool2f, count: nat, dst: array<Word>, d: nat, o0: nat, src0: array<Word>, j0: nat, o1: nat,
      src1: array<Word>, j1: nat)
    requires d + count <= dst.Length
    requires Reach(src0, j0, o0, count) && Reach(src1, j1, o1, count)
    modifies dst
    ensures Apart(dst, d, src0, j0, o0, count) && Apart(dst, d, src1, j1, o1, count) ==>
              Done(old(dst[..]), dst[..], 64 * d, 64 * count, f, old(src0[..]), 64 * j0 + o0, old(src1[..]),
                   64 * j1 + o1)
    ensures src0 == dst && f == 0xa && Fades(old(dst[..]), d, j0, o0, count) ==> Blank(dst[..])
  {
    hide Done, Patched, Images2, Fades, Blank;
    ghost var was, s0, s1 := dst[..], src0[..], src1[..];
    ghost var ok := Apart(dst, d, src0, j0, o0, count) && Apart(dst, d, src1, j1, o1, count);
    SkewcopyBitimg2(f, count, dst, d, o0, src0, j0, o1, src1, j1);
    if ok { WordsDone(was, dst[..], d, count, f, s0, j0, o0, s1, j1, o1); }
  }

  /** A source for `size` bits at the start of destination word `d`. */
  ghost predicate Ample(dst: array<Word>, d: nat, src: array<Word>, j: nat, o: nat, size: nat) {
    o < 64 && 64 * j + o + size <= 64 * src.Length
  }

  /** What `Clear` says of it. */
  ghost predicate Room(dst: array<Word>, d: nat, src: array<Word>, j: nat, o: nat, size: nat) {
    || src != dst || 64 * d <= 64 * j + o || 64 * j + o + size <= 64 * d || size <= 64
    || (o > 0 && d == j + 1 && size % 64 == 0)
  }

  lemma AmpleReach(dst: array<Word>, d: nat, src: array<Word>, j: nat, o: nat, size: nat)
    requires Ample(dst, d, src, j, o, size)
    ensures Reach(src, j, o, size / 64)
    ensures 64 * (j + size / 64) + o + size % 64 <= 64 * src.Length
    ensures 64 * (j + size / 64) + o == 64 * j + o + 64 * (size / 64)
    ensures Room(dst, d, src, j, o, size) ==> Apart(dst, d, src, j, o, size / 64)
    ensures Room(dst, d, src, j, o, size) && size % 64 > 0 ==>
              src != dst || size / 64 == 0 || 64 * d <= 64 * j + o || 64 * j + o + size <= 64 * d
  {}

  /** The bit that is overwritten before it is loaded if there is no room. */
  function NoRoomBit(d: nat, j: nat, o: nat, size: nat): nat {
    if o > 0 && d == j + 1 then 64 * j + o + 64 * (size / 64) else 64 * d
  }

  /** After the whole words that bit has gone. */
  lemma NoRoom(was: seq<Word>, mid: seq<Word>, dst: array<Word>, d: nat, j: nat, o: nat, size: nat, f: Bool2f)
    requires 64 * d + size <= 64 * dst.Length && Ample(dst, d, dst, j, o, size) && !Room(dst, d, dst, j, o, size)
    requires f == 0xa && OnlyBit(was, NoRoomBit(d, j, o, size))
    requires Apart(dst, d, dst, j, o, size / 64) ==>
               Done(was, mid, 64 * d, 64 * (size / 64), f, was, 64 * j + o, was, 64 * j + o)
    requires Fades(was, d, j, o, size / 64) ==> Blank(mid)
    ensures Blank(mid)
  {
    hide Done, OnlyBit, Blank;
    if o > 0 && d == j + 1 {
      DoneBlank(was, mid, 64 * d, 64 * (size / 64), 64 * j + o, was, 64 * j + o, NoRoomBit(d, j, o, size));
    } else {
      OnlyBitWords(was, 64 * d);
    }
  }

  /** The partial last word. */
  method Rest(f: Bool2f, size: nat, dst: array<Word>, d: nat, o0: nat, src0: array<Word>, j0: nat, o1: nat,
      src1: array<Word>, j1: nat, ghost ok: bool, ghost was: seq<Word>, ghost s0: seq<Word>, ghost s1: seq<Word>)
    requires 64 * d + size <= 64 * dst.Length && Ample(dst, d, src0, j0, o0, size) && Ample(dst, d, src1, j1, o1, size)
    requires size % 64 != 0 && (if src0 == dst then s0 == was else src0[..] == s0)
    requires if src1 == dst then s1 == was else src1[..] == s1
    requires ok ==> Room(dst, d, src0, j0, o0, size) && Room(dst, d, src1, j1, o1, size)
    requires ok ==>
               Done(was, dst[..], 64 * d, 64 * (size / 64), f, s0, 64 * j0 + o0, s1, 64 * j1 + o1)
    modifies dst
    ensures ok ==> Done(was, dst[..], 64 * d, size, f, s0, 64 * j0 + o0, s1, 64 * j1 + o1)
    ensures f == 0xa && src0 == dst && Blank(old(dst[..])) ==> Blank(dst[..])
  {
    hide Done, SameBits, Blank, OnlyBit, Room, Reach, Apart;
    var sizew, lastWidth := size / 64, size % 64;
    ghost var n, mid, t0, t1 := 64 * sizew, dst[..], src0[..], src1[..];
    ghost var p0, p1 := 64 * j0 + o0, 64 * j1 + o1;
    AmpleReach(dst, d, src0, j0, o0, size);
    AmpleReach(dst, d, src1, j1, o1, size);
    if ok {
      StillIntact(dst, was, 64 * d, n, lastWidth, f, s0, p0, s1, p1, src0, s0, p0);
      StillIntact(dst, was, 64 * d, n, lastWidth, f, s0, p0, s1, p1, src1, s1, p1);
    }
    Tail(f, dst, d + sizew, lastWidth, o0, src0, j0 + sizew, o1, src1, j1 + sizew);
    if ok { DoneThenDone(was, mid, dst[..], 64 * d, n, lastWidth, f, s0, t0, p0, s1, t1, p1); }
    if f == 0xa && src0 == dst && Blank(mid) {
      DoneBlank(mid, dst[..], 64 * (d + sizew), lastWidth, p0 + n, t1, p1 + n, 0);
    }
  }

  /** Contents with no bit, or only one that is overwritten before it is loaded. */
  ghost predicate Lost(was: seq<Word>, dst: array<Word>, d: nat, j: nat, o: nat, size: nat) {
    Blank(was) || (!Room(dst, d, dst, j, o, size) && OnlyBit(was, NoRoomBit(d, j, o, size)))
  }

  lemma LostMiddle(was: seq<Word>, mid: seq<Word>, dst: array<Word>, d: nat, j: nat, o: nat, size: nat, f: Bool2f)
    requires 64 * d + size <= 64 * dst.Length && Ample(dst, d, dst, j, o, size) && f == 0xa
    requires Lost(was, dst, d, j, o, size)
    requires Apart(dst, d, dst, j, o, size / 64) ==>
               Done(was, mid, 64 * d, 64 * (size / 64), f, was, 64 * j + o, was, 64 * j + o)
    requires Fades(was, d, j, o, size / 64) ==> Blank(mid)
    ensures Blank(mid)
  {
    hide Done, OnlyBit, Blank;
    if !Blank(was) { NoRoom(was, mid, dst, d, j, o, size, f); }
  }

  /** The whole words and the partial last word. */
  method Body(f: Bool2f, size: nat, dst: array<Word>, d: nat, o0: nat, src0: array<Word>, j0: nat, o1: nat,
      src1: array<Word>, j1: nat)
    requires 64 * d + size <= 64 * dst.Length && Ample(dst, d, src0, j0, o0, size) && Ample(dst, d, src1, j1, o1, size)
    modifies dst
    ensures Room(dst, d, src0, j0, o0, size) && Room(dst, d, src1, j1, o1, size) ==>
              Done(old(dst[..]), dst[..], 64 * d, size, f, old(src0[..]), 64 * j0 + o0, old(src1[..]), 64 * j1 + o1)
    ensures f == 0xa && src0 == src1 == dst && j0 == j1 && o0 == o1 ==>
              Lost(old(dst[..]), dst, d, j0, o0, size) ==> Blank(dst[..])
  {
    hide Done, SameBits, Fades, Blank, Apart, OnlyBit, Room, Lost, Reach;
    ghost var was, s0, s1 := dst[..], src0[..], src1[..];
    ghost var p0, p1 := 64 * j0 + o0, 64 * j1 + o1;
    ghost var ok := Room(dst, d, src0, j0, o0, size) && Room(dst, d, src1, j1, o1, size);
    ghost var lost := f == 0xa && src0 == src1 == dst && j0 == j1 && o0 == o1 && Lost(was, dst, d, j0, o0, size);
    AmpleReach(dst, d, src0, j0, o0, size);
    AmpleReach(dst, d, src1, j1, o1, size);
    var sizew := size / 64;
    Middle(f, sizew, dst, d, o0, src0, j0, o1, src1, j1);
    if lost { LostMiddle(was, dst[..], dst, d, j0, o0, size, f); }
    if size % 64 != 0 {
      Rest(f, size, dst, d, o0, src0, j0, o1, src1, j1, ok, was, s0, s1);
    }
  }

  ghost predicate Copied(f: Bool2f, dst: Slice, was: seq<Word>, now: seq<Word>, src0: Slice, s0: seq<Word>, src1: Slice,
      s1: seq<Word>)
  {
    Done(was, now, Position(dst), dst.size, f, s0, Position(src0), s1, Position(src1))
  }

  /** A destination that starts on a word boundary. */
  lemma Aligned(src: Slice, dst: Slice)
    requires InRange(dst) && SourceFor(src, dst) && dst.offset == 0
    ensures Ample(dst.arr, dst.start, src.arr, src.start, src.offset, dst.size)
    ensures Clear(src, dst) <==> Room(dst.arr, dst.start, src.arr, src.start, src.offset, dst.size)
    ensures !Clear(src, dst) ==>
              src.arr == dst.arr && Clobbered(src, dst) == NoRoomBit(dst.start, src.start, src.offset, dst.size)
  {}

  /** What is left of the slices after a partial first word. */
  lemma AfterHead(src: Slice, dst: Slice, j: nat, o: nat)
    requires InRange(dst) && SourceFor(src, dst) && dst.offset > 0 && dst.size >= 64 - dst.offset
    requires o < 64 && 64 * j + o == Position(src) + (64 - dst.offset)
    ensures Ample(dst.arr, dst.start + 1, src.arr, j, o, dst.size - (64 - dst.offset))
    ensures 64 * (dst.start + 1) == Position(dst) + (64 - dst.offset)
    ensures 64 * (dst.start + 1) + (dst.size - (64 - dst.offset)) <= 64 * dst.arr.Length
    ensures Clear(src, dst) ==>
              && Room(dst.arr, dst.start + 1, src.arr, j, o, dst.size - (64 - dst.offset))
              && (src.arr != dst.arr || dst.size == 64 - dst.offset || Position(dst) <= Position(src)
                  || Position(src) + dst.size <= Position(dst))
    ensures !Clear(src, dst) ==>
              && src.arr == dst.arr && Position(dst) <= Clobbered(src, dst) < Position(dst) + (64 - dst.offset)
              && Clobbered(src, dst) >= Position(src) + (64 - dst.offset)
  {}

  lemma FitsFirst(src: Slice, dst: Slice)
    requires 64 - dst.offset > dst.size && dst.offset < 64
    ensures Clear(src, dst)
  {}

  /** What follows a partial first word that has been copied from contents `was`, `s0` and
      `s1`. */
  method Onward(f: Bool2f, dst: Slice, src0: Slice, src1: Slice, o0: nat, j0: nat, o1: nat, j1: nat,
      ghost was: seq<Word>, ghost s0: seq<Word>, ghost s1: seq<Word>)
    requires InRange(dst) && SourceFor(src0, dst) && SourceFor(src1, dst)
    requires 0 < dst.offset < 64 && 64 - dst.offset <= dst.size
    requires o0 < 64 && 64 * j0 + o0 == Position(src0) + (64 - dst.offset)
    requires o1 < 64 && 64 * j1 + o1 == Position(src1) + (64 - dst.offset)
    requires if src0.arr == dst.arr then s0 == was else src0.arr[..] == s0
    requires if src1.arr == dst.arr then s1 == was else src1.arr[..] == s1
    requires Done(was, dst.arr[..], Position(dst), 64 - dst.offset, f, s0, Position(src0), s1, Position(src1))
    modifies dst.arr
    ensures Clear(src0, dst) && Clear(src1, dst) ==> Copied(f, dst, was, dst.arr[..], src0, s0, src1, s1)
    ensures f == 0xa && src0 == src1 && !Clear(src0, dst) && OnlyBit(was, Clobbered(src0, dst)) ==> Blank(dst.arr[..])
  {
    hide Done, SameBits, Blank, OnlyBit, Clear, Clobbered, Room, Ample, NoRoomBit, Position, InRange, SourceFor;
    AfterHead(src0, dst, j0, o0);
    AfterHead(src1, dst, j1, o1);
    ghost var mid, t0, t1 := dst.arr[..], src0.arr[..], src1.arr[..];
    ghost var from, n, p0, p1 := Position(dst), 64 - dst.offset, Position(src0), Position(src1);
    var size := dst.size - (64 - dst.offset);
    ghost var ok := Clear(src0, dst) && Clear(src1, dst);
    if ok {
      StillIntact(dst.arr, was, from, n, size, f, s0, p0, s1, p1, src0.arr, s0, p0);
      StillIntact(dst.arr, was, from, n, size, f, s0, p0, s1, p1, src1.arr, s1, p1);
    }
    if f == 0xa && src0 == src1 && !Clear(src0, dst) && OnlyBit(was, Clobbered(src0, dst)) {
      DoneBlank(was, mid, from, n, p0, s1, p1, Clobbered(src0, dst));
    }
    Body(f, size, dst.arr, dst.start + 1, o0, src0.arr, j0, o1, src1.arr, j1);
    if ok { DoneThenDone(was, mid, dst.arr[..], from, n, size, f, s0, t0, p0, s1, t1, p1); }
  }

  /** Bit `i` of the destination becomes the image of bits `i` of clear sources, for all bits
      of the slice and no others, whatever may be loaded from behind a source; a clobbered
      bit of a source is not found. Tells whether all words that were loaded are words of
      the sources. */
  method CopyBool2f(f: Bool2f, dst: Slice, src0: Slice, src1: Slice) returns (within: bool)
    requires InRange(dst) && SourceFor(src0, dst) && SourceFor(src1, dst)
    modifies dst.arr
    ensures Clear(src0, dst) && Clear(src1, dst) ==>
              Copied(f, dst, old(dst.arr[..]), dst.arr[..], src0, old(src0.arr[..]), src1, old(src1.arr[..]))
    ensures f == 0xa && src0 == src1 && !Clear(src0, dst) && OnlyBit(old(dst.arr[..]), Clobbered(src0, dst)) ==>
              Blank(dst.arr[..])
    ensures within <==> LoadsWithin(src0, dst) && LoadsWithin(src1, dst)
  {
    hide Done, Blank, OnlyBit, Clear, Clobbered, Room, Ample, NoRoomBit;
    ghost var was, s0, s1 := dst.arr[..], src0.arr[..], src1.arr[..];
    within := true;
    if dst.offset != 0 {
      EmptyAtEnd(dst);
      var o0, j0, o1, j1;
      o0, j0, o1, j1, within := Head(f, dst.arr, dst.start, dst.offset, dst.size, src0.offset, src0.arr, src0.start,
        src1.offset, src1.arr, src1.start);
      if 64 - dst.offset > dst.size {
        FitsFirst(src0, dst);
        return;
      }
      Onward(f, dst, src0, src1, o0, j0, o1, j1, was, s0, s1);
    } else {
      Aligned(src0, dst);
      Aligned(src1, dst);
      Body(f, dst.size, dst.arr, dst.start, src0.offset, src0.arr, src0.start, src1.offset, src1.arr, src1.start);
    }
  }

  lemma EmptyAtEnd(sl: Slice)
    requires InRange(sl) && sl.offset > 0
    ensures sl.start < sl.arr.Length
  {}

  /** Each bit of the destination becomes the image of itself and of the bit of a clear
      source; of the destination only its own words are loaded. */
  method UpdateBool2f(f: Bool2f, dst: Slice, src1: Slice) returns (within: bool)
    requires InRange(dst) && SourceFor(src1, dst)
    modifies dst.arr
    ensures Clear(src1, dst) ==>
              Copied(f, dst, old(dst.arr[..]), dst.arr[..], dst, old(dst.arr[..]), src1, old(src1.arr[..]))
    ensures within <==> LoadsWithin(src1, dst)
  {
    within := CopyBool2f(f, dst, dst, src1);
  }

  /** For every source that is not clear there are contents of the array that are not
      copied right. */
  method CopyClobbers(dst: Slice, src: Slice) returns (ghost before: seq<Word>)
    requires InRange(dst) && SourceFor(src, dst) && !Clear(src, dst)
    modifies dst.arr
    ensures !Copied(0xa, dst, before, dst.arr[..], src, before, src, before)
  {
    hide Blank, OnlyBit;
    var p := Clobbered(src, dst);
    SetOnly(dst.arr, p);
    before := dst.arr[..];
    var within := CopyBool2f(0xa, dst, src, src);
    NotCopied(dst, src, before, dst.arr[..]);
  }

  method SetOnly(arr: array<Word>, p: nat)
    requires p / 64 < arr.Length
    modifies arr
    ensures OnlyBit(arr[..], p) && BitAt(arr[..], p)
  {
    forall k | 0 <= k < arr.Length { arr[k] := Const(false); }
    arr[p / 64] := Shl(Mask(1), p % 64);
  }

  lemma NotCopied(dst: Slice, src: Slice, before: seq<Word>, now: seq<Word>)
    requires InRange(dst) && SourceFor(src, dst) && !Clear(src, dst) && |before| == |now| == dst.arr.Length
    requires Clobbered(src, dst) / 64 < |before| && BitAt(before, Clobbered(src, dst)) && Blank(now)
    ensures !Copied(0xa, dst, before, now, src, before, src, before)
  {
    BlankBits(now);
    hide BitAt, Blank, Done;
    var i := Clobbered(src, dst) - Position(src);
    if Copied(0xa, dst, before, now, src, before, src, before) {
      DoneAt(before, now, Position(dst), dst.size, before, Position(src), before, Position(src), Position(dst) + i);
      assert false;
    }
  }

  /** The last four bits of a single word, copied to bit 1 of a word: the copy loads the
      word behind the source. */
  method LoadsBehindSource() returns (within: bool)
    ensures !within
  {
    var word, to := new Word[1], new Word[1];
    var src, dst := Slice(word, 0, 60, 4), Slice(to, 0, 1, 4);
    within := CopyBool2f(0x8, dst, src, src);
  }
}
