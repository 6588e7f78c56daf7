/** Words as bits, and copying arrays of them from unaligned sources. */
module Words {
  /** The width of a word. */
  const WIDTH: nat := 64

  /** The bits of a word from the lowest. */
  type Word = w: seq<bool> | |w| == 64 witness seq(64, _ => false)

  function Not(x: Word): (r: Word)
    ensures forall i :: 0 <= i < 64 ==> r[i] == !x[i]
  {
    seq(64, i requires 0 <= i < 64 => !x[i])
  }

  function And(x: Word, y: Word): (r: Word)
    ensures forall i :: 0 <= i < 64 ==> r[i] == (x[i] && y[i])
  {
    seq(64, i requires 0 <= i < 64 => x[i] && y[i])
  }

  function Or(x: Word, y: Word): (r: Word)
    ensures forall i :: 0 <= i < 64 ==> r[i] == (x[i] || y[i])
  {
    seq(64, i requires 0 <= i < 64 => x[i] || y[i])
  }

  function Xor(x: Word, y: Word): (r: Word)
    ensures forall i :: 0 <= i < 64 ==> r[i] == (x[i] != y[i])
  {
    seq(64, i requires 0 <= i < 64 => x[i] != y[i])
  }

  /** `x >> c` */
  function Shr(x: Word, c: nat): (r: Word)
    requires c < 64
    ensures forall i :: 0 <= i < 64 ==> r[i] == (i + c < 64 && x[i + c])
  {
    seq(64, i requires 0 <= i < 64 => i + c < 64 && x[i + c])
  }

  /** `x << c` */
  function Shl(x: Word, c: nat): (r: Word)
    requires c < 64
    ensures forall i :: 0 <= i < 64 ==> r[i] == (i >= c && x[i - c])
  {
    seq(64, i requires 0 <= i < 64 => i >= c && x[i - c])
  }

  /** `(1 << c) - 1`: the `c` lowest bits. */
  function Mask(c: nat): (r: Word)
    requires c < 64
    ensures forall i :: 0 <= i < 64 ==> r[i] == (i < c)
  {
    seq(64, i requires 0 <= i < 64 => i < c)
  }

  function Const(b: bool): (r: Word)
    ensures forall i :: 0 <= i < 64 ==> r[i] == b
  {
    seq(64, i => b)
  }

  // ---------------------------------------------------------- boolean functions

  /** Unary and binary boolean functions are numbered by their truth tables. */
  type Bool1f = f: nat | f < 4
  type Bool2f = f: nat | f < 16

  const FALSE1: Bool1f := 0x0
  const TRUE1: Bool1f := 0x3
  const IDENT: Bool1f := 0x2
  const NOT: Bool1f := 0x1

  function Apply1(f: Bool1f, x: bool): bool {
    (if x then f / 2 else f) % 2 == 1
  }

  function Apply2(f: Bool2f, x: bool, y: bool): bool {
    (if x && y then f / 8 else if y then f / 4 else if x then f / 2 else f) % 2 == 1
  }

  function Bit(b: bool): nat {
    if b then 1 else 0
  }

  /** A number is the truth table of its function. */
  lemma TruthTable1(f: Bool1f)
    ensures f == Bit(Apply1(f, false)) + 2 * Bit(Apply1(f, true))
    ensures forall x :: Apply1(3 - f, x) == !Apply1(f, x)
  {}

  lemma TruthTable2(f: Bool2f)
    ensures f == Bit(Apply2(f, false, false)) + 2 * Bit(Apply2(f, true, false))
                 + 4 * Bit(Apply2(f, false, true)) + 8 * Bit(Apply2(f, true, true))
  {
    var a, b, c := f / 2, f / 4, f / 8;
    assert b == a / 2 && c == b / 2;
    assert f == 2 * a + f % 2 && a == 2 * b + a % 2 && b == 2 * c + b % 2;
  }

  lemma Complement2(f: Bool2f, x: bool, y: bool)
    ensures Apply2(15 - f, x, y) == !Apply2(f, x, y)
  {
    if x && y {
      assert (15 - f) / 8 == 1 - f / 8;
    } else if y {
      assert (15 - f) / 4 == 3 - f / 4;
    } else if x {
      assert (15 - f) / 2 == 7 - f / 2;
    }
  }

  /** The functions that have names. */
  lemma NamedFunctions(x: bool, y: bool)
    ensures !Apply2(0x0, x, y) && Apply2(0xf, x, y)
    ensures Apply2(0xa, x, y) == x && Apply2(0xc, x, y) == y && Apply2(0x5, x, y) == !x && Apply2(0x3, x, y) == !y
    ensures Apply2(0x8, x, y) == (x && y) && Apply2(0x7, x, y) == !(x && y)
    ensures Apply2(0xe, x, y) == (x || y) && Apply2(0x1, x, y) == !(x || y)
    ensures Apply2(0x6, x, y) == (x != y) && Apply2(0x9, x, y) == (x == y)
    ensures Apply2(0x2, x, y) == (x && !y) && Apply2(0x4, x, y) == (!x && y)
    ensures Apply2(0xb, x, y) == (x || !y) && Apply2(0xd, x, y) == (!x || y)
  {}

  /** `(f & 9) | ((f & 2) << 1) | ((f & 4) >> 1)` */
  function Swap(f: Bool2f): Bool2f {
    f % 2 + 2 * (f / 4 % 2) + 4 * (f / 2 % 2) + 8 * (f / 8 % 2)
  }

  lemma SwapApplies(f: Bool2f, x: bool, y: bool)
    ensures Apply2(Swap(f), x, y) == Apply2(f, y, x)
  {}

  function Bitimg(f: Bool1f, x: Word): (r: Word)
    ensures forall i :: 0 <= i < 64 ==> r[i] == Apply1(f, x[i])
  {
    if f % 2 == 1 then (if f / 2 % 2 == 1 then Not(Const(false)) else Not(x))
    else (if f / 2 % 2 == 1 then x else Const(false))
  }

  function Bitimg2(f: Bool2f, x: Word, y: Word): (r: Word)
    ensures forall i :: 0 <= i < 64 ==> r[i] == Apply2(f, x[i], y[i])
  {
    var g := if f >= 8 then 15 - f else f;
    var r :=
      if g == 0 then Const(false)
      else if g == 1 then And(Not(x), Not(y))
      else if g == 2 then And(x, Not(y))
      else if g == 3 then Not(y)
      else if g == 4 then And(Not(x), y)
      else if g == 5 then Not(x)
      else if g == 6 then Xor(x, y)
      else Not(And(x, y));
    if f >= 8 then Not(r) else r
  }

  /** The operators of the loops over words, for the functions of two arguments. */
  function WordOp(f: Bool2f, x: Word, y: Word): (r: Word)
    requires Proper(f)
    ensures forall i :: 0 <= i < 64 ==> r[i] == Apply2(f, x[i], y[i])
  {
    if f == 0x1 then Not(Or(x, y))
    else if f == 0x6 then Xor(x, y)
    else if f == 0x7 then Not(And(x, y))
    else if f == 0x8 then And(x, y)
    else if f == 0x9 then Not(Xor(x, y))
    else if f == 0xe then Or(x, y)
    else if f == 0x4 then And(Not(x), y)
    else if f == 0x2 then And(x, Not(y))
    else if f == 0xd then Or(Not(x), y)
    else Or(x, Not(y))
  }

  // ---------------------------------------------------------------- bit arrays

  /** Bit number `p` of an array of words. */
  function BitAt(s: seq<Word>, p: nat): bool
    requires p / 64 < |s|
  {
    s[p / 64][p % 64]
  }

  /** `(a >> o) | (b << (64 - o))` */
  function Joined(a: Word, b: Word, o: nat): Word
    requires 0 < o < 64
  {
    Or(Shr(a, o), Shl(b, 64 - o))
  }

  /** The word of bits from bit `o` of word `j`. */
  function Skew(s: seq<Word>, j: nat, o: nat): Word
    requires o < 64 && j + (if o == 0 then 0 else 1) < |s|
  {
    if o == 0 then s[j] else Joined(s[j], s[j + 1], o)
  }

  lemma SkewBits(s: seq<Word>, j: nat, o: nat, i: nat)
    requires o < 64 && j + (if o == 0 then 0 else 1) < |s| && i < 64
    ensures (64 * j + o + i) / 64 < |s| && Skew(s, j, o)[i] == BitAt(s, 64 * j + o + i)
  {
    assert (64 * j + o + i) / 64 == if o + i < 64 then j else j + 1;
    assert (64 * j + o + i) % 64 == if o + i < 64 then o + i else o + i - 64;
  }

  /** The words that a source of `count` words at bit `o` takes up. */
  function Span(o: nat, count: nat): nat {
    count + if o == 0 then 0 else 1
  }

  /** A source of which no word is loaded after it has been written: one in another array,
      or in the same array one that ends before the destination or starts after it but for
      the word that is loaded ahead. */
  ghost predicate Apart(dst: array<Word>, d: nat, src: array<Word>, j: nat, o: nat, count: nat) {
    src != dst || d <= j + Span(o, 0) || j + Span(o, count) <= d
  }

  ghost predicate Zero(w: Word) {
    forall i :: 0 <= i < 64 ==> !w[i]
  }

  /** Only word `d` may have bits. */
  ghost predicate BlankBut(s: seq<Word>, d: nat) {
    forall k :: 0 <= k < |s| && k != d ==> Zero(s[k])
  }

  ghost predicate Blank(s: seq<Word>) {
    forall k :: 0 <= k < |s| ==> Zero(s[k])
  }

  /** Contents of an array that a copy from `j` to `d` within it leaves blank: nothing, or
      bits of word `d` that are overwritten before they are loaded. */
  ghost predicate Fades(s: seq<Word>, d: nat, j: nat, o: nat, count: nat) {
    Blank(s) || (count > 0 && j + Span(o, 0) < d && BlankBut(s, d))
  }

  /** The words of a source that a loop may read. */
  ghost predicate Reach(src: array<Word>, j: nat, o: nat, count: nat) {
    o < 64 && j + Span(o, count) <= src.Length
  }

  /** A sequence with the words `ws` from index `d`. */
  function Patched(s: seq<Word>, d: nat, ws: seq<Word>): (r: seq<Word>)
    requires d + |ws| <= |s|
    ensures |r| == |s|
  {
    s[..d] + ws + s[d + |ws|..]
  }

  /** The words from bit `o` of word `j`, under a function. */
  function Images(f: Bool1f, s: seq<Word>, j: nat, o: nat, count: nat): (ws: seq<Word>)
    requires o < 64 && j + count + (if o == 0 then 0 else 1) <= |s|
    ensures |ws| == count
  {
    if count == 0 then [] else Images(f, s, j, o, count - 1) + [Bitimg(f, Skew(s, j + count - 1, o))]
  }

  /** The pairs of words from bit `o0` of word `j0` and bit `o1` of word `j1`, under a function. */
  function Images2(f: Bool2f, s0: seq<Word>, j0: nat, o0: nat, s1: seq<Word>, j1: nat, o1: nat,
      count: nat): (ws: seq<Word>)
    requires o0 < 64 && j0 + count + (if o0 == 0 then 0 else 1) <= |s0|
    requires o1 < 64 && j1 + count + (if o1 == 0 then 0 else 1) <= |s1|
    ensures |ws| == count
  {
    if count == 0 then []
    else
      Images2(f, s0, j0, o0, s1, j1, o1, count - 1)
      + [Bitimg2(f, Skew(s0, j0 + count - 1, o0), Skew(s1, j1 + count - 1, o1))]
  }

  lemma Same(x: Word, y: Word)
    requires forall i :: 0 <= i < 64 ==> x[i] == y[i]
    ensures x == y
  {}

  /** Writes the next word of a run of words from index `d`, of which the words before are
      known if `ok`. */
  method Store(dst: array<Word>, d: nat, i: nat, x: Word, ghost was: seq<Word>, ghost ws: seq<Word>, ghost ok: bool)
    requires |was| == dst.Length && |ws| == i && d + i < dst.Length && (ok ==> dst[..] == Patched(was, d, ws))
    modifies dst
    ensures ok ==> dst[..] == Patched(was, d, ws + [x])
    ensures dst[..] == old(dst[..])[d + i := x]
  {
    dst[d + i] := x;
  }

  /** The next word of a source has not been written. */
  lemma Unwritten(dst: array<Word>, d: nat, i: nat, count: nat, src: array<Word>, j: nat, o: nat, s: seq<Word>,
      was: seq<Word>, ws: seq<Word>)
    requires |was| == dst.Length && |ws| == i < count && d + i <= dst.Length && dst[..] == Patched(was, d, ws)
    requires Apart(dst, d, src, j, o, count) && if src == dst then s == was else src[..] == s
    requires j + Span(o, i) < src.Length
    ensures src.Length == |s| && src[j + Span(o, i)] == s[j + Span(o, i)]
  {
    if src == dst {
      assert forall k :: 0 <= k < |was| && !(d <= k < d + i) ==> dst[..][k] == was[k];
    }
  }

  /** What a fading copy leaves of the array after `i` words. */
  ghost predicate Fading(s: seq<Word>, d: nat, j: nat, o: nat, count: nat, i: nat) {
    if i == 0 then Fades(s, d, j, o, count) else Blank(s)
  }

  lemma FadeStart(s: seq<Word>, d: nat, j: nat, o: nat, count: nat)
    ensures Fading(s, d, j, o, count, 0) <==> Fades(s, d, j, o, count)
  {}

  /** The words that it loads up to then have no bits. */
  lemma FadedLoad(s: seq<Word>, d: nat, j: nat, o: nat, count: nat, i: nat, k: nat)
    requires Fading(s, d, j, o, count, i) && k < |s| && (i == 0 ==> k <= j + Span(o, 0))
    ensures Zero(s[k])
  {}

  lemma FadedStore(s: seq<Word>, d: nat, j: nat, o: nat, count: nat, i: nat, x: Word)
    requires Fading(s, d, j, o, count, i) && d + i < |s| && Zero(x)
    ensures Fading(s[d + i := x], d, j, o, count, i + 1)
  {}

  lemma FadedOut(s: seq<Word>, d: nat, j: nat, o: nat, count: nat)
    requires Fading(s, d, j, o, count, count)
    ensures Blank(s)
  {}

  lemma PatchNone(s: seq<Word>, d: nat)
    requires d <= |s|
    ensures Patched(s, d, []) == s
  {}

  method Fill(count: nat, dst: array<Word>, d: nat, val: Word)
    requires d + count <= dst.Length
    modifies dst
    ensures dst[..] == Patched(old(dst[..]), d, seq(count, _ => val))
  {
    hide Patched;
    var i := 0;
    ghost var was, ws := dst[..], [];
    PatchNone(was, d);
    while i < count
      invariant 0 <= i <= count && |ws| == i && ws == seq(i, _ => val) && dst[..] == Patched(was, d, ws)
    {
      Store(dst, d, i, val, was, ws, true);
      ws := ws + [val];
      i := i + 1;
    }
  }

  /** `*dst++ = x` or `*dst++ = ~x`, the next word of the image if `ok`. */
  method PutImage(f: Bool1f, dst: array<Word>, d: nat, i: nat, x: Word, ghost ok: bool, ghost was: seq<Word>,
      ghost s: seq<Word>, ghost j: nat, ghost o: nat)
    requires f == IDENT || f == NOT
    requires d + i < dst.Length == |was| && o < 64 && j + Span(o, i) < |s|
    requires ok ==> dst[..] == Patched(was, d, Images(f, s, j, o, i)) && x == Skew(s, j + i, o)
    modifies dst
    ensures ok ==> dst[..] == Patched(was, d, Images(f, s, j, o, i + 1))
    ensures f == IDENT ==> dst[..] == old(dst[..])[d + i := x]
  {
    hide Patched, Skew, Not, Bitimg;
    Image(f, s, j + i, o);
    Store(dst, d, i, if f == IDENT then x else Not(x), was, Images(f, s, j, o, i), ok);
  }

  /** Copies words from an unaligned source, as they are or negated. */
  method Skewcopy(f: Bool1f, count: nat, dst: array<Word>, d: nat, o: nat, src: array<Word>, j: nat)
    requires f == IDENT || f == NOT
    requires d + count <= dst.Length && Reach(src, j, o, count)
    modifies dst
    ensures Apart(dst, d, src, j, o, count) ==>
              dst[..] == Patched(old(dst[..]), d, Images(f, old(src[..]), j, o, count))
    ensures src == dst && f == IDENT && Fades(old(dst[..]), d, j, o, count) ==> Blank(dst[..])
  {
    hide Patched, Images, Joined, Zero, Fades, Fading, Blank;
    if o == 0 {
      Copy(f, count, dst, d, src, j);
      return;
    }
    var i := 0;
    ghost var was, s := dst[..], src[..];
    ghost var ok, fades := Apart(dst, d, src, j, o, count), src == dst && f == IDENT && Fades(was, d, j, o, count);
    PatchNone(was, d);
    FadeStart(was, d, j, o, count);
    var a := src[j];
    if fades { FadedLoad(was, d, j, o, count, 0, j); }
    while i < count
      invariant 0 <= i <= count && (src == dst || src[..] == s)
      invariant ok ==> dst[..] == Patched(was, d, Images(f, s, j, o, i)) && a == s[j + i]
      invariant fades ==> Fading(dst[..], d, j, o, count, i) && Zero(a)
    {
      if ok { Unwritten(dst, d, i, count, src, j, o, s, was, Images(f, s, j, o, i)); }
      var b := src[j + i + 1];
      var x := Joined(a, b, o);
      if fades {
        FadedLoad(dst[..], d, j, o, count, i, j + i + 1);
        JoinedZero(a, b, o);
        FadedStore(dst[..], d, j, o, count, i, x);
      }
      PutImage(f, dst, d, i, x, ok, was, s, j, o);
      a := b;
      i := i + 1;
    }
    if fades { FadedOut(dst[..], d, j, o, count); }
  }

  lemma JoinedZero(a: Word, b: Word, o: nat)
    requires Zero(a) && Zero(b) && 0 < o < 64
    ensures Zero(Joined(a, b, o))
  {}

  lemma Image(f: Bool1f, s: seq<Word>, j: nat, o: nat)
    requires o < 64 && j + (if o == 0 then 0 else 1) < |s|
    ensures f == IDENT ==> Bitimg(f, Skew(s, j, o)) == Skew(s, j, o)
    ensures f == NOT ==> Bitimg(f, Skew(s, j, o)) == Not(Skew(s, j, o))
  {
    if f == IDENT { Same(Bitimg(f, Skew(s, j, o)), Skew(s, j, o)); }
    if f == NOT { Same(Bitimg(f, Skew(s, j, o)), Not(Skew(s, j, o))); }
  }

  method Copy(f: Bool1f, count: nat, dst: array<Word>, d: nat, src: array<Word>, j: nat)
    requires f == IDENT || f == NOT
    requires d + count <= dst.Length && Reach(src, j, 0, count)
    modifies dst
    ensures Apart(dst, d, src, j, 0, count) ==>
              dst[..] == Patched(old(dst[..]), d, Images(f, old(src[..]), j, 0, count))
    ensures src == dst && f == IDENT && Fades(old(dst[..]), d, j, 0, count) ==> Blank(dst[..])
  {
    hide Patched, Images, Joined, Zero, Fades, Fading, Blank;
    var i := 0;
    ghost var was, s := dst[..], src[..];
    ghost var ok, fades := Apart(dst, d, src, j, 0, count), src == dst && f == IDENT && Fades(was, d, j, 0, count);
    PatchNone(was, d);
    FadeStart(was, d, j, 0, count);
    while i < count
      invariant 0 <= i <= count && (src == dst || src[..] == s)
      invariant ok ==> dst[..] == Patched(was, d, Images(f, s, j, 0, i))
      invariant fades ==> Fading(dst[..], d, j, 0, count, i)
    {
      if ok { Unwritten(dst, d, i, count, src, j, 0, s, was, Images(f, s, j, 0, i)); }
      if fades {
        FadedLoad(dst[..], d, j, 0, count, i, j + i);
        FadedStore(dst[..], d, j, 0, count, i, src[j + i]);
      }
      PutImage(f, dst, d, i, src[j + i], ok, was, s, j, 0);
      i := i + 1;
    }
    if fades { FadedOut(dst[..], d, j, 0, count); }
  }

  /** Whether a function takes both its arguments into account. */
  predicate Proper(f: Bool2f) {
    f !in {0x0, 0xf, 0xa, 0xc, 0x5, 0x3}
  }

  lemma OpImage(f: Bool2f, x: Word, y: Word)
    requires Proper(f)
    ensures WordOp(f, x, y) == Bitimg2(f, x, y)
  {
    Same(WordOp(f, x, y), Bitimg2(f, x, y));
  }

  /** `*dst++ = op(x0, x1)`, the next word of the image if `ok`. */
  method Put(f: Bool2f, dst: array<Word>, d: nat, i: nat, x0: Word, x1: Word, ghost ok: bool, ghost was: seq<Word>,
      ghost s0: seq<Word>, ghost j0: nat, ghost o0: nat, ghost s1: seq<Word>, ghost j1: nat, ghost o1: nat)
    requires Proper(f) && d + i < dst.Length == |was| && o0 < 64 && j0 + Span(o0, i) < |s0|
    requires o1 < 64 && j1 + Span(o1, i) < |s1|
    requires ok ==> dst[..] == Patched(was, d, Images2(f, s0, j0, o0, s1, j1, o1, i))
    requires ok ==> x0 == Skew(s0, j0 + i, o0) && x1 == Skew(s1, j1 + i, o1)
    modifies dst
    ensures ok ==> dst[..] == Patched(was, d, Images2(f, s0, j0, o0, s1, j1, o1, i + 1))
  {
    hide Patched, WordOp, Bitimg2, Skew;
    OpImage(f, x0, x1);
    Store(dst, d, i, WordOp(f, x0, x1), was, Images2(f, s0, j0, o0, s1, j1, o1, i), ok);
  }

  /** The image of two aligned sources under a proper binary function. */
  method CopyBitimg2(f: Bool2f, count: nat, dst: array<Word>, d: nat, src0: array<Word>, j0: nat, src1: array<Word>,
      j1: nat)
    requires Proper(f) && d + count <= dst.Length
    requires Reach(src0, j0, 0, count) && Reach(src1, j1, 0, count)
    modifies dst
    ensures Apart(dst, d, src0, j0, 0, count) && Apart(dst, d, src1, j1, 0, count) ==>
              dst[..] == Patched(old(dst[..]), d, Images2(f, old(src0[..]), j0, 0, old(src1[..]), j1, 0, count))
  {
    hide Patched, Images2, Joined;
    var i := 0;
    ghost var was, s0, s1 := dst[..], src0[..], src1[..];
    ghost var ok := Apart(dst, d, src0, j0, 0, count) && Apart(dst, d, src1, j1, 0, count);
    PatchNone(was, d);
    while i < count
      invariant 0 <= i <= count && (src0 == dst || src0[..] == s0) && (src1 == dst || src1[..] == s1)
      invariant ok ==> dst[..] == Patched(was, d, Images2(f, s0, j0, 0, s1, j1, 0, i))
    {
      ghost var ws := Images2(f, s0, j0, 0, s1, j1, 0, i);
      if ok {
        Unwritten(dst, d, i, count, src0, j0, 0, s0, was, ws);
        Unwritten(dst, d, i, count, src1, j1, 0, s1, was, ws);
      }
      Put(f, dst, d, i, src0[j0 + i], src1[j1 + i], ok, was, s0, j0, 0, s1, j1, 0);
      i := i + 1;
    }
  }

  /** The image of an aligned source and an unaligned one. */
  method Semiskew(f: Bool2f, count: nat, dst: array<Word>, d: nat, src0: array<Word>, j0: nat, o1: nat,
      src1: array<Word>, j1: nat)
    requires Proper(f) && d + count <= dst.Length && o1 > 0
    requires Reach(src0, j0, 0, count) && Reach(src1, j1, o1, count)
    modifies dst
    ensures Apart(dst, d, src0, j0, 0, count) && Apart(dst, d, src1, j1, o1, count) ==>
              dst[..] == Patched(old(dst[..]), d, Images2(f, old(src0[..]), j0, 0, old(src1[..]), j1, o1, count))
  {
    hide Patched, Images2, Joined;
    var i := 0;
    ghost var was, s0, s1 := dst[..], src0[..], src1[..];
    ghost var ok := Apart(dst, d, src0, j0, 0, count) && Apart(dst, d, src1, j1, o1, count);
    PatchNone(was, d);
    var a1 := src1[j1];
    while i < count
      invariant 0 <= i <= count && (src0 == dst || src0[..] == s0) && (src1 == dst || src1[..] == s1)
      invariant ok ==> dst[..] == Patched(was, d, Images2(f, s0, j0, 0, s1, j1, o1, i)) && a1 == s1[j1 + i]
    {
      ghost var ws := Images2(f, s0, j0, 0, s1, j1, o1, i);
      if ok {
        Unwritten(dst, d, i, count, src0, j0, 0, s0, was, ws);
        Unwritten(dst, d, i, count, src1, j1, o1, s1, was, ws);
      }
      var b1 := src1[j1 + i + 1];
      var x1 := Joined(a1, b1, o1);
      Put(f, dst, d, i, src0[j0 + i], x1, ok, was, s0, j0, 0, s1, j1, o1);
      a1 := b1;
      i := i + 1;
    }
  }

  /** The image of two unaligned sources. */
  method SkewBoth(f: Bool2f, count: nat, dst: array<Word>, d: nat, o0: nat, src0: array<Word>, j0: nat, o1: nat,
      src1: array<Word>, j1: nat)
    requires Proper(f) && d + count <= dst.Length && o0 > 0 && o1 > 0
    requires Reach(src0, j0, o0, count) && Reach(src1, j1, o1, count)
    modifies dst
    ensures Apart(dst, d, src0, j0, o0, count) && Apart(dst, d, src1, j1, o1, count) ==>
              dst[..] == Patched(old(dst[..]), d, Images2(f, old(src0[..]), j0, o0, old(src1[..]), j1, o1, count))
  {
    hide Patched, Images2, Joined;
    var i := 0;
    ghost var was, s0, s1 := dst[..], src0[..], src1[..];
    ghost var ok := Apart(dst, d, src0, j0, o0, count) && Apart(dst, d, src1, j1, o1, count);
    PatchNone(was, d);
    var a0, a1 := src0[j0], src1[j1];
    while i < count
      invariant 0 <= i <= count && (src0 == dst || src0[..] == s0) && (src1 == dst || src1[..] == s1)
      invariant ok ==> dst[..] == Patched(was, d, Images2(f, s0, j0, o0, s1, j1, o1, i))
      invariant ok ==> a0 == s0[j0 + i] && a1 == s1[j1 + i]
    {
      ghost var ws := Images2(f, s0, j0, o0, s1, j1, o1, i);
      if ok {
        Unwritten(dst, d, i, count, src0, j0, o0, s0, was, ws);
        Unwritten(dst, d, i, count, src1, j1, o1, s1, was, ws);
      }
      var b0, b1 := src0[j0 + i + 1], src1[j1 + i + 1];
      var x0 := Joined(a0, b0, o0);
      var x1 := Joined(a1, b1, o1);
      Put(f, dst, d, i, x0, x1, ok, was, s0, j0, o0, s1, j1, o1);
      a0, a1 := b0, b1;
      i := i + 1;
    }
  }

  lemma {:induction false} ImagesConst(f: Bool2f, s0: seq<Word>, j0: nat, o0: nat, s1: seq<Word>, j1: nat, o1: nat,
      count: nat, b: bool)
    requires o0 < 64 && j0 + count + (if o0 == 0 then 0 else 1) <= |s0|
    requires o1 < 64 && j1 + count + (if o1 == 0 then 0 else 1) <= |s1|
    requires f == if b then 0xf else 0x0
    ensures Images2(f, s0, j0, o0, s1, j1, o1, count) == seq(count, _ => Const(b))
    decreases count
  {
    if count > 0 {
      ImagesConst(f, s0, j0, o0, s1, j1, o1, count - 1, b);
      Same(Bitimg2(f, Skew(s0, j0 + count - 1, o0), Skew(s1, j1 + count - 1, o1)), Const(b));
    }
  }

  /** A function of one of its arguments only. */
  lemma {:induction false} ImagesUnary(f: Bool2f, s0: seq<Word>, j0: nat, o0: nat, s1: seq<Word>, j1: nat, o1: nat,
      count: nat)
    requires o0 < 64 && j0 + count + (if o0 == 0 then 0 else 1) <= |s0|
    requires o1 < 64 && j1 + count + (if o1 == 0 then 0 else 1) <= |s1|
    ensures f == 0xa ==> Images2(f, s0, j0, o0, s1, j1, o1, count) == Images(IDENT, s0, j0, o0, count)
    ensures f == 0xc ==> Images2(f, s0, j0, o0, s1, j1, o1, count) == Images(IDENT, s1, j1, o1, count)
    ensures f == 0x5 ==> Images2(f, s0, j0, o0, s1, j1, o1, count) == Images(NOT, s0, j0, o0, count)
    ensures f == 0x3 ==> Images2(f, s0, j0, o0, s1, j1, o1, count) == Images(NOT, s1, j1, o1, count)
    decreases count
  {
    hide Bitimg, Bitimg2, Skew;
    if count > 0 {
      ImagesUnary(f, s0, j0, o0, s1, j1, o1, count - 1);
      UnaryImage(f, Skew(s0, j0 + count - 1, o0), Skew(s1, j1 + count - 1, o1));
    }
  }

  lemma UnaryImage(f: Bool2f, x: Word, y: Word)
    ensures f == 0xa ==> Bitimg2(f, x, y) == Bitimg(IDENT, x)
    ensures f == 0xc ==> Bitimg2(f, x, y) == Bitimg(IDENT, y)
    ensures f == 0x5 ==> Bitimg2(f, x, y) == Bitimg(NOT, x)
    ensures f == 0x3 ==> Bitimg2(f, x, y) == Bitimg(NOT, y)
  {
    if f == 0xa { Same(Bitimg2(f, x, y), Bitimg(IDENT, x)); }
    if f == 0xc { Same(Bitimg2(f, x, y), Bitimg(IDENT, y)); }
    if f == 0x5 { Same(Bitimg2(f, x, y), Bitimg(NOT, x)); }
    if f == 0x3 { Same(Bitimg2(f, x, y), Bitimg(NOT, y)); }
  }

  lemma {:induction false} ImagesSwapped(f: Bool2f, s0: seq<Word>, j0: nat, o0: nat, s1: seq<Word>, j1: nat, o1: nat,
      count: nat)
    requires o0 < 64 && j0 + count + (if o0 == 0 then 0 else 1) <= |s0|
    requires o1 < 64 && j1 + count + (if o1 == 0 then 0 else 1) <= |s1|
    ensures Images2(Swap(f), s1, j1, o1, s0, j0, o0, count) == Images2(f, s0, j0, o0, s1, j1, o1, count)
    decreases count
  {
    if count > 0 {
      ImagesSwapped(f, s0, j0, o0, s1, j1, o1, count - 1);
      SwappedImage(f, Skew(s0, j0 + count - 1, o0), Skew(s1, j1 + count - 1, o1));
    }
  }

  lemma SwappedImage(f: Bool2f, x: Word, y: Word)
    ensures Bitimg2(Swap(f), y, x) == Bitimg2(f, x, y)
  {
    forall i | 0 <= i < 64 ensures Bitimg2(Swap(f), y, x)[i] == Bitimg2(f, x, y)[i] { SwapApplies(f, y[i], x[i]); }
    Same(Bitimg2(Swap(f), y, x), Bitimg2(f, x, y));
  }

  lemma SwapProper(f: Bool2f)
    ensures Proper(f) ==> Proper(Swap(f))
  {}

  /** The image of two sources at any offsets under any function. */
  method SkewcopyBitimg2(f: Bool2f, count: nat, dst: array<Word>, d: nat, o0: nat, src0: array<Word>, j0: nat, o1: nat,
      src1: array<Word>, j1: nat)
    requires d + count <= dst.Length
    requires Reach(src0, j0, o0, count) && Reach(src1, j1, o1, count)
    modifies dst
    ensures Apart(dst, d, src0, j0, o0, count) && Apart(dst, d, src1, j1, o1, count) ==>
              dst[..] == Patched(old(dst[..]), d, Images2(f, old(src0[..]), j0, o0, old(src1[..]), j1, o1, count))
    ensures src0 == dst && f == 0xa && Fades(old(dst[..]), d, j0, o0, count) ==> Blank(dst[..])
  {
    hide Patched, Images, Images2, Swap, Fades;
    ghost var s0, s1 := src0[..], src1[..];
    if f == 0x0 || f == 0xf {
      ImagesConst(f, s0, j0, o0, s1, j1, o1, count, f == 0xf);
      Fill(count, dst, d, Const(f == 0xf));
    } else if f == 0xa || f == 0x5 {
      ImagesUnary(f, s0, j0, o0, s1, j1, o1, count);
      Skewcopy(if f == 0xa then IDENT else NOT, count, dst, d, o0, src0, j0);
    } else if f == 0xc || f == 0x3 {
      ImagesUnary(f, s0, j0, o0, s1, j1, o1, count);
      Skewcopy(if f == 0xc then IDENT else NOT, count, dst, d, o1, src1, j1);
    } else if o0 == 0 {
      if o1 == 0 {
        CopyBitimg2(f, count, dst, d, src0, j0, src1, j1);
      } else {
        Semiskew(f, count, dst, d, src0, j0, o1, src1, j1);
      }
    } else if o1 == 0 {
      SwapProper(f);
      ImagesSwapped(f, s0, j0, o0, s1, j1, o1, count);
      Semiskew(Swap(f), count, dst, d, src1, j1, o0, src0, j0);
    } else {
      SkewBoth(f, count, dst, d, o0, src0, j0, o1, src1, j1);
    }
  }
}
