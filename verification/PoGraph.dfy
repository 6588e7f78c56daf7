/** Finite link structures and the strict orders they generate. */
module PoGraph {
  /** The links out of each element. */
  type Links<E> = map<E, seq<E>>

  function Out<E>(m: Links<E>, a: E): seq<E> {
    if a in m then m[a] else []
  }

  /** `n` links lead from `a` to `b`. */
  ghost predicate Steps<E>(m: Links<E>, a: E, b: E, n: nat)
    decreases n
  {
    if n == 0 then a == b else exists c :: c in Out(m, a) && Steps(m, c, b, n - 1)
  }

  ghost predicate Before<E>(m: Links<E>, a: E, b: E) {
    exists n: nat :: n > 0 && Steps(m, a, b, n)
  }

  ghost predicate Upto<E>(m: Links<E>, a: E, b: E) {
    a == b || Before(m, a, b)
  }

  ghost predicate Acyclic<E>(m: Links<E>) {
    forall a :: a in m ==> !Before(m, a, a)
  }

  ghost predicate Closed<E>(m: Links<E>) {
    forall a, b :: a in m && b in m[a] ==> b in m
  }

  /** The same links seen from both ends. */
  ghost predicate Mirror<E>(m: Links<E>, w: Links<E>) {
    m.Keys == w.Keys && Closed(m) && Closed(w) &&
    forall a, b :: a in m && b in m ==> (b in m[a] <==> a in w[b])
  }

  // -------------------------------------------------------------- order laws

  lemma {:induction false} StepsTrans<E>(m: Links<E>, a: E, b: E, c: E, i: nat, j: nat)
    requires Steps(m, a, b, i) && Steps(m, b, c, j)
    ensures Steps(m, a, c, i + j)
    decreases i
  {
    if i > 0 {
      var d :| d in Out(m, a) && Steps(m, d, b, i - 1);
      StepsTrans(m, d, b, c, i - 1, j);
    }
  }

  lemma EdgeBefore<E>(m: Links<E>, a: E, b: E)
    requires b in Out(m, a)
    ensures Before(m, a, b)
  {
    assert Steps(m, b, b, 0);
    assert Steps(m, a, b, 1);
  }

  lemma BeforeTrans<E>(m: Links<E>, a: E, b: E, c: E)
    requires Upto(m, a, b) && Upto(m, b, c)
    ensures Upto(m, a, c)
    ensures Before(m, a, b) || Before(m, b, c) ==> Before(m, a, c)
  {
    if Before(m, a, b) && Before(m, b, c) {
      var i: nat :| i > 0 && Steps(m, a, b, i);
      var j: nat :| j > 0 && Steps(m, b, c, j);
      StepsTrans(m, a, b, c, i, j);
    }
  }

  lemma BeforeFirst<E>(m: Links<E>, a: E, b: E)
    ensures Before(m, a, b) <==> exists c :: c in Out(m, a) && Upto(m, c, b)
  {
    if Before(m, a, b) {
      var n: nat :| n > 0 && Steps(m, a, b, n);
      var c :| c in Out(m, a) && Steps(m, c, b, n - 1);
      assert n == 1 ==> c == b;
      assert Upto(m, c, b);
    }
    if c :| c in Out(m, a) && Upto(m, c, b) {
      EdgeBefore(m, a, c);
      BeforeTrans(m, a, c, b);
    }
  }

  lemma {:induction false} StepsLast<E>(m: Links<E>, a: E, b: E, n: nat) returns (c: E)
    requires n > 0 && Steps(m, a, b, n)
    ensures Steps(m, a, c, n - 1) && b in Out(m, c)
    decreases n
  {
    var d :| d in Out(m, a) && Steps(m, d, b, n - 1);
    if n == 1 {
      c := a;
    } else {
      c := StepsLast(m, d, b, n - 1);
    }
  }

  lemma {:induction false} StepsMirror<E>(m: Links<E>, w: Links<E>, a: E, b: E, n: nat)
    requires Mirror(m, w) && Steps(m, a, b, n)
    ensures Steps(w, b, a, n)
    decreases n
  {
    if n > 0 {
      var c := StepsLast(m, a, b, n);
      StepsMirror(m, w, a, c, n - 1);
      assert c in Out(w, b);
    }
  }

  lemma BeforeMirror<E>(m: Links<E>, w: Links<E>, a: E, b: E)
    requires Mirror(m, w)
    ensures Before(m, a, b) <==> Before(w, b, a)
  {
    if Before(m, a, b) {
      var n: nat :| n > 0 && Steps(m, a, b, n);
      StepsMirror(m, w, a, b, n);
    }
    if Before(w, b, a) {
      var n: nat :| n > 0 && Steps(w, b, a, n);
      StepsMirror(w, m, b, a, n);
    }
  }

  /** `a` comes before `b` if it comes up to a predecessor of `b`. */
  lemma BeforeLast<E>(m: Links<E>, w: Links<E>, a: E, b: E)
    requires Mirror(m, w)
    ensures Before(m, a, b) <==> exists c :: c in Out(w, b) && Upto(m, a, c)
  {
    BeforeMirror(m, w, a, b);
    BeforeFirst(w, b, a);
    forall c | c in Out(w, b) ensures Upto(w, c, a) <==> Upto(m, a, c) { BeforeMirror(m, w, a, c); }
  }

  lemma {:induction false} StepsClosed<E>(m: Links<E>, a: E, b: E, n: nat)
    requires Closed(m) && a in m && Steps(m, a, b, n)
    ensures b in m
    decreases n
  {
    if n > 0 {
      var c :| c in Out(m, a) && Steps(m, c, b, n - 1);
      StepsClosed(m, c, b, n - 1);
    }
  }

  lemma BeforeClosed<E>(m: Links<E>, a: E, b: E)
    requires Closed(m) && Before(m, a, b)
    ensures a in m && b in m
  {
    var n: nat :| n > 0 && Steps(m, a, b, n);
    StepsClosed(m, a, b, n);
  }

  /** What comes after `a`. */
  ghost function After<E>(m: Links<E>, a: E): (after: set<E>)
    ensures after <= m.Keys
  {
    set x | x in m && Before(m, a, x)
  }

  lemma CardOfSubset<E>(s: set<E>, t: set<E>)
    requires s < t
    ensures |s| < |t|
  {
    assert t == s + (t - s);
  }

  lemma AfterShrinks<E>(m: Links<E>, a: E, c: E)
    requires Closed(m) && Acyclic(m) && c in Out(m, a)
    ensures After(m, c) < After(m, a) && |After(m, c)| < |After(m, a)|
  {
    EdgeBefore(m, a, c);
    forall x | x in After(m, c) ensures x in After(m, a) { BeforeTrans(m, a, c, x); }
    assert c in After(m, a) && c !in After(m, c);
    CardOfSubset(After(m, c), After(m, a));
  }

  // ---------------------------------------------------------------- reduction

  /** No link is implied by others, except perhaps the one from `bot` to `top`. */
  ghost predicate Reduced<E>(m: Links<E>, bot: E, top: E) {
    forall a, b, c :: a in m && b in m[a] && c in m && !(a == bot && b == top) ==> !(Before(m, a, c) && Before(m, c, b))
  }

  /** The links after `e0` has been put before `e1`. */
  ghost predicate Constrained<E>(m: Links<E>, m': Links<E>, e0: E, e1: E) {
    m'.Keys == m.Keys && e0 in m && e1 in m && Closed(m) && Closed(m') &&
    forall a, b :: a in m && b in m ==>
      (b in m'[a] <==> (b in m[a] && !(Upto(m, a, e0) && Upto(m, e1, b))) || (a == e0 && b == e1))
  }

  /** Either an old relation or one that the new constraint implies. */
  ghost predicate Implied<E>(m: Links<E>, e0: E, e1: E, x: E, y: E) {
    Before(m, x, y) || (Upto(m, x, e0) && Upto(m, e1, y))
  }

  lemma ImpliedTrans<E>(m: Links<E>, e0: E, e1: E, x: E, y: E, z: E)
    requires Implied(m, e0, e1, x, y) && Implied(m, e0, e1, y, z)
    ensures Implied(m, e0, e1, x, z)
  {
    if Before(m, x, y) {
      if Before(m, y, z) { BeforeTrans(m, x, y, z); } else { BeforeTrans(m, x, y, e0); }
    } else if Before(m, y, z) {
      BeforeTrans(m, e1, y, z);
    }
  }

  lemma {:induction false} NewStepsImplied<E>(m: Links<E>, m': Links<E>, e0: E, e1: E, x: E, y: E, n: nat)
    requires Constrained(m, m', e0, e1) && n > 0 && Steps(m', x, y, n)
    ensures Implied(m, e0, e1, x, y)
    decreases n
  {
    var c :| c in Out(m', x) && Steps(m', c, y, n - 1);
    assert Implied(m, e0, e1, x, c) by { if c in Out(m, x) { EdgeBefore(m, x, c); } }
    if n > 1 {
      NewStepsImplied(m, m', e0, e1, c, y, n - 1);
      ImpliedTrans(m, e0, e1, x, c, y);
    } else {
      assert c == y;
    }
  }

  /** A link is kept if it leads up to `e0` or starts at `e1` or later. */
  lemma KeptLink<E>(m: Links<E>, m': Links<E>, e0: E, e1: E, a: E, b: E)
    requires Constrained(m, m', e0, e1) && !Upto(m, e1, e0) && b in Out(m, a) && (Upto(m, b, e0) || Upto(m, e1, a))
    ensures Before(m', a, b)
  {
    if Upto(m, a, e0) && Upto(m, e1, b) {
      if Upto(m, b, e0) { BeforeTrans(m, e1, b, e0); } else { BeforeTrans(m, e1, a, e0); }
    }
    EdgeBefore(m', a, b);
  }

  lemma {:induction false} StepsToE0<E>(m: Links<E>, m': Links<E>, e0: E, e1: E, x: E, n: nat)
    requires Constrained(m, m', e0, e1) && !Upto(m, e1, e0) && Steps(m, x, e0, n)
    ensures Upto(m', x, e0)
    decreases n
  {
    if n > 0 {
      var c :| c in Out(m, x) && Steps(m, c, e0, n - 1);
      StepsToE0(m, m', e0, e1, c, n - 1);
      assert Upto(m, c, e0) by { if n > 1 { assert Before(m, c, e0); } }
      KeptLink(m, m', e0, e1, x, c);
      BeforeTrans(m', x, c, e0);
    }
  }

  lemma {:induction false} StepsFromE1<E>(m: Links<E>, m': Links<E>, e0: E, e1: E, x: E, y: E, n: nat)
    requires Constrained(m, m', e0, e1) && !Upto(m, e1, e0) && Upto(m, e1, x) && Steps(m, x, y, n)
    ensures Upto(m', x, y)
    decreases n
  {
    if n > 0 {
      var c :| c in Out(m, x) && Steps(m, c, y, n - 1);
      EdgeBefore(m, x, c);
      BeforeTrans(m, e1, x, c);
      StepsFromE1(m, m', e0, e1, c, y, n - 1);
      KeptLink(m, m', e0, e1, x, c);
      BeforeTrans(m', x, c, y);
    }
  }

  lemma ThroughNewLink<E>(m: Links<E>, m': Links<E>, e0: E, e1: E, x: E, y: E)
    requires Constrained(m, m', e0, e1) && !Upto(m, e1, e0) && Upto(m, x, e0) && Upto(m, e1, y)
    ensures Before(m', x, y)
  {
    if x != e0 { var n: nat :| n > 0 && Steps(m, x, e0, n); StepsToE0(m, m', e0, e1, x, n); }
    if e1 != y { var n: nat :| n > 0 && Steps(m, e1, y, n); StepsFromE1(m, m', e0, e1, e1, y, n); }
    EdgeBefore(m', e0, e1);
    BeforeTrans(m', x, e0, e1);
    BeforeTrans(m', x, e1, y);
  }

  lemma {:induction false} OldStepsKept<E>(m: Links<E>, m': Links<E>, e0: E, e1: E, x: E, y: E, n: nat)
    requires Constrained(m, m', e0, e1) && !Upto(m, e1, e0) && Steps(m, x, y, n)
    ensures Upto(m', x, y) && (n > 0 ==> Before(m', x, y))
    decreases n
  {
    if n > 0 {
      var c :| c in Out(m, x) && Steps(m, c, y, n - 1);
      if Upto(m, x, e0) && Upto(m, e1, c) {
        assert Upto(m, c, y) by { if n > 1 { assert Before(m, c, y); } }
        BeforeTrans(m, e1, c, y);
        ThroughNewLink(m, m', e0, e1, x, y);
      } else {
        EdgeBefore(m', x, c);
        OldStepsKept(m, m', e0, e1, c, y, n - 1);
        BeforeTrans(m', x, c, y);
      }
    }
  }

  /** The new order is the old one with what the new constraint implies. */
  lemma ConstrainedOrder<E>(m: Links<E>, m': Links<E>, e0: E, e1: E)
    requires Constrained(m, m', e0, e1) && !Upto(m, e1, e0)
    ensures forall x, y :: Before(m', x, y) <==> Implied(m, e0, e1, x, y)
  {
    forall x, y ensures Before(m', x, y) <==> Implied(m, e0, e1, x, y) {
      if Before(m', x, y) {
        var n: nat :| n > 0 && Steps(m', x, y, n);
        NewStepsImplied(m, m', e0, e1, x, y, n);
      }
      if Before(m, x, y) {
        var n: nat :| n > 0 && Steps(m, x, y, n);
        OldStepsKept(m, m', e0, e1, x, y, n);
      } else if Implied(m, e0, e1, x, y) {
        ThroughNewLink(m, m', e0, e1, x, y);
      }
    }
  }

  lemma ConstrainedAcyclic<E>(m: Links<E>, m': Links<E>, e0: E, e1: E)
    requires Constrained(m, m', e0, e1) && !Upto(m, e1, e0) && Acyclic(m)
    ensures Acyclic(m')
  {
    ConstrainedOrder(m, m', e0, e1);
    forall a | a in m' ensures !Before(m', a, a) {
      if Implied(m, e0, e1, a, a) { BeforeTrans(m, e1, a, e0); }
    }
  }

  /** The diagram stays reduced. */
  lemma ConstrainedReduced<E>(m: Links<E>, m': Links<E>, e0: E, e1: E, bot: E, top: E)
    requires Constrained(m, m', e0, e1) && !Upto(m, e1, e0) && !Before(m, e0, e1)
    requires Acyclic(m) && Reduced(m, bot, top)
    ensures Reduced(m', bot, top)
  {
    ConstrainedOrder(m, m', e0, e1);
    forall a, b, c | a in m' && b in m'[a] && c in m' && !(a == bot && b == top)
      ensures !(Before(m', a, c) && Before(m', c, b))
    {
      if Before(m', a, c) && Before(m', c, b) {
        assert b in Out(m', a);
        ReducedStep(m, m', e0, e1, bot, top, a, b, c);
      }
    }
  }

  lemma ReducedStep<E>(m: Links<E>, m': Links<E>, e0: E, e1: E, bot: E, top: E, a: E, b: E, c: E)
    requires Constrained(m, m', e0, e1) && !Upto(m, e1, e0) && !Before(m, e0, e1) && Acyclic(m) && Reduced(m, bot, top)
    requires a in m' && b in m'[a] && b in m && c in m && !(a == bot && b == top)
    ensures !(Implied(m, e0, e1, a, c) && Implied(m, e0, e1, c, b))
  {
    if Before(m, a, c) && Before(m, c, b) {
      BeforeTrans(m, a, c, b);
    } else if Implied(m, e0, e1, a, c) && Implied(m, e0, e1, c, b) {
      if Before(m, a, c) {
        BeforeTrans(m, a, c, e0);
      } else if Before(m, c, b) {
        BeforeTrans(m, e1, c, b);
      } else {
        BeforeTrans(m, e1, c, e0);
      }
    }
  }

  /** A constraint on a bounded order removes the link from bottom to top. */
  lemma ConstrainedUnlinksBounds<E>(m: Links<E>, m': Links<E>, e0: E, e1: E, bot: E, top: E)
    requires Constrained(m, m', e0, e1) && bot in m && top in m
    requires Upto(m, bot, e0) && Upto(m, e1, top) && !(e0 == bot && e1 == top)
    ensures top !in m'[bot]
  {}

  // ------------------------------------------------------------------- levels

  /** Links go to higher levels. */
  ghost predicate Rising<E>(m: Links<E>, level: map<E, nat>) {
    m.Keys == level.Keys && forall a, b :: a in m && b in m[a] && b in m ==> level[b] > level[a]
  }

  /** An immediate predecessor of `v` is just one level below. */
  ghost predicate TightAt<E>(w: Links<E>, level: map<E, nat>, v: E)
    requires w.Keys == level.Keys
  {
    v in w && exists u :: u in w[v] && u in w && level[v] <= level[u] + 1
  }

  ghost predicate Leveled<E>(m: Links<E>, w: Links<E>, level: map<E, nat>, bot: E) {
    && Mirror(m, w) && Rising(m, level) && bot in m && level[bot] == 0
    && forall v :: v in m && v != bot ==> TightAt(w, level, v)
  }

  lemma {:induction false} StepsRise<E>(m: Links<E>, level: map<E, nat>, a: E, b: E, n: nat)
    requires Closed(m) && Rising(m, level) && a in m && Steps(m, a, b, n)
    ensures b in m && level[b] >= level[a] + n
    decreases n
  {
    if n > 0 {
      var c :| c in Out(m, a) && Steps(m, c, b, n - 1);
      StepsRise(m, level, c, b, n - 1);
    }
  }

  lemma BeforeRises<E>(m: Links<E>, level: map<E, nat>, a: E, b: E)
    requires Closed(m) && Rising(m, level) && Before(m, a, b)
    ensures a in m && b in m && level[a] < level[b]
  {
    BeforeClosed(m, a, b);
    var n: nat :| n > 0 && Steps(m, a, b, n);
    StepsRise(m, level, a, b, n);
  }

  lemma OneStep<E>(m: Links<E>, a: E, b: E, c: E, n: nat)
    requires Steps(m, a, b, n) && c in Out(m, b)
    ensures Steps(m, a, c, n + 1)
  {
    assert Steps(m, c, c, 0) && Steps(m, b, c, 1);
    StepsTrans(m, a, b, c, n, 1);
  }

  lemma {:induction false} StepsFromBot<E>(m: Links<E>, w: Links<E>, level: map<E, nat>, bot: E, v: E)
    requires Leveled(m, w, level, bot) && v in m
    ensures Steps(m, bot, v, level[v])
    decreases level[v]
  {
    hide TightAt;
    if v != bot {
      var u := TightPred(m, w, level, v);
      StepsFromBot(m, w, level, bot, u);
      OneStep(m, bot, u, v, level[u]);
    }
  }

  lemma TightPred<E>(m: Links<E>, w: Links<E>, level: map<E, nat>, v: E) returns (u: E)
    requires Mirror(m, w) && Rising(m, level) && TightAt(w, level, v)
    ensures u in m && v in m[u] && level[v] == level[u] + 1
  {
    u :| u in w[v] && u in w && level[v] <= level[u] + 1;
  }

  /** The level of an element is the length of the longest chain up to it from
      the bottom. */
  lemma LevelIsLongestChain<E>(m: Links<E>, w: Links<E>, level: map<E, nat>, bot: E, v: E)
    requires Leveled(m, w, level, bot) && v in m
    ensures Steps(m, bot, v, level[v])
    ensures forall n: nat :: Steps(m, bot, v, n) ==> n <= level[v]
  {
    StepsFromBot(m, w, level, bot, v);
    forall n: nat | Steps(m, bot, v, n) ensures n <= level[v] { StepsRise(m, level, bot, v, n); }
  }
}
