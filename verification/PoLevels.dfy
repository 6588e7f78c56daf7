/** Restoring the levels of a Hasse diagram after a new link. */
module PoLevels {
  import opened PoGraph
  import opened PoSearch

  /** The links out of `a` rise. */
  ghost predicate RisesAt(m: Links<Elt>, l: map<Elt, nat>, a: Elt)
    requires m.Keys == l.Keys
  {
    a in m && forall s :: s in m[a] && s in m ==> l[s] > l[a]
  }

  /** From `l` to `l'` levels have been raised above `e` only, and no higher than they have to be. */
  ghost predicate Raised(m: Links<Elt>, w: Links<Elt>, l: map<Elt, nat>, l': map<Elt, nat>, e: Elt)
    requires m.Keys == w.Keys == l.Keys == l'.Keys
  {
    forall v :: v in m ==> l'[v] >= l[v] && (l'[v] != l[v] ==> Upto(m, e, v) && TightAt(w, l', v))
  }

  /** Links that rise do so still, except perhaps those out of `e`. */
  ghost predicate StillRises(m: Links<Elt>, l: map<Elt, nat>, l': map<Elt, nat>, e: Elt)
    requires m.Keys == l.Keys == l'.Keys
  {
    forall a :: a in m && a != e && RisesAt(m, l, a) ==> RisesAt(m, l', a)
  }

  lemma RaisedFirst(m: Links<Elt>, w: Links<Elt>, l: map<Elt, nat>, e: Elt, level: nat)
    requires m.Keys == w.Keys == l.Keys && e in m && l[e] < level && Mirror(m, w) && Acyclic(m)
    requires exists u :: u in w[e] && level <= l[u] + 1
    ensures Raised(m, w, l, l[e := level], e) && StillRises(m, l, l[e := level], e)
  {
    var u :| u in w[e] && level <= l[u] + 1;
    NoWayBack(m, u, e);
  }

  lemma RaisedMore(m: Links<Elt>, w: Links<Elt>, l: map<Elt, nat>, l1: map<Elt, nat>, l2: map<Elt, nat>, e: Elt, s: Elt)
    requires m.Keys == w.Keys == l.Keys == l1.Keys == l2.Keys && Mirror(m, w) && Acyclic(m)
    requires s in Out(m, e) && Raised(m, w, l, l1, e) && Raised(m, w, l1, l2, s)
    ensures Raised(m, w, l, l2, e) && l2[e] == l1[e]
  {
    EdgeBefore(m, e, s);
    NoWayBack(m, e, s);
    forall v | v in m && l2[v] != l[v] ensures Upto(m, e, v) && TightAt(w, l2, v) {
      if l2[v] != l1[v] {
        BeforeTrans(m, e, s, v);
      } else {
        var u :| u in w[v] && u in w && l1[v] <= l1[u] + 1;
        assert l2[u] >= l1[u];
      }
    }
  }

  lemma StillRisesMore(m: Links<Elt>, l: map<Elt, nat>, l1: map<Elt, nat>, l2: map<Elt, nat>, e: Elt, s: Elt)
    requires m.Keys == l.Keys == l1.Keys == l2.Keys
    requires StillRises(m, l, l1, e) && StillRises(m, l1, l2, s) && RisesAt(m, l2, s)
    ensures StillRises(m, l, l2, e)
  {}

  /** Raises the level of `e`, and those of its successors accordingly. */
  method UpdateLevelTo(e: Elt, level: nat, ghost elts: set<Elt>, ghost m: Links<Elt>, ghost w: Links<Elt>)
    requires m == Succs(elts) && w == Preds(elts) && Mirror(m, w) && Acyclic(m) && e in elts
    requires e.level < level && exists u :: u in w[e] && u in elts && level <= u.level + 1
    modifies elts`level
    ensures Raised(m, w, old(Levels(elts)), Levels(elts), e) && e.level == level
    ensures StillRises(m, old(Levels(elts)), Levels(elts), e) && RisesAt(m, Levels(elts), e)
    decreases |After(m, e)|, 2
  {
    hide Raised, StillRises, After, TightAt, Acyclic, Mirror;
    ghost var l := Levels(elts);
    RaisedFirst(m, w, l, e, level);
    e.level := level;
    assert Levels(elts) == l[e := level];
    UpdateSuccs(e, level, elts, m, w, l);
  }

  /** The successors of `e`, after its level has been set. */
  method UpdateSuccs(e: Elt, level: nat, ghost elts: set<Elt>, ghost m: Links<Elt>, ghost w: Links<Elt>,
      ghost l: map<Elt, nat>)
    requires m == Succs(elts) && w == Preds(elts) && Mirror(m, w) && Acyclic(m) && e in elts && e.level == level
    requires l.Keys == elts && Raised(m, w, l, Levels(elts), e) && StillRises(m, l, Levels(elts), e)
    modifies elts`level
    ensures Raised(m, w, l, Levels(elts), e) && e.level == level
    ensures StillRises(m, l, Levels(elts), e) && RisesAt(m, Levels(elts), e)
    decreases |After(m, e)|, 1
  {
    hide Raised, StillRises, After, TightAt, Acyclic, Mirror;
    var i := 0;
    while i < |e.isuccs|
      invariant 0 <= i <= |e.isuccs| && e.level == level && e.isuccs == m[e]
      invariant Raised(m, w, l, Levels(elts), e) && StillRises(m, l, Levels(elts), e)
      invariant forall j :: 0 <= j < i ==> e.isuccs[j].level > level
    {
      var s := e.isuccs[i];
      if s.level < level + 1 {
        UpdateSucc(e, s, level, elts, m, w, l);
      }
      i := i + 1;
    }
  }

  method UpdateSucc(e: Elt, s: Elt, level: nat, ghost elts: set<Elt>, ghost m: Links<Elt>, ghost w: Links<Elt>,
      ghost l: map<Elt, nat>)
    requires m == Succs(elts) && w == Preds(elts) && Mirror(m, w) && Acyclic(m) && e in elts && s in m[e]
    requires l.Keys == elts && e.level == level && s.level < level + 1
    requires Raised(m, w, l, Levels(elts), e) && StillRises(m, l, Levels(elts), e)
    modifies elts`level
    ensures Raised(m, w, l, Levels(elts), e) && StillRises(m, l, Levels(elts), e)
    ensures e.level == level && s.level > level && forall v :: v in elts ==> v.level >= old(v.level)
    decreases |After(m, e)|, 0
  {
    hide StillRises, After, TightAt;
    ghost var l1 := Levels(elts);
    AfterShrinks(m, e, s);
    UpdateLevelTo(s, level + 1, elts, m, w);
    RaisedMore(m, w, l, l1, Levels(elts), e, s);
    StillRisesMore(m, l, l1, Levels(elts), e, s);
  }

  /** The links out of `a`, except to `e`, rise. */
  ghost predicate RisesBut(m: Links<Elt>, l: map<Elt, nat>, a: Elt, e: Elt)
    requires m.Keys == l.Keys
  {
    a in m && forall s :: s in m[a] && s in m && s != e ==> l[s] > l[a]
  }

  ghost predicate OverPreds(w: Links<Elt>, l: map<Elt, nat>, e: Elt, level: nat)
    requires w.Keys == l.Keys && e in w
  {
    forall p :: p in w[e] && p in w ==> l[p] < level
  }

  lemma RisesAfterSet(m: Links<Elt>, w: Links<Elt>, l: map<Elt, nat>, e: Elt, level: nat)
    requires Mirror(m, w) && m.Keys == l.Keys && e in m && OverPreds(w, l, e, level)
    ensures forall a :: a in m && a != e && RisesBut(m, l, a, e) ==> RisesAt(m, l[e := level], a)
  {}

  /** `e` has been given the level just above its predecessors, what comes after it
      has been raised, and all links rise that did or that lead to or from `e`. */
  ghost predicate Relevelled(m: Links<Elt>, w: Links<Elt>, l: map<Elt, nat>, l': map<Elt, nat>, e: Elt, level: nat)
    requires m.Keys == w.Keys == l.Keys == l'.Keys && e in m
  {
    && OverPreds(w, l, e, level)
    && (w[e] != [] ==> exists u :: u in w[e] && u in w && level <= l[u] + 1)
    && Raised(m, w, l[e := level], l', e)
    && forall a :: a in m && (a == e || RisesBut(m, l, a, e)) ==> RisesAt(m, l', a)
  }

  /** Gives `e` the level just above its immediate predecessors, and raises its
      successors accordingly. */
  method UpdateLevel(e: Elt, ghost elts: set<Elt>, ghost m: Links<Elt>, ghost w: Links<Elt>)
    requires m == Succs(elts) && w == Preds(elts) && Mirror(m, w) && Acyclic(m) && e in elts
    modifies elts`level
    ensures Relevelled(m, w, old(Levels(elts)), Levels(elts), e, e.level)
  {
    hide Raised, StillRises, After, TightAt, Acyclic, RisesAt, RisesBut, OverPreds, Mirror;
    ghost var l := Levels(elts);
    ClosedPreds(m, w, e);
    var level := HighestPred(e, elts, w);
    level := level + 1;
    e.level := level;
    RisesAfterSet(m, w, l, e, level);
    assert Levels(elts) == l[e := level];
    RaisedNot(m, w, l[e := level], e);
    UpdateSuccs(e, level, elts, m, w, l[e := level]);
    UseStillRises(m, l[e := level], Levels(elts), e);
  }

  lemma ClosedPreds(m: Links<Elt>, w: Links<Elt>, e: Elt)
    requires Mirror(m, w) && e in m
    ensures forall u :: u in w[e] ==> u in w
  {}

  lemma RaisedNot(m: Links<Elt>, w: Links<Elt>, l: map<Elt, nat>, e: Elt)
    requires m.Keys == w.Keys == l.Keys
    ensures Raised(m, w, l, l, e) && StillRises(m, l, l, e)
  {}

  lemma UseStillRises(m: Links<Elt>, l: map<Elt, nat>, l': map<Elt, nat>, e: Elt)
    requires m.Keys == l.Keys == l'.Keys && StillRises(m, l, l', e)
    ensures forall a :: a in m && a != e && RisesAt(m, l, a) ==> RisesAt(m, l', a)
  {}

  /** The highest level of the immediate predecessors. */
  method HighestPred(e: Elt, ghost elts: set<Elt>, ghost w: Links<Elt>) returns (level: nat)
    requires w == Preds(elts) && e in elts && forall u :: u in w[e] ==> u in elts
    ensures OverPreds(w, Levels(elts), e, level + 1)
    ensures w[e] != [] ==> exists u :: u in w[e] && u in w && level <= u.level
  {
    level := 0;
    var i := 0;
    while i < |e.ipreds|
      invariant 0 <= i <= |e.ipreds|
      invariant forall j :: 0 <= j < i ==> e.ipreds[j].level <= level
      invariant i == 0 ==> level == 0
      invariant i > 0 ==> exists u :: u in e.ipreds && level <= u.level
    {
      var l := e.ipreds[i].level;
      if l > level {
        level := l;
      }
      assert e.ipreds[i] in e.ipreds;
      i := i + 1;
    }
  }

  // ------------------------------------------------------------- a constraint

  lemma UptoRises(m: Links<Elt>, level: map<Elt, nat>, a: Elt, b: Elt)
    requires Closed(m) && Rising(m, level) && Upto(m, a, b) && a in m
    ensures b in m && level[a] <= level[b]
  {
    if a != b { BeforeRises(m, level, a, b); }
  }

  /** A link that was cut is bridged by the new one. */
  lemma CutRises(m0: Links<Elt>, m: Links<Elt>, l: map<Elt, nat>, e0: Elt, e1: Elt, u: Elt, v: Elt)
    requires Constrained(m0, m, e0, e1) && !Upto(m0, e1, e0) && Rising(m, l)
    requires u in m && v in m && Upto(m0, u, e0) && Upto(m0, e1, v) && v != e1
    ensures l[v] >= l[u] + 2
  {
    ConstrainedOrder(m0, m, e0, e1);
    EdgeBefore(m, e0, e1);
    UptoRises(m, l, u, e0);
    BeforeRises(m, l, e0, e1);
    BeforeRises(m, l, e1, v);
  }

  /** Levels are exact again after a constraint and the update of the level of `e1`. */
  lemma ConstrainedLeveled(m0: Links<Elt>, w0: Links<Elt>, l0: map<Elt, nat>, m: Links<Elt>, w: Links<Elt>,
      l: map<Elt, nat>, e0: Elt, e1: Elt, level: nat, bot: Elt)
    requires w.Keys == m.Keys == m0.Keys == l0.Keys == l.Keys && e1 in m && Relevelled(m, w, l0, l, e1, level)
    requires Leveled(m0, w0, l0, bot) && Constrained(m0, m, e0, e1) && Mirror(m, w)
    requires !Upto(m0, e1, e0) && Upto(m0, bot, e0)
    ensures Leveled(m, w, l, bot)
  {
    LinkFate0(m0, m, w, e0, e1);
    RisesAll(m0, l0, m, l, e0, e1);
    NotLowered(m0, w0, l0, m, w, e0, e1, level, bot);
    ConstrainedOrder(m0, m, e0, e1);
    assert bot != e1 && !Upto(m, e1, bot) by {
      if Upto(m0, e1, bot) { BeforeTrans(m0, e1, bot, e0); }
    }
    assert l[bot] == 0;
    forall v | v in m && v != bot ensures TightAt(w, l, v) {
      KeepsTight(m0, w0, l0, m, w, l, e0, e1, level, bot, v);
    }
  }

  lemma LinkFate0(m0: Links<Elt>, m: Links<Elt>, w: Links<Elt>, e0: Elt, e1: Elt)
    requires Constrained(m0, m, e0, e1) && Mirror(m, w)
    ensures e1 in w && e0 in w[e1]
  {}

  lemma RisesAll(m0: Links<Elt>, l0: map<Elt, nat>, m: Links<Elt>, l: map<Elt, nat>, e0: Elt, e1: Elt)
    requires Rising(m0, l0) && Constrained(m0, m, e0, e1) && m.Keys == l.Keys
    requires forall a :: a in m && (a == e1 || RisesBut(m, l0, a, e1)) ==> RisesAt(m, l, a)
    ensures Rising(m, l)
  {
    hide Constrained, Closed;
    forall a | a in m ensures RisesAt(m, l, a) {
      OldLinks(m0, m, e0, e1, a);
      assert RisesBut(m, l0, a, e1);
    }
  }

  lemma OldLinks(m0: Links<Elt>, m: Links<Elt>, e0: Elt, e1: Elt, a: Elt)
    requires Constrained(m0, m, e0, e1) && a in m
    ensures m0.Keys == m.Keys && forall s :: s in m[a] && s != e1 ==> s in m && s in m0[a]
  {
    hide Upto;
    forall s | s in m[a] && s != e1 ensures s in m && s in m0[a] { OldLink(m0, m, e0, e1, a, s); }
  }

  lemma OldLink(m0: Links<Elt>, m: Links<Elt>, e0: Elt, e1: Elt, a: Elt, s: Elt)
    requires Constrained(m0, m, e0, e1) && a in m && s in m[a] && s != e1
    ensures s in m && s in m0[a]
  {
    hide Upto;
  }

  lemma ConstrainedKeys(m0: Links<Elt>, m: Links<Elt>, w: Links<Elt>, e0: Elt, e1: Elt)
    requires Constrained(m0, m, e0, e1) && Mirror(m, w)
    ensures m0.Keys == m.Keys == w.Keys && e0 in m && e1 in m && Closed(m) && Closed(m0)
  {}

  /** A link of the old diagram is still there or has been cut. */
  lemma LinkFate(m0: Links<Elt>, m: Links<Elt>, w: Links<Elt>, e0: Elt, e1: Elt, u: Elt, v: Elt)
    requires Constrained(m0, m, e0, e1) && Mirror(m, w) && u in m0 && v in m0[u]
    ensures u in w && v in w
    ensures u in w[v] || (Upto(m0, u, e0) && Upto(m0, e1, v))
    ensures e0 in w[e1]
  {
    assert v in m;
  }

  lemma NotLowered(m0: Links<Elt>, w0: Links<Elt>, l0: map<Elt, nat>, m: Links<Elt>, w: Links<Elt>, e0: Elt, e1: Elt,
      level: nat, bot: Elt)
    requires Leveled(m0, w0, l0, bot) && Constrained(m0, m, e0, e1) && Mirror(m, w)
    requires !Upto(m0, e1, e0) && Upto(m0, bot, e0) && OverPreds(w, l0, e1, level)
    ensures level >= l0[e1]
  {
    hide Constrained, Upto, Before, TightAt;
    ConstrainedKeys(m0, m, w, e0, e1);
    NotBottom(m0, w0, l0, bot, e0, e1);
    var u := TightPred(m0, w0, l0, e1);
    LinkFate(m0, m, w, e0, e1, u, e1);
    if u !in w[e1] {
      UptoRises(m0, l0, u, e0);
    }
  }

  lemma NotBottom(m0: Links<Elt>, w0: Links<Elt>, l0: map<Elt, nat>, bot: Elt, e0: Elt, e1: Elt)
    requires Leveled(m0, w0, l0, bot) && !Upto(m0, e1, e0) && Upto(m0, bot, e0) && e1 in m0
    ensures TightAt(w0, l0, e1)
  {
  }

  lemma KeepsTight(m0: Links<Elt>, w0: Links<Elt>, l0: map<Elt, nat>, m: Links<Elt>, w: Links<Elt>, l: map<Elt, nat>,
      e0: Elt, e1: Elt, level: nat, bot: Elt, v: Elt)
    requires m0.Keys == m.Keys == w.Keys == l0.Keys == l.Keys && e1 in m && v in m && v != bot
    requires Raised(m, w, l0[e1 := level], l, e1) && exists u :: u in w[e1] && u in w && level <= l0[u] + 1
    requires !Upto(m0, e1, e0) && level >= l0[e1]
    requires Leveled(m0, w0, l0, bot) && Constrained(m0, m, e0, e1) && Mirror(m, w) && Rising(m, l)
    ensures TightAt(w, l, v)
  {
    hide Constrained, Upto, Before, Mirror;
    var l1 := l0[e1 := level];
    ConstrainedKeys(m0, m, w, e0, e1);
    if l[v] == l1[v] {
      if v == e1 {
        var u: Elt :| u in w[e1] && u in w && level <= l0[u] + 1;
        assert l[u] >= l1[u] >= l0[u];
      } else {
        var u := TightPred(m0, w0, l0, v);
        LinkFate(m0, m, w, e0, e1, u, v);
        assert l[u] >= l1[u] >= l0[u];
        if u !in w[v] {
          CutRises(m0, m, l, e0, e1, u, v);
        }
      }
    }
  }
}
