/** A partial order as its Hasse diagram: insertion and constraints. */
module Po {
  import opened PoGraph
  import opened PoSearch
  import opened PoRemove
  import opened PoLevels
  import opened PoInsert

  /** Everything lies between `bot` and `top`. */
  ghost predicate Bounded(m: Links<Elt>, bot: Elt, top: Elt) {
    bot in m && top in m && bot != top && forall e :: e in m ==> Upto(m, bot, e) && Upto(m, e, top)
  }

  /** A diagram with exact levels: no redundant link except perhaps the one from
      bottom to top, which then comes last. */
  ghost predicate Diagram(m: Links<Elt>, w: Links<Elt>, l: map<Elt, nat>, bot: Elt, top: Elt) {
    && Simple(m, w) && Leveled(m, w, l, bot) && Bounded(m, bot, top) && Reduced(m, bot, top)
    && (top in m[bot] ==> w[top] != [] && w[top][|w[top]| - 1] == bot)
  }

  // ------------------------------------------------------- making a constraint

  /** The diagram without the links that a new constraint makes redundant. */
  ghost predicate CutFor(m: Links<Elt>, w: Links<Elt>, m1: Links<Elt>, w1: Links<Elt>, e0: Elt, e1: Elt) {
    && m.Keys == w.Keys == m1.Keys == w1.Keys && e0 in m && e1 in m
    && (forall a, b :: a in m && b in m1[a] ==> b in m[a])
    && (forall a, b :: a in m && b in w1[a] ==> b in w[a])
    && (forall a, b :: a in m && b in m[a] ==> (b in m1[a] <==> !(Upto(m, a, e0) && Upto(m, e1, b))))
    && (forall a, b :: b in m && a in w[b] ==> (a in w1[b] <==> !(Upto(m, a, e0) && Upto(m, e1, b))))
    && (forall a :: a in m ==> NoDup(m1[a]) && NoDup(w1[a]))
  }

  lemma CutShape(elts: set<Elt>, m: Links<Elt>, w: Links<Elt>, e0: Elt, e1: Elt)
    requires Simple(m, w) && m.Keys == elts == w.Keys && e0 in m && e1 in m
    requires IsCut(elts, m, w, After(w, e0) + {e0}, After(m, e1) + {e1})
    ensures CutFor(m, w, Succs(elts), Preds(elts), e0, e1)
  {
    var done, rm := After(w, e0) + {e0}, After(m, e1) + {e1};
    SpanIsUpto(m, w, e0, e1);
    hide After, Before, Upto, NoDup, Without;
    forall a | a in elts
      ensures NoDup(a.isuccs) && NoDup(a.ipreds)
      ensures forall b :: b in a.isuccs <==> b in m[a] && !(a in done && b in rm)
      ensures forall b :: b in a.ipreds <==> b in w[a] && !(b in done && a in rm)
    {
      WithoutMembers(m[a], rm); WithoutNoDup(m[a], rm);
      WithoutMembers(w[a], done); WithoutNoDup(w[a], done);
    }
  }

  lemma PrependNoDup(s: seq<Elt>, a: Elt)
    requires NoDup(s) && a !in s
    ensures NoDup([a] + s)
  {}

  lemma LinkShape(m: Links<Elt>, w: Links<Elt>, m1: Links<Elt>, w1: Links<Elt>, e0: Elt, e1: Elt)
    requires Simple(m, w) && CutFor(m, w, m1, w1, e0, e1)
    ensures Constrained(m, m1[e0 := [e1] + m1[e0]], e0, e1) && Simple(m1[e0 := [e1] + m1[e0]], w1[e1 := [e0] + w1[e1]])
  {
    hide CutFor, Before, Upto, NoDup, Closed, Constrained;
    HeadsCut(m, w, m1, w1, e0, e1);
    ClosedLink(m, m1, e0, e1);
    ClosedLink(w, w1, e1, e0);
    var m2, w2 := m1[e0 := [e1] + m1[e0]], w1[e1 := [e0] + w1[e1]];
    LinkNoDup(m1, e0, e1);
    LinkNoDup(w1, e1, e0);
    LinkedConstrained(m, w, m1, w1, e0, e1, m2);
    LinkedMirror(m, w, m1, w1, e0, e1, m2, w2);
  }

  lemma LinkedConstrained(m: Links<Elt>, w: Links<Elt>, m1: Links<Elt>, w1: Links<Elt>, e0: Elt, e1: Elt,
      m2: Links<Elt>)
    requires Mirror(m, w) && CutFor(m, w, m1, w1, e0, e1) && m2 == m1[e0 := [e1] + m1[e0]] && Closed(m2)
    ensures Constrained(m, m2, e0, e1)
  {
    hide CutFor, Before, Upto, NoDup, Closed;
    HeadsCut(m, w, m1, w1, e0, e1);
    forall a, b | a in m && b in m
      ensures b in m2[a] <==> (b in m[a] && !(Upto(m, a, e0) && Upto(m, e1, b))) || (a == e0 && b == e1)
    {
      LinkAt(m, w, m1, w1, e0, e1, a, b);
    }
  }

  lemma LinkedMirror(m: Links<Elt>, w: Links<Elt>, m1: Links<Elt>, w1: Links<Elt>, e0: Elt, e1: Elt, m2: Links<Elt>,
      w2: Links<Elt>)
    requires Mirror(m, w) && CutFor(m, w, m1, w1, e0, e1)
    requires m2 == m1[e0 := [e1] + m1[e0]] && Closed(m2) && w2 == w1[e1 := [e0] + w1[e1]] && Closed(w2)
    ensures Mirror(m2, w2)
  {
    hide CutFor, Before, Upto, NoDup, Closed;
    HeadsCut(m, w, m1, w1, e0, e1);
    forall a, b | a in m && b in m ensures b in m2[a] <==> a in w2[b] {
      LinkAt(m, w, m1, w1, e0, e1, a, b);
    }
  }

  lemma LinkNoDup(m1: Links<Elt>, e0: Elt, e1: Elt)
    requires e0 in m1 && e1 !in m1[e0] && forall a :: a in m1 ==> NoDup(m1[a])
    ensures forall a :: a in m1 ==> NoDup(m1[e0 := [e1] + m1[e0]][a])
  {
    PrependNoDup(m1[e0], e1);
  }

  lemma HeadsCut(m: Links<Elt>, w: Links<Elt>, m1: Links<Elt>, w1: Links<Elt>, e0: Elt, e1: Elt)
    requires CutFor(m, w, m1, w1, e0, e1)
    ensures m.Keys == w.Keys == m1.Keys == w1.Keys && e0 in m && e1 in m
    ensures e1 !in m1[e0] && e0 !in w1[e1] && forall a :: a in m ==> NoDup(m1[a]) && NoDup(w1[a])
    ensures forall a, b :: a in m && b in m1[a] ==> b in m[a]
    ensures forall a, b :: a in m && b in w1[a] ==> b in w[a]
  {
    assert Upto(m, e0, e0) && Upto(m, e1, e1);
  }

  lemma LinkAt(m: Links<Elt>, w: Links<Elt>, m1: Links<Elt>, w1: Links<Elt>, e0: Elt, e1: Elt, a: Elt, b: Elt)
    requires Mirror(m, w) && CutFor(m, w, m1, w1, e0, e1) && a in m && b in m
    ensures b in m1[e0 := [e1] + m1[e0]][a] <==>
              (b in m[a] && !(Upto(m, a, e0) && Upto(m, e1, b))) || (a == e0 && b == e1)
    ensures a in w1[e1 := [e0] + w1[e1]][b] <==>
              (b in m[a] && !(Upto(m, a, e0) && Upto(m, e1, b))) || (a == e0 && b == e1)
  {
    hide Before, NoDup;
  }

  lemma ClosedLink(m: Links<Elt>, m1: Links<Elt>, e0: Elt, e1: Elt)
    requires Closed(m) && m1.Keys == m.Keys && e0 in m && e1 in m && forall a, b :: a in m && b in m1[a] ==> b in m[a]
    ensures Closed(m1[e0 := [e1] + m1[e0]])
  {}

  lemma SpanIsUpto(m: Links<Elt>, w: Links<Elt>, e0: Elt, e1: Elt)
    requires Mirror(m, w) && e0 in m && e1 in m
    ensures forall d :: d in m ==> (d in After(w, e0) + {e0} <==> Upto(m, d, e0))
    ensures forall u :: u in m ==> (u in After(m, e1) + {e1} <==> Upto(m, e1, u))
  {
    forall d | d in m ensures d in After(w, e0) + {e0} <==> Upto(m, d, e0) { BeforeMirror(m, w, d, e0); }
  }

  lemma SafeToCut(m: Links<Elt>, w: Links<Elt>, e0: Elt, e1: Elt)
    requires Mirror(m, w) && !Upto(m, e1, e0) && e0 in m && e1 in m
    ensures forall d :: d in m && Upto(w, e0, d) ==> d !in After(m, e1) + {e1}
  {
    SpanIsUpto(m, w, e0, e1);
    forall d | d in m && Upto(w, e0, d) ensures d !in After(m, e1) + {e1} {
      BeforeMirror(m, w, d, e0);
      if Upto(m, e1, d) { BeforeTrans(m, e1, d, e0); }
    }
  }

  /** The new link between diagrams whose redundant links have been cut. */
  method LinkUp(e0: Elt, e1: Elt, ghost elts: set<Elt>, ghost m: Links<Elt>, ghost w: Links<Elt>)
    requires Simple(m, w) && m.Keys == elts == w.Keys && e0 in elts && e1 in elts && e0 != e1
    requires IsCut(elts, m, w, After(w, e0) + {e0}, After(m, e1) + {e1})
    modifies e0`isuccs, e1`ipreds
    ensures Constrained(m, Succs(elts), e0, e1) && Simple(Succs(elts), Preds(elts))
  {
    CutShape(elts, m, w, e0, e1);
    LinkShape(m, w, Succs(elts), Preds(elts), e0, e1);
    hide IsCut, After, CutFor, Constrained, Simple;
    SetSuccs(e0, [e1] + e0.isuccs, elts);
    SetPreds(e1, [e0] + e1.ipreds, elts);
  }

  method SetSuccs(e: Elt, s: seq<Elt>, ghost elts: set<Elt>)
    requires e in elts
    modifies e`isuccs
    ensures Succs(elts) == old(Succs(elts))[e := s]
  {
    e.isuccs := s;
  }

  method SetPreds(e: Elt, s: seq<Elt>, ghost elts: set<Elt>)
    requires e in elts
    modifies e`ipreds
    ensures Preds(elts) == old(Preds(elts))[e := s]
  {
    e.ipreds := s;
  }

  lemma ConstrainedBounded(m: Links<Elt>, m': Links<Elt>, e0: Elt, e1: Elt, bot: Elt, top: Elt)
    requires Constrained(m, m', e0, e1) && !Upto(m, e1, e0) && Bounded(m, bot, top)
    ensures Bounded(m', bot, top)
  {
    ConstrainedOrder(m, m', e0, e1);
    hide Before, Constrained;
  }

  /** Cutting, linking and updating levels gives the diagram of the constrained order. */
  lemma ConstrainedDiagram(m: Links<Elt>, w: Links<Elt>, l: map<Elt, nat>, m': Links<Elt>, w': Links<Elt>,
      l': map<Elt, nat>, e0: Elt, e1: Elt, level: nat, bot: Elt, top: Elt)
    requires m.Keys == w.Keys == l.Keys == m'.Keys == w'.Keys == l'.Keys && bot in m' && e0 in m && e1 in m
    requires Relevelled(m', w', l, l', e1, level)
    requires Diagram(m, w, l, bot, top) && Constrained(m, m', e0, e1) && Simple(m', w')
    requires !Upto(m, e1, e0) && !Before(m, e0, e1)
    ensures Diagram(m', w', l', bot, top) && top !in m'[bot]
  {
    hide Constrained, Before, Upto, Relevelled, Simple, Reduced, Bounded, Leveled;
    DiagramParts(m, w, l, bot, top, e0, e1);
    DiagramParts0(m', w');
    ConstrainedLeveled(m, w, l, m', w', l', e0, e1, level, bot);
    ConstrainedBounded(m, m', e0, e1, bot, top);
    ConstrainedReduced(m, m', e0, e1, bot, top);
    Unlinked(m, m', e0, e1, bot, top);
  }

  lemma Unlinked(m: Links<Elt>, m': Links<Elt>, e0: Elt, e1: Elt, bot: Elt, top: Elt)
    requires Constrained(m, m', e0, e1) && Bounded(m, bot, top) && !Before(m, e0, e1)
    ensures bot in m' && top !in m'[bot]
  {
    ConstrainedUnlinksBounds(m, m', e0, e1, bot, top);
  }

  lemma DiagramParts0(m: Links<Elt>, w: Links<Elt>)
    requires Simple(m, w)
    ensures Mirror(m, w)
  {}

  lemma DiagramParts(m: Links<Elt>, w: Links<Elt>, l: map<Elt, nat>, bot: Elt, top: Elt, e0: Elt, e1: Elt)
    requires Diagram(m, w, l, bot, top) && e0 in m && e1 in m
    ensures m.Keys == w.Keys == l.Keys && Closed(m) && Rising(m, l) && Acyclic(m) && Acyclic(w) && Mirror(m, w)
    ensures Upto(m, bot, e0) && Upto(m, e1, top) && Simple(m, w) && bot in m
  {
    RisingAcyclic(m, l);
    forall a | a in w ensures !Before(w, a, a) { BeforeMirror(m, w, a, a); }
  }

  lemma AlreadyImplied(m: Links<Elt>, e0: Elt, e1: Elt)
    requires Before(m, e0, e1)
    ensures forall x: Elt, y: Elt :: Before(m, x, y) <==> Implied(m, e0, e1, x, y)
  {
    forall x: Elt, y: Elt | Upto(m, x, e0) && Upto(m, e1, y) ensures Before(m, x, y) {
      BeforeTrans(m, x, e0, e1);
      BeforeTrans(m, x, e1, y);
    }
  }

  lemma DiagramEnds(m: Links<Elt>, w: Links<Elt>, l: map<Elt, nat>, bot: Elt, top: Elt)
    requires Diagram(m, w, l, bot, top)
    ensures Ends(m, bot, top) && Acyclic(m)
  {
    RisingAcyclic(m, l);
    forall x | x in m ensures !Before(m, x, bot) && !Before(m, top, x) {
      if Before(m, x, bot) { BeforeTrans(m, bot, x, bot); }
      if Before(m, top, x) { BeforeTrans(m, top, x, top); }
    }
    hide Leveled, Reduced, Simple;
  }

  lemma InsertParts(m: Links<Elt>, w: Links<Elt>, l: map<Elt, nat>, bot: Elt, top: Elt, e: Elt)
    requires Diagram(m, w, l, bot, top) && e !in m
    ensures bot in m && top in w && bot != top && e != bot && e != top && m.Keys == w.Keys == l.Keys
    ensures var m', w' := InsertedSuccs(m, bot, top, e), InsertedPreds(w, bot, top, e);
            Mirror(m', w') && Acyclic(m') && Simple(m', w') && m'.Keys == w'.Keys
    ensures forall x: Elt, y: Elt :: Before(InsertedSuccs(m, bot, top, e), x, y) <==> WithInserted(m, bot, top, e, x, y)
  {
    hide InsertedSuccs, InsertedPreds, Leveled, Reduced;
    DiagramParts(m, w, l, bot, top, bot, bot);
    DiagramEnds(m, w, l, bot, top);
    InsertedSimple(m, w, bot, top, e);
    InsertedOrder(m, bot, top, e);
    InsertedAcyclic(m, bot, top, e);
  }

  lemma InsertedAcyclic(m: Links<Elt>, bot: Elt, top: Elt, e: Elt)
    requires Acyclic(m) && Closed(m) && Ends(m, bot, top) && e !in m
    ensures Acyclic(InsertedSuccs(m, bot, top, e))
  {
    InsertedOrder(m, bot, top, e);
    forall a | a in InsertedSuccs(m, bot, top, e) ensures !WithInserted(m, bot, top, e, a, a) {
      if Before(m, a, a) { BeforeClosed(m, a, a); }
    }
  }

  lemma InsertedDiagram(m: Links<Elt>, w: Links<Elt>, l: map<Elt, nat>, m': Links<Elt>, w': Links<Elt>,
      l': map<Elt, nat>, bot: Elt, top: Elt, e: Elt, level: nat, junk: nat)
    requires e !in m && bot in m && top in w && m.Keys == l.Keys && l'.Keys == m.Keys + {e} == m'.Keys == w'.Keys
    requires Relevelled(m', w', l[e := junk], l', e, level)
    requires m' == InsertedSuccs(m, bot, top, e) && w' == InsertedPreds(w, bot, top, e) && Diagram(m, w, l, bot, top)
    ensures Diagram(m', w', l', bot, top)
  {
    InsertedLast(m, w, bot, top, e);
    hide Relevelled, Leveled, Reduced, Simple, Ends, Bounded, InsertedSuccs, InsertedPreds, Closed, Mirror, Acyclic,
      Before;
    InsertParts(m, w, l, bot, top, e);
    DiagramEnds(m, w, l, bot, top);
    DiagramParts(m, w, l, bot, top, bot, bot);
    InsertedLeveled(m, w, l, m', w', l', bot, top, e, level, junk);
    InsertedReduced(m, bot, top, e);
    InsertedBounded(m, m', bot, top, e);
  }

  lemma InsertedLast(m: Links<Elt>, w: Links<Elt>, bot: Elt, top: Elt, e: Elt)
    requires bot in m && top in w && e != top
    requires top in m[bot] ==> w[top] != [] && w[top][|w[top]| - 1] == bot
    ensures var t := InsertedPreds(w, bot, top, e)[top];
            top in InsertedSuccs(m, bot, top, e)[bot] ==> t != [] && t[|t| - 1] == bot
  {}

  lemma InsertedBounded(m: Links<Elt>, m': Links<Elt>, bot: Elt, top: Elt, e: Elt)
    requires Bounded(m, bot, top) && Closed(m) && Ends(m, bot, top) && e !in m && m' == InsertedSuccs(m, bot, top, e)
    ensures Bounded(m', bot, top)
  {
    InsertedOrder(m, bot, top, e);
    hide Before, Closed;
  }

  lemma TwoElements(m: Links<Elt>, w: Links<Elt>, l: map<Elt, nat>, bot: Elt, top: Elt)
    requires bot != top && m.Keys == w.Keys == l.Keys == {bot, top}
    requires m[bot] == [top] && m[top] == [] && w[bot] == [] && w[top] == [bot] && l[bot] == 0 && l[top] == 1
    ensures Diagram(m, w, l, bot, top)
    ensures forall x: Elt, y: Elt :: Before(m, x, y) <==> x == bot && y == top
  {
    TwoBefore(m, bot, top);
    hide Before;
  }

  lemma TwoBefore(m: Links<Elt>, bot: Elt, top: Elt)
    requires bot != top && m.Keys == {bot, top} && m[bot] == [top] && m[top] == []
    ensures forall x: Elt, y: Elt :: Before(m, x, y) <==> x == bot && y == top
  {
    forall x: Elt, y: Elt ensures Before(m, x, y) <==> x == bot && y == top {
      BeforeFirst(m, x, y);
      if Out(m, x) != [] { BeforeFirst(m, top, y); }
      EdgeBefore(m, bot, top);
    }
  }

  class Po {
    const bot: Elt
    const top: Elt
    ghost var elts: set<Elt>

    ghost predicate Valid()
      reads this, elts
    {
      Diagram(Succs(elts), Preds(elts), Levels(elts), bot, top)
    }

    /** Only a bottom and a top element. */
    constructor ()
      ensures Valid() && elts == {bot, top} && fresh(elts)
      ensures forall x: Elt, y: Elt :: Before(Succs(elts), x, y) <==> x == bot && y == top
    {
      hide Diagram, Before;
      bot := new Elt();
      top := new Elt();
      new;
      elts := {bot, top};
      bot.isuccs, top.ipreds := [top], [bot];
      bot.level, top.level := 0, 1;
      TwoElements(Succs(elts), Preds(elts), Levels(elts), bot, top);
    }

    /** Adds a new element, constrained only by bottom and top. */
    method InsertCct(e: Elt)
      requires Valid() && e !in elts
      modifies `elts, e, bot`isuccs, top`ipreds, elts`level
      ensures Valid() && elts == old(elts) + {e}
      ensures forall x: Elt, y: Elt :: Before(Succs(elts), x, y) <==> WithInserted(old(Succs(elts)), bot, top, e, x, y)
    {
      hide Diagram, Before, WithInserted, Simple, Mirror, Acyclic, Closed, Relevelled, Ends, Leveled, Reduced,
        InsertedSuccs, InsertedPreds;
      ghost var m, w, l := Succs(elts), Preds(elts), Levels(elts);
      InsertParts(m, w, l, bot, top, e);
      hide Succs, Preds, Levels;
      ghost var junk := e.level;
      LevelsMore(elts, e);
      LinkNew(e, bot, top, elts);
      elts := elts + {e};
      LevelNew(e, m, w, l, junk);
      InsertParts(m, w, l, bot, top, e);
    }

    method LevelNew(e: Elt, ghost m: Links<Elt>, ghost w: Links<Elt>, ghost l: map<Elt, nat>, ghost junk: nat)
      requires Diagram(m, w, l, bot, top) && bot in m && top in w && e !in m && m.Keys == l.Keys && elts == m.Keys + {e}
      requires Succs(elts) == InsertedSuccs(m, bot, top, e) && Preds(elts) == InsertedPreds(w, bot, top, e)
      requires Levels(elts) == l[e := junk]
      modifies elts`level
      ensures Valid() && Succs(elts) == InsertedSuccs(m, bot, top, e)
    {
      hide Diagram, Before, WithInserted, Simple, Mirror, Acyclic, Closed, Relevelled, InsertedSuccs, InsertedPreds;
      InsertParts(m, w, l, bot, top, e);
      UpdateLevel(e, elts, InsertedSuccs(m, bot, top, e), InsertedPreds(w, bot, top, e));
      InsertedDiagram(m, w, l, Succs(elts), Preds(elts), Levels(elts), bot, top, e, e.level, junk);
    }

    /** Forces `e0` before `e1`, unless the opposite holds already. */
    method ConstrainPrec(e0: Elt, e1: Elt) returns (ok: bool)
      requires Valid() && e0 in elts && e1 in elts
      modifies elts
      ensures Valid()
      ensures ok <==> !old(Upto(Succs(elts), e1, e0))
      ensures !ok || old(Before(Succs(elts), e0, e1)) ==> unchanged(elts)
      ensures ok ==> forall x: Elt, y: Elt :: Before(Succs(elts), x, y) <==> Implied(old(Succs(elts)), e0, e1, x, y)
      ensures ok && !old(Before(Succs(elts), e0, e1)) ==> top !in bot.isuccs
    {
      hide Diagram, Implied, Steps, Before, Constrained, Simple, Mirror, IsCut, Spanned, Dead, After, Rising, Acyclic,
        Closed;
      if e0 == e1 {
        return false;
      }
      ghost var m, w, l := Succs(elts), Preds(elts), Levels(elts);
      DiagramParts(m, w, l, bot, top, e0, e1);
      var prec := Prec(e0, e1, elts);
      if prec {
        AlreadyImplied(m, e0, e1);
        AntiSym(m, e0, e1);
        return true;
      }
      NoneVisited(m, e1, e0);
      var found, uspan1 := PrecCollectUspan(e1, e0, {}, elts, m);
      if found {
        return false;
      }
      uspan1 := uspan1 + {e1};
      Constrain(e0, e1, uspan1, m, w, l);
      return true;
    }

    /** Cuts what becomes redundant, links and updates levels. */
    method Constrain(e0: Elt, e1: Elt, uspan1: set<Elt>, ghost m: Links<Elt>, ghost w: Links<Elt>,
        ghost l: map<Elt, nat>)
      requires Valid() && e0 in elts && e1 in elts && m == Succs(elts) && w == Preds(elts) && l == Levels(elts)
      requires !Upto(m, e1, e0) && !Before(m, e0, e1) && uspan1 == After(m, e1) + {e1}
      modifies elts
      ensures Valid() && top !in bot.isuccs
      ensures forall x: Elt, y: Elt :: Before(Succs(elts), x, y) <==> Implied(m, e0, e1, x, y)
    {
      hide Diagram, Implied, Before, Constrained, Simple, Mirror, After, Rising, Acyclic, Closed, Upto, Relevelled;
      DiagramParts(m, w, l, bot, top, e0, e1);
      hide Succs, Preds, Levels;
      Relink(e0, e1, uspan1, elts, m, w);
      ghost var m', w' := Succs(elts), Preds(elts);
      NewGraph(m, m', w', e0, e1);
      LevelConstrained(e0, e1, m, w, l, m', w');
      ConstrainedOrder(m, m', e0, e1);
    }

    method LevelConstrained(e0: Elt, e1: Elt, ghost m: Links<Elt>, ghost w: Links<Elt>, ghost l: map<Elt, nat>,
        ghost m': Links<Elt>, ghost w': Links<Elt>)
      requires m' == Succs(elts) && w' == Preds(elts) && l == Levels(elts) && m.Keys == w.Keys == elts
      requires e0 in elts && e1 in elts && Diagram(m, w, l, bot, top) && bot in elts
      requires Constrained(m, m', e0, e1) && !Upto(m, e1, e0) && !Before(m, e0, e1)
      requires Simple(m', w') && Mirror(m', w') && Acyclic(m')
      modifies elts`level
      ensures Valid() && top !in bot.isuccs && m' == Succs(elts)
    {
      hide Diagram, Before, Constrained, Simple, Mirror, Acyclic, Upto, Relevelled;
      UpdateLevel(e1, elts, m', w');
      ConstrainedDiagram(m, w, l, m', w', Levels(elts), e0, e1, e1.level, bot, top);
    }
  }

  lemma LevelsMore(elts: set<Elt>, e: Elt)
    ensures Levels(elts + {e}) == Levels(elts)[e := e.level]
  {}

  /** Links a new element to bottom and top. */
  method LinkNew(e: Elt, bot: Elt, top: Elt, ghost elts: set<Elt>)
    requires e !in elts && bot in elts && top in elts && bot != top
    modifies e`isuccs, e`ipreds, bot`isuccs, top`ipreds
    ensures Succs(elts + {e}) == InsertedSuccs(old(Succs(elts)), bot, top, e)
    ensures Preds(elts + {e}) == InsertedPreds(old(Preds(elts)), bot, top, e)
  {
    e.ipreds, e.isuccs := [], [];
    e.ipreds := [bot] + e.ipreds;
    e.isuccs := [top] + e.isuccs;
    bot.isuccs := [e] + bot.isuccs;
    top.ipreds := [e] + top.ipreds;
    assert e.ipreds == [bot] && e.isuccs == [top];
    assert Succs(elts + {e}) == InsertedSuccs(old(Succs(elts)), bot, top, e);
    assert Preds(elts + {e}) == InsertedPreds(old(Preds(elts)), bot, top, e);
  }

  /** Cuts what the new constraint makes redundant and links. */
  method Relink(e0: Elt, e1: Elt, uspan1: set<Elt>, ghost elts: set<Elt>, ghost m: Links<Elt>, ghost w: Links<Elt>)
    requires m == Succs(elts) && w == Preds(elts) && Simple(m, w) && Acyclic(w) && e0 in elts && e1 in elts
    requires !Upto(m, e1, e0) && uspan1 == After(m, e1) + {e1}
    modifies elts`isuccs, elts`ipreds
    ensures Constrained(m, Succs(elts), e0, e1) && Simple(Succs(elts), Preds(elts)) && Levels(elts) == old(Levels(elts))
  {
    hide Before, Constrained, Simple, IsCut, Spanned, After, Acyclic, Upto;
    DiagramParts0(m, w);
    StartRemove(elts, m, w, e0, e1);
    var lspan0 := RemoveSuccs(e0, uspan1, {}, elts, m, w, e0);
    assert lspan0 + {e0} == After(w, e0) + {e0};
    LinkUp(e0, e1, elts, m, w);
  }

  lemma StartRemove(elts: set<Elt>, m: Links<Elt>, w: Links<Elt>, e0: Elt, e1: Elt)
    requires m == Succs(elts) && w == Preds(elts) && Mirror(m, w) && e0 in elts && e1 in elts && !Upto(m, e1, e0)
    ensures m.Keys == elts == w.Keys
    ensures IsCut(elts, m, w, {} + {e0} - {e0}, After(m, e1) + {e1}) && Spanned(w, {}, e0) && Upto(w, e0, e0)
    ensures e0 != e1
    ensures forall d :: d in elts && Upto(w, e0, d) ==> d !in After(m, e1) + {e1}
  {
    SafeToCut(m, w, e0, e1);
    forall a | a in elts ensures Without(w[a], {}) == w[a] { WithoutNone(w[a]); }
    assert {} + {e0} - {e0} == {};
    hide After, Upto, Before;
  }

  lemma NewGraph(m: Links<Elt>, m': Links<Elt>, w': Links<Elt>, e0: Elt, e1: Elt)
    requires Constrained(m, m', e0, e1) && !Upto(m, e1, e0) && Acyclic(m) && Simple(m', w')
    ensures Acyclic(m') && Mirror(m', w') && m'.Keys == m.Keys == w'.Keys && w'[e1] != []
  {
    ConstrainedAcyclic(m, m', e0, e1);
    assert e0 in w'[e1];
  }

  lemma AntiSym(m: Links<Elt>, e0: Elt, e1: Elt)
    requires Acyclic(m) && Closed(m) && Before(m, e0, e1)
    ensures !Upto(m, e1, e0)
  {
    BeforeClosed(m, e0, e1);
    if Upto(m, e1, e0) { BeforeTrans(m, e0, e1, e0); }
  }

  lemma NoneVisited(m: Links<Elt>, here: Elt, goal: Elt)
    ensures Dead(m, {}, here, goal) && Spanned(m, {}, here)
  {}
}
