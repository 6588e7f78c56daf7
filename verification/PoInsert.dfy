/** Adding an element between bottom and top. */
module PoInsert {
  import opened PoGraph
  import opened PoSearch
  import opened PoRemove
  import opened PoLevels

  function InsertedSuccs(m: Links<Elt>, bot: Elt, top: Elt, e: Elt): Links<Elt>
    requires bot in m
  {
    m[e := [top]][bot := [e] + m[bot]]
  }

  function InsertedPreds(w: Links<Elt>, bot: Elt, top: Elt, e: Elt): Links<Elt>
    requires top in w
  {
    w[e := [bot]][top := [e] + w[top]]
  }

  /** What comes before what once `e` lies between bottom and top. */
  ghost predicate WithInserted(m: Links<Elt>, bot: Elt, top: Elt, e: Elt, x: Elt, y: Elt) {
    Before(m, x, y) || (x == bot && y == e) || (x == e && y == top)
  }

  ghost predicate Ends(m: Links<Elt>, bot: Elt, top: Elt) {
    && bot in m && top in m && Before(m, bot, top)
    && forall x :: x in m ==> !Before(m, x, bot) && !Before(m, top, x)
  }

  lemma WithInsertedTrans(m: Links<Elt>, bot: Elt, top: Elt, e: Elt, x: Elt, y: Elt, z: Elt)
    requires Closed(m) && Ends(m, bot, top) && e !in m
    requires WithInserted(m, bot, top, e, x, y) && WithInserted(m, bot, top, e, y, z)
    ensures WithInserted(m, bot, top, e, x, z)
  {
    if Before(m, x, y) { BeforeClosed(m, x, y); }
    if Before(m, y, z) { BeforeClosed(m, y, z); }
    if Before(m, x, y) && Before(m, y, z) { BeforeTrans(m, x, y, z); }
  }

  lemma InsertedOut(m: Links<Elt>, bot: Elt, top: Elt, e: Elt, a: Elt)
    requires Ends(m, bot, top) && e !in m
    ensures Out(InsertedSuccs(m, bot, top, e), a) == if a == e then [top] else if a == bot then [e] + m[bot]
              else Out(m, a)
  {}

  lemma {:induction false} InsertedSteps(m: Links<Elt>, bot: Elt, top: Elt, e: Elt, x: Elt, y: Elt, n: nat)
    requires Closed(m) && Ends(m, bot, top) && e !in m && n > 0 && Steps(InsertedSuccs(m, bot, top, e), x, y, n)
    ensures WithInserted(m, bot, top, e, x, y)
    decreases n
  {
    var m' := InsertedSuccs(m, bot, top, e);
    var c :| c in Out(m', x) && Steps(m', c, y, n - 1);
    InsertedOut(m, bot, top, e, x);
    assert WithInserted(m, bot, top, e, x, c) by {
      if c in Out(m, x) { EdgeBefore(m, x, c); }
    }
    if n > 1 {
      InsertedSteps(m, bot, top, e, c, y, n - 1);
      WithInsertedTrans(m, bot, top, e, x, c, y);
    } else {
      assert c == y;
    }
  }

  lemma {:induction false} StepsStay(m: Links<Elt>, m': Links<Elt>, x: Elt, y: Elt, n: nat)
    requires forall a, b :: a in m && b in m[a] ==> b in Out(m', a)
    requires Steps(m, x, y, n)
    ensures Steps(m', x, y, n)
    decreases n
  {
    if n > 0 {
      var c :| c in Out(m, x) && Steps(m, c, y, n - 1);
      StepsStay(m, m', c, y, n - 1);
    }
  }

  lemma InsertedOrder(m: Links<Elt>, bot: Elt, top: Elt, e: Elt)
    requires Closed(m) && Ends(m, bot, top) && e !in m
    ensures forall x: Elt, y: Elt :: Before(InsertedSuccs(m, bot, top, e), x, y) <==> WithInserted(m, bot, top, e, x, y)
  {
    var m' := InsertedSuccs(m, bot, top, e);
    forall a, b | a in m && b in m[a] ensures b in Out(m', a) { InsertedOut(m, bot, top, e, a); }
    forall x: Elt, y: Elt ensures Before(m', x, y) <==> WithInserted(m, bot, top, e, x, y) {
      if Before(m', x, y) {
        var n: nat :| n > 0 && Steps(m', x, y, n);
        InsertedSteps(m, bot, top, e, x, y, n);
      }
      if Before(m, x, y) {
        var n: nat :| n > 0 && Steps(m, x, y, n);
        StepsStay(m, m', x, y, n);
      }
      InsertedOut(m, bot, top, e, bot);
      InsertedOut(m, bot, top, e, e);
      EdgeBefore(m', bot, e);
      EdgeBefore(m', e, top);
    }
  }

  lemma InsertedSimple(m: Links<Elt>, w: Links<Elt>, bot: Elt, top: Elt, e: Elt)
    requires Simple(m, w) && bot in m && top in m && bot != top && e !in m
    ensures Simple(InsertedSuccs(m, bot, top, e), InsertedPreds(w, bot, top, e))
  {
    var m', w' := InsertedSuccs(m, bot, top, e), InsertedPreds(w, bot, top, e);
    InsertedMirror(m, w, bot, top, e);
    forall a | a in m' ensures NoDup(m'[a]) && NoDup(w'[a]) {
      assert e !in Out(m, bot) && e !in Out(w, top);
    }
    hide NoDup, Mirror;
  }

  lemma InsertedMirror(m: Links<Elt>, w: Links<Elt>, bot: Elt, top: Elt, e: Elt)
    requires Mirror(m, w) && bot in m && top in m && bot != top && e !in m
    ensures Mirror(InsertedSuccs(m, bot, top, e), InsertedPreds(w, bot, top, e))
  {}

  lemma InsertedReduced(m: Links<Elt>, bot: Elt, top: Elt, e: Elt)
    requires Closed(m) && Ends(m, bot, top) && e !in m && Reduced(m, bot, top) && !Before(m, bot, bot)
    requires !Before(m, top, top)
    ensures Reduced(InsertedSuccs(m, bot, top, e), bot, top)
  {
    var m' := InsertedSuccs(m, bot, top, e);
    InsertedOrder(m, bot, top, e);
    forall a, b, c | a in m' && b in m'[a] && c in m' && !(a == bot && b == top)
      ensures !(Before(m', a, c) && Before(m', c, b))
    {
      InsertedOut(m, bot, top, e, a);
      InsertedBetween(m, bot, top, e, a, b, c);
    }
  }

  lemma InsertedBetween(m: Links<Elt>, bot: Elt, top: Elt, e: Elt, a: Elt, b: Elt, c: Elt)
    requires Closed(m) && Ends(m, bot, top) && e !in m && Reduced(m, bot, top) && !(a == bot && b == top)
    requires b in if a == e then [top] else if a == bot then [e] + m[bot] else Out(m, a)
    ensures !(WithInserted(m, bot, top, e, a, c) && WithInserted(m, bot, top, e, c, b))
  {
    if Before(m, a, c) { BeforeClosed(m, a, c); }
    if Before(m, c, b) { BeforeClosed(m, c, b); }
  }

  lemma InsertedLeveled(m: Links<Elt>, w: Links<Elt>, l: map<Elt, nat>, m': Links<Elt>, w': Links<Elt>,
      l': map<Elt, nat>, bot: Elt, top: Elt, e: Elt, level: nat, junk: nat)
    requires m.Keys == w.Keys == l.Keys && e !in m && l'.Keys == m.Keys + {e} == m'.Keys == w'.Keys && bot in m
    requires top in m
    requires Relevelled(m', w', l[e := junk], l', e, level)
    requires m' == InsertedSuccs(m, bot, top, e) && w' == InsertedPreds(w, bot, top, e)
    requires Leveled(m, w, l, bot) && Ends(m, bot, top) && bot != top && Mirror(m', w')
    ensures Leveled(m', w', l', bot)
  {
    hide TightAt, Raised, RisesBut, RisesAt, OverPreds, Ends, InsertedSuccs, InsertedPreds, Before, Closed, Mirror;
    InsertedAfter(m, w, bot, top, e);
    InsertedTight(m, w, l, m', w', l', bot, top, e, level, junk);
    InsertedRising(m, l, m', l', bot, top, e, junk);
  }

  lemma InsertedAfter(m: Links<Elt>, w: Links<Elt>, bot: Elt, top: Elt, e: Elt)
    requires Mirror(m, w) && Ends(m, bot, top) && e !in m
    ensures !Upto(InsertedSuccs(m, bot, top, e), e, bot) && Closed(m) && bot != e
  {
    InsertedOrder(m, bot, top, e);
  }

  lemma InsertedRising(m: Links<Elt>, l: map<Elt, nat>, m': Links<Elt>, l': map<Elt, nat>, bot: Elt, top: Elt, e: Elt,
      junk: nat)
    requires Rising(m, l) && Closed(m) && bot in m && top in m && e !in m && l'.Keys == m.Keys + {e} == m'.Keys
    requires m' == InsertedSuccs(m, bot, top, e)
    requires forall a :: a in m' && (a == e || RisesBut(m', l[e := junk], a, e)) ==> RisesAt(m', l', a)
    ensures Rising(m', l')
  {
    forall a | a in m' ensures RisesAt(m', l', a) {
      if a != e {
        OldRises(m, l, m', bot, top, e, junk, a);
      }
    }
    hide Closed, InsertedSuccs, RisesBut;
  }

  lemma OldRises(m: Links<Elt>, l: map<Elt, nat>, m': Links<Elt>, bot: Elt, top: Elt, e: Elt, junk: nat, a: Elt)
    requires Rising(m, l) && Closed(m) && bot in m && top in m && e !in m && m'.Keys == m.Keys + {e}
    requires m' == InsertedSuccs(m, bot, top, e) && a in m
    ensures RisesBut(m', l[e := junk], a, e)
  {
    assert forall s :: s in m'[a] && s != e ==> s in m[a];
  }

  lemma InsertedTight(m: Links<Elt>, w: Links<Elt>, l: map<Elt, nat>, m': Links<Elt>, w': Links<Elt>, l': map<Elt, nat>,
      bot: Elt, top: Elt, e: Elt, level: nat, junk: nat)
    requires m.Keys == w.Keys == l.Keys && e !in m && l'.Keys == m.Keys + {e} == m'.Keys == w'.Keys && bot in m
    requires top in m
    requires Relevelled(m', w', l[e := junk], l', e, level) && !Upto(m', e, bot)
    requires m' == InsertedSuccs(m, bot, top, e) && w' == InsertedPreds(w, bot, top, e)
    requires Leveled(m, w, l, bot) && Ends(m, bot, top) && bot != top
    ensures l'[bot] == 0 && forall v :: v in m' && v != bot ==> TightAt(w', l', v)
  {
    hide Before, Upto, Closed, Mirror, RisesBut, RisesAt;
    forall v: Elt | v in m' && v != bot ensures TightAt(w', l', v) {
      if v == e {
        assert bot in w'[e];
      } else if l'[v] == l[v] {
        OldTight(m, w, l, w', l', bot, top, e, v);
      }
    }
  }

  lemma OldTight(m: Links<Elt>, w: Links<Elt>, l: map<Elt, nat>, w': Links<Elt>, l': map<Elt, nat>, bot: Elt, top: Elt,
      e: Elt, v: Elt)
    requires Mirror(m, w) && Rising(m, l) && TightAt(w, l, v) && e !in m && top in m
    requires l'.Keys == m.Keys + {e} == w'.Keys
    requires w' == InsertedPreds(w, bot, top, e) && l'[v] == l[v] && forall u :: u in m ==> l'[u] >= l[u]
    ensures TightAt(w', l', v)
  {
    var u := TightPred(m, w, l, v);
    assert u in w[v] && u in w'[v];
  }
}
