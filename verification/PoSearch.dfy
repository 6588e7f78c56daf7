/** Searching a partial order that is kept as a Hasse diagram with levels. */
module PoSearch {
  import opened PoGraph

  class Elt {
    var isuccs: seq<Elt>
    var ipreds: seq<Elt>
    var level: nat
    constructor ()
      ensures isuccs == [] && ipreds == []
    {
      isuccs, ipreds, level := [], [], 0;
    }
  }

  ghost function Succs(elts: set<Elt>): (m: Links<Elt>)
    reads elts`isuccs
    ensures m.Keys == elts
  {
    map e | e in elts :: e.isuccs
  }

  ghost function Preds(elts: set<Elt>): (m: Links<Elt>)
    reads elts`ipreds
    ensures m.Keys == elts
  {
    map e | e in elts :: e.ipreds
  }

  ghost function Levels(elts: set<Elt>): (m: map<Elt, nat>)
    reads elts`level
    ensures m.Keys == elts
  {
    map e | e in elts :: e.level
  }

  lemma RisingAcyclic(m: Links<Elt>, level: map<Elt, nat>)
    requires Closed(m) && Rising(m, level)
    ensures Acyclic(m)
  {
    forall a | a in m ensures !Before(m, a, a) {
      if Before(m, a, a) { BeforeRises(m, level, a, a); }
    }
  }

  lemma NoWayBack(m: Links<Elt>, a: Elt, c: Elt)
    requires Acyclic(m) && c in Out(m, a)
    ensures !Upto(m, c, a)
  {
    EdgeBefore(m, a, c);
    if Upto(m, c, a) { BeforeTrans(m, a, c, a); }
  }

  // ------------------------------------------------------------------ searching

  /** What has been visited is on the way here or does not lead to the goal. */
  ghost predicate Dead(m: Links<Elt>, visited: set<Elt>, here: Elt, goal: Elt) {
    forall v :: v in visited ==> Upto(m, v, here) || !Upto(m, v, goal)
  }

  lemma DeadBelow(m: Links<Elt>, visited: set<Elt>, here: Elt, e: Elt, goal: Elt)
    requires Dead(m, visited, here, goal) && e in Out(m, here)
    ensures Dead(m, visited + {e}, e, goal)
  {
    EdgeBefore(m, here, e);
    forall v | v in visited + {e} ensures Upto(m, v, e) || !Upto(m, v, goal) {
      if v in visited && Upto(m, v, here) { BeforeTrans(m, v, here, e); }
    }
  }

  lemma DeadAbove(m: Links<Elt>, visited: set<Elt>, more: set<Elt>, here: Elt, goal: Elt)
    requires Dead(m, visited, here, goal)
    requires forall v :: v in more ==> v in visited || !Upto(m, v, goal)
    ensures Dead(m, more, here, goal)
  {}

  /** Searches upwards from `e0` for `e1`, not above the level of `e1`. */
  method Search(e0: Elt, e1: Elt, uspan: set<Elt>, ghost elts: set<Elt>, ghost m: Links<Elt>)
      returns (found: bool, uspan': set<Elt>)
    requires m == Succs(elts) && Closed(m) && Rising(m, Levels(elts)) && e0 in elts && e1 in elts
    requires Dead(m, uspan, e0, e1)
    ensures found <==> Before(m, e0, e1)
    ensures !found ==> uspan <= uspan' && forall v :: v in uspan' ==> v in uspan || !Upto(m, v, e1)
    decreases |After(m, e0)|
  {
    RisingAcyclic(m, Levels(elts));
    uspan' := uspan;
    if e0.level >= e1.level {
      if Before(m, e0, e1) { BeforeRises(m, Levels(elts), e0, e1); }
      return false, uspan';
    }
    BeforeFirst(m, e0, e1);
    var i := 0;
    while i < |e0.isuccs|
      invariant 0 <= i <= |e0.isuccs|
      invariant forall j :: 0 <= j < i ==> !Upto(m, e0.isuccs[j], e1)
      invariant uspan <= uspan' && forall v :: v in uspan' ==> v in uspan || !Upto(m, v, e1)
    {
      var e := e0.isuccs[i];
      assert e in Out(m, e0);
      if e == e1 {
        return true, uspan';
      }
      NoWayBack(m, e0, e);
      if e !in uspan' {
        DeadAbove(m, uspan, uspan', e0, e1);
        DeadBelow(m, uspan', e0, e, e1);
        AfterShrinks(m, e0, e);
        found, uspan' := Search(e, e1, uspan' + {e}, elts, m);
        if found {
          return true, uspan';
        }
      }
      i := i + 1;
    }
    found := false;
  }

  /** True iff `e0` comes before `e1`. */
  method Prec(e0: Elt, e1: Elt, ghost elts: set<Elt>) returns (prec: bool)
    requires Closed(Succs(elts)) && Rising(Succs(elts), Levels(elts)) && e0 in elts && e1 in elts
    ensures prec <==> Before(Succs(elts), e0, e1)
  {
    var done;
    prec, done := Search(e0, e1, {}, elts, Succs(elts));
  }

  /** What has been visited is on the way here or has been visited with all beyond. */
  ghost predicate Spanned(m: Links<Elt>, visited: set<Elt>, here: Elt) {
    forall v :: v in visited ==> Upto(m, v, here) || After(m, v) <= visited
  }

  lemma SpannedBelow(m: Links<Elt>, visited: set<Elt>, here: Elt, e: Elt)
    requires Spanned(m, visited, here) && e in Out(m, here)
    ensures Spanned(m, visited + {e}, e)
  {
    EdgeBefore(m, here, e);
    forall v | v in visited + {e} ensures Upto(m, v, e) || After(m, v) <= visited + {e} {
      if v in visited && Upto(m, v, here) { BeforeTrans(m, v, here, e); }
    }
  }

  /** The elements beyond `e` have been added. */
  lemma SpannedAbove(m: Links<Elt>, visited: set<Elt>, here: Elt, e: Elt)
    requires Spanned(m, visited, here)
    ensures Spanned(m, visited + {e} + After(m, e), here)
  {
    var all := visited + {e} + After(m, e);
    forall v | v in all ensures Upto(m, v, here) || After(m, v) <= all {
      if v in After(m, e) {
        forall x | x in After(m, v) ensures x in After(m, e) { BeforeTrans(m, e, v, x); }
      }
    }
  }

  lemma AfterIncludes(m: Links<Elt>, a: Elt, e: Elt)
    requires Closed(m) && e in Out(m, a)
    ensures {e} + After(m, e) <= After(m, a)
  {
    EdgeBefore(m, a, e);
    forall x | x in After(m, e) ensures x in After(m, a) { BeforeTrans(m, a, e, x); }
  }

  /** Everything beyond `a` is beyond one of its links. */
  lemma AfterCovered(m: Links<Elt>, a: Elt, visited: set<Elt>)
    requires forall e :: e in Out(m, a) ==> {e} + After(m, e) <= visited
    ensures After(m, a) <= visited
  {
    forall x | x in After(m, a) ensures x in visited {
      BeforeFirst(m, a, x);
      var e :| e in Out(m, a) && Upto(m, e, x);
    }
  }

  /** Searches upwards from `e0` for `e1`, collecting what comes after `e0`. */
  method PrecCollectUspan(e0: Elt, e1: Elt, uspan: set<Elt>, ghost elts: set<Elt>, ghost m: Links<Elt>)
      returns (found: bool, uspan': set<Elt>)
    requires m == Succs(elts) && Closed(m) && Acyclic(m) && e0 in elts && e1 in elts
    requires Dead(m, uspan, e0, e1) && Spanned(m, uspan, e0)
    ensures found <==> Before(m, e0, e1)
    ensures !found ==> uspan' == uspan + After(m, e0)
    decreases |After(m, e0)|
  {
    hide Before, Spanned, Dead, After;
    uspan' := uspan;
    BeforeFirst(m, e0, e1);
    var i := 0;
    while i < |e0.isuccs|
      invariant 0 <= i <= |e0.isuccs|
      invariant forall j :: 0 <= j < i ==>
                !Upto(m, e0.isuccs[j], e1) && {e0.isuccs[j]} + After(m, e0.isuccs[j]) <= uspan'
      invariant uspan <= uspan' <= uspan + After(m, e0)
      invariant Spanned(m, uspan', e0) && Dead(m, uspan', e0, e1)
    {
      var e := e0.isuccs[i];
      assert e in Out(m, e0);
      if e == e1 {
        return true, uspan';
      }
      if e in uspan' {
        VisitedIsDone(m, uspan', e0, e, e1);
      } else {
        DeadBelow(m, uspan', e0, e, e1);
        SpannedBelow(m, uspan', e0, e);
        SpannedAbove(m, uspan', e0, e);
        AfterShrinks(m, e0, e);
        AfterIncludes(m, e0, e);
        ghost var before := uspan';
        found, uspan' := PrecCollectUspan(e, e1, uspan' + {e}, elts, m);
        if found {
          return true, uspan';
        }
        DeadAfter(m, before, e, e0, e1);
      }
      i := i + 1;
    }
    AfterCovered(m, e0, uspan');
    found := false;
  }

  lemma VisitedIsDone(m: Links<Elt>, visited: set<Elt>, here: Elt, e: Elt, goal: Elt)
    requires Acyclic(m) && Spanned(m, visited, here) && Dead(m, visited, here, goal) && e in Out(m, here)
    requires e in visited
    ensures !Upto(m, e, goal) && {e} + After(m, e) <= visited
  {
    NoWayBack(m, here, e);
  }

  lemma DeadAfter(m: Links<Elt>, visited: set<Elt>, e: Elt, here: Elt, goal: Elt)
    requires Dead(m, visited, here, goal) && !Before(m, e, goal) && e != goal
    ensures Dead(m, visited + {e} + After(m, e), here, goal) && !Upto(m, e, goal)
  {
    forall v | v in After(m, e) ensures !Upto(m, v, goal) {
      if Upto(m, v, goal) { BeforeTrans(m, e, v, goal); }
    }
  }
}
