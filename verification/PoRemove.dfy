/** Removing the links that a new constraint makes redundant. */
module PoRemove {
  import opened PoGraph
  import opened PoSearch

  ghost predicate NoDup<E>(s: seq<E>) {
    forall i, j :: 0 <= i < j < |s| ==> s[i] != s[j]
  }

  function Without<E(==)>(s: seq<E>, x: set<E>): seq<E> {
    if s == [] then [] else (if s[0] in x then [] else [s[0]]) + Without(s[1..], x)
  }

  /** A list without the first occurrence of an item. */
  function Erased<E(==)>(s: seq<E>, x: E): seq<E> {
    if s == [] then [] else if s[0] == x then s[1..] else [s[0]] + Erased(s[1..], x)
  }

  lemma {:induction false} WithoutMembers<E>(s: seq<E>, x: set<E>)
    ensures forall a :: a in Without(s, x) <==> a in s && a !in x
  {
    if s != [] {
      WithoutMembers(s[1..], x);
      assert s == [s[0]] + s[1..];
    }
  }

  lemma {:induction false} WithoutNoDup<E>(s: seq<E>, x: set<E>)
    requires NoDup(s)
    ensures NoDup(Without(s, x))
  {
    if s != [] {
      WithoutNoDup(s[1..], x);
      WithoutMembers(s[1..], x);
    }
  }

  lemma {:induction false} WithoutLast<E>(s: seq<E>, a: E, x: set<E>)
    ensures Without(s + [a], x) == Without(s, x) + if a in x then [] else [a]
  {
    if s == [] {
      assert s + [a] == [a] && [a][1..] == [];
    } else {
      assert (s + [a])[1..] == s[1..] + [a];
      WithoutLast(s[1..], a, x);
    }
  }

  lemma {:induction false} WithoutNone<E>(s: seq<E>)
    ensures Without(s, {}) == s
  {
    if s != [] {
      WithoutNone(s[1..]);
      assert s == [s[0]] + s[1..];
    }
  }

  lemma {:induction false} WithoutAbsent<E>(s: seq<E>, x: set<E>, a: E)
    requires a !in s
    ensures Without(s, x + {a}) == Without(s, x)
  {
    if s != [] {
      WithoutAbsent(s[1..], x, a);
      assert s[0] != a;
    }
  }

  lemma {:induction false} WithoutMore<E>(s: seq<E>, x: set<E>, a: E)
    requires NoDup(s) && a !in x
    ensures Without(s, x + {a}) == Erased(Without(s, x), a)
  {
    if s != [] {
      if s[0] == a {
        WithoutAbsent(s[1..], x, a);
        assert ([a] + Without(s[1..], x))[1..] == Without(s[1..], x);
      } else {
        WithoutMore(s[1..], x, a);
        assert ([s[0]] + Without(s[1..], x))[1..] == Without(s[1..], x);
        assert [] + Without(s[1..], x) == Without(s[1..], x);
        assert [] + Without(s[1..], x + {a}) == Without(s[1..], x + {a});
      }
    }
  }

  /** The links `m`, with mirror `w`, without those from `done` to `rm`. */
  ghost predicate IsCut(elts: set<Elt>, m: Links<Elt>, w: Links<Elt>, done: set<Elt>, rm: set<Elt>)
    requires m.Keys == elts && w.Keys == elts
    reads elts`isuccs, elts`ipreds
  {
    forall a :: a in elts ==>
      && a.isuccs == (if a in done then Without(m[a], rm) else m[a])
      && a.ipreds == (if a in rm then Without(w[a], done) else w[a])
  }

  ghost predicate Simple(m: Links<Elt>, w: Links<Elt>) {
    Mirror(m, w) && forall a :: a in m ==> NoDup(m[a]) && NoDup(w[a])
  }

  /** Removes the links from `e` to `rm`. */
  method CutLinks(e: Elt, rm: set<Elt>, ghost elts: set<Elt>, ghost m: Links<Elt>, ghost w: Links<Elt>,
      ghost done: set<Elt>)
    requires Simple(m, w) && m.Keys == elts == w.Keys && IsCut(elts, m, w, done, rm) && e in elts && e !in done
    requires e !in rm
    modifies elts`isuccs, elts`ipreds
    ensures IsCut(elts, m, w, done + {e}, rm)
  {
    hide Without, NoDup, PartCut, IsCut, Simple;
    var i := 0;
    ghost var pre, rest := [], m[e];
    StartCut(m[e], rm);
    StartPart(elts, m, w, done, rm, e);
    while i < |e.isuccs|
      invariant m[e] == pre + rest && i == |Without(pre, rm)| && e.isuccs == Without(pre, rm) + rest
      invariant PartCut(elts, m, w, done, rm, e, pre)
      decreases |rest|
    {
      var s := e.isuccs[i];
      NextLink(m, w, e, pre, rest);
      AroundLink(Without(pre, rm), rest);
      WithoutLast(pre, s, rm);
      if s in rm {
        EraseLink(i, s, e, rm, elts, m, w, done, pre);
      } else {
        PartStep(elts, m, w, done, rm, e, pre, s);
        i := i + 1;
      }
      pre, rest := pre + [s], rest[1..];
    }
    NothingLeft(Without(pre, rm), rest);
    EndPart(elts, m, w, done, rm, e);
  }

  /** The links back to `e` have been removed from `pre`, and the links from and to
      `done` from all. */
  ghost predicate PartCut(elts: set<Elt>, m: Links<Elt>, w: Links<Elt>, done: set<Elt>, rm: set<Elt>, e: Elt,
      pre: seq<Elt>)
    requires m.Keys == elts && w.Keys == elts
    reads elts`isuccs, elts`ipreds
  {
    forall a :: a in elts ==>
      && (a != e ==> a.isuccs == if a in done then Without(m[a], rm) else m[a])
      && a.ipreds == if a in rm then Without(w[a], if a in pre then done + {e} else done) else w[a]
  }

  lemma StartPart(elts: set<Elt>, m: Links<Elt>, w: Links<Elt>, done: set<Elt>, rm: set<Elt>, e: Elt)
    requires m.Keys == elts && w.Keys == elts && IsCut(elts, m, w, done, rm) && e in elts && e !in done
    ensures PartCut(elts, m, w, done, rm, e, []) && e.isuccs == m[e]
  {}

  lemma PartStep(elts: set<Elt>, m: Links<Elt>, w: Links<Elt>, done: set<Elt>, rm: set<Elt>, e: Elt, pre: seq<Elt>,
      s: Elt)
    requires m.Keys == elts && w.Keys == elts && PartCut(elts, m, w, done, rm, e, pre) && s !in rm
    ensures PartCut(elts, m, w, done, rm, e, pre + [s])
  {}

  lemma EndPart(elts: set<Elt>, m: Links<Elt>, w: Links<Elt>, done: set<Elt>, rm: set<Elt>, e: Elt)
    requires Simple(m, w) && m.Keys == elts && e in elts && PartCut(elts, m, w, done, rm, e, m[e])
    requires e.isuccs == Without(m[e], rm)
    ensures IsCut(elts, m, w, done + {e}, rm)
  {
    forall a | a in elts && a in rm ensures a.ipreds == Without(w[a], done + {e}) {
      if a !in m[e] { WithoutAbsent(w[a], done, e); }
    }
  }

  method EraseLink(i: nat, s: Elt, e: Elt, rm: set<Elt>, ghost elts: set<Elt>, ghost m: Links<Elt>, ghost w: Links<Elt>,
      ghost done: set<Elt>, ghost pre: seq<Elt>)
    requires m.Keys == elts && w.Keys == elts && e in elts && PartCut(elts, m, w, done, rm, e, pre) && s in elts
    requires s in rm && s !in pre && e !in done && NoDup(w[s])
    requires i < |e.isuccs| && e.isuccs[i] == s
    modifies s`ipreds, e`isuccs
    ensures e.isuccs == old(e.isuccs[..i] + e.isuccs[i + 1..])
    ensures PartCut(elts, m, w, done, rm, e, pre + [s])
  {
    WithoutMore(w[s], done, e);
    hide Without, Erased, NoDup;
    assert s.ipreds == Without(w[s], done);
    s.ipreds := Erased(s.ipreds, e);
    e.isuccs := e.isuccs[..i] + e.isuccs[i + 1..];
    assert forall a :: a in elts && a != s ==> (a in pre <==> a in pre + [s]);
  }

  lemma StartCut(s: seq<Elt>, rm: set<Elt>)
    ensures [] + s == s && Without([], rm) == []
  {}

  lemma NextLink(m: Links<Elt>, w: Links<Elt>, e: Elt, pre: seq<Elt>, rest: seq<Elt>)
    requires Simple(m, w) && e in m && m[e] == pre + rest && rest != []
    ensures rest[0] !in pre && m[e] == pre + [rest[0]] + rest[1..] && rest[0] in m && NoDup(w[rest[0]])
  {
    forall i | 0 <= i < |pre| ensures pre[i] != rest[0] { assert m[e][i] == pre[i] && m[e][|pre|] == rest[0]; }
    assert rest[0] == m[e][|pre|];
  }

  lemma NothingLeft(a: seq<Elt>, rest: seq<Elt>)
    requires |a + rest| <= |a|
    ensures rest == [] && forall pre: seq<Elt> :: pre + rest == pre
  {}

  lemma AroundLink(a: seq<Elt>, rest: seq<Elt>)
    requires rest != []
    ensures (a + rest)[|a|] == rest[0] && (a + rest)[..|a|] + (a + rest)[|a| + 1..] == a + rest[1..]
    ensures a + rest == a + [rest[0]] + rest[1..] && a + [] == a
  {}

  /** Removes the links to `rm` from `e` and from all that comes before it. */
  method RemoveSuccs(e: Elt, rm: set<Elt>, lspan: set<Elt>, ghost elts: set<Elt>, ghost m: Links<Elt>,
      ghost w: Links<Elt>, ghost e0: Elt)
      returns (lspan': set<Elt>)
    requires Simple(m, w) && m.Keys == elts && Acyclic(w) && e in elts && e0 in elts && Upto(w, e0, e)
    requires forall d :: d in elts && Upto(w, e0, d) ==> d !in rm
    requires (e == e0 || e in lspan) && Spanned(w, lspan, e) && lspan <= elts
    requires IsCut(elts, m, w, lspan + {e0} - {e}, rm)
    modifies elts`isuccs, elts`ipreds
    ensures lspan' == lspan + After(w, e)
    ensures IsCut(elts, m, w, lspan' + {e0}, rm)
    decreases |After(w, e)|
  {
    hide Without, NoDup, IsCut, Spanned, After, Before;
    CutLinks(e, rm, elts, m, w, lspan + {e0} - {e});
    assert lspan + {e0} - {e} + {e} == lspan + {e0};
    CutPreds(elts, m, w, lspan + {e0}, rm, e);
    lspan' := lspan;
    var i := 0;
    while i < |e.ipreds|
      invariant 0 <= i <= |e.ipreds| && e.ipreds == w[e] && IsCut(elts, m, w, lspan' + {e0}, rm)
      invariant forall j :: 0 <= j < i ==> {w[e][j]} + After(w, w[e][j]) <= lspan'
      invariant lspan <= lspan' <= lspan + After(w, e) && Spanned(w, lspan', e)
    {
      var p := e.ipreds[i];
      assert p in Out(w, e);
      if p in lspan' {
        VisitedIsSpanned(w, lspan', e, p);
      } else {
        StillBefore(w, e0, e, p);
        SpannedBelow(w, lspan', e, p);
        SpannedAbove(w, lspan', e, p);
        AfterShrinks(w, e, p);
        AfterIncludes(w, e, p);
        assert lspan' + {p} + {e0} - {p} == lspan' + {e0};
        lspan' := RemoveSuccs(p, rm, lspan' + {p}, elts, m, w, e0);
        CutPreds(elts, m, w, lspan' + {e0}, rm, e);
      }
      i := i + 1;
    }
    AfterCovered(w, e, lspan');
  }

  lemma CutPreds(elts: set<Elt>, m: Links<Elt>, w: Links<Elt>, done: set<Elt>, rm: set<Elt>, e: Elt)
    requires m.Keys == elts && w.Keys == elts && IsCut(elts, m, w, done, rm) && e in elts && e !in rm
    ensures e.ipreds == w[e]
  {}

  lemma VisitedIsSpanned(m: Links<Elt>, visited: set<Elt>, here: Elt, e: Elt)
    requires Acyclic(m) && Spanned(m, visited, here) && e in Out(m, here) && e in visited
    ensures {e} + After(m, e) <= visited
  {
    NoWayBack(m, here, e);
  }

  lemma StillBefore(w: Links<Elt>, e0: Elt, e: Elt, p: Elt)
    requires Acyclic(w) && Closed(w) && e0 in w && Upto(w, e0, e) && p in Out(w, e)
    ensures Upto(w, e0, p) && p != e0 && p in w
  {
    EdgeBefore(w, e, p);
    BeforeTrans(w, e0, e, p);
  }
}
