/** The marks that pairing up meets. A root that takes another as a child is asserted to
    be unmarked, but the first root goes into the array with the mark it has. */
module FibMarks {
  import opened FibTree
  import opened FibLinks

  /** What pairing up looks at. */
  datatype Root = Root(degree: nat, rank: int, mark: bool)

  /** Whether a tree grows to a degree, and the rank of its root when it does. */
  datatype Arrival = Never | With(rank: int)

  /** The roots that have found a place, by degree. */
  type Places = map<nat, Root>

  function RootOf(rank: Node -> int, t: Tree<Node>): Root {
    Root(|t.kids|, rank(t.elem), t.mark)
  }

  function RootsOf(rank: Node -> int, ts: seq<Tree<Node>>): seq<Root> {
    if ts == [] then [] else [RootOf(rank, ts[0])] + RootsOf(rank, ts[1..])
  }

  /** The one of two roots of equal degree that takes the other as a child. */
  function Winner(y: Root, r: Root): Root {
    (if y.rank <= r.rank then y else r).(degree := r.degree + 1)
  }

  /** Pairs up a root until its place is free; tells whether all winners were unmarked. */
  function Enter(places: Places, r: Root): (Places, bool)
    decreases places.Keys
  {
    if r.degree !in places then (places[r.degree := r], true)
    else
      var w := Winner(places[r.degree], r);
      var (after, held) := Enter(places - {r.degree}, w);
      (after, held && !w.mark)
  }

  /** The same for the roots of a chain, which are unmarked before they enter. */
  function EnterAll(places: Places, roots: seq<Root>): bool
    decreases roots
  {
    if roots == [] then true
    else
      var (after, held) := Enter(places, roots[0].(mark := false));
      held && EnterAll(after, roots[1..])
  }

  /** Whether all winners are unmarked when the roots of a queue are paired up. */
  function WinnersUnmarked(roots: seq<Root>): bool {
    roots == [] || EnterAll(map[roots[0].degree := roots[0]], roots[1..])
  }

  // --------------------------------------------------------- when it is so

  /** The rank of the tree of degree `d` that a root grows to on its way to a place. */
  function Reaches(places: Places, r: Root, d: nat): Arrival
    decreases places.Keys
  {
    if r.degree == d then With(r.rank)
    else if r.degree !in places then Never
    else Reaches(places - {r.degree}, Winner(places[r.degree], r), d)
  }

  /** The rank of the first tree of degree `d` that the roots make by themselves. */
  function Rival(places: Places, roots: seq<Root>, d: nat): Arrival
    decreases roots
  {
    if roots == [] then Never
    else
      var r := roots[0].(mark := false);
      if Reaches(places, r, d).With? then Reaches(places, r, d) else Rival(Enter(places, r).0, roots[1..], d)
  }

  predicate Clean(places: Places) {
    forall d :: d in places ==> !places[d].mark
  }

  /** Among unmarked roots nothing is marked. */
  lemma {:induction false} EnterClean(places: Places, r: Root)
    requires Clean(places) && !r.mark
    ensures Enter(places, r).1 && Clean(Enter(places, r).0)
    decreases places.Keys
  {
    if r.degree in places {
      EnterClean(places - {r.degree}, Winner(places[r.degree], r));
    }
  }

  lemma {:induction false} EnterAllClean(places: Places, roots: seq<Root>)
    requires Clean(places)
    ensures EnterAll(places, roots)
    decreases roots
  {
    if roots != [] {
      EnterClean(places, roots[0].(mark := false));
      EnterAllClean(Enter(places, roots[0].(mark := false)).0, roots[1..]);
    }
  }

  /** A marked root among unmarked ones: it is asserted about just when a tree reaches its
      degree and is not prior to it. */
  lemma {:induction false} EnterBeside(places: Places, h: Root, r: Root)
    requires Clean(places) && h.degree !in places && h.mark && !r.mark
    ensures var (after, held) := Enter(places[h.degree := h], r); var x := Reaches(places, r, h.degree);
            && (x.Never? ==> held && h.degree !in Enter(places, r).0 && after == Enter(places, r).0[h.degree := h])
            && (x.With? ==> (held <==> x.rank < h.rank) && (held ==> Clean(after)))
    decreases places.Keys
  {
    var beside := places[h.degree := h];
    if r.degree == h.degree {
      assert beside - {r.degree} == places;
      if r.rank < h.rank { EnterClean(places, Winner(h, r)); }
    } else if r.degree in places {
      var w := Winner(places[r.degree], r);
      assert beside - {r.degree} == (places - {r.degree})[h.degree := h];
      EnterBeside(places - {r.degree}, h, w);
    } else {
      assert beside[r.degree := r] == places[r.degree := r][h.degree := h];
    }
  }

  lemma {:induction false} EnterAllBeside(places: Places, h: Root, roots: seq<Root>)
    requires Clean(places) && h.degree !in places && h.mark
    ensures EnterAll(places[h.degree := h], roots) <==>
              var x := Rival(places, roots, h.degree); x.Never? || x.rank < h.rank
    decreases roots
  {
    if roots != [] {
      var r := roots[0].(mark := false);
      EnterBeside(places, h, r);
      if Reaches(places, r, h.degree).Never? {
        EnterClean(places, r);
        EnterAllBeside(Enter(places, r).0, h, roots[1..]);
      } else if Enter(places[h.degree := h], r).1 {
        EnterAllClean(Enter(places[h.degree := h], r).0, roots[1..]);
      }
    }
  }

  /** All winners are unmarked just when the first root is, or no tree that the others make
      reaches its degree, or the first such tree is prior to it. */
  lemma WinnersUnmarkedIff(roots: seq<Root>)
    requires roots != []
    ensures WinnersUnmarked(roots) <==>
              !roots[0].mark ||
              var x := Rival(map[], roots[1..], roots[0].degree); x.Never? || x.rank < roots[0].rank
  {
    var h, none: Places := roots[0], map[];
    assert map[h.degree := h] == none[h.degree := h];
    if h.mark { EnterAllBeside(map[], h, roots[1..]); } else { EnterAllClean(map[h.degree := h], roots[1..]); }
  }
}
