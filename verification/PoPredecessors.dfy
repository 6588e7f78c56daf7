/** The walk to an element and what comes before it, which takes the lowest level first as
    the walk to what comes after does. */
module PoPredecessors {
  import opened PoGraph
  import opened PoSearch
  import opened PoRemove
  import opened Po
  import opened PoRange
  import opened Priq
  import opened PoTopological
  import opened Seqs

  /** Links that lead down to `bot`. */
  ghost predicate Falling(g: Links<Elt>, l: map<Elt, nat>, bot: Elt) {
    && g.Keys == l.Keys && Closed(g) && (forall a :: a in g ==> NoDup(g[a]) && Upto(g, a, bot))
    && forall a, b :: a in g && b in g && Before(g, a, b) ==> l[b] < l[a]
  }

  /** What has been called and what waits after the links of all that has been called were
      followed. */
  ghost predicate Met(g: Links<Elt>, first: Elt, calls: seq<Elt>, queue: set<Elt>) {
    && Items(calls) + queue <= g.Keys && NoDup(calls) && Items(calls) !! queue && first in Items(calls) + queue
    && (forall c :: c in Items(calls) + queue ==> Upto(g, first, c))
    && forall c, s :: c in Items(calls) && s in g[c] ==> s in Items(calls) + queue
  }

  /** Something has been called before an element that the order puts first. */
  ghost predicate Late(g: Links<Elt>, calls: seq<Elt>, queue: set<Elt>) {
    !Ordered(g, calls) || exists c, y :: c in Items(calls) && y in queue && Before(g, y, c)
  }

  /** No element has two links. */
  ghost predicate Thin(g: Links<Elt>, s: set<Elt>) {
    forall c :: c in s && c in g ==> |g[c]| <= 1
  }

  /** All has been called downwards, and no more than one element waits, further down. */
  ghost predicate Narrow(l: map<Elt, nat>, calls: seq<Elt>, queue: set<Elt>)
    requires Items(calls) + queue <= l.Keys
  {
    && |queue| <= 1 && (forall i, j :: 0 <= i < j < |calls| ==> l[calls[i]] > l[calls[j]])
    && forall c, q :: c in Items(calls) && q in queue ==> l[q] < l[c]
  }

  /** With two links met anywhere, either something is late or two elements wait. */
  ghost predicate Fate(g: Links<Elt>, l: map<Elt, nat>, calls: seq<Elt>, queue: set<Elt>)
    requires Items(calls) + queue <= l.Keys
  {
    if Thin(g, Items(calls)) then Narrow(l, calls, queue) else Late(g, calls, queue) || |queue| >= 2
  }

  function NextQueue(g: Links<Elt>, calls: seq<Elt>, queue: set<Elt>, e: Elt): set<Elt>
    requires e in g
  {
    queue - {e} + (Items(g[e]) - Items(calls))
  }

  lemma ItemsMore(calls: seq<Elt>, e: Elt)
    ensures Items(calls + [e]) == Items(calls) + {e}
  {}

  lemma RoundMet(g: Links<Elt>, l: map<Elt, nat>, bot: Elt, first: Elt, calls: seq<Elt>, queue: set<Elt>, e: Elt)
    requires Falling(g, l, bot) && Met(g, first, calls, queue) && e in queue
    ensures Met(g, first, calls + [e], NextQueue(g, calls + [e], queue, e))
  {
    ItemsMore(calls, e);
    var calls', queue' := calls + [e], NextQueue(g, calls + [e], queue, e);
    forall s | s in g[e] ensures Upto(g, first, s) && s in g {
      EdgeBefore(g, e, s);
      BeforeTrans(g, first, e, s);
    }
    assert e !in calls;
  }

  lemma RoundReady(g: Links<Elt>, l: map<Elt, nat>, bot: Elt, first: Elt, calls: seq<Elt>, queue: set<Elt>, e: Elt)
    requires Falling(g, l, bot) && Met(g, first, calls, queue) && e in queue && first in Items(calls + [e])
    ensures Closed(g) && e in g && e !in Items(calls) && Items(calls) <= g.Keys && first !in g[e]
    ensures queue - {e} <= Items(calls) + queue - {first}
  {
    ItemsMore(calls, e);
    forall s | s in g[e] ensures s != first {
      EdgeBefore(g, e, s);
      BeforeTrans(g, first, e, s);
    }
  }

  lemma LateStays(g: Links<Elt>, calls: seq<Elt>, queue: set<Elt>, e: Elt, more: set<Elt>)
    requires Late(g, calls, queue) && e in queue
    ensures Late(g, calls + [e], queue - {e} + more)
  {
    hide Before;
    ItemsMore(calls, e);
    var calls' := calls + [e];
    if !Ordered(g, calls) {
      var i, j :| 0 <= i < j < |calls| && (calls[i] == calls[j] || Before(g, calls[j], calls[i]));
      assert calls'[i] == calls[i] && calls'[j] == calls[j];
    } else {
      var c, y :| c in Items(calls) && y in queue && Before(g, y, c);
      if y == e { CalledLate(g, calls, e, c); }
    }
  }

  lemma CalledLate(g: Links<Elt>, calls: seq<Elt>, e: Elt, c: Elt)
    requires c in Items(calls) && Before(g, e, c)
    ensures !Ordered(g, calls + [e])
  {
    var i :| 0 <= i < |calls| && calls[i] == c;
    assert (calls + [e])[i] == c && (calls + [e])[|calls|] == e;
  }

  lemma {:induction false} TwoIn(s: set<Elt>, a: Elt, b: Elt)
    requires a in s && b in s && a != b
    ensures |s| >= 2
  {
    assert s == {a, b} + (s - {a, b});
    assert |{a, b}| == 2;
  }

  lemma OnlyOne(s: set<Elt>, a: Elt)
    requires a in s && |s| <= 1
    ensures s == {a}
  {
    if b :| b in s && b != a { TwoIn(s, a, b); }
  }

  /** A linked element waits, unless it has been called already. */
  lemma LinkWaits(g: Links<Elt>, calls: seq<Elt>, queue: set<Elt>, e: Elt, p: Elt)
    requires e in g && p in g[e] && p != e
    ensures p in NextQueue(g, calls + [e], queue, e) || Late(g, calls + [e], NextQueue(g, calls + [e], queue, e))
  {
    ItemsMore(calls, e);
    EdgeBefore(g, e, p);
    if p in calls { CalledLate(g, calls, e, p); }
  }

  /** With another element waiting, the called one is too early for it or brings a lower
      one. */
  lemma StaysWide(g: Links<Elt>, l: map<Elt, nat>, bot: Elt, calls: seq<Elt>, queue: set<Elt>, e: Elt, b: Elt)
    requires Falling(g, l, bot) && queue <= g.Keys && e in queue && b in queue && b != e && l[e] <= l[b]
    ensures var queue' := NextQueue(g, calls + [e], queue, e);
            Late(g, calls + [e], queue') || |queue'| >= 2
  {
    ItemsMore(calls, e);
    var queue' := NextQueue(g, calls + [e], queue, e);
    if e == bot {
      assert Before(g, b, e);
    } else {
      BeforeFirst(g, e, bot);
      var p :| p in g[e];
      EdgeBefore(g, e, p);
      LinkWaits(g, calls, queue, e, p);
      if p in queue' { TwoIn(queue', p, b); }
    }
  }

  lemma GetsWide(g: Links<Elt>, l: map<Elt, nat>, bot: Elt, calls: seq<Elt>, queue: set<Elt>, e: Elt)
    requires Falling(g, l, bot) && e in g && |g[e]| >= 2
    ensures var queue' := NextQueue(g, calls + [e], queue, e);
            Late(g, calls + [e], queue') || |queue'| >= 2
  {
    var queue' := NextQueue(g, calls + [e], queue, e);
    var p, q := g[e][0], g[e][1];
    EdgeBefore(g, e, p);
    EdgeBefore(g, e, q);
    LinkWaits(g, calls, queue, e, p);
    LinkWaits(g, calls, queue, e, q);
    if p in queue' && q in queue' { TwoIn(queue', p, q); }
  }

  lemma LinkFalls(g: Links<Elt>, l: map<Elt, nat>, bot: Elt, a: Elt, b: Elt)
    requires Falling(g, l, bot) && a in g && b in g[a]
    ensures b in g && l[b] < l[a]
  {
    EdgeBefore(g, a, b);
  }

  lemma StaysNarrow(g: Links<Elt>, l: map<Elt, nat>, bot: Elt, calls: seq<Elt>, queue: set<Elt>, e: Elt)
    requires Falling(g, l, bot) && Items(calls) + queue <= g.Keys && e in queue && Narrow(l, calls, queue)
    requires |g[e]| <= 1
    ensures Items(calls + [e]) + NextQueue(g, calls + [e], queue, e) <= g.Keys
    ensures Narrow(l, calls + [e], NextQueue(g, calls + [e], queue, e))
  {
    assert g.Keys == l.Keys;
    hide Falling, Before, Upto;
    OnlyOne(queue, e);
    ItemsMore(calls, e);
    FollowOne(g, calls, e);
    var queue' := NextQueue(g, calls + [e], queue, e);
    forall q | q in queue' ensures q in g && l[q] < l[e] { LinkFalls(g, l, bot, e, q); }
    hide NextQueue;
    CalledDown(l, calls, queue, e, queue');
  }

  lemma CalledDown(l: map<Elt, nat>, calls: seq<Elt>, queue: set<Elt>, e: Elt, queue': set<Elt>)
    requires Items(calls) + queue <= l.Keys && Narrow(l, calls, queue) && e in queue
    requires Items(calls + [e]) + queue' <= l.Keys
    requires |queue'| <= 1 && forall q :: q in queue' ==> l[q] < l[e]
    ensures Narrow(l, calls + [e], queue')
  {
    hide Items;
    ItemsMore(calls, e);
    var calls' := calls + [e];
    forall i | 0 <= i < |calls'| ensures calls'[i] in l { ItemAt(calls', i); }
    forall i, j | 0 <= i < j < |calls'| ensures l[calls'[i]] > l[calls'[j]] {
      ItemAt(calls, i);
      assert calls'[i] == calls[i];
      assert j == |calls| || l[calls[i]] > l[calls[j]];
    }
  }

  lemma ItemAt(calls: seq<Elt>, i: nat)
    requires i < |calls|
    ensures calls[i] in Items(calls)
  {}

  lemma FollowOne(g: Links<Elt>, calls: seq<Elt>, e: Elt)
    requires e in g && |g[e]| <= 1
    ensures |NextQueue(g, calls + [e], {e}, e)| <= 1
  {
    var queue := NextQueue(g, calls + [e], {e}, e);
    assert if g[e] == [] then queue == {} else queue == {} || queue == {g[e][0]};
  }

  /** One element is called and its links are followed. */
  lemma RoundFate(g: Links<Elt>, l: map<Elt, nat>, bot: Elt, first: Elt, calls: seq<Elt>, queue: set<Elt>, e: Elt)
    requires Falling(g, l, bot) && Met(g, first, calls, queue) && Fate(g, l, calls, queue)
    requires e in queue && forall q :: q in queue ==> l[e] <= l[q]
    ensures Met(g, first, calls + [e], NextQueue(g, calls + [e], queue, e))
    ensures Fate(g, l, calls + [e], NextQueue(g, calls + [e], queue, e))
  {
    RoundMet(g, l, bot, first, calls, queue, e);
    ItemsMore(calls, e);
    hide Falling, Met, Late, Narrow;
    if |queue| >= 2 {
      assert queue != {e};
      var b :| b in queue && b != e;
      FallingKeys(g, l, bot, first, calls, queue);
      StaysWide(g, l, bot, calls, queue, e, b);
      if Thin(g, Items(calls)) { NotNarrow(l, calls, queue); }
    } else if !Thin(g, Items(calls)) {
      LateStays(g, calls, queue, e, Items(g[e]) - Items(calls + [e]));
    } else if |g[e]| >= 2 {
      GetsWide(g, l, bot, calls, queue, e);
    } else {
      FallingKeys(g, l, bot, first, calls, queue);
      StaysNarrow(g, l, bot, calls, queue, e);
    }
  }

  lemma FallingKeys(g: Links<Elt>, l: map<Elt, nat>, bot: Elt, first: Elt, calls: seq<Elt>, queue: set<Elt>)
    requires Falling(g, l, bot) && Met(g, first, calls, queue)
    ensures Items(calls) + queue <= g.Keys == l.Keys
  {}

  lemma NotNarrow(l: map<Elt, nat>, calls: seq<Elt>, queue: set<Elt>)
    requires Items(calls) + queue <= l.Keys && Narrow(l, calls, queue)
    ensures |queue| <= 1
  {}

  /** Nothing waits any more: all that the links lead to has been called, and in their order
      just when no called element has two links. */
  lemma WalkEnd(g: Links<Elt>, l: map<Elt, nat>, bot: Elt, first: Elt, calls: seq<Elt>)
    requires Falling(g, l, bot) && Met(g, first, calls, {}) && Fate(g, l, calls, {})
    ensures NoDup(calls) && forall x :: x in calls <==> Upto(g, first, x)
    ensures Ordered(g, calls) <==> Thin(g, Items(calls))
  {
    forall x | Before(g, first, x) ensures x in calls {
      var n: nat :| n > 0 && Steps(g, first, x, n);
      StepsWithin(g, Items(calls), first, x, n);
    }
    forall x | x in calls ensures Upto(g, first, x) {
      assert x in Items(calls);
    }
    if Thin(g, Items(calls)) {
      forall i, j | 0 <= i < j < |calls| ensures calls[i] != calls[j] && !Before(g, calls[j], calls[i]) {
        assert l[calls[i]] > l[calls[j]];
      }
    }
  }

  lemma DiagramFalls(m: Links<Elt>, w: Links<Elt>, l: map<Elt, nat>, bot: Elt, top: Elt)
    requires Diagram(m, w, l, bot, top)
    ensures Falling(w, l, bot)
  {
    forall a | a in w ensures Upto(w, a, bot) { BeforeMirror(m, w, bot, a); }
    forall a, b | a in w && b in w && Before(w, a, b) ensures l[b] < l[a] {
      BeforeMirror(m, w, b, a);
      BeforeRises(m, l, b, a);
    }
  }

  /** Where the walk stands after `e` was called on top of `before`. */
  ghost predicate Called(w: Links<Elt>, l: map<Elt, nat>, first: Elt, before: seq<Elt>, waiting: set<Elt>, e: Elt,
      processed: set<Elt>)
  {
    && Met(w, first, before, waiting) && Items(before) + waiting <= l.Keys && Fate(w, l, before, waiting)
    && processed == Items(before) + waiting - {first} && first in Items(before + [e])
    && e in waiting && forall q :: q in waiting ==> l[e] <= l[q]
  }

  lemma WalkStart(w: Links<Elt>, l: map<Elt, nat>, first: Elt)
    requires first in w && w.Keys == l.Keys
    ensures Called(w, l, first, [], {first}, first, {}) && {first} - {first} == {}
  {}

  lemma CalledMore(w: Links<Elt>, before: seq<Elt>, e: Elt)
    requires e in w && e !in Items(before) && Items(before) <= w.Keys
    ensures |w.Keys - Items(before + [e])| < |w.Keys - Items(before)|
  {
    ItemsMore(before, e);
    CardOfSubset(w.Keys - Items(before + [e]), w.Keys - Items(before));
  }

  /** What the code has put into the queue and marked as processed. */
  lemma Joined(w: Links<Elt>, first: Elt, before: seq<Elt>, waiting: set<Elt>, e: Elt, processed: set<Elt>,
      queue: set<Elt>)
    requires e in w && e in waiting && Met(w, first, before, waiting) && first in Items(before + [e]) && first !in w[e]
    requires queue == waiting - {e} + (Items(w[e]) - (Items(before) + waiting - {first}))
    requires processed == Items(before) + waiting - {first} + Items(w[e])
    ensures queue == NextQueue(w, before + [e], waiting, e)
    ensures processed == Items(before + [e]) + queue - {first}
  {
    ItemsMore(before, e);
  }

  /** The predecessors of `e` that have not been met before join the queue. */
  method Enqueue(e: Elt, pq: Queue, ghost queue: set<Elt>, processed: set<Elt>, ghost elts: set<Elt>,
      ghost w: Links<Elt>, ghost l: map<Elt, nat>)
      returns (ghost queue': set<Elt>, processed': set<Elt>)
    requires w == Preds(elts) && l == Levels(elts) && Closed(w) && e in w && Holds(pq, queue, l) && queue <= processed
    modifies pq, pq.arr
    ensures queue' == queue + (Items(w[e]) - processed) && processed' == processed + Items(w[e])
    ensures Holds(pq, queue', l) && (pq.arr == old(pq.arr) || fresh(pq.arr))
  {
    hide Holds;
    queue', processed' := queue, processed;
    var i := 0;
    while i < |e.ipreds|
      invariant 0 <= i <= |e.ipreds| && e.ipreds == w[e]
      invariant queue' == queue + (Items(w[e][..i]) - processed) && processed' == processed + Items(w[e][..i])
      invariant Holds(pq, queue', l) && (pq.arr == old(pq.arr) || fresh(pq.arr))
    {
      var elt := e.ipreds[i];
      assert w[e][..i + 1] == w[e][..i] + [elt];
      ItemsMore(w[e][..i], elt);
      if elt !in processed' {
        processed' := processed' + {elt};
        Join(elt, pq, queue', l);
        queue' := queue' + {elt};
      }
      i := i + 1;
    }
    assert w[e][..|w[e]|] == w[e];
  }

  lemma CalledNext(w: Links<Elt>, l: map<Elt, nat>, first: Elt, calls: seq<Elt>, queue: set<Elt>, e: Elt,
      processed: set<Elt>)
    requires Met(w, first, calls, queue) && Items(calls) + queue <= l.Keys && Fate(w, l, calls, queue)
    requires processed == Items(calls) + queue - {first} && first in Items(calls)
    requires e in queue && forall q :: q in queue ==> l[e] <= l[q]
    ensures Called(w, l, first, calls, queue, e, processed)
  {
    ItemsMore(calls, e);
  }

  /** The predecessors of the called element that have not been met before join the queue. */
  method Follow(e: Elt, pq: Queue, ghost waiting: set<Elt>, processed: set<Elt>, ghost before: seq<Elt>,
      ghost first: Elt, ghost elts: set<Elt>, ghost w: Links<Elt>, ghost l: map<Elt, nat>, ghost bot: Elt)
      returns (ghost queue: set<Elt>, processed': set<Elt>)
    requires w == Preds(elts) && l == Levels(elts) && Falling(w, l, bot) && Holds(pq, waiting - {e}, l)
    requires Called(w, l, first, before, waiting, e, processed)
    modifies pq, pq.arr
    ensures Holds(pq, queue, l) && (pq.arr == old(pq.arr) || fresh(pq.arr)) && (pq.count == 0 <==> queue == {})
    ensures Met(w, first, before + [e], queue) && Items(before + [e]) + queue <= l.Keys
    ensures Fate(w, l, before + [e], queue)
    ensures processed' == Items(before + [e]) + queue - {first} && first in Items(before + [e])
    ensures |w.Keys - Items(before + [e])| < |w.Keys - Items(before)|
  {
    hide Falling, Met, Fate, Before, Upto, NextQueue, Items, Holds;
    RoundFate(w, l, bot, first, before, waiting, e);
    RoundReady(w, l, bot, first, before, waiting, e);
    CalledMore(w, before, e);
    queue, processed' := Enqueue(e, pq, waiting - {e}, processed, elts, w, l);
    Joined(w, first, before, waiting, e, processed', queue);
    FallingKeys(w, l, bot, first, before + [e], queue);
    NoneWaiting(pq, queue, l);
  }

  method Visit(first: Elt, ghost elts: set<Elt>, ghost w: Links<Elt>, ghost l: map<Elt, nat>, ghost bot: Elt)
      returns (calls: seq<Elt>)
    requires w == Preds(elts) && l == Levels(elts) && Falling(w, l, bot) && first in w
    ensures NoDup(calls) && forall x :: x in calls <==> Upto(w, first, x)
    ensures Ordered(w, calls) <==> Thin(w, Items(calls))
  {
    hide Falling, Met, Fate, Called, Before, Upto, Ordered, NoDup, Thin, Items, Holds;
    var pq := NewQueue(l);
    var processed: set<Elt>, e := {}, first;
    ghost var before: seq<Elt>, waiting: set<Elt> := [], {first};
    WalkStart(w, l, first);
    calls := [e];
    while true
      invariant fresh(pq) && fresh(pq.arr) && Holds(pq, waiting - {e}, l)
      invariant calls == before + [e] && Called(w, l, first, before, waiting, e, processed)
      decreases |w.Keys - Items(before)|
    {
      ghost var queue;
      queue, processed := Follow(e, pq, waiting, processed, before, first, elts, w, l, bot);
      if pq.count == 0 {
        break;
      }
      before, waiting := calls, queue;
      e := PopFront(pq, queue, l);
      CalledNext(w, l, first, before, waiting, e, processed);
      calls := calls + [e];
    }
    WalkEnd(w, l, bot, first, calls);
  }

  /** Calls `first` and what comes before it. */
  method TopologicalPreds(first: Elt, ghost po: Po) returns (calls: seq<Elt>)
    requires po.Valid() && first in po.elts
    ensures NoDup(calls) && forall x :: x in calls <==> Upto(Preds(po.elts), first, x)
    ensures Ordered(Preds(po.elts), calls) <==>
              forall x :: x in po.elts && Upto(Preds(po.elts), first, x) ==> |x.ipreds| <= 1
  {
    ghost var m, w, l := Succs(po.elts), Preds(po.elts), Levels(po.elts);
    DiagramFalls(m, w, l, po.bot, po.top);
    hide Diagram, Falling, Before, Upto, Ordered, NoDup, Thin, Items, Succs, Preds, Levels;
    calls := Visit(first, po.elts, w, l, po.bot);
    ThinPreds(po.elts, calls);
  }

  lemma ThinPreds(elts: set<Elt>, calls: seq<Elt>)
    ensures Thin(Preds(elts), Items(calls)) <==> forall x :: x in elts && x in calls ==> |x.ipreds| <= 1
  {
    assert forall x :: x in elts ==> Preds(elts)[x] == x.ipreds;
  }

  lemma TwoUnder(m: Links<Elt>, w: Links<Elt>, bot: Elt, top: Elt, a: Elt, b: Elt)
    requires Mirror(m, w) && m.Keys == {bot, top, a, b} && a != b
    requires Before(m, a, top) && Before(m, b, top) && !Before(m, top, top)
    requires !Before(m, a, b) && !Before(m, b, a) && !Upto(m, a, bot)
    ensures |w[top]| >= 2
  {
    BeforeLast(m, w, a, top);
    BeforeLast(m, w, b, top);
    var p :| p in Out(w, top) && Upto(m, a, p);
    var q :| q in Out(w, top) && Upto(m, b, q);
    assert p in m && q in m && p != bot;
    BeforeMirror(m, w, top, top);
    EdgeBefore(w, top, p);
    EdgeBefore(w, top, q);
    assert p == a && (q == b || q == bot);
  }

  /** Nothing outside the diagram comes before or after anything. */
  lemma NoneOutside(m: Links<Elt>, w: Links<Elt>, l: map<Elt, nat>, bot: Elt, top: Elt, e: Elt)
    requires Diagram(m, w, l, bot, top) && e !in m
    ensures bot != top && forall x: Elt :: !Before(m, x, e) && !Before(m, e, x)
  {
    forall x: Elt ensures !Before(m, x, e) && !Before(m, e, x) {
      if Before(m, x, e) { BeforeClosed(m, x, e); }
      if Before(m, e, x) { BeforeClosed(m, e, x); }
    }
  }

  method OneBetween() returns (po: Po, a: Elt)
    ensures po.Valid() && po.elts == {po.bot, po.top, a} && po.bot != po.top && a != po.bot && a != po.top
    ensures Before(Succs(po.elts), a, po.top)
    ensures !Before(Succs(po.elts), po.top, po.top) && !Before(Succs(po.elts), a, po.bot)
    ensures fresh(po) && fresh(po.elts)
  {
    hide Diagram, Before, Succs, Preds, Levels;
    po := new Po();
    a := new Elt();
    NoneOutside(Succs(po.elts), Preds(po.elts), Levels(po.elts), po.bot, po.top, a);
    po.InsertCct(a);
  }

  method TwoBetween() returns (po: Po, a: Elt, b: Elt)
    ensures po.Valid() && po.elts == {po.bot, po.top, a, b} && a != b
    ensures var m := Succs(po.elts);
            && Before(m, a, po.top) && Before(m, b, po.top) && !Before(m, po.top, po.top)
            && !Before(m, a, b) && !Before(m, b, a) && !Upto(m, a, po.bot)
  {
    hide Diagram, Before, Succs, Preds, Levels;
    po, a := OneBetween();
    b := new Elt();
    NoneOutside(Succs(po.elts), Preds(po.elts), Levels(po.elts), po.bot, po.top, b);
    po.InsertCct(b);
  }

  lemma TopForks(po: Po, a: Elt, b: Elt)
    requires po.Valid() && po.elts == {po.bot, po.top, a, b} && a != b
    requires var m := Succs(po.elts);
             && Before(m, a, po.top) && Before(m, b, po.top) && !Before(m, po.top, po.top)
             && !Before(m, a, b) && !Before(m, b, a) && !Upto(m, a, po.bot)
    ensures |po.top.ipreds| >= 2
  {
    hide Before, Upto;
    TwoUnder(Succs(po.elts), Preds(po.elts), po.bot, po.top, a, b);
  }

  /** The walk from the top above two unrelated elements. */
  method PredsOutOfOrder() returns (po: Po, calls: seq<Elt>)
    ensures po.Valid() && (forall x :: x in calls <==> Upto(Preds(po.elts), po.top, x))
    ensures !Ordered(Preds(po.elts), calls)
  {
    hide Diagram, Before, Ordered, NoDup, Succs, Preds, Levels;
    ghost var a, b;
    po, a, b := TwoBetween();
    TopForks(po, a, b);
    calls := TopologicalPreds(po.top, po);
    assert po.top in calls;
  }
}
