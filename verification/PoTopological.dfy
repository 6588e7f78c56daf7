/** Visiting an element and its successors in an order that extends the partial order. */
module PoTopological {
  import opened PoGraph
  import opened PoSearch
  import opened PoRemove
  import opened Po
  import opened PoRange
  import opened Priq
  import opened Seqs

  /** An element that waits, ranked by its level. */
  datatype Queued = Queued(elt: Elt?, level: nat)

  function LevelOf(q: Queued): int {
    q.level
  }

  type Queue = Priq<Queued>

  ghost function Waiting(queue: set<Elt>, l: map<Elt, nat>): multiset<Queued>
    requires queue <= l.Keys
  {
    multiset(set q | q in queue :: Queued(q, l[q]))
  }

  /** The priority queue holds the elements of `queue`, each once, and has the lowest level
      in front. */
  ghost predicate Holds(pq: Queue, queue: set<Elt>, l: map<Elt, nat>)
    reads pq, pq.arr
  {
    pq.Valid() && pq.rank == LevelOf && queue <= l.Keys && pq.Content() == Waiting(queue, l)
  }

  lemma WaitingMore(queue: set<Elt>, l: map<Elt, nat>, e: Elt)
    requires queue <= l.Keys && e in l && e !in queue
    ensures Waiting(queue + {e}, l) == Waiting(queue, l) + multiset{Queued(e, l[e])}
  {
    assert (set q | q in queue + {e} :: Queued(q, l[q])) == (set q | q in queue :: Queued(q, l[q])) + {Queued(e, l[e])};
  }

  lemma WaitingLess(queue: set<Elt>, l: map<Elt, nat>, item: Queued)
    requires queue <= l.Keys && item in Waiting(queue, l)
    ensures item.elt != null && item.elt in queue && item.level == l[item.elt]
    ensures Waiting(queue - {item.elt}, l) == Waiting(queue, l) - multiset{item}
  {
    assert queue - {item.elt} + {item.elt} == queue;
    WaitingMore(queue - {item.elt}, l, item.elt);
  }

  lemma NoneWaiting(pq: Queue, queue: set<Elt>, l: map<Elt, nat>)
    requires Holds(pq, queue, l)
    ensures pq.count == 0 <==> queue == {}
  {
    if e :| e in queue {
      assert Queued(e, l[e]) in Waiting(queue, l);
    }
    if pq.count > 0 {
      assert pq.arr[..pq.count][0] in Waiting(queue, l);
    }
  }

  method NewQueue(ghost l: map<Elt, nat>) returns (pq: Queue)
    ensures fresh(pq) && fresh(pq.arr) && Holds(pq, {}, l)
  {
    pq := new Priq<Queued>(LevelOf, true);
  }

  /** The front of the priority queue: one of the elements on the lowest level. */
  method PopFront(pq: Queue, ghost queue: set<Elt>, ghost l: map<Elt, nat>) returns (e: Elt)
    requires Holds(pq, queue, l) && pq.count > 0
    modifies pq, pq.arr
    ensures e in queue && Holds(pq, queue - {e}, l) && forall x :: x in queue ==> l[e] <= l[x]
    ensures pq.arr == old(pq.arr) || fresh(pq.arr)
  {
    var result := pq.PopFront();
    WaitingLess(queue, l, result.item);
    e := result.item.elt;
    forall x | x in queue ensures l[e] <= l[x] { assert Queued(x, l[x]) in Waiting(queue, l); }
  }

  method Join(e: Elt, pq: Queue, ghost queue: set<Elt>, ghost l: map<Elt, nat>)
    requires Holds(pq, queue, l) && e in l && e !in queue && l[e] == e.level
    modifies pq, pq.arr
    ensures Holds(pq, queue + {e}, l) && (pq.arr == old(pq.arr) || fresh(pq.arr))
  {
    WaitingMore(queue, l, e);
    pq.Insert(Queued(e, e.level));
  }

  /** What has been called and what waits; `e` was the last called and its first `i`
      successors have been processed. */
  ghost predicate Visiting(m: Links<Elt>, l: map<Elt, nat>, first: Elt, e: Elt, i: nat, calls: seq<Elt>,
      queue: set<Elt>, processed: set<Elt>)
    requires m.Keys == l.Keys
  {
    && calls != [] && calls[0] == first && calls[|calls| - 1] == e && Items(calls) <= m.Keys && queue <= m.Keys
    && processed == queue + (Items(calls) - {first}) && processed <= After(m, first)
    && NoDup(calls) && Items(calls) !! queue
    && (forall j, k :: 0 <= j < k < |calls| ==> l[calls[j]] <= l[calls[k]])
    && (forall q :: q in queue ==> l[e] <= l[q])
    && (forall c, s :: c in calls && c != e && s in m[c] ==> s in processed)
    && e in m && i <= |m[e]| && (forall s :: s in m[e][..i] ==> s in processed)
  }

  lemma VisitFirst(m: Links<Elt>, l: map<Elt, nat>, first: Elt)
    requires m.Keys == l.Keys && first in m
    ensures Visiting(m, l, first, first, 0, [first], {}, {})
  {}

  /** One successor of the last called element. */
  lemma VisitSucc(m: Links<Elt>, l: map<Elt, nat>, first: Elt, e: Elt, i: nat, calls: seq<Elt>, queue: set<Elt>,
      processed: set<Elt>)
    requires Closed(m) && Rising(m, l) && Acyclic(m) && Visiting(m, l, first, e, i, calls, queue, processed)
    requires i < |m[e]|
    ensures var s := m[e][i];
            if s in processed then Visiting(m, l, first, e, i + 1, calls, queue, processed)
            else Visiting(m, l, first, e, i + 1, calls, queue + {s}, processed + {s})
  {
    var s := m[e][i];
    assert e in Items(calls) && m[e][..i + 1] == m[e][..i] + [s];
    assert s in After(m, first) && s != first by {
      EdgeBefore(m, e, s);
      BeforeTrans(m, first, e, s);
    }
    hide After, NoDup;
    assert s !in processed ==> s !in calls;
  }

  /** The next element is called. */
  lemma VisitNext(m: Links<Elt>, l: map<Elt, nat>, first: Elt, e: Elt, calls: seq<Elt>, queue: set<Elt>,
      processed: set<Elt>, e': Elt)
    requires e in m && m.Keys == l.Keys && Visiting(m, l, first, e, |m[e]|, calls, queue, processed)
    requires e' in queue && queue <= m.Keys && forall q :: q in queue ==> l[e'] <= l[q]
    ensures Visiting(m, l, first, e', 0, calls + [e'], queue - {e'}, processed)
    ensures Items(calls) < Items(calls + [e']) <= m.Keys
  {
    var calls' := calls + [e'];
    assert Items(calls') == Items(calls) + {e'};
    assert e' !in calls && e' != first;
    assert forall j :: 0 <= j < |calls'| ==> calls'[j] in Items(calls');
    forall j, k | 0 <= j < k < |calls'| ensures calls'[j] != calls'[k] && l[calls'[j]] <= l[calls'[k]] {
      assert calls'[j] == calls[j] && calls[j] in Items(calls);
      assert j == |calls| - 1 || l[calls[j]] <= l[calls[|calls| - 1]];
    }
    assert m[e][..|m[e]|] == m[e];
    hide After;
  }

  lemma {:induction false} StepsWithin(m: Links<Elt>, s: set<Elt>, a: Elt, b: Elt, n: nat)
    requires s <= m.Keys && a in s && Steps(m, a, b, n) && forall c, d :: c in s && d in m[c] ==> d in s
    ensures b in s
    decreases n
  {
    if n > 0 {
      var c :| c in Out(m, a) && Steps(m, c, b, n - 1);
      StepsWithin(m, s, c, b, n - 1);
    }
  }

  /** Nothing waits any more. */
  lemma VisitEnd(m: Links<Elt>, l: map<Elt, nat>, first: Elt, e: Elt, calls: seq<Elt>, processed: set<Elt>)
    requires Closed(m) && Rising(m, l) && Acyclic(m) && e in m && Visiting(m, l, first, e, |m[e]|, calls, {}, processed)
    ensures Ordered(m, calls) && forall x :: x in calls <==> Upto(m, first, x)
  {
    forall i, j | 0 <= i < j < |calls| ensures calls[i] != calls[j] && !Before(m, calls[j], calls[i]) {
      if Before(m, calls[j], calls[i]) { BeforeRises(m, l, calls[j], calls[i]); }
    }
    assert m[e][..|m[e]|] == m[e];
    forall c, d | c in Items(calls) && d in m[c] ensures d in Items(calls) {
      assert d in processed;
    }
    forall x | Before(m, first, x) ensures x in calls {
      var n: nat :| n > 0 && Steps(m, first, x, n);
      StepsWithin(m, Items(calls), first, x, n);
    }
    forall x | x in calls ensures Upto(m, first, x) {
      assert x in Items(calls);
    }
  }

  /** Calls `first` and what comes after it. */
  method TopologicalSuccs(first: Elt, ghost po: Po) returns (calls: seq<Elt>)
    requires po.Valid() && first in po.elts
    ensures Ordered(Succs(po.elts), calls)
    ensures forall x :: x in calls <==> Upto(Succs(po.elts), first, x)
  {
    ghost var m, w, l := Succs(po.elts), Preds(po.elts), Levels(po.elts);
    DiagramParts(m, w, l, po.bot, po.top, first, first);
    calls := Visit(first, po.elts, m, l);
  }

  method Visit(first: Elt, ghost elts: set<Elt>, ghost m: Links<Elt>, ghost l: map<Elt, nat>) returns (calls: seq<Elt>)
    requires m == Succs(elts) && l == Levels(elts) && Closed(m) && Rising(m, l) && Acyclic(m) && first in m
    ensures Ordered(m, calls) && forall x :: x in calls <==> Upto(m, first, x)
  {
    hide Before, Upto, Acyclic, Closed, Rising, Visiting, Ordered, Items, Holds;
    var pq := NewQueue(l);
    var processed: set<Elt>, e := {}, first;
    ghost var queue: set<Elt> := {};
    calls := [e];
    VisitFirst(m, l, first);
    while true
      invariant fresh(pq) && fresh(pq.arr) && Holds(pq, queue, l)
      invariant e in m && Visiting(m, l, first, e, 0, calls, queue, processed)
      decreases |m.Keys - Items(calls)|
    {
      queue, processed := Enqueue(e, pq, queue, processed, calls, first, elts, m, l);
      VisitBounds(m, l, first, e, calls, queue, processed);
      NoneWaiting(pq, queue, l);
      if pq.count == 0 {
        break;
      }
      e, queue, calls := CallNext(e, pq, queue, calls, processed, first, m, l);
    }
    VisitEnd(m, l, first, e, calls, processed);
  }

  method CallNext(e: Elt, pq: Queue, ghost queue: set<Elt>, calls: seq<Elt>, ghost processed: set<Elt>,
      ghost first: Elt, ghost m: Links<Elt>, ghost l: map<Elt, nat>)
      returns (e': Elt, ghost queue': set<Elt>, calls': seq<Elt>)
    requires m.Keys == l.Keys && e in m && Visiting(m, l, first, e, |m[e]|, calls, queue, processed)
    requires Holds(pq, queue, l) && pq.count > 0
    modifies pq, pq.arr
    ensures e' in m && Visiting(m, l, first, e', 0, calls', queue', processed)
    ensures Holds(pq, queue', l) && (pq.arr == old(pq.arr) || fresh(pq.arr))
    ensures |m.Keys - Items(calls')| < |m.Keys - Items(calls)|
  {
    hide Visiting, Items;
    e' := PopFront(pq, queue, l);
    queue' := queue - {e'};
    VisitNext(m, l, first, e, calls, queue, processed, e');
    calls' := calls + [e'];
    CardOfSubset(m.Keys - Items(calls'), m.Keys - Items(calls));
  }

  lemma VisitBounds(m: Links<Elt>, l: map<Elt, nat>, first: Elt, e: Elt, calls: seq<Elt>, queue: set<Elt>,
      processed: set<Elt>)
    requires e in m && m.Keys == l.Keys && Visiting(m, l, first, e, |m[e]|, calls, queue, processed)
    ensures queue <= m.Keys && calls != [] && e == calls[|calls| - 1]
  {}

  /** The successors of `e` that have not been met before join the queue. */
  method Enqueue(e: Elt, pq: Queue, ghost queue: set<Elt>, processed: set<Elt>, ghost calls: seq<Elt>, ghost first: Elt,
      ghost elts: set<Elt>, ghost m: Links<Elt>, ghost l: map<Elt, nat>)
      returns (ghost queue': set<Elt>, processed': set<Elt>)
    requires m == Succs(elts) && l == Levels(elts) && Closed(m) && Rising(m, l) && Acyclic(m) && e in m
    requires Visiting(m, l, first, e, 0, calls, queue, processed) && Holds(pq, queue, l)
    modifies pq, pq.arr
    ensures Visiting(m, l, first, e, |m[e]|, calls, queue', processed')
    ensures Holds(pq, queue', l) && (pq.arr == old(pq.arr) || fresh(pq.arr))
  {
    hide Before, Acyclic, Visiting, Items, Holds;
    queue', processed' := queue, processed;
    var i := 0;
    while i < |e.isuccs|
      invariant 0 <= i <= |e.isuccs| && e.isuccs == m[e] && Visiting(m, l, first, e, i, calls, queue', processed')
      invariant Holds(pq, queue', l) && (pq.arr == old(pq.arr) || fresh(pq.arr))
    {
      var elt := e.isuccs[i];
      VisitSucc(m, l, first, e, i, calls, queue', processed');
      if elt !in processed' {
        NotWaiting(m, l, first, e, i, calls, queue', processed');
        processed' := processed' + {elt};
        Join(elt, pq, queue', l);
        queue' := queue' + {elt};
      }
      i := i + 1;
    }
  }

  lemma NotWaiting(m: Links<Elt>, l: map<Elt, nat>, first: Elt, e: Elt, i: nat, calls: seq<Elt>, queue: set<Elt>,
      processed: set<Elt>)
    requires m.Keys == l.Keys && Visiting(m, l, first, e, i, calls, queue, processed)
    ensures queue <= processed
  {}
}
