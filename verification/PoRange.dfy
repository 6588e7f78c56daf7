/** Visiting the elements between two given ones. */
module PoRange {
  import opened PoGraph
  import opened PoSearch
  import opened PoRemove
  import opened Po

  ghost predicate Between(m: Links<Elt>, low: Elt, x: Elt, high: Elt) {
    Before(m, low, x) && Before(m, x, high)
  }

  /** A visited element that is flagged rightly and whose range has been called. */
  ghost predicate Settled(m: Links<Elt>, low: Elt, v: Elt, visit: map<Elt, nat>, calls: seq<Elt>) {
    && v in visit && (visit[v] > 0 <==> Before(m, low, v)) && (Before(m, low, v) ==> v in calls)
    && forall x :: x in m && Between(m, low, x, v) ==> x in calls
  }

  /** Nothing is called twice or before an element that comes before it. */
  ghost predicate Ordered(m: Links<Elt>, calls: seq<Elt>) {
    forall i, j :: 0 <= i < j < |calls| ==> calls[i] != calls[j] && !Before(m, calls[j], calls[i])
  }

  ghost predicate State(m: Links<Elt>, low: Elt, here: Elt, visit: map<Elt, nat>, calls: seq<Elt>) {
    && visit.Keys <= m.Keys
    && (forall v :: v in visit ==> Upto(m, here, v) || Settled(m, low, v, visit, calls))
    && (forall c :: c in calls ==> Before(m, low, c) && Settled(m, low, c, visit, calls))
    && Ordered(m, calls)
  }

  /** What a visit of `here` may add. */
  ghost predicate Progress(m: Links<Elt>, low: Elt, here: Elt, v0: map<Elt, nat>, c0: seq<Elt>, v1: map<Elt, nat>,
      c1: seq<Elt>)
  {
    && State(m, low, here, v1, c1) && (forall v :: v in v0 ==> v in v1 && v1[v] == v0[v])
    && (forall c :: c in c0 ==> c in c1)
    && (forall v :: v in v1 ==> v in v0 || (Settled(m, low, v, v1, c1) && Before(m, v, here)))
    && (forall c :: c in c1 ==> c in c0 || (c !in v0 && Before(m, c, here)))
  }

  lemma Enter(m: Links<Elt>, low: Elt, here: Elt, e: Elt, v0: map<Elt, nat>, c0: seq<Elt>, visit: map<Elt, nat>,
      calls: seq<Elt>)
    requires Progress(m, low, here, v0, c0, visit, calls) && Before(m, e, here) && e !in visit && e in m
    ensures State(m, low, e, visit[e := 0], calls)
  {
    var visit' := visit[e := 0];
    forall v | v in visit' ensures Upto(m, e, v) || Settled(m, low, v, visit', calls) {
      if v in visit && Upto(m, here, v) {
        BeforeTrans(m, e, here, v);
      }
    }
  }

  lemma SettledMore(m: Links<Elt>, low: Elt, v: Elt, v0: map<Elt, nat>, c0: seq<Elt>, v1: map<Elt, nat>, c1: seq<Elt>)
    requires Settled(m, low, v, v0, c0) && v in v1 && v1[v] == v0[v] && forall c :: c in c0 ==> c in c1
    ensures Settled(m, low, v, v1, c1)
  {}

  lemma OrderedMore(m: Links<Elt>, low: Elt, e: Elt, visit: map<Elt, nat>, calls: seq<Elt>)
    requires Ordered(m, calls) && e !in calls && Before(m, low, e) && e in m
    requires forall c :: c in calls ==> Settled(m, low, c, visit, calls)
    ensures Ordered(m, calls + [e])
  {
    var all := calls + [e];
    forall i, j | 0 <= i < j < |all| ensures all[i] != all[j] && !Before(m, all[j], all[i]) {
      assert all[i] == calls[i] && calls[i] in calls;
      assert j == |calls| ==>
        Settled(m, low, calls[i], visit, calls) && (Before(m, e, calls[i]) <==> Between(m, low, e, calls[i]));
    }
  }

  /** The visit of `e` is over. */
  lemma Leave(m: Links<Elt>, low: Elt, here: Elt, e: Elt, v0: map<Elt, nat>, c0: seq<Elt>, v: map<Elt, nat>,
      c: seq<Elt>, v1: map<Elt, nat>, c1: seq<Elt>, r: bool)
    requires Acyclic(m) && Progress(m, low, here, v0, c0, v, c) && e !in v && e in m && Before(m, e, here)
    requires Progress(m, low, e, v[e := 0], c, v1, c1) && (r <==> Before(m, low, e))
    requires forall x :: x in m && Between(m, low, x, e) ==> x in c1
    ensures var v2, c2 := v1[e := if r then 1 else 0], if r then c1 + [e] else c1;
            Progress(m, low, here, v0, c0, v2, c2) && Settled(m, low, e, v2, c2)
  {
    hide Before, Upto, Ordered, Acyclic, Settled, State;
    var v2, c2 := v1[e := if r then 1 else 0], if r then c1 + [e] else c1;
    KnownCalled(m, low, here, v, c);
    KnownCalled(m, low, e, v1, c1);
    NotCalled(m, low, e, v, c, v1, c1);
    LeaveSettled(m, low, e, v, c, v1, c1, r, v2, c2);
    LeaveState(m, low, here, e, v, c, v1, c1, r, v2, c2);
    forall x | Before(m, x, e) ensures Before(m, x, here) { BeforeTrans(m, x, e, here); }
  }

  lemma LeaveState(m: Links<Elt>, low: Elt, here: Elt, e: Elt, v: map<Elt, nat>, c: seq<Elt>, v1: map<Elt, nat>,
      c1: seq<Elt>, r: bool, v2: map<Elt, nat>, c2: seq<Elt>)
    requires State(m, low, here, v, c) && e !in v && e in m && e !in c1
    requires Progress(m, low, e, v[e := 0], c, v1, c1) && (r <==> Before(m, low, e))
    requires v2 == v1[e := if r then 1 else 0] && c2 == if r then c1 + [e] else c1
    requires forall x :: x in v1 && x != e && Settled(m, low, x, v1, c1) ==> Settled(m, low, x, v2, c2)
    requires forall x :: x in v && Settled(m, low, x, v, c) ==> Settled(m, low, x, v2, c2)
    requires Settled(m, low, e, v2, c2)
    ensures State(m, low, here, v2, c2)
  {
    hide Before, Upto, Ordered, Settled;
    KnownCalled(m, low, e, v1, c1);
    if r { OrderedMore(m, low, e, v1, c1); }
  }

  lemma KnownCalled(m: Links<Elt>, low: Elt, here: Elt, v: map<Elt, nat>, c: seq<Elt>)
    requires State(m, low, here, v, c)
    ensures forall q :: q in c ==> q in v
  {}

  lemma LeaveSettled(m: Links<Elt>, low: Elt, e: Elt, v: map<Elt, nat>, c: seq<Elt>, v1: map<Elt, nat>, c1: seq<Elt>,
      r: bool, v2: map<Elt, nat>, c2: seq<Elt>)
    requires e !in v && (forall x :: x in v ==> x in v1 && v1[x] == v[x]) && (forall q :: q in c ==> q in c1)
    requires (r <==> Before(m, low, e)) && forall x :: x in m && Between(m, low, x, e) ==> x in c1
    requires v2 == v1[e := if r then 1 else 0] && c2 == if r then c1 + [e] else c1
    ensures forall x :: x in v1 && x != e && Settled(m, low, x, v1, c1) ==> Settled(m, low, x, v2, c2)
    ensures forall x :: x in v && Settled(m, low, x, v, c) ==> Settled(m, low, x, v2, c2)
    ensures Settled(m, low, e, v2, c2)
  {
    forall x | x in v1 && x != e && Settled(m, low, x, v1, c1) ensures Settled(m, low, x, v2, c2) {
      SettledMore(m, low, x, v1, c1, v2, c2);
    }
    forall x | x in v && Settled(m, low, x, v, c) ensures Settled(m, low, x, v2, c2) {
      SettledMore(m, low, x, v, c, v2, c2);
    }
  }

  lemma NotCalled(m: Links<Elt>, low: Elt, e: Elt, v: map<Elt, nat>, c: seq<Elt>, v1: map<Elt, nat>, c1: seq<Elt>)
    requires Progress(m, low, e, v[e := 0], c, v1, c1) && e !in v && forall q :: q in c ==> q in v
    ensures e !in c1
  {}

  /** A direct link from `low` means that nothing lies between, or comes last. */
  ghost predicate Tidy(m: Links<Elt>, w: Links<Elt>, low: Elt) {
    forall h :: h in w && h in m && low in w[h] ==>
      w[h][|w[h]| - 1] == low || forall x :: x in m ==> !Between(m, low, x, h)
  }

  /** The first `i` predecessors in the list `s` have been visited. */
  ghost predicate Seen(m: Links<Elt>, low: Elt, s: seq<Elt>, i: nat, visit: map<Elt, nat>, calls: seq<Elt>, reach: nat)
    requires i <= |s|
  {
    && (forall j :: 0 <= j < i ==> s[j] != low && Settled(m, low, s[j], visit, calls))
    && (reach > 0 <==> exists j :: 0 <= j < i && Before(m, low, s[j]))
  }

  lemma SeenNext(m: Links<Elt>, low: Elt, s: seq<Elt>, i: nat, visit: map<Elt, nat>, calls: seq<Elt>, reach: nat,
      visit': map<Elt, nat>, calls': seq<Elt>, reach': nat)
    requires i < |s| && Seen(m, low, s, i, visit, calls, reach) && s[i] != low
    requires forall x :: x in visit && Settled(m, low, x, visit, calls) ==> Settled(m, low, x, visit', calls')
    requires Settled(m, low, s[i], visit', calls') && (reach' > 0 <==> reach > 0 || visit'[s[i]] > 0)
    ensures Seen(m, low, s, i + 1, visit', calls', reach')
  {}

  lemma SeenReach(m: Links<Elt>, w: Links<Elt>, low: Elt, high: Elt, visit: map<Elt, nat>, calls: seq<Elt>, reach: nat)
    requires Simple(m, w) && high in m && Seen(m, low, w[high], |w[high]|, visit, calls, reach)
    ensures reach > 0 <==> Before(m, low, high)
  {
    BeforeLast(m, w, low, high);
    hide Before, Simple;
    if p :| p in Out(w, high) && Upto(m, low, p) {
      var j :| 0 <= j < |w[high]| && w[high][j] == p;
      assert Before(m, low, w[high][j]);
    }
    if j :| 0 <= j < |w[high]| && Before(m, low, w[high][j]) {
      assert w[high][j] in Out(w, high) && Upto(m, low, w[high][j]);
    }
  }

  lemma SeenAll(m: Links<Elt>, w: Links<Elt>, low: Elt, high: Elt, visit: map<Elt, nat>, calls: seq<Elt>, reach: nat)
    requires Simple(m, w) && high in m && Seen(m, low, w[high], |w[high]|, visit, calls, reach)
    ensures reach > 0 <==> Before(m, low, high)
    ensures forall x :: x in m && Between(m, low, x, high) ==> x in calls
  {
    SeenReach(m, w, low, high, visit, calls, reach);
    forall x | x in m && Between(m, low, x, high) ensures x in calls {
      BeforeLast(m, w, x, high);
      var p :| p in w[high] && Upto(m, x, p);
      assert Settled(m, low, p, visit, calls);
      BeforeTrans(m, low, x, p);
    }
  }

  /** A direct link has been met. */
  lemma SeenLow(m: Links<Elt>, w: Links<Elt>, low: Elt, high: Elt, i: nat, visit: map<Elt, nat>, calls: seq<Elt>,
      reach: nat)
    requires Simple(m, w) && Acyclic(m) && high in m && low in m && Tidy(m, w, low)
    requires i < |w[high]| && w[high][i] == low && Seen(m, low, w[high], i, visit, calls, reach)
    ensures Before(m, low, high)
    ensures forall x :: x in m && Between(m, low, x, high) ==> x in calls
  {
    EdgeBefore(m, low, high);
    forall x | x in m && Between(m, low, x, high) ensures x in calls {
      assert i == |w[high]| - 1;
      BeforeLast(m, w, x, high);
      var p :| p in w[high] && Upto(m, x, p);
      BeforeTrans(m, low, x, p);
      var j :| 0 <= j < |w[high]| && w[high][j] == p;
      assert j < i && Settled(m, low, w[high][j], visit, calls);
    }
  }

  lemma ProgressStart(m: Links<Elt>, low: Elt, here: Elt, visit: map<Elt, nat>, calls: seq<Elt>, s: seq<Elt>)
    requires State(m, low, here, visit, calls)
    ensures Progress(m, low, here, visit, calls, visit, calls) && Seen(m, low, s, 0, visit, calls, 0)
  {}

  lemma MetAgain(m: Links<Elt>, low: Elt, here: Elt, e: Elt, v0: map<Elt, nat>, c0: seq<Elt>, v: map<Elt, nat>,
      c: seq<Elt>)
    requires Progress(m, low, here, v0, c0, v, c) && e in v && Before(m, e, here) && Acyclic(m) && e in m
    ensures Settled(m, low, e, v, c)
  {
    if Upto(m, here, e) { BeforeTrans(m, e, here, e); }
  }

  lemma SettledAfter(m: Links<Elt>, low: Elt, e: Elt, v: map<Elt, nat>, c: seq<Elt>, v1: map<Elt, nat>, c1: seq<Elt>,
      r: nat, v2: map<Elt, nat>, c2: seq<Elt>)
    requires Progress(m, low, e, v[e := 0], c, v1, c1) && e !in v && v2 == v1[e := r] && forall q :: q in c1 ==> q in c2
    ensures forall x :: x in v && Settled(m, low, x, v, c) ==> Settled(m, low, x, v2, c2)
  {
    forall x | x in v && Settled(m, low, x, v, c) ensures Settled(m, low, x, v2, c2) {
      assert v[e := 0][x] == v[x];
      SettledMore(m, low, x, v, c, v2, c2);
    }
  }

  lemma PredFacts(m: Links<Elt>, w: Links<Elt>, high: Elt, i: nat)
    requires Simple(m, w) && Acyclic(m) && high in m && i < |w[high]|
    ensures var e := w[high][i];
            e in m && Before(m, e, high) && |After(w, e)| < |After(w, high)|
  {
    var e := w[high][i];
    assert high in m[e];
    EdgeBefore(m, e, high);
    forall a | a in w ensures !Before(w, a, a) { BeforeMirror(m, w, a, a); }
    AfterShrinks(w, high, e);
  }

  /** Calls the elements between `low` and `high`; tells whether `low` comes before `high`. */
  method OpenRangeDw(low: Elt, high: Elt, visit: map<Elt, nat>, calls: seq<Elt>, ghost elts: set<Elt>,
      ghost m: Links<Elt>, ghost w: Links<Elt>)
      returns (reach: nat, visit': map<Elt, nat>, calls': seq<Elt>)
    requires m == Succs(elts) && w == Preds(elts) && Simple(m, w) && Acyclic(m) && low in elts && high in elts
    requires Tidy(m, w, low)
    requires State(m, low, high, visit, calls)
    ensures Progress(m, low, high, visit, calls, visit', calls') && (reach > 0 <==> Before(m, low, high))
    ensures forall x :: x in m && Between(m, low, x, high) ==> x in calls'
    decreases |After(w, high)|
  {
    hide State, Progress, Seen, Settled, Simple, Acyclic, Tidy, After, Before;
    visit', calls', reach := visit, calls, 0;
    ProgressStart(m, low, high, visit, calls, w[high]);
    var i := 0;
    while i < |high.ipreds|
      invariant 0 <= i <= |high.ipreds| && high.ipreds == w[high]
      invariant Progress(m, low, high, visit, calls, visit', calls')
      invariant Seen(m, low, w[high], i, visit', calls', reach)
    {
      var e := high.ipreds[i];
      if e == low {
        SeenLow(m, w, low, high, i, visit', calls', reach);
        return 1, visit', calls';
      }
      PredFacts(m, w, high, i);
      ghost var v, c, r := visit', calls', reach;
      if e in visit' {
        reach := reach + visit'[e];
        MetAgain(m, low, high, e, visit, calls, v, c);
      } else {
        Enter(m, low, high, e, visit, calls, visit', calls');
        var sub;
        sub, visit', calls' := OpenRangeDw(low, e, visit'[e := 0], calls', elts, m, w);
        Leave(m, low, high, e, visit, calls, v, c, visit', calls', sub > 0);
        ghost var v1, c1 := visit', calls';
        if sub > 0 {
          visit' := visit'[e := 1];
          reach := reach + 1;
          calls' := calls' + [e];
        } else {
          visit' := visit'[e := 0];
        }
        SettledAfter(m, low, e, v, c, v1, c1, visit'[e], visit', calls');
      }
      SeenNext(m, low, w[high], i, v, c, r, visit', calls', reach);
      i := i + 1;
    }
    SeenAll(m, w, low, high, visit', calls', reach);
  }

  lemma DiagramTidy(m: Links<Elt>, w: Links<Elt>, l: map<Elt, nat>, bot: Elt, top: Elt, low: Elt)
    requires Diagram(m, w, l, bot, top) && low in m
    ensures Tidy(m, w, low)
  {
    hide Leveled, Before, NoDup;
    ReducedTidy(m, w, bot, top, low);
  }

  lemma ReducedTidy(m: Links<Elt>, w: Links<Elt>, bot: Elt, top: Elt, low: Elt)
    requires Mirror(m, w) && Reduced(m, bot, top) && low in m && top in w && bot in m
    requires top in m[bot] ==> w[top] != [] && w[top][|w[top]| - 1] == bot
    ensures Tidy(m, w, low)
  {
    hide Before;
    forall h | h in w && h in m && low in w[h]
      ensures w[h][|w[h]| - 1] == low || forall x :: x in m ==> !Between(m, low, x, h)
    {
      assert h in m[low];
    }
  }

  /** Calls each element strictly between `low` and `high`. */
  method IterOpenRange(low: Elt, high: Elt, ghost po: Po) returns (calls: seq<Elt>, reach: bool)
    requires po.Valid() && low in po.elts && high in po.elts
    ensures Ordered(Succs(po.elts), calls)
    ensures forall x :: x in calls <==> Between(Succs(po.elts), low, x, high)
    ensures reach <==> Before(Succs(po.elts), low, high)
  {
    hide Diagram, Before, Simple, Mirror, State, Progress, Ordered, Tidy, Acyclic, Closed, Rising;
    ghost var m, w := Succs(po.elts), Preds(po.elts);
    DiagramParts(m, w, Levels(po.elts), po.bot, po.top, low, high);
    DiagramTidy(m, w, Levels(po.elts), po.bot, po.top, low);
    NothingCalled(m, low, high);
    var r, visit_set;
    r, visit_set, calls := OpenRangeDw(low, high, map[], [], po.elts, m, w);
    reach := r > 0;
    AllCalled(m, low, high, visit_set, calls);
  }

  lemma NothingCalled(m: Links<Elt>, low: Elt, high: Elt)
    ensures State(m, low, high, map[], [])
  {}

  lemma AllCalled(m: Links<Elt>, low: Elt, high: Elt, visit: map<Elt, nat>, calls: seq<Elt>)
    requires Closed(m) && Progress(m, low, high, map[], [], visit, calls)
    requires forall x :: x in m && Between(m, low, x, high) ==> x in calls
    ensures Ordered(m, calls) && forall x :: x in calls <==> Between(m, low, x, high)
  {
    forall x | Between(m, low, x, high) ensures x in m { BeforeClosed(m, x, high); }
    hide Before, Settled;
  }

  /** Calls each `x` with `min` up to `x` and `x` before `high`, if there is any. */
  method IterLeftRange(min: Elt, high: Elt, ghost po: Po) returns (calls: seq<Elt>)
    requires po.Valid() && min in po.elts && high in po.elts
    ensures forall i, j :: 0 <= i < j < |calls| ==> calls[i] != calls[j]
    ensures forall x :: x in calls <==> Upto(Succs(po.elts), min, x) && Before(Succs(po.elts), x, high)
  {
    hide Diagram, Before, Between, Ordered, Upto, Acyclic, Closed, Rising, Mirror, Simple;
    var reach;
    calls, reach := IterOpenRange(min, high, po);
    DiagramParts(Succs(po.elts), Preds(po.elts), Levels(po.elts), po.bot, po.top, min, high);
    WithEnds(Succs(po.elts), min, high, calls);
    if reach {
      calls := calls + [min];
    }
  }

  method IterRightRange(low: Elt, max: Elt, ghost po: Po) returns (calls: seq<Elt>)
    requires po.Valid() && low in po.elts && max in po.elts
    ensures Ordered(Succs(po.elts), calls)
    ensures forall x :: x in calls <==> Before(Succs(po.elts), low, x) && Upto(Succs(po.elts), x, max)
  {
    hide Diagram, Before, Between, Ordered, Upto, Acyclic, Closed, Rising, Mirror, Simple;
    var reach;
    calls, reach := IterOpenRange(low, max, po);
    DiagramParts(Succs(po.elts), Preds(po.elts), Levels(po.elts), po.bot, po.top, low, max);
    WithEnds(Succs(po.elts), low, max, calls);
    if reach {
      calls := calls + [max];
    }
  }

  method IterClosedRange(min: Elt, max: Elt, ghost po: Po) returns (calls: seq<Elt>)
    requires po.Valid() && min in po.elts && max in po.elts
    ensures forall i, j :: 0 <= i < j < |calls| ==> calls[i] != calls[j]
    ensures forall x :: x in calls <==> Upto(Succs(po.elts), min, x) && Upto(Succs(po.elts), x, max)
  {
    hide Diagram, Before, Between, Ordered, Upto, Acyclic, Closed, Rising, Mirror, Simple;
    DiagramParts(Succs(po.elts), Preds(po.elts), Levels(po.elts), po.bot, po.top, min, max);
    if min == max {
      OneElement(Succs(po.elts), min);
      return [min];
    }
    var reach;
    calls, reach := IterOpenRange(min, max, po);
    WithEnds(Succs(po.elts), min, max, calls);
    if reach {
      calls := calls + [min] + [max];
    }
  }

  /** What has to be added to an open range for its ends. */
  lemma WithEnds(m: Links<Elt>, low: Elt, high: Elt, calls: seq<Elt>)
    requires Ordered(m, calls) && (forall x :: x in calls <==> Between(m, low, x, high))
    requires Acyclic(m) && low in m && high in m
    ensures Before(m, low, high) ==>
              && Ordered(m, calls + [high])
              && (forall i, j :: 0 <= i < j < |calls + [low]| ==> (calls + [low])[i] != (calls + [low])[j])
              && (forall x :: x in calls + [low] <==> Upto(m, low, x) && Before(m, x, high))
              && (forall x :: x in calls + [high] <==> Before(m, low, x) && Upto(m, x, high))
              && (forall i, j :: 0 <= i < j < |calls + [low] + [high]| ==>
                (calls + [low] + [high])[i] != (calls + [low] + [high])[j])
              && (forall x :: x in calls + [low] + [high] <==> Upto(m, low, x) && Upto(m, x, high))
    ensures !Before(m, low, high) ==>
              && calls == []
              && (forall x :: !(Upto(m, low, x) && Before(m, x, high)) && !(Before(m, low, x) && Upto(m, x, high)))
              && (low != high ==> forall x :: !(Upto(m, low, x) && Upto(m, x, high)))
  {
    RangeEnds(m, low, high);
    hide Before, Acyclic;
    assert calls == [] || calls[0] in calls;
    forall x ensures Between(m, low, x, high) <==> Before(m, low, x) && Before(m, x, high) {}
    if Before(m, low, high) {
      AddLow(calls, low);
      AddLow(calls + [low], high);
      forall i | 0 <= i < |calls| ensures !Before(m, high, calls[i]) { assert calls[i] in calls; }
    }
  }

  lemma AddLow(calls: seq<Elt>, low: Elt)
    requires (forall i, j :: 0 <= i < j < |calls| ==> calls[i] != calls[j]) && low !in calls
    ensures forall i, j :: 0 <= i < j < |calls + [low]| ==> (calls + [low])[i] != (calls + [low])[j]
  {}

  lemma OneElement(m: Links<Elt>, e: Elt)
    requires Acyclic(m) && e in m
    ensures forall x :: x in [e] <==> Upto(m, e, x) && Upto(m, x, e)
  {
    RangeEnds(m, e, e);
    hide Before;
  }

  /** Neither end lies between the ends, nor does anything if they are not in order. */
  lemma RangeEnds(m: Links<Elt>, low: Elt, high: Elt)
    requires Acyclic(m) && low in m && high in m
    ensures !Before(m, low, low) && !Before(m, high, high)
    ensures forall x: Elt :: Between(m, low, x, high) ==> Before(m, low, high) && !Before(m, high, x)
    ensures forall x: Elt :: Before(m, low, x) ==> !Before(m, x, low)
  {
    forall x: Elt | Between(m, low, x, high) ensures Before(m, low, high) && !Before(m, high, x) {
      BeforeTrans(m, low, x, high);
      if Before(m, high, x) { BeforeTrans(m, high, x, high); }
    }
    forall x: Elt | Before(m, low, x) ensures !Before(m, x, low) {
      if Before(m, x, low) { BeforeTrans(m, low, x, low); }
    }
  }
}
