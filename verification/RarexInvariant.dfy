/** What every step of the rarex protocol keeps.

    Each thread is classified by what it contributes to the word: accesses it
    owns, requests it has announced but not settled, and jammed requests.  The
    invariant is linear in the totals of these classes.  */
module RarexInvariant {
  import opened RarexModel

  /** Owned, pending and jammed reads; the same for writes; wake-ups not yet
      holding the mutex. */
  datatype Requests = Requests(own: nat, pend: nat, jam: nat)

  datatype Tally = Tally(rd: Requests, wr: Requests, wk: nat) {
    function Readers(): nat { rd.own + rd.pend + rd.jam }
    function Writers(): nat { wr.own + wr.pend + wr.jam }
    function Jammed(): nat { rd.jam + wr.jam }
    /** Counted requests that are not jammed. */
    function Active(): nat { rd.own + rd.pend + wr.own + wr.pend }
  }

  /** The classes, one per field of a tally. */
  datatype Class = RA | PR | JR | WA | PW | JW | WK

  function Unit(b: bool): nat { if b then 1 else 0 }

  predicate Unsettled(t: Thread, r: Request) {
    t.control.Slow? && t.control.request == r && t.control.phase != Asleep
  }

  predicate Sleeping(t: Thread, r: Request, jammed: bool) {
    t.control == Slow(r, Asleep) && t.jammed == jammed
  }

  /** What thread `t` contributes to class `k`. */
  function Count(k: Class, t: Thread): nat {
    match k
    case RA => t.readHolds + Unit(Sleeping(t, Read, false))
    case PR => Unit(Unsettled(t, Read) || t.control == TryFailed)
    case JR => Unit(Sleeping(t, Read, true))
    case WA => Unit(t.writing) + Unit(Sleeping(t, Write, false))
    case PW => Unit(Unsettled(t, Write))
    case JW => Unit(Sleeping(t, Write, true))
    case WK => Unit(t.control == Slow(Wake, Entering))
  }

  function Sum(k: Class, ts: seq<Thread>): nat {
    if ts == [] then 0 else Count(k, ts[0]) + Sum(k, ts[1..])
  }

  function Total(ts: seq<Thread>): Tally {
    Tally(Requests(Sum(RA, ts), Sum(PR, ts), Sum(JR, ts)), Requests(Sum(WA, ts), Sum(PW, ts), Sum(JW, ts)), Sum(WK, ts))
  }

  predicate Sane(t: Thread) {
    && (t.jammed ==> t.control.Slow? && t.control.phase == Asleep && t.control.request != Wake
                     && t.jammedOnWrite == (t.control.request == Write))
    && t.control != Slow(Wake, Asleep)
    && (t.control.Slow? && t.control.request == Write ==> t.readHolds == 0 && !t.writing)
    && (t.writing ==> t.readHolds == 0)
  }

  ghost predicate AllSane(ts: seq<Thread>) {
    forall i :: 0 <= i < |ts| ==> Sane(ts[i])
  }

  /** Requests counted by a snapshot of the word. */
  function Spread(snap: nat): nat {
    snap / 0x10000 + snap % 0x10000
  }

  /** The thread in the critical section: its request and, once loaded, its
      snapshot with the number of requests that counts. */
  datatype Holder = Nobody | Before(r: Request) | Loaded(r: Request, v: nat, spread: nat)

  function HolderOf(s: State): Holder {
    if s.mutex == None || s.mutex.value >= |s.threads| then Nobody
    else match s.threads[s.mutex.value].control
         case Slow(r, Locked) => Before(r)
         case Slow(r, Snapped(v)) => Loaded(r, v, Spread(v))
         case _ => Nobody
  }

  /** A wake-up that will act: it has not loaded the word, or its snapshot makes
      it release somebody. */
  predicate WakePending(c: Tally, h: Holder) {
    || c.wk > 0
    || h == Before(Wake)
    || (h.Loaded? && h.r == Wake && if h.v < WRITE_MULTIPLIER then h.v > 0 else h.spread == c.Jammed())
  }

  /** What the holder of the mutex may still rely on from its snapshot, however
      the word has changed since. */
  predicate SnapshotHolds(c: Tally, r: Request, v: nat, spread: nat) {
    && c.Jammed() <= spread
    && (r != Wake ==> c.Jammed() < spread)
    && if v < WRITE_MULTIPLIER then
         && c.wr.jam == 0
         && match r
            case Read => c.wr.own == 0 && v >= 1 && (v == 1 ==> c.rd.jam == 0)
            case Write => false
            case Wake => (v == 0 ==> c.rd.jam == 0) && (c.rd.jam > 0 ==> c.wr.own == 0)
       else
         // only the holder itself, or nobody, was active
         && (spread == c.Jammed() + (if r == Wake then 0 else 1) ==>
               c.rd.own == c.wr.own == 0 && (r != Write ==> c.wr.jam > 0))
         // somebody else was active, and still is unless a wake-up is due
         && (r != Wake && spread >= c.Jammed() + 2 ==> c.wk > 0 || (c.Writers() > 0 && c.Active() >= 2))
  }

  /** The invariant on the totals. */
  predicate Balanced(word: nat, c: Tally, h: Holder) {
    && word == c.Readers() + 0x10000 * c.Writers()
    && c.Readers() < WRITE_MULTIPLIER
    // exclusion
    && c.wr.own <= 1
    && (c.wr.own == 1 ==> c.rd.own == 0)
    // the holder's own request is among the pending ones
    && (h.Before? || h.Loaded? ==> (h.r == Read ==> c.rd.pend > 0) && (h.r == Write ==> c.wr.pend > 0))
    && (h.Loaded? ==> SnapshotHolds(c, h.r, h.v, h.spread))
    // no lost wake-up
    && (c.Jammed() > 0 ==> WakePending(c, h) || (c.Writers() > 0 && c.Active() > 0))
  }

  ghost predicate MutexSane(s: State) {
    && (s.mutex.Some? ==> s.mutex.value < |s.threads|)
    && (forall i :: 0 <= i < |s.threads| ==> (InMutex(s.threads[i]) <==> s.mutex == Some(i)))
  }

  ghost predicate Inv(s: State) {
    && |s.threads| < WRITE_MULTIPLIER
    && AllSane(s.threads)
    && MutexSane(s)
    && Balanced(s.word, Total(s.threads), HolderOf(s))
  }

  // ------------------------------------------------------------------ totals

  /** Replacing one thread changes each sum by that thread's contribution. */
  lemma {:induction false} SumUpdate(k: Class, ts: seq<Thread>, i: nat, t: Thread)
    requires i < |ts|
    ensures Sum(k, ts[i := t]) + Count(k, ts[i]) == Sum(k, ts) + Count(k, t)
  {
    if i == 0 {
      assert ts[i := t][1..] == ts[1..];
    } else {
      assert ts[i := t][1..] == ts[1..][i - 1 := t];
      SumUpdate(k, ts[1..], i - 1, t);
    }
  }

  /** `after` differs from `before` by one thread changing from `t` to `t'`. */
  predicate Shifted(before: Tally, t: Thread, t': Thread, after: Tally) {
    && after.rd.own + Count(RA, t) == before.rd.own + Count(RA, t')
    && after.rd.pend + Count(PR, t) == before.rd.pend + Count(PR, t')
    && after.rd.jam + Count(JR, t) == before.rd.jam + Count(JR, t')
    && after.wr.own + Count(WA, t) == before.wr.own + Count(WA, t')
    && after.wr.pend + Count(PW, t) == before.wr.pend + Count(PW, t')
    && after.wr.jam + Count(JW, t) == before.wr.jam + Count(JW, t')
    && after.wk + Count(WK, t) == before.wk + Count(WK, t')
  }

  lemma TotalUpdate(ts: seq<Thread>, i: nat, t: Thread)
    requires i < |ts|
    ensures Shifted(Total(ts), ts[i], t, Total(ts[i := t]))
  {
    SumUpdate(RA, ts, i, t); SumUpdate(PR, ts, i, t); SumUpdate(JR, ts, i, t);
    SumUpdate(WA, ts, i, t); SumUpdate(PW, ts, i, t); SumUpdate(JW, ts, i, t);
    SumUpdate(WK, ts, i, t);
  }

  lemma {:induction false} SumIncludes(k: Class, ts: seq<Thread>, i: nat)
    requires i < |ts|
    ensures Count(k, ts[i]) <= Sum(k, ts)
  {
    if i > 0 { SumIncludes(k, ts[1..], i - 1); }
  }

  lemma TotalIncludes(ts: seq<Thread>, i: nat)
    requires i < |ts|
    ensures var c, t := Total(ts), ts[i];
            && Count(RA, t) <= c.rd.own && Count(PR, t) <= c.rd.pend && Count(JR, t) <= c.rd.jam
            && Count(WA, t) <= c.wr.own && Count(PW, t) <= c.wr.pend && Count(JW, t) <= c.wr.jam && Count(WK, t) <= c.wk
  {
    SumIncludes(RA, ts, i); SumIncludes(PR, ts, i); SumIncludes(JR, ts, i);
    SumIncludes(WA, ts, i); SumIncludes(PW, ts, i); SumIncludes(JW, ts, i);
    SumIncludes(WK, ts, i);
  }

  lemma {:induction false} JammedIsTotal(ts: seq<Thread>)
    requires AllSane(ts)
    ensures JammedCount(ts) == Total(ts).Jammed()
  {
    if ts != [] {
      assert AllSane(ts[1..]);
      JammedIsTotal(ts[1..]);
      assert Sane(ts[0]);
    }
  }

  /** What a class counts once every jam flag of a thread is cleared. */
  function Cleared(k: Class, t: Thread): nat {
    match k
    case RA => Count(RA, t) + Count(JR, t)
    case WA => Count(WA, t) + Count(JW, t)
    case JR => 0
    case JW => 0
    case _ => Count(k, t)
  }

  lemma ClearedCount(k: Class, t: Thread)
    requires Sane(t)
    ensures Sane(t.(jammed := false))
    ensures Count(k, t.(jammed := false)) == Cleared(k, t)
    ensures Count(JW, t) == Unit(JammedWriter(t))
  {}

  /** Releasing the readers turns every jammed read into an owned one. */
  lemma {:induction false} ReleaseReadersSum(k: Class, ts: seq<Thread>)
    requires AllSane(ts)
    requires Sum(JW, ts) == 0
    ensures Sum(k, ReleaseReaders(ts)) == if k == JR then 0 else Sum(k, ts) + (if k == RA then Sum(JR, ts) else 0)
  {
    if ts != [] {
      assert AllSane(ts[1..]);
      ReleaseReadersSum(k, ts[1..]);
      ClearedCount(k, ts[0]);
      assert ReleaseReaders(ts)[1..] == ReleaseReaders(ts[1..]);
    }
  }

  lemma ReleaseReadersTotal(ts: seq<Thread>)
    requires AllSane(ts)
    requires Sum(JW, ts) == 0
    ensures var c := Total(ts); Total(ReleaseReaders(ts)) == c.(rd := c.rd.(own := c.rd.own + c.rd.jam, jam := 0))
    ensures AllSane(ReleaseReaders(ts))
  {
    ReleaseReadersSum(RA, ts); ReleaseReadersSum(PR, ts); ReleaseReadersSum(JR, ts);
    ReleaseReadersSum(WA, ts); ReleaseReadersSum(PW, ts); ReleaseReadersSum(JW, ts);
    ReleaseReadersSum(WK, ts);
    forall i | 0 <= i < |ts| ensures Sane(ReleaseReaders(ts)[i]) { ClearedCount(RA, ts[i]); }
  }

  /** The writer that is released: the first jammed one of the chain. */
  lemma {:induction false} ReleaseWriterIsFirst(ts: seq<Thread>, i: nat)
    requires i < |ts| && JammedWriter(ts[i])
    requires forall k :: 0 <= k < i ==> !JammedWriter(ts[k])
    ensures ReleaseWriter(ts) == ts[i := ts[i].(jammed := false)]
  {
    if i > 0 { ReleaseWriterIsFirst(ts[1..], i - 1); }
  }

  lemma {:induction false} FirstJammedWriter(ts: seq<Thread>) returns (i: nat)
    requires AllSane(ts) && Sum(JW, ts) > 0
    ensures i < |ts| && JammedWriter(ts[i])
    ensures forall k :: 0 <= k < i ==> !JammedWriter(ts[k])
  {
    if JammedWriter(ts[0]) {
      i := 0;
    } else {
      assert AllSane(ts[1..]);
      ClearedCount(JW, ts[0]);
      var j := FirstJammedWriter(ts[1..]);
      i := j + 1;
    }
  }

  /** Releasing a writer turns one jammed write into an owned one. */
  lemma ReleaseWriterTotal(ts: seq<Thread>) returns (i: nat)
    requires AllSane(ts) && Sum(JW, ts) > 0
    ensures var c := Total(ts);
            c.wr.jam > 0 && Total(ReleaseWriter(ts)) == c.(wr := c.wr.(own := c.wr.own + 1, jam := c.wr.jam - 1))
    ensures AllSane(ReleaseWriter(ts))
    ensures i < |ts| && JammedWriter(ts[i]) && ReleaseWriter(ts) == ts[i := ts[i].(jammed := false)]
  {
    i := FirstJammedWriter(ts);
    ReleaseWriterIsFirst(ts, i);
    assert Sane(ts[i]);
    ClearedCount(RA, ts[i]);
    TotalUpdate(ts, i, ts[i].(jammed := false));
  }

  // ----------------------------------------------------------------- balance

  lemma InitBalanced(w: nat, c: Tally)
    requires w == c.Readers() + c.Writers() + c.wk == 0
    ensures Balanced(w, c, Nobody)
  {}

  /** A new read request: owned at once, or announced behind a writer. */
  lemma ReadRequestBalanced(w: nat, c: Tally, h: Holder)
    requires Balanced(w, c, h) && c.Readers() + 1 < WRITE_MULTIPLIER
    ensures w < WRITE_MULTIPLIER ==> Balanced(w + 1, c.(rd := c.rd.(own := c.rd.own + 1)), h)
    ensures w >= WRITE_MULTIPLIER ==> Balanced(w + 1, c.(rd := c.rd.(pend := c.rd.pend + 1)), h)
  {}

  lemma WriteRequestBalanced(w: nat, c: Tally, h: Holder)
    requires Balanced(w, c, h)
    ensures w == 0 ==> Balanced(w + WRITE_MULTIPLIER, c.(wr := c.wr.(own := c.wr.own + 1)), h)
    ensures w > 0 ==> Balanced(w + WRITE_MULTIPLIER, c.(wr := c.wr.(pend := c.wr.pend + 1)), h)
    ensures w == 1 && c.rd.own == 1 ==>
              Balanced(WRITE_MULTIPLIER, c.(rd := c.rd.(own := 0), wr := c.wr.(own := c.wr.own + 1)), h)
  {}

  /** Giving up a request other than the holder's own. */
  lemma GiveUpBalanced(w: nat, c: Tally, h: Holder, c': Tally)
    requires Balanced(w, c, h)
    requires c' == c.(rd := c.rd.(own := c'.rd.own, pend := c'.rd.pend), wr := c.wr.(own := c'.wr.own), wk := c'.wk)
    requires c'.wk == c.wk + (if w > WRITE_MULTIPLIER then 1 else 0)
    requires (c.rd.own, c.rd.pend, c.wr.own) in {(c'.rd.own + 1, c'.rd.pend, c'.wr.own),
              (c'.rd.own, c'.rd.pend + 1, c'.wr.own), (c'.rd.own, c'.rd.pend, c'.wr.own + 1)}
    requires (h.Before? || h.Loaded?) && h.r == Read ==> c'.rd.pend > 0
    ensures c'.wr.own == c.wr.own ==> w >= 1 && Balanced(w - 1, c', h)
    ensures c'.wr.own < c.wr.own ==> w >= WRITE_MULTIPLIER && Balanced(w - WRITE_MULTIPLIER, c', h)
  {}

  lemma TakeMutexBalanced(w: nat, c: Tally, r: Request)
    requires Balanced(w, c, Nobody)
    requires r == Read ==> c.rd.pend > 0
    requires r == Write ==> c.wr.pend > 0
    requires r == Wake ==> c.wk > 0
    ensures Balanced(w, if r == Wake then c.(wk := c.wk - 1) else c, Before(r))
  {}

  lemma SpreadOfWord(w: nat, c: Tally)
    requires w == c.Readers() + 0x10000 * c.Writers() && c.Readers() < WRITE_MULTIPLIER
    ensures Spread(w) == c.Readers() + c.Writers()
  {}

  lemma LoadBalanced(w: nat, c: Tally, r: Request)
    requires Balanced(w, c, Before(r))
    ensures Balanced(w, c, Loaded(r, w, c.Readers() + c.Writers()))
  {}

  /** The totals after the holder has released whom it releases. */
  function Released(c: Tally, r: Request, v: nat, spread: nat): Tally {
    if r != Write && v < WRITE_MULTIPLIER then c.(rd := c.rd.(own := c.rd.own + c.rd.jam, jam := 0))
    else if r != Write && spread == c.Jammed() + (if r == Wake then 0 else 1) && c.wr.jam > 0 then
      c.(wr := c.wr.(own := c.wr.own + 1, jam := c.wr.jam - 1))
    else c
  }

  /** The totals after the holder has jammed itself or been served. */
  function OwnSettled(c: Tally, r: Request, jam: bool): Tally {
    match r
    case Wake => c
    case Read =>
      if c.rd.pend == 0 then c
      else if jam then c.(rd := c.rd.(pend := c.rd.pend - 1, jam := c.rd.jam + 1))
      else c.(rd := c.rd.(pend := c.rd.pend - 1, own := c.rd.own + 1))
    case Write =>
      if c.wr.pend == 0 then c
      else if jam then c.(wr := c.wr.(pend := c.wr.pend - 1, jam := c.wr.jam + 1))
      else c.(wr := c.wr.(pend := c.wr.pend - 1, own := c.wr.own + 1))
  }

  /** The totals after the holder's decision. */
  function Settled(c: Tally, r: Request, v: nat, spread: nat): Tally {
    OwnSettled(Released(c, r, v, spread), r,
               (r == Read && v >= WRITE_MULTIPLIER) || (r == Write && spread > c.Jammed() + 1))
  }

  lemma DecideReadBalanced(w: nat, c: Tally, v: nat, spread: nat)
    requires Balanced(w, c, Loaded(Read, v, spread))
    ensures Balanced(w, Settled(c, Read, v, spread), Nobody)
  {}

  lemma DecideWriteBalanced(w: nat, c: Tally, v: nat, spread: nat)
    requires Balanced(w, c, Loaded(Write, v, spread))
    ensures Balanced(w, Settled(c, Write, v, spread), Nobody)
  {}

  lemma DecideWakeBalanced(w: nat, c: Tally, v: nat, spread: nat)
    requires Balanced(w, c, Loaded(Wake, v, spread))
    ensures Balanced(w, Settled(c, Wake, v, spread), Nobody)
  {}

  // ------------------------------------------------------------------- steps

  lemma {:induction false} FreshSum(k: Class, ts: seq<Thread>)
    requires forall i :: 0 <= i < |ts| ==> ts[i] == FreshThread
    ensures Sum(k, ts) == 0
  {
    if ts != [] { FreshSum(k, ts[1..]); }
  }

  lemma InvFrom(s: State, c: Tally, h: Holder)
    requires |s.threads| < WRITE_MULTIPLIER && AllSane(s.threads) && MutexSane(s)
    requires c == Total(s.threads) && h == HolderOf(s) && Balanced(s.word, c, h)
    ensures Inv(s)
  {}

  lemma InitTotal(ts: seq<Thread>)
    requires forall i :: 0 <= i < |ts| ==> ts[i] == FreshThread
    ensures var c := Total(ts); c.Readers() == c.Writers() == c.wk == 0
  {
    FreshSum(RA, ts); FreshSum(PR, ts); FreshSum(JR, ts); FreshSum(WA, ts);
    FreshSum(PW, ts); FreshSum(JW, ts); FreshSum(WK, ts);
  }

  lemma InitInv(n: nat, s: State)
    requires n < WRITE_MULTIPLIER && s == Init(n)
    ensures Inv(s)
  {
    InitSane(n, s);
    hide Init, AllSane, MutexSane, HolderOf, Balanced, Total;
    InitTotal(s.threads);
    InitBalanced(s.word, Total(s.threads));
    InvFrom(s, Total(s.threads), Nobody);
  }

  lemma InitSane(n: nat, s: State)
    requires n < WRITE_MULTIPLIER && s == Init(n)
    ensures AllSane(s.threads) && MutexSane(s) && HolderOf(s) == Nobody && s.word == 0 && |s.threads| == n
    ensures forall i :: 0 <= i < |s.threads| ==> s.threads[i] == FreshThread
  {}

  /** Only thread `i` steps, from `t` to `t'`. */
  ghost predicate StepsAlone(s: State, i: nat, t: Thread, t': Thread, s': State) {
    && i < |s.threads| && s.threads[i] == t
    && s'.threads == s.threads[i := t']
    && Sane(t) && Sane(t')
  }

  lemma OneThreadStep(s: State, i: nat, t: Thread, t': Thread, s': State, c': Tally, h: Holder)
    requires |s.threads| < WRITE_MULTIPLIER && AllSane(s.threads) && MutexSane(s)
    requires StepsAlone(s, i, t, t', s') && s'.mutex == s.mutex && !InMutex(t) && !InMutex(t')
    requires c' == Total(s'.threads) && h == HolderOf(s) && Balanced(s'.word, c', h)
    ensures Inv(s')
  {
    assert h == HolderOf(s');
    InvFrom(s', c', h);
  }

  /** The totals bound what one thread contributes and follow its change. */
  lemma StepTotals(s: State, i: nat, t: Thread, t': Thread, s': State, c: Tally, c': Tally)
    requires StepsAlone(s, i, t, t', s') && c == Total(s.threads) && c' == Total(s'.threads)
    ensures Shifted(c, t, t', c')
    ensures Count(RA, t) <= c.rd.own && Count(WA, t) <= c.wr.own && Count(WK, t) <= c.wk
    ensures Count(PR, t) <= c.rd.pend && Count(PW, t) <= c.wr.pend
  {
    TotalUpdate(s.threads, i, t');
    TotalIncludes(s.threads, i);
  }

  /** A thread that becomes an owner or announces a request. */
  lemma RequestTotals(c: Tally, t: Thread, t': Thread, c': Tally)
    requires t.control == Idle && Shifted(c, t, t', c')
    ensures t' == t.(readHolds := t.readHolds + 1) ==> c' == c.(rd := c.rd.(own := c.rd.own + 1))
    ensures t' == t.(control := Slow(Read, Entering)) || t' == t.(control := TryFailed) ==>
              c' == c.(rd := c.rd.(pend := c.rd.pend + 1))
    ensures t' == t.(control := Slow(Write, Entering)) ==> c' == c.(wr := c.wr.(pend := c.wr.pend + 1))
    ensures !t.writing && t' == t.(writing := true) ==> c' == c.(wr := c.wr.(own := c.wr.own + 1))
    ensures t.readHolds == 1 && c.rd.own >= 1 && !t.writing && t' == t.(readHolds := 0, writing := true) ==>
              c' == c.(rd := c.rd.(own := c.rd.own - 1), wr := c.wr.(own := c.wr.own + 1))
  {}

  lemma ReadRequestKept(s: State, i: nat, t: Thread, t': Thread, s': State, c: Tally, h: Holder, c': Tally)
    requires Balanced(s.word, c, h) && c == Total(s.threads) && c' == Total(s'.threads)
    requires StepsAlone(s, i, t, t', s') && t.control == Idle
    requires s.word % 0x10000 + 1 < WRITE_MULTIPLIER && s'.word == s.word + 1
    requires if s.word < WRITE_MULTIPLIER then t' == t.(readHolds := t.readHolds + 1)
             else t' == t.(control := Slow(Read, Entering)) || t' == t.(control := TryFailed)
    ensures Balanced(s'.word, c', h)
  {
    StepTotals(s, i, t, t', s', c, c');
    RequestTotals(c, t, t', c');
    ReadRequestBalanced(s.word, c, h);
  }

  lemma ReadRequestInv(s: State, i: nat, t: Thread, t': Thread, s': State)
    requires Inv(s) && i < |s.threads| && t == s.threads[i] && t.control == Idle
    requires s.word % 0x10000 + 1 < WRITE_MULTIPLIER
    requires s' == State(s.word + 1, s.mutex, s.threads[i := t'])
    requires if s.word < WRITE_MULTIPLIER then t' == t.(readHolds := t.readHolds + 1)
             else t' == t.(control := Slow(Read, Entering)) || t' == t.(control := TryFailed)
    ensures Inv(s')
  {
    var c, c', h := Total(s.threads), Total(s'.threads), HolderOf(s);
    SumIncludes(WA, s.threads, i);
    assert Sane(t) && Sane(t');
    ReadRequestKept(s, i, t, t', s', c, h, c');
    OneThreadStep(s, i, t, t', s', c', h);
  }

  lemma WriteRequestKept(s: State, i: nat, t: Thread, t': Thread, s': State, c: Tally, h: Holder, c': Tally)
    requires Balanced(s.word, c, h) && c == Total(s.threads) && c' == Total(s'.threads)
    requires StepsAlone(s, i, t, t', s') && t.control == Idle
    requires (s'.word == s.word + WRITE_MULTIPLIER && t.readHolds == 0 && !t.writing
               && t' == if s.word > 0 then t.(control := Slow(Write, Entering)) else t.(writing := true))
          || (s.word == 0 && s'.word == WRITE_MULTIPLIER && t' == t.(writing := true))
          || (s.word == 1 && t.readHolds > 0 && s'.word == WRITE_MULTIPLIER
            && t' == t.(readHolds := t.readHolds - 1, writing := true))
    ensures Balanced(s'.word, c', h)
  {
    StepTotals(s, i, t, t', s', c, c');
    RequestTotals(c, t, t', c');
    WriteRequestBalanced(s.word, c, h);
  }

  lemma WriteRequestInv(s: State, i: nat, t: Thread, t': Thread, s': State)
    requires Inv(s) && i < |s.threads| && t == s.threads[i] && t.control == Idle
    requires s'.mutex == s.mutex && s'.threads == s.threads[i := t']
    requires (s'.word == s.word + WRITE_MULTIPLIER && t.readHolds == 0 && !t.writing
               && t' == if s.word > 0 then t.(control := Slow(Write, Entering)) else t.(writing := true))
          || (s.word == 0 && s'.word == WRITE_MULTIPLIER && t' == t.(writing := true))
          || (s.word == 1 && t.readHolds > 0 && s'.word == WRITE_MULTIPLIER
            && t' == t.(readHolds := t.readHolds - 1, writing := true))
    ensures Inv(s')
  {
    var c, c', h := Total(s.threads), Total(s'.threads), HolderOf(s);
    SumIncludes(WA, s.threads, i);
    SumIncludes(RA, s.threads, i);
    assert Sane(t) && Sane(t');
    WriteRequestKept(s, i, t, t', s', c, h, c');
    OneThreadStep(s, i, t, t', s', c', h);
  }

  /** A thread that gives up a request, with the wake-up it may owe. */
  lemma GiveUpTotals(c: Tally, t: Thread, t': Thread, c': Tally, word: nat)
    requires Shifted(c, t, t', c')
    requires t'.control == AfterRelease(word)
    requires (t.control == TryFailed && t' == t.(control := t'.control))
          || (t.control == Idle && t.readHolds > 0 && t' == t.(control := t'.control, readHolds := t.readHolds - 1))
          || (t.control == Idle && t.writing && t' == t.(control := t'.control, writing := false))
    ensures c' == c.(rd := c.rd.(own := c'.rd.own, pend := c'.rd.pend), wr := c.wr.(own := c'.wr.own), wk := c'.wk)
    ensures c'.wk == c.wk + (if word > WRITE_MULTIPLIER then 1 else 0)
    ensures t.control == TryFailed ==> c.rd.own == c'.rd.own && c.rd.pend == c'.rd.pend + 1 && c.wr.own == c'.wr.own
    ensures t.control == Idle && !t'.writing && t.writing ==>
              c.rd.own == c'.rd.own && c.rd.pend == c'.rd.pend && c.wr.own == c'.wr.own + 1
    ensures t.control == Idle && t'.readHolds < t.readHolds ==>
              c.rd.own == c'.rd.own + 1 && c.rd.pend == c'.rd.pend && c.wr.own == c'.wr.own
  {}

  /** The holder's own request stays pending when another thread steps. */
  lemma HolderIncluded(s: State, i: nat, t': Thread, s': State, c': Tally, h: Holder)
    requires MutexSane(s) && i < |s.threads| && !InMutex(s.threads[i])
    requires s'.threads == s.threads[i := t'] && c' == Total(s'.threads) && h == HolderOf(s)
    ensures (h.Before? || h.Loaded?) && h.r == Read ==> c'.rd.pend > 0
  {
    if s.mutex.Some? { SumIncludes(PR, s'.threads, s.mutex.value); }
  }

  lemma GiveUpKept(s: State, i: nat, t: Thread, t': Thread, s': State, c: Tally, h: Holder, c': Tally)
    requires MutexSane(s) && Balanced(s.word, c, h) && c == Total(s.threads) && h == HolderOf(s)
    requires StepsAlone(s, i, t, t', s') && !InMutex(t) && c' == Total(s'.threads) && t'.control == AfterRelease(s.word)
    requires (t.control == TryFailed && t' == t.(control := t'.control))
          || (t.control == Idle && t.readHolds > 0 && t' == t.(control := t'.control, readHolds := t.readHolds - 1))
          || (t.control == Idle && t.writing && t' == t.(control := t'.control, writing := false))
    requires s'.word == if t'.writing == t.writing then (if s.word > 0 then s.word - 1 else 0)
                        else if s.word >= WRITE_MULTIPLIER then s.word - WRITE_MULTIPLIER else 0
    ensures Balanced(s'.word, c', h)
  {
    StepTotals(s, i, t, t', s', c, c');
    GiveUpTotals(c, t, t', c', s.word);
    HolderIncluded(s, i, t', s', c', h);
    GiveUpBalanced(s.word, c, h, c');
  }

  lemma GiveUpInv(s: State, i: nat, t: Thread, t': Thread, s': State)
    requires Inv(s) && i < |s.threads| && t == s.threads[i]
    requires s'.mutex == s.mutex && s'.threads == s.threads[i := t'] && t'.control == AfterRelease(s.word)
    requires (t.control == TryFailed && t' == t.(control := t'.control))
          || (t.control == Idle && t.readHolds > 0 && t' == t.(control := t'.control, readHolds := t.readHolds - 1))
          || (t.control == Idle && t.writing && t' == t.(control := t'.control, writing := false))
    requires s'.word == if t'.writing == t.writing then (if s.word > 0 then s.word - 1 else 0)
                        else if s.word >= WRITE_MULTIPLIER then s.word - WRITE_MULTIPLIER else 0
    ensures Inv(s')
  {
    var c, c', h := Total(s.threads), Total(s'.threads), HolderOf(s);
    assert Sane(t) && Sane(t');
    GiveUpKept(s, i, t, t', s', c, h, c');
    OneThreadStep(s, i, t, t', s', c', h);
  }

  lemma MutexTotals(c: Tally, t: Thread, t': Thread, c': Tally, r: Request)
    requires Shifted(c, t, t', c') && t.control == Slow(r, Entering) && Count(WK, t) <= c.wk
    requires t' == t.(control := Slow(r, Locked))
    ensures c' == if r == Wake && c.wk > 0 then c.(wk := c.wk - 1) else c
  {}

  lemma MutexInv(s: State, i: nat, r: Request, t: Thread, t': Thread, s': State)
    requires Inv(s) && i < |s.threads| && t == s.threads[i] && t.control == Slow(r, Entering) && s.mutex == None
    requires t' == t.(control := Slow(r, Locked)) && s' == State(s.word, Some(i), s.threads[i := t'])
    ensures Inv(s')
  {
    var c, c' := Total(s.threads), Total(s'.threads);
    assert Sane(t) && Sane(t');
    assert Balanced(s'.word, c', Before(r)) by {
      StepTotals(s, i, t, t', s', c, c');
      MutexTotals(c, t, t', c', r);
      assert HolderOf(s) == Nobody;
      TakeMutexBalanced(s.word, c, r);
    }
    InvFrom(s', c', Before(r));
  }

  lemma LoadTotals(s: State, i: nat, r: Request, v: nat, s': State)
    requires i < |s.threads| && Sane(s.threads[i]) && s.threads[i].control == Slow(r, Locked)
    requires s'.threads == s.threads[i := s.threads[i].(control := Slow(r, Snapped(v)))]
    ensures Total(s'.threads) == Total(s.threads)
  {
    StepTotals(s, i, s.threads[i], s'.threads[i], s', Total(s.threads), Total(s'.threads));
  }

  lemma LoadInv(s: State, i: nat, r: Request, s': State)
    requires Inv(s) && s.mutex == Some(i) && i < |s.threads| && s.threads[i].control == Slow(r, Locked)
    requires s' == s.(threads := s.threads[i := s.threads[i].(control := Slow(r, Snapped(s.word)))])
    ensures Inv(s')
  {
    var c, h' := Total(s.threads), Loaded(r, s.word, Spread(s.word));
    assert Sane(s.threads[i]);
    LoadTotals(s, i, r, s.word, s');
    assert Balanced(s.word, c, h') by {
      assert HolderOf(s) == Before(r);
      LoadBalanced(s.word, c, r);
      SpreadOfWord(s.word, c);
    }
    InvFrom(s', c, h');
  }

  lemma ResumeInv(s: State, i: nat, t: Thread, t': Thread, s': State)
    requires Inv(s) && i < |s.threads| && t == s.threads[i] && Granted(t)
    requires t' == Served(t, t.control.request) && s' == s.(threads := s.threads[i := t'])
    ensures Inv(s')
  {
    var c, c', h := Total(s.threads), Total(s'.threads), HolderOf(s);
    assert Sane(t);
    TotalIncludes(s.threads, i);
    assert Sane(t');
    assert c' == c by { StepTotals(s, i, t, t', s', c, c'); }
    OneThreadStep(s, i, t, t', s', c', h);
  }

  /** The holder settling its own request. */
  lemma SettleTotals(c: Tally, t: Thread, t': Thread, c': Tally, r: Request, v: nat, jam: bool)
    requires Shifted(c, t, t', c') && t.control == Slow(r, Snapped(v)) && Sane(t)
    requires t' == if jam then Jam(t, r) else Served(t, r)
    requires r == Wake ==> !jam
    requires Count(PR, t) <= c.rd.pend && Count(PW, t) <= c.wr.pend
    ensures c' == OwnSettled(c, r, jam)
  {}

  /** The threads after the holder has released whom it releases. */
  function ReleasedThreads(ts: seq<Thread>, r: Request, v: nat): seq<Thread> {
    if r == Write then ts
    else if v < WRITE_MULTIPLIER then (if v > (if r == Read then 1 else 0) then ReleaseReaders(ts) else ts)
    else if Unaccounted(ts, v) == (if r == Read then 1 else 0) then ReleaseWriter(ts)
    else ts
  }

  lemma ReleaseTotals(ts: seq<Thread>, i: nat, r: Request, v: nat, c: Tally, out: seq<Thread>)
    requires i < |ts| && AllSane(ts) && ts[i].control == Slow(r, Snapped(v))
    requires c == Total(ts) && SnapshotHolds(c, r, v, Spread(v))
    requires out == ReleasedThreads(ts, r, v)
    ensures |out| == |ts| && AllSane(out) && out[i] == ts[i]
    ensures Total(out) == Released(c, r, v, Spread(v))
    ensures forall k :: 0 <= k < |ts| ==> out[k].control == ts[k].control
  {
    JammedIsTotal(ts);
    assert Sane(ts[i]);
    if r != Write && v < WRITE_MULTIPLIER {
      if v > (if r == Read then 1 else 0) { ReleaseReadersTotal(ts); }
    } else if r != Write && Unaccounted(ts, v) == (if r == Wake then 0 else 1) {
      var j := ReleaseWriterTotal(ts);
    }
  }

  lemma DecideTotals(ts: seq<Thread>, i: nat, r: Request, v: nat, c: Tally, out: seq<Thread>)
    requires i < |ts| && AllSane(ts) && ts[i].control == Slow(r, Snapped(v))
    requires c == Total(ts) && SnapshotHolds(c, r, v, Spread(v))
    requires out == DecideThreads(ts, i, r, v)
    ensures |out| == |ts| && AllSane(out) && !InMutex(out[i])
    ensures Total(out) == Settled(c, r, v, Spread(v))
    ensures forall k :: 0 <= k < |ts| && k != i ==> out[k].control == ts[k].control
  {
    var ts1 := ReleasedThreads(ts, r, v);
    var jam := (r == Read && v >= WRITE_MULTIPLIER) || (r == Write && Unaccounted(ts, v) > 1);
    ReleaseTotals(ts, i, r, v, c, ts1);
    assert Sane(ts[i]);
    var t' := if jam then Jam(ts[i], r) else Served(ts[i], r);
    assert out == ts1[i := t'];
    assert Sane(t') by { SumIncludes(WA, ts, i); }
    var c1, c' := Total(ts1), Total(out);
    assert c' == OwnSettled(c1, r, jam) by {
      TotalUpdate(ts1, i, t');
      TotalIncludes(ts1, i);
      SettleTotals(c1, ts[i], t', c', r, v, jam);
    }
    assert r == Write ==> jam == (Spread(v) > c.Jammed() + 1) by { JammedIsTotal(ts); }
  }

  lemma DecideInv(s: State, a: Action, s': State)
    requires Inv(s) && Enabled(s, a) && s' == Next(s, a) && a.Decide?
    ensures Inv(s')
  {
    var i, c, c' := a.tid, Total(s.threads), Total(s'.threads);
    var r, v := s.threads[i].control.request, s.threads[i].control.phase.snap;
    assert HolderOf(s) == Loaded(r, v, Spread(v));
    DecideTotals(s.threads, i, r, v, c, s'.threads);
    assert Balanced(s'.word, c', Nobody) by {
      match r {
        case Read => DecideReadBalanced(s.word, c, v, Spread(v));
        case Write => DecideWriteBalanced(s.word, c, v, Spread(v));
        case Wake => DecideWakeBalanced(s.word, c, v, Spread(v));
      }
    }
    InvFrom(s', c', Nobody);
  }

  lemma StepInv(s: State, a: Action, s': State)
    requires Inv(s) && Enabled(s, a) && s' == Next(s, a)
    ensures Inv(s')
  {
    var i := a.tid;
    var t, t' := s.threads[i], s'.threads[i];
    match a {
      case LockRead(_) => ReadRequestInv(s, i, t, t', s');
      case TryLockRead(_) => ReadRequestInv(s, i, t, t', s');
      case LockWrite(_) => WriteRequestInv(s, i, t, t', s');
      case TryLockWrite(_) => if s' != s { WriteRequestInv(s, i, t, t', s'); }
      case TryPromote(_) => if s' != s { WriteRequestInv(s, i, t, t', s'); }
      case UndoTryRead(_) => GiveUpInv(s, i, t, t', s');
      case UnlockRead(_) => GiveUpInv(s, i, t, t', s');
      case UnlockWrite(_) =>
        assert Sane(t);
        GiveUpInv(s, i, t, t', s');
      case TakeMutex(_) => MutexInv(s, i, t.control.request, t, t', s');
      case LoadWord(_) => LoadInv(s, i, t.control.request, s');
      case Decide(_) => DecideInv(s, a, s');
      case Resume(_) => ResumeInv(s, i, t, t', s');
    }
  }

  /** The invariant holds along every run. */
  lemma {:induction false} RunInv(s: State, run: seq<Action>, s': State)
    requires Inv(s) && Valid(s, run) && s' == After(s, run)
    ensures Inv(s')
    decreases |run|
  {
    if run != [] {
      var s1 := Next(s, run[0]);
      StepInv(s, run[0], s1);
      RunInv(s1, run[1..], s');
    }
  }
}
