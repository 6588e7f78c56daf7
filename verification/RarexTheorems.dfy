/** What the rarex protocol guarantees over whole runs. */
module RarexTheorems {
  import opened RarexModel
  import opened RarexInvariant

  // -------------------------------------------------------- mutual exclusion

  lemma SumOfTwo(k: Class, ts: seq<Thread>, i: nat, j: nat)
    requires i < |ts| && j < |ts| && i != j
    ensures Count(k, ts[i]) + Count(k, ts[j]) <= Sum(k, ts)
  {
    SumUpdate(k, ts, i, FreshThread);
    SumIncludes(k, ts[i := FreshThread], j);
  }

  lemma InvExclusive(s: State)
    requires Inv(s)
    ensures Exclusive(s)
  {
    forall i, j | 0 <= i < |s.threads| && 0 <= j < |s.threads| && i != j && HoldsWrite(s.threads[i])
      ensures !HoldsWrite(s.threads[j]) && !HoldsRead(s.threads[i]) && !HoldsRead(s.threads[j])
    {
      SumOfTwo(WA, s.threads, i, j);
      SumOfTwo(RA, s.threads, i, j);
      assert Sane(s.threads[i]);
    }
  }

  /** In every reachable state at most one thread has write access, and then none
      has read access. */
  lemma MutualExclusion(n: nat, run: seq<Action>)
    requires n < WRITE_MULTIPLIER && Valid(Init(n), run)
    ensures Exclusive(After(Init(n), run))
  {
    var s, s' := Init(n), After(Init(n), run);
    InitInv(n, s);
    RunInv(s, run, s');
    InvExclusive(s');
  }

  // ------------------------------------------------- the code's own assertions

  /** The three debug assertions of the slow path: jammed threads are counted, a
      writer to release is found, and releasing readers meets no jammed writer. */
  ghost predicate AssertionsHold(ts: seq<Thread>, r: Request, v: nat) {
    && Unaccounted(ts, v) >= 0
    && (r != Write && v >= WRITE_MULTIPLIER && Unaccounted(ts, v) == (if r == Read then 1 else 0) ==>
          exists k :: 0 <= k < |ts| && JammedWriter(ts[k]))
    && (r != Write && v < WRITE_MULTIPLIER && v > (if r == Read then 1 else 0) ==>
          forall k :: 0 <= k < |ts| ==> !JammedWriter(ts[k]))
  }

  lemma SlowPathAssertions(n: nat, run: seq<Action>, s: State, i: nat)
    requires n < WRITE_MULTIPLIER && Valid(Init(n), run) && s == After(Init(n), run)
    requires Enabled(s, Decide(i))
    ensures AssertionsHold(s.threads, s.threads[i].control.request, s.threads[i].control.phase.snap)
  {
    var s0 := Init(n);
    InitInv(n, s0);
    RunInv(s0, run, s);
    var ts, c := s.threads, Total(s.threads);
    var r, v := ts[i].control.request, ts[i].control.phase.snap;
    assert HolderOf(s) == Loaded(r, v, Spread(v));
    JammedIsTotal(ts);
    if r != Write && v >= WRITE_MULTIPLIER && Unaccounted(ts, v) == (if r == Read then 1 else 0) {
      var k := FirstJammedWriter(ts);
    }
    if v < WRITE_MULTIPLIER {
      forall k | 0 <= k < |ts| ensures !JammedWriter(ts[k]) {
        SumIncludes(JW, ts, k);
        assert Sane(ts[k]);
      }
    }
  }

  lemma {:induction false} WritersBounded(ts: seq<Thread>)
    requires AllSane(ts)
    ensures Sum(WA, ts) + Sum(PW, ts) + Sum(JW, ts) <= |ts|
  {
    if ts != [] {
      assert AllSane(ts[1..]);
      WritersBounded(ts[1..]);
      assert Sane(ts[0]);
    }
  }

  lemma WordHalves(w: nat, readers: nat, writers: nat)
    requires w == readers + 0x10000 * writers && readers < 0x10000
    ensures w % 0x10000 == readers && w / 0x10000 == writers
  {}

  /** The word fits the 32 bits a snapshot is kept in, and its halves never mix. */
  lemma WordFits(n: nat, run: seq<Action>, s: State)
    requires n < WRITE_MULTIPLIER && Valid(Init(n), run) && s == After(Init(n), run)
    ensures s.word < 0x1_0000_0000
    ensures s.word % 0x10000 == Total(s.threads).Readers()
    ensures s.word / 0x10000 == Total(s.threads).Writers()
  {
    var s0 := Init(n);
    InitInv(n, s0);
    RunInv(s0, run, s);
    WordHalves(s.word, Total(s.threads).Readers(), Total(s.threads).Writers());
    assert Total(s.threads).Writers() < WRITE_MULTIPLIER by { WritersBounded(s.threads); }
  }

  // ------------------------------------------------------- no lost wake-up

  /** The thread is on its way into a wake-up that will release somebody. */
  predicate WakeDue(ts: seq<Thread>, i: nat)
    requires i < |ts|
  {
    var t := ts[i].control;
    && t.Slow? && t.request == Wake
    && match t.phase
       case Snapped(v) => if v < WRITE_MULTIPLIER then v > 0 else Unaccounted(ts, v) == 0
       case _ => true
  }

  /** The thread is counted in the word by something other than a jammed request. */
  predicate CountedAwake(t: Thread) {
    t.readHolds > 0 || t.writing || t.control == TryFailed
    || (t.control.Slow? && t.control.request != Wake && !t.jammed)
  }

  lemma {:induction false} SumWitness(k: Class, ts: seq<Thread>) returns (i: nat)
    requires Sum(k, ts) > 0
    ensures i < |ts| && Count(k, ts[i]) > 0
  {
    if Count(k, ts[0]) > 0 {
      i := 0;
    } else {
      var j := SumWitness(k, ts[1..]);
      i := j + 1;
    }
  }

  lemma ActiveWitness(ts: seq<Thread>) returns (i: nat)
    requires AllSane(ts) && Total(ts).Active() > 0
    ensures i < |ts| && CountedAwake(ts[i])
  {
    if Sum(RA, ts) > 0 {
      i := SumWitness(RA, ts);
    } else if Sum(PR, ts) > 0 {
      i := SumWitness(PR, ts);
    } else if Sum(WA, ts) > 0 {
      i := SumWitness(WA, ts);
    } else {
      i := SumWitness(PW, ts);
    }
    assert Sane(ts[i]);
  }

  lemma InvWakeup(s: State, j: nat)
    requires Inv(s) && j < |s.threads| && s.threads[j].jammed
    ensures (exists i :: 0 <= i < |s.threads| && WakeDue(s.threads, i))
         || (s.word >= WRITE_MULTIPLIER && exists i :: 0 <= i < |s.threads| && CountedAwake(s.threads[i]))
  {
    var ts, c, h := s.threads, Total(s.threads), HolderOf(s);
    assert Sane(ts[j]);
    SumIncludes(JR, ts, j);
    SumIncludes(JW, ts, j);
    JammedIsTotal(ts);
    if c.wk > 0 {
      var i := SumWitness(WK, ts);
      assert WakeDue(ts, i);
    } else if WakePending(c, h) {
      assert WakeDue(ts, s.mutex.value);
    } else {
      var i := ActiveWitness(ts);
    }
  }

  /** Whenever a thread is jammed, a wake-up is due, or writers are counted and
      some counted request is not jammed. */
  lemma NoLostWakeup(n: nat, run: seq<Action>, s: State, j: nat)
    requires n < WRITE_MULTIPLIER && Valid(Init(n), run) && s == After(Init(n), run)
    requires j < |s.threads| && s.threads[j].jammed
    ensures (exists i :: 0 <= i < |s.threads| && WakeDue(s.threads, i))
         || (s.word >= WRITE_MULTIPLIER && exists i :: 0 <= i < |s.threads| && CountedAwake(s.threads[i]))
  {
    var s0 := Init(n);
    InitInv(n, s0);
    RunInv(s0, run, s);
    InvWakeup(s, j);
  }

  // ------------------------------------------ when a request is met at once

  /** The thread owns, awaits or has announced write access. */
  predicate AsksWrite(t: Thread) {
    t.writing || (t.control.Slow? && t.control.request == Write)
  }

  /** The read holds the thread owns, and the one it awaits or has announced. */
  function ReadRequests(t: Thread): nat {
    t.readHolds + Unit(t.control == TryFailed || (t.control.Slow? && t.control.request == Read))
  }

  /** The thread owns, awaits and has announced nothing. */
  predicate Quiet(t: Thread) {
    !AsksWrite(t) && ReadRequests(t) == 0
  }

  ghost predicate NoWriteAsked(ts: seq<Thread>) {
    forall j :: 0 <= j < |ts| ==> !AsksWrite(ts[j])
  }

  ghost predicate NoReadAsked(ts: seq<Thread>) {
    forall j :: 0 <= j < |ts| ==> ReadRequests(ts[j]) == 0
  }

  ghost predicate AllQuiet(ts: seq<Thread>) {
    forall j :: 0 <= j < |ts| ==> Quiet(ts[j])
  }

  /** Thread `i` asks for one read access, and nobody else for anything. */
  ghost predicate OneReadAsked(ts: seq<Thread>, i: nat)
    requires i < |ts|
  {
    && !AsksWrite(ts[i]) && ReadRequests(ts[i]) == 1
    && forall j :: 0 <= j < |ts| && j != i ==> Quiet(ts[j])
  }

  /** Thread `i` is the only one to ask for write access, and no other thread
      asks for anything. */
  ghost predicate OneWriteAsked(ts: seq<Thread>, i: nat)
    requires i < |ts|
  {
    && AsksWrite(ts[i]) && ReadRequests(ts[i]) == 0
    && forall j :: 0 <= j < |ts| && j != i ==> Quiet(ts[j])
  }

  predicate SameAccess(t: Thread, t': Thread) {
    && t'.readHolds == t.readHolds && t'.writing == t.writing
    && HoldsRead(t') == HoldsRead(t) && HoldsWrite(t') == HoldsWrite(t)
  }

  /** Every thread but `i` has the access it had. */
  ghost predicate OthersKeepAccess(s: State, i: nat, s': State) {
    && |s'.threads| == |s.threads|
    && forall j :: 0 <= j < |s.threads| && j != i ==> SameAccess(s.threads[j], s'.threads[j])
  }

  lemma CountsAsked(t: Thread)
    requires Sane(t)
    ensures Count(RA, t) + Count(PR, t) + Count(JR, t) == ReadRequests(t)
    ensures Count(WA, t) + Count(PW, t) + Count(JW, t) == Unit(AsksWrite(t))
  {}

  lemma {:induction false} WritersAsked(ts: seq<Thread>)
    requires AllSane(ts)
    ensures Total(ts).Writers() == 0 <==> NoWriteAsked(ts)
  {
    if ts != [] {
      assert AllSane(ts[1..]);
      CountsAsked(ts[0]);
      WritersAsked(ts[1..]);
      assert NoWriteAsked(ts) <==> !AsksWrite(ts[0]) && NoWriteAsked(ts[1..]) by {
        assert forall j :: 0 < j < |ts| ==> ts[j] == ts[1..][j - 1];
      }
    }
  }

  lemma {:induction false} ReadersAsked(ts: seq<Thread>)
    requires AllSane(ts)
    ensures Total(ts).Readers() == 0 <==> NoReadAsked(ts)
  {
    if ts != [] {
      assert AllSane(ts[1..]);
      CountsAsked(ts[0]);
      ReadersAsked(ts[1..]);
      assert NoReadAsked(ts) <==> ReadRequests(ts[0]) == 0 && NoReadAsked(ts[1..]) by {
        assert forall j :: 0 < j < |ts| ==> ts[j] == ts[1..][j - 1];
      }
    }
  }

  lemma RequestsAsked(ts: seq<Thread>)
    requires AllSane(ts)
    ensures Total(ts).Readers() == Total(ts).Writers() == 0 <==> AllQuiet(ts)
  {
    hide Total, AllSane, AsksWrite, ReadRequests;
    ReadersAsked(ts);
    WritersAsked(ts);
  }

  /** What the threads other than `i` ask for is the totals less its share. */
  lemma OthersAsked(ts: seq<Thread>, i: nat, c: Tally)
    requires AllSane(ts) && i < |ts| && c == Total(ts)
    ensures c.Readers() >= ReadRequests(ts[i]) && c.Writers() >= Unit(AsksWrite(ts[i]))
    ensures c.Readers() == ReadRequests(ts[i]) && c.Writers() == Unit(AsksWrite(ts[i])) <==>
            forall j :: 0 <= j < |ts| && j != i ==> Quiet(ts[j])
  {
    var rest := ts[i := FreshThread];
    assert AllSane(rest);
    CountsAsked(ts[i]);
    CountsAsked(FreshThread);
    TotalUpdate(ts, i, FreshThread);
    RequestsAsked(rest);
    assert AllQuiet(rest) <==> forall j :: 0 <= j < |ts| && j != i ==> Quiet(ts[j]) by {
      assert Quiet(FreshThread);
      assert forall j :: 0 <= j < |ts| && j != i ==> rest[j] == ts[j];
    }
  }

  lemma ReachableInv(n: nat, run: seq<Action>, s: State)
    requires n < WRITE_MULTIPLIER && Valid(Init(n), run) && s == After(Init(n), run)
    ensures Inv(s)
  {
    var s0 := Init(n);
    InitInv(n, s0);
    RunInv(s0, run, s);
  }

  /** `trylock_write` and a `lock_write` that does not have to wait give write
      access if and only if no thread owns, awaits or has announced anything.
      Otherwise nobody's access changes. */
  lemma WriteAtOnce(n: nat, run: seq<Action>, s: State, a: Action, s': State)
    requires n < WRITE_MULTIPLIER && Valid(Init(n), run) && s == After(Init(n), run)
    requires (a.TryLockWrite? || a.LockWrite?) && Enabled(s, a) && s' == Next(s, a)
    ensures OthersKeepAccess(s, a.tid, s')
    ensures !s.threads[a.tid].writing && s'.threads[a.tid].writing <==> AllQuiet(s.threads)
    ensures AllQuiet(s.threads) ==> s'.threads[a.tid] == s.threads[a.tid].(writing := true)
    ensures !AllQuiet(s.threads) ==> SameAccess(s.threads[a.tid], s'.threads[a.tid])
    ensures a.TryLockWrite? && !AllQuiet(s.threads) ==> s' == s
    ensures a.LockWrite? && !AllQuiet(s.threads) ==> s'.threads[a.tid].control == Slow(Write, Entering)
  {
    ReachableInv(n, run, s);
    RequestsAsked(s.threads);
  }

  /** `try_promote` gives write access if and only if the caller's one read hold
      is the only request, and takes that hold.  Otherwise nobody's access
      changes. */
  lemma PromoteAtOnce(n: nat, run: seq<Action>, s: State, i: nat, s': State)
    requires n < WRITE_MULTIPLIER && Valid(Init(n), run) && s == After(Init(n), run)
    requires Enabled(s, TryPromote(i)) && s' == Next(s, TryPromote(i))
    ensures OthersKeepAccess(s, i, s')
    ensures !s.threads[i].writing && s'.threads[i].writing <==> OneReadAsked(s.threads, i)
    ensures OneReadAsked(s.threads, i) ==> s'.threads[i].readHolds == 0 && s'.threads[i].control == Idle
    ensures !OneReadAsked(s.threads, i) ==> s' == s
  {
    ReachableInv(n, run, s);
    OthersAsked(s.threads, i, Total(s.threads));
  }

  /** `trylock_read` and a `lock_read` that does not have to wait give a read
      hold if and only if no write request is outstanding.  Otherwise nobody's
      access changes, and the attempt has still to be taken back. */
  lemma ReadAtOnce(n: nat, run: seq<Action>, s: State, a: Action, s': State)
    requires n < WRITE_MULTIPLIER && Valid(Init(n), run) && s == After(Init(n), run)
    requires (a.TryLockRead? || a.LockRead?) && Enabled(s, a) && s' == Next(s, a)
    ensures OthersKeepAccess(s, a.tid, s')
    ensures var t, t' := s.threads[a.tid], s'.threads[a.tid];
            && (t'.readHolds == t.readHolds + 1 <==> NoWriteAsked(s.threads))
            && (NoWriteAsked(s.threads) ==> t' == t.(readHolds := t.readHolds + 1))
            && (!NoWriteAsked(s.threads) ==> SameAccess(t, t'))
            && (!NoWriteAsked(s.threads) ==>
                  t'.control == if a.TryLockRead? then TryFailed else Slow(Read, Entering))
  {
    ReachableInv(n, run, s);
    WritersAsked(s.threads);
  }

  /** Giving up a read goes on to wake somebody up if and only if a write request
      is outstanding; giving up a write, if and only if any other request is. */
  lemma WakesUp(n: nat, run: seq<Action>, s: State, a: Action, s': State)
    requires n < WRITE_MULTIPLIER && Valid(Init(n), run) && s == After(Init(n), run)
    requires (a.UndoTryRead? || a.UnlockRead? || a.UnlockWrite?) && Enabled(s, a) && s' == Next(s, a)
    ensures OthersKeepAccess(s, a.tid, s')
    ensures s'.threads[a.tid].control in {Idle, Slow(Wake, Entering)}
    ensures s'.threads[a.tid].control == Slow(Wake, Entering) <==>
            if a.UnlockWrite? then !OneWriteAsked(s.threads, a.tid) else !NoWriteAsked(s.threads)
    ensures s'.threads[a.tid].readHolds == s.threads[a.tid].readHolds - Unit(a.UnlockRead?)
    ensures s'.threads[a.tid].writing == (s.threads[a.tid].writing && !a.UnlockWrite?)
  {
    ReachableInv(n, run, s);
    hide Valid, After;
    assert Sane(s.threads[a.tid]);
    OthersAsked(s.threads, a.tid, Total(s.threads));
    WritersAsked(s.threads);
  }
}
