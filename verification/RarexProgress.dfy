/** Progress of the rarex protocol: without new requests every run ends with the
    lock free, unless a thread asked for read access it already owned while a
    writer was counted; such a thread waits for ever. */
module RarexProgress {
  import opened RarexModel
  import opened RarexInvariant
  import opened RarexTheorems

  predicate Owns(t: Thread) {
    t.readHolds > 0 || t.writing
  }

  // ------------------------------------------------------------------ draining

  /** Steps that finish what was asked for or give up what is owned. */
  predicate Completing(a: Action) {
    a.UndoTryRead? || a.UnlockRead? || a.UnlockWrite? || a.TakeMutex? || a.LoadWord? || a.Decide? || a.Resume?
  }

  /** Nobody waits for read access while owning an access. */
  ghost predicate Unnested(s: State) {
    forall i :: 0 <= i < |s.threads| && s.threads[i].control.Slow? && s.threads[i].control.request == Read ==>
      !Owns(s.threads[i])
  }

  predicate Done(t: Thread) {
    t.control == Idle && !Owns(t)
  }

  ghost predicate Free(s: State) {
    s.word == 0 && s.mutex == None && forall i :: 0 <= i < |s.threads| ==> Done(s.threads[i])
  }

  /** An upper bound on the completing steps a thread has ahead of it. */
  function Ahead(t: Thread): nat {
    4 * t.readHolds + (if t.writing then 4 else 0) +
    match t.control
    case Idle => 0
    case TryFailed => 4
    case Slow(r, p) =>
      (if r == Wake then 0 else 5) +
      match p
      case Entering => 3
      case Locked => 2
      case Snapped(_) => 1
      case Asleep => 0
  }

  function AheadAll(ts: seq<Thread>): nat {
    if ts == [] then 0 else Ahead(ts[0]) + AheadAll(ts[1..])
  }

  lemma {:induction false} AheadUpdate(ts: seq<Thread>, i: nat, t: Thread)
    requires i < |ts|
    ensures AheadAll(ts[i := t]) + Ahead(ts[i]) == AheadAll(ts) + Ahead(t)
  {
    if i == 0 {
      assert ts[i := t][1..] == ts[1..];
    } else {
      assert ts[i := t][1..] == ts[1..][i - 1 := t];
      AheadUpdate(ts[1..], i - 1, t);
    }
  }

  lemma {:induction false} AheadIgnoresFlags(ts: seq<Thread>, us: seq<Thread>)
    requires |ts| == |us|
    requires forall k :: 0 <= k < |ts| ==> us[k] == ts[k].(jammed := us[k].jammed)
    ensures AheadAll(us) == AheadAll(ts)
  {
    if ts != [] { AheadIgnoresFlags(ts[1..], us[1..]); }
  }

  lemma ReleasedFlags(ts: seq<Thread>, i: nat, r: Request, v: nat, c: Tally, us: seq<Thread>)
    requires i < |ts| && AllSane(ts) && ts[i].control == Slow(r, Snapped(v))
    requires c == Total(ts) && SnapshotHolds(c, r, v, Spread(v))
    requires us == ReleasedThreads(ts, r, v)
    ensures |us| == |ts| && us[i] == ts[i]
    ensures forall k :: 0 <= k < |ts| ==> us[k] == ts[k].(jammed := us[k].jammed)
  {
    ReleaseTotals(ts, i, r, v, c, us);
    JammedIsTotal(ts);
    if r != Write && v >= WRITE_MULTIPLIER && Unaccounted(ts, v) == (if r == Wake then 0 else 1) {
      var j := ReleaseWriterTotal(ts);
    }
  }

  /** A decision touches its own thread and jam flags only. */
  lemma DecideShape(s: State, i: nat, s': State)
    requires Inv(s) && Enabled(s, Decide(i)) && s' == Next(s, Decide(i))
    ensures |s'.threads| == |s.threads|
    ensures forall k :: 0 <= k < |s.threads| && k != i ==>
              s'.threads[k] == s.threads[k].(jammed := s'.threads[k].jammed)
    ensures AheadAll(s'.threads) + Ahead(s.threads[i]) == AheadAll(s.threads) + Ahead(s'.threads[i])
    ensures var t := s.threads[i];
            s'.threads[i] == Served(t, t.control.request) || s'.threads[i] == Jam(t, t.control.request)
    ensures s.threads[i].control.request == Wake ==> s'.threads[i].control == Idle
  {
    var ts := s.threads;
    var r, v := ts[i].control.request, ts[i].control.phase.snap;
    var us := ReleasedThreads(ts, r, v);
    assert HolderOf(s) == Loaded(r, v, Spread(v));
    ReleasedFlags(ts, i, r, v, Total(ts), us);
    AheadIgnoresFlags(ts, us);
    AheadUpdate(us, i, s'.threads[i]);
    assert s'.threads == us[i := s'.threads[i]];
  }

  /** Every completing step shortens what is ahead. */
  lemma CompletingStep(s: State, a: Action, s': State)
    requires Inv(s) && Unnested(s) && Enabled(s, a) && Completing(a) && s' == Next(s, a)
    ensures AheadAll(s'.threads) < AheadAll(s.threads)
    ensures Unnested(s')
  {
    var i := a.tid;
    if a.Decide? {
      DecideShape(s, i, s');
    } else {
      AheadUpdate(s.threads, i, s'.threads[i]);
      assert s'.threads == s.threads[i := s'.threads[i]];
    }
  }

  /** Some completing step can be taken unless the lock is free. */
  lemma CompletingEnabled(s: State) returns (a: Action)
    requires Inv(s) && Unnested(s) && !Free(s)
    ensures Completing(a) && Enabled(s, a)
  {
    if s.mutex.Some? {
      var i := s.mutex.value;
      a := if s.threads[i].control.phase == Locked then LoadWord(i) else Decide(i);
    } else {
      var i := AwakeThread(s);
      var t := s.threads[i];
      a := if t.control == TryFailed then UndoTryRead(i)
           else if t.control.Slow? && t.control.phase == Entering then TakeMutex(i)
           else if t.control.Slow? then Resume(i)
           else if t.readHolds > 0 then UnlockRead(i)
           else UnlockWrite(i);
    }
  }

  lemma {:induction false} AllDoneTotal(k: Class, ts: seq<Thread>)
    requires forall i :: 0 <= i < |ts| ==> Done(ts[i])
    ensures Sum(k, ts) == 0
  {
    if ts != [] { AllDoneTotal(k, ts[1..]); }
  }

  /** With the mutex free, somebody has something to do and is not asleep. */
  lemma AwakeThread(s: State) returns (i: nat)
    requires Inv(s) && Unnested(s) && !Free(s) && s.mutex == None
    ensures i < |s.threads| && !s.threads[i].jammed && !Done(s.threads[i])
  {
    var ts := s.threads;
    var j: nat;
    if k :| 0 <= k < |ts| && !Done(ts[k]) {
      j := k;
    } else {
      AllDoneTotal(RA, ts); AllDoneTotal(PR, ts); AllDoneTotal(JR, ts);
      AllDoneTotal(WA, ts); AllDoneTotal(PW, ts); AllDoneTotal(JW, ts);
      assert false;
    }
    if !ts[j].jammed {
      i := j;
    } else {
      InvWakeup(s, j);
      if k :| 0 <= k < |ts| && WakeDue(ts, k) {
        i := k;
        assert Sane(ts[k]);
      } else {
        i :| 0 <= i < |ts| && CountedAwake(ts[i]);
        assert Sane(ts[i]);
      }
    }
  }

  /** From an unnested state, completing steps end after a bounded number and they
      end with the lock free: there is no deadlock and no thread is forgotten. */
  lemma {:induction false} Drains(s: State, tail: seq<Action>, s': State)
    requires Inv(s) && Unnested(s)
    requires Valid(s, tail) && s' == After(s, tail) && forall k :: 0 <= k < |tail| ==> Completing(tail[k])
    ensures |tail| <= AheadAll(s.threads)
    ensures Free(s') || exists a :: Completing(a) && Enabled(s', a)
    decreases |tail|
  {
    if tail == [] {
      if !Free(s') {
        var a := CompletingEnabled(s');
      }
    } else {
      var s1 := Next(s, tail[0]);
      StepInv(s, tail[0], s1);
      CompletingStep(s, tail[0], s1);
      Drains(s1, tail[1..], s');
    }
  }

  lemma DeadlockFree(n: nat, run: seq<Action>, s: State, tail: seq<Action>, s': State)
    requires n < WRITE_MULTIPLIER && Valid(Init(n), run) && s == After(Init(n), run) && Unnested(s)
    requires Valid(s, tail) && s' == After(s, tail) && forall k :: 0 <= k < |tail| ==> Completing(tail[k])
    ensures |tail| <= AheadAll(s.threads)
    ensures Free(s') || exists a :: Completing(a) && Enabled(s', a)
  {
    var s0 := Init(n);
    InitInv(n, s0);
    RunInv(s0, run, s);
    Drains(s, tail, s');
  }

  // -------------------------------------------------------------- nested reads

  /** Thread `k` owns an access, waits for another read, and writers are counted. */
  ghost predicate Stuck(s: State, k: nat) {
    && k < |s.threads|
    && var t := s.threads[k];
       && Owns(t)
       && s.word >= WRITE_MULTIPLIER
       && t.control.Slow? && t.control.request == Read
       && match t.control.phase
          case Snapped(v) => v >= WRITE_MULTIPLIER
          case Asleep => t.jammed && (HolderOf(s).Loaded? ==> HolderOf(s).v >= WRITE_MULTIPLIER)
          case _ => true
  }

  lemma OwnerCounted(s: State, k: nat)
    requires Inv(s) && k < |s.threads| && Owns(s.threads[k])
    ensures Total(s.threads).rd.own + Total(s.threads).wr.own > 0
  {
    SumIncludes(RA, s.threads, k);
    SumIncludes(WA, s.threads, k);
  }

  /** While thread `k` is stuck no step but a decision brings the word below the
      mark: no other thread owns write access, and promotion needs a word of 1. */
  lemma StuckWord(s: State, a: Action, s': State, k: nat)
    requires Inv(s) && Stuck(s, k) && Enabled(s, a) && s' == Next(s, a) && !a.Decide?
    ensures s'.word >= WRITE_MULTIPLIER && a.tid < |s.threads|
    ensures !(a.UnlockWrite? && a.tid != k)
  {
    OwnerCounted(s, k);
    if a.UnlockWrite? && a.tid != k {
      SumOfTwo(WA, s.threads, a.tid, k);
      SumIncludes(RA, s.threads, k);
    } else if a.UnlockRead? {
      SumIncludes(RA, s.threads, a.tid);
    } else if a.UndoTryRead? {
      SumIncludes(PR, s.threads, a.tid);
    }
  }

  /** Nothing any thread does frees a stuck one. */
  lemma StuckStep(s: State, a: Action, s': State, k: nat)
    requires Inv(s) && Stuck(s, k) && Enabled(s, a) && s' == Next(s, a)
    ensures Stuck(s', k)
  {
    if a.Decide? {
      StuckDecide(s, a.tid, s', k);
    } else {
      StuckWord(s, a, s', k);
    }
  }

  lemma StuckDecide(s: State, i: nat, s': State, k: nat)
    requires Inv(s) && Stuck(s, k) && Enabled(s, Decide(i)) && s' == Next(s, Decide(i))
    ensures Stuck(s', k)
  {
    OwnerCounted(s, k);
    var ts := s.threads;
    var r, v := ts[i].control.request, ts[i].control.phase.snap;
    assert HolderOf(s) == Loaded(r, v, Spread(v));
    JammedIsTotal(ts);
    assert Sane(ts[k]);
    DecideShape(s, i, s');
    if v >= WRITE_MULTIPLIER {
      // somebody owned an access when the word was loaded, so nobody is released
      assert ReleasedThreads(ts, r, v) == ts;
    }
  }

  lemma {:induction false} StuckForever(s: State, k: nat, run: seq<Action>, s': State)
    requires Inv(s) && Stuck(s, k) && Valid(s, run) && s' == After(s, run)
    ensures Stuck(s', k)
    decreases |run|
  {
    if run != [] {
      var s1 := Next(s, run[0]);
      StepInv(s, run[0], s1);
      StuckStep(s, run[0], s1, k);
      StuckForever(s1, k, run[1..], s');
    }
  }

  /** A thread that already owns an access gets another read hold at once if no
      writer is counted, and otherwise never comes back, whatever happens. */
  lemma NestedRead(n: nat, run: seq<Action>, s: State, k: nat, s1: State)
    requires n < WRITE_MULTIPLIER && Valid(Init(n), run) && s == After(Init(n), run)
    requires Enabled(s, LockRead(k)) && Owns(s.threads[k]) && s1 == Next(s, LockRead(k))
    ensures s.word < WRITE_MULTIPLIER ==> s1.threads[k] == s.threads[k].(readHolds := s.threads[k].readHolds + 1)
    ensures s.word >= WRITE_MULTIPLIER ==>
              forall rest :: Valid(s1, rest) ==>
                k < |After(s1, rest).threads| && After(s1, rest).threads[k].control != Idle
  {
    var s0 := Init(n);
    InitInv(n, s0);
    RunInv(s0, run, s);
    StepInv(s, LockRead(k), s1);
    if s.word >= WRITE_MULTIPLIER {
      forall rest | Valid(s1, rest)
        ensures k < |After(s1, rest).threads| && After(s1, rest).threads[k].control != Idle
      {
        StuckForever(s1, k, rest, After(s1, rest));
      }
    }
  }

  /** One more action at the end of a run. */
  lemma {:induction false} Extend(s: State, run: seq<Action>, a: Action)
    requires Valid(s, run) && Enabled(After(s, run), a)
    ensures Valid(s, run + [a]) && After(s, run + [a]) == Next(After(s, run), a)
    decreases |run|
  {
    if run == [] {
      assert run + [a] == [a];
    } else {
      assert (run + [a])[1..] == run[1..] + [a];
      Extend(Next(s, run[0]), run[1..], a);
    }
  }

  lemma TwoThreads(s: State)
    requires s == Init(2)
    ensures s == State(0, None, [FreshThread, FreshThread])
  {}

  lemma JammedPair(t: Thread, u: Thread)
    ensures JammedCount([t, u]) == Unit(t.jammed) + Unit(u.jammed)
  {
    assert [t, u][1..] == [u] && [u][1..] == [];
    assert JammedCount([u]) == Unit(u.jammed);
  }

  /** Thread 0 reads, and thread 1 jams behind it. */
  lemma WriterJams(reader: Thread, writer: Thread, s: State) returns (run: seq<Action>)
    requires reader == FreshThread.(readHolds := 1) && writer == FreshThread
    requires s == State(0x10001, None, [reader, Jam(writer, Write)])
    ensures Valid(Init(2), run) && s == After(Init(2), run)
  {
    var s1 := Init(2);
    TwoThreads(s1);
    run := [];
    run, s1 := Then(run, s1, LockRead(0), State(1, None, [reader, writer]));
    run, s1 := Then(run, s1, LockWrite(1), State(0x10001, None, [reader, writer.(control := Slow(Write, Entering))]));
    run, s1 := Then(run, s1, TakeMutex(1), State(0x10001, Some(1), [reader, writer.(control := Slow(Write, Locked))]));
    run, s1 := Then(run, s1, LoadWord(1),
      State(0x10001, Some(1), [reader, writer.(control := Slow(Write, Snapped(0x10001)))]));
    JammedPair(s1.threads[0], s1.threads[1]);
    run, s1 := Then(run, s1, Decide(1), s);
  }

  /** The reader comes to lock again and has loaded the word. */
  lemma ReaderReturns(reader: Thread, writer: Thread, s1: State) returns (run: seq<Action>, s: State)
    requires reader == FreshThread.(readHolds := 1) && writer == Jam(FreshThread, Write)
    requires s1 == State(0x10002, Some(0), [reader.(control := Slow(Read, Snapped(0x10002))), writer])
    ensures s == s1 && Valid(Init(2), run) && s == After(Init(2), run)
  {
    s := State(0x10001, None, [reader, writer]);
    run := WriterJams(reader, FreshThread, s);
    run, s := Then(run, s, LockRead(0), State(0x10002, None, [reader.(control := Slow(Read, Entering)), writer]));
    run, s := Then(run, s, TakeMutex(0), State(0x10002, Some(0), [reader.(control := Slow(Read, Locked)), writer]));
    run, s := Then(run, s, LoadWord(0), s1);
  }

  /** A recursive read can block its own thread and the writer behind it: a run of
      two threads to a state in which no thread can take any step. */
  lemma NestedReadDeadlock() returns (run: seq<Action>, s: State)
    ensures Valid(Init(2), run) && s == After(Init(2), run)
    ensures forall i :: 0 <= i < |s.threads| ==> s.threads[i].jammed
    ensures forall a :: !Enabled(s, a)
  {
    var reader, writer := FreshThread.(readHolds := 1), Jam(FreshThread, Write);
    s := State(0x10002, Some(0), [reader.(control := Slow(Read, Snapped(0x10002))), writer]);
    run, s := ReaderReturns(reader, writer, s);
    JammedPair(s.threads[0], s.threads[1]);
    run, s := Then(run, s, Decide(0), State(0x10002, None, [Jam(reader, Read), writer]));
  }

  lemma Then(run: seq<Action>, s: State, a: Action, s': State) returns (run': seq<Action>, s1: State)
    requires Valid(Init(2), run) && s == After(Init(2), run)
    requires Enabled(s, a) && s' == Next(s, a)
    ensures run' == run + [a] && s1 == s' && Valid(Init(2), run') && s1 == After(Init(2), run')
  {
    Extend(Init(2), run, a);
    run', s1 := run + [a], s';
  }
}
