/** The rarex read-write lock as a transition system.

    One word per lock counts outstanding read requests plus 0x10000 times the
    outstanding write requests.  Fast paths are one atomic operation on the
    word.  Slow paths hold the global mutex, load the word, and only then decide
    from the jam flags of all threads: the load and the decision are separate
    steps, and fast paths of other threads may change the word in between.  */
module RarexModel {

  const WRITE_MULTIPLIER: nat := 0x10000

  datatype Option<+T> = None | Some(value: T)

  /** What a thread in a slow path asked for. */
  datatype Request = Read | Write | Wake

  /** Where a thread is inside `cuP_rarex_lock_read`, `cuP_rarex_lock_write` or
      `cuP_rarex_wake_up`: before taking the mutex, holding it, holding it with
      a loaded word, or in the condition-variable loop. */
  datatype Phase = Entering | Locked | Snapped(snap: nat) | Asleep

  /** `TryFailed` is a failed `cu_rarex_trylock_read` that has still to undo
      its increment. */
  datatype Control = Idle | TryFailed | Slow(request: Request, phase: Phase)

  /** A thread: where it is, the read holds it owns, whether it owns the write
      hold, and the two flags of its entry in the thread chain. */
  datatype Thread = Thread(control: Control, readHolds: nat, writing: bool, jammed: bool, jammedOnWrite: bool)

  datatype State = State(word: nat, mutex: Option<nat>, threads: seq<Thread>)

  datatype Action =
    | LockRead(tid: nat)
    | TryLockRead(tid: nat)
    | UndoTryRead(tid: nat)
    | UnlockRead(tid: nat)
    | LockWrite(tid: nat)
    | TryLockWrite(tid: nat)
    | UnlockWrite(tid: nat)
    | TryPromote(tid: nat)
    | TakeMutex(tid: nat)
    | LoadWord(tid: nat)
    | Decide(tid: nat)
    | Resume(tid: nat)

  const FreshThread := Thread(Idle, 0, false, false, false)

  function Init(n: nat): State {
    State(0, None, seq(n, _ => FreshThread))
  }

  // ---------------------------------------------------------------- jam flags

  function JammedCount(ts: seq<Thread>): nat {
    if ts == [] then 0 else (if ts[0].jammed then 1 else 0) + JammedCount(ts[1..])
  }

  /** The count `_unaccounted_count` returns for a snapshot of the word. */
  function Unaccounted(ts: seq<Thread>, snap: nat): int {
    snap / 0x10000 + snap % 0x10000 - JammedCount(ts)
  }

  function ReleaseReaders(ts: seq<Thread>): (r: seq<Thread>)
    ensures |r| == |ts|
    ensures forall k :: 0 <= k < |ts| ==> r[k] == ts[k].(jammed := false)
  {
    if ts == [] then [] else [ts[0].(jammed := false)] + ReleaseReaders(ts[1..])
  }

  predicate JammedWriter(t: Thread) {
    t.jammed && t.jammedOnWrite
  }

  /** Clears the flag of the first jammed writer of the chain. */
  function ReleaseWriter(ts: seq<Thread>): (r: seq<Thread>)
    ensures |r| == |ts|
  {
    if ts == [] then []
    else if JammedWriter(ts[0]) then [ts[0].(jammed := false)] + ts[1..]
    else [ts[0]] + ReleaseWriter(ts[1..])
  }

  // -------------------------------------------------------------- transitions

  predicate InMutex(t: Thread) {
    t.control.Slow? && (t.control.phase.Locked? || t.control.phase.Snapped?)
  }

  /** The flag was cleared but the thread has not run yet: it owns its access. */
  predicate Granted(t: Thread) {
    t.control.Slow? && t.control.phase == Asleep && !t.jammed
  }

  /** What a thread must be doing for an action of its own to be its next one.
      `lock_write` must not be called by an owner; the other entry points put no
      demand on what the caller already holds.  Fewer than 0x10000 read requests
      may be outstanding, or the word's halves would run into each other. */
  predicate Enabled(s: State, a: Action) {
    && a.tid < |s.threads|
    && var t := s.threads[a.tid];
       match a
       case LockRead(_) => t.control == Idle && s.word % 0x10000 + 1 < WRITE_MULTIPLIER
       case TryLockRead(_) => t.control == Idle && s.word % 0x10000 + 1 < WRITE_MULTIPLIER
       case UndoTryRead(_) => t.control == TryFailed
       case UnlockRead(_) => t.control == Idle && t.readHolds > 0
       case LockWrite(_) => t.control == Idle && t.readHolds == 0 && !t.writing
       case TryLockWrite(_) => t.control == Idle
       case UnlockWrite(_) => t.control == Idle && t.writing
       case TryPromote(_) => t.control == Idle && t.readHolds > 0
       case TakeMutex(_) => t.control.Slow? && t.control.phase == Entering && s.mutex == None
       case LoadWord(_) => t.control.Slow? && t.control.phase == Locked && s.mutex == Some(a.tid)
       case Decide(_) => t.control.Slow? && t.control.phase.Snapped? && s.mutex == Some(a.tid)
       case Resume(_) => Granted(t) && s.mutex == None
  }

  /** Control after giving up a request: a wake-up when others were counted. */
  function AfterRelease(oldWord: nat): Control {
    if oldWord > WRITE_MULTIPLIER then Slow(Wake, Entering) else Idle
  }

  /** The thread once its request has been met. */
  function Served(t: Thread, r: Request): Thread {
    match r
    case Read => t.(control := Idle, readHolds := t.readHolds + 1)
    case Write => t.(control := Idle, writing := true)
    case Wake => t.(control := Idle)
  }

  function Jam(t: Thread, r: Request): Thread {
    t.(control := Slow(r, Asleep), jammed := true, jammedOnWrite := r == Write)
  }

  function DecideThreads(ts: seq<Thread>, i: nat, r: Request, snap: nat): (out: seq<Thread>)
    requires i < |ts|
    ensures |out| == |ts|
  {
    match r
    case Read =>
      if snap < WRITE_MULTIPLIER then
        var ts1 := if snap > 1 then ReleaseReaders(ts) else ts;
        ts1[i := Served(ts1[i], Read)]
      else
        var ts1 := if Unaccounted(ts, snap) == 1 then ReleaseWriter(ts) else ts;
        ts1[i := Jam(ts1[i], Read)]
    case Write =>
      ts[i := if Unaccounted(ts, snap) > 1 then Jam(ts[i], Write) else Served(ts[i], Write)]
    case Wake =>
      var ts1 := if snap < WRITE_MULTIPLIER then (if snap > 0 then ReleaseReaders(ts) else ts)
                 else if Unaccounted(ts, snap) == 0 then ReleaseWriter(ts) else ts;
      ts1[i := Served(ts1[i], Wake)]
  }

  function Next(s: State, a: Action): State
    requires Enabled(s, a)
  {
    var i := a.tid;
    var t := s.threads[i];
    match a
    case LockRead(_) =>
      s.(word := s.word + 1,
         threads := s.threads[i := if s.word >= WRITE_MULTIPLIER then t.(control := Slow(Read, Entering))
                                   else t.(readHolds := t.readHolds + 1)])
    case TryLockRead(_) =>
      s.(word := s.word + 1,
         threads := s.threads[i := if s.word >= WRITE_MULTIPLIER then t.(control := TryFailed)
                                   else t.(readHolds := t.readHolds + 1)])
    case UndoTryRead(_) =>
      s.(word := if s.word > 0 then s.word - 1 else 0,
         threads := s.threads[i := t.(control := AfterRelease(s.word))])
    case UnlockRead(_) =>
      s.(word := if s.word > 0 then s.word - 1 else 0,
         threads := s.threads[i := t.(control := AfterRelease(s.word), readHolds := t.readHolds - 1)])
    case LockWrite(_) =>
      s.(word := s.word + WRITE_MULTIPLIER,
         threads := s.threads[i := if s.word > 0 then t.(control := Slow(Write, Entering)) else t.(writing := true)])
    case TryLockWrite(_) =>
      if s.word == 0 then s.(word := WRITE_MULTIPLIER, threads := s.threads[i := t.(writing := true)]) else s
    case UnlockWrite(_) =>
      s.(word := if s.word >= WRITE_MULTIPLIER then s.word - WRITE_MULTIPLIER else 0,
         threads := s.threads[i := t.(control := AfterRelease(s.word), writing := false)])
    case TryPromote(_) =>
      if s.word == 1 then
        s.(word := WRITE_MULTIPLIER, threads := s.threads[i := t.(readHolds := t.readHolds - 1, writing := true)])
      else s
    case TakeMutex(_) =>
      s.(mutex := Some(i), threads := s.threads[i := t.(control := t.control.(phase := Locked))])
    case LoadWord(_) =>
      s.(threads := s.threads[i := t.(control := t.control.(phase := Snapped(s.word)))])
    case Decide(_) =>
      s.(mutex := None, threads := DecideThreads(s.threads, i, t.control.request, t.control.phase.snap))
    case Resume(_) =>
      s.(threads := s.threads[i := Served(t, t.control.request)])
  }

  /** The actions of a run can be taken one after the other from `s`. */
  predicate Valid(s: State, run: seq<Action>)
    decreases |run|
  {
    run == [] || (Enabled(s, run[0]) && Valid(Next(s, run[0]), run[1..]))
  }

  function After(s: State, run: seq<Action>): State
    requires Valid(s, run)
    decreases |run|
  {
    if run == [] then s else After(Next(s, run[0]), run[1..])
  }

  // --------------------------------------------------------------- properties

  predicate HoldsRead(t: Thread) {
    t.readHolds > 0 || (Granted(t) && t.control.request == Read)
  }

  predicate HoldsWrite(t: Thread) {
    t.writing || (Granted(t) && t.control.request == Write)
  }

  /** At most one writer, and then no reader, counting accesses granted to
      threads that have not run since. */
  ghost predicate Exclusive(s: State) {
    forall i, j :: 0 <= i < |s.threads| && 0 <= j < |s.threads| && i != j && HoldsWrite(s.threads[i]) ==>
      !HoldsWrite(s.threads[j]) && !HoldsRead(s.threads[i]) && !HoldsRead(s.threads[j])
  }
}
