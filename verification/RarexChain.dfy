/** The slow-path decisions on the linked chain of thread records.

    Each method below runs between the load of the word and the release of the
    global mutex, and is proved to change the jam flags exactly as the transition
    system's decision does. */
module RarexChain {
  import RarexInvariant
  import opened RarexModel

  class Rarex {
    var word: nat
    constructor () { word := 0; }
  }

  /** The part of a thread's state that other threads look at. */
  class Tstate {
    var next: Tstate?
    var jammedOnRarex: Rarex?
    var jammedOnWrite: bool
    constructor (next: Tstate?) { this.next, jammedOnRarex, jammedOnWrite := next, null, false; }
  }

  /** `nodes` lists the records reached from `head` over `next`. */
  ghost predicate Chain(head: Tstate?, nodes: seq<Tstate>)
    reads nodes`next
  {
    && head == (if nodes == [] then null else nodes[0])
    && (forall i :: 0 <= i < |nodes| ==> nodes[i].next == if i + 1 < |nodes| then nodes[i + 1] else null)
    && (forall i, j :: 0 <= i < j < |nodes| ==> nodes[i] != nodes[j])
  }

  /** The records show the flags of `ts`, as seen by one lock. */
  ghost predicate Mirrors(rarex: Rarex, nodes: seq<Tstate>, ts: seq<Thread>)
    reads nodes
  {
    |nodes| == |ts| &&
    forall i :: 0 <= i < |ts| ==>
      ts[i].jammed == (nodes[i].jammedOnRarex == rarex) &&
      (ts[i].jammed ==> ts[i].jammedOnWrite == nodes[i].jammedOnWrite)
  }

  /** Requests jammed on other locks are left alone, but for the calling thread's own. */
  twostate predicate OthersKept(rarex: Rarex, nodes: seq<Tstate>, self: Tstate?)
    reads nodes
  {
    forall t :: t in nodes && t != self && old(t.jammedOnRarex) != rarex ==>
      t.jammedOnRarex == old(t.jammedOnRarex) && t.jammedOnWrite == old(t.jammedOnWrite)
  }

  lemma {:induction false} JammedPrefix(ts: seq<Thread>, i: nat)
    requires i < |ts|
    ensures JammedCount(ts[..i + 1]) == JammedCount(ts[..i]) + (if ts[i].jammed then 1 else 0)
  {
    if i == 0 {
      assert ts[..1][1..] == [];
    } else {
      assert ts[..i + 1][1..] == ts[1..][..i] && ts[..i][1..] == ts[1..][..i - 1];
      JammedPrefix(ts[1..], i - 1);
    }
  }

  method UnaccountedCount(head: Tstate?, ghost nodes: seq<Tstate>, rarex: Rarex, snap: nat, ghost ts: seq<Thread>)
    returns (count: int)
    requires Chain(head, nodes) && Mirrors(rarex, nodes, ts)
    ensures count == Unaccounted(ts, snap)
  {
    var jammedCnt := 0;
    var totalCnt := snap / 0x10000 + snap % 0x10000;
    var tstate := head;
    ghost var i := 0;
    while tstate != null
      invariant 0 <= i <= |nodes|
      invariant tstate == if i < |nodes| then nodes[i] else null
      invariant jammedCnt == JammedCount(ts[..i])
      decreases |nodes| - i
    {
      if tstate.jammedOnRarex == rarex {
        jammedCnt := jammedCnt + 1;
      }
      JammedPrefix(ts, i);
      assert nodes[i].next == if i + 1 < |nodes| then nodes[i + 1] else null;
      tstate := tstate.next;
      i := i + 1;
    }
    assert ts[..i] == ts;
    count := totalCnt - jammedCnt;
  }

  method ReleaseAWriter(head: Tstate?, ghost nodes: seq<Tstate>, rarex: Rarex, ghost ts: seq<Thread>)
    requires Chain(head, nodes) && Mirrors(rarex, nodes, ts)
    requires exists k :: 0 <= k < |ts| && JammedWriter(ts[k])
    modifies nodes`jammedOnRarex, nodes`jammedOnWrite
    ensures Chain(head, nodes) && Mirrors(rarex, nodes, ReleaseWriter(ts))
    ensures OthersKept(rarex, nodes, null)
  {
    var tstate := head;
    ghost var i := 0;
    ghost var w :| 0 <= w < |ts| && JammedWriter(ts[w]);
    while !(tstate.jammedOnRarex == rarex && tstate.jammedOnWrite)
      invariant 0 <= i < |nodes| && tstate == nodes[i] && i <= w
      invariant forall k :: 0 <= k < i ==> !JammedWriter(ts[k])
      decreases |nodes| - i
    {
      assert i != w;
      tstate := tstate.next;
      i := i + 1;
    }
    RarexInvariant.ReleaseWriterIsFirst(ts, i);
    tstate.jammedOnRarex := null;
  }

  /** Clears the flag of one record if its thread is jammed on this lock. */
  method ReleaseReader(tstate: Tstate, ghost head: Tstate?, ghost nodes: seq<Tstate>, rarex: Rarex, ghost i: nat)
    requires Chain(head, nodes) && i < |nodes| && tstate == nodes[i]
    requires tstate.jammedOnRarex == rarex ==> !tstate.jammedOnWrite
    modifies tstate`jammedOnRarex
    ensures Chain(head, nodes) && tstate.next == if i + 1 < |nodes| then nodes[i + 1] else null
    ensures tstate.jammedOnRarex == if old(tstate.jammedOnRarex) == rarex then null else old(tstate.jammedOnRarex)
    ensures forall k :: 0 <= k < |nodes| && k != i ==> nodes[k].jammedOnRarex == old(nodes[k].jammedOnRarex)
  {
    if tstate.jammedOnRarex == rarex {
      tstate.jammedOnRarex := null;
    }
  }

  method ReleaseAllReaders(head: Tstate?, ghost nodes: seq<Tstate>, rarex: Rarex, ghost ts: seq<Thread>)
    requires Chain(head, nodes) && Mirrors(rarex, nodes, ts)
    requires forall k :: 0 <= k < |ts| ==> !JammedWriter(ts[k])
    modifies nodes`jammedOnRarex, nodes`jammedOnWrite
    ensures Chain(head, nodes) && Mirrors(rarex, nodes, ReleaseReaders(ts))
    ensures OthersKept(rarex, nodes, null)
  {
    var tstate := head;
    ghost var i := 0;
    while tstate != null
      invariant 0 <= i <= |nodes|
      invariant tstate == if i < |nodes| then nodes[i] else null
      invariant Chain(head, nodes)
      invariant forall k :: i <= k < |nodes| ==>
        nodes[k].jammedOnRarex == old(nodes[k].jammedOnRarex) && nodes[k].jammedOnWrite == old(nodes[k].jammedOnWrite)
      invariant forall k :: 0 <= k < i ==> nodes[k].jammedOnRarex != rarex
      invariant OthersKept(rarex, nodes, null)
      decreases |nodes| - i
    {
      assert tstate.jammedOnRarex == rarex ==> !tstate.jammedOnWrite by { assert !JammedWriter(ts[i]); }
      ReleaseReader(tstate, head, nodes, rarex, i);
      tstate := tstate.next;
      i := i + 1;
    }
  }

  /** `cuP_rarex_lock_read` from the loaded word on; returns whether it sleeps. */
  method DecideLockRead(head: Tstate?, self: Tstate, ghost nodes: seq<Tstate>, rarex: Rarex, snap: nat,
      ghost ts: seq<Thread>, ghost i: nat)
      returns (sleeps: bool)
    requires Chain(head, nodes) && Mirrors(rarex, nodes, ts)
    requires i < |ts| && nodes[i] == self && !ts[i].jammed
    requires snap < WRITE_MULTIPLIER && snap > 1 ==> forall k :: 0 <= k < |ts| ==> !JammedWriter(ts[k])
    requires snap >= WRITE_MULTIPLIER && Unaccounted(ts, snap) == 1 ==> exists k :: 0 <= k < |ts| && JammedWriter(ts[k])
    modifies nodes`jammedOnRarex, nodes`jammedOnWrite
    ensures Chain(head, nodes) && Mirrors(rarex, nodes, DecideThreads(ts, i, Read, snap))
    ensures sleeps <==> DecideThreads(ts, i, Read, snap)[i].jammed
    ensures OthersKept(rarex, nodes, self)
  {
    if snap < WRITE_MULTIPLIER {
      if snap > 1 {
        ReleaseAllReaders(head, nodes, rarex, ts);
      }
      sleeps := false;
    } else {
      var count := UnaccountedCount(head, nodes, rarex, snap, ts);
      ghost var ts1 := ts;
      if count == 1 {
        ReleaseAWriter(head, nodes, rarex, ts);
        ts1 := ReleaseWriter(ts);
      }
      JamSelf(head, self, nodes, rarex, ts1, i, Read);
      sleeps := true;
    }
  }

  /** `cuP_rarex_lock_write` from the loaded word on. */
  method DecideLockWrite(head: Tstate?, self: Tstate, ghost nodes: seq<Tstate>, rarex: Rarex, snap: nat,
      ghost ts: seq<Thread>, ghost i: nat)
      returns (sleeps: bool)
    requires Chain(head, nodes) && Mirrors(rarex, nodes, ts)
    requires i < |ts| && nodes[i] == self && !ts[i].jammed
    modifies nodes`jammedOnRarex, nodes`jammedOnWrite
    ensures Chain(head, nodes) && Mirrors(rarex, nodes, DecideThreads(ts, i, Write, snap))
    ensures sleeps <==> DecideThreads(ts, i, Write, snap)[i].jammed
    ensures OthersKept(rarex, nodes, self)
  {
    var count := UnaccountedCount(head, nodes, rarex, snap, ts);
    if count > 1 {
      JamSelf(head, self, nodes, rarex, ts, i, Write);
    }
    sleeps := count > 1;
  }

  /** `cuP_rarex_wake_up` from the loaded word on. */
  method DecideWakeUp(head: Tstate?, ghost nodes: seq<Tstate>, rarex: Rarex, snap: nat, ghost ts: seq<Thread>,
      ghost i: nat)
    requires Chain(head, nodes) && Mirrors(rarex, nodes, ts) && i < |ts|
    requires 0 < snap < WRITE_MULTIPLIER ==> forall k :: 0 <= k < |ts| ==> !JammedWriter(ts[k])
    requires snap >= WRITE_MULTIPLIER && Unaccounted(ts, snap) == 0 ==> exists k :: 0 <= k < |ts| && JammedWriter(ts[k])
    modifies nodes`jammedOnRarex, nodes`jammedOnWrite
    ensures Chain(head, nodes) && Mirrors(rarex, nodes, DecideThreads(ts, i, Wake, snap))
    ensures OthersKept(rarex, nodes, null)
  {
    if snap < WRITE_MULTIPLIER {
      if snap > 0 {
        ReleaseAllReaders(head, nodes, rarex, ts);
      }
    } else {
      var count := UnaccountedCount(head, nodes, rarex, snap, ts);
      if count == 0 {
        ReleaseAWriter(head, nodes, rarex, ts);
      }
    }
  }

  method JamSelf(head: Tstate?, self: Tstate, ghost nodes: seq<Tstate>, rarex: Rarex, ghost ts: seq<Thread>,
      ghost i: nat, r: Request)
    requires Chain(head, nodes) && Mirrors(rarex, nodes, ts) && i < |ts| && nodes[i] == self
    modifies self`jammedOnRarex, self`jammedOnWrite
    ensures Chain(head, nodes) && Mirrors(rarex, nodes, ts[i := Jam(ts[i], r)])
  {
    forall k | 0 <= k < |nodes| && k != i ensures nodes[k] != self {
      assert nodes[if k < i then k else i] != nodes[if k < i then i else k];
    }
    hide Chain;
    self.jammedOnRarex := rarex;
    self.jammedOnWrite := r == Write;
  }
}
