/** A clog-free sink stacked on one that may accept any part of what it is given. */
module DsinkBuffer {
  import opened Buffer

  const WRITE_THRESHOLD: nat := 512

  datatype Written = Failure | Bytes(size: nat)
  datatype Status = StSuccess | StFailure

  /** A sink that accepts any amount of what it is given, or fails. It records what it was
      offered, what it took and how often it failed. */
  class Subsink {
    ghost var offered: seq<seq<byte>>
    ghost var delivered: seq<byte>
    ghost var failures: nat
    var discarded: bool

    constructor ()
      ensures offered == [] && delivered == [] && failures == 0 && !discarded
    {
      offered, delivered, failures, discarded := [], [], 0, false;
    }

    method Write(data: seq<byte>) returns (r: Written)
      modifies this
      ensures offered == old(offered) + [data]
      ensures r.Bytes? ==> r.size <= |data| && delivered == old(delivered) + data[..r.size]
      ensures r.Failure? ==> delivered == old(delivered)
      ensures failures == old(failures) + if r.Failure? then 1 else 0
      ensures discarded == old(discarded)
    {
      var broken: bool, size: nat :| size <= |data|;
      offered := offered + [data];
      if broken {
        failures := failures + 1;
        return Failure;
      }
      delivered := delivered + data[..size];
      return Bytes(size);
    }

    method Discard()
      modifies `discarded
      ensures discarded
    {
      discarded := true;
    }
  }

  class Bufsink {
    var subsink: Subsink?
    const buf: Buffer

    ghost predicate Valid()
      reads this, buf
    {
      buf.Valid() && buf.storage.Length >= 2 * WRITE_THRESHOLD && (subsink != null ==> Unclogged())
    }

    /** Between two writes there is room, or realigning will make some. */
    ghost predicate Unclogged()
      requires buf.Valid()
      reads this, buf
    {
      buf.contentEnd - buf.contentStart < WRITE_THRESHOLD || 2 * (buf.contentEnd - buf.contentStart) <= buf.Fullcap()
    }

    /** All that has been written, whether delivered or still buffered. */
    ghost function Accepted(sub: Subsink): seq<byte>
      requires buf.Valid()
      reads this, buf, buf.storage, sub
    {
      sub.delivered + buf.Content()
    }

    constructor (subsink: Subsink)
      ensures Valid() && this.subsink == subsink && fresh(buf) && fresh(buf.storage) && buf.Content() == []
    {
      this.subsink := subsink;
      buf := new Buffer(WRITE_THRESHOLD * 2);
    }

    /** Offers all that is buffered to the subsink and makes sure that what remains takes
        no more than half of the capacity. It fails if and only if the subsink does. */
    method Flush() returns (st: Status)
      requires buf.Valid() && buf.storage.Length >= 2 * WRITE_THRESHOLD && subsink != null
      modifies `subsink, subsink, buf, buf.storage
      ensures Valid() && (buf.storage == old(buf.storage) || fresh(buf.storage))
      ensures old(subsink).delivered + buf.Content() == old(subsink.delivered + buf.Content())
      ensures st.StSuccess? ==> 2 * |buf.Content()| <= buf.Fullcap()
      ensures st.StSuccess? ==> subsink == old(subsink) && subsink.discarded == old(subsink.discarded)
      ensures st.StFailure? ==> subsink == null && old(subsink).discarded
      ensures old(subsink).offered == old(subsink.offered) + [old(buf.Content())]
      ensures old(subsink).failures == old(subsink.failures) + if st.StFailure? then 1 else 0
    {
      var wr := subsink.Write(buf.storage[buf.contentStart..buf.contentEnd]);
      if wr.Failure? {
        subsink.Discard();
        subsink := null;
        return StFailure;
      }
      HandedOver(old(subsink.delivered), old(buf.Content()), wr.size);
      buf.IncrContentStart(wr.size);
      if buf.ContentSize() * 2 > buf.Fullcap() {
        buf.ExtendFullcap(buf.ContentSize() * 2);
      }
      return StSuccess;
    }

    /** Copies part of the data behind the content and takes it in. */
    method Fill(data: seq<byte>, from: nat, size: nat)
      requires buf.Valid() && size <= buf.Freecap() && from + size <= |data|
      modifies buf, buf.storage
      ensures buf.Valid() && buf.storage == old(buf.storage)
      ensures buf.Content() == old(buf.Content()) + data[from..from + size]
      ensures buf.contentStart == old(buf.contentStart) && buf.contentEnd == old(buf.contentEnd) + size
    {
      ghost var c, e := buf.Content(), buf.contentEnd;
      forall i | 0 <= i < size { buf.storage[buf.contentEnd + i] := data[from + i]; }
      assert buf.storage[buf.contentStart..e] == c && buf.storage[e..e + size] == data[from..from + size];
      ghost var st := buf.storage[..];
      buf.IncrContentEnd(size);
      assert buf.storage[..] == st;
      assert buf.Content() == st[buf.contentStart..e + size] == st[buf.contentStart..e] + st[e..e + size];
    }

    /** Writes into the buffer as much as it has room for, which is something. */
    method Take(data: seq<byte>, size: nat, ghost before: seq<byte>) returns (sizeLeft: nat)
      requires Valid() && subsink != null && buf.storage as object != subsink
      requires 0 < size <= |data| && Accepted(subsink) == before + data[..|data| - size]
      modifies buf, buf.storage
      ensures buf.Valid() && buf.storage.Length >= 2 * WRITE_THRESHOLD && sizeLeft < size
      ensures buf.storage == old(buf.storage) || fresh(buf.storage)
      ensures subsink.delivered + buf.Content() == before + data[..|data| - sizeLeft]
      ensures |buf.Content()| < WRITE_THRESHOLD ==> sizeLeft == 0
    {
      buf.MaybeRealign();
      var tmp := if size < buf.Freecap() then size else buf.Freecap();
      ghost var c := buf.Content();
      Fill(data, |data| - size, tmp);
      TakenIn(before, subsink.delivered, c, data, |data| - size, tmp);
      sizeLeft := size - tmp;
    }

    /** Takes in what there is room for and flushes if that is enough; else nothing is left
        to write. */
    method WriteRound(data: seq<byte>, size: nat, ghost before: seq<byte>) returns (sizeLeft: nat, st: Status)
      requires Valid() && subsink != null && buf.storage as object != subsink
      requires 0 < size <= |data| && Accepted(subsink) == before + data[..|data| - size]
      modifies `subsink, subsink, buf, buf.storage
      ensures Valid() && (buf.storage == old(buf.storage) || fresh(buf.storage)) && sizeLeft < size
      ensures st.StSuccess? ==> subsink == old(subsink) && subsink.discarded == old(subsink.discarded)
                                && Accepted(subsink) == before + data[..|data| - sizeLeft]
      ensures st.StFailure? ==> subsink == null && old(subsink).discarded && old(subsink).delivered <= before + data
      ensures old(subsink).failures == old(subsink.failures) + if st.StFailure? then 1 else 0
      ensures var left := Undelivered(before + data[..|data| - sizeLeft], old(subsink.delivered));
              && old(subsink).offered == old(subsink.offered) + (if |left| >= WRITE_THRESHOLD then [left] else [])
              && (|left| < WRITE_THRESHOLD ==> sizeLeft == 0 && old(subsink).delivered == old(subsink.delivered))
    {
      ghost var sub := subsink;
      sizeLeft := Take(data, size, before);
      LeftOver(sub.delivered, buf.Content(), before + data[..|data| - sizeLeft]);
      st := StSuccess;
      if buf.ContentSize() >= WRITE_THRESHOLD {
        st := Flush();
        if st.StFailure? {
          Delivered(before, sub.delivered, buf.Content(), data, |data| - sizeLeft);
        }
      } else {
        assert sizeLeft == 0;
      }
    }

    /** Accepts all of the data, unless the subsink is missing or fails. The subsink is
        offered something if and only if the data reach the threshold. */
    method Write(data: seq<byte>) returns (r: Written)
      requires Valid() && buf.storage as object != subsink
      modifies `subsink, subsink, buf, buf.storage
      ensures Valid() && (buf.storage == old(buf.storage) || fresh(buf.storage))
      ensures r.Failure? <==> old(subsink) == null || old(subsink).failures > old(subsink.failures)
      ensures old(subsink) != null ==> old(subsink).failures == old(subsink.failures) + if r.Failure? then 1 else 0
      ensures old(subsink) != null ==>
                && old(subsink.offered) <= old(subsink).offered
                && (old(subsink).offered == old(subsink.offered) <==>
                    data == [] || |old(buf.Content())| + |data| < WRITE_THRESHOLD)
      ensures r.Bytes? ==> r.size == |data| && subsink == old(subsink) && subsink.discarded == old(subsink.discarded)
                           && Accepted(subsink) == old(Accepted(subsink)) + data
      ensures r.Failure? ==> subsink == null
      ensures r.Failure? && old(subsink) != null ==>
                old(subsink).discarded && old(subsink).delivered <= old(Accepted(subsink)) + data
    {
      if subsink == null {
        return Failure;
      }
      ghost var sub, before := subsink, Accepted(subsink);
      var sizeLeft := |data|;
      while sizeLeft > 0
        invariant 0 <= sizeLeft <= |data| && subsink == sub && Valid() && subsink.discarded == old(subsink.discarded)
        invariant Accepted(subsink) == before + data[..|data| - sizeLeft]
        invariant buf.storage == old(buf.storage) || fresh(buf.storage)
        invariant sub.failures == old(subsink.failures) && old(subsink.offered) <= sub.offered
        invariant sub.offered == old(subsink.offered) ==> sub.delivered == old(subsink.delivered)
        invariant sub.offered == old(subsink.offered) <==>
                  sizeLeft == |data| || |old(buf.Content())| + |data| < WRITE_THRESHOLD
        decreases sizeLeft
      {
        var st;
        sizeLeft, st := WriteRound(data, sizeLeft, before);
        if st.StFailure? {
          return Failure;
        }
      }
      assert data[..|data|] == data;
      return Bytes(|data|);
    }
  }

  /** What has been accepted and not delivered. */
  function Undelivered(accepted: seq<byte>, delivered: seq<byte>): seq<byte> {
    if |delivered| <= |accepted| then accepted[|delivered|..] else []
  }

  lemma LeftOver(delivered: seq<byte>, c: seq<byte>, accepted: seq<byte>)
    requires delivered + c == accepted
    ensures Undelivered(accepted, delivered) == c
  {}

  lemma HandedOver(delivered: seq<byte>, c: seq<byte>, n: nat)
    requires n <= |c|
    ensures delivered + c[..n] + c[n..] == delivered + c
  {}

  lemma TakenIn(before: seq<byte>, delivered: seq<byte>, c: seq<byte>, data: seq<byte>, k: nat, n: nat)
    requires k + n <= |data| && delivered + c == before + data[..k]
    ensures delivered + (c + data[k..k + n]) == before + data[..k + n]
  {
    assert data[..k] + data[k..k + n] == data[..k + n];
    assert delivered + (c + data[k..k + n]) == delivered + c + data[k..k + n];
    assert before + (data[..k] + data[k..k + n]) == before + data[..k] + data[k..k + n];
  }

  lemma Delivered(before: seq<byte>, delivered: seq<byte>, c: seq<byte>, data: seq<byte>, k: nat)
    requires k <= |data| && delivered + c == before + data[..k]
    ensures delivered <= before + data
  {
    assert before + data == delivered + c + data[k..];
  }
}
