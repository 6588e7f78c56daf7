/** A buffer that extends itself, with content that moves within its storage. */
module Buffer {
  type byte = bv8

  class Buffer {
    var storage: array<byte>
    var contentStart: nat
    var contentEnd: nat
    /** What the buffer was created with, and how many bytes have been consumed and moved. */
    ghost const initCap: nat
    ghost var consumed: nat
    ghost var moved: nat

    /** The pointers are in order, and bytes moved have been paid for: together with the
        displacement they are no more than the bytes consumed and the growth. */
    ghost predicate Valid()
      reads this
    {
      && contentStart <= contentEnd <= storage.Length && initCap <= storage.Length
      && moved + contentStart <= consumed + (storage.Length - initCap)
    }

    ghost function Content(): seq<byte>
      reads this, storage
      requires Valid()
    {
      storage[contentStart..contentEnd]
    }

    constructor (initCap: nat)
      ensures Valid() && Content() == [] && storage.Length == initCap == this.initCap && fresh(storage)
      ensures consumed == 0 && moved == 0
    {
      storage := new byte[initCap];
      contentStart, contentEnd := 0, 0;
      this.initCap, consumed, moved := initCap, 0, 0;
    }

    function ContentSize(): (n: nat)
      reads this, storage
      requires Valid()
      ensures n == |Content()|
    {
      contentEnd - contentStart
    }

    function Fullcap(): nat
      reads this
      requires Valid()
    {
      storage.Length - contentStart
    }

    function Freecap(): nat
      reads this
      requires Valid()
    {
      storage.Length - contentEnd
    }

    /** The content goes to the start of the storage. */
    method Realign()
      requires Valid() && contentEnd - contentStart <= contentStart
      modifies `contentStart, `contentEnd, `moved, storage
      ensures Valid() && Content() == old(Content()) && contentStart == 0 && moved == old(moved) + |Content()|
    {
      var n := contentEnd - contentStart;
      forall i | 0 <= i < n { storage[i] := storage[contentStart + i]; }
      contentStart, contentEnd := 0, n;
      moved := moved + n;
    }

    /** Makes room for `fullcap` bytes from the start of the content: within the
        storage if it is at least twice as large, else in a storage that is. */
    method FixFullcap(fullcap: nat)
      requires Valid() && contentStart + fullcap > storage.Length
      modifies this, storage
      ensures Valid() && Content() == old(Content()) && Fullcap() >= fullcap && contentStart == 0
      ensures consumed == old(consumed) && storage.Length >= old(storage.Length)
      ensures storage == old(storage) || (fresh(storage) && storage.Length >= 2 * old(storage.Length))
      ensures storage == old(storage) <==> old(storage.Length) >= 2 * fullcap
      ensures moved == old(moved) + |Content()|
      ensures |Content()| <= old(contentStart) + (storage.Length - old(storage.Length))
    {
      var contentSize := contentEnd - contentStart;
      if storage.Length >= 2 * fullcap {
        Realign();
      } else {
        var cap := if fullcap < storage.Length * 2 then storage.Length * 2 else fullcap;
        var p := new byte[cap];
        forall i | 0 <= i < contentSize { p[i] := storage[contentStart + i]; }
        assert p[..contentSize] == Content();
        storage := p;
        contentStart, contentEnd := 0, contentSize;
        moved := moved + contentSize;
      }
    }

    method ExtendFullcap(fullcap: nat)
      requires Valid()
      modifies this, storage
      ensures Valid() && Content() == old(Content()) && Fullcap() >= fullcap
      ensures consumed == old(consumed) && storage.Length >= old(storage.Length)
      ensures storage == old(storage) || fresh(storage)
    {
      if contentStart + fullcap > storage.Length {
        FixFullcap(fullcap);
      }
    }

    method ExtendFreecap(freecap: nat)
      requires Valid()
      modifies this, storage
      ensures Valid() && Content() == old(Content()) && Freecap() >= freecap
      ensures consumed == old(consumed) && (storage == old(storage) || fresh(storage))
    {
      if contentEnd + freecap > storage.Length {
        FixFullcap(contentEnd - contentStart + freecap);
      }
    }

    /** Moves the end of the content by `incr` bytes that the caller has written or will
        write; returns where they start. */
    method Produce(incr: nat) returns (oldEnd: nat)
      requires Valid()
      modifies this, storage
      ensures Valid() && contentStart <= oldEnd && contentEnd == oldEnd + incr
      ensures storage[contentStart..oldEnd] == old(Content())
      ensures consumed == old(consumed) && (storage == old(storage) || fresh(storage))
    {
      oldEnd := contentEnd;
      var newEnd := oldEnd + incr;
      if newEnd > storage.Length {
        FixFullcap(newEnd - contentStart);
        oldEnd := contentEnd;
        newEnd := oldEnd + incr;
      }
      contentEnd := newEnd;
    }

    /** Bytes already written behind the content become part of it if there was room. */
    method IncrContentEnd(incr: nat)
      requires Valid()
      modifies this, storage
      ensures Valid() && |Content()| == old(|Content()|) + incr && Content()[..old(|Content()|)] == old(Content())
      ensures old(Freecap()) >= incr ==>
                && storage == old(storage) && storage[..] == old(storage[..]) && contentStart == old(contentStart)
                && contentEnd == old(contentEnd) + incr
      ensures consumed == old(consumed) && (storage == old(storage) || fresh(storage))
    {
      var newEnd := contentEnd + incr;
      if newEnd > storage.Length {
        FixFullcap(newEnd - contentStart);
        newEnd := contentEnd + incr;
      }
      contentEnd := newEnd;
    }

    /** Keeps what fits of the content and adds unspecified bytes up to `size`. */
    method ResizeContent(size: nat)
      requires Valid()
      modifies this, storage
      ensures Valid() && |Content()| == size
      ensures forall i :: 0 <= i < size && i < old(|Content()|) ==> Content()[i] == old(Content())[i]
      ensures consumed == old(consumed) && (storage == old(storage) || fresh(storage))
    {
      ghost var before := Content();
      var newEnd := contentStart + size;
      if newEnd > storage.Length {
        FixFullcap(size);
        newEnd := contentStart + size;
        assert Content() == before;
      }
      assert forall i :: 0 <= i < |before| ==> storage[contentStart + i] == before[i];
      contentEnd := newEnd;
    }

    /** Appends bytes. */
    method Write(data: seq<byte>)
      requires Valid()
      modifies this, storage
      ensures Valid() && Content() == old(Content()) + data
      ensures consumed == old(consumed) && (storage == old(storage) || fresh(storage))
    {
      var p := Produce(|data|);
      ghost var before := storage[contentStart..p];
      forall i | 0 <= i < |data| { storage[p + i] := data[i]; }
      assert storage[contentStart..p] == before && storage[p..contentEnd] == data;
      assert storage[contentStart..contentEnd] == storage[contentStart..p] + storage[p..contentEnd];
    }

    /** Consumes bytes from the front. */
    method IncrContentStart(incr: nat)
      requires Valid() && incr <= ContentSize()
      modifies `contentStart, `consumed
      ensures Valid() && Content() == old(Content())[incr..] && consumed == old(consumed) + incr
    {
      contentStart := contentStart + incr;
      consumed := consumed + incr;
    }

    method Clear()
      requires Valid()
      modifies `contentStart, `contentEnd
      ensures Valid() && Content() == [] && contentStart == 0
    {
      contentStart, contentEnd := 0, 0;
    }

    /** Realigns if the displacement is larger than the content. */
    method MaybeRealign()
      requires Valid()
      modifies `contentStart, `contentEnd, `moved, storage
      ensures Valid() && Content() == old(Content()) && contentStart <= |Content()|
      ensures contentStart == if old(contentStart) > |Content()| then 0 else old(contentStart)
      ensures moved == old(moved) + if contentStart == old(contentStart) then 0 else |Content()|
    {
      if contentStart > contentEnd - contentStart {
        Realign();
      }
    }
  }
}
