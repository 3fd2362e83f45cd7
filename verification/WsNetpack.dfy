/** Reassembly over many connections: the hash table of unfinished frames and the queue of packages. */
module WsNetpack {
  import Arith
  import opened Bytes
  import opened RingQueues
  import opened WsFrames
  import opened WsReassembly

  const QUEUESIZE: nat := 1024

  datatype Netpack = Netpack(id: int, data: seq<Byte>)

  datatype Option<T> = None | Some(value: T)

  /** What filter_data_ returns; Overrun is no result but a write behind the header array, where the model stops. */
  datatype Result = Nothing | Data(data: seq<Byte>) | More | Closed | Overrun

  lemma SlotIs(cap: nat, head: nat, k: nat)
    requires head < cap && k < cap
    ensures (head + k) % cap == Slot(cap, head, k)
  {
    Arith.DivUnique(head + k, cap, if head + k < cap then 0 else 1, Slot(cap, head, k));
  }

  class PackQueue {
    var head: nat
    var tail: nat
    var buffer: array<Netpack>

    ghost predicate Valid()
      reads this
    {
      0 < buffer.Length && head < buffer.Length && tail < buffer.Length
    }

    ghost function Contents(): seq<Netpack>
      requires Valid()
      reads this, buffer
    {
      Ring(buffer[..], head, tail)
    }

    /** get_queue */
    constructor ()
      ensures Valid() && Contents() == [] && fresh(buffer)
    {
      head, tail := 0, 0;
      buffer := new Netpack[QUEUESIZE];
    }

    /** push_data and expand_queue; here the element is in its slot before the ring turns out to be full. */
    method Push(value: Netpack)
      requires Valid()
      modifies this, buffer
      ensures Valid() && Contents() == old(Contents()) + [value]
      ensures buffer == old(buffer) || fresh(buffer)
    {
      ghost var s, end := Contents(), tail;
      buffer[tail] := value;
      tail := tail + 1;
      if tail >= buffer.Length {
        tail := tail - buffer.Length;
      }
      if head == tail {
        Expand(s + [value]);
      }
    }

    /** expand_queue, on a ring that is full. */
    method Expand(ghost s: seq<Netpack>)
      requires Valid() && head == tail && |s| == buffer.Length
      requires forall k :: 0 <= k < |s| ==> s[k] == buffer[Slot(buffer.Length, head, k)]
      modifies this
      ensures Valid() && fresh(buffer) && Contents() == s
    {
      var cap := buffer.Length;
      var bigger := new Netpack[cap + QUEUESIZE];
      for i := 0 to cap
        modifies bigger
        invariant forall k :: 0 <= k < i ==> bigger[k] == s[k]
      {
        SlotIs(cap, head, i);
        bigger[i] := buffer[(head + i) % cap];
      }
      head, tail, buffer := 0, cap, bigger;
    }

    /** lpop */
    method Pop() returns (r: Option<Netpack>)
      requires Valid()
      modifies this`head
      ensures Valid() && (r.None? <==> old(Contents()) == [])
      ensures r.None? ==> Contents() == []
      ensures r.Some? ==> old(Contents()) == [r.value] + Contents()
    {
      if head == tail {
        return None;
      }
      r := Some(buffer[head]);
      head := head + 1;
      if head >= buffer.Length {
        head := 0;
      }
    }
  }

  /** The packages of one connection. */
  ghost function From(fd: int, ps: seq<seq<Byte>>): (s: seq<Netpack>)
    ensures |s| == |ps| && forall k :: 0 <= k < |s| ==> s[k] == Netpack(fd, ps[k])
  {
    if ps == [] then [] else [Netpack(fd, ps[0])] + From(fd, ps[1..])
  }

  lemma FromMore(fd: int, p: seq<Byte>, ps: seq<seq<Byte>>)
    ensures From(fd, [p] + ps) == [Netpack(fd, p)] + From(fd, ps)
  {
  }

  lemma AlikeSelf(s: seq<Byte>)
    ensures Alike(s, s)
  {
  }

  class Hub {
    const queue: PackQueue
    const hash: array<seq<Uncomplete>>
    /** For each connection with a frame that is not all there, what came in of it. */
    ghost var pending: map<int, seq<Byte>>

    ghost predicate Valid()
      reads this, queue, hash
    {
      queue.Valid() && TableOk(hash[..], pending)
    }

    constructor ()
      ensures Valid() && pending == map[] && queue.Contents() == []
      ensures fresh(queue) && fresh(queue.buffer) && fresh(hash)
    {
      queue := new PackQueue();
      hash := new seq<Uncomplete>[HASHSIZE](_ => []);
      pending := map[];
    }

    /** find_uncomplete: takes the entry of a connection out of the table. */
    method FindUncomplete(fd: int) returns (u: Option<Uncomplete>)
      requires Valid()
      modifies this`pending, hash
      ensures Valid() && pending == old(pending) - {fd}
      ensures u.Some? <==> fd in old(pending)
      ensures u.Some? ==> u.value.id == fd && Represents(u.value, old(pending)[fd])
    {
      hide Represents, HashFd;
      var h := HashFd(fd);
      ghost var t := hash[..];
      var b := hash[h];
      for k := 0 to |b|
        invariant forall j :: 0 <= j < k ==> b[j].id != fd
      {
        if b[k].id == fd {
          TableWithout(t, pending, fd, k);
          assert EntryOk(b[k], h, pending);
          hash[h] := b[..k] + b[k + 1..];
          assert hash[..] == t[h := b[..k] + b[k + 1..]];
          pending := pending - {fd};
          return Some(b[k]);
        }
      }
      assert !Has(t[h], fd);
      u := None;
    }

    /** save_uncomplete, or the entry put back: it is the first of its bucket then. */
    method Save(u: Uncomplete, ghost raw: seq<Byte>)
      requires Valid() && u.id !in pending && Represents(u, raw)
      modifies this`pending, hash
      ensures Valid() && pending == old(pending)[u.id := raw]
    {
      hide Represents, HashFd;
      ghost var t := hash[..];
      var h := HashFd(u.id);
      TableWith(t, pending, u, raw);
      hash[h] := [u] + hash[h];
      assert hash[..] == t[h := [u] + t[h]];
      pending := pending[u.id := raw];
    }

    /** decode_wsmask_data: the bytes of a stretch of the buffer are unmasked in place. */
    static method DecodeMask(buffer: array<Byte>, off: nat, size: nat, mask: Mask, hasUnmask: nat)
      requires off + size <= buffer.Length
      modifies buffer
      ensures buffer[..off] == old(buffer[..off]) && buffer[off + size..] == old(buffer[off + size..])
      ensures buffer[off..off + size] == Masked(old(buffer[off..off + size]), mask, hasUnmask)
      ensures mask != [] ==> Xored(buffer[off..off + size], old(buffer[off..off + size]), mask, hasUnmask)
    {
      if mask == [] {
        return;
      }
      hide MaskByte, Xored;
      for i := 0 to size
        invariant buffer[..off] == old(buffer[..off]) && buffer[off + size..] == old(buffer[off + size..])
        invariant forall k :: off <= k < off + i ==> buffer[k] == MaskByte(old(buffer[k]), mask, k - off + hasUnmask)
        invariant forall k :: off + i <= k < off + size ==> buffer[k] == old(buffer[k])
      {
        buffer[off + i] := MaskByte(buffer[off + i], mask, i + hasUnmask);
      }
      ghost var t := Masked(old(buffer[off..off + size]), mask, hasUnmask);
      forall k | 0 <= k < size ensures buffer[off..off + size][k] == t[k] {
        assert buffer[off + k] == MaskByte(old(buffer[off + k]), mask, k + hasUnmask);
      }
      MaskedIsXored(old(buffer[off..off + size]), mask, hasUnmask);
    }

    /** Bytes of the buffer go into an entry, unmasked on the way. */
    static method Feed(u: Uncomplete, buffer: array<Byte>, off: nat, n: nat) returns (v: Uncomplete)
      requires off + n <= buffer.Length
      modifies buffer
      ensures v == Fed(u, old(buffer[off..off + n])) && buffer[off + n..] == old(buffer[off + n..])
    {
      DecodeMask(buffer, off, n, u.mask, u.hasUnmask);
      v := u.(read := u.read + n, data := u.data + buffer[off..off + n],
              hasUnmask := if u.mask == [] then u.hasUnmask else u.hasUnmask + n);
    }

    ghost predicate OthersKept(fd: int, was: map<int, seq<Byte>>)
      reads this`pending
    {
      forall g :: g != fd ==> (g in pending <==> g in was) && (g in was ==> pending[g] == was[g])
    }

    /** push_more: the rest of a chunk, for a connection with nothing pending. */
    method PushMore(fd: int, buffer: array<Byte>, off0: nat)
      requires Valid() && fd !in pending && off0 <= buffer.Length && Sane(buffer[off0..])
      modifies this`pending, hash, queue, queue.buffer, buffer
      ensures Valid() && queue.Contents() == old(queue.Contents()) + From(fd, Payloads(old(buffer[off0..])))
      ensures Pending(fd) == Rest(old(buffer[off0..])) && OthersKept(fd, old(pending))
      ensures queue.buffer == old(queue.buffer) || fresh(queue.buffer)
      decreases buffer.Length - off0
    {
      hide ReadSize, Payload, Payloads, Rest, Sane, TableOk, UnderWay, Represents, HashFd, End, From;
      hide PackQueue.Valid, PackQueue.Contents;
      var off := SkipJunk(buffer, off0);
      ghost var s := buffer[off..];
      var h := ReadSize(buffer[off..]);
      SaneHead(s);
      if h.Short? {
        NoFrame(s);
        SaveShort(fd, buffer, off);
        return;
      }
      BegunUnderWay(fd, s);
      assert buffer[off + h.length..] == s[h.length..];
      var v, whole;
      v, whole, off := FeedFrame(Begun(fd, h), buffer, off + h.length, s[..h.length]);
      if !whole {
        NoFrame(s);
        Save(v, s);
        return;
      }
      queue.Push(Netpack(fd, v.data));
      FirstFrame(s);
      FromMore(fd, Payload(s), Payloads(s[End(s)..]));
      if off < buffer.Length {
        PushMore(fd, buffer, off);
      } else {
        Empty();
        assert buffer[off..] == [];
      }
    }

    /** The loop over bytes to be thrown away. */
    static method SkipJunk(buffer: array<Byte>, off0: nat) returns (off: nat)
      requires off0 <= buffer.Length && Sane(buffer[off0..])
      ensures off0 <= off <= buffer.Length && !Junk(buffer[off..]) && Sane(buffer[off..])
      ensures Payloads(buffer[off..]) == Payloads(buffer[off0..]) && Rest(buffer[off..]) == Rest(buffer[off0..])
    {
      hide ReadSize, Payloads, Rest, Sane;
      off := off0;
      while Junk(buffer[off..])
        invariant off0 <= off <= buffer.Length && Sane(buffer[off..])
        invariant Payloads(buffer[off..]) == Payloads(buffer[off0..]) && Rest(buffer[off..]) == Rest(buffer[off0..])
        decreases buffer.Length - off
      {
        Skipped(buffer[off..]);
        assert buffer[off..][2..] == buffer[off + 2..];
        off := off + 2;
      }
    }

    /** A frame under way takes what it needs from the buffer, or all there is. */
    static method FeedFrame(u: Uncomplete, buffer: array<Byte>, off: nat, ghost raw: seq<Byte>)
      returns (v: Uncomplete, whole: bool, off': nat)
      requires off <= buffer.Length && UnderWay(u, raw)
      modifies buffer
      ensures v.id == u.id && whole == Whole(raw + old(buffer[off..])) && !Junk(raw + old(buffer[off..]))
      ensures whole ==> v.data == Payload(raw + old(buffer[off..])) && off' <= buffer.Length
      ensures whole ==> buffer[off'..] == (raw + old(buffer[off..]))[End(raw + old(buffer[off..]))..] == old(buffer[off'..])
      ensures whole ==> off' == off + (u.size - u.read)
      ensures !whole ==> Represents(v, raw + old(buffer[off..]))
    {
      hide ReadSize, Masked, UnderWay, Fed, Payload, Represents, Whole, Junk, End;
      ghost var t := buffer[off..];
      FrameGrows(u, raw, t);
      var need := u.size - u.read;
      whole := buffer.Length - off >= need;
      if whole {
        assert buffer[off..off + need] == t[..need] && buffer[off + need..] == t[need..];
        v := Feed(u, buffer, off, need);
        off' := off + need;
      } else {
        assert buffer[off..buffer.Length] == t;
        v := Feed(u, buffer, off, buffer.Length - off);
        off' := buffer.Length;
      }
    }

    method SaveShort(fd: int, buffer: array<Byte>, off: nat)
      requires Valid() && fd !in pending && off <= buffer.Length && ReadSize(buffer[off..]).Short?
      modifies this`pending, hash
      ensures Valid() && pending == old(pending)[fd := buffer[off..]]
    {
      ShortFits(buffer[off..]);
      hide TableOk, HashFd, ReadSize;
      Save(Uncomplete(fd, buffer[off..], -1, [], 0, 0, []), buffer[off..]);
    }

    /**
     The loop over a header that was not all there: byte by byte until it is, or the chunk is done.
     As a close frame does not stop the loop before the end of the chunk, the array may be too small for what is left.
     */
    static method ReadHeader(buffer: array<Byte>, store: array<Byte>, size0: nat) returns (size: nat, off: nat, inside: bool)
      requires store.Length == HEADERSIZE && size0 <= HEADERSIZE && store != buffer
      requires ReadSize(store[..size0]).Short? && Sane(store[..size0] + buffer[..])
      modifies store
      ensures size <= HEADERSIZE && inside == HeaderFits(old(store[..size0] + buffer[..]))
      ensures off <= buffer.Length && Alike(old(store[..size0] + buffer[..]), store[..size] + buffer[off..])
      ensures inside ==> Sane(store[..size] + buffer[off..]) && (buffer.Length > 0 ==> off > 0)
      ensures inside ==> if ReadSize(store[..size]).Frame? then ReadSize(store[..size]).length == size
                         else off == buffer.Length && (ReadSize(store[..size]).Short? || ReadSize(store[..size]).Close?)
    {
      hide ReadSize, Sane, Alike, HeaderFits;
      size, off := size0, 0;
      assert buffer[0..] == buffer[..];
      ghost var s := store[..size0] + buffer[..];
      assert Alike(s, s) by { AlikeSelf(s); }
      while off < buffer.Length
        invariant size <= HEADERSIZE && off <= buffer.Length
        invariant Alike(s, store[..size] + buffer[off..]) && Sane(store[..size] + buffer[off..])
        invariant ReadSize(store[..size]).Short? || ReadSize(store[..size]).Close?
      {
        if size == HEADERSIZE {
          HeaderFull(s, store[..size], buffer[off..]);
          return size, off, false;
        }
        assert buffer[off..] == [buffer[off]] + buffer[off + 1..];
        HeaderStep(s, store[..size], buffer[off], buffer[off + 1..]);
        ghost var header := store[..size];
        store[size] := buffer[off];
        size, off := size + 1, off + 1;
        assert store[..size] == header + [buffer[off - 1]];
        if ReadSize(store[..size]).Skip? {
          size := size - 2;
          assert store[..size] == [];
        }
        if ReadSize(store[..size]).Frame? {
          break;
        }
      }
      inside := true;
      HeaderDone(s, store[..size], buffer[off..]);
    }

    /** The branch of filter_data_ for a frame whose header is there. */
    method FilterBody(u: Uncomplete, buffer: array<Byte>, off: nat, ghost raw: seq<Byte>)
      returns (r: Result, ghost ps: seq<seq<Byte>>)
      requires Valid() && u.id !in pending && off <= buffer.Length && UnderWay(u, raw) && Sane(raw + buffer[off..])
      modifies this`pending, hash, queue, queue.buffer, buffer
      ensures Valid() && OthersKept(u.id, old(pending)) && Returned(u.id, r, ps, old(queue.Contents()))
      ensures !r.Closed? && !OpensWithClose(raw + old(buffer[off..]))
      ensures ps == Payloads(raw + old(buffer[off..])) && Pending(u.id) == Rest(raw + old(buffer[off..]))
      ensures r.Data? ==> Pending(u.id) == []
      ensures !Junk(raw + old(buffer[off..])) && (r.Data? <==> OneFrame(raw + old(buffer[off..])))
      ensures queue.buffer == old(queue.buffer) || fresh(queue.buffer)
    {
      hide ReadSize, Payload, Payloads, Rest, Sane, TableOk, UnderWay, Represents, HashFd, End, From, OpensWithClose;
      hide PackQueue.Valid, PackQueue.Contents;
      ghost var t := buffer[off..];
      ghost var s := raw + t;
      var v, whole, off' := FeedFrame(u, buffer, off, raw);
      if !whole {
        NoFrame(s);
        Save(v, s);
        return Nothing, [];
      }
      FirstFrame(s);
      ghost var left := buffer[off'..];
      if buffer.Length == off' {
        Empty();
        assert left == [];
        return Data(v.data), [v.data];
      }
      queue.Push(Netpack(u.id, v.data));
      FromMore(u.id, v.data, Payloads(left));
      PushMore(u.id, buffer, off');
      r, ps := More, [v.data] + Payloads(left);
    }

    /** How the packages of a chunk come back: none, one at once, or all of them through the queue. */
    ghost predicate Returned(fd: int, r: Result, ps: seq<seq<Byte>>, before: seq<Netpack>)
      requires queue.Valid()
      reads queue, queue.buffer
    {
      match r
      case Nothing => ps == [] && queue.Contents() == before
      case Data(d) => ps == [d] && queue.Contents() == before
      case More => ps != [] && queue.Contents() == before + From(fd, ps)
      case Closed => ps == [] && queue.Contents() == before
      case Overrun => false
    }

    ghost function Pending(fd: int): seq<Byte>
      reads this`pending
    {
      if fd in pending then pending[fd] else []
    }

    /** A header that was not all there is waiting. */
    ghost predicate HeaderWaits(fd: int)
      reads this`pending
    {
      fd in pending && ReadSize(pending[fd]).Short?
    }

    /** The branch of filter_data_ for a connection with a header that is not all there. */
    method FilterHeader(u: Uncomplete, buffer: array<Byte>) returns (r: Result, ghost ps: seq<seq<Byte>>)
      requires Valid() && u.id !in pending && u.read < 0 && Represents(u, u.header) && Sane(u.header + buffer[..])
      modifies this`pending, hash, queue, queue.buffer, buffer
      ensures Valid() && OthersKept(u.id, old(pending))
      ensures r.Overrun? <==> !HeaderFits(u.header + old(buffer[..]))
      ensures !r.Overrun? ==> Returned(u.id, r, ps, old(queue.Contents()))
      ensures !r.Overrun? ==> Filtered(u.header + old(buffer[..]), r.Closed?, r.Data?, ps, Pending(u.id))
      ensures queue.buffer == old(queue.buffer) || fresh(queue.buffer)
    {
      hide Payload, Payloads, Rest, Sane, TableOk, UnderWay, HashFd, End, From, OpensWithClose, ReadSize;
      hide PackQueue.Valid, PackQueue.Contents, Filtered, HeaderFits;
      ghost var s := u.header + buffer[..];
      var store := new Byte[HEADERSIZE](k => if 0 <= k < |u.header| then u.header[k] else 0);
      assert store[..|u.header|] == u.header;
      var size, off, inside := ReadHeader(buffer, store, |u.header|);
      if !inside {
        return Overrun, [];
      }
      var header := store[..size];
      ghost var t := buffer[off..];
      if ReadSize(header).Short? {
        assert header + t == header;
        FilteredShort(s, header);
        Save(u.(header := header, read := -1), header);
        return Nothing, [];
      }
      if ReadSize(header).Close? {
        assert header + t == header;
        FilteredClose(s, header);
        return Closed, [];
      }
      BegunUnderWay(u.id, header);
      assert header[..|header|] == header;
      r, ps := FilterBody(Begun(u.id, ReadSize(header)), buffer, off, header);
      FilteredFrame(s, header + t, r.Data?, ps, Pending(u.id));
    }

    /** The branch of filter_data_ for a connection with nothing unfinished. */
    method FilterNew(fd: int, buffer: array<Byte>) returns (r: Result, ghost ps: seq<seq<Byte>>)
      requires Valid() && fd !in pending && Sane(buffer[..])
      modifies this`pending, hash, queue, queue.buffer, buffer
      ensures Valid() && OthersKept(fd, old(pending)) && Returned(fd, r, ps, old(queue.Contents()))
      ensures Filtered(old(buffer[..]), r.Closed?, r.Data?, ps, Pending(fd))
      ensures queue.buffer == old(queue.buffer) || fresh(queue.buffer)
    {
      hide Payload, Payloads, Rest, Sane, TableOk, UnderWay, HashFd, End, From, OpensWithClose, ReadSize;
      hide PackQueue.Valid, PackQueue.Contents, Filtered, Alike;
      var off := SkipSkips(buffer);
      ghost var s, t := buffer[..], buffer[off..];
      if ReadSize(buffer[off..]).Close? {
        FilteredClose(s, t);
        return Closed, [];
      }
      SaneHead(t);
      if ReadSize(buffer[off..]).Short? {
        FilteredShort(s, t);
        SaveShort(fd, buffer, off);
        return Nothing, [];
      }
      var h := ReadSize(buffer[off..]);
      BegunUnderWay(fd, t);
      assert buffer[off + h.length..] == t[h.length..];
      r, ps := FilterBody(Begun(fd, h), buffer, off + h.length, t[..h.length]);
      FilteredFrame(s, t, r.Data?, ps, Pending(fd));
    }

    /** The loop over bytes to be thrown away; here a close frame stops it. */
    static method SkipSkips(buffer: array<Byte>) returns (off: nat)
      requires Sane(buffer[..])
      ensures off <= buffer.Length && !ReadSize(buffer[off..]).Skip? && Sane(buffer[off..])
      ensures Alike(buffer[..], buffer[off..])
    {
      hide ReadSize, Payloads, Rest, Sane, OpensWithClose;
      off := 0;
      assert buffer[0..] == buffer[..];
      while ReadSize(buffer[off..]).Skip?
        invariant off <= buffer.Length && Sane(buffer[off..]) && Alike(buffer[..], buffer[off..])
        decreases buffer.Length - off
      {
        Skipped(buffer[off..]);
        assert buffer[off..][2..] == buffer[off + 2..];
        off := off + 2;
      }
    }

    /**
     filter_data_: one chunk of a connection. A chunk of no bytes does no harm either,
     unless it comes when half a header waits: then it brings forth an empty package, and the header is lost.
     The header array is overrun exactly when half a header waits, a close frame comes first and more than HEADERSIZE
     bytes are left from it on.
     */
    method FilterData(fd: int, buffer: array<Byte>) returns (r: Result, ghost ps: seq<seq<Byte>>)
      requires Valid() && Sane(Pending(fd) + buffer[..])
      modifies this`pending, hash, queue, queue.buffer, buffer
      ensures Valid() && OthersKept(fd, old(pending))
      ensures r.Overrun? <==> old(HeaderWaits(fd) && !HeaderFits(Pending(fd) + buffer[..]))
      ensures !r.Overrun? ==> Returned(fd, r, ps, old(queue.Contents()))
      ensures !r.Overrun? ==>
              if buffer.Length == 0 && old(HeaderWaits(fd)) then r == Data([]) && fd !in pending
              else Filtered(old(Pending(fd) + buffer[..]), r.Closed?, r.Data?, ps, Pending(fd))
      ensures queue.buffer == old(queue.buffer) || fresh(queue.buffer)
    {
      hide TableOk, HashFd, PackQueue.Valid, PackQueue.Contents, Filtered, UnderWay, Sane, ReadSize;
      ghost var raw, was := Pending(fd), pending;
      var found := FindUncomplete(fd);
      if found.None? {
        assert raw + buffer[..] == buffer[..];
        r, ps := FilterNew(fd, buffer);
      } else if found.value.read < 0 {
        if buffer.Length == 0 {
          return Data([]), [[]];
        }
        r, ps := FilterHeader(found.value, buffer);
      } else {
        NotShort(found.value, raw);
        assert buffer[0..] == buffer[..];
        AlikeSelf(raw + buffer[..]);
        ghost var s := raw + buffer[..];
        r, ps := FilterBody(found.value, buffer, 0, raw);
        FilteredFrame(s, s, r.Data?, ps, Pending(fd));
      }
    }
  }

  /** The array is full, and it is a close frame that did not stop the loop. */
  lemma HeaderFull(s: seq<Byte>, header: seq<Byte>, t: seq<Byte>)
    requires ReadSize(header).Short? || ReadSize(header).Close?
    requires Alike(s, header + t) && |header| == HEADERSIZE && t != []
    ensures !HeaderFits(s)
  {
    if ReadSize(header).Short? {
      ShortFits(header);
    }
    ReadSizeStable(header, t);
  }

  lemma HeaderDone(s: seq<Byte>, header: seq<Byte>, t: seq<Byte>)
    requires ReadSize(header).Frame? || (t == [] && (ReadSize(header).Short? || ReadSize(header).Close?))
    requires Alike(s, header + t) && |header| <= HEADERSIZE
    ensures HeaderFits(s)
  {
    ReadSizeStable(header, t);
    if t == [] {
      assert header + t == header;
    }
  }

  lemma NotShort(u: Uncomplete, raw: seq<Byte>)
    requires UnderWay(u, raw)
    ensures !ReadSize(raw).Short?
  {
  }

}
