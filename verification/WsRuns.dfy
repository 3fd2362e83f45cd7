/** Whole runs: chunks of many connections in any order, each package taken as soon as it is announced. */
module WsRuns {
  import opened Bytes
  import opened WsFrames
  import opened WsNetpack
  import opened WsReassembly

  datatype Chunk = Chunk(fd: int, bytes: seq<Byte>)

  /** All that came in on one connection. */
  ghost function StreamOf(chunks: seq<Chunk>, fd: int): seq<Byte>
  {
    if chunks == [] then []
    else
      var c := chunks[|chunks| - 1];
      StreamOf(chunks[..|chunks| - 1], fd) + if c.fd == fd then c.bytes else []
  }

  /** The packages handed over for one connection. */
  ghost function Of(log: seq<Netpack>, fd: int): seq<seq<Byte>>
  {
    if log == [] then []
    else
      var p := log[|log| - 1];
      Of(log[..|log| - 1], fd) + if p.id == fd then [p.data] else []
  }

  lemma FromLast(fd: int, ps: seq<seq<Byte>>, n: nat)
    requires |ps| == n + 1
    ensures From(fd, ps) == From(fd, ps[..n]) + [Netpack(fd, ps[n])]
  {
    hide From;
  }

  lemma OfLast(log: seq<Netpack>, p: Netpack, g: int)
    ensures Of(log + [p], g) == Of(log, g) + if p.id == g then [p.data] else []
  {
    assert (log + [p])[..|log|] == log;
  }

  lemma {:induction false} OfFrom(log: seq<Netpack>, fd: int, ps: seq<seq<Byte>>, g: int)
    ensures Of(log + From(fd, ps), g) == Of(log, g) + if g == fd then ps else []
  {
    hide From, Of;
    if ps == [] {
      Assoc(log, From(fd, ps), []);
      assert log + From(fd, ps) == log;
    } else {
      var n := |ps| - 1;
      OfFrom(log, fd, ps[..n], g);
      FromLast(fd, ps, n);
      OfLast(log + From(fd, ps[..n]), Netpack(fd, ps[n]), g);
      Assoc(log, From(fd, ps[..n]), [Netpack(fd, ps[n])]);
      Assoc(Of(log, g), ps[..n], [ps[n]]);
      SplitLast(ps, n);
    }
  }

  lemma SplitLast<T>(s: seq<T>, n: nat)
    requires |s| == n + 1
    ensures s == s[..n] + [s[n]]
  {
  }

  /** Up to now every connection was handed the payloads of what came in on it, and the rest is pending. */
  ghost predicate UpToDate(log: seq<Netpack>, chunks: seq<Chunk>, pending: map<int, seq<Byte>>)
  {
    forall fd :: Current(log, chunks, pending, fd)
  }

  ghost predicate Current(log: seq<Netpack>, chunks: seq<Chunk>, pending: map<int, seq<Byte>>, fd: int)
  {
    && Of(log, fd) == Payloads(StreamOf(chunks, fd))
    && (if fd in pending then pending[fd] else []) == Rest(StreamOf(chunks, fd))
  }

  lemma OneMoreChunk(log: seq<Netpack>, chunks: seq<Chunk>, c: Chunk, ps: seq<seq<Byte>>,
                     pending: map<int, seq<Byte>>, pending': map<int, seq<Byte>>)
    requires UpToDate(log, chunks, pending)
    requires forall g :: g != c.fd ==> (g in pending' <==> g in pending) && (g in pending ==> pending'[g] == pending[g])
    requires ps == Payloads(Rest(StreamOf(chunks, c.fd)) + c.bytes)
    requires (if c.fd in pending' then pending'[c.fd] else []) == Rest(Rest(StreamOf(chunks, c.fd)) + c.bytes)
    ensures UpToDate(log + From(c.fd, ps), chunks + [c], pending')
  {
    hide Payloads, Rest;
    assert (chunks + [c])[..|chunks|] == chunks;
    forall fd ensures Current(log + From(c.fd, ps), chunks + [c], pending', fd) {
      assert Current(log, chunks, pending, fd);
      OfFrom(log, c.fd, ps, fd);
      Chunks(StreamOf(chunks, c.fd), c.bytes);
      assert StreamOf(chunks, fd) + [] == StreamOf(chunks, fd);
      assert Of(log, fd) + [] == Of(log, fd);
    }
  }

  /** The streams of a run, and so of any part of it, have no close frames and no sizes that wrap. */
  ghost predicate Orderly(chunks: seq<Chunk>)
  {
    && (forall k :: 0 <= k < |chunks| ==> chunks[k].bytes != [])
    && forall fd :: Sane(StreamOf(chunks, fd)) && CloseFree(StreamOf(chunks, fd))
  }

  lemma {:induction false} OrderlyBefore(chunks: seq<Chunk>, i: nat)
    requires Orderly(chunks) && i <= |chunks|
    ensures Orderly(chunks[..i])
    decreases |chunks| - i
  {
    if i == |chunks| {
      assert chunks[..i] == chunks;
    } else {
      OrderlyBefore(chunks, i + 1);
      assert chunks[..i + 1][..i] == chunks[..i];
      var c := chunks[i];
      forall fd ensures Sane(StreamOf(chunks[..i], fd)) && CloseFree(StreamOf(chunks[..i], fd)) {
        var s := StreamOf(chunks[..i], fd);
        assert Sane(StreamOf(chunks[..i + 1], fd)) && CloseFree(StreamOf(chunks[..i + 1], fd));
        Chunks(s, if c.fd == fd then c.bytes else []);
        assert s + [] == s;
      }
    }
  }

  /** The next chunk as the hub sees it. */
  lemma NextOrderly(chunks: seq<Chunk>, i: nat)
    requires Orderly(chunks) && i < |chunks|
    ensures var s := Rest(StreamOf(chunks[..i], chunks[i].fd)) + chunks[i].bytes; Sane(s) && !OpensWithClose(s)
    ensures chunks[i].bytes != []
  {
    OrderlyBefore(chunks, i + 1);
    assert chunks[..i + 1][..i] == chunks[..i];
    var c := chunks[i];
    hide Payloads, Rest, Sane, CloseFree;
    assert Sane(StreamOf(chunks[..i + 1], c.fd)) && CloseFree(StreamOf(chunks[..i + 1], c.fd));
    Chunks(StreamOf(chunks[..i], c.fd), c.bytes);
    NoCloseFirst(Rest(StreamOf(chunks[..i], c.fd)) + c.bytes);
  }

  /** Takes all packages out of the queue. */
  method Drain(hub: Hub) returns (got: seq<Netpack>)
    requires hub.Valid()
    modifies hub.queue`head
    ensures hub.Valid() && hub.queue.Contents() == [] && got == old(hub.queue.Contents())
  {
    hide TableOk, PackQueue.Contents;
    got := [];
    var r := hub.queue.Pop();
    while r.Some?
      invariant hub.Valid() && (r.None? ==> hub.queue.Contents() == [])
      invariant got + (if r.Some? then [r.value] else []) + hub.queue.Contents() == old(hub.queue.Contents())
      decreases |hub.queue.Contents()|, r.Some?
    {
      got := got + [r.value];
      r := hub.queue.Pop();
    }
  }

  /** One chunk: what comes back at once or through the queue. */
  method Receive(hub: Hub, c: Chunk) returns (got: seq<Netpack>)
    requires hub.Valid() && hub.queue.Contents() == [] && c.bytes != []
    requires Sane(hub.Pending(c.fd) + c.bytes) && !OpensWithClose(hub.Pending(c.fd) + c.bytes)
    modifies hub`pending, hub.hash, hub.queue, hub.queue.buffer
    ensures hub.Valid() && hub.queue.Valid() && hub.queue.Contents() == [] && hub.OthersKept(c.fd, old(hub.pending))
    ensures got == From(c.fd, Payloads(old(hub.Pending(c.fd)) + c.bytes))
    ensures hub.Pending(c.fd) == Rest(old(hub.Pending(c.fd)) + c.bytes)
    ensures hub.queue.buffer == old(hub.queue.buffer) || fresh(hub.queue.buffer)
  {
    hide TableOk, PackQueue.Contents, Payloads, Rest, Sane, OpensWithClose;
    var buffer := new Byte[|c.bytes|](k requires 0 <= k < |c.bytes| => c.bytes[k]);
    assert buffer[..] == c.bytes;
    ghost var ps;
    var r;
    r, ps := hub.FilterData(c.fd, buffer);
    match r
    case Nothing => got := [];
    case Data(d) =>
      got := [Netpack(c.fd, d)];
      FromMore(c.fd, d, []);
    case More =>
      got := Drain(hub);
    case Closed | Overrun => got := [];
  }

  method ReceiveNext(hub: Hub, ghost log: seq<Netpack>, ghost before: seq<Chunk>, c: Chunk) returns (got: seq<Netpack>)
    requires hub.Valid() && hub.queue.Valid() && hub.queue.Contents() == [] && UpToDate(log, before, hub.pending)
    requires c.bytes != [] && var s := Rest(StreamOf(before, c.fd)) + c.bytes; Sane(s) && !OpensWithClose(s)
    modifies hub`pending, hub.hash, hub.queue, hub.queue.buffer
    ensures hub.Valid() && hub.queue.Valid() && hub.queue.Contents() == [] && UpToDate(log + got, before + [c], hub.pending)
    ensures hub.queue.buffer == old(hub.queue.buffer) || fresh(hub.queue.buffer)
  {
    hide Payloads, Rest, Sane, OpensWithClose, Current, UpToDate, Hub.Valid, PackQueue.Valid, PackQueue.Contents;
    PendingIs(hub, log, before, c.fd);
    ghost var was := hub.pending;
    got := Receive(hub, c);
    OneMoreChunk(log, before, c, Payloads(Rest(StreamOf(before, c.fd)) + c.bytes), was, hub.pending);
  }

  /** However the streams are cut and mixed, every connection is handed its payloads, in order. */
  method Run(chunks: seq<Chunk>) returns (log: seq<Netpack>)
    requires Orderly(chunks)
    ensures forall fd :: Of(log, fd) == Payloads(StreamOf(chunks, fd))
  {
    hide Orderly, Payloads, Rest, Sane, OpensWithClose, UpToDate, Hub.Valid, PackQueue.Valid, PackQueue.Contents;
    var hub := new Hub();
    log := [];
    assert UpToDate([], [], map[]) by { Fresh(); }
    for i := 0 to |chunks|
      invariant fresh(hub) && fresh(hub.queue) && fresh(hub.queue.buffer) && fresh(hub.hash)
      invariant hub.Valid() && hub.queue.Valid() && hub.queue.Contents() == [] && UpToDate(log, chunks[..i], hub.pending)
    {
      NextOrderly(chunks, i);
      var got := ReceiveNext(hub, log, chunks[..i], chunks[i]);
      assert chunks[..i + 1] == chunks[..i] + [chunks[i]];
      log := log + got;
    }
    assert chunks[..|chunks|] == chunks;
    forall fd ensures Of(log, fd) == Payloads(StreamOf(chunks, fd)) {
      Handed(log, chunks, hub.pending, fd);
    }
  }

  /** Frames however cut and mixed come back as what they carry. */
  method RunFrames(chunks: seq<Chunk>, ghost frames: int -> seq<Outgoing>) returns (log: seq<Netpack>)
    requires forall k :: 0 <= k < |chunks| ==> chunks[k].bytes != []
    requires forall fd :: AllWellFormed(frames(fd)) && StreamOf(chunks, fd) == Stream(frames(fd))
    ensures forall fd :: Of(log, fd) == Contents(frames(fd))
  {
    hide Payloads, Rest, Sane, CloseFree, Stream, Contents;
    forall fd ensures Sane(StreamOf(chunks, fd)) && CloseFree(StreamOf(chunks, fd))
      ensures Payloads(StreamOf(chunks, fd)) == Contents(frames(fd))
    {
      StreamRead(frames(fd));
    }
    log := Run(chunks);
  }

  ghost predicate AllWellFormed(fs: seq<Outgoing>)
  {
    forall k :: 0 <= k < |fs| ==> WellFormed(fs[k])
  }

  /** A close frame cut behind its first byte, and zeros behind it: the connection is closed, or the header array overrun. */
  method CloseCut(n: nat) returns (r: Result)
    requires n > 0
    ensures r == if n < 1024 then Closed else Overrun
  {
    hide TableOk, Payloads, Rest, Sane, Opening, PackQueue.Valid, PackQueue.Contents;
    var hub := new Hub();
    var first := new Byte[1](_ => 0x88);
    ghost var ps;
    OneByte(0x88);
    assert hub.Pending(7) + first[..] == [0x88];
    r, ps := hub.FilterData(7, first);
    assert hub.Pending(7) == [0x88];
    var zeros := new Byte[n](_ => 0);
    CloseInHalves(n);
    assert hub.Pending(7) + zeros[..] == [0x88] + Zeros(n);
    r, ps := hub.FilterData(7, zeros);
  }

  /** One byte waits for more, whatever it is. */
  lemma OneByte(b: Byte)
    ensures ReadSize([b]).Short? && Sane([b]) && !OpensWithClose([b]) && Payloads([b]) == [] && Rest([b]) == [b]
  {
  }

  lemma Fresh()
    ensures UpToDate([], [], map[])
  {
    Empty();
  }

  lemma PendingIs(hub: Hub, log: seq<Netpack>, chunks: seq<Chunk>, fd: int)
    requires UpToDate(log, chunks, hub.pending)
    ensures hub.Pending(fd) == Rest(StreamOf(chunks, fd))
  {
    assert Current(log, chunks, hub.pending, fd);
  }

  lemma Handed(log: seq<Netpack>, chunks: seq<Chunk>, pending: map<int, seq<Byte>>, fd: int)
    requires UpToDate(log, chunks, pending)
    ensures Of(log, fd) == Payloads(StreamOf(chunks, fd))
  {
    assert Current(log, chunks, pending, fd);
  }
}
