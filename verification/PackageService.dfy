/**
 The package service of service_package.c: it cuts the stream of a connection into packages
 and hands them out to the requests of other services, first come first served.
 */
module PackageServices {
  import opened Bytes
  import opened Framing
  import opened RingQueues

  datatype Request = Request(source: nat, session: int)

  datatype Response = Response(sz: nat, msg: array?<Byte>)

  /** The queue entries for filled buffers. */
  ghost function Wrap(bufs: seq<array<Byte>>): (s: seq<Response>)
    ensures |s| == |bufs| && forall k :: 0 <= k < |s| ==> s[k] == Response(bufs[k].Length, bufs[k])
  {
    if bufs == [] then [] else [Response(bufs[0].Length, bufs[0])] + Wrap(bufs[1..])
  }

  /** What happens on the socket. */
  datatype SocketEvent =
    | Connect(id: int)
    | Close(id: int)
    | SocketError(id: int)
    | Data(bytes: seq<Byte>)
    | Warning
    | Ignored

  /** What skynet brings to the message handler. */
  datatype Message =
    | Text(kind: char, req: Request)
    | Client(bytes: seq<Byte>)
    | Timer
    | Socket(event: SocketEvent)
    | Error
    | Unsupported(req: Request)

  /** What the service asks skynet to do. */
  datatype Event =
    | Deliver(to: Request, msg: array<Byte>, bytes: seq<Byte>)
    | Refuse(to: Request)
    | Reject(to: Request)
    | Info(to: Request, requests: nat, responses: nat, uncomplete: int, size: int)
    | Manager(text: string)
    | Shutdown
    | Write(bytes: seq<Byte>)
    | Timeout
    | Exit
    | Free(msg: array<Byte>)

  // ----- what the log ought to be

  /** An event without the buffer that its bytes are in. */
  datatype Note = Package(to: Request, bytes: seq<Byte>) | Other(event: Event)

  ghost function Notes(out: seq<Event>): (s: seq<Note>)
    ensures |s| == |out|
  {
    seq(|out|, k requires 0 <= k < |out| => if out[k].Deliver? then Package(out[k].to, out[k].bytes) else Other(out[k]))
  }

  lemma Noted(out: seq<Event>, e: Event)
    ensures Notes(out + [e]) == Notes(out) + [if e.Deliver? then Package(e.to, e.bytes) else Other(e)]
  {
  }

  /** The service as its clients see it: who waits, and which packages wait. */
  datatype State = State(fd: int, init: bool, closed: bool, since: nat, stream: seq<Byte>, waiting: seq<Request>,
                         ready: seq<seq<Byte>>)

  /** Requests and packages in pairs, as far as there are both, and what is left of either. */
  ghost function Pairs(waiting: seq<Request>, ready: seq<seq<Byte>>): seq<Note>
  {
    if waiting == [] || ready == [] then [] else [Package(waiting[0], ready[0])] + Pairs(waiting[1..], ready[1..])
  }

  ghost function Unpaired(waiting: seq<Request>, ready: seq<seq<Byte>>): (seq<Request>, seq<seq<Byte>>)
  {
    if waiting == [] || ready == [] then (waiting, ready) else Unpaired(waiting[1..], ready[1..])
  }

  ghost function AllRefused(waiting: seq<Request>): seq<Note>
  {
    if waiting == [] then [] else [Other(Refuse(waiting[0]))] + AllRefused(waiting[1..])
  }

  /** What is reported to 'I': the numbers of those waiting, and how much is missing of the package under way. */
  ghost function InfoOf(st: State, req: Request): Event
  {
    var r, ps := Residue(st.stream), Packages(st.stream);
    var size := if |r| >= 2 then Length(r) else 0;
    if |r| >= 2 then Info(req, |st.waiting|, |st.ready|, size + 2 - |r|, size)
    else if |r| == 1 then Info(req, |st.waiting|, |st.ready|, -1, 0)
    else Info(req, |st.waiting|, |st.ready|, -1, if ps == [] then 0 else |ps[|ps| - 1]|)
  }

  ghost function OnText(st: State, kind: char, req: Request): (State, seq<Note>)
  {
    if kind == 'K' then (st, [Other(Shutdown)])
    else if kind == 'I' then (st, [Other(InfoOf(st, req))])
    else if kind != 'R' then (st, [Other(Reject(req))])
    else if st.closed then (st, [Other(Refuse(req))])
    else if st.ready != [] then (st.(ready := st.ready[1..]), [Package(req, st.ready[0])])
    else (st.(waiting := st.waiting + [req]), [])
  }

  ghost function OnClose(st: State): (State, seq<Note>)
  {
    (st.(init := true, closed := true, waiting := []),
     (if st.init then [] else [Other(Manager("FAIL"))]) + AllRefused(st.waiting) + [Other(Manager("CLOSED")), Other(Exit)])
  }

  ghost function OnData(st: State, bytes: seq<Byte>): (State, seq<Note>)
  {
    var ready := st.ready + Packages(Residue(st.stream) + bytes);
    var left := Unpaired(st.waiting, ready);
    (st.(since := st.since + 1, stream := st.stream + bytes, waiting := left.0, ready := left.1), Pairs(st.waiting, ready))
  }

  ghost function OnSocket(st: State, event: SocketEvent): (State, seq<Note>)
  {
    match event
    case Connect(id) => if !st.init && id == st.fd then (st.(init := true), [Other(Manager("SUCC"))]) else (st, [])
    case Close(id) => if id == st.fd then OnClose(st) else (st, [])
    case SocketError(id) => if id == st.fd then OnClose(st) else (st, [])
    case Data(bytes) => OnData(st, bytes)
    case Warning => (st, [])
    case Ignored => (st, [])
  }

  /** What a message changes, and what is sent on it, in order. */
  ghost function Step(st: State, m: Message): (State, seq<Note>)
  {
    match m
    case Text(kind, req) => OnText(st, kind, req)
    case Client(bytes) =>
      (st, if |bytes| > 0xffff then [] else [Other(Write([|bytes| / 256, |bytes| % 256] + bytes))])
    case Timer =>
      (st.(since := 0), if st.since > 0 then [Other(Timeout)] else if st.closed then [] else [Other(Shutdown)])
    case Socket(event) => OnSocket(st, event)
    case Error => (st, [])
    case Unsupported(req) => (st, if req.session > 0 then [Other(Reject(req))] else [])
  }

  /** A whole run: package_init sets the timer, then come the messages. */
  ghost function Script(fd: int, msgs: seq<Message>): (State, seq<Note>)
  {
    if msgs == [] then (State(fd, false, false, 0, [], [], []), [Other(Timeout)])
    else
      var before := Script(fd, msgs[..|msgs| - 1]);
      var r := Step(before.0, msgs[|msgs| - 1]);
      (r.0, before.1 + r.1)
  }

  // ----- reading a log

  /** The packages handed over. */
  ghost function Deliveries(out: seq<Event>): seq<Event>
  {
    if out == [] then [] else Deliveries(out[..|out| - 1]) + if out[|out| - 1].Deliver? then [out[|out| - 1]] else []
  }

  /** The requests answered with an error. */
  ghost function Refusals(out: seq<Event>): seq<Request>
  {
    if out == [] then [] else Refusals(out[..|out| - 1]) + if out[|out| - 1].Refuse? then [out[|out| - 1].to] else []
  }

  /** The buffers of the packages handed over. */
  ghost function HandedOver(out: seq<Event>): seq<array<Byte>>
  {
    if out == [] then [] else HandedOver(out[..|out| - 1]) + if out[|out| - 1].Deliver? then [out[|out| - 1].msg] else []
  }

  /** The buffers dropped. */
  ghost function Freed(out: seq<Event>): seq<array<Byte>>
  {
    if out == [] then [] else Freed(out[..|out| - 1]) + if out[|out| - 1].Free? then [out[|out| - 1].msg] else []
  }

  /** The bytes sent to the peer. */
  ghost function Written(out: seq<Event>): seq<Byte>
  {
    if out == [] then [] else Written(out[..|out| - 1]) + if out[|out| - 1].Write? then out[|out| - 1].bytes else []
  }

  lemma Appended(out: seq<Event>, e: Event)
    ensures Deliveries(out + [e]) == Deliveries(out) + if e.Deliver? then [e] else []
    ensures Refusals(out + [e]) == Refusals(out) + if e.Refuse? then [e.to] else []
    ensures Written(out + [e]) == Written(out) + if e.Write? then e.bytes else []
    ensures HandedOver(out + [e]) == HandedOver(out) + if e.Deliver? then [e.msg] else []
    ensures Freed(out + [e]) == Freed(out) + if e.Free? then [e.msg] else []
  {
    assert (out + [e])[..|out|] == out;
  }

  /**
   The k-th request that was served got the k-th package of the stream;
   the later requests were refused or are waiting, in order.
   */
  ghost predicate Paired(out: seq<Event>, asked: seq<Request>, served: nat, made: seq<array<Byte>>,
                         arrived: seq<seq<Byte>>, waiting: seq<Request>)
  {
    && served <= |asked| && served <= |made| == |arrived| && |Deliveries(out)| == served
    && (forall k :: 0 <= k < served ==> Deliveries(out)[k] == Deliver(asked[k], made[k], arrived[k]))
    && Refusals(out) + waiting == asked[served..]
    && Freed(out) == []
  }

  /** The first of those waiting gets the next package. */
  lemma ServeStep(out: seq<Event>, asked: seq<Request>, served: nat, made: seq<array<Byte>>,
                  arrived: seq<seq<Byte>>, req: Request, waiting: seq<Request>)
    requires Paired(out, asked, served, made, arrived, [req] + waiting) && Refusals(out) == [] && served < |made|
    ensures var out' := out + [Deliver(req, made[served], arrived[served])];
      Paired(out', asked, served + 1, made, arrived, waiting) && Refusals(out') == [] && Written(out') == Written(out)
  {
    Appended(out, Deliver(req, made[served], arrived[served]));
    hide Deliveries, Refusals, Freed, Written;
    assert asked[served] == req && asked[served + 1..] == asked[served..][1..];
  }

  /** The first of those waiting is refused. */
  lemma RefuseStep(out: seq<Event>, asked: seq<Request>, served: nat, made: seq<array<Byte>>,
                   arrived: seq<seq<Byte>>, req: Request, waiting: seq<Request>)
    requires Paired(out, asked, served, made, arrived, [req] + waiting)
    ensures Paired(out + [Refuse(req)], asked, served, made, arrived, waiting)
    ensures Written(out + [Refuse(req)]) == Written(out)
  {
    Appended(out, Refuse(req));
    hide Deliveries, Refusals, Freed, Written;
    assert Refusals(out) + [req] + waiting == Refusals(out) + ([req] + waiting);
  }

  /** Nobody is served or refused. */
  lemma OtherStep(out: seq<Event>, asked: seq<Request>, served: nat, made: seq<array<Byte>>,
                  arrived: seq<seq<Byte>>, waiting: seq<Request>, e: Event)
    requires Paired(out, asked, served, made, arrived, waiting) && !e.Deliver? && !e.Refuse? && !e.Free?
    ensures Paired(out + [e], asked, served, made, arrived, waiting) && Refusals(out + [e]) == Refusals(out)
    ensures Written(out + [e]) == Written(out) + if e.Write? then e.bytes else []
  {
    Appended(out, e);
    hide Deliveries, Refusals, Freed, Written;
  }

  /** One more request waits. */
  lemma AskStep(out: seq<Event>, asked: seq<Request>, served: nat, made: seq<array<Byte>>,
                arrived: seq<seq<Byte>>, waiting: seq<Request>, req: Request)
    requires Paired(out, asked, served, made, arrived, waiting)
    ensures Paired(out, asked + [req], served, made, arrived, waiting + [req])
  {
    hide Deliveries, Refusals, Freed;
    assert (asked + [req])[served..] == asked[served..] + [req];
  }

  /** More packages arrive. */
  lemma ArriveStep(out: seq<Event>, asked: seq<Request>, served: nat, made: seq<array<Byte>>, arrived: seq<seq<Byte>>,
                   waiting: seq<Request>, made': seq<array<Byte>>, arrived': seq<seq<Byte>>)
    requires Paired(out, asked, served, made, arrived, waiting)
    requires made <= made' && arrived <= arrived' && |made'| == |arrived'|
    ensures Paired(out, asked, served, made', arrived', waiting)
  {
    hide Deliveries, Refusals, Freed;
  }

  lemma {:induction false} HandedOverAt(out: seq<Event>)
    ensures |HandedOver(out)| == |Deliveries(out)|
    ensures forall k :: 0 <= k < |Deliveries(out)| ==> Deliveries(out)[k].Deliver? && HandedOver(out)[k] == Deliveries(out)[k].msg
  {
    if out != [] {
      HandedOverAt(out[..|out| - 1]);
    }
  }

  /** No buffer twice. */
  ghost predicate Once(bufs: seq<array<Byte>>)
  {
    forall j, k :: 0 <= j < k < |bufs| ==> bufs[j] != bufs[k]
  }

  // ----- what a series of messages brings

  ghost function StreamOf(msgs: seq<Message>): seq<Byte>
  {
    if msgs == [] then []
    else StreamOf(msgs[..|msgs| - 1]) + BytesOf(msgs[|msgs| - 1])
  }

  function BytesOf(m: Message): seq<Byte>
  {
    if m.Socket? && m.event.Data? then m.event.bytes else []
  }

  ghost function AskedOf(msgs: seq<Message>): seq<Request>
  {
    if msgs == [] then []
    else AskedOf(msgs[..|msgs| - 1]) + RequestOf(msgs[|msgs| - 1])
  }

  function RequestOf(m: Message): seq<Request>
  {
    if m.Text? && m.kind == 'R' then [m.req] else []
  }

  ghost function SpokenOf(msgs: seq<Message>): (s: seq<seq<Byte>>)
    ensures forall k :: 0 <= k < |s| ==> |s[k]| <= 0xffff
  {
    if msgs == [] then []
    else SpokenOf(msgs[..|msgs| - 1]) + SayingOf(msgs[|msgs| - 1])
  }

  function SayingOf(m: Message): (s: seq<seq<Byte>>)
    ensures forall k :: 0 <= k < |s| ==> |s[k]| <= 0xffff
  {
    if m.Client? && |m.bytes| <= 0xffff then [m.bytes] else []
  }

  /** The connection fd closed, or failed, in the course of the messages. */
  ghost predicate ClosedIn(msgs: seq<Message>, fd: int)
  {
    msgs != [] && (ClosedIn(msgs[..|msgs| - 1], fd) || Closes(msgs[|msgs| - 1], fd))
  }

  predicate Closes(m: Message, fd: int)
  {
    m.Socket? && (m.event == Close(fd) || m.event == SocketError(fd))
  }

  /** How many chunks of data came in since the timer last fired. */
  ghost function SinceBeat(msgs: seq<Message>): nat
  {
    if msgs == [] then 0 else SinceAfter(SinceBeat(msgs[..|msgs| - 1]), msgs[|msgs| - 1])
  }

  function SinceAfter(n: nat, m: Message): nat
  {
    if m.Timer? then 0 else if m.Socket? && m.event.Data? then n + 1 else n
  }

  class Package {
    var manager: nat
    var fd: int
    var heartbeat: int
    var recv: int
    var init: bool
    var closed: bool
    var headerSz: nat
    var header0: Byte
    var header1: Byte
    var uncompleteSz: int
    var uncomplete: Response
    const request: Queue<Request>
    const response: Queue<Response>
    /** What was sent, in order. */
    var out: seq<Event>

    /** All bytes that came in, the requests made, the buffers filled and what was in them. */
    ghost var stream: seq<Byte>
    ghost var asked: seq<Request>
    ghost var made: seq<array<Byte>>
    ghost var arrived: seq<seq<Byte>>
    ghost var served: nat
    ghost var spoken: seq<seq<Byte>>
    /** Chunks of data since the last beat, and whether there was one yet. */
    ghost var since: nat
    ghost var beaten: bool

    /** package_create */
    constructor (manager: nat, fd: int)
      ensures Valid() && this.manager == manager && this.fd == fd && !closed
      ensures out == [] && stream == [] && asked == [] && spoken == [] && uncomplete.msg == null
      ensures since == 0 && !beaten && Abstract() == State(fd, false, false, 0, [], [], []) && Notes(out) == []
      ensures fresh(request) && fresh(request.buffer) && fresh(response) && fresh(response.buffer)
    {
      this.manager, this.fd, heartbeat, recv, init, closed := manager, fd, -1, 0, false, false;
      headerSz, header0, header1, uncompleteSz, uncomplete := 0, 0, 0, -1, Response(0, null);
      request := new Queue<Request>();
      response := new Queue<Response>();
      out, stream, asked, made, arrived, served, spoken := [], [], [], [], [], 0, [];
      since, beaten := 0, false;
      new;
      Starts();
    }

    lemma Starts()
      requires Queues() && request.Contents() == [] && response.Contents() == []
      requires headerSz == 0 && uncompleteSz == -1 && uncomplete == Response(0, null) && served == 0 && !closed
      requires out == [] && stream == [] && asked == [] && made == [] && arrived == [] && spoken == []
      requires BeatOk()
      ensures Valid()
    {
      hide Ring, Length;
    }

    ghost predicate Queues()
      reads request, response
    {
      request.Valid() && response.Valid()
    }

    // ----- the package under way

    ghost predicate PendingOk()
      reads this`headerSz, this`header0, this`header1, this`uncompleteSz, this`uncomplete, this`made
    {
      && headerSz <= 1 && (headerSz == 1 ==> uncompleteSz == -1) && -1 <= uncompleteSz
      && (uncompleteSz >= 0 ==>
        && uncomplete.msg != null && uncomplete.sz == uncomplete.msg.Length == Length([header0, header1])
        && uncompleteSz <= uncomplete.sz && uncomplete.msg !in made)
    }

    /** The bytes of the package under way. */
    ghost function Partial(): seq<Byte>
      requires PendingOk()
      reads this`headerSz, this`header0, this`header1, this`uncompleteSz, this`uncomplete, this`made, uncomplete.msg
    {
      if uncompleteSz >= 0 then [header0, header1] + uncomplete.msg[..uncomplete.sz - uncompleteSz]
      else if headerSz == 1 then [header0] else []
    }

    // ----- the packages made

    ghost predicate MadeOk()
      reads this`made, this`arrived, this`served, made
    {
      && |made| == |arrived|
      && (forall j, k :: 0 <= j < k < |made| ==> made[j] != made[k])
      && forall j :: served <= j < |made| ==> made[j][..] == arrived[j]
    }

    /** The size of the last package stays where it was while nothing is under way. */
    ghost predicate SizeOk()
      reads this`uncompleteSz, this`uncomplete, this`arrived
    {
      uncompleteSz == -1 ==> uncomplete.sz == if arrived == [] then 0 else |arrived[|arrived| - 1]|
    }

    /** Everything a stream of which only rest is missing will have brought. */
    ghost function Coming(rest: seq<Byte>): seq<seq<Byte>>
      requires PendingOk()
      reads this, uncomplete.msg
    {
      arrived + Packages(Partial() + rest)
    }

    ghost function Left(rest: seq<Byte>): seq<Byte>
      requires PendingOk()
      reads this, uncomplete.msg
    {
      Residue(Partial() + rest)
    }

    /** The queue of responses is what was made and not yet served. */
    ghost predicate ResponsesOk()
      requires Queues()
      reads this`served, this`made, request, response, response.buffer
    {
      served <= |made| && response.Contents() == Wrap(made[served..])
    }

    ghost predicate Receiving()
      reads this`headerSz, this`header0, this`header1, this`uncompleteSz, this`uncomplete, this`made, this`arrived, this`served
      reads request, response, response.buffer, uncomplete.msg, made
    {
      Queues() && PendingOk() && MadeOk() && ResponsesOk() && SizeOk()
    }

    /** Bytes go into the buffer of the package under way. */
    method Fill(msg: seq<Byte>, i: nat, n: nat)
      requires Receiving() && n <= uncompleteSz && i + n <= |msg|
      modifies uncomplete.msg
      ensures Receiving()
      ensures uncomplete.msg[..uncomplete.sz - uncompleteSz + n] ==
              old(uncomplete.msg[..uncomplete.sz - uncompleteSz]) + msg[i..i + n]
    {
      hide Length, Queues, ResponsesOk;
      Copy(uncomplete.msg, uncomplete.sz - uncompleteSz, msg, i, n);
    }

    /** Bytes enough for the package under way: it joins the queue. */
    method TakeRest(msg: seq<Byte>, i: nat) returns (i': nat)
      requires Receiving() && 0 <= uncompleteSz <= |msg| - i
      modifies this`uncompleteSz, this`made, this`arrived, response, response.buffer, uncomplete.msg
      ensures Receiving() && uncompleteSz == -1
      ensures i <= i' <= |msg| && |arrived| == |old(arrived)| + 1 && arrived[..|arrived| - 1] == old(arrived)
      ensures IsWhole(old(Partial()) + msg[i..i'], arrived[|arrived| - 1]) && old(made) <= made
      ensures response.buffer == old(response.buffer) || fresh(response.buffer)
    {
      hide Receiving, Length, IsWhole, Partial;
      ghost var p := PartialIs();
      i' := i + uncompleteSz;
      ghost var had := uncomplete.msg[..uncomplete.sz - uncompleteSz];
      Fill(msg, i, uncompleteSz);
      WholeBuffer();
      BodyWhole(p, [header0, header1], had, msg[i..i'], uncomplete.msg[..]);
      Finish(uncomplete.msg[..]);
    }

    /** What is under way is the header and the bytes in the buffer. */
    lemma PartialIs() returns (p: seq<Byte>)
      requires Receiving() && uncompleteSz >= 0
      ensures p == Partial() == [header0, header1] + uncomplete.msg[..uncomplete.sz - uncompleteSz]
      ensures uncomplete.msg != null && 0 <= uncomplete.sz - uncompleteSz && uncomplete.sz == uncomplete.msg.Length
    {
      p := Partial();
    }

    lemma WholeBuffer()
      requires Receiving() && uncompleteSz >= 0
      ensures uncomplete.msg[..uncomplete.sz] == uncomplete.msg[..] && uncomplete.sz == Length([header0, header1])
    {
    }

    /** The package under way is whole: it joins the queue. */
    method Finish(ghost body: seq<Byte>)
      requires Receiving() && uncompleteSz >= 0 && uncomplete.msg[..] == body
      modifies this`uncompleteSz, this`made, this`arrived, response, response.buffer
      ensures Receiving() && uncompleteSz == -1
      ensures arrived == old(arrived) + [body] && made == old(made) + [uncomplete.msg]
      ensures response.buffer == old(response.buffer) || fresh(response.buffer)
    {
      hide Length, Ring, Queue.Contents, Queue.Valid;
      response.Push(uncomplete);
      uncompleteSz := -1;
      made := made + [uncomplete.msg];
      arrived := arrived + [body];
    }

    /** Bytes for the package under way, but not all it needs. */
    method TakeSome(msg: seq<Byte>, i: nat)
      requires Receiving() && i <= |msg| && |msg| - i < uncompleteSz
      modifies this`uncompleteSz, uncomplete.msg
      ensures Receiving() && uncompleteSz > 0
      ensures Partial() == old(Partial()) + msg[i..]
    {
      hide Receiving, Partial;
      ghost var p := PartialIs();
      ghost var had := uncomplete.msg[..uncomplete.sz - uncompleteSz];
      Fill(msg, i, |msg| - i);
      assert msg[i..i + (|msg| - i)] == msg[i..];
      ghost var now := uncomplete.msg[..uncomplete.sz - uncompleteSz + (|msg| - i)];
      Less(|msg| - i);
      ghost var q := PartialIs();
      assert uncomplete.msg[..uncomplete.sz - uncompleteSz] == now;
      Assoc([header0, header1], had, msg[i..]);
    }

    /** So many bytes fewer are missing. */
    method Less(n: nat)
      requires Receiving() && n < uncompleteSz
      modifies this`uncompleteSz
      ensures Receiving() && uncompleteSz == old(uncompleteSz) - n
    {
      hide Length, Queues, ResponsesOk, MadeOk;
      uncompleteSz := uncompleteSz - n;
    }

    /** The first half of the loop of new_message: bytes for the package under way, which may be all it needs. */
    method TakeBody(msg: seq<Byte>, i: nat) returns (i': nat, full: bool)
      requires Receiving() && i <= |msg| && uncompleteSz >= 0
      modifies this`uncompleteSz, this`made, this`arrived, response, response.buffer, uncomplete.msg
      ensures Receiving() && i <= i' <= |msg|
      ensures Coming(msg[i'..]) == old(Coming(msg[i..])) && Left(msg[i'..]) == old(Left(msg[i..]))
      ensures full ==> uncompleteSz == -1
      ensures old(made) <= made && old(arrived) <= arrived
      ensures !full ==> i' == |msg| && uncompleteSz > 0
      ensures response.buffer == old(response.buffer) || fresh(response.buffer)
    {
      hide Packages, Residue, Length, ResponsesOk, Queues, MadeOk, IsWhole;
      ghost var p := Partial();
      full := |msg| - i >= uncompleteSz;
      if full {
        i' := TakeRest(msg, i);
        Whole(p, msg, i, i', arrived[|arrived| - 1]);
        assert Partial() + msg[i'..] == msg[i'..];
      } else {
        TakeSome(msg, i);
        i' := |msg|;
        assert Partial() + msg[i'..] == p + msg[i..];
      }
    }

    /** The second half: the header of the next package, of which one byte may have come already. */
    method TakeHeader(msg: seq<Byte>, i: nat) returns (i': nat, begun: bool)
      requires Receiving() && uncompleteSz == -1 && i < |msg|
      modifies this`headerSz, this`header0, this`header1, this`uncompleteSz, this`uncomplete
      ensures Receiving() && i < i' <= |msg|
      ensures Coming(msg[i'..]) == old(Coming(msg[i..])) && Left(msg[i'..]) == old(Left(msg[i..]))
      ensures begun ==> 0 <= uncompleteSz == uncomplete.sz && fresh(uncomplete.msg)
      ensures !begun ==> i' == |msg| && headerSz == 1 && uncomplete == old(uncomplete)
    {
      hide Length, Packages, Residue, MadeOk, ResponsesOk, Queues;
      ghost var p := Partial();
      i' := i;
      if headerSz == 0 {
        if |msg| - i == 1 {
          header0, headerSz, begun, i' := msg[i], 1, false, i + 1;
          assert Partial() + msg[i'..] == p + msg[i..];
          return;
        }
        header0, header1, i' := msg[i], msg[i + 1], i + 2;
      } else {
        header1, headerSz, i' := msg[i], 0, i + 1;
      }
      var sz := Length([header0, header1]);
      var a := new Byte[sz];
      uncomplete, uncompleteSz, begun := Response(sz, a), sz, true;
      assert Partial() + msg[i'..] == p + msg[i..];
    }

    /** Between two messages the packages of the whole stream are there, and the rest of it is under way. */
    ghost predicate StreamOk()
      requires PendingOk()
      reads this`headerSz, this`header0, this`header1, this`uncompleteSz, this`uncomplete, this`made, this`arrived, this`stream, uncomplete.msg
    {
      arrived == Packages(stream) && Partial() == Residue(stream) && uncompleteSz != 0
    }

    lemma Settled()
      requires PendingOk() && (uncompleteSz == -1 || uncompleteSz > 0)
      ensures Coming([]) == arrived && Left([]) == Partial()
    {
      assert Partial() + [] == Partial();
      Unfinished(Partial());
    }

    /** The loop of new_message. */
    method Receive(msg: seq<Byte>)
      requires Receiving()
      modifies this`headerSz, this`header0, this`header1, this`uncompleteSz, this`uncomplete
      modifies this`made, this`arrived, response, response.buffer, uncomplete.msg
      ensures Receiving() && arrived == old(Coming(msg)) && Partial() == old(Left(msg)) && uncompleteSz != 0
      ensures old(made) <= made && old(arrived) <= arrived
      ensures response.buffer == old(response.buffer) || fresh(response.buffer)
      ensures uncomplete.msg == old(uncomplete.msg) || fresh(uncomplete.msg)
    {
      hide Coming, Left, Partial, ResponsesOk, Queues, MadeOk;
      var i := 0;
      assert msg[0..] == msg;
      while true
        invariant Receiving() && i <= |msg|
        invariant Coming(msg[i..]) == old(Coming(msg)) && Left(msg[i..]) == old(Left(msg))
        invariant old(made) <= made && old(arrived) <= arrived
        invariant response.buffer == old(response.buffer) || fresh(response.buffer)
        invariant uncomplete.msg == old(uncomplete.msg) || fresh(uncomplete.msg)
        decreases |msg| - i
      {
        if uncompleteSz >= 0 {
          var full;
          i, full := TakeBody(msg, i);
          if !full {
            break;
          }
        }
        if i == |msg| {
          break;
        }
        var begun;
        i, begun := TakeHeader(msg, i);
        if !begun {
          break;
        }
      }
      assert msg[i..] == [];
      Settled();
    }

    /** new_message */
    method NewMessage(msg: seq<Byte>)
      requires Receiving() && StreamOk() && BeatOk()
      modifies this`recv, this`since, this`headerSz, this`header0, this`header1, this`uncompleteSz, this`uncomplete
      modifies this`made, this`arrived, this`stream, response, response.buffer, uncomplete.msg
      ensures Receiving() && StreamOk() && stream == old(stream) + msg && BeatOk() && since == old(since) + 1
      ensures old(made) <= made && old(arrived) <= arrived
      ensures response.buffer == old(response.buffer) || fresh(response.buffer)
      ensures uncomplete.msg == old(uncomplete.msg) || fresh(uncomplete.msg)
    {
      hide Packages, Residue, MadeOk, ResponsesOk, Queues, Length, Wrap;
      Chunks(stream, msg);
      recv, since := recv + 1, since + 1;
      stream := stream + msg;
      Receive(msg);
    }

    // ----- who gets what

    ghost predicate LogOk()
      requires Queues()
      reads this`out, this`asked, this`served, this`made, this`arrived, request, request.buffer, response
    {
      Paired(out, asked, served, made, arrived, request.Contents())
    }

    /** Before the connection closes nobody is refused, afterwards nobody waits. */
    ghost predicate ClosedOk()
      requires Queues()
      reads this`out, this`closed, request, request.buffer, response
    {
      if closed then request.Contents() == [] else Refusals(out) == []
    }

    /** What the clients see of the service. */
    ghost function Abstract(): State
      requires Receiving()
      reads this`fd, this`init, this`closed, this`since, this`stream
      reads this`headerSz, this`header0, this`header1, this`uncompleteSz, this`uncomplete, this`made, this`arrived, this`served
      reads request, request.buffer, response, response.buffer, uncomplete.msg, made
    {
      State(fd, init, closed, since, stream, request.Contents(), arrived[served..])
    }

    /** The message did to the service and to its log what it ought to do. */
    ghost predicate Did(before: State, notes: seq<Note>, m: Message)
      requires Receiving()
      reads this, request, request.buffer, response, response.buffer, uncomplete.msg, made
    {
      Abstract() == Step(before, m).0 && Notes(out) == notes + Step(before, m).1
    }

    /** Requests and packages never wait at the same time. */
    ghost predicate OneWaits()
      requires Queues()
      reads request, request.buffer, response, response.buffer
    {
      request.Contents() == [] || response.Contents() == []
    }

    /** The peer was sent what send_out accepted, framed. */
    ghost predicate WrittenOk()
      reads this`out, this`spoken
    {
      (forall k :: 0 <= k < |spoken| ==> |spoken[k]| <= 0xffff) && Written(out) == Sent(spoken)
    }

    /** The fields that heartbeat compares: equal exactly if there was a beat and no data since. */
    ghost predicate BeatOk()
      reads this`recv, this`heartbeat, this`since, this`beaten
    {
      recv == since && heartbeat == if beaten then 0 else -1
    }

    /** What holds between any two messages. */
    ghost predicate Valid()
      reads this, request, request.buffer, response, response.buffer, uncomplete.msg, made
    {
      Receiving() && StreamOk() && LogOk() && ClosedOk() && OneWaits() && WrittenOk() && BeatOk()
    }

    lemma Parts()
      requires Receiving()
      ensures |made| == |arrived| && (served < |made| ==> made[served][..] == arrived[served])
      ensures response.Contents() != [] ==> served < |made|
      ensures response.Contents() != [] ==> response.Contents()[0] == Response(made[served].Length, made[served])
      ensures response.Contents() != [] ==> response.Contents()[1..] == Wrap(made[served + 1..])
    {
      hide Ring;
    }

    /** The package at the head of its queue goes to a request. */
    method HandOver(req: Request, ghost waiting: seq<Request>)
      requires Receiving() && !response.Empty() && StreamOk() && WrittenOk()
      requires Paired(out, asked, served, made, arrived, [req] + waiting) && Refusals(out) == []
      modifies this`out, this`served, response`head
      ensures Receiving() && StreamOk() && WrittenOk() && served == old(served) + 1 <= |arrived|
      ensures Notes(out) == old(Notes(out)) + [Package(req, arrived[old(served)])]
      ensures Paired(out, asked, served, made, arrived, waiting) && Refusals(out) == []
    {
      hide Deliveries, Refusals, Freed, Written, Sent, Packages, Residue, Ring, Length, Paired, PendingOk, Wrap, Notes, SizeOk;
      Parts();
      var _, resp := response.Pop();
      ServeStep(out, asked, served, made, arrived, req, waiting);
      Noted(out, Deliver(req, resp.msg, resp.msg[..]));
      out := out + [Deliver(req, resp.msg, resp.msg[..])];
      served := served + 1;
    }

    /** The body of the loop of response. */
    method ServeOne()
      requires Receiving() && StreamOk() && LogOk() && ClosedOk() && WrittenOk() && !request.Empty() && !response.Empty()
      modifies this`out, this`served, request`head, response`head
      ensures Receiving() && StreamOk() && LogOk() && ClosedOk() && WrittenOk()
      ensures old(request.Contents()) == [old(request.Contents())[0]] + request.Contents()
      ensures served == old(served) + 1 <= |arrived|
      ensures Notes(out) == old(Notes(out)) + [Package(old(request.Contents())[0], arrived[old(served)])]
    {
      hide Deliveries, Refusals, Freed, Written, Sent, Packages, Residue, Ring, Length, Paired, PendingOk, MadeOk, Wrap;
      var _, req := request.Pop();
      HandOver(req, request.Contents());
    }

    /** response */
    method Respond()
      requires Receiving() && StreamOk() && LogOk() && ClosedOk() && WrittenOk() && BeatOk()
      modifies this`out, this`served, request`head, response`head
      ensures Valid() && served <= |arrived|
      ensures Notes(out) == old(Notes(out) + Pairs(request.Contents(), arrived[served..]))
      ensures (request.Contents(), arrived[served..]) == old(Unpaired(request.Contents(), arrived[served..]))
    {
      hide StreamOk, LogOk, WrittenOk, ClosedOk, ResponsesOk, MadeOk, PendingOk, Ring, Notes;
      ServedBound();
      while !request.Empty()
        invariant Receiving() && StreamOk() && LogOk() && ClosedOk() && WrittenOk() && served <= |arrived|
        invariant Notes(out) + Pairs(request.Contents(), arrived[served..]) ==
                  old(Notes(out) + Pairs(request.Contents(), arrived[served..]))
        invariant Unpaired(request.Contents(), arrived[served..]) == old(Unpaired(request.Contents(), arrived[served..]))
        decreases |request.Contents()|
      {
        if response.Empty() {
          AllServed();
          break;
        }
        ghost var notes, w, r := Notes(out), request.Contents(), arrived[served..];
        ServeOne();
        assert r[1..] == arrived[served..] && w[1..] == request.Contents();
        Assoc(notes, [Package(w[0], r[0])], Pairs(w[1..], r[1..]));
      }
      assert Notes(out) + [] == Notes(out);
    }

    lemma ServedBound()
      requires Receiving()
      ensures served <= |arrived|
    {
    }

    lemma AllServed()
      requires Receiving() && response.Contents() == []
      ensures served <= |arrived| && arrived[served..] == []
    {
    }

    /** Any other message to skynet. */
    method Emit(e: Event)
      requires Valid() && !e.Deliver? && !e.Refuse? && !e.Free? && !e.Write?
      modifies this`out
      ensures Valid() && out == old(out) + [e] && Notes(out) == old(Notes(out)) + [Other(e)] && Abstract() == old(Abstract())
    {
      Noted(out, e);
      hide Deliveries, Refusals, Freed, Written, Sent, Packages, Residue, Ring, Length, Paired, PendingOk, MadeOk, Wrap;
      OtherStep(out, asked, served, made, arrived, request.Contents(), e);
      out := out + [e];
    }

    /** The body of the loop of service_exit. */
    method RefuseOne()
      requires Receiving() && StreamOk() && LogOk() && WrittenOk() && !request.Empty()
      modifies this`out, request`head
      ensures Receiving() && StreamOk() && LogOk() && WrittenOk()
      ensures old(request.Contents()) == [old(request.Contents())[0]] + request.Contents()
      ensures Notes(out) == old(Notes(out)) + [Other(Refuse(old(request.Contents())[0]))]
    {
      hide Deliveries, Refusals, Freed, Written, Sent, Packages, Residue, Ring, Length, Paired, PendingOk, MadeOk, Wrap;
      var _, req := request.Pop();
      RefuseStep(out, asked, served, made, arrived, req, request.Contents());
      Noted(out, Refuse(req));
      out := out + [Refuse(req)];
    }

    /** service_exit */
    method ServiceExit()
      requires Valid()
      modifies this`closed, this`out, request`head
      ensures Valid() && closed && request.Contents() == []
      ensures Notes(out) == old(Notes(out) + AllRefused(request.Contents())) + [Other(Manager("CLOSED"))] + [Other(Exit)]
    {
      hide Deliveries, Refusals, Freed, Written, Sent, Packages, Residue, Ring, Length, MadeOk, ResponsesOk, PendingOk, Notes;
      closed := true;
      while !request.Empty()
        invariant closed && Receiving() && StreamOk() && LogOk() && WrittenOk()
        invariant Notes(out) + AllRefused(request.Contents()) == old(Notes(out) + AllRefused(request.Contents()))
        decreases |request.Contents()|
      {
        ghost var notes, w := Notes(out), request.Contents();
        RefuseOne();
        assert w[1..] == request.Contents();
        Assoc(notes, [Other(Refuse(w[0]))], AllRefused(w[1..]));
      }
      assert Notes(out) + [] == Notes(out);
      Emit(Manager("CLOSED"));
      Emit(Exit);
    }

    /** What report_info reports, in terms of the stream. */
    lemma InfoIs(req: Request)
      requires Valid()
      ensures InfoOf(Abstract(), req) == Info(req, |request.Contents()|, |response.Contents()|,
        if uncompleteSz > 0 then uncompleteSz else -1, if headerSz != 0 then 0 else uncomplete.sz)
    {
      hide Ring, Packages, Residue, LogOk, ClosedOk, OneWaits, WrittenOk;
      assert |response.Contents()| == |arrived[served..]|;
      var r := Residue(stream);
      assert Partial() == r;
      if uncompleteSz >= 0 {
        assert r[0] == header0 && r[1] == header1;
      }
    }

    /** report_info; while nothing is under way it reports -1 and the size of the last package. */
    method ReportInfo(req: Request)
      requires Valid()
      modifies this`out
      ensures Valid()
      ensures out == old(out) + [InfoOf(Abstract(), req)] && Did(old(Abstract()), old(Notes(out)), Text('I', req))
    {
      hide Deliveries, Refusals, Freed, Written, Sent, Packages, Residue, Ring, Length, Notes, InfoOf;
      InfoIs(req);
      var n: int, sz: int;
      if headerSz != 0 {
        n, sz := -1, 0;
      } else if uncompleteSz == 0 {
        n, sz := 0, 0;
      } else {
        n, sz := uncompleteSz, uncomplete.sz;
      }
      Emit(Info(req, request.Size(), response.Size(), n, sz));
    }

    /** A request after the connection closed. */
    method AskLate(req: Request)
      requires Valid() && closed
      modifies this`out, this`asked
      ensures Valid() && asked == old(asked) + [req] && Did(old(Abstract()), old(Notes(out)), Text('R', req))
    {
      hide Deliveries, Refusals, Freed, Written, Sent, Packages, Residue, Ring, Length, Paired, PendingOk, MadeOk, Wrap;
      AskStep(out, asked, served, made, arrived, [], req);
      assert [] + [req] == [req] + [];
      RefuseStep(out, asked + [req], served, made, arrived, req, []);
      Noted(out, Refuse(req));
      asked := asked + [req];
      out := out + [Refuse(req)];
    }

    /** A request while packages wait. */
    method AskReady(req: Request)
      requires Valid() && !closed && !response.Empty()
      modifies this`out, this`asked, this`served, response`head
      ensures Valid() && asked == old(asked) + [req] && Did(old(Abstract()), old(Notes(out)), Text('R', req))
    {
      hide Deliveries, Refusals, Freed, Written, Sent, Packages, Residue, Ring, Length, Paired, PendingOk, MadeOk, Wrap;
      assert request.Empty();
      AskStep(out, asked, served, made, arrived, [], req);
      assert [] + [req] == [req] + [];
      asked := asked + [req];
      SomeReady();
      HandOver(req, []);
    }

    /** A request before its package came. */
    method AskEarly(req: Request)
      requires Valid() && !closed && response.Empty()
      modifies this`asked, request, request.buffer
      ensures Valid() && asked == old(asked) + [req] && Did(old(Abstract()), old(Notes(out)), Text('R', req))
      ensures request.buffer == old(request.buffer) || fresh(request.buffer)
    {
      hide Deliveries, Refusals, Freed, Written, Sent, Packages, Residue, Ring, Length, Paired, PendingOk, MadeOk, Wrap;
      AskStep(out, asked, served, made, arrived, request.Contents(), req);
      asked := asked + [req];
      NoneReady();
      request.Push(req);
    }

    lemma SomeReady()
      requires Receiving() && response.Contents() != []
      ensures served < |arrived| && arrived[served..] == [arrived[served]] + arrived[served + 1..]
    {
    }

    lemma NoneReady()
      requires Receiving() && response.Contents() == []
      ensures served == |arrived| && arrived[served..] == []
    {
    }

    /** The branch of command for a request. */
    method Ask(req: Request)
      requires Valid()
      modifies this`out, this`asked, this`served, request, request.buffer, response`head
      ensures Valid() && asked == old(asked) + [req] && Did(old(Abstract()), old(Notes(out)), Text('R', req))
      ensures request.buffer == old(request.buffer) || fresh(request.buffer)
    {
      hide LogOk, StreamOk, WrittenOk, ClosedOk, ResponsesOk, MadeOk, PendingOk;
      if closed {
        AskLate(req);
      } else if !response.Empty() {
        AskReady(req);
      } else {
        AskEarly(req);
      }
    }

    /** command */
    method Command(kind: char, req: Request)
      requires Valid()
      modifies this`out, this`asked, this`served, request, request.buffer, response`head
      ensures Valid() && asked == old(asked) + if kind == 'R' then [req] else []
      ensures Did(old(Abstract()), old(Notes(out)), Text(kind, req))
      ensures kind == 'K' ==> out == old(out) + [Shutdown]
      ensures kind == 'I' ==> out == old(out) + [InfoOf(Abstract(), req)]
      ensures kind != 'R' && kind != 'K' && kind != 'I' ==> out == old(out) + [Reject(req)]
      ensures request.buffer == old(request.buffer) || fresh(request.buffer)
    {
      hide Receiving, StreamOk, LogOk, ClosedOk, OneWaits, WrittenOk;
      if kind == 'R' {
        Ask(req);
      } else if kind == 'K' {
        Emit(Shutdown);
      } else if kind == 'I' {
        ReportInfo(req);
      } else {
        Emit(Reject(req));
      }
    }

    /** The branch of socket_message for data. */
    method TakeData(bytes: seq<Byte>)
      requires Valid()
      modifies this`recv, this`since, this`headerSz, this`header0, this`header1, this`uncompleteSz, this`uncomplete
      modifies this`made, this`arrived, this`stream, this`out, this`served
      modifies request`head, response, response.buffer, uncomplete.msg
      ensures Valid() && stream == old(stream) + bytes && since == old(since) + 1
      ensures Did(old(Abstract()), old(Notes(out)), Socket(Data(bytes)))
      ensures response.buffer == old(response.buffer) || fresh(response.buffer)
      ensures uncomplete.msg == old(uncomplete.msg) || fresh(uncomplete.msg)
    {
      hide PendingOk, MadeOk, ResponsesOk, SizeOk, StreamOk, WrittenOk, Ring, Written, Sent;
      hide Deliveries, Refusals, Freed, Packages, Residue, Paired, Pairs, Unpaired, Notes;
      ghost var waiting, made0, arrived0, stream0 := request.Contents(), made, arrived, stream;
      ServedBound();
      StreamIs();
      NewMessage(bytes);
      StreamIs();
      ArriveStep(out, asked, served, made0, arrived0, waiting, made, arrived);
      MoreReady(arrived0, stream0, bytes, served, arrived);
      Respond();
    }

    lemma StreamIs()
      requires Receiving() && StreamOk()
      ensures arrived == Packages(stream) && |made| == |arrived| && served <= |arrived|
    {
    }

    lemma MoreReady(arrived0: seq<seq<Byte>>, stream0: seq<Byte>, bytes: seq<Byte>, n: nat, arrived1: seq<seq<Byte>>)
      requires arrived0 == Packages(stream0) && arrived1 == Packages(stream0 + bytes) && n <= |arrived0|
      ensures n <= |arrived1| && arrived1[n..] == arrived0[n..] + Packages(Residue(stream0) + bytes)
    {
      hide Packages, Residue;
      Chunks(stream0, bytes);
    }

    /** The branches of socket_message for a closed or failed connection. */
    method TakeClose(id: int)
      requires Valid()
      modifies this`closed, this`init, this`out, this`served, request`head, response`head
      ensures Valid() && (closed <==> old(closed) || id == fd)
      ensures Did(old(Abstract()), old(Notes(out)), Socket(Close(id)))
    {
      hide Receiving, StreamOk, LogOk, ClosedOk, OneWaits, WrittenOk, BeatOk, AllRefused, Notes;
      if id != fd {
        assert Notes(out) + [] == Notes(out);
        return;
      }
      ghost var notes, refused := Notes(out), AllRefused(Abstract().waiting);
      var first := !init;
      if first {
        Tell("FAIL");
      }
      ShutOut();
      JoinNotes(notes, if first then [Other(Manager("FAIL"))] else [], refused, Other(Manager("CLOSED")), Other(Exit));
    }

    lemma JoinNotes(a: seq<Note>, b: seq<Note>, c: seq<Note>, d: Note, e: Note)
      ensures a + b + c + [d] + [e] == a + (b + c + [d, e]) && a + [] == a
    {
    }

    /** The connection's fate is reported to the manager, once. */
    method Tell(text: string)
      requires Valid()
      modifies this`out, this`init
      ensures Valid() && Notes(out) == old(Notes(out)) + [Other(Manager(text))]
      ensures Abstract() == old(Abstract()).(init := true)
    {
      hide Deliveries, Refusals, Freed, Written, Sent, Packages, Residue, Ring, Length, Paired, PendingOk, MadeOk, Wrap, Notes;
      Emit(Manager(text));
      init := true;
    }

    /** Whoever can be served still is, and the others are refused. */
    method ShutOut()
      requires Valid()
      modifies this`closed, this`out, this`served, request`head, response`head
      ensures Valid() && Abstract() == old(Abstract()).(closed := true, waiting := [])
      ensures Notes(out) == old(Notes(out) + AllRefused(Abstract().waiting)) + [Other(Manager("CLOSED"))] + [Other(Exit)]
    {
      hide PendingOk, MadeOk, ResponsesOk, SizeOk, StreamOk, LogOk, ClosedOk, WrittenOk, Ring, Notes;
      hide Pairs, Unpaired, AllRefused, OneWaits;
      NothingPairs();
      assert Notes(out) + [] == Notes(out);
      Respond();
      ServiceExit();
    }

    /** Between messages there is nobody to serve. */
    lemma NothingPairs()
      requires Valid()
      ensures served <= |arrived| && Pairs(request.Contents(), arrived[served..]) == []
      ensures Unpaired(request.Contents(), arrived[served..]) == (request.Contents(), arrived[served..])
    {
      if response.Contents() == [] {
        NoneReady();
      } else {
        SomeReady();
      }
    }

    /** socket_message (without its log messages) */
    method SocketMessage(event: SocketEvent)
      requires Valid()
      modifies this`recv, this`since, this`headerSz, this`header0, this`header1, this`uncompleteSz, this`uncomplete
      modifies this`made, this`arrived, this`stream, this`out, this`served, this`closed, this`init
      modifies request`head, response, response.buffer, uncomplete.msg
      ensures Valid() && stream == old(stream) + BytesOf(Socket(event)) && (closed <==> old(closed) || Closes(Socket(event), fd))
      ensures Did(old(Abstract()), old(Notes(out)), Socket(event))
      ensures since == SinceAfter(old(since), Socket(event))
      ensures response.buffer == old(response.buffer) || fresh(response.buffer)
      ensures uncomplete.msg == old(uncomplete.msg) || fresh(uncomplete.msg)
    {
      hide Receiving, StreamOk, LogOk, ClosedOk, OneWaits, WrittenOk, BeatOk, Notes;
      assert Notes(out) + [] == Notes(out);
      match event
      case Connect(id) =>
        if !init && id == fd {
          Tell("SUCC");
        }
      case Close(id) =>
        TakeClose(id);
      case SocketError(id) =>
        TakeClose(id);
      case Data(bytes) =>
        TakeData(bytes);
      case Warning =>
      case Ignored =>
    }

    /** heartbeat: without data since the last one the connection is shut down, otherwise the timer starts again. */
    method Heartbeat()
      requires Valid()
      modifies this`recv, this`heartbeat, this`since, this`beaten, this`out
      ensures Valid() && since == 0 && beaten
      ensures out == old(out) +
        if !old(beaten) || old(since) > 0 then [Timeout] else if closed then [] else [Shutdown]
      ensures Notes(out) == old(Notes(out)) +
        if !old(beaten) || old(since) > 0 then [Other(Timeout)] else if closed then [] else [Other(Shutdown)]
      ensures Abstract() == old(Abstract()).(since := 0)
      ensures old(beaten) ==> Did(old(Abstract()), old(Notes(out)), Timer)
    {
      hide Receiving, StreamOk, LogOk, ClosedOk, OneWaits, WrittenOk, Notes;
      assert Notes(out) + [] == Notes(out);
      if recv == heartbeat {
        if !closed {
          Emit(Shutdown);
        }
      } else {
        Restart();
        Emit(Timeout);
      }
    }

    /** P->heartbeat = P->recv = 0 */
    method Restart()
      requires Valid()
      modifies this`recv, this`heartbeat, this`since, this`beaten
      ensures Valid() && since == 0 && beaten && Abstract() == old(Abstract()).(since := 0)
    {
      hide Deliveries, Refusals, Freed, Written, Sent, Packages, Residue, Ring, Length, Paired, PendingOk, MadeOk, Wrap, Notes;
      heartbeat := 0;
      recv := 0;
      since, beaten := 0, true;
    }

    /** send_out */
    method SendOut(msg: seq<Byte>)
      requires Valid()
      modifies this`out, this`spoken
      ensures Valid() && spoken == old(spoken) + SayingOf(Client(msg))
      ensures out == old(out) + if |msg| <= 0xffff then [Write(Header(|msg|) + msg)] else []
    {
      hide Deliveries, Refusals, Freed, Written, Sent, Packages, Residue, Ring, Length, Paired, PendingOk, MadeOk, Wrap;
      if |msg| > 0xffff {
        return;
      }
      SentMore(spoken, msg);
      var e := Write(Header(|msg|) + msg);
      OtherStep(out, asked, served, made, arrived, request.Contents(), e);
      assert Sent(spoken) + Header(|msg|) + msg == Sent(spoken) + (Header(|msg|) + msg);
      out := out + [e];
      spoken := spoken + [msg];
    }

    method Speak(msg: seq<Byte>)
      requires Valid()
      modifies this`out, this`spoken
      ensures Valid() && spoken == old(spoken) + SayingOf(Client(msg)) && Did(old(Abstract()), old(Notes(out)), Client(msg))
    {
      hide Receiving, StreamOk, LogOk, ClosedOk, OneWaits, WrittenOk, BeatOk, Notes;
      assert Notes(out) + [] == Notes(out);
      if |msg| <= 0xffff {
        Noted(out, Write(Header(|msg|) + msg));
      }
      SendOut(msg);
      assert |msg| > 0xffff ==> out == old(out) + [] == old(out);
    }

    /** message_handler */
    method MessageHandler(m: Message)
      requires Valid() && beaten
      modifies this, request, request.buffer, response, response.buffer, uncomplete.msg
      ensures Valid() && fd == old(fd) && (closed <==> old(closed) || Closes(m, fd))
      ensures stream == old(stream) + BytesOf(m) && asked == old(asked) + RequestOf(m)
      ensures spoken == old(spoken) + SayingOf(m)
      ensures Did(old(Abstract()), old(Notes(out)), m)
      ensures since == SinceAfter(old(since), m) && beaten
      ensures request.buffer == old(request.buffer) || fresh(request.buffer)
      ensures response.buffer == old(response.buffer) || fresh(response.buffer)
      ensures uncomplete.msg == old(uncomplete.msg) || fresh(uncomplete.msg)
    {
      hide Receiving, StreamOk, LogOk, ClosedOk, OneWaits, WrittenOk, BeatOk, Notes, Abstract, OnText, OnSocket;
      assert Notes(out) + [] == Notes(out);
      match m
      case Text(kind, req) =>
        Command(kind, req);
      case Client(bytes) =>
        Speak(bytes);
      case Timer =>
        Heartbeat();
      case Socket(event) =>
        SocketMessage(event);
      case Error =>
      case Unsupported(req) =>
        if req.session > 0 {
          Turn(req);
        }
    }

    method Turn(req: Request)
      requires Valid()
      modifies this`out
      ensures Valid() && out == old(out) + [Reject(req)] && Notes(out) == old(Notes(out)) + [Other(Reject(req))] && Abstract() == old(Abstract())
    {
      hide Receiving, StreamOk, LogOk, ClosedOk, OneWaits, WrittenOk, BeatOk, Notes;
      Emit(Reject(req));
    }

    /** All buffers there ever were, in order. */
    ghost function Everything(): seq<array<Byte>>
      requires PendingOk()
      reads this`headerSz, this`header0, this`header1, this`uncompleteSz, this`uncomplete, this`made
    {
      made + if uncompleteSz >= 0 then [uncomplete.msg] else []
    }

    lemma SoFar()
      requires Valid()
      ensures Outcome(out, stream, asked, closed)
      ensures Written(out) == Sent(spoken)
    {
      hide Deliveries, Freed, HandedOver, Refusals, Written, Packages, Residue, Ring, Length, PendingOk;
    }

    lemma Owned()
      requires Valid()
      ensures HandedOver(out) == made[..served] && Freed(out) == []
      ensures Once(Everything())
    {
      HandedOverAt(out);
      hide Deliveries, Freed, HandedOver, Refusals, Written, Packages, Residue, StreamOk;
    }

    lemma WrapFirst(n: nat)
      requires n < |made|
      ensures Wrap(made[n..]) == [Response(made[n].Length, made[n])] + Wrap(made[n + 1..])
    {
      assert made[n..][0] == made[n] && made[n..][1..] == made[n + 1..];
    }

    /** The body of the loop of package_release. */
    method FreeOne(ghost n: nat)
      requires Queues() && n < |made| && response.Contents() == Wrap(made[n..])
      modifies this`out, response`head
      ensures Queues() && response.Contents() == Wrap(made[n + 1..])
      ensures Freed(out) == old(Freed(out)) + [made[n]] && HandedOver(out) == old(HandedOver(out))
    {
      hide Deliveries, Freed, HandedOver, Refusals, Written, Ring, Queue.Contents, Queue.Valid, Wrap;
      WrapFirst(n);
      var _, resp := response.Pop();
      Appended(out, Free(resp.msg));
      out := out + [Free(resp.msg)];
    }

    /** The loop of package_release. */
    method FreeAll()
      requires Queues() && served <= |made| && response.Contents() == Wrap(made[served..]) && Freed(out) == []
      modifies this`out, response`head
      ensures Freed(out) == made[served..] && HandedOver(out) == old(HandedOver(out))
    {
      hide Freed, HandedOver, Ring, Wrap, Queue.Contents, Queue.Valid;
      ghost var n: nat := served;
      while !response.Empty()
        invariant Queues() && served <= n <= |made| && response.Contents() == Wrap(made[n..])
        invariant Freed(out) == made[served..n] && HandedOver(out) == old(HandedOver(out))
        decreases |response.Contents()|
      {
        FreeOne(n);
        n := n + 1;
      }
    }

    /** package_release: what was not handed over is freed, so that in all each buffer is handed over or freed once. */
    method Release()
      requires Valid()
      modifies this`out, response`head
      ensures HandedOver(out) == old(HandedOver(out))
      ensures HandedOver(out) + Freed(out) == old(Everything())
      ensures Once(old(Everything()))
    {
      hide Freed, HandedOver, Once, Paired, Wrap, Queue.Contents, Queue.Valid, Partial, MadeOk, WrittenOk;
      Owned();
      FreeAll();
      if uncompleteSz >= 0 {
        FreePending();
      }
    }

    method FreePending()
      requires uncomplete.msg != null
      modifies this`out
      ensures Freed(out) == old(Freed(out)) + [uncomplete.msg] && HandedOver(out) == old(HandedOver(out))
    {
      hide Freed, HandedOver;
      Appended(out, Free(uncomplete.msg));
      out := out + [Free(uncomplete.msg)];
    }
  }

  lemma NoMessages(fd: int)
    ensures StreamOf([]) == [] && AskedOf([]) == [] && SpokenOf([]) == [] && SinceBeat([]) == 0 && !ClosedIn([], fd)
    ensures Script(fd, []) == (State(fd, false, false, 0, [], [], []), [Other(Timeout)])
  {
  }

  lemma NextMessage(fd: int, msgs: seq<Message>, i: nat)
    requires i < |msgs|
    ensures StreamOf(msgs[..i + 1]) == StreamOf(msgs[..i]) + BytesOf(msgs[i])
    ensures AskedOf(msgs[..i + 1]) == AskedOf(msgs[..i]) + RequestOf(msgs[i])
    ensures SpokenOf(msgs[..i + 1]) == SpokenOf(msgs[..i]) + SayingOf(msgs[i])
    ensures SinceBeat(msgs[..i + 1]) == SinceAfter(SinceBeat(msgs[..i]), msgs[i])
    ensures ClosedIn(msgs[..i + 1], fd) <==> ClosedIn(msgs[..i], fd) || Closes(msgs[i], fd)
    ensures var before := Script(fd, msgs[..i]); var r := Step(before.0, msgs[i]);
      Script(fd, msgs[..i + 1]) == (r.0, before.1 + r.1)
  {
    hide Step;
    assert msgs[..i + 1][..i] == msgs[..i];
  }

  /** A whole run: package_create, package_init, then any messages. */
  method Run(manager: nat, fd: int, msgs: seq<Message>) returns (P: Package)
    ensures P.Valid() && P.since == SinceBeat(msgs) && P.beaten
    ensures P.Abstract() == Script(fd, msgs).0 && Notes(P.out) == Script(fd, msgs).1
    ensures Outcome(P.out, StreamOf(msgs), AskedOf(msgs), ClosedIn(msgs, fd))
    ensures Written(P.out) == Sent(SpokenOf(msgs)) && Packages(Written(P.out)) == SpokenOf(msgs)
  {
    hide Package.Receiving, Package.StreamOk, Package.LogOk, Package.ClosedOk, Package.OneWaits, Package.WrittenOk, Package.BeatOk;
    hide Outcome, Notes, Step, Script, Packages, Residue, Sent;
    hide StreamOf, AskedOf, SpokenOf, SinceBeat, ClosedIn;
    P := new Package(manager, fd);
    P.Heartbeat();
    NoMessages(fd);
    assert msgs[..0] == [];
    for i := 0 to |msgs|
      invariant P.Valid() && P.fd == fd && (P.closed <==> ClosedIn(msgs[..i], fd))
      invariant P.stream == StreamOf(msgs[..i]) && P.asked == AskedOf(msgs[..i]) && P.spoken == SpokenOf(msgs[..i])
      invariant P.since == SinceBeat(msgs[..i]) && P.beaten
      invariant P.Abstract() == Script(fd, msgs[..i]).0 && Notes(P.out) == Script(fd, msgs[..i]).1
      invariant fresh(P) && fresh(P.request) && fresh(P.request.buffer) && fresh(P.response) && fresh(P.response.buffer)
      invariant P.uncomplete.msg == null || fresh(P.uncomplete.msg)
    {
      NextMessage(fd, msgs, i);
      P.MessageHandler(msgs[i]);
    }
    assert msgs[..|msgs|] == msgs;
    P.SoFar();
    PackagesOfSent(SpokenOf(msgs));
  }

  /**
   The i-th request that was answered with data got the i-th package of the stream. While the connection is open
   as many are answered as there are requests and packages for; after it closed the others have been refused, in order.
   */
  ghost predicate Outcome(out: seq<Event>, stream: seq<Byte>, asked: seq<Request>, closed: bool)
  {
    var n := |Deliveries(out)|;
    && n <= |asked| && n <= |Packages(stream)|
    && (forall k :: 0 <= k < n ==>
      Deliveries(out)[k].Deliver? && Deliveries(out)[k].to == asked[k] && Deliveries(out)[k].bytes == Packages(stream)[k])
    && (closed ==> Refusals(out) == asked[n..])
    && (!closed ==> Refusals(out) == [] && (n == |asked| || n == |Packages(stream)|))
  }

  /** A header and as many bytes as it says. */
  ghost predicate IsWhole(p: seq<Byte>, body: seq<Byte>)
  {
    |p| >= 2 && Length(p[..2]) == |body| && p == p[..2] + body
  }

  lemma BodyWhole(p: seq<Byte>, h: seq<Byte>, had: seq<Byte>, piece: seq<Byte>, body: seq<Byte>)
    requires |h| == 2 && p == h + had && body == had + piece && Length(h) == |body|
    ensures IsWhole(p + piece, body)
  {
    hide Length;
    assert (p + piece)[..2] == h;
  }

  lemma Whole(p: seq<Byte>, msg: seq<Byte>, i: nat, i': nat, body: seq<Byte>)
    requires i <= i' <= |msg| && IsWhole(p + msg[i..i'], body)
    ensures Packages(p + msg[i..]) == [body] + Packages(msg[i'..])
    ensures Residue(p + msg[i..]) == Residue(msg[i'..])
  {
    var q := p + msg[i..i'];
    assert p + msg[i..] == q[..2] + body + msg[i'..];
    First(q[..2], body, msg[i'..]);
  }

  /** memcpy */
  method Copy(a: array<Byte>, off: nat, msg: seq<Byte>, i: nat, n: nat)
    requires off + n <= a.Length && i + n <= |msg|
    modifies a
    ensures a[..off + n] == old(a[..off]) + msg[i..i + n]
    ensures off + n == a.Length ==> a[..] == old(a[..off]) + msg[i..i + n]
  {
    forall k | 0 <= k < n {
      a[off + k] := msg[i + k];
    }
  }
}
