/**
 * The code's own objects carrying packages from one connection to another: the send side of one with its write_op,
 * the receive side of the other with its read_streambuf_op, and the bytes between them. Every step they make is a
 * step of Links.
 */
module Pipes {
  import opened Bytes
  import opened StreamBuffers
  import opened Streams
  import opened ReadOps
  import opened Connections
  import WriteOps
  import Links
  import Peers

  // ----- the send side -----

  /** A sender whose outstanding write has got n bytes on the wire. */
  function Progress(s: Links.Sender, n: nat): Links.Sender {
    if s.writing.None? then s else s.(writing := Some(s.writing.value.(written := n)))
  }

  /** Nor does the completion handler look at how the write went on. */
  lemma ProgressForgotten(s: Links.Sender, n: nat)
    ensures Links.OnWritten(Progress(s, n)) == Links.OnWritten(s)
  {
  }

  lemma SliceOfWindow(s: seq<byte>, from: nat, max: nat, n: nat)
    requires from <= |s| && n <= Min(max, |s| - from)
    ensures s[from..][..Min(max, |s| - from)][..n] == s[from..from + n]
  {
  }

  /** The transport takes the first n bytes of the window. */
  method Take(op: WriteOps.WriteOp, n: nat) returns (bs: seq<byte>)
    requires op.Valid() && op.writing.Some? && 0 < n <= |op.writing.value|
    modifies op`totalTransferred, op`writing, op`completion, op.buffers
    ensures op.Valid() && n <= DEFAULT_MAX_TRANSFER_SIZE && op.totalTransferred == old(op.totalTransferred) + n
    ensures bs == op.whole[old(op.totalTransferred)..op.totalTransferred]
    ensures op.completion.Some? <==> op.totalTransferred == |op.whole|
  {
    bs := op.writing.value[..n];
    SliceOfWindow(op.whole, op.totalTransferred, DEFAULT_MAX_TRANSFER_SIZE, n);
    op.OnWriteSome(false, n);
  }

  /** The part of a connection that writes, with the operation it has started. */
  class Outgoing {
    const conn: Connection
    var op: WriteOps.WriteOp?

    ghost function Owned(): set<object>
      reads this
    {
      if op == null then {} else {op, op.buffers}
    }

    ghost predicate Valid()
      reads this, conn, Owned()
    {
      && conn.Valid()
      && (conn.writing.Some? <==> op != null)
      && (op != null ==>
            && op.Valid() && op.writing.Some? && op.totalTransferred < |op.whole|
            && op.whole == Links.Frame(BodyOf(conn.writing.value)))
    }

    ghost function Sender(): Links.Sender
      requires Valid()
      reads this, conn, Owned()
    {
      Progress(conn.Sender(), if op == null then 0 else op.totalTransferred)
    }

    constructor (c: Connection)
      requires c.Valid() && c.writing.None?
      ensures Valid() && conn == c && op == null && Sender() == c.Sender()
    {
      conn, op := c, null;
    }

    /** async_write, as send_package calls it. */
    method StartWrite()
      requires conn.Valid() && conn.writing.Some?
      modifies this`op
      ensures Valid() && fresh(Owned()) && Sender() == conn.Sender()
    {
      op := new WriteOps.WriteOp(conn.writing.value.parts);
    }

    method Dispatch(buffer: StreamBuf)
      requires Valid() && buffer.Valid() && buffer.Size() <= SIZE_MAX
      modifies this`op, conn`socketLocked, conn`packages, conn`writing
      ensures Valid() && (op == old(op) || fresh(Owned()))
      ensures Sender() == Links.OnDispatch(old(Sender()), buffer.Contents())
    {
      var locked := conn.socketLocked;
      conn.Dispatch(buffer);
      if !locked {
        StartWrite();
      }
    }

    /** The transport has accepted n bytes of what the operation offers; with the last byte of all, the handler. */
    method Accepts(n: nat) returns (bs: seq<byte>)
      requires Valid() && op != null && 0 < n <= |op.writing.value|
      modifies this`op, conn`socketLocked, conn`packages, conn`writing, conn`closedEmitted, conn`errorEmitted, Owned()
      ensures Valid() && (op == old(op) || op == null || fresh(Owned()))
      ensures var s := old(Sender());
              && s.writing.Some?
              && var w := s.writing.value;
                 && w.written + n <= |Links.Frame(w.body)| && n <= DEFAULT_MAX_TRANSFER_SIZE
                 && bs == Links.Frame(w.body)[w.written..w.written + n]
                 && Sender() == if w.written + n == |Links.Frame(w.body)| then Links.OnWritten(s)
                    else Progress(s, w.written + n)
    {
      ProgressForgotten(conn.Sender(), op.totalTransferred);
      bs := Take(op, n);
      if op.completion.Some? {
        Finish(NoError);
      }
    }

    /** The transport reports an error instead. */
    method Fails(err: Error)
      requires Valid() && op != null && err != NoError
      modifies this`op, conn`socketLocked, conn`packages, conn`writing, conn`closedEmitted, conn`errorEmitted, Owned()
      ensures Valid() && op == null
      ensures Sender() == Links.OnWriteError(old(Sender()))
    {
      op.OnWriteSome(true, 0);
      Finish(err);
    }

    /** The completion handler, and the operation it starts, if any. */
    method Finish(err: Error)
      requires conn.Valid() && conn.writing.Some?
      modifies this`op, conn`socketLocked, conn`packages, conn`writing, conn`closedEmitted, conn`errorEmitted
      ensures Valid() && (op == null || fresh(Owned()))
      ensures Sender() == if err == NoError then Links.OnWritten(old(conn.Sender()))
              else Links.OnWriteError(old(conn.Sender()))
      ensures err != NoError ==> op == null
    {
      conn.WriteHandler(err);
      op := null;
      if conn.writing.Some? {
        StartWrite();
      }
    }
  }

  // ----- the receive side -----

  function SizeOf(asked: ReadOp): nat {
    match asked
    case SizeRead => 8
    case BodyRead(n) => n
  }

  /** The receiver of Links when the connection waits for this and has so many bytes of it. */
  ghost predicate Matches(asked: ReadOp, r: Links.Receiver, got: seq<byte>) {
    match asked
    case SizeRead => r == Links.ReadingSize(got)
    case BodyRead(n) => r.ReadingBody? && r.got == got && |r.header| == 8 && FromLittleEndian(r.header) == n
  }

  lemma MatchesMore(asked: ReadOp, r: Links.Receiver, got: seq<byte>, data: seq<byte>)
    requires Matches(asked, r, got) && |got| + |data| <= SizeOf(asked)
    ensures Matches(asked, Links.AddBytes(r, data), got + data)
    ensures Links.Wanted(r) == SizeOf(asked) - |got|
    ensures Links.Wanted(Links.AddBytes(r, data)) == SizeOf(asked) - |got| - |data|
  {
  }

  /** What has become of a connection's packages and callbacks when a body is complete. */
  ghost predicate Delivered(p: Peers.Peer, p': Peers.Peer, body: Option<Links.Body>, origin: Peers.Origin,
                            stream: IStream?)
    reads stream
  {
    if body.None? then stream == null && p'.(origins := []) == p.(origins := [])
    else
      && stream != null && p' == Peers.DeliverUnder(p, stream.uid, body.value, origin)
      && (|body.value| >= 16 ==> stream.uid == Peers.UidOf(body.value) && stream.command == Peers.CommandOf(body.value))
  }

  /** The part of a connection that reads, with the operation it has started. */
  class Incoming {
    const conn: Connection
    var op: ReadStreambufOp?
    ghost var receiver: Links.Receiver

    ghost function Owned(): set<object>
      reads this, op, if op == null then {} else {op.streambuf}
    {
      if op == null then {} else var o: ReadStreambufOp := op; {o, o.streambuf, o.streambuf.buffer}
    }

    /** The operation serves what the connection waits for, with a stream buffer of its own. */
    ghost predicate Serves(asked: ReadOp)
      requires op != null
      reads this, Owned()
    {
      && op.Valid() && op.before == [] && op.streambuf.maxSize == SIZE_MAX
      && op.size == SizeOf(asked) <= SIZE_MAX && Matches(asked, receiver, op.Got())
    }

    ghost predicate Valid()
      reads this, conn, Owned()
    {
      && conn.Valid()
      && (conn.reading.Some? <==> op != null)
      && (if op == null then receiver.Stopped? else op.reading.Some? && Serves(conn.reading.value))
    }

    constructor (c: Connection)
      requires c.Valid() && c.reading == Some(SizeRead)
      ensures Valid() && conn == c && receiver == Links.INIT.receiver && fresh(Owned())
    {
      conn, op, receiver := c, null, Links.ReadingSize([]);
      new;
      StartRead();
    }

    /** async_read into a new stream buffer, as wait_package and wait_package_body call it. */
    method StartRead()
      requires conn.Valid() && conn.reading.Some? && Matches(conn.reading.value, receiver, [])
               && SizeOf(conn.reading.value) <= SIZE_MAX
      modifies this`op
      ensures Valid() && op != null && fresh(Owned())
    {
      var buffer := new StreamBuf(SIZE_MAX);
      op := new ReadStreambufOp(buffer, SizeOf(conn.reading.value));
    }

    /** The transport hands over some bytes, as many as asked for at most; with the last of them, the handler. */
    method Arrives(data: seq<byte>, ghost origin: Peers.Origin) returns (stream: IStream?)
      requires Valid() && op != null && |data| <= op.reading.value && (data == [] ==> op.reading.value == 0)
      modifies this, conn`reading, conn`callbacks, conn`events, conn`closedEmitted, conn`errorEmitted, Owned()
      ensures Valid() && fresh(Owned() - old(Owned()))
      ensures |data| <= DEFAULT_MAX_TRANSFER_SIZE && |data| <= Links.Wanted(old(receiver)) && !old(receiver).Stopped?
      ensures var r := Links.AddBytes(old(receiver), data);
              if Links.Wanted(r) > 0 then
                && receiver == r
                && Delivered(old(conn.Peer([], [], [])), conn.Peer([], [], [origin]), None, origin, stream)
              else
                var done := Links.OnReadComplete(r);
                && receiver == done.0
                && Delivered(old(conn.Peer([], [], [])), conn.Peer([], [], [origin]), done.1, origin, stream)
    {
      MatchesMore(conn.reading.value, receiver, op.Got(), data);
      op.OnReadSome(false, data);
      receiver := Links.AddBytes(receiver, data);
      if op.completion.Some? {
        stream := Finish(origin);
      } else {
        stream := null;
      }
    }

    /** The transport reports an error instead. */
    method Fails(err: Error)
      requires Valid() && op != null && err != NoError
      modifies this, conn`reading, conn`callbacks, conn`events, conn`closedEmitted, conn`errorEmitted, Owned()
      ensures Valid() && op == null && receiver == Links.Stopped(Links.Held(old(receiver)))
      ensures conn.Peer([], [], []) == old(conn.Peer([], [], []))
    {
      op.OnReadSome(true, []);
      match conn.reading.value {
        case SizeRead => conn.ReadPackageSizeHandler(op.streambuf, err, op.streambuf.Size());
        case BodyRead(_) =>
          var stream := conn.ReadPackageBodyHandler(op.streambuf, err, op.streambuf.Size(), Peers.Theirs);
      }
      op, receiver := null, Links.Stopped(Links.Held(receiver));
    }

    /** The completion handler without an error, and the read it starts, if any. */
    method Finish(ghost origin: Peers.Origin) returns (stream: IStream?)
      requires conn.Valid() && conn.reading.Some? && op != null && Serves(conn.reading.value)
               && Links.Wanted(receiver) == 0
      requires op.completion.Some?
      modifies this, conn`reading, conn`callbacks, conn`events, conn`closedEmitted, conn`errorEmitted, op.streambuf
      ensures Valid() && (op == null || fresh(Owned()))
      ensures receiver == Links.OnReadComplete(old(receiver)).0
      ensures Delivered(old(conn.Peer([], [], [])), conn.Peer([], [], [origin]),
              Links.OnReadComplete(old(receiver)).1, origin, stream)
    {
      match conn.reading.value {
        case SizeRead =>
          FinishSize();
          stream := null;
        case BodyRead(n) =>
          stream := FinishBody(origin);
      }
      if conn.reading.Some? {
        StartRead();
      } else {
        op := null;
      }
    }

    method FinishSize()
      requires conn.Valid() && op != null && Serves(SizeRead) && conn.reading == Some(SizeRead) && |op.Got()| == 8
      modifies this`receiver, conn`reading, conn`closedEmitted, conn`errorEmitted, op.streambuf
      ensures conn.Valid() && conn.reading.Some? && SizeOf(conn.reading.value) <= SIZE_MAX
      ensures Matches(conn.reading.value, receiver, [])
      ensures receiver == Links.OnReadComplete(old(receiver)).0
    {
      ghost var h := op.streambuf.Contents();
      assert h == op.Got();
      Peers.Le64AtMost(h);
      conn.ReadPackageSizeHandler(op.streambuf, NoError, op.streambuf.Size());
      receiver := Links.OnReadComplete(receiver).0;
    }

    method FinishBody(ghost origin: Peers.Origin) returns (stream: IStream?)
      requires conn.Valid() && op != null && conn.reading.Some? && conn.reading.value.BodyRead?
               && Serves(conn.reading.value)
      requires |op.Got()| == conn.reading.value.size
      modifies this`receiver, conn`reading, conn`callbacks, conn`events, conn`closedEmitted, conn`errorEmitted,
               op.streambuf
      ensures conn.Valid() && receiver == Links.OnReadComplete(old(receiver)).0
      ensures if receiver.Stopped? then conn.reading == None
              else conn.reading == Some(SizeRead) && receiver == Links.ReadingSize([])
      ensures Delivered(old(conn.Peer([], [], [])), conn.Peer([], [], [origin]),
              Links.OnReadComplete(old(receiver)).1, origin, stream)
    {
      assert op.streambuf.Contents() == op.Got();
      stream := conn.ReadPackageBodyHandler(op.streambuf, NoError, op.streambuf.Size(), origin);
      receiver := Links.OnReadComplete(receiver).0;
    }
  }

  // ----- one direction between two connections -----

  function EventBodies(events: seq<Peers.Event>): seq<Links.Body> {
    if events == [] then [] else EventBodies(events[..|events| - 1]) + [events[|events| - 1].body]
  }

  lemma DeliveredBodies(p: Peers.Peer, p': Peers.Peer, body: Option<Links.Body>, origin: Peers.Origin, stream: IStream?)
    requires Delivered(p, p', body, origin, stream)
    ensures EventBodies(p'.events) == if body.Some? then EventBodies(p.events) + [body.value] else EventBodies(p.events)
  {
    if body.Some? {
      assert p'.events[..|p.events|] == p.events;
    }
  }

  // ----- what the packages that arrive do to callbacks and events -----

  /** The peer's own part after these packages: each to the callback registered under its uid, or to received. */
  function Handed(p: Peers.Peer, bodies: seq<Links.Body>): Peers.Peer
    decreases |bodies|
  {
    if bodies == [] then p
    else Handed(Peers.Deliver(p, bodies[0], Peers.Mine).(origins := p.origins), bodies[1..])
  }

  lemma {:induction false} HandedAppend(p: Peers.Peer, xs: seq<Links.Body>, ys: seq<Links.Body>)
    ensures Handed(p, xs + ys) == Handed(Handed(p, xs), ys)
    decreases |xs|
  {
    if xs == [] {
      assert xs + ys == ys;
    } else {
      assert (xs + ys)[1..] == xs[1..] + ys;
      HandedAppend(Peers.Deliver(p, xs[0], Peers.Mine).(origins := p.origins), xs[1..], ys);
    }
  }

  /** No package before the i-th has its uid. */
  predicate FirstUnderUid(bodies: seq<Links.Body>, i: nat)
    requires i < |bodies|
  {
    forall j :: 0 <= j < i ==> Peers.UidOf(bodies[j]) != Peers.UidOf(bodies[i])
  }

  /**
   * Routing over any number of packages: the i-th is handed to the callback registered under its uid when it is the
   * first with that uid, and goes to received otherwise.
   */
  lemma {:induction false} HandedRoutes(p: Peers.Peer, bodies: seq<Links.Body>, i: nat)
    requires i < |bodies|
    ensures var p' := Handed(p, bodies);
            var u := Peers.UidOf(bodies[i]);
            && |p'.events| == |p.events| + |bodies|
            && p.events <= p'.events
            && p'.events[|p.events| + i] ==
                 (if u in p.callbacks && FirstUnderUid(bodies, i) then Peers.Fired(p.callbacks[u], bodies[i])
                  else Peers.Received(bodies[i]))
    decreases |bodies|
  {
    var q := Peers.Deliver(p, bodies[0], Peers.Mine).(origins := p.origins);
    var rest := bodies[1..];
    if i > 0 {
      HandedRoutes(q, rest, i - 1);
      FirstOfRest(bodies, i);
    } else if rest != [] {
      HandedRoutes(q, rest, 0);
    }
  }

  /** The callbacks left are those under whose uid no package has come. */
  lemma {:induction false} HandedLeaves(p: Peers.Peer, bodies: seq<Links.Body>, u: uint64)
    ensures u in Handed(p, bodies).callbacks
       <==> u in p.callbacks && forall j :: 0 <= j < |bodies| ==> Peers.UidOf(bodies[j]) != u
    decreases |bodies|
  {
    if bodies != [] {
      var rest := bodies[1..];
      HandedLeaves(Peers.Deliver(p, bodies[0], Peers.Mine).(origins := p.origins), rest, u);
      assert forall j :: 0 <= j < |rest| ==> rest[j] == bodies[j + 1];
      assert forall j :: 0 < j < |bodies| ==> bodies[j] == rest[j - 1];
    }
  }

  lemma FirstOfRest(bodies: seq<Links.Body>, i: nat)
    requires 0 < i < |bodies|
    ensures FirstUnderUid(bodies, i)
       <==> FirstUnderUid(bodies[1..], i - 1) && Peers.UidOf(bodies[0]) != Peers.UidOf(bodies[i])
  {
    var rest := bodies[1..];
    if FirstUnderUid(rest, i - 1) && Peers.UidOf(bodies[0]) != Peers.UidOf(bodies[i]) {
      forall j | 0 <= j < i
        ensures Peers.UidOf(bodies[j]) != Peers.UidOf(bodies[i])
      {
        assert j > 0 ==> rest[j - 1] == bodies[j];
      }
    }
    if FirstUnderUid(bodies, i) {
      forall j | 0 <= j < i - 1
        ensures Peers.UidOf(rest[j]) != Peers.UidOf(rest[i - 1])
      {
        assert rest[j] == bodies[j + 1];
      }
    }
  }

  predicate WholeHeaders(bodies: seq<Links.Body>) {
    forall i :: 0 <= i < |bodies| ==> |bodies[i]| >= 16
  }

  /** The packages delivered between two states of the link have been handed on. */
  ghost predicate HandedOn(p: Peers.Peer, p': Peers.Peer, l: Links.Link, l': Links.Link) {
    && l.delivered <= l'.delivered
    && var bodies := l'.delivered[|l.delivered|..];
       WholeHeaders(bodies) ==> p' == Handed(p, bodies)
  }

  lemma NoneHandedOn(p: Peers.Peer, l: Links.Link, l': Links.Link)
    requires l'.delivered == l.delivered
    ensures HandedOn(p, p, l, l')
  {
    assert l'.delivered[|l.delivered|..] == [];
  }

  lemma OneHandedOn(p: Peers.Peer, p': Peers.Peer, body: Links.Body, l: Links.Link, l': Links.Link)
    requires l'.delivered == l.delivered + [body]
    requires |body| >= 16 ==> p' == Peers.Deliver(p, body, Peers.Mine).(origins := p.origins)
    ensures HandedOn(p, p', l, l')
  {
    var bodies := l'.delivered[|l.delivered|..];
    assert bodies == [body] && bodies[1..] == [];
    assert Handed(p, bodies) == Peers.Deliver(p, body, Peers.Mine).(origins := p.origins);
  }

  lemma MoreHandedOn(p: Peers.Peer, q: Peers.Peer, r: Peers.Peer, l: Links.Link, m: Links.Link, n: Links.Link)
    requires HandedOn(p, q, l, m) && HandedOn(q, r, m, n)
    ensures HandedOn(p, r, l, n)
  {
    var xs, ys := m.delivered[|l.delivered|..], n.delivered[|m.delivered|..];
    var all := n.delivered[|l.delivered|..];
    assert all == xs + ys;
    if WholeHeaders(all) {
      assert forall i :: 0 <= i < |xs| ==> xs[i] == all[i];
      assert forall i :: 0 <= i < |ys| ==> ys[i] == all[|xs| + i];
      HandedAppend(p, xs, ys);
    }
  }

  // ----- the two sides and the link -----

  /** The send side and the wire stand where the link of the model stands. */
  ghost predicate SendsAs(from: Outgoing, wire: seq<byte>, l: Links.Link)
    reads from, from.conn, from.Owned()
  {
    from.Valid() && l.sender == from.Sender() && l.wire == wire
  }

  /** The receive side and the wire stand where the link of the model stands. */
  ghost predicate ReceivesAs(to: Incoming, wire: seq<byte>, l: Links.Link)
    reads to, to.conn, to.Owned()
  {
    to.Valid() && l.receiver == to.receiver && l.wire == wire && l.delivered == EventBodies(to.conn.events)
  }

  /** A dispatch or a piece written does not touch what the receive side stands for, apart from the wire. */
  ghost predicate SameReceiver(l: Links.Link, l': Links.Link) {
    l'.receiver == l.receiver && l'.delivered == l.delivered
  }

  lemma AcceptStep(l: Links.Link, n: nat, s': Links.Sender, bs: seq<byte>) returns (l': Links.Link)
    requires l.sender.writing.Some? && n <= DEFAULT_MAX_TRANSFER_SIZE
    requires var w := l.sender.writing.value;
             && w.written + n <= |Links.Frame(w.body)| && bs == Links.Frame(w.body)[w.written..w.written + n]
             && s' == if w.written + n == |Links.Frame(w.body)| then Links.OnWritten(l.sender)
                else Progress(l.sender, w.written + n)
    ensures l' == Links.Step(l, Links.WriteSome(n)) && l'.sender == s' && l'.wire == l.wire + bs && SameReceiver(l, l')
  {
    l' := Links.Step(l, Links.WriteSome(n));
    assert l' == Links.Wrote(l, n);
  }

  /** The transport takes n bytes of what the send side offers. */
  method Accept(from: Outgoing, wire: seq<byte>, ghost l: Links.Link, n: nat)
    returns (wire': seq<byte>, ghost l': Links.Link)
    requires SendsAs(from, wire, l) && from.op != null && 0 < n <= |from.op.writing.value|
    modifies from`op, from.conn`socketLocked, from.conn`packages, from.conn`writing, from.conn`closedEmitted,
             from.conn`errorEmitted, from.Owned()
    ensures SendsAs(from, wire', l') && l' == Links.Step(l, Links.WriteSome(n)) && SameReceiver(l, l')
    ensures fresh(from.Owned() - old(from.Owned()))
  {
    var bs := from.Accepts(n);
    wire' := wire + bs;
    l' := AcceptStep(l, n, from.Sender(), bs);
  }

  method WriteError(from: Outgoing, wire: seq<byte>, ghost l: Links.Link, err: Error) returns (ghost l': Links.Link)
    requires SendsAs(from, wire, l) && from.op != null && err != NoError
    modifies from`op, from.conn`socketLocked, from.conn`packages, from.conn`writing, from.conn`closedEmitted,
             from.conn`errorEmitted, from.Owned()
    ensures SendsAs(from, wire, l') && l' == Links.Step(l, Links.WriteFails) && SameReceiver(l, l') && from.op == null
  {
    from.Fails(err);
    l' := Links.Step(l, Links.WriteFails);
  }

  /** A stream with these bytes is sent. */
  method Dispatch(from: Outgoing, wire: seq<byte>, ghost l: Links.Link, body: Links.Body) returns (ghost l': Links.Link)
    requires SendsAs(from, wire, l) && |body| <= SIZE_MAX
    modifies from`op, from.conn`socketLocked, from.conn`packages, from.conn`writing
    ensures SendsAs(from, wire, l') && l' == Links.Step(l, Links.Dispatch(body)) && SameReceiver(l, l')
    ensures fresh(from.Owned() - old(from.Owned()))
  {
    var buffer := BufferOf(body);
    from.Dispatch(buffer);
    l' := Links.Step(l, Links.Dispatch(body));
  }

  method BufferOf(body: seq<byte>) returns (buffer: StreamBuf)
    requires |body| <= SIZE_MAX
    ensures fresh(buffer) && buffer.Valid() && buffer.Contents() == body
  {
    buffer := new StreamBuf(SIZE_MAX);
    var n := buffer.SPutN(body);
    assert [] + body[..n] == body;
  }

  lemma HandStep(l: Links.Link, n: nat) returns (l': Links.Link)
    requires !l.receiver.Stopped? && n <= Links.Wanted(l.receiver) && n <= |l.wire| && n <= DEFAULT_MAX_TRANSFER_SIZE
    ensures l' == Links.Step(l, Links.ReadSome(n)) && l'.wire == l.wire[n..] && l'.sender == l.sender
    ensures var r := Links.AddBytes(l.receiver, l.wire[..n]);
            if Links.Wanted(r) > 0 then l'.receiver == r && l'.delivered == l.delivered
            else
              && l'.receiver == Links.OnReadComplete(r).0
              && var body := Links.OnReadComplete(r).1;
                 l'.delivered == if body.Some? then l.delivered + [body.value] else l.delivered
  {
    l' := Links.Step(l, Links.ReadSome(n));
    assert l' == Links.Took(l, n);
  }

  lemma DeliveredIsHandedOn(p: Peers.Peer, p': Peers.Peer, q: Peers.Peer, body: Option<Links.Body>,
                            origin: Peers.Origin, stream: IStream?, l: Links.Link, l': Links.Link)
    requires p.origins == [] && Delivered(p, q, body, origin, stream) && p' == q.(origins := [])
    requires l'.delivered == if body.Some? then l.delivered + [body.value] else l.delivered
    ensures HandedOn(p, p', l, l')
  {
    if body.Some? {
      OneHandedOn(p, p', body.value, l, l');
    } else {
      NoneHandedOn(p, l, l');
    }
  }

  /** The transport hands over the first n bytes on the wire. */
  method Hand(to: Incoming, wire: seq<byte>, ghost l: Links.Link, n: nat, ghost origin: Peers.Origin)
    returns (wire': seq<byte>, ghost l': Links.Link)
    requires ReceivesAs(to, wire, l) && to.op != null && n <= |wire| && n <= to.op.reading.value
             && (n == 0 ==> to.op.reading.value == 0)
    modifies to, to.conn`reading, to.conn`callbacks, to.conn`events, to.conn`closedEmitted, to.conn`errorEmitted,
             to.Owned()
    ensures ReceivesAs(to, wire', l') && l' == Links.Step(l, Links.ReadSome(n)) && l'.sender == l.sender
    ensures HandedOn(old(to.conn.Peer([], [], [])), to.conn.Peer([], [], []), l, l')
    ensures fresh(to.Owned() - old(to.Owned()))
  {
    ghost var p := to.conn.Peer([], [], []);
    ghost var r := Links.AddBytes(l.receiver, wire[..n]);
    ghost var body := if Links.Wanted(r) > 0 then None else Links.OnReadComplete(r).1;
    var stream := to.Arrives(wire[..n], origin);
    wire' := wire[n..];
    l' := HandStep(l, n);
    DeliveredBodies(p, to.conn.Peer([], [], [origin]), body, origin, stream);
    DeliveredIsHandedOn(p, to.conn.Peer([], [], []), to.conn.Peer([], [], [origin]), body, origin, stream, l, l');
  }

  method ReadError(to: Incoming, wire: seq<byte>, ghost l: Links.Link, err: Error) returns (ghost l': Links.Link)
    requires ReceivesAs(to, wire, l) && to.op != null && err != NoError
    modifies to, to.conn`reading, to.conn`callbacks, to.conn`events, to.conn`closedEmitted, to.conn`errorEmitted,
             to.Owned()
    ensures ReceivesAs(to, wire, l') && l' == Links.Step(l, Links.ReadFails) && l'.sender == l.sender && to.op == null
    ensures to.conn.Peer([], [], []) == old(to.conn.Peer([], [], [])) && l'.delivered == l.delivered
  {
    ghost var p := to.conn.Peer([], [], []);
    to.Fails(err);
    l' := Links.Step(l, Links.ReadFails);
    assert to.conn.Peer([], [], []) == p;
  }

  // ----- any number of packages -----

  /** A stream sent, and what the transport does: it takes or gives up to k bytes, or reports an error. */
  datatype Input =
    | Message(body: Links.Body)
    | Takes(k: nat)
    | WriteBreaks(err: Error)
    | Gives(k: nat)
    | ReadBreaks(err: Error)

  function Messages(inputs: seq<Input>): seq<Links.Body> {
    if inputs == [] then [] else MessageOf(inputs[0]) + Messages(inputs[1..])
  }

  function MessageOf(input: Input): seq<Links.Body> {
    if input.Message? then [input.body] else []
  }

  /** An error is an error, and a stream buffer holds at most SIZE_MAX bytes. */
  predicate Sensible(input: Input) {
    match input
    case Message(body) => |body| <= SIZE_MAX
    case WriteBreaks(err) => err != NoError
    case ReadBreaks(err) => err != NoError
    case _ => true
  }

  /**
   * The step of Links for an input. Only how many bytes a read takes is not fixed by it: that is up to the size of the
   * region the stream buffer has prepared. But it takes some if there are any and they are wanted.
   */
  ghost predicate Causes(l: Links.Link, input: Input, a: Links.Act) {
    match input
    case Message(body) => a == Links.Dispatch(body)
    case Takes(k) => a == Links.WriteSome(k)
    case WriteBreaks(_) => a == Links.WriteFails
    case Gives(k) =>
      a.ReadSome? && a.k <= k && (k > 0 && l.wire != [] && Links.Wanted(l.receiver) > 0 ==> a.k > 0)
    case ReadBreaks(_) => a == Links.ReadFails
  }

  /** A step that moves nothing: the transport has no operation to answer, or no bytes for it. */
  lemma NothingTaken(l: Links.Link, k: nat)
    requires k == 0 || l.sender.writing.None?
    requires l.sender.writing.Some? ==> l.sender.writing.value.written < |Links.Frame(l.sender.writing.value.body)|
    ensures Links.Step(l, Links.WriteSome(k)) == l
  {
    if l.sender.writing.Some? {
      assert l.wire + [] == l.wire && l.sent + [] == l.sent;
    }
  }

  /** A write offers its next window, so more bytes than that are not taken at once. */
  lemma WholePiece(l: Links.Link, k: nat)
    requires l.sender.writing.Some? && l.sender.writing.value.written <= |Links.Frame(l.sender.writing.value.body)|
    ensures var rest := |Links.Frame(l.sender.writing.value.body)| - l.sender.writing.value.written;
            Links.Step(l, Links.WriteSome(Min(k, Min(DEFAULT_MAX_TRANSFER_SIZE, rest)))) ==
                Links.Step(l, Links.WriteSome(k))
  {
  }

  lemma NothingGiven(l: Links.Link)
    requires l.receiver.Stopped? || Links.Wanted(l.receiver) > 0
    ensures Links.Step(l, Links.ReadSome(0)) == l
  {
    if !l.receiver.Stopped? {
      assert Links.AddBytes(l.receiver, l.wire[..0]) == l.receiver;
    }
  }

  /** The transport takes up to k bytes, if there is a write to take them from. */
  method AcceptUpTo(from: Outgoing, wire: seq<byte>, ghost l: Links.Link, k: nat)
    returns (wire': seq<byte>, ghost l': Links.Link)
    requires SendsAs(from, wire, l)
    modifies from`op, from.conn`socketLocked, from.conn`packages, from.conn`writing
    modifies from.conn`closedEmitted, from.conn`errorEmitted, from.Owned()
    ensures SendsAs(from, wire', l') && l' == Links.Step(l, Links.WriteSome(k)) && SameReceiver(l, l')
    ensures fresh(from.Owned() - old(from.Owned()))
  {
    if from.op != null && k > 0 {
      wire', l' := Accept(from, wire, l, Min(k, |from.op.writing.value|));
      WholePiece(l, k);
    } else {
      wire', l' := wire, l;
      NothingTaken(l, k);
    }
  }

  /** The outstanding write fails, if there is one. */
  method BreakWrite(from: Outgoing, wire: seq<byte>, ghost l: Links.Link, err: Error) returns (ghost l': Links.Link)
    requires SendsAs(from, wire, l) && err != NoError
    modifies from`op, from.conn`socketLocked, from.conn`packages, from.conn`writing
    modifies from.conn`closedEmitted, from.conn`errorEmitted, from.Owned()
    ensures SendsAs(from, wire, l') && l' == Links.Step(l, Links.WriteFails) && SameReceiver(l, l')
    ensures fresh(from.Owned() - old(from.Owned()))
  {
    l' := l;
    if from.op != null {
      l' := WriteError(from, wire, l, err);
    }
  }

  method SendMove(from: Outgoing, wire: seq<byte>, ghost l: Links.Link, input: Input)
    returns (wire': seq<byte>, ghost l': Links.Link, ghost a: Links.Act)
    requires SendsAs(from, wire, l) && Sensible(input) && !input.Gives? && !input.ReadBreaks?
    modifies from`op, from.conn`socketLocked, from.conn`packages, from.conn`writing
    modifies from.conn`closedEmitted, from.conn`errorEmitted, from.Owned()
    ensures SendsAs(from, wire', l') && SameReceiver(l, l') && Causes(l, input, a) && l' == Links.Step(l, a)
    ensures fresh(from.Owned() - old(from.Owned()))
  {
    wire', l' := wire, l;
    match input {
      case Message(body) =>
        a := Links.Dispatch(body);
        l' := Dispatch(from, wire, l, body);
      case Takes(k) =>
        a := Links.WriteSome(k);
        wire', l' := AcceptUpTo(from, wire, l, k);
      case WriteBreaks(err) =>
        a := Links.WriteFails;
        l' := BreakWrite(from, wire, l, err);
    }
  }

  method ReceiveMove(to: Incoming, wire: seq<byte>, ghost l: Links.Link, input: Input, ghost origin: Peers.Origin)
    returns (wire': seq<byte>, ghost l': Links.Link, ghost a: Links.Act)
    requires ReceivesAs(to, wire, l) && Sensible(input) && (input.Gives? || input.ReadBreaks?)
    modifies to, to.conn`reading, to.conn`callbacks, to.conn`events
    modifies to.conn`closedEmitted, to.conn`errorEmitted, to.Owned()
    ensures ReceivesAs(to, wire', l') && l'.sender == l.sender && Causes(l, input, a) && l' == Links.Step(l, a)
    ensures HandedOn(old(to.conn.Peer([], [], [])), to.conn.Peer([], [], []), l, l')
    ensures fresh(to.Owned() - old(to.Owned()))
  {
    wire', l' := wire, l;
    match input {
      case Gives(k) =>
        var n := if to.op == null then 0 else Min(k, Min(to.op.reading.value, |wire|));
        a := Links.ReadSome(n);
        if to.op != null {
          MatchesMore(to.conn.reading.value, to.receiver, to.op.Got(), []);
        }
        if to.op != null && (n > 0 || to.op.reading.value == 0) {
          wire', l' := Hand(to, wire, l, n, origin);
        } else {
          NothingGiven(l);
          NoneHandedOn(to.conn.Peer([], [], []), l, l);
        }
      case ReadBreaks(err) =>
        a := Links.ReadFails;
        if to.op != null {
          l' := ReadError(to, wire, l, err);
        }
        NoneHandedOn(to.conn.Peer([], [], []), l, l');
    }
  }

  twostate lemma SendSideKept(from: Outgoing)
    requires old(from.Valid()) && unchanged(from) && unchanged(from.conn)
    requires from.op != null ==> unchanged(from.op) && unchanged(from.op.buffers)
    ensures from.Valid() && from.Sender() == old(from.Sender()) && from.Owned() == old(from.Owned())
  {
  }

  twostate lemma ReceiveSideKept(to: Incoming)
    requires old(to.Valid()) && unchanged(to) && unchanged(to.conn)
    requires to.op != null ==> unchanged(to.op) && unchanged(to.op.streambuf) && unchanged(to.op.streambuf.buffer)
    ensures to.Valid() && to.Owned() == old(to.Owned())
  {
  }

  /** A step of the send side leaves the receive side of another connection alone. */
  method SendMoveBeside(from: Outgoing, to: Incoming, wire: seq<byte>, ghost l: Links.Link, input: Input)
    returns (wire': seq<byte>, ghost l': Links.Link, ghost a: Links.Act)
    requires SendsAs(from, wire, l) && from.conn != to.conn && Sensible(input) && !input.Gives? && !input.ReadBreaks?
    modifies from`op, from.conn`socketLocked, from.conn`packages, from.conn`writing
    modifies from.conn`closedEmitted, from.conn`errorEmitted, from.Owned()
    ensures SendsAs(from, wire', l') && SameReceiver(l, l') && Causes(l, input, a) && l' == Links.Step(l, a)
    ensures fresh(from.Owned() - old(from.Owned()))
    ensures unchanged(to) && unchanged(to.conn)
    ensures to.op != null ==> unchanged(to.op) && unchanged(to.op.streambuf) && unchanged(to.op.streambuf.buffer)
  {
    ghost var op := to.op;
    assert to !in from.Owned() && to.conn !in from.Owned() && op !in from.Owned();
    if op != null {
      assert op.streambuf !in from.Owned() && op.streambuf.buffer !in from.Owned();
    }
    wire', l', a := SendMove(from, wire, l, input);
  }

  /** A step of the receive side leaves the send side of another connection alone. */
  method ReceiveMoveBeside(from: Outgoing, to: Incoming, wire: seq<byte>, ghost l: Links.Link, input: Input,
                           ghost origin: Peers.Origin)
    returns (wire': seq<byte>, ghost l': Links.Link, ghost a: Links.Act)
    requires ReceivesAs(to, wire, l) && from.conn != to.conn && Sensible(input) && (input.Gives? || input.ReadBreaks?)
    modifies to, to.conn`reading, to.conn`callbacks, to.conn`events
    modifies to.conn`closedEmitted, to.conn`errorEmitted, to.Owned()
    ensures ReceivesAs(to, wire', l') && l'.sender == l.sender && Causes(l, input, a) && l' == Links.Step(l, a)
    ensures HandedOn(old(to.conn.Peer([], [], [])), to.conn.Peer([], [], []), l, l')
    ensures fresh(to.Owned() - old(to.Owned()))
    ensures unchanged(from) && unchanged(from.conn)
    ensures from.op != null ==> unchanged(from.op) && unchanged(from.op.buffers)
  {
    ghost var op := from.op;
    assert from !in to.Owned() && from.conn !in to.Owned();
    assert op != null ==> op !in to.Owned() && op.buffers !in to.Owned();
    wire', l', a := ReceiveMove(to, wire, l, input, origin);
    assert from.op == op;
  }

  method Move(from: Outgoing, to: Incoming, wire: seq<byte>, ghost l: Links.Link, input: Input,
              ghost origin: Peers.Origin)
    returns (wire': seq<byte>, ghost l': Links.Link, ghost a: Links.Act)
    requires SendsAs(from, wire, l) && ReceivesAs(to, wire, l) && from.conn != to.conn && Sensible(input)
    modifies from`op, from.conn, from.Owned(), to, to.conn, to.Owned()
    ensures SendsAs(from, wire', l') && ReceivesAs(to, wire', l') && Causes(l, input, a) && l' == Links.Step(l, a)
    ensures HandedOn(old(to.conn.Peer([], [], [])), to.conn.Peer([], [], []), l, l')
    ensures fresh(from.Owned() - old(from.Owned())) && fresh(to.Owned() - old(to.Owned()))
  {
    if input.Gives? || input.ReadBreaks? {
      wire', l', a := ReceiveMoveBeside(from, to, wire, l, input, origin);
      SendSideKept(from);
    } else {
      wire', l', a := SendMoveBeside(from, to, wire, l, input);
      ReceiveSideKept(to);
      NoneHandedOn(to.conn.Peer([], [], []), l, l');
    }
  }

  /** A run of Links with one step for each input, the one it causes. */
  ghost predicate Simulation(l0: Links.Link, acts: seq<Links.Act>, l: Links.Link, inputs: seq<Input>)
    decreases |inputs|
  {
    && |acts| == |inputs|
    && if inputs == [] then l == l0
       else Causes(l0, inputs[0], acts[0]) && Simulation(Links.Step(l0, acts[0]), acts[1..], l, inputs[1..])
  }

  lemma OneMore(l0: Links.Link, a: Links.Act, mid: Links.Link, rest: seq<Links.Act>, l: Links.Link, inputs: seq<Input>)
    requires inputs != [] && Causes(l0, inputs[0], a)
    requires mid == Links.Step(l0, a) && Simulation(mid, rest, l, inputs[1..])
    ensures Simulation(l0, [a] + rest, l, inputs)
  {
    assert ([a] + rest)[1..] == rest;
  }

  /** An input without a failure and without an empty stream. */
  predicate Smooth(input: Input) {
    Sensible(input) && !input.WriteBreaks? && !input.ReadBreaks? && (input.Message? ==> input.body != [])
  }

  /** So a failure is among the steps only for an input that is one, and every stream sent is dispatched. */
  lemma {:induction false} SimulationMeans(l0: Links.Link, acts: seq<Links.Act>, l: Links.Link, inputs: seq<Input>)
    requires Simulation(l0, acts, l, inputs) && forall i :: 0 <= i < |inputs| ==> Sensible(inputs[i])
    ensures l == Links.Run(l0, acts) && Links.Dispatched(acts) == Messages(inputs) && |acts| == |inputs|
    ensures forall i :: 0 <= i < |acts| ==> Links.Possible(acts[i])
    ensures forall i :: 0 <= i < |acts| && Smooth(inputs[i]) ==> Links.Healthy(acts[i]) && !acts[i].WriteFails?
    decreases |inputs|
  {
    if inputs != [] {
      SimulationMeans(Links.Step(l0, acts[0]), acts[1..], l, inputs[1..]);
    }
  }

  /** Whatever the transport does to the objects of one direction, from any state they are in, is a run of Links. */
  method Drive(from: Outgoing, to: Incoming, wire: seq<byte>, ghost l: Links.Link, inputs: seq<Input>,
               ghost origin: Peers.Origin)
    returns (wire': seq<byte>, ghost l': Links.Link, ghost acts: seq<Links.Act>)
    requires SendsAs(from, wire, l) && ReceivesAs(to, wire, l) && from.conn != to.conn
    requires forall i :: 0 <= i < |inputs| ==> Sensible(inputs[i])
    modifies from`op, from.conn, from.Owned(), to, to.conn, to.Owned()
    ensures SendsAs(from, wire', l') && ReceivesAs(to, wire', l') && Simulation(l, acts, l', inputs)
    ensures HandedOn(old(to.conn.Peer([], [], [])), to.conn.Peer([], [], []), l, l')
    decreases |inputs|
  {
    ghost var p := to.conn.Peer([], [], []);
    if |inputs| == 0 {
      NoneHandedOn(p, l, l);
      return wire, l, [];
    }
    ghost var mid, a, rest;
    wire', mid, a := Move(from, to, wire, l, inputs[0], origin);
    ghost var q := to.conn.Peer([], [], []);
    wire', l', rest := Drive(from, to, wire', mid, inputs[1..], origin);
    acts := [a] + rest;
    MoreHandedOn(p, q, to.conn.Peer([], [], []), l, mid, l');
    OneMore(l, a, mid, rest, l', inputs);
  }

  /** Nothing has failed on this link. */
  ghost predicate Sound(l: Links.Link) {
    Links.Inv(l) && Links.Running(l) && Links.NoneEmpty(l.dispatched) && l.broken.None?
  }

  /** The transport is asked for at least one byte, and there is one. */
  ghost predicate Moves(l: Links.Link, input: Input) {
    if input.Takes? then input.k > 0 && l.sender.writing.Some? else input.Gives? && input.k > 0 && l.wire != []
  }

  /** A smooth input keeps it so. */
  lemma StepIsSound(l: Links.Link, input: Input, a: Links.Act)
    requires Sound(l) && Causes(l, input, a) && Smooth(input)
    ensures Sound(Links.Step(l, a)) && Links.Step(l, a).dispatched == l.dispatched + MessageOf(input)
  {
    Links.StepKeepsInv(l, a);
    Links.StepKeepsRunning(l, a);
    assert l.dispatched + [] == l.dispatched;
  }

  /** And with nothing more to send, a step of the transport moves bytes if there is one to make. */
  lemma StepShrinks(l: Links.Link, input: Input, a: Links.Act)
    requires Sound(l) && Causes(l, input, a) && Moves(l, input)
    ensures 0 <= Links.Remaining(Links.Step(l, a)) < Links.Remaining(l)
  {
    Links.ProductiveStep(l, a);
  }

  lemma Drained(from: Outgoing, to: Incoming, wire: seq<byte>, l: Links.Link)
    requires SendsAs(from, wire, l) && ReceivesAs(to, wire, l) && Sound(l) && from.op == null && wire == []
    ensures SendsAs(from, [], l) && ReceivesAs(to, [], l)
    ensures l.dispatched == l.dispatched + Messages([]) == EventBodies(to.conn.events)
    ensures HandedOn(to.conn.Peer([], [], []), to.conn.Peer([], [], []), l, l)
  {
    Links.Quiescent(l);
    NoneHandedOn(to.conn.Peer([], [], []), l, l);
    assert l.dispatched + [] == l.dispatched;
  }

  /** One of the inputs that are left, or any step that the transport can make. */
  method DrainStep(from: Outgoing, to: Incoming, wire: seq<byte>, ghost l: Links.Link, inputs: seq<Input>,
                   ghost origin: Peers.Origin)
    returns (wire': seq<byte>, ghost l': Links.Link, rest: seq<Input>)
    requires SendsAs(from, wire, l) && ReceivesAs(to, wire, l) && from.conn != to.conn && Sound(l)
    requires forall i :: 0 <= i < |inputs| ==> Smooth(inputs[i])
    requires inputs != [] || from.op != null || wire != []
    modifies from`op, from.conn, from.Owned(), to, to.conn, to.Owned()
    ensures SendsAs(from, wire', l') && ReceivesAs(to, wire', l') && Sound(l')
    ensures l'.dispatched + Messages(rest) == l.dispatched + Messages(inputs)
    ensures if inputs == [] then rest == [] && 0 <= Links.Remaining(l') < Links.Remaining(l) else rest == inputs[1..]
    ensures HandedOn(old(to.conn.Peer([], [], [])), to.conn.Peer([], [], []), l, l')
    ensures fresh(from.Owned() - old(from.Owned())) && fresh(to.Owned() - old(to.Owned()))
  {
    var k: nat, taking: bool := *, *;
    var input := if |inputs| > 0 then inputs[0]
                 else if |wire| == 0 || (taking && from.op != null) then Takes(k + 1) else Gives(k + 1);
    rest := if |inputs| > 0 then inputs[1..] else inputs;
    ghost var a;
    MessagesRest(l.dispatched, inputs, input, rest);
    assert inputs == [] ==> Moves(l, input);
    wire', l', a := Move(from, to, wire, l, input, origin);
    StepIsSound(l, input, a);
    if inputs == [] {
      StepShrinks(l, input, a);
    }
  }

  /**
   * Without failures everything arrives: after these inputs, however many bytes the transport takes and gives each
   * time, and in whatever order it does, it comes to an end, and then the receiving connection has handed on all that
   * was sent.
   */
  method Drain(from: Outgoing, to: Incoming, wire: seq<byte>, ghost l: Links.Link, inputs: seq<Input>,
               ghost origin: Peers.Origin)
    returns (ghost l': Links.Link)
    requires SendsAs(from, wire, l) && ReceivesAs(to, wire, l) && from.conn != to.conn && Sound(l)
    requires forall i :: 0 <= i < |inputs| ==> Smooth(inputs[i])
    modifies from`op, from.conn, from.Owned(), to, to.conn, to.Owned()
    ensures SendsAs(from, [], l') && ReceivesAs(to, [], l') && from.op == null
    ensures l'.dispatched == l.dispatched + Messages(inputs) == EventBodies(to.conn.events)
    ensures HandedOn(old(to.conn.Peer([], [], [])), to.conn.Peer([], [], []), l, l')
    decreases |inputs|, Links.Remaining(l)
  {
    ghost var p := to.conn.Peer([], [], []);
    if |inputs| == 0 && from.op == null && |wire| == 0 {
      Drained(from, to, wire, l);
      return l;
    }
    ghost var mid;
    var wire', rest;
    wire', mid, rest := DrainStep(from, to, wire, l, inputs, origin);
    ghost var q := to.conn.Peer([], [], []);
    l' := Drain(from, to, wire', mid, rest, origin);
    MoreHandedOn(p, q, to.conn.Peer([], [], []), l, mid, l');
  }

  lemma MessagesRest(before: seq<Links.Body>, inputs: seq<Input>, input: Input, rest: seq<Input>)
    requires if inputs == [] then rest == [] && !input.Message? else input == inputs[0] && rest == inputs[1..]
    ensures before + MessageOf(input) + Messages(rest) == before + Messages(inputs)
  {
    if inputs == [] {
      assert before + [] + [] == before + [];
    }
  }

  method NewOutgoing() returns (from: Outgoing)
    ensures fresh(from) && fresh(from.conn) && fresh(from.Owned()) && SendsAs(from, [], Links.INIT)
  {
    var conn := new Connection();
    from := new Outgoing(conn);
  }

  method NewIncoming() returns (to: Incoming)
    ensures fresh(to) && fresh(to.conn) && fresh(to.Owned()) && ReceivesAs(to, [], Links.INIT)
  {
    var conn := new Connection();
    to := new Incoming(conn);
  }

  /** What Links proves of its runs, for a run with these inputs. */
  lemma Conclusion(l: Links.Link, acts: seq<Links.Act>, inputs: seq<Input>)
    requires Simulation(Links.INIT, acts, l, inputs) && forall i :: 0 <= i < |inputs| ==> Sensible(inputs[i])
    ensures l.dispatched == Messages(inputs) && l.delivered <= Messages(inputs)
    ensures (forall i :: 0 <= i < |inputs| ==> Smooth(inputs[i])) ==> Sound(l)
  {
    SimulationMeans(Links.INIT, acts, l, inputs);
    Links.Delivery(acts);
    Links.RunDispatches(Links.INIT, acts);
    assert [] + Messages(inputs) == Messages(inputs);
    if forall i :: 0 <= i < |inputs| ==> Smooth(inputs[i]) {
      Links.RunKeepsInv(Links.INIT, acts);
      Links.RunKeepsRunning(Links.INIT, acts);
    }
  }

  /**
   * Any number of packages between two new connections, through the code's own objects: the packages handed on by the
   * receiving connection are the first of those sent, in order, byte for byte, for everything the transport may do; and
   * they are all of them when nothing has failed and nothing is under way any more.
   */
  method Transport(inputs: seq<Input>)
    returns (from: Outgoing, to: Incoming, wire: seq<byte>, ghost l: Links.Link, ghost acts: seq<Links.Act>)
    requires forall i :: 0 <= i < |inputs| ==> Sensible(inputs[i])
    ensures SendsAs(from, wire, l) && ReceivesAs(to, wire, l) && Simulation(Links.INIT, acts, l, inputs)
    ensures EventBodies(to.conn.events) <= Messages(inputs)
    ensures (forall i :: 0 <= i < |inputs| ==> Smooth(inputs[i])) && from.op == null && wire == [] ==>
              EventBodies(to.conn.events) == Messages(inputs)
  {
    from := NewOutgoing();
    label Sending:
    to := NewIncoming();
    SendSideKept@Sending(from);
    wire, l, acts := Drive(from, to, [], Links.INIT, inputs, Peers.Theirs);
    Conclusion(l, acts, inputs);
    if (forall i :: 0 <= i < |inputs| ==> Smooth(inputs[i])) && from.op == null && wire == [] {
      Links.Quiescent(l);
    }
  }

  /** Without a failure the transport brings all of them across, whatever pieces it does it in. */
  method TransportAll(inputs: seq<Input>) returns (from: Outgoing, to: Incoming)
    requires forall i :: 0 <= i < |inputs| ==> Smooth(inputs[i])
    ensures from.op == null && EventBodies(to.conn.events) == Messages(inputs)
  {
    from := NewOutgoing();
    label Sending:
    to := NewIncoming();
    SendSideKept@Sending(from);
    assert Links.Inv(Links.INIT);
    ghost var l := Drain(from, to, [], Links.INIT, inputs, Peers.Theirs);
    assert [] + Messages(inputs) == Messages(inputs);
  }
}
