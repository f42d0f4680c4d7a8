/**
 * One direction of a connection: the send queue of one peer, the byte stream, and the receive loop of the other.
 * Every handler and every mutex-guarded block is one step; a run is any sequence of steps.
 */
module Links {
  import opened Bytes
  import opened ReadOps

  type Body = seq<byte>   // the bytes of an ostream: header and fields

  // ----- frames -----

  /** create_package: eight bytes of size, then the stream's bytes. */
  function Frame(body: Body): (f: seq<byte>)
    ensures |f| == 8 + |body|
  {
    LittleEndian(8, |body|) + body
  }

  /** The bytes of a frame: the digits of the size to the base 256, lowest first, and the body. */
  lemma FrameBytes(body: Body, i: nat)
    requires i < 8
    ensures Frame(body)[i] == (|body| / Pow256(i)) % 256 && Frame(body)[8..] == body
  {
    LittleEndianDigit(8, |body|, i);
  }

  function Frames(bodies: seq<Body>): seq<byte> {
    if bodies == [] then [] else Frame(bodies[0]) + Frames(bodies[1..])
  }

  lemma {:induction false} FramesAppend(xs: seq<Body>, ys: seq<Body>)
    ensures Frames(xs + ys) == Frames(xs) + Frames(ys)
  {
    if xs == [] {
      assert xs + ys == ys;
    } else {
      assert (xs + ys)[1..] == xs[1..] + ys;
      FramesAppend(xs[1..], ys);
    }
  }

  lemma FramesSnoc(xs: seq<Body>, y: Body)
    ensures Frames(xs + [y]) == Frames(xs) + Frame(y)
  {
    FramesAppend(xs, [y]);
    assert [y][1..] == [] && Frame(y) + [] == Frame(y);
  }

  /** A stream buffer holds at most SIZE_MAX bytes, so the size always fits its eight bytes. */
  predicate Sized(bodies: seq<Body>) {
    forall i :: 0 <= i < |bodies| ==> |bodies[i]| <= SIZE_MAX
  }

  /** What the first bytes of a stream of frames say about the first frame. */
  lemma FirstFrame(partial: seq<byte>, bodies: seq<Body>)
    requires Sized(bodies) && partial <= Frames(bodies) && |partial| >= 8
    ensures bodies != [] && FromLittleEndian(partial[..8]) == |bodies[0]|
    ensures partial[..8] == LittleEndian(8, |bodies[0]|)
    ensures |partial| == 8 + |bodies[0]| ==> partial[8..] == bodies[0]
  {
    var f := Frame(bodies[0]);
    assert partial[..8] == Frames(bodies)[..8] == f[..8] == LittleEndian(8, |bodies[0]|);
    Le64RoundTrip(|bodies[0]|);
    if |partial| == 8 + |bodies[0]| {
      assert partial == Frames(bodies)[..|f|] == f;
    }
  }

  // ----- the sender: _socket_locked, _packages and the outstanding async_write -----

  datatype Writing = Writing(body: Body, written: nat)

  datatype Sender = Sender(locked: bool, queue: seq<Body>, writing: Option<Writing>)

  const INIT_SENDER := Sender(false, [], None)

  /** send_package */
  function SendPackage(s: Sender, body: Body): Sender {
    s.(locked := true, writing := Some(Writing(body, 0)))
  }

  /** The dispatch slot. */
  function OnDispatch(s: Sender, body: Body): Sender {
    if s.locked then s.(queue := s.queue + [body]) else SendPackage(s, body)
  }

  /** write_handler without an error: the next package, or unlock. */
  function OnWritten(s: Sender): Sender {
    if s.queue != [] then SendPackage(s.(queue := s.queue[1..]), s.queue[0])
    else s.(locked := false, writing := None)
  }

  /** write_handler with an error: the write is over, and the handler returns with the lock still set. */
  function OnWriteError(s: Sender): Sender {
    s.(writing := None)
  }

  // ----- the receiver: the outstanding async_read -----

  datatype Receiver =
    | ReadingSize(got: seq<byte>)
    | ReadingBody(header: seq<byte>, got: seq<byte>)
    | Stopped(left: seq<byte>)   // no read outstanding any more

  /** How many bytes the outstanding read still wants. */
  function Wanted(r: Receiver): nat {
    match r
    case ReadingSize(got) => if |got| <= 8 then 8 - |got| else 0
    case ReadingBody(h, got) => var n := FromLittleEndian(h); if |got| <= n then n - |got| else 0
    case Stopped(_) => 0
  }

  /** The bytes taken from the stream and not yet delivered. */
  function Held(r: Receiver): seq<byte> {
    match r
    case ReadingSize(got) => got
    case ReadingBody(h, got) => h + got
    case Stopped(left) => left
  }

  /** The async_read is complete: read_package_size_handler or read_package_body_handler. */
  function OnReadComplete(r: Receiver): (Receiver, Option<Body>) {
    match r
    case ReadingSize(got) => (ReadingBody(got, []), None)
    case ReadingBody(h, got) => if got == [] then (Stopped(h), None) else (ReadingSize([]), Some(got))
    case Stopped(_) => (r, None)
  }

  function AddBytes(r: Receiver, bs: seq<byte>): Receiver {
    match r
    case ReadingSize(got) => ReadingSize(got + bs)
    case ReadingBody(h, got) => ReadingBody(h, got + bs)
    case Stopped(_) => r
  }

  // ----- the link -----

  /**
   * dispatched, completed, sent, delivered and broken (the write that failed) record what has happened; no step
   * depends on them.
   */
  datatype Link = Link(
    sender: Sender, wire: seq<byte>, receiver: Receiver,
    dispatched: seq<Body>, completed: seq<Body>, sent: seq<byte>, delivered: seq<Body>, broken: Option<Writing>)

  const INIT := Link(INIT_SENDER, [], ReadingSize([]), [], [], [], [], None)

  datatype Act =
    | Dispatch(body: Body)
    | WriteSome(k: nat)    // the transport accepts up to k more bytes of the outstanding write
    | WriteFails
    | ReadSome(k: nat)     // the transport hands over up to k bytes
    | ReadFails

  function Dispatching(l: Link, body: Body): Link {
    l.(sender := OnDispatch(l.sender, body), dispatched := l.dispatched + [body])
  }

  function Piece(k: nat, limit: nat): nat {
    Min(k, Min(limit, DEFAULT_MAX_TRANSFER_SIZE))
  }

  /** The transport has accepted n bytes of the outstanding write; with the last of them, the handler. */
  function Wrote(l: Link, n: nat): Link
    requires l.sender.writing.Some? && l.sender.writing.value.written + n <= |Frame(l.sender.writing.value.body)|
  {
    var w := l.sender.writing.value;
    var frame := Frame(w.body);
    var piece := frame[w.written..w.written + n];
    var l' := l.(wire := l.wire + piece, sent := l.sent + piece);
    if w.written + n == |frame| then l'.(sender := OnWritten(l.sender), completed := l.completed + [w.body])
    else l'.(sender := l.sender.(writing := Some(w.(written := w.written + n))))
  }

  function Writes(l: Link, k: nat): Link {
    if l.sender.writing.None? then l else
      var w := l.sender.writing.value;
      if w.written > |Frame(w.body)| then l else Wrote(l, Piece(k, |Frame(w.body)| - w.written))
  }

  function WriteFailing(l: Link): Link {
    if l.sender.writing.None? then l else l.(sender := OnWriteError(l.sender), broken := l.sender.writing)
  }

  /** The result of a complete read, and the handler. */
  function Completed(l: Link, r: Receiver, wire: seq<byte>): Link {
    var (r', body) := OnReadComplete(r);
    l.(wire := wire, receiver := r', delivered := if body.Some? then l.delivered + [body.value] else l.delivered)
  }

  /** The transport has handed over the first n bytes on the wire; when the read has all it wants, the handler. */
  function Took(l: Link, n: nat): Link
    requires n <= |l.wire|
  {
    var r := AddBytes(l.receiver, l.wire[..n]);
    if Wanted(r) > 0 then l.(wire := l.wire[n..], receiver := r) else Completed(l, r, l.wire[n..])
  }

  function Reads(l: Link, k: nat): Link {
    if l.receiver.Stopped? then l else Took(l, Piece(k, Min(Wanted(l.receiver), |l.wire|)))
  }

  function ReadFailing(l: Link): Link {
    l.(receiver := Stopped(Held(l.receiver)))
  }

  function Step(l: Link, a: Act): Link {
    match a
    case Dispatch(body) => Dispatching(l, body)
    case WriteSome(k) => Writes(l, k)
    case WriteFails => WriteFailing(l)
    case ReadSome(k) => Reads(l, k)
    case ReadFails => ReadFailing(l)
  }

  function Run(l: Link, acts: seq<Act>): Link
    decreases |acts|
  {
    if acts == [] then l else Run(Step(l, acts[0]), acts[1..])
  }

  /** What dispatch actions a stream buffer can give rise to. */
  predicate Possible(a: Act) {
    a.Dispatch? ==> |a.body| <= SIZE_MAX
  }

  // ----- the invariant -----

  /** The package some of whose bytes may be on the wire: the outstanding write, or the one that failed. */
  function Current(l: Link): Option<Writing> {
    if l.sender.writing.Some? then l.sender.writing else l.broken
  }

  function CurrentBody(l: Link): seq<Body> {
    if Current(l).Some? then [Current(l).value.body] else []
  }

  function CurrentBytes(l: Link): seq<byte> {
    if Current(l).Some? then var w := Current(l).value; Frame(w.body)[..Min(w.written, |Frame(w.body)|)] else []
  }

  ghost predicate SenderInv(l: Link) {
    var s := l.sender;
    && (s.locked <==> s.writing.Some? || l.broken.Some?)
    && (s.writing.None? || l.broken.None?)
    && (!s.locked ==> s.queue == [])
    && l.dispatched == l.completed + CurrentBody(l) + s.queue
    && (Current(l).Some? ==> Current(l).value.written < |Frame(Current(l).value.body)|)
    && l.sent == Frames(l.completed) + CurrentBytes(l)
  }

  ghost predicate ReceiverInv(l: Link) {
    && l.sent == Frames(l.delivered) + (Held(l.receiver) + l.wire)
    && l.delivered <= l.dispatched
    && (match l.receiver
        case ReadingSize(got) => |got| < 8
        case ReadingBody(h, got) => |h| == 8 && (|got| < FromLittleEndian(h) || (got == [] && FromLittleEndian(h) == 0))
        case Stopped(_) => true)
  }

  ghost predicate Inv(l: Link) {
    SenderInv(l) && Sized(l.dispatched) && ReceiverInv(l)
  }

  /** The bytes on the wire so far are the beginning of the frames in dispatch order. */
  lemma SentIsPrefix(l: Link)
    requires SenderInv(l)
    ensures l.sent <= Frames(l.dispatched)
  {
    FramesAppend(l.completed + CurrentBody(l), l.sender.queue);
    if Current(l).Some? {
      FramesSnoc(l.completed, Current(l).value.body);
    } else {
      assert l.completed + [] == l.completed;
    }
  }

  lemma {:induction false} DispatchKeepsSender(l: Link, body: Body)
    requires SenderInv(l)
    ensures SenderInv(Dispatching(l, body))
  {
    var l' := Dispatching(l, body);
    if l.sender.locked {
      assert l'.dispatched == l.completed + CurrentBody(l) + (l.sender.queue + [body]);
    } else {
      assert CurrentBytes(l') == [];
    }
  }

  lemma DispatchKeepsInv(l: Link, body: Body)
    requires Inv(l) && |body| <= SIZE_MAX
    ensures Inv(Dispatching(l, body))
  {
    DispatchKeepsSender(l, body);
  }

  lemma JoinSlices(f: seq<byte>, m: nat, n: nat)
    requires m + n <= |f|
    ensures f[..m] + f[m..m + n] == f[..m + n]
  {
  }

  lemma Assoc<T>(a: seq<T>, b: seq<T>, c: seq<T>)
    ensures a + (b + c) == a + b + c
  {
  }

  lemma MoreIsSent(l: Link, l': Link, w: Writing, n: nat)
    requires SenderInv(l) && l.sender.writing == Some(w) && w.written + n < |Frame(w.body)|
    requires l'.sender == l.sender.(writing := Some(w.(written := w.written + n)))
             && l'.sent == l.sent + Frame(w.body)[w.written..w.written + n]
    requires l'.completed == l.completed && l'.dispatched == l.dispatched && l'.broken == l.broken
    ensures SenderInv(l')
  {
    var frame := Frame(w.body);
    assert CurrentBytes(l') == frame[..w.written + n] && CurrentBytes(l) == frame[..w.written];
    JoinSlices(frame, w.written, n);
    Assoc(Frames(l.completed), frame[..w.written], frame[w.written..w.written + n]);
  }

  /** More of the frame in flight. */
  lemma {:induction false} PartialWriteKeepsSender(l: Link, n: nat)
    requires SenderInv(l) && l.sender.writing.Some?
    requires l.sender.writing.value.written + n < |Frame(l.sender.writing.value.body)|
    ensures SenderInv(Wrote(l, n))
  {
    MoreIsSent(l, Wrote(l, n), l.sender.writing.value, n);
  }

  /** The sender after a frame is complete: the next package is on its way, or the lock is free. */
  lemma NextPackage(l: Link, l': Link)
    requires l.sender.locked && l.broken.None? && l'.broken.None? && l'.sender == OnWritten(l.sender)
    requires l'.dispatched == l'.completed + l.sender.queue && l'.sent == Frames(l'.completed)
    ensures SenderInv(l')
  {
    if l.sender.queue != [] {
      var next := l.sender.queue[0];
      assert [next] + l.sender.queue[1..] == l.sender.queue;
      Assoc(l'.completed, [next], l.sender.queue[1..]);
      assert CurrentBytes(l') == [];
    } else {
      assert l'.completed + [] + [] == l'.completed;
    }
  }

  /** The rest of the frame in flight, and the handler. */
  lemma LastWriteKeepsSender(l: Link)
    requires SenderInv(l) && l.sender.writing.Some?
    ensures var w := l.sender.writing.value;
            SenderInv(Wrote(l, |Frame(w.body)| - w.written))
  {
    var w := l.sender.writing.value;
    var frame := Frame(w.body);
    JoinSlices(frame, w.written, |frame| - w.written);
    assert frame[..|frame|] == frame;
    FramesSnoc(l.completed, w.body);
    Assoc(Frames(l.completed), frame[..w.written], frame[w.written..|frame|]);
    NextPackage(l, Wrote(l, |frame| - w.written));
  }

  lemma WriteKeepsSender(l: Link, k: nat)
    requires SenderInv(l)
    ensures SenderInv(Writes(l, k))
  {
    if l.sender.writing.Some? {
      var w := l.sender.writing.value;
      var n := Piece(k, |Frame(w.body)| - w.written);
      if w.written + n == |Frame(w.body)| {
        LastWriteKeepsSender(l);
      } else {
        PartialWriteKeepsSender(l, n);
      }
    }
  }

  lemma WriteFailKeepsInv(l: Link)
    requires Inv(l)
    ensures Inv(WriteFailing(l))
  {
    assert CurrentBody(WriteFailing(l)) == CurrentBody(l) && CurrentBytes(WriteFailing(l)) == CurrentBytes(l);
  }

  lemma Regroup(h: seq<byte>, got: seq<byte>, a: seq<byte>, b: seq<byte>)
    ensures h + (got + a) + b == h + got + (a + b)
    ensures h + (got + a) + b == h + (got + (a + b))
  {
  }

  lemma WriteKeepsReceiver(l: Link, k: nat)
    requires ReceiverInv(l)
    ensures ReceiverInv(Writes(l, k))
  {
    var l' := Writes(l, k);
    if l' != l {
      var piece := l'.sent[|l.sent|..];
      assert l'.sent == l.sent + piece && l'.wire == l.wire + piece;
      Regroup(Frames(l.delivered), Held(l.receiver), l.wire, piece);
    }
  }

  lemma WriteKeepsInv(l: Link, k: nat)
    requires Inv(l)
    ensures Inv(Writes(l, k))
  {
    WriteKeepsSender(l, k);
    WriteKeepsReceiver(l, k);
  }

  lemma ReadFailKeepsInv(l: Link)
    requires Inv(l)
    ensures Inv(ReadFailing(l))
  {
  }

  lemma DropCommon(f: seq<byte>, held: seq<byte>, rest: seq<byte>, g: seq<byte>)
    requires f + (held + rest) <= f + g
    ensures held <= g
  {
    assert held == (f + (held + rest))[|f|..|f| + |held|] == (f + g)[|f|..|f| + |held|] == g[..|held|];
  }

  /** What the receiver holds is the beginning of the frames still to be delivered. */
  lemma HeldIsPrefix(l: Link, held: seq<byte>, rest: seq<byte>)
    requires SenderInv(l) && l.delivered <= l.dispatched
    requires l.sent == Frames(l.delivered) + (held + rest)
    ensures held <= Frames(l.dispatched[|l.delivered|..])
  {
    var k := |l.delivered|;
    SentIsPrefix(l);
    assert l.dispatched == l.delivered + l.dispatched[k..];
    FramesAppend(l.delivered, l.dispatched[k..]);
    DropCommon(Frames(l.delivered), held, rest, Frames(l.dispatched[k..]));
  }

  lemma HeadAndTail(header: seq<byte>, got: seq<byte>)
    requires |header| == 8
    ensures (header + got)[..8] == header && (header + got)[8..] == got
  {
  }

  /** A complete body is the next one dispatched. */
  lemma {:induction false} CompleteBody(l: Link, header: seq<byte>, got: seq<byte>, wire: seq<byte>)
    requires SenderInv(l) && Sized(l.dispatched) && l.delivered <= l.dispatched
    requires l.sent == Frames(l.delivered) + (header + got + wire)
    requires |header| == 8 && |got| == FromLittleEndian(header)
    ensures l.delivered + [got] <= l.dispatched
    ensures l.sent == Frames(l.delivered + [got]) + wire
  {
    var k := |l.delivered|;
    var held := header + got;
    HeldIsPrefix(l, held, wire);
    FirstFrame(held, l.dispatched[k..]);
    HeadAndTail(header, got);
    assert got == l.dispatched[k];
    assert held == Frame(got);
    FramesSnoc(l.delivered, got);
    Assoc(Frames(l.delivered), held, wire);
  }

  lemma CompleteReadKeepsInv(l: Link, r: Receiver, wire: seq<byte>)
    requires SenderInv(l) && l.delivered <= l.dispatched && Sized(l.dispatched)
    requires l.sent == Frames(l.delivered) + (Held(r) + wire)
    requires match r
             case ReadingSize(got) => |got| == 8
             case ReadingBody(h, got) => |h| == 8 && |got| == FromLittleEndian(h)
             case Stopped(_) => false
    ensures ReceiverInv(Completed(l, r, wire))
  {
    match r {
      case ReadingSize(got) =>
        assert got + [] == got;
      case ReadingBody(h, got) =>
        if got == [] {
          assert h + [] == h;
        } else {
          CompleteBody(l, h, got, wire);
          assert [] + wire == wire;
        }
      case Stopped(_) =>
    }
  }

  lemma HeldGrows(r: Receiver, wire: seq<byte>, n: nat)
    requires !r.Stopped? && n <= |wire|
    ensures Held(AddBytes(r, wire[..n])) + wire[n..] == Held(r) + wire
  {
    assert wire == wire[..n] + wire[n..];
    match r {
      case ReadingSize(got) => Regroup([], got, wire[..n], wire[n..]);
      case ReadingBody(h, got) => Regroup(h, got, wire[..n], wire[n..]);
    }
  }

  lemma {:induction false} TakeBytes(l: Link, n: nat)
    requires ReceiverInv(l) && !l.receiver.Stopped? && n <= |l.wire| && n <= Wanted(l.receiver)
    ensures var r := AddBytes(l.receiver, l.wire[..n]);
            && l.sent == Frames(l.delivered) + (Held(r) + l.wire[n..])
            && Wanted(r) == Wanted(l.receiver) - n
            && (match r
                case ReadingSize(got) => |got| <= 8
                case ReadingBody(h, got) => |h| == 8 && |got| <= FromLittleEndian(h)
                case Stopped(_) => false)
  {
    HeldGrows(l.receiver, l.wire, n);
  }

  lemma ReadKeepsInv(l: Link, k: nat)
    requires Inv(l)
    ensures Inv(Reads(l, k))
  {
    if !l.receiver.Stopped? {
      var n := Piece(k, Min(Wanted(l.receiver), |l.wire|));
      var r := AddBytes(l.receiver, l.wire[..n]);
      TakeBytes(l, n);
      if Wanted(r) == 0 {
        CompleteReadKeepsInv(l, r, l.wire[n..]);
      }
    }
  }

  lemma StepKeepsInv(l: Link, a: Act)
    requires Inv(l) && Possible(a)
    ensures Inv(Step(l, a))
  {
    match a {
      case Dispatch(body) => DispatchKeepsInv(l, body);
      case WriteSome(k) => WriteKeepsInv(l, k);
      case WriteFails => WriteFailKeepsInv(l);
      case ReadSome(k) => ReadKeepsInv(l, k);
      case ReadFails => ReadFailKeepsInv(l);
    }
  }

  lemma {:induction false} RunKeepsInv(l: Link, acts: seq<Act>)
    requires Inv(l) && forall i :: 0 <= i < |acts| ==> Possible(acts[i])
    ensures Inv(Run(l, acts))
    decreases |acts|
  {
    if acts != [] {
      StepKeepsInv(l, acts[0]);
      RunKeepsInv(Step(l, acts[0]), acts[1..]);
    }
  }

  // ----- main results -----

  /**
   * In every run, whatever the sizes of the pieces written and read and wherever either side fails: what was
   * delivered is a prefix of what was dispatched, and the bytes on the wire are a prefix of the frames dispatched.
   */
  lemma {:induction false} Delivery(acts: seq<Act>)
    requires forall i :: 0 <= i < |acts| ==> Possible(acts[i])
    ensures var l := Run(INIT, acts);
            && l.delivered <= l.dispatched
            && l.sent <= Frames(l.dispatched)
            && l.completed <= l.dispatched
            && l.dispatched == l.completed + CurrentBody(l) + l.sender.queue
            && (l.sender.locked <==> CurrentBody(l) != [])
  {
    assert Inv(INIT);
    RunKeepsInv(INIT, acts);
    SentIsPrefix(Run(INIT, acts));
  }

  /** The lock is set and no write is outstanding whose handler could release it. */
  predicate Stuck(s: Sender) {
    s.locked && s.writing.None?
  }

  function Dispatched(acts: seq<Act>): seq<Body> {
    if acts == [] then [] else (if acts[0].Dispatch? then [acts[0].body] else []) + Dispatched(acts[1..])
  }

  lemma {:induction false} RunDispatches(l: Link, acts: seq<Act>)
    ensures Run(l, acts).dispatched == l.dispatched + Dispatched(acts)
    decreases |acts|
  {
    if acts == [] {
      assert l.dispatched + [] == l.dispatched;
    } else {
      RunDispatches(Step(l, acts[0]), acts[1..]);
      assert Step(l, acts[0]).dispatched == l.dispatched + (if acts[0].Dispatch? then [acts[0].body] else []);
      Assoc(l.dispatched, if acts[0].Dispatch? then [acts[0].body] else [], Dispatched(acts[1..]));
    }
  }

  /** A sender whose lock is stuck stays so: it writes no byte, completes nothing and queues whatever is dispatched. */
  lemma {:induction false} StuckForever(l: Link, acts: seq<Act>)
    requires Stuck(l.sender)
    ensures var l' := Run(l, acts);
            && Stuck(l'.sender) && l'.sent == l.sent && l'.completed == l.completed
            && l'.sender.queue == l.sender.queue + Dispatched(acts)
    decreases |acts|
  {
    if acts == [] {
      assert l.sender.queue + [] == l.sender.queue;
    } else {
      StuckForever(Step(l, acts[0]), acts[1..]);
      Assoc(l.sender.queue, if acts[0].Dispatch? then [acts[0].body] else [], Dispatched(acts[1..]));
    }
  }

  /**
   * After a failed write the lock is never released: for every continuation of the run no byte is written and nothing
   * more is completed. And no other step sets the lock and leaves it: without a failed write it is held by a write.
   */
  lemma {:induction false} FrozenAfterFailure(l: Link, acts: seq<Act>)
    requires Inv(l)
    ensures Stuck(l.sender) <==> l.broken.Some?
    ensures var l' := Run(WriteFailing(l), acts);
            l.sender.writing.Some? ==>
              && Stuck(l'.sender) && l'.sent == l.sent && l'.completed == l.completed
              && l'.sender.queue == l.sender.queue + Dispatched(acts)
  {
    if l.sender.writing.Some? {
      StuckForever(WriteFailing(l), acts);
    }
  }

  // ----- the receive loop does not stop by itself -----

  ghost predicate Running(l: Link) {
    match l.receiver
    case ReadingSize(_) => true
    case ReadingBody(h, _) => FromLittleEndian(h) > 0
    case Stopped(_) => false
  }

  predicate NoneEmpty(bodies: seq<Body>) {
    forall i :: 0 <= i < |bodies| ==> bodies[i] != []
  }

  lemma SizeIsPositive(l: Link, got: seq<byte>, wire: seq<byte>)
    requires SenderInv(l) && Sized(l.dispatched) && l.delivered <= l.dispatched && NoneEmpty(l.dispatched)
    requires l.sent == Frames(l.delivered) + (got + wire) && |got| == 8
    ensures FromLittleEndian(got) > 0
  {
    HeldIsPrefix(l, got, wire);
    FirstFrame(got, l.dispatched[|l.delivered|..]);
    assert got[..8] == got;
  }

  lemma ReadKeepsRunning(l: Link, k: nat)
    requires Inv(l) && Running(l) && NoneEmpty(l.dispatched)
    ensures Running(Reads(l, k))
  {
    if l.receiver.ReadingSize? {
      var n := Piece(k, Min(Wanted(l.receiver), |l.wire|));
      var got := l.receiver.got + l.wire[..n];
      if |got| == 8 {
        HeldGrows(l.receiver, l.wire, n);
        assert Held(AddBytes(l.receiver, l.wire[..n])) == got;
        SizeIsPositive(l, got, l.wire[n..]);
      }
    }
  }

  /** Steps of a run without read failures, in which no stream is empty. */
  predicate Healthy(a: Act) {
    Possible(a) && !a.ReadFails? && (a.Dispatch? ==> a.body != [])
  }

  lemma StepKeepsRunning(l: Link, a: Act)
    requires Inv(l) && Running(l) && NoneEmpty(l.dispatched) && Healthy(a)
    ensures Running(Step(l, a)) && NoneEmpty(Step(l, a).dispatched)
  {
    if a.ReadSome? {
      ReadKeepsRunning(l, a.k);
    }
  }

  lemma {:induction false} RunKeepsRunning(l: Link, acts: seq<Act>)
    requires Inv(l) && Running(l) && NoneEmpty(l.dispatched)
    requires forall i :: 0 <= i < |acts| ==> Healthy(acts[i])
    ensures Running(Run(l, acts)) && NoneEmpty(Run(l, acts).dispatched)
    ensures (forall i :: 0 <= i < |acts| ==> !acts[i].WriteFails?) ==> Run(l, acts).broken == l.broken
    decreases |acts|
  {
    if acts != [] {
      StepKeepsInv(l, acts[0]);
      StepKeepsRunning(l, acts[0]);
      RunKeepsRunning(Step(l, acts[0]), acts[1..]);
    }
  }

  /** Streams carry a 16-byte header, so the zero-length branch of the handlers is never taken. */
  lemma ReceiverNeverStops(acts: seq<Act>)
    requires forall i :: 0 <= i < |acts| ==> Possible(acts[i]) && !acts[i].ReadFails?
    requires forall i :: 0 <= i < |acts| && acts[i].Dispatch? ==> |acts[i].body| >= 16
    ensures !Run(INIT, acts).receiver.Stopped?
  {
    RunKeepsRunning(INIT, acts);
  }

  // ----- nothing is lost: without failures everything arrives -----

  /** Bytes still to be written count twice, since they have to be read as well. */
  ghost function Remaining(l: Link): int {
    2 * (|Frames(l.dispatched)| - |l.sent|) + |l.wire|
  }

  /** A step of the transport that moves bytes. */
  ghost predicate Productive(l: Link, a: Act) {
    || (a.WriteSome? && a.k > 0 && l.sender.writing.Some?)
    || (a.ReadSome? && a.k > 0 && l.wire != [])
  }

  lemma WriteShrinks(l: Link, k: nat)
    requires k > 0 && l.sender.writing.Some?
    requires l.sender.writing.value.written < |Frame(l.sender.writing.value.body)|
    ensures var l' := Writes(l, k);
            l'.dispatched == l.dispatched && Remaining(l') < Remaining(l) && l'.broken == l.broken
  {
  }

  lemma ReadShrinks(l: Link, k: nat)
    requires k > 0 && l.wire != [] && Wanted(l.receiver) > 0
    ensures var l' := Reads(l, k);
            l'.dispatched == l.dispatched && Remaining(l') < Remaining(l) && l'.broken == l.broken
  {
  }

  lemma ProductiveStep(l: Link, a: Act)
    requires Inv(l) && Running(l) && NoneEmpty(l.dispatched) && l.broken.None? && Productive(l, a)
    ensures var l' := Step(l, a);
            && Inv(l') && Running(l') && l'.dispatched == l.dispatched && l'.broken.None?
            && 0 <= Remaining(l') < Remaining(l)
  {
    StepKeepsInv(l, a);
    StepKeepsRunning(l, a);
    SentIsPrefix(Step(l, a));
    if a.WriteSome? {
      WriteShrinks(l, a.k);
    } else {
      ReadShrinks(l, a.k);
    }
  }

  /** When nothing can move, everything has been delivered. */
  lemma Quiescent(l: Link)
    requires Inv(l) && Running(l) && l.sender.writing.None? && l.broken.None? && l.wire == []
    ensures l.delivered == l.dispatched
  {
    var k := |l.delivered|;
    HeldIsPrefix(l, Held(l.receiver), []);
    assert l.sent == Frames(l.dispatched) by {
      assert l.completed + [] + [] == l.completed;
    }
    assert l.dispatched == l.delivered + l.dispatched[k..];
    FramesAppend(l.delivered, l.dispatched[k..]);
    assert Held(l.receiver) == Frames(l.dispatched[k..]);
    if k < |l.dispatched| {
      FirstFrame(Held(l.receiver), l.dispatched[k..]);
    }
  }

  ghost predicate ProductiveRun(l: Link, acts: seq<Act>)
    decreases |acts|
  {
    acts == [] || (Productive(l, acts[0]) && ProductiveRun(Step(l, acts[0]), acts[1..]))
  }

  /**
   * From every state without a failure, every schedule of steps that move bytes is finite, of bounded length,
   * and if it cannot be continued then all that was dispatched has been delivered.
   */
  lemma {:induction false} EverythingArrives(l: Link, acts: seq<Act>)
    requires Inv(l) && Running(l) && NoneEmpty(l.dispatched) && l.broken.None? && ProductiveRun(l, acts)
    ensures |acts| <= Remaining(l)
    ensures var l' := Run(l, acts);
            l'.dispatched == l.dispatched && ((exists a :: Productive(l', a)) || l'.delivered == l.dispatched)
    decreases |acts|
  {
    if acts != [] {
      ProductiveStep(l, acts[0]);
      EverythingArrives(Step(l, acts[0]), acts[1..]);
    } else {
      SentIsPrefix(l);
      if l.sender.writing.Some? {
        assert Productive(l, WriteSome(1));
      } else if l.wire != [] {
        assert Productive(l, ReadSome(1));
      } else {
        Quiescent(l);
      }
    }
  }

  /** The same from the start: after any run without failures, whatever is still under way arrives. */
  lemma {:induction false} NothingIsLost(acts: seq<Act>, more: seq<Act>)
    requires forall i :: 0 <= i < |acts| ==> Healthy(acts[i]) && !acts[i].WriteFails?
    requires ProductiveRun(Run(INIT, acts), more)
    ensures var l, l' := Run(INIT, acts), Run(Run(INIT, acts), more);
            |more| <= Remaining(l) && ((exists a :: Productive(l', a)) || l'.delivered == l'.dispatched == l.dispatched)
  {
    RunKeepsInv(INIT, acts);
    RunKeepsRunning(INIT, acts);
    EverythingArrives(Run(INIT, acts), more);
  }
}
