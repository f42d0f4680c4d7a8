/**
 * Two connected peers: streams, responses, uids and callbacks on top of two links, one in each direction.
 * Steps are written for the left peer; the right peer makes the same steps on the mirrored world.
 */
module Peers {
  import opened Bytes
  import opened Links

  const UID_LIMIT: nat := 0x1_0000_0000_0000_0000

  // ----- headers -----

  /** The ostream constructor: command and uid. */
  function Header(command: uint64, uid: uint64): (h: Body)
    ensures |h| == 16
  {
    LittleEndian(8, command) + LittleEndian(8, uid)
  }

  // The istream constructor. It leaves its variables unset when a body is shorter than the
  // header; such a body is read here as if it ended there, and no run below delivers one.
  function CommandOf(body: Body): (command: uint64) {
    var s := body[..Min(8, |body|)];
    Le64AtMost(s);
    FromLittleEndian(s)
  }

  function UidOf(body: Body): (uid: uint64) {
    var s := body[Min(8, |body|)..Min(16, |body|)];
    Le64AtMost(s);
    FromLittleEndian(s)
  }

  lemma {:induction false} Pow256Monotone(m: nat, n: nat)
    requires m <= n
    ensures Pow256(m) <= Pow256(n)
    decreases n
  {
    if m < n {
      Pow256Monotone(m, n - 1);
    }
  }

  lemma Le64AtMost(s: seq<byte>)
    requires |s| <= 8
    ensures FromLittleEndian(s) < UID_LIMIT
  {
    FromLittleEndianBound(s);
    Pow256Monotone(|s|, 8);
    EightBytes(8);
  }

  lemma HeaderRoundTrip(command: uint64, uid: uint64, rest: seq<byte>)
    ensures CommandOf(Header(command, uid) + rest) == command && UidOf(Header(command, uid) + rest) == uid
  {
    var b := Header(command, uid) + rest;
    assert b[..8] == LittleEndian(8, command) && b[8..16] == LittleEndian(8, uid);
    Le64RoundTrip(command);
    Le64RoundTrip(uid);
  }

  /** The bytes of a header: the digits of the command and of the uid to the base 256, lowest first. */
  lemma HeaderBytes(command: uint64, uid: uint64, i: nat)
    requires i < 8
    ensures Header(command, uid)[i] == (command / Pow256(i)) % 256
    ensures Header(command, uid)[8 + i] == (uid / Pow256(i)) % 256
  {
    LittleEndianDigit(8, command, i);
    LittleEndianDigit(8, uid, i);
  }

  lemma HeaderStays(body: Body, more: seq<byte>)
    requires |body| >= 16
    ensures CommandOf(body + more) == CommandOf(body) && UidOf(body + more) == UidOf(body)
  {
    assert (body + more)[..8] == body[..8] && (body + more)[8..16] == body[8..16];
  }

  // ----- one peer -----

  /** Which peer's create_stream chose a uid, seen from the peer that holds the stream. */
  datatype Origin = Mine | Theirs

  function Flip(o: Origin): Origin { if o.Mine? then Theirs else Mine }

  /** An ostream. `bad` is set when its buffer is full, after which writes do nothing. */
  datatype OutStream = OutStream(body: Body, sent: bool, bad: bool, origin: Origin)

  /** One call of create_stream; the callback of call number n is known as n. */
  datatype Created = Created(command: uint64, withCallback: bool)

  /** What became of an incoming package: a callback was called with it, or the received signal. */
  datatype Event = Fired(callback: nat, body: Body) | Received(body: Body)

  /**
   * created is the log of create_stream calls; its length modulo 2^64 is _uid_counter. streams are all ostreams made
   * here, sendOrder those sent, in order; events has one entry for each package delivered here, origins its provenance.
   */
  datatype Peer = Peer(
    created: seq<Created>, callbacks: map<uint64, nat>, streams: seq<OutStream>, sendOrder: seq<nat>,
    events: seq<Event>, origins: seq<Origin>)

  const INIT_PEER := Peer([], map[], [], [], [], [])

  function CreateStream(p: Peer, command: uint64, withCallback: bool): Peer {
    var uid: uint64 := |p.created| % UID_LIMIT;
    p.(created := p.created + [Created(command, withCallback)],
       callbacks := if withCallback then p.callbacks[uid := |p.created|] else p.callbacks,
       streams := p.streams + [OutStream(Header(command, uid), false, false, Mine)])
  }

  /** istream::create_response on the i-th package delivered here. */
  function CreateResponse(p: Peer, i: nat): Peer {
    if i >= |p.events| || i >= |p.origins| then p else
      var body := p.events[i].body;
      p.(streams := p.streams + [OutStream(Header(CommandOf(body), UidOf(body)), false, false, p.origins[i])])
  }

  /** ostream::write. */
  function Written(s: OutStream, bytes: seq<byte>): OutStream {
    if s.sent || s.bad then s else
      var room := if |s.body| <= SIZE_MAX then SIZE_MAX - |s.body| else 0;
      s.(body := s.body + bytes[..Min(room, |bytes|)], bad := room < |bytes|)
  }

  function WriteStream(p: Peer, j: nat, bytes: seq<byte>): Peer {
    if j >= |p.streams| then p else p.(streams := p.streams[j := Written(p.streams[j], bytes)])
  }

  /** ostream::send and the destructor: does anything only the first time. */
  predicate Sends(p: Peer, j: nat) {
    j < |p.streams| && !p.streams[j].sent
  }

  function MarkSent(p: Peer, j: nat): Peer
    requires Sends(p, j)
  {
    p.(streams := p.streams[j := p.streams[j].(sent := true)], sendOrder := p.sendOrder + [j])
  }

  /**
   * What is done with a package whose istream has read this uid: the callback registered under it, once, or the
   * received signal.
   */
  function DeliverUnder(p: Peer, uid: uint64, body: Body, origin: Origin): Peer {
    var p' := p.(origins := p.origins + [origin]);
    if uid in p.callbacks then
      p'.(callbacks := p.callbacks - {uid}, events := p.events + [Fired(p.callbacks[uid], body)])
    else
      p'.(events := p.events + [Received(body)])
  }

  /** read_package_body_handler, for a package with a whole header. */
  function Deliver(p: Peer, body: Body, origin: Origin): Peer {
    DeliverUnder(p, UidOf(body), body, origin)
  }

  // ----- the world -----

  /** out carries packages from me to other, inn from other to me. */
  datatype World = World(me: Peer, other: Peer, out: Link, inn: Link)

  const INIT_WORLD := World(INIT_PEER, INIT_PEER, Links.INIT, Links.INIT)

  function Swap(w: World): World { World(w.other, w.me, w.inn, w.out) }

  datatype Move =
    | Create(command: uint64, withCallback: bool)
    | Respond(i: nat)
    | Write(j: nat, bytes: seq<byte>)
    | Send(j: nat)
    | TransportOut(k: nat)
    | TransportOutFails
    | TransportIn(k: nat)
    | TransportInFails

  /** The provenance of the next package to come out of a link, from the log of the peer that sent it. */
  function NextOrigin(sender: Peer, n: nat): Origin {
    if n < |sender.sendOrder| && sender.sendOrder[n] < |sender.streams| then
      Flip(sender.streams[sender.sendOrder[n]].origin)
    else Theirs
  }

  function ReceiveSome(w: World, k: nat): World {
    var inn := Reads(w.inn, k);
    if |inn.delivered| > |w.inn.delivered| then
      var body := inn.delivered[|w.inn.delivered|];
      w.(inn := inn, me := Deliver(w.me, body, NextOrigin(w.other, |w.inn.delivered|)))
    else w.(inn := inn)
  }

  function LeftStep(w: World, m: Move): World {
    match m
    case Create(c, cb) => w.(me := CreateStream(w.me, c, cb))
    case Respond(i) => w.(me := CreateResponse(w.me, i))
    case Write(j, bytes) => w.(me := WriteStream(w.me, j, bytes))
    case Send(j) =>
      if Sends(w.me, j) then w.(me := MarkSent(w.me, j), out := Dispatching(w.out, w.me.streams[j].body)) else w
    case TransportOut(k) => w.(out := Writes(w.out, k))
    case TransportOutFails => w.(out := WriteFailing(w.out))
    case TransportIn(k) => ReceiveSome(w, k)
    case TransportInFails => w.(inn := ReadFailing(w.inn))
  }

  datatype By = Left(move: Move) | Right(move: Move)

  function Step(w: World, b: By): World {
    match b
    case Left(m) => LeftStep(w, m)
    case Right(m) => Swap(LeftStep(Swap(w), m))
  }

  function Run(w: World, steps: seq<By>): World
    decreases |steps|
  {
    if steps == [] then w else Run(Step(w, steps[0]), steps[1..])
  }

  // ----- the invariant -----

  /** A package's header names a create_stream call of its originator and carries that call's command. */
  ghost predicate HeaderOk(me: Peer, other: Peer, body: Body, origin: Origin) {
    var created := if origin.Mine? then me.created else other.created;
    |body| >= 16 && UidOf(body) < |created| && CommandOf(body) == created[UidOf(body)].command
  }

  ghost predicate StreamsOk(me: Peer, other: Peer) {
    forall j :: 0 <= j < |me.streams| ==>
      |me.streams[j].body| <= SIZE_MAX && HeaderOk(me, other, me.streams[j].body, me.streams[j].origin)
  }

  /** Each stream that was sent was dispatched once, with the bytes it had then. */
  ghost predicate SendsOk(me: Peer, out: Link) {
    && |me.sendOrder| == |out.dispatched|
    && (forall i :: 0 <= i < |me.sendOrder| ==>
          && me.sendOrder[i] < |me.streams| && me.streams[me.sendOrder[i]].sent
          && out.dispatched[i] == me.streams[me.sendOrder[i]].body)
    && (forall i, i' :: 0 <= i < i' < |me.sendOrder| ==> me.sendOrder[i] != me.sendOrder[i'])
    && (forall j :: 0 <= j < |me.streams| && me.streams[j].sent ==> j in me.sendOrder)
  }

  ghost predicate InboxOk(me: Peer, other: Peer, inn: Link) {
    && |me.events| == |me.origins| == |inn.delivered|
    && |inn.delivered| <= |other.sendOrder|
    && (forall i :: 0 <= i < |me.events| ==>
          && me.events[i].body == inn.delivered[i]
          && me.origins[i] == NextOrigin(other, i)
          && HeaderOk(me, other, me.events[i].body, me.origins[i]))
  }

  ghost predicate HasFired(events: seq<Event>, callback: nat) {
    exists i :: 0 <= i < |events| && events[i].Fired? && events[i].callback == callback
  }

  /** The pending callbacks are those registered and not yet fired, each under its own number. */
  ghost predicate PendingOk(me: Peer) {
    && (forall u :: u in me.callbacks ==> me.callbacks[u] == u)
    && (forall u: nat :: (u < UID_LIMIT && u in me.callbacks) <==>
          (u < |me.created| && me.created[u].withCallback && !HasFired(me.events, u)))
  }

  ghost predicate FiredOk(me: Peer) {
    && (forall i :: 0 <= i < |me.events| && me.events[i].Fired? ==>
          && me.events[i].callback == UidOf(me.events[i].body) < |me.created|
          && me.created[me.events[i].callback].withCallback
          && !HasFired(me.events[..i], me.events[i].callback))
  }

  /** A package of my own conversation goes to the received signal only without a callback, or after it has fired. */
  ghost predicate ReceivedOk(me: Peer) {
    forall i :: 0 <= i < |me.events| && i < |me.origins| && me.origins[i].Mine? && me.events[i].Received? ==>
      var u := UidOf(me.events[i].body);
      u < |me.created| && (me.created[u].withCallback ==> HasFired(me.events[..i], u))
  }

  ghost predicate PeerInv(me: Peer, other: Peer, out: Link, inn: Link) {
    && StreamsOk(me, other) && SendsOk(me, out) && InboxOk(me, other, inn)
    && PendingOk(me) && FiredOk(me) && ReceivedOk(me)
  }

  ghost predicate CoreInv(w: World) {
    && Links.Inv(w.out) && Links.Inv(w.inn)
    && PeerInv(w.me, w.other, w.out, w.inn) && PeerInv(w.other, w.me, w.inn, w.out)
  }

  /** Neither uid counter has wrapped around. */
  predicate NoWrap(w: World) {
    |w.me.created| <= UID_LIMIT && |w.other.created| <= UID_LIMIT
  }

  ghost predicate Inv(w: World) {
    NoWrap(w) ==> CoreInv(w)
  }

  // ----- a step of one peer does not disturb the other's part of the invariant -----

  ghost predicate Extends(p: Peer, p': Peer) {
    && p.created <= p'.created
    && p.sendOrder <= p'.sendOrder
    && |p.streams| <= |p'.streams|
    && (forall j :: 0 <= j < |p.streams| && p.streams[j].sent ==> p'.streams[j] == p.streams[j])
  }

  lemma OtherUndisturbed(me: Peer, me': Peer, other: Peer, inn: Link, inn': Link, out: Link, out': Link)
    requires PeerInv(other, me, inn, out) && SendsOk(me, out) && Extends(me, me')
    requires inn'.dispatched == inn.dispatched && out'.delivered == out.delivered
    ensures PeerInv(other, me', inn', out')
  {
    forall i | 0 <= i < |other.events|
      ensures other.origins[i] == NextOrigin(me', i)
    {
      assert me.streams[me.sendOrder[i]].sent;
    }
  }

  lemma HistoryKept(me: Peer, me': Peer, other: Peer, inn: Link)
    requires InboxOk(me, other, inn) && FiredOk(me) && ReceivedOk(me)
    requires me'.events == me.events && me'.origins == me.origins && me.created <= me'.created
    ensures InboxOk(me', other, inn) && FiredOk(me') && ReceivedOk(me')
  {
  }

  // ----- create_stream and create_response -----

  lemma NewStreamKept(me: Peer, me': Peer, other: Peer, out: Link, s: OutStream)
    requires StreamsOk(me, other) && SendsOk(me, out)
    requires me'.streams == me.streams + [s] && me'.sendOrder == me.sendOrder && me.created <= me'.created
    requires !s.sent && |s.body| <= SIZE_MAX && HeaderOk(me', other, s.body, s.origin)
    ensures StreamsOk(me', other) && SendsOk(me', out) && Extends(me, me')
  {
    forall j | 0 <= j < |me'.streams|
      ensures |me'.streams[j].body| <= SIZE_MAX && HeaderOk(me', other, me'.streams[j].body, me'.streams[j].origin)
    {
      if j < |me.streams| {
        assert me'.streams[j] == me.streams[j];
      }
    }
  }

  /** A new uid is not pending, so a registration never overwrites another. */
  lemma NewUidIsFree(me: Peer)
    requires PendingOk(me) && |me.created| < UID_LIMIT
    ensures |me.created| % UID_LIMIT == |me.created| && |me.created| !in me.callbacks
  {
    SmallModulo(|me.created|, UID_LIMIT);
  }

  lemma {:induction false} CreateKeepsPending(me: Peer, command: uint64, cb: bool)
    requires PendingOk(me) && FiredOk(me) && |me.created| < UID_LIMIT
    ensures PendingOk(CreateStream(me, command, cb))
  {
    var me' := CreateStream(me, command, cb);
    var uid := |me.created|;
    NewUidIsFree(me);
    assert !HasFired(me.events, uid);
    forall u: nat
      ensures (u < UID_LIMIT && u in me'.callbacks) <==>
              (u < |me'.created| && me'.created[u].withCallback && !HasFired(me'.events, u))
    {
      assert (u < UID_LIMIT && u in me.callbacks) <==>
             (u < |me.created| && me.created[u].withCallback && !HasFired(me.events, u));
      if u < uid {
        assert me'.created[u] == me.created[u];
      }
    }
  }

  lemma CreateKeeps(w: World, command: uint64, cb: bool)
    requires PeerInv(w.me, w.other, w.out, w.inn) && |w.me.created| < UID_LIMIT
    ensures var me' := CreateStream(w.me, command, cb);
            PeerInv(me', w.other, w.out, w.inn) && Extends(w.me, me')
  {
    var me' := CreateStream(w.me, command, cb);
    var uid := |w.me.created|;
    NewUidIsFree(w.me);
    HeaderRoundTrip(command, uid, []);
    assert Header(command, uid) + [] == Header(command, uid);
    NewStreamKept(w.me, me', w.other, w.out, OutStream(Header(command, uid), false, false, Mine));
    CreateKeepsPending(w.me, command, cb);
    HistoryKept(w.me, me', w.other, w.inn);
  }

  lemma RespondKeeps(w: World, i: nat)
    requires PeerInv(w.me, w.other, w.out, w.inn)
    ensures var me' := CreateResponse(w.me, i);
            PeerInv(me', w.other, w.out, w.inn) && Extends(w.me, me')
  {
    if i < |w.me.events| {
      var me' := CreateResponse(w.me, i);
      var body := w.me.events[i].body;
      var h := Header(CommandOf(body), UidOf(body));
      HeaderRoundTrip(CommandOf(body), UidOf(body), []);
      assert h + [] == h;
      NewStreamKept(w.me, me', w.other, w.out, OutStream(h, false, false, w.me.origins[i]));
      HistoryKept(w.me, me', w.other, w.inn);
    }
  }

  // ----- writing to a stream and sending it -----

  lemma WriteStreamKeeps(w: World, j: nat, bytes: seq<byte>)
    requires PeerInv(w.me, w.other, w.out, w.inn)
    ensures var me' := WriteStream(w.me, j, bytes);
            PeerInv(me', w.other, w.out, w.inn) && Extends(w.me, me')
  {
    if j < |w.me.streams| {
      var me, me' := w.me, WriteStream(w.me, j, bytes);
      var s := me.streams[j];
      if !s.sent && !s.bad {
        HeaderStays(s.body, bytes[..Min(SIZE_MAX - |s.body|, |bytes|)]);
      }
      assert HeaderOk(me', w.other, me'.streams[j].body, me'.streams[j].origin);
      HistoryKept(me, me', w.other, w.inn);
    }
  }

  lemma {:induction false} SendKeeps(w: World, j: nat)
    requires PeerInv(w.me, w.other, w.out, w.inn) && Sends(w.me, j)
    ensures var me' := MarkSent(w.me, j);
            PeerInv(me', w.other, Dispatching(w.out, w.me.streams[j].body), w.inn) && Extends(w.me, me')
  {
    var me, me' := w.me, MarkSent(w.me, j);
    var out' := Dispatching(w.out, me.streams[j].body);
    assert j !in me.sendOrder;
    assert SendsOk(me', out') by {
      forall i | 0 <= i < |me'.sendOrder|
        ensures me'.sendOrder[i] < |me'.streams| && me'.streams[me'.sendOrder[i]].sent
             && out'.dispatched[i] == me'.streams[me'.sendOrder[i]].body
      {
        if i < |me.sendOrder| {
          assert me.sendOrder[i] in me.sendOrder;
        }
      }
      forall k | 0 <= k < |me'.streams| && me'.streams[k].sent
        ensures k in me'.sendOrder
      {
        if k == j {
          assert me'.sendOrder[|me.sendOrder|] == j;
        } else {
          assert k in me.sendOrder;
        }
      }
    }
    HistoryKept(me, me', w.other, w.inn);
  }

  // ----- delivery -----

  lemma FiredAppend(events: seq<Event>, e: Event, c: nat)
    ensures HasFired(events + [e], c) <==> HasFired(events, c) || (e.Fired? && e.callback == c)
  {
    var events' := events + [e];
    if HasFired(events, c) {
      var i :| 0 <= i < |events| && events[i].Fired? && events[i].callback == c;
      assert events'[i] == events[i];
    }
    if e.Fired? && e.callback == c {
      assert events'[|events|] == e;
    }
    if HasFired(events', c) {
      var i :| 0 <= i < |events'| && events'[i].Fired? && events'[i].callback == c;
      assert i < |events| ==> events[i] == events'[i];
    }
  }

  lemma DeliverKeepsPending(me: Peer, body: Body, o: Origin)
    requires PendingOk(me)
    ensures PendingOk(Deliver(me, body, o))
  {
    var me' := Deliver(me, body, o);
    var uid := UidOf(body);
    var e := me'.events[|me.events|];
    assert me'.events == me.events + [e];
    forall u: nat
      ensures (u < UID_LIMIT && u in me'.callbacks) <==>
              (u < |me'.created| && me'.created[u].withCallback && !HasFired(me'.events, u))
    {
      FiredAppend(me.events, e, u);
      assert (u < UID_LIMIT && u in me.callbacks) <==>
             (u < |me.created| && me.created[u].withCallback && !HasFired(me.events, u));
    }
  }

  lemma {:induction false} DeliverKeepsFired(me: Peer, body: Body, o: Origin)
    requires PendingOk(me) && FiredOk(me)
    ensures FiredOk(Deliver(me, body, o))
  {
    var me' := Deliver(me, body, o);
    var n := |me.events|;
    assert me'.events[..n] == me.events;
    forall i | 0 <= i < |me'.events| && me'.events[i].Fired?
      ensures var e := me'.events[i];
              e.callback == UidOf(e.body) < |me'.created| && me'.created[e.callback].withCallback
                  && !HasFired(me'.events[..i], e.callback)
    {
      if i < n {
        assert me'.events[i] == me.events[i] && me'.events[..i] == me.events[..i];
      } else {
        var u: nat := UidOf(body);
        assert u < UID_LIMIT && u in me.callbacks;
      }
    }
  }

  lemma DeliverKeepsReceived(me: Peer, other: Peer, body: Body, o: Origin)
    requires PendingOk(me) && ReceivedOk(me) && |me.events| == |me.origins| && HeaderOk(me, other, body, o)
    ensures ReceivedOk(Deliver(me, body, o))
  {
    var me' := Deliver(me, body, o);
    var n := |me.events|;
    assert me'.events[..n] == me.events;
    forall i | 0 <= i < |me'.events| && me'.origins[i].Mine? && me'.events[i].Received?
      ensures var u := UidOf(me'.events[i].body);
              u < |me'.created| && (me'.created[u].withCallback ==> HasFired(me'.events[..i], u))
    {
      if i < n {
        assert me'.events[i] == me.events[i] && me'.events[..i] == me.events[..i] && me'.origins[i] == me.origins[i];
      } else {
        var u: nat := UidOf(body);
        assert !(u < UID_LIMIT && u in me.callbacks);
      }
    }
  }

  lemma DeliverKeepsInbox(me: Peer, other: Peer, inn: Link, inn': Link, o: Origin)
    requires InboxOk(me, other, inn)
    requires |inn'.delivered| == |inn.delivered| + 1 && inn.delivered <= inn'.delivered
    requires |inn'.delivered| <= |other.sendOrder|
    requires var body := inn'.delivered[|inn.delivered|];
             o == NextOrigin(other, |inn.delivered|) && HeaderOk(me, other, body, o)
    ensures InboxOk(Deliver(me, inn'.delivered[|inn.delivered|], o), other, inn')
  {
  }

  lemma {:induction false} DeliverKeeps(me: Peer, other: Peer, out: Link, inn: Link, inn': Link)
    requires PeerInv(me, other, out, inn) && StreamsOk(other, me) && SendsOk(other, inn)
    requires |inn'.delivered| == |inn.delivered| + 1 && inn.delivered <= inn'.delivered <= inn.dispatched
    ensures PeerInv(Deliver(me, inn'.delivered[|inn.delivered|], NextOrigin(other, |inn.delivered|)), other, out, inn')
  {
    var n := |inn.delivered|;
    var body, o := inn'.delivered[n], NextOrigin(other, n);
    NextHeader(me, other, inn, n);
    assert body == inn.dispatched[n];
    DeliverKeepsInbox(me, other, inn, inn', o);
    DeliverKeepsPending(me, body, o);
    DeliverKeepsFired(me, body, o);
    DeliverKeepsReceived(me, other, body, o);
    var me' := Deliver(me, body, o);
    assert me'.streams == me.streams && me'.sendOrder == me.sendOrder && me'.created == me.created;
  }

  /** The next package out of a link is a stream the other peer sent, so its header is right. */
  lemma NextHeader(me: Peer, other: Peer, inn: Link, n: nat)
    requires StreamsOk(other, me) && SendsOk(other, inn) && n < |inn.dispatched|
    ensures HeaderOk(me, other, inn.dispatched[n], NextOrigin(other, n))
  {
  }

  lemma ReadsShape(l: Link, k: nat)
    ensures var l' := Reads(l, k);
            && l'.dispatched == l.dispatched && l'.sender == l.sender
            && (l'.delivered == l.delivered || (l.delivered <= l'.delivered && |l'.delivered| == |l.delivered| + 1))
  {
  }

  /** What a step of one peer has to keep for the whole world's invariant to be kept. */
  lemma Assemble(w: World, w': World)
    requires CoreInv(w) && w'.other == w.other
    requires PeerInv(w'.me, w.other, w'.out, w'.inn) && Extends(w.me, w'.me)
    requires Links.Inv(w'.out) && Links.Inv(w'.inn)
    requires w'.inn.dispatched == w.inn.dispatched && w'.out.delivered == w.out.delivered
    ensures CoreInv(w')
  {
    OtherUndisturbed(w.me, w'.me, w.other, w.inn, w'.inn, w.out, w'.out);
  }

  lemma SamePeer(w: World, w': World)
    requires PeerInv(w.me, w.other, w.out, w.inn) && w'.me == w.me
    requires w'.out.dispatched == w.out.dispatched && w'.inn.delivered == w.inn.delivered
    ensures PeerInv(w'.me, w.other, w'.out, w'.inn) && Extends(w.me, w'.me)
  {
  }

  lemma ReceiveMore(w: World, k: nat, w': World)
    requires CoreInv(w) && w' == ReceiveSome(w, k) && |Reads(w.inn, k).delivered| > |w.inn.delivered|
    requires Links.Inv(w'.inn)
    ensures PeerInv(w'.me, w.other, w'.out, w'.inn) && Extends(w.me, w'.me)
  {
    ReadsShape(w.inn, k);
    DeliverKeeps(w.me, w.other, w.out, w.inn, Reads(w.inn, k));
  }

  lemma ReceiveNone(w: World, k: nat, w': World)
    requires CoreInv(w) && w' == ReceiveSome(w, k) && |Reads(w.inn, k).delivered| <= |w.inn.delivered|
    ensures PeerInv(w'.me, w.other, w'.out, w'.inn) && Extends(w.me, w'.me)
  {
    ReadsShape(w.inn, k);
    SamePeer(w, w');
  }

  lemma ReceiveLinks(w: World, k: nat, w': World)
    requires Links.Inv(w.inn) && w' == ReceiveSome(w, k)
    ensures w'.other == w.other && w'.out == w.out && w'.inn == Reads(w.inn, k)
    ensures Links.Inv(w'.inn) && w'.inn.dispatched == w.inn.dispatched
  {
    ReadKeepsInv(w.inn, k);
    ReadsShape(w.inn, k);
  }

  lemma {:induction false} ReceiveKeeps(w: World, k: nat, w': World)
    requires CoreInv(w) && w' == ReceiveSome(w, k)
    ensures CoreInv(w')
  {
    ReceiveLinks(w, k, w');
    if |w'.inn.delivered| > |w.inn.delivered| {
      ReceiveMore(w, k, w');
    } else {
      ReceiveNone(w, k, w');
    }
    Assemble(w, w');
  }

  lemma OutKeeps(w: World, out: Link)
    requires CoreInv(w) && Links.Inv(out) && out.dispatched == w.out.dispatched && out.delivered == w.out.delivered
    ensures CoreInv(w.(out := out))
  {
    SamePeer(w, w.(out := out));
    Assemble(w, w.(out := out));
  }

  lemma InKeeps(w: World, inn: Link)
    requires CoreInv(w) && Links.Inv(inn) && inn.dispatched == w.inn.dispatched && inn.delivered == w.inn.delivered
    ensures CoreInv(w.(inn := inn))
  {
    SamePeer(w, w.(inn := inn));
    Assemble(w, w.(inn := inn));
  }

  lemma WritesShape(l: Link, k: nat)
    ensures Writes(l, k).dispatched == l.dispatched && Writes(l, k).delivered == l.delivered
  {
  }

  lemma MeKeeps(w: World, me: Peer)
    requires CoreInv(w) && PeerInv(me, w.other, w.out, w.inn) && Extends(w.me, me)
    ensures CoreInv(w.(me := me))
  {
    Assemble(w, w.(me := me));
  }

  lemma SendStepKeeps(w: World, j: nat, w': World)
    requires CoreInv(w) && w' == LeftStep(w, Send(j))
    ensures CoreInv(w')
  {
    if Sends(w.me, j) {
      SendKeeps(w, j);
      DispatchKeepsInv(w.out, w.me.streams[j].body);
      Assemble(w, w');
    }
  }

  lemma OutMoveKeeps(w: World, m: Move, w': World)
    requires CoreInv(w) && w' == LeftStep(w, m) && (m.TransportOut? || m.TransportOutFails?)
    ensures CoreInv(w')
  {
    if m.TransportOut? {
      WriteKeepsInv(w.out, m.k);
      WritesShape(w.out, m.k);
      OutKeeps(w, Writes(w.out, m.k));
    } else {
      WriteFailKeepsInv(w.out);
      OutKeeps(w, WriteFailing(w.out));
    }
  }

  lemma InFailsKeeps(w: World)
    requires CoreInv(w)
    ensures CoreInv(w.(inn := ReadFailing(w.inn)))
  {
    ReadFailKeepsInv(w.inn);
    InKeeps(w, ReadFailing(w.inn));
  }

  lemma StreamMoveKeeps(w: World, m: Move, w': World)
    requires CoreInv(w) && w' == LeftStep(w, m) && (m.Create? || m.Respond? || m.Write?) && |w'.me.created| <= UID_LIMIT
    ensures CoreInv(w')
  {
    match m {
      case Create(c, cb) => CreateKeeps(w, c, cb);
      case Respond(i) => RespondKeeps(w, i);
      case Write(j, bytes) => WriteStreamKeeps(w, j, bytes);
    }
    MeKeeps(w, w'.me);
  }

  lemma {:induction false} LeftStepKeeps(w: World, m: Move, w': World)
    requires CoreInv(w) && w' == LeftStep(w, m) && |w'.me.created| <= UID_LIMIT
    ensures CoreInv(w')
  {
    match m {
      case Send(j) => SendStepKeeps(w, j, w');
      case TransportOut(_) => OutMoveKeeps(w, m, w');
      case TransportOutFails => OutMoveKeeps(w, m, w');
      case TransportIn(k) => ReceiveKeeps(w, k, w');
      case TransportInFails => InFailsKeeps(w);
      case _ => StreamMoveKeeps(w, m, w');
    }
  }

  lemma CreatedGrows(w: World, m: Move)
    ensures |w.me.created| <= |LeftStep(w, m).me.created| && LeftStep(w, m).other == w.other
  {
  }

  lemma {:induction false} StepKeeps(w: World, b: By)
    requires Inv(w)
    ensures Inv(Step(w, b))
  {
    var w' := Step(w, b);
    if NoWrap(w') {
      match b {
        case Left(m) =>
          CreatedGrows(w, m);
          LeftStepKeeps(w, m, w');
        case Right(m) =>
          CreatedGrows(Swap(w), m);
          LeftStepKeeps(Swap(w), m, LeftStep(Swap(w), m));
      }
    }
  }

  lemma {:induction false} RunKeeps(w: World, steps: seq<By>)
    requires Inv(w)
    ensures Inv(Run(w, steps))
    decreases |steps|
  {
    if steps != [] {
      StepKeeps(w, steps[0]);
      RunKeeps(Step(w, steps[0]), steps[1..]);
    }
  }

  /** Neither link has failed and both receive loops are at work. */
  ghost predicate Alive(w: World) {
    && CoreInv(w) && w.out.broken.None? && w.inn.broken.None? && Running(w.out) && Running(w.inn)
    && NoneEmpty(w.out.dispatched) && NoneEmpty(w.inn.dispatched)
  }

  lemma InitPending()
    ensures PendingOk(INIT_PEER)
  {
    assert !HasFired([], 0);
  }

  lemma InitIsAlive()
    ensures Alive(INIT_WORLD)
  {
    InitPending();
  }

  lemma Reachable(steps: seq<By>)
    requires NoWrap(Run(INIT_WORLD, steps))
    ensures CoreInv(Run(INIT_WORLD, steps))
  {
    InitIsAlive();
    RunKeeps(INIT_WORLD, steps);
  }

  // ----- main results -----

  /**
   * End to end: what arrived at one peer is a prefix of what the other sent, one package for each stream sent,
   * in the order of the first send, with command, uid and payload as written.
   */
  lemma ArrivesAsSent(steps: seq<By>)
    requires NoWrap(Run(INIT_WORLD, steps))
    ensures var w := Run(INIT_WORLD, steps);
            && |w.me.events| <= |w.other.sendOrder|
            && forall i :: 0 <= i < |w.me.events| ==>
                 w.other.sendOrder[i] < |w.other.streams|
                     && w.me.events[i].body == w.other.streams[w.other.sendOrder[i]].body
    ensures var w := Run(INIT_WORLD, steps);
            && (forall i, j :: 0 <= i < j < |w.other.sendOrder| ==> w.other.sendOrder[i] != w.other.sendOrder[j])
            && (forall j :: 0 <= j < |w.other.streams| ==> (w.other.streams[j].sent <==> j in w.other.sendOrder))
  {
    Reachable(steps);
    var w := Run(INIT_WORLD, steps);
    forall i | 0 <= i < |w.me.events|
      ensures w.other.sendOrder[i] < |w.other.streams|
              && w.me.events[i].body == w.other.streams[w.other.sendOrder[i]].body
    {
      assert w.inn.delivered[i] == w.inn.dispatched[i];
    }
  }

  /**
   * Uids and callbacks: the next uid is the number of create_stream calls so far and is not pending, and the callbacks
   * pending are those registered whose uid no package has yet been handed to.
   */
  lemma UidBookkeeping(steps: seq<By>)
    requires NoWrap(Run(INIT_WORLD, steps))
    ensures var me := Run(INIT_WORLD, steps).me;
            && (forall u: nat :: (u < UID_LIMIT && u in me.callbacks) <==>
                  (u < |me.created| && me.created[u].withCallback && !HasFired(me.events, u)))
            && (forall u :: u in me.callbacks ==> me.callbacks[u] == u)
            && (|me.created| < UID_LIMIT ==> |me.created| % UID_LIMIT == |me.created| && |me.created| !in me.callbacks)
  {
    Reachable(steps);
    if |Run(INIT_WORLD, steps).me.created| < UID_LIMIT {
      NewUidIsFree(Run(INIT_WORLD, steps).me);
    }
  }

  /**
   * The callback under the uid of the i-th package at a peer is registered, and no package before it was handed to
   * it.
   */
  ghost predicate Waiting(p: Peer, i: nat)
    requires i < |p.events|
  {
    var u := UidOf(p.events[i].body);
    u < |p.created| && p.created[u].withCallback && !HasFired(p.events[..i], u)
  }

  /** The i-th package at a peer is the first one under its uid, and there is a callback under that uid. */
  ghost predicate FirstAnswer(p: Peer, i: nat)
    requires i < |p.events|
  {
    var u := UidOf(p.events[i].body);
    && u < |p.created| && p.created[u].withCallback
    && forall i' :: 0 <= i' < i ==> UidOf(p.events[i'].body) != u
  }

  /** No stream of the other peer's own came under the uid of the i-th package before it. */
  ghost predicate Undisturbed(p: Peer, i: nat)
    requires i < |p.events|
  {
    forall k :: 0 <= k < i && k < |p.origins| && p.origins[k].Theirs? ==>
        UidOf(p.events[k].body) != UidOf(p.events[i].body)
  }

  /**
   * Every response in every run, whatever the other peer creates: it carries the uid and the command of a stream
   * created here, and it is handed to that stream's callback if and only if nothing was handed to it before.
   */
  lemma ResponseRouting(steps: seq<By>, i: nat)
    requires NoWrap(Run(INIT_WORLD, steps)) && i < |Run(INIT_WORLD, steps).me.events|
    ensures var me := Run(INIT_WORLD, steps).me;
            |me.origins| == |me.events| &&
            (me.origins[i].Mine? ==>
              var body := me.events[i].body;
              && UidOf(body) < |me.created| && CommandOf(body) == me.created[UidOf(body)].command
              && me.events[i] == if Waiting(me, i) then Fired(UidOf(body), body) else Received(body))
  {
    Reachable(steps);
    var me := Run(INIT_WORLD, steps).me;
    if me.origins[i].Mine? {
      Routed(me, Run(INIT_WORLD, steps).other, Run(INIT_WORLD, steps).inn, i);
    }
  }

  lemma Routed(me: Peer, other: Peer, inn: Link, i: nat)
    requires InboxOk(me, other, inn) && FiredOk(me) && ReceivedOk(me) && i < |me.events| && me.origins[i].Mine?
    ensures var body := me.events[i].body;
            && UidOf(body) < |me.created| && CommandOf(body) == me.created[UidOf(body)].command
            && me.events[i] == if Waiting(me, i) then Fired(UidOf(body), body) else Received(body)
  {
  }

  /**
   * In every run, also when both peers create streams: the first package under the uid of a stream created with a
   * callback is handed to that callback, and every later response to received, unless a stream that the other peer
   * created came first under the same uid.
   */
  lemma PairingWithoutCollision(steps: seq<By>, i: nat)
    requires NoWrap(Run(INIT_WORLD, steps)) && i < |Run(INIT_WORLD, steps).me.events|
    ensures var me := Run(INIT_WORLD, steps).me;
            var body := me.events[i].body;
            |me.origins| == |me.events| &&
            (me.origins[i].Mine? && Undisturbed(me, i) ==>
              me.events[i] == if FirstAnswer(me, i) then Fired(UidOf(body), body) else Received(body))
  {
    Reachable(steps);
    ResponseRouting(steps, i);
    var w := Run(INIT_WORLD, steps);
    if w.me.origins[i].Mine? && Undisturbed(w.me, i) {
      WaitingIsFirst(w.me, w.other, w.inn, i);
    }
  }

  lemma FiredAt(events: seq<Event>, k: nat, i: nat, u: nat)
    requires k < i <= |events| && events[k].Fired? && events[k].callback == u
    ensures HasFired(events[..i], u)
  {
    assert events[..i][k] == events[k];
  }

  lemma WaitingIsFirst(me: Peer, other: Peer, inn: Link, i: nat)
    requires InboxOk(me, other, inn) && FiredOk(me) && ReceivedOk(me) && i < |me.events| && me.origins[i].Mine?
    requires Undisturbed(me, i)
    ensures Waiting(me, i) <==> FirstAnswer(me, i)
  {
    var u := UidOf(me.events[i].body);
    if u < |me.created| && me.created[u].withCallback {
      forall k | 0 <= k < i && UidOf(me.events[k].body) == u
        ensures HasFired(me.events[..i], u)
      {
        EarlierFired(me, other, inn, k, i, u);
      }
      if HasFired(me.events[..i], u) {
        var k :| 0 <= k < i && me.events[..i][k].Fired? && me.events[..i][k].callback == u;
        assert me.events[k] == me.events[..i][k];
      }
    }
  }

  /** Once a response has come, its callback has been called, with it or with something before it. */
  lemma EarlierFired(me: Peer, other: Peer, inn: Link, k: nat, i: nat, u: nat)
    requires InboxOk(me, other, inn) && ReceivedOk(me) && FiredOk(me) && k < i <= |me.events|
    requires me.origins[k].Mine? && UidOf(me.events[k].body) == u && u < |me.created| && me.created[u].withCallback
    ensures HasFired(me.events[..i], u)
  {
    if me.events[k].Fired? {
      FiredAt(me.events, k, i, u);
    } else {
      var j :| 0 <= j < k && me.events[..k][j].Fired? && me.events[..k][j].callback == u;
      assert me.events[j] == me.events[..k][j];
      FiredAt(me.events, j, i, u);
    }
  }

  /**
   * Request and response, in every run in which the other peer only answers: the first package that comes back for
   * a stream created with a callback, and no other, is handed to that stream's callback, and carries its command.
   */
  lemma RequestResponse(steps: seq<By>, i: nat)
    requires NoWrap(Run(INIT_WORLD, steps)) && Run(INIT_WORLD, steps).other.created == []
    requires i < |Run(INIT_WORLD, steps).me.events|
    ensures var me := Run(INIT_WORLD, steps).me;
            var body := me.events[i].body;
            && UidOf(body) < |me.created| && CommandOf(body) == me.created[UidOf(body)].command
            && me.events[i] == if FirstAnswer(me, i) then Fired(UidOf(body), body) else Received(body)
  {
    Reachable(steps);
    ResponseRouting(steps, i);
    PairingWithoutCollision(steps, i);
  }

  // ----- the right peer -----

  function Mirror(steps: seq<By>): seq<By> {
    if steps == [] then []
    else [match steps[0] case Left(m) => Right(m) case Right(m) => Left(m)] + Mirror(steps[1..])
  }

  /** A run with the peers' steps exchanged is the run with the peers exchanged. */
  lemma {:induction false} Mirrored(w: World, steps: seq<By>)
    ensures Run(Swap(w), Mirror(steps)) == Swap(Run(w, steps))
    decreases |steps|
  {
    if steps != [] {
      assert Mirror(steps)[1..] == Mirror(steps[1..]);
      Mirrored(Step(w, steps[0]), steps[1..]);
    }
  }

  /** So whatever holds of the left peer in every run holds of the right peer in every run. */
  lemma RightPeer(steps: seq<By>)
    ensures var w, w' := Run(INIT_WORLD, steps), Run(INIT_WORLD, Mirror(steps));
            w'.me == w.other && w'.other == w.me && w'.inn == w.out && w'.out == w.inn
  {
    Mirrored(INIT_WORLD, steps);
  }

  // ----- what a stream's writes and sends come to -----

  /** A size-limited buffer keeps the first SIZE_MAX bytes. */
  function CutToMax(s: seq<byte>): seq<byte> {
    if |s| <= SIZE_MAX then s else s[..SIZE_MAX]
  }

  /** The bytes that the left peer's steps write to stream j before its first send, in order. */
  function PayloadOf(steps: seq<By>, j: nat): seq<byte> {
    if steps == [] then [] else
      match steps[0]
      case Left(Write(k, bytes)) => (if k == j then bytes else []) + PayloadOf(steps[1..], j)
      case Left(Send(k)) => if k == j then [] else PayloadOf(steps[1..], j)
      case _ => PayloadOf(steps[1..], j)
  }

  /** An unsent stream has room, or has failed with its buffer full. */
  predicate Open(s: OutStream) {
    !s.sent && |s.body| <= SIZE_MAX && (s.bad ==> |s.body| == SIZE_MAX)
  }

  lemma StepOnStream(w: World, b: By, j: nat)
    requires j < |w.me.streams|
    ensures var s := w.me.streams[j];
            && |w.me.streams| <= |Step(w, b).me.streams| <= |w.me.streams| + 1
            && Step(w, b).me.streams[j] ==
                 match b
                 case Left(Write(k, bytes)) => (if k == j then Written(s, bytes) else s)
                 case Left(Send(k)) => (if k == j then s.(sent := true) else s)
                 case _ => s
  {
  }

  lemma WriteToOpen(s: OutStream, bytes: seq<byte>)
    requires Open(s)
    ensures Open(Written(s, bytes)) && Written(s, bytes).body == CutToMax(s.body + bytes)
  {
  }

  lemma CutTwice(a: seq<byte>, b: seq<byte>, c: seq<byte>)
    ensures CutToMax(CutToMax(a + b) + c) == CutToMax(a + (b + c))
  {
    assert a + (b + c) == a + b + c;
  }

  lemma {:induction false} SentStays(w: World, steps: seq<By>, j: nat)
    requires j < |w.me.streams| && w.me.streams[j].sent
    ensures j < |Run(w, steps).me.streams| && Run(w, steps).me.streams[j] == w.me.streams[j]
    decreases |steps|
  {
    if steps != [] {
      StepOnStream(w, steps[0], j);
      SentStays(Step(w, steps[0]), steps[1..], j);
    }
  }

  /**
   * Over any steps of both peers: a stream's body grows by the bytes written to it before its first send, in order, up
   * to the size of its buffer, by nothing else; and it is sent if and only if one of the steps sends it.
   */
  lemma {:induction false} WritesAddUp(w: World, steps: seq<By>, j: nat)
    requires j < |w.me.streams| && Open(w.me.streams[j])
    ensures j < |Run(w, steps).me.streams|
    ensures var s := Run(w, steps).me.streams[j];
            && s.body == CutToMax(w.me.streams[j].body + PayloadOf(steps, j))
            && (s.sent <==> Left(Send(j)) in steps) && s.origin == w.me.streams[j].origin
    decreases |steps|
  {
    var s := w.me.streams[j];
    if steps == [] {
      assert s.body + [] == s.body;
    } else {
      var b, rest, w' := steps[0], steps[1..], Step(w, steps[0]);
      StepOnStream(w, b, j);
      assert steps == [b] + rest;
      if b == Left(Send(j)) {
        SentStays(w', rest, j);
        assert s.body + [] == s.body;
      } else if b.Left? && b.move.Write? && b.move.j == j {
        WriteToOpen(s, b.move.bytes);
        WritesAddUp(w', rest, j);
        CutTwice(s.body, b.move.bytes, PayloadOf(rest, j));
      } else {
        WritesAddUp(w', rest, j);
        assert [] + PayloadOf(rest, j) == PayloadOf(rest, j);
      }
    }
  }

  /** What opens a stream, and with which header: create_stream, or create_response on a package received. */
  predicate Opens(w: World, b: By, header: Body) {
    match b
    case Left(Create(command, _)) => header == Header(command, |w.me.created| % UID_LIMIT)
    case Left(Respond(i)) =>
      && i < |w.me.events|
      && header == Header(CommandOf(w.me.events[i].body), UidOf(w.me.events[i].body))
    case _ => false
  }

  lemma {:induction false} RunSplit(w: World, steps: seq<By>, n: nat)
    requires n <= |steps|
    ensures Run(w, steps) == Run(Run(w, steps[..n]), steps[n..])
    decreases n
  {
    if n == 0 {
      assert steps[..0] == [] && steps[0..] == steps;
    } else {
      assert steps[..n][1..] == steps[1..][..n - 1] && steps[n..] == steps[1..][n - 1..];
      RunSplit(Step(w, steps[0]), steps[1..], n - 1);
    }
  }

  lemma StepOpens(w: World, b: By)
    ensures |Step(w, b).me.streams| == |w.me.streams| ||
            (|Step(w, b).me.streams| == |w.me.streams| + 1 &&
             var s := Step(w, b).me.streams[|w.me.streams|];
             Opens(w, b, s.body) && Open(s))
  {
    if b.Left? && b.move.Write? && b.move.j < |w.me.streams| {
      StepOnStream(w, b, b.move.j);
    }
  }

  /** The step that opened a stream. */
  lemma {:induction false} OpenedAt(steps: seq<By>, j: nat) returns (c: nat, header: Body)
    requires j < |Run(INIT_WORLD, steps).me.streams|
    ensures c < |steps| && var w := Run(INIT_WORLD, steps[..c]);
            |w.me.streams| == j && Opens(w, steps[c], header) &&
            var w' := Run(INIT_WORLD, steps[..c + 1]);
            |w'.me.streams| == j + 1 && w'.me.streams[j].body == header && Open(w'.me.streams[j])
    decreases |steps|
  {
    var n := |steps|;
    assert steps[..n] == steps;
    if n > 0 {
      c := n - 1;
      var w := Run(INIT_WORLD, steps[..c]);
      RunSnoc(INIT_WORLD, steps, c);
      StepOpens(w, steps[c]);
      if j < |w.me.streams| {
        c, header := OpenedAt(steps[..n - 1], j);
        assert steps[..n - 1][..c] == steps[..c] && steps[..n - 1][..c + 1] == steps[..c + 1];
      } else {
        header := Run(INIT_WORLD, steps).me.streams[j].body;
      }
    }
  }

  /**
   * In every run, every stream is the header it was opened with and then all bytes written to it before its first send,
   * in order, as far as its buffer takes them; and it is sent exactly when a step after that sends it.
   */
  lemma {:induction false} StreamsAsWritten(steps: seq<By>, j: nat) returns (c: nat, header: Body)
    requires j < |Run(INIT_WORLD, steps).me.streams|
    ensures c < |steps| && |Run(INIT_WORLD, steps[..c]).me.streams| == j
    ensures steps[c].Left? && (steps[c].move.Create? || steps[c].move.Respond?)
    ensures Opens(Run(INIT_WORLD, steps[..c]), steps[c], header)
    ensures var s := Run(INIT_WORLD, steps).me.streams[j];
            && s.body == CutToMax(header + PayloadOf(steps[c + 1..], j))
            && (s.sent <==> Left(Send(j)) in steps[c + 1..])
  {
    c, header := OpenedAt(steps, j);
    RunSplit(INIT_WORLD, steps, c + 1);
    WritesAddUp(Run(INIT_WORLD, steps[..c + 1]), steps[c + 1..], j);
  }

  /**
   * End to end, in every run: what arrives at the other peer is the header of a stream opened here and what was
   * written to it.
   */
  lemma {:induction false} ArrivesAsWritten(steps: seq<By>, i: nat) returns (j: nat, c: nat, header: Body)
    requires NoWrap(Run(INIT_WORLD, steps)) && i < |Run(INIT_WORLD, steps).other.events|
    ensures c < |steps| && steps[c].Left? && (steps[c].move.Create? || steps[c].move.Respond?)
    ensures Opens(Run(INIT_WORLD, steps[..c]), steps[c], header)
    ensures |Run(INIT_WORLD, steps[..c]).me.streams| == j && Left(Send(j)) in steps[c + 1..]
    ensures Run(INIT_WORLD, steps).other.events[i].body == CutToMax(header + PayloadOf(steps[c + 1..], j))
  {
    RightPeer(steps);
    ArrivesAsSent(Mirror(steps));
    var w := Run(INIT_WORLD, steps);
    j := w.me.sendOrder[i];
    assert j in w.me.sendOrder;
    c, header := StreamsAsWritten(steps, j);
  }

  /** The first send of a stream dispatches its bytes and marks it; every other send does nothing. */
  lemma SendDispatches(w: World, j: nat)
    ensures var w' := Step(w, Left(Send(j)));
            if j < |w.me.streams| && !w.me.streams[j].sent then
              && w'.out.dispatched == w.out.dispatched + [w.me.streams[j].body]
              && w'.me.sendOrder == w.me.sendOrder + [j] && w'.me.streams[j].sent
            else w' == w
  {
  }

  /** create_response on any package received opens a stream with that package's command and uid. */
  lemma RespondOpens(w: World, i: nat)
    requires i < |w.me.events| && i < |w.me.origins|
    ensures var body := w.me.events[i].body;
            var header := Header(CommandOf(body), UidOf(body));
            Step(w, Left(Respond(i)))
            == w.(me := w.me.(streams := w.me.streams + [OutStream(header, false, false, w.me.origins[i])]))
  {
  }

  /** A write that fits appends its bytes to an unsent stream, and does nothing else. */
  lemma WriteAppends(w: World, j: nat, bytes: seq<byte>)
    requires j < |w.me.streams| && !w.me.streams[j].sent && !w.me.streams[j].bad
    requires |w.me.streams[j].body| + |bytes| <= SIZE_MAX
    ensures var s := w.me.streams[j];
            Step(w, Left(Write(j, bytes)))
            == w.(me := w.me.(streams := w.me.streams[j := s.(body := s.body + bytes)]))
  {
    assert bytes[..|bytes|] == bytes;
  }

  /**
   * A response to a package received: opened, written to and sent, it is dispatched with that package's command and
   * uid.
   */
  lemma ResponseIsSent(w: World, i: nat, bytes: seq<byte>)
    requires i < |w.me.events| && i < |w.me.origins| && 16 + |bytes| <= SIZE_MAX
    ensures var j := |w.me.streams|;
            var body := w.me.events[i].body;
            var w' := Run(w, [Left(Respond(i)), Left(Write(j, bytes)), Left(Send(j))]);
            && w'.out.dispatched == w.out.dispatched + [Header(CommandOf(body), UidOf(body)) + bytes]
            && w'.me.sendOrder == w.me.sendOrder + [j]
  {
    var j := |w.me.streams|;
    var steps := [Left(Respond(i)), Left(Write(j, bytes)), Left(Send(j))];
    var w1 := Step(w, steps[0]);
    RespondOpens(w, i);
    WriteAppends(w1, j, bytes);
    SendDispatches(Step(w1, steps[1]), j);
    RunThree(w, steps, 0);
    assert steps[..0] == [];
  }

  // ----- each direction is a link -----

  /** What a step does to the link from left to right. */
  function OutActs(w: World, b: By): seq<Act> {
    match b
    case Left(Send(j)) => if j < |w.me.streams| && !w.me.streams[j].sent then [Dispatch(w.me.streams[j].body)] else []
    case Left(TransportOut(k)) => [WriteSome(k)]
    case Left(TransportOutFails) => [WriteFails]
    case Right(TransportIn(k)) => [ReadSome(k)]
    case Right(TransportInFails) => [ReadFails]
    case _ => []
  }

  function AllOutActs(w: World, steps: seq<By>): seq<Act>
    decreases |steps|
  {
    if steps == [] then [] else OutActs(w, steps[0]) + AllOutActs(Step(w, steps[0]), steps[1..])
  }

  lemma StepOnLink(w: World, b: By)
    ensures var acts := OutActs(w, b);
            Step(w, b).out == if acts == [] then w.out else Links.Step(w.out, acts[0])
  {
  }

  /**
   * In every run of two peers, the link from left to right makes a run of its own, so the results of Links hold of
   * it.
   */
  lemma {:induction false} OutIsALink(w: World, steps: seq<By>)
    ensures Run(w, steps).out == Links.Run(w.out, AllOutActs(w, steps))
    decreases |steps|
  {
    if steps != [] {
      var acts, rest := OutActs(w, steps[0]), AllOutActs(Step(w, steps[0]), steps[1..]);
      StepOnLink(w, steps[0]);
      OutIsALink(Step(w, steps[0]), steps[1..]);
      if acts == [] {
        assert acts + rest == rest;
      } else {
        assert (acts + rest)[0] == acts[0] && (acts + rest)[1..] == rest;
      }
    }
  }

  // ----- both peers create streams -----

  /** In any run, no callback is called twice, and only with a package under its own uid. */
  lemma FiresOnce(steps: seq<By>, i: nat, j: nat)
    requires NoWrap(Run(INIT_WORLD, steps))
    requires var me := Run(INIT_WORLD, steps).me;
             i < j < |me.events| && me.events[i].Fired? && me.events[j].Fired?
    ensures var me := Run(INIT_WORLD, steps).me;
            me.events[i].callback != me.events[j].callback && UidOf(me.events[i].body) == me.events[i].callback
  {
    Reachable(steps);
    var me := Run(INIT_WORLD, steps).me;
    if me.events[i].callback == me.events[j].callback {
      assert me.events[..j][i] == me.events[i];
      assert HasFired(me.events[..j], me.events[j].callback);
    }
  }

  /**
   * What a callback is called with: an answer to its own request, or else a stream the other peer created under the
   * same uid.
   */
  lemma CallbackArgument(steps: seq<By>, i: nat)
    requires NoWrap(Run(INIT_WORLD, steps))
    requires i < |Run(INIT_WORLD, steps).me.events| && Run(INIT_WORLD, steps).me.events[i].Fired?
    ensures var w := Run(INIT_WORLD, steps);
            var c := w.me.events[i].callback;
            && i < |w.me.origins| && c < |w.me.created| && w.me.created[c].withCallback
            && (w.me.origins[i].Mine? ==> CommandOf(w.me.events[i].body) == w.me.created[c].command)
            && (w.me.origins[i].Theirs? ==>
               c < |w.other.created| && CommandOf(w.me.events[i].body) == w.other.created[c].command)
  {
    Reachable(steps);
  }

  /**
   * A package is handed to a callback of another conversation exactly when it belongs to a stream the other peer
   * created while a callback registered here under the same uid is still waiting.
   */
  lemma MisdirectedExactly(steps: seq<By>, k: nat)
    requires NoWrap(Run(INIT_WORLD, steps))
    ensures var w := Run(INIT_WORLD, steps);
            var w' := ReceiveSome(w, k);
            var n := |w.me.events|;
            |w'.me.events| > n ==>
              && |w'.me.events| == n + 1 == |w'.me.origins|
              && var u := UidOf(w'.me.events[n].body);
                 w'.me.events[n].Fired? && w'.me.origins[n].Theirs?
                 <==> (w'.me.origins[n].Theirs? && u < |w.me.created| && w.me.created[u].withCallback
                       && !HasFired(w.me.events, u))
  {
    Reachable(steps);
    var w := Run(INIT_WORLD, steps);
    var w' := ReceiveSome(w, k);
    if |w'.me.events| > |w.me.events| {
      var u: nat := UidOf(w'.me.events[|w.me.events|].body);
      assert (u < UID_LIMIT && u in w.me.callbacks) <==>
             (u < |w.me.created| && w.me.created[u].withCallback && !HasFired(w.me.events, u));
    }
  }

  function Collision(c: uint64, d: uint64): seq<By> {
    [Left(Create(c, true)), Right(Create(d, false)), Right(Send(0)),
     Right(TransportOut(24)), Left(TransportIn(8)), Left(TransportIn(16))]
  }

  lemma {:induction false} RunSnoc(w: World, steps: seq<By>, n: nat)
    requires n < |steps|
    ensures Run(w, steps[..n + 1]) == Step(Run(w, steps[..n]), steps[n])
    decreases n
  {
    if n == 0 {
      assert steps[..1][1..] == [];
    } else {
      assert steps[..n + 1][1..] == steps[1..][..n] && steps[..n][1..] == steps[1..][..n - 1];
      RunSnoc(Step(w, steps[0]), steps[1..], n - 1);
    }
  }

  /** The link while h is on its way: not yet written, written, size read. */
  function Underway(h: Body, stage: nat): Link {
    if stage == 0 then Link(Sender(true, [], Some(Writing(h, 0))), [], ReadingSize([]), [h], [], [], [], None)
    else if stage == 1 then Link(INIT_SENDER, Frame(h), ReadingSize([]), [h], [h], Frame(h), [], None)
    else Link(INIT_SENDER, h, ReadingBody(LittleEndian(8, |h|), []), [h], [h], Frame(h), [], None)
  }

  lemma UnderwayWritten(h: Body)
    requires |h| == 16
    ensures Writes(Underway(h, 0), 24) == Underway(h, 1)
  {
    var f := Frame(h);
    var l, l' := Underway(h, 0), Writes(Underway(h, 0), 24);
    assert f[0..24] == f && [] + f == f && [] + [h] == [h];
    assert l'.sender == OnWritten(l.sender) == INIT_SENDER;
    assert l'.wire == f && l'.sent == f && l'.completed == [h];
  }

  lemma UnderwaySized(h: Body)
    requires |h| == 16
    ensures Reads(Underway(h, 1), 8) == Underway(h, 2)
  {
    var f := Frame(h);
    assert f[..8] == LittleEndian(8, |h|) && f[8..] == h && [] + f[..8] == f[..8];
  }

  lemma UnderwayDelivered(h: Body)
    requires |h| == 16
    ensures Reads(Underway(h, 2), 16).delivered == [h]
  {
    Le64RoundTrip(|h|);
    assert h[..16] == h && [] + h == h;
  }

  function CollisionPeer(c: uint64): Peer {
    Peer([Created(c, true)], map[0 := 0], [OutStream(Header(c, 0), false, false, Mine)], [], [], [])
  }

  lemma CollisionSent(c: uint64, d: uint64)
    ensures var w := Run(INIT_WORLD, Collision(c, d)[..3]);
            w.me == CollisionPeer(c) && w.inn == Underway(Header(d, 0), 0)
  {
    var steps := Collision(c, d);
    assert steps[..0] == [];
    RunSnoc(INIT_WORLD, steps, 0);
    RunSnoc(INIT_WORLD, steps, 1);
    RunSnoc(INIT_WORLD, steps, 2);
  }

  lemma CollisionWritten(w: World, h: Body)
    requires w.inn == Underway(h, 0) && |h| == 16
    ensures Step(w, Right(TransportOut(24))) == w.(inn := Underway(h, 1))
  {
    UnderwayWritten(h);
  }

  lemma CollisionSized(w: World, h: Body)
    requires w.inn == Underway(h, 1) && |h| == 16
    ensures Step(w, Left(TransportIn(8))) == w.(inn := Underway(h, 2))
  {
    UnderwaySized(h);
    assert Underway(h, 1).delivered == Underway(h, 2).delivered;
  }

  lemma CollisionDelivered(w: World, c: uint64, h: Body)
    requires w.me == CollisionPeer(c) && w.inn == Underway(h, 2) && |h| == 16 && UidOf(h) == 0
    ensures var me := Step(w, Left(TransportIn(16))).me;
            me.events == [Fired(0, h)] && me.created == [Created(c, true)]
  {
    UnderwayDelivered(h);
    assert Underway(h, 2).delivered == [];
  }

  lemma CollisionRead(w: World, c: uint64, h: Body)
    requires w.me == CollisionPeer(c) && w.inn == Underway(h, 0) && |h| == 16 && UidOf(h) == 0
    ensures var w' := Step(Step(Step(w, Right(TransportOut(24))), Left(TransportIn(8))), Left(TransportIn(16)));
            w'.me.events == [Fired(0, h)] && w'.me.created == [Created(c, true)]
  {
    var w4 := w.(inn := Underway(h, 1));
    var w5 := w.(inn := Underway(h, 2));
    CollisionWritten(w, h);
    CollisionSized(w4, h);
    CollisionDelivered(w5, c, h);
  }

  lemma RunThree(w: World, steps: seq<By>, n: nat)
    requires n + 3 == |steps|
    ensures Run(w, steps) == Step(Step(Step(Run(w, steps[..n]), steps[n]), steps[n + 1]), steps[n + 2])
  {
    RunSnoc(w, steps, n);
    RunSnoc(w, steps, n + 1);
    RunSnoc(w, steps, n + 2);
    assert steps[..n + 3] == steps;
  }

  lemma CollisionRun(c: uint64, d: uint64)
    ensures var w := Run(INIT_WORLD, Collision(c, d)[..3]);
            Run(INIT_WORLD, Collision(c, d))
            == Step(Step(Step(w, Right(TransportOut(24))), Left(TransportIn(8))), Left(TransportIn(16)))
  {
    RunThree(INIT_WORLD, Collision(c, d), 3);
  }

  /** Both peers count uids from 0, so this happens when both create their first stream, whatever the commands are. */
  lemma UidsCollide(c: uint64, d: uint64)
    ensures var me := Run(INIT_WORLD, Collision(c, d)).me;
            && me.created == [Created(c, true)] && me.events == [Fired(0, Header(d, 0))]
            && CommandOf(Header(d, 0)) == d
  {
    var h := Header(d, 0);
    HeaderRoundTrip(d, 0, []);
    assert h + [] == h;
    CollisionSent(c, d);
    CollisionRead(Run(INIT_WORLD, Collision(c, d)[..3]), c, h);
    CollisionRun(c, d);
  }

  // ----- nothing is lost between two peers -----

  predicate FailureFree(b: By) {
    !b.move.TransportOutFails? && !b.move.TransportInFails?
  }

  lemma DispatchedNotEmpty(me: Peer, other: Peer, out: Link)
    requires StreamsOk(me, other) && SendsOk(me, out)
    ensures NoneEmpty(out.dispatched)
  {
    forall i | 0 <= i < |out.dispatched|
      ensures out.dispatched[i] != []
    {
      assert HeaderOk(me, other, me.streams[me.sendOrder[i]].body, me.streams[me.sendOrder[i]].origin);
    }
  }

  lemma ReceiveMoves(w: World, k: nat, w': World)
    requires Links.Inv(w.inn) && Running(w.inn) && NoneEmpty(w.inn.dispatched) && w' == ReceiveSome(w, k)
    ensures w'.out == w.out && w'.inn.broken == w.inn.broken && Running(w'.inn)
  {
    ReadKeepsRunning(w.inn, k);
  }

  lemma WriteMoves(l: Link, k: nat)
    ensures Writes(l, k).broken == l.broken && Writes(l, k).receiver == l.receiver
  {
  }

  /** What a step of the left peer does to its two links. */
  lemma {:induction false} LinksMove(w: World, m: Move, w': World)
    requires Links.Inv(w.inn) && Running(w.inn) && NoneEmpty(w.inn.dispatched)
    requires !m.TransportOutFails? && !m.TransportInFails? && w' == LeftStep(w, m)
    ensures w'.out.broken == w.out.broken && w'.inn.broken == w.inn.broken
    ensures w'.out.receiver == w.out.receiver && Running(w'.inn)
  {
    match m {
      case TransportIn(k) => ReceiveMoves(w, k, w');
      case TransportOut(k) => WriteMoves(w.out, k);
      case _ =>
    }
  }

  lemma StepKeepsAlive(w: World, b: By)
    requires Alive(w) && FailureFree(b) && NoWrap(Step(w, b))
    ensures Alive(Step(w, b))
  {
    StepKeeps(w, b);
    var w' := Step(w, b);
    DispatchedNotEmpty(w'.me, w'.other, w'.out);
    DispatchedNotEmpty(w'.other, w'.me, w'.inn);
    match b {
      case Left(m) => LinksMove(w, m, w');
      case Right(m) => LinksMove(Swap(w), m, Swap(w'));
    }
  }

  lemma StepCreatedGrows(w: World, b: By)
    ensures |w.me.created| <= |Step(w, b).me.created| && |w.other.created| <= |Step(w, b).other.created|
  {
    match b {
      case Left(m) => CreatedGrows(w, m);
      case Right(m) => CreatedGrows(Swap(w), m);
    }
  }

  lemma {:induction false} RunCreatedGrows(w: World, steps: seq<By>)
    ensures |w.me.created| <= |Run(w, steps).me.created| && |w.other.created| <= |Run(w, steps).other.created|
    decreases |steps|
  {
    if steps != [] {
      StepCreatedGrows(w, steps[0]);
      RunCreatedGrows(Step(w, steps[0]), steps[1..]);
    }
  }

  lemma {:induction false} RunKeepsAlive(w: World, steps: seq<By>)
    requires Alive(w) && NoWrap(Run(w, steps)) && forall i :: 0 <= i < |steps| ==> FailureFree(steps[i])
    ensures Alive(Run(w, steps))
    decreases |steps|
  {
    if steps != [] {
      RunCreatedGrows(Step(w, steps[0]), steps[1..]);
      StepKeepsAlive(w, steps[0]);
      RunKeepsAlive(Step(w, steps[0]), steps[1..]);
    }
  }

  /** A step of the left peer's transport that moves bytes. */
  ghost predicate MovesBytes(w: World, m: Move) {
    || (m.TransportOut? && Productive(w.out, WriteSome(m.k)))
    || (m.TransportIn? && Productive(w.inn, ReadSome(m.k)))
  }

  ghost predicate ProductiveBy(w: World, b: By) {
    match b
    case Left(m) => MovesBytes(w, m)
    case Right(m) => MovesBytes(Swap(w), m)
  }

  ghost predicate ProductiveSteps(w: World, steps: seq<By>)
    decreases |steps|
  {
    steps == [] || (ProductiveBy(w, steps[0]) && ProductiveSteps(Step(w, steps[0]), steps[1..]))
  }

  ghost function BytesLeft(w: World): int {
    Remaining(w.out) + Remaining(w.inn)
  }

  ghost predicate SameStreams(p: Peer, p': Peer) {
    p'.created == p.created && p'.streams == p.streams && p'.sendOrder == p.sendOrder
  }

  lemma {:induction false} OutShrinks(w: World, k: nat, w': World)
    requires Links.Inv(w.out) && Running(w.out) && NoneEmpty(w.out.dispatched) && w.out.broken.None?
    requires Productive(w.out, WriteSome(k)) && w' == LeftStep(w, TransportOut(k))
    ensures w'.me == w.me && w'.other == w.other && w'.inn == w.inn && Remaining(w'.out) < Remaining(w.out)
  {
    Links.ProductiveStep(w.out, WriteSome(k));
  }

  lemma ReceiveShape(w: World, k: nat, w': World)
    requires w' == ReceiveSome(w, k)
    ensures SameStreams(w.me, w'.me) && w'.other == w.other && w'.out == w.out
            && w'.inn == Links.Step(w.inn, ReadSome(k))
  {
  }

  lemma {:induction false} InShrinks(w: World, k: nat, w': World)
    requires Links.Inv(w.inn) && Running(w.inn) && NoneEmpty(w.inn.dispatched) && w.inn.broken.None?
    requires Productive(w.inn, ReadSome(k)) && w' == LeftStep(w, TransportIn(k))
    ensures SameStreams(w.me, w'.me) && w'.other == w.other && w'.out == w.out && Remaining(w'.inn) < Remaining(w.inn)
  {
    Links.ProductiveStep(w.inn, ReadSome(k));
    ReceiveShape(w, k, w');
  }

  lemma MoveShrinks(w: World, m: Move)
    requires Alive(w) && MovesBytes(w, m)
    ensures var w' := LeftStep(w, m);
            SameStreams(w.me, w'.me) && w'.other == w.other && BytesLeft(w') < BytesLeft(w)
  {
    if m.TransportOut? {
      OutShrinks(w, m.k, LeftStep(w, m));
    } else {
      InShrinks(w, m.k, LeftStep(w, m));
    }
  }

  lemma {:induction false} ProductiveByShrinks(w: World, b: By)
    requires Alive(w) && NoWrap(w) && ProductiveBy(w, b)
    ensures var w' := Step(w, b);
            && Alive(w') && NoWrap(w') && BytesLeft(w') < BytesLeft(w)
            && SameStreams(w.me, w'.me) && SameStreams(w.other, w'.other)
  {
    match b {
      case Left(m) => MoveShrinks(w, m);
      case Right(m) => MoveShrinks(Swap(w), m);
    }
    StepKeepsAlive(w, b);
  }

  /** Every stream sent by either peer has arrived at the other. */
  predicate AllArrived(w: World) {
    w.out.delivered == w.out.dispatched && w.inn.delivered == w.inn.dispatched
  }

  lemma {:induction false} IdleHasArrived(w: World)
    requires Alive(w)
    ensures 0 <= BytesLeft(w) && ((exists b :: ProductiveBy(w, b)) || AllArrived(w))
  {
    SentIsPrefix(w.out);
    SentIsPrefix(w.inn);
    if w.out.sender.writing.Some? {
      assert ProductiveBy(w, Left(TransportOut(1)));
    } else if w.inn.sender.writing.Some? {
      assert ProductiveBy(w, Right(TransportOut(1)));
    } else if w.inn.wire != [] {
      assert ProductiveBy(w, Left(TransportIn(1)));
    } else if w.out.wire != [] {
      assert ProductiveBy(w, Right(TransportIn(1)));
    } else {
      Quiescent(w.out);
      Quiescent(w.inn);
    }
  }

  /**
   * Every schedule of steps that move bytes is of bounded length; one that cannot go on ends with everything arrived.
   */
  lemma {:induction false} SchedulesEnd(w: World, steps: seq<By>)
    requires Alive(w) && NoWrap(w) && ProductiveSteps(w, steps)
    ensures |steps| <= BytesLeft(w)
    ensures var w' := Run(w, steps);
            && Alive(w') && NoWrap(w') && SameStreams(w.me, w'.me) && SameStreams(w.other, w'.other)
            && ((exists b :: ProductiveBy(w', b))
                || (AllArrived(w') && Answered(w'.me, w'.other) && Answered(w'.other, w'.me)))
    decreases |steps|
  {
    IdleHasArrived(w);
    if AllArrived(w) {
      ArrivedIsAnswered(w.me, w.other, w.out, w.inn);
      ArrivedIsAnswered(w.other, w.me, w.inn, w.out);
    }
    if steps != [] {
      ProductiveByShrinks(w, steps[0]);
      IdleHasArrived(Step(w, steps[0]));
      SchedulesEnd(Step(w, steps[0]), steps[1..]);
    }
  }

  /** Every response that the other peer has sent has arrived, and the callback of its request has been called. */
  ghost predicate Answered(me: Peer, other: Peer) {
    && |me.events| == |other.sendOrder|
    && forall j :: 0 <= j < |other.streams| && other.streams[j].sent && other.streams[j].origin.Theirs? ==>
         var u := UidOf(other.streams[j].body);
         u < |me.created| && (me.created[u].withCallback ==> HasFired(me.events, u))
  }

  lemma ArrivedIsAnswered(me: Peer, other: Peer, out: Link, inn: Link)
    requires PeerInv(me, other, out, inn) && SendsOk(other, inn) && inn.delivered == inn.dispatched
    ensures Answered(me, other)
  {
    forall j | 0 <= j < |other.streams| && other.streams[j].sent && other.streams[j].origin.Theirs?
      ensures var u := UidOf(other.streams[j].body);
              u < |me.created| && (me.created[u].withCallback ==> HasFired(me.events, u))
    {
      var i :| 0 <= i < |other.sendOrder| && other.sendOrder[i] == j;
      var u := UidOf(me.events[i].body);
      assert me.events[i].body == other.streams[j].body && me.origins[i].Mine?;
      if u < |me.created| && me.created[u].withCallback {
        EarlierFired(me, other, inn, i, |me.events|, u);
        assert me.events[..|me.events|] == me.events;
      }
    }
  }

  /**
   * After any run in which nothing failed, whatever both peers created, wrote and sent: the transport can make only
   * boundedly many steps that move bytes, and when no such step is left, every stream sent by either peer has arrived
   * and every callback whose request was answered has been called, at both peers.
   */
  lemma {:induction false} EveryAnswerArrives(steps: seq<By>, more: seq<By>)
    requires NoWrap(Run(INIT_WORLD, steps)) && forall i :: 0 <= i < |steps| ==> FailureFree(steps[i])
    requires ProductiveSteps(Run(INIT_WORLD, steps), more)
    ensures var w, w' := Run(INIT_WORLD, steps), Run(Run(INIT_WORLD, steps), more);
            && |more| <= BytesLeft(w) && SameStreams(w.me, w'.me) && SameStreams(w.other, w'.other)
            && ((exists b :: ProductiveBy(w', b)) || (Answered(w'.me, w'.other) && Answered(w'.other, w'.me)))
  {
    InitIsAlive();
    RunKeepsAlive(INIT_WORLD, steps);
    var w := Run(INIT_WORLD, steps);
    SchedulesEnd(w, more);
  }
}
