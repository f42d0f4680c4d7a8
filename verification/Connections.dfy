/** lnetlib::connection: the object whose handlers make the steps of Links and Peers. */
module Connections {
  import opened Bytes
  import opened StreamBuffers
  import opened Streams
  import opened ReadOps
  import WriteOps
  import Links
  import Peers

  /** connection::package: the regions of its size buffer and its data buffer, which it keeps alive. */
  datatype Package = Package(parts: seq<seq<byte>>)

  function BodyOf(p: Package): seq<byte> {
    if |p.parts| == 2 then p.parts[1] else []
  }

  function Bodies(ps: seq<Package>): seq<seq<byte>> {
    if ps == [] then [] else [BodyOf(ps[0])] + Bodies(ps[1..])
  }

  /** The regions of a package, one after the other, are its frame. */
  ghost predicate Framed(p: Package) {
    Flatten(p.parts) == Links.Frame(BodyOf(p))
  }

  ghost predicate AllFramed(ps: seq<Package>) {
    ps == [] || (Framed(ps[0]) && AllFramed(ps[1..]))
  }

  lemma {:induction false} BodiesSnoc(ps: seq<Package>, p: Package)
    ensures Bodies(ps + [p]) == Bodies(ps) + [BodyOf(p)]
    ensures AllFramed(ps) && Framed(p) ==> AllFramed(ps + [p])
  {
    if ps == [] {
      assert ps + [p] == [p] && [p][1..] == [];
    } else {
      assert (ps + [p])[1..] == ps[1..] + [p];
      BodiesSnoc(ps[1..], p);
    }
  }

  datatype ReadOp = SizeRead | BodyRead(size: nat)

  /** The values check_error tells apart. */
  datatype Error = NoError | OperationAborted | NoSuchFileOrDirectory | SslShortRead | OtherError

  lemma FlattenTwo(a: seq<byte>, b: seq<byte>)
    ensures Flatten([a, b]) == a + b
  {
    assert [a, b][1..] == [b];
    assert Flatten([b]) == b + Flatten([]) == b;
  }

  /** create_package: the bytes to write are the frame of the stream's bytes. */
  method CreatePackage(buffer: StreamBuf) returns (pkg: Package)
    requires buffer.Valid() && buffer.Size() <= SIZE_MAX
    ensures Framed(pkg) && BodyOf(pkg) == buffer.Contents()
  {
    var sizeBuffer := new StreamBuf(SIZE_MAX);
    var size := buffer.Size();
    var prefix := LittleEndian(8, size);
    var written := sizeBuffer.SPutN(prefix);
    assert [] + prefix[..written] == prefix;
    var sizeData := sizeBuffer.Data();
    var data := buffer.Data();
    pkg := Package([sizeData, data]);
    FlattenTwo(sizeData, data);
  }

  class Connection {
    var socketLocked: bool
    var packages: seq<Package>
    var uidCounter: uint64
    var callbacks: map<uint64, nat>     // a callback is known by the number of the create_stream call it was given to
    var writing: Option<Package>        // what was passed to the outstanding async_write
    var reading: Option<ReadOp>         // the outstanding async_read
    var closedEmitted: nat
    var errorEmitted: nat
    ghost var created: seq<Peers.Created>
    ghost var events: seq<Peers.Event>

    ghost predicate Valid()
      reads this
    {
      && uidCounter == |created| % Peers.UID_LIMIT
      && (writing.Some? ==> socketLocked)
      && (!socketLocked ==> packages == [])
      && (writing.Some? ==> Framed(writing.value))
      && AllFramed(packages)
    }

    /** The send side, without how far the transport has got with the write. */
    ghost function Sender(): Links.Sender
      reads this
    {
      var outstanding := if writing.Some? then Some(Links.Writing(BodyOf(writing.value), 0)) else None;
      Links.Sender(socketLocked, Bodies(packages), outstanding)
    }

    /** The receive side when a read has just been started, or none is. */
    ghost predicate ReadsAs(r: Links.Receiver)
      reads this
    {
      match r
      case ReadingSize(got) => got == [] && reading == Some(SizeRead)
      case ReadingBody(h, got) => got == [] && reading == Some(BodyRead(FromLittleEndian(h)))
      case Stopped(_) => reading == None
    }

    /** The parts of a peer that the connection object holds. */
    ghost function Peer(streams: seq<Peers.OutStream>, sendOrder: seq<nat>, origins: seq<Peers.Origin>): Peers.Peer
      reads this
    {
      Peers.Peer(created, callbacks, streams, sendOrder, events, origins)
    }

    constructor ()
      ensures Valid() && Sender() == Links.INIT_SENDER && ReadsAs(Links.INIT.receiver)
      ensures Peer([], [], []) == Peers.INIT_PEER && closedEmitted == errorEmitted == 0
    {
      socketLocked, packages, uidCounter, callbacks := false, [], 0, map[];
      writing, reading, closedEmitted, errorEmitted := None, None, 0, 0;
      created, events := [], [];
      new;
      WaitPackage();
    }

    method CheckError(err: Error) returns (ok: bool)
      modifies this`closedEmitted, this`errorEmitted
      ensures ok <==> err == NoError
      ensures closedEmitted ==
              old(closedEmitted) + (if err == NoSuchFileOrDirectory || err == SslShortRead then 1 else 0)
      ensures errorEmitted == old(errorEmitted) + (if err == OtherError then 1 else 0)
    {
      match err {
        case NoError => return true;
        case OperationAborted =>
        case NoSuchFileOrDirectory => closedEmitted := closedEmitted + 1;
        case SslShortRead => closedEmitted := closedEmitted + 1;
        case OtherError => errorEmitted := errorEmitted + 1;
      }
      return false;
    }

    // ----- creating streams -----

    method CreateStream(command: uint64) returns (stream: OStream)
      requires Valid()
      modifies this`uidCounter, this`created
      ensures Valid() && fresh(stream) && stream.Valid() && !stream.sended && !stream.bad
              && stream.uid == old(uidCounter)
      ensures Peer([stream.Abstract()], [], []) == Peers.CreateStream(old(Peer([], [], [])), command, false)
    {
      stream := new OStream(command, uidCounter);
      created := created + [Peers.Created(command, false)];
      assert (|created| - 1) % Peers.UID_LIMIT == uidCounter;
      NextUid(|created| - 1);
      uidCounter := if uidCounter == Peers.UID_LIMIT - 1 then 0 else uidCounter + 1;
      assert [] + [stream.Abstract()] == [stream.Abstract()];
    }

    method CreateStreamWithCallback(command: uint64, cb: nat) returns (stream: OStream)
      requires Valid() && cb == |created|
      modifies this`uidCounter, this`created, this`callbacks
      ensures Valid() && fresh(stream) && stream.Valid() && !stream.sended && !stream.bad
              && stream.uid == old(uidCounter)
      ensures Peer([stream.Abstract()], [], []) == Peers.CreateStream(old(Peer([], [], [])), command, true)
    {
      stream := CreateStream(command);
      callbacks := callbacks[stream.uid := cb];
      created := created[..cb] + [Peers.Created(command, true)];
    }

    // ----- sending -----

    method SendPackage(pkg: Package)
      modifies this`socketLocked, this`writing
      ensures Sender() == Links.SendPackage(old(Sender()), BodyOf(pkg))
      ensures socketLocked && writing == Some(pkg)
    {
      socketLocked := true;
      writing := Some(pkg);
    }

    /** The dispatch slot: what happens to the buffer of a stream that is sent. */
    method Dispatch(buffer: StreamBuf)
      requires Valid() && buffer.Valid() && buffer.Size() <= SIZE_MAX
      modifies this`socketLocked, this`packages, this`writing
      ensures Valid() && Sender() == Links.OnDispatch(old(Sender()), buffer.Contents())
      ensures old(socketLocked) ==> writing == old(writing)
    {
      var pkg := CreatePackage(buffer);
      if socketLocked {
        BodiesSnoc(packages, pkg);
        packages := packages + [pkg];
      } else {
        SendPackage(pkg);
      }
    }

    /** The completion handler of async_write. */
    method WriteHandler(err: Error)
      requires Valid() && writing.Some?
      modifies this`socketLocked, this`packages, this`writing, this`closedEmitted, this`errorEmitted
      ensures Valid()
      ensures closedEmitted ==
              old(closedEmitted) + (if err == NoSuchFileOrDirectory || err == SslShortRead then 1 else 0)
      ensures errorEmitted == old(errorEmitted) + (if err == OtherError then 1 else 0)
      ensures Sender() == if err == NoError then Links.OnWritten(old(Sender())) else Links.OnWriteError(old(Sender()))
    {
      writing := None;
      var ok := CheckError(err);
      if !ok {
        return;
      }
      if |packages| > 0 {
        var pkg := packages[0];
        packages := packages[1..];
        SendPackage(pkg);
      } else {
        socketLocked := false;
      }
    }

    // ----- receiving -----

    method WaitPackage()
      modifies this`reading
      ensures reading == Some(SizeRead)
    {
      reading := Some(SizeRead);
    }

    method WaitPackageBody(size: nat)
      modifies this`reading
      ensures reading == Some(BodyRead(size))
    {
      reading := Some(BodyRead(size));
    }

    /** A complete size read: buffer holds what was read. */
    method ReadPackageSizeHandler(buffer: StreamBuf, err: Error, bytes: nat)
      requires Valid() && buffer.Valid() && bytes == buffer.Size() && reading == Some(SizeRead)
      modifies this`reading, this`closedEmitted, this`errorEmitted, buffer`gptr, buffer`egptr
      ensures Valid()
      ensures closedEmitted ==
              old(closedEmitted) + (if err == NoSuchFileOrDirectory || err == SslShortRead then 1 else 0)
      ensures errorEmitted == old(errorEmitted) + (if err == OtherError then 1 else 0)
      ensures err != NoError || bytes == 0 ==> reading == None
      ensures err == NoError && bytes > 0 ==>
              reading == Some(BodyRead(FromLittleEndian(old(buffer.Contents())[..Min(8, bytes)])))
      ensures err == NoError && bytes == 8 ==>
              ReadsAs(Links.OnReadComplete(Links.ReadingSize(old(buffer.Contents()))).0)
    {
      assert bytes == 8 ==> buffer.Contents()[..Min(8, bytes)] == buffer.Contents();
      reading := None;
      var ok := CheckError(err);
      if !ok || bytes == 0 {
        return;
      }
      var size := ReadSize(buffer);
      WaitPackageBody(size);
    }

    /** stream.read into a zeroed uint64_t. */
    method ReadSize(buffer: StreamBuf) returns (size: nat)
      requires buffer.Valid()
      modifies buffer`gptr, buffer`egptr
      ensures size == FromLittleEndian(old(buffer.Contents())[..Min(8, old(buffer.Size()))])
    {
      var bytes := buffer.SGetN(8);
      size := FromLittleEndian(bytes);
    }

    /**
     * A complete body read: the package goes to the callback registered under its uid, which is forgotten, or to the
     * received signal. Then the next size is read.
     */
    method ReadPackageBodyHandler(buffer: StreamBuf, err: Error, bytes: nat, ghost origin: Peers.Origin)
      returns (stream: IStream?)
      requires Valid() && buffer.Valid() && bytes == buffer.Size() && reading.Some? && reading.value.BodyRead?
      modifies this`reading, this`closedEmitted, this`errorEmitted, this`callbacks, this`events, buffer`gptr,
               buffer`egptr
      ensures Valid()
      ensures closedEmitted ==
              old(closedEmitted) + (if err == NoSuchFileOrDirectory || err == SslShortRead then 1 else 0)
      ensures errorEmitted == old(errorEmitted) + (if err == OtherError then 1 else 0)
      ensures err != NoError ==> reading == None
      ensures err == NoError ==> reading == if bytes == 0 then None else Some(SizeRead)
      ensures err != NoError || bytes == 0 ==> stream == null && Peer([], [], []) == old(Peer([], [], []))
      ensures err == NoError && bytes > 0 ==>
                && stream != null && stream.Valid()
                && Peer([], [], [origin])
                == Peers.DeliverUnder(old(Peer([], [], [])), stream.uid, old(buffer.Contents()), origin)
      ensures err == NoError && bytes >= 16 ==>
                && stream.command == Peers.CommandOf(old(buffer.Contents()))
                && stream.uid == Peers.UidOf(old(buffer.Contents()))
                && stream.Rest() == old(buffer.Contents())[16..]
    {
      reading := None;
      var ok := CheckError(err);
      if !ok || bytes == 0 {
        return null;
      }
      stream := HandOn(buffer, origin);
      WaitPackage();
    }

    /** The stream of a package, and where it goes. */
    method HandOn(buffer: StreamBuf, ghost origin: Peers.Origin) returns (stream: IStream)
      requires Valid() && buffer.Valid()
      modifies this`callbacks, this`events, buffer`gptr, buffer`egptr
      ensures Valid() && stream.Valid()
      ensures Peer([], [], [origin])
           == Peers.DeliverUnder(old(Peer([], [], [])), stream.uid, old(buffer.Contents()), origin)
      ensures old(buffer.Size()) >= 16 ==>
                && stream.command == Peers.CommandOf(old(buffer.Contents()))
                && stream.uid == Peers.UidOf(old(buffer.Contents()))
                && stream.Rest() == old(buffer.Contents())[16..]
    {
      ghost var body := buffer.Contents();
      stream := new IStream(buffer);
      Route(stream.uid, body, origin);
    }

    /** The callback under the uid, once, or the received signal. */
    method Route(uid: uint64, ghost body: seq<byte>, ghost origin: Peers.Origin)
      requires Valid()
      modifies this`callbacks, this`events
      ensures Valid()
      ensures Peer([], [], [origin]) == Peers.DeliverUnder(old(Peer([], [], [])), uid, body, origin)
    {
      if uid in callbacks {
        var cb := callbacks[uid];
        callbacks := callbacks - {uid};
        events := events + [Peers.Fired(cb, body)];
      } else {
        events := events + [Peers.Received(body)];
      }
      assert [] + [origin] == [origin];
    }
  }

  lemma NextUid(n: nat)
    ensures (n + 1) % Peers.UID_LIMIT
         == if n % Peers.UID_LIMIT == Peers.UID_LIMIT - 1 then 0 else n % Peers.UID_LIMIT + 1
  {
  }

  /**
   * One package all the way, through the code's own buffers: framed, written in pieces, read in pieces as a size and
   * a body. Whatever the pieces are, what comes out is what went in, and the stream is left at the next frame.
   */
  method Carry(buffer: StreamBuf, answers: seq<WriteOps.Sent>, after: seq<byte>, sizePieces: seq<nat>,
               bodyPieces: seq<nat>)
    returns (received: Option<StreamBuf>, left: seq<byte>)
    requires buffer.Valid() && buffer.Size() <= SIZE_MAX
    requires forall a :: a in answers && a.Sent? ==> a.n > 0
    requires (forall k :: k in sizePieces ==> k > 0) && (forall k :: k in bodyPieces ==> k > 0)
    ensures received.Some? ==> received.value.Valid() && received.value.Contents() == buffer.Contents() && left == after
    ensures WriteOps.Failed !in answers && |answers| > buffer.Size() + 8 ==>
              |sizePieces| > 8 && |bodyPieces| > buffer.Size() ==> received.Some?
  {
    ghost var body := buffer.Contents();
    var pkg := CreatePackage(buffer);
    var wire, sent := WriteOps.AsyncWrite(pkg.parts, answers);
    if sent.None? || sent.value.failed {
      return None, wire;
    }
    var stream := wire + after;
    received, left := ReceiveFrame(stream, body, after, sizePieces, bodyPieces);
  }

  lemma FromNothing(s: seq<byte>, t: seq<byte>)
    requires s == [] + t
    ensures s == t
  {
  }

  lemma FrameParts(stream: seq<byte>, body: seq<byte>, after: seq<byte>)
    requires stream == Links.Frame(body) + after && |body| <= SIZE_MAX
    ensures FromLittleEndian(stream[..8]) == |body| && |stream[8..]| >= |body|
    ensures stream[8..][..|body|] == body && stream[8..][|body|..] == after
  {
    assert stream[..8] == LittleEndian(8, |body|) && stream[8..] == body + after;
    Le64RoundTrip(|body|);
  }

  /** wait_package, read_package_size_handler and wait_package_body on a stream that starts with a frame. */
  method ReceiveFrame(stream: seq<byte>, ghost body: seq<byte>, ghost after: seq<byte>, sizePieces: seq<nat>,
                      bodyPieces: seq<nat>)
    returns (received: Option<StreamBuf>, left: seq<byte>)
    requires stream == Links.Frame(body) + after && |body| <= SIZE_MAX
    requires (forall k :: k in sizePieces ==> k > 0) && (forall k :: k in bodyPieces ==> k > 0)
    ensures received.Some? ==>
            fresh(received.value) && received.value.Valid() && received.value.Contents() == body && left == after
    ensures |sizePieces| > 8 && |bodyPieces| > |body| ==> received.Some?
  {
    FrameParts(stream, body, after);
    var sizeBuffer := new StreamBuf(SIZE_MAX);
    var taken, done := AsyncReadExactly(sizeBuffer, 8, stream, sizePieces);
    if done.None? || done.value.failed {
      return None, stream[taken..];
    }
    var prefix := sizeBuffer.Data();
    FromNothing(prefix, stream[..8]);
    var rest := stream[8..];
    var bodyBuffer := new StreamBuf(SIZE_MAX);
    var bodyTaken, bodyDone := AsyncReadExactly(bodyBuffer, FromLittleEndian(prefix), rest, bodyPieces);
    if bodyDone.None? || bodyDone.value.failed {
      return None, rest[bodyTaken..];
    }
    FromNothing(bodyBuffer.Contents(), rest[..bodyTaken]);
    received, left := Some(bodyBuffer), rest[bodyTaken..];
  }
}
