/** lnetlib::ostream and lnetlib::istream over stream buffers. */
module Streams {
  import opened Bytes
  import opened Messages
  import opened StreamBuffers
  import Peers

  class OStream {
    var buffer: StreamBuf?   // _buffer, given away by send
    var sended: bool
    var bad: bool            // badbit of std::ostream: set when the buffer could not take a character
    const uid: uint64

    ghost predicate Valid()
      reads this, buffer
    {
      (buffer == null <==> sended) && (buffer != null ==> buffer.Valid() && buffer.maxSize == SIZE_MAX)
    }

    ghost function Body(): seq<byte>
      requires Valid() && !sended
      reads this, buffer, if buffer == null then {} else {buffer.buffer}
    {
      buffer.Contents()
    }

    /** The stream as the protocol sees it. (Its provenance is not recorded in the stream itself.) */
    ghost function Abstract(): Peers.OutStream
      requires Valid() && !sended
      reads this, buffer, if buffer == null then {} else {buffer.buffer}
    {
      Peers.OutStream(Body(), sended, bad, Peers.Mine)
    }

    constructor (command: uint64, uid: uint64)
      ensures Valid() && !sended && !bad && fresh(buffer) && fresh(buffer.buffer)
      ensures Body() == Peers.Header(command, uid) && this.uid == uid
    {
      var sb := new StreamBuf(SIZE_MAX);
      buffer, sended, bad, this.uid := sb, false, false, uid;
      new;
      Put(LittleEndian(8, command));
      Put(LittleEndian(8, uid));
      assert [] + LittleEndian(8, command) == LittleEndian(8, command);
    }

    /** std::ostream::write: nothing once badbit is set, which is when the buffer is full. */
    method Write(bytes: seq<byte>)
      requires Valid() && !sended
      modifies this`bad, buffer, buffer.buffer
      ensures Valid() && !sended && buffer == old(buffer)
              && (buffer.buffer == old(buffer.buffer) || fresh(buffer.buffer))
      ensures Abstract() == Peers.Written(old(Abstract()), bytes)
      ensures Body() == if old(bad) then old(Body()) else old(Body()) + bytes[..Min(|bytes|, SIZE_MAX - |old(Body())|)]
      ensures bad <==> old(bad) || |old(Body())| + |bytes| > SIZE_MAX
    {
      if bad {
        return;
      }
      var n := buffer.SPutN(bytes);
      bad := n < |bytes|;
    }

    /** A write that fits. */
    method Put(bytes: seq<byte>)
      requires Valid() && !sended && !bad && |Body()| + |bytes| <= SIZE_MAX
      modifies this`bad, buffer, buffer.buffer
      ensures Valid() && !sended && !bad && buffer == old(buffer)
              && (buffer.buffer == old(buffer.buffer) || fresh(buffer.buffer))
      ensures Body() == old(Body()) + bytes
    {
      Write(bytes);
      assert bytes[..|bytes|] == bytes;
    }

    method WriteBasic(width: nat, v: nat)
      requires Valid() && !sended && !bad && |Body()| + width <= SIZE_MAX
      modifies this`bad, buffer, buffer.buffer
      ensures Valid() && !sended && !bad && buffer == old(buffer)
              && (buffer.buffer == old(buffer.buffer) || fresh(buffer.buffer))
      ensures Body() == old(Body()) + LittleEndian(width, v)
    {
      Put(LittleEndian(width, v));
    }

    /** The prefix is cut to its type by LittleEndian, as by the cast in the code; all of the string follows. */
    method WriteString(prefix: nat, s: seq<byte>)
      requires Valid() && !sended && !bad && |Body()| + prefix + |s| <= SIZE_MAX
      modifies this`bad, buffer, buffer.buffer
      ensures Valid() && !sended && !bad && buffer == old(buffer)
              && (buffer.buffer == old(buffer.buffer) || fresh(buffer.buffer))
      ensures Body() == old(Body()) + (LittleEndian(prefix, |s|) + s)
    {
      WriteBasic(prefix, |s|);
      Put(s);
    }

    /** The size is converted to its type first, and that many bytes follow. */
    method WriteDataChunk(prefix: nat, s: seq<byte>)
      requires Valid() && !sended && !bad && |Body()| + prefix + Truncated(|s|, prefix) <= SIZE_MAX
      modifies this`bad, buffer, buffer.buffer
      ensures Valid() && !sended && !bad && buffer == old(buffer)
              && (buffer.buffer == old(buffer.buffer) || fresh(buffer.buffer))
      ensures Body() == old(Body()) + (LittleEndian(prefix, Truncated(|s|, prefix)) + s[..Truncated(|s|, prefix)])
    {
      var size := Truncated(|s|, prefix);
      WriteBasic(prefix, size);
      Put(s[..size]);
    }

    method WriteField(f: Field)
      requires Valid() && !sended && !bad && |Body()| + |Messages.Written(f)| <= SIZE_MAX
      modifies this`bad, buffer, buffer.buffer
      ensures Valid() && !sended && !bad && buffer == old(buffer)
              && (buffer.buffer == old(buffer.buffer) || fresh(buffer.buffer))
      ensures Body() == old(Body()) + Messages.Written(f)
    {
      match f {
        case Integer(w, _, v) => WriteBasic(w, TwosComplement(v, w));
        case Opaque(bs) => Put(bs);
        case Text(p, s) => WriteString(p, s);
        case Chunk(p, s) => WriteDataChunk(p, s);
      }
    }

    /** send(), also called by the destructor. What is returned is handed to the dispatch signal. */
    method Send() returns (dispatched: StreamBuf?)
      requires Valid()
      modifies this`buffer, this`sended
      ensures Valid() && sended
      ensures dispatched == old(buffer) && (dispatched == null <==> old(sended))
    {
      if sended {
        return null;
      }
      sended := true;
      dispatched := buffer;
      buffer := null;
    }
  }

  /** However often send is called before the destructor calls it again, one buffer is dispatched. */
  method SendManyTimes(stream: OStream, times: nat) returns (dispatched: seq<StreamBuf>)
    requires stream.Valid() && !stream.sended
    modifies stream`buffer, stream`sended
    ensures stream.sended && dispatched == [old(stream.buffer)]
  {
    dispatched := [];
    for i := 0 to times + 1
      invariant stream.Valid() && (stream.sended <==> i > 0)
      invariant if stream.sended then dispatched == [old(stream.buffer)]
                else dispatched == [] && stream.buffer == old(stream.buffer)
    {
      var buffer := stream.Send();
      if buffer != null {
        dispatched := dispatched + [buffer];
      }
    }
  }

  /** The bytes after a size prefix, or None if the prefix or the bytes are not all there. */
  function Sized(prefix: nat, all: seq<byte>): Option<seq<byte>> {
    if |all| < prefix then None else
      var n := FromLittleEndian(all[..prefix]);
      if |all| - prefix < n then None else Some(all[prefix..prefix + n])
  }

  /** What reading a size and then so many bytes yields. */
  lemma SizedRead(prefix: nat, all: seq<byte>, n: nat, data: seq<byte>)
    requires prefix <= |all| && n == FromLittleEndian(all[..prefix]) && data == all[prefix..][..Min(n, |all| - prefix)]
    ensures Sized(prefix, all) == if |data| < n then None else Some(data)
    ensures all[prefix..][|data|..] == all[prefix + |data|..]
  {
    if n <= |all| - prefix {
      assert data == all[prefix..prefix + n];
    }
  }

  lemma OpaqueIsRead(width: nat, all: seq<byte>)
    ensures ReadField(OpaqueShape(width), all) == if |all| < width then Short
            else Ok(Opaque(all[..width]), all[width..])
  {
  }

  lemma SizedLength(prefix: nat, all: seq<byte>)
    ensures Sized(prefix, all).Some? ==>
              && prefix <= |all| && |Sized(prefix, all).value| == FromLittleEndian(all[..prefix])
              && prefix + |Sized(prefix, all).value| <= |all|
  {
  }

  lemma SizedText(prefix: nat, all: seq<byte>)
    ensures var bs, r := Sized(prefix, all), ReadField(TextShape(prefix), all);
            if bs.None? then r == Short
            else prefix + |bs.value| <= |all| && r == Ok(Text(prefix, CString(bs.value)), all[prefix + |bs.value|..])
  {
    SizedLength(prefix, all);
  }

  lemma SizedChunk(prefix: nat, all: seq<byte>)
    ensures var bs, r := Sized(prefix, all), ReadField(ChunkShape(prefix), all);
            if bs.None? then r == Short
            else prefix + |bs.value| <= |all| && r == Ok(Chunk(prefix, bs.value), all[prefix + |bs.value|..])
  {
    SizedLength(prefix, all);
  }

  /** A whole header, as two reads of eight bytes find it. */
  lemma HeaderParts(body: seq<byte>)
    ensures |body| >= 16 ==>
              && Peers.CommandOf(body) == FromLittleEndian(body[..8])
              && Peers.UidOf(body) == FromLittleEndian(body[8..][..8])
              && body[8..][8..] == body[16..]
  {
    if |body| >= 16 {
      assert body[8..][..8] == body[8..16];
    }
  }

  class IStream {
    const buffer: StreamBuf
    var fail: bool           // failbit of std::istream: set when a read came up short
    var command: uint64
    var uid: uint64

    ghost predicate Valid()
      reads this, buffer
    {
      buffer.Valid()
    }

    ghost function Rest(): seq<byte>
      requires Valid()
      reads this, buffer, buffer.buffer
    {
      buffer.Contents()
    }

    /** The constructor reads the header; a variable that could not be read keeps an arbitrary value. */
    constructor (sb: StreamBuf)
      requires sb.Valid()
      modifies sb`gptr, sb`egptr
      ensures Valid() && buffer == sb
      ensures var body := old(sb.Contents());
              |body| >= 16 ==>
                  !fail && command == Peers.CommandOf(body) && uid == Peers.UidOf(body) && Rest() == body[16..]
      ensures old(sb.Size()) < 16 ==> fail
    {
      buffer, fail := sb, false;
      command, uid := *, *;
      new;
      HeaderParts(sb.Contents());
      var c := ReadBasic(8);
      if c.Some? {
        EightBytes(8);
        command := c.value;
      }
      var u := ReadBasic(8);
      if u.Some? {
        EightBytes(8);
        uid := u.value;
      }
    }

    /** std::istream::read */
    method Read(n: nat) returns (bs: seq<byte>)
      requires Valid()
      modifies this`fail, buffer`gptr, buffer`egptr
      ensures Valid()
      ensures !old(fail) ==> bs == old(Rest())[..Min(n, |old(Rest())|)] && Rest() == old(Rest())[|bs|..]
      ensures old(fail) ==> bs == [] && Rest() == old(Rest())
      ensures fail <==> old(fail) || |old(Rest())| < n
    {
      if fail {
        return [];
      }
      bs := buffer.SGetN(n);
      fail := |bs| < n;
    }

    /** read_basic: None is a variable that was not filled. */
    method ReadBasic(width: nat) returns (v: Option<nat>)
      requires Valid()
      modifies this`fail, buffer`gptr, buffer`egptr
      ensures Valid() && (fail <==> v.None?)
      ensures v.Some? <==> !old(fail) && |old(Rest())| >= width
      ensures v.Some? ==>
              v.value == FromLittleEndian(old(Rest())[..width]) < Pow256(width) && Rest() == old(Rest())[width..]
    {
      var bs := Read(width);
      if fail {
        return None;
      }
      FromLittleEndianBound(bs);
      v := Some(FromLittleEndian(bs));
    }

    /** The size prefix and that many bytes, as read_string and read_data_chunk start out. */
    method ReadSized(prefix: nat) returns (bs: Option<seq<byte>>)
      requires Valid()
      modifies this`fail, buffer`gptr, buffer`egptr
      ensures Valid() && (fail <==> bs.None?)
      ensures bs == if old(fail) then None else Sized(prefix, old(Rest()))
      ensures bs.Some? ==> prefix + |bs.value| <= |old(Rest())| && Rest() == old(Rest())[prefix + |bs.value|..]
    {
      ghost var all := Rest();
      var size := ReadBasic(prefix);
      if size.None? {
        return None;
      }
      var data := Read(size.value);
      SizedRead(prefix, all, size.value, data);
      if fail {
        return None;
      }
      bs := Some(data);
    }

    /** The bytes read go through a C string, so the result ends before the first NUL. */
    method ReadString(prefix: nat) returns (f: Option<Field>)
      requires Valid()
      modifies this`fail, buffer`gptr, buffer`egptr
      ensures Valid() && (fail <==> f.None?)
      ensures var r := ReadField(TextShape(prefix), old(Rest()));
              if old(fail) || r.Short? then f.None? else f == Some(r.field) && Rest() == r.rest
    {
      SizedText(prefix, Rest());
      var bs := ReadSized(prefix);
      f := if bs.None? then None else Some(Text(prefix, CString(bs.value)));
    }

    method ReadDataChunk(prefix: nat) returns (f: Option<Field>)
      requires Valid()
      modifies this`fail, buffer`gptr, buffer`egptr
      ensures Valid() && (fail <==> f.None?)
      ensures var r := ReadField(ChunkShape(prefix), old(Rest()));
              if old(fail) || r.Short? then f.None? else f == Some(r.field) && Rest() == r.rest
    {
      SizedChunk(prefix, Rest());
      var bs := ReadSized(prefix);
      f := if bs.None? then None else Some(Chunk(prefix, bs.value));
    }

    method ReadNumber(width: nat, signed: bool) returns (f: Option<Field>)
      requires Valid()
      modifies this`fail, buffer`gptr, buffer`egptr
      ensures Valid() && (fail <==> f.None?)
      ensures var r := ReadField(IntegerShape(width, signed), old(Rest()));
              if old(fail) || r.Short? then f.None? else f == Some(r.field) && Rest() == r.rest
    {
      var v := ReadBasic(width);
      f := if v.None? then None else Some(Integer(width, signed, ToInteger(width, signed, v.value)));
    }

    method ReadOpaque(width: nat) returns (f: Option<Field>)
      requires Valid()
      modifies this`fail, buffer`gptr, buffer`egptr
      ensures Valid() && (fail <==> f.None?)
      ensures var r := ReadField(OpaqueShape(width), old(Rest()));
              if old(fail) || r.Short? then f.None? else f == Some(r.field) && Rest() == r.rest
    {
      OpaqueIsRead(width, Rest());
      var bs := Read(width);
      f := if fail then None else Some(Opaque(bs));
    }

    /** A response is a new stream under the command and uid of this one. */
    method CreateResponse() returns (response: OStream)
      ensures fresh(response) && response.Valid() && !response.sended && !response.bad
      ensures response.uid == uid && response.Body() == Peers.Header(command, uid)
    {
      response := new OStream(command, uid);
    }

    /** read_int8 .. read_float64, read_string and read_data_chunk. None is a read that came up short. */
    method ReadShape(shape: Shape) returns (f: Option<Field>)
      requires Valid()
      modifies this`fail, buffer`gptr, buffer`egptr
      ensures Valid() && (fail <==> f.None?)
      ensures var r := ReadField(shape, old(Rest()));
              if old(fail) || r.Short? then f.None? else f == Some(r.field) && Rest() == r.rest
    {
      match shape {
        case IntegerShape(w, signed) => f := ReadNumber(w, signed);
        case OpaqueShape(w) => f := ReadOpaque(w);
        case TextShape(p) => f := ReadString(p);
        case ChunkShape(p) => f := ReadDataChunk(p);
      }
    }
  }

  lemma WrittenFrom(body: seq<byte>, fs: seq<Field>, i: nat)
    requires i < |fs|
    ensures body + WrittenAll(fs[i..]) == body + Messages.Written(fs[i]) + WrittenAll(fs[i + 1..])
  {
    assert fs[i..][1..] == fs[i + 1..];
  }

  method WriteMessage(stream: OStream, fs: seq<Field>)
    requires stream.Valid() && !stream.sended && !stream.bad && |stream.Body()| + |WrittenAll(fs)| <= SIZE_MAX
    modifies stream`bad, stream.buffer, stream.buffer.buffer
    ensures stream.Valid() && !stream.sended && stream.buffer == old(stream.buffer)
    ensures stream.buffer.buffer == old(stream.buffer.buffer) || fresh(stream.buffer.buffer)
    ensures stream.Body() == old(stream.Body()) + WrittenAll(fs)
  {
    var i := 0;
    while i < |fs|
      invariant i <= |fs| && stream.Valid() && !stream.sended && !stream.bad && stream.buffer == old(stream.buffer)
      invariant stream.buffer.buffer == old(stream.buffer.buffer) || fresh(stream.buffer.buffer)
      invariant stream.Body() + WrittenAll(fs[i..]) == old(stream.Body()) + WrittenAll(fs)
    {
      WrittenFrom(stream.Body(), fs, i);
      stream.WriteField(fs[i]);
      i := i + 1;
    }
  }

  method ReadMessage(stream: IStream, shapes: seq<Shape>) returns (fs: Option<seq<Field>>)
    requires stream.Valid() && !stream.fail
    modifies stream`fail, stream.buffer`gptr, stream.buffer`egptr
    ensures stream.Valid()
    ensures var r := ReadAll(shapes, old(stream.Rest()));
            if r.AllShort? then fs.None? else fs == Some(r.fields) && stream.Rest() == r.rest
    decreases |shapes|
  {
    if |shapes| == 0 {
      return Some([]);
    }
    var f := stream.ReadShape(shapes[0]);
    if f.None? {
      return None;
    }
    var more := ReadMessage(stream, shapes[1..]);
    fs := if more.None? then None else Some([f.value] + more.value);
  }

  /** The writing half: the buffer that is dispatched. */
  method SendMessage(command: uint64, uid: uint64, fs: seq<Field>) returns (buffer: StreamBuf)
    requires 16 + |WrittenAll(fs)| <= SIZE_MAX
    ensures fresh(buffer) && buffer.Valid() && buffer.Contents() == Peers.Header(command, uid) + WrittenAll(fs)
  {
    var out := new OStream(command, uid);
    WriteMessage(out, fs);
    var dispatched := out.Send();
    buffer := dispatched;
  }

  lemma AfterHeader(command: uint64, uid: uint64, payload: seq<byte>)
    ensures var body := Peers.Header(command, uid) + payload;
            |body| >= 16 && Peers.CommandOf(body) == command && Peers.UidOf(body) == uid && body[16..] == payload
  {
    Peers.HeaderRoundTrip(command, uid, payload);
  }

  lemma WholeMessage(fs: seq<Field>)
    requires AllTyped(fs) && AllFit(fs)
    ensures ReadAll(Shapes(fs), WrittenAll(fs)) == AllOk(fs, [])
  {
    MessageRoundTrip(fs, []);
    assert WrittenAll(fs) + [] == WrittenAll(fs);
  }

  /** The reading half, on a buffer that holds a header and the representations of these fields. */
  method ReceiveMessage(buffer: StreamBuf, ghost command: uint64, ghost uid: uint64, fs: seq<Field>)
    returns (stream: IStream, read: Option<seq<Field>>)
    requires buffer.Valid() && buffer.Contents() == Peers.Header(command, uid) + WrittenAll(fs) && AllTyped(fs)
    modifies buffer`gptr, buffer`egptr
    ensures stream.command == command && stream.uid == uid
    ensures AllFit(fs) ==> read == Some(fs) && stream.Valid() && stream.Rest() == []
  {
    AfterHeader(command, uid, WrittenAll(fs));
    stream := new IStream(buffer);
    if AllFit(fs) {
      WholeMessage(fs);
    }
    read := ReadMessage(stream, Shapes(fs));
  }

  /** A message written to an ostream and read from an istream on its buffer: the same command, uid and fields. */
  method Exchange(command: uint64, uid: uint64, fs: seq<Field>) returns (stream: IStream, read: Option<seq<Field>>)
    requires AllTyped(fs) && 16 + |WrittenAll(fs)| <= SIZE_MAX
    ensures stream.command == command && stream.uid == uid
    ensures AllFit(fs) ==> read == Some(fs) && stream.Valid() && stream.Rest() == []
  {
    var buffer := SendMessage(command, uid, fs);
    stream, read := ReceiveMessage(buffer, command, uid, fs);
  }
}
