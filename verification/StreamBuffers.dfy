/** asio::basic_streambuf: one growable array with a get area and a put area. */
module StreamBuffers {
  import opened Bytes

  const BUFFER_DELTA: nat := 128

  /**
   * What the bytes between the get and put positions are after `reserve` has moved them to the
   * start of the array and then thrown, without moving the positions: `g` is the get position.
   */
  function AfterFailedShift(content: seq<byte>, g: nat): (r: seq<byte>)
    ensures |r| == |content|
  {
    if g <= |content| then content[g..] + content[|content| - g..] else content
  }

  lemma AppendOne(start: seq<byte>, bs: seq<byte>, n: nat)
    requires n < |bs|
    ensures start + bs[..n] + [bs[n]] == start + bs[..n + 1]
  {
  }

  class StreamBuf {
    const maxSize: nat
    var buffer: array<byte>
    var gptr: int
    var egptr: int
    var pptr: int
    var epptr: nat
    var capacity: nat   // buffer_.capacity(): the allocator's choice, at least the length

    ghost predicate Valid()
      reads this
    {
      && 0 <= gptr <= egptr <= pptr <= epptr <= maxSize
      && buffer.Length == Max(epptr, 1) <= capacity
    }

    /** The abstract value: the queue of bytes written and not yet read. */
    ghost function Contents(): (s: seq<byte>)
      requires Valid()
      reads this, buffer
      ensures |s| == Size()
    {
      buffer[gptr..pptr]
    }

    function Size(): nat
      requires Valid()
      reads this
    {
      pptr - gptr
    }

    constructor (maximumSize: nat)
      ensures Valid() && fresh(buffer)
      ensures maxSize == maximumSize && Contents() == []
      ensures gptr == egptr == pptr == 0 && epptr == Min(maximumSize, 128)
    {
      var pend := Min(maximumSize, BUFFER_DELTA);
      maxSize := maximumSize;
      buffer := new byte[Max(pend, 1)];
      capacity := *;
      gptr, egptr, pptr, epptr := 0, 0, 0, pend;
      new;
      if capacity < buffer.Length {
        capacity := buffer.Length;
      }
    }

    /** vector::resize to a larger length: the old bytes stay, the allocator picks a capacity. */
    method Resize(length: nat)
      requires length >= buffer.Length
      modifies this`buffer, this`capacity
      ensures fresh(buffer) && buffer.Length == length <= capacity
      ensures buffer[..old(buffer.Length)] == old(buffer[..])
    {
      var grown := new byte[length];
      forall i | 0 <= i < buffer.Length {
        grown[i] := buffer[i];
      }
      buffer := grown;
      if capacity < length {
        capacity := *;
        if capacity < length {
          capacity := length;
        }
      }
    }

    /** The memmove of `reserve`: the contents go to the start of the array, over whatever is there. */
    method MoveDown()
      requires Valid() && gptr > 0
      modifies buffer
      ensures Valid() && buffer[..Size()] == old(Contents())
      ensures Contents() == AfterFailedShift(old(Contents()), gptr)
    {
      forall i | 0 <= i < pptr - gptr {
        buffer[i] := buffer[gptr + i];
      }
      assert buffer[..Size()] == old(Contents());
      assert Contents() == AfterFailedShift(old(Contents()), gptr);
    }

    /** `ok == false` is the length_error; the bytes have been moved by then, the positions have not. */
    method Reserve(n: nat) returns (ok: bool)
      requires Valid()
      modifies this, buffer
      ensures Valid() && (buffer == old(buffer) || fresh(buffer))
      ensures ok <==> old(Size()) + n <= maxSize
      ensures ok ==> Contents() == old(Contents()) && n <= epptr - pptr
      ensures ok && n <= old(epptr - pptr) ==>
                gptr == old(gptr) && egptr == old(egptr) && pptr == old(pptr) && epptr == old(epptr)
      ensures ok && n > old(epptr - pptr) ==>
                gptr == 0 && egptr == pptr == old(Size()) && epptr == Max(old(epptr), old(Size()) + n)
      ensures !ok ==> unchanged(this) && (gptr == 0 ==> buffer[..] == old(buffer[..]))
      ensures !ok ==> Contents() == AfterFailedShift(old(Contents()), old(gptr))
    {
      var pnext, pend := pptr, epptr;
      if n <= pend - pnext {
        return true;
      }
      ghost var content := Contents();
      if gptr > 0 {
        pnext := pnext - gptr;
        MoveDown();
      }
      assert buffer[..pnext] == content;
      if n > pend - pnext {
        if n <= maxSize && pnext <= maxSize - n {
          pend := pnext + n;
          Resize(Max(pend, 1));
          assert buffer[..pnext] == content;
        } else {
          return false;
        }
      }
      gptr, egptr := 0, pnext;
      pptr, epptr := pnext, pend;
      return true;
    }

    /** The prepared region is buffer[pptr .. pptr + n]. */
    method Prepare(n: nat) returns (ok: bool)
      requires Valid()
      modifies this, buffer
      ensures Valid() && (buffer == old(buffer) || fresh(buffer))
      ensures ok <==> old(Size()) + n <= maxSize
      ensures ok ==> Contents() == old(Contents()) && pptr + n <= epptr
      ensures !ok ==> Contents() == AfterFailedShift(old(Contents()), old(gptr))
    {
      ok := Reserve(n);
    }

    /** What an input operation does with a prepared region: it stores bytes at its start. */
    method Fill(bs: seq<byte>)
      requires Valid() && |bs| <= epptr - pptr
      modifies buffer
      ensures Valid() && Contents() == old(Contents())
      ensures buffer[pptr..pptr + |bs|] == bs
    {
      forall i | 0 <= i < |bs| {
        buffer[pptr + i] := bs[i];
      }
    }

    /**
     * The count, cut to the put area, goes through an int. The positions are in order afterwards exactly when the put
     * position has not come to lie before the get position, and as many bytes as asked for are added exactly for an
     * int.
     */
    method Commit(count: nat)
      requires Valid()
      modifies this`pptr, this`egptr
      ensures egptr == pptr == old(pptr) + NarrowToInt(Min(count, epptr - old(pptr)))
      ensures Valid() <==> gptr <= pptr
      ensures pptr == old(pptr) + Min(count, epptr - old(pptr)) <==> Min(count, epptr - old(pptr)) <= INT_MAX
      ensures Min(count, epptr - old(pptr)) <= INT_MAX ==> Contents() == old(Contents()) + buffer[old(pptr)..pptr]
    {
      var n := count;
      if pptr + n > epptr {
        n := epptr - pptr;
      }
      pptr := pptr + NarrowToInt(n);
      egptr := pptr;
    }

    /** A completed input operation: the bytes it stored in the prepared region, committed. */
    method FillAndCommit(bs: seq<byte>)
      requires Valid() && |bs| <= epptr - pptr && |bs| <= INT_MAX
      modifies this`pptr, this`egptr, buffer
      ensures Valid() && Contents() == old(Contents()) + bs
      ensures pptr == old(pptr) + |bs|
    {
      Fill(bs);
      Commit(|bs|);
    }

    /** The count, cut to the contents, goes through an int: the get position may even move back. */
    method Consume(count: nat)
      requires Valid()
      modifies this`gptr, this`egptr
      ensures gptr == old(gptr) + NarrowToInt(Min(count, old(Size()))) && egptr == Max(old(egptr), pptr)
      ensures Valid() <==> gptr >= 0
      ensures gptr == old(gptr) + Min(count, old(Size())) <==> Min(count, old(Size())) <= INT_MAX
      ensures Min(count, old(Size())) <= INT_MAX ==> Contents() == old(Contents())[Min(count, old(Size()))..]
    {
      var n := count;
      if egptr < pptr {
        egptr := pptr;
      }
      if gptr + n > pptr {
        n := pptr - gptr;
      }
      gptr := gptr + NarrowToInt(n);
    }

    method Underflow() returns (c: Option<byte>)
      requires Valid()
      modifies this`egptr
      ensures Valid() && Contents() == old(Contents())
      ensures c == if Size() == 0 then None else Some(Contents()[0])
      ensures c.Some? ==> gptr < egptr == pptr
    {
      if gptr < pptr {
        egptr := pptr;
        return Some(buffer[gptr]);
      }
      return None;
    }

    /** The part of `overflow` that makes room when the put area is full. */
    method ReserveForOne() returns (ok: bool)
      requires Valid() && pptr == epptr
      modifies this, buffer
      ensures Valid() && (buffer == old(buffer) || fresh(buffer))
      ensures ok <==> old(Size()) < maxSize
      ensures ok ==> Contents() == old(Contents()) && pptr < epptr
      ensures ok ==> gptr == 0 && epptr == Max(old(epptr), Size() + Min(128, maxSize - Size()))
      ensures !ok ==> gptr == 0 && unchanged(this) && buffer[..] == old(buffer[..])
    {
      var bufferSize := pptr - gptr;
      if bufferSize < maxSize && maxSize - bufferSize < BUFFER_DELTA {
        ok := Reserve(maxSize - bufferSize);
      } else {
        ok := Reserve(BUFFER_DELTA);
      }
    }

    /** `c == None` is traits_type::eof(). `ok == false` is the length_error, and then nothing has changed. */
    method Overflow(c: Option<byte>) returns (ok: bool)
      requires Valid()
      modifies this, buffer
      ensures Valid() && (buffer == old(buffer) || fresh(buffer))
      ensures c.None? ==> ok && Contents() == old(Contents())
      ensures c.Some? ==> (ok <==> old(Size()) < maxSize)
      ensures c.Some? && ok ==> Contents() == old(Contents()) + [c.value]
      ensures !ok ==> gptr == 0 && unchanged(this) && buffer[..] == old(buffer[..])
    {
      if c.Some? {
        if pptr == epptr {
          ok := ReserveForOne();
          if !ok {
            return;
          }
        }
        Store(c.value);
      }
      return true;
    }

    /** One character into the put area. */
    method Store(c: byte)
      requires Valid() && pptr < epptr
      modifies this`pptr, buffer
      ensures Valid() && Contents() == old(Contents()) + [c]
    {
      buffer[pptr] := c;
      pptr := pptr + 1;
    }

    /** std::streambuf::sputc. */
    method SPutC(c: byte) returns (ok: bool)
      requires Valid()
      modifies this, buffer
      ensures Valid() && (buffer == old(buffer) || fresh(buffer))
      ensures ok <==> old(Size()) < maxSize
      ensures Contents() == if ok then old(Contents()) + [c] else old(Contents())
    {
      if pptr < epptr {
        Store(c);
        return true;
      }
      ok := Overflow(Some(c));
    }

    /** std::streambuf::sbumpc: the next byte, refilling the get area from the put area when it is empty. */
    method SBumpC() returns (c: Option<byte>)
      requires Valid()
      modifies this`gptr, this`egptr
      ensures Valid()
      ensures old(Size()) == 0 ==> c == None && Contents() == []
      ensures old(Size()) > 0 ==> c == Some(old(Contents())[0]) && Contents() == old(Contents())[1..]
    {
      if gptr == egptr {
        var next := Underflow();
        if next.None? {
          return None;
        }
      }
      c := Some(buffer[gptr]);
      gptr := gptr + 1;
    }

    /** std::streambuf::sputn: as many bytes as the size limit leaves room for. */
    method SPutN(bs: seq<byte>) returns (written: nat)
      requires Valid()
      modifies this, buffer
      ensures Valid() && (buffer == old(buffer) || fresh(buffer))
      ensures written == Min(|bs|, maxSize - old(Size()))
      ensures Contents() == old(Contents()) + bs[..written]
    {
      written := 0;
      ghost var start := Contents();
      while written < |bs|
        invariant written <= |bs| && Valid() && (buffer == old(buffer) || fresh(buffer))
        invariant Contents() == start + bs[..written]
      {
        var ok := SPutC(bs[written]);
        if !ok {
          return;
        }
        AppendOne(start, bs, written);
        written := written + 1;
      }
    }

    /** std::streambuf::sgetn: as many bytes as there are, in order. */
    method SGetN(n: nat) returns (bs: seq<byte>)
      requires Valid()
      modifies this`gptr, this`egptr
      ensures Valid()
      ensures bs == old(Contents())[..Min(n, old(Size()))]
      ensures Contents() == old(Contents())[Min(n, old(Size()))..]
    {
      bs := [];
      while |bs| < n
        invariant Valid() && |bs| <= n && |bs| <= old(Size())
        invariant bs == old(Contents())[..|bs|]
        invariant Contents() == old(Contents())[|bs|..]
      {
        var c := SBumpC();
        if c.None? {
          return;
        }
        assert old(Contents())[..|bs| + 1] == bs + [c.value];
        bs := bs + [c.value];
      }
    }

    /** The bytes data() refers to. */
    method Data() returns (bs: seq<byte>)
      requires Valid()
      ensures bs == Contents()
    {
      bs := buffer[gptr..pptr];
    }

    /** How many bytes the next read operation may ask for, when it was told to read at most `limit`. */
    function ReadSizeHelper(limit: nat): (n: nat)
      requires Valid()
      reads this
      ensures n <= limit && Size() + n <= maxSize
      ensures n == 0 <==> limit == 0 || Size() == maxSize
    {
      Min(Max(512, capacity - Size()), Min(limit, maxSize - Size()))
    }

    /** It is all that limit and room allow, or else the larger of 512 and what the allocation has left. */
    lemma PreferredSize(limit: nat)
      requires Valid()
      ensures var n := ReadSizeHelper(limit);
              && (n == limit || Size() + n == maxSize || (n >= 512 && Size() + n >= capacity))
              && (n <= 512 || Size() + n <= capacity)
    {
    }
  }

  // ----- the stream buffer against a plain queue -----

  datatype Op =
    | Append(room: nat, bytes: seq<byte>)   // prepare(room), store bytes, commit(|bytes|)
    | Discard(count: nat)                   // consume
    | Put(c: byte)                          // one character written
    | Get                                   // one character read

  /**
   * What an observer of a byte queue of limited size sees: the queue, what was read, and whether an operation threw.
   */
  datatype Observed = Observed(queue: seq<byte>, read: seq<Option<byte>>, threw: bool)

  predicate Fits(queue: seq<byte>, maxSize: nat, op: Op) {
    match op
    case Append(room, _) => |queue| + room <= maxSize
    case Put(_) => |queue| < maxSize
    case _ => true
  }

  function QueueStep(o: Observed, op: Op): Observed {
    match op
    case Append(_, bytes) => o.(queue := o.queue + bytes)
    case Discard(n) => o.(queue := o.queue[Min(n, |o.queue|)..])
    case Put(c) => o.(queue := o.queue + [c])
    case Get =>
      if o.queue == [] then o.(read := o.read + [None])
      else o.(queue := o.queue[1..], read := o.read + [Some(o.queue[0])])
  }

  /** The queue's run stops at the first operation that does not fit. */
  function QueueRun(o: Observed, maxSize: nat, ops: seq<Op>): Observed
    decreases |ops|
  {
    if o.threw || ops == [] then o
    else if !Fits(o.queue, maxSize, ops[0]) then o.(threw := true)
    else QueueRun(QueueStep(o, ops[0]), maxSize, ops[1..])
  }

  /** The bytes stored are within the prepared region, and no count that is used is too large for an int. */
  predicate Callable(op: Op, maxSize: nat) {
    match op
    case Append(room, bytes) => |bytes| <= room && (room <= maxSize ==> |bytes| <= INT_MAX)
    case Discard(n) => Min(n, maxSize) <= INT_MAX
    case _ => true
  }

  method AppendThrough(sb: StreamBuf, room: nat, bytes: seq<byte>) returns (ok: bool)
    requires sb.Valid() && Callable(Append(room, bytes), sb.maxSize)
    modifies sb, sb.buffer
    ensures sb.Valid() && (sb.buffer == old(sb.buffer) || fresh(sb.buffer))
    ensures ok <==> old(sb.Size()) + room <= sb.maxSize
    ensures ok ==> sb.Contents() == old(sb.Contents()) + bytes
  {
    ok := sb.Prepare(room);
    if ok {
      sb.FillAndCommit(bytes);
    }
  }

  method PerformOne(sb: StreamBuf, op: Op, read: seq<Option<byte>>) returns (ok: bool, read': seq<Option<byte>>)
    requires sb.Valid() && Callable(op, sb.maxSize)
    modifies sb, sb.buffer
    ensures sb.Valid() && (sb.buffer == old(sb.buffer) || fresh(sb.buffer))
    ensures ok <==> Fits(old(sb.Contents()), sb.maxSize, op)
    ensures ok ==> Observed(sb.Contents(), read', false) == QueueStep(Observed(old(sb.Contents()), read, false), op)
  {
    ok, read' := true, read;
    match op {
      case Append(room, bytes) =>
        ok := AppendThrough(sb, room, bytes);
      case Discard(n) =>
        sb.Consume(n);
      case Put(c) =>
        ok := sb.SPutC(c);
      case Get =>
        var c := sb.SBumpC();
        read' := read + [c];
    }
  }

  /** A stream buffer and a plain queue cannot be told apart by any sequence of operations. */
  method Perform(sb: StreamBuf, ops: seq<Op>) returns (read: seq<Option<byte>>, threw: bool)
    requires sb.Valid() && forall op :: op in ops ==> Callable(op, sb.maxSize)
    modifies sb, sb.buffer
    ensures sb.Valid()
    ensures var o := QueueRun(Observed(old(sb.Contents()), [], false), sb.maxSize, ops);
            read == o.read && threw == o.threw && (!threw ==> sb.Contents() == o.queue)
  {
    read, threw := [], false;
    ghost var start := Observed(sb.Contents(), [], false);
    var i := 0;
    while i < |ops|
      invariant i <= |ops| && sb.Valid() && (sb.buffer == old(sb.buffer) || fresh(sb.buffer))
      invariant QueueRun(start, sb.maxSize, ops)
             == QueueRun(Observed(sb.Contents(), read, false), sb.maxSize, ops[i..])
    {
      assert Callable(ops[i], sb.maxSize);
      assert ops[i..][0] == ops[i] && ops[i..][1..] == ops[i + 1..];
      var ok, read' := PerformOne(sb, ops[i], read);
      if !ok {
        threw := true;
        return;
      }
      read, i := read', i + 1;
    }
  }

  /**
   * A prepare that throws keeps the contents exactly when moving them down by `g` does not show:
   * always when nothing was moved or the two places do not overlap, otherwise only for bytes that repeat every `g`.
   */
  lemma {:induction false} FailedShiftKeepsContents(content: seq<byte>, g: nat)
    ensures AfterFailedShift(content, g) == content
       <==> forall i :: g <= i < |content| ==> content[i - g] == content[i]
    ensures g == 0 || g >= |content| ==> AfterFailedShift(content, g) == content
  {
    var r := AfterFailedShift(content, g);
    assert forall i :: 0 <= i < |content| ==> r[i] == if i + g < |content| then content[i + g] else content[i];
    if forall i :: g <= i < |content| ==> content[i - g] == content[i] {
      forall i | 0 <= i < |content|
        ensures r[i] == content[i]
      {
        if i + g < |content| {
          assert content[(i + g) - g] == content[i + g];
        }
      }
    }
    if r == content {
      forall i | g <= i < |content|
        ensures content[i - g] == content[i]
      {
        assert r[i - g] == content[i - g];
      }
    }
  }

  /** A buffer of at most four bytes that holds 1, 2, 3 at get position 1 and is asked to prepare two more. */
  method FailedPrepareCanCorrupt() returns (before: seq<byte>, ok: bool, after: seq<byte>)
    ensures before == [1, 2, 3] && !ok && after == [2, 3, 3]
  {
    var sb := new StreamBuf(4);
    sb.FillAndCommit([0, 1, 2, 3]);
    sb.Consume(1);
    before := sb.Data();
    ok := sb.Prepare(2);
    after := sb.Data();
  }
}
