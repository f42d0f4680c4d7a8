/** asio::async_read into a stream buffer until a completion condition says stop. */
module ReadOps {
  import opened Bytes
  import opened StreamBuffers

  const DEFAULT_MAX_TRANSFER_SIZE: nat := 65536

  /** transfer_exactly_t: how many bytes the next operation may transfer; 0 means the whole read is complete. */
  function TransferExactly(size: nat, failed: bool, transferred: nat): (n: nat)
    ensures n == 0 <==> failed || transferred >= size
    ensures n > 0 ==> transferred + n <= size
    ensures n <= 65536
    ensures !failed && transferred < size ==> n == 65536 || transferred + n == size
  {
    if failed || transferred >= size then 0
    else if size - transferred < DEFAULT_MAX_TRANSFER_SIZE then size - transferred
    else DEFAULT_MAX_TRANSFER_SIZE
  }

  /** What the handler is called with. */
  datatype Completion = Completion(failed: bool, bytes: nat)

  lemma DropOfSum(a: seq<byte>, b: seq<byte>, n: nat)
    requires n <= |a|
    ensures (a + b)[n..] == a[n..] + b
  {
  }

  lemma NextSlice(s: seq<byte>, m: nat, n: nat)
    requires m + n <= |s|
    ensures s[..m] + s[m..m + n] == s[..m + n]
  {
  }

  lemma PrefixAndRest(a: seq<byte>, s: seq<byte>)
    requires a <= s
    ensures a + s[|a|..] == s
  {
  }

  /**
   * The bytes the next operation asks for are within what is wanted and what the buffer may hold; none when all are
   * there.
   */
  lemma NextReadInRange(size: nat, transferred: nat, before: nat, maxSize: nat, capacity: nat)
    requires before + transferred <= maxSize && transferred <= size
    ensures var used := before + transferred;
            var n := Min(Max(512, if capacity >= used then capacity - used else 0),
                Min(TransferExactly(size, false, transferred), maxSize - used));
            var wanted := if before + size <= maxSize then size else maxSize - before;
            transferred + n <= wanted && (n == 0 <==> transferred == wanted) && used + n <= maxSize
                && n <= DEFAULT_MAX_TRANSFER_SIZE
  {
  }

  lemma FirstReadIsWhole(size: nat, maxSize: nat, capacity: nat)
    ensures size <= 512 && size <= maxSize ==>
            Min(Max(512, capacity), Min(TransferExactly(size, false, 0), maxSize)) == size
  {
  }

  /** read_streambuf_op. Between calls exactly one async_read_some is outstanding, or the handler has been called. */
  class ReadStreambufOp {
    const streambuf: StreamBuf
    const size: nat                     // of the transfer_exactly condition
    var totalTransferred: nat
    var reading: Option<nat>            // size of the prepared region of the outstanding async_read_some
    var completion: Option<Completion>
    ghost const before: seq<byte>       // what the stream buffer held at the start

    /** As many bytes as were asked for, or as the stream buffer can take. */
    ghost function Wanted(): nat
      reads this
    {
      if |before| + size <= streambuf.maxSize then size
      else if |before| <= streambuf.maxSize then streambuf.maxSize - |before|
      else 0
    }

    ghost predicate Valid()
      reads this, streambuf, streambuf.buffer
    {
      && streambuf.Valid()
      && before <= streambuf.Contents()
      && |streambuf.Contents()| == |before| + totalTransferred
      && totalTransferred <= Wanted()
      && (reading.Some? <==> completion.None?)
      && (reading.Some? ==>
            && reading.value <= streambuf.epptr - streambuf.pptr
            && reading.value <= DEFAULT_MAX_TRANSFER_SIZE
            && totalTransferred + reading.value <= Wanted()
            && (reading.value == 0 <==> totalTransferred == Wanted()))
      && (completion.Some? ==> completion.value.bytes == totalTransferred)
    }

    /** The bytes this operation has added. */
    ghost function Got(): seq<byte>
      requires Valid()
      reads this, streambuf, streambuf.buffer
    {
      streambuf.Contents()[|before|..]
    }

    /**
     * What the next operation asks for: bounded by the condition, by what the buffer may hold, and by a preferred
     * size.
     */
    ghost function NextRead(capacity: nat): int
      requires streambuf.Valid()
      reads this, streambuf
    {
      Min(Max(512, if capacity >= streambuf.Size() then capacity - streambuf.Size() else 0),
          Min(TransferExactly(size, false, totalTransferred), streambuf.maxSize - streambuf.Size()))
    }

    /** The next operation is started: a region is prepared for it, which cannot throw. */
    method Start(available: nat)
      requires streambuf.Valid() && before <= streambuf.Contents()
      requires |streambuf.Contents()| == |before| + totalTransferred && totalTransferred <= Wanted()
      requires available == NextRead(streambuf.capacity)
      modifies this`reading, this`completion, streambuf, streambuf.buffer
      ensures Valid() && (streambuf.buffer == old(streambuf.buffer) || fresh(streambuf.buffer))
      ensures streambuf.Contents() == old(streambuf.Contents()) && reading == Some(available)
    {
      NextReadInRange(size, totalTransferred, |before|, streambuf.maxSize, streambuf.capacity);
      var ok := streambuf.Prepare(available);
      assert ok;
      reading, completion := Some(available), None;
    }

    /** The operation's first call, with nothing transferred. */
    method FirstRead()
      requires streambuf.Valid() && before == streambuf.Contents() && totalTransferred == 0
      modifies this`reading, this`completion, streambuf, streambuf.buffer
      ensures Valid() && (streambuf.buffer == old(streambuf.buffer) || fresh(streambuf.buffer))
      ensures reading.Some? && reading.value == NextRead(old(streambuf.capacity))
      ensures before == [] && size <= 512 && size <= streambuf.maxSize ==> reading.value == size
    {
      var max := TransferExactly(size, false, 0);
      var available := streambuf.ReadSizeHelper(max);
      FirstReadIsWhole(size, streambuf.maxSize, streambuf.capacity);
      assert available == NextRead(streambuf.capacity);
      Start(available);
    }

    constructor (sb: StreamBuf, size: nat)
      requires sb.Valid()
      modifies sb, sb.buffer
      ensures Valid() && streambuf == sb && this.size == size && before == old(sb.Contents())
      ensures sb.buffer == old(sb.buffer) || fresh(sb.buffer)
      ensures totalTransferred == 0 && reading.Some? && reading.value == NextRead(old(sb.capacity))
      ensures old(sb.Size()) == 0 && size <= 512 && size <= sb.maxSize ==> reading.value == size
    {
      streambuf, this.size, totalTransferred := sb, size, 0;
      reading, completion := Some(0), None;
      before := sb.Contents();
      new;
      FirstRead();
    }

    /** operator() on completion of async_read_some, which has stored `data` in the prepared region. */
    method OnReadSome(failed: bool, data: seq<byte>)
      requires Valid() && reading.Some? && |data| <= reading.value
      modifies this`totalTransferred, this`reading, this`completion, streambuf, streambuf.buffer
      ensures Valid() && (streambuf.buffer == old(streambuf.buffer) || fresh(streambuf.buffer))
      ensures Got() == old(Got()) + data
      ensures totalTransferred == old(totalTransferred) + |data|
      ensures completion.Some? <==> failed || data == [] || totalTransferred == Wanted()
      ensures completion.Some? ==> completion.value.failed == failed
      ensures reading.Some? ==> reading.value == NextRead(old(streambuf.capacity))
    {
      ghost var contents := streambuf.Contents();
      totalTransferred := totalTransferred + |data|;
      streambuf.FillAndCommit(data);
      Continue(failed, |data|);
      DropOfSum(contents, data, |before|);
    }

    /** The rest of operator(): finish, or start the next async_read_some. */
    method Continue(failed: bool, bytesTransferred: nat)
      requires streambuf.Valid() && before <= streambuf.Contents()
      requires |streambuf.Contents()| == |before| + totalTransferred && totalTransferred <= Wanted()
      modifies this`reading, this`completion, streambuf, streambuf.buffer
      ensures Valid() && (streambuf.buffer == old(streambuf.buffer) || fresh(streambuf.buffer))
      ensures streambuf.Contents() == old(streambuf.Contents())
      ensures completion.Some? <==> failed || bytesTransferred == 0 || totalTransferred == Wanted()
      ensures completion.Some? ==> completion.value.failed == failed
      ensures reading.Some? ==> reading.value == NextRead(old(streambuf.capacity))
    {
      var max := TransferExactly(size, failed, totalTransferred);
      var available := streambuf.ReadSizeHelper(max);
      if (!failed && bytesTransferred == 0) || available == 0 {
        reading, completion := None, Some(Completion(failed, totalTransferred));
      } else {
        Start(available);
      }
    }
  }

  /** The stream answers the outstanding operation with at most `piece` bytes, or with an error at its end. */
  method ReadPiece(op: ReadStreambufOp, stream: seq<byte>, taken: nat, piece: nat) returns (taken': nat)
    requires op.Valid() && op.reading.Some? && piece > 0
    requires taken <= |stream| && taken == op.totalTransferred && op.Got() == stream[..taken]
    modifies op`totalTransferred, op`reading, op`completion, op.streambuf, op.streambuf.buffer
    ensures op.Valid() && (op.streambuf.buffer == old(op.streambuf.buffer) || fresh(op.streambuf.buffer))
    ensures taken' <= |stream| && taken' == op.totalTransferred && op.Got() == stream[..taken']
    ensures op.completion.None? ==> taken < taken'
    ensures op.completion.Some? ==>
            if op.completion.value.failed then taken' == |stream| < op.Wanted() else taken' == op.Wanted()
  {
    if op.reading.value > 0 && taken == |stream| {
      op.OnReadSome(true, []);
      return taken;
    }
    var n := Min(piece, Min(op.reading.value, |stream| - taken));
    var data := stream[taken..taken + n];
    NextSlice(stream, taken, n);
    op.OnReadSome(false, data);
    taken' := taken + n;
  }

  /** The pieces, one after the other, until the operation is complete. */
  method ReadPieces(op: ReadStreambufOp, stream: seq<byte>, taken: nat, pieces: seq<nat>) returns (taken': nat)
    requires op.Valid() && op.reading.Some? && forall k :: k in pieces ==> k > 0
    requires taken <= |stream| && taken == op.totalTransferred && op.Got() == stream[..taken]
    modifies op`totalTransferred, op`reading, op`completion, op.streambuf, op.streambuf.buffer
    ensures op.Valid() && (op.streambuf.buffer == old(op.streambuf.buffer) || fresh(op.streambuf.buffer))
    ensures taken' <= |stream| && taken' == op.totalTransferred
            && op.streambuf.Contents() == op.before + stream[..taken']
    ensures op.completion.Some? ==>
            if op.completion.value.failed then taken' == |stream| < op.Wanted() else taken' == op.Wanted()
    ensures |pieces| > op.Wanted() - taken ==> op.completion.Some?
    decreases |pieces|
  {
    if |pieces| == 0 {
      PrefixAndRest(op.before, op.streambuf.Contents());
      return taken;
    }
    assert pieces[0] in pieces;
    taken' := ReadPiece(op, stream, taken, pieces[0]);
    if op.completion.None? {
      assert forall k :: k in pieces[1..] ==> k in pieces;
      taken' := ReadPieces(op, stream, taken', pieces[1..]);
    } else {
      PrefixAndRest(op.before, op.streambuf.Contents());
    }
  }

  /**
   * One async_read against a byte stream that hands out its bytes in pieces of any size: piece i is at most
   * pieces[i] bytes, and the end of the stream is an error. `done == None` means more pieces are awaited.
   */
  method AsyncReadExactly(sb: StreamBuf, size: nat, stream: seq<byte>, pieces: seq<nat>)
    returns (taken: nat, done: Option<Completion>)
    requires sb.Valid()
    requires forall k :: k in pieces ==> k > 0
    modifies sb, sb.buffer
    ensures sb.Valid() && taken <= |stream| && taken <= Min(size, sb.maxSize - old(sb.Size()))
    ensures sb.Contents() == old(sb.Contents()) + stream[..taken]
    ensures done.Some? ==> done.value.bytes == taken
    ensures done.Some? && !done.value.failed ==> taken == Min(size, sb.maxSize - old(sb.Size()))
    ensures done.Some? && done.value.failed ==> taken == |stream| < Min(size, sb.maxSize - old(sb.Size()))
    ensures |pieces| > Min(size, sb.maxSize - old(sb.Size())) ==> done.Some?
  {
    var op := new ReadStreambufOp(sb, size);
    taken := ReadPieces(op, stream, 0, pieces);
    done := op.completion;
  }
}
