/** asio::async_write of a buffer sequence: consuming_buffers and write_op. */
module WriteOps {
  import opened Bytes
  import opened ReadOps

  /** transfer_all_t */
  function TransferAll(failed: bool): (n: nat)
    ensures n == if failed then 0 else 65536
  {
    if failed then 0 else DEFAULT_MAX_TRANSFER_SIZE
  }

  /** The pieces of a list of regions, up to max bytes, one after the other. */
  function Walk(parts: seq<seq<byte>>, max: nat): seq<byte> {
    if parts == [] then []
    else var n := Min(|parts[0]|, max); parts[0][..n] + Walk(parts[1..], max - n)
  }

  lemma PrefixOfSum(a: seq<byte>, b: seq<byte>, max: nat)
    ensures var n := Min(|a|, max);
            a[..n] + b[..Min(max - n, |b|)] == (a + b)[..Min(max, |a + b|)]
  {
  }

  lemma {:induction false} WalkIsPrefix(parts: seq<seq<byte>>, max: nat)
    ensures Walk(parts, max) == Flatten(parts)[..Min(max, |Flatten(parts)|)]
  {
    if parts != [] {
      WalkIsPrefix(parts[1..], max - Min(|parts[0]|, max));
      PrefixOfSum(parts[0], Flatten(parts[1..]), max);
    }
  }

  lemma WalkFirst(first: seq<byte>, rest: seq<seq<byte>>, max: nat)
    ensures var n := Min(|first|, max);
            first[..n] + Walk(rest, max - n) == (first + Flatten(rest))[..Min(max, |first + Flatten(rest)|)]
  {
    WalkIsPrefix(rest, max - Min(|first|, max));
    PrefixOfSum(first, Flatten(rest), max);
  }

  /** The window so far, its next piece, and what the pieces after that will be. */
  ghost predicate WalksTo(window: seq<byte>, bs: seq<byte>, piece: seq<byte>, parts: seq<seq<byte>>, next: nat,
                          max: nat) {
    next <= |parts| && |bs| + |piece| <= max && bs + piece + Walk(parts[next..], max - |bs| - |piece|) == window
  }

  lemma WalkOn(window: seq<byte>, bs: seq<byte>, piece: seq<byte>, parts: seq<seq<byte>>, next: nat, max: nat)
    requires WalksTo(window, bs, piece, parts, next, max) && next < |parts|
    ensures WalksTo(window, bs + piece, parts[next][..Min(|parts[next]|, max - |bs + piece|)], parts, next + 1, max)
  {
    assert parts[next..][1..] == parts[next + 1..];
  }

  lemma WalkDone(window: seq<byte>, bs: seq<byte>, piece: seq<byte>, parts: seq<seq<byte>>, next: nat, max: nat)
    requires WalksTo(window, bs, piece, parts, next, max) && (next == |parts| || |bs| + |piece| == max)
    ensures bs + piece == window
  {
    WalkIsPrefix(parts[next..], max - |bs| - |piece|);
  }

  lemma WalkStart(first: seq<byte>, parts: seq<seq<byte>>, next: nat, max: nat)
    requires next <= |parts|
    ensures var pending := first + Flatten(parts[next..]);
            WalksTo(pending[..Min(max, |pending|)], [], first[..Min(|first|, max)], parts, next, max)
  {
    WalkFirst(first, parts[next..], max);
    assert [] + first[..Min(|first|, max)] == first[..Min(|first|, max)];
  }

  /** The bytes consuming_buffers_iterator goes over, piece by piece, from its construction to the end. */
  method WalkPieces(buffers: seq<seq<byte>>, first: seq<byte>, beginRemainder: nat, max: nat) returns (bs: seq<byte>)
    requires beginRemainder <= |buffers|
    ensures var pending := first + Flatten(buffers[beginRemainder..]);
            bs == pending[..Min(max, |pending|)]
  {
    ghost var pending := first + Flatten(buffers[beginRemainder..]);
    ghost var window := pending[..Min(max, |pending|)];
    bs := [];
    var piece, next := first[..Min(|first|, max)], beginRemainder;
    WalkStart(first, buffers, next, max);
    while true
      invariant WalksTo(window, bs, piece, buffers, next, max)
      decreases |buffers| - next
    {
      if next == |buffers| || |bs| + |piece| >= max {
        WalkDone(window, bs, piece, buffers, next, max);
        bs := bs + piece;
        return;
      }
      WalkOn(window, bs, piece, buffers, next, max);
      bs := bs + piece;
      piece := buffers[next][..Min(|buffers[next]|, max - |bs|)];
      next := next + 1;
    }
  }

  /** consuming_buffers: what is left of a list of regions, the first of them perhaps cut short. */
  class ConsumingBuffers {
    const buffers: seq<seq<byte>>
    var atEnd: bool
    var first: seq<byte>
    var beginRemainder: nat
    var maxSize: nat

    ghost predicate Valid()
      reads this
    {
      beginRemainder <= |buffers|
    }

    ghost function Pending(): seq<byte>
      requires Valid()
      reads this
    {
      if atEnd then [] else first + Flatten(buffers[beginRemainder..])
    }

    constructor (buffers: seq<seq<byte>>)
      ensures Valid() && this.buffers == buffers && Pending() == Flatten(buffers) && maxSize == SIZE_MAX
    {
      this.buffers := buffers;
      atEnd := |buffers| == 0;
      first := if |buffers| == 0 then [] else buffers[0];
      beginRemainder := if |buffers| == 0 then 0 else 1;
      maxSize := SIZE_MAX;
    }

    /** first_ = *begin_remainder_++, or the end. */
    method NextBuffer()
      requires Valid() && !atEnd
      modifies this`atEnd, this`first, this`beginRemainder
      ensures Valid() && Pending() == old(Pending())[old(|first|)..]
      ensures atEnd || beginRemainder == old(beginRemainder) + 1
    {
      if beginRemainder == |buffers| {
        atEnd := true;
      } else {
        assert buffers[beginRemainder..][1..] == buffers[beginRemainder + 1..];
        first := buffers[beginRemainder];
        beginRemainder := beginRemainder + 1;
      }
    }

    /** consume(), first loop: whole buffers, then part of one. */
    method RemoveBytes(count: nat)
      requires Valid()
      modifies this`atEnd, this`first, this`beginRemainder
      ensures Valid() && Pending() == old(Pending())[Min(count, |old(Pending())|)..]
    {
      var size: nat := count;
      ghost var start := Pending();
      ghost var gone: nat := 0;
      while size > 0 && !atEnd
        invariant Valid() && gone + size == count && gone <= |start| && Pending() == start[gone..]
        decreases !atEnd, |buffers| - beginRemainder, size
      {
        if |first| <= size {
          size := size - |first|;
          gone := gone + |first|;
          NextBuffer();
        } else {
          first := first[size..];
          gone := gone + size;
          size := 0;
        }
      }
    }

    /** consume(): second loop: the empty buffers that follow. */
    method RemoveEmpty()
      requires Valid()
      modifies this`atEnd, this`first, this`beginRemainder
      ensures Valid() && Pending() == old(Pending())
      ensures atEnd <==> Pending() == []
    {
      while !atEnd && |first| == 0
        invariant Valid() && Pending() == old(Pending())
        decreases !atEnd, |buffers| - beginRemainder
      {
        NextBuffer();
      }
    }

    method Consume(count: nat)
      requires Valid()
      modifies this`atEnd, this`first, this`beginRemainder
      ensures Valid() && Pending() == old(Pending())[Min(count, |old(Pending())|)..]
      ensures atEnd <==> Pending() == []
    {
      RemoveBytes(count);
      RemoveEmpty();
    }

    /** begin() == end(): nothing may be sent now. */
    predicate NothingToSend()
      reads this
    {
      atEnd || maxSize == 0
    }

    /** The bytes of the buffers from begin() to end(), as a write operation walks over them. */
    method Window() returns (bs: seq<byte>)
      requires Valid()
      ensures bs == Pending()[..Min(maxSize, |Pending()|)]
    {
      if NothingToSend() {
        return [];
      }
      bs := WalkPieces(buffers, first, beginRemainder, maxSize);
    }
  }

  /** write_op with transfer_all. Between calls one async_write_some is outstanding, or the handler has been called. */
  class WriteOp {
    const buffers: ConsumingBuffers
    const whole: seq<byte>              // all bytes to write
    var totalTransferred: nat
    var writing: Option<seq<byte>>      // the bytes of the outstanding async_write_some
    var completion: Option<Completion>

    ghost predicate Valid()
      reads this, buffers
    {
      && buffers.Valid()
      && totalTransferred <= |whole| && buffers.Pending() == whole[totalTransferred..]
      && (writing.Some? <==> completion.None?)
      && (writing.Some? ==>
            writing.value == whole[totalTransferred..][..Min(DEFAULT_MAX_TRANSFER_SIZE, |whole| - totalTransferred)])
      && (completion.Some? ==> completion.value.bytes == totalTransferred)
    }

    constructor (parts: seq<seq<byte>>)
      ensures Valid() && fresh(buffers) && whole == Flatten(parts) && totalTransferred == 0 && writing.Some?
    {
      buffers := new ConsumingBuffers(parts);
      whole, totalTransferred, writing, completion := Flatten(parts), 0, Some([]), None;
      new;
      buffers.maxSize := TransferAll(false);
      var window := buffers.Window();
      writing := Some(window);
    }

    /** operator() on completion of async_write_some, which has put the first n bytes of its window on the wire. */
    method OnWriteSome(failed: bool, n: nat)
      requires Valid() && writing.Some? && n <= |writing.value|
      modifies this`totalTransferred, this`writing, this`completion, buffers
      ensures Valid() && totalTransferred == old(totalTransferred) + n
      ensures completion.Some? <==> failed || n == 0 || totalTransferred == |whole|
      ensures completion.Some? ==> completion.value.failed == failed
    {
      totalTransferred := totalTransferred + n;
      buffers.Consume(n);
      buffers.maxSize := TransferAll(failed);
      if (!failed && n == 0) || buffers.NothingToSend() {
        writing, completion := None, Some(Completion(failed, totalTransferred));
      } else {
        var window := buffers.Window();
        writing := Some(window);
      }
    }
  }

  datatype Sent = Sent(n: nat) | Failed

  /** The stream answers the outstanding operation; returned are the bytes that reached the wire. */
  method Answer(op: WriteOp, answer: Sent) returns (bs: seq<byte>)
    requires op.Valid() && op.writing.Some? && (answer.Sent? ==> answer.n > 0)
    modifies op`totalTransferred, op`writing, op`completion, op.buffers
    ensures op.Valid() && op.totalTransferred == old(op.totalTransferred) + |bs|
    ensures bs == op.whole[old(op.totalTransferred)..op.totalTransferred]
    ensures op.completion.Some? <==> answer.Failed? || op.totalTransferred == |op.whole|
    ensures op.completion.Some? ==> op.completion.value.failed == answer.Failed?
    ensures answer.Sent? && op.completion.None? ==> bs != []
  {
    match answer {
      case Failed =>
        bs := [];
        op.OnWriteSome(true, 0);
      case Sent(k) =>
        var n := Min(k, |op.writing.value|);
        bs := op.writing.value[..n];
        op.OnWriteSome(false, n);
    }
  }

  /** The answers, one after the other, until the operation is complete. */
  method AnswerAll(op: WriteOp, answers: seq<Sent>, wire: seq<byte>) returns (wire': seq<byte>)
    requires op.Valid() && op.writing.Some? && wire == op.whole[..op.totalTransferred]
    requires forall a :: a in answers && a.Sent? ==> a.n > 0
    modifies op`totalTransferred, op`writing, op`completion, op.buffers
    ensures op.Valid() && wire' == op.whole[..op.totalTransferred]
    ensures op.completion.Some? ==> if op.completion.value.failed then Failed in answers else wire' == op.whole
    ensures |answers| > |op.whole| - |wire| ==> op.completion.Some?
    decreases |answers|
  {
    if |answers| == 0 {
      return wire;
    }
    var bs := Answer(op, answers[0]);
    NextSlice(op.whole, |wire|, |bs|);
    wire' := wire + bs;
    if op.completion.None? {
      wire' := AnswerAll(op, answers[1..], wire');
    }
  }

  /** One async_write of several regions against a stream that accepts any number of bytes each time, or fails. */
  method AsyncWrite(parts: seq<seq<byte>>, answers: seq<Sent>) returns (wire: seq<byte>, done: Option<Completion>)
    requires forall a :: a in answers && a.Sent? ==> a.n > 0
    ensures wire <= Flatten(parts)
    ensures done.Some? ==> done.value.bytes == |wire|
    ensures done.Some? && !done.value.failed ==> wire == Flatten(parts)
    ensures done.Some? && done.value.failed ==> Failed in answers
    ensures |answers| > |Flatten(parts)| ==> done.Some?
  {
    var op := new WriteOp(parts);
    wire := AnswerAll(op, answers, []);
    done := op.completion;
  }
}
