/** asio/buffer.hpp: buffers as address ranges of one memory, and copying between sequences of them. */
module Buffers {
  import opened Bytes

  /** mutable_buffer and const_buffer: a pointer and a size. The null buffer is Buffer(0, 0). */
  datatype Buffer = Buffer(data: nat, size: nat)

  // ----- the flat view -----

  function Total(bufs: seq<Buffer>): nat {
    if bufs == [] then 0 else bufs[0].size + Total(bufs[1..])
  }

  /** The address of byte p of a buffer sequence seen as one run of bytes: what every operation is measured against. */
  ghost function AddressAt(bufs: seq<Buffer>, p: nat): nat {
    if bufs == [] then 0
    else if p < bufs[0].size then bufs[0].data + p
    else AddressAt(bufs[1..], p - bufs[0].size)
  }

  lemma {:induction false} TotalPrefix(bufs: seq<Buffer>, i: nat)
    requires i < |bufs|
    ensures Total(bufs[..i + 1]) == Total(bufs[..i]) + bufs[i].size
    ensures Total(bufs[..i + 1]) <= Total(bufs)
  {
    if i == 0 {
      assert bufs[..1][1..] == [];
    } else {
      TotalPrefix(bufs[1..], i - 1);
      assert bufs[..i + 1][1..] == bufs[1..][..i];
      assert bufs[..i][1..] == bufs[1..][..i - 1];
    }
  }

  lemma TotalWhole(bufs: seq<Buffer>)
    ensures Total(bufs[..|bufs|]) == Total(bufs) && Total(bufs[..0]) == 0
  {
    assert bufs[..|bufs|] == bufs;
  }

  lemma {:induction false} TotalMonotone(bufs: seq<Buffer>, i: nat, j: nat)
    requires i <= j <= |bufs|
    ensures Total(bufs[..i]) <= Total(bufs[..j]) <= Total(bufs)
    decreases j - i
  {
    if i < j {
      TotalPrefix(bufs, i);
      TotalMonotone(bufs, i + 1, j);
    } else if j < |bufs| {
      TotalPrefix(bufs, j);
    } else {
      TotalWhole(bufs);
    }
  }

  /** Byte j of buffer i is flat byte Total(bufs[..i]) + j. */
  lemma {:induction false} FlatAt(bufs: seq<Buffer>, i: nat, j: nat)
    requires i < |bufs| && j < bufs[i].size
    ensures Total(bufs[..i]) + j < Total(bufs)
    ensures AddressAt(bufs, Total(bufs[..i]) + j) == bufs[i].data + j
  {
    TotalPrefix(bufs, i);
    if i > 0 {
      FlatAt(bufs[1..], i - 1, j);
      assert bufs[..i][1..] == bufs[1..][..i - 1];
    }
  }

  // ----- single buffers -----

  /** operator+ */
  function Offset(b: Buffer, start: nat): Buffer {
    if start > b.size then Buffer(0, 0) else Buffer(b.data + start, b.size - start)
  }

  /** buffer(b, max_size_in_bytes) */
  function Limit(b: Buffer, max: nat): Buffer {
    Buffer(b.data, if b.size < max then b.size else max)
  }

  /** The bytes from `start` on, or none: offsets add up, and never reach past the buffer. */
  lemma OffsetMeans(b: Buffer, start: nat, more: nat)
    ensures Offset(b, start).size == if start <= b.size then b.size - start else 0
    ensures forall p :: 0 <= p < Offset(b, start).size ==> AddressAt([Offset(b, start)], p) == AddressAt([b], start + p)
    ensures more <= Offset(b, start).size && start <= b.size ==>
            Offset(Offset(b, start), more) == Offset(b, start + more)
  {
  }

  lemma LimitMeans(b: Buffer, max: nat)
    ensures Limit(b, max).size == Min(b.size, max)
    ensures forall p :: 0 <= p < Limit(b, max).size ==> AddressAt([Limit(b, max)], p) == AddressAt([b], p)
  {
  }

  // ----- copying -----

  /** A memory after its first n flat target bytes were set to what the first n flat source bytes were. */
  ghost function CopyBytes(mem: seq<byte>, target: seq<Buffer>, source: seq<Buffer>, n: nat): (r: seq<byte>)
    ensures |r| == |mem|
  {
    if n == 0 then mem else
      var r := CopyBytes(mem, target, source, n - 1);
      var to, from := AddressAt(target, n - 1), AddressAt(source, n - 1);
      if to < |mem| && from < |mem| then r[to := mem[from]] else r
  }

  ghost predicate InMemory(size: nat, bufs: seq<Buffer>) {
    forall p :: 0 <= p < Total(bufs) ==> AddressAt(bufs, p) < size
  }

  /** What memcpy asks for: bytes within the memory, and no target byte is a source byte. */
  ghost predicate Copyable(size: nat, target: seq<Buffer>, source: seq<Buffer>) {
    && InMemory(size, target) && InMemory(size, source)
    && (forall p, q :: 0 <= p < Total(target) && 0 <= q < Total(source) ==>
       AddressAt(target, p) != AddressAt(source, q))
  }

  /** No byte of the memory is named twice. Targets need not be so: then the last of several copies to a byte stays. */
  ghost predicate Distinct(bufs: seq<Buffer>) {
    forall p, q :: 0 <= p < q < Total(bufs) ==> AddressAt(bufs, p) != AddressAt(bufs, q)
  }

  lemma {:induction false} Untouched(mem: seq<byte>, target: seq<Buffer>, source: seq<Buffer>, n: nat, a: nat)
    requires a < |mem| && forall p :: 0 <= p < n ==> AddressAt(target, p) != a
    ensures CopyBytes(mem, target, source, n)[a] == mem[a]
  {
    if n > 0 {
      Untouched(mem, target, source, n - 1, a);
    }
  }

  lemma {:induction false} Touched(mem: seq<byte>, target: seq<Buffer>, source: seq<Buffer>, n: nat, p: nat)
    requires Copyable(|mem|, target, source) && Distinct(target) && p < n <= Total(target) && n <= Total(source)
    ensures CopyBytes(mem, target, source, n)[AddressAt(target, p)] == mem[AddressAt(source, p)]
    decreases n
  {
    if p < n - 1 {
      Touched(mem, target, source, n - 1, p);
    }
  }

  /** Address a is among the first n flat bytes. */
  ghost predicate Covers(bufs: seq<Buffer>, n: nat, a: nat) {
    exists p :: 0 <= p < n && AddressAt(bufs, p) == a
  }

  /** What a copy means: a prefix of the target is a prefix of the source, and no other byte has changed. */
  lemma {:induction false} CopyMeans(mem: seq<byte>, target: seq<Buffer>, source: seq<Buffer>, n: nat)
    requires Copyable(|mem|, target, source) && Distinct(target) && n <= Total(target) && n <= Total(source)
    ensures var after := CopyBytes(mem, target, source, n);
            && (forall p :: 0 <= p < n ==> after[AddressAt(target, p)] == mem[AddressAt(source, p)])
            && (forall a :: 0 <= a < |mem| && !Covers(target, n, a) ==> after[a] == mem[a])
  {
    var after := CopyBytes(mem, target, source, n);
    forall p | 0 <= p < n
      ensures after[AddressAt(target, p)] == mem[AddressAt(source, p)]
    {
      Touched(mem, target, source, n, p);
    }
    forall a | 0 <= a < |mem| && !Covers(target, n, a)
      ensures after[a] == mem[a]
    {
      Untouched(mem, target, source, n, a);
    }
  }

  /** Only the addresses of the bytes copied matter, not how they are cut into buffers. */
  lemma {:induction false} SameAddresses(mem: seq<byte>, t: seq<Buffer>, t': seq<Buffer>, s: seq<Buffer>,
                                         s': seq<Buffer>, n: nat)
    requires forall p :: 0 <= p < n ==> AddressAt(t, p) == AddressAt(t', p) && AddressAt(s, p) == AddressAt(s', p)
    ensures CopyBytes(mem, t, s, n) == CopyBytes(mem, t', s', n)
  {
    if n > 0 {
      SameAddresses(mem, t, t', s, s', n - 1);
    }
  }

  /** memcpy */
  ghost function Memcpy(mem: seq<byte>, to: nat, from: nat, n: nat): (r: seq<byte>)
    ensures |r| == |mem|
  {
    if n == 0 then mem else
      var r := Memcpy(mem, to, from, n - 1);
      if to + n - 1 < |mem| && from + n - 1 < |mem| then r[to + n - 1 := mem[from + n - 1]] else r
  }

  lemma {:induction false} MemcpyUntouched(mem: seq<byte>, to: nat, from: nat, n: nat, a: nat)
    requires a < |mem| && !(to <= a < to + n)
    ensures Memcpy(mem, to, from, n)[a] == mem[a]
  {
    if n > 0 {
      MemcpyUntouched(mem, to, from, n - 1, a);
    }
  }

  /** buffer_copy(mutable_buffer, const_buffer): memcpy of the shorter of the two, which do not overlap. */
  method CopyBuffer(mem: array<byte>, target: Buffer, source: Buffer) returns (n: nat)
    requires target.data + target.size <= mem.Length && source.data + source.size <= mem.Length
    requires target.data + target.size <= source.data || source.data + source.size <= target.data
             || target.size == 0 || source.size == 0
    modifies mem
    ensures n == Min(target.size, source.size)
    ensures mem[..] == Memcpy(old(mem[..]), target.data, source.data, n)
  {
    n := if target.size < source.size then target.size else source.size;
    ghost var before := mem[..];
    var i := 0;
    while i < n
      invariant i <= n && mem[..] == Memcpy(before, target.data, source.data, i)
    {
      MemcpyUntouched(before, target.data, source.data, i, source.data + i);
      assert mem[..][source.data + i] == before[source.data + i];
      mem[target.data + i] := mem[source.data + i];
      i := i + 1;
    }
  }

  // ----- cursors -----

  /** A cursor at byte off of buffer i stands at position p of the flat view. */
  ghost predicate AtCursor(bufs: seq<Buffer>, i: nat, off: nat, p: nat) {
    && i <= |bufs|
    && (if i < |bufs| then off <= bufs[i].size else off == 0)
    && p == Total(bufs[..i]) + off
  }

  lemma CursorAddress(bufs: seq<Buffer>, i: nat, off: nat, p: nat, j: nat)
    requires i < |bufs| && AtCursor(bufs, i, off, p) && off + j < bufs[i].size
    ensures p + j < Total(bufs) && AddressAt(bufs, p + j) == bufs[i].data + off + j
  {
    FlatAt(bufs, i, off + j);
  }

  /** The cursor moves on by n bytes, to the next buffer if that is the end of this one. */
  lemma CursorAdvance(bufs: seq<Buffer>, i: nat, off: nat, p: nat, n: nat, i': nat, off': nat)
    requires i < |bufs| && AtCursor(bufs, i, off, p) && n <= Offset(bufs[i], off).size
    requires if n == Offset(bufs[i], off).size then i' == i + 1 && off' == 0 else i' == i && off' == off + n
    ensures AtCursor(bufs, i', off', p + n)
  {
    TotalPrefix(bufs, i);
  }

  lemma CursorEnd(bufs: seq<Buffer>, i: nat, off: nat, p: nat)
    requires AtCursor(bufs, i, off, p)
    ensures p <= Total(bufs) && (i == |bufs| ==> p == Total(bufs))
  {
    TotalWhole(bufs);
    if i < |bufs| {
      TotalPrefix(bufs, i);
    }
  }

  // ----- one piece of a copy between sequences -----

  /** The rest of the current buffer is in memory. */
  lemma PieceInMemory(size: nat, bufs: seq<Buffer>, i: nat, off: nat, p: nat, b: Buffer)
    requires InMemory(size, bufs) && i < |bufs| && AtCursor(bufs, i, off, p) && b == Offset(bufs[i], off) && b.size > 0
    ensures b.data + b.size <= size
  {
    CursorAddress(bufs, i, off, p, b.size - 1);
  }

  lemma NoOverlap(size: nat, target: seq<Buffer>, ti: nat, toff: nat, tbuf: Buffer, j: nat,
                  source: seq<Buffer>, si: nat, soff: nat, sbuf: Buffer, k: nat, p: nat)
    requires Copyable(size, target, source)
    requires ti < |target| && AtCursor(target, ti, toff, p) && tbuf == Offset(target[ti], toff) && j < tbuf.size
    requires si < |source| && AtCursor(source, si, soff, p) && sbuf == Offset(source[si], soff) && k < sbuf.size
    ensures tbuf.data + j != sbuf.data + k
  {
    CursorAddress(target, ti, toff, p, j);
    CursorAddress(source, si, soff, p, k);
  }

  /** The rests of the two current buffers lie apart. */
  lemma PieceDisjoint(size: nat, target: seq<Buffer>, ti: nat, toff: nat, tbuf: Buffer,
                      source: seq<Buffer>, si: nat, soff: nat, sbuf: Buffer, p: nat)
    requires Copyable(size, target, source)
    requires ti < |target| && AtCursor(target, ti, toff, p) && tbuf == Offset(target[ti], toff) && tbuf.size > 0
    requires si < |source| && AtCursor(source, si, soff, p) && sbuf == Offset(source[si], soff) && sbuf.size > 0
    ensures tbuf.data + tbuf.size <= sbuf.data || sbuf.data + sbuf.size <= tbuf.data
  {
    if tbuf.data <= sbuf.data {
      NoOverlap(size, target, ti, toff, tbuf, Min(sbuf.data - tbuf.data, tbuf.size - 1), source, si, soff, sbuf, 0, p);
    } else {
      NoOverlap(size, target, ti, toff, tbuf, 0, source, si, soff, sbuf, Min(tbuf.data - sbuf.data, sbuf.size - 1), p);
    }
  }

  /** Byte j of the next piece is at these addresses, and the source's byte is as it was. */
  ghost predicate Aligned(mem: seq<byte>, target: seq<Buffer>, source: seq<Buffer>, p: nat, to: nat, from: nat,
                          j: nat) {
    && AddressAt(target, p + j) == to + j < |mem| && AddressAt(source, p + j) == from + j < |mem|
    && CopyBytes(mem, target, source, p)[from + j] == mem[from + j]
  }

  lemma PieceAligned(mem: seq<byte>, target: seq<Buffer>, ti: nat, toff: nat, tbuf: Buffer,
                     source: seq<Buffer>, si: nat, soff: nat, sbuf: Buffer, p: nat, j: nat)
    requires Copyable(|mem|, target, source)
    requires ti < |target| && AtCursor(target, ti, toff, p) && tbuf == Offset(target[ti], toff) && j < tbuf.size
    requires si < |source| && AtCursor(source, si, soff, p) && sbuf == Offset(source[si], soff) && j < sbuf.size
    ensures Aligned(mem, target, source, p, tbuf.data, sbuf.data, j)
  {
    CursorAddress(target, ti, toff, p, j);
    CursorAddress(source, si, soff, p, j);
    Untouched(mem, target, source, p, AddressAt(source, p + j));
  }

  /** A memcpy of the next n bytes takes the whole copy n bytes further. */
  lemma {:induction false} PieceCopied(mem: seq<byte>, target: seq<Buffer>, source: seq<Buffer>, p: nat, to: nat,
                                       from: nat, n: nat)
    requires forall j :: 0 <= j < n ==> Aligned(mem, target, source, p, to, from, j)
    ensures Memcpy(CopyBytes(mem, target, source, p), to, from, n) == CopyBytes(mem, target, source, p + n)
    decreases n
  {
    if n > 0 {
      PieceCopied(mem, target, source, p, to, from, n - 1);
      assert Aligned(mem, target, source, p, to, from, n - 1);
    }
  }

  /** buffer_copy of the rests of the two current buffers, of at most max bytes when there is a limit. */
  method CopyPiece(mem: array<byte>, ghost before: seq<byte>,
                   ghost target: seq<Buffer>, ghost ti: nat, ghost toff: nat, tbuf: Buffer,
                   ghost source: seq<Buffer>, ghost si: nat, ghost soff: nat, sbuf: Buffer,
                   ghost p: nat, max: Option<nat>)
    returns (n: nat)
    requires |before| == mem.Length && Copyable(mem.Length, target, source)
             && mem[..] == CopyBytes(before, target, source, p)
    requires ti < |target| && AtCursor(target, ti, toff, p) && tbuf == Offset(target[ti], toff)
    requires si < |source| && AtCursor(source, si, soff, p) && sbuf == Offset(source[si], soff)
    modifies mem
    ensures n == Min(Min(tbuf.size, sbuf.size), if max.Some? then max.value else tbuf.size)
    ensures mem[..] == CopyBytes(before, target, source, p + n)
  {
    if tbuf.size == 0 || sbuf.size == 0 {
      return 0;
    }
    PieceInMemory(mem.Length, target, ti, toff, p, tbuf);
    PieceInMemory(mem.Length, source, si, soff, p, sbuf);
    PieceDisjoint(mem.Length, target, ti, toff, tbuf, source, si, soff, sbuf, p);
    n := CopyBuffer(mem, if max.Some? then Limit(tbuf, max.value) else tbuf, sbuf);
    forall j | 0 <= j < n
      ensures Aligned(before, target, source, p, tbuf.data, sbuf.data, j)
    {
      PieceAligned(before, target, ti, toff, tbuf, source, si, soff, sbuf, p, j);
    }
    PieceCopied(before, target, source, p, tbuf.data, sbuf.data, n);
  }

  // ----- buffer_copy between sequences -----

  /** buffer_copy(MutableBufferSequence, ConstBufferSequence). */
  method CopySequence(mem: array<byte>, target: seq<Buffer>, source: seq<Buffer>) returns (copied: nat)
    requires Copyable(mem.Length, target, source)
    modifies mem
    ensures copied == Min(Total(target), Total(source))
    ensures mem[..] == CopyBytes(old(mem[..]), target, source, copied)
  {
    copied := 0;
    var ti: nat, toff: nat, si: nat, soff: nat := 0, 0, 0, 0;
    ghost var before := mem[..];
    while ti != |target| && si != |source|
      invariant AtCursor(target, ti, toff, copied) && AtCursor(source, si, soff, copied)
      invariant mem[..] == CopyBytes(before, target, source, copied)
      decreases |target| - ti + |source| - si
    {
      ghost var ti0, toff0, si0, soff0 := ti, toff, si, soff;
      var tbuf, sbuf := Offset(target[ti], toff), Offset(source[si], soff);
      var n := CopyPiece(mem, before, target, ti, toff, tbuf, source, si, soff, sbuf, copied, None);
      if n == tbuf.size {
        ti, toff := ti + 1, 0;
      } else {
        toff := toff + n;
      }
      if n == sbuf.size {
        si, soff := si + 1, 0;
      } else {
        soff := soff + n;
      }
      CursorAdvance(target, ti0, toff0, copied, n, ti, toff);
      CursorAdvance(source, si0, soff0, copied, n, si, soff);
      copied := copied + n;
    }
    CursorEnd(target, ti, toff, copied);
    CursorEnd(source, si, soff, copied);
  }

  /** buffer_copy(MutableBufferSequence, ConstBufferSequence, max_bytes_to_copy). */
  method CopySequenceLimited(mem: array<byte>, target: seq<Buffer>, source: seq<Buffer>, max: nat) returns (copied: nat)
    requires Copyable(mem.Length, target, source)
    modifies mem
    ensures copied == Min(Min(Total(target), Total(source)), max)
    ensures mem[..] == CopyBytes(old(mem[..]), target, source, copied)
  {
    copied := 0;
    var ti: nat, toff: nat, si: nat, soff: nat := 0, 0, 0, 0;
    ghost var before := mem[..];
    while copied != max && ti != |target| && si != |source|
      invariant copied <= max
      invariant AtCursor(target, ti, toff, copied) && AtCursor(source, si, soff, copied)
      invariant mem[..] == CopyBytes(before, target, source, copied)
      decreases |target| - ti + |source| - si, max - copied
    {
      ghost var ti0, toff0, si0, soff0 := ti, toff, si, soff;
      var tbuf, sbuf := Offset(target[ti], toff), Offset(source[si], soff);
      var n := CopyPiece(mem, before, target, ti, toff, tbuf, source, si, soff, sbuf, copied, Some(max - copied));
      if n == tbuf.size {
        ti, toff := ti + 1, 0;
      } else {
        toff := toff + n;
      }
      if n == sbuf.size {
        si, soff := si + 1, 0;
      } else {
        soff := soff + n;
      }
      CursorAdvance(target, ti0, toff0, copied, n, ti, toff);
      CursorAdvance(source, si0, soff0, copied, n, si, soff);
      copied := copied + n;
    }
    CursorEnd(target, ti, toff, copied);
    CursorEnd(source, si, soff, copied);
  }

  lemma BufferDone(bufs: seq<Buffer>, i: nat, p: nat, n: nat)
    requires i < |bufs| && AtCursor(bufs, i, 0, p) && n <= bufs[i].size
    ensures p + n <= Total(bufs) && (n == bufs[i].size ==> AtCursor(bufs, i + 1, 0, p + n))
  {
    TotalPrefix(bufs, i);
  }

  lemma SingleCursor(b: Buffer, off: nat)
    requires off <= b.size
    ensures AtCursor([b], 0, off, off) && Total([b]) == b.size
  {
    assert [b][..0] == [] && [b][1..] == [];
  }

  /**
   * One buffer is walked down to `rest` while the others are gone through from the first to the i-th, p bytes in all.
   */
  ghost predicate Walking(one: Buffer, rest: Buffer, many: seq<Buffer>, i: nat, p: nat) {
    p <= one.size && p <= Total(many) && rest == Offset(one, p) && (rest.size != 0 ==> AtCursor(many, i, 0, p))
  }

  lemma WalkStart(one: Buffer, many: seq<Buffer>)
    ensures Walking(one, one, many, 0, 0)
  {
  }

  lemma WalkStep(one: Buffer, rest: Buffer, many: seq<Buffer>, i: nat, p: nat, n: nat)
    requires Walking(one, rest, many, i, p) && rest.size != 0 && i < |many| && n == Min(rest.size, many[i].size)
    ensures Walking(one, Offset(rest, n), many, i + 1, p + n)
  {
    BufferDone(many, i, p, n);
    OffsetMeans(one, p, n);
  }

  lemma WalkEnd(one: Buffer, rest: Buffer, many: seq<Buffer>, i: nat, p: nat)
    requires Walking(one, rest, many, i, p) && (rest.size == 0 || i == |many|)
    ensures p == Min(one.size, Total(many))
  {
    TotalWhole(many);
  }

  // ----- the specialised shapes: the same bytes as the general form on one-element sequences -----

  /** buffer_copy(mutable_buffer, ConstBufferSequence): one target, walked down as the sources are used up. */
  method CopyToBuffer(mem: array<byte>, target: Buffer, source: seq<Buffer>) returns (copied: nat)
    requires Copyable(mem.Length, [target], source)
    modifies mem
    ensures copied == Min(target.size, Total(source))
    ensures mem[..] == CopyBytes(old(mem[..]), [target], source, copied)
  {
    copied := 0;
    var tbuf: Buffer, si: nat := target, 0;
    ghost var before, ts := mem[..], [target];
    WalkStart(target, source);
    while tbuf.size != 0 && si != |source|
      invariant Walking(target, tbuf, source, si, copied)
      invariant mem[..] == CopyBytes(before, ts, source, copied)
      decreases |source| - si
    {
      SingleCursor(target, copied);
      var sbuf := source[si];
      assert sbuf == Offset(source[si], 0) && ts[0] == target;
      var n := CopyPiece(mem, before, ts, 0, copied, tbuf, source, si, 0, sbuf, copied, None);
      WalkStep(target, tbuf, source, si, copied, n);
      copied := copied + n;
      tbuf := Offset(tbuf, n);
      si := si + 1;
    }
    WalkEnd(target, tbuf, source, si, copied);
  }

  /** buffer_copy(MutableBufferSequence, const_buffer): one source, walked down as the targets fill. */
  method CopyFromBuffer(mem: array<byte>, target: seq<Buffer>, source: Buffer) returns (copied: nat)
    requires Copyable(mem.Length, target, [source])
    modifies mem
    ensures copied == Min(Total(target), source.size)
    ensures mem[..] == CopyBytes(old(mem[..]), target, [source], copied)
  {
    copied := 0;
    var sbuf: Buffer, ti: nat := source, 0;
    ghost var before, ss := mem[..], [source];
    WalkStart(source, target);
    while sbuf.size != 0 && ti != |target|
      invariant Walking(source, sbuf, target, ti, copied)
      invariant mem[..] == CopyBytes(before, target, ss, copied)
      decreases |target| - ti
    {
      SingleCursor(source, copied);
      var tbuf := target[ti];
      assert tbuf == Offset(target[ti], 0) && ss[0] == source;
      var n := CopyPiece(mem, before, target, ti, 0, tbuf, ss, 0, copied, sbuf, copied, None);
      WalkStep(source, sbuf, target, ti, copied, n);
      copied := copied + n;
      sbuf := Offset(sbuf, n);
      ti := ti + 1;
    }
    WalkEnd(source, sbuf, target, ti, copied);
  }

  /** buffer_copy(MutableBufferSequence, const_buffer, max_bytes_to_copy), through buffer(b, max). */
  method CopyFromBufferLimited(mem: array<byte>, target: seq<Buffer>, source: Buffer, max: nat) returns (copied: nat)
    requires Copyable(mem.Length, target, [source])
    modifies mem
    ensures copied == Min(Min(Total(target), source.size), max)
    ensures mem[..] == CopyBytes(old(mem[..]), target, [source], copied)
  {
    var limited := Limit(source, max);
    LimitMeans(source, max);
    copied := CopyFromBuffer(mem, target, limited);
    SameAddresses(old(mem[..]), target, target, [limited], [source], copied);
  }

  /** buffer_copy(mutable_buffer, ConstBufferSequence, max_bytes_to_copy), through buffer(b, max). */
  method CopyToBufferLimited(mem: array<byte>, target: Buffer, source: seq<Buffer>, max: nat) returns (copied: nat)
    requires Copyable(mem.Length, [target], source)
    modifies mem
    ensures copied == Min(Min(target.size, Total(source)), max)
    ensures mem[..] == CopyBytes(old(mem[..]), [target], source, copied)
  {
    var limited := Limit(target, max);
    LimitMeans(target, max);
    copied := CopyToBuffer(mem, limited, source);
    SameAddresses(old(mem[..]), [limited], [target], source, source, copied);
  }

  /** buffer_size of a sequence. */
  method BufferSize(bufs: seq<Buffer>) returns (total: nat)
    ensures total == Total(bufs)
  {
    total := 0;
    var i := 0;
    while i != |bufs|
      invariant i <= |bufs| && total == Total(bufs[..i])
      decreases |bufs| - i
    {
      TotalPrefix(bufs, i);
      total, i := total + bufs[i].size, i + 1;
    }
    TotalWhole(bufs);
  }
}
