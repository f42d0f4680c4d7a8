/** asio/buffers_iterator.hpp: a random access iterator over the bytes of a buffer sequence. */
module BuffersIterators {
  import opened Bytes
  import opened Buffers

  /** Buffer and offset of a flat position: the first buffer that reaches past it, or the end. */
  ghost function Locate(bufs: seq<Buffer>, p: nat): (nat, nat) {
    if bufs == [] then (0, 0)
    else if p < bufs[0].size then (0, p)
    else var (i, off) := Locate(bufs[1..], p - bufs[0].size); (i + 1, off)
  }

  /** A cursor is proper when it stands inside a buffer, or exactly at the end. */
  ghost predicate Proper(bufs: seq<Buffer>, i: nat, off: nat) {
    i <= |bufs| && (if i < |bufs| then off < bufs[i].size else off == 0)
  }

  /** There is one proper cursor for each position, so equal positions mean the same byte. */
  lemma {:induction false} ProperIsLocated(bufs: seq<Buffer>, i: nat, off: nat)
    requires Proper(bufs, i, off)
    ensures Locate(bufs, Total(bufs[..i]) + off) == (i, off)
  {
    if bufs != [] {
      if i > 0 {
        assert bufs[..i][1..] == bufs[1..][..i - 1];
        ProperIsLocated(bufs[1..], i - 1, off);
      }
    }
  }

  /** Positions order proper cursors as (buffer, offset) pairs are ordered. */
  lemma PositionOrder(bufs: seq<Buffer>, i: nat, off: nat, j: nat, off': nat)
    requires Proper(bufs, i, off) && Proper(bufs, j, off')
    ensures Total(bufs[..i]) + off < Total(bufs[..j]) + off' <==> i < j || (i == j && off < off')
    ensures Total(bufs[..i]) + off == Total(bufs[..j]) + off' <==> i == j && off == off'
  {
    if i < j {
      TotalPrefix(bufs, i);
      TotalMonotone(bufs, i + 1, j);
    } else if j < i {
      TotalPrefix(bufs, j);
      TotalMonotone(bufs, j + 1, i);
    }
  }

  class BuffersIterator {
    const buffers: seq<Buffer>   // begin_ is index 0, end_ is |buffers|
    var current: nat
    var currentBuffer: Buffer
    var currentBufferPosition: nat
    var position: nat

    ghost predicate Valid()
      reads this
    {
      && Proper(buffers, current, currentBufferPosition)
      && (current < |buffers| ==> currentBuffer == buffers[current])
      && position == Total(buffers[..current]) + currentBufferPosition
    }

    /** begin(): the first buffer that is not empty. */
    constructor Begin(bufs: seq<Buffer>)
      ensures Valid() && buffers == bufs && position == 0
    {
      buffers := bufs;
      current, currentBuffer, currentBufferPosition, position := 0, Buffer(0, 0), 0, 0;
      new;
      while current != |buffers|
        invariant current <= |buffers| && Total(buffers[..current]) == 0
        invariant position == 0 && currentBufferPosition == 0 && buffers == bufs
        decreases |buffers| - current
      {
        currentBuffer := buffers[current];
        if currentBuffer.size > 0 {
          break;
        }
        TotalPrefix(buffers, current);
        current := current + 1;
      }
    }

    /** end(): position_ is the sum of all sizes. */
    constructor End(bufs: seq<Buffer>)
      ensures Valid() && buffers == bufs && current == |bufs| && position == Total(bufs)
    {
      buffers := bufs;
      current, currentBuffer, currentBufferPosition, position := 0, Buffer(0, 0), 0, 0;
      new;
      while current != |buffers|
        invariant current <= |buffers| && position == Total(buffers[..current])
        invariant currentBufferPosition == 0 && buffers == bufs
        decreases |buffers| - current
      {
        TotalPrefix(buffers, current);
        position := position + buffers[current].size;
        current := current + 1;
      }
      TotalWhole(buffers);
    }

    /** The copy constructor, as operator++(int), operator+ and operator[] use it. */
    constructor Copy(other: BuffersIterator)
      requires other.Valid()
      ensures Valid() && buffers == other.buffers && position == other.position
      ensures current == other.current && currentBufferPosition == other.currentBufferPosition
    {
      buffers := other.buffers;
      current, currentBuffer := other.current, other.currentBuffer;
      currentBufferPosition, position := other.currentBufferPosition, other.position;
    }

    /** Where a valid iterator stands is a function of its position alone. */
    lemma PositionDecides()
      requires Valid()
      ensures (current, currentBufferPosition) == Locate(buffers, position)
      ensures position <= Total(buffers)
      ensures current == |buffers| <==> position == Total(buffers)
    {
      ProperIsLocated(buffers, current, currentBufferPosition);
      TotalWhole(buffers);
      if current < |buffers| {
        TotalPrefix(buffers, current);
      }
    }

    /** dereference(): the address of the flat byte at the position. */
    function Dereference(): (address: nat)
      requires Valid() && current < |buffers|
      reads this
      ensures position < Total(buffers) && address == AddressAt(buffers, position)
    {
      FlatAt(buffers, current, currentBufferPosition);
      currentBuffer.data + currentBufferPosition
    }

    /** equal(): compares positions only. */
    predicate Equal(other: BuffersIterator)
      reads this, other
    {
      position == other.position
    }

    /** distance_to() */
    function DistanceTo(other: BuffersIterator): int
      reads this, other
    {
      other.position - position
    }

    /** operator< */
    predicate Less(other: BuffersIterator)
      reads this, other
    {
      DistanceTo(other) > 0
    }

    /** operator<= */
    predicate LessOrEqual(other: BuffersIterator)
      reads this, other
    {
      !other.Less(this)
    }

    /** operator>= */
    predicate GreaterOrEqual(other: BuffersIterator)
      reads this, other
    {
      !Less(other)
    }

    /**
     * The comparisons of two iterators of the same buffers, which look at positions only, compare their places: buffer
     * first, then offset within the buffer.
     */
    lemma ComparesPlaces(other: BuffersIterator)
      requires Valid() && other.Valid() && buffers == other.buffers
      ensures Equal(other) <==> current == other.current && currentBufferPosition == other.currentBufferPosition
      ensures Less(other) <==>
              current < other.current
                  || (current == other.current && currentBufferPosition < other.currentBufferPosition)
      ensures LessOrEqual(other) <==> Less(other) || Equal(other)
      ensures GreaterOrEqual(other) <==> other.Less(this) || Equal(other)
    {
      PositionDecides();
      other.PositionDecides();
      PositionOrder(buffers, current, currentBufferPosition, other.current, other.currentBufferPosition);
    }

    /** `ok == false` is a failed ASIO_ASSERT. */
    method Increment() returns (ok: bool)
      requires Valid()
      modifies this
      ensures ok <==> old(position) < Total(buffers)
      ensures ok ==> Valid() && position == old(position) + 1
    {
      PositionDecides();
      if current == |buffers| {
        return false;
      }
      TotalPrefix(buffers, current);
      position := position + 1;
      currentBufferPosition := currentBufferPosition + 1;
      if currentBufferPosition != currentBuffer.size {
        return true;
      }
      current := current + 1;
      currentBufferPosition := 0;
      while current != |buffers|
        invariant current <= |buffers| && position == old(position) + 1 == Total(buffers[..current])
        invariant currentBufferPosition == 0
        decreases |buffers| - current
      {
        currentBuffer := buffers[current];
        if currentBuffer.size > 0 {
          return true;
        }
        TotalPrefix(buffers, current);
        current := current + 1;
      }
      return true;
    }

    /** The nearest buffer before index `from` that is not empty. */
    method FindPrevious(from: nat) returns (iter: nat)
      requires from <= |buffers|
      ensures Total(buffers[..from]) == 0 ==> iter == |buffers|
      ensures Total(buffers[..from]) > 0 ==> iter < from && buffers[iter].size > 0
      ensures iter < |buffers| ==> Total(buffers[..iter]) + buffers[iter].size == Total(buffers[..from])
    {
      iter := from;
      while iter != 0
        invariant iter <= from && Total(buffers[..iter]) == Total(buffers[..from])
        decreases iter
      {
        iter := iter - 1;
        TotalPrefix(buffers, iter);
        if buffers[iter].size > 0 {
          return;
        }
      }
      iter := |buffers|;
    }

    method Decrement() returns (ok: bool)
      requires Valid()
      modifies this
      ensures ok <==> old(position) > 0
      ensures ok ==> Valid() && position == old(position) - 1
    {
      if position == 0 {
        return false;
      }
      position := position - 1;
      if currentBufferPosition != 0 {
        currentBufferPosition := currentBufferPosition - 1;
        return true;
      }
      var iter := FindPrevious(current);
      if iter < |buffers| {
        current := iter;
        currentBuffer := buffers[iter];
        currentBufferPosition := buffers[iter].size - 1;
      }
      return true;
    }

    /** operator+= : any distance, forwards or backwards, over any number of empty buffers. */
    method Advance(n: int) returns (ok: bool)
      requires Valid()
      modifies this
      ensures ok <==> 0 <= old(position) + n <= Total(buffers)
      ensures ok ==> Valid() && position == old(position) + n
    {
      PositionDecides();
      if n > 0 {
        if current == |buffers| {
          return false;
        }
        ok := AdvanceForward(n);
      } else if n < 0 {
        if position < -n {
          return false;
        }
        AdvanceBackward(-n);
        ok := true;
      } else {
        ok := true;
      }
    }

    method AdvanceForward(n: nat) returns (ok: bool)
      requires Valid() && n > 0 && current < |buffers|
      modifies this
      ensures ok <==> old(position) + n <= Total(buffers)
      ensures ok ==> Valid() && position == old(position) + n
    {
      var left: nat := n;
      while true
        invariant current < |buffers| && currentBuffer == buffers[current]
        invariant currentBufferPosition <= currentBuffer.size
        invariant position == Total(buffers[..current]) + currentBufferPosition
        invariant position + left == old(position) + n
        decreases |buffers| - current
      {
        TotalPrefix(buffers, current);
        var balance := currentBuffer.size - currentBufferPosition;
        if balance > left {
          position := position + left;
          currentBufferPosition := currentBufferPosition + left;
          return true;
        }
        left := left - balance;
        position := position + balance;
        current := current + 1;
        if current == |buffers| {
          TotalWhole(buffers);
          ok := left == 0;
          currentBuffer := Buffer(0, 0);
          currentBufferPosition := 0;
          return;
        }
        currentBuffer := buffers[current];
        currentBufferPosition := 0;
      }
    }

    method AdvanceBackward(n: nat)
      requires Valid() && 0 < n <= position
      modifies this
      ensures Valid() && position == old(position) - n
    {
      var left: nat := n;
      while true
        invariant 0 < left <= position
        invariant current <= |buffers| && (current == |buffers| ==> currentBufferPosition == 0)
        invariant current < |buffers| ==>
                  currentBuffer == buffers[current] && currentBufferPosition <= currentBuffer.size
        invariant position == Total(buffers[..current]) + currentBufferPosition
        invariant position - left == old(position) - n
        decreases current
      {
        if currentBufferPosition >= left {
          position := position - left;
          currentBufferPosition := currentBufferPosition - left;
          return;
        }
        left := left - currentBufferPosition;
        position := position - currentBufferPosition;
        // At begin_ the code would stop on its assertion; bytes are still left to go back over, so it is not there.
        assert left > 0 && position == Total(buffers[..current]) && current > 0;
        var iter := FindPrevious(current);
        current := iter;
        currentBuffer := buffers[iter];
        currentBufferPosition := buffers[iter].size;
      }
    }
  }

  /** advance(n) and |n| single steps end in the same place, or both run out of bounds. */
  method AdvanceBySteps(iter: BuffersIterator, n: int) returns (ok: bool, jumped: BuffersIterator)
    requires iter.Valid()
    modifies iter
    ensures ok <==> 0 <= old(iter.position) + n <= Total(iter.buffers)
    ensures ok ==> iter.Valid() && jumped.Valid() && jumped.Equal(iter)
    ensures ok ==> jumped.current == iter.current && jumped.currentBufferPosition == iter.currentBufferPosition
  {
    jumped := new BuffersIterator.Copy(iter);
    ok := jumped.Advance(n);
    iter.PositionDecides();
    var k := 0;
    while k != n
      invariant (if n >= 0 then 0 <= k <= n else n <= k <= 0)
      invariant iter.Valid() && iter.position == old(iter.position) + k && fresh(jumped)
      invariant ok ==> jumped.Valid() && jumped.position == old(iter.position) + n
      decreases if n >= 0 then n - k else k - n
    {
      iter.PositionDecides();
      if n > 0 {
        var stepped := iter.Increment();
        if !stepped {
          return false, jumped;
        }
        k := k + 1;
      } else {
        var stepped := iter.Decrement();
        if !stepped {
          return false, jumped;
        }
        k := k - 1;
      }
    }
    iter.PositionDecides();
    if ok {
      jumped.PositionDecides();
    }
  }

  /**
   * Distances add up: two jumps land where one jump of the sum lands, and fail exactly when the sum or the first of
   * them leaves the range. (A jump that fails stops the program, so the second is made only after the first.)
   */
  method AdvanceTwice(iter: BuffersIterator, m: int, n: int) returns (ok: bool, jumped: BuffersIterator, jumpOk: bool)
    requires iter.Valid()
    modifies iter
    ensures jumpOk <==> 0 <= old(iter.position) + m + n <= Total(iter.buffers)
    ensures ok <==> jumpOk && 0 <= old(iter.position) + m <= Total(iter.buffers)
    ensures ok ==> iter.Valid() && jumped.Valid() && jumped.Equal(iter)
    ensures ok ==> jumped.current == iter.current && jumped.currentBufferPosition == iter.currentBufferPosition
  {
    jumped := new BuffersIterator.Copy(iter);
    jumpOk := jumped.Advance(m + n);
    ok := iter.Advance(m);
    if ok {
      ok := iter.Advance(n);
    }
    if ok {
      iter.PositionDecides();
      jumped.PositionDecides();
    }
  }

  /** distance_to is the distance to advance by: from any iterator of the same buffers to any other. */
  method AdvanceTo(iter: BuffersIterator, other: BuffersIterator) returns (ok: bool)
    requires iter.Valid() && other.Valid() && iter != other && iter.buffers == other.buffers
    modifies iter
    ensures ok && iter.Valid() && iter.Equal(other)
    ensures iter.current == other.current && iter.currentBufferPosition == other.currentBufferPosition
  {
    other.PositionDecides();
    ok := iter.Advance(iter.DistanceTo(other));
    iter.PositionDecides();
  }

  /** operator[] */
  method At(iter: BuffersIterator, difference: int) returns (address: Option<nat>)
    requires iter.Valid()
    ensures var p := iter.position + difference;
            address == if 0 <= p < Total(iter.buffers) then Some(AddressAt(iter.buffers, p)) else None
  {
    var tmp := new BuffersIterator.Copy(iter);
    var ok := tmp.Advance(difference);
    if !ok {
      return None;
    }
    tmp.PositionDecides();
    if tmp.current == |tmp.buffers| {
      return None;
    }
    address := Some(tmp.Dereference());
  }
}
