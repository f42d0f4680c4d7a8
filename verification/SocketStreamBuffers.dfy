/**
 * The put area of asio::basic_socket_streambuf: buffered or unbuffered output over a socket that accepts any part of
 * a send.
 */
module SocketStreamBuffers {
  import opened Bytes

  const BUFFER_SIZE: nat := 512

  /** How one async_send ends. The timer is looked at before each send. */
  datatype Answer = Accepted(n: nat) | SendFailed | TimerExpired

  datatype Error = NoError | SendError | Aborted

  /** When nothing more is known of the socket, the call can only end with the timer. */
  function AnswerAt(answers: seq<Answer>, i: nat): Answer {
    if i < |answers| then answers[i] else TimerExpired
  }

  /** Sends that make progress and do not fail. */
  predicate NeverFails(answers: seq<Answer>) {
    forall i :: 0 <= i < |answers| ==> answers[i].Accepted? && answers[i].n > 0
  }

  /**
   * How many of the pending bytes the socket takes: what each send accepts, up to the first answer that is a failure.
   */
  function Taken(answers: seq<Answer>, pending: nat): (taken: nat)
    ensures taken <= pending
  {
    if pending == 0 || answers == [] || !answers[0].Accepted? then 0
    else var n := Min(answers[0].n, pending); n + Taken(answers[1..], pending - n)
  }

  /** The same in the middle of a flush: before answer i, with `taken` bytes taken and `left` to go. */
  function TakenFrom(answers: seq<Answer>, i: nat, taken: nat, left: nat): nat
    requires i <= |answers|
  {
    taken + Taken(answers[i..], left)
  }

  lemma TakenNext(answers: seq<Answer>, i: nat, taken: nat, left: nat)
    requires i <= |answers| && left > 0
    ensures match AnswerAt(answers, i)
            case Accepted(n) =>
              && i < |answers|
              && TakenFrom(answers, i, taken, left)
              == TakenFrom(answers, i + 1, taken + Min(n, left), left - Min(n, left))
            case _ => TakenFrom(answers, i, taken, left) == taken
  {
    if i < |answers| {
      assert answers[i..][1..] == answers[i + 1..];
    }
  }

  lemma {:induction false} ProgressTakesAll(answers: seq<Answer>, pending: nat)
    requires NeverFails(answers) && |answers| >= pending
    ensures Taken(answers, pending) == pending
    decreases |answers|
  {
    if pending > 0 {
      var rest := answers[1..];
      assert forall i :: 0 <= i < |rest| ==> rest[i] == answers[i + 1];
      ProgressTakesAll(rest, pending - Min(answers[0].n, pending));
    }
  }

  /** The first answer that is not an accepted send, and the error it leaves behind. */
  ghost predicate EndsWith(answers: seq<Answer>, ec: Error) {
    exists i :: 0 <= i <= |answers|
      && (forall k :: 0 <= k < i ==> answers[k].Accepted?)
      && !AnswerAt(answers, i).Accepted?
      && ec == if AnswerAt(answers, i) == SendFailed then SendError else Aborted
  }

  lemma EndsAt(answers: seq<Answer>, i: nat, ec: Error)
    requires i <= |answers| && !AnswerAt(answers, i).Accepted? && forall k :: 0 <= k < i ==> answers[k].Accepted?
    requires ec == if AnswerAt(answers, i) == SendFailed then SendError else Aborted
    ensures EndsWith(answers, ec)
  {
  }

  class SocketStreamBuf {
    var putBuffer: array<byte>
    var pptr: nat              // pbase is the start of putBuffer
    var unbuffered: bool
    var ec: Error
    ghost var sent: seq<byte>      // what the socket has accepted
    ghost var written: seq<byte>   // the characters the stream buffer has accepted
    ghost var intact: bool         // no send has failed in the middle of a flush, no character was sent as zero bytes

    ghost predicate Valid()
      reads this, putBuffer
    {
      && putBuffer.Length == BUFFER_SIZE && pptr <= BUFFER_SIZE
      && (unbuffered ==> pptr == 0)
      && (intact ==> sent + putBuffer[..pptr] == written)
    }

    ghost function Pending(): seq<byte>
      requires Valid()
      reads this, putBuffer
    {
      putBuffer[..pptr]
    }

    constructor ()
      ensures Valid() && fresh(putBuffer) && putBuffer.Length == 512 && intact && !unbuffered && ec == NoError
      ensures sent == [] && written == [] && Pending() == []
    {
      putBuffer := new byte[BUFFER_SIZE];
      pptr, unbuffered, ec := 0, false, NoError;
      sent, written, intact := [], [], true;
    }

    /**
     * The loop of `overflow`: the socket is offered what is left until it has taken everything, or a send fails.
     * What it took stays in the put area either way.
     */
    method SendAll(answers: seq<Answer>) returns (ok: bool)
      requires Valid()
      modifies this`ec, this`sent, this`intact
      ensures ok <==> Taken(answers, pptr) == pptr
      ensures Valid() && sent == old(sent) + Pending()[..Taken(answers, pptr)]
      ensures intact <==> old(intact) && Taken(answers, pptr) == 0
      ensures if ok then ec == (if pptr == 0 then old(ec) else NoError) else EndsWith(answers, ec)
    {
      var buffer := putBuffer[..pptr];
      ghost var taken: nat := 0;
      var i := 0;
      while |buffer| > 0
        invariant Valid() && sent == old(sent) && intact == old(intact)
        invariant i <= |answers| && taken <= pptr && buffer == putBuffer[..pptr][taken..]
        invariant Taken(answers, pptr) == TakenFrom(answers, i, taken, |buffer|)
        invariant forall k :: 0 <= k < i ==> answers[k].Accepted?
        invariant ec == if i == 0 then old(ec) else NoError
        invariant pptr == 0 <==> i == 0 && |buffer| == 0
        decreases |answers| - i
      {
        TakenNext(answers, i, taken, |buffer|);
        match AnswerAt(answers, i) {
          case TimerExpired =>
            ec := Aborted;
            EndsAt(answers, i, ec);
            Account(taken);
            return false;
          case SendFailed =>
            ec := SendError;
            EndsAt(answers, i, ec);
            Account(taken);
            return false;
          case Accepted(n) =>
            ec := NoError;
            var k := Min(n, |buffer|);
            taken := taken + k;
            buffer := buffer[k..];
        }
        i := i + 1;
      }
      Account(taken);
      return true;
    }

    /** The end of a flush: so many pending bytes are on the wire, and still in the put area. */
    ghost method Account(taken: nat)
      requires Valid() && taken <= pptr
      modifies this`sent, this`intact
      ensures Valid() && sent == old(sent) + Pending()[..taken]
      ensures intact <==> old(intact) && taken == 0
    {
      sent := sent + putBuffer[..pptr][..taken];
      intact := intact && taken == 0;
      if taken == 0 {
        assert sent == old(sent);
      }
    }

    /**
     * overflow(c) of a buffered stream; None is eof, so this is also sync(). Every byte counts once, sent or pending,
     * afterwards if and only if the socket took all that was pending, or none of it.
     */
    method OverflowBuffered(c: Option<byte>, answers: seq<Answer>) returns (ok: bool)
      requires Valid() && !unbuffered
      modifies this, putBuffer
      ensures Valid() && putBuffer == old(putBuffer) && !unbuffered
      ensures ok <==> Taken(answers, |old(Pending())|) == |old(Pending())|
      ensures sent == old(sent) + old(Pending())[..Taken(answers, |old(Pending())|)]
      ensures ok ==> Pending() == (if c.Some? then [c.value] else [])
      ensures ok ==> written == old(written) + (if c.Some? then [c.value] else [])
      ensures !ok ==> Pending() == old(Pending()) && written == old(written)
      ensures if ok then ec == (if old(Pending()) == [] then old(ec) else NoError) else EndsWith(answers, ec)
      ensures intact <==> old(intact) && (ok || Taken(answers, |old(Pending())|) == 0)
      ensures old(intact) ==>
              (sent + Pending() == written <==> Taken(answers, |old(Pending())|) in {0, |old(Pending())|})
    {
      ghost var conserved, pending := intact, Pending();
      ok := SendAll(answers);
      if !ok {
        return;
      }
      assert pending[..|pending|] == pending;
      pptr := 0;
      intact := conserved;
      if c.Some? {
        putBuffer[0] := c.value;
        pptr := 1;
        written := written + [c.value];
      }
    }

    /** overflow(c) of an unbuffered stream: one character, one send, whose byte count is not looked at. */
    method OverflowUnbuffered(c: Option<byte>, answer: Answer) returns (ok: bool)
      requires Valid() && unbuffered
      modifies this`ec, this`sent, this`written, this`intact
      ensures Valid()
      ensures c.None? ==> ok && sent == old(sent) && written == old(written) && intact == old(intact)
      ensures c.Some? ==> (ok <==> answer.Accepted?)
      ensures c.Some? && ok ==> written == old(written) + [c.value] && (intact <==> old(intact) && answer.n > 0)
      ensures c.Some? && ok ==> sent == old(sent) + (if answer.n > 0 then [c.value] else [])
      ensures c.Some? && ok && old(intact) ==> (sent + Pending() == written <==> answer.n > 0)
      ensures !ok ==> sent == old(sent) && written == old(written) && intact == old(intact)
      ensures !ok ==> ec == if answer == SendFailed then SendError else Aborted
      ensures ok ==> ec == if c.Some? then NoError else old(ec)
    {
      if c.None? {
        return true;
      }
      match answer {
        case TimerExpired =>
          ec := Aborted;
          return false;
        case SendFailed =>
          ec := SendError;
          return false;
        case Accepted(n) =>
          ec := NoError;
          sent := sent + (if n > 0 then [c.value] else []);
          written := written + [c.value];
          intact := intact && n > 0;
          return true;
      }
    }

    /** sputc: into the put area while there is room, through overflow when there is none. */
    method SPutC(c: byte, answers: seq<Answer>) returns (ok: bool)
      requires Valid()
      modifies this, putBuffer
      ensures Valid() && putBuffer == old(putBuffer) && unbuffered == old(unbuffered)
      ensures written == if ok then old(written) + [c] else old(written)
      ensures !ok ==> Pending() == old(Pending()) && EndsWith(answers, ec)
      ensures old(unbuffered) ==>
                var answer := AnswerAt(answers, 0);
                && (ok <==> answer.Accepted?) && Pending() == []
                && sent == old(sent) + (if ok && answer.n > 0 then [c] else [])
                && (intact <==> old(intact) && (!ok || answer.n > 0))
      ensures !old(unbuffered) && |old(Pending())| < BUFFER_SIZE ==>
              ok && sent == old(sent) && Pending() == old(Pending()) + [c] && intact == old(intact)
      ensures ok && !old(unbuffered) ==> intact == old(intact)
      ensures |old(Pending())| == BUFFER_SIZE ==>
                && (ok <==> Taken(answers, BUFFER_SIZE) == BUFFER_SIZE)
                && sent == old(sent) + old(Pending())[..Taken(answers, BUFFER_SIZE)]
                && (ok ==> Pending() == [c])
                && (intact <==> old(intact) && (ok || Taken(answers, BUFFER_SIZE) == 0))
      ensures NeverFails(answers) && |answers| >= BUFFER_SIZE ==> ok && intact == old(intact)
    {
      if unbuffered {
        ok := OverflowUnbuffered(Some(c), AnswerAt(answers, 0));
      } else if pptr < BUFFER_SIZE {
        putBuffer[pptr] := c;
        assert putBuffer[..pptr + 1] == putBuffer[..pptr] + [c];
        assert sent + (putBuffer[..pptr] + [c]) == sent + putBuffer[..pptr] + [c];
        pptr := pptr + 1;
        written := written + [c];
        ok := true;
      } else {
        ok := OverflowBuffered(Some(c), answers);
        if NeverFails(answers) && |answers| >= BUFFER_SIZE {
          ProgressTakesAll(answers, BUFFER_SIZE);
        }
      }
    }

    method Sync(answers: seq<Answer>) returns (ok: bool)
      requires Valid()
      modifies this, putBuffer
      ensures Valid() && putBuffer == old(putBuffer) && unbuffered == old(unbuffered) && written == old(written)
      ensures ok <==> Taken(answers, |old(Pending())|) == |old(Pending())|
      ensures sent == old(sent) + old(Pending())[..Taken(answers, |old(Pending())|)]
      ensures Pending() == if ok then [] else old(Pending())
      ensures if ok then ec == (if old(Pending()) == [] then old(ec) else NoError) else EndsWith(answers, ec)
      ensures intact <==> old(intact) && (ok || Taken(answers, |old(Pending())|) == 0)
      ensures old(intact) ==>
              (sent + Pending() == written <==> Taken(answers, |old(Pending())|) in {0, |old(Pending())|})
    {
      if unbuffered {
        ok := OverflowUnbuffered(None, TimerExpired);
      } else {
        ok := OverflowBuffered(None, answers);
      }
    }

    /** setbuf(0, 0) turns buffering off, but only while nothing is pending. */
    method SetUnbuffered() returns (ok: bool)
      requires Valid()
      modifies this`unbuffered
      ensures Valid() && (ok <==> |Pending()| == 0) && (unbuffered <==> ok || old(unbuffered))
    {
      if pptr == 0 {
        unbuffered := true;
        return true;
      }
      return false;
    }
  }

  /** A flush that fails and one that succeeds: what the first got out is sent twice. */
  method FlushTwice(sb: SocketStreamBuf, first: seq<Answer>, second: seq<Answer>) returns (ok: bool, again: bool)
    requires sb.Valid()
    modifies sb, sb.putBuffer
    ensures sb.Valid() && sb.written == old(sb.written)
    ensures var p := |old(sb.Pending())|;
            && (ok <==> Taken(first, p) == p)
            && (!ok ==> (again <==> Taken(second, p) == p))
            && (!ok && again ==> sb.sent == old(sb.sent) + old(sb.Pending())[..Taken(first, p)] + old(sb.Pending()))
            && (!ok && again ==> sb.Pending() == [])
  {
    ghost var pending := sb.Pending();
    ok := sb.Sync(first);
    again := sb.Sync(second);
    assert pending[..|pending|] == pending;
  }

  /** A new buffer with the characters 1 and 2, a flush in which the second send fails, and one that goes through. */
  method FlushRepeats() returns (sb: SocketStreamBuf, ok: bool, again: bool)
    ensures !ok && again && sb.written == [1, 2] && sb.sent == [1, 1, 2]
  {
    sb := new SocketStreamBuf();
    var put := sb.SPutC(1, []);
    put := sb.SPutC(2, []);
    var first, second := [Accepted(1), SendFailed], [Accepted(2)];
    assert Taken(first[1..], 1) == 0 && Taken(second[1..], 0) == 0;
    assert sb.Pending() == [1, 2] && [1, 2][..1] == [1];
    ok, again := FlushTwice(sb, first, second);
  }

  datatype Op = Put(c: byte, answers: seq<Answer>) | Flush(answers: seq<Answer>) | Unbuffer

  /** Enough answers for whatever the put area can hold, none of them a failure. */
  ghost predicate Smooth(op: Op) {
    !op.Unbuffer? ==> NeverFails(op.answers) && |op.answers| >= BUFFER_SIZE
  }

  function Characters(ops: seq<Op>): seq<byte> {
    if ops == [] then [] else (if ops[0].Put? then [ops[0].c] else []) + Characters(ops[1..])
  }

  // ----- any sequence of operations -----

  /**
   * How many bytes are pending, and whether the stream is unbuffered: all that the outcome of an operation depends
   * on.
   */
  datatype Area = Area(pending: nat, unbuffered: bool)

  predicate Possible(a: Area) {
    a.pending <= BUFFER_SIZE && (a.unbuffered ==> a.pending == 0)
  }

  function Next(a: Area, op: Op): Area {
    match op
    case Put(_, answers) =>
      if a.unbuffered then a
      else if a.pending < BUFFER_SIZE then a.(pending := a.pending + 1)
      else if Taken(answers, a.pending) == a.pending then a.(pending := 1) else a
    case Flush(answers) => if Taken(answers, a.pending) == a.pending then a.(pending := 0) else a
    case Unbuffer => a.(unbuffered := a.unbuffered || a.pending == 0)
  }

  /** The characters the stream buffer says it has taken. */
  function TakenIn(a: Area, op: Op): seq<byte> {
    match op
    case Put(c, answers) =>
      if (if a.unbuffered then AnswerAt(answers, 0).Accepted?
          else a.pending < BUFFER_SIZE || Taken(answers, a.pending) == a.pending) then [c] else []
    case _ => []
  }

  /** Bytes sent that stay pending as well, less characters taken in and not sent. */
  function Surplus(a: Area, op: Op): int {
    match op
    case Put(_, answers) =>
      if a.unbuffered then (if AnswerAt(answers, 0) == Accepted(0) then -1 else 0)
      else if a.pending < BUFFER_SIZE then 0
      else Repeated(answers, a.pending)
    case Flush(answers) => Repeated(answers, a.pending)
    case Unbuffer => 0
  }

  /** What a flush gets out before it fails. */
  function Repeated(answers: seq<Answer>, pending: nat): nat {
    if Taken(answers, pending) == pending then 0 else Taken(answers, pending)
  }

  function After(a: Area, ops: seq<Op>): Area
    decreases |ops|
  {
    if ops == [] then a else After(Next(a, ops[0]), ops[1..])
  }

  function AllTakenIn(a: Area, ops: seq<Op>): seq<byte>
    decreases |ops|
  {
    if ops == [] then [] else TakenIn(a, ops[0]) + AllTakenIn(Next(a, ops[0]), ops[1..])
  }

  function TotalSurplus(a: Area, ops: seq<Op>): int
    decreases |ops|
  {
    if ops == [] then 0 else Surplus(a, ops[0]) + TotalSurplus(Next(a, ops[0]), ops[1..])
  }

  /** Every flush gets out all that is pending, or nothing, and no character is sent as zero bytes. */
  predicate Conserved(a: Area, ops: seq<Op>)
    decreases |ops|
  {
    ops == [] || (Surplus(a, ops[0]) == 0 && Conserved(Next(a, ops[0]), ops[1..]))
  }

  /** A send that is accepted takes at least one byte. */
  predicate Progresses(op: Op) {
    op.Put? ==> AnswerAt(op.answers, 0) != Accepted(0)
  }

  /** When sends make progress, the surpluses cannot cancel out. */
  lemma {:induction false} SurplusCounts(a: Area, ops: seq<Op>)
    requires forall op :: op in ops ==> Progresses(op)
    ensures TotalSurplus(a, ops) >= 0 && (TotalSurplus(a, ops) == 0 <==> Conserved(a, ops))
    decreases |ops|
  {
    if ops != [] {
      assert Progresses(ops[0]);
      SurplusCounts(Next(a, ops[0]), ops[1..]);
    }
  }

  /** Smooth operations conserve, take in every character, and leave nothing pending after a flush. */
  lemma {:induction false} SmoothConserves(a: Area, ops: seq<Op>)
    requires Possible(a) && forall op :: op in ops ==> Smooth(op)
    ensures Conserved(a, ops) && AllTakenIn(a, ops) == Characters(ops)
    ensures |ops| > 0 && ops[|ops| - 1].Flush? ==> After(a, ops).pending == 0
    decreases |ops|
  {
    if ops != [] {
      var op, rest := ops[0], ops[1..];
      assert Smooth(op);
      if !op.Unbuffer? {
        ProgressTakesAll(op.answers, a.pending);
      }
      SmoothConserves(Next(a, op), rest);
      assert rest != [] ==> rest[|rest| - 1] == ops[|ops| - 1];
    }
  }

  ghost function AreaOf(sb: SocketStreamBuf): (a: Area)
    requires sb.Valid()
    reads sb, sb.putBuffer
    ensures Possible(a)
  {
    Area(|sb.Pending()|, sb.unbuffered)
  }

  ghost function Balance(sb: SocketStreamBuf): int
    requires sb.Valid()
    reads sb, sb.putBuffer
  {
    |sb.sent| + |sb.Pending()| - |sb.written|
  }

  method PerformOne(sb: SocketStreamBuf, op: Op)
    requires sb.Valid()
    modifies sb, sb.putBuffer
    ensures sb.Valid() && sb.putBuffer == old(sb.putBuffer)
    ensures AreaOf(sb) == Next(old(AreaOf(sb)), op)
    ensures sb.written == old(sb.written) + TakenIn(old(AreaOf(sb)), op)
    ensures Balance(sb) == old(Balance(sb)) + Surplus(old(AreaOf(sb)), op)
    ensures sb.intact <==> old(sb.intact) && Surplus(old(AreaOf(sb)), op) == 0
  {
    match op {
      case Put(c, answers) =>
        var ok := sb.SPutC(c, answers);
      case Flush(answers) =>
        var ok := sb.Sync(answers);
      case Unbuffer =>
        var ok := sb.SetUnbuffered();
    }
  }

  /**
   * Any sequence of writes, flushes and switches to unbuffered mode, whatever the socket answers: what is pending,
   * which characters are taken in, and by how many bytes sent ++ pending is off are decided by the answers; and every
   * character taken in is sent or pending, once and in order, when every flush got out all that was pending, or
   * nothing.
   */
  method Perform(sb: SocketStreamBuf, ops: seq<Op>)
    requires sb.Valid()
    modifies sb, sb.putBuffer
    ensures sb.Valid() && AreaOf(sb) == After(old(AreaOf(sb)), ops)
    ensures sb.written == old(sb.written) + AllTakenIn(old(AreaOf(sb)), ops)
    ensures Balance(sb) == old(Balance(sb)) + TotalSurplus(old(AreaOf(sb)), ops)
    ensures sb.intact <==> old(sb.intact) && Conserved(old(AreaOf(sb)), ops)
    ensures sb.intact ==> sb.sent + sb.Pending() == sb.written
    decreases |ops|
  {
    ghost var a, written := AreaOf(sb), sb.written;
    if |ops| > 0 {
      PerformOne(sb, ops[0]);
      Perform(sb, ops[1..]);
    }
    Together(written, a, ops);
  }

  lemma Together(written: seq<byte>, a: Area, ops: seq<Op>)
    ensures if ops == [] then written + AllTakenIn(a, ops) == written
            else written + TakenIn(a, ops[0]) + AllTakenIn(Next(a, ops[0]), ops[1..]) == written + AllTakenIn(a, ops)
  {
  }

  /**
   * When sends make progress: sent ++ pending is what was written if and only if every flush got out all or nothing.
   */
  method PerformWithProgress(sb: SocketStreamBuf, ops: seq<Op>)
    requires sb.Valid() && sb.intact && forall op :: op in ops ==> Progresses(op)
    modifies sb, sb.putBuffer
    ensures sb.Valid() && sb.written == old(sb.written) + AllTakenIn(old(AreaOf(sb)), ops)
    ensures sb.sent + sb.Pending() == sb.written <==> Conserved(old(AreaOf(sb)), ops)
  {
    SurplusCounts(AreaOf(sb), ops);
    Perform(sb, ops);
  }

  /**
   * When they do not fail either, and there are enough of them: every character, and after a flush nothing is
   * pending.
   */
  method PerformSmoothly(sb: SocketStreamBuf, ops: seq<Op>)
    requires sb.Valid() && sb.intact && forall op :: op in ops ==> Smooth(op)
    modifies sb, sb.putBuffer
    ensures sb.Valid() && sb.intact
    ensures sb.sent + sb.Pending() == old(sb.written) + Characters(ops)
    ensures |ops| > 0 && ops[|ops| - 1].Flush? ==> sb.sent == old(sb.written) + Characters(ops)
  {
    SmoothConserves(AreaOf(sb), ops);
    Perform(sb, ops);
    assert sb.sent + [] == sb.sent;
  }
}
