/**
 * lnetlib::server: the list of connections, the sessions that keep them alive, the outstanding accept and the threads
 * started.
 */
module Servers {
  import opened Bytes

  datatype ThreadPolicy = OnePerConnection | FixedCount

  type Id = nat   // a shared_ptr<connection>; every accept makes a new one

  ghost predicate NoRepeats(s: seq<Id>) {
    forall i, j :: 0 <= i < j < |s| ==> s[i] != s[j]
  }

  class Server {
    var running: bool
    var policy: ThreadPolicy
    var threadCount: int
    var connections: seq<Id>
    var sessions: map<Id, nat>
    var accepting: nat          // sessions started whose handler has not been called
    var threads: nat            // service threads created
    var inCaller: bool          // the service is run by the thread that called start
    var serviceStopped: bool    // of _service: set by stop, or when it runs out of work, and never reset
    var errors: nat             // emissions of the error signal
    ghost var accepted: nat     // since the last start
    ghost var acceptFailed: bool
    ghost var before: nat       // service threads created before the last start
    ghost var offered: set<Id>  // every connection an accept has produced

    /**
     * The list has no duplicates and names exactly the connections that have a session. While the service can run, one
     * accept is outstanding for a running server until one fails. The threads are those of the policy.
     */
    ghost predicate Valid()
      reads this
    {
      && NoRepeats(connections)
      && (forall c :: c in connections <==> c in sessions)
      && (forall c :: c in sessions ==> c in offered)
      && (!serviceStopped ==> accepting == if running && !acceptFailed then 1 else 0)
      && (running && policy == OnePerConnection ==> threads == before + accepted + 1 && !inCaller)
      && (running && policy == FixedCount ==>
            threads == before + (if threadCount > 0 then threadCount else 0) && (inCaller <==> threadCount <= 0))
    }

    constructor ()
      ensures Valid() && !running && !serviceStopped && connections == [] && policy == OnePerConnection
              && threadCount == 0
      ensures offered == {}
    {
      running, policy, threadCount := false, OnePerConnection, 0;
      connections, sessions, accepting, threads, inCaller := [], map[], 0, 0, false;
      serviceStopped, errors := false, 0;
      accepted, acceptFailed, before, offered := 0, false, 0, {};
    }

    /** Ignored while running. */
    method SetThreadPolicy(p: ThreadPolicy, count: int)
      requires Valid()
      modifies this`policy, this`threadCount
      ensures Valid()
      ensures if running then policy == old(policy) && threadCount == old(threadCount)
              else policy == p && threadCount == count
    {
      if running {
        return;
      }
      policy, threadCount := p, count;
    }

    method CreateSession()
      modifies this`accepting
      ensures accepting == old(accepting) + 1
    {
      accepting := accepting + 1;
    }

    method CreateServiceThread()
      modifies this`threads
      ensures threads == old(threads) + 1
    {
      threads := threads + 1;
    }

    /** -1 asks for the number of processors, which may be reported as 0. */
    method InitServiceThreads(processors: nat)
      modifies this`threads, this`threadCount, this`inCaller
      ensures threadCount == if old(threadCount) == -1 then processors else old(threadCount)
      ensures if threadCount > 0 then threads == old(threads) + threadCount && inCaller == old(inCaller)
              else threads == old(threads) && inCaller
    {
      if threadCount == -1 {
        threadCount := processors;
        if threadCount == -1 {
          threadCount := 2;
        }
      }
      if threadCount > 0 {
        var i := 0;
        while i < threadCount
          invariant 0 <= i <= threadCount && threads == old(threads) + i
          invariant threadCount == (if old(threadCount) == -1 then processors else old(threadCount))
                    && inCaller == old(inCaller)
        {
          CreateServiceThread();
          i := i + 1;
        }
      } else {
        inCaller := true;
      }
    }

    method WaitFirstConnection(processors: nat)
      modifies this`accepting, this`threads, this`threadCount, this`inCaller
      ensures accepting == old(accepting) + 1
      ensures policy == OnePerConnection ==>
              threads == old(threads) + 1 && threadCount == old(threadCount) && inCaller == old(inCaller)
      ensures policy == FixedCount ==>
                && threadCount == (if old(threadCount) == -1 then processors else old(threadCount))
                && threads == old(threads) + (if threadCount > 0 then threadCount else 0)
                && inCaller == (old(inCaller) || threadCount <= 0)
    {
      CreateSession();
      match policy {
        case FixedCount => InitServiceThreads(processors);
        case OnePerConnection => CreateServiceThread();
      }
    }

    method WaitNextConnection()
      modifies this`accepting, this`threads
      ensures accepting == old(accepting) + 1 && threads == old(threads) + if policy == OnePerConnection then 1 else 0
    {
      CreateSession();
      if policy == OnePerConnection {
        CreateServiceThread();
      }
    }

    /**
     * start, which does nothing when running, and only reports an error when the encryption is not set up or the
     * acceptor cannot be opened. A start after a stop is like the first one, for as much as the server itself does.
     */
    method Start(processors: nat, encryptionError: bool, opens: bool)
      requires Valid()
      modifies this
      ensures Valid() && connections == old(connections) && sessions == old(sessions) && offered == old(offered)
      ensures policy == old(policy) && serviceStopped == old(serviceStopped)
      ensures running <==> old(running) || (!encryptionError && opens)
      ensures errors == old(errors) + if old(running) || (!encryptionError && opens) then 0 else 1
      ensures old(running) || !running ==>
              accepting == old(accepting) && threads == old(threads) && threadCount == old(threadCount)
      ensures old(running) || !running ==> accepted == old(accepted)
      ensures !old(running) && running ==> accepting == old(accepting) + 1 && accepted == 0 && before == old(threads)
      ensures !old(running) && running && policy == OnePerConnection ==>
              threads == old(threads) + 1 && threadCount == old(threadCount)
      ensures !old(running) && running && policy == FixedCount ==>
              threadCount == if old(threadCount) == -1 then processors else old(threadCount)
    {
      if running {
        return;
      }
      if encryptionError {
        errors := errors + 1;
        return;
      }
      if !opens {
        errors := errors + 1;
        return;
      }
      running := true;
      accepted, acceptFailed, before, inCaller := 0, false, threads, false;
      WaitFirstConnection(processors);
    }

    /** connected_handler: err is a failed accept. The connection is a new object, which may have closed already. */
    method ConnectedHandler(conn: Id, session: nat, err: bool)
      requires Valid() && accepting > 0 && !serviceStopped && conn !in offered
      modifies this
      ensures Valid() && running && policy == old(policy) && threadCount == old(threadCount) && !serviceStopped
      ensures offered == old(offered) + {conn} && accepted == old(accepted) + (if err then 0 else 1)
              && before == old(before)
      ensures errors == old(errors) + if err then 1 else 0
      ensures err ==>
              connections == old(connections) && sessions == old(sessions) && accepting == 0 && threads == old(threads)
      ensures !err ==>
              connections == old(connections) + [conn] && sessions == old(sessions)[conn := session] && accepting == 1
      ensures !err ==> threads == old(threads) + if policy == OnePerConnection then 1 else 0
    {
      accepting := accepting - 1;
      offered := offered + {conn};
      if err {
        errors := errors + 1;
        acceptFailed := true;
        return;
      }
      accepted := accepted + 1;
      AddConnection(conn, session);
      WaitNextConnection();
    }

    method AddConnection(conn: Id, session: nat)
      modifies this`connections, this`sessions
      ensures connections == old(connections) + [conn] && sessions == old(sessions)[conn := session]
    {
      connections := connections + [conn];
      sessions := sessions[conn := session];
    }

    /** The closed signal of a connection, at any time and any number of times. */
    method RemoveConnection(conn: Id)
      requires Valid()
      modifies this`connections, this`sessions
      ensures Valid() && connections == Without(old(connections), conn) && sessions == old(sessions) - {conn}
    {
      WithoutMembers(connections, conn);
      EraseConnection(conn);
      if conn in sessions {
        sessions := sessions - {conn};
      }
    }

    /** std::find and list::erase. */
    method EraseConnection(conn: Id)
      modifies this`connections
      ensures connections == Without(old(connections), conn)
    {
      var i := 0;
      while i < |connections| && connections[i] != conn
        invariant i <= |connections| && conn !in connections[..i]
      {
        i := i + 1;
      }
      WithoutAt(connections, conn, i);
      if i < |connections| {
        connections := connections[..i] + connections[i + 1..];
      }
    }

    /** stop(): no handler is called any more, whatever is outstanding; connections stay listed. */
    method Stop()
      requires Valid()
      modifies this`running, this`serviceStopped
      ensures Valid() && !running && serviceStopped == (old(running) || old(serviceStopped))
    {
      if !running {
        return;
      }
      serviceStopped := true;
      running := false;
    }

    /** The service stops by itself when nothing is outstanding. */
    method RunOut()
      requires Valid() && accepting == 0
      modifies this`serviceStopped
      ensures Valid() && serviceStopped
    {
      serviceStopped := true;
    }
  }

  function Without(s: seq<Id>, c: Id): seq<Id> {
    if s == [] then [] else if s[0] == c then s[1..] else [s[0]] + Without(s[1..], c)
  }

  lemma {:induction false} WithoutAt(s: seq<Id>, c: Id, i: nat)
    requires i <= |s| && c !in s[..i] && (i < |s| ==> s[i] == c)
    ensures Without(s, c) == if i < |s| then s[..i] + s[i + 1..] else s
  {
    if s != [] && i > 0 {
      var t := s[1..];
      assert s[..i] == [s[0]] + t[..i - 1];
      assert s[0] in s[..i] && forall x :: x in t[..i - 1] ==> x in s[..i];
      WithoutAt(t, c, i - 1);
      if i < |s| {
        assert s[..i] + s[i + 1..] == [s[0]] + (t[..i - 1] + t[i..]);
      } else {
        assert s == [s[0]] + t;
      }
    }
  }

  lemma {:induction false} WithoutMembers(s: seq<Id>, c: Id)
    requires NoRepeats(s)
    ensures NoRepeats(Without(s, c)) && forall x :: x in Without(s, c) <==> x in s && x != c
  {
    if s != [] {
      var t := s[1..];
      assert forall i :: 0 <= i < |t| ==> t[i] == s[i + 1];
      assert s[0] !in t;
      assert forall x :: x in s <==> x == s[0] || x in t;
      if s[0] != c {
        WithoutMembers(t, c);
        var r := Without(t, c);
        assert Without(s, c) == [s[0]] + r;
        forall i, j | 0 <= i < j < |[s[0]] + r|
          ensures ([s[0]] + r)[i] != ([s[0]] + r)[j]
        {
          assert ([s[0]] + r)[j] == r[j - 1] && r[j - 1] in r;
        }
      }
    }
  }

  /**
   * What can happen to a server: calls of its user, accepts that complete, closed signals, the service running out of
   * work.
   */
  datatype Happening =
    | Starts(processors: nat, encryptionError: bool, opens: bool)
    | Stops
    | SetsPolicy(policy: ThreadPolicy, count: int)
    | Accept(session: nat)
    | AcceptFails
    | Close(conn: Id)
    | RunsOut

  /** Accepts that complete: none after one has failed, since no other is started then. */
  function Accepts(hs: seq<Happening>): nat {
    if hs == [] || hs[0].AcceptFails? then 0 else (if hs[0].Accept? then 1 else 0) + Accepts(hs[1..])
  }

  /**
   * Whatever happens; an accept can complete only while the service runs. Connections are numbered as they are made.
   */
  method Happen(server: Server, h: Happening, next: nat) returns (next': nat)
    requires server.Valid() && forall c :: c in server.offered ==> c < next
    modifies server
    ensures server.Valid() && forall c :: c in server.offered ==> c < next'
    ensures old(server.serviceStopped) ==> server.serviceStopped && server.offered == old(server.offered)
    ensures old(server.serviceStopped) ==> forall c :: c in server.connections ==> c in old(server.connections)
    ensures h.Accept? || h.AcceptFails? || h.Close? ==>
              && server.policy == old(server.policy) && server.threadCount == old(server.threadCount)
              && server.running == old(server.running) && server.serviceStopped == old(server.serviceStopped)
              && server.before == old(server.before)
              && var taken := h.Accept? && old(server.accepting) > 0 && !server.serviceStopped;
                 server.accepted == old(server.accepted) + if taken then 1 else 0
    ensures next' == next + 1
    ensures server.connections ==
              if h.Close? then Without(old(server.connections), h.conn)
              else if h.Accept? && old(server.accepting) > 0 && !old(server.serviceStopped) then
                old(server.connections) + [next]
              else old(server.connections)
    ensures h.Stops? ==> !server.running && server.serviceStopped == (old(server.running) || old(server.serviceStopped))
    ensures h.RunsOut? ==> server.serviceStopped == (old(server.accepting) == 0 || old(server.serviceStopped))
    ensures !server.serviceStopped && (h.Accept? || h.Close?) ==> server.accepting == old(server.accepting)
    ensures !server.serviceStopped && h.AcceptFails? ==> server.accepting == 0
  {
    next' := next + 1;
    match h {
      case Starts(processors, encryptionError, opens) => server.Start(processors, encryptionError, opens);
      case Stops => server.Stop();
      case SetsPolicy(policy, count) => server.SetThreadPolicy(policy, count);
      case Accept(session) =>
        if server.accepting > 0 && !server.serviceStopped {
          server.ConnectedHandler(next, session, false);
        }
      case AcceptFails =>
        if server.accepting > 0 && !server.serviceStopped {
          server.ConnectedHandler(next, 0, true);
        }
      case Close(conn) =>
        WithoutMembers(server.connections, conn);
        server.RemoveConnection(conn);
      case RunsOut =>
        if server.accepting == 0 {
          server.RunOut();
        }
    }
  }

  /**
   * Once the service has stopped, no call and no event makes the server accept a connection: a start after a stop
   * opens an acceptor and creates threads, and nothing more comes of it.
   */
  method StoppedForGood(server: Server, hs: seq<Happening>, next: nat)
    requires server.Valid() && server.serviceStopped && forall c :: c in server.offered ==> c < next
    modifies server
    ensures server.Valid() && server.serviceStopped && server.offered == old(server.offered)
    ensures forall c :: c in server.connections ==> c in old(server.connections)
  {
    var id, i := next, 0;
    while i < |hs|
      invariant i <= |hs| && server.Valid() && server.serviceStopped && server.offered == old(server.offered)
      invariant forall c :: c in server.offered ==> c < id
      invariant forall c :: c in server.connections ==> c in old(server.connections)
    {
      id := Happen(server, hs[i], id);
      i := i + 1;
    }
  }

  /**
   * Started, stopped and started again: running, with two accepts outstanding, and whatever happens then, no
   * connection.
   */
  method RestartAcceptsNothing(processors: nat, hs: seq<Happening>)
    returns (server: Server, running: bool, accepting: nat)
    ensures running && accepting == 2 && server.offered == {} && forall c :: c !in server.connections
  {
    server := new Server();
    server.Start(processors, false, true);
    server.Stop();
    server.Start(processors, false, true);
    running, accepting := server.running, server.accepting;
    assert server.connections == [];
    StoppedForGood(server, hs, 0);
  }

  /** Event k accepts a connection, and no accept has failed before. */
  predicate Accepting(hs: seq<Happening>, k: nat)
    requires k < |hs|
  {
    hs[k].Accept? && AcceptFails !in hs[..k]
  }

  /**
   * Which connections are listed after these events, when connection first + k is the one of event k: those listed at
   * the start or accepted, and not closed since.
   */
  ghost predicate Listed(before: seq<Id>, hs: seq<Happening>, first: nat, c: Id) {
    || (c in before && Close(c) !in hs)
    || (exists k :: 0 <= k < |hs| && c == first + k && Accepting(hs, k) && Close(c) !in hs[k..])
  }

  lemma ListedNext(before: seq<Id>, hs: seq<Happening>, first: nat, h: Happening, c: Id)
    requires forall b :: b in before ==> b < first
    ensures Listed(before, hs + [h], first, c) <==>
            if h == Close(c) then false
            else Listed(before, hs, first, c) || (c == first + |hs| && h.Accept? && AcceptFails !in hs)
  {
    var all := hs + [h];
    var n := |hs|;
    assert all[..n] == hs && all[n] == h;
    assert Close(c) in all <==> Close(c) in hs || h == Close(c);
    forall k | 0 <= k < n
      ensures Accepting(all, k) <==> Accepting(hs, k)
      ensures Close(c) in all[k..] <==> Close(c) in hs[k..] || h == Close(c)
    {
      assert all[..k] == hs[..k] && all[k] == hs[k] && all[k..] == hs[k..] + [h];
    }
    assert all[n..] == [h];
    if Listed(before, hs, first, c) && h != Close(c) && c !in before {
      var k :| 0 <= k < n && c == first + k && Accepting(hs, k) && Close(c) !in hs[k..];
      assert Accepting(all, k) && Close(c) !in all[k..];
    }
    if c == first + n && h.Accept? && AcceptFails !in hs {
      assert Accepting(all, n);
    }
  }

  /** What an event does to the list is what it does to Listed. */
  lemma ListedStep(before: seq<Id>, all: seq<Happening>, i: nat, first: nat, listed: seq<Id>, after: seq<Id>)
    requires i < |all| && (forall b :: b in before ==> b < first) && NoRepeats(listed)
    requires forall c :: c in listed <==> Listed(before, all[..i], first, c)
    requires after == if all[i].Close? then Without(listed, all[i].conn)
                      else if all[i].Accept? && AcceptFails !in all[..i] then listed + [first + i]
                      else listed
    ensures forall c :: c in after <==> Listed(before, all[..i + 1], first, c)
  {
    var hs, h := all[..i], all[i];
    assert all[..i + 1] == hs + [h];
    if h.Close? {
      WithoutMembers(listed, h.conn);
    }
    forall c
      ensures c in after <==> Listed(before, hs + [h], first, c)
    {
      ListedNext(before, hs, first, h, c);
    }
  }

  /** Accepts outstanding and accepts completed after the first i events. */
  ghost predicate Counted(hs: seq<Happening>, i: nat, accepting: nat, accepted: nat) {
    && i <= |hs|
    && accepting == (if AcceptFails in hs[..i] then 0 else 1)
    && accepted + (if accepting == 1 then Accepts(hs[i..]) else 0) == Accepts(hs)
  }

  lemma CountedStep(hs: seq<Happening>, i: nat, accepting: nat, accepted: nat, accepting': nat, accepted': nat)
    requires i < |hs| && Counted(hs, i, accepting, accepted)
    requires accepting' == if hs[i].AcceptFails? then 0 else accepting
    requires accepted' == accepted + if hs[i].Accept? && accepting > 0 then 1 else 0
    ensures Counted(hs, i + 1, accepting', accepted')
  {
    assert hs[..i + 1] == hs[..i] + [hs[i]];
    assert hs[i..][1..] == hs[i + 1..];
  }

  /** The events from the i-th on, at a running server. */
  method ServeOn(server: Server, hs: seq<Happening>, i: nat, first: nat, ghost before: seq<Id>)
    requires server.Valid() && server.running && !server.serviceStopped
    requires i <= |hs| && forall k :: i <= k < |hs| ==> hs[k].Accept? || hs[k].AcceptFails? || hs[k].Close?
    requires (forall c :: c in server.offered ==> c < first + i) && (forall c :: c in before ==> c < first)
    requires forall c :: c in server.connections <==> Listed(before, hs[..i], first, c)
    requires Counted(hs, i, server.accepting, server.accepted)
    modifies server
    ensures server.Valid() && server.running && !server.serviceStopped
    ensures server.policy == old(server.policy) && server.threadCount == old(server.threadCount)
    ensures server.before == old(server.before)
    ensures forall c :: c in server.connections <==> Listed(before, hs[..|hs|], first, c)
    ensures Counted(hs, |hs|, server.accepting, server.accepted)
    decreases |hs| - i
  {
    if i < |hs| {
      ghost var listed, accepting, accepted := server.connections, server.accepting, server.accepted;
      var next := Happen(server, hs[i], first + i);
      CountedStep(hs, i, accepting, accepted, server.accepting, server.accepted);
      ListedStep(before, hs, i, first, listed, server.connections);
      ServeOn(server, hs, i + 1, first, before);
    }
  }

  /**
   * From a start on, whatever arrives and closes: the bookkeeping invariant, and one thread more than connections
   * accepted, or a fixed number.
   */
  method Serve(server: Server, processors: nat, hs: seq<Happening>, first: nat)
    requires server.Valid() && !server.running && !server.serviceStopped
    requires forall c :: c in server.offered ==> c < first
    requires forall h :: h in hs ==> h.Accept? || h.AcceptFails? || h.Close?
    modifies server
    ensures server.Valid() && server.running && server.policy == old(server.policy)
    ensures server.policy == OnePerConnection ==> server.threads == old(server.threads) + Accepts(hs) + 1
    ensures server.policy == FixedCount ==>
              var count := if old(server.threadCount) == -1 then processors else old(server.threadCount);
              && server.threads == old(server.threads) + (if count > 0 then count else 0)
              && (server.inCaller <==> count <= 0)
    ensures server.accepting == if AcceptFails in hs then 0 else 1
    ensures forall c :: c in server.connections <==> Listed(old(server.connections), hs, first, c)
  {
    ghost var before := server.connections;
    server.Start(processors, false, true);
    assert hs[..0] == [] && hs[0..] == hs;
    ServeOn(server, hs, 0, first, before);
    assert hs[..|hs|] == hs;
  }
}
