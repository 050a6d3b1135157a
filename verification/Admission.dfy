/** Connection admission of endpoints/server/udpserver.go: one receive loop against many closing connections. */
module Admission {

  const MAX_CONCURRENT_CONNECTION: nat := 20480
  const OVERLOAD_CONNECTION_THRESHOLD: nat := MAX_CONCURRENT_CONNECTION * 4 / 5

  type Addr = string

  /** Where the receive loop is with a packet from an address that has no connection yet. */
  datatype Loop = Idle | NotFound(addr: Addr) | Checked(addr: Addr)

  /** conns is remoteConnectionMap; live are the connection routines that have not cleaned up, by address. */
  datatype Server = Server(conns: map<Addr, nat>, live: map<nat, Addr>, overload: bool, loop: Loop)

  /** Each step is one section under the map's lock. */
  datatype Step =
    | Lookup(addr: Addr)
    | CheckRoom
    | Insert(conn: nat)
    | CleanUp(conn: nat)

  const Start: Server := Server(map[], map[], false, Idle)

  predicate Enabled(s: Server, step: Step) {
    match step
    case Lookup(_) => s.loop.Idle?
    case CheckRoom => s.loop.NotFound?
    case Insert(conn) => s.loop.Checked? && conn !in s.live
    case CleanUp(conn) => conn in s.live
  }

  function Next(s: Server, step: Step): Server
    requires Enabled(s, step)
  {
    match step
    case Lookup(addr) => if addr in s.conns then s else s.(loop := NotFound(addr))
    case CheckRoom =>
      if |s.conns| > OVERLOAD_CONNECTION_THRESHOLD then s.(overload := true, loop := Checked(s.loop.addr))
      else if |s.conns| >= MAX_CONCURRENT_CONNECTION then s.(loop := Idle)
      else s.(loop := Checked(s.loop.addr))
    case Insert(conn) =>
      s.(conns := s.conns[s.loop.addr := conn], live := s.live[conn := s.loop.addr], loop := Idle)
    case CleanUp(conn) =>
      var conns := s.conns - {s.live[conn]};
      s.(conns := conns, live := s.live - {conn},
         overload := if |conns| <= OVERLOAD_CONNECTION_THRESHOLD then false else s.overload)
  }

  function After(steps: seq<Step>): Server {
    if steps == [] then Start
    else
      var s := After(steps[..|steps| - 1]);
      if Enabled(s, steps[|steps| - 1]) then Next(s, steps[|steps| - 1]) else s
  }

  /** The map and the running routines name each other. */
  ghost predicate Paired(s: Server) {
    && (forall a :: a in s.conns ==> s.conns[a] in s.live && s.live[s.conns[a]] == a)
    && (forall c :: c in s.live ==> s.live[c] in s.conns && s.conns[s.live[c]] == c)
    && (!s.loop.Idle? ==> s.loop.addr !in s.conns)
  }

  /** Between check and insertion the map can only shrink, which is why one connection of slack is enough. */
  predicate OverloadTracks(s: Server) {
    && (s.overload ==> |s.conns| > OVERLOAD_CONNECTION_THRESHOLD)
    && (|s.conns| >= OVERLOAD_CONNECTION_THRESHOLD + 2 ==> s.overload)
    && (s.loop.Checked? && |s.conns| > OVERLOAD_CONNECTION_THRESHOLD ==> s.overload)
  }

  lemma RemoveOne(m: map<Addr, nat>, a: Addr)
    requires a in m
    ensures |m - {a}| == |m| - 1
  {
    assert (m - {a}).Keys == m.Keys - {a};
    assert |m.Keys| == |m| && |(m - {a}).Keys| == |m - {a}|;
  }

  lemma AddOne(m: map<Addr, nat>, a: Addr, c: nat)
    requires a !in m
    ensures |m[a := c]| == |m| + 1
  {
    assert m[a := c].Keys == m.Keys + {a};
    assert |m.Keys| == |m| && |m[a := c].Keys| == |m[a := c]|;
  }

  lemma NextKeepsPaired(s: Server, step: Step)
    requires Enabled(s, step) && Paired(s)
    ensures Paired(Next(s, step))
  {
  }

  lemma NextKeepsOverload(s: Server, step: Step)
    requires Enabled(s, step) && Paired(s) && OverloadTracks(s)
    ensures OverloadTracks(Next(s, step))
  {
    match step
    case Lookup(_) =>
    case CheckRoom =>
    case Insert(conn) => AddOne(s.conns, s.loop.addr, conn);
    case CleanUp(conn) => RemoveOne(s.conns, s.live[conn]);
  }

  /**
   In every reachable state: overload means more connections than the threshold, and from two above the
   threshold on the server is in overload.
   */
  lemma {:induction false} OverloadFollowsConnections(steps: seq<Step>)
    ensures Paired(After(steps)) && OverloadTracks(After(steps))
    decreases |steps|
  {
    hide Enabled, Next, OverloadTracks, Paired;
    if steps == [] {
      StartHolds();
    } else {
      OverloadFollowsConnections(steps[..|steps| - 1]);
      var s, step := After(steps[..|steps| - 1]), steps[|steps| - 1];
      if Enabled(s, step) {
        NextKeepsPaired(s, step);
        NextKeepsOverload(s, step);
      }
    }
  }

  /** In numbers: 16384 connections are the last without overload, and from 16386 on there always is. */
  lemma OverloadInNumbers(steps: seq<Step>)
    ensures After(steps).overload ==> |After(steps).conns| > 16384
    ensures |After(steps).conns| >= 16386 ==> After(steps).overload
  {
    hide After, Paired;
    OverloadFollowsConnections(steps);
  }

  lemma StartHolds()
    ensures Paired(Start) && OverloadTracks(Start)
  {
  }

  /**
   A closing connection removes exactly its own entry, although it removes by address: no other connection can
   have taken the address meanwhile.
   */
  lemma CleanUpRemovesOwnEntry(steps: seq<Step>, conn: nat)
    requires Enabled(After(steps), CleanUp(conn))
    ensures var s, s' := After(steps), Next(After(steps), CleanUp(conn));
            && s.live[conn] in s.conns && s.conns[s.live[conn]] == conn
            && s'.conns == map a | a in s.conns && s.conns[a] != conn :: s.conns[a]
  {
    hide OverloadTracks;
    OverloadFollowsConnections(steps);
  }

  lemma NoSteps() returns (steps: seq<Step>)
    ensures After(steps) == Start
  {
    steps := [];
  }

  lemma AfterOneMore(steps: seq<Step>, step: Step) returns (more: seq<Step>)
    requires Enabled(After(steps), step)
    ensures After(more) == Next(After(steps), step)
  {
    more := steps + [step];
    assert more[..|more| - 1] == steps;
  }

  /** n packets from n new addresses open n connections, for any n: the limit on connections is not enforced. */
  lemma {:induction false} ConnectionsAreUnlimited(n: nat) returns (steps: seq<Step>)
    ensures |After(steps).conns| == n && After(steps).loop.Idle?
    ensures forall a :: a in After(steps).conns ==> |a| < n
    ensures forall c :: c in After(steps).live ==> c < n
  {
    hide After;
    if n == 0 {
      steps := NoSteps();
    } else {
      var before := ConnectionsAreUnlimited(n - 1);
      var addr := seq(n - 1, i => '1');
      var looked := AfterOneMore(before, Lookup(addr));
      var checked := AfterOneMore(looked, CheckRoom);
      steps := AfterOneMore(checked, Insert(n - 1));
      AddOne(After(before).conns, addr, n - 1);
    }
  }

  /**
   Slack: with exactly threshold + 1 connections both states of the flag are reachable. Down after one more
   connection, since the check came before the insertion; up after one connection less.
   */
  lemma FlagDownAboveThreshold() returns (steps: seq<Step>)
    ensures |After(steps).conns| == OVERLOAD_CONNECTION_THRESHOLD + 1 && !After(steps).overload
  {
    hide After;
    var n := OVERLOAD_CONNECTION_THRESHOLD;
    var before := ConnectionsAreUnlimited(n);
    OverloadFollowsConnections(before);
    var addr := seq(n, i => '1');
    var looked := AfterOneMore(before, Lookup(addr));
    var checked := AfterOneMore(looked, CheckRoom);
    steps := AfterOneMore(checked, Insert(n));
    AddOne(After(before).conns, addr, n);
  }

  lemma FlagUpAboveThreshold() returns (steps: seq<Step>)
    ensures |After(steps).conns| == OVERLOAD_CONNECTION_THRESHOLD + 1 && After(steps).overload
  {
    hide After;
    var before := ConnectionsAreUnlimited(OVERLOAD_CONNECTION_THRESHOLD + 2);
    OverloadFollowsConnections(before);
    var s := After(before);
    assert s.conns.Keys != {} by { assert |s.conns.Keys| == |s.conns|; }
    var addr :| addr in s.conns;
    steps := AfterOneMore(before, CleanUp(s.conns[addr]));
    RemoveOne(s.conns, addr);
  }

  // ---- The server's fields, as the sections under the lock update them ----

  class UdpServer {
    var remoteConnectionMap: map<Addr, nat>
    var live: map<nat, Addr>
    var overload: bool
    var loop: Loop

    constructor ()
      ensures View() == Start
    {
      remoteConnectionMap, live, overload, loop := map[], map[], false, Idle;
    }

    function View(): Server
      reads this
    {
      Server(remoteConnectionMap, live, overload, loop)
    }

    method FindConnection(addr: Addr) returns (conn: int)
      requires Enabled(View(), Lookup(addr))
      modifies this`loop
      ensures View() == Next(old(View()), Lookup(addr))
      ensures conn == if addr in remoteConnectionMap then remoteConnectionMap[addr] else -1
    {
      if addr in remoteConnectionMap {
        conn := remoteConnectionMap[addr];
      } else {
        conn := -1;
        loop := NotFound(addr);
      }
    }

    /** The limit never discards a packet: a map that is full is above the threshold already. */
    method CheckForRoom()
      requires Enabled(View(), CheckRoom)
      modifies this`overload, this`loop
      ensures View() == Next(old(View()), CheckRoom)
    {
      if |remoteConnectionMap| > OVERLOAD_CONNECTION_THRESHOLD {
        overload := true;
      } else if |remoteConnectionMap| >= MAX_CONCURRENT_CONNECTION {
        assert false;
      }
      loop := Checked(loop.addr);
    }

    method AddConnection(conn: nat)
      requires Enabled(View(), Insert(conn))
      modifies this
      ensures View() == Next(old(View()), Insert(conn))
    {
      remoteConnectionMap := remoteConnectionMap[loop.addr := conn];
      live := live[conn := loop.addr];
      loop := Idle;
    }

    method RemoveConnection(conn: nat)
      requires Enabled(View(), CleanUp(conn))
      modifies this
      ensures View() == Next(old(View()), CleanUp(conn))
    {
      remoteConnectionMap := remoteConnectionMap - {live[conn]};
      live := live - {conn};
      if |remoteConnectionMap| <= OVERLOAD_CONNECTION_THRESHOLD {
        overload := false;
      }
    }

    /**
     A packet from an address, with no connection closing in between: it has a connection afterwards, and the
     flag goes up exactly if the connection is new and there were more than the threshold before.
     */
    method RecvPacket(addr: Addr, newConn: nat) returns (conn: nat)
      requires Paired(View()) && OverloadTracks(View()) && loop.Idle? && newConn !in live
      modifies this
      ensures Paired(View()) && OverloadTracks(View()) && loop.Idle?
      ensures remoteConnectionMap == old(remoteConnectionMap)[addr := conn]
      ensures conn == if addr in old(remoteConnectionMap) then old(remoteConnectionMap)[addr] else newConn
      ensures overload == (old(overload) ||
                           (addr !in old(remoteConnectionMap) && |old(remoteConnectionMap)| > OVERLOAD_CONNECTION_THRESHOLD))
    {
      hide Paired, OverloadTracks;
      NextKeepsPaired(View(), Lookup(addr));
      NextKeepsOverload(View(), Lookup(addr));
      var found := FindConnection(addr);
      if found >= 0 { return found; }
      NextKeepsPaired(View(), CheckRoom);
      NextKeepsOverload(View(), CheckRoom);
      CheckForRoom();
      NextKeepsPaired(View(), Insert(newConn));
      NextKeepsOverload(View(), Insert(newConn));
      AddConnection(newConn);
      conn := newConn;
    }

    /** A closing connection leaves exactly the other connections, and the flag no higher than it was. */
    method Close(conn: nat)
      requires Paired(View()) && OverloadTracks(View()) && conn in live
      modifies this
      ensures Paired(View()) && OverloadTracks(View())
      ensures remoteConnectionMap == map a | a in old(remoteConnectionMap) && old(remoteConnectionMap)[a] != conn
                                       :: old(remoteConnectionMap)[a]
      ensures overload <==> old(overload) && |remoteConnectionMap| > OVERLOAD_CONNECTION_THRESHOLD
    {
      NextKeepsPaired(View(), CleanUp(conn));
      NextKeepsOverload(View(), CleanUp(conn));
      RemoveConnection(conn);
    }
  }
}
