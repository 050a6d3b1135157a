/** The server's map from AC ids to connections: HandleACOnline against the cleanup of closed connections. */
module AcConnections {
  import opened Bytes

  /** A connection is told apart by its InitTime alone, so that is what stands for it here. */
  type Connection = int

  /**
   An AC announces itself, or a connection that began with an announcement closes. The cleanup deletes one id
   that the closing connection serves; the map's iteration order picks which, and "" stands for none.
   */
  datatype Event = Online(id: string, conn: Connection) | Closes(conn: Connection, pick: string)

  function MapAt(events: seq<Event>, n: nat): map<string, Connection>
    requires n <= |events|
  {
    if n == 0 then map[]
    else
      var m := MapAt(events, n - 1);
      match events[n - 1]
      case Online(id, conn) => m[id := conn]
      case Closes(_, pick) => m - {pick}
  }

  /** The pick serves the closing connection, or there is no such id. */
  ghost predicate Allowed(m: map<string, Connection>, e: Event) {
    match e
    case Online(id, _) => id != ""
    case Closes(conn, pick) =>
      if pick in m then m[pick] == conn else pick == "" && forall id :: id in m ==> m[id] != conn
  }

  ghost predicate Run(events: seq<Event>) {
    forall n :: 0 <= n < |events| ==> Allowed(MapAt(events, n), events[n])
  }

  /** The most recent announcement of an id before the n-th event, or -1. */
  function LatestOnline(events: seq<Event>, n: nat, id: string): (r: int)
    requires n <= |events|
    ensures -1 <= r < n
    ensures r >= 0 ==> events[r].Online? && events[r].id == id
  {
    if n == 0 then -1
    else if events[n - 1].Online? && events[n - 1].id == id then n - 1
    else LatestOnline(events, n - 1, id)
  }

  /** Whoever is in the map is the connection of the latest announcement. */
  lemma {:induction false} EntryIsLatest(events: seq<Event>, n: nat, id: string)
    requires n <= |events| && Run(events) && id in MapAt(events, n)
    ensures var j := LatestOnline(events, n, id);
            j >= 0 && MapAt(events, n)[id] == events[j].conn
  {
    hide Run, Allowed;
    if !(events[n - 1].Online? && events[n - 1].id == id) {
      EntryIsLatest(events, n - 1, id);
    }
  }

  lemma RunAllows(events: seq<Event>, n: nat)
    requires n < |events| && Run(events)
    ensures Allowed(MapAt(events, n), events[n])
  {
  }

  lemma OtherClosesKeep(m: map<string, Connection>, e: Event, id: string)
    requires Allowed(m, e) && id in m && (e.Closes? ==> e.conn != m[id])
    ensures e.Closes? ==> e.pick != id
  {
  }

  /**
   The latest announcement stays in the map until its own connection closes: the timeout of an older
   connection never takes a newer one away.
   */
  lemma {:induction false} EntryStaysUntilItsConnectionCloses(events: seq<Event>, n: nat, id: string)
    requires n <= |events| && Run(events) && LatestOnline(events, n, id) >= 0
    requires var j := LatestOnline(events, n, id);
             forall k :: j < k < n && events[k].Closes? ==> events[k].conn != events[j].conn
    ensures id in MapAt(events, n) && MapAt(events, n)[id] == events[LatestOnline(events, n, id)].conn
  {
    hide Run, Allowed;
    if !(events[n - 1].Online? && events[n - 1].id == id) {
      EntryStaysUntilItsConnectionCloses(events, n - 1, id);
      RunAllows(events, n - 1);
      OtherClosesKeep(MapAt(events, n - 1), events[n - 1], id);
    }
  }

  function Served(m: map<string, Connection>, conn: Connection): set<string> {
    set id | id in m && m[id] == conn
  }

  /**
   Closing a connection leaves nothing of it behind exactly if it served at most one id: the cleanup stops at
   the first one it finds.
   */
  lemma CleanupIsCompleteIff(m: map<string, Connection>, conn: Connection, pick: string)
    requires Allowed(m, Closes(conn, pick))
    ensures Served(m - {pick}, conn) == {} <==> |Served(m, conn)| <= 1
    ensures forall c :: c != conn ==> Served(m - {pick}, c) == Served(m, c)
  {
    var before := Served(m, conn);
    assert Served(m - {pick}, conn) == before - {pick};
    if pick in m {
      assert pick in before;
      assert |before - {pick}| == |before| - 1;
    } else {
      assert before == {};
    }
    forall c | c != conn ensures Served(m - {pick}, c) == Served(m, c) {
    }
  }

  /** For instance: a connection that has announced two ids closes, and one of them stays. */
  lemma CleanupLeavesOneBehind()
    ensures var events := [Online("a", 1), Online("b", 1), Closes(1, "a")];
            Run(events) && MapAt(events, 3) == map["b" := 1]
  {
    var events := [Online("a", 1), Online("b", 1), Closes(1, "a")];
    assert MapAt(events, 1) == map["a" := 1];
    assert MapAt(events, 2) == map["a" := 1, "b" := 1];
    forall n | 0 <= n < |events| ensures Allowed(MapAt(events, n), events[n]) {
    }
  }

  lemma {:induction false} NoEmptyId(events: seq<Event>, n: nat)
    requires n <= |events| && Run(events)
    ensures "" !in MapAt(events, n)
  {
    hide Run, Allowed;
    if n > 0 {
      NoEmptyId(events, n - 1);
      RunAllows(events, n - 1);
      OnlineHasId(MapAt(events, n - 1), events[n - 1]);
    }
  }

  lemma OnlineHasId(m: map<string, Connection>, e: Event)
    requires Allowed(m, e)
    ensures e.Online? ==> e.id != ""
  {
  }

  /** One more event, and the map behind it. */
  lemma RunGrows(events: seq<Event>, e: Event)
    requires Run(events) && Allowed(MapAt(events, |events|), e)
    ensures Run(events + [e])
    ensures MapAt(events + [e], |events| + 1) == (
              match e
              case Online(id, conn) => MapAt(events, |events|)[id := conn]
              case Closes(_, pick) => MapAt(events, |events|) - {pick})
  {
    hide Allowed, Run;
    SamePrefix(events, events + [e], |events|);
    assert (events + [e])[|events|] == e;
    StillARun(events, e);
  }

  lemma StillARun(events: seq<Event>, e: Event)
    requires Run(events) && Allowed(MapAt(events, |events|), e)
    ensures Run(events + [e])
  {
    hide MapAt, Allowed;
    var more := events + [e];
    forall n | 0 <= n < |more| ensures Allowed(MapAt(more, n), more[n]) {
      SamePrefix(events, more, n);
      assert n < |events| ==> more[n] == events[n] && Allowed(MapAt(events, n), events[n]);
    }
  }

  lemma {:induction false} SamePrefix(a: seq<Event>, b: seq<Event>, n: nat)
    requires n <= |a| && a <= b
    ensures MapAt(a, n) == MapAt(b, n)
  {
    if n > 0 {
      SamePrefix(a, b, n - 1);
    }
  }

  lemma LatestIsNew(events: seq<Event>, id: string, conn: Connection)
    ensures LatestOnline(events + [Online(id, conn)], |events| + 1, id) == |events|
  {
  }

  class AcServer {
    var acConnectionMap: map<string, Connection>
    ghost var events: seq<Event>

    /** The map is the outcome of everything that has happened. */
    ghost predicate Valid()
      reads this
    {
      Run(events) && acConnectionMap == MapAt(events, |events|)
    }

    constructor ()
      ensures Valid() && events == []
    {
      acConnectionMap, events := map[], [];
    }

    /** From now on the id is served by this connection, until another announcement or its closing. */
    method HandleACOnline(id: string, conn: Connection)
      requires Valid() && id != ""
      modifies this
      ensures Valid() && events == old(events) + [Online(id, conn)]
      ensures LatestOnline(events, |events|, id) == |events| - 1 && id in Served(acConnectionMap, conn)
      ensures forall c :: c != conn ==> Served(acConnectionMap, c) == Served(old(acConnectionMap), c) - {id}
    {
      hide Run;
      RunGrows(events, Online(id, conn));
      LatestIsNew(events, id, conn);
      acConnectionMap, events := acConnectionMap[id := conn], events + [Online(id, conn)];
    }

    /** Where the server sends a request for the AC: to the connection of its latest announcement. */
    method FindAC(id: string) returns (conn: Option<Connection>)
      requires Valid()
      ensures var j := LatestOnline(events, |events|, id);
              conn.Some? ==> j >= 0 && conn.value == events[j].conn
      ensures conn == None ==> forall c :: id !in Served(acConnectionMap, c)
    {
      hide Run;
      if id in acConnectionMap {
        EntryIsLatest(events, |events|, id);
        conn := Some(acConnectionMap[id]);
      } else {
        conn := None;
      }
    }

    /** The cleanup of a closed AC connection, with the map read in any order. */
    method CleanUp(conn: Connection) returns (acToDelete: string)
      requires Valid()
      modifies this
      ensures Valid() && events == old(events) + [Closes(conn, acToDelete)]
      ensures Served(acConnectionMap, conn) == {} <==> |Served(old(acConnectionMap), conn)| <= 1
      ensures forall c :: c != conn ==> Served(acConnectionMap, c) == Served(old(acConnectionMap), c)
    {
      hide Run;
      acToDelete := "";
      var unread := acConnectionMap.Keys;
      while unread != {}
        invariant unread <= acConnectionMap.Keys && acToDelete == ""
        invariant forall id :: id in acConnectionMap && id !in unread ==> acConnectionMap[id] != conn
        decreases |unread|
      {
        var id :| id in unread;
        if acConnectionMap[id] == conn {
          acToDelete := id;
          break;
        }
        unread := unread - {id};
      }
      NoEmptyId(events, |events|);
      RunGrows(events, Closes(conn, acToDelete));
      CleanupIsCompleteIff(acConnectionMap, conn, acToDelete);
      acConnectionMap, events := acConnectionMap - {acToDelete}, events + [Closes(conn, acToDelete)];
    }
  }
}
