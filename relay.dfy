/**
 * `handleWebSocketConnection` of websocket.ts: the room-code guard, the lazy
 * join, and the two listeners each server socket gets (`message`: stamp and
 * relay to the room; `close`: leave the room). Listeners run one at a time
 * on the worker's event loop, so each handler is one atomic method here.
 */
module Relay {
  import opened Wrappers
  import opened Json
  import opened Registry

  /** `WebSocket.readyState` value of an open socket; only these are sent to. */
  const OPEN: int := 1

  /** The query parameter naming the room. */
  const RoomCodeParam: string := "roomCode"

  /** One `conn.send(JSON.stringify(message))`. */
  datatype Send = Send(to: ConnId, payload: Json)

  /**
   * What `handleWebSocketConnection` returns: the 400 refusal, or the 101
   * upgrade that hands the client end of the new pair back. The pair is
   * named by its server end.
   */
  datatype Response = Rejected(status: int) | Upgraded(status: int, socket: ConnId)

  /** `URLSearchParams.get`: the value of the first pair with that name. */
  function SearchParam(query: seq<(string, string)>, name: string): (r: Option<string>)
    ensures r.None? <==> forall i :: 0 <= i < |query| ==> query[i].0 != name
    ensures r.Some? ==> exists i :: 0 <= i < |query| && query[i] == (name, r.value)
                                   && forall j :: 0 <= j < i ==> query[j].0 != name
  {
    if query == [] then None
    else if query[0].0 == name then Some(query[0].1)
    else
      var r := SearchParam(query[1..], name);
      if r.Some? then
        var i :| 0 <= i < |query[1..]| && query[1..][i] == (name, r.value)
                 && forall j :: 0 <= j < i ==> query[1..][j].0 != name;
        assert query[i + 1] == (name, r.value);
        assert forall j :: 0 <= j < i + 1 ==> query[j].0 != name by {
          forall j | 0 <= j < i + 1 ensures query[j].0 != name {
            if j > 0 { assert query[j] == query[1..][j - 1]; }
          }
        }
        r
      else
        r
  }

  /**
   * The sends of one broadcast over a room snapshot, in the room's order:
   * one per OPEN socket, nothing for the others.
   */
  function Deliveries(members: seq<ConnId>, readyState: ConnId -> int, payload: Json): (r: seq<Send>)
    ensures forall d :: d in r ==> d.to in members && readyState(d.to) == OPEN && d.payload == payload
    ensures forall c :: c in members && readyState(c) == OPEN ==> Send(c, payload) in r
    ensures |r| <= |members|
  {
    if members == [] then []
    else
      var last := members[|members| - 1];
      var front := members[..|members| - 1];
      assert forall c :: c in members ==> c in front || c == last;
      Deliveries(front, readyState, payload)
        + (if readyState(last) == OPEN then [Send(last, payload)] else [])
  }

  /** No socket is sent to twice. */
  predicate DistinctRecipients(sends: seq<Send>)
  {
    forall i, j :: 0 <= i < j < |sends| ==> sends[i].to != sends[j].to
  }

  /** Over a room (no duplicates), every OPEN socket receives the message exactly once. */
  lemma {:induction false} DeliveriesOncePerSocket(members: seq<ConnId>, readyState: ConnId -> int, payload: Json)
    requires Distinct(members)
    ensures DistinctRecipients(Deliveries(members, readyState, payload))
  {
    if members != [] {
      var front := members[..|members| - 1];
      var last := members[|members| - 1];
      assert Distinct(front);
      assert last !in front;
      DeliveriesOncePerSocket(front, readyState, payload);
      var early := Deliveries(front, readyState, payload);
      var r := Deliveries(members, readyState, payload);
      assert r == early + (if readyState(last) == OPEN then [Send(last, payload)] else []);
      forall i, j | 0 <= i < j < |r| ensures r[i].to != r[j].to {
        assert r[i] == early[i] && early[i] in early;
        if j >= |early| {
          assert r[j].to == last;
        } else {
          assert r[j] == early[j];
        }
      }
    }
  }

  /**
   * The registry agrees with the sockets' own history: every socket ever
   * created has an id below `nextId` and a captured room; a stored room
   * holds exactly the sockets that connected to it and have not closed.
   */
  ghost predicate Consistent(rooms: Rooms, roomOf: map<ConnId, string>, closed: set<ConnId>, nextId: ConnId)
  {
    && WellFormed(rooms)
    && (forall c :: c in roomOf ==> c < nextId)
    && closed <= roomOf.Keys
    && (forall code, c :: code in rooms && c in rooms[code] ==> c in roomOf && roomOf[c] == code && c !in closed)
    && (forall c :: c in roomOf && c !in closed ==> roomOf[c] in rooms && c in rooms[roomOf[c]])
  }

  /** The sockets that connected to `code` and have not closed. */
  ghost function Live(roomOf: map<ConnId, string>, closed: set<ConnId>, code: string): set<ConnId>
  {
    set c | c in roomOf && roomOf[c] == code && c !in closed
  }

  /** A room's members are its live sockets, and a room is stored exactly when it has one. */
  lemma MembersAreLive(rooms: Rooms, roomOf: map<ConnId, string>, closed: set<ConnId>, nextId: ConnId, code: string)
    requires Consistent(rooms, roomOf, closed, nextId)
    ensures Members(rooms, code) == Live(roomOf, closed, code)
    ensures code in rooms <==> Live(roomOf, closed, code) != {}
  {
    if code in rooms {
      assert rooms[code][0] in Live(roomOf, closed, code);
    }
  }

  /** A fresh socket joining a room keeps the registry consistent. */
  lemma ConnectKeepsConsistent(rooms: Rooms, roomOf: map<ConnId, string>, closed: set<ConnId>, nextId: ConnId, code: string)
    requires Consistent(rooms, roomOf, closed, nextId)
    ensures nextId !in roomOf
    ensures Consistent(Join(rooms, code, nextId), roomOf[nextId := code], closed, nextId + 1)
  {
  }

  /** A socket's close keeps the registry consistent. */
  lemma CloseKeepsConsistent(rooms: Rooms, roomOf: map<ConnId, string>, closed: set<ConnId>, nextId: ConnId, server: ConnId)
    requires Consistent(rooms, roomOf, closed, nextId)
    requires server in roomOf
    ensures Consistent(Leave(rooms, roomOf[server], server), roomOf, closed + {server}, nextId)
  {
  }

  class Hub {
    /** `roomConnections`: room code to its live server sockets. */
    var rooms: Rooms
    /** The room code each server socket's listeners captured when it connected. */
    var roomOf: map<ConnId, string>
    /** The server socket the next `new WebSocketPair()` yields. */
    var nextId: ConnId
    /** Sockets whose `close` listener has run. */
    ghost var closed: set<ConnId>

    ghost predicate Valid()
      reads this
    {
      Consistent(rooms, roomOf, closed, nextId)
    }

    /** The module-level `new Map()`: no rooms, no sockets yet. */
    constructor ()
      ensures Valid()
      ensures rooms == map[] && roomOf == map[] && closed == {}
    {
      rooms := map[];
      roomOf := map[];
      nextId := 0;
      closed := {};
    }

    /**
     * A connection request. Without a non-empty `roomCode` parameter it is
     * refused with 400 and nothing changes; otherwise a fresh socket joins
     * the room, which is created if missing.
     */
    method Connect(query: seq<(string, string)>) returns (resp: Response)
      requires Valid()
      modifies this
      ensures Valid()
      ensures var code := SearchParam(query, RoomCodeParam);
              if code.None? || code.value == "" then
                && resp == Rejected(400)
                && rooms == old(rooms) && roomOf == old(roomOf)
                && nextId == old(nextId) && closed == old(closed)
              else
                && resp == Upgraded(101, old(nextId))
                && old(nextId) !in old(roomOf)
                && rooms == Join(old(rooms), code.value, old(nextId))
                && roomOf == old(roomOf)[old(nextId) := code.value]
                && nextId == old(nextId) + 1 && closed == old(closed)
    {
      var roomCode := SearchParam(query, RoomCodeParam);
      if roomCode.None? || roomCode.value == "" {
        return Rejected(400);
      }
      var code := roomCode.value;
      var server := nextId;
      nextId := nextId + 1;
      if code !in rooms {
        rooms := rooms[code := []];
      }
      rooms := rooms[code := SetAdd(rooms[code], server)];
      roomOf := roomOf[server := code];
      resp := Upgraded(101, server);
      assert rooms == Join(old(rooms), code, server);
      ConnectKeepsConsistent(old(rooms), old(roomOf), closed, server, code);
    }

    /**
     * The `message` listener of socket `server`. `parsed` is the outcome of
     * `JSON.parse` on the frame (`None` when it throws); `readyState` is
     * each socket's state as the transport reports it. Nothing changes; the
     * result lists the sends in the order they are made.
     */
    method OnMessage(server: ConnId, parsed: Option<Json>, readyState: ConnId -> int) returns (sends: seq<Send>)
      requires server in roomOf
      ensures parsed.None? ==> sends == []
      ensures parsed.Some? && Stamp(parsed.value, roomOf[server]).None? ==> sends == []
      ensures parsed.Some? && Stamp(parsed.value, roomOf[server]).Some? ==>
                sends == Deliveries(Snapshot(rooms, roomOf[server]), readyState, Stamp(parsed.value, roomOf[server]).value)
      ensures forall d :: d in sends ==>
                && d.to in Members(rooms, roomOf[server]) && readyState(d.to) == OPEN
                && (d.payload.JObj? ==> StampedWith(d.payload, roomOf[server]))
      ensures parsed.Some? && Stamp(parsed.value, roomOf[server]).Some? ==>
                forall c :: c in Members(rooms, roomOf[server]) && readyState(c) == OPEN ==>
                  Send(c, Stamp(parsed.value, roomOf[server]).value) in sends
      ensures Valid() ==> DistinctRecipients(sends)
      ensures Valid() ==> forall d :: d in sends ==>
                d.to in roomOf && roomOf[d.to] == roomOf[server] && d.to !in closed
    {
      sends := [];
      if parsed.None? {
        return;
      }
      var code := roomOf[server];
      var message := Stamp(parsed.value, code);
      if message.None? {
        return;
      }
      if code in rooms {
        var connections := rooms[code];
        for i := 0 to |connections|
          invariant sends == Deliveries(connections[..i], readyState, message.value)
        {
          var conn := connections[i];
          if readyState(conn) == OPEN {
            sends := sends + [Send(conn, message.value)];
          }
          assert connections[..i + 1][..i] == connections[..i];
        }
        assert connections[..|connections|] == connections;
        if Distinct(connections) {
          DeliveriesOncePerSocket(connections, readyState, message.value);
        }
      }
    }

    /**
     * The `close` listener of socket `server`: it leaves the room it joined,
     * and the room is deleted once empty. Every other room is untouched.
     */
    method OnClose(server: ConnId)
      requires Valid()
      requires server in roomOf
      modifies this
      ensures Valid()
      ensures roomOf == old(roomOf) && nextId == old(nextId) && closed == old(closed) + {server}
      ensures rooms == Leave(old(rooms), roomOf[server], server)
    {
      var code := roomOf[server];
      if code in rooms {
        var connections := SetDelete(rooms[code], server);
        rooms := rooms[code := connections];
        if |connections| == 0 {
          rooms := rooms - {code};
        }
      }
      closed := closed + {server};
      assert rooms == Leave(old(rooms), code, server);
      CloseKeepsConsistent(old(rooms), roomOf, old(closed), nextId, server);
    }
  }
}
