/**
 * The `roomConnections` map of websocket.ts as a value: a room code maps to
 * the room's set of server sockets. A JavaScript `Set` iterates in insertion
 * order and holds each element once, so a room's set is a sequence without
 * duplicates, new members at the end.
 */
module Registry {

  /** A server-side socket, one per `new WebSocketPair()`. */
  type ConnId = nat

  type Rooms = map<string, seq<ConnId>>

  predicate Distinct(s: seq<ConnId>)
  {
    forall i, j :: 0 <= i < j < |s| ==> s[i] != s[j]
  }

  /** Every stored room holds at least one socket, each socket once. */
  predicate WellFormed(rooms: Rooms)
  {
    forall code :: code in rooms ==> rooms[code] != [] && Distinct(rooms[code])
  }

  /** `roomConnections.get(code)`, with a missing entry read as no sockets. */
  function Snapshot(rooms: Rooms, code: string): seq<ConnId>
  {
    if code in rooms then rooms[code] else []
  }

  function Members(rooms: Rooms, code: string): set<ConnId>
  {
    set c | c in Snapshot(rooms, code)
  }

  /** `Set.prototype.add`: append unless already present. */
  function SetAdd(s: seq<ConnId>, x: ConnId): (r: seq<ConnId>)
    ensures forall y :: y in r <==> y in s || y == x
    ensures |s| <= |r| <= |s| + 1 && r[..|s|] == s
    ensures Distinct(s) ==> Distinct(r)
  {
    if x in s then s else s + [x]
  }

  /** `Set.prototype.delete`: drop `x`, keep the order of the rest. */
  function SetDelete(s: seq<ConnId>, x: ConnId): (r: seq<ConnId>)
    ensures forall y :: y in r <==> y in s && y != x
    ensures x !in s ==> r == s
    ensures Distinct(s) ==> Distinct(r)
    ensures Distinct(s) && x in s ==> |r| == |s| - 1
  {
    if s == [] then []
    else if s[0] == x then SetDelete(s[1..], x)
    else
      assert Distinct(s) ==> Distinct(s[1..]) && s[0] !in s[1..];
      [s[0]] + SetDelete(s[1..], x)
  }

  /** Deleting the member at position `i` leaves the others in their order. */
  lemma {:induction false} SetDeleteKeepsOrder(s: seq<ConnId>, i: nat)
    requires Distinct(s)
    requires i < |s|
    ensures SetDelete(s, s[i]) == s[..i] + s[i + 1..]
  {
    if i == 0 {
      assert s[0] !in s[1..];
    } else {
      assert s[1..][i - 1] == s[i];
      SetDeleteKeepsOrder(s[1..], i - 1);
      assert s[..i] == [s[0]] + s[1..][..i - 1];
      assert s[i + 1..] == s[1..][i..];
    }
  }

  /**
   * The join at connect time: create the room's set if it is missing, then
   * add the socket. The room gains exactly `c`, its old members keep their
   * order, and no other room changes.
   */
  function Join(rooms: Rooms, code: string, c: ConnId): (r: Rooms)
    ensures r.Keys == rooms.Keys + {code}
    ensures Members(r, code) == Members(rooms, code) + {c}
    ensures code in rooms ==> |rooms[code]| <= |r[code]| && r[code][..|rooms[code]|] == rooms[code]
    ensures forall k :: k in rooms && k != code ==> r[k] == rooms[k]
    ensures WellFormed(rooms) ==> WellFormed(r)
  {
    var existing := if code in rooms then rooms[code] else [];
    rooms[code := SetAdd(existing, c)]
  }

  /**
   * The `close` listener: remove the socket from its room, and delete the
   * room once its set is empty. A room that is missing stays missing, and
   * no other room changes.
   */
  function Leave(rooms: Rooms, code: string, c: ConnId): (r: Rooms)
    ensures code !in rooms ==> r == rooms
    ensures forall k :: k != code ==> (k in r <==> k in rooms)
    ensures forall k :: k in r && k != code ==> r[k] == rooms[k]
    ensures Members(r, code) == Members(rooms, code) - {c}
    ensures code in r <==> Members(r, code) != {}
    ensures WellFormed(rooms) ==> WellFormed(r)
  {
    if code in rooms then
      var remaining := SetDelete(rooms[code], c);
      if |remaining| == 0 then rooms - {code}
      else
        assert remaining[0] in Members(rooms[code := remaining], code);
        rooms[code := remaining]
    else
      rooms
  }

  /** Joining twice is joining once: a `Set` holds no duplicates. */
  lemma JoinIdempotent(rooms: Rooms, code: string, c: ConnId)
    ensures Join(Join(rooms, code, c), code, c) == Join(rooms, code, c)
  {
  }

  /** Closing a socket that is not in the room (or a room that is gone) changes nothing. */
  lemma LeaveNonMemberNoOp(rooms: Rooms, code: string, c: ConnId)
    requires WellFormed(rooms)
    requires c !in Members(rooms, code)
    ensures Leave(rooms, code, c) == rooms
  {
  }

  lemma {:induction false} DeleteAppended(s: seq<ConnId>, x: ConnId)
    requires x !in s
    ensures SetDelete(s + [x], x) == s
  {
    if s != [] {
      assert (s + [x])[1..] == s[1..] + [x];
      DeleteAppended(s[1..], x);
    }
  }

  /** A socket that joins a room and then closes leaves the registry as it found it. */
  lemma LeaveUndoesJoin(rooms: Rooms, code: string, c: ConnId)
    requires WellFormed(rooms)
    requires c !in Members(rooms, code)
    ensures Leave(Join(rooms, code, c), code, c) == rooms
  {
    if code in rooms {
      LeaveUndoesJoinExisting(rooms, code, c);
    } else {
      var joined := Join(rooms, code, c);
      assert joined[code] == [c];
      assert SetDelete([c], c) == [];
      assert joined - {code} == rooms;
    }
  }

  lemma LeaveUndoesJoinExisting(rooms: Rooms, code: string, c: ConnId)
    requires code in rooms && rooms[code] != []
    requires c !in rooms[code]
    ensures Leave(Join(rooms, code, c), code, c) == rooms
  {
    var s := rooms[code];
    var joined := rooms[code := s + [c]];
    assert Join(rooms, code, c) == joined;
    DeleteAppended(s, c);
    assert joined[code := s] == rooms;
  }
}
