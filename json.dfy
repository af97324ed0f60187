/**
 * The JSON values a socket's `message` listener sees once `JSON.parse` has
 * succeeded, and the room-code stamp the listener applies before relaying.
 */
module Json {
  import opened Wrappers

  datatype Json =
    | JNull
    | JBool(b: bool)
    | JNum(n: int)
    | JStr(s: string)
    | JArr(items: seq<Json>)
    | JObj(fields: map<string, Json>)

  /** The property the relay overwrites on every relayed object. */
  const RoomCodeKey: string := "roomCode"

  /** `j` is an object whose `roomCode` property is the string `code`. */
  predicate StampedWith(j: Json, code: string)
  {
    j.JObj? && RoomCodeKey in j.fields && j.fields[RoomCodeKey] == JStr(code)
  }

  /**
   * `message.roomCode = roomCode` followed by `JSON.stringify(message)`, as
   * seen by the receivers. On an object the property is created or
   * overwritten. An array accepts the assignment, but serialisation keeps
   * only its indexed elements, so the array goes out unchanged. On `null`
   * and on a primitive the assignment throws a TypeError (module code is
   * strict), which the listener catches: `None`, nothing is relayed.
   */
  function Stamp(message: Json, code: string): (r: Option<Json>)
    ensures r.Some? <==> (message.JObj? || message.JArr?)
    ensures message.JObj? ==> r.Some? && StampedWith(r.value, code)
    ensures message.JObj? ==> r.Some? && r.value.JObj?
                              && r.value.fields.Keys == message.fields.Keys + {RoomCodeKey}
    ensures message.JObj? ==>
              && r.Some? && r.value.JObj?
              && forall k :: k in message.fields && k != RoomCodeKey ==>
                   k in r.value.fields && r.value.fields[k] == message.fields[k]
    ensures message.JArr? ==> r == Some(message)
  {
    match message
    case JObj(fields) => Some(JObj(fields[RoomCodeKey := JStr(code)]))
    case JArr(_) => Some(message)
    case _ => None
  }

  /** Whatever room code the client put in its message, the relay's own wins. */
  lemma StampIgnoresClaimedRoom(fields: map<string, Json>, claimed: Json, code: string)
    ensures Stamp(JObj(fields[RoomCodeKey := claimed]), code) == Stamp(JObj(fields), code)
  {
    assert fields[RoomCodeKey := claimed][RoomCodeKey := JStr(code)] == fields[RoomCodeKey := JStr(code)];
  }

  /** Stamping twice is stamping with the last code. */
  lemma StampLastWins(message: Json, first: string, second: string)
    requires Stamp(message, first).Some?
    ensures Stamp(Stamp(message, first).value, second) == Stamp(message, second)
  {
    if message.JObj? {
      StampIgnoresClaimedRoom(message.fields, JStr(first), second);
    }
  }
}
