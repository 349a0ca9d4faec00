/**
  read_state and write_state over an abstract state file.

  The file is absent, unreadable (I/O error or invalid JSON), or holds one
  JSON document. JSON text, encoding and the filesystem are not modelled.
*/
module StateStore {

  /** A JSON value as `json.load` returns it (numbers restricted to integers). */
  datatype Json =
    | JNull
    | JBool(b: bool)
    | JNumber(n: int)
    | JString(s: string)
    | JArray(items: seq<Json>)
    | JObject(fields: map<string, Json>)

  datatype StateFile = Absent | Unreadable | Stored(doc: Json)

  /** How write_state ended: written, `open` failed, or `json.dump` failed after `open` truncated the file. */
  datatype WriteOutcome = Written | OpenFailed | DumpFailed

  const LastStatusKey := "last_status"
  const LastSeenAtKey := "last_seen_at"
  const Available := "available"
  const Unavailable := "unavailable"

  /** `{"last_status": "unavailable", "last_seen_at": None}` */
  const DefaultState: map<string, Json> := map[LastStatusKey := JString(Unavailable), LastSeenAtKey := JNull]

  /**
    read_state as written: whatever `json.load` returned, which need not be
    an object, or the default state when the file is absent or unreadable.
  */
  function ReadStateAsWritten(file: StateFile): (doc: Json)
    ensures file.Stored? ==> doc == file.doc
    ensures !file.Stored? ==> doc == JObject(DefaultState)
  {
    match file
    case Stored(doc) => doc
    case _ => JObject(DefaultState)
  }

  /**
    read_state, corrected: a stored document that is not a JSON object is
    treated like an unreadable file. It agrees with read_state on every
    file for which read_state returns an object.
  */
  function ReadState(file: StateFile): (state: map<string, Json>)
    ensures ReadStateAsWritten(file).JObject? ==> JObject(state) == ReadStateAsWritten(file)
    ensures !ReadStateAsWritten(file).JObject? ==> state == DefaultState
    ensures !file.Stored? ==> state[LastStatusKey] == JString(Unavailable) && state[LastSeenAtKey] == JNull
  {
    match file
    case Stored(JObject(fields)) => fields
    case _ => DefaultState
  }

  /** The state file after write_state. */
  function WriteState(file: StateFile, state: map<string, Json>, outcome: WriteOutcome): (file': StateFile)
    ensures outcome == Written ==> ReadState(file') == state
    ensures outcome == OpenFailed ==> file' == file
    ensures outcome == DumpFailed ==> ReadState(file') == DefaultState
  {
    match outcome
    case Written => Stored(JObject(state))
    case OpenFailed => file
    case DumpFailed => Unreadable
  }
}
