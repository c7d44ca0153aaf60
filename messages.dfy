/** The wall message as the browser client stores it once it arrives over
    the event stream: missing text fields become the empty string and the
    message is stamped with its arrival time in milliseconds. */
module Messages {
  import opened Wrappers

  /** A wall message as sent by the server; `None` is an absent or null field. */
  datatype RawWallMsg = RawWallMsg(line: Option<int>, time: Option<string>,
                                   senderId: Option<string>, message: Option<string>)

  /** A stored wall message; `receivedAt` is the arrival time, `0.0` when unknown. */
  datatype WallMsg = WallMsg(line: Option<int>, time: string, senderId: string,
                             message: string, receivedAt: real)

  /** `normalizeWallMsg(msg)` with `Date.now()` given as `now`. */
  function NormalizeWallMsg(raw: RawWallMsg, now: real): (m: WallMsg)
    ensures m.line == raw.line && m.receivedAt == now
    ensures raw.time.Some? ==> m.time == raw.time.value
    ensures raw.time.None? ==> m.time == ""
    ensures raw.senderId.Some? ==> m.senderId == raw.senderId.value
    ensures raw.senderId.None? ==> m.senderId == ""
    ensures raw.message.Some? ==> m.message == raw.message.value
    ensures raw.message.None? ==> m.message == ""
  {
    WallMsg(raw.line, raw.time.GetOr(""), raw.senderId.GetOr(""), raw.message.GetOr(""), now)
  }
}
