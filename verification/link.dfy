/**
  The link's own operations built on the codec: the reverse handshake made
  when a link is opened, the play request, the keep-alive no-op, and the
  open/closed state that `Close` moves between.
 */
module Link {
  import opened Wrappers
  import opened Octets
  import opened Headers
  import opened Codec
  import opened Response

  const REVERSE_TARGET: Bytes := Ascii("/reverse")
  const PLAY_TARGET: Bytes := Ascii("/play")
  const NOOP_TARGET: Bytes := Ascii("/noop")
  const CONNECTION: Bytes := Ascii("Connection")
  const CONTENT_LOCATION: Bytes := Ascii("Content-Location: ")
  const START_POSITION: Bytes := Ascii("\r\nStart-Position: 0\r\n")

  /** The operation `NewAppleTVLink` performs first: `POST /reverse` asking to upgrade to PTTH/1.0, without a body. */
  function HandshakeOp(): (op: Op)
    ensures op.target == REVERSE_TARGET && op.content.None?
    ensures op.header.Keys == {UPGRADE, CONNECTION}
    ensures HasUpgrade(op.header) && Get(op.header, UPGRADE) == Ascii("PTTH/1.0")
    ensures Get(op.header, CONNECTION) == Ascii("Upgrade")
    ensures Values(op.header, UPGRADE) == [Ascii("PTTH/1.0")]
    ensures Values(op.header, CONNECTION) == [Ascii("Upgrade")]
    ensures PERCENT !in op.target
  {
    var h := Add(Add(map[], UPGRADE, Ascii("PTTH/1.0")), CONNECTION, Ascii("Upgrade"));
    GetAfterAdd(map[], UPGRADE, Ascii("PTTH/1.0"), UPGRADE);
    assert UPGRADE[0] != CONNECTION[0];
    GetAfterAdd(Add(map[], UPGRADE, Ascii("PTTH/1.0")), CONNECTION, Ascii("Upgrade"), UPGRADE);
    GetAfterAdd(Add(map[], UPGRADE, Ascii("PTTH/1.0")), CONNECTION, Ascii("Upgrade"), CONNECTION);
    Op(REVERSE_TARGET, h, None)
  }

  /** The body `DoPlay` sends for a media address. */
  function PlayBody(address: Bytes): Bytes
  {
    CONTENT_LOCATION + address + START_POSITION
  }

  /** The device's reading of a play body: the address between the two fixed parts. */
  function ParsePlayBody(b: Bytes): Option<Bytes>
  {
    if |b| >= |CONTENT_LOCATION| + |START_POSITION| && HasPrefix(b, CONTENT_LOCATION) && HasSuffix(b, START_POSITION)
    then Some(b[|CONTENT_LOCATION|..|b| - |START_POSITION|])
    else None
  }

  /** The operation `DoPlay(address)` submits: `/play`, no headers, the play body. */
  function PlayOp(address: Bytes): (op: Op)
    ensures op.target == PLAY_TARGET && op.header == map[]
    ensures !HasUpgrade(op.header)
    ensures PERCENT !in op.target
    ensures op.content.Some? && ParsePlayBody(op.content.value) == Some(address)
  {
    var b := PlayBody(address);
    assert b[|CONTENT_LOCATION|..|b| - |START_POSITION|] == address;
    assert b[|b| - |START_POSITION|..] == START_POSITION;
    Op(PLAY_TARGET, map[], Some(b))
  }

  /** The operation a keep-alive tick performs: `/noop`, no headers, no body. */
  function NoopOp(): (op: Op)
    ensures op.target == NOOP_TARGET && op.header == map[]
    ensures !HasUpgrade(op.header)
    ensures op.content.None?
    ensures PERCENT !in op.target
  {
    Op(NOOP_TARGET, map[], None)
  }

  /** Whether the request channel is still there (`m.op != nil`). */
  datatype LinkState = Open | Closed

  /** `Close`: legal on an open link only; closing twice panics. */
  function Close(s: LinkState): (r: LinkState)
    requires s.Open?
    ensures r.Closed?
  {
    Closed
  }

  /** How dialing the device went: refused, or connected with the device's replies to read. */
  datatype Dial = Refused(reason: string) | Connected(replies: Reader)

  /** The error `NewAppleTVLink` returns: the dial's, or the handshake's. */
  datatype OpenError = DialFailed(reason: string) | HandshakeFailed(failure: Failure)

  /**
    What `NewAppleTVLink` hands back: a link or none, and an error or none.
    `replies` is what is left in the link's reader after the handshake, where
    the link's next request reads its response.
   */
  datatype Opened = Opened(link: Option<LinkState>, err: Option<OpenError>, replies: Reader)

  /**
    `NewAppleTVLink`: a refused dial returns no link; otherwise the
    handshake is performed, and a failed handshake closes the link, which
    is still returned alongside the error.
   */
  function NewLink(dial: Dial): (r: Opened)
    ensures dial.Refused? ==> r == Opened(None, Some(DialFailed(dial.reason)), [])
    ensures dial.Connected? ==>
      && r.link.Some?
      && (r.link.value.Open? <==> r.err.None?)
      && (r.err.None? <==> Decode(HandshakeOp(), dial.replies) == Ok)
      && (r.err.Some? ==> r.err.value == HandshakeFailed(Decode(HandshakeOp(), dial.replies).failure))
      && r.replies == After(dial.replies, DecodeReads(HandshakeOp(), dial.replies))
  {
    match dial
    case Refused(reason) => Opened(None, Some(DialFailed(reason)), [])
    case Connected(replies) =>
      var outcome := Decode(HandshakeOp(), replies);
      var rest := After(replies, DecodeReads(HandshakeOp(), replies));
      if outcome == Ok then Opened(Some(Open), None, rest)
      else Opened(Some(Close(Open)), Some(HandshakeFailed(outcome.failure)), rest)
  }

  /** `DoPlay(address)`: perform the play operation and return its outcome. */
  method DoPlay(address: Bytes, writeHeader: Header -> Bytes, rs: Reader) returns (sent: Bytes, r: Outcome, rest: Reader)
    ensures sent == Encode(PlayOp(address), writeHeader)
    ensures r == Decode(PlayOp(address), rs)
    ensures rest == After(rs, DecodeReads(PlayOp(address), rs))
  {
    sent, r, rest := Perform(PlayOp(address), writeHeader, rs);
  }

  // ----- properties -----

  /** A 101 reply followed by the blank line completes the handshake, and the new link is open. */
  lemma HandshakeAcceptsSwitching(line: Bytes, rest: Reader)
    requires HasPrefix(line, SWITCHING)
    ensures Decode(HandshakeOp(), [Line(line, false), Line([], false)] + rest) == Ok
    ensures NewLink(Connected([Line(line, false), Line([], false)] + rest)).link == Some(Open)
  {
    UpgradeAccepts(HandshakeOp(), line, rest);
  }

  /** A play request never takes a 101 as success: it fails with that status line. */
  lemma PlayRejectsSwitching(address: Bytes, line: Bytes, rest: Reader)
    requires HasPrefix(line, SWITCHING)
    ensures Decode(PlayOp(address), [Line(line, false)] + rest) == Fail(BadStatus(line))
  {
    SwitchingRejectedWithoutUpgrade(PlayOp(address), line, rest);
  }

  /** The device finds the address again in the request `DoPlay` writes. */
  lemma PlayAddressReachesDevice(address: Bytes, writeHeader: Header -> Bytes)
    ensures var op := PlayOp(address);
      var wire := Encode(op, writeHeader);
      var t := ParseTail(wire[|RequestLine(op.target) + writeHeader(op.header)|..]);
      t.Some? && ParsePlayBody(t.value.body) == Some(address)
  {
  }

  /** Closing a link leaves it where a second `Close` is not allowed. */
  lemma SecondCloseNotAllowed(s: LinkState)
    requires s.Open?
    ensures !Close(s).Open?
  {
  }

  // ----- the exchanges of a play session, end to end -----

  /** The device answers the handshake with `HTTP/1.1 101 Switching Protocols` and a blank line: the link opens. */
  lemma SessionHandshake()
    ensures NewLink(Connected([Line(Ascii("HTTP/1.1 101 Switching Protocols"), false), Line([], false)])).link == Some(Open)
  {
    var line := Ascii("HTTP/1.1 101 Switching Protocols");
    assert line[..|SWITCHING|] == SWITCHING;
    HandshakeAcceptsSwitching(line, []);
    assert [Line(line, false), Line([], false)] + [] == [Line(line, false), Line([], false)];
  }

  /** `HTTP/1.1 200 OK` and a blank line: `DoPlay` succeeds. */
  lemma SessionPlayOk(address: Bytes)
    ensures Decode(PlayOp(address), [Line(Ascii("HTTP/1.1 200 OK"), false), Line([], false)]) == Ok
  {
    var line := Ascii("HTTP/1.1 200 OK");
    assert line[..|SUCCESS|] == SUCCESS;
    var rs := [Line(line, false), Line([], false)];
    assert rs[0] == Line(line, false) && rs[1] == Line([], false);
  }

  /** `HTTP/1.1 404 Not Found`: any operation without an Upgrade header fails with exactly that text. */
  lemma SessionNotFound(op: Op)
    requires !HasUpgrade(op.header)
    ensures Decode(op, [Line(Ascii("HTTP/1.1 404 Not Found"), false), Line([], false)])
      == Fail(BadStatus(Ascii("HTTP/1.1 404 Not Found")))
  {
    var line := Ascii("HTTP/1.1 404 Not Found");
    assert line[9] != SUCCESS[9];
    var rs := [Line(line, false), Line([], false)];
    assert rs[0] == Line(line, false);
  }

  /**
    The handshake and then a play request on one link: the play request's
    response is read from what the handshake left, so `NewLink` followed by
    `DoPlay` on its `replies` is the two-request session.
   */
  lemma OpenThenPlay(replies: Reader, address: Bytes)
    ensures Session([HandshakeOp(), PlayOp(address)], replies)
      == [Decode(HandshakeOp(), replies), Decode(PlayOp(address), NewLink(Connected(replies)).replies)]
  {
    var ops := [HandshakeOp(), PlayOp(address)];
    assert ops[1..] == [PlayOp(address)];
  }
}
