# atvlib control link, in Dafny

A model of the control link that `atvlib` keeps to an Apple TV. The link runs
over one TCP connection. It opens with a reversed HTTP handshake (`POST /reverse` with
`Upgrade: PTTH/1.0`) and then sends `POST` requests such as `/play` and the
keep-alive `/noop`. The model covers the wire codec inside
`AppleTVLink.perform`: how a request is written and how the device's
line-oriented answer is read. It also covers the operations the link builds
(handshake, play, no-op), `NewAppleTVLink`'s decision to keep or close the
link, and the open/closed state that `Close` moves between.

Modules, one per concern of `atvlib.go`:

- `Octets` (octets.dfy): octets (`byte`, `Bytes`), ASCII literals, prefixes, and the decimal
  numerals that `%d` prints. It also has the reading of such numerals back, with round trips both ways.
- `Headers` (headers.dfy): the `http.Header` the link uses. It is a map from key to values, with `Add` and `Get`.
- `Codec` (codec.dfy): the operation (`Op`) and `Encode`, the bytes `perform` writes.
  `ParseTail` is the device's reading of the framing the link adds: the Content-Length
  line, the User-Agent line, the blank line and the body. It is `Encode`'s
  partner, and the round trip is proved in both directions.
- `Response` (response.dfy): the reader, as a sequence of `ReadLine` results, and `Decode`, the
  reference reading of a response. `ReadResponse` is the read loop exactly as the source writes it,
  proved equal to `Decode`, and `Perform` is the whole exchange. The section after them holds the properties of a response.
- `Link` (link.dfy): `HandshakeOp`, `PlayOp`, `NoopOp`, `NewLink`, `DoPlay`, `Close`, and whole
  exchanges of a play session.

I/O is replaced by parameters. The reader is a finite sequence of line results; reading past its end
yields EOF. The outcome of dialing is a `Dial` value. `Header.Write` is a function parameter
`writeHeader` of `Encode`.

Notes on the code that shape the model:

- Go's `Header.Write` sorts keys and sanitises values, so the header block is not simply the headers in the
  order they were added. It is left to the `writeHeader` parameter.
- The stream ending before the status line and the stream ending after it both return `io.EOF`
  (atvlib.go:111-114). The model keeps them as one failure, `Fail(ReadFailed(EOF))`.
- The check for a missing status line (atvlib.go:128-131) can never fire. An empty first line is already
  rejected as a bad status line with an empty message (atvlib.go:121-122). `Response.ReadResponse` keeps the
  check and proves `r != Fail(NoStatusLine)`.
- One `bufio.Reader` serves every request of a link (atvlib.go:30, 41, 111). `perform` returns as soon as it has
  decided, so a rejected reply leaves its header lines unread, and no reply body is ever read. `Response.DecodeReads`
  counts the reads one response takes, and `Response.Session` reads each response from where the previous one
  stopped. `Response.RejectedResponseDesynchronises` shows the effect: after a `404` with a `Content-Length: 0`
  line, the next request fails with `Content-Length: 0` as its status line.

## Model

| member | source | states |
|---|---|---|
| Octets.Decimal | atvlib.go:100 | `%d` of a length is a canonical numeral: at least one digit, all digits, no leading zero unless the number is 0 |
| Octets.DecimalRoundTrip | atvlib.go:100 | a reader that reads the printed Content-Length digits gets back exactly the length |
| Octets.DecimalOfValue | atvlib.go:100 | every canonical numeral is the printing of its own value, so a numeral denotes one length |
| Octets.NumeralRoundTrip | atvlib.go:100 | the printed Content-Length followed by the line end reads back as the length, with the line end left over |
| Octets.NumeralSound | atvlib.go:100 | whatever numeral a reader accepts is the printing of the value it reads |
| Headers.Add | atvlib.go:48-50 | `Header.Add` appends the value to the key's values and leaves every other key alone |
| Headers.Get | atvlib.go:119 | `Header.Get` is empty for a missing key, is the first value when the key has values, and a non-empty result is one of the key's values |
| Headers.HasUpgrade | atvlib.go:119 | an op counts as an upgrade request exactly when its Upgrade key has a first value that is not empty; an empty header is never one |
| Headers.GetAfterAdd | atvlib.go:119 | `Header.Get` after `Add` gives the first value ever added for the key; other keys are unaffected |
| Codec.Encode | atvlib.go:90-103 | the request starts with `POST <target> HTTP/1.1\r\n` and the header block. The device then reads Content-Length equal to the body's length (0 for nil), the User-Agent line, the blank line, exactly the body, and nothing more |
| Codec.TailRoundTrip | atvlib.go:100-103 | the framing `perform` writes after the headers reads back as its length and body, and leaves whatever follows for the next request |
| Codec.ParseTailSound | atvlib.go:100-103 | every tail the device accepts is exactly a Content-Length line, the fixed User-Agent line, the blank line and a body of that length |
| Codec.NilBodyEncodesAsEmpty | atvlib.go:100-103 | a nil body and an empty body produce the same bytes on the wire |
| Codec.EncodeEndsWithBody | atvlib.go:101-103 | when Content is non-nil the request ends with the body bytes verbatim |
| Codec.EncodeNilEndsWithBlankLine | atvlib.go:100-101 | when Content is nil the request ends with the blank line that closes the headers |
| Response.StatusAccepted | atvlib.go:119-121 | an accepted status line is at least as long as `HTTP/1.1 2`; without an Upgrade header only a `HTTP/1.1 2` prefix is accepted |
| Response.Decode | atvlib.go:110-133 | the reading of a response never reports a missing status line; a rejected status carries exactly the first line read, which was not accepted; success needs an accepted status line and at least one more line |
| Response.Drain | atvlib.go:110-133 | after the status line, reading the remaining lines can fail only through a reader error or an overlong line |
| Response.ReadResponse | atvlib.go:108-135 | the read loop with its `first` flag returns what the reference `Decode` returns after the number of reads `DecodeReads` counts, and never returns the "no status line" error |
| Response.Perform | atvlib.go:88-136 | `perform` writes exactly the encoding of the op, returns the decoding of the reply for that op, and leaves the reader after the reads that decoding took |
| Response.DrainReads | atvlib.go:110-133 | the header loop, from a given read on, takes at least one more read and never more than the reader holds plus the final end-of-stream |
| Response.DecodeReads | atvlib.go:110-133 | one response takes at least one read from the link's reader and at most all of it plus the end-of-stream read |
| Response.SuccessConsumesResponse | atvlib.go:110-133 | a successful response is consumed exactly through its empty line, so the next response starts right after it |
| Response.RejectionLeavesResponseUnread | atvlib.go:118-122 | a rejected status line is the only read of that response; everything after it stays in the shared reader |
| Response.Session | atvlib.go:30-41 | the link's requests share one reader: as many outcomes as requests, the first being the decoding of the reader as it stands, and none of them a missing status line |
| Response.RejectedResponseDesynchronises | atvlib.go:111-122 | a `404` reply with a `Content-Length: 0` line makes the next request on the link fail with `Content-Length: 0` as its status |
| Response.SessionAfterSuccess | atvlib.go:110-133 | after a successful response the link's next request reads its response from the line after that response's empty line |
| Response.SessionAfterRejection | atvlib.go:111-122 | after a rejected status line the link's next request reads its response from the line right after the rejected one |
| Response.DecodeOkIff | atvlib.go:108-134 | success holds exactly when the reads are: an accepted status line, then non-empty lines, then an empty line, all whole lines and no reader errors |
| Response.ReadProblemFails | atvlib.go:111-117 | a reader error (EOF included) or a line with `prefix` set, wherever it comes before the terminating empty line, makes the response fail |
| Response.DecodeIgnoresLaterReads | atvlib.go:110-133 | reads after the deciding one do not change the outcome unless the reader ran out |
| Response.HeaderLinesUninspected | atvlib.go:126-133 | the text of non-empty lines after the status line has no effect on the outcome |
| Response.StatusRejectedIff | atvlib.go:118-123 | a first line fails with itself as the message exactly when it is neither a 2xx line nor, for an op with an Upgrade header, a 101 line |
| Response.SwitchingRejectedWithoutUpgrade | atvlib.go:119-122 | without an Upgrade header, a `HTTP/1.1 101` line fails with that line as the message |
| Response.UpgradeAccepts | atvlib.go:119-125 | with an Upgrade header, both a `HTTP/1.1 101` line and a `HTTP/1.1 2` line are accepted, and a following empty line gives success |
| Response.EmptyStatusLineRejected | atvlib.go:118-122 | an empty first line fails as a rejected status line with an empty message |
| Link.HandshakeOp | atvlib.go:48-51 | the handshake op is `/reverse`, without a body, with exactly the keys Upgrade and Connection, each holding exactly one value: `PTTH/1.0` and `Upgrade` |
| Link.PlayOp | atvlib.go:139-144 | the play op is `/play` without headers and without an Upgrade header. The device reads the address back from its body `Content-Location: <address>\r\nStart-Position: 0\r\n` |
| Link.NoopOp | atvlib.go:66 | the keep-alive op is `/noop` with an empty header, so no Upgrade header, and no body |
| Link.Close | atvlib.go:167-172 | `Close` is allowed only on an open link and leaves it closed |
| Link.SecondCloseNotAllowed | atvlib.go:168-170 | after a `Close`, a second `Close` is outside its precondition (the source panics) |
| Link.NewLink | atvlib.go:34-56 | a failed dial gives no link and the dial error. Otherwise a link is returned, open exactly when the handshake succeeds, and closed with the handshake's error otherwise; the link's reader is left after the handshake's reads |
| Link.DoPlay | atvlib.go:139-145 | `DoPlay` writes the encoding of the play op, returns the decoding of the reply for it, and leaves the reader after that reply's reads |
| Link.HandshakeAcceptsSwitching | atvlib.go:119-125 | a 101 status line and an empty line complete the handshake, and the link opens |
| Link.PlayRejectsSwitching | atvlib.go:119-122 | a 101 status line in reply to a play request is a failure carrying that line |
| Link.PlayAddressReachesDevice | atvlib.go:139-144 | the device recovers the media address from the play request's body as it is framed on the wire |
| Link.OpenThenPlay | atvlib.go:41-55 | a play request after the handshake reads its response from the reader `NewLink` leaves, which is the two-request session on one reader |
| Link.SessionHandshake | atvlib.go:46-55 | `HTTP/1.1 101 Switching Protocols` and a blank line in reply to the handshake leave the link open |
| Link.SessionPlayOk | atvlib.go:139-144 | `HTTP/1.1 200 OK` and a blank line in reply to a play request give success |
| Link.SessionNotFound | atvlib.go:121-122 | `HTTP/1.1 404 Not Found` in reply to an op without an Upgrade header fails with exactly `HTTP/1.1 404 Not Found` |

## Left out

- Codec.Encode: requires that the target contain no `%`. The source passes the formatted request line to `Fprintf` as a format string (atvlib.go:90), so a `%` in the target would be reinterpreted by fmt, which is not modelled.
- Codec.Encode: the header block is the parameter `writeHeader`. Go's `Header.Write` (key sorting, value sanitising) is a library routine and is not modelled.
- Headers.Add: keys are not canonicalised (`CanonicalMIMEHeaderKey`). Every key the link uses is already canonical.
- Write errors on the connection (atvlib.go:91-106): socket I/O. The model covers only what is written.
- Dialing, `LocalAddr` and closing the socket (atvlib.go:35-43, 159-164, 173): network I/O. A dial appears only as its outcome, `Link.Dial`.
- The dispatcher `run`, the 10-second ticker and the channel hand-off in `Do` (atvlib.go:58-83): concurrency and timing. All that is kept is `Link.NoopOp`, the op a tick performs; its outcome is discarded by the source.
- `Do` after `Close`: `Close` sets the channel to nil, so a later `Do` blocks forever on the send (atvlib.go:81). Blocking is not modelled; `Close` itself is, and a second `Close` is outside its precondition because the source panics (atvlib.go:168-169).
- A `Close` while a `Do` is still blocked in its send (atvlib.go:81) makes that `Do` panic with a send on a closed channel. Concurrency, not modelled.
- The order in which the dispatcher interleaves callers' requests and keep-alive no-ops is taken as given: `Response.Session` reads the responses to a sequence of ops in the order they were performed.
- Reply bodies: the source never reads them (it stops at the empty line), and neither does the model; a body left in the reader is read as the next response's lines, which `Response.Session` models.
- `Idle` (atvlib.go:148-155): a blocking read that panics on anything but EOF.
- Logging throughout `atvlib.go`.
- The command-line programs `atvplay/main.go`, `atvplay/web.go` and `play/main.go`: flag parsing, temporary directories, symlinks, a file server and signal handling.
