/**
  The request half of the wire codec: how `perform` writes one operation
  onto the connection, and how the device at the other end reads the part of
  that request the link itself frames (the Content-Length line, the fixed
  User-Agent line, the blank line and the body).
 */
module Codec {
  import opened Wrappers
  import opened Octets
  import opened Headers

  const USERAGENT: Bytes := Ascii("MediaControl/1.0")

  /** '%': a target containing it would be read as a format verb. */
  const PERCENT: byte := 37

  /** One control request: an endpoint such as "/play", optional headers and an optional body (nil or a byte slice). */
  datatype Op = Op(target: Bytes, header: Header, content: Option<Bytes>)

  /** The body a request carries; a nil body has length 0. */
  function Payload(content: Option<Bytes>): Bytes
  {
    match content
    case None => []
    case Some(b) => b
  }

  /** `POST <target> HTTP/1.1` and its line end. */
  function RequestLine(target: Bytes): Bytes
  {
    Ascii("POST ") + target + Ascii(" HTTP/1.1\r\n")
  }

  const CONTENT_LENGTH: Bytes := Ascii("Content-Length: ")

  /** What follows the length digits: the end of that line, the User-Agent line and the blank line. */
  const FIXED_TAIL: Bytes := Ascii("\r\nUser-Agent: ") + USERAGENT + END_OF_HEADERS

  /** The last header line's end and the blank line after it. */
  const END_OF_HEADERS: Bytes := Ascii("\r\n\r\n")

  /** The two header lines `perform` always appends, and the blank line. */
  function Trailer(n: nat): Bytes
  {
    CONTENT_LENGTH + Decimal(n) + FIXED_TAIL
  }

  /** What the device learns from the tail of a request. */
  datatype Tail = Tail(length: nat, body: Bytes, rest: Bytes)

  /**
    The device's reading of the bytes after the caller's header block:
    a Content-Length line with a canonical numeral, the User-Agent line,
    the blank line, and then exactly that many octets of body. Whatever
    follows is left for the next request.
   */
  function ParseTail(t: Bytes): (r: Option<Tail>)
    ensures r.Some? ==> |r.value.body| == r.value.length
  {
    match StripPrefix(t, CONTENT_LENGTH)
    case None => None
    case Some(s) =>
      match ParseNumeral(s)
      case None => None
      case Some((n, after)) =>
        match StripPrefix(after, FIXED_TAIL)
        case None => None
        case Some(b) => if |b| < n then None else Some(Tail(n, b[..n], b[n..]))
  }

  /** Regrouping a five-part concatenation. */
  lemma ConcatRegroup(a: Bytes, b: Bytes, c: Bytes, d: Bytes, e: Bytes)
    ensures a + b + c + d + e == a + (b + (c + (d + e)))
  {
  }

  /** The device reads back the length and body the link framed, and nothing more. */
  lemma TailRoundTrip(body: Bytes, rest: Bytes)
    ensures ParseTail(Trailer(|body|) + body + rest) == Some(Tail(|body|, body, rest))
  {
    var n := |body|;
    var b := body + rest;
    var after := FIXED_TAIL + b;
    ConcatRegroup(CONTENT_LENGTH, Decimal(n), FIXED_TAIL, body, rest);
    StripConcat(CONTENT_LENGTH, Decimal(n) + after);
    assert after[0] == FIXED_TAIL[0] == 13;
    NumeralRoundTrip(n, after);
    StripConcat(FIXED_TAIL, b);
    assert b[..n] == body && b[n..] == rest;
  }

  /** Conversely, every tail the device accepts is exactly one the link could have framed. */
  lemma ParseTailSound(t: Bytes)
    requires ParseTail(t).Some?
    ensures var r := ParseTail(t).value;
      t == Trailer(r.length) + r.body + r.rest
  {
    var s := StripPrefix(t, CONTENT_LENGTH).value;
    StripSound(t, CONTENT_LENGTH);
    var (n, after) := ParseNumeral(s).value;
    NumeralSound(s);
    var b := StripPrefix(after, FIXED_TAIL).value;
    StripSound(after, FIXED_TAIL);
    var r := ParseTail(t).value;
    assert r == Tail(n, b[..n], b[n..]);
    assert b == r.body + r.rest;
    ConcatRegroup(CONTENT_LENGTH, Decimal(n), FIXED_TAIL, r.body, r.rest);
  }

  /**
    The bytes `perform` writes for `op` (atvlib.go, lines 90 to 103).
    `writeHeader` stands for net/http's `Header.Write`, which sorts and
    sanitises and is not part of this model.
   */
  function Encode(op: Op, writeHeader: Header -> Bytes): (wire: Bytes)
    requires PERCENT !in op.target
    ensures RequestLine(op.target) + writeHeader(op.header) <= wire
    ensures ParseTail(wire[|RequestLine(op.target) + writeHeader(op.header)|..])
      == Some(Tail(|Payload(op.content)|, Payload(op.content), []))
  {
    var head := RequestLine(op.target) + writeHeader(op.header);
    var body := if op.content != None then op.content.value else [];
    var wire := head + Trailer(|Payload(op.content)|) + body;
    assert wire[|head|..] == Trailer(|body|) + body + [];
    TailRoundTrip(body, []);
    wire
  }

  /** A nil body and an empty body put the same bytes on the wire. */
  lemma NilBodyEncodesAsEmpty(target: Bytes, header: Header, writeHeader: Header -> Bytes)
    requires PERCENT !in target
    ensures Encode(Op(target, header, None), writeHeader) == Encode(Op(target, header, Some([])), writeHeader)
  {
  }

  /** A request with a body ends in exactly that body. */
  lemma EncodeEndsWithBody(op: Op, writeHeader: Header -> Bytes)
    requires PERCENT !in op.target
    requires op.content.Some?
    ensures HasSuffix(Encode(op, writeHeader), op.content.value)
  {
    var wire := Encode(op, writeHeader);
    var lead := RequestLine(op.target) + writeHeader(op.header) + Trailer(|op.content.value|);
    assert wire == lead + op.content.value;
    assert wire[|lead|..] == op.content.value;
  }

  /** A request without a body ends in the blank line that closes its headers. */
  lemma EncodeNilEndsWithBlankLine(op: Op, writeHeader: Header -> Bytes)
    requires PERCENT !in op.target
    requires op.content.None?
    ensures HasSuffix(Encode(op, writeHeader), END_OF_HEADERS)
  {
    var head := RequestLine(op.target) + writeHeader(op.header);
    SuffixOfConcat(Ascii("\r\nUser-Agent: ") + USERAGENT, END_OF_HEADERS);
    SuffixCarries(CONTENT_LENGTH + Decimal(0), FIXED_TAIL, END_OF_HEADERS);
    SuffixCarries(head, Trailer(0), END_OF_HEADERS);
    assert Encode(op, writeHeader) == head + Trailer(0);
  }

  lemma SuffixOfConcat(a: Bytes, b: Bytes)
    ensures HasSuffix(a + b, b)
  {
    assert (a + b)[|a|..] == b;
  }

  lemma SuffixCarries(a: Bytes, b: Bytes, c: Bytes)
    requires HasSuffix(b, c)
    ensures HasSuffix(a + b, c)
  {
    assert (a + b)[|a + b| - |c|..] == b[|b| - |c|..];
  }
}
