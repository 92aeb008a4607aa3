/**
  The response half of the wire codec: how `perform` reads the device's
  answer line by line from the link's buffered reader and decides between
  success and failure.

  The reader is a finite sequence of `ReadLine` results; once it is used
  up, every further read reports end of stream, as a closed connection does.
 */
module Response {
  import opened Octets
  import opened Headers
  import opened Codec

  datatype ReadErr = EOF | IoError(detail: string)

  /** One `ReadLine` result: a line without its line end, with the `isPrefix` flag set when the line did not fit the buffer, or an error. */
  datatype ReadResult = Line(data: Bytes, prefix: bool) | Err(err: ReadErr)

  type Reader = seq<ReadResult>

  /** The error values `perform` can return from its read loop. */
  datatype Failure =
    | ReadFailed(err: ReadErr)   // the reader's own error, returned as is
    | Truncated                  // a line longer than the reader's buffer
    | BadStatus(line: Bytes)     // the status line was rejected; the message is the line
    | NoStatusLine               // the loop's own check for an empty status line

  datatype Outcome = Ok | Fail(failure: Failure)

  const SWITCHING: Bytes := Ascii("HTTP/1.1 101")
  const SUCCESS: Bytes := Ascii("HTTP/1.1 2")

  /** The `i`th read from the reader. */
  function Next(rs: Reader, i: nat): ReadResult
  {
    if i < |rs| then rs[i] else Err(EOF)
  }

  /** Whether the status line is let through: a 2xx status always, and a 101 status for an operation that asks to upgrade. */
  predicate StatusAccepted(header: Header, line: Bytes)
    ensures StatusAccepted(header, line) ==> |line| >= |SUCCESS|
    ensures !HasUpgrade(header) ==> (StatusAccepted(header, line) <==> HasPrefix(line, SUCCESS))
  {
    (HasUpgrade(header) && HasPrefix(line, SWITCHING)) || HasPrefix(line, SUCCESS)
  }

  /**
    Reading the header lines from read `i` on: they are skipped unread up to
    the empty line, which ends the response successfully. Only the reader
    can make this fail.
   */
  function Drain(rs: Reader, i: nat): (r: Outcome)
    ensures r.Fail? ==> r.failure.ReadFailed? || r.failure.Truncated?
    decreases |rs| - i
  {
    if i >= |rs| then Fail(ReadFailed(EOF))
    else match rs[i]
      case Err(e) => Fail(ReadFailed(e))
      case Line(line, prefix) =>
        if prefix then Fail(Truncated)
        else if line == [] then Ok
        else Drain(rs, i + 1)
  }

  /** The reference reading of a response to `op`: the status line, then the header lines. */
  function Decode(op: Op, rs: Reader): (r: Outcome)
    ensures r != Fail(NoStatusLine)
    ensures r.Fail? && r.failure.BadStatus? ==>
      |rs| >= 1 && rs[0] == Line(r.failure.line, false) && !StatusAccepted(op.header, r.failure.line)
    ensures r == Ok ==> |rs| >= 2 && rs[0].Line? && StatusAccepted(op.header, rs[0].data)
  {
    match Next(rs, 0)
    case Err(e) => Fail(ReadFailed(e))
    case Line(line, prefix) =>
      if prefix then Fail(Truncated)
      else if !StatusAccepted(op.header, line) then Fail(BadStatus(line))
      else Drain(rs, 1)
  }

  /**
    How many reads the header loop has made when it returns, starting at
    read `i`. A read at the end of the reader is the one that reports
    end of stream.
   */
  function DrainReads(rs: Reader, i: nat): (n: nat)
    requires 1 <= i <= |rs|
    ensures i < n <= |rs| + 1
    decreases |rs| - i
  {
    if i == |rs| then i + 1
    else match rs[i]
      case Err(_) => i + 1
      case Line(line, prefix) =>
        if prefix || line == [] then i + 1 else DrainReads(rs, i + 1)
  }

  /**
    How many reads `perform` makes from the link's reader for one response.
    The reader is shared by every request of the link, so the next request's
    response starts right after them.
   */
  function DecodeReads(op: Op, rs: Reader): (n: nat)
    ensures 1 <= n <= |rs| + 1
  {
    if |rs| == 0 then 1
    else match rs[0]
      case Err(_) => 1
      case Line(line, prefix) =>
        if prefix || !StatusAccepted(op.header, line) then 1
        else DrainReads(rs, 1)
  }

  /** What is left in the reader after `n` reads. */
  function After(rs: Reader, n: nat): Reader
  {
    if n <= |rs| then rs[n..] else []
  }

  /**
    The read loop of `perform` (atvlib.go, lines 108 to 135) as the source
    writes it, with its `first` flag and its check for an empty status
    line. That check can never fire: the last postcondition says so.
   */
  method ReadResponse(op: Op, rs: Reader) returns (r: Outcome, count: nat)
    ensures r == Decode(op, rs)
    ensures count == DecodeReads(op, rs)
    ensures r != Fail(NoStatusLine)
  {
    var first := true;
    var i: nat := 0;
    while true
      invariant i <= |rs|
      invariant first <==> i == 0
      invariant !first ==> rs[0].Line? && !rs[0].prefix && StatusAccepted(op.header, rs[0].data)
      invariant !first ==> Decode(op, rs) == Drain(rs, i)
      invariant !first ==> 1 <= i && DecodeReads(op, rs) == DrainReads(rs, i)
      decreases |rs| - i
    {
      var read := Next(rs, i);
      i := i + 1;
      match read
      case Err(e) =>
        r, count := Fail(ReadFailed(e)), i;
        return;
      case Line(line, prefix) =>
        if prefix {
          r, count := Fail(Truncated), i;
          return;
        }
        if first {
          if HasUpgrade(op.header) && HasPrefix(line, SWITCHING) {
            // the reverse handshake's 101 is let through
          } else if !HasPrefix(line, SUCCESS) {
            r, count := Fail(BadStatus(line)), i;
            return;
          }
          first := false;
        }
        if |line| == 0 {
          if first {
            r, count := Fail(NoStatusLine), i;
            return;
          }
          r, count := Ok, i;
          return;
        }
    }
  }

  /** `perform` (atvlib.go, lines 88 to 136): write the request, then read the response. */
  method Perform(op: Op, writeHeader: Header -> Bytes, rs: Reader) returns (sent: Bytes, r: Outcome, rest: Reader)
    requires PERCENT !in op.target
    ensures sent == Encode(op, writeHeader)
    ensures r == Decode(op, rs)
    ensures rest == After(rs, DecodeReads(op, rs))
  {
    sent := Encode(op, writeHeader);
    var count;
    r, count := ReadResponse(op, rs);
    rest := After(rs, count);
  }

  // ----- what a successful response looks like -----

  /** Reads `i` to `k` are whole lines, all non-empty except read `k`, which is empty. */
  ghost predicate DrainsTo(rs: Reader, i: nat, k: nat)
  {
    && i <= k < |rs|
    && (forall j :: i <= j <= k ==> rs[j].Line? && !rs[j].prefix)
    && (forall j :: i <= j < k ==> rs[j].data != [])
    && rs[k].data == []
  }

  /** A response to `op` that ends at read `k`: an accepted status line, header lines, and the empty line at `k`. */
  ghost predicate Framed(op: Op, rs: Reader, k: nat)
  {
    && 1 <= k
    && |rs| >= 1
    && rs[0].Line? && !rs[0].prefix
    && StatusAccepted(op.header, rs[0].data)
    && DrainsTo(rs, 1, k)
  }

  lemma {:induction false} DrainOkIff(rs: Reader, i: nat)
    ensures Drain(rs, i) == Ok <==> exists k :: DrainsTo(rs, i, k)
    decreases |rs| - i
  {
    if i < |rs| && rs[i].Line? && !rs[i].prefix {
      if rs[i].data == [] {
        assert DrainsTo(rs, i, i);
      } else {
        DrainOkIff(rs, i + 1);
        if Drain(rs, i) == Ok {
          var k :| DrainsTo(rs, i + 1, k);
          assert DrainsTo(rs, i, k);
        }
        if exists k :: DrainsTo(rs, i, k) {
          var k :| DrainsTo(rs, i, k);
          assert DrainsTo(rs, i + 1, k);
        }
      }
    }
  }

  /** A response succeeds exactly when it is an accepted status line, header lines and an empty line, all read whole. */
  lemma DecodeOkIff(op: Op, rs: Reader)
    ensures Decode(op, rs) == Ok <==> exists k :: Framed(op, rs, k)
  {
    DrainOkIff(rs, 1);
    if Decode(op, rs) == Ok {
      var k :| DrainsTo(rs, 1, k);
      assert Framed(op, rs, k);
    }
  }

  lemma {:induction false} DrainFailsAt(rs: Reader, i: nat, j: nat)
    requires i <= j < |rs|
    requires rs[j].Err? || rs[j].prefix
    requires forall m :: i <= m < j ==> !(rs[m].Line? && !rs[m].prefix && rs[m].data == [])
    ensures Drain(rs, i).Fail?
    decreases j - i
  {
    if i < j && rs[i].Line? && !rs[i].prefix {
      DrainFailsAt(rs, i + 1, j);
    }
  }

  /** A reader error or an overlong line before any empty line fails the response, wherever it comes. */
  lemma ReadProblemFails(op: Op, rs: Reader, j: nat)
    requires j < |rs|
    requires rs[j].Err? || rs[j].prefix
    requires forall m :: 1 <= m < j ==> !(rs[m].Line? && !rs[m].prefix && rs[m].data == [])
    ensures Decode(op, rs).Fail?
  {
    if j > 0 && rs[0].Line? && !rs[0].prefix && StatusAccepted(op.header, rs[0].data) {
      DrainFailsAt(rs, 1, j);
    }
  }

  // ----- the decision is made by the lines read, and their shape only -----

  lemma {:induction false} DrainExtend(rs: Reader, i: nat, more: Reader)
    requires Drain(rs, i) != Fail(ReadFailed(EOF))
    ensures Drain(rs + more, i) == Drain(rs, i)
    decreases |rs| - i
  {
    if i < |rs| {
      assert (rs + more)[i] == rs[i];
      if rs[i].Line? && !rs[i].prefix && rs[i].data != [] {
        DrainExtend(rs, i + 1, more);
      }
    }
  }

  /** Unless the reader ran dry, what comes after the deciding line is never read: it belongs to the next exchange. */
  lemma DecodeIgnoresLaterReads(op: Op, rs: Reader, more: Reader)
    requires Decode(op, rs) != Fail(ReadFailed(EOF))
    ensures Decode(op, rs + more) == Decode(op, rs)
  {
    if |rs| > 0 {
      assert (rs + more)[0] == rs[0];
      if rs[0].Line? && !rs[0].prefix && StatusAccepted(op.header, rs[0].data) {
        DrainExtend(rs, 1, more);
      }
    }
  }

  /** Two reads look the same to the header loop when they differ at most in the text of non-empty lines. */
  predicate SameShape(a: ReadResult, b: ReadResult)
  {
    match a
    case Err(e) => b == Err(e)
    case Line(x, p) => b.Line? && b.prefix == p && (x == []) == (b.data == [])
  }

  lemma {:induction false} DrainShape(rs: Reader, rs': Reader, i: nat)
    requires |rs| == |rs'|
    requires forall j :: i <= j < |rs| ==> SameShape(rs[j], rs'[j])
    ensures Drain(rs, i) == Drain(rs', i)
    decreases |rs| - i
  {
    if i < |rs| {
      assert SameShape(rs[i], rs'[i]);
      if rs[i].Line? && !rs[i].prefix && rs[i].data != [] {
        DrainShape(rs, rs', i + 1);
      }
    }
  }

  /** Header lines are skipped without being inspected: changing their text changes nothing. */
  lemma HeaderLinesUninspected(op: Op, rs: Reader, rs': Reader)
    requires |rs| == |rs'| >= 1
    requires rs[0] == rs'[0]
    requires forall j :: 1 <= j < |rs| ==> SameShape(rs[j], rs'[j])
    ensures Decode(op, rs) == Decode(op, rs')
  {
    DrainShape(rs, rs', 1);
  }

  // ----- the status line -----

  /** The status line is rejected, with itself as the message, exactly when it is not accepted. */
  lemma StatusRejectedIff(op: Op, line: Bytes, rest: Reader)
    ensures Decode(op, [Line(line, false)] + rest) == Fail(BadStatus(line))
      <==> !StatusAccepted(op.header, line)
  {
    var rs := [Line(line, false)] + rest;
    assert rs[0] == Line(line, false);
    if StatusAccepted(op.header, line) {
      var r := Drain(rs, 1);
      assert r.Fail? ==> r.failure.ReadFailed? || r.failure.Truncated?;
    }
  }

  /** A 101 line is not a 2xx line. */
  lemma SwitchingIsNotSuccess(line: Bytes)
    requires HasPrefix(line, SWITCHING)
    ensures !HasPrefix(line, SUCCESS)
  {
    assert line[9] == SWITCHING[9] == 49;
    assert SUCCESS[9] == 50;
  }

  /** Without an Upgrade header a 101 status is an ordinary rejection. */
  lemma SwitchingRejectedWithoutUpgrade(op: Op, line: Bytes, rest: Reader)
    requires !HasUpgrade(op.header)
    requires HasPrefix(line, SWITCHING)
    ensures Decode(op, [Line(line, false)] + rest) == Fail(BadStatus(line))
  {
    SwitchingIsNotSuccess(line);
    StatusRejectedIff(op, line, rest);
  }

  /** With an Upgrade header a 101 status and a 2xx status are both accepted: an empty line then ends the response well. */
  lemma UpgradeAccepts(op: Op, line: Bytes, rest: Reader)
    requires HasUpgrade(op.header)
    requires HasPrefix(line, SWITCHING) || HasPrefix(line, SUCCESS)
    ensures Decode(op, [Line(line, false), Line([], false)] + rest) == Ok
  {
    var rs := [Line(line, false), Line([], false)] + rest;
    assert rs[0] == Line(line, false) && rs[1] == Line([], false);
  }

  /** An empty first line fails as a rejected status line with an empty message. */
  lemma EmptyStatusLineRejected(op: Op, rest: Reader)
    ensures Decode(op, [Line([], false)] + rest) == Fail(BadStatus([]))
  {
    assert |SUCCESS| == 10 && |SWITCHING| == 12;
    StatusRejectedIff(op, [], rest);
  }

  // ----- one reader for the whole link -----

  /** Reads `i` to `k` being a drained header block, the loop stops right after read `k`. */
  lemma {:induction false} DrainReadsTo(rs: Reader, i: nat, k: nat)
    requires 1 <= i
    requires DrainsTo(rs, i, k)
    ensures DrainReads(rs, i) == k + 1
    decreases k - i
  {
    if i < k {
      assert rs[i].data != [];
      DrainReadsTo(rs, i + 1, k);
    }
  }

  /** A successful response is consumed exactly up to and including its empty line. */
  lemma SuccessConsumesResponse(op: Op, rs: Reader, k: nat)
    requires Framed(op, rs, k)
    ensures Decode(op, rs) == Ok
    ensures DecodeReads(op, rs) == k + 1
  {
    DrainReadsTo(rs, 1, k);
    DecodeOkIff(op, rs);
  }

  /** A rejected status line is the only read: the rest of that response stays in the reader. */
  lemma RejectionLeavesResponseUnread(op: Op, line: Bytes, rest: Reader)
    requires !StatusAccepted(op.header, line)
    ensures Decode(op, [Line(line, false)] + rest) == Fail(BadStatus(line))
    ensures After([Line(line, false)] + rest, DecodeReads(op, [Line(line, false)] + rest)) == rest
  {
    var rs := [Line(line, false)] + rest;
    assert rs[0] == Line(line, false);
    assert rs[1..] == rest;
  }

  /**
    The requests of one link performed in turn, as the dispatcher serves
    them, over the link's single reader: each response is read from where
    the previous one stopped.
   */
  function Session(ops: seq<Op>, rs: Reader): (outs: seq<Outcome>)
    ensures |outs| == |ops|
    ensures ops != [] ==> outs[0] == Decode(ops[0], rs)
    ensures forall j :: 0 <= j < |outs| ==> outs[j] != Fail(NoStatusLine)
    decreases |ops|
  {
    if ops == [] then []
    else [Decode(ops[0], rs)] + Session(ops[1..], After(rs, DecodeReads(ops[0], rs)))
  }

  /**
    After a rejected status line the unread header lines of that response
    become the next request's status line: a 404 with a Content-Length line
    makes the following request fail on "Content-Length: 0", whatever the
    device answers to it.
   */
  lemma RejectedResponseDesynchronises(op1: Op, op2: Op, reply2: Reader)
    requires !HasUpgrade(op1.header) && !HasUpgrade(op2.header)
    ensures var notFound := Ascii("HTTP/1.1 404 Not Found");
      var leftover := Ascii("Content-Length: 0");
      Session([op1, op2], [Line(notFound, false), Line(leftover, false), Line([], false)] + reply2)
        == [Fail(BadStatus(notFound)), Fail(BadStatus(leftover))]
  {
    var notFound := Ascii("HTTP/1.1 404 Not Found");
    var leftover := Ascii("Content-Length: 0");
    var rs := [Line(notFound, false), Line(leftover, false), Line([], false)] + reply2;
    assert notFound[9] != SUCCESS[9];
    assert leftover[0] != SUCCESS[0];
    RejectionLeavesResponseUnread(op1, notFound, rs[1..]);
    assert [Line(notFound, false)] + rs[1..] == rs;
    var rest := rs[1..];
    assert rest == [Line(leftover, false)] + rest[1..];
    RejectionLeavesResponseUnread(op2, leftover, rest[1..]);
    assert [op1, op2][1..] == [op2];
    assert Session([op2], rest) == [Decode(op2, rest)] + Session([], After(rest, DecodeReads(op2, rest)));
  }

  /** After a successful response the session carries on from the line after its empty line. */
  lemma SessionAfterSuccess(op: Op, ops: seq<Op>, rs: Reader, k: nat)
    requires Framed(op, rs, k)
    ensures Session([op] + ops, rs) == [Ok] + Session(ops, rs[k + 1..])
  {
    SuccessConsumesResponse(op, rs, k);
    assert ([op] + ops)[1..] == ops;
  }

  /** After a rejected status line the session carries on from the very next line. */
  lemma SessionAfterRejection(op: Op, ops: seq<Op>, line: Bytes, rest: Reader)
    requires !StatusAccepted(op.header, line)
    ensures Session([op] + ops, [Line(line, false)] + rest) == [Fail(BadStatus(line))] + Session(ops, rest)
  {
    RejectionLeavesResponseUnread(op, line, rest);
    assert ([op] + ops)[1..] == ops;
  }
}
