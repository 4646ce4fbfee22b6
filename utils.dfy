/** The response writer: the header text of send_response and
    send_simple_response, and the socket they send on. */
module Utils {
  import opened Strings

  // ---------------------------------------------------------------------
  // Header text

  /** The header block of a response with a body of bodyLength bytes. */
  function FullHeader(status: string, contentType: string, bodyLength: nat): string {
    "HTTP/1.1 " + status + "\r\n"
    + "Content-Type: " + contentType + "\r\n"
    + "Content-Length: " + NatToString(bodyLength) + "\r\n"
    + "Connection: close\r\n\r\n"
  }

  /** The header block of a response without a body. */
  function SimpleHeader(status: string, contentType: string): string {
    "HTTP/1.1 " + status + "\r\n"
    + "Content-Type: " + contentType + "\r\n"
    + "Content-Length: 0\r\n"
    + "Connection: close\r\n\r\n"
  }

  /** The send calls of a full response: the header, then the body. */
  function ResponseSends(status: string, contentType: string, body: seq<char>): seq<seq<char>> {
    [FullHeader(status, contentType, |body|), body]
  }

  // ---------------------------------------------------------------------
  // Reading a header back

  datatype Header = Header(status: string, contentType: string, contentLength: nat)

  predicate StartsWith(s: string, p: string) {
    |p| <= |s| && s[..|p|] == p
  }

  /** The text before the first CRLF of s, and the text after it. */
  function SplitLine(s: string): Option<(string, string)> {
    match Find(s, "\r\n")
    case None => None
    case Some(i) => Some((s[..i], s[i + 2..]))
  }

  /** Parses a header block of the shape the server writes. */
  function ParseHeader(h: string): Option<Header> {
    match SplitLine(h)
    case None => None
    case Some((statusLine, r1)) =>
      if !StartsWith(statusLine, "HTTP/1.1 ") then None else
      match SplitLine(r1)
      case None => None
      case Some((typeLine, r2)) =>
        if !StartsWith(typeLine, "Content-Type: ") then None else
        match SplitLine(r2)
        case None => None
        case Some((lengthLine, r3)) =>
          if !StartsWith(lengthLine, "Content-Length: ") then None else
          var digits := lengthLine[|"Content-Length: "|..];
          if digits == [] || !AllDigits(digits) || r3 != "Connection: close\r\n\r\n" then None
          else Some(Header(statusLine[|"HTTP/1.1 "|..], typeLine[|"Content-Type: "|..], DecimalValue(digits)))
  }

  lemma SplitLineAt(a: string, b: string)
    requires '\r' !in a
    ensures SplitLine(a + "\r\n" + b) == Some((a, b))
  {
    var s := a + "\r\n" + b;
    assert OccursAt(s, "\r\n", |a|);
    forall j | 0 <= j < |a| ensures !OccursAt(s, "\r\n", j) {
      assert s[j] == a[j];
    }
    var f := Find(s, "\r\n");
    assert f.Some?;
    assert f.value == |a|;
    assert s[..|a|] == a;
    assert s[|a| + 2..] == b;
  }

  /** The header is read back as the status, content type and length it
      was built from, provided neither text contains a carriage return. */
  lemma {:induction false} HeaderRoundTrip(status: string, contentType: string, n: nat)
    requires '\r' !in status && '\r' !in contentType
    ensures ParseHeader(FullHeader(status, contentType, n)) == Some(Header(status, contentType, n))
  {
    var l1 := "HTTP/1.1 " + status;
    var l2 := "Content-Type: " + contentType;
    var digits := NatToString(n);
    var l3 := "Content-Length: " + digits;
    var tail := "Connection: close\r\n\r\n";
    var r2 := l3 + "\r\n" + tail;
    var r1 := l2 + "\r\n" + r2;
    assert FullHeader(status, contentType, n) == l1 + "\r\n" + r1;
    assert '\r' !in l1 && '\r' !in l2 && '\r' !in l3;
    SplitLineAt(l1, r1);
    SplitLineAt(l2, r2);
    SplitLineAt(l3, tail);
    assert l1[..|"HTTP/1.1 "|] == "HTTP/1.1 " && l1[|"HTTP/1.1 "|..] == status;
    assert l2[..|"Content-Type: "|] == "Content-Type: " && l2[|"Content-Type: "|..] == contentType;
    assert l3[..|"Content-Length: "|] == "Content-Length: " && l3[|"Content-Length: "|..] == digits;
    DecimalRoundTrip(n);
  }

  /** Headers built for different lengths differ. */
  lemma FullHeaderDeterminesLength(status: string, contentType: string, m: nat, n: nat)
    requires '\r' !in status && '\r' !in contentType
    requires FullHeader(status, contentType, m) == FullHeader(status, contentType, n)
    ensures m == n
  {
    HeaderRoundTrip(status, contentType, m);
    HeaderRoundTrip(status, contentType, n);
  }

  /** Both header forms end in an empty line and declare Connection: close. */
  lemma HeadersCloseAndEndWithBlankLine(status: string, contentType: string, n: nat)
    ensures var h := FullHeader(status, contentType, n);
      |h| >= 23 && h[|h| - 23..] == "\r\nConnection: close\r\n\r\n"
    ensures var h := SimpleHeader(status, contentType);
      |h| >= 23 && h[|h| - 23..] == "\r\nConnection: close\r\n\r\n"
  {
    var h := FullHeader(status, contentType, n);
    var pre := "HTTP/1.1 " + status + "\r\n" + "Content-Type: " + contentType + "\r\n"
             + "Content-Length: " + NatToString(n);
    assert h == pre + "\r\nConnection: close\r\n\r\n";
    var g := SimpleHeader(status, contentType);
    var pre' := "HTTP/1.1 " + status + "\r\n" + "Content-Type: " + contentType + "\r\n"
              + "Content-Length: 0";
    assert g == pre' + "\r\nConnection: close\r\n\r\n";
  }

  /** The simple response header is the full header of an empty body. */
  lemma SimpleHeaderIsEmptyBodyHeader(status: string, contentType: string)
    ensures SimpleHeader(status, contentType) == FullHeader(status, contentType, 0)
  {
    assert NatToString(0) == "0";
  }

  // ---------------------------------------------------------------------
  // As written, the header goes through a SMALL_BUFFER array

  /** What happens to a header formatted into a char[SMALL_BUFFER]:
      snprintf stores at most SMALL_BUFFER - 1 characters, but returns,
      and send then transmits, the length of the whole header. */
  datatype BufferedSend = BufferedSend(stored: nat, requested: nat)

  function SendFromHeaderBuffer(smallBuffer: nat, header: string): (b: BufferedSend)
    requires smallBuffer >= 1
  {
    BufferedSend(Min(|header|, smallBuffer - 1), |header|)
  }

  /** As written, a header that fits is sent exactly, but one of
      SMALL_BUFFER characters or more makes send read past the buffer. */
  lemma HeaderOverRead(smallBuffer: nat)
    requires smallBuffer >= 1
    ensures forall h :: |h| < smallBuffer ==>
              SendFromHeaderBuffer(smallBuffer, h).requested == SendFromHeaderBuffer(smallBuffer, h).stored
    ensures exists status :: SendFromHeaderBuffer(smallBuffer, FullHeader(status, "text/plain", 0)).requested
                             > smallBuffer
  {
    var status := seq(smallBuffer, _ => 'x');
    assert |FullHeader(status, "text/plain", 0)| > smallBuffer;
  }

  /** As written, with the status and type a caller does pass: the 500
      reply's simple header is 102 characters, so with a SMALL_BUFFER of
      102 or less what send_simple_response sends is not the header (at
      exactly 102 the NUL goes out in place of the final '\n'), and with
      101 or less send reads past its array. */
  lemma ServerErrorOverRead(smallBuffer: nat)
    requires 1 <= smallBuffer <= 102
    ensures var b := SendFromHeaderBuffer(smallBuffer, SimpleHeader("500 Internal Server Error", "text/plain"));
            b.requested == 102 && b.stored < b.requested && (b.requested > smallBuffer <==> smallBuffer <= 101)
  {
  }

  // ---------------------------------------------------------------------
  // The socket

  /** The bytes the peer receives when the first `left` of `calls` send
      calls succeed and the rest fail. */
  function Delivered(calls: seq<seq<char>>, left: nat): seq<char> {
    Flatten(calls[..Min(left, |calls|)])
  }

  lemma DeliveredAppend(a: seq<seq<char>>, b: seq<seq<char>>, left: nat)
    ensures Delivered(a + b, left) == Delivered(a, left) + Delivered(b, left - Min(|a|, left))
  {
    if left >= |a| {
      assert (a + b)[..Min(left, |a| + |b|)] == a + b[..Min(left - |a|, |b|)];
      FlattenAppend(a, b[..Min(left - |a|, |b|)]);
      assert a[..Min(left, |a|)] == a;
    } else {
      assert (a + b)[..Min(left, |a| + |b|)] == a[..left];
      assert b[..Min(0, |b|)] == [];
    }
  }

  /** The bytes delivered so far, extended by one more send call. */
  lemma SentStep(prev: seq<char>, done: seq<seq<char>>, bytes: seq<char>, left: nat)
    ensures (prev + Delivered(done, left)) + Delivered([bytes], left - Min(|done|, left))
            == prev + Delivered(done + [bytes], left)
  {
    DeliveredAppend(done, [bytes], left);
    AppendAssoc(prev, Delivered(done, left), Delivered([bytes], left - Min(|done|, left)));
  }

  lemma DeliveredAll(calls: seq<seq<char>>, left: nat)
    requires left >= |calls|
    ensures Delivered(calls, left) == Flatten(calls)
  {
    assert calls[..Min(left, |calls|)] == calls;
  }

  /** A client socket. The peer accepts the next sendsLeft send calls and
      refuses every later one (once a send fails, the connection is broken
      for good). */
  class Connection {
    var sent: seq<char>     // the bytes the peer has received
    var sendsLeft: nat      // how many more send calls will succeed
    var sendCalls: nat      // how many send calls were made
    var closeCount: nat     // how many times the socket was closed

    constructor (accepts: nat)
      ensures sent == [] && sendsLeft == accepts && sendCalls == 0 && closeCount == 0
    {
      sent, sendsLeft, sendCalls, closeCount := [], accepts, 0, 0;
    }

    /** send(): the number of bytes sent, or -1 when the peer refuses. */
    method Send(bytes: seq<char>) returns (r: int)
      modifies this
      ensures r == if old(sendsLeft) > 0 then |bytes| else -1
      ensures sent == old(sent) + Delivered([bytes], old(sendsLeft))
      ensures sendsLeft == old(sendsLeft) - Min(1, old(sendsLeft))
      ensures sendCalls == old(sendCalls) + 1 && closeCount == old(closeCount)
    {
      sendCalls := sendCalls + 1;
      if sendsLeft > 0 {
        assert [bytes][..1] == [bytes];
        sent := sent + bytes;
        sendsLeft := sendsLeft - 1;
        r := |bytes|;
      } else {
        r := -1;
      }
    }

    /** close() */
    method Close()
      modifies this
      ensures closeCount == old(closeCount) + 1
      ensures sent == old(sent) && sendsLeft == old(sendsLeft) && sendCalls == old(sendCalls)
    {
      closeCount := closeCount + 1;
    }
  }

  /** send_response: the header, then (only if the header went out) the body. */
  method SendResponse(conn: Connection, status: string, contentType: string, body: seq<char>)
    modifies conn
    ensures conn.sent == old(conn.sent) + Delivered(ResponseSends(status, contentType, body), old(conn.sendsLeft))
    ensures conn.sendsLeft == old(conn.sendsLeft) - Min(2, old(conn.sendsLeft))
    ensures conn.sendCalls == old(conn.sendCalls) + (if old(conn.sendsLeft) == 0 then 1 else 2)
    ensures conn.closeCount == old(conn.closeCount)
  {
    var header := FullHeader(status, contentType, |body|);
    DeliveredAppend([header], [body], conn.sendsLeft);
    assert ResponseSends(status, contentType, body) == [header] + [body];
    var r := conn.Send(header);
    if r == -1 {
      return;
    }
    r := conn.Send(body);
  }

  /** send_simple_response: a header with Content-Length: 0 and no body. */
  method SendSimpleResponse(conn: Connection, status: string, contentType: string)
    modifies conn
    ensures conn.sent == old(conn.sent) + Delivered([SimpleHeader(status, contentType)], old(conn.sendsLeft))
    ensures conn.sendsLeft == old(conn.sendsLeft) - Min(1, old(conn.sendsLeft))
    ensures conn.sendCalls == old(conn.sendCalls) + 1 && conn.closeCount == old(conn.closeCount)
  {
    var r := conn.Send(SimpleHeader(status, contentType));
  }
}
