/** handle_client: one request read from the socket, split into its
    request line, routed, answered, and the socket closed. */
module HttpServer {
  import opened Strings
  import opened ServerConfig
  import opened Utils
  import opened RequestHandler

  /** What recv() gave: a failure, or at most BUFFER_SIZE - 1 bytes (none
      when the peer has closed). */
  datatype Received = RecvFailed | Received(data: seq<char>)

  datatype RequestLine = RequestLine(httpMethod: string, path: string, protocol: string)

  /** What handle_client does with a request. */
  datatype Action =
    | ServeStatic(path: string)
    | PostPing(body: string)
    | Reply(status: string)
    | Drop

  // ---------------------------------------------------------------------
  // sscanf(buffer, "%s %s %s", ...)

  /** isspace in the C locale. */
  predicate IsSpace(c: char) {
    c == ' ' || c == '\t' || c == '\n' || c == '\U{B}' || c == '\U{C}' || c == '\r'
  }

  predicate NoSpace(w: string) {
    forall k :: 0 <= k < |w| ==> !IsSpace(w[k])
  }

  /** The first position at or after i that is not white space. */
  function SkipSpace(s: string, i: nat): (r: nat)
    requires i <= |s|
    ensures i <= r <= |s|
    ensures r < |s| ==> !IsSpace(s[r])
    decreases |s| - i
  {
    if i == |s| || !IsSpace(s[i]) then i else SkipSpace(s, i + 1)
  }

  /** The first position at or after i that is white space: where a %s
      conversion starting at i stops. */
  function WordEnd(s: string, i: nat): (r: nat)
    requires i <= |s|
    ensures i <= r <= |s|
    ensures r < |s| ==> IsSpace(s[r])
    decreases |s| - i
  {
    if i == |s| || IsSpace(s[i]) then i else WordEnd(s, i + 1)
  }

  /** The words up to n successive %s conversions read from position i:
      each skips white space and takes the longest run of other
      characters; the scan stops at the end of the text. */
  function Scan(s: string, i: nat, n: nat): (r: seq<string>)
    requires i <= |s|
    ensures |r| <= n
    decreases n
  {
    var j := SkipSpace(s, i);
    if n == 0 || j == |s| then []
    else [s[j..WordEnd(s, j)]] + Scan(s, WordEnd(s, j), n - 1)
  }

  /** Everything SkipSpace passes over is white space. */
  lemma {:induction false} SkippedAreSpaces(s: string, i: nat)
    requires i <= |s|
    ensures forall k :: i <= k < SkipSpace(s, i) ==> IsSpace(s[k])
    decreases |s| - i
  {
    if i < |s| && IsSpace(s[i]) {
      SkippedAreSpaces(s, i + 1);
    }
  }

  /** A word runs up to WordEnd without white space. */
  lemma {:induction false} WordHasNoSpace(s: string, i: nat)
    requires i <= |s|
    ensures NoSpace(s[i..WordEnd(s, i)])
    decreases |s| - i
  {
    if i < |s| && !IsSpace(s[i]) {
      WordHasNoSpace(s, i + 1);
      assert s[i..WordEnd(s, i)] == [s[i]] + s[i + 1..WordEnd(s, i)];
    }
  }

  /** Every word read is non-empty and holds no white space. */
  lemma {:induction false} ScanYieldsWords(s: string, i: nat, n: nat)
    requires i <= |s|
    ensures forall k :: 0 <= k < |Scan(s, i, n)| ==> Scan(s, i, n)[k] != [] && NoSpace(Scan(s, i, n)[k])
    decreases n
  {
    var j := SkipSpace(s, i);
    if n > 0 && j < |s| {
      WordHasNoSpace(s, j);
      ScanYieldsWords(s, WordEnd(s, j), n - 1);
    }
  }

  lemma {:induction false} SkipSpaceShift(a: string, t: string, i: nat)
    requires i <= |t|
    ensures SkipSpace(a + t, |a| + i) == |a| + SkipSpace(t, i)
    decreases |t| - i
  {
    if i < |t| {
      assert (a + t)[|a| + i] == t[i];
      if IsSpace(t[i]) {
        SkipSpaceShift(a, t, i + 1);
      }
    }
  }

  lemma {:induction false} WordEndShift(a: string, t: string, i: nat)
    requires i <= |t|
    ensures WordEnd(a + t, |a| + i) == |a| + WordEnd(t, i)
    decreases |t| - i
  {
    if i < |t| {
      assert (a + t)[|a| + i] == t[i];
      if !IsSpace(t[i]) {
        WordEndShift(a, t, i + 1);
      }
    }
  }

  /** Scanning is unaffected by text before the starting point. */
  lemma {:induction false} ScanShift(a: string, t: string, i: nat, n: nat)
    requires i <= |t|
    ensures Scan(a + t, |a| + i, n) == Scan(t, i, n)
    decreases n
  {
    SkipSpaceShift(a, t, i);
    var j := SkipSpace(t, i);
    if n > 0 && j < |t| {
      WordEndShift(a, t, j);
      var e := WordEnd(t, j);
      SliceShift(a, t, j, e);
      ScanShift(a, t, e, n - 1);
    }
  }

  lemma SliceShift(a: string, t: string, j: nat, e: nat)
    requires j <= e <= |t|
    ensures (a + t)[|a| + j..|a| + e] == t[j..e]
  {
  }

  lemma {:induction false} WordEndInWord(w: string, t: string, k: nat)
    requires k <= |w| && NoSpace(w) && (t == [] || IsSpace(t[0]))
    ensures WordEnd(w + t, k) == |w|
    decreases |w| - k
  {
    var s := w + t;
    if k < |w| {
      assert s[k] == w[k];
      WordEndInWord(w, t, k + 1);
    } else if t != [] {
      assert s[k] == t[0];
    }
  }

  /** A word followed by white space (or nothing) is the next word read. */
  lemma ScanWord(w: string, t: string, n: nat)
    requires w != [] && NoSpace(w) && (t == [] || IsSpace(t[0]))
    ensures Scan(w + t, 0, n + 1) == [w] + Scan(t, 0, n)
  {
    var s := w + t;
    assert s[0] == w[0];
    WordEndInWord(w, t, 0);
    assert s[0..|w|] == w;
    ScanShift(w, t, 0, n);
  }

  /** A run of white space. */
  predicate AllSpace(w: string) {
    forall k :: 0 <= k < |w| ==> IsSpace(w[k])
  }

  /** Starting anywhere inside a leading run of white space, SkipSpace
      reaches the same position as from the end of the run. */
  lemma {:induction false} SkipSpacesFrom(ws: string, t: string, k: nat)
    requires k <= |ws| && AllSpace(ws)
    ensures SkipSpace(ws + t, k) == SkipSpace(ws + t, |ws|)
    decreases |ws| - k
  {
    if k < |ws| {
      assert (ws + t)[k] == ws[k];
      SkipSpacesFrom(ws, t, k + 1);
    }
  }

  /** Leading white space is skipped. */
  lemma ScanSpaces(ws: string, t: string, n: nat)
    requires AllSpace(ws)
    ensures Scan(ws + t, 0, n) == Scan(t, 0, n)
  {
    SkipSpacesFrom(ws, t, 0);
    assert Scan(ws + t, 0, n) == Scan(ws + t, |ws|, n);
    ScanShift(ws, t, 0, n);
  }

  /** The words of "m p v" (white space before and between the words,
      and white space or nothing after them) are m, p and v. */
  lemma ScanRequestLine(ws0: string, m: string, ws1: string, p: string, ws2: string, v: string, rest: string)
    requires AllSpace(ws0) && AllSpace(ws1) && AllSpace(ws2) && ws1 != [] && ws2 != []
    requires m != [] && p != [] && v != [] && NoSpace(m) && NoSpace(p) && NoSpace(v)
    requires rest == [] || IsSpace(rest[0])
    ensures Scan(ws0 + (m + (ws1 + (p + (ws2 + (v + rest))))), 0, 3) == [m, p, v]
  {
    ScanWord(v, rest, 0);
    ScanSpaces(ws2, v + rest, 1);
    assert (ws2 + (v + rest))[0] == ws2[0];
    ScanWord(p, ws2 + (v + rest), 1);
    ScanSpaces(ws1, p + (ws2 + (v + rest)), 2);
    assert (ws1 + (p + (ws2 + (v + rest))))[0] == ws1[0];
    ScanWord(m, ws1 + (p + (ws2 + (v + rest))), 2);
    ScanSpaces(ws0, m + (ws1 + (p + (ws2 + (v + rest)))), 3);
  }

  // ---------------------------------------------------------------------
  // As written, a missing word leaves the array as it was

  /** As written: sscanf fills method, path and protocol with the words it
      finds and leaves the arrays it never reaches untouched, and those
      arrays are not initialised, so a short request keeps whatever the
      stack held (`stale`). */
  function ParseAsWritten(request: string, stale: RequestLine): RequestLine {
    var words := Scan(request, 0, 3);
    RequestLine(if |words| >= 1 then words[0] else stale.httpMethod,
                if |words| >= 2 then words[1] else stale.path,
                if |words| >= 3 then words[2] else stale.protocol)
  }

  /** The request line as intended: a missing word reads as empty. */
  function ParseRequestLine(request: string): (line: RequestLine)
    ensures var words := Scan(request, 0, 3);
            && (|words| >= 1 ==> line.httpMethod == words[0])
            && (|words| >= 2 ==> line.path == words[1])
            && (|words| >= 3 ==> line.protocol == words[2])
    ensures |Scan(request, 0, 3)| < 3 ==> line.protocol == ""
    ensures |Scan(request, 0, 3)| < 2 ==> line.path == ""
    ensures |Scan(request, 0, 3)| < 1 ==> line.httpMethod == ""
  {
    ParseAsWritten(request, RequestLine("", "", ""))
  }

  // ---------------------------------------------------------------------
  // Routing

  /** The branch handle_client takes for a request line; request is the
      whole request as a C string. */
  function Route(line: RequestLine, request: string): (a: Action)
    ensures a != Drop
  {
    if EqualsIgnoreCase(line.httpMethod, "GET") then ServeStatic(line.path)
    else if EqualsIgnoreCase(line.httpMethod, "POST") && line.path == "/ping" then
      match Find(request, "\r\n\r\n")
      case Some(i) => PostPing(request[i + 4..])
      case None => Reply("400 Bad Request")
    else Reply("501 Not Implemented")
  }

  /** handle_client's decision for what recv() gave. The buffer is read as
      a C string: it ends at the first NUL. */
  function Dispatch(r: Received): Action {
    match r
    case RecvFailed => Drop
    case Received(data) =>
      var request := CStringOf(data);
      Route(ParseRequestLine(request), request)
  }

  /** The send calls made for an action. */
  function ActionSends(cfg: Config, fs: FileSystem, a: Action, listingAllocated: bool,
                       results: seq<ReadResult>): seq<seq<char>>
  {
    match a
    case Drop => []
    case ServeStatic(path) => StaticSends(cfg, fs, path, listingAllocated, results)
    case PostPing(_) => ResponseSends("200 OK", "application/json", PongBody)
    case Reply(status) => [SimpleHeader(status, "text/plain")]
  }

  // ---------------------------------------------------------------------
  // Properties of routing

  /** The three branches, and exactly when each is taken. */
  lemma RouteBranches(line: RequestLine, request: string)
    ensures Route(line, request).ServeStatic? <==> EqualsIgnoreCase(line.httpMethod, "GET")
    ensures Route(line, request).ServeStatic? ==> Route(line, request).path == line.path
    ensures (Route(line, request).PostPing? || Route(line, request) == Reply("400 Bad Request"))
            <==> !EqualsIgnoreCase(line.httpMethod, "GET") && EqualsIgnoreCase(line.httpMethod, "POST")
                 && line.path == "/ping"
    ensures Route(line, request) == Reply("400 Bad Request")
            <==> !EqualsIgnoreCase(line.httpMethod, "GET") && EqualsIgnoreCase(line.httpMethod, "POST")
                 && line.path == "/ping" && !Contains(request, "\r\n\r\n")
    ensures Route(line, request) == Reply("501 Not Implemented")
            <==> !EqualsIgnoreCase(line.httpMethod, "GET")
                 && !(EqualsIgnoreCase(line.httpMethod, "POST") && line.path == "/ping")
  {
  }

  /** Each spelling of POST is none of GET. */
  lemma PostIsNotGet(m: string)
    requires EqualsIgnoreCase(m, "POST")
    ensures !EqualsIgnoreCase(m, "GET")
  {
    assert LowerString("POST") == "post";
    assert LowerString("GET") == "get";
  }

  /** The ping body is what follows the first blank line, whatever header
      lines come before it and however POST is spelt. */
  lemma PingBodyFollowsBlankLine(m: string, head: string, body: string, v: string)
    requires EqualsIgnoreCase(m, "POST")
    requires forall j :: 0 <= j < |head| ==> !OccursAt(head + "\r\n\r\n" + body, "\r\n\r\n", j)
    ensures Route(RequestLine(m, "/ping", v), head + "\r\n\r\n" + body) == PostPing(body)
  {
    var request := head + "\r\n\r\n" + body;
    assert OccursAt(request, "\r\n\r\n", |head|);
    assert Find(request, "\r\n\r\n") == Some(|head|);
    assert request[|head| + 4..] == body;
    PostIsNotGet(m);
  }

  /** A request with a request line and a header line: its body is what
      follows the blank line after the header. */
  lemma PingWithHeaderLine(body: string)
    ensures Route(RequestLine("post", "/ping", "HTTP/1.1"),
                  "post /ping HTTP/1.1\r\nHost: x\r\n\r\n" + body) == PostPing(body)
  {
    var line1 := "post /ping HTTP/1.1";
    var line2 := "Host: x";
    var head := line1 + "\r\n" + line2;
    var request := head + "\r\n\r\n" + body;
    assert request == "post /ping HTTP/1.1\r\nHost: x\r\n\r\n" + body;
    assert '\r' !in line1 && '\r' !in line2;
    forall j | 0 <= j < |head| ensures !OccursAt(request, "\r\n\r\n", j) {
      if j < |line1| {
        assert request[j] == line1[j];
      } else if j == |line1| {
        assert request[j + 2] == line2[0];
      } else if j == |line1| + 1 {
        assert request[j] == '\n';
      } else {
        assert request[j] == line2[j - |line1| - 2];
      }
    }
    assert LowerString("post") == "post";
    PingBodyFollowsBlankLine("post", head, body, "HTTP/1.1");
  }

  /** A POST to /ping, however spelt, without a blank line is a bad request. */
  lemma PingWithoutBlankLine(m: string, v: string, request: string)
    requires EqualsIgnoreCase(m, "POST")
    requires !Contains(request, "\r\n\r\n")
    ensures Route(RequestLine(m, "/ping", v), request) == Reply("400 Bad Request")
  {
    PostIsNotGet(m);
  }

  /** The method is matched ignoring case; the path is matched exactly. */
  lemma MethodIgnoresCase(line: RequestLine, request: string)
    ensures Route(RequestLine("get", line.path, line.protocol), request) == ServeStatic(line.path)
    ensures Route(RequestLine("post", "/PING", line.protocol), request) == Reply("501 Not Implemented")
  {
    assert LowerString("get") == "get" == LowerString("GET");
    assert LowerString("post") == "post" == LowerString("POST");
    assert LowerString("GET") == "get";
  }

  /** A GET request line routes to the static handler for its path, and
      only the part of the buffer before a NUL counts. */
  lemma GetServesPath(m: string, p: string, v: string, rest: string, tail: seq<char>)
    requires EqualsIgnoreCase(m, "GET")
    requires m != [] && p != [] && v != [] && NoSpace(m) && NoSpace(p) && NoSpace(v)
    requires rest == [] || IsSpace(rest[0])
    requires '\0' !in m + (" " + (p + (" " + (v + rest))))
    ensures Dispatch(Received(m + (" " + (p + (" " + (v + rest)))))) == ServeStatic(p)
    ensures Dispatch(Received(m + (" " + (p + (" " + (v + rest)))) + ['\0'] + tail)) == ServeStatic(p)
  {
    var line := m + (" " + (p + (" " + (v + rest))));
    CStringOfTerminated(line, tail);
    CStringOfNulFree(line);
    assert [] + line == line;
    ScanRequestLine([], m, " ", p, " ", v, rest);
  }

  /** Whatever follows the first NUL in the buffer is ignored. */
  lemma BytesAfterNulIgnored(a: seq<char>, t: seq<char>)
    ensures Dispatch(Received(a + ['\0'] + t)) == Dispatch(Received(a))
  {
    CStringOfTerminated(a, t);
    CStringOfTerminated(a, []);
    assert a + ['\0'] + [] == a + ['\0'];
    assert CStringOf(a + ['\0']) == CStringOf(a);
  }

  /** Nothing is sent exactly when recv() fails: every request gets a
      response. */
  lemma SilentOnlyOnFailedReceive(cfg: Config, fs: FileSystem, r: Received, a: bool, results: seq<ReadResult>)
    ensures ActionSends(cfg, fs, Dispatch(r), a, results) == [] <==> r.RecvFailed?
  {
    if r.Received? {
      var act := Dispatch(r);
      if act.ServeStatic? {
        StaticAlwaysResponds(cfg, fs, act.path, a, results);
      }
    }
  }

  /** A request with fewer than three words reads the missing ones as
      empty; one with no words at all is not implemented. */
  lemma EmptyRequestNotImplemented(request: string)
    requires Scan(request, 0, 3) == []
    ensures ParseRequestLine(request) == RequestLine("", "", "")
    ensures Route(ParseRequestLine(request), request) == Reply("501 Not Implemented")
  {
  }

  /** As written, the same empty request is served from whatever path a
      previous use of the stack left behind, or refused, depending only on
      that stale content. */
  lemma StaleWordsDecide()
    ensures Scan("", 0, 3) == []
    ensures Route(ParseAsWritten("", RequestLine("GET", "/private", "HTTP/1.1")), "") == ServeStatic("/private")
    ensures Route(ParseAsWritten("", RequestLine("", "", "")), "") == Reply("501 Not Implemented")
  {
    assert LowerString("GET") == "get";
  }

  // ---------------------------------------------------------------------
  // handle_client

  /** handle_client after the connection was accepted: receive into a
      BUFFER_SIZE array, NUL-terminate, route, answer, close. */
  method HandleClient(cfg: Config, conn: Connection, r: Received, fs: FileSystem,
                      listingAllocated: bool, results: seq<ReadResult>)
    requires Valid(cfg)
    requires r.Received? ==> |r.data| <= cfg.bufferSize - 1
    modifies conn
    ensures conn.sent == old(conn.sent)
                         + Delivered(ActionSends(cfg, fs, Dispatch(r), listingAllocated, results), old(conn.sendsLeft))
    ensures conn.closeCount == old(conn.closeCount) + 1
  {
    if r.RecvFailed? {
      assert ActionSends(cfg, fs, Dispatch(r), listingAllocated, results) == [];
      conn.Close();
      return;
    }
    var request := ReceiveRequest(cfg, r.data);
    var line := ParseRequestLine(request);
    if EqualsIgnoreCase(line.httpMethod, "GET") {
      ServeStaticFile(cfg, conn, fs, line.path, listingAllocated, results);
    } else if EqualsIgnoreCase(line.httpMethod, "POST") && line.path == "/ping" {
      var body := Find(request, "\r\n\r\n");
      if body.Some? {
        HandlePostPing(conn, request[body.value + 4..]);
      } else {
        SendSimpleResponse(conn, "400 Bad Request", "text/plain");
      }
    } else {
      SendSimpleResponse(conn, "501 Not Implemented", "text/plain");
    }
    conn.Close();
  }

  /** The received bytes copied into the BUFFER_SIZE array and terminated
      at index received: the request text is the C string it holds. */
  method ReceiveRequest(cfg: Config, data: seq<char>) returns (request: string)
    requires Valid(cfg) && |data| <= cfg.bufferSize - 1
    ensures request == CStringOf(data)
  {
    var buffer := new char[cfg.bufferSize];
    forall k | 0 <= k < |data| {
      buffer[k] := data[k];
    }
    buffer[|data|] := '\0';
    assert buffer[..] == data + ['\0'] + buffer[|data| + 1..];
    CStringOfTerminated(data, buffer[|data| + 1..]);
    request := CStringOf(buffer[..]);
  }
}
