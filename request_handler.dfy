/** The static content server and the ping handler: serve_static_file,
    generate_directory_listing and handle_post_ping, over an abstract
    filesystem and a socket that records what the peer receives. */
module RequestHandler {
  import opened Strings
  import opened ServerConfig
  import opened MimeTypes
  import opened Utils

  // ---------------------------------------------------------------------
  // The filesystem as stat, opendir/readdir and open see it

  /** What stat finds at a path. A directory carries its last-modified
      time (already formatted as YYYY-MM-DD HH:MM:SS) and the names readdir
      enumerates, in order, or None when opendir fails. A regular file
      carries its bytes, its formatted last-modified time and whether
      open(O_RDONLY) succeeds. */
  datatype Inode =
    | Directory(mtime: string, entries: Option<seq<string>>)
    | RegularFile(data: seq<char>, mtime: string, openable: bool)

  /** The paths stat succeeds on. */
  type FileSystem = map<string, Inode>

  // ---------------------------------------------------------------------
  // The ping handler

  const PongBody := "{ \"response\": \"Pong!\" }"

  /** handle_post_ping: the body is ignored; the reply is always the pong. */
  method HandlePostPing(conn: Connection, body: string)
    modifies conn
    ensures conn.sent == old(conn.sent) + Delivered(ResponseSends("200 OK", "application/json", PongBody),
                                                    old(conn.sendsLeft))
    ensures conn.sendsLeft == old(conn.sendsLeft) - Min(2, old(conn.sendsLeft))
    ensures conn.closeCount == old(conn.closeCount)
  {
    SendResponse(conn, "200 OK", "application/json", PongBody);
  }

  /** The pong is 23 bytes, so snprintf stores all of it in the
      SMALL_BUFFER array of any valid configuration, and the length it
      returns, which is what send_response sends, is the body's own. */
  lemma PongFitsItsBuffer(cfg: Config)
    requires Valid(cfg)
    ensures |PongBody| == 23
    ensures SnprintfStored(PongBody, cfg.smallBuffer) == PongBody
  {
  }

  /** As written, with a SMALL_BUFFER of 23 or less snprintf cuts the pong
      but still returns 23, and send_response sends 23 bytes of the array:
      at exactly 23 the NUL goes out in place of the closing brace, and
      with 22 or less send reads past the array. */
  lemma PongOverRead(smallBuffer: nat)
    requires 1 <= smallBuffer <= 23
    ensures var b := BufferedSend(|SnprintfStored(PongBody, smallBuffer)|, |PongBody|);
            b.requested == 23 && b.stored < b.requested && (b.requested > smallBuffer <==> smallBuffer <= 22)
  {
  }

  // ---------------------------------------------------------------------
  // Directory listing text

  // The markup of the listing's format strings, one piece per line of
  // the format.

  const JQueryUrl := "https://" + ("cdnjs.cloudflare.com" + ("/ajax/libs/jquery/3.7.1" + "/jquery.min.js"))

  /** The page head and the table's heading row, naming dirPath. */
  function ListingHeader(dirPath: string): string {
    Flatten([
      "<!DOCTYPE html>\n", "<html>\n", "<head>\n",
      "<title>", "Directory listing", "</title>\n",
      "<script src=\"", JQueryUrl, "\"></script>\n",
      "</head>\n", "<body>\n",
      "<h1>", "Directory listing for ", dirPath, "</h1>\n",
      "<table>\n",
      "<tr>", "<th>Name</th>", "<th>Size</th>", "<th>Last Modified</th>", "</tr>\n"])
  }

  /** The closing markup: the table, the body and the page. */
  function ListingFooter(): string {
    "</table>\n" + ("</body>\n" + "</html>")
  }

  /** A table cell. */
  function Cell(text: string): string { "<td>" + (text + "</td>") }

  /** A link whose text is its target. */
  function Link(target: string): string { "<a href=\"" + (target + ("\">" + (target + "</a>"))) }

  /** The table row of one entry that stat succeeded on: a link to the
      entry (with a trailing slash for a directory), its size ("-" for a
      directory, the byte count for a file) and its last-modified time. */
  function EntryRow(name: string, node: Inode): string {
    var target := if node.Directory? then name + "/" else name;
    var size := if node.Directory? then "-" else NatToString(|node.data|);
    "<tr>" + (Cell(Link(target)) + (Cell(size) + (Cell(node.mtime) + "</tr>\n")))
  }

  /** The path an entry is stat'ed at: "%s/%s" formatted into a
      SMALL_BUFFER array, so silently cut to SMALL_BUFFER - 1 characters. */
  function StatPath(cfg: Config, dirPath: string, name: string): string {
    SnprintfStored(dirPath + "/" + name, cfg.smallBuffer)
  }

  /** The row readdir's entry `name` contributes: nothing for ".", nothing
      when stat fails, the entry's row otherwise. */
  function RowFor(cfg: Config, fs: FileSystem, dirPath: string, name: string): string {
    if name == "." then ""
    else
      var full := StatPath(cfg, dirPath, name);
      if full in fs then EntryRow(name, fs[full]) else ""
  }

  function RowOf(cfg: Config, fs: FileSystem, dirPath: string): string -> string {
    name => RowFor(cfg, fs, dirPath, name)
  }

  /** The rows of the entries `names`, in enumeration order, each made by `row`. */
  function Rows(row: string -> string, names: seq<string>): string {
    if names == [] then ""
    else Rows(row, names[..|names| - 1]) + row(names[|names| - 1])
  }

  /** The names opendir/readdir yield for dirPath: none when it fails. */
  function Enumerate(fs: FileSystem, dirPath: string): seq<string> {
    if dirPath in fs && fs[dirPath].Directory? && fs[dirPath].entries.Some?
    then fs[dirPath].entries.value else []
  }

  function ListingRows(cfg: Config, fs: FileSystem, dirPath: string): string {
    Rows(RowOf(cfg, fs, dirPath), Enumerate(fs, dirPath))
  }

  /** The whole document, before it is cut to the buffer. */
  function ListingText(cfg: Config, fs: FileSystem, dirPath: string): string {
    ListingHeader(dirPath) + (ListingRows(cfg, fs, dirPath) + ListingFooter())
  }

  /** The listing buffer's size: BUFFER_SIZE * 4 bytes. */
  function ListingCapacity(cfg: Config): nat { cfg.bufferSize * 4 }

  /** The body sent for a directory: strlen of the listing buffer, which
      holds as much of the document as fits before its NUL. */
  function ListingBody(cfg: Config, fs: FileSystem, dirPath: string): string {
    CStringOf(SnprintfStored(ListingText(cfg, fs, dirPath), ListingCapacity(cfg)))
  }

  // ---------------------------------------------------------------------
  // Properties of the listing

  /** Rows come out in enumeration order: the rows of a + b are the rows of
      a followed by the rows of b. */
  lemma {:induction false} RowsAppend(row: string -> string, a: seq<string>, b: seq<string>)
    ensures Rows(row, a + b) == Rows(row, a) + Rows(row, b)
  {
    if b == [] {
      assert a + b == a;
    } else {
      var b' := b[..|b| - 1];
      assert (a + b)[..|a + b| - 1] == a + b';
      assert (a + b)[|a + b| - 1] == b[|b| - 1];
      RowsAppend(row, a, b');
    }
  }

  /** A single entry: "." is skipped, an entry whose stat fails is skipped,
      and any other entry, ".." included, gets its row. */
  lemma RowOfOneEntry(cfg: Config, fs: FileSystem, dirPath: string, name: string)
    ensures name == "." ==> Rows(RowOf(cfg, fs, dirPath), [name]) == ""
    ensures name != "." && StatPath(cfg, dirPath, name) !in fs ==> Rows(RowOf(cfg, fs, dirPath), [name]) == ""
    ensures name != "." && StatPath(cfg, dirPath, name) in fs ==>
              Rows(RowOf(cfg, fs, dirPath), [name]) == EntryRow(name, fs[StatPath(cfg, dirPath, name)])
  {
    assert [name][..0] == [];
  }

  /** The rows of a listing are the rows of its entries, one after another. */
  lemma {:induction false} RowsAreEntryRows(row: string -> string, names: seq<string>)
    ensures Rows(row, names) == Flatten(seq(|names|, i requires 0 <= i < |names| => row(names[i])))
  {
    var parts := seq(|names|, i requires 0 <= i < |names| => row(names[i]));
    if names != [] {
      var init := names[..|names| - 1];
      RowsAreEntryRows(row, init);
      var initParts := seq(|init|, i requires 0 <= i < |init| => row(init[i]));
      assert parts == initParts + [row(names[|names| - 1])];
      FlattenAppend(initParts, [row(names[|names| - 1])]);
    }
  }

  /** A directory holding ".", "..", a 100-byte file a.txt and a
      subdirectory sub: "." has no row and the others have theirs, in
      order. */
  lemma ListingExample(cfg: Config, fs: FileSystem, dirPath: string, parent: Inode, file: Inode, sub: Inode)
    requires |dirPath| + 7 < cfg.smallBuffer
    requires dirPath + "/.." in fs && fs[dirPath + "/.."] == parent
    requires dirPath + "/a.txt" in fs && fs[dirPath + "/a.txt"] == file
    requires dirPath + "/sub" in fs && fs[dirPath + "/sub"] == sub
    ensures Rows(RowOf(cfg, fs, dirPath), [".", "..", "a.txt", "sub"])
            == EntryRow("..", parent) + EntryRow("a.txt", file) + EntryRow("sub", sub)
  {
    var row := RowOf(cfg, fs, dirPath);
    var names := [".", "..", "a.txt", "sub"];
    assert names == [names[0]] + [names[1]] + [names[2]] + [names[3]];
    RowsAppend(row, [names[0]] + [names[1]] + [names[2]], [names[3]]);
    RowsAppend(row, [names[0]] + [names[1]], [names[2]]);
    RowsAppend(row, [names[0]], [names[1]]);
    RowOfOneEntry(cfg, fs, dirPath, ".");
    RowOfOneEntry(cfg, fs, dirPath, "..");
    RowOfOneEntry(cfg, fs, dirPath, "a.txt");
    RowOfOneEntry(cfg, fs, dirPath, "sub");
    assert StatPath(cfg, dirPath, "..") == dirPath + "/..";
    assert StatPath(cfg, dirPath, "a.txt") == dirPath + "/a.txt";
    assert StatPath(cfg, dirPath, "sub") == dirPath + "/sub";
  }

  /** The rows of that example: a.txt's row gives its size, 100, and
      sub's row links to "sub/" with size "-". */
  lemma ExampleRows(txt: seq<char>, fileTime: string, subTime: string, entries: Option<seq<string>>)
    requires |txt| == 100
    ensures EntryRow("a.txt", RegularFile(txt, fileTime, true))
            == "<tr>" + (Cell(Link("a.txt")) + (Cell("100") + (Cell(fileTime) + "</tr>\n")))
    ensures EntryRow("sub", Directory(subTime, entries))
            == "<tr>" + (Cell(Link("sub/")) + (Cell("-") + (Cell(subTime) + "</tr>\n")))
  {
    assert NatToString(100) == "100" by {
      assert NatToString(1) == "1";
      assert NatToString(10) == NatToString(1) + "0";
    }
  }

  /** The listing never outgrows its buffer: the body is at most
      BUFFER_SIZE * 4 - 1 bytes and is a prefix of the document; a document
      that fits and holds no NUL is sent whole. */
  lemma ListingBodyIsBoundedPrefix(cfg: Config, fs: FileSystem, dirPath: string)
    requires cfg.bufferSize >= 1
    ensures var body := ListingBody(cfg, fs, dirPath);
            var text := ListingText(cfg, fs, dirPath);
            |body| < ListingCapacity(cfg) && body == text[..|body|]
    ensures var text := ListingText(cfg, fs, dirPath);
            |text| < ListingCapacity(cfg) && '\0' !in text ==> ListingBody(cfg, fs, dirPath) == text
  {
    BoundedPrefix(ListingText(cfg, fs, dirPath), ListingCapacity(cfg));
  }

  lemma BoundedPrefix(text: string, size: nat)
    requires size >= 1
    ensures var body := CStringOf(SnprintfStored(text, size));
            |body| < size && body == text[..|body|]
    ensures |text| < size && '\0' !in text ==> CStringOf(SnprintfStored(text, size)) == text
  {
    if |text| < size && '\0' !in text {
      assert SnprintfStored(text, size) == text;
      CStringOfNulFree(text);
    }
  }

  // ---------------------------------------------------------------------
  // Writing the listing into its buffer

  /** One readdir entry of generate_directory_listing: "." is skipped, an
      entry stat fails on is skipped, and any other entry's row is stored
      after what the buffer already holds. */
  method EmitEntry(cfg: Config, fs: FileSystem, dirPath: string, name: string,
                   output: array<char>, pos: nat, ghost done: string) returns (next: nat)
    requires pos < output.Length && output[..pos] == Truncate(done, output.Length - 1)
    modifies output
    ensures next < output.Length
    ensures output[..next] == Truncate(done + RowFor(cfg, fs, dirPath, name), output.Length - 1)
  {
    next := pos;
    if name == "." {
      assert done + "" == done;
      return;
    }
    var full := StatPath(cfg, dirPath, name);
    if full !in fs {
      assert done + "" == done;
      return;
    }
    next := EmitAfter(output, pos, done, EntryRow(name, fs[full]));
  }

  /** generate_directory_listing with the remaining size kept in step with
      what was stored: the buffer ends up holding as much of the document
      as fits, NUL-terminated. */
  method GenerateDirectoryListing(cfg: Config, fs: FileSystem, dirPath: string, output: array<char>)
    requires output.Length >= 1
    modifies output
    ensures var t := SnprintfStored(ListingText(cfg, fs, dirPath), output.Length);
            output[..|t|] == t && output[|t|] == '\0'
  {
    WriteListing(cfg, fs, dirPath, ListingHeader(dirPath), output);
  }

  /** The body of generate_directory_listing once its first snprintf has
      been given the page's header text: the header, one row per entry,
      and the footer. */
  method WriteListing(cfg: Config, fs: FileSystem, dirPath: string, header: string, output: array<char>)
    requires output.Length >= 1
    modifies output
    ensures var t := SnprintfStored(header + (ListingRows(cfg, fs, dirPath) + ListingFooter()), output.Length);
            output[..|t|] == t && output[|t|] == '\0'
  {
    assert "" + header == header;
    var pos: nat := EmitAfter(output, 0, "", header);
    var names := Enumerate(fs, dirPath);
    RowsPrefix(cfg, fs, dirPath, header, names, 0);
    var i := 0;
    while i < |names|
      invariant 0 <= i <= |names|
      invariant pos < output.Length
      invariant output[..pos] == Truncate(header + Rows(RowOf(cfg, fs, dirPath), names[..i]), output.Length - 1)
    {
      pos := EmitEntry(cfg, fs, dirPath, names[i], output, pos, header + Rows(RowOf(cfg, fs, dirPath), names[..i]));
      RowsPrefix(cfg, fs, dirPath, header, names, i + 1);
      i := i + 1;
    }
    assert names[..i] == names;
    pos := EmitAfter(output, pos, header + ListingRows(cfg, fs, dirPath), ListingFooter());
    AppendAssoc(header, ListingRows(cfg, fs, dirPath), ListingFooter());
  }

  /** The text before entry i of the listing, and the step that adds it. */
  lemma RowsPrefix(cfg: Config, fs: FileSystem, dirPath: string, header: string, names: seq<string>, i: nat)
    requires i <= |names|
    ensures i == 0 ==> header + Rows(RowOf(cfg, fs, dirPath), names[..i]) == header
    ensures i > 0 ==> header + Rows(RowOf(cfg, fs, dirPath), names[..i])
                      == (header + Rows(RowOf(cfg, fs, dirPath), names[..i - 1])) + RowFor(cfg, fs, dirPath, names[i - 1])
  {
    var row := RowOf(cfg, fs, dirPath);
    if i == 0 {
      assert names[..0] == [];
    } else {
      assert names[..i][..i - 1] == names[..i - 1];
      AppendAssoc(header, Rows(row, names[..i - 1]), row(names[i - 1]));
    }
  }

  // ---------------------------------------------------------------------
  // As written, the listing's remaining size underflows

  /** One snprintf call of the listing as written: where it writes and the
      size argument it is given. */
  datatype WriteCall = WriteCall(offset: nat, size: nat)

  /** size_t is 64 bits wide. */
  const SizeMax: nat := 0x1_0000_0000_0000_0000

  /** As written, every snprintf call advances the output pointer by the
      length it would have written and subtracts that from the size_t size,
      so once the buffer is exhausted the pointer runs past its end and the
      size wraps around. */
  function AsWrittenCalls(offset: nat, size: nat, pieces: seq<string>): (r: seq<WriteCall>)
    ensures |r| == |pieces|
    decreases |pieces|
  {
    if pieces == [] then []
    else [WriteCall(offset, size)] + AsWrittenCalls(offset + |pieces[0]|, (size - |pieces[0]|) % SizeMax, pieces[1..])
  }

  lemma {:induction false} AsWrittenCallsClosedForm(offset: nat, size: nat, pieces: seq<string>, k: nat)
    requires size < SizeMax && k < |pieces|
    ensures AsWrittenCalls(offset, size, pieces)[k]
            == WriteCall(offset + |Flatten(pieces[..k])|, (size - |Flatten(pieces[..k])|) % SizeMax)
    decreases k
  {
    if k == 0 {
      assert pieces[..0] == [];
    } else {
      var s' := (size - |pieces[0]|) % SizeMax;
      AsWrittenCallsClosedForm(offset + |pieces[0]|, s', pieces[1..], k - 1);
      assert pieces[..k] == [pieces[0]] + pieces[1..][..k - 1];
      assert Flatten(pieces[..k]) == pieces[0] + Flatten(pieces[1..][..k - 1]);
      var l := |Flatten(pieces[1..][..k - 1])|;
      ModSub(size, |pieces[0]|, l);
    }
  }

  lemma ModSub(s: int, a: nat, b: nat)
    ensures ((s - a) % SizeMax - b) % SizeMax == (s - (a + b)) % SizeMax
  {
    var q := (s - a) / SizeMax;
    assert (s - a) % SizeMax == s - a - q * SizeMax;
    assert (s - a) % SizeMax - b == (s - (a + b)) + (-q) * SizeMax;
    ModShift(s - (a + b), -q);
  }

  lemma ModShift(x: int, q: int)
    ensures (x + q * SizeMax) % SizeMax == x % SizeMax
  {
  }

  /** As written, once the header and the rows before the footer exceed the
      buffer, the footer's snprintf is handed a pointer past the buffer's
      end and a non-zero size, so it writes outside the buffer. */
  lemma AsWrittenListingOverruns(cap: nat, pieces: seq<string>)
    requires 1 <= cap && |pieces| >= 1
    requires cap < |Flatten(pieces[..|pieces| - 1])| < SizeMax
    ensures var last := AsWrittenCalls(0, cap, pieces)[|pieces| - 1];
            last.offset > cap && last.size > 0
  {
    var k := |pieces| - 1;
    var l := |Flatten(pieces[..k])|;
    AsWrittenCallsClosedForm(0, cap, pieces, k);
    ModShift(cap - l, 1);
    assert (cap - l) % SizeMax == cap - l + SizeMax;
  }

  /** The texts the listing's snprintf calls format, in order: the
      header, one row for each entry that gets one ("." and entries stat
      fails on make no call), and the footer. */
  function RowCalls(row: string -> string, names: seq<string>): seq<string> {
    if names == [] then []
    else RowCalls(row, names[..|names| - 1]) + (if row(names[|names| - 1]) == "" then [] else [row(names[|names| - 1])])
  }

  function ListingCalls(cfg: Config, fs: FileSystem, dirPath: string): seq<string> {
    [ListingHeader(dirPath)] + RowCalls(RowOf(cfg, fs, dirPath), Enumerate(fs, dirPath)) + [ListingFooter()]
  }

  /** The row calls together format exactly the listing's rows. */
  lemma {:induction false} RowCallsFlatten(row: string -> string, names: seq<string>)
    ensures Flatten(RowCalls(row, names)) == Rows(row, names)
  {
    if names != [] {
      var init := names[..|names| - 1];
      var r := row(names[|names| - 1]);
      RowCallsFlatten(row, init);
      FlattenAppend(RowCalls(row, init), if r == "" then [] else [r]);
      if r != "" {
        assert Flatten([r]) == r + Flatten([]);
      }
    }
  }

  /** As written, for the listing's own calls: a directory whose header
      and rows exceed BUFFER_SIZE * 4 bytes makes the footer's snprintf
      write past the end of the buffer. */
  lemma ListingOverruns(cfg: Config, fs: FileSystem, dirPath: string)
    requires 1 <= ListingCapacity(cfg)
    requires ListingCapacity(cfg) < |ListingHeader(dirPath) + ListingRows(cfg, fs, dirPath)| < SizeMax
    ensures var calls := AsWrittenCalls(0, ListingCapacity(cfg), ListingCalls(cfg, fs, dirPath));
            |calls| >= 2 && calls[|calls| - 1].offset > ListingCapacity(cfg) && calls[|calls| - 1].size > 0
  {
    var row := RowOf(cfg, fs, dirPath);
    var names := Enumerate(fs, dirPath);
    var pieces := ListingCalls(cfg, fs, dirPath);
    var before := [ListingHeader(dirPath)] + RowCalls(row, names);
    assert pieces[..|pieces| - 1] == before;
    RowCallsFlatten(row, names);
    FlattenAppend([ListingHeader(dirPath)], RowCalls(row, names));
    assert Flatten([ListingHeader(dirPath)]) == ListingHeader(dirPath) + Flatten([]);
    AsWrittenListingOverruns(ListingCapacity(cfg), pieces);
  }

  // ---------------------------------------------------------------------
  // Path resolution

  /** The path served: ROOT_DIR followed by the request path, in a buffer
      as long as it needs. */
  function Resolve(cfg: Config, path: string): (r: string)
    ensures |r| == |cfg.rootDir| + |path|
    ensures r[..|cfg.rootDir|] == cfg.rootDir && r[|cfg.rootDir|..] == path
  {
    cfg.rootDir + path
  }

  /** As written, strcat stores ROOT_DIR, the request path and a NUL into a
      char[SMALL_BUFFER] array: this many bytes. */
  function ResolvedPathBytes(cfg: Config, path: string): nat {
    |cfg.rootDir| + |path| + 1
  }

  /** As written, with a non-empty ROOT_DIR, a request path without ".."
      that still fits the SMALL_BUFFER array sscanf read it into makes
      strcat write past the end of file_path. */
  lemma PathConcatOverflows(cfg: Config)
    requires Valid(cfg) && |cfg.rootDir| >= 1
    ensures exists path :: |path| >= 1 && path[0] == '/' && !Contains(path, "..")
                           && |path| < cfg.smallBuffer
                           && ResolvedPathBytes(cfg, path) > cfg.smallBuffer
  {
    var path := "/" + seq(cfg.smallBuffer - 2, _ => 'a');
    forall j | 0 <= j <= |path| ensures !OccursAt(path, "..", j) {
      if j < |path| {
        assert path[j] != '.';
      }
    }
    assert !Contains(path, "..");
  }

  // ---------------------------------------------------------------------
  // serve_static_file

  /** What serve_static_file decides to send. */
  datatype StaticOutcome =
    | Refuse(status: string)
    | ListDirectory(dirPath: string)
    | SendFile(filePath: string, size: nat)

  /** The decision tree: ".." in the path is refused before the filesystem
      is touched; a missing path or an unopenable file is not found; a
      directory is listed unless the listing buffer cannot be allocated;
      an openable file is sent with its size. */
  function Decide(cfg: Config, fs: FileSystem, path: string, listingAllocated: bool): StaticOutcome {
    if Contains(path, "..") then Refuse("400 Bad Request")
    else
      var filePath := Resolve(cfg, path);
      if filePath !in fs then Refuse("404 Not Found")
      else match fs[filePath]
        case Directory(_, _) =>
          if !listingAllocated then Refuse("500 Internal Server Error") else ListDirectory(filePath)
        case RegularFile(data, _, openable) =>
          if !openable then Refuse("404 Not Found") else SendFile(filePath, |data|)
  }

  /** The result of one read() on the file. */
  datatype ReadResult = ReadBytes(chunk: seq<char>) | ReadFailed

  /** The chunks sent by the read/send loop: every chunk up to the first
      read that returns 0 (an empty chunk) or fails. Running out of
      results counts as end of file. */
  function ChunkSends(results: seq<ReadResult>): seq<seq<char>> {
    if results == [] || results[0].ReadFailed? || results[0].chunk == [] then []
    else [results[0].chunk] + ChunkSends(results[1..])
  }

  /** The results of an ordinary file: full chunks of n bytes, a shorter last
      chunk, then 0. */
  function ReadsOf(data: seq<char>, n: nat): seq<ReadResult>
    requires n >= 1
    decreases |data|
  {
    if data == [] then [ReadBytes([])]
    else var k := Min(n, |data|); [ReadBytes(data[..k])] + ReadsOf(data[k..], n)
  }

  /** Reading a file to its end sends exactly its bytes. */
  lemma {:induction false} ReadsOfDeliverData(data: seq<char>, n: nat)
    requires n >= 1
    ensures Flatten(ChunkSends(ReadsOf(data, n))) == data
    decreases |data|
  {
    if data != [] {
      var k := Min(n, |data|);
      var rs := ReadsOf(data, n);
      assert rs[1..] == ReadsOf(data[k..], n);
      ReadsOfDeliverData(data[k..], n);
      assert data == data[..k] + data[k..];
    }
  }

  /** The file response header, formatted by serve_static_file itself. */
  function FileHeader(mimeType: string, fileSize: nat): string {
    "HTTP/1.1 200 OK\r\n"
    + "Content-Type: " + mimeType + "\r\n"
    + "Content-Length: " + NatToString(fileSize) + "\r\n"
    + "Connection: close\r\n\r\n"
  }

  lemma FileHeaderIsOkHeader(mimeType: string, fileSize: nat)
    ensures FileHeader(mimeType, fileSize) == FullHeader("200 OK", mimeType, fileSize)
  {
  }

  /** The send calls serve_static_file makes when every send succeeds. */
  function StaticSends(cfg: Config, fs: FileSystem, path: string, listingAllocated: bool,
                       results: seq<ReadResult>): seq<seq<char>>
  {
    match Decide(cfg, fs, path, listingAllocated)
    case Refuse(status) => [SimpleHeader(status, "text/plain")]
    case ListDirectory(dirPath) => ResponseSends("200 OK", "text/html", ListingBody(cfg, fs, dirPath))
    case SendFile(filePath, size) => [FileHeader(GetMimeType(filePath), size)] + ChunkSends(results)
  }

  // ---------------------------------------------------------------------
  // Properties of the decision

  /** Any path containing ".." is answered 400, whatever the filesystem
      holds and whether allocation would succeed. */
  lemma DotDotIsBadRequest(cfg: Config, fs: FileSystem, fs': FileSystem, path: string, a: bool, a': bool)
    requires Contains(path, "..")
    ensures Decide(cfg, fs, path, a) == Decide(cfg, fs', path, a') == Refuse("400 Bad Request")
  {
  }

  /** Each status, and exactly when it is chosen. */
  lemma DecisionStatuses(cfg: Config, fs: FileSystem, path: string, a: bool)
    ensures var d := Decide(cfg, fs, path, a);
            var p := Resolve(cfg, path);
            && (d == Refuse("400 Bad Request") <==> Contains(path, ".."))
            && (d == Refuse("404 Not Found") <==>
                  !Contains(path, "..") && (p !in fs || (fs[p].RegularFile? && !fs[p].openable)))
            && (d == Refuse("500 Internal Server Error") <==>
                  !Contains(path, "..") && p in fs && fs[p].Directory? && !a)
            && (d.ListDirectory? <==> !Contains(path, "..") && p in fs && fs[p].Directory? && a)
            && (d.ListDirectory? ==> d.dirPath == cfg.rootDir + path)
            && (d.SendFile? <==> !Contains(path, "..") && p in fs && fs[p].RegularFile? && fs[p].openable)
            && (d.SendFile? ==> d.filePath == cfg.rootDir + path && d.size == |fs[p].data|)
  {
  }

  /** An existing, openable file read to its end is answered with a header
      whose Content-Length is the file size, followed by the file's bytes. */
  lemma FileIsServedWhole(cfg: Config, fs: FileSystem, path: string, a: bool)
    requires Valid(cfg)
    requires Decide(cfg, fs, path, a).SendFile?
    ensures var p := Resolve(cfg, path);
            var data := fs[p].data;
            Flatten(StaticSends(cfg, fs, path, a, ReadsOf(data, cfg.bufferSize)))
            == FullHeader("200 OK", GetMimeType(p), |data|) + data
  {
    var p := Resolve(cfg, path);
    var data := fs[p].data;
    var chunks := ChunkSends(ReadsOf(data, cfg.bufferSize));
    var header := FullHeader("200 OK", GetMimeType(p), |data|);
    FileHeaderIsOkHeader(GetMimeType(p), |data|);
    assert Decide(cfg, fs, path, a) == SendFile(p, |data|);
    assert StaticSends(cfg, fs, path, a, ReadsOf(data, cfg.bufferSize)) == [header] + chunks;
    FlattenAppend([header], chunks);
    ReadsOfDeliverData(data, cfg.bufferSize);
  }

  /** Every outcome sends something: a header is always attempted. */
  lemma StaticAlwaysResponds(cfg: Config, fs: FileSystem, path: string, a: bool, results: seq<ReadResult>)
    ensures |StaticSends(cfg, fs, path, a, results)| >= 1
  {
  }

  // ---------------------------------------------------------------------
  // serve_static_file itself

  /** The read/send loop: each chunk read is sent, until read returns 0
      or fails. */
  method SendFileChunks(conn: Connection, results: seq<ReadResult>)
    modifies conn
    ensures conn.sent == old(conn.sent) + Delivered(ChunkSends(results), old(conn.sendsLeft))
    ensures conn.sendsLeft == old(conn.sendsLeft) - Min(|ChunkSends(results)|, old(conn.sendsLeft))
    ensures conn.closeCount == old(conn.closeCount)
  {
    var i := 0;
    ghost var done: seq<seq<char>> := [];
    assert results[0..] == results;
    while i < |results| && results[i].ReadBytes? && |results[i].chunk| > 0
      invariant 0 <= i <= |results|
      invariant ChunkSends(results) == done + ChunkSends(results[i..])
      invariant conn.sent == old(conn.sent) + Delivered(done, old(conn.sendsLeft))
      invariant conn.sendsLeft == old(conn.sendsLeft) - Min(|done|, old(conn.sendsLeft))
      invariant conn.closeCount == old(conn.closeCount)
    {
      var chunk := results[i].chunk;
      ChunkStep(results, i);
      SentStep(old(conn.sent), done, chunk, old(conn.sendsLeft));
      var r := conn.Send(chunk);
      done := done + [chunk];
      i := i + 1;
    }
    ChunkEnd(results, i);
    assert done + [] == done;
  }

  lemma ChunkStep(results: seq<ReadResult>, i: nat)
    requires i < |results| && results[i].ReadBytes? && results[i].chunk != []
    ensures ChunkSends(results[i..]) == [results[i].chunk] + ChunkSends(results[i + 1..])
  {
    assert results[i..][1..] == results[i + 1..];
  }

  lemma ChunkEnd(results: seq<ReadResult>, i: nat)
    requires i <= |results|
    requires i == |results| || results[i].ReadFailed? || results[i].chunk == []
    ensures ChunkSends(results[i..]) == []
  {
    if i < |results| {
      assert results[i..][0] == results[i];
    } else {
      assert results[i..] == [];
    }
  }

  /** The directory branch of serve_static_file: the listing is generated
      into its BUFFER_SIZE * 4 buffer and strlen of it is sent as HTML. */
  method ServeDirectory(cfg: Config, conn: Connection, fs: FileSystem, dirPath: string)
    requires Valid(cfg)
    modifies conn
    ensures conn.sent == old(conn.sent)
                         + Delivered(ResponseSends("200 OK", "text/html", ListingBody(cfg, fs, dirPath)), old(conn.sendsLeft))
    ensures conn.closeCount == old(conn.closeCount)
  {
    var listing := new char[ListingCapacity(cfg)];
    GenerateDirectoryListing(cfg, fs, dirPath, listing);
    ghost var t := SnprintfStored(ListingText(cfg, fs, dirPath), listing.Length);
    assert listing[..] == t + ['\0'] + listing[|t| + 1..];
    CStringOfTerminated(t, listing[|t| + 1..]);
    var body := CStringOf(listing[..]);
    SendResponse(conn, "200 OK", "text/html", body);
  }

  /** The file branch of serve_static_file: its own header, then every
      chunk read, each send's result ignored. */
  method SendFileResponse(conn: Connection, mimeType: string, size: nat, results: seq<ReadResult>)
    modifies conn
    ensures conn.sent == old(conn.sent)
                         + Delivered([FileHeader(mimeType, size)] + ChunkSends(results), old(conn.sendsLeft))
    ensures conn.closeCount == old(conn.closeCount)
  {
    var header := FileHeader(mimeType, size);
    DeliveredAppend([header], ChunkSends(results), conn.sendsLeft);
    var r := conn.Send(header);
    SendFileChunks(conn, results);
    AppendAssoc(old(conn.sent), Delivered([header], old(conn.sendsLeft)),
                Delivered(ChunkSends(results), old(conn.sendsLeft) - Min(1, old(conn.sendsLeft))));
  }

  /** serve_static_file. */
  method ServeStaticFile(cfg: Config, conn: Connection, fs: FileSystem, path: string,
                         listingAllocated: bool, results: seq<ReadResult>)
    requires Valid(cfg)
    modifies conn
    ensures conn.sent == old(conn.sent)
                         + Delivered(StaticSends(cfg, fs, path, listingAllocated, results), old(conn.sendsLeft))
    ensures conn.closeCount == old(conn.closeCount)
  {
    if Contains(path, "..") {
      SendSimpleResponse(conn, "400 Bad Request", "text/plain");
      return;
    }
    var filePath := Resolve(cfg, path);
    if filePath !in fs {
      SendSimpleResponse(conn, "404 Not Found", "text/plain");
      return;
    }
    var node := fs[filePath];
    if node.Directory? {
      if !listingAllocated {
        SendSimpleResponse(conn, "500 Internal Server Error", "text/plain");
        return;
      }
      ServeDirectory(cfg, conn, fs, filePath);
      return;
    }
    if !node.openable {
      SendSimpleResponse(conn, "404 Not Found", "text/plain");
      return;
    }
    SendFileResponse(conn, GetMimeType(filePath), |node.data|, results);
  }
}
