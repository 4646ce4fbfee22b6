/** The content-type resolver: the extension table and get_mime_type. */
module MimeTypes {
  import opened Strings

  const DefaultType := "application/octet-stream"

  /** The extension table, in the order the lookup scans it. */
  const Table: seq<(string, string)> := [
    (".html", "text/html"),
    (".htm", "text/html"),
    (".css", "text/css"),
    (".js", "application/javascript"),
    (".json", "application/json"),
    (".png", "image/png"),
    (".jpg", "image/jpeg"),
    (".jpeg", "image/jpeg"),
    (".gif", "image/gif"),
    (".svg", "image/svg+xml"),
    (".ico", "image/x-icon"),
    (".txt", "text/plain"),
    (".pdf", "application/pdf"),
    (".zip", "application/zip"),
    (".rar", "application/x-rar-compressed"),
    (".mp3", "audio/mpeg"),
    (".mp4", "video/mp4")
  ]

  /** strrchr(path, '.'), searching the first n characters from the right. */
  function LastDotBefore(path: string, n: nat): (r: Option<nat>)
    requires n <= |path|
    ensures r.Some? ==> r.value < n && path[r.value] == '.'
    ensures r.Some? ==> forall j :: r.value < j < n ==> path[j] != '.'
    ensures r.None? ==> forall j :: 0 <= j < n ==> path[j] != '.'
  {
    if n == 0 then None
    else if path[n - 1] == '.' then Some(n - 1)
    else LastDotBefore(path, n - 1)
  }

  /** strrchr(path, '.'): the position of the last dot anywhere in path. */
  function LastDot(path: string): (r: Option<nat>)
    ensures r.Some? ==> r.value < |path| && path[r.value] == '.'
    ensures r.Some? ==> forall j :: r.value < j < |path| ==> path[j] != '.'
    ensures r.None? <==> forall j :: 0 <= j < |path| ==> path[j] != '.'
  {
    LastDotBefore(path, |path|)
  }

  /** The first table index at or after i whose extension equals ext
      ignoring case. */
  function FirstMatch(ext: string, i: nat): (r: Option<nat>)
    requires i <= |Table|
    ensures r.Some? ==> i <= r.value < |Table| && EqualsIgnoreCase(ext, Table[r.value].0)
    ensures r.Some? ==> forall j :: i <= j < r.value ==> !EqualsIgnoreCase(ext, Table[j].0)
    ensures r.None? ==> forall j :: i <= j < |Table| ==> !EqualsIgnoreCase(ext, Table[j].0)
    decreases |Table| - i
  {
    if i == |Table| then None
    else if EqualsIgnoreCase(ext, Table[i].0) then Some(i)
    else FirstMatch(ext, i + 1)
  }

  /** The type the table gives an extension (the one that includes the dot). */
  function TypeOfExtension(ext: string): (r: string)
    ensures r == DefaultType <==> forall j :: 0 <= j < |Table| ==> !EqualsIgnoreCase(ext, Table[j].0)
    ensures r != DefaultType ==> exists j :: 0 <= j < |Table| && EqualsIgnoreCase(ext, Table[j].0)
                                           && r == Table[j].1
                                           && forall k :: 0 <= k < j ==> !EqualsIgnoreCase(ext, Table[k].0)
  {
    match FirstMatch(ext, 0)
    case None => DefaultType
    case Some(j) => Table[j].1
  }

  /** get_mime_type(path). */
  function GetMimeType(path: string): (r: string)
    ensures r == DefaultType || exists j :: 0 <= j < |Table| && r == Table[j].1
  {
    match LastDot(path)
    case None => DefaultType
    case Some(k) => TypeOfExtension(path[k..])
  }

  // ---------------------------------------------------------------------
  // Properties of the lookup

  /** A path without a dot gets the default type. */
  lemma NoDotIsDefault(path: string)
    requires forall j :: 0 <= j < |path| ==> path[j] != '.'
    ensures GetMimeType(path) == DefaultType
  {
  }

  /** The extension compared is the suffix that starts at the last dot. */
  lemma ExtensionIsLastDotSuffix(path: string, k: nat)
    requires k < |path| && path[k] == '.'
    requires forall j :: k < j < |path| ==> path[j] != '.'
    ensures GetMimeType(path) == TypeOfExtension(path[k..])
  {
    var d := LastDot(path);
    assert d.Some? && d.value == k;
  }

  lemma TableHasNoSlash()
    ensures forall j :: 0 <= j < |Table| ==> forall i :: 0 <= i < |Table[j].0| ==> Table[j].0[i] != '/'
  {
  }

  /** A dot that only occurs in a directory component leaves a suffix
      containing '/', which matches no extension: the default type. */
  lemma DotInDirectoryIsDefault(path: string, k: nat, s: nat)
    requires LastDot(path) == Some(k)
    requires k < s < |path| && path[s] == '/'
    ensures GetMimeType(path) == DefaultType
  {
    var ext := path[k..];
    TableHasNoSlash();
    forall j | 0 <= j < |Table| ensures !EqualsIgnoreCase(ext, Table[j].0) {
      var e := Table[j].0;
      assert LowerString(ext)[s - k] == '/';
      assert s - k < |e| ==> LowerString(e)[s - k] != '/';
    }
  }

  lemma LowerIsDot(c: char)
    ensures Lower(c) == '.' <==> c == '.'
  {
  }

  /** Case does not matter: paths that differ only in letter case get the
      same type. */
  lemma CaseInsensitive(p: string, q: string)
    requires LowerString(p) == LowerString(q)
    ensures GetMimeType(p) == GetMimeType(q)
  {
    assert |p| == |q|;
    forall j | 0 <= j < |p| ensures p[j] == '.' <==> q[j] == '.' {
      assert LowerString(p)[j] == LowerString(q)[j];
      LowerIsDot(p[j]);
      LowerIsDot(q[j]);
    }
    var dp, dq := LastDot(p), LastDot(q);
    if dp.Some? {
      assert dq.Some?;
      var k := dp.value;
      assert dq.value == k;
      LowerStringSlice(p, k);
      LowerStringSlice(q, k);
      TypeOfExtensionByLowerCase(p[k..], q[k..]);
    } else {
      assert dq.None?;
    }
  }

  lemma TypeOfExtensionByLowerCase(a: string, b: string)
    requires LowerString(a) == LowerString(b)
    ensures TypeOfExtension(a) == TypeOfExtension(b)
  {
    var ma, mb := FirstMatch(a, 0), FirstMatch(b, 0);
    forall j | 0 <= j < |Table| ensures EqualsIgnoreCase(a, Table[j].0) == EqualsIgnoreCase(b, Table[j].0) {
    }
    assert ma == mb;
  }

  /** For example, an upper-case extension is still recognised. */
  lemma UpperCaseHtmlIsHtml()
    ensures GetMimeType("/docs/Index.HTML") == "text/html"
  {
    var p := "/docs/Index.HTML";
    ExtensionIsLastDotSuffix(p, 11);
    assert p[11..] == ".HTML";
    assert LowerString(".HTML") == ".html";
    assert FirstMatch(".HTML", 0) == Some(0);
  }
}
