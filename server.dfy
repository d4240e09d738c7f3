/** The static file server (server.c): how a request path becomes the name
    of the file to open, and how the file's extension picks the
    Content-Type. The path lives in a fixed char buffer holding a C string,
    that is, characters up to the first NUL. */
module Server {
  import opened Numbers

  const NUL: char := 0 as char
  /** the size of the path buffer the request line is scanned into */
  const PATH_SIZE: nat := 256
  /** what a request for the root is served */
  const INDEX_PAGE: string := "/index.html"
  /** the type of every extension the table does not know */
  const OCTET_STREAM: string := "application/octet-stream"

  /** The extensions the server knows, with their types. */
  const MIME_TABLE: map<string, string> := map[
    "html" := "text/html",
    "css" := "text/css",
    "js" := "application/javascript",
    "png" := "image/png",
    "jpg" := "image/jpeg",
    "gif" := "image/gif"]

  // ---------------------------------------------------------------------
  // C strings

  /** The index of the first NUL of s, or |s| when there is none. */
  function NulIndex(s: seq<char>): (n: nat)
    ensures n <= |s|
    ensures forall i :: 0 <= i < n ==> s[i] != NUL
    ensures n < |s| ==> s[n] == NUL
  {
    if s == [] then 0 else if s[0] == NUL then 0 else 1 + NulIndex(s[1..])
  }

  /** The characters before the first NUL are non-NUL, and the one at n is
      NUL (or the end): then n is the first NUL. */
  lemma NulIndexIs(s: seq<char>, n: nat)
    requires n <= |s|
    requires forall i :: 0 <= i < n ==> s[i] != NUL
    requires n < |s| ==> s[n] == NUL
    ensures NulIndex(s) == n
  {
  }

  /** The C string a buffer holds: everything before the first NUL. */
  function CStr(s: seq<char>): (c: string)
    ensures |c| <= |s| && NUL !in c
    ensures c == s[..|c|] && (|c| < |s| ==> s[|c|] == NUL)
  {
    s[..NulIndex(s)]
  }

  /** strlen: the length of the C string in the buffer. */
  method Strlen(a: array<char>) returns (n: nat)
    requires NulIndex(a[..]) < a.Length
    ensures n == |CStr(a[..])| && n < a.Length
  {
    n := 0;
    while a[n] != NUL
      invariant n <= NulIndex(a[..])
      decreases NulIndex(a[..]) - n
    {
      n := n + 1;
    }
  }

  // ---------------------------------------------------------------------
  // Content type

  /** get_mime_type: an exact, case-sensitive match against each known
      extension in turn; anything else is an octet stream. */
  function MimeType(ext: string): (m: string)
    ensures ext in MIME_TABLE ==> m == MIME_TABLE[ext]
    ensures ext !in MIME_TABLE ==> m == OCTET_STREAM
  {
    if ext == "html" then "text/html"
    else if ext == "css" then "text/css"
    else if ext == "js" then "application/javascript"
    else if ext == "png" then "image/png"
    else if ext == "jpg" then "image/jpeg"
    else if ext == "gif" then "image/gif"
    else OCTET_STREAM
  }

  /** The match ignores nothing: no case folding and no trimming. */
  lemma MimeTypeExact()
    ensures MimeType("HTML") == OCTET_STREAM && MimeType("html ") == OCTET_STREAM
    ensures MimeType("htm") == OCTET_STREAM && MimeType("") == OCTET_STREAM
  {
  }

  // ---------------------------------------------------------------------
  // What the path becomes

  /** The index of the last c in s, if any. */
  function LastIndexOf(s: string, c: char): (r: Option<nat>)
    ensures r.None? <==> c !in s
    ensures r.Some? ==> r.value < |s| && s[r.value] == c
    ensures r.Some? ==> forall j :: r.value < j < |s| ==> s[j] != c
  {
    if s == [] then None
    else if s[|s| - 1] == c then Some(|s| - 1)
    else
      var r := LastIndexOf(s[..|s| - 1], c);
      assert forall j :: 0 <= j < |s| - 1 ==> s[..|s| - 1][j] == s[j];
      assert c in s ==> exists j :: 0 <= j < |s| - 1 && s[j] == c;
      r
  }

  /** A c with no c after it is the last one. */
  lemma LastIndexOfAt(s: string, c: char, i: nat)
    requires i < |s| && s[i] == c
    requires forall j :: i < j < |s| ==> s[j] != c
    ensures LastIndexOf(s, c) == Some(i)
  {
  }

  /** The file extension: the text after the last '.' anywhere in the path
      (in a directory name too), or nothing when there is no '.'. */
  function Extension(path: string): (ext: string)
    ensures |ext| <= |path| && ext == path[|path| - |ext|..]
    ensures '.' !in ext
  {
    match LastIndexOf(path, '.')
    case None => ""
    case Some(i) => path[i + 1..]
  }

  /** The extension is the tail of the path after a dot, and holds no dot
      itself. */
  lemma ExtensionAfterLastDot(path: string)
    requires '.' in path
    ensures '.' !in Extension(path)
    ensures exists i :: 0 <= i < |path| && path[i] == '.' && path == path[..i] + "." + Extension(path)
  {
    var i := LastIndexOf(path, '.').value;
    assert path == path[..i] + "." + path[i + 1..];
  }

  /** A path without a dot has no extension, so it is an octet stream. */
  lemma NoDotOctetStream(path: string)
    requires '.' !in path
    ensures Extension(path) == "" && MimeType(Extension(path)) == OCTET_STREAM
  {
  }

  /** A dot in a directory name counts too: "a.b/c" has extension "b/c". */
  lemma DotInDirectory()
    ensures Extension("a.b/c") == "b/c" && MimeType(Extension("a.b/c")) == OCTET_STREAM
  {
    LastIndexOfAt("a.b/c", '.', 1);
  }

  /** The C string less its first character, when it has one. */
  function DropFirst(s: string): (r: string)
    ensures s != [] ==> [s[0]] + r == s
    ensures s == [] ==> r == []
  {
    if s == [] then [] else s[1..]
  }

  /** The name the server opens for a request path: the root becomes the
      index page, then the first character goes. */
  function Served(requested: string): (file: string)
    ensures requested == "/" ==> file == "index.html"
    ensures requested != "/" && requested != [] ==> file == requested[1..] && |file| == |requested| - 1
    ensures requested == [] ==> file == []
  {
    DropFirst(if requested == "/" then INDEX_PAGE else requested)
  }

  /** The root is served the index page, as HTML. */
  lemma RootIsHtml()
    ensures Served("/") == "index.html" && MimeType(Extension(Served("/"))) == "text/html"
  {
    LastIndexOfAt("index.html", '.', 5);
    assert "index.html"[6..] == "html";
  }

  // ---------------------------------------------------------------------
  // The handler's steps on the buffer

  /** strcmp(path, "/") == 0 */
  method IsRoot(path: array<char>) returns (root: bool)
    requires path.Length >= 2 && NulIndex(path[..]) < path.Length
    ensures root <==> CStr(path[..]) == "/"
  {
    root := path[0] == '/' && path[1] == NUL;
    if root {
      NulIndexIs(path[..], 1);
    }
  }

  /** strcpy(path, "/index.html"): the page name and its NUL at the start
      of the buffer; the rest of the buffer is left as it was. */
  method CopyIndex(path: array<char>)
    requires path.Length == PATH_SIZE
    modifies path
    ensures path[..|INDEX_PAGE| + 1] == INDEX_PAGE + [NUL]
    ensures path[|INDEX_PAGE| + 1..] == old(path[|INDEX_PAGE| + 1..])
    ensures CStr(path[..]) == INDEX_PAGE && NulIndex(path[..]) < path.Length
  {
    var src := INDEX_PAGE + [NUL];
    for i := 0 to |src|
      invariant path[..i] == src[..i]
      invariant path[|src|..] == old(path[|src|..])
    {
      path[i] := src[i];
    }
    assert path[..|src|] == src;
    NulIndexIs(path[..], |INDEX_PAGE|);
  }

  /** memmove(path, path + 1, strlen(path)): every character of the C string
      moves down by one, and so does its NUL; the rest of the buffer is
      left as it was. */
  method RemoveLeadingChar(path: array<char>)
    requires NulIndex(path[..]) < path.Length
    modifies path
    ensures NulIndex(path[..]) < path.Length
    ensures CStr(path[..]) == DropFirst(old(CStr(path[..])))
    ensures path[old(NulIndex(path[..]))..] == old(path[NulIndex(path[..])..])
  {
    ghost var before := path[..];
    var n := Strlen(path);
    for i := 0 to n
      invariant forall j :: 0 <= j < i ==> path[j] == before[j + 1]
      invariant forall j :: i <= j < path.Length ==> path[j] == before[j]
    {
      path[i] := path[i + 1];
    }
    if n > 0 {
      NulIndexIs(path[..], n - 1);
      assert CStr(path[..]) == before[1..n];
    } else {
      assert path[..] == before;
    }
  }

  /** strrchr(path, '.'): the position of the last '.' of the C string. */
  method LastDot(path: array<char>) returns (dot: Option<nat>)
    requires NulIndex(path[..]) < path.Length
    ensures dot == LastIndexOf(CStr(path[..]), '.')
  {
    dot := None;
    var i := 0;
    while path[i] != NUL
      invariant i <= NulIndex(path[..])
      invariant dot == LastIndexOf(path[..i], '.')
      decreases NulIndex(path[..]) - i
    {
      assert path[..i + 1][..i] == path[..i];
      if path[i] == '.' {
        dot := Some(i);
      }
      i := i + 1;
    }
    assert path[..i] == CStr(path[..]);
  }

  /** strrchr(path, '.') and the pointer step past it: the C string that
      starts after the last dot, or the empty string literal when there is
      no dot. */
  method ExtensionOf(path: array<char>) returns (ext: string)
    requires NulIndex(path[..]) < path.Length
    ensures ext == Extension(CStr(path[..]))
  {
    var dot := LastDot(path);
    if dot.Some? {
      var n := Strlen(path);
      ext := path[dot.value + 1..n];
    } else {
      ext := "";
    }
  }

  /** The part of handle_client between scanning the request line and
      opening the file: the root becomes the index page, the leading
      character is removed, and the extension after the last dot picks the
      type. The buffer then holds the name of the file to open. */
  method ResolveRequest(path: array<char>) returns (ext: string, mime: string)
    requires path.Length == PATH_SIZE && NulIndex(path[..]) < path.Length
    modifies path
    ensures CStr(path[..]) == Served(old(CStr(path[..])))
    ensures ext == Extension(CStr(path[..])) && mime == MimeType(ext)
  {
    var root := IsRoot(path);
    if root {
      CopyIndex(path);
    }
    RemoveLeadingChar(path);
    ext := ExtensionOf(path);
    mime := MimeType(ext);
  }
}
