/**
 Clean URLs and file choice (`_uri_path_build`, `_path_build`, `file_parse`, src/file.c).  The file system is a map
 from the path strings `stat` accepts to sizes, `realpath` a map from such strings to resolved ones.
 */
module CleanUrl {
  import opened Bytes
  import opened PercentCode

  const INDEX := "index"
  const INDEX_HTML := "index.html"
  const HTML_EXT := ".html"

  /**
   What `_uri_path_build` decides: a directory, a path to serve as it is, a shorter path to redirect to, or an error.
   */
  datatype Rule = Directory | Direct | Moved(to: string) | Invalid

  function LastSlash(u: string): (r: int)
    ensures -1 <= r < |u|
    ensures r >= 0 ==> u[r] == '/'
    ensures forall i :: r < i < |u| ==> u[i] != '/'
  {
    if u == "" then -1 else if u[|u| - 1] == '/' then |u| - 1 else LastSlash(u[..|u| - 1])
  }

  /** The text behind the last slash. */
  function LastSegment(u: string): string {
    u[LastSlash(u) + 1..]
  }

  predicate EndsWith(u: string, t: string) {
    |t| <= |u| && u[|u| - |t|..] == t
  }

  function Redirect(u: string): Rule {
    if u == "" then Invalid
    else if u[|u| - 1] == '/' then Directory
    else if LastSlash(u) < 0 then Invalid
    else if LastSegment(u) == INDEX then Moved(u[..|u| - |INDEX|])
    else if LastSegment(u) == INDEX_HTML then Moved(u[..|u| - |INDEX_HTML|])
    else if |u| - |HTML_EXT| <= 0 then Direct
    else if EndsWith(u, HTML_EXT) then Moved(u[..|u| - |HTML_EXT|])
    else Direct
  }

  /** Comparing a string together with its NUL decides equality of C strings. */
  lemma SameString(a: string, n: nat, p: nat, t: string)
    requires p <= n < |a| && a[n] == NUL && NUL !in a[..n] && NUL !in t
    ensures MatchAt(a, p, t + [NUL]) == (a[p..n] == t)
  {
    assert forall i :: p <= i < n ==> a[..n][i] == a[i];
    assert p + |t| == n ==> a[p..p + |t| + 1] == a[p..n] + [NUL];
    if MatchAt(a, p, t + [NUL]) {
      var m := a[p..p + |t| + 1];
      assert forall j :: p <= j <= p + |t| ==> a[j] == m[j - p] == (t + [NUL])[j - p];
      assert a[p + |t|] == NUL;
      assert forall j :: p <= j < p + |t| ==> a[j] == t[j - p] != NUL;
      assert a[p..n] == m[..|t|];
    }
  }

  /** What the file system answers: sizes for the paths `stat` accepts, and what `realpath` makes of a path. */
  datatype Disk = Disk(sizes: map<string, nat>, resolved: map<string, string>)

  datatype Choice = Missing | Chosen(path: string, size: nat)

  /** `_path_build`: a directory needs its index page, any other path may lack its extension. */
  function Choose(sizes: map<string, nat>, p: string, dir: bool): Choice {
    if dir then
      if p in sizes && p + INDEX_HTML in sizes then Chosen(p + INDEX_HTML, sizes[p + INDEX_HTML]) else Missing
    else if p in sizes then Chosen(p, sizes[p])
    else if p + HTML_EXT in sizes then Chosen(p + HTML_EXT, sizes[p + HTML_EXT])
    else Missing
  }

  datatype Outcome = Redirected(to: string) | NotFound | Failed | Serve(path: string, size: nat)

  /** The path string handed to `stat`: the web root, the decoded path, cut at the first NUL. */
  function RawPath(root: string, u: string): string {
    CStr(root + "/" + Decode(u))
  }

  function Parse(disk: Disk, root: string, u: string): Outcome {
    match Redirect(u)
    case Invalid => Failed
    case Moved(to) => Redirected(to)
    case _ =>
      match Choose(disk.sizes, RawPath(root, u), Redirect(u).Directory?)
      case Missing => NotFound
      case Chosen(p, size) =>
        if p !in disk.resolved then NotFound
        else if |disk.resolved[p]| >= PATH_SIZE then Failed
        else if root <= disk.resolved[p] then Serve(disk.resolved[p], size)
        else NotFound
  }

  lemma RuleAtEnds(u: string)
    ensures u == "" ==> Redirect(u) == Invalid
    ensures u != "" && u[|u| - 1] == '/' ==> Redirect(u) == Directory
    ensures u != "" && u[|u| - 1] != '/' && LastSlash(u) < 0 ==> Redirect(u) == Invalid
  {
    hide LastSlash, EndsWith;
  }

  lemma RuleOfSegment(u: string, p: nat)
    requires u != "" && u[|u| - 1] != '/' && p == LastSlash(u) + 1 > 0
    ensures p <= |u|
    ensures u[p..] == INDEX ==> |u| >= 5 && Redirect(u) == Moved(u[..|u| - 5])
    ensures u[p..] == INDEX_HTML ==> |u| >= 10 && Redirect(u) == Moved(u[..|u| - 10])
    ensures u[p..] != INDEX && u[p..] != INDEX_HTML && |u| > 5 && EndsWith(u, HTML_EXT) ==>
              Redirect(u) == Moved(u[..|u| - 5])
    ensures u[p..] != INDEX && u[p..] != INDEX_HTML && (|u| <= 5 || !EndsWith(u, HTML_EXT)) ==> Redirect(u) == Direct
  {
    hide LastSlash, EndsWith, INDEX, INDEX_HTML, HTML_EXT;
    NameLengths();
    assert |u[p..]| == |u| - p;
  }

  lemma NameLengths()
    ensures |INDEX| == 5 && |INDEX_HTML| == 10 && |HTML_EXT| == 5
  {
  }

  /** `struct fws_file`. */
  class File {
    const uriPath: array<char>
    var uriPathN: int
    var path: string
    var size: nat

    ghost predicate Valid()
      reads this, uriPath
    {
      && uriPath.Length == PATH_SIZE
      && 0 <= uriPathN < PATH_SIZE
      && uriPath[uriPathN] == NUL
      && NUL !in uriPath[..uriPathN]
    }

    ghost function Uri(): string
      requires Valid()
      reads this, uriPath
    {
      uriPath[..uriPathN]
    }

    /** The copy of the request path at the start of `file_parse`. */
    constructor (uri: string)
      requires |uri| < PATH_SIZE && NUL !in uri
      ensures Valid() && fresh(uriPath) && Uri() == uri
    {
      uriPath := new char[PATH_SIZE](_ => NUL);
      uriPathN := |uri|;
      path, size := "", 0;
      new;
      Put(uriPath, 0, uri);
      assert uriPath[..uriPathN] == uri;
    }

    /** `memcmp(p, t, sizeof(t)) == 0`: the C string at `p` is `t`. */
    method StringIs(p: nat, t: string) returns (same: bool)
      requires Valid() && p <= uriPathN && NUL !in t
      ensures same == (Uri()[p..] == t)
    {
      same := MatchAt(uriPath[..], p, t + [NUL]);
      SameString(uriPath[..], uriPathN, p, t);
      assert uriPath[..][p..uriPathN] == Uri()[p..] && uriPath[..][..uriPathN] == Uri();
    }

    /** The truncation every redirect branch performs. */
    method Truncate(n: nat)
      requires Valid() && n <= uriPathN
      modifies this`uriPathN, uriPath
      ensures Valid() && Uri() == old(Uri())[..old(uriPathN) - n]
    {
      uriPathN := uriPathN - n;
      uriPath[uriPathN] := NUL;
    }

    /** The tests of `_uri_path_build`: its return code, and how many characters a redirect cuts off. */
    method UriRule() returns (code: int, cut: nat)
      requires Valid()
      ensures match Redirect(Uri())
              case Invalid => code == -1
              case Directory => code == 1
              case Direct => code == 0
              case Moved(to) => code == 301 && cut <= uriPathN && to == Uri()[..uriPathN - cut]
    {
      hide LastSlash, EndsWith, Redirect;
      RuleAtEnds(Uri());
      if uriPathN == 0 { return -1, 0; }
      var lastChr := uriPath[uriPathN - 1];
      if lastChr == '/' { return 1, 0; }
      var u := uriPath[..uriPathN];
      var p1 := LastSlash(u);
      if p1 < 0 { return -1, 0; }
      p1 := p1 + 1;
      RuleOfSegment(u, p1);
      var same := StringIs(p1, INDEX);
      if same { return 301, |INDEX|; }
      same := StringIs(p1, INDEX_HTML);
      if same { return 301, |INDEX_HTML|; }
      var size := uriPathN - |HTML_EXT|;
      if size <= 0 { return 0, 0; }
      if EndsWith(u, HTML_EXT) { return 301, |HTML_EXT|; }
      return 0, 0;
    }

    /** `_uri_path_build`: the return code, and the path cut in place when it is a redirect. */
    method UriPathBuild() returns (code: int)
      requires Valid()
      modifies this`uriPathN, uriPath
      ensures Valid()
      ensures match Redirect(old(Uri()))
              case Invalid => code == -1 && Uri() == old(Uri())
              case Directory => code == 1 && Uri() == old(Uri())
              case Direct => code == 0 && Uri() == old(Uri())
              case Moved(to) => code == 301 && Uri() == to
    {
      hide Redirect;
      var cut;
      code, cut := UriRule();
      if code == 301 { Truncate(cut); }
    }

    /** `_path_build`: choose the file, extending the path string in place. */
    method PathBuild(pathBuf: array<char>, dir: bool, sizes: map<string, nat>, ghost p: string) returns (code: int)
      requires pathBuf.Length == PATH_SIZE && pathBuf != uriPath
      requires Filled(pathBuf, p + [NUL]) && NUL !in p && |p| + |INDEX_HTML| < PATH_SIZE
      modifies pathBuf, this`size
      ensures match Choose(sizes, p, dir)
              case Missing => code == 404
              case Chosen(q, n) => code == 0 && size == n && Filled(pathBuf, q + [NUL]) && NUL !in q
    {
      ghost var was := pathBuf[..];
      FilledString(pathBuf, p);
      var path := CStr(pathBuf[..]);
      var end := |path|;
      if dir {
        if path !in sizes { return 404; }
        Put(pathBuf, end, INDEX_HTML + [NUL]);
        Extended(pathBuf, was, p, INDEX_HTML);
        path := CStr(pathBuf[..]);
        if path !in sizes { return 404; }
        size := sizes[path];
      } else if path !in sizes {
        Put(pathBuf, end, HTML_EXT + [NUL]);
        Extended(pathBuf, was, p, HTML_EXT);
        path := CStr(pathBuf[..]);
        if path !in sizes { return 404; }
        size := sizes[path];
      } else {
        size := sizes[path];
      }
      return 0;
    }
  }

  lemma FilledString(a: array<char>, p: string)
    requires Filled(a, p + [NUL]) && NUL !in p
    ensures CStr(a[..]) == p
  {
    var s := a[..];
    assert s == p + [NUL] + s[|p| + 1..];
    CStrOf(p, s[|p| + 1..]);
  }

  /** Writing `t` and a NUL over the terminator of `p` leaves the string `p + t`. */
  lemma Extended(a: array<char>, was: string, p: string, t: string)
    requires |was| == a.Length && |p| + |t| < a.Length && NUL !in p && NUL !in t
    requires forall i :: 0 <= i < |p| ==> was[i] == p[i]
    requires forall i :: 0 <= i < a.Length ==> a[i] == if |p| <= i < |p| + |t| + 1 then (t + [NUL])[i - |p|] else was[i]
    ensures Filled(a, p + t + [NUL]) && NUL !in p + t && CStr(a[..]) == p + t
  {
    FilledString(a, p + t);
  }

  /** `file_parse`. */
  method FileParse(uri: string, root: string, disk: Disk) returns (code: int, file: File)
    requires NUL !in uri && NUL !in root
    requires |root| + 1 + |uri| + |INDEX_HTML| < PATH_SIZE
    ensures match Parse(disk, root, uri)
            case Failed => code == -1
            case NotFound => code == 404
            case Redirected(to) => code == 301 && file.Valid() && file.Uri() == to
            case Serve(path, size) => code == 0 && file.path == path && file.size == size
  {
    hide Decode, LastSlash, Redirect;
    file := new File(uri);
    var pathBuf := new char[PATH_SIZE](_ => NUL);
    RawPathBuild(pathBuf, uri, root);
    code := file.UriPathBuild();
    if code == 301 { return; }
    if code < 0 { return -1, file; }
    var p := CStr(pathBuf[..]);
    Terminated(pathBuf, root, uri);
    code := file.PathBuild(pathBuf, code == 1, disk.sizes, p);
    if code != 0 { return; }
    ghost var q := Choose(disk.sizes, p, Redirect(uri).Directory?).path;
    FilledString(pathBuf, q);
    var name := CStr(pathBuf[..]);
    if name !in disk.resolved { return 404, file; }
    var target := disk.resolved[name];
    if |target| >= PATH_SIZE { return -1, file; }
    file.path := target;
    if !(root <= target) { return 404, file; }
    code := 0;
  }

  /** The buffer `_raw_path_build` fills holds the path string that `stat` will see. */
  lemma Terminated(a: array<char>, root: string, uri: string)
    requires |Decode(uri)| <= |uri| && |root| + 1 + |uri| < a.Length
    requires a[..|root| + 1 + |Decode(uri)|] == root + "/" + Decode(uri)
    requires a[|root| + 1 + |Decode(uri)|] == NUL
    ensures CStr(a[..]) == RawPath(root, uri)
    ensures |RawPath(root, uri)| <= |root| + 1 + |uri| && Filled(a, RawPath(root, uri) + [NUL])
  {
    hide Decode;
    var s := a[..];
    var raw := root + "/" + Decode(uri);
    assert s[..|raw|] == raw && s[|raw|] == NUL;
    FindFirst(raw, 0, |raw|, NUL);
    var n := Find(raw, 0, |raw|, NUL);
    assert forall i :: 0 <= i < n ==> s[i] == s[..|raw|][i];
    assert n < |raw| ==> s[n] == s[..|raw|][n];
    FindIs(s, 0, |s|, NUL, n);
    assert s[..n] == raw[..n];
  }
}
