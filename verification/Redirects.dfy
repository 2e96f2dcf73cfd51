/**
 What the redirect rule promises: it terminates on a clean URL, and says exactly when it still names the same file.
 */
module Redirects {
  import opened Bytes
  import opened PercentCode
  import opened CleanUrl

  /** The paths the redirect rule accepts; all others are refused. */
  predicate HasSlash(u: string) {
    '/' in u
  }

  /** The paths of ordinary requests. */
  predicate Rooted(u: string) {
    u != "" && u[0] == '/'
  }

  lemma LastSlashIs(u: string, r: int)
    requires -1 <= r < |u| && (r >= 0 ==> u[r] == '/')
    requires forall i :: r < i < |u| ==> u[i] != '/'
    ensures LastSlash(u) == r
  {
    hide LastSlash;
  }

  /** Appending a last segment: the slash stays where it was. */
  lemma SegmentAppended(d: string, t: string)
    requires '/' !in t
    ensures LastSlash(d + t) == LastSlash(d) && LastSegment(d + t) == LastSegment(d) + t
  {
    hide LastSlash;
    var u := d + t;
    assert forall i :: |d| <= i < |u| ==> u[i] == t[i - |d|];
    assert forall i :: 0 <= i < |d| ==> u[i] == d[i];
    LastSlashIs(u, LastSlash(d));
  }

  // ---------------------------------------------------------------- termination and the normal form

  /** A redirect strictly shortens the path, by at least five characters, and keeps it a prefix with a slash. */
  lemma MovedShortens(u: string)
    requires HasSlash(u) && Redirect(u).Moved?
    ensures HasSlash(Redirect(u).to) && |Redirect(u).to| + 5 <= |u| && Redirect(u).to <= u
  {
    hide LastSlash;
    assert |LastSegment(u)| == |u| - LastSlash(u) - 1;
  }

  /** Follow redirects until the server stops sending them. */
  function Canonical(u: string): string
    requires HasSlash(u)
    decreases |u|
  {
    if Redirect(u).Moved? then
      MovedShortens(u);
      Canonical(Redirect(u).to)
    else u
  }

  function Hops(u: string): nat
    requires HasSlash(u)
    decreases |u|
  {
    if Redirect(u).Moved? then
      MovedShortens(u);
      1 + Hops(Redirect(u).to)
    else 0
  }

  /** A path no redirect applies to. */
  predicate Clean(u: string) {
    && HasSlash(u)
    && LastSegment(u) != INDEX && LastSegment(u) != INDEX_HTML
    && !EndsWith(u, HTML_EXT)
  }

  lemma EndsInL(u: string)
    requires EndsWith(u, HTML_EXT)
    ensures u[|u| - 1] == 'l' && u[|u| - 5] == '.'
  {
    assert u[|u| - |HTML_EXT|..][4] == 'l' && u[|u| - |HTML_EXT|..][0] == '.';
  }

  lemma CleanIff(u: string)
    requires HasSlash(u)
    ensures Clean(u) <==> !Redirect(u).Moved?
    ensures !Redirect(u).Invalid?
  {
    hide LastSlash;
    assert LastSlash(u) >= 0;
    if EndsWith(u, HTML_EXT) { EndsInL(u); }
    if u[|u| - 1] == '/' {
      LastSlashIs(u, |u| - 1);
      assert LastSegment(u) == "";
    }
  }

  /**
   Redirecting ends after at most a fifth of the path's length in hops, at a clean path that is a prefix of the
   original and on which nothing moves any more.
   */
  lemma {:induction false} RedirectsEnd(u: string)
    requires HasSlash(u)
    ensures 5 * Hops(u) <= |u| - |Canonical(u)| && Hops(u) <= |u| / 5
    ensures Clean(Canonical(u)) && Canonical(u) <= u
    ensures Canonical(Canonical(u)) == Canonical(u) && Hops(Canonical(u)) == 0
    decreases |u|
  {
    hide LastSlash, Redirect;
    CleanIff(u);
    if Redirect(u).Moved? {
      MovedShortens(u);
      RedirectsEnd(Redirect(u).to);
    }
  }

  // ---------------------------------------------------------------- what file_parse answers

  /**
   `file_parse` redirects exactly the paths that are not clean, whatever the disk holds, and each time to a prefix that
   is shorter by at least five characters and has the same normal form.
   */
  lemma ParseMoves(disk: Disk, root: string, u: string)
    requires HasSlash(u)
    ensures Parse(disk, root, u).Redirected? <==> !Clean(u)
    ensures if Clean(u) then Canonical(u) == u && Hops(u) == 0
            else
              var to := Parse(disk, root, u).to;
              && HasSlash(to) && to <= u && |to| + 5 <= |u|
              && Canonical(to) == Canonical(u) && Hops(u) == 1 + Hops(to)
  {
    hide Redirect, RawPath, LastSlash, EndsWith;
    CleanIff(u);
    if Redirect(u).Moved? { MovedShortens(u); }
  }

  /** A path without a slash is refused. */
  lemma NoSlashFails(disk: Disk, root: string, u: string)
    requires !HasSlash(u)
    ensures Parse(disk, root, u) == Failed
  {
    hide RawPath, LastSlash, EndsWith;
    assert LastSlash(u) < 0;
  }

  predicate IsDir(u: string) {
    u != "" && u[|u| - 1] == '/'
  }

  /** The file a path string stands for: a directory's index page, or an entry that may lack its extension. */
  predicate StandsFor(sizes: map<string, nat>, raw: string, dir: bool, p: string) {
    && p in sizes
    && if dir then raw in sizes && p == raw + INDEX_HTML else p == raw || (raw !in sizes && p == raw + HTML_EXT)
  }

  lemma ChooseIff(sizes: map<string, nat>, raw: string, dir: bool, p: string)
    ensures Choose(sizes, raw, dir).Chosen? && Choose(sizes, raw, dir).path == p <==> StandsFor(sizes, raw, dir, p)
    ensures Choose(sizes, raw, dir).Chosen? ==> Choose(sizes, raw, dir).size == sizes[Choose(sizes, raw, dir).path]
  {
    assert |raw + HTML_EXT| != |raw|;
  }

  /** The file a clean path stands for, and where `realpath` takes it. */
  predicate LeadsTo(disk: Disk, root: string, u: string, p: string, target: string) {
    StandsFor(disk.sizes, RawPath(root, u), IsDir(u), p) && p in disk.resolved && disk.resolved[p] == target
  }

  /** Which clean paths are served, with what, and which are refused. */
  lemma ParseIff(disk: Disk, root: string, u: string, target: string, size: nat)
    requires Clean(u)
    ensures Parse(disk, root, u) == Serve(target, size) <==>
            |target| < PATH_SIZE && root <= target &&
            exists p :: LeadsTo(disk, root, u, p, target) && disk.sizes[p] == size
    ensures Parse(disk, root, u).Failed? <==> exists p, t :: LeadsTo(disk, root, u, p, t) && |t| >= PATH_SIZE
  {
    hide Redirect, RawPath, LastSlash, EndsWith, Choose, StandsFor;
    CleanIff(u);
    DirectoryIff(u);
    var raw := RawPath(root, u);
    var choice := Choose(disk.sizes, raw, IsDir(u));
    forall p ensures choice.Chosen? && choice.path == p <==> StandsFor(disk.sizes, raw, IsDir(u), p) {
      ChooseIff(disk.sizes, raw, IsDir(u), p);
    }
    if choice.Chosen? && choice.path in disk.resolved {
      ChooseIff(disk.sizes, raw, IsDir(u), choice.path);
      assert LeadsTo(disk, root, u, choice.path, disk.resolved[choice.path]);
    }
  }

  lemma DirectoryIff(u: string)
    ensures Redirect(u).Directory? <==> IsDir(u)
  {
    hide LastSlash, EndsWith;
  }

  /** The path a client ends up asking for that follows the redirects until it gets another answer. */
  function LastAsked(disk: Disk, root: string, u: string): string
    requires HasSlash(u)
    decreases |u|
  {
    ParseMoves(disk, root, u);
    match Parse(disk, root, u)
    case Redirected(to) => LastAsked(disk, root, to)
    case _ => u
  }

  lemma {:induction false} AskedIsCanonical(disk: Disk, root: string, u: string)
    requires HasSlash(u)
    ensures LastAsked(disk, root, u) == Canonical(u)
    decreases |u|
  {
    hide Parse, Canonical, Clean;
    ParseMoves(disk, root, u);
    if !Clean(u) { AskedIsCanonical(disk, root, Parse(disk, root, u).to); }
  }

  // ---------------------------------------------------------------- the redirect keeps the file

  lemma RawPathOf(root: string, u: string)
    requires NUL !in root && NUL !in Decode(u)
    ensures RawPath(root, u) == root + "/" + Decode(u)
  {
    hide Decode;
    var s := root + "/" + Decode(u);
    assert forall i :: 0 <= i < |s| ==> s[i] != NUL by {
      assert forall i :: 0 <= i < |s| ==>
               s[i] == if i < |root| then root[i] else if i == |root| then '/' else Decode(u)[i - |root| - 1];
    }
  }

  /** Adding a literal suffix to a path adds it to the string `stat` sees, unless a decoded NUL cut that short. */
  lemma RawPathSuffix(root: string, u: string, t: string)
    requires NUL !in root && t != "" && HexValue(t[0]) < 0 && NUL !in t && '%' !in t
    ensures RawPath(root, u + t) == if NUL in Decode(u) then RawPath(root, u) else RawPath(root, u) + t
  {
    hide Decode, CStr;
    NonHexSuffix(u, t);
    NoPercent(t);
    var d := Decode(u);
    Regroup(root + "/", d, t);
    if NUL in d {
      assert (root + "/" + d)[|root| + 1..] == d;
      CutEarly(root + "/" + d, t, |root| + 1);
    } else {
      RawPathOf(root, u);
      RawPathOf(root, u + t);
    }
  }

  lemma NoPercent(t: string)
    requires '%' !in t
    ensures Decode(t) == t
  {
    hide Decode;
    EscapesZeroIff(t);
    UnchangedIff(t);
  }

  lemma CutEarly(s: string, t: string, from: nat)
    requires from <= |s| && NUL in s[from..]
    ensures CStr(s + t) == CStr(s)
  {
    hide Find;
    FindFirst(s, 0, |s|, NUL);
    var n := Find(s, 0, |s|, NUL);
    assert exists i :: from <= i < |s| && s[i] == NUL by {
      var j :| 0 <= j < |s[from..]| && s[from..][j] == NUL;
      assert s[from + j] == NUL;
    }
    FindIs(s + t, 0, |s + t|, NUL, n);
    assert (s + t)[..n] == s[..n];
  }

  lemma HtmlOfIndex(seg: string)
    ensures seg + HTML_EXT == INDEX_HTML <==> seg == INDEX
    ensures seg + HTML_EXT != INDEX
  {
    var t := seg + HTML_EXT;
    assert t[|t| - 1] == 'l' && t[..|t| - 5] == seg;
    assert INDEX_HTML[..5] == INDEX && INDEX + HTML_EXT == INDEX_HTML;
  }

  /** The extension is cut off any path whose last segment is not an index page. */
  lemma HtmlMoves(s: string)
    requires HasSlash(s) && LastSegment(s) != INDEX
    ensures Redirect(s + HTML_EXT) == Moved(s)
  {
    hide LastSlash;
    SegmentAppended(s, HTML_EXT);
    HtmlOfIndex(LastSegment(s));
    var u := s + HTML_EXT;
    assert u[|u| - |HTML_EXT|..] == HTML_EXT && u[..|u| - |HTML_EXT|] == s && u[|u| - 1] == 'l';
  }

  /** Both spellings of the index page of a directory move to the directory. */
  lemma IndexMoves(d: string, t: string)
    requires HasSlash(d) && d[|d| - 1] == '/' && (t == INDEX || t == INDEX_HTML)
    ensures Redirect(d + t) == Moved(d)
  {
    hide LastSlash;
    LastSlashIs(d, |d| - 1);
    SegmentAppended(d, t);
    var u := d + t;
    assert LastSegment(u) == "" + t == t;
    assert u[|u| - 1] == t[|t| - 1] && u[..|u| - |t|] == d;
  }

  /**
   Clean-URL redirect.  Asking for `s.html` moves the client to `s`; if the file `s.html` names exists, `s` is then
   answered with that file exactly when nothing exists at the extensionless path (a decoded NUL in `s` cuts the
   path before the extension, and then both name the same string).
   */
  lemma HtmlRedirectKeepsFile(sizes: map<string, nat>, root: string, s: string)
    requires NUL !in root && HasSlash(s) && Redirect(s) == Direct
    requires RawPath(root, s + HTML_EXT) in sizes
    ensures Redirect(s + HTML_EXT) == Moved(s)
    ensures var named := RawPath(root, s + HTML_EXT);
            Choose(sizes, RawPath(root, s), false) == Chosen(named, sizes[named]) <==>
            NUL in Decode(s) || RawPath(root, s) !in sizes
  {
    hide Decode, LastSlash, RawPath;
    CleanIff(s);
    HtmlMoves(s);
    RawPathSuffix(root, s, HTML_EXT);
    assert |RawPath(root, s) + HTML_EXT| != |RawPath(root, s)|;
  }

  /**
   Index redirect.  Both `d/index` and `d/index.html` move to `d/`; `d/` is answered with the file `d/index.html`
   names exactly when `stat` accepts the directory and that file.
   */
  lemma IndexRedirectKeepsFile(sizes: map<string, nat>, root: string, d: string)
    requires NUL !in root && HasSlash(d) && d[|d| - 1] == '/' && NUL !in Decode(d)
    ensures Redirect(d + INDEX) == Moved(d) && Redirect(d + INDEX_HTML) == Moved(d) && Redirect(d) == Directory
    ensures var named := RawPath(root, d + INDEX_HTML);
            Choose(sizes, RawPath(root, d), true) ==
            if named in sizes && RawPath(root, d) in sizes then Chosen(named, sizes[named]) else Missing
  {
    hide Decode, RawPath, Redirect;
    RuleAtEnds(d);
    IndexMoves(d, INDEX);
    IndexMoves(d, INDEX_HTML);
    assert HexValue(INDEX_HTML[0]) < 0;
    RawPathSuffix(root, d, INDEX_HTML);
  }

  /**
   The extensionless form of an index page: `d/index` without an entry of its own would be answered with
   `d/index.html`, and so is the directory it is redirected to once that exists.
   */
  lemma BareIndexKeepsFile(sizes: map<string, nat>, root: string, d: string)
    requires NUL !in root && HasSlash(d) && d[|d| - 1] == '/' && NUL !in Decode(d)
    requires RawPath(root, d) in sizes
    ensures Choose(sizes, RawPath(root, d + INDEX), false) == Choose(sizes, RawPath(root, d), true) <==>
            RawPath(root, d + INDEX) !in sizes
  {
    hide Decode, Redirect, RawPath;
    IndexRedirectKeepsFile(sizes, root, d);
    RawPathSuffix(root, d, INDEX);
    RawPathSuffix(root, d, INDEX_HTML);
    assert INDEX + HTML_EXT == INDEX_HTML;
    Regroup(RawPath(root, d), INDEX, HTML_EXT);
    assert |RawPath(root, d) + INDEX| != |RawPath(root, d) + INDEX_HTML|;
  }

  // ---------------------------------------------------------------- whole chains

  /** The text a redirect can cut off: it starts like no hex digit, and holds neither an escape, a NUL nor a slash. */
  predicate Literal(t: string) {
    t == "" || (HexValue(t[0]) < 0 && '%' !in t && NUL !in t && '/' !in t)
  }

  lemma MovedCuts(u: string)
    requires HasSlash(u) && Redirect(u).Moved?
    ensures Redirect(u).to <= u && Literal(u[|Redirect(u).to|..])
  {
    hide LastSlash;
    assert |LastSegment(u)| == |u| - LastSlash(u) - 1;
    assert Literal(INDEX) && Literal(INDEX_HTML) && Literal(HTML_EXT);
    assert LastSegment(u) == INDEX ==> u[|u| - 5..] == LastSegment(u);
    assert LastSegment(u) == INDEX_HTML ==> u[|u| - 10..] == LastSegment(u);
  }

  /** What all redirects of a chain cut off together. */
  lemma {:induction false} ChainCuts(u: string)
    requires HasSlash(u)
    ensures HasSlash(Canonical(u)) && Canonical(u) <= u && Literal(u[|Canonical(u)|..])
    ensures Hops(u) == 0 <==> Canonical(u) == u
    decreases |u|
  {
    hide Redirect;
    RedirectsEnd(u);
    if Redirect(u).Moved? {
      MovedShortens(u);
      MovedCuts(u);
      var v := Redirect(u).to;
      ChainCuts(v);
      var c := Canonical(v);
      assert u[|c|..] == v[|c|..] + u[|v|..];
      LiteralSum(v[|c|..], u[|v|..]);
    } else {
      assert u[|u|..] == "";
    }
  }

  lemma LiteralSum(a: string, b: string)
    requires Literal(a) && Literal(b)
    ensures Literal(a + b)
  {
    assert a == "" ==> a + b == b;
  }

  /** How many hops a chain had, from what it cut off. */
  lemma HopsOf(u: string)
    requires HasSlash(u)
    ensures var c := Canonical(u);
            && !Redirect(c).Moved? && !Redirect(c).Invalid? && HasSlash(c)
            && (u == c <==> Hops(u) == 0)
            && (u == c + HTML_EXT ==> Hops(u) == 1)
            && (u == c + INDEX_HTML && Redirect(c).Directory? ==> Hops(u) == 1)
  {
    hide Redirect, LastSlash;
    RedirectsEnd(u);
    ChainCuts(u);
    var c := Canonical(u);
    CleanIff(c);
    if u == c + INDEX_HTML && Redirect(c).Directory? {
      DirectoryEnds(c);
      IndexMoves(c, INDEX_HTML);
    }
  }

  lemma DirectoryEnds(c: string)
    requires Redirect(c).Directory?
    ensures c != "" && c[|c| - 1] == '/'
  {
  }

  /** The strings `stat` sees for the beginning and the end of a chain. */
  lemma ChainPaths(root: string, u: string)
    requires NUL !in root && HasSlash(u)
    ensures var c := Canonical(u);
            && c <= u
            && (NUL in Decode(u) <==> NUL in Decode(c))
            && RawPath(root, u) == if NUL in Decode(u) then RawPath(root, c) else RawPath(root, c) + u[|c|..]
  {
    hide Decode, RawPath, Canonical, Redirect;
    ChainCuts(u);
    var c := Canonical(u);
    var w := u[|c|..];
    assert u == c + w;
    if w == "" {
      assert RawPath(root, c) + w == RawPath(root, c);
    } else {
      RawPathSuffix(root, c, w);
      NonHexSuffix(c, w);
      NoPercent(w);
    }
  }

  /** A client that follows the redirects from `u` ends at a path that stands for the file `u` names. */
  predicate ChainKeeps(disk: Disk, root: string, u: string)
    requires HasSlash(u)
  {
    var end := LastAsked(disk, root, u);
    StandsFor(disk.sizes, RawPath(root, end), IsDir(end), RawPath(root, u))
  }

  /**
   Whole redirect chains.  When `u` names an existing file, the path a client ends at that follows the redirects is
   answered with that file exactly when
     - there was no redirect, or the only one cut `.html` off and nothing exists at the extensionless path, or
     - the only one cut `index.html` off and the directory exists, or
     - a decoded NUL ends both strings before anything is cut, and the last path is no directory.
   */
  lemma ChainKeepsIff(disk: Disk, root: string, u: string)
    requires NUL !in root && HasSlash(u) && RawPath(root, u) in disk.sizes
    ensures var c := LastAsked(disk, root, u);
            ChainKeeps(disk, root, u) <==>
            if IsDir(c) then
              Hops(u) == 1 && u == c + INDEX_HTML && NUL !in Decode(u) && RawPath(root, c) in disk.sizes
            else
              || Hops(u) == 0 || NUL in Decode(u)
              || (Hops(u) == 1 && u == c + HTML_EXT && RawPath(root, c) !in disk.sizes)
  {
    hide Decode, RawPath, Canonical, Redirect, Hops, LastAsked;
    AskedIsCanonical(disk, root, u);
    HopsOf(u);
    ChainPaths(root, u);
    var c := Canonical(u);
    DirectoryIff(c);
    var w := u[|c|..];
    assert u == c + w;
    SameTail(RawPath(root, c), w, "");
    SameTail(RawPath(root, c), w, HTML_EXT);
    SameTail(RawPath(root, c), w, INDEX_HTML);
    SameTail(c, w, "");
    SameTail(c, w, HTML_EXT);
    SameTail(c, w, INDEX_HTML);
    assert |HTML_EXT| == 5 && |INDEX_HTML| == 10;
  }

  lemma SameTail(a: string, v: string, w: string)
    ensures a + v == a + w <==> v == w
    ensures a + "" == a
  {
    assert (a + v)[|a|..] == v && (a + w)[|a|..] == w;
  }

  /** Two or more redirects lose the file, except behind a decoded NUL in front of a path that is no directory. */
  lemma TwoHopsKeepIff(disk: Disk, root: string, u: string)
    requires NUL !in root && HasSlash(u) && Hops(u) >= 2
    ensures ChainKeeps(disk, root, u) <==>
            RawPath(root, u) in disk.sizes && NUL in Decode(u) && !IsDir(LastAsked(disk, root, u))
  {
    hide Decode, RawPath, Hops, LastAsked, IsDir;
    if RawPath(root, u) in disk.sizes { ChainKeepsIff(disk, root, u); }
  }

  /** For instance a double extension: the file named by `/a.html.html` is asked for as `/a` and answered with 404. */
  lemma DoubleExtensionLosesFile()
    ensures var disk := Disk(map["r//a.html.html" := 1], map["r//a.html.html" := "r/a.html.html"]);
            && RawPath("r", "/a.html.html") in disk.sizes
            && LastAsked(disk, "r", "/a.html.html") == "/a" && Parse(disk, "r", "/a") == NotFound
  {
    hide Decode, LastSlash, Redirect, Canonical, RawPath;
    var disk := Disk(map["r//a.html.html" := 1], map["r//a.html.html" := "r/a.html.html"]);
    var a := "/a";
    LastSlashIs(a, 0);
    assert LastSegment(a) == "a" != INDEX_HTML;
    SegmentAppended(a, HTML_EXT);
    var b := a + HTML_EXT;
    assert LastSegment(b)[0] == 'a';
    HtmlMoves(a);
    HtmlMoves(b);
    assert Clean(a);
    CleanIff(a);
    DirectoryIff(a);
    DoubleExtensionPaths();
    assert Parse(disk, "r", b + HTML_EXT) == Redirected(b) && Parse(disk, "r", b) == Redirected(a);
    assert Choose(disk.sizes, "r//a", false) == Missing;
  }

  lemma DoubleExtensionPaths()
    ensures "/a" + HTML_EXT + HTML_EXT == "/a.html.html"
    ensures RawPath("r", "/a") == "r//a" && RawPath("r", "/a.html.html") == "r//a.html.html"
    ensures "r//a" + HTML_EXT == "r//a.html"
  {
    hide Decode;
    NoPercent("/a");
    NoPercent("/a.html.html");
    RawPathOf("r", "/a");
    RawPathOf("r", "/a.html.html");
  }
}
