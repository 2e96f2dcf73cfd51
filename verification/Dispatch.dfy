/**
 The dispatch of one request in `_fws_443_run` (src/fws.c): file choice, rate limiter and entity tag decide which reply
 the connection sends.  Response texts are opaque; of a 200 or 304 header only the type and the length it announces
 matter.
 */
module Dispatch {
  import opened Bytes
  import C = CleanUrl
  import P = PercentCode
  import R = Redirects
  import L = RateLimiter
  import opened Conditional
  import M = MimeLookup
  import Y = MimeSyntax
  import N = Connection

  /** Header texts: the redirect, the error pages, and the header of a 304 or of a 200 that announces a length. */
  datatype Texts = Texts(moved: (string, string) -> string, page: int -> (string, string),
                         unmodified: string, full: (string, nat) -> string)

  /** `conf->mime` and `conf->mime_default`. */
  datatype Types = Types(table: string, default: string)

  /** The file system as the process sees it: what `stat`, `realpath`, `fstat`, `open` and `read` answer. */
  datatype Environment = Environment(fs: C.Disk, times: map<string, nat>, contents: N.Disk)

  /** A path that resolves has a modification time, and `stat` reports the size of a regular file it leads to. */
  ghost predicate Consistent(env: Environment) {
    forall p :: p in env.fs.sizes && p in env.fs.resolved ==>
      var f := env.fs.resolved[p];
      f in env.times && (f in env.contents && env.contents[f].File? ==> |env.contents[f].content| == env.fs.sizes[p])
  }

  /** The class of a request for the limiter: pages and everything that is not served. */
  predicate IsPage(o: C.Outcome) {
    match o
    case Serve(path, _) => C.EndsWith(path, C.HTML_EXT)
    case _ => true
  }

  /** Does the request get as far as the limiter? */
  predicate Counted(o: C.Outcome) {
    o.NotFound? || o.Serve?
  }

  datatype Announcement = Unmodified | Full(typ: string, announced: nat)

  /** What `net_http_res_build` writes to `content` for an answer of the lookup; nothing when the table is broken. */
  function ContentFor(a: M.Answer, types: Types): string {
    match a
    case Found(t) => t
    case Default => types.default
    case Bad => ""
  }

  /**
   The `Content-Type` of a response: the lookup is only reached when the tag part reports neither an error nor a 304.
   */
  function TypeOf(o: C.Outcome, env: Environment, types: Types, etag: string): string
    requires o.Serve? && o.path in env.times
  {
    if BuildDecision(etag, o.path in env.contents, env.times[o.path], o.size) != 0 then ""
    else ContentFor(M.ScanTable(types.table, 0, M.Extension(o.path)), types)
  }

  /** The header `net_443_res_write` chooses: it compares the response's tag buffer with the request's. */
  function HeaderOf(o: C.Outcome, env: Environment, types: Types, etag: string): Announcement
    requires o.Serve? && o.path in env.times
  {
    var built := if o.path in env.contents then Padded(Tag(env.times[o.path], o.size)) else Zeros(ETAG_SIZE);
    if WriteDecision(built, etag) then Unmodified else Full(TypeOf(o, env, types, etag), o.size)
  }

  function HeaderText(h: Announcement, texts: Texts): string {
    match h
    case Unmodified => texts.unmodified
    case Full(t, n) => texts.full(t, n)
  }

  /** Whether `net_http_res_build` says 304, and no body is sent. */
  predicate NoBody(o: C.Outcome, env: Environment, etag: string)
    requires o.Serve? && o.path in env.times
  {
    BuildDecision(etag, o.path in env.contents, env.times[o.path], o.size) == 304
  }

  /** The reply, given what the parts decided. */
  function Decide(o: C.Outcome, v: L.Verdict, env: Environment, types: Types, host: string, etag: string, texts: Texts)
    : N.Reply
    requires o.Serve? ==> o.path in env.times
  {
    if o.Failed? then N.Drop
    else if o.Redirected? then N.Redirect(texts.moved(host, o.to))
    else if v.Refuse? then
      var (head, page) := texts.page(429);
      if v.closes then N.Refuse(head, page) else N.Report(head, page)
    else if o.NotFound? then
      var (head, page) := texts.page(404);
      N.Report(head, page)
    else
      var head := HeaderText(HeaderOf(o, env, types, etag), texts);
      if NoBody(o, env, etag) then N.NotModified(head) else N.Send(head, o.path)
  }

  /** A served file is one `realpath` named, of the size `stat` reported. */
  lemma ServedFile(env: Environment, root: string, uri: string)
    requires Consistent(env)
    ensures var o := C.Parse(env.fs, root, uri);
            o.Serve? ==> o.path in env.times && root <= o.path &&
                         (Regular(env, o.path) ==> o.size == |N.Content(env.contents, o.path)|)
  {
    hide C.Redirect, C.RawPath;
    var o := C.Parse(env.fs, root, uri);
    if o.Serve? {
      var p := C.Choose(env.fs.sizes, C.RawPath(root, uri), C.Redirect(uri).Directory?).path;
      assert p in env.fs.sizes && p in env.fs.resolved;
    }
  }

  /** The dispatch code: file choice first, then the limiter, then the tag. */
  method HandleRequest(uri: string, root: string, host: string, env: Environment, types: Types, table: L.Table,
                       lim: L.Limits, ip: L.Ip, etag: array<char>, texts: Texts) returns (reply: N.Reply)
    requires Consistent(env) && NUL !in uri && NUL !in root
    requires |root| + 1 + |uri| + |C.INDEX_HTML| < P.PATH_SIZE
    requires table.slots.Length == L.SLOTS && etag.Length == ETAG_SIZE && NUL in etag[..]
    modifies table.slots
    ensures var o := C.Parse(env.fs, root, uri);
            && (o.Serve? ==> o.path in env.times)
            && if Counted(o) then
                 var (slots, v) := L.TableHit(lim, old(table.slots[..]), ip, IsPage(o));
                 table.slots[..] == slots && reply == Decide(o, v, env, types, host, old(etag[..]), texts)
               else
                 table.slots[..] == old(table.slots[..]) &&
                 reply == Decide(o, L.Serve, env, types, host, old(etag[..]), texts)
  {
    hide C.Parse, L.TableHit, Tag, BuildDecision, M.Extension, M.ScanTable;
    ghost var o := C.Parse(env.fs, root, uri);
    ghost var was := etag[..];
    ServedFile(env, root, uri);
    var code, file := C.FileParse(uri, root, env.fs);
    if code == 301 { return N.Redirect(texts.moved(host, file.uriPath[..file.uriPathN])); }
    if code < 0 { return N.Drop; }
    var isHtml := code == 0 && C.EndsWith(file.path, C.HTML_EXT);
    var v := table.Request(lim, ip, isHtml || code != 0);
    if v.Refuse? {
      var (head, page) := texts.page(429);
      return if v.closes then N.Refuse(head, page) else N.Report(head, page);
    }
    if code != 0 {
      var (head, page) := texts.page(404);
      return N.Report(head, page);
    }
    var dst := new char[ETAG_SIZE](_ => NUL);
    assert dst[..] == Zeros(ETAG_SIZE);
    var ret := GetEtag(dst, etag, file.path in env.contents, env.times[file.path], file.size);
    assert etag[..] == was;
    var content := "";
    if ret == 0 {
      var answer, _ := M.LookupType(types.table, file.path);
      content := ContentFor(answer, types);
    }
    var head := if dst[..] == etag[..] then texts.unmodified else texts.full(content, file.size);
    return if ret == 304 then N.NotModified(head) else N.Send(head, file.path);
  }

  // ---------------------------------------------------------------- what the replies promise

  /** The reply to a request that has been parsed and counted. */
  function Answer(env: Environment, types: Types, root: string, uri: string, v: L.Verdict, host: string, etag: string,
                  texts: Texts): N.Reply
    requires Consistent(env)
  {
    ServedFile(env, root, uri);
    Decide(C.Parse(env.fs, root, uri), v, env, types, host, etag, texts)
  }

  /**
   Which kind of reply a request gets.  A path without a slash, and one whose file has too long a name, is dropped
   without one; a path that is not clean is redirected, to the path `file_parse` names and whatever the limiter says;
   any other request the limiter refuses gets the 429 page, and the connection is closed exactly if the limiter said so;
   and one that passes gets the 404 page if nothing is found, and its file or a 304 otherwise.
   */
  lemma ReplyKind(env: Environment, types: Types, root: string, uri: string, v: L.Verdict, host: string, etag: string,
                  texts: Texts)
    requires Consistent(env)
    ensures var o, reply := C.Parse(env.fs, root, uri), Answer(env, types, root, uri, v, host, etag, texts);
            && (reply.Drop? <==> o.Failed?) && (!R.HasSlash(uri) ==> reply.Drop?)
            && (reply.Redirect? <==> R.HasSlash(uri) && !R.Clean(uri))
            && (reply.Redirect? ==> o.Redirected? && reply.head == texts.moved(host, o.to))
            && (!reply.Drop? && !reply.Redirect? ==>
                  && (v.Refuse? ==>
                        reply == if v.closes then N.Refuse(texts.page(429).0, texts.page(429).1)
                                 else N.Report(texts.page(429).0, texts.page(429).1))
                  && (v.Serve? && o.NotFound? ==> reply == N.Report(texts.page(404).0, texts.page(404).1))
                  && (v.Serve? && !o.NotFound? ==>
                        o.Serve? && (reply.NotModified? || (reply.Send? && reply.path == o.path))))
  {
    hide C.Parse, R.Clean, R.HasSlash, HeaderOf, BuildDecision, R.Canonical, R.Hops;
    ServedFile(env, root, uri);
    if R.HasSlash(uri) { R.ParseMoves(env.fs, root, uri); } else { R.NoSlashFails(env.fs, root, uri); }
  }

  predicate Regular(env: Environment, path: string) {
    path in env.contents && env.contents[path].File?
  }

  /** The bytes that follow the header of a served file. */
  function BodyOf(o: C.Outcome, env: Environment, etag: string): string
    requires o.Serve? && o.path in env.times
  {
    if NoBody(o, env, etag) then "" else N.Content(env.contents, o.path)
  }

  /** The length of the body is the announced one; a 304 has no body. */
  predicate WellFramed(o: C.Outcome, env: Environment, types: Types, etag: string)
    requires o.Serve? && o.path in env.times
  {
    match HeaderOf(o, env, types, etag)
    case Unmodified => BodyOf(o, env, etag) == ""
    case Full(_, n) => |BodyOf(o, env, etag)| == n
  }

  /** The complete response to a served file is its header and its body. */
  lemma ServedResponse(env: Environment, types: Types, root: string, uri: string, host: string, etag: string,
                       texts: Texts)
    requires Consistent(env)
    ensures var o := C.Parse(env.fs, root, uri);
            o.Serve? ==>
              && o.path in env.times
              && N.Full(Answer(env, types, root, uri, L.Serve, host, etag, texts), env.contents) ==
                 HeaderText(HeaderOf(o, env, types, etag), texts) + BodyOf(o, env, etag)
  {
    hide C.Parse, BuildDecision, HeaderOf, HeaderText;
    ServedFile(env, root, uri);
  }

  /**
   An ordinary answer.  A regular file whose tag the client did not send is answered with its whole content, under a
   header that announces its length and labels it with the type of the first configured entry that lists its extension.
   */
  lemma ServedLabelled(env: Environment, types: Types, es: seq<Y.Entry>, root: string, uri: string, values: seq<string>)
    requires Consistent(env) && Y.EntriesOk(es) && types.table == Y.Compact(es)
    requires C.Parse(env.fs, root, uri).Serve? && Regular(env, C.Parse(env.fs, root, uri).path)
    ensures C.Parse(env.fs, root, uri).path in env.times
    ensures var o, etag := C.Parse(env.fs, root, uri), AfterHeaders(Zeros(ETAG_SIZE), values);
            !SentTag(Usable(values), Tag(env.times[o.path], o.size)) ==>
              && HeaderOf(o, env, types, etag) ==
                 Full(match M.FirstMatch(es, M.Extension(o.path))
                      case Found(t) => t
                      case Default => types.default
                      case Bad => "", |env.contents[o.path].content|)
              && BodyOf(o, env, etag) == env.contents[o.path].content
  {
    hide C.Parse, Tag, M.ScanTable, M.FirstMatch, M.Extension, Y.Compact, Y.EntriesOk, CStr;
    hide AfterHeaders, Zeros, Usable, SentTag, LeftBehind, Padded;
    ServedFile(env, root, uri);
    var o := C.Parse(env.fs, root, uri);
    WhatEachSees(values, env.times[o.path], o.size);
    M.LookupCompact(es, M.Extension(o.path));
  }

  /** The header of a path that cannot be opened carries no type. */
  lemma UnopenedUnlabelled(o: C.Outcome, env: Environment, types: Types, etag: string)
    requires o.Serve? && o.path in env.times && o.path !in env.contents
    ensures HeaderOf(o, env, types, etag) == if etag == Zeros(ETAG_SIZE) then Unmodified else Full("", o.size)
  {
    hide Zeros;
  }

  /**
   Framing of responses, for every path, file system and list of `If-None-Match` values.  What follows the header of a
   served path is exactly what the header announced if and only if
     - `stat` reported the size 0, or
     - the path is a regular file, and it is not the case that the last usable tag is the file's and an earlier one has
       left something behind it, or
     - the path is a directory, and the client sent exactly its tag, or
     - the path cannot be opened, and no byte of a tag is left in the request's buffer.
   */
  lemma AnnouncedLength(env: Environment, types: Types, root: string, uri: string, values: seq<string>)
    requires Consistent(env) && C.Parse(env.fs, root, uri).Serve?
    ensures C.Parse(env.fs, root, uri).path in env.times
    ensures var o, ts := C.Parse(env.fs, root, uri), Usable(values);
            var tag := Tag(env.times[o.path], o.size);
            WellFramed(o, env, types, AfterHeaders(Zeros(ETAG_SIZE), values)) <==>
            || o.size == 0
            || if Regular(env, o.path) then !(SentTag(ts, tag) && LeftBehind(ts, |tag|))
               else if o.path in env.contents then SentTag(ts, tag) && !LeftBehind(ts, |tag|)
               else !LeftBehind(ts, -1)
  {
    hide C.Parse, BuildDecision, WriteDecision, AfterHeaders, Usable, Tag, SentTag, LeftBehind, Padded, Zeros, TypeOf;
    ServedFile(env, root, uri);
    var o := C.Parse(env.fs, root, uri);
    WhatEachSees(values, env.times[o.path], o.size);
    UnopenedDisagreeIff(values, env.times[o.path], o.size);
  }

  /** For a client that sends no tag it is the kind of the path that decides: only a directory breaks the framing. */
  lemma PlainRequestFramed(env: Environment, types: Types, root: string, uri: string)
    requires Consistent(env) && C.Parse(env.fs, root, uri).Serve?
    ensures C.Parse(env.fs, root, uri).path in env.times
    ensures var o := C.Parse(env.fs, root, uri);
            WellFramed(o, env, types, Zeros(ETAG_SIZE)) <==>
            o.size == 0 || !(o.path in env.contents && env.contents[o.path].Directory?)
  {
    hide C.Parse, WellFramed, Tag;
    AnnouncedLength(env, types, root, uri, []);
    NoneSurvive();
  }

  /** `GET /images` on a directory of 4096 bytes: the header announces them, and nothing follows. */
  lemma DirectoryAnnounced(types: Types, host: string, texts: Texts)
    ensures var fs := C.Disk(map["/w//images" := 4096], map["/w//images" := "/w/images"]);
            var env := Environment(fs, map["/w/images" := 0], map["/w/images" := N.Directory]);
            && Consistent(env) && N.FilesSmall(env.contents)
            && Answer(env, types, "/w", "/images", L.Serve, host, Zeros(ETAG_SIZE), texts) ==
               N.Send(texts.full(TypeOf(C.Serve("/w/images", 4096), env, types, Zeros(ETAG_SIZE)), 4096), "/w/images")
            && N.Content(env.contents, "/w/images") == ""
  {
    hide C.RawPath, C.Redirect, Tag, BuildDecision, WriteDecision, TypeOf;
    var p, d := "/w//images", "/w/images";
    var env := Environment(C.Disk(map[p := 4096], map[p := d]), map[d := 0], map[d := N.Directory]);
    ImagesAsked();
    assert env.fs.sizes[p] == 4096 && env.fs.resolved[p] == d && d[..2] == "/w";
    assert C.Parse(env.fs, "/w", "/images") == C.Serve(d, 4096);
    WhatEachSees([], 0, 4096);
  }

  lemma ImagesAsked()
    ensures C.Redirect("/images") == C.Direct && C.RawPath("/w", "/images") == "/w//images"
  {
    hide P.Decode, C.LastSlash;
    var u := "/images";
    R.NoPercent(u);
    R.RawPathOf("/w", u);
    assert "/w" + "/" + u == "/w//images";
    R.LastSlashIs(u, 0);
    assert C.LastSegment(u) == "images" && C.LastSegment(u)[1] == 'm';
    if C.EndsWith(u, C.HTML_EXT) { R.EndsInL(u); }
  }
}
