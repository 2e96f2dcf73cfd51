/**
 The server as a whole: `net_http_req_parse` (src/net_http.c) and the loop of `_fws_443_run` (src/fws.c) from the bytes
 of a request to the bytes of its response.
 */
module Site {
  import opened Bytes
  import opened Conditional
  import opened HostName
  import opened RequestHead
  import opened PlainHttp
  import opened WebRoot
  import opened Dispatch
  import C = CleanUrl
  import P = PercentCode
  import L = RateLimiter
  import M = MimeLookup
  import opened MimeSyntax
  import N = Connection

  /** What the configuration says about names. */
  datatype Names = Names(webRoot: string, domain: string, port: nat)

  /** The buffer after the lowering loop, which stops at the first NUL. */
  function Lowered(s: string): string {
    Lower(CStr(s)) + s[|CStr(s)|..]
  }

  /** Byte by byte: what stands in front of the first NUL is lowered, and nothing else. */
  lemma LoweredByte(s: string, i: nat)
    requires i < |s|
    ensures |Lowered(s)| == |s|
    ensures Lowered(s)[i] == if NUL in s[..i + 1] then s[i] else LowerChar(s[i])
  {
    hide Find;
    FindFirst(s, 0, |s|, NUL);
    var n := Find(s, 0, |s|, NUL);
    if n <= i { assert s[..i + 1][n] == NUL; }
    assert forall k :: 0 <= k <= i ==> s[..i + 1][k] == s[k];
  }

  /** Everything the dispatch takes from the bytes of a request. */
  datatype Asked = Asked(path: string, root: string, host: string, etag: string)

  function Ask(names: Names, s: string): (a: Asked)
    ensures |a.etag| == ETAG_SIZE && NUL in a.etag && NUL !in a.path
    ensures NUL !in names.webRoot ==> NUL !in a.root
  {
    var head := ReadHeaders(Lowered(s), names.domain).head;
    EtagKept(Lowered(s), names.domain);
    var sub := CStr(head.sub);
    Asked(PathOf(CStr(ReadLine(s).uri)), RootOf(names.webRoot, sub), HostOf(sub, names.domain, names.port), head.etag)
  }

  ghost predicate EtagEnds(h: Head) {
    |h.etag| == ETAG_SIZE && NUL in h.etag
  }

  /** Whatever the headers say, the tag buffer keeps its size and a terminator. */
  lemma EtagKept(s: string, domain: string)
    ensures EtagEnds(ReadHeaders(s, domain).head)
  {
    hide HeaderAt, Walk;
    assert NO_HEAD.etag[0] == NUL;
    match LineAfter(s, 0, NO_HEAD)
    case Ends(_) =>
    case NextLine(q, h) => EtagKeptFrom(s, q, domain, h);
  }

  lemma {:induction false} EtagKeptFrom(s: string, p: nat, domain: string, h: Head)
    requires p <= |s| && EtagEnds(h)
    ensures EtagEnds(Walk(s, p, domain, h).head)
    decreases |s| - p
  {
    hide HeaderAt, MatchAt;
    if !MatchAt(s, p, CRLF) {
      EtagTurn(s, p, domain, h);
      match HeaderAt(s, p, domain, h)
      case Ends(_) =>
      case NextLine(q, h') => EtagKeptFrom(s, q, domain, h');
    }
  }

  lemma EtagTurn(s: string, p: nat, domain: string, h: Head)
    requires p <= |s| && EtagEnds(h)
    ensures EtagEnds(HeaderAt(s, p, domain, h).head)
  {
    hide Find, KeywordAt, Subdomain, TagOf;
    forall k, v, after { EtagApplied(k, h, domain, v, after); }
  }

  lemma EtagApplied(k: Keyword, h: Head, domain: string, value: string, after: string)
    requires EtagEnds(h)
    ensures Apply(k, h, domain, value, after).Go? ==> EtagEnds(Apply(k, h, domain, value, after).head)
  {
    hide Subdomain, TagOf;
    if TagOf(value).ATag? {
      var t := TagOf(value).t;
      assert AfterHeader(h.etag, value)[|t|] == NUL;
    }
  }

  /** The lowering loop of `net_http_req_parse`, in place. */
  method LowerInPlace(reqBuf: array<char>)
    modifies reqBuf
    ensures reqBuf[..] == Lowered(old(reqBuf[..]))
  {
    hide Find;
    ghost var was := reqBuf[..];
    var n := Find(reqBuf[..], 0, reqBuf.Length, NUL);
    FindFirst(was, 0, |was|, NUL);
    for i := 0 to n
      invariant forall k :: 0 <= k < reqBuf.Length ==> reqBuf[k] == if k < i then LowerChar(was[k]) else was[k]
    {
      reqBuf[i] := LowerChar(reqBuf[i]);
    }
    assert CStr(was) == was[..n];
    assert reqBuf[..] == Lower(was[..n]) + was[n..];
  }

  /** `net_http_req_parse`, and what `_fws_443_run` makes of its result. */
  method ReqParse(reqBuf: array<char>, names: Names) returns (a: Asked, etag: array<char>)
    modifies reqBuf
    ensures a == Ask(names, old(reqBuf[..])) && fresh(etag) && etag[..] == a.etag
  {
    hide ReadHeaders, ReadLine, Lowered;
    var line := LineParse(reqBuf[..]);
    LowerInPlace(reqBuf);
    var req := new HttpReq();
    var _ := req.HeaderParse(reqBuf[..], names.domain);
    var sub := CStr(req.subdomain);
    etag := req.etag;
    a := Asked(PathOf(CStr(line.uri)), RootOf(names.webRoot, sub), HostOf(sub, names.domain, names.port), etag[..]);
  }

  /** One request from its bytes to its reply, with the limiter table in place. */
  method HandleBytes(reqBuf: array<char>, names: Names, env: Environment, types: Types, table: L.Table, lim: L.Limits,
                     ip: L.Ip, texts: Texts) returns (reply: N.Reply)
    requires Consistent(env) && NUL !in names.webRoot && table.slots.Length == L.SLOTS
    requires var a := Ask(names, reqBuf[..]); |a.root| + 1 + |a.path| + |C.INDEX_HTML| < P.PATH_SIZE
    modifies reqBuf, table.slots
    ensures var a := Ask(names, old(reqBuf[..]));
            var o := C.Parse(env.fs, a.root, a.path);
            && (o.Serve? ==> o.path in env.times)
            && if Counted(o) then
                 var (slots, v) := L.TableHit(lim, old(table.slots[..]), ip, IsPage(o));
                 table.slots[..] == slots && reply == Decide(o, v, env, types, a.host, a.etag, texts)
               else
                 table.slots[..] == old(table.slots[..]) &&
                 reply == Decide(o, L.Serve, env, types, a.host, a.etag, texts)
  {
    hide Ask, C.Parse, L.TableHit, Decide, IsPage, Counted;
    var a, etag := ReqParse(reqBuf, names);
    reply := HandleRequest(a.path, a.root, a.host, env, types, table, lim, ip, etag, texts);
  }

  function AnswerTo(env: Environment, types: Types, names: Names, v: L.Verdict, s: string, texts: Texts): N.Reply
    requires Consistent(env)
  {
    var a := Ask(names, s);
    Answer(env, types, a.root, a.path, v, a.host, a.etag, texts)
  }

  // ---------------------------------------------------------------- a written request

  /** A request as a client writes it: its line, its headers, and whatever follows the empty line. */
  datatype Request = Request(line: Line, headers: seq<Header>, rest: string)

  function RequestText(r: Request): string {
    LineText(r.line, "\n" + HeadersText(r.headers, CRLF + r.rest))
  }

  function LineOnly(line: Line): string {
    line.meth + (" " + (line.uri + (" " + line.version)))
  }

  predicate RequestOk(r: Request) {
    && |r.line.meth| < METHOD_SIZE && |r.line.uri| < URI_SIZE && |r.line.version| < VERSION_SIZE
    && ' ' !in r.line.meth && ' ' !in r.line.uri && '\r' !in LineOnly(r.line)
    && |LineOnly(r.line)| < VALUE_WINDOW && HeadersOk(r.headers) && NUL !in RequestText(r)
  }

  /** The headers as the parser sees them. */
  function Seen(r: Request): seq<Header> {
    LowerHeaders(r.headers)
  }

  function TailOfRequest(r: Request): string {
    CRLF + Lower(r.rest)
  }

  lemma LowerOk(hs: seq<Header>)
    requires HeadersOk(hs)
    ensures HeadersOk(LowerHeaders(hs))
  {
    forall i | 0 <= i < |hs| ensures HeaderOk(LowerHeaders(hs)[i]) {
      LowerOneOk(hs[i]);
    }
  }

  lemma LowerOneOk(h: Header)
    requires HeaderOk(h)
    ensures HeaderOk(LowerHeader(h))
  {
    assert forall i :: 0 <= i < |h.name| ==> Lower(h.name)[i] == LowerChar(h.name[i]);
    assert forall i :: 0 <= i < |h.value| ==> Lower(h.value)[i] == LowerChar(h.value[i]);
  }

  lemma LineSplits(line: Line, rest: string)
    ensures LineText(line, rest) == LineOnly(line) + ("\r" + rest)
  {
  }

  lemma LoweredText(r: Request)
    requires RequestOk(r)
    ensures Lowered(RequestText(r)) == Lower(LineOnly(r.line)) + (CRLF + HeadersText(Seen(r), TailOfRequest(r)))
  {
    hide HeadersText, LineText, LineOnly;
    var s, text := RequestText(r), HeadersText(r.headers, CRLF + r.rest);
    assert CStr(s) == s && s[|s|..] == "";
    LineSplits(r.line, "\n" + text);
    assert "\r" + ("\n" + text) == CRLF + text;
    LowerOfSum(LineOnly(r.line), CRLF + text);
    LowerOfSum(CRLF, text);
    LowerText(r.headers, CRLF + r.rest);
    LowerOfSum(CRLF, r.rest);
    assert Lower(CRLF) == CRLF;
  }

  /** What the header loop makes of a written request. */
  function HeadOf(r: Request, domain: string): Parsed {
    FoldHeaders(NO_HEAD, domain, Seen(r), TailOfRequest(r))
  }

  lemma WrittenHead(r: Request, domain: string)
    requires RequestOk(r)
    ensures ReadHeaders(Lowered(RequestText(r)), domain) == HeadOf(r, domain)
  {
    hide ReadHeaders, FoldHeaders, HeadersText, HeaderOk, LineText, LineOnly, Lowered;
    LoweredText(r);
    LowerOk(r.headers);
    var front := Lower(LineOnly(r.line));
    assert '\r' !in front by {
      assert forall i :: 0 <= i < |front| ==> front[i] == LowerChar(LineOnly(r.line)[i]);
    }
    RequestRead(front, Seen(r), Lower(r.rest), domain);
  }

  lemma WrittenLine(r: Request)
    requires RequestOk(r)
    ensures ReadLine(RequestText(r)) == r.line && NUL !in r.line.uri
  {
    hide HeadersText, ReadLine, HeaderOk, LineText, LineOnly;
    var text := "\n" + HeadersText(r.headers, CRLF + r.rest);
    VersionClean(r.line);
    LineRoundTrip(r.line, text);
    LineLayout(r.line, text);
    var s := RequestText(r);
    var a := |r.line.meth|;
    var b := a + 1 + |r.line.uri|;
    assert forall i :: 0 <= i < |r.line.uri| ==> r.line.uri[i] == s[a + 1..b][i] == s[a + 1 + i];
  }

  lemma VersionClean(line: Line)
    requires '\r' !in LineOnly(line)
    ensures '\r' !in line.version
  {
    var l := LineOnly(line);
    var v := |l| - |line.version|;
    assert forall i :: 0 <= i < |line.version| ==> l[v + i] == line.version[i];
  }

  lemma UriShape(s: string)
    ensures ' ' !in ReadLine(s).uri && |ReadLine(s).uri| < URI_SIZE
  {
    hide Find;
    var a := Find(s, 0, Clip(s, METHOD_SIZE), ' ');
    if a < Clip(s, METHOD_SIZE) { FindFirst(s, a + 1, Clip(s, a + 1 + URI_SIZE), ' '); }
  }

  lemma PathShape(uri: string)
    ensures PathOf(uri) <= uri && '?' !in PathOf(uri) && ('?' !in uri ==> PathOf(uri) == uri)
  {
    hide Find;
    FindFirst(uri, 0, |uri|, '?');
    if '?' !in uri { FindIs(uri, 0, |uri|, '?', |uri|); }
  }

  /** The paths requests ask for are exactly those of fewer than 4096 characters that a request line can carry. */
  lemma CarriedIff(names: Names, u: string)
    ensures (exists s :: Ask(names, s).path == u) <==> Carried(u) && |u| < URI_SIZE
  {
    hide ReadLine, PathOf, CStr, ReadHeaders, RootOf, HostOf, Lowered, LineText;
    if s :| Ask(names, s).path == u {
      UriShape(s);
      PathShape(CStr(ReadLine(s).uri));
    }
    if Carried(u) && |u| < URI_SIZE {
      var line := Line("GET", u, "HTTP/1.1");
      LineRoundTrip(line, "");
      PathShape(u);
      assert CStr(u) == u;
      assert Ask(names, LineText(line, "")).path == u;
    }
  }

  /** The header loop reads the first `n` headers, and header `i` is the last `Host` header among them, if any is. */
  predicate ReadAs(r: Request, domain: string, n: nat, i: nat) {
    && ReadsTo(NO_HEAD, Seen(r), n, domain, TailOfRequest(r))
    && LastHost(Seen(r), n, i)
  }

  /** Every request is read as some such pair. */
  lemma EveryRequestReadAs(r: Request, domain: string) returns (n: nat, i: nat)
    ensures ReadAs(r, domain, n, i)
  {
    hide EndsAt, KeywordOf;
    n := ReadsSome(NO_HEAD, Seen(r), 0, domain, TailOfRequest(r));
    i := HostAmong(Seen(r), n);
  }

  /** The values of the `If-None-Match` headers that are read. */
  function TagsRead(r: Request, n: nat): seq<string> {
    EtagValues(Seen(r)[..if n <= |r.headers| then n else |r.headers|])
  }

  /** The subdomain of a request whose `Host` header is number `i`; none, if `i` is the number of headers. */
  function SubOf(r: Request, domain: string, i: nat): string
  {
    if i < |r.headers| then Subdomain(domain, ValueOn(Seen(r), i, TailOfRequest(r))) else ""
  }

  /**
   From the bytes of a written request to what the dispatch is asked for: the path of its line, the web root and the
   host of the last `Host` header that is read, and the buffer left behind by the `If-None-Match` headers that are.
   */
  lemma WrittenAsk(r: Request, names: Names, n: nat, i: nat)
    requires RequestOk(r) && ReadAs(r, names.domain, n, i)
    ensures var sub := CStr(SubOf(r, names.domain, i));
            Ask(names, RequestText(r)) ==
            Asked(PathOf(r.line.uri), RootOf(names.webRoot, sub), HostOf(sub, names.domain, names.port),
                  AfterHeaders(Zeros(ETAG_SIZE), TagsRead(r, n)))
  {
    hide ReadHeaders, FoldHeaders, HeadersText, ReadLine, RequestText, Lowered, AfterHeaders, EtagValues, Subdomain;
    hide EndsAt, KeywordOf, RootOf, HostOf, RequestOk, PathOf;
    WrittenHead(r, names.domain);
    WrittenLine(r);
    FoldEtag(NO_HEAD, names.domain, Seen(r), TailOfRequest(r), n);
    FoldHost(NO_HEAD, names.domain, Seen(r), TailOfRequest(r), n, i);
    assert CStr(r.line.uri) == r.line.uri;
  }

  /**
   End to end.  The response to a written request that is served consists of the header and the body the entity-tag
   rules give for the `If-None-Match` headers that are read, and what follows the header is exactly what it announced if
   and only if the condition of `AnnouncedLength` holds of those headers and of the path.
   */
  lemma WrittenRequestFramed(r: Request, names: Names, n: nat, i: nat, env: Environment, types: Types, texts: Texts)
    requires RequestOk(r) && ReadAs(r, names.domain, n, i)
    requires Consistent(env)
    requires C.Parse(env.fs, RootOf(names.webRoot, CStr(SubOf(r, names.domain, i))), PathOf(r.line.uri)).Serve?
    ensures var o := C.Parse(env.fs, RootOf(names.webRoot, CStr(SubOf(r, names.domain, i))), PathOf(r.line.uri));
            o.path in env.times
    ensures var o := C.Parse(env.fs, RootOf(names.webRoot, CStr(SubOf(r, names.domain, i))), PathOf(r.line.uri));
            var etag, ts := AfterHeaders(Zeros(ETAG_SIZE), TagsRead(r, n)), Usable(TagsRead(r, n));
            var tag := Tag(env.times[o.path], o.size);
            && N.Full(AnswerTo(env, types, names, L.Serve, RequestText(r), texts), env.contents) ==
               HeaderText(HeaderOf(o, env, types, etag), texts) + BodyOf(o, env, etag)
            && (WellFramed(o, env, types, etag) <==>
                || o.size == 0
                || if Regular(env, o.path) then !(SentTag(ts, tag) && LeftBehind(ts, |tag|))
                   else if o.path in env.contents then SentTag(ts, tag) && !LeftBehind(ts, |tag|)
                   else !LeftBehind(ts, -1))
  {
    hide *;
    var sub := CStr(SubOf(r, names.domain, i));
    var a := Asked(PathOf(r.line.uri), RootOf(names.webRoot, sub), HostOf(sub, names.domain, names.port),
                   AfterHeaders(Zeros(ETAG_SIZE), TagsRead(r, n)));
    WrittenAsk(r, names, n, i);
    AnswerIs(env, types, names, L.Serve, RequestText(r), texts, a);
    ServedResponse(env, types, a.root, a.path, a.host, a.etag, texts);
    AnnouncedLength(env, types, a.root, a.path, TagsRead(r, n));
  }

  /**
   The ordinary case, byte for byte: a written request for a regular file whose tag it does not carry is answered with
   the file, labelled by the first entry of the configured table that lists its extension.
   */
  lemma WrittenRequestAnswered(r: Request, names: Names, n: nat, i: nat, env: Environment, types: Types,
                               es: seq<Entry>, texts: Texts)
    requires RequestOk(r) && ReadAs(r, names.domain, n, i)
    requires Consistent(env) && EntriesOk(es) && types.table == Compact(es)
    requires var o := C.Parse(env.fs, RootOf(names.webRoot, CStr(SubOf(r, names.domain, i))), PathOf(r.line.uri));
             && o.Serve? && Regular(env, o.path) && o.path in env.times
             && !SentTag(Usable(TagsRead(r, n)), Tag(env.times[o.path], o.size))
    ensures var o := C.Parse(env.fs, RootOf(names.webRoot, CStr(SubOf(r, names.domain, i))), PathOf(r.line.uri));
            var file := env.contents[o.path].content;
            var typ := match M.FirstMatch(es, M.Extension(o.path))
                       case Found(t) => t
                       case Default => types.default
                       case Bad => "";
            N.Full(AnswerTo(env, types, names, L.Serve, RequestText(r), texts), env.contents) ==
            texts.full(typ, |file|) + file
  {
    hide AnswerTo, Ask, C.Parse, RootOf, SubOf, PathOf, RequestOk, ReadAs, Seen, KeywordOf, Tag, SentTag, Usable;
    hide TagsRead, RequestText, M.FirstMatch, M.Extension, Compact, EntriesOk, HeaderOf, BodyOf, Answer;
    hide AfterHeaders, Zeros, N.Full, CStr, HostOf, Consistent;
    var o := C.Parse(env.fs, RootOf(names.webRoot, CStr(SubOf(r, names.domain, i))), PathOf(r.line.uri));
    WrittenRequestFramed(r, names, n, i, env, types, texts);
    ServedLabelled(env, types, es, RootOf(names.webRoot, CStr(SubOf(r, names.domain, i))), PathOf(r.line.uri),
                   TagsRead(r, n));
  }

  lemma AnswerIs(env: Environment, types: Types, names: Names, v: L.Verdict, s: string, texts: Texts, a: Asked)
    requires Consistent(env) && Ask(names, s) == a
    ensures AnswerTo(env, types, names, v, s, texts) == Answer(env, types, a.root, a.path, v, a.host, a.etag, texts)
  {
    hide Answer, Ask;
  }
}
