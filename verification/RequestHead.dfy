/**
 Reading a request (`_line_parse`, `_uri_parse`, `_header_parse`, src/net_http.c).  The header loop is modelled with its
 five keywords; the `Host` and `If-None-Match` cases in full, the others as far as they can end the loop.  The theorems
 on written requests hold for lines of any length.
 */
module RequestHead {
  import opened Bytes
  import opened HostName
  import opened Conditional

  const CRLF := "\r\n"
  const METHOD_SIZE: nat := 16
  const URI_SIZE: nat := 4096
  const VERSION_SIZE: nat := 16
  const KEY_WINDOW: nat := 64
  const VALUE_WINDOW: nat := 1024

  // ---------------------------------------------------------------- the request line

  datatype Line = Line(meth: string, uri: string, version: string)

  /** `_line_parse`: three fields, each ended by its own separator; the fields behind a failure stay empty. */
  method LineParse(req: string) returns (line: Line)
    ensures line == ReadLine(req)
  {
    hide Find;
    line := Line("", "", "");
    var p1 := 0;
    var p2 := Find(req, p1, Clip(req, p1 + METHOD_SIZE), ' ');
    if p2 == Clip(req, p1 + METHOD_SIZE) { return; }
    var n := p2 - p1;
    line := line.(meth := req[p1..p1 + n]);
    p1 := p1 + n + 1;
    p2 := Find(req, p1, Clip(req, p1 + URI_SIZE), ' ');
    if p2 == Clip(req, p1 + URI_SIZE) { return; }
    n := p2 - p1;
    line := line.(uri := req[p1..p1 + n]);
    p1 := p1 + n + 1;
    p2 := Find(req, p1, Clip(req, p1 + VERSION_SIZE), '\r');
    if p2 == Clip(req, p1 + VERSION_SIZE) { return; }
    line := line.(version := req[p1..p2]);
  }

  function ReadLine(req: string): Line {
    var a := Find(req, 0, Clip(req, METHOD_SIZE), ' ');
    if a == Clip(req, METHOD_SIZE) then Line("", "", "")
    else
      var b := Find(req, a + 1, Clip(req, a + 1 + URI_SIZE), ' ');
      if b == Clip(req, a + 1 + URI_SIZE) then Line(req[..a], "", "")
      else
        var c := Find(req, b + 1, Clip(req, b + 1 + VERSION_SIZE), '\r');
        if c == Clip(req, b + 1 + VERSION_SIZE) then Line(req[..a], req[a + 1..b], "")
        else Line(req[..a], req[a + 1..b], req[b + 1..c])
  }

  function LineText(line: Line, rest: string): string {
    line.meth + (" " + (line.uri + (" " + (line.version + ("\r" + rest)))))
  }

  /** Where the fields of a written line stand. */
  ghost predicate LineAt(req: string, a: nat, b: nat, c: nat, line: Line) {
    && a < b < c < |req|
    && req[..a] == line.meth && req[a] == ' '
    && req[a + 1..b] == line.uri && req[b] == ' '
    && req[b + 1..c] == line.version && req[c] == '\r'
  }

  lemma LineLayout(line: Line, rest: string)
    ensures var a := |line.meth|; var b := a + 1 + |line.uri|; var c := b + 1 + |line.version|;
            LineAt(LineText(line, rest), a, b, c, line)
  {
    var r2 := line.version + ("\r" + rest);
    var r1 := line.uri + (" " + r2);
    var req := LineText(line, rest);
    assert req[0..|req|] == req;
    SplitAt(req, 0, |req|, line.meth, ' ', r1);
    var a := |line.meth|;
    SplitAt(req, a + 1, |req|, line.uri, ' ', r2);
    SplitAt(req, a + 1 + |line.uri| + 1, |req|, line.version, '\r', rest);
  }

  /** A search that starts at `p` and looks at `w` bytes finds what it looks for exactly if that is not too far away. */
  lemma FindWithin(req: string, p: nat, r: nat, w: nat, ch: char)
    requires p <= r < |req| && req[r] == ch && forall i :: p <= i < r ==> req[i] != ch
    ensures Find(req, p, Clip(req, p + w), ch) == if r - p < w then r else Clip(req, p + w)
    ensures r - p < w <==> r < Clip(req, p + w)
  {
    hide Find;
    FindIs(req, p, Clip(req, p + w), ch, if r - p < w then r else Clip(req, p + w));
  }

  /** The fields of a line, up to the first that is too long. */
  function Cut(line: Line): Line {
    if |line.meth| >= METHOD_SIZE then Line("", "", "")
    else if |line.uri| >= URI_SIZE then Line(line.meth, "", "")
    else if |line.version| >= VERSION_SIZE then Line(line.meth, line.uri, "")
    else line
  }

  lemma LineRead(req: string, a: nat, b: nat, c: nat, line: Line)
    requires LineAt(req, a, b, c, line)
    requires ' ' !in line.meth && ' ' !in line.uri && '\r' !in line.version
    ensures ReadLine(req) == Cut(line)
  {
    hide Find, Clip;
    SliceFree(req, 0, a, line.meth, ' ');
    SliceFree(req, a + 1, b, line.uri, ' ');
    SliceFree(req, b + 1, c, line.version, '\r');
    assert |req[..a]| == a && |req[a + 1..b]| == b - a - 1 && |req[b + 1..c]| == c - b - 1;
    FindWithin(req, 0, a, METHOD_SIZE, ' ');
    FindWithin(req, a + 1, b, URI_SIZE, ' ');
    FindWithin(req, b + 1, c, VERSION_SIZE, '\r');
  }

  /** A request line reads back as it was written, up to the first field that is too long. */
  lemma LineRoundTrip(line: Line, rest: string)
    requires ' ' !in line.meth && ' ' !in line.uri && '\r' !in line.version
    ensures ReadLine(LineText(line, rest)) == Cut(line)
  {
    hide ReadLine, LineText, Cut;
    LineLayout(line, rest);
    var a := |line.meth|;
    var b := a + 1 + |line.uri|;
    LineRead(LineText(line, rest), a, b, b + 1 + |line.version|, line);
  }

  // ---------------------------------------------------------------- the header loop

  datatype Keyword = Host | Agent | Language | Origin | Etag | Other

  /** Keys are compared on at most eight bytes, from the start of the line. */
  function KeywordAt(req: string, p: nat): Keyword {
    if MatchAt(req, p, "host") then Host
    else if MatchAt(req, p, "user-age") then Agent
    else if MatchAt(req, p, "accept-l") then Language
    else if MatchAt(req, p, "origin") then Origin
    else if MatchAt(req, p, "if-none-") then Etag
    else Other
  }

  /** What the loop has gathered; the flags say that a second such header would end it. */
  datatype Head = Head(sub: string, etag: string, agent: bool, language: bool)

  const NO_HEAD := Head("", Zeros(ETAG_SIZE), false, false)

  datatype Parsed = Parsed(complete: bool, head: Head)
  datatype Applied = Stop | Go(head: Head)

  ghost predicate HeadOk(h: Head) {
    |h.etag| == ETAG_SIZE
  }

  /** One recognised header; `after` is what follows its value, which the host search may run into. */
  function Apply(k: Keyword, h: Head, domain: string, value: string, after: string): (r: Applied)
    requires HeadOk(h)
    ensures r.Go? ==> HeadOk(r.head)
  {
    match k
    case Host => if CharAt(h.sub, 0) != NUL then Stop else Go(h.(sub := Subdomain(domain, value + after)))
    case Agent => if h.agent then Stop else Go(h.(agent := true))
    case Language => if h.language then Stop else Go(h.(language := CharAt(value + after, 0) !in ",;\n\0"))
    case Origin => Go(h)
    case Etag => Go(h.(etag := AfterHeader(h.etag, value)))
    case Other => Go(h)
  }

  function Walk(req: string, p: nat, domain: string, h: Head): Parsed
    requires p <= |req| && HeadOk(h)
    decreases |req| - p
  {
    if MatchAt(req, p, CRLF) then Parsed(true, h)
    else
      match HeaderAt(req, p, domain, h)
      case Ends(h') => Parsed(false, h')
      case NextLine(q, h') => Walk(req, q, domain, h')
  }

  datatype Turn = Ends(head: Head) | NextLine(q: nat, head: Head)

  /** One turn of the loop. */
  function HeaderAt(req: string, p: nat, domain: string, h: Head): (t: Turn)
    requires p <= |req| && HeadOk(h)
    ensures HeadOk(t.head) && (t.NextLine? ==> p < t.q <= |req|)
  {
    var c := Find(req, p, Clip(req, p + KEY_WINDOW), ':');
    if c == Clip(req, p + KEY_WINDOW) then Ends(h)
    else
      var k := KeywordAt(req, p);
      if k == Other then LineAfter(req, p, h)
      else
        var r := Find(req, c + 1, Clip(req, c + 1 + VALUE_WINDOW), '\r');
        if r == Clip(req, c + 1 + VALUE_WINDOW) then Ends(h)
        else
          BlanksBefore(req, c + 1, r);
          var v := SkipBlanks(req, c + 1);
          match Apply(k, h, domain, req[v..r], req[r..])
          case Stop => Ends(h)
          case Go(h') => LineAfter(req, v, h')
  }

  lemma BlanksBefore(req: string, p: nat, r: nat)
    requires p <= r < |req| && r == Find(req, p, Clip(req, p + VALUE_WINDOW), '\r') < Clip(req, p + VALUE_WINDOW)
    ensures SkipBlanks(req, p) <= r
  {
    hide Find;
    FindFirst(req, p, Clip(req, p + VALUE_WINDOW), '\r');
    SkipBlanksShape(req, p);
  }

  /** The step to the next line, searched for from `p`. */
  function LineAfter(req: string, p: nat, h: Head): (t: Turn)
    requires p <= |req|
    ensures t.head == h && (t.NextLine? ==> p < t.q <= |req|)
  {
    var e := Find(req, p, Clip(req, p + VALUE_WINDOW), '\r');
    if e == Clip(req, p + VALUE_WINDOW) || CharAt(req, e + 1) != '\n' then Ends(h) else NextLine(e + 2, h)
  }

  /** `_header_parse`: skip the request line, then walk the headers. */
  function ReadHeaders(req: string, domain: string): Parsed {
    match LineAfter(req, 0, NO_HEAD)
    case Ends(h) => Parsed(false, h)
    case NextLine(q, h) => Walk(req, q, domain, h)
  }

  /** The fields of `struct fws_http_req` the header loop fills in. */
  class HttpReq {
    var subdomain: string
    const etag: array<char>
    var agent: bool
    var language: bool

    ghost function Abs(): Head
      reads this, etag
    {
      Head(subdomain, etag[..], agent, language)
    }

    constructor ()
      ensures fresh(etag) && etag.Length == ETAG_SIZE && Abs() == NO_HEAD
    {
      subdomain, agent, language := "", false, false;
      etag := new char[ETAG_SIZE](_ => NUL);
      new;
      assert etag[..] == Zeros(ETAG_SIZE);
    }

    /** The `switch` on a recognised key. */
    method Store(k: Keyword, domain: string, value: string, after: string) returns (stop: bool)
      requires etag.Length == ETAG_SIZE
      modifies this, etag
      ensures match Apply(k, old(Abs()), domain, value, after)
              case Stop => stop && Abs() == old(Abs())
              case Go(h) => !stop && Abs() == h
    {
      hide Subdomain;
      stop := false;
      match k
      case Host =>
        if CharAt(subdomain, 0) != NUL { return true; }
        subdomain := ExtractSubdomain(domain, value + after);
      case Agent =>
        if agent { return true; }
        agent := true;
      case Language =>
        if language { return true; }
        language := CharAt(value + after, 0) !in ",;\n\0";
      case Origin =>
      case Etag =>
        ParseEtag(etag, value);
      case Other =>
    }

    /** One turn of the header loop. */
    method HeaderTurn(req: string, p: nat, domain: string) returns (ended: bool, q: nat)
      requires etag.Length == ETAG_SIZE && p <= |req|
      modifies this, etag
      ensures match HeaderAt(req, p, domain, old(Abs()))
              case Ends(h) => ended && Abs() == h
              case NextLine(n, h) => !ended && q == n && Abs() == h
    {
      hide Find, Apply, KeywordAt;
      var p1: nat := p;
      var p2: nat := Find(req, p1, Clip(req, p1 + KEY_WINDOW), ':');
      if p2 == Clip(req, p1 + KEY_WINDOW) { return true, p1; }
      var k := KeywordAt(req, p1);
      if k != Other {
        p1 := p2 + 1;
        p2 := Find(req, p1, Clip(req, p1 + VALUE_WINDOW), '\r');
        if p2 == Clip(req, p1 + VALUE_WINDOW) { return true, p1; }
        BlanksBefore(req, p1, p2);
        ghost var start := p1;
        while req[p1] == ' '
          invariant start <= p1 <= p2 < |req|
          invariant SkipBlanks(req, p1) <= p2
          invariant SkipBlanks(req, p1) == SkipBlanks(req, start)
          decreases |req| - p1
        {
          p1 := p1 + 1;
        }
        var stop := Store(k, domain, req[p1..p2], req[p2..]);
        if stop { return true, p1; }
      }
      p2 := Find(req, p1, Clip(req, p1 + VALUE_WINDOW), '\r');
      if p2 == Clip(req, p1 + VALUE_WINDOW) || CharAt(req, p2 + 1) != '\n' { return true, p1; }
      return false, p2 + 2;
    }

    /** `_header_parse`. */
    method HeaderParse(req: string, domain: string) returns (ret: int)
      requires etag.Length == ETAG_SIZE && Abs() == NO_HEAD
      modifies this, etag
      ensures var r := ReadHeaders(req, domain);
              ret == (if r.complete then 0 else 1) && Abs() == r.head
    {
      hide Find, HeaderAt, MatchAt;
      var p1: nat := 0;
      var p2: nat := Find(req, p1, Clip(req, p1 + VALUE_WINDOW), '\r');
      if p2 == Clip(req, p1 + VALUE_WINDOW) || CharAt(req, p2 + 1) != '\n' { return 1; }
      p1 := p2 + 2;
      while true
        invariant p1 <= |req| && HeadOk(Abs())
        invariant Walk(req, p1, domain, Abs()) == ReadHeaders(req, domain)
        decreases |req| - p1
      {
        if MatchAt(req, p1, CRLF) { return 0; }
        var ended: bool;
        ended, p1 := HeaderTurn(req, p1, domain);
        if ended { return 1; }
      }
    }
  }

  // ---------------------------------------------------------------- written headers

  /** A header line as a client writes it: name, colon, blanks, value. */
  datatype Header = Header(name: string, pad: string, value: string)

  predicate HeaderOk(h: Header) {
    && ':' !in h.name && '\r' !in h.name
    && (forall i :: 0 <= i < |h.pad| ==> h.pad[i] == ' ')
    && '\r' !in h.value && (h.value == "" || h.value[0] != ' ')
  }

  predicate HeadersOk(hs: seq<Header>) {
    forall i :: 0 <= i < |hs| ==> HeaderOk(hs[i])
  }

  /** The headers, with everything that follows them. */
  function HeadersText(hs: seq<Header>, tail: string): string {
    if hs == [] then tail
    else hs[0].name + (":" + (hs[0].pad + (hs[0].value + (CRLF + HeadersText(hs[1..], tail)))))
  }

  /** The keyword a header name is taken for: a prefix of eight bytes decides. */
  function KeywordOf(name: string): Keyword {
    if "host" <= name then Host
    else if "user-age" <= name then Agent
    else if "accept-l" <= name then Language
    else if "origin" <= name then Origin
    else if "if-none-" <= name then Etag
    else Other
  }

  /** The line does not outrun the windows the loop searches in: one for the name, one for the rest of the line. */
  predicate Fits(h: Header) {
    && |h.name| < KEY_WINDOW
    && |h.pad| + |h.value| + (if KeywordOf(h.name) == Other then |h.name| + 1 else 0) < VALUE_WINDOW
  }

  /** The header loop, header by header. */
  function FoldHeaders(h: Head, domain: string, hs: seq<Header>, tail: string): Parsed
    requires HeadOk(h)
    decreases |hs|
  {
    if hs == [] then Parsed(true, h)
    else if !Fits(hs[0]) then Parsed(false, h)
    else
      match Apply(KeywordOf(hs[0].name), h, domain, hs[0].value, CRLF + HeadersText(hs[1..], tail))
      case Stop => Parsed(false, h)
      case Go(h') => FoldHeaders(h', domain, hs[1..], tail)
  }

  /** Where the parts of one header stand. */
  ghost predicate HeaderStands(req: string, p: nat, c: nat, v: nat, r: nat, h: Header) {
    && p <= c < v <= r && r + 2 <= |req|
    && req[p..c] == h.name && req[c] == ':' && req[c + 1..v] == h.pad && req[v..r] == h.value
    && req[r] == '\r' && req[r + 1] == '\n'
  }

  lemma HeaderLayout(req: string, p: nat, h: Header, rest: string)
    requires p <= |req| && req[p..] == h.name + (":" + (h.pad + (h.value + (CRLF + rest))))
    ensures var c := p + |h.name|; var v := c + 1 + |h.pad|; var r := v + |h.value|;
            HeaderStands(req, p, c, v, r, h) && req[r + 2..] == rest && req[r..] == CRLF + rest
  {
    var n := |req|;
    assert req[p..] == req[p..n];
    var c := p + |h.name|;
    SplitAt(req, p, n, h.name, ':', h.pad + (h.value + (CRLF + rest)));
    Split(req, c + 1, n, h.pad, h.value + (CRLF + rest));
    var v := c + 1 + |h.pad|;
    Split(req, v, n, h.value, CRLF + rest);
    var r := v + |h.value|;
    Split(req, r, n, CRLF, rest);
    assert req[r] == req[r..r + 2][0] && req[r + 1] == req[r..r + 2][1];
  }

  lemma MatchName(req: string, p: nat, c: nat, name: string, k: string)
    requires p <= c < |req| && req[p..c] == name && req[c] == ':' && ':' !in k
    ensures MatchAt(req, p, k) <==> k <= name
  {
    assert |req[p..c]| == c - p;
    if p + |k| <= |req| {
      var m := req[p..p + |k|];
      if |k| <= c - p {
        assert m == name[..|k|];
      } else {
        assert m[c - p] == ':';
      }
    }
  }

  lemma KeywordOfName(req: string, p: nat, c: nat, name: string)
    requires p <= c < |req| && req[p..c] == name && req[c] == ':'
    ensures KeywordAt(req, p) == KeywordOf(name)
  {
    hide MatchAt;
    MatchName(req, p, c, name, "host");
    MatchName(req, p, c, name, "user-age");
    MatchName(req, p, c, name, "accept-l");
    MatchName(req, p, c, name, "origin");
    MatchName(req, p, c, name, "if-none-");
  }

  /** Where the searches of one turn end. */
  ghost predicate Searches(req: string, p: nat, c: nat, v: nat, r: nat) {
    && p <= c < v <= r && r + 2 <= |req|
    && Find(req, p, Clip(req, p + KEY_WINDOW), ':') == (if c - p < KEY_WINDOW then c else Clip(req, p + KEY_WINDOW))
    && Find(req, p, Clip(req, p + VALUE_WINDOW), '\r') ==
       (if r - p < VALUE_WINDOW then r else Clip(req, p + VALUE_WINDOW))
    && Find(req, c + 1, Clip(req, c + 1 + VALUE_WINDOW), '\r') ==
       (if r - c - 1 < VALUE_WINDOW then r else Clip(req, c + 1 + VALUE_WINDOW))
    && Find(req, v, Clip(req, v + VALUE_WINDOW), '\r') ==
       (if r - v < VALUE_WINDOW then r else Clip(req, v + VALUE_WINDOW))
    && SkipBlanks(req, c + 1) == v
  }

  lemma HeaderFinds(req: string, p: nat, c: nat, v: nat, r: nat, h: Header)
    requires HeaderStands(req, p, c, v, r, h) && HeaderOk(h)
    ensures Searches(req, p, c, v, r) && !MatchAt(req, p, CRLF)
  {
    hide Find, Clip;
    HeaderBytes(req, p, c, v, r, h);
    FindWithin(req, p, c, KEY_WINDOW, ':');
    FindWithin(req, p, r, VALUE_WINDOW, '\r');
    FindWithin(req, c + 1, r, VALUE_WINDOW, '\r');
    FindWithin(req, v, r, VALUE_WINDOW, '\r');
    BlanksAre(req, c + 1, v);
    assert req[p] != '\r';
  }

  lemma HeaderBytes(req: string, p: nat, c: nat, v: nat, r: nat, h: Header)
    requires HeaderStands(req, p, c, v, r, h) && HeaderOk(h)
    ensures forall i :: p <= i < r ==> req[i] != '\r'
    ensures forall i :: p <= i < c ==> req[i] != ':'
    ensures (forall i :: c + 1 <= i < v ==> req[i] == ' ') && req[v] != ' '
  {
    SliceFree(req, p, c, h.name, ':');
    SliceFree(req, p, c, h.name, '\r');
    SliceFree(req, c + 1, v, h.pad, '\r');
    SliceFree(req, v, r, h.value, '\r');
    assert |req[p..c]| == c - p && |req[c + 1..v]| == v - c - 1 && |req[v..r]| == r - v;
    assert forall i :: c + 1 <= i < v ==> req[i] == h.pad[i - c - 1] == ' ';
    assert req[v] == if v < r then h.value[0] else '\r';
  }

  lemma {:induction false} BlanksAre(req: string, p: nat, v: nat)
    requires p <= v < |req| && req[v] != ' ' && forall i :: p <= i < v ==> req[i] == ' '
    ensures SkipBlanks(req, p) == v
    decreases v - p
  {
    if p < v { BlanksAre(req, p + 1, v); }
  }

  /** One turn of the loop, in terms of what its searches find. */
  lemma TurnOf(req: string, p: nat, c: nat, v: nat, r: nat, domain: string, head: Head, k: Keyword)
    requires Searches(req, p, c, v, r) && HeadOk(head)
    requires KeywordAt(req, p) == k && req[r + 1] == '\n'
    ensures HeaderAt(req, p, domain, head) ==
            if c - p < KEY_WINDOW && (if k == Other then r - p else r - c - 1) < VALUE_WINDOW then
              match Apply(k, head, domain, req[v..r], req[r..])
              case Stop => Ends(head)
              case Go(head') => NextLine(r + 2, head')
            else Ends(head)
  {
    hide Find, Apply, KeywordAt, SkipBlanks;
    OtherKeeps(head, domain, req[v..r], req[r..]);
  }

  lemma HeaderRound(req: string, p: nat, domain: string, head: Head, h: Header, rest: string)
    requires p <= |req| && HeadOk(head) && HeaderOk(h)
    requires req[p..] == h.name + (":" + (h.pad + (h.value + (CRLF + rest))))
    ensures !MatchAt(req, p, CRLF)
    ensures HeaderAt(req, p, domain, head) ==
            if !Fits(h) then Ends(head)
            else
              match Apply(KeywordOf(h.name), head, domain, h.value, CRLF + rest)
              case Stop => Ends(head)
              case Go(head') => NextLine(|req| - |rest|, head')
  {
    hide Searches, Apply, KeywordAt, KeywordOf, HeaderOk, HeaderAt, MatchAt;
    HeaderLayout(req, p, h, rest);
    var c := p + |h.name|;
    var v := c + 1 + |h.pad|;
    var r := v + |h.value|;
    HeaderFinds(req, p, c, v, r, h);
    KeywordOfName(req, p, c, h.name);
    assert |req[r + 2..]| == |rest|;
    TurnOf(req, p, c, v, r, domain, head, KeywordOf(h.name));
  }

  lemma OtherKeeps(head: Head, domain: string, value: string, after: string)
    requires HeadOk(head)
    ensures Apply(Other, head, domain, value, after) == Go(head)
  {
  }

  /** Walking written headers is folding over them, up to the empty line. */
  lemma {:induction false} WalkIsFold(req: string, p: nat, domain: string, head: Head, hs: seq<Header>, tail: string)
    requires p <= |req| && HeadOk(head) && HeadersOk(hs)
    requires req[p..] == HeadersText(hs, tail) && MatchAt(tail, 0, CRLF)
    ensures Walk(req, p, domain, head) == FoldHeaders(head, domain, hs, tail)
    decreases |hs|
  {
    hide HeaderAt, Apply, KeywordOf, MatchAt, HeaderOk, Fits;
    if hs == [] {
      EndOfHeaders(req, p, tail);
    } else {
      var rest := HeadersText(hs[1..], tail);
      HeaderRound(req, p, domain, head, hs[0], rest);
      var a := Apply(KeywordOf(hs[0].name), head, domain, hs[0].value, CRLF + rest);
      if Fits(hs[0]) && a.Go? {
        TailOf(req, p, hs[0], rest);
        WalkIsFold(req, |req| - |rest|, domain, a.head, hs[1..], tail);
      }
    }
  }

  lemma EndOfHeaders(req: string, p: nat, tail: string)
    requires p <= |req| && req[p..] == tail && MatchAt(tail, 0, CRLF)
    ensures MatchAt(req, p, CRLF)
  {
    assert req[p..p + 2] == tail[0..2];
  }

  lemma TailOf(req: string, p: nat, h: Header, rest: string)
    requires p <= |req| && req[p..] == h.name + (":" + (h.pad + (h.value + (CRLF + rest))))
    ensures |rest| <= |req| && req[|req| - |rest|..] == rest
  {
    HeaderLayout(req, p, h, rest);
  }

  /**
   A whole written request head: any request line, the headers, the empty line, and whatever follows.  Behind a line
   that is too long no header is read.
   */
  lemma RequestRead(line: string, hs: seq<Header>, rest: string, domain: string)
    requires '\r' !in line && HeadersOk(hs)
    ensures ReadHeaders(line + (CRLF + HeadersText(hs, CRLF + rest)), domain) ==
            if |line| < VALUE_WINDOW then FoldHeaders(NO_HEAD, domain, hs, CRLF + rest) else Parsed(false, NO_HEAD)
  {
    hide Find, Clip, HeaderAt, Apply, KeywordOf, HeaderOk, Walk;
    var tail := CRLF + rest;
    var text := HeadersText(hs, tail);
    var req := line + (CRLF + text);
    assert req[0..|req|] == req;
    Split(req, 0, |req|, line, CRLF + text);
    Split(req, |line|, |req|, CRLF, text);
    var r := |line|;
    assert req[r] == req[r..r + 2][0] && req[r + 1] == req[r..r + 2][1];
    SliceFree(req, 0, r, line, '\r');
    FindWithin(req, 0, r, VALUE_WINDOW, '\r');
    assert tail[0..2] == CRLF;
    assert req[r + 2..] == text;
    if r < VALUE_WINDOW { WalkIsFold(req, r + 2, domain, NO_HEAD, hs, tail); }
  }

  // ---------------------------------------------------------------- how far a request is read

  /** The bytes from the value of header `i` on. */
  function ValueOn(hs: seq<Header>, i: nat, tail: string): string
    requires i < |hs|
  {
    hs[i].value + (CRLF + HeadersText(hs[i + 1..], tail))
  }

  /** The documented names are taken for their keywords; other ordinary names for none. */
  lemma KeywordNames()
    ensures KeywordOf("host") == Host && KeywordOf("user-agent") == Agent && KeywordOf("accept-language") == Language
    ensures KeywordOf("origin") == Origin && KeywordOf("if-none-match") == Etag
    ensures KeywordOf("accept") == KeywordOf("accept-encoding") == KeywordOf("connection") == Other
  {
    NamesRead();
    NamesPassed();
  }

  lemma NamesRead()
    ensures KeywordOf("host") == Host && KeywordOf("user-agent") == Agent && KeywordOf("accept-language") == Language
    ensures KeywordOf("origin") == Origin && KeywordOf("if-none-match") == Etag
  {
    assert "user-agent"[..8] == "user-age" && "user-agent"[0] == 'u';
    assert "accept-language"[..8] == "accept-l" && "accept-language"[0] == 'a';
    assert "if-none-match"[..8] == "if-none-" && "if-none-match"[0] == 'i';
    assert "origin"[0] == 'o';
  }

  lemma NamesPassed()
    ensures KeywordOf("accept") == KeywordOf("accept-encoding") == KeywordOf("connection") == Other
  {
    assert "accept"[0] == 'a' && "accept-encoding"[0] == 'a' && "accept-encoding"[7] == 'e' && "connection"[0] == 'c';
  }

  /** Header `i` sets something that a second header of its kind runs into. */
  predicate Marks(hs: seq<Header>, i: nat, domain: string, tail: string)
    requires i < |hs|
  {
    match KeywordOf(hs[i].name)
    case Host => CharAt(Subdomain(domain, ValueOn(hs, i, tail)), 0) != NUL
    case Agent => true
    case Language => CharAt(ValueOn(hs, i, tail), 0) !in ",;\n\0"
    case _ => false
  }

  /** Header `j` is such a second one. */
  predicate Repeats(hs: seq<Header>, j: nat, domain: string, tail: string)
    requires j < |hs|
  {
    exists i :: 0 <= i < j && KeywordOf(hs[i].name) == KeywordOf(hs[j].name) && Marks(hs, i, domain, tail)
  }

  /** What has been gathered refuses another header of this kind. */
  predicate Blocked(h: Head, k: Keyword) {
    (k == Host && CharAt(h.sub, 0) != NUL) || (k == Agent && h.agent) || (k == Language && h.language)
  }

  predicate EndsAt(h: Head, hs: seq<Header>, j: nat, domain: string, tail: string)
    requires j < |hs|
  {
    Blocked(h, KeywordOf(hs[j].name)) || Repeats(hs, j, domain, tail) || !Fits(hs[j])
  }

  /** Headers in front of `n` are read, and the one at `n`, if there is one, is refused. */
  predicate ReadsTo(h: Head, hs: seq<Header>, n: nat, domain: string, tail: string) {
    n <= |hs| && (forall j :: 0 <= j < n ==> !EndsAt(h, hs, j, domain, tail))
    && (n < |hs| ==> EndsAt(h, hs, n, domain, tail))
  }

  lemma RepeatsTail(hs: seq<Header>, j: nat, domain: string, tail: string)
    requires 0 < j < |hs|
    ensures Repeats(hs, j, domain, tail) <==>
            Repeats(hs[1..], j - 1, domain, tail) ||
            (KeywordOf(hs[0].name) == KeywordOf(hs[j].name) && Marks(hs, 0, domain, tail))
  {
    hide KeywordOf, Subdomain, HeadersText;
    var rest := hs[1..];
    forall i | 0 <= i < |rest| ensures Marks(rest, i, domain, tail) <==> Marks(hs, i + 1, domain, tail) {
      assert rest[i + 1..] == hs[i + 2..];
    }
    if i :| 0 < i < j && KeywordOf(hs[i].name) == KeywordOf(hs[j].name) && Marks(hs, i, domain, tail) {
      assert rest[i - 1] == hs[i] && Marks(rest, i - 1, domain, tail);
    }
  }

  /** What one header that is read adds to what is refused. */
  lemma BlockedAfter(h: Head, hs: seq<Header>, k: Keyword, domain: string, tail: string)
    requires HeadOk(h) && hs != [] && !Blocked(h, KeywordOf(hs[0].name))
    ensures var a := Apply(KeywordOf(hs[0].name), h, domain, hs[0].value, CRLF + HeadersText(hs[1..], tail));
            && a.Go?
            && (Blocked(a.head, k) <==>
                Blocked(h, k) || (k == KeywordOf(hs[0].name) && Marks(hs, 0, domain, tail)))
  {
    hide KeywordOf, Subdomain, HeadersText, AfterHeader;
    assert ValueOn(hs, 0, tail) == hs[0].value + (CRLF + HeadersText(hs[1..], tail));
  }

  /** One header that is read, as the others behind it see it. */
  lemma EndsTail(h: Head, hs: seq<Header>, j: nat, domain: string, tail: string)
    requires HeadOk(h) && 0 < j < |hs| && !Blocked(h, KeywordOf(hs[0].name))
    ensures var a := Apply(KeywordOf(hs[0].name), h, domain, hs[0].value, CRLF + HeadersText(hs[1..], tail));
            a.Go? && (EndsAt(h, hs, j, domain, tail) <==> EndsAt(a.head, hs[1..], j - 1, domain, tail))
  {
    hide KeywordOf, HeadersText, Apply, Repeats, Marks, Blocked, Fits;
    BlockedAfter(h, hs, KeywordOf(hs[j].name), domain, tail);
    RepeatsTail(hs, j, domain, tail);
    assert hs[1..][j - 1] == hs[j];
  }

  /** The first header of a list is refused exactly when what was gathered before refuses it, or it is too long. */
  lemma FrontEnds(h: Head, hs: seq<Header>, domain: string, tail: string)
    requires HeadOk(h) && hs != []
    ensures EndsAt(h, hs, 0, domain, tail) <==> Blocked(h, KeywordOf(hs[0].name)) || !Fits(hs[0])
    ensures Blocked(h, KeywordOf(hs[0].name)) <==>
            Apply(KeywordOf(hs[0].name), h, domain, hs[0].value, CRLF + HeadersText(hs[1..], tail)) == Stop
  {
    hide KeywordOf, Subdomain, HeadersText, AfterHeader;
  }

  lemma ReadsTail(h: Head, hs: seq<Header>, n: nat, domain: string, tail: string)
    requires HeadOk(h) && 0 < n && ReadsTo(h, hs, n, domain, tail)
    ensures hs != [] && n <= |hs| && Fits(hs[0])
    ensures var a := Apply(KeywordOf(hs[0].name), h, domain, hs[0].value, CRLF + HeadersText(hs[1..], tail));
            a.Go? && ReadsTo(a.head, hs[1..], n - 1, domain, tail)
  {
    hide Apply, Blocked, EndsAt, Fits, KeywordOf, HeadersText;
    FrontEnds(h, hs, domain, tail);
    assert !EndsAt(h, hs, 0, domain, tail);
    var h' := Apply(KeywordOf(hs[0].name), h, domain, hs[0].value, CRLF + HeadersText(hs[1..], tail)).head;
    forall j: nat | j < |hs| - 1
      ensures EndsAt(h', hs[1..], j, domain, tail) <==> EndsAt(h, hs, j + 1, domain, tail)
    {
      EndsTail(h, hs, j + 1, domain, tail);
    }
  }

  /** Some number of headers is read. */
  lemma {:induction false} ReadsSome(h: Head, hs: seq<Header>, n: nat, domain: string, tail: string) returns (m: nat)
    requires n <= |hs| && forall j :: 0 <= j < n ==> !EndsAt(h, hs, j, domain, tail)
    ensures ReadsTo(h, hs, m, domain, tail)
    decreases |hs| - n
  {
    hide EndsAt;
    m := n;
    if n < |hs| && !EndsAt(h, hs, n, domain, tail) { m := ReadsSome(h, hs, n + 1, domain, tail); }
  }

  /** A request head is read to its end exactly when every line fits and none repeats one that has set something. */
  lemma CompleteIff(hs: seq<Header>, domain: string, tail: string)
    ensures FoldHeaders(NO_HEAD, domain, hs, tail).complete <==>
            forall j :: 0 <= j < |hs| ==> Fits(hs[j]) && !Repeats(hs, j, domain, tail)
  {
    hide FoldHeaders, Repeats, KeywordOf, Fits;
    var n := ReadsSome(NO_HEAD, hs, 0, domain, tail);
    FoldEtag(NO_HEAD, domain, hs, tail, n);
    forall j: nat | j < |hs|
      ensures EndsAt(NO_HEAD, hs, j, domain, tail) <==> Repeats(hs, j, domain, tail) || !Fits(hs[j])
    {
      assert CharAt(NO_HEAD.sub, 0) == NUL;
    }
  }

  // ---------------------------------------------------------------- what a request says

  function EtagValues(hs: seq<Header>): seq<string> {
    if hs == [] then [] else (if KeywordOf(hs[0].name) == Etag then [hs[0].value] else []) + EtagValues(hs[1..])
  }

  lemma {:induction false} AfterHeadersFront(buf: string, v: string, vs: seq<string>)
    requires |buf| == ETAG_SIZE
    ensures AfterHeaders(buf, [v] + vs) == AfterHeaders(AfterHeader(buf, v), vs)
    decreases |vs|
  {
    hide AfterHeader;
    var all := [v] + vs;
    if vs == [] {
      assert all[..0] == [];
    } else {
      assert all[..|all| - 1] == [v] + vs[..|vs| - 1];
      AfterHeadersFront(buf, v, vs[..|vs| - 1]);
    }
  }

  /** The tag buffer depends on the `If-None-Match` headers alone that are read, in order. */
  lemma {:induction false} FoldEtag(h: Head, domain: string, hs: seq<Header>, tail: string, n: nat)
    requires HeadOk(h) && ReadsTo(h, hs, n, domain, tail)
    ensures FoldHeaders(h, domain, hs, tail).complete <==> n == |hs|
    ensures FoldHeaders(h, domain, hs, tail).head.etag == AfterHeaders(h.etag, EtagValues(hs[..n]))
    decreases |hs|
  {
    hide AfterHeader, Subdomain, ReadsTo, EndsAt, Fits, Blocked, HeadersText, KeywordOf;
    if n == 0 {
      NothingRead(h, domain, hs, tail);
    } else {
      ReadsTail(h, hs, n, domain, tail);
      var k := KeywordOf(hs[0].name);
      var h' := Apply(k, h, domain, hs[0].value, CRLF + HeadersText(hs[1..], tail)).head;
      FoldEtag(h', domain, hs[1..], tail, n - 1);
      assert hs[..n][0] == hs[0] && hs[..n][1..] == hs[1..][..n - 1];
      if k == Etag {
        AfterHeadersFront(h.etag, hs[0].value, EtagValues(hs[1..][..n - 1]));
      } else {
        assert [] + EtagValues(hs[1..][..n - 1]) == EtagValues(hs[1..][..n - 1]);
      }
    }
  }

  lemma NothingRead(h: Head, domain: string, hs: seq<Header>, tail: string)
    requires HeadOk(h) && ReadsTo(h, hs, 0, domain, tail)
    ensures FoldHeaders(h, domain, hs, tail) == Parsed(hs == [], h)
    ensures EtagValues(hs[..0]) == [] && AfterHeaders(h.etag, []) == h.etag
  {
    hide Apply, Blocked, EndsAt, Fits, KeywordOf;
    if hs != [] { FrontEnds(h, hs, domain, tail); }
  }

  /** Header `i` is the last `Host` header in front of `n`; there is none if `i` is the number of headers. */
  predicate LastHost(hs: seq<Header>, n: nat, i: nat)
    requires n <= |hs|
  {
    if i < n then
      KeywordOf(hs[i].name) == Host && forall j :: i < j < n ==> KeywordOf(hs[j].name) != Host
    else
      i == |hs| && forall j :: 0 <= j < n ==> KeywordOf(hs[j].name) != Host
  }

  lemma {:induction false} HostAmong(hs: seq<Header>, n: nat) returns (i: nat)
    requires n <= |hs|
    ensures LastHost(hs, n, i)
    decreases n
  {
    hide KeywordOf;
    if n == 0 {
      i := |hs|;
    } else if KeywordOf(hs[n - 1].name) == Host {
      i := n - 1;
    } else {
      i := HostAmong(hs, n - 1);
    }
  }

  /** The subdomain comes from the last `Host` header that is read. */
  lemma {:induction false} FoldHost(h: Head, domain: string, hs: seq<Header>, tail: string, n: nat, i: nat)
    requires HeadOk(h) && ReadsTo(h, hs, n, domain, tail) && LastHost(hs, n, i)
    ensures FoldHeaders(h, domain, hs, tail).head.sub ==
            if i < n then Subdomain(domain, ValueOn(hs, i, tail)) else h.sub
    decreases |hs|
  {
    hide AfterHeader, Subdomain, KeywordOf, ReadsTo, EndsAt, Fits, Blocked, HeadersText;
    if n == 0 {
      NothingRead(h, domain, hs, tail);
    } else {
      ReadsTail(h, hs, n, domain, tail);
      var k := KeywordOf(hs[0].name);
      var h' := Apply(k, h, domain, hs[0].value, CRLF + HeadersText(hs[1..], tail)).head;
      var rest := hs[1..];
      if i == 0 {
        FoldHost(h', domain, rest, tail, n - 1, |rest|);
      } else {
        FoldHost(h', domain, rest, tail, n - 1, i - 1);
        assert i < n ==> rest[i..] == hs[i + 1..];
      }
    }
  }

  /**
   From the response to the next decision: a client that puts the tag it was given into its request, in any layout, as
   the only `If-None-Match` header that is read, is answered with 304 exactly when the file's tag is still the same;
   and if that tag identifies its file, exactly when the file has kept its time and size.
   */
  lemma EchoedRequest(line: string, hs: seq<Header>, n: nat, rest: string, domain: string,
                      m: nat, s: nat, m': nat, s': nat)
    requires '\r' !in line && |line| < VALUE_WINDOW && HeadersOk(hs)
    requires ReadsTo(NO_HEAD, hs, n, domain, CRLF + rest) && EtagValues(hs[..n]) == [Echo(Tag(m, s))]
    ensures var req := ReadHeaders(line + (CRLF + HeadersText(hs, CRLF + rest)), domain).head.etag;
            && (BuildDecision(req, true, m', s') == 304 <==> Tag(m', s') == Tag(m, s))
            && (WriteDecision(Padded(Tag(m', s')), req) <==> Tag(m', s') == Tag(m, s))
    ensures Unshared(m, s) && s' < SIZE_LIMIT ==> (Tag(m', s') == Tag(m, s) <==> m == m' && s == s')
  {
    hide ReadHeaders, FoldHeaders, BuildDecision, Tag, Echo, EtagValues, AfterHeaders, Unshared;
    RequestRead(line, hs, rest, domain);
    FoldEtag(NO_HEAD, domain, hs, CRLF + rest, n);
    EchoRevalidates(m, s, m', s');
  }
}
