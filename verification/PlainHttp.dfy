/**
 The port-80 redirector's own parser (`net_80_443_redir`, src/net_80.c), from a complete request buffer, and its
 agreement with the port-443 parser on every written request.
 */
module PlainHttp {
  import opened Bytes
  import opened HostName
  import opened RequestHead

  /** `memmem` for a line end in the window `[p, hi)`: where it starts, or `hi`. */
  function FindCrLf(req: string, p: nat, hi: nat): (r: nat)
    requires p <= hi <= |req|
    ensures p <= r <= hi
    ensures r < hi ==> r + 2 <= hi && MatchAt(req, r, CRLF)
    ensures forall i :: p <= i < r && i + 2 <= hi ==> !MatchAt(req, i, CRLF)
    decreases hi - p
  {
    if p + 2 > hi then hi else if MatchAt(req, p, CRLF) then p else FindCrLf(req, p + 1, hi)
  }

  /** `strncasecmp(p, "Host:", 5) == 0`. */
  predicate HostAt(req: string, p: nat) {
    p + 5 <= |req| && Lower(req[p..p + 5]) == "host:"
  }

  datatype Found = Failed | Sub(sub: string)

  /** The scan for the `Host` line. */
  function ScanHost(req: string, p: nat, domain: string): Found
    requires p <= |req|
    decreases |req| - p
  {
    if MatchAt(req, p, CRLF) then Sub("")
    else if HostAt(req, p) then
      var c := Find(req, p, Clip(req, p + 64), ':');
      if c == Clip(req, p + 64) then Failed else Sub(Subdomain(domain, req[SkipBlanks(req, c + 1)..]))
    else
      var e := FindCrLf(req, p, Clip(req, p + 1024));
      if e == Clip(req, p + 1024) then Failed else ScanHost(req, e + 2, domain)
  }

  datatype Redirected = Refused | To(uri: string, sub: string)

  /** What the redirector takes from a request: the URI of its first line and the subdomain of its host. */
  function ReadPlain(req: string, domain: string): Redirected {
    var line := ReadLine(req);
    var a := Find(req, 0, Clip(req, METHOD_SIZE), ' ');
    if a == Clip(req, METHOD_SIZE) then Refused
    else
      var b := Find(req, a + 1, Clip(req, a + 1 + URI_SIZE), ' ');
      if b == Clip(req, a + 1 + URI_SIZE) then Refused
      else
        var e := FindCrLf(req, 0, Clip(req, 1024));
        if e == Clip(req, 1024) then Refused
        else
          match ScanHost(req, e + 2, domain)
          case Failed => Refused
          case Sub(s) => To(line.uri, s)
  }

  /** The parsing part of `net_80_443_redir`. */
  method ParsePlain(req: string, domain: string) returns (ok: bool, uri: string, subdomain: string)
    ensures match ReadPlain(req, domain)
            case Refused => !ok
            case To(u, s) => ok && uri == u && subdomain == s
  {
    hide Find, FindCrLf;
    ok, uri, subdomain := false, "", "";
    var pStart: nat := 0;
    var pEnd: nat := Find(req, pStart, Clip(req, pStart + METHOD_SIZE), ' ');
    if pEnd == Clip(req, pStart + METHOD_SIZE) { return; }
    pStart := pEnd + 1;
    pEnd := Find(req, pStart, Clip(req, pStart + URI_SIZE), ' ');
    if pEnd == Clip(req, pStart + URI_SIZE) { return; }
    uri := req[pStart..pEnd];
    pEnd := FindCrLf(req, 0, Clip(req, 1024));
    if pEnd == Clip(req, 1024) { return; }
    var found := HostLoop(req, pEnd + 2, domain);
    match found
    case Failed =>
    case Sub(s) => ok, subdomain := true, s;
  }

  /** The header loop of `net_80_443_redir`. */
  method HostLoop(req: string, start: nat, domain: string) returns (found: Found)
    requires start <= |req|
    ensures found == ScanHost(req, start, domain)
  {
    hide Find, MatchAt, HostAt, Subdomain;
    var p: nat := start;
    while true
      invariant p <= |req| && ScanHost(req, p, domain) == ScanHost(req, start, domain)
      decreases |req| - p
    {
      if MatchAt(req, p, CRLF) { return Sub(""); }
      if HostAt(req, p) {
        var pEnd := Find(req, p, Clip(req, p + 64), ':');
        if pEnd == Clip(req, p + 64) { return Failed; }
        var v: nat := pEnd + 1;
        while v < |req| && req[v] == ' '
          invariant pEnd + 1 <= v <= |req| && SkipBlanks(req, v) == SkipBlanks(req, pEnd + 1)
        {
          v := v + 1;
        }
        var sub := ExtractSubdomain(domain, req[v..]);
        return Sub(sub);
      }
      var e := FindCrLf(req, p, Clip(req, p + 1024));
      if e == Clip(req, p + 1024) { return Failed; }
      p := e + 2;
    }
  }

  // ---------------------------------------------------------------- written requests

  /** The scan, header by header: the first name that is `host` in any case, if no line in front of it is too long. */
  function FirstHost(domain: string, hs: seq<Header>, tail: string): Found {
    if hs == [] then Sub("")
    else if Lower(hs[0].name) == "host" then Sub(Subdomain(domain, ValueOn(hs, 0, tail)))
    else if !LineFits(hs[0]) then Failed
    else FirstHost(domain, hs[1..], tail)
  }

  lemma HostAtName(req: string, p: nat, c: nat, name: string)
    requires p <= c < |req| && req[p..c] == name && req[c] == ':' && ':' !in name
    ensures HostAt(req, p) <==> Lower(name) == "host"
  {
    assert |req[p..c]| == c - p;
    if p + 5 <= |req| {
      var m := req[p..p + 5];
      var l := Lower(m);
      assert forall i :: 0 <= i < 5 && p + i < c ==> m[i] == name[i];
      assert c < p + 5 ==> m[c - p] == ':' && l[c - p] == ':';
      assert forall i :: 0 <= i < |name| ==> Lower(name)[i] != ':' by {
        forall i | 0 <= i < |name| ensures Lower(name)[i] != ':' { assert name[i] != ':'; }
      }
      if |name| == 4 {
        assert l[..4] == Lower(name);
        assert l == l[..4] + ":";
      } else if |name| >= 5 {
        assert l[4] == Lower(name)[4];
      } else {
        assert l[|name|] == ':';
      }
    }
  }

  lemma CrLfIs(req: string, p: nat, r: nat, hi: nat)
    requires p <= r && r + 2 <= hi <= |req| && req[r] == '\r' && req[r + 1] == '\n'
    requires forall i :: p <= i < r ==> req[i] != '\r'
    ensures FindCrLf(req, p, hi) == r
  {
    assert req[r..r + 2] == CRLF;
    assert MatchAt(req, r, CRLF);
    forall i | p <= i < r && i + 2 <= hi ensures !MatchAt(req, i, CRLF) { assert req[i..i + 2][0] == req[i]; }
  }

  /** The line with its end fits the window of one `memmem`. */
  predicate LineFits(h: Header) {
    |h.name| + |h.pad| + |h.value| + 3 <= 1024
  }

  /** One written header: it is the host line, or the scan goes on behind it. */
  lemma ScanRound(req: string, p: nat, domain: string, h: Header, rest: string)
    requires p <= |req| && HeaderOk(h)
    requires req[p..] == h.name + (":" + (h.pad + (h.value + (CRLF + rest))))
    ensures |rest| <= |req| && req[|req| - |rest|..] == rest
    ensures ScanHost(req, p, domain) ==
            if Lower(h.name) == "host" then Sub(Subdomain(domain, h.value + (CRLF + rest)))
            else if LineFits(h) then ScanHost(req, |req| - |rest|, domain)
            else Failed
  {
    hide Find, FindCrLf, Subdomain, HostAt, MatchAt, HeaderOk, Clip, SkipBlanks;
    HeaderLayout(req, p, h, rest);
    var c := p + |h.name|;
    var v := c + 1 + |h.pad|;
    var r := v + |h.value|;
    assert |req[r + 2..]| == |rest|;
    LineFinds(req, p, c, v, r, h);
    ValueOnward(req, v, r, h.value, CRLF + rest);
  }

  lemma LineFinds(req: string, p: nat, c: nat, v: nat, r: nat, h: Header)
    requires HeaderStands(req, p, c, v, r, h) && HeaderOk(h)
    ensures !MatchAt(req, p, CRLF)
    ensures Lower(h.name) == "host" ==> Find(req, p, Clip(req, p + 64), ':') == c < Clip(req, p + 64)
    ensures SkipBlanks(req, c + 1) == v
    ensures HostAt(req, p) <==> Lower(h.name) == "host"
    ensures var hi := Clip(req, p + 1024); FindCrLf(req, p, hi) == if LineFits(h) then r else hi
    ensures LineFits(h) ==> r < Clip(req, p + 1024)
  {
    hide Find, FindCrLf, HostAt, MatchAt, HeaderOk;
    HeaderFinds(req, p, c, v, r, h);
    HostAtHeader(req, p, c, h);
    LineEndsAt(req, p, c, v, r, h);
    assert |req[p..c]| == c - p;
  }

  lemma HostAtHeader(req: string, p: nat, c: nat, h: Header)
    requires HeaderOk(h) && p <= c < |req| && req[p..c] == h.name && req[c] == ':'
    ensures HostAt(req, p) <==> Lower(h.name) == "host"
  {
    HostAtName(req, p, c, h.name);
  }

  lemma ValueOnward(req: string, v: nat, r: nat, value: string, after: string)
    requires v <= r <= |req| && req[v..r] == value && req[r..] == after
    ensures req[v..] == value + after
  {
    assert req[v..] == req[v..r] + req[r..];
  }

  lemma LineEndsAt(req: string, p: nat, c: nat, v: nat, r: nat, h: Header)
    requires HeaderStands(req, p, c, v, r, h) && HeaderOk(h)
    ensures var hi := Clip(req, p + 1024); FindCrLf(req, p, hi) == if LineFits(h) then r else hi
    ensures LineFits(h) ==> r < Clip(req, p + 1024)
  {
    hide FindCrLf;
    HeaderBytes(req, p, c, v, r, h);
    assert |req[p..c]| == c - p && |req[c + 1..v]| == v - c - 1 && |req[v..r]| == r - v;
    if LineFits(h) {
      CrLfIs(req, p, r, Clip(req, p + 1024));
    } else {
      NoCrLf(req, p, Clip(req, p + 1024));
    }
  }

  lemma NoCrLf(req: string, p: nat, hi: nat)
    requires p <= hi <= |req| && forall i :: p <= i < hi - 1 ==> req[i] != '\r'
    ensures FindCrLf(req, p, hi) == hi
  {
    hide FindCrLf;
    forall i | p <= i < hi - 1 ensures !MatchAt(req, i, CRLF) { assert req[i..i + 2][0] == req[i]; }
  }

  lemma {:induction false} ScanIsFirst(req: string, p: nat, domain: string, hs: seq<Header>, tail: string)
    requires p <= |req| && req[p..] == HeadersText(hs, tail) && MatchAt(tail, 0, CRLF)
    requires forall i :: 0 <= i < |hs| ==> HeaderOk(hs[i])
    ensures ScanHost(req, p, domain) == FirstHost(domain, hs, tail)
    decreases |hs|
  {
    hide ScanHost, Subdomain, LineFits, HeaderOk, MatchAt;
    if hs == [] {
      EndOfHeaders(req, p, tail);
      NoHost(req, p, domain);
    } else {
      var rest := HeadersText(hs[1..], tail);
      ScanRound(req, p, domain, hs[0], rest);
      assert hs[0 + 1..] == hs[1..];
      if Lower(hs[0].name) != "host" && LineFits(hs[0]) {
        ScanIsFirst(req, |req| - |rest|, domain, hs[1..], tail);
      }
    }
  }

  lemma NoHost(req: string, p: nat, domain: string)
    requires p <= |req| && MatchAt(req, p, CRLF)
    ensures ScanHost(req, p, domain) == Sub("")
  {
  }

  /** The method and the line as a whole are not too long for the redirector. */
  predicate PlainLineFits(line: Line) {
    |line.meth| < METHOD_SIZE && |line.meth| + |line.uri| + |line.version| + 4 <= 1024
  }

  /**
   The port-80 parser on a whole written request: the URI of its first line and its first `Host` header, unless the line
   or one in front of that header is too long.
   */
  lemma PlainRead(line: Line, hs: seq<Header>, rest: string, domain: string)
    requires ' ' !in line.meth && ' ' !in line.uri && '\r' !in line.meth && '\r' !in line.uri && '\r' !in line.version
    requires forall i :: 0 <= i < |hs| ==> HeaderOk(hs[i])
    ensures var host := FirstHost(domain, hs, CRLF + rest);
            ReadPlain(LineText(line, "\n" + HeadersText(hs, CRLF + rest)), domain) ==
            if PlainLineFits(line) && host.Sub? then To(line.uri, host.sub) else Refused
  {
    hide Find, FindCrLf, ScanHost, FirstHost, HeaderOk, ReadLine, LineText, Clip, MatchAt;
    var tail := CRLF + rest;
    var text := HeadersText(hs, tail);
    var req := LineText(line, "\n" + text);
    LineLayout(line, "\n" + text);
    LineRoundTrip(line, "\n" + text);
    var a := |line.meth|;
    var b := a + 1 + |line.uri|;
    var c := b + 1 + |line.version|;
    FirstLineEnd(req, a, b, c, line, text);
    CrLfFirst(rest);
    if PlainLineFits(line) { ScanIsFirst(req, c + 2, domain, hs, tail); }
  }

  lemma CrLfFirst(rest: string)
    ensures MatchAt(CRLF + rest, 0, CRLF)
  {
    assert (CRLF + rest)[0..2] == CRLF;
  }

  lemma FirstLineEnd(req: string, a: nat, b: nat, c: nat, line: Line, text: string)
    requires req == LineText(line, "\n" + text) && LineAt(req, a, b, c, line)
    requires ' ' !in line.meth && ' ' !in line.uri && '\r' !in line.meth && '\r' !in line.uri && '\r' !in line.version
    ensures c + 2 <= |req| && req[c + 2..] == text
    ensures var hi := Clip(req, 1024);
            FindCrLf(req, 0, hi) == (if c + 2 <= 1024 then c else hi) && (c + 2 <= 1024 ==> c < hi)
    ensures var hi := Clip(req, METHOD_SIZE);
            Find(req, 0, hi, ' ') == (if a < METHOD_SIZE then a else hi) && (a < METHOD_SIZE ==> a < hi)
    ensures var hi := Clip(req, a + 1 + URI_SIZE);
            Find(req, a + 1, hi, ' ') == (if b - a - 1 < URI_SIZE then b else hi) && (b - a - 1 < URI_SIZE ==> b < hi)
  {
    hide Find, FindCrLf, LineText;
    LineTail(req, a, b, c, line, text);
    FieldsFree(req, a, b, c, line);
    FindWithin(req, 0, a, METHOD_SIZE, ' ');
    FindWithin(req, a + 1, b, URI_SIZE, ' ');
    if c + 2 <= 1024 { CrLfIs(req, 0, c, Clip(req, 1024)); } else { NoCrLf(req, 0, Clip(req, 1024)); }
  }

  lemma FieldsFree(req: string, a: nat, b: nat, c: nat, line: Line)
    requires LineAt(req, a, b, c, line)
    requires ' ' !in line.meth && ' ' !in line.uri && '\r' !in line.meth && '\r' !in line.uri && '\r' !in line.version
    ensures |line.meth| == a && |line.uri| == b - a - 1
    ensures forall i :: 0 <= i < a || a + 1 <= i < b ==> req[i] != ' '
    ensures forall i :: 0 <= i < c ==> req[i] != '\r'
  {
    assert |req[..a]| == a && |req[a + 1..b]| == b - a - 1 && |req[b + 1..c]| == c - b - 1;
    SliceFree(req, 0, a, line.meth, ' ');
    SliceFree(req, a + 1, b, line.uri, ' ');
    SliceFree(req, 0, a, line.meth, '\r');
    SliceFree(req, a + 1, b, line.uri, '\r');
    SliceFree(req, b + 1, c, line.version, '\r');
  }

  lemma LineTail(req: string, a: nat, b: nat, c: nat, line: Line, text: string)
    requires req == LineText(line, "\n" + text) && LineAt(req, a, b, c, line)
    ensures c + 2 <= |req| && req[c + 2..] == text && req[c + 1] == '\n'
  {
    var front := line.meth + (" " + (line.uri + (" " + line.version)));
    assert |req[..a]| == a && |req[a + 1..b]| == b - a - 1 && |req[b + 1..c]| == c - b - 1;
    assert req == front + (CRLF + text);
  }

  // ---------------------------------------------------------------- the two servers on one request

  function LowerHeader(h: Header): Header {
    Header(Lower(h.name), h.pad, Lower(h.value))
  }

  function LowerHeaders(hs: seq<Header>): (r: seq<Header>)
    ensures |r| == |hs| && forall i :: 0 <= i < |hs| ==> r[i] == LowerHeader(hs[i])
  {
    seq(|hs|, i requires 0 <= i < |hs| => LowerHeader(hs[i]))
  }

  /** Lowering the request buffer lowers its headers one by one. */
  lemma {:induction false} LowerText(hs: seq<Header>, tail: string)
    requires forall i :: 0 <= i < |hs| ==> HeaderOk(hs[i])
    ensures Lower(HeadersText(hs, tail)) == HeadersText(LowerHeaders(hs), Lower(tail))
    decreases |hs|
  {
    hide HeaderOk;
    if hs != [] {
      var rest := HeadersText(hs[1..], tail);
      LowerText(hs[1..], tail);
      assert LowerHeaders(hs)[1..] == LowerHeaders(hs[1..]);
      BlanksLower(hs[0]);
      LowerFive(hs[0].name, hs[0].pad, hs[0].value, rest);
    }
  }

  lemma BlanksLower(h: Header)
    requires HeaderOk(h)
    ensures Lower(h.pad) == h.pad
  {
  }

  lemma LowerFive(name: string, pad: string, value: string, rest: string)
    ensures Lower(name + (":" + (pad + (value + (CRLF + rest))))) ==
            Lower(name) + (":" + (Lower(pad) + (Lower(value) + (CRLF + Lower(rest)))))
  {
    LowerOfSum(name, ":" + (pad + (value + (CRLF + rest))));
    LowerOfSum(":", pad + (value + (CRLF + rest)));
    LowerOfSum(pad, value + (CRLF + rest));
    LowerOfSum(value, CRLF + rest);
    LowerOfSum(CRLF, rest);
    assert Lower(":") == ":" && Lower(CRLF) == CRLF;
  }

  /**
   Port 80 and port 443 on the same request.  If `Host` is the only header whose name starts with those letters and each
   loop gets as far as that, both parsers look at the same bytes, one before and one after lowering them; so by the rule
   for the extractors they name the same subdomain up to case unless only the lowered bytes start with the domain.
   */
  lemma ParsersAgree(hs: seq<Header>, tail: string, domain: string, i: nat, h: Head, n: nat)
    requires i < |hs| && forall j :: 0 <= j < |hs| ==> HeaderOk(hs[j])
    requires forall j :: 0 <= j < |hs| ==>
               if j == i then Lower(hs[j].name) == "host" else !("host" <= Lower(hs[j].name))
    requires HeadOk(h) && ReadsTo(h, LowerHeaders(hs), n, domain, Lower(tail))
    ensures FirstHost(domain, hs, tail) ==
            if FrontFits(hs, i) then Sub(Subdomain(domain, ValueOn(hs, i, tail))) else Failed
    ensures FoldHeaders(h, domain, LowerHeaders(hs), Lower(tail)).head.sub ==
            if i < n then Subdomain(domain, Lower(ValueOn(hs, i, tail))) else h.sub
  {
    hide Subdomain, HeaderOk, FoldHeaders, FirstHost, HeadersText, EndsAt;
    var ls := LowerHeaders(hs);
    forall j | 0 <= j < |ls| ensures KeywordOf(ls[j].name) == Host <==> j == i {
      assert "host" <= "host";
    }
    FoldHost(h, domain, ls, Lower(tail), n, if i < n then i else |hs|);
    LowerText(hs[i + 1..], tail);
    assert LowerHeaders(hs)[i + 1..] == LowerHeaders(hs[i + 1..]);
    LowerOfSum(hs[i].value, CRLF + HeadersText(hs[i + 1..], tail));
    LowerOfSum(CRLF, HeadersText(hs[i + 1..], tail));
    assert Lower(CRLF) == CRLF;
    FirstHostIs(hs, tail, domain, i);
  }

  predicate FrontFits(hs: seq<Header>, i: nat)
    requires i <= |hs|
  {
    forall j :: 0 <= j < i ==> LineFits(hs[j])
  }

  lemma {:induction false} FirstHostIs(hs: seq<Header>, tail: string, domain: string, i: nat)
    requires i < |hs| && Lower(hs[i].name) == "host"
    requires forall j :: 0 <= j < i ==> Lower(hs[j].name) != "host"
    ensures FirstHost(domain, hs, tail) ==
            if FrontFits(hs, i) then Sub(Subdomain(domain, ValueOn(hs, i, tail))) else Failed
    decreases |hs|
  {
    hide Subdomain, HeadersText, LineFits;
    if i > 0 {
      var rest := hs[1..];
      FirstHostIs(rest, tail, domain, i - 1);
      assert rest[i..] == hs[i + 1..];
      assert FrontFits(hs, i) <==> LineFits(hs[0]) && FrontFits(rest, i - 1) by {
        assert forall j :: 0 < j < i ==> hs[j] == rest[j - 1];
        assert forall j :: 0 <= j < i - 1 ==> rest[j] == hs[j + 1];
      }
    }
  }
}
