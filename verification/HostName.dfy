/**
 Subdomains and rebuilt hosts: the `Host` cases of `_header_parse` (src/net_http.c) and `net_80_443_redir`
 (src/net_80.c), `net_host_build` (src/net.c), and the redirect chain they form together with the clean-URL rule.
 */
module HostName {
  import opened Bytes
  import opened PercentCode
  import opened CleanUrl
  import opened Redirects

  /** `sizeof(http_req->subdomain)`. */
  const SUB_SIZE: nat := 64
  const WWW := "www"

  /** Everything in front of the first dot among the first 64 bytes; nothing when there is no dot there. */
  function FirstLabel(v: string): (r: string)
    ensures |r| < SUB_SIZE
  {
    var n := Min(|v|, SUB_SIZE);
    var i := Find(v, 0, n, '.');
    if i == n then "" else v[..i]
  }

  /** What both extractors make of the bytes from the start of the `Host` value on. */
  function Subdomain(domain: string, v: string): (r: string)
    ensures |r| < SUB_SIZE
  {
    if domain <= v then WWW else FirstLabel(v)
  }

  /** The extraction code of both servers. */
  method ExtractSubdomain(domain: string, v: string) returns (sub: string)
    ensures sub == Subdomain(domain, v)
  {
    if MatchAt(v, 0, domain) {
      assert v[..|domain|] == domain;
      return WWW;
    }
    var p2 := 0;
    var i := 0;
    while i < SUB_SIZE
      invariant 0 <= i <= SUB_SIZE && p2 == 0
      invariant forall j :: 0 <= j < i && j < |v| ==> v[j] != '.'
    {
      if i < |v| && v[i] == '.' {
        p2 := i;
        break;
      }
      i := i + 1;
    }
    var n := Min(|v|, SUB_SIZE);
    FindIs(v, 0, n, '.', Min(i, n));
    sub := v[..p2];
  }

  /** A subdomain as either extractor returns it: short, and without a dot. */
  predicate Label(sub: string) {
    |sub| < SUB_SIZE && '.' !in sub
  }

  lemma SubdomainIsLabel(domain: string, v: string)
    ensures Label(Subdomain(domain, v))
  {
    hide Find;
    FindFirst(v, 0, Min(|v|, SUB_SIZE), '.');
  }

  /** What stands in front of the first dot is the subdomain, unless the value starts with the domain. */
  lemma SubdomainReads(domain: string, sub: string, rest: string)
    requires Label(sub)
    ensures var v := sub + "." + rest;
            Subdomain(domain, v) == if domain <= v then WWW else sub
  {
    hide Find;
    var v := sub + "." + rest;
    FindIs(v, 0, Min(|v|, SUB_SIZE), '.', |sub|);
    assert v[..|sub|] == sub;
  }

  /** Without a dot near enough there is no subdomain. */
  lemma NoSubdomain(domain: string, v: string)
    requires '.' !in v[..Min(|v|, SUB_SIZE)] && !(domain <= v)
    ensures Subdomain(domain, v) == ""
  {
    hide Find;
    var n := Min(|v|, SUB_SIZE);
    SliceFree(v, 0, n, v[..n], '.');
    FindIs(v, 0, n, '.', n);
  }

  function PortText(port: nat): string {
    if port == 443 then "" else ":" + Decimal(port)
  }

  function HostOf(sub: string, domain: string, port: nat): string {
    sub + "." + domain + PortText(port)
  }

  /** `net_host_build`: three copies through a moving pointer. */
  method NetHostBuild(hostBuf: array<char>, sub: string, domain: string, port: nat)
    requires hostBuf.Length == 512 && |sub| < SUB_SIZE && |domain| < 128 && port < 65536
    requires NUL !in sub && NUL !in domain
    modifies hostBuf
    ensures CStr(hostBuf[..]) == HostOf(sub, domain, port)
  {
    var portBuf := PortText(port);
    assert |portBuf| <= 6 by {
      DecimalLength(port, 5);
      assert Pow10(5) == 100000 by { assert Pow10(2) == 100 && Pow10(3) == 1000 && Pow10(4) == 10000; }
    }
    var p := 0;
    Put(hostBuf, p, sub);
    p := p + |sub|;
    Put(hostBuf, p, ['.', NUL]);
    p := p + 1;
    Put(hostBuf, p, domain);
    p := p + |domain|;
    hostBuf[p] := NUL;
    Put(hostBuf, p, portBuf);
    p := p + |portBuf|;
    hostBuf[p] := NUL;
    ghost var h := HostOf(sub, domain, port);
    assert NUL !in h;
    assert hostBuf[..] == h + [NUL] + hostBuf[p + 1..];
    CStrOf(h, hostBuf[p + 1..]);
  }

  // ---------------------------------------------------------------- how a client reads a built host

  function NameIn(authority: string): string {
    authority[..Find(authority, 0, |authority|, ':')]
  }

  /** The decimal value behind the first colon; 443 without one, and no port if anything but digits follows it. */
  function PortIn(authority: string): int {
    var c := Find(authority, 0, |authority|, ':');
    if c == |authority| then 443
    else
      var digits := authority[c + 1..];
      if forall i :: 0 <= i < |digits| ==> IsDigit(digits[i]) then DigitsValue(digits) else -1
  }

  /** A client of the built host connects to the configured port, under the subdomain's name in the domain. */
  lemma HostReads(sub: string, domain: string, port: nat)
    requires ':' !in sub && ':' !in domain
    ensures NameIn(HostOf(sub, domain, port)) == sub + "." + domain
    ensures PortIn(HostOf(sub, domain, port)) == port
  {
    hide Decimal, DigitsValue, Find;
    var name := sub + "." + domain;
    var h := HostOf(sub, domain, port);
    assert ':' !in name;
    assert h[..|name|] == name;
    FindIs(h, 0, |h|, ':', |name|);
    if port != 443 {
      assert h[|name| + 1..] == Decimal(port);
      DecimalRoundTrip(port);
    }
  }

  // ---------------------------------------------------------------- build then extract

  lemma LowerOfSum(a: string, b: string)
    ensures Lower(a + b) == Lower(a) + Lower(b)
  {
  }

  /** The HTTPS extractor on a host built for `sub`, followed by any other bytes of the request. */
  function Reparsed(sub: string, domain: string, port: nat, rest: string): string {
    Subdomain(domain, Lower(HostOf(sub, domain, port) + rest))
  }

  /**
   A rebuilt host parses back to the same (lower-case) subdomain, or to `www` exactly when the domain is a prefix of
   its own rebuilt name.  Nothing else in the request can change that.
   */
  lemma HostRoundTrip(sub: string, domain: string, port: nat, rest: string)
    requires Label(sub) && IsLower(domain)
    ensures Reparsed(sub, domain, port, rest) ==
            if domain <= Lower(sub) + "." + domain then WWW else Lower(sub)
  {
    hide *;
    BuiltLowered(sub, domain, port, rest);
    LabelLower(sub);
    SubdomainReads(domain, Lower(sub), domain + Lower(PortText(port) + rest));
    PrefixOfFront(domain, Lower(sub), Lower(PortText(port) + rest));
  }

  /** The bytes the HTTPS extractor sees of a built host. */
  lemma BuiltLowered(sub: string, domain: string, port: nat, rest: string)
    requires IsLower(domain)
    ensures Lower(HostOf(sub, domain, port) + rest) ==
            Lower(sub) + "." + (domain + Lower(PortText(port) + rest))
    ensures Reparsed(sub, domain, port, rest) ==
            Subdomain(domain, Lower(sub) + "." + (domain + Lower(PortText(port) + rest)))
  {
    hide PortText, Subdomain, Lower;
    var tail := PortText(port) + rest;
    assert HostOf(sub, domain, port) + rest == sub + ("." + (domain + tail));
    LowerOfSum(sub, "." + (domain + tail));
    LowerOfSum(".", domain + tail);
    LowerOfSum(domain, tail);
    DotLower();
    assert Lower(sub) + ("." + (domain + Lower(tail))) == Lower(sub) + "." + (domain + Lower(tail));
  }

  lemma DotLower()
    ensures Lower(".") == "."
  {
  }

  lemma LabelLower(sub: string)
    requires Label(sub)
    ensures Label(Lower(sub))
  {
    forall i | 0 <= i < |sub| ensures Lower(sub)[i] != '.' { assert Lower(sub)[i] == LowerChar(sub[i]); }
  }

  lemma PrefixOfFront(domain: string, sub: string, tail: string)
    ensures domain <= sub + "." + (domain + tail) <==> domain <= sub + "." + domain
  {
    var v := sub + "." + (domain + tail);
    assert v[..|domain|] == (sub + "." + domain)[..|domain|];
  }

  /** `www` is a fixed point, and parsing a second time changes nothing. */
  lemma HostIdempotent(sub: string, domain: string, port: nat, rest: string, rest': string)
    requires Label(sub) && IsLower(domain)
    ensures Label(Reparsed(sub, domain, port, rest))
    ensures Reparsed(WWW, domain, port, rest) == WWW
    ensures Reparsed(Reparsed(sub, domain, port, rest), domain, port, rest') == Reparsed(sub, domain, port, rest)
  {
    hide Reparsed;
    HostRoundTrip(sub, domain, port, rest);
    var once := Lower(sub);
    assert Lower(WWW) == WWW;
    assert Lower(once) == once;
    assert Label(once) by {
      forall i | 0 <= i < |once| ensures once[i] != '.' { assert once[i] == LowerChar(sub[i]); }
    }
    HostRoundTrip(WWW, domain, port, rest);
    HostRoundTrip(WWW, domain, port, rest');
    HostRoundTrip(once, domain, port, rest');
  }

  // ---------------------------------------------------------------- the two servers agree

  lemma FirstLabelLower(v: string)
    ensures FirstLabel(Lower(v)) == Lower(FirstLabel(v))
  {
    hide Find;
    var n := Min(|v|, SUB_SIZE);
    FindFirst(v, 0, n, '.');
    var i := Find(v, 0, n, '.');
    var l := Lower(v);
    assert forall j :: 0 <= j < |v| ==> (l[j] == '.' <==> v[j] == '.');
    FindIs(l, 0, n, '.', i);
    assert l[..i] == Lower(v[..i]);
  }

  /**
   The port-80 extractor compares the domain with the bytes as sent, the port-443 one after lowering them.  They
   return the same subdomain, up to case, exactly when that comparison has the same outcome or could not matter.
   */
  lemma ExtractorsAgreeIff(domain: string, v: string)
    ensures Lower(Subdomain(domain, v)) == Subdomain(domain, Lower(v)) <==>
            (domain <= v <==> domain <= Lower(v)) || Lower(FirstLabel(v)) == WWW
    ensures IsLower(v) ==> Lower(Subdomain(domain, v)) == Subdomain(domain, Lower(v))
  {
    hide FirstLabel;
    FirstLabelLower(v);
    assert Lower(WWW) == WWW;
  }

  /** A host the extractors disagree on: the bare domain written with a capital. */
  lemma CapitalHostDisagrees()
    ensures Subdomain("example.com", "Example.com\r\n") == "Example"
    ensures Subdomain("example.com", Lower("Example.com\r\n")) == WWW
  {
    hide Find;
    var v := "Example.com\r\n";
    FindIs(v, 0, 13, '.', 7);
    assert v[0] == 'E';
    assert Lower(v)[..11] == "example.com";
  }

  // ---------------------------------------------------------------- the whole redirect chain

  /** What a client asks for next: the value of its `Host` header and the URI of its request line. */
  datatype Visit = Http(host: string, uri: string) | Https(host: string, uri: string)

  /** `_uri_parse`: the path ends at the first question mark. */
  function PathOf(uri: string): (p: string)
    ensures |p| <= |uri|
  {
    uri[..Find(uri, 0, |uri|, '?')]
  }

  /** The path of a URI is what stands in front of its first question mark, or all of it. */
  lemma PathInFront(p: string, q: string)
    requires '?' !in p
    ensures PathOf(p + "?" + q) == p && PathOf(p) == p
  {
    hide Find;
    var uri := p + "?" + q;
    FindIs(uri, 0, |uri|, '?', |p|);
    FindIs(p, 0, |p|, '?', |p|);
  }

  /** Where a redirect sends the client, if there is one; `rest` is what follows the host in the request. */
  function NextVisit(v: Visit, domain: string, port: nat, rest: string): (r: seq<Visit>)
    ensures |r| <= 1
  {
    match v
    case Http(host, uri) => [Https(HostOf(Subdomain(domain, host + rest), domain, port), uri)]
    case Https(host, uri) =>
      var rule := Redirect(PathOf(uri));
      if rule.Moved? then [Https(HostOf(Subdomain(domain, Lower(host + rest)), domain, port), rule.to)] else []
  }

  /** The visits of a client that follows every redirect; the rest of each of its requests is its own affair. */
  ghost predicate Chain(visits: seq<Visit>, domain: string, port: nat, rests: seq<string>) {
    && visits != [] && |rests| == |visits|
    && forall i :: 0 <= i < |visits| - 1 ==> NextVisit(visits[i], domain, port, rests[i]) == [visits[i + 1]]
  }

  /** How a client reads the `Location` that `net_http_path_redir` prints: the host ends at the first slash. */
  function AuthorityOf(host: string, to: string): string {
    var loc := host + to;
    loc[..Find(loc, 0, |loc|, '/')]
  }

  /** The client is sent to the host and the path that were meant exactly when the path has its slash in front. */
  lemma LocationIff(host: string, to: string)
    requires '/' !in host && to != ""
    ensures AuthorityOf(host, to) == host <==> Rooted(to)
  {
    hide Find;
    var loc := host + to;
    FindFirst(loc, 0, |loc|, '/');
    assert loc[..|host|] == host && loc[|host|] == to[0];
    assert forall i :: 0 <= i < |host| ==> loc[i] == host[i];
    if Rooted(to) {
      FindIs(loc, 0, |loc|, '/', |host|);
    } else if Find(loc, 0, |loc|, '/') == |host| {
      assert |loc[..|host|]| == |host|;
    }
    assert |AuthorityOf(host, to)| == Find(loc, 0, |loc|, '/');
  }

  /** `GET x/index.html` sends the client to another host. */
  lemma UnrootedLeavesHost()
    ensures Redirect("x/index.html") == Moved("x/")
    ensures AuthorityOf("www.example.com", "x/") == "www.example.comx"
  {
    hide Find, LastSlash;
    hide Redirect;
    IndexMoves("x/", INDEX_HTML);
    assert "x/" + INDEX_HTML == "x/index.html";
    var loc := "www.example.comx" + "/";
    assert "www.example.com" + "x/" == loc;
    FindIs(loc, 0, 17, '/', 16);
    assert loc[..16] == "www.example.comx";
  }

  /** A chain cannot be continued exactly where it has reached HTTPS and a clean path. */
  lemma ChainStopsIff(v: Visit, domain: string, port: nat, rest: string)
    requires Rooted(PathOf(v.uri))
    ensures NextVisit(v, domain, port, rest) == [] <==> v.Https? && Clean(PathOf(v.uri))
  {
    hide Redirect, Find, Subdomain;
    CleanIff(PathOf(v.uri));
  }

  lemma NextShrinks(v: Visit, domain: string, port: nat, rest: string)
    requires v.Https? && Rooted(PathOf(v.uri)) && NextVisit(v, domain, port, rest) != []
    ensures var w := NextVisit(v, domain, port, rest)[0];
            w.Https? && |w.uri| + 5 <= |v.uri| && PathOf(w.uri) == w.uri && Rooted(w.uri)
  {
    hide Redirect, Find;
    var p := PathOf(v.uri);
    MovedShortens(p);
    FindFirst(v.uri, 0, |v.uri|, '?');
    var to := Redirect(p).to;
    assert forall i :: 0 <= i < |to| ==> to[i] == v.uri[i];
    FindIs(to, 0, |to|, '?', |to|);
    assert to[..|to|] == to;
  }

  /** Every redirect chain is short: the hop to HTTPS, then at most a fifth of the path's length. */
  lemma {:induction false} ChainEnds(visits: seq<Visit>, domain: string, port: nat, rests: seq<string>)
    requires Chain(visits, domain, port, rests) && Rooted(PathOf(visits[0].uri))
    ensures |visits| - 1 <= (if visits[0].Http? then 1 else 0) + |visits[0].uri| / 5
    decreases |visits|
  {
    hide Redirect, Find, Subdomain;
    if |visits| > 1 {
      var tail := visits[1..];
      assert NextVisit(visits[0], domain, port, rests[0]) == [visits[1]];
      assert forall i :: 0 <= i < |tail| ==> tail[i] == visits[i + 1] && rests[1..][i] == rests[i + 1];
      if visits[0].Https? { NextShrinks(visits[0], domain, port, rests[0]); }
      ChainEnds(tail, domain, port, rests[1..]);
    }
  }

  /** The host an HTTPS redirect sends the client to. */
  function NextHost(host: string, domain: string, port: nat, rest: string): string {
    HostOf(Subdomain(domain, Lower(host + rest)), domain, port)
  }

  /**
   The host settles: after one HTTPS redirect, whatever host it started from, the next one keeps the host or turns it
   into the `www` host, and from then on it never changes, whatever else the requests hold.
   */
  lemma HostSettles(host: string, domain: string, port: nat, rest: string, rest': string, rest'': string)
    requires IsLower(domain)
    ensures var first := NextHost(host, domain, port, rest);
            var second := NextHost(first, domain, port, rest');
            && (second == first || second == HostOf(WWW, domain, port))
            && NextHost(second, domain, port, rest'') == second
  {
    hide Find, Subdomain;
    var sub := Subdomain(domain, Lower(host + rest));
    SubdomainIsLabel(domain, Lower(host + rest));
    SubdomainLower(domain, host + rest);
    HostRoundTrip(sub, domain, port, rest');
    HostIdempotent(sub, domain, port, rest', rest'');
  }

  lemma SubdomainLower(domain: string, v: string)
    ensures Lower(Subdomain(domain, Lower(v))) == Subdomain(domain, Lower(v))
  {
    hide FirstLabel;
    FirstLabelLower(v);
    assert Lower(WWW) == WWW && Lower(Lower(FirstLabel(v))) == Lower(FirstLabel(v));
  }
}
