/**
 The web root: which directory a request is served from (src/fws.c), whether a redirect keeps it, and when the prefix
 test of `file_parse` (src/file.c) keeps what is served inside it.
 */
module WebRoot {
  import opened Bytes
  import opened PercentCode
  import opened CleanUrl
  import opened Redirects
  import opened HostName

  /** `web_root_buf`: the configured root, and in it a directory for the subdomain. */
  function RootOf(conf: string, sub: string): string {
    if sub == "" then conf else conf + ("/" + sub)
  }

  lemma RootInjective(conf: string, a: string, b: string)
    ensures RootOf(conf, a) == RootOf(conf, b) <==> a == b
  {
    var x, y := if a == "" then "" else "/" + a, if b == "" then "" else "/" + b;
    SameTail(conf, x, y);
    assert a != "" ==> x[1..] == a;
    assert b != "" ==> y[1..] == b;
  }

  /**
   The request after a path redirect is served from the same web root exactly when the subdomain is `www` or the domain
   is no prefix of its own rebuilt name.
   */
  lemma RedirectKeepsRoot(conf: string, sub: string, domain: string, port: nat, rest: string)
    requires Label(sub) && IsLower(sub) && IsLower(domain)
    ensures RootOf(conf, Reparsed(sub, domain, port, rest)) == RootOf(conf, sub) <==>
            sub == WWW || !(domain <= sub + "." + domain)
  {
    hide Reparsed, RootOf;
    HostRoundTrip(sub, domain, port, rest);
    RootInjective(conf, Reparsed(sub, domain, port, rest), sub);
  }

  /** A domain that overlaps itself: the subdomain `a` of `a.a` becomes `www` on the way. */
  lemma OverlapChangesRoot(port: nat, rest: string)
    ensures RootOf("/w", Reparsed("a", "a.a", port, rest)) != RootOf("/w", "a")
  {
    hide Reparsed;
    assert Label("a") && Lower("a") == "a" && Lower("a.a") == "a.a";
    assert "a" + "." + "a.a" == "a.a" + ".a";
    RedirectKeepsRoot("/w", "a", "a.a", port, rest);
  }

  // ---------------------------------------------------------------- whole chains, host included

  /** The subdomain a client ends up with that follows redirects; `rests` is what follows the host in each request. */
  function SubAfter(sub: string, domain: string, port: nat, rests: seq<string>): string
    decreases |rests|
  {
    if rests == [] then sub else SubAfter(Reparsed(sub, domain, port, rests[0]), domain, port, rests[1..])
  }

  lemma {:induction false} SubSettles(sub: string, domain: string, port: nat, rests: seq<string>)
    requires Label(sub) && IsLower(sub) && IsLower(domain)
    ensures SubAfter(sub, domain, port, rests) ==
            if rests != [] && domain <= sub + "." + domain then WWW else sub
    decreases |rests|
  {
    hide Reparsed;
    if rests != [] {
      HostRoundTrip(sub, domain, port, rests[0]);
      assert Label(WWW) && Lower(WWW) == WWW;
      SubSettles(Reparsed(sub, domain, port, rests[0]), domain, port, rests[1..]);
    }
  }

  /** The string `stat` sees, with the decoded path cut on its own. */
  lemma RawPathFront(root: string, u: string)
    requires NUL !in root
    ensures RawPath(root, u) == root + "/" + CStr(Decode(u))
  {
    hide Decode, Find;
    var d := Decode(u);
    var s := root + "/" + d;
    FindFirst(d, 0, |d|, NUL);
    var n := Find(d, 0, |d|, NUL);
    assert forall i :: 0 <= i < |s| ==>
             s[i] == if i < |root| then root[i] else if i == |root| then '/' else d[i - |root| - 1];
    FindIs(s, 0, |s|, NUL, |root| + 1 + n);
    assert s[..|root| + 1 + n] == root + "/" + d[..n];
  }

  function Slashes(s: string): nat {
    multiset(s)['/']
  }

  lemma SlashesSum(a: string, b: string)
    ensures Slashes(a + b) == Slashes(a) + Slashes(b)
    ensures '/' !in a <==> Slashes(a) == 0
    ensures Slashes("/") == 1
  {
    assert multiset(a + b) == multiset(a) + multiset(b);
    assert '/' in a <==> '/' in multiset(a);
  }

  lemma PathSlashes(root: string, d: string, t: string)
    requires '/' !in t
    ensures Slashes(root + "/" + d + t) == Slashes(root) + 1 + Slashes(d)
  {
    hide Slashes;
    SlashesSum(root, "/");
    SlashesSum(root + "/", d);
    SlashesSum(root + "/" + d, t);
    SlashesSum(t, "");
  }

  lemma RootSlashes(conf: string, sub: string)
    ensures Slashes(RootOf(conf, sub)) == Slashes(conf) + if sub == "" then 0 else 1 + Slashes(sub)
  {
    hide Slashes;
    SlashesSum(conf, "/" + sub);
    SlashesSum("/", sub);
  }

  /** Path strings under two web roots of one configuration are only ever the same if the roots are. */
  lemma RootsApart(conf: string, sub: string, d: string, w: string, ext: string)
    requires '/' !in w && '/' !in ext
    requires RootOf(conf, sub) + "/" + d + w == RootOf(conf, WWW) + "/" + d + ext
    ensures sub == WWW
  {
    hide Slashes, RootOf;
    PathSlashes(RootOf(conf, sub), d, w);
    PathSlashes(RootOf(conf, WWW), d, ext);
    RootSlashes(conf, sub);
    RootSlashes(conf, WWW);
    SlashesSum(sub, "");
    SlashesSum(WWW, "");
    assert '/' !in WWW;
    BehindConf(conf, sub, d, w);
    BehindConf(conf, WWW, d, ext);
    FirstSlash(sub, d + w, WWW, d + ext);
  }

  lemma BehindConf(conf: string, sub: string, d: string, w: string)
    requires sub != ""
    ensures var p := RootOf(conf, sub) + "/" + d + w;
            |conf| + 1 <= |p| && p[|conf| + 1..] == sub + ("/" + (d + w))
  {
    var p := RootOf(conf, sub) + "/" + d + w;
    assert p == conf + "/" + (sub + ("/" + (d + w)));
    assert p[..|conf| + 1] == conf + "/";
  }

  lemma FirstSlash(a: string, x: string, b: string, y: string)
    requires '/' !in a && '/' !in b && a + ("/" + x) == b + ("/" + y)
    ensures a == b
  {
    var s := a + ("/" + x);
    assert s[|a|] == '/' && s[|b|] == '/';
    assert forall i :: 0 <= i < |a| ==> s[i] == a[i];
    assert forall i :: 0 <= i < |b| ==> s[i] == b[i];
    assert a == s[..|a|] && b == s[..|b|];
  }

  /** Where a client stands on its way: the subdomain and the path of its next request. */
  datatype Stop = Stop(sub: string, uri: string)

  /**
   A client that follows every redirect, each time asking the host it was sent to; `rests` is what follows the host in
   each of its requests.
   */
  function Follow(disk: Disk, conf: string, at: Stop, domain: string, port: nat, rests: seq<string>): Stop
    decreases |rests|
  {
    match Parse(disk, RootOf(conf, at.sub), at.uri)
    case Redirected(to) =>
      if rests == [] then at
      else Follow(disk, conf, Stop(Reparsed(at.sub, domain, port, rests[0]), to), domain, port, rests[1..])
    case _ => at
  }

  lemma {:induction false} FollowEnds(disk: Disk, conf: string, at: Stop, domain: string, port: nat, rests: seq<string>)
    requires HasSlash(at.uri) && |rests| == Hops(at.uri)
    ensures Follow(disk, conf, at, domain, port, rests) ==
            Stop(SubAfter(at.sub, domain, port, rests), Canonical(at.uri))
    decreases |rests|
  {
    hide Parse, RootOf, Reparsed, Clean, Canonical, Hops;
    var root := RootOf(conf, at.sub);
    ParseMoves(disk, root, at.uri);
    if !Clean(at.uri) {
      var next := Stop(Reparsed(at.sub, domain, port, rests[0]), Parse(disk, root, at.uri).to);
      FollowEnds(disk, conf, next, domain, port, rests[1..]);
    }
  }

  /**
   Whole redirect chains, host reparsing included.  A client that asks for an existing file, by a path with its slash
   in front, and follows every redirect ends at a path that is answered with that file exactly when the chain keeps it
   under a fixed root, and the root stays the same: there was no redirect, or the subdomain is `www`, or the domain is
   no prefix of its own rebuilt name.
   */
  lemma WholeChainKeepsIff(disk: Disk, conf: string, sub: string, domain: string, port: nat, rests: seq<string>,
                           u: string)
    requires NUL !in conf && NUL !in sub && Label(sub) && IsLower(sub) && IsLower(domain)
    requires Rooted(u) && |rests| == Hops(u) && RawPath(RootOf(conf, sub), u) in disk.sizes
    ensures var end := Follow(disk, conf, Stop(sub, u), domain, port, rests);
            && !Parse(disk, RootOf(conf, end.sub), end.uri).Redirected?
            && (StandsFor(disk.sizes, RawPath(RootOf(conf, end.sub), end.uri), IsDir(end.uri),
                          RawPath(RootOf(conf, sub), u)) <==>
                && ChainKeeps(disk, RootOf(conf, sub), u)
                && (Hops(u) == 0 || sub == WWW || !(domain <= sub + "." + domain)))
  {
    hide RawPath, Canonical, Redirect, Hops, RootOf, Parse, Follow, LastAsked, StandsFor;
    SubSettles(sub, domain, port, rests);
    FollowEnds(disk, conf, Stop(sub, u), domain, port, rests);
    AskedIsCanonical(disk, RootOf(conf, sub), u);
    var end := SubAfter(sub, domain, port, rests);
    RedirectsEnd(u);
    ParseMoves(disk, RootOf(conf, end), Canonical(u));
    if end != sub {
      OtherRootLoses(disk.sizes, conf, sub, u);
    }
  }

  lemma OtherRootLoses(sizes: map<string, nat>, conf: string, sub: string, u: string)
    requires NUL !in conf && NUL !in sub && HasSlash(u) && sub != WWW
    ensures var c := Canonical(u);
            !StandsFor(sizes, RawPath(RootOf(conf, WWW), c), IsDir(c), RawPath(RootOf(conf, sub), u))
  {
    hide RawPath, Canonical, Redirect, Decode, CStr;
    var c := Canonical(u);
    var root, other := RootOf(conf, sub), RootOf(conf, WWW);
    ChainCuts(u);
    ChainPaths(root, u);
    RawPathFront(root, c);
    RawPathFront(other, c);
    var d := CStr(Decode(c));
    var w := if NUL in Decode(u) then "" else u[|c|..];
    assert RawPath(root, u) == root + "/" + d + w;
    assert RawPath(other, c) == other + "/" + d + "";
    forall ext | ext == "" || ext == HTML_EXT || ext == INDEX_HTML
      ensures RawPath(other, c) + ext != RawPath(root, u)
    {
      if RawPath(other, c) + ext == RawPath(root, u) { RootsApart(conf, sub, d, w, ext); }
    }
    assert RawPath(other, c) + "" == RawPath(other, c);
  }

  // ---------------------------------------------------------------- staying inside

  predicate Inside(root: string, path: string) {
    root + "/" <= path
  }

  /** The root itself, or an entry beside it whose name starts with the root's name. */
  predicate Beside(root: string, path: string) {
    root <= path && (path == root || path[|root|] != '/')
  }

  /** The paths a request line can carry, but for their length. */
  predicate Carried(u: string) {
    ' ' !in u && '?' !in u && NUL !in u
  }

  /** Everything that is served lies inside the web root, whatever is asked for. */
  ghost predicate Contained(disk: Disk, root: string) {
    forall u :: Carried(u) && Parse(disk, root, u).Serve? ==> Inside(root, Parse(disk, root, u).path)
  }

  /** A path string that `stat` and `realpath` accept and that leads to the root itself or beside it. */
  predicate LeadsBeside(disk: Disk, root: string, p: string) {
    p in disk.sizes && p in disk.resolved && |disk.resolved[p]| < PATH_SIZE && Beside(root, disk.resolved[p])
  }

  /** What the server can pass to `stat`. */
  predicate Below(root: string, p: string) {
    root + "/" <= p && NUL !in p
  }

  lemma {:induction false} SentAllSum(a: seq<Token>, b: seq<Token>)
    requires Encodable(a) && Encodable(b)
    ensures Encodable(a + b)
    ensures SentAll(a + b) == SentAll(a) + SentAll(b) && Meant(a + b) == Meant(a) + Meant(b)
    decreases |a|
  {
    hide Sent;
    if a == [] {
      assert a + b == b;
    } else {
      assert (a + b)[1..] == a[1..] + b && (a + b)[0] == a[0];
      SentAllSum(a[1..], b);
      Regroup(Sent(a[0]), SentAll(a[1..]), SentAll(b));
      Regroup([a[0].c], Meant(a[1..]), Meant(b));
    }
  }

  /** `w` with everything escaped that means something in a request line or an escape. */
  function Tokens(w: string): (ts: seq<Token>)
    ensures Encodable(ts)
    ensures forall i :: 0 <= i < |ts| ==> ts[i].Escaped? || ts[i].c !in SPECIAL
    ensures |ts| == |w| && forall i :: 0 <= i < |ts| ==> ts[i].c == w[i]
  {
    if w == "" then []
    else [if w[0] in SPECIAL then Escaped(w[0], false, false) else Plain(w[0])] + Tokens(w[1..])
  }

  const SPECIAL := "% ?\r\n"

  lemma {:induction false} SentCarried(ts: seq<Token>)
    requires Encodable(ts) && forall i :: 0 <= i < |ts| ==> ts[i].Escaped? || (ts[i].c !in SPECIAL && ts[i].c != NUL)
    ensures Carried(SentAll(ts)) && '\r' !in SentAll(ts)
  {
    if ts != [] {
      SentCarried(ts[1..]);
      OneCarried(ts[0]);
    }
  }

  lemma OneCarried(t: Token)
    requires if t.Plain? then t.c !in SPECIAL && t.c != NUL else t.c as int < 256
    ensures Carried(Sent(t)) && '\r' !in Sent(t)
  {
    if t.Plain? {
      assert SPECIAL[1] == ' ' && SPECIAL[2] == '?' && SPECIAL[3] == '\r';
    } else {
      forall v: nat, l: bool | v < 16 ensures HexDigit(v, l) !in " ?\r\0" {
        assert HexValue(HexDigit(v, l)) >= 0;
      }
    }
  }

  lemma {:induction false} TokensMeant(w: string)
    ensures Meant(Tokens(w)) == w
  {
    if w != "" {
      assert Tokens(w)[1..] == Tokens(w[1..]);
      TokensMeant(w[1..]);
    }
  }

  /** A URL that makes `stat` look at `root/w`: the escaped NUL ends the string and keeps every redirect away. */
  function UrlFor(w: string): string {
    SentAll(Tokens(w)) + "%00/0"
  }

  lemma UrlDecodes(w: string)
    ensures Decode(UrlFor(w)) == w + ([NUL] + "/0")
  {
    hide SentAll, Meant, Decode;
    var back := [Escaped(NUL, false, false), Plain('/'), Plain('0')];
    SentAllSum(Tokens(w), back);
    TokensMeant(w);
    BackTokens();
    DecodeEncoded(Tokens(w) + back);
  }

  lemma BackTokens()
    ensures var back := [Escaped(NUL, false, false), Plain('/'), Plain('0')];
            Encodable(back) && SentAll(back) == "%00/0" && Meant(back) == [NUL] + "/0"
  {
    hide SentAll, Meant;
    var a, b := [Escaped(NUL, false, false)], [Plain('/'), Plain('0')];
    OneToken();
    TwoTokens();
    assert a + b == [Escaped(NUL, false, false), Plain('/'), Plain('0')];
    SentAllSum(a, b);
  }

  lemma TwoTokens()
    ensures var b := [Plain('/'), Plain('0')];
            Encodable(b) && SentAll(b) == "/0" && Meant(b) == "/0"
  {
    var b := [Plain('/'), Plain('0')];
    assert b[1..] == [Plain('0')] && [Plain('0')][1..] == [];
    assert SentAll([Plain('0')]) == "0" + "" && Meant([Plain('0')]) == "0" + "";
    assert SentAll(b) == "/" + "0" && Meant(b) == "/" + "0";
  }

  lemma OneToken()
    ensures var e := Escaped(NUL, false, false);
            Encodable([e]) && SentAll([e]) == "%00" && Meant([e]) == [NUL]
  {
    var e := Escaped(NUL, false, false);
    assert Sent(e) == "%00" && [e][1..] == [];
    assert SentAll([e]) == "%00" + "" && Meant([e]) == [NUL] + "";
  }

  lemma UrlReaches(root: string, w: string)
    requires NUL !in root && NUL !in w
    ensures Carried(UrlFor(w)) && '\r' !in UrlFor(w)
    ensures Redirect(UrlFor(w)) == Direct && RawPath(root, UrlFor(w)) == root + "/" + w
  {
    hide Decode, SentAll, LastSlash;
    SentCarried(Tokens(w));
    var u := UrlFor(w);
    assert u[|u| - 1] == '0' && u[|u| - 2] == '/';
    LastSlashIs(u, |u| - 2);
    assert LastSegment(u) == "0";
    if EndsWith(u, HTML_EXT) { EndsInL(u); }
    UrlDecodes(w);
    assert root + "/" + (w + ([NUL] + "/0")) == root + "/" + w + [NUL] + "/0";
    assert NUL !in root + "/" + w;
    CStrOf(root + "/" + w, "/0");
  }

  /** A URL only ever makes `stat` look below the root, as far as the string goes. */
  lemma RawPathBelow(root: string, u: string)
    requires NUL !in root
    ensures Below(root, RawPath(root, u))
  {
    hide Decode, Find;
    var s := root + "/" + Decode(u);
    FindFirst(s, 0, |s|, NUL);
    assert forall i :: 0 <= i < |root| ==> s[i] == root[i];
    assert s[|root|] == '/' && s[..|root| + 1] == root + "/";
    assert Find(s, 0, |s|, NUL) >= |root| + 1;
  }

  /** The path string a served file was found under. */
  lemma ServedBy(disk: Disk, root: string, u: string) returns (p: string)
    requires NUL !in root && Parse(disk, root, u).Serve?
    ensures Below(root, p) && p in disk.sizes && p in disk.resolved
    ensures Parse(disk, root, u).path == disk.resolved[p] && |disk.resolved[p]| < PATH_SIZE && root <= disk.resolved[p]
  {
    hide RawPath, Redirect;
    var raw := RawPath(root, u);
    RawPathBelow(root, u);
    p := Choose(disk.sizes, raw, Redirect(u).Directory?).path;
  }

  /**
   The prefix test compares no separator, so it admits the root itself and its siblings.  Everything served lies inside
   the web root, for every URL, exactly when no path string below the root leads to one of those.
   */
  lemma ContainedIff(disk: Disk, root: string)
    requires NUL !in root
    ensures Contained(disk, root) <==> forall p :: Below(root, p) ==> !LeadsBeside(disk, root, p)
  {
    hide Parse, Below;
    if Contained(disk, root) {
      forall p | Below(root, p) ensures !LeadsBeside(disk, root, p) {
        if LeadsBeside(disk, root, p) {
          var u := BesideServed(disk, root, p);
          assert false;
        }
      }
    }
    if forall p :: Below(root, p) ==> !LeadsBeside(disk, root, p) {
      forall u | Carried(u) && Parse(disk, root, u).Serve? ensures Inside(root, Parse(disk, root, u).path) {
        var p := ServedBy(disk, root, u);
        assert !LeadsBeside(disk, root, p);
      }
    }
  }

  lemma BesideServed(disk: Disk, root: string, p: string) returns (u: string)
    requires NUL !in root && Below(root, p) && LeadsBeside(disk, root, p)
    ensures Carried(u) && Parse(disk, root, u).Serve? && !Inside(root, Parse(disk, root, u).path)
  {
    hide RawPath, Redirect, UrlFor;
    var w := p[|root| + 1..];
    assert p == root + "/" + w;
    u := UrlFor(w);
    UrlReaches(root, w);
  }

  /** A sibling that is served: `/w2/s`, for the root `/w` and the path `/../w2/s`. */
  lemma SiblingServed()
    ensures var disk := Disk(map["/w//../w2/s" := 1], map["/w//../w2/s" := "/w2/s"]);
            && Parse(disk, "/w", "/../w2/s") == Serve("/w2/s", 1)
            && !Inside("/w", "/w2/s") && !Contained(disk, "/w")
  {
    hide RawPath, Redirect;
    var u, p := "/../w2/s", "/w//../w2/s";
    var disk := Disk(map[p := 1], map[p := "/w2/s"]);
    SiblingAsked();
    assert disk.sizes[p] == 1 && disk.resolved[p] == "/w2/s";
    assert "/w2/s"[..2] == "/w" && "/w2/s"[2] == '2';
    assert Parse(disk, "/w", u) == Serve("/w2/s", 1);
  }

  lemma SiblingAsked()
    ensures Redirect("/../w2/s") == Direct && RawPath("/w", "/../w2/s") == "/w//../w2/s"
  {
    hide Decode, LastSlash;
    var u := "/../w2/s";
    NoPercent(u);
    RawPathOf("/w", u);
    assert "/w" + "/" + u == "/w//../w2/s";
    LastSlashIs(u, 6);
    assert LastSegment(u) == "s";
    if EndsWith(u, HTML_EXT) { EndsInL(u); }
  }

  /** The same without a leading slash: `GET ../w2/s`. */
  lemma UnrootedSiblingServed()
    ensures var disk := Disk(map["/w/../w2/s" := 1], map["/w/../w2/s" := "/w2/s"]);
            Parse(disk, "/w", "../w2/s") == Serve("/w2/s", 1) && !Contained(disk, "/w")
  {
    hide RawPath, Redirect;
    var u, p := "../w2/s", "/w/../w2/s";
    var disk := Disk(map[p := 1], map[p := "/w2/s"]);
    UnrootedSiblingAsked();
    assert disk.sizes[p] == 1 && disk.resolved[p] == "/w2/s";
    assert "/w2/s"[..2] == "/w" && "/w2/s"[2] == '2';
    assert Parse(disk, "/w", u) == Serve("/w2/s", 1);
  }

  lemma UnrootedSiblingAsked()
    ensures Redirect("../w2/s") == Direct && RawPath("/w", "../w2/s") == "/w/../w2/s"
  {
    hide Decode, LastSlash;
    var u := "../w2/s";
    NoPercent(u);
    RawPathOf("/w", u);
    assert "/w" + "/" + u == "/w/../w2/s";
    LastSlashIs(u, 5);
    assert LastSegment(u) == "s";
    if EndsWith(u, HTML_EXT) { EndsInL(u); }
  }
}
