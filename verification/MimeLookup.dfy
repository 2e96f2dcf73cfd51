/**
 The query side of the MIME table (`net_http_res_build`, src/net_http.c): take the extension of the served path
 and scan the compact string for it.  The last theorem closes the loop with the compiler: what the scan of the
 compiled block answers is the first entry of the configured table that lists the extension.
 */
module MimeLookup {
  import opened Bytes
  import opened MimeTable
  import opened MimeSyntax

  /** `sizeof(ext_buf)` and `sizeof(http_res->content)`. */
  const EXT_SIZE: nat := 32
  const CONTENT_SIZE: nat := 64

  datatype Answer = Found(typ: string) | Default | Bad
  datatype ListAnswer = Hit | Miss | Broken

  // ---------------------------------------------------------------- what the scan does on any string

  /** The inner scan; `end` is one past the closing bracket. */
  function ScanList(m: string, p: nat, end: nat, key: string): ListAnswer
    requires p <= end <= |m|
    decreases end - p
  {
    if p == end then Miss
    else
      var comma := Find(m, p, end, ',');
      var c := if comma == end then Find(m, p, end, ']') else comma;
      if c == end || c - p >= EXT_SIZE then Broken
      else if m[p..c] == key then Hit
      else if c + 1 < |m| && m[c + 1] == ']' then Miss
      else ScanList(m, c + 1, end, key)
  }

  function ScanTable(m: string, p: nat, key: string): Answer
    requires p <= |m|
    decreases |m| - p
  {
    if p == |m| then Default
    else
      var b := Find(m, p, |m|, '[');
      if b == |m| then Bad
      else
        var x := Find(m, b, |m|, ']');
        if x == |m| then Bad
        else
          match ScanList(m, b + 1, x + 1, key)
          case Broken => Bad
          case Hit => if b - p >= CONTENT_SIZE then Bad else Found(m[p..b])
          case Miss => ScanTable(m, x + 1, key)
  }

  /** The text behind the last dot of the path, or the whole path when it has none. */
  ghost predicate IsExtension(path: string, ext: string) {
    && '.' !in ext
    && (ext == path || exists i :: 0 <= i < |path| && path[i] == '.' && path[i + 1..] == ext)
  }

  function LastDot(s: string): (r: int)
    ensures -1 <= r < |s| && (r >= 0 ==> s[r] == '.')
    ensures forall i :: r < i < |s| ==> s[i] != '.'
  {
    if s == "" then -1 else if s[|s| - 1] == '.' then |s| - 1 else LastDot(s[..|s| - 1])
  }

  function Extension(path: string): (ext: string)
    ensures IsExtension(path, ext)
  {
    path[LastDot(path) + 1..]
  }

  lemma ExtensionUnique(path: string, ext: string)
    requires IsExtension(path, ext)
    ensures ext == Extension(path)
  {
    hide LastDot;
    var d := LastDot(path);
    if ext != path {
      var i :| 0 <= i < |path| && path[i] == '.' && path[i + 1..] == ext;
      assert forall k :: i < k < |path| ==> path[k] == ext[k - i - 1] != '.';
      assert i == d;
    }
  }

  /** First loop of the lookup: step over every dot. */
  method ExtensionOf(path: string) returns (ext: string)
    ensures ext == Extension(path)
  {
    hide LastDot;
    var p1, n := 0, |path|;
    while true
      invariant 0 <= p1 <= |path| && n == |path| - p1
      invariant p1 == 0 || path[p1 - 1] == '.'
      decreases n
    {
      var p2 := Find(path, p1, p1 + n, '.');
      FindFirst(path, p1, p1 + n, '.');
      if p2 == p1 + n { break; }
      n := n - (p2 - p1 + 1);
      p1 := p2 + 1;
    }
    ext := path[p1..];
    assert p1 > 0 ==> path[p1 - 1] == '.' && path[p1 - 1 + 1..] == ext;
    ExtensionUnique(path, ext);
  }

  method ScanListLoop(m: string, start: nat, extN0: nat, key: string) returns (r: ListAnswer)
    requires start + extN0 <= |m|
    ensures r == ScanList(m, start, start + extN0, key)
  {
    hide Find;
    var pExtStart: nat, extN: int := start, extN0;
    ghost var end := start + extN0;
    while extN > 0
      invariant 0 <= extN && pExtStart + extN == end
      invariant ScanList(m, pExtStart, end, key) == ScanList(m, start, end, key)
      decreases extN
    {
      var pExtEnd := Find(m, pExtStart, pExtStart + extN, ',');
      if pExtEnd == pExtStart + extN {
        pExtEnd := Find(m, pExtStart, pExtStart + extN, ']');
        if pExtEnd == pExtStart + extN { return Broken; }
      }
      var extLen := pExtEnd - pExtStart;
      if extLen >= EXT_SIZE { return Broken; }
      if m[pExtStart..pExtEnd] == key { return Hit; }
      pExtStart := pExtStart + extLen + 1;
      extN := extN - (extLen + 1);
      if pExtStart < |m| && m[pExtStart] == ']' { return Miss; }
    }
    r := Miss;
  }

  /** The lookup loops of `net_http_res_build` over the C string in `conf->mime`. */
  method LookupType(m: string, path: string) returns (r: Answer, ext: string)
    ensures ext == Extension(path) && r == ScanTable(m, 0, ext)
  {
    hide Find, ScanList, Extension;
    var key := ExtensionOf(path);
    ext := key;
    var pStart: nat, mimeN: int := 0, |m|;
    while mimeN > 0
      invariant 0 <= mimeN && pStart + mimeN == |m|
      invariant ScanTable(m, pStart, key) == ScanTable(m, 0, key)
      decreases mimeN
    {
      var pExtStart := Find(m, pStart, pStart + mimeN, '[');
      if pExtStart == |m| { return Bad, key; }
      var mimeLen := pExtStart - pStart;
      var pExtEnd := Find(m, pExtStart, pExtStart + (mimeN - mimeLen), ']');
      if pExtEnd == |m| { return Bad, key; }
      var extN := pExtEnd - pExtStart;
      var mimeNextOff := pExtEnd + 1 - pStart;
      var hit := ScanListLoop(m, pExtStart + 1, extN, key);
      if hit.Broken? { return Bad, key; }
      if hit.Hit? {
        if mimeLen >= CONTENT_SIZE { return Bad, key; }
        return Found(m[pStart..pStart + mimeLen]), key;
      }
      pStart := pStart + mimeNextOff;
      mimeN := mimeN - mimeNextOff;
    }
    r := Default;
  }

  // ---------------------------------------------------------------- what the table says

  /** First extension of one entry that is the key, or is too long for the code's buffer. */
  function MatchList(exts: seq<Ext>, key: string): ListAnswer {
    if exts == [] then Miss
    else if |exts[0].name| >= EXT_SIZE then Broken
    else if exts[0].name == key then Hit
    else MatchList(exts[1..], key)
  }

  /** First entry of the configured table that lists the key. */
  function FirstMatch(es: seq<Entry>, key: string): Answer {
    if es == [] then Default
    else
      match MatchList(es[0].exts, key)
      case Broken => Bad
      case Hit => if |es[0].typ| >= CONTENT_SIZE then Bad else Found(es[0].typ)
      case Miss => FirstMatch(es[1..], key)
  }

  predicate Lists(e: Entry, key: string) {
    exists j :: 0 <= j < |e.exts| && e.exts[j].name == key
  }

  /** A name too long for the buffer comes up before the key does. */
  predicate Breaks(e: Entry, key: string) {
    exists j :: 0 <= j < |e.exts| && |e.exts[j].name| >= EXT_SIZE && forall k :: 0 <= k < j ==> e.exts[k].name != key
  }

  predicate Passes(e: Entry, key: string) {
    !Breaks(e, key) && !Lists(e, key)
  }

  lemma {:induction false} MatchListMeans(e: Entry, key: string)
    ensures MatchList(e.exts, key) == if Breaks(e, key) then Broken else if Lists(e, key) then Hit else Miss
    decreases |e.exts|
  {
    var exts := e.exts;
    if exts != [] {
      var rest := e.(exts := exts[1..]);
      MatchListMeans(rest, key);
      if |exts[0].name| < EXT_SIZE && exts[0].name != key {
        assert forall j :: 1 <= j < |exts| ==> exts[j] == rest.exts[j - 1];
        if Breaks(rest, key) { BreaksBehind(e, key); }
      }
    }
  }

  lemma BreaksBehind(e: Entry, key: string)
    requires e.exts != [] && e.exts[0].name != key && Breaks(e.(exts := e.exts[1..]), key)
    ensures Breaks(e, key)
  {
    var rest := e.exts[1..];
    var j :| 0 <= j < |rest| && |rest[j].name| >= EXT_SIZE && forall k :: 0 <= k < j ==> rest[k].name != key;
    assert forall k :: 1 <= k <= j + 1 ==> e.exts[k] == rest[k - 1];
  }

  /**
   The first entry in which the key, or in front of it a name too long for its buffer, comes up decides: the answer is
   its type if the key came first and the type fits, and an error otherwise.  Without such an entry it is the default.
   */
  lemma {:induction false} FirstMatchMeans(es: seq<Entry>, key: string)
    ensures FirstMatch(es, key) == Default <==> forall i :: 0 <= i < |es| ==> Passes(es[i], key)
    ensures forall i :: 0 <= i < |es| && !Passes(es[i], key) && (forall h :: 0 <= h < i ==> Passes(es[h], key)) ==>
              FirstMatch(es, key) ==
              if Breaks(es[i], key) || |es[i].typ| >= CONTENT_SIZE then Bad else Found(es[i].typ)
  {
    hide MatchList, Breaks, Lists;
    if es != [] {
      var rest := es[1..];
      MatchListMeans(es[0], key);
      FirstMatchMeans(rest, key);
      assert forall i :: 1 <= i < |es| ==> es[i] == rest[i - 1];
      if Passes(es[0], key) {
        forall i | 0 <= i < |es| && !Passes(es[i], key) && (forall h :: 0 <= h < i ==> Passes(es[h], key))
          ensures FirstMatch(es, key) ==
                  if Breaks(es[i], key) || |es[i].typ| >= CONTENT_SIZE then Bad else Found(es[i].typ)
        {
          assert forall h :: 0 <= h < i - 1 ==> rest[h] == es[h + 1];
          assert !Passes(rest[i - 1], key);
        }
      }
    }
  }

  // ---------------------------------------------------------------- scan of the compact table == first match

  /** Facts about the first name of a compact list, read off the text. */
  lemma NameAt(m: string, p: nat, end: nat, e: Ext, c: char, rest: string)
    requires p <= end <= |m| && ExtOk(e) && m[p..end] == e.name + ([c] + rest)
    ensures p + |e.name| < end && m[p + |e.name|] == c && m[p..p + |e.name|] == e.name
    ensures m[p + |e.name| + 1..end] == rest
    ensures forall i :: p <= i < p + |e.name| ==> m[i] != ',' && m[i] != ']'
  {
    SplitAt(m, p, end, e.name, c, rest);
    SliceFree(m, p, p + |e.name|, e.name, ',');
    SliceFree(m, p, p + |e.name|, e.name, ']');
  }

  lemma ListLast(m: string, p: nat, end: nat, e: Ext, key: string)
    requires p <= end <= |m| && ExtOk(e) && m[p..end] == e.name + "]"
    ensures ScanList(m, p, end, key) == MatchList([e], key)
  {
    hide Find, ExtOk;
    assert e.name + "]" == e.name + ("]" + "");
    NameAt(m, p, end, e, ']', "");
    var c := p + |e.name|;
    assert end == c + 1;
    FindIs(m, p, end, ',', end);
    FindIs(m, p, end, ']', c);
    assert MatchList([e][1..], key) == Miss;
    assert ScanList(m, end, end, key) == Miss;
  }

  lemma ListNext(m: string, p: nat, end: nat, e: Ext, rest: string, key: string)
    requires p <= end <= |m| && ExtOk(e) && m[p..end] == e.name + ("," + rest)
    requires rest != "" && rest[0] != ']'
    ensures p + |e.name| + 1 <= end && m[p + |e.name| + 1..end] == rest
    ensures ScanList(m, p, end, key) ==
            if |e.name| >= EXT_SIZE then Broken else if e.name == key then Hit
            else ScanList(m, p + |e.name| + 1, end, key)
  {
    hide Find, ExtOk;
    NameAt(m, p, end, e, ',', rest);
    var c := p + |e.name|;
    FindIs(m, p, end, ',', c);
    assert |m[c + 1..end]| == |rest|;
    assert m[c + 1] == m[c + 1..end][0];
  }

  lemma {:induction false} ListScan(m: string, p: nat, end: nat, exts: seq<Ext>, key: string)
    requires p <= end <= |m| && exts != [] && m[p..end] == Names(exts) + "]"
    requires forall i :: 0 <= i < |exts| ==> ExtOk(exts[i])
    ensures ScanList(m, p, end, key) == MatchList(exts, key)
    decreases |exts|
  {
    hide Find, ScanList;
    if |exts| == 1 {
      assert exts == [exts[0]];
      ListLast(m, p, end, exts[0], key);
    } else {
      var rest := Names(exts[1..]) + "]";
      assert Names(exts) + "]" == exts[0].name + ("," + rest);
      FirstNameChar(exts[1..]);
      ListNext(m, p, end, exts[0], rest, key);
      ListScan(m, p + |exts[0].name| + 1, end, exts[1..], key);
    }
  }

  lemma FirstNameChar(exts: seq<Ext>)
    requires exts != [] && ExtOk(exts[0])
    ensures (Names(exts) + "]")[0] != ']'
  {
    assert Names(exts)[0] == exts[0].name[0];
    assert exts[0].name[0] !in "\",]}\0";
  }

  lemma {:induction false} NamesWithout(exts: seq<Ext>)
    requires forall i :: 0 <= i < |exts| ==> ExtOk(exts[i])
    ensures Without(Names(exts), "]")
  {
    if |exts| > 1 { NamesWithout(exts[1..]); }
  }

  /** The brackets of the first compact entry are the ones the scan finds. */
  lemma EntryBrackets(m: string, p: nat, e: Entry, rest: string)
    requires p <= |m| && EntryOk(e) && m[p..] == CompactEntry(e) + rest
    ensures var b := p + |e.typ|; var x := b + 1 + |Names(e.exts)|;
            && x < |m| && Find(m, p, |m|, '[') == b && Find(m, b, |m|, ']') == x
            && m[p..b] == e.typ && m[b + 1..x + 1] == Names(e.exts) + "]" && m[x + 1..] == rest
  {
    hide Find, Names, ExtOk;
    var n := Names(e.exts);
    assert m[p..] == m[p..|m|];
    Split(m, p, |m|, CompactEntry(e), rest);
    var x := |m| - |rest| - 1;
    SplitAt(m, p, x + 1, e.typ, '[', n + "]");
    var b := p + |e.typ|;
    Split(m, b + 1, x + 1, n, "]");
    assert m[x] == m[x..x + 1][0];
    NamesWithout(e.exts);
    SliceFree(m, p, b, e.typ, '[');
    SliceFree(m, b + 1, x, n, ']');
    FindIs(m, p, |m|, '[', b);
    FindIs(m, b, |m|, ']', x);
  }

  lemma {:induction false} TableScan(m: string, p: nat, es: seq<Entry>, key: string)
    requires p <= |m| && m[p..] == Compact(es) && EntriesOk(es)
    ensures ScanTable(m, p, key) == FirstMatch(es, key)
    decreases |es|
  {
    hide Find, ScanList, CompactEntry, Names, ExtOk;
    if es != [] {
      EntryBrackets(m, p, es[0], Compact(es[1..]));
      var b := p + |es[0].typ|;
      var x := b + 1 + |Names(es[0].exts)|;
      ListScan(m, b + 1, x + 1, es[0].exts, key);
      TableScan(m, x + 1, es[1..], key);
    }
  }

  /** Scanning a compact table answers exactly what the table says, error cases included. */
  lemma LookupCompact(es: seq<Entry>, key: string)
    requires EntriesOk(es)
    ensures ScanTable(Compact(es), 0, key) == FirstMatch(es, key)
  {
    assert Compact(es)[0..] == Compact(es);
    TableScan(Compact(es), 0, es, key);
  }

  /**
   Compile-then-query: for every layout of every well-formed block that fits and whose drifted window is clean,
   looking an extension up in the compiled string gives the first entry of the block that lists it.
   */
  lemma CompileThenLookup(buf: string, base: nat, close: nat, es: seq<Entry>, trail: string, before: char, key: string)
    requires BlockAt(buf, base, close, es, trail) && close - base < MIME_SIZE
    requires if es == [] then trail == "" || before == ']' else WindowClean(buf, close, |es|)
    ensures Compile(buf, base, before).ok
    ensures ScanTable(Compile(buf, base, before).out, 0, key) == FirstMatch(es, key)
  {
    hide Compile, ScanTable, Compact;
    CompileIff(buf, base, close, es, trail, before);
    LookupCompact(es, key);
  }

  lemma {:induction false} CompactNoNul(es: seq<Entry>)
    requires EntriesOk(es)
    ensures NUL !in Compact(es)
  {
    if es != [] {
      NamesNoNul(es[0].exts);
      CompactNoNul(es[1..]);
    }
  }

  lemma {:induction false} NamesNoNul(exts: seq<Ext>)
    requires forall i :: 0 <= i < |exts| ==> ExtOk(exts[i])
    ensures NUL !in Names(exts)
  {
    if |exts| > 1 { NamesNoNul(exts[1..]); }
  }

  /** The same theorem run on the real buffers: parse the block into `conf->mime`, then serve a path. */
  method ConfiguredType(buf: string, base: nat, before: char, mime: array<char>, path: string,
                        ghost close: nat, ghost es: seq<Entry>, ghost trail: string)
    returns (ret: int, r: Answer, ext: string)
    requires BlockAt(buf, base, close, es, trail) && close - base < MIME_SIZE
    requires if es == [] then trail == "" || before == ']' else WindowClean(buf, close, |es|)
    requires mime.Length == MIME_SIZE && mime[0] == NUL
    modifies mime
    ensures ret == 0 && ext == Extension(path) && r == FirstMatch(es, ext)
  {
    hide Extension, Compile, ScanTable, Compact, Find, WindowClean, EntryOk;
    CompileIff(buf, base, close, es, trail, before);
    ret := TypeMimeParse(buf, base, before, mime);
    assert EntriesOk(es);
    CompactNoNul(es);
    ghost var out := Compact(es);
    assert mime[..] == out + [NUL] + mime[|out| + 1..];
    CStrOf(out, mime[|out| + 1..]);
    r, ext := LookupType(CStr(mime[..]), path);
    LookupCompact(es, ext);
  }
}
