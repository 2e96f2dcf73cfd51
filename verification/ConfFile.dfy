/**
 The configuration scanner (`_conf_parse` and the value parsers, src/file_conf.c).  The method keeps a cursor and a
 byte count in step over the whole file; what it computes is a fold over the lines of the file.
 */
module ConfFile {
  import opened Bytes
  import opened MimeTable

  datatype Kind = U32 | U16 | Bool | Char | Ports | Mime

  /** One row of the key table: the member's type and size. */
  datatype Lookup = Lookup(key: string, kind: Kind, size: nat)

  const LOOKUP: seq<Lookup> := [
    Lookup("HTTP_PORT", U16, 2), Lookup("HTTPS_PORT", U16, 2), Lookup("ALLOW_PORTS", Ports, 128),
    Lookup("NFT", Bool, 1), Lookup("LIM_SWAP_TIME", U32, 4), Lookup("LIM_PAGE", U32, 4), Lookup("LIM_RES", U32, 4),
    Lookup("PPS_LIMIT", U32, 4), Lookup("PPS_BURST", U32, 4), Lookup("BAN_LIM", U32, 4), Lookup("BAN_TIME", U32, 4),
    Lookup("DOMAIN", Char, 128), Lookup("WEB_ROOT", Char, 128), Lookup("WEB_LOG", Char, 128),
    Lookup("SSL_CERT", Char, 128), Lookup("SSL_KEY", Char, 128), Lookup("KERNEL_TLS", Bool, 1),
    Lookup("CACHE_MAX_AGE", U32, 4), Lookup("HSTS", Bool, 1), Lookup("HSTS_MAX_AGE", U32, 4),
    Lookup("MIME", Mime, 1024), Lookup("MIME_DEFAULT", Char, 128)]

  const KEY_MAX: nat := 16

  /** A member's value after a line was read. */
  datatype Value = Number(n: int) | Flag(b: bool) | Text(s: string)

  /** Outcome of a value parser: an error, nothing written, or a new value. */
  datatype Parsed = Rejected | Unchanged | Written(v: Value)

  type Conf = map<string, Value>

  /** `_type_ap_parse` is not modelled; whatever it does is a function of the text it is given. */
  type PortsParser = (string, nat) -> Parsed

  // ---------------------------------------------------------------- value parsers

  predicate IsSpace(c: char) {
    c == ' ' || (0x09 <= c as int <= 0x0d)
  }

  function SkipSpace(buf: string, p: nat): (r: nat)
    requires p <= |buf|
    ensures p <= r <= |buf|
    decreases |buf| - p
  {
    if p < |buf| && IsSpace(buf[p]) then SkipSpace(buf, p + 1) else p
  }

  function DigitRun(buf: string, p: nat, acc: nat): nat
    requires p <= |buf|
    decreases |buf| - p
  {
    if p < |buf| && IsDigit(buf[p]) then DigitRun(buf, p + 1, 10 * acc + (buf[p] as int - '0' as int)) else acc
  }

  const LONG_MAX: int := 0x7fff_ffff_ffff_ffff

  /** `strtol(buf + p, nullptr, 10)`: white space, an optional sign, digits, saturating at 64 bits. */
  function Strtol(buf: string, p: nat): int
    requires p <= |buf|
  {
    var q := SkipSpace(buf, p);
    var neg := CharAt(buf, q) == '-';
    var start := if q < |buf| && (buf[q] == '-' || buf[q] == '+') then q + 1 else q;
    var n: int := DigitRun(buf, start, 0);
    if neg then (if n > LONG_MAX then -LONG_MAX - 1 else -n) else if n > LONG_MAX then LONG_MAX else n
  }

  function ParseFlag(buf: string, p: nat, word: string, b: bool): Parsed {
    var c := CharAt(buf, p + |word|);
    if c == ' ' || c == '\n' then Written(Flag(b)) else Rejected
  }

  function ParseValue(look: Lookup, buf: string, p: nat, ap: PortsParser): Parsed
    requires p < |buf|
  {
    match look.kind
    case U32 => Written(Number(Strtol(buf, p) % 0x1_0000_0000))
    case U16 => var n := Strtol(buf, p); if n < 0 || n >= 65536 then Rejected else Written(Number(n))
    case Bool =>
      if MatchAt(buf, p, "true") then ParseFlag(buf, p, "true", true)
      else if MatchAt(buf, p, "false") then ParseFlag(buf, p, "false", false)
      else Rejected
    case Char =>
      if buf[p] != '"' || look.size == 0 then Rejected
      else
        var hi := Clip(buf, p + 1 + (look.size - 1));
        var q := Find(buf, p + 1, hi, '"');
        if q == hi then Rejected else Written(Text(buf[p + 1..q]))
    case Ports => ap(buf, p)
    case Mime =>
      var c := Compile(buf, p, NUL);
      if !c.ok then Rejected else if c.out == "" then Unchanged else Written(Text(c.out))
  }

  // ---------------------------------------------------------------- lines

  function IndexOfKey(k: string, i: nat): (r: nat)
    requires i <= |LOOKUP|
    ensures i <= r <= |LOOKUP|
    decreases |LOOKUP| - i
  {
    if i == |LOOKUP| || LOOKUP[i].key == k then i else IndexOfKey(k, i + 1)
  }

  /** The key of a line: its text up to the first space, if that is a known key. */
  function LineKey(line: string): (r: nat)
    ensures r <= |LOOKUP|
  {
    var i := Find(line, 0, |line|, ' ');
    if i == |line| then |LOOKUP| else IndexOfKey(line[..i], 0)
  }

  /** The buffer `file_conf_read` builds: the file, a newline, a NUL. */
  ghost predicate IsConf(buf: string, len: nat) {
    0 < len && |buf| == len + 1 && buf[len - 1] == '\n' && buf[len] == NUL
  }

  function LineEnd(buf: string, len: nat, p: nat): (r: nat)
    requires p <= len <= |buf|
    ensures p <= r <= len
  {
    Find(buf, p, len, '\n')
  }

  /** What one line does to the configuration. */
  datatype Effect = Nothing | Fails | Sets(key: string, v: Value)

  function EffectAt(buf: string, len: nat, p: nat, ap: PortsParser): Effect
    requires p < len < |buf|
  {
    var line := buf[p..LineEnd(buf, len, p)];
    if line == "" || line[0] == '#' then Nothing
    else
      var k := LineKey(line);
      if k == |LOOKUP| then Nothing
      else
        var q := SkipBlanks(buf, Min(p + |LOOKUP[k].key|, |buf|));
        if q == |buf| then Nothing
        else
          match ParseValue(LOOKUP[k], buf, q, ap)
          case Rejected => Fails
          case Unchanged => Nothing
          case Written(v) => Sets(LOOKUP[k].key, v)
  }

  datatype Folded = Error | Done(conf: Conf)

  /** Every line in turn, until one is rejected. */
  function Fold(buf: string, len: nat, p: nat, conf: Conf, ap: PortsParser): Folded
    requires len < |buf|
    decreases if p < len then len - p else 0
  {
    if p >= len then Done(conf)
    else
      match EffectAt(buf, len, p, ap)
      case Fails => Error
      case Nothing => Fold(buf, len, LineEnd(buf, len, p) + 1, conf, ap)
      case Sets(key, v) => Fold(buf, len, LineEnd(buf, len, p) + 1, conf[key := v], ap)
  }

  // ---------------------------------------------------------------- the scanner

  predicate IsWord(s: string) {
    forall i :: 0 <= i < |s| ==> 'A' <= s[i] <= 'Z' || s[i] == '_'
  }

  predicate ShortWord(s: string) {
    IsWord(s) && 0 < |s| < KEY_MAX
  }

  lemma KeysLow()
    ensures forall i :: 0 <= i < 8 ==> ShortWord(LOOKUP[i].key)
  {
  }

  lemma KeysMiddle()
    ensures forall i :: 8 <= i < 16 ==> ShortWord(LOOKUP[i].key)
  {
  }

  lemma KeysHigh()
    ensures forall i :: 16 <= i < |LOOKUP| ==> ShortWord(LOOKUP[i].key)
  {
  }

  /** The keys are short words; in particular none holds a space, a newline or a hash. */
  lemma KeysAreWords()
    ensures forall i :: 0 <= i < |LOOKUP| ==> ShortWord(LOOKUP[i].key)
  {
    hide ShortWord;
    KeysLow();
    KeysMiddle();
    KeysHigh();
  }

  /** The code's probe: the first space within 16 bytes, wherever that is. */
  function ProbeKey(buf: string, p: nat): (r: nat)
    requires p <= |buf|
    ensures r <= |LOOKUP|
  {
    var hi := Clip(buf, p + KEY_MAX);
    var e := Find(buf, p, hi, ' ');
    if e == hi then |LOOKUP| else IndexOfKey(buf[p..e], 0)
  }

  lemma {:induction false} IndexOfKeyIs(k: string, i: nat)
    requires i <= |LOOKUP|
    ensures IndexOfKey(k, i) < |LOOKUP| ==> LOOKUP[IndexOfKey(k, i)].key == k
    ensures IndexOfKey(k, i) == |LOOKUP| <==> forall j :: i <= j < |LOOKUP| ==> LOOKUP[j].key != k
    decreases |LOOKUP| - i
  {
    hide LOOKUP;
    if i < |LOOKUP| && LOOKUP[i].key != k { IndexOfKeyIs(k, i + 1); }
  }

  lemma {:induction false} IndexOfKeyFirst(k: string, i: nat, r: nat)
    requires i <= r < |LOOKUP| && LOOKUP[r].key == k && forall j :: i <= j < r ==> LOOKUP[j].key != k
    ensures IndexOfKey(k, i) == r
    decreases r - i
  {
    hide LOOKUP;
    if i < r { IndexOfKeyFirst(k, i + 1, r); }
  }

  lemma NotAWord(k: string)
    requires !IsWord(k) || |k| >= KEY_MAX
    ensures IndexOfKey(k, 0) == |LOOKUP|
  {
    hide LOOKUP, IndexOfKey, IsWord;
    KeysAreWords();
    IndexOfKeyIs(k, 0);
  }

  lemma LineEndShape(buf: string, len: nat, p: nat)
    requires IsConf(buf, len) && p < len
    ensures LineEnd(buf, len, p) < len && buf[LineEnd(buf, len, p)] == '\n'
    ensures forall i :: p <= i < LineEnd(buf, len, p) ==> buf[i] != '\n'
  {
    hide Find;
    FindFirst(buf, p, len, '\n');
  }

  /** A probe of 16 bytes sees exactly the key of the line it starts on: it cannot match across the newline. */
  lemma ProbeIsLineKey(buf: string, len: nat, p: nat)
    requires IsConf(buf, len) && p < len
    ensures ProbeKey(buf, p) == LineKey(buf[p..LineEnd(buf, len, p)])
  {
    hide Find, IndexOfKey, LOOKUP;
    var eol := LineEnd(buf, len, p);
    LineEndShape(buf, len, p);
    var line := buf[p..eol];
    var hi := Clip(buf, p + KEY_MAX);
    FindFirst(buf, p, hi, ' ');
    FindFirst(line, 0, |line|, ' ');
    var e := Find(buf, p, hi, ' ');
    var i := Find(line, 0, |line|, ' ');
    assert forall j :: 0 <= j < |line| ==> line[j] == buf[p + j];
    if i < |line| && i < KEY_MAX {
      FindIs(buf, p, hi, ' ', p + i);
      assert line[..i] == buf[p..e];
    } else {
      if i < |line| { NotAWord(line[..i]); }
      if e < hi {
        assert e > eol;
        assert buf[p..e][eol - p] == '\n';
        NotAWord(buf[p..e]);
      }
    }
  }

  /** The inner `for` loop: probe and compare against every key in turn. */
  method FindKey(buf: string, pScan: nat) returns (i: nat)
    requires pScan <= |buf|
    ensures i == ProbeKey(buf, pScan)
  {
    hide LOOKUP, Find;
    i := 0;
    while i < |LOOKUP|
      invariant 0 <= i <= |LOOKUP|
      invariant var hi := Clip(buf, pScan + KEY_MAX);
                var e := Find(buf, pScan, hi, ' ');
                if e == hi then i == 0 else IndexOfKey(buf[pScan..e], 0) == IndexOfKey(buf[pScan..e], i)
    {
      var pEnd := Find(buf, pScan, Clip(buf, pScan + KEY_MAX), ' ');
      if pEnd == Clip(buf, pScan + KEY_MAX) { return |LOOKUP|; }
      var confKeyLen := pEnd - pScan;
      if confKeyLen == |LOOKUP[i].key| && MatchAt(buf, pScan, LOOKUP[i].key) { return; }
      i := i + 1;
    }
  }

  predicate LineStart(buf: string, p: nat) {
    p <= |buf| && (p == 0 || buf[p - 1] == '\n')
  }

  /** Blank lines change nothing, so skipping a run of newlines is folding over them. */
  lemma BlankLine(buf: string, len: nat, p: nat, conf: Conf, ap: PortsParser)
    requires IsConf(buf, len) && p < len && buf[p] == '\n'
    ensures Fold(buf, len, p, conf, ap) == Fold(buf, len, p + 1, conf, ap)
  {
    hide Find, LineKey, ParseValue;
    FindIs(buf, p, len, '\n', p);
    assert buf[p..p] == "";
  }

  /** The newline behind the key and its spaces is the newline of the line the key starts. */
  lemma SameLineEnd(buf: string, len: nat, p: nat, q: nat)
    requires IsConf(buf, len) && p <= q < len && forall i :: p <= i < q ==> buf[i] != '\n'
    ensures Find(buf, q, len, '\n') == LineEnd(buf, len, p)
  {
    hide Find;
    LineEndShape(buf, len, p);
    FindIs(buf, q, len, '\n', LineEnd(buf, len, p));
  }

  /** From a key to its value nothing but the key and spaces, and the value starts before the line ends. */
  lemma ValueStart(buf: string, len: nat, p: nat, k: nat)
    requires IsConf(buf, len) && p < len && k == ProbeKey(buf, p) < |LOOKUP|
    ensures p + |LOOKUP[k].key| < len && MatchAt(buf, p, LOOKUP[k].key)
    ensures var q := SkipBlanks(buf, p + |LOOKUP[k].key|);
            q < len && forall i :: p <= i < q ==> buf[i] != '\n'
    ensures buf[p] != '\n' && buf[p] != '#'
  {
    hide Find, LOOKUP, SkipBlanks, IndexOfKey;
    var hi := Clip(buf, p + KEY_MAX);
    var e := Find(buf, p, hi, ' ');
    FindFirst(buf, p, hi, ' ');
    IndexOfKeyIs(buf[p..e], 0);
    KeysAreWords();
    var key := LOOKUP[k].key;
    assert key == buf[p..e];
    assert forall i :: p <= i < e ==> buf[i] == key[i - p];
    SkipBlanksShape(buf, e);
    var q := SkipBlanks(buf, e);
    assert e < len - 1;
    assert q <= len - 1;
  }

  /** The effect of a line, in terms of the probe and of where its value starts. */
  lemma EffectIs(buf: string, len: nat, p: nat, ap: PortsParser)
    requires IsConf(buf, len) && p < len
    ensures buf[p] == '#' || ProbeKey(buf, p) == |LOOKUP| ==> EffectAt(buf, len, p, ap) == Nothing
    ensures var k := ProbeKey(buf, p);
            buf[p] != '#' && k < |LOOKUP| ==>
              var q := SkipBlanks(buf, Min(p + |LOOKUP[k].key|, |buf|));
              q < len && EffectAt(buf, len, p, ap) ==
                match ParseValue(LOOKUP[k], buf, q, ap)
                case Rejected => Fails
                case Unchanged => Nothing
                case Written(v) => Sets(LOOKUP[k].key, v)
  {
    hide Find, LOOKUP, SkipBlanks, ParseValue, IndexOfKey, LineKey, ProbeKey;
    ProbeIsLineKey(buf, len, p);
    LineEndShape(buf, len, p);
    var k := ProbeKey(buf, p);
    if k < |LOOKUP| { ValueStart(buf, len, p, k); }
  }

  /** The body of the scanner's loop up to the label `next_line`. */
  method ScanLine(buf: string, len: nat, p: nat, conf: Conf, ap: PortsParser)
    returns (ok: bool, conf': Conf, pScan: nat, totalN: nat)
    requires IsConf(buf, len) && p < len
    ensures match EffectAt(buf, len, p, ap)
            case Fails => !ok
            case Nothing => ok && conf' == conf
            case Sets(key, v) => ok && conf' == conf[key := v]
    ensures ok ==> p <= pScan < len && totalN == pScan && forall i :: p <= i < pScan ==> buf[i] != '\n'
  {
    hide Find, LOOKUP, ParseValue, ProbeKey, EffectAt;
    ok, conf', pScan, totalN := true, conf, p, p;
    EffectIs(buf, len, p, ap);
    if buf[p] == '#' { return; }
    var i := FindKey(buf, pScan);
    if i == |LOOKUP| { return; }
    ValueStart(buf, len, p, i);
    pScan := pScan + |LOOKUP[i].key|;
    totalN := totalN + |LOOKUP[i].key|;
    while buf[pScan] == ' '
      invariant totalN == pScan <= SkipBlanks(buf, p + |LOOKUP[i].key|) == SkipBlanks(buf, pScan) < len
      decreases len - pScan
    {
      totalN := totalN + 1;
      pScan := pScan + 1;
    }
    match ParseValue(LOOKUP[i], buf, pScan, ap)
    case Rejected => ok := false;
    case Unchanged =>
    case Written(v) => conf' := conf[LOOKUP[i].key := v];
  }

  /**
   `_conf_parse`: the cursor and the count never part, every turn moves forward, the search for the end of a line never
   fails, and the result is the fold over the lines.
   */
  method ConfParse(buf: string, len: nat, conf: Conf, ap: PortsParser) returns (ret: int, conf': Conf)
    requires IsConf(buf, len)
    ensures match Fold(buf, len, 0, conf, ap)
            case Error => ret == -1
            case Done(c) => ret == 0 && conf' == c
  {
    hide Find, LOOKUP, EffectAt;
    var pScan: nat, totalN: nat := 0, 0;
    conf' := conf;
    while totalN < len
      invariant pScan == totalN <= len && LineStart(buf, pScan)
      invariant Fold(buf, len, pScan, conf', ap) == Fold(buf, len, 0, conf, ap)
      decreases len - totalN
    {
      ghost var start := pScan;
      var ok;
      ok, conf', pScan, totalN := ScanLine(buf, len, pScan, conf', ap);
      if !ok { return -1, conf'; }
      SameLineEnd(buf, len, start, pScan);
      LineEndShape(buf, len, start);
      var pEnd := Find(buf, pScan, pScan + (len - totalN), '\n');
      assert pEnd < len;  // the code's "no newline" return is never taken
      var n := pEnd - pScan;
      totalN := totalN + n + 1;
      pScan := pScan + n + 1;
      while buf[pScan] == '\n'
        invariant pScan == totalN <= len && LineStart(buf, pScan)
        invariant Fold(buf, len, pScan, conf', ap) == Fold(buf, len, 0, conf, ap)
        decreases len - totalN
      {
        BlankLine(buf, len, pScan, conf', ap);
        totalN := totalN + 1;
        pScan := pScan + 1;
      }
    }
    ret := 0;
  }

  // ---------------------------------------------------------------- last occurrence wins

  lemma NextStart(buf: string, len: nat, p: nat)
    requires IsConf(buf, len) && p < len
    ensures LineStart(buf, LineEnd(buf, len, p) + 1) && LineEnd(buf, len, p) + 1 <= len
    ensures forall q :: p < q < len && LineStart(buf, q) ==> LineEnd(buf, len, p) + 1 <= q
  {
    hide Find;
    LineEndShape(buf, len, p);
  }

  /** A key no line sets keeps its value. */
  lemma {:induction false} UnsetKept(buf: string, len: nat, p: nat, conf: Conf, ap: PortsParser, key: string)
    requires IsConf(buf, len) && LineStart(buf, p) && Fold(buf, len, p, conf, ap).Done?
    requires forall q :: p <= q < len && LineStart(buf, q) ==>
             !(EffectAt(buf, len, q, ap).Sets? && EffectAt(buf, len, q, ap).key == key)
    ensures var c := Fold(buf, len, p, conf, ap).conf;
            (key in c <==> key in conf) && (key in conf ==> c[key] == conf[key])
    decreases if p < len then len - p else 0
  {
    hide EffectAt, LineEnd;
    if p < len {
      NextStart(buf, len, p);
      var e := EffectAt(buf, len, p, ap);
      var conf' := if e.Sets? then conf[e.key := e.v] else conf;
      UnsetKept(buf, len, LineEnd(buf, len, p) + 1, conf', ap, key);
    }
  }

  /** The last line that sets a key decides its value; every line of a MIME block counts as a line of its own. */
  lemma {:induction false} LastWins(buf: string, len: nat, p: nat, conf: Conf, ap: PortsParser, q: nat)
    requires IsConf(buf, len) && LineStart(buf, p) && Fold(buf, len, p, conf, ap).Done?
    requires p <= q < len && LineStart(buf, q) && EffectAt(buf, len, q, ap).Sets?
    requires forall r :: q < r < len && LineStart(buf, r) ==>
               !(EffectAt(buf, len, r, ap).Sets? && EffectAt(buf, len, r, ap).key == EffectAt(buf, len, q, ap).key)
    ensures var c := Fold(buf, len, p, conf, ap).conf;
            var e := EffectAt(buf, len, q, ap);
            e.key in c && c[e.key] == e.v
    decreases len - p
  {
    hide EffectAt, LineEnd;
    NextStart(buf, len, p);
    var e := EffectAt(buf, len, p, ap);
    var conf' := if e.Sets? then conf[e.key := e.v] else conf;
    if p == q {
      UnsetKept(buf, len, LineEnd(buf, len, p) + 1, conf', ap, e.key);
    } else {
      LastWins(buf, len, LineEnd(buf, len, p) + 1, conf', ap, q);
    }
  }

  /** The file is refused exactly when some line's value is. */
  lemma {:induction false} RefusedIff(buf: string, len: nat, p: nat, conf: Conf, ap: PortsParser)
    requires IsConf(buf, len) && LineStart(buf, p)
    ensures Fold(buf, len, p, conf, ap) == Error <==>
            exists q :: p <= q < len && LineStart(buf, q) && EffectAt(buf, len, q, ap) == Fails
    decreases if p < len then len - p else 0
  {
    hide EffectAt, LineEnd;
    if p < len {
      NextStart(buf, len, p);
      var e := EffectAt(buf, len, p, ap);
      var conf' := if e.Sets? then conf[e.key := e.v] else conf;
      RefusedIff(buf, len, LineEnd(buf, len, p) + 1, conf', ap);
    }
  }
}
