/**
 Writing a configuration and scanning it back (`_conf_parse` and the parsers of numbers, flags and strings,
 src/file_conf.c).
 */
module ConfText {
  import opened Bytes
  import opened ConfFile

  // ---------------------------------------------------------------- values read back

  predicate StartsWithDigit(s: string) {
    s != "" && IsDigit(s[0])
  }

  /** Reading digits from the left computes their value. */
  lemma {:induction false} DigitRunFrom(buf: string, p: nat, s: string, k: nat)
    requires p + |s| <= |buf| && buf[p..p + |s|] == s && k <= |s|
    requires forall i :: 0 <= i < |s| ==> IsDigit(s[i])
    requires !StartsWithDigit(buf[p + |s|..])
    ensures DigitRun(buf, p + k, DigitsValue(s[..k])) == DigitsValue(s)
    decreases |s| - k
  {
    if k == |s| {
      assert s[..k] == s;
      assert p + k < |buf| ==> buf[p + k] == buf[p + |s|..][0];
    } else {
      var t := s[..k + 1];
      assert t[..k] == s[..k] && t[k] == s[k];
      assert buf[p + k] == buf[p..p + |s|][k] == s[k];
      DigitRunFrom(buf, p, s, k + 1);
    }
  }

  function Clamped(n: int): int {
    if n > LONG_MAX then LONG_MAX else if n < -LONG_MAX - 1 then -LONG_MAX - 1 else n
  }

  /** What `strtol` finds at `p`: white space, at most one sign, and all the digits there are, which may be none. */
  ghost predicate NumberAt(buf: string, p: nat, w: string, sign: string, ds: string) {
    var a := p + |w|; var b := a + |sign|; var c := b + |ds|;
    && c <= |buf| && buf[p..a] == w && buf[a..b] == sign && buf[b..c] == ds
    && (forall i :: 0 <= i < |w| ==> IsSpace(w[i])) && (sign == "" || sign == "+" || sign == "-")
    && (forall i :: 0 <= i < |ds| ==> IsDigit(ds[i])) && !StartsWithDigit(buf[c..])
    && (sign == "" && ds == "" && c < |buf| ==> !IsSpace(buf[c]) && buf[c] != '+' && buf[c] != '-')
  }

  lemma {:induction false} SpacesSkipped(buf: string, p: nat, q: nat)
    requires p <= q <= |buf| && (forall i :: p <= i < q ==> IsSpace(buf[i])) && (q < |buf| ==> !IsSpace(buf[q]))
    ensures SkipSpace(buf, p) == q
    decreases q - p
  {
    if p < q { SpacesSkipped(buf, p + 1, q); }
  }

  /** `strtol` computes the signed value of the digits it finds, 0 without any, up to saturation. */
  lemma StrtolReads(buf: string, p: nat, w: string, sign: string, ds: string)
    requires NumberAt(buf, p, w, sign, ds)
    ensures var n: int := DigitsValue(ds); Strtol(buf, p) == Clamped(if sign == "-" then -n else n)
  {
    hide DigitsValue, DigitRun;
    var a := p + |w|;
    var b := a + |sign|;
    assert forall i :: p <= i < a ==> buf[i] == buf[p..a][i - p] == w[i - p];
    assert sign != "" ==> buf[a] == buf[a..b][0] == sign[0];
    assert ds != "" ==> buf[b] == buf[b..b + |ds|][0] == ds[0];
    SpacesSkipped(buf, p, a);
    DigitRunFrom(buf, b, ds, 0);
    assert ds[..0] == "" && DigitsValue("") == 0 by { NoDigits(); }
  }

  lemma NoDigits()
    ensures DigitsValue("") == 0
  {
  }

  /** `strtol` reads back a printed number, up to saturation. */
  lemma StrtolDecimal(buf: string, p: nat, n: nat)
    requires p + |Decimal(n)| <= |buf| && buf[p..p + |Decimal(n)|] == Decimal(n)
    requires !StartsWithDigit(buf[p + |Decimal(n)|..])
    ensures Strtol(buf, p) == if n > LONG_MAX then LONG_MAX else n
  {
    hide Decimal, Strtol, DigitsValue;
    assert buf[p..p] == "";
    StrtolReads(buf, p, "", "", Decimal(n));
    DecimalRoundTrip(n);
  }

  /** A port is accepted exactly below 65536 and then read exactly; a u32 is read modulo 2^32, up to saturation. */
  lemma NumbersRead(buf: string, p: nat, n: nat, look: Lookup, ap: PortsParser)
    requires p + |Decimal(n)| < |buf| && buf[p..p + |Decimal(n)|] == Decimal(n)
    requires !StartsWithDigit(buf[p + |Decimal(n)|..])
    ensures look.kind == U16 ==> ParseValue(look, buf, p, ap) == if n < 65536 then Written(Number(n)) else Rejected
    ensures look.kind == U32 ==> ParseValue(look, buf, p, ap) == Written(Number(Bytes.Min(n, LONG_MAX) % 0x1_0000_0000))
  {
    hide Decimal, Strtol;
    StrtolDecimal(buf, p, n);
  }

  /** A flag is accepted exactly when a space or a newline follows the word. */
  lemma FlagsRead(buf: string, p: nat, b: bool, look: Lookup, ap: PortsParser)
    requires look.kind == Bool && MatchAt(buf, p, if b then "true" else "false") && p < |buf|
    ensures var c := CharAt(buf, p + if b then 4 else 5);
            ParseValue(look, buf, p, ap) == if c == ' ' || c == '\n' then Written(Flag(b)) else Rejected
  {
    if !b {
      var m := buf[p..p + 5];
      assert m == "false" && buf[p] == m[0] == 'f';
      assert buf[p..p + 4][0] == buf[p];
    }
  }

  /** A quoted string is stored whole exactly when it leaves room for the NUL and one byte more. */
  lemma TextsRead(buf: string, p: nat, s: string, look: Lookup, ap: PortsParser)
    requires look.kind == Char && look.size > 0 && '"' !in s
    requires p + |s| + 2 <= |buf| && buf[p] == '"' && buf[p + 1..p + 1 + |s|] == s && buf[p + 1 + |s|] == '"'
    ensures ParseValue(look, buf, p, ap) == if |s| + 2 <= look.size then Written(Text(s)) else Rejected
  {
    hide Find;
    var hi := Clip(buf, p + 1 + (look.size - 1));
    SliceFree(buf, p + 1, p + 1 + |s|, s, '"');
    if |s| + 2 <= look.size {
      FindIs(buf, p + 1, hi, '"', p + 1 + |s|);
    } else {
      FindIs(buf, p + 1, hi, '"', hi);
    }
  }

  /** A flag has a value exactly when one of the words stands there, with a space or a newline behind it. */
  lemma FlagIff(buf: string, p: nat, b: bool, look: Lookup, ap: PortsParser)
    requires look.kind == Bool && p < |buf|
    ensures var v, word := ParseValue(look, buf, p, ap), if b then "true" else "false";
            && (v == Written(Flag(b)) <==>
                MatchAt(buf, p, word) && (CharAt(buf, p + |word|) == ' ' || CharAt(buf, p + |word|) == '\n'))
            && (v.Rejected? || v == Written(Flag(true)) || v == Written(Flag(false)))
  {
    if MatchAt(buf, p, "true") { FlagsRead(buf, p, true, look, ap); }
    if MatchAt(buf, p, "false") { FlagsRead(buf, p, false, look, ap); }
  }

  /** A string has a value exactly when it stands between two quotes and leaves room for the NUL and a byte more. */
  lemma TextIff(buf: string, p: nat, s: string, look: Lookup, ap: PortsParser)
    requires look.kind == Char && look.size > 0 && p < |buf|
    ensures var v := ParseValue(look, buf, p, ap);
            && (v == Written(Text(s)) <==>
                '"' !in s && |s| + 2 <= look.size && MatchAt(buf, p, "\"" + (s + "\"")))
            && (v.Rejected? || (v.Written? && v.v.Text?))
  {
    hide Find;
    var hi := Clip(buf, p + 1 + (look.size - 1));
    var v := ParseValue(look, buf, p, ap);
    if v == Written(Text(s)) {
      FindFirst(buf, p + 1, hi, '"');
      var q := Find(buf, p + 1, hi, '"');
      assert buf[p + 1..q] == s && buf[q] == '"';
      assert forall i :: 0 <= i < |s| ==> s[i] == buf[p + 1 + i] != '"';
      assert buf[p..q + 1] == [buf[p]] + (buf[p + 1..q] + [buf[q]]);
    }
    if '"' !in s && |s| + 2 <= look.size && MatchAt(buf, p, "\"" + (s + "\"")) {
      Quoted(buf, p, p + |s| + 2, s);
      TextsRead(buf, p, s, look, ap);
    }
  }

  // ---------------------------------------------------------------- a whole file

  /** One line an administrator writes: a key and the value meant for it. */
  datatype Setting = Setting(key: string, v: Value)

  function ValueText(v: Value): string {
    match v
    case Number(n) => if n < 0 then "-" + Decimal(-n) else Decimal(n)
    case Flag(b) => if b then "true" else "false"
    case Text(s) => "\"" + (s + "\"")
  }

  function KindOf(key: string): Lookup
    requires IndexOfKey(key, 0) < |LOOKUP|
  {
    LOOKUP[IndexOfKey(key, 0)]
  }

  /** A known key with a value of its kind; a string cannot hold a quote and ends on its line. */
  predicate Writable(s: Setting) {
    IndexOfKey(s.key, 0) < |LOOKUP| && OfKind(KindOf(s.key).kind, s.v)
  }

  predicate OfKind(k: Kind, v: Value) {
    match k
    case U32 | U16 => v.Number? && v.n >= 0
    case Bool => v.Flag?
    case Char => v.Text? && '"' !in v.s && '\n' !in v.s
    case _ => false
  }

  predicate AllWritable(ss: seq<Setting>) {
    forall i :: 0 <= i < |ss| ==> Writable(ss[i])
  }

  /** What a member can hold: ports have 16 bits, other numbers 32, and a string leaves two bytes of its array free. */
  predicate Storable(s: Setting)
    requires Writable(s)
  {
    match s.v
    case Number(n) => n < if KindOf(s.key).kind == U16 then 65536 else 0x1_0000_0000
    case Flag(_) => true
    case Text(t) => |t| + 2 <= KindOf(s.key).size
  }

  function LineText(s: Setting): string
    requires Writable(s)
  {
    s.key + (" " + (ValueText(s.v) + "\n"))
  }

  /** A line of a file: a setting, or a line the scanner passes over (blank, a comment, or no known key in front). */
  datatype ConfLine = Sets(s: Setting) | Idle(text: string)

  predicate LineOk(l: ConfLine) {
    match l
    case Sets(s) => Writable(s)
    case Idle(t) => '\n' !in t && (t == "" || t[0] == '#' || LineKey(t) == |LOOKUP|)
  }

  predicate LinesOk(ls: seq<ConfLine>) {
    forall i :: 0 <= i < |ls| ==> LineOk(ls[i])
  }

  function TextOf(l: ConfLine): (t: string)
    requires LineOk(l)
    ensures t != ""
  {
    match l
    case Sets(s) => LineText(s)
    case Idle(t) => t + "\n"
  }

  function FileText(ls: seq<ConfLine>, end: string): string
    requires LinesOk(ls)
  {
    if ls == [] then end else TextOf(ls[0]) + FileText(ls[1..], end)
  }

  function SettingsOf(ls: seq<ConfLine>): (ss: seq<Setting>)
    requires LinesOk(ls)
    ensures AllWritable(ss)
  {
    if ls == [] then [] else (if ls[0].Sets? then [ls[0].s] else []) + SettingsOf(ls[1..])
  }

  /**
   What a written value becomes: a number too large for 32 bits is cut, any other value that does not fit is refused.
   */
  function Stored(s: Setting): Parsed
    requires Writable(s)
  {
    if Storable(s) then Written(s.v)
    else if KindOf(s.key).kind == U32 then Written(Number(Bytes.Min(s.v.n, LONG_MAX) % 0x1_0000_0000))
    else Rejected
  }

  /** The settings in turn, the later ones over the earlier ones, up to the first that is refused. */
  function Replay(conf: Conf, ss: seq<Setting>): Folded
    requires AllWritable(ss)
    decreases |ss|
  {
    if ss == [] then Done(conf)
    else
      match Stored(ss[0])
      case Written(v) => Replay(conf[ss[0].key := v], ss[1..])
      case _ => Error
  }

  /** Where the parts of a written line stand. */
  ghost predicate LineStands(buf: string, p: nat, e: nat, s: Setting)
    requires Writable(s)
  {
    && p + |s.key| + 1 < e < |buf| && e == p + |s.key| + 1 + |ValueText(s.v)|
    && buf[p..p + |s.key|] == s.key && buf[p + |s.key|] == ' '
    && buf[p + |s.key| + 1..e] == ValueText(s.v) && buf[e] == '\n'
  }

  lemma ValueShape(s: Setting)
    requires Writable(s)
    ensures ValueText(s.v) != "" && ValueText(s.v)[0] != ' ' && '\n' !in ValueText(s.v)
  {
    hide Decimal, LOOKUP, IndexOfKey;
  }

  lemma LineSplits(key: string, v: string, rest: string)
    ensures key + (" " + (v + "\n")) + rest == key + ([' '] + (v + (['\n'] + rest)))
  {
  }

  lemma LineLayout(buf: string, p: nat, s: Setting, rest: string)
    requires Writable(s) && p <= |buf| && buf[p..] == LineText(s) + rest
    ensures var e := p + |s.key| + 1 + |ValueText(s.v)|;
            LineStands(buf, p, e, s) && buf[e + 1..] == rest
  {
    hide ValueText, OfKind, LOOKUP, IndexOfKey;
    ValueShape(s);
    LineParts(buf, p, s.key, ValueText(s.v), rest);
  }

  lemma LineParts(buf: string, p: nat, key: string, v: string, rest: string)
    requires p <= |buf| && buf[p..] == key + (" " + (v + "\n")) + rest
    ensures var e := p + |key| + 1 + |v|;
            && e < |buf| && buf[p..p + |key|] == key && buf[p + |key|] == ' '
            && buf[p + |key| + 1..e] == v && buf[e] == '\n' && buf[e + 1..] == rest
  {
    LineSplits(key, v, rest);
    assert buf[p..] == buf[p..|buf|];
    SplitAt(buf, p, |buf|, key, ' ', v + (['\n'] + rest));
    SplitAt(buf, p + |key| + 1, |buf|, v, '\n', rest);
  }

  lemma KeyShape(k: string)
    requires IndexOfKey(k, 0) < |LOOKUP|
    ensures ShortWord(k) && KindOf(k).key == k && KindOf(k) in LOOKUP
  {
    hide LOOKUP, IndexOfKey, ShortWord;
    KeysAreWords();
    IndexOfKeyIs(k, 0);
  }

  /**
   The probe finds the key of a written line, the blanks end in front of its value, and the line where it was ended.
   */
  lemma LineFinds(buf: string, len: nat, p: nat, e: nat, s: Setting)
    requires Writable(s) && LineStands(buf, p, e, s) && IsConf(buf, len) && e < len
    ensures ProbeKey(buf, p) == IndexOfKey(s.key, 0) && buf[p] != '#'
    ensures SkipBlanks(buf, p + |s.key|) == p + |s.key| + 1
    ensures LineEnd(buf, len, p) == e
  {
    hide Find, LOOKUP, IndexOfKey, ValueText, OfKind;
    KeyShape(s.key);
    ValueShape(s);
    var k, v := s.key, ValueText(s.v);
    assert forall i :: p <= i < p + |k| ==> buf[i] == buf[p..p + |k|][i - p] == k[i - p];
    FindIs(buf, p, Clip(buf, p + KEY_MAX), ' ', p + |k|);
    assert buf[p + |k| + 1] == buf[p + |k| + 1..e][0] == v[0];
    SliceFree(buf, p + |k| + 1, e, v, '\n');
    FindIs(buf, p, len, '\n', e);
  }

  /** The value of a written line is parsed to what it stands for. */
  lemma ValueRead(buf: string, p: nat, e: nat, s: Setting, ap: PortsParser)
    requires Writable(s) && LineStands(buf, p, e, s)
    ensures ParseValue(KindOf(s.key), buf, p + |s.key| + 1, ap) == Stored(s)
  {
    hide Decimal, LOOKUP, IndexOfKey, ParseValue, Find;
    var q := p + |s.key| + 1;
    assert buf[e..][0] == '\n';
    match s.v
    case Number(n) => NumbersRead(buf, q, n, KindOf(s.key), ap);
    case Flag(b) => FlagsRead(buf, q, b, KindOf(s.key), ap);
    case Text(t) =>
      KeyShape(s.key);
      TextSizes();
      Quoted(buf, q, e, t);
      TextsRead(buf, q, t, KindOf(s.key), ap);
  }

  lemma SizesBelow(n: nat)
    requires n == 12
    ensures |LOOKUP| == 22 && forall i :: 0 <= i < n ==> LOOKUP[i].size > 0
  {
  }

  lemma SizesAbove(n: nat)
    requires n == 12
    ensures |LOOKUP| == 22 && forall i :: n <= i < 22 ==> LOOKUP[i].size > 0
  {
  }

  lemma TextSizes()
    ensures forall l :: l in LOOKUP && l.kind == Char ==> l.size > 0
  {
    SizesBelow(12);
    SizesAbove(12);
    hide LOOKUP;
    forall l | l in LOOKUP ensures l.kind == Char ==> l.size > 0 {
      var i :| 0 <= i < |LOOKUP| && LOOKUP[i] == l;
    }
  }

  lemma Quoted(buf: string, q: nat, e: nat, t: string)
    requires q <= e <= |buf| && buf[q..e] == "\"" + (t + "\"")
    ensures q + |t| + 2 == e && buf[q] == '"' && buf[q + 1..q + 1 + |t|] == t && buf[q + 1 + |t|] == '"'
  {
    SplitAt(buf, q, e, "", '"', t + "\"");
    Split(buf, q + 1, e, t, "\"");
    assert buf[q + 1 + |t|] == buf[q + 1 + |t|..e][0];
  }

  lemma LineRead(buf: string, len: nat, p: nat, s: Setting, rest: string, ap: PortsParser)
    requires Writable(s) && IsConf(buf, len) && p <= len && buf[p..] == LineText(s) + rest && |rest| > 0
    ensures p < len
    ensures EffectAt(buf, len, p, ap) == if Stored(s).Written? then Effect.Sets(s.key, Stored(s).v) else Fails
    ensures LineEnd(buf, len, p) + 1 + |rest| == |buf| && buf[LineEnd(buf, len, p) + 1..] == rest
  {
    hide Find, LOOKUP, IndexOfKey, ValueText, OfKind, Stored, ParseValue, LineText, LineEnd, EffectAt, ProbeKey;
    LineLayout(buf, p, s, rest);
    var e := p + |s.key| + 1 + |ValueText(s.v)|;
    assert |buf[e + 1..]| == |rest|;
    LineFinds(buf, len, p, e, s);
    KeyShape(s.key);
    EffectIs(buf, len, p, ap);
    ValueRead(buf, p, e, s, ap);
    StoredShape(s);
  }

  lemma StoredShape(s: Setting)
    requires Writable(s)
    ensures Stored(s).Written? || Stored(s).Rejected?
  {
    hide LOOKUP, IndexOfKey;
  }

  /** One line of the file is one step of the replay. */
  lemma LineFolds(buf: string, len: nat, p: nat, s: Setting, rest: string, conf: Conf, ap: PortsParser)
    requires Writable(s) && IsConf(buf, len) && p <= len && buf[p..] == LineText(s) + rest && |rest| > 0
    ensures |rest| <= |buf| && |buf| - |rest| <= len && buf[|buf| - |rest|..] == rest
    ensures Fold(buf, len, p, conf, ap) ==
            if Stored(s).Written? then Fold(buf, len, |buf| - |rest|, conf[s.key := Stored(s).v], ap) else Error
  {
    hide EffectAt, LineEnd, LineText, OfKind, Stored, LOOKUP, IndexOfKey;
    LineRead(buf, len, p, s, rest, ap);
  }

  lemma LastLine(buf: string, len: nat, p: nat, conf: Conf, ap: PortsParser)
    requires IsConf(buf, len) && p <= len && buf[p..] == ['\n', NUL]
    ensures Fold(buf, len, p, conf, ap) == Done(conf)
  {
    hide EffectAt, LineEnd;
    assert |buf[p..]| == 2 && buf[p] == buf[p..][0];
    BlankLine(buf, len, p, conf, ap);
  }

  /** A line the scanner passes over changes nothing. */
  lemma IdleFolds(buf: string, len: nat, p: nat, t: string, rest: string, conf: Conf, ap: PortsParser)
    requires LineOk(Idle(t)) && IsConf(buf, len) && p <= len && buf[p..] == t + "\n" + rest && |rest| > 0
    ensures |rest| <= |buf| && |buf| - |rest| <= len && buf[|buf| - |rest|..] == rest
    ensures Fold(buf, len, p, conf, ap) == Fold(buf, len, |buf| - |rest|, conf, ap)
  {
    hide EffectAt, LineEnd, LineOk;
    Regroup(t, ['\n'], rest);
    assert buf[p..] == buf[p..|buf|];
    SplitAt(buf, p, |buf|, t, '\n', rest);
    IdleEffect(buf, len, p, t, ap);
  }

  lemma IdleEffect(buf: string, len: nat, p: nat, t: string, ap: PortsParser)
    requires LineOk(Idle(t)) && len <= |buf| && p + |t| < len < |buf|
    requires buf[p..p + |t|] == t && buf[p + |t|] == '\n'
    ensures LineEnd(buf, len, p) == p + |t| && EffectAt(buf, len, p, ap) == Nothing
  {
    hide Find, ParseValue, LineKey, LOOKUP;
    SliceFree(buf, p, p + |t|, t, '\n');
    FindIs(buf, p, len, '\n', p + |t|);
  }

  lemma SettingFront(s: Setting, ss: seq<Setting>, conf: Conf)
    requires Writable(s) && AllWritable(ss)
    ensures AllWritable([s] + ss)
    ensures Replay(conf, [s] + ss) ==
            if Stored(s).Written? then Replay(conf[s.key := Stored(s).v], ss) else Error
  {
    hide Writable, Stored;
    assert ([s] + ss)[1..] == ss;
    StoredShape(s);
  }

  /** The first line of a file and what it means. */
  lemma FrontLine(ls: seq<ConfLine>, end: string)
    requires LinesOk(ls) && ls != []
    ensures LinesOk(ls[1..]) && LineOk(ls[0])
    ensures ls[0].Idle? ==>
              && FileText(ls, end) == ls[0].text + "\n" + FileText(ls[1..], end)
              && SettingsOf(ls) == SettingsOf(ls[1..])
    ensures ls[0].Sets? ==>
              && Writable(ls[0].s)
              && FileText(ls, end) == LineText(ls[0].s) + FileText(ls[1..], end)
              && SettingsOf(ls) == [ls[0].s] + SettingsOf(ls[1..])
  {
    hide LineText, Writable, LineKey;
    assert [] + SettingsOf(ls[1..]) == SettingsOf(ls[1..]);
  }

  /** Scanning written lines is replaying the settings. */
  lemma {:induction false} LinesRead(buf: string, len: nat, p: nat, conf: Conf, ls: seq<ConfLine>, ap: PortsParser)
    requires IsConf(buf, len) && LinesOk(ls) && p <= len && buf[p..] == FileText(ls, ['\n', NUL])
    ensures Fold(buf, len, p, conf, ap) == Replay(conf, SettingsOf(ls))
    decreases |ls|
  {
    hide Fold, LineText, Writable, Stored, LineOk, LinesOk, FileText, SettingsOf, Replay, AllWritable;
    if ls == [] {
      NoLines(['\n', NUL]);
      LastLine(buf, len, p, conf, ap);
      NothingReplayed(conf);
    } else {
      FrontLine(ls, ['\n', NUL]);
      var rest := FileText(ls[1..], ['\n', NUL]);
      FileEnds(ls[1..], ['\n', NUL]);
      match ls[0]
      case Idle(t) =>
        IdleFolds(buf, len, p, t, rest, conf, ap);
        LinesRead(buf, len, |buf| - |rest|, conf, ls[1..], ap);
      case Sets(s) =>
        LineFolds(buf, len, p, s, rest, conf, ap);
        SettingFront(s, SettingsOf(ls[1..]), conf);
        if Stored(s).Written? {
          LinesRead(buf, len, |buf| - |rest|, conf[s.key := Stored(s).v], ls[1..], ap);
        }
    }
  }

  lemma NoLines(end: string)
    ensures LinesOk([]) && FileText([], end) == end && SettingsOf([]) == []
  {
  }

  lemma NothingReplayed(conf: Conf)
    ensures Replay(conf, []) == Done(conf)
  {
  }

  lemma {:induction false} FileEnds(ls: seq<ConfLine>, end: string)
    requires LinesOk(ls) && end != ""
    ensures |FileText(ls, end)| >= |end| && FileText(ls, end)[|FileText(ls, end)| - |end|..] == end
  {
    hide TextOf, LineOk;
    if ls != [] { FileEnds(ls[1..], end); }
  }

  /**
   A written configuration read back, with comments, blank lines and lines of unknown keys anywhere in it.  Scanning the
   file replays the settings; so when every value can be stored, the file is accepted and holds, for each key, the value
   of its last line.
   */
  lemma WrittenConfRead(ls: seq<ConfLine>, conf: Conf, ap: PortsParser)
    requires LinesOk(ls)
    ensures var buf := FileText(ls, ['\n', NUL]);
            && |buf| >= 2 && IsConf(buf, |buf| - 1)
            && Fold(buf, |buf| - 1, 0, conf, ap) == Replay(conf, SettingsOf(ls))
  {
    hide EffectAt, LineEnd, TextOf, LineOk, Stored, IndexOfKey, LOOKUP, Fold, Replay, SettingsOf;
    FileEnds(ls, ['\n', NUL]);
    var buf := FileText(ls, ['\n', NUL]);
    assert buf[|buf| - 2..] == ['\n', NUL];
    assert buf[|buf| - 2] == buf[|buf| - 2..][0] && buf[|buf| - 1] == buf[|buf| - 2..][1];
    assert buf[0..] == buf;
    LinesRead(buf, |buf| - 1, 0, conf, ls, ap);
  }

  /** Storable settings survive the round trip; the last one for a key is the one that counts. */
  lemma {:induction false} ReplayKeeps(conf: Conf, ss: seq<Setting>, i: nat)
    requires AllWritable(ss) && i < |ss| && forall j :: 0 <= j < |ss| ==> Storable(ss[j])
    requires forall j :: i < j < |ss| ==> ss[j].key != ss[i].key
    ensures Replay(conf, ss).Done?
    ensures ss[i].key in Replay(conf, ss).conf && Replay(conf, ss).conf[ss[i].key] == ss[i].v
    decreases |ss|
  {
    hide OfKind, Storable;
    var conf' := conf[ss[0].key := ss[0].v];
    if i > 0 {
      ReplayKeeps(conf', ss[1..], i - 1);
    } else {
      ReplayOthers(conf', ss[1..], ss[0].key);
    }
  }

  lemma {:induction false} ReplayOthers(conf: Conf, ss: seq<Setting>, key: string)
    requires AllWritable(ss) && key in conf && forall j :: 0 <= j < |ss| ==> Storable(ss[j]) && ss[j].key != key
    ensures Replay(conf, ss).Done? && key in Replay(conf, ss).conf && Replay(conf, ss).conf[key] == conf[key]
    decreases |ss|
  {
    hide OfKind, Storable;
    if ss != [] { ReplayOthers(conf[ss[0].key := ss[0].v], ss[1..], key); }
  }

  /**
   A written configuration is refused exactly when it holds a port of more than 16 bits or a string too long for its
   array.  Other numbers are never refused, only cut.
   */
  lemma {:induction false} RefusedIffTooLarge(conf: Conf, ss: seq<Setting>)
    requires AllWritable(ss)
    ensures Replay(conf, ss) == Error <==>
            exists i :: 0 <= i < |ss| && !Storable(ss[i]) && KindOf(ss[i].key).kind != U32
    decreases |ss|
  {
    hide OfKind, Storable, IndexOfKey, LOOKUP;
    if ss != [] {
      StoredShape(ss[0]);
      var tail := ss[1..];
      assert forall i :: 0 <= i < |tail| ==> tail[i] == ss[i + 1];
      if Stored(ss[0]).Written? {
        RefusedIffTooLarge(conf[ss[0].key := Stored(ss[0]).v], tail);
        assert (exists i :: 0 <= i < |tail| && !Storable(tail[i]) && KindOf(tail[i].key).kind != U32) <==>
               (exists i :: 1 <= i < |ss| && !Storable(ss[i]) && KindOf(ss[i].key).kind != U32) by {
          if i :| 1 <= i < |ss| && !Storable(ss[i]) && KindOf(ss[i].key).kind != U32 {
            assert tail[i - 1] == ss[i];
          }
        }
      }
    }
  }

  // ---------------------------------------------------------------- the documented keys

  const PORTS: seq<string> := ["HTTP_PORT", "HTTPS_PORT"]
  const NUMBERS: seq<string> := ["LIM_SWAP_TIME", "LIM_PAGE", "LIM_RES", "PPS_LIMIT", "PPS_BURST", "BAN_LIM",
                                 "BAN_TIME", "CACHE_MAX_AGE", "HSTS_MAX_AGE"]
  const FLAGS: seq<string> := ["NFT", "KERNEL_TLS", "HSTS"]
  const TEXTS: seq<string> := ["DOMAIN", "WEB_ROOT", "WEB_LOG", "SSL_CERT", "SSL_KEY", "MIME_DEFAULT"]

  /** The rows of the key table are told apart by the length and two characters of their keys. */
  function Mark(key: string): (nat, char, char)
    requires |key| >= 3
  {
    (|key|, key[0], if |key| == 9 then key[4] else key[0])
  }

  const MARKS: seq<(nat, char, char)> := [
    (9, 'H', '_'), (10, 'H', 'H'), (11, 'A', 'A'), (3, 'N', 'N'), (13, 'L', 'L'), (8, 'L', 'L'), (7, 'L', 'L'),
    (9, 'P', 'L'), (9, 'P', 'B'), (7, 'B', 'B'), (8, 'B', 'B'), (6, 'D', 'D'), (8, 'W', 'W'), (7, 'W', 'W'),
    (8, 'S', 'S'), (7, 'S', 'S'), (10, 'K', 'K'), (13, 'C', 'C'), (4, 'H', 'H'), (12, 'H', 'H'), (4, 'M', 'M'),
    (12, 'M', 'M')]

  lemma MarksApart()
    ensures |MARKS| == 22 && forall i, j :: 0 <= i < j < 22 ==> MARKS[i] != MARKS[j]
  {
  }

  lemma RowMarks()
    ensures |LOOKUP| == 22
    ensures forall i :: 0 <= i < 22 ==> |LOOKUP[i].key| >= 3 && Mark(LOOKUP[i].key) == MARKS[i]
  {
  }

  /** No key hides another. */
  lemma RowOf(i: nat)
    requires i < |LOOKUP|
    ensures IndexOfKey(LOOKUP[i].key, 0) == i
  {
    RowMarks();
    MarksApart();
    hide LOOKUP, MARKS;
    forall j | 0 <= j < i ensures LOOKUP[j].key != LOOKUP[i].key {
      assert MARKS[j] != MARKS[i];
    }
    IndexOfKeyFirst(LOOKUP[i].key, 0, i);
  }

  const PORT_ROWS: seq<nat> := [0, 1]
  const NUMBER_ROWS: seq<nat> := [4, 5, 6, 7, 8, 9, 10, 17, 19]
  const FLAG_ROWS: seq<nat> := [3, 16, 18]
  const TEXT_ROWS: seq<nat> := [11, 12, 13, 14, 15, 21]

  /** The rows of some keys, all of one kind and size. */
  ghost predicate Rows(rows: seq<nat>, keys: seq<string>, kind: Kind, size: nat) {
    && |rows| == |keys|
    && forall i :: 0 <= i < |rows| ==> rows[i] < |LOOKUP| && LOOKUP[rows[i]] == Lookup(keys[i], kind, size)
  }

  lemma SmallRows()
    ensures Rows(PORT_ROWS, PORTS, U16, 2) && Rows(FLAG_ROWS, FLAGS, Bool, 1)
  {
  }

  lemma NumberRows()
    ensures Rows(NUMBER_ROWS, NUMBERS, U32, 4)
  {
  }

  lemma TextRows()
    ensures Rows(TEXT_ROWS, TEXTS, Char, 128)
  {
  }

  lemma RowMeans(rows: seq<nat>, keys: seq<string>, kind: Kind, size: nat, i: nat)
    requires Rows(rows, keys, kind, size) && i < |keys|
    ensures IndexOfKey(keys[i], 0) < |LOOKUP| && KindOf(keys[i]) == Lookup(keys[i], kind, size)
  {
    hide LOOKUP, IndexOfKey;
    RowOf(rows[i]);
  }

  /**
   What the documented keys accept: a port any number of 16 bits, the other numbers any of 32, a flag both words, and a
   name or path any string of up to 126 characters.
   */
  lemma DocumentedKeys(key: string, n: nat, b: bool, t: string)
    requires '"' !in t && '\n' !in t
    ensures key in PORTS ==>
              Writable(Setting(key, Number(n))) &&
              Stored(Setting(key, Number(n))) == if n < 65536 then Written(Number(n)) else Rejected
    ensures key in NUMBERS ==>
              Writable(Setting(key, Number(n))) &&
              (Stored(Setting(key, Number(n))) == Written(Number(n)) <==> n < 0x1_0000_0000)
    ensures key in FLAGS ==> Writable(Setting(key, Flag(b))) && Stored(Setting(key, Flag(b))) == Written(Flag(b))
    ensures key in TEXTS ==>
              Writable(Setting(key, Text(t))) &&
              Stored(Setting(key, Text(t))) == if |t| <= 126 then Written(Text(t)) else Rejected
  {
    SmallRows();
    NumberRows();
    TextRows();
    hide LOOKUP, IndexOfKey, Rows, PORTS, NUMBERS, FLAGS, TEXTS, PORT_ROWS, NUMBER_ROWS, FLAG_ROWS, TEXT_ROWS;
    if i :| 0 <= i < |PORTS| && PORTS[i] == key { RowMeans(PORT_ROWS, PORTS, U16, 2, i); }
    if i :| 0 <= i < |NUMBERS| && NUMBERS[i] == key { RowMeans(NUMBER_ROWS, NUMBERS, U32, 4, i); }
    if i :| 0 <= i < |FLAGS| && FLAGS[i] == key { RowMeans(FLAG_ROWS, FLAGS, Bool, 1, i); }
    if i :| 0 <= i < |TEXTS| && TEXTS[i] == key { RowMeans(TEXT_ROWS, TEXTS, Char, 128, i); }
  }
}
