/** From the configuration file to the answer for a path: the scanner, the MIME compiler and the lookup together. */
module ConfiguredMime {
  import opened Bytes
  import opened MimeTable
  import opened MimeSyntax
  import opened MimeLookup
  import opened ConfFile

  const MIME_ROW: nat := 20

  lemma MimeRow()
    ensures |LOOKUP| == 22 && LOOKUP[MIME_ROW] == ConfFile.Lookup("MIME", Mime, MIME_SIZE)
    ensures forall i :: 0 <= i < MIME_ROW ==> LOOKUP[i].key != "MIME"
  {
    assert forall i :: 0 <= i < 8 ==> |LOOKUP[i].key| != 4 || LOOKUP[i].key[0] != 'M';
    assert forall i :: 8 <= i < MIME_ROW ==> |LOOKUP[i].key| != 4 || LOOKUP[i].key[0] != 'M';
  }

  lemma MimeIndex()
    ensures IndexOfKey("MIME", 0) == MIME_ROW
  {
    hide LOOKUP;
    MimeRow();
    IndexOfKeyIs("MIME", 0);
    IndexOfKeyFirst("MIME", 0, MIME_ROW);
  }

  /** The effect of a MIME line is what the compiler makes of the text behind its blanks. */
  lemma MimeLineEffect(buf: string, len: nat, q: nat, ap: PortsParser)
    requires IsConf(buf, len) && q < len && MatchAt(buf, q, "MIME ")
    ensures var c := Compile(buf, SkipBlanks(buf, q + 4), NUL);
            EffectAt(buf, len, q, ap) ==
            if !c.ok then Fails else if c.out == "" then Nothing else Sets("MIME", Text(c.out))
  {
    hide LOOKUP, Find, Compile, SkipBlanks, IndexOfKey, EffectAt;
    var m := buf[q..q + 5];
    assert m == "MIME " && buf[q] == m[0] == 'M' && buf[q + 4] == m[4] == ' ';
    assert forall i :: q <= i < q + 4 ==> buf[i] == m[i - q] != ' ';
    FindIs(buf, q, Clip(buf, q + KEY_MAX), ' ', q + 4);
    assert buf[q..q + 4] == m[..4] == "MIME";
    MimeIndex();
    MimeRow();
    EffectIs(buf, len, q, ap);
  }

  /** One MIME line whose value does not start with the brace is enough to have the whole file refused. */
  lemma BraceMissingRefuses(buf: string, len: nat, conf: Conf, ap: PortsParser, q: nat)
    requires IsConf(buf, len) && q < len && LineStart(buf, q) && MatchAt(buf, q, "MIME ")
    requires CharAt(buf, SkipBlanks(buf, q + 4)) != '{'
    ensures Fold(buf, len, 0, conf, ap) == Error
  {
    hide EffectAt, Fold, Compile, SkipBlanks;
    MimeLineEffect(buf, len, q, ap);
    BraceFirst(buf, SkipBlanks(buf, q + 4), NUL);
    RefusedIff(buf, len, 0, conf, ap);
  }

  /** A line that holds a MIME block in front of which the window stays clean sets the compact table. */
  lemma MimeLineSets(buf: string, len: nat, q: nat, ap: PortsParser, close: nat, es: seq<Entry>, trail: string)
    requires IsConf(buf, len) && q < len && MatchAt(buf, q, "MIME ")
    requires var base := SkipBlanks(buf, q + 4);
             BlockAt(buf, base, close, es, trail) && close - base < MIME_SIZE
    requires es != [] && WindowClean(buf, close, |es|)
    ensures EffectAt(buf, len, q, ap) == Sets("MIME", Text(Compact(es)))
  {
    hide Compile, BlockAt, WindowClean, SkipBlanks, EffectAt;
    MimeLineEffect(buf, len, q, ap);
    CompileIff(buf, SkipBlanks(buf, q + 4), close, es, trail, NUL);
    CompactEnds(es);
  }

  /**
   If the last line of the file that sets MIME holds a well-formed block with a clean window, then after `_conf_parse`
   the lookup of any extension in the configured string is the first entry of that block that lists it.
   */
  lemma ConfiguredLookup(buf: string, len: nat, conf: Conf, ap: PortsParser, q: nat, close: nat, es: seq<Entry>,
                         trail: string, ext: string)
    requires IsConf(buf, len) && q < len && LineStart(buf, q) && MatchAt(buf, q, "MIME ")
    requires var base := SkipBlanks(buf, q + 4);
             BlockAt(buf, base, close, es, trail) && close - base < MIME_SIZE
    requires es != [] && WindowClean(buf, close, |es|)
    requires forall r :: q < r < len && LineStart(buf, r) ==>
               !(EffectAt(buf, len, r, ap).Sets? && EffectAt(buf, len, r, ap).key == "MIME")
    requires Fold(buf, len, 0, conf, ap).Done?
    ensures var c := Fold(buf, len, 0, conf, ap).conf;
            "MIME" in c && c["MIME"].Text? && ScanTable(c["MIME"].s, 0, ext) == FirstMatch(es, ext)
  {
    hide EffectAt, Fold, Compact, BlockAt, WindowClean, ScanTable, EntriesText;
    MimeLineSets(buf, len, q, ap, close, es, trail);
    LastWins(buf, len, 0, conf, ap, q);
    assert EntriesOk(es) by { BlockEntries(buf, SkipBlanks(buf, q + 4), close, es, trail); }
    LookupCompact(es, ext);
  }

  lemma BlockEntries(buf: string, base: nat, close: nat, es: seq<Entry>, trail: string)
    requires BlockAt(buf, base, close, es, trail)
    ensures EntriesOk(es)
  {
  }
}
