/**
 What the MIME compiler is for: a well-formed block compiles to its compact table.  The block is given as a
 concrete syntax tree whose gaps are arbitrary text, so every layout of the same table is covered.
 */
module MimeSyntax {
  import opened Bytes
  import opened MimeTable

  /** One `"name"`, with the text before its opening and after its closing quote. */
  datatype Ext = Ext(gap: string, name: string, tail: string)

  /** One `"typ": [exts]`, with the text in front of each part. */
  datatype Entry = Entry(lead: string, typ: string, mid: string, exts: seq<Ext>)

  predicate Without(s: string, bad: string) {
    forall i :: 0 <= i < |s| ==> s[i] !in bad
  }

  predicate ExtOk(e: Ext) {
    && Without(e.gap, "\"]}")
    && e.name != "" && Without(e.name, "\",]}\0")
    && Without(e.tail, ",]}")
  }

  predicate EntryOk(e: Entry) {
    && Without(e.lead, "\"}") && Without(e.typ, "\"[}\0") && Without(e.mid, "[}")
    && e.exts != [] && (forall i :: 0 <= i < |e.exts| ==> ExtOk(e.exts[i]))
  }

  predicate EntriesOk(es: seq<Entry>) {
    forall i :: 0 <= i < |es| ==> EntryOk(es[i])
  }

  function ExtText(e: Ext): string {
    e.gap + ("\"" + (e.name + ("\"" + e.tail)))
  }

  function ExtsText(es: seq<Ext>): string {
    if es == [] then "" else if |es| == 1 then ExtText(es[0]) else ExtText(es[0]) + ("," + ExtsText(es[1..]))
  }

  function EntryText(e: Entry): string {
    e.lead + ("\"" + (e.typ + ("\"" + (e.mid + ("[" + (ExtsText(e.exts) + "]"))))))
  }

  function EntriesText(es: seq<Entry>): string {
    if es == [] then "" else EntryText(es[0]) + EntriesText(es[1..])
  }

  // ---------------------------------------------------------------- the compact table

  function Names(es: seq<Ext>): string {
    if es == [] then "" else if |es| == 1 then es[0].name else es[0].name + ("," + Names(es[1..]))
  }

  function CompactEntry(e: Entry): string {
    e.typ + ("[" + (Names(e.exts) + "]"))
  }

  function Compact(es: seq<Entry>): string {
    if es == [] then "" else CompactEntry(es[0]) + Compact(es[1..])
  }

  // ---------------------------------------------------------------- reading known text

  lemma {:induction false} ExtsTextWithout(es: seq<Ext>)
    requires forall i :: 0 <= i < |es| ==> ExtOk(es[i])
    ensures Without(ExtsText(es), "]}")
  {
    if |es| > 1 { ExtsTextWithout(es[1..]); }
  }

  lemma {:induction false} EntriesTextWithout(es: seq<Entry>)
    requires EntriesOk(es)
    ensures Without(EntriesText(es), "}")
  {
    if es != [] {
      ExtsTextWithout(es[0].exts);
      EntriesTextWithout(es[1..]);
    }
  }

  lemma RegroupFive(a: string, b: string, c: string, d: string, e: string)
    ensures a + b + c + d + e == a + (b + (c + d)) + e
  {
  }

  // ---------------------------------------------------------------- the inner loop

  /** Where the parts of one extension stand in the text. */
  ghost predicate ExtAt(buf: string, p: nat, q: nat, c: nat, t: nat, e: Ext) {
    && p <= q < c < t <= |buf|
    && buf[p..q] == e.gap && buf[q] == '"'
    && buf[q + 1..c] == e.name && buf[c] == '"'
    && buf[c + 1..t] == e.tail
  }

  lemma ExtLayout(buf: string, p: nat, t: nat, e: Ext)
    requires p <= t <= |buf| && buf[p..t] == ExtText(e)
    ensures ExtAt(buf, p, p + |e.gap|, p + |e.gap| + 1 + |e.name|, t, e)
  {
    SplitAt(buf, p, t, e.gap, '"', e.name + ("\"" + e.tail));
    SplitAt(buf, p + |e.gap| + 1, t, e.name, '"', e.tail);
  }

  /** One extension: the walk copies exactly its name, and goes on at the comma when there is one. */
  lemma ExtRound(buf: string, p: nat, q: nat, c: nat, t: nat, x: nat, e: Ext, out: string)
    requires ExtAt(buf, p, q, c, t, e) && t <= x <= |buf| && ExtOk(e)
    requires t == x || buf[t] == ','
    ensures p < x
    ensures ExtWalk(buf, p, x, out) ==
            if t == x then Halt(Compiled(true, out + e.name + "]")) else Next(t, out + e.name + ",")
  {
    hide Find;
    SliceFree(buf, p, q, e.gap, '"');
    SliceFree(buf, q + 1, c, e.name, '"');
    SliceFree(buf, q + 1, c, e.name, ',');
    SliceFree(buf, c + 1, t, e.tail, ',');
    FindIs(buf, p, x, '"', q);
    FindIs(buf, q + 1, x, '"', c);
    FindIs(buf, q + 1, x, ',', t);
  }

  lemma {:induction false} ExtsCorrect(buf: string, p: nat, x: nat, es: seq<Ext>, out: string)
    requires p <= x <= |buf| && es != [] && buf[p..x] == ExtsText(es)
    requires forall i :: 0 <= i < |es| ==> ExtOk(es[i])
    ensures ExtsWalk(buf, p, x, out) == Compiled(true, out + Names(es) + "]")
    decreases |es|
  {
    hide ExtWalk, Find, ExtText;
    var q, c := p + |es[0].gap|, p + |es[0].gap| + 1 + |es[0].name|;
    if |es| == 1 {
      ExtLayout(buf, p, x, es[0]);
      ExtRound(buf, p, q, c, x, x, es[0], out);
    } else {
      var rest := "," + ExtsText(es[1..]);
      Split(buf, p, x, ExtText(es[0]), rest);
      var t := x - |rest|;
      assert buf[t..x][0] == ',';
      ExtLayout(buf, p, t, es[0]);
      ExtRound(buf, p, q, c, t, x, es[0], out);
      // The comma the walk stops at reads as part of the next extension's gap.
      var es' := WithGap(es[1..], ",");
      ExtsCorrect(buf, t, x, es', out + es[0].name + ",");
      RegroupFive(out, es[0].name, ",", Names(es'), "]");
    }
  }

  /** The same list with `more` in front of its first gap. */
  function WithGap(es: seq<Ext>, more: string): (r: seq<Ext>)
    requires es != []
    requires Without(more, "\"]}")
    ensures |r| == |es| && ExtsText(r) == more + ExtsText(es) && Names(r) == Names(es)
    ensures (forall i :: 0 <= i < |es| ==> ExtOk(es[i])) ==> forall i :: 0 <= i < |r| ==> ExtOk(r[i])
  {
    var e := es[0].(gap := more + es[0].gap);
    var r := [e] + es[1..];
    assert r[1..] == es[1..];
    assert ExtText(e) == more + ExtText(es[0]);
    assert |es| > 1 ==> ExtsText(r) == more + (ExtText(es[0]) + ("," + ExtsText(es[1..])));
    assert forall i :: 1 <= i < |r| ==> r[i] == es[i];
    r
  }

  // ---------------------------------------------------------------- the outer loop

  /** Where the parts of one entry stand in the text; `x` is its closing bracket. */
  ghost predicate EntryAt(buf: string, p: nat, q: nat, e: nat, b: nat, x: nat, entry: Entry) {
    && p <= q < e < b < x < |buf|
    && buf[p..q] == entry.lead && buf[q] == '"'
    && buf[q + 1..e] == entry.typ && buf[e] == '"'
    && buf[e + 1..b] == entry.mid && buf[b] == '['
    && buf[b + 1..x] == ExtsText(entry.exts) && buf[x] == ']'
  }

  lemma EntryLayout(buf: string, p: nat, t: nat, entry: Entry)
    requires p <= t <= |buf| && buf[p..t] == EntryText(entry)
    ensures var q := p + |entry.lead|; var e := q + 1 + |entry.typ|; var b := e + 1 + |entry.mid|;
            EntryAt(buf, p, q, e, b, t - 1, entry)
  {
    hide ExtsText;
    var q := p + |entry.lead|;
    var e := q + 1 + |entry.typ|;
    var list := ExtsText(entry.exts) + "]";
    var mid := entry.mid + ("[" + list);
    SplitAt(buf, p, t, entry.lead, '"', entry.typ + ("\"" + mid));
    SplitAt(buf, q + 1, t, entry.typ, '"', mid);
    SplitAt(buf, e + 1, t, entry.mid, '[', list);
    ListEnds(buf, e + 1 + |entry.mid| + 1, t, ExtsText(entry.exts));
  }

  lemma ListEnds(buf: string, p: nat, t: nat, exts: string)
    requires p <= t <= |buf| && buf[p..t] == exts + "]"
    ensures p < t && buf[p..t - 1] == exts && buf[t - 1] == ']'
  {
    assert exts + "]" == exts + ("]" + "");
    SplitAt(buf, p, t, exts, ']', "");
  }

  /** Where the parts of an extension list stand; `e` is behind the type's closing quote. */
  ghost predicate ListStands(buf: string, e: nat, b: nat, x: nat, mid: string, exts: seq<Ext>) {
    && e <= b < x < |buf|
    && buf[e..b] == mid && Without(mid, "[}") && buf[b] == '['
    && buf[b + 1..x] == ExtsText(exts) && buf[x] == ']'
    && exts != [] && (forall i :: 0 <= i < |exts| ==> ExtOk(exts[i]))
  }

  lemma ListFinds(buf: string, e: nat, b: nat, x: nat, hi: nat, mid: string, exts: seq<Ext>)
    requires ListStands(buf, e, b, x, mid, exts) && x < hi <= |buf|
    ensures e <= b < x && Find(buf, e, hi, '[') == b && Find(buf, b + 1, hi, ']') == x
  {
    hide Find, ExtsText;
    SliceFree(buf, e, b, mid, '[');
    FindIs(buf, e, hi, '[', b);
    ExtsTextWithout(exts);
    SliceFree(buf, b + 1, x, ExtsText(exts), ']');
    FindIs(buf, b + 1, hi, ']', x);
  }

  lemma ListExts(buf: string, e: nat, b: nat, x: nat, mid: string, exts: seq<Ext>, out: string)
    requires ListStands(buf, e, b, x, mid, exts)
    ensures b < x < |buf| && ExtsWalk(buf, b + 1, x, out) == Compiled(true, out + Names(exts) + "]")
  {
    hide ExtsWalk, ExtsText, Names, ExtOk, Without;
    ExtsCorrect(buf, b + 1, x, exts, out);
  }

  lemma ListOf(buf: string, e: nat, b: nat, x: nat, end: nat, typed: string, r: string)
    requires e <= b < x < |buf| && x < end
    requires Find(buf, e, Clip(buf, end), '[') == b && Find(buf, b + 1, Clip(buf, end), ']') == x
    requires ExtsWalk(buf, b + 1, x, typed + "[") == Compiled(true, r)
    ensures ListWalk(buf, e, end, typed) == Next(x, r)
  {
    hide Find, ExtsWalk;
  }

  lemma ListRound(buf: string, e: nat, b: nat, x: nat, end: nat, mid: string, exts: seq<Ext>, typed: string)
    requires ListStands(buf, e, b, x, mid, exts) && x < end
    ensures e <= |buf| && e <= end
    ensures ListWalk(buf, e, end, typed) == Next(x, typed + "[" + Names(exts) + "]")
  {
    hide Find, ExtsWalk, ListWalk, Names, ListStands;
    ListExts(buf, e, b, x, mid, exts, typed + "[");
    assert x < Clip(buf, end) <= |buf|;
    ListFinds(buf, e, b, x, Clip(buf, end), mid, exts);
    ListOf(buf, e, b, x, end, typed, typed + "[" + Names(exts) + "]");
  }

  /** One entry: the walk emits exactly its compact form and stops on its closing bracket. */
  lemma EntryRound(buf: string, p: nat, q: nat, e: nat, b: nat, x: nat, end: nat, entry: Entry, out: string,
                   before: char)
    requires EntryAt(buf, p, q, e, b, x, entry) && EntryOk(entry) && x < end
    ensures EntryWalk(buf, p, end, out, before) == Next(x, out + CompactEntry(entry))
  {
    hide Find, ListWalk;
    var hi := Clip(buf, end);
    SliceFree(buf, p, q, entry.lead, '"');
    SliceFree(buf, q + 1, e, entry.typ, '"');
    FindIs(buf, p, hi, '"', q);
    FindIs(buf, q + 1, hi, '"', e);
    ListRound(buf, e + 1, b, x, end + 1, entry.mid, entry.exts, out + entry.typ);
    RegroupFive(out, entry.typ, "[", Names(entry.exts), "]");
    assert out + (entry.typ + ("[" + Names(entry.exts))) + "]" == out + CompactEntry(entry);
  }

  lemma LeadText(e: Entry, more: string)
    ensures EntryText(e.(lead := more + e.lead)) == more + EntryText(e)
  {
    hide ExtsText;
    Regroup(more, e.lead, "\"" + (e.typ + ("\"" + (e.mid + ("[" + (ExtsText(e.exts) + "]"))))));
  }

  /** The same entries with `more` in front of their first lead. */
  function WithLead(es: seq<Entry>, more: string): (r: seq<Entry>)
    requires es != [] && EntriesOk(es) && Without(more, "\"}")
    ensures |r| == |es| && EntriesOk(r) && EntriesText(r) == more + EntriesText(es) && Compact(r) == Compact(es)
  {
    var e := es[0].(lead := more + es[0].lead);
    var r := [e] + es[1..];
    assert r[1..] == es[1..];
    LeadText(es[0], more);
    assert CompactEntry(e) == CompactEntry(es[0]);
    assert forall i :: 1 <= i < |r| ==> r[i] == es[i];
    r
  }

  lemma FirstRound(buf: string, p: nat, t: nat, end: nat, entry: Entry, out: string, before: char)
    requires p <= t <= |buf| && t <= end && buf[p..t] == EntryText(entry) && EntryOk(entry)
    ensures p < t - 1 && buf[t - 1] == ']'
    ensures EntriesWalk(buf, p, end, out, before) == EntriesWalk(buf, t - 1, end + 1, out + CompactEntry(entry), before)
  {
    hide EntryText, EntryOk, Find, EntryWalk;
    var q := p + |entry.lead|;
    var e := q + 1 + |entry.typ|;
    var b := e + 1 + |entry.mid|;
    EntryLayout(buf, p, t, entry);
    EntryRound(buf, p, q, e, b, t - 1, end, entry, out, before);
  }

  lemma Peel(es: seq<Entry>, trail: string, out: string)
    requires es != []
    ensures EntriesText(es) + trail == EntryText(es[0]) + (EntriesText(es[1..]) + trail)
    ensures out + CompactEntry(es[0]) + Compact(es[1..]) == out + Compact(es)
  {
    hide EntryText, CompactEntry;
    Regroup(EntryText(es[0]), EntriesText(es[1..]), trail);
    Regroup(out, CompactEntry(es[0]), Compact(es[1..]));
  }

  lemma SliceCons(buf: string, p: nat, x: nat, c: char, rest: string)
    requires p < x <= |buf| && buf[p] == c && buf[p + 1..x] == rest
    ensures buf[p..x] == [c] + rest
  {
  }

  /** Reading the first entry leaves the walk on its closing bracket, in front of the other entries. */
  lemma EntriesStep(buf: string, p: nat, close: nat, end: nat, es: seq<Entry>, trail: string, out: string, before: char)
    returns (x: nat)
    requires p <= close < |buf| && close <= end && buf[p..close] == EntriesText(es) + trail
    requires EntriesOk(es) && es != []
    ensures x < close && buf[x..close] == "]" + (EntriesText(es[1..]) + trail)
    ensures EntriesWalk(buf, p, end, out, before) == EntriesWalk(buf, x, end + 1, out + CompactEntry(es[0]), before)
  {
    hide EntryText, CompactEntry, EntryOk, EntriesWalk, EntriesText;
    var rest := EntriesText(es[1..]) + trail;
    Peel(es, trail, out);
    Split(buf, p, close, EntryText(es[0]), rest);
    var t := close - |rest|;
    FirstRound(buf, p, t, end, es[0], out, before);
    SliceCons(buf, t - 1, close, ']', rest);
    x := t - 1;
  }

  lemma LastEntry(es: seq<Entry>, trail: string, out: string)
    requires |es| <= 1
    ensures EntriesText(es[|es|..]) + trail == trail
    ensures es == [] ==> EntriesText(es) + trail == trail && out + Compact(es) == out
    ensures es != [] ==> out + CompactEntry(es[0]) == out + Compact(es)
  {
    hide CompactEntry, EntryText;
    if es != [] {
      Peel(es, trail, out);
      assert out + CompactEntry(es[0]) + Compact(es[1..]) == out + CompactEntry(es[0]);
    }
  }

  /**
   After the last entry the walk stands in front of the trailing text (on the closing bracket, if there was an
   entry), has emitted exactly the compact table, and its window ends one byte too far per entry.
   */
  lemma {:induction false} EntriesReach(buf: string, p: nat, close: nat, k: nat, es: seq<Entry>, trail: string,
                                        out: string, before: char) returns (p': nat)
    requires p <= close < |buf| && buf[p..close] == EntriesText(es) + trail
    requires EntriesOk(es)
    ensures p' <= close && buf[p'..close] == if es == [] then trail else "]" + trail
    ensures EntriesWalk(buf, p, close + k, out, before) ==
            EntriesWalk(buf, p', close + k + |es|, out + Compact(es), before)
    decreases |es|
  {
    hide EntryText, CompactEntry, EntryOk, EntriesWalk, EntriesText, Compact;
    if es == [] {
      p' := p;
      LastEntry(es, trail, out);
    } else {
      var x := EntriesStep(buf, p, close, close + k, es, trail, out, before);
      if |es| == 1 {
        p' := x;
        LastEntry(es, trail, out);
      } else {
        var es' := WithLead(es[1..], "]");
        Regroup("]", EntriesText(es[1..]), trail);
        Peel(es, trail, out);
        p' := EntriesReach(buf, x, close, k + 1, es', trail, out + CompactEntry(es[0]), before);
      }
    }
  }

  // ---------------------------------------------------------------- the whole block

  /** `buf` holds the block `{ es trail }` with its braces at `base` and `close`. */
  ghost predicate BlockAt(buf: string, base: nat, close: nat, es: seq<Entry>, trail: string) {
    && base < close < |buf|
    && buf[base] == '{' && buf[close] == '}'
    && buf[base + 1..close] == EntriesText(es) + trail
    && EntriesOk(es) && Without(trail, "\"}")
  }

  /** No quote among the `k` bytes from the closing brace on that the drifted window still covers. */
  ghost predicate WindowClean(buf: string, close: nat, k: nat) {
    forall i :: close <= i < close + k && i < |buf| ==> buf[i] != '"'
  }

  /** What is left to do once every entry has been read. */
  lemma LastRound(buf: string, p: nat, close: nat, k: nat, gap: string, out: string, before: char)
    requires p <= close < |buf| && buf[p..close] == gap && Without(gap, "\"}")
    ensures EntriesWalk(buf, p, close + k, out, before) == Compiled(true, out) <==>
            (p == close && k == 0) || (LastByte(out, before) == ']' && WindowClean(buf, close, k))
  {
    hide Find, ListWalk;
    SliceFree(buf, p, close, gap, '"');
    if p < close + k {
      var hi := Clip(buf, close + k);
      FindFirst(buf, p, hi, '"');
      if WindowClean(buf, close, k) {
        FindIs(buf, p, hi, '"', hi);
      }
    }
  }

  /** The braces are found and the size check passes exactly when at most 1022 bytes stand between them. */
  lemma BracesFound(buf: string, base: nat, close: nat, es: seq<Entry>, trail: string, before: char)
    requires BlockAt(buf, base, close, es, trail)
    ensures Compile(buf, base, before) ==
            if close - base < MIME_SIZE then EntriesWalk(buf, base + 1, close, "", before) else Compiled(false, "")
  {
    hide Find, EntriesWalk, EntriesText;
    EntriesTextWithout(es);
    var hi := Clip(buf, base + MIME_SIZE - 1);
    FindIs(buf, base, hi, '{', base);
    var inner := EntriesText(es) + trail;
    SliceFree(buf, base + 1, close, inner, '}');
    var limit := Clip(buf, base + 1 + MIME_SIZE - 1);
    if close < limit {
      FindIs(buf, base + 1, limit, '}', close);
    } else {
      FindIs(buf, base + 1, limit, '}', limit);
    }
  }

  lemma CompactEnds(es: seq<Entry>)
    requires es != []
    ensures Compact(es) != "" && Compact(es)[|Compact(es)| - 1] == ']'
  {
    if |es| > 1 { CompactEnds(es[1..]); } else { assert Compact(es) == CompactEntry(es[0]) + ""; }
  }

  lemma FullTableIff(buf: string, p: nat, close: nat, es: seq<Entry>, trail: string, before: char)
    requires p <= close < |buf| && buf[p..close] == "]" + trail && Without(trail, "\"}")
    requires es != []
    ensures EntriesWalk(buf, p, close + |es|, Compact(es), before) == Compiled(true, Compact(es)) <==>
            WindowClean(buf, close, |es|)
  {
    hide EntriesWalk, Compact, WindowClean, Without;
    CompactEnds(es);
    Bracketed(trail);
    LastRound(buf, p, close, |es|, "]" + trail, Compact(es), before);
  }

  lemma EmptyTableIff(buf: string, p: nat, close: nat, trail: string, before: char)
    requires p <= close < |buf| && buf[p..close] == trail && Without(trail, "\"}")
    ensures EntriesWalk(buf, p, close, "", before) == Compiled(true, "") <==> trail == "" || before == ']'
  {
    hide EntriesWalk, WindowClean, Without;
    LastRound(buf, p, close, 0, trail, "", before);
    WindowEmpty(buf, close);
    assert |trail| == close - p;
  }

  lemma TableEnd(buf: string, p: nat, close: nat, es: seq<Entry>, trail: string, before: char) returns (p': nat)
    requires p <= close < |buf| && buf[p..close] == EntriesText(es) + trail
    requires EntriesOk(es) && es != []
    ensures p' <= close && buf[p'..close] == "]" + trail
    ensures EntriesWalk(buf, p, close, "", before) == EntriesWalk(buf, p', close + |es|, Compact(es), before)
  {
    hide EntriesWalk, EntriesOk, EntriesText, Compact;
    p' := EntriesReach(buf, p, close, 0, es, trail, "", before);
    NoPrefix(es);
  }

  lemma NonemptyIff(buf: string, p: nat, close: nat, es: seq<Entry>, trail: string, before: char)
    requires p <= close < |buf| && buf[p..close] == EntriesText(es) + trail
    requires EntriesOk(es) && Without(trail, "\"}") && es != []
    ensures EntriesWalk(buf, p, close, "", before) == Compiled(true, Compact(es)) <==> WindowClean(buf, close, |es|)
  {
    hide EntriesWalk, EntriesOk, EntriesText, Compact, WindowClean, Without;
    var p' := TableEnd(buf, p, close, es, trail, before);
    FullTableIff(buf, p', close, es, trail, before);
  }

  lemma EntriesIff(buf: string, p: nat, close: nat, es: seq<Entry>, trail: string, before: char)
    requires p <= close < |buf| && buf[p..close] == EntriesText(es) + trail
    requires EntriesOk(es) && Without(trail, "\"}")
    ensures EntriesWalk(buf, p, close, "", before) == Compiled(true, Compact(es)) <==>
            if es == [] then trail == "" || before == ']' else WindowClean(buf, close, |es|)
  {
    hide EntriesWalk, EntriesOk, EntriesText, Compact, WindowClean, Without;
    if es == [] {
      NoEntries(es, trail);
      EmptyTableIff(buf, p, close, trail, before);
    } else {
      NonemptyIff(buf, p, close, es, trail, before);
    }
  }

  lemma WindowEmpty(buf: string, close: nat)
    ensures WindowClean(buf, close, 0)
  {
  }

  lemma NoPrefix(es: seq<Entry>)
    ensures "" + Compact(es) == Compact(es)
  {
  }

  lemma Bracketed(trail: string)
    requires Without(trail, "\"}")
    ensures Without("]" + trail, "\"}")
  {
  }

  lemma NoEntries(es: seq<Entry>, trail: string)
    requires es == []
    ensures Compact(es) == "" && EntriesText(es) + trail == trail
  {
  }

  /**
   A well-formed block compiles to its compact table exactly when at most 1022 bytes stand between the braces and
   the one-byte-per-entry drift of the scan window meets no quote behind the closing brace.
   */
  lemma CompileIff(buf: string, base: nat, close: nat, es: seq<Entry>, trail: string, before: char)
    requires BlockAt(buf, base, close, es, trail)
    ensures Compile(buf, base, before) == Compiled(true, Compact(es)) <==>
            && close - base < MIME_SIZE
            && if es == [] then trail == "" || before == ']' else WindowClean(buf, close, |es|)
  {
    hide EntriesWalk, EntryOk, EntriesText, Find, Compile, Compact;
    BracesFound(buf, base, close, es, trail, before);
    EntriesIff(buf, base + 1, close, es, trail, before);
  }

  /** What stands behind the block when the next line of the file sets the default type. */
  const NEXT_LINE := "}\nMIME_DEFAULT \""

  lemma NextLineQuote()
    ensures |NEXT_LINE| == 16 && forall i :: 0 <= i < 16 ==> (NEXT_LINE[i] == '"' <==> i == 15)
  {
  }

  /**
   The drift is real: when the default type is set on the line behind the block, the block compiles to its table exactly
   when it has at most fifteen types.  From the sixteenth on the window reaches the quote of the default.
   */
  lemma SixteenTypesBreak(buf: string, base: nat, close: nat, es: seq<Entry>, trail: string, before: char)
    requires BlockAt(buf, base, close, es, trail) && close - base < MIME_SIZE && es != []
    requires MatchAt(buf, close, NEXT_LINE)
    ensures Compile(buf, base, before) == Compiled(true, Compact(es)) <==> |es| < 16
  {
    hide Compile, Compact, EntriesText, EntriesOk, NEXT_LINE;
    CompileIff(buf, base, close, es, trail, before);
    NextLineQuote();
    var m := buf[close..close + 16];
    assert m == NEXT_LINE;
    forall i | close <= i < close + 16 ensures buf[i] == '"' <==> i == close + 15 { assert buf[i] == m[i - close]; }
    assert WindowClean(buf, close, |es|) <==> |es| < 16 by {
      if |es| >= 16 { assert buf[close + 15] == '"'; }
    }
  }

  /** The shortest table of `n` types: each with one extension of one letter, on a line of its own. */
  function Plain(n: nat): (es: seq<Entry>)
    ensures |es| == n && EntriesOk(es)
  {
    seq(n, _ => Entry("\n", "t", "", [Ext("", "e", "")]))
  }

  lemma {:induction false} PlainText(n: nat)
    ensures |EntriesText(Plain(n))| == 9 * n
  {
    if n > 0 {
      assert Plain(n)[1..] == Plain(n - 1);
      PlainText(n - 1);
      assert EntryText(Plain(n)[0]) == "\n\"t\"" + ("[" + ("\"e\"" + "]"));
    }
  }

  /** Sixteen types on sixteen lines, then the default type: a file the compiler does not read as written. */
  lemma DriftExample()
    ensures var es := Plain(16);
            Compile("{" + EntriesText(es) + (NEXT_LINE + "x/y\"\n"), 0, NUL) != Compiled(true, Compact(es))
  {
    hide Compile, Compact, EntriesText, NEXT_LINE;
    var es := Plain(16);
    var inner := EntriesText(es);
    PlainText(16);
    NextLineQuote();
    var buf := "{" + inner + (NEXT_LINE + "x/y\"\n");
    assert buf[1..145] == inner + "";
    assert buf[145..161] == NEXT_LINE;
    assert NEXT_LINE[0] == '}' by { StartsWithBrace(); }
    assert buf[145] == NEXT_LINE[0];
    SixteenTypesBreak(buf, 0, 145, es, "", NUL);
  }

  lemma StartsWithBrace()
    ensures |NEXT_LINE| > 0 && NEXT_LINE[0] == '}'
  {
  }
}
