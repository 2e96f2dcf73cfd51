/**
 Conditional requests: printing the entity tag (`_get_etag`, src/net_http.c), reading it back from `If-None-Match`
 (`_header_parse`), and the two places that decide on a 304 (`net_http_res_build` and `net_443_res_write`).
 Sections 8.8.3 and 13.1.2 of RFC 9110 describe the exchange.
 */
module Conditional {
  import opened Bytes

  /** `sizeof(http_res->etag)` and `sizeof(http_req->etag)`. */
  const ETAG_SIZE: nat := 32

  function FullTag(mtime: nat, size: nat): string {
    Decimal(mtime) + ("_" + Decimal(size))
  }

  /** `snprintf(dst, 32, "%lu_%lu", ...)`: at most 31 characters survive. */
  function Tag(mtime: nat, size: nat): (t: string)
    ensures |t| < ETAG_SIZE
  {
    var full := FullTag(mtime, size);
    full[..Min(|full|, ETAG_SIZE - 1)]
  }

  predicate Fits(mtime: nat, size: nat) {
    |FullTag(mtime, size)| < ETAG_SIZE
  }

  lemma TagText(mtime: nat, size: nat)
    ensures NUL !in Tag(mtime, size) && '"' !in Tag(mtime, size) && Lower(Tag(mtime, size)) == Tag(mtime, size)
  {
    var full := FullTag(mtime, size);
    assert forall i :: 0 <= i < |full| ==> IsDigit(full[i]) || full[i] == '_';
  }

  /** The underscore is the only character that is not a digit, so it splits the tag uniquely. */
  lemma FullTagInjective(m: nat, s: nat, m': nat, s': nat)
    ensures FullTag(m, s) == FullTag(m', s') <==> m == m' && s == s'
  {
    var a, b, a', b' := Decimal(m), Decimal(s), Decimal(m'), Decimal(s');
    if a + ("_" + b) == a' + ("_" + b') {
      var t := a + ("_" + b);
      assert t[|a|] == '_' && t[|a'|] == '_';
      assert forall i :: 0 <= i < |a| ==> t[i] == a[i];
      assert forall i :: 0 <= i < |a'| ==> t[i] == a'[i];
      assert |a| == |a'|;
      assert a == t[..|a|] == a' && b == t[|a| + 1..] == b';
      DecimalInjective(m, m');
      DecimalInjective(s, s');
    }
  }

  /** Tags that were not cut identify the file's modification time and size. */
  lemma TagInjective(m: nat, s: nat, m': nat, s': nat)
    requires Fits(m, s) && Fits(m', s')
    ensures Tag(m, s) == Tag(m', s') <==> m == m' && s == s'
  {
    assert Tag(m, s) == FullTag(m, s) && Tag(m', s') == FullTag(m', s');
    FullTagInjective(m, s, m', s');
  }

  // ---------------------------------------------------------------- which tags identify their file

  /** Sizes of files are 63-bit numbers. */
  const SIZE_LIMIT: nat := 0x8000_0000_0000_0000

  /** A number printed at the front of a longer one is at most a tenth of it, and not zero. */
  lemma {:induction false} PrefixDigits(a: nat, b: nat)
    requires Decimal(a) < Decimal(b)
    ensures a > 0 && 10 * a <= b
    decreases b
  {
    if b >= 10 {
      var front := Decimal(b / 10);
      assert Decimal(b) == front + [DigitChar(b % 10)];
      if Decimal(a) == front {
        DecimalInjective(a, b / 10);
      } else {
        assert Decimal(a) == front[..|Decimal(a)|];
        PrefixDigits(a, b / 10);
      }
    }
  }

  /** The underscore splits a tag that is the beginning of another one. */
  lemma PrefixSplits(a: string, b: string, a': string, b': string)
    requires '_' !in a && '_' !in b && '_' !in a' && '_' !in b'
    requires a + ("_" + b) <= a' + ("_" + b')
    ensures a == a' && b <= b'
  {
    var t, u := a + ("_" + b), a' + ("_" + b');
    assert t == u[..|t|];
    assert forall i :: 0 <= i < |t| ==> t[i] == u[i];
    assert t[|a|] == '_';
    assert forall i :: 0 <= i < |a'| ==> u[i] == a'[i] != '_';
    assert u[|a'|] == '_';
    assert forall i :: |a'| < i < |u| ==> u[i] == b'[i - |a'| - 1] != '_';
    assert |a| == |a'|;
    assert a == t[..|a|] == u[..|a|] == a';
    assert b == t[|a| + 1..] == u[|a| + 1..|t|] == b'[..|b|];
  }

  /** A tag that was not cut is shared at most by a larger file of the same time, and only if it fills the buffer. */
  lemma SharedBy(m: nat, s: nat, m': nat, s': nat)
    requires Fits(m, s) && Tag(m', s') == Tag(m, s)
    ensures m' == m && (s' == s || (|FullTag(m, s)| == ETAG_SIZE - 1 && s > 0 && s' >= 10 * s))
  {
    var t, u := FullTag(m, s), FullTag(m', s');
    assert Tag(m, s) == t;
    if |u| < ETAG_SIZE {
      FullTagInjective(m, s, m', s');
    } else {
      assert t == u[..ETAG_SIZE - 1];
      PrefixSplits(Decimal(m), Decimal(s), Decimal(m'), Decimal(s'));
      DecimalInjective(m, m');
      PrefixDigits(s, s');
    }
  }

  /** A tag that fills the buffer is also that of a file ten times the size. */
  lemma FullTagsCollide(m: nat, s: nat)
    requires |FullTag(m, s)| == ETAG_SIZE - 1 && s > 0
    ensures Tag(m, 10 * s) == Tag(m, s)
  {
    assert Decimal(10 * s) == Decimal(s) + "0";
    assert FullTag(m, 10 * s) == FullTag(m, s) + "0";
  }

  /** Every tag that was cut is shared with another size, which is no larger than sizes can be. */
  lemma CutTagsCollide(m: nat, s: nat) returns (other: nat)
    requires !Fits(m, s)
    ensures other != s && Tag(m, other) == Tag(m, s) && (s < SIZE_LIMIT ==> other < SIZE_LIMIT)
  {
    other := if s % 10 != 0 then s - s % 10 else s + 1;
    assert other / 10 == s / 10;
    var front := if s < 10 then "" else Decimal(s / 10);
    var base := Decimal(m) + ("_" + front);
    CutSame(m, s, front, base);
    CutSame(m, other, front, base);
    hide Decimal, FullTag, Tag;
  }

  /** What is left of a cut tag does not include the last digit of the size. */
  lemma CutSame(m: nat, s: nat, front: string, base: string)
    requires front == (if s < 10 then "" else Decimal(s / 10)) && base == Decimal(m) + ("_" + front)
    ensures |FullTag(m, s)| == |base| + 1
    ensures |base| >= ETAG_SIZE - 1 ==> Tag(m, s) == base[..ETAG_SIZE - 1]
  {
    var d := DigitChar(s % 10);
    assert Decimal(s) == front + [d];
    LastApart(Decimal(m), front, d);
    hide Decimal;
    assert FullTag(m, s) == base + [d];
    assert |base| >= ETAG_SIZE - 1 ==> (base + [d])[..ETAG_SIZE - 1] == base[..ETAG_SIZE - 1];
  }

  lemma LastApart(a: string, front: string, d: char)
    ensures a + ("_" + (front + [d])) == a + ("_" + front) + [d]
  {
  }

  /** No other time and size below `limit` has this tag. */
  ghost predicate Identifies(m: nat, s: nat, limit: nat) {
    forall m': nat, s': nat :: s' < limit && Tag(m', s') == Tag(m, s) ==> m' == m && s' == s
  }

  /** The tag leaves room in its buffer, or ten times the size is out of bounds. */
  predicate Unshared(m: nat, s: nat) {
    |FullTag(m, s)| < ETAG_SIZE - 1 || (|FullTag(m, s)| == ETAG_SIZE - 1 && (s == 0 || 10 * s >= SIZE_LIMIT))
  }

  /** Which tags identify their file among all files: those `Unshared` accepts, and no others. */
  lemma IdentifiesIff(m: nat, s: nat)
    requires s < SIZE_LIMIT
    ensures Identifies(m, s, SIZE_LIMIT) <==> Unshared(m, s)
  {
    hide Tag, FullTag;
    if Unshared(m, s) {
      forall m': nat, s': nat | s' < SIZE_LIMIT && Tag(m', s') == Tag(m, s) ensures m' == m && s' == s {
        SharedBy(m, s, m', s');
      }
    } else if Fits(m, s) {
      FullTagsCollide(m, s);
    } else {
      var other := CutTagsCollide(m, s);
    }
  }

  /** The same without a bound on sizes. */
  lemma IdentifiesAllIff(m: nat, s: nat)
    ensures (forall m': nat, s': nat :: Tag(m', s') == Tag(m, s) ==> m' == m && s' == s) <==>
            |FullTag(m, s)| < ETAG_SIZE - 1 || (|FullTag(m, s)| == ETAG_SIZE - 1 && s == 0)
  {
    hide Tag, FullTag;
    if |FullTag(m, s)| < ETAG_SIZE - 1 || (|FullTag(m, s)| == ETAG_SIZE - 1 && s == 0) {
      forall m': nat, s': nat | Tag(m', s') == Tag(m, s) ensures m' == m && s' == s {
        SharedBy(m, s, m', s');
      }
    } else if Fits(m, s) {
      FullTagsCollide(m, s);
    } else {
      var other := CutTagsCollide(m, s);
    }
  }

  /** A modification time below 10^11 seconds leaves the tag of every file whole and its own. */
  lemma UsualTagsFit(mtime: nat, size: nat)
    requires mtime < 100_000_000_000 && size < SIZE_LIMIT
    ensures Fits(mtime, size) && Unshared(mtime, size)
  {
    Powers();
    DecimalLength(mtime, 11);
    DecimalLength(size, 19);
    DecimalLength(size, 18);
  }

  lemma Powers()
    ensures Pow10(11) == 100_000_000_000 && Pow10(18) == 1_000_000_000_000_000_000 && Pow10(19) >= SIZE_LIMIT
  {
    assert Pow10(4) == 10_000 by { assert Pow10(2) == 100; }
    assert Pow10(7) == 10_000_000 by { assert Pow10(5) == 100_000; }
    assert Pow10(10) == 10_000_000_000 by { assert Pow10(8) == 100_000_000; }
    assert Pow10(13) == 10_000_000_000_000 by { assert Pow10(11) == 100_000_000_000; }
    assert Pow10(16) == 10_000_000_000_000_000 by { assert Pow10(14) == 100_000_000_000_000; }
    assert Pow10(18) == 1_000_000_000_000_000_000 by { assert Pow10(17) == 100_000_000_000_000_000; }
  }

  /** A file dated one second before 1970, as `%lu` prints it: growing it from 10^9 to 10^10 bytes keeps its tag. */
  lemma EarlyFilesCollide()
    ensures var m := 0xffff_ffff_ffff_ffff;
            Fits(m, 1_000_000_000) && Tag(m, 10_000_000_000) == Tag(m, 1_000_000_000)
  {
    var m := 0xffff_ffff_ffff_ffff;
    assert |Decimal(m)| == 20 by {
      Powers();
      assert Pow10(20) > m && Pow10(19) <= m by { assert Pow10(19) == 10 * Pow10(18) && Pow10(20) == 10 * Pow10(19); }
      DecimalLength(m, 19);
      DecimalLength(m, 20);
    }
    assert |Decimal(1_000_000_000)| == 10 by {
      assert Pow10(9) == 1_000_000_000 by { assert Pow10(6) == 1_000_000 by { assert Pow10(3) == 1000; } }
      assert Pow10(10) == 10 * Pow10(9);
      DecimalLength(1_000_000_000, 9);
      DecimalLength(1_000_000_000, 10);
    }
    FullTagsCollide(m, 1_000_000_000);
  }

  // ---------------------------------------------------------------- the two buffers

  function Zeros(n: nat): (z: string)
    ensures |z| == n && forall i :: 0 <= i < n ==> z[i] == NUL
  {
    seq(n, _ => NUL)
  }

  /** A tag in a buffer that was zeroed first. */
  function Padded(t: string): (b: string)
    requires |t| < ETAG_SIZE
    ensures |b| == ETAG_SIZE
  {
    t + Zeros(ETAG_SIZE - |t|)
  }

  lemma CStrOfPadded(t: string)
    requires |t| < ETAG_SIZE && NUL !in t
    ensures CStr(Padded(t)) == t
  {
    var z := Zeros(ETAG_SIZE - |t|);
    assert Padded(t) == t + [NUL] + z[1..];
    CStrOf(t, z[1..]);
  }

  /** The tag a header value carries: quoted, closed within the value, and short enough. */
  datatype Quoted = NoTag | ATag(t: string)

  function TagOf(value: string): (r: Quoted)
    ensures r.ATag? ==> |r.t| < ETAG_SIZE && '"' !in r.t
  {
    if value == "" || value[0] != '"' then NoTag
    else
      FindFirst(value, 1, |value|, '"');
      var q := Find(value, 1, |value|, '"');
      if q == |value| || q - 1 >= ETAG_SIZE then NoTag else ATag(value[1..q])
  }

  /** A value carries a tag exactly when that stands between two quotes at its beginning and fits the buffer. */
  lemma TagOfIff(value: string, t: string)
    ensures TagOf(value) == ATag(t) <==> '"' !in t && |t| < ETAG_SIZE && "\"" + (t + "\"") <= value
  {
    hide Find;
    var v := "\"" + (t + "\"");
    if TagOf(value) == ATag(t) {
      FindFirst(value, 1, |value|, '"');
      var q := Find(value, 1, |value|, '"');
      assert value[..q + 1] == v;
    }
    if '"' !in t && v <= value {
      assert value[..|v|] == v;
      assert forall i :: 0 <= i < |v| ==> value[i] == v[i];
      FindIs(value, 1, |value|, '"', |t| + 1);
      assert value[1..|t| + 1] == t;
    }
  }

  /** What one `If-None-Match` header does to the request's buffer; the bytes behind the copied NUL stay. */
  function AfterHeader(buf: string, value: string): (r: string)
    requires |buf| == ETAG_SIZE
    ensures |r| == ETAG_SIZE
  {
    match TagOf(value)
    case NoTag => buf
    case ATag(t) => t + [NUL] + buf[|t| + 1..]
  }

  function AfterHeaders(buf: string, values: seq<string>): (r: string)
    requires |buf| == ETAG_SIZE
    ensures |r| == ETAG_SIZE
  {
    if values == [] then buf else AfterHeader(AfterHeaders(buf, values[..|values| - 1]), values[|values| - 1])
  }

  /** The ETAG case of `_header_parse`, on the value between its first non-space and the line end. */
  method ParseEtag(etag: array<char>, value: string)
    requires etag.Length == ETAG_SIZE
    modifies etag
    ensures etag[..] == AfterHeader(old(etag[..]), value)
  {
    hide Find;
    ghost var was := etag[..];
    var start := 0;
    if start < |value| && value[start] == '"' {
      start := start + 1;
    } else {
      return;
    }
    var end := Find(value, start, |value|, '"');
    if end == |value| { return; }
    var etagLen := end - start;
    if etagLen >= ETAG_SIZE { return; }
    Put(etag, 0, value[start..end]);
    etag[etagLen] := NUL;
    assert etag[..] == value[start..end] + [NUL] + was[etagLen + 1..];
  }

  /**
   `_get_etag`: print the file's tag into the zeroed response buffer and compare it, as a C string, with the request's.
   */
  method GetEtag(dst: array<char>, src: array<char>, opens: bool, mtime: nat, size: nat) returns (ret: int)
    requires dst.Length == src.Length == ETAG_SIZE && dst != src && dst[..] == Zeros(ETAG_SIZE)
    modifies dst
    ensures ret == BuildDecision(src[..], opens, mtime, size)
    ensures dst[..] == if opens && NUL in src[..] then Padded(Tag(mtime, size)) else Zeros(ETAG_SIZE)
  {
    hide Find, Tag;
    var etagLen := Find(src[..], 0, ETAG_SIZE, NUL);
    FindFirst(src[..], 0, ETAG_SIZE, NUL);
    if etagLen == ETAG_SIZE { return -1; }
    assert src[etagLen] == NUL;
    if !opens { return -1; }
    var tag := Tag(mtime, size);
    Put(dst, 0, tag + [NUL]);
    assert dst[..] == Padded(tag);
    TagText(mtime, size);
    SameTag(tag, src[..], etagLen);
    if dst[..etagLen + 1] == src[..etagLen + 1] {
      Put(dst, 0, src[..etagLen + 1]);
      assert dst[..] == Padded(tag);
      return 304;
    }
    return 0;
  }

  /** Comparing one byte more than the string in `src` is comparing strings. */
  lemma SameTag(tag: string, src: string, n: nat)
    requires |src| == ETAG_SIZE && n < ETAG_SIZE && n == Find(src, 0, ETAG_SIZE, NUL)
    requires |tag| < ETAG_SIZE && NUL !in tag
    ensures Padded(tag)[..n + 1] == src[..n + 1] <==> CStr(src) == tag
  {
    hide Find;
    FindFirst(src, 0, ETAG_SIZE, NUL);
    var p := Padded(tag);
    assert p[|tag|] == NUL && forall i :: 0 <= i < |tag| ==> p[i] == tag[i] != NUL;
    assert src[..n + 1] == src[..n] + [NUL];
    assert |tag| == n ==> p[..n + 1] == tag + [NUL];
    if p[..n + 1] == src[..n + 1] {
      assert forall i :: 0 <= i <= n ==> p[i] == p[..n + 1][i] == src[..n + 1][i] == src[i];
      assert p[..n] == p[..n + 1][..n] == src[..n];
    }
  }

  // ---------------------------------------------------------------- the two decisions

  /** `_get_etag`'s result: -1, 0 or 304. */
  function BuildDecision(reqEtag: string, opens: bool, mtime: nat, size: nat): int {
    if NUL !in reqEtag || !opens then -1 else if CStr(reqEtag) == Tag(mtime, size) then 304 else 0
  }

  /** `net_443_res_write` compares all 32 bytes again. */
  predicate WriteDecision(resEtag: string, reqEtag: string) {
    resEtag == reqEtag
  }

  // ---------------------------------------------------------------- what several headers leave behind

  /** The tags of the usable headers, in order. */
  function Usable(values: seq<string>): (ts: seq<string>)
    ensures forall i :: 0 <= i < |ts| ==> |ts[i]| < ETAG_SIZE
  {
    if values == [] then []
    else
      match TagOf(values[|values| - 1])
      case NoTag => Usable(values[..|values| - 1])
      case ATag(t) => Usable(values[..|values| - 1]) + [t]
  }

  /** Byte `i` of tag `j` is still in the buffer at the end: no later tag was long enough to reach it. */
  ghost predicate Survives(ts: seq<string>, j: int, i: int) {
    0 <= j < |ts| && 0 <= i < |ts[j]| && ts[j][i] != NUL && forall k :: j < k < |ts| ==> |ts[k]| < i
  }

  ghost predicate Reached(ts: seq<string>, i: int) {
    exists j :: Survives(ts, j, i)
  }

  lemma {:induction false} BufferByte(values: seq<string>, i: nat)
    requires i < ETAG_SIZE
    ensures AfterHeaders(Zeros(ETAG_SIZE), values)[i] != NUL <==> Reached(Usable(values), i)
  {
    hide TagOf;
    if values != [] {
      var before := values[..|values| - 1];
      BufferByte(before, i);
      if TagOf(values[|values| - 1]).ATag? {
        var t := TagOf(values[|values| - 1]).t;
        LastSurvives(Usable(before), t, i);
        ByteAfter(AfterHeaders(Zeros(ETAG_SIZE), before), t, i);
      }
    }
  }

  lemma ByteAfter(buf: string, t: string, i: nat)
    requires |buf| == ETAG_SIZE && |t| < ETAG_SIZE && i < ETAG_SIZE
    ensures (t + [NUL] + buf[|t| + 1..])[i] == if i < |t| then t[i] else if i == |t| then NUL else buf[i]
  {
  }

  /** What one more tag does to the survivors. */
  lemma LastSurvives(ts: seq<string>, t: string, i: nat)
    ensures Reached(ts + [t], i) <==> if i < |t| then t[i] != NUL else |t| < i && Reached(ts, i)
  {
    var all := ts + [t];
    assert all[|ts|] == t && forall k :: 0 <= k < |ts| ==> all[k] == ts[k];
    if i < |t| && t[i] != NUL { assert Survives(all, |ts|, i); }
    if j :| Survives(all, j, i) && j < |ts| {
      assert Survives(ts, j, i) && all[|ts|] == t;
    }
    if j :| Survives(ts, j, i) && |t| < i { assert Survives(all, j, i); }
  }

  /** The buffer starts with the last usable tag. */
  lemma {:induction false} LastInFront(values: seq<string>)
    ensures var ts, b := Usable(values), AfterHeaders(Zeros(ETAG_SIZE), values);
            if ts == [] then b == Zeros(ETAG_SIZE)
            else var t := ts[|ts| - 1]; b[..|t|] == t && b[|t|] == NUL
  {
    hide TagOf;
    if values != [] { LastInFront(values[..|values| - 1]); }
  }

  lemma CStrInFront(b: string, t: string)
    requires |t| < |b| && b[..|t|] == t && b[|t|] == NUL
    ensures CStr(b) == CStr(t) && NUL in b && |CStr(t)| <= |t|
  {
    hide Find;
    FindFirst(t, 0, |t|, NUL);
    var n := Find(t, 0, |t|, NUL);
    assert forall i :: 0 <= i < |t| ==> b[i] == t[i];
    FindIs(b, 0, |b|, NUL, n);
    assert b[..n] == t[..n];
  }

  /** A buffer is a padded tag when it starts with it and holds nothing else. */
  lemma PaddedIff(b: string, tag: string)
    requires |b| == ETAG_SIZE && |tag| < ETAG_SIZE && NUL !in tag && CStr(b) == tag
    ensures b == Padded(tag) <==> forall i :: |tag| < i < ETAG_SIZE ==> b[i] == NUL
  {
    hide Find;
    FindFirst(b, 0, ETAG_SIZE, NUL);
    var p := Padded(tag);
    assert b[..|tag|] == tag && b[|tag|] == NUL;
    assert forall i :: 0 <= i < |tag| ==> b[i] == b[..|tag|][i] == p[i];
    if forall i :: |tag| < i < ETAG_SIZE ==> b[i] == NUL {
      assert forall i :: 0 <= i < ETAG_SIZE ==> b[i] == p[i];
    }
  }

  /** Something of some tag is left behind position `n`. */
  ghost predicate LeftBehind(ts: seq<string>, n: int) {
    exists i :: n < i && Reached(ts, i)
  }

  /** The last usable header carries the file's tag. */
  predicate SentTag(ts: seq<string>, tag: string) {
    ts != [] && CStr(ts[|ts| - 1]) == tag
  }

  lemma TagHasText(mtime: nat, size: nat)
    ensures Tag(mtime, size) != ""
  {
  }

  /** What each of the two looks at: the builder at the last tag alone, the writer also at what stands behind it. */
  lemma WhatEachSees(values: seq<string>, mtime: nat, size: nat)
    ensures var ts, b, tag := Usable(values), AfterHeaders(Zeros(ETAG_SIZE), values), Tag(mtime, size);
            && NUL in b
            && (BuildDecision(b, true, mtime, size) == 304 <==> SentTag(ts, tag))
            && (WriteDecision(Padded(tag), b) <==> SentTag(ts, tag) && !LeftBehind(ts, |tag|))
  {
    hide Find, Tag, TagOf, AfterHeaders, LeftBehind, Padded, Zeros;
    var ts, b, tag := Usable(values), AfterHeaders(Zeros(ETAG_SIZE), values), Tag(mtime, size);
    TagText(mtime, size);
    TagHasText(mtime, size);
    CStrOfPadded(tag);
    BufferCStr(values);
    if CStr(b) == tag {
      PaddedIff(b, tag);
      RestIff(values, b, |tag|);
    }
  }

  /**
   With the file open, the two decisions differ exactly when the last usable `If-None-Match` carries the file's tag
   while an earlier one has left something behind it; then the builder says 304 and the writer 200.
   */
  lemma DecisionsAgreeIff(values: seq<string>, mtime: nat, size: nat)
    ensures var b, ts, tag := AfterHeaders(Zeros(ETAG_SIZE), values), Usable(values), Tag(mtime, size);
            && ((BuildDecision(b, true, mtime, size) == 304 <==> WriteDecision(Padded(tag), b)) <==>
                !(SentTag(ts, tag) && LeftBehind(ts, |tag|)))
            && (WriteDecision(Padded(tag), b) ==> BuildDecision(b, true, mtime, size) == 304)
  {
    hide Find, Tag, Usable, AfterHeaders, LeftBehind, Padded, Zeros, BuildDecision, WriteDecision, SentTag;
    WhatEachSees(values, mtime, size);
  }

  lemma BufferCStr(values: seq<string>)
    ensures var ts, b := Usable(values), AfterHeaders(Zeros(ETAG_SIZE), values);
            NUL in b && CStr(b) == if ts == [] then "" else CStr(ts[|ts| - 1])
  {
    hide Find, TagOf, AfterHeaders, Usable;
    var ts, b := Usable(values), AfterHeaders(Zeros(ETAG_SIZE), values);
    LastInFront(values);
    if ts == [] {
      assert b[..0] == "" && b[0] == NUL;
      CStrInFront(b, "");
    } else {
      CStrInFront(b, ts[|ts| - 1]);
    }
  }

  /** The buffer holds something behind position `n` exactly when some byte of some tag survived there. */
  lemma RestIff(values: seq<string>, b: string, n: int)
    requires b == AfterHeaders(Zeros(ETAG_SIZE), values)
    ensures (forall i :: 0 <= i && n < i < ETAG_SIZE ==> b[i] == NUL) <==> !LeftBehind(Usable(values), n)
  {
    hide AfterHeaders, Zeros, Reached;
    var ts := Usable(values);
    forall i | 0 <= i && n < i < ETAG_SIZE ensures b[i] != NUL <==> Reached(ts, i) { BufferByte(values, i); }
    forall i | Reached(ts, i) ensures 0 <= i < ETAG_SIZE { ReachedInside(ts, i); }
    if i :| n < i && Reached(ts, i) { assert b[i] != NUL; }
  }

  lemma ReachedInside(ts: seq<string>, i: int)
    requires Reached(ts, i) && forall j :: 0 <= j < |ts| ==> |ts[j]| < ETAG_SIZE
    ensures 0 <= i < ETAG_SIZE
  {
  }

  /**
   A file that cannot be opened leaves the response's tag empty: the writer says 304 exactly when no tag byte was left.
   */
  lemma UnopenedDisagreeIff(values: seq<string>, mtime: nat, size: nat)
    ensures var b := AfterHeaders(Zeros(ETAG_SIZE), values);
            && BuildDecision(b, false, mtime, size) == -1
            && (WriteDecision(Zeros(ETAG_SIZE), b) <==> !LeftBehind(Usable(values), -1))
  {
    hide Find, Tag, TagOf, AfterHeaders, LeftBehind, Usable;
    var b := AfterHeaders(Zeros(ETAG_SIZE), values);
    RestIff(values, b, -1);
    if forall i :: 0 <= i < ETAG_SIZE ==> b[i] == NUL { assert b == Zeros(ETAG_SIZE); }
  }

  /** Some earlier tag is at least two characters longer than every later one. */
  ghost predicate Leftover(ts: seq<string>) {
    exists j :: 0 <= j < |ts| - 1 && LongerThanLater(ts, j)
  }

  ghost predicate LongerThanLater(ts: seq<string>, j: nat)
    requires j < |ts|
  {
    forall k :: j < k < |ts| ==> |ts[k]| + 2 <= |ts[j]|
  }

  ghost predicate NulFree(ts: seq<string>) {
    forall i :: 0 <= i < |ts| ==> NUL !in ts[i]
  }

  /** For tags without a NUL it is their lengths that decide what survives. */
  lemma SurvivorLengths(ts: seq<string>)
    requires NulFree(ts) && ts != []
    ensures LeftBehind(ts, |ts[|ts| - 1]|) <==> Leftover(ts)
    ensures LeftBehind(ts, -1) <==> ts[|ts| - 1] != "" || Leftover(ts)
  {
    var n := |ts| - 1;
    if j :| 0 <= j < n && LongerThanLater(ts, j) {
      assert |ts[n]| + 2 <= |ts[j]|;
      assert Survives(ts, j, |ts[j]| - 1) && |ts[n]| < |ts[j]| - 1;
      assert Reached(ts, |ts[j]| - 1);
    }
    if ts[n] != "" { assert Survives(ts, n, 0) && Reached(ts, 0); }
    if j, i :| Survives(ts, j, i) && j != n {
      assert LongerThanLater(ts, j);
    }
  }

  /**
   The same by lengths: with the file open, the body follows exactly when its length was announced, unless the last
   usable tag is the file's and an earlier one is at least two characters longer than all later ones.
   */
  lemma BodyIffLength(values: seq<string>, mtime: nat, size: nat)
    requires NulFree(Usable(values))
    ensures var b, ts := AfterHeaders(Zeros(ETAG_SIZE), values), Usable(values);
            (BuildDecision(b, true, mtime, size) != 304 <==> !WriteDecision(Padded(Tag(mtime, size)), b)) <==>
            !(ts != [] && ts[|ts| - 1] == Tag(mtime, size) && Leftover(ts))
    ensures var b, ts := AfterHeaders(Zeros(ETAG_SIZE), values), Usable(values);
            WriteDecision(Zeros(ETAG_SIZE), b) <==> ts == [] || (ts[|ts| - 1] == "" && !Leftover(ts))
  {
    hide Find, Tag, Usable, AfterHeaders, LeftBehind, Leftover, BuildDecision, WriteDecision, Zeros, Padded;
    var ts := Usable(values);
    DecisionsAgreeIff(values, mtime, size);
    UnopenedDisagreeIff(values, mtime, size);
    if ts != [] {
      SurvivorLengths(ts);
      assert CStr(ts[|ts| - 1]) == ts[|ts| - 1];
    } else {
      NoneSurvive();
    }
  }

  lemma NoneSurvive()
    ensures !LeftBehind([], -1)
  {
  }

  /** Any number of unusable headers and at most one usable one leave the request's buffer zero-padded. */
  lemma {:induction false} OneTagPadded(values: seq<string>)
    requires forall i, j :: 0 <= i < j < |values| ==> TagOf(values[i]).NoTag? || TagOf(values[j]).NoTag?
    ensures var b := AfterHeaders(Zeros(ETAG_SIZE), values);
            if exists i :: 0 <= i < |values| && TagOf(values[i]).ATag? then
              exists i :: 0 <= i < |values| && TagOf(values[i]).ATag? && b == Padded(TagOf(values[i]).t)
            else b == Zeros(ETAG_SIZE)
  {
    hide TagOf;
    if values != [] {
      var n := |values| - 1;
      var before := values[..n];
      OneTagPadded(before);
      match TagOf(values[n])
      case NoTag =>
        var b := AfterHeaders(Zeros(ETAG_SIZE), before);
        if i :| 0 <= i < n && TagOf(before[i]).ATag? && b == Padded(TagOf(before[i]).t) {
          assert values[i] == before[i];
        } else {
          assert forall i :: 0 <= i < n ==> values[i] == before[i];
        }
      case ATag(t) =>
        assert forall i :: 0 <= i < n ==> values[i] == before[i] && TagOf(before[i]).NoTag?;
        assert t + [NUL] + Zeros(ETAG_SIZE)[|t| + 1..] == Padded(t);
    }
  }

  /**
   A second tag that is two characters shorter leaves the end of the first one behind it: the builder then says 304 and
   closes without a body, while the writer has announced one.
   */
  lemma TwoTagsDisagree()
    ensures var b := AfterHeaders(Zeros(ETAG_SIZE), ["\"11111\"", "\"1_2\""]);
            BuildDecision(b, true, 1, 2) == 304 && !WriteDecision(Padded(Tag(1, 2)), b)
  {
    hide Find, TagOf, AfterHeaders, BuildDecision, WriteDecision, Padded;
    var first, second := "\"11111\"", "\"1_2\"";
    var values := [first, second];
    TagsParsed();
    assert values[..1] == [first] && [first][..0] == [] && [first][0] == first && values[1] == second;
    var ts := ["11111", "1_2"];
    assert Usable([first]) == [] + ["11111"];
    assert Usable(values) == ts;
    assert Tag(1, 2) == "1_2";
    assert LongerThanLater(ts, 0);
    BodyIffLength(values, 1, 2);
    DecisionsAgreeIff(values, 1, 2);
  }

  lemma TagsParsed()
    ensures TagOf("\"11111\"") == ATag("11111") && TagOf("\"1_2\"") == ATag("1_2")
  {
    hide Find;
    var first, second := "\"11111\"", "\"1_2\"";
    FindIs(first, 1, 7, '"', 6);
    FindIs(second, 1, 5, '"', 4);
  }

  // ---------------------------------------------------------------- the echo

  /** What a client sends back: the tag between quotes, as the server lowers it before parsing. */
  function Echo(t: string): string {
    Lower("\"" + t + "\"")
  }

  /**
   A client that echoes the tag it was given is answered with 304, by both decisions, exactly when the file's tag is
   still the same; and if the tag it was given is one that identifies its file, exactly when neither the modification
   time nor the size has changed.
   */
  lemma EchoRevalidates(m: nat, s: nat, m': nat, s': nat)
    ensures var req := AfterHeaders(Zeros(ETAG_SIZE), [Echo(Tag(m, s))]);
            && (BuildDecision(req, true, m', s') == 304 <==> Tag(m', s') == Tag(m, s))
            && (WriteDecision(Padded(Tag(m', s')), req) <==> Tag(m', s') == Tag(m, s))
    ensures Unshared(m, s) && s' < SIZE_LIMIT ==> (Tag(m', s') == Tag(m, s) <==> m == m' && s == s')
  {
    hide Find, Tag, FullTag;
    var t, t' := Tag(m, s), Tag(m', s');
    TagText(m, s);
    EchoParses(t);
    var echo := Echo(t);
    assert [echo][..0] == [];
    var req := AfterHeaders(Zeros(ETAG_SIZE), [echo]);
    assert AfterHeaders(Zeros(ETAG_SIZE), []) == Zeros(ETAG_SIZE);
    assert req == AfterHeader(Zeros(ETAG_SIZE), echo) == t + [NUL] + Zeros(ETAG_SIZE)[|t| + 1..];
    assert req == Padded(t);
    CStrOfPadded(t);
    assert req[|t|] == NUL;
    TagText(m', s');
    CStrOfPadded(t');
    if Unshared(m, s) && s' < SIZE_LIMIT && t' == t { SharedBy(m, s, m', s'); }
  }

  lemma EchoParses(t: string)
    requires |t| < ETAG_SIZE && '"' !in t && IsLower(t)
    ensures TagOf(Echo(t)) == ATag(t)
  {
    hide TagOf;
    assert forall i :: 0 <= i < |t| ==> LowerChar(t[i]) == Lower(t)[i] == t[i];
    assert Echo(t) == "\"" + (t + "\"");
    TagOfIff(Echo(t), t);
  }
}
