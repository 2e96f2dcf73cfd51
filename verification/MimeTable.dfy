/**
 The MIME table: `_type_mime_parse` (src/file_conf.c) compiles the block

     { "type": ["ext", "ext"], "type": ["ext"] }

 into the compact string `type[ext,ext]type[ext]`.  The module says what the compiler's cursor loops produce on any
 text whatsoever and runs them on an array; `MimeSyntax` gives the block a concrete syntax and connects the two.
 */
module MimeTable {
  import opened Bytes

  /** `sizeof(conf->mime)`. */
  const MIME_SIZE: nat := 1024

  /** How the compiler ended, and the bytes in front of `p_dst` at that moment. */
  datatype Compiled = Compiled(ok: bool, out: string)

  // ---------------------------------------------------------------- the compiler's cursor walk

  /** One round of a loop: it stops with `r`, or goes on at `scan` having written `out`. */
  datatype Round = Halt(r: Compiled) | Next(scan: nat, out: string)

  /** Restarting the search for a quote at a comma cannot go back behind the string just copied. */
  lemma NextQuote(buf: string, from: nat, comma: nat, close: nat, end: nat)
    requires from <= comma < end <= |buf|
    requires close == Find(buf, from, end, '"') < end
    requires buf[comma] == ',' || comma == Find(buf, from, end, ',')
    ensures Find(buf, comma, end, '"') >= close
    ensures comma < Find(buf, comma, end, '"')
  {
    FindFirst(buf, from, end, '"');
    FindFirst(buf, from, end, ',');
    FindFirst(buf, comma, end, '"');
  }

  /** One round of the inner loop, over the extension window `[scan, end)` between `[` and `]`. */
  function ExtWalk(buf: string, scan: nat, end: nat, out: string): (r: Round)
    requires scan < end <= |buf|
    ensures r.Halt? ==> |out| <= |r.r.out| <= |out| + (end - Find(buf, scan, end, '"'))
    ensures r.Halt? && r.r.ok ==> |out| < |r.r.out| && r.r.out[|r.r.out| - 1] == ']'
    ensures r.Next? ==> scan < r.scan < end && |out| < |r.out|
    ensures r.Next? ==> |r.out| - |out| <= Find(buf, r.scan, end, '"') - Find(buf, scan, end, '"')
  {
    var q := Find(buf, scan, end, '"');
    if q == end || q + 1 == end then Halt(Compiled(false, out))
    else
      var e := Find(buf, q + 1, end, '"');
      if e == end then Halt(Compiled(false, out))
      else
        var o := out + buf[q + 1..e];
        var c := Find(buf, q + 1, end, ',');
        if c == end then Halt(Compiled(true, o + "]"))
        else
          NextQuote(buf, q + 1, c, e, end);
          Next(c, o + ",")
  }

  /** The inner loop. */
  function ExtsWalk(buf: string, scan: nat, end: nat, out: string): (r: Compiled)
    requires scan <= end <= |buf|
    ensures |out| <= |r.out| <= |out| + (end - Find(buf, scan, end, '"'))
    ensures r.ok ==> |out| < |r.out| && r.out[|r.out| - 1] == ']'
    decreases end - scan
  {
    if scan == end then Compiled(false, out)
    else
      match ExtWalk(buf, scan, end, out)
      case Halt(r) => r
      case Next(scan', out') => ExtsWalk(buf, scan', end, out')
  }

  /** `*(p_dst - 1)`: the byte in front of the table when nothing has been written yet. */
  function LastByte(out: string, before: char): char {
    if out == "" then before else out[|out| - 1]
  }

  /** Second half of a round of the outer loop: the extension list in the window `[scan, end)`. */
  function ListWalk(buf: string, scan: nat, end: nat, typed: string): (r: Round)
    requires scan <= |buf| && scan <= end
    ensures r.Halt? ==> |typed| <= |r.r.out| <= |typed| + (end - scan)
    ensures r.Next? ==> scan < r.scan < end && r.scan < |buf|
    ensures r.Next? ==> |typed| < |r.out| <= |typed| + (r.scan - scan)
    ensures r.Next? ==> r.out[|r.out| - 1] == ']'
    ensures r.Halt? ==> !r.r.ok
  {
    var hi := Clip(buf, end);
    var b := Find(buf, scan, hi, '[');
    if b == hi then Halt(Compiled(false, typed))
    else
      var x := Find(buf, b + 1, hi, ']');
      if x == hi then Halt(Compiled(false, typed))
      else
        var exts := ExtsWalk(buf, b + 1, x, typed + "[");
        if exts.ok then Next(x, exts.out) else Halt(exts)
  }

  /** One round of the outer loop; `end` is `p_scan + mime_n`, the end of the window the code believes in. */
  function EntryWalk(buf: string, scan: nat, end: nat, out: string, before: char): (r: Round)
    requires scan <= |buf| && scan < end
    ensures r.Halt? ==> |out| <= |r.r.out| <= |out| + (end - scan)
    ensures r.Next? ==> scan + 2 < r.scan <= end && r.scan < |buf|
    ensures r.Next? ==> |out| < |r.out| && |r.out| - |out| < r.scan - scan
    ensures r.Next? ==> r.out[|r.out| - 1] == ']'
  {
    var hi := Clip(buf, end);
    var q := Find(buf, scan, hi, '"');
    if q == hi then Halt(Compiled(LastByte(out, before) == ']', out))
    else
      var e := Find(buf, q + 1, hi, '"');
      if e == hi then Halt(Compiled(false, out))
      else
        // The count is not reduced for this closing quote: the window ends one byte later from here on.
        ListWalk(buf, e + 1, end + 1, out + buf[q + 1..e])
  }

  /** The outer loop. */
  function EntriesWalk(buf: string, scan: nat, end: nat, out: string, before: char): (r: Compiled)
    requires scan <= |buf|
    ensures |out| <= |r.out| <= |out| + (if scan < end then end - scan else 0)
    decreases if scan < end then end - scan else 0
  {
    if end <= scan then Compiled(true, out)
    else
      match EntryWalk(buf, scan, end, out, before)
      case Halt(r) => r
      case Next(scan', out') => EntriesWalk(buf, scan', end + 1, out', before)
  }

  /** The whole of `_type_mime_parse`: braces, size check, then the entries. */
  function Compile(buf: string, base: nat, before: char): (r: Compiled)
    requires base <= |buf|
    ensures |r.out| < MIME_SIZE
  {
    var open := Find(buf, base, Clip(buf, base + MIME_SIZE - 1), '{');
    if open == Clip(buf, base + MIME_SIZE - 1) || base < open then Compiled(false, "")
    else
      var start := base + 1;
      var limit := Clip(buf, start + MIME_SIZE - 1);
      var close := Find(buf, start, limit, '}');
      if close == limit || close - start >= MIME_SIZE then Compiled(false, "")
      else EntriesWalk(buf, start, close, "", before)
  }

  /** A value that does not start with the opening brace is refused, whatever it holds. */
  lemma BraceFirst(buf: string, base: nat, before: char)
    requires base <= |buf|
    ensures CharAt(buf, base) != '{' ==> Compile(buf, base, before) == Compiled(false, "")
  {
    hide EntriesWalk, Find;
    var hi := Clip(buf, base + MIME_SIZE - 1);
    FindFirst(buf, base, hi, '{');
  }

  /** `mime` holds `out` at its front; past it nothing changed except perhaps one terminating NUL. */
  ghost predicate Written(mime: array<char>, was: string, out: string)
    reads mime
  {
    && |out| < mime.Length == |was|
    && (forall i :: 0 <= i < |out| ==> mime[i] == out[i])
    && (mime[|out|] == NUL || mime[|out|] == was[|out|])
    && (forall i :: |out| < i < mime.Length ==> mime[i] == was[i])
  }

  /** `mime` and the return code are what the outcome `c` says. */
  ghost predicate Stored(mime: array<char>, was: string, c: Compiled, ret: int)
    reads mime
  {
    && ret == (if c.ok then 0 else -1)
    && Written(mime, was, c.out)
    && (ret == 0 ==> mime[|c.out|] == if c.out == "" then was[0] else NUL)
  }

  /** `memcpy(p_dst, src, n)`, with (`end`) or without the source string's NUL. */
  method Append(mime: array<char>, pDst: nat, src: string, end: bool, ghost was: string, ghost out: string)
    requires Written(mime, was, out) && pDst == |out|
    requires |out| + |src| < mime.Length
    modifies mime
    ensures Written(mime, was, out + src)
    ensures end ==> mime[|out| + |src|] == NUL
  {
    Put(mime, pDst, if end then src + [NUL] else src);
  }

  /** One round of the inner loop of `_type_mime_parse`, which copies one extension. */
  method PutExt(buf: string, scan: nat, n: nat, mime: array<char>, at: nat, ghost was: string, ghost out: string)
    returns (stop: bool, ok: bool, pExtScan: nat, extN: int, pDst: nat)
    requires 0 < n && scan + n <= |buf|
    requires Written(mime, was, out) && at == |out|
    requires |out| + (scan + n - Find(buf, scan, scan + n, '"')) + 1 < mime.Length
    modifies mime
    ensures var r := ExtWalk(buf, scan, scan + n, out);
            if stop then r.Halt? && ok == r.r.ok && pDst == |r.r.out| && Written(mime, was, r.r.out)
            else r.Next? && pExtScan == r.scan && pExtScan + extN == scan + n && pDst == |r.out| &&
                 Written(mime, was, r.out)
  {
    pExtScan, extN, pDst := scan, n, at;
    var pExtEnd := scan + n;
    var pExtStart := Find(buf, pExtScan, pExtEnd, '"');
    if pExtStart == pExtEnd { return true, false, pExtScan, extN, pDst; }
    extN := extN - (pExtStart - pExtScan);
    pExtScan := pExtStart;
    pExtStart, pExtScan, extN := pExtStart + 1, pExtScan + 1, extN - 1;
    if extN <= 0 { return true, false, pExtScan, extN, pDst; }
    var extEnd := Find(buf, pExtStart, pExtScan + extN, '"');
    if extEnd == pExtScan + extN { return true, false, pExtScan, extN, pDst; }
    Append(mime, pDst, buf[pExtStart..extEnd], false, was, out);
    ghost var named := out + buf[pExtStart..extEnd];
    pDst := pDst + (extEnd - pExtStart);
    pExtStart := Find(buf, pExtScan, pExtScan + extN, ',');
    if pExtStart == pExtScan + extN {
      Append(mime, pDst, "]", true, was, named);
      return true, true, pExtScan, extN, pDst + 1;
    }
    Append(mime, pDst, ",", true, was, named);
    return false, false, pExtStart, extN - (pExtStart - pExtScan), pDst + 1;
  }

  /** The inner loop of `_type_mime_parse`. */
  method PutExts(buf: string, start: nat, end: nat, mime: array<char>, at: nat, ghost was: string, ghost out: string)
    returns (ok: bool, pDst: nat)
    requires start <= end <= |buf|
    requires Written(mime, was, out) && at == |out|
    requires |out| + (end - Find(buf, start, end, '"')) + 1 < mime.Length
    modifies mime
    ensures var r := ExtsWalk(buf, start, end, out);
            ok == r.ok && pDst == |r.out| && Written(mime, was, r.out)
  {
    hide ExtWalk;
    var pExtScan: nat, extN: int := start, end - start;
    ghost var o := out;
    pDst := at;
    while extN > 0
      invariant 0 <= extN && pExtScan + extN == end && |o| == pDst
      invariant |o| + (end - Find(buf, pExtScan, end, '"')) + 1 < mime.Length
      invariant ExtsWalk(buf, pExtScan, end, o) == ExtsWalk(buf, start, end, out)
      invariant Written(mime, was, o)
      decreases extN
    {
      ghost var round := ExtWalk(buf, pExtScan, end, o);
      var stop: bool;
      stop, ok, pExtScan, extN, pDst := PutExt(buf, pExtScan, extN, mime, pDst, was, o);
      if stop { return ok, pDst; }
      o := round.out;
    }
    return false, pDst;
  }

  /**
   `_type_mime_parse`, writing `conf->mime` in place.  Every write is inside the array for every text, in
   spite of the window that grows by one byte per entry.
   */
  method TypeMimeParse(buf: string, base: nat, before: char, mime: array<char>) returns (ret: int)
    requires base <= |buf|
    requires mime.Length == MIME_SIZE
    modifies mime
    ensures Stored(mime, old(mime[..]), Compile(buf, base, before), ret)
  {
    hide EntriesWalk;
    ghost var was := mime[..];
    var open := Find(buf, base, Clip(buf, base + MIME_SIZE - 1), '{');
    if open == Clip(buf, base + MIME_SIZE - 1) { return -1; }
    if base < open { return -1; }
    var mimeSkip := base - open;
    var pStart := open + mimeSkip + 1;
    var limit := Clip(buf, pStart + MIME_SIZE - 1 - mimeSkip);
    var pEnd := Find(buf, pStart, limit, '}');
    if pEnd == limit { return -1; }
    var mimeN := pEnd - pStart;
    if mimeN >= MIME_SIZE { return -1; }
    ret := PutEntries(buf, pStart, mimeN, before, mime);
  }

  /** The first half of a round: find the quoted type and copy it, leaving `mime_n` one too large. */
  method PutType(buf: string, scan: nat, n: nat, mime: array<char>, at: nat, ghost was: string, ghost out: string)
    returns (found: bool, ok: bool, pScan: nat, mimeN: int, pDst: nat)
    requires scan <= |buf| && n > 0
    requires Written(mime, was, out) && at == |out| && |out| + n < mime.Length
    modifies mime
    ensures var hi := Clip(buf, scan + n);
            var q := Find(buf, scan, hi, '"');
            found == (q < hi) &&
            if !found || Find(buf, q + 1, hi, '"') == hi then
              !ok && pDst == at && mime[..] == old(mime[..])
            else
              var e := Find(buf, q + 1, hi, '"');
              ok && pScan == e + 1 && pScan + mimeN == scan + n + 1 && pDst == at + (e - q - 1) &&
              Written(mime, was, out + buf[q + 1..e])
  {
    pScan, mimeN, pDst := scan, n, at;
    var hi := Clip(buf, pScan + mimeN);
    var pStart := Find(buf, pScan, hi, '"');
    if pStart == hi { return false, false, pScan, mimeN, pDst; }
    pStart := pStart + 1;
    mimeN := mimeN - (pStart - pScan);
    var e := Find(buf, pStart, hi, '"');
    if e == hi { return true, false, pScan, mimeN, pDst; }
    var mimeLen := e - pStart;
    Append(mime, pDst, buf[pStart..e], false, was, out);
    return true, true, pStart + mimeLen + 1, mimeN - mimeLen, pDst + mimeLen;
  }

  /** The second half of a round: the bracketed extension list. */
  method PutList(buf: string, scan: nat, n: nat, mime: array<char>, at: nat, ghost was: string, ghost typed: string)
    returns (ok: bool, pScan: nat, mimeN: int, pDst: nat)
    requires scan <= |buf| && Written(mime, was, typed) && at == |typed| && |typed| + n < mime.Length
    modifies mime
    ensures var r := ListWalk(buf, scan, scan + n, typed);
            if ok then r.Next? && Written(mime, was, r.out) && mime[|r.out|] == NUL &&
                       pScan == r.scan && pDst == |r.out| && pScan + mimeN == scan + n
            else r.Halt? && Written(mime, was, r.r.out)
  {
    hide ExtsWalk, Find;
    pScan, mimeN, pDst := scan, n, at;
    var hi := Clip(buf, pScan + mimeN);
    var pExtStart := Find(buf, pScan, hi, '[');
    if pExtStart == hi { return false, pScan, mimeN, pDst; }
    pExtStart := pExtStart + 1;
    mimeN := mimeN - (pExtStart - pScan);
    var pExtEnd := Find(buf, pExtStart, hi, ']');
    if pExtEnd == hi { return false, pScan, mimeN, pDst; }
    Append(mime, pDst, "[", true, was, typed);
    mimeN := mimeN - (pExtEnd - pExtStart);
    ok, pDst := PutExts(buf, pExtStart, pExtEnd, mime, pDst + 1, was, typed + "[");
    mime[pDst] := NUL;
    pScan := pExtEnd;
  }

  /** One round of the outer loop of `_type_mime_parse`; `mime_n` is the number of bytes it believes are left. */
  method PutEntry(buf: string, scan: nat, n: nat, before: char, mime: array<char>, at: nat, ghost was: string,
                  ghost out: string)
    returns (stop: bool, ret: int, pScan: nat, mimeN: int, pDst: nat)
    requires scan <= |buf| && n > 0
    requires Written(mime, was, out) && at == |out| && |out| + n < mime.Length
    requires mime[at] == if at == 0 then was[0] else NUL
    modifies mime
    ensures var r := EntryWalk(buf, scan, scan + n, out, before);
            if stop then r.Halt? && Stored(mime, was, r.r, ret)
            else r.Next? && Written(mime, was, r.out) && mime[|r.out|] == NUL &&
                 pScan == r.scan && pDst == |r.out| && pScan + mimeN == scan + n + 1
  {
    hide ListWalk, Find;
    var found: bool, ok: bool;
    found, ok, pScan, mimeN, pDst := PutType(buf, scan, n, mime, at, was, out);
    if !found {
      return true, if (if pDst == 0 then before else mime[pDst - 1]) == ']' then 0 else -1, pScan, mimeN, pDst;
    }
    if !ok { return true, -1, pScan, mimeN, pDst; }
    ghost var q := Find(buf, scan, Clip(buf, scan + n), '"');
    ok, pScan, mimeN, pDst := PutList(buf, pScan, mimeN, mime, pDst, was, out + buf[q + 1..pScan - 1]);
    return !ok, -1, pScan, mimeN, pDst;
  }

  /** The outer loop of `_type_mime_parse`, from the first byte after the brace. */
  method PutEntries(buf: string, start: nat, n: nat, before: char, mime: array<char>) returns (ret: int)
    requires start <= |buf|
    requires n < MIME_SIZE == mime.Length
    modifies mime
    ensures Stored(mime, old(mime[..]), EntriesWalk(buf, start, start + n, "", before), ret)
  {
    hide EntryWalk;
    ghost var was := mime[..];
    var pScan: nat, mimeN: int, pDst: nat := start, n, 0;
    ghost var out := "";
    while mimeN > 0
      invariant 0 <= mimeN && pScan <= |buf| && |out| == pDst && pDst + mimeN < MIME_SIZE
      invariant EntriesWalk(buf, pScan, pScan + mimeN, out, before) == EntriesWalk(buf, start, start + n, "", before)
      invariant Written(mime, was, out)
      invariant if pDst == 0 then mime[0] == was[0] else mime[pDst] == NUL
      decreases mimeN
    {
      ghost var round := EntryWalk(buf, pScan, pScan + mimeN, out, before);
      var stop: bool;
      stop, ret, pScan, mimeN, pDst := PutEntry(buf, pScan, mimeN, before, mime, pDst, was, out);
      if stop { return ret; }
      out := round.out;
    }
    ret := 0;
  }
}
