/** Percent-decoding of the request path (`_chr_to_hex` and `_raw_path_build`, src/file.c). */
module PercentCode {
  import opened Bytes

  /** `sizeof(path_buf)` in `file_parse`. */
  const PATH_SIZE: nat := 4096

  /** `_chr_to_hex`: the value of a hexadecimal digit, or -1. */
  function HexValue(c: char): (v: int)
    ensures -1 <= v < 16
  {
    if '0' <= c <= '9' then c as int - 0x30
    else if 'A' <= c <= 'F' then c as int - 0x37
    else if 'a' <= c <= 'f' then c as int - 0x57
    else -1
  }

  predicate EscapeAt(s: string, i: nat) {
    i + 2 < |s| && s[i] == '%' && HexValue(s[i + 1]) >= 0 && HexValue(s[i + 2]) >= 0
  }

  function EscapedByte(s: string, i: nat): char
    requires EscapeAt(s, i)
  {
    (HexValue(s[i + 1]) * 16 + HexValue(s[i + 2])) as char
  }

  /** What the decode loop emits for the rest of the string. */
  function Decode(s: string): string {
    if s == "" then ""
    else if EscapeAt(s, 0) then [EscapedByte(s, 0)] + Decode(s[3..])
    else [s[0]] + Decode(s[1..])
  }

  ghost predicate Filled(a: array<char>, s: string)
    reads a
  {
    |s| <= a.Length && forall i :: 0 <= i < |s| ==> a[i] == s[i]
  }

  /** `*p2 = c; p2++;` */
  method Push(a: array<char>, p2: nat, c: char, ghost root: string, ghost out: string)
    requires Filled(a, root + out) && p2 == |root| + |out| < a.Length
    modifies a
    ensures Filled(a, root + (out + [c]))
  {
    a[p2] := c;
  }

  /**
   `_raw_path_build`: the web root, a slash, and the decoded path, written with two cursors.  The room the result
   needs is the caller's business; the loop itself never checks it.
   */
  method RawPathBuild(pathBuf: array<char>, uri: string, root: string)
    requires pathBuf.Length == PATH_SIZE && |root| + 1 + |uri| < PATH_SIZE
    requires NUL !in uri
    modifies pathBuf
    ensures |Decode(uri)| <= |uri|
    ensures pathBuf[..|root| + 1 + |Decode(uri)|] == root + "/" + Decode(uri)
    ensures pathBuf[|root| + 1 + |Decode(uri)|] == NUL
  {
    hide Decode;
    Put(pathBuf, 0, root + "/" + [NUL]);
    var p1, p2 := 0, |root| + 1;
    ghost var out := "";
    while true
      invariant 0 <= p1 <= |uri| && p2 == |root| + 1 + |out| && |out| <= p1
      invariant Filled(pathBuf, (root + "/") + out)
      invariant Decode(uri) == out + Decode(uri[p1..])
      decreases |uri| - p1
    {
      DecodeStep(uri, p1, out);
      if p1 == |uri| {
        pathBuf[p2] := NUL;
        break;
      } else if uri[p1] == '%' {
        if p1 + 1 == |uri| {
          DecodeTail(uri, p1, out);
          Put(pathBuf, p2, ['%', NUL]);
          out := out + "%";
          break;
        } else if p1 + 2 == |uri| {
          DecodeTail(uri, p1, out);
          Put(pathBuf, p2, [uri[p1], uri[p1 + 1], NUL]);
          out := out + [uri[p1], uri[p1 + 1]];
          break;
        }
        var x1 := HexValue(uri[p1 + 1]);
        var x2 := HexValue(uri[p1 + 2]);
        if x1 < 0 || x2 < 0 {
          Push(pathBuf, p2, uri[p1], root + "/", out);
          out := out + [uri[p1]];
          p1, p2 := p1 + 1, p2 + 1;
        } else {
          Push(pathBuf, p2, (x1 * 16 + x2) as char, root + "/", out);
          out := out + [(x1 * 16 + x2) as char];
          p1, p2 := p1 + 3, p2 + 1;
        }
      } else {
        Push(pathBuf, p2, uri[p1], root + "/", out);
        out := out + [uri[p1]];
        p1, p2 := p1 + 1, p2 + 1;
      }
    }
    assert out == Decode(uri);
  }

  /** One turn of the loop, in terms of what has been written so far. */
  lemma DecodeStep(uri: string, p: nat, out: string)
    requires p <= |uri|
    ensures p == |uri| ==> out + Decode(uri[p..]) == out
    ensures p < |uri| && EscapeAt(uri, p) ==>
              out + Decode(uri[p..]) == out + [EscapedByte(uri, p)] + Decode(uri[p + 3..])
    ensures p < |uri| && !EscapeAt(uri, p) ==> out + Decode(uri[p..]) == out + [uri[p]] + Decode(uri[p + 1..])
  {
    var s := uri[p..];
    if p < |uri| {
      assert EscapeAt(s, 0) <==> EscapeAt(uri, p);
      if EscapeAt(s, 0) {
        assert s[3..] == uri[p + 3..];
      } else {
        assert s[1..] == uri[p + 1..];
      }
    }
  }

  /** A percent sign with fewer than two characters behind it stays, and so does what follows it. */
  lemma DecodeTail(uri: string, p: nat, out: string)
    requires p < |uri| <= p + 2
    ensures out + Decode(uri[p..]) == out + uri[p..]
  {
    var s := uri[p..];
    if |s| == 2 {
      assert Decode(s[1..]) == [s[1]] + Decode(s[1..][1..]);
    }
  }

  // ---------------------------------------------------------------- decoding undoes every encoding

  function HexDigit(v: nat, lower: bool): (c: char)
    requires v < 16
    ensures HexValue(c) == v && c != '%'
  {
    if v < 10 then (0x30 + v) as char else if lower then (0x57 + v) as char else (0x37 + v) as char
  }

  /** One character as an encoder may send it: as itself, or escaped with either case of each digit. */
  datatype Token = Plain(c: char) | Escaped(c: char, lowerHigh: bool, lowerLow: bool)

  predicate Encodable(ts: seq<Token>) {
    forall i :: 0 <= i < |ts| ==> if ts[i].Plain? then ts[i].c != '%' else ts[i].c as int < 256
  }

  function Sent(t: Token): string
    requires t.Escaped? ==> t.c as int < 256
  {
    match t
    case Plain(c) => [c]
    case Escaped(c, h, l) => ['%', HexDigit(c as int / 16, h), HexDigit(c as int % 16, l)]
  }

  function SentAll(ts: seq<Token>): string
    requires Encodable(ts)
  {
    if ts == [] then "" else Sent(ts[0]) + SentAll(ts[1..])
  }

  function Meant(ts: seq<Token>): string {
    if ts == [] then "" else [ts[0].c] + Meant(ts[1..])
  }

  /**
   Decoding is a left inverse of every encoder of section 2.1 of RFC 3986: whatever set of characters it escapes
   (as long as the percent sign is among them) and whichever hex case it uses, even differently from one escape to
   the next.
   */
  lemma {:induction false} DecodeEncoded(ts: seq<Token>)
    requires Encodable(ts)
    ensures Decode(SentAll(ts)) == Meant(ts)
  {
    if ts != [] {
      DecodeEncoded(ts[1..]);
      var s := SentAll(ts);
      var t := Sent(ts[0]);
      assert s[..|t|] == t && s[|t|..] == SentAll(ts[1..]);
      assert forall i :: 0 <= i < |t| ==> s[i] == t[i];
    }
  }

  // ---------------------------------------------------------------- what decoding does to any string

  /** Number of places where an escape starts. */
  function Escapes(s: string): nat {
    if s == "" then 0 else (if EscapeAt(s, 0) then 1 else 0) + Escapes(s[1..])
  }

  /** Every escape is decoded, wherever it stands, and costs two characters. */
  lemma {:induction false} DecodedLength(s: string)
    ensures |Decode(s)| == |s| - 2 * Escapes(s)
    decreases |s|
  {
    if s != "" {
      if EscapeAt(s, 0) {
        // The two digits cannot start an escape themselves.
        assert !EscapeAt(s[1..], 0) && s[1..][1..] == s[2..];
        assert Escapes(s[1..]) == Escapes(s[2..]);
        assert !EscapeAt(s[2..], 0) && s[2..][1..] == s[3..];
        assert Escapes(s[2..]) == Escapes(s[3..]);
        DecodedLength(s[3..]);
      } else {
        DecodedLength(s[1..]);
      }
    }
  }

  /** A string passes through unchanged exactly when it holds no complete, well-formed escape. */
  lemma {:induction false} UnchangedIff(s: string)
    ensures Decode(s) == s <==> Escapes(s) == 0
    decreases |s|
  {
    DecodedLength(s);
    if s != "" && Escapes(s) == 0 {
      UnchangedIff(s[1..]);
      assert s == [s[0]] + s[1..];
    }
  }

  lemma {:induction false} EscapesZeroIff(s: string)
    ensures Escapes(s) == 0 <==> forall i :: 0 <= i < |s| ==> !EscapeAt(s, i)
  {
    if s != "" {
      EscapesZeroIff(s[1..]);
      forall i | 1 <= i < |s| ensures EscapeAt(s, i) <==> EscapeAt(s[1..], i - 1) {}
      if Escapes(s[1..]) != 0 {
        var j :| 0 <= j < |s[1..]| && EscapeAt(s[1..], j);
        assert EscapeAt(s, j + 1);
      }
    }
  }

  /** Some escape starts in `s` and ends in `t`. */
  ghost predicate Straddles(s: string, t: string) {
    exists i :: 0 <= i < |s| && |s| <= i + 2 && EscapeAt(s + t, i)
  }

  lemma {:induction false} EscapesOfSum(s: string, t: string)
    ensures Escapes(s + t) == Escapes(s) + Escapes(t) + if Straddles(s, t) then 1 else 0
    decreases |s|
  {
    if s == "" {
      assert s + t == t;
    } else {
      var s' := s[1..];
      assert (s + t)[1..] == s' + t;
      EscapesOfSum(s', t);
      assert forall i :: 0 <= i < |s'| ==> (EscapeAt(s' + t, i) <==> EscapeAt(s + t, i + 1));
      if Straddles(s', t) {
        var j :| 0 <= j < |s'| && |s'| <= j + 2 && EscapeAt(s' + t, j);
        assert EscapeAt(s + t, j + 1);
      }
      if Straddles(s, t) {
        var j :| 0 <= j < |s| && |s| <= j + 2 && EscapeAt(s + t, j);
        assert j > 0 ==> EscapeAt(s' + t, j - 1);
      }
      assert |s| > 2 ==> (EscapeAt(s + t, 0) <==> EscapeAt(s, 0));
      if |s| <= 2 && EscapeAt(s + t, 0) {
        assert Straddles(s, t) && !EscapeAt(s, 0);
        assert |s| == 2 ==> (s + t)[1] == s'[0];
        assert !Straddles(s', t);
      }
    }
  }

  lemma {:induction false} DecodeSum(s: string, t: string)
    requires !Straddles(s, t)
    ensures Decode(s + t) == Decode(s) + Decode(t)
    decreases |s|
  {
    if s == "" {
      assert s + t == t && Decode(s) + Decode(t) == Decode(t);
    } else {
      var k := FrontApart(s, t);
      hide EscapeAt, Straddles;
      DecodeSum(s[k..], t);
      assert (s + t)[0] == s[0] && (s + t)[k..] == s[k..] + t;
      if k == 3 {
        assert EscapedByte(s + t, 0) == EscapedByte(s, 0) by { SameByte(s, t); }
      }
    }
  }

  lemma SameByte(s: string, t: string)
    requires EscapeAt(s, 0)
    ensures EscapeAt(s + t, 0) && EscapedByte(s + t, 0) == EscapedByte(s, 0)
  {
    assert s <= s + t;
  }

  /**
   What the first step of the decoder takes is the same with and without the rest, and the split behind it is clean.
   */
  lemma FrontApart(s: string, t: string) returns (k: nat)
    requires s != "" && !Straddles(s, t)
    ensures EscapeAt(s + t, 0) <==> EscapeAt(s, 0)
    ensures k == (if EscapeAt(s, 0) then 3 else 1) && k <= |s| && !Straddles(s[k..], t)
  {
    assert EscapeAt(s + t, 0) <==> EscapeAt(s, 0);
    k := if EscapeAt(s, 0) then 3 else 1;
    var s' := s[k..];
    assert (s + t)[k..] == s' + t;
    assert forall i :: 0 <= i < |s'| ==> (EscapeAt(s' + t, i) <==> EscapeAt(s + t, i + k));
  }

  /** Decoding distributes over a split exactly when the split does not cut an escape in two. */
  lemma DecodeSumIff(s: string, t: string)
    ensures Decode(s + t) == Decode(s) + Decode(t) <==> !Straddles(s, t)
  {
    EscapesOfSum(s, t);
    DecodedLength(s);
    DecodedLength(t);
    DecodedLength(s + t);
    if !Straddles(s, t) { DecodeSum(s, t); }
  }

  /** In particular a suffix that does not start with a hex digit can be split off. */
  lemma NonHexSuffix(s: string, t: string)
    requires t == "" || HexValue(t[0]) < 0
    ensures Decode(s + t) == Decode(s) + Decode(t)
  {
    DecodeSumIff(s, t);
  }
}
