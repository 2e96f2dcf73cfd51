/** Byte strings as the C code sees them, and the few library calls every component makes on them. */
module Bytes {
  const NUL: char := '\0'

  /** `memchr` on the window `[lo, hi)`: the first index holding `c`, or `hi` when there is none. */
  function Find(s: string, lo: nat, hi: nat, c: char): (r: nat)
    requires lo <= hi <= |s|
    ensures lo <= r <= hi
    decreases hi - lo
  {
    if lo == hi || s[lo] == c then lo else Find(s, lo + 1, hi, c)
  }

  /** `Find` returns the first hit: nothing before it matches, and it matches itself unless it is `hi`. */
  lemma {:induction false} FindFirst(s: string, lo: nat, hi: nat, c: char)
    requires lo <= hi <= |s|
    ensures forall i :: lo <= i < Find(s, lo, hi, c) ==> s[i] != c
    ensures Find(s, lo, hi, c) < hi ==> s[Find(s, lo, hi, c)] == c
    decreases hi - lo
  {
    if lo < hi && s[lo] != c { FindFirst(s, lo + 1, hi, c); }
  }

  /** The only index that can be the answer of `Find`. */
  lemma {:induction false} FindIs(s: string, lo: nat, hi: nat, c: char, r: nat)
    requires lo <= r <= hi <= |s|
    requires forall i :: lo <= i < r ==> s[i] != c
    requires r < hi ==> s[r] == c
    ensures Find(s, lo, hi, c) == r
    decreases hi - lo
  {
    if lo < r { FindIs(s, lo + 1, hi, c, r); }
  }

  function Min(a: int, b: int): int {
    if a < b then a else b
  }

  /** The end of a search window that may reach past the text. */
  function Clip(buf: string, w: nat): (r: nat)
    ensures r <= |buf| && r <= w
  {
    Min(w, |buf|)
  }

  /** `s[i]`, reading the NUL behind the text. */
  function CharAt(buf: string, i: nat): char {
    if i < |buf| then buf[i] else NUL
  }

  /** `memcmp(s + p, t, |t|) == 0`. */
  predicate MatchAt(s: string, p: nat, t: string) {
    p + |t| <= |s| && s[p..p + |t|] == t
  }

  /** The C string stored at the front of `s`: everything before the first NUL. */
  function CStr(s: string): (r: string)
    ensures r <= s && NUL !in r
    ensures NUL !in s ==> r == s
  {
    FindFirst(s, 0, |s|, NUL);
    s[..Find(s, 0, |s|, NUL)]
  }

  lemma CStrOf(t: string, rest: string)
    requires NUL !in t
    ensures CStr(t + [NUL] + rest) == t
  {
    var s := t + [NUL] + rest;
    FindIs(s, 0, |s|, NUL, |t|);
  }

  /** `while (*p == ' ') p++`. */
  function SkipBlanks(buf: string, p: nat): (r: nat)
    requires p <= |buf|
    ensures p <= r <= |buf|
    decreases |buf| - p
  {
    if p < |buf| && buf[p] == ' ' then SkipBlanks(buf, p + 1) else p
  }

  lemma SkipBlanksShape(buf: string, p: nat)
    requires p <= |buf|
    ensures forall i :: p <= i < SkipBlanks(buf, p) ==> buf[i] == ' '
    ensures SkipBlanks(buf, p) < |buf| ==> buf[SkipBlanks(buf, p)] != ' '
    decreases |buf| - p
  {
  }

  predicate IsDigit(c: char) {
    '0' <= c <= '9'
  }

  function DigitChar(d: nat): (c: char)
    requires d < 10
    ensures IsDigit(c) && c as int - '0' as int == d
  {
    ('0' as int + d) as char
  }

  /** `%lu`: the decimal digits of `n`, most significant first. */
  function Decimal(n: nat): (s: string)
    ensures |s| >= 1
    ensures forall i :: 0 <= i < |s| ==> IsDigit(s[i])
  {
    if n < 10 then [DigitChar(n)] else Decimal(n / 10) + [DigitChar(n % 10)]
  }

  /** Value of a string of digits; the inverse of `Decimal`. */
  function DigitsValue(s: string): nat
    requires forall i :: 0 <= i < |s| ==> IsDigit(s[i])
  {
    if s == "" then 0
    else
      assert IsDigit(s[|s| - 1]);
      10 * DigitsValue(s[..|s| - 1]) + (s[|s| - 1] as int - '0' as int)
  }

  lemma {:induction false} DecimalRoundTrip(n: nat)
    ensures DigitsValue(Decimal(n)) == n
  {
    if n < 10 {
      assert Decimal(n)[..0] == "";
    } else {
      DecimalRoundTrip(n / 10);
      var s := Decimal(n);
      assert s[..|s| - 1] == Decimal(n / 10);
    }
  }

  /** Printing is injective, so a printed number identifies the number. */
  lemma DecimalInjective(a: nat, b: nat)
    ensures Decimal(a) == Decimal(b) <==> a == b
  {
    DecimalRoundTrip(a);
    DecimalRoundTrip(b);
  }

  function Pow10(k: nat): (p: nat)
    ensures p >= 1
  {
    if k == 0 then 1 else 10 * Pow10(k - 1)
  }

  lemma {:induction false} DecimalLength(n: nat, k: nat)
    requires k >= 1
    ensures |Decimal(n)| <= k <==> n < Pow10(k)
  {
    if n < 10 {
      assert Pow10(k) == 10 * Pow10(k - 1);
    } else if k == 1 {
      assert Pow10(1) == 10 * Pow10(0);
    } else {
      DecimalLength(n / 10, k - 1);
      assert Pow10(k) == 10 * Pow10(k - 1);
    }
  }

  /** `tolower` in the C locale. */
  function LowerChar(c: char): (r: char) {
    if 'A' <= c <= 'Z' then (c as int + 32) as char else c
  }

  function Lower(s: string): (r: string)
    ensures |r| == |s|
    ensures forall i :: 0 <= i < |s| ==> r[i] == LowerChar(s[i])
  {
    seq(|s|, i requires 0 <= i < |s| => LowerChar(s[i]))
  }

  predicate IsLower(s: string) {
    Lower(s) == s
  }

  /** `memcpy(dst + at, src, |src|)`. */
  method Put(dst: array<char>, at: nat, src: string)
    requires at + |src| <= dst.Length
    modifies dst
    ensures forall i :: 0 <= i < dst.Length ==>
              dst[i] == if at <= i < at + |src| then src[i - at] else old(dst[i])
  {
    for k := 0 to |src|
      invariant forall i :: 0 <= i < dst.Length ==>
                  dst[i] == if at <= i < at + k then src[i - at] else old(dst[i])
    {
      dst[at + k] := src[k];
    }
  }

  // ---------------------------------------------------------------- reading known text

  lemma Regroup(a: string, b: string, c: string)
    ensures a + (b + c) == a + b + c
  {
  }

  /** A slice that is a concatenation splits where its first part ends. */
  lemma Split(buf: string, p: nat, x: nat, a: string, b: string)
    requires p <= x <= |buf| && buf[p..x] == a + b
    ensures x == p + |a| + |b|
    ensures buf[p..p + |a|] == a && buf[p + |a|..x] == b
  {
    assert |buf[p..x]| == x - p;
    assert buf[p..p + |a|] == (a + b)[..|a|];
    assert buf[p + |a|..x] == (a + b)[|a|..];
  }

  /** The same with one known character in the middle. */
  lemma SplitAt(buf: string, p: nat, x: nat, a: string, c: char, b: string)
    requires p <= x <= |buf| && buf[p..x] == a + ([c] + b)
    ensures x == p + |a| + 1 + |b|
    ensures buf[p..p + |a|] == a && buf[p + |a|] == c && buf[p + |a| + 1..x] == b
  {
    Split(buf, p, x, a, [c] + b);
    Split(buf, p + |a|, x, [c], b);
    assert buf[p + |a|] == buf[p + |a|..p + |a| + 1][0];
  }

  /** No character of a slice known to be free of `c` is `c`. */
  lemma SliceFree(buf: string, lo: nat, hi: nat, a: string, c: char)
    requires lo <= hi <= |buf| && buf[lo..hi] == a && c !in a
    ensures forall i :: lo <= i < hi ==> buf[i] != c
  {
    forall i | lo <= i < hi ensures buf[i] != c { assert buf[i] == a[i - lo]; }
  }
}
