/**
 The per-client rate limiter (`_fws_443_run` and the timer branch of `fws_child_run`, src/fws.c): a linear table of
 1024 slots with u16 counters, zeroed by a timer.  The model proves that the table behaves like a map from client
 addresses to their request histories since the last reset, and what each history is answered with.
 */
module RateLimiter {

  const SLOTS: nat := 1024
  const U16: nat := 65536

  /** Client addresses; 0 stands for the all-zero address that marks a free slot. */
  type Ip = nat
  const NO_IP: Ip := 0

  /** `struct fws_nft`. */
  datatype Slot = Slot(ip: Ip, htmlCnt: nat, noHtmlCnt: nat, dosCnt: nat)

  /** The limits, each a u32 in `struct fws_conf`. */
  datatype Limits = Limits(page: nat, res: nat, ban: nat, useNft: bool)

  /** How a request is treated: served, or refused with 429; `closes` when the connection is dropped at once. */
  datatype Verdict = Serve | Refuse(closes: bool, ban: bool)

  predicate OverSlot(lim: Limits, s: Slot) {
    s.htmlCnt > lim.page || s.noHtmlCnt > lim.res
  }

  /** The limiter's code for one request that has found its slot. */
  function Hit(lim: Limits, s: Slot, page: bool): (Slot, Verdict) {
    if OverSlot(lim, s) then
      var dos := (s.dosCnt + 1) % U16;
      (s.(dosCnt := dos), Refuse(true, lim.useNft && dos > lim.ban))
    else
      var t := if page then s.(htmlCnt := (s.htmlCnt + 1) % U16) else s.(noHtmlCnt := (s.noHtmlCnt + 1) % U16);
      if OverSlot(lim, t) then (t.(dosCnt := (t.dosCnt + 1) % U16), Refuse(false, false)) else (t, Serve)
  }

  // ---------------------------------------------------------------- one history, in closed form

  /** A history lists the requests of one slot since the last reset, `true` for page-class ones. */
  type History = seq<bool>

  function Pages(h: History): (n: nat)
    ensures n <= |h|
  {
    if h == [] then 0 else Pages(h[..|h| - 1]) + if h[|h| - 1] then 1 else 0
  }

  function Resources(h: History): nat {
    |h| - Pages(h)
  }

  /** The history exceeds a limit; a limit a u16 counter cannot exceed never triggers. */
  predicate Over(lim: Limits, h: History) {
    (Pages(h) > lim.page && lim.page < U16 - 1) || (Resources(h) > lim.res && lim.res < U16 - 1)
  }

  /** Length of the longest prefix within the limits. */
  function Admitted(lim: Limits, h: History): (n: nat)
    ensures n <= |h|
  {
    if h != [] && Over(lim, h) then Admitted(lim, h[..|h| - 1]) else |h|
  }

  /** The counters as a function of the history: everything up to and including the first refusal is counted. */
  function Counters(lim: Limits, ip: Ip, h: History): Slot {
    var n := Admitted(lim, h);
    var counted := h[..if n < |h| then n + 1 else n];
    Slot(ip, Pages(counted) % U16, Resources(counted) % U16, (|h| - n) % U16)
  }

  /** The verdict on the last request of a history: the `j`-th refusal bans once `j` is past the ban limit. */
  function Ruling(lim: Limits, h: History): Verdict
    requires h != []
  {
    var j := |h| - Admitted(lim, h);
    if j == 0 then Serve else Refuse(j >= 2, j >= 2 && lim.useNft && j % U16 > lim.ban)
  }

  lemma PagesOfPrefix(h: History, n: nat)
    requires n <= |h|
    ensures Pages(h[..n]) <= Pages(h) && Resources(h[..n]) <= Resources(h)
  {
    if n < |h| {
      PagesOfPrefix(h[..|h| - 1], n);
      assert h[..|h| - 1][..n] == h[..n];
    } else {
      assert h[..n] == h;
    }
  }

  /** The admitted prefix is within the limits, and every longer prefix is over them. */
  lemma {:induction false} AdmittedSplits(lim: Limits, h: History)
    ensures forall k :: 0 <= k <= |h| ==> (Over(lim, h[..k]) <==> k > Admitted(lim, h))
    decreases |h|
  {
    if h == [] {
      assert h[..0] == h;
    } else if !Over(lim, h) {
      forall k | 0 <= k <= |h| ensures !Over(lim, h[..k]) { PagesOfPrefix(h, k); }
    } else {
      var g := h[..|h| - 1];
      AdmittedSplits(lim, g);
      forall k | 0 <= k <= |h| ensures Over(lim, h[..k]) <==> k > Admitted(lim, g) {
        if k < |h| { assert g[..k] == h[..k]; } else { assert h[..k] == h; }
      }
    }
  }

  /** One more request: the admitted prefix grows only if nothing was refused yet and the limits still hold. */
  lemma AdmittedStep(lim: Limits, h: History, page: bool)
    ensures Admitted(lim, h + [page]) ==
            if Admitted(lim, h) == |h| && !Over(lim, h + [page]) then |h| + 1 else Admitted(lim, h)
  {
    var g := h + [page];
    assert g[..|h|] == h;
    AdmittedSplits(lim, h);
    assert h[..|h|] == h;
    if Over(lim, h) { PagesOfPrefix(g, |h|); }
  }

  lemma ModStep(a: nat)
    ensures (a % U16 + 1) % U16 == (a + 1) % U16
  {
  }

  lemma CountDecides(count: nat, limit: nat)
    requires limit < U16 - 1 ==> count <= limit + 1
    ensures count % U16 > limit <==> count > limit && limit < U16 - 1
  {
    assert count < U16 ==> count % U16 == count;
  }

  /** As long as only the last request can have exceeded a limit, the u16 counters decide as the true counts do. */
  lemma CountersDecide(lim: Limits, h: History, s: Slot)
    requires h == [] || !Over(lim, h[..|h| - 1])
    requires s.htmlCnt == Pages(h) % U16 && s.noHtmlCnt == Resources(h) % U16
    ensures OverSlot(lim, s) <==> Over(lim, h)
  {
    CountDecides(Pages(h), lim.page);
    CountDecides(Resources(h), lim.res);
  }

  /** The limiter's step on the counters of a history is the closed form of the longer history. */
  lemma HitRefines(lim: Limits, ip: Ip, h: History, page: bool)
    ensures Hit(lim, Counters(lim, ip, h), page) == (Counters(lim, ip, h + [page]), Ruling(lim, h + [page]))
  {
    if Admitted(lim, h) < |h| { HitRefused(lim, ip, h, page); } else { HitAdmitted(lim, ip, h, page); }
  }

  lemma HitRefused(lim: Limits, ip: Ip, h: History, page: bool)
    requires Admitted(lim, h) < |h|
    ensures Hit(lim, Counters(lim, ip, h), page) == (Counters(lim, ip, h + [page]), Ruling(lim, h + [page]))
  {
    hide Over, OverSlot, Pages, Admitted;
    var g := h + [page];
    var n := Admitted(lim, h);
    var counted := h[..n + 1];
    AdmittedStep(lim, h, page);
    AdmittedSplits(lim, h);
    assert counted[..n] == h[..n] && g[..n + 1] == counted;
    CountersDecide(lim, counted, Counters(lim, ip, h));
    ModStep(|h| - n);
  }

  lemma PagesStep(h: History, page: bool)
    ensures Pages(h + [page]) == Pages(h) + if page then 1 else 0
    ensures Resources(h + [page]) == Resources(h) + if page then 0 else 1
  {
    assert (h + [page])[..|h|] == h;
  }

  lemma HitAdmitted(lim: Limits, ip: Ip, h: History, page: bool)
    requires Admitted(lim, h) == |h|
    ensures Hit(lim, Counters(lim, ip, h), page) == (Counters(lim, ip, h + [page]), Ruling(lim, h + [page]))
  {
    hide Over, OverSlot, Admitted, Pages, Resources;
    var g := h + [page];
    PagesStep(h, page);
    AdmittedStep(lim, h, page);
    AdmittedSplits(lim, h);
    assert h[..|h|] == h && g[..|g| - 1] == h && g[..|g|] == g;
    if h != [] { assert !Over(lim, h[..|h| - 1]); }
    CountersDecide(lim, h, Counters(lim, ip, h));
    ModStep(Pages(h));
    ModStep(Resources(h));
    CountersDecide(lim, g, Slot(ip, Pages(g) % U16, Resources(g) % U16, 0));
  }

  /**
   Within one window: a run of served requests and then only refusals, and what was served respects both limits
   (a limit of 65535 or more is out of reach of a u16 counter and limits nothing).
   */
  lemma ServedThenRefused(lim: Limits, h: History, longer: History)
    requires h != [] && h <= longer
    ensures Ruling(lim, h) == Serve <==> !Over(lim, h)
    ensures Ruling(lim, longer) == Serve ==> Ruling(lim, h) == Serve
    ensures Ruling(lim, h) == Serve && lim.page < U16 - 1 ==> Pages(h) <= lim.page
    ensures Ruling(lim, h) == Serve && lim.res < U16 - 1 ==> Resources(h) <= lim.res
  {
    AdmittedSplits(lim, h);
    AdmittedSplits(lim, longer);
    assert h[..|h|] == h && longer[..|h|] == h && longer[..|longer|] == longer;
    PagesOfPrefix(longer, |h|);
  }

  /** A history that respects both limits. */
  predicate Within(lim: Limits, h: History) {
    multiset(h)[true] <= lim.page && multiset(h)[false] <= lim.res
  }

  lemma {:induction false} PagesCounted(h: History)
    ensures multiset(h)[true] == Pages(h) && multiset(h)[false] == Resources(h)
  {
    if h != [] {
      PagesCounted(h[..|h| - 1]);
      assert h == h[..|h| - 1] + [h[|h| - 1]];
    }
  }

  /**
   With limits a u16 counter can exceed, a request is served exactly if it and all before it respect the limits; the
   first one that does not is refused and its connection kept, every later one is refused and closed on.
   */
  lemma RulingIff(lim: Limits, h: History)
    requires h != [] && lim.page < U16 - 1 && lim.res < U16 - 1
    ensures Ruling(lim, h) == Serve <==> Within(lim, h)
    ensures Ruling(lim, h).Refuse? ==> (Ruling(lim, h).closes <==> !Within(lim, h[..|h| - 1]))
  {
    hide Pages, Resources;
    var g := h[..|h| - 1];
    PagesCounted(h);
    PagesCounted(g);
    AdmittedSplits(lim, h);
    assert h[..|h|] == h;
  }

  /** How many requests of a history were refused, counted one by one. */
  function Refusals(lim: Limits, h: History): nat {
    if h == [] then 0 else Refusals(lim, h[..|h| - 1]) + if Ruling(lim, h).Refuse? then 1 else 0
  }

  /** How many page-class (or resource-class) requests of a history were served, counted one by one. */
  function Served(lim: Limits, h: History, page: bool): nat {
    if h == [] then 0
    else Served(lim, h[..|h| - 1], page) + if Ruling(lim, h) == Serve && h[|h| - 1] == page then 1 else 0
  }

  /** Everything behind the admitted prefix was refused, and the admitted prefix was served. */
  lemma {:induction false} VerdictCounts(lim: Limits, h: History)
    ensures Refusals(lim, h) == |h| - Admitted(lim, h)
    ensures Served(lim, h, true) == Pages(h[..Admitted(lim, h)])
    ensures Served(lim, h, false) == Resources(h[..Admitted(lim, h)])
    decreases |h|
  {
    if h == [] {
      assert h[..0] == h;
    } else {
      var g := h[..|h| - 1];
      VerdictCounts(lim, g);
      assert h == g + [h[|h| - 1]];
      AdmittedStep(lim, g, h[|h| - 1]);
      if Admitted(lim, h) == |h| { assert h[..|h|] == h && g[..|g|] == g; }
      else { assert h[..Admitted(lim, h)] == g[..Admitted(lim, h)]; }
    }
  }

  /** Within one window a client is served at most as many requests of either class as its limit. */
  lemma ServedWithinLimits(lim: Limits, h: History)
    ensures lim.page < U16 - 1 ==> Served(lim, h, true) <= lim.page
    ensures lim.res < U16 - 1 ==> Served(lim, h, false) <= lim.res
  {
    hide Served, Admitted;
    VerdictCounts(lim, h);
    AdmittedSplits(lim, h);
    assert !Over(lim, h[..Admitted(lim, h)]);
  }

  /** Until the u16 counter wraps, and with nft on, the `j`-th refusal bans exactly when `j >= 2` and `j > ban`. */
  lemma BanRule(lim: Limits, h: History)
    requires h != [] && Refusals(lim, h) < U16
    ensures Ruling(lim, h).Refuse? && Ruling(lim, h).ban <==>
            lim.useNft && Refusals(lim, h) >= 2 && Refusals(lim, h) > lim.ban
  {
    VerdictCounts(lim, h);
  }

  // ---------------------------------------------------------------- the table

  /** The slot search: the client's own slot, else the first free one, else the last slot whatever it holds. */
  function FindSlot(slots: seq<Slot>, ip: Ip, i: nat): (r: nat)
    requires i < |slots|
    ensures i <= r < |slots|
    ensures r < |slots| - 1 ==> slots[r].ip == ip || slots[r].ip == NO_IP
    ensures forall k :: i <= k < r ==> slots[k].ip != ip && slots[k].ip != NO_IP
    decreases |slots| - i
  {
    if slots[i].ip == ip || slots[i].ip == NO_IP || i == |slots| - 1 then i else FindSlot(slots, ip, i + 1)
  }

  /** One request on the whole table. */
  function TableHit(lim: Limits, slots: seq<Slot>, ip: Ip, page: bool): (seq<Slot>, Verdict)
    requires slots != []
  {
    var i := FindSlot(slots, ip, 0);
    var (s, v) := Hit(lim, Claimed(slots, ip)[i], page);
    (slots[i := s], v)
  }

  /** The table after the search: a free slot it stopped at now carries the client's address. */
  function Claimed(slots: seq<Slot>, ip: Ip): (r: seq<Slot>)
    requires slots != []
    ensures |r| == |slots|
  {
    var i := FindSlot(slots, ip, 0);
    if slots[i].ip == NO_IP then slots[i := slots[i].(ip := ip)] else slots
  }

  /** Every request that gets as far as the table changes it. */
  lemma HitLeavesTrace(lim: Limits, slots: seq<Slot>, ip: Ip, page: bool)
    requires slots != []
    ensures TableHit(lim, slots, ip, page).0 != slots
  {
    hide OverSlot;
    var i := FindSlot(slots, ip, 0);
    var was, now := slots[i], TableHit(lim, slots, ip, page).0[i];
    OneMore(was.htmlCnt);
    OneMore(was.noHtmlCnt);
    OneMore(was.dosCnt);
    assert now != was;
  }

  lemma OneMore(n: nat)
    ensures (n + 1) % U16 != n
  {
  }

  const FREE := Slot(NO_IP, 0, 0, 0)

  function EmptyTable(): seq<Slot> {
    seq(SLOTS, _ => FREE)
  }

  /** `nft_arr_p`, shared by every connection of the child process. */
  class Table {
    const slots: array<Slot>

    constructor ()
      ensures fresh(slots) && slots[..] == EmptyTable()
    {
      slots := new Slot[SLOTS](_ => FREE);
    }

    /** The slot search of `_fws_443_run`, which also claims a free slot. */
    method Locate(ip: Ip) returns (nftI: nat)
      requires slots.Length == SLOTS
      modifies slots
      ensures nftI == FindSlot(old(slots[..]), ip, 0)
      ensures slots[..] == Claimed(old(slots[..]), ip)
    {
      ghost var was := slots[..];
      nftI := 0;
      var i := 0;
      while i < slots.Length
        invariant 0 <= i <= slots.Length && slots[..] == was
        invariant if i < slots.Length then FindSlot(was, ip, 0) == FindSlot(was, ip, i)
                  else nftI == FindSlot(was, ip, 0)
        invariant i == slots.Length ==> was[nftI].ip != ip && was[nftI].ip != NO_IP
      {
        if slots[i].ip == ip { return i; }
        if slots[i].ip == NO_IP {
          slots[i] := slots[i].(ip := ip);
          return i;
        }
        nftI := i;
        i := i + 1;
      }
    }

    /** The limit checks and the counting of `_fws_443_run`. */
    method Request(lim: Limits, ip: Ip, page: bool) returns (v: Verdict)
      requires slots.Length == SLOTS
      modifies slots
      ensures (slots[..], v) == TableHit(lim, old(slots[..]), ip, page)
    {
      hide FindSlot;
      ghost var was := slots[..];
      var i := Locate(ip);
      if slots[i].htmlCnt > lim.page || slots[i].noHtmlCnt > lim.res {
        slots[i] := slots[i].(dosCnt := (slots[i].dosCnt + 1) % U16);
        assert slots[..] == was[i := slots[i]];
        return Refuse(true, lim.useNft && slots[i].dosCnt > lim.ban);
      }
      if page {
        slots[i] := slots[i].(htmlCnt := (slots[i].htmlCnt + 1) % U16);
      } else {
        slots[i] := slots[i].(noHtmlCnt := (slots[i].noHtmlCnt + 1) % U16);
      }
      if slots[i].htmlCnt > lim.page || slots[i].noHtmlCnt > lim.res {
        slots[i] := slots[i].(dosCnt := (slots[i].dosCnt + 1) % U16);
        assert slots[..] == was[i := slots[i]];
        return Refuse(false, false);
      }
      assert slots[..] == was[i := slots[i]];
      return Serve;
    }

    /** The timer: `memset` over the whole array. */
    method Reset()
      requires slots.Length == SLOTS
      modifies slots
      ensures slots[..] == EmptyTable()
    {
      forall i | 0 <= i < slots.Length { slots[i] := FREE; }
    }
  }
}
