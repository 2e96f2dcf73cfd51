/** Whole runs of the rate limiter: any sequence of requests and timer resets. */
module LimiterRuns {
  import opened RateLimiter

  datatype Req = Req(ip: Ip, page: bool)

  datatype Event = Arrive(req: Req) | Tick

  /** The table after a run. */
  function RunTable(lim: Limits, events: seq<Event>): (slots: seq<Slot>)
    ensures |slots| == SLOTS
  {
    if events == [] then EmptyTable()
    else
      var before := RunTable(lim, events[..|events| - 1]);
      match events[|events| - 1]
      case Tick => EmptyTable()
      case Arrive(r) => TableHit(lim, before, r.ip, r.page).0
  }

  /** The requests since the last reset. */
  function Window(events: seq<Event>): seq<Req> {
    if events == [] then []
    else
      match events[|events| - 1]
      case Tick => []
      case Arrive(r) => Window(events[..|events| - 1]) + [r]
  }

  lemma WindowGrows(events: seq<Event>, r: Req)
    ensures Window(events + [Arrive(r)]) == Window(events) + [r]
  {
    assert (events + [Arrive(r)])[..|events|] == events;
  }

  // ---------------------------------------------------------------- the abstract map

  predicate RealClients(w: seq<Req>) {
    forall i :: 0 <= i < |w| ==> w[i].ip != NO_IP
  }

  predicate RealEvents(events: seq<Event>) {
    forall i :: 0 <= i < |events| && events[i].Arrive? ==> events[i].req.ip != NO_IP
  }

  /** The distinct clients of a window, in order of first appearance. */
  function Clients(w: seq<Req>): seq<Ip> {
    if w == [] then []
    else
      var d := Clients(w[..|w| - 1]);
      if w[|w| - 1].ip in d then d else d + [w[|w| - 1].ip]
  }

  function IndexOf(d: seq<Ip>, ip: Ip): (r: nat)
    ensures r <= |d| && (r < |d| ==> d[r] == ip)
    ensures r < |d| <==> ip in d
    ensures forall k :: 0 <= k < r ==> d[k] != ip
  {
    if d == [] then 0 else if d[0] == ip then 0 else 1 + IndexOf(d[1..], ip)
  }

  /** The first 1023 clients have a slot each; everybody else shares the last one. */
  function SlotOf(d: seq<Ip>, ip: Ip): (s: nat)
    ensures s < SLOTS
  {
    if IndexOf(d, ip) < SLOTS then IndexOf(d, ip) else SLOTS - 1
  }

  /** The requests of a window that belong to slot `s`. */
  function HistoryAt(w: seq<Req>, s: nat): History {
    if w == [] then []
    else
      var r := w[|w| - 1];
      HistoryAt(w[..|w| - 1], s) + if SlotOf(Clients(w), r.ip) == s then [r.page] else []
  }

  function Expected(lim: Limits, w: seq<Req>): (slots: seq<Slot>)
    ensures |slots| == SLOTS
  {
    seq(SLOTS, s requires 0 <= s < SLOTS => Counters(lim, OwnerAt(w, s), HistoryAt(w, s)))
  }

  function OwnerAt(w: seq<Req>, s: nat): Ip {
    if s < |Clients(w)| then Clients(w)[s] else NO_IP
  }

  lemma {:induction false} ClientsDistinct(w: seq<Req>)
    ensures forall i, j :: 0 <= i < j < |Clients(w)| ==> Clients(w)[i] != Clients(w)[j]
    ensures RealClients(w) ==> forall i :: 0 <= i < |Clients(w)| ==> Clients(w)[i] != NO_IP
    ensures forall i :: 0 <= i < |w| ==> w[i].ip in Clients(w)
  {
    if w != [] {
      var v := w[..|w| - 1];
      ClientsDistinct(v);
      assert forall i :: 0 <= i < |v| ==> w[i] == v[i];
    }
  }

  lemma ClientsStep(w: seq<Req>, r: Req)
    ensures Clients(w + [r]) == if r.ip in Clients(w) then Clients(w) else Clients(w) + [r.ip]
    ensures forall s :: HistoryAt(w + [r], s) ==
                        HistoryAt(w, s) + if SlotOf(Clients(w + [r]), r.ip) == s then [r.page] else []
  {
    assert (w + [r])[..|w|] == w;
  }

  lemma {:induction false} FindSlotIs(slots: seq<Slot>, ip: Ip, i: nat, k: nat)
    requires i <= k < |slots|
    requires forall j :: i <= j < k ==> slots[j].ip != ip && slots[j].ip != NO_IP
    requires slots[k].ip == ip || slots[k].ip == NO_IP || k == |slots| - 1
    ensures FindSlot(slots, ip, i) == k
    decreases k - i
  {
    if i < k { FindSlotIs(slots, ip, i + 1, k); }
  }

  /** The linear search finds the slot the abstract map assigns. */
  lemma SearchFindsSlot(lim: Limits, w: seq<Req>, r: Req)
    requires RealClients(w) && r.ip != NO_IP
    ensures FindSlot(Expected(lim, w), r.ip, 0) == SlotOf(Clients(w + [r]), r.ip)
  {
    hide Counters, HistoryAt, FindSlot;
    var d := Clients(w);
    var slots := Expected(lim, w);
    assert forall j :: 0 <= j < SLOTS ==> slots[j].ip == OwnerAt(w, j) by { OwnersKept(lim, w); }
    ClientsDistinct(w);
    ClientsStep(w, r);
    var k := SlotOf(Clients(w + [r]), r.ip);
    FindSlotIs(slots, r.ip, 0, k);
  }

  lemma OwnersKept(lim: Limits, w: seq<Req>)
    ensures forall j :: 0 <= j < SLOTS ==> Expected(lim, w)[j].ip == OwnerAt(w, j)
  {
  }

  /** One request on the expected table gives the expected table of the longer window. */
  lemma RequestRefines(lim: Limits, w: seq<Req>, r: Req)
    requires RealClients(w) && r.ip != NO_IP
    ensures var s := SlotOf(Clients(w + [r]), r.ip);
            TableHit(lim, Expected(lim, w), r.ip, r.page) ==
            (Expected(lim, w + [r]), Ruling(lim, HistoryAt(w, s) + [r.page]))
  {
    hide Counters, HistoryAt, FindSlot, Hit, SlotOf, Clients;
    var s := SlotOf(Clients(w + [r]), r.ip);
    var slots, next := Expected(lim, w), Expected(lim, w + [r]);
    SearchFindsSlot(lim, w, r);
    ClientsStep(w, r);
    OwnerStep(w, r);
    HitRefines(lim, OwnerAt(w + [r], s), HistoryAt(w, s), r.page);
    ClaimedOwner(lim, w, r);
    var (t, v) := Hit(lim, Claimed(slots, r.ip)[s], r.page);
    assert t == next[s] == Counters(lim, OwnerAt(w + [r], s), HistoryAt(w + [r], s));
    forall k | 0 <= k < SLOTS ensures slots[s := t][k] == next[k] {
      if k != s {
        assert OwnerAt(w, k) == OwnerAt(w + [r], k);
        assert HistoryAt(w, k) + [] == HistoryAt(w, k) == HistoryAt(w + [r], k);
        assert next[k] == Counters(lim, OwnerAt(w + [r], k), HistoryAt(w + [r], k));
      }
    }
    assert slots[s := t] == next;
  }

  lemma OwnerStep(w: seq<Req>, r: Req)
    ensures forall k :: 0 <= k < SLOTS && k != SlotOf(Clients(w + [r]), r.ip) ==> OwnerAt(w, k) == OwnerAt(w + [r], k)
  {
    hide HistoryAt;
    ClientsStep(w, r);
  }

  lemma ClaimedOwner(lim: Limits, w: seq<Req>, r: Req)
    requires RealClients(w) && r.ip != NO_IP
    ensures var s := SlotOf(Clients(w + [r]), r.ip);
            Claimed(Expected(lim, w), r.ip)[s] == Counters(lim, OwnerAt(w + [r], s), HistoryAt(w, s))
  {
    hide HistoryAt, FindSlot;
    SearchFindsSlot(lim, w, r);
    ClientsStep(w, r);
    ClientsDistinct(w);
  }

  /**
   For every run and every setting of the limits, the table holds exactly the closed-form counters of each slot's
   history: occupied slots form a prefix with distinct addresses, in order of first appearance.
   */
  lemma {:induction false} RunRefines(lim: Limits, events: seq<Event>)
    requires RealEvents(events)
    ensures RealClients(Window(events))
    ensures RunTable(lim, events) == Expected(lim, Window(events))
  {
    hide Counters, TableHit, Expected, EmptyTable, Clients, HistoryAt;
    if events == [] || events[|events| - 1].Tick? {
      EmptyExpected(lim);
    } else {
      var before := events[..|events| - 1];
      var r := events[|events| - 1].req;
      assert Window(events) == Window(before) + [r];
      RunRefines(lim, before);
      RequestRefines(lim, Window(before), r);
    }
  }

  lemma EmptyExpected(lim: Limits)
    ensures Expected(lim, []) == EmptyTable()
  {
    assert forall s :: 0 <= s < SLOTS ==> Expected(lim, [])[s] == FREE;
  }

  // ---------------------------------------------------------------- whose requests a slot counts

  /** The requests of one client, in order. */
  function OfClient(w: seq<Req>, ip: Ip): History {
    if w == [] then [] else OfClient(w[..|w| - 1], ip) + if w[|w| - 1].ip == ip then [w[|w| - 1].page] else []
  }

  /** The requests of everybody but the clients in `d`, in order. */
  function OfOthers(w: seq<Req>, d: seq<Ip>): History {
    if w == [] then [] else OfOthers(w[..|w| - 1], d) + if w[|w| - 1].ip !in d then [w[|w| - 1].page] else []
  }

  lemma {:induction false} ClientsGrow(w: seq<Req>, n: nat)
    requires n <= |w|
    ensures Clients(w[..n]) <= Clients(w)
    decreases |w|
  {
    if n < |w| {
      ClientsGrow(w[..|w| - 1], n);
      assert w[..|w| - 1][..n] == w[..n];
    } else {
      assert w[..n] == w;
    }
  }

  lemma {:induction false} IndexOfIs(d: seq<Ip>, ip: Ip, k: nat)
    requires k < |d| && d[k] == ip && forall j :: 0 <= j < k ==> d[j] != ip
    ensures IndexOf(d, ip) == k
  {
  }

  /** The slot a client was given in a window is the one it keeps in every extension of that window. */
  lemma SlotStable(d: seq<Ip>, e: seq<Ip>, ip: Ip)
    requires d <= e && ip in d
    ensures SlotOf(d, ip) == SlotOf(e, ip)
  {
    IndexOfIs(e, ip, IndexOf(d, ip));
  }

  /** A tracked client's slot counts that client's requests, all of them and nothing else. */
  lemma {:induction false} TrackedExactly(w: seq<Req>, e: seq<Ip>, s: nat)
    requires Clients(w) <= e && s < SLOTS - 1 && s < |e|
    requires forall i, j :: 0 <= i < j < |e| ==> e[i] != e[j]
    ensures HistoryAt(w, s) == OfClient(w, e[s])
  {
    if w != [] {
      var v := w[..|w| - 1];
      var ip := w[|w| - 1].ip;
      ClientsGrow(w, |w| - 1);
      TrackedExactly(v, e, s);
      ClientsDistinct(w);
      assert w[|w| - 1].ip in Clients(w);
      SlotStable(Clients(w), e, ip);
      assert e[IndexOf(e, ip)] == ip;
    }
  }

  /** The last slot counts the combined requests of every client that is not among the first 1023. */
  lemma {:induction false} SharedBucket(w: seq<Req>, e: seq<Ip>)
    requires Clients(w) <= e
    requires forall i, j :: 0 <= i < j < |e| ==> e[i] != e[j]
    ensures HistoryAt(w, SLOTS - 1) == OfOthers(w, if |e| < SLOTS - 1 then e else e[..SLOTS - 1])
  {
    if w != [] {
      var v := w[..|w| - 1];
      var ip := w[|w| - 1].ip;
      ClientsGrow(w, |w| - 1);
      SharedBucket(v, e);
      ClientsDistinct(w);
      assert w[|w| - 1].ip in Clients(w);
      SlotStable(Clients(w), e, ip);
      var first := if |e| < SLOTS - 1 then e else e[..SLOTS - 1];
      var k := IndexOf(e, ip);
      assert e[k] == ip;
      if k < SLOTS - 1 { assert first[k] == ip; }
      else { assert ip !in first; }
    }
  }

  /**
   The map the table implements.  After any run, the next request of a client is ruled by that client's own history
   since the last reset, if it is among the first 1023 clients of the window; otherwise by the combined history of
   all the clients that are not.
   */
  lemma NextRuling(lim: Limits, events: seq<Event>, r: Req)
    requires RealEvents(events) && r.ip != NO_IP
    ensures var w := Window(events) + [r];
            var d := Clients(w);
            TableHit(lim, RunTable(lim, events), r.ip, r.page).1 ==
            Ruling(lim, if IndexOf(d, r.ip) < SLOTS - 1 then OfClient(w, r.ip)
                        else OfOthers(w, d[..SLOTS - 1]))
  {
    hide Counters, TableHit, HistoryAt, Clients, Ruling;
    var v := Window(events);
    var w := v + [r];
    var d := Clients(w);
    var s := SlotOf(d, r.ip);
    RunRefines(lim, events);
    RequestRefines(lim, v, r);
    ClientsStep(v, r);
    ClientsDistinct(w);
    assert HistoryAt(w, s) == HistoryAt(v, s) + [r.page];
    assert w[|v|].ip in d;
    if IndexOf(d, r.ip) < SLOTS - 1 { TrackedExactly(w, d, s); } else { SharedBucket(w, d); }
  }

  /**
   Bans on whole runs: the next request of one of the first 1023 clients of a window emits a ban message exactly when
   nft is on and it is that client's `j`-th refusal since the last reset, with `j >= 2` and `j > ban`, as long as `j`
   fits 16 bits.
   */
  lemma BansExactly(lim: Limits, events: seq<Event>, r: Req)
    requires RealEvents(events) && r.ip != NO_IP
    requires var w := Window(events) + [r];
             IndexOf(Clients(w), r.ip) < SLOTS - 1 && Refusals(lim, OfClient(w, r.ip)) < U16
    ensures var v := TableHit(lim, RunTable(lim, events), r.ip, r.page).1;
            var j := Refusals(lim, OfClient(Window(events) + [r], r.ip));
            v.Refuse? && v.ban <==> lim.useNft && j >= 2 && j > lim.ban
  {
    hide TableHit, RunTable, Refusals, Ruling, Clients;
    NextRuling(lim, events, r);
    assert (Window(events) + [r])[..|Window(events)|] == Window(events);
    BanRule(lim, OfClient(Window(events) + [r], r.ip));
  }

  // ---------------------------------------------------------------- limits over whole runs

  /** How many requests of a client and class were served since the last reset, counted over the verdicts of the run. */
  function ServedIn(lim: Limits, events: seq<Event>, ip: Ip, page: bool): nat {
    if events == [] then 0
    else
      var before := events[..|events| - 1];
      match events[|events| - 1]
      case Tick => 0
      case Arrive(r) =>
        ServedIn(lim, before, ip, page) +
        if r.ip == ip && r.page == page && TableHit(lim, RunTable(lim, before), ip, page).1 == Serve then 1 else 0
  }

  lemma ServedInStep(lim: Limits, events: seq<Event>, e: Event, ip: Ip, page: bool)
    ensures ServedIn(lim, events + [e], ip, page) ==
            if e.Tick? then 0
            else
              ServedIn(lim, events, ip, page) +
              if e.req.ip == ip && e.req.page == page &&
                 TableHit(lim, RunTable(lim, events), ip, page).1 == Serve then 1 else 0
  {
    hide TableHit, RunTable;
    assert (events + [e])[..|events|] == events;
  }

  /** No 1023 other clients came before this one in the window, if it came at all. */
  predicate Tracked(w: seq<Req>, ip: Ip) {
    ip in Clients(w) ==> IndexOf(Clients(w), ip) < SLOTS - 1
  }

  /** One more request, as a client sees it. */
  lemma ClientStep(v: seq<Req>, r: Req, ip: Ip)
    ensures OfClient(v + [r], ip) == OfClient(v, ip) + if r.ip == ip then [r.page] else []
    ensures Tracked(v + [r], ip) ==> Tracked(v, ip)
    ensures Tracked(v + [r], r.ip) ==> IndexOf(Clients(v + [r]), r.ip) < SLOTS - 1
  {
    hide Clients, HistoryAt;
    assert (v + [r])[..|v|] == v;
    ClientsStep(v, r);
    ClientsGrow(v + [r], |v|);
    var d, e := Clients(v), Clients(v + [r]);
    if ip in d { IndexOfIs(e, ip, IndexOf(d, ip)); }
    assert r.ip in e;
  }

  lemma ServedStep(lim: Limits, h: History, p: bool, page: bool)
    ensures Served(lim, h + [p], page) ==
            Served(lim, h, page) + if Ruling(lim, h + [p]) == Serve && p == page then 1 else 0
  {
    hide Ruling;
    assert (h + [p])[..|h|] == h;
  }

  /** Counting over the verdicts of a run is counting over the client's own history. */
  lemma {:induction false} ServedOverRun(lim: Limits, events: seq<Event>, ip: Ip, page: bool)
    requires RealEvents(events) && ip != NO_IP && Tracked(Window(events), ip)
    ensures ServedIn(lim, events, ip, page) == Served(lim, OfClient(Window(events), ip), page)
    decreases |events|
  {
    hide TableHit, RunTable, Clients, Ruling, Served, Tracked;
    if events == [] || events[|events| - 1].Tick? {
      NothingServed(lim, ip, page);
    } else {
      var before, r := events[..|events| - 1], events[|events| - 1].req;
      var v := Window(before);
      ClientStep(v, r, ip);
      ServedOverRun(lim, before, ip, page);
      if r.ip == ip {
        NextRuling(lim, before, r);
        ServedStep(lim, OfClient(v, ip), r.page, page);
      } else {
        assert OfClient(v, ip) + [] == OfClient(v, ip);
      }
    }
  }

  lemma NothingServed(lim: Limits, ip: Ip, page: bool)
    ensures Served(lim, OfClient([], ip), page) == 0
  {
  }

  /**
   The limits on whole runs: between two resets, a client among the first 1023 of the window is served at most
   `lim.page` pages and `lim.res` resources.
   */
  lemma LimitsOverRun(lim: Limits, events: seq<Event>, ip: Ip)
    requires RealEvents(events) && ip != NO_IP && Tracked(Window(events), ip)
    ensures lim.page < U16 - 1 ==> ServedIn(lim, events, ip, true) <= lim.page
    ensures lim.res < U16 - 1 ==> ServedIn(lim, events, ip, false) <= lim.res
  {
    hide ServedIn, Served, Window, Tracked, OfClient;
    ServedOverRun(lim, events, ip, true);
    ServedOverRun(lim, events, ip, false);
    ServedWithinLimits(lim, OfClient(Window(events), ip));
  }
}
