/**
 The serving process: any number of HTTPS connections that share one rate-limiter table, driven by any order of
 readiness events and timer resets (`fws_child_run` and `_fws_443_run`, src/fws.c).
 */
module Server {
  import opened Bytes
  import opened Dispatch
  import opened Site
  import C = CleanUrl
  import L = RateLimiter
  import R = LimiterRuns
  import N = Connection
  import T = TlsRead

  /** What is fixed while the process runs. */
  datatype Setup = Setup(env: Environment, types: Types, names: Names, lim: L.Limits, texts: Texts)

  /** What one request asks for. */
  function OutcomeOf(su: Setup, buf: string): C.Outcome {
    var a := Ask(su.names, buf);
    C.Parse(su.env.fs, a.root, a.path)
  }

  /** The limiter's verdict on a request of `ip` that meets the table `slots`; requests it does not count pass. */
  function VerdictOn(su: Setup, slots: seq<L.Slot>, ip: L.Ip, buf: string): L.Verdict
    requires slots != []
  {
    var o := OutcomeOf(su, buf);
    if Counted(o) then L.TableHit(su.lim, slots, ip, IsPage(o)).1 else L.Serve
  }

  /** The reply to one request of `ip` that meets the table `slots`. */
  function Ruled(su: Setup, slots: seq<L.Slot>, ip: L.Ip, buf: string): N.Reply
    requires Consistent(su.env) && slots != []
  {
    AnswerTo(su.env, su.types, su.names, VerdictOn(su, slots, ip, buf), buf, su.texts)
  }

  /** The table after one request. */
  function Hit(su: Setup, slots: seq<L.Slot>, ip: L.Ip, buf: string): (r: seq<L.Slot>)
    requires slots != []
    ensures |r| == |slots|
  {
    var o := OutcomeOf(su, buf);
    if Counted(o) then L.TableHit(su.lim, slots, ip, IsPage(o)).0 else slots
  }

  // ---------------------------------------------------------------- the journal

  /** What happens to the process: a timer reset, or a request of connection `k`. */
  datatype Happening = Reset | Came(k: nat, buf: string)

  type Journal = seq<Happening>

  function Last(j: Journal): Happening
    requires j != []
  {
    j[|j| - 1]
  }

  function Before(j: Journal): Journal
    requires j != []
    ensures |Before(j)| < |j|
  {
    j[..|j| - 1]
  }

  /** What the limiter sees of one entry; `ips` are the addresses of the connections. */
  function EventsAt(su: Setup, ips: seq<L.Ip>, h: Happening): seq<R.Event> {
    if h.Reset? then [R.Tick]
    else if h.k < |ips| && Counted(OutcomeOf(su, h.buf)) then
      [R.Arrive(R.Req(ips[h.k], IsPage(OutcomeOf(su, h.buf))))]
    else []
  }

  function Events(su: Setup, ips: seq<L.Ip>, j: Journal): seq<R.Event> {
    if j == [] then [] else Events(su, ips, Before(j)) + EventsAt(su, ips, Last(j))
  }

  function TableAfter(su: Setup, ips: seq<L.Ip>, j: Journal): (slots: seq<L.Slot>)
    ensures |slots| == L.SLOTS
  {
    R.RunTable(su.lim, Events(su, ips, j))
  }

  predicate ByConnection(h: Happening, k: nat) {
    h.Came? && h.k == k
  }

  /** The requests of connection `k`. */
  function BufsOf(j: Journal, k: nat): seq<string> {
    if j == [] then [] else BufsOf(Before(j), k) + if ByConnection(Last(j), k) then [Last(j).buf] else []
  }

  /** The replies connection `k` is owed: each request is ruled by the table it met. */
  function RepliesOf(su: Setup, ips: seq<L.Ip>, j: Journal, k: nat): seq<N.Reply>
    requires Consistent(su.env) && k < |ips|
  {
    if j == [] then []
    else
      RepliesOf(su, ips, Before(j), k) +
      if ByConnection(Last(j), k) then [Ruled(su, TableAfter(su, ips, Before(j)), ips[k], Last(j).buf)] else []
  }

  /** One more entry, as the table sees it. */
  lemma TableStep(su: Setup, ips: seq<L.Ip>, j: Journal, h: Happening)
    ensures TableAfter(su, ips, j + [h]) ==
            if h.Reset? then L.EmptyTable()
            else if h.k < |ips| then Hit(su, TableAfter(su, ips, j), ips[h.k], h.buf)
            else TableAfter(su, ips, j)
  {
    hide OutcomeOf, L.TableHit, Counted, IsPage;
    assert Before(j + [h]) == j && Last(j + [h]) == h;
    var ev, more := Events(su, ips, j), EventsAt(su, ips, h);
    assert more != [] ==> (ev + more)[..|ev|] == ev;
    assert ev + [] == ev;
  }

  /** One more entry, as connection `k` sees it. */
  lemma JournalStep(su: Setup, ips: seq<L.Ip>, j: Journal, h: Happening, k: nat)
    requires Consistent(su.env) && k < |ips|
    ensures BufsOf(j + [h], k) == BufsOf(j, k) + if ByConnection(h, k) then [h.buf] else []
    ensures RepliesOf(su, ips, j + [h], k) ==
            RepliesOf(su, ips, j, k) +
            if ByConnection(h, k) then [Ruled(su, TableAfter(su, ips, j), ips[k], h.buf)] else []
  {
    hide Ruled, TableAfter;
    assert Before(j + [h]) == j && Last(j + [h]) == h;
  }

  // ---------------------------------------------------------------- one readiness event

  function SlotsAfter(su: Setup, slots: seq<L.Slot>, ip: L.Ip, bufs: seq<string>): (r: seq<L.Slot>)
    requires slots != []
    ensures |r| == |slots|
  {
    if bufs == [] then slots else Hit(su, SlotsAfter(su, slots, ip, bufs[..|bufs| - 1]), ip, bufs[|bufs| - 1])
  }

  function RepliesTo(su: Setup, slots: seq<L.Slot>, ip: L.Ip, bufs: seq<string>): (r: seq<N.Reply>)
    requires Consistent(su.env) && slots != []
    ensures |r| == |bufs|
  {
    if bufs == [] then []
    else
      var front := bufs[..|bufs| - 1];
      RepliesTo(su, slots, ip, front) + [Ruled(su, SlotsAfter(su, slots, ip, front), ip, bufs[|bufs| - 1])]
  }

  /**
   The handler during one event: what was decided before stays, and every new request meets the table as it is by then.
   */
  function EventHandler(su: Setup, slots: seq<L.Slot>, ip: L.Ip, decided: seq<N.Reply>): N.Handler
    requires Consistent(su.env) && slots != []
  {
    (prior: seq<string>, buf: string) =>
      if |prior| < |decided| then decided[|prior|]
      else Ruled(su, SlotsAfter(su, slots, ip, prior[|decided|..]), ip, buf)
  }

  /** The handler that has nothing left to decide. */
  function Recorded(decided: seq<N.Reply>): N.Handler {
    (prior: seq<string>, buf: string) => if |prior| < |decided| then decided[|prior|] else N.Drop
  }

  /** The entries for new requests of connection `k`. */
  function Entries(k: nat, bufs: seq<string>): (j: Journal)
    ensures |j| == |bufs|
  {
    seq(|bufs|, i requires 0 <= i < |bufs| => Came(k, bufs[i]))
  }

  lemma EntriesLast(k: nat, bufs: seq<string>, j: Journal)
    requires bufs != []
    ensures var front := bufs[..|bufs| - 1];
            && bufs == front + [bufs[|bufs| - 1]]
            && j + Entries(k, bufs) == j + Entries(k, front) + [Came(k, bufs[|bufs| - 1])]
  {
    var front := bufs[..|bufs| - 1];
    assert Entries(k, bufs) == Entries(k, front) + [Came(k, bufs[|bufs| - 1])];
    Regroup(j, Entries(k, front), [Came(k, bufs[|bufs| - 1])]);
  }

  lemma {:induction false} EntriesTable(su: Setup, ips: seq<L.Ip>, j: Journal, k: nat, bufs: seq<string>)
    requires k < |ips|
    ensures TableAfter(su, ips, j + Entries(k, bufs)) == SlotsAfter(su, TableAfter(su, ips, j), ips[k], bufs)
    decreases |bufs|
  {
    hide TableAfter, Hit, Entries;
    if bufs == [] {
      assert j + Entries(k, bufs) == j;
    } else {
      var front := bufs[..|bufs| - 1];
      EntriesTable(su, ips, j, k, front);
      EntriesLast(k, bufs, j);
      TableStep(su, ips, j + Entries(k, front), Came(k, bufs[|bufs| - 1]));
    }
  }

  /** New requests of connection `k`, as connection `c` sees them. */
  lemma {:induction false} EntriesRead(su: Setup, ips: seq<L.Ip>, j: Journal, k: nat, bufs: seq<string>, c: nat)
    requires Consistent(su.env) && k < |ips| && c < |ips|
    ensures BufsOf(j + Entries(k, bufs), c) == BufsOf(j, c) + if c == k then bufs else []
    ensures RepliesOf(su, ips, j + Entries(k, bufs), c) ==
            RepliesOf(su, ips, j, c) + if c == k then RepliesTo(su, TableAfter(su, ips, j), ips[k], bufs) else []
    decreases |bufs|
  {
    hide TableAfter, Ruled, Hit, Entries, BufsOf, RepliesOf, Consistent, SlotsAfter;
    if bufs == [] {
      assert j + Entries(k, bufs) == j;
    } else {
      var front := bufs[..|bufs| - 1];
      EntriesRead(su, ips, j, k, front, c);
      EntriesTable(su, ips, j, k, front);
      EntriesLast(k, bufs, j);
      JournalStep(su, ips, j + Entries(k, front), Came(k, bufs[|bufs| - 1]), c);
    }
  }

  lemma Regroup(a: Journal, b: Journal, c: Journal)
    ensures a + (b + c) == a + b + c
  {
  }

  /** A connection whose conversation is the one the journal prescribes. */
  ghost predicate Kept(c: N.DataCtx, su: Setup, ips: seq<L.Ip>, j: Journal, k: nat)
    requires Consistent(su.env) && k < |ips|
    reads c, c.reqBuf
  {
    && c.Valid(Recorded(c.replies), su.env.contents)
    && c.requests == BufsOf(j, k) && c.replies == RepliesOf(su, ips, j, k)
    && (!c.fdOpen && c.last.Ready? ==> c.Finished(su.env.contents))
  }

  /** What a handler decides is what it decided before, as far as that goes. */
  lemma SwitchHandler(c: N.DataCtx, was: N.Handler, app: N.Handler, disk: N.Disk)
    requires c.Valid(was, disk)
    requires forall i :: 0 <= i < |c.replies| && i < |c.requests| ==>
               c.replies[i] == app(c.requests[..i], c.requests[i])
    ensures c.Valid(app, disk)
  {
  }

  /** The replies decided during one event, read off the handler. */
  lemma {:induction false} NewReplies(su: Setup, slots: seq<L.Slot>, ip: L.Ip, decided: seq<N.Reply>,
                                      requests: seq<string>, replies: seq<N.Reply>, n: nat)
    requires Consistent(su.env) && slots != [] && |decided| <= n <= |requests| == |replies|
    requires var app := EventHandler(su, slots, ip, decided);
             forall i :: 0 <= i < |replies| ==> replies[i] == app(requests[..i], requests[i])
    ensures replies[|decided|..n] == RepliesTo(su, slots, ip, requests[|decided|..n])
    decreases n
  {
    hide Ruled, SlotsAfter;
    if n > |decided| {
      NewReplies(su, slots, ip, decided, requests, replies, n - 1);
      var bufs := requests[|decided|..n];
      assert bufs[..|bufs| - 1] == requests[|decided|..n - 1];
      assert requests[..n - 1][|decided|..] == requests[|decided|..n - 1];
      assert replies[n - 1] == EventHandler(su, slots, ip, decided)(requests[..n - 1], requests[n - 1]);
      assert replies[|decided|..n] == replies[|decided|..n - 1] + [replies[n - 1]];
    }
  }

  /** What one event adds to the conversation of its connection is what its entries prescribe. */
  lemma EventRead(su: Setup, ips: seq<L.Ip>, k: nat, j: Journal, requests: seq<string>, replies: seq<N.Reply>)
    requires Consistent(su.env) && k < |ips|
    requires var asked, decided := BufsOf(j, k), RepliesOf(su, ips, j, k);
             && |asked| == |decided| && asked <= requests && decided <= replies && |requests| == |replies|
             && var app := EventHandler(su, TableAfter(su, ips, j), ips[k], decided);
                forall i :: 0 <= i < |replies| ==> replies[i] == app(requests[..i], requests[i])
    ensures var bufs := requests[|BufsOf(j, k)|..];
            && TableAfter(su, ips, j + Entries(k, bufs)) == SlotsAfter(su, TableAfter(su, ips, j), ips[k], bufs)
            && requests == BufsOf(j + Entries(k, bufs), k) && replies == RepliesOf(su, ips, j + Entries(k, bufs), k)
  {
    hide TableAfter, Ruled, Hit, BufsOf, RepliesOf, RepliesTo, Entries, Consistent, SlotsAfter, EventHandler;
    var asked, decided, slots := BufsOf(j, k), RepliesOf(su, ips, j, k), TableAfter(su, ips, j);
    var bufs := requests[|asked|..];
    NewReplies(su, slots, ips[k], decided, requests, replies, |requests|);
    assert bufs == requests[|decided|..|requests|];
    EntriesTable(su, ips, j, k, bufs);
    EntriesRead(su, ips, j, k, bufs, k);
    assert requests == asked + bufs && replies == decided + replies[|decided|..|requests|];
  }

  /** The connection is fed by its script, and every turn it had has used up some of it, as long as there is any. */
  ghost predicate Fed(c: N.DataCtx, script: seq<T.Answer>, turns: nat)
    reads c
  {
    c.whole == script && (c.fdOpen && c.script != [] ==> |c.script| + turns <= |script|)
  }

  /** One readiness event of connection `k`. */
  method OneEvent(c: N.DataCtx, su: Setup, ips: seq<L.Ip>, k: nat, slots: seq<L.Slot>, ghost j: Journal,
                  ghost script: seq<T.Answer>, ghost turns: nat)
    returns (slots': seq<L.Slot>, ghost bufs: seq<string>)
    requires Consistent(su.env) && N.FilesSmall(su.env.contents) && k < |ips| && Fed(c, script, turns)
    requires Kept(c, su, ips, j, k) && c.fdOpen && slots == TableAfter(su, ips, j)
    modifies c, c.reqBuf
    ensures Kept(c, su, ips, j + Entries(k, bufs), k) && slots' == TableAfter(su, ips, j + Entries(k, bufs))
    ensures Fed(c, script, turns + 1)
  {
    hide TableAfter, Ruled, Hit, N.FilesSmall, N.Flat, Consistent, SlotsAfter, BufsOf, RepliesOf, Entries;
    var decided := c.replies;
    var app := EventHandler(su, slots, ips[k], decided);
    SwitchHandler(c, Recorded(decided), app, su.env.contents);
    var _ := c.Run(app, su.env.contents);
    EventRead(su, ips, k, j, c.requests, c.replies);
    SwitchHandler(c, app, Recorded(c.replies), su.env.contents);
    bufs := c.requests[|decided|..];
    slots' := SlotsAfter(su, slots, ips[k], c.requests[|decided|..]);
  }

  // ---------------------------------------------------------------- all connections

  /** What the event loop waits for next. */
  datatype Turn = Readiness(k: nat) | Timer

  /** The journal entries of one turn, in which the connection was handed `bufs`. */
  function TurnEntries(t: Turn, bufs: seq<string>): Journal {
    match t
    case Timer => [Reset]
    case Readiness(k) => Entries(k, bufs)
  }

  /** The journal of a schedule: turn by turn, a reset for the timer and the requests `parts[t]` for an event. */
  function Told(schedule: seq<Turn>, parts: seq<seq<string>>): Journal
    requires |parts| == |schedule|
  {
    if schedule == [] then []
    else
      var n := |schedule| - 1;
      Told(schedule[..n], parts[..n]) + TurnEntries(schedule[n], parts[n])
  }

  lemma ToldStep(schedule: seq<Turn>, parts: seq<seq<string>>, t: nat, bufs: seq<string>)
    requires t < |schedule| && |parts| == t
    ensures Told(schedule[..t + 1], parts + [bufs]) == Told(schedule[..t], parts) + TurnEntries(schedule[t], bufs)
  {
    hide TurnEntries;
    assert schedule[..t + 1][..t] == schedule[..t] && (parts + [bufs])[..t] == parts;
  }

  /** How often connection `k` has its turn. */
  function TurnsOf(schedule: seq<Turn>, k: nat): nat {
    if schedule == [] then 0
    else TurnsOf(schedule[..|schedule| - 1], k) + if schedule[|schedule| - 1] == Readiness(k) then 1 else 0
  }

  lemma TurnsStep(schedule: seq<Turn>, t: nat, k: nat)
    requires t < |schedule|
    ensures TurnsOf(schedule[..t + 1], k) == TurnsOf(schedule[..t], k) + if schedule[t] == Readiness(k) then 1 else 0
  {
    assert schedule[..t + 1][..t] == schedule[..t];
  }

  lemma NothingYet(su: Setup, ips: seq<L.Ip>)
    ensures TableAfter(su, ips, []) == L.EmptyTable()
    ensures forall k: nat :: BufsOf([], k) == []
    ensures Consistent(su.env) ==> forall k: nat :: k < |ips| ==> RepliesOf(su, ips, [], k) == []
  {
  }

  method Accept(script: seq<T.Answer>, su: Setup, ips: seq<L.Ip>, k: nat) returns (c: N.DataCtx)
    requires Consistent(su.env) && k < |ips|
    ensures fresh(c) && fresh(c.reqBuf) && Kept(c, su, ips, [], k) && Fed(c, script, 0)
  {
    hide Consistent;
    NothingYet(su, ips);
    c := new N.DataCtx(script);
    assert c.Pending() == "";
  }

  /** Entries of other connections leave a connection alone. */
  lemma KeptThrough(c: N.DataCtx, su: Setup, ips: seq<L.Ip>, j: Journal, j': Journal, k: nat)
    requires Consistent(su.env) && k < |ips| && Kept(c, su, ips, j, k)
    requires BufsOf(j', k) == BufsOf(j, k) && RepliesOf(su, ips, j', k) == RepliesOf(su, ips, j, k)
    ensures Kept(c, su, ips, j', k)
  {
    hide Consistent, BufsOf, RepliesOf;
  }

  /** The reset of the timer branch leaves every connection alone. */
  lemma KeptByReset(c: N.DataCtx, su: Setup, ips: seq<L.Ip>, j: Journal, k: nat)
    requires Consistent(su.env) && k < |ips| && Kept(c, su, ips, j, k)
    ensures Kept(c, su, ips, j + [Reset], k)
  {
    hide Consistent, BufsOf, RepliesOf, Kept;
    JournalStep(su, ips, j, Reset, k);
    KeptThrough(c, su, ips, j, j + [Reset], k);
  }

  lemma KeptByOther(c: N.DataCtx, su: Setup, ips: seq<L.Ip>, j: Journal, k: nat, other: nat, bufs: seq<string>)
    requires Consistent(su.env) && k < |ips| && other < |ips| && other != k && Kept(c, su, ips, j, k)
    ensures Kept(c, su, ips, j + Entries(other, bufs), k)
  {
    hide Consistent, BufsOf, RepliesOf, Kept, Entries;
    EntriesRead(su, ips, j, other, bufs, k);
    KeptThrough(c, su, ips, j, j + Entries(other, bufs), k);
  }

  /** What one connection of the process has come to. */
  ghost predicate Served(c: N.DataCtx, su: Setup, script: seq<T.Answer>, ips: seq<L.Ip>, j: Journal, k: nat, turns: nat)
    requires Consistent(su.env) && k < |ips|
    reads c
  {
    // Its requests came in over its session, and its replies are those the journal prescribes.
    && N.AnswersOf(c.trace) + c.script == script
    && N.Joined(c.requests) <= c.received == N.ReceivedBy(c.trace)
    && c.requests == BufsOf(j, k) && c.replies == RepliesOf(su, ips, j, k)
    // What went out over its session is a prefix of them, and all of them where nothing is owed.
    && c.sent == N.SentBy(c.trace) <= N.Flat(c.replies, su.env.contents)
    && (c.fdOpen && c.wantWrite == 0 ==> c.sent == N.Flat(c.replies, su.env.contents))
    && (!c.fdOpen && c.last.Ready? ==> c.Finished(su.env.contents))
    // A closing reply is its last, and has closed it.
    && (forall i :: 0 <= i < |c.replies| && N.Closes(c.replies[i]) ==> !c.fdOpen && i == |c.replies| - 1)
    // It has used its turns.
    && (c.fdOpen && c.script != [] ==> |c.script| + turns <= |script|)
  }

  /**
   The process.  For any number of connections, each with its own script of TLS answers, and any schedule of readiness
   events and timer resets, the journal lists the turns of the schedule in order: a reset for the timer, and for an
   event the requests its connection was handed then.  Every connection has got exactly the requests the journal names
   for it, each reply is the one the shared table, after everything before it, prescribes, and what went out is a
   prefix of those replies, all of them wherever the connection rests on a boundary or has ended without a pause or a
   failure.
   */
  method ServeAll(su: Setup, scripts: seq<seq<T.Answer>>, ips: seq<L.Ip>, schedule: seq<Turn>)
    returns (cs: seq<N.DataCtx>, ghost parts: seq<seq<string>>)
    requires |scripts| == |ips| && Consistent(su.env) && N.FilesSmall(su.env.contents)
    ensures |cs| == |ips| && |parts| == |schedule|
    ensures forall k :: 0 <= k < |cs| ==>
              Served(cs[k], su, scripts[k], ips, Told(schedule, parts), k, TurnsOf(schedule, k))
  {
    hide Kept, Fed, Served, TableAfter, N.FilesSmall, N.Flat, Consistent, BufsOf, RepliesOf, Told, TurnsOf;
    cs := [];
    while |cs| < |scripts|
      invariant |cs| <= |scripts| && Separate(cs)
      invariant forall k :: 0 <= k < |cs| ==> fresh(cs[k]) && fresh(cs[k].reqBuf)
      invariant forall k :: 0 <= k < |cs| ==> Kept(cs[k], su, ips, [], k) && Fed(cs[k], scripts[k], 0)
    {
      var c := Accept(scripts[|cs|], su, ips, |cs|);
      cs := cs + [c];
    }
    assert forall c :: c in cs ==> fresh(c) && fresh(c.reqBuf);
    parts := Loop(cs, su, scripts, ips, schedule);
    forall k | 0 <= k < |cs|
      ensures Served(cs[k], su, scripts[k], ips, Told(schedule, parts), k, TurnsOf(schedule, k))
    {
      KeptMeans(cs[k], su, scripts[k], ips, Told(schedule, parts), k, TurnsOf(schedule, k));
    }
  }

  lemma KeptMeans(c: N.DataCtx, su: Setup, script: seq<T.Answer>, ips: seq<L.Ip>, j: Journal, k: nat, turns: nat)
    requires Consistent(su.env) && k < |ips| && Kept(c, su, ips, j, k) && Fed(c, script, turns)
    ensures Served(c, su, script, ips, j, k, turns)
  {
    hide Consistent, BufsOf, RepliesOf, N.Flat, N.Joined, N.SentBy, N.ReceivedBy, N.AnswersOf;
  }

  /** The event loop over connections that have just been accepted. */
  method Loop(cs: seq<N.DataCtx>, su: Setup, scripts: seq<seq<T.Answer>>, ips: seq<L.Ip>, schedule: seq<Turn>)
    returns (ghost parts: seq<seq<string>>)
    requires |cs| == |ips| == |scripts| && Consistent(su.env) && N.FilesSmall(su.env.contents) && Separate(cs)
    requires forall k :: 0 <= k < |cs| ==> Kept(cs[k], su, ips, [], k) && Fed(cs[k], scripts[k], 0)
    modifies cs, set c | c in cs :: c.reqBuf
    ensures |parts| == |schedule|
    ensures forall k :: 0 <= k < |cs| ==>
              Kept(cs[k], su, ips, Told(schedule, parts), k) && Fed(cs[k], scripts[k], TurnsOf(schedule, k))
  {
    hide Kept, Fed, TableAfter, N.FilesSmall, Consistent, BufsOf, RepliesOf, Entries, Told, TurnsOf, TurnEntries;
    NothingYet(su, ips);
    NothingTold();
    parts := [];
    assert schedule[..0] == [];
    var slots := L.EmptyTable();
    for t := 0 to |schedule|
      invariant |parts| == t && Separate(cs) && slots == TableAfter(su, ips, Told(schedule[..t], parts))
      invariant forall k :: 0 <= k < |cs| ==>
                  && Kept(cs[k], su, ips, Told(schedule[..t], parts), k)
                  && Fed(cs[k], scripts[k], TurnsOf(schedule[..t], k))
    {
      ghost var bufs;
      slots, bufs := OneTurn(cs, su, scripts, ips, schedule, t, slots, parts);
      parts := parts + [bufs];
    }
    assert schedule[..|schedule|] == schedule;
  }

  lemma NothingTold()
    ensures Told([], []) == [] && forall k: nat :: TurnsOf([], k) == 0
  {
  }

  lemma NoEntries(j: Journal, k: nat)
    ensures j + Entries(k, []) == j
  {
  }

  lemma FedClosed(c: N.DataCtx, script: seq<T.Answer>, turns: nat)
    requires Fed(c, script, turns) && !c.fdOpen
    ensures Fed(c, script, turns + 1)
  {
  }

  /** One turn of the event loop. */
  method OneTurn(cs: seq<N.DataCtx>, su: Setup, scripts: seq<seq<T.Answer>>, ips: seq<L.Ip>, schedule: seq<Turn>,
                 t: nat, slots: seq<L.Slot>, ghost parts: seq<seq<string>>)
    returns (slots': seq<L.Slot>, ghost bufs: seq<string>)
    requires |cs| == |ips| == |scripts| && Consistent(su.env) && N.FilesSmall(su.env.contents) && Separate(cs)
    requires t == |parts| < |schedule| && slots == TableAfter(su, ips, Told(schedule[..t], parts))
    requires forall k :: 0 <= k < |cs| ==>
               && Kept(cs[k], su, ips, Told(schedule[..t], parts), k)
               && Fed(cs[k], scripts[k], TurnsOf(schedule[..t], k))
    modifies cs, set c | c in cs :: c.reqBuf
    ensures slots' == TableAfter(su, ips, Told(schedule[..t + 1], parts + [bufs]))
    ensures forall k :: 0 <= k < |cs| ==>
              && Kept(cs[k], su, ips, Told(schedule[..t + 1], parts + [bufs]), k)
              && Fed(cs[k], scripts[k], TurnsOf(schedule[..t + 1], k))
  {
    hide Kept, Fed, TableAfter, N.FilesSmall, Consistent, BufsOf, RepliesOf, Entries, Told, TurnsOf;
    ghost var j := Told(schedule[..t], parts);
    forall k | 0 <= k < |cs| { TurnsStep(schedule, t, k); }
    bufs := [];
    match schedule[t]
    case Timer =>
      ToldStep(schedule, parts, t, bufs);
      TableStep(su, ips, j, Reset);
      forall k | 0 <= k < |cs| ensures Kept(cs[k], su, ips, j + [Reset], k) { KeptByReset(cs[k], su, ips, j, k); }
      slots' := L.EmptyTable();
    case Readiness(k) =>
      slots' := slots;
      if k < |cs| && cs[k].fdOpen {
        slots', bufs := OneEvent(cs[k], su, ips, k, slots, j, scripts[k], TurnsOf(schedule[..t], k));
        forall i | 0 <= i < |cs| ensures Kept(cs[i], su, ips, j + Entries(k, bufs), i) {
          if i != k { KeptByOther(cs[i], su, ips, j, i, k, bufs); }
        }
      } else {
        assert j + Entries(k, []) == j by { NoEntries(j, k); }
        if k < |cs| { FedClosed(cs[k], scripts[k], TurnsOf(schedule[..t], k)); }
      }
      ToldStep(schedule, parts, t, bufs);
  }

  /** Different connections are different objects with different buffers. */
  ghost predicate Separate(cs: seq<N.DataCtx>)
    reads set c | c in cs
  {
    forall i, k :: 0 <= i < k < |cs| ==> cs[i] != cs[k] && cs[i].reqBuf != cs[k].reqBuf
  }

  // ---------------------------------------------------------------- what the shared table means for one client

  /**
   The ruling of a request in the middle of all that traffic: it depends on the client's own requests since the last
   reset alone, whichever connections they came on, as long as the client is among the first 1023 of the window;
   otherwise on the combined requests of all clients that are not.
   */
  lemma RuledByHistory(su: Setup, ips: seq<L.Ip>, j: Journal, k: nat, buf: string)
    requires Consistent(su.env) && k < |ips| && (forall i :: 0 <= i < |ips| ==> ips[i] != L.NO_IP)
    requires Counted(OutcomeOf(su, buf))
    ensures var w := R.Window(Events(su, ips, j)) + [R.Req(ips[k], IsPage(OutcomeOf(su, buf)))];
            var d := R.Clients(w);
            Ruled(su, TableAfter(su, ips, j), ips[k], buf) ==
            AnswerTo(su.env, su.types, su.names,
                     L.Ruling(su.lim, if R.IndexOf(d, ips[k]) < L.SLOTS - 1 then R.OfClient(w, ips[k])
                                      else R.OfOthers(w, d[..L.SLOTS - 1])), buf, su.texts)
  {
    hide AnswerTo, OutcomeOf, L.TableHit, L.Ruling, R.Clients, R.RunTable, Consistent;
    RealEventsOf(su, ips, j);
    R.NextRuling(su.lim, Events(su, ips, j), R.Req(ips[k], IsPage(OutcomeOf(su, buf))));
  }

  lemma {:induction false} RealEventsOf(su: Setup, ips: seq<L.Ip>, j: Journal)
    requires forall i :: 0 <= i < |ips| ==> ips[i] != L.NO_IP
    ensures R.RealEvents(Events(su, ips, j))
  {
    hide OutcomeOf, Counted, IsPage;
    if j != [] { RealEventsOf(su, ips, Before(j)); }
  }

  /**
   How many requests of a class that an address made on any connection have passed the limiter since the last reset.
   */
  function PassedSince(su: Setup, ips: seq<L.Ip>, j: Journal, ip: L.Ip, page: bool): nat {
    if j == [] || Last(j).Reset? then 0
    else
      var k, buf := Last(j).k, Last(j).buf;
      var o := OutcomeOf(su, buf);
      PassedSince(su, ips, Before(j), ip, page) +
      if k < |ips| && ips[k] == ip && Counted(o) && IsPage(o) == page &&
         VerdictOn(su, TableAfter(su, ips, Before(j)), ip, buf) == L.Serve then 1 else 0
  }

  lemma {:induction false} PassedIsServed(su: Setup, ips: seq<L.Ip>, j: Journal, ip: L.Ip, page: bool)
    ensures PassedSince(su, ips, j, ip, page) == R.ServedIn(su.lim, Events(su, ips, j), ip, page)
    decreases |j|
  {
    hide OutcomeOf, Counted, IsPage, L.TableHit, R.RunTable, R.ServedIn;
    if j == [] {
      NothingPassed(su, ip, page);
    } else {
      PassedIsServed(su, ips, Before(j), ip, page);
      var ev, more := Events(su, ips, Before(j)), EventsAt(su, ips, Last(j));
      if more != [] {
        assert more == [more[0]];
        R.ServedInStep(su.lim, ev, more[0], ip, page);
      } else {
        assert ev + [] == ev;
      }
    }
  }

  lemma NothingPassed(su: Setup, ip: L.Ip, page: bool)
    ensures R.ServedIn(su.lim, [], ip, page) == 0
  {
  }

  /**
   The limits in the middle of all that traffic: since the last reset, an address among the first 1023 of the window has
   passed the limiter with at most `lim_page` pages and `lim_res` resources, on all its connections together.
   */
  lemma PassedWithin(su: Setup, ips: seq<L.Ip>, j: Journal, ip: L.Ip)
    requires ip != L.NO_IP && (forall i :: 0 <= i < |ips| ==> ips[i] != L.NO_IP)
    requires R.Tracked(R.Window(Events(su, ips, j)), ip)
    ensures su.lim.page < L.U16 - 1 ==> PassedSince(su, ips, j, ip, true) <= su.lim.page
    ensures su.lim.res < L.U16 - 1 ==> PassedSince(su, ips, j, ip, false) <= su.lim.res
  {
    hide PassedSince, Events, R.Window, R.Tracked, R.ServedIn;
    RealEventsOf(su, ips, j);
    PassedIsServed(su, ips, j, ip, true);
    PassedIsServed(su, ips, j, ip, false);
    R.LimitsOverRun(su.lim, Events(su, ips, j), ip);
  }

  // ---------------------------------------------------------------- what the clients get

  /** The request got its own answer, judged by the reply: a page or the news that there is none, or a resource. */
  predicate Got(su: Setup, slots: seq<L.Slot>, ip: L.Ip, buf: string, page: bool)
    requires Consistent(su.env) && slots != []
  {
    match Ruled(su, slots, ip, buf)
    case Send(_, path) => C.EndsWith(path, ".html") == page
    case NotModified(_) => OutcomeOf(su, buf).Serve? && C.EndsWith(OutcomeOf(su, buf).path, ".html") == page
    case Report(head, body) => page && (head, body) == su.texts.page(404)
    case _ => false
  }

  /** How many requests of an address got a page (or a resource) since the last reset, on any connection. */
  function GotSince(su: Setup, ips: seq<L.Ip>, j: Journal, ip: L.Ip, page: bool): nat
    requires Consistent(su.env)
  {
    if j == [] || Last(j).Reset? then 0
    else
      var k, buf := Last(j).k, Last(j).buf;
      GotSince(su, ips, Before(j), ip, page) +
      if k < |ips| && ips[k] == ip && Got(su, TableAfter(su, ips, Before(j)), ip, buf, page) then 1 else 0
  }

  /** Whoever got something was counted in its class and passed. */
  lemma GotPassed(su: Setup, slots: seq<L.Slot>, ip: L.Ip, buf: string, page: bool)
    requires Consistent(su.env) && slots != [] && su.texts.page(404) != su.texts.page(429)
    requires Got(su, slots, ip, buf, page)
    ensures var o := OutcomeOf(su, buf); Counted(o) && IsPage(o) == page
    ensures VerdictOn(su, slots, ip, buf) == L.Serve
  {
    hide C.Parse, Ask, Answer, L.TableHit, Consistent;
    var a := Ask(su.names, buf);
    ReplyKind(su.env, su.types, a.root, a.path, VerdictOn(su, slots, ip, buf), a.host, a.etag, su.texts);
  }

  lemma {:induction false} GotWithinPassed(su: Setup, ips: seq<L.Ip>, j: Journal, ip: L.Ip, page: bool)
    requires Consistent(su.env) && su.texts.page(404) != su.texts.page(429)
    ensures GotSince(su, ips, j, ip, page) <= PassedSince(su, ips, j, ip, page)
    decreases |j|
  {
    hide Got, OutcomeOf, Counted, IsPage, VerdictOn, TableAfter, Consistent;
    if j != [] && !Last(j).Reset? {
      GotWithinPassed(su, ips, Before(j), ip, page);
      var slots := TableAfter(su, ips, Before(j));
      if Got(su, slots, ip, Last(j).buf, page) { GotPassed(su, slots, ip, Last(j).buf, page); }
    }
  }

  /**
   The limits, judged by what the clients get: since the last reset, an address among the first 1023 of the window has
   been answered with at most `lim_page` pages (or the news that there is none) and `lim_res` other files, on all its
   connections together.
   */
  lemma LimitsKept(su: Setup, ips: seq<L.Ip>, j: Journal, ip: L.Ip)
    requires Consistent(su.env) && su.texts.page(404) != su.texts.page(429)
    requires ip != L.NO_IP && (forall i :: 0 <= i < |ips| ==> ips[i] != L.NO_IP)
    requires R.Tracked(R.Window(Events(su, ips, j)), ip)
    ensures su.lim.page < L.U16 - 1 ==> GotSince(su, ips, j, ip, true) <= su.lim.page
    ensures su.lim.res < L.U16 - 1 ==> GotSince(su, ips, j, ip, false) <= su.lim.res
  {
    hide PassedSince, GotSince, Events, R.Window, R.Tracked, Consistent;
    PassedWithin(su, ips, j, ip);
    GotWithinPassed(su, ips, j, ip, true);
    GotWithinPassed(su, ips, j, ip, false);
  }

  /**
   And nobody is refused before: the request of a tracked client gets its own answer as long as its requests since the
   last reset respect the limits; the first one beyond them gets the 429 page, and every later one that page and the end
   of its connection.
   */
  lemma RefusedIff(su: Setup, ips: seq<L.Ip>, j: Journal, k: nat, buf: string)
    requires Consistent(su.env) && k < |ips| && (forall i :: 0 <= i < |ips| ==> ips[i] != L.NO_IP)
    requires Counted(OutcomeOf(su, buf)) && su.lim.page < L.U16 - 1 && su.lim.res < L.U16 - 1
    requires R.Tracked(R.Window(Events(su, ips, j + [Came(k, buf)])), ips[k])
    ensures var h := R.OfClient(R.Window(Events(su, ips, j + [Came(k, buf)])), ips[k]);
            var (head, page) := su.texts.page(429);
            Ruled(su, TableAfter(su, ips, j), ips[k], buf) ==
            if L.Within(su.lim, h) then AnswerTo(su.env, su.types, su.names, L.Serve, buf, su.texts)
            else if L.Within(su.lim, h[..|h| - 1]) then N.Report(head, page)
            else N.Refuse(head, page)
  {
    hide *;
    WindowStep(su, ips, j, k, buf);
    RuledByHistory(su, ips, j, k, buf);
    var h := R.OfClient(R.Window(Events(su, ips, j + [Came(k, buf)])), ips[k]);
    L.RulingIff(su.lim, h);
    AnswerByVerdict(su, buf, L.Ruling(su.lim, h));
    assert L.Ruling(su.lim, h).Serve? <==> L.Ruling(su.lim, h) == L.Serve;
  }

  /** A request that is counted comes last in the window it makes. */
  lemma WindowStep(su: Setup, ips: seq<L.Ip>, j: Journal, k: nat, buf: string)
    requires k < |ips| && Counted(OutcomeOf(su, buf))
    requires R.Tracked(R.Window(Events(su, ips, j + [Came(k, buf)])), ips[k])
    ensures var w := R.Window(Events(su, ips, j)) + [R.Req(ips[k], IsPage(OutcomeOf(su, buf)))];
            && R.Window(Events(su, ips, j + [Came(k, buf)])) == w
            && R.IndexOf(R.Clients(w), ips[k]) < L.SLOTS - 1 && R.OfClient(w, ips[k]) != []
  {
    hide *;
    var r := R.Req(ips[k], IsPage(OutcomeOf(su, buf)));
    var v := R.Window(Events(su, ips, j));
    EventsStep(su, ips, j, k, buf);
    R.WindowGrows(Events(su, ips, j), r);
    R.ClientStep(v, r, ips[k]);
    assert R.OfClient(v, ips[k]) + [r.page] != [];
  }

  lemma EventsStep(su: Setup, ips: seq<L.Ip>, j: Journal, k: nat, buf: string)
    requires k < |ips| && Counted(OutcomeOf(su, buf))
    ensures Events(su, ips, j + [Came(k, buf)]) ==
            Events(su, ips, j) + [R.Arrive(R.Req(ips[k], IsPage(OutcomeOf(su, buf))))]
  {
    hide OutcomeOf, Counted, IsPage;
    assert Before(j + [Came(k, buf)]) == j;
  }

  /** What a verdict means to a request that is counted. */
  lemma AnswerByVerdict(su: Setup, buf: string, v: L.Verdict)
    requires Consistent(su.env) && Counted(OutcomeOf(su, buf))
    ensures AnswerTo(su.env, su.types, su.names, v, buf, su.texts) ==
            if v.Serve? then AnswerTo(su.env, su.types, su.names, L.Serve, buf, su.texts)
            else if v.closes then N.Refuse(su.texts.page(429).0, su.texts.page(429).1)
            else N.Report(su.texts.page(429).0, su.texts.page(429).1)
  {
    hide C.Parse, Ask, Answer, Consistent;
    var a := Ask(su.names, buf);
    ReplyKind(su.env, su.types, a.root, a.path, v, a.host, a.etag, su.texts);
  }

  /** The requests that are redirected or dropped are the ones that leave no trace in the limiter. */
  lemma TracelessIff(su: Setup, slots: seq<L.Slot>, ip: L.Ip, buf: string)
    requires Consistent(su.env) && slots != []
    ensures Hit(su, slots, ip, buf) == slots <==>
            Ruled(su, slots, ip, buf).Redirect? || Ruled(su, slots, ip, buf).Drop?
  {
    hide C.Parse, Ask, Answer, L.TableHit, Consistent;
    var a := Ask(su.names, buf);
    ReplyKind(su.env, su.types, a.root, a.path, VerdictOn(su, slots, ip, buf), a.host, a.etag, su.texts);
    L.HitLeavesTrace(su.lim, slots, ip, IsPage(OutcomeOf(su, buf)));
  }
}
