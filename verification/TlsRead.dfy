/**
 Request framing (`net_443_read`, src/net_443.c).  TLS is an oracle: a script of answers, one per call.  The module
 says what one call of the read loop does with its script, and that the framing of a request does not depend on how
 its bytes were split or how often the connection had to wait.
 */
module TlsRead {
  import opened Bytes

  /** `sizeof(req_buf)`. */
  const REQ_SIZE: nat := 8192
  const TERM := "\r\n\r\n"

  /** One answer of the TLS library.  For a read, `Ready` carries the decrypted bytes, none at a close notify. */
  datatype Answer = Ready(bytes: string) | WantRead | WantWrite | Failed

  /** `memmem(s, |s|, "\r\n\r\n", 4) != nullptr`. */
  predicate HasTerm(s: string) {
    exists i :: 0 <= i < |s| && MatchAt(s, i, TERM)
  }

  datatype ReadEnd =
    | Got(buf: string, rest: seq<Answer>)
    | Waiting(acc: string, last: Answer, rest: seq<Answer>)
    | Lost

  /** One call of `net_443_read` that has `acc` in the buffer: read until a terminator, a pause, or a failure. */
  function ReadRun(acc: string, script: seq<Answer>): ReadEnd
    requires |acc| < REQ_SIZE - 1
    decreases |script|
  {
    if script == [] then Waiting(acc, WantRead, [])
    else
      match script[0]
      case WantRead => Waiting(acc, WantRead, script[1..])
      case WantWrite => Waiting(acc, WantWrite, script[1..])
      case Failed => Lost
      case Ready(b) =>
        var acc' := acc + b;
        if b == "" || |acc'| >= REQ_SIZE - 1 then Lost
        else if HasTerm(acc') then Got(acc', script[1..])
        else ReadRun(acc', script[1..])
  }

  /** As many calls as it takes, each resuming after a pause. */
  function ReadCalls(acc: string, script: seq<Answer>): ReadEnd
    requires |acc| < REQ_SIZE - 1
    decreases |script|
  {
    RunShape(acc, script);
    match ReadRun(acc, script)
    case Waiting(a, l, rest) => if script == [] then Waiting(a, l, rest) else ReadCalls(a, rest)
    case end => end
  }

  /** All the bytes a script delivers. */
  function DataOf(script: seq<Answer>): string {
    if script == [] then "" else DataIn(script[0]) + DataOf(script[1..])
  }

  function DataIn(a: Answer): string {
    if a.Ready? then a.bytes else ""
  }

  /** A script of deliveries and pauses only. */
  predicate Healthy(script: seq<Answer>) {
    forall i :: 0 <= i < |script| ==> script[i] != Failed && script[i] != Ready("")
  }

  /** A call that pauses has used up a part of the script and keeps what it read. */
  lemma {:induction false} RunShape(acc: string, script: seq<Answer>)
    requires |acc| < REQ_SIZE - 1
    ensures ReadRun(acc, script).Waiting? ==>
              var w := ReadRun(acc, script);
              && |w.acc| < REQ_SIZE - 1 && acc <= w.acc && (!HasTerm(acc) ==> !HasTerm(w.acc))
              && (script != [] ==> |w.rest| < |script|) && (Healthy(script) ==> Healthy(w.rest))
              && w.acc + DataOf(w.rest) == acc + DataOf(script)
              && (w.last == WantRead || w.last == WantWrite)
    ensures ReadRun(acc, script).Got? ==>
              var g := ReadRun(acc, script);
              && |g.buf| < REQ_SIZE - 1 && acc < g.buf && HasTerm(g.buf)
              && |g.rest| < |script| && (Healthy(script) ==> Healthy(g.rest))
              && g.buf + DataOf(g.rest) == acc + DataOf(script)
    ensures Healthy(script) && |acc + DataOf(script)| < REQ_SIZE - 1 ==> !ReadRun(acc, script).Lost?
    decreases |script|
  {
    hide HasTerm, DataOf, ReadRun, Healthy;
    RunStep(acc, script);
    if script != [] {
      FrontAnswer(acc, script);
      if Healthy(script) { HealthyTail(script); }
      if script[0].Ready? {
        var acc' := acc + script[0].bytes;
        if script[0].bytes != "" && |acc'| < REQ_SIZE - 1 && !HasTerm(acc') {
          RunStep(acc', script[1..]);
          RunShape(acc', script[1..]);
        }
      }
    }
  }

  /** One answer of a read. */
  lemma RunStep(acc: string, script: seq<Answer>)
    requires |acc| < REQ_SIZE - 1
    ensures script == [] ==> ReadRun(acc, script) == Waiting(acc, WantRead, [])
    ensures script != [] && (script[0] == WantRead || script[0] == WantWrite) ==>
              ReadRun(acc, script) == Waiting(acc, script[0], script[1..])
    ensures script != [] && script[0] == Failed ==> ReadRun(acc, script) == Lost
    ensures script != [] && script[0].Ready? ==>
              var acc' := acc + script[0].bytes;
              ReadRun(acc, script) ==
              if script[0].bytes == "" || |acc'| >= REQ_SIZE - 1 then Lost
              else if HasTerm(acc') then Got(acc', script[1..])
              else ReadRun(acc', script[1..])
  {
    hide HasTerm;
  }

  /** What the first answer of a script delivers, and that the rest of a healthy one is healthy. */
  lemma FrontAnswer(acc: string, script: seq<Answer>)
    requires script != []
    ensures acc + DataOf(script) == acc + DataIn(script[0]) + DataOf(script[1..])
    ensures !script[0].Ready? ==> acc + DataIn(script[0]) == acc
    ensures Healthy(script) ==> Healthy(script[1..])
  {
    hide DataIn, Healthy;
    Regroup(acc, DataIn(script[0]), DataOf(script[1..]));
    if Healthy(script) { HealthyTail(script); }
    NoData(script[0]);
    assert acc + "" == acc;
  }

  lemma NoData(a: Answer)
    ensures !a.Ready? ==> DataIn(a) == ""
  {
  }

  lemma HealthyTail(script: seq<Answer>)
    requires script != [] && Healthy(script)
    ensures Healthy(script[1..]) && script[0] != Failed && script[0] != Ready("")
  {
  }

  // ---------------------------------------------------------------- chunking does not matter

  /** Index of the first terminator, or the length. */
  function FirstTerm(s: string, i: nat): (r: nat)
    requires i <= |s|
    ensures i <= r <= |s|
    ensures forall k :: i <= k < r ==> !MatchAt(s, k, TERM)
    ensures r < |s| ==> MatchAt(s, r, TERM)
    decreases |s| - i
  {
    if i == |s| || MatchAt(s, i, TERM) then i else FirstTerm(s, i + 1)
  }

  /** The message head: everything through the first empty line (section 2.1 of RFC 9112). */
  function Head(s: string): string
    requires HasTerm(s)
  {
    s[..FirstTerm(s, 0) + 4]
  }

  lemma TermOfPrefix(s: string, w: string)
    requires s <= w
    ensures HasTerm(s) ==> HasTerm(w) && Head(s) == Head(w)
    ensures HasTerm(w) && |Head(w)| <= |s| ==> HasTerm(s)
  {
    hide FirstTerm;
    forall i | 0 <= i < |s| && MatchAt(s, i, TERM) ensures MatchAt(w, i, TERM) {
      assert w[i..i + 4] == s[i..i + 4];
    }
    if HasTerm(s) {
      var f := FirstTerm(s, 0);
      assert MatchAt(s, f, TERM);
      assert MatchAt(w, f, TERM);
      var g := FirstTerm(w, 0);
      assert g <= f;
      assert MatchAt(w, g, TERM);
      assert w[g..g + 4] == s[g..g + 4];
      assert MatchAt(s, g, TERM);
    }
    if HasTerm(w) && |Head(w)| <= |s| {
      var g := FirstTerm(w, 0);
      assert MatchAt(w, g, TERM);
      assert w[g..g + 4] == s[g..g + 4];
      assert MatchAt(s, g, TERM);
    }
  }

  /** What any number of calls makes of any healthy delivery of a stream that fits the buffer. */
  lemma {:induction false} CallsShape(acc: string, script: seq<Answer>)
    requires Healthy(script) && |acc + DataOf(script)| < REQ_SIZE - 1 && !HasTerm(acc)
    ensures var w := acc + DataOf(script);
            match ReadCalls(acc, script)
            case Lost => false
            case Waiting(a, _, rest) => a == w && rest == [] && !HasTerm(w)
            case Got(buf, rest) => HasTerm(buf) && buf + DataOf(rest) == w && Healthy(rest)
    decreases |script|
  {
    hide HasTerm, ReadRun;
    RunShape(acc, script);
    if script == [] {
      RunOfNothing(acc);
    } else {
      match ReadRun(acc, script)
      case Waiting(a, l, rest) => CallsShape(a, rest);
      case _ =>
    }
  }

  lemma RunOfNothing(acc: string)
    requires |acc| < REQ_SIZE - 1
    ensures ReadRun(acc, []) == Waiting(acc, WantRead, []) && acc + DataOf([]) == acc
  {
  }

  /** A failure or a close notify in front of a whole head ends the connection, whatever came before and comes after. */
  lemma {:induction false} CloseLoses(acc: string, script: seq<Answer>, last: Answer, later: seq<Answer>)
    requires Healthy(script) && |acc + DataOf(script)| < REQ_SIZE - 1 && !HasTerm(acc + DataOf(script))
    requires last == Failed || last == Ready("")
    ensures |acc| < REQ_SIZE - 1 && ReadCalls(acc, script + [last] + later) == Lost
    decreases |script|
  {
    hide HasTerm, ReadRun, DataOf, Healthy;
    var all := script + [last] + later;
    FitsFront(acc, script);
    RunStep(acc, all);
    if script != [] {
      FrontAnswer(acc, script);
      HealthyTail(script);
      assert all[1..] == script[1..] + [last] + later && all[0] == script[0];
      CloseLoses(acc + DataIn(script[0]), script[1..], last, later);
      if script[0].Ready? { TermOfPrefix(acc + script[0].bytes, acc + DataOf(script)); }
    }
  }

  lemma FitsFront(acc: string, script: seq<Answer>)
    ensures |acc| <= |acc + DataOf(script)|
  {
  }

  /**
   Framing does not depend on chunking.  For a stream of fewer than 8191 bytes, however it is split and however many
   pauses are put in, the parser is handed a buffer exactly when the stream holds a terminator, with the same head;
   without one, everything read so far is kept and the connection waits.
   */
  lemma FramingUniform(script: seq<Answer>)
    requires Healthy(script) && |DataOf(script)| < REQ_SIZE - 1
    ensures var w := DataOf(script);
            if HasTerm(w) then
              ReadCalls("", script).Got? &&
              HasTerm(ReadCalls("", script).buf) && Head(ReadCalls("", script).buf) == Head(w)
            else ReadCalls("", script).Waiting? && ReadCalls("", script).acc == w
  {
    hide ReadCalls, FirstTerm;
    var w := DataOf(script);
    assert "" + w == w && !HasTerm("");
    CallsShape("", script);
    var end := ReadCalls("", script);
    if end.Got? { TermOfPrefix(end.buf, w); }
  }

  /**
   Exactly once.  When the stream is one request, ending with its terminator, the buffer handed over is the whole
   stream and whatever is left of the script delivers nothing more.
   */
  lemma RequestOnce(script: seq<Answer>)
    requires Healthy(script) && |DataOf(script)| < REQ_SIZE - 1
    requires HasTerm(DataOf(script)) && Head(DataOf(script)) == DataOf(script)
    ensures var g := ReadCalls("", script);
            g.Got? && g.buf == DataOf(script) && ReadCalls("", g.rest).Waiting? && ReadCalls("", g.rest).acc == ""
  {
    hide ReadCalls, FirstTerm, HasTerm;
    var w := DataOf(script);
    assert "" + w == w && !HasTerm("") by { NoTermInNothing(); }
    FramingUniform(script);
    CallsShape("", script);
    var g := ReadCalls("", script);
    HeadShort(g.buf);
    assert |DataOf(g.rest)| == 0;
    assert "" + DataOf(g.rest) == "";
    CallsShape("", g.rest);
  }

  lemma NoTermInNothing()
    ensures !HasTerm("")
  {
  }

  lemma HeadShort(s: string)
    requires HasTerm(s)
    ensures |Head(s)| <= |s| && s[..|Head(s)|] == Head(s)
  {
    hide FirstTerm;
  }

  /** A longer stream is accepted or dropped depending on where it is cut, if there is a terminator to cut behind. */
  lemma LongStreamDependsOnChunking(head: string, more: string)
    requires HasTerm(head) && |head| < REQ_SIZE - 1 <= |head + more| && more != ""
    ensures ReadCalls("", [Ready(head), Ready(more)]) == Got(head, [Ready(more)])
    ensures ReadCalls("", [Ready(head + more)]) == Lost
  {
    assert "" + head == head && "" + (head + more) == head + more;
    assert [Ready(head), Ready(more)][1..] == [Ready(more)];
  }

  // ---------------------------------------------------------------- streams of any length

  /** The part of a stream the buffer has room for. */
  function Room(w: string): (r: string)
    ensures r <= w
  {
    w[..Min(|w|, REQ_SIZE - 2)]
  }

  /** A stream that overruns the buffer before any terminator is dropped, however it is cut. */
  lemma {:induction false} Overrun(acc: string, script: seq<Answer>)
    requires Healthy(script) && |acc| < REQ_SIZE - 1 <= |acc + DataOf(script)|
    requires !HasTerm(Room(acc + DataOf(script)))
    ensures ReadCalls(acc, script) == Lost
    decreases |script|
  {
    hide HasTerm, Room, ReadRun;
    RunShape(acc, script);
    match ReadRun(acc, script)
    case Lost =>
    case Got(buf, rest) =>
      RoomHolds(acc + DataOf(script), buf);
      TermOfPrefix(buf, Room(acc + DataOf(script)));
      assert false;
    case Waiting(a, _, rest) =>
      if script == [] { RunOfNothing(acc); }
      Overrun(a, rest);
  }

  lemma RoomHolds(w: string, buf: string)
    requires buf <= w && |buf| < REQ_SIZE - 1
    ensures buf <= Room(w)
  {
  }

  /** What the parser gets to see of a stream: the head of a request, nothing yet, or a dropped connection. */
  datatype Seen = SeesHead(head: string) | SeesNothing | SeesDrop

  ghost function SeenBy(end: ReadEnd): Seen {
    match end
    case Got(buf, _) => if HasTerm(buf) then SeesHead(Head(buf)) else SeesNothing
    case Waiting(_, _, _) => SeesNothing
    case Lost => SeesDrop
  }

  /** All ways to deliver `w` have the same outcome. */
  ghost predicate CutsAlike(w: string) {
    forall s, t :: Healthy(s) && Healthy(t) && DataOf(s) == w && DataOf(t) == w ==>
      SeenBy(ReadCalls("", s)) == SeenBy(ReadCalls("", t))
  }

  lemma SeenOfShort(script: seq<Answer>)
    requires Healthy(script) && |DataOf(script)| < REQ_SIZE - 1
    ensures SeenBy(ReadCalls("", script)) ==
            if HasTerm(DataOf(script)) then SeesHead(Head(DataOf(script))) else SeesNothing
  {
    hide HasTerm, Head, ReadCalls;
    FramingUniform(script);
  }

  lemma SeenOfLong(script: seq<Answer>)
    requires Healthy(script) && REQ_SIZE - 1 <= |DataOf(script)| && !HasTerm(Room(DataOf(script)))
    ensures SeenBy(ReadCalls("", script)) == SeesDrop
  {
    hide HasTerm, Room, ReadCalls;
    assert "" + DataOf(script) == DataOf(script);
    Overrun("", script);
  }

  lemma DataOfTwo(a: string, b: string)
    ensures DataOf([Ready(a), Ready(b)]) == a + b && DataOf([Ready(a + b)]) == a + b
  {
    assert [Ready(a), Ready(b)][1..] == [Ready(b)] && [Ready(b)][1..] == [];
    assert DataOf([Ready(b)]) == b + "" && DataOf([Ready(a + b)]) == a + b + "";
  }

  /**
   Which streams the parser sees alike however they are split and delayed: exactly those of fewer than 8191 bytes and
   those without a terminator in their first 8190 bytes.
   */
  lemma CutsAlikeIff(w: string)
    ensures CutsAlike(w) <==> |w| < REQ_SIZE - 1 || !HasTerm(Room(w))
  {
    hide HasTerm, Room, ReadCalls, Healthy, SeenBy;
    if |w| < REQ_SIZE - 1 || !HasTerm(Room(w)) {
      forall s, t | Healthy(s) && Healthy(t) && DataOf(s) == w && DataOf(t) == w
        ensures SeenBy(ReadCalls("", s)) == SeenBy(ReadCalls("", t))
      {
        if |w| < REQ_SIZE - 1 {
          SeenOfShort(s);
          SeenOfShort(t);
        } else {
          SeenOfLong(s);
          SeenOfLong(t);
        }
      }
    } else {
      TwoCuts(w);
    }
  }

  lemma TwoCuts(w: string)
    requires REQ_SIZE - 1 <= |w| && HasTerm(Room(w))
    ensures !CutsAlike(w)
  {
    hide HasTerm, ReadCalls;
    var head, more := w[..REQ_SIZE - 2], w[REQ_SIZE - 2..];
    assert w == head + more && head == Room(w);
    DataOfTwo(head, more);
    LongStreamDependsOnChunking(head, more);
    var s, t := [Ready(head), Ready(more)], [Ready(head + more)];
    assert HasTerm(head) && head != "" by { NoTermInNothing(); }
    assert Healthy(s) && Healthy(t);
    assert SeenBy(ReadCalls("", s)) != SeenBy(ReadCalls("", t));
  }

  // ---------------------------------------------------------------- several requests on one connection

  /** The buffers handed over by call after call on a connection that is kept open. */
  function Dispatched(script: seq<Answer>): (bufs: seq<string>)
    ensures forall i :: 0 <= i < |bufs| ==> HasTerm(bufs[i])
    decreases |script|
  {
    CallsSuffix("", script);
    match ReadCalls("", script)
    case Got(buf, rest) => [buf] + Dispatched(rest)
    case _ => []
  }

  lemma {:induction false} DataOfSum(s: seq<Answer>, t: seq<Answer>)
    ensures DataOf(s + t) == DataOf(s) + DataOf(t)
    decreases |s|
  {
    if s == [] {
      assert s + t == t;
    } else {
      assert (s + t)[1..] == s[1..] + t;
      DataOfSum(s[1..], t);
    }
  }

  lemma {:induction false} RunSuffix(acc: string, script: seq<Answer>)
    requires |acc| < REQ_SIZE - 1
    ensures !ReadRun(acc, script).Lost? ==>
              var rest := ReadRun(acc, script).rest;
              |rest| <= |script| && rest == script[|script| - |rest|..]
    decreases |script|
  {
    hide HasTerm;
    if script != [] && script[0].Ready? {
      var acc' := acc + script[0].bytes;
      if script[0].bytes != "" && |acc'| < REQ_SIZE - 1 && !HasTerm(acc') { RunSuffix(acc', script[1..]); }
    }
  }

  /** A buffer is handed over at the end of some answer, and the next call goes on behind it. */
  lemma {:induction false} CallsSuffix(acc: string, script: seq<Answer>)
    requires |acc| < REQ_SIZE - 1
    ensures ReadCalls(acc, script).Got? ==>
              var g := ReadCalls(acc, script);
              && |g.rest| < |script| && g.rest == script[|script| - |g.rest|..]
              && HasTerm(g.buf) && g.buf + DataOf(g.rest) == acc + DataOf(script)
    decreases |script|
  {
    hide HasTerm, ReadRun, DataOf;
    RunShape(acc, script);
    RunSuffix(acc, script);
    if ReadRun(acc, script).Waiting? && script != [] {
      CallsSuffix(ReadRun(acc, script).acc, ReadRun(acc, script).rest);
    }
  }

  lemma {:induction false} RunExtends(acc: string, s: seq<Answer>, t: seq<Answer>)
    requires |acc| < REQ_SIZE - 1
    ensures match ReadRun(acc, s)
            case Got(buf, rest) => ReadRun(acc, s + t) == Got(buf, rest + t)
            case Waiting(a, l, rest) => rest != [] ==> ReadRun(acc, s + t) == Waiting(a, l, rest + t)
            case Lost => ReadRun(acc, s + t) == Lost
    decreases |s|
  {
    hide HasTerm;
    if s != [] {
      assert (s + t)[1..] == s[1..] + t && (s + t)[0] == s[0];
      if s[0].Ready? {
        var acc' := acc + s[0].bytes;
        if s[0].bytes != "" && |acc'| < REQ_SIZE - 1 && !HasTerm(acc') { RunExtends(acc', s[1..], t); }
      }
    }
  }

  /** What comes later cannot change a request that is already complete. */
  lemma {:induction false} CallsExtend(acc: string, s: seq<Answer>, t: seq<Answer>)
    requires |acc| < REQ_SIZE - 1 && ReadCalls(acc, s).Got?
    ensures ReadCalls(acc, s + t) == Got(ReadCalls(acc, s).buf, ReadCalls(acc, s).rest + t)
    decreases |s|
  {
    hide HasTerm, ReadRun;
    RunShape(acc, s);
    RunExtends(acc, s, t);
    match ReadRun(acc, s)
    case Got(_, _) =>
    case Lost =>
    case Waiting(a, _, rest) =>
      if rest == [] { RunOfNothing(a); }
      CallsExtend(a, rest, t);
  }

  /** A whole request that fits the buffer. */
  ghost predicate IsRequest(r: string) {
    HasTerm(r) && Head(r) == r && |r| < REQ_SIZE - 1
  }

  ghost predicate AreRequests(rs: seq<string>) {
    forall i :: 0 <= i < |rs| ==> IsRequest(rs[i])
  }

  ghost function Concat(rs: seq<string>): string {
    if rs == [] then "" else rs[0] + Concat(rs[1..])
  }

  /** The parser gets exactly the requests `rs`, in order; what stands behind a head in its buffer is discarded. */
  ghost predicate AllHanded(script: seq<Answer>, rs: seq<string>) {
    var bufs := Dispatched(script);
    |bufs| == |rs| && forall i :: 0 <= i < |rs| ==> Head(bufs[i]) == rs[i]
  }

  /** The bytes of the first `i` answers are `w`. */
  ghost predicate EndsAt(script: seq<Answer>, i: nat, w: string) {
    i <= |script| && DataOf(script[..i]) == w
  }

  ghost predicate SomeAnswerEnds(script: seq<Answer>, w: string) {
    exists i :: EndsAt(script, i, w)
  }

  /** Every request ends where some answer ends: no answer holds the end of one and the beginning of the next. */
  ghost predicate Aligned(script: seq<Answer>, rs: seq<string>) {
    forall k :: 0 <= k <= |rs| ==> SomeAnswerEnds(script, Concat(rs[..k]))
  }

  /** All heads together are no longer than what was delivered. */
  lemma {:induction false} HeadsFit(script: seq<Answer>, rs: seq<string>)
    requires AllHanded(script, rs)
    ensures |Concat(rs)| <= |DataOf(script)|
    decreases |script|
  {
    hide HasTerm, Head, ReadCalls, DataOf;
    if rs != [] {
      CallsSuffix("", script);
      var g := ReadCalls("", script);
      assert Dispatched(script) == [g.buf] + Dispatched(g.rest);
      HeadShort(g.buf);
      HandedTail(script, rs);
      HeadsFit(g.rest, rs[1..]);
      assert |"" + DataOf(script)| == |g.buf| + |DataOf(g.rest)|;
    }
  }

  lemma HandedTail(script: seq<Answer>, rs: seq<string>)
    requires rs != [] && ReadCalls("", script).Got?
    ensures |ReadCalls("", script).rest| < |script| && HasTerm(ReadCalls("", script).buf)
    ensures AllHanded(script, rs) <==>
            Head(ReadCalls("", script).buf) == rs[0] && AllHanded(ReadCalls("", script).rest, rs[1..])
  {
    hide HasTerm, Head, ReadCalls;
    CallsSuffix("", script);
    var g := ReadCalls("", script);
    var bufs, tail := Dispatched(script), Dispatched(g.rest);
    assert bufs == [g.buf] + tail;
    if AllHanded(script, rs) {
      forall i | 0 <= i < |rs| - 1 ensures Head(tail[i]) == rs[1..][i] { assert tail[i] == bufs[i + 1]; }
    }
  }

  /** A request that ends where an answer ends is handed over by itself. */
  lemma HandedOver(script: seq<Answer>, i: nat, r: string)
    requires Healthy(script) && IsRequest(r) && EndsAt(script, i, r)
    ensures ReadCalls("", script).Got? && ReadCalls("", script).buf == r
  {
    hide HasTerm, Head, ReadCalls;
    var s := script[..i];
    assert Healthy(s);
    RequestOnce(s);
    CallsExtend("", s, script[i..]);
    assert s + script[i..] == script;
  }

  /** Alignment, seen from behind the first request. */
  lemma AlignedTail(script: seq<Answer>, n: nat, rs: seq<string>)
    requires rs != [] && EndsAt(script, n, rs[0])
    ensures Aligned(script, rs) <==> Aligned(script[n..], rs[1..])
  {
    hide DataOf;
    if Aligned(script, rs) {
      forall k | 0 <= k <= |rs| - 1 ensures SomeAnswerEnds(script[n..], Concat(rs[1..][..k])) {
        var i :| EndsAt(script, i, Concat(rs[..k + 1]));
        ConcatFront(rs, k + 1);
        ShiftDown(script, n, i, rs[0], Concat(rs[1..][..k]));
      }
    }
    if Aligned(script[n..], rs[1..]) {
      forall k | 0 <= k <= |rs| ensures SomeAnswerEnds(script, Concat(rs[..k])) {
        if k == 0 {
          assert rs[..0] == [];
          DataOfNothing(script);
        } else {
          var i :| EndsAt(script[n..], i, Concat(rs[1..][..k - 1]));
          ConcatFront(rs, k);
          ShiftUp(script, n, i, rs[0], Concat(rs[1..][..k - 1]));
        }
      }
    }
  }

  lemma DataOfNothing(script: seq<Answer>)
    ensures EndsAt(script, 0, Concat([]))
  {
  }

  lemma ConcatFront(rs: seq<string>, k: nat)
    requires 0 < k <= |rs|
    ensures Concat(rs[..k]) == rs[0] + Concat(rs[1..][..k - 1])
  {
    assert rs[..k][1..] == rs[1..][..k - 1];
  }

  lemma ShiftDown(script: seq<Answer>, n: nat, i: nat, r: string, w: string)
    requires EndsAt(script, n, r) && EndsAt(script, i, r + w)
    ensures exists j :: EndsAt(script[n..], j, w)
  {
    hide DataOf;
    if n <= i {
      assert script[..n] + script[n..i] == script[..i];
      DataOfSum(script[..n], script[n..i]);
      assert (r + w)[|r|..] == w && (r + DataOf(script[n..i]))[|r|..] == DataOf(script[n..i]);
      assert script[n..][..i - n] == script[n..i];
      assert EndsAt(script[n..], i - n, w);
    } else {
      assert script[..i] + script[i..n] == script[..n];
      DataOfSum(script[..i], script[i..n]);
      assert |r| == |r + w| + |DataOf(script[i..n])|;
      DataOfNothing(script[n..]);
      assert EndsAt(script[n..], 0, w);
    }
  }

  lemma ShiftUp(script: seq<Answer>, n: nat, j: nat, r: string, w: string)
    requires EndsAt(script, n, r) && EndsAt(script[n..], j, w)
    ensures EndsAt(script, n + j, r + w)
  {
    hide DataOf;
    assert script[..n] + script[n..][..j] == script[..n + j];
    DataOfSum(script[..n], script[n..][..j]);
  }

  lemma NothingHanded(script: seq<Answer>)
    requires Healthy(script) && DataOf(script) == ""
    ensures AllHanded(script, []) && Aligned(script, [])
  {
    hide HasTerm, Head, ReadCalls;
    assert "" + DataOf(script) == "";
    NoTermInNothing();
    CallsShape("", script);
    DataOfNothing(script);
  }

  /** Where the first buffer ends, in terms of the script. */
  lemma BufferEnds(script: seq<Answer>, w: string)
    requires ReadCalls("", script).Got? && DataOf(script) == ReadCalls("", script).buf + w
    ensures var rest := ReadCalls("", script).rest;
            && |rest| < |script| && rest == script[|script| - |rest|..] && DataOf(rest) == w
            && EndsAt(script, |script| - |rest|, ReadCalls("", script).buf)
  {
    hide HasTerm, ReadCalls, DataOf;
    CallsSuffix("", script);
    var g := ReadCalls("", script);
    var n := |script| - |g.rest|;
    assert script[..n] + g.rest == script && "" + DataOf(script) == DataOf(script);
    DataOfSum(script[..n], g.rest);
    CancelTail(g.buf, DataOf(script[..n]), DataOf(g.rest));
    assert (g.buf + w)[|g.buf|..] == w && (g.buf + DataOf(g.rest))[|g.buf|..] == DataOf(g.rest);
  }

  lemma CancelTail(a: string, b: string, t: string)
    requires a + t == b + t
    ensures a == b
  {
    assert |a + t| == |b + t|;
    assert a == (a + t)[..|a|] == (b + t)[..|b|] == b;
  }

  /** In either case of the theorem the first buffer is the first request and nothing more. */
  lemma HandedAlone(script: seq<Answer>, rs: seq<string>)
    requires Healthy(script) && rs != [] && IsRequest(rs[0]) && DataOf(script) == Concat(rs)
    requires AllHanded(script, rs) || SomeAnswerEnds(script, rs[0])
    ensures ReadCalls("", script).Got? && ReadCalls("", script).buf == rs[0]
    ensures var rest := ReadCalls("", script).rest;
            && |rest| < |script| && rest == script[|script| - |rest|..] && DataOf(rest) == Concat(rs[1..])
            && EndsAt(script, |script| - |rest|, rs[0])
  {
    hide HasTerm, Head, ReadCalls, DataOf, IsRequest;
    if i :| EndsAt(script, i, rs[0]) {
      HandedOver(script, i, rs[0]);
    } else {
      CallsSuffix("", script);
      var g := ReadCalls("", script);
      assert Dispatched(script) == [g.buf] + Dispatched(g.rest);
      HandedTail(script, rs);
      HeadsFit(g.rest, rs[1..]);
      HeadShort(g.buf);
      assert "" + DataOf(script) == DataOf(script);
      assert |g.buf| + |DataOf(g.rest)| == |rs[0]| + |Concat(rs[1..])|;
      assert g.buf[..|rs[0]|] == g.buf;
    }
    BufferEnds(script, Concat(rs[1..]));
  }

  /** If no answer ends where the first request does, the requests are not aligned. */
  lemma NeedsFirst(script: seq<Answer>, rs: seq<string>)
    requires rs != [] && Aligned(script, rs)
    ensures SomeAnswerEnds(script, rs[0])
  {
    hide DataOf;
    var i :| EndsAt(script, i, Concat(rs[..1]));
    ConcatFront(rs, 1);
    assert rs[0] + Concat([]) == rs[0];
  }

  /**
   Pipelining.  A stream of whole requests is handed to the parser request by request exactly when no answer of the TLS
   library holds the end of one request together with the beginning of the next; otherwise at least one request is
   lost.
   */
  lemma {:induction false} HandedIffAligned(script: seq<Answer>, rs: seq<string>)
    requires Healthy(script) && AreRequests(rs) && DataOf(script) == Concat(rs)
    ensures AllHanded(script, rs) <==> Aligned(script, rs)
    decreases |rs|
  {
    hide HasTerm, Head, ReadCalls, DataOf, AllHanded, Aligned;
    if rs == [] {
      NothingHanded(script);
    } else {
      if Aligned(script, rs) { NeedsFirst(script, rs); }
      if AllHanded(script, rs) || SomeAnswerEnds(script, rs[0]) {
        HandedAlone(script, rs);
        var rest := ReadCalls("", script).rest;
        HandedTail(script, rs);
        AlignedTail(script, |script| - |rest|, rs);
        HandedIffAligned(rest, rs[1..]);
      }
    }
  }

  /** Two requests in one delivery are handed over once, in two deliveries twice. */
  lemma PipelinedPair(a: string, b: string)
    requires IsRequest(a) && IsRequest(b) && |a + b| < REQ_SIZE - 1
    ensures Dispatched([Ready(a + b)]) == [a + b] && HasTerm(a + b) && Head(a + b) == a
    ensures Dispatched([Ready(a), Ready(b)]) == [a, b]
  {
    hide Head, HasTerm;
    assert "" + a == a && "" + b == b && "" + (a + b) == a + b;
    TermOfPrefix(a, a + b);
    assert [Ready(a), Ready(b)][1..] == [Ready(b)] && [Ready(b)][1..] == [] && [Ready(a + b)][1..] == [];
    NoTermInNothing();
    assert a != "" && b != "";
  }
}
