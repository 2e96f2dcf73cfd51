/**
 Messages from the child to the parent process (`fws_parent_run`, src/fws.c): each is a kind, a text and a NUL, and
 one read may hold many of them.
 */
module PipeMessages {
  import opened Bytes

  datatype Action = Ban(ip: string) | Log(line: string)

  /** What the parent did with one buffer, the count it ended with, and whether it gave up on an unknown kind. */
  datatype Handled = Handled(actions: seq<Action>, left: int, unknown: bool)

  predicate Known(c: char) {
    c == '1' || c == '2'
  }

  predicate Meaningful(m: string) {
    m != "" && Known(m[0])
  }

  function Perform(m: string): Action
    requires Meaningful(m)
  {
    if m[0] == '1' then Ban(m[1..]) else Log(m[1..])
  }

  /** The message loop, from position `p` with `acc` bytes left. */
  function Walk(buf: string, p: nat, acc: int): Handled
    requires acc > 0 ==> p + acc <= |buf|
    decreases if acc > 0 then acc else 0
  {
    if acc <= 0 then Handled([], acc, false)
    else
      var e := Find(buf, p, p + acc, NUL);
      if !Known(buf[p]) then Handled([], acc, true)
      else
        KindIsText(buf, p, p + acc);
        var rest := Walk(buf, e + 1, acc - (e - p + 1));
        rest.(actions := [Perform(buf[p..e])] + rest.actions)
  }

  lemma KindIsText(buf: string, p: nat, hi: nat)
    requires p < hi <= |buf| && Known(buf[p])
    ensures Find(buf, p, hi, NUL) > p
  {
    FindFirst(buf, p, hi, NUL);
  }

  /** One turn of the loop behind the actions already taken. */
  lemma WalkStep(buf: string, p: nat, acc: int, taken: seq<Action>)
    requires acc > 0 && p + acc <= |buf|
    ensures var e := Find(buf, p, p + acc, NUL);
            var w := Walk(buf, p, acc);
            if Known(buf[p]) then
              p < e && var rest := Walk(buf, e + 1, acc - (e - p + 1));
              w.(actions := taken + w.actions) == rest.(actions := taken + [Perform(buf[p..e])] + rest.actions)
            else w.(actions := taken + w.actions) == Handled(taken, acc, true)
  {
    hide Find, Perform;
    if Known(buf[p]) {
      KindIsText(buf, p, p + acc);
      var e := Find(buf, p, p + acc, NUL);
      var rest := Walk(buf, e + 1, acc - (e - p + 1));
      assert taken + ([Perform(buf[p..e])] + rest.actions) == taken + [Perform(buf[p..e])] + rest.actions;
    } else {
      assert taken + [] == taken;
    }
  }

  /** The loop of `fws_parent_run` over one read. */
  method HandleRead(buf: string) returns (actions: seq<Action>, readAcc: int, unknown: bool)
    ensures Handled(actions, readAcc, unknown) == Walk(buf, 0, |buf|)
  {
    hide Find, Walk;
    actions, unknown := [], false;
    var p: nat := 0;
    readAcc := |buf|;
    WalkNothing(buf, p, readAcc, actions);
    while readAcc > 0
      invariant readAcc > 0 ==> p + readAcc <= |buf|
      invariant !unknown
      invariant Walk(buf, 0, |buf|) == After(buf, p, readAcc, actions)
      decreases readAcc
    {
      WalkStep(buf, p, readAcc, actions);
      var n := Find(buf, p, p + readAcc, NUL) - p;
      if buf[p] == '1' {
        actions := actions + [Ban(buf[p + 1..p + n])];
      } else if buf[p] == '2' {
        actions := actions + [Log(buf[p + 1..p + n])];
      } else {
        unknown := true;
        return;
      }
      assert buf[p..p + n][1..] == buf[p + 1..p + n];
      p := p + (n + 1);
      readAcc := readAcc - (n + 1);
    }
    WalkNothing(buf, p, readAcc, actions);
  }

  ghost function After(buf: string, p: nat, acc: int, taken: seq<Action>): Handled
    requires acc > 0 ==> p + acc <= |buf|
  {
    var w := Walk(buf, p, acc);
    w.(actions := taken + w.actions)
  }

  lemma WalkNothing(buf: string, p: nat, acc: int, taken: seq<Action>)
    requires acc > 0 ==> p + acc <= |buf|
    ensures acc <= 0 ==> After(buf, p, acc, taken) == Handled(taken, acc, false)
    ensures taken == [] ==> After(buf, p, acc, taken) == Walk(buf, p, acc)
  {
    var w := Walk(buf, p, acc);
    assert [] + w.actions == w.actions && taken + [] == taken;
  }

  // ---------------------------------------------------------------- framing

  /** Messages as the child writes them, each with its NUL. */
  function Framed(ms: seq<string>): string {
    if ms == [] then "" else ms[0] + ([NUL] + Framed(ms[1..]))
  }

  /** The actions of the messages in front of the first one of unknown kind. */
  function Actions(ms: seq<string>): seq<Action> {
    if ms == [] || !Meaningful(ms[0]) then [] else [Perform(ms[0])] + Actions(ms[1..])
  }

  /** What is left from the first message of unknown kind on. */
  function Unhandled(ms: seq<string>): seq<string> {
    if ms == [] || !Meaningful(ms[0]) then ms else Unhandled(ms[1..])
  }

  /** The first message of a framed list, where the loop finds it. */
  lemma FirstFramed(buf: string, p: nat, ms: seq<string>)
    requires p <= |buf| && buf[p..] == Framed(ms) && ms != [] && NUL !in ms[0]
    ensures var e := p + |ms[0]|;
            e < |buf| && Find(buf, p, |buf|, NUL) == e && buf[p..e] == ms[0] && buf[e + 1..] == Framed(ms[1..])
    ensures Known(buf[p]) <==> Meaningful(ms[0])
  {
    hide Find;
    var m := ms[0];
    var e := p + |m|;
    var t := buf[p..];
    assert t[..|m|] == m && t[|m|] == NUL && t[|m| + 1..] == Framed(ms[1..]);
    assert forall i :: p <= i < e ==> buf[i] == t[i - p] == m[i - p];
    assert buf[e] == t[|m|];
    FindIs(buf, p, |buf|, NUL, e);
  }

  lemma {:induction false} WalkFramed(buf: string, p: nat, ms: seq<string>, taken: seq<Action>)
    requires p <= |buf| && buf[p..] == Framed(ms)
    requires forall i :: 0 <= i < |ms| ==> NUL !in ms[i]
    ensures After(buf, p, |buf| - p, taken) ==
            Handled(taken + Actions(ms), |Framed(Unhandled(ms))|, Unhandled(ms) != [])
    decreases |ms|
  {
    hide Find, Walk, Perform;
    if ms == [] {
      WalkNothing(buf, p, |buf| - p, taken);
      assert taken + Actions(ms) == taken;
    } else {
      FirstFramed(buf, p, ms);
      WalkStep(buf, p, |buf| - p, taken);
      var e := p + |ms[0]|;
      if Meaningful(ms[0]) {
        WalkFramed(buf, e + 1, ms[1..], taken + [Perform(ms[0])]);
        assert taken + [Perform(ms[0])] + Actions(ms[1..]) == taken + Actions(ms);
      } else {
        assert taken + Actions(ms) == taken;
      }
    }
  }

  /**
   Framing round-trips: any list of NUL-free messages put into one read is handled in order, up to the first one of
   unknown kind; if there is none, nothing is left over.
   */
  lemma MessagesRoundTrip(ms: seq<string>)
    requires forall i :: 0 <= i < |ms| ==> NUL !in ms[i]
    ensures Walk(Framed(ms), 0, |Framed(ms)|) ==
            Handled(Actions(ms), |Framed(Unhandled(ms))|, Unhandled(ms) != [])
    ensures (forall i :: 0 <= i < |ms| ==> Meaningful(ms[i])) ==>
              var h := Walk(Framed(ms), 0, |Framed(ms)|);
              h.left == 0 && !h.unknown && |h.actions| == |ms| &&
              forall i :: 0 <= i < |ms| ==> h.actions[i] == Perform(ms[i])
  {
    hide Find, Walk, Perform, Framed, Actions, Unhandled, After;
    assert Framed(ms)[0..] == Framed(ms);
    WalkFramed(Framed(ms), 0, ms, []);
    WalkNothing(Framed(ms), 0, |Framed(ms)|, []);
    assert [] + Actions(ms) == Actions(ms);
    if forall i :: 0 <= i < |ms| ==> Meaningful(ms[i]) { AllHandled(ms); }
  }

  /** What the child writes to have something done. */
  function Order(a: Action): string {
    match a
    case Ban(ip) => "1" + ip
    case Log(line) => "2" + line
  }

  function Orders(acts: seq<Action>): (ms: seq<string>)
    ensures |ms| == |acts| && forall i :: 0 <= i < |ms| ==> ms[i] == Order(acts[i])
  {
    seq(|acts|, i requires 0 <= i < |acts| => Order(acts[i]))
  }

  /** What the child orders is done, all of it and in order: addresses are banned, and lines are logged. */
  lemma OrdersRoundTrip(acts: seq<Action>)
    requires forall i :: 0 <= i < |acts| ==> NUL !in Order(acts[i])
    ensures var buf := Framed(Orders(acts)); Walk(buf, 0, |buf|) == Handled(acts, 0, false)
  {
    hide Walk, Framed;
    var ms := Orders(acts);
    forall i | 0 <= i < |acts| ensures Meaningful(ms[i]) && Perform(ms[i]) == acts[i] { OrderMeans(acts[i]); }
    MessagesRoundTrip(ms);
  }

  lemma OrderMeans(a: Action)
    ensures Meaningful(Order(a)) && Perform(Order(a)) == a
  {
    var m := Order(a);
    match a
    case Ban(ip) => assert m[1..] == ip;
    case Log(line) => assert m[1..] == line;
  }

  lemma {:induction false} AllHandled(ms: seq<string>)
    requires forall i :: 0 <= i < |ms| ==> Meaningful(ms[i])
    ensures Unhandled(ms) == [] && Framed(Unhandled(ms)) == "" && |Actions(ms)| == |ms|
    ensures forall i :: 0 <= i < |ms| ==> Meaningful(ms[i]) && Actions(ms)[i] == Perform(ms[i])
  {
    if ms != [] { AllHandled(ms[1..]); }
  }

  /** On any bytes at all, a loop that met no unknown kind ends at 0 exactly when the last message was not torn. */
  lemma {:induction false} EndsAtZeroIff(buf: string, p: nat, acc: int)
    requires acc > 0 && p + acc <= |buf| && !Walk(buf, p, acc).unknown
    ensures Walk(buf, p, acc).left == if buf[p + acc - 1] == NUL then 0 else -1
    decreases acc
  {
    hide Find;
    var e := Find(buf, p, p + acc, NUL);
    FindFirst(buf, p, p + acc, NUL);
    var acc' := acc - (e - p + 1);
    if acc' > 0 { EndsAtZeroIff(buf, e + 1, acc'); }
  }
}
