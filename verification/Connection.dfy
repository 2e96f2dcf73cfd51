/**
 One HTTPS connection: `struct fws_data_ctx`, `net_443_read`, `net_443_write`, `net_443_file_write`
 (src/net_443.c) and the loop of `_fws_443_run` (src/fws.c), driven by a script of TLS answers.

 Assumptions on the environment: a TLS write is accepted whole or not at all, after a fatal answer every later call
 fails, and files are smaller than 2^31 bytes and do not change while they are sent.
 */
module Connection {
  import opened Bytes
  import opened TlsRead

  /** Bytes read from the file at a time. */
  const CHUNK: nat := 4096
  const S32_LIMIT: nat := 0x8000_0000

  /** What `open` finds at a path.  A directory can be opened, but every `read` from it fails. */
  datatype Entry = File(content: string) | Directory

  /** The paths `open` accepts. */
  type Disk = map<string, Entry>

  /** All that reading a path can deliver. */
  function Content(disk: Disk, path: string): string {
    if path in disk && disk[path].File? then disk[path].content else ""
  }

  /** What the request handler decides for one request; the byte strings are opaque. */
  datatype Reply =
    | Drop                              // nothing is written, the connection is closed
    | Redirect(head: string)            // one 301, then close
    | Refuse(head: string, page: string)  // error page, then close
    | Report(head: string, page: string)  // error page, then the next request
    | NotModified(head: string)         // a 304 without a body, then close
    | Send(head: string, path: string)  // header and what can be read of the file, then the next request

  /** The handler, as a function of the earlier requests on this connection and the bytes of this one. */
  type Handler = (seq<string>, string) -> Reply

  ghost predicate FilesSmall(disk: Disk) {
    forall path :: path in disk ==> |Content(disk, path)| < S32_LIMIT
  }

  /** The complete response. */
  ghost function Full(r: Reply, disk: Disk): string {
    match r
    case Drop => ""
    case Redirect(h) => h
    case Refuse(h, p) => h + p
    case Report(h, p) => h + p
    case NotModified(h) => h
    case Send(h, path) => h + Content(disk, path)
  }

  ghost function Flat(rs: seq<Reply>, disk: Disk): string {
    if rs == [] then "" else Flat(rs[..|rs| - 1], disk) + Full(rs[|rs| - 1], disk)
  }

  ghost function Joined(parts: seq<string>): string {
    if parts == [] then "" else Joined(parts[..|parts| - 1]) + parts[|parts| - 1]
  }

  datatype Status = New | Init | Accepted | AcceptRead | AcceptWrite
  datatype Interest = In | Out | Gone

  /** The part of a file one `read` returns at an offset. */
  function ChunkAt(content: string, off: nat): string
    requires off <= |content|
  {
    content[off..Min(off + CHUNK, |content|)]
  }

  lemma SliceGrows(s: string, from: nat, mid: nat, to: nat)
    requires from <= mid <= to <= |s|
    ensures s[from..mid] + s[mid..to] == s[from..to]
  {
  }

  /** Some more of a file. */
  lemma SentBetween(base: string, content: string, from: nat, off: nat, next: nat)
    requires from <= off <= next <= |content|
    ensures base + content[from..off] + content[off..next] == base + content[from..next]
  {
    Regroup(base, content[from..off], content[off..next]);
    SliceGrows(content, from, off, next);
  }

  lemma SentSoFar(base: string, content: string, from: nat, upTo: nat)
    requires from <= upTo <= |content|
    ensures base + content[..from] + content[from..upTo] == base + content[..upTo]
    ensures content[..|content|] == content
  {
    SliceGrows(content, 0, from, upTo);
    Regroup(base, content[..from], content[from..upTo]);
  }

  /** A part of the last response makes a prefix of the whole conversation. */
  lemma PartOfFlat(rs: seq<Reply>, disk: Disk, done: string)
    requires rs != [] && done <= Full(rs[|rs| - 1], disk)
    ensures Flat(rs[..|rs| - 1], disk) + done <= Flat(rs, disk)
    ensures done == Full(rs[|rs| - 1], disk) ==> Flat(rs[..|rs| - 1], disk) + done == Flat(rs, disk)
  {
    hide Full;
  }

  lemma FlatStep(rs: seq<Reply>, r: Reply, disk: Disk)
    ensures Flat(rs + [r], disk) == Flat(rs, disk) + Full(r, disk)
  {
    hide Full;
    assert (rs + [r])[..|rs|] == rs;
  }

  lemma JoinedStep(parts: seq<string>, part: string)
    ensures Joined(parts + [part]) == Joined(parts) + part
  {
    assert (parts + [part])[..|parts|] == parts;
  }

  /** One more request answered by the handler. */
  lemma AnswersExtend(app: Handler, requests: seq<string>, replies: seq<Reply>, buf: string)
    requires |replies| == |requests|
    requires forall i :: 0 <= i < |replies| ==> replies[i] == app(requests[..i], requests[i])
    ensures var rs, qs := replies + [app(requests, buf)], requests + [buf];
            forall i :: 0 <= i < |rs| ==> rs[i] == app(qs[..i], qs[i])
  {
    var qs := requests + [buf];
    assert qs[..|requests|] == requests && forall i :: 0 <= i < |requests| ==> qs[..i] == requests[..i];
  }

  /** A read that does not fail uses up a part of the script, and what it keeps waiting is still incomplete. */
  lemma RunProgress(acc: string, script: seq<Answer>)
    requires |acc| < REQ_SIZE - 1
    ensures match ReadRun(acc, script)
            case Waiting(a, l, rest) =>
              && (!HasTerm(acc) ==> !HasTerm(a)) && (script != [] ==> |rest| < |script|)
              && (l == WantRead || l == WantWrite)
            case Got(_, rest) => |rest| < |script|
            case Lost => true
  {
    hide HasTerm, ReadRun;
    RunShape(acc, script);
  }

  // ---------------------------------------------------------------- what the session did

  /** A call into the TLS library: the handshake, a read into `room` bytes, or a write. */
  datatype Call = Accepting | Reading(room: nat) | Writing(src: string)

  /** One call that an answer of the script was used for. */
  datatype Exchange = Exchange(call: Call, answer: Answer)

  function AnswersOf(trace: seq<Exchange>): seq<Answer> {
    seq(|trace|, i requires 0 <= i < |trace| => trace[i].answer)
  }

  /** The last call was a read that met a close notify, or more bytes than the request buffer has room for. */
  predicate InputEnded(trace: seq<Exchange>) {
    trace != [] &&
    var e := trace[|trace| - 1];
    e.call.Reading? && e.answer.Ready? && (e.answer.bytes == "" || |e.answer.bytes| >= e.call.room)
  }

  /** The bytes one call put on the wire, and the bytes it took off it. */
  function SentIn(call: Call, a: Answer): string {
    if call.Writing? && a.Ready? then call.src else ""
  }

  function ReceivedIn(call: Call, a: Answer): string {
    if call.Reading? && a.Ready? then a.bytes[..Min(|a.bytes|, call.room)] else ""
  }

  ghost function SentBy(trace: seq<Exchange>): string {
    if trace == [] then ""
    else SentBy(trace[..|trace| - 1]) + SentIn(trace[|trace| - 1].call, trace[|trace| - 1].answer)
  }

  ghost function ReceivedBy(trace: seq<Exchange>): string {
    if trace == [] then ""
    else ReceivedBy(trace[..|trace| - 1]) + ReceivedIn(trace[|trace| - 1].call, trace[|trace| - 1].answer)
  }

  lemma TraceStep(trace: seq<Exchange>, e: Exchange, rest: seq<Answer>)
    ensures AnswersOf(trace + [e]) + rest == AnswersOf(trace) + ([e.answer] + rest)
    ensures SentBy(trace + [e]) == SentBy(trace) + SentIn(e.call, e.answer)
    ensures ReceivedBy(trace + [e]) == ReceivedBy(trace) + ReceivedIn(e.call, e.answer)
  {
    hide SentIn, ReceivedIn;
    assert (trace + [e])[..|trace|] == trace;
    assert AnswersOf(trace + [e]) == AnswersOf(trace) + [e.answer];
  }

  /** The replies after which the connection is closed even if everything got through. */
  predicate Closes(r: Reply) {
    r.Drop? || r.Redirect? || r.Refuse? || r.NotModified?
  }

  lemma ClosesIff(r: Reply)
    ensures Closes(r) <==> !r.Report? && !r.Send?
  {
  }

  /** How the loop goes on after a reply. */
  datatype Step = Close(ret: int) | Pause | Again | Body

  class DataCtx {
    // The TLS session: the answers still to come, and what those before were given to.
    ghost const whole: seq<Answer>
    var script: seq<Answer>
    ghost var trace: seq<Exchange>
    var broken: bool
    var last: Answer
    // struct fws_data_ctx
    var fileLen: int
    const reqBuf: array<char>
    var accReadN: int
    var wantWrite: int
    var sslStatus: Status
    var filePath: string
    var fdOpen: bool
    var interest: Interest
    // The conversation so far, which the handler's decisions may depend on.
    var requests: seq<string>
    var replies: seq<Reply>
    ghost var sent: string
    ghost var received: string
    ghost var releases: nat
    ghost var retry: string  // the bytes a paused write has to be repeated with, if any

    ghost predicate Shape()
      reads this, reqBuf
    {
      && reqBuf.Length == REQ_SIZE
      && 0 <= accReadN < REQ_SIZE - 1
      && 0 <= fileLen
    }

    /** What has been read of the next request. */
    ghost function Pending(): string
      requires Shape()
      reads this, reqBuf
    {
      reqBuf[..accReadN]
    }

    /** The script has been used up in order, and the calls it answered sent `s` and received `r`. */
    ghost predicate Accounts(s: string, r: string)
      reads this`script, this`trace, this`last, this`broken
    {
      && AnswersOf(trace) + script == whole && SentBy(trace) == s && ReceivedBy(trace) == r
      && (broken ==> last == Failed) && (trace != [] && script != [] ==> last == trace[|trace| - 1].answer)
    }

    /** What is said to have been sent and received is what the TLS library accepted and delivered. */
    ghost predicate Honest()
      reads this`script, this`trace, this`last, this`broken, this`sent, this`received
    {
      Accounts(sent, received)
    }

    constructor (script: seq<Answer>)
      ensures Shape() && fresh(reqBuf) && this.script == script == whole && !broken && Honest()
      ensures fileLen == 0 && accReadN == 0 && wantWrite == 0 && sslStatus == New && fdOpen && interest == In
      ensures sent == "" && received == "" && requests == [] && replies == [] && releases == 0 && retry == ""
    {
      this.script, whole, trace := script, script, [];
      broken, last := false, WantRead;
      reqBuf := new char[REQ_SIZE](_ => NUL);
      fileLen, accReadN, wantWrite, sslStatus, filePath, fdOpen, interest := 0, 0, 0, New, "", true, In;
      sent, received, requests, replies, releases, retry := "", "", [], [], 0, "";
      new;
      assert AnswersOf([]) + script == script;
    }

    /** One call into the TLS library. */
    method Ask(ghost call: Call) returns (a: Answer)
      requires Honest()
      modifies this`script, this`broken, this`last, this`trace
      ensures Accounts(sent + SentIn(call, a), received + ReceivedIn(call, a))
      ensures last == a
      ensures broken == (a == Failed)
      ensures old(broken) ==> a == Failed && script == old(script)
      ensures !old(broken) && old(script) == [] ==> a == WantRead && script == []
      ensures !old(broken) && old(script) != [] ==> a == old(script)[0] && script == old(script)[1..]
      ensures a.Ready? ==> trace == old(trace) + [Exchange(call, a)]
    {
      hide AnswersOf, SentBy, ReceivedBy;
      if broken {
        a := Failed;
      } else if script == [] {
        a := WantRead;
      } else {
        a := script[0];
        TraceStep(trace, Exchange(call, a), script[1..]);
        trace := trace + [Exchange(call, a)];
        assert [a] + script[1..] == script;
        script := script[1..];
        broken := a == Failed;
      }
      assert sent + "" == sent && received + "" == received;
      last := a;
    }

    /** `net_443_write`: all of `src` or nothing; a paused write must be repeated with the same bytes. */
    method Write(src: string) returns (ret: int)
      requires Honest() && (retry == "" || retry == src)
      modifies this`script, this`broken, this`last, this`trace, this`interest, this`sent, this`retry
      ensures Honest()
      ensures |script| <= |old(script)| && (old(script) != [] && !broken ==> |script| < |old(script)|)
      ensures old(broken) ==> broken
      ensures ret == (if last.Ready? then 1 else if last == Failed then -1 else 0)
      ensures broken == (ret == -1)
      ensures sent == if ret == 1 then old(sent) + src else old(sent)
      ensures retry == if ret == 0 then src else if ret == 1 then "" else old(retry)
      ensures interest == if last == WantWrite then Out else In
    {
      hide Accounts;
      var a := Ask(Writing(src));
      assert sent + "" == sent && received + "" == received;
      match a
      case Ready(_) =>
        sent, retry := sent + src, "";
        interest := In;
        ret := 1;
      case WantWrite =>
        retry := src;
        interest := Out;
        ret := 0;
      case WantRead =>
        retry := src;
        interest := In;
        ret := 0;
      case Failed =>
        interest := In;
        ret := -1;
    }

    /** `SSL_read` into the buffer behind what it holds: the library copies as many decrypted bytes as fit. */
    method Fill(acc: nat, ghost buf: string) returns (a: Answer, data: string)
      requires Shape() && Honest() && |buf| == acc < REQ_SIZE - 1 && reqBuf[..acc] == buf
      modifies this`script, this`broken, this`last, this`trace, this`received, reqBuf
      ensures Honest() && last == a
      ensures broken == (a == Failed)
      ensures old(broken) ==> a == Failed && script == old(script)
      ensures !old(broken) && old(script) == [] ==> a == WantRead && script == []
      ensures !old(broken) && old(script) != [] ==> a == old(script)[0] && script == old(script)[1..]
      ensures a.Ready? && (a.bytes == "" || acc + |data| >= REQ_SIZE - 1) ==> InputEnded(trace)
      ensures data == if a.Ready? then a.bytes[..Min(|a.bytes|, REQ_SIZE - acc - 1)] else ""
      ensures received == old(received) + data && reqBuf[..acc + |data|] == buf + data
    {
      hide Accounts;
      a := Ask(Reading(REQ_SIZE - acc - 1));
      data := if a.Ready? then a.bytes[..Min(|a.bytes|, REQ_SIZE - acc - 1)] else "";
      assert sent + "" == sent;
      received := received + data;
      Put(reqBuf, acc, data);
    }

    /** One turn of the loop of `net_443_read`: its return code, or 2 to go on. */
    method ReadTurn(acc: nat, ghost buf: string) returns (ret: int, data: string)
      requires Shape() && Honest() && |buf| == acc < REQ_SIZE - 1 && reqBuf[..acc] == buf
      modifies this`script, this`broken, this`last, this`trace, this`interest,
               this`accReadN, this`received, reqBuf
      ensures Shape() && Honest() && |script| <= |old(script)|
      ensures old(broken) || broken ==> ret < 0
      ensures ret == 2 || ret == 0 || ret == 1 || ret == -1 || ret == -431
      ensures acc + |data| < REQ_SIZE && received == old(received) + data && reqBuf[..acc + |data|] == buf + data
      ensures ret == 2 ==> |buf + data| < REQ_SIZE - 1 && |script| < |old(script)|
      ensures ret == 2 ==> ReadRun(buf, old(script)) == ReadRun(buf + data, script)
      ensures ret == 2 ==> accReadN == old(accReadN)
      ensures ret == 1 ==> ReadRun(buf, old(script)) == Got(buf + data, script) && |buf + data| < REQ_SIZE
      ensures ret == 1 ==> reqBuf[|buf + data|] == NUL
      ensures ret == 0 ==> ReadRun(buf, old(script)) == Waiting(buf, last, script) && data == "" && accReadN == acc
      ensures ret < 0 && !old(broken) ==> ReadRun(buf, old(script)) == Lost
      ensures ret < 0 || ret == 1 ==> accReadN == 0
      ensures ret != 2 ==> interest == if last == WantWrite then Out else In
      ensures ret < 0 && last.Ready? ==> InputEnded(trace) && !old(broken)
    {
      hide HasTerm, MatchAt, Honest, ReadRun;
      RunStep(buf, script);
      var a;
      a, data := Fill(acc, buf);
      match a
      case WantRead =>
        interest, accReadN := In, acc;
        ret := 0;
      case WantWrite =>
        interest, accReadN := Out, acc;
        ret := 0;
      case Failed =>
        interest, accReadN := In, 0;
        ret := -1;
      case Ready(b) =>
        var total := acc + |data|;
        if b == "" {
          interest, accReadN := In, 0;
          ret := -1;
        } else if total >= REQ_SIZE - 1 {
          interest, accReadN := In, 0;
          ret := -431;
        } else if HasTerm(reqBuf[..total]) {
          assert data == b;
          reqBuf[total] := NUL;
          interest, accReadN := In, 0;
          ret := 1;
        } else {
          assert data == b;
          ret := 2;
        }
    }

    /**
     `net_443_read`: it does to the buffer what `ReadRun` says.  It is only ever entered on a response boundary, or on
     a session that has failed already.
     */
    method Read(ghost disk: Disk) returns (ret: int, buf: string)
      requires Shape() && Honest()
      requires broken || (retry == "" && sent == Flat(replies, disk))
      modifies this`script, this`broken, this`last, this`trace, this`interest,
               this`accReadN, this`received, reqBuf
      ensures Shape() && Honest() && |script| <= |old(script)|
      ensures old(broken) ==> ret < 0
      ensures broken ==> ret < 0
      ensures !old(broken) ==>
                match ReadRun(old(Pending()), old(script))
                case Lost => ret < 0
                case Waiting(acc, l, rest) => ret == 0 && Pending() == acc && last == l && script == rest
                case Got(b, rest) => ret == 1 && buf == b && script == rest
      ensures ret == 1 ==> |buf| < REQ_SIZE && reqBuf[..|buf|] == buf && reqBuf[|buf|] == NUL
      ensures ret == 0 || ret == 1 || ret == -1 || ret == -431
      ensures ret != 0 ==> accReadN == 0
      ensures interest == if last == WantWrite then Out else In
      ensures ret < 0 && last.Ready? ==> InputEnded(trace) && !old(broken)
      ensures old(received) <= received
      ensures ret >= 0 ==>
                old(Pending()) + received[|old(received)|..] == if ret == 1 then buf else Pending()
    {
      hide HasTerm, MatchAt, Flat, Full, Joined, ChunkAt, Honest, ReadRun;
      var acc: nat := accReadN;
      ghost var start := Pending();
      buf := reqBuf[..acc];
      ghost var got := "";
      ghost var goal := ReadRun(start, script);
      while true
        invariant Shape() && |buf| == acc < REQ_SIZE - 1 && reqBuf[..acc] == buf
        invariant accReadN == old(accReadN) && |script| <= |old(script)| && broken == old(broken)
        invariant !broken ==> ReadRun(buf, script) == goal
        invariant Honest()
        invariant received == old(received) + got && start + got == buf
        decreases |script|
      {
        var data;
        ret, data := ReadTurn(acc, buf);
        Regroup(old(received), got, data);
        Regroup(start, got, data);
        got := got + data;
        buf := buf + data;
        acc := acc + |data|;
        if ret != 2 { break; }
      }
    }

    /** What of `content` has to be sent next: the chunk at `off`, and nothing else, if a write of it was paused. */
    ghost predicate Resumes(content: string, off: nat)
      reads this`retry
    {
      off <= |content| && (retry == "" || (off < |content| && retry == ChunkAt(content, off)))
    }

    /** One turn of the loop of `net_443_file_write`. */
    method WriteChunk(content: string, off: nat) returns (ret: int, next: nat)
      requires Honest() && off < |content| && Resumes(content, off)
      modifies this`script, this`broken, this`last, this`trace, this`interest, this`sent, this`retry
      ensures Honest() && off <= next <= |content| && sent == old(sent) + content[off..next]
      ensures |script| <= |old(script)| && (old(interest) != Gone ==> interest != Gone)
      ensures ret == 1 || ret == 0 || ret == -1
      ensures ret == 1 ==> off < next && retry == "" && broken == old(broken)
      ensures ret == 0 ==> next == off && retry == ChunkAt(content, off) && !broken
      ensures ret == 0 ==> last == WantRead || last == WantWrite
      ensures ret == 0 ==> interest == if last == WantWrite then Out else In
      ensures ret == 0 && old(script) != [] ==> |script| < |old(script)|
      ensures ret < 0 ==> next == off && broken
    {
      hide Honest;
      var chunk := ChunkAt(content, off);
      ret := Write(chunk);
      next := if ret == 1 then off + |chunk| else off;
      assert content[off..off] == "" && sent + "" == sent;
    }

    /**
     `net_443_file_write`: from the saved offset to the end, a chunk at a time.  However often it is interrupted, the
     offset it saves is exactly what has been accepted.  Unless TLS fails, whatever else it returns means that all there
     was to read has been sent: nothing, if the path is a directory or cannot be opened.
     */
    method FileWrite(path: string, disk: Disk) returns (ret: int, ghost upTo: nat)
      requires Honest() && Shape() && FilesSmall(disk) && fileLen <= |Content(disk, path)|
      requires retry == "" || (fileLen < |Content(disk, path)| && retry == ChunkAt(Content(disk, path), fileLen))
      modifies this`script, this`broken, this`last, this`trace, this`interest, this`sent, this`retry, this`fileLen
      ensures Honest() && |script| <= |old(script)| && (old(interest) != Gone ==> interest != Gone)
      ensures old(fileLen) <= upTo <= |Content(disk, path)|
      ensures sent == old(sent) + Content(disk, path)[old(fileLen)..upTo]
      ensures ret == 0 || ret == 1 || ret == -1
      ensures ret == 0 ==> path in disk && broken == old(broken)
      ensures ret == -1 && path in disk ==> broken
      ensures ret == 0 || path !in disk ==>
                upTo == |Content(disk, path)| && fileLen == 0 && retry == "" && broken == old(broken)
      ensures ret == 1 ==> upTo == fileLen < |Content(disk, path)| && retry == ChunkAt(Content(disk, path), fileLen)
      ensures ret == 1 ==> !broken && (last == WantRead || last == WantWrite)
      ensures ret == 1 ==> interest == if last == WantWrite then Out else In
      ensures ret == 1 && old(script) != [] ==> |script| < |old(script)|
      ensures ret == -1 ==> fileLen == 0
    {
      if path !in disk { return -1, 0; }
      var content := Content(disk, path);
      assert |content| < S32_LIMIT;
      hide Honest, ChunkAt, Content, FilesSmall;
      var readAcc := 0;
      if fileLen > 0 { readAcc := fileLen; }
      ghost var from := readAcc;
      while readAcc < |content|
        invariant from == old(fileLen) == fileLen <= readAcc && Resumes(content, readAcc)
        invariant |script| <= |old(script)| && broken == old(broken) && (old(interest) != Gone ==> interest != Gone)
        invariant Honest() && sent == old(sent) + content[from..readAcc]
      {
        ghost var off := readAcc;
        ret, readAcc := WriteChunk(content, readAcc);
        SentBetween(old(sent), content, from, off, readAcc);
        if ret == 0 {
          assert readAcc < S32_LIMIT;
          fileLen := readAcc;
          return 1, readAcc;
        } else if ret < 0 {
          fileLen := 0;
          return -1, readAcc;
        }
      }
      fileLen := 0;
      return 0, readAcc;
    }

    /**
     A whole transfer: `net_443_file_write` called again after every pause.  Each byte of the file is delivered once and
     in order, however the calls were interrupted.
     */
    method Transfer(path: string, disk: Disk) returns (ret: int, ghost upTo: nat)
      requires Honest() && Shape() && fileLen == 0 && retry == "" && FilesSmall(disk)
      modifies this`script, this`broken, this`last, this`trace, this`interest, this`sent, this`retry, this`fileLen
      ensures Honest() && upTo <= |Content(disk, path)| && sent == old(sent) + Content(disk, path)[..upTo]
      ensures ret == 0 || path !in disk ==> upTo == |Content(disk, path)|
      ensures ret == 1 ==> script == [] && upTo == fileLen < |Content(disk, path)|
      ensures ret != 0 && ret != 1 ==> broken || path !in disk
    {
      hide Honest, FilesSmall, ChunkAt, Content;
      var content := Content(disk, path);
      upTo, ret := 0, 1;
      while true
        invariant Honest() && Shape() && ret == 1 && upTo == fileLen <= |content|
        invariant sent == old(sent) + content[..upTo]
        invariant retry == "" || (fileLen < |content| && retry == ChunkAt(content, fileLen))
        decreases |script|
      {
        ghost var from := upTo;
        var before := script;
        ret, upTo := FileWrite(path, disk);
        SentSoFar(old(sent), content, from, upTo);
        if ret != 1 || before == [] { break; }
      }
    }

    /** `net_443_err_write`: header and page, given up at the first pause. */
    method ErrWrite(head: string, page: string) returns (ret: int, ghost done: string)
      requires Honest() && retry == ""
      modifies this`script, this`broken, this`last, this`trace, this`interest, this`sent, this`retry
      ensures Honest() && |script| <= |old(script)|
      ensures ret == 0 || ret == -1
      ensures sent == old(sent) + done && done <= head + page
      ensures ret == 0 ==> done == head + page && retry == "" && !broken
      ensures ret == -1 ==> !last.Ready?
      ensures interest != Gone
    {
      hide Honest;
      ret := Write(head);
      if ret <= 0 { return -1, ""; }
      ret := Write(page);
      if ret <= 0 { return -1, head; }
      assert sent == old(sent) + (head + page);
      return 0, head + page;
    }

    /** The responses dispatched so far are the handler's answers to the requests, and a prefix of them was sent. */
    ghost predicate Faithful(app: Handler, disk: Disk)
      reads this`requests, this`replies, this`sent
    {
      && |replies| == |requests|
      && (forall i :: 0 <= i < |replies| ==> replies[i] == app(requests[..i], requests[i]))
      && sent <= Flat(replies, disk)
    }

    /** The dispatched buffers are what was received first, in order. */
    ghost predicate Heard()
      reads this`requests, this`received
    {
      Joined(requests) <= received
    }

    /** In the middle of a file: everything of the last response up to the saved offset has been sent. */
    ghost predicate MidFile(disk: Disk)
      reads this`replies, this`filePath, this`fileLen, this`sent, this`retry
    {
      && replies != [] && replies[|replies| - 1].Send? && replies[|replies| - 1].path == filePath
      && 0 <= fileLen <= |Content(disk, filePath)|
      && sent ==
         Flat(replies[..|replies| - 1], disk) + (replies[|replies| - 1].head + Content(disk, filePath)[..fileLen])
      && (retry == "" || (fileLen < |Content(disk, filePath)| && retry == ChunkAt(Content(disk, filePath), fileLen)))
    }

    /** Everything `_fws_443_run` writes for one reply before the body of a file; `done` is what got through. */
    method WriteReply(reply: Reply, ghost disk: Disk) returns (step: Step, ghost done: string)
      requires Honest() && retry == ""
      modifies this`script, this`broken, this`last, this`trace, this`interest, this`sent, this`retry, this`filePath
      ensures Honest() && |script| <= |old(script)|
      ensures sent == old(sent) + done && done <= Full(reply, disk)
      ensures step.Close? ==> step.ret <= 0
      ensures !step.Close? ==> !broken && retry == ""
      ensures step.Again? ==> done == Full(reply, disk)
      ensures Closes(reply) ==> step.Close?
      ensures step.Body? ==> reply.Send? && done == reply.head && filePath == reply.path
      ensures step.Close? && last.Ready? ==> done == Full(reply, disk) && Closes(reply)
      ensures !step.Pause? && (old(interest) != Gone ==> interest != Gone)
    {
      hide Accounts;
      match reply
      case Drop =>
        step, done := Close(-1), "";
      case Redirect(head) =>
        var ret := Write(head);
        step, done := Close(-1), if ret == 1 then head else "";
      case Refuse(head, page) =>
        var ret;
        ret, done := ErrWrite(head, page);
        step := Close(ret);
      case Report(head, page) =>
        var ret;
        ret, done := ErrWrite(head, page);
        step := if ret < 0 then Close(-1) else Again;
      case NotModified(head) =>
        var ret := Write(head);
        step, done := if ret <= 0 then Close(-1) else Close(0), if ret == 1 then head else "";
      case Send(head, path) =>
        filePath := path;
        var ret := Write(head);
        step, done := if ret <= 0 then Close(-1) else Body, if ret == 1 then head else "";
    }

    /** Enter a request and its reply into the conversation, and write the reply. */
    method Respond(app: Handler, disk: Disk, buf: string, reply: Reply) returns (step: Step)
      requires Honest() && retry == "" && fileLen == 0
      requires Faithful(app, disk) && sent == Flat(replies, disk)
      requires reply == app(requests, buf)
      modifies this`script, this`broken, this`last, this`trace, this`interest, this`sent, this`retry,
               this`filePath, this`requests, this`replies
      ensures requests == old(requests) + [buf] && replies == old(replies) + [reply]
      ensures Honest() && Faithful(app, disk) && |script| <= |old(script)|
      ensures step.Close? ==> step.ret <= 0
      ensures Closes(reply) ==> step.Close?
      ensures step.Again? ==> !broken && retry == "" && sent == Flat(replies, disk)
      ensures step.Body? ==> !broken && retry == "" && MidFile(disk)
      ensures step.Close? && last.Ready? ==> sent == Flat(replies, disk) && Closes(reply)
      ensures !step.Pause? && (old(interest) != Gone ==> interest != Gone) && old(sent) <= sent
    {
      hide Accounts, Flat, Full, Content, ChunkAt;
      ghost var base := replies;
      AnswersExtend(app, requests, replies, buf);
      requests, replies := requests + [buf], replies + [reply];
      FlatStep(base, reply, disk);
      ghost var done;
      step, done := WriteReply(reply, disk);
      assert replies[..|replies| - 1] == base;
      PartOfFlat(replies, disk, done);
      if step.Body? { assert reply.head + Content(disk, filePath)[..0] == reply.head; }
    }

    /** Every byte read so far is in exactly one dispatched buffer or still pending, and nothing pending is complete. */
    ghost predicate Conserved()
      requires Shape()
      reads this, reqBuf
    {
      Joined(requests) + Pending() == received && !HasTerm(Pending())
    }

    /** No reply so far was a closing one. */
    ghost predicate KeepsOpen()
      reads this`replies
    {
      forall i :: 0 <= i < |replies| ==> !Closes(replies[i])
    }

    /** No reply follows a closing one. */
    ghost predicate ClosesLast()
      reads this`replies
    {
      forall i :: 0 <= i < |replies| - 1 ==> !Closes(replies[i])
    }

    /** A context epoll still knows: between calls it rests on a response boundary or inside a file. */
    ghost predicate Resting(disk: Disk)
      reads this, reqBuf
    {
      && Shape() && Conserved() && !broken && KeepsOpen()
      && (sslStatus != Accepted ==> requests == [] && wantWrite == 0)
      && if wantWrite == 1 then accReadN == 0 && MidFile(disk)
         else wantWrite == 0 && fileLen == 0 && retry == "" && sent == Flat(replies, disk)
    }

    ghost predicate Valid(app: Handler, disk: Disk)
      reads this, reqBuf
    {
      && Faithful(app, disk) && Honest() && Heard() && ClosesLast()
      && if fdOpen then interest != Gone && releases == 0 && Resting(disk) else interest == Gone && releases == 1
    }

    lemma EmptyPending()
      requires Shape() && accReadN == 0
      ensures Pending() == "" && !HasTerm(Pending())
    {
    }

    /** The end of `_fws_443_run` for a connection that is given up. */
    method Release(ret: int) returns (r: int)
      requires fdOpen && releases == 0
      modifies this`fdOpen, this`interest, this`releases
      ensures r == ret && !fdOpen && interest == Gone && releases == 1
    {
      interest := Gone;
      fdOpen := false;
      releases := releases + 1;
      r := ret;
    }

    /** The handshake part of `_fws_443_run`. */
    method Handshake() returns (ret: int)
      requires Honest() && sslStatus != Accepted && !broken
      modifies this`script, this`broken, this`last, this`trace, this`interest, this`sslStatus
      ensures Honest() && |script| <= |old(script)| && (old(script) != [] ==> |script| < |old(script)|)
      ensures ret == 0 ==> sslStatus == Accepted && !broken && interest == In
      ensures ret < 0 ==> last == Failed
      ensures ret > 0 ==> sslStatus != Accepted && !broken && (last == WantRead || last == WantWrite)
                          && interest == if last == WantWrite then Out else In
    {
      hide Accounts;
      var a := Ask(Accepting);
      assert sent + "" == sent && received + "" == received;
      match a
      case WantRead =>
        interest, sslStatus := In, AcceptRead;
        ret := 2;
      case WantWrite =>
        interest, sslStatus := Out, AcceptWrite;
        ret := 3;
      case Failed =>
        sslStatus := Init;
        ret := -1;
      case Ready(_) =>
        interest, sslStatus := In, Accepted;
        ret := 0;
    }

    /**
     `_fws_443_run`: one readiness event.  For every answer of the TLS library and every handler, the conversation stays
     a prefix of the complete responses to the dispatched requests, and the context ends up registered and resting, or
     released once.  Unless the last TLS answer was a pause or a failure, a released connection owes nothing.
     */
    method Run(app: Handler, disk: Disk) returns (ret: int)
      requires FilesSmall(disk) && Valid(app, disk) && fdOpen
      modifies this, reqBuf
      ensures Valid(app, disk) && fdOpen == (ret > 0)
      ensures fdOpen ==> (last == WantRead || last == WantWrite) && interest == if last == WantWrite then Out else In
      ensures !fdOpen && last.Ready? ==> Finished(disk)
      ensures old(sent) <= sent && old(replies) <= replies && old(requests) <= requests
      ensures |script| <= |old(script)| && (fdOpen && old(script) != [] ==> |script| < |old(script)|)
    {
      hide Accounts, Flat, HasTerm, Joined;
      if sslStatus != Accepted {
        ret := Handshake();
        if ret > 0 { return; }
        if ret < 0 {
          ret := Release(-1);
          return;
        }
      }
      ret := ServeRequests(app, disk);
    }

    /** What holds at the head of the request loop: the context could rest here, or its session has failed. */
    ghost predicate Going(app: Handler, disk: Disk)
      reads this, reqBuf
    {
      && Shape() && Faithful(app, disk) && Honest() && Heard()
      && fdOpen && interest != Gone && releases == 0 && sslStatus == Accepted
      && KeepsOpen() && if broken then wantWrite == 0 else Resting(disk)
    }

    /** One read on a response boundary, in terms of the conservation of received bytes. */
    method ReadNext(ghost disk: Disk) returns (ret: int, buf: string)
      requires Shape() && Honest() && (broken || Conserved())
      requires broken || (retry == "" && sent == Flat(replies, disk))
      modifies this`script, this`broken, this`last, this`trace, this`interest,
               this`accReadN, this`received, reqBuf
      ensures Shape() && Honest() && old(received) <= received && |script| <= |old(script)|
      ensures old(broken) || broken ==> ret < 0
      ensures ret >= 0 ==> (ret == 0 || ret == 1) && (old(script) != [] ==> |script| < |old(script)|)
      ensures ret == 0 ==> Conserved() && (last == WantRead || last == WantWrite)
      ensures ret == 0 ==> interest == if last == WantWrite then Out else In
      ensures ret == 1 ==> Joined(requests) + buf == received && accReadN == 0 && old(script) != []
      ensures ret < 0 && last.Ready? ==> InputEnded(trace) && !old(broken)
      ensures interest != Gone
    {
      hide Accounts, Flat, HasTerm, Joined, ReadRun, MatchAt;
      ghost var held, was := Pending(), received;
      RunProgress(held, script);
      ret, buf := Read(disk);
      if ret >= 0 { Regroup(Joined(requests), held, received[|was|..]); }
    }

    /** Nothing is owed, and there is a reason to close: a reply that ends the connection, or the end of its input. */
    ghost predicate Finished(disk: Disk)
      reads this
    {
      sent == Flat(replies, disk) && (InputEnded(trace) || (replies != [] && Closes(replies[|replies| - 1])))
    }

    /** First half of the loop: read a request, dispatch it, write its reply up to the body. */
    method NextRequest(app: Handler, disk: Disk) returns (step: Step)
      requires FilesSmall(disk) && Going(app, disk) && wantWrite == 0
      modifies this, reqBuf
      ensures fdOpen && releases == 0 && interest != Gone && sslStatus == Accepted && wantWrite == 0
      ensures Faithful(app, disk) && Honest() && Heard() && ClosesLast() && (!step.Close? ==> KeepsOpen())
      ensures step.Close? ==> step.ret <= 0 && (last.Ready? ==> Finished(disk))
      ensures !step.Close? ==> !broken && Shape() && Conserved()
      ensures step.Pause? ==> Going(app, disk) && (last == WantRead || last == WantWrite)
      ensures step.Pause? ==> interest == if last == WantWrite then Out else In
      ensures step.Again? ==> Going(app, disk)
      ensures step.Body? ==> MidFile(disk) && accReadN == 0
      ensures old(sent) <= sent && old(replies) <= replies && old(requests) <= requests
      ensures |script| <= |old(script)| && (!step.Close? && old(script) != [] ==> |script| < |old(script)|)
      ensures old(script) == [] ==> step.Pause? || step.Close?
    {
      hide Accounts, Flat, HasTerm, Joined, ReadRun, MatchAt, Full, ChunkAt, FilesSmall, Content, Faithful, MidFile;
      var r, buf := ReadNext(disk);
      if r < 0 {
        wantWrite, fileLen := 0, 0;
        return Close(-1);
      }
      if r == 0 { return Pause; }
      JoinedStep(requests, buf);
      EmptyPending();
      step := Respond(app, disk, buf, app(requests, buf));
    }

    /** Second half of the loop: the file, from wherever it stands. */
    method SendBody(app: Handler, disk: Disk) returns (f: int)
      requires Shape() && FilesSmall(disk) && Faithful(app, disk) && Honest() && MidFile(disk)
      modifies this
      ensures Shape() && Faithful(app, disk) && Honest() && old(sent) <= sent && |script| <= |old(script)|
      ensures fdOpen == old(fdOpen) && releases == old(releases) && sslStatus == old(sslStatus)
      ensures accReadN == old(accReadN) && received == old(received)
      ensures requests == old(requests) && replies == old(replies)
      ensures old(interest) != Gone ==> interest != Gone
      ensures f == 1 ==> !broken && wantWrite == 1 && MidFile(disk) && interest == if last == WantWrite then Out else In
      ensures f == 1 ==> last == WantRead || last == WantWrite
      ensures f == 1 && old(script) != [] ==> |script| < |old(script)|
      ensures f != 1 && !broken ==> wantWrite == 0 && fileLen == 0 && retry == "" && sent == Flat(replies, disk)
      ensures f != 1 ==> wantWrite == 0 && (f == 0 ==> broken == old(broken))
    {
      hide Accounts, Flat, Full, ChunkAt, Content, FilesSmall;
      ghost var was, from := sent, fileLen;
      wantWrite := 0;
      ghost var upTo;
      f, upTo := FileWrite(filePath, disk);
      BodySent(replies, disk, was, from, upTo, sent);
      if f == 1 { wantWrite := 1; }
    }

    /** The request loop; a resumed file is finished before anything is read. */
    method ServeRequests(app: Handler, disk: Disk) returns (ret: int)
      requires FilesSmall(disk) && Valid(app, disk) && fdOpen && sslStatus == Accepted
      modifies this, reqBuf
      ensures Valid(app, disk) && fdOpen == (ret > 0)
      ensures fdOpen ==> (last == WantRead || last == WantWrite) && interest == if last == WantWrite then Out else In
      ensures !fdOpen && last.Ready? ==> Finished(disk)
      ensures old(sent) <= sent && old(replies) <= replies && old(requests) <= requests
      ensures |script| <= |old(script)| && (fdOpen && old(script) != [] ==> |script| < |old(script)|)
    {
      hide Accounts, FilesSmall, Flat, HasTerm, Joined, Faithful;
      while true
        invariant Going(app, disk)
        invariant old(sent) <= sent && old(replies) <= replies && old(requests) <= requests
        invariant |script| <= |old(script)|
        decreases |script|, wantWrite
      {
        if wantWrite != 1 {
          var step := NextRequest(app, disk);
          match step {
            case Close(r) =>
              ret := Release(r);
              return;
            case Pause =>
              ret := 1;
              return;
            case Again =>
              continue;
            case Body =>
          }
        }
        var f := SendBody(app, disk);
        if f == 1 {
          ret := 1;
          return;
        }
      }
    }
  }

  /** More of the file has been sent: still a prefix of the conversation, and all of it once the file is through. */
  lemma BodySent(rs: seq<Reply>, disk: Disk, was: string, from: nat, upTo: nat, now: string)
    requires rs != [] && rs[|rs| - 1].Send?
    requires var content := Content(disk, rs[|rs| - 1].path);
             && from <= upTo <= |content|
             && was == Flat(rs[..|rs| - 1], disk) + (rs[|rs| - 1].head + content[..from])
             && now == was + content[from..upTo]
    ensures var content := Content(disk, rs[|rs| - 1].path);
            && now == Flat(rs[..|rs| - 1], disk) + (rs[|rs| - 1].head + content[..upTo])
            && was <= now <= Flat(rs, disk) && (upTo == |content| ==> now == Flat(rs, disk))
  {
    hide Flat, Full, Content;
    var last := rs[|rs| - 1];
    FilePart(Flat(rs[..|rs| - 1], disk), last.head, Content(disk, last.path), from, upTo);
    PartOfBody(last, disk, upTo);
    PartOfFlat(rs, disk, last.head + Content(disk, last.path)[..upTo]);
  }

  /** What has been sent of a header and its file, after some more of the file. */
  lemma FilePart(base: string, head: string, content: string, from: nat, upTo: nat)
    requires from <= upTo <= |content|
    ensures base + (head + content[..from]) + content[from..upTo] == base + (head + content[..upTo])
  {
    assert content[..from] + content[from..upTo] == content[..upTo];
  }

  lemma PartOfBody(r: Reply, disk: Disk, upTo: nat)
    requires r.Send? && upTo <= |Content(disk, r.path)|
    ensures r.head + Content(disk, r.path)[..upTo] <= Full(r, disk)
    ensures upTo == |Content(disk, r.path)| ==> r.head + Content(disk, r.path)[..upTo] == Full(r, disk)
  {
    hide Content;
  }

  /**
   A whole connection: readiness events until the script has nothing left to say or the context is released.  For
   every script, handler and disk the bytes sent are a prefix of the complete responses, in order; a kept connection
   that owes no body sits exactly on a response boundary; and every byte received went into one request buffer.
   */
  method Serve(script: seq<Answer>, app: Handler, disk: Disk) returns (c: DataCtx)
    requires FilesSmall(disk)
    ensures c.Valid(app, disk) && (c.fdOpen ==> c.script == [])
    ensures c.sent <= Flat(c.replies, disk)
    ensures AnswersOf(c.trace) + c.script == script && c.sent == SentBy(c.trace) && c.received == ReceivedBy(c.trace)
    ensures Joined(c.requests) <= c.received
    ensures c.fdOpen && c.wantWrite == 0 ==> c.sent == Flat(c.replies, disk)
    ensures c.fdOpen ==> c.Shape() && Joined(c.requests) + c.Pending() == c.received
    ensures c.fdOpen && c.wantWrite == 1 ==> c.Pending() == ""
    ensures c.releases == if c.fdOpen then 0 else 1
    ensures forall i :: 0 <= i < |c.replies| && Closes(c.replies[i]) ==> !c.fdOpen && i == |c.replies| - 1
    ensures !c.fdOpen && c.last.Ready? ==> c.Finished(disk)
  {
    c := new DataCtx(script);
    assert c.Pending() == "";
    while c.fdOpen && c.script != []
      invariant c.Valid(app, disk) && c.whole == script && fresh(c) && fresh(c.reqBuf)
      invariant !c.fdOpen && c.last.Ready? ==> c.Finished(disk)
      decreases |c.script|, c.fdOpen
    {
      var _ := c.Run(app, disk);
    }
  }
}
