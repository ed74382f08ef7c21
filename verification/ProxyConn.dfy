/** The two buffered directions of one proxied connection: class `conn` of springsnail. */
module ProxyConn {
  import opened Sockets

  const BUF_SIZE: nat := 2048

  datatype RetCode = Ok | Nothing | IoErr | Closed | BufferFull | BufferEmpty | TryAgain

  /** What the kernel answers to one `send`: it takes up to `n` bytes. */
  datatype SendAnswer = Taken(n: nat) | SendAgain | SendError

  // ----- What a list of answers amounts to; behind its last one, the socket would block

  function RecvEnding(answers: seq<RecvAnswer>): (code: RetCode)
    ensures code.TryAgain? || code.IoErr? || code.Closed?
  {
    match EndOf(answers)
    case Blocked => TryAgain
    case Broken => IoErr
    case Ended => Closed
  }

  predicate TakesBytes(answers: seq<SendAnswer>) {
    answers != [] && answers[0].Taken? && answers[0].n > 0
  }

  /** How many bytes a socket takes before it would block, fails or is closed. */
  function Demand(answers: seq<SendAnswer>): (n: nat) {
    if TakesBytes(answers) then answers[0].n + Demand(answers[1..]) else 0
  }

  function SendEnding(answers: seq<SendAnswer>): (code: RetCode)
    ensures code.TryAgain? || code.IoErr? || code.Closed?
  {
    if answers == [] || answers[0].SendAgain? then TryAgain
    else if answers[0].SendError? then IoErr
    else if answers[0].n == 0 then Closed
    else SendEnding(answers[1..])
  }

  /** How many bytes these answers take. */
  function TakenBy(answers: seq<SendAnswer>): (n: nat)
    requires forall a | a in answers :: a.Taken?
  {
    if answers == [] then 0 else TakenBy(answers[..|answers| - 1]) + answers[|answers| - 1].n
  }

  /** The first `j` answers take bytes, and the one behind them, if any, does not. */
  predicate SendStopsAt(answers: seq<SendAnswer>, j: nat) {
    && j <= |answers| && (forall i | 0 <= i < j :: answers[i].Taken? && answers[i].n > 0)
    && (j < |answers| ==> !answers[j].Taken? || answers[j].n == 0)
  }

  lemma {:induction false} TakenFromFirst(answers: seq<SendAnswer>)
    requires answers != [] && forall a | a in answers :: a.Taken?
    ensures TakenBy(answers) == answers[0].n + TakenBy(answers[1..])
  {
    var n := |answers| - 1;
    if n == 0 {
      assert answers[..0] == [] == answers[1..];
    } else {
      TakenFromFirst(answers[..n]);
      assert answers[..n][1..] == answers[1..][..n - 1];
    }
  }

  /** A socket takes what the answers before the first that takes nothing do, and this one says what comes then. */
  lemma {:induction false} DemandBeforeStop(answers: seq<SendAnswer>) returns (j: nat)
    ensures SendStopsAt(answers, j) && Demand(answers) == TakenBy(answers[..j])
    ensures SendEnding(answers).TryAgain? <==> j == |answers| || answers[j].SendAgain?
    ensures SendEnding(answers).IoErr? <==> j < |answers| && answers[j].SendError?
  {
    if TakesBytes(answers) {
      j := DemandBeforeStop(answers[1..]);
      j := j + 1;
      assert answers[..j][1..] == answers[1..][..j - 1];
      TakenFromFirst(answers[..j]);
    } else {
      j := 0;
    }
  }

  /** An error or the end comes while less than `n` bytes are taken. */
  ghost predicate SendFails(answers: seq<SendAnswer>, n: nat) {
    exists j: nat :: SendStopsAt(answers, j) && j < |answers| && !answers[j].SendAgain? && TakenBy(answers[..j]) < n
  }

  lemma SendFailsIff(answers: seq<SendAnswer>, n: nat)
    ensures SendFails(answers, n) <==> Demand(answers) < n && !SendEnding(answers).TryAgain?
  {
    var j := DemandBeforeStop(answers);
    assert forall i: nat :: SendStopsAt(answers, i) ==> i == j;
  }

  /** The return code of `read_clt` and `read_srv`. */
  function ReadCode(pending: string, room: nat, answers: seq<RecvAnswer>): (code: RetCode) {
    if |Offered(answers)| >= room then BufferFull
    else if !RecvEnding(answers).TryAgain? then RecvEnding(answers)
    else if pending + Offered(answers) != "" then Ok
    else Nothing
  }

  /** The return code of `write_srv` and `write_clt`. */
  function WriteCode(pending: string, answers: seq<SendAnswer>): (code: RetCode) {
    if Demand(answers) >= |pending| then BufferEmpty else SendEnding(answers)
  }

  // ----- The loops, once for the two directions

  method RecvLoop(buf: array<char>, start: nat, answers: seq<RecvAnswer>) returns (readIdx: nat, why: RetCode)
    requires start <= buf.Length
    modifies buf
    ensures start <= readIdx <= buf.Length
    ensures buf[..readIdx] == old(buf[..start]) + Fitting(answers, buf.Length - start)
    ensures why == if |Offered(answers)| >= buf.Length - start then BufferFull else RecvEnding(answers)
  {
    readIdx := start;
    ghost var got, rest := "", Offered(answers);
    var k := 0;
    while true
      invariant Got(answers, k, buf.Length - start, got, rest)
      invariant readIdx == start + |got| && buf[..readIdx] == old(buf[..start]) + got
      decreases |answers| - k
    {
      if readIdx >= buf.Length {
        why := BufferFull;
        break;
      }
      if k == |answers| || answers[k].RecvAgain? {
        why := TryAgain;
        break;
      }
      if answers[k].RecvError? {
        why := IoErr;
        break;
      }
      if answers[k].data == "" {
        why := Closed;
        break;
      }
      var n := Min(|answers[k].data|, buf.Length - readIdx);
      CopyIn(buf, readIdx, answers[k].data[..n]);
      rest := GotMore(answers, k, buf.Length - start, got, rest, n);
      got := got + answers[k].data[..n];
      readIdx := readIdx + n;
      k := k + 1;
    }
    GotAll(answers, k, buf.Length - start, got, rest);
  }

  method SendLoop(buf: array<char>, start: nat, readIdx: nat, answers: seq<SendAnswer>)
    returns (writeIdx: nat, why: RetCode, sent: string)
    requires start <= readIdx <= buf.Length
    ensures writeIdx == start + Min(Demand(answers), readIdx - start) && sent == buf[start..writeIdx]
    ensures why == WriteCode(buf[start..readIdx], answers)
  {
    writeIdx, sent := start, "";
    ghost var rest := Demand(answers);
    var k := 0;
    while true
      invariant start <= writeIdx <= readIdx && k <= |answers| && sent == buf[start..writeIdx]
      invariant Demand(answers) == writeIdx - start + rest
      invariant writeIdx < readIdx ==> rest == Demand(answers[k..]) && SendEnding(answers) == SendEnding(answers[k..])
      decreases |answers| - k
    {
      if readIdx <= writeIdx {
        return writeIdx, BufferEmpty, sent;
      }
      if k == |answers| || answers[k].SendAgain? {
        return writeIdx, TryAgain, sent;
      }
      if answers[k].SendError? {
        return writeIdx, IoErr, sent;
      }
      if answers[k].n == 0 {
        return writeIdx, Closed, sent;
      }
      var n := Min(answers[k].n, readIdx - writeIdx);
      assert answers[k..][1..] == answers[k + 1..];
      assert buf[start..writeIdx + n] == buf[start..writeIdx] + buf[writeIdx..writeIdx + n];
      sent := sent + buf[writeIdx..writeIdx + n];
      rest := rest - n;
      writeIdx := writeIdx + n;
      k := k + 1;
    }
  }

  // ----- A direction as a bounded byte queue

  /** All bytes received and sent since the last `reset`, and the room left behind the read index. */
  datatype Flow = Flow(received: string, sent: string, room: nat)

  const EMPTY := Flow("", "", BUF_SIZE)

  function Pending(f: Flow): (text: string) {
    if |f.sent| <= |f.received| then f.received[|f.sent|..] else ""
  }

  /** Sent is what was received, in order, up to some point; and a direction with nothing pending has all its room. */
  ghost predicate FlowInv(f: Flow) {
    f.sent <= f.received && f.room + |Pending(f)| <= BUF_SIZE && (Pending(f) == "" ==> f.room == BUF_SIZE)
  }

  function AfterRead(f: Flow, answers: seq<RecvAnswer>): (f': Flow) {
    var n := Min(|Offered(answers)|, f.room);
    Flow(f.received + Offered(answers)[..n], f.sent, f.room - n)
  }

  function AfterWrite(f: Flow, answers: seq<SendAnswer>): (f': Flow) {
    var n := Min(|Pending(f)|, Demand(answers));
    Flow(f.received, f.sent + Pending(f)[..n], if n == |Pending(f)| then BUF_SIZE else f.room)
  }

  lemma ReadKeepsInv(f: Flow, answers: seq<RecvAnswer>)
    requires FlowInv(f)
    ensures FlowInv(AfterRead(f, answers))
  {
    var n := Min(|Offered(answers)|, f.room);
    assert Pending(AfterRead(f, answers)) == Pending(f) + Offered(answers)[..n];
  }

  lemma WriteKeepsInv(f: Flow, answers: seq<SendAnswer>)
    requires FlowInv(f)
    ensures FlowInv(AfterWrite(f, answers))
  {
    assert f.received == f.sent + Pending(f);
  }

  /** What is received, in order, is what the first `j` answers give, as far as there is room. */
  ghost predicate Receives(f: Flow, f': Flow, answers: seq<RecvAnswer>, j: nat) {
    && StopsAt(answers, j)
    && f'.sent == f.sent && f.received <= f'.received <= f.received + Joined(answers[..j])
    && |f'.received| == |f.received| + Min(|Joined(answers[..j])|, f.room)
  }

  /** What is sent, in order, is as many of the bytes received and not yet sent as the first `j` answers take. */
  ghost predicate Sends(f: Flow, f': Flow, answers: seq<SendAnswer>, j: nat) {
    && SendStopsAt(answers, j)
    && f'.received == f.received && f.sent <= f'.sent <= f.received
    && |f'.sent| == Min(|f.received|, |f.sent| + TakenBy(answers[..j]))
  }

  lemma ReadReceives(f: Flow, answers: seq<RecvAnswer>) returns (j: nat)
    requires FlowInv(f)
    ensures Receives(f, AfterRead(f, answers), answers, j)
  {
    j := OfferedBeforeStop(answers);
  }

  lemma WriteSends(f: Flow, answers: seq<SendAnswer>) returns (j: nat)
    requires FlowInv(f)
    ensures Sends(f, AfterWrite(f, answers), answers, j)
  {
    j := DemandBeforeStop(answers);
    WriteKeepsInv(f, answers);
  }

  /** `write_idx` and `read_idx` delimit what is pending, in a buffer that holds it. */
  ghost predicate Buffers(buf: array<char>, writeIdx: nat, readIdx: nat, received: string, sent: string)
    reads buf
  {
    && writeIdx <= readIdx <= buf.Length == BUF_SIZE
    && received == sent + buf[writeIdx..readIdx]
    && (writeIdx == readIdx ==> readIdx == 0)
  }

  /** `read_clt` and `read_srv` are this, each on its own buffer and indices. */
  method ReadInto(buf: array<char>, writeIdx: nat, start: nat, answers: seq<RecvAnswer>, ghost f: Flow)
    returns (readIdx: nat, res: RetCode)
    requires Buffers(buf, writeIdx, start, f.received, f.sent)
    modifies buf
    ensures Buffers(buf, writeIdx, readIdx, AfterRead(f.(room := BUF_SIZE - start), answers).received, f.sent)
    ensures readIdx == start + Min(|Offered(answers)|, BUF_SIZE - start)
    ensures res == ReadCode(old(buf[writeIdx..start]), BUF_SIZE - start, answers)
  {
    ghost var pending := buf[writeIdx..start];
    readIdx, res := RecvLoop(buf, start, answers);
    ghost var data := Offered(answers)[..readIdx - start];
    assert buf[writeIdx..readIdx] == buf[..readIdx][writeIdx..] == pending + data;
    assert f.sent + (pending + data) == f.received + data;
    if res.TryAgain? {
      res := if readIdx - writeIdx > 0 then Ok else Nothing;
    }
  }

  /** `write_srv` and `write_clt` are this, each on its own buffer and indices. */
  method WriteFrom(buf: array<char>, at: nat, end: nat, answers: seq<SendAnswer>, ghost f: Flow)
    returns (writeIdx: nat, readIdx: nat, res: RetCode, sent: string)
    requires Buffers(buf, at, end, f.received, f.sent)
    ensures Buffers(buf, writeIdx, readIdx, f.received, f.sent + sent)
    ensures AfterWrite(f.(room := BUF_SIZE - end), answers) == Flow(f.received, f.sent + sent, BUF_SIZE - readIdx)
    ensures res == WriteCode(buf[at..end], answers) && (res.BufferEmpty? <==> readIdx == 0)
  {
    writeIdx, res, sent := SendLoop(buf, at, end, answers);
    readIdx := end;
    assert buf[at..end] == buf[at..writeIdx] + buf[writeIdx..end];
    assert Pending(f) == buf[at..end];
    if res.BufferEmpty? {
      writeIdx, readIdx := 0, 0;
    }
  }

  ghost predicate AllNul(buf: array<char>)
    reads buf
  {
    forall i | 0 <= i < buf.Length :: buf[i] == '\0'
  }

  method Memset(buf: array<char>)
    modifies buf
    ensures AllNul(buf)
  {
    forall i | 0 <= i < buf.Length {
      buf[i] := '\0';
    }
  }

  class Conn {
    const cltBuf: array<char>
    var cltReadIdx: nat
    var cltWriteIdx: nat
    var cltfd: int

    const srvBuf: array<char>
    var srvReadIdx: nat
    var srvWriteIdx: nat
    var srvfd: int

    var srvClosed: bool

    ghost var fromClt: string
    ghost var toSrv: string
    ghost var fromSrv: string
    ghost var toClt: string

    ghost predicate Valid()
      reads this, cltBuf, srvBuf
    {
      && cltBuf != srvBuf
      && Buffers(cltBuf, cltWriteIdx, cltReadIdx, fromClt, toSrv)
      && Buffers(srvBuf, srvWriteIdx, srvReadIdx, fromSrv, toClt)
    }

    /** From the client to the server. */
    ghost function Up(): (f': Flow)
      requires cltReadIdx <= BUF_SIZE
      reads this
    {
      Flow(fromClt, toSrv, BUF_SIZE - cltReadIdx)
    }

    /** From the server to the client. */
    ghost function Down(): (f': Flow)
      requires srvReadIdx <= BUF_SIZE
      reads this
    {
      Flow(fromSrv, toClt, BUF_SIZE - srvReadIdx)
    }

    /** What is pending is in the buffers, between the two indices. */
    lemma PendingIsBuffered()
      requires Valid()
      ensures FlowInv(Up()) && Pending(Up()) == cltBuf[cltWriteIdx..cltReadIdx]
      ensures FlowInv(Down()) && Pending(Down()) == srvBuf[srvWriteIdx..srvReadIdx]
    {
    }

    /** The constructor of the source ends with `reset()`. */
    constructor ()
      ensures Valid() && Up() == EMPTY && Down() == EMPTY && cltfd == srvfd == -1 && !srvClosed
      ensures fresh(cltBuf) && fresh(srvBuf) && AllNul(cltBuf) && AllNul(srvBuf)
    {
      srvfd := -1;
      cltBuf := new char[BUF_SIZE];
      srvBuf := new char[BUF_SIZE];
      cltReadIdx, cltWriteIdx, srvReadIdx, srvWriteIdx := 0, 0, 0, 0;
      srvClosed := false;
      cltfd := -1;
      fromClt, toSrv, fromSrv, toClt := "", "", "", "";
      new;
      Memset(cltBuf);
      Memset(srvBuf);
    }

    method InitClt(sockfd: int)
      modifies this`cltfd
      ensures cltfd == sockfd
    {
      cltfd := sockfd;
    }

    method InitSrv(sockfd: int)
      modifies this`srvfd
      ensures srvfd == sockfd
    {
      srvfd := sockfd;
    }

    /** The two `memset`s of `reset`. */
    method ClearBuffers()
      requires cltBuf != srvBuf
      modifies cltBuf, srvBuf
      ensures AllNul(cltBuf) && AllNul(srvBuf)
    {
      Memset(cltBuf);
      Memset(srvBuf);
    }

    method Reset()
      requires Valid()
      modifies this, cltBuf, srvBuf
      ensures Valid() && Up() == EMPTY && Down() == EMPTY && cltfd == -1 && !srvClosed && srvfd == old(srvfd)
      ensures AllNul(cltBuf) && AllNul(srvBuf)
    {
      cltReadIdx, cltWriteIdx, srvReadIdx, srvWriteIdx := 0, 0, 0, 0;
      srvClosed := false;
      cltfd := -1;
      fromClt, toSrv, fromSrv, toClt := "", "", "", "";
      ClearBuffers();
    }

    method ReadClt(answers: seq<RecvAnswer>) returns (res: RetCode)
      requires Valid()
      modifies this`cltReadIdx, this`fromClt, cltBuf
      ensures Valid() && Up() == AfterRead(old(Up()), answers) && Down() == old(Down())
      ensures res == ReadCode(old(Pending(Up())), old(Up()).room, answers)
      ensures (res.Ok? || res.BufferFull? ==> Pending(Up()) != "") && (res.Nothing? ==> Pending(Up()) == "")
    {
      PendingIsBuffered();
      ghost var f := Up();
      cltReadIdx, res := ReadInto(cltBuf, cltWriteIdx, cltReadIdx, answers, f);
      fromClt := AfterRead(f, answers).received;
    }

    method ReadSrv(answers: seq<RecvAnswer>) returns (res: RetCode)
      requires Valid()
      modifies this`srvReadIdx, this`fromSrv, srvBuf
      ensures Valid() && Down() == AfterRead(old(Down()), answers) && Up() == old(Up())
      ensures res == ReadCode(old(Pending(Down())), old(Down()).room, answers)
      ensures (res.Ok? || res.BufferFull? ==> Pending(Down()) != "") && (res.Nothing? ==> Pending(Down()) == "")
    {
      PendingIsBuffered();
      ghost var f := Down();
      srvReadIdx, res := ReadInto(srvBuf, srvWriteIdx, srvReadIdx, answers, f);
      fromSrv := AfterRead(f, answers).received;
    }

    method WriteSrv(answers: seq<SendAnswer>) returns (res: RetCode, sent: string)
      requires Valid()
      modifies this`cltReadIdx, this`cltWriteIdx, this`toSrv
      ensures Valid() && Up() == AfterWrite(old(Up()), answers) && Down() == old(Down())
      ensures toSrv == old(toSrv) + sent && res == WriteCode(old(Pending(Up())), answers)
      ensures res.BufferEmpty? <==> Up().room == BUF_SIZE && Pending(Up()) == ""
    {
      PendingIsBuffered();
      cltWriteIdx, cltReadIdx, res, sent := WriteFrom(cltBuf, cltWriteIdx, cltReadIdx, answers, Up());
      toSrv := toSrv + sent;
    }

    method WriteClt(answers: seq<SendAnswer>) returns (res: RetCode, sent: string)
      requires Valid()
      modifies this`srvReadIdx, this`srvWriteIdx, this`toClt
      ensures Valid() && Down() == AfterWrite(old(Down()), answers) && Up() == old(Up())
      ensures toClt == old(toClt) + sent && res == WriteCode(old(Pending(Down())), answers)
      ensures res.BufferEmpty? <==> Down().room == BUF_SIZE && Pending(Down()) == ""
    {
      PendingIsBuffered();
      srvWriteIdx, srvReadIdx, res, sent := WriteFrom(srvBuf, srvWriteIdx, srvReadIdx, answers, Down());
      toClt := toClt + sent;
    }
  }

  // ----- Any interleaving of the four calls between two resets

  datatype Op =
    | FromClt(recvs: seq<RecvAnswer>) | ToSrv(sends: seq<SendAnswer>)
    | FromSrv(recvs: seq<RecvAnswer>) | ToClt(sends: seq<SendAnswer>)

  predicate IsUp(op: Op) {
    op.FromClt? || op.ToSrv?
  }

  /** One direction, and only its own calls. */
  ghost function FlowAfter(ops: seq<Op>, up: bool): (f: Flow)
    ensures FlowInv(f)
  {
    if ops == [] then EMPTY
    else
      var f := FlowAfter(ops[..|ops| - 1], up);
      var op := ops[|ops| - 1];
      if IsUp(op) != up then f
      else if op.FromClt? || op.FromSrv? then
        ReadKeepsInv(f, op.recvs);
        AfterRead(f, op.recvs)
      else
        WriteKeepsInv(f, op.sends);
        AfterWrite(f, op.sends)
  }

  lemma FlowStep(ops: seq<Op>, k: nat, up: bool)
    requires k < |ops|
    ensures var f := FlowAfter(ops[..k], up);
            FlowAfter(ops[..k + 1], up) ==
            if IsUp(ops[k]) != up then f
            else if ops[k].FromClt? || ops[k].FromSrv? then AfterRead(f, ops[k].recvs)
            else AfterWrite(f, ops[k].sends)
  {
    assert ops[..k + 1][..k] == ops[..k];
  }

  /** The bytes that the calls of one direction were offered, in order, whether or not there was room. */
  function OfferedTo(ops: seq<Op>, up: bool): (text: string) {
    if ops == [] then ""
    else
      var op := ops[|ops| - 1];
      OfferedTo(ops[..|ops| - 1], up) + if IsUp(op) == up && (op.FromClt? || op.FromSrv?) then Offered(op.recvs) else ""
  }

  /** With room for everything, what one side was sent is what the other side has given, up to what is buffered. */
  lemma {:induction false} NothingIsLost(ops: seq<Op>, up: bool)
    requires |OfferedTo(ops, up)| <= BUF_SIZE
    ensures FlowAfter(ops, up).received == OfferedTo(ops, up)
    ensures |OfferedTo(ops, up)| + FlowAfter(ops, up).room >= BUF_SIZE
  {
    if ops != [] {
      NothingIsLost(ops[..|ops| - 1], up);
      var op := ops[|ops| - 1];
      if IsUp(op) == up && (op.FromClt? || op.FromSrv?) {
        assert Offered(op.recvs)[..|Offered(op.recvs)|] == Offered(op.recvs);
      }
    }
  }

  method Perform(c: Conn, op: Op) returns (sent: string)
    requires c.Valid()
    modifies c, c.cltBuf, c.srvBuf
    ensures c.Valid()
    ensures match op
      case FromClt(r) => c.Up() == AfterRead(old(c.Up()), r) && c.Down() == old(c.Down())
      case ToSrv(w) => c.Up() == AfterWrite(old(c.Up()), w) && c.Down() == old(c.Down())
      case FromSrv(r) => c.Down() == AfterRead(old(c.Down()), r) && c.Up() == old(c.Up())
      case ToClt(w) => c.Down() == AfterWrite(old(c.Down()), w) && c.Up() == old(c.Up())
    ensures c.toSrv == old(c.toSrv) + if op.ToSrv? then sent else ""
    ensures c.toClt == old(c.toClt) + if op.ToClt? then sent else ""
  {
    var res;
    sent := "";
    match op
    case FromClt(r) => res := c.ReadClt(r);
    case ToSrv(w) => res, sent := c.WriteSrv(w);
    case FromSrv(r) => res := c.ReadSrv(r);
    case ToClt(w) => res, sent := c.WriteClt(w);
  }

  /** Over every interleaving, each side is sent exactly what a byte queue of its own direction lets through. */
  method Relay(ops: seq<Op>) returns (toSrv: string, toClt: string)
    ensures toSrv == FlowAfter(ops, true).sent && toClt == FlowAfter(ops, false).sent
  {
    var c := new Conn();
    toSrv, toClt := "", "";
    for k := 0 to |ops|
      invariant fresh(c) && fresh(c.cltBuf) && fresh(c.srvBuf) && c.Valid()
      invariant c.Up() == FlowAfter(ops[..k], true) && c.Down() == FlowAfter(ops[..k], false)
      invariant toSrv == c.toSrv && toClt == c.toClt
    {
      FlowStep(ops, k, true);
      FlowStep(ops, k, false);
      var sent := Perform(c, ops[k]);
      if ops[k].ToSrv? {
        toSrv := toSrv + sent;
      } else if ops[k].ToClt? {
        toClt := toClt + sent;
      }
    }
    assert ops[..|ops|] == ops;
  }
}
