/** The connection object of `15-5http_conn.cpp`, parsing on its array buffer. */
module HttpConnServer {
  import opened HttpText
  import opened HttpLines
  import opened HttpParser
  import opened HttpConn
  import opened HttpLength
  import opened HttpServer
  import opened Sockets

  /** `read` has drained the socket, and neither filled the buffer nor met an error or the end. */
  predicate ReadsOn(answers: seq<RecvAnswer>, readIdx: nat, size: nat) {
    readIdx + |Offered(answers)| < size && EndOf(answers).Blocked?
  }

  /** A line is taken from the buffer that `parse_line` left, whatever the buffer was before. */
  lemma TakeIgnoresBuffer(c: ConnState, b: string, n: nat)
    requires c.start <= n <= |b|
    ensures TakeConnLine(c.(buf := b), b, n) == TakeConnLine(c, b, n)
  {
  }

  class HttpConnection {
    const readBuf: array<char>
    var readIdx: nat
    var checkedIdx: nat
    var startLine: nat
    var checkState: CheckState
    var url: nat
    var contentLength: int
    var linger: bool
    var host: nat

    ghost predicate Valid()
      reads this
    {
      startLine <= checkedIdx <= readIdx <= readBuf.Length
    }

    ghost function Abs(): (c': ConnState)
      requires Valid()
      reads this, readBuf
    {
      ConnState(readBuf[..readIdx], checkedIdx, startLine, checkState, url, contentLength, linger, host)
    }

    /** `init` */
    constructor ()
      ensures Valid() && fresh(readBuf) && readBuf.Length == READ_BUFFER_SIZE && Abs() == CLEAR
    {
      readBuf := new char[READ_BUFFER_SIZE](_ => NUL);
      readIdx, checkedIdx, startLine, checkState := 0, 0, 0, InRequestLine;
      url, contentLength, linger, host := 0, 0, false, 0;
    }

    /** `parse_request_line` on the line at `text`. */
    method ParseRequestLine(text: nat) returns (ok: bool)
      requires text <= readIdx <= readBuf.Length
      modifies this`checkState, this`url, readBuf
      ensures var b := old(readBuf[..readIdx]);
              var r := ScanRequestLine(CString(b, text));
              && ok == r.Good? && readBuf[..readIdx] == WriteCuts(b, text, r)
              && (ok ==> checkState == InHeader && url == text + r.pathAt)
              && (!ok ==> checkState == old(checkState) && url == old(url))
    {
      var r, _ := CutRequestLine(readBuf, text, readIdx);
      if r.Good? {
        url := text + r.pathAt;
        checkState := InHeader;
      }
      return r.Good?;
    }

    /** `parse_headers` on a line that is not empty. */
    method ParseHeader(text: nat)
      requires Valid() && text <= readIdx
      modifies this`contentLength, this`linger, this`host
      ensures Valid() && Abs() == TakeHeader(old(Abs()), CString(readBuf[..readIdx], text), text)
    {
      var line := CString(readBuf[..readIdx], text);
      if StartsIgnoringCase(line, "Connection:") {
        if EqualsIgnoringCase(line[SkipBlanks(line, 11)..], "keep-alive") {
          linger := true;
        }
      } else if StartsIgnoringCase(line, "Content-Length:") {
        contentLength := ToInt32(Atol(line[SkipBlanks(line, 15)..]));
      } else if StartsIgnoringCase(line, "Host:") {
        host := text + SkipBlanks(line, 5);
      }
    }

    /** The header case of `process_read`, with the start of `do_request`: the path that the pointer shows. */
    method HeaderCase(text: nat) returns (outcome: Outcome)
      requires Valid() && text <= startLine == checkedIdx && url <= readIdx
      modifies this`contentLength, this`linger, this`host, this`checkState
      ensures Valid()
      ensures (outcome, Abs()) == TakeHeaderLine(old(Abs()).(start := text), readBuf[..readIdx], checkedIdx)
    {
      if text < readIdx && readBuf[text] != NUL {
        ParseHeader(text);
        return NoRequestYet;
      }
      if contentLength != 0 {
        checkState := InContent;
        return AwaitsBody;
      }
      return DoRequest(CString(readBuf[..readIdx], url));
    }

    /** The request line case of `process_read`. */
    method RequestLineCase(text: nat) returns (outcome: Outcome)
      requires Valid() && text <= startLine == checkedIdx
      modifies this`checkState, this`url, readBuf
      ensures Valid()
      ensures var c := old(Abs()).(start := text);
              c.state.InRequestLine? ==> (outcome, Abs()) == TakeRequestLine(c, old(readBuf[..readIdx]), checkedIdx)
    {
      ghost var c, b := Abs(), readBuf[..readIdx];
      ghost var r := ScanRequestLine(CString(b, text));
      var ok := ParseRequestLine(text);
      outcome := if ok then NoRequestYet else Bad;
      assert c.state.InRequestLine? ==>
          (outcome, Abs()) == BehindRequestLine(c.(start := text), WriteCuts(b, text, r), r, checkedIdx);
    }

    /** The part of the loop of `process_read` behind `parse_line`. */
    method HandleLine() returns (outcome: Outcome)
      requires Valid() && (checkState.InHeader? ==> url <= readIdx)
      modifies this`startLine, this`checkState, this`url, this`contentLength, this`linger, this`host, readBuf
      ensures Valid() && (outcome, Abs()) == TakeConnLine(old(Abs()), old(readBuf[..readIdx]), checkedIdx)
    {
      var text := startLine;
      startLine := checkedIdx;
      match checkState {
        case InRequestLine =>
          outcome := RequestLineCase(text);
        case InHeader =>
          outcome := HeaderCase(text);
        case InContent =>
          return AwaitsBody;
      }
    }

    /** The line that `parse_line` has just ended, for a connection that was `c` before. */
    method TakeEnded(ghost c: ConnState, ghost b: string) returns (outcome: Outcome)
      requires Valid() && ConnInv(c) && ParseLine(c.buf, c.checked) == (LineOk, b, checkedIdx)
      requires Abs() == c.(buf := b, checked := checkedIdx)
      modifies this`startLine, this`checkState, this`url, this`contentLength, this`linger, this`host, readBuf
      ensures Valid() && readIdx - checkedIdx < |c.buf| - c.checked
      ensures if outcome.NoRequestYet? then ConnInv(Abs()) && ProcessRead(Abs()) == ProcessRead(c)
              else (outcome, Abs()) == ProcessRead(c)
    {
      ProcessStep(c, b, checkedIdx);
      TakeConnLineResumes(c, b, checkedIdx, "");
      TakeIgnoresChecked(c, checkedIdx, b, checkedIdx);
      TakeIgnoresBuffer(c.(checked := checkedIdx), b, checkedIdx);
      outcome := HandleLine();
    }

    /** `process_read` */
    method ProcessReadInPlace() returns (outcome: Outcome)
      requires Valid() && ConnInv(Abs())
      modifies this`checkedIdx, this`startLine, this`checkState, this`url, this`contentLength, this`linger, this`host
      modifies readBuf
      ensures Valid() && (outcome, Abs()) == ProcessRead(old(Abs()))
    {
      while true
        invariant Valid() && ConnInv(Abs()) && ProcessRead(Abs()) == ProcessRead(old(Abs()))
        decreases readIdx - checkedIdx
      {
        ghost var c := Abs();
        var status;
        status, checkedIdx := ScanLine(readBuf, checkedIdx, readIdx);
        if !status.LineOk? {
          return NoRequestYet;
        }
        outcome := TakeEnded(c, readBuf[..readIdx]);
        if !outcome.NoRequestYet? {
          return;
        }
      }
    }

    /** One `recv` that takes what fits of `data`. */
    method Append(data: string) returns (bytesRead: nat)
      requires Valid()
      modifies this`readIdx, readBuf
      ensures Valid() && bytesRead == Min(|data|, readBuf.Length - old(readIdx)) && readIdx == old(readIdx) + bytesRead
      ensures readBuf[..readIdx] == old(readBuf[..readIdx]) + data[..bytesRead]
    {
      bytesRead := Min(|data|, readBuf.Length - readIdx);
      CopyIn(readBuf, readIdx, data[..bytesRead]);
      readIdx := readIdx + bytesRead;
    }

    /** The loop of `read`: drains the socket into the buffer; with a full buffer, `recv` returns 0. */
    method Drain(answers: seq<RecvAnswer>) returns (ok: bool)
      requires Valid()
      modifies this`readIdx, readBuf
      ensures Valid() && Abs() == ConnArrived(old(Abs()), Fitting(answers, readBuf.Length - old(readIdx)))
      ensures ok <==> |Offered(answers)| < readBuf.Length - old(readIdx) && EndOf(answers).Blocked?
    {
      ghost var got, rest, room := "", Offered(answers), readBuf.Length - readIdx;
      var k := 0;
      while k < |answers| && answers[k].Bytes? && Min(|answers[k].data|, readBuf.Length - readIdx) > 0
        invariant Got(answers, k, room, got, rest)
        invariant readIdx == old(readIdx) + |got| && readBuf[..readIdx] == old(readBuf[..readIdx]) + got
      {
        ghost var bytesRead := Append(answers[k].data);
        rest := GotMore(answers, k, room, got, rest, bytesRead);
        got := got + answers[k].data[..bytesRead];
        k := k + 1;
      }
      GotAll(answers, k, room, got, rest);
      return readIdx < readBuf.Length && (k == |answers| || answers[k].RecvAgain?);
    }

    /** `read`; false makes the caller close the connection. */
    method Read(answers: seq<RecvAnswer>) returns (ok: bool)
      requires Valid()
      modifies this`readIdx, readBuf
      ensures Valid() && Abs() == ConnArrived(old(Abs()), Fitting(answers, readBuf.Length - old(readIdx)))
      ensures ok <==> ReadsOn(answers, old(readIdx), readBuf.Length)
    {
      if readIdx >= readBuf.Length {
        assert Abs() == ConnArrived(Abs(), "");
        return false;
      }
      ok := Drain(answers);
    }
  }

  /** The batches that are parsed: those before the first one that closes the connection. */
  function Parsed(batches: seq<seq<RecvAnswer>>, readIdx: nat): (chunks: seq<string>)
    ensures |chunks| <= |batches| && forall k | 0 <= k < |chunks| :: chunks[k] == Offered(batches[k])
  {
    if batches == [] || !ReadsOn(batches[0], readIdx, READ_BUFFER_SIZE) then []
    else [Offered(batches[0])] + Parsed(batches[1..], readIdx + |Offered(batches[0])|)
  }

  /**
   * The chunks are what was on offer in the batches before the first that meets an error or the end, or that fills the
   * buffer.
   */
  ghost predicate AreRead(batches: seq<seq<RecvAnswer>>, chunks: seq<string>, readIdx: nat) {
    && |chunks| <= |batches|
    && (forall k | 0 <= k < |chunks| ::
          && chunks[k] == Offered(batches[k]) && EndOf(batches[k]).Blocked?
          && readIdx + |Concat(chunks[..k + 1])| < READ_BUFFER_SIZE)
    && (|chunks| < |batches| ==>
          var last := batches[|chunks|];
          !EndOf(last).Blocked? || readIdx + |Concat(chunks)| + |Offered(last)| >= READ_BUFFER_SIZE)
  }

  lemma {:induction false} ParsedAreRead(batches: seq<seq<RecvAnswer>>, readIdx: nat)
    ensures AreRead(batches, Parsed(batches, readIdx), readIdx)
  {
    var chunks := Parsed(batches, readIdx);
    if chunks != [] {
      var first := chunks[0];
      ParsedAreRead(batches[1..], readIdx + |first|);
      assert chunks[1..] == Parsed(batches[1..], readIdx + |first|);
      forall k | 0 <= k < |chunks|
        ensures EndOf(batches[k]).Blocked? && readIdx + |Concat(chunks[..k + 1])| < READ_BUFFER_SIZE
      {
        assert chunks[..k + 1][1..] == chunks[1..][..k];
        if k > 0 {
          assert batches[k] == batches[1..][k - 1];
        }
      }
    }
  }

  /** One batch of answers for a waiting connection. */
  method Process(h: HttpConnection, answers: seq<RecvAnswer>) returns (open: bool, outcome: Outcome)
    requires h.Valid() && ConnWaiting(h.Abs())
    modifies h, h.readBuf
    ensures open <==> ReadsOn(answers, old(h.readIdx), h.readBuf.Length)
    ensures h.Valid() && (open ==> h.readIdx == old(h.readIdx) + |Offered(answers)|)
    ensures if open then (outcome, h.Abs()) == ProcessRead(ConnArrived(old(h.Abs()), Offered(answers)))
            else outcome.NoRequestYet?
    ensures open && outcome.NoRequestYet? ==> ConnWaiting(h.Abs())
  {
    ghost var c := h.Abs();
    open := h.Read(answers);
    if !open {
      return false, NoRequestYet;
    }
    assert h.Abs() == ConnArrived(c, Offered(answers));
    ArrivedKeepsInv(c, Offered(answers));
    outcome := h.ProcessReadInPlace();
    if outcome.NoRequestYet? {
      NoRequestIsWaiting(ConnArrived(c, Offered(answers)));
    }
  }

  /** The outcome of the batches that are still to come. */
  ghost function Ahead(c: ConnState, batches: seq<seq<RecvAnswer>>): (outcome: Outcome)
    requires c.start <= c.checked <= |c.buf|
  {
    FeedConn(c, Parsed(batches, |c.buf|)).0
  }

  lemma AheadStep(c: ConnState, batches: seq<seq<RecvAnswer>>, k: nat)
    requires c.start <= c.checked <= |c.buf| && k < |batches|
    ensures var (outcome, d) := ProcessRead(ConnArrived(c, Offered(batches[k])));
            Ahead(c, batches[k..]) ==
              if !ReadsOn(batches[k], |c.buf|, READ_BUFFER_SIZE) then NoRequestYet
              else if outcome.NoRequestYet? then Ahead(d, batches[k + 1..]) else outcome
  {
    assert batches[k..][1..] == batches[k + 1..];
  }

  /** The next batch, when the outcome of all that are still to come is `result`. */
  method ProcessNext(h: HttpConnection, batches: seq<seq<RecvAnswer>>, k: nat, ghost result: Outcome)
    returns (open: bool, outcome: Outcome)
    requires k < |batches| && h.Valid() && h.readBuf.Length == READ_BUFFER_SIZE
    requires ConnWaiting(h.Abs()) && Ahead(h.Abs(), batches[k..]) == result
    modifies h, h.readBuf
    ensures h.Valid()
    ensures if open && outcome.NoRequestYet? then ConnWaiting(h.Abs()) && Ahead(h.Abs(), batches[k + 1..]) == result
            else outcome == result
  {
    AheadStep(h.Abs(), batches, k);
    open, outcome := Process(h, batches[k]);
  }

  /** `read` and `process_read` for every batch that arrives, until an outcome or until the connection is closed. */
  method ServeRequest(batches: seq<seq<RecvAnswer>>) returns (outcome: Outcome)
    ensures outcome == FeedConn(CLEAR, Parsed(batches, 0)).0
    ensures IsOutcomeOf(outcome, Concat(Parsed(batches, 0))) && AreRead(batches, Parsed(batches, 0), 0)
  {
    var h := new HttpConnection();
    outcome := NoRequestYet;
    ghost var result := FeedConn(CLEAR, Parsed(batches, 0)).0;
    var k, open := 0, true;
    while k < |batches| && open && outcome.NoRequestYet?
      invariant 0 <= k <= |batches| && h.Valid() && fresh(h) && fresh(h.readBuf) && h.readBuf.Length == READ_BUFFER_SIZE
      invariant if open && outcome.NoRequestYet? then ConnWaiting(h.Abs()) && Ahead(h.Abs(), batches[k..]) == result
                else outcome == result
    {
      open, outcome := ProcessNext(h, batches, k, result);
      k := k + 1;
    }
    ActsOnRequests(Parsed(batches, 0));
    ParsedAreRead(batches, 0);
  }
}
