/** The parser of `8-3httpparser.cpp` on its array buffer, and the receive loop of its `main`. */
module HttpServer {
  import opened HttpText
  import opened HttpLines
  import opened HttpParser
  import opened HttpGrammar
  import opened Sockets

  /** `parse_line` */
  method ScanLine(buffer: array<char>, checked: nat, read: nat) returns (status: LineStatus, checked': nat)
    requires checked <= read <= buffer.Length
    modifies buffer
    ensures (status, buffer[..read], checked') == ParseLine(old(buffer[..read]), checked)
    ensures buffer[read..] == old(buffer[read..])
  {
    ghost var b := buffer[..read];
    checked' := checked;
    while checked' < read
      invariant checked <= checked' <= read && buffer[..] == old(buffer[..])
      invariant ParseLine(b, checked) == ParseLine(b, checked')
    {
      var temp := buffer[checked'];
      if temp == CR {
        if checked' + 1 == read {
          return LineOpen, checked';
        } else if buffer[checked' + 1] == LF {
          buffer[checked'] := NUL;
          buffer[checked' + 1] := NUL;
          assert buffer[..read] == b[checked' := NUL][checked' + 1 := NUL];
          return LineOk, checked' + 2;
        }
        return LineBad, checked';
      } else if temp == LF {
        if checked' > 1 && buffer[checked' - 1] == CR {
          buffer[checked' - 1] := NUL;
          buffer[checked'] := NUL;
          assert buffer[..read] == b[checked' - 1 := NUL][checked' := NUL];
          return LineOk, checked' + 1;
        }
        return LineBad, checked';
      }
      checked' := checked' + 1;
    }
    return LineOpen, checked';
  }

  method PutNul(buffer: array<char>, i: nat, read: nat)
    requires i < read <= buffer.Length
    modifies buffer
    ensures buffer[..read] == old(buffer[..read])[i := NUL] && buffer[read..] == old(buffer[read..])
  {
    buffer[i] := NUL;
  }

  /** What the scan makes of a text with a blank at `url`, step by step. */
  lemma ScanBehindMethod(t: string, url: nat)
    requires url == FindBlank(t, 0) < |t|
    ensures !EqualsIgnoringCase(t[..url], "GET") ==> ScanRequestLine(t) == BadMethod(url)
    ensures EqualsIgnoringCase(t[..url], "GET") ==>
              var target := SkipBlanks(t, url + 1);
              var version := FindBlank(t, target);
              && (version == |t| ==> ScanRequestLine(t) == NoVersion(url))
              && (version < |t| ==>
                    ScanRequestLine(t) == JudgeCut(t, url, target, version, SkipBlanks(t, version + 1)))
  {
  }

  /** The part of `parse_requestline` behind the method, which ends at `url`. */
  method CutTarget(buffer: array<char>, start: nat, read: nat, text: string, url: nat)
    returns (r: RequestLine, path: string)
    requires start + |text| <= read <= buffer.Length
    requires url == FindBlank(text, 0) < |text| && EqualsIgnoringCase(text[..url], "GET")
    modifies buffer
    ensures r == ScanRequestLine(text) && !r.NoTarget? && !r.BadMethod? && r.afterMethod == url
    ensures buffer[..read] ==
              if r.NoVersion? then old(buffer[..read]) else old(buffer[..read])[start + r.afterTarget := NUL]
    ensures buffer[read..] == old(buffer[read..])
    ensures r.Good? ==> path == text[r.pathAt..r.afterTarget]
  {
    ScanBehindMethod(text, url);
    var target := SkipBlanks(text, url + 1);
    var version := FindBlank(text, target);
    if version == |text| {
      return NoVersion(url), "";
    }
    PutNul(buffer, start + version, read);
    r := JudgeCut(text, url, target, version, SkipBlanks(text, version + 1));
    path := if r.Good? then text[r.pathAt..r.afterTarget] else "";
  }

  /** `parse_requestline` on the C string at `start`; the result says where it cut and whether it accepted. */
  method CutRequestLine(buffer: array<char>, start: nat, read: nat) returns (r: RequestLine, path: string)
    requires start <= read <= buffer.Length
    modifies buffer
    ensures var text := CString(old(buffer[..read]), start);
            && r == ScanRequestLine(text)
            && buffer[..read] == WriteCuts(old(buffer[..read]), start, r)
            && (r.Good? ==> path == text[r.pathAt..r.afterTarget])
    ensures buffer[read..] == old(buffer[read..])
  {
    var text := CString(buffer[..read], start);
    var url := FindBlank(text, 0);
    if url == |text| {
      return NoTarget, "";
    }
    PutNul(buffer, start + url, read);
    if !EqualsIgnoringCase(text[..url], "GET") {
      return BadMethod(url), "";
    }
    r, path := CutTarget(buffer, start, read, text, url);
  }

  /** The buffer and the saved indices of one connection: the local variables that `main` passes by reference. */
  class Session {
    const buffer: array<char>
    var read: nat
    var checked: nat
    var start: nat
    var state: CheckState
    var path: string

    ghost predicate Valid()
      reads this
    {
      start <= checked <= read <= buffer.Length
    }

    ghost function Abs(): (p': Parser)
      requires Valid()
      reads this, buffer
    {
      Parser(buffer[..read], checked, start, state, path)
    }

    constructor ()
      ensures Valid() && fresh(buffer) && buffer.Length == BUFFER_SIZE && Abs() == INITIAL
    {
      buffer := new char[BUFFER_SIZE](_ => NUL);
      read, checked, start, state, path := 0, 0, 0, InRequestLine, "";
    }

    /** The part of the loop of `parse_content` behind `parse_line`; `NoRequest` lets the loop go on. */
    method HandleLine() returns (code: Code)
      requires Valid()
      modifies this`start, this`state, this`path, buffer
      ensures Valid() && (code, Abs()) == TakeLine(old(Abs()), old(buffer[..read]), checked)
    {
      var text := start;
      start := checked;
      match state {
        case InRequestLine =>
          var r, found := CutRequestLine(buffer, text, read);
          if !r.Good? {
            return BadRequest;
          }
          state, path := InHeader, found;
          return NoRequest;
        case InHeader =>
          ghost var s := CString(buffer[..read], text);
          if text == read || buffer[text] == NUL {
            return GetRequest;
          }
          return NoRequest;
        case InContent =>
          return InternalError;
      }
    }

    /** `parse_content`: take lines from the buffer while there are any and the request goes on. */
    method ParseInPlace() returns (code: Code)
      requires Valid()
      modifies this`checked, this`start, this`state, this`path, buffer
      ensures Valid() && (code, Abs()) == ParseContent(old(Abs()))
    {
      while true
        invariant Valid() && ParseContent(Abs()) == ParseContent(old(Abs()))
        decreases read - checked
      {
        ghost var p := Abs();
        var status;
        status, checked := ScanLine(buffer, checked, read);
        match status {
          case LineOpen => return NoRequest;
          case LineBad => return BadRequest;
          case LineOk =>
        }
        ParseStep(p, buffer[..read], checked);
        code := HandleLine();
        if !code.NoRequest? {
          return;
        }
      }
    }

    /** What `recv` does: new bytes behind those already read. */
    method Receive(data: string)
      requires Valid() && read + |data| <= buffer.Length
      modifies this`read, buffer
      ensures Valid() && Abs() == Arrived(old(Abs()), data)
    {
      CopyIn(buffer, read, data);
      read := read + |data|;
    }
  }

  datatype Reply = Correct | Wrong | NoReply

  /** Without a verdict on `got` the parser has the state for going on; a verdict is that on all bytes. */
  lemma MoreDecides(p: Parser, got: string, more: string, rest: string)
    requires Waiting(p) && ParseContent(Arrived(INITIAL, got)) == (NoRequest, p)
    ensures var (code, q) := ParseContent(Arrived(p, more));
            && (code, q) == ParseContent(Arrived(INITIAL, got + more))
            && (code.NoRequest? ==> Waiting(q))
            && (!code.NoRequest? ==> Judge((got + more) + rest, 0, false, "").0 == code)
  {
    InitialIsWaiting();
    assert Arrived(Arrived(INITIAL, got), more) == Arrived(INITIAL, got + more);
    assert Arrived(Arrived(INITIAL, got + more), rest) == Arrived(INITIAL, (got + more) + rest);
    Resumes(Arrived(INITIAL, got), more);
    Resumes(Arrived(INITIAL, got + more), rest);
    ParserJudges(Arrived(INITIAL, (got + more) + rest), (got + more) + rest);
    if ParseContent(Arrived(INITIAL, got + more)).0.NoRequest? {
      NoVerdictIsWaiting(Arrived(INITIAL, got + more));
    }
  }

  /** The reply is the good one exactly for a complete request, and the bad one exactly for a bad request. */
  ghost predicate IsReplyTo(reply: Reply, bytes: string) {
    (reply.Correct? <==> exists path :: IsRequest(bytes, path)) && (reply.Wrong? <==> IsBadRequest(bytes))
  }

  lemma VerdictReplies(bytes: string)
    ensures match Judge(bytes, 0, false, "").0
      case NoRequest => IsReplyTo(NoReply, bytes)
      case GetRequest => IsReplyTo(Correct, bytes)
      case BadRequest => IsReplyTo(Wrong, bytes)
      case InternalError => false
  {
    VerdictIff(bytes);
  }

  /**
   * The receive loop of `main`: the reply is that to the bytes as they were sent, as far as they fit the buffer,
   * however they arrive. With a full buffer `recv` returns 0, as it does when the client has closed.
   */
  method Serve(answers: seq<RecvAnswer>) returns (reply: Reply)
    ensures IsReplyTo(reply, Fitting(answers, BUFFER_SIZE))
  {
    var s := new Session();
    ghost var got, rest := "", Offered(answers);
    InitialIsWaiting();
    assert Arrived(INITIAL, "") == INITIAL;
    var k := 0;
    while k < |answers| && answers[k].Bytes? && Min(|answers[k].data|, BUFFER_SIZE - s.read) > 0
      invariant s.Valid() && fresh(s) && fresh(s.buffer) && s.buffer.Length == BUFFER_SIZE && s.read == |got|
      invariant Got(answers, k, BUFFER_SIZE, got, rest)
      invariant Waiting(s.Abs()) && ParseContent(Arrived(INITIAL, got)) == (NoRequest, s.Abs())
    {
      var dataRead := Min(|answers[k].data|, BUFFER_SIZE - s.read);
      var data := answers[k].data[..dataRead];
      rest := GotMore(answers, k, BUFFER_SIZE, got, rest, dataRead);
      ghost var more := FittingIsLonger(answers, k + 1, BUFFER_SIZE, got + data, rest);
      MoreDecides(s.Abs(), got, data, more);
      got := got + data;
      s.Receive(data);
      var code := s.ParseInPlace();
      match code {
        case NoRequest =>
        case GetRequest =>
          VerdictReplies(Fitting(answers, BUFFER_SIZE));
          return Correct;
        case _ =>
          VerdictReplies(Fitting(answers, BUFFER_SIZE));
          return Wrong;
      }
      k := k + 1;
    }
    GotAll(answers, k, BUFFER_SIZE, got, rest);
    assert Arrived(INITIAL, got).buf == got;
    ParserJudges(Arrived(INITIAL, got), got);
    VerdictReplies(got);
    return NoReply;
  }
}
