/** The production parser of `15-5http_conn.cpp`, up to the point where a request body would be read. */
module HttpConn {
  import opened HttpText
  import opened HttpLines
  import opened HttpParser

  const READ_BUFFER_SIZE: nat := 2048

  /**
   * What `process_read` comes to: no request yet, a bad request, the call of `do_request` with the path that the
   * stored pointer then shows, or a header that announces a body.
   */
  datatype Outcome = NoRequestYet | Bad | DoRequest(path: string) | AwaitsBody

  /** The members of `http_conn` that parsing uses; `url` and `host` are the positions the stored pointers show. */
  datatype ConnState = ConnState(buf: string, checked: nat, start: nat, state: CheckState,
                       url: nat, contentLength: int, linger: bool, host: nat)

  const CLEAR: ConnState := ConnState("", 0, 0, InRequestLine, 0, 0, false, 0)

  // ----- `atol`, for a 64-bit long that is then stored in a 32-bit int

  predicate IsSpace(c: char) {
    c == ' ' || '\t' <= c <= '\r'
  }

  predicate IsDigit(c: char) {
    '0' <= c <= '9'
  }

  function SkipSpace(t: string, i: nat): (j: nat)
    requires i <= |t|
    ensures i <= j <= |t|
    decreases |t| - i
  {
    if i < |t| && IsSpace(t[i]) then SkipSpace(t, i + 1) else i
  }

  function Digits(t: string, i: nat, acc: nat): (n: nat)
    requires i <= |t|
    decreases |t| - i
  {
    if i < |t| && IsDigit(t[i]) then Digits(t, i + 1, 10 * acc + (t[i] - '0') as nat) else acc
  }

  function Atol(t: string): (n: int) {
    var i := SkipSpace(t, 0);
    var n: int :=
      if i < |t| && t[i] == '-' then -(Digits(t, i + 1, 0) as int)
      else if i < |t| && t[i] == '+' then Digits(t, i + 1, 0)
      else Digits(t, i, 0);
    if n > 0x7fff_ffff_ffff_ffff then 0x7fff_ffff_ffff_ffff
    else if n < -0x8000_0000_0000_0000 then -0x8000_0000_0000_0000
    else n
  }

  function ToInt32(n: int): (r: int) {
    (n + 0x8000_0000) % 0x1_0000_0000 - 0x8000_0000
  }

  // ----- Lines

  /** The content length stored after a header line. */
  function LengthAfter(text: string, length: int): (n: int) {
    if StartsIgnoringCase(text, "Connection:") then length
    else if StartsIgnoringCase(text, "Content-Length:") then ToInt32(Atol(text[SkipBlanks(text, 15)..]))
    else length
  }

  /** Whether the connection is to be kept after a header line. */
  function LingerAfter(text: string, linger: bool): (l: bool) {
    || linger
    || (StartsIgnoringCase(text, "Connection:") && EqualsIgnoringCase(text[SkipBlanks(text, 11)..], "keep-alive"))
  }

  /** What header lines say and the parser goes by. */
  datatype Fields = Fields(length: int, linger: bool)

  const NO_FIELDS := Fields(0, false)

  function FieldsAfter(text: string, f: Fields): (f': Fields) {
    Fields(LengthAfter(text, f.length), LingerAfter(text, f.linger))
  }

  function FieldsOf(c: ConnState): (f: Fields) {
    Fields(c.contentLength, c.linger)
  }

  /** `parse_headers` on a line that is not empty and starts at `at`. */
  function TakeHeader(c: ConnState, text: string, at: nat): (d: ConnState)
    ensures d == c.(contentLength := d.contentLength, linger := d.linger, host := d.host)
    ensures FieldsOf(d) == FieldsAfter(text, FieldsOf(c))
  {
    var d := c.(contentLength := LengthAfter(text, c.contentLength));
    if StartsIgnoringCase(text, "Connection:") then
      if EqualsIgnoringCase(text[SkipBlanks(text, 11)..], "keep-alive") then d.(linger := true) else d
    else if StartsIgnoringCase(text, "Content-Length:") then d
    else if StartsIgnoringCase(text, "Host:") then d.(host := at + SkipBlanks(text, 5))
    else d
  }

  function BehindRequestLine(c: ConnState, cut: string, r: RequestLine, n: nat): (result: (Outcome, ConnState)) {
    var d := c.(buf := cut, checked := n, start := n);
    if r.Good? then (NoRequestYet, d.(state := InHeader, url := c.start + r.pathAt)) else (Bad, d)
  }

  /** The request line, ended at `n` in buffer `b`; `NoRequestYet` lets the loop of `process_read` go on. */
  function TakeRequestLine(c: ConnState, b: string, n: nat): (r: (Outcome, ConnState))
    requires c.start <= n <= |b|
    ensures r.1.start == r.1.checked == n && |r.1.buf| == |b|
  {
    var r := ScanRequestLine(CString(b, c.start));
    BehindRequestLine(c, WriteCuts(b, c.start, r), r, n)
  }

  /** A header line, or the empty line that ends the request. */
  function TakeHeaderLine(c: ConnState, b: string, n: nat): (r: (Outcome, ConnState))
    requires c.start <= n <= |b|
    ensures r.1.start == r.1.checked == n && |r.1.buf| == |b|
  {
    var text := CString(b, c.start);
    var d := c.(buf := b, checked := n, start := n);
    if text != "" then (NoRequestYet, TakeHeader(d, text, c.start))
    else if c.contentLength != 0 then (AwaitsBody, d.(state := InContent))
    else (DoRequest(if c.url <= |b| then CString(b, c.url) else ""), d)
  }

  /** One pass of the loop of `process_read` behind `parse_line`. */
  function TakeConnLine(c: ConnState, b: string, n: nat): (r: (Outcome, ConnState))
    requires c.start <= n <= |b|
    ensures r.1.start == r.1.checked == n && |r.1.buf| == |b|
  {
    match c.state
    case InRequestLine => TakeRequestLine(c, b, n)
    case InHeader => TakeHeaderLine(c, b, n)
    case InContent => (AwaitsBody, c.(buf := b, checked := n, start := n))
  }

  /** `process_read`; a bad line ends it just as an incomplete one does. */
  function ProcessRead(c: ConnState): (r: (Outcome, ConnState))
    requires c.start <= c.checked <= |c.buf|
    ensures r.1.start <= r.1.checked <= |r.1.buf| == |c.buf|
    decreases |c.buf| - c.checked
  {
    var (status, b, n) := ParseLine(c.buf, c.checked);
    if !status.LineOk? then (NoRequestYet, c.(buf := b, checked := n))
    else
      var (outcome, d) := TakeConnLine(c, b, n);
      if outcome.NoRequestYet? then ProcessRead(d) else (outcome, d)
  }

  function ConnArrived(c: ConnState, bytes: string): (c': ConnState) {
    c.(buf := c.buf + bytes)
  }

  /** `process_read` after every batch of bytes that `read` has drained from the socket. */
  function FeedConn(c: ConnState, chunks: seq<string>): (r: (Outcome, ConnState))
    requires c.start <= c.checked <= |c.buf|
    ensures r.1.start <= r.1.checked <= |r.1.buf|
    decreases |chunks|
  {
    if chunks == [] then (NoRequestYet, c)
    else
      var (outcome, d) := ProcessRead(ConnArrived(c, chunks[0]));
      if outcome.NoRequestYet? then FeedConn(d, chunks[1..]) else (outcome, d)
  }

  // ----- Chunking

  /** As for the small parser; and the stored pointer shows a string that ends before the current line. */
  ghost predicate ConnInv(c: ConnState) {
    && Clean(c.buf, c.start, c.checked) && !c.state.InContent?
    && (c.state.InHeader? ==> c.url < c.start && FindChar(c.buf, c.url, NUL) < c.start)
  }

  lemma {:induction false} FindCharSame(b: string, s: string, i: nat, c: char)
    requires i <= |b| <= |s| && FindChar(b, i, c) < |b|
    requires forall k | i <= k <= FindChar(b, i, c) :: s[k] == b[k]
    ensures FindChar(s, i, c) == FindChar(b, i, c)
    decreases |b| - i
  {
    if b[i] != c {
      FindCharSame(b, s, i + 1, c);
    }
  }

  /** The bytes of the path behind the cuts: as they were, without a NUL, and then the second cut. */
  lemma PathBytes(b: string, start: nat, text: string, r: RequestLine)
    requires start <= |b| && text == CString(b, start) && r == ScanRequestLine(text) && r.Good?
    ensures start + |text| <= |b|
    ensures var b' := WriteCuts(b, start, r);
            && (forall k | start + r.pathAt <= k < start + r.afterTarget :: b'[k] == text[k - start] && b'[k] != NUL)
            && b'[start + r.afterTarget] == NUL
  {
    FindCharPasses(b, start, NUL);
  }

  /** The string at the index `p` of a text that starts at `start`, when only its end at `e` is a NUL. */
  lemma StringEndsAt(b: string, start: nat, text: string, p: nat, e: nat)
    requires p <= e <= |text| && start + e < |b| && b[start + e] == NUL
    requires forall k | start + p <= k < start + e :: b[k] == text[k - start] && b[k] != NUL
    ensures FindChar(b, start + p, NUL) == start + e && CString(b, start + p) == text[p..e]
  {
    FindCharIs(b, start + p, NUL, start + e);
    assert b[start + p..start + e] == text[p..e];
  }

  /** Where the path of a good request line is found later: it ends at the second cut. */
  lemma PathStaysVisible(b: string, start: nat, c: nat)
    requires start + 2 <= c <= |b| && b[c - 2] == NUL
    ensures var text := CString(b, start);
            var r := ScanRequestLine(text);
            r.Good? ==>
              var b' := WriteCuts(b, start, r);
              && start + |text| <= c - 2 && FindChar(b', start + r.pathAt, NUL) == start + r.afterTarget
              && CString(b', start + r.pathAt) == text[r.pathAt..r.afterTarget]
  {
    var text := CString(b, start);
    var r := ScanRequestLine(text);
    FindCharStops(b, start, NUL, c - 2);
    if r.Good? {
      PathBytes(b, start, text, r);
      StringEndsAt(WriteCuts(b, start, r), start, text, r.pathAt, r.afterTarget);
    }
  }

  /** The C string shown by a pointer into earlier lines does not change when a line further on is ended. */
  lemma OldStringsStay(b: string, url: nat, start: nat, j: nat)
    requires url < start <= j && j + 1 < |b| && FindChar(b, url, NUL) < start
    ensures var b' := b[j := NUL][j + 1 := NUL];
            FindChar(b', url, NUL) == FindChar(b, url, NUL) && CString(b', url) == CString(b, url)
  {
    var b' := b[j := NUL][j + 1 := NUL];
    FindCharSame(b, b', url, NUL);
    assert b'[url..FindChar(b, url, NUL)] == b[url..FindChar(b, url, NUL)];
  }

  /** What ending a line keeps: a clean rest, the request path where there is one, and all of it with more bytes. */
  lemma EndedConnLine(c: ConnState, b: string, n: nat, more: string)
    requires ConnInv(c) && ParseLine(c.buf, c.checked) == (LineOk, b, n)
    ensures c.start + 2 <= n && Clean(b, n, n) && b[n - 2] == NUL
    ensures c.state.InHeader? ==>
              && FindChar(b, c.url, NUL) < c.start && CString(b, c.url) == CString(c.buf, c.url)
              && FindChar(b + more, c.url, NUL) == FindChar(b, c.url, NUL)
              && CString(b + more, c.url) == CString(b, c.url)
  {
    LineOkIsClean(c.buf, c.start, c.checked);
    ParseLineFindsBreak(c.buf, c.start, c.checked);
    if c.state.InHeader? {
      OldStringsStay(c.buf, c.url, c.start, n - 2);
      FindCharExtends(b, c.url, NUL, more);
    }
  }

  lemma HeaderIgnoresLaterBytes(c: ConnState, text: string, at: nat, more: string)
    ensures TakeHeader(ConnArrived(c, more), text, at) == ConnArrived(TakeHeader(c, text, at), more)
  {
  }

  lemma HeaderLineResumes(c: ConnState, b: string, n: nat, more: string)
    requires ConnInv(c) && c.state.InHeader? && ParseLine(c.buf, c.checked) == (LineOk, b, n)
    ensures var (outcome, d) := TakeHeaderLine(c, b, n);
            && (outcome.NoRequestYet? ==> ConnInv(d))
            && TakeHeaderLine(ConnArrived(c, more), b + more, n) == (outcome, ConnArrived(d, more))
  {
    EndedConnLine(c, b, n, more);
    CutsKeepClean(b, c.start, n, more);
    HeaderIgnoresLaterBytes(c.(buf := b, checked := n, start := n), CString(b, c.start), c.start, more);
  }

  lemma RequestLineKeepsInv(c: ConnState, b: string, n: nat)
    requires c.start + 2 <= n <= |b| && Clean(b, n, n) && b[n - 2] == NUL
    ensures TakeRequestLine(c, b, n).0.NoRequestYet? ==> ConnInv(TakeRequestLine(c, b, n).1)
  {
    assert Clean(WriteCuts(b, c.start, ScanRequestLine(CString(b, c.start))), n, n) by {
      CutsKeepClean(b, c.start, n, "");
    }
    PathStaysVisible(b, c.start, n);
  }

  lemma BehindIgnoresLaterBytes(c: ConnState, cut: string, r: RequestLine, n: nat, more: string)
    ensures var (outcome, d) := BehindRequestLine(c, cut, r, n);
            BehindRequestLine(ConnArrived(c, more), cut + more, r, n) == (outcome, ConnArrived(d, more))
  {
  }

  lemma RequestLineIgnoresLaterBytes(c: ConnState, b: string, n: nat, more: string)
    requires c.start + 2 <= n <= |b| && Clean(b, n, n) && b[n - 2] == NUL
    ensures var (outcome, d) := TakeRequestLine(c, b, n);
            TakeRequestLine(ConnArrived(c, more), b + more, n) == (outcome, ConnArrived(d, more))
  {
    CutsKeepClean(b, c.start, n, more);
    var r := ScanRequestLine(CString(b, c.start));
    BehindIgnoresLaterBytes(c, WriteCuts(b, c.start, r), r, n, more);
  }

  lemma RequestLineResumes(c: ConnState, b: string, n: nat, more: string)
    requires ConnInv(c) && c.state.InRequestLine? && ParseLine(c.buf, c.checked) == (LineOk, b, n)
    ensures var (outcome, d) := TakeRequestLine(c, b, n);
            && (outcome.NoRequestYet? ==> ConnInv(d))
            && TakeRequestLine(ConnArrived(c, more), b + more, n) == (outcome, ConnArrived(d, more))
  {
    EndedConnLine(c, b, n, more);
    RequestLineKeepsInv(c, b, n);
    RequestLineIgnoresLaterBytes(c, b, n, more);
  }

  lemma TakeConnLineResumes(c: ConnState, b: string, n: nat, more: string)
    requires ConnInv(c) && ParseLine(c.buf, c.checked) == (LineOk, b, n)
    ensures var (outcome, d) := TakeConnLine(c, b, n);
            && (outcome.NoRequestYet? ==> ConnInv(d))
            && TakeConnLine(ConnArrived(c, more), b + more, n) == (outcome, ConnArrived(d, more))
  {
    if c.state.InHeader? {
      HeaderLineResumes(c, b, n, more);
    } else {
      RequestLineResumes(c, b, n, more);
    }
  }

  lemma ProcessStep(c: ConnState, b: string, n: nat)
    requires c.start <= c.checked <= |c.buf| && ParseLine(c.buf, c.checked) == (LineOk, b, n)
    ensures ProcessRead(c) ==
              var (outcome, d) := TakeConnLine(c, b, n); if outcome.NoRequestYet? then ProcessRead(d) else (outcome, d)
  {
  }

  lemma {:induction false} ConnInvKept(c: ConnState)
    requires ConnInv(c)
    ensures ProcessRead(c).0.NoRequestYet? ==> ConnInv(ProcessRead(c).1)
    decreases |c.buf| - c.checked
  {
    var (status, b, n) := ParseLine(c.buf, c.checked);
    if status.LineOk? {
      TakeConnLineResumes(c, b, n, "");
      ProcessStep(c, b, n);
      if TakeConnLine(c, b, n).0.NoRequestYet? {
        ConnInvKept(TakeConnLine(c, b, n).1);
      }
    } else {
      ParseLineFindsBreak(c.buf, c.start, c.checked);
      FindBreakPasses(c.buf, c.checked);
    }
  }

  lemma TakeIgnoresChecked(c: ConnState, k: nat, b: string, n: nat)
    requires c.start <= n <= |b|
    ensures TakeConnLine(c.(checked := k), b, n) == TakeConnLine(c, b, n)
  {
  }

  lemma SameFromHere(c: ConnState, k: nat)
    requires c.start <= c.checked <= |c.buf| && c.start <= k <= |c.buf|
    requires ParseLine(c.buf, c.checked) == ParseLine(c.buf, k)
    ensures ProcessRead(c) == ProcessRead(c.(checked := k))
  {
    var (status, b, n) := ParseLine(c.buf, k);
    if status.LineOk? {
      TakeIgnoresChecked(c, k, b, n);
      ProcessStep(c, b, n);
      ProcessStep(c.(checked := k), b, n);
    }
  }

  lemma StoppedUnchanged(c: ConnState)
    requires ConnInv(c) && !ParseLine(c.buf, c.checked).0.LineOk?
    ensures ParseLine(c.buf, c.checked).1 == c.buf
    ensures ProcessRead(c).1 == c.(checked := ParseLine(c.buf, c.checked).2)
  {
    ParseLineFindsBreak(c.buf, c.start, c.checked);
  }

  /** A bad line is still bad when it is looked at again with more bytes behind it. */
  lemma BadLineStays(c: ConnState, more: string)
    requires ConnInv(c) && ParseLine(c.buf, c.checked).0.LineBad?
    ensures var (_, b, n) := ParseLine(c.buf, c.checked);
            b == c.buf && ParseLine(b + more, n) == (LineBad, b + more, n)
  {
    ParseLineFindsBreak(c.buf, c.start, c.checked);
    FindBreakPasses(c.buf, c.checked);
    var j := FindBreak(c.buf, c.checked);
    ParseLineFindsBreak(c.buf + more, c.start, j);
  }

  lemma StoppedResumes(c: ConnState, more: string)
    requires ConnInv(c) && !ParseLine(c.buf, c.checked).0.LineOk?
    ensures ProcessRead(ConnArrived(c, more)) == ProcessRead(ConnArrived(ProcessRead(c).1, more))
  {
    var (status, b, n) := ParseLine(c.buf, c.checked);
    ParseLineResumes(c.buf, c.start, c.checked, more);
    StoppedUnchanged(c);
    if status.LineBad? {
      BadLineStays(c, more);
    }
    SameFromHere(ConnArrived(c, more), n);
  }

  /** Going on with the saved members gives what processing everything at once gives, even behind a bad line. */
  lemma {:induction false} ConnResumes(c: ConnState, more: string)
    requires ConnInv(c)
    ensures var (outcome, d) := ProcessRead(c);
            ProcessRead(ConnArrived(c, more)) ==
              if outcome.NoRequestYet? then ProcessRead(ConnArrived(d, more)) else (outcome, ConnArrived(d, more))
    decreases |c.buf| - c.checked
  {
    var (status, b, n) := ParseLine(c.buf, c.checked);
    if status.LineOk? {
      ParseLineResumes(c.buf, c.start, c.checked, more);
      TakeConnLineResumes(c, b, n, more);
      ProcessStep(c, b, n);
      ProcessStep(ConnArrived(c, more), b + more, n);
      if TakeConnLine(c, b, n).0.NoRequestYet? {
        ConnResumes(TakeConnLine(c, b, n).1, more);
      }
    } else {
      StoppedResumes(c, more);
    }
  }

  ghost predicate ConnWaiting(c: ConnState) {
    ConnInv(c) && ProcessRead(c) == (NoRequestYet, c)
  }

  lemma NoRequestIsWaiting(c: ConnState)
    requires ConnInv(c) && ProcessRead(c).0.NoRequestYet?
    ensures ConnWaiting(ProcessRead(c).1)
  {
    ConnInvKept(c);
    ConnResumes(c, "");
    assert ConnArrived(c, "") == c;
    var d := ProcessRead(c).1;
    assert ConnArrived(d, "") == d;
  }

  lemma ArrivedKeepsInv(c: ConnState, more: string)
    requires ConnInv(c)
    ensures ConnInv(ConnArrived(c, more))
  {
    if c.state.InHeader? {
      FindCharExtends(c.buf, c.url, NUL, more);
    }
  }

  /**
   * However the bytes are split, the outcome is that of processing everything at once. As long as there is none the
   * whole state is the same; with one the states differ only in the bytes not read any more.
   */
  lemma {:induction false} ConnChunkingIsIrrelevant(c: ConnState, chunks: seq<string>)
    requires ConnWaiting(c)
    ensures var (outcome, d) := FeedConn(c, chunks);
            var (outcome', d') := ProcessRead(ConnArrived(c, Concat(chunks)));
            && outcome == outcome' && (outcome.NoRequestYet? ==> d == d')
            && exists rest :: d' == ConnArrived(d, rest)
    decreases |chunks|
  {
    if chunks == [] {
      assert ConnArrived(c, "") == c;
    } else {
      var first, later := ConnArrived(c, chunks[0]), Concat(chunks[1..]);
      assert ConnArrived(first, later) == ConnArrived(c, Concat(chunks)) by {
        assert (c.buf + chunks[0]) + later == c.buf + (chunks[0] + later);
      }
      ArrivedKeepsInv(c, chunks[0]);
      ConnResumes(first, later);
      var (outcome, d) := ProcessRead(first);
      if outcome.NoRequestYet? {
        NoRequestIsWaiting(first);
        ConnChunkingIsIrrelevant(d, chunks[1..]);
      }
    }
  }

  // ----- Agreement with the small parser

  /** Both parsers have come to the same point, and the stored pointer shows the path. */
  ghost predicate Together(p: Parser, c: ConnState) {
    && Inv(p) && ConnInv(c) && p.buf == c.buf && p.checked == c.checked && p.start == c.start && p.state == c.state
    && (c.state.InHeader? ==> CString(c.buf, c.url) == p.path)
  }

  /** Both parsers take a request line alike, and the stored pointer then shows the path. */
  lemma RequestLinesMatch(p: Parser, c: ConnState, b: string, n: nat)
    requires p.start == c.start && p.state.InRequestLine? && c.start + 2 <= n <= |b| && b[n - 2] == NUL
    ensures var (code, q) := TakeLine(p, b, n);
            var (outcome, d) := TakeRequestLine(c, b, n);
            if code.NoRequest? then
              && outcome.NoRequestYet? && q.buf == d.buf && q.state == d.state && d.url <= |d.buf|
              && CString(d.buf, d.url) == q.path
            else code.BadRequest? && outcome.Bad?
  {
    PathStaysVisible(b, c.start, n);
  }

  lemma RequestLinesTogether(p: Parser, c: ConnState, b: string, n: nat)
    requires Together(p, c) && c.state.InRequestLine? && ParseLine(c.buf, c.checked) == (LineOk, b, n)
    ensures var (code, q) := TakeLine(p, b, n);
            var (outcome, d) := TakeRequestLine(c, b, n);
            if code.NoRequest? then outcome.NoRequestYet? && Together(q, d) else code.BadRequest? && outcome.Bad?
  {
    EndedConnLine(c, b, n, "");
    RequestLinesMatch(p, c, b, n);
    assert Inv(TakeLine(p, b, n).1) by {
      TakeLineResumes(p, "");
    }
    RequestLineKeepsInv(c, b, n);
  }

  lemma HeaderLinesTogether(p: Parser, c: ConnState, b: string, n: nat)
    requires Together(p, c) && c.state.InHeader? && ParseLine(c.buf, c.checked) == (LineOk, b, n)
    ensures var (code, q) := TakeLine(p, b, n);
            var (outcome, d) := TakeHeaderLine(c, b, n);
            if code.NoRequest? then outcome.NoRequestYet? && Together(q, d)
            else code.GetRequest? && outcome == if d.contentLength == 0 then DoRequest(q.path) else AwaitsBody
  {
    TakeLineResumes(p, "");
    HeaderLineResumes(c, b, n, "");
    EndedConnLine(c, b, n, "");
  }

  lemma LinesTogether(p: Parser, c: ConnState, b: string, n: nat)
    requires Together(p, c) && ParseLine(c.buf, c.checked) == (LineOk, b, n)
    ensures var (code, q) := TakeLine(p, b, n);
            var (outcome, d) := TakeConnLine(c, b, n);
            match code
            case NoRequest => outcome.NoRequestYet? && Together(q, d)
            case GetRequest => outcome == if d.contentLength == 0 then DoRequest(q.path) else AwaitsBody
            case BadRequest => outcome.Bad?
            case InternalError => false
  {
    if c.state.InHeader? {
      HeaderLinesTogether(p, c, b, n);
    } else {
      RequestLinesTogether(p, c, b, n);
    }
  }

  lemma {:induction false} RunsTogether(p: Parser, c: ConnState)
    requires Together(p, c)
    ensures var (code, q) := ParseContent(p);
            var (outcome, d) := ProcessRead(c);
            if code.GetRequest? then outcome == if d.contentLength == 0 then DoRequest(q.path) else AwaitsBody
            else
              && (outcome.NoRequestYet? || outcome.Bad?)
              && (code.NoRequest? ==> outcome.NoRequestYet?) && (outcome.Bad? ==> code.BadRequest?)
    decreases |p.buf| - p.checked
  {
    var (status, b, n) := ParseLine(c.buf, c.checked);
    if status.LineOk? {
      LinesTogether(p, c, b, n);
      ParseStep(p, b, n);
      ProcessStep(c, b, n);
      if TakeLine(p, b, n).0.NoRequest? {
        RunsTogether(TakeLine(p, b, n).1, TakeConnLine(c, b, n).1);
      }
    }
  }

  /** What the header lines of `s` from index `i` on leave behind. */
  function DeclaredFields(s: string, i: nat, inHeader: bool, f: Fields): (f': Fields)
    requires i <= |s|
    decreases |s| - i
  {
    var j := FindBreak(s, i);
    if OpenAt(s, j) || !LineEndsAt(s, j) then f
    else
      var line := TextOf(s, i, j);
      if !inHeader then
        if PathOf(line).Some? then DeclaredFields(s, j + 2, true, f) else f
      else if line == "" then f
      else DeclaredFields(s, j + 2, true, FieldsAfter(line, f))
  }

  lemma EndedAsSent(c: ConnState, s: string, b: string, n: nat)
    requires ConnInv(c) && Agrees(c.buf, s, c.start) && ParseLine(c.buf, c.checked) == (LineOk, b, n)
    ensures c.start <= n - 2 && n - 2 == FindBreak(s, c.start) && LineEndsAt(s, n - 2) && !OpenAt(s, n - 2)
    ensures Agrees(b, s, n)
  {
    FindBreakSame(c.buf, s, c.start, c.checked);
    ParseLineFindsBreak(c.buf, c.start, c.checked);
  }

  lemma TextAsSent(c: ConnState, s: string, b: string, n: nat)
    requires ConnInv(c) && Agrees(c.buf, s, c.start) && ParseLine(c.buf, c.checked) == (LineOk, b, n)
    requires c.start <= n - 2 < n <= |s|
    ensures CString(b, c.start) == TextOf(s, c.start, n - 2)
  {
    assert b == c.buf[n - 2 := NUL][n - 1 := NUL] by {
      ParseLineFindsBreak(c.buf, c.start, c.checked);
    }
    LineText(c.buf, s, c.start, n - 2);
  }

  lemma CutAsSent(c: ConnState, s: string, b: string, n: nat)
    requires ConnInv(c) && Agrees(b, s, n) && ParseLine(c.buf, c.checked) == (LineOk, b, n)
    ensures c.start <= n && Agrees(WriteCuts(b, c.start, ScanRequestLine(CString(b, c.start))), s, n)
  {
    EndedConnLine(c, b, n, "");
    CutsAgree(b, s, c.start, n);
  }

  lemma TakenConnLine(c: ConnState, s: string, b: string, n: nat)
    requires ConnInv(c) && Agrees(c.buf, s, c.start) && ParseLine(c.buf, c.checked) == (LineOk, b, n)
    requires c.start <= n - 2 <= |s|
    ensures var line := TextOf(s, c.start, n - 2);
            var (outcome, d) := TakeConnLine(c, b, n);
            && Agrees(d.buf, s, n)
            && (outcome.NoRequestYet? <==> if c.state.InHeader? then line != "" else PathOf(line).Some?)
            && (outcome.NoRequestYet? ==> d.state.InHeader?)
            && FieldsOf(d) ==
                 if c.state.InHeader? && line != "" then FieldsAfter(line, FieldsOf(c)) else FieldsOf(c)
  {
    EndedAsSent(c, s, b, n);
    TextAsSent(c, s, b, n);
    CutAsSent(c, s, b, n);
  }

  /** One line of `s`: whether another one follows, and what is known behind it. */
  lemma FieldsStep(s: string, i: nat, n: nat, inHeader: bool, f: Fields, next: bool, f': Fields)
    requires i + 2 <= n <= |s| && n - 2 == FindBreak(s, i) && LineEndsAt(s, n - 2) && !OpenAt(s, n - 2)
    requires var line := TextOf(s, i, n - 2);
             && (next <==> if inHeader then line != "" else PathOf(line).Some?)
             && f' == if inHeader && line != "" then FieldsAfter(line, f) else f
    ensures DeclaredFields(s, i, inHeader, f) == if next then DeclaredFields(s, n, true, f') else f'
  {
  }

  /** One line changes what is stored and what is declared alike. */
  lemma FieldsOfLine(c: ConnState, s: string, b: string, n: nat)
    requires ConnInv(c) && Agrees(c.buf, s, c.start) && ParseLine(c.buf, c.checked) == (LineOk, b, n)
    ensures var (outcome, d) := TakeConnLine(c, b, n);
            && (outcome.NoRequestYet? ==> Agrees(d.buf, s, n) && d.state.InHeader?)
            && n <= |s|
            && DeclaredFields(s, c.start, c.state.InHeader?, FieldsOf(c)) ==
                 if outcome.NoRequestYet? then DeclaredFields(s, n, true, FieldsOf(d)) else FieldsOf(d)
  {
    EndedAsSent(c, s, b, n);
    TakenConnLine(c, s, b, n);
    var (outcome, d) := TakeConnLine(c, b, n);
    FieldsStep(s, c.start, n, c.state.InHeader?, FieldsOf(c), outcome.NoRequestYet?, FieldsOf(d));
  }

  lemma FieldsWhenStopped(c: ConnState, s: string)
    requires ConnInv(c) && Agrees(c.buf, s, c.start) && !ParseLine(c.buf, c.checked).0.LineOk?
    ensures DeclaredFields(s, c.start, c.state.InHeader?, FieldsOf(c)) == FieldsOf(c)
  {
    FindBreakSame(c.buf, s, c.start, c.checked);
    ParseLineFindsBreak(c.buf, c.start, c.checked);
  }

  lemma {:induction false} FieldsAreDeclared(c: ConnState, s: string)
    requires ConnInv(c) && Agrees(c.buf, s, c.start)
    ensures FieldsOf(ProcessRead(c).1) == DeclaredFields(s, c.start, c.state.InHeader?, FieldsOf(c))
    decreases |c.buf| - c.checked
  {
    var (status, b, n) := ParseLine(c.buf, c.checked);
    if status.LineOk? {
      FieldsOfLine(c, s, b, n);
      TakeConnLineResumes(c, b, n, "");
      ProcessStep(c, b, n);
      if TakeConnLine(c, b, n).0.NoRequestYet? {
        FieldsAreDeclared(TakeConnLine(c, b, n).1, s);
      }
    } else {
      FieldsWhenStopped(c, s);
      StoppedUnchanged(c);
    }
  }

  /**
   * Each under any chunking of the same bytes: the production parser calls `do_request` with a path exactly when the
   * small parser answers GET_REQUEST with that path and the header lines leave a content length of 0. A complete
   * request that leaves another length is one whose body is awaited; what happens to it from there on is not modelled.
   * A bad request is bad for the small parser too.
   */
  lemma ParsersAgree(chunks: seq<string>, chunks': seq<string>, path: string)
    requires Concat(chunks) == Concat(chunks')
    ensures var outcome := FeedConn(CLEAR, chunks').0;
            var (code, q) := Feed(INITIAL, chunks);
            var length := DeclaredFields(Concat(chunks), 0, false, NO_FIELDS).length;
            && (outcome == DoRequest(path) <==> code == GetRequest && q.path == path && length == 0)
            && (outcome == AwaitsBody <==> code == GetRequest && length != 0)
            && (code == NoRequest ==> outcome == NoRequestYet) && (outcome == Bad ==> code == BadRequest)
  {
    var s := Concat(chunks);
    var p, c := Arrived(INITIAL, s), ConnArrived(CLEAR, s);
    assert p.buf == s == c.buf;
    InitialIsWaiting();
    ChunkingIsIrrelevant(INITIAL, chunks);
    ConnChunkingIsIrrelevant(CLEAR, chunks');
    RunsTogether(p, c);
    FieldsAreDeclared(c, s);
  }
}
