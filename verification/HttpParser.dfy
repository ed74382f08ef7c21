/** The resumable request parser of `8-3httpparser.cpp`, which parses in place what has arrived so far. */
module HttpParser {
  import opened HttpText
  import opened HttpLines

  const BUFFER_SIZE: nat := 4096

  datatype CheckState = InRequestLine | InHeader | InContent

  datatype Code = NoRequest | GetRequest | BadRequest | InternalError

  /** The bytes read so far, with the NULs written into them, the saved indices and state, and the path once found. */
  datatype Parser = Parser(buf: string, checked: nat, start: nat, state: CheckState, path: string)

  const INITIAL: Parser := Parser("", 0, 0, InRequestLine, "")

  /**
   * One pass of the loop of `parse_content`, when `parse_line` ended a line at `c` and left the buffer `b`.
   * `NoRequest` means that the loop goes on.
   */
  function TakeLine(p: Parser, b: string, c: nat): (r: (Code, Parser))
    requires p.start <= c <= |b|
    ensures r.1.start == r.1.checked == c && |r.1.buf| == |b|
  {
    var text := CString(b, p.start);
    var q := p.(buf := b, checked := c, start := c);
    match p.state
    case InRequestLine =>
      var r := ScanRequestLine(text);
      var cut := q.(buf := WriteCuts(b, p.start, r));
      if r.Good? then (NoRequest, cut.(state := InHeader, path := text[r.pathAt..r.afterTarget]))
      else (BadRequest, cut)
    case InHeader => (if text == "" then GetRequest else NoRequest, q)
    case InContent => (InternalError, q)
  }

  /** `parse_content` on what has been read so far. */
  function ParseContent(p: Parser): (r: (Code, Parser))
    requires p.start <= p.checked <= |p.buf|
    ensures r.1.start <= r.1.checked <= |r.1.buf| == |p.buf|
    decreases |p.buf| - p.checked
  {
    var (status, b, c) := ParseLine(p.buf, p.checked);
    match status
    case LineOpen => (NoRequest, p.(buf := b, checked := c))
    case LineBad => (BadRequest, p.(buf := b, checked := c))
    case LineOk =>
      var (code, q) := TakeLine(p, b, c);
      if code.NoRequest? then ParseContent(q) else (code, q)
  }

  function Arrived(p: Parser, bytes: string): (p': Parser) {
    p.(buf := p.buf + bytes)
  }

  /** The receive loop of `main`: parse after every chunk, until there is a verdict. */
  function Feed(p: Parser, chunks: seq<string>): (r: (Code, Parser))
    requires p.start <= p.checked <= |p.buf|
    ensures r.1.start <= r.1.checked <= |r.1.buf|
    decreases |chunks|
  {
    if chunks == [] then (NoRequest, p)
    else
      var (code, q) := ParseContent(Arrived(p, chunks[0]));
      if code.NoRequest? then Feed(q, chunks[1..]) else (code, q)
  }

  function Concat(chunks: seq<string>): (text: string) {
    if chunks == [] then "" else chunks[0] + Concat(chunks[1..])
  }

  // ----- Parsing does not depend on how the bytes arrive

  /** What holds between calls: the current line is clean, and no content is expected. */
  ghost predicate Inv(p: Parser) {
    Clean(p.buf, p.start, p.checked) && !p.state.InContent?
  }

  lemma {:induction false} FindCharStops(s: string, i: nat, c: char, j: nat)
    requires i <= j < |s| && s[j] == c
    ensures FindChar(s, i, c) <= j
    decreases j - i
  {
    if s[i] != c {
      FindCharStops(s, i + 1, c, j);
    }
  }

  /** The cuts of a request line stay within that line, and do not depend on the bytes behind it. */
  lemma CutsKeepClean(b: string, start: nat, c: nat, more: string)
    requires start + 2 <= c <= |b| && Clean(b, c, c) && b[c - 2] == NUL
    ensures CString(b + more, start) == CString(b, start)
    ensures start + |CString(b, start)| <= c - 2
    ensures var r := ScanRequestLine(CString(b, start));
            && Clean(WriteCuts(b, start, r), c, c)
            && WriteCuts(b + more, start, r) == WriteCuts(b, start, r) + more
  {
    FindCharStops(b, start, NUL, c - 2);
    FindCharExtends(b, start, NUL, more);
    var r := ScanRequestLine(CString(b, start));
    assert WriteCuts(b + more, start, r) == WriteCuts(b, start, r) + more;
  }

  /** A line leaves a clean buffer, and bytes behind it play no part. */
  lemma TakeLineResumes(p: Parser, more: string)
    requires Inv(p) && ParseLine(p.buf, p.checked).0.LineOk?
    ensures var (_, b, c) := ParseLine(p.buf, p.checked);
            var (code, q) := TakeLine(p, b, c);
            && Inv(q) && !code.InternalError?
            && TakeLine(Arrived(p, more), b + more, c) == (code, Arrived(q, more))
  {
    var (_, b, c) := ParseLine(p.buf, p.checked);
    LineOkIsClean(p.buf, p.start, p.checked);
    CutsKeepClean(b, p.start, c, more);
  }

  lemma {:induction false} InvKept(p: Parser)
    requires Inv(p)
    ensures var (code, q) := ParseContent(p);
            && (code.NoRequest? ==> Inv(q))
            && !code.InternalError?
    decreases |p.buf| - p.checked
  {
    var (status, b, c) := ParseLine(p.buf, p.checked);
    if status.LineOk? {
      TakeLineResumes(p, "");
      InvKept(TakeLine(p, b, c).1);
    } else {
      ParseLineFindsBreak(p.buf, p.start, p.checked);
      FindBreakPasses(p.buf, p.checked);
    }
  }

  /**
   * Bytes that arrive after a verdict do not change it; without a verdict, going on with the saved state gives what
   * parsing everything at once gives.
   */
  lemma {:induction false} Resumes(p: Parser, more: string)
    requires Inv(p)
    ensures var (code, q) := ParseContent(p);
            ParseContent(Arrived(p, more)) ==
              if code.NoRequest? then ParseContent(Arrived(q, more)) else (code, Arrived(q, more))
    decreases |p.buf| - p.checked
  {
    var (status, b, c) := ParseLine(p.buf, p.checked);
    ParseLineResumes(p.buf, p.start, p.checked, more);
    if status.LineOk? {
      TakeLineResumes(p, more);
      Resumes(TakeLine(p, b, c).1, more);
    }
  }

  /** Nothing more can be parsed before new bytes arrive. */
  ghost predicate Waiting(p: Parser) {
    Inv(p) && ParseContent(p) == (NoRequest, p)
  }

  lemma ArrivedNothing(p: Parser)
    ensures Arrived(p, "") == p
  {
  }

  lemma NoVerdictIsWaiting(p: Parser)
    requires Inv(p) && ParseContent(p).0.NoRequest?
    ensures Waiting(ParseContent(p).1)
  {
    InvKept(p);
    Resumes(p, "");
    ArrivedNothing(p);
    ArrivedNothing(ParseContent(p).1);
  }

  lemma InitialIsWaiting()
    ensures Waiting(INITIAL)
  {
  }

  /**
   * However the bytes are split, feeding the chunks gives the verdict of parsing everything at once. Without a
   * verdict the whole state is the same; with one the states differ only in the bytes not fed any more.
   */
  lemma {:induction false} ChunkingIsIrrelevant(p: Parser, chunks: seq<string>)
    requires Waiting(p)
    ensures var (code, q) := Feed(p, chunks);
            var (code', q') := ParseContent(Arrived(p, Concat(chunks)));
            && code == code' && (code.NoRequest? ==> q == q' && Waiting(q))
            && exists rest :: q' == Arrived(q, rest)
    decreases |chunks|
  {
    if chunks == [] {
      assert Arrived(p, "") == p;
    } else {
      var first, later := Arrived(p, chunks[0]), Concat(chunks[1..]);
      assert Arrived(first, later) == Arrived(p, Concat(chunks)) by {
        assert (p.buf + chunks[0]) + later == p.buf + (chunks[0] + later);
      }
      Resumes(first, later);
      var (code, q) := ParseContent(first);
      if code.NoRequest? {
        NoVerdictIsWaiting(first);
        ChunkingIsIrrelevant(q, chunks[1..]);
      }
    }
  }

  /** Two ways of splitting the same bytes cannot be told apart. */
  lemma SplitsAgree(chunks: seq<string>, chunks': seq<string>)
    requires Concat(chunks) == Concat(chunks')
    ensures Feed(INITIAL, chunks).0 == Feed(INITIAL, chunks').0
    ensures Feed(INITIAL, chunks).1.path == Feed(INITIAL, chunks').1.path
    ensures Feed(INITIAL, chunks).0.NoRequest? ==> Feed(INITIAL, chunks).1 == Feed(INITIAL, chunks').1
  {
    InitialIsWaiting();
    ChunkingIsIrrelevant(INITIAL, chunks);
    ChunkingIsIrrelevant(INITIAL, chunks');
  }

  /** A verdict reached on some bytes is final, whatever follows them and however it is split. */
  lemma VerdictIsFinal(bytes: string, chunks: seq<string>, more: string)
    requires Concat(chunks) == bytes + more
    requires !ParseContent(Arrived(INITIAL, bytes)).0.NoRequest?
    ensures Feed(INITIAL, chunks).0 == ParseContent(Arrived(INITIAL, bytes)).0
    ensures Feed(INITIAL, chunks).1.path == ParseContent(Arrived(INITIAL, bytes)).1.path
  {
    InitialIsWaiting();
    ChunkingIsIrrelevant(INITIAL, chunks);
    Resumes(Arrived(INITIAL, bytes), more);
    assert Arrived(Arrived(INITIAL, bytes), more) == Arrived(INITIAL, bytes + more);
  }

  // ----- The verdict, without indices, buffer writes or chunks

  /** The line between two indices, up to a NUL. */
  function TextOf(s: string, i: nat, j: nat): (text: string)
    requires i <= j <= |s|
  {
    var n := FindChar(s, i, NUL);
    s[i..if n < j then n else j]
  }

  /** The verdict on one line, and the path known after it; `NoRequest` means that the next line decides. */
  function JudgeLine(line: string, inHeader: bool, path: string): (verdict: (Code, string)) {
    if inHeader then (if line == "" then GetRequest else NoRequest, path)
    else
      match PathOf(line)
      case None => (BadRequest, path)
      case Some(found) => (NoRequest, found)
  }

  /** The verdict on the lines of `s` from index `i` on; `path` is that of the request line once it was passed. */
  function Judge(s: string, i: nat, inHeader: bool, path: string): (verdict: (Code, string))
    requires i <= |s|
    decreases |s| - i
  {
    var j := FindBreak(s, i);
    if OpenAt(s, j) then (NoRequest, path)
    else if !LineEndsAt(s, j) then (BadRequest, path)
    else
      var (code, path') := JudgeLine(TextOf(s, i, j), inHeader, path);
      if code.NoRequest? then Judge(s, j + 2, true, path') else (code, path')
  }

  /** From index `i` on the buffer still is what was sent. */
  ghost predicate Agrees(b: string, s: string, i: nat) {
    |b| == |s| && forall k | i <= k < |s| :: b[k] == s[k]
  }

  lemma {:induction false} FindBreakSame(b: string, s: string, i: nat, c: nat)
    requires Agrees(b, s, i) && i <= c <= |b|
    requires forall k | i <= k < c :: b[k] != CR && b[k] != LF
    ensures FindBreak(s, i) == FindBreak(b, c)
    decreases |b| - i
  {
    if i < c {
      FindBreakSame(b, s, i + 1, c);
    } else if i < |b| && b[i] != CR && b[i] != LF {
      FindBreakSame(b, s, i + 1, i + 1);
    }
  }

  /** The text of a line in the buffer is the line of the input, up to a NUL. */
  lemma LineText(b: string, s: string, i: nat, j: nat)
    requires Agrees(b, s, i) && i <= j && j + 1 < |s|
    ensures CString(b[j := NUL][j + 1 := NUL], i) == TextOf(s, i, j)
  {
    var n := FindChar(s, i, NUL);
    FindCharPasses(s, i, NUL);
    var e := if n < j then n else j;
    var b' := b[j := NUL][j + 1 := NUL];
    FindCharIs(b', i, NUL, e);
    assert b'[i..e] == s[i..e];
  }

  /** The line that `parse_line` ended, and the buffer it left. */
  lemma EndedLine(p: Parser, s: string, b: string, c: nat)
    requires Inv(p) && Agrees(p.buf, s, p.start) && ParseLine(p.buf, p.checked) == (LineOk, b, c)
    ensures p.start <= c - 2 && CString(b, p.start) == TextOf(s, p.start, c - 2)
    ensures Clean(b, c, c) && b[c - 2] == NUL && Agrees(b, s, c)
  {
    ParseLineFindsBreak(p.buf, p.start, p.checked);
    LineText(p.buf, s, p.start, c - 2);
  }

  lemma CutsAgree(b: string, s: string, start: nat, c: nat)
    requires start + 2 <= c <= |b| && Clean(b, c, c) && b[c - 2] == NUL && Agrees(b, s, c)
    ensures var b' := WriteCuts(b, start, ScanRequestLine(CString(b, start))); Clean(b', c, c) && Agrees(b', s, c)
  {
    CutsKeepClean(b, start, c, "");
  }

  /** A line taken from the buffer is judged as the next line of what was sent; the bytes behind it are untouched. */
  lemma TakenLine(p: Parser, s: string, b: string, c: nat)
    requires Inv(p) && Agrees(p.buf, s, p.start) && ParseLine(p.buf, p.checked) == (LineOk, b, c)
    ensures p.start <= c - 2
    ensures var (code, q) := TakeLine(p, b, c);
            && (code, q.path) == JudgeLine(TextOf(s, p.start, c - 2), p.state.InHeader?, p.path)
            && Inv(q) && Agrees(q.buf, s, c) && (code.NoRequest? ==> q.state.InHeader?)
  {
    EndedLine(p, s, b, c);
    CutsAgree(b, s, p.start, c);
  }

  /** Where the next line ends, and with which status, can be read off what was sent. */
  lemma ParsedStatus(p: Parser, s: string)
    requires Inv(p) && Agrees(p.buf, s, p.start)
    ensures var j := FindBreak(s, p.start);
            var (status, b, c) := ParseLine(p.buf, p.checked);
            if OpenAt(s, j) then status.LineOpen?
            else if LineEndsAt(s, j) then status.LineOk? && c == j + 2
            else status.LineBad?
  {
    FindBreakSame(p.buf, s, p.start, p.checked);
    ParseLineFindsBreak(p.buf, p.start, p.checked);
  }

  lemma JudgeStep(s: string, i: nat, j: nat, inHeader: bool, path: string)
    requires i <= j <= |s| && j == FindBreak(s, i) && LineEndsAt(s, j)
    ensures Judge(s, i, inHeader, path) ==
              var (code, path') := JudgeLine(TextOf(s, i, j), inHeader, path);
              if code.NoRequest? then Judge(s, j + 2, true, path') else (code, path')
  {
  }

  lemma ParseStep(p: Parser, b: string, c: nat)
    requires p.start <= p.checked <= |p.buf| && ParseLine(p.buf, p.checked) == (LineOk, b, c)
    ensures ParseContent(p) ==
              var (code, q) := TakeLine(p, b, c);
              if code.NoRequest? then ParseContent(q) else (code, q)
  {
  }

  /** Without another complete line, the parser and the verdict stop in the same way. */
  lemma StopsTogether(p: Parser, s: string)
    requires Inv(p) && Agrees(p.buf, s, p.start) && !ParseLine(p.buf, p.checked).0.LineOk?
    ensures var (code, q) := ParseContent(p); (code, q.path) == Judge(s, p.start, p.state.InHeader?, p.path)
  {
    ParsedStatus(p, s);
  }

  /** A line that the parser takes moves the verdict on by that line. */
  lemma LineJudged(p: Parser, s: string, b: string, c: nat)
    requires Inv(p) && Agrees(p.buf, s, p.start) && ParseLine(p.buf, p.checked) == (LineOk, b, c)
    ensures var (code, q) := TakeLine(p, b, c);
            && Inv(q) && Agrees(q.buf, s, q.start) && |q.buf| - q.checked < |p.buf| - p.checked
            && Judge(s, p.start, p.state.InHeader?, p.path) ==
                 if code.NoRequest? then Judge(s, q.start, q.state.InHeader?, q.path) else (code, q.path)
  {
    ParsedStatus(p, s);
    TakenLine(p, s, b, c);
    JudgeStep(s, p.start, c - 2, p.state.InHeader?, p.path);
  }

  /** The in-place parser computes the verdict on the bytes as they were sent. */
  lemma {:induction false} ParserJudges(p: Parser, s: string)
    requires Inv(p) && Agrees(p.buf, s, p.start)
    ensures var (code, q) := ParseContent(p);
            (code, q.path) == Judge(s, p.start, p.state.InHeader?, p.path)
    decreases |p.buf| - p.checked
  {
    var (status, b, c) := ParseLine(p.buf, p.checked);
    if status.LineOk? {
      LineJudged(p, s, b, c);
      ParseStep(p, b, c);
      var (code, q) := TakeLine(p, b, c);
      if code.NoRequest? {
        ParserJudges(q, s);
      }
    } else {
      StopsTogether(p, s);
    }
  }

  /** Under every chunking the receive loop gives the verdict on the bytes as they were sent. */
  lemma FeedJudges(chunks: seq<string>)
    ensures var (code, q) := Feed(INITIAL, chunks);
            (code, q.path) == Judge(Concat(chunks), 0, false, "")
  {
    InitialIsWaiting();
    ChunkingIsIrrelevant(INITIAL, chunks);
    var s := Concat(chunks);
    assert Arrived(INITIAL, s).buf == s;
    ParserJudges(Arrived(INITIAL, s), s);
  }
}
