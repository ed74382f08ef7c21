/** Exactly which byte strings the parser takes for a complete request. */
module HttpGrammar {
  import opened HttpText
  import opened HttpLines
  import opened HttpParser
  import opened HttpRoundTrip

  /** The bytes start with a line. */
  predicate StartsWith(bytes: string, line: string) {
    BreakFree(line) && |line| + 2 <= |bytes| && bytes[..|line|] == line && bytes[|line|..|line| + 2] == CRLF
  }

  function Behind(bytes: string, line: string): (text: string)
    requires |line| + 2 <= |bytes|
  {
    bytes[|line| + 2..]
  }

  ghost predicate StartsWithEmpty(bytes: string) {
    exists line :: StartsWith(bytes, line) && CString(line, 0) == ""
  }

  /** The bytes start with header lines that are not empty as C strings, and then one that is. */
  ghost predicate StartsWithHeaders(bytes: string, headers: seq<string>) {
    if headers == [] then StartsWithEmpty(bytes)
    else
      && StartsWith(bytes, headers[0]) && CString(headers[0], 0) != ""
      && StartsWithHeaders(Behind(bytes, headers[0]), headers[1..])
  }

  /** The bytes start with a line of the grammar that names `path`, header lines, and an empty line. */
  ghost predicate IsRequest(bytes: string, path: string) {
    exists line, headers ::
      && StartsWith(bytes, line) && IsRequestLine(CString(line, 0), path)
      && StartsWithHeaders(Behind(bytes, line), headers)
  }

  // ----- One line

  lemma TextIsCString(s: string, i: nat, j: nat, line: string)
    requires i <= j < |s| && s[i..j] == line
    ensures TextOf(s, i, j) == CString(line, 0)
  {
    var n := FindChar(s, i, NUL);
    var e := if n < j then n else j;
    FindCharPasses(s, i, NUL);
    forall k | 0 <= k < e - i ensures line[k] == s[i + k] {
    }
    if n < j {
      assert line[n - i] == s[n];
    }
    FindCharIs(line, 0, NUL, e - i);
    assert line[0..e - i] == s[i..e];
  }

  /** A line at index `i` ends at the next break. */
  lemma LineEnds(s: string, i: nat, line: string)
    requires i <= |s| && StartsWith(s[i..], line)
    ensures var j := i + |line|;
            && j + 2 <= |s| && FindBreak(s, i) == j && LineEndsAt(s, j)
            && TextOf(s, i, j) == CString(line, 0) && s[j + 2..] == Behind(s[i..], line)
  {
    var j := i + |line|;
    assert s[i..j] == s[i..][..|line|] && s[j..j + 2] == s[i..][|line|..|line| + 2];
    assert s[j] == s[j..j + 2][0] && s[j + 1] == s[j..j + 2][1];
    forall k | i <= k < j ensures s[k] != CR && s[k] != LF {
      assert s[k] == line[k - i];
    }
    FindBreakIs(s, i, j);
    TextIsCString(s, i, j, line);
  }

  lemma JudgeNext(s: string, i: nat, j: nat, text: string, inHeader: bool, path: string)
    requires i <= j && j + 2 <= |s| && j == FindBreak(s, i) && LineEndsAt(s, j) && TextOf(s, i, j) == text
    ensures Judge(s, i, inHeader, path) ==
              var (code, path') := JudgeLine(text, inHeader, path);
              if code.NoRequest? then Judge(s, j + 2, true, path') else (code, path')
  {
    JudgeStep(s, i, j, inHeader, path);
  }

  /** What a line at index `i` does to the verdict. */
  lemma LineIsJudged(s: string, i: nat, line: string, inHeader: bool, path: string)
    requires i <= |s| && StartsWith(s[i..], line)
    ensures i + |line| + 2 <= |s| && s[i + |line| + 2..] == Behind(s[i..], line)
    ensures Judge(s, i, inHeader, path) ==
              var (code, path') := JudgeLine(CString(line, 0), inHeader, path);
              if code.NoRequest? then Judge(s, i + |line| + 2, true, path') else (code, path')
  {
    LineEnds(s, i, line);
    JudgeNext(s, i, i + |line|, CString(line, 0), inHeader, path);
  }

  lemma LineStands(s: string, i: nat, j: nat)
    requires i <= j <= |s| && LineEndsAt(s, j) && BreakFree(s[i..j])
    ensures StartsWith(s[i..], s[i..j])
  {
    assert s[i..][..j - i] == s[i..j];
    assert s[i..][j - i..j - i + 2] == [s[j], s[j + 1]];
  }

  /** A verdict GET_REQUEST rests on a line that has ended. */
  lemma LineFound(s: string, i: nat, inHeader: bool, path: string) returns (line: string)
    requires i <= |s| && Judge(s, i, inHeader, path).0.GetRequest?
    ensures StartsWith(s[i..], line)
  {
    var j := FindBreak(s, i);
    FindBreakPasses(s, i);
    line := s[i..j];
    LineStands(s, i, j);
  }

  // ----- The header lines

  lemma HeaderIsPassed(s: string, i: nat, header: string, path: string) returns (n: nat)
    requires i <= |s| && StartsWith(s[i..], header) && CString(header, 0) != ""
    ensures n <= |s| && s[n..] == Behind(s[i..], header) && Judge(s, i, true, path) == Judge(s, n, true, path)
  {
    LineIsJudged(s, i, header, true, path);
    n := i + |header| + 2;
  }

  lemma {:induction false} HeadersAreAccepted(s: string, i: nat, headers: seq<string>, path: string)
    requires i <= |s| && StartsWithHeaders(s[i..], headers)
    ensures Judge(s, i, true, path) == (GetRequest, path)
    decreases |headers|
  {
    if headers == [] {
      var line :| StartsWith(s[i..], line) && CString(line, 0) == "";
      LineIsJudged(s, i, line, true, path);
    } else {
      var n := HeaderIsPassed(s, i, headers[0], path);
      HeadersAreAccepted(s, n, headers[1..], path);
    }
  }

  lemma {:induction false} HeadersFound(s: string, i: nat, path: string) returns (headers: seq<string>)
    requires i <= |s| && Judge(s, i, true, path).0.GetRequest?
    ensures StartsWithHeaders(s[i..], headers) && Judge(s, i, true, path).1 == path
    decreases |s| - i
  {
    var line := LineFound(s, i, true, path);
    LineIsJudged(s, i, line, true, path);
    if CString(line, 0) == "" {
      headers := [];
    } else {
      var rest := HeadersFound(s, i + |line| + 2, path);
      headers := [line] + rest;
      assert headers[1..] == rest;
    }
  }

  // ----- The whole request

  lemma RequestIsAccepted(s: string, path: string)
    requires IsRequest(s, path)
    ensures Judge(s, 0, false, "") == (GetRequest, path)
  {
    var line, headers :|
      && StartsWith(s, line) && IsRequestLine(CString(line, 0), path)
      && StartsWithHeaders(Behind(s, line), headers);
    RequestLineIff(CString(line, 0), path);
    assert JudgeLine(CString(line, 0), false, "") == (NoRequest, path);
    assert s[0..] == s;
    LineIsJudged(s, 0, line, false, "");
    HeadersAreAccepted(s, |line| + 2, headers, path);
  }

  lemma AcceptedIsRequest(s: string, path: string)
    requires Judge(s, 0, false, "") == (GetRequest, path)
    ensures IsRequest(s, path)
  {
    assert s[0..] == s;
    var line := LineFound(s, 0, false, "");
    LineIsJudged(s, 0, line, false, "");
    var headers := HeadersFound(s, |line| + 2, PathOf(CString(line, 0)).value);
    RequestLineIff(CString(line, 0), path);
    assert StartsWithHeaders(Behind(s, line), headers);
  }

  /** Under every chunking the parser answers GET_REQUEST with a path exactly for the requests for that path. */
  lemma AcceptsExactlyRequests(chunks: seq<string>, path: string)
    ensures var (code, q) := Feed(INITIAL, chunks);
            code == GetRequest && q.path == path <==> IsRequest(Concat(chunks), path)
  {
    var s := Concat(chunks);
    FeedJudges(chunks);
    if Judge(s, 0, false, "") == (GetRequest, path) {
      AcceptedIsRequest(s, path);
    }
    if IsRequest(s, path) {
      RequestIsAccepted(s, path);
    }
  }

  // ----- Bad requests

  /** The first line break is a LF without a CR, or a CR that something else than a LF follows. */
  predicate BreaksAt(bytes: string, j: int) {
    && 0 <= j < |bytes| && BreakFree(bytes[..j])
    && (bytes[j] == LF || (bytes[j] == CR && j + 1 < |bytes| && bytes[j + 1] != LF))
  }

  ghost predicate IsBroken(bytes: string) {
    exists j :: BreaksAt(bytes, j)
  }

  /** The bytes start with header lines that are not empty as C strings, and then comes `rest`. */
  ghost predicate LeavesBehind(bytes: string, headers: seq<string>, rest: string) {
    if headers == [] then rest == bytes
    else
      && StartsWith(bytes, headers[0]) && CString(headers[0], 0) != ""
      && LeavesBehind(Behind(bytes, headers[0]), headers[1..], rest)
  }

  ghost predicate BreaksInHeaders(bytes: string) {
    exists headers, rest :: LeavesBehind(bytes, headers, rest) && IsBroken(rest)
  }

  /** The first line is complete, and no path makes it a line of the grammar. */
  ghost predicate HasBadFirstLine(bytes: string) {
    exists line :: StartsWith(bytes, line) && forall path :: !IsRequestLine(CString(line, 0), path)
  }

  /** The first line is broken or no line of the grammar, or a line is broken before the empty line. */
  ghost predicate IsBadRequest(bytes: string) {
    || IsBroken(bytes) || HasBadFirstLine(bytes)
    || exists line, path ::
         StartsWith(bytes, line) && IsRequestLine(CString(line, 0), path) && BreaksInHeaders(Behind(bytes, line))
  }

  lemma {:induction false} BreakIsFirst(s: string, i: nat, j: nat)
    requires i <= j < |s| && (s[j] == CR || s[j] == LF)
    requires forall k | i <= k < j :: s[k] != CR && s[k] != LF
    ensures FindBreak(s, i) == j
    decreases j - i
  {
    if i < j {
      BreakIsFirst(s, i + 1, j);
    }
  }

  lemma BrokenIff(s: string, i: nat)
    requires i <= |s|
    ensures var j := FindBreak(s, i); IsBroken(s[i..]) <==> !OpenAt(s, j) && !LineEndsAt(s, j)
  {
    var j, bytes := FindBreak(s, i), s[i..];
    FindBreakPasses(s, i);
    if k :| BreaksAt(bytes, k) {
      forall m | i <= m < i + k ensures s[m] != CR && s[m] != LF {
        assert s[m] == bytes[..k][m - i];
      }
      BreakIsFirst(s, i, i + k);
    }
    if !OpenAt(s, j) && !LineEndsAt(s, j) {
      assert BreaksAt(bytes, j - i);
    }
  }

  lemma BrokenIsJudged(s: string, i: nat, inHeader: bool, path: string)
    requires i <= |s| && IsBroken(s[i..])
    ensures Judge(s, i, inHeader, path).0 == BadRequest
  {
    BrokenIff(s, i);
  }

  lemma {:induction false} BreakIsJudged(s: string, i: nat, headers: seq<string>, rest: string, path: string)
    requires i <= |s| && LeavesBehind(s[i..], headers, rest) && IsBroken(rest)
    ensures Judge(s, i, true, path).0 == BadRequest
    decreases |headers|
  {
    if headers == [] {
      BrokenIsJudged(s, i, true, path);
    } else {
      var n := HeaderIsPassed(s, i, headers[0], path);
      BreakIsJudged(s, n, headers[1..], rest, path);
    }
  }

  /** A verdict rests on a broken line or on one that has ended. */
  lemma BrokenOrEnded(s: string, i: nat, inHeader: bool, path: string) returns (line: string)
    requires i <= |s| && Judge(s, i, inHeader, path).0.BadRequest?
    ensures IsBroken(s[i..]) || StartsWith(s[i..], line)
  {
    var j := FindBreak(s, i);
    BrokenIff(s, i);
    FindBreakPasses(s, i);
    line := s[i..j];
    if LineEndsAt(s, j) {
      LineStands(s, i, j);
    }
  }

  lemma {:induction false} BreakFound(s: string, i: nat, path: string) returns (headers: seq<string>, rest: string)
    requires i <= |s| && Judge(s, i, true, path).0.BadRequest?
    ensures LeavesBehind(s[i..], headers, rest) && IsBroken(rest)
    decreases |s| - i
  {
    var line := BrokenOrEnded(s, i, true, path);
    if IsBroken(s[i..]) {
      headers, rest := [], s[i..];
    } else {
      LineIsJudged(s, i, line, true, path);
      headers, rest := BreakFound(s, i + |line| + 2, path);
      assert ([line] + headers)[1..] == headers;
      headers := [line] + headers;
    }
  }

  lemma BadFirstLineIsJudged(s: string)
    requires HasBadFirstLine(s)
    ensures Judge(s, 0, false, "").0 == BadRequest
  {
    var line :| StartsWith(s, line) && forall path :: !IsRequestLine(CString(line, 0), path);
    assert s[0..] == s;
    LineIsJudged(s, 0, line, false, "");
    if PathOf(CString(line, 0)).Some? {
      RequestLineIff(CString(line, 0), PathOf(CString(line, 0)).value);
    }
  }

  lemma GoodLineIsJudged(text: string, path: string)
    requires IsRequestLine(text, path)
    ensures JudgeLine(text, false, "") == (NoRequest, path)
  {
    RequestLineIff(text, path);
  }

  lemma FirstLineIsJudged(s: string, line: string, code: Code, path: string) returns (n: nat)
    requires StartsWith(s, line) && JudgeLine(CString(line, 0), false, "") == (code, path)
    ensures n <= |s| && s[n..] == Behind(s, line)
    ensures Judge(s, 0, false, "") == if code.NoRequest? then Judge(s, n, true, path) else (code, path)
  {
    assert s[0..] == s;
    LineIsJudged(s, 0, line, false, "");
    n := |line| + 2;
  }

  lemma GoodFirstLineIsPassed(s: string, line: string, path: string) returns (n: nat)
    requires StartsWith(s, line) && IsRequestLine(CString(line, 0), path)
    ensures n <= |s| && s[n..] == Behind(s, line) && Judge(s, 0, false, "") == Judge(s, n, true, path)
  {
    GoodLineIsJudged(CString(line, 0), path);
    n := FirstLineIsJudged(s, line, NoRequest, path);
  }

  lemma BreaksInHeadersIff(s: string, i: nat, path: string)
    requires i <= |s|
    ensures Judge(s, i, true, path).0 == BadRequest <==> BreaksInHeaders(s[i..])
  {
    if BreaksInHeaders(s[i..]) {
      var headers, rest :| LeavesBehind(s[i..], headers, rest) && IsBroken(rest);
      BreakIsJudged(s, i, headers, rest, path);
    } else if Judge(s, i, true, path).0 == BadRequest {
      var headers, rest := BreakFound(s, i, path);
    }
  }

  lemma BreakBehindLineIff(s: string, line: string, path: string)
    requires StartsWith(s, line) && IsRequestLine(CString(line, 0), path)
    ensures Judge(s, 0, false, "").0 == BadRequest <==> BreaksInHeaders(Behind(s, line))
  {
    var n := GoodFirstLineIsPassed(s, line, path);
    BreaksInHeadersIff(s, n, path);
  }

  lemma BrokenAtOnce(s: string)
    ensures IsBroken(s) ==> Judge(s, 0, false, "").0 == BadRequest
  {
    assert s[0..] == s;
    BrokenIff(s, 0);
  }

  lemma BadIsJudged(s: string)
    requires IsBadRequest(s)
    ensures Judge(s, 0, false, "").0 == BadRequest
  {
    BrokenAtOnce(s);
    if HasBadFirstLine(s) {
      BadFirstLineIsJudged(s);
    } else if line, path :|
      StartsWith(s, line) && IsRequestLine(CString(line, 0), path) && BreaksInHeaders(Behind(s, line)) {
      BreakBehindLineIff(s, line, path);
    }
  }

  lemma JudgedBadIsBad(s: string)
    requires Judge(s, 0, false, "").0 == BadRequest
    ensures IsBadRequest(s)
  {
    assert s[0..] == s;
    var line := BrokenOrEnded(s, 0, false, "");
    if !IsBroken(s) && !HasBadFirstLine(s) {
      var path :| IsRequestLine(CString(line, 0), path);
      BreakBehindLineIff(s, line, path);
    }
  }

  lemma {:induction false} NeverInternal(s: string, i: nat, inHeader: bool, path: string)
    requires i <= |s|
    ensures !Judge(s, i, inHeader, path).0.InternalError?
    decreases |s| - i
  {
    var j := FindBreak(s, i);
    if LineEndsAt(s, j) && JudgeLine(TextOf(s, i, j), inHeader, path).0.NoRequest? {
      NeverInternal(s, j + 2, true, JudgeLine(TextOf(s, i, j), inHeader, path).1);
    }
  }

  /** The verdict, told by the grammar. */
  lemma VerdictIff(s: string)
    ensures Judge(s, 0, false, "").0 == GetRequest <==> exists path :: IsRequest(s, path)
    ensures Judge(s, 0, false, "").0 == BadRequest <==> IsBadRequest(s)
    ensures !Judge(s, 0, false, "").0.InternalError?
  {
    var (code, found) := Judge(s, 0, false, "");
    if code == GetRequest {
      AcceptedIsRequest(s, found);
    }
    if path :| IsRequest(s, path) {
      RequestIsAccepted(s, path);
    }
    if IsBadRequest(s) {
      BadIsJudged(s);
    }
    if code == BadRequest {
      JudgedBadIsBad(s);
    }
    NeverInternal(s, 0, false, "");
  }

  /** Under every chunking the parser answers BAD_REQUEST exactly for the bad requests; otherwise it reads on. */
  lemma RejectsExactlyBad(chunks: seq<string>)
    ensures var code, s := Feed(INITIAL, chunks).0, Concat(chunks);
            && (code == BadRequest <==> IsBadRequest(s))
            && (code == NoRequest <==> !IsBadRequest(s) && forall path :: !IsRequest(s, path))
  {
    FeedJudges(chunks);
    VerdictIff(Concat(chunks));
  }
}
