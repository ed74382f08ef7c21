/** What a client prints, the parser accepts, with the path that was asked for. */
module HttpRoundTrip {
  import opened HttpText
  import opened HttpLines
  import opened HttpParser

  const CRLF: string := "\r\n"

  predicate BreakFree(line: string) {
    forall i | 0 <= i < |line| :: line[i] != CR && line[i] != LF
  }

  /** A target of the origin form or of the absolute form for http, without white space or control characters. */
  ghost predicate IsTarget(target: string, path: string) {
    && Names(target, path) && BreakFree(target)
    && forall i | 0 <= i < |target| :: !IsBlank(target[i]) && target[i] != NUL
  }

  predicate IsHeader(line: string) {
    line != "" && line[0] != NUL && BreakFree(line)
  }

  function PrintHeaders(headers: seq<string>): (text: string) {
    if headers == [] then CRLF else headers[0] + CRLF + PrintHeaders(headers[1..])
  }

  function RequestLineText(target: string): (text: string) {
    "GET " + target + " HTTP/1.1"
  }

  function PrintRequest(target: string, headers: seq<string>): (text: string) {
    RequestLineText(target) + CRLF + PrintHeaders(headers)
  }

  lemma {:induction false} FindBreakIs(s: string, i: nat, j: nat)
    requires i <= j < |s| && s[j] == CR
    requires forall k | i <= k < j :: s[k] != CR && s[k] != LF
    ensures FindBreak(s, i) == j
    decreases j - i
  {
    if i < j {
      FindBreakIs(s, i + 1, j);
    }
  }

  /** A line that lies at index `i` is the next one. */
  lemma NextLine(s: string, i: nat, line: string, tail: string)
    requires i <= |s| && s[i..] == line + CRLF + tail && BreakFree(line)
    ensures var j := i + |line|;
            && j + 2 <= |s| && FindBreak(s, i) == j && LineEndsAt(s, j) && s[j + 2..] == tail && s[i..j] == line
  {
    var j := i + |line|;
    forall k | i <= k < j + 2 ensures s[k] == (line + CRLF)[k - i] {
      assert s[k] == s[i..][k - i];
    }
    FindBreakIs(s, i, j);
    assert s[j + 2..] == s[i..][|line| + 2..];
  }

  lemma TextOfLine(s: string, i: nat, j: nat)
    requires i <= j <= |s|
    ensures (forall k | i <= k < j :: s[k] != NUL) ==> TextOf(s, i, j) == s[i..j]
    ensures i < j && s[i] != NUL ==> TextOf(s, i, j) != ""
  {
    FindCharPasses(s, i, NUL);
  }

  lemma HeaderPassed(s: string, i: nat, h: string, later: string, path: string) returns (j: nat)
    requires i <= |s| && IsHeader(h) && s[i..] == h + CRLF + later
    ensures j <= |s| && s[j..] == later && Judge(s, i, true, path) == Judge(s, j, true, path)
  {
    NextLine(s, i, h, later);
    var k := i + |h|;
    assert s[i] == s[i..k][0];
    TextOfLine(s, i, k);
    JudgeStep(s, i, k, true, path);
    j := k + 2;
  }

  lemma EmptyLineEnds(s: string, i: nat, tail: string, path: string)
    requires i <= |s| && s[i..] == CRLF + tail
    ensures Judge(s, i, true, path) == (GetRequest, path)
  {
    assert s[i..] == "" + CRLF + tail;
    NextLine(s, i, "", tail);
    JudgeStep(s, i, i, true, path);
  }

  lemma PrintStep(headers: seq<string>, tail: string) returns (h: string, later: string)
    requires headers != []
    ensures h == headers[0] && later == PrintHeaders(headers[1..]) + tail
    ensures PrintHeaders(headers) + tail == h + CRLF + later
  {
    h := headers[0];
    var p := PrintHeaders(headers[1..]);
    later := p + tail;
    assert PrintHeaders(headers) == h + CRLF + p;
    assert (h + CRLF + p) + tail == h + CRLF + (p + tail);
  }

  lemma FirstHeader(rest: string, headers: seq<string>, tail: string) returns (h: string, later: string)
    requires headers != [] && rest == PrintHeaders(headers) + tail
    ensures h == headers[0] && later == PrintHeaders(headers[1..]) + tail && rest == h + CRLF + later
  {
    h, later := PrintStep(headers, tail);
  }

  ghost predicate AllHeaders(headers: seq<string>) {
    headers == [] || (IsHeader(headers[0]) && AllHeaders(headers[1..]))
  }

  lemma {:induction false} HeadersArePassed(s: string, i: nat, headers: seq<string>, tail: string, path: string)
    requires i <= |s| && s[i..] == PrintHeaders(headers) + tail && AllHeaders(headers)
    ensures Judge(s, i, true, path) == (GetRequest, path)
    decreases |headers|
  {
    if headers == [] {
      EmptyLineEnds(s, i, tail, path);
    } else {
      var h, later := FirstHeader(s[i..], headers, tail);
      var j := HeaderPassed(s, i, h, later, path);
      HeadersArePassed(s, j, headers[1..], tail, path);
    }
  }

  /** The parts of a printed request line. */
  lemma PrintedParts(target: string)
    ensures var t, v := RequestLineText(target), 4 + |target|;
            && |t| == v + 9 && t[..3] == "GET" && t[3] == ' ' && t[4..v] == target && t[v] == ' '
            && t[v + 1..] == "HTTP/1.1"
  {
    var t, v := RequestLineText(target), 4 + |target|;
    assert t == "GET" + [' '] + target + [' '] + "HTTP/1.1";
  }

  /** Every character of a printed request line is that of a part. */
  lemma PrintedCharacters(target: string, k: nat)
    requires k < |RequestLineText(target)|
    ensures var t, v := RequestLineText(target), 4 + |target|;
            || (k < 3 && t[k] == "GET"[k])
            || ((k == 3 || k == v) && t[k] == ' ')
            || (4 <= k < v && t[k] == target[k - 4])
            || (v < k && t[k] == "HTTP/1.1"[k - v - 1])
  {
    var t, v := RequestLineText(target), 4 + |target|;
    PrintedParts(target);
    if v < k {
      assert t[k] == t[v + 1..][k - v - 1];
    } else if 4 <= k < v {
      assert t[k] == t[4..v][k - 4];
    } else if k < 3 {
      assert t[k] == t[..3][k];
    }
  }

  lemma PrintedIsCut(target: string)
    requires target != "" && forall i | 0 <= i < |target| :: !IsBlank(target[i])
    ensures CutAt(RequestLineText(target), 3, 4, 4 + |target|, 5 + |target|)
  {
    PrintedParts(target);
    forall k | 0 <= k < |RequestLineText(target)|
      ensures IsBlank(RequestLineText(target)[k]) <==> k == 3 || k == 4 + |target|
    {
      PrintedCharacters(target, k);
    }
  }

  lemma PrintedHasNoBreak(target: string, path: string)
    requires IsTarget(target, path)
    ensures BreakFree(RequestLineText(target))
    ensures forall k | 0 <= k < |RequestLineText(target)| :: RequestLineText(target)[k] != NUL
  {
    forall k | 0 <= k < |RequestLineText(target)|
      ensures var c := RequestLineText(target)[k]; c != CR && c != LF && c != NUL
    {
      PrintedCharacters(target, k);
    }
  }

  lemma PrintedLineScans(target: string, path: string)
    requires IsTarget(target, path)
    ensures PathOf(RequestLineText(target)) == Some(path)
  {
    var t := RequestLineText(target);
    PrintedParts(target);
    PrintedIsCut(target);
    assert IsRequestLine(t, path);
    RequestLineIff(t, path);
  }

  lemma RequestLineIsPassed(s: string, line: string, later: string, path: string)
    requires s[0..] == line + CRLF + later && BreakFree(line) && PathOf(line) == Some(path)
    requires forall k | 0 <= k < |line| :: line[k] != NUL
    ensures |line| + 2 <= |s| && s[|line| + 2..] == later
    ensures Judge(s, 0, false, "") == Judge(s, |line| + 2, true, path)
  {
    NextLine(s, 0, line, later);
    forall k | 0 <= k < |line| ensures s[k] != NUL {
      assert s[k] == s[0..|line|][k];
    }
    TextOfLine(s, 0, |line|);
    JudgeStep(s, 0, |line|, false, "");
  }

  /** Printed requests are judged complete, with the path of their target, whatever follows them. */
  lemma PrintedIsJudged(target: string, path: string, headers: seq<string>, tail: string)
    requires IsTarget(target, path) && AllHeaders(headers)
    ensures Judge(PrintRequest(target, headers) + tail, 0, false, "") == (GetRequest, path)
  {
    var s := PrintRequest(target, headers) + tail;
    var line, later := RequestLineText(target), PrintHeaders(headers) + tail;
    PrintedLineScans(target, path);
    PrintedHasNoBreak(target, path);
    assert s[0..] == line + CRLF + later;
    RequestLineIsPassed(s, line, later, path);
    HeadersArePassed(s, |line| + 2, headers, tail, path);
  }

  /** The round trip: under every chunking of a printed request the parser answers GET_REQUEST and has its path. */
  lemma RoundTrip(target: string, path: string, headers: seq<string>, tail: string, chunks: seq<string>)
    requires IsTarget(target, path) && AllHeaders(headers)
    requires Concat(chunks) == PrintRequest(target, headers) + tail
    ensures Feed(INITIAL, chunks).0 == GetRequest && Feed(INITIAL, chunks).1.path == path
  {
    PrintedIsJudged(target, path, headers, tail);
    FeedJudges(chunks);
  }
}
