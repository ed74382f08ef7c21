/** Cutting a growing buffer into lines, in place: `parse_line` and the buffer writes of `parse_requestline`. */
module HttpLines {
  import opened HttpText

  const CR: char := '\r'
  const LF: char := '\n'

  datatype LineStatus = LineOk | LineBad | LineOpen

  /** What `parse_line` does to the bytes read so far, from index `c` on: status, buffer, and new index. */
  function ParseLine(b: string, c: nat): (r: (LineStatus, string, nat))
    requires c <= |b|
    ensures |r.1| == |b| && c <= r.2 <= |b|
    ensures r.0.LineOk? ==> c < r.2
    decreases |b| - c
  {
    if c == |b| then (LineOpen, b, c)
    else if b[c] == CR then
      if c + 1 == |b| then (LineOpen, b, c)
      else if b[c + 1] == LF then (LineOk, b[c := NUL][c + 1 := NUL], c + 2)
      else (LineBad, b, c)
    else if b[c] == LF then
      if c > 1 && b[c - 1] == CR then (LineOk, b[c - 1 := NUL][c := NUL], c + 1)
      else (LineBad, b, c)
    else ParseLine(b, c + 1)
  }

  /** The NULs that scanning a request line at `start` leaves in the buffer. */
  function WriteCuts(b: string, start: nat, r: RequestLine): (b': string)
    requires start <= |b|
    requires !r.NoTarget? ==> start + r.afterMethod < |b|
    requires r.BadVersion? || r.BadTarget? || r.Good? ==> start + r.afterTarget < |b|
    ensures |b'| == |b|
  {
    match r
    case NoTarget => b
    case BadMethod(i) => b[start + i := NUL]
    case NoVersion(i) => b[start + i := NUL]
    case BadVersion(i, v) => b[start + i := NUL][start + v := NUL]
    case BadTarget(i, v) => b[start + i := NUL][start + v := NUL]
    case Good(i, v, _) => b[start + i := NUL][start + v := NUL]
  }

  /** No line break has been passed since the start of the line, and what precedes the line is not a CR. */
  ghost predicate Clean(b: string, start: nat, c: nat) {
    && start <= c <= |b|
    && (forall i | start <= i < c :: b[i] != CR && b[i] != LF)
    && (start > 0 ==> b[start - 1] == NUL)
  }

  /** The first line break from `c` on, or the length. */
  function FindBreak(b: string, c: nat): (j: nat)
    requires c <= |b|
    ensures c <= j <= |b| && (j < |b| ==> b[j] == CR || b[j] == LF)
    decreases |b| - c
  {
    if c == |b| || b[c] == CR || b[c] == LF then c else FindBreak(b, c + 1)
  }

  /** A complete CR LF at this index. */
  predicate LineEndsAt(b: string, j: nat) {
    j + 1 < |b| && b[j] == CR && b[j + 1] == LF
  }

  /** The end of the input where a line may still be completed. */
  predicate OpenAt(b: string, j: nat) {
    j == |b| || (j + 1 == |b| && b[j] == CR)
  }

  /**
   * On a clean buffer `parse_line` just finds the next line break: the branch that looks back for a CR is never
   * the one that ends a line.
   */
  lemma {:induction false} ParseLineFindsBreak(b: string, start: nat, c: nat)
    requires Clean(b, start, c)
    ensures var j := FindBreak(b, c);
            ParseLine(b, c) ==
              if OpenAt(b, j) then (LineOpen, b, j)
              else if LineEndsAt(b, j) then (LineOk, b[j := NUL][j + 1 := NUL], j + 2)
              else (LineBad, b, j)
    decreases |b| - c
  {
    if c < |b| && b[c] != CR && b[c] != LF {
      ParseLineFindsBreak(b, start, c + 1);
    }
  }

  lemma {:induction false} FindBreakPasses(b: string, c: nat)
    requires c <= |b|
    ensures forall i | c <= i < FindBreak(b, c) :: b[i] != CR && b[i] != LF
    decreases |b| - c
  {
    if c < |b| && b[c] != CR && b[c] != LF {
      FindBreakPasses(b, c + 1);
    }
  }

  /** Bytes that arrive later do not move a line break that was found, and resuming where it stopped finds the next. */
  lemma {:induction false} FindBreakExtends(b: string, c: nat, more: string)
    requires c <= |b|
    ensures FindBreak(b + more, c) ==
              if FindBreak(b, c) < |b| then FindBreak(b, c) else FindBreak(b + more, |b|)
    decreases |b| - c
  {
    if c < |b| && b[c] != CR && b[c] != LF {
      FindBreakExtends(b, c + 1, more);
    }
  }

  lemma {:induction false} FindCharExtends(b: string, i: nat, c: char, more: string)
    requires i <= |b| && FindChar(b, i, c) < |b|
    ensures FindChar(b + more, i, c) == FindChar(b, i, c)
    decreases |b| - i
  {
    if b[i] != c {
      FindCharExtends(b, i + 1, c, more);
    }
  }

  /** Resuming `parse_line` on a longer buffer gives what it would have given on the whole. */
  lemma ParseLineResumes(b: string, start: nat, c: nat, more: string)
    requires Clean(b, start, c)
    ensures var (status, b', c') := ParseLine(b, c);
            ParseLine(b + more, c) == if status.LineOpen? then ParseLine(b' + more, c') else (status, b' + more, c')
  {
    var j := FindBreak(b, c);
    ParseLineFindsBreak(b, start, c);
    FindBreakPasses(b, c);
    FindBreakExtends(b, c, more);
    ParseLineFindsBreak(b + more, start, c);
    if OpenAt(b, j) {
      ParseLineFindsBreak(b + more, start, j);
    } else if LineEndsAt(b, j) {
      assert (b + more)[j := NUL][j + 1 := NUL] == b[j := NUL][j + 1 := NUL] + more;
    }
  }

  /** A line that is found ends in two NULs, and what follows is clean. */
  lemma LineOkIsClean(b: string, start: nat, c: nat)
    requires Clean(b, start, c) && ParseLine(b, c).0.LineOk?
    ensures var (_, b', c') := ParseLine(b, c);
            start + 2 <= c' && b'[c' - 2] == NUL && b'[c' - 1] == NUL && Clean(b', c', c')
    ensures ParseLine(b, c).2 - 2 == FindBreak(b, c)
    ensures forall i | 0 <= i < |b| && i != FindBreak(b, c) && i != FindBreak(b, c) + 1 :: ParseLine(b, c).1[i] == b[i]
  {
    ParseLineFindsBreak(b, start, c);
  }
}
