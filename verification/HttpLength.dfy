/** What a Content-Length header says, and what the production parser makes of it. */
module HttpLength {
  import opened HttpText
  import opened HttpLines
  import opened HttpParser
  import opened HttpRoundTrip
  import opened HttpGrammar
  import opened HttpConn

  // ----- Numbers as text

  predicate AllDigits(t: string) {
    forall i | 0 <= i < |t| :: '0' <= t[i] <= '9'
  }

  /** The number that a decimal text stands for. */
  function Value(t: string): (n: nat)
    requires AllDigits(t)
  {
    if t == "" then 0 else 10 * Value(t[..|t| - 1]) + (t[|t| - 1] as int - '0' as int)
  }

  function Signed(sign: string, digits: string): (n: int)
    requires AllDigits(digits)
  {
    var n: int := Value(digits);
    if sign == "-" then -n else n
  }

  /** How a number is printed. */
  function Decimal(n: nat): (t: string) {
    var digit := ('0' as int + n % 10) as char;
    if n < 10 then [digit] else Decimal(n / 10) + [digit]
  }

  lemma {:induction false} DecimalHasItsValue(n: nat)
    ensures Decimal(n) != "" && AllDigits(Decimal(n)) && Value(Decimal(n)) == n
  {
    if n >= 10 {
      DecimalHasItsValue(n / 10);
      var t := Decimal(n);
      assert t[..|t| - 1] == Decimal(n / 10);
    }
  }

  /** White space, a sign, digits, and whatever comes behind them. */
  predicate IsNumberText(t: string, gap: string, sign: string, digits: string, rest: string) {
    && t == gap + sign + digits + rest
    && (forall i | 0 <= i < |gap| :: gap[i] == ' ' || 9 <= gap[i] as int <= 13)
    && (sign == "" || sign == "+" || sign == "-") && AllDigits(digits)
    && (rest != "" ==> !('0' <= rest[0] <= '9'))
    && (sign == "" && digits == "" && rest != "" ==>
          rest[0] != ' ' && !(9 <= rest[0] as int <= 13) && rest[0] != '+' && rest[0] != '-')
  }

  /** The number closest to `n` that a 64-bit long can hold. */
  function Saturated(n: int): (l: int)
    ensures -0x8000_0000_0000_0000 <= l <= 0x7fff_ffff_ffff_ffff
    ensures -0x8000_0000_0000_0000 <= n <= 0x7fff_ffff_ffff_ffff ==> l == n
    ensures n > 0x7fff_ffff_ffff_ffff ==> l == 0x7fff_ffff_ffff_ffff
    ensures n < -0x8000_0000_0000_0000 ==> l == -0x8000_0000_0000_0000
  {
    if n > 0x7fff_ffff_ffff_ffff then 0x7fff_ffff_ffff_ffff
    else if n < -0x8000_0000_0000_0000 then -0x8000_0000_0000_0000
    else n
  }

  /** `r` is the 32-bit int that has the same low 32 bits as `l`. */
  predicate IsTruncated(l: int, r: int) {
    -0x8000_0000 <= r <= 0x7fff_ffff && (l - r) % 0x1_0000_0000 == 0
  }

  /** The text starts with a number that is stored as `r`. */
  ghost predicate GivesNumber(t: string, r: int) {
    exists gap: string, sign: string, digits: string, rest: string ::
      && IsNumberText(t, gap, sign, digits, rest)
      && IsTruncated(Saturated(Signed(sign, digits)), r)
  }

  // ----- `atol` gives that number

  lemma {:induction false} SkipSpaceIs(t: string, i: nat, j: nat)
    requires i <= j <= |t| && (forall k | i <= k < j :: IsSpace(t[k])) && (j < |t| ==> !IsSpace(t[j]))
    ensures SkipSpace(t, i) == j
    decreases j - i
  {
    if i < j {
      SkipSpaceIs(t, i + 1, j);
    }
  }

  lemma {:induction false} SkipSpacePasses(t: string, i: nat)
    requires i <= |t|
    ensures forall k | i <= k < SkipSpace(t, i) :: IsSpace(t[k])
    ensures SkipSpace(t, i) < |t| ==> !IsSpace(t[SkipSpace(t, i)])
    decreases |t| - i
  {
    if i < |t| && IsSpace(t[i]) {
      SkipSpacePasses(t, i + 1);
    }
  }

  /** Reading digits from `i` on, when those from `s` on have been read. */
  lemma {:induction false} DigitsGoOn(t: string, s: nat, i: nat, j: nat)
    requires s <= i <= j <= |t| && AllDigits(t[s..j]) && (j < |t| ==> !IsDigit(t[j]))
    ensures AllDigits(t[s..i]) && Digits(t, i, Value(t[s..i])) == Value(t[s..j])
    decreases j - i
  {
    forall k | s <= k < j ensures IsDigit(t[k]) {
      assert t[k] == t[s..j][k - s];
    }
    if i < j {
      assert t[s..i + 1][..i - s] == t[s..i];
      DigitsGoOn(t, s, i + 1, j);
    }
  }

  lemma DigitsAreRead(t: string, i: nat, digits: string, rest: string)
    requires i <= |t| && t[i..] == digits + rest && AllDigits(digits) && (rest != "" ==> !IsDigit(rest[0]))
    ensures Digits(t, i, 0) == Value(digits)
  {
    var j := i + |digits|;
    assert t[i..j] == digits;
    assert rest == t[j..];
    DigitsGoOn(t, i, i, j);
  }

  lemma CutInThree(t: string, a: string, b: string, c: string)
    requires t == a + b + c
    ensures |a| + |b| <= |t| && t[..|a|] == a && t[|a|..] == b + c && t[|a| + |b|..] == c
  {
  }

  lemma GapIsSkipped(t: string, gap: string, later: string)
    requires |gap| <= |t| && t[..|gap|] == gap && t[|gap|..] == later && (later != "" ==> !IsSpace(later[0]))
    requires forall i | 0 <= i < |gap| :: IsSpace(gap[i])
    ensures SkipSpace(t, 0) == |gap|
  {
    assert |gap| < |t| ==> t[|gap|] == later[0];
    assert forall i | 0 <= i < |gap| :: t[i] == gap[i];
    SkipSpaceIs(t, 0, |gap|);
  }

  lemma SignThenDigits(sign: string, digits: string, rest: string)
    requires sign == "" || sign == "+" || sign == "-"
    ensures var later := sign + (digits + rest);
            && (sign != "" ==> later != "" && later[0] == sign[0])
            && (sign == "" && digits != "" ==> later != "" && later[0] == digits[0])
            && (sign == "" && digits == "" ==> later == rest)
  {
  }

  /** What stands behind the gap: the sign, or the first digit, or something else. */
  lemma FirstBehindGap(t: string, gap: string, sign: string, digits: string, rest: string)
    requires IsNumberText(t, gap, sign, digits, rest)
    ensures SkipSpace(t, 0) == |gap| && |gap| + |sign| <= |t| && t[|gap| + |sign|..] == digits + rest
    ensures |gap| < |t| ==> (t[|gap|] == '-' <==> sign == "-") && (t[|gap|] == '+' <==> sign == "+")
    ensures |gap| == |t| ==> sign == ""
  {
    var later := sign + (digits + rest);
    assert gap + sign + digits + rest == gap + sign + (digits + rest);
    CutInThree(t, gap, sign, digits + rest);
    SignThenDigits(sign, digits, rest);
    GapIsSkipped(t, gap, later);
    assert |gap| < |t| ==> t[|gap|] == later[0];
  }

  lemma NumberIsRead(t: string, gap: string, sign: string, digits: string, rest: string)
    requires IsNumberText(t, gap, sign, digits, rest)
    ensures Atol(t) == Saturated(Signed(sign, digits))
  {
    FirstBehindGap(t, gap, sign, digits, rest);
    DigitsAreRead(t, |gap| + |sign|, digits, rest);
  }

  lemma TruncatedIs(l: int, r: int)
    ensures IsTruncated(l, r) <==> r == ToInt32(l)
  {
  }

  lemma GivenIsStored(t: string, r: int)
    requires GivesNumber(t, r)
    ensures ToInt32(Atol(t)) == r
  {
    var gap: string, sign: string, digits: string, rest: string :|
      && IsNumberText(t, gap, sign, digits, rest)
      && IsTruncated(Saturated(Signed(sign, digits)), r);
    NumberIsRead(t, gap, sign, digits, rest);
    TruncatedIs(Atol(t), r);
  }

  lemma {:induction false} DigitsEnd(t: string, i: nat) returns (j: nat)
    requires i <= |t|
    ensures i <= j <= |t| && AllDigits(t[i..j]) && (j < |t| ==> !('0' <= t[j] <= '9'))
    decreases |t| - i
  {
    if i < |t| && '0' <= t[i] <= '9' {
      j := DigitsEnd(t, i + 1);
      assert t[i..j] == [t[i]] + t[i + 1..j];
    } else {
      j := i;
    }
  }

  /** Every text can be taken apart in this way. */
  lemma NumberTextOf(t: string) returns (gap: string, sign: string, digits: string, rest: string)
    ensures IsNumberText(t, gap, sign, digits, rest)
  {
    var i := SkipSpace(t, 0);
    SkipSpacePasses(t, 0);
    var u := if i < |t| && (t[i] == '+' || t[i] == '-') then i + 1 else i;
    var j := DigitsEnd(t, u);
    gap, sign, digits, rest := t[..i], t[i..u], t[u..j], t[j..];
    assert t == t[..i] + t[i..u] + t[u..j] + t[j..];
  }

  lemma StoredIsGiven(t: string)
    ensures GivesNumber(t, ToInt32(Atol(t)))
  {
    var gap, sign, digits, rest := NumberTextOf(t);
    NumberIsRead(t, gap, sign, digits, rest);
    TruncatedIs(Atol(t), ToInt32(Atol(t)));
  }

  /** What `atol` gives, stored in an int. */
  lemma NumberIff(t: string, r: int)
    ensures GivesNumber(t, r) <==> r == ToInt32(Atol(t))
  {
    StoredIsGiven(t);
    if GivesNumber(t, r) {
      GivenIsStored(t, r);
    }
  }

  // ----- Header lines

  predicate IsLengthHeader(header: string) {
    StartsIgnoringCase(CString(header, 0), "Content-Length:")
  }

  /** A header line with the number `r` behind the colon. */
  ghost predicate GivesLength(header: string, r: int) {
    IsLengthHeader(header) && GivesNumber(CString(header, 0)[15..], r)
  }

  lemma {:induction false} BlanksStop(t: string, i: nat, k: nat)
    requires i <= k <= |t| && (k < |t| ==> !IsBlank(t[k]))
    ensures SkipBlanks(t, i) <= k
    decreases k - i
  {
    if i < k && IsBlank(t[i]) {
      BlanksStop(t, i + 1, k);
    }
  }

  lemma BlanksWithinGap(t: string, i: nat, gap: string, sign: string, digits: string, rest: string)
    requires i <= |t| && IsNumberText(t[i..], gap, sign, digits, rest)
    ensures i + |gap| <= |t| && SkipBlanks(t, i) <= i + |gap|
  {
    var k := i + |gap|;
    if k < |t| {
      assert t[k] == t[i..][|gap|] == (sign + digits + rest)[0];
    }
    BlanksStop(t, i, k);
  }

  lemma NumberWithoutBlanks(t: string, i: nat, a: nat, gap: string, sign: string, digits: string, rest: string)
    requires i <= a <= |t| && IsNumberText(t[i..], gap, sign, digits, rest) && a <= i + |gap|
    ensures IsNumberText(t[a..], gap[a - i..], sign, digits, rest)
  {
    assert t[a..] == t[i..][a - i..];
    assert t[i..] == gap + (sign + digits + rest);
    assert t[a..] == gap[a - i..] + (sign + digits + rest);
  }

  /** The blanks that are skipped first are white space that `atol` would skip. */
  lemma BlanksArePartOfGap(t: string, i: nat, r: int)
    requires i <= |t| && GivesNumber(t[i..], r)
    ensures GivesNumber(t[SkipBlanks(t, i)..], r)
  {
    var gap: string, sign: string, digits: string, rest: string :|
      && IsNumberText(t[i..], gap, sign, digits, rest)
      && IsTruncated(Saturated(Signed(sign, digits)), r);
    BlanksWithinGap(t, i, gap, sign, digits, rest);
    NumberWithoutBlanks(t, i, SkipBlanks(t, i), gap, sign, digits, rest);
  }

  lemma LengthIsNotConnection(t: string)
    requires StartsIgnoringCase(t, "Content-Length:")
    ensures !StartsIgnoringCase(t, "Connection:")
  {
    assert t[..11][3] == t[..15][3];
  }

  /** A header line leaves the length as it is, or as the number behind the colon. */
  lemma LengthAfterHeader(header: string, length: int)
    ensures !IsLengthHeader(header) ==> LengthAfter(CString(header, 0), length) == length
    ensures IsLengthHeader(header) ==> GivesLength(header, LengthAfter(CString(header, 0), length))
    ensures forall r | GivesLength(header, r) :: LengthAfter(CString(header, 0), length) == r
  {
    var t := CString(header, 0);
    if IsLengthHeader(header) {
      LengthIsNotConnection(t);
      forall r | GivesNumber(t[15..], r) ensures LengthAfter(t, length) == r {
        BlanksArePartOfGap(t, 15, r);
        GivenIsStored(t[SkipBlanks(t, 15)..], r);
      }
      StoredIsGiven(t[15..]);
    }
  }

  /** `r` is given by the header at `k`, and no later header gives a length. */
  ghost predicate GivesLast(headers: seq<string>, k: int, r: int) {
    0 <= k < |headers| && GivesLength(headers[k], r) && forall j | k < j < |headers| :: !IsLengthHeader(headers[j])
  }

  /** What the last header that gives a length gives; or `before`, without one. */
  ghost predicate LengthIs(headers: seq<string>, before: int, r: int) {
    || (r == before && forall k | 0 <= k < |headers| :: !IsLengthHeader(headers[k]))
    || exists k :: GivesLast(headers, k, r)
  }

  lemma LengthIsUnique(headers: seq<string>, before: int, r: int, r': int)
    requires LengthIs(headers, before, r) && LengthIs(headers, before, r')
    ensures r == r'
  {
    if k :| GivesLast(headers, k, r) {
      var k' :| GivesLast(headers, k', r');
      assert k == k';
      LengthAfterHeader(headers[k], 0);
    }
  }

  lemma LengthIsMore(header: string, headers: seq<string>, before: int, r: int)
    requires LengthIs(headers, LengthAfter(CString(header, 0), before), r)
    ensures LengthIs([header] + headers, before, r)
  {
    var all := [header] + headers;
    LengthAfterHeader(header, before);
    if k :| GivesLast(headers, k, r) {
      assert GivesLast(all, k + 1, r);
    } else if IsLengthHeader(header) {
      assert GivesLast(all, 0, r);
    }
  }

  /** Blanks, and then the word. */
  predicate IsKeepAlive(t: string, gap: string, value: string) {
    t == gap + value && (forall i | 0 <= i < |gap| :: IsBlank(gap[i])) && EqualsIgnoringCase(value, "keep-alive")
  }

  /** A header line that asks for the connection to be kept. */
  ghost predicate AsksToKeep(header: string) {
    var t := CString(header, 0);
    StartsIgnoringCase(t, "Connection:") && exists gap, value :: IsKeepAlive(t[11..], gap, value)
  }

  lemma ValueIsFound(t: string, gap: string, value: string)
    requires |t| >= 11 && IsKeepAlive(t[11..], gap, value)
    ensures t[SkipBlanks(t, 11)..] == value
  {
    var k := 11 + |gap|;
    forall i | 11 <= i < k ensures IsBlank(t[i]) {
      assert t[i] == t[11..][i - 11] == gap[i - 11];
    }
    assert t[k] == t[11..][|gap|] == value[0];
    SkipBlanksIs(t, 11, k);
    assert t[k..] == t[11..][|gap|..];
  }

  lemma LingerAfterHeader(header: string, linger: bool)
    ensures LingerAfter(CString(header, 0), linger) <==> linger || AsksToKeep(header)
  {
    var t := CString(header, 0);
    if StartsIgnoringCase(t, "Connection:") {
      var a := SkipBlanks(t, 11);
      SkipBlanksPasses(t, 11);
      if EqualsIgnoringCase(t[a..], "keep-alive") {
        assert IsKeepAlive(t[11..], t[11..a], t[a..]);
      }
      if gap, value :| IsKeepAlive(t[11..], gap, value) {
        ValueIsFound(t, gap, value);
      }
    }
  }

  ghost predicate LingerIs(headers: seq<string>, before: bool, l: bool) {
    l <==> before || exists k | 0 <= k < |headers| :: AsksToKeep(headers[k])
  }

  lemma LingerIsMore(header: string, headers: seq<string>, before: bool, l: bool)
    requires LingerIs(headers, LingerAfter(CString(header, 0), before), l)
    ensures LingerIs([header] + headers, before, l)
  {
    var all := [header] + headers;
    LingerAfterHeader(header, before);
    if k :| 0 <= k < |headers| && AsksToKeep(headers[k]) {
      assert AsksToKeep(all[k + 1]);
    }
    if k :| 0 <= k < |all| && AsksToKeep(all[k]) {
      assert k == 0 || AsksToKeep(headers[k - 1]);
    }
    assert all[0] == header;
  }

  // ----- Whole requests

  /** What these header lines leave behind. */
  ghost predicate FieldsAre(headers: seq<string>, before: Fields, f: Fields) {
    LengthIs(headers, before.length, f.length) && LingerIs(headers, before.linger, f.linger)
  }

  lemma FieldsAreMore(header: string, headers: seq<string>, before: Fields, f: Fields)
    requires FieldsAre(headers, FieldsAfter(CString(header, 0), before), f)
    ensures FieldsAre([header] + headers, before, f)
  {
    LengthIsMore(header, headers, before.length, f.length);
    LingerIsMore(header, headers, before.linger, f.linger);
  }

  lemma DeclaredNext(s: string, i: nat, j: nat, text: string, inHeader: bool, f: Fields)
    requires i <= j && j + 2 <= |s| && j == FindBreak(s, i) && LineEndsAt(s, j) && TextOf(s, i, j) == text
    ensures DeclaredFields(s, i, inHeader, f) ==
              if inHeader && text != "" then DeclaredFields(s, j + 2, true, FieldsAfter(text, f))
              else if !inHeader && PathOf(text).Some? then DeclaredFields(s, j + 2, true, f)
              else f
  {
  }

  lemma EmptyLineDeclares(s: string, i: nat, line: string, before: Fields)
    requires i <= |s| && StartsWith(s[i..], line) && CString(line, 0) == ""
    ensures DeclaredFields(s, i, true, before) == before
  {
    LineEnds(s, i, line);
    DeclaredNext(s, i, i + |line|, "", true, before);
  }

  lemma HeaderDeclares(s: string, i: nat, line: string, before: Fields)
    requires i <= |s| && StartsWith(s[i..], line) && CString(line, 0) != ""
    ensures i + |line| + 2 <= |s| && s[i + |line| + 2..] == Behind(s[i..], line)
    ensures DeclaredFields(s, i, true, before)
         == DeclaredFields(s, i + |line| + 2, true, FieldsAfter(CString(line, 0), before))
  {
    LineEnds(s, i, line);
    DeclaredNext(s, i, i + |line|, CString(line, 0), true, before);
  }

  lemma {:induction false} HeadersDeclare(s: string, i: nat, headers: seq<string>, before: Fields)
    requires i <= |s| && StartsWithHeaders(s[i..], headers)
    ensures FieldsAre(headers, before, DeclaredFields(s, i, true, before))
    decreases |headers|
  {
    if headers == [] {
      var line :| StartsWith(s[i..], line) && CString(line, 0) == "";
      EmptyLineDeclares(s, i, line, before);
    } else {
      var h := headers[0];
      HeaderDeclares(s, i, h, before);
      HeadersDeclare(s, i + |h| + 2, headers[1..], FieldsAfter(CString(h, 0), before));
      FieldsAreMore(h, headers[1..], before, DeclaredFields(s, i, true, before));
      assert [h] + headers[1..] == headers;
    }
  }

  lemma FirstLineDeclares(s: string, line: string, f: Fields) returns (n: nat)
    requires StartsWith(s, line) && PathOf(CString(line, 0)).Some?
    ensures n <= |s| && s[n..] == Behind(s, line) && DeclaredFields(s, 0, false, f) == DeclaredFields(s, n, true, f)
  {
    n := |line| + 2;
    assert s[0..] == s;
    LineEnds(s, 0, line);
    DeclaredNext(s, 0, |line|, CString(line, 0), false, f);
  }

  lemma RequestDeclares(s: string, line: string, headers: seq<string>)
    requires StartsWith(s, line) && PathOf(CString(line, 0)).Some? && StartsWithHeaders(Behind(s, line), headers)
    ensures FieldsAre(headers, NO_FIELDS, DeclaredFields(s, 0, false, NO_FIELDS))
  {
    var n := FirstLineDeclares(s, line, NO_FIELDS);
    HeadersDeclare(s, n, headers, NO_FIELDS);
  }

  /** A request for `path` with these lines. */
  ghost predicate HasLines(bytes: string, path: string, line: string, headers: seq<string>) {
    && StartsWith(bytes, line) && IsRequestLine(CString(line, 0), path)
    && StartsWithHeaders(Behind(bytes, line), headers)
  }

  /** A request for `path` whose last header that gives a length gives `r`; without one, `r` is 0. */
  ghost predicate IsRequestWith(bytes: string, path: string, r: int) {
    exists line, headers :: HasLines(bytes, path, line, headers) && LengthIs(headers, 0, r)
  }

  lemma RequestWithIff(s: string, path: string, r: int)
    ensures IsRequestWith(s, path, r)
       <==> Judge(s, 0, false, "") == (GetRequest, path) && DeclaredFields(s, 0, false, NO_FIELDS).length == r
  {
    if IsRequestWith(s, path, r) {
      var line, headers :| HasLines(s, path, line, headers) && LengthIs(headers, 0, r);
      RequestIsAccepted(s, path);
      RequestLineIff(CString(line, 0), path);
      RequestDeclares(s, line, headers);
      LengthIsUnique(headers, 0, r, DeclaredFields(s, 0, false, NO_FIELDS).length);
    }
    if Judge(s, 0, false, "") == (GetRequest, path) {
      AcceptedIsRequest(s, path);
      var line, headers :|
        && StartsWith(s, line) && IsRequestLine(CString(line, 0), path)
        && StartsWithHeaders(Behind(s, line), headers);
      assert HasLines(s, path, line, headers);
      RequestLineIff(CString(line, 0), path);
      RequestDeclares(s, line, headers);
    }
  }

  // ----- Bad requests

  lemma BadFirstLineIff(s: string)
    ensures var j := FindBreak(s, 0);
            HasBadFirstLine(s) <==> LineEndsAt(s, j) && PathOf(TextOf(s, 0, j)).None?
  {
    var j := FindBreak(s, 0);
    assert s[0..] == s;
    if HasBadFirstLine(s) {
      var line :| StartsWith(s, line) && forall path :: !IsRequestLine(CString(line, 0), path);
      LineEnds(s, 0, line);
      if PathOf(CString(line, 0)).Some? {
        RequestLineIff(CString(line, 0), PathOf(CString(line, 0)).value);
      }
    }
    if LineEndsAt(s, j) && PathOf(TextOf(s, 0, j)).None? {
      FindBreakPasses(s, 0);
      LineStands(s, 0, j);
      TextIsCString(s, 0, j, s[0..j]);
      forall path ensures !IsRequestLine(CString(s[0..j], 0), path) {
        RequestLineIff(CString(s[0..j], 0), path);
      }
    }
  }

  /** No header line is bad. */
  lemma {:induction false} NeverBadInHeaders(c: ConnState)
    requires ConnInv(c) && c.state.InHeader?
    ensures ProcessRead(c).0 != Bad
    decreases |c.buf| - c.checked
  {
    var (status, b, n) := ParseLine(c.buf, c.checked);
    if status.LineOk? {
      TakeConnLineResumes(c, b, n, "");
      ProcessStep(c, b, n);
      var (outcome, d) := TakeConnLine(c, b, n);
      if outcome.NoRequestYet? {
        NeverBadInHeaders(d);
      }
    }
  }

  lemma FirstLineDecides(c: ConnState, b: string, n: nat)
    requires ConnInv(c) && c.state.InRequestLine? && ParseLine(c.buf, c.checked) == (LineOk, b, n)
    ensures c.start <= n <= |b| && (ProcessRead(c).0 == Bad <==> !TakeConnLine(c, b, n).0.NoRequestYet?)
  {
    EndedConnLine(c, b, n, "");
    TakeConnLineResumes(c, b, n, "");
    ProcessStep(c, b, n);
    if TakeConnLine(c, b, n).0.NoRequestYet? {
      NeverBadInHeaders(TakeConnLine(c, b, n).1);
    }
  }

  lemma BadIff(s: string)
    ensures ProcessRead(ConnArrived(CLEAR, s)).0 == Bad <==> HasBadFirstLine(s)
  {
    var c := ConnArrived(CLEAR, s);
    assert c.buf == s;
    var (status, b, n) := ParseLine(s, 0);
    BadFirstLineIff(s);
    ParseLineFindsBreak(s, 0, 0);
    if status.LineOk? {
      FirstLineDecides(c, b, n);
      TakenConnLine(c, s, b, n);
    }
  }

  // ----- What the production parser does

  /**
   * `do_request` is called with a path exactly for the requests for that path whose last Content-Length header gives 0,
   * or that have none; a body is awaited exactly for the requests whose last one gives another number; and a request is
   * bad exactly if its first line is.
   */
  ghost predicate IsOutcomeOf(outcome: Outcome, s: string) {
    && (forall path :: outcome == DoRequest(path) <==> IsRequestWith(s, path, 0))
    && (outcome == AwaitsBody <==> exists path, r :: r != 0 && IsRequestWith(s, path, r))
    && (outcome == Bad <==> HasBadFirstLine(s))
  }

  /** Under every chunking. */
  lemma ActsOnRequests(chunks: seq<string>)
    ensures IsOutcomeOf(FeedConn(CLEAR, chunks).0, Concat(chunks))
  {
    var s := Concat(chunks);
    var (code, found) := Judge(s, 0, false, "");
    FeedJudges(chunks);
    forall path ensures FeedConn(CLEAR, chunks).0 == DoRequest(path) <==> IsRequestWith(s, path, 0) {
      ParsersAgree(chunks, chunks, path);
      RequestWithIff(s, path, 0);
    }
    ParsersAgree(chunks, chunks, found);
    RequestWithIff(s, found, DeclaredFields(s, 0, false, NO_FIELDS).length);
    forall path, r | r != 0 && IsRequestWith(s, path, r) ensures FeedConn(CLEAR, chunks).0 == AwaitsBody {
      RequestWithIff(s, path, r);
    }
    ConnChunkingIsIrrelevant(CLEAR, chunks);
    BadIff(s);
  }

  /** What a complete request leaves in the members that its header lines set, under every chunking. */
  lemma StoresFields(chunks: seq<string>, path: string, line: string, headers: seq<string>)
    requires HasLines(Concat(chunks), path, line, headers)
    ensures var c := FeedConn(CLEAR, chunks).1;
            && LengthIs(headers, 0, c.contentLength)
            && (c.linger <==> exists k | 0 <= k < |headers| :: AsksToKeep(headers[k]))
  {
    var s := Concat(chunks);
    var c := ConnArrived(CLEAR, s);
    assert c.buf == s;
    ConnChunkingIsIrrelevant(CLEAR, chunks);
    FieldsAreDeclared(c, s);
    RequestLineIff(CString(line, 0), path);
    RequestDeclares(s, line, headers);
  }

  // ----- Printed requests

  lemma {:induction false} PrintedHeadersStand(headers: seq<string>, tail: string)
    requires AllHeaders(headers)
    ensures StartsWithHeaders(PrintHeaders(headers) + tail, headers)
  {
    if headers == [] {
      assert StartsWith(CRLF + tail, "");
    } else {
      var h, later := PrintStep(headers, tail);
      PrintedHeadersStand(headers[1..], tail);
      assert Behind(h + CRLF + later, h) == later;
    }
  }

  lemma PrintedHasLines(target: string, path: string, headers: seq<string>, tail: string)
    requires IsTarget(target, path) && AllHeaders(headers)
    ensures HasLines(PrintRequest(target, headers) + tail, path, RequestLineText(target), headers)
  {
    var line, later := RequestLineText(target), PrintHeaders(headers) + tail;
    var s := PrintRequest(target, headers) + tail;
    assert s == line + CRLF + later;
    PrintedHasNoBreak(target, path);
    assert StartsWith(s, line) && Behind(s, line) == later;
    PrintedHeadersStand(headers, tail);
    FindCharIs(line, 0, NUL, |line|);
    assert CString(line, 0) == line;
    PrintedLineScans(target, path);
    RequestLineIff(line, path);
  }

  /** A printed request is acted on as the last of its headers that gives a length says, under every chunking. */
  lemma PrintedIsActedOn(target: string, path: string, headers: seq<string>, r: int, tail: string,
                         chunks: seq<string>)
    requires IsTarget(target, path) && AllHeaders(headers) && LengthIs(headers, 0, r)
    requires Concat(chunks) == PrintRequest(target, headers) + tail
    ensures FeedConn(CLEAR, chunks).0 == if r == 0 then DoRequest(path) else AwaitsBody
  {
    PrintedHasLines(target, path, headers, tail);
    assert IsRequestWith(Concat(chunks), path, r);
    ActsOnRequests(chunks);
  }

  /** The header that announces a body of `n` bytes. */
  function LengthHeader(blanks: string, n: nat): (header: string) {
    "Content-Length:" + blanks + Decimal(n)
  }

  lemma LengthHeaderText(blanks: string, n: nat)
    requires forall i | 0 <= i < |blanks| :: IsBlank(blanks[i])
    ensures var h := LengthHeader(blanks, n);
            h[..15] == "Content-Length:" && h[15..] == blanks + Decimal(n) && CString(h, 0) == h
  {
    DecimalHasItsValue(n);
    var h := LengthHeader(blanks, n);
    CutInThree(h, "Content-Length:", blanks, Decimal(n));
    forall i | 0 <= i < |h| ensures h[i] != NUL {
      if i < 15 {
        assert h[i] == "Content-Length:"[i];
      } else {
        assert h[i] == (blanks + Decimal(n))[i - 15];
      }
    }
    FindCharIs(h, 0, NUL, |h|);
  }

  /** A number that fits into an int is stored as it was printed. */
  lemma PrintedLengthIsGiven(blanks: string, n: nat)
    requires (forall i | 0 <= i < |blanks| :: IsBlank(blanks[i])) && n <= 0x7fff_ffff
    ensures GivesLength(LengthHeader(blanks, n), n)
  {
    LengthHeaderText(blanks, n);
    DecimalHasItsValue(n);
    var t := blanks + Decimal(n);
    assert t == blanks + "" + Decimal(n) + "";
    assert IsNumberText(t, blanks, "", Decimal(n), "");
    assert GivesNumber(t, n);
  }

  /**
   * A printed request whose last length header prints `n` ends in the call of `do_request` if `n` is 0, and otherwise
   * in waiting for a body, under every chunking.
   */
  lemma PrintedLengthDecides(target: string, path: string, before: seq<string>, blanks: string, n: nat,
                             after: seq<string>, tail: string, chunks: seq<string>)
    requires (forall i | 0 <= i < |blanks| :: IsBlank(blanks[i])) && n <= 0x7fff_ffff
    requires IsTarget(target, path) && AllHeaders(before + [LengthHeader(blanks, n)] + after)
    requires forall k | 0 <= k < |after| :: !IsLengthHeader(after[k])
    requires Concat(chunks) == PrintRequest(target, before + [LengthHeader(blanks, n)] + after) + tail
    ensures FeedConn(CLEAR, chunks).0 == if n == 0 then DoRequest(path) else AwaitsBody
  {
    var headers := before + [LengthHeader(blanks, n)] + after;
    PrintedLengthIsGiven(blanks, n);
    assert GivesLast(headers, |before|, n);
    PrintedIsActedOn(target, path, headers, n, tail, chunks);
  }
}
