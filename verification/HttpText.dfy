/** C strings and the request line grammar, as both HTTP parsers use them. A character is a byte. */
module HttpText {

  datatype Option<T> = None | Some(value: T)

  const NUL: char := '\0'

  // ----- The string functions of the C library, from an index on

  predicate IsBlank(c: char) {
    c == ' ' || c == '\t'
  }

  function Lower(c: char): (r: char) {
    if 'A' <= c <= 'Z' then c - 'A' + 'a' else c
  }

  /** `strcasecmp(s, t) == 0` */
  predicate EqualsIgnoringCase(s: string, t: string) {
    |s| == |t| && forall i | 0 <= i < |s| :: Lower(s[i]) == Lower(t[i])
  }

  /** `strncasecmp(s, t, strlen(t)) == 0` */
  predicate StartsIgnoringCase(s: string, t: string) {
    |t| <= |s| && EqualsIgnoringCase(s[..|t|], t)
  }

  /** Only the case of letters may differ. */
  lemma OnlyCaseDiffers(s: string, t: string)
    ensures EqualsIgnoringCase(s, t) <==>
              |s| == |t| && forall i | 0 <= i < |s| ::
                s[i] == t[i]
                || ('a' <= s[i] <= 'z' && s[i] as int == t[i] as int + 32)
                || ('A' <= s[i] <= 'Z' && s[i] as int + 32 == t[i] as int)
  {
  }

  /** The index of the first blank from `i` on, or the length: `strpbrk(s + i, " \t")`. */
  function FindBlank(s: string, i: nat): (j: nat)
    requires i <= |s|
    ensures i <= j <= |s| && (j < |s| ==> IsBlank(s[j]))
    decreases |s| - i
  {
    if i == |s| || IsBlank(s[i]) then i else FindBlank(s, i + 1)
  }

  /** The index behind the blanks from `i` on: `i + strspn(s + i, " \t")`. */
  function SkipBlanks(s: string, i: nat): (j: nat)
    requires i <= |s|
    ensures i <= j <= |s| && (j < |s| ==> !IsBlank(s[j]))
    decreases |s| - i
  {
    if i == |s| || !IsBlank(s[i]) then i else SkipBlanks(s, i + 1)
  }

  /** The index of the first `c` from `i` on, or the length: `strchr(s + i, c)`. */
  function FindChar(s: string, i: nat, c: char): (j: nat)
    requires i <= |s|
    ensures i <= j <= |s| && (j < |s| ==> s[j] == c)
    decreases |s| - i
  {
    if i == |s| || s[i] == c then i else FindChar(s, i + 1, c)
  }

  /** The C string that starts at index `i` of a buffer. */
  function CString(b: string, i: nat): (s: string)
    requires i <= |b|
  {
    b[i..FindChar(b, i, NUL)]
  }

  lemma {:induction false} FindBlankIs(s: string, i: nat, j: nat)
    requires i <= j <= |s| && (j < |s| ==> IsBlank(s[j]))
    requires forall k | i <= k < j :: !IsBlank(s[k])
    ensures FindBlank(s, i) == j
    decreases j - i
  {
    if i < j {
      FindBlankIs(s, i + 1, j);
    }
  }

  lemma {:induction false} SkipBlanksIs(s: string, i: nat, j: nat)
    requires i <= j <= |s| && (j < |s| ==> !IsBlank(s[j]))
    requires forall k | i <= k < j :: IsBlank(s[k])
    ensures SkipBlanks(s, i) == j
    decreases j - i
  {
    if i < j {
      SkipBlanksIs(s, i + 1, j);
    }
  }

  lemma {:induction false} FindCharIs(s: string, i: nat, c: char, j: nat)
    requires i <= j <= |s| && (j < |s| ==> s[j] == c)
    requires forall k | i <= k < j :: s[k] != c
    ensures FindChar(s, i, c) == j
    decreases j - i
  {
    if i < j {
      FindCharIs(s, i + 1, c, j);
    }
  }

  lemma {:induction false} FindBlankPasses(s: string, i: nat)
    requires i <= |s|
    ensures forall k | i <= k < FindBlank(s, i) :: !IsBlank(s[k])
    decreases |s| - i
  {
    if i < |s| && !IsBlank(s[i]) {
      FindBlankPasses(s, i + 1);
    }
  }

  lemma {:induction false} SkipBlanksPasses(s: string, i: nat)
    requires i <= |s|
    ensures forall k | i <= k < SkipBlanks(s, i) :: IsBlank(s[k])
    decreases |s| - i
  {
    if i < |s| && IsBlank(s[i]) {
      SkipBlanksPasses(s, i + 1);
    }
  }

  lemma {:induction false} FindCharPasses(s: string, i: nat, c: char)
    requires i <= |s|
    ensures forall k | i <= k < FindChar(s, i, c) :: s[k] != c
    decreases |s| - i
  {
    if i < |s| && s[i] != c {
      FindCharPasses(s, i + 1, c);
    }
  }

  // ----- The request line

  /** Where `parse_requestline` cuts its text, how far it got, and where the path starts. */
  datatype RequestLine =
    | NoTarget
    | BadMethod(afterMethod: nat)
    | NoVersion(afterMethod: nat)
    | BadVersion(afterMethod: nat, afterTarget: nat)
    | BadTarget(afterMethod: nat, afterTarget: nat)
    | Good(afterMethod: nat, afterTarget: nat, pathAt: nat)

  /** Where the path of a target starts, if it has one: at once, or at the first slash after `http://`. */
  function PathIn(target: string): (k: Option<nat>)
    ensures k.Some? ==> k.value < |target|
  {
    if StartsIgnoringCase(target, "http://") then
      var k := FindChar(target, 7, '/');
      if k < |target| then Some(k) else None
    else if target != "" && target[0] == '/' then Some(0)
    else None
  }

  /** The checks on a text that is cut at these indices. */
  function JudgeCut(t: string, i: nat, u: nat, v: nat, w: nat): (r: RequestLine)
    requires i <= u <= v <= w <= |t|
    ensures (r.BadVersion? || r.BadTarget? || r.Good?) && r.afterMethod == i && r.afterTarget == v
    ensures r.Good? ==> u <= r.pathAt < v
  {
    if !EqualsIgnoringCase(t[w..], "HTTP/1.1") then BadVersion(i, v)
    else
      match PathIn(t[u..v])
      case None => BadTarget(i, v)
      case Some(k) => Good(i, v, u + k)
  }

  function ScanRequestLine(t: string): (r: RequestLine)
    ensures !r.NoTarget? ==> r.afterMethod < |t|
    ensures r.BadVersion? || r.BadTarget? || r.Good? ==> r.afterMethod < r.afterTarget < |t|
    ensures r.Good? ==> r.afterMethod < r.pathAt < r.afterTarget
  {
    var i := FindBlank(t, 0);
    if i == |t| then NoTarget
    else if !EqualsIgnoringCase(t[..i], "GET") then BadMethod(i)
    else
      var u := SkipBlanks(t, i + 1);
      var v := FindBlank(t, u);
      if v == |t| then NoVersion(i) else JudgeCut(t, i, u, v, SkipBlanks(t, v + 1))
  }

  function PathOf(t: string): (path: Option<string>) {
    var r := ScanRequestLine(t);
    if r.Good? then Some(t[r.pathAt..r.afterTarget]) else None
  }

  /** The origin form, or the absolute form for http, both with the path they name. */
  ghost predicate Names(target: string, path: string) {
    && path != "" && path[0] == '/'
    && (target == path
        || exists scheme: string, authority: string ::
             EqualsIgnoringCase(scheme, "http://") && '/' !in authority && target == scheme + authority + path)
  }

  /** Method, gap, target, gap and version of a line, cut at these indices. */
  ghost predicate CutAt(t: string, i: nat, u: nat, v: nat, w: nat) {
    && i < u < v < w < |t|
    && (forall k | 0 <= k < i || u <= k < v || k == w :: !IsBlank(t[k]))
    && (forall k | i <= k < u || v <= k < w :: IsBlank(t[k]))
  }

  /** The grammar of the accepted request lines. */
  ghost predicate IsRequestLine(t: string, path: string) {
    exists i: nat, u: nat, v: nat, w: nat ::
      && CutAt(t, i, u, v, w)
      && EqualsIgnoringCase(t[..i], "GET") && EqualsIgnoringCase(t[w..], "HTTP/1.1") && Names(t[u..v], path)
  }

  // ----- Scanning accepts exactly the grammar

  /** The path that is found is the one the target names. */
  lemma PathFound(target: string, path: string)
    requires Names(target, path)
    ensures PathIn(target).Some? && target[PathIn(target).value..] == path
  {
    if target != path {
      var scheme: string, authority: string :|
        EqualsIgnoringCase(scheme, "http://") && '/' !in authority && target == scheme + authority + path;
      var k := 7 + |authority|;
      assert target[..7] == scheme && target[7..k] == authority && target[k..] == path;
      forall j | 7 <= j < k ensures target[j] != '/' {
        assert target[j] == authority[j - 7];
      }
      assert target[k] == path[0];
      FindCharIs(target, 7, '/', k);
    } else {
      assert Lower(target[0]) != Lower("http://"[0]);
      assert !StartsIgnoringCase(target, "http://");
    }
  }

  lemma PathNamed(target: string)
    requires PathIn(target).Some?
    ensures Names(target, target[PathIn(target).value..])
  {
    var k := PathIn(target).value;
    if StartsIgnoringCase(target, "http://") {
      var scheme, authority := target[..7], target[7..k];
      FindCharPasses(target, 7, '/');
      assert target == scheme + authority + target[k..];
    } else {
      assert target[0..] == target;
    }
  }

  /** The indices that scanning finds are those of the cut. */
  lemma CutFound(t: string, i: nat, u: nat, v: nat, w: nat)
    requires CutAt(t, i, u, v, w)
    ensures FindBlank(t, 0) == i && SkipBlanks(t, i + 1) == u && FindBlank(t, u) == v && SkipBlanks(t, v + 1) == w
  {
    FindBlankIs(t, 0, i);
    SkipBlanksIs(t, i + 1, u);
    FindBlankIs(t, u, v);
    SkipBlanksIs(t, v + 1, w);
  }

  /** What scanning finds when the cut is known. */
  lemma ScanAtCut(t: string, i: nat, u: nat, v: nat, w: nat)
    requires i <= u <= v <= w <= |t| && i < |t| && v < |t|
    requires FindBlank(t, 0) == i && SkipBlanks(t, i + 1) == u && FindBlank(t, u) == v && SkipBlanks(t, v + 1) == w
    requires EqualsIgnoringCase(t[..i], "GET")
    ensures ScanRequestLine(t) == JudgeCut(t, i, u, v, w)
  {
  }

  lemma SliceOfSlice(t: string, u: nat, v: nat, k: nat)
    requires u + k <= v <= |t|
    ensures t[u + k..v] == t[u..v][k..]
  {
  }

  lemma JudgedPath(t: string, i: nat, u: nat, v: nat, w: nat, path: string)
    requires i <= u <= v <= w <= |t|
    requires EqualsIgnoringCase(t[w..], "HTTP/1.1") && Names(t[u..v], path)
    ensures var r := JudgeCut(t, i, u, v, w);
            r.Good? && r.pathAt <= r.afterTarget <= |t| && t[r.pathAt..r.afterTarget] == path
  {
    PathFound(t[u..v], path);
    SliceOfSlice(t, u, v, PathIn(t[u..v]).value);
  }

  lemma ScanAccepts(t: string, path: string)
    requires IsRequestLine(t, path)
    ensures PathOf(t) == Some(path)
  {
    var i: nat, u: nat, v: nat, w: nat :|
      && CutAt(t, i, u, v, w)
      && EqualsIgnoringCase(t[..i], "GET") && EqualsIgnoringCase(t[w..], "HTTP/1.1") && Names(t[u..v], path);
    CutFound(t, i, u, v, w);
    ScanAtCut(t, i, u, v, w);
    JudgedPath(t, i, u, v, w, path);
  }

  /** A line that scans well has come to the judgement of its cut. */
  lemma GoodIsJudged(t: string, i: nat, u: nat, v: nat, w: nat)
    requires ScanRequestLine(t).Good?
    requires i == FindBlank(t, 0) && (i < |t| ==> u == SkipBlanks(t, i + 1))
    requires i < |t| ==> v == FindBlank(t, u)
    requires i < |t| && v < |t| ==> w == SkipBlanks(t, v + 1)
    ensures i < u <= v < w <= |t| && EqualsIgnoringCase(t[..i], "GET")
    ensures ScanRequestLine(t) == JudgeCut(t, i, u, v, w)
  {
  }

  lemma GoodCut(t: string, i: nat, u: nat, v: nat, w: nat)
    requires i <= u <= v <= w <= |t| && JudgeCut(t, i, u, v, w).Good?
    ensures EqualsIgnoringCase(t[w..], "HTTP/1.1") && PathIn(t[u..v]).Some?
    ensures JudgeCut(t, i, u, v, w) == Good(i, v, u + PathIn(t[u..v]).value)
  {
  }

  /** A line that scans well is cut where scanning says. */
  lemma CutOfScan(t: string) returns (i: nat, u: nat, v: nat, w: nat)
    requires ScanRequestLine(t).Good?
    ensures CutAt(t, i, u, v, w) && EqualsIgnoringCase(t[..i], "GET") && EqualsIgnoringCase(t[w..], "HTTP/1.1")
    ensures PathIn(t[u..v]).Some? && ScanRequestLine(t) == Good(i, v, u + PathIn(t[u..v]).value)
  {
    i := FindBlank(t, 0);
    u := SkipBlanks(t, i + 1);
    v := FindBlank(t, u);
    w := SkipBlanks(t, v + 1);
    GoodIsJudged(t, i, u, v, w);
    GoodCut(t, i, u, v, w);
    FindBlankPasses(t, 0);
    SkipBlanksPasses(t, i + 1);
    FindBlankPasses(t, u);
    SkipBlanksPasses(t, v + 1);
    assert |t[w..]| == |"HTTP/1.1"|;
  }

  lemma ScanIsSound(t: string)
    requires PathOf(t).Some?
    ensures IsRequestLine(t, PathOf(t).value)
  {
    var i, u, v, w := CutOfScan(t);
    PathNamed(t[u..v]);
    SliceOfSlice(t, u, v, PathIn(t[u..v]).value);
  }

  /** `parse_requestline` accepts exactly the lines of the grammar, with the path they name. */
  lemma RequestLineIff(t: string, path: string)
    ensures PathOf(t) == Some(path) <==> IsRequestLine(t, path)
  {
    if PathOf(t) == Some(path) {
      ScanIsSound(t);
    }
    if IsRequestLine(t, path) {
      ScanAccepts(t, path);
    }
  }
}
