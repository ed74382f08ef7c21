/** What the kernel gives to a program that reads from a stream socket. */
module Sockets {

  /** What the kernel answers to one `recv`; no bytes mean end of file. What has no room stays in the socket. */
  datatype RecvAnswer = Bytes(data: string) | RecvAgain | RecvError

  /** What comes when there are no bytes: the socket would block, which is also so behind the last answer. */
  datatype RecvEnd = Blocked | Broken | Ended

  predicate GivesBytes(answers: seq<RecvAnswer>) {
    answers != [] && answers[0].Bytes? && answers[0].data != ""
  }

  /** The bytes a socket has to give before it would block, fails or ends. */
  function Offered(answers: seq<RecvAnswer>): (text: string) {
    if GivesBytes(answers) then answers[0].data + Offered(answers[1..]) else ""
  }

  function EndOf(answers: seq<RecvAnswer>): (end: RecvEnd) {
    if answers == [] || answers[0].RecvAgain? then Blocked
    else if answers[0].RecvError? then Broken
    else if answers[0].data == "" then Ended
    else EndOf(answers[1..])
  }

  /** The bytes of these answers, one after the other. */
  function Joined(answers: seq<RecvAnswer>): (text: string)
    requires forall a | a in answers :: a.Bytes?
  {
    if answers == [] then "" else Joined(answers[..|answers| - 1]) + answers[|answers| - 1].data
  }

  /** The first `j` answers give bytes, and the one behind them, if any, does not. */
  predicate StopsAt(answers: seq<RecvAnswer>, j: nat) {
    && j <= |answers| && (forall i | 0 <= i < j :: answers[i].Bytes? && answers[i].data != "")
    && (j < |answers| ==> !answers[j].Bytes? || answers[j].data == "")
  }

  lemma {:induction false} JoinedFromFirst(answers: seq<RecvAnswer>)
    requires answers != [] && forall a | a in answers :: a.Bytes?
    ensures Joined(answers) == answers[0].data + Joined(answers[1..])
  {
    var n := |answers| - 1;
    if n == 0 {
      assert answers[..0] == [] == answers[1..];
    } else {
      JoinedFromFirst(answers[..n]);
      assert answers[..n][1..] == answers[1..][..n - 1];
    }
  }

  /** The bytes on offer are those before the first answer that gives none, and this one says what comes then. */
  lemma {:induction false} OfferedBeforeStop(answers: seq<RecvAnswer>) returns (j: nat)
    ensures StopsAt(answers, j) && Offered(answers) == Joined(answers[..j])
    ensures EndOf(answers).Blocked? <==> j == |answers| || answers[j].RecvAgain?
    ensures EndOf(answers).Broken? <==> j < |answers| && answers[j].RecvError?
  {
    if GivesBytes(answers) {
      j := OfferedBeforeStop(answers[1..]);
      j := j + 1;
      assert answers[..j][1..] == answers[1..][..j - 1];
      JoinedFromFirst(answers[..j]);
    } else {
      j := 0;
    }
  }

  /** An error or the end comes while there is still room. */
  ghost predicate RecvFails(answers: seq<RecvAnswer>, room: nat) {
    exists j: nat :: StopsAt(answers, j) && j < |answers| && !answers[j].RecvAgain? && |Joined(answers[..j])| < room
  }

  lemma RecvFailsIff(answers: seq<RecvAnswer>, room: nat)
    ensures RecvFails(answers, room) <==> |Offered(answers)| < room && !EndOf(answers).Blocked?
  {
    var j := OfferedBeforeStop(answers);
    assert forall i: nat :: StopsAt(answers, i) ==> i == j;
  }

  function Min(a: nat, b: nat): (n: nat) {
    if a <= b then a else b
  }

  /** What a buffer with `room` gets of the bytes on offer. */
  function Fitting(answers: seq<RecvAnswer>, room: nat): (got: string)
    ensures got <= Offered(answers) && |got| == Min(|Offered(answers)|, room)
  {
    Offered(answers)[..Min(|Offered(answers)|, room)]
  }

  // ----- What a loop has received

  /** The first `k` answers gave `got` to a buffer with `room`; `rest` is still in the socket. */
  ghost predicate Got(answers: seq<RecvAnswer>, k: nat, room: nat, got: string, rest: string) {
    && k <= |answers| && |got| <= room && Offered(answers) == got + rest
    && (|got| < room ==> rest == Offered(answers[k..]) && EndOf(answers) == EndOf(answers[k..]))
  }

  lemma GotMore(answers: seq<RecvAnswer>, k: nat, room: nat, got: string, rest: string, n: nat) returns (rest': string)
    requires Got(answers, k, room, got, rest) && |got| < room
    requires k < |answers| && answers[k].Bytes? && answers[k].data != ""
    requires n == Min(|answers[k].data|, room - |got|)
    ensures Got(answers, k + 1, room, got + answers[k].data[..n], rest')
  {
    rest' := answers[k].data[n..] + Offered(answers[k + 1..]);
    assert answers[k..][1..] == answers[k + 1..];
    assert rest == answers[k].data[..n] + rest';
  }

  lemma GotAll(answers: seq<RecvAnswer>, k: nat, room: nat, got: string, rest: string)
    requires Got(answers, k, room, got, rest) && (|got| == room || !GivesBytes(answers[k..]))
    ensures got == Fitting(answers, room) && (|Offered(answers)| >= room <==> |got| == room)
  {
  }

  lemma FittingIsLonger(answers: seq<RecvAnswer>, k: nat, room: nat, got: string, rest: string) returns (more: string)
    requires Got(answers, k, room, got, rest)
    ensures Fitting(answers, room) == got + more
  {
    more := Fitting(answers, room)[|got|..];
  }

  method CopyIn(buf: array<char>, at: nat, data: string)
    requires at + |data| <= buf.Length
    modifies buf
    ensures buf[..at + |data|] == old(buf[..at]) + data
  {
    forall i | 0 <= i < |data| {
      buf[at + i] := data[i];
    }
  }
}
