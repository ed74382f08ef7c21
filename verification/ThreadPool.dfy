/**
 * The work queue of `threadpool.h`: any number of producers and workers, a lock around the list, and a semaphore that
 * producers post after they have released the lock and whose interrupted waits the workers do not notice.
 */
module ThreadPool {

  /** `append` accepts null pointers too. */
  datatype Request = Null | Req(id: int)

  /** Where a producer is in `append`. */
  datatype Producer =
    | Idle
    | ToLock(r: Request)
    | Deciding(r: Request)   // holds the lock
    | Refusing               // holds the lock
    | Pushed                 // holds the lock, has pushed
    | ToPost                 // has released the lock

  /** Where a worker is in `run`. */
  datatype Worker =
    | Waiting                // in m_queuestat.wait()
    | Woken                  // behind it, before the lock
    | Looking                // holds the lock
    | Popping                // holds the lock, found the list not empty
    | LeavingEmpty           // holds the lock, found the list empty
    | Leaving(r: Request)    // holds the lock, has popped
    | Processing(r: Request)

  datatype Owner = Free | ByProducer(p: nat) | ByWorker(w: nat)

  /** `appended`, `taken` and `processed` are history. */
  datatype State = State(
    producers: map<nat, Producer>, workers: map<nat, Worker>, owner: Owner,
    queue: seq<Request>, sem: nat, max: nat,
    appended: seq<Request>, taken: seq<Request>, processed: seq<Request>)

  datatype Step =
    | Call(p: nat, r: Request) | LockP(p: nat) | Decide(p: nat) | Refuse(p: nat) | UnlockP(p: nat) | Post(p: nat)
    | Wait(w: nat) | Interrupt(w: nat) | LockW(w: nat) | Look(w: nat) | Pop(w: nat) | UnlockW(w: nat) | Finish(w: nat)

  ghost predicate Enabled(s: State, step: Step) {
    match step
    case Call(p, r) => p in s.producers && s.producers[p].Idle?
    case LockP(p) => p in s.producers && s.producers[p].ToLock? && s.owner.Free?
    case Decide(p) => p in s.producers && s.producers[p].Deciding?
    case Refuse(p) => p in s.producers && s.producers[p].Refusing?
    case UnlockP(p) => p in s.producers && s.producers[p].Pushed?
    case Post(p) => p in s.producers && s.producers[p].ToPost?
    case Wait(w) => w in s.workers && s.workers[w].Waiting? && s.sem > 0
    case Interrupt(w) => w in s.workers && s.workers[w].Waiting?
    case LockW(w) => w in s.workers && s.workers[w].Woken? && s.owner.Free?
    case Look(w) => w in s.workers && s.workers[w].Looking?
    case Pop(w) => w in s.workers && s.workers[w].Popping? && s.queue != []
    case UnlockW(w) => w in s.workers && (s.workers[w].LeavingEmpty? || s.workers[w].Leaving?)
    case Finish(w) => w in s.workers && s.workers[w].Processing?
  }

  function MoveP(s: State, p: nat, c: Producer): (s': State) {
    s.(producers := s.producers[p := c])
  }

  function MoveW(s: State, w: nat, c: Worker): (s': State) {
    s.(workers := s.workers[w := c])
  }

  ghost function Apply(s: State, step: Step): (s': State)
    requires Enabled(s, step)
  {
    match step
    case Call(p, r) => MoveP(s, p, ToLock(r))
    case LockP(p) => MoveP(s, p, Deciding(s.producers[p].r)).(owner := ByProducer(p))
    case Decide(p) =>
      var r := s.producers[p].r;
      if |s.queue| > s.max then MoveP(s, p, Refusing)
      else MoveP(s, p, Pushed).(queue := s.queue + [r], appended := s.appended + [r])
    case Refuse(p) => MoveP(s, p, Idle).(owner := Free)
    case UnlockP(p) => MoveP(s, p, ToPost).(owner := Free)
    case Post(p) => MoveP(s, p, Idle).(sem := s.sem + 1)
    case Wait(w) => MoveW(s, w, Woken).(sem := s.sem - 1)
    case Interrupt(w) => MoveW(s, w, Woken)
    case LockW(w) => MoveW(s, w, Looking).(owner := ByWorker(w))
    case Look(w) => MoveW(s, w, if s.queue == [] then LeavingEmpty else Popping)
    case Pop(w) => MoveW(s, w, Leaving(s.queue[0])).(queue := s.queue[1..], taken := s.taken + [s.queue[0]])
    case UnlockW(w) =>
      var c := s.workers[w];
      if c.Leaving? && c.r.Req? then
        MoveW(s, w, Processing(c.r)).(owner := Free, processed := s.processed + [c.r])
      else
        MoveW(s, w, Waiting).(owner := Free)
    case Finish(w) => MoveW(s, w, Waiting)
  }

  ghost predicate Init(s: State) {
    && (forall p | p in s.producers :: s.producers[p].Idle?) && (forall w | w in s.workers :: s.workers[w].Waiting?)
    && s.owner.Free? && s.queue == s.appended == s.taken == s.processed == [] && s.sem == 0
  }

  ghost predicate IsRun(run: seq<State>, steps: seq<Step>) {
    && |run| == |steps| + 1 && Init(run[0])
    && forall k | 0 <= k < |steps| :: Enabled(run[k], steps[k]) && run[k + 1] == Apply(run[k], steps[k])
  }

  // ----- The lock and the list

  predicate ProducerHolds(c: Producer) {
    c.Deciding? || c.Refusing? || c.Pushed?
  }

  predicate WorkerHolds(c: Worker) {
    c.Looking? || c.Popping? || c.LeavingEmpty? || c.Leaving?
  }

  ghost predicate LockInv(s: State) {
    && (forall p | p in s.producers :: ProducerHolds(s.producers[p]) <==> s.owner == ByProducer(p))
    && (forall w | w in s.workers :: WorkerHolds(s.workers[w]) <==> s.owner == ByWorker(w))
  }

  ghost predicate QueueInv(s: State) {
    && s.appended == s.taken + s.queue && |s.queue| <= s.max + 1
    && (forall w | w in s.workers && s.workers[w].Popping? :: s.queue != [])
  }

  lemma LockKept(s: State, step: Step)
    requires LockInv(s) && Enabled(s, step)
    ensures LockInv(Apply(s, step))
  {
  }

  lemma QueueKept(s: State, step: Step)
    requires LockInv(s) && QueueInv(s) && Enabled(s, step)
    ensures QueueInv(Apply(s, step))
  {
    if step.Pop? {
      assert s.taken + s.queue == (s.taken + [s.queue[0]]) + s.queue[1..];
    }
  }

  // ----- Nothing is stranded

  predicate IsComing(c: Worker) {
    c.Woken? || c.Looking? || c.Popping?
  }

  predicate IsPosting(c: Producer) {
    c.Pushed? || c.ToPost?
  }

  /** The workers that are past the wait and have not popped yet. */
  ghost function Coming(s: State): (ids: set<nat>) {
    set w | w in s.workers && IsComing(s.workers[w])
  }

  /** The producers that have pushed and not posted yet. */
  ghost function Posting(s: State): (ids: set<nat>) {
    set p | p in s.producers && IsPosting(s.producers[p])
  }

  ghost predicate DemandInv(s: State) {
    |s.queue| <= s.sem + |Coming(s)| + |Posting(s)|
  }

  lemma SizeOfOneMore(a: set<nat>, t: nat)
    ensures |a + {t}| == |a| + (if t in a then 0 else 1)
    ensures |a - {t}| == |a| - (if t in a then 1 else 0)
  {
    if t in a {
      assert a + {t} == a;
    } else {
      assert a - {t} == a;
    }
  }

  lemma MoveWCounts(s: State, w: nat, c: Worker)
    requires w in s.workers
    ensures Posting(MoveW(s, w, c)) == Posting(s)
    ensures |Coming(MoveW(s, w, c))|
         == |Coming(s)| + (if IsComing(c) then 1 else 0) - (if IsComing(s.workers[w]) then 1 else 0)
  {
    assert Coming(MoveW(s, w, c)) == if IsComing(c) then Coming(s) + {w} else Coming(s) - {w};
    SizeOfOneMore(Coming(s), w);
  }

  lemma MovePCounts(s: State, p: nat, c: Producer)
    requires p in s.producers
    ensures Coming(MoveP(s, p, c)) == Coming(s)
    ensures |Posting(MoveP(s, p, c))|
         == |Posting(s)| + (if IsPosting(c) then 1 else 0) - (if IsPosting(s.producers[p]) then 1 else 0)
  {
    assert Posting(MoveP(s, p, c)) == if IsPosting(c) then Posting(s) + {p} else Posting(s) - {p};
    SizeOfOneMore(Posting(s), p);
  }

  /** A step of one worker: it gives up coming only by popping, or because the list is empty. */
  lemma DemandKeptByWorker(s: State, w: nat, c: Worker, s': State)
    requires DemandInv(s) && w in s.workers && s'.workers == MoveW(s, w, c).workers && s'.producers == s.producers
    requires |s'.queue| <= |s.queue| && s'.sem <= s.sem
    requires |s'.queue| == 0 ||
             (|s.queue| - |s'.queue|) + (if IsComing(c) then 1 else 0)
               >= (if IsComing(s.workers[w]) then 1 else 0) + (s.sem - s'.sem)
    ensures DemandInv(s')
  {
    MoveWCounts(s, w, c);
    assert Coming(s') == Coming(MoveW(s, w, c)) && Posting(s') == Posting(MoveW(s, w, c));
  }

  lemma DemandKeptByProducer(s: State, p: nat, c: Producer, s': State)
    requires DemandInv(s) && p in s.producers && s'.producers == MoveP(s, p, c).producers && s'.workers == s.workers
    requires (if IsPosting(c) then 1 else 0) + (s'.sem - s.sem)
               >= (if IsPosting(s.producers[p]) then 1 else 0) + (|s'.queue| - |s.queue|)
    ensures DemandInv(s')
  {
    MovePCounts(s, p, c);
    assert Coming(s') == Coming(MoveP(s, p, c)) && Posting(s') == Posting(MoveP(s, p, c));
  }

  lemma DemandKept(s: State, step: Step)
    requires LockInv(s) && QueueInv(s) && DemandInv(s) && Enabled(s, step)
    ensures DemandInv(Apply(s, step))
  {
    var s' := Apply(s, step);
    match step
    case Call(p, r) => DemandKeptByProducer(s, p, s'.producers[p], s');
    case LockP(p) => DemandKeptByProducer(s, p, s'.producers[p], s');
    case Decide(p) => DemandKeptByProducer(s, p, s'.producers[p], s');
    case Refuse(p) => DemandKeptByProducer(s, p, s'.producers[p], s');
    case UnlockP(p) => DemandKeptByProducer(s, p, s'.producers[p], s');
    case Post(p) => DemandKeptByProducer(s, p, s'.producers[p], s');
    case Wait(w) => DemandKeptByWorker(s, w, s'.workers[w], s');
    case Interrupt(w) => DemandKeptByWorker(s, w, s'.workers[w], s');
    case LockW(w) => DemandKeptByWorker(s, w, s'.workers[w], s');
    case Look(w) => DemandKeptByWorker(s, w, s'.workers[w], s');
    case Pop(w) => DemandKeptByWorker(s, w, s'.workers[w], s');
    case UnlockW(w) => DemandKeptByWorker(s, w, s'.workers[w], s');
    case Finish(w) => DemandKeptByWorker(s, w, s'.workers[w], s');
  }

  // ----- What becomes of a request

  /** The requests that are no null pointers, in order. */
  ghost function NonNull(s: seq<Request>): (r: seq<Request>) {
    if s == [] then []
    else
      var last := s[|s| - 1];
      NonNull(s[..|s| - 1]) + if last.Req? then [last] else []
  }

  /** The request, if any, that has been popped and whose worker has not released the lock yet. */
  ghost function Held(s: State): (r: seq<Request>) {
    if s.owner.ByWorker? && s.owner.w in s.workers
       && s.workers[s.owner.w].Leaving? && s.workers[s.owner.w].r.Req?
    then [s.workers[s.owner.w].r]
    else []
  }

  ghost predicate ProcessedInv(s: State) {
    NonNull(s.taken) == s.processed + Held(s)
  }

  lemma HeldKept(s: State, step: Step)
    requires LockInv(s) && Enabled(s, step) && !step.Pop? && !step.UnlockW?
    ensures var s' := Apply(s, step); Held(s') == Held(s) && s'.taken == s.taken && s'.processed == s.processed
  {
  }

  lemma ProcessedKept(s: State, step: Step)
    requires LockInv(s) && QueueInv(s) && ProcessedInv(s) && Enabled(s, step)
    ensures ProcessedInv(Apply(s, step))
  {
    var s' := Apply(s, step);
    if step.Pop? {
      assert Held(s) == [];
      assert s'.taken[..|s'.taken| - 1] == s.taken;
    } else if step.UnlockW? {
      assert Held(s') == [];
      assert s'.processed == s.processed + Held(s);
    } else {
      HeldKept(s, step);
    }
  }

  /** How often the semaphore has been taken: by the waits that were not interrupted. */
  ghost function Waits(steps: seq<Step>): (n: nat) {
    if steps == [] then 0 else Waits(steps[..|steps| - 1]) + if steps[|steps| - 1].Wait? then 1 else 0
  }

  /** One post for each request that was appended. */
  ghost predicate PostInv(s: State, done: seq<Step>) {
    |s.appended| == s.sem + Waits(done) + |Posting(s)|
  }

  lemma PostKept(s: State, done: seq<Step>, step: Step)
    requires PostInv(s, done) && Enabled(s, step)
    ensures PostInv(Apply(s, step), done + [step])
  {
    var s' := Apply(s, step);
    assert (done + [step])[..|done|] == done;
    match step
    case Call(p, r) => MovePCounts(s, p, s'.producers[p]);
    case LockP(p) => MovePCounts(s, p, s'.producers[p]);
    case Decide(p) => MovePCounts(s, p, s'.producers[p]);
    case Refuse(p) => MovePCounts(s, p, s'.producers[p]);
    case UnlockP(p) => MovePCounts(s, p, s'.producers[p]);
    case Post(p) => MovePCounts(s, p, s'.producers[p]);
    case _ =>
  }

  // ----- Over whole runs

  ghost predicate Inv(s: State) {
    LockInv(s) && QueueInv(s) && DemandInv(s)
  }

  lemma {:induction false} Reachable(run: seq<State>, steps: seq<Step>, k: nat)
    requires IsRun(run, steps) && k < |run|
    ensures Inv(run[k])
    decreases k
  {
    if k > 0 {
      Reachable(run, steps, k - 1);
      LockKept(run[k - 1], steps[k - 1]);
      QueueKept(run[k - 1], steps[k - 1]);
      DemandKept(run[k - 1], steps[k - 1]);
    }
  }

  lemma {:induction false} Accounted(run: seq<State>, steps: seq<Step>, k: nat)
    requires IsRun(run, steps) && k < |run|
    ensures ProcessedInv(run[k]) && PostInv(run[k], steps[..k]) && run[k].max == run[0].max
    decreases k
  {
    if k == 0 {
      assert Posting(run[0]) == {};
    } else {
      Accounted(run, steps, k - 1);
      Reachable(run, steps, k - 1);
      ProcessedKept(run[k - 1], steps[k - 1]);
      PostKept(run[k - 1], steps[..k - 1], steps[k - 1]);
      assert steps[..k] == steps[..k - 1] + [steps[k - 1]];
    }
  }

  /**
   * In every state of every run each request in the list is matched by a count of the semaphore, a worker past the
   * wait, or a producer about to post. So no request is stranded: with every worker asleep and no producer about to
   * post, a worker can wake.
   */
  lemma NoneStranded(run: seq<State>, steps: seq<Step>, k: nat)
    requires IsRun(run, steps) && k < |run|
    ensures var s := run[k];
            && |s.queue| <= s.sem + |Coming(s)| + |Posting(s)|
            && (s.queue != [] && Posting(s) == {} && (forall w | w in s.workers :: s.workers[w].Waiting?)
                ==> forall w | w in s.workers :: Enabled(s, Wait(w)))
  {
    Reachable(run, steps, k);
    var s := run[k];
    if s.queue != [] && Posting(s) == {} && (forall w | w in s.workers :: s.workers[w].Waiting?) {
      assert Coming(s) == {};
    }
  }

  /**
   * In every state of every run the requests appended are those taken, then the list, which is bounded; those taken
   * that are no null pointers are those processed, in that order, then the one that a worker has just popped; and the
   * semaphore has been posted once for each request appended whose producer is done.
   */
  lemma EachTakenOnceInOrder(run: seq<State>, steps: seq<Step>, k: nat)
    requires IsRun(run, steps) && k < |run|
    ensures var s := run[k];
            && s.appended == s.taken + s.queue && |s.queue| <= run[0].max + 1
            && NonNull(s.taken) == s.processed + Held(s)
            && |s.appended| == s.sem + Waits(steps[..k]) + |Posting(s)|
  {
    Reachable(run, steps, k);
    Accounted(run, steps, k);
  }

  lemma OthersLeaveWorker(s: State, step: Step, w: nat)
    requires Enabled(s, step) && w in s.workers
    requires !(step.Wait? || step.Interrupt? || step.LockW? || step.Look? || step.Pop? || step.UnlockW? || step.Finish?)
             || step.w != w
    ensures w in Apply(s, step).workers && Apply(s, step).workers[w] == s.workers[w]
  {
  }

  /**
   * What a worker does with the request `r` it popped at step `j`: until step `k` it is with that request and with no
   * other, and if it is past the lock then step `i` of its own wrote `r` to the history of those processed.
   */
  ghost predicate IsWithPopped(run: seq<State>, steps: seq<Step>, w: nat, j: nat, k: nat, i: nat)
    requires j < k < |run| == |steps| + 1 && run[j].queue != [] && w in run[k].workers
  {
    var r, c := run[j].queue[0], run[k].workers[w];
    || c == Leaving(r)
    || (r.Req? && c == Processing(r) && j < i < k && steps[i] == UnlockW(w)
        && run[i + 1].processed == run[i].processed + [r])
  }

  lemma {:induction false} WithPopped(run: seq<State>, steps: seq<Step>, w: nat, j: nat, k: nat) returns (i: nat)
    requires IsRun(run, steps) && j < k < |run| && steps[j] == Pop(w)
    requires forall m | j < m <= k :: w in run[m].workers && !run[m].workers[w].Waiting?
    ensures run[j].queue != [] && IsWithPopped(run, steps, w, j, k, i)
    decreases k
  {
    i := k - 1;
    assert Enabled(run[i], steps[i]) && run[k] == Apply(run[i], steps[i]);
    if i > j {
      var before := WithPopped(run, steps, w, j, i);
      if run[i].workers[w].Processing? {
        i := before;
      }
      if steps[k - 1] != UnlockW(w) && steps[k - 1] != Finish(w) {
        OthersLeaveWorker(run[k - 1], steps[k - 1], w);
      }
    }
  }

  /**
   * In every run the worker that popped a request is the one that processes it: when it comes back to the wait it was
   * processing that very request just before, and a step of its own has put it among those processed. A null pointer
   * sends it straight back.
   */
  lemma PopperProcesses(run: seq<State>, steps: seq<Step>, w: nat, j: nat, k: nat) returns (i: nat)
    requires IsRun(run, steps) && j < k < |steps| && steps[j] == Pop(w)
    requires forall m | j < m <= k :: w in run[m].workers && !run[m].workers[w].Waiting?
    requires w in run[k + 1].workers && run[k + 1].workers[w].Waiting?
    ensures run[j].queue != [] && w in run[k].workers
    ensures var r := run[j].queue[0];
            if r.Req? then
              && run[k].workers[w] == Processing(r)
              && j < i < k && steps[i] == UnlockW(w) && run[i + 1].processed == run[i].processed + [r]
            else
              run[k].workers[w] == Leaving(r)
  {
    i := WithPopped(run, steps, w, j, k);
    assert Enabled(run[k], steps[k]) && run[k + 1] == Apply(run[k], steps[k]);
  }

  lemma OthersLeaveProducer(s: State, step: Step, p: nat)
    requires Enabled(s, step) && p in s.producers
    requires !(step.Call? || step.LockP? || step.Decide? || step.Refuse? || step.UnlockP? || step.Post?) || step.p != p
    ensures p in Apply(s, step).producers && Apply(s, step).producers[p] == s.producers[p]
  {
  }

  /** The one test of the list made by `p` in the steps from `j` to before `k` is step `i`. */
  predicate DecidesOnce(steps: seq<Step>, p: nat, j: nat, k: nat, i: nat)
    requires j < k <= |steps|
  {
    j < i < k && forall m | j < m < k :: steps[m] == Decide(p) <==> m == i
  }

  /** `r` is the new last request of the list, or the list is longer than the limit and stays as it is. */
  ghost predicate Decides(s: State, s': State, r: Request) {
    s'.queue == if |s.queue| > s.max then s.queue else s.queue + [r]
  }

  /** What `append(r)`, called by `p` at step `j`, has done before step `k`; `i` is the step of its test. */
  ghost predicate IsWithCalled(run: seq<State>, steps: seq<Step>, p: nat, r: Request, j: nat, k: nat, i: nat)
    requires j < k < |run| == |steps| + 1 && p in run[k].producers
  {
    var c := run[k].producers[p];
    if c == ToLock(r) || c == Deciding(r) then
      forall m | j < m < k :: steps[m] != Decide(p)
    else
      && DecidesOnce(steps, p, j, k, i) && Decides(run[i], run[i + 1], r)
      && if |run[i].queue| > run[i].max then c.Refusing? else c.Pushed? || c.ToPost?
  }

  /** Every step but the test takes the call on. */
  lemma CallGoesOn(run: seq<State>, steps: seq<Step>, p: nat, r: Request, j: nat, k: nat, i: nat)
    requires j < k < |steps| && |run| == |steps| + 1 && p in run[k].producers && p in run[k + 1].producers
    requires IsWithCalled(run, steps, p, r, j, k, i) && steps[k] != Decide(p)
    requires var c, c' := run[k].producers[p], run[k + 1].producers[p];
             c' == c || (c.ToLock? && c' == Deciding(c.r)) || (c.Pushed? && c'.ToPost?)
    ensures IsWithCalled(run, steps, p, r, j, k + 1, i)
  {
  }

  /** What the test of the list does. */
  lemma CallDecides(run: seq<State>, steps: seq<Step>, p: nat, r: Request, j: nat, k: nat, i: nat)
    requires j < k < |steps| && |run| == |steps| + 1 && p in run[k].producers
    requires IsWithCalled(run, steps, p, r, j, k, i) && steps[k] == Decide(p)
    requires Enabled(run[k], steps[k]) && run[k + 1] == Apply(run[k], steps[k])
    ensures p in run[k + 1].producers && IsWithCalled(run, steps, p, r, j, k + 1, k)
  {
    assert run[k].producers[p] == Deciding(r);
  }

  lemma {:induction false} WithCalled(run: seq<State>, steps: seq<Step>, p: nat, r: Request, j: nat, k: nat)
    returns (i: nat)
    requires IsRun(run, steps) && j < k < |run| && steps[j] == Call(p, r)
    requires forall m | j < m <= k :: p in run[m].producers && !run[m].producers[p].Idle?
    ensures IsWithCalled(run, steps, p, r, j, k, i)
    decreases k
  {
    var last := k - 1;
    assert Enabled(run[last], steps[last]) && run[k] == Apply(run[last], steps[last]);
    if last == j {
      i := j;
    } else {
      i := WithCalled(run, steps, p, r, j, last);
      if steps[last] == Decide(p) {
        CallDecides(run, steps, p, r, j, last, i);
        i := last;
      } else {
        if steps[last] != LockP(p) && steps[last] != UnlockP(p) {
          OthersLeaveProducer(run[last], steps[last], p);
        }
        CallGoesOn(run, steps, p, r, j, last, i);
      }
    }
  }

  /**
   * In every run `append(r)` tests the list once between its call and its return. It refuses exactly when the list is
   * longer than the limit at that test, and then the list stays as it is; otherwise `r` becomes the last request and
   * the call ends with the post.
   */
  lemma AppendDecides(run: seq<State>, steps: seq<Step>, p: nat, r: Request, j: nat, k: nat) returns (i: nat)
    requires IsRun(run, steps) && j < k < |steps| && steps[j] == Call(p, r)
    requires forall m | j < m <= k :: p in run[m].producers && !run[m].producers[p].Idle?
    requires p in run[k + 1].producers && run[k + 1].producers[p].Idle?
    ensures DecidesOnce(steps, p, j, k, i) && Decides(run[i], run[i + 1], r) && run[i].max == run[0].max
    ensures steps[k] == if |run[i].queue| > run[i].max then Refuse(p) else Post(p)
  {
    i := WithCalled(run, steps, p, r, j, k);
    Accounted(run, steps, i);
    assert Enabled(run[k], steps[k]) && run[k + 1] == Apply(run[k], steps[k]);
  }
}
