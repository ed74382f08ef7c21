/** The binary min-heap of timers of `time_heap.h`, with lazy deletion. */
module TimeHeap {

  /** `heap_timer`. `armed` is whether `cb_func` is set; `user` is the value handed to the callback. */
  class HeapTimer {
    const user: int
    const expire: int
    var armed: bool

    constructor (user: int, now: int, delay: int)
      ensures this.user == user && expire == now + delay && armed
    {
      this.user, expire, armed := user, now + delay, true;
    }
  }

  // ----- The simple form: heap repair by swapping, on sequences

  function Parent(i: nat): (n: nat)
    requires i > 0
  {
    (i - 1) / 2
  }

  function Swap(s: seq<HeapTimer>, i: nat, j: nat): (r: seq<HeapTimer>)
    requires i < |s| && j < |s|
  {
    s[i := s[j]][j := s[i]]
  }

  /** Heap order between every node from `k` on and its children. */
  ghost predicate HeapFrom(s: seq<HeapTimer>, k: nat) {
    forall j {:trigger Parent(j)} | 0 < j < |s| && k <= Parent(j) :: s[Parent(j)].expire <= s[j].expire
  }

  ghost predicate IsHeap(s: seq<HeapTimer>) {
    HeapFrom(s, 0)
  }

  function SiftUp(s: seq<HeapTimer>, i: nat): (r: seq<HeapTimer>)
    requires i < |s|
    ensures |r| == |s|
    decreases i
  {
    if i == 0 || s[Parent(i)].expire <= s[i].expire then s else SiftUp(Swap(s, i, Parent(i)), Parent(i))
  }

  function SmallerChild(s: seq<HeapTimer>, i: nat): (c: nat)
    requires 2 * i + 1 < |s|
    ensures c < |s| && c > 0 && Parent(c) == i
  {
    var c := 2 * i + 1;
    if c + 1 < |s| && s[c + 1].expire < s[c].expire then c + 1 else c
  }

  function SiftDown(s: seq<HeapTimer>, i: nat): (r: seq<HeapTimer>)
    requires i < |s|
    ensures |r| == |s|
    decreases |s| - i
  {
    if 2 * i + 1 >= |s| then s
    else
      var c := SmallerChild(s, i);
      if s[c].expire < s[i].expire then SiftDown(Swap(s, i, c), c) else s
  }

  /** Sifts down at every index below `k`, from the highest to 0. */
  function Heapify(s: seq<HeapTimer>, k: nat): (r: seq<HeapTimer>)
    requires k <= |s|
    ensures |r| == |s|
    decreases k
  {
    if k == 0 then s else Heapify(SiftDown(s, k - 1), k - 1)
  }

  function PopMin(s: seq<HeapTimer>): (r: seq<HeapTimer>)
    requires s != []
    ensures |r| == |s| - 1
  {
    if |s| == 1 then [] else SiftDown([s[|s| - 1]] + s[1..|s| - 1], 0)
  }

  /** The timers that are popped while the top is due at `cur`, in that order. */
  function Due(s: seq<HeapTimer>, cur: int): (r: seq<HeapTimer>)
    decreases |s|
  {
    if s == [] || s[0].expire > cur then [] else [s[0]] + Due(PopMin(s), cur)
  }

  /** The heap left when the top is not due any more. */
  function Rest(s: seq<HeapTimer>, cur: int): (r: seq<HeapTimer>)
    decreases |s|
  {
    if s == [] || s[0].expire > cur then s else Rest(PopMin(s), cur)
  }

  /** The timers of `s` whose callback is still set, in order. */
  function Armed(s: seq<HeapTimer>): (timers: seq<HeapTimer>)
    reads s
  {
    if s == [] then []
    else (if s[0].armed then [s[0]] else []) + Armed(s[1..])
  }

  // ----- What heap repair keeps

  lemma SwapPermutes(s: seq<HeapTimer>, i: nat, j: nat)
    requires i < |s| && j < |s|
    ensures multiset(Swap(s, i, j)) == multiset(s)
  {
    assert s[i := s[j]][j := s[i]] == Swap(s, i, j);
  }

  lemma {:induction false} SiftUpPermutes(s: seq<HeapTimer>, i: nat)
    requires i < |s|
    ensures multiset(SiftUp(s, i)) == multiset(s)
    decreases i
  {
    if i > 0 && s[Parent(i)].expire > s[i].expire {
      SwapPermutes(s, i, Parent(i));
      SiftUpPermutes(Swap(s, i, Parent(i)), Parent(i));
    }
  }

  lemma {:induction false} SiftDownPermutes(s: seq<HeapTimer>, i: nat)
    requires i < |s|
    ensures multiset(SiftDown(s, i)) == multiset(s)
    decreases |s| - i
  {
    if 2 * i + 1 < |s| && s[SmallerChild(s, i)].expire < s[i].expire {
      SwapPermutes(s, i, SmallerChild(s, i));
      SiftDownPermutes(Swap(s, i, SmallerChild(s, i)), SmallerChild(s, i));
    }
  }

  /** Heap order everywhere except possibly between `i` and its parent. */
  ghost predicate HeapBelow(s: seq<HeapTimer>, i: nat) {
    && (forall j {:trigger Parent(j)} | 0 < j < |s| && j != i :: s[Parent(j)].expire <= s[j].expire)
    && (0 < i < |s| ==>
          forall j {:trigger Parent(j)} | 0 < j < |s| && Parent(j) == i :: s[Parent(i)].expire <= s[j].expire)
  }

  lemma {:induction false} SiftUpRestores(s: seq<HeapTimer>, i: nat)
    requires i < |s| && HeapBelow(s, i)
    ensures IsHeap(SiftUp(s, i))
    decreases i
  {
    if i > 0 && s[Parent(i)].expire > s[i].expire {
      SiftUpRestores(Swap(s, i, Parent(i)), Parent(i));
    }
  }

  /** Inserting keeps the heap order and adds exactly the new timer. */
  lemma InsertKeepsHeap(s: seq<HeapTimer>, t: HeapTimer)
    requires IsHeap(s)
    ensures IsHeap(SiftUp(s + [t], |s|))
    ensures multiset(SiftUp(s + [t], |s|)) == multiset(s) + multiset{t}
  {
    var a := s + [t];
    forall j {:trigger Parent(j)} | 0 < j < |a| && j != |s|
      ensures a[Parent(j)].expire <= a[j].expire
    {
      assert a[Parent(j)] == s[Parent(j)] && a[j] == s[j];
    }
    SiftUpRestores(a, |s|);
    SiftUpPermutes(a, |s|);
  }

  /** Heap order from `k` on, except possibly between `i` and its children. */
  ghost predicate HeapExcept(s: seq<HeapTimer>, k: nat, i: nat) {
    && (forall j {:trigger Parent(j)} | 0 < j < |s| && k <= Parent(j) && Parent(j) != i ::
          s[Parent(j)].expire <= s[j].expire)
    && (i > 0 && k <= Parent(i) && i < |s| ==>
          forall j {:trigger Parent(j)} | 0 < j < |s| && Parent(j) == i :: s[Parent(i)].expire <= s[j].expire)
  }

  lemma {:induction false} SiftDownRestores(s: seq<HeapTimer>, k: nat, i: nat)
    requires k <= i < |s| && HeapExcept(s, k, i)
    ensures HeapFrom(SiftDown(s, i), k)
    decreases |s| - i
  {
    if 2 * i + 1 < |s| {
      var c := SmallerChild(s, i);
      assert forall j {:trigger Parent(j)} | 0 < j < |s| && Parent(j) == i :: s[c].expire <= s[j].expire;
      if s[c].expire < s[i].expire {
        SiftDownRestores(Swap(s, i, c), k, c);
      }
    }
  }

  lemma {:induction false} HeapifyBuildsHeap(s: seq<HeapTimer>, k: nat)
    requires k <= |s| && HeapFrom(s, k)
    ensures IsHeap(Heapify(s, k))
    ensures multiset(Heapify(s, k)) == multiset(s)
    decreases k
  {
    if k > 0 {
      SiftDownRestores(s, k - 1, k - 1);
      SiftDownPermutes(s, k - 1);
      HeapifyBuildsHeap(SiftDown(s, k - 1), k - 1);
    }
  }

  /** Sifting down at every inner node, from the last to the root, turns any sequence into a heap. */
  lemma InnerNodesSuffice(s: seq<HeapTimer>)
    requires s != []
    ensures IsHeap(Heapify(s, (|s| - 1) / 2 + 1))
    ensures multiset(Heapify(s, (|s| - 1) / 2 + 1)) == multiset(s)
  {
    HeapifyBuildsHeap(s, (|s| - 1) / 2 + 1);
  }

  lemma {:induction false} TopIsMinimum(s: seq<HeapTimer>, i: nat)
    requires IsHeap(s) && i < |s|
    ensures s[0].expire <= s[i].expire
  {
    if i > 0 {
      TopIsMinimum(s, Parent(i));
    }
  }

  lemma TopIsMinimumOfAll(s: seq<HeapTimer>)
    requires IsHeap(s) && s != []
    ensures forall t | t in s :: s[0].expire <= t.expire
  {
    forall i | 0 <= i < |s| ensures s[0].expire <= s[i].expire {
      TopIsMinimum(s, i);
    }
  }

  lemma PopMinPermutes(s: seq<HeapTimer>)
    requires s != []
    ensures multiset(PopMin(s)) + multiset{s[0]} == multiset(s)
  {
    if |s| > 1 {
      var last := |s| - 1;
      assert s == [s[0]] + s[1..last] + [s[last]];
      SiftDownPermutes([s[last]] + s[1..last], 0);
    } else {
      assert s == [s[0]];
    }
  }

  lemma PopMinKeepsHeap(s: seq<HeapTimer>)
    requires IsHeap(s) && s != []
    ensures IsHeap(PopMin(s))
  {
    if |s| > 1 {
      var last := |s| - 1;
      var m := [s[last]] + s[1..last];
      forall j {:trigger Parent(j)} | 0 < j < |m| && Parent(j) != 0
        ensures m[Parent(j)].expire <= m[j].expire
      {
        assert m[Parent(j)] == s[Parent(j)] && m[j] == s[j];
      }
      SiftDownRestores(m, 0, 0);
    }
  }

  ghost predicate InDeadlineOrder(s: seq<HeapTimer>) {
    forall i, j | 0 <= i < j < |s| :: s[i].expire <= s[j].expire
  }

  /** Draining loses no timer and invents none. */
  lemma {:induction false} DrainPermutes(s: seq<HeapTimer>, cur: int)
    ensures multiset(Due(s, cur)) + multiset(Rest(s, cur)) == multiset(s)
    decreases |s|
  {
    if s != [] && s[0].expire <= cur {
      PopMinPermutes(s);
      DrainPermutes(PopMin(s), cur);
    }
  }

  /** Draining a heap leaves a heap, and it separates the due timers from the others. */
  lemma {:induction false} DrainSeparates(s: seq<HeapTimer>, cur: int)
    requires IsHeap(s)
    ensures IsHeap(Rest(s, cur))
    ensures forall t | t in Due(s, cur) :: t.expire <= cur
    ensures forall t | t in Rest(s, cur) :: cur < t.expire
    decreases |s|
  {
    if s != [] {
      TopIsMinimumOfAll(s);
      if s[0].expire <= cur {
        PopMinKeepsHeap(s);
        DrainSeparates(PopMin(s), cur);
      }
    }
  }

  /** The due timers leave a heap in deadline order. */
  lemma {:induction false} DueInDeadlineOrder(s: seq<HeapTimer>, cur: int)
    requires IsHeap(s)
    ensures InDeadlineOrder(Due(s, cur))
    decreases |s|
  {
    if s != [] && s[0].expire <= cur {
      var p := PopMin(s);
      PopMinKeepsHeap(s);
      DueInDeadlineOrder(p, cur);
      TopIsMinimumOfAll(s);
      PopMinPermutes(s);
      DrainPermutes(p, cur);
      forall t | t in Due(p, cur) ensures t in s {
        assert t in multiset(Due(p, cur)) + multiset(Rest(p, cur)) + multiset{s[0]};
      }
    }
  }

  lemma {:induction false} ArmedCounts(s: seq<HeapTimer>, t: HeapTimer)
    ensures multiset(Armed(s))[t] == if t.armed then multiset(s)[t] else 0
  {
    if s != [] {
      ArmedCounts(s[1..], t);
      assert s == [s[0]] + s[1..];
    }
  }

  lemma {:induction false} ArmedKeepsOrder(s: seq<HeapTimer>)
    requires InDeadlineOrder(s)
    ensures InDeadlineOrder(Armed(s))
  {
    if s != [] {
      ArmedKeepsOrder(s[1..]);
      forall u | u in Armed(s[1..]) ensures s[0].expire <= u.expire {
        ArmedCounts(s[1..], u);
        assert u in multiset(Armed(s[1..])) && u in multiset(s[1..]);
      }
    }
  }

  lemma {:induction false} ArmedAppend(s: seq<HeapTimer>, t: HeapTimer)
    ensures Armed(s + [t]) == Armed(s) + (if t.armed then [t] else [])
  {
    if s != [] {
      ArmedAppend(s[1..], t);
      assert (s + [t])[1..] == s[1..] + [t];
    }
  }

  /** What draining a heap and running the callbacks that are still set means for each single timer. */
  lemma DrainedTimers(s: seq<HeapTimer>, cur: int)
    requires IsHeap(s)
    ensures InDeadlineOrder(Armed(Due(s, cur)))
    ensures forall t: HeapTimer ::
              multiset(Armed(Due(s, cur)))[t] == if t.armed && t.expire <= cur then multiset(s)[t] else 0
    ensures forall t: HeapTimer :: multiset(Rest(s, cur))[t] == if cur < t.expire then multiset(s)[t] else 0
  {
    DrainPermutes(s, cur);
    DrainSeparates(s, cur);
    DueInDeadlineOrder(s, cur);
    var due: seq<HeapTimer>, rest: seq<HeapTimer> := Due(s, cur), Rest(s, cur);
    ArmedKeepsOrder(due);
    forall t: HeapTimer
      ensures multiset(Armed(due))[t] == if t.armed && t.expire <= cur then multiset(s)[t] else 0
      ensures multiset(rest)[t] == if cur < t.expire then multiset(s)[t] else 0
    {
      ArmedCounts(due, t);
      assert multiset(s)[t] == multiset(due)[t] + multiset(rest)[t];
      assert t in multiset(due) <==> t in due;
      assert t in multiset(rest) <==> t in rest;
    }
  }

  lemma DrainStep(s: seq<HeapTimer>, cur: int, popped: seq<HeapTimer>)
    requires s != [] && s[0].expire <= cur
    ensures popped + Due(s, cur) == (popped + [s[0]]) + Due(PopMin(s), cur)
    ensures Rest(s, cur) == Rest(PopMin(s), cur)
  {
  }

  // ----- The array implementation: heap repair by moving a hole

  class TimeHeap {
    var arr: array<HeapTimer?>
    var capacity: nat
    var size: nat
    /** The timers stored in `arr[..size]`. */
    ghost var elems: seq<HeapTimer>

    ghost predicate Stored()
      reads this, arr
    {
      && arr.Length == capacity
      && size == |elems| <= capacity
      && (forall i | 0 <= i < size :: arr[i] == elems[i])
    }

    ghost predicate Valid()
      reads this, arr
    {
      Stored() && IsHeap(elems)
    }

    constructor (cap: nat)
      ensures Valid() && fresh(arr) && elems == [] && capacity == cap
    {
      arr := new HeapTimer?[cap](_ => null);
      capacity, size := cap, 0;
      elems := [];
    }

    /** The constructor from an array; null stands for the exception when the capacity is too small. */
    static method FromArray(init: array<HeapTimer>, cap: nat) returns (h: TimeHeap?)
      ensures h == null <==> cap < init.Length
      ensures h != null ==> fresh(h) && fresh(h.arr) && h.Valid() && h.capacity == cap
      ensures h != null ==> multiset(h.elems) == multiset(init[..])
    {
      if cap < init.Length {
        return null;
      }
      h := new TimeHeap(cap);
      if init.Length != 0 {
        h.Fill(init);
        h.Build();
      }
    }

    /** The array is `s`, but for the hole at `h`. */
    ghost predicate StoredBut(s: seq<HeapTimer>, h: nat)
      reads this, arr
    {
      && arr.Length == capacity && size == |s| <= capacity
      && (forall j | 0 <= j < size && j != h :: arr[j] == s[j])
    }

    /** The child with the earlier deadline, the left one on a tie. */
    method EarlierChild(h: nat, ghost s: seq<HeapTimer>) returns (child: nat)
      requires StoredBut(s, h) && h * 2 + 1 <= size - 1
      ensures h < child < size && child == SmallerChild(s, h)
    {
      child := h * 2 + 1;
      if child < size - 1 && arr[child + 1].expire < arr[child].expire {
        child := child + 1;
      }
    }

    /** Moves a hole down from `hole`; the effect is that of swapping down. */
    method PercolateDown(hole: nat)
      requires Stored() && hole < capacity && arr[hole] != null
      modifies this`elems, arr
      ensures Stored()
      ensures elems == if hole < size then SiftDown(old(elems), hole) else old(elems)
    {
      var temp := arr[hole];
      var h := hole;
      ghost var s := elems;
      while h * 2 + 1 <= size - 1
        invariant hole <= h < capacity && StoredBut(s, h)
        invariant hole < size ==> h < size && s[h] == temp && SiftDown(s, h) == SiftDown(old(elems), hole)
        invariant hole >= size ==> h == hole && s == elems
        modifies arr
        decreases size - h
      {
        var child := EarlierChild(h, s);
        if arr[child].expire < temp.expire {
          arr[h] := arr[child];
          s := Swap(s, h, child);
          h := child;
        } else {
          break;
        }
      }
      arr[h] := temp;
      elems := s;
    }

    /** Sifts down at every inner node, from the last to the root. */
    method Build()
      requires Stored() && size > 0
      modifies this, arr
      ensures Valid() && arr == old(arr) && capacity == old(capacity)
      ensures multiset(elems) == multiset(old(elems))
    {
      var i := (size - 1) / 2;
      while i >= 0
        invariant -1 <= i < size == |old(elems)|
        invariant Stored() && arr == old(arr) && capacity == old(capacity)
        invariant Heapify(elems, i + 1) == Heapify(old(elems), (|old(elems)| - 1) / 2 + 1)
      {
        PercolateDown(i);
        i := i - 1;
      }
      InnerNodesSuffice(old(elems));
    }

    method Fill(init: array<HeapTimer>)
      requires Stored() && size == 0 && init.Length <= capacity
      modifies this, arr
      ensures Stored() && arr == old(arr) && capacity == old(capacity) && elems == init[..]
    {
      var i := 0;
      while i < init.Length
        invariant 0 <= i <= init.Length
        invariant arr == old(arr) && arr.Length == capacity == old(capacity)
        invariant init[..] == old(init[..])
        invariant forall j | 0 <= j < i :: arr[j] == init[j]
      {
        arr[i] := init[i];
        i := i + 1;
      }
      size := init.Length;
      elems := init[..];
    }

    method Resize()
      requires Stored() && capacity > 0
      modifies this
      ensures Stored() && fresh(arr) && elems == old(elems) && size == old(size)
      ensures capacity == 2 * old(capacity)
    {
      var temp := new HeapTimer?[2 * capacity](_ => null);
      capacity := 2 * capacity;
      var i := 0;
      while i < size
        invariant 0 <= i <= size == |elems| <= arr.Length < temp.Length
        invariant forall j | 0 <= j < i :: temp[j] == elems[j]
        invariant forall j | 0 <= j < size :: arr[j] == elems[j]
        modifies temp
      {
        temp[i] := arr[i];
        i := i + 1;
      }
      arr := temp;
    }

    /** The loop of `add_timer`: moves a hole up from the end until `timer` fits. */
    method PercolateUp(timer: HeapTimer)
      requires Stored() && size < capacity
      modifies this`size, this`elems, arr
      ensures Stored() && elems == SiftUp(old(elems) + [timer], |old(elems)|)
    {
      var hole := size;
      size := size + 1;
      ghost var s: seq<HeapTimer> := elems + [timer];
      while hole > 0
        invariant 0 <= hole < size && StoredBut(s, hole) && s[hole] == timer
        invariant SiftUp(s, hole) == SiftUp(old(elems) + [timer], |old(elems)|)
        modifies arr
      {
        var parent := (hole - 1) / 2;
        if arr[parent].expire <= timer.expire {
          break;
        }
        arr[hole] := arr[parent];
        s := Swap(s, hole, parent);
        hole := parent;
      }
      arr[hole] := timer;
      elems := s;
    }

    /** The effect is that of appending and swapping up. A capacity of 0 stays 0 when it doubles. */
    method AddTimer(timer: HeapTimer?)
      requires Valid() && (timer != null ==> capacity > 0)
      modifies this, arr
      ensures Valid() && (arr == old(arr) || fresh(arr)) && capacity >= old(capacity)
      ensures timer == null ==> elems == old(elems)
      ensures timer != null ==> elems == SiftUp(old(elems) + [timer], |old(elems)|)
      ensures timer != null ==> multiset(elems) == multiset(old(elems)) + multiset{timer}
    {
      if timer == null {
        return;
      }
      if size >= capacity {
        Resize();
      }
      PercolateUp(timer);
      InsertKeepsHeap(old(elems), timer);
    }

    /** Lazy deletion: the timer stays in the heap without its callback. */
    method DelTimer(timer: HeapTimer?)
      requires Valid()
      modifies (if timer == null then {} else {timer})`armed
      ensures Valid() && elems == old(elems)
      ensures timer != null ==> !timer.armed
    {
      if timer == null {
        return;
      }
      timer.armed := false;
    }

    method Top() returns (t: HeapTimer?)
      requires Valid()
      ensures t == null <==> elems == []
      ensures t != null ==> t in elems && forall u | u in elems :: t.expire <= u.expire
    {
      if size == 0 {
        return null;
      }
      TopIsMinimumOfAll(elems);
      return arr[0];
    }

    method PopTimer()
      requires Valid()
      modifies this, arr
      ensures Valid() && arr == old(arr)
      ensures elems == if old(elems) == [] then [] else PopMin(old(elems))
    {
      if size == 0 {
        return;
      }
      if arr[0] != null {
        size := size - 1;
        arr[0] := arr[size];
        elems := if size == 0 then [] else [elems[size]] + elems[1..size];
        PercolateDown(0);
        assert elems == PopMin(old(elems));
        PopMinKeepsHeap(old(elems));
      }
    }

    /** The body of the loop of `tick`: run the callback of the top timer, if it still has one, and pop it. */
    method FireTop(ghost popped: seq<HeapTimer>, done: seq<HeapTimer>) returns (fired: seq<HeapTimer>)
      requires Valid() && elems != [] && done == Armed(popped)
      modifies this, arr
      ensures Valid() && arr == old(arr) && elems == PopMin(old(elems))
      ensures fired == Armed(popped + [old(elems)[0]])
    {
      ArmedAppend(popped, elems[0]);
      fired := done;
      if arr[0].armed {
        fired := fired + [arr[0]];
      }
      PopTimer();
    }

    /** The loop of `tick`, and the access to `array[0]` before it. */
    method DrainDue(cur: int) returns (fired: seq<HeapTimer>)
      requires Valid() && capacity > 0
      modifies this, arr
      ensures Valid() && arr == old(arr)
      ensures fired == Armed(Due(old(elems), cur)) && elems == Rest(old(elems), cur)
    {
      fired := [];
      ghost var popped: seq<HeapTimer> := [];
      var tmp := arr[0];
      while size != 0
        invariant Valid() && arr == old(arr)
        invariant size != 0 ==> tmp == arr[0]
        invariant popped + Due(elems, cur) == Due(old(elems), cur) && fired == Armed(popped)
        invariant Rest(elems, cur) == Rest(old(elems), cur)
        decreases size
      {
        if tmp == null || tmp.expire > cur {
          break;
        }
        DrainStep(elems, cur, popped);
        ghost var top := elems[0];
        fired := FireTop(popped, fired);
        popped := popped + [top];
        tmp := arr[0];
      }
      assert popped + Due(elems, cur) == popped;
    }

    /**
     * Runs the callbacks of exactly the due timers that were not deleted, in deadline order, drops the deleted
     * ones that are due, and keeps exactly the timers that are not due. `fired` records the callbacks.
     */
    method Tick(cur: int) returns (fired: seq<HeapTimer>)
      requires Valid() && capacity > 0
      modifies this, arr
      ensures Valid() && arr == old(arr)
      ensures forall t: HeapTimer ::
                multiset(fired)[t] == if t.armed && t.expire <= cur then multiset(old(elems))[t] else 0
      ensures InDeadlineOrder(fired)
      ensures forall t: HeapTimer :: multiset(elems)[t] == if cur < t.expire then multiset(old(elems))[t] else 0
    {
      fired := DrainDue(cur);
      DrainedTimers(old(elems), cur);
    }
  }
}
