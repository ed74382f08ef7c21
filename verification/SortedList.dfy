/** The sorted doubly linked timer list of `lst_timer.h`: a list ordered by deadline, relinked in place. */
module SortedList {
  import opened Sequences

  /** `util_timer`. The callback and its argument are represented by `user`, the value handed to the callback. */
  class UtilTimer {
    var expire: int
    const user: int
    var prev: UtilTimer?
    var next: UtilTimer?

    constructor (user: int, expire: int)
      ensures this.user == user && this.expire == expire && prev == null && next == null
    {
      this.user, this.expire := user, expire;
      prev, next := null, null;
    }
  }

  /** Deadlines never decrease from front to back. */
  ghost predicate SortedNodes(s: seq<UtilTimer>)
    reads s`expire
  {
    forall i, j | 0 <= i < j < |s| :: s[i].expire <= s[j].expire
  }

  /** The node at index `i`, or null outside the list. */
  ghost function NodeAt(s: seq<UtilTimer>, i: int): (node: UtilTimer?) {
    if 0 <= i < |s| then s[i] else null
  }

  ghost function InsertAt(s: seq<UtilTimer>, k: nat, t: UtilTimer): (nodes: seq<UtilTimer>)
    requires k <= |s|
  {
    s[..k] + [t] + s[k..]
  }

  /** `k` is the place for deadline `e`: behind every deadline up to and including `e`, before every later one. */
  ghost predicate IsPlace(s: seq<UtilTimer>, e: int, k: nat)
    reads s`expire
  {
    && k <= |s|
    && (forall i | 0 <= i < k :: s[i].expire <= e)
    && (forall i | k <= i < |s| :: e < s[i].expire)
  }

  /** A walk from index `p` stops at `k`, the first later index with a deadline after `e`. */
  ghost predicate StopsAt(s: seq<UtilTimer>, p: nat, e: int, k: nat)
    reads s`expire
  {
    && p < k <= |s|
    && (forall i | p < i < k :: s[i].expire <= e)
    && (k < |s| ==> e < s[k].expire)
  }

  lemma InsertKeepsOrder(s: seq<UtilTimer>, k: nat, t: UtilTimer)
    requires SortedNodes(s) && IsPlace(s, t.expire, k)
    ensures SortedNodes(InsertAt(s, k, t))
  {
  }

  /** Comparing with the head and then with the nodes passed on the way finds the place of the timer. */
  lemma PlaceFound(s: seq<UtilTimer>, k: nat, t: UtilTimer)
    requires SortedNodes(s) && s != []
    requires if t.expire < s[0].expire then k == 0 else StopsAt(s, 0, t.expire, k)
    ensures IsPlace(s, t.expire, k) && SortedNodes(InsertAt(s, k, t))
  {
    assert forall i | k <= i < |s| :: s[k].expire <= s[i].expire;
    InsertKeepsOrder(s, k, t);
  }

  lemma WithoutKeepsOrder(s: seq<UtilTimer>, k: nat)
    requires k < |s| && SortedNodes(s)
    ensures SortedNodes(Without(s, k))
  {
  }

  /** A node that stays where it is breaks the order exactly when its deadline is before its predecessor's. */
  lemma StayingKeepsOrder(s: seq<UtilTimer>, k: nat)
    requires k < |s| && SortedNodes(Without(s, k))
    requires k + 1 < |s| ==> s[k].expire < s[k + 1].expire
    ensures SortedNodes(s) <==> k == 0 || s[k - 1].expire <= s[k].expire
  {
    var rest := Without(s, k);
    if k == 0 || s[k - 1].expire <= s[k].expire {
      forall i, j | 0 <= i < j < |s|
        ensures s[i].expire <= s[j].expire
      {
        if i != k && j != k {
          assert s[i] == rest[if i < k then i else i - 1] && s[j] == rest[if j < k then j else j - 1];
        } else if j == k {
          assert s[i] == rest[i] && s[k - 1] == rest[k - 1];
        } else {
          assert s[k + 1] == rest[k] && s[j] == rest[j - 1];
        }
      }
    }
  }

  /** A node moved behind every deadline up to its own leaves an ordered list, which its predecessor shows. */
  lemma MovingKeepsOrder(s: seq<UtilTimer>, k: nat, k': nat, t: UtilTimer)
    requires k + 1 < |s| && s[k] == t && SortedNodes(Without(s, k))
    requires s[k + 1].expire <= t.expire && StopsAt(Without(s, k), k, t.expire, k')
    ensures SortedNodes(InsertAt(Without(s, k), k', t))
    ensures k == 0 || s[k - 1].expire <= t.expire
  {
    var rest := Without(s, k);
    assert rest[k] == s[k + 1];
    assert k > 0 ==> rest[k - 1] == s[k - 1];
    InsertKeepsOrder(rest, k', t);
  }

  lemma ReinsertSame(s: seq<UtilTimer>, k: nat)
    requires k < |s|
    ensures InsertAt(Without(s, k), k, s[k]) == s
  {
  }

  /** Staying in place or moving, the adjusted list is ordered exactly when the predecessor is not later. */
  lemma AdjustedOrder(s: seq<UtilTimer>, k: nat, k': nat, t: UtilTimer)
    requires k < |s| && s[k] == t && SortedNodes(Without(s, k))
    requires if k + 1 == |s| || t.expire < s[k + 1].expire then k' == k else StopsAt(Without(s, k), k, t.expire, k')
    ensures k' < |s| && (SortedNodes(InsertAt(Without(s, k), k', t)) <==> k == 0 || s[k - 1].expire <= t.expire)
  {
    if k' == k {
      ReinsertSame(s, k);
      StayingKeepsOrder(s, k);
    } else {
      MovingKeepsOrder(s, k, k', t);
    }
  }

  lemma SuffixKeepsOrder(s: seq<UtilTimer>, k: nat)
    requires k <= |s| && SortedNodes(s)
    ensures SortedNodes(s[k..])
    ensures k < |s| ==> forall t | t in s[k..] :: s[k].expire <= t.expire
  {
  }

  class SortTimerLst {
    var head: UtilTimer?
    var tail: UtilTimer?
    ghost var nodes: seq<UtilTimer>

    /** Well-formed acyclic double links over `nodes`; `tail` is meaningful only when the list is not empty. */
    ghost predicate Linked()
      reads this, nodes
    {
      && Distinct(nodes)
      && head == (if nodes == [] then null else nodes[0])
      && (nodes != [] ==> tail == nodes[|nodes| - 1])
      && (forall i {:trigger nodes[i].next} | 0 <= i < |nodes| :: nodes[i].next == NodeAt(nodes, i + 1))
      && (forall i {:trigger nodes[i].prev} | 0 <= i < |nodes| :: nodes[i].prev == NodeAt(nodes, i - 1))
    }

    ghost predicate Valid()
      reads this, nodes
    {
      Linked() && SortedNodes(nodes)
    }

    constructor ()
      ensures Valid() && nodes == []
    {
      head, tail := null, null;
      nodes := [];
    }

    /** Writes the four links that put `timer` between two neighbours. */
    method LinkBetween(timer: UtilTimer, before: UtilTimer, after: UtilTimer, ghost k: nat)
      requires Linked() && timer !in nodes
      requires 0 < k < |nodes| && nodes[k - 1] == before && nodes[k] == after
      modifies this, nodes`prev, nodes`next, timer`prev, timer`next
      ensures nodes == InsertAt(old(nodes), k, timer) && Linked()
    {
      before.next := timer;
      timer.next := after;
      after.prev := timer;
      timer.prev := before;
      nodes := InsertAt(nodes, k, timer);
    }

    /** Writes the links that put `timer` in front of the head. */
    method LinkFirst(timer: UtilTimer)
      requires Linked() && timer !in nodes && nodes != [] && timer.prev == null
      modifies this, nodes`prev, nodes`next, timer`prev, timer`next
      ensures nodes == InsertAt(old(nodes), 0, timer) && Linked()
    {
      timer.next := head;
      head.prev := timer;
      head := timer;
      nodes := InsertAt(nodes, 0, timer);
    }

    /** Writes the links that put `timer` behind the last node. */
    method LinkLast(timer: UtilTimer, before: UtilTimer)
      requires Linked() && timer !in nodes
      requires nodes != [] && nodes[|nodes| - 1] == before
      modifies this, nodes`prev, nodes`next, timer`prev, timer`next
      ensures nodes == old(nodes) + [timer] && Linked()
    {
      before.next := timer;
      timer.prev := before;
      timer.next := null;
      tail := timer;
      nodes := nodes + [timer];
    }

    /** The private overload: walk from `from` (at index `p`) and link `timer` before the first later deadline. */
    method InsertAfter(timer: UtilTimer, from: UtilTimer, ghost p: nat) returns (ghost k: nat)
      requires Linked() && timer !in nodes
      requires p < |nodes| && nodes[p] == from
      modifies this, nodes`prev, nodes`next, timer`prev, timer`next
      ensures StopsAt(old(nodes), p, timer.expire, k) && nodes == InsertAt(old(nodes), k, timer)
      ensures Linked()
    {
      var prev := from;
      var tmp := prev.next;
      k := p + 1;
      while tmp != null
        invariant p < k <= |nodes|
        invariant prev == nodes[k - 1] && tmp == if k < |nodes| then nodes[k] else null
        invariant forall i | p < i < k :: nodes[i].expire <= timer.expire
        invariant Linked() && nodes == old(nodes)
        decreases |nodes| - k
      {
        if timer.expire < tmp.expire {
          LinkBetween(timer, prev, tmp, k);
          return;
        }
        prev := tmp;
        tmp := tmp.next;
        k := k + 1;
      }
      LinkLast(timer, prev);
    }

    /** The part of `add_timer` for a list that is not empty. */
    method AddToNonEmpty(timer: UtilTimer) returns (ghost k: nat)
      requires Valid() && nodes != []
      requires timer !in nodes && timer.prev == null
      modifies this, nodes`prev, nodes`next, timer`prev, timer`next
      ensures Valid() && k <= |old(nodes)| && nodes == InsertAt(old(nodes), k, timer)
      ensures IsPlace(old(nodes), timer.expire, k)
    {
      k := 0;
      if timer.expire < head.expire {
        LinkFirst(timer);
      } else {
        k := InsertAfter(timer, head, 0);
      }
      PlaceFound(old(nodes), k, timer);
    }

    method AddTimer(timer: UtilTimer?) returns (ghost k: nat)
      requires Valid()
      requires timer != null ==> timer !in nodes && timer.prev == null && timer.next == null
      modifies this, nodes`prev, nodes`next
      modifies (if timer == null then {} else {timer})`prev, (if timer == null then {} else {timer})`next
      ensures Valid()
      ensures timer == null ==> nodes == old(nodes)
      ensures timer != null ==> k <= |old(nodes)| && nodes == InsertAt(old(nodes), k, timer)
      ensures timer != null ==> IsPlace(old(nodes), timer.expire, k)
    {
      k := 0;
      if timer == null {
        return;
      }
      if head == null {
        head, tail := timer, timer;
        nodes := [timer];
        return;
      }
      k := AddToNonEmpty(timer);
    }

    /** Takes the node at index `k` out of the links when it has two neighbours. */
    method UnlinkInner(timer: UtilTimer, ghost k: nat)
      requires Linked() && 0 < k < |nodes| - 1 && nodes[k] == timer
      modifies this, nodes`prev, nodes`next
      ensures Linked() && nodes == Without(old(nodes), k)
      ensures timer.prev == old(timer.prev) && timer.next == old(timer.next)
    {
      timer.prev.next := timer.next;
      timer.next.prev := timer.prev;
      nodes := Without(nodes, k);
    }

    /** Moves the head to its successor, if any, which then has no predecessor. */
    method DropHead()
      requires Linked() && nodes != []
      modifies this, nodes`prev, nodes`next
      ensures Linked() && nodes == old(nodes)[1..]
    {
      head := head.next;
      if head != null {
        head.prev := null;
      }
      nodes := nodes[1..];
    }

    /** Moves the tail to its predecessor, which then has no successor. */
    method DropTail()
      requires Linked() && |nodes| > 1
      modifies this, nodes`prev, nodes`next
      ensures Linked() && nodes == old(nodes)[..|old(nodes)| - 1]
    {
      tail := tail.prev;
      tail.next := null;
      nodes := nodes[..|nodes| - 1];
    }

    /** The relinking of `del_timer`: one case for each position the timer can have. */
    method Unlink(timer: UtilTimer, ghost k: nat)
      requires Linked() && k < |nodes| && nodes[k] == timer
      modifies this, nodes`prev, nodes`next
      ensures Linked() && nodes == Without(old(nodes), k)
    {
      if timer == head && timer == tail {
        assert k == 0 == |nodes| - 1;
        head, tail := null, null;
        nodes := [];
      } else if timer == head {
        assert k == 0;
        DropHead();
      } else if timer == tail {
        assert k == |nodes| - 1;
        DropTail();
      } else {
        UnlinkInner(timer, k);
      }
    }

    method DelTimer(timer: UtilTimer?, ghost k: nat)
      requires Valid()
      requires timer != null ==> k < |nodes| && nodes[k] == timer
      modifies this, nodes`prev, nodes`next
      ensures Valid()
      ensures nodes == if timer == null then old(nodes) else Without(old(nodes), k)
    {
      if timer == null {
        return;
      }
      Unlink(timer, k);
      WithoutKeepsOrder(old(nodes), k);
    }

    /** The relinking of `adjust_timer`: moves the timer behind every deadline up to its own. */
    method Relink(timer: UtilTimer, ghost k: nat) returns (ghost k': nat)
      requires Linked() && k + 1 < |nodes| && nodes[k] == timer
      requires nodes[k + 1].expire <= timer.expire
      modifies this, nodes`prev, nodes`next
      ensures Linked()
      ensures StopsAt(Without(old(nodes), k), k, timer.expire, k')
      ensures nodes == InsertAt(Without(old(nodes), k), k', timer)
    {
      if timer == head {
        DropHead();
        timer.next := null;
        k' := InsertAfter(timer, head, 0);
      } else {
        UnlinkInner(timer, k);
        k' := InsertAfter(timer, timer.next, k);
      }
    }

    /** The timer stays when it is the last one or its deadline is before that of its successor. */
    method Reposition(timer: UtilTimer, ghost k: nat) returns (ghost k': nat)
      requires Linked() && k < |nodes| && nodes[k] == timer
      modifies this, nodes`prev, nodes`next
      ensures Linked() && |nodes| == |old(nodes)| && k <= k' < |nodes|
      ensures if k + 1 == |nodes| || timer.expire < old(nodes)[k + 1].expire then k' == k
              else StopsAt(Without(old(nodes), k), k, timer.expire, k')
      ensures nodes == InsertAt(Without(old(nodes), k), k', timer)
    {
      k' := k;
      var tmp := timer.next;
      if tmp == null || timer.expire < tmp.expire {
        ReinsertSame(nodes, k);
      } else {
        k' := Relink(timer, k);
      }
    }

    /**
     * Called after the caller has changed the deadline of `timer` alone. The list keeps its nodes, and it is
     * sorted again exactly when the new deadline is not before that of the predecessor; in particular
     * whenever the deadline did not decrease.
     */
    method AdjustTimer(timer: UtilTimer?, ghost k: nat) returns (ghost k': nat)
      requires Linked()
      requires timer == null ==> SortedNodes(nodes)
      requires timer != null ==> k < |nodes| && nodes[k] == timer && SortedNodes(Without(nodes, k))
      modifies this, nodes`prev, nodes`next
      ensures Linked()
      ensures timer == null ==> nodes == old(nodes)
      ensures timer != null ==> k <= k' < |old(nodes)| && nodes == InsertAt(Without(old(nodes), k), k', timer)
      ensures timer != null ==> (SortedNodes(nodes) <==> k == 0 || old(nodes)[k - 1].expire <= timer.expire)
    {
      k' := k;
      if timer == null {
        return;
      }
      k' := Reposition(timer, k);
      AdjustedOrder(old(nodes), k, k', timer);
    }

    /** The loop of `tick`: takes nodes off the front while they are due. */
    method FireFront(cur: int) returns (fired: seq<UtilTimer>)
      requires Linked()
      modifies this, nodes`prev, nodes`next
      ensures Linked()
      ensures |fired| <= |old(nodes)| && fired == old(nodes)[..|fired|] && nodes == old(nodes)[|fired|..]
      ensures forall i | 0 <= i < |fired| :: fired[i].expire <= cur
      ensures nodes != [] ==> cur < nodes[0].expire
    {
      fired := [];
      var tmp := head;
      while tmp != null
        invariant Linked() && tmp == head
        invariant |fired| <= |old(nodes)| && fired == old(nodes)[..|fired|] && nodes == old(nodes)[|fired|..]
        invariant forall i | 0 <= i < |fired| :: fired[i].expire <= cur
        decreases |nodes|
      {
        if cur < tmp.expire {
          break;
        }
        fired := fired + [tmp];
        DropHead();
        tmp := head;
      }
    }

    /** Fires, in list order, exactly the timers with a deadline up to `cur`; `fired` records the callbacks. */
    method Tick(cur: int) returns (fired: seq<UtilTimer>)
      requires Valid()
      modifies this, nodes`prev, nodes`next
      ensures Valid()
      ensures |fired| <= |old(nodes)| && fired == old(nodes)[..|fired|] && nodes == old(nodes)[|fired|..]
      ensures forall t | t in fired :: t.expire <= cur
      ensures forall t | t in nodes :: cur < t.expire
    {
      fired := [];
      if head == null {
        return;
      }
      fired := FireFront(cur);
      SuffixKeepsOrder(old(nodes), |fired|);
    }
  }
}
