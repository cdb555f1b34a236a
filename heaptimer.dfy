/**
 * The indexed binary min-heap of connection timeouts (class HeapTimer). heap is the
 * std::vector<TimerNode> ordered by expiry; ref maps each timer id to the index holding it.
 * Time is an integer number of milliseconds handed in by the caller instead of reading the
 * clock, and running a callback appends the node to the log `fired`.
 */
module Timer {

  /** A callback is identified by a token; only its identity matters to the heap. */
  type Callback = int

  /** TimerNode: the comparison operators of the C++ struct look at `expires` only. */
  datatype TimerNode = TimerNode(id: int, expires: int, cb: Callback)

  /** (i - 1) >> 1 for the positive indices that have a parent. */
  function Parent(i: nat): (p: nat)
    requires i > 0
    ensures p < i && (i == 2 * p + 1 || i == 2 * p + 2)
  {
    (i - 1) / 2
  }

  /** The slot c is no earlier than its parent. */
  ghost predicate OrderedAt(h: seq<TimerNode>, c: nat)
    requires 0 < c < |h|
  {
    h[Parent(c)].expires <= h[c].expires
  }

  ghost predicate HeapOrdered(h: seq<TimerNode>) {
    forall c :: 0 < c < |h| ==> OrderedAt(h, c)
  }

  /** Heap order may fail only between slot k and its parent. */
  ghost predicate HeapOrderedExcept(h: seq<TimerNode>, k: nat) {
    forall c :: 0 < c < |h| && c != k ==> OrderedAt(h, c)
  }

  /** Every parent/child pair that does not involve slot k is ordered. */
  ghost predicate OrderedAwayFrom(h: seq<TimerNode>, k: nat) {
    forall c :: 0 < c < |h| && c != k && Parent(c) != k ==> OrderedAt(h, c)
  }

  /** The parent of slot k is no later than the children of k. */
  ghost predicate BridgeAt(h: seq<TimerNode>, k: nat)
    requires k < |h|
  {
    k > 0 ==> forall c :: 0 < c < |h| && Parent(c) == k ==> h[Parent(k)].expires <= h[c].expires
  }

  /** What shiftup_ needs at slot k: only k may be earlier than its parent. */
  ghost predicate UpReady(h: seq<TimerNode>, k: nat)
    requires k < |h|
  {
    HeapOrderedExcept(h, k) && BridgeAt(h, k)
  }

  /** What shiftdown_ needs at slot k: only the pairs involving k may be out of order. */
  ghost predicate DownReady(h: seq<TimerNode>, k: nat)
    requires k < |h|
  {
    OrderedAwayFrom(h, k) && BridgeAt(h, k)
  }

  /** std::swap of two slots. */
  function Swapped(h: seq<TimerNode>, i: nat, j: nat): (r: seq<TimerNode>)
    requires i < |h| && j < |h|
    ensures |r| == |h|
  {
    h[i := h[j]][j := h[i]]
  }

  /** The node at the root of a heap is due no later than any other node. */
  lemma {:induction false} RootIsEarliest(h: seq<TimerNode>, k: nat)
    requires HeapOrdered(h) && k < |h|
    ensures h[0].expires <= h[k].expires
    decreases k
  {
    if k > 0 {
      RootIsEarliest(h, Parent(k));
      assert OrderedAt(h, k);
    }
  }

  /** One step of shiftup_: swapping an early node with its parent moves the defect up. */
  lemma SiftUpStep(h: seq<TimerNode>, i: nat)
    requires 0 < i < |h| && UpReady(h, i)
    requires h[i].expires < h[Parent(i)].expires
    ensures UpReady(Swapped(h, i, Parent(i)), Parent(i))
  {
    var j := Parent(i);
    var r := Swapped(h, i, j);
    forall c | 0 < c < |r| && c != j
      ensures OrderedAt(r, c)
    {
      if c == i {
      } else if Parent(c) == j {
        assert OrderedAt(h, c);
      } else if Parent(c) == i {
        assert h[Parent(i)].expires <= h[c].expires;
      } else {
        assert OrderedAt(h, c);
      }
    }
    if j > 0 {
      assert OrderedAt(h, j);
      forall c | 0 < c < |r| && Parent(c) == j
        ensures r[Parent(j)].expires <= r[c].expires
      {
        if c != i {
          assert OrderedAt(h, c);
        }
      }
    }
  }

  /** One step of shiftdown_: swapping a late node with its earliest child moves the defect down. */
  lemma SiftDownStep(h: seq<TimerNode>, i: nat, j: nat)
    requires j < |h| && j > 0 && Parent(j) == i && DownReady(h, i)
    requires forall c :: 0 < c < |h| && Parent(c) == i ==> h[j].expires <= h[c].expires
    requires h[j].expires < h[i].expires
    ensures DownReady(Swapped(h, i, j), j) && OrderedAt(Swapped(h, i, j), j)
  {
    var r := Swapped(h, i, j);
    forall c | 0 < c < |r| && c != j && Parent(c) != j
      ensures OrderedAt(r, c)
    {
      if c == i {
        assert h[Parent(i)].expires <= h[j].expires;
      } else if Parent(c) == i {
      } else {
        assert OrderedAt(h, c);
      }
    }
    forall c | 0 < c < |r| && Parent(c) == j
      ensures r[Parent(j)].expires <= r[c].expires
    {
      assert OrderedAt(h, c);
    }
  }

  /** Changing one node's expiry in a heap leaves a state from which shiftdown_ can start. */
  lemma RescheduleReady(h: seq<TimerNode>, k: nat, n: TimerNode)
    requires HeapOrdered(h) && k < |h|
    ensures DownReady(h[k := n], k)
  {
    var r := h[k := n];
    forall c | 0 < c < |r| && c != k && Parent(c) != k
      ensures OrderedAt(r, c)
    {
      assert OrderedAt(h, c);
    }
    if k > 0 {
      forall c | 0 < c < |r| && Parent(c) == k
        ensures r[Parent(k)].expires <= r[c].expires
      {
        assert OrderedAt(h, c);
        assert OrderedAt(h, k);
      }
    }
  }

  /** Moving the last node into slot k and dropping the last slot leaves a shiftdown_ start state. */
  lemma RemoveReady(h: seq<TimerNode>, k: nat)
    requires HeapOrdered(h) && k < |h| - 1
    ensures DownReady(Swapped(h, k, |h| - 1)[..|h| - 1], k)
  {
    var r := Swapped(h, k, |h| - 1)[..|h| - 1];
    forall c | 0 < c < |r| && c != k && Parent(c) != k
      ensures OrderedAt(r, c)
    {
      assert OrderedAt(h, c);
    }
    if k > 0 {
      forall c | 0 < c < |r| && Parent(c) == k
        ensures r[Parent(k)].expires <= r[c].expires
      {
        assert OrderedAt(h, c);
        assert OrderedAt(h, k);
      }
    }
  }

  /** The child j of slot i that shiftdown_ picks is the earlier of the two children. */
  lemma EarliestChild(h: seq<TimerNode>, i: nat, j: nat)
    requires j < |h| && (j == 2 * i + 1 || j == 2 * i + 2)
    requires j == 2 * i + 1 ==> 2 * i + 2 >= |h| || h[j].expires <= h[2 * i + 2].expires
    requires j == 2 * i + 2 ==> h[j].expires <= h[2 * i + 1].expires
    ensures j > 0 && Parent(j) == i
    ensures forall c :: 0 < c < |h| && Parent(c) == i ==> h[j].expires <= h[c].expires
  {
  }

  /**
   * A shiftdown_ that stops at slot k, because k has no children (j == k) or is no later
   * than its earlier child j, leaves shiftup_'s start state at k, and a full heap when k was
   * reached by moving down.
   */
  lemma StopDown(h: seq<TimerNode>, k: nat, j: nat)
    requires k < |h| && DownReady(h, k)
    requires j == k ==> 2 * k + 1 >= |h|
    requires j != k ==> j < |h| && (j == 2 * k + 1 || j == 2 * k + 2) && h[k].expires <= h[j].expires
    requires j == 2 * k + 1 ==> 2 * k + 2 >= |h| || h[j].expires <= h[2 * k + 2].expires
    requires j == 2 * k + 2 ==> h[j].expires <= h[2 * k + 1].expires
    ensures UpReady(h, k)
    ensures k > 0 && OrderedAt(h, k) ==> HeapOrdered(h)
  {
    forall c | 0 < c < |h| && Parent(c) == k
      ensures OrderedAt(h, c)
    {
    }
  }

  /** What shiftup_ does to a heap when started at slot i: swap with the parent while strictly earlier. */
  function ShiftedUp(h: seq<TimerNode>, i: nat): (r: seq<TimerNode>)
    requires i < |h|
    ensures |r| == |h|
    decreases i
  {
    if i == 0 || h[Parent(i)].expires <= h[i].expires then h
    else ShiftedUp(Swapped(h, i, Parent(i)), Parent(i))
  }

  /** One swap of shiftup_: the node at i is earlier than its parent. */
  lemma ShiftedUpSwap(h: seq<TimerNode>, i: nat)
    requires 0 < i < |h| && h[i].expires < h[Parent(i)].expires
    ensures ShiftedUp(h, i) == ShiftedUp(Swapped(h, i, Parent(i)), Parent(i))
  {
  }

  /** shiftup_ from a slot that only may be earlier than its parent ends in a heap. */
  lemma {:induction false} ShiftedUpOrders(h: seq<TimerNode>, i: nat)
    requires i < |h| && UpReady(h, i)
    ensures HeapOrdered(ShiftedUp(h, i))
    decreases i
  {
    if i == 0 {
      assert HeapOrderedExcept(h, 0);
    } else if h[Parent(i)].expires <= h[i].expires {
      assert OrderedAt(h, i);
    } else {
      SiftUpStep(h, i);
      ShiftedUpOrders(Swapped(h, i, Parent(i)), Parent(i));
    }
  }

  /**
   * What shiftdown_ does to a heap when started at slot i: the heap it leaves and the slot
   * where the moved node stops. It swaps with the earlier child (the right one only when
   * strictly earlier) while that child is strictly earlier.
   */
  function ShiftedDown(h: seq<TimerNode>, i: nat): (r: (seq<TimerNode>, nat))
    requires i < |h|
    ensures |r.0| == |h| && i <= r.1 < |h|
    ensures r.1 == i ==> r.0 == h
    ensures 2 * i + 1 >= |h| ==> r.1 == i
    ensures r.0[r.1] == h[i]
    decreases |h| - i
  {
    if 2 * i + 1 >= |h| then (h, i)
    else
      var j := if 2 * i + 2 < |h| && h[2 * i + 2].expires < h[2 * i + 1].expires then 2 * i + 2 else 2 * i + 1;
      if h[i].expires <= h[j].expires then (h, i) else ShiftedDown(Swapped(h, i, j), j)
  }

  /** One swap of shiftdown_: the node at i is later than the child j it picked. */
  lemma ShiftedDownSwap(h: seq<TimerNode>, i: nat, l: nat, j: nat)
    requires l == 2 * i + 1 && l < |h|
    requires if l + 1 < |h| && h[l + 1].expires < h[l].expires then j == l + 1 else j == l
    requires h[j].expires < h[i].expires
    ensures ShiftedDown(h, i) == ShiftedDown(Swapped(h, i, j), j)
  {
  }

  /**
   * shiftdown_ from a slot where only the pairs involving it may be out of order ends in a
   * heap when the node moved (or when its own slot was already ordered against its parent),
   * and in shiftup_'s start state at that slot when it did not move.
   */
  lemma {:induction false} ShiftedDownOrders(h: seq<TimerNode>, i: nat)
    requires i < |h| && DownReady(h, i)
    ensures ShiftedDown(h, i).1 == i ==> UpReady(h, i)
    ensures ShiftedDown(h, i).1 > i || (i > 0 && OrderedAt(h, i)) ==> HeapOrdered(ShiftedDown(h, i).0)
    decreases |h| - i
  {
    if 2 * i + 1 >= |h| {
      StopDown(h, i, i);
    } else {
      var j := if 2 * i + 2 < |h| && h[2 * i + 2].expires < h[2 * i + 1].expires then 2 * i + 2 else 2 * i + 1;
      if h[i].expires <= h[j].expires {
        StopDown(h, i, j);
      } else {
        EarliestChild(h, i, j);
        SiftDownStep(h, i, j);
        ShiftedDownOrders(Swapped(h, i, j), j);
      }
    }
  }

  /** The set of ids a sequence of nodes carries. */
  function Ids(s: seq<TimerNode>): set<int> {
    set k | 0 <= k < |s| :: s[k].id
  }

  /** heap_ and ref_ agree: ref names, for every id, the slot that holds it, and nothing else. */
  ghost predicate IndexConsistent(heap: seq<TimerNode>, ref: map<int, nat>) {
    && (forall id :: id in ref ==> ref[id] < |heap| && heap[ref[id]].id == id)
    && (forall k :: 0 <= k < |heap| ==> heap[k].id in ref && ref[heap[k].id] == k)
  }

  class HeapTimer {
    var heap: seq<TimerNode>
    var ref: map<int, nat>
    var fired: seq<TimerNode>

    ghost predicate Valid()
      reads this
    {
      IndexConsistent(heap, ref)
    }

    /** The abstract value: each scheduled id with its node. */
    ghost function Schedule(): (s: map<int, TimerNode>)
      reads this
      requires Valid()
      ensures s.Keys == ref.Keys
    {
      ScheduleOf(heap, ref)
    }

    function Size(): nat
      reads this
    {
      |heap|
    }

    constructor ()
      ensures Valid() && heap == [] && ref == map[] && fired == []
    {
      heap, ref, fired := [], map[], [];
    }

    /** swapNode_: exchange two slots and re-point ref_ at both; i == j changes nothing. */
    method SwapNode(i: nat, j: nat)
      requires Valid() && i < |heap| && j < |heap|
      modifies this
      ensures Valid() && heap == Swapped(old(heap), i, j) && fired == old(fired)
      ensures ref == old(ref)[old(heap)[j].id := i][old(heap)[i].id := j]
      ensures Schedule() == old(Schedule())
    {
      if i == j {
        assert ref[heap[j].id := i][heap[i].id := j] == ref;
        return;
      }
      SwapKeepsSchedule(heap, ref, i, j);
      heap := Swapped(heap, i, j);
      ref := ref[heap[i].id := i][heap[j].id := j];
    }

    /** shiftup_: move the node at slot i0 towards the root while it is earlier than its parent. */
    method ShiftUp(i0: nat)
      requires Valid() && i0 < |heap|
      modifies this
      ensures Valid() && fired == old(fired) && Schedule() == old(Schedule())
      ensures heap == ShiftedUp(old(heap), i0)
    {
      var i: nat := i0;
      while i > 0
        invariant Valid() && i < |heap| && fired == old(fired)
        invariant Schedule() == old(Schedule())
        invariant ShiftedUp(heap, i) == ShiftedUp(old(heap), i0)
      {
        var j: nat := (i - 1) / 2;
        if heap[j].expires <= heap[i].expires {
          break;
        }
        ShiftedUpSwap(heap, i);
        SwapNode(i, j);
        i := j;
      }
    }

    /**
     * shiftdown_: move the node at slot index towards the leaves while a child is earlier;
     * the result says whether it left slot index.
     */
    method ShiftDown(index: nat) returns (moved: bool)
      requires Valid() && index < |heap|
      modifies this
      ensures Valid() && fired == old(fired) && Schedule() == old(Schedule())
      ensures heap == ShiftedDown(old(heap), index).0
      ensures moved <==> ShiftedDown(old(heap), index).1 > index
    {
      var i: nat := index;
      var j: nat := i * 2 + 1;
      var n := |heap|;
      while j < n
        invariant Valid() && |heap| == n && fired == old(fired)
        invariant index <= i < n && j == 2 * i + 1
        invariant Schedule() == old(Schedule())
        invariant ShiftedDown(heap, i) == ShiftedDown(old(heap), index)
        invariant i == index ==> heap == old(heap) && ref == old(ref)
        decreases n - i
      {
        ghost var l := j;
        if j + 1 < n && heap[j + 1].expires < heap[j].expires {
          j := j + 1;
        }
        if heap[i].expires <= heap[j].expires {
          break;
        }
        ShiftedDownSwap(heap, i, l, j);
        SwapNode(i, j);
        i := j;
        j := i * 2 + 1;
      }
      moved := i > index;
    }

    /** adjust: the node of id is rescheduled to now + timeoutMs and moved to its place. */
    method Adjust(id: int, timeoutMs: int, now: int)
      requires Valid() && id in ref
      modifies this
      ensures Valid() && fired == old(fired) && |heap| == old(|heap|)
      ensures Schedule() == old(Schedule())[id := old(Schedule())[id].(expires := now + timeoutMs)]
      ensures HeapOrdered(old(heap)) ==> HeapOrdered(heap)
    {
      var index := ref[id];
      ghost var ordered := HeapOrdered(heap);
      UpdateSchedule(heap, ref, index, heap[index].(expires := now + timeoutMs));
      if ordered {
        RescheduleReady(heap, index, heap[index].(expires := now + timeoutMs));
      }
      heap := heap[index := heap[index].(expires := now + timeoutMs)];
      if ordered {
        ShiftedDownOrders(heap, index);
      }
      var moved := ShiftDown(index);
      if !moved {
        if ordered {
          ShiftedUpOrders(heap, index);
        }
        ShiftUp(index);
      }
    }

    /** add: a new id is pushed and sifted up; a known id gets the new callback and is adjusted. */
    method Add(id: int, timeoutMs: int, cb: Callback, now: int)
      requires Valid() && id >= 0
      modifies this
      ensures Valid() && fired == old(fired)
      ensures Schedule() == old(Schedule())[id := TimerNode(id, now + timeoutMs, cb)]
      ensures id !in old(ref) ==> |heap| == old(|heap|) + 1
      ensures id in old(ref) ==> |heap| == old(|heap|)
      ensures HeapOrdered(old(heap)) ==> HeapOrdered(heap)
    {
      if id !in ref {
        var index := |heap|;
        var node := TimerNode(id, now + timeoutMs, cb);
        PushSchedule(heap, ref, node);
        if HeapOrdered(heap) {
          PushReady(heap, node);
          ShiftedUpOrders(heap + [node], index);
        }
        ref := ref[id := index];
        heap := heap + [node];
        ShiftUp(index);
      } else {
        var index := ref[id];
        var node := heap[index].(cb := cb);
        UpdateSchedule(heap, ref, index, node);
        ghost var h0 := heap;
        heap := heap[index := node];
        if HeapOrdered(h0) {
          forall c | 0 < c < |heap|
            ensures OrderedAt(heap, c)
          {
            assert OrderedAt(h0, c);
          }
        }
        Adjust(id, timeoutMs, now);
      }
    }

    /**
     * del_: swap slot index with the last slot, drop the last slot, and sift the moved node
     * down. It never sifts up, so heap order is only kept away from slot index and its parent.
     */
    method Del(index: nat)
      requires Valid() && index < |heap|
      modifies this
      ensures Valid() && fired == old(fired)
      ensures Schedule() == old(Schedule()) - {old(heap)[index].id}
      ensures heap == Deleted(old(heap), index)
    {
      SwapNode(index, |heap| - 1);
      var id := heap[|heap| - 1].id;
      PopSchedule(heap, ref);
      heap, ref := heap[..|heap| - 1], ref - {id};
      if index < |heap| {
        var moved := ShiftDown(index);
      }
    }

    /** doWork: run the callback of id and remove its node; an unknown id changes nothing. */
    method DoWork(id: int)
      requires Valid() && id >= 0
      modifies this
      ensures Valid()
      ensures id !in old(ref) ==> heap == old(heap) && ref == old(ref) && fired == old(fired)
      ensures id in old(ref) ==> fired == old(fired) + [old(Schedule())[id]]
      ensures id in old(ref) ==> Schedule() == old(Schedule()) - {id}
      ensures id in old(ref) ==> heap == Deleted(old(heap), old(ref)[id])
    {
      if id !in ref {
        return;
      }
      var index := ref[id];
      fired := fired + [heap[index]];
      Del(index);
    }

    /** pop: remove the root. */
    method Pop()
      requires Valid() && |heap| > 0
      modifies this
      ensures Valid() && fired == old(fired) && |heap| == old(|heap|) - 1
      ensures Schedule() == old(Schedule()) - {old(heap)[0].id}
      ensures HeapOrdered(old(heap)) ==> HeapOrdered(heap)
    {
      if HeapOrdered(heap) {
        DeletedOrders(heap, 0);
      }
      Del(0);
    }

    /** clear: no timers left. */
    method Clear()
      modifies this
      ensures Valid() && heap == [] && ref == map[] && fired == old(fired)
    {
      heap := [];
      ref := map[];
    }

    /**
     * tick: while the root is due (expires - now <= 0) run its callback and pop it; stop at
     * the first root that is not due. The nodes it fires are exactly the ones it removes.
     */
    method Tick(now: int)
      requires Valid()
      modifies this
      ensures Valid() && |fired| >= old(|fired|) && fired[..old(|fired|)] == old(fired)
      ensures |heap| + |fired| == old(|heap|) + old(|fired|)
      ensures Fired(old(Schedule()), fired[old(|fired|)..], now)
      ensures Schedule() == old(Schedule()) - Ids(fired[old(|fired|)..])
      ensures |heap| > 0 ==> heap[0].expires > now
      ensures HeapOrdered(old(heap)) ==> HeapOrdered(heap) && SortedByExpiry(fired[old(|fired|)..])
      ensures HeapOrdered(old(heap)) ==> forall k :: 0 <= k < |heap| ==> heap[k].expires > now
      ensures HeapOrdered(old(heap)) ==>
        forall id :: id in old(Schedule()) && old(Schedule())[id].expires <= now ==> id in Ids(fired[old(|fired|)..])
    {
      var start := |fired|;
      ghost var s0 := Schedule();
      ghost var ordered := HeapOrdered(heap);
      assert fired[start..] == [] && Ids([]) == {};
      while |heap| > 0
        invariant Valid() && |fired| >= start && fired[..start] == old(fired)
        invariant |heap| + |fired| == old(|heap|) + old(|fired|)
        invariant TickState(s0, heap, ref, fired[start..], now, ordered)
        decreases |heap|
      {
        var node := heap[0];
        if node.expires - now > 0 {
          break;
        }
        ghost var prev := fired[start..];
        ghost var h0, r0 := heap, ref;
        fired := fired + [node];
        assert fired[start..] == prev + [node];
        Pop();
        TickStep(s0, h0, r0, heap, ref, prev, now, ordered);
      }
      if ordered {
        TickDone(s0, heap, ref, fired[start..], now);
      }
    }

    /**
     * getNextTickMs: tick, then -1 when no timer is left, otherwise the milliseconds until
     * the root is due, never negative. The clock is read at tickNow for the tick and at
     * now for the result.
     */
    method GetNextTickMs(tickNow: int, now: int) returns (ms: int)
      requires Valid() && tickNow <= now
      modifies this
      ensures Valid() && |fired| >= old(|fired|) && fired[..old(|fired|)] == old(fired)
      ensures Fired(old(Schedule()), fired[old(|fired|)..], tickNow)
      ensures Schedule() == old(Schedule()) - Ids(fired[old(|fired|)..])
      ensures ms == -1 <==> |heap| == 0
      ensures |heap| > 0 ==> ms == (if heap[0].expires - now < 0 then 0 else heap[0].expires - now)
      ensures |heap| > 0 ==> 0 <= ms <= heap[0].expires - tickNow
      ensures HeapOrdered(old(heap)) ==> HeapOrdered(heap)
      ensures HeapOrdered(old(heap)) ==> forall k :: 0 <= k < |heap| ==> heap[k].expires > tickNow
      ensures HeapOrdered(old(heap)) ==>
        forall id :: id in old(Schedule()) && old(Schedule())[id].expires <= tickNow ==> id in Ids(fired[old(|fired|)..])
    {
      Tick(tickNow);
      ms := -1;
      if |heap| > 0 {
        ms := heap[0].expires - now;
        if ms < 0 {
          ms := 0;
        }
      }
    }
  }

  /**
   * The nodes a tick fired, in order, against the schedule it started from: each was due at
   * now, each was scheduled with exactly that node, and none fired twice.
   */
  ghost predicate Fired(s: map<int, TimerNode>, f: seq<TimerNode>, now: int) {
    && (forall k :: 0 <= k < |f| ==> f[k].expires <= now && f[k].id in s && s[f[k].id] == f[k])
    && (forall a, b :: 0 <= a < b < |f| ==> f[a].id != f[b].id)
  }

  ghost predicate SortedByExpiry(f: seq<TimerNode>) {
    forall a, b :: 0 <= a < b < |f| ==> f[a].expires <= f[b].expires
  }

  /** After the root is removed, every node left is due no earlier than the removed root. */
  lemma RemainingAfterRoot(h0: seq<TimerNode>, r0: map<int, nat>, h1: seq<TimerNode>, r1: map<int, nat>)
    requires IndexConsistent(h0, r0) && IndexConsistent(h1, r1) && HeapOrdered(h0) && |h0| > 0
    requires ScheduleOf(h1, r1) == ScheduleOf(h0, r0) - {h0[0].id}
    ensures forall k :: 0 <= k < |h1| ==> h0[0].expires <= h1[k].expires
  {
    forall k | 0 <= k < |h1|
      ensures h0[0].expires <= h1[k].expires
    {
      var id := h1[k].id;
      assert ScheduleOf(h1, r1)[id] == h1[k];
      assert h1[k] == h0[r0[id]];
      RootIsEarliest(h0, r0[id]);
    }
  }

  /** A tick that started from a schedule fires, at time now, exactly the nodes of it due by now. */
  lemma FiredAreDue(f: seq<TimerNode>, s0: map<int, TimerNode>, now: int)
    requires Fired(s0, f, now)
    ensures forall k :: 0 <= k < |f| ==> f[k] in s0.Values && f[k].expires <= now
  {
    forall k | 0 <= k < |f|
      ensures f[k] in s0.Values
    {
      assert s0[f[k].id] == f[k];
    }
  }

  /** Firing a due root keeps the record of fired nodes well formed. */
  lemma FireRoot(h: seq<TimerNode>, ref: map<int, nat>, f: seq<TimerNode>, s0: map<int, TimerNode>, now: int)
    requires IndexConsistent(h, ref) && |h| > 0 && h[0].expires <= now
    requires Fired(s0, f, now) && ScheduleOf(h, ref) == s0 - Ids(f)
    ensures Fired(s0, f + [h[0]], now)
  {
    var s := ScheduleOf(h, ref);
    assert h[0].id in s && s[h[0].id] == h[0];
    forall a | 0 <= a < |f|
      ensures f[a].id != h[0].id
    {
      assert f[a].id in Ids(f);
    }
  }

  /** What del_ leaves: the last node moved into slot index, the last slot dropped, then shiftdown_. */
  function Deleted(h: seq<TimerNode>, index: nat): (r: seq<TimerNode>)
    requires index < |h|
    ensures |r| == |h| - 1
    ensures 2 * index + 1 >= |h| - 1 ==> r == Swapped(h, index, |h| - 1)[..|h| - 1]
  {
    var h1 := Swapped(h, index, |h| - 1)[..|h| - 1];
    if index < |h1| then ShiftedDown(h1, index).0 else h1
  }

  /**
   * del_ on a heap keeps heap order everywhere except between slot index and its parent, and
   * keeps it fully when the root is deleted.
   */
  lemma DeletedOrders(h: seq<TimerNode>, index: nat)
    requires HeapOrdered(h) && index < |h|
    ensures HeapOrderedExcept(Deleted(h, index), index)
    ensures index == 0 ==> HeapOrdered(Deleted(h, index))
  {
    var h1 := Swapped(h, index, |h| - 1)[..|h| - 1];
    if index < |h1| {
      RemoveReady(h, index);
      ShiftedDownOrders(h1, index);
    } else {
      PopOrdered(h);
    }
  }

  /** What tick keeps while it pops: the nodes f fired so far against the schedule s0 it began with. */
  ghost predicate TickState(s0: map<int, TimerNode>, h: seq<TimerNode>, r: map<int, nat>, f: seq<TimerNode>, now: int, ordered: bool) {
    && IndexConsistent(h, r) && Fired(s0, f, now) && ScheduleOf(h, r) == s0 - Ids(f)
    && (ordered ==> HeapOrdered(h) && SortedByExpiry(f))
    && (ordered && |f| > 0 ==> forall k :: 0 <= k < |h| ==> f[|f| - 1].expires <= h[k].expires)
  }

  /** Firing the due root and popping it keeps the tick state. */
  lemma TickStep(s0: map<int, TimerNode>, h0: seq<TimerNode>, r0: map<int, nat>, h1: seq<TimerNode>, r1: map<int, nat>,
                 f: seq<TimerNode>, now: int, ordered: bool)
    requires TickState(s0, h0, r0, f, now, ordered) && |h0| > 0 && h0[0].expires <= now
    requires IndexConsistent(h1, r1) && ScheduleOf(h1, r1) == ScheduleOf(h0, r0) - {h0[0].id}
    requires ordered ==> HeapOrdered(h1)
    ensures TickState(s0, h1, r1, f + [h0[0]], now, ordered)
  {
    var g := f + [h0[0]];
    FireRoot(h0, r0, f, s0, now);
    IdsAppend(f, h0[0]);
    assert ScheduleOf(h1, r1) == s0 - Ids(g);
    if ordered {
      RemainingAfterRoot(h0, r0, h1, r1);
      forall a, b | 0 <= a < b < |g|
        ensures g[a].expires <= g[b].expires
      {
        if b < |f| {
          assert g[a] == f[a] && g[b] == f[b];
        } else if a < |f| - 1 {
          assert f[a].expires <= f[|f| - 1].expires;
        }
      }
    }
  }

  /**
   * When a tick on a heap stops, no node left is due, so every node of the schedule it began
   * with that was due has fired.
   */
  lemma TickDone(s0: map<int, TimerNode>, h: seq<TimerNode>, r: map<int, nat>, f: seq<TimerNode>, now: int)
    requires TickState(s0, h, r, f, now, true) && (|h| > 0 ==> h[0].expires > now)
    ensures forall k :: 0 <= k < |h| ==> h[k].expires > now
    ensures forall id :: id in s0 && s0[id].expires <= now ==> id in Ids(f)
  {
    forall k | 0 <= k < |h|
      ensures h[k].expires > now
    {
      RootIsEarliest(h, k);
    }
    forall id | id in ScheduleOf(h, r)
      ensures s0[id].expires > now
    {
      assert ScheduleOf(h, r)[id] == h[r[id]];
    }
  }

  /** The schedule a consistent heap and index map describe: each id with its node. */
  ghost function ScheduleOf(h: seq<TimerNode>, ref: map<int, nat>): (s: map<int, TimerNode>)
    requires IndexConsistent(h, ref)
    ensures s.Keys == ref.Keys
  {
    map id | id in ref :: h[ref[id]]
  }

  /** Swapping two slots and re-pointing both ids keeps the map consistent and the schedule. */
  lemma SwapKeepsSchedule(h: seq<TimerNode>, ref: map<int, nat>, i: nat, j: nat)
    requires IndexConsistent(h, ref) && i < |h| && j < |h| && i != j
    ensures IndexConsistent(Swapped(h, i, j), ref[h[j].id := i][h[i].id := j])
    ensures ScheduleOf(Swapped(h, i, j), ref[h[j].id := i][h[i].id := j]) == ScheduleOf(h, ref)
  {
    var h' := Swapped(h, i, j);
    var r' := ref[h[j].id := i][h[i].id := j];
    assert h[i].id != h[j].id by {
      assert ref[h[i].id] == i && ref[h[j].id] == j;
    }
    forall id | id in r'
      ensures r'[id] < |h'| && h'[r'[id]].id == id
    {
      if id != h[i].id && id != h[j].id {
        var k := ref[id];
        assert k != i && k != j;
      }
    }
    forall k | 0 <= k < |h'|
      ensures h'[k].id in r' && r'[h'[k].id] == k
    {
      if k != i && k != j {
        assert h'[k] == h[k];
        assert ref[h[k].id] == k;
      }
    }
    var a := ScheduleOf(h', r');
    var b := ScheduleOf(h, ref);
    forall id | id in b
      ensures a[id] == b[id]
    {
      if id != h[i].id && id != h[j].id {
        var k := ref[id];
        assert k != i && k != j;
      }
    }
  }

  /** Replacing the node in one slot by a node with the same id replaces it in the schedule. */
  lemma UpdateSchedule(h: seq<TimerNode>, ref: map<int, nat>, k: nat, n: TimerNode)
    requires IndexConsistent(h, ref) && k < |h| && n.id == h[k].id
    ensures IndexConsistent(h[k := n], ref)
    ensures ScheduleOf(h[k := n], ref) == ScheduleOf(h, ref)[n.id := n]
  {
    var h' := h[k := n];
    forall id | id in ref
      ensures ref[id] < |h'| && h'[ref[id]].id == id
    {
    }
    var a := ScheduleOf(h', ref);
    var b := ScheduleOf(h, ref)[n.id := n];
    assert ref[n.id] == k;
    forall id | id in ref
      ensures a[id] == b[id]
    {
      if id != n.id {
        assert ref[id] != k;
      }
    }
  }

  /** push_back of a node with a fresh id, with ref pointing at the new last slot. */
  lemma PushSchedule(h: seq<TimerNode>, ref: map<int, nat>, n: TimerNode)
    requires IndexConsistent(h, ref) && n.id !in ref
    ensures IndexConsistent(h + [n], ref[n.id := |h|])
    ensures ScheduleOf(h + [n], ref[n.id := |h|]) == ScheduleOf(h, ref)[n.id := n]
  {
    var h' := h + [n];
    var r' := ref[n.id := |h|];
    forall k | 0 <= k < |h'|
      ensures h'[k].id in r' && r'[h'[k].id] == k
    {
      if k < |h| {
        assert h'[k] == h[k];
      }
    }
    var a := ScheduleOf(h', r');
    var b := ScheduleOf(h, ref)[n.id := n];
    forall id | id in r'
      ensures a[id] == b[id]
    {
    }
  }

  /** pop_back together with erasing the last node's id. */
  lemma PopSchedule(h: seq<TimerNode>, ref: map<int, nat>)
    requires IndexConsistent(h, ref) && |h| > 0
    ensures IndexConsistent(h[..|h| - 1], ref - {h[|h| - 1].id})
    ensures ScheduleOf(h[..|h| - 1], ref - {h[|h| - 1].id}) == ScheduleOf(h, ref) - {h[|h| - 1].id}
  {
    var last := h[|h| - 1].id;
    var h' := h[..|h| - 1];
    var r' := ref - {last};
    forall id | id in r'
      ensures r'[id] < |h'| && h'[r'[id]].id == id
    {
      assert ref[id] != |h| - 1;
    }
    var a := ScheduleOf(h', r');
    var b := ScheduleOf(h, ref) - {last};
    forall id | id in r'
      ensures a[id] == b[id]
    {
      assert ref[id] != |h| - 1;
    }
  }

  /** Dropping the last slot of a heap keeps it a heap. */
  lemma PopOrdered(h: seq<TimerNode>)
    requires HeapOrdered(h) && |h| > 0
    ensures HeapOrdered(h[..|h| - 1])
  {
    var r := h[..|h| - 1];
    forall c | 0 < c < |r|
      ensures OrderedAt(r, c)
    {
      assert OrderedAt(h, c);
    }
  }

  /** A node appended to a heap has no children, so shiftup_ can start from it. */
  lemma PushReady(h: seq<TimerNode>, n: TimerNode)
    requires HeapOrdered(h)
    ensures UpReady(h + [n], |h|)
  {
    var r := h + [n];
    forall c | 0 < c < |r| && c != |h|
      ensures OrderedAt(r, c)
    {
      assert OrderedAt(h, c);
    }
  }

  lemma IdsAppend(s: seq<TimerNode>, n: TimerNode)
    ensures Ids(s + [n]) == Ids(s) + {n.id}
  {
    var t := s + [n];
    forall id | id in Ids(t)
      ensures id in Ids(s) + {n.id}
    {
      var k :| 0 <= k < |t| && t[k].id == id;
      if k < |s| {
        assert s[k].id == id;
      }
    }
    forall id | id in Ids(s)
      ensures id in Ids(t)
    {
      var k :| 0 <= k < |s| && s[k].id == id;
      assert t[k].id == id;
    }
    assert t[|s|].id == n.id;
  }

  /** The timers of the scenarios below: two timers added at time 0 with timeouts 100 and 50. */
  method TwoTimers() returns (t: HeapTimer)
    ensures fresh(t) && t.Valid() && t.fired == [] && HeapOrdered(t.heap)
    ensures t.Schedule() == map[1 := TimerNode(1, 100, 10), 2 := TimerNode(2, 50, 20)]
  {
    t := new HeapTimer();
    t.Add(1, 100, 10, 0);
    t.Add(2, 50, 20, 0);
  }

  /**
   * Two timers added at time 0 with timeouts 100 and 50: at 75 only the second has fired and
   * the next one is due in 25 ms; at 150 the first has fired too, the heap is empty and the
   * answer is -1.
   */
  method TwoTimersScenario() returns (ms1: int, ms2: int, fired: seq<TimerNode>, left: nat)
    ensures fired == [TimerNode(2, 50, 20), TimerNode(1, 100, 10)] && ms1 == 25
    ensures ms2 == -1 && left == 0
  {
    var t := TwoTimers();
    ghost var s0 := t.Schedule();
    ms1 := t.GetNextTickMs(75, 75);
    assert t.fired == t.fired[0..];
    OnlyDue(s0, t.fired, 2, 75);
    assert t.heap[0] == t.Schedule()[t.heap[0].id] by {
      assert 1 in t.ref;
    }
    ghost var s1 := t.Schedule();
    ghost var f1 := t.fired;
    ms2 := t.GetNextTickMs(150, 150);
    OnlyDue(s1, t.fired[1..], 1, 150);
    fired := t.fired;
    assert fired == f1 + fired[1..];
    HeapHoldsScheduled(t);
    left := t.Size();
  }

  /** The timers of the second scenario: four timers added at time 0 with timeouts 300, 100, 200 and 50. */
  method FourTimers() returns (t: HeapTimer)
    ensures fresh(t) && t.Valid() && t.fired == [] && HeapOrdered(t.heap) && |t.heap| == 4
    ensures t.Schedule() == map[1 := TimerNode(1, 300, 10), 2 := TimerNode(2, 100, 20), 3 := TimerNode(3, 200, 30), 4 := TimerNode(4, 50, 40)]
  {
    t := new HeapTimer();
    t.Add(1, 300, 10, 0);
    t.Add(2, 100, 20, 0);
    AddTwoMore(t);
  }

  /** Timers 3 and 4 join timers 1 and 2. */
  method AddTwoMore(t: HeapTimer)
    requires t.Valid() && t.fired == [] && HeapOrdered(t.heap) && |t.heap| == 2
    requires t.Schedule() == map[1 := TimerNode(1, 300, 10), 2 := TimerNode(2, 100, 20)]
    modifies t
    ensures t.Valid() && t.fired == [] && HeapOrdered(t.heap) && |t.heap| == 4
    ensures t.Schedule() == map[1 := TimerNode(1, 300, 10), 2 := TimerNode(2, 100, 20), 3 := TimerNode(3, 200, 30), 4 := TimerNode(4, 50, 40)]
  {
    t.Add(3, 200, 30, 0);
    AddFourth(t);
  }

  /** Timer 4 joins timers 1, 2 and 3. */
  method AddFourth(t: HeapTimer)
    requires t.Valid() && t.fired == [] && HeapOrdered(t.heap) && |t.heap| == 3
    requires t.Schedule() == map[1 := TimerNode(1, 300, 10), 2 := TimerNode(2, 100, 20), 3 := TimerNode(3, 200, 30)]
    modifies t
    ensures t.Valid() && t.fired == [] && HeapOrdered(t.heap) && |t.heap| == 4
    ensures t.Schedule() == map[1 := TimerNode(1, 300, 10), 2 := TimerNode(2, 100, 20), 3 := TimerNode(3, 200, 30), 4 := TimerNode(4, 50, 40)]
  {
    t.Add(4, 50, 40, 0);
  }

  /**
   * Four timers added at time 0 with timeouts 300, 100, 200 and 50: a tick at 0 fires none;
   * after timer 2 is pushed back to 110 + 200, a tick at 110 fires timer 4 only; a tick at
   * 330 fires the other three, earliest first, and empties the heap.
   */
  method FourTimersScenario() returns (first: nat, second: seq<TimerNode>, third: seq<TimerNode>, left: nat)
    ensures first == 4 && second == [TimerNode(4, 50, 40)]
    ensures Ids(third) == {1, 2, 3} && SortedByExpiry(third) && left == 0
  {
    var t := FourTimers();
    first := FirstTick(t);
    second := SecondTick(t);
    third := ThirdTick(t);
    left := t.Size();
  }

  /** The tick at 0 fires nothing. */
  method FirstTick(t: HeapTimer) returns (size: nat)
    requires t.Valid() && t.fired == [] && HeapOrdered(t.heap) && |t.heap| == 4
    requires t.Schedule() == map[1 := TimerNode(1, 300, 10), 2 := TimerNode(2, 100, 20), 3 := TimerNode(3, 200, 30), 4 := TimerNode(4, 50, 40)]
    modifies t
    ensures t.Valid() && t.fired == [] && HeapOrdered(t.heap) && size == 4
    ensures t.Schedule() == map[1 := TimerNode(1, 300, 10), 2 := TimerNode(2, 100, 20), 3 := TimerNode(3, 200, 30), 4 := TimerNode(4, 50, 40)]
  {
    ghost var s0 := t.Schedule();
    t.Tick(0);
    assert t.fired == t.fired[0..];
    NoneDue(s0, t.fired, 0);
    size := t.Size();
  }

  /** Timer 2 is pushed back to 310 at 110, and the tick at 110 fires timer 4 only. */
  method SecondTick(t: HeapTimer) returns (f: seq<TimerNode>)
    requires t.Valid() && t.fired == [] && HeapOrdered(t.heap)
    requires t.Schedule() == map[1 := TimerNode(1, 300, 10), 2 := TimerNode(2, 100, 20), 3 := TimerNode(3, 200, 30), 4 := TimerNode(4, 50, 40)]
    modifies t
    ensures t.Valid() && HeapOrdered(t.heap) && f == [TimerNode(4, 50, 40)]
    ensures t.Schedule() == map[1 := TimerNode(1, 300, 10), 2 := TimerNode(2, 310, 20), 3 := TimerNode(3, 200, 30)]
  {
    PushBack(t);
    ghost var s1 := t.Schedule();
    t.Tick(110);
    assert t.fired == t.fired[0..];
    OnlyDue(s1, t.fired, 4, 110);
    f := t.fired;
  }

  /** Timer 2 is pushed back to 110 + 200. */
  method PushBack(t: HeapTimer)
    requires t.Valid() && t.fired == [] && HeapOrdered(t.heap)
    requires t.Schedule() == map[1 := TimerNode(1, 300, 10), 2 := TimerNode(2, 100, 20), 3 := TimerNode(3, 200, 30), 4 := TimerNode(4, 50, 40)]
    modifies t
    ensures t.Valid() && t.fired == [] && HeapOrdered(t.heap)
    ensures t.Schedule() == map[1 := TimerNode(1, 300, 10), 2 := TimerNode(2, 310, 20), 3 := TimerNode(3, 200, 30), 4 := TimerNode(4, 50, 40)]
  {
    t.Adjust(2, 200, 110);
  }

  /** The tick at 330 fires the remaining three, earliest first, and leaves no node. */
  method ThirdTick(t: HeapTimer) returns (f: seq<TimerNode>)
    requires t.Valid() && HeapOrdered(t.heap)
    requires t.Schedule() == map[1 := TimerNode(1, 300, 10), 2 := TimerNode(2, 310, 20), 3 := TimerNode(3, 200, 30)]
    modifies t
    ensures t.Valid() && t.Size() == 0 && Ids(f) == {1, 2, 3} && SortedByExpiry(f)
  {
    ghost var s2 := t.Schedule();
    var n := |t.fired|;
    t.Tick(330);
    f := t.fired[n..];
    AllDue(s2, f, 330);
    HeapHoldsScheduled(t);
  }

  /** A tick at a time before every node of its schedule fires nothing. */
  lemma NoneDue(s0: map<int, TimerNode>, f: seq<TimerNode>, now: int)
    requires Fired(s0, f, now)
    requires forall x :: x in s0 ==> s0[x].expires > now
    ensures f == []
  {
    assert f == [] || f[0].id in s0;
  }

  /** A tick that fires every due node, at a time when every node is due, fires them all. */
  lemma AllDue(s0: map<int, TimerNode>, f: seq<TimerNode>, now: int)
    requires Fired(s0, f, now)
    requires forall x :: x in s0 && s0[x].expires <= now ==> x in Ids(f)
    requires forall x :: x in s0 ==> s0[x].expires <= now
    ensures Ids(f) == s0.Keys && s0 - Ids(f) == map[]
  {
    forall x | x in Ids(f)
      ensures x in s0
    {
      var k :| 0 <= k < |f| && f[k].id == x;
    }
    forall x | x in s0
      ensures x in Ids(f)
    {
      assert s0[x].expires <= now;
    }
    assert Ids(f) == s0.Keys;
    assert (s0 - Ids(f)).Keys == {};
  }

  /** Every node in the heap is scheduled under its id. */
  lemma HeapHoldsScheduled(t: HeapTimer)
    requires t.Valid()
    ensures forall k :: 0 <= k < |t.heap| ==> t.heap[k].id in t.Schedule()
  {
  }

  /**
   * A tick that fired every due node of its schedule, when exactly one node (that of id) is
   * due, fired that node only and left the others scheduled.
   */
  lemma OnlyDue(s0: map<int, TimerNode>, f: seq<TimerNode>, id: int, now: int)
    requires Fired(s0, f, now)
    requires forall x :: x in s0 && s0[x].expires <= now ==> x in Ids(f)
    requires id in s0 && s0[id].expires <= now
    requires forall x :: x in s0 && x != id ==> s0[x].expires > now
    ensures f == [s0[id]] && s0 - Ids(f) == s0 - {id}
  {
    forall k | 0 <= k < |f|
      ensures f[k] == s0[id]
    {
    }
    assert id in Ids(f);
    assert |f| > 0 && f[0] == s0[id];
    assert |f| < 2 || f[0].id != f[1].id;
  }

  /**
   * del_ at a slot without children: the last node moves into the hole and is not sifted
   * up, so a heap can lose its order. Deleting slot 3 of this seven-node heap leaves the
   * node due at 4 in slot 3, under the node due at 10 in slot 1.
   */
  lemma InteriorDeleteBreaksOrder()
    ensures var h0 := [TimerNode(0, 1, 0), TimerNode(1, 10, 0), TimerNode(2, 2, 0), TimerNode(3, 11, 0),
                       TimerNode(4, 12, 0), TimerNode(5, 3, 0), TimerNode(6, 4, 0)];
      HeapOrdered(h0) && !HeapOrdered(Deleted(h0, 3))
  {
    var h0 := [TimerNode(0, 1, 0), TimerNode(1, 10, 0), TimerNode(2, 2, 0), TimerNode(3, 11, 0),
               TimerNode(4, 12, 0), TimerNode(5, 3, 0), TimerNode(6, 4, 0)];
    forall c | 0 < c < |h0|
      ensures OrderedAt(h0, c)
    {
      assert c == 1 || c == 2 || c == 3 || c == 4 || c == 5 || c == 6;
    }
    var h := Deleted(h0, 3);
    assert h == Swapped(h0, 3, 6)[..6];
    assert !OrderedAt(h, 3);
  }

}
