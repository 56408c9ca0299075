/** What each policy evicts on a page fault, stated against an independent
  * description of the policy: LRU evicts the least recently referenced page,
  * FIFO behaves as a queue of pages in insertion order, and Clock's sweep
  * gives every page with its use bit set one more round. */
module Victims {
  import opened Frame
  import opened Policy

  // ---------------------------------------------------------------- LRU

  /** On a full-frame miss LRU evicts the resident page whose latest reference
    * is the earliest: that page has been referenced, every other resident
    * page has been referenced strictly later, and afterwards the frame holds
    * `x` in the victim's slot and every other page where it was. */
  lemma LruEvictsLeastRecent(wss: nat, data: seq<int>, x: int)
    requires wss >= 1
    requires |Run(LRU, wss, data).pages| == wss && x !in Run(LRU, wss, data).pages
    ensures var st, r := Run(LRU, wss, data), Run(LRU, wss, data + [x]);
      var v := LeastRecent(data, st.pages);
      && 0 <= LastUse(data, v)
      && (forall q :: q in st.pages && q != v ==> LastUse(data, v) < LastUse(data, q))
      && |r.pages| == wss && r.pages[IndexOf(st.pages, v)] == x
      && (forall s :: 0 <= s < wss && st.pages[s] != v ==> r.pages[s] == st.pages[s])
      && v !in r.pages
      && r.faults == st.faults + 1
  {
    var st := Run(LRU, wss, data);
    var v := LeastRecent(data, st.pages);
    var k := IndexOf(st.pages, v);
    FrameInvariantHolds(LRU, wss, data);
    RunSnoc(LRU, wss, data, x);
    var r := Run(LRU, wss, data + [x]);
    assert r.pages == st.pages[k := x] && r.faults == st.faults + 1;
    LastUseFound(data, v);
    forall q | q in st.pages && q != v ensures LastUse(data, v) < LastUse(data, q) {
      LastUseOrder(data, v, q);
    }
    forall s | 0 <= s < wss ensures r.pages[s] != v && (s != k ==> st.pages[s] != v) {
    }
  }

  /** A page that is referenced has a latest reference. */
  lemma LastUseFound(h: seq<int>, p: int)
    requires p in h
    ensures 0 <= LastUse(h, p)
  {
    var k :| 0 <= k < |h| && h[k] == p;
    assert LastUse(h, p) >= k;
  }

  /** Two different referenced pages have different latest references. */
  lemma LastUseOrder(h: seq<int>, v: int, q: int)
    requires v != q && q in h && LastUse(h, v) <= LastUse(h, q)
    ensures LastUse(h, v) < LastUse(h, q)
  {
    LastUseFound(h, q);
  }

  // --------------------------------------------------------------- FIFO

  /** FIFO as the textbook describes it: the resident pages form a queue in
    * insertion order; a fault removes the head and appends the new page. */
  datatype Queue = Queue(order: seq<int>, faults: nat)

  /** One reference `x` of the trace, for the queue. */
  function QueueStep(wss: nat, q: Queue, x: int): Queue
    requires wss >= 1
  {
    if x in q.order then q
    else if |q.order| < wss then Queue(q.order + [x], q.faults)
    else Queue(q.order[1..] + [x], q.faults + 1)
  }

  function QueueRun(wss: nat, data: seq<int>): Queue
    requires wss >= 1
    decreases |data|
  {
    if data == [] then Queue([], 0)
    else
      var n := |data| - 1;
      QueueStep(wss, QueueRun(wss, data[..n]), data[n])
  }

  /** The slots read circularly from slot `k`. */
  function Rotate(s: seq<int>, k: nat): seq<int>
    requires k <= |s|
  {
    s[k..] + s[..k]
  }

  lemma RotateMembers(s: seq<int>, k: nat, x: int)
    requires k <= |s|
    ensures x in Rotate(s, k) <==> x in s
  {
    assert s == s[..k] + s[k..];
  }

  /** The frame read circularly from the cursor is the queue. */
  ghost predicate Matches(st: State, q: Queue)
  {
    st.hand <= |st.pages| && Rotate(st.pages, st.hand) == q.order && st.faults == q.faults
  }

  lemma FifoStepIsQueueStep(wss: nat, h: seq<int>, st: State, q: Queue, x: int)
    requires wss >= 1 && Shaped(wss, st) && Matches(st, q)
    requires |st.pages| < wss ==> st.hand == 0
    ensures Matches(Step(FIFO, wss, h, st, x), QueueStep(wss, q, x))
  {
    RotateMembers(st.pages, st.hand, x);
    if x !in st.pages {
      if |st.pages| < wss {
        assert Rotate(st.pages, 0) == st.pages;
        assert Rotate(st.pages + [x], 0) == st.pages + [x];
      } else {
        FifoEvictIsDequeue(st.pages, st.hand, x);
      }
    }
  }

  /** Overwriting the cursor's slot and advancing the cursor is removing the
    * queue's head and appending the new page. */
  lemma FifoEvictIsDequeue(pages: seq<int>, k: nat, x: int)
    requires k < |pages|
    ensures var k' := if k + 1 == |pages| then 0 else k + 1;
      Rotate(pages[k := x], k') == Rotate(pages, k)[1..] + [x]
  {
    var p := pages[k := x];
    assert Rotate(pages, k)[1..] == pages[k + 1..] + pages[..k];
    if k + 1 == |pages| {
      assert Rotate(p, 0) == pages[..k] + [x];
    } else {
      assert Rotate(p, k + 1) == pages[k + 1..] + pages[..k] + [x];
    }
  }

  /** The array engine is that queue: read circularly from the cursor, the
    * slots list the resident pages in insertion order, the fault counts
    * agree, and so on a fault the cursor's slot holds the page that has been
    * resident longest. */
  lemma {:induction false} FifoIsQueue(wss: nat, data: seq<int>)
    requires wss >= 1
    ensures var st, q := Run(FIFO, wss, data), QueueRun(wss, data);
      && Matches(st, q)
      && (|st.pages| == wss ==> st.pages[st.hand] == q.order[0])
    decreases |data|
  {
    if data != [] {
      var n := |data| - 1;
      var d := data[..n];
      FifoIsQueue(wss, d);
      FrameInvariantHolds(FIFO, wss, d);
      FifoStepIsQueueStep(wss, d, Run(FIFO, wss, d), QueueRun(wss, d), data[n]);
    }
    FrameInvariantHolds(FIFO, wss, data);
  }

  // -------------------------------------------------------------- Clock

  /** A Clock page fault: the sweep takes at most `wss` steps; every slot it
    * passes over had its bit set and has it cleared; the slot it stops at had
    * bit 0 (or, after a full turn, has just had it cleared), receives `x` and
    * keeps bit 0; the other slots and bits are untouched; and the hand ends
    * one past the replaced slot. */
  lemma ClockSweeps(wss: nat, data: seq<int>, x: int)
    requires wss >= 1
    requires |Run(Clock, wss, data).pages| == wss && x !in Run(Clock, wss, data).pages
    ensures var st, r := Run(Clock, wss, data), Run(Clock, wss, data + [x]);
      var k := SweepLength(st.bits, st.hand, 0);
      var slot := Ahead(st.hand, k, wss);
      && k <= wss
      && (forall t :: 0 <= t < k ==> st.bits[Ahead(st.hand, t, wss)] && !r.bits[Ahead(st.hand, t, wss)])
      && (k < wss ==> !st.bits[slot])
      && (k == wss ==> slot == st.hand)
      && !r.bits[slot] && r.pages[slot] == x
      && (forall s :: 0 <= s < wss && s != slot ==> r.pages[s] == st.pages[s])
      && (forall s :: 0 <= s < wss && Behind(s, st.hand, wss) >= k ==> r.bits[s] == st.bits[s])
      && r.hand == Next(slot, wss)
      && r.faults == st.faults + 1
  {
    var st := Run(Clock, wss, data);
    RunSnoc(Clock, wss, data, x);
    var k := SweepLength(st.bits, st.hand, 0);
    forall t | 0 <= t < k ensures Behind(Ahead(st.hand, t, wss), st.hand, wss) == t {
    }
    assert Behind(Ahead(st.hand, k, wss), st.hand, wss) == (if k < wss then k else 0);
  }
}
