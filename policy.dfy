/** The behaviour the three engines of replaceAlgos.c share, written as one state
  * machine over the trace: a reference that is resident is a hit, a miss while
  * a slot is free fills the next slot, and only a miss with a full frame is a
  * page fault, which evicts the page in the slot the policy chooses. */
module Policy {
  import opened Frame

  datatype Kind = LRU | FIFO | Clock

  /** What an engine knows after a prefix of the trace.
    * `pages`: the resident pages in slot order (slot k holds pages[k], the
    *          slots from |pages| on hold the sentinel; |pages| is `size`);
    * `hand`:  FIFO's and Clock's `fifoIndex` (LRU keeps it at 0);
    * `bits`:  Clock's `secondChance` bits, one per slot (unused by the others);
    * `faults`: the page-fault counter. */
  datatype State = State(pages: seq<int>, hand: nat, bits: seq<bool>, faults: nat)

  /** The bounds every state respects: at most `wss` resident pages, the hand
    * on one of the `wss` slots, one use bit per slot. */
  predicate Shaped(wss: nat, st: State)
  {
    |st.pages| <= wss && st.hand < wss && |st.bits| == wss
  }

  /** All slots empty, hand at slot 0, all use bits 0, no faults. */
  function Init(wss: nat): State
  {
    State([], 0, seq(wss, _ => false), 0)
  }

  /** `fifoIndex++`, wrapping to 0 when it reaches `wss`. */
  function Next(hand: nat, wss: nat): (r: nat)
    requires hand < wss
    ensures r < wss
  {
    if hand + 1 == wss then 0 else hand + 1
  }

  // ---------------------------------------------------------------- LRU

  /** The position of the most recent reference to `p` in `h`, or -1 when `p`
    * is never referenced. */
  function LastUse(h: seq<int>, p: int): (r: int)
    ensures -1 <= r < |h|
    ensures 0 <= r ==> h[r] == p
    ensures forall k :: r < k < |h| ==> h[k] != p
  {
    if h == [] then -1
    else if h[|h| - 1] == p then |h| - 1
    else LastUse(h[..|h| - 1], p)
  }

  /** The resident page whose most recent reference in `h` lies furthest in
    * the past: the page LRU evicts. */
  function LeastRecent(h: seq<int>, pages: seq<int>): (v: int)
    requires pages != []
    ensures v in pages
    ensures forall q :: q in pages ==> LastUse(h, v) <= LastUse(h, q)
  {
    if |pages| == 1 then pages[0]
    else
      var w := LeastRecent(h, pages[1..]);
      if LastUse(h, pages[0]) <= LastUse(h, w) then pages[0] else w
  }

  // -------------------------------------------------------------- Clock

  /** The slot `t` steps ahead of `hand` on a clock of `wss` slots. */
  function Ahead(hand: nat, t: nat, wss: nat): (s: nat)
    requires hand < wss && t <= wss
    ensures s < wss
  {
    if hand + t < wss then hand + t else hand + t - wss
  }

  /** How many steps the hand needs to go from `hand` to slot `s`. */
  function Behind(s: nat, hand: nat, wss: nat): (t: nat)
    requires s < wss && hand < wss
    ensures t < wss
  {
    if hand <= s then s - hand else s + wss - hand
  }

  /** How many slots the sweep starting at `hand` passes over, given that the
    * first `t` slots ahead of it have their bit set: the first step at which
    * the hand finds a 0 bit, or `|bits|` when every bit is set. */
  function SweepLength(bits: seq<bool>, hand: nat, t: nat): (k: nat)
    requires hand < |bits| && t <= |bits|
    requires forall u :: 0 <= u < t ==> bits[Ahead(hand, u, |bits|)]
    ensures t <= k <= |bits|
    ensures forall u :: 0 <= u < k ==> bits[Ahead(hand, u, |bits|)]
    ensures k < |bits| ==> !bits[Ahead(hand, k, |bits|)]
    decreases |bits| - t
  {
    if t == |bits| || !bits[Ahead(hand, t, |bits|)] then t
    else SweepLength(bits, hand, t + 1)
  }

  /** A number of steps with every bit passed over set and, short of a full
    * turn, a 0 bit at its end is the sweep length. */
  lemma SweepLengthUnique(bits: seq<bool>, hand: nat, t: nat)
    requires hand < |bits| && t <= |bits|
    requires forall u :: 0 <= u < t ==> bits[Ahead(hand, u, |bits|)]
    requires t < |bits| ==> !bits[Ahead(hand, t, |bits|)]
    ensures SweepLength(bits, hand, 0) == t
  {
  }

  /** The use bits after a sweep of `k` steps from `hand`: every slot passed
    * over is cleared, the others keep their bit. */
  function Swept(bits: seq<bool>, hand: nat, k: nat): seq<bool>
    requires hand < |bits|
  {
    seq(|bits|, s requires 0 <= s < |bits| => bits[s] && Behind(s, hand, |bits|) >= k)
  }

  // ----------------------------------------------------- the state machine

  /** A miss with a full frame: a page fault. Each policy picks the slot to
    * overwrite with `x`; `h` is the part of the trace before `x`. The frame
    * stays full, `x` becomes resident, every slot not now holding `x` keeps
    * its page, and one fault is counted. */
  function Evict(kind: Kind, wss: nat, h: seq<int>, st: State, x: int): (r: State)
    requires Shaped(wss, st) && |st.pages| == wss
    ensures Shaped(wss, r) && |r.pages| == wss
    ensures x in r.pages && r.faults == st.faults + 1
    ensures forall s :: 0 <= s < wss && r.pages[s] != x ==> r.pages[s] == st.pages[s]
  {
    match kind
    case LRU =>
      var slot := IndexOf(st.pages, LeastRecent(h, st.pages));
      assert st.pages[slot := x][slot] == x;
      st.(pages := st.pages[slot := x], faults := st.faults + 1)
    case FIFO =>
      assert st.pages[st.hand := x][st.hand] == x;
      st.(pages := st.pages[st.hand := x], hand := Next(st.hand, wss),
          faults := st.faults + 1)
    case Clock =>
      var k := SweepLength(st.bits, st.hand, 0);
      var slot := Ahead(st.hand, k, wss);
      assert st.pages[slot := x][slot] == x;
      st.(pages := st.pages[slot := x], bits := Swept(st.bits, st.hand, k),
          hand := Next(slot, wss), faults := st.faults + 1)
  }

  /** One reference `x` of the trace, `h` being the references before it.
    * Afterwards `x` is resident; the frame grows by one slot exactly on a miss
    * with a free slot; a fault is counted exactly on a miss with a full frame. */
  function Step(kind: Kind, wss: nat, h: seq<int>, st: State, x: int): (r: State)
    requires Shaped(wss, st)
    ensures Shaped(wss, r)
    ensures x in r.pages
    ensures |r.pages| == if x in st.pages || |st.pages| == wss then |st.pages| else |st.pages| + 1
    ensures r.faults == st.faults + if x !in st.pages && |st.pages| == wss then 1 else 0
  {
    if x in st.pages then
      if kind == Clock then st.(bits := st.bits[IndexOf(st.pages, x) := true]) else st
    else if |st.pages| < wss then st.(pages := st.pages + [x])
    else Evict(kind, wss, h, st, x)
  }

  /** The state of the engine after the whole of `data`; it respects the
    * frame's bounds. */
  function Run(kind: Kind, wss: nat, data: seq<int>): (st: State)
    requires wss >= 1
    ensures Shaped(wss, st)
    decreases |data|
  {
    if data == [] then Init(wss)
    else
      var n := |data| - 1;
      Step(kind, wss, data[..n], Run(kind, wss, data[..n]), data[n])
  }

  /** The value `LRU(wss, data)`, `FIFO(wss, data)` or `Clock(wss, data)`
    * returns: at most one fault per reference. */
  function Faults(kind: Kind, wss: nat, data: seq<int>): (f: nat)
    requires wss >= 1
    ensures f <= |data|
  {
    FaultsBounded(kind, wss, data);
    Run(kind, wss, data).faults
  }

  /** Every reference either faults, fills a slot or hits, so faults and
    * occupied slots together never outnumber the references. */
  lemma {:induction false} FaultsBounded(kind: Kind, wss: nat, data: seq<int>)
    requires wss >= 1
    ensures Run(kind, wss, data).faults + |Run(kind, wss, data).pages| <= |data|
    decreases |data|
  {
    if data != [] {
      FaultsBounded(kind, wss, data[..|data| - 1]);
    }
  }

  lemma RunSnoc(kind: Kind, wss: nat, d: seq<int>, x: int)
    requires wss >= 1
    ensures Run(kind, wss, d + [x]) == Step(kind, wss, d, Run(kind, wss, d), x)
  {
    assert (d + [x])[..|d|] == d;
  }

  // ------------------------------------------------- what all three keep

  /** The frame invariant: resident pages are pairwise distinct and each was
    * referenced by the trace (so none is the sentinel); while a slot is free
    * there has been no fault and the hand has not moved; FIFO's cursor is the
    * number of faults modulo `wss`, so faults overwrite slots 0, 1, ...,
    * wss-1, 0, ... in turn. */
  ghost predicate FrameInvariant(kind: Kind, wss: nat, data: seq<int>, st: State)
    requires wss >= 1
  {
    && Distinct(st.pages)
    && (forall p :: p in st.pages ==> p in data)
    && (|st.pages| < wss ==> st.faults == 0 && st.hand == 0)
    && (kind == FIFO ==> st.hand == st.faults % wss)
  }

  lemma MulSign(d: int, b: int)
    requires b > 0
    ensures d >= 1 ==> d * b >= b
    ensures d <= -1 ==> d * b <= -b
  {
  }

  lemma ModUnique(a: int, b: int, q: int, r: int)
    requires b > 0 && a == q * b + r && 0 <= r < b
    ensures a % b == r && a / b == q
  {
    var q0, r0 := a / b, a % b;
    assert a == q0 * b + r0;
    assert (q - q0) * b == r0 - r;
    MulSign(q - q0, b);
  }

  lemma NextMod(f: nat, wss: nat)
    requires wss >= 1
    ensures Next(f % wss, wss) == (f + 1) % wss
  {
    var q, r := f / wss, f % wss;
    if r + 1 < wss {
      ModUnique(f + 1, wss, q, r + 1);
    } else {
      ModUnique(f + 1, wss, q + 1, 0);
    }
  }

  lemma ReplaceKeepsDistinct(pages: seq<int>, k: nat, x: int)
    requires Distinct(pages) && x !in pages && k < |pages|
    ensures Distinct(pages[k := x])
    ensures forall p :: p in pages[k := x] ==> p == x || p in pages
  {
    forall p | p in pages[k := x] ensures p == x || p in pages {
      var i :| 0 <= i < |pages| && pages[k := x][i] == p;
      if i != k { assert pages[i] == p; }
    }
  }

  lemma {:induction false} FrameInvariantHolds(kind: Kind, wss: nat, data: seq<int>)
    requires wss >= 1
    ensures FrameInvariant(kind, wss, data, Run(kind, wss, data))
    decreases |data|
  {
    if data != [] {
      var n := |data| - 1;
      var d, x := data[..n], data[n];
      FrameInvariantHolds(kind, wss, d);
      var st := Run(kind, wss, d);
      assert data == d + [x];
      if x !in st.pages {
        if |st.pages| < wss {
          assert Distinct(st.pages + [x]);
        } else {
          match kind
          case LRU =>
            ReplaceKeepsDistinct(st.pages, IndexOf(st.pages, LeastRecent(d, st.pages)), x);
          case FIFO =>
            ReplaceKeepsDistinct(st.pages, st.hand, x);
            NextMod(st.faults, wss);
          case Clock =>
            ReplaceKeepsDistinct(st.pages, Ahead(st.hand, SweepLength(st.bits, st.hand, 0), wss), x);
        }
      }
    }
  }

  /** Once the frame is full it stays full. */
  lemma {:induction false} StaysFull(kind: Kind, wss: nat, data: seq<int>, n: nat)
    requires wss >= 1 && n <= |data|
    requires |Run(kind, wss, data[..n]).pages| == wss
    ensures |Run(kind, wss, data).pages| == wss
    decreases |data|
  {
    if n < |data| {
      var d := data[..|data| - 1];
      assert d[..n] == data[..n];
      StaysFull(kind, wss, d, n);
    } else {
      assert data[..n] == data;
    }
  }

  /** A trace that references at most `wss` distinct pages never faults:
    * every first reference fills a free slot, every later one is a hit. */
  lemma {:induction false} FewPagesNoFaults(kind: Kind, wss: nat, data: seq<int>)
    requires wss >= 1 && |Elems(data)| <= wss
    ensures Faults(kind, wss, data) == 0
    ensures Elems(Run(kind, wss, data).pages) == Elems(data)
    decreases |data|
  {
    if data != [] {
      var n := |data| - 1;
      var d, x := data[..n], data[n];
      assert data == d + [x];
      assert Elems(data) == Elems(d) + {x};
      SubsetCard(Elems(d), Elems(data));
      FewPagesNoFaults(kind, wss, d);
      var st := Run(kind, wss, d);
      if x !in st.pages {
        FrameInvariantHolds(kind, wss, d);
        DistinctCard(st.pages);
        assert x !in Elems(d);
        assert |Elems(data)| == |Elems(d)| + 1;
        assert Elems(st.pages + [x]) == Elems(st.pages) + {x};
      }
    }
  }

  /** `n` references to page `x`. */
  function Repeat(x: int, n: nat): (s: seq<int>)
    ensures |s| == n && forall j :: 0 <= j < n ==> s[j] == x
  {
    if n == 0 then [] else [x] + Repeat(x, n - 1)
  }

  /** Replaying a reference to a resident page any number of times causes no
    * fault and changes neither the frame nor the hand; Clock only sets the use
    * bit of the page's slot. */
  lemma {:induction false} HitsAreIdle(kind: Kind, wss: nat, data: seq<int>, x: int, n: nat)
    requires wss >= 1 && n >= 1 && x in Run(kind, wss, data).pages
    ensures var before, after := Run(kind, wss, data), Run(kind, wss, data + Repeat(x, n));
      && after.pages == before.pages && after.hand == before.hand
      && after.faults == before.faults
      && after.bits == if kind == Clock then before.bits[IndexOf(before.pages, x) := true]
                       else before.bits
    decreases n
  {
    RepeatFirst(data, x, n);
    HitOnce(kind, wss, data, x);
    if n > 1 {
      HitsAreIdle(kind, wss, data + [x], x, n - 1);
    }
  }

  /** The first of `n` repeated references, taken off the front. */
  lemma RepeatFirst(data: seq<int>, x: int, n: nat)
    requires n >= 1
    ensures data + Repeat(x, n) == (data + [x]) + Repeat(x, n - 1)
    ensures n == 1 ==> data + Repeat(x, n) == data + [x]
  {
  }

  /** One hit at the end of a trace. */
  lemma HitOnce(kind: Kind, wss: nat, d: seq<int>, x: int)
    requires wss >= 1 && x in Run(kind, wss, d).pages
    ensures var st, r := Run(kind, wss, d), Run(kind, wss, d + [x]);
      && r.pages == st.pages && r.hand == st.hand && r.faults == st.faults
      && r.bits == if kind == Clock then st.bits[IndexOf(st.pages, x) := true] else st.bits
  {
    RunSnoc(kind, wss, d, x);
    HitStep(kind, wss, d, Run(kind, wss, d), x);
  }

  /** A single hit: only Clock changes anything, the use bit of the slot. */
  lemma HitStep(kind: Kind, wss: nat, h: seq<int>, st: State, x: int)
    requires Shaped(wss, st) && x in st.pages
    ensures Step(kind, wss, h, st, x)
         == if kind == Clock then st.(bits := st.bits[IndexOf(st.pages, x) := true]) else st
  {
  }
}
