/** The three engines of replaceAlgos.c, as the C code runs them: over a
  * `wss`-slot array whose empty slots hold INT_MIN, a size counter, a fault
  * counter and, for FIFO and Clock, a cursor. Each method is proved to return
  * the fault count of the corresponding run of the Policy state machine. */
module Engines {
  import opened Frame
  import opened Policy

  /** What the backward scan of LRU knows when it is about to look at
    * position `j` of the history `h`: `recorded` lists the resident pages met
    * so far, `unseen` the resident pages not yet met, and a resident page is
    * unseen exactly when its latest reference lies at or before `j`. */
  ghost predicate ScanInvariant(h: seq<int>, pages: seq<int>, j: int, recorded: seq<int>, unseen: set<int>)
  {
    && (forall m :: 0 <= m < |recorded| ==> recorded[m] in pages)
    && unseen <= Elems(pages) && |unseen| + |recorded| == |pages|
    && (forall p :: p in pages ==> (p in unseen <==> LastUse(h, p) <= j))
    && (forall p :: p in pages ==> (p in recorded <==> p !in unseen))
  }

  /** Looking at position `j` (whose reference is `x`, and which may be the
    * faulting position |h| itself) and recording `x` if it is resident and
    * new keeps the scan's invariant one position further back. */
  lemma ScanStep(h: seq<int>, pages: seq<int>, j: nat, recorded: seq<int>, unseen: set<int>, x: int)
    requires ScanInvariant(h, pages, j, recorded, unseen)
    requires j <= |h| && (j < |h| ==> h[j] == x) && (j == |h| ==> x !in pages)
    ensures x in pages && x !in recorded ==> x in unseen
    ensures var isNew := x in pages && x !in recorded;
      ScanInvariant(h, pages, j - 1, if isNew then recorded + [x] else recorded,
                    if isNew then unseen - {x} else unseen)
  {
  }

  /** The page whose recording completes the list is the least recently used. */
  lemma ScanFinds(h: seq<int>, pages: seq<int>, j: nat, recorded: seq<int>, unseen: set<int>, x: int)
    requires pages != [] && Distinct(pages)
    requires ScanInvariant(h, pages, j, recorded, unseen)
    requires j < |h| && h[j] == x && x in pages && x !in recorded
    requires |recorded| + 1 == |pages|
    ensures x == LeastRecent(h, pages)
  {
    assert x in unseen;
    assert |unseen - {x}| == 0;
    assert forall q :: q in pages && q != x ==> q !in unseen;
  }

  /** While some resident page is unrecorded, the scan has not run off the
    * front of the trace: that page is referenced at or before `j`. */
  lemma ScanContinues(h: seq<int>, pages: seq<int>, j: int, recorded: seq<int>, unseen: set<int>)
    requires ScanInvariant(h, pages, j, recorded, unseen)
    requires |recorded| < |pages| && forall p :: p in pages ==> p in h
    ensures 0 <= j
  {
    assert (forall p :: p in pages ==> p !in unseen) ==> unseen == {};
    var q :| q in pages && q in unseen;
    assert q in h;
  }

  /** The backward scan of LRU on a full-frame miss at position `i`: walking
    * the trace from `i` down to 0, record each resident page the first time
    * it is met in `ru`; the page whose recording fills `ru` is the victim.
    * The scan always ends that way, before running off the trace. */
  method LeastRecentlyUsed(frame: array<int>, wss: nat, data: array<int>, i: nat)
    returns (lru: int)
    requires wss >= 1 && frame.Length == wss && i < data.Length
    requires NoSentinel(data[..])
    requires Distinct(frame[..]) && forall p :: p in frame[..] ==> p in data[..i]
    requires data[i] !in frame[..]
    ensures lru == LeastRecent(data[..i], frame[..])
  {
    ghost var h, pages := data[..i], frame[..];
    assert frame[..wss] == pages;
    assert forall j :: 0 <= j < i ==> h[j] == data[j];
    assert forall j :: 0 <= j <= i ==> data[j] != Sentinel by {
      forall j | 0 <= j <= i ensures data[j] != Sentinel { assert data[..][j] == data[j]; }
    }
    var ru := new int[wss];
    for k := 0 to wss
      invariant forall m :: 0 <= m < k ==> ru[m] == Sentinel
    {
      ru[k] := Sentinel;
    }
    assert ru[..] == Padded([], wss);
    lru := ScanBack(frame, ru, data, i, h, pages);
  }

  /** The loop of the backward scan, over the scratch array `ru` (initially
    * all sentinels), with the history `h` and the resident pages `pages`. */
  method ScanBack(frame: array<int>, ru: array<int>, data: array<int>, i: nat,
                  ghost h: seq<int>, ghost pages: seq<int>)
    returns (lru: int)
    requires ru != frame && ru != data
    requires frame[..] == pages && frame.Length == ru.Length >= 1 && ru[..] == Padded([], ru.Length)
    requires i < data.Length && |h| == i && forall j :: 0 <= j < i ==> h[j] == data[j]
    requires forall j :: 0 <= j <= i ==> data[j] != Sentinel
    requires Distinct(pages) && (forall p :: p in pages ==> p in h) && data[i] !in pages
    modifies ru
    ensures lru == LeastRecent(h, pages)
  {
    var wss := ru.Length;
    ghost var unseen := Elems(pages);
    DistinctCard(pages);
    var j: int, c: nat := i, 0;
    ghost var recorded: seq<int> := [];
    while j >= 0
      invariant 0 <= j <= i && c == |recorded| < wss
      invariant ru[..] == Padded(recorded, wss)
      invariant ScanInvariant(h, pages, j, recorded, unseen)
      decreases j
    {
      var x := data[j];
      var done;
      c, done, recorded, unseen := Visit(frame, ru, c, x, h, pages, j, recorded, unseen);
      if done {
        lru := x;
        break;
      }
      j := j - 1;
      // the scan cannot run off the front of the trace (replaceAlgos.c:221-223)
      ScanContinues(h, pages, j, recorded, unseen);
    }
  }

  /** One position `j` of the backward scan, holding reference `x`: if `x` is
    * resident and not yet in `ru`, record it in slot `c`. Reports whether
    * that filled `ru`, in which case `x` is the least recently used page. */
  method Visit(frame: array<int>, ru: array<int>, c: nat, x: int,
               ghost h: seq<int>, ghost pages: seq<int>, ghost j: nat,
               ghost recorded: seq<int>, ghost unseen: set<int>)
    returns (c': nat, done: bool, ghost recorded': seq<int>, ghost unseen': set<int>)
    requires ru != frame && frame[..] == pages && frame.Length == ru.Length
    requires Distinct(pages) && x != Sentinel
    requires c == |recorded| < ru.Length && ru[..] == Padded(recorded, ru.Length)
    requires ScanInvariant(h, pages, j, recorded, unseen)
    requires j <= |h| && (j < |h| ==> h[j] == x) && (j == |h| ==> x !in pages)
    modifies ru
    ensures c' == |recorded'| <= ru.Length && ru[..] == Padded(recorded', ru.Length)
    ensures ScanInvariant(h, pages, j - 1, recorded', unseen')
    ensures done <==> c' == ru.Length
    ensures done ==> j < |h| && x == LeastRecent(h, pages)
  {
    var wss := ru.Length;
    assert frame[..wss] == pages;
    ScanStep(h, pages, j, recorded, unseen, x);
    c', done, recorded', unseen' := c, false, recorded, unseen;
    var resident := ArrayContains(frame, wss, x);
    if resident {
      PaddedLookup(recorded, wss, x);
      assert ru[..wss] == ru[..];
      var known := ArrayContains(ru, wss, x);
      if !known {
        if c + 1 == wss {
          ScanFinds(h, pages, j, recorded, unseen, x);
        }
        PaddedPush(recorded, wss, x);
        ru[c] := x;
        c' := c + 1;
        recorded', unseen' := recorded + [x], unseen - {x};
        done := c' == wss;
      }
    }
  }

  /** `LRU(wss, data)`: the number of page faults of the least-recently-used
    * policy with `wss` page frames over the trace `data`. */
  method LRU(wss: nat, data: array<int>) returns (faults: nat)
    requires wss >= 1 && NoSentinel(data[..])
    ensures faults == Faults(Kind.LRU, wss, data[..])
  {
    faults := 0;
    var size: nat := 0;
    var frame := new int[wss];
    for i := 0 to wss
      invariant forall m :: 0 <= m < i ==> frame[m] == Sentinel
    {
      frame[i] := Sentinel;
    }
    assert data[..0] == [];
    assert frame[..] == Padded([], wss);
    for i := 0 to data.Length
      invariant frame[..] == Padded(Run(Kind.LRU, wss, data[..i]).pages, wss)
      invariant size == |Run(Kind.LRU, wss, data[..i]).pages|
      invariant faults == Run(Kind.LRU, wss, data[..i]).faults
    {
      assert data[..i + 1] == data[..i] + [data[i]];
      RunSnoc(Kind.LRU, wss, data[..i], data[i]);
      var fault;
      size, fault := LruReference(frame, size, data, i, Run(Kind.LRU, wss, data[..i]));
      if fault {
        faults := faults + 1;
      }
    }
    assert data[..data.Length] == data[..];
  }

  /** One iteration of LRU's main loop: the reference `data[i]` against the
    * frame, which holds the pages of state `st`. Returns the new size and
    * whether a page fault occurred. */
  method LruReference(frame: array<int>, size: nat, data: array<int>, i: nat, ghost st: State)
    returns (size': nat, fault: bool)
    requires frame.Length >= 1 && i < data.Length && NoSentinel(data[..])
    requires frame != data
    requires st == Run(Kind.LRU, frame.Length, data[..i])
    requires frame[..] == Padded(st.pages, frame.Length) && size == |st.pages|
    modifies frame
    ensures var r := Step(Kind.LRU, frame.Length, data[..i], st, data[i]);
      frame[..] == Padded(r.pages, frame.Length) && size' == |r.pages|
      && r.faults == st.faults + (if fault then 1 else 0)
  {
    var wss := frame.Length;
    var x := data[i];
    assert x != Sentinel by { assert data[..][i] == x; }
    PaddedLookup(st.pages, wss, x);
    assert frame[..wss] == frame[..];
    var present := ArrayContains(frame, wss, x);
    size', fault := size, false;
    if !present {
      if size != wss {
        PaddedPush(st.pages, wss, x);
        frame[size] := x;
        size' := size + 1;
      } else {
        LruEvict(frame, data, i, st);
        fault := true;
      }
    }
  }

  /** A full-frame miss at `data[i]`: find the least recently used page by the
    * backward scan and overwrite its slot with `data[i]`. */
  method LruEvict(frame: array<int>, data: array<int>, i: nat, ghost st: State)
    requires frame.Length >= 1 && i < data.Length && NoSentinel(data[..])
    requires frame != data
    requires st == Run(Kind.LRU, frame.Length, data[..i])
    requires frame[..] == st.pages && data[i] !in st.pages
    modifies frame
    ensures frame[..] == Evict(Kind.LRU, frame.Length, data[..i], st, data[i]).pages
  {
    var wss := frame.Length;
    FrameInvariantHolds(Kind.LRU, wss, data[..i]);
    var lru := LeastRecentlyUsed(frame, wss, data, i);
    assert frame[..wss] == frame[..];
    var slot := GetIndex(frame, wss, lru);
    frame[slot] := data[i];
  }

  /** `FIFO(wss, data)`: the number of page faults of the first-in-first-out
    * policy with `wss` page frames over the trace `data`. */
  method FIFO(wss: nat, data: array<int>) returns (faults: nat)
    requires wss >= 1 && NoSentinel(data[..])
    ensures faults == Faults(Kind.FIFO, wss, data[..])
  {
    faults := 0;
    var size: nat := 0;
    var frame := new int[wss];
    for i := 0 to wss
      invariant forall m :: 0 <= m < i ==> frame[m] == Sentinel
    {
      frame[i] := Sentinel;
    }
    assert data[..0] == [];
    assert frame[..] == Padded([], wss);
    var fifoIndex: nat := 0;
    for i := 0 to data.Length
      invariant frame[..] == Padded(Run(Kind.FIFO, wss, data[..i]).pages, wss)
      invariant size == |Run(Kind.FIFO, wss, data[..i]).pages|
      invariant fifoIndex == Run(Kind.FIFO, wss, data[..i]).hand
      invariant faults == Run(Kind.FIFO, wss, data[..i]).faults
    {
      assert data[..i + 1] == data[..i] + [data[i]];
      assert data[i] != Sentinel by { assert data[..][i] == data[i]; }
      RunSnoc(Kind.FIFO, wss, data[..i], data[i]);
      var fault;
      size, fifoIndex, fault := FifoReference(frame, size, fifoIndex, data[i], data[..i], Run(Kind.FIFO, wss, data[..i]));
      if fault {
        faults := faults + 1;
      }
    }
    assert data[..data.Length] == data[..];
  }

  /** One iteration of FIFO's main loop: the reference `x` against the frame,
    * which holds the pages of state `st` with the cursor at `fifoIndex`.
    * Returns the new size and cursor and whether a page fault occurred. */
  method FifoReference(frame: array<int>, size: nat, fifoIndex: nat, x: int,
                       ghost h: seq<int>, ghost st: State)
    returns (size': nat, fifoIndex': nat, fault: bool)
    requires x != Sentinel && Shaped(frame.Length, st)
    requires frame[..] == Padded(st.pages, frame.Length) && size == |st.pages| && fifoIndex == st.hand
    modifies frame
    ensures var r := Step(Kind.FIFO, frame.Length, h, st, x);
      frame[..] == Padded(r.pages, frame.Length) && size' == |r.pages| && fifoIndex' == r.hand
      && r.faults == st.faults + (if fault then 1 else 0)
  {
    var wss := frame.Length;
    PaddedLookup(st.pages, wss, x);
    assert frame[..wss] == frame[..];
    var present := ArrayContains(frame, wss, x);
    size', fifoIndex', fault := size, fifoIndex, false;
    if !present {
      if size != wss {
        PaddedPush(st.pages, wss, x);
        frame[size] := x;
        size' := size + 1;
      } else {
        assert frame[..] == st.pages;
        frame[fifoIndex] := x;
        fifoIndex' := fifoIndex + 1;
        if fifoIndex' == wss {
          fifoIndex' := 0;
        }
        fault := true;
      }
    }
  }

  /** The sweep of Clock on a full-frame miss: while the slot under the hand
    * has its use bit set, clear it and advance the hand. Returns the slot the
    * hand stops at. */
  method Sweep(secondChance: array<bool>, hand: nat) returns (slot: nat)
    requires hand < secondChance.Length
    modifies secondChance
    ensures slot == Ahead(hand, SweepLength(old(secondChance[..]), hand, 0), secondChance.Length)
    ensures secondChance[..] == Swept(old(secondChance[..]), hand, SweepLength(old(secondChance[..]), hand, 0))
  {
    ghost var bits := secondChance[..];
    var wss := secondChance.Length;
    ghost var t: nat := 0;
    slot := hand;
    assert Swept(bits, hand, 0) == bits;
    while secondChance[slot]
      invariant t <= wss && slot == Ahead(hand, t, wss)
      invariant forall u :: 0 <= u < t ==> bits[Ahead(hand, u, wss)]
      invariant secondChance[..] == Swept(bits, hand, t)
      decreases wss - t
    {
      assert secondChance[slot] == Swept(bits, hand, t)[slot];
      secondChance[slot] := false;
      slot := slot + 1;
      if slot == wss {
        slot := 0;
      }
      t := t + 1;
    }
    assert secondChance[slot] == Swept(bits, hand, t)[slot];
    SweepLengthUnique(bits, hand, t);
  }

  /** `Clock(wss, data)`: the number of page faults of the second-chance
    * policy with `wss` page frames over the trace `data`. */
  method Clock(wss: nat, data: array<int>) returns (faults: nat)
    requires wss >= 1 && NoSentinel(data[..])
    ensures faults == Faults(Kind.Clock, wss, data[..])
  {
    faults := 0;
    var size: nat := 0;
    var frame := new int[wss];
    var secondChance := new bool[wss];
    for i := 0 to wss
      invariant forall m :: 0 <= m < i ==> frame[m] == Sentinel && !secondChance[m]
    {
      frame[i] := Sentinel;
      secondChance[i] := false;
    }
    assert data[..0] == [];
    assert frame[..] == Padded([], wss);
    assert secondChance[..] == Init(wss).bits;
    var fifoIndex: nat := 0;
    for i := 0 to data.Length
      invariant frame[..] == Padded(Run(Kind.Clock, wss, data[..i]).pages, wss)
      invariant size == |Run(Kind.Clock, wss, data[..i]).pages|
      invariant secondChance[..] == Run(Kind.Clock, wss, data[..i]).bits
      invariant fifoIndex == Run(Kind.Clock, wss, data[..i]).hand
      invariant faults == Run(Kind.Clock, wss, data[..i]).faults
    {
      assert data[..i + 1] == data[..i] + [data[i]];
      assert data[i] != Sentinel by { assert data[..][i] == data[i]; }
      RunSnoc(Kind.Clock, wss, data[..i], data[i]);
      var fault;
      size, fifoIndex, fault := ClockReference(frame, secondChance, size, fifoIndex, data[i], data[..i], Run(Kind.Clock, wss, data[..i]));
      if fault {
        faults := faults + 1;
      }
    }
    assert data[..data.Length] == data[..];
  }

  /** One iteration of Clock's main loop: the reference `x` against the frame
    * and use bits, which hold the pages and bits of state `st` with the hand
    * at `fifoIndex`. Returns the new size and hand and whether a page fault
    * occurred. */
  method ClockReference(frame: array<int>, secondChance: array<bool>, size: nat, fifoIndex: nat, x: int,
                        ghost h: seq<int>, ghost st: State)
    returns (size': nat, fifoIndex': nat, fault: bool)
    requires x != Sentinel && Shaped(frame.Length, st)
    requires frame[..] == Padded(st.pages, frame.Length) && size == |st.pages| && fifoIndex == st.hand
    requires secondChance[..] == st.bits
    modifies frame, secondChance
    ensures var r := Step(Kind.Clock, frame.Length, h, st, x);
      frame[..] == Padded(r.pages, frame.Length) && size' == |r.pages| && fifoIndex' == r.hand
      && secondChance[..] == r.bits
      && r.faults == st.faults + (if fault then 1 else 0)
  {
    var wss := frame.Length;
    PaddedLookup(st.pages, wss, x);
    assert frame[..wss] == frame[..];
    var present := ArrayContains(frame, wss, x);
    size', fifoIndex', fault := size, fifoIndex, false;
    if !present {
      if size != wss {
        PaddedPush(st.pages, wss, x);
        frame[size] := x;
        size' := size + 1;
      } else {
        assert frame[..] == st.pages;
        fifoIndex' := Sweep(secondChance, fifoIndex);
        frame[fifoIndex'] := x;
        fifoIndex' := fifoIndex' + 1;
        if fifoIndex' == wss {
          fifoIndex' := 0;
        }
        fault := true;
      }
    } else {
      var idx := GetIndex(frame, wss, x);
      secondChance[idx] := true;
    }
  }
}
