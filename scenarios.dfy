/** The reference string 1 2 3 4 1 2 5 1 2 3 4 5 with three frames, replayed
  * reference by reference under each policy. Filling a free slot is not a
  * fault, so FIFO reports 6 faults and LRU and Clock report 7. */
module Scenarios {
  import opened Policy

  const Belady: seq<int> := [1, 2, 3, 4, 1, 2, 5, 1, 2, 3, 4, 5]

  /** The FIFO state after the first `k` references of the string. */
  function FifoAt(k: nat): State
  {
    if k == 0 then State([], 0, [false, false, false], 0)
    else if k == 1 then State([1], 0, [false, false, false], 0)
    else if k == 2 then State([1, 2], 0, [false, false, false], 0)
    else if k == 3 then State([1, 2, 3], 0, [false, false, false], 0)
    else if k == 4 then State([4, 2, 3], 1, [false, false, false], 1)
    else if k == 5 then State([4, 1, 3], 2, [false, false, false], 2)
    else if k == 6 then State([4, 1, 2], 0, [false, false, false], 3)
    else if k <= 9 then State([5, 1, 2], 1, [false, false, false], 4)
    else if k == 10 then State([5, 3, 2], 2, [false, false, false], 5)
    else if k == 11 then State([5, 3, 4], 0, [false, false, false], 6)
    else State([5, 3, 4], 0, [false, false, false], 6)
  }

  /** The LRU state after the first `k` references of the string. */
  function LruAt(k: nat): State
  {
    if k == 0 then State([], 0, [false, false, false], 0)
    else if k == 1 then State([1], 0, [false, false, false], 0)
    else if k == 2 then State([1, 2], 0, [false, false, false], 0)
    else if k == 3 then State([1, 2, 3], 0, [false, false, false], 0)
    else if k == 4 then State([4, 2, 3], 0, [false, false, false], 1)
    else if k == 5 then State([4, 1, 3], 0, [false, false, false], 2)
    else if k == 6 then State([4, 1, 2], 0, [false, false, false], 3)
    else if k <= 9 then State([5, 1, 2], 0, [false, false, false], 4)
    else if k == 10 then State([3, 1, 2], 0, [false, false, false], 5)
    else if k == 11 then State([3, 4, 2], 0, [false, false, false], 6)
    else State([3, 4, 5], 0, [false, false, false], 7)
  }

  /** The Clock state after the first `k` references of the string. */
  function ClockAt(k: nat): State
  {
    if k == 0 then State([], 0, [false, false, false], 0)
    else if k == 1 then State([1], 0, [false, false, false], 0)
    else if k == 2 then State([1, 2], 0, [false, false, false], 0)
    else if k == 3 then State([1, 2, 3], 0, [false, false, false], 0)
    else if k == 4 then State([4, 2, 3], 1, [false, false, false], 1)
    else if k == 5 then State([4, 1, 3], 2, [false, false, false], 2)
    else if k == 6 then State([4, 1, 2], 0, [false, false, false], 3)
    else if k == 7 then State([5, 1, 2], 1, [false, false, false], 4)
    else if k == 8 then State([5, 1, 2], 1, [false, true, false], 4)
    else if k == 9 then State([5, 1, 2], 1, [false, true, true], 4)
    else if k == 10 then State([3, 1, 2], 1, [false, false, false], 5)
    else if k == 11 then State([3, 4, 2], 2, [false, false, false], 6)
    else State([3, 4, 5], 0, [false, false, false], 7)
  }

  function Trajectory(kind: Kind, k: nat): State
  {
    match kind
    case FIFO => FifoAt(k)
    case LRU => LruAt(k)
    case Clock => ClockAt(k)
  }

  /** Reference `k` takes the tabulated state before it to the one after it. */
  ghost predicate Links(kind: Kind, k: nat)
    requires k < |Belady|
  {
    Shaped(3, Trajectory(kind, k))
    && Step(kind, 3, Belady[..k], Trajectory(kind, k), Belady[k]) == Trajectory(kind, k + 1)
  }

  /** Linked single steps compose: the run over the first `n` references ends
    * in the tabulated state. */
  lemma {:induction false} RunFollows(kind: Kind, n: nat)
    requires n <= |Belady|
    ensures Run(kind, 3, Belady[..n]) == Trajectory(kind, n)
    decreases n
  {
    if n == 0 {
      assert Belady[..0] == [];
    } else {
      RunFollows(kind, n - 1);
      StepLinks(kind, n - 1);
      assert Belady[..n][..n - 1] == Belady[..n - 1];
    }
  }

  /** The run over the whole string ends in the last tabulated state. */
  lemma Replay(kind: Kind, t: seq<int>)
    requires t == Belady
    ensures Run(kind, 3, t) == Trajectory(kind, 12)
  {
    RunFollows(kind, |Belady|);
    assert Belady[..|Belady|] == Belady;
  }

  lemma StepLinks(kind: Kind, k: nat)
    requires k < |Belady|
    ensures Links(kind, k)
  {
    match kind
    case FIFO => FifoLinks(k);
    case LRU => LruLinks(k);
    case Clock => ClockLinks(k);
  }

  /** A position holding `p` with no later `p` before `n` is the latest
    * reference to `p` in `t[..n]`. */
  lemma LastUseAt(t: seq<int>, n: nat, p: int, k: nat)
    requires k < n <= |t| && t[k] == p && forall j :: k < j < n ==> t[j] != p
    ensures LastUse(t[..n], p) == k
  {
  }

  lemma FifoLinks(k: nat)
    requires k < |Belady|
    ensures Links(FIFO, k)
  {
    if k < 6 { FifoEarly(k); } else { FifoLate(k); }
  }

  lemma FifoEarly(k: nat)
    requires k < 6
    ensures Links(FIFO, k)
  {
  }

  lemma FifoLate(k: nat)
    requires 6 <= k < |Belady|
    ensures Links(FIFO, k)
  {
  }

  lemma LruLinks(k: nat)
    requires k < |Belady|
    ensures Links(LRU, k)
  {
    if k == 0 { LruStep0(); }
    else if k == 1 { LruStep1(); }
    else if k == 2 { LruStep2(); }
    else if k == 3 { LruStep3(); }
    else if k == 4 { LruStep4(); }
    else if k == 5 { LruStep5(); }
    else if k == 6 { LruStep6(); }
    else if k == 7 { LruStep7(); }
    else if k == 8 { LruStep8(); }
    else if k == 9 { LruStep9(); }
    else if k == 10 { LruStep10(); }
    else { LruStep11(); }
  }

  lemma ClockLinks(k: nat)
    requires k < |Belady|
    ensures Links(Clock, k)
  {
    if k == 0 { ClockStep0(); }
    else if k == 1 { ClockStep1(); }
    else if k == 2 { ClockStep2(); }
    else if k == 3 { ClockStep3(); }
    else if k == 4 { ClockStep4(); }
    else if k == 5 { ClockStep5(); }
    else if k == 6 { ClockStep6(); }
    else if k == 7 { ClockStep7(); }
    else if k == 8 { ClockStep8(); }
    else if k == 9 { ClockStep9(); }
    else if k == 10 { ClockStep10(); }
    else { ClockStep11(); }
  }

  lemma LruStep0()
    ensures Links(LRU, 0)
  {
  }

  lemma LruStep1()
    ensures Links(LRU, 1)
  {
  }

  lemma LruStep2()
    ensures Links(LRU, 2)
  {
  }

  lemma LruStep3()
    ensures Links(LRU, 3)
  {
    LastUseAt(Belady, 3, 1, 0);
    LastUseAt(Belady, 3, 2, 1);
    LastUseAt(Belady, 3, 3, 2);
  }

  lemma LruStep4()
    ensures Links(LRU, 4)
  {
    LastUseAt(Belady, 4, 4, 3);
    LastUseAt(Belady, 4, 2, 1);
    LastUseAt(Belady, 4, 3, 2);
  }

  lemma LruStep5()
    ensures Links(LRU, 5)
  {
    assert Belady[..5] == [1, 2, 3, 4, 1];
    LastUseAt(Belady, 5, 4, 3);
    LastUseAt(Belady, 5, 1, 4);
    LastUseAt(Belady, 5, 3, 2);
  }

  lemma LruStep6()
    ensures Links(LRU, 6)
  {
    LastUseAt(Belady, 6, 4, 3);
    LastUseAt(Belady, 6, 1, 4);
    LastUseAt(Belady, 6, 2, 5);
  }

  lemma LruStep7()
    ensures Links(LRU, 7)
  {
  }

  lemma LruStep8()
    ensures Links(LRU, 8)
  {
  }

  lemma LruStep9()
    ensures Links(LRU, 9)
  {
    LastUseAt(Belady, 9, 5, 6);
    LastUseAt(Belady, 9, 1, 7);
    LastUseAt(Belady, 9, 2, 8);
  }

  lemma LruStep10()
    ensures Links(LRU, 10)
  {
    LastUseAt(Belady, 10, 3, 9);
    LastUseAt(Belady, 10, 1, 7);
    LastUseAt(Belady, 10, 2, 8);
  }

  lemma LruStep11()
    ensures Links(LRU, 11)
  {
    LastUseAt(Belady, 11, 3, 9);
    LastUseAt(Belady, 11, 4, 10);
    LastUseAt(Belady, 11, 2, 8);
  }

  lemma ClockStep0()
    ensures Links(Clock, 0)
  {
  }

  lemma ClockStep1()
    ensures Links(Clock, 1)
  {
  }

  lemma ClockStep2()
    ensures Links(Clock, 2)
  {
  }

  lemma ClockStep3()
    ensures Links(Clock, 3)
  {
  }

  lemma ClockStep4()
    ensures Links(Clock, 4)
  {
  }

  lemma ClockStep5()
    ensures Links(Clock, 5)
  {
  }

  lemma ClockStep6()
    ensures Links(Clock, 6)
  {
  }

  lemma ClockStep7()
    ensures Links(Clock, 7)
  {
  }

  lemma ClockStep8()
    ensures Links(Clock, 8)
  {
  }

  lemma ClockStep9()
    ensures Links(Clock, 9)
  {
  }

  lemma ClockStep10()
    ensures Links(Clock, 10)
  {
  }

  lemma ClockStep11()
    ensures Links(Clock, 11)
  {
  }

  lemma FifoBelady()
    ensures Faults(FIFO, 3, Belady) == 6
    ensures Run(FIFO, 3, Belady).pages == [5, 3, 4]
  {
    Replay(FIFO, Belady);
  }

  lemma LruBelady()
    ensures Faults(LRU, 3, Belady) == 7
    ensures Run(LRU, 3, Belady).pages == [3, 4, 5]
  {
    Replay(LRU, Belady);
  }

  lemma ClockBelady()
    ensures Faults(Clock, 3, Belady) == 7
    ensures Run(Clock, 3, Belady).pages == [3, 4, 5]
  {
    Replay(Clock, Belady);
  }
}
