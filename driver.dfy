/** The Monte Carlo driver of replaceAlgos.c: for every trial it builds a trace
  * from externally supplied samples, runs the three engines on it for every
  * working-set size in `[lower, upper]`, accumulates the fault counts per size
  * and finally divides each total by the number of trials. */
module MonteCarlo {
  import opened Frame
  import opened Policy
  import Engines

  /** The trace is cut into regions of this many references... */
  const RegionWidth: nat := 100
  /** ...and each region's pages are shifted up by this much from the last. */
  const RegionShift: int := 10

  /** The trace built from the samples `s`: reference `j` is sample `j` plus the
    * shift of the region `j` falls in. */
  function Trace(s: seq<int>): (t: seq<int>)
    ensures |t| == |s|
    ensures forall j :: 0 <= j < |s| ==> s[j] <= t[j]
  {
    seq(|s|, j requires 0 <= j < |s| => RegionShift * (j / RegionWidth) + s[j])
  }

  /** Inside region `r` every reference is its sample shifted by `10 * r`. */
  lemma TraceRegion(s: seq<int>, r: nat, j: nat)
    requires r * RegionWidth <= j < (r + 1) * RegionWidth && j < |s|
    ensures Trace(s)[j] == s[j] + RegionShift * r
  {
    ModUnique(j, RegionWidth, r, j - r * RegionWidth);
  }

  /** Samples above INT_MIN give a trace that never holds the sentinel. */
  predicate Admissible(s: seq<int>)
  {
    forall j :: 0 <= j < |s| ==> s[j] > Sentinel
  }

  lemma TraceNoSentinel(s: seq<int>)
    requires Admissible(s)
    ensures NoSentinel(Trace(s))
  {
    forall j | 0 <= j < |s| ensures Trace(s)[j] != Sentinel {
      assert RegionShift * (j / RegionWidth) >= 0;
    }
  }

  /** `data[j] = 10 * (j / 100) + s[j]` for every position of the trace. */
  method FillTrace(data: array<int>, s: seq<int>)
    requires data.Length == |s|
    modifies data
    ensures data[..] == Trace(s)
  {
    for j := 0 to data.Length
      invariant forall k :: 0 <= k < j ==> data[k] == Trace(s)[k]
    {
      data[j] := RegionShift * (j / RegionWidth) + s[j];
    }
  }

  /** The traces of all trials. */
  function Traces(samples: seq<seq<int>>): (ts: seq<seq<int>>)
    ensures |ts| == |samples|
  {
    seq(|samples|, t requires 0 <= t < |samples| => Trace(samples[t]))
  }

  /** The faults of one policy at one working-set size, summed over trials:
    * no single trial's faults exceed the total. */
  function Total(kind: Kind, wss: nat, ts: seq<seq<int>>): (r: nat)
    requires wss >= 1
    ensures forall t :: 0 <= t < |ts| ==> Faults(kind, wss, ts[t]) <= r
    decreases |ts|
  {
    if ts == [] then 0
    else
      var n := |ts| - 1;
      assert forall t :: 0 <= t < n ==> ts[..n][t] == ts[t];
      Total(kind, wss, ts[..n]) + Faults(kind, wss, ts[n])
  }

  /** Each trial adds at most its trace length. */
  lemma {:induction false} TotalBounded(kind: Kind, wss: nat, ts: seq<seq<int>>, len: nat)
    requires wss >= 1 && forall t :: 0 <= t < |ts| ==> |ts[t]| <= len
    ensures Total(kind, wss, ts) <= |ts| * len
    decreases |ts|
  {
    if ts != [] {
      var n := |ts| - 1;
      TotalBounded(kind, wss, ts[..n], len);
      MulSucc(n, len);
    }
  }

  /** So the average is at most the trace length, and with the program's
    * 1000 trials of 1000 references every total fits a 32-bit `int`. */
  lemma AverageBounded(kind: Kind, wss: nat, ts: seq<seq<int>>, len: nat)
    requires wss >= 1 && |ts| >= 1 && forall t :: 0 <= t < |ts| ==> |ts[t]| <= len
    ensures Total(kind, wss, ts) / |ts| <= len
    ensures |ts| <= 1000 && len <= 1000 ==> Total(kind, wss, ts) <= 0x7fff_ffff
  {
    var total, n := Total(kind, wss, ts), |ts|;
    TotalBounded(kind, wss, ts, len);
    DivBound(total, n, len);
    if n <= 1000 && len <= 1000 {
      MulMono(n, 1000, len);
      MulMono(len, 1000, 1000);
    }
  }

  lemma DivBound(total: nat, n: nat, len: nat)
    requires n >= 1 && total <= n * len
    ensures total / n <= len
  {
    var q := total / n;
    assert q * n <= total;
    MulSign(q - len, n);
    assert (q - len) * n == q * n - len * n;
  }

  lemma MulSucc(n: nat, c: nat)
    ensures (n + 1) * c == n * c + c
  {
  }

  lemma MulMono(a: nat, b: nat, c: nat)
    requires a <= b
    ensures a * c <= b * c
  {
  }

  /** Trials whose traces reference at most `wss` distinct pages add nothing. */
  lemma {:induction false} TotalNoFaults(kind: Kind, wss: nat, ts: seq<seq<int>>)
    requires wss >= 1 && forall t :: 0 <= t < |ts| ==> |Elems(ts[t])| <= wss
    ensures Total(kind, wss, ts) == 0
    decreases |ts|
  {
    if ts != [] {
      var n := |ts| - 1;
      TotalNoFaults(kind, wss, ts[..n]);
      FewPagesNoFaults(kind, wss, ts[n]);
    }
  }

  lemma TotalSnoc(kind: Kind, wss: nat, ts: seq<seq<int>>, t: nat)
    requires wss >= 1 && t < |ts|
    ensures Total(kind, wss, ts[..t + 1]) == Total(kind, wss, ts[..t]) + Faults(kind, wss, ts[t])
  {
    assert ts[..t + 1][..t] == ts[..t];
  }

  /** The body of `main` up to the output: `|samples|` trials over traces of
    * `length` references, working-set sizes `lower..upper`. Entry `w` of each
    * result array is the policy's fault count at size `w` averaged over the
    * trials (truncating division); entries below `lower` stay 0. */
  method Simulate(samples: seq<seq<int>>, length: nat, lower: nat, upper: nat)
    returns (lruResults: array<int>, fifoResults: array<int>, clockResults: array<int>)
    requires 1 <= lower && |samples| >= 1
    requires forall t :: 0 <= t < |samples| ==> |samples[t]| == length && Admissible(samples[t])
    ensures lruResults.Length == fifoResults.Length == clockResults.Length == upper + 1
    ensures forall w :: 0 <= w <= upper && w < lower ==>
      lruResults[w] == 0 && fifoResults[w] == 0 && clockResults[w] == 0
    ensures forall w :: lower <= w <= upper ==>
      && lruResults[w] == Total(Kind.LRU, w, Traces(samples)) / |samples|
      && fifoResults[w] == Total(Kind.FIFO, w, Traces(samples)) / |samples|
      && clockResults[w] == Total(Kind.Clock, w, Traces(samples)) / |samples|
  {
    ghost var ts := Traces(samples);
    var data := new int[length];
    lruResults, fifoResults, clockResults := new int[upper + 1], new int[upper + 1], new int[upper + 1];
    for w := 0 to upper + 1
      invariant forall v :: 0 <= v < w ==> lruResults[v] == 0 && fifoResults[v] == 0 && clockResults[v] == 0
    {
      lruResults[w], fifoResults[w], clockResults[w] := 0, 0, 0;
    }
    ghost var none: seq<seq<int>> := [];
    assert ts[..0] == none;
    for t := 0 to |samples|
      invariant Zeros(lruResults[..], lower) && Zeros(fifoResults[..], lower) && Zeros(clockResults[..], lower)
      invariant Sums(lruResults[..], Kind.LRU, lower, upper + 1, ts[..t])
      invariant Sums(fifoResults[..], Kind.FIFO, lower, upper + 1, ts[..t])
      invariant Sums(clockResults[..], Kind.Clock, lower, upper + 1, ts[..t])
    {
      FillTrace(data, samples[t]);
      TraceNoSentinel(samples[t]);
      RunTrial(lruResults, fifoResults, clockResults, data, lower, ts, t);
    }
    assert ts[..|samples|] == ts;
    Average(lruResults, fifoResults, clockResults, lower, |samples|, ts);
  }

  /** The entries below `lower` are 0. */
  ghost predicate Zeros(a: seq<int>, lower: nat)
  {
    forall w :: 0 <= w < lower && w < |a| ==> a[w] == 0
  }

  /** The entries `from..to` hold the policy's fault totals over `ts`. */
  ghost predicate Sums(a: seq<int>, kind: Kind, from: nat, to: nat, ts: seq<seq<int>>)
  {
    forall w :: from <= w < to && 0 < w < |a| ==> a[w] == Total(kind, w, ts)
  }

  /** The entries `from..to` hold the policy's fault totals over `ts` divided by
    * the number of trials. */
  ghost predicate Means(a: seq<int>, kind: Kind, from: nat, to: nat, ts: seq<seq<int>>)
  {
    |ts| >= 1 && forall w :: from <= w < to && 0 < w < |a| ==> a[w] == Total(kind, w, ts) / |ts|
  }

  /** Adding trial `t`'s faults to entry `wss` moves that entry from the
    * totals over `ts[..t]` to those over `ts[..t + 1]` and touches no other. */
  lemma AddTrial(before: seq<int>, after: seq<int>, kind: Kind, wss: nat, lower: nat,
                 ts: seq<seq<int>>, t: nat)
    requires t < |ts| && 1 <= lower <= wss < |before|
    requires after == before[wss := before[wss] + Faults(kind, wss, ts[t])]
    requires Zeros(before, lower)
    requires Sums(before, kind, lower, wss, ts[..t + 1]) && Sums(before, kind, wss, |before|, ts[..t])
    ensures Zeros(after, lower)
    ensures Sums(after, kind, lower, wss + 1, ts[..t + 1]) && Sums(after, kind, wss + 1, |after|, ts[..t])
  {
    TotalSnoc(kind, wss, ts, t);
  }

  /** One trial: every size from `lower` to the arrays' last index adds the
    * three engines' fault counts on trace `ts[t]`, held in `data`. */
  method RunTrial(lruResults: array<int>, fifoResults: array<int>, clockResults: array<int>,
                  data: array<int>, lower: nat, ghost ts: seq<seq<int>>, ghost t: nat)
    requires t < |ts| && data[..] == ts[t] && NoSentinel(ts[t]) && 1 <= lower
    requires fifoResults.Length == lruResults.Length && clockResults.Length == lruResults.Length
    requires data != lruResults && data != fifoResults && data != clockResults
    requires lruResults != fifoResults && lruResults != clockResults && fifoResults != clockResults
    requires Zeros(lruResults[..], lower) && Zeros(fifoResults[..], lower) && Zeros(clockResults[..], lower)
    requires Sums(lruResults[..], Kind.LRU, lower, lruResults.Length, ts[..t])
    requires Sums(fifoResults[..], Kind.FIFO, lower, lruResults.Length, ts[..t])
    requires Sums(clockResults[..], Kind.Clock, lower, lruResults.Length, ts[..t])
    modifies lruResults, fifoResults, clockResults
    ensures Zeros(lruResults[..], lower) && Zeros(fifoResults[..], lower) && Zeros(clockResults[..], lower)
    ensures Sums(lruResults[..], Kind.LRU, lower, lruResults.Length, ts[..t + 1])
    ensures Sums(fifoResults[..], Kind.FIFO, lower, lruResults.Length, ts[..t + 1])
    ensures Sums(clockResults[..], Kind.Clock, lower, lruResults.Length, ts[..t + 1])
  {
    ghost var now, before := ts[..t + 1], ts[..t];
    var n := lruResults.Length;
    var wss := lower;
    while wss < n
      invariant lower <= wss
      invariant Zeros(lruResults[..], lower) && Zeros(fifoResults[..], lower) && Zeros(clockResults[..], lower)
      invariant Sums(lruResults[..], Kind.LRU, lower, wss, now) && Sums(lruResults[..], Kind.LRU, wss, n, before)
      invariant Sums(fifoResults[..], Kind.FIFO, lower, wss, now) && Sums(fifoResults[..], Kind.FIFO, wss, n, before)
      invariant Sums(clockResults[..], Kind.Clock, lower, wss, now) && Sums(clockResults[..], Kind.Clock, wss, n, before)
      decreases n - wss
    {
      Accumulate(lruResults, Kind.LRU, wss, data, lower, ts, t);
      Accumulate(fifoResults, Kind.FIFO, wss, data, lower, ts, t);
      Accumulate(clockResults, Kind.Clock, wss, data, lower, ts, t);
      wss := wss + 1;
    }
  }

  /** `XResults[wss] += X(wss, data)` for the engine of policy `kind`. */
  method Accumulate(results: array<int>, kind: Kind, wss: nat, data: array<int>, lower: nat,
                    ghost ts: seq<seq<int>>, ghost t: nat)
    requires t < |ts| && data[..] == ts[t] && NoSentinel(ts[t]) && 1 <= lower <= wss < results.Length
    requires data != results
    requires Zeros(results[..], lower)
    requires Sums(results[..], kind, lower, wss, ts[..t + 1]) && Sums(results[..], kind, wss, results.Length, ts[..t])
    modifies results
    ensures Zeros(results[..], lower)
    ensures Sums(results[..], kind, lower, wss + 1, ts[..t + 1]) && Sums(results[..], kind, wss + 1, results.Length, ts[..t])
  {
    ghost var before := results[..];
    var faults := RunEngine(kind, wss, data);
    results[wss] := results[wss] + faults;
    AddTrial(before, results[..], kind, wss, lower, ts, t);
  }

  /** `LRU(wss, data)`, `FIFO(wss, data)` or `Clock(wss, data)`, by policy. */
  method RunEngine(kind: Kind, wss: nat, data: array<int>) returns (faults: nat)
    requires wss >= 1 && NoSentinel(data[..])
    ensures faults == Faults(kind, wss, data[..])
  {
    match kind {
      case LRU => faults := Engines.LRU(wss, data);
      case FIFO => faults := Engines.FIFO(wss, data);
      case Clock => faults := Engines.Clock(wss, data);
    }
  }

  /** The averaging loop: every size from `lower` on is divided by the number
    * of trials, truncating. */
  method Average(lruResults: array<int>, fifoResults: array<int>, clockResults: array<int>,
                 lower: nat, trials: nat, ghost ts: seq<seq<int>>)
    requires trials == |ts| >= 1 && 1 <= lower
    requires fifoResults.Length == lruResults.Length && clockResults.Length == lruResults.Length
    requires lruResults != fifoResults && lruResults != clockResults && fifoResults != clockResults
    requires Zeros(lruResults[..], lower) && Zeros(fifoResults[..], lower) && Zeros(clockResults[..], lower)
    requires Sums(lruResults[..], Kind.LRU, lower, lruResults.Length, ts)
    requires Sums(fifoResults[..], Kind.FIFO, lower, lruResults.Length, ts)
    requires Sums(clockResults[..], Kind.Clock, lower, lruResults.Length, ts)
    modifies lruResults, fifoResults, clockResults
    ensures Zeros(lruResults[..], lower) && Zeros(fifoResults[..], lower) && Zeros(clockResults[..], lower)
    ensures Means(lruResults[..], Kind.LRU, lower, lruResults.Length, ts)
    ensures Means(fifoResults[..], Kind.FIFO, lower, lruResults.Length, ts)
    ensures Means(clockResults[..], Kind.Clock, lower, lruResults.Length, ts)
  {
    Divide(lruResults, Kind.LRU, lower, trials, ts);
    Divide(fifoResults, Kind.FIFO, lower, trials, ts);
    Divide(clockResults, Kind.Clock, lower, trials, ts);
  }

  /** `XResults[wss] /= TRACES` for every size from `lower` on, in one array. */
  method Divide(results: array<int>, kind: Kind, lower: nat, trials: nat, ghost ts: seq<seq<int>>)
    requires trials == |ts| >= 1 && 1 <= lower
    requires Zeros(results[..], lower) && Sums(results[..], kind, lower, results.Length, ts)
    modifies results
    ensures Zeros(results[..], lower) && Means(results[..], kind, lower, results.Length, ts)
  {
    var n := results.Length;
    var wss := lower;
    while wss < n
      invariant lower <= wss
      invariant Zeros(results[..], lower)
      invariant Means(results[..], kind, lower, wss, ts) && Sums(results[..], kind, wss, n, ts)
      decreases n - wss
    {
      results[wss] := results[wss] / trials;
      wss := wss + 1;
    }
  }
}
