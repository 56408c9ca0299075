/** The working-set frame shared by the three replacement engines: an array of
  * `wss` slots whose unoccupied slots hold INT_MIN, and the two linear scans
  * (`arrayContains`, `getIndex`) that every engine uses to look a page up. */
module Frame {

  /** INT_MIN of a 32-bit C `int`: the value that marks an empty slot. */
  const Sentinel: int := -0x8000_0000

  /** No reference of a trace is the sentinel, so a scan never mistakes an
    * empty slot for a resident page. */
  predicate NoSentinel(s: seq<int>)
  {
    Sentinel !in s
  }

  predicate Distinct(s: seq<int>)
  {
    forall a, b :: 0 <= a < b < |s| ==> s[a] != s[b]
  }

  function Elems(s: seq<int>): set<int>
  {
    set x | x in s
  }

  lemma {:induction false} DistinctCard(s: seq<int>)
    requires Distinct(s)
    ensures |Elems(s)| == |s|
  {
    if s != [] {
      assert Distinct(s[1..]) by {
        forall a, b | 0 <= a < b < |s[1..]| ensures s[1..][a] != s[1..][b] {
          assert s[1..][a] == s[a + 1] && s[1..][b] == s[b + 1];
        }
      }
      DistinctCard(s[1..]);
      assert Elems(s) == {s[0]} + Elems(s[1..]);
      assert s[0] !in Elems(s[1..]) by {
        forall k | 0 <= k < |s[1..]| ensures s[1..][k] != s[0] {
          assert s[1..][k] == s[k + 1];
        }
      }
    }
  }

  lemma SubsetCard(a: set<int>, b: set<int>)
    requires a <= b
    ensures |a| <= |b|
  {
    assert b == a + (b - a);
    assert a * (b - a) == {};
  }

  /** The position of the first element of `s` equal to `v`, or -1 when there
    * is none. */
  function IndexOf(s: seq<int>, v: int): (r: int)
    ensures -1 <= r < |s|
    ensures 0 <= r ==> s[r] == v && v !in s[..r]
    ensures r == -1 <==> v !in s
  {
    if s == [] then -1
    else if s[0] == v then 0
    else
      var r := IndexOf(s[1..], v);
      if r == -1 then -1 else r + 1
  }

  /** A position holding the first occurrence of `v` is the one IndexOf finds. */
  lemma IndexOfAt(s: seq<int>, v: int, k: nat)
    requires k < |s| && s[k] == v && v !in s[..k]
    ensures IndexOf(s, v) == k
  {
    forall j | 0 <= j < k ensures s[j] != v {
      assert s[..k][j] == s[j];
    }
  }

  /** The contents of a frame's slot array: `pages` in the first slots, the
    * sentinel in the remaining `wss - |pages|`. */
  function Padded(pages: seq<int>, wss: nat): (slots: seq<int>)
    requires |pages| <= wss
  {
    pages + seq(wss - |pages|, _ => Sentinel)
  }

  /** Scanning all `wss` slots (what the C code does) finds a real page exactly
    * where scanning only the occupied slots would. */
  lemma {:induction false} PaddedLookup(pages: seq<int>, wss: nat, v: int)
    requires |pages| <= wss && v != Sentinel
    ensures v in Padded(pages, wss) <==> v in pages
    ensures IndexOf(Padded(pages, wss), v) == IndexOf(pages, v)
  {
    var slots := Padded(pages, wss);
    assert slots[..|pages|] == pages;
    if v in pages {
      var k := IndexOf(pages, v);
      assert slots[..k] == pages[..k];
      IndexOfAt(slots, v, k);
    } else {
      forall k | 0 <= k < |slots| ensures slots[k] != v {
        if k < |pages| { assert slots[k] == pages[k]; }
      }
    }
  }

  lemma PaddedPush(pages: seq<int>, wss: nat, x: int)
    requires |pages| < wss
    ensures Padded(pages, wss)[|pages| := x] == Padded(pages + [x], wss)
  {
  }

  /** `arrayContains`: whether one of the first `n` slots of `a` holds `v`.
    * The array is only read. */
  method ArrayContains(a: array<int>, n: nat, v: int) returns (found: bool)
    requires n <= a.Length
    ensures found <==> v in a[..n]
  {
    for i := 0 to n
      invariant forall k :: 0 <= k < i ==> a[k] != v
    {
      if v == a[i] {
        assert a[..n][i] == v;
        return true;
      }
    }
    return false;
  }

  /** `getIndex`: the first of the first `n` slots of `a` that holds `v`, or -1.
    * The array is only read. */
  method GetIndex(a: array<int>, n: nat, v: int) returns (idx: int)
    requires n <= a.Length
    ensures idx == IndexOf(a[..n], v)
  {
    for i := 0 to n
      invariant forall k :: 0 <= k < i ==> a[k] != v
    {
      if a[i] == v {
        IndexOfAt(a[..n], v, i);
        return i;
      }
    }
    return -1;
  }
}
