/** The aggregates the annotator computes over the durations once the scan is over:
    `sum`, `max`, the truncated mean, `sorted`, the nearest-rank 95th percentile and
    `durations.index(max)`. */
module Aggregates {

  /** `sum(ds)`. */
  function Sum(ds: seq<nat>): nat {
    if ds == [] then 0 else Sum(ds[..|ds| - 1]) + ds[|ds| - 1]
  }

  /** `max(ds) if ds else 0`. */
  function MaxOf(ds: seq<nat>): (r: nat)
    ensures forall i :: 0 <= i < |ds| ==> ds[i] <= r
    ensures ds == [] ==> r == 0
    ensures ds != [] ==> r in ds
  {
    if ds == [] then 0
    else
      var m := MaxOf(ds[..|ds| - 1]);
      assert ds == ds[..|ds| - 1] + [ds[|ds| - 1]];
      if ds[|ds| - 1] > m then ds[|ds| - 1] else m
  }

  /** The least element, 0 when there is none (used only to bound the percentile). */
  function MinOf(ds: seq<nat>): (r: nat)
    ensures forall i :: 0 <= i < |ds| ==> r <= ds[i]
    ensures ds != [] ==> r in ds
  {
    if ds == [] then 0
    else if |ds| == 1 then ds[0]
    else
      var m := MinOf(ds[..|ds| - 1]);
      assert ds == ds[..|ds| - 1] + [ds[|ds| - 1]];
      if ds[|ds| - 1] < m then ds[|ds| - 1] else m
  }

  /** The largest element is at most the sum. */
  lemma {:induction false} MaxAtMostSum(ds: seq<nat>)
    ensures MaxOf(ds) <= Sum(ds)
  {
    if ds != [] {
      MaxAtMostSum(ds[..|ds| - 1]);
    }
  }

  /** The sum is at most the count times the largest element. */
  lemma {:induction false} SumAtMostCountTimesMax(ds: seq<nat>)
    ensures Sum(ds) <= |ds| * MaxOf(ds)
  {
    if ds != [] {
      var init := ds[..|ds| - 1];
      SumAtMostCountTimesMax(init);
      assert MaxOf(init) <= MaxOf(ds);
      AddBelow(Sum(init), ds[|ds| - 1], |init|, MaxOf(init), MaxOf(ds));
    }
  }

  /** The sum is at least the count times the least element. */
  lemma {:induction false} SumAtLeastCountTimesMin(ds: seq<nat>)
    ensures |ds| * MinOf(ds) <= Sum(ds)
  {
    if |ds| > 1 {
      var init := ds[..|ds| - 1];
      SumAtLeastCountTimesMin(init);
      assert MinOf(ds) <= MinOf(init);
      AddAbove(Sum(init), ds[|ds| - 1], |init|, MinOf(ds), MinOf(init));
    } else if |ds| == 1 {
      assert ds[..0] == [];
    }
  }

  /** One more element no larger than `m` keeps the sum within the bound. */
  lemma AddBelow(a: nat, x: nat, k: nat, mi: nat, m: nat)
    requires a <= k * mi && mi <= m && x <= m
    ensures a + x <= (k + 1) * m
  {
    assert k * mi <= k * m by { MulMono(k, mi, m); }
    assert (k + 1) * m == k * m + m;
  }

  /** One more element no smaller than `lo` keeps the sum above the bound. */
  lemma AddAbove(a: nat, x: nat, k: nat, lo: nat, mi: nat)
    requires k * mi <= a && lo <= mi && lo <= x
    ensures (k + 1) * lo <= a + x
  {
    assert k * lo <= k * mi by { MulMono(k, lo, mi); }
    assert (k + 1) * lo == k * lo + lo;
  }

  lemma MulMono(k: nat, a: nat, b: nat)
    requires a <= b
    ensures k * a <= k * b
  {
    assert k * b == k * a + k * (b - a);
  }

  /** A quotient of a sum bounded by `n` copies of `lo` and of `hi` lies between them. */
  lemma QuotientBetween(sum: nat, n: nat, lo: nat, hi: nat)
    requires n > 0 && n * lo <= sum <= n * hi
    ensures lo <= sum / n <= hi
    ensures (sum / n) * n <= sum < (sum / n + 1) * n
  {
    var q := sum / n;
    var r := sum % n;
    assert sum == q * n + r && 0 <= r < n;
    assert (q + 1) * n == q * n + n;
    if q > hi {
      MulMono(n, hi + 1, q);
      assert false;
    }
    if q < lo {
      MulMono(n, q + 1, lo);
      assert false;
    }
  }

  /** `int(sum(ds) / len(ds)) if ds else 0`: the sum is not negative, so truncation is
      floor division. */
  function Mean(ds: seq<nat>): (m: nat)
    ensures ds == [] ==> m == 0
    ensures ds != [] ==> m * |ds| <= Sum(ds) < (m + 1) * |ds|
  {
    if ds == [] then 0
    else
      var q := Sum(ds) / |ds|;
      assert Sum(ds) == q * |ds| + Sum(ds) % |ds|;
      assert (q + 1) * |ds| == q * |ds| + |ds|;
      q
  }

  /** The mean is the floor of the average and lies between the least and the largest
      element. */
  lemma MeanBounds(ds: seq<nat>)
    ensures ds == [] ==> Mean(ds) == 0
    ensures ds != [] ==> Mean(ds) * |ds| <= Sum(ds) < (Mean(ds) + 1) * |ds|
    ensures MinOf(ds) <= Mean(ds) <= MaxOf(ds)
  {
    if ds != [] {
      SumAtMostCountTimesMax(ds);
      SumAtLeastCountTimesMin(ds);
      QuotientBetween(Sum(ds), |ds|, MinOf(ds), MaxOf(ds));
    }
  }

  // ---- sorted(ds) ----

  predicate Sorted(s: seq<nat>) {
    forall i, j :: 0 <= i < j < |s| ==> s[i] <= s[j]
  }

  /** Places `x` in front of the first element not smaller than it. */
  function Insert(x: nat, s: seq<nat>): (r: seq<nat>)
    requires Sorted(s)
    ensures Sorted(r) && multiset(r) == multiset(s) + multiset{x}
    ensures |r| == |s| + 1
  {
    if s == [] || x <= s[0] then [x] + s
    else
      var t := Insert(x, s[1..]);
      assert s == [s[0]] + s[1..];
      HeadStaysFirst(x, s, t);
      [s[0]] + t
  }

  /** `s[0]` may go in front of any sorted rearrangement of `x` and the rest of a sorted
      `s`, when `x` is larger than it. */
  lemma HeadStaysFirst(x: nat, s: seq<nat>, t: seq<nat>)
    requires Sorted(s) && |s| > 0 && s[0] < x && Sorted(t)
    requires multiset(t) == multiset(s[1..]) + multiset{x}
    ensures Sorted([s[0]] + t)
  {
    forall i | 0 <= i < |t| ensures s[0] <= t[i] {
      assert t[i] in multiset(t);
    }
  }

  /** `sorted(ds)`: ascending, and the same elements as often as in `ds`. */
  function SortAsc(ds: seq<nat>): (r: seq<nat>)
    ensures Sorted(r) && multiset(r) == multiset(ds) && |r| == |ds|
  {
    if ds == [] then []
    else
      assert ds == [ds[0]] + ds[1..];
      Insert(ds[0], SortAsc(ds[1..]))
  }

  // ---- the nearest-rank percentile ----

  /** `max(0, min(n - 1, ceil(0.95 * n) - 1)) if n else 0`, with `ceil(0.95 * n)`
      written exactly as `(95 * n + 99) / 100`. */
  function P95Index(n: nat): (k: nat)
    ensures n > 0 ==> k < n
    ensures n == 0 ==> k == 0
  {
    if n == 0 then 0
    else
      Clamp((95 * n + 99) / 100 - 1, 0, n - 1)
  }

  /** `max(lo, min(hi, x))`. */
  function Clamp(x: int, lo: int, hi: int): (r: int)
    requires lo <= hi
    ensures lo <= r <= hi
    ensures lo <= x <= hi ==> r == x
  {
    if x < lo then lo else if x > hi then hi else x
  }

  /** `int(vs[idx]) if vs else 0` where `vs = sorted(ds)`. */
  function P95(ds: seq<nat>): (p: nat)
    ensures ds == [] ==> p == 0
    ensures ds != [] ==> p in ds
  {
    if ds == [] then 0
    else
      var vs := SortAsc(ds);
      assert vs[P95Index(|ds|)] in multiset(vs);
      vs[P95Index(|ds|)]
  }

  /** How many elements are at most `v`. */
  function CountAtMost(s: seq<nat>, v: nat): nat {
    if s == [] then 0 else (if s[0] <= v then 1 else 0) + CountAtMost(s[1..], v)
  }

  /** How many elements are below `v`. */
  function CountBelow(s: seq<nat>, v: nat): nat {
    if s == [] then 0 else (if s[0] < v then 1 else 0) + CountBelow(s[1..], v)
  }

  /** The index lies in the clamp range and is the nearest rank minus one. */
  lemma P95IndexIsNearestRank(n: nat)
    requires n > 0
    ensures P95Index(n) == (95 * n + 99) / 100 - 1
    ensures 100 * (P95Index(n) + 1) >= 95 * n
    ensures 100 * P95Index(n) < 95 * n
  {
  }

  /** Inserting adds one to the counts `x` belongs to and leaves the others. */
  lemma {:induction false} InsertCounts(x: nat, s: seq<nat>, v: nat)
    requires Sorted(s)
    ensures CountAtMost(Insert(x, s), v) == CountAtMost(s, v) + (if x <= v then 1 else 0)
    ensures CountBelow(Insert(x, s), v) == CountBelow(s, v) + (if x < v then 1 else 0)
    decreases |s|
  {
    if s != [] && x > s[0] {
      InsertCounts(x, s[1..], v);
      assert ([s[0]] + Insert(x, s[1..]))[1..] == Insert(x, s[1..]);
    }
  }

  /** Sorting does not change the counts. */
  lemma {:induction false} SortCounts(ds: seq<nat>, v: nat)
    ensures CountAtMost(SortAsc(ds), v) == CountAtMost(ds, v)
    ensures CountBelow(SortAsc(ds), v) == CountBelow(ds, v)
    decreases |ds|
  {
    if ds != [] {
      SortCounts(ds[1..], v);
      InsertCounts(ds[0], SortAsc(ds[1..]), v);
    }
  }

  /** In a sorted sequence at least `k + 1` elements are at most the one at `k`. */
  lemma {:induction false} SortedCountAtMost(vs: seq<nat>, k: nat, v: nat)
    requires Sorted(vs) && k < |vs| && vs[k] <= v
    ensures CountAtMost(vs, v) >= k + 1
    decreases k
  {
    if k > 0 {
      SortedCountAtMost(vs[1..], k - 1, v);
    }
  }

  /** In a sorted sequence at most `k` elements are below a value not above the one at `k`. */
  lemma {:induction false} SortedCountBelow(vs: seq<nat>, k: nat, v: nat)
    requires Sorted(vs) && k < |vs| && v <= vs[k]
    ensures CountBelow(vs, v) <= k
    decreases |vs|
  {
    if k > 0 {
      SortedCountBelow(vs[1..], k - 1, v);
    } else if |vs| > 1 {
      SortedCountBelow(vs[1..], 0, v);
    }
  }

  /** The percentile is one of the durations, between the least and the largest, and it
      is the nearest rank: at least 95% of the durations are at most it, and fewer than
      95% are below it. */
  lemma P95IsNearestRank(ds: seq<nat>)
    requires ds != []
    ensures P95(ds) in ds
    ensures MinOf(ds) <= P95(ds) <= MaxOf(ds)
    ensures 100 * CountAtMost(ds, P95(ds)) >= 95 * |ds|
    ensures 100 * CountBelow(ds, P95(ds)) < 95 * |ds|
  {
    var vs := SortAsc(ds);
    var k := P95Index(|ds|);
    var p := vs[k];
    assert p in multiset(vs);
    assert p in ds;
    P95IndexIsNearestRank(|ds|);
    SortedCountAtMost(vs, k, p);
    SortedCountBelow(vs, k, p);
    SortCounts(ds, p);
  }

  /** Sorting a sequence that is already ascending leaves it as it is. */
  lemma {:induction false} SortAscOfSorted(ds: seq<nat>)
    requires Sorted(ds)
    ensures SortAsc(ds) == ds
    decreases |ds|
  {
    if ds != [] {
      SortAscOfSorted(ds[1..]);
      assert ds == [ds[0]] + ds[1..];
    }
  }

  /** Four ascending durations give the largest: `[10, 20, 30, 40]` gives 40. */
  lemma P95OfFour(a: nat, b: nat, c: nat, d: nat)
    requires a <= b <= c <= d
    ensures P95([a, b, c, d]) == d
  {
    P95OfSorted([a, b, c, d]);
    assert P95Index(4) == 3;
  }

  /** On durations already in ascending order the percentile is read off directly. */
  lemma P95OfSorted(ds: seq<nat>)
    requires ds != [] && Sorted(ds)
    ensures P95(ds) == ds[P95Index(|ds|)]
  {
    SortAscOfSorted(ds);
  }

  /** A single duration is its own percentile: `[50]` gives 50. */
  lemma P95OfOne(a: nat)
    ensures P95([a]) == a
  {
    P95OfSorted([a]);
  }

  // ---- durations.index(mx) ----

  /** `s.index(x)`, or -1 when `x` is not in `s`. */
  function FirstIndexOf(s: seq<nat>, x: nat): (r: int)
    ensures r == -1 <==> x !in s
    ensures r >= 0 ==> r < |s| && s[r] == x && forall j :: 0 <= j < r ==> s[j] != x
  {
    if s == [] then -1
    else if s[0] == x then 0
    else
      var k := FirstIndexOf(s[1..], x);
      assert s == [s[0]] + s[1..];
      if k < 0 then -1 else k + 1
  }

  /** `durations.index(mx) if durations else -1`: -1 exactly when there are no
      durations; otherwise it holds the largest duration and every earlier duration is
      strictly smaller. */
  function Bottleneck(ds: seq<nat>): (b: int)
    ensures b == -1 <==> ds == []
    ensures ds != [] ==> 0 <= b < |ds| && ds[b] == MaxOf(ds)
    ensures ds != [] ==> forall j :: 0 <= j < b ==> ds[j] < MaxOf(ds)
  {
    if ds == [] then -1 else FirstIndexOf(ds, MaxOf(ds))
  }
}
