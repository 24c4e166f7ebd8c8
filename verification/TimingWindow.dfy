/** One stage of the timing window: a ring of the latest samples with their sum, least and
    greatest kept up to date, and nearest-rank percentiles. */
module TimingWindow {
  import opened Native

  const CAPACITY: nat := 128
  const MAX_SAFE_SAMPLE: nat := 0x1FF_FFFF_FFFF_FFFF

  /** The limit is the greatest sample of which a full window cannot overflow the sum. */
  lemma SafeSamples(x: nat)
    ensures x <= MAX_SAFE_SAMPLE <==> CAPACITY * x <= U64_MAX
  {
  }

  datatype Status = Ok | InvalidArgument | Overflow

  function Lower(a: nat, b: nat): nat { if b < a then b else a }
  function Upper(a: nat, b: nat): nat { if b > a then b else a }

  ghost function SumOf(s: seq<nat>): nat {
    if s == [] then 0 else SumOf(s[..|s| - 1]) + s[|s| - 1]
  }

  ghost function MinOf(s: seq<nat>): nat {
    if s == [] then U64_MAX else Lower(MinOf(s[..|s| - 1]), s[|s| - 1])
  }

  ghost function MaxOf(s: seq<nat>): nat {
    if s == [] then 0 else Upper(MaxOf(s[..|s| - 1]), s[|s| - 1])
  }

  /** The samples the window is about: the latest ones, at most as many as it holds. */
  ghost function Recent(s: seq<nat>): seq<nat> {
    if |s| <= CAPACITY then s else s[|s| - CAPACITY..]
  }

  lemma {:induction false} Split(a: seq<nat>, b: seq<nat>)
    ensures SumOf(a + b) == SumOf(a) + SumOf(b)
    ensures MinOf(a) <= U64_MAX && MinOf(a + b) == Lower(MinOf(a), MinOf(b))
    ensures MaxOf(a + b) == Upper(MaxOf(a), MaxOf(b))
    decreases |a| + |b|
  {
    if b == [] {
      assert a + b == a;
      if a != [] { Split(a[..|a| - 1], []); }
    } else {
      assert (a + b)[..|a + b| - 1] == a + b[..|b| - 1];
      Split(a, b[..|b| - 1]);
      if |b| > 0 { Split(b[..|b| - 1], []); }
    }
  }

  ghost predicate Safe(s: seq<nat>) {
    forall i :: 0 <= i < |s| ==> s[i] <= MAX_SAFE_SAMPLE
  }

  /** The computed extremes are members, and bounds, of what they summarise. */
  lemma {:induction false} ExtremesSound(s: seq<nat>)
    requires s != [] && Safe(s)
    ensures MinOf(s) in s && MaxOf(s) in s
    ensures forall i :: 0 <= i < |s| ==> MinOf(s) <= s[i] <= MaxOf(s)
    ensures MinOf(s) <= MAX_SAFE_SAMPLE
  {
    var n := |s| - 1;
    assert s == s[..n] + [s[n]];
    if n > 0 { ExtremesSound(s[..n]); } else { assert s[..n] == []; }
  }

  /** The sum lies between as many minima and as many maxima, so the mean between the two. */
  lemma {:induction false} SumBetween(s: seq<nat>)
    requires Safe(s)
    ensures |s| * MinOf(s) <= SumOf(s) <= |s| * MaxOf(s)
  {
    if |s| == 1 {
      assert s[..0] == [];
    } else if |s| > 1 {
      var n := |s| - 1;
      SumBetween(s[..n]);
      MoreBetween(n, SumOf(s[..n]), MinOf(s[..n]), MaxOf(s[..n]), s[n], MinOf(s), MaxOf(s));
    }
  }

  lemma MoreBetween(n: nat, sum: nat, min: nat, max: nat, x: nat, min': nat, max': nat)
    requires n * min <= sum <= n * max && min' <= min && max <= max' && min' <= x <= max'
    ensures (n + 1) * min' <= sum + x <= (n + 1) * max'
  {
    assert n * (min - min') >= 0 && n * (max' - max) >= 0;
  }

  lemma {:induction false} SumBounded(s: seq<nat>)
    requires Safe(s)
    ensures SumOf(s) <= |s| * MAX_SAFE_SAMPLE
  {
    if s != [] { SumBounded(s[..|s| - 1]); }
  }

  // ---- Sorting ---------------------------------------------------------------

  ghost predicate Sorted(s: seq<nat>) {
    forall i, j :: 0 <= i <= j < |s| ==> s[i] <= s[j]
  }

  ghost function Insert(s: seq<nat>, key: nat): seq<nat> {
    if s == [] || s[|s| - 1] <= key then s + [key] else Insert(s[..|s| - 1], key) + [s[|s| - 1]]
  }

  ghost function Sort(s: seq<nat>): seq<nat> {
    if s == [] then [] else Insert(Sort(s[..|s| - 1]), s[|s| - 1])
  }

  lemma {:induction false} InsertKeeps(s: seq<nat>, key: nat)
    ensures multiset(Insert(s, key)) == multiset(s) + multiset{key} && |Insert(s, key)| == |s| + 1
  {
    if s != [] && s[|s| - 1] > key {
      var n := |s| - 1;
      assert s == s[..n] + [s[n]];
      InsertKeeps(s[..n], key);
    }
  }

  lemma {:induction false} InsertSorts(s: seq<nat>, key: nat)
    requires Sorted(s)
    ensures Sorted(Insert(s, key)) && |Insert(s, key)| == |s| + 1
    ensures var t := Insert(s, key); t[|s|] == key || (s != [] && t[|s|] == s[|s| - 1] > key)
  {
    if s != [] && s[|s| - 1] > key { InsertSorts(s[..|s| - 1], key); }
  }

  lemma {:induction false} SortSorts(s: seq<nat>)
    ensures Sorted(Sort(s)) && multiset(Sort(s)) == multiset(s) && |Sort(s)| == |s|
  {
    if s != [] {
      var n := |s| - 1;
      assert s == s[..n] + [s[n]];
      SortSorts(s[..n]);
      InsertKeeps(Sort(s[..n]), s[n]);
      InsertSorts(Sort(s[..n]), s[n]);
    }
  }

  lemma SortedLast(t: seq<nat>, u: seq<nat>)
    requires t != [] && u != [] && Sorted(t) && Sorted(u) && multiset(t) == multiset(u)
    ensures t[|t| - 1] == u[|u| - 1]
  {
    var a, b := t[|t| - 1], u[|u| - 1];
    assert a in multiset(u) && b in multiset(t);
    assert a in u && b in t;
  }

  lemma DropLast(t: seq<nat>)
    requires t != [] && Sorted(t)
    ensures var n := |t| - 1; Sorted(t[..n]) && multiset(t[..n]) == multiset(t) - multiset{t[n]} && t == t[..n] + [t[n]]
  {
    var n := |t| - 1;
    assert t == t[..n] + [t[n]];
  }

  /** A sorted sequence is determined by its elements. */
  lemma {:induction false} SortedUnique(t: seq<nat>, u: seq<nat>)
    requires Sorted(t) && Sorted(u) && multiset(t) == multiset(u)
    ensures t == u
  {
    hide Sorted;
    assert |t| == |multiset(t)| == |u|;
    if t != [] {
      var n := |t| - 1;
      SortedLast(t, u);
      DropLast(t);
      DropLast(u);
      SortedUnique(t[..n], u[..n]);
    }
  }

  /** Reading the ring from its oldest sample on does not change the percentiles. */
  lemma SortRotated(s: seq<nat>, k: nat)
    requires k <= |s|
    ensures Sort(s[k..] + s[..k]) == Sort(s)
  {
    var r := s[k..] + s[..k];
    assert s == s[..k] + s[k..];
    assert multiset(r) == multiset(s);
    SortSorts(s);
    SortSorts(r);
    SortedUnique(Sort(r), Sort(s));
  }

  /** Where the key ends up. */
  lemma {:induction false} InsertPlace(s: seq<nat>, key: nat, j: nat)
    requires j <= |s| && (j > 0 ==> s[j - 1] <= key) && forall k :: j <= k < |s| ==> s[k] > key
    ensures Insert(s, key) == s[..j] + [key] + s[j..]
  {
    if j == |s| {
      assert s[..j] == s && s[j..] == [];
    } else {
      var n := |s| - 1;
      InsertPlace(s[..n], key, j);
      assert s[..n][..j] == s[..j] && s[..n][j..] + [s[n]] == s[j..];
    }
  }

  // ---- Percentiles -----------------------------------------------------------

  /** The one-based rank of a percentile, given in thousandths. */
  function Rank(p: nat, count: nat): (r: nat)
    requires 0 < count && p <= 1000
    ensures 0 < r <= count
    ensures p * count <= 1000 * r && (r > 1 ==> 1000 * (r - 1) < p * count)
  {
    RankFits(p, count);
    var r := (p * count + 999) / 1000;
    if r == 0 then 1 else if r > count then count else r
  }

  lemma RankFits(p: nat, count: nat)
    requires 0 < count && p <= 1000
    ensures p * count <= 1000 * count && (p > 0 ==> p * count > 0) && (p == 0 ==> p * count == 0)
  {
    assert (1000 - p) * count >= 0;
  }

  ghost function PercentileOf(s: seq<nat>, p: nat): nat
    requires s != [] && p <= 1000
  {
    SortSorts(s);
    Sort(s)[Rank(p, |s|) - 1]
  }

  /** How many samples are no larger than `v`. */
  ghost function AtMost(s: seq<nat>, v: nat): (n: nat)
    ensures n <= |s|
  {
    if s == [] then 0 else AtMost(s[..|s| - 1], v) + if s[|s| - 1] <= v then 1 else 0
  }

  lemma {:induction false} AtMostInsert(s: seq<nat>, key: nat, v: nat)
    ensures AtMost(Insert(s, key), v) == AtMost(s, v) + if key <= v then 1 else 0
  {
    if s == [] || s[|s| - 1] <= key {
      assert (s + [key])[..|s|] == s;
    } else {
      var n := |s| - 1;
      AtMostInsert(s[..n], key, v);
      var t := Insert(s[..n], key);
      assert (t + [s[n]])[..|t|] == t;
    }
  }

  lemma {:induction false} AtMostSort(s: seq<nat>, v: nat)
    ensures AtMost(Sort(s), v) == AtMost(s, v)
  {
    if s != [] {
      AtMostSort(s[..|s| - 1], v);
      AtMostInsert(Sort(s[..|s| - 1]), s[|s| - 1], v);
    }
  }

  /** In sorted order the count says on which side of `v` a place lies. */
  lemma {:induction false} AtMostSorted(t: seq<nat>, i: nat, v: nat)
    requires Sorted(t) && i < |t|
    ensures if t[i] <= v then AtMost(t, v) > i else AtMost(t, v) <= i
  {
    var n := |t| - 1;
    if i < n {
      AtMostSorted(t[..n], i, v);
    } else if t[n] <= v && n > 0 {
      AtMostSorted(t[..n], n - 1, v);
    }
  }

  lemma SortedMembers(s: seq<nat>, i: nat)
    requires i < |s|
    ensures |Sort(s)| == |s| && Sort(s)[i] in s && s[i] in Sort(s)
  {
    SortSorts(s);
    assert Sort(s)[i] in multiset(Sort(s)) && s[i] in multiset(s);
  }

  /** The percentile is the least sample that at least `p` thousandths of the samples do not
      exceed: the nearest-rank definition, which does not mention sorting. */
  lemma NearestRank(s: seq<nat>, p: nat, w: nat)
    requires s != [] && p <= 1000 && w in s
    ensures PercentileOf(s, p) in s && 1000 * AtMost(s, PercentileOf(s, p)) >= p * |s|
    ensures w < PercentileOf(s, p) ==> 1000 * AtMost(s, w) < p * |s|
  {
    hide Rank, Sort, AtMost;
    var r, v := Rank(p, |s|), PercentileOf(s, p);
    SortSorts(s);
    SortedMembers(s, r - 1);
    var k :| 0 <= k < |s| && s[k] == w;
    SortedMembers(s, k);
    AtMostSort(s, v);
    AtMostSorted(Sort(s), r - 1, v);
    if w < v {
      AtMostSort(s, w);
      AtMostSorted(Sort(s), r - 1, w);
      assert r > 1;
    }
  }

  lemma RankMonotone(p: nat, q: nat, count: nat)
    requires 0 < count && p <= q <= 1000
    ensures Rank(p, count) <= Rank(q, count)
    ensures Rank(0, count) == 1 && Rank(1000, count) == count
  {
    var x, y := p * count, q * count;
    assert (q - p) * count >= 0;
    assert x <= y;
    RankFits(0, count);
    assert (1000 * count + 999) / 1000 == count;
    Thousandths(x, y);
  }

  lemma Thousandths(x: nat, y: nat)
    requires x <= y
    ensures (x + 999) / 1000 <= (y + 999) / 1000
  {
  }

  /** Percentiles never fall as `p` grows; they start at the least and end at the greatest sample. */
  lemma PercentileMonotone(s: seq<nat>, p: nat, q: nat)
    requires s != [] && p <= q <= 1000 && Safe(s)
    ensures PercentileOf(s, p) <= PercentileOf(s, q)
    ensures PercentileOf(s, 0) == MinOf(s) && PercentileOf(s, 1000) == MaxOf(s)
  {
    var t := Sort(s);
    SortSorts(s);
    RankMonotone(p, q, |s|);
    ExtremesSound(s);
    SortedMembers(s, 0);
    SortedMembers(s, |s| - 1);
    var a :| 0 <= a < |s| && s[a] == MinOf(s);
    var b :| 0 <= b < |s| && s[b] == MaxOf(s);
    SortedMembers(s, a);
    SortedMembers(s, b);
  }

  // ---- Sliding ---------------------------------------------------------------

  lemma Single(x: nat)
    requires x <= MAX_SAFE_SAMPLE
    ensures SumOf([x]) == x && MinOf([x]) == x && MaxOf([x]) == x
  {
    assert [x][..0] == [];
  }

  lemma GrowOne(w: seq<nat>, x: nat)
    requires x <= MAX_SAFE_SAMPLE
    ensures SumOf(w + [x]) == SumOf(w) + x
    ensures MinOf(w) <= U64_MAX && MinOf(w + [x]) == Lower(MinOf(w), x) && MaxOf(w + [x]) == Upper(MaxOf(w), x)
  {
    Split(w, [x]);
    Single(x);
  }

  lemma GrowFits(w: seq<nat>, x: nat)
    requires |w| < CAPACITY && x <= MAX_SAFE_SAMPLE && Safe(w)
    ensures SumOf(w + [x]) == SumOf(w) + x <= U64_MAX
    ensures MinOf(w) <= U64_MAX && MinOf(w + [x]) == Lower(MinOf(w), x) && MaxOf(w + [x]) == Upper(MaxOf(w), x)
  {
    GrowOne(w, x);
    SumBounded(w);
  }

  /** Dropping a sample that is neither extreme and adding another needs no rescan. */
  lemma SlideOne(w: seq<nat>, x: nat, floor: nat)
    requires w != [] && x <= MAX_SAFE_SAMPLE && w[0] <= MAX_SAFE_SAMPLE
    ensures SumOf(w) >= w[0] && SumOf(w[1..] + [x]) == SumOf(w) - w[0] + x
    ensures Lower(floor, MinOf(w)) != w[0] ==>
              Lower(floor, MinOf(w[1..] + [x])) == Lower(Lower(floor, MinOf(w)), x)
    ensures MaxOf(w) != w[0] ==> MaxOf(w[1..] + [x]) == Upper(MaxOf(w), x)
  {
    assert w == [w[0]] + w[1..];
    Split([w[0]], w[1..]);
    Single(w[0]);
    GrowOne(w[1..], x);
  }

  /** Overwriting the oldest element of a ring and moving on. */
  lemma RingShift(b: seq<nat>, k: nat, x: nat)
    requires k + 1 < |b|
    ensures b[k := x][k + 1..] + b[k := x][..k + 1] == (b[k..] + b[..k])[1..] + [x]
  {
    assert b[k := x][k + 1..] == b[k + 1..] && b[k := x][..k + 1] == b[..k] + [x];
    assert (b[k..] + b[..k])[1..] == b[k + 1..] + b[..k];
  }

  lemma RingWrap(b: seq<nat>, k: nat, x: nat)
    requires k + 1 == |b|
    ensures b[k := x] == (b[k..] + b[..k])[1..] + [x]
  {
    assert (b[k..] + b[..k])[1..] == b[..k];
  }

  ghost function Slid(w: seq<nat>, x: nat): seq<nat> { if w == [] then [] else w[1..] + [x] }

  /** What replacing the oldest sample of a full window does to its summary. */
  ghost predicate Slides(w: seq<nat>, x: nat, floor: nat) {
    var v := Slid(w, x);
    && w != [] && w[0] <= SumOf(w) && SumOf(v) == SumOf(w) - w[0] + x <= U64_MAX && MinOf(v) <= U64_MAX
    && (Lower(floor, MinOf(w)) != w[0] ==> Lower(floor, MinOf(v)) == Lower(Lower(floor, MinOf(w)), x))
    && (MaxOf(w) != w[0] ==> MaxOf(v) == Upper(MaxOf(w), x))
  }

  lemma SlideFits(w: seq<nat>, x: nat, floor: nat)
    requires 0 < |w| <= CAPACITY && x <= MAX_SAFE_SAMPLE && Safe(w)
    ensures Slides(w, x, floor)
  {
    SlideOne(w, x, floor);
    SumBounded(w[1..] + [x]);
    Split(w[1..] + [x], []);
  }

  lemma RecentAfter(s: seq<nat>, x: nat)
    requires Safe(s) && x <= MAX_SAFE_SAMPLE
    ensures Safe(s + [x]) && Safe(Recent(s))
    ensures Recent(s + [x]) == if |s| < CAPACITY then s + [x] else Slid(Recent(s), x)
  {
  }

  // ---- Rescans ---------------------------------------------------------------

  /** The sample k leaves a full window whose minimum still stands at zero, and is one of the
      stored extremes: the whole ring is looked at again. */
  ghost predicate RescanAt(s: seq<nat>, k: int) {
    0 <= k && k + CAPACITY < |s| && (s[k] == 0 || s[k] == MaxOf(s[k..k + CAPACITY]))
  }

  ghost predicate Rescanned(s: seq<nat>) {
    exists k :: RescanAt(s, k)
  }

  /** The value the stored minimum started from: static storage is zero until a reset or a rescan. */
  ghost function Floor(cleared: bool, s: seq<nat>): (r: nat) {
    if cleared || Rescanned(s) then U64_MAX else 0
  }

  /** One more sample forces a rescan exactly when the one it replaces is zero or the maximum. */
  lemma RescannedAppend(s: seq<nat>, x: nat)
    ensures |s| < CAPACITY ==> !Rescanned(s) && !Rescanned(s + [x])
    ensures |s| >= CAPACITY ==>
              (Rescanned(s + [x]) <==> Rescanned(s) || Recent(s)[0] == 0 || Recent(s)[0] == MaxOf(Recent(s)))
  {
    var t, n := s + [x], |s| - CAPACITY;
    if |s| >= CAPACITY {
      forall k ensures RescanAt(t, k) <==> RescanAt(s, k) || (k == n && RescanAt(t, n)) {
        if 0 <= k && k + CAPACITY < |s| { assert t[k..k + CAPACITY] == s[k..k + CAPACITY]; }
      }
      assert t[n..n + CAPACITY] == Recent(s);
      assert RescanAt(t, n) <==> t[n] == 0 || t[n] == MaxOf(t[n..n + CAPACITY]);
    }
  }

  /** Raising the start on every rescan keeps it the value the history names. */
  lemma FloorAppend(cleared: bool, s: seq<nat>, x: nat)
    ensures |Recent(s)| < CAPACITY ==> Floor(cleared, s + [x]) == Floor(cleared, s)
    ensures |Recent(s)| >= CAPACITY ==>
              Floor(cleared, s + [x])
              == if Recent(s)[0] == Lower(Floor(cleared, s), MinOf(Recent(s))) || Recent(s)[0] == MaxOf(Recent(s))
                 then U64_MAX else Floor(cleared, s)
  {
    RescannedAppend(s, x);
  }

  /** The stored minimum is the window's exactly when it started high enough or the window holds a zero. */
  lemma FloorDecides(cleared: bool, s: seq<nat>)
    requires s != [] && Safe(s)
    ensures var m := MinOf(Recent(s));
            && Lower(Floor(cleared, s), m) == (if cleared || Rescanned(s) then m else 0)
            && (Lower(Floor(cleared, s), m) == m <==> cleared || Rescanned(s) || 0 in Recent(s))
  {
    ExtremesSound(Recent(s));
  }

  lemma DivBounds(sum: nat, count: nat)
    requires count > 0
    ensures sum / count * count <= sum < (sum / count + 1) * count
  {
  }

  lemma RecentShort(s: seq<nat>)
    ensures |Recent(s)| < CAPACITY ==> Recent(s) == s
  {
  }

  // ---- The stage -------------------------------------------------------------

  class Stage {
    const samples: array<nat>
    var sum: nat
    var min: nat
    var max: nat
    var count: nat
    var next: nat

    /** Every sample accepted since the stage was last cleared. */
    ghost var accepted: seq<nat>
    /** Whether the stage was ever cleared. */
    ghost var cleared: bool
    /** The least value the stored minimum started from. */
    ghost var floor: nat

    /** The ring read from its oldest sample on. */
    ghost function Ring(): seq<nat>
      requires samples.Length == CAPACITY && count <= CAPACITY && next < CAPACITY
      reads `count, `next, samples
    {
      if count < CAPACITY then samples[..count] else samples[next..] + samples[..next]
    }

    ghost predicate Valid()
      reads this, samples
    {
      && samples.Length == CAPACITY && count <= CAPACITY && next < CAPACITY && floor == Floor(cleared, accepted)
      && (count < CAPACITY ==> next == count)
      && Safe(accepted)
      && count == |Recent(accepted)| && Ring() == Recent(accepted)
      && sum == SumOf(Recent(accepted)) && max == MaxOf(Recent(accepted))
      && min == Lower(floor, MinOf(Recent(accepted)))
    }

    /** Static storage before any reset: all fields are zero. */
    constructor ()
      ensures Valid() && accepted == [] && !cleared && fresh(samples)
    {
      samples := new nat[CAPACITY](_ => 0);
      sum, min, max, count, next := 0, 0, 0, 0, 0;
      accepted, cleared, floor := [], false, 0;
    }

    method Clear()
      requires samples.Length == CAPACITY
      modifies this, samples
      ensures Valid() && accepted == [] && cleared
    {
      sum, min, max, count, next := 0, U64_MAX, 0, 0, 0;
      accepted, cleared, floor := [], true, U64_MAX;
      for i := 0 to CAPACITY
        modifies samples
      {
        samples[i] := 0;
      }
    }

    /** Records one sample unless it could make the sum overflow. */
    method Record(x: nat) returns (status: Status)
      requires Valid()
      modifies this, samples
      ensures Valid()
      ensures status == if x > MAX_SAFE_SAMPLE then Overflow else Ok
      ensures status == Ok ==> accepted == old(accepted) + [x] && cleared == old(cleared)
      ensures status != Ok ==> unchanged(this) && unchanged(samples)
    {
      if x > MAX_SAFE_SAMPLE { return Overflow; }
      RecentAfter(accepted, x);
      if count < CAPACITY { Extend(x); } else { Replace(x); }
      status := Ok;
    }

    method Extend(x: nat)
      requires Valid() && count < CAPACITY && x <= MAX_SAFE_SAMPLE
      requires Recent(accepted + [x]) == accepted + [x] && Safe(accepted + [x])
      modifies this, samples
      ensures Valid() && accepted == old(accepted) + [x] && cleared == old(cleared)
    {
      hide SumOf, MinOf, MaxOf, Recent, Ring, Safe, Floor;
      RecentShort(accepted);
      GrowFits(accepted, x);
      FloorAppend(cleared, accepted, x);
      PutEnd(x);
      assert sum + x <= U64_MAX;
      sum := sum + x;
      if x < min { min := x; }
      if x > max { max := x; }
      accepted := accepted + [x];
    }

    method Replace(x: nat)
      requires Valid() && count == CAPACITY && x <= MAX_SAFE_SAMPLE
      requires Recent(accepted + [x]) == Slid(Recent(accepted), x) && Safe(Recent(accepted)) && Safe(accepted + [x])
      requires |Slid(Recent(accepted), x)| == CAPACITY
      modifies samples, `sum, `min, `max, `next, `accepted, `floor
      ensures Valid() && accepted == old(accepted) + [x]
    {
      hide SumOf, MinOf, MaxOf, Recent, Lower, Upper, Ring, Safe, Slides, Slid, Floor;
      ghost var w := Recent(accepted);
      SlideFits(w, x, floor);
      FloorAppend(cleared, accepted, x);
      var evicted := Shift(x);
      Refresh(evicted, x, w);
      accepted := accepted + [x];
    }

    method Shift(x: nat) returns (evicted: nat)
      requires samples.Length == CAPACITY == count && next < CAPACITY
      requires Slides(Ring(), x, floor) && sum == SumOf(Ring())
      modifies samples, `next, `sum
      ensures next < CAPACITY && old(Ring()) != [] && evicted == old(Ring())[0] && Ring() == Slid(old(Ring()), x)
      ensures sum == SumOf(Ring())
    {
      hide SumOf, MinOf, MaxOf, Lower, Upper;
      evicted := PutNext(x);
      sum := sum - evicted;
      assert sum + x <= U64_MAX;
      sum := sum + x;
    }

    /** Losing an extreme forces a look at the whole ring. */
    method Refresh(evicted: nat, x: nat, ghost w: seq<nat>)
      requires samples.Length == CAPACITY == count && next < CAPACITY
      requires Slides(w, x, floor) && w != [] && evicted == w[0] && Ring() == Slid(w, x)
      requires min == Lower(floor, MinOf(w)) && max == MaxOf(w)
      modifies `min, `max, `floor
      ensures min == Lower(floor, MinOf(Ring())) && max == MaxOf(Ring())
      ensures floor == if evicted == old(min) || evicted == old(max) then U64_MAX else old(floor)
    {
      hide MinOf, MaxOf;
      if evicted == min || evicted == max {
        Rescan();
        floor := U64_MAX;
      } else {
        if x < min { min := x; }
        if x > max { max := x; }
      }
    }

    /** Overwrites the oldest sample of a full ring. */
    method PutNext(x: nat) returns (evicted: nat)
      requires samples.Length == CAPACITY == count && next < CAPACITY
      modifies samples, `next
      ensures next < CAPACITY && evicted == old(Ring())[0] && Ring() == old(Ring())[1..] + [x]
    {
      if next + 1 < CAPACITY { RingShift(samples[..], next, x); } else { RingWrap(samples[..], next, x); }
      ghost var b := samples[..];
      evicted := samples[next];
      samples[next] := x;
      assert samples[..] == b[next := x];
      next := (next + 1) % CAPACITY;
      assert samples[next..] == samples[..][next..] && samples[..next] == samples[..][..next];
      assert next == 0 ==> samples[..][0..] + samples[..][..0] == samples[..];
    }

    /** Adds a sample to a ring that is not full. */
    method PutEnd(x: nat)
      requires samples.Length == CAPACITY && count < CAPACITY && next == count
      modifies samples, `next, `count
      ensures count == old(count) + 1 && next < CAPACITY && (count < CAPACITY ==> next == count)
      ensures Ring() == old(Ring()) + [x]
    {
      ghost var w := samples[..count];
      samples[next] := x;
      count := count + 1;
      next := (next + 1) % CAPACITY;
      assert samples[..count] == w + [x];
      assert count == CAPACITY ==> samples[next..] + samples[..next] == samples[..count];
    }

    method Rescan()
      requires samples.Length == CAPACITY == count && next < CAPACITY
      modifies `min, `max
      ensures min == MinOf(Ring()) && max == MaxOf(Ring())
    {
      min, max := U64_MAX, 0;
      for i := 0 to CAPACITY
        invariant min == MinOf(samples[..i]) && max == MaxOf(samples[..i])
      {
        assert samples[..i + 1][..i] == samples[..i];
        var value := samples[i];
        if value < min { min := value; }
        if value > max { max := value; }
      }
      hide MinOf, MaxOf;
      ghost var b := samples[..];
      assert samples[..CAPACITY] == b && samples[..next] == b[..next] && samples[next..] == b[next..];
      assert b == b[..next] + b[next..];
      Split(samples[..next], samples[next..]);
      Split(samples[next..], samples[..next]);
    }

    method Min() returns (value: nat)
      requires Valid()
      ensures accepted == [] ==> value == 0
      ensures accepted != [] ==> value == if cleared || Rescanned(accepted) then MinOf(Recent(accepted)) else 0
      ensures accepted != [] ==>
                (value == MinOf(Recent(accepted)) <==> cleared || Rescanned(accepted) || 0 in Recent(accepted))
    {
      if accepted != [] { FloorDecides(cleared, accepted); }
      value := if count == 0 then 0 else min;
    }

    method Max() returns (value: nat)
      requires Valid()
      ensures value == MaxOf(Recent(accepted))
    {
      value := if count == 0 then 0 else max;
    }

    method Mean() returns (value: nat)
      requires Valid()
      ensures accepted != [] ==>
                value * |Recent(accepted)| <= SumOf(Recent(accepted)) < (value + 1) * |Recent(accepted)|
      ensures accepted == [] ==> value == 0
    {
      hide SumOf, MinOf, MaxOf, Ring, Safe, Floor;
      if count != 0 { DivBounds(sum, count); }
      value := if count == 0 then 0 else sum / count;
    }

    method Percentile(scratch: array<nat>, p: nat) returns (value: nat)
      requires Valid() && scratch.Length == CAPACITY && scratch != samples
      modifies scratch
      ensures value == if p > 1000 || accepted == [] then 0 else PercentileOf(Recent(accepted), p)
    {
      if p > 1000 { return 0; }
      if count == 0 { return 0; }
      CopySamples(scratch);
      SortPrefix(scratch, count);
      SortRecent();
      SortSorts(Recent(accepted));
      hide Sort, Recent;
      if p == 0 {
        RankMonotone(0, 0, count);
        return scratch[..count][0];
      }
      var rank := Rank(p, count);
      value := scratch[..count][rank - 1];
    }

    method CopySamples(scratch: array<nat>)
      requires samples.Length == scratch.Length == CAPACITY && scratch != samples && count <= CAPACITY
      modifies scratch
      ensures scratch[..count] == samples[..count]
    {
      for i := 0 to count
        invariant scratch[..i] == samples[..i]
      {
        scratch[i] := samples[i];
      }
    }

    lemma SortRecent()
      requires Valid()
      ensures Sort(samples[..count]) == Sort(Recent(accepted))
    {
      if count == CAPACITY {
        var b := samples[..count];
        SortRotated(b, next);
        assert b[next..] == samples[next..] && b[..next] == samples[..next];
      }
    }
  }

  /** The first sample of a stage that was never reset: its minimum is five, and zero is answered. */
  method FreshMinimum() returns (stage: Stage, value: nat)
    ensures stage.Valid() && !stage.cleared && stage.accepted == [5]
    ensures value == 0 && MinOf(Recent(stage.accepted)) == 5
  {
    stage := new Stage();
    var _ := stage.Record(5);
    RescannedAppend([], 5);
    Single(5);
    assert [] + [5] == [5];
    value := stage.Min();
  }

  /** Insertion of the last element into the sorted elements before it. */
  method InsertLast(a: array<nat>, i: nat)
    requires i < a.Length
    modifies a
    ensures a[..i + 1] == Insert(old(a[..i]), old(a[i]))
    ensures forall k :: i < k < a.Length ==> a[k] == old(a[k])
  {
    hide Insert;
    ghost var s := a[..i];
    var key, j := a[i], i;
    while j != 0 && a[j - 1] > key
      invariant j <= i
      invariant forall k :: 0 <= k < j ==> a[k] == s[k]
      invariant forall k :: j <= k < i ==> s[k] > key && a[k + 1] == s[k]
      invariant forall k :: i < k < a.Length ==> a[k] == old(a[k])
    {
      a[j] := a[j - 1];
      j := j - 1;
    }
    a[j] := key;
    InsertPlace(s, key, j);
    assert a[..i + 1] == s[..j] + [key] + s[j..];
  }

  method SortPrefix(a: array<nat>, count: nat)
    requires 0 < count <= a.Length
    modifies a
    ensures a[..count] == Sort(old(a[..count]))
  {
    ghost var s := a[..count];
    SortOne(s);
    for i := 1 to count
      invariant a[..i] == Sort(s[..i])
      invariant forall k :: i <= k < count ==> a[k] == s[k]
    {
      assert Sort(s[..i + 1]) == Insert(Sort(s[..i]), s[i]) by { assert s[..i + 1][..i] == s[..i]; }
      hide Insert, Sorted, Sort;
      InsertLast(a, i);
    }
    assert s[..count] == s;
  }

  lemma SortOne(s: seq<nat>)
    requires s != []
    ensures Sort(s[..1]) == s[..1]
  {
    assert s[..1][..0] == [];
  }
}
