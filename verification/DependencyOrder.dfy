/** The order in which a set of modules can be started: a module is ready once every
    provider it depends on is already in the order, and ties go to the least index. */
module DependencyOrder {

  /** `g[c][r]` is the provider of requirement `r` of consumer `c`. */
  type Graph = seq<seq<nat>>

  ghost predicate WellFormed(g: Graph) {
    forall c, r :: 0 <= c < |g| && 0 <= r < |g[c]| ==> g[c][r] < |g|
  }

  predicate Ready(g: Graph, prefix: seq<nat>, c: nat)
    requires c < |g|
  {
    c !in prefix && forall r :: 0 <= r < |g[c]| ==> g[c][r] in prefix
  }

  ghost predicate LeastReady(g: Graph, prefix: seq<nat>, c: nat) {
    c < |g| && Ready(g, prefix, c) && forall k: nat :: k < c ==> !Ready(g, prefix, k)
  }

  /** Every position holds the least-index module that is ready there. */
  ghost predicate Canonical(g: Graph, order: seq<nat>) {
    forall i :: 0 <= i < |order| ==> LeastReady(g, order[..i], order[i])
  }

  /** A canonical order of all the modules. */
  ghost predicate CanonicalOrder(g: Graph, order: seq<nat>) {
    |order| == |g| && Canonical(g, order)
  }

  ghost predicate Distinct(s: seq<nat>) {
    forall i, j :: 0 <= i < j < |s| ==> s[i] != s[j]
  }

  /** Each provider stands before its consumer. */
  ghost predicate ProvidersFirst(g: Graph, order: seq<nat>) {
    forall i, r :: 0 <= i < |order| && order[i] < |g| && 0 <= r < |g[order[i]]| ==> g[order[i]][r] in order[..i]
  }

  /** A walk follows edges from consumer to provider. */
  ghost predicate Walk(g: Graph, p: seq<nat>) {
    && (forall i :: 0 <= i < |p| ==> p[i] < |g|)
    && forall i :: 0 <= i < |p| - 1 ==> p[i + 1] in g[p[i]]
  }

  ghost predicate Cycle(g: Graph, p: seq<nat>) {
    |p| >= 2 && Walk(g, p) && p[0] == p[|p| - 1]
  }

  ghost predicate HasCycle(g: Graph) {
    exists p :: Cycle(g, p)
  }

  // ---- Appending, uniqueness -------------------------------------------------

  lemma CanonicalAppend(g: Graph, order: seq<nat>, c: nat)
    requires Canonical(g, order) && LeastReady(g, order, c)
    ensures Canonical(g, order + [c])
  {
    var next := order + [c];
    forall i | 0 <= i < |next| ensures LeastReady(g, next[..i], next[i]) {
      assert next[..i] == order[..i];
      if i == |order| { assert order[..i] == order; }
    }
  }

  /** There is at most one canonical order of each length. */
  lemma {:induction false} CanonicalUnique(g: Graph, a: seq<nat>, b: seq<nat>)
    requires Canonical(g, a) && Canonical(g, b) && |a| == |b|
    ensures a == b
    decreases |a|
  {
    if a != [] {
      var k := |a| - 1;
      forall i | 0 <= i < k ensures LeastReady(g, a[..k][..i], a[..k][i]) && LeastReady(g, b[..k][..i], b[..k][i]) {
        assert a[..k][..i] == a[..i] && b[..k][..i] == b[..i];
      }
      CanonicalUnique(g, a[..k], b[..k]);
      assert LeastReady(g, a[..k], a[k]) && LeastReady(g, b[..k], b[k]);
      assert a == a[..k] + [a[k]] && b == b[..k] + [b[k]];
    }
  }

  // ---- Permutation, providers first ------------------------------------------

  /** In a canonical order no module repeats and every provider comes first. */
  lemma CanonicalSound(g: Graph, order: seq<nat>)
    requires Canonical(g, order)
    ensures forall i :: 0 <= i < |order| ==> order[i] < |g|
    ensures Distinct(order)
    ensures ProvidersFirst(g, order)
    ensures |order| <= |g|
  {
    forall i, j | 0 <= i < j < |order| ensures order[i] != order[j] {
      assert LeastReady(g, order[..j], order[j]);
      assert order[i] == order[..j][i];
    }
    forall i, r | 0 <= i < |order| && 0 <= r < |g[order[i]]| ensures g[order[i]][r] in order[..i] {
      assert LeastReady(g, order[..i], order[i]);
    }
    forall i | 0 <= i < |order| ensures order[i] < |g| {
      assert LeastReady(g, order[..i], order[i]);
    }
    DistinctBounded(order, |g|);
  }

  /** A canonical order of all modules is a permutation of them. */
  lemma CanonicalOrderIsPermutation(g: Graph, order: seq<nat>)
    requires CanonicalOrder(g, order)
    ensures Distinct(order) && ProvidersFirst(g, order)
    ensures forall c: nat :: c < |g| <==> c in order
  {
    CanonicalSound(g, order);
    forall c: nat | c < |g| ensures c in order {
      if c !in order {
        DistinctBounded(order + [c], |g|);
      }
    }
  }

  ghost function Below(n: nat): (s: set<nat>)
    ensures |s| == n && forall k: nat :: k in s <==> k < n
  {
    if n == 0 then {} else Below(n - 1) + {n - 1}
  }

  ghost function Elements(s: seq<nat>): (r: set<nat>)
    ensures forall k :: k in r <==> k in s
  {
    set k | k in s
  }

  lemma {:induction false} DistinctElements(s: seq<nat>)
    requires Distinct(s)
    ensures |Elements(s)| == |s|
    decreases |s|
  {
    if s != [] {
      var t := s[..|s| - 1];
      DistinctElements(t);
      assert s == t + [s[|s| - 1]];
      assert Elements(s) == Elements(t) + {s[|s| - 1]};
      assert s[|s| - 1] !in t;
    }
  }

  lemma {:induction false} SubsetSize(a: set<nat>, b: set<nat>)
    requires a <= b
    ensures |a| <= |b|
    decreases a
  {
    if a != {} {
      var x :| x in a;
      SubsetSize(a - {x}, b - {x});
    }
  }

  /** The pigeonhole principle: distinct numbers below `n` are at most `n` many. */
  lemma DistinctBounded(s: seq<nat>, n: nat)
    requires Distinct(s) && forall i :: 0 <= i < |s| ==> s[i] < n
    ensures |s| <= n
  {
    DistinctElements(s);
    SubsetSize(Elements(s), Below(n));
  }

  // ---- Cycles ----------------------------------------------------------------

  /** No module outside `prefix` is ready. */
  ghost predicate Stuck(g: Graph, prefix: seq<nat>) {
    forall c: nat :: c < |g| ==> !Ready(g, prefix, c)
  }

  /** When nothing is ready, unselected providers can be followed for ever. */
  lemma {:induction false} StuckWalk(g: Graph, prefix: seq<nat>, start: nat, n: nat) returns (p: seq<nat>)
    requires WellFormed(g) && Stuck(g, prefix) && start < |g| && start !in prefix
    ensures |p| == n + 1 && p[0] == start && Walk(g, p)
    decreases n
  {
    if n == 0 { return [start]; }
    assert !Ready(g, prefix, start);
    var r :| 0 <= r < |g[start]| && g[start][r] !in prefix;
    var rest := StuckWalk(g, prefix, g[start][r], n - 1);
    p := [start] + rest;
  }

  lemma StuckHasCycle(g: Graph, prefix: seq<nat>, start: nat)
    requires WellFormed(g) && Stuck(g, prefix) && start < |g| && start !in prefix
    ensures HasCycle(g)
  {
    var p := StuckWalk(g, prefix, start, |g|);
    if Distinct(p) {
      DistinctBounded(p, |g|);
      assert false;
    }
    var i, j :| 0 <= i < j < |p| && p[i] == p[j];
    var loop := p[i..j + 1];
    forall k | 0 <= k < |loop| - 1 ensures loop[k + 1] in g[loop[k]] {
      assert loop[k] == p[i + k] && loop[k + 1] == p[i + k + 1];
    }
    assert Cycle(g, loop);
  }

  ghost function Position(order: seq<nat>, c: nat): (i: nat)
    requires c in order
    ensures i < |order| && order[i] == c
  {
    var i :| 0 <= i < |order| && order[i] == c; i
  }

  /** Along a walk the position in a canonical order strictly falls. */
  lemma {:induction false} WalkDescends(g: Graph, order: seq<nat>, p: seq<nat>, k: nat)
    requires CanonicalOrder(g, order) && Walk(g, p) && 0 < k < |p|
    ensures p[0] in order && p[k] in order
    ensures Position(order, p[k]) < Position(order, p[0])
    decreases k
  {
    CanonicalOrderIsPermutation(g, order);
    if k > 1 { WalkDescends(g, order, p, k - 1); }
    var from := Position(order, p[k - 1]);
    assert p[k] in g[p[k - 1]];
    var r :| 0 <= r < |g[p[k - 1]]| && g[p[k - 1]][r] == p[k];
    assert g[order[from]][r] in order[..from];
    var to :| 0 <= to < from && order[to] == p[k];
    assert Position(order, p[k]) == to;
  }

  /** A complete canonical order exists only for a graph without cycles. */
  lemma CanonicalOrderExcludesCycle(g: Graph, order: seq<nat>)
    requires CanonicalOrder(g, order)
    ensures !HasCycle(g)
  {
    if p :| Cycle(g, p) {
      WalkDescends(g, order, p, |p| - 1);
      assert false;
    }
  }

  lemma LeastOfReady(g: Graph, prefix: seq<nat>, c: nat) returns (least: nat)
    requires c < |g| && Ready(g, prefix, c)
    ensures LeastReady(g, prefix, least)
  {
    least := 0;
    while !Ready(g, prefix, least)
      invariant least <= c && forall k: nat :: k < least ==> !Ready(g, prefix, k)
      decreases c - least
    {
      least := least + 1;
    }
  }

  /** Without cycles every canonical prefix extends to a complete canonical order. */
  lemma {:induction false} AcyclicHasOrder(g: Graph, prefix: seq<nat>) returns (order: seq<nat>)
    requires WellFormed(g) && Canonical(g, prefix) && !HasCycle(g)
    ensures CanonicalOrder(g, order)
    decreases |g| - |prefix|
  {
    CanonicalSound(g, prefix);
    if |prefix| == |g| { return prefix; }
    if Stuck(g, prefix) {
      var c := Missing(g, prefix);
      StuckHasCycle(g, prefix, c);
      assert false;
    }
    var ready: nat :| ready < |g| && Ready(g, prefix, ready);
    var c := LeastOfReady(g, prefix, ready);
    CanonicalAppend(g, prefix, c);
    CanonicalSound(g, prefix + [c]);
    order := AcyclicHasOrder(g, prefix + [c]);
  }

  /** A prefix that is too short leaves some module out. */
  lemma Missing(g: Graph, prefix: seq<nat>) returns (c: nat)
    requires |prefix| < |g|
    ensures c < |g| && c !in prefix
  {
    if forall c: nat :: c < |g| ==> c in prefix {
      ElementsSize(prefix);
      SubsetSize(Below(|g|), Elements(prefix));
      assert false;
    }
    c :| c < |g| && c !in prefix;
  }

  lemma {:induction false} ElementsSize(s: seq<nat>)
    ensures |Elements(s)| <= |s|
    decreases |s|
  {
    if s != [] {
      var t := s[..|s| - 1];
      ElementsSize(t);
      assert s == t + [s[|s| - 1]];
      assert Elements(s) == Elements(t) + {s[|s| - 1]};
    }
  }

  /** A complete canonical order exists exactly when no module depends on itself,
      directly or through others. */
  lemma OrderIffAcyclic(g: Graph)
    requires WellFormed(g)
    ensures (exists order :: CanonicalOrder(g, order)) <==> !HasCycle(g)
  {
    if order :| CanonicalOrder(g, order) {
      CanonicalOrderExcludesCycle(g, order);
    }
    if !HasCycle(g) {
      var order := AcyclicHasOrder(g, []);
    }
  }

  // ---- Outstanding requirements ----------------------------------------------

  /** How many entries of `deps` are not yet in `prefix`. */
  ghost function Outstanding(deps: seq<nat>, prefix: seq<nat>): nat {
    if deps == [] then 0
    else Outstanding(deps[..|deps| - 1], prefix) + if deps[|deps| - 1] in prefix then 0 else 1
  }

  lemma {:induction false} OutstandingZero(deps: seq<nat>, prefix: seq<nat>)
    ensures Outstanding(deps, prefix) == 0 <==> forall r :: 0 <= r < |deps| ==> deps[r] in prefix
    decreases |deps|
  {
    if deps != [] {
      var init := deps[..|deps| - 1];
      OutstandingZero(init, prefix);
      if forall r :: 0 <= r < |init| ==> init[r] in prefix {
        forall r | 0 <= r < |deps| - 1 ensures deps[r] in prefix { assert deps[r] == init[r]; }
      }
    }
  }

  lemma {:induction false} OutstandingEmpty(deps: seq<nat>)
    ensures Outstanding(deps, []) == |deps|
    decreases |deps|
  {
    if deps != [] { OutstandingEmpty(deps[..|deps| - 1]); }
  }

  /** Entries before `k` are counted after `c` joined the prefix, the rest before it did. */
  ghost function OutstandingPart(deps: seq<nat>, prefix: seq<nat>, c: nat, k: nat): int
    requires k <= |deps|
  {
    Outstanding(deps, prefix) - Outstanding(deps[..k], prefix) + Outstanding(deps[..k], prefix + [c])
  }

  lemma OutstandingPartStep(deps: seq<nat>, prefix: seq<nat>, c: nat, k: nat)
    requires k < |deps| && c !in prefix
    ensures OutstandingPart(deps, prefix, c, k + 1) ==
            OutstandingPart(deps, prefix, c, k) - if deps[k] == c then 1 else 0
    ensures deps[k] == c ==> OutstandingPart(deps, prefix, c, k) > 0
  {
    assert deps[..k + 1][..k] == deps[..k];
    if deps[k] == c {
      OutstandingMonotone(deps, prefix, k);
    }
  }

  lemma {:induction false} OutstandingMonotone(deps: seq<nat>, prefix: seq<nat>, k: nat)
    requires k < |deps| && deps[k] !in prefix
    ensures Outstanding(deps[..k], prefix) < Outstanding(deps, prefix)
    decreases |deps|
  {
    var init := deps[..|deps| - 1];
    if k < |deps| - 1 {
      OutstandingMonotone(init, prefix, k);
      assert init[..k] == deps[..k];
    }
  }
}
