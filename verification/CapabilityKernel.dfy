/** Building, publishing, validating and querying a capability catalog. */
module CapabilityKernel {
  import opened Native
  import opened DependencyOrder
  import opened CapabilityModel

  /** Caller-owned persistent storage for a publication. */
  class Storage {
    const bindings: array<Binding>
    const resolutions: array<Resolution>
    const moduleOrder: array<nat>

    constructor (b: array<Binding>, r: array<Resolution>, o: array<nat>)
      ensures bindings == b && resolutions == r && moduleOrder == o
    {
      bindings, resolutions, moduleOrder := b, r, o;
    }
  }

  /** Caller-owned scratch; its contents carry no meaning after a call. */
  class Workspace {
    const provider: array<nat>
    const binding: array<nat>
    const indegree: array<nat>
    const selected: array<bool>
    const moduleOrder: array<nat>

    constructor (p: array<nat>, b: array<nat>, d: array<nat>, s: array<bool>, o: array<nat>)
      ensures provider == p && binding == b && indegree == d && selected == s && moduleOrder == o
    {
      provider, binding, indegree, selected, moduleOrder := p, b, d, s, o;
    }

    ghost predicate Disjoint() {
      && provider != binding && provider != indegree && provider != moduleOrder
      && binding != indegree && binding != moduleOrder && indegree != moduleOrder
    }
  }

  /** The catalog a successful preparation writes. */
  class CatalogSlot {
    var value: Catalog

    constructor (c: Catalog)
      ensures value == c
    {
      value := c;
    }
  }

  // ---- Measuring and descriptor checks ---------------------------------------

  ghost predicate ShapesOk(ms: seq<Module>) {
    forall m :: 0 <= m < |ms| ==> ModuleShapeOk(ms[m])
  }

  method CountsMeasure(ms: seq<Module>) returns (status: int, bindingCount: nat, resolutionCount: nat)
    ensures status == OK <==> ShapesOk(ms) && CountsFit(ms)
    ensures status == OK ==> bindingCount == ExportBase(ms, |ms|) && resolutionCount == RequirementBase(ms, |ms|)
    ensures status == OK || (status == EINVAL && !ShapesOk(ms)) || (status == EOVERFLOW && !CountsFit(ms))
  {
    bindingCount, resolutionCount := 0, 0;
    for i := 0 to |ms|
      invariant forall m :: 0 <= m < i ==> ModuleShapeOk(ms[m])
      invariant bindingCount == ExportBase(ms, i) <= U64_MAX
      invariant resolutionCount == RequirementBase(ms, i) <= U64_MAX
    {
      if !ModuleShapeOk(ms[i]) { return EINVAL, 0, 0; }
      ExportBaseMonotone(ms, i + 1, |ms|);
      RequirementBaseMonotone(ms, i + 1, |ms|);
      if bindingCount + |ms[i].provided| > U64_MAX { return EOVERFLOW, 0, 0; }
      bindingCount := bindingCount + |ms[i].provided|;
      if resolutionCount + |ms[i].consumed| > U64_MAX { return EOVERFLOW, 0, 0; }
      resolutionCount := resolutionCount + |ms[i].consumed|;
    }
    status := OK;
  }

  /** One module's own declarations: shape, exports, requirements, repeated requirements. */
  ghost predicate DeclarationsOk(ms: seq<Module>, i: nat)
    requires i < |ms|
  {
    && ModuleShapeOk(ms[i])
    && (forall m :: 0 <= m < i ==> ms[m].id != ms[i].id)
    && (forall e :: 0 <= e < |ms[i].provided| ==> ExportOk(ms[i].provided[e]))
    && (forall r :: 0 <= r < |ms[i].consumed| ==> RequirementOk(ms[i].consumed[r]))
    && (forall r, r' :: 0 <= r < r' < |ms[i].consumed| ==> ms[i].consumed[r].id != ms[i].consumed[r'].id)
  }

  ghost predicate Faults(ms: seq<Module>, status: int) {
    (status == EINVAL && Malformed(ms)) || (status == EEXIST && HasDuplicate(ms))
  }

  method DeclarationsValidate(ms: seq<Module>, i: nat) returns (status: int)
    requires i < |ms|
    ensures status == OK <==> DeclarationsOk(ms, i)
    ensures status == OK || Faults(ms, status)
  {
    if !ModuleShapeOk(ms[i]) { return EINVAL; }
    for j := 0 to i
      invariant forall m :: 0 <= m < j ==> ms[m].id != ms[i].id
    {
      if ms[i].id == ms[j].id { return EEXIST; }
    }
    for p := 0 to |ms[i].provided|
      invariant forall e :: 0 <= e < p ==> ExportOk(ms[i].provided[e])
    {
      if !ExportOk(ms[i].provided[p]) {
        assert IsExport(ms, i, p);
        return EINVAL;
      }
    }
    for r := 0 to |ms[i].consumed|
      invariant forall k :: 0 <= k < r ==> RequirementOk(ms[i].consumed[k])
      invariant forall k, k' :: 0 <= k < k' < r ==> ms[i].consumed[k].id != ms[i].consumed[k'].id
    {
      assert IsRequirement(ms, i, r);
      if !RequirementOk(ms[i].consumed[r]) { return EINVAL; }
      for previous := 0 to r
        invariant forall k :: 0 <= k < previous ==> ms[i].consumed[k].id != ms[i].consumed[r].id
      {
        assert IsRequirement(ms, i, previous);
        if ms[i].consumed[r].id == ms[i].consumed[previous].id { return EEXIST; }
      }
    }
    status := OK;
  }

  /** Is the identifier of export (mi, pi) free of an earlier export? */
  method EarlierExportExists(ms: seq<Module>, mi: nat, pi: nat) returns (found: bool)
    requires IsExport(ms, mi, pi)
    ensures found <==> exists m, e :: IsExport(ms, m, e) && Before(m, e, mi, pi) && ms[m].provided[e].id == ms[mi].provided[pi].id
  {
    for mj := 0 to mi + 1
      invariant forall m, e :: IsExport(ms, m, e) && Before(m, e, mi, pi) && m < mj ==> ms[m].provided[e].id != ms[mi].provided[pi].id
    {
      var limit := |ms[mj].provided|;
      if mj == mi { limit := pi; }
      for pj := 0 to limit
        invariant forall e :: 0 <= e < pj ==> ms[mj].provided[e].id != ms[mi].provided[pi].id
      {
        if ms[mi].provided[pi].id == ms[mj].provided[pj].id {
          assert IsExport(ms, mj, pj) && Before(mj, pj, mi, pi);
          return true;
        }
      }
    }
    found := false;
  }

  method DescriptorSetValidate(ms: seq<Module>) returns (status: int)
    ensures status == OK <==> DescriptorSetOk(ms)
    ensures status == OK || Faults(ms, status)
  {
    for i := 0 to |ms|
      invariant forall m :: 0 <= m < i ==> DeclarationsOk(ms, m)
    {
      status := DeclarationsValidate(ms, i);
      if status != OK { return; }
    }
    DeclarationsCover(ms);
    for mi := 0 to |ms|
      invariant forall m, e, m', e' :: IsExport(ms, m, e) && IsExport(ms, m', e') && m' < mi && Before(m, e, m', e') ==>
                                         ms[m].provided[e].id != ms[m'].provided[e'].id
    {
      for pi := 0 to |ms[mi].provided|
        invariant forall m, e, e' :: IsExport(ms, m, e) && IsExport(ms, mi, e') && e' < pi && Before(m, e, mi, e') ==>
                                       ms[m].provided[e].id != ms[mi].provided[e'].id
      {
        assert IsExport(ms, mi, pi);
        var found := EarlierExportExists(ms, mi, pi);
        if found { return EEXIST; }
      }
    }
    status := OK;
  }

  lemma DeclarationsCover(ms: seq<Module>)
    requires forall m :: 0 <= m < |ms| ==> DeclarationsOk(ms, m)
    ensures !Malformed(ms) && ModuleIdsDistinct(ms) && RequirementIdsDistinct(ms)
  {
    forall m, m' | 0 <= m < m' < |ms| ensures ms[m].id != ms[m'].id {
      assert DeclarationsOk(ms, m');
    }
    forall c, r, r' | IsRequirement(ms, c, r) && IsRequirement(ms, c, r') && r < r'
      ensures ms[c].consumed[r].id != ms[c].consumed[r'].id
    {
      assert DeclarationsOk(ms, c);
    }
    forall m | 0 <= m < |ms| ensures ModuleShapeOk(ms[m]) { assert DeclarationsOk(ms, m); }
    forall m, e | IsExport(ms, m, e) ensures ExportOk(ms[m].provided[e]) { assert DeclarationsOk(ms, m); }
    forall c, r | IsRequirement(ms, c, r) ensures RequirementOk(ms[c].consumed[r]) { assert DeclarationsOk(ms, c); }
  }

  // ---- Resolving requirements ------------------------------------------------

  method BindingIndexForExport(ms: seq<Module>, m: nat, e: nat) returns (status: int, index: int)
    requires IsExport(ms, m, e) && CountsFit(ms)
    ensures status == OK && index == ExportBase(ms, m) + e
  {
    index := 0;
    ExportBaseMonotone(ms, m + 1, |ms|);
    for i := 0 to m
      invariant index == ExportBase(ms, i)
    {
      ExportBaseMonotone(ms, i + 1, m);
      if index + |ms[i].provided| > U64_MAX { return EOVERFLOW, index; }
      index := index + |ms[i].provided|;
    }
    if index + e > U64_MAX { return EOVERFLOW, index; }
    status, index := OK, index + e;
  }

  predicate Compatible(x: Export, q: Requirement) {
    x.version.Satisfies(q.minimumVersion) && x.interfaceSize >= q.minimumInterfaceSize
  }

  /** Does a match among the exports before (m, x) exist, and has it been recorded? */
  ghost predicate ScanState(ms: seq<Module>, q: Requirement, m: nat, x: nat,
                            foundId: bool, foundCompatible: bool, provider: nat, export_: nat) {
    && (foundId <==> exists i, e :: IsExport(ms, i, e) && Before(i, e, m, x) && ms[i].provided[e].id == q.id)
    && (foundCompatible ==> IsExport(ms, provider, export_) && Before(provider, export_, m, x)
                            && ms[provider].provided[export_].id == q.id && Compatible(ms[provider].provided[export_], q))
    && (!foundCompatible ==> forall i, e :: IsExport(ms, i, e) && Before(i, e, m, x) && ms[i].provided[e].id == q.id ==>
                                              !Compatible(ms[i].provided[e], q))
  }

  lemma ScanStateStep(ms: seq<Module>, q: Requirement, m: nat, x: nat, foundId: bool, foundCompatible: bool,
                      provider: nat, export_: nat)
    requires IsExport(ms, m, x) && ScanState(ms, q, m, x, foundId, foundCompatible, provider, export_)
    ensures ms[m].provided[x].id != q.id ==> ScanState(ms, q, m, x + 1, foundId, foundCompatible, provider, export_)
    ensures ms[m].provided[x].id == q.id && !Compatible(ms[m].provided[x], q) ==>
              ScanState(ms, q, m, x + 1, true, foundCompatible, provider, export_)
    ensures ms[m].provided[x].id == q.id && Compatible(ms[m].provided[x], q) ==>
              ScanState(ms, q, m, x + 1, true, true, m, x)
  {
    assert Before(m, x, m, x + 1);
    forall i, e | IsExport(ms, i, e) ensures Before(i, e, m, x + 1) <==> Before(i, e, m, x) || (i == m && e == x) {}
  }

  lemma ScanStateFinal(ms: seq<Module>, q: Requirement, foundId: bool, foundCompatible: bool, provider: nat, export_: nat)
    requires ScanState(ms, q, |ms|, 0, foundId, foundCompatible, provider, export_)
    ensures foundId <==> exists k: nat :: k < |Bindings(ms)| && Bindings(ms)[k].id == q.id
    ensures foundCompatible <==> Satisfied(ms, q)
    ensures foundCompatible ==> IsExport(ms, provider, export_) && Answers(ms, q, ExportBase(ms, provider) + export_)
    ensures foundCompatible ==> Bindings(ms)[ExportBase(ms, provider) + export_].providerModule == provider
  {
    if foundId {
      var i, e :| IsExport(ms, i, e) && ms[i].provided[e].id == q.id;
      BindingAt(ms, i, e, |ms|, 0);
      assert Bindings(ms)[ExportBase(ms, i) + e].id == q.id;
    }
    if foundCompatible {
      BindingAt(ms, provider, export_, |ms|, 0);
      assert Answers(ms, q, ExportBase(ms, provider) + export_);
    }
    forall k: nat | k < |Bindings(ms)|
      ensures (!foundId ==> Bindings(ms)[k].id != q.id) && (!foundCompatible ==> !Offers(Bindings(ms)[k], q))
    {
      var m, e := BindingOrigin(ms, |ms|, 0, k);
    }
  }

  /** Scans every export for the identifier; the last compatible one is kept. */
  method ProviderScan(ms: seq<Module>, q: Requirement)
    returns (foundId: bool, foundCompatible: bool, provider: nat, export_: nat)
    ensures foundId <==> exists k: nat :: k < |Bindings(ms)| && Bindings(ms)[k].id == q.id
    ensures foundCompatible <==> Satisfied(ms, q)
    ensures foundCompatible ==> IsExport(ms, provider, export_) && Answers(ms, q, ExportBase(ms, provider) + export_)
    ensures foundCompatible ==> Bindings(ms)[ExportBase(ms, provider) + export_].providerModule == provider
  {
    foundId, foundCompatible, provider, export_ := false, false, 0, 0;
    for m := 0 to |ms|
      invariant ScanState(ms, q, m, 0, foundId, foundCompatible, provider, export_)
    {
      for x := 0 to |ms[m].provided|
        invariant ScanState(ms, q, m, x, foundId, foundCompatible, provider, export_)
      {
        ScanStateStep(ms, q, m, x, foundId, foundCompatible, provider, export_);
        var candidate := ms[m].provided[x];
        if candidate.id != q.id { continue; }
        foundId := true;
        if Compatible(candidate, q) {
          foundCompatible, provider, export_ := true, m, x;
        }
      }
      assert forall i, e :: IsExport(ms, i, e) ==> (Before(i, e, m, |ms[m].provided|) <==> Before(i, e, m + 1, 0));
    }
    ScanStateFinal(ms, q, foundId, foundCompatible, provider, export_);
  }

  /** Resolves requirement `r` of consumer `c` to its provider and flat binding index. */
  method RequirementResolve(ms: seq<Module>, c: nat, r: nat) returns (status: int, provider: nat, binding: int)
    requires IsRequirement(ms, c, r) && DescriptorSetOk(ms) && CountsFit(ms)
    ensures status == RequirementStatus(ms, ms[c].consumed[r])
    ensures status == OK ==> && binding == Supplier(ms, ms[c].consumed[r]) < |Bindings(ms)|
                             && provider == Bindings(ms)[binding].providerModule
  {
    var required := ms[c].consumed[r];
    var foundId, foundCompatible, export_;
    foundId, foundCompatible, provider, export_ := ProviderScan(ms, required);
    if !foundId { return ENOENT, 0, 0; }
    if !foundCompatible { return EPROTONOSUPPORT, 0, 0; }
    status, binding := BindingIndexForExport(ms, provider, export_);
    AnswerUnique(ms, required, binding, Supplier(ms, required));
  }

  /** What resolution leaves in the scratch arrays for the first `n` requirements. */
  ghost predicate ResolvedPrefix(ms: seq<Module>, provider: seq<nat>, binding: seq<nat>, n: nat) {
    && n <= |Resolutions(ms)| && n <= |provider| && n <= |binding|
    && forall i :: 0 <= i < n ==>
                     && binding[i] == Resolutions(ms)[i].binding < |Bindings(ms)|
                     && provider[i] == Bindings(ms)[binding[i]].providerModule
  }

  ghost predicate SatisfiedBefore(ms: seq<Module>, c: nat, r: nat) {
    forall c', r' :: IsRequirement(ms, c', r') && Before(c', r', c, r) ==> Satisfied(ms, ms[c'].consumed[r'])
  }

  method RequirementsResolve(ms: seq<Module>, w: Workspace) returns (status: int)
    requires w.Disjoint() && DescriptorSetOk(ms) && CountsFit(ms)
    requires w.provider.Length >= RequirementBase(ms, |ms|) && w.binding.Length >= RequirementBase(ms, |ms|)
    requires w.indegree.Length >= |ms| && w.selected.Length >= |ms|
    modifies w.provider, w.binding, w.indegree, w.selected
    ensures status == OK <==> AllSatisfied(ms)
    ensures status == OK ==> ResolvedPrefix(ms, w.provider[..], w.binding[..], |Resolutions(ms)|)
    ensures status == OK ==> forall c :: 0 <= c < |ms| ==> w.indegree[c] == |ms[c].consumed| && !w.selected[c]
    ensures status != OK ==> exists c: nat, r: nat :: FirstUnsatisfied(ms, c, r) && status == RequirementStatus(ms, ms[c].consumed[r])
  {
    hide DescriptorSetOk, CountsFit, BindingsUpTo, ResolutionsUpTo, Satisfied;
    var index: nat := 0;
    for c := 0 to |ms|
      invariant index == RequirementBase(ms, c) && ResolvedPrefix(ms, w.provider[..], w.binding[..], index)
      invariant forall i :: 0 <= i < c ==> w.indegree[i] == |ms[i].consumed| && !w.selected[i]
      invariant SatisfiedBefore(ms, c, 0)
    {
      w.indegree[c] := |ms[c].consumed|;
      w.selected[c] := false;
      RequirementBaseMonotone(ms, c + 1, |ms|);
      for r := 0 to |ms[c].consumed|
        invariant index == RequirementBase(ms, c) + r && ResolvedPrefix(ms, w.provider[..], w.binding[..], index)
        invariant forall i :: 0 <= i <= c ==> w.indegree[i] == |ms[i].consumed| && !w.selected[i]
        invariant SatisfiedBefore(ms, c, r)
      {
        assert IsRequirement(ms, c, r);
        var provider, k;
        status, provider, k := RequirementResolve(ms, c, r);
        if status != OK {
          assert FirstUnsatisfied(ms, c, r);
          return;
        }
        ResolutionAt(ms, c, r, |ms|, 0);
        w.provider[index] := provider;
        w.binding[index] := k;
        index := index + 1;
      }
    }
    status := OK;
  }

  // ---- Building the order ----------------------------------------------------

  /** The flat provider array lists, consumer after consumer, the rows of graph `g`. */
  ghost predicate FlatGraph(ms: seq<Module>, g: Graph, flat: seq<nat>) {
    && |g| == |ms|
    && forall c :: 0 <= c < |g| ==> FlatRow(ms, g, flat, c)
  }

  ghost predicate FlatRow(ms: seq<Module>, g: Graph, flat: seq<nat>, c: nat)
    requires c < |g| == |ms|
  {
    var base, count := RequirementBase(ms, c), |ms[c].consumed|;
    base + count <= |flat| && flat[base..base + count] == g[c]
  }

  lemma ResolvedIsFlat(ms: seq<Module>, provider: seq<nat>, binding: seq<nat>)
    requires AllSatisfied(ms) && ResolvedPrefix(ms, provider, binding, |Resolutions(ms)|)
    ensures FlatGraph(ms, DependencyGraph(ms), provider)
  {
    hide BindingsUpTo, ResolutionsUpTo, Satisfied, AllSatisfied;
    var g := DependencyGraph(ms);
    forall c | 0 <= c < |g| ensures FlatRow(ms, g, provider, c) {
      RequirementBaseMonotone(ms, c + 1, |ms|);
      var base := RequirementBase(ms, c);
      forall r | 0 <= r < |g[c]| ensures provider[base + r] == g[c][r] {
        assert IsRequirement(ms, c, r);
        ResolutionAt(ms, c, r, |ms|, 0);
      }
    }
  }

  /** The indegree of a module is the number of its requirements not yet in the order. */
  ghost predicate Degrees(g: Graph, indegree: seq<nat>, selected: seq<bool>, order: seq<nat>) {
    && |indegree| >= |g| && |selected| >= |g|
    && forall c: nat :: c < |g| ==> indegree[c] == Outstanding(g[c], order) && (selected[c] <==> c in order)
  }

  lemma DegreesReady(g: Graph, indegree: seq<nat>, selected: seq<bool>, order: seq<nat>, c: nat)
    requires Degrees(g, indegree, selected, order) && c < |g|
    ensures Ready(g, order, c) <==> !selected[c] && indegree[c] == 0
  {
    OutstandingZero(g[c], order);
  }

  method FindReady(n: nat, w: Workspace, ghost g: Graph, ghost order: seq<nat>) returns (found: bool, c: nat)
    requires n == |g| && Degrees(g, w.indegree[..], w.selected[..], order)
    ensures found ==> LeastReady(g, order, c)
    ensures !found ==> Stuck(g, order)
  {
    found, c := false, 0;
    for candidate := 0 to n
      invariant !found
      invariant forall k: nat :: k < candidate ==> !Ready(g, order, k)
    {
      DegreesReady(g, w.indegree[..], w.selected[..], order, candidate);
      if !w.selected[candidate] && w.indegree[candidate] == 0 {
        return true, candidate;
      }
    }
  }

  /** Lowers the indegree of one consumer, once per requirement that `chosen` supplies.
      Such a consumer always has a positive indegree, so the inner failure is dead. */
  method ReleaseConsumer(w: Workspace, consumer: nat, count: nat, base: nat, chosen: nat,
                         ghost deps: seq<nat>, ghost order: seq<nat>)
    returns (status: int)
    requires w.Disjoint() && consumer < w.indegree.Length && chosen !in order && count == |deps|
    requires base + count <= w.provider.Length && w.provider[base..base + count] == deps
    requires w.indegree[consumer] == Outstanding(deps, order)
    modifies w.indegree
    ensures status == OK
    ensures w.indegree[consumer] == Outstanding(deps, order + [chosen])
    ensures forall c :: 0 <= c < w.indegree.Length && c != consumer ==> w.indegree[c] == old(w.indegree[c])
  {
    for r := 0 to count
      invariant w.indegree[consumer] == OutstandingPart(deps, order, chosen, r)
      invariant forall c :: 0 <= c < w.indegree.Length && c != consumer ==> w.indegree[c] == old(w.indegree[c])
    {
      OutstandingPartStep(deps, order, chosen, r);
      assert w.provider[base + r] == w.provider[base..base + count][r];
      if w.provider[base + r] == chosen {
        if w.indegree[consumer] == 0 { return EINVAL; }
        w.indegree[consumer] := w.indegree[consumer] - 1;
      }
    }
    assert deps[..count] == deps;
    status := OK;
  }

  method ReleaseConsumers(ms: seq<Module>, w: Workspace, chosen: nat, ghost g: Graph, ghost order: seq<nat>)
    returns (status: int)
    requires w.Disjoint() && FlatGraph(ms, g, w.provider[..]) && chosen !in order
    requires w.indegree.Length >= |ms|
    requires forall c: nat :: c < |ms| ==> w.indegree[c] == Outstanding(g[c], order)
    modifies w.indegree
    ensures status == OK
    ensures forall c: nat :: c < |ms| ==> w.indegree[c] == Outstanding(g[c], order + [chosen])
  {
    var index: nat := 0;
    ghost var flat := w.provider[..];
    for consumer := 0 to |ms|
      invariant index == RequirementBase(ms, consumer) && w.provider[..] == flat
      invariant forall c: nat :: c < consumer ==> w.indegree[c] == Outstanding(g[c], order + [chosen])
      invariant forall c: nat :: consumer <= c < |ms| ==> w.indegree[c] == Outstanding(g[c], order)
    {
      RequirementBaseMonotone(ms, consumer + 1, |ms|);
      var count := |ms[consumer].consumed|;
      assert FlatRow(ms, g, flat, consumer);
      assert w.provider[index..index + count] == flat[index..index + count];
      status := ReleaseConsumer(w, consumer, count, index, chosen, g[consumer], order);
      if status != OK { return; }
      index := index + count;
    }
    status := OK;
  }

  method SelectModule(ms: seq<Module>, w: Workspace, n: nat, chosen: nat, ghost g: Graph, ghost order: seq<nat>)
    returns (status: int)
    requires w.Disjoint() && FlatGraph(ms, g, w.provider[..])
    requires n < w.moduleOrder.Length && w.moduleOrder[..n] == order && LeastReady(g, order, chosen)
    requires Degrees(g, w.indegree[..], w.selected[..], order)
    modifies w.indegree, w.selected, w.moduleOrder
    ensures status == OK
    ensures w.moduleOrder[..n + 1] == order + [chosen]
    ensures Degrees(g, w.indegree[..], w.selected[..], order + [chosen])
  {
    w.selected[chosen] := true;
    w.moduleOrder[n] := chosen;
    ghost var next := w.moduleOrder[..n + 1];
    assert next == order + [chosen];
    forall c: nat | c < |g| ensures w.selected[c] <==> c in order + [chosen] {}
    assert forall c: nat :: c < |g| ==> w.indegree[c] == w.indegree[..][c];
    status := ReleaseConsumers(ms, w, chosen, g, order);
  }

  /** Either the canonical order of all the modules, or -ELOOP when some module needs itself. */
  method TopologicalOrderBuild(ms: seq<Module>, w: Workspace, ghost g: Graph) returns (status: int)
    requires w.Disjoint() && FlatGraph(ms, g, w.provider[..]) && WellFormed(g)
    requires w.indegree.Length >= |ms| && w.selected.Length >= |ms| && w.moduleOrder.Length >= |ms|
    requires forall c :: 0 <= c < |ms| ==> w.indegree[c] == |ms[c].consumed| && !w.selected[c]
    modifies w.indegree, w.selected, w.moduleOrder
    ensures status == OK <==> !HasCycle(g)
    ensures status == OK ==> CanonicalOrder(g, w.moduleOrder[..|ms|])
    ensures status != OK ==> status == ELOOP
  {
    forall c: nat | c < |ms| ensures w.indegree[c] == Outstanding(g[c], []) {
      assert FlatRow(ms, g, w.provider[..], c);
      OutstandingEmpty(g[c]);
    }
    ghost var flat := w.provider[..];
    for n := 0 to |ms|
      invariant Canonical(g, w.moduleOrder[..n]) && w.provider[..] == flat
      invariant Degrees(g, w.indegree[..], w.selected[..], w.moduleOrder[..n])
    {
      ghost var order := w.moduleOrder[..n];
      var found, chosen := FindReady(|ms|, w, g, order);
      if !found {
        var c := Missing(g, order);
        StuckHasCycle(g, order, c);
        return ELOOP;
      }
      CanonicalAppend(g, order, chosen);
      status := SelectModule(ms, w, n, chosen, g, order);
      if status != OK { return; }
    }
    CanonicalOrderExcludesCycle(g, w.moduleOrder[..|ms|]);
    status := OK;
  }

  // ---- Publication -----------------------------------------------------------

  ghost predicate HasRoom(ms: seq<Module>, s: Storage, w: Workspace) {
    && s.bindings.Length >= ExportBase(ms, |ms|) && s.resolutions.Length >= RequirementBase(ms, |ms|)
    && s.moduleOrder.Length >= |ms|
    && w.provider.Length >= RequirementBase(ms, |ms|) && w.binding.Length >= RequirementBase(ms, |ms|)
    && w.indegree.Length >= |ms| && w.selected.Length >= |ms| && w.moduleOrder.Length >= |ms|
  }

  ghost predicate Apart(s: Storage, w: Workspace) {
    && w.Disjoint()
    && s.moduleOrder !in {w.provider, w.binding, w.indegree, w.moduleOrder}
  }

  method PublishBindings(ms: seq<Module>, table: array<Binding>)
    requires table.Length >= ExportBase(ms, |ms|)
    modifies table
    ensures table[..ExportBase(ms, |ms|)] == Bindings(ms)
    ensures table[ExportBase(ms, |ms|)..] == old(table[ExportBase(ms, |ms|)..])
  {
    var b: nat := 0;
    for m := 0 to |ms|
      invariant b == ExportBase(ms, m) && b <= ExportBase(ms, |ms|) && table[..b] == BindingsUpTo(ms, m, 0)
      invariant table[ExportBase(ms, |ms|)..] == old(table[ExportBase(ms, |ms|)..])
    {
      ExportBaseMonotone(ms, m + 1, |ms|);
      for e := 0 to |ms[m].provided|
        invariant b == ExportBase(ms, m) + e && b <= ExportBase(ms, |ms|) && table[..b] == BindingsUpTo(ms, m, e)
        invariant table[ExportBase(ms, |ms|)..] == old(table[ExportBase(ms, |ms|)..])
      {
        var x := ms[m].provided[e];
        table[b] := Binding(x.id, x.version, x.interfaceSize, 0, x.flags, x.interfaceTable, x.providerContext, m);
        b := b + 1;
        assert table[..b] == table[..b - 1] + [table[b - 1]];
      }
    }
  }

  method PublishResolutions(ms: seq<Module>, table: array<Resolution>, w: Workspace)
    requires table.Length >= RequirementBase(ms, |ms|)
    requires ResolvedPrefix(ms, w.provider[..], w.binding[..], |Resolutions(ms)|)
    modifies table
    ensures table[..RequirementBase(ms, |ms|)] == Resolutions(ms)
    ensures table[RequirementBase(ms, |ms|)..] == old(table[RequirementBase(ms, |ms|)..])
  {
    var k: nat := 0;
    ghost var binding := w.binding[..];
    for c := 0 to |ms|
      invariant k == RequirementBase(ms, c) && k <= RequirementBase(ms, |ms|) && table[..k] == ResolutionsUpTo(ms, c, 0)
      invariant table[RequirementBase(ms, |ms|)..] == old(table[RequirementBase(ms, |ms|)..])
      invariant w.binding[..] == binding
    {
      RequirementBaseMonotone(ms, c + 1, |ms|);
      for r := 0 to |ms[c].consumed|
        invariant k == RequirementBase(ms, c) + r && k <= RequirementBase(ms, |ms|) && table[..k] == ResolutionsUpTo(ms, c, r)
        invariant table[RequirementBase(ms, |ms|)..] == old(table[RequirementBase(ms, |ms|)..])
        invariant w.binding[..] == binding
      {
        ResolutionAt(ms, c, r, |ms|, 0);
        assert w.binding[k] == binding[k];
        table[k] := Resolution(c, r, w.binding[k]);
        k := k + 1;
        assert table[..k] == table[..k - 1] + [table[k - 1]];
      }
    }
  }

  method PublishOrder(n: nat, table: array<nat>, w: Workspace)
    requires table.Length >= n && w.moduleOrder.Length >= n && table != w.moduleOrder
    modifies table
    ensures table[..n] == w.moduleOrder[..n]
    ensures table[n..] == old(table[n..])
  {
    for i := 0 to n
      invariant table[..i] == w.moduleOrder[..i]
      invariant table[n..] == old(table[n..])
    {
      table[i] := w.moduleOrder[i];
      assert table[..i + 1] == table[..i] + [table[i]];
    }
  }

  method PublishCatalog(ms: seq<Module>, s: Storage, w: Workspace, out: CatalogSlot)
    requires Apart(s, w) && HasRoom(ms, s, w) && AllSatisfied(ms)
    requires ResolvedPrefix(ms, w.provider[..], w.binding[..], |Resolutions(ms)|)
    requires CanonicalOrder(DependencyGraph(ms), w.moduleOrder[..|ms|])
    modifies s.bindings, s.resolutions, s.moduleOrder, out
    ensures HeaderOk(out.value) && out.value.modules == ms
    ensures Publishes(ms, out.value.bindings, out.value.resolutions, out.value.moduleOrder)
    ensures s.bindings[..] == out.value.bindings + old(s.bindings[ExportBase(ms, |ms|)..])
    ensures s.resolutions[..] == out.value.resolutions + old(s.resolutions[RequirementBase(ms, |ms|)..])
    ensures s.moduleOrder[..] == out.value.moduleOrder + old(s.moduleOrder[|ms|..])
  {
    ghost var order := w.moduleOrder[..|ms|];
    PublishBindings(ms, s.bindings);
    PublishResolutions(ms, s.resolutions, w);
    PublishOrder(|ms|, s.moduleOrder, w);
    out.value := Catalog(CATALOG_ABI, CATALOG_SIZE, 0, ms, s.bindings[..ExportBase(ms, |ms|)],
                         s.resolutions[..RequirementBase(ms, |ms|)], s.moduleOrder[..|ms|]);
    assert out.value.moduleOrder == order;
    assert s.bindings[..] == s.bindings[..ExportBase(ms, |ms|)] + s.bindings[ExportBase(ms, |ms|)..];
    assert s.resolutions[..] == s.resolutions[..RequirementBase(ms, |ms|)] + s.resolutions[RequirementBase(ms, |ms|)..];
    assert s.moduleOrder[..] == s.moduleOrder[..|ms|] + s.moduleOrder[|ms|..];
  }

  /** Prepares a catalog. It succeeds exactly when a publication of the modules exists and
      fits; every failure is attributed, and leaves storage and output untouched. */
  method Prepare(ms: seq<Module>, s: Storage, w: Workspace, out: CatalogSlot) returns (status: int)
    requires Apart(s, w)
    modifies s.bindings, s.resolutions, s.moduleOrder, w.provider, w.binding, w.indegree, w.selected, w.moduleOrder, out
    ensures status == OK <==> && CountsFit(ms) && HasRoom(ms, s, w) && DescriptorSetOk(ms)
                              && AllSatisfied(ms) && !HasCycle(DependencyGraph(ms))
    ensures status == OK ==> ValidCatalog(out.value) && out.value.modules == ms
    ensures status == OK ==> && s.bindings[..] == out.value.bindings + old(s.bindings[ExportBase(ms, |ms|)..])
                             && s.resolutions[..] == out.value.resolutions + old(s.resolutions[RequirementBase(ms, |ms|)..])
                             && s.moduleOrder[..] == out.value.moduleOrder + old(s.moduleOrder[|ms|..])
    ensures status != OK ==> && out.value == old(out.value) && s.bindings[..] == old(s.bindings[..])
                             && s.resolutions[..] == old(s.resolutions[..]) && s.moduleOrder[..] == old(s.moduleOrder[..])
    ensures !ShapesOk(ms) ==> status == EINVAL || (status == EOVERFLOW && !CountsFit(ms))
    ensures ShapesOk(ms) && !CountsFit(ms) ==> status == EOVERFLOW
    ensures ShapesOk(ms) && CountsFit(ms) && !HasRoom(ms, s, w) ==> status == ENOSPC
    ensures ShapesOk(ms) && CountsFit(ms) && HasRoom(ms, s, w) && !DescriptorSetOk(ms) ==> Faults(ms, status)
    ensures CountsFit(ms) && DescriptorSetOk(ms) && HasRoom(ms, s, w) && !AllSatisfied(ms) ==>
              exists c: nat, r: nat :: FirstUnsatisfied(ms, c, r) && status == RequirementStatus(ms, ms[c].consumed[r])
    ensures CountsFit(ms) && DescriptorSetOk(ms) && HasRoom(ms, s, w) && AllSatisfied(ms) ==>
              (status == ELOOP <==> HasCycle(DependencyGraph(ms)))
  {
    var bindingCount, resolutionCount;
    status, bindingCount, resolutionCount := CountsMeasure(ms);
    if status != OK { return; }
    if s.bindings.Length < bindingCount || s.resolutions.Length < resolutionCount || s.moduleOrder.Length < |ms|
       || w.provider.Length < resolutionCount || w.binding.Length < resolutionCount
       || w.indegree.Length < |ms| || w.selected.Length < |ms| || w.moduleOrder.Length < |ms| {
      return ENOSPC;
    }
    status := DescriptorSetValidate(ms);
    if status != OK { return; }
    status := RequirementsResolve(ms, w);
    if status != OK { return; }
    ResolvedIsFlat(ms, w.provider[..], w.binding[..]);
    GraphWellFormed(ms);
    status := TopologicalOrderBuild(ms, w, DependencyGraph(ms));
    if status != OK { return; }
    PublishCatalog(ms, s, w, out);
  }
}
