/** The independent checker of published catalogs, and the queries that trust it. */
module CapabilityCatalog {
  import opened Native
  import opened DependencyOrder
  import opened CapabilityModel
  import Kernel = CapabilityKernel

  /** A catalog's order table always has one entry for each module. */
  ghost predicate Shaped(c: Catalog) {
    |c.moduleOrder| == |c.modules| <= U64_MAX
  }

  method ModulePosition(c: Catalog, m: nat) returns (status: int, position: nat)
    requires Shaped(c)
    ensures status == OK <==> m in c.moduleOrder
    ensures status == OK ==> position < |c.moduleOrder| && c.moduleOrder[position] == m && m !in c.moduleOrder[..position]
    ensures status in {OK, EINVAL}
  {
    for i := 0 to |c.modules|
      invariant m !in c.moduleOrder[..i]
    {
      if c.moduleOrder[i] == m { return OK, i; }
    }
    return EINVAL, 0;
  }

  method InOrderPrefix(c: Catalog, m: nat, length: nat) returns (found: bool)
    requires Shaped(c) && length <= |c.modules|
    ensures found <==> m in c.moduleOrder[..length]
  {
    for i := 0 to length
      invariant m !in c.moduleOrder[..i]
    {
      if c.moduleOrder[i] == m { return true; }
    }
    found := false;
  }

  /** The tables, apart from the order, are those of the publication. */
  ghost predicate TablesOk(c: Catalog) {
    && c.bindings == Bindings(c.modules) && AllSatisfied(c.modules)
    && c.resolutions == Resolutions(c.modules) && WellFormed(DependencyGraph(c.modules))
  }

  /** Finds the resolution of requirement `r` of module `m` by scanning the table. */
  method FindResolution(c: Catalog, m: nat, r: nat) returns (status: int, binding: nat)
    requires TablesOk(c) && IsRequirement(c.modules, m, r)
    ensures status == OK && binding == Supplier(c.modules, c.modules[m].consumed[r]) < |c.bindings|
  {
    hide DependencyGraph, WellFormed, BindingsUpTo, ResolutionsUpTo, RequirementBase, Bindings, Satisfied;
    ResolutionAt(c.modules, m, r, |c.modules|, 0);
    status, binding := EINVAL, 0;
    for i := 0 to |c.resolutions|
      invariant i <= RequirementBase(c.modules, m) + r
    {
      var c', r' := ResolutionOrigin(c.modules, |c.modules|, 0, i);
      if c.resolutions[i].consumer == m && c.resolutions[i].requirement == r {
        binding := c.resolutions[i].binding;
        if binding >= |c.bindings| { return; }
        return OK, binding;
      }
    }
  }

  method ModuleReadyAtPosition(c: Catalog, m: nat, position: nat) returns (status: int, ready: bool)
    requires Shaped(c) && TablesOk(c) && m < |c.modules| && position <= |c.modules|
    requires m !in c.moduleOrder[..position]
    ensures status == OK
    ensures ready <==> Ready(DependencyGraph(c.modules), c.moduleOrder[..position], m)
  {
    ghost var g := DependencyGraph(c.modules);
    for r := 0 to |c.modules[m].consumed|
      invariant forall k :: 0 <= k < r ==> g[m][k] in c.moduleOrder[..position]
    {
      assert IsRequirement(c.modules, m, r);
      var binding;
      status, binding := FindResolution(c, m, r);
      if status != OK { return status, false; }
      var provider := c.bindings[binding].providerModule;
      assert provider == g[m][r];
      if provider >= |c.modules| { return EINVAL, false; }
      var placed := InOrderPrefix(c, provider, position);
      if !placed { return OK, false; }
    }
    status, ready := OK, true;
  }

  /** Recomputes, position by position, the least-index ready module. */
  method CanonicalModuleOrderValidate(c: Catalog) returns (status: int)
    requires Shaped(c) && TablesOk(c)
    ensures status == OK <==> CanonicalOrder(DependencyGraph(c.modules), c.moduleOrder)
    ensures status in {OK, EINVAL}
  {
    ghost var g := DependencyGraph(c.modules);
    for position := 0 to |c.modules|
      invariant forall i :: 0 <= i < position ==> LeastReady(g, c.moduleOrder[..i], c.moduleOrder[i])
    {
      var expected := U64_MAX;
      for candidate := 0 to |c.modules|
        invariant expected == U64_MAX
        invariant forall k: nat :: k < candidate ==> !Ready(g, c.moduleOrder[..position], k)
      {
        var placed := InOrderPrefix(c, candidate, position);
        if placed { continue; }
        var ready;
        status, ready := ModuleReadyAtPosition(c, candidate, position);
        if status != OK { return; }
        if ready {
          expected := candidate;
          break;
        }
      }
      if expected == U64_MAX || c.moduleOrder[position] != expected {
        assert !LeastReady(g, c.moduleOrder[..position], c.moduleOrder[position]);
        return EINVAL;
      }
    }
    status := OK;
  }

  method OrderEntriesValidate(c: Catalog) returns (status: int)
    requires Shaped(c)
    ensures status == OK <==> Distinct(c.moduleOrder) && forall i :: 0 <= i < |c.moduleOrder| ==> c.moduleOrder[i] < |c.modules|
    ensures status in {OK, EINVAL}
  {
    for i := 0 to |c.modules|
      invariant forall k :: 0 <= k < i ==> c.moduleOrder[k] < |c.modules|
      invariant forall k, l :: 0 <= k < l < i ==> c.moduleOrder[k] != c.moduleOrder[l]
    {
      if c.moduleOrder[i] >= |c.modules| { return EINVAL; }
      for j := 0 to i
        invariant forall k :: 0 <= k < j ==> c.moduleOrder[k] != c.moduleOrder[i]
      {
        if c.moduleOrder[i] == c.moduleOrder[j] { return EINVAL; }
      }
    }
    status := OK;
  }

  lemma ExportsSound(ms: seq<Module>, m: nat, e: nat)
    requires DescriptorSetOk(ms) && m < |ms| && e < |ms[m].provided|
    ensures IsExport(ms, m, e) && ExportOk(ms[m].provided[e])
  {
    assert IsExport(ms, m, e);
  }

  method BindingsValidate(c: Catalog) returns (status: int)
    requires DescriptorSetOk(c.modules) && |c.bindings| == ExportBase(c.modules, |c.modules|)
    ensures status == OK <==> c.bindings == Bindings(c.modules)
    ensures status in {OK, EINVAL}
  {
    hide DescriptorSetOk, ExportOk;
    var b: nat := 0;
    for m := 0 to |c.modules|
      invariant b == ExportBase(c.modules, m) <= |c.bindings| && c.bindings[..b] == BindingsUpTo(c.modules, m, 0)
    {
      ExportBaseMonotone(c.modules, m + 1, |c.modules|);
      for e := 0 to |c.modules[m].provided|
        invariant b == ExportBase(c.modules, m) + e <= |c.bindings| && c.bindings[..b] == BindingsUpTo(c.modules, m, e)
      {
        ExportsSound(c.modules, m, e);
        var x, y := c.modules[m].provided[e], c.bindings[b];
        if !ExportOk(x) || y.id != x.id || y.version.major != x.version.major || y.version.minor != x.version.minor
           || y.interfaceSize != x.interfaceSize || y.reserved0 != 0 || y.flags != x.flags
           || y.interfaceTable != x.interfaceTable || y.providerContext != x.providerContext || y.providerModule != m {
          BindingAt(c.modules, m, e, |c.modules|, 0);
          return EINVAL;
        }
        b := b + 1;
        assert c.bindings[..b] == c.bindings[..b - 1] + [y];
      }
    }
    assert c.bindings[..b] == c.bindings;
    status := OK;
  }

  /** Does the order place the supplier of this requirement before its consumer? */
  ghost predicate Placed(c: Catalog, consumer: int, r: int)
    requires IsRequirement(c.modules, consumer, r)
  {
    && Satisfied(c.modules, c.modules[consumer].consumed[r])
    && exists i, j :: 0 <= i < j < |c.moduleOrder| && c.moduleOrder[j] == consumer
                      && c.moduleOrder[i] == ProviderOf(c.modules, c.modules[consumer].consumed[r])
  }

  /** Checks one entry of the resolution table and the position of its provider. */
  method ResolutionValidate(c: Catalog, consumer: nat, r: nat, index: nat) returns (status: int)
    requires Shaped(c) && DescriptorSetOk(c.modules) && Distinct(c.moduleOrder)
    requires c.bindings == Bindings(c.modules) && index < |c.resolutions| && IsRequirement(c.modules, consumer, r)
    ensures status == OK <==> c.resolutions[index] == ResolutionOf(c.modules, consumer, r) && Placed(c, consumer, r)
    ensures status in {OK, EINVAL}
  {
    var required, resolution := c.modules[consumer].consumed[r], c.resolutions[index];
    if !RequirementOk(required) || resolution.consumer != consumer || resolution.requirement != r {
      return EINVAL;
    }
    if resolution.binding >= |c.bindings| { return EINVAL; }
    var binding := c.bindings[resolution.binding];
    if binding.id != required.id || !binding.version.Satisfies(required.minimumVersion)
       || binding.interfaceSize < required.minimumInterfaceSize {
      assert !Answers(c.modules, required, resolution.binding);
      return EINVAL;
    }
    assert Answers(c.modules, required, resolution.binding);
    AnswerUnique(c.modules, required, resolution.binding, Supplier(c.modules, required));
    var providerPosition, consumerPosition;
    status, providerPosition := ModulePosition(c, binding.providerModule);
    if status != OK { return; }
    status, consumerPosition := ModulePosition(c, consumer);
    if status != OK || providerPosition >= consumerPosition { return EINVAL; }
  }

  method ResolutionsValidate(c: Catalog) returns (status: int)
    requires Shaped(c) && DescriptorSetOk(c.modules) && Distinct(c.moduleOrder) && c.bindings == Bindings(c.modules)
    requires |c.resolutions| == RequirementBase(c.modules, |c.modules|)
    ensures status == OK <==> && c.resolutions == Resolutions(c.modules)
                              && forall m, r :: IsRequirement(c.modules, m, r) ==> Placed(c, m, r)
    ensures status in {OK, EINVAL}
  {
    hide Shaped, DescriptorSetOk, Distinct, Placed, Bindings, ResolutionOf;
    var index: nat := 0;
    for m := 0 to |c.modules|
      invariant index == RequirementBase(c.modules, m) <= |c.resolutions|
      invariant c.resolutions[..index] == ResolutionsUpTo(c.modules, m, 0)
      invariant forall m', r' :: IsRequirement(c.modules, m', r') && m' < m ==> Placed(c, m', r')
    {
      RequirementBaseMonotone(c.modules, m + 1, |c.modules|);
      for r := 0 to |c.modules[m].consumed|
        invariant index == RequirementBase(c.modules, m) + r <= |c.resolutions|
        invariant c.resolutions[..index] == ResolutionsUpTo(c.modules, m, r)
        invariant forall m', r' :: IsRequirement(c.modules, m', r') && Before(m', r', m, r) ==> Placed(c, m', r')
      {
        assert IsRequirement(c.modules, m, r);
        status := ResolutionValidate(c, m, r, index);
        if status != OK {
          ResolutionAt(c.modules, m, r, |c.modules|, 0);
          return;
        }
        index := index + 1;
        assert c.resolutions[..index] == c.resolutions[..index - 1] + [c.resolutions[index - 1]];
      }
    }
    assert c.resolutions[..index] == c.resolutions;
    status := OK;
  }

  /** A canonical order places every provider, so the checker's extra position test never
      rejects what its recomputation would accept. */
  lemma CanonicalPlaces(c: Catalog, m: int, r: int)
    requires AllSatisfied(c.modules) && IsRequirement(c.modules, m, r)
    requires CanonicalOrder(DependencyGraph(c.modules), c.moduleOrder)
    ensures Placed(c, m, r)
  {
    var g, o := DependencyGraph(c.modules), c.moduleOrder;
    CanonicalOrderIsPermutation(g, o);
    var j: nat := m;
    assert j in o;
    var at :| 0 <= at < |o| && o[at] == j;
    assert g[o[at]][r] in o[..at];
  }

  /** The checker accepts exactly the catalogs that preparation publishes (up to the size
      field, which may be larger). */
  method Validate(c: Catalog) returns (status: int)
    requires Shaped(c)
    ensures status == OK <==> ValidCatalog(c)
    ensures status in {OK, EINVAL, EEXIST, EOVERFLOW}
  {
    if c.abiVersion != CATALOG_ABI || c.structSize < CATALOG_SIZE || c.flags != 0 { return EINVAL; }
    var bindingCount, resolutionCount;
    status, bindingCount, resolutionCount := Kernel.CountsMeasure(c.modules);
    if status != OK { return; }
    status := Kernel.DescriptorSetValidate(c.modules);
    if status != OK { return; }
    if bindingCount != |c.bindings| || resolutionCount != |c.resolutions| { return EINVAL; }
    ghost var ms := c.modules;
    if AllSatisfied(ms) && CanonicalOrder(DependencyGraph(ms), c.moduleOrder) {
      CanonicalSound(DependencyGraph(ms), c.moduleOrder);
      forall m, r | IsRequirement(ms, m, r) ensures Placed(c, m, r) { CanonicalPlaces(c, m, r); }
    }
    status := OrderEntriesValidate(c);
    if status != OK { return; }
    status := BindingsValidate(c);
    if status != OK { return; }
    status := ResolutionsValidate(c);
    if status != OK { return; }
    forall m, r | IsRequirement(ms, m, r) ensures Satisfied(ms, ms[m].consumed[r]) { assert Placed(c, m, r); }
    GraphWellFormed(ms);
    status := CanonicalModuleOrderValidate(c);
  }

  // ---- Queries ---------------------------------------------------------------

  method FindModule(c: Catalog, id: Id) returns (status: int, m: nat)
    requires Shaped(c)
    ensures status == OK ==> ValidCatalog(c) && m < |c.modules| && c.modules[m].id == id
    ensures ValidCatalog(c) && !id.IsZero() ==>
              (status == ENOENT <==> forall k :: 0 <= k < |c.modules| ==> c.modules[k].id != id) && status in {OK, ENOENT}
    ensures ValidCatalog(c) && id.IsZero() ==> status == EINVAL
  {
    if id.IsZero() { return EINVAL, 0; }
    status := Validate(c);
    if status != OK { return status, 0; }
    for i := 0 to |c.modules|
      invariant forall k :: 0 <= k < i ==> c.modules[k].id != id
    {
      if c.modules[i].id == id { return OK, i; }
    }
    return ENOENT, 0;
  }

  /** Finds the one binding with the identifier and reports absence and incompatibility apart. */
  method Find(c: Catalog, q: Requirement) returns (status: int, binding: nat)
    requires Shaped(c)
    ensures status == OK ==> ValidCatalog(c) && Answers(c.modules, q, binding) && binding == Supplier(c.modules, q)
    ensures ValidCatalog(c) && !q.id.IsZero() && q.minimumVersion.major != 0 && q.minimumInterfaceSize != 0 ==>
              status == RequirementStatus(c.modules, q)
    ensures q.id.IsZero() || q.minimumVersion.major == 0 || q.minimumInterfaceSize == 0 ==> status == EINVAL
  {
    if q.id.IsZero() || q.minimumVersion.major == 0 || q.minimumInterfaceSize == 0 { return EINVAL, 0; }
    status := Validate(c);
    if status != OK { return status, 0; }
    for i := 0 to |c.bindings|
      invariant forall k :: 0 <= k < i ==> c.bindings[k].id != q.id
    {
      if c.bindings[i].id == q.id {
        if Satisfied(c.modules, q) { AnswerUnique(c.modules, q, i, Supplier(c.modules, q)); }
        if !c.bindings[i].version.Satisfies(q.minimumVersion) || c.bindings[i].interfaceSize < q.minimumInterfaceSize {
          return EPROTONOSUPPORT, 0;
        }
        assert Answers(c.modules, q, i);
        return OK, i;
      }
    }
    assert !Satisfied(c.modules, q);
    return ENOENT, 0;
  }

  /** The recorded answer to a module's requirement; its provider starts before the module. */
  method Resolve(c: Catalog, consumer: nat, r: nat) returns (status: int, binding: nat)
    requires Shaped(c)
    ensures status == OK <==> ValidCatalog(c) && IsRequirement(c.modules, consumer, r)
    ensures ValidCatalog(c) ==> status in {OK, EINVAL}
    ensures status == OK ==> binding == Supplier(c.modules, c.modules[consumer].consumed[r])
    ensures status == OK ==> Answers(c.modules, c.modules[consumer].consumed[r], binding) && Placed(c, consumer, r)
  {
    status := Validate(c);
    if status != OK { return status, 0; }
    if consumer >= |c.modules| || r >= |c.modules[consumer].consumed| { return EINVAL, 0; }
    GraphWellFormed(c.modules);
    CanonicalPlaces(c, consumer, r);
    status, binding := FindResolution(c, consumer, r);
  }

  /** Builder and checker agree: a catalog is accepted exactly when its three tables are
      those preparation would publish for its modules, and there is only one such choice. */
  lemma AcceptedIsPublished(c: Catalog, d: Catalog)
    requires ValidCatalog(c) && ValidCatalog(d) && c.modules == d.modules
    ensures c.bindings == d.bindings && c.resolutions == d.resolutions && c.moduleOrder == d.moduleOrder
    ensures !HasCycle(DependencyGraph(c.modules))
  {
    PublicationUnique(c.modules, c.bindings, c.resolutions, c.moduleOrder, d.bindings, d.resolutions, d.moduleOrder);
    CanonicalOrderExcludesCycle(DependencyGraph(c.modules), c.moduleOrder);
  }
}
