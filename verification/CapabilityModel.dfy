/** Modules, the capabilities they export and require, and what it means for a catalog
    to be the published one for a set of modules. */
module CapabilityModel {
  import opened Native
  import opened DependencyOrder

  const MODULE_ABI: nat := 1
  const MODULE_SIZE: nat := 64
  const CATALOG_ABI: nat := 1
  const CATALOG_SIZE: nat := 72

  datatype Id = Id(high: nat, low: nat) {
    predicate IsZero() { high == 0 && low == 0 }
  }

  datatype Version = Version(major: nat, minor: nat) {
    /** Same major, and at least the required minor. */
    predicate Satisfies(required: Version) { major == required.major && minor >= required.minor }
  }

  /** Pointers are numbers; zero is the null pointer. */
  datatype Export = Export(id: Id, version: Version, interfaceSize: nat, reserved0: nat, flags: nat,
                           interfaceTable: nat, providerContext: nat)

  datatype Requirement = Requirement(id: Id, minimumVersion: Version, minimumInterfaceSize: nat,
                                     reserved0: nat, flags: nat)

  datatype Module = Module(id: Id, abiVersion: nat, structSize: nat, flags: nat,
                           provided: seq<Export>, consumed: seq<Requirement>)

  datatype Binding = Binding(id: Id, version: Version, interfaceSize: nat, reserved0: nat, flags: nat,
                             interfaceTable: nat, providerContext: nat, providerModule: nat)

  datatype Resolution = Resolution(consumer: nat, requirement: nat, binding: nat)

  datatype Catalog = Catalog(abiVersion: nat, structSize: nat, flags: nat, modules: seq<Module>,
                             bindings: seq<Binding>, resolutions: seq<Resolution>, moduleOrder: seq<nat>)

  // ---- Well-formed descriptors -----------------------------------------------

  predicate ModuleShapeOk(m: Module) {
    !m.id.IsZero() && m.abiVersion == MODULE_ABI && m.structSize == MODULE_SIZE && m.flags == 0
  }

  predicate ExportOk(e: Export) {
    && !e.id.IsZero() && e.version.major != 0 && e.interfaceSize != 0
    && e.reserved0 == 0 && e.flags == 0 && e.interfaceTable != 0
  }

  predicate RequirementOk(q: Requirement) {
    && !q.id.IsZero() && q.minimumVersion.major != 0 && q.minimumInterfaceSize != 0
    && q.reserved0 == 0 && q.flags == 0
  }

  ghost predicate IsExport(ms: seq<Module>, m: int, e: int) {
    0 <= m < |ms| && 0 <= e < |ms[m].provided|
  }

  ghost predicate IsRequirement(ms: seq<Module>, c: int, r: int) {
    0 <= c < |ms| && 0 <= r < |ms[c].consumed|
  }

  /** Lexicographic order on (module, position) pairs. */
  ghost predicate Before(m: int, e: int, m': int, e': int) {
    m < m' || (m == m' && e < e')
  }

  ghost predicate Malformed(ms: seq<Module>) {
    || (exists m :: 0 <= m < |ms| && !ModuleShapeOk(ms[m]))
    || (exists m, e :: IsExport(ms, m, e) && !ExportOk(ms[m].provided[e]))
    || (exists c, r :: IsRequirement(ms, c, r) && !RequirementOk(ms[c].consumed[r]))
  }

  ghost predicate ModuleIdsDistinct(ms: seq<Module>) {
    forall m, m' :: 0 <= m < m' < |ms| ==> ms[m].id != ms[m'].id
  }

  ghost predicate RequirementIdsDistinct(ms: seq<Module>) {
    forall c, r, r' :: IsRequirement(ms, c, r) && IsRequirement(ms, c, r') && r < r' ==>
                         ms[c].consumed[r].id != ms[c].consumed[r'].id
  }

  ghost predicate ExportIdsDistinct(ms: seq<Module>) {
    forall m, e, m', e' :: IsExport(ms, m, e) && IsExport(ms, m', e') && Before(m, e, m', e') ==>
                             ms[m].provided[e].id != ms[m'].provided[e'].id
  }

  ghost predicate HasDuplicate(ms: seq<Module>) {
    !ModuleIdsDistinct(ms) || !RequirementIdsDistinct(ms) || !ExportIdsDistinct(ms)
  }

  ghost predicate DescriptorSetOk(ms: seq<Module>) {
    !Malformed(ms) && !HasDuplicate(ms)
  }

  // ---- The published tables --------------------------------------------------

  function ExportBase(ms: seq<Module>, m: nat): nat
    requires m <= |ms|
  {
    if m == 0 then 0 else ExportBase(ms, m - 1) + |ms[m - 1].provided|
  }

  function RequirementBase(ms: seq<Module>, c: nat): nat
    requires c <= |ms|
  {
    if c == 0 then 0 else RequirementBase(ms, c - 1) + |ms[c - 1].consumed|
  }

  ghost predicate CountsFit(ms: seq<Module>) {
    ExportBase(ms, |ms|) <= U64_MAX && RequirementBase(ms, |ms|) <= U64_MAX
  }

  function BindingOf(ms: seq<Module>, m: int, e: int): Binding
    requires IsExport(ms, m, e)
  {
    var x := ms[m].provided[e];
    Binding(x.id, x.version, x.interfaceSize, 0, x.flags, x.interfaceTable, x.providerContext, m)
  }

  /** The bindings of the first `m` modules followed by the first `e` exports of module `m`. */
  ghost function BindingsUpTo(ms: seq<Module>, m: nat, e: nat): (bs: seq<Binding>)
    requires m <= |ms| && (e == 0 || (m < |ms| && e <= |ms[m].provided|))
    ensures |bs| == ExportBase(ms, m) + e
    decreases m, e
  {
    if e > 0 then BindingsUpTo(ms, m, e - 1) + [BindingOf(ms, m, e - 1)]
    else if m > 0 then BindingsUpTo(ms, m - 1, |ms[m - 1].provided|)
    else []
  }

  ghost function Bindings(ms: seq<Module>): seq<Binding> {
    BindingsUpTo(ms, |ms|, 0)
  }

  predicate Offers(b: Binding, q: Requirement) {
    b.id == q.id && b.version.Satisfies(q.minimumVersion) && b.interfaceSize >= q.minimumInterfaceSize
  }

  ghost predicate Answers(ms: seq<Module>, q: Requirement, k: int) {
    0 <= k < |Bindings(ms)| && Offers(Bindings(ms)[k], q)
  }

  ghost predicate Satisfied(ms: seq<Module>, q: Requirement) {
    exists k :: Answers(ms, q, k)
  }

  /** The binding that answers `q` (arbitrary when none does). */
  ghost function Supplier(ms: seq<Module>, q: Requirement): (k: nat)
    ensures Satisfied(ms, q) ==> Answers(ms, q, k)
  {
    if Satisfied(ms, q) then (var k :| Answers(ms, q, k); k) else 0
  }

  ghost predicate AllSatisfied(ms: seq<Module>) {
    forall c, r :: IsRequirement(ms, c, r) ==> Satisfied(ms, ms[c].consumed[r])
  }

  /** What resolving one requirement reports: an absent capability and an incompatible
      provider are different failures. */
  ghost function RequirementStatus(ms: seq<Module>, q: Requirement): int {
    if Satisfied(ms, q) then OK
    else if exists k: nat :: k < |Bindings(ms)| && Bindings(ms)[k].id == q.id then EPROTONOSUPPORT
    else ENOENT
  }

  ghost predicate FirstUnsatisfied(ms: seq<Module>, c: nat, r: nat) {
    && IsRequirement(ms, c, r) && !Satisfied(ms, ms[c].consumed[r])
    && forall c', r' :: IsRequirement(ms, c', r') && Before(c', r', c, r) ==> Satisfied(ms, ms[c'].consumed[r'])
  }

  ghost function ResolutionOf(ms: seq<Module>, c: int, r: int): Resolution
    requires IsRequirement(ms, c, r)
  {
    Resolution(c, r, Supplier(ms, ms[c].consumed[r]))
  }

  ghost function ResolutionsUpTo(ms: seq<Module>, c: nat, r: nat): (rs: seq<Resolution>)
    requires c <= |ms| && (r == 0 || (c < |ms| && r <= |ms[c].consumed|))
    ensures |rs| == RequirementBase(ms, c) + r
    decreases c, r
  {
    if r > 0 then ResolutionsUpTo(ms, c, r - 1) + [ResolutionOf(ms, c, r - 1)]
    else if c > 0 then ResolutionsUpTo(ms, c - 1, |ms[c - 1].consumed|)
    else []
  }

  ghost function Resolutions(ms: seq<Module>): seq<Resolution> {
    ResolutionsUpTo(ms, |ms|, 0)
  }

  ghost function ProviderOf(ms: seq<Module>, q: Requirement): nat
    requires Satisfied(ms, q)
  {
    Bindings(ms)[Supplier(ms, q)].providerModule
  }

  /** Which module supplies each requirement of each module. */
  ghost function DependencyGraph(ms: seq<Module>): (g: Graph)
    requires AllSatisfied(ms)
    ensures |g| == |ms| && forall c :: 0 <= c < |ms| ==> |g[c]| == |ms[c].consumed|
    ensures forall c, r :: IsRequirement(ms, c, r) ==> g[c][r] == ProviderOf(ms, ms[c].consumed[r])
  {
    seq(|ms|, c requires 0 <= c < |ms| =>
      seq(|ms[c].consumed|, r requires 0 <= r < |ms[c].consumed| =>
        assert IsRequirement(ms, c, r); ProviderOf(ms, ms[c].consumed[r])))
  }

  /** The tables a catalog must hold to be the publication of `ms`. */
  ghost predicate Publishes(ms: seq<Module>, bindings: seq<Binding>, resolutions: seq<Resolution>, order: seq<nat>) {
    && bindings == Bindings(ms)
    && AllSatisfied(ms)
    && resolutions == Resolutions(ms)
    && CanonicalOrder(DependencyGraph(ms), order)
  }

  ghost predicate HeaderOk(c: Catalog) {
    c.abiVersion == CATALOG_ABI && c.structSize >= CATALOG_SIZE && c.flags == 0
  }

  /** A catalog that validates: sound descriptors and exactly their publication. */
  ghost predicate ValidCatalog(c: Catalog) {
    && HeaderOk(c)
    && CountsFit(c.modules)
    && DescriptorSetOk(c.modules)
    && Publishes(c.modules, c.bindings, c.resolutions, c.moduleOrder)
  }

  // ---- Index arithmetic ------------------------------------------------------

  lemma {:induction false} ExportBaseMonotone(ms: seq<Module>, m: nat, m': nat)
    requires m <= m' <= |ms|
    ensures ExportBase(ms, m) <= ExportBase(ms, m')
    decreases m' - m
  {
    if m < m' { ExportBaseMonotone(ms, m, m' - 1); }
  }

  lemma {:induction false} RequirementBaseMonotone(ms: seq<Module>, c: nat, c': nat)
    requires c <= c' <= |ms|
    ensures RequirementBase(ms, c) <= RequirementBase(ms, c')
    decreases c' - c
  {
    if c < c' { RequirementBaseMonotone(ms, c, c' - 1); }
  }

  /** Export `e` of module `m` is published at its flat index. */
  lemma {:induction false} BindingAt(ms: seq<Module>, m: nat, e: nat, m': nat, e': nat)
    requires m' <= |ms| && (e' == 0 || (m' < |ms| && e' <= |ms[m'].provided|))
    requires IsExport(ms, m, e) && Before(m, e, m', e')
    ensures ExportBase(ms, m) + e < |BindingsUpTo(ms, m', e')|
    ensures BindingsUpTo(ms, m', e')[ExportBase(ms, m) + e] == BindingOf(ms, m, e)
    decreases m', e'
  {
    if e' > 0 {
      if m != m' || e != e' - 1 { BindingAt(ms, m, e, m', e' - 1); }
    } else {
      BindingAt(ms, m, e, m' - 1, |ms[m' - 1].provided|);
    }
  }

  /** Every published binding comes from some export. */
  lemma {:induction false} BindingOrigin(ms: seq<Module>, m': nat, e': nat, k: nat) returns (m: nat, e: nat)
    requires m' <= |ms| && (e' == 0 || (m' < |ms| && e' <= |ms[m'].provided|))
    requires k < |BindingsUpTo(ms, m', e')|
    ensures IsExport(ms, m, e) && Before(m, e, m', e') && k == ExportBase(ms, m) + e
    ensures BindingsUpTo(ms, m', e')[k] == BindingOf(ms, m, e)
    decreases m', e'
  {
    if e' > 0 {
      if k == |BindingsUpTo(ms, m', e')| - 1 {
        m, e := m', e' - 1;
      } else {
        m, e := BindingOrigin(ms, m', e' - 1, k);
      }
    } else {
      m, e := BindingOrigin(ms, m' - 1, |ms[m' - 1].provided|, k);
    }
  }

  lemma {:induction false} ResolutionAt(ms: seq<Module>, c: nat, r: nat, c': nat, r': nat)
    requires c' <= |ms| && (r' == 0 || (c' < |ms| && r' <= |ms[c'].consumed|))
    requires IsRequirement(ms, c, r) && Before(c, r, c', r')
    ensures RequirementBase(ms, c) + r < |ResolutionsUpTo(ms, c', r')|
    ensures ResolutionsUpTo(ms, c', r')[RequirementBase(ms, c) + r] == ResolutionOf(ms, c, r)
    decreases c', r'
  {
    if r' > 0 {
      if c != c' || r != r' - 1 { ResolutionAt(ms, c, r, c', r' - 1); }
    } else {
      ResolutionAt(ms, c, r, c' - 1, |ms[c' - 1].consumed|);
    }
  }

  lemma {:induction false} ResolutionOrigin(ms: seq<Module>, c': nat, r': nat, k: nat) returns (c: nat, r: nat)
    requires c' <= |ms| && (r' == 0 || (c' < |ms| && r' <= |ms[c'].consumed|))
    requires k < |ResolutionsUpTo(ms, c', r')|
    ensures IsRequirement(ms, c, r) && Before(c, r, c', r') && k == RequirementBase(ms, c) + r
    ensures ResolutionsUpTo(ms, c', r')[k] == ResolutionOf(ms, c, r)
    decreases c', r'
  {
    if r' > 0 {
      if k == |ResolutionsUpTo(ms, c', r')| - 1 {
        c, r := c', r' - 1;
      } else {
        c, r := ResolutionOrigin(ms, c', r' - 1, k);
      }
    } else {
      c, r := ResolutionOrigin(ms, c' - 1, |ms[c' - 1].consumed|, k);
    }
  }

  // ---- Main facts about publications -----------------------------------------

  /** With distinct export identifiers at most one binding can answer a requirement. */
  lemma AnswerUnique(ms: seq<Module>, q: Requirement, k: nat, k': nat)
    requires ExportIdsDistinct(ms)
    requires k < |Bindings(ms)| && k' < |Bindings(ms)| && Bindings(ms)[k].id == Bindings(ms)[k'].id
    ensures k == k'
  {
    var m, e := BindingOrigin(ms, |ms|, 0, k);
    var m', e' := BindingOrigin(ms, |ms|, 0, k');
    assert Before(m, e, m', e') || Before(m', e', m, e) || (m == m' && e == e');
  }

  lemma GraphWellFormed(ms: seq<Module>)
    requires AllSatisfied(ms)
    ensures WellFormed(DependencyGraph(ms))
  {
    var g := DependencyGraph(ms);
    forall c, r | 0 <= c < |g| && 0 <= r < |g[c]| ensures g[c][r] < |g| {
      assert IsRequirement(ms, c, r);
      var m, e := BindingOrigin(ms, |ms|, 0, Supplier(ms, ms[c].consumed[r]));
    }
  }

  /** A set of modules has at most one publication. */
  lemma PublicationUnique(ms: seq<Module>, b: seq<Binding>, r: seq<Resolution>, o: seq<nat>,
                          b': seq<Binding>, r': seq<Resolution>, o': seq<nat>)
    requires Publishes(ms, b, r, o) && Publishes(ms, b', r', o')
    ensures b == b' && r == r' && o == o'
  {
    CanonicalUnique(DependencyGraph(ms), o, o');
  }

  /** It has one exactly when every requirement is met and no module needs itself. */
  lemma PublicationExists(ms: seq<Module>)
    ensures (exists b, r, o :: Publishes(ms, b, r, o)) <==> AllSatisfied(ms) && !HasCycle(DependencyGraph(ms))
  {
    if AllSatisfied(ms) {
      GraphWellFormed(ms);
      OrderIffAcyclic(DependencyGraph(ms));
      if o :| CanonicalOrder(DependencyGraph(ms), o) {
        assert Publishes(ms, Bindings(ms), Resolutions(ms), o);
      }
    }
  }

  /** In a publication the modules are permuted, and the module that supplies each
      requirement starts before the module that states it. */
  lemma PublishedOrderSound(ms: seq<Module>, b: seq<Binding>, r: seq<Resolution>, o: seq<nat>)
    requires Publishes(ms, b, r, o)
    ensures Distinct(o) && forall m: nat :: m < |ms| <==> m in o
    ensures forall i, q :: 0 <= i < |o| && IsRequirement(ms, o[i], q) ==>
                             b[Supplier(ms, ms[o[i]].consumed[q])].providerModule in o[..i]
  {
    var g := DependencyGraph(ms);
    CanonicalOrderIsPermutation(g, o);
    forall i, q | 0 <= i < |o| && IsRequirement(ms, o[i], q)
      ensures b[Supplier(ms, ms[o[i]].consumed[q])].providerModule in o[..i]
    {
      assert g[o[i]][q] in o[..i];
    }
  }

  /** A published binding carries its export's contract and the module that offers it. */
  lemma BindingCarries(ms: seq<Module>, m: nat, e: nat)
    requires IsExport(ms, m, e)
    ensures ExportBase(ms, m) + e < |Bindings(ms)|
    ensures var b, x := Bindings(ms)[ExportBase(ms, m) + e], ms[m].provided[e];
            && b.id == x.id && b.version == x.version && b.interfaceSize == x.interfaceSize
            && b.interfaceTable == x.interfaceTable && b.providerContext == x.providerContext && b.providerModule == m
  {
    BindingAt(ms, m, e, |ms|, 0);
  }

  /** Versions are ordered within a major version, and unrelated across them. */
  lemma VersionOrder(a: Version, b: Version, c: Version)
    ensures a.Satisfies(b) && b.Satisfies(c) ==> a.Satisfies(c)
    ensures a.Satisfies(b) && b.Satisfies(a) <==> a == b
    ensures a.Satisfies(b) || b.Satisfies(a) <==> a.major == b.major
  {
  }

  // ---- Upgrading providers ---------------------------------------------------

  /** The exports of `ms'` are those of `ms`, some with a higher minor version or a larger interface. */
  ghost predicate Upgrades(ms: seq<Module>, ms': seq<Module>) {
    && |ms| == |ms'|
    && (forall m :: 0 <= m < |ms| ==> |ms[m].provided| == |ms'[m].provided| && ms[m].consumed == ms'[m].consumed)
    && forall m, e :: IsExport(ms, m, e) ==>
                        var x, y := ms[m].provided[e], ms'[m].provided[e];
                        && x.id == y.id && x.version.major == y.version.major
                        && x.version.minor <= y.version.minor && x.interfaceSize <= y.interfaceSize
  }

  lemma {:induction false} UpgradeBases(ms: seq<Module>, ms': seq<Module>, m: nat)
    requires Upgrades(ms, ms') && m <= |ms|
    ensures ExportBase(ms, m) == ExportBase(ms', m)
  {
    if m > 0 { UpgradeBases(ms, ms', m - 1); }
  }

  /** An upgrade loses no consumer: every requirement that was met still is, by the same export. */
  lemma UpgradeKeeps(ms: seq<Module>, ms': seq<Module>, q: Requirement, k: nat)
    requires Upgrades(ms, ms') && Answers(ms, q, k)
    ensures Answers(ms', q, k)
  {
    var m, e := BindingOrigin(ms, |ms|, 0, k);
    assert IsExport(ms, m, e) && IsExport(ms', m, e);
    UpgradeBases(ms, ms', m);
    BindingAt(ms', m, e, |ms'|, 0);
    hide BindingsUpTo, ExportBase;
  }
}
