/** Application services managed on top of a capability catalog: descriptors, the plan in
    which they are prepared, runtime records and what a well-formed runtime is. */
module ServiceModel {
  import opened Native
  import opened DependencyOrder
  import opened CapabilityModel
  import opened CapabilityCatalog

  const INTERFACE_ABI: nat := 1
  const INTERFACE_HEADER_SIZE: nat := 16
  const INTERFACE_ALIGNMENT: nat := 8
  const SERVICE_ABI: nat := 1
  const SERVICE_SIZE: nat := 80
  const RUNTIME_ABI: nat := 1
  const RUNTIME_SIZE: nat := 56

  /** The prefix every service interface table starts with. */
  datatype Header = Header(abiVersion: nat, structSize: nat, flags: nat)

  /** What the interface tables hold, by address. */
  type Memory = nat -> Header

  datatype Service = Service(moduleId: Id, abiVersion: nat, structSize: nat, flags: nat, exportIndices: seq<nat>,
                             hasPrepare: bool, hasRollback: bool, hasStop: bool) {
    /** Callbacks come all together or not at all. */
    predicate CallbacksOk() {
      hasPrepare == hasRollback == hasStop
    }
  }

  datatype RecordState = Empty | Preparing | Ready | RollingBack | RolledBack | Stopping | Stopped | StopFailed | PrepareFailed

  datatype Record = Record(descriptor: nat, module_: nat, state: RecordState, reserved0: nat, stopNative: int)

  datatype RuntimeState = RuntimeReady | RuntimeStopping | RuntimeStopped | RuntimeStopFailed

  datatype RuntimeView = RuntimeView(abiVersion: nat, structSize: nat, flags: nat, catalog: Catalog,
                                     services: seq<Service>, records: seq<Record>, state: RuntimeState, reserved0: nat)

  /** A positive callback result is invalid and becomes -EINVAL. */
  function Normalize(raw: int): (status: int)
    ensures status <= 0 && (status == OK <==> raw == 0) && (raw < 0 ==> status == raw)
  {
    if raw > 0 then EINVAL else raw
  }

  // ---- Descriptors -----------------------------------------------------------

  /** What is checked of a binding before its interface table is read. */
  ghost predicate BindingSound(b: Binding) {
    && !b.id.IsZero() && b.version.major != 0 && b.reserved0 == 0 && b.flags == 0 && b.interfaceTable != 0
    && b.interfaceSize >= INTERFACE_HEADER_SIZE && b.interfaceTable % INTERFACE_ALIGNMENT == 0
  }

  ghost predicate InterfaceOk(mem: Memory, b: Binding) {
    && BindingSound(b)
    && mem(b.interfaceTable).abiVersion == INTERFACE_ABI
    && mem(b.interfaceTable).structSize == b.interfaceSize
    && mem(b.interfaceTable).flags == 0
  }

  ghost predicate Manages(c: Catalog, sv: seq<Service>, m: int, i: int) {
    0 <= i < |sv| && 0 <= m < |c.modules| && sv[i].moduleId == c.modules[m].id
  }

  /** A descriptor names a module of the catalog and some of its exports, each once and
      each with a sound interface table. */
  ghost predicate ServiceOk(c: Catalog, mem: Memory, s: Service) {
    && !s.moduleId.IsZero() && s.abiVersion == SERVICE_ABI && s.structSize == SERVICE_SIZE && s.flags == 0
    && s.exportIndices != [] && s.CallbacksOk()
    && exists m :: 0 <= m < |c.modules| && c.modules[m].id == s.moduleId && ExportsOk(c, mem, s, m)
  }

  ghost predicate ExportsOk(c: Catalog, mem: Memory, s: Service, m: nat)
    requires m < |c.modules|
  {
    && |s.exportIndices| <= |c.modules[m].provided|
    && Distinct(s.exportIndices)
    && forall i :: 0 <= i < |s.exportIndices| ==>
                     IsExport(c.modules, m, s.exportIndices[i]) && InterfaceOk(mem, BindingOf(c.modules, m, s.exportIndices[i]))
  }

  ghost predicate ServiceSetOk(c: Catalog, mem: Memory, sv: seq<Service>) {
    && ValidCatalog(c)
    && |sv| <= |c.modules|
    && (forall i :: 0 <= i < |sv| ==> ServiceOk(c, mem, sv[i]))
    && (forall i, j :: 0 <= i < j < |sv| ==> sv[i].moduleId != sv[j].moduleId)
  }

  lemma ManagerUnique(c: Catalog, mem: Memory, sv: seq<Service>, m: int, i: int, m': int, i': int)
    requires ServiceSetOk(c, mem, sv) && Manages(c, sv, m, i) && Manages(c, sv, m', i')
    ensures m == m' <==> i == i'
  {
    assert m < m' ==> c.modules[m].id != c.modules[m'].id;
    assert m' < m ==> c.modules[m'].id != c.modules[m].id;
  }

  // ---- The plan --------------------------------------------------------------

  datatype Slot = Slot(descriptor: nat, module_: nat)

  ghost predicate Managed(c: Catalog, sv: seq<Service>, m: int) {
    exists i :: Manages(c, sv, m, i)
  }

  ghost function ManagerOf(c: Catalog, sv: seq<Service>, m: int): (i: nat)
    requires Managed(c, sv, m)
    ensures Manages(c, sv, m, i)
  {
    var i :| Manages(c, sv, m, i); i
  }

  /** The catalog order, first `k` positions, filtered to the managed modules. */
  ghost function PlanUpTo(c: Catalog, sv: seq<Service>, k: nat): seq<Slot>
    requires k <= |c.moduleOrder|
  {
    if k == 0 then []
    else PlanUpTo(c, sv, k - 1) +
         if Managed(c, sv, c.moduleOrder[k - 1])
         then [Slot(ManagerOf(c, sv, c.moduleOrder[k - 1]), c.moduleOrder[k - 1])] else []
  }

  ghost function Plan(c: Catalog, sv: seq<Service>): seq<Slot> {
    PlanUpTo(c, sv, |c.moduleOrder|)
  }

  lemma {:induction false} PlanPrefix(c: Catalog, sv: seq<Service>, j: nat, k: nat)
    requires j <= k <= |c.moduleOrder|
    ensures PlanUpTo(c, sv, j) <= PlanUpTo(c, sv, k)
    decreases k - j
  {
    if j < k { PlanPrefix(c, sv, j, k - 1); }
  }

  /** Every slot of the plan stands at some position of the order. */
  lemma {:induction false} PlanOrigin(c: Catalog, sv: seq<Service>, k: nat, i: nat) returns (a: nat)
    requires k <= |c.moduleOrder| && i < |PlanUpTo(c, sv, k)|
    ensures a < k && Managed(c, sv, c.moduleOrder[a]) && i == |PlanUpTo(c, sv, a)|
    ensures PlanUpTo(c, sv, k)[i] == Slot(ManagerOf(c, sv, c.moduleOrder[a]), c.moduleOrder[a])
    decreases k
  {
    if i < |PlanUpTo(c, sv, k - 1)| {
      a := PlanOrigin(c, sv, k - 1, i);
    } else {
      a := k - 1;
    }
  }

  /** One more position of the order adds the slot of a managed module and nothing else. */
  lemma PlanStep(c: Catalog, sv: seq<Service>, a: nat)
    requires a < |c.moduleOrder|
    ensures |PlanUpTo(c, sv, a + 1)| <= |Plan(c, sv)|
    ensures |PlanUpTo(c, sv, a + 1)| == |PlanUpTo(c, sv, a)| + if Managed(c, sv, c.moduleOrder[a]) then 1 else 0
    ensures Managed(c, sv, c.moduleOrder[a]) ==>
              Plan(c, sv)[|PlanUpTo(c, sv, a)|] == Slot(ManagerOf(c, sv, c.moduleOrder[a]), c.moduleOrder[a])
  {
    PlanPrefix(c, sv, a + 1, |c.moduleOrder|);
    if Managed(c, sv, c.moduleOrder[a]) {
      assert PlanUpTo(c, sv, a + 1)[|PlanUpTo(c, sv, a)|] == Plan(c, sv)[|PlanUpTo(c, sv, a)|];
    }
  }

  lemma PlanSlot(c: Catalog, sv: seq<Service>, i: nat)
    requires i < |Plan(c, sv)|
    ensures Manages(c, sv, Plan(c, sv)[i].module_, Plan(c, sv)[i].descriptor)
    ensures Plan(c, sv)[i].module_ in c.moduleOrder
  {
    var a := PlanOrigin(c, sv, |c.moduleOrder|, i);
  }

  ghost function PlanDescriptors(c: Catalog, sv: seq<Service>): (d: seq<nat>)
    ensures |d| == |Plan(c, sv)|
    ensures forall i :: 0 <= i < |d| ==> d[i] == Plan(c, sv)[i].descriptor
  {
    seq(|Plan(c, sv)|, i requires 0 <= i < |Plan(c, sv)| => Plan(c, sv)[i].descriptor)
  }

  lemma PlanDistinct(c: Catalog, mem: Memory, sv: seq<Service>)
    requires ServiceSetOk(c, mem, sv)
    ensures Distinct(PlanDescriptors(c, sv))
    ensures forall i, j :: 0 <= i < j < |Plan(c, sv)| ==> Plan(c, sv)[i].module_ != Plan(c, sv)[j].module_
  {
    CanonicalSound(DependencyGraph(c.modules), c.moduleOrder);
    forall i, j | 0 <= i < j < |Plan(c, sv)|
      ensures Plan(c, sv)[i].descriptor != Plan(c, sv)[j].descriptor && Plan(c, sv)[i].module_ != Plan(c, sv)[j].module_
    {
      var a := PlanOrigin(c, sv, |c.moduleOrder|, i);
      var b := PlanOrigin(c, sv, |c.moduleOrder|, j);
      if a > b { PlanPrefix(c, sv, b, a); }
      assert a != b;
      ManagerUnique(c, mem, sv, c.moduleOrder[a], ManagerOf(c, sv, c.moduleOrder[a]),
                    c.moduleOrder[b], ManagerOf(c, sv, c.moduleOrder[b]));
    }
  }

  lemma PlanCovers(c: Catalog, mem: Memory, sv: seq<Service>, i: nat)
    requires ServiceSetOk(c, mem, sv) && i < |sv|
    ensures i in PlanDescriptors(c, sv)
  {
    assert ServiceOk(c, mem, sv[i]);
    var m :| 0 <= m < |c.modules| && c.modules[m].id == sv[i].moduleId;
    assert Manages(c, sv, m, i);
    CanonicalOrderIsPermutation(DependencyGraph(c.modules), c.moduleOrder);
    var n: nat := m;
    assert n in c.moduleOrder;
    var a :| 0 <= a < |c.moduleOrder| && c.moduleOrder[a] == m;
    ManagerUnique(c, mem, sv, m, i, m, ManagerOf(c, sv, m));
    PlanPrefix(c, sv, a + 1, |c.moduleOrder|);
    var p := PlanUpTo(c, sv, a + 1);
    assert p[|p| - 1] == Slot(i, m);
    assert PlanDescriptors(c, sv)[|p| - 1] == i;
  }

  /** The plan holds every descriptor exactly once. */
  lemma PlanComplete(c: Catalog, mem: Memory, sv: seq<Service>)
    requires ServiceSetOk(c, mem, sv)
    ensures |Plan(c, sv)| == |sv|
  {
    var d := PlanDescriptors(c, sv);
    PlanDistinct(c, mem, sv);
    forall i | 0 <= i < |d| ensures d[i] < |sv| { PlanSlot(c, sv, i); }
    DistinctBounded(d, |sv|);
    forall i: nat | i < |sv| ensures i in d { PlanCovers(c, mem, sv, i); }
    ElementsSize(d);
    SubsetSize(Below(|sv|), Elements(d));
  }

  lemma EarlierInPlan(c: Catalog, sv: seq<Service>, i: nat, p: nat, q: nat) returns (j: nat)
    requires i < |Plan(c, sv)| && p < q < |c.moduleOrder| && Distinct(c.moduleOrder)
    requires c.moduleOrder[q] == Plan(c, sv)[i].module_ && Managed(c, sv, c.moduleOrder[p])
    ensures j < i && Plan(c, sv)[j].module_ == c.moduleOrder[p]
  {
    var a := PlanOrigin(c, sv, |c.moduleOrder|, i);
    assert q == a;
    PlanPrefix(c, sv, p + 1, a);
    PlanPrefix(c, sv, p + 1, |c.moduleOrder|);
    j := |PlanUpTo(c, sv, p + 1)| - 1;
    assert PlanUpTo(c, sv, p + 1)[j].module_ == c.moduleOrder[p];
  }

  /** A managed module that supplies a requirement of a planned module is planned earlier. */
  lemma ProviderPlannedEarlier(c: Catalog, sv: seq<Service>, i: nat, r: nat) returns (j: nat)
    requires ValidCatalog(c) && i < |Plan(c, sv)| && IsRequirement(c.modules, Plan(c, sv)[i].module_, r)
    requires Managed(c, sv, ProviderOf(c.modules, c.modules[Plan(c, sv)[i].module_].consumed[r]))
    ensures j < i && Plan(c, sv)[j].module_ == ProviderOf(c.modules, c.modules[Plan(c, sv)[i].module_].consumed[r])
  {
    var m := Plan(c, sv)[i].module_;
    CanonicalPlaces(c, m, r);
    var p, q :| 0 <= p < q < |c.moduleOrder| && c.moduleOrder[q] == m
                && c.moduleOrder[p] == ProviderOf(c.modules, c.modules[m].consumed[r]);
    CanonicalSound(DependencyGraph(c.modules), c.moduleOrder);
    j := EarlierInPlan(c, sv, i, p, q);
  }

  // ---- Records and runtimes --------------------------------------------------

  /** The records name the slots of the plan, in order. */
  ghost predicate Follows(records: seq<Record>, plan: seq<Slot>) {
    && |records| == |plan|
    && forall i :: 0 <= i < |plan| ==>
                     && records[i].descriptor == plan[i].descriptor && records[i].module_ == plan[i].module_
                     && records[i].reserved0 == 0
  }

  /** Which record states each runtime state allows, with the stop result they carry. */
  predicate RecordStateOk(state: RuntimeState, r: Record) {
    match state
    case RuntimeReady => r.state == Ready && r.stopNative == 0
    case RuntimeStopping =>
      || (r.state in {Ready, Stopping, Stopped} && r.stopNative == 0)
      || (r.state == StopFailed && r.stopNative != 0)
    case RuntimeStopped => r.state == Stopped && r.stopNative == 0
    case RuntimeStopFailed =>
      (r.state == Stopped && r.stopNative == 0) || (r.state == StopFailed && r.stopNative != 0)
  }

  ghost predicate ValidRuntime(mem: Memory, v: RuntimeView) {
    && v.abiVersion == RUNTIME_ABI && v.structSize >= RUNTIME_SIZE && v.flags == 0 && v.reserved0 == 0
    && ServiceSetOk(v.catalog, mem, v.services)
    && Follows(v.records, Plan(v.catalog, v.services))
    && (forall i :: 0 <= i < |v.records| ==> RecordStateOk(v.state, v.records[i]))
    && (v.state == RuntimeStopFailed ==> exists i :: 0 <= i < |v.records| && v.records[i].state == StopFailed)
  }

  /** What the records look like when record `i` is being prepared: the earlier ones are
      ready, the later ones untouched. */
  ghost predicate PreparingAt(records: seq<Record>, plan: seq<Slot>, i: nat) {
    && i < |plan| && Follows(records, plan)
    && forall k :: 0 <= k < |plan| ==>
                     records[k].stopNative == 0 && records[k].state == (if k < i then Ready else if k == i then Preparing else Empty)
  }

  /** The first failure met when records are stopped from the last to the first. */
  ghost function FirstStopFailure(records: seq<Record>): int {
    if records == [] then OK
    else if records[|records| - 1].stopNative != 0 then Normalize(records[|records| - 1].stopNative)
    else FirstStopFailure(records[..|records| - 1])
  }

  /** The indices below `k` of the records whose descriptor has callbacks. */
  ghost function ActiveBelow(sv: seq<Service>, plan: seq<Slot>, k: nat): seq<nat>
    requires k <= |plan|
  {
    if k == 0 then []
    else ActiveBelow(sv, plan, k - 1) + if Active(sv, plan, k - 1) then [k - 1] else []
  }

  ghost predicate Active(sv: seq<Service>, plan: seq<Slot>, i: nat)
    requires i < |plan|
  {
    plan[i].descriptor < |sv| && sv[plan[i].descriptor].hasPrepare
  }

  /** The active indices are exactly the callbacks' records, in increasing order. */
  lemma {:induction false} ActiveBelowSound(sv: seq<Service>, plan: seq<Slot>, k: nat)
    requires k <= |plan|
    ensures forall i: nat :: i in ActiveBelow(sv, plan, k) <==> i < k && Active(sv, plan, i)
    ensures forall i, j :: 0 <= i < j < |ActiveBelow(sv, plan, k)| ==> ActiveBelow(sv, plan, k)[i] < ActiveBelow(sv, plan, k)[j]
    decreases k
  {
    if k > 0 {
      ActiveBelowSound(sv, plan, k - 1);
      var earlier := ActiveBelow(sv, plan, k - 1);
      forall i | 0 <= i < |earlier| ensures earlier[i] < k - 1 { assert earlier[i] in earlier; }
    }
  }
}
