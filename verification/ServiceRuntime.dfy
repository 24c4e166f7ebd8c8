/** Preparing, querying, validating and stopping the service runtime. */
module ServiceRuntime {
  import opened Native
  import opened DependencyOrder
  import opened CapabilityModel
  import opened ServiceModel
  import Checker = CapabilityCatalog

  datatype Event = PrepareCalled(record: nat, raw: int) | RollbackCalled(record: nat) | StopCalled(record: nat, raw: int)

  /** Scratch: records under preparation and the map from modules to descriptors. */
  class Workspace {
    const records: array<Record>
    const moduleMap: array<nat>

    constructor (r: array<Record>, m: array<nat>)
      ensures records == r && moduleMap == m
    {
      records, moduleMap := r, m;
    }
  }

  class Runtime {
    var abiVersion: nat
    var structSize: nat
    var flags: nat
    var catalog: Catalog
    var services: seq<Service>
    var records: array<Record>
    var state: RuntimeState
    var reserved0: nat

    constructor (c: Catalog, sv: seq<Service>, r: array<Record>)
      ensures catalog == c && services == sv && records == r
    {
      abiVersion, structSize, flags, reserved0 := 0, 0, 0, 0;
      catalog, services, records, state := c, sv, r, RuntimeStopped;
    }

    ghost function View(): RuntimeView
      requires |services| <= records.Length
      reads this, records
    {
      RuntimeView(abiVersion, structSize, flags, catalog, services, records[..|services|], state, reserved0)
    }
  }

  /** The module map sends a managed module to its descriptor and any other to the marker. */
  ghost predicate MapOk(c: Catalog, sv: seq<Service>, map_: seq<nat>) {
    && |map_| >= |c.modules|
    && forall m :: 0 <= m < |c.modules| ==>
                     map_[m] == if Managed(c, sv, m) then ManagerOf(c, sv, m) else U64_MAX
  }

  /** What holds whenever a prepare callback runs. */
  ghost predicate PreparePoint(c: Catalog, mem: Memory, sv: seq<Service>, w: Workspace, i: nat)
    reads w.records, w.moduleMap
  {
    && Checker.Shaped(c) && ServiceSetOk(c, mem, sv) && |sv| <= w.records.Length
    && PreparingAt(w.records[..|sv|], Plan(c, sv), i) && MapOk(c, sv, w.moduleMap[..])
  }

  /** What holds whenever a stop callback runs. */
  ghost predicate StopPoint(mem: Memory, rt: Runtime)
    reads rt, rt.records
  {
    && |rt.services| <= rt.records.Length && Checker.Shaped(rt.catalog)
    && ValidRuntime(mem, rt.View()) && rt.state == RuntimeStopping
  }

  /** The application's callbacks: their results are arbitrary, and every call is logged.
      Their preconditions are what the runtime guarantees at each call. */
  class Callbacks {
    ghost var trace: seq<Event>

    method Prepare(ghost c: Catalog, ghost mem: Memory, ghost sv: seq<Service>, ghost w: Workspace, ghost i: nat)
      returns (raw: int)
      requires PreparePoint(c, mem, sv, w, i)
      modifies this
      ensures trace == old(trace) + [PrepareCalled(i, raw)]
    {
      raw := *;
      trace := trace + [PrepareCalled(i, raw)];
    }

    method Rollback(ghost i: nat)
      modifies this
      ensures trace == old(trace) + [RollbackCalled(i)]
    {
      trace := trace + [RollbackCalled(i)];
    }

    method Stop(ghost mem: Memory, ghost rt: Runtime, ghost i: nat) returns (raw: int)
      requires StopPoint(mem, rt)
      modifies this
      ensures trace == old(trace) + [StopCalled(i, raw)]
    {
      raw := *;
      trace := trace + [StopCalled(i, raw)];
    }
  }

  // ---- Descriptor checks -----------------------------------------------------

  /** A foreign version is reported exactly when everything before it is sound. */
  method InterfaceValidate(mem: Memory, b: Binding) returns (status: int)
    ensures status == OK <==> InterfaceOk(mem, b)
    ensures status == EPROTONOSUPPORT <==> BindingSound(b) && mem(b.interfaceTable).abiVersion != INTERFACE_ABI
    ensures status in {OK, EINVAL, EPROTONOSUPPORT}
  {
    if b.id.IsZero() || b.version.major == 0 || b.reserved0 != 0 || b.flags != 0 || b.interfaceTable == 0
       || b.interfaceSize < INTERFACE_HEADER_SIZE {
      return EINVAL;
    }
    if b.interfaceTable % INTERFACE_ALIGNMENT != 0 { return EINVAL; }
    var header := mem(b.interfaceTable);
    if header.abiVersion != INTERFACE_ABI { return EPROTONOSUPPORT; }
    if header.structSize != b.interfaceSize || header.structSize < INTERFACE_HEADER_SIZE || header.flags != 0 {
      return EINVAL;
    }
    status := OK;
  }

  /** Looking an export up by its own identifier and version finds that export. */
  method BindingForServiceExport(c: Catalog, m: nat, e: nat) returns (status: int, binding: nat)
    requires Checker.Shaped(c) && ValidCatalog(c) && IsExport(c.modules, m, e)
    ensures status == OK && binding < |c.bindings| && c.bindings[binding] == BindingOf(c.modules, m, e)
  {
    var x := c.modules[m].provided[e];
    var q := Requirement(x.id, x.version, x.interfaceSize, 0, 0);
    BindingAt(c.modules, m, e, |c.modules|, 0);
    ghost var k := ExportBase(c.modules, m) + e;
    assert Answers(c.modules, q, k);
    AnswerUnique(c.modules, q, k, Supplier(c.modules, q));
    assert ExportOk(x);
    status, binding := Checker.Find(c, q);
    if status != OK { return; }
    var b := c.bindings[binding];
    if b.providerModule != m || b.interfaceTable != x.interfaceTable || b.providerContext != x.providerContext
       || b.interfaceSize != x.interfaceSize || b.version.major != x.version.major || b.version.minor != x.version.minor {
      status := EINVAL;
    }
  }

  method ModuleIndexDirect(c: Catalog, id: Id) returns (status: int, m: nat)
    ensures status == OK <==> !id.IsZero() && exists k :: 0 <= k < |c.modules| && c.modules[k].id == id
    ensures status == OK ==> m < |c.modules| && c.modules[m].id == id
    ensures status in {OK, EINVAL, ENOENT}
  {
    if id.IsZero() { return EINVAL, 0; }
    for i := 0 to |c.modules|
      invariant forall k :: 0 <= k < i ==> c.modules[k].id != id
    {
      if c.modules[i].id == id { return OK, i; }
    }
    return ENOENT, 0;
  }

  lemma ServiceOkAt(c: Catalog, mem: Memory, s: Service, m: nat)
    requires ValidCatalog(c) && m < |c.modules| && c.modules[m].id == s.moduleId
    ensures ServiceOk(c, mem, s) ==> ExportsOk(c, mem, s, m)
  {
    hide ExportsOk;
  }

  method DescriptorValidate(c: Catalog, mem: Memory, s: Service) returns (status: int)
    requires Checker.Shaped(c) && ValidCatalog(c)
    ensures status == OK <==> ServiceOk(c, mem, s)
    ensures status in {OK, EINVAL, EEXIST, ENOENT, EPROTONOSUPPORT}
  {
    hide InterfaceOk, ValidCatalog, BindingOf;
    if s.moduleId.IsZero() || s.abiVersion != SERVICE_ABI || s.structSize != SERVICE_SIZE || s.flags != 0
       || |s.exportIndices| == 0 || !s.CallbacksOk() {
      return EINVAL;
    }
    var m;
    status, m := ModuleIndexDirect(c, s.moduleId);
    if status != OK { return; }
    ServiceOkAt(c, mem, s, m);
    if |s.exportIndices| > |c.modules[m].provided| { return EINVAL; }
    for i := 0 to |s.exportIndices|
      invariant forall k :: 0 <= k < i ==>
                              && IsExport(c.modules, m, s.exportIndices[k])
                              && InterfaceOk(mem, BindingOf(c.modules, m, s.exportIndices[k]))
      invariant forall k, l :: 0 <= k < l < i ==> s.exportIndices[k] != s.exportIndices[l]
    {
      var e := s.exportIndices[i];
      if e >= |c.modules[m].provided| { return EINVAL; }
      for earlier := 0 to i
        invariant forall k :: 0 <= k < earlier ==> s.exportIndices[k] != e
      {
        if s.exportIndices[earlier] == e { return EEXIST; }
      }
      var binding;
      status, binding := BindingForServiceExport(c, m, e);
      if status != OK { return; }
      status := InterfaceValidate(mem, c.bindings[binding]);
      if status != OK { return; }
    }
    status := OK;
  }

  method ServiceSetValidate(c: Catalog, mem: Memory, sv: seq<Service>) returns (status: int)
    requires Checker.Shaped(c)
    ensures status == OK <==> ServiceSetOk(c, mem, sv)
    ensures status in {OK, EINVAL, EEXIST, ENOENT, EOVERFLOW, EPROTONOSUPPORT}
  {
    status := Checker.Validate(c);
    if status != OK { return; }
    if |sv| == 0 { return; }
    if |sv| > |c.modules| { return EINVAL; }
    for i := 0 to |sv|
      invariant forall k :: 0 <= k < i ==> ServiceOk(c, mem, sv[k])
      invariant forall k, l :: 0 <= k < l < i ==> sv[k].moduleId != sv[l].moduleId
    {
      status := DescriptorValidate(c, mem, sv[i]);
      if status != OK { return; }
      for earlier := 0 to i
        invariant forall k :: 0 <= k < earlier ==> sv[k].moduleId != sv[i].moduleId
      {
        if sv[earlier].moduleId == sv[i].moduleId { return EEXIST; }
      }
    }
    status := OK;
  }

  // ---- Building the plan -----------------------------------------------------

  method BuildModuleMap(c: Catalog, mem: Memory, sv: seq<Service>, moduleMap: array<nat>) returns (status: int)
    requires Checker.Shaped(c) && ServiceSetOk(c, mem, sv) && moduleMap.Length >= |c.modules|
    modifies moduleMap
    ensures status == OK && MapOk(c, sv, moduleMap[..])
  {
    for m := 0 to |c.modules|
      invariant forall k :: 0 <= k < m ==> moduleMap[k] == U64_MAX
    {
      moduleMap[m] := U64_MAX;
    }
    for i := 0 to |sv|
      invariant forall m :: 0 <= m < |c.modules| ==>
                              moduleMap[m] == if Managed(c, sv, m) && ManagerOf(c, sv, m) < i then ManagerOf(c, sv, m) else U64_MAX
    {
      assert ServiceOk(c, mem, sv[i]);
      var m;
      status, m := ModuleIndexDirect(c, sv[i].moduleId);
      if status != OK { return; }
      assert Manages(c, sv, m, i);
      ManagerUnique(c, mem, sv, m, i, m, ManagerOf(c, sv, m));
      forall k | 0 <= k < |c.modules| && Managed(c, sv, k) ensures ManagerOf(c, sv, k) == i <==> k == m {
        ManagerUnique(c, mem, sv, k, ManagerOf(c, sv, k), m, i);
      }
      if moduleMap[m] != U64_MAX { return EEXIST; }
      moduleMap[m] := i;
    }
    status := OK;
  }

  /** One more position of the order: a record for a managed module, nothing otherwise. */
  lemma PlanExtend(c: Catalog, sv: seq<Service>, a: nat, records: seq<Record>, d: nat)
    requires a < |c.moduleOrder| && PreparedBelow(records, PlanUpTo(c, sv, a), 0)
    ensures !Managed(c, sv, c.moduleOrder[a]) ==> PreparedBelow(records, PlanUpTo(c, sv, a + 1), 0)
    ensures Managed(c, sv, c.moduleOrder[a]) && d == ManagerOf(c, sv, c.moduleOrder[a]) ==>
              PreparedBelow(records + [Record(d, c.moduleOrder[a], Empty, 0, 0)], PlanUpTo(c, sv, a + 1), 0)
  {
  }

  /** The record for one position of the order, written when its module is managed. */
  method BuildRecord(c: Catalog, sv: seq<Service>, records: array<Record>, a: nat, d: nat, index: nat)
    returns (status: int, next: nat)
    requires a < |c.moduleOrder| && c.moduleOrder[a] < |c.modules| && |Plan(c, sv)| == |sv| <= records.Length
    requires |sv| <= |c.modules| <= U64_MAX && index == |PlanUpTo(c, sv, a)| <= |sv|
    requires if Managed(c, sv, c.moduleOrder[a]) then d == ManagerOf(c, sv, c.moduleOrder[a]) else d == U64_MAX
    requires PreparedBelow(records[..index], PlanUpTo(c, sv, a), 0)
    modifies records
    ensures status == OK && next == |PlanUpTo(c, sv, a + 1)| <= |sv|
    ensures PreparedBelow(records[..next], PlanUpTo(c, sv, a + 1), 0)
  {
    PlanStep(c, sv, a);
    ghost var before := records[..index];
    PlanExtend(c, sv, a, before, d);
    status, next := OK, index;
    if d == U64_MAX { return; }
    if d >= |sv| || index >= |sv| {
      status := EINVAL;
      return;
    }
    records[index] := Record(d, c.moduleOrder[a], Empty, 0, 0);
    next := index + 1;
    assert records[..next] == before + [Record(d, c.moduleOrder[a], Empty, 0, 0)];
  }

  method BuildRecords(c: Catalog, mem: Memory, sv: seq<Service>, w: Workspace) returns (status: int)
    requires Checker.Shaped(c) && ServiceSetOk(c, mem, sv) && MapOk(c, sv, w.moduleMap[..])
    requires w.records.Length >= |sv|
    modifies w.records
    ensures status == OK && PreparedBelow(w.records[..|sv|], Plan(c, sv), 0)
  {
    PlanComplete(c, mem, sv);
    CanonicalSound(DependencyGraph(c.modules), c.moduleOrder);
    ghost var map_ := w.moduleMap[..];
    assert PreparedBelow([], PlanUpTo(c, sv, 0), 0);
    hide ServiceSetOk, PlanUpTo, PreparedBelow;
    var index: nat := 0;
    for a := 0 to |c.modules|
      invariant index == |PlanUpTo(c, sv, a)| <= |sv| && w.moduleMap[..] == map_
      invariant PreparedBelow(w.records[..index], PlanUpTo(c, sv, a), 0)
    {
      var m := c.moduleOrder[a];
      if m >= |c.modules| { return EINVAL; }
      assert w.moduleMap[m] == map_[m];
      status, index := BuildRecord(c, sv, w.records, a, w.moduleMap[m], index);
      if status != OK { return; }
    }
    if index != |sv| { return EINVAL; }
    status := OK;
  }

  // ---- Preparation -----------------------------------------------------------

  ghost function PrepareEvents(a: seq<nat>): seq<Event> {
    seq(|a|, i requires 0 <= i < |a| => PrepareCalled(a[i], 0))
  }

  /** One rollback call for each index, last index first. */
  ghost function UndoEvents(a: seq<nat>): seq<Event> {
    if a == [] then [] else [RollbackCalled(a[|a| - 1])] + UndoEvents(a[..|a| - 1])
  }

  /** The rollback calls made when walking down from record `k`. */
  ghost function RollbackDown(sv: seq<Service>, plan: seq<Slot>, k: nat): seq<Event>
    requires k <= |plan|
  {
    if k == 0 then []
    else (if Active(sv, plan, k - 1) then [RollbackCalled(k - 1)] else []) + RollbackDown(sv, plan, k - 1)
  }

  lemma {:induction false} RollbackDownUndoes(sv: seq<Service>, plan: seq<Slot>, k: nat)
    requires k <= |plan|
    ensures RollbackDown(sv, plan, k) == UndoEvents(ActiveBelow(sv, plan, k))
    decreases k
  {
    if k > 0 {
      RollbackDownUndoes(sv, plan, k - 1);
      var a := ActiveBelow(sv, plan, k - 1);
      if Active(sv, plan, k - 1) {
        assert (a + [k - 1])[..|a|] == a;
      } else {
        assert ActiveBelow(sv, plan, k) == a;
      }
    }
  }

  /** Undoes the prepared prefix, last record first. */
  method RollbackPreparedPrefix(sv: seq<Service>, w: Workspace, failed: nat, ghost plan: seq<Slot>, app: Callbacks)
    requires failed <= |plan| <= w.records.Length && Follows(w.records[..|plan|], plan)
    requires PlanSound(sv, plan) && forall i :: 0 <= i < failed ==> w.records[i].state == Ready
    modifies w.records, app
    ensures app.trace == old(app.trace) + UndoEvents(ActiveBelow(sv, plan, failed))
    ensures forall i :: 0 <= i < failed ==> w.records[i].state == RolledBack
    ensures forall i :: failed <= i < w.records.Length ==> w.records[i] == old(w.records[i])
  {
    RollbackDownUndoes(sv, plan, failed);
    var cursor: nat := failed;
    while cursor > 0
      invariant cursor <= failed
      invariant app.trace + RollbackDown(sv, plan, cursor) == old(app.trace) + RollbackDown(sv, plan, failed)
      invariant forall i :: 0 <= i < cursor ==> w.records[i] == old(w.records[i])
      invariant forall i :: cursor <= i < failed ==> w.records[i].state == RolledBack
      invariant forall i :: failed <= i < w.records.Length ==> w.records[i] == old(w.records[i])
    {
      cursor := cursor - 1;
      if w.records[cursor].state != Ready { continue; }
      assert w.records[cursor] == old(w.records[..|plan|])[cursor];
      var descriptor := sv[w.records[cursor].descriptor];
      w.records[cursor] := w.records[cursor].(state := RollingBack);
      if descriptor.hasRollback { app.Rollback(cursor); }
      w.records[cursor] := w.records[cursor].(state := RolledBack, stopNative := 0);
    }
  }

  /** The records when the first `i` have been prepared and the rest not yet. */
  ghost predicate PreparedBelow(records: seq<Record>, plan: seq<Slot>, i: nat) {
    && Follows(records, plan)
    && forall k :: 0 <= k < |records| ==> records[k].stopNative == 0 && records[k].state == if k < i then Ready else Empty
  }

  ghost predicate PlanSound(sv: seq<Service>, plan: seq<Slot>) {
    forall i :: 0 <= i < |plan| ==> plan[i].descriptor < |sv| && sv[plan[i].descriptor].CallbacksOk()
  }

  lemma PlanIsSound(c: Catalog, mem: Memory, sv: seq<Service>)
    requires ServiceSetOk(c, mem, sv)
    ensures PlanSound(sv, Plan(c, sv)) && |Plan(c, sv)| == |sv|
  {
    PlanComplete(c, mem, sv);
    forall i | 0 <= i < |Plan(c, sv)|
      ensures Plan(c, sv)[i].descriptor < |sv| && sv[Plan(c, sv)[i].descriptor].CallbacksOk()
    {
      PlanSlot(c, sv, i);
      assert ServiceOk(c, mem, sv[Plan(c, sv)[i].descriptor]);
    }
  }

  method PrepareRecord(c: Catalog, mem: Memory, sv: seq<Service>, w: Workspace, i: nat, app: Callbacks)
    returns (status: int, ghost raw: int)
    requires Checker.Shaped(c) && ServiceSetOk(c, mem, sv) && MapOk(c, sv, w.moduleMap[..])
    requires i < |sv| == |Plan(c, sv)| && w.records.Length >= |sv| && PlanSound(sv, Plan(c, sv))
    requires PreparedBelow(w.records[..|sv|], Plan(c, sv), i)
    modifies w.records, app
    ensures status == OK ==>
              && PreparedBelow(w.records[..|sv|], Plan(c, sv), i + 1)
              && app.trace == old(app.trace) + if Active(sv, Plan(c, sv), i) then [PrepareCalled(i, 0)] else []
    ensures status != OK ==>
              && status == Normalize(raw) && Active(sv, Plan(c, sv), i) && app.trace == old(app.trace) + [PrepareCalled(i, raw)]
              && w.records[..|sv|] == old(w.records[..|sv|])[i := old(w.records[i]).(state := PrepareFailed, stopNative := 0)]
  {
    hide ServiceSetOk, MapOk, Plan;
    ghost var plan := Plan(c, sv);
    raw := 0;
    assert w.records[i] == w.records[..|sv|][i];
    var descriptor := sv[w.records[i].descriptor];
    w.records[i] := w.records[i].(state := Preparing, stopNative := 0);
    assert PreparingAt(w.records[..|sv|], plan, i);
    if descriptor.hasPrepare {
      var result := app.Prepare(c, mem, sv, w, i);
      raw := result;
      status := Normalize(result);
      if status != OK {
        w.records[i] := w.records[i].(state := PrepareFailed);
        return;
      }
    }
    w.records[i] := w.records[i].(state := Ready);
    status := OK;
  }

  /** Preparing the records one by one, in plan order, until one fails. */
  method PrepareRecords(c: Catalog, mem: Memory, sv: seq<Service>, w: Workspace, app: Callbacks)
    returns (status: int, ghost failed: nat, ghost raw: int)
    requires Checker.Shaped(c) && ServiceSetOk(c, mem, sv) && MapOk(c, sv, w.moduleMap[..])
    requires |sv| == |Plan(c, sv)| && w.records.Length >= |sv| && PlanSound(sv, Plan(c, sv))
    requires PreparedBelow(w.records[..|sv|], Plan(c, sv), 0)
    modifies w.records, app
    ensures status == OK ==>
              && app.trace == old(app.trace) + PrepareEvents(ActiveBelow(sv, Plan(c, sv), |sv|))
              && PreparedBelow(w.records[..|sv|], Plan(c, sv), |sv|)
    ensures status != OK ==>
              && failed < |sv| && status == Normalize(raw) && Active(sv, Plan(c, sv), failed)
              && app.trace == old(app.trace) + PrepareEvents(ActiveBelow(sv, Plan(c, sv), failed)) + [PrepareCalled(failed, raw)]
                              + UndoEvents(ActiveBelow(sv, Plan(c, sv), failed))
              && w.records[failed].state == PrepareFailed
              && forall i :: 0 <= i < failed ==> w.records[i].state == RolledBack
  {
    hide ServiceSetOk, MapOk, Plan;
    ghost var plan, map_ := Plan(c, sv), w.moduleMap[..];
    failed, raw := 0, 0;
    for i := 0 to |sv|
      invariant w.moduleMap[..] == map_ && PreparedBelow(w.records[..|sv|], plan, i)
      invariant app.trace == old(app.trace) + PrepareEvents(ActiveBelow(sv, plan, i))
    {
      ghost var before := w.records[..|sv|];
      status, raw := PrepareRecord(c, mem, sv, w, i, app);
      failed := i;
      if status != OK {
        forall k | 0 <= k < i ensures w.records[k].state == Ready {
          assert w.records[k] == w.records[..|sv|][k] == before[k];
        }
        assert w.records[i] == w.records[..|sv|][i];
        RollbackPreparedPrefix(sv, w, i, plan, app);
        return;
      }
      assert PrepareEvents(ActiveBelow(sv, plan, i) + [i]) == PrepareEvents(ActiveBelow(sv, plan, i)) + [PrepareCalled(i, 0)];
    }
    status := OK;
  }

  /** The second look at the scratch records before they are published: always passes. */
  method ReadyRecordsValidate(c: Catalog, mem: Memory, sv: seq<Service>, records: array<Record>) returns (status: int)
    requires Checker.Shaped(c) && ServiceSetOk(c, mem, sv) && records.Length >= |sv|
    requires PreparedBelow(records[..|sv|], Plan(c, sv), |sv|)
    ensures status == OK
  {
    PlanComplete(c, mem, sv);
    CanonicalSound(DependencyGraph(c.modules), c.moduleOrder);
    assert PlanUpTo(c, sv, 0) == [] && Plan(c, sv) == PlanUpTo(c, sv, |c.moduleOrder|);
    hide ServiceSetOk, Plan, PlanUpTo;
    var expected: nat := 0;
    for a := 0 to |c.modules|
      invariant expected == |PlanUpTo(c, sv, a)| <= |sv|
    {
      PlanStep(c, sv, a);
      var m := c.moduleOrder[a];
      var found, d := DescriptorFor(c, mem, sv, m);
      if !found { continue; }
      if expected >= |sv| { return EINVAL; }
      var r := records[expected];
      assert r == records[..|sv|][expected];
      if r.descriptor != d || r.module_ != m || r.state != Ready || r.reserved0 != 0 || r.stopNative != 0 {
        return EINVAL;
      }
      expected := expected + 1;
    }
    if expected != |sv| { return EINVAL; }
    status := OK;
  }

  /** The descriptor that manages module `m`, found by comparing identifiers. */
  method DescriptorFor(c: Catalog, mem: Memory, sv: seq<Service>, m: nat) returns (found: bool, d: nat)
    requires ServiceSetOk(c, mem, sv) && m < |c.modules|
    ensures found <==> Managed(c, sv, m)
    ensures found ==> d == ManagerOf(c, sv, m)
  {
    for i := 0 to |sv|
      invariant forall k :: 0 <= k < i ==> !Manages(c, sv, m, k)
    {
      if sv[i].moduleId == c.modules[m].id {
        assert Manages(c, sv, m, i);
        ManagerUnique(c, mem, sv, m, i, m, ManagerOf(c, sv, m));
        return true, i;
      }
    }
    return false, 0;
  }

  ghost predicate HasRoom(c: Catalog, sv: seq<Service>, storage: array<Record>, w: Workspace) {
    storage.Length >= |sv| && w.records.Length >= |sv| && (sv == [] || w.moduleMap.Length >= |c.modules|)
  }

  method Publish(c: Catalog, mem: Memory, sv: seq<Service>, storage: array<Record>, w: Workspace, out: Runtime)
    requires ServiceSetOk(c, mem, sv) && storage != w.records && storage.Length >= |sv| && w.records.Length >= |sv|
    requires PreparedBelow(w.records[..|sv|], Plan(c, sv), |sv|)
    modifies storage, out
    ensures out.records == storage && out.catalog == c && out.services == sv && out.state == RuntimeReady
    ensures ValidRuntime(mem, out.View())
    ensures storage[..] == old(w.records[..|sv|]) + old(storage[|sv|..])
  {
    hide ServiceSetOk, Plan;
    for i := 0 to |sv|
      invariant storage[..i] == w.records[..i]
      invariant storage[|sv|..] == old(storage[|sv|..])
    {
      storage[i] := w.records[i];
      assert storage[..i + 1] == storage[..i] + [storage[i]];
    }
    out.abiVersion, out.structSize, out.flags, out.reserved0 := RUNTIME_ABI, RUNTIME_SIZE, 0, 0;
    out.catalog, out.services, out.records, out.state := c, sv, storage, RuntimeReady;
    assert storage[..] == storage[..|sv|] + storage[|sv|..];
    assert out.View().records == w.records[..|sv|];
  }

  /** Prepares a runtime. Callbacks run in plan order; if one fails, exactly the earlier
      active modules are rolled back, once each and last first, and nothing is published. */
  method Prepare(c: Catalog, mem: Memory, sv: seq<Service>, storage: array<Record>, w: Workspace,
                 out: Runtime, app: Callbacks)
    returns (status: int, ghost failed: nat, ghost raw: int)
    requires Checker.Shaped(c) && storage != w.records
    modifies storage, w.records, w.moduleMap, out, app
    ensures !ServiceSetOk(c, mem, sv) ==> status != OK && app.trace == old(app.trace)
    ensures ServiceSetOk(c, mem, sv) && !HasRoom(c, sv, storage, w) ==> status == ENOSPC && app.trace == old(app.trace)
    ensures status != OK ==> unchanged(out) && unchanged(storage)
    ensures status == OK ==>
              && HasRoom(c, sv, storage, w) && out.records == storage && out.catalog == c && out.services == sv
              && ValidRuntime(mem, out.View()) && out.state == RuntimeReady
              && storage[..] == storage[..|sv|] + old(storage[..])[|sv|..]
              && app.trace == old(app.trace) + PrepareEvents(ActiveBelow(sv, Plan(c, sv), |Plan(c, sv)|))
    ensures ServiceSetOk(c, mem, sv) && HasRoom(c, sv, storage, w) && status != OK ==>
              && |Plan(c, sv)| == |sv| && failed < |sv| && status == Normalize(raw) && Active(sv, Plan(c, sv), failed)
              && app.trace == old(app.trace) + PrepareEvents(ActiveBelow(sv, Plan(c, sv), failed)) + [PrepareCalled(failed, raw)]
                              + UndoEvents(ActiveBelow(sv, Plan(c, sv), failed))
  {
    hide ServiceSetOk, MapOk;
    failed, raw := 0, 0;
    status := ServiceSetValidate(c, mem, sv);
    if status != OK { return; }
    if storage.Length < |sv| || w.records.Length < |sv| || (|sv| != 0 && w.moduleMap.Length < |c.modules|) {
      return ENOSPC, failed, raw;
    }
    PlanIsSound(c, mem, sv);
    if |sv| != 0 {
      status := BuildModuleMap(c, mem, sv, w.moduleMap);
      if status != OK { return; }
      status := BuildRecords(c, mem, sv, w);
      if status != OK { return; }
      status, failed, raw := PrepareRecords(c, mem, sv, w, app);
      if status != OK { return; }
      status := ReadyRecordsValidate(c, mem, sv, w.records);
      if status != OK { return; }
    }
    Publish(c, mem, sv, storage, w, out);
  }

  // ---- Resolving a dependency while preparing --------------------------------

  method RecordForDescriptor(w: Workspace, n: nat, d: nat) returns (found: bool, index: nat)
    requires n <= w.records.Length
    ensures found <==> exists k :: 0 <= k < n && w.records[k].descriptor == d
    ensures found ==> index < n && w.records[index].descriptor == d && forall k :: 0 <= k < index ==> w.records[k].descriptor != d
  {
    for i := 0 to n
      invariant forall k :: 0 <= k < i ==> w.records[k].descriptor != d
    {
      if w.records[i].descriptor == d { return true, i; }
    }
    return false, 0;
  }

  method ExportIndexFor(m: Module, id: Id) returns (status: int, e: nat)
    ensures status == OK <==> !id.IsZero() && exists k :: 0 <= k < |m.provided| && m.provided[k].id == id
    ensures status == OK ==> e < |m.provided| && m.provided[e].id == id
    ensures status in {OK, EINVAL, ENOENT}
  {
    if id.IsZero() { return EINVAL, 0; }
    for i := 0 to |m.provided|
      invariant forall k :: 0 <= k < i ==> m.provided[k].id != id
    {
      if m.provided[i].id == id { return OK, i; }
    }
    return ENOENT, 0;
  }

  method DeclaresExport(s: Service, e: nat) returns (declared: bool)
    ensures declared <==> e in s.exportIndices
  {
    for i := 0 to |s.exportIndices|
      invariant e !in s.exportIndices[..i]
    {
      if s.exportIndices[i] == e { return true; }
    }
    declared := false;
  }

  /** The module and position of the export that a binding publishes. */
  lemma BindingSource(c: Catalog, k: nat) returns (m: nat, e: nat)
    requires ValidCatalog(c) && k < |c.bindings|
    ensures IsExport(c.modules, m, e) && c.bindings[k] == BindingOf(c.modules, m, e)
    ensures m == c.bindings[k].providerModule && !c.bindings[k].id.IsZero()
    ensures forall e' :: 0 <= e' < |c.modules[m].provided| && c.modules[m].provided[e'].id == c.bindings[k].id ==> e' == e
  {
    m, e := BindingOrigin(c.modules, |c.modules|, 0, k);
    assert ExportOk(c.modules[m].provided[e]);
    forall e' | 0 <= e' < |c.modules[m].provided| && c.modules[m].provided[e'].id == c.bindings[k].id ensures e' == e {
      assert IsExport(c.modules, m, e');
      assert Before(m, e, m, e') || Before(m, e', m, e) || e == e';
    }
  }

  lemma DeclaredInterfaceOk(c: Catalog, mem: Memory, sv: seq<Service>, m: nat, d: nat, e: nat)
    requires ServiceSetOk(c, mem, sv) && Manages(c, sv, m, d) && e in sv[d].exportIndices
    ensures IsExport(c.modules, m, e) && InterfaceOk(mem, BindingOf(c.modules, m, e))
  {
    assert ServiceOk(c, mem, sv[d]);
    var n :| 0 <= n < |c.modules| && c.modules[n].id == sv[d].moduleId && ExportsOk(c, mem, sv[d], n);
    assert Manages(c, sv, n, d);
    ManagerUnique(c, mem, sv, m, d, n, d);
  }

  /** The first record of descriptor `d` is record `k`, and it is ready. */
  ghost predicate ReadyAt(w: Workspace, n: nat, d: nat, k: int)
    reads w.records
  {
    && 0 <= k < n <= w.records.Length && w.records[k].state == Ready && w.records[k].descriptor == d
    && forall j :: 0 <= j < k ==> w.records[j].descriptor != d
  }

  /** A binding may be used while preparing once its provider, if managed, is ready. */
  method ManagedBindingValidate(c: Catalog, mem: Memory, sv: seq<Service>, w: Workspace, binding: nat) returns (status: int)
    requires ServiceSetOk(c, mem, sv) && MapOk(c, sv, w.moduleMap[..]) && |sv| <= w.records.Length
    requires binding < |c.bindings| && |c.modules| <= U64_MAX
    ensures !Managed(c, sv, c.bindings[binding].providerModule) ==> status == OK
    ensures Managed(c, sv, c.bindings[binding].providerModule) ==>
              (status == OK <==> exists k :: ReadyAt(w, |sv|, ManagerOf(c, sv, c.bindings[binding].providerModule), k))
    ensures status in {OK, EAGAIN}
  {
    ghost var m, e := BindingSource(c, binding);
    var provider := c.bindings[binding].providerModule;
    if provider >= |c.modules| { return EINVAL; }
    var d := w.moduleMap[provider];
    assert d == w.moduleMap[..][provider];
    if d == U64_MAX { return OK; }
    if d >= |sv| { return EINVAL; }
    var found, index := RecordForDescriptor(w, |sv|, d);
    forall k | ReadyAt(w, |sv|, d, k) ensures found && k == index {
      assert w.records[k].descriptor == d;
    }
    if !found || w.records[index].state != Ready { return EAGAIN; }
    assert c.modules[provider].provided[e].id == c.bindings[binding].id;
    var export_;
    status, export_ := ExportIndexFor(c.modules[provider], c.bindings[binding].id);
    if status != OK { return; }
    assert export_ == e && m == provider;
    var declared := DeclaresExport(sv[d], export_);
    if declared {
      DeclaredInterfaceOk(c, mem, sv, provider, d, export_);
      status := InterfaceValidate(mem, c.bindings[binding]);
      assert ReadyAt(w, |sv|, ManagerOf(c, sv, provider), index);
      return;
    }
    assert ReadyAt(w, |sv|, ManagerOf(c, sv, provider), index);
    status := OK;
  }

  lemma PlannedProviderReady(c: Catalog, mem: Memory, sv: seq<Service>, w: Workspace, i: nat, r: nat) returns (j: nat)
    requires PreparePoint(c, mem, sv, w, i) && IsRequirement(c.modules, Plan(c, sv)[i].module_, r)
    requires Managed(c, sv, ProviderOf(c.modules, c.modules[Plan(c, sv)[i].module_].consumed[r]))
    ensures 0 <= j < |sv| && w.records[j].state == Ready
    ensures w.records[j].descriptor == ManagerOf(c, sv, ProviderOf(c.modules, c.modules[Plan(c, sv)[i].module_].consumed[r]))
    ensures forall k :: 0 <= k < j ==> w.records[k].descriptor != w.records[j].descriptor
  {
    j := ProviderPlannedEarlier(c, sv, i, r);
    PlanSlot(c, sv, j);
    var plan, p := Plan(c, sv), ProviderOf(c.modules, c.modules[Plan(c, sv)[i].module_].consumed[r]);
    ManagerUnique(c, mem, sv, p, plan[j].descriptor, p, ManagerOf(c, sv, p));
    PlanDistinct(c, mem, sv);
    forall k | 0 <= k < |sv| ensures w.records[k].descriptor == plan[k].descriptor == PlanDescriptors(c, sv)[k] {
      assert w.records[k] == w.records[..|sv|][k];
    }
    assert w.records[j] == w.records[..|sv|][j];
  }

  /** The caller is the callback of record `current`, asking on behalf of its own module. */
  ghost predicate CalledFromPrepare(c: Catalog, mem: Memory, sv: seq<Service>, w: Workspace, current: nat, consumer: nat)
    reads w.records, w.moduleMap
  {
    PreparePoint(c, mem, sv, w, current) && consumer == Plan(c, sv)[current].module_
  }

  lemma CalledFromPrepareFacts(c: Catalog, mem: Memory, sv: seq<Service>, w: Workspace, current: nat, consumer: nat, r: nat)
    returns (j: nat)
    ensures CalledFromPrepare(c, mem, sv, w, current, consumer) ==>
              && ServiceSetOk(c, mem, sv) && current < |sv| <= w.records.Length && w.moduleMap.Length >= |c.modules|
              && consumer < |c.modules|
              && w.records[current].module_ == consumer && w.records[current].state == Preparing
    ensures CalledFromPrepare(c, mem, sv, w, current, consumer) && IsRequirement(c.modules, consumer, r) ==>
              && AllSatisfied(c.modules)
              && var p := ProviderOf(c.modules, c.modules[consumer].consumed[r]);
                 Managed(c, sv, p) ==> ReadyAt(w, |sv|, ManagerOf(c, sv, p), j)
  {
    j := 0;
    if CalledFromPrepare(c, mem, sv, w, current, consumer) {
      PlanComplete(c, mem, sv);
      PlanSlot(c, sv, current);
      assert w.records[current] == w.records[..|sv|][current];
      if IsRequirement(c.modules, consumer, r) {
        var p := ProviderOf(c.modules, c.modules[consumer].consumed[r]);
        if Managed(c, sv, p) {
          j := PlannedProviderReady(c, mem, sv, w, current, r);
        }
      }
    }
  }

  /** Only the module whose record is being prepared may resolve. */
  ghost predicate OwnsRecord(c: Catalog, sv: seq<Service>, w: Workspace, current: nat, consumer: nat)
    reads w.records
  {
    && current < |sv| <= w.records.Length && consumer < |c.modules|
    && w.records[current].module_ == consumer && w.records[current].state == Preparing
  }

  /** A provider is usable while preparing unless it is managed and not ready. */
  ghost predicate Usable(c: Catalog, sv: seq<Service>, w: Workspace, binding: nat)
    requires binding < |c.bindings|
    reads w.records
  {
    var provider := c.bindings[binding].providerModule;
    Managed(c, sv, provider) ==> exists k :: ReadyAt(w, |sv|, ManagerOf(c, sv, provider), k)
  }

  /** Resolves a requirement of the module being prepared, for the owner of the record only. Called
      from its callback it never reports -EAGAIN: every managed provider is already ready. */
  method PrepareResolve(c: Catalog, mem: Memory, sv: seq<Service>, w: Workspace, current: nat, consumer: nat, r: nat)
    returns (status: int, binding: nat)
    requires Checker.Shaped(c) && MapOk(c, sv, w.moduleMap[..])
    ensures !ServiceSetOk(c, mem, sv) ==> status != OK
    ensures ServiceSetOk(c, mem, sv) && (!OwnsRecord(c, sv, w, current, consumer) || !IsRequirement(c.modules, consumer, r)) ==>
              status == EINVAL
    ensures ServiceSetOk(c, mem, sv) && OwnsRecord(c, sv, w, current, consumer) && IsRequirement(c.modules, consumer, r) ==>
              && binding == Supplier(c.modules, c.modules[consumer].consumed[r]) < |c.bindings|
              && status == if Usable(c, sv, w, binding) then OK else EAGAIN
    ensures CalledFromPrepare(c, mem, sv, w, current, consumer) ==>
              && (status == OK <==> IsRequirement(c.modules, consumer, r))
              && status in {OK, EINVAL}
              && (status == OK ==> binding == Supplier(c.modules, c.modules[consumer].consumed[r]))
  {
    ghost var j := CalledFromPrepareFacts(c, mem, sv, w, current, consumer, r);
    ghost var called := CalledFromPrepare(c, mem, sv, w, current, consumer);
    hide CalledFromPrepare;
    status := ServiceSetValidate(c, mem, sv);
    if status != OK { return status, 0; }
    if |sv| == 0 || consumer >= |c.modules| || current >= |sv| || w.records.Length < |sv| || w.moduleMap.Length < |c.modules| {
      return EINVAL, 0;
    }
    if w.records[current].module_ != consumer || w.records[current].state != Preparing { return EINVAL, 0; }
    status, binding := Checker.Resolve(c, consumer, r);
    if status != OK { return; }
    ghost var provider := c.bindings[binding].providerModule;
    status := ManagedBindingValidate(c, mem, sv, w, binding);
    assert called && Managed(c, sv, provider) ==> ReadyAt(w, |sv|, ManagerOf(c, sv, provider), j);
  }

  // ---- Validating a runtime --------------------------------------------------

  method RecordStateValidate(state: RuntimeState, r: Record) returns (status: int, failed: bool)
    ensures status == OK <==> r.reserved0 == 0 && RecordStateOk(state, r)
    ensures status == OK ==> (failed <==> r.state == StopFailed)
    ensures status in {OK, EINVAL}
  {
    failed := false;
    if r.reserved0 != 0 { return EINVAL, false; }
    match state {
      case RuntimeReady =>
        if r.state != Ready || r.stopNative != 0 { return EINVAL, false; }
      case RuntimeStopping =>
        if r.state !in {Ready, Stopping, Stopped, StopFailed} { return EINVAL, false; }
        if r.state == StopFailed {
          if r.stopNative == 0 { return EINVAL, false; }
          failed := true;
        } else if r.stopNative != 0 {
          return EINVAL, false;
        }
      case RuntimeStopped =>
        if r.state != Stopped || r.stopNative != 0 { return EINVAL, false; }
      case RuntimeStopFailed =>
        if r.state == StopFailed {
          if r.stopNative == 0 { return EINVAL, false; }
          failed := true;
        } else if r.state == Stopped {
          if r.stopNative != 0 { return EINVAL, false; }
        } else {
          return EINVAL, false;
        }
    }
    status := OK;
  }

  ghost predicate RecordsValidUpTo(records: seq<Record>, state: RuntimeState, plan: seq<Slot>, k: nat) {
    && k <= |plan| && k <= |records|
    && forall i :: 0 <= i < k ==>
                     && records[i].descriptor == plan[i].descriptor && records[i].module_ == plan[i].module_
                     && records[i].reserved0 == 0 && RecordStateOk(state, records[i])
  }

  ghost predicate FailedBelow(records: seq<Record>, k: nat)
    requires k <= |records|
  {
    exists i :: 0 <= i < k && records[i].state == StopFailed
  }

  /** Checks one record against its slot of the plan. */
  method RecordValidate(state: RuntimeState, r: Record, d: nat, m: nat, failed: bool,
                        ghost records: seq<Record>, ghost plan: seq<Slot>, ghost k: nat)
    returns (status: int, anyFailed: bool)
    requires k < |records| && k < |plan| && records[k] == r && plan[k] == Slot(d, m)
    requires RecordsValidUpTo(records, state, plan, k) && (failed <==> FailedBelow(records, k))
    ensures status == OK <==> RecordsValidUpTo(records, state, plan, k + 1)
    ensures status == OK ==> (anyFailed <==> FailedBelow(records, k + 1))
    ensures status in {OK, EINVAL}
  {
    anyFailed := failed;
    if r.descriptor != d || r.module_ != m { return EINVAL, failed; }
    var recordFailed;
    status, recordFailed := RecordStateValidate(state, r);
    if status != OK { return; }
    anyFailed := failed || recordFailed;
  }

  lemma RecordsValidMonotone(records: seq<Record>, state: RuntimeState, plan: seq<Slot>, k: nat, n: nat)
    requires k <= n
    ensures RecordsValidUpTo(records, state, plan, n) ==> RecordsValidUpTo(records, state, plan, k)
  {
  }

  lemma PlanBegins(c: Catalog, mem: Memory, sv: seq<Service>)
    requires ServiceSetOk(c, mem, sv)
    ensures |c.moduleOrder| == |c.modules| && forall a :: 0 <= a < |c.modules| ==> c.moduleOrder[a] < |c.modules|
    ensures PlanUpTo(c, sv, 0) == [] && Plan(c, sv) == PlanUpTo(c, sv, |c.moduleOrder|) && |Plan(c, sv)| == |sv|
  {
    PlanComplete(c, mem, sv);
    CanonicalSound(DependencyGraph(c.modules), c.moduleOrder);
  }

  lemma NothingChecked(records: seq<Record>, state: RuntimeState, plan: seq<Slot>)
    ensures RecordsValidUpTo(records, state, plan, 0) && !FailedBelow(records, 0)
  {
  }

  method RecordsValidate(c: Catalog, mem: Memory, sv: seq<Service>, state: RuntimeState, records: array<Record>)
    returns (status: int, failed: bool)
    requires Checker.Shaped(c) && ServiceSetOk(c, mem, sv) && |sv| <= records.Length
    ensures status == OK <==> RecordsValidUpTo(records[..|sv|], state, Plan(c, sv), |sv|)
    ensures status == OK ==> (failed <==> FailedBelow(records[..|sv|], |sv|))
    ensures status in {OK, EINVAL}
  {
    hide ServiceSetOk, Plan, PlanUpTo, RecordsValidUpTo, FailedBelow, RecordStateOk;
    PlanBegins(c, mem, sv);
    failed := false;
    var expected: nat := 0;
    ghost var plan, view := Plan(c, sv), records[..|sv|];
    NothingChecked(view, state, plan);
    for a := 0 to |c.modules|
      invariant expected == |PlanUpTo(c, sv, a)| <= |sv|
      invariant RecordsValidUpTo(view, state, plan, expected)
      invariant failed <==> FailedBelow(view, expected)
    {
      PlanStep(c, sv, a);
      var m := c.moduleOrder[a];
      if m >= |c.modules| { return EINVAL, failed; }
      var found, d := DescriptorFor(c, mem, sv, m);
      if !found { continue; }
      if expected >= |sv| { return EINVAL, failed; }
      assert records[expected] == view[expected];
      status, failed := RecordValidate(state, records[expected], d, m, failed, view, plan, expected);
      if status != OK {
        RecordsValidMonotone(view, state, plan, expected + 1, |sv|);
        return;
      }
      expected := expected + 1;
    }
    if expected != |sv| { return EINVAL, failed; }
    status := OK;
  }

  method Validate(mem: Memory, rt: Runtime) returns (status: int)
    requires |rt.services| <= rt.records.Length && Checker.Shaped(rt.catalog)
    ensures status == OK <==> ValidRuntime(mem, rt.View())
    ensures status in {OK, EINVAL, EEXIST, ENOENT, EOVERFLOW, EPROTONOSUPPORT}
  {
    ghost var v := rt.View();
    if rt.abiVersion != RUNTIME_ABI || rt.structSize < RUNTIME_SIZE || rt.flags != 0 || rt.reserved0 != 0 { return EINVAL; }
    status := ServiceSetValidate(rt.catalog, mem, rt.services);
    if status != OK { return; }
    PlanComplete(rt.catalog, mem, rt.services);
    assert forall i :: 0 <= i < |rt.services| ==> rt.records[i] == v.records[i];
    hide ServiceSetOk, Plan;
    var failed;
    status, failed := RecordsValidate(rt.catalog, mem, rt.services, rt.state, rt.records);
    if status != OK { return; }
    if rt.state == RuntimeStopFailed && !failed { return EINVAL; }
    if rt.state != RuntimeStopFailed && rt.state != RuntimeStopping && failed { return EINVAL; }
  }

  /** A managed module declares the export that binding `k` publishes. */
  ghost predicate DeclaredBy(c: Catalog, sv: seq<Service>, k: nat, d: int, e: int) {
    && k < |c.bindings| && Manages(c, sv, c.bindings[k].providerModule, d)
    && e in sv[d].exportIndices && IsExport(c.modules, c.bindings[k].providerModule, e)
    && c.bindings[k] == BindingOf(c.modules, c.bindings[k].providerModule, e)
  }

  ghost predicate Offered(c: Catalog, sv: seq<Service>, k: nat) { exists d, e :: DeclaredBy(c, sv, k, d, e) }

  /** Every managed module has a record. */
  lemma ManagedHasRecord(mem: Memory, v: RuntimeView, m: nat, d: int) returns (i: nat)
    requires ValidRuntime(mem, v) && Manages(v.catalog, v.services, m, d)
    ensures i < |v.records| && v.records[i].module_ == m && v.records[i].descriptor == d
  {
    hide RecordStateOk;
    PlanCovers(v.catalog, mem, v.services, d);
    i :| 0 <= i < |PlanDescriptors(v.catalog, v.services)| && PlanDescriptors(v.catalog, v.services)[i] == d;
    PlanSlot(v.catalog, v.services, i);
    hide Plan;
    ManagerUnique(v.catalog, mem, v.services, m, d, Plan(v.catalog, v.services)[i].module_, d);
  }

  /** The declared export of a binding is the one its identifier names. */
  lemma OfferedExport(c: Catalog, mem: Memory, sv: seq<Service>, k: nat, m: nat, e: nat, d: nat)
    requires ServiceSetOk(c, mem, sv) && k < |c.bindings| && m == c.bindings[k].providerModule && Manages(c, sv, m, d)
    requires IsExport(c.modules, m, e) && c.bindings[k] == BindingOf(c.modules, m, e)
    requires forall x :: 0 <= x < |c.modules[m].provided| && c.modules[m].provided[x].id == c.bindings[k].id ==> x == e
    ensures Offered(c, sv, k) <==> e in sv[d].exportIndices
  {
    if Offered(c, sv, k) {
      var d', e' :| DeclaredBy(c, sv, k, d', e');
      ManagerUnique(c, mem, sv, m, d, m, d');
      hide ServiceSetOk;
      assert c.modules[m].provided[e'].id == c.bindings[k].id;
    }
    assert e in sv[d].exportIndices ==> DeclaredBy(c, sv, k, d, e);
  }

  /** Finds exactly the services that a managed module of a ready runtime declares. */
  method FindReady(mem: Memory, rt: Runtime, q: Requirement) returns (status: int, binding: nat)
    requires |rt.services| <= rt.records.Length && Checker.Shaped(rt.catalog)
    ensures status == OK ==>
              && ValidRuntime(mem, rt.View()) && rt.state == RuntimeReady && Answers(rt.catalog.modules, q, binding)
              && binding == Supplier(rt.catalog.modules, q) && InterfaceOk(mem, rt.catalog.bindings[binding])
    ensures ValidRuntime(mem, rt.View()) && !q.id.IsZero() && rt.state != RuntimeReady ==> status == EAGAIN
    ensures ValidRuntime(mem, rt.View()) && rt.state == RuntimeReady && RequirementOk(q) ==>
              status == if !Satisfied(rt.catalog.modules, q) then RequirementStatus(rt.catalog.modules, q)
                        else if Offered(rt.catalog, rt.services, Supplier(rt.catalog.modules, q)) then OK else ENOENT
  {
    if q.id.IsZero() { return EINVAL, 0; }
    status := Validate(mem, rt);
    if status != OK { return status, 0; }
    if rt.state != RuntimeReady { return EAGAIN, 0; }
    var c := rt.catalog;
    status, binding := Checker.Find(c, q);
    if status != OK { return; }
    hide Satisfied, RequirementStatus, Answers;
    status, binding := FindRecord(mem, rt, binding);
  }

  /** The record of the binding's provider, and whether it declares the export. */
  method FindRecord(mem: Memory, rt: Runtime, found: nat) returns (status: int, binding: nat)
    requires |rt.services| <= rt.records.Length && Checker.Shaped(rt.catalog) && ValidRuntime(mem, rt.View())
    requires rt.state == RuntimeReady && found < |rt.catalog.bindings|
    ensures status == if Offered(rt.catalog, rt.services, found) then OK else ENOENT
    ensures binding == found && (status == OK ==> InterfaceOk(mem, rt.catalog.bindings[found]))
  {
    binding := found;
    var c := rt.catalog;
    var provider := c.bindings[found].providerModule;
    ghost var m, e := BindingSource(c, found);
    for i := 0 to |rt.services|
      invariant forall k :: 0 <= k < i ==> rt.records[k].module_ != provider
    {
      var record := rt.records[i];
      assert record == rt.View().records[i];
      if record.module_ == provider {
        PlanSlot(c, rt.services, i);
        hide Plan, ServiceSetOk;
        if record.descriptor >= |rt.services| || record.state != Ready { assert false; }
        status := DeclaredStatus(mem, rt, found, record, m, e);
        return;
      }
    }
    if Offered(c, rt.services, found) {
      var d, x :| DeclaredBy(c, rt.services, found, d, x);
      var i := ManagedHasRecord(mem, rt.View(), provider, d);
      assert false;
    }
    status := ENOENT;
  }

  method DeclaredStatus(mem: Memory, rt: Runtime, found: nat, record: Record, ghost m: nat, ghost e: nat) returns (status: int)
    requires ServiceSetOk(rt.catalog, mem, rt.services) && found < |rt.catalog.bindings| && record.state == Ready
    requires m == rt.catalog.bindings[found].providerModule && Manages(rt.catalog, rt.services, m, record.descriptor)
    requires IsExport(rt.catalog.modules, m, e) && rt.catalog.bindings[found] == BindingOf(rt.catalog.modules, m, e)
    requires !rt.catalog.bindings[found].id.IsZero()
    requires forall x :: 0 <= x < |rt.catalog.modules[m].provided| && rt.catalog.modules[m].provided[x].id == rt.catalog.bindings[found].id ==> x == e
    ensures status == if Offered(rt.catalog, rt.services, found) then OK else ENOENT
    ensures status == OK ==> InterfaceOk(mem, rt.catalog.bindings[found])
  {
    var c := rt.catalog;
    var provider := c.bindings[found].providerModule;
    OfferedExport(c, mem, rt.services, found, m, e, record.descriptor);
    hide Offered, ServiceSetOk;
    var export_;
    status, export_ := ExportIndexFor(c.modules[provider], c.bindings[found].id);
    assert c.modules[provider].provided[e].id == c.bindings[found].id;
    if status != OK { assert false; }
    var declared := DeclaresExport(rt.services[record.descriptor], export_);
    if !declared { return ENOENT; }
    DeclaredInterfaceOk(c, mem, rt.services, provider, record.descriptor, export_);
    status := InterfaceValidate(mem, c.bindings[found]);
  }

  // ---- Stopping --------------------------------------------------------------

  /** Records from `k` on have been stopped, with `results` describing how. */
  ghost predicate StoppedFrom(records: seq<Record>, plan: seq<Slot>, k: nat) {
    && Follows(records, plan) && k <= |records|
    && (forall i :: 0 <= i < k ==> records[i].state == Ready && records[i].stopNative == 0)
    && forall i :: k <= i < |records| ==>
                     records[i].state == (if records[i].stopNative == 0 then Stopped else StopFailed)
  }

  lemma {:induction false} FirstStopFailureExtend(records: seq<Record>, suffix: seq<Record>)
    ensures FirstStopFailure(records + suffix) ==
            if FirstStopFailure(suffix) != OK then FirstStopFailure(suffix) else FirstStopFailure(records)
    decreases |suffix|
  {
    if suffix == [] {
      assert records + suffix == records;
    } else {
      var last := |suffix| - 1;
      FirstStopFailureExtend(records, suffix[..last]);
      assert (records + suffix)[..|records + suffix| - 1] == records + suffix[..last];
    }
  }

  /** While stopping: records from `k` on are done, the one before may be in progress. */
  ghost predicate StoppingAt(mem: Memory, rt: Runtime, k: nat)
    reads rt, rt.records
  {
    && |rt.services| <= rt.records.Length && Checker.Shaped(rt.catalog)
    && rt.abiVersion == RUNTIME_ABI && rt.structSize >= RUNTIME_SIZE && rt.flags == 0 && rt.reserved0 == 0
    && rt.state == RuntimeStopping && ServiceSetOk(rt.catalog, mem, rt.services)
    && |Plan(rt.catalog, rt.services)| == |rt.services| && PlanSound(rt.services, Plan(rt.catalog, rt.services))
    && StoppedFrom(rt.records[..|rt.services|], Plan(rt.catalog, rt.services), k)
  }

  /** Stops record `k`, whatever its callback returns. */
  method StopRecord(mem: Memory, rt: Runtime, k: nat, app: Callbacks) returns (normalized: int)
    requires StoppingAt(mem, rt, k + 1)
    modifies rt.records, app
    ensures StoppingAt(mem, rt, k) && normalized == Normalize(rt.records[k].stopNative)
    ensures rt.records[..] == old(rt.records[..])[k := rt.records[k]]
    ensures app.trace == old(app.trace) + if Active(rt.services, Plan(rt.catalog, rt.services), k)
                                          then [StopCalled(k, rt.records[k].stopNative)] else []
  {
    hide ServiceSetOk, Plan;
    assert rt.records[k] == rt.records[..|rt.services|][k];
    var descriptor := rt.services[rt.records[k].descriptor];
    rt.records[k] := rt.records[k].(state := Stopping, stopNative := 0);
    var raw := 0;
    if descriptor.hasStop { raw := app.Stop(mem, rt, k); }
    normalized := Normalize(raw);
    if normalized == OK {
      rt.records[k] := rt.records[k].(state := Stopped, stopNative := 0);
    } else {
      rt.records[k] := rt.records[k].(state := StopFailed, stopNative := raw);
    }
  }

  /** Stop calls from the last record down to record `k`. */
  ghost function StopEventsFrom(sv: seq<Service>, plan: seq<Slot>, records: seq<Record>, k: nat): seq<Event>
    requires k <= |plan| == |records|
    decreases |records| - k
  {
    if k == |records| then []
    else StopEventsFrom(sv, plan, records, k + 1)
         + if Active(sv, plan, k) then [StopCalled(k, records[k].stopNative)] else []
  }

  lemma {:induction false} StopEventsFromFrame(sv: seq<Service>, plan: seq<Slot>, a: seq<Record>, b: seq<Record>, k: nat)
    requires k <= |plan| == |a| == |b| && forall i :: k <= i < |a| ==> a[i] == b[i]
    ensures StopEventsFrom(sv, plan, a, k) == StopEventsFrom(sv, plan, b, k)
    decreases |a| - k
  {
    if k < |a| { StopEventsFromFrame(sv, plan, a, b, k + 1); }
  }

  /** What the loop has done once records from `k` on are stopped. */
  ghost predicate StopProgress(sv: seq<Service>, plan: seq<Slot>, records: seq<Record>, k: nat,
                               start: seq<Event>, trace: seq<Event>, firstFailure: int) {
    && k <= |plan| == |records|
    && trace == start + StopEventsFrom(sv, plan, records, k)
    && firstFailure == FirstStopFailure(records[k..])
  }

  /** Every active module was attempted once, in reverse order, and the first failure met is known. */
  ghost predicate StopOutcome(sv: seq<Service>, plan: seq<Slot>, records: seq<Record>, start: seq<Event>,
                              trace: seq<Event>, status: int) {
    && StoppedFrom(records, plan, 0) && |plan| == |records|
    && trace == start + StopEventsFrom(sv, plan, records, 0)
    && status == FirstStopFailure(records)
  }

  lemma StopProgressStep(sv: seq<Service>, plan: seq<Slot>, before: seq<Record>, after: seq<Record>, k: nat,
                         start: seq<Event>, trace: seq<Event>, trace': seq<Event>, firstFailure: int)
    requires k < |plan| == |before| == |after| && after == before[k := after[k]]
    requires StopProgress(sv, plan, before, k + 1, start, trace, firstFailure)
    requires trace' == trace + if Active(sv, plan, k) then [StopCalled(k, after[k].stopNative)] else []
    ensures StopProgress(sv, plan, after, k, start, trace',
                         if firstFailure != OK then firstFailure else Normalize(after[k].stopNative))
  {
    StopEventsFromFrame(sv, plan, before, after, k + 1);
    assert after[k..] == [after[k]] + before[k + 1..];
    FirstStopFailureExtend([after[k]], before[k + 1..]);
    assert [after[k]][..0] == [];
  }

  method StopRecords(mem: Memory, rt: Runtime, app: Callbacks) returns (firstFailure: int)
    requires StoppingAt(mem, rt, |rt.services|)
    modifies rt.records, app
    ensures StoppingAt(mem, rt, 0)
    ensures StopProgress(rt.services, Plan(rt.catalog, rt.services), rt.records[..|rt.services|], 0,
                         old(app.trace), app.trace, firstFailure)
  {
    hide ServiceSetOk, Plan;
    ghost var n, plan := |rt.services|, Plan(rt.catalog, rt.services);
    firstFailure := OK;
    var failed := false;
    var cursor: nat := |rt.services|;
    while cursor > 0
      invariant cursor <= n && StoppingAt(mem, rt, cursor)
      invariant StopProgress(rt.services, plan, rt.records[..n], cursor, old(app.trace), app.trace, firstFailure)
      invariant failed <==> firstFailure != OK
    {
      cursor := cursor - 1;
      ghost var before, trace := rt.records[..n], app.trace;
      assert rt.records[cursor] == before[cursor];
      if rt.records[cursor].descriptor >= |rt.services| {
        assert false; // a record that follows the plan names an existing descriptor
      }
      var normalized := StopRecord(mem, rt, cursor, app);
      assert rt.records[..n] == before[cursor := rt.records[cursor]];
      StopProgressStep(rt.services, plan, before, rt.records[..n], cursor, old(app.trace), trace, app.trace, firstFailure);
      if normalized != OK && !failed {
        firstFailure, failed := normalized, true;
      }
    }
  }

  /** Stops a runtime. Every active module is attempted once, in reverse preparation order,
      whatever fails; the first failure met is returned. A stop inside a callback is refused
      as busy, and a stop of a stopped runtime runs no callback. */
  method Stop(mem: Memory, rt: Runtime, app: Callbacks) returns (status: int)
    requires |rt.services| <= rt.records.Length && Checker.Shaped(rt.catalog)
    modifies rt`state, rt.records, app
    ensures !old(ValidRuntime(mem, rt.View())) ==> status != OK
    ensures !old(ValidRuntime(mem, rt.View())) || old(rt.state) != RuntimeReady ==>
              unchanged(rt) && unchanged(rt.records) && app.trace == old(app.trace)
    ensures old(ValidRuntime(mem, rt.View())) ==>
              && (old(rt.state) == RuntimeStopping ==> status == EBUSY)
              && (old(rt.state) in {RuntimeStopped, RuntimeStopFailed} ==> status == EALREADY)
    ensures old(ValidRuntime(mem, rt.View())) && old(rt.state) == RuntimeReady ==>
              && ValidRuntime(mem, rt.View())
              && StopOutcome(rt.services, Plan(rt.catalog, rt.services), rt.records[..|rt.services|], old(app.trace), app.trace, status)
              && rt.state == if status == OK then RuntimeStopped else RuntimeStopFailed
  {
    hide ValidRuntime, StopOutcome;
    status := Validate(mem, rt);
    if status != OK { return; }
    if rt.state == RuntimeStopping { return EBUSY; }
    if rt.state == RuntimeStopped || rt.state == RuntimeStopFailed { return EALREADY; }
    status := StopReady(mem, rt, app);
  }

  /** A ready runtime that enters the stopping state has every record still to stop. */
  lemma StoppingBegins(mem: Memory, rt: Runtime, v: RuntimeView)
    requires |rt.services| <= rt.records.Length && Checker.Shaped(rt.catalog)
    requires ValidRuntime(mem, v) && v.state == RuntimeReady && rt.View() == v.(state := RuntimeStopping)
    ensures StoppingAt(mem, rt, |rt.services|)
  {
    PlanIsSound(rt.catalog, mem, rt.services);
    hide ServiceSetOk, Plan;
    assert rt.records[..|rt.services|] == v.records;
  }

  function Ended(status: int): RuntimeState {
    if status != OK then RuntimeStopFailed else RuntimeStopped
  }

  /** Once every record is stopped, the state that the first failure calls for makes the runtime valid. */
  lemma StoppingEnds(mem: Memory, rt: Runtime)
    requires StoppingAt(mem, rt, 0)
    ensures ValidRuntime(mem, rt.View().(state := Ended(FirstStopFailure(rt.View().records))))
  {
    hide ServiceSetOk, Plan, FirstStopFailure;
    FirstStopFailureSeen(rt.View().records);
  }

  method StopReady(mem: Memory, rt: Runtime, app: Callbacks) returns (status: int)
    requires |rt.services| <= rt.records.Length && Checker.Shaped(rt.catalog)
    requires ValidRuntime(mem, rt.View()) && rt.state == RuntimeReady
    modifies rt`state, rt.records, app
    ensures ValidRuntime(mem, rt.View())
    ensures StopOutcome(rt.services, Plan(rt.catalog, rt.services), rt.records[..|rt.services|], old(app.trace), app.trace, status)
    ensures rt.state == if status == OK then RuntimeStopped else RuntimeStopFailed
  {
    hide ValidRuntime, ServiceSetOk, Plan, FirstStopFailure, StopEventsFrom, Follows;
    rt.state := RuntimeStopping;
    StoppingBegins(mem, rt, old(rt.View()));
    var firstFailure := StopRecords(mem, rt, app);
    ghost var v := rt.View();
    assert v.records[0..] == v.records;
    StoppingEnds(mem, rt);
    rt.state := if firstFailure != OK then RuntimeStopFailed else RuntimeStopped;
    assert rt.View() == v.(state := Ended(firstFailure));
    status := firstFailure;
  }

  lemma {:induction false} FirstStopFailureSeen(records: seq<Record>)
    ensures FirstStopFailure(records) != OK <==> exists i :: 0 <= i < |records| && records[i].stopNative != 0
    decreases |records|
  {
    if records != [] {
      var init := records[..|records| - 1];
      FirstStopFailureSeen(init);
      if i :| 0 <= i < |records| && records[i].stopNative != 0 {
        if i < |init| { assert init[i].stopNative != 0; }
      }
    }
  }
}
