/** The unit of work: one transaction over the event journal, ended by a commit or rollback
    callback, which may itself commit or roll the unit back while it is still active. */
module UnitOfWork {
  import opened Native
  import opened CapabilityModel
  import opened EventJournal

  const TRANSACTION_ABI: nat := 1
  const TRANSACTION_INTERFACE_SIZE: nat := 72

  datatype TransactionInterface = TransactionInterface(
    abiVersion: nat, structSize: nat, flags: nat, authority: Id, stateSize: nat, stateAlignment: nat,
    hasBegin: bool, hasCommit: bool, hasRollback: bool)

  predicate AlignmentOk(a: nat) { a in {1, 2, 4, 8, 16, 32, 64, 128, 256, 512, 1024, 2048, 4096} }

  function InterfaceStatus(t: TransactionInterface): int {
    if t.abiVersion != TRANSACTION_ABI then EPROTONOSUPPORT
    else if t.structSize < TRANSACTION_INTERFACE_SIZE || t.flags != 0 || t.authority.IsZero()
            || !AlignmentOk(t.stateAlignment) || !t.hasBegin || !t.hasCommit || !t.hasRollback then EINVAL
    else OK
  }

  datatype State = Zero | Active | Committed | RolledBack | Faulted

  /** A callback that ran, with what it returned. */
  datatype Call = BeginCalled(raw: int) | CommitCalled(raw: int) | RollbackCalled(raw: int)

  /** A callback may not invent a success of its own. */
  function CallbackStatus(raw: int): (status: int)
    ensures status <= 0 && (status == OK <==> raw == 0) && (raw < 0 ==> status == raw)
  {
    if raw > 0 then EINVAL else raw
  }

  // ---- Callbacks that come back ----------------------------------------------

  /** What a commit or rollback callback does before it returns `raw`. */
  datatype Script = Script(raw: int, steps: seq<Step>)

  /** A callback uses the journal, or reaches the unit and commits or rolls it back itself, with
      a callback of its own. */
  datatype Step = JournalTraffic | Attempt(commit: bool, inner: Script)

  ghost predicate Attempts(callback: Script) {
    exists i :: 0 <= i < |callback.steps| && callback.steps[i].Attempt?
  }

  /** The first thing the callback does is to end the unit itself. */
  ghost predicate Leads(callback: Script) {
    callback.steps != [] && callback.steps[0].Attempt?
  }

  /** The callbacks that run within one: the first attempt ends the unit, the later ones are refused. */
  ghost function Nested(callback: Script): seq<Call> {
    if !Leads(callback) then []
    else
      var first := callback.steps[0];
      Nested(first.inner) + [EndCalled(first.commit, first.inner.raw)]
  }

  /** No journal traffic comes before an attempt, so no attempt depends on it. */
  ghost predicate Prompt(callback: Script) {
    if !Leads(callback) then !Attempts(callback) else Prompt(callback.steps[0].inner)
  }

  function EndCalled(commit: bool, raw: int): Call {
    if commit then CommitCalled(raw) else RollbackCalled(raw)
  }

  ghost predicate EndsOnly(calls: seq<Call>, at: nat) {
    forall i :: at <= i < |calls| ==> !calls[i].BeginCalled?
  }

  /** `after` adds to `before` the callbacks that ran within `callback`: none without an attempt,
      some if it leads with one, and a known list when no traffic comes before an attempt. */
  ghost predicate Nests(before: seq<Call>, after: seq<Call>, callback: Script) {
    && before <= after && EndsOnly(after, |before|)
    && (!Attempts(callback) ==> after == before)
    && (Leads(callback) ==> |after| > |before|)
    && (Prompt(callback) ==> after == before + Nested(callback))
  }

  /** An end callback, after those that ran within it. */
  ghost predicate Ends(before: seq<Call>, after: seq<Call>, commit: bool, callback: Script) {
    && after != [] && after[|after| - 1] == EndCalled(commit, callback.raw)
    && Nests(before, after[..|after| - 1], callback)
  }

  lemma EndsMeans(before: seq<Call>, after: seq<Call>, commit: bool, callback: Script)
    requires Ends(before, after, commit, callback)
    ensures before <= after && |after| > |before| && EndsOnly(after, |before|)
    ensures Prompt(callback) ==> after == before + (Nested(callback) + [EndCalled(commit, callback.raw)])
  {
    assert after == after[..|after| - 1] + [after[|after| - 1]];
  }

  lemma OneCall(calls: seq<Call>)
    requires |calls| == 1
    ensures EndsOnly(calls, 1)
  {
  }

  lemma LeadStep(callback: Script)
    requires Leads(callback)
    ensures var first := callback.steps[0];
            && Nested(callback) == Nested(first.inner) + [EndCalled(first.commit, first.inner.raw)]
            && (Prompt(callback) <==> Prompt(first.inner))
  {
  }

  lemma FollowStep(callback: Script)
    requires !Leads(callback)
    ensures Nested(callback) == [] && (Prompt(callback) <==> !Attempts(callback))
  {
  }

  // ---- Runs after a begin ----------------------------------------------------

  lemma {:induction false} RunSplit(l: Log, a: seq<Op>, b: seq<Op>)
    ensures Run(l, a + b) == Run(Run(l, a), b)
  {
    if b == [] {
      assert a + b == a;
    } else {
      var n := |b| - 1;
      assert (a + b)[..|a + b| - 1] == a + b[..n];
      RunSplit(l, a, b[..n]);
    }
  }

  /** Rewinding after `ops` gives the log `l` back.  What was never cut off needs no check. */
  ghost predicate Restorable(l: Log, ops: seq<Op>) {
    var now, n := Run(l, ops), |l.events|;
    && Clear !in ops && n <= |now.events|
    && now.events[Min(Lowest(l, ops), n)..n] == l.events[Min(Lowest(l, ops), n)..]
  }

  /** The log was neither cleared nor ever shorter than at the start. */
  ghost predicate NeverShorter(l: Log, ops: seq<Op>) {
    Clear !in ops && Lowest(l, ops) >= |l.events|
  }

  lemma NeverShorterRestorable(l: Log, ops: seq<Op>)
    requires NeverShorter(l, ops)
    ensures Restorable(l, ops)
  {
    Retained(l, ops);
  }

  /** What the rewind at the end of a unit of work leaves. */
  ghost function AfterRewind(now: Log, cp: Checkpoint): Log {
    if Accepts(now, cp) then Apply(now, Op.Rewind(cp.recordCount)) else now
  }

  /** The journal is as at begin exactly when the run since then is restorable. */
  lemma RewindOutcome(l: Log, ops: seq<Op>)
    ensures AfterRewind(Run(l, ops), CheckpointOf(l)) == l <==> Restorable(l, ops)
  {
    RewindRestores(l, ops);
    assert l.events[..|l.events|] == l.events;
  }

  /** Any traffic on a journal through its own operations. */
  method Traffic(j: Journal)
    requires j.Valid()
    modifies j, j.records, j.payload
    ensures j.Valid() && old(j.history) <= j.history
  {
    var n := *;
    if n < 0 { n := 0; }
    for i := 0 to n
      invariant j.Valid() && old(j.history) <= j.history
    {
      var which: int := *;
      if which == 0 {
        var id: Id, abi: nat, flags: nat, payload: seq<Byte> := *, *, *, *;
        var status, sequence := j.Append(id, abi, flags, payload);
      } else if which == 1 {
        var cp: Checkpoint := *;
        var status := j.Rewind(cp);
      } else {
        var status := j.Clear();
      }
    }
  }

  class Unit {
    var table: TransactionInterface
    var stateSize: nat
    var journal: Journal?
    var checkpoint: Checkpoint
    var state: State

    /** The callbacks run since begin. */
    ghost var calls: seq<Call>
    /** How much of the journal's history lies before begin. */
    ghost var begunAt: nat

    /** The journal as begin found it. */
    ghost function Begun(): Log
      requires journal != null && begunAt <= |journal.history|
      reads this, journal
    {
      Run(EMPTY_LOG, journal.history[..begunAt])
    }

    /** What happened to the journal since begin. */
    ghost function Since(): seq<Op>
      requires journal != null && begunAt <= |journal.history|
      reads this, journal
    {
      journal.history[begunAt..]
    }

    /** One begin, then end callbacks only, of which the last one decides the state. */
    ghost predicate CallsOk()
      reads this
    {
      && (state == Zero <==> calls == [])
      && (state == Active <==> calls == [BeginCalled(0)])
      && (|calls| > 1 ==>
            && calls[0] == BeginCalled(0) && EndsOnly(calls, 1)
            && var last := calls[|calls| - 1];
            && (state == Committed <==> last == CommitCalled(0))
            && (state == RolledBack ==> last == RollbackCalled(0)))
    }

    ghost predicate Inv()
      reads this, journal, if journal != null then {journal.records, journal.payload} else {}
    {
      && CallsOk()
      && (state != Zero ==>
            && journal != null && journal.Valid() && begunAt <= |journal.history|
            && InterfaceStatus(table) == OK && stateSize == table.stateSize
            && checkpoint == CheckpointOf(Begun()))
    }

    constructor ()
      ensures Inv() && state == Zero
    {
      table := TransactionInterface(0, 0, 0, Id(0, 0), 0, 0, false, false, false);
      stateSize, journal, checkpoint, state, calls, begunAt := 0, null, Checkpoint(0, 0, 0), Zero, [], 0;
    }

    /** Starts a unit of work over a journal that is intact; the checkpoint is taken before the
        begin callback runs. */
    method Begin(t: TransactionInterface, size: nat, j: Journal) returns (status: int, ghost raw: int)
      requires Inv() && j.Typed() && (j.Canonical() ==> j.Valid())
      modifies this, j, j.records, j.payload
      ensures Inv()
      ensures status == OK ==> old(state) == Zero && InterfaceStatus(t) == OK && size == t.stateSize && old(j.Canonical())
      ensures status == OK ==> state == Active && journal == j && j.Valid() && Begun() == old(j.Contents())
      ensures status != OK ==> unchanged(this)
      ensures old(state) != Zero || InterfaceStatus(t) != OK || size != t.stateSize || !old(j.Canonical()) ==>
                && unchanged(j) && unchanged(j.records) && unchanged(j.payload)
                && status == if old(state) == Zero && InterfaceStatus(t) != OK then InterfaceStatus(t) else EINVAL
      ensures old(state) == Zero && InterfaceStatus(t) == OK && size == t.stateSize && old(j.Canonical()) ==>
                status == CallbackStatus(raw)
    {
      raw := 0;
      if state != Zero { return EINVAL, raw; }
      status := InterfaceStatus(t);
      if status != OK { return; }
      if size != t.stateSize { return EINVAL, raw; }
      hide Run, CheckpointOf, InterfaceStatus, Packed, Events;
      var cp, returned;
      ghost var at;
      status, cp, returned, at := Attach(j);
      if status != OK { return; }
      status, raw := CallbackStatus(returned), returned;
      if status != OK { return; }
      Activate(t, size, j, cp, at);
    }

    method Activate(t: TransactionInterface, size: nat, j: Journal, cp: Checkpoint, ghost at: nat)
      requires InterfaceStatus(t) == OK && size == t.stateSize && j.Valid() && at <= |j.history|
      requires cp == CheckpointOf(Run(EMPTY_LOG, j.history[..at]))
      modifies this
      ensures Inv() && state == Active && journal == j && begunAt == at
    {
      table, stateSize, journal, checkpoint, state := t, size, j, cp, Active;
      calls, begunAt := [BeginCalled(0)], at;
    }

    /** The journal may be used freely while the unit of work exists. */
    method Work()
      requires Inv() && journal != null && state != Zero
      modifies journal, journal.records, journal.payload
      ensures Inv() && Begun() == old(Begun()) && old(Since()) <= Since()
    {
      assert journal.history == journal.history[..begunAt] + Since();
      Traffic(journal);
      assert journal.history[..begunAt] == old(journal.history[..begunAt]);
    }

    method ActiveValidate() returns (status: int)
      requires Inv()
      ensures state == Zero ==> status == EINVAL
      ensures state != Zero && state != Active ==> status == EALREADY
      ensures state == Active ==>
                status == if checkpoint.generation != journal.generation then ESTALE
                          else if Accepts(journal.Contents(), checkpoint) then OK else EINVAL
      ensures state == Active ==> (status == OK <==> Accepts(journal.Contents(), checkpoint))
    {
      if state == Zero { return EINVAL; }
      status := InterfaceStatus(table);
      if status != OK { assert false; }
      if state != Active { return EALREADY; }
      status := journal.CheckpointValidate(checkpoint);
    }

    /** Rewinds the journal to the checkpoint if that still is possible. */
    method Restore(ghost ops: seq<Op>) returns (status: int)
      requires Inv() && state != Zero && journal != null && ops == Since()
      modifies journal`recordCount, journal`byteCount, journal`history
      ensures Inv() && Begun() == old(Begun()) && ops <= Since()
      ensures journal.Contents() == Begun() <==> Restorable(Begun(), ops)
      ensures NeverShorter(Begun(), ops) ==> status == OK
      ensures status == OK ==> |journal.Contents().events| == |Begun().events|
    {
      assert journal.history == journal.history[..begunAt] + ops;
      RunSplit(EMPTY_LOG, journal.history[..begunAt], ops);
      RewindOutcome(Begun(), ops);
      RewindRestores(Begun(), ops);
      status := journal.Rewind(checkpoint);
      assert journal.history[..begunAt] == old(journal.history[..begunAt]);
    }

    /** Commits.  A refused commit takes the events back and can never be repeated.  The callback
        finds the unit still active, so it can end it itself; the outer commit then overwrites the state. */
    method Commit(callback: Script) returns (status: int, ghost ops: seq<Op>)
      requires Inv()
      modifies this, journal, if journal != null then {journal.records, journal.payload} else {}
      ensures Inv()
      ensures old(state) != Active ==> status == (if old(state) == Zero then EINVAL else EALREADY)
      ensures old(state) == Active && Clear in old(Since()) ==> status == ESTALE
      ensures old(state) == Active ==> (state != Active <==> old(Accepts(journal.Contents(), checkpoint)))
      ensures state == old(state) ==> unchanged(this) && status != OK && (journal != null ==> unchanged(journal))
      ensures state != old(state) ==>
                && old(state) == Active && Ends(old(calls), calls, true, callback)
                && status == CallbackStatus(callback.raw) && state == (if status == OK then Committed else Faulted)
                && journal == old(journal) && Begun() == old(Begun()) && old(Since()) <= ops <= Since()
      ensures state == Committed && old(state) == Active ==> ops == Since()
      ensures state == Faulted && old(state) == Active ==> (journal.Contents() == Begun() <==> Restorable(Begun(), ops))
      decreases callback, 1
    {
      hide Nests, EndsOnly, Run, CheckpointOf, Restorable, NeverShorter, InterfaceStatus, Accepts;
      ops := [];
      status := ActiveValidate();
      if state == Active { StaleForever(); }
      if status != OK { return; }
      EndCallback(callback);
      ops := Since();
      status := CallbackStatus(callback.raw);
      Returned(true, callback, if status == OK then Committed else Faulted, old(calls));
      if status == OK { return; }
      var rewound := Restore(ops);
    }

    /** Rolls back.  Only a callback and a rewind that both succeed count as rolled back. */
    method Rollback(callback: Script) returns (status: int, ghost ops: seq<Op>)
      requires Inv()
      modifies this, journal, if journal != null then {journal.records, journal.payload} else {}
      ensures Inv()
      ensures old(state) != Active ==> status == (if old(state) == Zero then EINVAL else EALREADY)
      ensures old(state) == Active && Clear in old(Since()) ==> status == ESTALE
      ensures old(state) == Active ==> (state != Active <==> old(Accepts(journal.Contents(), checkpoint)))
      ensures state == old(state) ==> unchanged(this) && status != OK && (journal != null ==> unchanged(journal))
      ensures state != old(state) ==>
                && old(state) == Active && Ends(old(calls), calls, false, callback)
                && state == (if status == OK then RolledBack else Faulted)
                && (callback.raw != 0 ==> status == CallbackStatus(callback.raw))
                && journal == old(journal) && Begun() == old(Begun()) && old(Since()) <= ops <= Since()
                && (journal.Contents() == Begun() <==> Restorable(Begun(), ops))
                && (callback.raw == 0 && NeverShorter(Begun(), ops) ==> state == RolledBack)
      decreases callback, 1
    {
      hide Nests, EndsOnly, Run, CheckpointOf, Restorable, NeverShorter, InterfaceStatus, Accepts;
      ops := [];
      status := ActiveValidate();
      if state == Active { StaleForever(); }
      if status != OK { return; }
      EndCallback(callback);
      ops := Since();
      var rollback := CallbackStatus(callback.raw);
      Returned(false, callback, Faulted, old(calls));
      var rewound := Restore(ops);
      if rollback == OK && rewound == OK {
        MarkRolledBack();
        return rollback, ops;
      }
      status := if rollback != OK then rollback else rewound;
    }

    method MarkRolledBack()
      requires Inv() && state == Faulted && calls[|calls| - 1] == RollbackCalled(0)
      modifies `state
      ensures Inv() && state == RolledBack
    {
      hide EndsOnly, InterfaceStatus, CheckpointOf, Run;
      state := RolledBack;
    }

    /** The callback has returned: whatever it did to the unit, its caller sets the state. */
    method Returned(commit: bool, callback: Script, outcome: State, ghost before: seq<Call>)
      requires Inv() && state != Zero && before == [BeginCalled(0)] && Nests(before, calls, callback)
      requires outcome == if commit && callback.raw == 0 then Committed else Faulted
      modifies `state, `calls
      ensures Inv() && state == outcome && |calls| > 1 && calls[|calls| - 1] == EndCalled(commit, callback.raw)
      ensures Ends(before, calls, commit, callback)
    {
      calls, state := calls + [EndCalled(commit, callback.raw)], outcome;
      assert calls[..|calls| - 1] == old(calls);
    }

    /** A terminal unit of work becomes usable again; an active one does not. */
    method Reset() returns (status: int)
      requires Inv()
      modifies this
      ensures Inv()
      ensures status == match old(state) case Active => EBUSY case Zero => EINVAL case _ => OK
      ensures if status == OK then state == Zero else unchanged(this)
    {
      if state == Active { return EBUSY; }
      if state == Zero { return EINVAL; }
      table := TransactionInterface(0, 0, 0, Id(0, 0), 0, 0, false, false, false);
      stateSize, journal, checkpoint, state, calls, begunAt := 0, null, Checkpoint(0, 0, 0), Zero, [], 0;
      status := OK;
    }

    /** A commit or rollback callback: any traffic on the journal, and any attempts to end the
        unit, which is active until one of them does. */
    method EndCallback(callback: Script)
      requires Inv() && state == Active && Accepts(journal.Contents(), checkpoint)
      modifies this, journal, journal.records, journal.payload
      ensures Inv() && state != Zero
      ensures journal == old(journal) && Begun() == old(Begun()) && old(Since()) <= Since()
      ensures Nests(old(calls), calls, callback)
      decreases callback, 0
    {
      hide Nested, Prompt, Ends, EndsOnly, Run, CheckpointOf, Restorable, NeverShorter, InterfaceStatus, Accepts;
      if Leads(callback) { LeadStep(callback); } else { FollowStep(callback); }
      assert EndsOnly(calls, 1) by { OneCall(calls); }
      for i := 0 to |callback.steps|
        invariant Inv() && state != Zero
        invariant journal == old(journal) && Begun() == old(Begun()) && old(Since()) <= Since()
        invariant old(calls) <= calls && EndsOnly(calls, 1)
        invariant i == 0 ==> state == Active && Accepts(journal.Contents(), checkpoint)
        invariant (forall k :: 0 <= k < i ==> !callback.steps[k].Attempt?) ==> calls == old(calls)
        invariant i > 0 && Leads(callback) ==> |calls| > 1
        invariant i > 0 && Leads(callback) && Prompt(callback) ==> calls == old(calls) + Nested(callback)
      {
        var step := callback.steps[i];
        ghost var before, ran := calls, step.Attempt? && state == Active && Accepts(journal.Contents(), checkpoint);
        Perform(step);
        if ran { EndsMeans(before, calls, step.commit, step.inner); }
      }
    }

    /** One thing a callback does. */
    method Perform(step: Step)
      requires Inv() && state != Zero
      modifies this, journal, journal.records, journal.payload
      ensures Inv() && state != Zero
      ensures journal == old(journal) && Begun() == old(Begun()) && old(Since()) <= Since()
      ensures step.JournalTraffic? || old(state) != Active ==> unchanged(this)
      ensures step.Attempt? && old(state) == Active ==>
                if old(Accepts(journal.Contents(), checkpoint)) then Ends(old(calls), calls, step.commit, step.inner)
                else unchanged(this)
      decreases step, 0
    {
      hide Nests, EndsOnly, Run, CheckpointOf, Restorable, NeverShorter, InterfaceStatus, Accepts;
      ghost var ops;
      var status;
      match step
      case JournalTraffic => Work();
      case Attempt(commit, inner) =>
        if commit { status, ops := Commit(inner); } else { status, ops := Rollback(inner); }
    }

    /** Clearing the journal under a unit of work outdates it for good. */
    lemma StaleForever()
      requires Inv() && state != Zero
      ensures Clear in Since() <==> checkpoint.generation != journal.generation
    {
      assert journal.history == journal.history[..begunAt] + Since();
      RunSplit(EMPTY_LOG, journal.history[..begunAt], Since());
      GenerationCountsClears(Begun(), Since());
    }
  }

  /** The callback rolls the unit back, with a callback that does nothing, and returns zero. */
  const ROLLING_BACK: Script := Script(0, [Attempt(false, Script(0, []))])

  lemma RollingBackIsPrompt()
    ensures Prompt(ROLLING_BACK) && Nested(ROLLING_BACK) == [RollbackCalled(0)]
  {
    var rollback := ROLLING_BACK.steps[0].inner;
    FollowStep(rollback);
    LeadStep(ROLLING_BACK);
  }

  /** A commit callback that rolls the unit back and then reports success: two end callbacks run,
      and the unit counts as committed. */
  method RolledBackCommit(u: Unit) returns (status: int)
    requires u.Inv() && u.state == Active && Accepts(u.journal.Contents(), u.checkpoint)
    modifies u, u.journal, u.journal.records, u.journal.payload
    ensures status == OK && u.state == Committed
    ensures u.calls == [BeginCalled(0), RollbackCalled(0), CommitCalled(0)]
  {
    hide Prompt, Nested, Attempts, Leads, EndsOnly, Restorable, Run, CheckpointOf, InterfaceStatus, Accepts, NeverShorter;
    ghost var ops;
    RollingBackIsPrompt();
    status, ops := u.Commit(ROLLING_BACK);
    EndsMeans([BeginCalled(0)], u.calls, true, ROLLING_BACK);
  }

  /** Takes the checkpoint and runs the begin callback: any result, and any traffic on the journal. */
  method Attach(j: Journal) returns (status: int, cp: Checkpoint, raw: int, ghost at: nat)
    requires j.Typed() && (j.Canonical() ==> j.Valid())
    modifies j, j.records, j.payload
    ensures status == if old(j.Canonical()) then OK else EINVAL
    ensures status != OK ==> unchanged(j) && unchanged(j.records) && unchanged(j.payload)
    ensures status == OK ==> j.Valid() && at <= |j.history| && Run(EMPTY_LOG, j.history[..at]) == old(j.Contents())
    ensures status == OK ==> cp == CheckpointOf(old(j.Contents()))
  {
    hide Run, CheckpointOf, Packed, Events, Accepts;
    raw, at := 0, |j.history|;
    assert j.history[..at] == j.history;
    status, cp := j.TakeCheckpoint();
    if status != OK { return; }
    raw := *;
    Traffic(j);
    assert j.history[..at] == old(j.history);
  }
}
