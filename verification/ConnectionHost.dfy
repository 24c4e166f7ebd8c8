/** The connection host: one event loop that accepts connections into a fixed set of slots,
    drains them against a deadline, and closes.  The operating system, the connection
    routines and the clock may answer anything. */
module ConnectionHost {
  import opened Native

  const INT_MAX: int := 0x7FFF_FFFF
  const MORE_WORK: int := 1

  datatype Phase = Prepared | Accepting | Draining | Closed

  /** `address` is what an event for this slot's connection carries. */
  datatype Slot = Slot(address: nat, active: bool, moreWork: bool, connectionClosed: bool, buffersEmpty: bool)

  // ---- The environment -------------------------------------------------------
  // `tidy` says whether the connection routines leave empty buffers behind a connection
  // they closed; nothing but the buffers depends on it.

  method ClockNow() returns (now: int)
    ensures I64_MIN <= now <= I64_MAX
  {
    assert I64_MIN <= 0 <= I64_MAX;
    now :| I64_MIN <= now <= I64_MAX;
  }

  method EpollWait(capacity: nat, timeout: int, ghost limit: int) returns (count: int, events: seq<nat>)
    requires 0 <= timeout <= limit && timeout <= INT_MAX
    ensures count <= capacity
    ensures count >= 0 ==> |events| == count
  {
    count := *;
    if count > capacity { count := capacity; }
    ghost var n := if count >= 0 then count else 0;
    assert |seq<nat>(n, _ => 0)| == n;
    events :| count >= 0 ==> |events| == count;
  }

  method EpollModify() returns (native: int)
  {
    native := *;
  }

  method CloseDescriptor() returns (errno: int)
    ensures errno >= 0
  {
    errno := *;
    if errno < 0 { errno := 0; }
  }

  method ServerOpen() returns (status: int, fd: int)
    ensures status == OK ==> fd >= 0
  {
    status, fd := *, *;
    if status == OK && fd < 0 { fd := 0; }
  }

  method ServerStep(s: Slot, tidy: bool) returns (native: int, t: Slot)
    ensures t == s.(connectionClosed := t.connectionClosed, buffersEmpty := t.buffersEmpty)
    ensures tidy && t.connectionClosed ==> t.buffersEmpty
  {
    native := *;
    var closed: bool, empty: bool := *, *;
    t := s.(connectionClosed := closed, buffersEmpty := empty || (tidy && closed));
  }

  method ServerClose(s: Slot, tidy: bool) returns (native: int, t: Slot)
    ensures t == s.(connectionClosed := t.connectionClosed, buffersEmpty := t.buffersEmpty)
    ensures tidy ==> t.buffersEmpty
  {
    native := *;
    var closed: bool, empty: bool := *, *;
    t := s.(connectionClosed := closed, buffersEmpty := empty || tidy);
  }

  method ServerAccept(s: Slot, tidy: bool) returns (native: int, fd: int, t: Slot)
    ensures t == s.(connectionClosed := t.connectionClosed, buffersEmpty := t.buffersEmpty)
    ensures tidy && (native != 0 || fd < 0 || t.connectionClosed) ==> t.buffersEmpty
  {
    native, fd := *, *;
    var closed: bool, empty: bool := *, *;
    t := s.(connectionClosed := closed, buffersEmpty := empty || tidy);
  }

  // ---- Slot accounting -------------------------------------------------------

  ghost function CountActive(s: seq<Slot>): (n: nat)
    ensures n <= |s|
  {
    if s == [] then 0 else CountActive(s[..|s| - 1]) + if s[|s| - 1].active then 1 else 0
  }

  /** Changing one slot changes the count by that slot alone. */
  lemma {:induction false} CountUpdate(s: seq<Slot>, i: nat, t: Slot)
    requires i < |s|
    ensures CountActive(s[i := t]) ==
            CountActive(s) + (if t.active then 1 else 0) - (if s[i].active then 1 else 0)
  {
    var u := s[i := t];
    if i == |s| - 1 {
      assert u[..|s| - 1] == s[..|s| - 1];
    } else {
      assert u[..|s| - 1] == s[..|s| - 1][i := t];
      CountUpdate(s[..|s| - 1], i, t);
    }
  }

  lemma {:induction false} CountZero(s: seq<Slot>)
    ensures CountActive(s) == 0 <==> forall i :: 0 <= i < |s| ==> !s[i].active
  {
    if s != [] {
      CountZero(s[..|s| - 1]);
      assert forall i :: 0 <= i < |s| - 1 ==> s[..|s| - 1][i] == s[i];
    }
  }

  /** The slots that have to be stepped without waiting for an event. */
  ghost function Pending(s: seq<Slot>): seq<nat> {
    if s == [] then []
    else
      var n := |s| - 1;
      Pending(s[..n]) + if s[n].active && s[n].moreWork then [n] else []
  }

  ghost predicate SlotsOk(s: seq<Slot>, tidy: bool) {
    forall i :: 0 <= i < |s| ==>
      && (s[i].moreWork ==> s[i].active)
      && (tidy && (!s[i].active || s[i].connectionClosed) ==> s[i].buffersEmpty)
  }

  /** No idle slot has bytes left in its buffers. */
  ghost predicate Clean(s: seq<Slot>) {
    forall i :: 0 <= i < |s| && !s[i].active ==> s[i].buffersEmpty
  }

  predicate SlotStorageValid(s: Slot) { !s.active && !s.moreWork && s.buffersEmpty }

  /** A recorded failure is never positive. */
  function Normalised(native: int): (failure: int)
    ensures failure <= 0 && (failure == 0 <==> native == 0) && (native < 0 ==> failure == native)
  {
    if native > 0 then EIO else native
  }

  ghost function FirstOf(noted: seq<int>): int { if noted == [] then 0 else noted[0] }

  /** No slot became active, and each still answers to its own events. */
  ghost predicate NoneOpened(before: seq<Slot>, after: seq<Slot>) {
    && |before| == |after|
    && forall i :: 0 <= i < |before| ==> after[i].address == before[i].address && (after[i].active ==> before[i].active)
  }

  /** The slot an event is for: the first active one of its address, or none. */
  ghost predicate IsTarget(s: seq<Slot>, event: nat, j: nat) {
    && j < |s| && s[j].active && s[j].address == event
    && forall k :: 0 <= k < j ==> !(s[k].active && s[k].address == event)
  }

  /** Every slot that one of the events is for was stepped. */
  ghost predicate AllServed(before: seq<Slot>, events: seq<nat>, stepped: seq<nat>) {
    forall i, j: nat :: 0 <= i < |events| && IsTarget(before, events[i], j) ==> j in stepped
  }

  /** A slot only becomes inactive by being stepped. */
  ghost predicate Deactivated(before: seq<Slot>, after: seq<Slot>, stepped: seq<nat>) {
    |before| == |after| && forall j: nat :: j < |before| && before[j].active && !after[j].active ==> j in stepped
  }

  /** The events that are not the listener's. */
  ghost function Others(events: seq<nat>, listenerFd: int): seq<nat> {
    if events == [] then []
    else
      var n := |events| - 1;
      Others(events[..n], listenerFd) + if events[n] == listenerFd then [] else [events[n]]
  }

  lemma OpenedThrough(a: seq<Slot>, b: seq<Slot>, c: seq<Slot>)
    ensures NoneOpened(a, b) && NoneOpened(b, c) ==> NoneOpened(a, c)
  {
  }

  lemma NothingServed(before: seq<Slot>, stepped: seq<nat>)
    ensures Deactivated(before, before, stepped) && AllServed(before, [], stepped) && NoneOpened(before, before)
  {
  }

  /** An event reaches the slot it is for, unless that was stepped already. */
  lemma ServedMore(before: seq<Slot>, was: seq<Slot>, now: seq<Slot>, sofar: seq<nat>, stepped: seq<nat>,
                   done: seq<nat>, event: nat, slot: nat)
    requires NoneOpened(before, was) && |now| == |was| && slot <= |was|
    requires Deactivated(before, was, sofar) && AllServed(before, done, sofar)
    requires forall j :: 0 <= j < |was| && j != slot ==> now[j] == was[j]
    requires slot < |was| ==> was[slot].active && was[slot].address == event
    requires forall k :: 0 <= k < slot ==> !(was[k].active && was[k].address == event)
    requires stepped == sofar + if slot < |was| then [slot] else []
    ensures Deactivated(before, now, stepped) && AllServed(before, done + [event], stepped)
  {
    forall i, j: nat | 0 <= i < |done + [event]| && IsTarget(before, (done + [event])[i], j) ensures j in stepped {
      if i < |done| {
        assert IsTarget(before, done[i], j);
      } else if was[j].active {
        assert was[j].address == event;
        assert j == slot;
      }
    }
  }

  /** Slots stepped before the wait need not be stepped after it. */
  lemma ServedThrough(before: seq<Slot>, middle: seq<Slot>, events: seq<nat>, early: seq<nat>, late: seq<nat>)
    requires NoneOpened(before, middle) && Deactivated(before, middle, early) && AllServed(middle, events, late)
    ensures AllServed(before, events, early + late)
  {
    forall i, j: nat | 0 <= i < |events| && IsTarget(before, events[i], j) ensures j in early + late {
      if middle[j].active { assert IsTarget(middle, events[i], j); }
    }
  }

  /** A wait for events: how long at most, and a count with as many events, or a failure. */
  datatype Poll = Poll(timeout: int, count: int, events: seq<nat>)

  ghost predicate HasMoreWork(s: seq<Slot>) { exists k :: 0 <= k < |s| && s[k].active && s[k].moreWork }

  /** What was closed: the connection of a slot, or a descriptor. */
  datatype Closing = Connection(slot: nat) | Descriptor(fd: int)

  /** Every connection still open is closed. */
  ghost predicate ClosesOpen(s: seq<Slot>, closes: seq<Closing>) {
    forall j: nat :: j < |s| && s[j].active && !s[j].connectionClosed ==> Connection(j) in closes
  }

  lemma ClosesMore(s: seq<Slot>, closes: seq<Closing>, more: seq<Closing>)
    requires ClosesOpen(s, closes)
    ensures ClosesOpen(s, closes + more)
  {
  }

  lemma NoneOpenedHere(s: seq<Slot>)
    ensures NoneOpened(s, s)
  {
  }

  ghost predicate Answered(polls: seq<Poll>) {
    forall k :: 0 <= k < |polls| ==> polls[k].count >= 0
  }

  /** Every reading of the clock was good and before the deadline. */
  ghost predicate InTime(readings: seq<int>, deadline: int) {
    forall k :: 0 <= k < |readings| ==> 0 <= readings[k] < deadline
  }

  ghost predicate AllTaken(offers: seq<int>) {
    forall k :: 0 <= k < |offers| ==> offers[k] == OK
  }

  /** How many connections were accepted. */
  ghost function Taken(offers: seq<int>): (n: nat) {
    if offers == [] then 0 else Taken(offers[..|offers| - 1]) + if offers[|offers| - 1] == OK then 1 else 0
  }

  method AddChecked(a: nat, b: nat) returns (status: int, sum: nat)
    ensures a + b <= U64_MAX ==> status == OK && sum == a + b
    ensures a + b > U64_MAX ==> status == EOVERFLOW && sum == 0
  {
    if a + b > U64_MAX { return EOVERFLOW, 0; }
    return OK, a + b;
  }

  /** Milliseconds left, zero once the deadline is reached. */
  function DeadlineRemaining(deadline: nat, now: nat): nat {
    if now >= deadline then 0 else if deadline - now > INT_MAX then INT_MAX else deadline - now
  }

  datatype ShutdownResult =
    ShutdownResult(activeAtStart: nat, inactiveBefore: nat, forced: nat, start: nat, finish: nat, firstFailure: int, expired: bool)

  class Host {
    const slots: array<Slot>
    const eventCapacity: nat
    const eventWait: int
    const drainTimeout: nat
    const tidy: bool

    var phase: Phase
    var listenerFd: int
    var epollFd: int
    var listenerReadable: bool
    var drainDeadline: nat

    // The shutdown result.
    var activeAtStart: nat
    var inactiveBefore: nat
    var forced: nat
    var drainStart: nat
    var drainFinish: nat
    var firstFailure: int
    var deadlineExpired: bool

    /** Every failure noted so far, in order. */
    ghost var noted: seq<int>
    /** The slots whose connections were stepped, in order. */
    ghost var stepped: seq<nat>
    /** The last clock reading taken against the deadline. */
    ghost var lastReading: int
    /** Every answer of the clock asked against the deadline, of a wait for events, and of an accept
        (zero for a connection), in order. */
    ghost var readings: seq<int>
    ghost var polls: seq<Poll>
    ghost var offers: seq<int>
    /** Everything that was closed, in order. */
    ghost var closes: seq<Closing>

    ghost predicate Configured() {
      && 0 < slots.Length <= U64_MAX && 0 < eventCapacity <= INT_MAX && 0 <= eventWait <= INT_MAX
      && drainTimeout <= U64_MAX
    }

    /** The first failure noted is the one reported. */
    ghost predicate FailureLog()
      reads this`noted, this`firstFailure
    {
      firstFailure == FirstOf(noted) && forall k :: 0 <= k < |noted| ==> noted[k] < 0
    }

    ghost predicate NotDrained()
      reads this
    {
      && activeAtStart == 0 && inactiveBefore == 0 && forced == 0 && drainStart == 0 && drainFinish == 0
      && noted == [] && !deadlineExpired && drainDeadline == 0
    }

    /** While draining, every connection active at the start is still active or was counted. */
    ghost predicate DrainAccounts()
      reads this, slots
    {
      && listenerFd == -1 && epollFd >= 0 && !listenerReadable
      && forced == 0 && drainFinish == 0 && !deadlineExpired
      && activeAtStart == inactiveBefore + CountActive(slots[..]) && activeAtStart <= slots.Length
    }

    ghost predicate PhaseOk()
      reads this, slots
    {
      match phase
      case Prepared => NotDrained() && listenerFd == -1 && epollFd == -1 && !listenerReadable && CountActive(slots[..]) == 0
      case Accepting => NotDrained() && listenerFd >= 0 && epollFd >= 0
      case Draining => DrainAccounts() && lastReading < drainDeadline == drainStart + drainTimeout
      case Closed =>
        && listenerFd == -1 && epollFd == -1 && !listenerReadable && CountActive(slots[..]) == 0
        && activeAtStart == inactiveBefore + forced && activeAtStart <= slots.Length
        && (deadlineExpired ==> lastReading >= drainDeadline)
    }

    ghost predicate Inv()
      reads this, slots
    {
      Configured() && FailureLog() && SlotsOk(slots[..], tidy) && PhaseOk()
    }

    constructor (s: array<Slot>, capacity: nat, wait: int, timeout: nat, t: bool)
      requires 0 < s.Length <= U64_MAX && 0 < capacity <= INT_MAX && 0 <= wait <= INT_MAX && timeout <= U64_MAX
      requires forall i :: 0 <= i < s.Length ==> SlotStorageValid(s[i])
      ensures Inv() && phase == Prepared && slots == s && Clean(slots[..])
      ensures eventCapacity == capacity && eventWait == wait && drainTimeout == timeout && tidy == t
    {
      slots, eventCapacity, eventWait, drainTimeout, tidy := s, capacity, wait, timeout, t;
      phase, listenerFd, epollFd, listenerReadable, drainDeadline := Prepared, -1, -1, false, 0;
      activeAtStart, inactiveBefore, forced, drainStart, drainFinish := 0, 0, 0, 0, 0;
      firstFailure, deadlineExpired, noted, stepped, lastReading := 0, false, [], [], -1;
      readings, polls, offers, closes := [], [], [], [];
      new;
      CountZero(slots[..]);
    }

    // ---- Validation ----------------------------------------------------------

    /** Every reachable state passes. */
    method RuntimeValidate() returns (status: int)
      ensures Inv() ==> status == OK
      ensures status == OK || status == EINVAL
    {
      if slots.Length == 0 || eventCapacity == 0 || eventCapacity > INT_MAX || eventWait < 0 || eventWait > INT_MAX {
        return EINVAL;
      }
      if firstFailure > 0 { return EINVAL; }
      var completed;
      status, completed := AddChecked(inactiveBefore, forced);
      if status != OK || completed > activeAtStart { return EINVAL; }
      match phase
      case Prepared | Accepting =>
        if activeAtStart != 0 || inactiveBefore != 0 || forced != 0 || drainStart != 0 || drainFinish != 0
           || firstFailure != 0 || deadlineExpired || drainDeadline != 0 {
          return EINVAL;
        }
        if phase == Prepared {
          if listenerFd != -1 || epollFd != -1 || listenerReadable { return EINVAL; }
        } else if listenerFd < 0 || epollFd < 0 { return EINVAL; }
      case Draining =>
        if listenerFd != -1 || epollFd < 0 || listenerReadable || forced != 0 || drainFinish != 0 || deadlineExpired {
          return EINVAL;
        }
      case Closed =>
        if listenerFd != -1 || epollFd != -1 || listenerReadable || completed != activeAtStart { return EINVAL; }
    }

    /** A reachable state passes exactly when it is closed or no idle slot holds bytes. */
    method Validate() returns (status: int)
      ensures Inv() ==> (status == OK <==> phase == Closed || Clean(slots[..]))
      ensures status == OK || status == EINVAL
    {
      status := RuntimeValidate();
      if status != OK { return; }
      CountZero(slots[..]);
      for i := 0 to slots.Length
        invariant phase != Closed ==> forall k :: 0 <= k < i && !slots[k].active ==> slots[k].buffersEmpty
      {
        var s := slots[i];
        if phase == Closed && s.active { return EINVAL; }
        if s.active && phase != Accepting && phase != Draining { return EINVAL; }
        if !s.active && phase != Closed && !SlotStorageValid(s) { return EINVAL; }
        if s.moreWork && !s.active { return EINVAL; }
      }
    }

    // ---- Asking the environment ----------------------------------------------

    method ReadClock() returns (now: int)
      modifies `readings
      ensures readings == old(readings) + [now] && now <= I64_MAX
    {
      now := ClockNow();
      readings := readings + [now];
    }

    method WaitForEvents(timeout: int, ghost limit: int) returns (count: int, events: seq<nat>)
      requires 0 <= timeout <= limit && timeout <= INT_MAX
      modifies `polls
      ensures polls == old(polls) + [Poll(timeout, count, events)] && count <= eventCapacity && (count >= 0 ==> |events| == count)
      ensures old(Inv()) ==> Inv()
    {
      count, events := EpollWait(eventCapacity, timeout, limit);
      polls := polls + [Poll(timeout, count, events)];
    }

    /** Does not wait while a connection asked to be called again. */
    method WaitAccepting() returns (count: int, events: seq<nat>)
      requires Inv() && phase == Accepting
      modifies `polls
      ensures Inv() && count <= eventCapacity && (count >= 0 ==> |events| == count)
      ensures polls == old(polls) + [Poll(if HasMoreWork(slots[..]) then 0 else eventWait, count, events)]
    {
      var more := AnyMoreWork();
      count, events := WaitForEvents(if more then 0 else eventWait, eventWait);
    }

    method CloseConnection(i: nat) returns (status: int, t: Slot)
      requires i < slots.Length
      modifies `closes
      ensures closes == old(closes) + [Connection(i)]
      ensures t == slots[i].(connectionClosed := t.connectionClosed, buffersEmpty := t.buffersEmpty)
      ensures tidy ==> t.buffersEmpty
    {
      status, t := ServerClose(slots[i], tidy);
      closes := closes + [Connection(i)];
    }

    method CloseFd(fd: int) returns (errno: int)
      modifies `closes
      ensures errno >= 0 && closes == old(closes) + [Descriptor(fd)]
    {
      errno := CloseDescriptor();
      closes := closes + [Descriptor(fd)];
    }

    // ---- Slots and counters --------------------------------------------------

    method NoteFailure(native: int)
      requires FailureLog()
      modifies `firstFailure, `noted
      ensures FailureLog()
      ensures noted == old(noted) + if native == 0 then [] else [Normalised(native)]
    {
      var failure := native;
      if failure > 0 { failure := EIO; }
      if failure < 0 && firstFailure == 0 { firstFailure := failure; }
      if native != 0 { noted := noted + [failure]; }
    }

    method Increment(counter: nat) returns (next: nat)
      requires FailureLog()
      modifies `firstFailure, `noted
      ensures FailureLog() && old(noted) <= noted
      ensures counter < U64_MAX ==> next == counter + 1 && noted == old(noted)
    {
      var status;
      status, next := AddChecked(counter, 1);
      if status != OK {
        NoteFailure(status);
        next := counter;
      }
    }

    method CountActiveSlots() returns (status: int, count: nat)
      requires FailureLog()
      modifies `firstFailure, `noted
      ensures FailureLog()
      ensures slots.Length <= U64_MAX ==> status == OK && count == CountActive(slots[..]) && noted == old(noted)
    {
      count := 0;
      for i := 0 to slots.Length
        invariant count == CountActive(slots[..i]) && FailureLog() && noted == old(noted)
      {
        assert slots[..i + 1][..i] == slots[..i];
        if slots[i].active {
          var next;
          status, next := AddChecked(count, 1);
          if status != OK {
            NoteFailure(status);
            return status, 0;
          }
          count := next;
        }
      }
      assert slots[..slots.Length] == slots[..];
      status := OK;
    }

    method FindFreeSlot() returns (i: nat)
      ensures i <= slots.Length
      ensures i < slots.Length ==> !slots[i].active
      ensures forall k :: 0 <= k < i ==> slots[k].active
    {
      for k := 0 to slots.Length
        invariant forall j :: 0 <= j < k ==> slots[j].active
      {
        if !slots[k].active { return k; }
      }
      i := slots.Length;
    }

    method FindConnectionSlot(datum: nat) returns (i: nat)
      ensures i <= slots.Length
      ensures i < slots.Length ==> slots[i].active && slots[i].address == datum
      ensures forall k :: 0 <= k < i ==> !(slots[k].active && slots[k].address == datum)
    {
      for k := 0 to slots.Length
        invariant forall j :: 0 <= j < k ==> !(slots[j].active && slots[j].address == datum)
      {
        if slots[k].active && slots[k].address == datum { return k; }
      }
      i := slots.Length;
    }

    method AnyMoreWork() returns (any: bool)
      ensures any <==> HasMoreWork(slots[..])
    {
      for k := 0 to slots.Length
        invariant forall j :: 0 <= j < k ==> !(slots[j].active && slots[j].moreWork)
      {
        assert slots[k] == slots[..][k];
        if slots[k].active && slots[k].moreWork { return true; }
      }
      any := false;
    }

    method Write(i: nat, t: Slot)
      requires i < slots.Length
      modifies slots
      ensures slots[..] == old(slots[..])[i := t]
      ensures CountActive(slots[..]) == old(CountActive(slots[..])) + (if t.active then 1 else 0)
                                        - (if old(slots[i].active) then 1 else 0)
    {
      CountUpdate(slots[..], i, t);
      slots[i] := t;
      assert slots[..] == old(slots[..])[i := t];
    }

    method CloseSlot(i: nat) returns (status: int)
      requires i < slots.Length && SlotsOk(slots[..], tidy)
      modifies slots, `closes
      ensures closes == old(closes) + if old(slots[i].active && !slots[i].connectionClosed) then [Connection(i)] else []
      ensures SlotsOk(slots[..], tidy) && !slots[i].active && slots[i].address == old(slots[i]).address
      ensures forall j :: 0 <= j < slots.Length && j != i ==> slots[j] == old(slots[j])
      ensures CountActive(slots[..]) == old(CountActive(slots[..])) - if old(slots[i].active) then 1 else 0
      ensures !old(slots[i].active) ==> slots[..] == old(slots[..]) && status == OK
      ensures old(slots[i].active && slots[i].connectionClosed) ==>
                slots[i] == old(slots[i]).(active := false, moreWork := false) && status == OK
    {
      if !slots[i].active { return OK; }
      status := OK;
      assert slots[..][i] == slots[i];
      if !slots[i].connectionClosed {
        var t;
        status, t := CloseConnection(i);
        Write(i, t);
      }
      Write(i, slots[i].(active := false, moreWork := false));
    }

    method MarkInactive()
      requires FailureLog() && inactiveBefore < U64_MAX
      modifies `inactiveBefore, `firstFailure, `noted
      ensures FailureLog() && noted == old(noted)
      ensures inactiveBefore == old(inactiveBefore) + if phase == Draining then 1 else 0
    {
      if phase == Draining { inactiveBefore := Increment(inactiveBefore); }
    }

    /** A failed connection is closed and leaves the accounts. */
    method Retire(i: nat, native: int)
      requires FailureLog() && inactiveBefore < U64_MAX
      requires i < slots.Length && SlotsOk(slots[..], tidy) && slots[i].active && native != 0
      modifies slots, `inactiveBefore, `firstFailure, `noted, `closes
      ensures closes == old(closes) + if old(slots[i].connectionClosed) then [] else [Connection(i)]
      ensures FailureLog() && SlotsOk(slots[..], tidy) && !slots[i].active && slots[i].address == old(slots[i]).address
      ensures forall j :: 0 <= j < slots.Length && j != i ==> slots[j] == old(slots[j])
      ensures CountActive(slots[..]) == old(CountActive(slots[..])) - 1
      ensures inactiveBefore == old(inactiveBefore) + if phase == Draining then 1 else 0
      ensures phase == Draining ==> old(noted) + [Normalised(native)] <= noted
      ensures phase != Draining ==> noted == old(noted)
    {
      hide CountActive, SlotsOk;
      if phase == Draining { NoteFailure(native); }
      var closeStatus := CloseSlot(i);
      if closeStatus != OK && phase == Draining { NoteFailure(closeStatus); }
      MarkInactive();
    }

    /** One step of an active connection: `native` is what the step answered. */
    method StepConnection(i: nat) returns (ghost native: int)
      requires FailureLog() && inactiveBefore < U64_MAX
      requires i < slots.Length && SlotsOk(slots[..], tidy) && slots[i].active
      modifies slots, `inactiveBefore, `firstFailure, `noted, `closes
      ensures old(closes) <= closes
      ensures FailureLog() && SlotsOk(slots[..], tidy) && slots[i].address == old(slots[i]).address
      ensures forall j :: 0 <= j < slots.Length && j != i ==> slots[j] == old(slots[j])
      ensures phase == Draining ==> inactiveBefore + CountActive(slots[..]) == old(inactiveBefore + CountActive(slots[..]))
      ensures phase == Draining ==> old(noted) <= noted
      ensures phase != Draining ==> noted == old(noted) && inactiveBefore == old(inactiveBefore)
      ensures slots[i].moreWork <==> native == MORE_WORK
      ensures native == MORE_WORK || native == EAGAIN ==> slots[i].active
      ensures native == OK ==> slots[i].active == !slots[i].connectionClosed
      ensures native !in {MORE_WORK, EAGAIN, OK} ==>
                !slots[i].active && (phase == Draining ==> old(noted) + [Normalised(native)] <= noted)
    {
      assert slots[..][i] == slots[i];
      var result, t := ServerStep(slots[i], tidy);
      native := result;
      if result == MORE_WORK {
        Write(i, t.(moreWork := true));
        return;
      }
      Write(i, t.(moreWork := false));
      if result == EAGAIN { return; }
      if result != 0 {
        hide CountActive, SlotsOk;
        Retire(i, result);
        return;
      }
      if slots[i].connectionClosed {
        Write(i, slots[i].(active := false, moreWork := false));
        hide CountActive, SlotsOk;
        MarkInactive();
      }
    }

    /** Steps an active slot; `native` is what the step answered, and decides what becomes of it. */
    method AdvanceSlot(i: nat) returns (ghost native: int)
      requires Inv() && i < slots.Length && (phase == Accepting || phase == Draining)
      modifies slots, `inactiveBefore, `firstFailure, `noted, `stepped, `closes
      ensures stepped == old(stepped) + if old(slots[i].active) then [i] else []
      ensures forall j :: 0 <= j < slots.Length && j != i ==> slots[j] == old(slots[j])
      ensures Inv() && old(noted) <= noted && NoneOpened(old(slots[..]), slots[..])
      ensures phase == Accepting ==> noted == old(noted)
      ensures old(closes) <= closes
      ensures !old(slots[i].active) ==> slots[i] == old(slots[i])
      ensures old(slots[i].active) ==>
                && (slots[i].moreWork <==> native == MORE_WORK)
                && (native == MORE_WORK || native == EAGAIN ==> slots[i].active)
                && (native == OK ==> slots[i].active == !slots[i].connectionClosed)
                && (native !in {MORE_WORK, EAGAIN, OK} ==>
                      !slots[i].active && (phase == Draining ==> old(noted) + [Normalised(native)] <= noted))
    {
      native := 0;
      if !slots[i].active { return; }
      CountZero(slots[..]);
      assert slots[..][i].active;
      hide CountActive, SlotsOk;
      stepped := stepped + [i];
      native := StepConnection(i);
    }

    // ---- Descriptors and opening ---------------------------------------------

    method SetListenerReadable(readable: bool) returns (status: int)
      modifies `listenerReadable
      ensures listenerReadable == if status == OK then readable else old(listenerReadable)
    {
      status := EpollModify();
      if status != OK { return; }
      listenerReadable := readable;
    }

    method CloseListener()
      requires FailureLog()
      modifies `listenerFd, `listenerReadable, `firstFailure, `noted, `closes
      ensures closes == old(closes) + if old(listenerFd) >= 0 then [Descriptor(old(listenerFd))] else []
      ensures FailureLog() && old(noted) <= noted && listenerFd == -1 && !listenerReadable
    {
      var fd := listenerFd;
      listenerFd, listenerReadable := -1, false;
      if fd >= 0 {
        var errno := CloseFd(fd);
        if errno != 0 { NoteFailure(0 - errno); }
      }
    }

    method CloseEpoll()
      requires FailureLog()
      modifies `epollFd, `firstFailure, `noted, `closes
      ensures closes == old(closes) + if old(epollFd) >= 0 then [Descriptor(old(epollFd))] else []
      ensures FailureLog() && old(noted) <= noted && epollFd == -1
    {
      var fd := epollFd;
      epollFd := -1;
      if fd >= 0 {
        var errno := CloseFd(fd);
        if errno != 0 { NoteFailure(0 - errno); }
      }
    }

    /** Opens a prepared host: listener first, then the event loop, whose failure closes the listener.
        `answers` is what the two answered, as far as they were asked. */
    method Open(addressLength: nat) returns (status: int, ghost answers: seq<int>)
      requires Inv()
      modifies `listenerFd, `epollFd, `listenerReadable, `phase, `closes
      ensures Inv()
      ensures status == OK ==> old(phase) == Prepared && phase == Accepting && listenerReadable
      ensures status != OK ==> phase == old(phase) && listenerFd == old(listenerFd) && epollFd == old(epollFd)
                               && listenerReadable == old(listenerReadable)
      ensures old(phase) != Prepared || addressLength == 0 || !Clean(slots[..]) ==> answers == [] && closes == old(closes)
      ensures old(phase) == Prepared && addressLength > 0 && Clean(slots[..]) ==>
                && (|answers| == 1 || (|answers| == 2 && answers[0] == OK)) && status == answers[|answers| - 1]
                && (status == OK ==> |answers| == 2) && old(closes) <= closes
                && |closes| == |old(closes)| + if |answers| == 2 && status != OK then 1 else 0
    {
      answers := [];
      status := Validate();
      if status != OK || phase != Prepared || addressLength == 0 { return EINVAL, answers; }
      var listener, epoll;
      status, listener := ServerOpen();
      answers := [status];
      if status != OK { return; }
      status, epoll := ServerOpen();
      answers := [OK, status];
      if status != OK {
        var errno := CloseFd(listener);
        return;
      }
      listenerFd, epollFd, listenerReadable, phase := listener, epoll, true, Accepting;
    }

    // ---- Accepting -----------------------------------------------------------

    /** Accepts until the listener has nothing more, an accept fails or every slot is taken; a full
        host stops listening.  Connections already open are not touched. */
    method AcceptReady() returns (status: int)
      requires Inv() && phase == Accepting
      modifies slots, `listenerReadable, `offers
      ensures Inv() && old(offers) <= offers
      ensures OpenKept(old(slots[..]), slots[..])
      ensures AcceptsEnd(offers[|old(offers)|..], status)
      ensures CountActive(slots[..]) == old(CountActive(slots[..])) + Taken(offers[|old(offers)|..])
      ensures status == OK && CountActive(slots[..]) == slots.Length ==> !listenerReadable
      ensures status == OK && CountActive(slots[..]) < slots.Length ==> listenerReadable == old(listenerReadable)
    {
      hide CountActive, SlotsOk, Taken, AllTaken, OpenKept;
      ghost var start, before := offers, slots[..];
      NoneTaken(offers[|start|..]);
      KeptOpen(before, before, before, slots.Length);
      while true
        invariant Inv() && start <= offers && listenerReadable == old(listenerReadable)
        invariant AllTaken(offers[|start|..])
        invariant CountActive(slots[..]) == old(CountActive(slots[..])) + Taken(offers[|start|..])
        invariant OpenKept(before, slots[..])
        decreases slots.Length - CountActive(slots[..])
      {
        var free := FindFreeSlot();
        if free == slots.Length {
          AllActive(slots[..]);
          TakenPrefix(offers[|start|..]);
          if listenerReadable {
            status := SetListenerReadable(false);
            return;
          }
          return OK;
        }
        ghost var asked, was := offers, slots[..];
        var accepted;
        status, accepted := AcceptInto(free);
        KeptOpen(before, was, slots[..], free);
        assert offers[|start|..] == asked[|start|..] + [offers[|asked|]];
        assert offers[|start|..][..|asked| - |start|] == asked[|start|..];
        TakenMore(asked[|start|..], offers[|asked|]);
        if !accepted { return; }
      }
    }

    /** Accepting goes on after every connection, and ends with none left, a failure or no slot left. */
    ghost predicate AcceptsEnd(answers: seq<int>, status: int)
      reads this, slots
    {
      && (answers != [] ==> AllTaken(answers[..|answers| - 1]))
      && (answers != [] && answers[|answers| - 1] != OK ==>
            status == (if answers[|answers| - 1] == EAGAIN then OK else answers[|answers| - 1]))
      && (answers == [] || answers[|answers| - 1] == OK ==> CountActive(slots[..]) == slots.Length)
    }

    /** One accept.  Without a connection the slot stays idle. */
    method AcceptInto(i: nat) returns (status: int, accepted: bool)
      requires Inv() && phase == Accepting && i < slots.Length && !slots[i].active
      modifies slots, `offers
      ensures Inv() && slots[i].active == accepted
      ensures forall j :: 0 <= j < slots.Length && j != i ==> slots[j] == old(slots[j])
      ensures CountActive(slots[..]) == old(CountActive(slots[..])) + if accepted then 1 else 0
      ensures !accepted ==> CountActive(slots[..]) < slots.Length
      ensures |offers| == |old(offers)| + 1 && old(offers) <= offers && (accepted <==> offers[|old(offers)|] == OK)
      ensures status == if offers[|old(offers)|] == EAGAIN then OK else offers[|old(offers)|]
    {
      var native, fd, t := ServerAccept(slots[i], tidy);
      assert slots[..][i] == slots[i];
      accepted := native == 0 && fd >= 0;
      offers := offers + [if accepted then OK else if native != 0 then native else EIO];
      if accepted {
        Write(i, t.(active := true, moreWork := false));
        return OK, true;
      }
      Write(i, t);
      NotFull(slots[..], i);
      status := if native == EAGAIN then OK else if native != 0 then native else EIO;
    }

    /** Handles one event of a connection; a stale one is ignored. */
    method Serve(event: nat, ghost before: seq<Slot>, ghost start: seq<nat>, ghost done: seq<nat>)
      requires Inv() && (phase == Accepting || phase == Draining)
      requires NoneOpened(before, slots[..]) && start <= stepped
      requires Deactivated(before, slots[..], stepped[|start|..]) && AllServed(before, done, stepped[|start|..])
      modifies slots, `inactiveBefore, `firstFailure, `noted, `stepped, `closes
      ensures Inv() && old(noted) <= noted && NoneOpened(before, slots[..]) && old(stepped) <= stepped
      ensures phase == Accepting ==> noted == old(noted)
      ensures Deactivated(before, slots[..], stepped[|start|..]) && AllServed(before, done + [event], stepped[|start|..])
    {
      ghost var was, sofar := slots[..], stepped[|start|..];
      var slot := FindConnectionSlot(event);
      ghost var native;
      if slot < slots.Length { native := AdvanceSlot(slot); }
      assert stepped[|start|..] == sofar + if slot < slots.Length then [slot] else [];
      ServedMore(before, was, slots[..], sofar, stepped[|start|..], done, event, slot);
    }

    /** Handles a batch of events: every slot that one of them is for is stepped. */
    method DispatchAccepting(events: seq<nat>) returns (listenerEvent: bool)
      requires Inv() && phase == Accepting
      modifies slots, `inactiveBefore, `firstFailure, `noted, `stepped, `closes
      ensures Inv() && noted == old(noted) && NoneOpened(old(slots[..]), slots[..]) && old(stepped) <= stepped
      ensures Deactivated(old(slots[..]), slots[..], stepped[|old(stepped)|..])
      ensures AllServed(old(slots[..]), Others(events, listenerFd), stepped[|old(stepped)|..])
      ensures listenerEvent <==> listenerFd in events
    {
      hide CountActive, SlotsOk, Inv;
      listenerEvent := false;
      ghost var before, start := slots[..], stepped;
      NothingServed(before, stepped[|start|..]);
      for i := 0 to |events|
        invariant Inv() && noted == old(noted) && NoneOpened(before, slots[..]) && start <= stepped
        invariant Deactivated(before, slots[..], stepped[|start|..])
        invariant AllServed(before, Others(events[..i], listenerFd), stepped[|start|..])
        invariant listenerEvent <==> listenerFd in events[..i]
      {
        assert events[..i + 1] == events[..i] + [events[i]] && events[..i + 1][..i] == events[..i];
        if events[i] == listenerFd {
          listenerEvent := true;
        } else {
          Serve(events[i], before, start, Others(events[..i], listenerFd));
        }
      }
      assert events[..|events|] == events;
    }

    /** Advances every slot that asked to be called again, once each and in order. */
    method AdvanceMoreWork()
      requires Inv() && (phase == Accepting || phase == Draining)
      modifies slots, `inactiveBefore, `firstFailure, `noted, `stepped, `closes
      ensures Inv() && old(noted) <= noted && NoneOpened(old(slots[..]), slots[..])
      ensures phase == Accepting ==> noted == old(noted)
      ensures stepped == old(stepped) + Pending(old(slots[..]))
      ensures Deactivated(old(slots[..]), slots[..], Pending(old(slots[..])))
    {
      ghost var before := slots[..];
      for i := 0 to slots.Length
        invariant Inv() && old(noted) <= noted && NoneOpened(before, slots[..])
        invariant phase == Accepting ==> noted == old(noted)
        invariant stepped == old(stepped) + Pending(before[..i])
        invariant forall k :: i <= k < slots.Length ==> slots[k] == before[k]
        invariant Deactivated(before, slots[..], Pending(before[..i]))
      {
        assert before[..i + 1][..i] == before[..i];
        if slots[i].active && slots[i].moreWork {
          ghost var native := AdvanceSlot(i);
        }
      }
      assert before[..slots.Length] == before;
    }

    /** Every slot that an event is for is stepped, and an event of a readable listener is answered by
        accepting until no connection is left, an accept fails or no slot is left. */
    method ServeAccepting(events: seq<nat>) returns (status: int)
      requires Inv() && phase == Accepting
      modifies slots, `inactiveBefore, `firstFailure, `noted, `stepped, `closes, `listenerReadable, `offers
      ensures Inv() && noted == old(noted) && old(offers) <= offers && old(stepped) <= stepped
      ensures AllServed(old(slots[..]), Others(events, listenerFd), stepped[|old(stepped)|..])
      ensures listenerFd !in events || !old(listenerReadable) ==>
                status == OK && offers == old(offers) && listenerReadable == old(listenerReadable)
      ensures listenerFd in events && old(listenerReadable) ==> AcceptsEnd(offers[|old(offers)|..], status)
      ensures status == OK && listenerFd in events && listenerReadable ==>
                offers != old(offers) && offers[|offers| - 1] == EAGAIN
    {
      hide CountActive, SlotsOk, AllServed, Deactivated, Others, NoneOpened, AllTaken, Taken;
      ghost var taken := offers;
      var listenerEvent := DispatchAccepting(events);
      if listenerEvent && listenerReadable {
        status := AcceptReady();
        NotAllActive(slots[..]);
        return;
      }
      status := OK;
    }

    /** The listener is armed again when a slot is free. */
    method Rearm() returns (status: int)
      requires Inv() && phase == Accepting
      modifies `listenerReadable
      ensures Inv()
      ensures old(listenerReadable) ==> status == OK && listenerReadable
      ensures status == OK && !old(listenerReadable) ==>
                (listenerReadable <==> exists k :: 0 <= k < slots.Length && !slots[k].active)
      ensures status != OK ==> unchanged(this)
    {
      status := OK;
      if !listenerReadable {
        var free := FindFreeSlot();
        if free < slots.Length { status := SetListenerReadable(true); }
      }
    }

    /** One turn while accepting: pending slots are stepped, the listener is armed again when a slot is
        free, and what the wait delivers is served. */
    method AcceptingStep() returns (status: int)
      requires Inv() && phase == Accepting
      modifies slots, `inactiveBefore, `firstFailure, `noted, `stepped, `closes, `listenerReadable, `polls, `offers
      ensures Inv() && noted == old(noted) && old(offers) <= offers
      ensures old(stepped) + Pending(old(slots[..])) <= stepped
      ensures polls == old(polls) ==> status != OK
      ensures polls == old(polls) || (|polls| == |old(polls)| + 1 && old(polls) <= polls)
      ensures polls != old(polls) ==>
                var poll := polls[|old(polls)|];
                && (poll.count < 0 ==> status == poll.count && offers == old(offers))
                && (poll.count >= 0 ==> AllServed(old(slots[..]), Others(poll.events, listenerFd), stepped[|old(stepped)|..]))
                && (listenerFd !in poll.events ==> offers == old(offers))
                && (status == OK && listenerFd in poll.events && listenerReadable ==>
                      offers != old(offers) && offers[|offers| - 1] == EAGAIN)
    {
      hide Inv, Pending, AllServed, Deactivated, Others, NoneOpened, AcceptsEnd;
      ghost var start := stepped;
      AdvanceMoreWork();
      ghost var middle := slots[..];
      status := Rearm();
      if status != OK { return; }
      var count, events := WaitAccepting();
      if count < 0 { return count; }
      ghost var pending := stepped;
      status := ServeAccepting(events);
      assert stepped[|start|..] == pending[|start|..] + stepped[|pending|..];
      ServedThrough(old(slots[..]), middle, Others(events, listenerFd), pending[|start|..], stepped[|pending|..]);
    }

    // ---- Draining ------------------------------------------------------------

    /** Closes every active connection and counts it as forced. */
    method ForceCloseActive()
      requires FailureLog() && SlotsOk(slots[..], tidy) && forced == 0 && slots.Length <= U64_MAX
      modifies slots, `forced, `firstFailure, `noted, `closes
      ensures old(closes) <= closes && ClosesOpen(old(slots[..]), closes[|old(closes)|..])
      ensures FailureLog() && SlotsOk(slots[..], tidy) && old(noted) <= noted
      ensures forced == old(CountActive(slots[..])) && CountActive(slots[..]) == 0
      ensures NoneOpened(old(slots[..]), slots[..])
    {
      hide CountActive, SlotsOk;
      ghost var start, before := closes, slots[..];
      for i := 0 to slots.Length
        invariant FailureLog() && SlotsOk(slots[..], tidy) && old(noted) <= noted
        invariant forced + CountActive(slots[..]) == old(CountActive(slots[..]))
        invariant forall k :: 0 <= k < i ==> !slots[k].active
        invariant NoneOpened(old(slots[..]), slots[..])
        invariant start <= closes && ClosesOpen(before[..i], closes[|start|..])
        invariant forall k :: i <= k < slots.Length ==> slots[k] == before[k]
      {
        assert before[..i + 1] == before[..i] + [before[i]];
        ghost var sofar := closes;
        if slots[i].active {
          CountZero(slots[..]);
          assert slots[..][i].active;
          var status := CloseSlot(i);
          if status != OK { NoteFailure(status); }
          forced := Increment(forced);
        }
        assert closes[|start|..] == sofar[|start|..] + closes[|sofar|..];
      }
      assert before[..slots.Length] == before;
      CountZero(slots[..]);
    }

    /** Ends a drain.  Forcing is left out only when nothing is active. */
    method FinishDrain(expired: bool, force: bool, capture: bool) returns (status: int)
      requires Configured() && FailureLog() && SlotsOk(slots[..], tidy) && phase == Draining && DrainAccounts()
      requires !force ==> CountActive(slots[..]) == 0
      requires expired ==> lastReading >= drainDeadline
      modifies slots, `deadlineExpired, `forced, `firstFailure, `noted, `epollFd, `drainFinish, `phase, `closes
      ensures Inv() && phase == Closed && status == firstFailure
      ensures old(closes) < closes && closes[|closes| - 1] == Descriptor(old(epollFd))
      ensures force ==> ClosesOpen(old(slots[..]), closes[|old(closes)|..])
      ensures forced == old(CountActive(slots[..])) && deadlineExpired == expired && (!capture ==> drainFinish == 0)
      ensures old(noted) <= noted && NoneOpened(old(slots[..]), slots[..]) && (!force ==> unchanged(slots))
    {
      hide CountActive, SlotsOk, ClosesOpen, NoneOpened;
      ghost var before, start := slots[..], closes;
      NoneOpenedHere(before);
      if expired { deadlineExpired := true; }
      if force { ForceCloseActive(); }
      ghost var sofar := closes;
      CloseEpoll();
      if force {
        assert closes[|start|..] == sofar[|start|..] + closes[|sofar|..];
        ClosesMore(before, sofar[|start|..], closes[|sofar|..]);
      }
      if capture {
        var now := ClockNow();
        if now < 0 { NoteFailure(now); } else { drainFinish := now; }
      }
      phase := Closed;
      status := firstFailure;
    }

    /** Stops accepting and counts the participants. */
    method EnterDraining() returns (status: int, active: nat)
      requires Configured() && FailureLog() && SlotsOk(slots[..], tidy) && phase == Accepting && epollFd >= 0
      requires activeAtStart == 0 && inactiveBefore == 0 && forced == 0 && drainFinish == 0 && !deadlineExpired
      modifies `phase, `listenerFd, `listenerReadable, `firstFailure, `noted, `activeAtStart, `closes
      ensures closes == old(closes) + if old(listenerFd) >= 0 then [Descriptor(old(listenerFd))] else []
      ensures FailureLog() && old(noted) <= noted && phase == Draining && DrainAccounts()
      ensures status == OK && active == activeAtStart == CountActive(slots[..])
    {
      phase := Draining;
      CloseListener();
      status, active := CountActiveSlots();
      activeAtStart := active;
    }

    /** Fixes the deadline, or ends the drain at once: without a clock or a deadline that fits, with
        no time allowed, or with nothing to wait for. */
    method StartClock(active: nat) returns (status: int, ghost now: int)
      requires Configured() && FailureLog() && SlotsOk(slots[..], tidy) && phase == Draining && DrainAccounts()
      requires active == CountActive(slots[..]) && inactiveBefore == 0
      modifies slots, `drainStart, `lastReading, `drainDeadline, `readings,
               `deadlineExpired, `forced, `firstFailure, `noted, `epollFd, `drainFinish, `phase, `closes
      ensures Inv() && old(noted) <= noted && NoneOpened(old(slots[..]), slots[..]) && readings == old(readings) + [now]
      ensures phase == Draining ==> status == OK && unchanged(slots)
      ensures phase != Draining ==> phase == Closed && status == firstFailure
      ensures phase == Draining <==> 0 <= now && now + drainTimeout <= I64_MAX && drainTimeout != 0 && active != 0
      ensures phase == Draining ==> drainStart == now && drainDeadline == now + drainTimeout
      ensures phase == Closed ==>
                && (forced == 0 || forced == active)
                && (deadlineExpired <==> 0 <= now && now + drainTimeout <= I64_MAX && drainTimeout == 0)
                && (0 <= now && now + drainTimeout <= I64_MAX && drainTimeout != 0 ==> forced == 0)
                && (now < 0 ==> now in noted) && (now >= 0 && now + drainTimeout > I64_MAX ==> EOVERFLOW in noted)
    {
      hide CountActive, SlotsOk;
      var reading := ReadClock();
      now := reading;
      if reading < 0 {
        NoteFailure(reading);
        NotedIs(reading);
        status := FinishDrain(false, true, false);
        return;
      }
      drainStart := reading;
      lastReading := reading;
      var deadline;
      status, deadline := AddChecked(reading, drainTimeout);
      if status != OK || deadline > I64_MAX {
        NoteFailure(if status != OK then status else EOVERFLOW);
        NotedIs(EOVERFLOW);
        status := FinishDrain(false, true, true);
        return;
      }
      drainDeadline := deadline;
      if drainTimeout == 0 {
        status := FinishDrain(true, true, true);
        return;
      }
      if active == 0 {
        status := FinishDrain(false, false, true);
        return;
      }
      status := OK;
    }

    lemma NotedIs(failure: int)
      requires noted != [] && noted[|noted| - 1] == failure
      ensures failure in noted
    {
    }

    /** Starting a drain fixes the participants and the deadline once. */
    method BeginDrain() returns (status: int)
      requires Inv()
      modifies this, slots
      ensures old(readings) <= readings && unchanged(`polls) && unchanged(`offers) && unchanged(`stepped)
      ensures Inv() && old(noted) <= noted && NoneOpened(old(slots[..]), slots[..])
      ensures old(phase) != Accepting || !old(Clean(slots[..])) ==> unchanged(this) && unchanged(slots)
      ensures old(phase) != Accepting || !old(Clean(slots[..])) ==>
                (status == OK <==> phase == Draining && Clean(slots[..])) && (status == OK || status == EINVAL)
      ensures old(phase) == Accepting && old(Clean(slots[..])) ==>
                && (phase == Draining || phase == Closed)
                && activeAtStart == old(CountActive(slots[..])) && inactiveBefore == 0
                && status == if phase == Draining then OK else firstFailure
      ensures old(phase) == Accepting && old(Clean(slots[..])) ==>
                && old(readings) <= readings && |readings| == |old(readings)| + 1
                && var now := readings[|old(readings)|];
                && (phase == Draining <==> 0 <= now && now + drainTimeout <= I64_MAX && drainTimeout != 0 && activeAtStart != 0)
                && (phase == Draining ==> drainStart == now && drainDeadline == now + drainTimeout)
                && (phase == Closed ==> (deadlineExpired <==> 0 <= now && now + drainTimeout <= I64_MAX && drainTimeout == 0))
                && (phase == Closed && 0 <= now && now + drainTimeout <= I64_MAX && drainTimeout != 0 ==> forced == 0)
    {
      status := Validate();
      if status != OK { return; }
      if phase == Draining { return OK; }
      if phase != Accepting { return EINVAL; }
      hide CountActive, SlotsOk;
      var active;
      status, active := EnterDraining();
      ghost var now;
      status, now := StartClock(active);
    }

    /** Looks at the clock: before the deadline nothing happens, from the deadline on every active
        connection is forced and the drain counts as expired, and a failing clock forces as well. */
    method DrainNowOrEnforce() returns (status: int, remaining: nat, ghost now: int)
      requires Inv() && phase == Draining
      modifies slots, `deadlineExpired, `forced, `firstFailure, `noted, `epollFd, `drainFinish, `phase, `lastReading, `readings,
               `closes
      ensures phase != Draining ==> old(closes) <= closes && ClosesOpen(old(slots[..]), closes[|old(closes)|..])
      ensures Inv() && old(noted) <= noted && NoneOpened(old(slots[..]), slots[..]) && readings == old(readings) + [now]
      ensures phase == Draining <==> 0 <= now < drainDeadline
      ensures phase == Draining ==>
                && status == OK && remaining == (if drainDeadline - now > INT_MAX then INT_MAX else drainDeadline - now)
                && lastReading == now && slots[..] == old(slots[..]) && noted == old(noted)
      ensures phase != Draining ==>
                && phase == Closed && status == firstFailure && forced == old(CountActive(slots[..]))
                && (deadlineExpired <==> now >= drainDeadline) && (now < 0 ==> now in noted)
    {
      hide CountActive, SlotsOk;
      var reading := ReadClock();
      now := reading;
      if reading < 0 {
        NoteFailure(reading);
        NotedIs(reading);
        status := FinishDrain(false, true, false);
        return status, 0, now;
      }
      lastReading := reading;
      remaining := DeadlineRemaining(drainDeadline, reading);
      if remaining == 0 {
        status := FinishDrain(true, true, true);
        return;
      }
      status := OK;
    }

    /** Why a drain may end: the last clock reading is at or past the deadline, and then it counts as
        expired; or the clock or a wait failed, and that is noted.  Otherwise it ends only by itself,
        with nothing forced. */
    ghost predicate Verdict(clock: seq<int>, waits: seq<Poll>)
      reads this
    {
      && (phase == Draining ==> InTime(clock, drainDeadline) && Answered(waits))
      && (phase == Closed ==> (deadlineExpired <==> clock != [] && clock[|clock| - 1] >= drainDeadline))
      && (phase == Closed && InTime(clock, drainDeadline) && Answered(waits) ==> forced == 0)
      && (forall k :: 0 <= k < |clock| && clock[k] < 0 ==> clock[k] in noted)
      && (forall k :: 0 <= k < |waits| && waits[k].count < 0 ==> waits[k].count in noted)
    }

    /** Turns that went well before the last one do not change its verdict. */
    lemma VerdictJoins(clock: seq<int>, clock': seq<int>, waits: seq<Poll>, waits': seq<Poll>)
      requires InTime(clock, drainDeadline) && Answered(waits) && clock' != [] && Verdict(clock', waits')
      ensures Verdict(clock + clock', waits + waits')
    {
      assert forall k :: |clock| <= k < |clock + clock'| ==> (clock + clock')[k] == clock'[k - |clock|];
      assert forall k :: 0 <= k < |clock'| ==> clock'[k] == (clock + clock')[|clock| + k];
      assert forall k :: |waits| <= k < |waits + waits'| ==> (waits + waits')[k] == waits'[k - |waits|];
      assert forall k :: 0 <= k < |waits'| ==> waits'[k] == (waits + waits')[|waits| + k];
    }

    /** Handles a batch of events: every slot that one of them is for is stepped. */
    method DispatchDraining(events: seq<nat>)
      requires Inv() && phase == Draining
      modifies slots, `inactiveBefore, `firstFailure, `noted, `stepped, `closes
      ensures old(stepped) <= stepped
      ensures Inv() && old(noted) <= noted && NoneOpened(old(slots[..]), slots[..])
      ensures AllServed(old(slots[..]), events, stepped[|old(stepped)|..])
    {
      hide CountActive, SlotsOk, Inv;
      ghost var before, start := slots[..], stepped;
      NothingServed(before, stepped[|start|..]);
      for i := 0 to |events|
        invariant start <= stepped
        invariant Inv() && old(noted) <= noted && NoneOpened(before, slots[..])
        invariant Deactivated(before, slots[..], stepped[|start|..]) && AllServed(before, events[..i], stepped[|start|..])
      {
        assert events[..i + 1] == events[..i] + [events[i]];
        Serve(events[i], before, start, events[..i]);
      }
      assert events[..|events|] == events;
    }

    /** Finishes a drain with no participant left. */
    method FinishIfIdle() returns (status: int)
      requires Inv() && phase == Draining
      modifies slots, `deadlineExpired, `forced, `firstFailure, `noted, `epollFd, `drainFinish, `phase, `closes
      ensures Inv() && old(noted) <= noted && unchanged(slots) && slots[..] == old(slots[..])
      ensures phase == Draining ==> CountActive(slots[..]) > 0
      ensures if old(CountActive(slots[..])) == 0 then phase == Closed && status == firstFailure && forced == 0 && !deadlineExpired
              else phase == Draining && status == OK && noted == old(noted)
    {
      var active;
      status, active := CountActiveSlots();
      if active == 0 { status := FinishDrain(false, false, true); }
    }

    /** Waits no longer than the deadline allows and serves what became ready. */
    method WaitAndServe(remaining: nat) returns (status: int, ghost poll: Poll)
      requires Inv() && phase == Draining && 0 < remaining <= drainDeadline - lastReading && remaining <= INT_MAX
      modifies slots, `deadlineExpired, `inactiveBefore, `forced, `firstFailure, `noted, `stepped, `closes,
               `epollFd, `drainFinish, `phase, `polls
      ensures old(stepped) <= stepped && polls == old(polls) + [poll]
      ensures poll.timeout == if HasMoreWork(old(slots[..])) then 0 else if remaining < eventWait then remaining else eventWait
      ensures Inv() && old(noted) <= noted && NoneOpened(old(slots[..]), slots[..])
      ensures phase == Draining ==> status == OK && CountActive(slots[..]) > 0 && poll.count >= 0
      ensures poll.count >= 0 ==> AllServed(old(slots[..]), poll.events, stepped[|old(stepped)|..])
      ensures phase != Draining ==>
                && phase == Closed && status == firstFailure && !deadlineExpired
                && (poll.count >= 0 ==> forced == 0) && (poll.count < 0 ==> poll.count in noted)
    {
      hide CountActive, SlotsOk, AllServed;
      var timeout := eventWait;
      var more := AnyMoreWork();
      if more { timeout := 0; } else if remaining < eventWait { timeout := remaining; }
      var count, events := WaitForEvents(timeout, drainDeadline - lastReading);
      poll := Poll(timeout, count, events);
      if count < 0 {
        NoteFailure(count);
        NotedIs(count);
        status := FinishDrain(false, true, true);
        return;
      }
      DispatchDraining(events);
      status := FinishIfIdle();
    }

    /** The first part of a draining turn: pending slots are stepped, if there is time. */
    method DrainPending() returns (status: int, ghost now: int)
      requires Inv() && phase == Draining
      modifies slots, `deadlineExpired, `inactiveBefore, `forced, `firstFailure, `noted, `stepped, `closes,
               `epollFd, `drainFinish, `phase, `lastReading, `readings
      ensures phase == Draining ==> stepped == old(stepped) + Pending(old(slots[..]))
      ensures Inv() && old(noted) <= noted && NoneOpened(old(slots[..]), slots[..])
      ensures phase == Draining ==> status == OK && CountActive(slots[..]) > 0
      ensures phase != Draining ==> phase == Closed && status == firstFailure
      ensures readings == old(readings) + [now] && Verdict([now], [])
    {
      hide Inv, CountActive, SlotsOk, AllServed, Deactivated, Pending, Verdict, InTime, Answered, NoneOpened;
      var remaining;
      status, remaining, now := DrainNowOrEnforce();
      ClockVerdict(now);
      if status != OK || phase == Closed { return; }
      ghost var was := slots[..];
      AdvanceMoreWork();
      OpenedThrough(old(slots[..]), was, slots[..]);
      status := FinishIfIdle();
      QuietVerdict([now], []);
    }

    /** The second part: what becomes ready before the deadline is served. */
    method DrainReady() returns (status: int, ghost now: int)
      requires Inv() && phase == Draining && CountActive(slots[..]) > 0
      modifies slots, `deadlineExpired, `inactiveBefore, `forced, `firstFailure, `noted, `stepped, `closes,
               `epollFd, `drainFinish, `phase, `lastReading, `readings, `polls
      ensures old(stepped) <= stepped
      ensures Inv() && old(noted) <= noted && NoneOpened(old(slots[..]), slots[..])
      ensures phase == Draining ==> status == OK && CountActive(slots[..]) > 0
      ensures phase != Draining ==> phase == Closed && status == firstFailure
      ensures readings == old(readings) + [now] && old(polls) <= polls && Verdict([now], polls[|old(polls)|..])
      ensures phase == Draining ==>
                && |polls| == |old(polls)| + 1
                && AllServed(old(slots[..]), polls[|old(polls)|].events, stepped[|old(stepped)|..])
    {
      hide Inv, CountActive, SlotsOk, AllServed, Deactivated, Pending, Verdict, InTime, Answered, NoneOpened;
      ghost var waits := polls;
      assert waits[|waits|..] == [];
      var remaining;
      status, remaining, now := DrainNowOrEnforce();
      ClockVerdict(now);
      if status != OK || phase == Closed { return; }
      ghost var was, poll := slots[..], Poll(0, 0, []);
      status, poll := WaitAndServe(remaining);
      OpenedThrough(old(slots[..]), was, slots[..]);
      assert polls[|waits|..] == [poll];
      PollVerdict([now], poll);
    }

    /** One turn of a drain.  Before the deadline, and while the clock and the waits answer, it forces
        nothing, and goes on while a participant is left. */
    method DrainingStep() returns (status: int)
      requires Inv() && phase == Draining
      modifies slots, `deadlineExpired, `inactiveBefore, `forced, `firstFailure, `noted, `stepped, `closes,
               `epollFd, `drainFinish, `phase, `lastReading, `readings, `polls
      ensures phase == Draining ==> old(stepped) + Pending(old(slots[..])) <= stepped
      ensures Inv() && old(noted) <= noted && NoneOpened(old(slots[..]), slots[..])
      ensures phase == Draining ==> status == OK && CountActive(slots[..]) > 0
      ensures phase != Draining ==> phase == Closed && status == firstFailure
      ensures old(readings) < readings && old(polls) <= polls
      ensures Verdict(readings[|old(readings)|..], polls[|old(polls)|..])
    {
      hide Inv, CountActive, SlotsOk, AllServed, Deactivated, Pending, Verdict, InTime, Answered, NoneOpened;
      ghost var clock, waits := readings, polls;
      ghost var first, second, third;
      status, first := DrainPending();
      assert readings[|clock|..] == [first] && polls[|waits|..] == [];
      if status != OK || phase == Closed { return; }
      DrainingCalm([first], []);
      ghost var was := slots[..];
      status, second := DrainReady();
      OpenedThrough(old(slots[..]), was, slots[..]);
      ghost var waited := polls[|waits|..];
      VerdictJoins([first], [second], [], waited);
      assert readings[|clock|..] == [first] + [second] && [] + waited == waited;
      if status != OK || phase == Closed { return; }
      DrainingCalm([first] + [second], waited);
      was := slots[..];
      var remaining;
      status, remaining, third := DrainNowOrEnforce();
      OpenedThrough(old(slots[..]), was, slots[..]);
      ClockVerdict(third);
      VerdictJoins([first] + [second], [third], waited, []);
      assert readings[|clock|..] == [first] + [second] + [third] && waited + [] == waited;
    }

    lemma DrainingCalm(clock: seq<int>, waits: seq<Poll>)
      requires phase == Draining && Verdict(clock, waits)
      ensures InTime(clock, drainDeadline) && Answered(waits)
    {
    }

    lemma ClockVerdict(now: int)
      requires phase == Draining || phase == Closed
      requires phase == Draining <==> 0 <= now < drainDeadline
      requires phase == Closed ==> (deadlineExpired <==> now >= drainDeadline) && (now < 0 ==> now in noted)
      ensures Verdict([now], []) && (phase == Draining ==> InTime([now], drainDeadline) && Answered([]))
    {
      assert [now][0] == now;
    }

    lemma QuietVerdict(clock: seq<int>, waits: seq<Poll>)
      requires InTime(clock, drainDeadline) && Answered(waits)
      requires phase == Closed ==> forced == 0 && !deadlineExpired
      ensures Verdict(clock, waits)
    {
    }

    lemma PollVerdict(clock: seq<int>, poll: Poll)
      requires InTime(clock, drainDeadline) && (phase == Draining || phase == Closed)
      requires phase == Draining ==> poll.count >= 0
      requires phase == Closed ==>
                 !deadlineExpired && (poll.count >= 0 ==> forced == 0) && (poll.count < 0 ==> poll.count in noted)
      ensures Verdict(clock, [poll])
      ensures phase == Draining ==> Answered([poll])
    {
      assert phase == Closed && Answered([poll]) ==> [poll][0].count >= 0;
      assert [poll][0] == poll;
    }

    // ---- Step, run and close -------------------------------------------------

    /** One turn of the event loop, whatever the clock, the poll and the connections answer. */
    method Step() returns (status: int)
      requires Inv()
      modifies slots, `deadlineExpired, `inactiveBefore, `forced, `firstFailure, `noted, `stepped, `closes,
               `epollFd, `drainFinish, `phase, `lastReading, `listenerReadable, `readings, `polls, `offers
      ensures Inv() && old(noted) <= noted && old(readings) <= readings && old(polls) <= polls
      ensures old(phase) == Draining ==>
                old(readings) < readings && Verdict(readings[|old(readings)|..], polls[|old(polls)|..])
      ensures old(phase) == Accepting ==> phase == Accepting && noted == old(noted)
      ensures phase == Accepting || phase == Draining ==> old(stepped) + Pending(old(slots[..])) <= stepped
      ensures old(phase) == Draining ==> NoneOpened(old(slots[..]), slots[..])
      ensures old(phase) == Draining && phase == Draining ==> status == OK
      ensures old(phase) == Draining && phase != Draining ==> phase == Closed && status == firstFailure
      ensures old(phase) == Prepared || old(phase) == Closed ==> status == EINVAL && unchanged(this) && unchanged(slots)
    {
      status := RuntimeValidate();
      if status != OK { assert false; }
      if phase == Accepting {
        status := AcceptingStep();
        return;
      }
      if phase == Draining {
        status := DrainingStep();
        return;
      }
      status := EINVAL;
    }

    method CloseAfterFailure(failure: int) returns (status: int)
      requires Inv() && (phase == Accepting || phase == Draining) && failure != 0
      modifies this, slots
      ensures unchanged(`readings) && unchanged(`polls) && unchanged(`offers) && unchanged(`stepped)
      ensures Inv() && phase == Closed && old(noted) <= noted && status == firstFailure < 0
      ensures old(phase) == Accepting ==> firstFailure == Normalised(failure) && activeAtStart == forced == old(CountActive(slots[..]))
    {
      NoteFailure(failure);
      if phase == Accepting {
        var active;
        status, active := EnterDraining();
        if status != OK { assert false; }
      }
      status := FinishDrain(false, true, false);
    }

    /** Runs the loop for at most `budget` turns.  It ends closed, reporting the first failure
        noted, unless an idle slot held bytes when a stop was requested. */
    method Run(budget: nat) returns (status: int, ended: bool)
      requires Inv()
      modifies this, slots
      ensures Inv() && old(noted) <= noted
      ensures old(phase) == Prepared || old(phase) == Closed || !old(Clean(slots[..])) ==>
                ended && status == EINVAL && unchanged(this) && unchanged(slots)
      ensures ended && (old(phase) == Accepting || old(phase) == Draining) && old(Clean(slots[..])) ==>
                || (phase == Closed && status == firstFailure)
                || (phase == Accepting && status == EINVAL && !Clean(slots[..]))
      ensures tidy && ended && (old(phase) == Accepting || old(phase) == Draining) ==> phase == Closed && status == firstFailure
      ensures old(readings) <= readings && old(polls) <= polls
      ensures old(phase) == Draining && old(Clean(slots[..])) ==>
                Verdict(readings[|old(readings)|..], polls[|old(polls)|..])
    {
      hide CountActive, Verdict, NoneOpened, Pending, InTime, Answered;
      ghost var clock, waits := readings, polls;
      NothingAsked(clock[|clock|..], waits[|waits|..]);
      status := Validate();
      if status != OK || (phase != Accepting && phase != Draining) { return EINVAL, true; }
      for turn := 0 to budget
        invariant Inv() && old(noted) <= noted && (phase == Accepting || phase == Draining)
        invariant clock <= readings && waits <= polls
        invariant old(phase) == Draining ==> phase == Draining && Verdict(readings[|clock|..], polls[|waits|..])
      {
        var stop: bool := *;
        if phase == Accepting && stop {
          ghost var was := slots[..];
          status := BeginDrain();
          assert phase == Accepting ==> slots[..] == was;
          if status != OK || phase == Closed { return status, true; }
        }
        status := Turn(clock, waits);
        if status != OK {
          if phase == Closed { return status, true; }
          status := CloseAfterFailure(status);
          return status, true;
        }
        if phase == Closed { return firstFailure, true; }
      }
      return OK, false;
    }

    lemma NothingAsked(clock: seq<int>, waits: seq<Poll>)
      requires clock == [] && waits == []
      ensures InTime(clock, drainDeadline) && Answered(waits) && (phase == Draining ==> Verdict(clock, waits))
    {
    }

    /** One more turn of a run whose turns so far went well. */
    method Turn(ghost clock: seq<int>, ghost waits: seq<Poll>) returns (status: int)
      requires Inv() && (phase == Accepting || phase == Draining) && clock <= readings && waits <= polls
      modifies slots, `deadlineExpired, `inactiveBefore, `forced, `firstFailure, `noted, `stepped, `closes,
               `epollFd, `drainFinish, `phase, `lastReading, `listenerReadable, `readings, `polls, `offers
      ensures Inv() && old(noted) <= noted && clock <= readings && waits <= polls
      ensures old(phase) == Accepting ==> phase == Accepting && noted == old(noted)
      ensures old(phase) == Draining ==> phase == Draining || phase == Closed
      ensures old(phase) == Draining && phase == Draining ==> status == OK
      ensures old(phase) == Draining && phase == Closed ==> status == firstFailure
      ensures old(phase) == Draining && old(Verdict(readings[|clock|..], polls[|waits|..])) ==>
                Verdict(readings[|clock|..], polls[|waits|..])
    {
      hide CountActive, SlotsOk, NoneOpened, Pending, Inv;
      ghost var readings', polls' := readings, polls;
      status := Step();
      assert readings[|clock|..] == readings'[|clock|..] + readings[|readings'|..];
      assert polls[|waits|..] == polls'[|waits|..] + polls[|polls'|..];
      if old(phase) == Draining && old(Verdict(readings[|clock|..], polls[|waits|..])) {
        VerdictJoins(readings'[|clock|..], readings[|readings'|..], polls'[|waits|..], polls[|polls'|..]);
      }
    }

    method Close() returns (status: int)
      requires Inv()
      modifies this, slots
      ensures Inv() && old(noted) <= noted && NoneOpened(old(slots[..]), slots[..])
      ensures old(phase) == Closed ==> status == OK && unchanged(this) && unchanged(slots)
      ensures old(phase) != Closed && !old(Clean(slots[..])) ==> status == EINVAL && unchanged(this) && unchanged(slots)
      ensures old(phase) != Closed && old(Clean(slots[..])) ==>
                && phase == Closed && status == firstFailure
                && forced == old(CountActive(slots[..]))
    {
      status := Validate();
      if status != OK { return; }
      if phase == Closed { return OK; }
      hide CountActive, SlotsOk;
      if phase == Prepared {
        phase := Closed;
        return OK;
      }
      if phase == Accepting {
        var active;
        status, active := EnterDraining();
        if status != OK { assert false; }
        status := FinishDrain(false, true, false);
        return;
      }
      status := FinishDrain(false, true, true);
    }

    /** Only a closed host has a result; it accounts for every participant of the drain. */
    method ShutdownResultGet() returns (status: int, result: ShutdownResult)
      requires Inv()
      ensures status == if phase == Closed then OK else EINVAL
      ensures status == OK ==>
                && result.inactiveBefore + result.forced == result.activeAtStart
                && result.firstFailure == FirstOf(noted)
                && result == ShutdownResult(activeAtStart, inactiveBefore, forced, drainStart, drainFinish, firstFailure,
                                            deadlineExpired)
    {
      result := ShutdownResult(activeAtStart, inactiveBefore, forced, drainStart, drainFinish, firstFailure, deadlineExpired);
      status := Validate();
      if status != OK || phase != Closed { status := EINVAL; }
    }
  }

  lemma {:induction false} AllActive(s: seq<Slot>)
    requires forall k :: 0 <= k < |s| ==> s[k].active
    ensures CountActive(s) == |s|
  {
    if s != [] { AllActive(s[..|s| - 1]); }
  }

  /** Connections that were open are as they were. */
  ghost predicate OpenKept(before: seq<Slot>, after: seq<Slot>) {
    |before| == |after| && forall k :: 0 <= k < |before| && before[k].active ==> after[k] == before[k]
  }

  lemma KeptOpen(before: seq<Slot>, was: seq<Slot>, now: seq<Slot>, i: nat)
    requires |was| == |now| && (before == was || OpenKept(before, was)) && (i < |was| ==> !was[i].active)
    requires forall j :: 0 <= j < |was| && j != i ==> now[j] == was[j]
    ensures OpenKept(before, now)
  {
  }

  lemma NotAllActive(s: seq<Slot>)
    ensures CountActive(s) <= |s|
  {
  }

  lemma NoneTaken(offers: seq<int>)
    requires offers == []
    ensures Taken(offers) == 0 && AllTaken(offers)
  {
  }

  lemma TakenPrefix(offers: seq<int>)
    requires AllTaken(offers)
    ensures offers != [] ==> AllTaken(offers[..|offers| - 1]) && offers[|offers| - 1] == OK
  {
  }

  lemma TakenMore(offers: seq<int>, answer: int)
    ensures Taken(offers + [answer]) == Taken(offers) + if answer == OK then 1 else 0
    ensures AllTaken(offers) && answer == OK ==> AllTaken(offers + [answer])
  {
    assert (offers + [answer])[..|offers|] == offers;
  }

  /** A host with an idle slot is not full. */
  lemma {:induction false} NotFull(s: seq<Slot>, i: nat)
    requires i < |s| && !s[i].active
    ensures CountActive(s) < |s|
  {
    if i < |s| - 1 { NotFull(s[..|s| - 1], i); }
  }

  const HOST_ABI: nat := 1
  const OPTIONS_SIZE: nat := 64

  datatype Options = Options(abiVersion: nat, structSize: nat, flags: nat, eventWait: int, drainTimeout: nat)

  predicate OptionsOk(o: Options) {
    o.abiVersion == HOST_ABI && o.structSize == OPTIONS_SIZE && o.flags == 0 && 0 <= o.eventWait <= INT_MAX
  }

  /** Accepts exactly usable options, a valid application and idle empty slots. */
  method Prepare(applicationValid: bool, slots: array<Slot>, capacity: nat, options: Options, tidy: bool)
    returns (status: int, host: Host?)
    requires slots.Length <= U64_MAX && options.drainTimeout <= U64_MAX
    ensures status == OK <==> && slots.Length > 0 && 0 < capacity <= INT_MAX && OptionsOk(options) && applicationValid
                              && forall i :: 0 <= i < slots.Length ==> SlotStorageValid(slots[i])
    ensures status == OK ==>
              && host != null && fresh(host) && host.slots == slots && host.eventCapacity == capacity
              && host.eventWait == options.eventWait && host.drainTimeout == options.drainTimeout && host.tidy == tidy
              && host.Inv() && host.phase == Prepared && Clean(slots[..])
    ensures status != OK ==> status == EINVAL && host == null
  {
    host := null;
    if slots.Length == 0 || capacity == 0 || capacity > INT_MAX || !OptionsOk(options) || !applicationValid {
      return EINVAL, null;
    }
    for i := 0 to slots.Length
      invariant forall k :: 0 <= k < i ==> SlotStorageValid(slots[k])
    {
      if !SlotStorageValid(slots[i]) { return EINVAL, null; }
    }
    host := new Host(slots, capacity, options.eventWait, options.drainTimeout, tidy);
    status := OK;
  }

  /** A connection that its routines closed with bytes left in a buffer leaves an idle slot behind
      that no later call accepts: the drain is refused although the invariant holds. */
  method BytesLeftBehind() returns (host: Host, status: int)
    ensures host.Inv() && host.phase == Accepting && !Clean(host.slots[..]) && status == EINVAL
  {
    var slots := new Slot[1](_ => Slot(0, false, false, false, true));
    host := new Host(slots, 1, 0, 0, false);
    host.listenerFd, host.epollFd, host.listenerReadable, host.phase := 3, 4, true, Accepting;
    slots[0] := Slot(0, true, false, true, false);
    status := host.CloseSlot(0);
    assert !host.slots[..][0].active && !host.slots[..][0].buffersEmpty;
    status := host.BeginDrain();
  }
}
