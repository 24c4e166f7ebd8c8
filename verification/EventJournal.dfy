/** The domain-event journal: an append-only log packed into two caller-owned arrays, with
    generation-stamped checkpoints to rewind to. */
module EventJournal {
  import opened Native
  import opened CapabilityModel

  datatype Event = Event(typeId: Id, abiVersion: nat, payload: seq<Byte>)

  datatype Record = Record(typeId: Id, abiVersion: nat, flags: nat, offset: nat, size: nat)

  datatype Checkpoint = Checkpoint(recordCount: nat, byteCount: nat, generation: nat)

  // ---- The log a journal stands for ------------------------------------------

  datatype Log = Log(events: seq<Event>, generation: nat)

  const EMPTY_LOG := Log([], 1)

  datatype Op = Append(event: Event) | Rewind(count: nat) | Clear

  ghost function Apply(l: Log, op: Op): Log {
    match op
    case Append(e) => Log(l.events + [e], l.generation)
    case Rewind(count) => if count <= |l.events| then Log(l.events[..count], l.generation) else l
    case Clear => Log([], l.generation + 1)
  }

  ghost function Run(l: Log, ops: seq<Op>): Log {
    if ops == [] then l else Apply(Run(l, ops[..|ops| - 1]), ops[|ops| - 1])
  }

  ghost function TotalSize(events: seq<Event>): nat {
    if events == [] then 0 else TotalSize(events[..|events| - 1]) + |events[|events| - 1].payload|
  }

  ghost function CheckpointOf(l: Log): Checkpoint {
    Checkpoint(|l.events|, TotalSize(l.events), l.generation)
  }

  /** The checkpoint names a record boundary of the log and carries its generation. */
  ghost predicate Accepts(l: Log, cp: Checkpoint) {
    && cp.generation == l.generation && cp.recordCount <= |l.events|
    && TotalSize(l.events[..cp.recordCount]) == cp.byteCount
  }

  /** The fewest events the log held at any time during the run. */
  ghost function Lowest(l: Log, ops: seq<Op>): nat {
    var n := |Run(l, ops).events|;
    if ops == [] then n
    else
      var earlier := Lowest(l, ops[..|ops| - 1]);
      if n < earlier then n else earlier
  }

  /** Only clearing moves the generation, and only upwards. */
  lemma {:induction false} GenerationCountsClears(l: Log, ops: seq<Op>)
    ensures Run(l, ops).generation >= l.generation
    ensures Run(l, ops).generation == l.generation <==> Clear !in ops
  {
    if ops != [] {
      var n := |ops| - 1;
      GenerationCountsClears(l, ops[..n]);
      assert ops == ops[..n] + [ops[n]];
    }
  }

  /** What was never cut off is still there. */
  lemma {:induction false} Retained(l: Log, ops: seq<Op>)
    requires Clear !in ops
    ensures Lowest(l, ops) <= |l.events| && Lowest(l, ops) <= |Run(l, ops).events|
    ensures Run(l, ops).events[..Lowest(l, ops)] == l.events[..Lowest(l, ops)]
  {
    if ops != [] {
      var n := |ops| - 1;
      assert ops == ops[..n] + [ops[n]];
      Retained(l, ops[..n]);
      var before, after, m := Run(l, ops[..n]).events, Run(l, ops).events, Lowest(l, ops);
      assert after[..m] == before[..m];
      assert before[..m] == before[..Lowest(l, ops[..n])][..m];
      assert l.events[..m] == l.events[..Lowest(l, ops[..n])][..m];
    }
  }

  /** Rewinding to a checkpoint gives back the log of the checkpoint exactly when the log was
      not cleared, is long enough, and what was cut off in between was appended again
      unchanged; nothing was cut off if the log was never shorter. */
  lemma RewindRestores(l: Log, ops: seq<Op>)
    ensures var now, cp, n := Run(l, ops), CheckpointOf(l), |l.events|;
            && (Accepts(now, cp) && Apply(now, Rewind(n)) == l <==>
                && Clear !in ops && n <= |now.events|
                && now.events[Min(Lowest(l, ops), n)..n] == l.events[Min(Lowest(l, ops), n)..])
            && (Clear !in ops && Lowest(l, ops) >= n ==> Accepts(now, cp) && Apply(now, Rewind(n)) == l)
            && (Clear in ops ==> !Accepts(now, cp))
  {
    GenerationCountsClears(l, ops);
    var now, n := Run(l, ops), |l.events|;
    if Clear !in ops && n <= |now.events| {
      Retained(l, ops);
      var m := Lowest(l, ops);
      assert l.events == l.events[..m] + l.events[m..];
      assert now.events[..n] == now.events[..m] + now.events[m..n];
      assert l.events[..n] == l.events;
      if now.events[..n] == l.events {
        assert now.events[m..n] == now.events[..n][m..];
      }
    }
  }

  function Min(a: nat, b: nat): nat { if a < b then a else b }

  /** A log that was shorter in between can be rewound to other events than the checkpoint saw. */
  lemma ShorterLogMayDiffer(a: Event, b: Event)
    requires a != b && |a.payload| == |b.payload|
    ensures var l, ops := Log([a], 1), [Rewind(0), Append(b)];
            Accepts(Run(l, ops), CheckpointOf(l)) && Apply(Run(l, ops), Rewind(1)) == Log([b], 1) != l
  {
    var l, ops := Log([a], 1), [Rewind(0), Append(b)];
    assert ops[..1] == [Rewind(0)] && ops[..1][..0] == [];
    assert Run(l, ops[..1]) == Log([], 1);
    assert Run(l, ops) == Log([b], 1);
    assert TotalSize([a]) == |a.payload| && TotalSize([b]) == |b.payload|;
    assert [b][..1] == [b];
  }

  // ---- Packing ---------------------------------------------------------------

  predicate RecordOk(r: Record) { !r.typeId.IsZero() && r.abiVersion != 0 && r.flags == 0 }

  /** Where record `k` has to start. */
  function Boundary(r: seq<Record>, k: nat): nat
    requires k <= |r|
  {
    if k == 0 then 0 else r[k - 1].offset + r[k - 1].size
  }

  /** Payloads lie back to back and end at `end`. */
  ghost predicate Packed(r: seq<Record>, end: nat) {
    && (forall i {:trigger Boundary(r, i)} :: 0 <= i < |r| ==> RecordOk(r[i]) && r[i].offset == Boundary(r, i))
    && Boundary(r, |r|) == end
  }

  ghost function EventOf(r: Record, bytes: seq<Byte>): Event {
    Event(r.typeId, r.abiVersion, if r.offset + r.size <= |bytes| then bytes[r.offset..r.offset + r.size] else [])
  }

  ghost function Events(r: seq<Record>, bytes: seq<Byte>): seq<Event> {
    seq(|r|, i requires 0 <= i < |r| => EventOf(r[i], bytes))
  }

  lemma {:induction false} BoundaryRises(r: seq<Record>, end: nat, i: nat, k: nat)
    requires Packed(r, end) && i <= k <= |r|
    ensures Boundary(r, i) <= Boundary(r, k)
    decreases k
  {
    if i < k { BoundaryRises(r, end, i, k - 1); }
  }

  /** Dropping records from the end leaves a packed log of the earlier events. */
  lemma PackedPrefix(r: seq<Record>, bytes: seq<Byte>, k: nat)
    requires Packed(r, |bytes|) && k <= |r|
    ensures Boundary(r, k) <= |bytes| && Packed(r[..k], Boundary(r, k))
    ensures Events(r[..k], bytes[..Boundary(r, k)]) == Events(r, bytes)[..k]
  {
    BoundaryRises(r, |bytes|, k, |r|);
    forall i | 0 <= i < k
      ensures RecordOk(r[..k][i]) && r[..k][i].offset == Boundary(r[..k], i)
    {
      assert Boundary(r[..k], i) == Boundary(r, i);
    }
    forall i | 0 <= i < k
      ensures EventOf(r[i], bytes[..Boundary(r, k)]) == EventOf(r[i], bytes)
    {
      BoundaryRises(r, |bytes|, i + 1, k);
    }
  }

  lemma PackedExtends(r: seq<Record>, end: nat, x: Record)
    requires Packed(r, end) && RecordOk(x) && x.offset == end
    ensures Packed(r + [x], end + x.size)
  {
    var s := r + [x];
    forall i | 0 <= i < |s|
      ensures RecordOk(s[i]) && s[i].offset == Boundary(s, i)
    {
      assert Boundary(s, i) == Boundary(r, i);
    }
  }

  /** Bytes behind a record do not change its event. */
  lemma EventKept(r: Record, bytes: seq<Byte>, more: seq<Byte>)
    requires r.offset + r.size <= |bytes|
    ensures EventOf(r, bytes + more) == EventOf(r, bytes)
  {
    assert (bytes + more)[r.offset..r.offset + r.size] == bytes[r.offset..r.offset + r.size];
  }

  ghost predicate Inside(r: seq<Record>, end: nat) {
    forall i :: 0 <= i < |r| ==> r[i].offset + r[i].size <= end
  }

  lemma PackedInside(r: seq<Record>, end: nat)
    requires Packed(r, end)
    ensures Inside(r, end)
  {
    forall i | 0 <= i < |r|
      ensures r[i].offset + r[i].size <= end
    {
      BoundaryRises(r, end, i + 1, |r|);
    }
  }

  lemma EventsAppend(r: seq<Record>, bytes: seq<Byte>, x: Record, payload: seq<Byte>)
    requires Inside(r, |bytes|) && x.offset == |bytes| && x.size == |payload|
    ensures Events(r + [x], bytes + payload) == Events(r, bytes) + [Event(x.typeId, x.abiVersion, payload)]
  {
    forall i | 0 <= i < |r|
      ensures EventOf(r[i], bytes + payload) == EventOf(r[i], bytes)
    {
      EventKept(r[i], bytes, payload);
    }
    assert (bytes + payload)[x.offset..x.offset + x.size] == payload;
    assert EventOf(x, bytes + payload) == Event(x.typeId, x.abiVersion, payload);
    hide EventOf;
  }

  /** Appending a record behind the last one appends one event. */
  lemma PackedAppend(r: seq<Record>, bytes: seq<Byte>, x: Record, payload: seq<Byte>)
    requires Packed(r, |bytes|) && RecordOk(x) && x.offset == |bytes| && x.size == |payload|
    ensures Packed(r + [x], |bytes| + |payload|)
    ensures Events(r + [x], bytes + payload) == Events(r, bytes) + [Event(x.typeId, x.abiVersion, payload)]
  {
    hide Packed, Events;
    PackedExtends(r, |bytes|, x);
    PackedInside(r, |bytes|);
    EventsAppend(r, bytes, x, payload);
  }

  /** Record boundaries are the running payload sizes. */
  lemma {:induction false} BoundaryIsSize(r: seq<Record>, bytes: seq<Byte>, k: nat)
    requires Packed(r, |bytes|) && k <= |r|
    ensures TotalSize(Events(r, bytes)[..k]) == Boundary(r, k)
  {
    if k > 0 {
      BoundaryIsSize(r, bytes, k - 1);
      BoundaryRises(r, |bytes|, k, |r|);
      var e := Events(r, bytes);
      assert |e[k - 1].payload| == r[k - 1].size && r[k - 1].offset == Boundary(r, k - 1);
      hide Packed, EventOf, Events;
      assert e[..k][..k - 1] == e[..k - 1];
    }
  }

  // ---- The journal -----------------------------------------------------------

  datatype EventView = EventView(event: Event, sequence: nat)

  class Journal {
    const records: array<Record>
    const payload: array<Byte>
    var recordCount: nat
    var byteCount: nat
    var generation: nat

    /** Every operation that changed the journal, in order. */
    ghost var history: seq<Op>

    /** The integer widths of the fields. */
    ghost predicate Typed()
      reads this, records
    {
      && records.Length <= U32_MAX && payload.Length <= U32_MAX
      && recordCount <= U32_MAX && byteCount <= U32_MAX && generation <= U64_MAX
      && forall i :: 0 <= i < records.Length ==> records[i].offset <= U32_MAX && records[i].size <= U32_MAX
    }

    predicate Shape()
      reads this
    {
      generation != 0 && recordCount <= records.Length && byteCount <= payload.Length
    }

    ghost predicate Canonical()
      reads this, records
    {
      Shape() && Packed(records[..recordCount], byteCount)
    }

    ghost function Contents(): Log
      requires Shape()
      reads this, records, payload
    {
      Log(Events(records[..recordCount], payload[..byteCount]), generation)
    }

    /** The journal holds what its history of operations left. */
    ghost predicate Valid()
      reads this, records, payload
    {
      Typed() && Canonical() && Contents() == Run(EMPTY_LOG, history)
    }

    constructor (r: array<Record>, p: array<Byte>)
      requires r.Length <= U32_MAX && p.Length <= U32_MAX
      requires forall i :: 0 <= i < r.Length ==> r[i].offset <= U32_MAX && r[i].size <= U32_MAX
      ensures Valid() && records == r && payload == p && Contents() == EMPTY_LOG && history == []
    {
      records, payload := r, p;
      recordCount, byteCount, generation, history := 0, 0, 1, [];
    }

    /** Records are checked one by one, each against the end of the one before. */
    method Validate() returns (status: int)
      ensures status == OK <==> Canonical()
      ensures status == OK || status == EINVAL
    {
      if !Shape() { return EINVAL; }
      var expected: nat := 0;
      for i := 0 to recordCount
        invariant Packed(records[..i], expected) && expected <= byteCount
      {
        var r := records[i];
        if !RecordOk(r) || r.offset != expected || r.offset > byteCount || r.size > byteCount - r.offset {
          assert records[..recordCount][..i] == records[..i];
          NotPacked(records[..recordCount], byteCount, i, expected);
          return EINVAL;
        }
        PackedExtends(records[..i], expected, r);
        assert records[..i + 1] == records[..i] + [r];
        expected := r.offset + r.size;
      }
      if expected != byteCount { return EINVAL; }
      status := OK;
    }

    method TakeCheckpoint() returns (status: int, cp: Checkpoint)
      ensures status == if Canonical() then OK else EINVAL
      ensures status == OK ==> cp == Checkpoint(recordCount, byteCount, generation)
      ensures status == OK ==> cp == CheckpointOf(Contents()) && Accepts(Contents(), cp)
    {
      cp := Checkpoint(recordCount, byteCount, generation);
      status := Validate();
      if status == OK { CheckpointMeaning(records[..recordCount], payload[..byteCount], generation, cp); }
    }

    method CheckpointValidate(cp: Checkpoint) returns (status: int)
      ensures !Canonical() ==> status == EINVAL
      ensures Canonical() && cp.generation != generation ==> status == ESTALE
      ensures Canonical() && cp.generation == generation ==>
                status == if Accepts(Contents(), cp) then OK else EINVAL
    {
      status := Validate();
      if status != OK { return; }
      if cp.generation != generation { return ESTALE; }
      CheckpointMeaning(records[..recordCount], payload[..byteCount], generation, cp);
      if cp.recordCount > recordCount || cp.byteCount > byteCount { return EINVAL; }
      if cp.recordCount == 0 { return if cp.byteCount != 0 then EINVAL else OK; }
      var last := records[cp.recordCount - 1];
      if !RecordOk(last) || last.offset > byteCount || last.size > byteCount - last.offset { return EINVAL; }
      if last.offset + last.size != cp.byteCount { return EINVAL; }
      status := OK;
    }

    /** Appends one event at the end, or changes nothing. */
    method Append(typeId: Id, abiVersion: nat, flags: nat, source: seq<Byte>) returns (status: int, sequence: nat)
      requires Typed()
      modifies `recordCount, `byteCount, `history, records, payload
      ensures Typed()
      ensures status == if !old(Shape()) || typeId.IsZero() || abiVersion == 0 || flags != 0 then EINVAL
                        else if old(recordCount) == records.Length || |source| > payload.Length - old(byteCount) then ENOSPC
                        else OK
      ensures status != OK ==> unchanged(this) && unchanged(records) && unchanged(payload)
      ensures status == OK && old(Valid()) ==>
                && Valid() && sequence == |old(Contents()).events|
                && Contents() == Apply(old(Contents()), Op.Append(Event(typeId, abiVersion, source)))
                && history == old(history) + [Op.Append(Event(typeId, abiVersion, source))]
    {
      hide Packed;
      sequence := 0;
      if !Shape() { return EINVAL, 0; }
      if typeId.IsZero() || abiVersion == 0 || flags != 0 { return EINVAL, 0; }
      if recordCount == records.Length || |source| > payload.Length - byteCount { return ENOSPC, 0; }
      sequence := recordCount;
      var record := Record(typeId, abiVersion, flags, byteCount, |source|);
      ghost var r, bytes, h := records[..recordCount], payload[..byteCount], history;
      forall k | 0 <= k < |source| { payload[record.offset + k] := source[k]; }
      records[sequence] := record;
      byteCount := record.offset + |source|;
      recordCount := sequence + 1;
      history := history + [Op.Append(Event(typeId, abiVersion, source))];
      assert records[..recordCount] == r + [record] && payload[..byteCount] == bytes + source;
      assert history[..|history| - 1] == h;
      if Packed(r, |bytes|) { PackedAppend(r, bytes, record, source); }
      status := OK;
    }

    /** Cuts the log back to a checkpoint of its own generation, or changes nothing. */
    method Rewind(cp: Checkpoint) returns (status: int)
      requires Typed()
      modifies `recordCount, `byteCount, `history
      ensures Typed()
      ensures !old(Canonical()) ==> status == EINVAL
      ensures old(Canonical()) && cp.generation != generation ==> status == ESTALE
      ensures old(Canonical()) && cp.generation == generation ==>
                status == if Accepts(old(Contents()), cp) then OK else EINVAL
      ensures status != OK ==> unchanged(this)
      ensures status == OK ==> Canonical() && Contents() == Apply(old(Contents()), Op.Rewind(cp.recordCount))
      ensures status == OK ==> history == old(history) + [Op.Rewind(cp.recordCount)]
      ensures old(Valid()) ==> Valid()
    {
      status := CheckpointValidate(cp);
      if status != OK { return; }
      ghost var r, bytes, h := records[..recordCount], payload[..byteCount], history;
      BoundaryIsSize(r, bytes, cp.recordCount);
      PackedPrefix(r, bytes, cp.recordCount);
      recordCount := cp.recordCount;
      byteCount := cp.byteCount;
      history := history + [Op.Rewind(cp.recordCount)];
      assert records[..recordCount] == r[..recordCount] && payload[..byteCount] == bytes[..byteCount];
      assert history[..|history| - 1] == h;
    }

    /** Reads back one event of the log. */
    method View(sequence: nat) returns (status: int, view: EventView)
      ensures Valid() ==> status == if sequence < |Contents().events| then OK else ENOENT
      ensures Valid() && status == OK ==> view == EventView(Contents().events[sequence], sequence)
      ensures status in {OK, EINVAL, ENOENT}
    {
      view := EventView(Event(Id(0, 0), 0, []), 0);
      if !Shape() { return EINVAL, view; }
      if sequence >= recordCount { return ENOENT, view; }
      var r := records[sequence];
      InRange(records[..recordCount], byteCount, sequence);
      if !RecordOk(r) || r.offset > byteCount || r.size > byteCount - r.offset { return EINVAL, view; }
      assert payload[..byteCount][r.offset..r.offset + r.size] == payload[r.offset..r.offset + r.size];
      view := EventView(Event(r.typeId, r.abiVersion, payload[r.offset..r.offset + r.size]), sequence);
      status := OK;
    }

    /** Empties the log and outdates every checkpoint taken so far. */
    method Clear() returns (status: int)
      requires Typed()
      modifies `recordCount, `byteCount, `generation, `history
      ensures Typed()
      ensures status == if !old(Shape()) then EINVAL else if old(generation) == U64_MAX then EOVERFLOW else OK
      ensures status != OK ==> unchanged(this)
      ensures status == OK ==> Canonical() && Contents() == Log([], old(generation) + 1)
      ensures status == OK ==> history == old(history) + [Op.Clear]
      ensures old(Valid()) ==> Valid()
    {
      if !Shape() { return EINVAL; }
      if generation == U64_MAX { return EOVERFLOW; }
      ghost var h := history;
      recordCount := 0;
      byteCount := 0;
      generation := generation + 1;
      history := history + [Op.Clear];
      assert history[..|history| - 1] == h;
      status := OK;
    }
  }

  lemma InRange(r: seq<Record>, end: nat, i: nat)
    requires i < |r|
    ensures Packed(r, end) ==> RecordOk(r[i]) && r[i].offset + r[i].size <= end
  {
    if Packed(r, end) {
      BoundaryRises(r, end, i + 1, |r|);
      assert r[i].offset == Boundary(r, i);
    }
  }

  /** What accepting a checkpoint means in terms of the packed records. */
  lemma CheckpointMeaning(r: seq<Record>, bytes: seq<Byte>, generation: nat, cp: Checkpoint)
    requires Packed(r, |bytes|)
    ensures CheckpointOf(Log(Events(r, bytes), generation)) == Checkpoint(|r|, |bytes|, generation)
    ensures Accepts(Log(Events(r, bytes), generation), Checkpoint(|r|, |bytes|, generation))
    ensures cp.recordCount <= |r| ==>
              && Boundary(r, cp.recordCount) <= |bytes|
              && (Accepts(Log(Events(r, bytes), generation), cp) <==>
                  cp.generation == generation && Boundary(r, cp.recordCount) == cp.byteCount)
    ensures 0 < cp.recordCount <= |r| ==> RecordOk(r[cp.recordCount - 1])
  {
    BoundaryIsSize(r, bytes, |r|);
    assert Events(r, bytes)[..|r|] == Events(r, bytes);
    if cp.recordCount <= |r| {
      BoundaryIsSize(r, bytes, cp.recordCount);
      BoundaryRises(r, |bytes|, cp.recordCount, |r|);
      if cp.recordCount > 0 { InRange(r, |bytes|, cp.recordCount - 1); }
    }
  }

  /** A record that fails the check at its place rules the whole log out. */
  lemma NotPacked(r: seq<Record>, end: nat, i: nat, expected: nat)
    requires i < |r| && Packed(r[..i], expected)
    requires !RecordOk(r[i]) || r[i].offset != expected || r[i].offset + r[i].size > end
    ensures !Packed(r, end)
  {
    assert Boundary(r, i) == Boundary(r[..i], i);
    if Packed(r, end) {
      BoundaryRises(r, end, i + 1, |r|);
      assert false;
    }
  }
}
