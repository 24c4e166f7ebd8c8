/** Measuring, preparing and validating a configuration: all values resolved, strings packed back
    to back into the caller's storage. */
module ConfigStore {
  import opened Native
  import opened ConfigText
  import opened ConfigSchema
  import opened ConfigSources
  import opened ConfigResolve

  const PREPARED_GUARD: nat := 0x434f4e4649473052
  const DESCRIPTOR_SIZE: nat := 184
  const VALUE_SIZE: nat := 48
  const PROVENANCE_SIZE: nat := 24
  const RESULT_SIZE: nat := 48

  datatype Requirements = Requirements(
    descriptorCount: nat, descriptorBytes: nat, valueBytes: nat, provenanceBytes: nat, scratchBytes: nat,
    persistentBytes: nat, resultBytes: nat)

  const NOTHING := Requirements(0, 0, 0, 0, 0, 0, 0)

  // ---- What a configuration resolves to --------------------------------------

  ghost predicate Resolvable(s: Schema, src: Sources) {
    && SchemaOk(s) && SourcesOk(s, src)
    && forall k :: 0 <= k < |s.descriptors| ==> HasSource(s, src, k)
  }

  lemma DecidedByExists(s: Schema, space: Namespace, source: Source, list: seq<Assignment>, key: nat)
    requires SchemaOk(s) && key < |s.descriptors| && AssignmentsOk(s, space, list) && Assigned(s, space, list, key)
    ensures exists r :: DecidedBy(s, space, source, list, key, r)
  {
    var i :| 0 <= i < |list| && Names(s, space, list[i].name, key);
    AllowedValue(s, space, list, i, key);
    var d := s.descriptors[key];
    hide SchemaOk;
    var v :| Denotes(d, list[i].value, v);
    var r := Resolution(v, Provenance(source, 0, list[i].ordinal, list[i].offset),
                        if d.kind == KIND_UTF8 then list[i].value else [], true);
    assert DecidedAt(s, space, source, list, key, r, i);
    assert DecidedBy(s, space, source, list, key, r);
  }

  lemma DecidedExists(s: Schema, src: Sources, key: nat)
    requires SchemaOk(s) && SourcesOk(s, src) && key < |s.descriptors| && HasSource(s, src, key)
    ensures exists r :: Decided(s, src, key, r)
  {
    var file, environment, commandLine :=
      FileAssignments(src.file), EntryAssignments(src.environment, false), EntryAssignments(src.commandLine, true);
    hide SchemaOk, DecidedBy, FileAssignments, EntryAssignments, AssignmentsOk, FileOk, EntriesOk;
    if Assigned(s, CommandLine, commandLine, key) {
      DecidedByExists(s, CommandLine, FromCommandLine, commandLine, key);
      var r :| DecidedBy(s, CommandLine, FromCommandLine, commandLine, key, r);
      assert Decided(s, src, key, r);
    } else if Assigned(s, Environment, environment, key) {
      DecidedByExists(s, Environment, FromEnvironment, environment, key);
      var r :| DecidedBy(s, Environment, FromEnvironment, environment, key, r);
      assert Decided(s, src, key, r);
    } else if Assigned(s, File, file, key) {
      DecidedByExists(s, File, FromFile, file, key);
      var r :| DecidedBy(s, File, FromFile, file, key, r);
      assert Decided(s, src, key, r);
    } else {
      assert Decided(s, src, key, DefaultOf(s.descriptors[key], key));
    }
  }

  /** The one resolution of a key. */
  ghost function ResolutionOf(s: Schema, src: Sources, key: nat): (r: Resolution)
    requires Resolvable(s, src) && key < |s.descriptors|
    ensures Decided(s, src, key, r)
  {
    DecidedExists(s, src, key);
    var r :| Decided(s, src, key, r);
    r
  }

  /** The string values of the first `n` keys, back to back. */
  ghost function Packed(s: Schema, src: Sources, n: nat): seq<Byte>
    requires Resolvable(s, src) && n <= |s.descriptors|
  {
    if n == 0 then [] else Packed(s, src, n - 1) + ResolutionOf(s, src, n - 1).text
  }

  lemma {:induction false} PackedPrefix(s: Schema, src: Sources, k: nat, n: nat)
    requires Resolvable(s, src) && k <= n <= |s.descriptors|
    ensures Packed(s, src, k) <= Packed(s, src, n)
    decreases n
  {
    hide Resolvable, Decided, ResolutionOf;
    if k < n { PackedPrefix(s, src, k, n - 1); }
  }

  lemma PackedUnfold(s: Schema, src: Sources, k: nat)
    requires Resolvable(s, src) && k < |s.descriptors|
    ensures Packed(s, src, k + 1) == Packed(s, src, k) + ResolutionOf(s, src, k).text
  {
  }

  lemma SliceOf(p: seq<Byte>, a: seq<Byte>, t: seq<Byte>)
    requires a + t <= p
    ensures |a| + |t| <= |p| && p[|a|..|a| + |t|] == t
  {
    assert p[..|a + t|] == a + t;
    assert p[|a|..|a| + |t|] == p[..|a + t|][|a|..];
  }

  /** Where a key's string lies. */
  lemma PackedAt(s: Schema, src: Sources, k: nat, n: nat)
    requires Resolvable(s, src) && k < n <= |s.descriptors|
    ensures var offset, text := |Packed(s, src, k)|, ResolutionOf(s, src, k).text;
            offset + |text| <= |Packed(s, src, n)| && Packed(s, src, n)[offset..offset + |text|] == text
  {
    hide Resolvable, Decided, ResolutionOf, Packed;
    PackedPrefix(s, src, k + 1, n);
    PackedUnfold(s, src, k);
    SliceOf(Packed(s, src, n), Packed(s, src, k), ResolutionOf(s, src, k).text);
  }

  /** A resolution as it is published: strings point into the store. */
  ghost function Published(r: Resolution, offset: nat): Value {
    if r.value.kind == KIND_UTF8 then r.value.(utf8 := if r.text == [] then Null else Stored(offset, |r.text|)) else r.value
  }

  /** What a successful prepare leaves. */
  ghost predicate PreparedOk(s: Schema, src: Sources, values: seq<Value>, origins: seq<Provenance>, store: seq<Byte>) {
    && Resolvable(s, src) && |values| == |origins| == |s.descriptors| && store == Packed(s, src, |s.descriptors|)
    && forall k :: 0 <= k < |s.descriptors| ==>
                     && values[k] == Published(ResolutionOf(s, src, k), |Packed(s, src, k)|)
                     && origins[k] == ResolutionOf(s, src, k).provenance
  }

  // ---- Valid results ---------------------------------------------------------

  ghost function TextLengths(values: seq<Value>): nat {
    if values == [] then 0
    else TextLengths(values[..|values| - 1])
         + if values[|values| - 1].kind == KIND_UTF8 then values[|values| - 1].utf8.Length() else 0
  }

  ghost predicate OriginOk(p: Provenance, key: int) {
    p.reserved0 == 0 && p.source != NoSource && (p.source == FromDefault ==> p.ordinal == key && p.offset == 0)
  }

  /** A string is absent, or lies in the store right behind the earlier ones. */
  ghost predicate InPlace(v: Value, offset: nat) {
    v.kind == KIND_UTF8 ==> v.utf8 == if v.utf8.Length() == 0 then Null else Stored(offset, v.utf8.Length())
  }

  ghost predicate EntryValid(s: Schema, values: seq<Value>, origins: seq<Provenance>, store: seq<Byte>, k: int)
    requires 0 <= k < |s.descriptors| == |values| == |origins|
  {
    Canonical(s.descriptors[k], values[k], store) && OriginOk(origins[k], k) && InPlace(values[k], TextLengths(values[..k]))
  }

  ghost predicate ResultOk(s: Schema, values: seq<Value>, origins: seq<Provenance>, store: seq<Byte>, guard: nat) {
    && SchemaOk(s) && guard == PREPARED_GUARD && |values| == |origins| == |s.descriptors|
    && (forall k :: 0 <= k < |s.descriptors| ==> EntryValid(s, values, origins, store, k))
    && TextLengths(values) == |store|
  }

  lemma SchemaOf(s: Schema, src: Sources)
    requires Resolvable(s, src)
    ensures SchemaOk(s)
  {
  }

  lemma PublishedIn(d: Descriptor, r: Resolution, offset: nat, store: seq<Byte>)
    requires Canonical(d, r.value, []) && r.text == if d.kind == KIND_UTF8 then r.value.utf8.Content([]) else []
    requires d.kind == KIND_UTF8 ==> r.value.utf8.Length() == |r.text|
    requires offset + |r.text| <= |store| && store[offset..offset + |r.text|] == r.text
    ensures Canonical(d, Published(r, offset), store) && InPlace(Published(r, offset), offset)
    ensures |r.text| == if Published(r, offset).kind == KIND_UTF8 then Published(r, offset).utf8.Length() else 0
  {
    if d.kind == KIND_UTF8 { assert Published(r, offset).utf8.Content(store) == r.text; }
  }

  /** What is published for a key is canonical, in its place, and as long as it is packed. */
  ghost predicate PublishedOk(s: Schema, src: Sources, k: nat, store: seq<Byte>)
    requires Resolvable(s, src) && k < |s.descriptors|
  {
    var offset := |Packed(s, src, k)|;
    var v := Published(ResolutionOf(s, src, k), offset);
    && Canonical(s.descriptors[k], v, store) && InPlace(v, offset)
    && |Packed(s, src, k + 1)| == offset + if v.kind == KIND_UTF8 then v.utf8.Length() else 0
  }

  lemma PublishedCanonical(s: Schema, src: Sources, k: nat, store: seq<Byte>)
    requires Resolvable(s, src) && k < |s.descriptors| && store == Packed(s, src, |s.descriptors|)
    ensures PublishedOk(s, src, k, store)
  {
    SchemaOf(s, src);
    hide Resolvable, Decided, ResolutionOf, Packed, Canonical, Published, InPlace, SchemaOk;
    var r := ResolutionOf(s, src, k);
    DecidedCanonical(s, src, k, r);
    PackedAt(s, src, k, |s.descriptors|);
    PackedUnfold(s, src, k);
    PublishedIn(s.descriptors[k], r, |Packed(s, src, k)|, store);
  }

  lemma {:induction false} PackedLengths(s: Schema, src: Sources, values: seq<Value>, k: nat)
    requires Resolvable(s, src) && k <= |s.descriptors| == |values|
    requires forall j :: 0 <= j < |values| ==> values[j] == Published(ResolutionOf(s, src, j), |Packed(s, src, j)|)
    ensures TextLengths(values[..k]) == |Packed(s, src, k)|
  {
    hide Resolvable, Published, Decided, ResolutionOf, Packed, Canonical, InPlace;
    if k == 0 {
      NothingPacked(s, src);
    } else {
      PackedLengths(s, src, values, k - 1);
      PublishedCanonical(s, src, k - 1, Packed(s, src, |s.descriptors|));
      assert values[..k][..k - 1] == values[..k - 1];
    }
  }

  lemma NothingPacked(s: Schema, src: Sources)
    requires Resolvable(s, src)
    ensures Packed(s, src, 0) == []
  {
  }

  /** Everything prepare publishes passes validation. */
  lemma PreparedIsValid(s: Schema, src: Sources, values: seq<Value>, origins: seq<Provenance>, store: seq<Byte>)
    requires PreparedOk(s, src, values, origins, store)
    ensures ResultOk(s, values, origins, store, PREPARED_GUARD)
  {
    forall k | 0 <= k < |s.descriptors|
      ensures EntryValid(s, values, origins, store, k)
    {
      PublishedCanonical(s, src, k, store);
      PackedLengths(s, src, values, k);
      DecidedOrigin(s, src, k, ResolutionOf(s, src, k));
    }
    PackedLengths(s, src, values, |values|);
    assert values[..|values|] == values;
  }

  lemma DecidedOrigin(s: Schema, src: Sources, key: nat, r: Resolution)
    requires key < |s.descriptors| && Decided(s, src, key, r)
    ensures OriginOk(r.provenance, key)
  {
    hide Denotes;
  }

  /** A published string reads exactly as the text its source gave. */
  lemma PublishedReads(s: Schema, src: Sources, values: seq<Value>, origins: seq<Provenance>, store: seq<Byte>, k: nat)
    requires PreparedOk(s, src, values, origins, store) && k < |s.descriptors| && values[k].kind == KIND_UTF8
    ensures values[k].utf8.Content(store) == ResolutionOf(s, src, k).text
  {
    hide Resolvable, Decided, ResolutionOf, Packed;
    PackedAt(s, src, k, |s.descriptors|);
  }

  // ---- Measuring -------------------------------------------------------------

  /** All sizes fit sixty-four bits. */
  ghost predicate SizesFit(s: Schema, src: Sources)
    requires Resolvable(s, src)
  {
    |Packed(s, src, |s.descriptors|)| <= U64_MAX && |s.descriptors| * DESCRIPTOR_SIZE <= U64_MAX
  }

  ghost function RequirementsOf(s: Schema, src: Sources): Requirements
    requires Resolvable(s, src)
  {
    var n := |s.descriptors|;
    Requirements(n, n * DESCRIPTOR_SIZE, n * VALUE_SIZE, n * PROVENANCE_SIZE, n, |Packed(s, src, n)|, RESULT_SIZE)
  }

  /** The resolver's answer is the resolution. */
  method Resolve(s: Schema, src: Sources, key: nat) returns (r: Resolution)
    requires Resolvable(s, src) && key < |s.descriptors|
    ensures r == ResolutionOf(s, src, key)
  {
    hide SchemaOk, SourcesOk, HasSource, Decided;
    var status;
    status, r := ResolveDescriptor(s, src, key);
    if status != OK { assert false; }
    DecidedUnique(s, src, key, r, ResolutionOf(s, src, key));
  }

  ghost function TextTotal(rs: seq<Resolution>): nat {
    if rs == [] then 0 else TextTotal(rs[..|rs| - 1]) + |rs[|rs| - 1].text|
  }

  ghost predicate Answers(s: Schema, src: Sources, rs: seq<Resolution>) {
    |rs| <= |s.descriptors| && forall k :: 0 <= k < |rs| ==> HasSource(s, src, k) && Decided(s, src, k, rs[k])
  }

  /** The running total is the length of the packed strings. */
  lemma {:induction false} TotalIsPacked(s: Schema, src: Sources, rs: seq<Resolution>)
    requires Resolvable(s, src) && Answers(s, src, rs)
    ensures TextTotal(rs) == |Packed(s, src, |rs|)| <= |Packed(s, src, |s.descriptors|)|
  {
    hide SchemaOk, SourcesOk, HasSource, Decided;
    PackedPrefix(s, src, |rs|, |s.descriptors|);
    if rs != [] {
      var k := |rs| - 1;
      TotalIsPacked(s, src, rs[..k]);
      DecidedUnique(s, src, k, rs[k], ResolutionOf(s, src, k));
    }
  }

  lemma AnswersAppend(s: Schema, src: Sources, rs: seq<Resolution>, r: Resolution)
    requires Answers(s, src, rs) && |rs| < |s.descriptors| && HasSource(s, src, |rs|) && Decided(s, src, |rs|, r)
    ensures Answers(s, src, rs + [r]) && TextTotal(rs + [r]) == TextTotal(rs) + |r.text|
  {
    hide HasSource, Decided;
    assert (rs + [r])[..|rs|] == rs;
  }

  lemma AnswersResolve(s: Schema, src: Sources, rs: seq<Resolution>)
    requires SchemaOk(s) && SourcesOk(s, src) && Answers(s, src, rs) && |rs| == |s.descriptors|
    ensures Resolvable(s, src)
  {
    hide SchemaOk, SourcesOk, HasSource, Decided;
  }

  /** Resolves every key and adds up what its string needs. */
  method Total(s: Schema, src: Sources) returns (status: int, total: nat)
    requires SchemaOk(s) && SourcesOk(s, src)
    ensures status == OK <==> Resolvable(s, src) && |Packed(s, src, |s.descriptors|)| <= U64_MAX
    ensures status == OK ==> total == |Packed(s, src, |s.descriptors|)|
    ensures status in {OK, ENOENT, EOVERFLOW}
  {
    hide SchemaOk, SourcesOk, HasSource, Decided, Resolvable, Packed, Answers;
    total := 0;
    ghost var rs: seq<Resolution> := [];
    NoAnswers(s, src);
    for k := 0 to |s.descriptors|
      invariant |rs| == k && Answers(s, src, rs) && total == TextTotal(rs) <= U64_MAX
    {
      var r;
      status, r := ResolveDescriptor(s, src, k);
      if status != OK {
        NotResolvable(s, src, k);
        return;
      }
      AnswersAppend(s, src, rs, r);
      rs := rs + [r];
      if total + |r.text| > U64_MAX {
        if Resolvable(s, src) { TotalIsPacked(s, src, rs); }
        return EOVERFLOW, total;
      }
      total := total + |r.text|;
    }
    AnswersResolve(s, src, rs);
    TotalIsPacked(s, src, rs);
    status := OK;
  }

  lemma NoAnswers(s: Schema, src: Sources)
    ensures Answers(s, src, []) && TextTotal([]) == 0
  {
  }

  lemma NotResolvable(s: Schema, src: Sources, k: nat)
    requires k < |s.descriptors| && !HasSource(s, src, k)
    ensures !Resolvable(s, src)
  {
    hide HasSource, SchemaOk, SourcesOk;
  }

  /** A configuration that can be measured can be prepared in exactly that space. */
  ghost predicate Measurable(s: Schema, src: Sources) { Resolvable(s, src) && SizesFit(s, src) }

  /** Validates everything and reports the exact storage the result takes. */
  method Measure(s: Schema, src: Sources) returns (status: int, requirements: Requirements)
    ensures status == OK <==> Measurable(s, src)
    ensures status == OK ==> requirements == RequirementsOf(s, src)
    ensures status in {OK, EINVAL, ENOENT, EOVERFLOW}
  {
    requirements := NOTHING;
    hide SchemaOk, SourcesOk, HasSource, Packed;
    status := ValidateSchema(s);
    if status != OK { return; }
    status := ValidateSources(s, src);
    if status != OK { return; }
    var total;
    status, total := Total(s, src);
    if status != OK { return; }
    var n := |s.descriptors|;
    if n * DESCRIPTOR_SIZE > U64_MAX || n * VALUE_SIZE > U64_MAX || n * PROVENANCE_SIZE > U64_MAX {
      return EOVERFLOW, requirements;
    }
    requirements :=
      Requirements(n, n * DESCRIPTOR_SIZE, n * VALUE_SIZE, n * PROVENANCE_SIZE, n, total, RESULT_SIZE);
  }

  // ---- Preparing -------------------------------------------------------------

  class Storage {
    const values: array<Value>
    const origins: array<Provenance>
    const scratch: array<Byte>
    const persistent: array<Byte>

    constructor (v: array<Value>, o: array<Provenance>, t: array<Byte>, p: array<Byte>)
      ensures values == v && origins == o && scratch == t && persistent == p
    {
      values, origins, scratch, persistent := v, o, t, p;
    }
  }

  /** What is published: the storage in use, and how much of it. */
  datatype Result = Result(storage: Storage, persistentBytes: nat, count: nat, guard: nat)

  ghost predicate Capacity(s: Schema, src: Sources, storage: Storage)
    requires Resolvable(s, src)
  {
    var n := |s.descriptors|;
    && n <= storage.values.Length && n <= storage.origins.Length && n <= storage.scratch.Length
    && |Packed(s, src, n)| <= storage.persistent.Length
  }

  /** The first `k` keys are in place. */
  ghost predicate Filled(s: Schema, src: Sources, values: seq<Value>, origins: seq<Provenance>, scratch: seq<Byte>,
                         persistent: seq<Byte>, k: nat)
    requires Resolvable(s, src)
  {
    && k <= |s.descriptors| && k <= |values| && k <= |origins| && k <= |scratch|
    && Packed(s, src, k) <= persistent
    && forall j :: 0 <= j < k ==>
                     && values[j] == Published(ResolutionOf(s, src, j), |Packed(s, src, j)|)
                     && origins[j] == ResolutionOf(s, src, j).provenance && scratch[j] == 1
  }

  /** Publishing one more key in the next place. */
  lemma FilledStep(s: Schema, src: Sources, values: seq<Value>, origins: seq<Provenance>, scratch: seq<Byte>,
                   persistent: seq<Byte>, k: nat, r: Resolution, after: seq<Byte>)
    requires Resolvable(s, src) && Filled(s, src, values, origins, scratch, persistent, k)
    requires k < |s.descriptors| && k < |values| && k < |origins| && k < |scratch| && r == ResolutionOf(s, src, k)
    requires Packed(s, src, k) + r.text <= after
    ensures Filled(s, src, values[k := Published(r, |Packed(s, src, k)|)], origins[k := r.provenance], scratch[k := 1],
                   after, k + 1)
  {
    PackedUnfold(s, src, k);
    hide Resolvable, ResolutionOf, Packed, Published;
  }

  /** Copies a string behind the earlier ones. */
  method CopyText(persistent: array<Byte>, offset: nat, text: seq<Byte>)
    requires offset + |text| <= persistent.Length
    modifies persistent
    ensures persistent[..] == old(persistent[..])[..offset] + text + old(persistent[..])[offset + |text|..]
  {
    forall i | 0 <= i < |text| { persistent[offset + i] := text[i]; }
  }

  /** Publishes the next key. */
  method PublishNext(s: Schema, src: Sources, storage: Storage, k: nat, offset: nat) returns (next: nat)
    requires Resolvable(s, src) && Capacity(s, src, storage) && storage.scratch != storage.persistent
    requires k < |s.descriptors| && offset == |Packed(s, src, k)|
    requires Filled(s, src, storage.values[..], storage.origins[..], storage.scratch[..], storage.persistent[..], k)
    modifies storage.values, storage.origins, storage.scratch, storage.persistent
    ensures Filled(s, src, storage.values[..], storage.origins[..], storage.scratch[..], storage.persistent[..], k + 1)
    ensures next == |Packed(s, src, k + 1)| <= storage.persistent.Length
    ensures storage.values[k + 1..] == old(storage.values[k + 1..]) && storage.origins[k + 1..] == old(storage.origins[k + 1..])
    ensures storage.scratch[k + 1..] == old(storage.scratch[k + 1..])
    ensures storage.persistent[next..] == old(storage.persistent[next..])
  {
    var r := Resolve(s, src, k);
    PackedPrefix(s, src, k + 1, |s.descriptors|);
    PackedUnfold(s, src, k);
    KindOf(s, src, k);
    ghost var values, origins, scratch, persistent :=
      storage.values[..], storage.origins[..], storage.scratch[..], storage.persistent[..];
    assert persistent[..offset] == Packed(s, src, k);
    hide Resolvable, ResolutionOf, Packed, Filled, Capacity, Published;
    var value;
    value, next := StoreText(storage.persistent, offset, r);
    WriteEntry(storage, k, value, r.provenance);
    FilledStep(s, src, values, origins, scratch, persistent, k, r, storage.persistent[..]);
  }

  /** Copies a string value and makes it point at the copy. */
  method StoreText(persistent: array<Byte>, offset: nat, r: Resolution) returns (value: Value, next: nat)
    requires offset + |r.text| <= persistent.Length && (r.value.kind != KIND_UTF8 ==> r.text == [])
    modifies persistent
    ensures value == Published(r, offset) && next == offset + |r.text|
    ensures old(persistent[..offset]) + r.text <= persistent[..] && persistent[next..] == old(persistent[next..])
  {
    value := r.value;
    next := offset + |r.text|;
    if value.kind == KIND_UTF8 {
      CopyText(persistent, offset, r.text);
      value := value.(utf8 := if r.text == [] then Null else Stored(offset, |r.text|));
    }
  }

  method WriteEntry(storage: Storage, k: nat, value: Value, origin: Provenance)
    requires k < storage.values.Length && k < storage.origins.Length && k < storage.scratch.Length
    modifies storage.values, storage.origins, storage.scratch
    ensures storage.values[..] == old(storage.values[..])[k := value]
    ensures storage.origins[..] == old(storage.origins[..])[k := origin]
    ensures storage.scratch[..] == old(storage.scratch[..])[k := 1]
    ensures storage.values[k + 1..] == old(storage.values[k + 1..]) && storage.origins[k + 1..] == old(storage.origins[k + 1..])
    ensures storage.scratch[k + 1..] == old(storage.scratch[k + 1..])
  {
    storage.values[k] := value;
    storage.origins[k] := origin;
    storage.scratch[k] := 1;
  }

  /** Only string values have a text. */
  lemma KindOf(s: Schema, src: Sources, k: nat)
    requires Resolvable(s, src) && k < |s.descriptors|
    ensures ResolutionOf(s, src, k).value.kind != KIND_UTF8 ==> ResolutionOf(s, src, k).text == []
  {
    DecidedCanonical(s, src, k, ResolutionOf(s, src, k));
  }

  /** Aliased storage is refused. */
  predicate Disjoint(storage: Storage) { storage.scratch != storage.persistent || storage.scratch.Length == 0 }

  /** Measures again, and publishes only if everything fits: then exactly the resolved values,
      their origins and the packed strings, and nothing behind them. */
  method Prepare(s: Schema, src: Sources, storage: Storage) returns (status: int, result: Result)
    modifies storage.values, storage.origins, storage.scratch, storage.persistent
    ensures status == OK <==> Measurable(s, src) && Disjoint(storage) && Capacity(s, src, storage)
    ensures Measurable(s, src) && Disjoint(storage) && !Capacity(s, src, storage) ==> status == ENOSPC
    ensures status != OK ==>
              && storage.values[..] == old(storage.values[..]) && storage.origins[..] == old(storage.origins[..])
              && storage.scratch[..] == old(storage.scratch[..]) && storage.persistent[..] == old(storage.persistent[..])
    ensures status == OK ==>
              var n, bytes := |s.descriptors|, |Packed(s, src, |s.descriptors|)|;
              && result == Result(storage, bytes, n, PREPARED_GUARD)
              && PreparedOk(s, src, storage.values[..n], storage.origins[..n], storage.persistent[..bytes])
              && (forall k :: 0 <= k < n ==> storage.scratch[k] == 1)
              && storage.values[n..] == old(storage.values[n..]) && storage.origins[n..] == old(storage.origins[n..])
              && storage.scratch[n..] == old(storage.scratch[n..])
              && storage.persistent[bytes..] == old(storage.persistent[bytes..])
  {
    result := Result(storage, 0, 0, 0);
    hide Resolvable, Packed, ResolutionOf;
    var needs;
    status, needs := Measure(s, src);
    if status != OK { return; }
    if storage.scratch == storage.persistent && storage.scratch.Length > 0 { return EINVAL, result; }
    if storage.values.Length < needs.descriptorCount || storage.origins.Length < needs.descriptorCount
       || storage.scratch.Length < needs.scratchBytes || storage.persistent.Length < needs.persistentBytes {
      return ENOSPC, result;
    }
    Publish(s, src, storage);
    result := Result(storage, needs.persistentBytes, needs.descriptorCount, PREPARED_GUARD);
  }

  lemma NothingFilled(s: Schema, src: Sources, values: seq<Value>, origins: seq<Provenance>, scratch: seq<Byte>, persistent: seq<Byte>)
    requires Resolvable(s, src)
    ensures Filled(s, src, values, origins, scratch, persistent, 0) && Packed(s, src, 0) == []
  {
  }

  lemma AllFilled(s: Schema, src: Sources, values: seq<Value>, origins: seq<Provenance>, scratch: seq<Byte>, persistent: seq<Byte>)
    requires Resolvable(s, src) && Filled(s, src, values, origins, scratch, persistent, |s.descriptors|)
    ensures var n, bytes := |s.descriptors|, |Packed(s, src, |s.descriptors|)|;
            && bytes <= |persistent| && PreparedOk(s, src, values[..n], origins[..n], persistent[..bytes])
            && (forall k :: 0 <= k < n ==> scratch[k] == 1)
  {
    hide Resolvable, Packed, ResolutionOf, Published;
  }

  method Publish(s: Schema, src: Sources, storage: Storage)
    requires Resolvable(s, src) && Capacity(s, src, storage) && Disjoint(storage)
    modifies storage.values, storage.origins, storage.scratch, storage.persistent
    ensures var n, bytes := |s.descriptors|, |Packed(s, src, |s.descriptors|)|;
            && PreparedOk(s, src, storage.values[..n], storage.origins[..n], storage.persistent[..bytes])
            && (forall k :: 0 <= k < n ==> storage.scratch[k] == 1)
            && storage.values[n..] == old(storage.values[n..]) && storage.origins[n..] == old(storage.origins[n..])
            && storage.scratch[n..] == old(storage.scratch[n..])
            && storage.persistent[bytes..] == old(storage.persistent[bytes..])
  {
    hide Resolvable, Packed, ResolutionOf, Filled, PreparedOk;
    NothingFilled(s, src, storage.values[..], storage.origins[..], storage.scratch[..], storage.persistent[..]);
    var offset := 0;
    for k := 0 to |s.descriptors|
      invariant offset == |Packed(s, src, k)| <= storage.persistent.Length
      invariant Filled(s, src, storage.values[..], storage.origins[..], storage.scratch[..], storage.persistent[..], k)
      invariant storage.values[k..] == old(storage.values[k..]) && storage.origins[k..] == old(storage.origins[k..])
      invariant storage.scratch[k..] == old(storage.scratch[k..])
      invariant storage.persistent[offset..] == old(storage.persistent[offset..])
    {
      label L:
      ghost var before := offset;
      offset := PublishNext(s, src, storage, k, offset);
      PackedUnfold(s, src, k);
      assert old@L(storage.values[k + 1..]) == old@L(storage.values[k..])[1..];
      assert old@L(storage.origins[k + 1..]) == old@L(storage.origins[k..])[1..];
      assert old@L(storage.scratch[k + 1..]) == old@L(storage.scratch[k..])[1..];
      assert old@L(storage.persistent[offset..]) == old@L(storage.persistent[before..])[offset - before..];
    }
    AllFilled(s, src, storage.values[..], storage.origins[..], storage.scratch[..], storage.persistent[..]);
    ghost var n, bytes := |s.descriptors|, |Packed(s, src, |s.descriptors|)|;
    assert storage.values[..n] == storage.values[..][..n] && storage.origins[..n] == storage.origins[..][..n];
    assert storage.persistent[..bytes] == storage.persistent[..][..bytes];
    assert forall k :: 0 <= k < n ==> storage.scratch[k] == storage.scratch[..][k];
  }

  // ---- Validating ------------------------------------------------------------

  /** The part of the store a string may lie in. */
  method InPlaceValid(v: Value, offset: nat, size: nat) returns (ok: bool)
    requires v.kind == KIND_UTF8
    ensures ok <==> InPlace(v, offset) && v.utf8.Readable(seq(size, _ => 0))
  {
    assert |seq<Byte>(size, _ => 0)| == size;
    match v.utf8
    case Null => ok := true;
    case Bytes(_) => ok := false;
    case Stored(at, length) => ok := length != 0 && at + length <= size && at == offset;
  }

  /** One entry of a result, given the length of the strings before it. */
  method EntryCheck(d: Descriptor, v: Value, p: Provenance, key: nat, store: seq<Byte>, offset: nat) returns (ok: bool, next: nat)
    ensures ok <==> Canonical(d, v, store) && OriginOk(p, key) && InPlace(v, offset)
    ensures ok ==> next == offset + (if v.kind == KIND_UTF8 then v.utf8.Length() else 0)
    ensures ok && offset <= |store| ==> next <= |store|
  {
    next := offset;
    ok := ValueCanonical(d, v, store);
    if !ok { return; }
    if p.reserved0 != 0 || p.source == NoSource || (p.source == FromDefault && (p.ordinal != key || p.offset != 0)) {
      return false, next;
    }
    if v.kind == KIND_UTF8 {
      ok := InPlaceValid(v, offset, |store|);
      if !ok { return; }
      next := offset + v.utf8.Length();
    }
  }

  /** Accepts exactly the results that are canonical, well attributed and packed without gaps. */
  method Validate(s: Schema, result: Result) returns (status: int)
    requires result.count <= result.storage.values.Length && result.count <= result.storage.origins.Length
    requires result.persistentBytes <= result.storage.persistent.Length
    ensures var storage := result.storage;
            status == if ResultOk(s, storage.values[..result.count], storage.origins[..result.count],
                                  storage.persistent[..result.persistentBytes], result.guard) then OK else EINVAL
  {
    ghost var values, origins := result.storage.values[..result.count], result.storage.origins[..result.count];
    var store := result.storage.persistent[..result.persistentBytes];
    status := ValidateSchema(s);
    hide SchemaOk, Canonical, OriginOk, InPlace;
    if status != OK { return; }
    if result.guard != PREPARED_GUARD || result.count != |s.descriptors| { return EINVAL; }
    var offset := 0;
    for k := 0 to result.count
      invariant offset == TextLengths(values[..k]) <= |store|
      invariant forall j :: 0 <= j < k ==> EntryValid(s, values, origins, store, j)
    {
      var ok;
      assert values[..k + 1][..k] == values[..k];
      ok, offset := EntryCheck(s.descriptors[k], result.storage.values[k], result.storage.origins[k], k, store, offset);
      assert ok <==> EntryValid(s, values, origins, store, k);
      if !ok { return EINVAL; }
    }
    assert values[..result.count] == values;
    if offset != result.persistentBytes { return EINVAL; }
    status := OK;
  }

  /** What prepare published is accepted, as long as nobody changes it. */
  method PrepareThenValidate(s: Schema, src: Sources, storage: Storage) returns (prepared: int, validated: int)
    modifies storage.values, storage.origins, storage.scratch, storage.persistent
    ensures prepared == OK ==> validated == OK
  {
    var result;
    prepared, result := Prepare(s, src, storage);
    validated := prepared;
    if prepared == OK {
      var n, bytes := result.count, result.persistentBytes;
      PreparedIsValid(s, src, storage.values[..n], storage.origins[..n], storage.persistent[..bytes]);
      validated := Validate(s, result);
    }
  }
}
