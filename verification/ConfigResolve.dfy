/** Which source decides a key: the command line, else the environment, else the file, else the
    default. */
module ConfigResolve {
  import opened Native
  import opened ConfigText
  import opened ConfigSchema
  import opened ConfigSources

  datatype Source = NoSource | FromDefault | FromFile | FromEnvironment | FromCommandLine

  datatype Provenance = Provenance(source: Source, reserved0: nat, ordinal: nat, offset: nat)

  /** `text` is the content of a string value, wherever it lies. */
  datatype Resolution = Resolution(value: Value, provenance: Provenance, text: seq<Byte>, present: bool)

  const UNRESOLVED := Resolution(ZERO, Provenance(NoSource, 0, 0, 0), [], false)

  /** The assignment at `i` is to the key, and this is its value and origin. */
  ghost predicate DecidedAt(s: Schema, space: Namespace, source: Source, list: seq<Assignment>, key: nat, r: Resolution, i: int)
    requires key < |s.descriptors|
  {
    && 0 <= i < |list| && Names(s, space, list[i].name, key)
    && Denotes(s.descriptors[key], list[i].value, r.value)
    && r.provenance == Provenance(source, 0, list[i].ordinal, list[i].offset)
    && r.present && r.text == if s.descriptors[key].kind == KIND_UTF8 then list[i].value else []
  }

  ghost predicate DecidedBy(s: Schema, space: Namespace, source: Source, list: seq<Assignment>, key: nat, r: Resolution)
    requires key < |s.descriptors|
  {
    exists i :: DecidedAt(s, space, source, list, key, r, i)
  }

  function DefaultOf(d: Descriptor, key: nat): Resolution {
    Resolution(d.defaultValue, Provenance(FromDefault, 0, key, 0),
               if d.kind == KIND_UTF8 then d.defaultValue.utf8.Content([]) else [], true)
  }

  /** The resolution of a key: the strongest source that assigns it. */
  ghost predicate Decided(s: Schema, src: Sources, key: nat, r: Resolution)
    requires key < |s.descriptors|
  {
    var file, environment, commandLine :=
      FileAssignments(src.file), EntryAssignments(src.environment, false), EntryAssignments(src.commandLine, true);
    if Assigned(s, CommandLine, commandLine, key) then DecidedBy(s, CommandLine, FromCommandLine, commandLine, key, r)
    else if Assigned(s, Environment, environment, key) then DecidedBy(s, Environment, FromEnvironment, environment, key, r)
    else if Assigned(s, File, file, key) then DecidedBy(s, File, FromFile, file, key, r)
    else s.descriptors[key].HasDefault() && r == DefaultOf(s.descriptors[key], key)
  }

  /** Something assigns the key, or it has a default. */
  ghost predicate HasSource(s: Schema, src: Sources, key: nat)
    requires key < |s.descriptors|
  {
    || Assigned(s, CommandLine, EntryAssignments(src.commandLine, true), key)
    || Assigned(s, Environment, EntryAssignments(src.environment, false), key)
    || Assigned(s, File, FileAssignments(src.file), key)
    || s.descriptors[key].HasDefault()
  }

  lemma DecidedByUnique(s: Schema, space: Namespace, source: Source, list: seq<Assignment>, key: nat, r: Resolution, t: Resolution)
    requires SchemaOk(s) && key < |s.descriptors| && AssignmentsOk(s, space, list)
    requires DecidedBy(s, space, source, list, key, r) && DecidedBy(s, space, source, list, key, t)
    ensures r == t
  {
    var i :| DecidedAt(s, space, source, list, key, r, i);
    var j :| DecidedAt(s, space, source, list, key, t, j);
    assert list[i].name == list[j].name;
    assert i == j;
    DescriptorsOk(s, key);
    hide SchemaOk;
    DenotesCanonical(s.descriptors[key], list[i].value, r.value, t.value, []);
  }

  /** A key has at most one resolution, so resolving twice gives the same answer. */
  lemma DecidedUnique(s: Schema, src: Sources, key: nat, r: Resolution, t: Resolution)
    requires SchemaOk(s) && SourcesOk(s, src) && key < |s.descriptors|
    requires Decided(s, src, key, r) && Decided(s, src, key, t)
    ensures r == t
  {
    var file, environment, commandLine :=
      FileAssignments(src.file), EntryAssignments(src.environment, false), EntryAssignments(src.commandLine, true);
    hide SchemaOk, DecidedBy, FileAssignments, EntryAssignments, AssignmentsOk;
    if Assigned(s, CommandLine, commandLine, key) {
      DecidedByUnique(s, CommandLine, FromCommandLine, commandLine, key, r, t);
    } else if Assigned(s, Environment, environment, key) {
      DecidedByUnique(s, Environment, FromEnvironment, environment, key, r, t);
    } else if Assigned(s, File, file, key) {
      DecidedByUnique(s, File, FromFile, file, key, r, t);
    }
  }

  /** A resolved value is canonical; its text is the content of a string and empty otherwise. */
  lemma DecidedCanonical(s: Schema, src: Sources, key: nat, r: Resolution)
    requires SchemaOk(s) && key < |s.descriptors| && Decided(s, src, key, r)
    ensures Canonical(s.descriptors[key], r.value, []) && r.present
    ensures r.text == if s.descriptors[key].kind == KIND_UTF8 then r.value.utf8.Content([]) else []
    ensures s.descriptors[key].kind == KIND_UTF8 ==> r.value.utf8.Length() == |r.text|
  {
    DescriptorsOk(s, key);
    hide SchemaOk, FileAssignments, EntryAssignments;
    var d := s.descriptors[key];
    var file, environment, commandLine :=
      FileAssignments(src.file), EntryAssignments(src.environment, false), EntryAssignments(src.commandLine, true);
    if Assigned(s, CommandLine, commandLine, key) {
      DecidedByCanonical(s, CommandLine, FromCommandLine, commandLine, key, r);
    } else if Assigned(s, Environment, environment, key) {
      DecidedByCanonical(s, Environment, FromEnvironment, environment, key, r);
    } else if Assigned(s, File, file, key) {
      DecidedByCanonical(s, File, FromFile, file, key, r);
    } else {
      DefaultCanonical(d);
    }
  }

  lemma DefaultCanonical(d: Descriptor)
    requires DescriptorOk(d) && d.HasDefault()
    ensures Canonical(d, d.defaultValue, [])
  {
  }

  lemma DecidedByCanonical(s: Schema, space: Namespace, source: Source, list: seq<Assignment>, key: nat, r: Resolution)
    requires key < |s.descriptors| && DescriptorOk(s.descriptors[key])
    requires DecidedBy(s, space, source, list, key, r)
    ensures Canonical(s.descriptors[key], r.value, []) && r.present
    ensures r.text == if s.descriptors[key].kind == KIND_UTF8 then r.value.utf8.Content([]) else []
    ensures s.descriptors[key].kind == KIND_UTF8 ==> r.value.utf8.Length() == |r.text|
  {
    var i :| DecidedAt(s, space, source, list, key, r, i);
    DenotesCanonical(s.descriptors[key], list[i].value, r.value, r.value, []);
  }

  // ---- Resolving -------------------------------------------------------------

  /** The list so far decides the key, or leaves it as it was. */
  ghost predicate Tracks(s: Schema, space: Namespace, source: Source, list: seq<Assignment>, key: nat, before: Resolution, r: Resolution)
    requires key < |s.descriptors|
  {
    if Assigned(s, space, list, key) then DecidedBy(s, space, source, list, key, r) else r == before
  }

  lemma TracksNothing(s: Schema, space: Namespace, source: Source, key: nat, start: Resolution)
    requires key < |s.descriptors|
    ensures Tracks(s, space, source, [], key, start, start)
  {
  }

  lemma TracksSkip(s: Schema, space: Namespace, source: Source, list: seq<Assignment>, a: Assignment, key: nat,
                   before: Resolution, r: Resolution)
    requires key < |s.descriptors| && Tracks(s, space, source, list, key, before, r) && !Names(s, space, a.name, key)
    ensures Tracks(s, space, source, list + [a], key, before, r)
  {
    AssignedAppend(s, space, list, a, key);
    if Assigned(s, space, list, key) {
      var i :| DecidedAt(s, space, source, list, key, r, i);
      assert (list + [a])[i] == list[i];
      hide Denotes;
      assert DecidedAt(s, space, source, list + [a], key, r, i);
    }
  }

  lemma TracksTake(s: Schema, space: Namespace, source: Source, list: seq<Assignment>, a: Assignment, key: nat,
                   before: Resolution, r: Resolution)
    requires key < |s.descriptors| && DecidedAt(s, space, source, [a], key, r, 0)
    ensures Tracks(s, space, source, list + [a], key, before, r)
  {
    assert (list + [a])[|list|] == a;
    hide Denotes;
    assert DecidedAt(s, space, source, list + [a], key, r, |list|);
  }

  /** A name of the key in an accepted list comes with an allowed value. */
  lemma AllowedValue(s: Schema, space: Namespace, list: seq<Assignment>, i: nat, key: nat)
    requires SchemaOk(s) && AssignmentsOk(s, space, list) && i < |list| && Names(s, space, list[i].name, key)
    ensures TextOk(s.descriptors[key], list[i].value)
  {
    assert AssignmentOk(s, space, list[i]);
    var k :| Names(s, space, list[i].name, k) && TextOk(s.descriptors[k], list[i].value);
    NamesUnique(s, space, list[i].name, k, key);
  }

  /** Takes one assignment if it is to the key. */
  method Consider(s: Schema, space: Namespace, source: Source, a: Assignment, key: nat, before: Resolution,
                  ghost list: seq<Assignment>, ghost start: Resolution)
    returns (r: Resolution)
    requires SchemaOk(s) && key < |s.descriptors| && (Names(s, space, a.name, key) ==> TextOk(s.descriptors[key], a.value))
    requires Tracks(s, space, source, list, key, start, before)
    ensures Tracks(s, space, source, list + [a], key, start, r)
  {
    hide SchemaOk, Tracks;
    var k := FindDescriptor(s, space, a.name);
    if Names(s, space, a.name, key) { FoundIs(s, space, a.name, k, key); }
    if k != key {
      TracksSkip(s, space, source, list, a, key, start, before);
      return before;
    }
    var d := s.descriptors[key];
    DescriptorsOk(s, key);
    hide TextOk, Denotes;
    var status, value := ParseTextValue(d, a.value);
    if status != OK { assert false; }
    r := Resolution(value, Provenance(source, 0, a.ordinal, a.offset), if d.kind == KIND_UTF8 then a.value else [], true);
    TracksTake(s, space, source, list, a, key, start, r);
  }

  method ScanFile(s: Schema, doc: seq<Byte>, key: nat, start: Resolution) returns (r: Resolution)
    requires SchemaOk(s) && key < |s.descriptors| && FileOk(doc) && AssignmentsOk(s, File, FileAssignments(doc))
    ensures Tracks(s, File, FromFile, FileAssignments(doc), key, start, r)
  {
    hide Lines, SchemaOk, Tracks, AssignmentsOk, FileOk, AssignedLines, FileAssignments, LineEnd;
    ghost var all := Lines(doc, 0);
    ScanStart(s, doc, key, start);
    r := start;
    var cursor, ordinal := 0, 0;
    while cursor < |doc|
      invariant 0 <= ordinal <= |all|
      invariant if ordinal < |all| then cursor < |doc| && all[ordinal].start == cursor else cursor >= |doc|
      invariant Tracks(s, File, FromFile, AssignedLines(doc, ordinal), key, start, r)
      decreases |doc| - cursor
    {
      LinesChain(doc, 0, ordinal);
      cursor, r := ConsiderLine(s, doc, cursor, ordinal, key, start, r);
      ordinal := ordinal + 1;
    }
  }

  lemma ScanStart(s: Schema, doc: seq<Byte>, key: nat, start: Resolution)
    requires key < |s.descriptors|
    ensures if |doc| > 0 then Lines(doc, 0) != [] && Lines(doc, 0)[0].start == 0 else Lines(doc, 0) == []
    ensures Tracks(s, File, FromFile, AssignedLines(doc, 0), key, start, start)
    ensures AssignedLines(doc, |Lines(doc, 0)|) == FileAssignments(doc)
  {
    AllLines(doc);
    NothingAssigned(s, doc, key);
    if |doc| > 0 { FirstLine(doc, 0); }
  }

  method ConsiderLine(s: Schema, doc: seq<Byte>, cursor: nat, ordinal: nat, key: nat, ghost start: Resolution, before: Resolution)
    returns (next: nat, r: Resolution)
    requires SchemaOk(s) && key < |s.descriptors| && FileOk(doc) && AssignmentsOk(s, File, FileAssignments(doc))
    requires ordinal < |Lines(doc, 0)| && cursor < |doc| && Lines(doc, 0)[ordinal].start == cursor
    requires Tracks(s, File, FromFile, AssignedLines(doc, ordinal), key, start, before)
    ensures next == NextStart(doc, LineEnd(doc, cursor)) && next > cursor
    ensures Tracks(s, File, FromFile, AssignedLines(doc, ordinal + 1), key, start, r)
  {
    LinesInDocument(doc, 0);
    AllLines(doc);
    AssignedLinesStep(s, doc, ordinal, key);
    AssignedLinesGrow(s, doc, ordinal + 1, |Lines(doc, 0)|, key);
    assert Lines(doc, 0)[ordinal] == Line(cursor, LineEnd(doc, cursor));
    assert RecordOk(doc, Lines(doc, 0)[ordinal]);
    hide Lines, SchemaOk, AssignmentsOk, Tracks, AssignedLines, FileAssignments, FileOk, LineOk;
    var status, line;
    status, line, next := FileRecordNext(doc, cursor);
    if status != OK { assert false; }
    var assigns, a;
    status, assigns, a := AssignmentFromFile(doc, line, ordinal);
    if status != OK { assert false; }
    if !assigns {
      assert AssignedLines(doc, ordinal + 1) == AssignedLines(doc, ordinal);
      return next, before;
    }
    ghost var n := |AssignedLines(doc, ordinal)|;
    assert FileAssignments(doc)[n] == AssignedLines(doc, ordinal + 1)[n] == a;
    if Names(s, File, a.name, key) { AllowedValue(s, File, FileAssignments(doc), n, key); }
    r := Consider(s, File, FromFile, a, key, before, AssignedLines(doc, ordinal), start);
  }

  method ScanVector(s: Schema, entries: seq<seq<Byte>>, dashes: bool, key: nat, source: Source, start: Resolution)
    returns (r: Resolution)
    requires SchemaOk(s) && key < |s.descriptors| && EntriesGood(s, entries, dashes)
    ensures Tracks(s, Space(dashes), source, EntryAssignments(entries, dashes), key, start, r)
  {
    hide SchemaOk, Tracks, EntryAssignments, EntryAssignment, Assigned, AssignmentsOk, EntryOk, Names;
    r := start;
    ghost var list := EntryAssignments(entries, dashes);
    EntryAssignmentsAt(entries, dashes, 0);
    TracksNothing(s, Space(dashes), source, key, start);
    assert list[..0] == [];
    for item := 0 to |entries|
      invariant Tracks(s, Space(dashes), source, list[..item], key, start, r)
    {
      EntryAssignmentsAt(entries, dashes, item);
      assert EntryOk(entries[item], dashes);
      var status, a := VectorRecord(entries[item], item, dashes);
      if status != OK { assert false; }
      if Names(s, Space(dashes), a.name, key) { AllowedValue(s, Space(dashes), list, item, key); }
      r := Consider(s, Space(dashes), source, a, key, r, list[..item], start);
      assert list[..item + 1] == list[..item] + [a];
    }
    assert list[..|entries|] == list;
  }

  /** Resolves a key, or reports that a required one is missing. */
  method ResolveDescriptor(s: Schema, src: Sources, key: nat) returns (status: int, r: Resolution)
    requires SchemaOk(s) && SourcesOk(s, src) && key < |s.descriptors|
    ensures status == if HasSource(s, src, key) then OK else ENOENT
    ensures status == OK ==> Decided(s, src, key, r)
  {
    var d := s.descriptors[key];
    r := if d.HasDefault() then DefaultOf(d, key) else UNRESOLVED;
    ghost var r0 := r;
    hide SchemaOk, FileAssignments, EntryAssignments, FileOk, EntriesGood, Assigned;
    r := ScanFile(s, src.file, key, r);
    ghost var r1 := r;
    r := ScanVector(s, src.environment, false, key, FromEnvironment, r);
    ghost var r2 := r;
    r := ScanVector(s, src.commandLine, true, key, FromCommandLine, r);
    PresentWhen(s, src, key, r0, r1, r2, r);
    if !r.present { return ENOENT, r; }
    status := OK;
  }

  /** Later sources override earlier ones. */
  lemma PresentWhen(s: Schema, src: Sources, key: nat, r0: Resolution, r1: Resolution, r2: Resolution, r: Resolution)
    requires key < |s.descriptors|
    requires r0 == if s.descriptors[key].HasDefault() then DefaultOf(s.descriptors[key], key) else UNRESOLVED
    requires Tracks(s, File, FromFile, FileAssignments(src.file), key, r0, r1)
    requires Tracks(s, Environment, FromEnvironment, EntryAssignments(src.environment, false), key, r1, r2)
    requires Tracks(s, CommandLine, FromCommandLine, EntryAssignments(src.commandLine, true), key, r2, r)
    ensures r.present <==> HasSource(s, src, key)
    ensures r.present ==> Decided(s, src, key, r)
  {
    hide FileAssignments, EntryAssignments, Assigned, Denotes;
  }
}
