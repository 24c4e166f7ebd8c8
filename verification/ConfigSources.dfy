/** The configuration sources: their records, the checks on them, and which one decides a key. */
module ConfigSources {
  import opened Native
  import opened ConfigText
  import opened ConfigSchema

  const LF: Byte := 10
  const CR: Byte := 13
  const EQUALS: Byte := '=' as int
  const HASH: Byte := '#' as int
  const DASH: Byte := '-' as int

  datatype Sources = Sources(file: seq<Byte>, environment: seq<seq<Byte>>, commandLine: seq<seq<Byte>>)

  /** `ordinal` counts physical records; the offset is where the value starts. */
  datatype Assignment = Assignment(name: seq<Byte>, value: seq<Byte>, ordinal: nat, offset: nat)

  /** The first `=` of a record, or its end. */
  function FirstEquals(s: seq<Byte>, start: nat, end: nat): (k: nat)
    requires start <= end <= |s|
    ensures start <= k <= end && (k < end ==> s[k] == EQUALS)
    ensures forall i :: start <= i < k ==> s[i] != EQUALS
    decreases end - start
  {
    if start == end || s[start] == EQUALS then start else FirstEquals(s, start + 1, end)
  }

  method FindEquals(s: seq<Byte>, start: nat, end: nat) returns (k: nat)
    requires start <= end <= |s|
    ensures k == FirstEquals(s, start, end)
  {
    k := start;
    while k < end && s[k] != EQUALS
      invariant start <= k <= end && FirstEquals(s, start, end) == FirstEquals(s, k, end)
    {
      k := k + 1;
    }
  }

  // ---- The file --------------------------------------------------------------

  datatype Line = Line(start: nat, end: nat)

  predicate Break(b: Byte) { b == LF || b == CR }

  function LineEnd(doc: seq<Byte>, start: nat): (k: nat)
    requires start <= |doc|
    ensures start <= k <= |doc| && (k < |doc| ==> Break(doc[k])) && forall i :: start <= i < k ==> !Break(doc[i])
    decreases |doc| - start
  {
    if start == |doc| || Break(doc[start]) then start else LineEnd(doc, start + 1)
  }

  function NextStart(doc: seq<Byte>, end: nat): nat
    requires end <= |doc|
  {
    if end == |doc| then end else if doc[end] == CR then end + 2 else end + 1
  }

  /** The physical lines from a line start on. */
  ghost function Lines(doc: seq<Byte>, start: nat): seq<Line>
    decreases |doc| - start
  {
    if start >= |doc| then []
    else
      var end := LineEnd(doc, start);
      if NextStart(doc, end) <= start then []
      else [Line(start, end)] + Lines(doc, NextStart(doc, end))
  }

  ghost predicate InDocument(doc: seq<Byte>, l: Line) {
    l.start < |doc| && l.end == LineEnd(doc, l.start)
  }

  /** No NUL, and a carriage return only in front of a line feed. */
  ghost predicate LineOk(doc: seq<Byte>, l: Line)
    requires InDocument(doc, l)
  {
    && (forall i :: l.start <= i < l.end ==> doc[i] != 0)
    && (l.end < |doc| && doc[l.end] == CR ==> l.end + 1 < |doc| && doc[l.end + 1] == LF)
  }

  ghost predicate Skipped(doc: seq<Byte>, l: Line)
    requires InDocument(doc, l)
  {
    l.start == l.end || doc[l.start] == HASH
  }

  /** A line is blank, a comment, or an assignment with a name. */
  ghost predicate RecordOk(doc: seq<Byte>, l: Line)
    requires InDocument(doc, l)
  {
    LineOk(doc, l) && (Skipped(doc, l) || l.start < FirstEquals(doc, l.start, l.end) < l.end)
  }

  ghost function LineAssignment(doc: seq<Byte>, l: Line, ordinal: nat): Assignment
    requires InDocument(doc, l)
  {
    var e := FirstEquals(doc, l.start, l.end);
    Assignment(doc[l.start..e], if e < l.end then doc[e + 1..l.end] else [], ordinal, e + 1)
  }

  ghost predicate AllInDocument(doc: seq<Byte>, lines: seq<Line>) {
    forall i :: 0 <= i < |lines| ==> InDocument(doc, lines[i])
  }

  /** The assignments among the first lines of a document. */
  ghost function LineAssignments(doc: seq<Byte>, lines: seq<Line>): seq<Assignment>
    requires AllInDocument(doc, lines)
  {
    if lines == [] then []
    else
      var n := |lines| - 1;
      LineAssignments(doc, lines[..n])
      + if Skipped(doc, lines[n]) then [] else [LineAssignment(doc, lines[n], n)]
  }

  /** Name, equals sign and value together are the line, and the name holds no equals sign. */
  lemma LineRebuilt(doc: seq<Byte>, l: Line, ordinal: nat)
    requires InDocument(doc, l) && RecordOk(doc, l) && !Skipped(doc, l)
    ensures var a := LineAssignment(doc, l, ordinal);
            && a.name + [EQUALS] + a.value == doc[l.start..l.end]
            && a.name != [] && EQUALS !in a.name && a.offset == l.start + |a.name| + 1
  {
  }

  ghost predicate FileOk(doc: seq<Byte>) {
    LinesInDocument(doc, 0);
    forall i :: 0 <= i < |Lines(doc, 0)| ==> RecordOk(doc, Lines(doc, 0)[i])
  }

  ghost function FileAssignments(doc: seq<Byte>): seq<Assignment> {
    LinesInDocument(doc, 0);
    LineAssignments(doc, Lines(doc, 0))
  }

  lemma {:induction false} LinesInDocument(doc: seq<Byte>, start: nat)
    ensures AllInDocument(doc, Lines(doc, start))
    ensures forall i, j :: 0 <= i < j < |Lines(doc, start)| ==> Lines(doc, start)[i].start < Lines(doc, start)[j].start
    ensures forall i :: 0 <= i < |Lines(doc, start)| ==> Lines(doc, start)[i].start >= start
    decreases |doc| - start
  {
    if start < |doc| {
      var end := LineEnd(doc, start);
      LinesInDocument(doc, NextStart(doc, end));
    }
  }

  /** The lines and their endings make up the document. */
  ghost function Ending(doc: seq<Byte>, l: Line): seq<Byte>
    requires InDocument(doc, l)
  {
    if l.end == |doc| then [] else if doc[l.end] == CR then [CR, LF] else [LF]
  }

  ghost function Rebuilt(doc: seq<Byte>, lines: seq<Line>): seq<Byte>
    requires AllInDocument(doc, lines)
  {
    if lines == [] then []
    else doc[lines[0].start..lines[0].end] + Ending(doc, lines[0]) + Rebuilt(doc, lines[1..])
  }

  lemma OneLine(doc: seq<Byte>, l: Line)
    requires InDocument(doc, l) && LineOk(doc, l)
    ensures l.start < NextStart(doc, l.end) <= |doc|
    ensures doc[l.start..] == doc[l.start..l.end] + Ending(doc, l) + doc[NextStart(doc, l.end)..]
  {
    var next := NextStart(doc, l.end);
    hide LineEnd;
    assert doc[l.end..next] == Ending(doc, l);
    assert doc[l.start..] == doc[l.start..l.end] + doc[l.end..next] + doc[next..];
  }

  lemma FirstLine(doc: seq<Byte>, start: nat)
    requires start < |doc|
    ensures Lines(doc, start) != [] && Lines(doc, start)[0] == Line(start, LineEnd(doc, start))
    ensures Lines(doc, start)[1..] == Lines(doc, NextStart(doc, LineEnd(doc, start)))
    ensures InDocument(doc, Line(start, LineEnd(doc, start)))
  {
  }

  ghost predicate AllLinesOk(doc: seq<Byte>, lines: seq<Line>)
    requires AllInDocument(doc, lines)
  {
    forall i :: 0 <= i < |lines| ==> LineOk(doc, lines[i])
  }

  /** Cutting an acceptable document into lines loses nothing. */
  lemma {:induction false} LinesRebuild(doc: seq<Byte>, start: nat)
    requires start <= |doc| && AllInDocument(doc, Lines(doc, start)) && AllLinesOk(doc, Lines(doc, start))
    ensures Rebuilt(doc, Lines(doc, start)) == doc[start..]
    decreases |doc| - start
  {
    if start < |doc| {
      FirstLine(doc, start);
      var l, rest := Lines(doc, start)[0], Lines(doc, start)[1..];
      assert LineOk(doc, l) && AllInDocument(doc, rest) && AllLinesOk(doc, rest);
      OneLine(doc, l);
      hide Lines, LineEnd, LineOk, Ending;
      LinesRebuild(doc, NextStart(doc, l.end));
    }
  }

  // ---- Reading the file ------------------------------------------------------

  /** The next physical line. */
  method FileRecordNext(doc: seq<Byte>, cursor: nat) returns (status: int, line: Line, next: nat)
    requires cursor < |doc|
    ensures status == OK ==> line == Line(cursor, LineEnd(doc, cursor)) && InDocument(doc, line)
    ensures status == OK <==> LineOk(doc, Line(cursor, LineEnd(doc, cursor)))
    ensures status == OK ==> next == NextStart(doc, line.end) && cursor < next <= |doc|
    ensures status == OK || status == EINVAL
  {
    var end := cursor;
    next, line := cursor, Line(cursor, cursor);
    while end < |doc| && doc[end] != LF && doc[end] != CR
      invariant cursor <= end <= |doc| && LineEnd(doc, cursor) == LineEnd(doc, end)
      invariant forall i :: cursor <= i < end ==> doc[i] != 0
    {
      if doc[end] == 0 { return EINVAL, line, next; }
      end := end + 1;
    }
    assert end == LineEnd(doc, cursor);
    next := end;
    if end < |doc| {
      if doc[end] == CR {
        if end + 1 >= |doc| || doc[end + 1] != LF { return EINVAL, line, next; }
        next := end + 2;
      } else {
        next := end + 1;
      }
    }
    line := Line(cursor, end);
    status := OK;
  }

  /** Splits a line into name and value. */
  method AssignmentFromFile(doc: seq<Byte>, line: Line, ordinal: nat) returns (status: int, assigns: bool, a: Assignment)
    requires InDocument(doc, line)
    ensures status == OK <==> Skipped(doc, line) || line.start < FirstEquals(doc, line.start, line.end) < line.end
    ensures status == OK ==> (assigns <==> !Skipped(doc, line)) && (assigns ==> a == LineAssignment(doc, line, ordinal))
    ensures status == OK || status == EINVAL
  {
    a := Assignment([], [], ordinal, line.start);
    if line.start == line.end || doc[line.start] == HASH { return OK, false, a; }
    var e := FindEquals(doc, line.start, line.end);
    if e == line.start || e == line.end { return EINVAL, false, a; }
    a := Assignment(doc[line.start..e], doc[e + 1..line.end], ordinal, e + 1);
    return OK, true, a;
  }

  // ---- Keys ------------------------------------------------------------------

  /** Some assignment of the list is to the key. */
  ghost predicate Assigned(s: Schema, space: Namespace, list: seq<Assignment>, key: nat) {
    exists i :: 0 <= i < |list| && Names(s, space, list[i].name, key)
  }

  ghost predicate AssignmentOk(s: Schema, space: Namespace, a: Assignment) {
    exists k :: Names(s, space, a.name, k) && TextOk(s.descriptors[k], a.value)
  }

  /** Every name is known, every value is allowed, and no key is assigned twice. */
  ghost predicate AssignmentsOk(s: Schema, space: Namespace, list: seq<Assignment>) {
    && (forall i :: 0 <= i < |list| ==> AssignmentOk(s, space, list[i]))
    && (forall i, j :: 0 <= i < j < |list| ==> list[i].name != list[j].name)
  }

  lemma AssignedAppend(s: Schema, space: Namespace, list: seq<Assignment>, a: Assignment, key: nat)
    ensures Assigned(s, space, list + [a], key) <==> Assigned(s, space, list, key) || Names(s, space, a.name, key)
  {
    var all := list + [a];
    assert all[|list|] == a;
    if Assigned(s, space, list, key) {
      var i :| 0 <= i < |list| && Names(s, space, list[i].name, key);
      assert all[i] == list[i];
    }
  }

  /** A list can be extended by an assignment to a key it does not assign yet. */
  lemma AssignmentsAppend(s: Schema, space: Namespace, list: seq<Assignment>, a: Assignment, key: nat)
    requires SchemaOk(s) && AssignmentsOk(s, space, list) && Names(s, space, a.name, key)
    ensures AssignmentsOk(s, space, list + [a]) <==> !Assigned(s, space, list, key) && TextOk(s.descriptors[key], a.value)
  {
    var all := list + [a];
    assert all[|list|] == a;
    hide SchemaOk, TextOk;
    if AssignmentOk(s, space, a) {
      var k :| Names(s, space, a.name, k) && TextOk(s.descriptors[k], a.value);
      NamesUnique(s, space, a.name, k, key);
    }
    if AssignmentsOk(s, space, all) {
      assert AssignmentOk(s, space, all[|list|]);
      forall i | 0 <= i < |list|
        ensures !Names(s, space, list[i].name, key)
      {
        assert all[i].name != all[|list|].name;
      }
    }
    if !Assigned(s, space, list, key) && TextOk(s.descriptors[key], a.value) {
      assert AssignmentOk(s, space, a);
      forall i | 0 <= i < |list|
        ensures list[i].name != a.name
      {
        assert !Names(s, space, list[i].name, key);
      }
    }
  }

  lemma AssignmentsPrefix(s: Schema, space: Namespace, list: seq<Assignment>, n: nat)
    requires n <= |list| && AssignmentsOk(s, space, list)
    ensures AssignmentsOk(s, space, list[..n])
  {
  }

  // ---- Checking the file -----------------------------------------------------

  lemma {:induction false} LinesChain(doc: seq<Byte>, start: nat, i: nat)
    requires i < |Lines(doc, start)|
    ensures Lines(doc, start)[0].start == start
    ensures InDocument(doc, Lines(doc, start)[i])
    ensures var next := NextStart(doc, Lines(doc, start)[i].end);
            if i + 1 < |Lines(doc, start)| then Lines(doc, start)[i + 1].start == next < |doc| else next >= |doc|
    decreases |doc| - start
  {
    var next := NextStart(doc, LineEnd(doc, start));
    assert Lines(doc, start)[1..] == Lines(doc, next);
    if i > 0 {
      LinesChain(doc, next, i - 1);
    } else if |Lines(doc, next)| > 0 {
      LinesChain(doc, next, 0);
    } else if next < |doc| {
      FirstLine(doc, next);
    }
  }

  lemma {:induction false} LineAssignmentsPrefix(doc: seq<Byte>, lines: seq<Line>, n: nat)
    requires n <= |lines| && AllInDocument(doc, lines)
    ensures AllInDocument(doc, lines[..n]) && LineAssignments(doc, lines[..n]) <= LineAssignments(doc, lines)
  {
    if n < |lines| {
      LineAssignmentsPrefix(doc, lines[..|lines| - 1], n);
      assert lines[..|lines| - 1][..n] == lines[..n];
    } else {
      assert lines[..n] == lines;
    }
  }

  lemma LineAssignmentsStep(doc: seq<Byte>, lines: seq<Line>, n: nat)
    requires n < |lines| && AllInDocument(doc, lines)
    ensures AllInDocument(doc, lines[..n]) && AllInDocument(doc, lines[..n + 1])
    ensures LineAssignments(doc, lines[..n + 1]) ==
            LineAssignments(doc, lines[..n]) + if Skipped(doc, lines[n]) then [] else [LineAssignment(doc, lines[n], n)]
  {
    assert lines[..n + 1][..n] == lines[..n];
  }

  /** One line of a rescan: where it ends and whether it assigns the key. */
  method RescanLine(s: Schema, doc: seq<Byte>, start: nat, key: nat) returns (next: nat, hit: bool)
    requires SchemaOk(s) && key < |s.descriptors| && start < |doc|
    requires RecordOk(doc, Line(start, LineEnd(doc, start)))
    ensures var l := Line(start, LineEnd(doc, start));
            && next == NextStart(doc, l.end)
            && (hit <==> !Skipped(doc, l) && Names(s, File, LineAssignment(doc, l, 0).name, key))
  {
    var end := start;
    while end < |doc| && doc[end] != LF && doc[end] != CR
      invariant start <= end <= |doc| && LineEnd(doc, start) == LineEnd(doc, end)
    {
      end := end + 1;
    }
    assert end == LineEnd(doc, start);
    next := end;
    if next < |doc| { next := next + if doc[next] == CR then 2 else 1; }
    if end == start || doc[start] == HASH { return next, false; }
    var equals := FindEquals(doc, start, end);
    hit := false;
    if equals > start && equals < end {
      var name := doc[start..equals];
      var k := FindDescriptor(s, File, name);
      if Names(s, File, name, key) { FoundIs(s, File, name, k, key); }
      hit := k == key;
    }
  }

  /** The first descriptor of a name is the only one. */
  lemma FoundIs(s: Schema, space: Namespace, name: seq<Byte>, k: nat, key: nat)
    requires SchemaOk(s) && Names(s, space, name, key)
    requires k <= |s.descriptors| && (k < |s.descriptors| ==> Names(s, space, name, k))
    requires forall j :: 0 <= j < k ==> !Names(s, space, name, j)
    ensures k == key
  {
    if k < |s.descriptors| { NamesUnique(s, space, name, k, key); }
  }

  /** What the first `n` lines assign. */
  ghost function AssignedLines(doc: seq<Byte>, n: nat): seq<Assignment>
    requires n <= |Lines(doc, 0)|
  {
    LinesInDocument(doc, 0);
    LineAssignments(doc, Lines(doc, 0)[..n])
  }

  lemma AssignedLinesStep(s: Schema, doc: seq<Byte>, n: nat, key: nat)
    requires n < |Lines(doc, 0)|
    ensures InDocument(doc, Lines(doc, 0)[n])
    ensures var l := Lines(doc, 0)[n];
            && AssignedLines(doc, n + 1) == AssignedLines(doc, n) + (if Skipped(doc, l) then [] else [LineAssignment(doc, l, n)])
            && (Assigned(s, File, AssignedLines(doc, n + 1), key) <==>
                || Assigned(s, File, AssignedLines(doc, n), key)
                || (!Skipped(doc, l) && Names(s, File, LineAssignment(doc, l, 0).name, key)))
  {
    LinesInDocument(doc, 0);
    LineAssignmentsStep(doc, Lines(doc, 0), n);
    AssignedAppend(s, File, AssignedLines(doc, n), LineAssignment(doc, Lines(doc, 0)[n], n), key);
    assert AssignedLines(doc, n) + [] == AssignedLines(doc, n);
  }

  lemma NothingAssigned(s: Schema, doc: seq<Byte>, key: nat)
    ensures AssignedLines(doc, 0) == [] && !Assigned(s, File, AssignedLines(doc, 0), key)
  {
  }

  lemma AssignedLinesGrow(s: Schema, doc: seq<Byte>, n: nat, m: nat, key: nat)
    requires n <= m <= |Lines(doc, 0)|
    ensures AssignedLines(doc, n) <= AssignedLines(doc, m)
    ensures Assigned(s, File, AssignedLines(doc, n), key) ==> Assigned(s, File, AssignedLines(doc, m), key)
  {
    LinesInDocument(doc, 0);
    LineAssignmentsPrefix(doc, Lines(doc, 0)[..m], n);
    assert Lines(doc, 0)[..m][..n] == Lines(doc, 0)[..n];
    if Assigned(s, File, AssignedLines(doc, n), key) {
      var i :| 0 <= i < |AssignedLines(doc, n)| && Names(s, File, AssignedLines(doc, n)[i].name, key);
      assert AssignedLines(doc, m)[i] == AssignedLines(doc, n)[i];
    }
  }

  ghost predicate RecordsOk(doc: seq<Byte>, n: nat) {
    LinesInDocument(doc, 0);
    n <= |Lines(doc, 0)| && forall i :: 0 <= i < n ==> RecordOk(doc, Lines(doc, 0)[i])
  }

  /** Scans the document again up to `stop`: true exactly when an earlier record assigned the key. */
  method FileSeenBefore(s: Schema, doc: seq<Byte>, stop: nat, key: nat, ghost b: nat) returns (seen: bool)
    requires SchemaOk(s) && key < |s.descriptors|
    requires b < |Lines(doc, 0)| && Lines(doc, 0)[b].start == stop && RecordsOk(doc, b)
    ensures seen <==> Assigned(s, File, AssignedLines(doc, b), key)
  {
    ghost var all, i := Lines(doc, 0), 0;
    LinesInDocument(doc, 0);
    LinesChain(doc, 0, 0);
    NothingAssigned(s, doc, key);
    var cursor := 0;
    hide Lines, SchemaOk, Assigned, RecordOk, Skipped;
    while cursor < stop
      invariant 0 <= i <= b && all[i].start == cursor
      invariant !Assigned(s, File, AssignedLines(doc, i), key)
      decreases stop - cursor
    {
      LinesChain(doc, 0, i);
      AssignedLinesStep(s, doc, i, key);
      var hit;
      cursor, hit := RescanLine(s, doc, cursor, key);
      i := i + 1;
      if hit {
        AssignedLinesGrow(s, doc, i, b, key);
        return true;
      }
    }
    seen := false;
  }

  lemma AllLines(doc: seq<Byte>)
    ensures AssignedLines(doc, |Lines(doc, 0)|) == FileAssignments(doc)
    ensures RecordsOk(doc, |Lines(doc, 0)|) <==> FileOk(doc)
  {
    assert Lines(doc, 0)[..|Lines(doc, 0)|] == Lines(doc, 0);
  }

  /** Reads one record and checks it against those before it. */
  method CheckRecord(s: Schema, doc: seq<Byte>, cursor: nat, ordinal: nat) returns (status: int, next: nat)
    requires SchemaOk(s) && cursor < |doc| && ordinal < |Lines(doc, 0)| && Lines(doc, 0)[ordinal].start == cursor
    requires RecordsOk(doc, ordinal) && AssignmentsOk(s, File, AssignedLines(doc, ordinal))
    ensures status == OK ==> next == NextStart(doc, LineEnd(doc, cursor)) && cursor < next <= |doc|
    ensures status == OK <==> RecordsOk(doc, ordinal + 1) && AssignmentsOk(s, File, AssignedLines(doc, ordinal + 1))
    ensures status in {OK, EINVAL, ENOENT, EOVERFLOW}
  {
    LinesInDocument(doc, 0);
    ghost var all := Lines(doc, 0);
    var line;
    status, line, next := FileRecordNext(doc, cursor);
    assert all[ordinal] == Line(cursor, LineEnd(doc, cursor));
    assert RecordsOk(doc, ordinal + 1) <==> RecordOk(doc, all[ordinal]);
    hide Lines, RecordsOk, SchemaOk, LineOk, LineEnd;
    if status != OK { return; }
    var assigns, a;
    status, assigns, a := AssignmentFromFile(doc, line, ordinal);
    if status != OK { return; }
    AssignedLinesStep(s, doc, ordinal, 0);
    if !assigns {
      assert AssignedLines(doc, ordinal) + [] == AssignedLines(doc, ordinal);
      return;
    }
    var key := FindDescriptor(s, File, a.name);
    if key == |s.descriptors| {
      UnknownName(s, File, AssignedLines(doc, ordinal), a);
      return ENOENT, next;
    }
    AssignmentsAppend(s, File, AssignedLines(doc, ordinal), a, key);
    RecordsPrefix(doc, ordinal);
    var seen := FileSeenBefore(s, doc, cursor, key, ordinal);
    if seen { return EINVAL, next; }
    var value;
    hide AssignmentsOk, Assigned, TextOk;
    DescriptorsOk(s, key);
    status, value := ParseTextValue(s.descriptors[key], a.value);
  }

  lemma DescriptorsOk(s: Schema, key: nat)
    requires SchemaOk(s) && key < |s.descriptors|
    ensures DescriptorOk(s.descriptors[key])
  {
  }

  lemma RecordsPrefix(doc: seq<Byte>, n: nat)
    requires RecordsOk(doc, n)
    ensures n <= |Lines(doc, 0)|
  {
  }

  lemma UnknownName(s: Schema, space: Namespace, list: seq<Assignment>, a: Assignment)
    requires forall j :: 0 <= j < |s.descriptors| ==> !Names(s, space, a.name, j)
    ensures !AssignmentsOk(s, space, list + [a])
  {
    assert (list + [a])[|list|] == a;
    assert !AssignmentOk(s, space, a);
  }

  /** A later record cannot mend an earlier one. */
  lemma BadPrefix(s: Schema, doc: seq<Byte>, n: nat)
    requires n <= |Lines(doc, 0)| && !(RecordsOk(doc, n) && AssignmentsOk(s, File, AssignedLines(doc, n)))
    ensures !(FileOk(doc) && AssignmentsOk(s, File, FileAssignments(doc)))
  {
    AllLines(doc);
    AssignedLinesGrow(s, doc, n, |Lines(doc, 0)|, 0);
    if AssignmentsOk(s, File, FileAssignments(doc)) {
      AssignmentsPrefix(s, File, FileAssignments(doc), |AssignedLines(doc, n)|);
    }
  }

  /** Accepts exactly the files whose records are well formed and whose assignments are to
      distinct known keys with allowed values. */
  method ValidateFile(s: Schema, doc: seq<Byte>) returns (status: int)
    requires SchemaOk(s)
    ensures status == OK <==> FileOk(doc) && AssignmentsOk(s, File, FileAssignments(doc))
    ensures status in {OK, EINVAL, ENOENT, EOVERFLOW}
  {
    hide Lines, LineEnd, NextStart, RecordsOk, FileOk, AssignedLines, FileAssignments, AssignmentsOk, SchemaOk;
    AllLines(doc);
    NothingAssigned(s, doc, 0);
    NoRecords(s, doc);
    if |doc| > 0 { FirstLine(doc, 0); }
    var cursor, ordinal := 0, 0;
    while cursor < |doc|
      invariant 0 <= ordinal <= |Lines(doc, 0)|
      invariant if ordinal < |Lines(doc, 0)| then cursor < |doc| && Lines(doc, 0)[ordinal].start == cursor else cursor >= |doc|
      invariant RecordsOk(doc, ordinal) && AssignmentsOk(s, File, AssignedLines(doc, ordinal))
      decreases |doc| - cursor
    {
      LinesChain(doc, 0, ordinal);
      ghost var n := ordinal + 1;
      status, cursor := CheckRecord(s, doc, cursor, ordinal);
      if status != OK {
        BadPrefix(s, doc, n);
        return;
      }
      ordinal := ordinal + 1;
    }
    status := OK;
  }

  lemma NoRecords(s: Schema, doc: seq<Byte>)
    ensures RecordsOk(doc, 0) && AssignmentsOk(s, File, []) && (doc == [] ==> Lines(doc, 0) == [])
  {
  }

  // ---- Environment and command line ------------------------------------------

  /** Command-line entries carry two dashes in front of the name. */
  function NameStart(dashes: bool): nat { if dashes then 2 else 0 }

  ghost predicate EntryOk(e: seq<Byte>, dashes: bool) {
    && (forall i :: 0 <= i < |e| ==> e[i] != 0 && e[i] != CR && e[i] != LF)
    && (dashes ==> |e| >= 3 && e[0] == DASH && e[1] == DASH) && e != []
    && NameStart(dashes) < FirstEquals(e, NameStart(dashes), |e|) < |e|
  }

  ghost function EntryAssignment(e: seq<Byte>, dashes: bool, ordinal: nat): Assignment {
    var start := NameStart(dashes);
    if |e| < start then Assignment([], [], ordinal, 0)
    else
      var k := FirstEquals(e, start, |e|);
      Assignment(e[start..k], if k < |e| then e[k + 1..] else [], ordinal, k + 1)
  }

  /** Dashes, name, equals sign and value together are the entry. */
  lemma EntryRebuilt(e: seq<Byte>, dashes: bool, ordinal: nat)
    requires EntryOk(e, dashes)
    ensures var a := EntryAssignment(e, dashes, ordinal);
            && (if dashes then [DASH, DASH] else []) + a.name + [EQUALS] + a.value == e
            && a.name != [] && EQUALS !in a.name && a.offset == NameStart(dashes) + |a.name| + 1
  {
  }

  ghost predicate EntriesOk(entries: seq<seq<Byte>>, dashes: bool) {
    forall i :: 0 <= i < |entries| ==> EntryOk(entries[i], dashes)
  }

  ghost function EntryAssignments(entries: seq<seq<Byte>>, dashes: bool): seq<Assignment> {
    seq(|entries|, i requires 0 <= i < |entries| => EntryAssignment(entries[i], dashes, i))
  }

  function Space(dashes: bool): Namespace { if dashes then CommandLine else Environment }

  lemma EntryAssignmentsAt(entries: seq<seq<Byte>>, dashes: bool, n: nat)
    requires n <= |entries|
    ensures |EntryAssignments(entries, dashes)| == |entries|
    ensures EntryAssignments(entries[..n], dashes) == EntryAssignments(entries, dashes)[..n]
    ensures n < |entries| ==> EntryAssignments(entries, dashes)[n] == EntryAssignment(entries[n], dashes, n)
  {
    hide EntryAssignment;
  }

  method VectorRecord(e: seq<Byte>, ordinal: nat, dashes: bool) returns (status: int, a: Assignment)
    ensures status == OK <==> EntryOk(e, dashes)
    ensures status == OK ==> a == EntryAssignment(e, dashes, ordinal)
    ensures status == OK || status == EINVAL
  {
    a := Assignment([], [], ordinal, 0);
    for i := 0 to |e|
      invariant forall k :: 0 <= k < i ==> e[k] != 0 && e[k] != CR && e[k] != LF
    {
      if e[i] == 0 || e[i] == CR || e[i] == LF { return EINVAL, a; }
    }
    var start := NameStart(dashes);
    if (dashes && (|e| < 3 || e[0] != DASH || e[1] != DASH)) || |e| == 0 { return EINVAL, a; }
    var k := FindEquals(e, start, |e|);
    if k == start || k == |e| { return EINVAL, a; }
    a := Assignment(e[start..k], e[k + 1..], ordinal, k + 1);
    status := OK;
  }

  /** Whether an entry assigns the key. */
  method EntryAssigns(s: Schema, e: seq<Byte>, dashes: bool, key: nat) returns (hit: bool)
    requires SchemaOk(s) && key < |s.descriptors| && EntryOk(e, dashes)
    ensures hit <==> Names(s, Space(dashes), EntryAssignment(e, dashes, 0).name, key)
  {
    hide SchemaOk;
    var start := NameStart(dashes);
    var equals := FindEquals(e, start, |e|);
    var name := e[start..equals];
    var k := FindDescriptor(s, Space(dashes), name);
    if Names(s, Space(dashes), name, key) { FoundIs(s, Space(dashes), name, k, key); }
    hit := k == key;
  }

  lemma SameName(e: seq<Byte>, dashes: bool, i: nat, j: nat)
    ensures EntryAssignment(e, dashes, i).name == EntryAssignment(e, dashes, j).name
  {
  }

  /** Scans the entries again up to `stop`: true exactly when an earlier one assigned the key. */
  method VectorSeenBefore(s: Schema, entries: seq<seq<Byte>>, stop: nat, dashes: bool, key: nat) returns (seen: bool)
    requires SchemaOk(s) && key < |s.descriptors| && stop <= |entries| && EntriesOk(entries[..stop], dashes)
    ensures seen <==> Assigned(s, Space(dashes), EntryAssignments(entries[..stop], dashes), key)
  {
    hide SchemaOk, EntryOk, EntryAssignment, EntryAssignments;
    ghost var list := EntryAssignments(entries[..stop], dashes);
    EntryAssignmentsAt(entries[..stop], dashes, 0);
    for i := 0 to stop
      invariant forall k :: 0 <= k < i ==> !Names(s, Space(dashes), list[k].name, key)
    {
      assert entries[i] == entries[..stop][i];
      EntryAssignmentsAt(entries[..stop], dashes, i);
      SameName(entries[i], dashes, 0, i);
      var hit := EntryAssigns(s, entries[i], dashes, key);
      if hit { return true; }
    }
    seen := false;
  }

  ghost predicate EntriesGood(s: Schema, entries: seq<seq<Byte>>, dashes: bool) {
    EntriesOk(entries, dashes) && AssignmentsOk(s, Space(dashes), EntryAssignments(entries, dashes))
  }

  lemma EntriesPrefix(s: Schema, entries: seq<seq<Byte>>, dashes: bool, n: nat)
    requires n <= |entries| && EntriesGood(s, entries, dashes)
    ensures EntriesGood(s, entries[..n], dashes)
  {
    EntryAssignmentsAt(entries, dashes, n);
    AssignmentsPrefix(s, Space(dashes), EntryAssignments(entries, dashes), n);
  }

  /** What one more entry adds. */
  lemma EntriesStep(s: Schema, entries: seq<seq<Byte>>, dashes: bool, n: nat)
    requires n < |entries|
    ensures EntriesOk(entries[..n + 1], dashes) <==> EntriesOk(entries[..n], dashes) && EntryOk(entries[n], dashes)
    ensures EntryAssignments(entries[..n + 1], dashes) ==
            EntryAssignments(entries[..n], dashes) + [EntryAssignment(entries[n], dashes, n)]
  {
    hide EntryOk, EntryAssignment;
    var t := entries[..n + 1];
    assert t[..n] == entries[..n] && t[n] == entries[n];
    EntryAssignmentsAt(t, dashes, n);
    if EntriesOk(entries[..n], dashes) && EntryOk(entries[n], dashes) {
      forall i | 0 <= i < |t|
        ensures EntryOk(t[i], dashes)
      {
        assert i < n ==> t[i] == entries[..n][i];
      }
    }
    if EntriesOk(t, dashes) {
      assert EntryOk(t[n], dashes);
      assert forall i :: 0 <= i < n ==> entries[..n][i] == t[i];
    }
  }

  /** Reads one entry and checks it against those before it. */
  method CheckEntry(s: Schema, entries: seq<seq<Byte>>, ordinal: nat, dashes: bool) returns (status: int)
    requires SchemaOk(s) && ordinal < |entries| && EntriesGood(s, entries[..ordinal], dashes)
    ensures status == OK <==> EntriesGood(s, entries[..ordinal + 1], dashes)
    ensures status in {OK, EINVAL, ENOENT, EOVERFLOW}
  {
    ghost var list, space := EntryAssignments(entries[..ordinal], dashes), Space(dashes);
    EntriesStep(s, entries, dashes, ordinal);
    hide EntryOk, EntriesOk, SchemaOk, AssignmentsOk, Assigned, TextOk, EntryAssignment, EntryAssignments;
    var a;
    status, a := VectorRecord(entries[ordinal], ordinal, dashes);
    if status != OK { return; }
    var key := FindDescriptor(s, Space(dashes), a.name);
    if key == |s.descriptors| {
      UnknownName(s, space, list, a);
      return ENOENT;
    }
    AssignmentsAppend(s, space, list, a, key);
    var seen := VectorSeenBefore(s, entries, ordinal, dashes, key);
    if seen { return EINVAL; }
    DescriptorsOk(s, key);
    var value;
    status, value := ParseTextValue(s.descriptors[key], a.value);
  }

  method ValidateVector(s: Schema, entries: seq<seq<Byte>>, dashes: bool) returns (status: int)
    requires SchemaOk(s)
    ensures status == OK <==> EntriesGood(s, entries, dashes)
    ensures status in {OK, EINVAL, ENOENT, EOVERFLOW}
  {
    assert EntriesGood(s, entries[..0], dashes);
    hide SchemaOk, EntriesGood;
    for ordinal := 0 to |entries|
      invariant EntriesGood(s, entries[..ordinal], dashes)
    {
      status := CheckEntry(s, entries, ordinal, dashes);
      if status != OK {
        if EntriesGood(s, entries, dashes) { EntriesPrefix(s, entries, dashes, ordinal + 1); }
        return;
      }
    }
    assert entries[..|entries|] == entries;
    status := OK;
  }

  // ---- All sources -----------------------------------------------------------

  ghost predicate SourcesOk(s: Schema, src: Sources) {
    && FileOk(src.file) && AssignmentsOk(s, File, FileAssignments(src.file))
    && EntriesGood(s, src.environment, false) && EntriesGood(s, src.commandLine, true)
  }

  /** Every source is checked, also where a stronger one overrides it. */
  method ValidateSources(s: Schema, src: Sources) returns (status: int)
    requires SchemaOk(s)
    ensures status == OK <==> SourcesOk(s, src)
    ensures status in {OK, EINVAL, ENOENT, EOVERFLOW}
  {
    hide FileOk, AssignmentsOk, EntriesGood;
    status := ValidateFile(s, src.file);
    if status != OK { return; }
    status := ValidateVector(s, src.environment, false);
    if status != OK { return; }
    status := ValidateVector(s, src.commandLine, true);
  }
}
