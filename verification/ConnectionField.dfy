/** The Connection header field: a comma-separated list of tokens in which empty elements are
    allowed (sections 5.6.1 and 7.6.1 of RFC 9110). */
module ConnectionField {
  import opened Native
  import opened UriHost

  const COMMA: Byte := ',' as int

  predicate Ows(b: Byte) { b == ' ' as int || b == 9 }

  predicate TokenChar(b: Byte) {
    Digit(b) || Between(b, 'A', 'Z') || Between(b, 'a', 'z')
    || b in {'!' as int, '#' as int, '$' as int, '%' as int, '&' as int, '\'' as int, '*' as int, '+' as int,
             '-' as int, '.' as int, '^' as int, '_' as int, '`' as int, '|' as int, '~' as int}
  }

  function ToLower(b: Byte): Byte { if Between(b, 'A', 'Z') then b + 32 else b }

  ghost predicate EqualIgnoringCase(a: seq<Byte>, b: seq<Byte>) {
    |a| == |b| && forall i :: 0 <= i < |a| ==> ToLower(a[i]) == ToLower(b[i])
  }

  const CLOSE_TOKEN: seq<Byte> := ['c' as int, 'l' as int, 'o' as int, 's' as int, 'e' as int]

  // ---- The list --------------------------------------------------------------

  ghost function Elements(s: seq<Byte>): (e: seq<seq<Byte>>)
    ensures |e| > 0
    decreases |s|
  {
    var k := FirstOf(s, COMMA);
    if k == |s| then [s] else [s[..k]] + Elements(s[k + 1..])
  }

  ghost function TrimLeft(e: seq<Byte>): seq<Byte> {
    if e != [] && Ows(e[0]) then TrimLeft(e[1..]) else e
  }

  ghost function TrimRight(e: seq<Byte>): seq<Byte> {
    if e != [] && Ows(e[|e| - 1]) then TrimRight(e[..|e| - 1]) else e
  }

  ghost function Trimmed(e: seq<Byte>): seq<Byte> { TrimRight(TrimLeft(e)) }

  /** Empty, or a token, inside optional white space. */
  ghost predicate ElementOk(e: seq<Byte>) {
    forall i :: 0 <= i < |Trimmed(e)| ==> TokenChar(Trimmed(e)[i])
  }

  ghost predicate Named(e: seq<Byte>, name: seq<Byte>) { EqualIgnoringCase(Trimmed(e), name) }

  ghost predicate AllOk(e: seq<seq<Byte>>) { forall i :: 0 <= i < |e| ==> ElementOk(e[i]) }

  ghost predicate AnyNamed(e: seq<seq<Byte>>, name: seq<Byte>) { exists i :: 0 <= i < |e| && Named(e[i], name) }

  ghost predicate ListOk(s: seq<Byte>) { AllOk(Elements(s)) }

  ghost predicate Mentions(s: seq<Byte>, name: seq<Byte>) { AnyNamed(Elements(s), name) }

  ghost predicate FieldValueOk(s: seq<Byte>) {
    forall i :: 0 <= i < |s| ==> s[i] == 9 || (s[i] >= 32 && s[i] != 127)
  }

  // ---- Reading the list from the left ----------------------------------------

  lemma Cons(first: seq<Byte>, rest: seq<seq<Byte>>, name: seq<Byte>)
    ensures AllOk([first] + rest) <==> ElementOk(first) && AllOk(rest)
    ensures AnyNamed([first] + rest, name) <==> Named(first, name) || AnyNamed(rest, name)
  {
    hide ElementOk, Named;
    var e := [first] + rest;
    assert e[0] == first && forall i :: 0 <= i < |rest| ==> e[i + 1] == rest[i];
    if AnyNamed(rest, name) {
      var i :| 0 <= i < |rest| && Named(rest[i], name);
      assert Named(e[i + 1], name);
    }
    if AnyNamed(e, name) {
      var i :| 0 <= i < |e| && Named(e[i], name);
      assert i == 0 || Named(rest[i - 1], name);
    }
    if AllOk(e) {
      forall i | 0 <= i < |rest|
        ensures ElementOk(rest[i])
      {
        assert ElementOk(e[i + 1]);
      }
    }
  }

  /** The first element and the rest. */
  lemma ListStep(s: seq<Byte>, k: nat)
    requires k == FirstOf(s, COMMA)
    ensures ListOk(s) <==> ElementOk(s[..k]) && (k < |s| ==> ListOk(s[k + 1..]))
    ensures Mentions(s, CLOSE_TOKEN) <==> Named(s[..k], CLOSE_TOKEN) || (k < |s| && Mentions(s[k + 1..], CLOSE_TOKEN))
  {
    hide ElementOk, Named, FirstOf, AllOk, AnyNamed;
    assert s[..|s|] == s;
    Cons(s[..k], if k < |s| then Elements(s[k + 1..]) else [], CLOSE_TOKEN);
    NoneOk(CLOSE_TOKEN);
    assert [s] + [] == [s];
  }

  lemma NoneOk(name: seq<Byte>)
    ensures AllOk([]) && !AnyNamed([], name)
  {
  }

  lemma EmptyElement()
    ensures ElementOk([]) && !Named([], CLOSE_TOKEN)
  {
  }

  /** White space and commas in front change nothing. */
  lemma SkipOne(s: seq<Byte>)
    requires s != [] && (Ows(s[0]) || s[0] == COMMA)
    ensures ListOk(s) <==> ListOk(s[1..])
    ensures Mentions(s, CLOSE_TOKEN) <==> Mentions(s[1..], CLOSE_TOKEN)
  {
    hide ListOk, Mentions;
    var k := FirstOf(s, COMMA);
    ListStep(s, k);
    if s[0] == COMMA {
      FirstIs(s, COMMA, 0);
      assert s[..0] == [];
      EmptyElement();
    } else {
      var t := s[1..];
      FirstIs(t, COMMA, k - 1);
      ListStep(t, k - 1);
      assert s[..k][1..] == t[..k - 1];
      if k < |s| { assert t[k..] == s[k + 1..]; }
      assert Trimmed(s[..k]) == Trimmed(t[..k - 1]);
    }
  }

  lemma {:induction false} TrimRightRun(e: seq<Byte>, t: nat)
    requires t <= |e| && (t > 0 ==> !Ows(e[t - 1])) && forall i :: t <= i < |e| ==> Ows(e[i])
    ensures TrimRight(e) == e[..t]
  {
    if t < |e| {
      TrimRightRun(e[..|e| - 1], t);
      assert e[..|e| - 1][..t] == e[..t];
    } else {
      assert e[..t] == e;
    }
  }

  /** What is trimmed from the right is white space only. */
  lemma {:induction false} TrimRightKeeps(e: seq<Byte>, j: nat)
    requires j < |e| && !Ows(e[j])
    ensures j < |TrimRight(e)| && TrimRight(e) <= e
  {
    if Ows(e[|e| - 1]) {
      TrimRightKeeps(e[..|e| - 1], j);
      assert e[..|e| - 1] <= e;
    }
  }

  /** An element that is a token followed by white space. */
  lemma TokenElement(e: seq<Byte>, t: nat)
    requires 0 < t <= |e| && (forall i :: 0 <= i < t ==> TokenChar(e[i])) && forall i :: t <= i < |e| ==> Ows(e[i])
    ensures Trimmed(e) == e[..t] && ElementOk(e)
    ensures Named(e, CLOSE_TOKEN) <==> EqualIgnoringCase(e[..t], CLOSE_TOKEN)
  {
    TrimRightRun(e, t);
  }

  /** Something that is neither a token nor white space at the end spoils an element. */
  lemma SpoiledElement(e: seq<Byte>, t: nat, j: nat)
    requires t <= j < |e| && !Ows(e[0]) && !Ows(e[j]) && !TokenChar(e[t])
    ensures !ElementOk(e)
  {
    TrimRightKeeps(e, j);
    assert Trimmed(e)[t] == e[t];
  }

  /** A list has to start with a token, white space or a comma. */
  lemma BadStart(r: seq<Byte>)
    requires r != [] && !Ows(r[0]) && r[0] != COMMA && !TokenChar(r[0])
    ensures !ListOk(r)
  {
    var k := FirstOf(r, COMMA);
    hide ListOk, ElementOk;
    ListStep(r, k);
    SpoiledElement(r[..k], 0, 0);
  }

  /** `t` token characters and white space up to `j`: good only in front of a comma or the end. */
  lemma ElementOutcome(r: seq<Byte>, t: nat, j: nat)
    requires 0 < t <= j <= |r| && (forall i :: 0 <= i < t ==> TokenChar(r[i])) && (forall i :: t <= i < j ==> Ows(r[i]))
    requires (t < |r| ==> !TokenChar(r[t])) && (j < |r| ==> !Ows(r[j]))
    ensures if j < |r| && r[j] != COMMA then !ListOk(r)
            else var rest := if j < |r| then r[j + 1..] else [];
                 && (ListOk(r) <==> ListOk(rest))
                 && (Mentions(r, CLOSE_TOKEN) <==> EqualIgnoringCase(r[..t], CLOSE_TOKEN) || Mentions(rest, CLOSE_TOKEN))
  {
    var k := FirstOf(r, COMMA);
    hide ListOk, ElementOk, Mentions, Named, EqualIgnoringCase;
    ListStep(r, k);
    EmptyList();
    if j < |r| && r[j] != COMMA {
      SpoiledElement(r[..k], t, j);
    } else {
      FirstIs(r, COMMA, j);
      TokenElement(r[..k], t);
      assert r[..k][..t] == r[..t];
    }
  }

  // ---- The recogniser --------------------------------------------------------

  method AsciiEqualIgnoringCase(a: seq<Byte>, b: seq<Byte>) returns (equal: bool)
    ensures equal <==> EqualIgnoringCase(a, b)
  {
    if |a| != |b| { return false; }
    for i := 0 to |a|
      invariant forall k :: 0 <= k < i ==> ToLower(a[k]) == ToLower(b[k])
    {
      if ToLower(a[i]) != ToLower(b[i]) { return false; }
    }
    equal := true;
  }

  method FieldValueValid(s: seq<Byte>) returns (ok: bool)
    ensures ok <==> FieldValueOk(s)
  {
    for i := 0 to |s|
      invariant forall k :: 0 <= k < i ==> s[k] == 9 || (s[k] >= 32 && s[k] != 127)
    {
      if s[i] != 9 && (s[i] < 32 || s[i] == 127) { return false; }
    }
    ok := true;
  }

  /** Skips white space and commas. */
  method SkipSeparators(s: seq<Byte>, start: nat) returns (i: nat)
    requires start <= |s|
    ensures start <= i <= |s| && (i < |s| ==> !Ows(s[i]) && s[i] != COMMA)
    ensures ListOk(s[start..]) <==> ListOk(s[i..])
    ensures Mentions(s[start..], CLOSE_TOKEN) <==> Mentions(s[i..], CLOSE_TOKEN)
  {
    hide ListOk, Mentions;
    i := start;
    while i < |s| && (Ows(s[i]) || s[i] == COMMA)
      invariant start <= i <= |s|
      invariant ListOk(s[start..]) <==> ListOk(s[i..])
      invariant Mentions(s[start..], CLOSE_TOKEN) <==> Mentions(s[i..], CLOSE_TOKEN)
    {
      SkipOne(s[i..]);
      assert s[i..][1..] == s[i + 1..];
      i := i + 1;
    }
  }

  /** Accepts exactly the lists of tokens, and finds "close" among them in any case. */
  method ConnectionValueHasClose(s: seq<Byte>) returns (status: int, close: bool)
    ensures status == if FieldValueOk(s) && ListOk(s) then OK else EINVAL
    ensures status == OK ==> (close <==> Mentions(s, CLOSE_TOKEN))
  {
    close := false;
    var valid := FieldValueValid(s);
    if !valid { return EINVAL, false; }
    hide FieldValueOk, ListOk, Mentions, ElementOk, Named;
    var index := 0;
    assert s[0..] == s;
    EmptyList();
    while index < |s|
      invariant 0 <= index <= |s|
      invariant ListOk(s) <==> ListOk(s[index..])
      invariant Mentions(s, CLOSE_TOKEN) <==> close || Mentions(s[index..], CLOSE_TOKEN)
    {
      index := SkipSeparators(s, index);
      if index == |s| { break; }
      var named;
      status, index, named := ReadElement(s, index);
      if status != OK { return EINVAL, false; }
      if named { close := true; }
    }
    assert s[|s|..] == [];
    status := OK;
  }

  lemma EmptyList()
    ensures ListOk([]) && !Mentions([], CLOSE_TOKEN)
  {
    FirstIs([], COMMA, 0);
    ListStep([], 0);
    EmptyElement();
  }

  method TokenEnd(s: seq<Byte>, start: nat) returns (i: nat)
    requires start <= |s|
    ensures start <= i <= |s| && (forall k :: start <= k < i ==> TokenChar(s[k])) && (i < |s| ==> !TokenChar(s[i]))
  {
    i := start;
    while i < |s| && TokenChar(s[i])
      invariant start <= i <= |s| && forall k :: start <= k < i ==> TokenChar(s[k])
    {
      i := i + 1;
    }
  }

  method OwsEnd(s: seq<Byte>, start: nat) returns (i: nat)
    requires start <= |s|
    ensures start <= i <= |s| && (forall k :: start <= k < i ==> Ows(s[k])) && (i < |s| ==> !Ows(s[i]))
  {
    i := start;
    while i < |s| && Ows(s[i])
      invariant start <= i <= |s| && forall k :: start <= k < i ==> Ows(s[k])
    {
      i := i + 1;
    }
  }

  /** One element and the comma behind it. */
  method ReadElement(s: seq<Byte>, start: nat) returns (status: int, next: nat, named: bool)
    requires start < |s| && !Ows(s[start]) && s[start] != COMMA
    ensures status == OK ==>
              && start < next <= |s| && (ListOk(s[start..]) <==> ListOk(s[next..]))
              && (Mentions(s[start..], CLOSE_TOKEN) <==> named || Mentions(s[next..], CLOSE_TOKEN))
    ensures status != OK ==> !ListOk(s[start..])
  {
    hide ListOk, Mentions, EqualIgnoringCase;
    var token := TokenEnd(s, start);
    ghost var r, t := s[start..], token - start;
    if token == start {
      BadStart(r);
      return EINVAL, start, false;
    }
    named := AsciiEqualIgnoringCase(s[start..token], CLOSE_TOKEN);
    next := OwsEnd(s, token);
    ghost var j := next - start;
    ElementOutcome(r, t, j);
    assert r[..t] == s[start..token];
    hide TokenChar, Ows;
    if next < |s| {
      if s[next] != COMMA { return EINVAL, next, false; }
      assert r[j + 1..] == s[next + 1..];
      return OK, next + 1, named;
    }
    assert s[next..] == [];
    status := OK;
  }

  // ---- A whole header section ------------------------------------------------

  datatype Field = Field(name: seq<Byte>, value: seq<Byte>)

  const CONNECTION: seq<Byte> := ['C' as int, 'o' as int, 'n' as int, 'n' as int, 'e' as int, 'c' as int, 't' as int,
                                  'i' as int, 'o' as int, 'n' as int]

  ghost predicate IsConnection(f: Field) { EqualIgnoringCase(f.name, CONNECTION) }

  ghost predicate ConnectionOk(f: Field) { IsConnection(f) ==> FieldValueOk(f.value) && ListOk(f.value) }

  ghost predicate AsksToClose(f: Field) { IsConnection(f) && Mentions(f.value, CLOSE_TOKEN) }

  /** All Connection fields count as one list; one malformed field refuses the request. */
  method ConnectionClose(fields: seq<Field>) returns (status: int, close: bool)
    ensures status == OK <==> forall i :: 0 <= i < |fields| ==> ConnectionOk(fields[i])
    ensures status == OK ==> (close <==> exists i :: 0 <= i < |fields| && AsksToClose(fields[i]))
    ensures status == OK || status == EINVAL
  {
    close := false;
    for i := 0 to |fields|
      invariant forall k :: 0 <= k < i ==> ConnectionOk(fields[k])
      invariant close <==> exists k :: 0 <= k < i && AsksToClose(fields[k])
    {
      var f := fields[i];
      var connection := AsciiEqualIgnoringCase(f.name, CONNECTION);
      if connection {
        var found;
        status, found := ConnectionValueHasClose(f.value);
        if status != OK {
          assert !ConnectionOk(fields[i]);
          return EINVAL, false;
        }
        close := close || found;
      }
    }
    status := OK;
  }
}
