/** Recognisers for the host part of a URI, each proved to accept exactly the grammar of
    section 3.2.2 of RFC 3986. */
module UriHost {
  import opened Native

  // ---- Characters ------------------------------------------------------------

  const COLON: Byte := ':' as int
  const DOT: Byte := '.' as int
  const PERCENT: Byte := '%' as int
  const OPEN: Byte := '[' as int
  const CLOSE: Byte := ']' as int

  predicate Between(b: Byte, lo: char, hi: char) { lo as int <= b <= hi as int }

  predicate Digit(b: Byte) { Between(b, '0', '9') }

  predicate HexDigit(b: Byte) { Digit(b) || Between(b, 'A', 'F') || Between(b, 'a', 'f') }

  predicate Unreserved(b: Byte) {
    Digit(b) || Between(b, 'A', 'Z') || Between(b, 'a', 'z')
    || b == '-' as int || b == DOT || b == '_' as int || b == '~' as int
  }

  predicate SubDelim(b: Byte) {
    b in {'!' as int, '$' as int, '&' as int, '\'' as int, '(' as int, ')' as int, '*' as int, '+' as int,
          ',' as int, ';' as int, '=' as int}
  }

  // ---- The grammar -----------------------------------------------------------

  ghost predicate DecOctet(s: seq<Byte>) {
    || (|s| == 1 && Digit(s[0]))
    || (|s| == 2 && Between(s[0], '1', '9') && Digit(s[1]))
    || (|s| == 3 && s[0] == '1' as int && Digit(s[1]) && Digit(s[2]))
    || (|s| == 3 && s[0] == '2' as int && Between(s[1], '0', '4') && Digit(s[2]))
    || (|s| == 3 && s[0] == '2' as int && s[1] == '5' as int && Between(s[2], '0', '5'))
  }

  /** `dec-octet "." X`, the split being at `i`. */
  ghost predicate LeadingOctet(s: seq<Byte>, i: int) {
    0 <= i < |s| && DecOctet(s[..i]) && s[i] == DOT
  }

  /** k( dec-octet "." ) dec-octet */
  ghost predicate Octets(s: seq<Byte>, k: nat)
    decreases k
  {
    if k == 0 then DecOctet(s) else exists i :: LeadingOctet(s, i) && Octets(s[i + 1..], k - 1)
  }

  ghost predicate Ipv4Address(s: seq<Byte>) { Octets(s, 3) }

  ghost predicate H16(s: seq<Byte>) {
    1 <= |s| <= 4 && forall i :: 0 <= i < |s| ==> HexDigit(s[i])
  }

  /** `h16 ":" X`, the split being at `i`. */
  ghost predicate LeadingH16(s: seq<Byte>, i: int) {
    0 <= i < |s| && H16(s[..i]) && s[i] == COLON
  }

  ghost predicate Ls32(s: seq<Byte>) {
    (exists i :: LeadingH16(s, i) && H16(s[i + 1..])) || Ipv4Address(s)
  }

  /** k( h16 ":" ) ls32 */
  ghost predicate H16sThenLs32(s: seq<Byte>, k: nat)
    decreases k
  {
    if k == 0 then Ls32(s) else exists i :: LeadingH16(s, i) && H16sThenLs32(s[i + 1..], k - 1)
  }

  /** *k( h16 ":" ) h16 */
  ghost predicate H16s(s: seq<Byte>, k: nat)
    decreases k
  {
    H16(s) || (k > 0 && exists i :: LeadingH16(s, i) && H16s(s[i + 1..], k - 1))
  }

  /** [ *k( h16 ":" ) h16 ] */
  ghost predicate OptionalH16s(s: seq<Byte>, k: nat) {
    s == [] || H16s(s, k)
  }

  /** The alternatives of the grammar that have a "::", by what stands before and after it. */
  ghost predicate Compressed(left: seq<Byte>, right: seq<Byte>) {
    || (left == [] && H16sThenLs32(right, 5))
    || (OptionalH16s(left, 0) && H16sThenLs32(right, 4))
    || (OptionalH16s(left, 1) && H16sThenLs32(right, 3))
    || (OptionalH16s(left, 2) && H16sThenLs32(right, 2))
    || (OptionalH16s(left, 3) && H16sThenLs32(right, 1))
    || (OptionalH16s(left, 4) && Ls32(right))
    || (OptionalH16s(left, 5) && H16(right))
    || (OptionalH16s(left, 6) && right == [])
  }

  ghost predicate DoubleColonAt(s: seq<Byte>, p: int) {
    0 <= p < |s| - 1 && s[p] == COLON && s[p + 1] == COLON
  }

  ghost predicate Ipv6Address(s: seq<Byte>) {
    H16sThenLs32(s, 6) || exists p :: DoubleColonAt(s, p) && Compressed(s[..p], s[p + 2..])
  }

  ghost predicate FutureChar(b: Byte) { Unreserved(b) || SubDelim(b) || b == COLON }

  /** "v" 1*HEXDIG "." 1*( unreserved / sub-delims / ":" ), the "." being at `k`. */
  ghost predicate FutureAt(s: seq<Byte>, k: int) {
    && 2 <= k < |s| - 1 && (s[0] == 'v' as int || s[0] == 'V' as int) && s[k] == DOT
    && (forall i :: 1 <= i < k ==> HexDigit(s[i]))
    && (forall i :: k < i < |s| ==> FutureChar(s[i]))
  }

  ghost predicate IpvFuture(s: seq<Byte>) { exists k :: FutureAt(s, k) }

  ghost predicate RegName(s: seq<Byte>) {
    || s == []
    || ((Unreserved(s[0]) || SubDelim(s[0])) && RegName(s[1..]))
    || (|s| >= 3 && s[0] == PERCENT && HexDigit(s[1]) && HexDigit(s[2]) && RegName(s[3..]))
  }

  ghost predicate IpLiteral(s: seq<Byte>) {
    |s| >= 2 && s[0] == OPEN && s[|s| - 1] == CLOSE && (Ipv6Address(s[1..|s| - 1]) || IpvFuture(s[1..|s| - 1]))
  }

  /** Nothing, or ":" and any number of digits. */
  ghost predicate PortSuffix(s: seq<Byte>) {
    s == [] || (s[0] == COLON && forall i :: 1 <= i < |s| ==> Digit(s[i]))
  }

  /** host [ ":" port ], the host being `s[..end]`.  An IPv4 address also is a registered name. */
  ghost predicate HostEndsAt(s: seq<Byte>, end: int) {
    0 < end <= |s| && (IpLiteral(s[..end]) || RegName(s[..end])) && PortSuffix(s[end..])
  }

  ghost predicate HostValue(s: seq<Byte>) { exists end :: HostEndsAt(s, end) }

  // ---- Splitting at the first occurrence -------------------------------------

  function FirstOf(s: seq<Byte>, b: Byte): (k: nat)
    ensures k <= |s| && (k < |s| ==> s[k] == b)
    ensures forall i :: 0 <= i < k ==> s[i] != b
  {
    if s == [] || s[0] == b then 0 else FirstOf(s[1..], b) + 1
  }

  /** Octets of a dotted string, or -1. */
  ghost function OctetCount(s: seq<Byte>): (n: int)
    ensures n == -1 || n >= 1
    decreases |s|
  {
    var k := FirstOf(s, DOT);
    if !DecOctet(s[..k]) then -1
    else if k == |s| then 1
    else var rest := OctetCount(s[k + 1..]); if rest < 0 then -1 else rest + 1
  }

  /** Sixteen-bit groups of a colon-separated string whose last part may be an IPv4 address,
      or -1. */
  ghost function GroupCount(s: seq<Byte>): (n: int)
    ensures n == -1 || n >= 1
    decreases |s|
  {
    var k := FirstOf(s, COLON);
    if k == |s| then (if H16(s) then 1 else if Ipv4Address(s) then 2 else -1)
    else if !H16(s[..k]) then -1
    else var rest := GroupCount(s[k + 1..]); if rest < 0 then -1 else rest + 1
  }

  /** The same without an IPv4 address. */
  ghost function H16Count(s: seq<Byte>): (n: int)
    ensures n == -1 || n >= 1
    decreases |s|
  {
    var k := FirstOf(s, COLON);
    if !H16(s[..k]) then -1
    else if k == |s| then 1
    else var rest := H16Count(s[k + 1..]); if rest < 0 then -1 else rest + 1
  }

  lemma OctetPlain(s: seq<Byte>)
    requires DecOctet(s)
    ensures forall i :: 0 <= i < |s| ==> Digit(s[i])
  {
  }

  lemma FirstIs(s: seq<Byte>, b: Byte, k: nat)
    requires k <= |s| && (k < |s| ==> s[k] == b) && forall i :: 0 <= i < k ==> s[i] != b
    ensures FirstOf(s, b) == k
  {
  }

  // ---- IPv4 ------------------------------------------------------------------

  lemma LeadingOctetIsFirst(s: seq<Byte>, i: int)
    requires LeadingOctet(s, i)
    ensures i == FirstOf(s, DOT)
  {
    OctetPlain(s[..i]);
    assert forall j :: 0 <= j < i ==> s[j] == s[..i][j];
    FirstIs(s, DOT, i);
  }

  lemma OctetsUnfold(s: seq<Byte>, k: nat, c: nat)
    requires c == FirstOf(s, DOT)
    ensures k > 0 ==> (Octets(s, k) <==> LeadingOctet(s, c) && Octets(s[c + 1..], k - 1))
    ensures Octets(s, 0) <==> c == |s| && DecOctet(s)
  {
    if DecOctet(s) {
      OctetPlain(s);
      FirstIs(s, DOT, |s|);
    }
    if k > 0 && Octets(s, k) {
      var i :| LeadingOctet(s, i) && Octets(s[i + 1..], k - 1);
      LeadingOctetIsFirst(s, i);
    }
  }

  /** Counting octets from the left decides the grammar. */
  lemma {:induction false} OctetsCounted(s: seq<Byte>, k: nat)
    ensures Octets(s, k) <==> OctetCount(s) == k + 1
    decreases k
  {
    hide DecOctet, Octets, FirstOf;
    var c := FirstOf(s, DOT);
    OctetsUnfold(s, k, c);
    assert s[..|s|] == s;
    if k > 0 && c < |s| { OctetsCounted(s[c + 1..], k - 1); }
  }

  lemma Ipv4IsFourOctets(s: seq<Byte>)
    ensures Ipv4Address(s) <==> OctetCount(s) == 4
  {
    OctetsCounted(s, 3);
  }

  ghost function Decimal(s: seq<Byte>): int
    requires forall i :: 0 <= i < |s| ==> Digit(s[i])
  {
    if s == [] then 0 else Decimal(s[..|s| - 1]) * 10 + (s[|s| - 1] - '0' as int)
  }

  /** The grammar of an octet is a number up to 255 without a leading zero. */
  lemma OctetMeaning(s: seq<Byte>)
    requires 1 <= |s| <= 3 && (forall i :: 0 <= i < |s| ==> Digit(s[i])) && (|s| > 1 ==> s[0] != '0' as int)
    ensures DecOctet(s) <==> Decimal(s) <= 255
  {
    assert s[..0] == [];
    if |s| == 1 {
      assert Decimal(s) == s[0] - '0' as int;
    } else {
      assert s[..1][..0] == [];
      assert Decimal(s[..1]) == s[0] - '0' as int;
      if |s| == 2 {
        assert Decimal(s) == (s[0] - '0' as int) * 10 + (s[1] - '0' as int);
      } else {
        assert s[..2][..1] == s[..1];
        assert Decimal(s[..2]) == (s[0] - '0' as int) * 10 + (s[1] - '0' as int);
        assert Decimal(s) == ((s[0] - '0' as int) * 10 + (s[1] - '0' as int)) * 10 + (s[2] - '0' as int);
      }
    }
  }

  method Ipv4OctetValid(s: seq<Byte>) returns (ok: bool)
    ensures ok <==> DecOctet(s)
  {
    if |s| == 0 || |s| > 3 { return false; }
    if |s| > 1 && s[0] == '0' as int { return false; }
    var number := 0;
    for i := 0 to |s|
      invariant forall k :: 0 <= k < i ==> Digit(s[k])
      invariant number == Decimal(s[..i])
    {
      if !Digit(s[i]) { return false; }
      assert s[..i + 1][..i] == s[..i];
      number := number * 10 + (s[i] - '0' as int);
    }
    assert s[..|s|] == s;
    OctetMeaning(s);
    ok := number <= 255;
  }

  /** One part of a dotted string, from `start` to the next "." at `i`. */
  lemma OctetPart(s: seq<Byte>, start: nat, i: nat)
    requires start <= i <= |s| && (i < |s| ==> s[i] == DOT) && forall k :: start <= k < i ==> s[k] != DOT
    ensures var rest := if i < |s| then OctetCount(s[i + 1..]) else 0;
            OctetCount(s[start..]) == if DecOctet(s[start..i]) && rest >= 0 then rest + 1 else -1
  {
    var t := s[start..];
    FirstIs(t, DOT, i - start);
    assert t[..i - start] == s[start..i];
    if i < |s| { assert t[i - start + 1..] == s[i + 1..]; }
  }

  method Ipv4AddressValid(s: seq<Byte>) returns (ok: bool)
    ensures ok <==> Ipv4Address(s)
  {
    hide Ipv4Address, DecOctet, OctetCount;
    Ipv4IsFourOctets(s);
    if |s| == 0 {
      OctetPart(s, 0, 0);
      return false;
    }
    var start, parts := 0, 0;
    assert s[0..] == s;
    for i := 0 to |s| + 1
      invariant 0 <= parts <= 4 && 0 <= start <= i
      invariant i <= |s| ==> forall k :: start <= k < i ==> s[k] != DOT
      invariant i <= |s| ==> OctetCount(s) == if OctetCount(s[start..]) < 0 then -1 else parts + OctetCount(s[start..])
      invariant i == |s| + 1 ==> OctetCount(s) == parts
    {
      if i == |s| || s[i] == DOT {
        OctetPart(s, start, i);
        if parts >= 4 { return false; }
        var octet := Ipv4OctetValid(s[start..i]);
        if !octet { return false; }
        parts := parts + 1;
        start := i + 1;
      }
    }
    ok := parts == 4;
  }

  // ---- IPv6: counting groups decides the grammar -----------------------------

  ghost predicate DotDigits(s: seq<Byte>) {
    forall i :: 0 <= i < |s| ==> Digit(s[i]) || s[i] == DOT
  }

  lemma DotDigitsJoin(s: seq<Byte>, i: nat)
    requires LeadingOctet(s, i) && DotDigits(s[i + 1..])
    ensures DotDigits(s) && DOT in s
  {
    OctetPlain(s[..i]);
    hide DecOctet;
    assert s == s[..i] + [s[i]] + s[i + 1..];
  }

  lemma {:induction false} OctetsPlain(s: seq<Byte>, k: nat)
    requires Octets(s, k)
    ensures DotDigits(s) && (k > 0 ==> DOT in s)
    decreases k
  {
    if k == 0 {
      OctetPlain(s);
    } else {
      var i :| LeadingOctet(s, i) && Octets(s[i + 1..], k - 1);
      hide DecOctet, DotDigits;
      OctetsPlain(s[i + 1..], k - 1);
      DotDigitsJoin(s, i);
    }
  }

  lemma H16Plain(s: seq<Byte>)
    requires H16(s)
    ensures COLON !in s && DOT !in s && CLOSE !in s && FirstOf(s, COLON) == |s|
  {
    FirstIs(s, COLON, |s|);
  }

  lemma Ipv4Plain(s: seq<Byte>)
    requires Ipv4Address(s)
    ensures COLON !in s && DOT in s && CLOSE !in s && FirstOf(s, COLON) == |s| && !H16(s)
  {
    hide Octets, FirstOf;
    OctetsPlain(s, 3);
    FirstIs(s, COLON, |s|);
    if H16(s) { H16Plain(s); assert false; }
  }

  lemma LeadingH16IsFirst(s: seq<Byte>, i: int)
    requires LeadingH16(s, i)
    ensures i == FirstOf(s, COLON)
  {
    H16Plain(s[..i]);
    assert forall j :: 0 <= j < i ==> s[j] == s[..i][j];
    FirstIs(s, COLON, i);
  }

  /** One group and the rest. */
  lemma GroupStep(s: seq<Byte>, c: nat)
    requires c == FirstOf(s, COLON) < |s|
    ensures GroupCount(s) == if LeadingH16(s, c) && GroupCount(s[c + 1..]) > 0 then GroupCount(s[c + 1..]) + 1 else -1
    ensures H16Count(s) == if LeadingH16(s, c) && H16Count(s[c + 1..]) > 0 then H16Count(s[c + 1..]) + 1 else -1
    ensures !H16(s) && !Ipv4Address(s)
  {
    NotSingle(s, c);
    hide Ipv4Address, H16, FirstOf;
  }

  lemma NotSingle(s: seq<Byte>, c: nat)
    requires c == FirstOf(s, COLON) < |s|
    ensures !H16(s) && !Ipv4Address(s)
  {
    hide Ipv4Address, H16, FirstOf;
    if H16(s) { H16Plain(s); assert false; }
    if Ipv4Address(s) { Ipv4Plain(s); assert false; }
  }

  lemma GroupSingle(s: seq<Byte>)
    ensures GroupCount(s) == 1 <==> H16(s)
    ensures FirstOf(s, COLON) == |s| ==> GroupCount(s) == if H16(s) then 1 else if Ipv4Address(s) then 2 else -1
    ensures FirstOf(s, COLON) == |s| ==> H16Count(s) == if H16(s) then 1 else -1
  {
    assert s[..|s|] == s;
    if H16(s) { H16Plain(s); }
    if FirstOf(s, COLON) < |s| { GroupStep(s, FirstOf(s, COLON)); }
  }

  lemma Ls32Counted(s: seq<Byte>)
    ensures Ls32(s) <==> GroupCount(s) == 2
  {
    var c := FirstOf(s, COLON);
    GroupSingle(s);
    if Ipv4Address(s) { Ipv4Plain(s); }
    if c < |s| {
      GroupStep(s, c);
      GroupSingle(s[c + 1..]);
      if GroupCount(s) == 2 { assert LeadingH16(s, c) && H16(s[c + 1..]); }
    }
    hide H16, GroupCount, FirstOf, Ipv4Address;
    if i :| LeadingH16(s, i) && H16(s[i + 1..]) { LeadingH16IsFirst(s, i); }
  }

  /** The split is always at the first ":". */
  lemma ThenLs32Unfold(s: seq<Byte>, k: nat, c: nat)
    requires k > 0 && c == FirstOf(s, COLON)
    ensures H16sThenLs32(s, k) <==> LeadingH16(s, c) && H16sThenLs32(s[c + 1..], k - 1)
  {
    if H16sThenLs32(s, k) {
      var i :| LeadingH16(s, i) && H16sThenLs32(s[i + 1..], k - 1);
      LeadingH16IsFirst(s, i);
    }
  }

  lemma GroupsCountedBase(s: seq<Byte>)
    ensures H16sThenLs32(s, 0) <==> GroupCount(s) == 2
  {
    hide GroupCount, Ls32;
    Ls32Counted(s);
  }

  lemma {:induction false} GroupsCounted(s: seq<Byte>, k: nat)
    ensures H16sThenLs32(s, k) <==> GroupCount(s) == k + 2
    decreases k
  {
    hide H16, H16sThenLs32, GroupCount, H16Count, FirstOf, Ipv4Address;
    if k == 0 {
      GroupsCountedBase(s);
    } else {
      var c := FirstOf(s, COLON);
      ThenLs32Unfold(s, k, c);
      GroupSingle(s);
      if c < |s| {
        GroupStep(s, c);
        GroupsCounted(s[c + 1..], k - 1);
      }
    }
  }

  lemma H16sUnfold(s: seq<Byte>, k: nat, c: nat)
    requires c == FirstOf(s, COLON)
    ensures H16s(s, k) <==> H16(s) || (k > 0 && LeadingH16(s, c) && H16s(s[c + 1..], k - 1))
  {
    if H16s(s, k) && !H16(s) {
      var i :| LeadingH16(s, i) && H16s(s[i + 1..], k - 1);
      LeadingH16IsFirst(s, i);
    }
  }

  lemma {:induction false} H16sCounted(s: seq<Byte>, k: nat)
    ensures H16s(s, k) <==> 1 <= H16Count(s) <= k + 1
    decreases k
  {
    hide H16s, H16, GroupCount, H16Count, FirstOf, Ipv4Address;
    var c := FirstOf(s, COLON);
    H16sUnfold(s, k, c);
    GroupSingle(s);
    if c < |s| {
      GroupStep(s, c);
      if k > 0 { H16sCounted(s[c + 1..], k - 1); }
    }
  }

  ghost function LeftCount(s: seq<Byte>): int { if s == [] then 0 else H16Count(s) }

  ghost function RightCount(s: seq<Byte>): int { if s == [] then 0 else GroupCount(s) }

  lemma LeftCounted(s: seq<Byte>, k: nat)
    ensures OptionalH16s(s, k) <==> 0 <= LeftCount(s) <= k + 1
    ensures s == [] <==> LeftCount(s) == 0
  {
    H16sCounted(s, k);
  }

  lemma RightCounted(s: seq<Byte>, k: nat)
    ensures H16sThenLs32(s, k) <==> RightCount(s) == k + 2
    ensures Ls32(s) <==> RightCount(s) == 2
    ensures H16(s) <==> RightCount(s) == 1
    ensures s == [] <==> RightCount(s) == 0
  {
    GroupsCounted(s, k);
    Ls32Counted(s);
    GroupSingle(s);
    EmptyUncounted();
  }

  /** How many groups may stand on either side of the "::". */
  lemma CompressedCounted(left: seq<Byte>, right: seq<Byte>)
    ensures Compressed(left, right) <==>
              LeftCount(left) >= 0 && RightCount(right) >= 0 && LeftCount(left) + RightCount(right) <= 7
  {
    hide OptionalH16s, H16sThenLs32, Ls32, H16, LeftCount, RightCount;
    LeftCounted(left, 0);
    LeftCounted(left, 1);
    LeftCounted(left, 2);
    LeftCounted(left, 3);
    LeftCounted(left, 4);
    LeftCounted(left, 5);
    LeftCounted(left, 6);
    RightCounted(right, 5);
    RightCounted(right, 4);
    RightCounted(right, 3);
    RightCounted(right, 2);
    RightCounted(right, 1);
  }

  lemma EmptyUncounted()
    ensures GroupCount([]) == -1 && H16Count([]) == -1
  {
    assert GroupCount([]) != 2 by { Ls32Counted([]); OctetPlainEmpty(); }
  }

  lemma OctetPlainEmpty()
    ensures !Ipv4Address([])
  {
    if Ipv4Address([]) { OctetsPlain([], 3); assert false; }
  }

  // ---- IPv6: the scanner -----------------------------------------------------

  ghost predicate Enough(groups: int, compressed: bool) { if compressed then groups < 8 else groups == 8 }

  /** What is left to read decides acceptance, given the groups seen and whether "::" was. */
  ghost predicate Accepts(r: seq<Byte>, groups: int, compressed: bool)
    decreases |r|
  {
    var k := FirstOf(r, COLON);
    if r == [] then Enough(groups, compressed)
    else if DOT in r[..k] then k == |r| && Ipv4Address(r) && groups <= 6 && Enough(groups + 2, compressed)
    else if !H16(r[..k]) || groups >= 8 then false
    else if k == |r| then Enough(groups + 1, compressed)
    else if k + 1 == |r| then false
    else if r[k + 1] == COLON then !compressed && Accepts(r[k + 2..], groups + 1, true)
    else Accepts(r[k + 1..], groups + 1, compressed)
  }

  lemma LeadingColonUncounted(s: seq<Byte>)
    requires s != [] && s[0] == COLON
    ensures GroupCount(s) == -1 && H16Count(s) == -1
  {
    FirstIs(s, COLON, 0);
    GroupStep(s, 0);
  }

  lemma AcceptsUnfold(r: seq<Byte>, groups: nat, compressed: bool, k: nat)
    requires r != [] && k == FirstOf(r, COLON)
    ensures k == |r| ==>
              (Accepts(r, groups, compressed) <==>
               || (H16(r) && groups < 8 && Enough(groups + 1, compressed))
               || (Ipv4Address(r) && groups <= 6 && Enough(groups + 2, compressed)))
              && !(H16(r) && Ipv4Address(r))
    ensures k < |r| ==>
              (Accepts(r, groups, compressed) <==>
               && H16(r[..k]) && groups < 8 && k + 1 < |r|
               && if r[k + 1] == COLON then !compressed && Accepts(r[k + 2..], groups + 1, true)
                  else Accepts(r[k + 1..], groups + 1, compressed))
  {
    hide Ipv4Address;
    if Ipv4Address(r) { Ipv4Plain(r); }
    if H16(r[..k]) { H16Plain(r[..k]); }
    if k == |r| { assert r[..k] == r; }
  }

  /** After the "::", the rest is a list of groups, short enough. */
  lemma {:induction false} AcceptsRight(r: seq<Byte>, groups: nat)
    ensures Accepts(r, groups, true) <==> RightCount(r) >= 0 && groups + RightCount(r) < 8
    decreases |r|
  {
    if r == [] {
      assert RightCount(r) == 0;
    } else {
      hide H16, GroupCount, H16Count, FirstOf, Ipv4Address, Accepts;
      var k := FirstOf(r, COLON);
      AcceptsUnfold(r, groups, true, k);
      GroupSingle(r);
      if k < |r| {
        GroupStep(r, k);
        EmptyUncounted();
        if k + 1 < |r| {
          if r[k + 1] == COLON { LeadingColonUncounted(r[k + 1..]); } else { AcceptsRight(r[k + 1..], groups + 1); }
        }
      }
    }
  }

  lemma Slices(s: seq<Byte>, a: nat, i: nat)
    requires a + i <= |s|
    ensures s[a..][..i] == s[a..a + i] && s[a..][i..] == s[a + i..]
  {
  }

  /** A "::" at `p` with a list of groups before it and few enough groups in all. */
  ghost predicate SplitAt(r: seq<Byte>, groups: nat, p: int) {
    && DoubleColonAt(r, p) && H16Count(r[..p]) > 0 && RightCount(r[p + 2..]) >= 0
    && groups + H16Count(r[..p]) + RightCount(r[p + 2..]) < 8
  }

  ghost predicate Splits(r: seq<Byte>, groups: nat) { exists p :: SplitAt(r, groups, p) }

  lemma PrefixCount(r: seq<Byte>, k: nat, p: nat)
    requires k == FirstOf(r, COLON) && k <= p <= |r|
    ensures p == k ==> H16Count(r[..p]) == if H16(r[..k]) then 1 else -1
    ensures p > k ==>
              H16Count(r[..p]) == if H16(r[..k]) && H16Count(r[k + 1..p]) > 0 then H16Count(r[k + 1..p]) + 1 else -1
  {
    var u := r[..p];
    FirstIs(u, COLON, k);
    if p == k {
      GroupSingle(u);
    } else {
      GroupStep(u, k);
      assert u[..k] == r[..k] && u[k + 1..] == r[k + 1..p];
    }
  }

  lemma SplitFirst(r: seq<Byte>, groups: nat, k: nat, p: int)
    requires k == FirstOf(r, COLON) && SplitAt(r, groups, p)
    ensures k <= p && k + 1 < |r| && (p == k ==> r[k + 1] == COLON) && groups < 8
  {
    hide H16Count, FirstOf, RightCount;
    assert p >= k;
  }

  lemma SplitAtFirst(r: seq<Byte>, groups: nat, k: nat)
    requires k == FirstOf(r, COLON) && SplitAt(r, groups, k)
    ensures H16(r[..k]) && RightCount(r[k + 2..]) >= 0 && groups + 1 + RightCount(r[k + 2..]) < 8
  {
    hide H16, H16Count, FirstOf, RightCount;
    PrefixCount(r, k, k);
  }

  /** A split behind the first ":" is a split of what follows it. */
  lemma SplitBeyond(r: seq<Byte>, groups: nat, k: nat, p: int)
    requires k == FirstOf(r, COLON) && SplitAt(r, groups, p) && k < p
    ensures r[k + 1] != COLON && H16(r[..k]) && k + 1 < p && SplitAt(r[k + 1..], groups + 1, p - k - 1)
  {
    hide H16, H16Count, FirstOf, RightCount;
    PrefixCount(r, k, p);
    var t, q := r[k + 1..], p - k - 1;
    assert t[..q] == r[k + 1..p];
    assert H16Count(t[..q]) > 0;
    EmptyUncounted();
    assert q > 0;
    if t[0] == COLON {
      LeadingColonUncounted(t[..q]);
      assert false;
    }
    Slices(r, k + 1, q + 2);
  }

  lemma SplitBack(r: seq<Byte>, groups: nat, k: nat, q: int)
    requires k == FirstOf(r, COLON) < |r| && H16(r[..k]) && SplitAt(r[k + 1..], groups + 1, q)
    ensures SplitAt(r, groups, q + k + 1)
  {
    hide H16, GroupCount, H16Count, FirstOf, RightCount;
    var t, p := r[k + 1..], q + k + 1;
    PrefixCount(r, k, p);
    assert t[..q] == r[k + 1..p];
    Slices(r, k + 1, q + 2);
  }

  lemma SplitHere(r: seq<Byte>, groups: nat, k: nat)
    requires k == FirstOf(r, COLON) && DoubleColonAt(r, k) && H16(r[..k])
    requires RightCount(r[k + 2..]) >= 0 && groups + 1 + RightCount(r[k + 2..]) < 8
    ensures SplitAt(r, groups, k)
  {
    PrefixCount(r, k, k);
  }

  lemma SplitUnfold(r: seq<Byte>, groups: nat, k: nat)
    requires k == FirstOf(r, COLON) < |r|
    ensures Splits(r, groups) <==>
              && H16(r[..k]) && k + 1 < |r|
              && if r[k + 1] == COLON then RightCount(r[k + 2..]) >= 0 && groups + 1 + RightCount(r[k + 2..]) < 8
                 else Splits(r[k + 1..], groups + 1)
    ensures Splits(r, groups) ==> groups < 8
  {
    hide H16, GroupCount, H16Count, FirstOf, RightCount, SplitAt;
    if Splits(r, groups) {
      var p :| SplitAt(r, groups, p);
      SplitFirst(r, groups, k, p);
      if p == k { SplitAtFirst(r, groups, k); } else { SplitBeyond(r, groups, k, p); }
    }
    if H16(r[..k]) && k + 1 < |r| {
      if r[k + 1] != COLON {
        var rest, seen := r[k + 1..], groups + 1;
        if q :| SplitAt(rest, seen, q) { SplitBack(r, groups, k, q); }
      } else if RightCount(r[k + 2..]) >= 0 && groups + 1 + RightCount(r[k + 2..]) < 8 {
        SplitHere(r, groups, k);
      }
    }
  }

  lemma NoColonNoSplit(r: seq<Byte>, groups: nat)
    requires FirstOf(r, COLON) == |r|
    ensures !Splits(r, groups)
  {
    assert forall i :: 0 <= i < |r| ==> r[i] != COLON;
  }

  /** Before any "::", the rest either has eight groups in all or is split by one. */
  lemma {:induction false} AcceptsLeft(r: seq<Byte>, groups: nat)
    requires r != []
    ensures Accepts(r, groups, false) <==> (GroupCount(r) > 0 && groups + GroupCount(r) == 8) || Splits(r, groups)
    decreases |r|
  {
    hide H16, GroupCount, H16Count, FirstOf, SplitAt, Splits, Ipv4Address, Accepts;
    var k := FirstOf(r, COLON);
    GroupSingle(r);
    AcceptsUnfold(r, groups, false, k);
    if k == |r| {
      NoColonNoSplit(r, groups);
    } else {
      GroupStep(r, k);
      SplitUnfold(r, groups, k);
      if k + 1 == |r| {
        EmptyUncounted();
      } else if r[k + 1] == COLON {
        LeadingColonUncounted(r[k + 1..]);
        AcceptsRight(r[k + 2..], groups + 1);
      } else {
        AcceptsLeft(r[k + 1..], groups + 1);
      }
    }
  }

  lemma SplitIsCompressed(s: seq<Byte>, p: int)
    requires s != [] && s[0] != COLON
    ensures DoubleColonAt(s, p) && Compressed(s[..p], s[p + 2..]) <==> SplitAt(s, 0, p)
  {
    hide Compressed, RightCount, H16Count;
    if DoubleColonAt(s, p) { CompressedCounted(s[..p], s[p + 2..]); }
  }

  lemma LeadingDoubleColon(s: seq<Byte>, p: int)
    requires s != [] && s[0] == COLON && DoubleColonAt(s, p)
    ensures Compressed(s[..p], s[p + 2..]) <==> p == 0 && 0 <= RightCount(s[2..]) <= 7
  {
    hide Compressed, RightCount, H16Count;
    CompressedCounted(s[..p], s[p + 2..]);
    if p > 0 { LeadingColonUncounted(s[..p]); }
  }

  /** The scan from the left decides the nine alternatives of the grammar. */
  lemma Ipv6Scanned(s: seq<Byte>)
    requires s != []
    ensures Ipv6Address(s) <==>
              if DoubleColonAt(s, 0) then Accepts(s[2..], 0, true) else s[0] != COLON && Accepts(s, 0, false)
  {
    hide H16sThenLs32, Compressed, Accepts, RightCount, GroupCount, H16Count, SplitAt;
    GroupsCounted(s, 6);
    if s[0] == COLON {
      LeadingColonUncounted(s);
      forall p | DoubleColonAt(s, p)
        ensures Compressed(s[..p], s[p + 2..]) <==> p == 0 && 0 <= RightCount(s[2..]) <= 7
      {
        LeadingDoubleColon(s, p);
      }
      if DoubleColonAt(s, 0) { AcceptsRight(s[2..], 0); }
    } else {
      AcceptsLeft(s, 0);
      forall p
        ensures DoubleColonAt(s, p) && Compressed(s[..p], s[p + 2..]) <==> SplitAt(s, 0, p)
      {
        SplitIsCompressed(s, p);
      }
    }
  }

  method H16Valid(s: seq<Byte>) returns (ok: bool)
    ensures ok <==> H16(s)
  {
    if |s| == 0 || |s| > 4 { return false; }
    for i := 0 to |s|
      invariant forall k :: 0 <= k < i ==> HexDigit(s[k])
    {
      if !HexDigit(s[i]) { return false; }
    }
    ok := true;
  }

  /** The next `b` at or behind `start`, or the end. */
  method Find(s: seq<Byte>, start: nat, b: Byte) returns (i: nat)
    requires start <= |s|
    ensures start <= i <= |s| && i - start == FirstOf(s[start..], b)
    ensures (i < |s| ==> s[i] == b) && forall k :: start <= k < i ==> s[k] != b
  {
    i := start;
    while i < |s| && s[i] != b
      invariant start <= i <= |s| && forall k :: start <= k < i ==> s[k] != b
    {
      i := i + 1;
    }
    FirstIs(s[start..], b, i - start);
  }

  method Contains(s: seq<Byte>, b: Byte) returns (found: bool)
    ensures found <==> b in s
  {
    for i := 0 to |s|
      invariant b !in s[..i]
    {
      if s[i] == b { return true; }
    }
    found := false;
  }

  /** One segment, from `start` to the next ":" at `i` or to the end. */
  lemma AcceptsSegment(s: seq<Byte>, start: nat, i: nat, groups: nat, compressed: bool)
    requires start < |s| && start <= i <= |s| && i - start == FirstOf(s[start..], COLON)
    ensures var segment, all := s[start..i], Accepts(s[start..], groups, compressed);
            && (segment == [] ==> !all)
            && (DOT in segment ==> (all <==> i == |s| && Ipv4Address(segment) && groups <= 6 && Enough(groups + 2, compressed)))
            && (DOT !in segment && (!H16(segment) || groups >= 8) ==> !all)
            && (DOT !in segment && H16(segment) && groups < 8 ==>
                  (all <==> if i == |s| then Enough(groups + 1, compressed)
                            else if i + 1 == |s| then false
                            else if s[i + 1] == COLON then !compressed && Accepts(s[i + 2..], groups + 1, true)
                            else Accepts(s[i + 1..], groups + 1, compressed)))
  {
    var r, k := s[start..], i - start;
    assert r[..k] == s[start..i];
    if i == |s| { assert r == s[start..i]; }
    if i + 1 < |s| {
      assert r[k + 1..] == s[i + 1..] && r[k + 2..] == s[i + 2..];
    }
    hide Ipv4Address;
  }

  lemma AcceptsEnd(s: seq<Byte>, groups: int, compressed: bool)
    ensures Accepts(s[|s|..], groups, compressed) <==> Enough(groups, compressed)
  {
  }

  /** The loop over the groups, from behind a leading "::" if there is one. */
  method ScanGroups(s: seq<Byte>, start: nat, leading: bool) returns (ok: bool)
    requires start <= |s|
    ensures ok <==> Accepts(s[start..], 0, leading)
  {
    hide Ipv4Address, H16, Accepts, FirstOf;
    var index, groups, compressed := start, 0, leading;
    while index < |s|
      invariant start <= index <= |s| && 0 <= groups <= 8
      invariant Accepts(s[start..], 0, leading) <==> Accepts(s[index..], groups, compressed)
    {
      var from := index;
      index := Find(s, from, COLON);
      AcceptsSegment(s, from, index, groups, compressed);
      if index == from { return false; }
      var segment := s[from..index];
      var dotted := Contains(segment, DOT);
      if dotted {
        var address := Ipv4AddressValid(segment);
        if index != |s| || !address || groups > 6 { return false; }
        groups := groups + 2;
        break;
      }
      var group := H16Valid(segment);
      if !group || groups >= 8 { return false; }
      groups := groups + 1;
      if index == |s| { break; }
      index := index + 1;
      if index == |s| { return false; }
      if s[index] == COLON {
        if compressed { return false; }
        compressed, index := true, index + 1;
        if index == |s| { break; }
      }
    }
    AcceptsEnd(s, groups, compressed);
    ok := if compressed then groups < 8 else groups == 8;
  }

  method Ipv6AddressValid(s: seq<Byte>) returns (ok: bool)
    ensures ok <==> Ipv6Address(s)
  {
    hide Ipv6Address, Accepts;
    if |s| == 0 {
      Ipv6Empty();
      return false;
    }
    Ipv6Scanned(s);
    assert s[0..] == s;
    if |s| >= 2 && s[0] == COLON && s[1] == COLON {
      if |s| == 2 {
        AcceptsEnd(s, 0, true);
        return true;
      }
      ok := ScanGroups(s, 2, true);
      return;
    }
    if s[0] == COLON { return false; }
    ok := ScanGroups(s, 0, false);
  }

  lemma Ipv6Empty()
    ensures !Ipv6Address([])
  {
    GroupsCounted([], 6);
    EmptyUncounted();
  }

  // ---- Other hosts -----------------------------------------------------------

  method IpvFutureValid(s: seq<Byte>) returns (ok: bool)
    ensures ok <==> IpvFuture(s)
  {
    if |s| < 4 || (s[0] != 'v' as int && s[0] != 'V' as int) { return false; }
    var index := 1;
    while index < |s| && HexDigit(s[index])
      invariant 1 <= index <= |s| && forall i :: 1 <= i < index ==> HexDigit(s[i])
    {
      index := index + 1;
    }
    ghost var dot := index;
    assert forall k :: FutureAt(s, k) ==> k == dot;
    if index == 1 || index >= |s| || s[index] != DOT { return false; }
    index := index + 1;
    if index == |s| { return false; }
    while index < |s|
      invariant dot < index <= |s| && forall i :: dot < i < index ==> FutureChar(s[i])
    {
      var b := s[index];
      if !Unreserved(b) && !SubDelim(b) && b != COLON { return false; }
      index := index + 1;
    }
    assert FutureAt(s, dot);
    ok := true;
  }

  predicate PctEncodedAt(s: seq<Byte>, i: nat) {
    i + 2 < |s| && s[i] == PERCENT && HexDigit(s[i + 1]) && HexDigit(s[i + 2])
  }

  method RegNameValid(s: seq<Byte>) returns (ok: bool)
    ensures ok <==> s != [] && RegName(s)
  {
    if |s| == 0 { return false; }
    var index := 0;
    assert s[0..] == s;
    while index < |s|
      invariant 0 <= index <= |s| && (RegName(s) <==> RegName(s[index..]))
    {
      var b := s[index];
      ghost var r := s[index..];
      assert r[1..] == s[index + 1..];
      if Unreserved(b) || SubDelim(b) {
        index := index + 1;
      } else if b == PERCENT && PctEncodedAt(s, index) {
        assert r[3..] == s[index + 3..];
        index := index + 3;
      } else {
        return false;
      }
    }
    ok := true;
  }

  method IpLiteralValid(s: seq<Byte>) returns (ok: bool)
    ensures ok <==> Ipv6Address(s) || IpvFuture(s)
  {
    if |s| == 0 {
      Ipv6Empty();
      return false;
    }
    var future := IpvFutureValid(s);
    if future { return true; }
    ok := Ipv6AddressValid(s);
  }

  lemma {:induction false} AcceptsNoClose(r: seq<Byte>, groups: nat, compressed: bool)
    requires Accepts(r, groups, compressed)
    ensures CLOSE !in r
    decreases |r|
  {
    hide H16, Ipv4Address, FirstOf, Accepts;
    if r != [] {
      var k := FirstOf(r, COLON);
      AcceptsUnfold(r, groups, compressed, k);
      if k == |r| {
        if H16(r) { H16Plain(r); } else { Ipv4Plain(r); }
      } else {
        H16Plain(r[..k]);
        var next := if r[k + 1] == COLON then k + 2 else k + 1;
        AcceptsNoClose(r[next..], groups + 1, compressed || r[k + 1] == COLON);
        assert forall i :: 0 <= i < |r| ==> r[i] == if i < k then r[..k][i] else if i < next then COLON else r[next..][i - next];
      }
    }
  }

  lemma Ipv6NoClose(t: seq<Byte>)
    requires Ipv6Address(t)
    ensures CLOSE !in t
  {
    hide Ipv6Address, Accepts;
    if t == [] {
      Ipv6Empty();
    } else {
      Ipv6Scanned(t);
      if DoubleColonAt(t, 0) {
        AcceptsNoClose(t[2..], 0, true);
        assert t == [t[0], t[1]] + t[2..];
      } else {
        AcceptsNoClose(t, 0, false);
      }
    }
  }

  /** A literal ends at its first "]". */
  lemma LiteralNoClose(t: seq<Byte>)
    requires Ipv6Address(t) || IpvFuture(t)
    ensures CLOSE !in t
  {
    if Ipv6Address(t) {
      hide Ipv6Address;
      Ipv6NoClose(t);
    }
  }

  lemma {:induction false} RegNamePlain(s: seq<Byte>)
    requires RegName(s)
    ensures COLON !in s && OPEN !in s
  {
    if s != [] {
      if (Unreserved(s[0]) || SubDelim(s[0])) && RegName(s[1..]) {
        RegNamePlain(s[1..]);
        assert s == [s[0]] + s[1..];
      } else {
        RegNamePlain(s[3..]);
        assert s == [s[0], s[1], s[2]] + s[3..];
      }
    }
  }

  /** A host that starts with "[" ends at the first "]". */
  lemma BracketedHost(s: seq<Byte>, close: nat)
    requires s != [] && s[0] == OPEN && 1 <= close <= |s|
    requires (close < |s| ==> s[close] == CLOSE) && forall i :: 1 <= i < close ==> s[i] != CLOSE
    ensures HostValue(s) <==>
              && close < |s| && (Ipv6Address(s[1..close]) || IpvFuture(s[1..close])) && PortSuffix(s[close + 1..])
  {
    hide Ipv6Address, IpvFuture, RegName, PortSuffix;
    forall end | HostEndsAt(s, end)
      ensures end == close + 1 && close < |s| && (Ipv6Address(s[1..close]) || IpvFuture(s[1..close]))
    {
      assert s[..end][0] == OPEN;
      if RegName(s[..end]) {
        RegNamePlain(s[..end]);
        assert false;
      } else {
        var t := s[..end][1..end - 1];
        LiteralNoClose(t);
        assert t == s[1..end - 1];
        assert forall i :: 1 <= i < end - 1 ==> s[i] == t[i - 1];
        assert s[end - 1] == CLOSE;
      }
    }
    if close < |s| && (Ipv6Address(s[1..close]) || IpvFuture(s[1..close])) && PortSuffix(s[close + 1..]) {
      assert s[..close + 1][1..close] == s[1..close];
      Ipv6EmptyLiteral(s[1..close]);
      assert HostEndsAt(s, close + 1);
    }
  }

  lemma Ipv6EmptyLiteral(t: seq<Byte>)
    requires Ipv6Address(t) || IpvFuture(t)
    ensures t != []
  {
    Ipv6Empty();
  }

  /** Any other host ends at the first ":". */
  lemma NamedHost(s: seq<Byte>, colon: nat)
    requires s != [] && s[0] != OPEN && colon <= |s|
    requires (colon < |s| ==> s[colon] == COLON) && forall i :: 0 <= i < colon ==> s[i] != COLON
    ensures HostValue(s) <==> colon > 0 && RegName(s[..colon]) && PortSuffix(s[colon..])
  {
    hide Ipv6Address, IpvFuture, RegName;
    forall end | HostEndsAt(s, end)
      ensures end == colon && RegName(s[..end])
    {
      assert s[..end][0] == s[0];
      RegNamePlain(s[..end]);
      assert forall i :: 0 <= i < end ==> s[i] == s[..end][i];
      assert s[..end] != [] && end <= colon;
      if end < |s| { assert s[end..][0] == s[end]; }
    }
    if colon > 0 && RegName(s[..colon]) && PortSuffix(s[colon..]) { assert HostEndsAt(s, colon); }
  }

  method HostValueValid(s: seq<Byte>) returns (ok: bool)
    ensures ok <==> HostValue(s)
  {
    if |s| == 0 { return false; }
    var end: nat;
    if s[0] == OPEN {
      var close := Find(s, 1, CLOSE);
      BracketedHost(s, close);
      hide HostValue, Ipv6Address, IpvFuture;
      if close >= |s| { return false; }
      var literal := IpLiteralValid(s[1..close]);
      if close == 1 || !literal {
        if close == 1 && literal { Ipv6EmptyLiteral(s[1..close]); }
        return false;
      }
      end := close + 1;
    } else {
      var colon := Find(s, 0, COLON);
      assert s[0..] == s;
      NamedHost(s, colon);
      hide HostValue, RegName;
      var name := RegNameValid(s[..colon]);
      if !name { return false; }
      end := colon;
    }
    ok := PortValid(s[end..]);
  }

  /** What follows the host. */
  method PortValid(s: seq<Byte>) returns (ok: bool)
    ensures ok <==> PortSuffix(s)
  {
    if |s| == 0 { return true; }
    if s[0] != COLON { return false; }
    for i := 1 to |s|
      invariant forall k :: 1 <= k < i ==> Digit(s[k])
    {
      if !Digit(s[i]) { return false; }
    }
    ok := true;
  }
}
