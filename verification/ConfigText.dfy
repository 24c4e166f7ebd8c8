/** Byte strings of the configuration: UTF-8 text, names and decimal numbers. */
module ConfigText {
  import opened Native

  // ---- UTF-8 -----------------------------------------------------------------

  predicate In(b: Byte, lo: int, hi: int) { lo <= b <= hi }

  predicate Tail(b: Byte) { In(b, 0x80, 0xBF) }

  /** One UTF8-char of section 4 of RFC 3629, the NUL character excluded. */
  predicate Utf8Char(s: seq<Byte>) {
    match |s|
    case 1 => In(s[0], 0x01, 0x7F)
    case 2 => In(s[0], 0xC2, 0xDF) && Tail(s[1])
    case 3 =>
      || (s[0] == 0xE0 && In(s[1], 0xA0, 0xBF) && Tail(s[2]))
      || (In(s[0], 0xE1, 0xEC) && Tail(s[1]) && Tail(s[2]))
      || (s[0] == 0xED && In(s[1], 0x80, 0x9F) && Tail(s[2]))
      || (In(s[0], 0xEE, 0xEF) && Tail(s[1]) && Tail(s[2]))
    case 4 =>
      || (s[0] == 0xF0 && In(s[1], 0x90, 0xBF) && Tail(s[2]) && Tail(s[3]))
      || (In(s[0], 0xF1, 0xF3) && Tail(s[1]) && Tail(s[2]) && Tail(s[3]))
      || (s[0] == 0xF4 && In(s[1], 0x80, 0x8F) && Tail(s[2]) && Tail(s[3]))
    case _ => false
  }

  /** UTF8-octets: any number of characters. */
  ghost predicate Utf8Text(s: seq<Byte>)
    decreases |s|
  {
    s == [] || exists n :: 1 <= n <= |s| && Utf8Char(s[..n]) && Utf8Text(s[n..])
  }

  /** How long a character is follows from its first byte. */
  function Needed(first: Byte): nat {
    if In(first, 0x01, 0x7F) then 1
    else if In(first, 0xC2, 0xDF) then 2
    else if In(first, 0xE0, 0xEF) then 3
    else if In(first, 0xF0, 0xF4) then 4
    else 0
  }

  lemma Utf8Step(s: seq<Byte>)
    requires s != []
    ensures var n := Needed(s[0]); Utf8Text(s) <==> 0 < n <= |s| && Utf8Char(s[..n]) && Utf8Text(s[n..])
  {
    hide Utf8Char, Needed;
    if Utf8Text(s) {
      var n :| 1 <= n <= |s| && Utf8Char(s[..n]) && Utf8Text(s[n..]);
      CharLength(s[..n]);
    }
  }

  lemma CharLength(t: seq<Byte>)
    requires Utf8Char(t)
    ensures t != [] && Needed(t[0]) == |t|
  {
  }

  /** The scalar a sequence of bytes encodes: payload bits of the first byte, then six bits
      of every other one. */
  function Scalar(s: seq<Byte>): nat
    requires 1 <= |s| <= 4
  {
    if |s| == 1 then (if s[0] < 0xE0 then s[0] % 0x20 else if s[0] < 0xF0 then s[0] % 0x10 else s[0] % 8)
    else Scalar(s[..|s| - 1]) * 64 + s[|s| - 1] % 64
  }

  function Minimum(n: nat): nat { if n == 2 then 0x80 else if n == 3 then 0x800 else 0x1_0000 }

  predicate ScalarOk(scalar: nat, minimum: nat) {
    minimum <= scalar <= 0x10_FFFF && !(0xD800 <= scalar <= 0xDFFF)
  }

  ghost predicate Tails(s: seq<Byte>) { forall k :: 1 <= k < |s| ==> Tail(s[k]) }

  lemma ScalarUnfold(s: seq<Byte>)
    requires 2 <= |s| <= 4
    ensures |s| == 2 ==> Scalar(s) == Scalar(s[..1]) * 64 + s[1] % 64
    ensures |s| == 3 ==> Scalar(s) == (Scalar(s[..1]) * 64 + s[1] % 64) * 64 + s[2] % 64
    ensures |s| == 4 ==> Scalar(s) == ((Scalar(s[..1]) * 64 + s[1] % 64) * 64 + s[2] % 64) * 64 + s[3] % 64
  {
    assert s[..2][..1] == s[..1];
    if |s| > 2 { assert s[..3][..2] == s[..2]; }
    if |s| > 3 { assert s[..3][..1] == s[..1]; }
  }

  /** Checking the decoded scalar is checking the byte ranges of the grammar. */
  lemma ScalarDecides(s: seq<Byte>)
    requires 2 <= |s| <= 4 && Needed(s[0]) == |s| && Tails(s)
    ensures ScalarOk(Scalar(s), Minimum(|s|)) <==> Utf8Char(s)
  {
    ScalarUnfold(s);
    hide Scalar;
    var a := s[..1];
    assert Scalar(a) == if s[0] < 0xE0 then s[0] - 0xC0 else if s[0] < 0xF0 then s[0] - 0xE0 else s[0] - 0xF0 by {
      ScalarFirst(s[0]);
      assert a == [s[0]];
    }
    assert s[1] % 64 == s[1] - 0x80;
    if |s| > 2 { assert s[2] % 64 == s[2] - 0x80; }
    if |s| > 3 { assert s[3] % 64 == s[3] - 0x80; }
  }

  lemma ScalarFirst(b: Byte)
    requires 0xC0 <= b < 0xF8
    ensures Scalar([b]) == if b < 0xE0 then b - 0xC0 else if b < 0xF0 then b - 0xE0 else b - 0xF0
  {
  }

  /** The tail bytes of one character. */
  method DecodeTail(s: seq<Byte>, index: nat, needed: nat) returns (ok: bool, scalar: nat)
    requires 2 <= needed <= 4 && needed <= |s| - index && Needed(s[index]) == needed
    ensures ok <==> Tails(s[index..index + needed])
    ensures ok ==> scalar == Scalar(s[index..index + needed])
  {
    scalar := Scalar(s[index..index + 1]);
    for part := 1 to needed
      invariant Tails(s[index..index + part])
      invariant scalar == Scalar(s[index..index + part])
    {
      var b := s[index + part];
      assert s[index..index + needed][part] == b;
      if b / 64 != 2 { return false, 0; }
      assert s[index..index + part + 1] == s[index..index + part] + [b];
      scalar := scalar * 64 + b % 64;
    }
    ok := true;
  }

  lemma CharTails(s: seq<Byte>)
    requires 2 <= |s| <= 4 && Utf8Char(s)
    ensures Tails(s)
  {
  }

  /** The length of the character at `index`, or 0 if there is none. */
  method ReadChar(s: seq<Byte>, index: nat) returns (n: nat)
    requires index < |s|
    ensures n <= |s| - index
    ensures n == 0 ==> !Utf8Text(s[index..])
    ensures n > 0 ==> (Utf8Text(s[index..]) <==> Utf8Text(s[index + n..]))
  {
    ghost var rest := s[index..];
    Utf8Step(rest);
    hide Utf8Text;
    var first := s[index];
    if first == 0 { return 0; }
    if first <= 0x7F {
      assert rest[1..] == s[index + 1..];
      return 1;
    }
    n := Needed(first);
    if n == 0 || n > |s| - index { return 0; }
    ghost var ch := s[index..index + n];
    assert rest[..n] == ch && rest[n..] == s[index + n..];
    hide Scalar;
    var tails, scalar := DecodeTail(s, index, n);
    if !tails {
      if Utf8Char(ch) { CharTails(ch); }
      return 0;
    }
    ScalarDecides(ch);
    hide Utf8Char;
    if !ScalarOk(scalar, Minimum(n)) { return 0; }
  }

  method Utf8Valid(s: seq<Byte>) returns (ok: bool)
    ensures ok <==> Utf8Text(s)
  {
    var index := 0;
    assert s[0..] == s;
    while index < |s|
      invariant 0 <= index <= |s| && (Utf8Text(s) <==> Utf8Text(s[index..]))
    {
      hide Utf8Text;
      var n := ReadChar(s, index);
      if n == 0 { return false; }
      index := index + n;
    }
    ok := true;
  }

  // ---- Names -----------------------------------------------------------------

  predicate Letter(b: Byte) { In(b, 'A' as int, 'Z' as int) || In(b, 'a' as int, 'z' as int) }

  predicate Digit(b: Byte) { In(b, '0' as int, '9' as int) }

  predicate NameByte(b: Byte, first: bool, environment: bool, enumeration: bool) {
    if first then Letter(b) || (if enumeration then Digit(b) else b == '_' as int)
    else Letter(b) || Digit(b) || b == '_' as int || (!environment && (b == '.' as int || b == '-' as int))
  }

  ghost predicate NameOk(name: seq<Byte>, environment: bool, enumeration: bool) {
    1 <= |name| <= 63 && forall i :: 0 <= i < |name| ==> NameByte(name[i], i == 0, environment, enumeration)
  }

  method NameValid(name: seq<Byte>, environment: bool, enumeration: bool) returns (ok: bool)
    ensures ok <==> NameOk(name, environment, enumeration)
  {
    if |name| == 0 || |name| > 63 { return false; }
    for i := 0 to |name|
      invariant forall k :: 0 <= k < i ==> NameByte(name[k], k == 0, environment, enumeration)
    {
      if !NameByte(name[i], i == 0, environment, enumeration) { return false; }
    }
    ok := true;
  }

  // ---- Decimal numbers -------------------------------------------------------

  ghost predicate Digits(s: seq<Byte>) { forall i :: 0 <= i < |s| ==> Digit(s[i]) }

  ghost function Decimal(s: seq<Byte>): nat
    requires Digits(s)
  {
    if s == [] then 0 else Decimal(s[..|s| - 1]) * 10 + (s[|s| - 1] - '0' as int)
  }

  lemma {:induction false} DecimalGrows(s: seq<Byte>, i: nat)
    requires Digits(s) && i <= |s|
    ensures Decimal(s[..i]) <= Decimal(s)
    decreases |s|
  {
    if i < |s| {
      DecimalGrows(s[..|s| - 1], i);
      assert s[..|s| - 1][..i] == s[..i];
    } else {
      assert s[..i] == s;
    }
  }

  /** The decimal digits of a number, the usual way. */
  function Rendered(n: nat): seq<Byte> {
    if n < 10 then ['0' as int + n] else Rendered(n / 10) + ['0' as int + n % 10]
  }

  /** Reading a rendered number gives the number back. */
  lemma {:induction false} DecimalRoundTrip(n: nat)
    ensures Rendered(n) != [] && Digits(Rendered(n)) && Decimal(Rendered(n)) == n
    ensures Rendered(n)[0] != '-' as int
  {
    var s := Rendered(n);
    if n < 10 {
      assert s[..0] == [];
    } else {
      DecimalRoundTrip(n / 10);
      assert s[..|s| - 1] == Rendered(n / 10);
    }
  }

  /** Reads digits without exceeding the limit. */
  method DecimalValue(s: seq<Byte>, limit: nat) returns (status: int, value: nat)
    requires 9 <= limit
    ensures status == OK <==> Digits(s) && Decimal(s) <= limit
    ensures status == OK ==> value == Decimal(s)
    ensures status in {OK, EINVAL, EOVERFLOW}
    ensures status == EOVERFLOW ==> exists i :: 0 <= i <= |s| && Digits(s[..i]) && Decimal(s[..i]) > limit
  {
    value := 0;
    for i := 0 to |s|
      invariant Digits(s[..i]) && value == Decimal(s[..i]) <= limit
    {
      assert s[..i + 1][..i] == s[..i];
      if !Digit(s[i]) {
        assert !Digits(s);
        return EINVAL, value;
      }
      var digit := s[i] - '0' as int;
      assert Digits(s[..i + 1]) && Decimal(s[..i + 1]) == value * 10 + digit;
      if value > (limit - digit) / 10 {
        TooLarge(s, i + 1, limit);
        return EOVERFLOW, value;
      }
      value := value * 10 + digit;
    }
    assert s[..|s|] == s;
    status := OK;
  }

  lemma TooLarge(s: seq<Byte>, i: nat, limit: nat)
    requires i <= |s| && Digits(s[..i]) && Decimal(s[..i]) > limit
    ensures !(Digits(s) && Decimal(s) <= limit)
  {
    if Digits(s) { DecimalGrows(s, i); }
  }
}
