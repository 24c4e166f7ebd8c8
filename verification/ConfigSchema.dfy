/** The configuration schema: descriptors, canonical values, and what a text denotes. */
module ConfigSchema {
  import opened Native
  import opened ConfigText

  const ABI_VERSION: nat := 1
  const SCHEMA_SIZE: nat := 32
  const KIND_BOOL: int := 1
  const KIND_U64: int := 2
  const KIND_I64: int := 3
  const KIND_UTF8: int := 4
  const KIND_ENUM: int := 5

  /** A string value: none, bytes of the caller's, or a place in the result's own storage. */
  datatype Text = Null | Bytes(bytes: seq<Byte>) | Stored(offset: nat, length: nat) {
    function Length(): nat {
      match this
      case Null => 0
      case Bytes(b) => |b|
      case Stored(_, n) => n
    }

    /** A stored text lies inside the store. */
    predicate Readable(store: seq<Byte>) { Stored? ==> offset + length <= |store| }

    function Content(store: seq<Byte>): seq<Byte> {
      match this
      case Null => []
      case Bytes(b) => b
      case Stored(o, n) => if o + n <= |store| then store[o..o + n] else []
    }
  }

  datatype Value = Value(u64: nat, i64: int, utf8: Text, enumValue: int, kind: int, boolean: bool, reserved0: nat)

  const ZERO := Value(0, 0, Null, 0, 0, false, 0)

  datatype Choice = Choice(name: seq<Byte>, value: int)

  datatype Descriptor = Descriptor(
    key: seq<Byte>, file: seq<Byte>, environment: seq<Byte>, commandLine: seq<Byte>,
    kind: int, reserved0: nat, flags: nat, defaultValue: Value,
    u64Min: nat, u64Max: nat, i64Min: int, i64Max: int, utf8Max: nat, choices: seq<Choice>)
  {
    predicate Required() { flags % 2 == 1 }
    predicate HasDefault() { flags / 2 % 2 == 1 }
    predicate AllowsEmpty() { flags / 4 % 2 == 1 }

    function Name(space: Namespace): seq<Byte> {
      match space
      case Key => key
      case File => file
      case Environment => environment
      case CommandLine => commandLine
    }
  }

  datatype Namespace = Key | File | Environment | CommandLine

  datatype Schema = Schema(abiVersion: nat, structSize: nat, flags: nat, descriptors: seq<Descriptor>)

  // ---- Well-formed schemas ---------------------------------------------------

  ghost predicate HasChoice(d: Descriptor, value: int) {
    exists c :: 0 <= c < |d.choices| && d.choices[c].value == value
  }

  /** Only the field of the kind is used, and its value is allowed. */
  ghost predicate Canonical(d: Descriptor, v: Value, store: seq<Byte>) {
    && v.kind == d.kind
    && if d.kind == KIND_BOOL then v == ZERO.(kind := d.kind, boolean := v.boolean)
       else if d.kind == KIND_U64 then v == ZERO.(kind := d.kind, u64 := v.u64) && d.u64Min <= v.u64 <= d.u64Max
       else if d.kind == KIND_I64 then v == ZERO.(kind := d.kind, i64 := v.i64) && d.i64Min <= v.i64 <= d.i64Max
       else if d.kind == KIND_UTF8 then
         && v == ZERO.(kind := d.kind, utf8 := v.utf8)
         && (v.utf8.Length() == 0 ==> d.AllowsEmpty()) && v.utf8.Length() <= d.utf8Max
         && v.utf8.Readable(store) && Utf8Text(v.utf8.Content(store))
       else d.kind == KIND_ENUM && v == ZERO.(kind := d.kind, enumValue := v.enumValue) && HasChoice(d, v.enumValue)
  }

  ghost predicate ChoicesOk(choices: seq<Choice>) {
    && (forall i :: 0 <= i < |choices| ==> NameOk(choices[i].name, false, true))
    && (forall i, j :: 0 <= i < j < |choices| ==>
                         choices[i].name != choices[j].name && choices[i].value != choices[j].value)
  }

  /** Constraints of other kinds than the descriptor's own are left at zero. */
  ghost predicate ConstraintsOk(d: Descriptor) {
    var noU64, noI64 := d.u64Min == 0 && d.u64Max == 0, d.i64Min == 0 && d.i64Max == 0;
    && KIND_BOOL <= d.kind <= KIND_ENUM
    && (d.kind == KIND_BOOL ==> noU64 && noI64 && d.utf8Max == 0 && d.choices == [])
    && (d.kind == KIND_U64 ==> d.u64Min <= d.u64Max && noI64 && d.utf8Max == 0 && d.choices == [])
    && (d.kind == KIND_I64 ==> noU64 && d.i64Min <= d.i64Max && d.utf8Max == 0 && d.choices == [])
    && (d.kind == KIND_UTF8 ==> noU64 && noI64 && d.choices == [])
    && (d.kind == KIND_ENUM ==> noU64 && noI64 && d.utf8Max == 0 && d.choices != [] && ChoicesOk(d.choices))
  }

  ghost predicate NamesOk(d: Descriptor) {
    NameOk(d.key, false, false) && NameOk(d.file, false, false) && NameOk(d.environment, true, false)
    && NameOk(d.commandLine, false, false)
  }

  ghost predicate DescriptorOk(d: Descriptor) {
    && d.flags <= 7 && d.Required() != d.HasDefault() && (d.AllowsEmpty() ==> d.kind == KIND_UTF8) && d.reserved0 == 0
    && NamesOk(d) && ConstraintsOk(d)
    && if d.Required() then d.defaultValue == ZERO else Canonical(d, d.defaultValue, [])
  }

  ghost predicate NamesDiffer(a: Descriptor, b: Descriptor) {
    a.key != b.key && a.file != b.file && a.environment != b.environment && a.commandLine != b.commandLine
  }

  ghost predicate SchemaOk(s: Schema) {
    && s.abiVersion == ABI_VERSION && s.structSize == SCHEMA_SIZE && s.flags == 0
    && (forall i :: 0 <= i < |s.descriptors| ==> DescriptorOk(s.descriptors[i]))
    && (forall i, j :: 0 <= i < j < |s.descriptors| ==> NamesDiffer(s.descriptors[i], s.descriptors[j]))
  }

  // ---- What a text denotes ---------------------------------------------------

  const I64_MAGNITUDE: int := 0x8000_0000_0000_0000

  const TRUE_TEXT: seq<Byte> := ['t' as int, 'r' as int, 'u' as int, 'e' as int]
  const FALSE_TEXT: seq<Byte> := ['f' as int, 'a' as int, 'l' as int, 's' as int, 'e' as int]

  ghost predicate Number(s: seq<Byte>, limit: nat) { s != [] && Digits(s) && Decimal(s) <= limit }

  ghost predicate Negative(s: seq<Byte>) { s != [] && s[0] == '-' as int }

  /** An optional minus and digits. */
  ghost predicate Integer(s: seq<Byte>) {
    if Negative(s) then Number(s[1..], I64_MAGNITUDE) else Number(s, I64_MAX)
  }

  ghost function IntegerValue(s: seq<Byte>): int
    requires Integer(s)
  {
    if Negative(s) then 0 - Decimal(s[1..]) else Decimal(s)
  }

  ghost predicate ChoiceNamed(d: Descriptor, c: int, name: seq<Byte>) { 0 <= c < |d.choices| && d.choices[c].name == name }

  /** The text denotes the value for a descriptor of this kind. */
  ghost predicate Denotes(d: Descriptor, text: seq<Byte>, v: Value) {
    if d.kind == KIND_BOOL then
      (text == TRUE_TEXT || text == FALSE_TEXT) && v == ZERO.(kind := d.kind, boolean := text == TRUE_TEXT)
    else if d.kind == KIND_U64 then
      Number(text, U64_MAX) && d.u64Min <= Decimal(text) <= d.u64Max && v == ZERO.(kind := d.kind, u64 := Decimal(text))
    else if d.kind == KIND_I64 then
      Integer(text) && d.i64Min <= IntegerValue(text) <= d.i64Max && v == ZERO.(kind := d.kind, i64 := IntegerValue(text))
    else if d.kind == KIND_UTF8 then
      && (text == [] ==> d.AllowsEmpty()) && |text| <= d.utf8Max && Utf8Text(text)
      && v == ZERO.(kind := d.kind, utf8 := Bytes(text))
    else
      d.kind == KIND_ENUM && exists c :: ChoiceNamed(d, c, text) && v == ZERO.(kind := d.kind, enumValue := d.choices[c].value)
  }

  ghost predicate TextOk(d: Descriptor, text: seq<Byte>) { exists v :: Denotes(d, text, v) }

  /** A text denotes at most one value, and only canonical ones. */
  lemma DenotesCanonical(d: Descriptor, text: seq<Byte>, v: Value, w: Value, store: seq<Byte>)
    requires DescriptorOk(d) && Denotes(d, text, v)
    ensures Canonical(d, v, store) && v.kind == d.kind && (Denotes(d, text, w) ==> w == v)
    ensures d.kind == KIND_UTF8 <==> v.utf8 != Null
    ensures d.kind == KIND_UTF8 ==> v.utf8 == Bytes(text)
  {
    if d.kind == KIND_ENUM {
      var c :| ChoiceNamed(d, c, text) && v == ZERO.(kind := d.kind, enumValue := d.choices[c].value);
      assert d.choices[c].value == v.enumValue;
    }
  }

  /** A text for a canonical value. */
  ghost function Written(d: Descriptor, v: Value, store: seq<Byte>): seq<Byte>
    requires Canonical(d, v, store)
  {
    if d.kind == KIND_BOOL then if v.boolean then TRUE_TEXT else FALSE_TEXT
    else if d.kind == KIND_U64 then Rendered(v.u64)
    else if d.kind == KIND_I64 then if v.i64 < 0 then ['-' as int] + Rendered(0 - v.i64) else Rendered(v.i64)
    else if d.kind == KIND_UTF8 then v.utf8.Content(store)
    else
      var c :| 0 <= c < |d.choices| && d.choices[c].value == v.enumValue;
      d.choices[c].name
  }

  /** Every canonical value that fits its field can be written, and reads back as itself. */
  lemma CanonicalHasText(d: Descriptor, v: Value, store: seq<Byte>)
    requires DescriptorOk(d) && Canonical(d, v, store) && v.u64 <= U64_MAX && I64_MIN <= v.i64 <= I64_MAX
    requires d.kind == KIND_UTF8 ==> v.utf8 != Null
    ensures Denotes(d, Written(d, v, store), if d.kind == KIND_UTF8 then v.(utf8 := Bytes(v.utf8.Content(store))) else v)
  {
    hide DescriptorOk, Digits, Decimal, Rendered;
    if d.kind == KIND_U64 {
      DecimalRoundTrip(v.u64);
    } else if d.kind == KIND_I64 {
      DecimalRoundTrip(if v.i64 < 0 then 0 - v.i64 else v.i64);
      assert v.i64 < 0 ==> Written(d, v, store)[1..] == Rendered(0 - v.i64);
    } else if d.kind == KIND_ENUM {
      var c :| 0 <= c < |d.choices| && d.choices[c].value == v.enumValue && d.choices[c].name == Written(d, v, store);
      assert ChoiceNamed(d, c, Written(d, v, store));
    }
  }

  /** Descriptors are found by name, uniquely. */
  ghost predicate Names(s: Schema, space: Namespace, name: seq<Byte>, k: int) {
    0 <= k < |s.descriptors| && s.descriptors[k].Name(space) == name
  }

  lemma NamesUnique(s: Schema, space: Namespace, name: seq<Byte>, j: int, k: int)
    requires SchemaOk(s) && Names(s, space, name, j) && Names(s, space, name, k)
    ensures j == k
  {
    hide DescriptorOk;
    assert j < k ==> NamesDiffer(s.descriptors[j], s.descriptors[k]);
    assert k < j ==> NamesDiffer(s.descriptors[k], s.descriptors[j]);
  }

  // ---- Checks ----------------------------------------------------------------

  method ValueCanonical(d: Descriptor, v: Value, store: seq<Byte>) returns (ok: bool)
    ensures ok <==> Canonical(d, v, store)
  {
    if v.kind != d.kind || v.reserved0 != 0 { return false; }
    if d.kind == KIND_BOOL {
      ok := !(v.u64 != 0 || v.i64 != 0 || v.utf8 != Null || v.enumValue != 0);
    } else if d.kind == KIND_U64 {
      if v.i64 != 0 || v.utf8 != Null || v.enumValue != 0 || v.boolean { return false; }
      ok := !(v.u64 < d.u64Min || v.u64 > d.u64Max);
    } else if d.kind == KIND_I64 {
      if v.u64 != 0 || v.utf8 != Null || v.enumValue != 0 || v.boolean { return false; }
      ok := !(v.i64 < d.i64Min || v.i64 > d.i64Max);
    } else if d.kind == KIND_UTF8 {
      if v.u64 != 0 || v.i64 != 0 || v.enumValue != 0 || v.boolean { return false; }
      if v.utf8.Length() == 0 && !d.AllowsEmpty() { return false; }
      if v.utf8.Length() > d.utf8Max { return false; }
      if !v.utf8.Readable(store) { return false; }
      ok := Utf8Valid(v.utf8.Content(store));
    } else if d.kind == KIND_ENUM {
      if v.u64 != 0 || v.i64 != 0 || v.utf8 != Null || v.boolean { return false; }
      ok := EnumHas(d, v.enumValue);
    } else {
      ok := false;
    }
  }

  method EnumHas(d: Descriptor, value: int) returns (found: bool)
    ensures found <==> HasChoice(d, value)
  {
    for c := 0 to |d.choices|
      invariant forall k :: 0 <= k < c ==> d.choices[k].value != value
    {
      if d.choices[c].value == value { return true; }
    }
    found := false;
  }

  method ChoicesValid(choices: seq<Choice>) returns (ok: bool)
    ensures ok <==> ChoicesOk(choices)
  {
    for i := 0 to |choices|
      invariant ChoicesOk(choices[..i])
    {
      var named := NameValid(choices[i].name, false, true);
      if !named {
        assert !NameOk(choices[i].name, false, true);
        return false;
      }
      for earlier := 0 to i
        invariant forall k :: 0 <= k < earlier ==> choices[k].name != choices[i].name && choices[k].value != choices[i].value
      {
        if choices[i].name == choices[earlier].name || choices[i].value == choices[earlier].value { return false; }
      }
    }
    assert choices[..|choices|] == choices;
    ok := true;
  }

  method ConstraintsValid(d: Descriptor) returns (ok: bool)
    ensures ok <==> ConstraintsOk(d)
  {
    var noU64, noI64 := d.u64Min == 0 && d.u64Max == 0, d.i64Min == 0 && d.i64Max == 0;
    if d.kind == KIND_BOOL {
      ok := noU64 && noI64 && d.utf8Max == 0 && d.choices == [];
    } else if d.kind == KIND_U64 {
      ok := d.u64Min <= d.u64Max && noI64 && d.utf8Max == 0 && d.choices == [];
    } else if d.kind == KIND_I64 {
      ok := noU64 && d.i64Min <= d.i64Max && d.utf8Max == 0 && d.choices == [];
    } else if d.kind == KIND_UTF8 {
      ok := noU64 && noI64 && d.choices == [];
    } else if d.kind == KIND_ENUM {
      ok := noU64 && noI64 && d.utf8Max == 0 && d.choices != [];
      if ok { ok := ChoicesValid(d.choices); }
    } else {
      ok := false;
    }
  }

  method DescriptorValid(d: Descriptor) returns (ok: bool)
    ensures ok <==> DescriptorOk(d)
  {
    hide Canonical, ConstraintsOk, NameOk;
    if d.flags > 7 || d.Required() == d.HasDefault() || (d.AllowsEmpty() && d.kind != KIND_UTF8) { return false; }
    if d.reserved0 != 0 { return false; }
    var key := NameValid(d.key, false, false);
    var file := NameValid(d.file, false, false);
    var environment := NameValid(d.environment, true, false);
    var commandLine := NameValid(d.commandLine, false, false);
    if !key || !file || !environment || !commandLine { return false; }
    var constraints := ConstraintsValid(d);
    if !constraints { return false; }
    if d.Required() { return d.defaultValue == ZERO; }
    ok := ValueCanonical(d, d.defaultValue, []);
  }

  method ValidateSchema(s: Schema) returns (status: int)
    ensures status == if SchemaOk(s) then OK else EINVAL
  {
    hide DescriptorOk;
    if s.abiVersion != ABI_VERSION || s.structSize != SCHEMA_SIZE { return EINVAL; }
    if s.flags != 0 { return EINVAL; }
    for i := 0 to |s.descriptors|
      invariant forall k :: 0 <= k < i ==> DescriptorOk(s.descriptors[k])
      invariant forall k, l :: 0 <= k < l < i ==> NamesDiffer(s.descriptors[k], s.descriptors[l])
    {
      var d := s.descriptors[i];
      var valid := DescriptorValid(d);
      if !valid {
        assert !DescriptorOk(s.descriptors[i]);
        return EINVAL;
      }
      for earlier := 0 to i
        invariant forall k :: 0 <= k < earlier ==> NamesDiffer(s.descriptors[k], d)
      {
        var prior := s.descriptors[earlier];
        if d.key == prior.key || d.file == prior.file || d.environment == prior.environment
           || d.commandLine == prior.commandLine {
          assert !NamesDiffer(s.descriptors[earlier], s.descriptors[i]);
          return EINVAL;
        }
      }
    }
    status := OK;
  }

  method FindDescriptor(s: Schema, space: Namespace, name: seq<Byte>) returns (k: nat)
    ensures k <= |s.descriptors| && (k < |s.descriptors| ==> Names(s, space, name, k))
    ensures forall j :: 0 <= j < k ==> !Names(s, space, name, j)
  {
    for i := 0 to |s.descriptors|
      invariant forall j :: 0 <= j < i ==> !Names(s, space, name, j)
    {
      if s.descriptors[i].Name(space) == name { return i; }
    }
    k := |s.descriptors|;
  }

  // ---- Reading a text --------------------------------------------------------

  method ParseU64(d: Descriptor, text: seq<Byte>) returns (status: int, value: Value)
    requires d.kind == KIND_U64
    ensures status == OK <==> TextOk(d, text)
    ensures status == OK ==> Denotes(d, text, value)
    ensures status in {OK, EINVAL, EOVERFLOW}
  {
    value := ZERO.(kind := d.kind);
    if text == [] { return EINVAL, value; }
    var number;
    status, number := DecimalValue(text, U64_MAX);
    if status != OK { return; }
    if number < d.u64Min || number > d.u64Max { return EINVAL, value; }
    value := value.(u64 := number);
    assert Denotes(d, text, value);
  }

  method ParseI64(d: Descriptor, text: seq<Byte>) returns (status: int, value: Value)
    requires d.kind == KIND_I64
    ensures status == OK <==> TextOk(d, text)
    ensures status == OK ==> Denotes(d, text, value)
    ensures status in {OK, EINVAL, EOVERFLOW}
  {
    value := ZERO.(kind := d.kind);
    if text == [] { return EINVAL, value; }
    var negative := text[0] == '-' as int;
    var digits := if negative then text[1..] else text;
    if digits == [] { return EINVAL, value; }
    var magnitude;
    status, magnitude := DecimalValue(digits, if negative then I64_MAGNITUDE else I64_MAX);
    if status != OK { return; }
    var number: int;
    if negative && magnitude == I64_MAGNITUDE {
      number := I64_MIN;
    } else if negative {
      number := 0 - (magnitude as int);
    } else {
      number := magnitude;
    }
    if number < d.i64Min || number > d.i64Max { return EINVAL, value; }
    value := value.(i64 := number);
    assert Denotes(d, text, value);
  }

  method ParseEnum(d: Descriptor, text: seq<Byte>) returns (status: int, value: Value)
    requires d.kind == KIND_ENUM
    ensures status == OK <==> TextOk(d, text)
    ensures status == OK ==> Denotes(d, text, value)
    ensures status in {OK, EINVAL, EOVERFLOW}
  {
    value := ZERO.(kind := d.kind);
    for c := 0 to |d.choices|
      invariant forall k :: 0 <= k < c ==> !ChoiceNamed(d, k, text)
    {
      if text == d.choices[c].name {
        value := value.(enumValue := d.choices[c].value);
        assert ChoiceNamed(d, c, text);
        assert Denotes(d, text, value);
        return OK, value;
      }
    }
    status := EINVAL;
  }

  /** Accepts exactly the texts that denote a value, and gives that value. */
  method ParseTextValue(d: Descriptor, text: seq<Byte>) returns (status: int, value: Value)
    requires DescriptorOk(d)
    ensures status == OK <==> TextOk(d, text)
    ensures status == OK ==> Denotes(d, text, value)
    ensures status in {OK, EINVAL, EOVERFLOW}
  {
    value := ZERO.(kind := d.kind);
    if d.kind == KIND_BOOL {
      if text == TRUE_TEXT {
        value := value.(boolean := true);
      } else if text != FALSE_TEXT {
        return EINVAL, value;
      }
      assert Denotes(d, text, value);
      return OK, value;
    }
    if d.kind == KIND_U64 { status, value := ParseU64(d, text); return; }
    if d.kind == KIND_I64 { status, value := ParseI64(d, text); return; }
    if d.kind == KIND_ENUM { status, value := ParseEnum(d, text); return; }
    if text == [] && !d.AllowsEmpty() { return EINVAL, value; }
    if |text| > d.utf8Max { return EINVAL, value; }
    var valid := Utf8Valid(text);
    if !valid { return EINVAL, value; }
    value := value.(utf8 := Bytes(text));
    assert Denotes(d, text, value);
    status := OK;
  }
}
