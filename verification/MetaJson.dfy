/** What the JSON writer of `lib/vd_meta.h` prints and what its reader reads, as functions of the text.
    The reader's slices always run to the end of the text, so a position is given by what lies ahead. */
module JsonLex {
  import opened Wrappers
  import opened Decimal
  import opened Strings

  predicate IsWs(c: char) {
    c == ' ' || c == '\t' || c == '\n' || c == '\r'
  }

  /** `vd_meta__slice_skip_whitespace` */
  function SkipWs(t: string): (r: string)
    ensures |r| <= |t|
  {
    if t != [] && IsWs(t[0]) then SkipWs(t[1..]) else t
  }

  predicate Peek(t: string, c: char) {
    t != [] && t[0] == c
  }

  /** The character that a backslash and `e` stand for. */
  function Unescape(e: char): char {
    match e
    case 'b' => '\U{8}'
    case 'f' => '\U{c}'
    case 'n' => '\n'
    case 'r' => '\r'
    case 't' => '\t'
    case _ => e
  }

  /** The rest of a string literal: its content, and what follows the closing quote. */
  function ReadBody(t: string): (r: Option<(string, string)>)
    ensures r.Some? ==> |r.value.1| < |t|
  {
    if t == [] || t[0] == '\0' then None
    else if t[0] == '"' then Some(("", t[1..]))
    else
      var c := if t[0] != '\\' then t[0] else if |t| > 1 then Unescape(t[1]) else '\0';
      var rest := if t[0] != '\\' || |t| == 1 then t[1..] else t[2..];
      match ReadBody(rest)
      case None => None
      case Some(p) => Some(([c] + p.0, p.1))
  }

  /** `vd_meta__parse_json_string`, before its result is taken as a C string. */
  function ReadString(t: string): (r: Option<(string, string)>)
    ensures r.Some? ==> |r.value.1| + 2 <= |t|
  {
    if Peek(t, '"') then ReadBody(t[1..]) else None
  }

  /** `vd_meta__json_skip_value`: whether a comma outside brackets was found, and what is ahead. */
  function SkipValue(t: string, brackets: int, braces: int): (r: (bool, string))
    ensures |r.1| <= |t|
    ensures r.0 ==> |r.1| < |t|
  {
    if t == [] then (false, t)
    else
      var c := t[0];
      if c == '\0' then (false, t[1..])
      else if c == '[' then SkipValue(t[1..], brackets + 1, braces)
      else if c == ']' then SkipValue(t[1..], brackets - 1, braces)
      else if c == '{' then SkipValue(t[1..], brackets, braces + 1)
      else if c == '}' then SkipValue(t[1..], brackets, braces - 1)
      else if c == ',' && brackets == 0 && braces == 0 then (true, t[1..])
      else SkipValue(t[1..], brackets, braces)
  }

  predicate IsSpace(c: char) {
    IsWs(c) || c == '\U{b}' || c == '\U{c}'
  }

  function SkipSpace(t: string): (r: string)
    ensures |r| <= |t|
  {
    if t != [] && IsSpace(t[0]) then SkipSpace(t[1..]) else t
  }

  /** What the `strtol` family reads at base 10: the sign, the magnitude, and what is ahead. Without
      a digit nothing is read. */
  function ReadInt(t: string): (r: (bool, nat, string))
    ensures |r.2| <= |t|
  {
    var s := SkipSpace(t);
    var neg := Peek(s, '-');
    var u := if neg || Peek(s, '+') then s[1..] else s;
    if NoDigitAhead(u) then (false, 0, t)
    else
      var (m, rest) := ScanDigits(u, 0);
      (neg, m, rest)
  }

  predicate IsSuffix(r: string, t: string) {
    |r| <= |t| && r == t[|t| - |r|..]
  }

  lemma {:induction false} DigitsSuffix(t: string, acc: nat)
    ensures IsSuffix(ScanDigits(t, acc).1, t)
  {
    if t != [] && IsDigit(t[0]) {
      DigitsSuffix(t[1..], 10 * acc + DigitValue(t[0]));
    }
  }

  lemma {:induction false} SpaceSuffix(t: string)
    ensures IsSuffix(SkipSpace(t), t)
  {
    if t != [] && IsSpace(t[0]) {
      SpaceSuffix(t[1..]);
    }
  }

  lemma ReadIntSuffix(t: string)
    ensures IsSuffix(ReadInt(t).2, t)
  {
    var s := SkipSpace(t);
    SpaceSuffix(t);
    var u := if Peek(s, '-') || Peek(s, '+') then s[1..] else s;
    DigitsSuffix(u, 0);
  }

  lemma SkipNone(t: string)
    requires t != [] && !IsWs(t[0])
    ensures SkipWs(t) == t
  {
  }

  /** Text that can stand in a string literal as it is. */
  predicate Plain(s: string) {
    forall i | 0 <= i < |s| :: s[i] != '"' && s[i] != '\\' && s[i] != '\0'
  }

  lemma {:induction false} ReadPlainBody(s: string, t: string)
    requires Plain(s)
    ensures ReadBody(s + ("\"" + t)) == Some((s, t))
    ensures UntilNul(s) == s
  {
    if s == [] {
      assert s + ("\"" + t) == "\"" + t;
      assert ("\"" + t)[1..] == t;
    } else {
      assert (s + ("\"" + t))[1..] == s[1..] + ("\"" + t);
      ReadPlainBody(s[1..], t);
      assert [s[0]] + s[1..] == s;
    }
  }

  function Quoted(s: string, t: string): string {
    "\"" + (s + ("\"" + t))
  }

  lemma ReadPlain(s: string, t: string)
    requires Plain(s)
    ensures ReadString(Quoted(s, t)) == Some((s, t)) && UntilNul(s) == s
  {
    assert Quoted(s, t)[1..] == s + ("\"" + t);
    ReadPlainBody(s, t);
  }

  /** The text `t` is the plain literal text `s` up to its closing quote, and `rest`. */
  predicate PlainLiteral(t: string, s: string, rest: string) {
    t == s + ("\"" + rest) && forall i | 0 <= i < |s| :: s[i] != '"' && s[i] != '\\'
  }

  /** Each character of the content comes from one or two of the text: equally many come from the text
      only if it was plain. */
  lemma {:induction false} BodyCost(t: string)
    ensures var r := ReadBody(t);
            r.Some? ==>
              && |r.value.0| + 1 + |r.value.1| <= |t|
              && (|r.value.0| + 1 + |r.value.1| == |t| ==> PlainLiteral(t, r.value.0, r.value.1))
  {
    if t == [] || t[0] == '\0' {
    } else if t[0] == '"' {
      assert t == "" + ("\"" + t[1..]);
    } else {
      var rest := if t[0] != '\\' || |t| == 1 then t[1..] else t[2..];
      BodyCost(rest);
      var r := ReadBody(rest);
      if r.Some? && t[0] != '\\' {
        assert ReadBody(t).value == ([t[0]] + r.value.0, r.value.1);
        if |r.value.0| + 1 + |r.value.1| == |rest| {
          PlainLiteralStep(t, r.value.0, r.value.1);
        }
      }
    }
  }

  lemma PlainLiteralStep(t: string, s: string, rest: string)
    requires t != [] && t[0] != '"' && t[0] != '\\' && PlainLiteral(t[1..], s, rest)
    ensures PlainLiteral(t, [t[0]] + s, rest)
  {
    assert t == [t[0]] + t[1..];
  }

  /** The writer does not escape, so a string comes back from between its quotes, with just its literal
      consumed, if and only if it needs no escape. */
  lemma StringRoundTripIff(s: string, t: string)
    requires forall i | 0 <= i < |s| :: s[i] != '\0'
    ensures ReadString(Quoted(s, t)) == Some((s, t)) <==> forall i | 0 <= i < |s| :: s[i] != '"' && s[i] != '\\'
  {
    assert Quoted(s, t)[1..] == s + ("\"" + t);
    if forall i | 0 <= i < |s| :: s[i] != '"' && s[i] != '\\' {
      ReadPlain(s, t);
    } else if ReadString(Quoted(s, t)) == Some((s, t)) {
      BodyCost(s + ("\"" + t));
    }
  }

  /** The bracket and brace depths behind `s`, for a value that is skipped and stands at these depths before
      it; none if the value ends within `s`. */
  function Depths(s: string, brackets: int, braces: int): Option<(int, int)> {
    if s == [] then Some((brackets, braces))
    else
      var c := s[0];
      if c == '\0' then None
      else if c == '[' then Depths(s[1..], brackets + 1, braces)
      else if c == ']' then Depths(s[1..], brackets - 1, braces)
      else if c == '{' then Depths(s[1..], brackets, braces + 1)
      else if c == '}' then Depths(s[1..], brackets, braces - 1)
      else if c == ',' && brackets == 0 && braces == 0 then None
      else Depths(s[1..], brackets, braces)
  }

  /** Text that is skipped as a whole: its brackets and braces balance in number, and no comma stands where
      both depths are 0. */
  predicate Skippable(s: string) {
    Depths(s, 0, 0) == Some((0, 0))
  }

  lemma {:induction false} SkipOver(s: string, t: string, brackets: int, braces: int)
    ensures match Depths(s, brackets, braces)
            case Some(d) => SkipValue(s + t, brackets, braces) == SkipValue(t, d.0, d.1)
            case None => |SkipValue(s + t, brackets, braces).1| >= |t|
  {
    if s == [] {
      assert s + t == t;
    } else {
      assert (s + t)[1..] == s[1..] + t;
      var c := s[0];
      SkipOver(s[1..], t,
               if c == '[' then brackets + 1 else if c == ']' then brackets - 1 else brackets,
               if c == '{' then braces + 1 else if c == '}' then braces - 1 else braces);
    }
  }

  /** A name in quotes, with a comma behind it, is skipped up to that comma if and only if it is `Skippable`.
      The skipping does not know about strings. */
  lemma NameSkippedIff(name: string, t: string)
    ensures SkipValue(Quoted(name, "," + t), 0, 0) == (true, t) <==> Skippable(name)
  {
    var behind := "\"" + ("," + t);
    assert Quoted(name, "," + t)[1..] == name + behind;
    SkipOver(name, behind, 0, 0);
    assert behind[1..] == "," + t && ("," + t)[1..] == t;
  }

  /** Reading an integer gives back what was printed. */
  lemma ReadDecInt(n: int, t: string)
    requires NoDigitAhead(t)
    ensures ReadInt(DecInt(n) + t) == (n < 0, if n < 0 then -n else n, t)
  {
    var m: nat := if n < 0 then -n else n;
    DecDigits(m);
    ScanDec(m, t);
    hide *;
    ReadSigned(n < 0, Dec(m), t, m);
    SignedText(n);
  }

  lemma SignedText(n: int)
    ensures DecInt(n) == (if n < 0 then "-" else "") + Dec(if n < 0 then -n else n)
  {
    hide Dec;
  }

  lemma ReadSigned(neg: bool, digits: string, t: string, m: nat)
    requires digits != [] && IsDigit(digits[0]) && ScanDigits(digits + t, 0) == (m, t)
    ensures ReadInt((if neg then "-" else "") + digits + t) == (neg, m, t)
  {
    hide ScanDigits;
    var s := (if neg then "-" else "") + digits + t;
    assert !IsSpace(s[0]);
    if neg {
      assert s[1..] == digits + t;
    } else {
      assert s == digits + t;
    }
  }
}

/** Objects in memory, and the text that is written for them. */
module JsonValues {
  import opened Decimal
  import opened IntWidths
  import opened MetaTypes
  import opened JsonLex

  const RESERVED: string := "--vd-meta-type-name--"

  /** A piece of an object's memory. `Zero` is memory that has only been cleared. */
  datatype Value = Zero | Num(n: int) | Chr(c: char) | Str(s: string) | Obj(fields: seq<Value>)

  function FieldsOf(d: Descriptor): seq<Field> {
    if d.cls.Object? then d.cls.fields else []
  }

  function WidthOf(p: Prim): Width {
    match p
    case I8 => W8
    case U8 => W8
    case I16 => W16
    case U16 => W16
    case I32 => W32
    case U32 => W32
    case I64 => W64
    case U64 => W64
    case Char8 => W8
  }

  predicate HasSign(p: Prim) {
    p == I8 || p == I16 || p == I32 || p == I64
  }

  predicate InRange(p: Prim, n: int) {
    if HasSign(p) then IsSigned(WidthOf(p), n) else IsUnsigned(WidthOf(p), n)
  }

  /** The memory `v` holds a value of type `id`. */
  predicate HasType(list: seq<Descriptor>, id: nat, v: Value)
    decreases v
  {
    var d := FirstDescriptor(list, id);
    d.Some? ==>
    match d.value.cls
    case Primitive(p) => if p == Char8 then v.Chr? else v.Num? && InRange(p, v.n)
    case CString => v.Str?
    case Object(fs) => v.Obj? && |v.fields| == |fs| && forall i | 0 <= i < |fs| :: HasType(list, fs[i].typ, v.fields[i])
    case Untouched => true
  }

  function Spaces(n: int): (s: string)
    decreases if n > 0 then n else 0
  {
    if n <= 0 then "" else " " + Spaces(n - 1)
  }

  /** A newline, a space, and the deeper indentation, each only when the output is not minified. */
  function Newline(pretty: int): string { if pretty >= 0 then "\n" else "" }

  function Gap(pretty: int): string { if pretty >= 0 then " " else "" }

  function Deeper(pretty: int): int { if pretty >= 0 then pretty + 4 else pretty }

  /** The text of `v`, with `k` behind it. */
  function WriteValue(list: seq<Descriptor>, id: nat, v: Value, pretty: int, k: string): string
    requires HasType(list, id, v)
    decreases v, 2
  {
    match FirstDescriptor(list, id)
    case None => k
    case Some(d) =>
      match d.cls
      case Primitive(p) => if p == Char8 then Quoted([v.c], k) else DecInt(v.n) + k
      case CString => Quoted(v.s, k)
      case Object(_) => WriteObject(list, id, v, pretty, k)
      case Untouched => k
  }

  function WriteObject(list: seq<Descriptor>, id: nat, v: Value, pretty: int, k: string): string
    requires HasType(list, id, v)
    decreases v, 1
  {
    match FirstDescriptor(list, id)
    case None => k
    case Some(d) =>
      "{" + (Newline(pretty) + (Spaces(Deeper(pretty)) +
        Quoted(RESERVED, ":" + (Gap(pretty) + Quoted(d.name, "," + (Newline(pretty) +
          WriteMembers(list, d, v, pretty, Spaces(pretty) + ("}" + k))))))))
  }

  function WriteMembers(list: seq<Descriptor>, d: Descriptor, v: Value, pretty: int, k: string): string
    requires d.cls.Object? ==>
               v.Obj? && |v.fields| == |d.cls.fields| && forall i | 0 <= i < |v.fields| :: HasType(list, d.cls.fields[i].typ, v.fields[i])
    decreases v, 0
  {
    if d.cls.Object? then WriteFields(list, d.cls.fields, v.fields, 0, pretty, k) else k
  }

  /** The text of the fields from the `i`-th on. `pretty` is the indentation of the enclosing object. */
  function WriteFields(list: seq<Descriptor>, fs: seq<Field>, vs: seq<Value>, i: nat, pretty: int, k: string): string
    requires i <= |fs| == |vs| && forall j | 0 <= j < |fs| :: HasType(list, fs[j].typ, vs[j])
    decreases vs, 0, |fs| - i
  {
    if i == |fs| then k
    else
      Spaces(Deeper(pretty)) + Quoted(fs[i].name, ":" + (Gap(pretty) +
        WriteValue(list, fs[i].typ, vs[i], Deeper(pretty),
          (if i < |fs| - 1 then "," else "") + (Newline(pretty) +
            WriteFields(list, fs, vs, i + 1, pretty, k)))))
  }
}

/** The reader, as functions of the text ahead. `junk` is whatever the key variable holds when no string
    was read. */
module JsonRead {
  import opened IntWidths
  import opened Strings
  import opened Wrappers
  import opened MetaTypes
  import opened JsonLex
  import opened JsonValues

  const SUCCESS := 0
  const DESCRIPTOR_NOT_FOUND := -1
  const INVALID_JSON := -2
  const INVALID_TYPE := -3
  const TYPE_NOT_FOUND := -4
  const TYPE_MISMATCH := -5

  type Junk = string -> string

  /** The error code, the object as far as it has been stored, and what is ahead. */
  datatype Outcome = Outcome(ret: int, obj: Value, rest: string)

  /** The value that is stored in a variable of type `p`: what `strtoll` or `strtoull` answers, truncated. */
  function Store(p: Prim, neg: bool, m: nat): int {
    if HasSign(p) then Wrapped(WidthOf(p), Clamped(if neg then 0 - m as int else m)) else UnsignedOf(neg, m) % Modulus(WidthOf(p))
  }

  /** The 64-bit signed value nearest to `n`. */
  function Clamped(n: int): int {
    if n < -0x8000_0000_0000_0000 then -0x8000_0000_0000_0000
    else if n > 0x7FFF_FFFF_FFFF_FFFF then 0x7FFF_FFFF_FFFF_FFFF
    else n
  }

  /** The magnitude, negated in 64 bits after a minus sign; the largest value when it is too large. */
  function UnsignedOf(neg: bool, m: nat): int {
    if m >= 0x1_0000_0000_0000_0000 then 0xFFFF_FFFF_FFFF_FFFF
    else if neg && m > 0 then 0x1_0000_0000_0000_0000 - m
    else m
  }

  /** `r` in the signed type of that width. */
  function Wrapped(w: Width, r: int): int {
    var u := r % Modulus(w);
    if 2 * u >= Modulus(w) then u - Modulus(w) else u
  }

  /** `find_field` */
  function FindField(fs: seq<Field>, key: string): (r: Option<nat>)
    ensures r.Some? ==> r.value < |fs| && fs[r.value].name == key && forall j | 0 <= j < r.value :: fs[j].name != key
    ensures r.None? ==> forall j | 0 <= j < |fs| :: fs[j].name != key
  {
    FindFrom(fs, key, 0)
  }

  function FindFrom(fs: seq<Field>, key: string, i: nat): (r: Option<nat>)
    requires i <= |fs|
    ensures r.Some? ==> i <= r.value < |fs| && fs[r.value].name == key && forall j | i <= j < r.value :: fs[j].name != key
    ensures r.None? ==> forall j | i <= j < |fs| :: fs[j].name != key
    decreases |fs| - i
  {
    if i == |fs| then None else if fs[i].name == key then Some(i) else FindFrom(fs, key, i + 1)
  }

  function Slots(obj: Value, n: nat): (r: seq<Value>)
    ensures |r| == n
  {
    if obj.Obj? && |obj.fields| == n then obj.fields else seq(n, _ => Zero)
  }

  /** The key of the string ahead, or the junk if there is none, and what is ahead then. */
  function ReadKey(t: string, junk: Junk): (r: (string, string))
    ensures |r.1| <= |t|
  {
    match ReadString(t)
    case Some(p) => (UntilNul(p.0), p.1)
    case None => (junk(t), t)
  }

  /** `vd_meta__parse_json_descriptor` */
  function ParseDescriptor(list: seq<Descriptor>, d: Descriptor, id: nat, t: string, obj: Value, junk: Junk): (r: Outcome)
    ensures |r.rest| <= |t| && (r.ret != SUCCESS ==> r.rest == t)
    decreases |t|, 2
  {
    if Peek(t, '{') then ParseObject(list, id, t, obj, junk)
    else
      match d.cls
      case Primitive(p) =>
        if p == Char8 then
          if !Peek(t, '"') then Outcome(SUCCESS, obj, t)
          else
            var c := if |t| > 1 then t[1] else '\0';
            var rest := if |t| > 1 then t[2..] else [];
            Outcome(SUCCESS, Chr(c), if Peek(rest, '"') then rest[1..] else t)
        else
          var (neg, m, rest) := ReadInt(t);
          Outcome(SUCCESS, Num(Store(p, neg, m)), rest)
      case CString =>
        (match ReadString(t)
         case Some(s) => Outcome(SUCCESS, Str(UntilNul(s.0)), s.1)
         case None => Outcome(SUCCESS, obj, t))
      case Object(_) => Outcome(SUCCESS, obj, t)
      case Untouched => Outcome(SUCCESS, obj, t)
  }

  /** `vd_meta__parse_json_field`, for a field without array flags. */
  function ParseField(list: seq<Descriptor>, field: Field, t: string, obj: Value, junk: Junk): (r: Outcome)
    ensures |r.rest| <= |t| && (r.ret != SUCCESS ==> r.rest == t)
    decreases |t|, 3
  {
    var s := SkipWs(t);
    if Peek(s, '[') then Outcome(INVALID_JSON, obj, t)
    else
      match FirstDescriptor(list, field.typ)
      case None => Outcome(DESCRIPTOR_NOT_FOUND, obj, t)
      case Some(d) =>
        var r := ParseDescriptor(list, d, field.typ, s, obj, junk);
        if r.ret != SUCCESS then r.(rest := t) else r
  }

  /** `vd_meta__parse_json_object` */
  function ParseObject(list: seq<Descriptor>, id: nat, t: string, obj: Value, junk: Junk): (r: Outcome)
    ensures |r.rest| <= |t| && (r.ret != SUCCESS ==> r.rest == t)
    ensures r.ret == SUCCESS ==> |r.rest| + 3 <= |t|
    decreases |t|, 1
  {
    match FirstDescriptor(list, id)
    case None => Outcome(DESCRIPTOR_NOT_FOUND, obj, t)
    case Some(d) =>
      var s := SkipWs(t);
      if !Peek(s, '{') then Outcome(INVALID_JSON, obj, t)
      else
        var r := ParseMembers(list, FieldsOf(d), s[1..], obj, junk);
        if r.ret != SUCCESS then r.(rest := t) else r
  }

  /** The loop of `vd_meta__parse_json_object`. */
  function ParseMembers(list: seq<Descriptor>, fs: seq<Field>, t: string, obj: Value, junk: Junk): (r: Outcome)
    ensures |r.rest| <= |t|
    ensures r.ret == SUCCESS ==> |r.rest| + 2 <= |t|
    decreases |t|, 0
  {
    var (key, s1) := ReadKey(SkipWs(t), junk);
    var s2 := SkipWs(s1);
    if Peek(s2, ':') then MemberValue(list, fs, key, SkipWs(s2[1..]), obj, junk) else Outcome(INVALID_JSON, obj, s2)
  }

  /** The rest of that loop, from the value of the field `key` on. */
  function MemberValue(list: seq<Descriptor>, fs: seq<Field>, key: string, t: string, obj: Value, junk: Junk): (r: Outcome)
    ensures |r.rest| <= |t|
    ensures r.ret == SUCCESS ==> |r.rest| + 1 <= |t|
    decreases |t|, 4
  {
    match FindField(fs, key)
    case None =>
      var (found, rest) := SkipValue(t, 0, 0);
      if found then ParseMembers(list, fs, rest, obj, junk) else Outcome(INVALID_JSON, obj, rest)
    case Some(i) =>
      var slots := Slots(obj, |fs|);
      var r := ParseField(list, fs[i], t, slots[i], junk);
      var obj' := Obj(slots[i := r.obj]);
      if r.ret != SUCCESS then Outcome(r.ret, obj', t)
      else
        var rest := SkipWs(r.rest);
        if Peek(rest, '}') then Outcome(SUCCESS, obj', rest[1..])
        else if Peek(rest, ',') then ParseMembers(list, fs, rest[1..], obj', junk)
        else Outcome(INVALID_JSON, obj', rest)
  }

  /** The loop of `vd_meta__json_get_object_type`: the error code and the actual type. */
  function TypeMembers(list: seq<Descriptor>, expected: nat, t: string, junk: Junk): (int, nat)
    decreases |t|, 0
  {
    var s := SkipWs(t);
    if Peek(s, '}') then (if expected != 0 then (SUCCESS, expected) else (TYPE_NOT_FOUND, 0))
    else if s == [] then (INVALID_JSON, 0)
    else
      var (key, s1) := ReadKey(s, junk);
      var s2 := SkipWs(s1);
      if Peek(s2, ':') then TypeValue(list, expected, key, SkipWs(s2[1..]), junk) else (INVALID_JSON, 0)
  }

  /** The rest of that loop, from the value of `key` on. */
  function TypeValue(list: seq<Descriptor>, expected: nat, key: string, t: string, junk: Junk): (int, nat)
    decreases |t|, 1
  {
    if key == RESERVED then
      var id := match FirstId(list, ReadKey(t, junk).0) case Some(i) => i case None => 0;
      if id == 0 then (INVALID_TYPE, 0)
      else if expected != 0 && id != expected then (TYPE_MISMATCH, id)
      else (SUCCESS, id)
    else
      var rest := SkipWs(SkipValue(t, 0, 0).1);
      TypeMembers(list, expected, if Peek(rest, ',') then rest[1..] else rest, junk)
  }

  /** `vd_meta__json_get_object_type` */
  function ObjectType(list: seq<Descriptor>, expected: nat, t: string, junk: Junk): (int, nat) {
    var s := SkipWs(t);
    if Peek(s, '{') then TypeMembers(list, expected, s[1..], junk) else (INVALID_JSON, 0)
  }

  /** `vd_meta_parse_json`: the error code, the actual type and the object. */
  function ParseJson(list: seq<Descriptor>, expected: nat, t: string, junk: Junk): (int, nat, Value) {
    var (ret, id) := ObjectType(list, expected, t, junk);
    if ret != SUCCESS then (ret, 0, Zero)
    else if FirstDescriptor(list, id).None? then (DESCRIPTOR_NOT_FOUND, 0, Zero)
    else
      var r := ParseObject(list, id, t, Zero, junk);
      (r.ret, id, r.obj)
  }
}

/** Reading back what was written. */
module JsonRoundTrip {
  import opened IntWidths
  import opened Strings
  import opened Wrappers
  import opened Decimal
  import opened MetaTypes
  import opened JsonLex
  import opened JsonValues
  import opened JsonRead

  predicate GoodFields(fs: seq<Field>) {
    && fs != []
    && (forall i | 0 <= i < |fs| :: Plain(fs[i].name) && fs[i].name != RESERVED)
    && (forall i, j | 0 <= i < j < |fs| :: fs[i].name != fs[j].name)
  }

  /** The values that the writer writes in a form that the reader reads back: strings that need no escape,
      and objects with at least one field and with names that do not disturb the reader. */
  predicate Readable(list: seq<Descriptor>, id: nat, v: Value)
    requires HasType(list, id, v)
    decreases v
  {
    var d := FirstDescriptor(list, id);
    d.Some? &&
    match d.value.cls
    case Primitive(_) => true
    case CString => Plain(v.s)
    case Object(fs) =>
      Skippable(d.value.name) && GoodFields(fs) && forall i | 0 <= i < |fs| :: Readable(list, fs[i].typ, v.fields[i])
    case Untouched => false
  }

  lemma {:induction false} SkipSpaces(n: int, t: string)
    ensures SkipWs(Spaces(n) + t) == SkipWs(t)
    decreases if n > 0 then n else 0
  {
    if n <= 0 {
      assert Spaces(n) + t == t;
    } else {
      assert (Spaces(n) + t)[1..] == Spaces(n - 1) + t;
      SkipSpaces(n - 1, t);
    }
  }

  lemma SkipIndent(pretty: int, n: int, t: string)
    ensures SkipWs(Newline(pretty) + (Spaces(n) + t)) == SkipWs(t)
  {
    var u := Spaces(n) + t;
    if pretty >= 0 {
      assert ("\n" + u)[1..] == u;
    } else {
      assert "" + u == u;
    }
    SkipSpaces(n, t);
  }

  lemma SkipGap(pretty: int, t: string)
    requires t != [] && !IsWs(t[0])
    ensures SkipWs(Gap(pretty) + t) == t
  {
    if pretty >= 0 {
      assert (" " + t)[1..] == t;
    } else {
      assert "" + t == t;
    }
  }

  lemma Tail(c: char, t: string)
    ensures ([c] + t)[1..] == t
  {
  }

  /** The text `t` is ahead of an entry `"key": value`, where `value` is all the rest. */
  predicate EntryAhead(t: string, key: string, value: string, junk: Junk) {
    var (k, s1) := ReadKey(SkipWs(t), junk);
    var s2 := SkipWs(s1);
    SkipWs(t) != [] && !Peek(SkipWs(t), '}') && k == key && Peek(s2, ':') && SkipWs(s2[1..]) == value
  }

  /** The reader's loop takes a field that it knows. */
  lemma MemberStep(list: seq<Descriptor>, fs: seq<Field>, t: string, obj: Value, junk: Junk, i: nat, value: string,
                   v: Value, rest: string)
    requires i < |fs| && EntryAhead(t, fs[i].name, value, junk) && FindField(fs, fs[i].name) == Some(i)
    requires ParseField(list, fs[i], value, Slots(obj, |fs|)[i], junk) == Outcome(SUCCESS, v, rest)
    ensures var s := SkipWs(rest);
            var obj' := Obj(Slots(obj, |fs|)[i := v]);
            && (Peek(s, '}') ==> ParseMembers(list, fs, t, obj, junk) == Outcome(SUCCESS, obj', s[1..]))
            && (Peek(s, ',') ==> ParseMembers(list, fs, t, obj, junk) == ParseMembers(list, fs, s[1..], obj', junk))
  {
    hide ParseField, ReadKey, SkipWs, FindField, Slots;
  }

  /** The reader's loop skips a field that it does not know. */
  lemma SkipStep(list: seq<Descriptor>, fs: seq<Field>, t: string, obj: Value, junk: Junk, key: string, value: string, rest: string)
    requires EntryAhead(t, key, value, junk) && FindField(fs, key) == None && SkipValue(value, 0, 0) == (true, rest)
    ensures ParseMembers(list, fs, t, obj, junk) == ParseMembers(list, fs, rest, obj, junk)
  {
    hide ParseField, ReadKey, SkipWs, FindField, Slots, SkipValue;
  }

  /** An entry `"name": value` is read up to its value. */
  lemma ReadEntry(pretty: int, name: string, value: string, junk: Junk)
    requires Plain(name) && value != [] && !IsWs(value[0])
    ensures var t := Newline(pretty) + (Spaces(Deeper(pretty)) + Quoted(name, ":" + (Gap(pretty) + value)));
            EntryAhead(t, name, value, junk)
  {
    var u := ":" + (Gap(pretty) + value);
    SkipIndent(pretty, Deeper(pretty), Quoted(name, u));
    SkipNone(Quoted(name, u));
    ReadPlain(name, u);
    SkipNone(u);
    Tail(':', Gap(pretty) + value);
    SkipGap(pretty, value);
  }

  /** The text of a value begins like one. */
  lemma ValueStart(list: seq<Descriptor>, id: nat, v: Value, pretty: int, k: string)
    requires HasType(list, id, v) && Readable(list, id, v)
    ensures var t := WriteValue(list, id, v, pretty, k);
            t != [] && !IsWs(t[0]) && t[0] != '['
            && (t[0] == '{' <==> FirstDescriptor(list, id).value.cls.Object?)
  {
    var d := FirstDescriptor(list, id).value;
    if d.cls.Primitive? && d.cls.prim != Char8 {
      DecDigits(if v.n < 0 then -v.n else v.n);
      var n := DecInt(v.n);
      assert (n + k)[0] == n[0];
    }
  }

  lemma StoreInRange(p: Prim, n: int)
    requires InRange(p, n)
    ensures Store(p, n < 0, if n < 0 then -n else n) == n
  {
    hide WidthOf, IsSigned, IsUnsigned, Modulus, Wrapped, Clamped, UnsignedOf;
    if HasSign(p) {
      SignedStays(WidthOf(p), n);
    } else {
      UnsignedStays(WidthOf(p), n);
    }
  }

  /** A number that does not fit its field is stored modulo the width of the field. */
  lemma StoreWraps(p: Prim, neg: bool, m: nat) returns (q: int)
    requires m < 0x8000_0000_0000_0000
    ensures InRange(p, Store(p, neg, m))
    ensures Store(p, neg, m) == (if neg then 0 - m as int else m) + q * Modulus(WidthOf(p))
  {
    hide WidthOf, IsSigned, IsUnsigned, Modulus, Wrapped, Clamped, UnsignedOf;
    if HasSign(p) {
      q := SignedWraps(WidthOf(p), if neg then 0 - m as int else m);
    } else {
      q := UnsignedWraps(WidthOf(p), neg, m);
    }
  }

  lemma SignedWraps(w: Width, n: int) returns (q: int)
    requires -0x8000_0000_0000_0000 <= n < 0x8000_0000_0000_0000
    ensures IsSigned(w, Wrapped(w, Clamped(n))) && Wrapped(w, Clamped(n)) == n + q * Modulus(w)
  {
    ModulusOf(w);
    hide Modulus;
    q := Remainder(n, Modulus(w));
    if 2 * (n % Modulus(w)) >= Modulus(w) {
      OneLess(q, Modulus(w));
      q := q - 1;
    }
  }

  lemma UnsignedWraps(w: Width, neg: bool, m: nat) returns (q: int)
    requires m < 0x8000_0000_0000_0000
    ensures 0 < Modulus(w) && IsUnsigned(w, UnsignedOf(neg, m) % Modulus(w))
    ensures UnsignedOf(neg, m) % Modulus(w) == (if neg then 0 - m as int else m) + q * Modulus(w)
  {
    ModulusOf(w);
    hide Modulus;
    q := Remainder(UnsignedOf(neg, m), Modulus(w));
    if neg && m > 0 {
      var c := Multiplicity(w);
      Sum(q, c, Modulus(w));
      q := q + c;
    }
  }

  lemma Remainder(n: int, m: int) returns (q: int)
    requires m > 0
    ensures 0 <= n % m < m && n % m == n + q * m
  {
    q := -(n / m);
    assert n == (n / m) * m + n % m;
    assert q * m == -((n / m) * m);
  }

  lemma OneLess(q: int, m: int)
    ensures (q - 1) * m == q * m - m
  {
  }

  lemma Sum(q: int, c: int, m: int)
    ensures (q + c) * m == q * m + c * m
  {
  }

  lemma Multiplicity(w: Width) returns (c: int)
    ensures c * Modulus(w) == 0x1_0000_0000_0000_0000
  {
    c := match w
         case W8 => 0x100_0000_0000_0000
         case W16 => 0x1_0000_0000_0000
         case W32 => 0x1_0000_0000
         case W64 => 1;
  }

  lemma SignedStays(w: Width, n: int)
    requires IsSigned(w, n)
    ensures Clamped(n) == n && Wrapped(w, n) == n
  {
    ModulusOf(w);
    hide Modulus;
    if n < 0 {
      ModOf(n, Modulus(w), -1, n + Modulus(w));
    } else {
      ModOf(n, Modulus(w), 0, n);
    }
  }

  lemma UnsignedStays(w: Width, n: int)
    requires IsUnsigned(w, n)
    ensures n >= 0 && UnsignedOf(false, n) % Modulus(w) == n
  {
    ModulusOf(w);
    hide Modulus;
    ModOf(n, Modulus(w), 0, n);
  }

  lemma ModulusOf(w: Width)
    ensures 0 < Modulus(w) <= 0x1_0000_0000_0000_0000
  {
  }

  lemma ModOf(n: int, m: int, q: int, r: int)
    requires 0 <= r < m && n == q * m + r
    ensures n % m == r
  {
    var q', r' := n / m, n % m;
    assert (q - q') * m == r' - r by {
      assert n == q' * m + r';
      assert (q - q') * m == q * m - q' * m;
    }
    MultipleIsFar(q - q', m);
  }

  lemma MultipleIsFar(k: int, m: int)
    requires m > 0
    ensures k == 0 || k * m >= m || k * m <= -m
  {
    if k >= 1 {
      assert (k - 1) * m >= 0;
      assert k * m == (k - 1) * m + m;
    } else if k <= -1 {
      assert (-k - 1) * m >= 0;
      assert k * m == -((-k - 1) * m) - m;
    }
  }

  lemma PrimitiveRoundTrip(list: seq<Descriptor>, id: nat, v: Value, pretty: int, k: string, obj: Value, junk: Junk)
    requires HasType(list, id, v) && NoDigitAhead(k)
    requires FirstDescriptor(list, id).Some? && FirstDescriptor(list, id).value.cls.Primitive?
    ensures ParseDescriptor(list, FirstDescriptor(list, id).value, id, WriteValue(list, id, v, pretty, k), obj, junk)
            == Outcome(SUCCESS, v, k)
  {
    hide IsSigned, IsUnsigned, Modulus, WidthOf, ReadInt, DecInt, Store, FirstDescriptor, ParseObject, NoDigitAhead;
    var p := FirstDescriptor(list, id).value.cls.prim;
    var t := WriteValue(list, id, v, pretty, k);
    if p == Char8 {
      assert t == ['"', v.c, '"'] + k;
    } else {
      ReadDecInt(v.n, k);
      StoreInRange(p, v.n);
      DigitsFirst(v.n, k);
    }
  }

  lemma DigitsFirst(n: int, k: string)
    ensures var t := DecInt(n) + k; t != [] && (t[0] == '-' || IsDigit(t[0]))
  {
    DecDigits(if n < 0 then -n else n);
    assert (DecInt(n) + k)[0] == DecInt(n)[0];
  }

  lemma {:induction false} ValueRoundTrip(list: seq<Descriptor>, id: nat, v: Value, pretty: int, k: string, obj: Value, junk: Junk)
    requires HasType(list, id, v) && Readable(list, id, v) && NoDigitAhead(k)
    ensures ParseDescriptor(list, FirstDescriptor(list, id).value, id, WriteValue(list, id, v, pretty, k), obj, junk)
            == Outcome(SUCCESS, v, k)
    decreases v, 2
  {
    hide ParseObject, WriteObject, FirstDescriptor, InRange, DecInt, ReadInt, ReadString, UntilNul, NoDigitAhead;
    match FirstDescriptor(list, id).value.cls
    case Primitive(_) => PrimitiveRoundTrip(list, id, v, pretty, k, obj, junk);
    case CString => ReadPlain(v.s, k);
    case Object(_) =>
      ValueStart(list, id, v, pretty, k);
      ObjectRoundTrip(list, id, v, pretty, k, obj, junk);
  }

  lemma {:induction false} ObjectRoundTrip(list: seq<Descriptor>, id: nat, v: Value, pretty: int, k: string, obj: Value, junk: Junk)
    requires HasType(list, id, v) && Readable(list, id, v) && FirstDescriptor(list, id).value.cls.Object?
    ensures ParseObject(list, id, WriteObject(list, id, v, pretty, k), obj, junk) == Outcome(SUCCESS, v, k)
    decreases v, 1
  {
    hide *;
    var d, t, value, x := ObjectFront(list, id, v, pretty, k);
    var fs := d.cls.fields;
    ReadEntry(pretty, RESERVED, value, junk);
    NoReserved(fs);
    NameSkippedIff(d.name, x);
    Tail('{', t);
    ReadBrace(list, id, t, obj, junk);
    SkipStep(list, fs, t, obj, junk, RESERVED, value, x);
    NothingYet(obj, v.fields);
    FieldsRoundTrip(list, fs, v.fields, 0, pretty, k, obj, junk);
  }

  /** The text of an object, up to the fields. */
  lemma ObjectFront(list: seq<Descriptor>, id: nat, v: Value, pretty: int, k: string)
    returns (d: Descriptor, t: string, value: string, x: string)
    requires HasType(list, id, v) && Readable(list, id, v) && FirstDescriptor(list, id).value.cls.Object?
    ensures FirstDescriptor(list, id) == Some(d) && d.cls.Object? && FieldsOf(d) == d.cls.fields
    ensures Skippable(d.name) && GoodFields(d.cls.fields) && v.Obj? && |v.fields| == |d.cls.fields| > 0
    ensures forall j | 0 <= j < |d.cls.fields| ::
              HasType(list, d.cls.fields[j].typ, v.fields[j]) && Readable(list, d.cls.fields[j].typ, v.fields[j])
    ensures x == Newline(pretty) + WriteFields(list, d.cls.fields, v.fields, 0, pretty, Spaces(pretty) + ("}" + k))
    ensures value == Quoted(d.name, "," + x) && value != [] && !IsWs(value[0])
    ensures t == Newline(pretty) + (Spaces(Deeper(pretty)) + Quoted(RESERVED, ":" + (Gap(pretty) + value)))
    ensures WriteObject(list, id, v, pretty, k) == "{" + t && Plain(RESERVED)
  {
    hide Skippable, WriteFields, Spaces, Newline, Gap, Deeper, FirstDescriptor;
    d := FirstDescriptor(list, id).value;
    x := Newline(pretty) + WriteFields(list, d.cls.fields, v.fields, 0, pretty, Spaces(pretty) + ("}" + k));
    value := Quoted(d.name, "," + x);
    t := Newline(pretty) + (Spaces(Deeper(pretty)) + Quoted(RESERVED, ":" + (Gap(pretty) + value)));
  }

  lemma NoReserved(fs: seq<Field>)
    requires GoodFields(fs)
    ensures FindField(fs, RESERVED) == None
  {
    hide Plain, FindFrom;
  }

  /** The brace of an object has been read. */
  lemma ReadBrace(list: seq<Descriptor>, id: nat, t: string, obj: Value, junk: Junk)
    requires FirstDescriptor(list, id).Some? && ("{" + t)[1..] == t
    ensures ParseObject(list, id, "{" + t, obj, junk) ==
            var r := ParseMembers(list, FieldsOf(FirstDescriptor(list, id).value), t, obj, junk);
            if r.ret != SUCCESS then r.(rest := "{" + t) else r
    ensures SkipWs("{" + t) == "{" + t && Peek("{" + t, '{')
  {
    hide ParseMembers, FirstDescriptor, FieldsOf;
  }

  lemma NothingYet(obj: Value, vs: seq<Value>)
    ensures Slots(obj, |vs|)[..0] == vs[..0]
  {
  }

  lemma {:induction false} FieldsRoundTrip(list: seq<Descriptor>, fs: seq<Field>, vs: seq<Value>, i: nat, pretty: int, k: string,
                                           obj: Value, junk: Junk)
    requires i < |fs| == |vs| && GoodFields(fs)
    requires forall j | 0 <= j < |fs| :: HasType(list, fs[j].typ, vs[j]) && Readable(list, fs[j].typ, vs[j])
    requires Slots(obj, |fs|)[..i] == vs[..i]
    ensures var close := Spaces(pretty) + ("}" + k);
            ParseMembers(list, fs, Newline(pretty) + WriteFields(list, fs, vs, i, pretty, close), obj, junk)
            == Outcome(SUCCESS, Obj(vs), k)
    decreases vs, 0, |fs| - i
  {
    var close := Spaces(pretty) + ("}" + k);
    var t := Newline(pretty) + WriteFields(list, fs, vs, i, pretty, close);
    var x := Newline(pretty) + WriteFields(list, fs, vs, i + 1, pretty, close);
    var cont := (if i < |fs| - 1 then "," else "") + x;
    var value := WriteValue(list, fs[i].typ, vs[i], Deeper(pretty), cont);
    var slots := Slots(obj, |fs|);
    var slots' := slots[i := vs[i]];
    SlotsStep(obj, vs, i);
    CloseAhead(pretty, k);
    CommaAhead(x);
    FieldAhead(list, fs, vs, i, pretty, close, junk);
    hide *;
    FieldRead(list, fs[i], vs[i], Deeper(pretty), cont, slots[i], junk);
    MemberStep(list, fs, t, obj, junk, i, value, vs[i], cont);
    if i < |fs| - 1 {
      FieldsRoundTrip(list, fs, vs, i + 1, pretty, k, Obj(slots'), junk);
    }
  }

  lemma SlotsStep(obj: Value, vs: seq<Value>, i: nat)
    requires i < |vs| && Slots(obj, |vs|)[..i] == vs[..i]
    ensures var slots := Slots(obj, |vs|)[i := vs[i]];
            && Slots(Obj(slots), |vs|) == slots && slots[..i + 1] == vs[..i + 1]
            && (i == |vs| - 1 ==> slots == vs)
  {
  }

  /** The text from the `i`-th field on is ahead of its entry, and no digit follows the value. */
  lemma FieldAhead(list: seq<Descriptor>, fs: seq<Field>, vs: seq<Value>, i: nat, pretty: int, close: string, junk: Junk)
    requires i < |fs| == |vs| && GoodFields(fs)
    requires forall j | 0 <= j < |fs| :: HasType(list, fs[j].typ, vs[j]) && Readable(list, fs[j].typ, vs[j])
    requires NoDigitAhead(Newline(pretty) + close)
    ensures var t := Newline(pretty) + WriteFields(list, fs, vs, i, pretty, close);
            var x := Newline(pretty) + WriteFields(list, fs, vs, i + 1, pretty, close);
            var cont := (if i < |fs| - 1 then "," else "") + x;
            var value := WriteValue(list, fs[i].typ, vs[i], Deeper(pretty), cont);
            && EntryAhead(t, fs[i].name, value, junk) && FindField(fs, fs[i].name) == Some(i)
            && NoDigitAhead(cont)
            && (i == |fs| - 1 ==> cont == Newline(pretty) + close)
            && (i < |fs| - 1 ==> cont == "," + x)
  {
    hide *;
    var x := Newline(pretty) + WriteFields(list, fs, vs, i + 1, pretty, close);
    var cont := (if i < |fs| - 1 then "," else "") + x;
    var value := WriteValue(list, fs[i].typ, vs[i], Deeper(pretty), cont);
    FieldFront(list, fs, vs, i, pretty, close);
    GoodField(fs, i);
    ContAhead(x, pretty, close, i < |fs| - 1);
    ValueStart(list, fs[i].typ, vs[i], Deeper(pretty), cont);
    ReadEntry(pretty, fs[i].name, value, junk);
  }

  lemma FieldFront(list: seq<Descriptor>, fs: seq<Field>, vs: seq<Value>, i: nat, pretty: int, close: string)
    requires i < |fs| == |vs| && forall j | 0 <= j < |fs| :: HasType(list, fs[j].typ, vs[j])
    ensures var x := Newline(pretty) + WriteFields(list, fs, vs, i + 1, pretty, close);
            var cont := (if i < |fs| - 1 then "," else "") + x;
            var value := WriteValue(list, fs[i].typ, vs[i], Deeper(pretty), cont);
            && Newline(pretty) + WriteFields(list, fs, vs, i, pretty, close)
               == Newline(pretty) + (Spaces(Deeper(pretty)) + Quoted(fs[i].name, ":" + (Gap(pretty) + value)))
            && (i == |fs| - 1 ==> x == Newline(pretty) + close)
  {
    hide WriteValue, HasType, Spaces, Quoted, Newline, Gap, Deeper;
  }

  lemma GoodField(fs: seq<Field>, i: nat)
    requires GoodFields(fs) && i < |fs|
    ensures Plain(fs[i].name) && FindField(fs, fs[i].name) == Some(i)
  {
    hide Plain, FindFrom;
  }

  lemma ContAhead(x: string, pretty: int, close: string, more: bool)
    requires more || x == Newline(pretty) + close
    requires NoDigitAhead(Newline(pretty) + close)
    ensures NoDigitAhead((if more then "," else "") + x)
    ensures !more ==> (if more then "," else "") + x == Newline(pretty) + close
    ensures more ==> (if more then "," else "") + x == "," + x
  {
  }

  lemma CommaAhead(x: string)
    ensures SkipWs("," + x) == "," + x && Peek("," + x, ',') && !Peek("," + x, '}') && ("," + x)[1..] == x
  {
  }

  lemma CloseAhead(pretty: int, k: string)
    ensures SkipWs(Newline(pretty) + (Spaces(pretty) + ("}" + k))) == "}" + k
    ensures Peek("}" + k, '}') && ("}" + k)[1..] == k
    ensures NoDigitAhead(Newline(pretty) + (Spaces(pretty) + ("}" + k)))
  {
    SkipIndent(pretty, pretty, "}" + k);
    SkipNone("}" + k);
    Tail('}', k);
  }

  lemma {:induction false} FieldRead(list: seq<Descriptor>, field: Field, v: Value, pretty: int, k: string, obj: Value, junk: Junk)
    requires HasType(list, field.typ, v) && Readable(list, field.typ, v) && NoDigitAhead(k)
    ensures ParseField(list, field, WriteValue(list, field.typ, v, pretty, k), obj, junk) == Outcome(SUCCESS, v, k)
    decreases v, 3
  {
    var t := WriteValue(list, field.typ, v, pretty, k);
    ValueStart(list, field.typ, v, pretty, k);
    SkipNone(t);
    ValueRoundTrip(list, field.typ, v, pretty, k, obj, junk);
    hide WriteValue, Readable, ParseDescriptor;
  }

  /** No text has the fields of an object without fields: its closing brace is only looked for behind a field. */
  lemma {:induction false} NoFieldsNoEnd(list: seq<Descriptor>, t: string, obj: Value, junk: Junk)
    ensures ParseMembers(list, [], t, obj, junk).ret == INVALID_JSON
    decreases |t|
  {
    var s1 := ReadKey(SkipWs(t), junk).1;
    var s2 := SkipWs(s1);
    if Peek(s2, ':') {
      var s3 := SkipWs(s2[1..]);
      var (found, s4) := SkipValue(s3, 0, 0);
      if found {
        NoFieldsNoEnd(list, s4, obj, junk);
      }
    }
    hide ReadKey, SkipWs, SkipValue;
  }

  /** No text is accepted as an object of a type without fields, not even what is printed for one. */
  lemma EmptyObjectRejected(list: seq<Descriptor>, id: nat, t: string, obj: Value, junk: Junk)
    requires var d := FirstDescriptor(list, id); d.Some? && FieldsOf(d.value) == []
    ensures ParseObject(list, id, t, obj, junk).ret == INVALID_JSON
  {
    hide ParseMembers, SkipWs, FirstDescriptor;
    var s := SkipWs(t);
    if Peek(s, '{') {
      NoFieldsNoEnd(list, s[1..], obj, junk);
    }
  }

  /** What `vd_meta_write_json` prints for an object of type `id`, at any indentation, `vd_meta_parse_json`
      reads back as the same object and the same type, whether or not a type is expected. */
  lemma ReadsBack(list: seq<Descriptor>, id: nat, v: Value, pretty: int, expected: nat, junk: Junk)
    requires HasType(list, id, v) && Readable(list, id, v) && FirstDescriptor(list, id).value.cls.Object?
    requires Plain(FirstDescriptor(list, id).value.name)
    requires id != 0 && FirstId(list, FirstDescriptor(list, id).value.name) == Some(id)
    requires expected == 0 || expected == id
    ensures ParseJson(list, expected, WriteObject(list, id, v, pretty, ""), junk) == (SUCCESS, id, v)
  {
    hide *;
    var d, t, value, x := ObjectFront(list, id, v, pretty, "");
    Tail('{', t);
    ReadEntry(pretty, RESERVED, value, junk);
    ReadPlain(d.name, "," + x);
    ReadBrace(list, id, t, Zero, junk);
    ReadTypeName(list, expected, id, d.name, t, "," + x, junk);
    ObjectRoundTrip(list, id, v, pretty, "", Zero, junk);
    ParseOfType(list, expected, "{" + t, junk, id, t);
  }

  lemma ReadTypeName(list: seq<Descriptor>, expected: nat, id: nat, name: string, t: string, rest: string, junk: Junk)
    requires EntryAhead(t, RESERVED, Quoted(name, rest), junk)
    requires ReadString(Quoted(name, rest)) == Some((name, rest)) && UntilNul(name) == name
    requires id != 0 && FirstId(list, name) == Some(id) && (expected == 0 || expected == id)
    ensures TypeMembers(list, expected, t, junk) == (SUCCESS, id)
  {
    hide SkipWs, ReadString, UntilNul, FirstId, Quoted, SkipValue;
  }

  lemma ParseOfType(list: seq<Descriptor>, expected: nat, text: string, junk: Junk, id: nat, t: string)
    requires SkipWs(text) == text && Peek(text, '{') && text[1..] == t
    requires TypeMembers(list, expected, t, junk) == (SUCCESS, id) && FirstDescriptor(list, id).Some?
    ensures var r := ParseObject(list, id, text, Zero, junk);
            ParseJson(list, expected, text, junk) == (r.ret, id, r.obj)
  {
    hide SkipWs, TypeMembers, ParseObject, FirstDescriptor;
  }
}
