/** The growing buffer of `lib/vd_meta.h` and the JSON writer that appends to it. */
module JsonBuffer {
  import opened Strings
  import opened JsonLex
  import opened JsonValues

  class Buffer {
    var ptr: array<char>
    var len: nat

    ghost predicate Valid()
      reads this
    {
      len <= ptr.Length
    }

    ghost function Contents(): string
      reads this, ptr
      requires Valid()
    {
      ptr[..len]
    }

    constructor ()
      ensures Valid() && Contents() == "" && fresh(ptr)
    {
      ptr := new char[0];
      len := 0;
    }

    /** `vd_meta__buffer_ensure_add` */
    method EnsureAdd(n: nat)
      requires Valid()
      modifies this`ptr
      ensures Valid() && len + n <= ptr.Length && Contents() == old(Contents())
      ensures ptr == old(ptr) || fresh(ptr)
    {
      if len + n > ptr.Length {
        var grown := new char[2 * ptr.Length + n](_ => '\0');
        forall i | 0 <= i < len {
          grown[i] := ptr[i];
        }
        ptr := grown;
      }
    }

    /** `vd_meta__buffer_pushstr` */
    method PushStr(s: string)
      requires Valid()
      modifies this, ptr
      ensures Valid() && Contents() == old(Contents()) + s
      ensures ptr == old(ptr) || fresh(ptr)
    {
      EnsureAdd(|s|);
      forall i | 0 <= i < |s| {
        ptr[len + i] := s[i];
      }
      len := len + |s|;
    }

    /** `vd_meta__buffer_pushchar` */
    method PushChar(c: char)
      requires Valid()
      modifies this, ptr
      ensures Valid() && Contents() == old(Contents()) + [c]
      ensures ptr == old(ptr) || fresh(ptr)
    {
      EnsureAdd(1);
      ptr[len] := c;
      len := len + 1;
    }

    /** `vd_meta__buffer_terminate`: the NUL does not count as content. */
    method Terminate()
      requires Valid()
      modifies this`ptr, ptr
      ensures Valid() && Contents() == old(Contents())
      ensures len < ptr.Length && ptr[len] == '\0'
      ensures ptr == old(ptr) || fresh(ptr)
    {
      EnsureAdd(1);
      ptr[len] := '\0';
    }

    /** The C string that starts at `start` in a terminated buffer. */
    method CStringAt(start: nat) returns (s: string)
      requires Valid() && start <= len < ptr.Length && ptr[len] == '\0'
      ensures s == UntilNul(Contents()[start..])
    {
      hide UntilNul;
      ghost var content := Contents()[start..];
      assert |content| == len - start && content[..0] + UntilNul(content[0..]) == UntilNul(content);
      var end := start;
      while ptr[end] != '\0'
        invariant start <= end <= len
        invariant UntilNul(content) == content[..end - start] + UntilNul(content[end - start..])
        decreases len - end
      {
        assert content[end - start] == ptr[end];
        UntilNulStep(content, end - start);
        end := end + 1;
      }
      assert end < len ==> content[end - start] == ptr[end];
      UntilNulEnd(content, end - start);
      s := ptr[start..end];
      assert s == content[..end - start];
    }

    static lemma UntilNulStep(content: string, k: nat)
      requires k < |content| && content[k] != '\0'
      requires UntilNul(content) == content[..k] + UntilNul(content[k..])
      ensures UntilNul(content) == content[..k + 1] + UntilNul(content[k + 1..])
    {
      assert content[k..][1..] == content[k + 1..];
      assert content[..k + 1] == content[..k] + [content[k]];
      Assoc(content[..k], [content[k]], UntilNul(content[k + 1..]));
    }

    static lemma UntilNulEnd(content: string, k: nat)
      requires k <= |content| && (k == |content| || content[k] == '\0')
      requires UntilNul(content) == content[..k] + UntilNul(content[k..])
      ensures UntilNul(content) == content[..k]
    {
      assert UntilNul(content[k..]) == "";
    }

    /** The loops that push `n` spaces. */
    method PushSpaces(n: int)
      requires Valid()
      modifies this, ptr
      ensures Valid() && Contents() == old(Contents()) + Spaces(n)
      ensures ptr == old(ptr) || fresh(ptr)
    {
      ghost var before := Contents();
      var i := 0;
      while i < n
        invariant Valid() && (ptr == old(ptr) || fresh(ptr))
        invariant 0 <= i && (i == 0 || i <= n)
        invariant Contents() == before + Spaces(i)
      {
        SpacesSnoc(i);
        PushChar(' ');
        assert before + Spaces(i) + " " == before + Spaces(i + 1);
        i := i + 1;
      }
      assert n <= 0 ==> Spaces(n) == Spaces(i);
    }
  }

  lemma {:induction false} SpacesSnoc(n: nat)
    ensures Spaces(n + 1) == Spaces(n) + " "
  {
    if n > 0 {
      SpacesSnoc(n - 1);
    }
  }
}

module JsonWriter {
  import opened Strings
  import opened Decimal
  import opened MetaTypes
  import opened MetaRegistry
  import opened JsonLex
  import opened JsonValues
  import opened JsonRead
  import opened JsonBuffer
  import opened JsonPrinted

  lemma QuotedBehind(s: string, t: string, k: string)
    ensures Quoted(s, t + k) == Quoted(s, t) + k
  {
  }

  /** What is written behind a value does not change its text. */
  lemma {:induction false} ValueBehind(list: seq<Descriptor>, id: nat, v: Value, pretty: int, k: string)
    requires HasType(list, id, v)
    ensures WriteValue(list, id, v, pretty, k) == WriteValue(list, id, v, pretty, "") + k
    decreases v, 2
  {
    hide FirstDescriptor, InRange, DecInt, WriteObject;
    var d := FirstDescriptor(list, id);
    if d.Some? {
      match d.value.cls
      case Primitive(p) =>
        if p == Char8 {
          QuotedBehind([v.c], "", k);
        }
      case CString => QuotedBehind(v.s, "", k);
      case Object(_) => ObjectBehind(list, id, v, pretty, k);
      case Untouched =>
    }
  }

  /** The text up to the first field. */
  function Opening(d: Descriptor, pretty: int): string {
    "{" + (Newline(pretty) + (Spaces(Deeper(pretty)) +
      Quoted(RESERVED, ":" + (Gap(pretty) + Quoted(d.name, "," + Newline(pretty))))))
  }

  /** The text of one field, up to the next. */
  function FieldText(list: seq<Descriptor>, fs: seq<Field>, vs: seq<Value>, i: nat, pretty: int): string
    requires i < |fs| == |vs| && HasType(list, fs[i].typ, vs[i])
  {
    Spaces(Deeper(pretty)) + Quoted(fs[i].name, ":" + (Gap(pretty) +
      (WriteValue(list, fs[i].typ, vs[i], Deeper(pretty), "") + ((if i < |fs| - 1 then "," else "") + Newline(pretty)))))
  }

  lemma OpeningBehind(d: Descriptor, pretty: int, k: string)
    ensures "{" + (Newline(pretty) + (Spaces(Deeper(pretty)) +
              Quoted(RESERVED, ":" + (Gap(pretty) + Quoted(d.name, "," + (Newline(pretty) + k))))))
            == Opening(d, pretty) + k
  {
    var q := "," + Newline(pretty);
    Assoc(",", Newline(pretty), k);
    QuotedBehind(d.name, q, k);
    var r := Gap(pretty) + Quoted(d.name, q);
    Assoc(Gap(pretty), Quoted(d.name, q), k);
    Assoc(":", r, k);
    QuotedBehind(RESERVED, ":" + r, k);
    var u := Quoted(RESERVED, ":" + r);
    Assoc(Spaces(Deeper(pretty)), u, k);
    Assoc(Newline(pretty), Spaces(Deeper(pretty)) + u, k);
    Assoc("{", Newline(pretty) + (Spaces(Deeper(pretty)) + u), k);
  }

  lemma {:induction false} FieldBehind(list: seq<Descriptor>, fs: seq<Field>, vs: seq<Value>, i: nat, pretty: int, k: string)
    requires i < |fs| == |vs| && forall j | 0 <= j < |fs| :: HasType(list, fs[j].typ, vs[j])
    ensures WriteFields(list, fs, vs, i, pretty, k) ==
            FieldText(list, fs, vs, i, pretty) + WriteFields(list, fs, vs, i + 1, pretty, k)
    decreases vs, 0, 0
  {
    var rest := WriteFields(list, fs, vs, i + 1, pretty, k);
    var comma := if i < |fs| - 1 then "," else "";
    var value := WriteValue(list, fs[i].typ, vs[i], Deeper(pretty), "");
    ValueBehind(list, fs[i].typ, vs[i], Deeper(pretty), comma + (Newline(pretty) + rest));
    Assoc(comma, Newline(pretty), rest);
    Assoc(value, comma + Newline(pretty), rest);
    var x := value + (comma + Newline(pretty));
    Assoc(Gap(pretty), x, rest);
    Assoc(":", Gap(pretty) + x, rest);
    QuotedBehind(fs[i].name, ":" + (Gap(pretty) + x), rest);
    Assoc(Spaces(Deeper(pretty)), Quoted(fs[i].name, ":" + (Gap(pretty) + x)), rest);
  }

  lemma {:induction false} FieldsBehind(list: seq<Descriptor>, fs: seq<Field>, vs: seq<Value>, i: nat, pretty: int, k: string)
    requires i <= |fs| == |vs| && forall j | 0 <= j < |fs| :: HasType(list, fs[j].typ, vs[j])
    ensures WriteFields(list, fs, vs, i, pretty, k) == WriteFields(list, fs, vs, i, pretty, "") + k
    decreases vs, 1, |fs| - i
  {
    hide HasType, FieldText, WriteValue, Quoted, Spaces, Newline, Gap, Deeper;
    if i < |fs| {
      FieldBehind(list, fs, vs, i, pretty, k);
      FieldBehind(list, fs, vs, i, pretty, "");
      FieldsBehind(list, fs, vs, i + 1, pretty, k);
      Assoc(FieldText(list, fs, vs, i, pretty), WriteFields(list, fs, vs, i + 1, pretty, ""), k);
    }
  }

  /** The closing of an object. */
  function Closing(pretty: int): string {
    Spaces(pretty) + "}"
  }

  lemma {:induction false} ObjectParts(list: seq<Descriptor>, id: nat, v: Value, pretty: int, k: string)
    requires HasType(list, id, v) && FirstDescriptor(list, id).Some?
    ensures var d := FirstDescriptor(list, id).value;
            var fields := if d.cls.Object? then WriteFields(list, d.cls.fields, v.fields, 0, pretty, "") else "";
            WriteObject(list, id, v, pretty, k) == Opening(d, pretty) + (fields + (Closing(pretty) + k))
    decreases v, 0
  {
    var d := FirstDescriptor(list, id).value;
    var close := Spaces(pretty) + ("}" + k);
    Assoc(Spaces(pretty), "}", k);
    if d.cls.Object? {
      FieldsBehind(list, d.cls.fields, v.fields, 0, pretty, close);
    }
    OpeningBehind(d, pretty, WriteMembers(list, d, v, pretty, close));
  }

  lemma {:induction false} ObjectBehind(list: seq<Descriptor>, id: nat, v: Value, pretty: int, k: string)
    requires HasType(list, id, v)
    ensures WriteObject(list, id, v, pretty, k) == WriteObject(list, id, v, pretty, "") + k
    decreases v, 1
  {
    var d := FirstDescriptor(list, id);
    if d.Some? {
      ObjectParts(list, id, v, pretty, k);
      ObjectParts(list, id, v, pretty, "");
      var fields := if d.value.cls.Object? then WriteFields(list, d.value.cls.fields, v.fields, 0, pretty, "") else "";
      hide *;
      PartsBehind(Opening(d.value, pretty), fields, Closing(pretty), k);
    }
  }

  lemma PartsBehind(opening: string, fields: string, closing: string, k: string)
    ensures opening + (fields + (closing + k)) == (opening + (fields + (closing + ""))) + k
  {
    assert closing + "" == closing;
    Assoc(fields, closing, k);
    Assoc(opening, fields + closing, k);
  }

  lemma OpeningParts(d: Descriptor, pretty: int)
    ensures Opening(d, pretty) ==
            ("{" + Newline(pretty) + Spaces(Deeper(pretty))) +
            ((Quoted(RESERVED, ":") + Gap(pretty)) + (Quoted(d.name, ",") + Newline(pretty)))
  {
    QuotedBehind(d.name, ",", Newline(pretty));
    var name := Quoted(d.name, "," + Newline(pretty));
    QuotedBehind(RESERVED, ":", Gap(pretty) + name);
    Assoc(Quoted(RESERVED, ":"), Gap(pretty), name);
    var entry := Quoted(RESERVED, ":" + (Gap(pretty) + name));
    Assoc("{" + Newline(pretty), Spaces(Deeper(pretty)), entry);
    Assoc("{", Newline(pretty), Spaces(Deeper(pretty)) + entry);
  }

  lemma FieldParts(list: seq<Descriptor>, fs: seq<Field>, vs: seq<Value>, i: nat, pretty: int)
    requires i < |fs| == |vs| && HasType(list, fs[i].typ, vs[i])
    ensures FieldText(list, fs, vs, i, pretty) ==
            (Spaces(Deeper(pretty)) + (Quoted(fs[i].name, ":") + Gap(pretty))) +
            (WriteValue(list, fs[i].typ, vs[i], Deeper(pretty), "") + ((if i < |fs| - 1 then "," else "") + Newline(pretty)))
  {
    var x := WriteValue(list, fs[i].typ, vs[i], Deeper(pretty), "") + ((if i < |fs| - 1 then "," else "") + Newline(pretty));
    QuotedBehind(fs[i].name, ":", Gap(pretty) + x);
    Assoc(Quoted(fs[i].name, ":"), Gap(pretty), x);
    Assoc(Spaces(Deeper(pretty)), Quoted(fs[i].name, ":") + Gap(pretty), x);
  }

  method PushNewline(buffer: Buffer, pretty: int)
    requires buffer.Valid()
    modifies buffer, buffer.ptr
    ensures buffer.Valid() && buffer.Contents() == old(buffer.Contents()) + Newline(pretty)
    ensures buffer.ptr == old(buffer.ptr) || fresh(buffer.ptr)
  {
    if pretty >= 0 {
      buffer.PushChar('\n');
    }
  }

  method PushGap(buffer: Buffer, pretty: int)
    requires buffer.Valid()
    modifies buffer, buffer.ptr
    ensures buffer.Valid() && buffer.Contents() == old(buffer.Contents()) + Gap(pretty)
    ensures buffer.ptr == old(buffer.ptr) || fresh(buffer.ptr)
  {
    if pretty >= 0 {
      buffer.PushChar(' ');
    }
  }

  /** A string in quotes, and `t` behind it. */
  method PushQuoted(buffer: Buffer, s: string, t: string)
    requires buffer.Valid()
    modifies buffer, buffer.ptr
    ensures buffer.Valid() && buffer.Contents() == old(buffer.Contents()) + Quoted(s, t)
    ensures buffer.ptr == old(buffer.ptr) || fresh(buffer.ptr)
  {
    ghost var c := buffer.Contents();
    buffer.PushStr("\"");
    buffer.PushStr(s);
    buffer.PushStr("\"" + t);
    assert buffer.Contents() == c + Quoted(s, t);
  }

  lemma Glue(x: string, a: string, b: string, c: string, d: string)
    ensures ((x + a) + b) + (c + d) == x + (a + (b + (c + d)))
    ensures (((x + a) + b) + c) + d == x + (a + (b + (c + d)))
  {
    Assoc(x + a + b, c, d);
    Assoc(x + a, b, c + d);
    Assoc(x, a, b + (c + d));
  }

  /** The brace and the indentation that begin an object. */
  method PushBrace(buffer: Buffer, pretty: int)
    requires buffer.Valid()
    modifies buffer, buffer.ptr
    ensures buffer.Valid()
    ensures buffer.Contents() == old(buffer.Contents()) + ("{" + Newline(pretty) + Spaces(Deeper(pretty)))
    ensures buffer.ptr == old(buffer.ptr) || fresh(buffer.ptr)
  {
    ghost var c := buffer.Contents();
    hide *;
    buffer.PushChar('{');
    PushNewline(buffer, pretty);
    buffer.PushSpaces(Deeper(pretty));
    Assoc(c, "{", Newline(pretty));
    Assoc(c, "{" + Newline(pretty), Spaces(Deeper(pretty)));
  }

  /** A key, its colon and the gap behind it. */
  method PushKey(buffer: Buffer, name: string, pretty: int)
    requires buffer.Valid()
    modifies buffer, buffer.ptr
    ensures buffer.Valid()
    ensures buffer.Contents() == old(buffer.Contents()) + (Quoted(name, ":") + Gap(pretty))
    ensures buffer.ptr == old(buffer.ptr) || fresh(buffer.ptr)
  {
    ghost var c := buffer.Contents();
    hide *;
    PushQuoted(buffer, name, ":");
    PushGap(buffer, pretty);
    Assoc(c, Quoted(name, ":"), Gap(pretty));
  }

  method WriteOpening(d: Descriptor, buffer: Buffer, pretty: int)
    requires buffer.Valid()
    modifies buffer, buffer.ptr
    ensures buffer.Valid() && buffer.Contents() == old(buffer.Contents()) + Opening(d, pretty)
    ensures buffer.ptr == old(buffer.ptr) || fresh(buffer.ptr)
  {
    ghost var c := buffer.Contents();
    OpeningParts(d, pretty);
    hide *;
    PushBrace(buffer, pretty);
    PushKey(buffer, RESERVED, pretty);
    PushQuoted(buffer, d.name, ",");
    PushNewline(buffer, pretty);
    Glue(c, "{" + Newline(pretty) + Spaces(Deeper(pretty)), Quoted(RESERVED, ":") + Gap(pretty),
         Quoted(d.name, ","), Newline(pretty));
  }

  /** The indentation, the key and what follows it, before the value of a field. */
  method WriteFieldKey(name: string, buffer: Buffer, pretty: int)
    requires buffer.Valid()
    modifies buffer, buffer.ptr
    ensures buffer.Valid()
    ensures buffer.Contents() == old(buffer.Contents()) + (Spaces(Deeper(pretty)) + (Quoted(name, ":") + Gap(pretty)))
    ensures buffer.ptr == old(buffer.ptr) || fresh(buffer.ptr)
  {
    ghost var c := buffer.Contents();
    hide *;
    buffer.PushSpaces(Deeper(pretty));
    PushKey(buffer, name, pretty);
    Assoc(c, Spaces(Deeper(pretty)), Quoted(name, ":") + Gap(pretty));
  }

  /** What stands between two fields, or behind the last. */
  method WriteFieldEnd(last: bool, buffer: Buffer, pretty: int)
    requires buffer.Valid()
    modifies buffer, buffer.ptr
    ensures buffer.Valid()
    ensures buffer.Contents() == old(buffer.Contents()) + ((if last then "" else ",") + Newline(pretty))
    ensures buffer.ptr == old(buffer.ptr) || fresh(buffer.ptr)
  {
    ghost var c := buffer.Contents();
    hide *;
    if !last {
      buffer.PushStr(",");
    }
    PushNewline(buffer, pretty);
    assert c + "" == c;
    Assoc(c, if last then "" else ",", Newline(pretty));
  }

  /** `vd_meta__write_json_descriptor`; also `vd_meta__write_json_field`, for fields without array flags. */
  method WriteDescriptor(reg: Registry, v: Value, id: nat, buffer: Buffer, pretty: int) returns (ret: int)
    requires reg.Valid() && buffer.Valid() && HasType(reg.list, id, v)
    modifies buffer, buffer.ptr
    ensures buffer.Valid()
    ensures buffer.Contents() == old(buffer.Contents()) + WriteValue(reg.list, id, v, pretty, "")
    ensures buffer.ptr == old(buffer.ptr) || fresh(buffer.ptr)
    ensures ret == if FirstDescriptor(reg.list, id).Some? then SUCCESS else DESCRIPTOR_NOT_FOUND
    decreases v, 2
  {
    ghost var c := buffer.Contents();
    assert c + "" == c;
    var descriptor := reg.GetDescriptor(id);
    if descriptor.None? {
      return DESCRIPTOR_NOT_FOUND;
    }
    match descriptor.value.cls {
      case Primitive(p) =>
        if p == Char8 {
          PushQuoted(buffer, [v.c], "");
        } else {
          buffer.PushStr(DecInt(v.n));
          assert DecInt(v.n) + "" == DecInt(v.n);
        }
      case CString =>
        PushQuoted(buffer, v.s, "");
      case Object(_) =>
        var _ := WriteObjectTo(reg, v, id, buffer, pretty);
      case Untouched =>
    }
    return SUCCESS;
  }

  /** `vd_meta__write_json_object` */
  method WriteObjectTo(reg: Registry, v: Value, id: nat, buffer: Buffer, pretty: int) returns (ret: int)
    requires reg.Valid() && buffer.Valid() && HasType(reg.list, id, v)
    modifies buffer, buffer.ptr
    ensures buffer.Valid()
    ensures buffer.Contents() == old(buffer.Contents()) + WriteObject(reg.list, id, v, pretty, "")
    ensures buffer.ptr == old(buffer.ptr) || fresh(buffer.ptr)
    ensures ret == if FirstDescriptor(reg.list, id).Some? then SUCCESS else DESCRIPTOR_NOT_FOUND
    decreases v, 1
  {
    hide *;
    ghost var c := buffer.Contents();
    var descriptor := reg.GetDescriptor(id);
    if descriptor.None? {
      NoObject(reg.list, id, v, pretty, c);
      return DESCRIPTOR_NOT_FOUND;
    }
    var d := descriptor.value;
    ObjectParts(reg.list, id, v, pretty, "");
    FieldTypes(reg.list, id, v);
    WriteOpening(d, buffer, pretty);
    ghost var fields := if d.cls.Object? then WriteFields(reg.list, d.cls.fields, v.fields, 0, pretty, "") else "";
    if d.cls.Object? {
      WriteAllFields(reg, v, d, buffer, pretty);
    } else {
      assert c + Opening(d, pretty) + "" == c + Opening(d, pretty);
    }
    buffer.PushSpaces(pretty);
    buffer.PushChar('}');
    ClosingParts(c + Opening(d, pretty) + fields, pretty);
    Assoc(c, Opening(d, pretty), fields + (Closing(pretty) + ""));
    Assoc(c + Opening(d, pretty), fields, Closing(pretty) + "");
    return SUCCESS;
  }

  lemma NoObject(list: seq<Descriptor>, id: nat, v: Value, pretty: int, c: string)
    requires HasType(list, id, v) && FirstDescriptor(list, id).None?
    ensures c == c + WriteObject(list, id, v, pretty, "")
  {
  }

  lemma FieldTypes(list: seq<Descriptor>, id: nat, v: Value)
    requires HasType(list, id, v) && FirstDescriptor(list, id).Some?
    ensures var d := FirstDescriptor(list, id).value;
            d.cls.Object? ==>
              && v.Obj? && |v.fields| == |d.cls.fields|
              && forall i | 0 <= i < |v.fields| :: HasType(list, d.cls.fields[i].typ, v.fields[i])
  {
  }

  lemma ClosingParts(x: string, pretty: int)
    ensures x + Spaces(pretty) + "}" == x + (Closing(pretty) + "")
  {
    Assoc(x, Spaces(pretty), "}");
    assert Closing(pretty) + "" == Closing(pretty);
  }

  /** The loop over the fields of an object. */
  method WriteAllFields(reg: Registry, v: Value, d: Descriptor, buffer: Buffer, pretty: int)
    requires reg.Valid() && buffer.Valid() && d.cls.Object? && v.Obj? && |v.fields| == |d.cls.fields|
    requires forall i | 0 <= i < |v.fields| :: HasType(reg.list, d.cls.fields[i].typ, v.fields[i])
    modifies buffer, buffer.ptr
    ensures buffer.Valid()
    ensures buffer.Contents() == old(buffer.Contents()) + WriteFields(reg.list, d.cls.fields, v.fields, 0, pretty, "")
    ensures buffer.ptr == old(buffer.ptr) || fresh(buffer.ptr)
    decreases v, 0
  {
    hide *;
    ghost var c := buffer.Contents();
    var fs, vs := d.cls.fields, v.fields;
    var fi := 0;
    while fi < |fs|
      invariant 0 <= fi <= |fs| && buffer.Valid() && (buffer.ptr == old(buffer.ptr) || fresh(buffer.ptr))
      invariant buffer.Contents() + WriteFields(reg.list, fs, vs, fi, pretty, "") ==
                c + WriteFields(reg.list, fs, vs, 0, pretty, "")
    {
      ghost var ci := buffer.Contents();
      FieldBehind(reg.list, fs, vs, fi, pretty, "");
      WriteField(reg, fs, vs, fi, buffer, pretty);
      Assoc(ci, FieldText(reg.list, fs, vs, fi, pretty), WriteFields(reg.list, fs, vs, fi + 1, pretty, ""));
      fi := fi + 1;
    }
    NoMoreFields(reg.list, fs, vs, pretty, buffer.Contents());
  }

  lemma NoMoreFields(list: seq<Descriptor>, fs: seq<Field>, vs: seq<Value>, pretty: int, c: string)
    requires |fs| == |vs| && forall j | 0 <= j < |fs| :: HasType(list, fs[j].typ, vs[j])
    ensures c + WriteFields(list, fs, vs, |fs|, pretty, "") == c
  {
    hide HasType;
  }

  method WriteField(reg: Registry, fs: seq<Field>, vs: seq<Value>, fi: nat, buffer: Buffer, pretty: int)
    requires reg.Valid() && buffer.Valid() && fi < |fs| == |vs| && HasType(reg.list, fs[fi].typ, vs[fi])
    modifies buffer, buffer.ptr
    ensures buffer.Valid()
    ensures buffer.Contents() == old(buffer.Contents()) + FieldText(reg.list, fs, vs, fi, pretty)
    ensures buffer.ptr == old(buffer.ptr) || fresh(buffer.ptr)
    decreases vs[fi], 3
  {
    ghost var c := buffer.Contents();
    FieldParts(reg.list, fs, vs, fi, pretty);
    hide *;
    WriteFieldKey(fs[fi].name, buffer, pretty);
    var _ := WriteDescriptor(reg, vs[fi], fs[fi].typ, buffer, Deeper(pretty));
    WriteFieldEnd(fi == |fs| - 1, buffer, pretty);
    ghost var key := Spaces(Deeper(pretty)) + (Quoted(fs[fi].name, ":") + Gap(pretty));
    ghost var end := (if fi < |fs| - 1 then "," else "") + Newline(pretty);
    ghost var value := WriteValue(reg.list, fs[fi].typ, vs[fi], Deeper(pretty), "");
    Assoc(c + key, value, end);
    Assoc(c, key, value + end);
  }

  lemma PrintedInFull(list: seq<Descriptor>, id: nat, v: Value, pretty: int)
    requires HasType(list, id, v) && FirstDescriptor(list, id).Some? && FirstDescriptor(list, id).value.cls.Object?
    ensures WriteObject(list, id, v, pretty, "")
            == if pretty < 0 then Compact(list, id, v) else Joined(Lines(list, id, v, pretty), "\n")
  {
    hide *;
    if pretty < 0 {
      MinifiedObject(list, id, v, pretty, "");
      assert Compact(list, id, v) + "" == Compact(list, id, v);
    } else {
      IndentedObject(list, id, v, pretty, "");
      assert Joined(Lines(list, id, v, pretty), "\n") + "" == Joined(Lines(list, id, v, pretty), "\n");
    }
  }

  /** `vd_meta_write_json`. The text is terminated; the NUL does not count. */
  method WriteJson(reg: Registry, v: Value, id: nat, pretty: int) returns (json: string)
    requires reg.Valid() && HasType(reg.list, id, v)
    ensures json == WriteObject(reg.list, id, v, pretty, "")
    ensures FirstDescriptor(reg.list, id).Some? && FirstDescriptor(reg.list, id).value.cls.Object? ==>
              json == if pretty < 0 then Compact(reg.list, id, v) else Joined(Lines(reg.list, id, v, pretty), "\n")
  {
    hide HasType, WriteObject;
    var buffer := new Buffer();
    var _ := WriteObjectTo(reg, v, id, buffer, pretty);
    buffer.Terminate();
    json := buffer.ptr[..buffer.len];
    assert "" + json == json;
    if FirstDescriptor(reg.list, id).Some? && FirstDescriptor(reg.list, id).value.cls.Object? {
      PrintedInFull(reg.list, id, v, pretty);
    }
  }
}
