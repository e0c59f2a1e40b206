/** The JSON reader of `lib/vd_meta.h`, over slices whose position moves in place. */
module JsonSlice {
  import opened Strings
  import opened Wrappers
  import opened JsonLex
  import opened JsonRead
  import opened JsonBuffer

  class Slice {
    const str: string
    var pos: nat

    ghost predicate Valid()
      reads this
    {
      pos <= |str|
    }

    /** The text ahead. */
    function Rest(): string
      reads this
      requires Valid()
    {
      str[pos..]
    }

    /** How much is ahead. */
    lemma Left()
      requires Valid()
      ensures pos <= |str| && |Rest()| == |str| - pos
    {
    }

    constructor (str: string)
      ensures Valid() && Rest() == str && this.str == str && pos == 0
    {
      this.str := str;
      pos := 0;
    }

    /** `VD_META__SLICE_COPY` */
    method Copy() returns (s: Slice)
      requires Valid()
      ensures fresh(s) && s.Valid() && s.pos == 0 && s.str == Rest() == s.Rest()
    {
      s := new Slice(str[pos..]);
    }

    /** `VD_META__SLICE_APPLY`: what the copy `s` has consumed is consumed here as well. */
    method Apply(s: Slice)
      requires Valid() && s.Valid() && s != this && s.str == Rest()
      modifies this`pos
      ensures Valid() && Rest() == s.Rest() && pos == old(pos) + s.pos
    {
      pos := pos + s.pos;
      assert str[pos..] == str[old(pos)..][s.pos..];
    }

    method PeekChar(c: char) returns (r: bool)
      requires Valid()
      ensures r == Peek(Rest(), c)
    {
      r := pos < |str| && str[pos] == c;
    }

    method ExpectChar(c: char) returns (r: bool)
      requires Valid()
      modifies this`pos
      ensures Valid() && r == Peek(old(Rest()), c)
      ensures Rest() == if r then old(Rest())[1..] else old(Rest())
    {
      if pos >= |str| || str[pos] != c {
        return false;
      }
      pos := pos + 1;
      return true;
    }

    /** Answers NUL at the end. */
    method ReadChar() returns (c: char)
      requires Valid()
      modifies this`pos
      ensures Valid()
      ensures old(Rest()) == [] ==> c == '\0' && Rest() == []
      ensures old(Rest()) != [] ==> c == old(Rest())[0] && Rest() == old(Rest())[1..]
    {
      if pos >= |str| {
        return '\0';
      }
      c := str[pos];
      pos := pos + 1;
    }

    method SkipWhitespace()
      requires Valid()
      modifies this`pos
      ensures Valid() && Rest() == SkipWs(old(Rest()))
    {
      while pos < |str| && IsWs(str[pos])
        invariant Valid() && SkipWs(Rest()) == SkipWs(old(Rest()))
        decreases |str| - pos
      {
        assert Rest()[1..] == str[pos + 1..];
        pos := pos + 1;
      }
    }

    /** `vd_meta__json_skip_value` */
    method SkipJsonValue() returns (found: bool)
      requires Valid()
      modifies this`pos
      ensures Valid() && (found, Rest()) == SkipValue(old(Rest()), 0, 0)
    {
      var brackets, braces := 0, 0;
      while true
        invariant Valid() && SkipValue(Rest(), brackets, braces) == SkipValue(old(Rest()), 0, 0)
        decreases |str| - pos
      {
        var c := ReadChar();
        if c == '\0' {
          return false;
        }

        if c == '[' {
          brackets := brackets + 1;
        } else if c == ']' {
          brackets := brackets - 1;
        } else if c == '{' {
          braces := braces + 1;
        } else if c == '}' {
          braces := braces - 1;
        } else if c == ',' && brackets == 0 && braces == 0 {
          return true;
        }
      }
    }
  }

  /** What `ReadBody` answers when `acc` has been read before `t`. */
  ghost function ReadOn(acc: string, t: string): Option<(string, string)> {
    match ReadBody(t)
    case None => None
    case Some(p) => Some((acc + p.0, p.1))
  }

  lemma ReadOnStart(t: string)
    ensures ReadOn("", t) == ReadBody(t)
  {
    var r := ReadBody(t);
    if r.Some? {
      assert "" + r.value.0 == r.value.0;
    }
  }

  lemma ReadOnStep(acc: string, t: string)
    requires t != [] && t[0] != '"' && t[0] != '\0'
    ensures var c := if t[0] != '\\' then t[0] else if |t| > 1 then Unescape(t[1]) else '\0';
            var rest := if t[0] != '\\' || |t| == 1 then t[1..] else t[2..];
            ReadOn(acc, t) == ReadOn(acc + [c], rest) && Unescape('\0') == '\0'
  {
    var c := if t[0] != '\\' then t[0] else if |t| > 1 then Unescape(t[1]) else '\0';
    var rest := if t[0] != '\\' || |t| == 1 then t[1..] else t[2..];
    var r := ReadBody(rest);
    if r.Some? {
      assert (acc + [c]) + r.value.0 == acc + ([c] + r.value.0);
    }
  }

  /** The loop of `vd_meta__parse_json_string`: pushes the content of the literal whose opening quote has been read. */
  method ReadContent(s: Slice, buffer: Buffer) returns (ok: bool)
    requires s.Valid() && buffer.Valid()
    modifies s`pos, buffer, buffer.ptr
    ensures s.Valid() && buffer.Valid() && (buffer.ptr == old(buffer.ptr) || fresh(buffer.ptr))
    ensures ok == ReadBody(old(s.Rest())).Some?
    ensures ok ==> buffer.Contents() == old(buffer.Contents()) + ReadBody(old(s.Rest())).value.0
    ensures ok ==> s.Rest() == ReadBody(old(s.Rest())).value.1
  {
    hide *;
    ghost var before, t0 := buffer.Contents(), s.Rest();
    ghost var acc, t := "", t0;
    assert before + "" == before;
    ReadOnStart(t0);
    var c := s.ReadChar();
    while c != '"' && c != '\0'
      invariant s.Valid() && buffer.Valid() && (buffer.ptr == old(buffer.ptr) || fresh(buffer.ptr))
      invariant if t == [] then c == '\0' else c == t[0] && s.Rest() == t[1..]
      invariant ReadOn(acc, t) == ReadBody(t0)
      invariant buffer.Contents() == before + acc
      decreases |t|
    {
      ReadOnStep(acc, t);
      var d := c;
      if c == '\\' {
        var e := s.ReadChar();
        d := Unescape(e);
      }
      buffer.PushChar(d);
      Assoc(before, acc, [d]);
      acc := acc + [d];
      t := s.Rest();
      c := s.ReadChar();
    }
    ok := c != '\0';
    ReadOnEnd(acc, t, c);
  }

  lemma ReadOnEnd(acc: string, t: string, c: char)
    requires if t == [] then c == '\0' else c == t[0]
    requires c == '"' || c == '\0'
    ensures ReadOn(acc, t) == if c == '"' then Some((acc, t[1..])) else None
  {
    if c == '"' {
      assert acc + "" == acc;
    }
  }

  /** `vd_meta__parse_json_string` */
  method ParseString(slice: Slice, buffer: Buffer) returns (ok: bool, key: string)
    requires slice.Valid() && buffer.Valid()
    modifies slice`pos, buffer, buffer.ptr
    ensures slice.Valid() && buffer.Valid() && (buffer.ptr == old(buffer.ptr) || fresh(buffer.ptr))
    ensures var r := ReadString(old(slice.Rest()));
            && ok == r.Some?
            && (ok ==> key == UntilNul(r.value.0) && slice.Rest() == r.value.1)
            && (!ok ==> slice.pos == old(slice.pos))
  {
    hide ReadBody, UntilNul;
    key := "";
    var s := slice.Copy();
    ok := s.ExpectChar('"');
    if !ok {
      return;
    }
    var start := buffer.len;
    ghost var before := buffer.Contents();
    ok := ReadContent(s, buffer);
    if !ok {
      return;
    }
    buffer.Terminate();
    key := buffer.CStringAt(start);
    assert buffer.Contents()[start..] == ReadBody(old(slice.Rest())[1..]).value.0;
    slice.Apply(s);
  }

  /** The key that follows, or the junk in the variable when there is no string. */
  method ParseKey(slice: Slice, buffer: Buffer, junk: Junk) returns (key: string)
    requires slice.Valid() && buffer.Valid()
    modifies slice`pos, buffer, buffer.ptr
    ensures slice.Valid() && buffer.Valid() && (buffer.ptr == old(buffer.ptr) || fresh(buffer.ptr))
    ensures (key, slice.Rest()) == ReadKey(old(slice.Rest()), junk)
  {
    hide ReadString, UntilNul;
    var stale := junk(slice.Rest());
    var ok, k := ParseString(slice, buffer);
    key := if ok then k else stale;
  }
}

module JsonReader {
  import opened Strings
  import opened Wrappers
  import opened MetaTypes
  import opened MetaRegistry
  import opened JsonLex
  import opened JsonValues
  import opened JsonRead
  import opened JsonBuffer
  import opened JsonSlice
  import opened JsonWriter
  import opened JsonRoundTrip

  /** `find_field`; its loop. */
  method Find(fs: seq<Field>, key: string) returns (r: Option<nat>)
    ensures r == FindField(fs, key)
  {
    var i := 0;
    while i < |fs|
      invariant 0 <= i <= |fs| && FindFrom(fs, key, i) == FindField(fs, key)
    {
      if fs[i].name == key {
        return Some(i);
      }
      i := i + 1;
    }
    return None;
  }

  /** `vd_meta__parse_json_descriptor` */
  method ParseDescriptorAt(reg: Registry, d: Descriptor, id: nat, buffer: Buffer, slice: Slice, obj: Value, junk: Junk)
    returns (ret: int, obj': Value)
    requires reg.Valid() && buffer.Valid() && slice.Valid()
    modifies slice`pos, buffer, buffer.ptr
    ensures slice.Valid() && buffer.Valid() && (buffer.ptr == old(buffer.ptr) || fresh(buffer.ptr))
    ensures Outcome(ret, obj', slice.Rest()) == ParseDescriptor(reg.list, d, id, old(slice.Rest()), obj, junk)
    ensures ret != SUCCESS ==> slice.pos == old(slice.pos)
    decreases |slice.str| - slice.pos, 2
  {
    hide ParseObject, ReadInt, Store, ReadString, UntilNul, IsSuffix, JsonSlice.Slice.Rest;
    slice.Left();
    ret, obj' := SUCCESS, obj;
    var s := slice.Copy();
    var brace := s.PeekChar('{');
    if brace {
      ret, obj' := ParseObjectAt(reg, id, buffer, s, obj, junk);
      if ret != SUCCESS {
        return;
      }
      slice.Apply(s);
    } else {
      match d.cls {
        case Primitive(p) =>
          if p == Char8 {
            obj' := ParseChar(slice, s, obj);
          } else {
            var n := ParseNumber(p, slice, s);
            obj' := Num(n);
          }
        case CString =>
          var ok, key := ParseString(s, buffer);
          if ok {
            obj' := Str(key);
            slice.Apply(s);
          }
        case Object(_) =>
        case Untouched =>
      }
    }
  }

  /** An integer, as the `strtol` family reads it. */
  method ParseNumber(p: Prim, slice: Slice, s: Slice) returns (n: int)
    requires slice.Valid() && s.Valid() && s != slice && s.str == slice.Rest() && s.pos == 0
    modifies slice`pos, s`pos
    ensures slice.Valid()
    ensures var (neg, m, rest) := ReadInt(old(slice.Rest()));
            n == Store(p, neg, m) && slice.Rest() == rest
  {
    var (neg, m, rest) := ReadInt(s.str);
    ReadIntSuffix(s.str);
    hide ReadInt, Store;
    n := Store(p, neg, m);
    s.pos := s.pos + (|s.str| - |rest|);
    slice.Apply(s);
  }

  /** A character between quotes. It is stored even if the closing quote is missing. */
  method ParseChar(slice: Slice, s: Slice, obj: Value) returns (obj': Value)
    requires slice.Valid() && s.Valid() && s != slice && s.str == slice.Rest() && s.pos == 0
    modifies slice`pos, s`pos
    ensures slice.Valid()
    ensures var t := old(slice.Rest());
            if !Peek(t, '"') then obj' == obj && slice.Rest() == t
            else
              var rest := if |t| > 1 then t[2..] else [];
              && obj' == Chr(if |t| > 1 then t[1] else '\0')
              && slice.Rest() == if Peek(rest, '"') then rest[1..] else t
  {
    obj' := obj;
    var open := s.ExpectChar('"');
    if open {
      var c := s.ReadChar();
      obj' := Chr(c);
      var close := s.ExpectChar('"');
      if close {
        slice.Apply(s);
      }
    }
  }

  lemma FieldUnfolds(list: seq<Descriptor>, field: Field, t: string, obj: Value, junk: Junk)
    ensures |SkipWs(t)| <= |t|
    ensures var d := FirstDescriptor(list, field.typ);
            ParseField(list, field, t, obj, junk) ==
            if Peek(SkipWs(t), '[') then Outcome(INVALID_JSON, obj, t)
            else if d.None? then Outcome(DESCRIPTOR_NOT_FOUND, obj, t)
            else
              var r := ParseDescriptor(list, d.value, field.typ, SkipWs(t), obj, junk);
              if r.ret != SUCCESS then r.(rest := t) else r
  {
    hide ParseDescriptor, SkipWs, FirstDescriptor;
  }

  /** `vd_meta__parse_json_field`, for a field without array flags. */
  method ParseFieldAt(reg: Registry, field: Field, buffer: Buffer, slice: Slice, obj: Value, junk: Junk)
    returns (ret: int, obj': Value)
    requires reg.Valid() && buffer.Valid() && slice.Valid()
    modifies slice`pos, buffer, buffer.ptr
    ensures slice.Valid() && buffer.Valid() && (buffer.ptr == old(buffer.ptr) || fresh(buffer.ptr))
    ensures Outcome(ret, obj', slice.Rest()) == ParseField(reg.list, field, old(slice.Rest()), obj, junk)
    ensures ret != SUCCESS ==> slice.pos == old(slice.pos)
    decreases |slice.str| - slice.pos, 3
  {
    hide *;
    FieldUnfolds(reg.list, field, slice.Rest(), obj, junk);
    slice.Left();
    ret, obj' := SUCCESS, obj;
    var s := slice.Copy();
    s.SkipWhitespace();
    s.Left();
    var bracket := s.PeekChar('[');
    if bracket {
      ret := INVALID_JSON;
      return;
    }
    var desc := reg.GetDescriptor(field.typ);
    if desc.None? {
      ret := DESCRIPTOR_NOT_FOUND;
      return;
    }
    ret, obj' := ParseDescriptorAt(reg, desc.value, field.typ, buffer, s, obj, junk);
    if ret == SUCCESS {
      slice.Apply(s);
    }
  }

  lemma ObjectUnfolds(list: seq<Descriptor>, id: nat, t: string, obj: Value, junk: Junk)
    ensures |SkipWs(t)| <= |t| && (Peek(SkipWs(t), '{') ==> SkipWs(t) != [])
    ensures var d := FirstDescriptor(list, id);
            ParseObject(list, id, t, obj, junk) ==
            if d.None? then Outcome(DESCRIPTOR_NOT_FOUND, obj, t)
            else if !Peek(SkipWs(t), '{') then Outcome(INVALID_JSON, obj, t)
            else
              var r := ParseMembers(list, FieldsOf(d.value), SkipWs(t)[1..], obj, junk);
              if r.ret != SUCCESS then r.(rest := t) else r
  {
    hide ParseMembers, SkipWs, FirstDescriptor, FieldsOf;
  }

  /** `vd_meta__parse_json_object` */
  method ParseObjectAt(reg: Registry, id: nat, buffer: Buffer, slice: Slice, obj: Value, junk: Junk)
    returns (ret: int, obj': Value)
    requires reg.Valid() && buffer.Valid() && slice.Valid()
    modifies slice`pos, buffer, buffer.ptr
    ensures slice.Valid() && buffer.Valid() && (buffer.ptr == old(buffer.ptr) || fresh(buffer.ptr))
    ensures Outcome(ret, obj', slice.Rest()) == ParseObject(reg.list, id, old(slice.Rest()), obj, junk)
    ensures ret != SUCCESS ==> slice.pos == old(slice.pos)
    decreases |slice.str| - slice.pos, 1
  {
    hide *;
    ObjectUnfolds(reg.list, id, slice.Rest(), obj, junk);
    slice.Left();
    ret, obj' := SUCCESS, obj;
    var descriptor := reg.GetDescriptor(id);
    if descriptor.None? {
      ret := DESCRIPTOR_NOT_FOUND;
      return;
    }
    var s := slice.Copy();
    s.SkipWhitespace();
    var brace := s.ExpectChar('{');
    if !brace {
      ret := INVALID_JSON;
      return;
    }
    s.Left();
    ret, obj' := ParseMembersAt(reg, FieldsOf(descriptor.value), buffer, s, obj, junk);
    if ret == SUCCESS {
      slice.Apply(s);
    }
  }

  /** The loop of `vd_meta__parse_json_object`. */
  method ParseMembersAt(reg: Registry, fs: seq<Field>, buffer: Buffer, s: Slice, obj: Value, junk: Junk)
    returns (ret: int, obj': Value)
    requires reg.Valid() && buffer.Valid() && s.Valid()
    modifies s`pos, buffer, buffer.ptr
    ensures s.Valid() && buffer.Valid() && (buffer.ptr == old(buffer.ptr) || fresh(buffer.ptr))
    ensures Outcome(ret, obj', s.Rest()) == ParseMembers(reg.list, fs, old(s.Rest()), obj, junk)
    decreases |s.str| - s.pos, 5
  {
    hide ParseMembers;
    ghost var whole := ParseMembers(reg.list, fs, s.Rest(), obj, junk);
    ret, obj' := SUCCESS, obj;
    while true
      invariant s.Valid() && buffer.Valid() && (buffer.ptr == old(buffer.ptr) || fresh(buffer.ptr))
      invariant ParseMembers(reg.list, fs, s.Rest(), obj', junk) == whole && ret == SUCCESS
      invariant s.pos >= old(s.pos)
      decreases |s.str| - s.pos
    {
      var more;
      more, ret, obj' := ParseMember(reg, fs, buffer, s, obj', junk);
      if !more {
        return;
      }
    }
  }

  lemma MemberUnfolds(list: seq<Descriptor>, fs: seq<Field>, t: string, obj: Value, junk: Junk)
    ensures var (key, s1) := ReadKey(SkipWs(t), junk);
            var s2 := SkipWs(s1);
            && |s2| <= |t| && (Peek(s2, ':') ==> s2 != [])
            && ParseMembers(list, fs, t, obj, junk) ==
               if !Peek(s2, ':') then Outcome(INVALID_JSON, obj, s2)
               else MemberValue(list, fs, key, SkipWs(s2[1..]), obj, junk)
  {
    hide ReadKey, SkipWs, SkipValue, FindField, ParseField, Slots;
  }

  /** One turn of that loop: `more` when it goes on. */
  method ParseMember(reg: Registry, fs: seq<Field>, buffer: Buffer, s: Slice, obj: Value, junk: Junk)
    returns (more: bool, ret: int, obj': Value)
    requires reg.Valid() && buffer.Valid() && s.Valid()
    modifies s`pos, buffer, buffer.ptr
    ensures s.Valid() && buffer.Valid() && (buffer.ptr == old(buffer.ptr) || fresh(buffer.ptr))
    ensures var r := ParseMembers(reg.list, fs, old(s.Rest()), obj, junk);
            if more then ret == SUCCESS && s.pos > old(s.pos) && r == ParseMembers(reg.list, fs, s.Rest(), obj', junk)
            else r == Outcome(ret, obj', s.Rest())
    decreases |s.str| - s.pos, 4
  {
    hide *;
    MemberUnfolds(reg.list, fs, s.Rest(), obj, junk);
    s.Left();
    more, ret, obj' := false, INVALID_JSON, obj;
    s.SkipWhitespace();
    var key := ParseKey(s, buffer, junk);
    s.SkipWhitespace();
    var colon := s.ExpectChar(':');
    if !colon {
      return;
    }
    s.SkipWhitespace();
    s.Left();
    more, ret, obj' := ParseMemberValue(reg, fs, key, buffer, s, obj, junk);
  }

  /** The value of the field `key`, and what stands behind it. */
  method ParseMemberValue(reg: Registry, fs: seq<Field>, key: string, buffer: Buffer, s: Slice, obj: Value, junk: Junk)
    returns (more: bool, ret: int, obj': Value)
    requires reg.Valid() && buffer.Valid() && s.Valid()
    modifies s`pos, buffer, buffer.ptr
    ensures s.Valid() && buffer.Valid() && (buffer.ptr == old(buffer.ptr) || fresh(buffer.ptr))
    ensures var r := MemberValue(reg.list, fs, key, old(s.Rest()), obj, junk);
            if more then ret == SUCCESS && s.pos >= old(s.pos) && r == ParseMembers(reg.list, fs, s.Rest(), obj', junk)
            else r == Outcome(ret, obj', s.Rest())
    decreases |s.str| - s.pos, 4
  {
    hide ReadKey, SkipWs, SkipValue, ParseField, FindField, ParseMembers, Slots, JsonSlice.Slice.Rest;
    s.Left();
    more, ret, obj' := false, INVALID_JSON, obj;
    var field := Find(fs, key);
    if field.None? {
      var found := s.SkipJsonValue();
      s.Left();
      if found {
        more, ret := true, SUCCESS;
      }
      return;
    }
    var slots := Slots(obj, |fs|);
    var value;
    ret, value := ParseFieldAt(reg, fs[field.value], buffer, s, slots[field.value], junk);
    obj' := Obj(slots[field.value := value]);
    if ret != SUCCESS {
      return;
    }
    s.SkipWhitespace();
    var close := s.ExpectChar('}');
    if close {
      return;
    }
    more := s.ExpectChar(',');
    s.Left();
    if !more {
      ret := INVALID_JSON;
    }
  }

  /** `vd_meta__json_get_object_type` */
  method ObjectTypeOf(reg: Registry, expected: nat, slice: Slice, buffer: Buffer, junk: Junk) returns (ret: int, actual: nat)
    requires reg.Valid() && buffer.Valid() && slice.Valid()
    modifies buffer, buffer.ptr
    ensures buffer.Valid() && (buffer.ptr == old(buffer.ptr) || fresh(buffer.ptr))
    ensures (ret, actual) == ObjectType(reg.list, expected, slice.Rest(), junk)
  {
    hide TypeMembers, SkipWs;
    ret, actual := INVALID_JSON, 0;
    var s := slice.Copy();
    s.SkipWhitespace();
    var brace := s.ExpectChar('{');
    if !brace {
      return;
    }
    ghost var whole := TypeMembers(reg.list, expected, s.Rest(), junk);
    while true
      invariant s.Valid() && fresh(s) && buffer.Valid() && (buffer.ptr == old(buffer.ptr) || fresh(buffer.ptr))
      invariant TypeMembers(reg.list, expected, s.Rest(), junk) == whole
      decreases |s.str| - s.pos
    {
      var more;
      more, ret, actual := TypeMember(reg, expected, s, buffer, junk);
      if !more {
        return;
      }
    }
  }

  /** One turn of the loop: `more` when it goes on. */
  method TypeMember(reg: Registry, expected: nat, s: Slice, buffer: Buffer, junk: Junk)
    returns (more: bool, ret: int, actual: nat)
    requires reg.Valid() && buffer.Valid() && s.Valid()
    modifies s`pos, buffer, buffer.ptr
    ensures s.Valid() && buffer.Valid() && (buffer.ptr == old(buffer.ptr) || fresh(buffer.ptr))
    ensures var r := TypeMembers(reg.list, expected, old(s.Rest()), junk);
            if more then s.pos > old(s.pos) && r == TypeMembers(reg.list, expected, s.Rest(), junk)
            else r == (ret, actual)
  {
    hide *;
    TypeUnfolds(reg.list, expected, s.Rest(), junk);
    s.Left();
    more, ret, actual := false, INVALID_JSON, 0;
    s.SkipWhitespace();
    var close := s.ExpectChar('}');
    if close {
      ret, actual := if expected != 0 then SUCCESS else TYPE_NOT_FOUND, expected;
      return;
    }
    s.Left();
    if s.pos >= |s.str| {
      return;
    }
    var key := ParseKey(s, buffer, junk);
    s.SkipWhitespace();
    var colon := s.ExpectChar(':');
    if !colon {
      return;
    }
    s.SkipWhitespace();
    s.Left();
    more, ret, actual := ParseTypeValue(reg, expected, key, s, buffer, junk);
  }

  lemma TypeUnfolds(list: seq<Descriptor>, expected: nat, t: string, junk: Junk)
    ensures var s := SkipWs(t);
            var (key, s1) := ReadKey(s, junk);
            var s2 := SkipWs(s1);
            && |s2| <= |t| && (Peek(s2, ':') ==> s2 != [])
            && TypeMembers(list, expected, t, junk) ==
               if Peek(s, '}') then (if expected != 0 then (SUCCESS, expected) else (TYPE_NOT_FOUND, 0))
               else if |s| == 0 || !Peek(s2, ':') then (INVALID_JSON, 0)
               else TypeValue(list, expected, key, SkipWs(s2[1..]), junk)
  {
    hide ReadKey, SkipWs, TypeValue;
  }

  /** The value of `key`: the type name, or one that is skipped. */
  method ParseTypeValue(reg: Registry, expected: nat, key: string, s: Slice, buffer: Buffer, junk: Junk)
    returns (more: bool, ret: int, actual: nat)
    requires reg.Valid() && buffer.Valid() && s.Valid()
    modifies s`pos, buffer, buffer.ptr
    ensures s.Valid() && buffer.Valid() && (buffer.ptr == old(buffer.ptr) || fresh(buffer.ptr))
    ensures var r := TypeValue(reg.list, expected, key, old(s.Rest()), junk);
            if more then s.pos >= old(s.pos) && r == TypeMembers(reg.list, expected, s.Rest(), junk)
            else r == (ret, actual)
  {
    hide ReadKey, SkipWs, SkipValue, FirstId, TypeMembers, JsonSlice.Slice.Rest;
    s.Left();
    more, ret, actual := false, INVALID_JSON, 0;
    if key == RESERVED {
      var name := ParseKey(s, buffer, junk);
      var id := reg.GetId(name);
      if id == 0 {
        ret := INVALID_TYPE;
      } else {
        ret, actual := if expected != 0 && id != expected then TYPE_MISMATCH else SUCCESS, id;
      }
    } else {
      var _ := s.SkipJsonValue();
      s.SkipWhitespace();
      var _ := s.ExpectChar(',');
      s.Left();
      more := true;
    }
  }

  /** `vd_meta_parse_json` */
  method Parse(reg: Registry, expected: nat, json: string, junk: Junk) returns (ret: int, actual: nat, obj: Value)
    requires reg.Valid()
    ensures (ret, actual, obj) == ParseJson(reg.list, expected, json, junk)
  {
    hide ParseObject, ObjectType, FirstDescriptor;
    obj := Zero;
    var slice := new Slice(json);
    var buffer := new Buffer();
    ret, actual := ObjectTypeOf(reg, expected, slice, buffer, junk);
    if ret != SUCCESS {
      actual := 0;
      return;
    }
    buffer.len := 0;
    var desc := reg.GetDescriptor(actual);
    if desc.None? {
      return DESCRIPTOR_NOT_FOUND, 0, Zero;
    }
    ret, obj := ParseObjectAt(reg, actual, buffer, slice, Zero, junk);
  }

  /** Writing an object of a registered type and reading the text back. */
  method WriteAndParse(reg: Registry, v: Value, id: nat, pretty: int, expected: nat, junk: Junk)
    returns (ret: int, actual: nat, obj: Value)
    requires reg.Valid() && HasType(reg.list, id, v) && Readable(reg.list, id, v)
    requires FirstDescriptor(reg.list, id).value.cls.Object?
    requires Plain(FirstDescriptor(reg.list, id).value.name)
    requires id != 0 && FirstId(reg.list, FirstDescriptor(reg.list, id).value.name) == Some(id)
    requires expected == 0 || expected == id
    ensures ret == SUCCESS && actual == id && obj == v
  {
    var json := WriteJson(reg, v, id, pretty);
    ReadsBack(reg.list, id, v, pretty, expected, junk);
    ret, actual, obj := Parse(reg, expected, json, junk);
  }
}
