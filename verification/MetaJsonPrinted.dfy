/** The text that the writer prints, given in full: minified, and in lines. */
module JsonPrinted {
  import opened Wrappers
  import opened Strings
  import opened Decimal
  import opened MetaTypes
  import opened JsonLex
  import opened JsonValues

  /** The parts, with `separator` between them. */
  function Joined(parts: seq<string>, separator: string): string {
    if parts == [] then ""
    else if |parts| == 1 then parts[0]
    else parts[0] + separator + Joined(parts[1..], separator)
  }

  function InQuotes(s: string): string {
    "\"" + s + "\""
  }

  /** The minified text: the type name and the fields, separated by commas. */
  function Compact(list: seq<Descriptor>, id: nat, v: Value): string
    requires HasType(list, id, v)
    decreases v, 1
  {
    match FirstDescriptor(list, id)
    case None => ""
    case Some(d) =>
      match d.cls
      case Primitive(p) => if p == Char8 then InQuotes([v.c]) else DecInt(v.n)
      case CString => InQuotes(v.s)
      case Object(fs) =>
        var entries := ["\"--vd-meta-type-name--\":" + InQuotes(d.name)] + Entries(list, fs, v.fields);
        "{" + Joined(entries, ",") + (if fs == [] then "," else "") + "}"
      case Untouched => ""
  }

  function Entries(list: seq<Descriptor>, fs: seq<Field>, vs: seq<Value>): (r: seq<string>)
    requires |fs| == |vs| && forall i | 0 <= i < |fs| :: HasType(list, fs[i].typ, vs[i])
    ensures |r| == |fs|
    ensures forall i | 0 <= i < |fs| :: r[i] == InQuotes(fs[i].name) + ":" + Compact(list, fs[i].typ, vs[i])
    decreases vs, 0
  {
    seq(|fs|, i requires 0 <= i < |fs| => InQuotes(fs[i].name) + ":" + Compact(list, fs[i].typ, vs[i]))
  }

  lemma QuotedIs(s: string, k: string)
    ensures Quoted(s, k) == InQuotes(s) + k
  {
  }

  /** With a negative indentation the minified text is printed, for every value of every type. */
  lemma {:induction false} MinifiedText(list: seq<Descriptor>, id: nat, v: Value, pretty: int, k: string)
    requires HasType(list, id, v) && pretty < 0
    ensures WriteValue(list, id, v, pretty, k) == Compact(list, id, v) + k
    decreases v, 1
  {
    hide FirstDescriptor, DecInt, InRange, Joined, WriteObject;
    var d := FirstDescriptor(list, id);
    if d.Some? {
      match d.value.cls
      case Primitive(p) => if p == Char8 { QuotedIs([v.c], k); }
      case CString => QuotedIs(v.s, k);
      case Object(fs) => MinifiedObject(list, id, v, pretty, k);
      case Untouched =>
    }
  }

  lemma {:induction false} MinifiedObject(list: seq<Descriptor>, id: nat, v: Value, pretty: int, k: string)
    requires HasType(list, id, v) && pretty < 0
    requires FirstDescriptor(list, id).Some? && FirstDescriptor(list, id).value.cls.Object?
    ensures WriteObject(list, id, v, pretty, k) == Compact(list, id, v) + k
    decreases v, 0
  {
    hide FirstDescriptor, HasType, Joined, Entries, WriteFields;
    var d := FirstDescriptor(list, id).value;
    MembersTyped(list, id, v);
    var fs, vs := d.cls.fields, v.fields;
    var close := "}" + k;
    var fields := WriteFields(list, fs, vs, 0, pretty, close);
    assert fields == Joined(Entries(list, fs, vs), ",") + close by {
      MinifiedFields(list, fs, vs, 0, pretty, close);
      assert Entries(list, fs, vs)[0..] == Entries(list, fs, vs);
    }
    var head := "\"--vd-meta-type-name--\":" + InQuotes(d.name);
    assert WriteObject(list, id, v, pretty, k) == "{" + Quoted(RESERVED, ":" + Quoted(d.name, "," + fields)) by {
      NoLayout(pretty);
    }
    assert Quoted(RESERVED, ":" + Quoted(d.name, "," + fields)) == head + ("," + fields);
    JoinedHead(head, Entries(list, fs, vs), close);
  }

  lemma MembersTyped(list: seq<Descriptor>, id: nat, v: Value)
    requires HasType(list, id, v) && FirstDescriptor(list, id).Some? && FirstDescriptor(list, id).value.cls.Object?
    ensures var fs := FirstDescriptor(list, id).value.cls.fields;
            v.Obj? && |v.fields| == |fs| && forall i | 0 <= i < |fs| :: HasType(list, fs[i].typ, v.fields[i])
  {
  }

  lemma NoLayout(pretty: int)
    requires pretty < 0
    ensures Newline(pretty) == "" && Gap(pretty) == "" && Deeper(pretty) == pretty && Spaces(pretty) == ""
    ensures forall t: string :: "" + t == t
  {
  }

  lemma JoinedHead(head: string, entries: seq<string>, close: string)
    ensures "{" + (head + ("," + (Joined(entries, ",") + close)))
            == "{" + Joined([head] + entries, ",") + (if entries == [] then "," else "") + close
  {
    assert entries != [] ==> ([head] + entries)[1..] == entries;
  }

  lemma {:induction false} MinifiedFields(list: seq<Descriptor>, fs: seq<Field>, vs: seq<Value>, i: nat, pretty: int, k: string)
    requires i <= |fs| == |vs| && pretty < 0 && forall j | 0 <= j < |fs| :: HasType(list, fs[j].typ, vs[j])
    ensures WriteFields(list, fs, vs, i, pretty, k) == Joined(Entries(list, fs, vs)[i..], ",") + k
    decreases vs, 0, |fs| - i
  {
    hide HasType, Compact, WriteValue;
    var es := Entries(list, fs, vs);
    if i < |fs| {
      NoLayout(pretty);
      var rest := WriteFields(list, fs, vs, i + 1, pretty, k);
      MinifiedFields(list, fs, vs, i + 1, pretty, k);
      var comma := if i < |fs| - 1 then "," else "";
      MinifiedText(list, fs[i].typ, vs[i], pretty, comma + rest);
      assert es[i..][1..] == es[i + 1..];
      QuotedIs(fs[i].name, ":" + (Compact(list, fs[i].typ, vs[i]) + (comma + rest)));
      EntryText(InQuotes(fs[i].name), Compact(list, fs[i].typ, vs[i]), comma, rest);
      JoinedStep(es[i..], rest, k);
    }
  }

  lemma EntryText(name: string, value: string, comma: string, rest: string)
    ensures name + (":" + (value + (comma + rest))) == (name + ":" + value) + (comma + rest)
  {
  }

  lemma JoinedStep(es: seq<string>, rest: string, k: string)
    requires es != [] && rest == Joined(es[1..], ",") + k
    ensures Joined(es, ",") + k == es[0] + ((if |es| > 1 then "," else "") + rest)
  {
    if |es| == 1 {
      assert "" + rest == rest && "" + k == k;
    } else {
      Assoc(es[0] + ",", Joined(es[1..], ","), k);
      Assoc(es[0], ",", rest);
    }
  }

  function Indent(n: nat): (s: string)
    ensures |s| == n && forall i | 0 <= i < n :: s[i] == ' '
  {
    seq(n, _ => ' ')
  }

  /** Every line with a newline behind it. */
  function Ended(lines: seq<string>): string {
    if lines == [] then "" else lines[0] + "\n" + Ended(lines[1..])
  }

  /** The lines, the first with `before` in front and the last with `behind` at its end. */
  function Framed(before: string, lines: seq<string>, behind: string): (r: seq<string>)
    requires lines != []
    ensures |r| == |lines|
  {
    var first := [before + lines[0]] + lines[1..];
    first[..|lines| - 1] + [first[|lines| - 1] + behind]
  }

  /** The lines of a value that is printed at the indentation `n`; the first follows its key. An object has a
      line for its type and, four columns further in than its braces, its fields. */
  function Lines(list: seq<Descriptor>, id: nat, v: Value, n: nat): (r: seq<string>)
    requires HasType(list, id, v)
    ensures r != []
    decreases v, 1
  {
    match FirstDescriptor(list, id)
    case None => [""]
    case Some(d) =>
      match d.cls
      case Primitive(p) => if p == Char8 then [InQuotes([v.c])] else [DecInt(v.n)]
      case CString => [InQuotes(v.s)]
      case Object(fs) =>
        ["{"] + [Indent(n + 4) + "\"--vd-meta-type-name--\": " + InQuotes(d.name) + ","]
        + FieldLines(list, fs, v.fields, 0, n + 4) + [Indent(n) + "}"]
      case Untouched => [""]
  }

  /** The lines of the fields from the `i`-th on, at the indentation `n`. */
  function FieldLines(list: seq<Descriptor>, fs: seq<Field>, vs: seq<Value>, i: nat, n: nat): seq<string>
    requires i <= |fs| == |vs| && forall j | 0 <= j < |fs| :: HasType(list, fs[j].typ, vs[j])
    decreases vs, 0, |fs| - i
  {
    if i == |fs| then []
    else
      Framed(Indent(n) + InQuotes(fs[i].name) + ": ", Lines(list, fs[i].typ, vs[i], n), if i < |fs| - 1 then "," else "")
      + FieldLines(list, fs, vs, i + 1, n)
  }

  lemma {:induction false} EndedLast(lines: seq<string>, last: string)
    ensures Joined(lines + [last], "\n") == Ended(lines) + last
  {
    if lines == [] {
      assert lines + [last] == [last] && "" + last == last;
    } else {
      assert (lines + [last])[1..] == lines[1..] + [last];
      EndedLast(lines[1..], last);
      Assoc(lines[0] + "\n", Ended(lines[1..]), last);
    }
  }

  lemma {:induction false} EndedBoth(a: seq<string>, b: seq<string>)
    ensures Ended(a + b) == Ended(a) + Ended(b)
  {
    if a == [] {
      assert a + b == b && "" + Ended(b) == Ended(b);
    } else {
      assert (a + b)[1..] == a[1..] + b;
      EndedBoth(a[1..], b);
      Assoc(a[0] + "\n", Ended(a[1..]), Ended(b));
    }
  }

  lemma {:induction false} FramedEnded(before: string, lines: seq<string>, behind: string)
    requires lines != []
    ensures Ended(Framed(before, lines, behind)) == before + (Joined(lines, "\n") + (behind + "\n"))
    decreases |lines|
  {
    var r := Framed(before, lines, behind);
    if |lines| == 1 {
      assert r == [before + lines[0] + behind] && r[1..] == [];
      assert r[0] + "\n" + "" == before + (lines[0] + (behind + "\n"));
    } else {
      var rest := lines[1..];
      FramedEnded("", rest, behind);
      assert "" + rest[0] == rest[0] && [rest[0]] + rest[1..] == rest;
      assert r[0] == before + lines[0];
      assert r[1..] == Framed("", rest, behind);
      var j := Joined(rest, "\n");
      assert "" + (j + (behind + "\n")) == j + (behind + "\n");
      FramedStep(before, lines[0], j, behind);
    }
  }

  lemma FramedStep(before: string, line: string, j: string, behind: string)
    ensures (before + line) + "\n" + (j + (behind + "\n")) == before + ((line + "\n" + j) + (behind + "\n"))
  {
  }

  lemma {:induction false} SpacesAre(n: nat)
    ensures Spaces(n) == Indent(n)
  {
    if n > 0 {
      SpacesAre(n - 1);
      assert " " + Indent(n - 1) == Indent(n);
    }
  }

  /** With any other indentation the text is printed in those lines. */
  lemma {:induction false} IndentedText(list: seq<Descriptor>, id: nat, v: Value, pretty: nat, k: string)
    requires HasType(list, id, v)
    ensures WriteValue(list, id, v, pretty, k) == Joined(Lines(list, id, v, pretty), "\n") + k
    decreases v, 1
  {
    hide FirstDescriptor, DecInt, InRange, WriteObject, FieldLines;
    var d := FirstDescriptor(list, id);
    if d.Some? {
      match d.value.cls
      case Primitive(p) => if p == Char8 { QuotedIs([v.c], k); }
      case CString => QuotedIs(v.s, k);
      case Object(fs) => IndentedObject(list, id, v, pretty, k);
      case Untouched =>
    }
  }

  lemma {:induction false} IndentedObject(list: seq<Descriptor>, id: nat, v: Value, pretty: nat, k: string)
    requires HasType(list, id, v)
    requires FirstDescriptor(list, id).Some? && FirstDescriptor(list, id).value.cls.Object?
    ensures WriteObject(list, id, v, pretty, k) == Joined(Lines(list, id, v, pretty), "\n") + k
    decreases v, 0
  {
    hide FirstDescriptor, HasType, Joined, Ended, FieldLines, WriteFields, Spaces;
    var d := FirstDescriptor(list, id).value;
    MembersTyped(list, id, v);
    var fs, vs := d.cls.fields, v.fields;
    var n := pretty + 4;
    var close := Indent(pretty) + ("}" + k);
    SpacesAre(pretty);
    SpacesAre(n);
    IndentedFields(list, fs, vs, 0, pretty, close);
    var lines := FieldLines(list, fs, vs, 0, n);
    var typ := Indent(n) + "\"--vd-meta-type-name--\": " + InQuotes(d.name) + ",";
    assert Lines(list, id, v, pretty) == (["{"] + [typ] + lines) + [Indent(pretty) + "}"];
    EndedLast(["{"] + [typ] + lines, Indent(pretty) + "}");
    EndedBoth(["{"] + [typ], lines);
    TwoEnded("{", typ);
    assert WriteObject(list, id, v, pretty, k)
        == "{" + ("\n" + (Indent(n) + Quoted(RESERVED, ":" + (" " + Quoted(d.name, "," + ("\n" + (Ended(lines) + close)))))));
    ObjectText(Indent(n), d.name, Ended(lines), Indent(pretty), k);
  }

  lemma TwoEnded(a: string, b: string)
    ensures Ended([a] + [b]) == a + "\n" + (b + "\n")
  {
    var lines := [a] + [b];
    assert lines[0] == a && lines[1..] == [b] && [b][1..] == [];
    assert Ended([b]) == b + "\n" + Ended([]) && b + "\n" + "" == b + "\n";
  }

  lemma ObjectText(indent: string, name: string, fields: string, outer: string, k: string)
    ensures "{" + ("\n" + (indent + Quoted(RESERVED, ":" + (" " + Quoted(name, "," + ("\n" + (fields + (outer + ("}" + k)))))))))
            == ("{" + "\n" + ((indent + "\"--vd-meta-type-name--\": " + InQuotes(name) + ",") + "\n") + fields + (outer + "}")) + k
  {
    hide *;
    var inner := fields + (outer + ("}" + k));
    var value := InQuotes(name);
    QuotedIs(name, "," + ("\n" + inner));
    QuotedIs(RESERVED, ":" + (" " + (value + ("," + ("\n" + inner)))));
    ReservedKey();
    Flat(InQuotes(RESERVED), ":", " ", value + ("," + ("\n" + inner)));
    Flat(value, ",", "\n", inner);
    Flat(fields, outer, "}", k);
    Assoc(fields, outer, "}");
    Regroup("{", "\n", indent, "\"--vd-meta-type-name--\": ", value, ",", fields, outer + "}", k);
  }

  lemma ReservedKey()
    ensures InQuotes(RESERVED) + ":" + " " == "\"--vd-meta-type-name--\": "
  {
  }

  lemma Flat(a: string, b: string, c: string, d: string)
    ensures a + (b + (c + d)) == (a + b + c) + d
  {
    Assoc(b, c, d);
    Assoc(a, b + c, d);
    Assoc(a, b, c);
  }

  lemma Regroup(b: string, nl: string, indent: string, key: string, value: string, c: string, fields: string, close: string, k: string)
    ensures b + (nl + (indent + (key + ((value + c + nl) + ((fields + close) + k)))))
            == (b + nl + ((indent + key + value + c) + nl) + fields + close) + k
  {
    var z := (fields + close) + k;
    Assoc(key, value + c + nl, z);
    Assoc(indent, key + (value + c + nl), z);
    var line := indent + key + value + c;
    assert indent + (key + (value + c + nl)) == line + nl by {
      Assoc(key, value + c, nl);
      Assoc(indent, key + (value + c), nl);
      Flat(indent, key, value, c);
    }
    Assoc(nl, line + nl, z);
    Assoc(b, nl + (line + nl), z);
    Assoc(b, nl, line + nl);
    var p := b + nl + (line + nl);
    Assoc(p, fields + close, k);
    Assoc(p, fields, close);
  }

  lemma {:induction false} IndentedFields(list: seq<Descriptor>, fs: seq<Field>, vs: seq<Value>, i: nat, pretty: nat, k: string)
    requires i <= |fs| == |vs| && forall j | 0 <= j < |fs| :: HasType(list, fs[j].typ, vs[j])
    ensures WriteFields(list, fs, vs, i, pretty, k) == Ended(FieldLines(list, fs, vs, i, pretty + 4)) + k
    decreases vs, 0, |fs| - i
  {
    hide HasType, Lines, WriteValue, Framed, Ended, Joined, Spaces;
    var n := pretty + 4;
    if i == |fs| {
      NothingEnded(k);
    } else {
      var rest := WriteFields(list, fs, vs, i + 1, pretty, k);
      IndentedFields(list, fs, vs, i + 1, pretty, k);
      var comma := if i < |fs| - 1 then "," else "";
      IndentedText(list, fs[i].typ, vs[i], n, comma + ("\n" + rest));
      var value := Joined(Lines(list, fs[i].typ, vs[i], n), "\n");
      var before := Indent(n) + InQuotes(fs[i].name) + ": ";
      FramedEnded(before, Lines(list, fs[i].typ, vs[i], n), comma);
      var more := FieldLines(list, fs, vs, i + 1, n);
      EndedBoth(Framed(before, Lines(list, fs[i].typ, vs[i], n), comma), more);
      SpacesAre(n);
      QuotedIs(fs[i].name, ":" + (" " + (value + (comma + ("\n" + rest)))));
      FieldOnLine(Indent(n), InQuotes(fs[i].name), value, comma, Ended(more), k);
    }
  }

  lemma NothingEnded(k: string)
    ensures Ended([]) + k == k
  {
  }

  lemma FieldOnLine(indent: string, name: string, value: string, comma: string, more: string, k: string)
    ensures indent + (name + (":" + (" " + (value + (comma + ("\n" + (more + k)))))))
            == (((indent + name + ": ") + (value + (comma + "\n"))) + more) + k
  {
    assert ":" + " " == ": ";
  }

  /** The text without the space that stands outside string literals. */
  function Stripped(t: string, inside: bool): string {
    if t == [] then []
    else if inside && t[0] == '\\' && |t| > 1 then t[..2] + Stripped(t[2..], true)
    else if t[0] == '"' then ['"'] + Stripped(t[1..], !inside)
    else if !inside && (t[0] == ' ' || t[0] == '\t' || t[0] == '\n' || t[0] == '\r') then Stripped(t[1..], false)
    else [t[0]] + Stripped(t[1..], inside)
  }

  /** Text that a string literal can hold as it is. */
  predicate Unquoted(s: string) {
    forall i | 0 <= i < |s| :: s[i] != '"' && s[i] != '\\'
  }

  /** No name, character or string that is printed for the value needs an escape. */
  predicate NeedsNoEscape(list: seq<Descriptor>, id: nat, v: Value)
    requires HasType(list, id, v)
    decreases v
  {
    var d := FirstDescriptor(list, id);
    d.Some? ==>
    match d.value.cls
    case Primitive(p) => p == Char8 ==> Unquoted([v.c])
    case CString => Unquoted(v.s)
    case Object(fs) =>
      && Unquoted(d.value.name)
      && forall i | 0 <= i < |fs| :: Unquoted(fs[i].name) && NeedsNoEscape(list, fs[i].typ, v.fields[i])
    case Untouched => true
  }

  lemma {:induction false} StripBody(s: string, k: string)
    requires Unquoted(s)
    ensures Stripped(s + ("\"" + k), true) == s + ("\"" + Stripped(k, false))
  {
    if s == [] {
      assert s + ("\"" + k) == "\"" + k && ("\"" + k)[1..] == k;
      assert s + ("\"" + Stripped(k, false)) == ['"'] + Stripped(k, false);
    } else {
      assert (s + ("\"" + k))[1..] == s[1..] + ("\"" + k);
      StripBody(s[1..], k);
      assert [s[0]] + (s[1..] + ("\"" + Stripped(k, false))) == s + ("\"" + Stripped(k, false));
    }
  }

  lemma StripQuoted(s: string, k: string)
    requires Unquoted(s)
    ensures Stripped(Quoted(s, k), false) == Quoted(s, Stripped(k, false))
  {
    assert Quoted(s, k)[1..] == s + ("\"" + k);
    StripBody(s, k);
  }

  lemma {:induction false} StripSolid(s: string, k: string)
    requires forall i | 0 <= i < |s| :: s[i] == '-' || IsDigit(s[i])
    ensures Stripped(s + k, false) == s + Stripped(k, false)
  {
    if s == [] {
      assert s + k == k && s + Stripped(k, false) == Stripped(k, false);
    } else {
      assert (s + k)[1..] == s[1..] + k;
      StripSolid(s[1..], k);
      assert [s[0]] + (s[1..] + Stripped(k, false)) == s + Stripped(k, false);
    }
  }

  lemma StripNumber(n: int, k: string)
    ensures Stripped(DecInt(n) + k, false) == DecInt(n) + Stripped(k, false)
  {
    DecDigits(if n < 0 then -n else n);
    assert forall i | 0 <= i < |DecInt(n)| :: DecInt(n)[i] == '-' || IsDigit(DecInt(n)[i]);
    StripSolid(DecInt(n), k);
    hide *;
  }

  lemma {:induction false} StripSpaces(n: int, k: string)
    ensures Stripped(Spaces(n) + k, false) == Stripped(k, false)
    decreases if n > 0 then n else 0
  {
    if n <= 0 {
      assert Spaces(n) + k == k;
    } else {
      assert (Spaces(n) + k)[1..] == Spaces(n - 1) + k;
      StripSpaces(n - 1, k);
    }
  }

  lemma StripLayout(pretty: int, k: string)
    ensures Stripped(Newline(pretty) + k, false) == Stripped(k, false)
    ensures Stripped(Gap(pretty) + k, false) == Stripped(k, false)
  {
    assert ("\n" + k)[1..] == k && (" " + k)[1..] == k && "" + k == k;
  }

  lemma StripMark(c: char, k: string)
    requires c == '{' || c == '}' || c == ',' || c == ':'
    ensures Stripped([c] + k, false) == [c] + Stripped(k, false)
  {
    assert ([c] + k)[1..] == k;
  }

  /** Without the space outside its literals, the text at any indentation is the minified text, which has none. */
  lemma {:induction false} StrippedIsMinified(list: seq<Descriptor>, id: nat, v: Value, pretty: int, k: string)
    requires HasType(list, id, v) && NeedsNoEscape(list, id, v)
    ensures Stripped(WriteValue(list, id, v, pretty, k), false) == WriteValue(list, id, v, -1, Stripped(k, false))
    decreases v, 1
  {
    hide FirstDescriptor, DecInt, InRange, WriteObject, Stripped, Quoted;
    var d := FirstDescriptor(list, id);
    if d.Some? {
      match d.value.cls
      case Primitive(p) => if p == Char8 { StripQuoted([v.c], k); } else { StripNumber(v.n, k); }
      case CString => StripQuoted(v.s, k);
      case Object(fs) => StrippedObject(list, id, v, pretty, k);
      case Untouched =>
    }
  }

  lemma {:induction false} StrippedObject(list: seq<Descriptor>, id: nat, v: Value, pretty: int, k: string)
    requires HasType(list, id, v) && NeedsNoEscape(list, id, v)
    requires FirstDescriptor(list, id).Some? && FirstDescriptor(list, id).value.cls.Object?
    ensures Stripped(WriteObject(list, id, v, pretty, k), false) == WriteObject(list, id, v, -1, Stripped(k, false))
    decreases v, 0
  {
    hide FirstDescriptor, HasType, NeedsNoEscape, WriteFields, Spaces, Quoted, Stripped, Newline, Gap, Deeper;
    var d := FirstDescriptor(list, id).value;
    MembersTyped(list, id, v);
    MembersUnquoted(list, id, v);
    var fs, vs := d.cls.fields, v.fields;
    var close := Spaces(pretty) + ("}" + k);
    var fields := WriteFields(list, fs, vs, 0, pretty, close);
    StrippedFields(list, fs, vs, 0, pretty, close);
    StripSpaces(pretty, "}" + k);
    StripMark('}', k);
    var name := Quoted(d.name, "," + (Newline(pretty) + fields));
    StripMark(',', Newline(pretty) + fields);
    StripLayout(pretty, fields);
    StripQuoted(d.name, "," + (Newline(pretty) + fields));
    StripLayout(pretty, name);
    StripMark(':', Gap(pretty) + name);
    StripQuoted(RESERVED, ":" + (Gap(pretty) + name));
    var entry := Quoted(RESERVED, ":" + (Gap(pretty) + name));
    StripSpaces(Deeper(pretty), entry);
    StripLayout(pretty, Spaces(Deeper(pretty)) + entry);
    StripMark('{', Newline(pretty) + (Spaces(Deeper(pretty)) + entry));
    NoLayout(-1);
  }

  lemma MembersUnquoted(list: seq<Descriptor>, id: nat, v: Value)
    requires HasType(list, id, v) && NeedsNoEscape(list, id, v)
    requires FirstDescriptor(list, id).Some? && FirstDescriptor(list, id).value.cls.Object?
    ensures var d := FirstDescriptor(list, id).value;
            && Unquoted(d.name) && Unquoted(RESERVED) && v.Obj? && |v.fields| == |d.cls.fields|
            && forall i | 0 <= i < |v.fields| ::
                 && HasType(list, d.cls.fields[i].typ, v.fields[i])
                 && Unquoted(d.cls.fields[i].name) && NeedsNoEscape(list, d.cls.fields[i].typ, v.fields[i])
  {
  }

  lemma {:induction false} StrippedFields(list: seq<Descriptor>, fs: seq<Field>, vs: seq<Value>, i: nat, pretty: int, k: string)
    requires i <= |fs| == |vs|
    requires forall j | 0 <= j < |fs| ::
               HasType(list, fs[j].typ, vs[j]) && Unquoted(fs[j].name) && NeedsNoEscape(list, fs[j].typ, vs[j])
    ensures Stripped(WriteFields(list, fs, vs, i, pretty, k), false) == WriteFields(list, fs, vs, i, -1, Stripped(k, false))
    decreases vs, 0, |fs| - i
  {
    hide *;
    if i == |fs| {
      FieldsEnd(list, fs, vs, pretty, k);
      FieldsEnd(list, fs, vs, -1, Stripped(k, false));
    } else {
      var rest := WriteFields(list, fs, vs, i + 1, pretty, k);
      StrippedFields(list, fs, vs, i + 1, pretty, k);
      FieldUnfolds(list, fs, vs, i, pretty, k);
      FieldUnfolds(list, fs, vs, i, -1, Stripped(k, false));
      var end := Newline(pretty) + rest;
      StripLayout(pretty, rest);
      var comma := if i < |fs| - 1 then "," else "";
      StripComma(i < |fs| - 1, end);
      var deeper := Deeper(pretty);
      StrippedIsMinified(list, fs[i].typ, vs[i], deeper, comma + end);
      var value := WriteValue(list, fs[i].typ, vs[i], deeper, comma + end);
      StripLayout(pretty, value);
      StripMark(':', Gap(pretty) + value);
      StripQuoted(fs[i].name, ":" + (Gap(pretty) + value));
      StripSpaces(deeper, Quoted(fs[i].name, ":" + (Gap(pretty) + value)));
      NoLayout(-1);
    }
  }

  lemma StripComma(more: bool, end: string)
    ensures Stripped((if more then "," else "") + end, false) == (if more then "," else "") + Stripped(end, false)
  {
    if more {
      StripMark(',', end);
    } else {
      assert "" + end == end && "" + Stripped(end, false) == Stripped(end, false);
    }
  }

  lemma FieldsEnd(list: seq<Descriptor>, fs: seq<Field>, vs: seq<Value>, pretty: int, k: string)
    requires |fs| == |vs| && forall j | 0 <= j < |fs| :: HasType(list, fs[j].typ, vs[j])
    ensures WriteFields(list, fs, vs, |fs|, pretty, k) == k
  {
    hide HasType;
  }

  lemma FieldUnfolds(list: seq<Descriptor>, fs: seq<Field>, vs: seq<Value>, i: nat, pretty: int, k: string)
    requires i < |fs| == |vs| && forall j | 0 <= j < |fs| :: HasType(list, fs[j].typ, vs[j])
    ensures WriteFields(list, fs, vs, i, pretty, k) ==
            Spaces(Deeper(pretty)) + Quoted(fs[i].name, ":" + (Gap(pretty) +
              WriteValue(list, fs[i].typ, vs[i], Deeper(pretty),
                (if i < |fs| - 1 then "," else "") + (Newline(pretty) + WriteFields(list, fs, vs, i + 1, pretty, k)))))
  {
    hide HasType, WriteValue, Spaces, Quoted, Newline, Gap, Deeper;
  }

  /** The minified text has no space outside its literals. */
  lemma MinifiedHasNoSpace(list: seq<Descriptor>, id: nat, v: Value, pretty: int)
    requires HasType(list, id, v) && NeedsNoEscape(list, id, v) && pretty < 0
    requires FirstDescriptor(list, id).Some? && FirstDescriptor(list, id).value.cls.Object?
    ensures var t := WriteObject(list, id, v, pretty, ""); Stripped(t, false) == t
  {
    hide *;
    StrippedObject(list, id, v, -1, "");
    MinifiedObject(list, id, v, -1, "");
    MinifiedObject(list, id, v, pretty, "");
    NothingStripped();
  }

  lemma NothingStripped()
    ensures Stripped("", false) == ""
  {
  }

  const INT32: Descriptor := Descriptor("int32_t", 1, Primitive(I32))
  const VECTOR: Descriptor := Descriptor("Vector3", 2, TypeClass.Object([Field("x", 1)]))

  lemma VectorTypes()
    ensures FirstDescriptor([INT32, VECTOR], 1) == Some(INT32) && FirstDescriptor([INT32, VECTOR], 2) == Some(VECTOR)
  {
    assert FirstDescriptor([], 1) == None && FirstDescriptor([], 2) == None;
    assert [INT32][..0] == [] && [INT32, VECTOR][..1] == [INT32];
    assert FirstDescriptor([INT32], 1) == Some(INT32) && FirstDescriptor([INT32], 2) == None;
  }

  lemma VectorTyped(n: int)
    requires InRange(I32, n)
    ensures HasType([INT32, VECTOR], 1, Num(n)) && HasType([INT32, VECTOR], 2, Obj([Num(n)]))
  {
    VectorTypes();
    hide FirstDescriptor, InRange;
    assert HasType([INT32, VECTOR], 1, Num(n));
  }

  /** An object with one field, minified. */
  lemma MinifiedVector(n: int)
    requires -0x8000_0000 <= n < 0x8000_0000
    ensures HasType([INT32, VECTOR], 2, Obj([Num(n)]))
    ensures WriteObject([INT32, VECTOR], 2, Obj([Num(n)]), -1, "")
            == "{" + ("\"--vd-meta-type-name--\":\"Vector3\"" + "," + ("\"x\":" + DecInt(n))) + "}"
  {
    assert InRange(I32, n);
    VectorTypes();
    VectorTyped(n);
    hide FirstDescriptor, HasType, DecInt, WriteObject, InRange, Joined;
    var list := [INT32, VECTOR];
    MinifiedObject(list, 2, Obj([Num(n)]), -1, "");
    var e0, e1 := "\"--vd-meta-type-name--\":" + InQuotes("Vector3"), InQuotes("x") + ":" + DecInt(n);
    assert Compact(list, 1, Num(n)) == DecInt(n);
    assert Entries(list, [Field("x", 1)], [Num(n)]) == [e1];
    JoinedTwo(e0, e1);
    VectorEntries();
    assert Compact(list, 2, Obj([Num(n)])) + "" == Compact(list, 2, Obj([Num(n)]));
  }

  lemma JoinedTwo(a: string, b: string)
    ensures Joined([a] + [b], ",") == a + "," + b
  {
    assert ([a] + [b])[1..] == [b];
  }

  lemma VectorEntries()
    ensures "\"--vd-meta-type-name--\":" + InQuotes("Vector3") == "\"--vd-meta-type-name--\":\"Vector3\""
    ensures InQuotes("x") + ":" == "\"x\":"
  {
  }
}
