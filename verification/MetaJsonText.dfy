/** JSON text as anyone may write it, and what the reader of `lib/vd_meta.h` makes of it. A document is a
    tree of tokens together with the space between them. */
module JsonDocs {
  import opened Decimal
  import opened MetaTypes
  import opened JsonLex
  import opened JsonValues
  import opened JsonRead

  /** The space that RFC 8259 allows between tokens (section 2). */
  predicate Blank(s: string) {
    forall i | 0 <= i < |s| :: s[i] == ' ' || s[i] == '\t' || s[i] == '\n' || s[i] == '\r'
  }

  /** A character of a string, as it is or escaped (section 7). `Other` stands for a backslash before any
      other character, which the reader takes for that character. */
  datatype Piece =
    | Raw(c: char) | Quote | ReverseSolidus | Solidus | Backspace | FormFeed | LineFeed | CarriageReturn | Tab
    | Other(c: char)

  function Spelling(p: Piece): (s: string)
    ensures |s| == 1 || |s| == 2
  {
    match p
    case Raw(c) => [c]
    case Quote => "\\\""
    case ReverseSolidus => "\\\\"
    case Solidus => "\\/"
    case Backspace => "\\b"
    case FormFeed => "\\f"
    case LineFeed => "\\n"
    case CarriageReturn => "\\r"
    case Tab => "\\t"
    case Other(c) => ['\\', c]
  }

  function Meaning(p: Piece): char {
    match p
    case Raw(c) => c
    case Quote => '"'
    case ReverseSolidus => '\\'
    case Solidus => '/'
    case Backspace => '\U{0008}'
    case FormFeed => '\U{000C}'
    case LineFeed => '\U{000A}'
    case CarriageReturn => '\U{000D}'
    case Tab => '\U{0009}'
    case Other(c) => c
  }

  predicate GoodPiece(p: Piece) {
    match p
    case Raw(c) => c != '"' && c != '\\' && c != '\0'
    case Other(c) => c !in {'"', '\\', '/', 'b', 'f', 'n', 'r', 't', '\0'}
    case _ => true
  }

  predicate GoodText(s: seq<Piece>) {
    forall i | 0 <= i < |s| :: GoodPiece(s[i])
  }

  function SpellPieces(s: seq<Piece>, k: string): string {
    if s == [] then k else Spelling(s[0]) + SpellPieces(s[1..], k)
  }

  function Means(s: seq<Piece>): (r: string)
    ensures |r| == |s| && forall i | 0 <= i < |s| :: r[i] == Meaning(s[i])
  {
    seq(|s|, i requires 0 <= i < |s| => Meaning(s[i]))
  }

  /** `Foreign` is any other text in the place of a value. */
  datatype Doc = Number(n: int) | Character(c: char) | Text(pieces: seq<Piece>) | Record(members: seq<Member>) | Foreign(text: string)

  /** A key, its value, and the space before and between and behind them. */
  datatype Member = Member(before: string, key: seq<Piece>, beforeColon: string, beforeValue: string, value: Doc, after: string)

  /** The text of a document, with `k` behind it. */
  function Spell(d: Doc, k: string): string
    decreases d
  {
    match d
    case Number(n) => DecInt(n) + k
    case Character(c) => "\"" + ([c] + ("\"" + k))
    case Text(s) => "\"" + SpellPieces(s, "\"" + k)
    case Record(ms) => "{" + SpellMembers(ms, 0, k)
    case Foreign(t) => t + k
  }

  /** The members from the `i`-th on, with commas between them, and the closing brace. */
  function SpellMembers(ms: seq<Member>, i: nat, k: string): string
    requires i <= |ms|
    decreases ms, |ms| - i
  {
    if i == |ms| then "}" + k
    else
      SpellMember(ms[i], Spell(ms[i].value, ms[i].after + (if i == |ms| - 1 then "}" + k else "," + SpellMembers(ms, i + 1, k))))
  }

  /** A member up to its value, of which `value` is the text and all the rest. */
  function SpellMember(m: Member, value: string): string {
    m.before + ("\"" + SpellPieces(m.key, "\"" + (m.beforeColon + (":" + (m.beforeValue + value)))))
  }

  predicate Laid(m: Member) {
    Blank(m.before) && Blank(m.beforeColon) && Blank(m.beforeValue) && Blank(m.after) && GoodText(m.key)
  }

  /** The value can be skipped up to the comma behind it: it balances, with no comma outside brackets. */
  predicate Skips(m: Member) {
    var t := Spell(m.value, m.after);
    t != [] && !Blank(t[..1]) && Skippable(t)
  }

  /** The document is a value of type `id`. Members come in any order, and keys that the type does not have
      among them, except at the end. */
  predicate Fits(list: seq<Descriptor>, id: nat, d: Doc)
    decreases d
  {
    var desc := FirstDescriptor(list, id);
    desc.Some? &&
    match desc.value.cls
    case Primitive(p) => if p == Char8 then d.Character? else d.Number? && InRange(p, d.n)
    case CString => d.Text? && GoodText(d.pieces)
    case Object(fs) => d.Record? && FitMembers(list, fs, d.members)
    case Untouched => false
  }

  predicate FitMembers(list: seq<Descriptor>, fs: seq<Field>, ms: seq<Member>)
    decreases ms
  {
    && ms != [] && FindField(fs, Means(ms[|ms| - 1].key)).Some?
    && forall i | 0 <= i < |ms| ::
         && Laid(ms[i])
         && match FindField(fs, Means(ms[i].key))
            case None => Skips(ms[i])
            case Some(j) => Fits(list, fs[j].typ, ms[i].value)
  }

  /** The value that the document stands for, put where `obj` was. */
  function Evaluated(list: seq<Descriptor>, id: nat, d: Doc, obj: Value): Value
    decreases d
  {
    match d
    case Number(n) => Num(n)
    case Character(c) => Chr(c)
    case Text(s) => Str(Means(s))
    case Record(ms) =>
      var desc := FirstDescriptor(list, id);
      var fs := if desc.Some? then FieldsOf(desc.value) else [];
      Obj(Assigned(list, fs, ms, 0, Slots(obj, |fs|)))
    case Foreign(_) => obj
  }

  /** The fields after the members from the `i`-th on have been assigned to them, by their keys. */
  function Assigned(list: seq<Descriptor>, fs: seq<Field>, ms: seq<Member>, i: nat, slots: seq<Value>): (r: seq<Value>)
    requires i <= |ms| && |slots| == |fs|
    ensures |r| == |fs|
    decreases ms, |ms| - i
  {
    if i == |ms| then slots
    else
      match FindField(fs, Means(ms[i].key))
      case None => Assigned(list, fs, ms, i + 1, slots)
      case Some(j) =>
        Assigned(list, fs, ms, i + 1, slots[j := Evaluated(list, fs[j].typ, ms[i].value, slots[j])])
  }
}

/** The reader reads every document that fits the type, whatever its layout. */
module JsonDocRead {
  import opened Wrappers
  import opened Strings
  import opened Decimal
  import opened MetaTypes
  import opened JsonLex
  import opened JsonValues
  import opened JsonRead
  import opened JsonRoundTrip
  import opened JsonDocs

  lemma {:induction false} SkipBlank(s: string, t: string)
    requires Blank(s)
    ensures SkipWs(s + t) == SkipWs(t)
  {
    if s == [] {
      assert s + t == t;
    } else {
      assert (s + t)[1..] == s[1..] + t;
      SkipBlank(s[1..], t);
    }
  }

  lemma PieceRead(p: Piece, t: string)
    requires GoodPiece(p)
    ensures ReadBody(Spelling(p) + t) == match ReadBody(t)
                                         case None => None
                                         case Some(r) => Some(([Meaning(p)] + r.0, r.1))
  {
    var s := Spelling(p);
    assert (s + t)[0] == s[0];
    if |s| == 1 {
      assert (s + t)[1..] == t;
    } else {
      assert (s + t)[1] == s[1] && (s + t)[2..] == t;
    }
  }

  lemma {:induction false} PiecesRead(s: seq<Piece>, k: string)
    requires GoodText(s)
    ensures ReadBody(SpellPieces(s, "\"" + k)) == Some((Means(s), k))
  {
    hide ReadBody, Spelling, GoodPiece, Meaning;
    if s == [] {
      EndRead(k);
    } else {
      PiecesRead(s[1..], k);
      PieceRead(s[0], SpellPieces(s[1..], "\"" + k));
      assert [Meaning(s[0])] + Means(s[1..]) == Means(s);
    }
  }

  lemma EndRead(k: string)
    ensures ReadBody("\"" + k) == Some(("", k))
  {
    assert ("\"" + k)[1..] == k;
  }

  lemma {:induction false} NulFreeIsWhole(s: string)
    requires NulFree(s)
    ensures UntilNul(s) == s
  {
    if s != [] {
      NulFreeIsWhole(s[1..]);
      assert [s[0]] + s[1..] == s;
    }
  }

  lemma TextRead(s: seq<Piece>, k: string)
    requires GoodText(s)
    ensures ReadString("\"" + SpellPieces(s, "\"" + k)) == Some((Means(s), k)) && UntilNul(Means(s)) == Means(s)
  {
    hide ReadBody, UntilNul, SpellPieces;
    PiecesRead(s, k);
    assert ("\"" + SpellPieces(s, "\"" + k))[1..] == SpellPieces(s, "\"" + k);
    assert NulFree(Means(s));
    NulFreeIsWhole(Means(s));
  }

  /** A member is read up to its value. */
  lemma MemberAhead(m: Member, value: string, junk: Junk)
    requires Laid(m) && value != [] && !IsWs(value[0])
    ensures EntryAhead(SpellMember(m, value), Means(m.key), value, junk)
  {
    hide ReadString, UntilNul, SpellPieces, Blank, GoodText;
    var afterColon := m.beforeValue + value;
    var afterKey := m.beforeColon + (":" + afterColon);
    var key := "\"" + SpellPieces(m.key, "\"" + afterKey);
    SkipBlank(m.before, key);
    TextRead(m.key, afterKey);
    SkipBlank(m.beforeColon, ":" + afterColon);
    SkipBlank(m.beforeValue, value);
    assert (":" + afterColon)[1..] == afterColon;
    assert SkipWs(value) == value && SkipWs(":" + afterColon) == ":" + afterColon && SkipWs(key) == key;
    hide SkipWs;
  }

  lemma {:induction false} PiecesBehind(s: seq<Piece>, a: string, b: string)
    ensures SpellPieces(s, a + b) == SpellPieces(s, a) + b
  {
    if s != [] {
      PiecesBehind(s[1..], a, b);
      Assoc(Spelling(s[0]), SpellPieces(s[1..], a), b);
    }
  }

  /** What stands behind a document does not change its text. */
  lemma {:induction false} SpellBehind(d: Doc, a: string, b: string)
    ensures Spell(d, a + b) == Spell(d, a) + b
    decreases d, 0
  {
    match d
    case Number(n) => Assoc(DecInt(n), a, b);
    case Character(c) => Assoc("\"" + ([c] + "\""), a, b);
      assert "\"" + ([c] + ("\"" + (a + b))) == ("\"" + ([c] + "\"")) + (a + b);
      assert "\"" + ([c] + ("\"" + a)) == ("\"" + ([c] + "\"")) + a;
    case Text(s) =>
      Assoc("\"", a, b);
      PiecesBehind(s, "\"" + a, b);
      Assoc("\"", SpellPieces(s, "\"" + a), b);
    case Record(ms) =>
      MembersBehind(ms, 0, a, b);
      Assoc("{", SpellMembers(ms, 0, a), b);
    case Foreign(t) => Assoc(t, a, b);
  }

  lemma {:induction false} MembersBehind(ms: seq<Member>, i: nat, a: string, b: string)
    requires i <= |ms|
    ensures SpellMembers(ms, i, a + b) == SpellMembers(ms, i, a) + b
    decreases ms, |ms| - i
  {
    if i == |ms| {
      Assoc("}", a, b);
    } else {
      var m := ms[i];
      var rest := Behind(ms, i, a);
      if i == |ms| - 1 {
        Assoc("}", a, b);
      } else {
        MembersBehind(ms, i + 1, a, b);
        Assoc(",", SpellMembers(ms, i + 1, a), b);
      }
      Assoc(m.after, rest, b);
      SpellBehind(m.value, m.after + rest, b);
      MemberBehind(m, Spell(m.value, m.after + rest), b);
    }
  }

  lemma MemberBehind(m: Member, a: string, b: string)
    ensures SpellMember(m, a + b) == SpellMember(m, a) + b
  {
    hide SpellPieces;
    var s1 := m.beforeValue + a;
    Assoc(m.beforeValue, a, b);
    Assoc(":", s1, b);
    Assoc(m.beforeColon, ":" + s1, b);
    var s2 := m.beforeColon + (":" + s1);
    Assoc("\"", s2, b);
    PiecesBehind(m.key, "\"" + s2, b);
    Assoc("\"", SpellPieces(m.key, "\"" + s2), b);
    Assoc(m.before, "\"" + SpellPieces(m.key, "\"" + s2), b);
  }

  /** What stands behind the value of a member and its space. */
  function Behind(ms: seq<Member>, i: nat, k: string): string
    requires i < |ms|
  {
    if i == |ms| - 1 then "}" + k else "," + SpellMembers(ms, i + 1, k)
  }

  /** The value of a member, and all the rest. */
  function ValueOn(ms: seq<Member>, i: nat, k: string): string
    requires i < |ms|
  {
    Spell(ms[i].value, ms[i].after + Behind(ms, i, k))
  }

  lemma MembersFrom(ms: seq<Member>, i: nat, k: string)
    requires i < |ms|
    ensures SpellMembers(ms, i, k) == SpellMember(ms[i], ValueOn(ms, i, k))
  {
    hide Spell, SpellMember;
  }

  /** The text of a document that fits begins like a value. */
  lemma DocStart(list: seq<Descriptor>, id: nat, d: Doc, k: string)
    requires Fits(list, id, d)
    ensures var t := Spell(d, k);
            && t != [] && !IsWs(t[0]) && t[0] != '['
            && FirstDescriptor(list, id).Some?
            && (t[0] == '{' <==> FirstDescriptor(list, id).value.cls.Object?)
  {
    hide FitMembers, SpellMembers, SpellPieces;
    if d.Number? {
      DigitsFirst(d.n, k);
    }
  }

  lemma {:induction false} DocRead(list: seq<Descriptor>, id: nat, d: Doc, k: string, obj: Value, junk: Junk)
    requires Fits(list, id, d) && NoDigitAhead(k)
    ensures FirstDescriptor(list, id).Some?
    ensures ParseDescriptor(list, FirstDescriptor(list, id).value, id, Spell(d, k), obj, junk)
            == Outcome(SUCCESS, Evaluated(list, id, d, obj), k)
    decreases d, 1
  {
    DocStart(list, id, d, k);
    match FirstDescriptor(list, id).value.cls
    case Primitive(p) => PrimitiveRead(list, id, d, k, obj, junk);
    case CString => StringRead(list, id, d, k, obj, junk);
    case Object(_) =>
      ObjectRead(list, id, d, k, obj, junk);
      ObjectAhead(list, id, d, k, obj, junk);
    hide *;
  }

  lemma PrimitiveRead(list: seq<Descriptor>, id: nat, d: Doc, k: string, obj: Value, junk: Junk)
    requires Fits(list, id, d) && NoDigitAhead(k)
    requires FirstDescriptor(list, id).Some? && FirstDescriptor(list, id).value.cls.Primitive?
    ensures ParseDescriptor(list, FirstDescriptor(list, id).value, id, Spell(d, k), obj, junk)
            == Outcome(SUCCESS, Evaluated(list, id, d, obj), k)
  {
    hide ParseDescriptor, NoDigitAhead, FirstDescriptor, InRange, DecInt;
    PrimitiveRoundTrip(list, id, Evaluated(list, id, d, obj), 0, k, obj, junk);
  }

  lemma StringRead(list: seq<Descriptor>, id: nat, d: Doc, k: string, obj: Value, junk: Junk)
    requires Fits(list, id, d)
    requires FirstDescriptor(list, id).Some? && FirstDescriptor(list, id).value.cls.CString?
    ensures ParseDescriptor(list, FirstDescriptor(list, id).value, id, Spell(d, k), obj, junk)
            == Outcome(SUCCESS, Evaluated(list, id, d, obj), k)
  {
    hide ReadString, UntilNul, SpellPieces, FirstDescriptor;
    TextRead(d.pieces, k);
  }

  lemma ObjectAhead(list: seq<Descriptor>, id: nat, d: Doc, k: string, obj: Value, junk: Junk)
    requires FirstDescriptor(list, id).Some? && Spell(d, k) != [] && Spell(d, k)[0] == '{'
    ensures ParseDescriptor(list, FirstDescriptor(list, id).value, id, Spell(d, k), obj, junk)
            == ParseObject(list, id, Spell(d, k), obj, junk)
  {
    hide ParseObject, FirstDescriptor, Spell;
  }

  lemma {:induction false} ObjectRead(list: seq<Descriptor>, id: nat, d: Doc, k: string, obj: Value, junk: Junk)
    requires Fits(list, id, d) && FirstDescriptor(list, id).Some? && FirstDescriptor(list, id).value.cls.Object?
    ensures ParseObject(list, id, Spell(d, k), obj, junk) == Outcome(SUCCESS, Evaluated(list, id, d, obj), k)
    decreases d, 0
  {
    hide FitMembers, SpellMembers, Assigned, FirstDescriptor, ParseObject, ParseMembers, Slots;
    var fs := FieldsOf(FirstDescriptor(list, id).value);
    var ms := d.members;
    var t := SpellMembers(ms, 0, k);
    FitMember(list, fs, ms, 0);
    Tail('{', t);
    ReadBrace(list, id, t, obj, junk);
    MembersRead(list, fs, ms, 0, k, obj, junk);
  }

  lemma FitMember(list: seq<Descriptor>, fs: seq<Field>, ms: seq<Member>, i: nat)
    requires FitMembers(list, fs, ms)
    ensures |ms| > 0
    ensures i < |ms| ==>
              && Laid(ms[i])
              && match FindField(fs, Means(ms[i].key))
                 case None => i < |ms| - 1 && Skips(ms[i])
                 case Some(j) => Fits(list, fs[j].typ, ms[i].value)
  {
    hide Laid, Skips, Fits, FindField;
  }

  lemma {:induction false} MembersRead(list: seq<Descriptor>, fs: seq<Field>, ms: seq<Member>, i: nat, k: string,
                                       obj: Value, junk: Junk)
    requires FitMembers(list, fs, ms) && i < |ms|
    ensures ParseMembers(list, fs, SpellMembers(ms, i, k), obj, junk)
            == Outcome(SUCCESS, Obj(Assigned(list, fs, ms, i, Slots(obj, |fs|))), k)
    decreases ms, |ms| - i
  {
    hide *;
    FitMember(list, fs, ms, i);
    MembersFrom(ms, i, k);
    BehindStart(ms, i, k);
    AssignedStep(list, fs, ms, i, Slots(obj, |fs|));
    var value := ValueOn(ms, i, k);
    var t := SpellMembers(ms, i, k);
    match FindField(fs, Means(ms[i].key))
    case None =>
      ValueSkipped(ms, i, k);
      MemberAhead(ms[i], value, junk);
      SkipStep(list, fs, t, obj, junk, Means(ms[i].key), value, SpellMembers(ms, i + 1, k));
      MembersRead(list, fs, ms, i + 1, k, obj, junk);
    case Some(j) =>
      var slots := Slots(obj, |fs|);
      var behind := ms[i].after + Behind(ms, i, k);
      ValueOnIs(ms, i, k);
      DocStart(list, fs[j].typ, ms[i].value, behind);
      DocRead(list, fs[j].typ, ms[i].value, behind, slots[j], junk);
      var w := Evaluated(list, fs[j].typ, ms[i].value, slots[j]);
      FieldTaken(list, fs[j], value, slots[j], junk, w, behind);
      MemberAhead(ms[i], value, junk);
      MemberStep(list, fs, t, obj, junk, j, value, w, behind);
      SlotsOf(slots[j := w]);
      if i < |ms| - 1 {
        MembersRead(list, fs, ms, i + 1, k, Obj(slots[j := w]), junk);
      } else {
        AssignedAll(list, fs, ms, slots[j := w]);
      }
  }

  lemma ValueOnIs(ms: seq<Member>, i: nat, k: string)
    requires i < |ms|
    ensures ValueOn(ms, i, k) == Spell(ms[i].value, ms[i].after + Behind(ms, i, k))
  {
  }

  lemma SlotsOf(slots: seq<Value>)
    ensures Slots(Obj(slots), |slots|) == slots
  {
  }

  lemma AssignedAll(list: seq<Descriptor>, fs: seq<Field>, ms: seq<Member>, slots: seq<Value>)
    requires |slots| == |fs|
    ensures Assigned(list, fs, ms, |ms|, slots) == slots
  {
  }

  lemma AssignedStep(list: seq<Descriptor>, fs: seq<Field>, ms: seq<Member>, i: nat, slots: seq<Value>)
    requires i < |ms| && |slots| == |fs|
    ensures Assigned(list, fs, ms, i, slots) ==
            match FindField(fs, Means(ms[i].key))
            case None => Assigned(list, fs, ms, i + 1, slots)
            case Some(j) =>
              Assigned(list, fs, ms, i + 1, slots[j := Evaluated(list, fs[j].typ, ms[i].value, slots[j])])
  {
    hide Evaluated, FindField;
  }

  /** What stands behind a value: space, and then a brace or a comma, but no digit. */
  lemma BehindStart(ms: seq<Member>, i: nat, k: string)
    requires i < |ms| && Laid(ms[i])
    ensures var behind := ms[i].after + Behind(ms, i, k);
            && NoDigitAhead(behind) && SkipWs(behind) == Behind(ms, i, k)
            && (i == |ms| - 1 ==> Peek(Behind(ms, i, k), '}') && Behind(ms, i, k)[1..] == k)
            && (i < |ms| - 1 ==> Peek(Behind(ms, i, k), ',') && !Peek(Behind(ms, i, k), '}')
                                 && Behind(ms, i, k)[1..] == SpellMembers(ms, i + 1, k))
  {
    hide SpellMembers, GoodText;
    SkipBlank(ms[i].after, Behind(ms, i, k));
    var b := ms[i].after + Behind(ms, i, k);
    assert ms[i].after != [] ==> b[0] == ms[i].after[0];
    assert ms[i].after == [] ==> b == Behind(ms, i, k);
  }

  lemma ValueSkipped(ms: seq<Member>, i: nat, k: string)
    requires i < |ms| - 1 && Skips(ms[i])
    ensures var value := ValueOn(ms, i, k);
            && value != [] && !IsWs(value[0])
            && SkipValue(value, 0, 0) == (true, SpellMembers(ms, i + 1, k))
  {
    hide Spell, SpellMembers, Depths;
    var m := ms[i];
    var t := Spell(m.value, m.after);
    var behind := "," + SpellMembers(ms, i + 1, k);
    SpellBehind(m.value, m.after, behind);
    SkipOver(t, behind, 0, 0);
    assert behind[1..] == SpellMembers(ms, i + 1, k);
    assert (t + behind)[0] == t[0] && t[..1] == [t[0]];
    assert !Blank([t[0]]);
  }

  lemma FieldTaken(list: seq<Descriptor>, field: Field, t: string, obj: Value, junk: Junk, v: Value, rest: string)
    requires t != [] && !IsWs(t[0]) && t[0] != '[' && FirstDescriptor(list, field.typ).Some?
    requires ParseDescriptor(list, FirstDescriptor(list, field.typ).value, field.typ, t, obj, junk)
             == Outcome(SUCCESS, v, rest)
    ensures ParseField(list, field, t, obj, junk) == Outcome(SUCCESS, v, rest)
  {
    hide ParseDescriptor, FirstDescriptor;
    SkipNone(t);
    hide SkipWs;
  }

  /** The `n`-th member is the first that has the reserved key. It names the type `name`, and what stands
      before it can be skipped. */
  predicate NamesType(ms: seq<Member>, n: nat, name: string) {
    && n < |ms|
    && Means(ms[n].key) == "--vd-meta-type-name--" && ms[n].value.Text? && GoodText(ms[n].value.pieces) && Means(ms[n].value.pieces) == name
    && forall j | 0 <= j < n :: Means(ms[j].key) != RESERVED && Skips(ms[j])
  }

  /** The answer to a type name: the id of the type, or that there is none, or that it is another one. */
  function TypeAnswer(list: seq<Descriptor>, expected: nat, name: string): (int, nat) {
    match FirstId(list, name)
    case None => (-3, 0)
    case Some(id) => if id == 0 then (-3, 0) else if expected != 0 && id != expected then (-5, id) else (0, id)
  }

  lemma {:induction false} TypeFound(list: seq<Descriptor>, expected: nat, ms: seq<Member>, i: nat, n: nat, name: string,
                                     k: string, junk: Junk)
    requires NamesType(ms, n, name) && i <= n && forall j | 0 <= j < |ms| :: Laid(ms[j])
    ensures TypeMembers(list, expected, SpellMembers(ms, i, k), junk) == TypeAnswer(list, expected, name)
    decreases n - i
  {
    hide *;
    NamedMember(ms, i, n, name);
    MembersFrom(ms, i, k);
    var value := ValueOn(ms, i, k);
    var t := SpellMembers(ms, i, k);
    if i == n {
      NamedValue(ms, n, name, k);
      MemberAhead(ms[n], value, junk);
      TypeTaken(list, expected, t, value, name, ms[n].after + Behind(ms, n, k), junk);
    } else {
      ValueSkipped(ms, i, k);
      MemberAhead(ms[i], value, junk);
      var next := SpellMembers(ms, i + 1, k);
      MembersFrom(ms, i + 1, k);
      NotAComma(ms[i + 1], ValueOn(ms, i + 1, k));
      TypeSkipped(list, expected, t, Means(ms[i].key), value, next, junk);
      TypeFound(list, expected, ms, i + 1, n, name, k, junk);
    }
  }

  lemma NamedMember(ms: seq<Member>, i: nat, n: nat, name: string)
    requires NamesType(ms, n, name) && i <= n
    ensures n < |ms|
    ensures i < n ==> i < |ms| - 1 && Means(ms[i].key) != RESERVED && Skips(ms[i])
    ensures i == n ==> Means(ms[n].key) == RESERVED
  {
    hide Skips, GoodText;
  }

  lemma NamedValue(ms: seq<Member>, n: nat, name: string, k: string)
    requires NamesType(ms, n, name)
    ensures var value := ValueOn(ms, n, k);
            && value != [] && !IsWs(value[0])
            && ReadString(value) == Some((name, ms[n].after + Behind(ms, n, k))) && UntilNul(name) == name
  {
    TextRead(ms[n].value.pieces, ms[n].after + Behind(ms, n, k));
    hide ReadString, UntilNul, SpellPieces, Skips;
  }

  lemma TypeTaken(list: seq<Descriptor>, expected: nat, t: string, value: string, name: string, rest: string, junk: Junk)
    requires EntryAhead(t, RESERVED, value, junk) && ReadString(value) == Some((name, rest)) && UntilNul(name) == name
    ensures TypeMembers(list, expected, t, junk) == TypeAnswer(list, expected, name)
  {
    hide SkipWs, ReadString, UntilNul, FirstId, SkipValue;
  }

  /** A member does not begin with a comma, nor does the space before it. */
  lemma NotAComma(m: Member, value: string)
    requires Laid(m)
    ensures !Peek(SkipWs(SpellMember(m, value)), ',')
    ensures SkipWs(SkipWs(SpellMember(m, value))) == SkipWs(SpellMember(m, value))
  {
    hide SpellPieces, GoodText;
    var t := "\"" + SpellPieces(m.key, "\"" + (m.beforeColon + (":" + (m.beforeValue + value))));
    SkipBlank(m.before, t);
  }

  lemma TypeSkipped(list: seq<Descriptor>, expected: nat, t: string, key: string, value: string, next: string, junk: Junk)
    requires EntryAhead(t, key, value, junk) && key != RESERVED && SkipValue(value, 0, 0) == (true, next)
    requires !Peek(SkipWs(next), ',') && SkipWs(SkipWs(next)) == SkipWs(next)
    ensures TypeMembers(list, expected, t, junk) == TypeMembers(list, expected, next, junk)
  {
    hide SkipWs, ReadKey, SkipValue, FirstId, TypeValue;
    TypeAfterSpace(list, expected, next, junk);
    assert TypeMembers(list, expected, t, junk) == TypeValue(list, expected, key, value, junk);
    TypeValueSkipped(list, expected, key, value, next, junk);
  }

  lemma TypeValueSkipped(list: seq<Descriptor>, expected: nat, key: string, value: string, next: string, junk: Junk)
    requires key != RESERVED && SkipValue(value, 0, 0) == (true, next) && !Peek(SkipWs(next), ',')
    ensures TypeValue(list, expected, key, value, junk) == TypeMembers(list, expected, SkipWs(next), junk)
  {
    hide SkipWs, SkipValue, TypeMembers, ReadKey;
  }

  lemma TypeAfterSpace(list: seq<Descriptor>, expected: nat, t: string, junk: Junk)
    requires SkipWs(SkipWs(t)) == SkipWs(t)
    ensures TypeMembers(list, expected, SkipWs(t), junk) == TypeMembers(list, expected, t, junk)
  {
    hide SkipWs, ReadKey, TypeValue;
  }

  /** Any document that names its type and fits it is read as what it stands for, whatever its layout, the
      order of its members and what it holds besides; what follows it does not matter. Another type
      than the expected one, and a name that is not registered, are told apart. */
  lemma ReadsDocument(list: seq<Descriptor>, expected: nat, lead: string, ms: seq<Member>, behind: string, n: nat,
                      name: string, junk: Junk)
    requires Blank(lead) && NamesType(ms, n, name) && forall j | 0 <= j < |ms| :: Laid(ms[j])
    ensures var (ret, id) := TypeAnswer(list, expected, name);
            var answer := ParseJson(list, expected, lead + Spell(Record(ms), behind), junk);
            && (ret != 0 ==> answer == (ret, 0, Zero))
            && (ret == 0 && FirstDescriptor(list, id).Some? && FirstDescriptor(list, id).value.cls.Object?
                && Fits(list, id, Record(ms)) ==>
                  answer == (0, id, Evaluated(list, id, Record(ms), Zero)))
  {
    hide *;
    var t := SpellMembers(ms, 0, behind);
    var text := lead + Spell(Record(ms), behind);
    BraceAhead(lead, ms, behind);
    TypeFound(list, expected, ms, 0, n, name, behind, junk);
    var (ret, id) := TypeAnswer(list, expected, name);
    AnswerOf(list, expected, text, junk, t, ret, id);
    if ret == 0 && FirstDescriptor(list, id).Some? && FirstDescriptor(list, id).value.cls.Object? && Fits(list, id, Record(ms)) {
      ObjectRead(list, id, Record(ms), behind, Zero, junk);
      LeadIgnored(list, id, text, Spell(Record(ms), behind), Zero, junk);
    }
  }

  lemma BraceAhead(lead: string, ms: seq<Member>, behind: string)
    requires Blank(lead)
    ensures var text := lead + Spell(Record(ms), behind);
            && SkipWs(text) == Spell(Record(ms), behind) == SkipWs(Spell(Record(ms), behind))
            && Peek(SkipWs(text), '{') && SkipWs(text)[1..] == SpellMembers(ms, 0, behind)
  {
    hide SpellMembers;
    SkipBlank(lead, Spell(Record(ms), behind));
  }

  lemma AnswerOf(list: seq<Descriptor>, expected: nat, text: string, junk: Junk, t: string, ret: int, id: nat)
    requires Peek(SkipWs(text), '{') && SkipWs(text)[1..] == t
    requires TypeMembers(list, expected, t, junk) == (ret, id)
    ensures SUCCESS == 0
    ensures ret != 0 ==> ParseJson(list, expected, text, junk) == (ret, 0, Zero)
    ensures ret == 0 && FirstDescriptor(list, id).Some? ==>
              var r := ParseObject(list, id, text, Zero, junk);
              ParseJson(list, expected, text, junk) == (r.ret, id, r.obj)
  {
    hide SkipWs, TypeMembers, ParseObject, FirstDescriptor;
  }

  lemma LeadIgnored(list: seq<Descriptor>, id: nat, text: string, t: string, obj: Value, junk: Junk)
    requires SkipWs(text) == t == SkipWs(t)
    requires ParseObject(list, id, t, obj, junk).ret == SUCCESS
    ensures ParseObject(list, id, text, obj, junk) == ParseObject(list, id, t, obj, junk)
  {
    hide SkipWs, ParseMembers, FirstDescriptor;
  }

  /** Text whose first token is not a brace is rejected. */
  lemma NoBraceRejected(list: seq<Descriptor>, expected: nat, lead: string, t: string, junk: Junk)
    requires Blank(lead) && (t == [] || (t[0] != '{' && !Blank([t[0]])))
    ensures ParseJson(list, expected, lead + t, junk) == (-2, 0, Zero)
  {
    SkipBlank(lead, t);
    assert t != [] ==> !Blank([t[0]]) && [t[0]][0] == t[0];
    assert SkipWs(t) == t;
    hide SkipWs;
  }

  /** A field is given by the one member that has its key, wherever it stands; without one it stays as it was. */
  lemma {:induction false} FieldAssigned(list: seq<Descriptor>, fs: seq<Field>, ms: seq<Member>, i: nat, slots: seq<Value>,
                                         j: nat)
    requires i <= |ms| && j < |slots| == |fs| && FindField(fs, fs[j].name) == Some(j)
    ensures (forall m | i <= m < |ms| :: Means(ms[m].key) != fs[j].name) ==> Assigned(list, fs, ms, i, slots)[j] == slots[j]
    ensures forall m | i <= m < |ms| && Means(ms[m].key) == fs[j].name
                       && (forall o | i <= o < |ms| && o != m :: Means(ms[o].key) != fs[j].name) ::
              Assigned(list, fs, ms, i, slots)[j] == Evaluated(list, fs[j].typ, ms[m].value, slots[j])
    decreases |ms| - i
  {
    hide Evaluated, FindFrom;
    if i < |ms| {
      var key := Means(ms[i].key);
      var slots' := match FindField(fs, key)
                    case None => slots
                    case Some(o) => slots[o := Evaluated(list, fs[o].typ, ms[i].value, slots[o])];
      FieldAssigned(list, fs, ms, i + 1, slots', j);
      assert key != fs[j].name ==> slots'[j] == slots[j];
    }
  }
}

/** An object with any space between its tokens. */
module JsonLayouts {
  import opened Wrappers
  import opened Decimal
  import opened MetaTypes
  import opened JsonLex
  import opened JsonValues
  import opened JsonRead
  import opened JsonRoundTrip
  import opened JsonDocs
  import opened JsonDocRead

  /** The space at each place: before and behind the parts of the member at that path. */
  type Layout = (seq<nat>, nat) -> string

  ghost predicate AllBlank(gap: Layout) {
    forall path, n :: Blank(gap(path, n))
  }

  function Raws(s: string): (r: seq<Piece>)
    ensures |r| == |s|
    ensures forall i | 0 <= i < |s| :: r[i] == Raw(s[i])
  {
    seq(|s|, i requires 0 <= i < |s| => Raw(s[i]))
  }

  function MemberAt(gap: Layout, path: seq<nat>, key: string, value: Doc): Member {
    Member(gap(path, 0), Raws(key), gap(path, 1), gap(path, 2), value, gap(path, 3))
  }

  /** The members of an object: the type name, and then its fields in order. */
  function DocOf(list: seq<Descriptor>, id: nat, v: Value, gap: Layout, path: seq<nat>): Doc
    requires HasType(list, id, v)
    decreases v
  {
    match v
    case Zero => Foreign("")
    case Num(n) => Number(n)
    case Chr(c) => Character(c)
    case Str(s) => Text(Raws(s))
    case Obj(vs) =>
      match FirstDescriptor(list, id)
      case None => Foreign("")
      case Some(d) =>
        if d.cls.Object? then Record([TypeMember(d, gap, path)] + FieldMembers(list, d.cls.fields, vs, gap, path))
        else Foreign("")
  }

  function TypeMember(d: Descriptor, gap: Layout, path: seq<nat>): Member {
    MemberAt(gap, path + [0], RESERVED, Text(Raws(d.name)))
  }

  function FieldMembers(list: seq<Descriptor>, fs: seq<Field>, vs: seq<Value>, gap: Layout, path: seq<nat>): (r: seq<Member>)
    requires |fs| == |vs| && forall i | 0 <= i < |fs| :: HasType(list, fs[i].typ, vs[i])
    ensures |r| == |fs|
    ensures forall i | 0 <= i < |fs| ::
              r[i] == MemberAt(gap, path + [i + 1], fs[i].name, DocOf(list, fs[i].typ, vs[i], gap, path + [i + 1]))
    decreases vs
  {
    seq(|fs|, i requires 0 <= i < |fs| =>
      MemberAt(gap, path + [i + 1], fs[i].name, DocOf(list, fs[i].typ, vs[i], gap, path + [i + 1])))
  }

  lemma RawsMean(s: string)
    ensures Means(Raws(s)) == s
    ensures Plain(s) ==> GoodText(Raws(s))
  {
  }

  /** Text between quotes balances when it does without them. */
  lemma {:induction false} QuotedBalances(s: string, after: string, brackets: int, braces: int)
    requires Blank(after)
    ensures Depths(s + ("\"" + after), brackets, braces) == Depths(s, brackets, braces)
  {
    if s == [] {
      assert s + ("\"" + after) == "\"" + after && ("\"" + after)[1..] == after;
      BlankBalances(after, brackets, braces);
    } else {
      var c := s[0];
      assert (s + ("\"" + after))[1..] == s[1..] + ("\"" + after);
      QuotedBalances(s[1..], after,
                     if c == '[' then brackets + 1 else if c == ']' then brackets - 1 else brackets,
                     if c == '{' then braces + 1 else if c == '}' then braces - 1 else braces);
    }
  }

  lemma {:induction false} BlankBalances(s: string, brackets: int, braces: int)
    requires Blank(s)
    ensures Depths(s, brackets, braces) == Some((brackets, braces))
  {
    if s != [] {
      BlankBalances(s[1..], brackets, braces);
    }
  }

  lemma {:induction false} RawsSpelled(s: string, k: string)
    ensures SpellPieces(Raws(s), k) == s + k
  {
    if s == [] {
      assert s + k == k;
    } else {
      RawsSpelled(s[1..], k);
      assert Raws(s)[1..] == Raws(s[1..]);
      assert [s[0]] + (s[1..] + k) == s + k;
    }
  }

  lemma TypeMemberFits(d: Descriptor, gap: Layout, path: seq<nat>)
    requires AllBlank(gap) && Skippable(d.name)
    ensures Laid(TypeMember(d, gap, path)) && Skips(TypeMember(d, gap, path))
    ensures Means(TypeMember(d, gap, path).key) == RESERVED
  {
    hide *;
    RawsMean(RESERVED);
    ReservedIsPlain();
    TypeMemberLaid(d, gap, path);
    TypeMemberSkips(d, gap, path);
  }

  lemma ReservedIsPlain()
    ensures Plain(RESERVED)
  {
  }

  lemma TypeMemberLaid(d: Descriptor, gap: Layout, path: seq<nat>)
    requires AllBlank(gap) && GoodText(Raws(RESERVED)) && Means(Raws(RESERVED)) == RESERVED
    ensures Laid(TypeMember(d, gap, path)) && Means(TypeMember(d, gap, path).key) == RESERVED
  {
    hide Means, GoodText, Blank;
  }

  lemma TypeMemberSkips(d: Descriptor, gap: Layout, path: seq<nat>)
    requires AllBlank(gap) && Skippable(d.name)
    ensures Skips(TypeMember(d, gap, path))
  {
    hide SpellPieces, Raws, Blank;
    var after := gap(path + [0], 3);
    RawsSpelled(d.name, "\"" + after);
    var t := "\"" + (d.name + ("\"" + after));
    assert t[1..] == d.name + ("\"" + after);
    QuotedBalances(d.name, after, 0, 0);
    QuoteIsNoSpace(t);
  }

  lemma QuoteIsNoSpace(t: string)
    requires t != [] && t[0] == '"'
    ensures !Blank(t[..1])
  {
    assert t[..1][0] == '"';
  }

  /** A field member, as `FitMembers` asks for it. */
  lemma FieldMemberFits(list: seq<Descriptor>, fs: seq<Field>, vs: seq<Value>, gap: Layout, path: seq<nat>, i: nat)
    requires |fs| == |vs| && forall j | 0 <= j < |fs| :: HasType(list, fs[j].typ, vs[j])
    requires AllBlank(gap) && GoodFields(fs) && i < |fs|
    ensures var m := FieldMembers(list, fs, vs, gap, path)[i];
            && Laid(m) && Means(m.key) == fs[i].name != RESERVED && FindField(fs, Means(m.key)) == Some(i)
            && m.value == DocOf(list, fs[i].typ, vs[i], gap, path + [i + 1])
  {
    hide DocOf, HasType, Means, Blank, GoodText, FindField;
    RawsMean(fs[i].name);
    GoodField(fs, i);
  }

  lemma {:induction false} DocOfMeans(list: seq<Descriptor>, id: nat, v: Value, gap: Layout, path: seq<nat>, obj: Value)
    requires HasType(list, id, v) && Readable(list, id, v) && AllBlank(gap)
    ensures Fits(list, id, DocOf(list, id, v, gap, path))
    ensures Evaluated(list, id, DocOf(list, id, v, gap, path), obj) == v
    decreases v, 1
  {
    var d := FirstDescriptor(list, id).value;
    match d.cls
    case Primitive(_) =>
    case CString => RawsMean(v.s);
    case Object(fs) =>
      RecordMeans(list, d, v, gap, path, obj);
    hide FitMembers, Assigned, Skippable, GoodFields, GoodText, Means, InRange, FirstDescriptor, Slots;
  }

  lemma {:induction false} RecordMeans(list: seq<Descriptor>, d: Descriptor, v: Value, gap: Layout, path: seq<nat>, obj: Value)
    requires d.cls.Object? && v.Obj? && |v.fields| == |d.cls.fields| && Skippable(d.name) && GoodFields(d.cls.fields)
    requires forall i | 0 <= i < |v.fields| ::
               HasType(list, d.cls.fields[i].typ, v.fields[i]) && Readable(list, d.cls.fields[i].typ, v.fields[i])
    requires AllBlank(gap)
    ensures var fs := d.cls.fields;
            var ms := [TypeMember(d, gap, path)] + FieldMembers(list, fs, v.fields, gap, path);
            FitMembers(list, fs, ms) && Assigned(list, fs, ms, 0, Slots(obj, |fs|)) == v.fields
    decreases v, 0
  {
    hide *;
    var fs, vs := d.cls.fields, v.fields;
    var members := FieldMembers(list, fs, vs, gap, path);
    var ms := [TypeMember(d, gap, path)] + members;
    TypeMemberFits(d, gap, path);
    NoReserved(fs);
    forall j: nat | j < |fs| ensures StandsFor(list, fs, j, members[j], vs[j]) {
      FieldMemberFits(list, fs, vs, gap, path, j);
      FieldSmaller(v, j);
      DocOfMeans(list, fs[j].typ, vs[j], gap, path + [j + 1], Zero);
      forall o ensures Evaluated(list, fs[j].typ, members[j].value, o) == vs[j] {
        DocOfMeans(list, fs[j].typ, vs[j], gap, path + [j + 1], o);
      }
      IsStandingFor(list, fs, j, members[j], vs[j]);
    }
    SomeFields(fs);
    IsFitMembers(list, fs, members, vs, ms[0]);
    AssignedStep(list, fs, ms, 0, Slots(obj, |fs|));
    InOrder(list, fs, members, vs, ms[0], 0, Slots(obj, |fs|));
  }

  /** The member gives the `j`-th field the value `w`. */
  ghost predicate StandsFor(list: seq<Descriptor>, fs: seq<Field>, j: nat, m: Member, w: Value) {
    && j < |fs| && Laid(m) && FindField(fs, Means(m.key)) == Some(j) && Fits(list, fs[j].typ, m.value)
    && forall o :: Evaluated(list, fs[j].typ, m.value, o) == w
  }

  lemma IsStandingFor(list: seq<Descriptor>, fs: seq<Field>, j: nat, m: Member, w: Value)
    requires j < |fs| && Laid(m) && FindField(fs, Means(m.key)) == Some(j)
    requires Fits(list, fs[j].typ, m.value) && forall o :: Evaluated(list, fs[j].typ, m.value, o) == w
    ensures StandsFor(list, fs, j, m, w)
  {
    hide Laid, Fits, Evaluated, FindField, Means;
  }

  lemma FieldSmaller(v: Value, i: nat)
    requires v.Obj? && i < |v.fields|
    ensures v decreases to v.fields[i]
  {
  }

  lemma SomeFields(fs: seq<Field>)
    requires GoodFields(fs)
    ensures fs != []
  {
  }

  lemma IsFitMembers(list: seq<Descriptor>, fs: seq<Field>, members: seq<Member>, vs: seq<Value>, first: Member)
    requires fs != [] && |members| == |fs| == |vs|
    requires Laid(first) && Skips(first) && FindField(fs, Means(first.key)) == None
    requires forall j: nat | j < |fs| :: StandsFor(list, fs, j, members[j], vs[j])
    ensures FitMembers(list, fs, [first] + members)
  {
    hide Laid, Skips, Fits, FindField, Evaluated, Means;
    var ms := [first] + members;
    assert StandsFor(list, fs, |fs| - 1, members[|fs| - 1], vs[|fs| - 1]);
    forall k: nat | 0 < k < |ms| ensures StandsFor(list, fs, k - 1, ms[k], vs[k - 1]) {
      assert ms[k] == members[k - 1];
    }
  }

  /** Fields that are given in order fill the object from the front. */
  lemma {:induction false} InOrder(list: seq<Descriptor>, fs: seq<Field>, members: seq<Member>, vs: seq<Value>, first: Member,
                                   i: nat, slots: seq<Value>)
    requires |members| == |fs| == |vs| == |slots| && i <= |fs| && slots[..i] == vs[..i]
    requires forall j: nat | j < |fs| :: StandsFor(list, fs, j, members[j], vs[j])
    ensures Assigned(list, fs, [first] + members, i + 1, slots) == vs
    decreases |fs| - i
  {
    hide *;
    var ms := [first] + members;
    if i == |fs| {
      AssignedAll(list, fs, ms, slots);
      assert slots[..i] == slots && vs[..i] == vs;
    } else {
      AssignedStep(list, fs, ms, i + 1, slots);
      assert ms[i + 1] == members[i];
      assert StandsFor(list, fs, i, members[i], vs[i]);
      Standing(list, fs, i, members[i], vs[i], slots[i]);
      assert slots[i := vs[i]][..i + 1] == vs[..i + 1];
      InOrder(list, fs, members, vs, first, i + 1, slots[i := vs[i]]);
    }
  }

  lemma Standing(list: seq<Descriptor>, fs: seq<Field>, j: nat, m: Member, w: Value, o: Value)
    requires StandsFor(list, fs, j, m, w)
    ensures j < |fs| && FindField(fs, Means(m.key)) == Some(j) && Evaluated(list, fs[j].typ, m.value, o) == w
  {
    hide Laid, Fits, Evaluated, FindField, Means;
  }

  /** An object that is printed with any run of space, tab, newline and carriage return at every place
      between its tokens, and before and behind, is read back. */
  lemma ReadsAnyLayout(list: seq<Descriptor>, id: nat, v: Value, gap: Layout, lead: string, behind: string, expected: nat,
                       junk: Junk)
    requires HasType(list, id, v) && Readable(list, id, v) && FirstDescriptor(list, id).value.cls.Object?
    requires Plain(FirstDescriptor(list, id).value.name)
    requires id != 0 && FirstId(list, FirstDescriptor(list, id).value.name) == Some(id)
    requires AllBlank(gap) && Blank(lead)
    ensures var text := lead + Spell(DocOf(list, id, v, gap, []), behind);
            ParseJson(list, expected, text, junk) == if expected == 0 || expected == id then (0, id, v) else (-5, 0, Zero)
  {
    hide *;
    var d, ms := RecordNamed(list, id, v, gap);
    ReadsDocument(list, expected, lead, ms, behind, 0, d.name, junk);
    DocOfMeans(list, id, v, gap, [], Zero);
    Answered(list, expected, d.name, id);
  }

  lemma Answered(list: seq<Descriptor>, expected: nat, name: string, id: nat)
    requires id != 0 && FirstId(list, name) == Some(id)
    ensures TypeAnswer(list, expected, name) == if expected == 0 || expected == id then (0, id) else (-5, id)
  {
  }

  lemma RecordNamed(list: seq<Descriptor>, id: nat, v: Value, gap: Layout) returns (d: Descriptor, ms: seq<Member>)
    requires HasType(list, id, v) && Readable(list, id, v) && FirstDescriptor(list, id).value.cls.Object?
    requires Plain(FirstDescriptor(list, id).value.name) && AllBlank(gap)
    ensures FirstDescriptor(list, id) == Some(d) && DocOf(list, id, v, gap, []) == Record(ms)
    ensures NamesType(ms, 0, d.name) && forall j | 0 <= j < |ms| :: Laid(ms[j])
  {
    d := FirstDescriptor(list, id).value;
    var fs := d.cls.fields;
    ms := [TypeMember(d, gap, [])] + FieldMembers(list, fs, v.fields, gap, []);
    TypeMemberFits(d, gap, []);
    RawsMean(d.name);
    forall j | 0 <= j < |ms| ensures Laid(ms[j]) {
      if j > 0 {
        FieldMemberFits(list, fs, v.fields, gap, [], j - 1);
      }
    }
    hide Laid, Skips, Means, GoodFields, Skippable, FirstDescriptor, FieldMembers;
  }
}
