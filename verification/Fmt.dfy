/** The formatter of `lib/vd_fmt.h`. */
module FmtDigits {
  import opened Decimal

  // The rows of the digit table, each with the pairs for twenty numbers.
  const ROW0 := "0001020304050607080910111213141516171819"
  const ROW1 := "2021222324252627282930313233343536373839"
  const ROW2 := "4041424344454647484950515253545556575859"
  const ROW3 := "6061626364656667686970717273747576777879"
  const ROW4 := "8081828384858687888990919293949596979899"

  function Row(r: nat): (s: string)
    requires r < 5
    ensures |s| == 40
  {
    if r == 0 then ROW0 else if r == 1 then ROW1 else if r == 2 then ROW2 else if r == 3 then ROW3 else ROW4
  }

  /** `VD_FMT__Digits_Lut[k]` */
  function Lut(k: nat): char
    requires k < 200
  {
    Row(k / 40)[k % 40]
  }

  /** The pairs of the ten numbers whose tens digit is `c`. */
  function Pairs(c: char): (s: string)
    ensures |s| == 20
  {
    [c, '0', c, '1', c, '2', c, '3', c, '4', c, '5', c, '6', c, '7', c, '8', c, '9']
  }

  lemma PairAt(c: char, u: nat)
    requires u < 10
    ensures Pairs(c)[2 * u] == c && Pairs(c)[2 * u + 1] == DigitChar(u)
  {
  }

  lemma Row0()
    ensures ROW0 == Pairs('0') + Pairs('1')
  {
  }

  lemma Row1()
    ensures ROW1 == Pairs('2') + Pairs('3')
  {
  }

  lemma Row2()
    ensures ROW2 == Pairs('4') + Pairs('5')
  {
  }

  lemma Row3()
    ensures ROW3 == Pairs('6') + Pairs('7')
  {
  }

  lemma Row4()
    ensures ROW4 == Pairs('8') + Pairs('9')
  {
  }

  lemma RowPairs(r: nat)
    requires r < 5
    ensures Row(r) == Pairs(DigitChar(2 * r)) + Pairs(DigitChar(2 * r + 1))
  {
    Row0(); Row1(); Row2(); Row3(); Row4();
    hide Pairs;
  }

  /** Entry `i` of the table is the numeral of `i` in two digits. */
  lemma LutDigits(i: nat)
    requires i < 100
    ensures Lut(2 * i) == DigitChar(i / 10) && Lut(2 * i + 1) == DigitChar(i % 10)
  {
    hide *;
    var r, t, u := i / 20, i / 10, i % 10;
    PairOffset(i);
    RowPairs(r);
    PairAt(DigitChar(t), u);
    LutAt(2 * i, r, if t == 2 * r then 2 * u else 20 + 2 * u);
    LutAt(2 * i + 1, r, if t == 2 * r then 2 * u + 1 else 20 + 2 * u + 1);
  }

  lemma LutAt(k: nat, r: nat, o: nat)
    requires r < 5 && o < 40 && k == 40 * r + o
    ensures Lut(k) == Row(r)[o]
  {
    hide Row;
    assert k / 40 == r && k % 40 == o;
  }

  lemma PairOffset(i: nat)
    requires i < 100
    ensures var r, t, u := i / 20, i / 10, i % 10;
            && r < 5 && t < 10 && (t == 2 * r || t == 2 * r + 1)
            && 2 * i == 40 * r + (if t == 2 * r then 2 * u else 20 + 2 * u)
  {
  }
}

module FmtInt {
  import opened Decimal
  import opened IntWidths
  import opened Strings
  import opened FmtDigits

  datatype IntKind = U8 | U16 | U32 | U64 | I16 | I32 | I64

  function MaxDigits(k: IntKind): nat {
    match k
    case U64 => 20
    case I64 => 21
    case U32 => 10
    case I32 => 11
    case U16 => 5
    case I16 => 6
    case U8 => 3
  }

  predicate TakesSign(k: IntKind) {
    k == I16 || k == I32 || k == I64
  }

  /** The values of the type, but for the most negative one, whose negation leaves the type. */
  predicate InRange(k: IntKind, v: int) {
    match k
    case U64 => IsUnsigned(W64, v)
    case I64 => IsNegatable(W64, v)
    case U32 => IsUnsigned(W32, v)
    case I32 => IsNegatable(W32, v)
    case U16 => IsUnsigned(W16, v)
    case I16 => IsNegatable(W16, v)
    case U8 => IsUnsigned(W8, v)
  }

  function Magnitude(v: int): nat {
    if v < 0 then -v else v
  }

  lemma NumeralFits(k: IntKind, v: int)
    requires InRange(k, v)
    ensures |Dec(Magnitude(v))| + (if TakesSign(k) then 1 else 0) <= MaxDigits(k) <= 21
    ensures |DecInt(v)| <= MaxDigits(k)
  {
    Powers();
    DecLength(Magnitude(v), if TakesSign(k) then MaxDigits(k) - 1 else MaxDigits(k));
  }

  /** The length that a type asks for is that of its largest unsigned value, and one more for a sign. */
  lemma MaxDigitsIs(k: IntKind)
    ensures var w := match k
                     case U64 => W64
                     case I64 => W64
                     case U32 => W32
                     case I32 => W32
                     case U16 => W16
                     case I16 => W16
                     case U8 => W8;
            MaxDigits(k) == |Dec(Modulus(w) - 1)| + (if TakesSign(k) then 1 else 0)
  {
    hide Dec;
    Powers();
    DecLengthIff(0xFF, 3);
    DecLengthIff(0xFFFF, 5);
    DecLengthIff(0xFFFF_FFFF, 10);
    DecLengthIff(0xFFFF_FFFF_FFFF_FFFF, 20);
  }

  lemma Powers()
    ensures Pow10(3) == 1000 && Pow10(5) == 10_0000 && Pow10(10) == 100_0000_0000
    ensures Pow10(20) == 1_0000_0000_0000_0000_0000
    ensures Pow10(2) == 100 && Pow10(4) == 1_0000 && Pow10(9) == 10_0000_0000 && Pow10(19) == 1000_0000_0000_0000_0000
  {
    assert Pow10(5) == 10_0000;
    assert Pow10(10) == 100_0000_0000;
    assert Pow10(15) == 1000_0000_0000_0000;
  }

  function TwoDigits(m: nat): string
    requires m < 100
  {
    [DigitChar(m / 10), DigitChar(m % 10)]
  }

  /** What the table holds for `m`. */
  function Pair(m: nat): (s: string)
    requires m < 100
    ensures |s| == 2
  {
    [Lut(2 * m), Lut(2 * m + 1)]
  }

  lemma PairDigits(m: nat)
    requires m < 100
    ensures Pair(m) == TwoDigits(m)
  {
    LutDigits(m);
    hide Lut;
  }

  /** A numeral of three digits or more ends in the pair of digits of the remainder by 100. */
  lemma LastPair(v: nat, q: nat, m: nat)
    requires m < 100 && v == 100 * q + m && v >= 10
    ensures q > 0 ==> Dec(v) == Dec(q) + TwoDigits(m)
    ensures q == 0 ==> Dec(v) == TwoDigits(m)
  {
    var t, u := m / 10, m % 10;
    assert v / 10 == 10 * q + t && v % 10 == u;
    assert Dec(v) == Dec(10 * q + t) + [DigitChar(u)];
    if q > 0 {
      assert (10 * q + t) / 10 == q && (10 * q + t) % 10 == t;
      assert Dec(10 * q + t) == Dec(q) + [DigitChar(t)];
    }
  }

  lemma HighPair(v0: nat, v: nat, q: nat, m: nat, tail: string)
    requires m < 100 && v == 100 * q + m && q > 0 && Dec(v0) == Dec(v) + tail
    ensures |Dec(v)| >= 3 && Dec(v0) == Dec(q) + (Pair(m) + tail)
  {
    LastPair(v, q, m);
    PairDigits(m);
    hide *;
    Assoc(Dec(q), Pair(m), tail);
  }

  lemma LowPair(v0: nat, v: nat, tail: string)
    requires 10 <= v < 100 && Dec(v0) == Dec(v) + tail
    ensures |Dec(v)| == 2 && Dec(v0) == Pair(v) + tail
  {
    LastPair(v, 0, v);
    PairDigits(v);
    hide *;
  }

  lemma DecPositive(v: nat)
    ensures |Dec(v)| > 0
    ensures v < 10 ==> Dec(v) == [DigitChar(v)]
  {
  }

  lemma PairIs(m: nat)
    requires m < 100
    ensures Pair(m) == [Lut(2 * m), Lut(2 * m + 1)]
  {
    hide Lut;
  }

  lemma PairPut(before: string, after: string, length: nat, next: nat, x: char, y: char)
    requires 0 < next < length <= |before| && after == before[next := y][next - 1 := x]
    ensures after[next - 1..length] == [x, y] + before[next + 1..length]
  {
    var l, r := after[next - 1..length], [x, y] + before[next + 1..length];
    forall i | 0 <= i < |l| ensures l[i] == r[i] {
    }
  }

  /** Puts the pair for `m` before what stands from `next + 1` on. */
  method PutPair(wr: array<char>, length: nat, next: nat, m: nat)
    requires 0 < next < length <= wr.Length && m < 100
    modifies wr
    ensures wr[next - 1..length] == Pair(m) + old(wr[next + 1..length])
  {
    hide *;
    ghost var before := wr[..];
    var i := 2 * m;
    PairIs(m);
    wr[next] := Lut(i + 1);
    wr[next - 1] := Lut(i);
    assert wr[..] == before[next := Lut(i + 1)][next - 1 := Lut(i)];
    PairPut(before, wr[..], length, next, Lut(i), Lut(i + 1));
    assert wr[next - 1..length] == wr[..][next - 1..length];
    assert before[next + 1..length] == old(wr[next + 1..length]);
  }

  /** The two-digit loop: writes the numeral of `v0` to the end of the first `length` characters of `wr`. */
  method WriteDigits(wr: array<char>, length: nat, v0: nat, neg: bool) returns (next: nat)
    requires length <= wr.Length && |Dec(v0)| + (if neg then 1 else 0) <= length
    modifies wr
    ensures next <= length && wr[next..length] == (if neg then "-" + Dec(v0) else Dec(v0))
  {
    assert wr[length..length] == "" && Dec(v0) + "" == Dec(v0);
    DecPositive(v0);
    hide *;
    var v := v0;
    next := length - 1;
    while v >= 100
      invariant next < length && Dec(v0) == Dec(v) + wr[next + 1..length]
    {
      v, next := TakePair(wr, length, v0, v, next);
    }
    next := WriteLast(wr, length, v0, v, next);
    if neg {
      ghost var digits := wr[next..length];
      next := next - 1;
      wr[next] := '-';
      assert wr[next..length] == "-" + digits;
    }
  }

  method TakePair(wr: array<char>, length: nat, ghost v0: nat, v: nat, next: nat) returns (v': nat, next': nat)
    requires v >= 100 && next < length <= wr.Length && |Dec(v0)| <= length
    requires Dec(v0) == Dec(v) + wr[next + 1..length]
    modifies wr
    ensures v' < v && next' < length && Dec(v0) == Dec(v') + wr[next' + 1..length]
  {
    hide *;
    var m := v % 100;
    v' := v / 100;
    HighPair(v0, v, v', m, wr[next + 1..length]);
    PutPair(wr, length, next, m);
    next' := next - 2;
  }

  method WriteLast(wr: array<char>, length: nat, ghost v0: nat, v: nat, next: nat) returns (next': nat)
    requires v < 100 && next < length <= wr.Length && |Dec(v0)| <= length
    requires Dec(v0) == Dec(v) + wr[next + 1..length]
    modifies wr
    ensures next' <= length && wr[next'..length] == Dec(v0)
  {
    next' := next;
    ghost var tail := wr[next + 1..length];
    DecPositive(v);
    hide *;
    if v < 10 {
      wr[next] := '0' + v as char;
      assert wr[next..length] == [DigitChar(v)] + tail;
    } else {
      LowPair(v0, v, tail);
      PutPair(wr, length, next, v);
      next' := next' - 1;
    }
  }
}

/** The directives, and what a format expands to. */
module FmtSpec {
  import opened Wrappers
  import opened Decimal
  import opened Strings
  import opened FmtInt

  /** `Other` stands for the entries of the table that are not modelled. */
  datatype Directive = Int(kind: IntKind) | Slice | Path | CStr | Null | Other

  datatype Arg = IntArg(v: int) | TextArg(s: string)

  /** `_VD_Fmt_Def_Lut` */
  const TABLE: seq<(string, Directive)> := [
    ("i8", Other), ("i16", Int(I16)), ("i32", Int(I32)), ("i64", Int(I64)),
    ("u8", Int(U8)), ("u16", Int(U16)), ("u32", Int(U32)), ("u64", Int(U64)),
    ("f32", Other), ("f64", Other), ("stru32", Slice), ("stru64", Slice), ("cstr", CStr),
    ("ptr", Other), ("ptrdiff", Other), ("size", Other), ("usize", Other), ("bool", Other),
    ("char", Other), ("void", Other), ("pathu32", Path), ("null", Null)
  ]

  /** The first entry of the table called `name`, from the `i`-th on. */
  function Lookup(name: string, i: nat): Option<Directive>
    requires i <= |TABLE|
    decreases |TABLE| - i
  {
    if i == |TABLE| then None else if TABLE[i].0 == name then Some(TABLE[i].1) else Lookup(name, i + 1)
  }

  /** What `va_arg` yields: the argument in line, or whatever there is when it is not of the kind asked for. */
  type Junk = (nat, Directive) -> Arg

  predicate IsFor(a: Arg, d: Directive) {
    if d.Int? then a.IntArg? && InRange(d.kind, a.v) else a.TextArg?
  }

  function Fetch(args: seq<Arg>, ai: nat, d: Directive, junk: Junk): Arg {
    if ai < |args| && IsFor(args[ai], d) then args[ai] else junk(ai, d)
  }

  function IntOf(k: IntKind, a: Arg): (v: int)
    ensures InRange(k, v)
  {
    if a.IntArg? && InRange(k, a.v) then a.v else 0
  }

  function TextOf(a: Arg): string {
    if a.TextArg? then a.s else ""
  }

  function Slashes(s: string): (r: string)
    ensures |r| == |s| && forall i | 0 <= i < |s| :: r[i] == if s[i] == '\\' then '/' else s[i]
  {
    seq(|s|, i requires 0 <= i < |s| => if s[i] == '\\' then '/' else s[i])
  }

  /** The text of a directive. */
  function Rendered(d: Directive, a: Arg): string {
    match d
    case Int(k) => DecInt(IntOf(k, a))
    case Slice => TextOf(a)
    case CStr => UntilNul(TextOf(a))
    case Path => Slashes(TextOf(a))
    case Null => "\0"
    case Other => ""
  }

  /** An integer directive that finds too little room gives up before it takes its argument, and answers
      the largest length its type can need. */
  predicate GivesUp(d: Directive, room: nat) {
    d.Int? && room < MaxDigits(d.kind) - 1
  }

  function Length(d: Directive, a: Arg, room: nat): nat {
    if GivesUp(d, room) then MaxDigits(d.kind) else |Rendered(d, a)|
  }

  predicate Takes(d: Directive, room: nat) {
    d != Null && !GivesUp(d, room)
  }

  /** The offset of the next closing brace, from `i` on. */
  function Close(fmt: string, i: nat): (r: Option<nat>)
    requires i <= |fmt|
    ensures r.Some? ==> i <= r.value < |fmt|
    decreases |fmt| - i
  {
    if i == |fmt| then None else if fmt[i] == '}' then Some(i) else Close(fmt, i + 1)
  }

  /** One step through a format: a character to be copied, a directive, or the end of an ill-formed one. */
  datatype Step = Copy(c: char) | Expand(d: Directive, next: nat) | Bad

  function StepAt(fmt: string, cf: nat): (s: Step)
    requires cf < |fmt|
    ensures s.Expand? ==> cf < s.next <= |fmt|
    ensures s.Copy? ==> s.c == fmt[cf]
  {
    if fmt[cf] == '%' && cf + 1 < |fmt| && fmt[cf + 1] == '{' then
      match Close(fmt, cf + 2)
      case None => Bad
      case Some(end) =>
        match Lookup(fmt[cf + 2..end], 0)
        case None => Bad
        case Some(d) => Expand(d, end + 1)
    else Copy(fmt[cf])
  }

  function Room(n: nat, nwrite: nat): nat {
    if n < nwrite then 0 else n - nwrite
  }

  /** What `vd_fmt_vsnfmt` answers from `cf` on, with `nwrite` counted so far. */
  function Count(fmt: string, cf: nat, args: seq<Arg>, ai: nat, junk: Junk, nwrite: nat, n: nat): Option<nat>
    requires cf <= |fmt|
    decreases |fmt| - cf
  {
    if cf == |fmt| then Some(nwrite)
    else
      match StepAt(fmt, cf)
      case Copy(_) => Count(fmt, cf + 1, args, ai, junk, nwrite + 1, n)
      case Expand(d, next) =>
        var room := Room(n, nwrite);
        Count(fmt, next, args, if Takes(d, room) then ai + 1 else ai, junk,
              nwrite + Length(d, Fetch(args, ai, d, junk), room), n)
      case Bad => None
  }

  /** The literal text and the rendered arguments, in order. */
  function Text(fmt: string, cf: nat, args: seq<Arg>, ai: nat, junk: Junk): Option<string>
    requires cf <= |fmt|
    decreases |fmt| - cf
  {
    if cf == |fmt| then Some("")
    else
      match StepAt(fmt, cf)
      case Copy(c) => Prepend([c], Text(fmt, cf + 1, args, ai, junk))
      case Expand(d, next) =>
        Prepend(Rendered(d, Fetch(args, ai, d, junk)), Text(fmt, next, args, if d == Null then ai else ai + 1, junk))
      case Bad => None
  }

  function Prepend(s: string, t: Option<string>): Option<string> {
    match t
    case None => None
    case Some(u) => Some(s + u)
  }

  /** Every integer directive finds the room that it asks for, and the whole text fits. */
  predicate Roomy(fmt: string, cf: nat, args: seq<Arg>, ai: nat, junk: Junk, nwrite: nat, n: nat)
    requires cf <= |fmt|
    decreases |fmt| - cf
  {
    if cf == |fmt| then nwrite <= n
    else
      match StepAt(fmt, cf)
      case Copy(_) => Roomy(fmt, cf + 1, args, ai, junk, nwrite + 1, n)
      case Expand(d, next) =>
        && !GivesUp(d, Room(n, nwrite))
        && Roomy(fmt, next, args, if d == Null then ai else ai + 1, junk,
                 nwrite + |Rendered(d, Fetch(args, ai, d, junk))|, n)
      case Bad => true
  }

  /** The format has no directive that is not modelled. */
  predicate Modelled(fmt: string, cf: nat)
    requires cf <= |fmt|
    decreases |fmt| - cf
  {
    cf < |fmt| ==>
      match StepAt(fmt, cf)
      case Copy(_) => Modelled(fmt, cf + 1)
      case Expand(d, next) => d != Other && Modelled(fmt, next)
      case Bad => true
  }

  /** The count never falls. */
  lemma {:induction false} CountGrows(fmt: string, cf: nat, args: seq<Arg>, ai: nat, junk: Junk, nwrite: nat, n: nat)
    requires cf <= |fmt|
    ensures var r := Count(fmt, cf, args, ai, junk, nwrite, n); r.Some? ==> r.value >= nwrite
    decreases |fmt| - cf
  {
    hide StepAt, Lookup, Close, Rendered, Fetch;
    if cf < |fmt| {
      match StepAt(fmt, cf)
      case Copy(_) => CountGrows(fmt, cf + 1, args, ai, junk, nwrite + 1, n);
      case Expand(d, next) =>
        var room := Room(n, nwrite);
        CountGrows(fmt, next, args, if Takes(d, room) then ai + 1 else ai, junk,
                   nwrite + Length(d, Fetch(args, ai, d, junk), room), n);
      case Bad =>
    }
  }

  /** The answer is no larger than the buffer exactly when everything finds its room; it is the length
      of the text then. Whether a format is ill-formed depends on the format alone. */
  lemma {:induction false} CountFitsIff(fmt: string, cf: nat, args: seq<Arg>, ai: nat, junk: Junk, nwrite: nat, n: nat)
    requires cf <= |fmt|
    ensures var r, t := Count(fmt, cf, args, ai, junk, nwrite, n), Text(fmt, cf, args, ai, junk);
            && (r.Some? <==> t.Some?)
            && (r.Some? ==> (r.value <= n <==> Roomy(fmt, cf, args, ai, junk, nwrite, n)))
            && (r.Some? && r.value <= n ==> r.value == nwrite + |t.value|)
    decreases |fmt| - cf
  {
    hide StepAt, Lookup, Close, Rendered, Fetch;
    if cf < |fmt| {
      match StepAt(fmt, cf)
      case Copy(_) => CountFitsIff(fmt, cf + 1, args, ai, junk, nwrite + 1, n);
      case Expand(d, next) =>
        var room := Room(n, nwrite);
        var a := Fetch(args, ai, d, junk);
        if GivesUp(d, room) {
          CountGrows(fmt, next, args, ai, junk, nwrite + MaxDigits(d.kind), n);
          WellFormedAnyway(fmt, next, args, ai, ai + 1, junk, nwrite + MaxDigits(d.kind), n);
        } else {
          CountFitsIff(fmt, next, args, if d == Null then ai else ai + 1, junk, nwrite + |Rendered(d, a)|, n);
        }
      case Bad =>
    }
  }

  lemma {:induction false} WellFormedAnyway(fmt: string, cf: nat, args: seq<Arg>, ai: nat, bi: nat, junk: Junk, nwrite: nat, n: nat)
    requires cf <= |fmt|
    ensures Count(fmt, cf, args, ai, junk, nwrite, n).Some? <==> Text(fmt, cf, args, bi, junk).Some?
    decreases |fmt| - cf
  {
    hide StepAt, Lookup, Close, Rendered, Fetch;
    if cf < |fmt| {
      match StepAt(fmt, cf)
      case Copy(_) => WellFormedAnyway(fmt, cf + 1, args, ai, bi, junk, nwrite + 1, n);
      case Expand(d, next) =>
        var room := Room(n, nwrite);
        WellFormedAnyway(fmt, next, args, if Takes(d, room) then ai + 1 else ai, if d == Null then bi else bi + 1, junk,
                         nwrite + Length(d, Fetch(args, ai, d, junk), room), n);
      case Bad =>
    }
  }
}

/** What each directive prints, wherever in a format it stands. The names and what they stand for are those
    of the notes at the head of `lib/vd_fmt.h`. */
module FmtDirectives {
  import opened Wrappers
  import opened Bits
  import opened Decimal
  import opened IntWidths
  import opened Strings
  import opened FmtInt
  import opened FmtSpec

  /** `%{name}` stands at `cf`. */
  predicate Names(fmt: string, cf: nat, name: string) {
    && cf + |name| + 3 <= |fmt|
    && fmt[cf] == '%' && fmt[cf + 1] == '{'
    && fmt[cf + 2..cf + 2 + |name|] == name
    && fmt[cf + 2 + |name|] == '}'
  }

  /** From `cf` on the format comes to `p`, and then to what it comes to from `next` on. */
  predicate Prints(fmt: string, cf: nat, args: seq<Arg>, ai: nat, junk: Junk, p: string, next: nat, ai': nat)
    requires cf <= |fmt| && next <= |fmt|
  {
    Text(fmt, cf, args, ai, junk) == Prepend(p, Text(fmt, next, args, ai', junk))
  }

  lemma {:induction false} CloseAt(fmt: string, i: nat, end: nat)
    requires i <= end < |fmt| && fmt[end] == '}' && forall j | i <= j < end :: fmt[j] != '}'
    ensures Close(fmt, i) == Some(end)
    decreases end - i
  {
    if i < end {
      CloseAt(fmt, i + 1, end);
    }
  }

  lemma {:induction false} NoClose(fmt: string, i: nat)
    requires i <= |fmt| && forall j | i <= j < |fmt| :: fmt[j] != '}'
    ensures Close(fmt, i) == None
    decreases |fmt| - i
  {
    if i < |fmt| {
      NoClose(fmt, i + 1);
    }
  }

  lemma NamedStep(fmt: string, cf: nat, name: string)
    requires Names(fmt, cf, name) && '}' !in name
    ensures cf < |fmt|
    ensures StepAt(fmt, cf) == match Lookup(name, 0)
                               case Some(d) => Step.Expand(d, cf + |name| + 3)
                               case None => Bad
  {
    hide Lookup;
    var end := cf + 2 + |name|;
    forall j | cf + 2 <= j < end ensures fmt[j] != '}' {
      assert fmt[j] == name[j - cf - 2];
    }
    CloseAt(fmt, cf + 2, end);
    assert fmt[cf + 2..end] == name;
  }

  lemma NamedText(fmt: string, cf: nat, name: string, d: Directive, args: seq<Arg>, ai: nat, junk: Junk)
    requires Names(fmt, cf, name) && '}' !in name && Lookup(name, 0) == Some(d)
    ensures Prints(fmt, cf, args, ai, junk, Rendered(d, Fetch(args, ai, d, junk)), cf + |name| + 3,
                   if d == Null then ai else ai + 1)
  {
    hide *;
    NamedStep(fmt, cf, name);
    NameLength(fmt, cf, name);
    ExpandedText(fmt, cf, d, cf + |name| + 3, args, ai, junk);
  }

  lemma NameLength(fmt: string, cf: nat, name: string)
    requires Names(fmt, cf, name)
    ensures cf + |name| + 3 <= |fmt|
  {
  }

  lemma ExpandedText(fmt: string, cf: nat, d: Directive, next: nat, args: seq<Arg>, ai: nat, junk: Junk)
    requires cf < |fmt| && next <= |fmt| && StepAt(fmt, cf) == Step.Expand(d, next)
    ensures Prints(fmt, cf, args, ai, junk, Rendered(d, Fetch(args, ai, d, junk)), next, if d == Null then ai else ai + 1)
  {
    hide StepAt, Rendered, Fetch;
  }

  lemma {:induction false} FoundAt(name: string, j: nat, i: nat)
    requires j <= i < |TABLE| && TABLE[i].0 == name && forall k | j <= k < i :: TABLE[k].0 != name
    ensures Lookup(name, j) == Some(TABLE[i].1)
    decreases i - j
  {
    if j < i {
      FoundAt(name, j + 1, i);
    }
  }

  lemma TextNames()
    ensures Lookup("stru32", 0) == Some(Slice) && Lookup("stru64", 0) == Some(Slice) && Lookup("cstr", 0) == Some(CStr)
    ensures Lookup("pathu32", 0) == Some(Path) && Lookup("null", 0) == Some(Null)
  {
    hide Lookup;
    FoundAt("stru32", 0, 10);
    FoundAt("stru64", 0, 11);
    FoundAt("cstr", 0, 12);
    FoundAt("pathu32", 0, 20);
    FoundAt("null", 0, 21);
  }

  /** What a directive for text prints of its argument. */
  lemma RenderedText(args: seq<Arg>, ai: nat, junk: Junk)
    requires ai < |args| && args[ai].TextArg?
    ensures Rendered(Path, Fetch(args, ai, Path, junk)) == Slashes(args[ai].s)
    ensures Rendered(Slice, Fetch(args, ai, Slice, junk)) == args[ai].s
    ensures Rendered(CStr, Fetch(args, ai, CStr, junk)) == UntilNul(args[ai].s)
  {
    hide Slashes, UntilNul;
  }

  /** `%{pathu32}` prints the argument with every backslash turned into a slash. */
  lemma PathDirective(fmt: string, cf: nat, args: seq<Arg>, ai: nat, junk: Junk) returns (p: string)
    requires Names(fmt, cf, "pathu32") && ai < |args| && args[ai].TextArg?
    ensures cf + 10 <= |fmt| && |p| == |args[ai].s|
    ensures forall i | 0 <= i < |p| :: p[i] == if args[ai].s[i] == '\\' then '/' else args[ai].s[i]
    ensures Prints(fmt, cf, args, ai, junk, p, cf + 10, ai + 1)
  {
    hide Lookup, Prints, Rendered, Fetch;
    TextNames();
    NamedText(fmt, cf, "pathu32", Path, args, ai, junk);
    RenderedText(args, ai, junk);
    p := Slashes(args[ai].s);
  }

  /** A string slice is printed as it is. */
  lemma SliceDirective(fmt: string, cf: nat, name: string, args: seq<Arg>, ai: nat, junk: Junk)
    requires name == "stru32" || name == "stru64"
    requires Names(fmt, cf, name) && ai < |args| && args[ai].TextArg?
    ensures cf + 9 <= |fmt| && Prints(fmt, cf, args, ai, junk, args[ai].s, cf + 9, ai + 1)
  {
    hide Lookup, Prints, Rendered, Fetch;
    TextNames();
    NamedText(fmt, cf, name, Slice, args, ai, junk);
    RenderedText(args, ai, junk);
  }

  /** A C string is printed up to its first NUL. */
  lemma CStringDirective(fmt: string, cf: nat, args: seq<Arg>, ai: nat, junk: Junk) returns (p: string)
    requires Names(fmt, cf, "cstr") && ai < |args| && args[ai].TextArg?
    ensures p <= args[ai].s && NulFree(p) && (p != args[ai].s ==> args[ai].s[|p|] == '\0')
    ensures cf + 7 <= |fmt| && Prints(fmt, cf, args, ai, junk, p, cf + 7, ai + 1)
  {
    hide Lookup, Prints, Rendered, Fetch, UntilNul;
    TextNames();
    NamedText(fmt, cf, "cstr", CStr, args, ai, junk);
    RenderedText(args, ai, junk);
    p := UntilNul(args[ai].s);
    CutAtNul(args[ai].s);
  }

  /** `%{null}` prints a NUL and takes no argument. */
  lemma NullDirective(fmt: string, cf: nat, args: seq<Arg>, ai: nat, junk: Junk)
    requires Names(fmt, cf, "null")
    ensures cf + 7 <= |fmt| && Prints(fmt, cf, args, ai, junk, ['\0'], cf + 7, ai)
  {
    hide Lookup, Prints, Fetch;
    TextNames();
    NamedText(fmt, cf, "null", Null, args, ai, junk);
  }

  /** `%{u8}` to `%{u64}`: an unsigned value of that many bits is printed so that it reads back. */
  lemma UnsignedDirective(fmt: string, cf: nat, bits: nat, args: seq<Arg>, ai: nat, junk: Junk) returns (p: string)
    requires bits == 8 || bits == 16 || bits == 32 || bits == 64
    requires Names(fmt, cf, "u" + Dec(bits)) && ai < |args| && args[ai].IntArg? && 0 <= args[ai].v < Pow2(bits)
    ensures ReadsAs(p, args[ai].v)
    ensures cf + |Dec(bits)| + 4 <= |fmt| && Prints(fmt, cf, args, ai, junk, p, cf + |Dec(bits)| + 4, ai + 1)
  {
    hide *;
    var k, name := UnsignedKind(bits);
    NameEnds(fmt, cf, "u", Dec(bits));
    NamedText(fmt, cf, name, Int(k), args, ai, junk);
    RenderedInt(k, args, ai, junk);
    p := DecInt(args[ai].v);
    PrintedReads(args[ai].v);
  }

  /** `%{i16}` to `%{i64}`, for all values but the most negative. */
  lemma SignedDirective(fmt: string, cf: nat, bits: nat, args: seq<Arg>, ai: nat, junk: Junk) returns (p: string)
    requires bits == 16 || bits == 32 || bits == 64
    requires Names(fmt, cf, "i" + Dec(bits)) && ai < |args| && args[ai].IntArg?
    requires 0 - Pow2(bits - 1) as int < args[ai].v < Pow2(bits - 1)
    ensures ReadsAs(p, args[ai].v)
    ensures cf + |Dec(bits)| + 4 <= |fmt| && Prints(fmt, cf, args, ai, junk, p, cf + |Dec(bits)| + 4, ai + 1)
  {
    hide *;
    var k, name := SignedKind(bits);
    NameEnds(fmt, cf, "i", Dec(bits));
    NamedText(fmt, cf, name, Int(k), args, ai, junk);
    RenderedInt(k, args, ai, junk);
    p := DecInt(args[ai].v);
    PrintedReads(args[ai].v);
  }

  lemma NameEnds(fmt: string, cf: nat, x: string, y: string)
    requires Names(fmt, cf, x + y) && |x| == 1
    ensures cf + |x + y| + 3 == cf + |y| + 4 <= |fmt|
    ensures Int(U8) != Null && Int(U16) != Null
  {
  }

  lemma RenderedInt(k: IntKind, args: seq<Arg>, ai: nat, junk: Junk)
    requires ai < |args| && args[ai].IntArg? && InRange(k, args[ai].v)
    ensures Rendered(Int(k), Fetch(args, ai, Int(k), junk)) == DecInt(args[ai].v)
    ensures Int(k) != Null
  {
    hide InRange, DecInt;
  }

  lemma UnsignedKind(bits: nat) returns (k: IntKind, name: string)
    requires bits == 8 || bits == 16 || bits == 32 || bits == 64
    ensures name == "u" + Dec(bits) && '}' !in name && Lookup(name, 0) == Some(Int(k))
    ensures forall v | 0 <= v < Pow2(bits) :: InRange(k, v)
  {
    hide Dec, Lookup, Pow2;
    Numerals();
    Widths();
    k := if bits == 8 then U8 else if bits == 16 then U16 else if bits == 32 then U32 else U64;
    name := if bits == 8 then "u8" else if bits == 16 then "u16" else if bits == 32 then "u32" else "u64";
    FoundAt(name, 0, if bits == 8 then 4 else if bits == 16 then 5 else if bits == 32 then 6 else 7);
  }

  lemma SignedKind(bits: nat) returns (k: IntKind, name: string)
    requires bits == 16 || bits == 32 || bits == 64
    ensures name == "i" + Dec(bits) && '}' !in name && Lookup(name, 0) == Some(Int(k))
    ensures forall v | 0 - Pow2(bits - 1) as int < v < Pow2(bits - 1) :: InRange(k, v)
  {
    hide Dec, Lookup, Pow2;
    Numerals();
    Widths();
    k := if bits == 16 then I16 else if bits == 32 then I32 else I64;
    name := if bits == 16 then "i16" else if bits == 32 then "i32" else "i64";
    FoundAt(name, 0, if bits == 16 then 1 else if bits == 32 then 2 else 3);
  }

  lemma Numerals()
    ensures Dec(8) == "8" && Dec(16) == "16" && Dec(32) == "32" && Dec(64) == "64"
  {
    assert Dec(1) == "1" && Dec(3) == "3" && Dec(6) == "6";
  }

  lemma Widths()
    ensures Modulus(W8) == Pow2(8) && Modulus(W16) == Pow2(16) == 2 * Pow2(15)
    ensures Modulus(W32) == Pow2(32) == 2 * Pow2(31) && Modulus(W64) == Pow2(64) == 2 * Pow2(63)
  {
    assert Pow2(4) == 16;
    Pow2Sum(4, 4);
    Pow2Sum(8, 8);
    Pow2Sum(16, 16);
    Pow2Sum(32, 32);
    Pow2Sum(1, 15);
    Pow2Sum(1, 31);
    Pow2Sum(1, 63);
    assert Pow2(1) == 2;
  }

  lemma {:induction false} Pow2Sum(i: nat, j: nat)
    ensures Pow2(i + j) == Pow2(i) * Pow2(j)
  {
    if i > 0 {
      Pow2Sum(i - 1, j);
      assert 2 * (Pow2(i - 1) * Pow2(j)) == (2 * Pow2(i - 1)) * Pow2(j);
    }
  }

  /** Without a brace behind it, a per cent sign is copied, as is every other character. */
  lemma CharacterCopied(fmt: string, cf: nat, args: seq<Arg>, ai: nat, junk: Junk)
    requires cf < |fmt| && (fmt[cf] == '%' && cf + 1 < |fmt| ==> fmt[cf + 1] != '{')
    ensures Prints(fmt, cf, args, ai, junk, [fmt[cf]], cf + 1, ai)
  {
    assert StepAt(fmt, cf) == Copy(fmt[cf]);
    hide StepAt;
  }

  /** Text without a per cent sign is copied. */
  lemma {:induction false} TextCopied(fmt: string, cf: nat, end: nat, args: seq<Arg>, ai: nat, junk: Junk)
    requires cf <= end <= |fmt| && '%' !in fmt[cf..end]
    ensures Prints(fmt, cf, args, ai, junk, fmt[cf..end], end, ai)
    decreases end - cf
  {
    var t := Text(fmt, end, args, ai, junk);
    hide Text;
    if cf == end {
      if t.Some? {
        assert fmt[cf..end] + t.value == t.value;
      }
    } else {
      assert fmt[cf..end][0] == fmt[cf];
      assert fmt[cf..end][1..] == fmt[cf + 1..end];
      CharacterCopied(fmt, cf, args, ai, junk);
      TextCopied(fmt, cf + 1, end, args, ai, junk);
      assert fmt[cf..end] == [fmt[cf]] + fmt[cf + 1..end];
      if t.Some? {
        Assoc([fmt[cf]], fmt[cf + 1..end], t.value);
      }
    }
  }

  /** The loop that begins at `cf` comes to stand at `at`. */
  predicate Comes(fmt: string, cf: nat, at: nat)
    requires cf <= |fmt|
    decreases |fmt| - cf
  {
    cf == at ||
    (cf < |fmt| &&
     match StepAt(fmt, cf)
     case Copy(_) => Comes(fmt, cf + 1, at)
     case Expand(_, next) => Comes(fmt, next, at)
     case Bad => false)
  }

  lemma {:induction false} BadAhead(fmt: string, cf: nat, at: nat, args: seq<Arg>, ai: nat, junk: Junk)
    requires cf <= |fmt| && at < |fmt| && Comes(fmt, cf, at) && StepAt(fmt, at) == Bad
    ensures Text(fmt, cf, args, ai, junk) == None
    decreases |fmt| - cf
  {
    hide StepAt, Rendered, Fetch;
    if cf != at {
      match StepAt(fmt, cf)
      case Copy(_) => BadAhead(fmt, cf + 1, at, args, ai, junk);
      case Expand(d, next) => BadAhead(fmt, next, at, args, if d == Null then ai else ai + 1, junk);
    }
  }

  /** A format that comes to a name that no directive has is ill-formed as a whole. */
  lemma UnknownName(fmt: string, at: nat, name: string, args: seq<Arg>, junk: Junk)
    requires Names(fmt, at, name) && '}' !in name && Comes(fmt, 0, at)
    requires name !in {"i8", "i16", "i32", "i64", "u8", "u16", "u32", "u64", "f32", "f64", "stru32", "stru64", "cstr",
                       "ptr", "ptrdiff", "size", "usize", "bool", "char", "void", "pathu32", "null"}
    ensures Text(fmt, 0, args, 0, junk) == None
  {
    NotListed(name, 0);
    hide Lookup, Comes;
    NamedStep(fmt, at, name);
    hide StepAt;
    BadAhead(fmt, 0, at, args, 0, junk);
  }

  lemma {:induction false} NotListed(name: string, i: nat)
    requires i <= |TABLE|
    requires name !in {"i8", "i16", "i32", "i64", "u8", "u16", "u32", "u64", "f32", "f64", "stru32", "stru64", "cstr",
                       "ptr", "ptrdiff", "size", "usize", "bool", "char", "void", "pathu32", "null"}
    ensures Lookup(name, i) == None
    decreases |TABLE| - i
  {
    if i < |TABLE| {
      NotListed(name, i + 1);
    }
  }

  /** So is one that comes to a brace that is not closed. */
  lemma UnclosedBrace(fmt: string, at: nat, args: seq<Arg>, junk: Junk)
    requires at + 1 < |fmt| && fmt[at] == '%' && fmt[at + 1] == '{' && Comes(fmt, 0, at)
    requires forall j | at + 2 <= j < |fmt| :: fmt[j] != '}'
    ensures Text(fmt, 0, args, 0, junk) == None
  {
    NoClose(fmt, at + 2);
    assert StepAt(fmt, at) == Bad;
    hide StepAt, Comes;
    BadAhead(fmt, 0, at, args, 0, junk);
  }

  /** `%{pathu32}/builtin/%{null}` */
  lemma BuiltinPath(s: string, junk: Junk) returns (p: string)
    ensures |p| == |s| && forall i | 0 <= i < |s| :: p[i] == if s[i] == '\\' then '/' else s[i]
    ensures Text("%{pathu32}" + "/builtin/" + "%{null}", 0, [TextArg(s)], 0, junk) == Some(p + "/builtin/\0")
  {
    hide *;
    var fmt := "%{pathu32}" + "/builtin/" + "%{null}";
    var args := [TextArg(s)];
    BuiltinParts();
    p := PathDirective(fmt, 0, args, 0, junk);
    TextCopied(fmt, 10, 19, args, 1, junk);
    NullDirective(fmt, 19, args, 1, junk);
    PrintsThree(fmt, args, junk, p);
  }

  lemma BuiltinParts()
    ensures var fmt := "%{pathu32}" + "/builtin/" + "%{null}";
            && |fmt| == 26 && Names(fmt, 0, "pathu32") && Names(fmt, 19, "null")
            && fmt[10..19] == "/builtin/" && '%' !in fmt[10..19]
  {
    var a, b, c := "%{pathu32}", "/builtin/", "%{null}";
    var fmt := a + b + c;
    assert fmt[2..9] == a[2..9] == "pathu32";
    assert fmt[21..25] == c[2..6] == "null";
    assert fmt[10..19] == b;
  }

  lemma PrintsThree(fmt: string, args: seq<Arg>, junk: Junk, p: string)
    requires |fmt| == 26 && fmt[10..19] == "/builtin/"
    requires Prints(fmt, 0, args, 0, junk, p, 10, 1) && Prints(fmt, 10, args, 1, junk, fmt[10..19], 19, 1)
    requires Prints(fmt, 19, args, 1, junk, ['\0'], 26, 1)
    ensures Text(fmt, 0, args, 0, junk) == Some(p + "/builtin/\0")
  {
    assert Text(fmt, 26, args, 1, junk) == Some("");
    assert "/builtin/" + (['\0'] + "") == "/builtin/\0";
    hide Text;
  }
}

module Formatter {
  import opened Wrappers
  import opened Decimal
  import opened Strings
  import opened FmtInt
  import opened FmtSpec

  /** The buffer after `text` has been put at `at`, if its length `r` is within `n`. */
  function Placed(out: string, at: nat, n: nat, text: string, r: nat): string
    requires n == 0 || at + n <= |out|
  {
    if 0 < r <= n then out[..at] + text + out[at + r..] else out
  }

  /** `memcpy(out + at, s, |s|)` */
  method CopyOut(out: array<char>, at: nat, s: string)
    requires s == "" || at + |s| <= out.Length
    modifies out
    ensures out[..] == if s == "" then old(out[..]) else old(out[..at]) + s + old(out[at + |s|..])
  {
    forall i | 0 <= i < |s| {
      out[at + i] := s[i];
    }
  }

  /** Copies `s` if there is room for it. */
  method CopyFitting(out: array<char>, at: nat, n: nat, s: string)
    requires n == 0 || at + n <= out.Length
    modifies out
    ensures out[..] == Placed(old(out[..]), at, n, s, |s|)
  {
    if n < |s| {
      return;
    }
    CopyOut(out, at, s);
  }

  /** The integer conversion procedures. */
  method IntToStr(k: IntKind, out: array<char>, at: nat, n: nat, args: seq<Arg>, ai: nat, junk: Junk)
    returns (r: nat, ai': nat)
    requires n == 0 || at + n <= out.Length
    modifies out
    ensures var a := Fetch(args, ai, Int(k), junk);
            && r == Length(Int(k), a, n) && ai' == (if Takes(Int(k), n) then ai + 1 else ai)
            && out[..] == Placed(old(out[..]), at, n, Rendered(Int(k), a), r)
  {
    hide *;
    var length := MaxDigits(k);
    ghost var a := Fetch(args, ai, Int(k), junk);
    IntLength(k, a, n);
    if n < length - 1 {
      NotPlaced(out[..], at, n, Rendered(Int(k), a), length);
      return length, ai;
    }
    var v := IntOf(k, Fetch(args, ai, Int(k), junk));
    ai' := ai + 1;
    var wr := new char[21];
    NumeralFits(k, v);
    var next := IntDigits(wr, k, v);
    r := length - next;
    CopyFitting(out, at, n, wr[next..length]);
  }

  /** What the formatter says of an integer directive. */
  lemma IntLength(k: IntKind, a: Arg, n: nat)
    ensures 0 < MaxDigits(k)
    ensures Rendered(Int(k), a) == DecInt(IntOf(k, a))
    ensures n < MaxDigits(k) - 1 ==> Length(Int(k), a, n) == MaxDigits(k) && !Takes(Int(k), n)
    ensures n >= MaxDigits(k) - 1 ==> Length(Int(k), a, n) == |DecInt(IntOf(k, a))| && Takes(Int(k), n)
  {
    hide DecInt, IntOf;
  }

  lemma NotPlaced(out: string, at: nat, n: nat, text: string, r: nat)
    requires (n == 0 || at + n <= |out|) && n < r
    ensures Placed(out, at, n, text, r) == out
  {
  }

  /** Leaves the numeral of `v`, with its sign, at the end of the first `MaxDigits(k)` characters of scratch. */
  method IntDigits(wr: array<char>, k: IntKind, v: int) returns (next: nat)
    requires InRange(k, v) && wr.Length == 21 && MaxDigits(k) <= 21
    requires |Dec(Magnitude(v))| + (if TakesSign(k) then 1 else 0) <= MaxDigits(k)
    modifies wr
    ensures next <= MaxDigits(k) && wr[next..MaxDigits(k)] == DecInt(v)
  {
    hide Dec, MaxDigits;
    var sgn := TakesSign(k) && v < 0;
    next := WriteDigits(wr, MaxDigits(k), Magnitude(v), sgn);
  }

  /** The string slice and C string procedures. */
  method TextToStr(d: Directive, out: array<char>, at: nat, n: nat, args: seq<Arg>, ai: nat, junk: Junk)
    returns (r: nat, ai': nat)
    requires (d == Slice || d == CStr) && (n == 0 || at + n <= out.Length)
    modifies out
    ensures var a := Fetch(args, ai, d, junk);
            && r == Length(d, a, n) && ai' == ai + 1
            && out[..] == Placed(old(out[..]), at, n, Rendered(d, a), r)
  {
    hide Fetch, TextOf, UntilNul, Placed;
    var v := TextOf(Fetch(args, ai, d, junk));
    ai' := ai + 1;
    if d == CStr {
      v := UntilNul(v);
    }
    r := |v|;
    CopyFitting(out, at, n, v);
  }

  /** `vd_fmt__pathu32_to_str` */
  method PathToStr(out: array<char>, at: nat, n: nat, args: seq<Arg>, ai: nat, junk: Junk)
    returns (r: nat, ai': nat)
    requires n == 0 || at + n <= out.Length
    modifies out
    ensures var a := Fetch(args, ai, Path, junk);
            && r == Length(Path, a, n) && ai' == ai + 1
            && out[..] == Placed(old(out[..]), at, n, Rendered(Path, a), r)
  {
    hide Fetch, TextOf, Placed;
    var v := TextOf(Fetch(args, ai, Path, junk));
    ai' := ai + 1;
    r := |v|;
    if n < r {
      NotPlaced(out[..], at, n, Slashes(v), r);
      return;
    }
    CopyPath(out, at, v);
    IsPlaced(old(out[..]), at, n, Slashes(v), out[..]);
  }

  lemma IsPlaced(before: string, at: nat, n: nat, text: string, after: string)
    requires (n == 0 || at + n <= |before| == |after|) && |text| <= n
    requires |before| == |after|
    requires forall j | 0 <= j < |after| :: after[j] == if at <= j < at + |text| then text[j - at] else before[j]
    ensures after == Placed(before, at, n, text, |text|)
  {
  }

  /** The loop that copies a path. */
  method CopyPath(out: array<char>, at: nat, v: string)
    requires v == "" || at + |v| <= out.Length
    modifies out
    ensures forall j | 0 <= j < out.Length ::
              out[j] == if at <= j < at + |v| then Slashes(v)[j - at] else old(out[j])
  {
    ghost var text := Slashes(v);
    var i := 0;
    while i < |v|
      invariant 0 <= i <= |v|
      invariant forall j | 0 <= j < out.Length :: out[j] == if at <= j < at + i then text[j - at] else old(out[j])
    {
      if v[i] == '\\' {
        out[at + i] := '/';
      } else {
        out[at + i] := v[i];
      }
      i := i + 1;
    }
  }

  /** `vd_fmt__null_to_str` */
  method NullToStr(out: array<char>, at: nat, n: nat) returns (r: nat)
    requires n == 0 || at + n <= out.Length
    modifies out
    ensures r == 1 && out[..] == Placed(old(out[..]), at, n, "\0", r)
  {
    if n < 1 {
      return 1;
    }
    out[at] := '\0';
    return 1;
  }

  /** Calls the procedure of a directive. */
  method Expand(d: Directive, out: array<char>, at: nat, n: nat, args: seq<Arg>, ai: nat, junk: Junk)
    returns (r: nat, ai': nat)
    requires d != Other && (n == 0 || at + n <= out.Length)
    modifies out
    ensures var a := Fetch(args, ai, d, junk);
            && r == Length(d, a, n) && ai' == (if Takes(d, n) then ai + 1 else ai)
            && out[..] == Placed(old(out[..]), at, n, Rendered(d, a), r)
  {
    match d
    case Int(k) => r, ai' := IntToStr(k, out, at, n, args, ai, junk);
    case Slice => r, ai' := TextToStr(d, out, at, n, args, ai, junk);
    case CStr => r, ai' := TextToStr(d, out, at, n, args, ai, junk);
    case Path => r, ai' := PathToStr(out, at, n, args, ai, junk);
    case Null =>
      r := NullToStr(out, at, n);
      ai' := ai;
  }

  /** The loop that looks for the closing brace. */
  method FindClose(fmt: string, beg: nat) returns (end: nat)
    requires beg <= |fmt|
    ensures beg <= end <= |fmt| && Close(fmt, beg) == (if end < |fmt| then Some(end) else None)
  {
    end := beg;
    while end < |fmt| && fmt[end] != '}'
      invariant beg <= end <= |fmt| && Close(fmt, beg) == Close(fmt, end)
    {
      end := end + 1;
    }
  }

  /** The loop over the table. */
  method FindDirective(name: string) returns (d: Option<Directive>)
    ensures d == Lookup(name, 0)
  {
    var i := 0;
    while i < |TABLE|
      invariant 0 <= i <= |TABLE| && Lookup(name, i) == Lookup(name, 0)
    {
      if |TABLE[i].0| == |name| && TABLE[i].0 == name {
        return Some(TABLE[i].1);
      }
      i := i + 1;
    }
    return None;
  }

  /** What the expansion has come to at `cf`: beyond `n` nothing has been written, and as long as the
      count is within `n`, what has been written is the text up to here. */
  ghost predicate Expanding(before: string, out: string, n: nat, fmt: string, cf: nat, args: seq<Arg>, ai: nat, junk: Junk,
                            nwrite: nat)
  {
    && n <= |out| == |before| && cf <= |fmt| && Modelled(fmt, cf)
    && out[n..] == before[n..]
    && Count(fmt, cf, args, ai, junk, nwrite, n) == Count(fmt, 0, args, 0, junk, 0, n)
    && (nwrite <= n ==> Prepend(out[..nwrite], Text(fmt, cf, args, ai, junk)) == Text(fmt, 0, args, 0, junk))
  }

  lemma ExpandingStart(out: string, n: nat, fmt: string, args: seq<Arg>, junk: Junk)
    requires n <= |out| && Modelled(fmt, 0)
    ensures Expanding(out, out, n, fmt, 0, args, 0, junk, 0)
  {
    var t := Text(fmt, 0, args, 0, junk);
    if t.Some? {
      assert out[..0] + t.value == t.value;
    }
  }

  lemma CopyStep(before: string, out: string, n: nat, fmt: string, cf: nat, args: seq<Arg>, ai: nat, junk: Junk, nwrite: nat)
    requires Expanding(before, out, n, fmt, cf, args, ai, junk, nwrite)
    requires cf < |fmt| && StepAt(fmt, cf) == Copy(fmt[cf])
    ensures Expanding(before, if nwrite < n then out[nwrite := fmt[cf]] else out, n, fmt, cf + 1, args, ai, junk, nwrite + 1)
  {
    var t := Text(fmt, cf + 1, args, ai, junk);
    if nwrite < n {
      var out' := out[nwrite := fmt[cf]];
      assert out'[..nwrite + 1] == out[..nwrite] + [fmt[cf]];
      if t.Some? {
        Assoc(out[..nwrite], [fmt[cf]], t.value);
      }
    }
  }

  lemma ExpandStep(before: string, out: string, n: nat, fmt: string, cf: nat, args: seq<Arg>, ai: nat, junk: Junk, nwrite: nat,
                   d: Directive, next: nat)
    requires Expanding(before, out, n, fmt, cf, args, ai, junk, nwrite)
    requires cf < |fmt| && StepAt(fmt, cf) == Step.Expand(d, next)
    ensures var room := Room(n, nwrite);
            var a := Fetch(args, ai, d, junk);
            var r := Length(d, a, room);
            && d != Other && (room == 0 || nwrite + room <= |out|)
            && Expanding(before, Placed(out, nwrite, room, Rendered(d, a), r), n, fmt, next, args,
                         if Takes(d, room) then ai + 1 else ai, junk, nwrite + r)
  {
    hide Rendered, Fetch, StepAt, Placed, Length, GivesUp, Takes;
    var room := Room(n, nwrite);
    var a := Fetch(args, ai, d, junk);
    var r := Length(d, a, room);
    WithinRoom(d, a, room);
    PlacedBehind(before, out, n, nwrite, Rendered(d, a), r);
    if nwrite + r <= n {
      var t := Text(fmt, next, args, if d == Null then ai else ai + 1, junk);
      if t.Some? {
        Assoc(out[..nwrite], Rendered(d, a), t.value);
      }
    }
  }

  /** A length within the room is that of the text, and then the argument has been taken. */
  lemma WithinRoom(d: Directive, a: Arg, room: nat)
    ensures Length(d, a, room) <= room ==> Length(d, a, room) == |Rendered(d, a)|
    ensures Length(d, a, room) <= room ==> (Takes(d, room) <==> d != Null)
  {
    hide Rendered;
  }

  lemma PlacedBehind(before: string, out: string, n: nat, nwrite: nat, text: string, r: nat)
    requires n <= |out| == |before| && out[n..] == before[n..]
    requires r <= Room(n, nwrite) ==> r == |text|
    ensures var room := Room(n, nwrite);
            && (room == 0 || nwrite + room <= |out|)
            && var out' := Placed(out, nwrite, room, text, r);
            && |out'| == |before| && out'[n..] == before[n..]
            && (nwrite + r <= n ==> out'[..nwrite + r] == out[..nwrite] + text)
  {
    var room := Room(n, nwrite);
    if 0 < r <= room {
      var out' := Placed(out, nwrite, room, text, r);
      assert out' == out[..nwrite] + text + out[nwrite + r..];
      forall i | n <= i < |out| ensures out'[i] == before[i] {
        assert out'[i] == out[i] == out[n..][i - n] == before[n..][i - n];
      }
      assert out'[..nwrite + r] == out[..nwrite] + text;
    } else if nwrite + r <= n {
      assert out[..nwrite] + "" == out[..nwrite];
    }
  }

  lemma ExpandingEnd(before: string, out: string, n: nat, fmt: string, args: seq<Arg>, ai: nat, junk: Junk, nwrite: nat)
    requires Expanding(before, out, n, fmt, |fmt|, args, ai, junk, nwrite)
    ensures Count(fmt, 0, args, 0, junk, 0, n) == Some(nwrite)
    ensures nwrite <= n ==> Text(fmt, 0, args, 0, junk) == Some(out[..nwrite])
  {
    assert nwrite <= n ==> out[..nwrite] + "" == out[..nwrite];
  }

  /** `vd_fmt_vsnfmt`. An answer within the buffer certifies that the text is there, in full. */
  method Vsnfmt(out: array<char>, n: nat, fmt: string, args: seq<Arg>, junk: Junk) returns (r: nat)
    requires NulFree(fmt) && n <= out.Length && Modelled(fmt, 0)
    modifies out
    ensures out[n..] == old(out[n..])
    ensures var text := Text(fmt, 0, args, 0, junk);
            if text.None? then r == 0
            else
              && Count(fmt, 0, args, 0, junk, 0, n) == Some(r)
              && (r <= n <==> Roomy(fmt, 0, args, 0, junk, 0, n))
              && (r <= n ==> out[..r] == text.value)
  {
    ghost var before := out[..];
    CountFitsIff(fmt, 0, args, 0, junk, 0, n);
    ExpandingStart(before, n, fmt, args, junk);
    var cf, nwrite, ai := 0, 0, 0;
    hide *;
    while cf < |fmt|
      invariant cf <= |fmt| && n <= out.Length
      invariant Expanding(before, out[..], n, fmt, cf, args, ai, junk, nwrite)
    {
      var ok;
      ok, cf, nwrite, ai := Turn(before, out, n, fmt, cf, args, ai, junk, nwrite);
      if !ok {
        return 0;
      }
    }
    ExpandingEnd(before, out[..], n, fmt, args, ai, junk, nwrite);
    return nwrite;
  }

  /** One turn of the loop. */
  method Turn(ghost before: string, out: array<char>, n: nat, fmt: string, cf: nat, args: seq<Arg>, ai: nat, junk: Junk, nwrite: nat)
    returns (ok: bool, cf': nat, nwrite': nat, ai': nat)
    requires n <= out.Length && cf < |fmt|
    requires Expanding(before, out[..], n, fmt, cf, args, ai, junk, nwrite)
    modifies out
    ensures cf < cf' <= |fmt|
    ensures ok ==> Expanding(before, out[..], n, fmt, cf', args, ai', junk, nwrite')
    ensures !ok ==> out[n..] == before[n..] && Text(fmt, 0, args, 0, junk).None?
  {
    hide *;
    ok, cf', nwrite', ai' := true, cf + 1, nwrite, ai;
    var step := NextStep(fmt, cf);
    match step {
      case Copy(c) =>
        CopyStep(before, out[..], n, fmt, cf, args, ai, junk, nwrite);
        ghost var o := out[..];
        if nwrite < n {
          out[nwrite] := c;
          assert out[..] == o[nwrite := c];
        }
        nwrite' := nwrite + 1;
      case Expand(d, next) =>
        ExpandStep(before, out[..], n, fmt, cf, args, ai, junk, nwrite, d, next);
        var r;
        r, ai' := Expand(d, out, nwrite, Room(n, nwrite), args, ai, junk);
        nwrite', cf' := nwrite + r, next;
      case Bad =>
        BadStep(before, out[..], n, fmt, cf, args, ai, junk, nwrite);
        ok := false;
    }
  }

  /** What stands at `cf`. */
  method NextStep(fmt: string, cf: nat) returns (step: Step)
    requires cf < |fmt|
    ensures step == StepAt(fmt, cf)
  {
    hide Close, Lookup;
    if fmt[cf] == '%' && cf + 1 < |fmt| && fmt[cf + 1] == '{' {
      var end := FindClose(fmt, cf + 2);
      if end == |fmt| {
        return Bad;
      }
      var d := FindDirective(fmt[cf + 2..end]);
      step := if d.Some? then Step.Expand(d.value, end + 1) else Bad;
    } else {
      step := Copy(fmt[cf]);
    }
  }

  lemma BadStep(before: string, out: string, n: nat, fmt: string, cf: nat, args: seq<Arg>, ai: nat, junk: Junk, nwrite: nat)
    requires Expanding(before, out, n, fmt, cf, args, ai, junk, nwrite)
    requires cf < |fmt| && StepAt(fmt, cf) == Bad
    ensures Text(fmt, 0, args, 0, junk).None? && out[n..] == before[n..]
  {
    CountFitsIff(fmt, 0, args, 0, junk, 0, n);
    hide StepAt, Roomy;
  }
}
