/** The atomic bump allocation of `lib/arena.h`, as threads that take steps. A call of `vd_arena_alloc_t`
    reads `begin` to compute its padding, reads it again to see what is left, and then adds to it
    atomically; the steps of different threads interleave freely. */
module ArenaPadding {
  import opened Bits

  /** `x` is a multiple of the power of two `a`. */
  predicate Aligned(x: nat, a: nat) {
    IsPow2(a) && BitAnd(x, a - 1) == 0
  }

  /** `-(uintptr_t)begin` */
  function Negate(b: nat): nat
    requires b < Word()
  {
    if b == 0 then 0 else Word() - b
  }

  /** `-(uintptr_t)begin & (align - 1)` */
  function Padding(b: nat, a: nat): nat
    requires b < Word() && a > 0
  {
    BitAnd(Negate(b), a - 1)
  }

  /** The mask takes the remainder. */
  lemma {:induction false} MaskParts(x: nat, a: nat) returns (q: nat)
    requires IsPow2(a)
    ensures x == q * a + BitAnd(x, a - 1) && BitAnd(x, a - 1) < a
  {
    if a == 1 {
      q := x;
    } else if x == 0 {
      q := 0;
    } else {
      Pow2Half(a);
      MaskHalves(x, a);
      var h, y := a / 2, x / 2;
      assert a == 2 * h && x == 2 * y + x % 2;
      hide *;
      q := MaskParts(y, h);
      DoubleMul(q, h);
    }
  }

  lemma DoubleMul(q: nat, h: nat)
    ensures q * (2 * h) == 2 * (q * h)
  {
  }

  lemma MultipleAligned(q: nat, a: nat)
    requires IsPow2(a)
    ensures Aligned(q * a, a)
  {
    var q' := MaskParts(q * a, a);
    EuclidUnique(a, q, 0, q', BitAnd(q * a, a - 1));
  }

  lemma AlignedQuotient(x: nat, a: nat) returns (q: nat)
    requires Aligned(x, a)
    ensures x == q * a
  {
    q := MaskParts(x, a);
  }

  lemma AlignedPow2(x: nat, a: nat)
    requires Aligned(x, a)
    ensures IsPow2(a) && a > 0
  {
  }

  lemma AlignedSum(x: nat, y: nat, a: nat)
    requires Aligned(x, a)
    ensures Aligned(x + y, a) <==> Aligned(y, a)
  {
    AlignedPow2(x, a);
    hide *;
    var i := AlignedQuotient(x, a);
    if Aligned(y, a) {
      var j := AlignedQuotient(y, a);
      assert (i + j) * a == i * a + j * a;
      MultipleAligned(i + j, a);
    }
    if Aligned(x + y, a) {
      var k := AlignedQuotient(x + y, a);
      NotBelow(i, k, a, y);
      assert (k - i) * a == k * a - i * a;
      MultipleAligned(k - i, a);
    }
  }

  /** What is a multiple of a power of two is a multiple of every smaller one. */
  lemma AlignedSmaller(x: nat, a: nat, b: nat)
    requires Aligned(x, a) && IsPow2(b) && b <= a
    ensures Aligned(x, b)
  {
    AlignedPow2(x, a);
    hide *;
    var i := AlignedQuotient(x, a);
    var j := Pow2Multiple(b, a);
    MulAssoc(i, j, b);
    MultipleAligned(i * j, b);
  }

  lemma MulAssoc(i: nat, j: nat, b: nat)
    ensures (i * j) * b == i * (j * b)
  {
  }

  lemma NotBelow(i: nat, k: nat, a: nat, y: nat)
    requires a > 0 && k * a == i * a + y
    ensures i <= k
  {
    assert (i - k) * a == 0 - y as int by { assert (i - k) * a == i * a - k * a; }
    if k < i {
      MulAtLeast(i - k, a);
    }
  }

  /** The padding is the least that takes `begin` to a multiple of the alignment. */
  lemma PaddingAligns(b: nat, a: nat)
    requires b < Word() && IsPow2(a) && a <= Word()
    ensures Padding(b, a) < a && Aligned(b + Padding(b, a), a)
    ensures Aligned(b, a) ==> Padding(b, a) == 0
  {
    hide *;
    PaddingReaches(b, a);
    if Aligned(b, a) {
      AlignedSum(b, Padding(b, a), a);
      SmallMultiple(Padding(b, a), a);
    }
  }

  lemma PaddingReaches(b: nat, a: nat)
    requires b < Word() && IsPow2(a) && a <= Word()
    ensures Padding(b, a) < a && Aligned(b + Padding(b, a), a)
  {
    if b == 0 {
      ZeroPadding(a);
    } else {
      Pow2IsPow2(WORD_BITS);
      assert IsPow2(Word());
      hide *;
      var w := Pow2Multiple(a, Word());
      ComplementAligned(w, a, b);
    }
  }

  lemma ZeroPadding(a: nat)
    requires IsPow2(a)
    ensures Padding(0, a) == 0 < a && Aligned(0, a)
  {
  }

  lemma ComplementAligned(w: nat, a: nat, b: nat)
    requires IsPow2(a) && 0 < b < Word() == w * a
    ensures Padding(b, a) < a && Aligned(b + Padding(b, a), a)
  {
    hide *;
    var x, p := NegateMask(b, a);
    var q := MaskParts(x, a);
    NotBelow(q, w, a, p + b);
    assert (w - q) * a == w * a - q * a;
    MultipleAligned(w - q, a);
  }

  lemma NegateMask(b: nat, a: nat) returns (x: nat, p: nat)
    requires IsPow2(a) && 0 < b < Word()
    ensures x + b == Word() && a > 0 && p == BitAnd(x, a - 1) == Padding(b, a)
  {
    x, p := Negate(b), Padding(b, a);
  }

  lemma SmallMultiple(p: nat, a: nat)
    requires Aligned(p, a) && p < a
    ensures p == 0
  {
    var q := MaskParts(p, a);
    hide *;
    if q > 0 {
      MulAtLeast(q, a);
    }
  }
}

module ArenaAlloc {
  import opened Wrappers
  import opened Bits
  import opened ArenaPadding

  /** What a thread is about to do in its call, with what it has read. */
  datatype Pc =
    | Idle
    | Checking(size: nat, align: nat, padding: nat, seen: nat)
    | Adding(size: nat, align: nat, padding: nat, seen: nat)

  /** A region that a call has returned, at `lo`; the call has taken the bytes from `claim` on. */
  datatype Region = Region(claim: nat, lo: nat, size: nat, align: nat)

  datatype Arena = Arena(data: nat, begin: nat, end: nat, threads: map<nat, Pc>, granted: seq<Region>)

  datatype Action =
    | Read(t: nat, size: nat, align: nat)
    | Check(t: nat)
    | Add(t: nat)
    | Reset

  function At(s: Arena, t: nat): Pc {
    if t in s.threads then s.threads[t] else Idle
  }

  /** `vd_arena_new` */
  function New(data: nat, size: nat): Arena {
    Arena(data, data, data + size, map[], [])
  }

  predicate Enabled(s: Arena, a: Action) {
    match a
    case Read(t, _, align) => At(s, t).Idle? && IsPow2(align) && align <= Word() && s.begin < Word()
    case Check(t) => At(s, t).Checking?
    case Add(t) => At(s, t).Adding?
    case Reset => true
  }

  /** The region that adding returns, if it does not lie past the end. */
  function Granted(s: Arena, pc: Pc): Option<Region>
    requires pc.Adding?
  {
    var p := s.begin + pc.padding;
    if p + pc.size > s.end then None else Some(Region(s.begin, p, pc.size, pc.align))
  }

  function Step(s: Arena, a: Action): Arena
    requires Enabled(s, a)
  {
    match a
    case Read(t, size, align) =>
      s.(threads := s.threads[t := Checking(size, align, Padding(s.begin, align), s.begin)])
    case Check(t) =>
      var pc := At(s, t);
      var available := s.end - s.begin - pc.padding;
      s.(threads := s.threads[t := if available < 0 then Idle else Adding(pc.size, pc.align, pc.padding, pc.seen)])
    case Add(t) =>
      var pc := At(s, t);
      var g := Granted(s, pc);
      s.(begin := s.begin + pc.padding + pc.size,
         threads := s.threads[t := Idle],
         granted := if g.Some? then s.granted + [g.value] else s.granted)
    case Reset => s.(begin := s.data, granted := [])
  }

  /** What a thread carries is the padding for the `begin` that it has seen. */
  predicate Computed(pc: Pc) {
    !pc.Idle? ==>
      IsPow2(pc.align) && pc.align <= Word() && pc.seen < Word() && pc.padding == Padding(pc.seen, pc.align)
  }

  /** The regions returned since the last reset lie in the arena, one behind the other. */
  ghost predicate Inv(s: Arena) {
    && s.data <= s.begin && s.data <= s.end
    && (forall t | t in s.threads :: Computed(s.threads[t]))
    && (forall i | 0 <= i < |s.granted| ::
          var r := s.granted[i];
          s.data <= r.claim <= r.lo && r.lo + r.size <= s.end && r.lo + r.size <= s.begin)
    && (forall i, j | 0 <= i < j < |s.granted| :: s.granted[i].lo + s.granted[i].size <= s.granted[j].claim)
  }

  predicate IsRun(s: Arena, actions: seq<Action>)
    decreases |actions|
  {
    actions == [] || (Enabled(s, actions[0]) && IsRun(Step(s, actions[0]), actions[1..]))
  }

  function Run(s: Arena, actions: seq<Action>): Arena
    requires IsRun(s, actions)
    decreases |actions|
  {
    if actions == [] then s else Run(Step(s, actions[0]), actions[1..])
  }

  lemma StepKeepsInv(s: Arena, a: Action)
    requires Inv(s) && Enabled(s, a)
    ensures Inv(Step(s, a)) && Step(s, a).data == s.data && Step(s, a).end == s.end
  {
    hide Padding, IsPow2, Word;
  }

  lemma {:induction false} RunKeepsInv(s: Arena, actions: seq<Action>)
    requires Inv(s) && IsRun(s, actions)
    ensures var s' := Run(s, actions); Inv(s') && s'.data == s.data && s'.end == s.end
    decreases |actions|
  {
    if actions != [] {
      StepKeepsInv(s, actions[0]);
      RunKeepsInv(Step(s, actions[0]), actions[1..]);
    }
  }

  /** In every run of any number of threads, the regions returned since the last reset are pairwise
      disjoint and lie in the arena. */
  lemma RegionsDisjoint(data: nat, size: nat, actions: seq<Action>, i: nat, j: nat)
    requires IsRun(New(data, size), actions)
    requires i < |Run(New(data, size), actions).granted| && j < |Run(New(data, size), actions).granted| && i != j
    ensures var g := Run(New(data, size), actions).granted;
            && data <= g[i].lo && g[i].lo + g[i].size <= data + size
            && (g[i].lo + g[i].size <= g[j].lo || g[j].lo + g[j].size <= g[i].lo)
  {
    RunKeepsInv(New(data, size), actions);
  }

  /** Once `begin` has passed the end, no call succeeds until the next reset. */
  lemma {:induction false} ExhaustedForGood(s: Arena, actions: seq<Action>)
    requires s.begin > s.end && IsRun(s, actions) && Reset !in actions
    ensures Run(s, actions).granted == s.granted && Run(s, actions).begin > s.end
    decreases |actions|
  {
    if actions != [] {
      assert actions[0] != Reset;
      assert Reset !in actions[1..];
      ExhaustedForGood(Step(s, actions[0]), actions[1..]);
    }
  }

  /** The region has the alignment that was asked for, no larger than `most`. */
  predicate IsAligned(r: Region, most: nat) {
    IsPow2(r.align) && r.align <= most && Aligned(r.lo, r.align)
  }

  /** The regions are aligned, `begin` is, and so no thread has any padding. */
  ghost predicate InvAligned(s: Arena, most: nat) {
    && Aligned(s.data, most) && Aligned(s.begin, most)
    && (forall i | 0 <= i < |s.granted| :: IsAligned(s.granted[i], most))
    && (forall t | t in s.threads :: Unpadded(s.threads[t], most))
  }

  predicate Unpadded(pc: Pc, most: nat) {
    !pc.Idle? ==> pc.padding == 0 && Aligned(pc.size, most) && IsPow2(pc.align) && pc.align <= most
  }

  /** Every request is for a multiple of `most`, at an alignment up to `most`. */
  predicate Sized(actions: seq<Action>, most: nat) {
    forall i | 0 <= i < |actions| :: actions[i].Read? ==> actions[i].align <= most && Aligned(actions[i].size, most)
  }

  lemma StepKeepsAligned(s: Arena, a: Action, most: nat)
    requires InvAligned(s, most) && Enabled(s, a) && Sized([a], most)
    ensures InvAligned(Step(s, a), most)
  {
    hide Padding, Aligned, IsPow2;
    assert [a][0] == a;
    match a
    case Read(t, size, align) =>
      AlignedSmaller(s.begin, most, align);
      PaddingAligns(s.begin, align);
    case Check(t) =>
      assert Unpadded(s.threads[t], most);
    case Add(t) =>
      assert Unpadded(s.threads[t], most);
      AlignedSum(s.begin, At(s, t).size, most);
      AlignedSmaller(s.begin, most, At(s, t).align);
    case Reset =>
  }

  /** When the base and all sizes are multiples of the largest alignment that is asked for, every returned
      pointer has the alignment asked for, in every run. */
  lemma {:induction false} RegionsAligned(s: Arena, actions: seq<Action>, most: nat)
    requires InvAligned(s, most) && IsRun(s, actions) && Sized(actions, most)
    ensures InvAligned(Run(s, actions), most)
    decreases |actions|
  {
    if actions != [] {
      assert Sized([actions[0]], most);
      StepKeepsAligned(s, actions[0], most);
      RegionsAligned(Step(s, actions[0]), actions[1..], most);
    }
  }

  function Distance(x: nat, y: nat): nat {
    if x <= y then y - x else x - y
  }

  /** A call adds the padding for the `begin` that it has seen: its pointer is aligned if and only if
      `begin` has since moved by a multiple of the alignment. */
  lemma GrantAlignedIff(s: Arena, t: nat)
    requires Inv(s) && At(s, t).Adding?
    ensures var pc := At(s, t);
            var g := Granted(s, pc);
            g.Some? ==> (Aligned(g.value.lo, pc.align) <==> Aligned(Distance(pc.seen, s.begin), pc.align))
  {
    hide Aligned, Padding, IsPow2, Distance;
    var pc := At(s, t);
    assert Computed(pc);
    PaddingAligns(pc.seen, pc.align);
    ShiftAligned(pc.seen, s.begin, pc.padding, pc.align);
  }

  lemma ShiftAligned(x: nat, y: nat, p: nat, a: nat)
    requires Aligned(x + p, a)
    ensures Aligned(y + p, a) <==> Aligned(Distance(x, y), a)
  {
    hide Aligned;
    var d := Distance(x, y);
    if x <= y {
      AlignedSum(x + p, d, a);
    } else if Aligned(d, a) {
      AlignedSum(d, y + p, a);
    } else if Aligned(y + p, a) {
      AlignedSum(y + p, d, a);
    }
  }

  /** A call with no other thread in between. */
  lemma CallAlone(s: Arena, t: nat, size: nat, align: nat)
    requires Inv(s) && Enabled(s, Read(t, size, align))
    ensures var p := Padding(s.begin, align);
            var s1 := Step(s, Read(t, size, align));
            && Inv(s1) && Enabled(s1, Check(t)) && s1.begin == s.begin && s1.granted == s.granted
            && At(s1, t) == Checking(size, align, p, s.begin)
            && p < align && Aligned(s.begin + p, align)
            && var s2 := Step(s1, Check(t));
            && Inv(s2) && s2.begin == s.begin && s2.granted == s.granted
            && At(s2, t) == (if s.begin + p > s.end then Idle else Adding(size, align, p, s.begin))
            && (At(s2, t).Adding? ==>
                  && Enabled(s2, Add(t)) && Inv(Step(s2, Add(t)))
                  && At(Step(s2, Add(t)), t).Idle? && Step(s2, Add(t)).begin == s.begin + p + size
                  && Granted(s2, At(s2, t)) == if s.begin + p + size > s.end then None
                                               else Some(Region(s.begin, s.begin + p, size, align)))
  {
    hide *;
    ReadAlone(s, t, size, align);
    var s1 := Step(s, Read(t, size, align));
    CheckAlone(s1, t, size, align, Padding(s.begin, align));
    var s2 := Step(s1, Check(t));
    if At(s2, t).Adding? {
      AddAlone(s2, t);
    }
  }

  lemma ReadAlone(s: Arena, t: nat, size: nat, align: nat)
    requires Inv(s) && Enabled(s, Read(t, size, align))
    ensures s.begin < Word() && align > 0
    ensures var p := Padding(s.begin, align);
            var s1 := Step(s, Read(t, size, align));
            && Inv(s1) && Enabled(s1, Check(t)) && s1.begin == s.begin && s1.granted == s.granted && s1.end == s.end
            && At(s1, t) == Checking(size, align, p, s.begin)
            && p < align && Aligned(s.begin + p, align)
  {
    hide Aligned, Padding, Inv;
    StepKeepsInv(s, Read(t, size, align));
    PaddingAligns(s.begin, align);
  }

  lemma CheckAlone(s: Arena, t: nat, size: nat, align: nat, p: nat)
    requires Inv(s) && At(s, t) == Checking(size, align, p, s.begin) && Enabled(s, Check(t))
    ensures var s2 := Step(s, Check(t));
            && Inv(s2) && s2.begin == s.begin && s2.granted == s.granted && s2.end == s.end
            && At(s2, t) == (if s.begin + p > s.end then Idle else Adding(size, align, p, s.begin))
  {
    hide Inv;
    StepKeepsInv(s, Check(t));
  }

  lemma AddAlone(s: Arena, t: nat)
    requires Inv(s) && At(s, t).Adding?
    ensures var pc := At(s, t);
            && Enabled(s, Add(t)) && Inv(Step(s, Add(t)))
            && At(Step(s, Add(t)), t).Idle? && Step(s, Add(t)).begin == s.begin + pc.padding + pc.size
            && Granted(s, pc) == if s.begin + pc.padding + pc.size > s.end then None
                                 else Some(Region(s.begin, s.begin + pc.padding, pc.size, pc.align))
  {
    hide Inv;
    StepKeepsInv(s, Add(t));
  }

  /** Thread 0 asks for `m` bytes, and thread 1 for `n` before thread 0 adds. */
  function Interleaved(m: nat, n: nat, align: nat): seq<Action> {
    [Read(0, m, align), Check(0), Read(1, n, align), Check(1), Add(1), Add(0)]
  }

  /** Then thread 0 gets the bytes behind those of thread 1, aligned or not. */
  lemma InterleavedRun(data: nat, size: nat, m: nat, n: nat, align: nat)
    requires IsPow2(align) && align <= Word() && data < Word() && Aligned(data, align) && m + n <= size
    ensures IsRun(New(data, size), Interleaved(m, n, align))
    ensures Run(New(data, size), Interleaved(m, n, align)).granted
            == [Region(data, data, n, align), Region(data + n, data + n, m, align)]
  {
    hide IsPow2, Aligned, Padding, Word, Run, IsRun;
    var s0 := New(data, size);
    var s1 := s0.(threads := s0.threads[0 := Adding(m, align, 0, data)]);
    var s2 := s1.(threads := s1.threads[1 := Adding(n, align, 0, data)]);
    AddBoth(s2, m, n, align);
    ReadAndCheck(s1, 1, n, align, [Add(1), Add(0)]);
    ReadAndCheck(s0, 0, m, align, [Read(1, n, align), Check(1)] + [Add(1), Add(0)]);
    assert Interleaved(m, n, align)
        == [Read(0, m, align), Check(0)] + ([Read(1, n, align), Check(1)] + [Add(1), Add(0)]);
  }

  /** A thread that is about to add, where `begin` has the alignment. */
  lemma ReadAndCheck(s: Arena, t: nat, size: nat, align: nat, rest: seq<Action>)
    requires Aligned(s.begin, align) && s.begin <= s.end && Enabled(s, Read(t, size, align))
    requires IsRun(s.(threads := s.threads[t := Adding(size, align, 0, s.begin)]), rest)
    ensures IsRun(s, [Read(t, size, align), Check(t)] + rest)
    ensures Run(s, [Read(t, size, align), Check(t)] + rest)
            == Run(s.(threads := s.threads[t := Adding(size, align, 0, s.begin)]), rest)
  {
    hide Aligned, Padding, Run, IsRun, IsPow2, Word;
    assert align > 0 && s.begin < Word() && IsPow2(align) && align <= Word() by { AlignedPow2(s.begin, align); }
    PaddingAligns(s.begin, align);
    var s1 := Step(s, Read(t, size, align));
    var s2 := Step(s1, Check(t));
    assert s2.threads == s.threads[t := Adding(size, align, 0, s.begin)];
    RunOne(s1, Check(t), rest);
    RunOne(s, Read(t, size, align), [Check(t)] + rest);
    assert [Read(t, size, align), Check(t)] + rest == [Read(t, size, align)] + ([Check(t)] + rest);
  }

  lemma AddBoth(s: Arena, m: nat, n: nat, align: nat)
    requires At(s, 0) == Adding(m, align, 0, s.begin) && At(s, 1) == Adding(n, align, 0, s.begin)
    requires s.granted == [] && s.begin + n + m <= s.end
    ensures IsRun(s, [Add(1), Add(0)])
    ensures Run(s, [Add(1), Add(0)]).granted
            == [Region(s.begin, s.begin, n, align), Region(s.begin + n, s.begin + n, m, align)]
  {
    hide Run, IsRun;
    var s1 := Step(s, Add(1));
    var s2 := Step(s1, Add(0));
    RunNone(s2);
    assert [Add(0)] == [Add(0)] + [] && [Add(1), Add(0)] == [Add(1)] + [Add(0)];
    RunOne(s1, Add(0), []);
    RunOne(s, Add(1), [Add(0)]);
  }

  /** Such a run returns address 4 for alignment 8. */
  lemma UnalignedRun()
    ensures IsRun(New(0, 64), Interleaved(8, 4, 8))
    ensures Run(New(0, 64), Interleaved(8, 4, 8)).granted == [Region(0, 0, 4, 8), Region(4, 4, 8, 8)]
    ensures !Aligned(4, 8)
  {
    Eight();
    hide *;
    InterleavedRun(0, 64, 8, 4, 8);
  }

  lemma Eight()
    ensures IsPow2(8) && 8 <= Word() && Aligned(0, 8) && !Aligned(4, 8)
  {
    assert IsPow2(2) && IsPow2(4);
    assert BitAnd(4, 7) == 4;
    Pow2Monotone(3, WORD_BITS);
    assert Pow2(3) == 8;
  }

  /** Every request is for `n` bytes at alignment `align`. */
  predicate Uniform(actions: seq<Action>, n: nat, align: nat) {
    forall i | 0 <= i < |actions| :: actions[i].Read? ==> actions[i].size == n && actions[i].align == align
  }

  ghost predicate AllAligned(s: Arena) {
    forall i | 0 <= i < |s.granted| :: Aligned(s.granted[i].lo, s.granted[i].align)
  }

  /** In an arena with room for less than two requests, only the first can be granted. */
  ghost predicate InvSingle(s: Arena, n: nat, align: nat) {
    && Aligned(s.data, align) && (s.begin == s.data || s.begin >= s.data + n)
    && (forall i | 0 <= i < |s.granted| :: s.granted[i].lo == s.data && s.granted[i].align == align)
    && (forall t | t in s.threads :: SingleRequest(s, s.threads[t], n, align))
  }

  predicate SingleRequest(s: Arena, pc: Pc, n: nat, align: nat) {
    !pc.Idle? ==> pc.size == n && pc.align == align && (s.begin == s.data ==> pc.padding == 0)
  }

  lemma StepKeepsSingle(s: Arena, a: Action, n: nat, align: nat)
    requires InvSingle(s, n, align) && n > 0 && s.end < s.data + 2 * n
    requires Enabled(s, a) && a != Reset && Uniform([a], n, align)
    ensures InvSingle(Step(s, a), n, align)
  {
    hide Padding, Aligned, IsPow2;
    assert [a][0] == a;
    match a
    case Read(t, _, _) => PaddingAligns(s.begin, align);
    case Check(t) => assert SingleRequest(s, s.threads[t], n, align);
    case Add(t) => assert SingleRequest(s, s.threads[t], n, align);
  }

  lemma {:induction false} RunKeepsSingle(s: Arena, actions: seq<Action>, n: nat, align: nat)
    requires InvSingle(s, n, align) && n > 0 && s.end < s.data + 2 * n
    requires IsRun(s, actions) && Reset !in actions && Uniform(actions, n, align)
    ensures AllAligned(Run(s, actions))
    decreases |actions|
  {
    hide InvSingle, Aligned;
    if actions == [] {
      SingleAligned(s, n, align);
    } else {
      assert actions[0] in actions && Uniform([actions[0]], n, align);
      StepKeepsSingle(s, actions[0], n, align);
      RunKeepsSingle(Step(s, actions[0]), actions[1..], n, align);
    }
  }

  lemma SingleAligned(s: Arena, n: nat, align: nat)
    requires InvSingle(s, n, align)
    ensures AllAligned(s)
  {
  }

  lemma MultiplesAligned(data: nat, size: nat, actions: seq<Action>, n: nat, align: nat)
    requires Aligned(data, align) && Aligned(n, align) && IsRun(New(data, size), actions) && Uniform(actions, n, align)
    ensures AllAligned(Run(New(data, size), actions))
  {
    hide Aligned, Run, IsRun;
    RegionsAligned(New(data, size), actions, align);
    var s := Run(New(data, size), actions);
    forall i | 0 <= i < |s.granted| ensures Aligned(s.granted[i].lo, s.granted[i].align) {
      assert IsAligned(s.granted[i], align);
    }
  }

  /** When all requests are for `n` bytes at one alignment, and the base has it, what decides is the size:
      every pointer that is returned before the first reset is aligned, in every run, if and only if `n`
      is a multiple of the alignment or there is no room for two. With room for two, that is so with or
      without resets. */
  lemma AllRunsAlignedIff(data: nat, size: nat, n: nat, align: nat)
    requires IsPow2(align) && align <= Word() && data < Word() && Aligned(data, align)
    ensures (forall actions | IsRun(New(data, size), actions) && Uniform(actions, n, align) && Reset !in actions ::
               AllAligned(Run(New(data, size), actions)))
            <==> Aligned(n, align) || size < 2 * n
    ensures 2 * n <= size ==>
              ((forall actions | IsRun(New(data, size), actions) && Uniform(actions, n, align) ::
                  AllAligned(Run(New(data, size), actions)))
               <==> Aligned(n, align))
  {
    var s0 := New(data, size);
    if Aligned(n, align) {
      forall actions | IsRun(s0, actions) && Uniform(actions, n, align) ensures AllAligned(Run(s0, actions)) {
        MultiplesAligned(data, size, actions, n, align);
      }
    } else if size < 2 * n {
      forall actions | IsRun(s0, actions) && Uniform(actions, n, align) && Reset !in actions
        ensures AllAligned(Run(s0, actions))
      {
        RunKeepsSingle(s0, actions, n, align);
      }
    } else {
      InterleavedUnaligned(data, size, n, align);
    }
    hide *;
  }

  lemma InterleavedUnaligned(data: nat, size: nat, n: nat, align: nat)
    requires IsPow2(align) && align <= Word() && data < Word() && Aligned(data, align)
    requires 2 * n <= size && !Aligned(n, align)
    ensures var actions := Interleaved(n, n, align);
            && IsRun(New(data, size), actions) && Uniform(actions, n, align) && Reset !in actions
            && !AllAligned(Run(New(data, size), actions))
  {
    hide Run, IsRun, Aligned, IsPow2, Word;
    InterleavedRun(data, size, n, n, align);
    AlignedSum(data, n, align);
    assert Run(New(data, size), Interleaved(n, n, align)).granted[1] == Region(data + n, data + n, n, align);
  }

  /** After a reset the whole arena can be had again: a thread that is in no call is granted what fits behind
      the base, and that is then all that has been granted. */
  lemma ResetThenAlloc(s: Arena, t: nat, size: nat, align: nat)
    requires Inv(s) && At(s, t).Idle? && IsPow2(align) && align <= Word() && s.data < Word()
    requires s.data + Padding(s.data, align) + size <= s.end
    ensures var actions := [Reset, Read(t, size, align), Check(t), Add(t)];
            var lo := s.data + Padding(s.data, align);
            && IsRun(s, actions)
            && Run(s, actions).granted == [Region(s.data, lo, size, align)]
            && Run(s, actions).begin == lo + size && Aligned(lo, align)
  {
    hide Inv, Padding, Aligned, IsPow2, Word, Run, IsRun, Step, Enabled, At, Granted;
    IdleAfterReset(s, t, size, align);
    var s0 := Step(s, Reset);
    CallAlone(s0, t, size, align);
    var s1 := Step(s0, Read(t, size, align));
    var s2 := Step(s1, Check(t));
    AddGrants(s2, t);
    RunThree(s0, Read(t, size, align), Check(t), Add(t));
    RunOne(s, Reset, [Read(t, size, align), Check(t), Add(t)]);
    assert [Reset] + [Read(t, size, align), Check(t), Add(t)] == [Reset, Read(t, size, align), Check(t), Add(t)];
  }

  lemma AddGrants(s: Arena, t: nat)
    requires At(s, t).Adding? && Granted(s, At(s, t)).Some?
    ensures Enabled(s, Add(t)) && Step(s, Add(t)).granted == s.granted + [Granted(s, At(s, t)).value]
  {
  }

  lemma RunThree(s: Arena, a: Action, b: Action, c: Action)
    requires Enabled(s, a) && Enabled(Step(s, a), b) && Enabled(Step(Step(s, a), b), c)
    ensures IsRun(s, [a, b, c]) && Run(s, [a, b, c]) == Step(Step(Step(s, a), b), c)
  {
    hide *;
    var s1 := Step(s, a);
    var s2 := Step(s1, b);
    RunNone(Step(s2, c));
    assert [c] + [] == [c] && [b] + [c] == [b, c] && [a] + [b, c] == [a, b, c];
    RunOne(s2, c, []);
    RunOne(s1, b, [c]);
    RunOne(s, a, [b, c]);
  }

  lemma IdleAfterReset(s: Arena, t: nat, size: nat, align: nat)
    requires Inv(s) && At(s, t).Idle? && IsPow2(align) && align <= Word() && s.data < Word()
    ensures Enabled(s, Reset)
    ensures var s0 := Step(s, Reset);
            && Inv(s0) && Enabled(s0, Read(t, size, align)) && At(s0, t).Idle?
            && s0.begin == s0.data == s.data && s0.end == s.end && s0.granted == []
  {
    StepKeepsInv(s, Reset);
    hide Inv;
  }

  lemma RunNone(s: Arena)
    ensures IsRun(s, []) && Run(s, []) == s
  {
  }

  lemma RunOne(s: Arena, a: Action, rest: seq<Action>)
    requires Enabled(s, a) && IsRun(Step(s, a), rest)
    ensures IsRun(s, [a] + rest) && Run(s, [a] + rest) == Run(Step(s, a), rest)
  {
    assert ([a] + rest)[1..] == rest;
  }
}

/** The arena in place. Each method but the last is one atomic step of a call by thread `t`. */
module AtomicArena {
  import opened Wrappers
  import opened Bits
  import opened ArenaPadding
  import opened ArenaAlloc

  class AtomicArena {
    const data: nat
    const end: nat
    var begin: nat
    ghost var threads: map<nat, Pc>
    ghost var granted: seq<Region>

    ghost function Model(): Arena
      reads this
    {
      Arena(data, begin, end, threads, granted)
    }

    constructor (data: nat, size: nat)
      ensures Model() == New(data, size)
    {
      this.data, this.end := data, data + size;
      begin := data;
      threads, granted := map[], [];
    }

    method ReadPadding(t: nat, size: nat, align: nat) returns (padding: nat)
      requires Enabled(Model(), Read(t, size, align))
      modifies this`threads
      ensures Model() == Step(old(Model()), Read(t, size, align)) && padding == At(Model(), t).padding
    {
      padding := BitAnd(Negate(begin), align - 1);
      threads := threads[t := Checking(size, align, padding, begin)];
    }

    method CheckAvailable(t: nat, padding: nat) returns (ok: bool)
      requires Enabled(Model(), Check(t)) && padding == At(Model(), t).padding
      modifies this`threads
      ensures Model() == Step(old(Model()), Check(t)) && ok == At(Model(), t).Adding?
      ensures ok ==> At(Model(), t).padding == padding && At(Model(), t).size == At(old(Model()), t).size
    {
      var available := end - begin - padding;
      ok := available >= 0;
      ghost var pc := At(Model(), t);
      threads := threads[t := if ok then Adding(pc.size, pc.align, pc.padding, pc.seen) else Idle];
    }

    method FetchAdd(t: nat, padding: nat, size: nat) returns (r: Option<nat>)
      requires Enabled(Model(), Add(t)) && padding == At(Model(), t).padding && size == At(Model(), t).size
      modifies this`begin, this`threads, this`granted
      ensures Model() == Step(old(Model()), Add(t))
      ensures var g := Granted(old(Model()), At(old(Model()), t));
              && r == (if g.Some? then Some(g.value.lo) else None)
              && granted == (if g.Some? then old(granted) + [g.value] else old(granted))
    {
      ghost var g := Granted(Model(), At(Model(), t));
      var p := begin;
      begin := begin + padding + size;
      threads := threads[t := Idle];
      p := p + padding;
      if p + size > end {
        return None;
      }
      granted := granted + [g.value];
      return Some(p);
    }

    /** `vd_arena_reset` */
    method ResetAll()
      modifies this`begin, this`granted
      ensures begin == data && granted == []
      ensures Model() == Step(old(Model()), Reset)
    {
      begin := data;
      granted := [];
    }

    /** `vd_arena_alloc_t` with no other thread in between. */
    method AllocT(t: nat, size: nat, align: nat) returns (r: Option<nat>)
      requires Enabled(Model(), Read(t, size, align)) && Inv(Model())
      modifies this
      ensures Inv(Model()) && At(Model(), t).Idle?
      ensures r.Some? ==>
                && Aligned(r.value, align) && old(begin) <= r.value < old(begin) + align
                && r.value + size <= end && begin == r.value + size
                && granted == old(granted) + [Region(old(begin), r.value, size, align)]
      ensures r.None? <==> old(begin) + Padding(old(begin), align) + size > end
      ensures r.None? ==>
                && granted == old(granted)
                && begin == old(begin) + if old(begin) + Padding(old(begin), align) > end then 0
                                         else Padding(old(begin), align) + size
    {
      hide Inv, Step, Enabled, Granted, At, Padding, Aligned, IsPow2, Word;
      CallAlone(Model(), t, size, align);
      var padding := ReadPadding(t, size, align);
      var ok := CheckAvailable(t, padding);
      if !ok {
        return None;
      }
      r := FetchAdd(t, padding, size);
    }
  }
}
