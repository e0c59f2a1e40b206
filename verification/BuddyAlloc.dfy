/** The buddy allocator of `lib/vd_buddy_alloc.h`, in place over its headers. The invariants that the
    methods keep are stated and proved in the modules of `BuddyTiling.dfy`. */
module BuddyAllocator {
  import opened Bits
  import opened Wrappers
  import opened BuddyTiling
  import opened BuddyScan
  import opened BuddySplit
  import opened BuddyCoalescing
  import opened BuddyRequest
  import opened BuddyAnswer
  import opened BuddyLive

  class BuddyAlloc {
    const alignment: nat
    const tail: nat
    const size: array<nat>
    const isFree: array<bool>
    ghost var starts: set<nat>
    ghost var live: map<nat, nat>

    ghost function Least(): nat {
      if alignment < tail then alignment else tail
    }

    ghost predicate Blocks()
      reads this, size, isFree
    {
      && size.Length == isFree.Length == tail
      && Tiling(size[..], starts, tail, Least())
    }

    /** The invariant of every run. */
    ghost predicate Valid()
      reads this, size, isFree
    {
      && Blocks()
      && IsPow2(alignment) && HEADER_SIZE <= Least()
      && LiveBlocks(size[..], isFree[..], starts, alignment, live)
    }

    lemma IsBlocks()
      requires size.Length == isFree.Length == tail && Tiling(size[..], starts, tail, Least())
      ensures Blocks()
    {
    }

    ghost predicate Holds(p: nat, req: nat)
      reads this, size, isFree
    {
      p < size.Length == isFree.Length && isFree[p] && size[p] == req
    }

    lemma IsHolding(p: nat, req: nat)
      requires p < size.Length == isFree.Length && isFree[p] && size[p] == req
      ensures Holds(p, req)
    {
    }

    /** `vd_buddy_alloc__split`: halves the free block `b` until it has size `req`, and yields the
        rightmost piece. */
    method Split(b: nat, req: nat) returns (found: Option<nat>)
      requires Blocks() && b in starts && b < tail && isFree[b]
      requires IsPow2(req) && Least() <= req
      modifies size, isFree, this`starts
      ensures Blocks()
      ensures SameUsed(old(size[..]), old(isFree[..]), old(starts), size[..], isFree[..], starts)
      ensures found.None? <==> old(size[b]) < req
      ensures found.None? ==> unchanged(size) && unchanged(isFree) && starts == old(starts)
      ensures found.Some? ==> found.value in starts && Holds(found.value, req)
      ensures found.Some? ==>
                Splitting(old(size[..]), old(isFree[..]), old(starts), b, size[..], isFree[..], starts, found.value)
    {
      ghost var size0, free0, starts0, least := size[..], isFree[..], starts, Least();
      SplitStart(size0, free0, starts0, least, b);
      BlockIsPow2(size0, starts0, least, b);
      SameUsedReflexive(size0, free0, starts0);
      if size[b] < req {
        return None;
      }
      assert size.Length == isFree.Length == tail;
      var block: nat := b;
      hide *;
      while req < size[block]
        invariant block < tail && req <= size[block]
        invariant Tiling(size[..], starts, tail, least)
        invariant Splitting(size0, free0, starts0, b, size[..], isFree[..], starts, block)
        decreases size[block]
      {
        block := Halve(size0, free0, starts0, b, least, req, block);
      }
      SplitDone(size0, free0, starts0, b, least, req, size[..], isFree[..], starts, block);
      IsBlocks();
      IsHolding(block, req);
      found := Some(block);
    }

    method Halve(ghost size0: seq<nat>, ghost free0: seq<bool>, ghost starts0: set<nat>, ghost b: nat,
                 ghost least: nat, ghost req: nat, block: nat) returns (right: nat)
      requires size.Length == isFree.Length == tail && block < tail
      requires Tiling(size[..], starts, tail, least) && IsPow2(req) && least <= req < size[block]
      requires Splitting(size0, free0, starts0, b, size[..], isFree[..], starts, block)
      modifies size, isFree, this`starts
      ensures Tiling(size[..], starts, tail, least)
      ensures right < tail && req <= size[right] < old(size[block])
      ensures Splitting(size0, free0, starts0, b, size[..], isFree[..], starts, right)
    {
      ghost var sz, fr := size[..], isFree[..];
      hide Tiling, Splitting, IsPow2;
      SplitStep(size0, free0, starts0, b, least, req, sz, fr, starts, block);
      HalvedAt(sz, block, block + sz[block] / 2);
      var half := size[block] / 2;
      size[block] := half;
      right := block + size[block];
      size[right] := half;
      isFree[right] := true;
      assert size[..] == Halved(sz, block);
      assert isFree[..] == fr[right := true];
      starts := starts + {right};
    }

    /** The memory, with the block `found` in it. */
    ghost function Now(found: Option<nat>): Outcome
      reads this, size, isFree
    {
      Outcome(size[..], isFree[..], starts, found)
    }

    /** `vd_buddy_alloc__find` */
    method Find(req: nat) returns (found: Option<nat>, ghost c: Choice)
      requires Blocks() && IsPow2(req) && Least() <= req
      modifies size, isFree, this`starts
      ensures Blocks()
      ensures SameUsed(old(size[..]), old(isFree[..]), old(starts), size[..], isFree[..], starts)
      ensures size.Length == isFree.Length && Answer(old(size[..]), old(isFree[..]), Least(), req, c, Now(found))
      ensures found.Some? ==> found.value in starts && Holds(found.value, req)
      ensures found.None? ==> starts <= old(starts) && unchanged(isFree)
    {
      ghost var size0, free0, starts0, least := size[..], isFree[..], starts, Least();
      BlockEnd(size0, starts0, least, 0);
      SameUsedReflexive(size0, free0, starts0);
      assert size.Length == isFree.Length == tail > 0;
      var block := 0;
      var buddy := block + size[block];
      if buddy == tail && isFree[block] {
        SingleFit(size0, free0, starts0, least, req);
        c := Choice(starts0, if req <= size0[0] then Some(0) else None);
        assert Tiling(size0, starts0, tail, least);
        hide *;
        found := Split(block, req);
        AnswerSingle(size0, free0, starts0, least, req, c, found);
        return;
      }
      var best := Scan(req);
      ghost var mid := size[..];
      c := Choice(starts, best);
      assert Tiling(mid, starts, tail, least);
      UnseenFit(size0, free0, starts0, least, req, mid, starts, best);
      ScanKeepsUsed(size0, starts0, mid, starts, free0, least);
      if best.Some? {
        assert Fits(mid, free0, req, best.value);
        hide *;
        found := Split(best.value, req);
        SameUsedTransitive(size0, free0, starts0, mid, free0, c.starts, size[..], isFree[..], starts, least);
        AnswerFound(size0, free0, least, req, c, found);
      } else {
        found := None;
      }
    }

    lemma AnswerFound(size0: seq<nat>, free0: seq<bool>, least: nat, req: nat, c: Choice, found: Option<nat>)
      requires |size0| == |free0| && found.Some? && c.best.Some?
      requires Tiling(ScanSizes(size0, free0, 0), c.starts, |size0|, least)
      requires IsBestFit(ScanSizes(size0, free0, 0), free0, c.starts, req, Unseen(size0, free0), c.best)
      requires Holds(found.value, req)
      requires Splitting(ScanSizes(size0, free0, 0), free0, c.starts, c.best.value, size[..], isFree[..], starts, found.value)
      ensures Answer(size0, free0, least, req, c, Now(found))
    {
      hide ScanSizes, Tiling, IsBestFit, Splitting;
    }

    /** A region that is one free block has nothing to scan. */
    lemma AnswerSingle(size0: seq<nat>, free0: seq<bool>, starts0: set<nat>, least: nat, req: nat, c: Choice, found: Option<nat>)
      requires |size0| == |free0| > 0 && Tiling(size0, starts0, |size0|, least) && size0[0] == |size0|
      requires c == Choice(starts0, if req <= size0[0] then Some(0) else None)
      requires IsBestFit(size0, free0, starts0, req, None, c.best)
      requires found.None? <==> size0[0] < req
      requires found.None? ==> size[..] == size0 && isFree[..] == free0 && starts == starts0
      requires found.Some? ==>
                 Holds(found.value, req) && Splitting(size0, free0, starts0, 0, size[..], isFree[..], starts, found.value)
      ensures Answer(size0, free0, least, req, c, Now(found))
    {
      assert ScanSizes(size0, free0, 0) == size0;
      hide Tiling, IsBestFit, Splitting;
    }

    /** One turn of the loop of `vd_buddy_alloc__find`, at the neighbours `block` and `buddy`. */
    method ScanPair(ghost o: Origin, ghost st: set<nat>, ghost seen: bool,
                    block: nat, buddy: nat, req: nat, best: Option<nat>)
      returns (block': nat, best': Option<nat>, ghost st': set<nat>, ghost seen': bool)
      requires size.Length == isFree.Length && o.isFree == isFree[..] && o.req == req
      requires block < size.Length && buddy < size.Length && buddy == block + size[block]
      requires Scanning(o, size[..], st, block, seen, best)
      modifies size
      ensures Scanning(o, size[..], st', block', seen', best') && block < block'
    {
      hide *;
      ghost var sz := size[..];
      ScanBounds(o, sz, st, block, seen, best);
      best' := best;
      if isFree[block] && isFree[buddy] && size[block] == size[buddy] {
        size[block] := 2 * size[block];
        assert size[..] == sz[block := 2 * sz[block]];

        if req <= size[block] && (best.None? || size[block] <= size[best.value]) {
          best' := Some(block);
        }

        ScanMerge(o, sz, st, block, seen, best, best');
        block', st', seen' := buddy + size[buddy], st - {buddy}, false;
        return;
      }

      if isFree[block] && req <= size[block] && (best'.None? || size[block] <= size[best'.value]) {
        best' := Some(block);
      }

      if isFree[buddy] && req <= size[buddy] && (best'.None? || size[buddy] < size[best'.value]) {
        best' := Some(buddy);
      }

      ScanCompare(o, sz, st, block, seen, best, best');
      st' := st;
      if size[block] <= size[buddy] {
        block', seen' := buddy + size[buddy], false;
      } else {
        block', seen' := buddy, true;
      }
    }

    /** The loop of `vd_buddy_alloc__find`: merges free neighbours as it goes and picks the best fit. */
    method Scan(req: nat) returns (best: Option<nat>)
      requires Blocks()
      modifies size, this`starts
      ensures Blocks()
      ensures ScanFrame(old(size[..]), old(starts), size[..], starts, isFree[..], tail)
      ensures size[..] == ScanSizes(old(size[..]), isFree[..], 0)
      ensures IsBestFit(size[..], isFree[..], starts, req, LeftOver(old(size[..]), isFree[..], 0, false), best)
    {
      ghost var o := Origin(size[..], starts, isFree[..], Least(), req);
      ScanStart(o);
      assert size.Length == isFree.Length == tail;
      hide *;
      var block, buddy := 0, size[0];
      best := None;
      ghost var st, seen := starts, false;
      while block < tail && buddy < tail
        invariant block < tail ==> buddy == block + size[block]
        invariant Scanning(o, size[..], st, block, seen, best)
        decreases tail - block
      {
        block, best, st, seen := ScanPair(o, st, seen, block, buddy, req, best);
        if block < tail {
          buddy := block + size[block];
        }
      }
      ScanDone(o, size[..], st, block, seen, best);
      starts := st;
      IsBlocks();
    }

    /** One turn of a pass of `vd_buddy_alloc__coalescence`. */
    method PassPair(ghost size0: seq<nat>, ghost starts0: set<nat>, ghost least: nat, ghost st: set<nat>,
                    block: nat, buddy: nat, quiet: bool)
      returns (block': nat, quiet': bool, ghost st': set<nat>)
      requires size.Length == isFree.Length == tail
      requires block < tail && buddy < tail && buddy == block + size[block]
      requires Passing(size0, starts0, isFree[..], least, size[..], st, block, quiet)
      modifies size
      ensures Passing(size0, starts0, isFree[..], least, size[..], st', block', quiet') && block < block'
    {
      hide Passing, Tiling, Settled, Reaches, ScanFrame, PassSizes;
      ghost var sz, fr := size[..], isFree[..];
      PassBounds(size0, starts0, fr, least, sz, st, block, quiet);
      quiet', st' := quiet, st;
      if isFree[block] && isFree[buddy] && size[block] == size[buddy] {
        size[block] := 2 * size[block];
        assert size[..] == sz[block := 2 * sz[block]];
        PassMerge(size0, starts0, fr, least, sz, st, block, quiet);
        block', st' := block + size[block], st - {buddy};
        if block' < tail {
          quiet' := false;
        }
      } else {
        PassSkip(size0, starts0, fr, least, sz, st, block, quiet);
        block' := if size[block] < size[buddy] then buddy else buddy + size[buddy];
      }
    }

    method Pass(ghost least: nat) returns (quiet: bool)
      requires size.Length == isFree.Length == tail && Tiling(size[..], starts, tail, least)
      modifies size, this`starts
      ensures Tiling(size[..], starts, tail, least)
      ensures ScanFrame(old(size[..]), old(starts), size[..], starts, isFree[..], tail)
      ensures size[..] == PassSizes(old(size[..]), isFree[..], 0)
      ensures quiet ==> Settled(size[..], isFree[..], 0)
      ensures !quiet ==> |starts| < |old(starts)|
    {
      ghost var size0, starts0 := size[..], starts;
      PassStart(size0, starts0, isFree[..], least);
      hide *;
      var block, buddy := 0, size[0];
      quiet := true;
      ghost var st := starts;
      while block < tail && buddy < tail
        invariant block < tail ==> buddy == block + size[block]
        invariant Passing(size0, starts0, isFree[..], least, size[..], st, block, quiet)
        decreases tail - block
      {
        block, quiet, st := PassPair(size0, starts0, least, st, block, buddy, quiet);
        if block < tail {
          buddy := block + size[block];
        }
      }
      PassDone(size0, starts0, isFree[..], least, size[..], st, block, quiet);
      starts := st;
    }

    /** `vd_buddy_alloc__coalescence`: the passes that it makes leave memory that another would not change. */
    method Coalescence() returns (ghost passes: nat)
      requires Blocks()
      modifies size, this`starts
      ensures Blocks()
      ensures SameUsed(old(size[..]), old(isFree[..]), old(starts), size[..], isFree[..], starts)
      ensures size.Length == isFree.Length && size[..] == Passes(old(size[..]), isFree[..], passes)
      ensures Settled(size[..], isFree[..], 0) && starts <= old(starts)
    {
      ghost var size0, fr, starts0, least := size[..], isFree[..], starts, Least();
      SameUsedReflexive(size0, fr, starts0);
      assert size.Length == isFree.Length == tail;
      assert Tiling(size0, starts0, tail, least);
      passes := 0;
      PassesStart(size0, fr);
      hide *;
      while true
        invariant Tiling(size[..], starts, tail, least)
        invariant SameUsed(size0, fr, starts0, size[..], fr, starts)
        invariant starts <= starts0
        invariant size[..] == Passes(size0, fr, passes)
        decreases |starts|
      {
        ghost var sz, st := size[..], starts;
        var quiet := Pass(least);
        PassesStep(size0, fr, passes);
        passes := passes + 1;
        FrameShrinks(sz, st, size[..], starts, fr, tail);
        ScanKeepsUsed(sz, st, size[..], starts, fr, least);
        SameUsedTransitive(size0, fr, starts0, sz, fr, st, size[..], fr, starts, least);
        if quiet {
          IsBlocks();
          return;
        }
      }
    }

    lemma FrameShrinks(size0: seq<nat>, starts0: set<nat>, size: seq<nat>, starts: set<nat>, isFree: seq<bool>, block: nat)
      requires ScanFrame(size0, starts0, size, starts, isFree, block)
      ensures starts <= starts0
    {
    }

    static method AlignForward(p: nat, align: nat) returns (r: nat)
      requires IsPow2(align)
      ensures p <= r < p + align && IsMultiple(r, align)
    {
      MaskIsMod(p, align);
      RoundUpMultiple(p, align);
      var modulo := BitAnd(p, align - 1);
      r := p;
      if modulo != 0 {
        r := r + (align - modulo);
      }
    }

    /** `vd_buddy_alloc__size_req` */
    method SizeReq(request: nat) returns (r: nat)
      requires IsPow2(alignment)
      ensures IsBlockFor(alignment, request, r)
    {
      r := alignment;
      var sz := request + HEADER_SIZE;
      sz := AlignForward(sz, alignment);
      hide *;
      while sz > r
        invariant IsPow2(r) && alignment <= r
        invariant r == alignment || r < 2 * sz
        decreases sz - r
      {
        Pow2Double(r);
        r := 2 * r;
      }
      LeastBlock(alignment, request, sz, r);
    }

    /** `vd_buddy_alloc_init`. The region that is asked for must hold a header. */
    constructor (initialSize: nat, align: nat)
      requires HEADER_SIZE / 2 < initialSize <= HalfWord() && align < Word()
      ensures Valid() && live == map[]
      ensures LeastPow2Above(initialSize, tail)
      ensures align <= HEADER_SIZE ==> alignment == HEADER_SIZE
      ensures HEADER_SIZE < align <= HalfWord() ==> LeastPow2Above(align, alignment)
      ensures align > HalfWord() ==> alignment == HEADER_SIZE
      ensures starts == {0} && forall o | 0 <= o < tail :: isFree[o]
      ensures fresh(size) && fresh(isFree)
    {
      var a := RoundUp(align);
      var n := RoundUp(initialSize);
      Sixteen();
      Pow2Gap(HEADER_SIZE / 2, n);
      hide IsPow2;
      tail := n;
      size := new nat[n](_ => n);
      isFree := new bool[n](_ => true);
      alignment := if a < HEADER_SIZE then HEADER_SIZE else a;
      starts := {0};
      live := map[];
      new;
      hide *;
      StartsValid();
    }

    lemma StartsValid()
      requires size.Length == isFree.Length == tail && 0 < tail && size[0] == tail && IsPow2(tail)
      requires forall o | 0 <= o < tail :: isFree[o]
      requires IsPow2(alignment) && HEADER_SIZE <= alignment && HEADER_SIZE <= tail
      requires starts == {0} && live == map[]
      ensures Valid()
    {
      OneBlock(size[..], isFree[..], Least());
    }

    /** `vd_buddy_alloc_realloc`. Null is 0; the payload of the block at offset `p` is at `p + alignment`. */
    method Realloc(ptr: nat, request: nat) returns (r: nat)
      requires Valid()
      requires ptr != 0 && request == 0 ==> alignment <= ptr && ptr - alignment in live
      modifies size, isFree, this`starts, this`live
      ensures Valid()
      // Allocation
      ensures ptr == 0 ==> CellsKept(old(size[..]), old(isFree[..]), old(live).Keys, size[..], isFree[..])
      ensures ptr == 0 && r != 0 ==>
                && r >= alignment && r - alignment !in old(live)
                && live == old(live)[r - alignment := request]
                && Granted(old(size[..]), old(isFree[..]), request, r - alignment)
      ensures ptr == 0 && r == 0 ==>
                && live == old(live)
                && Refused(old(size[..]), old(isFree[..]), request)
      // Release
      ensures ptr != 0 && request == 0 ==>
                && r == 0 && live == old(live) - {ptr - alignment}
                && unchanged(size) && starts == old(starts)
                && ptr - alignment < tail && isFree[..] == old(isFree[..])[ptr - alignment := true]
      // Resizing is not supported
      ensures ptr != 0 && request != 0 ==>
                r == 0 && live == old(live) && unchanged(size) && unchanged(isFree) && starts == old(starts)
    {
      hide *;
      if ptr == 0 {
        r := Allocate(request);
      } else if request == 0 {
        Free(ptr - alignment);
        r := 0;
      } else {
        r := 0;
      }
    }

    method Free(block: nat)
      requires Valid() && block in live
      modifies isFree, this`live
      ensures Valid() && live == old(live) - {block}
      ensures block < |old(isFree[..])| == tail && isFree[..] == old(isFree[..])[block := true]
    {
      ghost var fr := isFree[..];
      LiveFreed(size[..], fr, starts, alignment, live, Least(), block);
      isFree[block] := true;
      assert isFree[..] == fr[block := true];
      live := live - {block};
    }

    /** The block `p` serves the request: `find` has answered with it, cut to the least size that serves
        the request, and its header has then been marked as in use. */
    ghost predicate Granted(size0: seq<nat>, free0: seq<bool>, request: nat, p: nat)
      reads this, size, isFree
    {
      exists req: nat, isFree': seq<bool> ::
        && IsBlockFor(alignment, request, req)
        && Served(size0, free0, Least(), req, Outcome(size[..], isFree', starts, Some(p)))
        && p < |isFree'| && isFree[..] == isFree'[p := false]
    }

    /** `find` has answered with no block, and only the last block may be free and large enough. */
    ghost predicate Refused(size0: seq<nat>, free0: seq<bool>, request: nat)
      reads this, size, isFree
    {
      exists req: nat | IsBlockFor(alignment, request, req) ::
        && Served(size0, free0, Least(), req, Now(None))
        && OnlyLast(size[..], isFree[..], starts, req)
    }

    method Allocate(request: nat) returns (r: nat)
      requires Valid()
      modifies size, isFree, this`starts, this`live
      ensures Valid()
      ensures CellsKept(old(size[..]), old(isFree[..]), old(live).Keys, size[..], isFree[..])
      ensures r != 0 ==>
                && r >= alignment && r - alignment !in old(live)
                && live == old(live)[r - alignment := request]
                && Granted(old(size[..]), old(isFree[..]), request, r - alignment)
      ensures r == 0 ==> live == old(live) && Refused(old(size[..]), old(isFree[..]), request)
    {
      ghost var size0, fr0, starts0 := size[..], isFree[..], starts;
      Parts();
      var req := SizeReq(request);
      AtLeast(request, req);
      LiveSizes(size0, fr0, starts0, alignment, live);
      hide *;
      var found := FindOrCoalesce(req);
      LiveKept(size0, fr0, starts0, alignment, live, size[..], isFree[..], starts);
      IsValid();
      if found.None? {
        IsRefused(size0, fr0, request, req);
        return 0;
      }
      ghost var size1, fr1 := size[..], isFree[..];
      Take(found.value, request, req);
      CellsKeptTransitive(size0, fr0, old(live).Keys, size1, fr1, size[..], isFree[..]);
      IsGranted(size0, fr0, request, found.value, req, fr1);
      return found.value + alignment;
    }

    lemma Parts()
      requires Valid()
      ensures Blocks() && IsPow2(alignment) && HEADER_SIZE <= Least()
      ensures LiveBlocks(size[..], isFree[..], starts, alignment, live)
    {
    }

    lemma IsValid()
      requires Blocks() && IsPow2(alignment) && HEADER_SIZE <= Least()
      requires LiveBlocks(size[..], isFree[..], starts, alignment, live)
      ensures Valid()
    {
    }

    lemma AtLeast(request: nat, req: nat)
      requires IsBlockFor(alignment, request, req)
      ensures IsPow2(req) && Least() <= req
    {
    }

    lemma IsRefused(size0: seq<nat>, free0: seq<bool>, request: nat, req: nat)
      requires IsBlockFor(alignment, request, req) && OnlyLast(size[..], isFree[..], starts, req)
      requires Served(size0, free0, Least(), req, Now(None))
      ensures Refused(size0, free0, request)
    {
      hide Served, OnlyLast, IsBlockFor;
    }

    lemma IsGranted(size0: seq<nat>, free0: seq<bool>, request: nat, p: nat, req: nat, isFree': seq<bool>)
      requires IsBlockFor(alignment, request, req)
      requires Served(size0, free0, Least(), req, Outcome(size[..], isFree', starts, Some(p)))
      requires p < |isFree'| && isFree[..] == isFree'[p := false]
      ensures Granted(size0, free0, request, p)
    {
      hide Served, IsBlockFor;
    }

    method FindOrCoalesce(req: nat) returns (found: Option<nat>)
      requires Blocks() && IsPow2(req) && Least() <= req
      modifies size, isFree, this`starts
      ensures Blocks()
      ensures SameUsed(old(size[..]), old(isFree[..]), old(starts), size[..], isFree[..], starts)
      ensures found.Some? ==> found.value in starts && Holds(found.value, req)
      ensures Served(old(size[..]), old(isFree[..]), Least(), req, Now(found))
      ensures found.None? ==> OnlyLast(size[..], isFree[..], starts, req)
    {
      ghost var size0, fr0, starts0, least := size[..], isFree[..], starts, Least();
      assert Tiling(size0, starts0, tail, least);
      ghost var c0, c;
      hide *;
      found, c0 := Find(req);
      if found.Some? {
        ServedAtOnce(size0, fr0, least, req, c0, Now(found));
        return;
      }
      ghost var first := Now(None);
      ghost var size1, starts1 := size[..], starts;
      ghost var n := Coalescence();
      ghost var size2, starts2 := size[..], starts;
      SameUsedTransitive(size0, fr0, starts0, size1, fr0, starts1, size2, fr0, starts2, least);
      assert Tiling(size2, starts2, tail, least) by { Tiled(); }
      found, c := Find(req);
      SameUsedTransitive(size0, fr0, starts0, size2, fr0, starts2, size[..], isFree[..], starts, least);
      IsAnswerSettled(size2, fr0, least, req, c, Now(found));
      ServedSettled(size0, fr0, least, req, c0, first, n, c, Now(found));
      if found.None? {
        FailedFind(size2, fr0, starts2, least, req, c, Now(None));
      }
    }

    lemma Tiled()
      requires Blocks()
      ensures size.Length == isFree.Length == tail && Tiling(size[..], starts, tail, Least())
    {
    }

    method Take(p: nat, request: nat, ghost req: nat)
      requires Valid() && p in starts && Holds(p, req) && IsBlockFor(alignment, request, req)
      modifies isFree, this`live
      ensures Valid() && p < |old(isFree[..])| && isFree[..] == old(isFree[..])[p := false]
      ensures p !in old(live) && live == old(live)[p := request]
      ensures CellsKept(size[..], old(isFree[..]), old(live).Keys, size[..], isFree[..])
    {
      ghost var fr := isFree[..];
      LiveTaken(size[..], fr, starts, alignment, live, Least(), p, request);
      isFree[p] := false;
      assert isFree[..] == fr[p := false];
      live := live[p := request];
    }

    /** In every reachable state the bytes handed out for a live allocation lie in the region, apart from
        those of the other live allocations and from every header. */
    lemma LivePayloads(p: nat, q: nat)
      requires Valid() && alignment == HEADER_SIZE && p in live && q in starts
      ensures p + alignment + live[p] <= tail
      ensures q in live && q != p ==>
                q + alignment + live[q] <= p + alignment || p + alignment + live[p] <= q + alignment
      ensures q + HEADER_SIZE <= p + alignment || p + alignment + live[p] <= q
    {
      PayloadsDisjoint(size[..], isFree[..], starts, alignment, live, Least(), p, q);
    }

    /** `vd_buddy_alloc_get_stats` */
    method GetStats() returns (used: nat, total: nat, numBlocks: nat, numFreeBlocks: nat)
      requires Valid()
      ensures total == tail
      ensures size.Length == tail && used == SumBelow(size[..], live.Keys, tail)
      ensures numBlocks == |starts| && numFreeBlocks == |starts| - |live|
    {
      ghost var sz, least := size[..], Least();
      Parts();
      assert Tiling(sz, starts, tail, least);
      used, total, numBlocks, numFreeBlocks := 0, 0, 0, 0;
      var block := 0;
      hide *;
      while block < tail
        invariant block == total && At(sz, starts, block)
        invariant used == SumBelow(sz, live.Keys, block)
        invariant numBlocks == CountBelow(starts, block)
        invariant numFreeBlocks + CountBelow(live.Keys, block) == numBlocks
        decreases tail - block
      {
        BlockStats(sz, isFree[..], starts, alignment, live, least, block);
        total := total + size[block];
        numBlocks := numBlocks + 1;

        if isFree[block] {
          numFreeBlocks := numFreeBlocks + 1;
        } else {
          used := used + size[block];
        }

        block := block + size[block];
      }
      AllCounted(sz, isFree[..], starts, alignment, live, least);
    }
  }
}
