/** The tilings that the buddy allocator of `lib/vd_buddy_alloc.h` maintains.

    Offsets are byte offsets from `head`. `size[p]` and `isFree[p]` are the fields of the header at
    offset `p`; as in the C, the header of a block that was merged away stays in memory. `starts` is
    the set of the offsets at which a block currently begins. */
module BuddyTiling {
  import opened Bits
  import opened Wrappers

  const HEADER_SIZE: nat := 16

  /** The blocks that begin at `starts` lie end to end from 0 to `tail`, and the size of each is a
      power of two, `least` or more. */
  ghost predicate Tiling(size: seq<nat>, starts: set<nat>, tail: nat, least: nat) {
    && |size| == tail > 0
    && 0 in starts
    && (forall p {:trigger IsBlock(size, starts, tail, least, p)} | p in starts :: IsBlock(size, starts, tail, least, p))
    && (forall p, q {:trigger Apart(size, p, q)} | p in starts && q in starts :: Apart(size, p, q))
  }

  ghost predicate IsBlock(size: seq<nat>, starts: set<nat>, tail: nat, least: nat, p: nat)
    requires |size| == tail
  {
    && p < tail
    && IsPow2(size[p]) && least <= size[p]
    && (p + size[p] == tail || (p + size[p] < tail && p + size[p] in starts))
  }

  ghost predicate Apart(size: seq<nat>, p: nat, q: nat) {
    p < q && p < |size| ==> p + size[p] <= q
  }

  /** `p` is where a block begins, or the end of the region. */
  ghost predicate At(size: seq<nat>, starts: set<nat>, p: nat) {
    p == |size| || (p < |size| && p in starts)
  }

  lemma BlockEnd(size: seq<nat>, starts: set<nat>, least: nat, p: nat)
    requires Tiling(size, starts, |size|, least) && p in starts
    ensures p < |size| && size[p] > 0 && p + size[p] <= |size| && At(size, starts, p + size[p])
  {
    assert IsBlock(size, starts, |size|, least, p);
  }

  lemma BlockIsPow2(size: seq<nat>, starts: set<nat>, least: nat, p: nat)
    requires Tiling(size, starts, |size|, least) && p in starts
    ensures p < |size| && IsPow2(size[p]) && least <= size[p]
  {
    assert IsBlock(size, starts, |size|, least, p);
  }

  /** A block and the next one, of the same size. */
  predicate EqualPair(size: seq<nat>, starts: set<nat>, p: nat) {
    && p in starts && p < |size|
    && p + size[p] in starts && p + size[p] < |size|
    && size[p + size[p]] == size[p]
  }

  lemma IsTiling(size: seq<nat>, starts: set<nat>, tail: nat, least: nat)
    requires |size| == tail > 0 && 0 in starts
    requires forall p | p in starts :: IsBlock(size, starts, tail, least, p)
    requires forall p, q | p in starts && q in starts :: Apart(size, p, q)
    ensures Tiling(size, starts, tail, least)
  {
  }

  lemma MergeKeepsTiling(size: seq<nat>, starts: set<nat>, tail: nat, least: nat, p: nat)
    requires Tiling(size, starts, tail, least) && EqualPair(size, starts, p)
    ensures Tiling(size[p := 2 * size[p]], starts - {p + size[p]}, tail, least)
  {
    var q := p + size[p];
    var size', starts' := size[p := 2 * size[p]], starts - {q};
    BlockIsPow2(size, starts, least, p);
    assert 0 in starts' && |size'| == tail > 0;
    hide *;
    forall r | r in starts' ensures IsBlock(size', starts', tail, least, r) {
      MergeBlock(size, starts, tail, least, p, r);
    }
    forall r, t | r in starts' && t in starts' ensures Apart(size', r, t) {
      MergeApart(size, starts, tail, least, p, r, t);
    }
    IsTiling(size', starts', tail, least);
  }

  lemma MergeBlock(size: seq<nat>, starts: set<nat>, tail: nat, least: nat, p: nat, r: nat)
    requires Tiling(size, starts, tail, least) && EqualPair(size, starts, p)
    requires r in starts - {p + size[p]}
    ensures IsBlock(size[p := 2 * size[p]], starts - {p + size[p]}, tail, least, r)
  {
    BlockEnd(size, starts, least, r);
    BlockEnd(size, starts, least, p + size[p]);
    BlockIsPow2(size, starts, least, r);
    Pow2Double(size[r]);
    hide IsPow2;
    assert Apart(size, r, p) && Apart(size, p, r);
  }

  lemma MergeApart(size: seq<nat>, starts: set<nat>, tail: nat, least: nat, p: nat, r: nat, t: nat)
    requires Tiling(size, starts, tail, least) && EqualPair(size, starts, p)
    requires r in starts - {p + size[p]} && t in starts - {p + size[p]}
    ensures Apart(size[p := 2 * size[p]], r, t)
  {
    assert Apart(size, r, t) && Apart(size, p + size[p], t) && Apart(size, p, t);
  }

  /** The sizes after a block has been cut in half. */
  function Halved(size: seq<nat>, p: nat): (r: seq<nat>)
    requires p < |size| && p + size[p] / 2 < |size|
    ensures |r| == |size|
  {
    size[p := size[p] / 2][p + size[p] / 2 := size[p] / 2]
  }

  lemma HalvedAt(size: seq<nat>, p: nat, o: nat)
    requires p < |size| && p + size[p] / 2 < |size| && o < |size|
    ensures Halved(size, p)[o] == if o == p || o == p + size[p] / 2 then size[p] / 2 else size[o]
  {
  }

  lemma SplitKeepsTiling(size: seq<nat>, starts: set<nat>, tail: nat, least: nat, p: nat)
    requires Tiling(size, starts, tail, least)
    requires p in starts && p < tail && size[p] > 1 && least <= size[p] / 2
    ensures var h := size[p] / 2;
            && size[p] == 2 * h && h > 0
            && p + h < tail && p + h !in starts
            && Tiling(Halved(size, p), starts + {p + h}, tail, least)
  {
    var h := size[p] / 2;
    HalfBlock(size, starts, tail, least, p);
    var size', starts' := Halved(size, p), starts + {p + h};
    hide *;
    forall r | r in starts' ensures IsBlock(size', starts', tail, least, r) {
      SplitBlock(size, starts, tail, least, p, r);
    }
    forall r, t | r in starts' && t in starts' ensures Apart(size', r, t) {
      SplitApart(size, starts, tail, least, p, r, t);
    }
    IsTiling(size', starts', tail, least);
  }

  lemma HalfBlock(size: seq<nat>, starts: set<nat>, tail: nat, least: nat, p: nat)
    requires Tiling(size, starts, tail, least)
    requires p in starts && p < tail && size[p] > 1
    ensures 0 in starts && |size| == tail > 0
    ensures var h := size[p] / 2;
            size[p] == 2 * h && h > 0 && IsPow2(h) && p + size[p] <= tail && p + h !in starts
  {
    assert IsBlock(size, starts, tail, least, p);
    Pow2Half(size[p]);
    assert p + size[p] / 2 in starts ==> Apart(size, p, p + size[p] / 2);
  }

  lemma SplitBlock(size: seq<nat>, starts: set<nat>, tail: nat, least: nat, p: nat, r: nat)
    requires Tiling(size, starts, tail, least)
    requires p in starts && p < tail && size[p] > 1 && least <= size[p] / 2 && IsPow2(size[p] / 2)
    requires size[p] == 2 * (size[p] / 2) && p + size[p] <= tail
    requires r in starts + {p + size[p] / 2}
    ensures IsBlock(Halved(size, p), starts + {p + size[p] / 2}, tail, least, r)
  {
    hide IsPow2;
    assert IsBlock(size, starts, tail, least, p);
    if r in starts {
      assert IsBlock(size, starts, tail, least, r);
    }
    HalvedAt(size, p, r);
  }

  lemma SplitApart(size: seq<nat>, starts: set<nat>, tail: nat, least: nat, p: nat, r: nat, t: nat)
    requires Tiling(size, starts, tail, least)
    requires p in starts && p < tail && size[p] > 1 && size[p] == 2 * (size[p] / 2) && p + size[p] <= tail
    requires r in starts + {p + size[p] / 2} && t in starts + {p + size[p] / 2}
    ensures Apart(Halved(size, p), r, t)
  {
    hide IsPow2;
    if r in starts {
      assert IsBlock(size, starts, tail, least, r);
    }
    HalvedAt(size, p, r);
    if r in starts && t in starts {
      assert Apart(size, r, t);
    } else if r in starts {
      assert Apart(size, r, p) && Apart(size, p, r);
    } else if t in starts {
      assert Apart(size, p, t);
    }
  }

  /** Every byte of the region belongs to a block. */
  lemma {:induction false} Covered(size: seq<nat>, starts: set<nat>, tail: nat, least: nat, o: nat) returns (p: nat)
    requires Tiling(size, starts, tail, least) && o < tail
    ensures p in starts && p <= o < p + size[p]
  {
    if o in starts {
      p := o;
    } else {
      p := Covered(size, starts, tail, least, o - 1);
    }
    assert IsBlock(size, starts, tail, least, p) && IsPow2(size[p]);
  }

  /** The header cells that lie in a block of `starts` in use, its own header included, are the same
      in both memories, and the blocks in use are the same blocks. */
  ghost predicate SameUsed(size: seq<nat>, isFree: seq<bool>, starts: set<nat>,
                           size': seq<nat>, isFree': seq<bool>, starts': set<nat>)
  {
    && |size| == |isFree| == |size'| == |isFree'|
    && (forall p: nat | InUse(isFree, starts, p) :: p in starts' &&
          forall o | p <= o < p + size[p] && o < |size| :: size'[o] == size[o] && isFree'[o] == isFree[o])
    && (forall p: nat | InUse(isFree', starts', p) :: InUse(isFree, starts, p))
  }

  predicate InUse(isFree: seq<bool>, starts: set<nat>, p: nat) {
    p in starts && p < |isFree| && !isFree[p]
  }

  lemma SameUsedReflexive(size: seq<nat>, isFree: seq<bool>, starts: set<nat>)
    requires |size| == |isFree|
    ensures SameUsed(size, isFree, starts, size, isFree, starts)
  {
  }

  lemma SameUsedTransitive(size: seq<nat>, isFree: seq<bool>, starts: set<nat>,
                           size': seq<nat>, isFree': seq<bool>, starts': set<nat>,
                           size'': seq<nat>, isFree'': seq<bool>, starts'': set<nat>, least: nat)
    requires Tiling(size, starts, |size|, least)
    requires SameUsed(size, isFree, starts, size', isFree', starts')
    requires SameUsed(size', isFree', starts', size'', isFree'', starts'')
    ensures SameUsed(size, isFree, starts, size'', isFree'', starts'')
  {
    forall p: nat | InUse(isFree, starts, p)
      ensures p in starts''
      ensures forall o | p <= o < p + size[p] && o < |size| :: size''[o] == size[o] && isFree''[o] == isFree[o]
    {
      BlockIsPow2(size, starts, least, p);
      assert InUse(isFree', starts', p);
    }
  }

  /** The offset of the last block when the scan of `vd_buddy_alloc__find`, standing at `block`,
      ends without having looked at it. `seen` says that `block` was looked at as a buddy. */
  function LeftOver(size: seq<nat>, isFree: seq<bool>, block: nat, seen: bool): Option<nat>
    requires |size| == |isFree|
    decreases |size| - block
  {
    if block >= |size| || size[block] == 0 then None
    else
      var buddy := block + size[block];
      if buddy >= |size| then (if seen then None else Some(block))
      else if size[buddy] == 0 then None
      else if isFree[block] && isFree[buddy] && size[block] == size[buddy] then
        LeftOver(size, isFree, buddy + size[buddy], false)
      else if size[block] <= size[buddy] then
        LeftOver(size, isFree, buddy + size[buddy], false)
      else LeftOver(size, isFree, buddy, true)
  }
}

module BuddyScan {
  import opened Bits
  import opened Wrappers
  import opened BuddyTiling

  predicate Fits(size: seq<nat>, isFree: seq<bool>, req: nat, p: nat) {
    p < |size| && p < |isFree| && isFree[p] && req <= size[p]
  }

  /** `best` is free and fits, and no free fitting block but `unseen` is smaller; without a `best`, no
      block but `unseen` is free and fits. */
  ghost predicate IsBestFit(size: seq<nat>, isFree: seq<bool>, starts: set<nat>, req: nat,
                            unseen: Option<nat>, best: Option<nat>)
  {
    && (best.Some? ==> best.value in starts && best != unseen && Fits(size, isFree, req, best.value))
    && (forall p | p in starts && Fits(size, isFree, req, p) ::
          (best.Some? && size[best.value] <= size[p]) || unseen == Some(p))
  }

  /** What a scan that stands at `block` has changed since `size0`, `starts0`: it has merged free
      blocks behind `block`, and written no cell but headers of free blocks. */
  ghost predicate ScanFrame(size0: seq<nat>, starts0: set<nat>, size: seq<nat>, starts: set<nat>,
                            isFree: seq<bool>, block: nat)
  {
    && |size0| == |size| == |isFree|
    && starts <= starts0
    && (forall o | block <= o < |size| :: size[o] == size0[o])
    && (forall p | p in starts0 && p >= block :: p in starts)
    && (forall p | p in starts0 && p !in starts :: p < |isFree| && isFree[p])
    && (forall o | 0 <= o < |size| && size[o] != size0[o] :: o in starts0 && isFree[o])
  }

  /** `best` is the best fit among the blocks before `block`, and `block` too if it was `seen`. A
      best fit at `block` stays one when `block` doubles by merging. */
  ghost predicate BestFit(size: seq<nat>, isFree: seq<bool>, starts: set<nat>, req: nat,
                          block: nat, seen: bool, best: Option<nat>)
  {
    && (best.Some? ==> best.value in starts && best.value <= block && Fits(size, isFree, req, best.value))
    && (best == Some(block) ==> seen)
    && (forall p | p in starts && p < block && Fits(size, isFree, req, p) ::
          best.Some? && size[best.value] <= size[p])
    && (best == Some(block) ==>
          forall p | p in starts && p < block && Fits(size, isFree, req, p) :: 2 * size[block] <= size[p])
    && (seen && Fits(size, isFree, req, block) ==> best.Some? && size[best.value] <= size[block])
  }

  lemma MergeFrame(size0: seq<nat>, starts0: set<nat>, size: seq<nat>, starts: set<nat>, isFree: seq<bool>,
                   block: nat, least: nat)
    requires Tiling(size, starts, |size|, least) && ScanFrame(size0, starts0, size, starts, isFree, block)
    requires EqualPair(size, starts, block) && isFree[block] && isFree[block + size[block]]
    ensures ScanFrame(size0, starts0, size[block := 2 * size[block]], starts - {block + size[block]}, isFree,
                      block + 2 * size[block])
  {
    assert IsBlock(size, starts, |size|, least, block) && IsBlock(size, starts, |size|, least, block + size[block]);
    forall p | p in starts && p >= block + 2 * size[block] ensures p != block + size[block] {
    }
  }

  /** The scan has merged the pair at `block` and moved past it. */
  lemma MergeBest(size: seq<nat>, isFree: seq<bool>, starts: set<nat>, req: nat,
                  block: nat, seen: bool, best: Option<nat>, best': Option<nat>, least: nat)
    requires |size| == |isFree| && Tiling(size, starts, |size|, least)
    requires BestFit(size, isFree, starts, req, block, seen, best)
    requires EqualPair(size, starts, block) && isFree[block] && isFree[block + size[block]]
    requires (best.Some? ==> best.value < |size|)
    requires var size' := size[block := 2 * size[block]];
             best' == if req <= size'[block] && (best.None? || size'[block] <= size'[best.value])
                      then Some(block) else best
    ensures BestFit(size[block := 2 * size[block]], isFree, starts - {block + size[block]}, req,
                    block + 2 * size[block], false, best')
  {
    var size' := size[block := 2 * size[block]];
    var starts' := starts - {block + size[block]};
    BlockEnd(size, starts, least, block);
    forall p | p in starts' && p < block + 2 * size[block] && Fits(size', isFree, req, p)
      ensures best'.Some? && size'[best'.value] <= size'[p]
    {
      assert IsBlock(size, starts, |size|, least, p);
      assert Apart(size, block, p) && Apart(size, block + size[block], p);
    }
  }

  /** The scan has looked at the pair at `block`, not mergeable, and moves on. */
  lemma CompareBest(size: seq<nat>, isFree: seq<bool>, starts: set<nat>, req: nat,
                    block: nat, seen: bool, best: Option<nat>, best': Option<nat>, least: nat)
    requires |size| == |isFree| && Tiling(size, starts, |size|, least)
    requires BestFit(size, isFree, starts, req, block, seen, best)
    requires block in starts && IsBlock(size, starts, |size|, least, block)
    requires block + size[block] in starts && block + size[block] < |size|
    requires !(isFree[block] && isFree[block + size[block]] && size[block] == size[block + size[block]])
    requires (best.Some? ==> best.value < |size|)
    requires var buddy := block + size[block];
             var b1 := if isFree[block] && req <= size[block] && (best.None? || size[block] <= size[best.value])
                       then Some(block) else best;
             best' == if isFree[buddy] && req <= size[buddy] && (b1.None? || size[buddy] < size[b1.value])
                      then Some(buddy) else b1
    ensures var buddy := block + size[block];
            if size[block] <= size[buddy]
            then BestFit(size, isFree, starts, req, buddy + size[buddy], false, best')
            else BestFit(size, isFree, starts, req, buddy, true, best')
  {
    var buddy := block + size[block];
    assert IsBlock(size, starts, |size|, least, buddy);
    forall p | p in starts && p < buddy + size[buddy] && Fits(size, isFree, req, p)
      ensures best'.Some? && size[best'.value] <= size[p]
      ensures best' == Some(buddy) && p != buddy ==> 2 * size[buddy] <= size[p]
    {
      assert Apart(size, block, p) && Apart(size, buddy, p);
      assert IsBlock(size, starts, |size|, least, p);
      if best' == Some(buddy) && p != buddy && size[buddy] < size[p] {
        Pow2Gap(size[buddy], size[p]);
      }
    }
  }

  /** The sizes that the scan, from `block` on, leaves behind. */
  function ScanSizes(size: seq<nat>, isFree: seq<bool>, block: nat): (r: seq<nat>)
    requires |size| == |isFree|
    ensures |r| == |size|
    decreases |size| - block
  {
    if block >= |size| || size[block] == 0 then size
    else
      var buddy := block + size[block];
      if buddy >= |size| || size[buddy] == 0 then size
      else if isFree[block] && isFree[buddy] && size[block] == size[buddy] then
        ScanSizes(size[block := 2 * size[block]], isFree, block + 2 * size[block])
      else if size[block] <= size[buddy] then ScanSizes(size, isFree, buddy + size[buddy])
      else ScanSizes(size, isFree, buddy)
  }

  /** Where a scan begins and what it looks for. */
  datatype Origin = Origin(size: seq<nat>, starts: set<nat>, isFree: seq<bool>, least: nat, req: nat)

  /** The state of a scan that began at `o` and now stands at `block`. */
  ghost predicate Scanning(o: Origin, size: seq<nat>, starts: set<nat>, block: nat, seen: bool, best: Option<nat>) {
    && |o.size| == |size| == |o.isFree|
    && Tiling(size, starts, |size|, o.least) && At(size, starts, block)
    && ScanFrame(o.size, o.starts, size, starts, o.isFree, block)
    && BestFit(size, o.isFree, starts, o.req, block, seen, best)
    && LeftOver(o.size, o.isFree, 0, false) == LeftOver(o.size, o.isFree, block, seen)
    && ScanSizes(o.size, o.isFree, 0) == ScanSizes(size, o.isFree, block)
  }

  lemma ScanStart(o: Origin)
    requires |o.size| == |o.isFree| && Tiling(o.size, o.starts, |o.size|, o.least)
    ensures Scanning(o, o.size, o.starts, 0, false, None)
    ensures o.size[0] > 0
  {
    BlockEnd(o.size, o.starts, o.least, 0);
  }

  /** The offsets that an iteration at `block` reads are in the region. */
  lemma ScanBounds(o: Origin, size: seq<nat>, starts: set<nat>, block: nat, seen: bool, best: Option<nat>)
    requires Scanning(o, size, starts, block, seen, best) && block < |size|
    ensures |size| == |o.isFree|
    ensures size[block] > 0 && block + size[block] <= |size|
    ensures var buddy := block + size[block];
            buddy < |size| ==> size[buddy] > 0 && buddy + size[buddy] <= |size|
    ensures best.Some? ==> best.value < |size|
  {
    BlockEnd(size, starts, o.least, block);
    if block + size[block] < |size| {
      BlockEnd(size, starts, o.least, block + size[block]);
    }
  }

  lemma ScanMerge(o: Origin, size: seq<nat>, starts: set<nat>, block: nat, seen: bool,
                  best: Option<nat>, best': Option<nat>)
    requires Scanning(o, size, starts, block, seen, best)
    requires |size| == |o.isFree| && (best.Some? ==> best.value < |size|)
    requires block < |size| && block + size[block] < |size|
    requires o.isFree[block] && o.isFree[block + size[block]] && size[block] == size[block + size[block]]
    requires var size' := size[block := 2 * size[block]];
             best' == if o.req <= size'[block] && (best.None? || size'[block] <= size'[best.value])
                      then Some(block) else best
    ensures Scanning(o, size[block := 2 * size[block]], starts - {block + size[block]},
                     block + 2 * size[block], false, best')
  {
    BlockEnd(size, starts, o.least, block);
    BlockEnd(size, starts, o.least, block + size[block]);
    MergeKeepsTiling(size, starts, |size|, o.least, block);
    MergeFrame(o.size, o.starts, size, starts, o.isFree, block, o.least);
    MergeBest(size, o.isFree, starts, o.req, block, seen, best, best', o.least);
    hide Tiling, ScanFrame, BestFit;
  }

  lemma ScanCompare(o: Origin, size: seq<nat>, starts: set<nat>, block: nat, seen: bool,
                    best: Option<nat>, best': Option<nat>)
    requires Scanning(o, size, starts, block, seen, best)
    requires |size| == |o.isFree| && (best.Some? ==> best.value < |size|)
    requires block < |size| && block + size[block] < |size|
    requires !(o.isFree[block] && o.isFree[block + size[block]] && size[block] == size[block + size[block]])
    requires var buddy := block + size[block];
             var b1 := if o.isFree[block] && o.req <= size[block] && (best.None? || size[block] <= size[best.value])
                       then Some(block) else best;
             best' == if o.isFree[buddy] && o.req <= size[buddy] && (b1.None? || size[buddy] < size[b1.value])
                      then Some(buddy) else b1
    ensures var buddy := block + size[block];
            if size[block] <= size[buddy]
            then Scanning(o, size, starts, buddy + size[buddy], false, best')
            else Scanning(o, size, starts, buddy, true, best')
  {
    hide IsPow2, BestFit, Fits, LeftOver, ScanSizes, ScanFrame;
    BlockEnd(size, starts, o.least, block);
    BlockEnd(size, starts, o.least, block + size[block]);
    assert IsBlock(size, starts, |size|, o.least, block);
    CompareBest(size, o.isFree, starts, o.req, block, seen, best, best', o.least);
    var next := if size[block] <= size[block + size[block]] then block + size[block] + size[block + size[block]]
                else block + size[block];
    FrameForward(o.size, o.starts, size, starts, o.isFree, block, next);
    CompareRest(o, size, starts, block, seen);
  }

  lemma FrameForward(size0: seq<nat>, starts0: set<nat>, size: seq<nat>, starts: set<nat>, isFree: seq<bool>,
                     block: nat, next: nat)
    requires ScanFrame(size0, starts0, size, starts, isFree, block) && block <= next
    ensures ScanFrame(size0, starts0, size, starts, isFree, next)
  {
  }

  /** What the specifications say of the rest, when the scan moves on. */
  lemma CompareRest(o: Origin, size: seq<nat>, starts: set<nat>, block: nat, seen: bool)
    requires ScanFrame(o.size, o.starts, size, starts, o.isFree, block)
    requires |o.size| == |size| == |o.isFree|
    requires block < |size| && size[block] > 0 && block + size[block] < |size| && size[block + size[block]] > 0
    requires !(o.isFree[block] && o.isFree[block + size[block]] && size[block] == size[block + size[block]])
    ensures var buddy := block + size[block];
            var passed := size[block] <= size[buddy];
            var next := if passed then buddy + size[buddy] else buddy;
            && LeftOver(o.size, o.isFree, block, seen) == LeftOver(o.size, o.isFree, next, !passed)
            && ScanSizes(size, o.isFree, block) == ScanSizes(size, o.isFree, next)
  {
    assert o.size[block] == size[block] && o.size[block + size[block]] == size[block + size[block]];
    hide ScanFrame;
  }

  lemma ScanDone(o: Origin, size: seq<nat>, starts: set<nat>, block: nat, seen: bool, best: Option<nat>)
    requires Scanning(o, size, starts, block, seen, best)
    requires block < |size| ==> block + size[block] >= |size|
    ensures |o.size| == |size| == |o.isFree| && Tiling(size, starts, |size|, o.least)
    ensures ScanFrame(o.size, o.starts, size, starts, o.isFree, |size|)
    ensures size == ScanSizes(o.size, o.isFree, 0)
    ensures IsBestFit(size, o.isFree, starts, o.req, LeftOver(o.size, o.isFree, 0, false), best)
  {
    forall p | p in starts && Fits(size, o.isFree, o.req, p)
      ensures (best.Some? && size[best.value] <= size[p]) || LeftOver(o.size, o.isFree, 0, false) == Some(p)
    {
      BlockEnd(size, starts, o.least, p);
      assert block < |size| ==> Apart(size, block, p);
    }
  }

  /** The block that `vd_buddy_alloc__find` does not look at, if there is one. A free block that fills
      the region is looked at. */
  function Unseen(size: seq<nat>, isFree: seq<bool>): Option<nat>
    requires |size| == |isFree|
  {
    if |size| > 0 && size[0] == |size| then None else LeftOver(size, isFree, 0, false)
  }

  lemma SingleFit(size: seq<nat>, isFree: seq<bool>, starts: set<nat>, least: nat, req: nat)
    requires |size| == |isFree| && Tiling(size, starts, |size|, least) && size[0] == |size| && isFree[0]
    ensures IsBestFit(size, isFree, starts, req, None, if req <= size[0] then Some(0) else None)
  {
    forall p | p in starts ensures p == 0 {
      BlockEnd(size, starts, least, p);
      assert Apart(size, 0, p);
    }
  }

  /** A block that fills the region and is in use cannot fit, so it does not matter that it is unseen. */
  lemma UnseenFit(size0: seq<nat>, isFree: seq<bool>, starts0: set<nat>, least: nat, req: nat,
                  size: seq<nat>, starts: set<nat>, best: Option<nat>)
    requires |size0| == |isFree| && Tiling(size0, starts0, |size0|, least)
    requires !(size0[0] == |size0| && isFree[0])
    requires IsBestFit(size, isFree, starts, req, LeftOver(size0, isFree, 0, false), best)
    ensures IsBestFit(size, isFree, starts, req, Unseen(size0, isFree), best)
  {
    if size0[0] == |size0| {
      assert LeftOver(size0, isFree, 0, false) == Some(0);
    }
  }

  /** A scan leaves the blocks in use as they were. */
  lemma ScanKeepsUsed(size0: seq<nat>, starts0: set<nat>, size: seq<nat>, starts: set<nat>, isFree: seq<bool>, least: nat)
    requires |size0| == |size| && Tiling(size0, starts0, |size0|, least)
    requires ScanFrame(size0, starts0, size, starts, isFree, |size|)
    ensures SameUsed(size0, isFree, starts0, size, isFree, starts)
  {
    forall p, o | p in starts0 && p < |isFree| && !isFree[p] && p <= o < p + size0[p] && o < |size|
      ensures size[o] == size0[o]
    {
      assert o in starts0 ==> Apart(size0, p, o);
    }
  }

  /** The block that a scan leaves unseen is the last one. */
  lemma {:induction false} LeftOverIsLast(size: seq<nat>, isFree: seq<bool>, block: nat, seen: bool)
    requires |size| == |isFree|
    ensures var l := LeftOver(size, isFree, block, seen);
            l.Some? ==> l.value < |size| && size[l.value] > 0 && l.value + size[l.value] >= |size|
    decreases |size| - block
  {
    if block < |size| && size[block] > 0 && block + size[block] < |size| && size[block + size[block]] > 0 {
      var buddy := block + size[block];
      LeftOverIsLast(size, isFree, buddy + size[buddy], false);
      LeftOverIsLast(size, isFree, buddy, true);
    }
  }
}

/** The size of the block that serves a request. */
module BuddyRequest {
  import opened Bits
  import opened BuddyTiling

  /** `r` is the least power of two that is at least `alignment` and holds the header and the request. */
  ghost predicate IsBlockFor(alignment: nat, request: nat, r: nat) {
    && IsPow2(r) && alignment <= r && request + HEADER_SIZE <= r
    && forall q: nat | IsPow2(q) && alignment <= q && request + HEADER_SIZE <= q :: r <= q
  }

  predicate IsMultiple(x: nat, m: nat) {
    m > 0 && x % m == 0
  }

  lemma Quotient(x: nat, m: nat) returns (j: nat)
    requires IsMultiple(x, m)
    ensures x == j * m
  {
    j := x / m;
  }

  lemma RoundUpMultiple(p: nat, m: nat)
    requires m > 0
    ensures p % m == 0 || (p + m - p % m) % m == 0
  {
    var q := p / m;
    assert p == q * m + p % m;
    assert (q + 1) * m == q * m + m;
    ModUnique((q + 1) * m, m, q + 1, 0);
  }

  lemma LeastBlock(alignment: nat, request: nat, aligned: nat, r: nat)
    requires IsPow2(alignment) && IsPow2(r) && alignment <= r
    requires request + HEADER_SIZE <= aligned < request + HEADER_SIZE + alignment && IsMultiple(aligned, alignment)
    requires aligned <= r && (r == alignment || r < 2 * aligned)
    ensures IsBlockFor(alignment, request, r)
  {
    forall q: nat | IsPow2(q) && alignment <= q && request + HEADER_SIZE <= q ensures r <= q {
      NoBlockBelow(alignment, request, aligned, r, q);
    }
  }

  lemma NoBlockBelow(alignment: nat, request: nat, aligned: nat, r: nat, q: nat)
    requires IsPow2(alignment) && IsPow2(r) && IsPow2(q) && alignment <= r && alignment <= q
    requires request + HEADER_SIZE <= q && request + HEADER_SIZE <= aligned < request + HEADER_SIZE + alignment
    requires IsMultiple(aligned, alignment) && (r == alignment || r < 2 * aligned)
    ensures r <= q
  {
    if q < r {
      Pow2Gap(q, r);
      hide *;
      var i := Pow2Multiple(alignment, q);
      var j := Quotient(aligned, alignment);
      CloseMultiples(alignment, q, aligned, i, j);
    }
  }
}

/** Cutting a block down to size. */
module BuddySplit {
  import opened Bits
  import opened BuddyTiling

  /** A cut of the block `b` of `size0` that has come to `block`: the pieces left of `block` have
      each half of what was left when they were cut off, and they and `block` are free. */
  ghost predicate Splitting(size0: seq<nat>, free0: seq<bool>, starts0: set<nat>, b: nat,
                            size: seq<nat>, isFree: seq<bool>, starts: set<nat>, block: nat)
  {
    && |size0| == |free0| == |size| == |isFree|
    && b in starts0 && b <= block < |size| && block in starts && starts0 <= starts
    && block + size[block] == b + size0[b] <= |size|
    && (forall p | p in starts && p !in starts0 :: b < p <= block)
    && (forall p | p in starts && b <= p <= block :: p < |size| && isFree[p])
    && (forall p | p in starts && b <= p < block :: p < |size| && p + 2 * size[p] == b + size0[b])
    && (forall o | 0 <= o < |size| && !(b <= o < b + size0[b]) :: size[o] == size0[o] && isFree[o] == free0[o])
  }

  lemma SplitStart(size: seq<nat>, isFree: seq<bool>, starts: set<nat>, least: nat, b: nat)
    requires Tiling(size, starts, |size|, least) && |size| == |isFree| && b in starts && b < |size| && isFree[b]
    ensures Splitting(size, isFree, starts, b, size, isFree, starts, b)
  {
    BlockEnd(size, starts, least, b);
  }

  lemma SplitStep(size0: seq<nat>, free0: seq<bool>, starts0: set<nat>, b: nat, least: nat, req: nat,
                  size: seq<nat>, isFree: seq<bool>, starts: set<nat>, block: nat)
    requires Tiling(size, starts, |size|, least)
    requires Splitting(size0, free0, starts0, b, size, isFree, starts, block)
    requires IsPow2(req) && least <= req < size[block]
    ensures var h := size[block] / 2;
            && 0 < h && req <= h && size[block] == 2 * h && block + h < |size|
            && Tiling(Halved(size, block), starts + {block + h}, |size|, least)
            && Splitting(size0, free0, starts0, b, Halved(size, block), isFree[block + h := true],
                         starts + {block + h}, block + h)
  {
    BlockIsPow2(size, starts, least, block);
    Pow2Gap(req, size[block]);
    SplitKeepsTiling(size, starts, |size|, least, block);
    var h := size[block] / 2;
    var size' := Halved(size, block);
    forall o: nat | o < |size| ensures size'[o] == if o == block || o == block + h then h else size[o] {
      HalvedAt(size, block, o);
    }
    forall p | p in starts ensures !(block < p <= block + h) {
      assert Apart(size, block, p);
    }
    hide Tiling, Halved, IsPow2;
  }

  lemma SplitDone(size0: seq<nat>, free0: seq<bool>, starts0: set<nat>, b: nat, least: nat, req: nat,
                  size: seq<nat>, isFree: seq<bool>, starts: set<nat>, block: nat)
    requires Tiling(size0, starts0, |size0|, least)
    requires Splitting(size0, free0, starts0, b, size, isFree, starts, block) && free0[b]
    requires size[block] == req
    ensures SameUsed(size0, free0, starts0, size, isFree, starts)
    ensures block < |isFree| && isFree[block] && block in starts
  {
    forall p: nat | InUse(free0, starts0, p) ensures p + size0[p] <= b || p >= b + size0[b] {
      assert Apart(size0, p, b) && Apart(size0, b, p);
    }
    forall p: nat | InUse(isFree, starts, p) ensures InUse(free0, starts0, p) {
      if p in starts0 {
        assert Apart(size0, b, p);
      }
    }
  }
}

/** The passes of `vd_buddy_alloc__coalescence`. */
module BuddyCoalescing {
  import opened BuddyTiling
  import opened BuddyScan

  predicate Mergeable(size: seq<nat>, isFree: seq<bool>, p: nat, q: nat)
    requires p < |size| == |isFree| && q < |size|
  {
    isFree[p] && isFree[q] && size[p] == size[q]
  }

  /** A pass that stands at `p` finds no pair to merge in the rest of the region. */
  predicate Settled(size: seq<nat>, isFree: seq<bool>, p: nat)
    requires |size| == |isFree|
    decreases |size| - p
  {
    p >= |size| || size[p] == 0 || p + size[p] >= |size| || size[p + size[p]] == 0 ||
    var q := p + size[p];
    !Mergeable(size, isFree, p, q) && Settled(size, isFree, if size[p] < size[q] then q else q + size[q])
  }

  /** The sizes that a pass, from `p` on, leaves behind. */
  function PassSizes(size: seq<nat>, isFree: seq<bool>, p: nat): (r: seq<nat>)
    requires |size| == |isFree|
    ensures |r| == |size|
    decreases |size| - p
  {
    if p >= |size| || size[p] == 0 || p + size[p] >= |size| || size[p + size[p]] == 0 then size
    else
      var q := p + size[p];
      if Mergeable(size, isFree, p, q) then PassSizes(size[p := 2 * size[p]], isFree, p + 2 * size[p])
      else PassSizes(size, isFree, if size[p] < size[q] then q else q + size[q])
  }

  /** The sizes after `n` passes. */
  function Passes(size: seq<nat>, isFree: seq<bool>, n: nat): (r: seq<nat>)
    requires |size| == |isFree|
    ensures |r| == |size|
  {
    if n == 0 then size else PassSizes(Passes(size, isFree, n - 1), isFree, 0)
  }

  lemma PassesStart(size: seq<nat>, isFree: seq<bool>)
    requires |size| == |isFree|
    ensures Passes(size, isFree, 0) == size
  {
  }

  lemma PassesStep(size: seq<nat>, isFree: seq<bool>, n: nat)
    requires |size| == |isFree|
    ensures Passes(size, isFree, n + 1) == PassSizes(Passes(size, isFree, n), isFree, 0)
  {
  }

  /** Another pass over settled memory changes nothing. */
  lemma {:induction false} SettledStays(size: seq<nat>, isFree: seq<bool>, p: nat)
    requires |size| == |isFree| && Settled(size, isFree, p)
    ensures PassSizes(size, isFree, p) == size
    decreases |size| - p
  {
    if !(p >= |size| || size[p] == 0 || p + size[p] >= |size| || size[p + size[p]] == 0) {
      var q := p + size[p];
      SettledStays(size, isFree, if size[p] < size[q] then q else q + size[q]);
    }
  }

  /** A pass that stands at `p` comes to stand at `t` without having found a pair to merge. */
  predicate Reaches(size: seq<nat>, isFree: seq<bool>, p: nat, t: nat)
    requires |size| == |isFree|
    decreases |size| - p
  {
    p == t ||
    (p < |size| && size[p] > 0 && p + size[p] < |size| && size[p + size[p]] > 0 &&
     var q := p + size[p];
     !Mergeable(size, isFree, p, q) && Reaches(size, isFree, if size[p] < size[q] then q else q + size[q], t))
  }

  lemma {:induction false} ReachesStep(size: seq<nat>, isFree: seq<bool>, p: nat, t: nat)
    requires |size| == |isFree| && Reaches(size, isFree, p, t)
    requires t < |size| && size[t] > 0 && t + size[t] < |size| && size[t + size[t]] > 0
    requires !Mergeable(size, isFree, t, t + size[t])
    ensures var q := t + size[t];
            Reaches(size, isFree, p, if size[t] < size[q] then q else q + size[q])
    decreases |size| - p
  {
    if p != t {
      var q := p + size[p];
      ReachesStep(size, isFree, if size[p] < size[q] then q else q + size[q], t);
    } else {
      var q := t + size[t];
      var n := if size[t] < size[q] then q else q + size[q];
      assert Reaches(size, isFree, n, n);
    }
  }

  /** Where the way leads to the last block, nothing on it can be merged. */
  lemma {:induction false} ReachedEnd(size: seq<nat>, isFree: seq<bool>, p: nat, t: nat)
    requires |size| == |isFree| && Reaches(size, isFree, p, t)
    requires t >= |size| || t + size[t] >= |size|
    ensures Settled(size, isFree, p)
    decreases |size| - p
  {
    if p != t {
      var q := p + size[p];
      ReachedEnd(size, isFree, if size[p] < size[q] then q else q + size[q], t);
    }
  }

  /** The way to `t` stays the same when the block at `t` doubles. */
  lemma {:induction false} ReachesGrown(size: seq<nat>, isFree: seq<bool>, p: nat, t: nat)
    requires |size| == |isFree| && t < |size| && size[t] > 0 && Reaches(size, isFree, p, t)
    ensures Reaches(size[t := 2 * size[t]], isFree, p, t)
    decreases |size| - p
  {
    if p != t {
      var q := p + size[p];
      var n := if size[p] < size[q] then q else q + size[q];
      ReachesGrown(size, isFree, n, t);
      ReachesForward(size, isFree, n, t);
    }
  }

  lemma {:induction false} ReachesForward(size: seq<nat>, isFree: seq<bool>, p: nat, t: nat)
    requires |size| == |isFree| && Reaches(size, isFree, p, t)
    ensures p <= t
    decreases |size| - p
  {
    if p != t {
      var q := p + size[p];
      ReachesForward(size, isFree, if size[p] < size[q] then q else q + size[q], t);
    }
  }

  /** A pass that began at `size0`, `starts0` and stands at `block`; `quiet` is `no_coalescence`. */
  ghost predicate Passing(size0: seq<nat>, starts0: set<nat>, isFree: seq<bool>, least: nat,
                          size: seq<nat>, starts: set<nat>, block: nat, quiet: bool)
  {
    && |size0| == |size| == |isFree|
    && Tiling(size, starts, |size|, least) && At(size, starts, block)
    && ScanFrame(size0, starts0, size, starts, isFree, block)
    && PassSizes(size0, isFree, 0) == PassSizes(size, isFree, block)
    && (quiet && block < |size| ==> Reaches(size, isFree, 0, block))
    && (quiet && block == |size| ==> Settled(size, isFree, 0))
    && (!quiet ==> |starts| < |starts0|)
  }

  lemma PassStart(size: seq<nat>, starts: set<nat>, isFree: seq<bool>, least: nat)
    requires |size| == |isFree| && Tiling(size, starts, |size|, least)
    ensures Passing(size, starts, isFree, least, size, starts, 0, true)
    ensures size[0] > 0
  {
    BlockEnd(size, starts, least, 0);
  }

  lemma PassBounds(size0: seq<nat>, starts0: set<nat>, isFree: seq<bool>, least: nat,
                   size: seq<nat>, starts: set<nat>, block: nat, quiet: bool)
    requires Passing(size0, starts0, isFree, least, size, starts, block, quiet) && block < |size|
    ensures size[block] > 0 && block + size[block] <= |size| == |isFree|
    ensures var buddy := block + size[block];
            buddy < |size| ==> size[buddy] > 0 && buddy + size[buddy] <= |size|
  {
    BlockEnd(size, starts, least, block);
    if block + size[block] < |size| {
      BlockEnd(size, starts, least, block + size[block]);
    }
  }

  lemma PassMerge(size0: seq<nat>, starts0: set<nat>, isFree: seq<bool>, least: nat,
                  size: seq<nat>, starts: set<nat>, block: nat, quiet: bool)
    requires Passing(size0, starts0, isFree, least, size, starts, block, quiet)
    requires block < |size| == |isFree| && block + size[block] < |size|
    requires Mergeable(size, isFree, block, block + size[block])
    ensures Passing(size0, starts0, isFree, least, size[block := 2 * size[block]], starts - {block + size[block]},
                    block + 2 * size[block], quiet && block + 2 * size[block] == |size|)
  {
    PassBounds(size0, starts0, isFree, least, size, starts, block, quiet);
    BlockEnd(size, starts, least, block);
    var size', starts' := size[block := 2 * size[block]], starts - {block + size[block]};
    MergeKeepsTiling(size, starts, |size|, least, block);
    MergeFrame(size0, starts0, size, starts, isFree, block, least);
    BlockEnd(size', starts', least, block);
    Subset(starts', starts);
    Subset(starts, starts0);
    if quiet && block + 2 * size[block] == |size| {
      ReachesGrown(size, isFree, 0, block);
      ReachedEnd(size', isFree, 0, block);
    }
    hide Tiling, ScanFrame, Settled, Reaches;
  }

  lemma Subset(a: set<nat>, b: set<nat>)
    requires a <= b
    ensures |a| <= |b| && (a != b ==> |a| < |b|)
  {
    assert |b - a| + |a| == |b| by {
      assert (b - a) + a == b;
    }
    if a != b {
      var x :| x in b - a;
      assert |b - a| > 0;
    }
  }

  lemma PassSkip(size0: seq<nat>, starts0: set<nat>, isFree: seq<bool>, least: nat,
                 size: seq<nat>, starts: set<nat>, block: nat, quiet: bool)
    requires Passing(size0, starts0, isFree, least, size, starts, block, quiet)
    requires block < |size| == |isFree| && block + size[block] < |size|
    requires !Mergeable(size, isFree, block, block + size[block])
    ensures var q := block + size[block];
            Passing(size0, starts0, isFree, least, size, starts,
                    if size[block] < size[q] then q else q + size[q], quiet)
  {
    PassBounds(size0, starts0, isFree, least, size, starts, block, quiet);
    BlockEnd(size, starts, least, block);
    BlockEnd(size, starts, least, block + size[block]);
    if quiet {
      ReachesStep(size, isFree, 0, block);
      var q := block + size[block];
      var n := if size[block] < size[q] then q else q + size[q];
      if n == |size| {
        ReachedEnd(size, isFree, 0, n);
      }
    }
    hide Tiling, Settled, Reaches;
  }

  lemma PassDone(size0: seq<nat>, starts0: set<nat>, isFree: seq<bool>, least: nat,
                 size: seq<nat>, starts: set<nat>, block: nat, quiet: bool)
    requires Passing(size0, starts0, isFree, least, size, starts, block, quiet)
    requires block < |size| ==> block + size[block] >= |size|
    ensures |size0| == |size| == |isFree| && Tiling(size, starts, |size|, least)
    ensures ScanFrame(size0, starts0, size, starts, isFree, |size|)
    ensures size == PassSizes(size0, isFree, 0)
    ensures quiet ==> Settled(size, isFree, 0)
    ensures !quiet ==> |starts| < |starts0|
  {
    if quiet && block < |size| {
      ReachedEnd(size, isFree, 0, block);
    }
    hide Tiling;
  }
}

/** What an allocation answers, and where the block comes from. */
module BuddyAnswer {
  import opened Wrappers
  import opened BuddyTiling
  import opened BuddyScan
  import opened BuddySplit
  import opened BuddyCoalescing

  /** The blocks that a scan leaves, and the one it chooses. */
  datatype Choice = Choice(starts: set<nat>, best: Option<nat>)

  /** The memory, and the block found in it. */
  datatype Outcome = Outcome(size: seq<nat>, isFree: seq<bool>, starts: set<nat>, found: Option<nat>)

  /** What `vd_buddy_alloc__find` answers for the memory `from`. It scans the memory. If it finds no block
      to choose there, that is all; otherwise it cuts a piece of size `req` out of the best fit. */
  ghost predicate Answer(from: seq<nat>, fromFree: seq<bool>, least: nat, req: nat, c: Choice, out: Outcome)
    requires |from| == |fromFree|
  {
    var mid := ScanSizes(from, fromFree, 0);
    && Tiling(mid, c.starts, |mid|, least)
    && IsBestFit(mid, fromFree, c.starts, req, Unseen(from, fromFree), c.best)
    && out.found.Some? == c.best.Some?
    && (out.found.None? ==> out == Outcome(mid, fromFree, c.starts, None))
    && (out.found.Some? ==> Cut(mid, fromFree, req, c, out))
  }

  ghost predicate Cut(mid: seq<nat>, midFree: seq<bool>, req: nat, c: Choice, out: Outcome)
    requires out.found.Some? && c.best.Some?
  {
    && Splitting(mid, midFree, c.starts, c.best.value, out.size, out.isFree, out.starts, out.found.value)
    && out.found.value < |out.size| && out.size[out.found.value] == req
  }

  /** A block is found unless the only free one that fits, after the scan, is the one it leaves unseen. */
  lemma AnswersNoneIff(from: seq<nat>, fromFree: seq<bool>, least: nat, req: nat, c: Choice, out: Outcome)
    requires |from| == |fromFree| && Answer(from, fromFree, least, req, c, out)
    ensures out.found.None? <==>
            forall p | p in c.starts && Fits(ScanSizes(from, fromFree, 0), fromFree, req, p) ::
              Unseen(from, fromFree) == Some(p)
  {
    hide ScanSizes, Tiling, Cut;
  }

  /** The answer of an allocation: the first `find` succeeds; or it does not, and `find` answers for the
      memory that the passes of coalescing leave once they have nothing left to merge. */
  ghost predicate Served(size0: seq<nat>, free0: seq<bool>, least: nat, req: nat, out: Outcome) {
    && |size0| == |free0|
    && ((out.found.Some? && exists c :: Answer(size0, free0, least, req, c, out))
        || ((exists c, first: Outcome :: first.found.None? && Answer(size0, free0, least, req, c, first))
            && (exists n: nat, c ::
                 AnswerSettled(Passes(ScanSizes(size0, free0, 0), free0, n), free0, least, req, c, out))))
  }

  ghost predicate AnswerSettled(settled: seq<nat>, isFree: seq<bool>, least: nat, req: nat, c: Choice, out: Outcome) {
    |settled| == |isFree| && Settled(settled, isFree, 0) && Answer(settled, isFree, least, req, c, out)
  }

  lemma ServedAtOnce(size0: seq<nat>, free0: seq<bool>, least: nat, req: nat, c: Choice, out: Outcome)
    requires |size0| == |free0| && out.found.Some? && Answer(size0, free0, least, req, c, out)
    ensures Served(size0, free0, least, req, out)
  {
  }

  lemma IsAnswerSettled(settled: seq<nat>, isFree: seq<bool>, least: nat, req: nat, c: Choice, out: Outcome)
    requires |settled| == |isFree| && Settled(settled, isFree, 0) && Answer(settled, isFree, least, req, c, out)
    ensures AnswerSettled(settled, isFree, least, req, c, out)
  {
  }

  lemma ServedSettled(size0: seq<nat>, free0: seq<bool>, least: nat, req: nat, c0: Choice, first: Outcome,
                      n: nat, c: Choice, out: Outcome)
    requires |size0| == |free0| == |first.size| && first.found.None? && Answer(size0, free0, least, req, c0, first)
    requires AnswerSettled(Passes(first.size, free0, n), free0, least, req, c, out)
    ensures Served(size0, free0, least, req, out)
  {
  }
}

/** What the blocks in use mean to the callers. `live` maps the block of each allocation that has not
    been freed to the size that was requested. */
module BuddyLive {
  import opened Bits
  import opened Wrappers
  import opened BuddyTiling
  import opened BuddyRequest
  import opened BuddyScan
  import opened BuddyAnswer

  ghost predicate LiveBlocks(size: seq<nat>, isFree: seq<bool>, starts: set<nat>, alignment: nat, live: map<nat, nat>) {
    && |size| == |isFree|
    && (forall p: nat :: p in live <==> InUse(isFree, starts, p))
    && (forall p: nat | p in live :: p < |size| && IsBlockFor(alignment, live[p], size[p]))
  }

  /** No header cell inside the blocks `ps` has changed. */
  ghost predicate CellsKept(size: seq<nat>, isFree: seq<bool>, ps: set<nat>, size': seq<nat>, isFree': seq<bool>) {
    && |size| == |isFree| == |size'| == |isFree'|
    && forall p, o | p in ps && p < |size| && p <= o < p + size[p] && o < |size| ::
         size'[o] == size[o] && isFree'[o] == isFree[o]
  }

  lemma LiveKept(size: seq<nat>, isFree: seq<bool>, starts: set<nat>, alignment: nat, live: map<nat, nat>,
                 size': seq<nat>, isFree': seq<bool>, starts': set<nat>)
    requires LiveBlocks(size, isFree, starts, alignment, live)
    requires SameUsed(size, isFree, starts, size', isFree', starts')
    ensures LiveBlocks(size', isFree', starts', alignment, live)
    ensures CellsKept(size, isFree, live.Keys, size', isFree')
  {
    hide IsBlockFor;
    forall p: nat | p in live ensures InUse(isFree', starts', p) && size'[p] == size[p] {
      assert InUse(isFree, starts, p) && size[p] > 0 by { BlockForPositive(alignment, live[p], size[p]); }
      assert size'[p] == size[p] && isFree'[p] == isFree[p];
    }
  }

  lemma BlockForPositive(alignment: nat, request: nat, r: nat)
    requires IsBlockFor(alignment, request, r)
    ensures r >= HEADER_SIZE && r >= request + HEADER_SIZE
  {
  }

  lemma LiveSizes(size: seq<nat>, isFree: seq<bool>, starts: set<nat>, alignment: nat, live: map<nat, nat>)
    requires LiveBlocks(size, isFree, starts, alignment, live)
    ensures forall p | p in live && p < |size| :: size[p] > 0
  {
    forall p: nat | p in live ensures size[p] > 0 {
      BlockForPositive(alignment, live[p], size[p]);
    }
  }

  lemma CellsKeptTransitive(size: seq<nat>, isFree: seq<bool>, ps: set<nat>, size': seq<nat>, isFree': seq<bool>,
                            size'': seq<nat>, isFree'': seq<bool>)
    requires CellsKept(size, isFree, ps, size', isFree') && CellsKept(size', isFree', ps, size'', isFree'')
    requires forall p | p in ps && p < |size| :: size[p] > 0
    ensures CellsKept(size, isFree, ps, size'', isFree'')
  {
    forall p, o | p in ps && p < |size| && p <= o < p + size[p] && o < |size|
      ensures size''[o] == size[o] && isFree''[o] == isFree[o]
    {
      assert size'[p] == size[p];
      assert size'[o] == size[o];
    }
  }

  lemma LiveTaken(size: seq<nat>, isFree: seq<bool>, starts: set<nat>, alignment: nat, live: map<nat, nat>,
                  least: nat, found: nat, request: nat)
    requires LiveBlocks(size, isFree, starts, alignment, live) && Tiling(size, starts, |size|, least)
    requires found in starts && found < |size| && isFree[found] && IsBlockFor(alignment, request, size[found])
    ensures found !in live
    ensures LiveBlocks(size, isFree[found := false], starts, alignment, live[found := request])
    ensures CellsKept(size, isFree, live.Keys, size, isFree[found := false])
  {
    hide IsBlockFor, IsPow2;
    assert !InUse(isFree, starts, found);
    var isFree', live' := isFree[found := false], live[found := request];
    forall p: nat ensures p in live' <==> InUse(isFree', starts, p) {
      assert p in live <==> InUse(isFree, starts, p);
    }
    forall p: nat | p in live ensures !(p <= found < p + size[p]) {
      assert InUse(isFree, starts, p);
      assert Apart(size, p, found);
    }
  }

  lemma LiveFreed(size: seq<nat>, isFree: seq<bool>, starts: set<nat>, alignment: nat, live: map<nat, nat>,
                  least: nat, p: nat)
    requires LiveBlocks(size, isFree, starts, alignment, live) && Tiling(size, starts, |size|, least) && p in live
    ensures p < |isFree| && LiveBlocks(size, isFree[p := true], starts, alignment, live - {p})
    ensures CellsKept(size, isFree, live.Keys - {p}, size, isFree[p := true])
  {
    hide IsBlockFor, IsPow2;
    assert InUse(isFree, starts, p);
    forall q: nat ensures InUse(isFree[p := true], starts, q) <==> q in live - {p} {
      assert q in live <==> InUse(isFree, starts, q);
    }
    forall q: nat | q in live && q != p ensures !(q <= p < q + size[q]) {
      assert InUse(isFree, starts, q);
      assert Apart(size, q, p);
    }
  }

  /** No block but the last is free and large enough. */
  ghost predicate OnlyLast(size: seq<nat>, isFree: seq<bool>, starts: set<nat>, req: nat) {
    forall p | p in starts && Fits(size, isFree, req, p) :: p != 0 && p + size[p] == |size|
  }

  /** After a failed allocation nothing but the last block can be free and large enough. */
  lemma FailedFind(size0: seq<nat>, isFree: seq<bool>, starts0: set<nat>, least: nat, req: nat,
                   c: Choice, out: Outcome)
    requires |size0| == |isFree| && Tiling(size0, starts0, |size0|, least)
    requires out.found.None? && Answer(size0, isFree, least, req, c, out) && out.starts <= starts0
    ensures OnlyLast(out.size, out.isFree, out.starts, req)
  {
    hide ScanSizes;
    var size, starts := out.size, out.starts;
    LeftOverIsLast(size0, isFree, 0, false);
    forall p | p in starts && Fits(size, isFree, req, p) ensures p != 0 && p + size[p] == |size| {
      BlockEnd(size0, starts0, least, p);
      BlockEnd(size, starts, least, p);
      assert p + size[p] in starts0 ==> Apart(size0, p, p + size[p]);
    }
  }

  /** The bytes handed out for the live allocations `p` and `q` are disjoint, they lie in the region,
      and no header lies among them. */
  lemma PayloadsDisjoint(size: seq<nat>, isFree: seq<bool>, starts: set<nat>, alignment: nat, live: map<nat, nat>,
                         least: nat, p: nat, q: nat)
    requires LiveBlocks(size, isFree, starts, alignment, live) && Tiling(size, starts, |size|, least)
    requires alignment == HEADER_SIZE <= least && p in live && q in starts
    ensures p + alignment + live[p] <= |size|
    ensures q in live && q != p ==> q + alignment + live[q] <= p + alignment || p + alignment + live[p] <= q + alignment
    ensures q + HEADER_SIZE <= p + alignment || p + alignment + live[p] <= q
  {
    assert InUse(isFree, starts, p);
    BlockEnd(size, starts, least, p);
    BlockEnd(size, starts, least, q);
    BlockForPositive(alignment, live[p], size[p]);
    BlockIsPow2(size, starts, least, q);
    if q in live {
      BlockForPositive(alignment, live[q], size[q]);
    }
    assert Apart(size, p, q) && Apart(size, q, p);
  }

  /** The payload starts `alignment` bytes into the block, while only the header is added to the
      request: every request fits its block if and only if the alignment is the header size. */
  lemma PayloadFitsIff(alignment: nat)
    requires IsPow2(alignment) && HEADER_SIZE <= alignment
    ensures (forall request: nat, r: nat | IsBlockFor(alignment, request, r) :: alignment + request <= r)
            <==> alignment == HEADER_SIZE
  {
    if alignment > HEADER_SIZE {
      var request := alignment - HEADER_SIZE;
      assert IsBlockFor(alignment, request, alignment);
      assert alignment + request > alignment;
    }
  }

  /** A free block of 32 bytes at the end of this region, behind two live allocations of 0 bytes, is missed
      by a search for 16. */
  lemma UnseenBlock()
    ensures var size := seq(64, i => if i == 0 || i == 16 then 16 else if i == 32 then 32 else 0);
            var isFree := seq(64, i => i == 32);
            && Tiling(size, {0, 16, 32}, 64, 16)
            && LiveBlocks(size, isFree, {0, 16, 32}, 16, map[0 := 0, 16 := 0])
            && IsBlockFor(16, 0, 16)
            && Fits(size, isFree, 16, 32)
            && Unseen(size, isFree) == Some(32)
            && IsBestFit(size, isFree, {0, 16, 32}, 16, Unseen(size, isFree), None)
  {
    var size := seq(64, i => if i == 0 || i == 16 then 16 else if i == 32 then 32 else 0);
    var isFree := seq(64, i => i == 32);
    Sixteen();
    forall p | p in {0, 16, 32} ensures IsBlock(size, {0, 16, 32}, 64, 16, p) {
    }
    IsTiling(size, {0, 16, 32}, 64, 16);
    assert LeftOver(size, isFree, 0, false) == LeftOver(size, isFree, 32, false) == Some(32);
  }

  lemma OneBlock(size: seq<nat>, isFree: seq<bool>, least: nat)
    requires |size| == |isFree| > 0 && size[0] == |size| && IsPow2(|size|) && least <= |size|
    requires forall o | 0 <= o < |isFree| :: isFree[o]
    ensures Tiling(size, {0}, |size|, least)
    ensures forall p: nat :: !InUse(isFree, {0}, p)
  {
    assert IsBlock(size, {0}, |size|, least, 0);
  }

  lemma Sixteen()
    ensures IsPow2(8) && IsPow2(16) && IsPow2(32)
  {
    assert IsPow2(2);
    assert IsPow2(4);
    assert IsPow2(8);
  }

  /** The sizes of the blocks `ps` that begin before `n`, added up. */
  ghost function SumBelow(size: seq<nat>, ps: set<nat>, n: nat): nat
    requires n <= |size|
  {
    if n == 0 then 0 else SumBelow(size, ps, n - 1) + (if n - 1 in ps then size[n - 1] else 0)
  }

  ghost function CountBelow(ps: set<nat>, n: nat): nat {
    if n == 0 then 0 else CountBelow(ps, n - 1) + (if n - 1 in ps then 1 else 0)
  }

  /** Between a block start and the next one there is nothing to add up. */
  lemma {:induction false} SkipGap(size: seq<nat>, ps: set<nat>, a: nat, b: nat)
    requires a < b <= |size| && forall o | a < o < b :: o !in ps
    ensures SumBelow(size, ps, b) == SumBelow(size, ps, a) + (if a in ps then size[a] else 0)
    ensures CountBelow(ps, b) == CountBelow(ps, a) + (if a in ps then 1 else 0)
    decreases b
  {
    if a + 1 < b {
      SkipGap(size, ps, a, b - 1);
    }
  }

  lemma BlockStats(size: seq<nat>, isFree: seq<bool>, starts: set<nat>, alignment: nat, live: map<nat, nat>,
                   least: nat, p: nat)
    requires LiveBlocks(size, isFree, starts, alignment, live) && Tiling(size, starts, |size|, least)
    requires At(size, starts, p) && p < |size|
    ensures var n := p + size[p];
            && size[p] > 0 && n <= |size| == |isFree| && At(size, starts, n)
            && CountBelow(starts, n) == CountBelow(starts, p) + 1
            && CountBelow(live.Keys, n) == CountBelow(live.Keys, p) + (if isFree[p] then 0 else 1)
            && SumBelow(size, live.Keys, n) == SumBelow(size, live.Keys, p) + (if isFree[p] then 0 else size[p])
  {
    BlockEnd(size, starts, least, p);
    assert p in live <==> InUse(isFree, starts, p);
    forall o | p < o < p + size[p] ensures o !in starts && o !in live {
      assert o in starts ==> Apart(size, p, o);
      assert o in live <==> InUse(isFree, starts, o);
    }
    SkipGap(size, starts, p, p + size[p]);
    SkipGap(size, live.Keys, p, p + size[p]);
  }

  lemma AllCounted(size: seq<nat>, isFree: seq<bool>, starts: set<nat>, alignment: nat, live: map<nat, nat>, least: nat)
    requires LiveBlocks(size, isFree, starts, alignment, live) && Tiling(size, starts, |size|, least)
    ensures CountBelow(starts, |size|) == |starts| && CountBelow(live.Keys, |size|) == |live|
  {
    forall p | p in starts ensures p < |size| {
      BlockEnd(size, starts, least, p);
    }
    CountAll(starts, |size|);
    CountAll(live.Keys, |size|);
  }

  lemma {:induction false} CountAll(ps: set<nat>, n: nat)
    requires forall p | p in ps :: p < n
    ensures CountBelow(ps, n) == |ps|
    decreases n
  {
    if n == 0 {
      assert ps == {};
    } else if n - 1 in ps {
      CountAll(ps - {n - 1}, n - 1);
      CountSame(ps - {n - 1}, ps, n - 1);
    } else {
      CountAll(ps, n - 1);
    }
  }

  lemma {:induction false} CountSame(ps: set<nat>, qs: set<nat>, n: nat)
    requires forall o | o < n :: o in ps <==> o in qs
    ensures CountBelow(ps, n) == CountBelow(qs, n)
  {
    if n > 0 {
      CountSame(ps, qs, n - 1);
    }
  }
}
