// Whole runs of the page allocator: which frames are free, reserved by the boot
// map, or held by an allocation, over any sequence of get_free_pages, kmalloc
// and free_page calls.
module PageRuns {
  import BootMap
  import opened FrameBitmap
  import opened FrameSearch
  import opened Options
  import opened PageAllocator
  import opened Words

  // An allocation: `count` frames from `start`, made for `bytes` bytes, and the
  // frames of it not given back yet.
  datatype Block = Block(start: nat, count: nat, bytes: nat, live: set<nat>)

  datatype State = State(busy: set<nat>, blocks: seq<Block>)

  datatype Op =
    | GetFreePages(count: u32)
    | Kmalloc(size: u32)
    | FreePage(ptr: u32)

  // Clients give back only frames they hold, by any address in them.  Giving
  // back NULL is always allowed.
  ghost predicate Legal(s: State, op: Op) {
    op.FreePage? && op.ptr != 0 ==> Held(s.blocks, op.ptr / PAGE_SIZE)
  }

  // free_page ignores NULL, so a frame 0 that is held stays held.
  function Release(blocks: seq<Block>, ptr: u32): (r: seq<Block>)
    ensures |r| == |blocks|
    ensures forall k :: 0 <= k < |r| ==>
      r[k] == if ptr == 0 then blocks[k] else blocks[k].(live := blocks[k].live - {ptr / PAGE_SIZE})
  {
    seq(|blocks|, k requires 0 <= k < |blocks| =>
      if ptr == 0 then blocks[k] else blocks[k].(live := blocks[k].live - {ptr / PAGE_SIZE}))
  }

  function NewBlock(start: nat, count: nat, bytes: nat): Block {
    Block(start, count, bytes, Range(start, start + count - 1))
  }

  function Allocate(s: State, count: u32, bytes: nat): Option<State> {
    match Search(s.busy, count)
    case NotFound => Some(s)
    case Stalls | ReadsPastEnd => None
    case Found(start) =>
      Some(State(AfterGet(s.busy, count), s.blocks + [NewBlock(start, count, bytes)]))
  }

  // One call; None when it never returns, or reads outside the bitmap.
  function Step(s: State, op: Op): Option<State> {
    match op
    case GetFreePages(count) => Allocate(s, count, count * PAGE_SIZE)
    case Kmalloc(size) => Allocate(s, KmallocPages(size), size)
    case FreePage(ptr) => Some(State(AfterFree(s.busy, ptr), Release(s.blocks, ptr)))
  }

  // s' is reached from s by the calls of ops, each of them legal and returning.
  ghost predicate Runs(s: State, ops: seq<Op>, s': State)
    decreases |ops|
  {
    if ops == [] then s' == s
    else Legal(s, ops[0]) && Step(s, ops[0]).Some? && Runs(Step(s, ops[0]).value, ops[1..], s')
  }

  // ---- The invariant ----

  ghost predicate Held(blocks: seq<Block>, b: nat) {
    exists k :: 0 <= k < |blocks| && b in blocks[k].live
  }

  ghost predicate BlockOk(k: Block) {
    && k.live <= Range(k.start, k.start + k.count - 1)
    && k.start + k.count <= LAST_BIT_NO
    && k.bytes <= k.count * PAGE_SIZE
  }

  ghost predicate Inv(s: State, reserved: set<nat>) {
    // free, reserved and held frames partition the frames
    && (forall b: nat :: b in s.busy <==> b in reserved || Held(s.blocks, b))
    && (forall k, b :: 0 <= k < |s.blocks| && b in s.blocks[k].live ==> b !in reserved)
    // and no frame has two owners
    && (forall j, k, b ::
          0 <= j < |s.blocks| && 0 <= k < |s.blocks| && b in s.blocks[j].live && b in s.blocks[k].live ==> j == k)
    && (forall k :: 0 <= k < |s.blocks| ==> BlockOk(s.blocks[k]))
    && LAST_BIT_NO in reserved
  }

  lemma FoundFits(busy: set<nat>, count: u32)
    requires Search(busy, count).Found? && LAST_BIT_NO in busy
    ensures var s := Search(busy, count).start;
            count > 0 && s + count <= LAST_BIT_NO && FreeRun(busy, s, count)
            && AfterGet(busy, count) == busy + Range(s, s + count - 1)
  {
  }

  lemma FoundBlock(busy: set<nat>, count: u32, bytes: nat)
    requires Search(busy, count).Found? && LAST_BIT_NO in busy && bytes <= count * PAGE_SIZE
    ensures var k := NewBlock(Search(busy, count).start, count, bytes);
            BlockOk(k) && k.live !! busy && AfterGet(busy, count) == busy + k.live
  {
  }

  lemma HeldAppend(blocks: seq<Block>, k: Block, b: nat)
    ensures Held(blocks + [k], b) <==> Held(blocks, b) || b in k.live
  {
    var all := blocks + [k];
    if Held(blocks, b) {
      var j :| 0 <= j < |blocks| && b in blocks[j].live;
      assert b in all[j].live;
    }
    if b in k.live {
      assert b in all[|blocks|].live;
    }
  }

  lemma AppendKeepsInv(s: State, k: Block, reserved: set<nat>)
    requires Inv(s, reserved) && BlockOk(k) && k.live !! s.busy
    ensures Inv(State(s.busy + k.live, s.blocks + [k]), reserved)
  {
    var t := State(s.busy + k.live, s.blocks + [k]);
    forall b: nat
      ensures b in t.busy <==> b in reserved || Held(t.blocks, b)
    {
      HeldAppend(s.blocks, k, b);
    }
    forall j, b | 0 <= j < |s.blocks| && b in s.blocks[j].live
      ensures b !in k.live
    {
      assert Held(s.blocks, b);
    }
  }

  lemma AllocateKeepsInv(s: State, count: u32, bytes: nat, reserved: set<nat>)
    requires Inv(s, reserved) && bytes <= count * PAGE_SIZE
    requires Allocate(s, count, bytes).Some?
    ensures Inv(Allocate(s, count, bytes).value, reserved)
  {
    if Search(s.busy, count).Found? {
      var k := NewBlock(Search(s.busy, count).start, count, bytes);
      FoundBlock(s.busy, count, bytes);
      AppendKeepsInv(s, k, reserved);
      assert Allocate(s, count, bytes) == Some(State(s.busy + k.live, s.blocks + [k]));
    } else {
      assert Allocate(s, count, bytes) == Some(s);
    }
  }

  lemma HeldRelease(blocks: seq<Block>, ptr: u32, b: nat)
    ensures Held(Release(blocks, ptr), b) <==> Held(blocks, b) && (ptr == 0 || b != ptr / PAGE_SIZE)
  {
  }

  lemma ReleaseKeepsBlocks(s: State, ptr: u32, reserved: set<nat>, k: nat)
    requires Inv(s, reserved) && k < |s.blocks|
    ensures BlockOk(Release(s.blocks, ptr)[k])
  {
  }

  lemma ReleaseKeepsInv(s: State, ptr: u32, reserved: set<nat>)
    requires Inv(s, reserved) && Legal(s, FreePage(ptr))
    ensures Inv(Step(s, FreePage(ptr)).value, reserved)
    ensures ptr != 0 ==> ptr / PAGE_SIZE in s.busy && ptr / PAGE_SIZE !in reserved
  {
    var left := Release(s.blocks, ptr);
    forall b: nat
      ensures Held(left, b) <==> Held(s.blocks, b) && (ptr == 0 || b != ptr / PAGE_SIZE)
    {
      HeldRelease(s.blocks, ptr, b);
    }
    forall k | 0 <= k < |left|
      ensures BlockOk(left[k])
    {
      ReleaseKeepsBlocks(s, ptr, reserved, k);
    }
  }

  // Over every run the partition holds, with the reserved frames unchanged.
  lemma {:induction false} RunKeepsInv(s: State, ops: seq<Op>, s': State, reserved: set<nat>)
    requires Inv(s, reserved) && Runs(s, ops, s')
    ensures Inv(s', reserved)
    decreases |ops|
  {
    if ops != [] {
      match ops[0] {
        case GetFreePages(count) => AllocateKeepsInv(s, count, count * PAGE_SIZE, reserved);
        case Kmalloc(size) => AllocateKeepsInv(s, KmallocPages(size), size, reserved);
        case FreePage(ptr) => ReleaseKeepsInv(s, ptr, reserved);
      }
      RunKeepsInv(Step(s, ops[0]).value, ops[1..], s', reserved);
    }
  }

  // The pointer a caller gets is the address of the block's first frame, and
  // the bytes it asked for lie in the block, below the top frame.
  lemma PointerIsBlock(s: State, count: u32, bytes: nat, reserved: set<nat>)
    requires Inv(s, reserved) && bytes <= count * PAGE_SIZE
    requires Search(s.busy, count).Found?
    ensures var t := Allocate(s, count, bytes);
            && t.Some? && |t.value.blocks| == |s.blocks| + 1
            && (var k := t.value.blocks[|s.blocks|];
                && GetResult(s.busy, count) == Returned(k.start * PAGE_SIZE)
                && k.start * PAGE_SIZE + bytes <= LAST_BIT_NO * PAGE_SIZE
                && k.live !! s.busy && t.value.busy == s.busy + k.live)
  {
    FoundBlock(s.busy, count, bytes);
    FoundFits(s.busy, count);
  }

  // The state init_page_allocator leaves starts a run exactly when no region of
  // the map ends in the top frame.
  lemma BootStateInvExactlyWhen(regions: seq<BootMap.RamRegion>, kstart: u32, kend: u32)
    requires kstart <= kend
    ensures var busy := Range(0, LAST_BIT_NO) - BootMap.FreedByMap(regions, kstart, kend);
            Inv(State(busy, []), busy) <==> forall r :: r in regions ==> BootMap.LastByte(r) < 0xFFFF_F000
  {
    BootMap.TopFrameStaysBusyExactlyWhen(regions, kstart, kend);
  }

  // A kmalloc block is larger than the request, by at most a page.
  lemma KmallocExceedsRequest(size: u32)
    ensures size < KmallocPages(size) * PAGE_SIZE <= size + PAGE_SIZE
  {
  }

  ghost predicate Intact(k: Block) {
    k.count > 0 && k.live == Range(k.start, k.start + k.count - 1)
  }

  // Two allocations no frame of which was given back share no byte.
  lemma IntactBlocksApart(s: State, reserved: set<nat>, i: nat, j: nat)
    requires Inv(s, reserved) && i < |s.blocks| && j < |s.blocks| && i != j
    requires Intact(s.blocks[i]) && Intact(s.blocks[j])
    ensures var a, b := s.blocks[i], s.blocks[j];
            a.start * PAGE_SIZE + a.bytes <= b.start * PAGE_SIZE || b.start * PAGE_SIZE + b.bytes <= a.start * PAGE_SIZE
  {
    var a, b := s.blocks[i], s.blocks[j];
    assert BlockOk(a) && BlockOk(b);
    var later := if a.start < b.start then b.start else a.start;
    assert later in a.live <==> later < a.start + a.count;
    assert later in b.live <==> later < b.start + b.count;
  }

  // ---- Frame 0 ----

  // The number of calls in the run that turned frame 0 from free to busy.
  function ZeroClaims(s: State, ops: seq<Op>): nat
    decreases |ops|
  {
    if ops == [] then 0
    else
      match Step(s, ops[0])
      case None => 0
      case Some(t) => (if 0 !in s.busy && 0 in t.busy then 1 else 0) + ZeroClaims(t, ops[1..])
  }

  // The number of calls in the run that turned frame 0 from busy to free.
  function ZeroReleases(s: State, ops: seq<Op>): nat
    decreases |ops|
  {
    if ops == [] then 0
    else
      match Step(s, ops[0])
      case None => 0
      case Some(t) => (if 0 in s.busy && 0 !in t.busy then 1 else 0) + ZeroReleases(t, ops[1..])
  }

  // Only a pointer inside page 0, which no call ever returns, frees frame 0.
  lemma ZeroReleasedBy(s: State, op: Op)
    requires Step(s, op).Some? && 0 in s.busy
    ensures 0 !in Step(s, op).value.busy <==> op.FreePage? && 0 < op.ptr < PAGE_SIZE
  {
  }

  predicate PageAligned(ops: seq<Op>) {
    forall op :: op in ops && op.FreePage? ==> op.ptr % PAGE_SIZE == 0
  }

  lemma {:induction false} AlignedNeverFreesZero(s: State, ops: seq<Op>, s': State)
    requires Runs(s, ops, s') && PageAligned(ops)
    ensures ZeroReleases(s, ops) == 0
    decreases |ops|
  {
    if ops != [] {
      assert ops[0] in ops;
      if 0 in s.busy {
        ZeroReleasedBy(s, ops[0]);
      }
      AlignedNeverFreesZero(Step(s, ops[0]).value, ops[1..], s');
    }
  }

  // Over every run, frame 0 is claimed as often as it is freed, once more if it
  // goes from free to busy, once less the other way.
  lemma {:induction false} FrameZeroBalance(s: State, ops: seq<Op>, s': State)
    requires Runs(s, ops, s')
    ensures ZeroClaims(s, ops) + (if 0 in s.busy then 1 else 0)
            == ZeroReleases(s, ops) + (if 0 in s'.busy then 1 else 0)
    decreases |ops|
  {
    if ops != [] {
      FrameZeroBalance(Step(s, ops[0]).value, ops[1..], s');
    }
  }

  // With page-aligned pointers frame 0 is claimed at most once, and only then
  // does a call return NULL and keep frames.
  lemma FrameZeroClaimedOnce(s: State, ops: seq<Op>, s': State)
    requires Runs(s, ops, s') && PageAligned(ops)
    ensures ZeroClaims(s, ops) == if 0 !in s.busy && 0 in s'.busy then 1 else 0
    ensures 0 in s.busy ==> 0 in s'.busy
  {
    AlignedNeverFreesZero(s, ops, s');
    FrameZeroBalance(s, ops, s');
  }

  // A call returns NULL although it took frames exactly when frame 0 was free
  // and starts a long enough run.
  lemma NullKeepsFramesExactlyWhen(busy: set<nat>, count: u32)
    ensures (GetResult(busy, count) == Returned(0) && AfterGet(busy, count) != busy)
            <==> count > 0 && RunLength(busy, 0, LAST_BIT_NO) >= count
  {
    if count > 0 {
      FoundStart(busy, count);
    }
    if count > 0 && RunLength(busy, 0, LAST_BIT_NO) >= count {
      RunAtZeroFits(busy, count);
    }
  }

  lemma RunAtZeroFits(busy: set<nat>, count: u32)
    requires count > 0 && RunLength(busy, 0, LAST_BIT_NO) >= count
    ensures Fits(busy, 0, LAST_BIT_NO, count, 0) && Search(busy, count) == Found(0)
  {
    assert NextFree(busy, 0, LAST_BIT_NO) == Some(0);
    assert 0 + RunLength(busy, 0, LAST_BIT_NO) <= LAST_BIT_NO + 1;
  }

  // What a start found says about the result.
  lemma FoundStart(busy: set<nat>, count: u32)
    requires count > 0
    ensures var r := Search(busy, count);
            r.Found? ==>
              && r.start <= LAST_BIT_NO && ToU32(r.start * PAGE_SIZE) == r.start * PAGE_SIZE
              && AfterGet(busy, count) != busy
              && (r.start == 0 <==> RunLength(busy, 0, LAST_BIT_NO) >= count)
  {
    var r := Search(busy, count);
    if r.Found? {
      AsWrittenAnswers(busy, 0, LAST_BIT_NO, count);
      assert Fits(busy, 0, LAST_BIT_NO, count, r.start);
      assert r.start in AfterGet(busy, count) && r.start !in busy;
      RunLengthAtLeast(busy, r.start, LAST_BIT_NO, count);
      if RunLength(busy, 0, LAST_BIT_NO) >= count {
        RunAtZeroFits(busy, count);
      }
    }
  }

  // NULL comes back exactly when nothing was asked for, the call neither stalls
  // nor overruns nor finds room, or the block it took starts at frame 0.
  lemma NullExactlyWhen(busy: set<nat>, count: u32)
    ensures GetResult(busy, count) == Returned(0) <==>
            || count == 0
            || (!StallCondition(busy, 0, LAST_BIT_NO, count) && !ProbeOverruns(busy, count)
                && NoFit(busy, 0, LAST_BIT_NO, count))
            || RunLength(busy, 0, LAST_BIT_NO) >= count
  {
    if count > 0 {
      FoundStart(busy, count);
      AsWrittenAnswers(busy, 0, LAST_BIT_NO, count);
      if RunLength(busy, 0, LAST_BIT_NO) >= count {
        RunAtZeroFits(busy, count);
      }
      if Search(busy, count).Found? {
        assert Fits(busy, 0, LAST_BIT_NO, count, Search(busy, count).start);
      }
    }
  }

  // The first free run is f..f+r-1.
  ghost predicate FirstRun(busy: set<nat>, f: nat, r: nat) {
    && r > 0 && f + r <= NUM_FRAMES && FreeRun(busy, f, r)
    && (forall b :: 0 <= b < f ==> b in busy)
    && (f + r < NUM_FRAMES ==> f + r in busy)
  }

  lemma FirstRunIs(busy: set<nat>, f: nat, r: nat)
    ensures FirstRun(busy, f, r) <==>
            NextFree(busy, 0, LAST_BIT_NO) == Some(f) && RunLength(busy, f, LAST_BIT_NO) == r
  {
    if FirstRun(busy, f, r) {
      RunLengthIs(busy, f, LAST_BIT_NO, r);
      assert f !in busy && forall b: nat :: b < f ==> b in busy;
    }
  }

  lemma FirstRunFound(busy: set<nat>)
    ensures var free := NextFree(busy, 0, LAST_BIT_NO);
            && (free.Some? ==> FirstRun(busy, free.value, RunLength(busy, free.value, LAST_BIT_NO)))
            && forall f: nat, r: nat :: FirstRun(busy, f, r) ==>
                 free == Some(f) && RunLength(busy, f, LAST_BIT_NO) == r
  {
    var free := NextFree(busy, 0, LAST_BIT_NO);
    if free.Some? {
      FirstRunIs(busy, free.value, RunLength(busy, free.value, LAST_BIT_NO));
    }
    forall f: nat, r: nat | FirstRun(busy, f, r)
      ensures free == Some(f) && RunLength(busy, f, LAST_BIT_NO) == r
    {
      FirstRunIs(busy, f, r);
    }
  }

  // The call never returns exactly when the first free run is too short, and the
  // request would fit from its last frame on.
  lemma HangsExactlyWhen(busy: set<nat>, count: u32)
    ensures GetResult(busy, count) == NeverReturns <==>
            exists f: nat, r: nat :: FirstRun(busy, f, r) && r < count && f + r - 1 + count <= NUM_FRAMES
  {
    FirstRunFound(busy);
    if count > 0 {
      PassDecides(busy, 0, LAST_BIT_NO, count, 0);
    }
  }

  // It leaves the bitmap exactly when that run reaches the top frame, unless the
  // request is for more than all of memory.
  lemma OverrunsExactlyWhen(busy: set<nat>, count: u32)
    ensures GetResult(busy, count) == Undefined <==>
            count <= NUM_FRAMES && exists f: nat, r: nat :: FirstRun(busy, f, r) && r < count && f + r == NUM_FRAMES
  {
    FirstRunFound(busy);
    if count > 0 {
      PassDecides(busy, 0, LAST_BIT_NO, count, 0);
    }
  }

  // ---- Concrete cases ----

  // A busy top frame, which every map of the usual kind leaves, stops the probe.
  lemma TopFrameStopsProbe(busy: set<nat>, count: u32)
    requires LAST_BIT_NO in busy
    ensures Search(busy, count) != ReadsPastEnd
  {
  }

  // RAM in the top frame alone: the map frees it, and a request for two frames
  // leaves the bitmap.
  lemma OverrunWitness(kstart: u32, kend: u32)
    ensures var regions := [BootMap.RamRegion(0xFFFF_F000, 0x1000)];
            var busy := Range(0, LAST_BIT_NO) - BootMap.FreedByMap(regions, kstart, kend);
            (forall b: nat :: b in busy <==> b < LAST_BIT_NO) && GetResult(busy, 2) == Undefined
  {
    var regions := [BootMap.RamRegion(0xFFFF_F000, 0x1000)];
    var busy := Range(0, LAST_BIT_NO) - BootMap.FreedByMap(regions, kstart, kend);
    forall b: nat
      ensures b in busy <==> b < LAST_BIT_NO
    {
      BootMap.FreedByMapMember(regions, kstart, kend, b);
      BootMap.FreedWhole(regions[0], kstart, kend);
      assert regions[0] in regions;
    }
    TopFrameOverruns(busy);
  }

  lemma TopFrameOverruns(busy: set<nat>)
    requires forall b: nat :: b in busy <==> b < LAST_BIT_NO
    ensures GetResult(busy, 2) == Undefined
  {
    RunLengthIs(busy, LAST_BIT_NO, LAST_BIT_NO, 1);
    assert NextFree(busy, 0, LAST_BIT_NO) == Some(LAST_BIT_NO);
  }

  // RAM everywhere but in the top frame and the kernel, which fills the frames
  // from 1 to `last`.
  function MapAround(last: nat): seq<BootMap.RamRegion>
    requires 1 <= last < LAST_BIT_NO - 2
  {
    [BootMap.RamRegion(0, PAGE_SIZE), BootMap.RamRegion((last + 1) * PAGE_SIZE, (LAST_BIT_NO - last - 1) * PAGE_SIZE)]
  }

  // The busy frames it leaves.
  function BusyAround(last: nat): set<nat>
    requires 1 <= last < LAST_BIT_NO - 2
  {
    Range(0, LAST_BIT_NO) - BootMap.FreedByMap(MapAround(last), PAGE_SIZE, (last + 1) * PAGE_SIZE - 1)
  }

  // Frame 0 is free then.  A request for one frame takes it and returns NULL,
  // and one for two frames hangs although the frames above the kernel are free.
  lemma KernelAboveFrameZero(last: nat)
    requires 1 <= last < LAST_BIT_NO - 2
    ensures var busy := BusyAround(last);
            && GetResult(busy, 1) == Returned(0) && AfterGet(busy, 1) == busy + {0}
            && GetResult(busy, 2) == NeverReturns && Fits(busy, 0, LAST_BIT_NO, 2, last + 1)
  {
    BusyAroundIs(last);
    StallsAbove(BusyAround(last), last);
    FirstFrameTaken(BusyAround(last));
  }

  lemma BusyAroundIs(last: nat)
    requires 1 <= last < LAST_BIT_NO - 2
    ensures forall b: nat :: b in BusyAround(last) <==> 1 <= b <= last || b == LAST_BIT_NO
  {
    forall b: nat
      ensures b in BusyAround(last) <==> 1 <= b <= last || b == LAST_BIT_NO
    {
      BootMap.FreedByMapMember(MapAround(last), PAGE_SIZE, (last + 1) * PAGE_SIZE - 1, b);
      MapAroundFrees(last, b);
    }
  }

  lemma FirstFrameTaken(busy: set<nat>)
    requires Search(busy, 1) == Found(0)
    ensures GetResult(busy, 1) == Returned(0) && AfterGet(busy, 1) == busy + {0}
  {
    assert Range(0, 0) == {0};
  }

  lemma MapAroundFrees(last: nat, b: nat)
    requires 1 <= last < LAST_BIT_NO - 2
    ensures (exists r :: r in MapAround(last) && b in BootMap.FreedByRegion(r, PAGE_SIZE, (last + 1) * PAGE_SIZE - 1))
            <==> b == 0 || last < b < LAST_BIT_NO
  {
    var regions, kend := MapAround(last), (last + 1) * PAGE_SIZE - 1;
    assert regions[0] in regions && regions[1] in regions;
    assert b in BootMap.FreedByRegion(regions[0], PAGE_SIZE, kend) <==> b == 0;
    assert b in BootMap.FreedByRegion(regions[1], PAGE_SIZE, kend) <==> last < b < LAST_BIT_NO;
  }

  lemma StallsAbove(busy: set<nat>, last: nat)
    requires 1 <= last < LAST_BIT_NO - 2
    requires forall b: nat :: b in busy <==> 1 <= b <= last || b == LAST_BIT_NO
    ensures Search(busy, 1) == Found(0) && Search(busy, 2) == Stalls
    ensures Fits(busy, 0, LAST_BIT_NO, 2, last + 1)
  {
    RunLengthIs(busy, 0, LAST_BIT_NO, 1);
    assert NextFree(busy, 0, LAST_BIT_NO) == Some(0);
  }
}
