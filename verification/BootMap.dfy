// The boot memory map of mm/page.c: which frames init_page_allocator makes free,
// and when that is exactly the RAM outside the kernel image.
module BootMap {
  import opened FrameBitmap
  import opened Words

  datatype RamRegion = RamRegion(saddr: u32, len: u32)

  // The frames one region of the map makes free, given the kernel image
  // kstart..kend.
  function FreedByRegion(r: RamRegion, kstart: u32, kend: u32): set<nat> {
    var next := ToU32(r.saddr + r.len);
    if r.saddr <= kstart && kend < next then
      (if r.saddr != kstart then Range(r.saddr / PAGE_SIZE, ToU32(kstart - 1) / PAGE_SIZE) else {})
      + (if next != kend then Range(ToU32(kend + PAGE_SIZE) / PAGE_SIZE, ToU32(next - 1) / PAGE_SIZE) else {})
    else
      Range(r.saddr / PAGE_SIZE, ToU32(next - 1) / PAGE_SIZE)
  }

  function FreedByMap(regions: seq<RamRegion>, kstart: u32, kend: u32): set<nat> {
    if regions == [] then {}
    else FreedByMap(regions[..|regions| - 1], kstart, kend)
         + FreedByRegion(regions[|regions| - 1], kstart, kend)
  }

  // A frame with some byte of the region; an empty region has none, and there are
  // none past the top of memory.
  predicate InRegion(b: nat, r: RamRegion) {
    r.len > 0 && b < NUM_FRAMES && b * PAGE_SIZE < r.saddr + r.len && r.saddr < (b + 1) * PAGE_SIZE
  }

  // A frame holding some byte of the kernel image.
  predicate InKernel(b: nat, kstart: u32, kend: u32) {
    kstart / PAGE_SIZE <= b <= kend / PAGE_SIZE
  }

  // Not empty, and within the address space; it may reach its top.
  predicate InMemory(r: RamRegion) {
    r.len > 0 && r.saddr + r.len <= 0x1_0000_0000
  }

  predicate HoldsKernel(r: RamRegion, kstart: u32, kend: u32) {
    r.saddr <= kstart && kend < r.saddr + r.len
  }

  // The kernel is handled apart from the rest of the region: it starts on a page
  // boundary or with the region, and no address behind it or the region wraps.
  predicate HandledApart(r: RamRegion, kstart: u32, kend: u32) {
    && HoldsKernel(r, kstart, kend) && r.saddr + r.len < 0x1_0000_0000 && kend < 0xFFFF_F000
    && (kstart % PAGE_SIZE == 0 || kstart == r.saddr)
  }

  // The region has no frame of the kernel, or holds it in a way the code handles.
  predicate KernelApart(r: RamRegion, kstart: u32, kend: u32) {
    || (r.saddr + r.len - 1) / PAGE_SIZE < kstart / PAGE_SIZE
    || kend / PAGE_SIZE < r.saddr / PAGE_SIZE
    || HandledApart(r, kstart, kend)
  }

  // The last byte of a region as the code computes it, in 32 bits.
  function LastByte(r: RamRegion): u32 {
    ToU32(r.saddr + r.len - 1)
  }

  // An empty region inside a page, or one that wraps round to its first page: the
  // code frees that page.
  predicate Stray(r: RamRegion) {
    !InMemory(r) && LastByte(r) / PAGE_SIZE == r.saddr / PAGE_SIZE
  }

  // The frames a region stands for to the code.
  predicate Provides(r: RamRegion, b: nat) {
    if InMemory(r) then InRegion(b, r) else Stray(r) && b == r.saddr / PAGE_SIZE
  }

  // The region frees no frame of the kernel.
  predicate Sound(r: RamRegion, kstart: u32, kend: u32) {
    if InMemory(r) then KernelApart(r, kstart, kend)
    else r != RamRegion(0, 0) && (Stray(r) ==> !InKernel(r.saddr / PAGE_SIZE, kstart, kend))
  }

  // The page of an empty region is memory of another.
  ghost predicate EmptyCovered(regions: seq<RamRegion>, r: RamRegion) {
    r.len == 0 && Stray(r) ==> exists q :: q in regions && InRegion(r.saddr / PAGE_SIZE, q)
  }

  // The pages of a region that wraps past the top of memory are seen to by others.
  ghost predicate WrapCovered(regions: seq<RamRegion>, r: RamRegion, kstart: u32, kend: u32) {
    r.len > 0 && !InMemory(r) ==>
      forall b: nat :: InRegion(b, r) && !InKernel(b, kstart, kend) ==> exists q :: q in regions && Provides(q, b)
  }

  // The map is exact: free means in some region and not in the kernel.
  ghost predicate ExactMap(regions: seq<RamRegion>, kstart: u32, kend: u32) {
    forall b: nat :: b in FreedByMap(regions, kstart, kend)
      <==> (exists r :: r in regions && InRegion(b, r)) && !InKernel(b, kstart, kend)
  }

  lemma {:induction false} FreedByMapMember(regions: seq<RamRegion>, kstart: u32, kend: u32, b: nat)
    ensures b in FreedByMap(regions, kstart, kend)
            <==> exists r :: r in regions && b in FreedByRegion(r, kstart, kend)
  {
    if regions != [] {
      var front, last := regions[..|regions| - 1], regions[|regions| - 1];
      FreedByMapMember(front, kstart, kend, b);
      assert regions == front + [last];
    }
  }

  // Page numbers against byte addresses.
  lemma PageOf(b: nat, x: nat)
    ensures b <= x / PAGE_SIZE <==> b * PAGE_SIZE <= x
    ensures x / PAGE_SIZE <= b <==> x < (b + 1) * PAGE_SIZE
    ensures x > 0 ==> (b <= (x - 1) / PAGE_SIZE <==> b * PAGE_SIZE < x)
    ensures (x + PAGE_SIZE) / PAGE_SIZE == x / PAGE_SIZE + 1
  {
  }

  lemma RegionFrames(r: RamRegion, b: nat)
    requires InMemory(r)
    ensures InRegion(b, r) <==> r.saddr / PAGE_SIZE <= b <= (r.saddr + r.len - 1) / PAGE_SIZE
  {
    PageOf(b, r.saddr);
    PageOf(b, r.saddr + r.len);
  }

  // A region that does not hold the kernel, or reaches the top of memory, where
  // its end wraps to 0, is freed whole.
  lemma FreedWhole(r: RamRegion, kstart: u32, kend: u32)
    requires InMemory(r) && (HoldsKernel(r, kstart, kend) ==> r.saddr + r.len == 0x1_0000_0000)
    ensures FreedByRegion(r, kstart, kend) == Range(r.saddr / PAGE_SIZE, (r.saddr + r.len - 1) / PAGE_SIZE)
  {
  }

  lemma FreedAround(r: RamRegion, kstart: u32, kend: u32)
    requires InMemory(r) && HoldsKernel(r, kstart, kend) && r.saddr + r.len < 0x1_0000_0000 && kstart <= kend
    ensures FreedByRegion(r, kstart, kend) ==
            (if r.saddr < kstart then Range(r.saddr / PAGE_SIZE, (kstart - 1) / PAGE_SIZE) else {})
            + Range(if kend < 0xFFFF_F000 then kend / PAGE_SIZE + 1 else 0, (r.saddr + r.len - 1) / PAGE_SIZE)
  {
    PageOf(0, kend);
  }

  lemma ApartIsExact(r: RamRegion, kstart: u32, kend: u32, b: nat)
    requires InMemory(r) && kstart <= kend && KernelApart(r, kstart, kend)
    ensures b in FreedByRegion(r, kstart, kend) <==> InRegion(b, r) && !InKernel(b, kstart, kend)
  {
    RegionFrames(r, b);
    if HandledApart(r, kstart, kend) {
      FreedAround(r, kstart, kend);
      if kstart > 0 {
        PageOf(b, kstart - 1);
      }
      PageOf(b, kstart);
      PageOf(b, kend);
    } else {
      FreedWhole(r, kstart, kend);
    }
  }

  // A frame of the kernel that is freed when it is not apart.
  lemma KernelFrameFreed(r: RamRegion, kstart: u32, kend: u32) returns (b: nat)
    requires InMemory(r) && kstart <= kend && !KernelApart(r, kstart, kend)
    ensures b in FreedByRegion(r, kstart, kend) && InKernel(b, kstart, kend)
  {
    var first := kstart / PAGE_SIZE;
    b := if first < r.saddr / PAGE_SIZE then r.saddr / PAGE_SIZE else first;
    if HoldsKernel(r, kstart, kend) && r.saddr + r.len < 0x1_0000_0000 {
      FreedAround(r, kstart, kend);
      if kend < 0xFFFF_F000 {
        PageOf(first, kstart);
      } else {
        PageOf(first, r.saddr + r.len - 1);
      }
    } else {
      FreedWhole(r, kstart, kend);
    }
  }

  // A region that is empty or wraps frees one page at most, save the empty one at
  // address 0.
  lemma OddFreed(r: RamRegion, kstart: u32, kend: u32, b: nat)
    requires !InMemory(r) && kstart <= kend
    ensures r != RamRegion(0, 0) ==> (b in FreedByRegion(r, kstart, kend) <==> Stray(r) && b == r.saddr / PAGE_SIZE)
    ensures r == RamRegion(0, 0) && b < NUM_FRAMES ==> b in FreedByRegion(r, kstart, kend)
  {
    assert FreedByRegion(r, kstart, kend) == Range(r.saddr / PAGE_SIZE, LastByte(r) / PAGE_SIZE);
  }

  // What init_page_allocator frees for a region, whatever its extent: exactly
  // what it stands for outside the kernel, or else a frame of the kernel too.
  lemma RegionExact(r: RamRegion, kstart: u32, kend: u32)
    requires kstart <= kend
    ensures Sound(r, kstart, kend) ==>
              forall b: nat :: b in FreedByRegion(r, kstart, kend) <==> Provides(r, b) && !InKernel(b, kstart, kend)
    ensures !Sound(r, kstart, kend) ==>
              exists b: nat :: b in FreedByRegion(r, kstart, kend) && InKernel(b, kstart, kend)
  {
    if Sound(r, kstart, kend) {
      forall b: nat
        ensures b in FreedByRegion(r, kstart, kend) <==> Provides(r, b) && !InKernel(b, kstart, kend)
      {
        if InMemory(r) {
          ApartIsExact(r, kstart, kend, b);
        } else {
          OddFreed(r, kstart, kend, b);
        }
      }
    } else if InMemory(r) {
      var b := KernelFrameFreed(r, kstart, kend);
    } else {
      OddFreed(r, kstart, kend, if r == RamRegion(0, 0) then kstart / PAGE_SIZE else r.saddr / PAGE_SIZE);
    }
  }

  // A map of sound regions frees what they stand for outside the kernel.
  lemma FreedBySound(regions: seq<RamRegion>, kstart: u32, kend: u32, b: nat)
    requires kstart <= kend && forall r :: r in regions ==> Sound(r, kstart, kend)
    ensures b in FreedByMap(regions, kstart, kend)
            <==> (exists r :: r in regions && Provides(r, b)) && !InKernel(b, kstart, kend)
  {
    FreedByMapMember(regions, kstart, kend, b);
    forall r | r in regions
      ensures b in FreedByRegion(r, kstart, kend) <==> Provides(r, b) && !InKernel(b, kstart, kend)
    {
      RegionExact(r, kstart, kend);
    }
  }

  lemma UnsoundFrees(regions: seq<RamRegion>, kstart: u32, kend: u32, r: RamRegion)
    requires kstart <= kend && r in regions && !Sound(r, kstart, kend)
    ensures !ExactMap(regions, kstart, kend)
  {
    RegionExact(r, kstart, kend);
    var b: nat :| b in FreedByRegion(r, kstart, kend) && InKernel(b, kstart, kend);
    FreedByMapMember(regions, kstart, kend, b);
  }

  // The frames regions stand for are those they have bytes in, with the kernel
  // set aside.
  lemma CoveredIsExact(regions: seq<RamRegion>, kstart: u32, kend: u32, b: nat)
    requires forall r :: r in regions ==> EmptyCovered(regions, r) && WrapCovered(regions, r, kstart, kend)
    requires !InKernel(b, kstart, kend)
    ensures (exists r :: r in regions && Provides(r, b)) <==> exists r :: r in regions && InRegion(b, r)
  {
    if r :| r in regions && Provides(r, b) {
      assert EmptyCovered(regions, r);
      assert r.len > 0 ==> InRegion(b, r);
    }
    if r :| r in regions && InRegion(b, r) {
      assert WrapCovered(regions, r, kstart, kend);
      assert InMemory(r) ==> Provides(r, b);
    }
  }

  // Boot map exactness, for every map: regions in any order, aligned or not,
  // overlapping, empty or past the top of memory.
  lemma BootMapExactlyWhen(regions: seq<RamRegion>, kstart: u32, kend: u32)
    requires kstart <= kend
    ensures ExactMap(regions, kstart, kend) <==>
            forall r :: r in regions ==>
              Sound(r, kstart, kend) && EmptyCovered(regions, r) && WrapCovered(regions, r, kstart, kend)
  {
    if r :| r in regions && !Sound(r, kstart, kend) {
      UnsoundFrees(regions, kstart, kend, r);
    } else {
      forall b: nat
        ensures b in FreedByMap(regions, kstart, kend)
                <==> (exists r :: r in regions && Provides(r, b)) && !InKernel(b, kstart, kend)
      {
        FreedBySound(regions, kstart, kend, b);
      }
      if forall r :: r in regions ==> EmptyCovered(regions, r) && WrapCovered(regions, r, kstart, kend) {
        forall b: nat | !InKernel(b, kstart, kend)
          ensures (exists r :: r in regions && Provides(r, b)) <==> exists r :: r in regions && InRegion(b, r)
        {
          CoveredIsExact(regions, kstart, kend, b);
        }
      } else {
        NotCovered(regions, kstart, kend);
      }
    }
  }

  // A frame freed that is not memory, or memory that is not freed.
  lemma NotCovered(regions: seq<RamRegion>, kstart: u32, kend: u32)
    requires kstart <= kend && forall r :: r in regions ==> Sound(r, kstart, kend)
    requires exists r :: r in regions && !(EmptyCovered(regions, r) && WrapCovered(regions, r, kstart, kend))
    ensures !ExactMap(regions, kstart, kend)
  {
    var r :| r in regions && !(EmptyCovered(regions, r) && WrapCovered(regions, r, kstart, kend));
    if EmptyCovered(regions, r) {
      var b: nat :| InRegion(b, r) && !InKernel(b, kstart, kend) && !exists q :: q in regions && Provides(q, b);
      FreedBySound(regions, kstart, kend, b);
    } else {
      assert Provides(r, r.saddr / PAGE_SIZE);
      FreedBySound(regions, kstart, kend, r.saddr / PAGE_SIZE);
    }
  }

  // Page-aligned and not reaching the top of the address space.
  predicate PlainRegion(r: RamRegion) {
    InMemory(r) && r.saddr % PAGE_SIZE == 0 && r.len % PAGE_SIZE == 0 && r.saddr + r.len < 0x1_0000_0000
  }

  // The frames of an aligned region lie in it whole.
  lemma PlainRegionFrames(r: RamRegion, b: nat)
    requires PlainRegion(r)
    ensures InRegion(b, r) <==> r.saddr <= b * PAGE_SIZE && (b + 1) * PAGE_SIZE <= r.saddr + r.len
    ensures r.saddr + r.len <= 0xFFFF_F000
  {
  }

  lemma DisjointRegionApart(r: RamRegion, home: RamRegion, kstart: u32, kend: u32)
    requires PlainRegion(r) && PlainRegion(home) && kstart <= kend && HoldsKernel(home, kstart, kend)
    requires r.saddr + r.len <= home.saddr || home.saddr + home.len <= r.saddr
    ensures KernelApart(r, kstart, kend)
  {
  }

  lemma TopFrameFreedBy(r: RamRegion, kstart: u32, kend: u32)
    requires kstart <= kend
    ensures LAST_BIT_NO in FreedByRegion(r, kstart, kend) <==> LastByte(r) >= 0xFFFF_F000
  {
    assert ToU32(ToU32(r.saddr + r.len) - 1) == LastByte(r);
  }

  // The topmost frame, whose being busy the run search relies on to stop its
  // probe, stays busy exactly when no region's last byte lies in it.  This holds
  // of every map, empty regions and regions that wrap included.
  lemma TopFrameStaysBusyExactlyWhen(regions: seq<RamRegion>, kstart: u32, kend: u32)
    requires kstart <= kend
    ensures LAST_BIT_NO !in FreedByMap(regions, kstart, kend) <==>
            forall r :: r in regions ==> LastByte(r) < 0xFFFF_F000
  {
    FreedByMapMember(regions, kstart, kend, LAST_BIT_NO);
    forall r | r in regions
      ensures LAST_BIT_NO in FreedByRegion(r, kstart, kend) <==> LastByte(r) >= 0xFFFF_F000
    {
      TopFrameFreedBy(r, kstart, kend);
    }
  }

  ghost predicate Disjoint(regions: seq<RamRegion>) {
    forall i, j :: 0 <= i < |regions| && 0 <= j < |regions| && i != j ==>
      regions[i].saddr + regions[i].len <= regions[j].saddr || regions[j].saddr + regions[j].len <= regions[i].saddr
  }

  // The setting the kernel is booted in: disjoint plain regions, one of which
  // holds the whole kernel, whose image starts on a page boundary.
  lemma BootMapExact(regions: seq<RamRegion>, kstart: u32, kend: u32, home: nat)
    requires kstart <= kend && kstart % PAGE_SIZE == 0
    requires forall r :: r in regions ==> PlainRegion(r)
    requires home < |regions| && HoldsKernel(regions[home], kstart, kend)
    requires Disjoint(regions)
    ensures ExactMap(regions, kstart, kend)
    ensures forall r, b: nat :: r in regions ==>
              (InRegion(b, r) <==> r.saddr <= b * PAGE_SIZE && (b + 1) * PAGE_SIZE <= r.saddr + r.len)
  {
    forall r, b: nat | r in regions
      ensures InRegion(b, r) <==> r.saddr <= b * PAGE_SIZE && (b + 1) * PAGE_SIZE <= r.saddr + r.len
    {
      PlainRegionFrames(r, b);
    }
    forall r | r in regions
      ensures KernelApart(r, kstart, kend)
    {
      var i :| 0 <= i < |regions| && regions[i] == r;
      if i != home {
        DisjointRegionApart(r, regions[home], kstart, kend);
      }
    }
    BootMapExactlyWhen(regions, kstart, kend);
  }

  // An empty region at address 0 makes every frame free, kernel included.
  lemma EmptyRegionFreesAll(kstart: u32, kend: u32, b: nat)
    requires b < NUM_FRAMES
    ensures b in FreedByRegion(RamRegion(0, 0), kstart, kend)
  {
  }
}
