// mm/page.c and mm/heap.c: the physical page allocator and kmalloc on top of it.
module PageAllocator {
  import BootMap
  import opened FrameBitmap
  import FrameRuns
  import opened FrameSearch
  import opened Options
  import opened Words

  // What a call does: hand back a pointer (0 is NULL), search for ever, or read
  // outside the bitmap, after which C promises nothing.
  datatype PageResult = Returned(address: u32) | NeverReturns | Undefined

  // ---- Specification of the operations on the set of busy frames ----

  // The first free run is too short for the request and ends with memory, so the
  // probe, which has no bound of its own, goes on past the last word.
  predicate ProbeOverruns(busy: set<nat>, count: u32) {
    match NextFree(busy, 0, LAST_BIT_NO)
    case None => false
    case Some(f) => RunLength(busy, f, LAST_BIT_NO) == NUM_FRAMES - f < count <= NUM_FRAMES
  }

  function Search(busy: set<nat>, count: u32): SearchResult {
    if count == 0 then NotFound
    else if ProbeOverruns(busy, count) then ReadsPastEnd
    else AsWritten(busy, 0, LAST_BIT_NO, count)
  }

  function AfterGet(busy: set<nat>, count: u32): set<nat> {
    match Search(busy, count)
    case Found(s) => busy + Range(s, s + count - 1)
    case _ => busy
  }

  function GetResult(busy: set<nat>, count: u32): PageResult {
    match Search(busy, count)
    case Found(s) => Returned(ToU32(s * PAGE_SIZE))
    case NotFound => Returned(0)
    case Stalls => NeverReturns
    case ReadsPastEnd => Undefined
  }

  function AfterFree(busy: set<nat>, ptr: u32): set<nat> {
    if ptr == 0 then busy else busy - {ptr / PAGE_SIZE}
  }

  function KmallocPages(size: u32): u32 {
    size / PAGE_SIZE + 1
  }

  // Where the search loop stands at resume point l.  Past its first pass it is at
  // the last frame of a run that a busy frame ended, so nothing overruns later.
  predicate OnTrack(busy: set<nat>, count: u32, l: nat) {
    && count > 0 && OnCourse(busy, 0, LAST_BIT_NO, count, l)
    && (l > 0 ==> l < LAST_BIT_NO && l !in busy && l + 1 in busy && !ProbeOverruns(busy, count))
  }

  predicate Overruns(busy: set<nat>, found: bool, f: nat, remaining: nat) {
    found && RunLength(busy, f, LAST_BIT_NO) == NUM_FRAMES - f <= remaining
  }

  lemma OverrunDecides(busy: set<nat>, count: u32, l: nat, found: bool, f: nat, i: nat)
    requires count <= NUM_FRAMES && OnTrack(busy, count, l)
    requires Scanned(busy, LAST_BIT_NO, l, count - 1, found, f, i)
    ensures ProbeOverruns(busy, count) <==> Overruns(busy, found, f, count - 1)
    ensures found && !ProbeOverruns(busy, count) && i != count - 1 ==> f + i < LAST_BIT_NO && f + i + 1 in busy
  {
    if l > 0 {
      RunLengthIs(busy, l, LAST_BIT_NO, 1);
      assert NextFree(busy, l, LAST_BIT_NO) == Some(l);
    }
  }

  // The end of a pass: leave with a result, or go on from a resume point.
  function PassEnd(l: nat, remaining: nat, found: bool, f: nat, i: nat, overrun: bool): Pass {
    if overrun then Leave(ReadsPastEnd)
    else if !found then Leave(NotFound)
    else if i == remaining then Leave(Found(f))
    else if f + i == l then Leave(Stalls)
    else Resume(f + i)
  }

  // What a pass from l decides about the whole call.
  lemma ScanDecidesSearch(busy: set<nat>, count: u32, l: nat, found: bool, f: nat, i: nat)
    requires OnTrack(busy, count, l) && l + count - 1 <= LAST_BIT_NO
    requires Scanned(busy, LAST_BIT_NO, l, count - 1, found, f, i)
    ensures Overruns(busy, found, f, count - 1) ==> Search(busy, count) == ReadsPastEnd
    ensures !found ==> Search(busy, count) == NotFound
    ensures found && !Overruns(busy, found, f, count - 1) && i == count - 1 ==> Search(busy, count) == Found(f)
    ensures found && !Overruns(busy, found, f, count - 1) && i != count - 1 ==>
              if f + i == l then Search(busy, count) == Stalls
              else l < f + i && OnTrack(busy, count, f + i)
  {
    OverrunDecides(busy, count, l, found, f, i);
    ScanDecides(busy, 0, LAST_BIT_NO, count, l, found, f, i);
  }

  lemma SearchDecides(busy: set<nat>, count: u32, l: nat, found: bool, f: nat, i: nat, overrun: bool)
    requires OnTrack(busy, count, l) && l + count - 1 <= LAST_BIT_NO
    requires Scanned(busy, LAST_BIT_NO, l, count - 1, found, f, i)
    requires overrun <==> Overruns(busy, found, f, count - 1)
    ensures var p := PassEnd(l, count - 1, found, f, i, overrun);
            && (p.Leave? ==> p.result == Search(busy, count))
            && (p.Resume? ==> l < p.at && OnTrack(busy, count, p.at))
  {
    ScanDecidesSearch(busy, count, l, found, f, i);
  }

  // Leaving the loop because the request no longer fits.
  lemma NoRoomLeft(busy: set<nat>, count: u32, l: nat)
    requires OnTrack(busy, count, l) && l + count - 1 > LAST_BIT_NO
    ensures Search(busy, count) == NotFound
  {
    PassDecides(busy, 0, LAST_BIT_NO, count, l);
  }

  lemma AllWordsOnes(words: seq<u32>)
    requires |words| == UINT_CNT
    requires forall i :: 0 <= i < |words| ==> words[i] == Not(0)
    ensures BusyFrames(words) == Range(0, LAST_BIT_NO)
  {
    forall b: nat | b <= LAST_BIT_NO
      ensures b in BusyFrames(words)
    {
      AllOnes(b % BITS_PER_WORD);
      assert IsBusy(words, b);
    }
  }

  class PageAllocator {
    const freeBm: array<u32>

    ghost predicate Valid()
      reads this
    {
      freeBm.Length == UINT_CNT
    }

    ghost function Busy(): set<nat>
      reads this, freeBm
    {
      BusyFrames(freeBm[..])
    }

    // The static bitmap starts out all zero.
    constructor ()
      ensures Valid() && fresh(freeBm) && forall k :: 0 <= k < UINT_CNT ==> freeBm[k] == 0
    {
      freeBm := new u32[UINT_CNT](_ => 0);
    }

    // The inner loop of find_first_free, over the rest of a word.
    method ScanWord(index: nat, start: nat, startMask: u32, ghost bit: nat) returns (found: bool, i: nat)
      requires Valid() && index < UINT_CNT && start == BITS_PER_WORD * index + bit && bit < BITS_PER_WORD
      requires startMask == Mask(bit)
      ensures start <= i && forall b :: start <= b < i ==> b in Busy()
      ensures if found then i < BITS_PER_WORD * (index + 1) && i !in Busy() else i == BITS_PER_WORD * (index + 1)
    {
      var mask := startMask;
      i := start;
      ghost var k: nat := bit;
      ghost var busy := Busy();
      while mask != 0
        invariant start <= i && k <= BITS_PER_WORD
        invariant i == BITS_PER_WORD * index + k && mask == if k < BITS_PER_WORD then Mask(k) else 0
        invariant forall b :: start <= b < i ==> b in busy
        decreases BITS_PER_WORD - k
      {
        MaskAtFrame(freeBm[..], index, i, k);
        if And(freeBm[index], mask) == 0 {
          return true, i;
        }
        mask := ShiftLeft1(mask);
        i := i + 1;
        k := k + 1;
      }
      found := false;
    }

    // find_first_free
    method FindFirstFree(from: nat) returns (r: Option<nat>)
      requires Valid()
      ensures r == NextFree(Busy(), from, LAST_BIT_NO)
    {
      var index := from / BITS_PER_WORD;
      var mask := FirstMask(from % BITS_PER_WORD);
      ghost var bit: nat := from % BITS_PER_WORD;
      var i := from;
      ghost var busy := Busy();
      while i < NUM_FRAMES
        invariant from <= i == BITS_PER_WORD * index + bit
        invariant bit < BITS_PER_WORD && mask == Mask(bit)
        invariant forall b :: from <= b < i ==> b in busy
        decreases NUM_FRAMES - i
      {
        var found;
        found, i := ScanWord(index, i, mask, bit);
        if found {
          return Some(i);
        }
        index := index + 1;
        mask := 1;
        bit := 0;
      }
      r := None;
    }

    // The inner loop of find_free_bits_range: how many of the `remaining` frames
    // after the free frame f are free before a busy one.  `overrun` is set where
    // the loop leaves the bitmap.
    method Probe(f: nat, remaining: nat) returns (i: nat, overrun: bool)
      requires Valid() && f < NUM_FRAMES && f !in Busy()
      ensures var r := RunLength(Busy(), f, LAST_BIT_NO);
              && (overrun <==> r == NUM_FRAMES - f <= remaining)
              && i == (if r > remaining then remaining else r - 1)
    {
      overrun := false;
      ghost var busy := Busy();
      var b := f + 1;
      i := 0;
      while i < remaining
        invariant i <= remaining && b == f + 1 + i <= NUM_FRAMES
        invariant FreeRun(busy, f, i + 1)
      {
        if b == NUM_FRAMES {
          RunLengthIs(busy, f, LAST_BIT_NO, i + 1);
          overrun := true;
          return;
        }
        var taken := GetBit(freeBm, b);
        if taken {
          RunLengthIs(busy, f, LAST_BIT_NO, i + 1);
          return;
        }
        i := i + 1;
        b := b + 1;
      }
      RunLengthAtLeast(busy, f, LAST_BIT_NO, i + 1);
    }

    // One pass of find_free_bits_range: the first free frame at or after l and
    // the free frames after it.
    method ScanRun(l: nat, remaining: nat) returns (found: bool, f: nat, i: nat, overrun: bool)
      requires Valid()
      ensures Scanned(Busy(), LAST_BIT_NO, l, remaining, found, f, i)
      ensures overrun <==> Overruns(Busy(), found, f, remaining)
    {
      f, i, overrun := 0, 0, false;
      var first := FindFirstFree(l);
      found := first.Some?;
      if found {
        f := first.value;
        i, overrun := Probe(f, remaining);
      }
    }

    // The body of the search loop: leave with a result, or go on from a resume
    // point.  The loop carries nothing else from one pass to the next, so a pass
    // that resumes where it began is repeated for ever.
    method SearchPass(l: nat, count: u32) returns (p: Pass)
      requires Valid() && OnTrack(Busy(), count, l) && l + count - 1 <= LAST_BIT_NO
      ensures p.Leave? ==> p.result == Search(Busy(), count)
      ensures p.Resume? ==> l < p.at && OnTrack(Busy(), count, p.at)
    {
      var remaining := count - 1;
      var found, f, i, overrun := ScanRun(l, remaining);
      SearchDecides(Busy(), count, l, found, f, i, overrun);
      if overrun {
        return Leave(ReadsPastEnd);
      }
      if !found {
        return Leave(NotFound);
      }
      if i == remaining {
        return Leave(Found(f));
      }
      return if f + i == l then Leave(Stalls) else Resume(f + i);
    }

    // find_free_bits_range
    method FindFreeBitsRange(count: u32) returns (r: SearchResult)
      requires Valid()
      ensures r == Search(Busy(), count)
    {
      var l := 0;
      var remaining := ToU32(count - 1);
      ghost var busy := Busy();
      while ToU32(l + remaining) <= LAST_BIT_NO
        invariant 0 <= l < NUM_FRAMES
        invariant count > 0 ==> OnTrack(busy, count, l)
        invariant count == 0 ==> l == 0
        decreases NUM_FRAMES - l
      {
        var pass := SearchPass(l, count);
        if pass.Leave? {
          return pass.result;
        }
        l := pass.at;
      }
      if count > 0 {
        NoRoomLeft(busy, count, l);
      }
      return NotFound;
    }

    // A pass of the search as it was meant to be: it resumes one past the busy
    // frame that ended the run, and the end of the bitmap ends a run as well.
    method IntendedPass(l: nat, count: u32) returns (p: Pass)
      requires Valid() && count > 0 && l + count - 1 <= LAST_BIT_NO
      ensures p == PassIntended(Busy(), LAST_BIT_NO, count, l)
    {
      var remaining := count - 1;
      var found, f, i, _ := ScanRun(l, remaining);
      IntendedPassIs(Busy(), LAST_BIT_NO, count, l, found, f, i);
      if !found {
        return Leave(NotFound);
      }
      return if i == remaining then Leave(Found(f)) else Resume(f + i + 2);
    }

    method FindFreeBitsRangeIntended(count: u32) returns (r: SearchResult)
      requires Valid()
      ensures r == if count == 0 then NotFound else Intended(Busy(), 0, LAST_BIT_NO, count)
    {
      var l := 0;
      var remaining := ToU32(count - 1);
      ghost var busy := Busy();
      while l + remaining <= LAST_BIT_NO
        invariant 0 <= l
        invariant count > 0 ==> Intended(busy, l, LAST_BIT_NO, count) == Intended(busy, 0, LAST_BIT_NO, count)
        decreases LAST_BIT_NO + 1 - l
      {
        var pass := IntendedPass(l, count);
        if pass.Leave? {
          return pass.result;
        }
        l := pass.at;
      }
      return NotFound;
    }

    // One region of the memory map in init_page_allocator.
    method FreeRegion(region: BootMap.RamRegion, kstart: u32, kend: u32)
      requires Valid()
      modifies freeBm
      ensures Busy() == old(Busy()) - BootMap.FreedByRegion(region, kstart, kend)
    {
      var next: int := ToU32(region.saddr + region.len);
      if region.saddr <= kstart && kend < next {
        if region.saddr != kstart {
          ClearBitRange(freeBm, region.saddr / PAGE_SIZE, ToU32(kstart - 1) / PAGE_SIZE);
        }
        if next != kend {
          ClearBitRange(freeBm, ToU32(kend + PAGE_SIZE) / PAGE_SIZE, ToU32(next - 1) / PAGE_SIZE);
        }
      } else {
        ClearBitRange(freeBm, region.saddr / PAGE_SIZE, ToU32(next - 1) / PAGE_SIZE);
      }
    }

    method InitPageAllocator(regions: seq<BootMap.RamRegion>, kstart: u32, kend: u32)
      requires Valid()
      modifies freeBm
      ensures Busy() == Range(0, LAST_BIT_NO) - BootMap.FreedByMap(regions, kstart, kend)
    {
      for x := 0 to UINT_CNT
        invariant forall y :: 0 <= y < x ==> freeBm[y] == Not(0)
      {
        freeBm[x] := Not(0);
      }
      AllWordsOnes(freeBm[..]);
      for i := 0 to |regions|
        invariant Busy() == Range(0, LAST_BIT_NO) - BootMap.FreedByMap(regions[..i], kstart, kend)
      {
        FreeRegion(regions[i], kstart, kend);
        assert regions[..i + 1][..i] == regions[..i];
      }
      assert regions[..|regions|] == regions;
    }

    method GetFreePages(count: u32) returns (r: PageResult)
      requires Valid()
      modifies freeBm
      ensures Busy() == AfterGet(old(Busy()), count)
      ensures r == GetResult(old(Busy()), count)
    {
      var found := FindFreeBitsRange(count);
      match found
      case NotFound => return Returned(0);
      case Stalls => return NeverReturns;
      case ReadsPastEnd => return Undefined;
      case Found(startBit) =>
        AsWrittenAnswers(Busy(), 0, LAST_BIT_NO, count);
        SetBitRange(freeBm, startBit, startBit + count - 1);
        return Returned(ToU32(startBit * PAGE_SIZE));
    }

    method FreePage(ptr: u32)
      requires Valid()
      modifies freeBm
      ensures Busy() == AfterFree(old(Busy()), ptr)
    {
      if ptr != 0 {
        ClearBit(freeBm, ptr / PAGE_SIZE);
      }
    }

    // mm/heap.c
    method Kmalloc(size: u32) returns (r: PageResult)
      requires Valid()
      modifies freeBm
      ensures Busy() == AfterGet(old(Busy()), KmallocPages(size))
      ensures r == GetResult(old(Busy()), KmallocPages(size))
    {
      r := GetFreePages(KmallocPages(size));
    }

    // dump_free_info, as the list of the lines it prints
    method DumpFreeInfo() returns (runs: seq<FrameRuns.FrameRun>)
      requires Valid()
      ensures FrameRuns.Encodes(runs, Busy(), LAST_BIT_NO)
    {
      runs := [];
      ghost var busy := Busy();
      var start := 0;
      var initValue := GetBit(freeBm, start);
      var bit := 1;
      while bit <= LAST_BIT_NO
        invariant start < bit <= LAST_BIT_NO + 1
        invariant bit <= LAST_BIT_NO ==> FrameRuns.Encodes(runs, busy, start)
        invariant bit <= LAST_BIT_NO ==> forall b :: start <= b < bit ==> (b in busy <==> initValue)
        invariant bit <= LAST_BIT_NO && runs != [] ==> runs[|runs| - 1].busy != initValue
        invariant bit > LAST_BIT_NO ==> FrameRuns.Encodes(runs, busy, LAST_BIT_NO)
      {
        var value := GetBit(freeBm, bit);
        if value != initValue || bit == LAST_BIT_NO {
          FrameRuns.EncodingExtended(runs, busy, FrameRuns.FrameRun(start, bit, initValue));
          runs := runs + [FrameRuns.FrameRun(start, bit, initValue)];
          start := bit;
          initValue := value;
        }
        bit := bit + 1;
      }
    }
  }
}
