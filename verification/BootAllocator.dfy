// mm/bootmem.c: the boot memory allocator, from the point where its heap and
// its accounting table have been set up.
module BootAllocator {
  import opened BootSpec
  import opened FrameBitmap
  import opened FrameSearch
  import opened Options
  import opened Words

  const KDEBUG_INIT_VAL: u32 := 0xCAFE_D00D

  class BootAllocator {
    const freeBitmap: array<u32>
    const accounts: array<Account>
    var acntI: u32
    const heapStart: u32
    const heapEnd: u32

    ghost predicate Valid()
      reads this, accounts
    {
      && freeBitmap.Length == UINT_CNT
      && accounts.Length > 0
      && PAGE_SIZE <= heapStart <= heapEnd
      && forall k :: 0 <= k < accounts.Length ==> accounts[k].endBit <= LAST_BIT_NO
    }

    ghost function Abstract(): BootState
      reads this, freeBitmap, accounts
    {
      BootState(BusyFrames(freeBitmap[..]), accounts[..], acntI)
    }

    function Lo(): nat {
      heapStart / PAGE_SIZE
    }

    function Hi(): nat {
      heapEnd / PAGE_SIZE
    }

    // The accounting table and bitmap as the setup code leaves them: no block
    // handed out, some frames busy.
    constructor (heapStart: u32, heapEnd: u32, nodes: nat, words: seq<u32>)
      requires PAGE_SIZE <= heapStart <= heapEnd && 0 < nodes < 0x1_0000_0000 && |words| == UINT_CNT
      ensures Valid() && fresh(freeBitmap) && fresh(accounts)
      ensures this.heapStart == heapStart && this.heapEnd == heapEnd
      ensures Abstract() == BootState(BusyFrames(words), seq(nodes, _ => UNUSED), 0)
      ensures Inv(Abstract(), Lo(), Hi(), BusyFrames(words))
    {
      this.heapStart, this.heapEnd, acntI := heapStart, heapEnd, 0;
      freeBitmap := new u32[UINT_CNT](i requires 0 <= i < |words| => words[i]);
      accounts := new Account[nodes](_ => UNUSED);
      new;
      assert freeBitmap[..] == words;
      assert accounts[..] == seq(nodes, _ => UNUSED);
      SetupInv(BusyFrames(words), nodes, heapStart / PAGE_SIZE, heapEnd / PAGE_SIZE);
    }

    // The inner loop of find_first_free, over the rest of a word or of the heap.
    method ScanWord(index: nat, start: nat, startMask: u32, endBit: nat, ghost bit: nat) returns (found: bool, i: nat)
      requires Valid() && start == BITS_PER_WORD * index + bit && bit < BITS_PER_WORD && start <= endBit <= LAST_BIT_NO
      requires startMask == Mask(bit)
      ensures start <= i <= endBit + 1 && forall b :: start <= b < i ==> b in BusyFrames(freeBitmap[..])
      ensures if found then i <= endBit && i !in BusyFrames(freeBitmap[..])
              else i == BITS_PER_WORD * (index + 1) || i == endBit + 1
    {
      var mask := startMask;
      i := start;
      ghost var k: nat := bit;
      ghost var busy := BusyFrames(freeBitmap[..]);
      while mask != 0 && i <= endBit
        invariant start <= i <= endBit + 1 && k <= BITS_PER_WORD
        invariant i == BITS_PER_WORD * index + k && mask == if k < BITS_PER_WORD then Mask(k) else 0
        invariant forall b :: start <= b < i ==> b in busy
        decreases endBit + 1 - i
      {
        MaskAtFrame(freeBitmap[..], index, i, k);
        if And(freeBitmap[index], mask) == 0 {
          return true, i;
        }
        mask := ShiftLeft1(mask);
        i := i + 1;
        k := k + 1;
      }
      found := false;
    }

    // find_first_free
    method FindFirstFree(from: nat) returns (r: Option<nat>)
      requires Valid()
      ensures r == NextFree(BusyFrames(freeBitmap[..]), from, Hi())
    {
      var startBit, endBit := from, heapEnd / PAGE_SIZE;
      if startBit > endBit {
        return None;
      }
      var index := startBit / BITS_PER_WORD;
      var mask := FirstMask(startBit % BITS_PER_WORD);
      ghost var bit: nat := startBit % BITS_PER_WORD;
      var i := startBit;
      ghost var busy := BusyFrames(freeBitmap[..]);
      while i <= endBit
        invariant startBit <= i <= endBit + 1
        invariant i <= endBit ==> i == BITS_PER_WORD * index + bit
        invariant bit < BITS_PER_WORD && mask == Mask(bit)
        invariant forall b :: startBit <= b < i ==> b in busy
        decreases endBit + 1 - i
      {
        var found;
        found, i := ScanWord(index, i, mask, endBit, bit);
        assert freeBitmap[..] == old(freeBitmap[..]);
        if found {
          return Some(i);
        }
        index := index + 1;
        mask := 1;
        bit := 0;
      }
      return None;
    }

    // One pass of find_free_bits_range: the first free frame at or after l and
    // how many of the `remaining` frames after it are free too.  When there is
    // none, both locals keep the values they came with.
    method ScanRun(l: nat, remaining: u32, firstFreeBit: u32, count: u32) returns (found: bool, f: u32, i: u32)
      requires Valid()
      ensures Scanned(BusyFrames(freeBitmap[..]), Hi(), l, remaining, found, f, i)
      ensures !found ==> f == firstFreeBit && i == count
    {
      f, i := firstFreeBit, count;
      var first := FindFirstFree(l);
      found := first.Some?;
      if !found {
        return;
      }
      f := first.value;
      var endBit := heapEnd / PAGE_SIZE;
      ghost var busy := BusyFrames(freeBitmap[..]);
      var b := f + 1;
      i := 0;
      while i < remaining && b <= endBit
        invariant i <= remaining && b == f + 1 + i <= endBit + 1
        invariant FreeRun(busy, f, i + 1)
      {
        var taken := GetBit(freeBitmap, b);
        if taken {
          RunLengthIs(busy, f, endBit, i + 1);
          return;
        }
        i := i + 1;
        b := b + 1;
      }
      RunLengthAtLeast(busy, f, endBit, i + 1);
      if i < remaining {
        RunLengthIs(busy, f, endBit, i + 1);
      }
    }

    // find_free_bits_range.  When find_first_free fails, the resume point is
    // computed from what the two locals held before: their initial pattern on
    // the first pass, which puts it far beyond the heap.  A pass that finds a
    // frame and resumes where it began repeats for ever.
    method FindFreeBitsRange(totalBits: nat) returns (r: SearchResult)
      requires Valid() && totalBits <= 0xF_FFFF
      ensures r == Search(BusyFrames(freeBitmap[..]), Lo(), Hi(), totalBits)
    {
      ghost var busy := BusyFrames(freeBitmap[..]);
      var firstFreeBit: u32, i: u32 := KDEBUG_INIT_VAL, KDEBUG_INIT_VAL;
      var l: u32, endBit: u32 := heapStart / PAGE_SIZE, heapEnd / PAGE_SIZE;
      var remaining := ToU32(totalBits - 1);
      ghost var lost := false;
      while ToU32(l + remaining) <= endBit
        invariant lost ==> l == 0x95FD_A01A && NextFree(busy, Lo(), endBit).None?
        invariant !lost ==> Lo() <= l <= endBit && OnPath(busy, Lo(), endBit, totalBits, l)
        invariant !lost && l == Lo() ==> l !in busy || firstFreeBit == i == KDEBUG_INIT_VAL
        decreases if lost then 0 else endBit + 1 - l
      {
        var found;
        found, firstFreeBit, i := ScanRun(l, remaining, firstFreeBit, i);
        HeapScanDecides(busy, Lo(), endBit, totalBits, l, found, firstFreeBit, i);
        if found {
          if i == remaining {
            return Found(firstFreeBit);
          }
          if ToU32(firstFreeBit + i) == l {
            return Stalls;
          }
        }
        lost := !found;
        l := ToU32(firstFreeBit + i);
      }
      if !lost {
        NoRoomLeft(busy, Lo(), endBit, totalBits, l);
      }
      return NotFound;
    }

    // search_bit_in_acnt
    method SearchBitInAcnt(bit: nat) returns (s: Option<nat>)
      requires Valid()
      ensures s == NodeFor(accounts[..], bit)
    {
      var k := 0;
      while k < accounts.Length
        invariant 0 <= k <= accounts.Length
        invariant NodeFrom(accounts[..], k, bit) == NodeFor(accounts[..], bit)
      {
        if bit <= accounts[k].endBit && bit >= accounts[k].startBit {
          return Some(k);
        }
        k := k + 1;
      }
      return None;
    }

    // search_free_acnt_node
    method SearchFreeAcntNode() returns (s: Option<nat>)
      requires Valid()
      ensures s == NodeFor(accounts[..], 0)
    {
      s := SearchBitInAcnt(0);
    }

    method BmMalloc(size: u32) returns (r: MallocResult)
      requires Valid()
      modifies this`acntI, freeBitmap, accounts
      ensures Valid()
      ensures Abstract() == AfterMalloc(old(Abstract()), Lo(), Hi(), size)
      ensures r == MallocOutcome(old(Abstract()), Lo(), Hi(), size)
    {
      var rsize := RoundToPageSize(size);
      var bits := rsize / PAGE_SIZE;
      var node := SearchFreeAcntNode();
      if node.None? {
        return Returned(0);
      }
      var found := FindFreeBitsRange(bits);
      match found
      case NotFound => return Returned(0);
      case Stalls => return NeverReturns;
      case ReadsPastEnd => assert false;
      case Found(startBit) =>
        AsWrittenAnswers(BusyFrames(freeBitmap[..]), Lo(), Hi(), bits);
        RecordBlock(node.value, startBit, startBit + bits - 1);
        return Returned(ToU32(startBit * PAGE_SIZE));
    }

    // The updates of a successful bm_malloc.
    method RecordBlock(k: nat, startBit: nat, endBit: nat)
      requires Valid() && k < accounts.Length && startBit <= endBit <= LAST_BIT_NO
      modifies this`acntI, freeBitmap, accounts
      ensures Valid() && Abstract() == Take(old(Abstract()), k, Account(startBit, endBit))
    {
      SetBitRange(freeBitmap, startBit, endBit);
      accounts[k] := Account(startBit, endBit);
      acntI := ToU32(acntI + 1);
      assert accounts[..] == old(accounts[..])[k := Account(startBit, endBit)];
    }

    method BmFree(ptr: u32) returns (r: FreeResult)
      requires Valid()
      modifies this`acntI, freeBitmap, accounts
      ensures Valid()
      ensures Abstract() == AfterFree(old(Abstract()), ptr)
      ensures r == FreeOutcome(old(Abstract()), ptr)
    {
      var bit := ptr / PAGE_SIZE;
      if ptr != 0 {
        var s := SearchBitInAcnt(bit);
        if s.None? {
          return AssertionStops;
        }
        ForgetBlock(s.value);
      }
      return Freed;
    }

    // The updates of a successful bm_free.
    method ForgetBlock(k: nat)
      requires Valid() && k < accounts.Length
      modifies this`acntI, freeBitmap, accounts
      ensures Valid() && Abstract() == Give(old(Abstract()), k)
    {
      ClearBitRange(freeBitmap, accounts[k].startBit, accounts[k].endBit);
      accounts[k] := UNUSED;
      acntI := ToU32(acntI - 1);
      assert accounts[..] == old(accounts[..])[k := UNUSED];
    }
  }
}
