// mm/bootmem.c on values: the state of the boot allocator, what bm_malloc and
// bm_free do to it, and what holds of every run of the two.
module BootSpec {
  import opened FrameBitmap
  import opened FrameSearch
  import opened Options
  import opened Words

  // A node of the accounting table; (0, 0) is an unused node.
  datatype Account = Account(startBit: nat, endBit: nat)

  const UNUSED := Account(0, 0)

  datatype BootState = BootState(busy: set<nat>, accounts: seq<Account>, count: u32)

  // What bm_malloc hands back: a pointer (0 is NULL) or nothing.
  datatype MallocResult = Returned(address: u32) | NeverReturns

  // What bm_free does: return, or stop the kernel in its assertion.
  datatype FreeResult = Freed | AssertionStops

  // ---- The operations ----

  // ROUND_TO_PAGE_SIZE, in 32 bits
  function RoundToPageSize(size: u32): u32 {
    ToU32(PAGE_SIZE * (ToU32(size - 1) / PAGE_SIZE) + PAGE_SIZE)
  }

  function PagesFor(size: u32): nat {
    RoundToPageSize(size) / PAGE_SIZE
  }

  // search_bit_in_acnt: the first node from k on whose range has the bit
  function NodeFrom(accounts: seq<Account>, k: nat, bit: nat): (r: Option<nat>)
    requires k <= |accounts|
    ensures r.Some? ==> k <= r.value < |accounts|
                        && accounts[r.value].startBit <= bit <= accounts[r.value].endBit
                        && forall j :: k <= j < r.value ==> !(accounts[j].startBit <= bit <= accounts[j].endBit)
    ensures r.None? ==> forall j :: k <= j < |accounts| ==> !(accounts[j].startBit <= bit <= accounts[j].endBit)
    decreases |accounts| - k
  {
    if k == |accounts| then None
    else if accounts[k].startBit <= bit <= accounts[k].endBit then Some(k)
    else NodeFrom(accounts, k + 1, bit)
  }

  function NodeFor(accounts: seq<Account>, bit: nat): Option<nat> {
    NodeFrom(accounts, 0, bit)
  }

  // find_free_bits_range over the heap frames lo..hi.  A request of no frames
  // (bm_malloc(0), or a size that rounds up to 2^32) wraps its counter.
  function Search(busy: set<nat>, lo: nat, hi: nat, bits: nat): SearchResult {
    if bits == 0 then (if NextFree(busy, lo, hi).None? then NotFound else Stalls)
    else AsWritten(busy, lo, hi, bits)
  }

  // One pass of the heap search, the wrapped request included.
  function HeapPass(busy: set<nat>, hi: nat, bits: nat, l: nat): Pass {
    if bits > 0 then PassAsWritten(busy, hi, bits, l)
    else
      match NextFree(busy, l, hi)
      case None => Leave(NotFound)
      case Some(f) => Resume(f + RunLength(busy, f, hi) - 1)
  }

  predicate OnPath(busy: set<nat>, lo: nat, hi: nat, bits: nat, l: nat) {
    l == lo || HeapPass(busy, hi, bits, lo) == Resume(l)
  }

  // What a scan decides about the whole call.
  lemma HeapScanDecides(busy: set<nat>, lo: nat, hi: nat, bits: nat, l: nat, found: bool, f: nat, i: nat)
    requires lo <= l <= hi && OnPath(busy, lo, hi, bits, l) && hi <= LAST_BIT_NO
    requires bits > 0 ==> l + bits - 1 <= hi
    requires Scanned(busy, hi, l, ToU32(bits - 1), found, f, i) && bits <= NUM_FRAMES
    ensures !found ==> l == lo && NextFree(busy, lo, hi).None?
    ensures found && i == ToU32(bits - 1) ==> Search(busy, lo, hi, bits) == Found(f)
    ensures found && i != ToU32(bits - 1) ==>
              OnPath(busy, lo, hi, bits, f + i) && l <= f + i <= hi && f + i !in busy
    ensures found && i != ToU32(bits - 1) && f + i == l ==> Search(busy, lo, hi, bits) == Stalls
  {
    if bits > 0 {
      ScanDecides(busy, lo, hi, bits, l, found, f, i);
    } else if l != lo {
      assert l !in busy;
      RunLengthIs(busy, l, hi, 1);
    }
  }

  // Leaving the loop because the request no longer fits.
  lemma NoRoomLeft(busy: set<nat>, lo: nat, hi: nat, bits: nat, l: nat)
    requires lo <= l && OnPath(busy, lo, hi, bits, l)
    requires bits > 0 && l + bits - 1 > hi
    ensures Search(busy, lo, hi, bits) == NotFound
  {
  }

  function AfterMalloc(s: BootState, lo: nat, hi: nat, size: u32): BootState {
    var bits := PagesFor(size);
    match (NodeFor(s.accounts, 0), Search(s.busy, lo, hi, bits))
    case (Some(k), Found(start)) => Take(s, k, Account(start, start + bits - 1))
    case _ => s
  }

  function Take(s: BootState, k: nat, a: Account): BootState
    requires k < |s.accounts|
  {
    BootState(s.busy + Range(a.startBit, a.endBit), s.accounts[k := a], ToU32(s.count + 1))
  }

  function Give(s: BootState, k: nat): BootState
    requires k < |s.accounts|
  {
    BootState(s.busy - Range(s.accounts[k].startBit, s.accounts[k].endBit), s.accounts[k := UNUSED], ToU32(s.count - 1))
  }

  function MallocOutcome(s: BootState, lo: nat, hi: nat, size: u32): MallocResult {
    match (NodeFor(s.accounts, 0), Search(s.busy, lo, hi, PagesFor(size)))
    case (Some(_), Found(start)) => Returned(ToU32(start * PAGE_SIZE))
    case (Some(_), Stalls) => NeverReturns
    case _ => Returned(0)
  }

  function AfterFree(s: BootState, ptr: u32): BootState {
    if ptr == 0 then s
    else
      match NodeFor(s.accounts, ptr / PAGE_SIZE)
      case None => s
      case Some(k) => Give(s, k)
  }

  function FreeOutcome(s: BootState, ptr: u32): FreeResult {
    if ptr != 0 && NodeFor(s.accounts, ptr / PAGE_SIZE).None? then AssertionStops else Freed
  }

  // ---- The invariant ----

  predicate Live(a: Account) {
    a.startBit != 0
  }

  predicate Covers(a: Account, b: nat) {
    Live(a) && a.startBit <= b <= a.endBit
  }

  ghost predicate Covered(accounts: seq<Account>, b: nat) {
    exists k :: 0 <= k < |accounts| && Covers(accounts[k], b)
  }

  function LiveCount(accounts: seq<Account>): (n: nat)
    ensures n <= |accounts|
  {
    if accounts == [] then 0
    else LiveCount(accounts[..|accounts| - 1]) + (if Live(accounts[|accounts| - 1]) then 1 else 0)
  }

  ghost predicate NodeOk(a: Account, lo: nat, hi: nat) {
    if Live(a) then lo <= a.startBit <= a.endBit <= hi else a == UNUSED
  }

  // `reserved` are the frames busy before the first bm_malloc.
  ghost predicate Inv(s: BootState, lo: nat, hi: nat, reserved: set<nat>) {
    // the busy frames are the reserved ones and exactly the accounted ranges
    && (forall b: nat :: b in s.busy <==> b in reserved || Covered(s.accounts, b))
    && (forall k, b :: 0 <= k < |s.accounts| && Covers(s.accounts[k], b) ==> b !in reserved)
    // no two live ranges meet
    && (forall j, k, b :: 0 <= j < |s.accounts| && 0 <= k < |s.accounts| && j != k && Covers(s.accounts[j], b) ==>
          !Covers(s.accounts[k], b))
    // they lie in the heap, and the other nodes are (0, 0)
    && (forall k :: 0 <= k < |s.accounts| ==> NodeOk(s.accounts[k], lo, hi))
    && s.count == LiveCount(s.accounts)
    && 1 <= lo <= hi <= LAST_BIT_NO
    && |s.accounts| < 0x1_0000_0000
  }

  lemma {:induction false} LiveCountUpdate(accounts: seq<Account>, k: nat, a: Account)
    requires k < |accounts|
    ensures LiveCount(accounts[k := a]) + (if Live(accounts[k]) then 1 else 0)
            == LiveCount(accounts) + (if Live(a) then 1 else 0)
  {
    var n := |accounts| - 1;
    if k == n {
      assert accounts[k := a][..n] == accounts[..n];
    } else {
      assert accounts[k := a][..n] == accounts[..n][k := a];
      LiveCountUpdate(accounts[..n], k, a);
    }
  }

  lemma CoveredUpdate(accounts: seq<Account>, k: nat, a: Account, b: nat)
    requires k < |accounts|
    ensures Covered(accounts[k := a], b) <==>
            Covers(a, b) || exists j :: 0 <= j < |accounts| && j != k && Covers(accounts[j], b)
  {
    var updated := accounts[k := a];
    if Covers(a, b) {
      assert Covers(updated[k], b);
    }
    if j :| 0 <= j < |accounts| && j != k && Covers(accounts[j], b) {
      assert Covers(updated[j], b);
    }
  }

  // ---- bm_malloc ----

  // The free node bm_malloc takes is unused, and the run it takes is free heap.
  lemma MallocTakes(s: BootState, lo: nat, hi: nat, size: u32, reserved: set<nat>)
    requires Inv(s, lo, hi, reserved)
    requires NodeFor(s.accounts, 0).Some? && Search(s.busy, lo, hi, PagesFor(size)).Found?
    ensures var k, bits := NodeFor(s.accounts, 0).value, PagesFor(size);
            var start := Search(s.busy, lo, hi, bits).start;
            && s.accounts[k] == UNUSED
            && bits > 0 && lo <= start && start + bits <= hi + 1 && FreeRun(s.busy, start, bits)
            && LiveCount(s.accounts) < |s.accounts|
  {
    var k := NodeFor(s.accounts, 0).value;
    assert NodeOk(s.accounts[k], lo, hi);
    AsWrittenAnswers(s.busy, lo, hi, PagesFor(size));
    LiveCountUpdate(s.accounts, k, Account(1, 1));
  }

  // Taking an unused node for a free heap range keeps the invariant.
  lemma TakeKeepsInv(s: BootState, lo: nat, hi: nat, reserved: set<nat>, k: nat, a: Account)
    requires Inv(s, lo, hi, reserved) && k < |s.accounts| && s.accounts[k] == UNUSED
    requires lo <= a.startBit <= a.endBit <= hi
    requires forall b :: a.startBit <= b <= a.endBit ==> b !in s.busy
    requires s.count + 1 < 0x1_0000_0000
    ensures Inv(Take(s, k, a), lo, hi, reserved)
  {
    var updated := s.accounts[k := a];
    LiveCountUpdate(s.accounts, k, a);
    forall b: nat
      ensures Covered(updated, b) <==> Covered(s.accounts, b) || a.startBit <= b <= a.endBit
    {
      CoveredUpdate(s.accounts, k, a, b);
    }
    forall j, b | 0 <= j < |updated| && j != k && Covers(updated[j], b)
      ensures !Covers(a, b)
    {
      assert Covers(s.accounts[j], b);
      assert Covered(s.accounts, b);
    }
  }

  lemma MallocKeepsInv(s: BootState, lo: nat, hi: nat, size: u32, reserved: set<nat>)
    requires Inv(s, lo, hi, reserved)
    ensures Inv(AfterMalloc(s, lo, hi, size), lo, hi, reserved)
  {
    if NodeFor(s.accounts, 0).Some? && Search(s.busy, lo, hi, PagesFor(size)).Found? {
      MallocTakes(s, lo, hi, size, reserved);
      var start := Search(s.busy, lo, hi, PagesFor(size)).start;
      var k, a := NodeFor(s.accounts, 0).value, Account(start, start + PagesFor(size) - 1);
      TakeKeepsInv(s, lo, hi, reserved, k, a);
      assert AfterMalloc(s, lo, hi, size) == Take(s, k, a);
    } else {
      assert AfterMalloc(s, lo, hi, size) == s;
    }
  }

  // ---- bm_free ----

  lemma GiveKeepsInv(s: BootState, lo: nat, hi: nat, reserved: set<nat>, k: nat)
    requires Inv(s, lo, hi, reserved) && k < |s.accounts| && Live(s.accounts[k])
    ensures Inv(Give(s, k), lo, hi, reserved)
  {
    var a := s.accounts[k];
    var updated := s.accounts[k := UNUSED];
    LiveCountUpdate(s.accounts, k, UNUSED);
    forall b: nat
      ensures Covered(updated, b) <==> Covered(s.accounts, b) && !(a.startBit <= b <= a.endBit)
    {
      CoveredUpdate(s.accounts, k, UNUSED, b);
      if Covered(s.accounts, b) && !Covers(a, b) {
        var j :| 0 <= j < |s.accounts| && Covers(s.accounts[j], b);
        assert j != k;
      }
    }
    forall b | a.startBit <= b <= a.endBit
      ensures b !in reserved
    {
      assert Covers(a, b);
    }
    forall j, b | 0 <= j < |updated| && Covers(updated[j], b)
      ensures j != k && Covers(s.accounts[j], b)
    {
    }
    forall j | 0 <= j < |updated|
      ensures NodeOk(updated[j], lo, hi)
    {
      assert NodeOk(s.accounts[j], lo, hi);
    }
  }

  // The one address range bm_free should not be given: inside page 0 it finds
  // an unused node instead of a live one.
  predicate HitsUnusedNode(s: BootState, ptr: u32) {
    0 < ptr < PAGE_SIZE && NodeFor(s.accounts, 0).Some?
  }

  // "Freeing" an unused node counts down without a live node going away.
  lemma GivingUnusedBreaksCount(s: BootState, lo: nat, hi: nat, reserved: set<nat>, k: nat)
    requires Inv(s, lo, hi, reserved) && k < |s.accounts| && s.accounts[k] == UNUSED
    ensures Give(s, k).count != LiveCount(Give(s, k).accounts)
  {
    assert s.accounts[k := UNUSED] == s.accounts;
  }

  // Outside page 0 a node found is live; inside it, unused.
  lemma NodeFoundKind(s: BootState, lo: nat, hi: nat, reserved: set<nat>, ptr: u32)
    requires Inv(s, lo, hi, reserved) && NodeFor(s.accounts, ptr / PAGE_SIZE).Some?
    ensures var a := s.accounts[NodeFor(s.accounts, ptr / PAGE_SIZE).value];
            if ptr < PAGE_SIZE then a == UNUSED else Live(a)
  {
  }

  // bm_free stops the kernel exactly on the pointers into no block that was handed
  // out, NULL apart; it then has changed nothing.
  lemma FreeStopsExactlyWhen(s: BootState, lo: nat, hi: nat, ptr: u32, reserved: set<nat>)
    requires Inv(s, lo, hi, reserved)
    ensures FreeOutcome(s, ptr) == AssertionStops <==>
            ptr != 0 && !Covered(s.accounts, ptr / PAGE_SIZE) && !HitsUnusedNode(s, ptr)
    ensures ptr == 0 || FreeOutcome(s, ptr) == AssertionStops ==> AfterFree(s, ptr) == s
  {
    var bit := ptr / PAGE_SIZE;
    match NodeFor(s.accounts, bit)
    case Some(k) =>
      NodeFoundKind(s, lo, hi, reserved, ptr);
      assert ptr >= PAGE_SIZE ==> Covers(s.accounts[k], bit);
    case None =>
  }

  // On a fresh table the pointer 1 is enough: the count wraps below zero.
  lemma PageZeroWitness(n: nat, lo: nat, hi: nat)
    requires 0 < n < 0x1_0000_0000 && 1 <= lo <= hi <= LAST_BIT_NO
    ensures var s := BootState({}, seq(n, _ => UNUSED), 0);
            && Inv(s, lo, hi, {}) && FreeOutcome(s, 1) == Freed
            && AfterFree(s, 1).count == 0xFFFF_FFFF && !Inv(AfterFree(s, 1), lo, hi, {})
  {
    SetupInv({}, n, lo, hi);
    var s := BootState({}, seq(n, _ => UNUSED), 0);
    assert s.accounts[0] == UNUSED;
    FreeKeepsInvExactlyWhen(s, lo, hi, 1, {});
  }

  // bm_free keeps the accounts exact on every pointer outside that range, and
  // on none inside it.
  lemma FreeKeepsInvExactlyWhen(s: BootState, lo: nat, hi: nat, ptr: u32, reserved: set<nat>)
    requires Inv(s, lo, hi, reserved)
    ensures Inv(AfterFree(s, ptr), lo, hi, reserved) <==> !HitsUnusedNode(s, ptr)
  {
    var node := NodeFor(s.accounts, ptr / PAGE_SIZE);
    if ptr == 0 || node.None? {
      assert AfterFree(s, ptr) == s;
    } else {
      var k := node.value;
      assert AfterFree(s, ptr) == Give(s, k);
      NodeFoundKind(s, lo, hi, reserved, ptr);
      if ptr < PAGE_SIZE {
        GivingUnusedBreaksCount(s, lo, hi, reserved, k);
      } else {
        GiveKeepsInv(s, lo, hi, reserved, k);
      }
    }
  }

  // ---- Runs ----

  datatype Op = Malloc(size: u32) | Free(ptr: u32)

  // s' is reached by calls that all return, none of them freeing inside page 0.
  ghost predicate Runs(s: BootState, lo: nat, hi: nat, ops: seq<Op>, s': BootState)
    decreases |ops|
  {
    if ops == [] then s' == s
    else
      match ops[0]
      case Malloc(size) =>
        MallocOutcome(s, lo, hi, size).Returned? && Runs(AfterMalloc(s, lo, hi, size), lo, hi, ops[1..], s')
      case Free(ptr) =>
        !(0 < ptr < PAGE_SIZE) && FreeOutcome(s, ptr).Freed? && Runs(AfterFree(s, ptr), lo, hi, ops[1..], s')
  }

  lemma {:induction false} NoneLive(n: nat)
    ensures LiveCount(seq(n, _ => UNUSED)) == 0
  {
    if n > 0 {
      assert seq(n, _ => UNUSED)[..n - 1] == seq(n - 1, _ => UNUSED);
      NoneLive(n - 1);
    }
  }

  // Where runs start: the table empty, the frames busy then reserved.
  lemma SetupInv(busy: set<nat>, n: nat, lo: nat, hi: nat)
    requires n < 0x1_0000_0000 && 1 <= lo <= hi <= LAST_BIT_NO
    ensures Inv(BootState(busy, seq(n, _ => UNUSED), 0), lo, hi, busy)
  {
    NoneLive(n);
  }

  lemma {:induction false} RunKeepsInv(s: BootState, lo: nat, hi: nat, ops: seq<Op>, s': BootState, reserved: set<nat>)
    requires Inv(s, lo, hi, reserved) && Runs(s, lo, hi, ops, s')
    ensures Inv(s', lo, hi, reserved)
    decreases |ops|
  {
    if ops != [] {
      match ops[0] {
        case Malloc(size) =>
          MallocKeepsInv(s, lo, hi, size, reserved);
          RunKeepsInv(AfterMalloc(s, lo, hi, size), lo, hi, ops[1..], s', reserved);
        case Free(ptr) =>
          FreeKeepsInvExactlyWhen(s, lo, hi, ptr, reserved);
          RunKeepsInv(AfterFree(s, ptr), lo, hi, ops[1..], s', reserved);
      }
    }
  }

  // ---- What one call undoes ----

  lemma TakeThenGive(s: BootState, k: nat, a: Account)
    requires k < |s.accounts| && s.accounts[k] == UNUSED
    requires forall b :: a.startBit <= b <= a.endBit ==> b !in s.busy
    ensures Give(Take(s, k, a), k) == s
  {
  }

  // bm_malloc followed by bm_free of any address in the block's pages is the identity.
  lemma MallocThenFree(s: BootState, lo: nat, hi: nat, size: u32, ptr: u32, reserved: set<nat>)
    requires Inv(s, lo, hi, reserved)
    requires MallocOutcome(s, lo, hi, size).Returned? && MallocOutcome(s, lo, hi, size).address != 0
    requires var p := MallocOutcome(s, lo, hi, size).address; p <= ptr < p + PagesFor(size) * PAGE_SIZE
    ensures AfterFree(AfterMalloc(s, lo, hi, size), ptr) == s
    ensures FreeOutcome(AfterMalloc(s, lo, hi, size), ptr) == Freed
  {
    MallocTakes(s, lo, hi, size, reserved);
    MallocKeepsInv(s, lo, hi, size, reserved);
    var k, start, bits := NodeFor(s.accounts, 0).value, Search(s.busy, lo, hi, PagesFor(size)).start, PagesFor(size);
    var t := AfterMalloc(s, lo, hi, size);
    assert ToU32(start * PAGE_SIZE) == start * PAGE_SIZE;
    var bit := ptr / PAGE_SIZE;
    assert start <= bit < start + bits;
    NodeOfCovered(t, lo, hi, reserved, k, bit);
    TakeThenGive(s, k, Account(start, start + bits - 1));
  }

  // The node bm_free finds for a frame is the live one that covers it.
  lemma NodeOfCovered(s: BootState, lo: nat, hi: nat, reserved: set<nat>, k: nat, bit: nat)
    requires Inv(s, lo, hi, reserved) && k < |s.accounts| && Covers(s.accounts[k], bit)
    ensures NodeFor(s.accounts, bit) == Some(k)
  {
  }

  // After a live block is freed, a request for at most as many pages is never
  // refused: the intended search finds it room, and the source's search either
  // finds the same room or stalls.
  lemma FreedRoomIsFound(s: BootState, lo: nat, hi: nat, ptr: u32, reserved: set<nat>, size: u32)
    requires Inv(s, lo, hi, reserved)
    requires ptr >= PAGE_SIZE && NodeFor(s.accounts, ptr / PAGE_SIZE).Some?
    requires var a := s.accounts[NodeFor(s.accounts, ptr / PAGE_SIZE).value];
             1 <= PagesFor(size) <= a.endBit - a.startBit + 1
    ensures var t := AfterFree(s, ptr);
            && NodeFor(t.accounts, 0).Some?
            && Intended(t.busy, lo, hi, PagesFor(size)).Found?
            && (MallocOutcome(t, lo, hi, size) == NeverReturns <==> StallCondition(t.busy, lo, hi, PagesFor(size)))
            && MallocOutcome(t, lo, hi, size) != Returned(0)
  {
    var k := NodeFor(s.accounts, ptr / PAGE_SIZE).value;
    var a := s.accounts[k];
    assert NodeOk(a, lo, hi);
    var t := AfterFree(s, ptr);
    assert t.accounts[k] == UNUSED;
    var bits := PagesFor(size);
    assert Fits(t.busy, lo, hi, bits, a.startBit);
    IntendedIsFirstFit(t.busy, lo, hi, bits);
    AsWrittenAgrees(t.busy, lo, hi, bits);
    IntendedAnswers(t.busy, lo, lo, hi, bits);
  }

  // What the comment in testcases/t_bootmem.c promises: a page freed can be had
  // again, with the search as it is.
  lemma OnePageComesBack(s: BootState, lo: nat, hi: nat, ptr: u32, reserved: set<nat>, size: u32)
    requires Inv(s, lo, hi, reserved)
    requires ptr >= PAGE_SIZE && NodeFor(s.accounts, ptr / PAGE_SIZE).Some?
    requires 1 <= size <= PAGE_SIZE
    ensures var r := MallocOutcome(AfterFree(s, ptr), lo, hi, size); r.Returned? && r.address != 0
  {
    assert PagesFor(size) == 1;
    assert NodeOk(s.accounts[NodeFor(s.accounts, ptr / PAGE_SIZE).value], lo, hi);
    FreedRoomIsFound(s, lo, hi, ptr, reserved, size);
    SingleFrameNeverStalls(AfterFree(s, ptr).busy, lo, hi);
  }

  lemma OneNodeLess(s: BootState, lo: nat, hi: nat, reserved: set<nat>)
    requires Inv(s, lo, hi, reserved) && MallocOutcome(s, lo, hi, PAGE_SIZE) != Returned(0)
    ensures MallocOutcome(s, lo, hi, PAGE_SIZE).Returned?
    ensures var t := AfterMalloc(s, lo, hi, PAGE_SIZE);
            && Inv(t, lo, hi, reserved) && |t.accounts| == |s.accounts|
            && LiveCount(t.accounts) == LiveCount(s.accounts) + 1
  {
    assert PagesFor(PAGE_SIZE) == 1;
    SingleFrameNeverStalls(s.busy, lo, hi);
    MallocKeepsInv(s, lo, hi, PAGE_SIZE, reserved);
    MallocTakes(s, lo, hi, PAGE_SIZE, reserved);
    var k, start := NodeFor(s.accounts, 0).value, Search(s.busy, lo, hi, 1).start;
    LiveCountUpdate(s.accounts, k, Account(start, start));
  }

  // The loop of that test: one page after another, until bm_malloc gives NULL.
  ghost function TakenAll(s: BootState, lo: nat, hi: nat, reserved: set<nat>): BootState
    requires Inv(s, lo, hi, reserved)
    decreases |s.accounts| - LiveCount(s.accounts)
  {
    if MallocOutcome(s, lo, hi, PAGE_SIZE) == Returned(0) then s
    else
      OneNodeLess(s, lo, hi, reserved);
      TakenAll(AfterMalloc(s, lo, hi, PAGE_SIZE), lo, hi, reserved)
  }

  // The test itself does not see it: its loop ends with NULL, which is what it
  // frees, and its last bm_malloc gives NULL too.
  lemma {:induction false} TestFreesNull(s: BootState, lo: nat, hi: nat, reserved: set<nat>)
    requires Inv(s, lo, hi, reserved)
    ensures var t := TakenAll(s, lo, hi, reserved);
            && MallocOutcome(t, lo, hi, PAGE_SIZE) == Returned(0) && AfterMalloc(t, lo, hi, PAGE_SIZE) == t
            && FreeOutcome(t, 0) == Freed
            && MallocOutcome(AfterFree(t, 0), lo, hi, PAGE_SIZE) == Returned(0)
    decreases |s.accounts| - LiveCount(s.accounts)
  {
    if MallocOutcome(s, lo, hi, PAGE_SIZE) == Returned(0) {
      NullChangesNothing(s, lo, hi, PAGE_SIZE, reserved);
    } else {
      OneNodeLess(s, lo, hi, reserved);
      TestFreesNull(AfterMalloc(s, lo, hi, PAGE_SIZE), lo, hi, reserved);
    }
  }

  lemma NullChangesNothing(s: BootState, lo: nat, hi: nat, size: u32, reserved: set<nat>)
    requires Inv(s, lo, hi, reserved) && MallocOutcome(s, lo, hi, size) == Returned(0)
    ensures AfterMalloc(s, lo, hi, size) == s
  {
    if NodeFor(s.accounts, 0).Some? && Search(s.busy, lo, hi, PagesFor(size)).Found? {
      MallocTakes(s, lo, hi, size, reserved);
    }
  }

  // Sizes 1..0xFFFFF000 ask for the pages they need; all others wrap to none,
  // and then the call hangs as soon as the heap has a free frame.
  lemma PagesForExactlyWhen(size: u32)
    ensures PagesFor(size) > 0 <==> 1 <= size <= 0xFFFF_F000
    ensures PagesFor(size) > 0 ==> (PagesFor(size) - 1) * PAGE_SIZE < size <= PagesFor(size) * PAGE_SIZE
  {
  }

  // bm_malloc hangs on a size outside 1..0xFFFFF000 exactly when a node and a
  // heap frame are free.
  lemma OddSizeHangsExactlyWhen(s: BootState, lo: nat, hi: nat, size: u32)
    requires !(1 <= size <= 0xFFFF_F000)
    ensures MallocOutcome(s, lo, hi, size) == NeverReturns <==>
            NodeFor(s.accounts, 0).Some? && exists b: nat :: lo <= b <= hi && b !in s.busy
  {
    PagesForExactlyWhen(size);
    var free := NextFree(s.busy, lo, hi);
    if free.Some? {
      assert lo <= free.value <= hi && free.value !in s.busy;
    }
  }

  // bm_malloc gives NULL only when it has no node or no room.
  lemma RefusalMeansFull(s: BootState, lo: nat, hi: nat, size: u32, reserved: set<nat>)
    requires Inv(s, lo, hi, reserved) && 1 <= size <= 0xFFFF_F000
    requires MallocOutcome(s, lo, hi, size) == Returned(0)
    ensures NodeFor(s.accounts, 0).None? || NoFit(s.busy, lo, hi, PagesFor(size))
  {
    PagesForExactlyWhen(size);
    if NodeFor(s.accounts, 0).Some? {
      if Search(s.busy, lo, hi, PagesFor(size)).Found? {
        MallocTakes(s, lo, hi, size, reserved);
      } else {
        AsWrittenAnswers(s.busy, lo, hi, PagesFor(size));
      }
    }
  }

  // All answers of bm_malloc for a size that asks for pages: NULL without a node,
  // else it hangs, gives NULL or gives the first fit, which is never at NULL.
  lemma MallocAnswers(s: BootState, lo: nat, hi: nat, size: u32, reserved: set<nat>)
    requires Inv(s, lo, hi, reserved) && 1 <= size <= 0xFFFF_F000
    ensures var r, bits := MallocOutcome(s, lo, hi, size), PagesFor(size);
            && bits > 0
            && (r == NeverReturns <==> LiveCount(s.accounts) < |s.accounts| && StallCondition(s.busy, lo, hi, bits))
            && (r == Returned(0) <==>
                  LiveCount(s.accounts) == |s.accounts|
                  || (!StallCondition(s.busy, lo, hi, bits) && NoFit(s.busy, lo, hi, bits)))
            && (r.Returned? && r.address != 0 ==>
                  r.address % PAGE_SIZE == 0 && FirstFit(s.busy, lo, hi, bits, r.address / PAGE_SIZE))
  {
    PagesForExactlyWhen(size);
    FreeNodeExactlyWhen(s.accounts);
    var bits := PagesFor(size);
    AsWrittenAnswers(s.busy, lo, hi, bits);
    if AsWritten(s.busy, lo, hi, bits).Found? {
      assert Fits(s.busy, lo, hi, bits, AsWritten(s.busy, lo, hi, bits).start);
    }
    PassDecides(s.busy, lo, hi, bits, lo);
  }

  // ---- Where the stall cannot happen ----

  // The free frames of the heap are its last ones, from p on.
  ghost predicate FreeTail(busy: set<nat>, lo: nat, hi: nat, p: nat) {
    lo <= p <= hi + 1 && forall b :: lo <= b <= hi ==> (b in busy <==> b < p)
  }

  lemma FreeTailSearch(busy: set<nat>, lo: nat, hi: nat, p: nat, bits: nat)
    requires FreeTail(busy, lo, hi, p) && bits > 0
    ensures Search(busy, lo, hi, bits) == if p + bits <= hi + 1 then Found(p) else NotFound
  {
    var free := NextFree(busy, lo, hi);
    if p <= hi {
      assert p !in busy;
      assert free == Some(p);
      RunLengthIs(busy, p, hi, hi + 1 - p);
    } else {
      assert free.None?;
    }
  }

  // Where a call puts its block, from a heap whose free frames are its last.
  function NextTail(s: BootState, hi: nat, p: nat, size: u32): nat {
    if NodeFor(s.accounts, 0).Some? && p + PagesFor(size) <= hi + 1 then p + PagesFor(size) else p
  }

  lemma FreeTailMoves(s: BootState, lo: nat, hi: nat, p: nat, size: u32)
    requires FreeTail(s.busy, lo, hi, p) && hi <= LAST_BIT_NO && 1 <= size <= 0xFFFF_F000
    ensures FreeTail(AfterMalloc(s, lo, hi, size).busy, lo, hi, NextTail(s, hi, p, size))
    ensures MallocOutcome(s, lo, hi, size)
            == Returned(if NextTail(s, hi, p, size) != p then p * PAGE_SIZE else 0)
  {
    PagesForExactlyWhen(size);
    FreeTailSearch(s.busy, lo, hi, p, PagesFor(size));
  }

  // A run of allocations alone: the pointers it returns, and the state it ends in.
  function Addresses(s: BootState, lo: nat, hi: nat, sizes: seq<u32>): seq<MallocResult>
    decreases |sizes|
  {
    if sizes == [] then []
    else [MallocOutcome(s, lo, hi, sizes[0])] + Addresses(AfterMalloc(s, lo, hi, sizes[0]), lo, hi, sizes[1..])
  }

  // The same pointers worked out from the sizes alone: blocks laid end to end
  // from frame p, as long as one of `nodes` nodes and room for it are left, and
  // NULL for a request without.
  function EndToEnd(nodes: nat, hi: nat, p: nat, sizes: seq<u32>): seq<MallocResult>
    decreases |sizes|
  {
    if sizes == [] then []
    else if nodes > 0 && p + PagesFor(sizes[0]) <= hi + 1 then
      [Returned(ToU32(p * PAGE_SIZE))] + EndToEnd(nodes - 1, hi, p + PagesFor(sizes[0]), sizes[1..])
    else [Returned(0)] + EndToEnd(nodes, hi, p, sizes[1..])
  }

  // A table has a free node exactly when not all of its nodes are live.
  lemma FreeNodeExactlyWhen(accounts: seq<Account>)
    ensures NodeFor(accounts, 0).Some? <==> LiveCount(accounts) < |accounts|
  {
    var node := NodeFor(accounts, 0);
    if node.Some? {
      LiveCountUpdate(accounts, node.value, Account(1, 1));
    } else {
      AllLive(accounts);
    }
  }

  lemma {:induction false} AllLive(accounts: seq<Account>)
    requires forall k :: 0 <= k < |accounts| ==> Live(accounts[k])
    ensures LiveCount(accounts) == |accounts|
  {
    if accounts != [] {
      AllLive(accounts[..|accounts| - 1]);
    }
  }

  lemma OneMoreBlock(s: BootState, lo: nat, hi: nat, p: nat, size: u32)
    requires FreeTail(s.busy, lo, hi, p) && 1 <= lo && hi <= LAST_BIT_NO && 1 <= size <= 0xFFFF_F000
    ensures var nodes, t := |s.accounts| - LiveCount(s.accounts), AfterMalloc(s, lo, hi, size);
            && FreeTail(t.busy, lo, hi, NextTail(s, hi, p, size))
            && (if nodes > 0 && p + PagesFor(size) <= hi + 1 then
                  && MallocOutcome(s, lo, hi, size) == Returned(ToU32(p * PAGE_SIZE))
                  && NextTail(s, hi, p, size) == p + PagesFor(size)
                  && |t.accounts| - LiveCount(t.accounts) == nodes - 1
                else
                  && MallocOutcome(s, lo, hi, size) == Returned(0) && NextTail(s, hi, p, size) == p
                  && |t.accounts| - LiveCount(t.accounts) == nodes)
  {
    FreeNodeExactlyWhen(s.accounts);
    FreeTailMoves(s, lo, hi, p, size);
    NodesLeft(s, lo, hi, p, size);
    PagesForExactlyWhen(size);
  }

  // One call more: the state it leaves and the pointer it returns.
  lemma OneMoreCall(s: BootState, lo: nat, hi: nat, p: nat, sizes: seq<u32>, before: nat)
    returns (t: BootState, nodes: nat, q: nat, first: MallocResult)
    requires FreeTail(s.busy, lo, hi, p) && 1 <= lo && hi <= LAST_BIT_NO
    requires sizes != [] && 1 <= sizes[0] <= 0xFFFF_F000 && before == |s.accounts| - LiveCount(s.accounts)
    ensures FreeTail(t.busy, lo, hi, q) && nodes == |t.accounts| - LiveCount(t.accounts)
    ensures Addresses(s, lo, hi, sizes) == [first] + Addresses(t, lo, hi, sizes[1..])
    ensures if before > 0 && p + PagesFor(sizes[0]) <= hi + 1 then
              first == Returned(ToU32(p * PAGE_SIZE)) && q == p + PagesFor(sizes[0]) && nodes == before - 1
            else first == Returned(0) && q == p && nodes == before
  {
    var size := sizes[0];
    OneMoreBlock(s, lo, hi, p, size);
    t, q, first := AfterMalloc(s, lo, hi, size), NextTail(s, hi, p, size), MallocOutcome(s, lo, hi, size);
    nodes := |t.accounts| - LiveCount(t.accounts);
  }

  lemma EndToEndStep(before: nat, hi: nat, p: nat, sizes: seq<u32>, nodes: nat, q: nat, first: MallocResult)
    requires sizes != []
    requires if before > 0 && p + PagesFor(sizes[0]) <= hi + 1 then
               first == Returned(ToU32(p * PAGE_SIZE)) && q == p + PagesFor(sizes[0]) && nodes == before - 1
             else first == Returned(0) && q == p && nodes == before
    ensures EndToEnd(before, hi, p, sizes) == [first] + EndToEnd(nodes, hi, q, sizes[1..])
  {
  }

  // As long as nothing is freed, the search as written never stalls: every call
  // returns, and the blocks are laid end to end.
  lemma {:induction false} AllocationsAloneNeverStall(s: BootState, lo: nat, hi: nat, p: nat, sizes: seq<u32>)
    requires FreeTail(s.busy, lo, hi, p) && 1 <= lo && hi <= LAST_BIT_NO
    requires forall z :: z in sizes ==> 1 <= z <= 0xFFFF_F000
    ensures Addresses(s, lo, hi, sizes) == EndToEnd(|s.accounts| - LiveCount(s.accounts), hi, p, sizes)
    decreases |sizes|
  {
    if sizes != [] {
      assert sizes[0] in sizes && forall z :: z in sizes[1..] ==> z in sizes;
      var before := |s.accounts| - LiveCount(s.accounts);
      var t, nodes, q, first := OneMoreCall(s, lo, hi, p, sizes, before);
      EndToEndStep(before, hi, p, sizes, nodes, q, first);
      AllocationsAloneNeverStall(t, lo, hi, q, sizes[1..]);
    }
  }

  lemma NodesLeft(s: BootState, lo: nat, hi: nat, p: nat, size: u32)
    requires FreeTail(s.busy, lo, hi, p) && 1 <= lo && hi <= LAST_BIT_NO && 1 <= size <= 0xFFFF_F000
    ensures var t := AfterMalloc(s, lo, hi, size);
            && |t.accounts| == |s.accounts|
            && LiveCount(t.accounts) == LiveCount(s.accounts) + if NextTail(s, hi, p, size) != p then 1 else 0
  {
    PagesForExactlyWhen(size);
    FreeTailSearch(s.busy, lo, hi, p, PagesFor(size));
    if NextTail(s, hi, p, size) != p {
      LiveCountUpdate(s.accounts, NodeFor(s.accounts, 0).value, Account(p, p + PagesFor(size) - 1));
    }
  }

  // One bm_free is enough for a stall: two pages taken from an empty heap, the
  // first given back, and a request for two never returns although it fits.
  lemma OneFreeStalls(n: nat, lo: nat, hi: nat)
    requires 2 <= n < 0x1_0000_0000 && 1 <= lo && lo + 3 <= hi <= LAST_BIT_NO
    ensures var s := BootState({}, seq(n, _ => UNUSED), 0);
            var ops := [Malloc(0x1000), Malloc(0x1000), Free(lo * PAGE_SIZE)];
            var t := BootState({lo + 1}, s.accounts[1 := Account(lo + 1, lo + 1)], 1);
            && Inv(s, lo, hi, {}) && Runs(s, lo, hi, ops, t)
            && MallocOutcome(t, lo, hi, 0x2000) == NeverReturns && Fits(t.busy, lo, hi, 2, lo + 2)
  {
    var s := BootState({}, seq(n, _ => UNUSED), 0);
    SetupInv({}, n, lo, hi);
    TwoPagesOneFreed(s, lo, hi);
    HoleStalls(BootState({lo + 1}, s.accounts[1 := Account(lo + 1, lo + 1)], 1), lo, hi);
  }

  lemma TwoPagesOneFreed(s: BootState, lo: nat, hi: nat)
    requires 1 <= lo && lo + 3 <= hi <= LAST_BIT_NO && |s.accounts| >= 2 && s.busy == {} && s.count == 0
    requires s.accounts[0] == UNUSED && s.accounts[1] == UNUSED
    ensures Runs(s, lo, hi, [Malloc(0x1000), Malloc(0x1000), Free(lo * PAGE_SIZE)],
                 BootState({lo + 1}, s.accounts[1 := Account(lo + 1, lo + 1)], 1))
  {
    var a, b := Account(lo, lo), Account(lo + 1, lo + 1);
    var s1 := BootState({lo}, s.accounts[0 := a], 1);
    var t := BootState({lo + 1}, s.accounts[1 := b], 1);
    OnePageTaken(s, lo, hi, lo, 0);
    assert AfterMalloc(s, lo, hi, 0x1000) == s1;
    SecondPageFreed(s1, t, lo, hi);
    var ops := [Malloc(0x1000), Malloc(0x1000), Free(lo * PAGE_SIZE)];
    assert ops[1..] == [Malloc(0x1000), Free(lo * PAGE_SIZE)];
  }

  lemma SecondPageFreed(s1: BootState, t: BootState, lo: nat, hi: nat)
    requires 1 <= lo && lo + 3 <= hi <= LAST_BIT_NO && |s1.accounts| >= 2 && s1.busy == {lo} && s1.count == 1
    requires s1.accounts[0] == Account(lo, lo) && s1.accounts[1] == UNUSED
    requires t == BootState({lo + 1}, s1.accounts[0 := UNUSED][1 := Account(lo + 1, lo + 1)], 1)
    ensures Runs(s1, lo, hi, [Malloc(0x1000), Free(lo * PAGE_SIZE)], t)
  {
    assert NodeFrom(s1.accounts, 1, 0) == Some(1);
    OnePageTaken(s1, lo, hi, lo + 1, 1);
    var s2 := AfterMalloc(s1, lo, hi, 0x1000);
    assert NodeFor(s2.accounts, lo) == Some(0);
    assert AfterFree(s2, lo * PAGE_SIZE) == t;
    var ops := [Malloc(0x1000), Free(lo * PAGE_SIZE)];
    assert ops[1..] == [Free(lo * PAGE_SIZE)] && ops[1..][1..] == [];
    assert Runs(t, lo, hi, [], t);
  }

  lemma HoleStalls(t: BootState, lo: nat, hi: nat)
    requires 1 <= lo && lo + 3 <= hi <= LAST_BIT_NO && |t.accounts| >= 2
    requires t.busy == {lo + 1} && t.accounts[0] == UNUSED
    ensures MallocOutcome(t, lo, hi, 0x2000) == NeverReturns && Fits(t.busy, lo, hi, 2, lo + 2)
  {
    RunLengthIs(t.busy, lo, hi, 1);
    assert NodeFor(t.accounts, 0) == Some(0) && NextFree(t.busy, lo, hi) == Some(lo);
  }

  lemma OnePageTaken(s: BootState, lo: nat, hi: nat, p: nat, k: nat)
    requires FreeTail(s.busy, lo, hi, p) && 1 <= lo && p <= hi <= LAST_BIT_NO && s.count < 0xFFFF_FFFF
    requires NodeFor(s.accounts, 0) == Some(k)
    ensures AfterMalloc(s, lo, hi, 0x1000) == BootState(s.busy + {p}, s.accounts[k := Account(p, p)], s.count + 1)
    ensures MallocOutcome(s, lo, hi, 0x1000) == Returned(p * PAGE_SIZE)
  {
    FreeTailSearch(s.busy, lo, hi, p, 1);
    assert Range(p, p) == {p};
  }
}
