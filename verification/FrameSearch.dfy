// The contiguous-run search both allocators share, over the set of busy frames
// of a range lo..hi (both ends included).  `AsWritten` is the search of the
// source, which resumes at the last free frame of a run that was too short;
// `Intended` resumes past the busy frame that ended the run.
module FrameSearch {
  import opened Options

  // What one call of find_free_bits_range does.  `Stalls` is a call that never
  // returns, `ReadsPastEnd` one that probes a frame the bitmap does not have.
  datatype SearchResult = Found(start: nat) | NotFound | Stalls | ReadsPastEnd

  // What one pass of the search loop does: go on from a resume point, or leave.
  datatype Pass = Resume(at: nat) | Leave(result: SearchResult)

  // ---- Reference notions: free runs and the first one that is long enough ----

  ghost predicate FreeRun(busy: set<nat>, start: nat, count: nat) {
    forall b :: start <= b < start + count ==> b !in busy
  }

  ghost predicate Fits(busy: set<nat>, lo: nat, hi: nat, count: nat, start: nat) {
    lo <= start && start + count <= hi + 1 && FreeRun(busy, start, count)
  }

  ghost predicate FirstFit(busy: set<nat>, lo: nat, hi: nat, count: nat, start: nat) {
    && Fits(busy, lo, hi, count, start)
    && forall t: nat :: t < start ==> !Fits(busy, lo, hi, count, t)
  }

  ghost predicate NoFit(busy: set<nat>, lo: nat, hi: nat, count: nat) {
    forall t: nat :: !Fits(busy, lo, hi, count, t)
  }

  // ---- The two scans a pass is made of ----

  // find_first_free: the first free frame at or after `from`.
  function NextFree(busy: set<nat>, from: nat, hi: nat): (r: Option<nat>)
    ensures r.Some? ==> from <= r.value <= hi && r.value !in busy
                        && forall b :: from <= b < r.value ==> b in busy
    ensures r.None? ==> forall b :: from <= b <= hi ==> b in busy
    decreases hi + 1 - from
  {
    if from > hi then None
    else if from !in busy then Some(from)
    else NextFree(busy, from + 1, hi)
  }

  // The length of the free run at `from`, cut off at hi.
  function RunLength(busy: set<nat>, from: nat, hi: nat): (r: nat)
    ensures FreeRun(busy, from, r)
    ensures r > 0 ==> from + r <= hi + 1
    ensures from <= hi ==> (r == 0 <==> from in busy)
    ensures from + r <= hi ==> from + r in busy
    decreases hi + 1 - from
  {
    if from > hi || from in busy then 0 else 1 + RunLength(busy, from + 1, hi)
  }

  // Frames from `from` on are a free run of length n ended by a busy frame or by hi.
  lemma RunLengthIs(busy: set<nat>, from: nat, hi: nat, n: nat)
    requires FreeRun(busy, from, n)
    requires from + n <= hi + 1
    requires from + n <= hi ==> from + n in busy
    ensures RunLength(busy, from, hi) == n
    decreases n
  {
  }

  lemma RunLengthAtLeast(busy: set<nat>, from: nat, hi: nat, n: nat)
    requires FreeRun(busy, from, n)
    requires n > 0 ==> from + n <= hi + 1
    ensures RunLength(busy, from, hi) >= n
    decreases n
  {
  }

  // ---- The search loop, pass by pass ----

  function PassAsWritten(busy: set<nat>, hi: nat, count: nat, l: nat): Pass
    requires count >= 1
  {
    if l + count - 1 > hi then Leave(NotFound)
    else
      match NextFree(busy, l, hi)
      case None => Leave(NotFound)
      case Some(f) =>
        var r := RunLength(busy, f, hi);
        if r >= count then Leave(Found(f)) else Resume(f + r - 1)
  }

  function PassIntended(busy: set<nat>, hi: nat, count: nat, l: nat): (p: Pass)
    requires count >= 1
    ensures p.Resume? ==> l < p.at && l <= hi
  {
    if l + count - 1 > hi then Leave(NotFound)
    else
      match NextFree(busy, l, hi)
      case None => Leave(NotFound)
      case Some(f) =>
        var r := RunLength(busy, f, hi);
        if r >= count then Leave(Found(f)) else Resume(f + r + 1)
  }

  // The loop after n passes of the source's step.
  function AfterPasses(busy: set<nat>, hi: nat, count: nat, l: nat, n: nat): Pass
    requires count >= 1
    decreases n
  {
    if n == 0 then Resume(l)
    else
      match PassAsWritten(busy, hi, count, l)
      case Leave(r) => Leave(r)
      case Resume(l') => AfterPasses(busy, hi, count, l', n - 1)
  }

  // The first free run is too short for the request, yet the request would
  // still fit between the end of that run and the end of the range.
  predicate StallCondition(busy: set<nat>, lo: nat, hi: nat, count: nat) {
    match NextFree(busy, lo, hi)
    case None => false
    case Some(f) =>
      var r := RunLength(busy, f, hi);
      r < count && f + r + count <= hi + 2
  }

  // What the search of the source computes.
  function AsWritten(busy: set<nat>, lo: nat, hi: nat, count: nat): SearchResult
    requires count >= 1
  {
    if StallCondition(busy, lo, hi, count) then Stalls
    else
      match PassAsWritten(busy, hi, count, lo)
      case Leave(r) => r
      case Resume(_) => NotFound
  }

  function Intended(busy: set<nat>, l: nat, hi: nat, count: nat): SearchResult
    requires count >= 1
    decreases hi + 1 - l
  {
    match PassIntended(busy, hi, count, l)
    case Leave(r) => r
    case Resume(l') => Intended(busy, l', hi, count)
  }

  // ---- The resume point of the source is a fixed point ----

  lemma ResumeIsFixed(busy: set<nat>, hi: nat, count: nat, l: nat)
    requires count >= 1
    requires PassAsWritten(busy, hi, count, l).Resume?
    ensures var at := PassAsWritten(busy, hi, count, l).at;
            PassAsWritten(busy, hi, count, at) == if at + count - 1 > hi then Leave(NotFound) else Resume(at)
  {
    var f := NextFree(busy, l, hi).value;
    var r := RunLength(busy, f, hi);
    var at := f + r - 1;
    assert at !in busy;
    assert NextFree(busy, at, hi) == Some(at);
    RunLengthIs(busy, at, hi, 1);
  }

  lemma {:induction false} FixedForever(busy: set<nat>, hi: nat, count: nat, at: nat, n: nat)
    requires count >= 1
    requires PassAsWritten(busy, hi, count, at) == Resume(at)
    ensures AfterPasses(busy, hi, count, at, n) == Resume(at)
  {
    if n > 0 {
      FixedForever(busy, hi, count, at, n - 1);
    }
  }

  // The source's loop runs forever exactly under the stall condition, and
  // otherwise leaves within two passes.
  lemma StallsExactly(busy: set<nat>, lo: nat, hi: nat, count: nat)
    requires count >= 1
    ensures (forall n: nat :: AfterPasses(busy, hi, count, lo, n).Resume?)
            <==> StallCondition(busy, lo, hi, count)
    ensures !StallCondition(busy, lo, hi, count) ==>
              AfterPasses(busy, hi, count, lo, 2) == Leave(AsWritten(busy, lo, hi, count))
  {
    var p := PassAsWritten(busy, hi, count, lo);
    if p.Resume? {
      ResumeIsFixed(busy, hi, count, lo);
      assert AfterPasses(busy, hi, count, lo, 2) == AfterPasses(busy, hi, count, p.at, 1);
      assert AfterPasses(busy, hi, count, p.at, 1) ==
             (match PassAsWritten(busy, hi, count, p.at)
              case Leave(r) => Leave(r)
              case Resume(l') => AfterPasses(busy, hi, count, l', 0));
      if StallCondition(busy, lo, hi, count) {
        forall n: nat
          ensures AfterPasses(busy, hi, count, lo, n).Resume?
        {
          if n > 0 {
            FixedForever(busy, hi, count, p.at, n - 1);
          }
        }
      }
    } else {
      assert AfterPasses(busy, hi, count, lo, 1) == p;
      assert AfterPasses(busy, hi, count, lo, 2) == p;
    }
  }

  // Where the loop stands at resume point l: on its first pass, or on the one
  // after it.
  predicate OnCourse(busy: set<nat>, lo: nat, hi: nat, count: nat, l: nat)
    requires count >= 1
  {
    l == lo || PassAsWritten(busy, hi, count, lo) == Resume(l)
  }

  // What a pass decides about the whole call.
  lemma PassDecides(busy: set<nat>, lo: nat, hi: nat, count: nat, l: nat)
    requires count >= 1 && OnCourse(busy, lo, hi, count, l)
    ensures var p := PassAsWritten(busy, hi, count, l);
            && (p.Leave? ==> AsWritten(busy, lo, hi, count) == p.result)
            && (p == Resume(l) ==> AsWritten(busy, lo, hi, count) == Stalls)
            && (p.Resume? ==> OnCourse(busy, lo, hi, count, p.at) && l <= p.at <= hi)
  {
  }

  // What one scan from l reports: the first free frame f, and how many of the
  // `remaining` frames after it are free as well.
  predicate Scanned(busy: set<nat>, hi: nat, l: nat, remaining: nat, found: bool, f: nat, i: nat) {
    match NextFree(busy, l, hi)
    case None => !found
    case Some(first) =>
      var r := RunLength(busy, first, hi);
      found && f == first && i == if r > remaining then remaining else r - 1
  }

  // What a scan decides about the whole call.
  lemma ScanDecides(busy: set<nat>, lo: nat, hi: nat, count: nat, l: nat, found: bool, f: nat, i: nat)
    requires count >= 1 && lo <= l && OnCourse(busy, lo, hi, count, l) && l + count - 1 <= hi
    requires Scanned(busy, hi, l, count - 1, found, f, i)
    ensures !found ==> l == lo && NextFree(busy, lo, hi).None? && AsWritten(busy, lo, hi, count) == NotFound
    ensures found && i == count - 1 ==> AsWritten(busy, lo, hi, count) == Found(f)
    ensures found && i != count - 1 ==>
              OnCourse(busy, lo, hi, count, f + i) && l <= f + i <= hi && f + i !in busy
    ensures found && i != count - 1 && f + i == l ==> AsWritten(busy, lo, hi, count) == Stalls
  {
    PassDecides(busy, lo, hi, count, l);
    if l != lo {
      assert l !in busy;
    }
  }

  // What a scan says about a pass of the intended search.
  lemma IntendedPassIs(busy: set<nat>, hi: nat, count: nat, l: nat, found: bool, f: nat, i: nat)
    requires count >= 1 && l + count - 1 <= hi && Scanned(busy, hi, l, count - 1, found, f, i)
    ensures PassIntended(busy, hi, count, l) ==
            if !found then Leave(NotFound) else if i == count - 1 then Leave(Found(f)) else Resume(f + i + 2)
  {
  }

  // ---- Every answer is the first fit ----

  // No request fits that starts in a run too short for it, or in busy frames.
  lemma ShortRunHoldsNoFit(busy: set<nat>, lo: nat, hi: nat, count: nat, l: nat, f: nat, t: nat)
    requires NextFree(busy, l, hi) == Some(f) && RunLength(busy, f, hi) < count
    requires l <= t <= f + RunLength(busy, f, hi)
    ensures !Fits(busy, lo, hi, count, t)
  {
    var stop := f + RunLength(busy, f, hi);
    assert t < f ==> t in busy;
    assert stop <= hi ==> stop in busy;
  }

  lemma AsWrittenAnswers(busy: set<nat>, lo: nat, hi: nat, count: nat)
    requires count >= 1
    ensures AsWritten(busy, lo, hi, count).Found? ==>
              FirstFit(busy, lo, hi, count, AsWritten(busy, lo, hi, count).start)
              && NextFree(busy, lo, hi) == Some(AsWritten(busy, lo, hi, count).start)
    ensures AsWritten(busy, lo, hi, count).NotFound? ==> NoFit(busy, lo, hi, count)
  {
    var r := AsWritten(busy, lo, hi, count);
    match NextFree(busy, lo, hi)
    case None =>
      forall t: nat
        ensures !Fits(busy, lo, hi, count, t)
      {
        assert lo <= t <= hi ==> t in busy;
      }
    case Some(f) =>
      forall t: nat | r != Stalls && (r.NotFound? || t < f)
        ensures !Fits(busy, lo, hi, count, t)
      {
        assert lo <= t < f ==> t in busy;
        if RunLength(busy, f, hi) < count && lo <= t <= f + RunLength(busy, f, hi) {
          ShortRunHoldsNoFit(busy, lo, hi, count, lo, f, t);
        }
      }
  }

  lemma {:induction false} IntendedAnswers(busy: set<nat>, lo: nat, l: nat, hi: nat, count: nat)
    requires count >= 1 && lo <= l
    requires forall t: nat :: t < l ==> !Fits(busy, lo, hi, count, t)
    ensures Intended(busy, l, hi, count).Found? || Intended(busy, l, hi, count).NotFound?
    ensures Intended(busy, l, hi, count).Found? ==>
              FirstFit(busy, lo, hi, count, Intended(busy, l, hi, count).start)
    ensures Intended(busy, l, hi, count).NotFound? ==> NoFit(busy, lo, hi, count)
    decreases hi + 1 - l
  {
    var free := NextFree(busy, l, hi);
    match PassIntended(busy, hi, count, l)
    case Resume(l') =>
      forall t: nat | t < l'
        ensures !Fits(busy, lo, hi, count, t)
      {
        if l <= t {
          ShortRunHoldsNoFit(busy, lo, hi, count, l, free.value, t);
        }
      }
      IntendedAnswers(busy, lo, l', hi, count);
    case Leave(r) =>
      forall t: nat | l <= t && (r.NotFound? || (r.Found? && t < r.start))
        ensures !Fits(busy, lo, hi, count, t)
      {
        assert free.Some? && t < free.value ==> t in busy;
        assert free.None? && t <= hi ==> t in busy;
      }
  }

  // The total-correctness statement of the intended search: first fit exactly.
  lemma IntendedIsFirstFit(busy: set<nat>, lo: nat, hi: nat, count: nat)
    requires count >= 1
    ensures forall s: nat :: Intended(busy, lo, hi, count) == Found(s) <==> FirstFit(busy, lo, hi, count, s)
    ensures Intended(busy, lo, hi, count) == NotFound <==> NoFit(busy, lo, hi, count)
  {
    IntendedAnswers(busy, lo, lo, hi, count);
    var r := Intended(busy, lo, hi, count);
    forall s: nat
      ensures r == Found(s) <==> FirstFit(busy, lo, hi, count, s)
    {
      if FirstFit(busy, lo, hi, count, s) {
        assert Fits(busy, lo, hi, count, s);
        assert r.Found? && Fits(busy, lo, hi, count, r.start);
        assert !(r.start < s) && !(s < r.start);
      }
    }
    if r.Found? {
      assert Fits(busy, lo, hi, count, r.start);
    }
  }

  // The source's search agrees with the intended one wherever it returns.
  lemma AsWrittenAgrees(busy: set<nat>, lo: nat, hi: nat, count: nat)
    requires count >= 1
    ensures AsWritten(busy, lo, hi, count) ==
            if StallCondition(busy, lo, hi, count) then Stalls else Intended(busy, lo, hi, count)
  {
    AsWrittenAnswers(busy, lo, hi, count);
    IntendedIsFirstFit(busy, lo, hi, count);
    var r := AsWritten(busy, lo, hi, count);
    if r.Found? {
      assert Intended(busy, lo, hi, count) == Found(r.start) <==> FirstFit(busy, lo, hi, count, r.start);
    }
  }

  // One-frame requests never stall.
  lemma SingleFrameNeverStalls(busy: set<nat>, lo: nat, hi: nat)
    ensures !StallCondition(busy, lo, hi, 1)
  {
  }
}
