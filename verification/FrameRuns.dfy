// Run-length encodings of the frame map, as dump_free_info (mm/page.c) lists them.
module FrameRuns {
  import FrameBitmap

  // One line of dump_free_info: the frames start..end-1 are all busy or all free.
  datatype FrameRun = FrameRun(start: nat, end: nat, busy: bool)

  // A non-empty run all of whose frames are busy, or all free.
  ghost predicate Uniform(run: FrameRun, busy: set<nat>) {
    run.start < run.end && forall b :: run.start <= b < run.end ==> (b in busy <==> run.busy)
  }

  // The runs follow on from each other from frame 0 to frame end - 1, and
  // neighbours differ, so none could be longer.
  ghost predicate Encodes(runs: seq<FrameRun>, busy: set<nat>, end: nat) {
    && (if runs == [] then end == 0 else runs[0].start == 0 && runs[|runs| - 1].end == end)
    && (forall i :: 0 <= i < |runs| ==> Uniform(runs[i], busy))
    && (forall i :: 0 <= i < |runs| - 1 ==> runs[i].end == runs[i + 1].start && runs[i].busy != runs[i + 1].busy)
  }

  lemma EncodingExtended(runs: seq<FrameRun>, busy: set<nat>, last: FrameRun)
    requires Encodes(runs, busy, last.start) && Uniform(last, busy)
    requires runs != [] ==> runs[|runs| - 1].busy != last.busy
    ensures Encodes(runs + [last], busy, last.end)
  {
  }

  function TotalBytes(runs: seq<FrameRun>): int {
    if runs == [] then 0
    else TotalBytes(runs[..|runs| - 1])
         + (runs[|runs| - 1].end * FrameBitmap.PAGE_SIZE - runs[|runs| - 1].start * FrameBitmap.PAGE_SIZE)
  }

  lemma {:induction false} EncodingBytes(runs: seq<FrameRun>, busy: set<nat>, end: nat)
    requires Encodes(runs, busy, end)
    ensures TotalBytes(runs) == end * FrameBitmap.PAGE_SIZE
  {
    if runs != [] {
      var front := runs[..|runs| - 1];
      EncodingBytes(front, busy, runs[|runs| - 1].start);
    }
  }

  lemma EncodingFront(runs: seq<FrameRun>, busy: set<nat>, end: nat)
    requires Encodes(runs, busy, end) && runs != []
    ensures runs == runs[..|runs| - 1] + [runs[|runs| - 1]]
    ensures Encodes(runs[..|runs| - 1], busy, runs[|runs| - 1].start)
  {
  }

  // There is only one run-length encoding of the first `end` frames.
  lemma {:induction false} EncodingUnique(v: seq<FrameRun>, w: seq<FrameRun>, busy: set<nat>, end: nat)
    requires Encodes(v, busy, end) && Encodes(w, busy, end)
    ensures v == w
    decreases |v|
  {
    if v == [] {
      assert w == [];
    } else {
      assert w != [];
      LastRunsAgree(v, w, busy, end);
      LastRunsAgree(w, v, busy, end);
      EncodingFront(v, busy, end);
      EncodingFront(w, busy, end);
      EncodingUnique(v[..|v| - 1], w[..|w| - 1], busy, v[|v| - 1].start);
    }
  }

  lemma LastRunsAgree(v: seq<FrameRun>, w: seq<FrameRun>, busy: set<nat>, end: nat)
    requires Encodes(v, busy, end) && Encodes(w, busy, end) && v != [] && w != []
    ensures v[|v| - 1].busy == w[|w| - 1].busy
    ensures v[|v| - 1].start <= w[|w| - 1].start
  {
    var a, b := v[|v| - 1], w[|w| - 1];
    assert end - 1 in busy <==> a.busy;
    assert end - 1 in busy <==> b.busy;
    if |v| >= 2 {
      assert a.start - 1 in busy <==> v[|v| - 2].busy;
    }
  }
}
