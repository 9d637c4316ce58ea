// The packed bitmap both allocators keep: one bit per frame, 32 frames to a
// word, a set bit meaning busy.  `BusyFrames` is the set of frames a word
// sequence stands for, and the bit methods are proved against it.
module FrameBitmap {
  import opened Words

  // arch/i386/include/mm.h, mm/page.c
  const PAGE_SIZE: nat := 4096
  const NUM_FRAMES: nat := 1048576
  const UINT_CNT: nat := 32768
  const LAST_BIT_NO: nat := 1048575

  function FrameCount(words: seq<u32>): nat {
    BITS_PER_WORD * |words|
  }

  predicate IsBusy(words: seq<u32>, b: nat)
    requires b < FrameCount(words)
  {
    TestBit(words[b / BITS_PER_WORD], b % BITS_PER_WORD)
  }

  function BusyFrames(words: seq<u32>): set<nat> {
    set b: nat | b < FrameCount(words) && IsBusy(words, b)
  }

  // The frames start..end, both included.
  function Range(start: nat, end: int): (r: set<nat>)
    ensures forall b: nat :: b in r <==> start <= b <= end
    decreases end
  {
    if end < start then {} else Range(start, end - 1) + {end}
  }

  // The mask test of the search loops at frame i, bit k of word `index`, and where
  // the mask moves next: on to bit k + 1, or to zero at the end of the word.
  lemma MaskAtFrame(words: seq<u32>, index: nat, i: nat, k: nat)
    requires index < |words| && i == BITS_PER_WORD * index + k && k < BITS_PER_WORD
    ensures 0 < Mask(k) < 0x1_0000_0000
    ensures And(words[index], Mask(k)) != 0 <==> i in BusyFrames(words)
    ensures ShiftLeft1(Mask(k)) == if k + 1 < BITS_PER_WORD then Mask(k + 1) else 0
  {
    assert i / BITS_PER_WORD == index && i % BITS_PER_WORD == k;
    MaskTest(words[index], k);
    MaskWalk(k);
    assert IsBusy(words, i) <==> i in BusyFrames(words);
  }

  lemma WordUpdate(before: seq<u32>, after: seq<u32>, b: nat, w: u32)
    requires b < FrameCount(before)
    requires after == before[b / BITS_PER_WORD := w]
    ensures (forall j: nat :: j < BITS_PER_WORD ==>
               (TestBit(w, j) <==> (j == b % BITS_PER_WORD || TestBit(before[b / BITS_PER_WORD], j))))
            ==> BusyFrames(after) == BusyFrames(before) + {b}
    ensures (forall j: nat :: j < BITS_PER_WORD ==>
               (TestBit(w, j) <==> (j != b % BITS_PER_WORD && TestBit(before[b / BITS_PER_WORD], j))))
            ==> BusyFrames(after) == BusyFrames(before) - {b}
  {
    forall c: nat | c < FrameCount(before)
      ensures c / BITS_PER_WORD == b / BITS_PER_WORD && c % BITS_PER_WORD == b % BITS_PER_WORD ==> c == b
      ensures IsBusy(after, c) <==>
              TestBit(
                if c / BITS_PER_WORD == b / BITS_PER_WORD then w else before[c / BITS_PER_WORD],
                c % BITS_PER_WORD)
    {
    }
  }

  // Two bitmaps of the same size with the same busy frames are the same words.
  lemma BitmapExtensional(v: seq<u32>, w: seq<u32>)
    requires |v| == |w| && BusyFrames(v) == BusyFrames(w)
    ensures v == w
  {
    forall i: nat | i < |v|
      ensures v[i] == w[i]
    {
      Mask32();
      forall k: nat | k < BITS_PER_WORD
        ensures TestBit(v[i], k) <==> TestBit(w[i], k)
      {
        var b := BITS_PER_WORD * i + k;
        assert b / BITS_PER_WORD == i && b % BITS_PER_WORD == k;
        assert IsBusy(v, b) <==> b in BusyFrames(v);
        assert IsBusy(w, b) <==> b in BusyFrames(w);
      }
      WordsExtensional(v[i], w[i], 32);
    }
  }

  // fp_setbit, bm_setbit
  method SetBit(bm: array<u32>, b: nat)
    requires b < BITS_PER_WORD * bm.Length
    modifies bm
    ensures BusyFrames(bm[..]) == old(BusyFrames(bm[..])) + {b}
  {
    var index := b / BITS_PER_WORD;
    var offset := b % BITS_PER_WORD;
    ghost var before := bm[..];
    bm[index] := WithBit(bm[index], offset);
    WordUpdate(before, bm[..], b, bm[index]);
  }

  // fp_clearbit, bm_clearbit
  method ClearBit(bm: array<u32>, b: nat)
    requires b < BITS_PER_WORD * bm.Length
    modifies bm
    ensures BusyFrames(bm[..]) == old(BusyFrames(bm[..])) - {b}
  {
    var index := b / BITS_PER_WORD;
    var offset := b % BITS_PER_WORD;
    ghost var before := bm[..];
    bm[index] := WithoutBit(bm[index], offset);
    WordUpdate(before, bm[..], b, bm[index]);
  }

  // fp_getbit, bm_getbit
  method GetBit(bm: array<u32>, b: nat) returns (busy: bool)
    requires b < BITS_PER_WORD * bm.Length
    ensures busy <==> b in BusyFrames(bm[..])
  {
    var index := b / BITS_PER_WORD;
    var offset := b % BITS_PER_WORD;
    var mask := Mask(offset);
    MaskTest(bm[index], offset);
    busy := And(bm[index], mask) != 0;
    assert IsBusy(bm[..], b) <==> b in BusyFrames(bm[..]);
  }

  // fp_setbit_range, bm_setbit_range
  method SetBitRange(bm: array<u32>, startBit: nat, endBit: nat)
    requires startBit <= endBit ==> endBit < BITS_PER_WORD * bm.Length
    modifies bm
    ensures BusyFrames(bm[..]) == old(BusyFrames(bm[..])) + Range(startBit, endBit)
  {
    var bit := startBit;
    assert Range(startBit, startBit - 1) == {};
    while bit <= endBit
      invariant startBit <= bit
      invariant bit <= endBit + 1 || bit == startBit
      invariant BusyFrames(bm[..]) == old(BusyFrames(bm[..])) + Range(startBit, bit - 1)
    {
      SetBit(bm, bit);
      bit := bit + 1;
    }
    assert Range(startBit, bit - 1) == Range(startBit, endBit);
  }

  // fp_clearbit_range, bm_clearbit_range
  method ClearBitRange(bm: array<u32>, startBit: nat, endBit: nat)
    requires startBit <= endBit ==> endBit < BITS_PER_WORD * bm.Length
    modifies bm
    ensures BusyFrames(bm[..]) == old(BusyFrames(bm[..])) - Range(startBit, endBit)
  {
    var bit := startBit;
    assert Range(startBit, startBit - 1) == {};
    while bit <= endBit
      invariant startBit <= bit
      invariant bit <= endBit + 1 || bit == startBit
      invariant BusyFrames(bm[..]) == old(BusyFrames(bm[..])) - Range(startBit, bit - 1)
    {
      ClearBit(bm, bit);
      bit := bit + 1;
    }
    assert Range(startBit, bit - 1) == Range(startBit, endBit);
  }
}
