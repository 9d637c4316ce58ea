// The register frame an interrupt leaves on the stack: the struct of
// arch/i386/include/isr.h against the pushes and pops of arch/i386/kernel/vectors.S.
module InterruptFrame {
  import opened Words

  const FRAME_WORDS: nat := 17

  type u16 = x: int | 0 <= x < 0x1_0000

  // The registers an interrupt saves and restores; sp is the index of the top
  // word of the interrupted stack.
  datatype Cpu = Cpu(gs: u16, fs: u16, es: u16, ds: u16, edi: u32, esi: u32, ebp: u32, ebx: u32,
                     edx: u32, ecx: u32, eax: u32, eip: u32, cs: u32, eflags: u32, sp: nat)

  // `mov %ds, %ax; push %eax`: the selector, under the upper half of eax.
  function SelectorWord(c: Cpu, selector: u16): (w: u32)
    ensures w % 0x1_0000 == selector && w / 0x1_0000 == c.eax / 0x1_0000
  {
    c.eax / 0x1_0000 * 0x1_0000 + selector
  }

  // isr_registers_t, from the lowest address up
  function Frame(c: Cpu, espImage: u32, intNo: u32, errCode: u32): (f: seq<u32>)
    ensures |f| == FRAME_WORDS
  {
    [SelectorWord(c, c.gs), SelectorWord(c, c.fs), SelectorWord(c, c.es), SelectorWord(c, c.ds)]
    + [c.edi, c.esi, c.ebp, espImage, c.ebx, c.edx, c.ecx, c.eax, intNo, errCode, c.eip, c.cs, c.eflags]
  }

  // `push`
  function Push(stack: seq<u32>, sp: nat, w: u32): seq<u32>
    requires 0 < sp <= |stack|
  {
    stack[sp - 1 := w]
  }

  // The words w pushed one after another, the first of them first.
  function PushAll(stack: seq<u32>, sp: nat, words: seq<u32>): (r: seq<u32>)
    requires |words| <= sp <= |stack|
    ensures |r| == |stack|
    decreases |words|
  {
    if words == [] then stack else PushAll(Push(stack, sp, words[0]), sp - 1, words[1..])
  }

  // The pushes of the processor, the ISR macro and isr_common_stub, in order.
  function EntryPushes(c: Cpu, espImage: u32, intNo: u32): (w: seq<u32>)
    ensures |w| == FRAME_WORDS
  {
    [c.eflags, c.cs, c.eip, 0, intNo, c.eax, c.ecx, c.edx, c.ebx, espImage, c.ebp, c.esi, c.edi]
    + [SelectorWord(c, c.ds), SelectorWord(c, c.es), SelectorWord(c, c.fs), SelectorWord(c, c.gs)]
  }

  // The pops from schedule_not_pending on, with esp at word p of the stack.
  function Restore(stack: seq<u32>, p: nat): Cpu
    requires p + FRAME_WORDS <= |stack|
  {
    Cpu(stack[p] % 0x1_0000, stack[p + 1] % 0x1_0000, stack[p + 2] % 0x1_0000, stack[p + 3] % 0x1_0000,
        stack[p + 4], stack[p + 5], stack[p + 6], stack[p + 8], stack[p + 9], stack[p + 10], stack[p + 11],
        stack[p + 14], stack[p + 15], stack[p + 16], p + FRAME_WORDS)
  }

  lemma {:induction false} PushAllAt(stack: seq<u32>, sp: nat, words: seq<u32>, k: nat)
    requires |words| <= sp <= |stack| && k < |stack|
    ensures PushAll(stack, sp, words)[k] == if sp - |words| <= k < sp then words[sp - 1 - k] else stack[k]
    decreases |words|
  {
    if words != [] {
      PushAllAt(Push(stack, sp, words[0]), sp - 1, words[1..], k);
    }
  }

  ghost predicate FrameAt(stack: seq<u32>, p: nat, f: seq<u32>)
    requires |f| == FRAME_WORDS && p + FRAME_WORDS <= |stack|
  {
    forall i: nat :: i < FRAME_WORDS ==> stack[p + i] == f[i]
  }

  lemma SelectorsAt(stack: seq<u32>, p: nat, c: Cpu, espImage: u32, intNo: u32)
    requires p + FRAME_WORDS <= |stack| && FrameAt(stack, p, Frame(c, espImage, intNo, 0))
    ensures stack[p] % 0x1_0000 == c.gs && stack[p + 1] % 0x1_0000 == c.fs
    ensures stack[p + 2] % 0x1_0000 == c.es && stack[p + 3] % 0x1_0000 == c.ds
  {
    var f := Frame(c, espImage, intNo, 0);
    assert stack[p + 0] == f[0] && stack[p + 1] == f[1] && stack[p + 2] == f[2] && stack[p + 3] == f[3];
  }

  lemma RestoresFrame(stack: seq<u32>, p: nat, c: Cpu, espImage: u32, intNo: u32, errCode: u32)
    requires p + FRAME_WORDS <= |stack| && FrameAt(stack, p, Frame(c, espImage, intNo, errCode))
    ensures Restore(stack, p) == c.(sp := p + FRAME_WORDS)
  {
    var f := Frame(c, espImage, intNo, errCode);
    assert stack[p + 0] == f[0] && stack[p + 1] == f[1] && stack[p + 2] == f[2] && stack[p + 3] == f[3];
    assert stack[p + 4] == f[4] && stack[p + 5] == f[5] && stack[p + 6] == f[6] && stack[p + 8] == f[8];
    assert stack[p + 9] == f[9] && stack[p + 10] == f[10] && stack[p + 11] == f[11];
    assert stack[p + 14] == f[14] && stack[p + 15] == f[15] && stack[p + 16] == f[16];
  }

  lemma PushesReversed(c: Cpu, espImage: u32, intNo: u32, i: nat)
    requires i < FRAME_WORDS
    ensures EntryPushes(c, espImage, intNo)[FRAME_WORDS - 1 - i] == Frame(c, espImage, intNo, 0)[i]
  {
  }

  ghost predicate Reversed(words: seq<u32>, frame: seq<u32>)
    requires |words| == |frame| == FRAME_WORDS
  {
    forall i: nat :: i < FRAME_WORDS ==> words[FRAME_WORDS - 1 - i] == frame[i]
  }

  // Words pushed in reverse order lie in order.
  lemma PushAllLaysOut(stack: seq<u32>, sp: nat, words: seq<u32>, frame: seq<u32>)
    requires |words| == |frame| == FRAME_WORDS <= sp <= |stack| && Reversed(words, frame)
    ensures FrameAt(PushAll(stack, sp, words), sp - FRAME_WORDS, frame)
  {
    forall i: nat | i < FRAME_WORDS
      ensures PushAll(stack, sp, words)[sp - FRAME_WORDS + i] == frame[i]
    {
      PushAllAt(stack, sp, words, sp - FRAME_WORDS + i);
    }
  }

  lemma EntryReversesFrame(c: Cpu, espImage: u32, intNo: u32)
    ensures Reversed(EntryPushes(c, espImage, intNo), Frame(c, espImage, intNo, 0))
  {
    forall i: nat | i < FRAME_WORDS
      ensures EntryPushes(c, espImage, intNo)[FRAME_WORDS - 1 - i] == Frame(c, espImage, intNo, 0)[i]
    {
      PushesReversed(c, espImage, intNo, i);
    }
  }

  lemma EntryBuildsFrame(stack: seq<u32>, c: Cpu, espImage: u32, intNo: u32)
    requires FRAME_WORDS <= c.sp <= |stack|
    ensures var saved, p := PushAll(stack, c.sp, EntryPushes(c, espImage, intNo)), c.sp - FRAME_WORDS;
            && FrameAt(saved, p, Frame(c, espImage, intNo, 0))
            && saved[p] % 0x1_0000 == c.gs && saved[p + 1] % 0x1_0000 == c.fs
            && saved[p + 2] % 0x1_0000 == c.es && saved[p + 3] % 0x1_0000 == c.ds
            && forall k :: c.sp <= k < |stack| ==> saved[k] == stack[k]
  {
    var pushes := EntryPushes(c, espImage, intNo);
    EntryReversesFrame(c, espImage, intNo);
    PushAllLaysOut(stack, c.sp, pushes, Frame(c, espImage, intNo, 0));
    SelectorsAt(PushAll(stack, c.sp, pushes), c.sp - FRAME_WORDS, c, espImage, intNo);
    forall k | c.sp <= k < |stack|
      ensures PushAll(stack, c.sp, pushes)[k] == stack[k]
    {
      PushAllAt(stack, c.sp, pushes, k);
    }
  }

  // The stack an interrupt leaves from: what its handler did to the words below
  // the frame does not matter.
  ghost predicate Leaves(stack: seq<u32>, c: Cpu, espImage: u32, intNo: u32, left: seq<u32>)
    requires FRAME_WORDS <= c.sp <= |stack|
  {
    var p := c.sp - FRAME_WORDS;
    |left| == |stack| && left[p..] == PushAll(stack, c.sp, EntryPushes(c, espImage, intNo))[p..]
  }

  lemma LeavesFrame(stack: seq<u32>, c: Cpu, espImage: u32, intNo: u32, left: seq<u32>)
    requires FRAME_WORDS <= c.sp <= |stack| && Leaves(stack, c, espImage, intNo, left)
    ensures FrameAt(left, c.sp - FRAME_WORDS, Frame(c, espImage, intNo, 0))
    ensures left[c.sp..] == stack[c.sp..]
  {
    var p := c.sp - FRAME_WORDS;
    var saved := PushAll(stack, c.sp, EntryPushes(c, espImage, intNo));
    EntryBuildsFrame(stack, c, espImage, intNo);
    forall k | p <= k < |stack|
      ensures left[k] == saved[k]
    {
      assert left[p..][k - p] == saved[p..][k - p];
    }
  }

  // Leaving from the frame of an interrupt restores every register and the stack
  // above them.
  lemma InterruptSavesContext(stack: seq<u32>, c: Cpu, espImage: u32, intNo: u32, left: seq<u32>)
    requires FRAME_WORDS <= c.sp <= |stack| && Leaves(stack, c, espImage, intNo, left)
    ensures |left| == |stack| && Restore(left, c.sp - FRAME_WORDS) == c
    ensures left[c.sp..] == stack[c.sp..]
  {
    LeavesFrame(stack, c, espImage, intNo, left);
    RestoresFrame(left, c.sp - FRAME_WORDS, c, espImage, intNo, 0);
  }
}
