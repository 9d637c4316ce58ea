// The scan-code decoder of arch/i386/kernel/kbd-handler.c (PS/2 scan code set
// 2): its eight-state machine, the byte stream of key strokes, and what
// decoding that stream gives.
module KeyDecoder {

  type Byte = x: int | 0 <= x < 256

  datatype DecoderState =
    | StateInit
    | BasicBreakExpec
    | BasicBreakEs
    | ExtMakeEs
    | ExtBreakExpec
    | ExtBreakEs1
    | ExtBreakEs2
    | StateIgnore

  // The four outputs of one call: *o, *make, *repeat_key and *basic_key.  A code
  // of 0 means that no key is reported.
  datatype Output = Output(code: int, make: bool, repeatKey: bool, basicKey: bool)

  const NOTHING := Output(0, false, false, false)

  // keyboard_state_machine
  function Decode(state: DecoderState, i: Byte): (DecoderState, Output) {
    match state
    case StateInit =>
      if i == 0xF0 then (StateIgnore, NOTHING)
      else if i == 0xE0 then (ExtMakeEs, NOTHING)
      else (BasicBreakExpec, Output(i, true, false, true))
    case BasicBreakExpec =>
      if i == 0xF0 then (BasicBreakEs, NOTHING)
      else (BasicBreakExpec, Output(i, true, true, true))
    case BasicBreakEs =>
      if i == 0xE0 || i == 0xF0 then (StateIgnore, NOTHING)
      else (StateInit, Output(i, false, false, true))
    case ExtMakeEs =>
      if i == 0xE0 || i == 0xF0 then (StateIgnore, NOTHING)
      else (ExtBreakExpec, Output(i, true, false, false))
    case ExtBreakExpec =>
      if i == 0xE0 then (ExtBreakEs1, NOTHING)
      else if i == 0xF0 then (StateIgnore, NOTHING)
      else (StateInit, NOTHING)
    case ExtBreakEs1 =>
      if i == 0xF0 then (ExtBreakEs2, NOTHING)
      else if i == 0xE0 then (StateIgnore, NOTHING)
      else (ExtBreakExpec, Output(i, true, false, false))
    case ExtBreakEs2 =>
      if i == 0xF0 || i == 0xE0 then (StateIgnore, NOTHING)
      else (StateInit, Output(i, false, false, false))
    case StateIgnore => (StateInit, NOTHING)
  }

  // ---- Decoding a stream ----

  function FinalState(state: DecoderState, bytes: seq<Byte>): DecoderState
    decreases |bytes|
  {
    if bytes == [] then state else FinalState(Decode(state, bytes[0]).0, bytes[1..])
  }

  function Outputs(state: DecoderState, bytes: seq<Byte>): (r: seq<Output>)
    ensures |r| == |bytes|
    decreases |bytes|
  {
    if bytes == [] then []
    else [Decode(state, bytes[0]).1] + Outputs(Decode(state, bytes[0]).0, bytes[1..])
  }

  // The outputs that report a key.
  function Keys(outputs: seq<Output>): seq<Output> {
    if outputs == [] then []
    else (if outputs[0].code != 0 then [outputs[0]] else []) + Keys(outputs[1..])
  }

  // The outputs read_key hands on: makes, repeats among them.
  function Makes(outputs: seq<Output>): seq<Output> {
    if outputs == [] then []
    else (if outputs[0].make then [outputs[0]] else []) + Makes(outputs[1..])
  }

  lemma {:induction false} DecodeAppend(state: DecoderState, a: seq<Byte>, b: seq<Byte>)
    ensures FinalState(state, a + b) == FinalState(FinalState(state, a), b)
    ensures Outputs(state, a + b) == Outputs(state, a) + Outputs(FinalState(state, a), b)
    decreases |a|
  {
    if a == [] {
      assert a + b == b;
    } else {
      assert (a + b)[1..] == a[1..] + b;
      DecodeAppend(Decode(state, a[0]).0, a[1..], b);
    }
  }

  lemma FirstAndRest(a: seq<Output>, b: seq<Output>)
    requires a != []
    ensures (a + b)[0] == a[0] && (a + b)[1..] == a[1..] + b
  {
  }

  lemma {:induction false} KeysOfAppend(a: seq<Output>, b: seq<Output>)
    ensures Keys(a + b) == Keys(a) + Keys(b)
  {
    if a == [] {
      assert a + b == b;
    } else {
      KeysOfAppend(a[1..], b);
      FirstAndRest(a, b);
    }
  }

  lemma {:induction false} MakesOfAppend(a: seq<Output>, b: seq<Output>)
    ensures Makes(a + b) == Makes(a) + Makes(b)
  {
    if a == [] {
      assert a + b == b;
    } else {
      MakesOfAppend(a[1..], b);
      FirstAndRest(a, b);
    }
  }

  lemma KeysAppend(a: seq<Output>, b: seq<Output>)
    ensures Keys(a + b) == Keys(a) + Keys(b)
    ensures Makes(a + b) == Makes(a) + Makes(b)
  {
    KeysOfAppend(a, b);
    MakesOfAppend(a, b);
  }

  // ---- Key strokes ----

  // A key pressed, held for some repeats, and released.
  datatype Stroke = Stroke(code: Byte, extended: bool, repeats: nat)

  predicate Ordinary(b: Byte) {
    b != 0xE0 && b != 0xF0
  }

  predicate Regular(strokes: seq<Stroke>) {
    forall s :: s in strokes ==> Ordinary(s.code)
  }

  // Codes but for 0, with which the decoder reports no key.
  predicate PlainCode(code: Byte) {
    Ordinary(code) && code != 0
  }

  predicate Plain(strokes: seq<Stroke>) {
    forall s :: s in strokes ==> PlainCode(s.code)
  }

  function Copies<T>(x: seq<T>, n: nat): seq<T> {
    if n == 0 then [] else x + Copies(x, n - 1)
  }

  function Press(s: Stroke): seq<Byte> {
    if s.extended then [0xE0, s.code] else [s.code]
  }

  function Release(s: Stroke): seq<Byte> {
    if s.extended then [0xE0, 0xF0, s.code] else [0xF0, s.code]
  }

  // The bytes the keyboard sends for a stroke.
  function Encode(s: Stroke): seq<Byte> {
    Press(s) + Copies(Press(s), s.repeats) + Release(s)
  }

  function EncodeAll(strokes: seq<Stroke>): seq<Byte> {
    if strokes == [] then [] else Encode(strokes[0]) + EncodeAll(strokes[1..])
  }

  function MakeOf(s: Stroke): Output {
    Output(s.code, true, false, !s.extended)
  }

  // Repeats of a basic key are marked as repeats, those of an extended key not.
  function RepeatOf(s: Stroke): Output {
    Output(s.code, true, !s.extended, !s.extended)
  }

  function BreakOf(s: Stroke): Output {
    Output(s.code, false, false, !s.extended)
  }

  function MakesOf(s: Stroke): seq<Output> {
    [MakeOf(s)] + Copies([RepeatOf(s)], s.repeats)
  }

  function MakesOfAll(strokes: seq<Stroke>): seq<Output> {
    if strokes == [] then [] else MakesOf(strokes[0]) + MakesOfAll(strokes[1..])
  }

  // The make and break events of a list of strokes, in order.
  function EventsOfAll(strokes: seq<Stroke>): seq<Output> {
    if strokes == [] then []
    else MakesOf(strokes[0]) + [BreakOf(strokes[0])] + EventsOfAll(strokes[1..])
  }

  // The state between the press and the release of a stroke.
  function HeldState(s: Stroke): DecoderState {
    if s.extended then ExtBreakExpec else BasicBreakExpec
  }

  // A word of one or two bytes is decoded in one or two steps.
  lemma DecodeShort(state: DecoderState, a: Byte, b: Byte)
    ensures FinalState(state, [a]) == Decode(state, a).0
    ensures Outputs(state, [a]) == [Decode(state, a).1]
    ensures FinalState(state, [a, b]) == Decode(Decode(state, a).0, b).0
    ensures Outputs(state, [a, b]) == [Decode(state, a).1, Decode(Decode(state, a).0, b).1]
  {
    assert [a, b][1..] == [b] && [b][1..] == [] && [a][1..] == [];
    assert FinalState(Decode(state, a).0, [b]) == Decode(Decode(state, a).0, b).0;
    assert Outputs(Decode(state, a).0, [b]) == [Decode(Decode(state, a).0, b).1];
  }

  lemma PickShort(x: Output, y: Output)
    ensures Keys([x]) == if x.code != 0 then [x] else []
    ensures Makes([x]) == if x.make then [x] else []
    ensures Keys([x, y]) == Keys([x]) + Keys([y])
    ensures Makes([x, y]) == Makes([x]) + Makes([y])
  {
  }

  lemma PressDecodes(s: Stroke)
    requires Ordinary(s.code)
    ensures FinalState(StateInit, Press(s)) == HeldState(s)
    ensures Makes(Outputs(StateInit, Press(s))) == [MakeOf(s)]
    ensures FinalState(HeldState(s), Press(s)) == HeldState(s)
    ensures Makes(Outputs(HeldState(s), Press(s))) == [RepeatOf(s)]
    ensures s.code != 0 ==> Keys(Outputs(StateInit, Press(s))) == [MakeOf(s)]
    ensures s.code != 0 ==> Keys(Outputs(HeldState(s), Press(s))) == [RepeatOf(s)]
  {
    DecodeShort(StateInit, s.code, s.code);
    DecodeShort(StateInit, 0xE0, s.code);
    DecodeShort(HeldState(s), s.code, s.code);
    DecodeShort(HeldState(s), 0xE0, s.code);
    PickShort(NOTHING, MakeOf(s));
    PickShort(MakeOf(s), NOTHING);
    PickShort(NOTHING, RepeatOf(s));
    PickShort(RepeatOf(s), NOTHING);
  }

  lemma ReleaseDecodes(s: Stroke)
    requires Ordinary(s.code)
    ensures FinalState(HeldState(s), Release(s)) == StateInit
    ensures Makes(Outputs(HeldState(s), Release(s))) == []
    ensures s.code != 0 ==> Keys(Outputs(HeldState(s), Release(s))) == [BreakOf(s)]
  {
    PickShort(NOTHING, NOTHING);
    PickShort(NOTHING, BreakOf(s));
    PickShort(BreakOf(s), NOTHING);
    if s.extended {
      KeysAppend([NOTHING, NOTHING], [BreakOf(s)]);
      DecodeShort(ExtBreakExpec, 0xE0, 0xF0);
      DecodeShort(ExtBreakEs2, s.code, s.code);
      DecodeAppend(ExtBreakExpec, [0xE0, 0xF0], [s.code]);
      assert Release(s) == [0xE0, 0xF0] + [s.code];
    } else {
      DecodeShort(BasicBreakExpec, 0xF0, s.code);
    }
  }

  lemma {:induction false} RepeatsDecode(s: Stroke, n: nat)
    requires Ordinary(s.code)
    ensures FinalState(HeldState(s), Copies(Press(s), n)) == HeldState(s)
    ensures Makes(Outputs(HeldState(s), Copies(Press(s), n))) == Copies([RepeatOf(s)], n)
    ensures s.code != 0 ==> Keys(Outputs(HeldState(s), Copies(Press(s), n))) == Copies([RepeatOf(s)], n)
  {
    if n > 0 {
      PressDecodes(s);
      RepeatsDecode(s, n - 1);
      DecodeJoin(HeldState(s), Press(s), Copies(Press(s), n - 1));
    }
  }

  // Two words in a row.
  lemma DecodeJoin(state: DecoderState, a: seq<Byte>, b: seq<Byte>)
    ensures FinalState(state, a + b) == FinalState(FinalState(state, a), b)
    ensures Keys(Outputs(state, a + b)) == Keys(Outputs(state, a)) + Keys(Outputs(FinalState(state, a), b))
    ensures Makes(Outputs(state, a + b)) == Makes(Outputs(state, a)) + Makes(Outputs(FinalState(state, a), b))
  {
    DecodeAppend(state, a, b);
    KeysAppend(Outputs(state, a), Outputs(FinalState(state, a), b));
  }

  lemma StrokeDecodes(s: Stroke)
    requires Ordinary(s.code)
    ensures FinalState(StateInit, Encode(s)) == StateInit
    ensures Makes(Outputs(StateInit, Encode(s))) == MakesOf(s)
    ensures s.code != 0 ==> Keys(Outputs(StateInit, Encode(s))) == MakesOf(s) + [BreakOf(s)]
  {
    PressDecodes(s);
    RepeatsDecode(s, s.repeats);
    ReleaseDecodes(s);
    DecodeJoin(StateInit, Press(s), Copies(Press(s), s.repeats));
    DecodeJoin(StateInit, Press(s) + Copies(Press(s), s.repeats), Release(s));
  }

  // Decoding what was encoded gives the same makes and breaks in order, and
  // leaves the machine where it started.
  lemma {:induction false} KeyboardRoundTrip(strokes: seq<Stroke>)
    requires Regular(strokes)
    ensures FinalState(StateInit, EncodeAll(strokes)) == StateInit
    ensures Makes(Outputs(StateInit, EncodeAll(strokes))) == MakesOfAll(strokes)
    ensures Plain(strokes) ==> Keys(Outputs(StateInit, EncodeAll(strokes))) == EventsOfAll(strokes)
  {
    if strokes != [] {
      StrokeDecodes(strokes[0]);
      KeyboardRoundTrip(strokes[1..]);
      DecodeJoin(StateInit, Encode(strokes[0]), EncodeAll(strokes[1..]));
    }
  }

  // ---- Streams that are not whole strokes ----

  // From this state these bytes report nothing, and whole strokes behind them
  // are decoded exactly.
  ghost predicate Silent(state: DecoderState, bytes: seq<Byte>) {
    forall strokes :: Plain(strokes) ==>
      && FinalState(state, bytes + EncodeAll(strokes)) == StateInit
      && Makes(Outputs(state, bytes + EncodeAll(strokes))) == MakesOfAll(strokes)
      && Keys(Outputs(state, bytes + EncodeAll(strokes))) == EventsOfAll(strokes)
  }

  lemma SilentWord(state: DecoderState, bytes: seq<Byte>)
    requires FinalState(state, bytes) == StateInit
    requires Makes(Outputs(state, bytes)) == [] && Keys(Outputs(state, bytes)) == []
    ensures Silent(state, bytes)
  {
    forall strokes | Plain(strokes)
      ensures FinalState(state, bytes + EncodeAll(strokes)) == StateInit
      ensures Makes(Outputs(state, bytes + EncodeAll(strokes))) == MakesOfAll(strokes)
      ensures Keys(Outputs(state, bytes + EncodeAll(strokes))) == EventsOfAll(strokes)
    {
      KeyboardRoundTrip(strokes);
      DecodeJoin(state, bytes, EncodeAll(strokes));
    }
  }

  // A prefix byte that cannot come in this state.  With a basic key held, E0 is
  // not one of them: it is taken for a key.
  predicate Unexpected(state: DecoderState, b: Byte) {
    match state
    case StateInit => b == 0xF0
    case BasicBreakExpec => false
    case ExtBreakExpec => b == 0xF0
    case ExtBreakEs1 => b == 0xE0
    case StateIgnore => false
    case _ => b == 0xE0 || b == 0xF0
  }

  // An unexpected prefix takes the byte behind it along, whichever that is.
  lemma UnexpectedPrefix(state: DecoderState, b: Byte, c: Byte)
    requires Unexpected(state, b)
    ensures Silent(state, [b, c])
  {
    DecodeShort(state, b, c);
    PickShort(NOTHING, NOTHING);
    SilentWord(state, [b, c]);
  }

  // A basic key pressed while an extended one is held goes unnoticed.
  lemma BasicUnderExtended(c: Byte)
    requires Ordinary(c)
    ensures Silent(ExtBreakExpec, [c])
  {
    DecodeShort(ExtBreakExpec, c, c);
    PickShort(NOTHING, NOTHING);
    SilentWord(ExtBreakExpec, [c]);
  }

  // The release of a key whose press was not seen, as of one held at boot.
  lemma LoneRelease(s: Stroke)
    requires Ordinary(s.code)
    ensures FinalState(StateInit, Release(s)) == StateInit
    ensures Makes(Outputs(StateInit, Release(s))) == [] && Keys(Outputs(StateInit, Release(s))) == []
    ensures Silent(StateInit, Release(s))
  {
    PickShort(NOTHING, NOTHING);
    if s.extended {
      DecodeShort(StateInit, 0xE0, 0xE0);
      DecodeShort(ExtMakeEs, 0xF0, s.code);
      DecodeJoin(StateInit, [0xE0], [0xF0, s.code]);
      assert Release(s) == [0xE0] + [0xF0, s.code];
    } else {
      DecodeShort(StateInit, 0xF0, s.code);
    }
    SilentWord(StateInit, Release(s));
  }

  // An extended key pressed and released while a basic one is held: its bytes
  // are read as basic keys, E0 among them.
  lemma ExtendedUnderBasic(c: Byte)
    requires PlainCode(c)
    ensures FinalState(BasicBreakExpec, [0xE0, c]) == BasicBreakExpec
    ensures Keys(Outputs(BasicBreakExpec, [0xE0, c])) == [RepeatOf(BasicKey(0xE0)), RepeatOf(BasicKey(c))]
    ensures FinalState(BasicBreakExpec, [0xE0, 0xF0, c]) == StateInit
    ensures Keys(Outputs(BasicBreakExpec, [0xE0, 0xF0, c])) == [RepeatOf(BasicKey(0xE0)), BreakOf(BasicKey(c))]
  {
    DecodeShort(BasicBreakExpec, 0xE0, c);
    PickShort(RepeatOf(BasicKey(0xE0)), RepeatOf(BasicKey(c)));
    ExtendedReleasedUnderBasic(c);
  }

  lemma ExtendedReleasedUnderBasic(c: Byte)
    requires PlainCode(c)
    ensures FinalState(BasicBreakExpec, [0xE0, 0xF0, c]) == StateInit
    ensures Keys(Outputs(BasicBreakExpec, [0xE0, 0xF0, c])) == [RepeatOf(BasicKey(0xE0)), BreakOf(BasicKey(c))]
  {
    DecodeShort(BasicBreakExpec, 0xE0, 0xF0);
    DecodeShort(BasicBreakEs, c, c);
    DecodeJoin(BasicBreakExpec, [0xE0, 0xF0], [c]);
    PickShort(RepeatOf(BasicKey(0xE0)), NOTHING);
    PickShort(BreakOf(BasicKey(c)), NOTHING);
    assert [0xE0, 0xF0, c] == [0xE0, 0xF0] + [c];
  }

  function BasicKey(c: Byte): Stroke {
    Stroke(c, false, 0)
  }

  // Two keys held at the same time: a is pressed, then b, then either is
  // released and the other after it.
  function Overlap(a: Stroke, b: Stroke, aFirst: bool): seq<Byte> {
    Press(a) + Press(b) + if aFirst then Release(a) + Release(b) else Release(b) + Release(a)
  }

  // What is reported of them.  The second release is never noticed.
  function OverlapEvents(a: Stroke, b: Stroke, aFirst: bool): seq<Output> {
    if a.extended == b.extended then [MakeOf(a), RepeatOf(b), BreakOf(if aFirst then a else b)]
    else if a.extended then [MakeOf(a)]
    else
      var prefix := RepeatOf(BasicKey(0xE0));
      [MakeOf(a), prefix, RepeatOf(BasicKey(b.code))]
      + if aFirst then [BreakOf(a)] else [prefix, BreakOf(BasicKey(b.code))]
  }

  // The state behind both presses, and what was reported up to there.
  lemma OverlapPresses(a: Stroke, b: Stroke) returns (held: DecoderState)
    requires PlainCode(a.code) && PlainCode(b.code)
    ensures held == FinalState(StateInit, Press(a) + Press(b))
    ensures held == if a.extended && !b.extended then StateInit else HeldState(a)
    ensures Keys(Outputs(StateInit, Press(a) + Press(b))) ==
            if a.extended == b.extended then [MakeOf(a), RepeatOf(b)]
            else if a.extended then [MakeOf(a)]
            else [MakeOf(a), RepeatOf(BasicKey(0xE0)), RepeatOf(BasicKey(b.code))]
  {
    held := FinalState(StateInit, Press(a) + Press(b));
    PressDecodes(a);
    PressDecodes(b);
    DecodeJoin(StateInit, Press(a), Press(b));
    if a.extended && !b.extended {
      DecodeShort(ExtBreakExpec, b.code, b.code);
    } else if !a.extended && b.extended {
      ExtendedUnderBasic(b.code);
    }
  }

  // The first release.
  lemma OverlapReleases(a: Stroke, b: Stroke, aFirst: bool, held: DecoderState, first: Stroke)
    requires PlainCode(a.code) && PlainCode(b.code) && first == if aFirst then a else b
    requires held == if a.extended && !b.extended then StateInit else HeldState(a)
    ensures FinalState(held, Release(first)) == StateInit
    ensures Keys(Outputs(held, Release(first))) ==
            if a.extended && !b.extended then []
            else if a.extended == b.extended || aFirst then [BreakOf(first)]
            else [RepeatOf(BasicKey(0xE0)), BreakOf(BasicKey(b.code))]
  {
    if a.extended && !b.extended {
      LoneRelease(first);
    } else if a.extended == b.extended || aFirst {
      ReleaseDecodes(first);
    } else {
      ExtendedUnderBasic(b.code);
    }
  }

  // What is reported of two overlapping strokes, of either kind; the decoder is
  // back where it started.
  lemma OverlapDecodes(a: Stroke, b: Stroke, aFirst: bool)
    requires PlainCode(a.code) && PlainCode(b.code)
    ensures FinalState(StateInit, Overlap(a, b, aFirst)) == StateInit
    ensures Keys(Outputs(StateInit, Overlap(a, b, aFirst))) == OverlapEvents(a, b, aFirst)
  {
    var held := OverlapPresses(a, b);
    var first, second := if aFirst then a else b, if aFirst then b else a;
    OverlapReleases(a, b, aFirst, held, first);
    LoneRelease(second);
    DecodeJoin(held, Release(first), Release(second));
    DecodeJoin(StateInit, Press(a) + Press(b), Release(first) + Release(second));
  }

  // ---- Resynchronisation ----

  // Two releases bring the machine home from anywhere.
  lemma TwoReleasesReset(state: DecoderState, c: Byte, d: Byte)
    requires c != 0xE0 && c != 0xF0 && d != 0xE0 && d != 0xF0
    ensures FinalState(state, [0xF0, c, 0xF0, d]) == StateInit
  {
    DecodeShort(state, 0xF0, c);
    DecodeShort(FinalState(state, [0xF0, c]), 0xF0, d);
    DecodeAppend(state, [0xF0, c], [0xF0, d]);
    assert [0xF0, c, 0xF0, d] == [0xF0, c] + [0xF0, d];
  }

  // After any bytes whatever and two releases, strokes decode exactly.
  lemma DecodesAfterReset(noise: seq<Byte>, c: Byte, d: Byte, strokes: seq<Stroke>)
    requires c != 0xE0 && c != 0xF0 && d != 0xE0 && d != 0xF0
    requires Plain(strokes)
    ensures var prefix := noise + [0xF0, c, 0xF0, d];
            && FinalState(StateInit, prefix + EncodeAll(strokes)) == StateInit
            && Keys(Outputs(StateInit, prefix + EncodeAll(strokes)))
               == Keys(Outputs(StateInit, prefix)) + EventsOfAll(strokes)
  {
    var prefix := noise + [0xF0, c, 0xF0, d];
    DecodeAppend(StateInit, noise, [0xF0, c, 0xF0, d]);
    TwoReleasesReset(FinalState(StateInit, noise), c, d);
    KeyboardRoundTrip(strokes);
    DecodeAppend(StateInit, prefix, EncodeAll(strokes));
    KeysAppend(Outputs(StateInit, prefix), Outputs(StateInit, EncodeAll(strokes)));
  }

  ghost predicate Resets(word: seq<Byte>) {
    forall state: DecoderState :: FinalState(state, word) == StateInit
  }

  lemma DecodeThree(state: DecoderState, a: Byte, b: Byte, c: Byte)
    ensures FinalState(state, [a, b, c]) == Decode(Decode(Decode(state, a).0, b).0, c).0
  {
    DecodeShort(state, a, b);
    DecodeAppend(state, [a, b], [c]);
    DecodeShort(FinalState(state, [a, b]), c, c);
    assert [a, b, c] == [a, b] + [c];
  }

  // The shortest words that bring the machine home from every state are those
  // of one basic key pressed and released, F0 before the last byte.
  lemma ShortestResets(word: seq<Byte>)
    requires |word| <= 3
    ensures Resets(word) <==> |word| == 3 && Ordinary(word[0]) && word[1] == 0xF0 && Ordinary(word[2])
  {
    if |word| == 0 {
      assert FinalState(BasicBreakExpec, word) == BasicBreakExpec;
    } else if |word| == 1 {
      assert word == [word[0]];
      DecodeShort(StateInit, word[0], 0);
    } else if |word| == 2 {
      assert word == [word[0], word[1]];
      ShortWordsMiss(word[0], word[1]);
    } else {
      assert word == [word[0], word[1], word[2]];
      forall state: DecoderState
        ensures FinalState(state, word) == Decode(Decode(Decode(state, word[0]).0, word[1]).0, word[2]).0
      {
        DecodeThree(state, word[0], word[1], word[2]);
      }
      if !(Ordinary(word[0]) && word[1] == 0xF0 && Ordinary(word[2])) {
        assert FinalState(StateInit, word) != StateInit || FinalState(BasicBreakExpec, word) != StateInit
               || FinalState(BasicBreakEs, word) != StateInit || FinalState(ExtMakeEs, word) != StateInit
               || FinalState(ExtBreakExpec, word) != StateInit || FinalState(ExtBreakEs1, word) != StateInit
               || FinalState(StateIgnore, word) != StateInit;
      }
    }
  }

  lemma ShortWordsMiss(a: Byte, b: Byte)
    ensures !Resets([a, b])
  {
    DecodeShort(StateInit, a, b);
    DecodeShort(BasicBreakExpec, a, b);
    DecodeShort(BasicBreakEs, a, b);
    DecodeShort(StateIgnore, a, b);
    assert FinalState(BasicBreakExpec, [a, b]) != StateInit || FinalState(BasicBreakEs, [a, b]) != StateInit
           || FinalState(StateIgnore, [a, b]) != StateInit || FinalState(StateInit, [a, b]) != StateInit;
  }

  // So a single basic stroke resynchronises the decoder, whatever came before it.
  lemma BasicStrokeResets(state: DecoderState, s: Stroke)
    requires PlainCode(s.code) && !s.extended
    ensures FinalState(state, Encode(s)) == StateInit
  {
    var held := Copies([s.code], s.repeats);
    CopiesShift(s.code, s.repeats);
    assert Encode(s) == held + [s.code, 0xF0, s.code];
    DecodeAppend(state, held, [s.code, 0xF0, s.code]);
    ShortestResets([s.code, 0xF0, s.code]);
  }

  lemma {:induction false} CopiesShift(c: Byte, n: nat)
    ensures [c] + Copies([c], n) == Copies([c], n) + [c]
  {
    if n > 0 {
      CopiesShift(c, n - 1);
    }
  }
}
