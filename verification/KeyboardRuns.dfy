// Whole runs of the keyboard pipeline: interrupts, reads and flushes in any
// interleaving, and what read_key delivers over them.
module KeyboardRuns {
  import opened KeyDecoder
  import opened KeyMaps
  import opened Keyboard
  import opened Options

  // A read comes with what the uninitialised local of read_key holds.
  datatype Op = Interrupt(b: Byte) | Read(stale: int) | FlushBuffer

  // The pipeline with its history: every byte received, every byte decoded,
  // every made key read_key took from the decoder, and all its answers.
  datatype History = History(pipe: Pipe, received: seq<Byte>, consumed: seq<Byte>, delivered: seq<Output>,
                             answers: seq<KeyRead>)

  const START := History(Pipe([], StateInit), [], [], [], [])

  function Taken(p: Pipe): (n: nat)
    ensures n <= |p.unread|
    decreases |p.unread|
  {
    if p.unread == [] then 0
    else if Round(p).1.make then 1
    else 1 + Taken(Round(p).0)
  }

  function Step(h: History, op: Op): History {
    match op
    case Interrupt(b) => h.(pipe := Receive(h.pipe, b), received := h.received + [b])
    case FlushBuffer => h.(pipe := Flush(h.pipe))
    case Read(stale) =>
      var (q, made) := Parse(h.pipe);
      h.(pipe := q,
         consumed := h.consumed + h.pipe.unread[..Taken(h.pipe)],
         delivered := h.delivered + (if made.Some? then [made.value] else []),
         answers := h.answers + [Report(made, stale)])
  }

  function Run(h: History, ops: seq<Op>): History
    decreases |ops|
  {
    if ops == [] then h else Run(Step(h, ops[0]), ops[1..])
  }

  // ---- Order-preserving subsequences ----

  ghost predicate Subsequence(a: seq<Byte>, b: seq<Byte>)
    decreases |b|
  {
    a == [] || (b != [] && (Subsequence(a, b[..|b| - 1])
                            || (a[|a| - 1] == b[|b| - 1] && Subsequence(a[..|a| - 1], b[..|b| - 1]))))
  }

  lemma SubsequenceExtends(a: seq<Byte>, b: seq<Byte>, x: Byte)
    requires Subsequence(a, b)
    ensures Subsequence(a, b + [x]) && Subsequence(a + [x], b + [x])
  {
  }

  // Leaving out a stretch keeps the rest a subsequence.
  lemma {:induction false} SubsequenceDrops(p: seq<Byte>, q: seq<Byte>, r: seq<Byte>, b: seq<Byte>)
    requires Subsequence(p + q + r, b)
    ensures Subsequence(p + r, b)
    decreases |b|
  {
    var a := p + q + r;
    if a == [] {
      assert p + r == [];
    } else if r == [] {
      assert a == p + q && p + r == p;
      SubsequencePrefix(p, q, b);
    } else {
      var b' := b[..|b| - 1];
      var r' := r[..|r| - 1];
      assert a[..|a| - 1] == p + q + r' && (p + r)[..|p + r| - 1] == p + r';
      if Subsequence(a, b') {
        SubsequenceDrops(p, q, r, b');
      } else {
        SubsequenceDrops(p, q, r', b');
      }
    }
  }

  lemma {:induction false} SubsequencePrefix(p: seq<Byte>, q: seq<Byte>, b: seq<Byte>)
    requires Subsequence(p + q, b)
    ensures Subsequence(p, b)
    decreases |b|
  {
    var a := p + q;
    if q == [] {
      assert a == p;
    } else if b != [] {
      var b' := b[..|b| - 1];
      if Subsequence(a, b') {
        SubsequencePrefix(p, q, b');
      } else {
        assert a[..|a| - 1] == p + q[..|q| - 1];
        SubsequencePrefix(p, q[..|q| - 1], b');
      }
    }
  }

  // ---- One read ----

  // A read consumes a prefix of the unread bytes, moves the decoder as those
  // bytes do, and delivers exactly the makes among their outputs.
  lemma {:induction false} ParseConsumes(p: Pipe)
    ensures var (q, made) := Parse(p);
            var taken := p.unread[..Taken(p)];
            && q.unread == p.unread[Taken(p)..]
            && q.decoder == FinalState(p.decoder, taken)
            && Makes(Outputs(p.decoder, taken)) == (if made.Some? then [made.value] else [])
            && (made.None? ==> q.unread == [])
    decreases |p.unread|
  {
    if p.unread == [] {
      assert p.unread[..0] == [];
    } else {
      var (q, out) := Round(p);
      var taken := p.unread[..Taken(p)];
      assert taken[0] == p.unread[0];
      if out.make {
        assert taken == [p.unread[0]] && taken[1..] == [];
        assert Outputs(p.decoder, taken) == [out];
        PickShort(out, out);
      } else {
        ParseConsumes(q);
        assert taken[1..] == q.unread[..Taken(q)];
        assert Outputs(p.decoder, taken)[1..] == Outputs(q.decoder, taken[1..]);
      }
    }
  }

  lemma FirstMake(outputs: seq<Output>)
    ensures outputs == [] ==> Makes(outputs) == []
    ensures outputs != [] && outputs[0].make ==> Makes(outputs) != [] && Makes(outputs)[0] == outputs[0]
    ensures outputs != [] && !outputs[0].make ==> Makes(outputs) == Makes(outputs[1..])
  {
  }

  // What a read takes is the first make of all that waits, if there is one.
  lemma {:induction false} ParseTakesFirst(p: Pipe)
    ensures var makes := Makes(Outputs(p.decoder, p.unread));
            Parse(p).1 == if makes == [] then None else Some(makes[0])
    decreases |p.unread|
  {
    FirstMake(Outputs(p.decoder, p.unread));
    if p.unread != [] {
      var (q, out) := Round(p);
      if !out.make {
        ParseTakesFirst(q);
        assert Outputs(p.decoder, p.unread)[1..] == Outputs(q.decoder, q.unread);
      }
    }
  }

  // ---- What is reported ----

  // The report on a code looked up in a map: 0 with the value listed for it,
  // printable exactly when that is a character; -1 if the map does not list it.
  ghost predicate ReportsFrom(r: KeyRead, keys: seq<Key>, code: int) {
    && r.key.Some?
    && (r.result == 0 <==> Lists(keys, code))
    && (r.result == 0 ==> Key(code, r.key.value) in keys && (r.printable <==> 0 <= r.key.value < 0x100))
    && (r.result != 0 ==> r.result == -1 && r.printable)
  }

  // The map of the key an output is about.
  function MapOf(out: Output): seq<Key> {
    if out.basicKey then BASIC_KEYMAP else EXTENDED_KEYMAP
  }

  lemma ReportByLookup(r: KeyRead, keys: seq<Key>, code: int, flag: int, stale: int)
    requires Increasing(keys)
    requires (flag == 0x100 && ValuesIn(keys, 0, 0x200)) || (flag == 0x200 && ValuesIn(keys, 0x200, 0x300))
    requires r == match Lookup(keys, code)
                  case None => KeyRead(-1, Some(stale), true)
                  case Some(val) => KeyRead(0, Some(val), !HasFlag(val, flag))
    ensures ReportsFrom(r, keys, code)
  {
  }

  lemma ReportMeaning(out: Output, stale: int)
    ensures ReportsFrom(Report(Some(out), stale), MapOf(out), out.code)
  {
    MapValues();
    BasicMapIncreasing();
    ExtendedMapIncreasing();
    if out.basicKey {
      ReportByLookup(Report(Some(out), stale), BASIC_KEYMAP, out.code, 0x100, stale);
    } else {
      ReportByLookup(Report(Some(out), stale), EXTENDED_KEYMAP, out.code, 0x200, stale);
    }
  }

  // read_key returns 0 exactly when the first make among the bytes waiting is of a
  // key its map lists; without a make, as with the buffer empty, and for any
  // other key it returns -1.  For a key not listed `*key` is set all the same.
  lemma ReadAnswers(p: Pipe, stale: int)
    ensures var makes, r := Makes(Outputs(p.decoder, p.unread)), Report(Parse(p).1, stale);
            && (r.result == 0 <==> makes != [] && Lists(MapOf(makes[0]), makes[0].code))
            && (r.result == 0 || r.result == -1)
            && (if makes == [] then r.key == None && r.printable else ReportsFrom(r, MapOf(makes[0]), makes[0].code))
            && (r.result == -1 && makes != [] ==> r.key == Some(stale))
  {
    ParseTakesFirst(p);
    var makes := Makes(Outputs(p.decoder, p.unread));
    if makes != [] {
      ReportMeaning(makes[0], stale);
    }
  }

  // After a flush there is nothing to read, until the next interrupt, and the
  // decoder stays in the middle of its key.
  lemma FlushedReadsNothing(p: Pipe, stale: int)
    ensures Flush(p).unread == [] && Flush(p).decoder == p.decoder
    ensures Parse(Flush(p)) == (Flush(p), None) && Report(Parse(Flush(p)).1, stale).result == -1
  {
    ReadAnswers(Flush(p), stale);
  }

  // The answers that are about a key; the others say that none is waiting.
  function AboutKeys(answers: seq<KeyRead>): seq<KeyRead> {
    if answers == [] then []
    else
      AboutKeys(answers[..|answers| - 1])
      + (if answers[|answers| - 1].key.Some? then [answers[|answers| - 1]] else [])
  }

  // One answer for each of the keys made, in order, with its meaning.
  ghost predicate AnswersFor(answers: seq<KeyRead>, made: seq<Output>) {
    && |answers| == |made|
    && forall i :: 0 <= i < |made| ==> ReportsFrom(answers[i], MapOf(made[i]), made[i].code)
  }

  // The answers that are not about a key say so.
  ghost predicate OthersRefused(answers: seq<KeyRead>) {
    forall i :: 0 <= i < |answers| && answers[i].key.None? ==> answers[i].result == -1
  }

  // ---- Every run ----

  ghost predicate Inv(h: History) {
    && |h.pipe.unread| < KBD_BUFFER_SIZE
    // what was decoded and what waits are received bytes in the order received
    && Subsequence(h.consumed + h.pipe.unread, h.received)
    // the decoder and the delivered keys are those of the decoded bytes
    && h.pipe.decoder == FinalState(StateInit, h.consumed)
    && h.delivered == Makes(Outputs(StateInit, h.consumed))
    // each of these keys has its answer, and the other answers are -1
    && AnswersFor(AboutKeys(h.answers), h.delivered)
    && OthersRefused(h.answers)
  }

  lemma ReadKeepsBytes(h: History, stale: int)
    ensures var t := Step(h, Read(stale));
            t.consumed + t.pipe.unread == h.consumed + h.pipe.unread && |t.pipe.unread| <= |h.pipe.unread|
  {
    ParseConsumes(h.pipe);
    CutAndJoin(h.consumed, h.pipe.unread, Taken(h.pipe));
  }

  lemma CutAndJoin(a: seq<Byte>, b: seq<Byte>, k: nat)
    requires k <= |b|
    ensures a + b[..k] + b[k..] == a + b
  {
  }

  lemma AboutKeysExtend(answers: seq<KeyRead>, r: KeyRead)
    ensures AboutKeys(answers + [r]) == AboutKeys(answers) + if r.key.Some? then [r] else []
  {
    assert (answers + [r])[..|answers|] == answers;
  }

  lemma AnswersExtend(answers: seq<KeyRead>, delivered: seq<Output>, r: KeyRead, out: Output)
    requires AnswersFor(answers, delivered) && ReportsFrom(r, MapOf(out), out.code)
    ensures AnswersFor(answers + [r], delivered + [out])
  {
  }

  lemma ReadKeepsAnswers(h: History, stale: int)
    requires AnswersFor(AboutKeys(h.answers), h.delivered)
    ensures AnswersFor(AboutKeys(Step(h, Read(stale)).answers), Step(h, Read(stale)).delivered)
  {
    var made := Parse(h.pipe).1;
    var r := Report(made, stale);
    AboutKeysExtend(h.answers, r);
    if made.Some? {
      ReportMeaning(made.value, stale);
      AnswersExtend(AboutKeys(h.answers), h.delivered, r, made.value);
    }
  }

  lemma ReadKeepsDecoding(h: History, stale: int)
    requires h.pipe.decoder == FinalState(StateInit, h.consumed)
    requires h.delivered == Makes(Outputs(StateInit, h.consumed))
    ensures var t := Step(h, Read(stale));
            t.pipe.decoder == FinalState(StateInit, t.consumed) && t.delivered == Makes(Outputs(StateInit, t.consumed))
  {
    var taken := h.pipe.unread[..Taken(h.pipe)];
    ParseConsumes(h.pipe);
    DecodeAppend(StateInit, h.consumed, taken);
    KeysAppend(Outputs(StateInit, h.consumed), Outputs(h.pipe.decoder, taken));
  }

  lemma ReadKeepsInv(h: History, stale: int)
    requires Inv(h)
    ensures Inv(Step(h, Read(stale)))
  {
    ReadKeepsBytes(h, stale);
    ReadKeepsDecoding(h, stale);
    ReadKeepsAnswers(h, stale);
    ReadKeepsRefusals(h, stale);
  }

  lemma ReadKeepsRefusals(h: History, stale: int)
    requires OthersRefused(h.answers)
    ensures OthersRefused(Step(h, Read(stale)).answers)
  {
    ReadAnswers(h.pipe, stale);
  }

  lemma InterruptKeepsInv(h: History, b: Byte)
    requires Inv(h)
    ensures Inv(Step(h, Interrupt(b)))
  {
    var kept := Step(h, Interrupt(b)).pipe.unread;
    var all := h.consumed + h.pipe.unread;
    SubsequenceExtends(all, h.received, b);
    if |h.pipe.unread| == KBD_BUFFER_SIZE - 1 {
      assert all + [b] == h.consumed + h.pipe.unread[..1] + kept;
      SubsequenceDrops(h.consumed, h.pipe.unread[..1], kept, h.received + [b]);
    } else {
      assert all + [b] == h.consumed + kept;
    }
  }

  lemma StepKeepsInv(h: History, op: Op)
    requires Inv(h)
    ensures Inv(Step(h, op))
  {
    match op
    case Read(stale) => ReadKeepsInv(h, stale);
    case Interrupt(b) => InterruptKeepsInv(h, b);
    case FlushBuffer =>
      SubsequencePrefix(h.consumed, h.pipe.unread, h.received);
      assert h.consumed + [] == h.consumed;
  }

  lemma {:induction false} RunKeepsInv(h: History, ops: seq<Op>)
    requires Inv(h)
    ensures Inv(Run(h, ops))
    decreases |ops|
  {
    if ops != [] {
      StepKeepsInv(h, ops[0]);
      RunKeepsInv(Step(h, ops[0]), ops[1..]);
    }
  }

  lemma StartInv()
    ensures Inv(START)
  {
  }

  // ---- What is lost ----

  function ReceiveAll(p: Pipe, bytes: seq<Byte>): Pipe {
    if bytes == [] then p else Receive(ReceiveAll(p, bytes[..|bytes| - 1]), bytes[|bytes| - 1])
  }

  function Newest(bytes: seq<Byte>): seq<Byte> {
    if |bytes| < KBD_BUFFER_SIZE then bytes else bytes[|bytes| - (KBD_BUFFER_SIZE - 1)..]
  }

  lemma NewestOfMore(bytes: seq<Byte>, b: Byte)
    ensures |Newest(bytes)| < KBD_BUFFER_SIZE
    ensures Newest(bytes + [b])
            == (if |Newest(bytes)| == KBD_BUFFER_SIZE - 1 then Newest(bytes)[1..] else Newest(bytes)) + [b]
  {
    var all := bytes + [b];
    if |bytes| >= KBD_BUFFER_SIZE - 1 {
      assert all[|all| - (KBD_BUFFER_SIZE - 1)..] == bytes[|all| - (KBD_BUFFER_SIZE - 1)..] + [b];
    }
  }

  // Between two reads the ring holds the newest nine of the bytes unread before
  // and the bytes received since.
  lemma {:induction false} RingKeepsNewest(p: Pipe, bytes: seq<Byte>)
    requires |p.unread| < KBD_BUFFER_SIZE
    ensures ReceiveAll(p, bytes).unread == Newest(p.unread + bytes)
    ensures ReceiveAll(p, bytes).decoder == p.decoder
  {
    if bytes == [] {
      assert p.unread + bytes == p.unread;
    } else {
      var front, b := bytes[..|bytes| - 1], bytes[|bytes| - 1];
      RingKeepsNewest(p, front);
      NewestOfMore(p.unread + front, b);
      assert p.unread + bytes == p.unread + front + [b];
    }
  }

  // ---- Runs that lose nothing ----

  // No flush, and never a byte arriving with nine unread.
  predicate Lossless(h: History, ops: seq<Op>)
    decreases |ops|
  {
    ops == []
    || (!ops[0].FlushBuffer?
        && (ops[0].Interrupt? ==> |h.pipe.unread| < KBD_BUFFER_SIZE - 1)
        && Lossless(Step(h, ops[0]), ops[1..]))
  }

  function BytesOf(ops: seq<Op>): seq<Byte> {
    if ops == [] then []
    else (if ops[0].Interrupt? then [ops[0].b] else []) + BytesOf(ops[1..])
  }

  lemma {:induction false} LosslessKeepsAll(h: History, ops: seq<Op>)
    requires Lossless(h, ops) && h.consumed + h.pipe.unread == h.received
    ensures var r := Run(h, ops); r.consumed + r.pipe.unread == r.received
    ensures Run(h, ops).received == h.received + BytesOf(ops)
    decreases |ops|
  {
    if ops != [] {
      var t := Step(h, ops[0]);
      if ops[0].Read? {
        ReadKeepsBytes(h, ops[0].stale);
      } else {
        assert t.consumed + t.pipe.unread == h.consumed + h.pipe.unread + [ops[0].b];
      }
      LosslessKeepsAll(t, ops[1..]);
    }
  }

  // However interrupts and reads interleave, once the buffer is drained the
  // keys delivered are those of decoding the whole stream at once.
  lemma DeliveredIsWholeStream(ops: seq<Op>)
    requires Lossless(START, ops) && Run(START, ops).pipe.unread == []
    ensures Run(START, ops).delivered == Makes(Outputs(StateInit, BytesOf(ops)))
  {
    StartInv();
    RunKeepsInv(START, ops);
    LosslessKeepsAll(START, ops);
    var r := Run(START, ops);
    assert r.consumed == r.consumed + r.pipe.unread == r.received == BytesOf(ops);
  }

  // Strokes in, keys out: read_key takes each press and each repeat once, in
  // order, and its answers about keys are those that their maps give for them.
  lemma StrokesDelivered(ops: seq<Op>, strokes: seq<Stroke>)
    requires Lossless(START, ops) && Run(START, ops).pipe.unread == []
    requires BytesOf(ops) == EncodeAll(strokes)
    requires Regular(strokes)
    ensures Run(START, ops).delivered == MakesOfAll(strokes)
    ensures AnswersFor(AboutKeys(Run(START, ops).answers), MakesOfAll(strokes))
    ensures Run(START, ops).pipe.decoder == StateInit
  {
    DeliveredIsWholeStream(ops);
    KeyboardRoundTrip(strokes);
    StartInv();
    RunKeepsInv(START, ops);
    LosslessKeepsAll(START, ops);
    var r := Run(START, ops);
    assert r.consumed == r.consumed + r.pipe.unread == r.received == BytesOf(ops);
  }

  // ---- Text typed ----

  function Collect<T>(f: T -> seq<int>, items: seq<T>): seq<int> {
    if items == [] then [] else Collect(f, items[..|items| - 1]) + f(items[|items| - 1])
  }

  lemma {:induction false} CollectSame<T, U>(f: T -> seq<int>, g: U -> seq<int>, s: seq<T>, t: seq<U>)
    requires |s| == |t| && forall i :: 0 <= i < |s| ==> f(s[i]) == g(t[i])
    ensures Collect(f, s) == Collect(g, t)
  {
    if s != [] {
      CollectSame(f, g, s[..|s| - 1], t[..|t| - 1]);
    }
  }

  lemma {:induction false} CollectText<T>(f: T -> seq<int>, items: seq<T>, text: seq<int>)
    requires |items| == |text| && forall i :: 0 <= i < |items| ==> f(items[i]) == [text[i]]
    ensures Collect(f, items) == text
  {
    if items != [] {
      var n := |items| - 1;
      CollectText(f, items[..n], text[..n]);
      assert text == text[..n] + [text[n]];
    }
  }

  // The characters getc hands on: those of the answers that are 0 and printable.
  function TypedBy(r: KeyRead): seq<int> {
    if r.result == 0 && r.printable && r.key.Some? then [r.key.value] else []
  }

  function Typed(answers: seq<KeyRead>): seq<int> {
    Collect(TypedBy, answers)
  }

  // The character its map lists for a key, if it does.
  function CharacterOf(out: Output): seq<int> {
    match Lookup(MapOf(out), out.code)
    case Some(v) => if v < 0x100 then [v] else []
    case None => []
  }

  function CharactersOf(made: seq<Output>): seq<int> {
    Collect(CharacterOf, made)
  }

  lemma {:induction false} TypedAboutKeys(answers: seq<KeyRead>)
    requires OthersRefused(answers)
    ensures Typed(answers) == Typed(AboutKeys(answers))
  {
    if answers != [] {
      var front, last := answers[..|answers| - 1], answers[|answers| - 1];
      TypedAboutKeys(front);
      if last.key.Some? {
        assert (AboutKeys(front) + [last])[..|AboutKeys(front)|] == AboutKeys(front);
      } else {
        assert AboutKeys(answers) == AboutKeys(front);
      }
    }
  }

  // The answer to one key.
  lemma TypedOne(r: KeyRead, out: Output)
    requires ReportsFrom(r, MapOf(out), out.code)
    ensures TypedBy(r) == CharacterOf(out)
  {
    BasicMapIncreasing();
    ExtendedMapIncreasing();
    MapValues();
    if out.basicKey {
      LookupMeaning(BASIC_KEYMAP, out.code, 0, 0x200);
    } else {
      LookupMeaning(EXTENDED_KEYMAP, out.code, 0x200, 0x300);
    }
    if r.result == 0 {
      var k :| 0 <= k < |MapOf(out)| && MapOf(out)[k] == Key(out.code, r.key.value);
      LookupFinds(MapOf(out), out.code, k);
    }
  }

  lemma TypedIsCharacters(answers: seq<KeyRead>, made: seq<Output>)
    requires AnswersFor(answers, made)
    ensures Typed(answers) == CharactersOf(made)
  {
    forall i | 0 <= i < |made|
      ensures TypedBy(answers[i]) == CharacterOf(made[i])
    {
      TypedOne(answers[i], made[i]);
    }
    CollectSame(TypedBy, CharacterOf, answers, made);
  }

  // Over every run getc is handed exactly the characters of the keys made among
  // the bytes read: other keys, codes not listed and empty reads give none.
  lemma RunTypes(ops: seq<Op>)
    ensures var h := Run(START, ops); Typed(h.answers) == CharactersOf(Makes(Outputs(StateInit, h.consumed)))
  {
    StartInv();
    RunKeepsInv(START, ops);
    var h := Run(START, ops);
    TypedAboutKeys(h.answers);
    TypedIsCharacters(AboutKeys(h.answers), h.delivered);
  }

  // The keys of a text, each pressed and released once.
  ghost predicate Spells(strokes: seq<Stroke>, text: seq<int>) {
    && |strokes| == |text| && Regular(strokes)
    && forall i :: 0 <= i < |strokes| ==>
         !strokes[i].extended && strokes[i].repeats == 0
         && Lookup(BASIC_KEYMAP, strokes[i].code) == Some(text[i]) && text[i] < 0x100
  }

  lemma {:induction false} MakesOfText(strokes: seq<Stroke>, text: seq<int>)
    requires Spells(strokes, text)
    ensures |MakesOfAll(strokes)| == |strokes|
    ensures forall i :: 0 <= i < |strokes| ==> MakesOfAll(strokes)[i] == MakeOf(strokes[i])
  {
    if strokes != [] {
      MakesOfText(strokes[1..], text[1..]);
      assert MakesOf(strokes[0]) == [MakeOf(strokes[0])];
    }
  }

  lemma CharacterOfKey(s: Stroke, c: int)
    requires !s.extended && Lookup(BASIC_KEYMAP, s.code) == Some(c) && c < 0x100
    ensures CharacterOf(MakeOf(s)) == [c]
  {
  }

  lemma CharactersOfText(strokes: seq<Stroke>, text: seq<int>)
    requires Spells(strokes, text)
    ensures CharactersOf(MakesOfAll(strokes)) == text
  {
    MakesOfText(strokes, text);
    var made := MakesOfAll(strokes);
    forall i | 0 <= i < |made|
      ensures CharacterOf(made[i]) == [text[i]]
    {
      CharacterOfKey(strokes[i], text[i]);
    }
    CollectText(CharacterOf, made, text);
  }

  // Typing a text on the keyboard gives that text, however reads and interrupts
  // interleave, if nothing is lost.
  lemma TextTyped(ops: seq<Op>, strokes: seq<Stroke>, text: seq<int>)
    requires Lossless(START, ops) && Run(START, ops).pipe.unread == []
    requires BytesOf(ops) == EncodeAll(strokes) && Spells(strokes, text)
    ensures Typed(Run(START, ops).answers) == text
  {
    StrokesDelivered(ops, strokes);
    DeliveredIsWholeStream(ops);
    StartInv();
    RunKeepsInv(START, ops);
    RunTypes(ops);
    CharactersOfText(strokes, text);
  }
}
