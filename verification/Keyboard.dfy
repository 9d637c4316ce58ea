// arch/i386/kernel/kbd-handler.c: the ring buffer the interrupt fills, and
// read_key, which drains it through the decoder and the key maps.
module Keyboard {
  import opened KeyDecoder
  import KeyMaps
  import opened Options

  const KBD_BUFFER_SIZE: nat := 10

  // The unread bytes, oldest first, and the decoder's static state.
  datatype Pipe = Pipe(unread: seq<Byte>, decoder: DecoderState)

  // What read_key reports: its return value, the value stored through `key` if
  // any, and *printable.
  datatype KeyRead = KeyRead(result: int, key: Option<int>, printable: bool)

  // ---- Specification ----

  // One interrupt: the byte goes in; with nine unread the oldest goes out.
  function Receive(p: Pipe, b: Byte): Pipe {
    p.(unread := (if |p.unread| == KBD_BUFFER_SIZE - 1 then p.unread[1..] else p.unread) + [b])
  }

  function Flush(p: Pipe): Pipe {
    p.(unread := [])
  }

  // One round of the parse loop: the oldest byte goes through the decoder.
  function Round(p: Pipe): (Pipe, Output)
    requires p.unread != []
  {
    var (state, out) := Decode(p.decoder, p.unread[0]);
    (Pipe(p.unread[1..], state), out)
  }

  // The parse loop of read_key: bytes are decoded up to and including the first
  // that makes a key.
  function Parse(p: Pipe): (Pipe, Option<Output>)
    decreases |p.unread|
  {
    if p.unread == [] then (p, None)
    else
      var (rest, out) := Round(p);
      if out.make then (rest, Some(out)) else Parse(rest)
  }

  lemma ParseStep(p: Pipe)
    ensures p.unread == [] ==> Parse(p) == (p, None)
    ensures p.unread != [] ==>
              var (q, out) := Round(p);
              Parse(p) == (if out.make then (q, Some(out)) else Parse(q)) && (out.repeatKey ==> out.make)
  {
  }

  // The second half of read_key: a made key looked up in its map.  For a code the
  // map does not list, `key` gets what the local variable holds, `stale`.
  function Report(made: Option<Output>, stale: int): KeyRead {
    match made
    case None => KeyRead(-1, None, true)
    case Some(out) =>
      match KeyMaps.Lookup(if out.basicKey then KeyMaps.BASIC_KEYMAP else KeyMaps.EXTENDED_KEYMAP, out.code)
      case None => KeyRead(-1, Some(stale), true)
      case Some(val) => KeyRead(0, Some(val), !HasFlag(val, if out.basicKey then 0x100 else 0x200))
  }

  // `val & flag` is not 0, for a flag of one bit and a value that is not negative
  predicate HasFlag(val: int, flag: int)
    requires flag > 0
  {
    val / flag % 2 == 1
  }

  // ---- The ring ----

  // The bytes from tail up to head, going round.
  function Ring(buffer: seq<Byte>, head: nat, tail: nat): seq<Byte>
    requires |buffer| == KBD_BUFFER_SIZE && head < KBD_BUFFER_SIZE && tail < KBD_BUFFER_SIZE
  {
    if tail <= head then buffer[tail..head] else buffer[tail..] + buffer[..head]
  }

  function Next(index: nat): nat {
    if index + 1 == KBD_BUFFER_SIZE then 0 else index + 1
  }

  // `tail % KBD_BUFFER_SIZE`
  function Wrapped(index: nat): nat {
    index % KBD_BUFFER_SIZE
  }

  // Writing at head and moving it on appends, also where this makes the two
  // indices meet: the slice below is then the ring with tail moved on as well.
  lemma RingPush(buffer: seq<Byte>, head: nat, tail: nat, b: Byte)
    requires |buffer| == KBD_BUFFER_SIZE && head < KBD_BUFFER_SIZE && tail < KBD_BUFFER_SIZE
    ensures Next(head) != tail ==> Ring(buffer[head := b], Next(head), tail) == Ring(buffer, head, tail) + [b]
    ensures Next(head) == tail ==>
              Ring(buffer[head := b], Next(head), Next(tail)) == Ring(buffer, head, tail)[1..] + [b]
    ensures |Ring(buffer, head, tail)| < KBD_BUFFER_SIZE
    ensures |Ring(buffer, head, tail)| == KBD_BUFFER_SIZE - 1 <==> Next(head) == tail
  {
    if Next(head) == tail {
      RingPushFull(buffer, head, tail, b);
    } else {
      RingPushRoom(buffer, head, tail, b);
    }
  }

  lemma RingPushRoom(buffer: seq<Byte>, head: nat, tail: nat, b: Byte)
    requires |buffer| == KBD_BUFFER_SIZE && head < KBD_BUFFER_SIZE && tail < KBD_BUFFER_SIZE
    requires Next(head) != tail
    ensures Ring(buffer[head := b], Next(head), tail) == Ring(buffer, head, tail) + [b]
  {
    var after := buffer[head := b];
    if tail <= head {
      assert after[tail..head + 1] == buffer[tail..head] + [b];
      assert head + 1 == KBD_BUFFER_SIZE ==> after[tail..] == after[tail..head + 1] && after[..0] == [];
    } else {
      assert after[tail..] == buffer[tail..];
      assert after[..head + 1] == buffer[..head] + [b];
    }
  }

  lemma DropFirst(a: seq<Byte>, b: seq<Byte>)
    requires a != []
    ensures (a + b)[1..] == a[1..] + b
  {
  }

  lemma WrittenAt(buffer: seq<Byte>, head: nat, b: Byte)
    requires head < |buffer|
    ensures buffer[head := b][..head + 1] == buffer[..head] + [b]
    ensures buffer[head := b][head + 1..] == buffer[head + 1..]
  {
  }

  lemma RingPushFull(buffer: seq<Byte>, head: nat, tail: nat, b: Byte)
    requires |buffer| == KBD_BUFFER_SIZE && head < KBD_BUFFER_SIZE && tail < KBD_BUFFER_SIZE
    requires Next(head) == tail
    ensures Ring(buffer[head := b], tail, Next(tail)) == Ring(buffer, head, tail)[1..] + [b]
  {
    var after := buffer[head := b];
    WrittenAt(buffer, head, b);
    if tail == 0 {
      assert after == after[..head + 1];
      DropFirst(buffer[..head], [b]);
      assert after[1..] + after[..0] == after[1..];
    } else {
      DropFirst(buffer[tail..], buffer[..head]);
      assert buffer[tail..][1..] == buffer[tail + 1..] == after[tail + 1..];
      if tail + 1 == KBD_BUFFER_SIZE {
        assert after[tail + 1..] == [];
      }
    }
  }

  lemma RingPop(buffer: seq<Byte>, head: nat, tail: nat)
    requires |buffer| == KBD_BUFFER_SIZE && head < KBD_BUFFER_SIZE && tail < KBD_BUFFER_SIZE && tail != head
    ensures Ring(buffer, head, tail) != [] && Ring(buffer, head, tail)[0] == buffer[tail]
    ensures Next(tail) == Wrapped(tail + 1)
    ensures Ring(buffer, head, Next(tail)) == Ring(buffer, head, tail)[1..]
  {
    if tail < head {
      assert buffer[tail..head][1..] == buffer[tail + 1..head];
    } else {
      DropFirst(buffer[tail..], buffer[..head]);
      assert buffer[tail..][1..] == buffer[tail + 1..];
      if tail + 1 == KBD_BUFFER_SIZE {
        assert buffer[tail + 1..] == [] && buffer[0..head] == buffer[..head];
      }
    }
  }

  // ---- The driver ----

  class KeyboardDriver {
    const keyBuffer: array<Byte>
    var head: nat
    var tail: nat
    var state: DecoderState

    ghost predicate Valid()
      reads this
    {
      keyBuffer.Length == KBD_BUFFER_SIZE && head < KBD_BUFFER_SIZE && tail < KBD_BUFFER_SIZE
    }

    ghost function Unread(): seq<Byte>
      requires Valid()
      reads this, keyBuffer
    {
      Ring(keyBuffer[..], head, tail)
    }

    ghost function Contents(): Pipe
      requires Valid()
      reads this, keyBuffer
    {
      Pipe(Unread(), state)
    }

    constructor ()
      ensures Valid() && fresh(keyBuffer) && Contents() == Pipe([], StateInit)
    {
      keyBuffer := new Byte[KBD_BUFFER_SIZE](_ => 0);
      head, tail, state := 0, 0, StateInit;
    }

    // kbd_isr, given the byte read from the controller
    method KbdIsr(b: Byte)
      requires Valid()
      modifies this`head, this`tail, keyBuffer
      ensures Valid() && Contents() == Receive(old(Contents()), b)
    {
      RingPush(keyBuffer[..], head, tail, b);
      keyBuffer[head] := b;
      assert keyBuffer[..] == old(keyBuffer[..])[head := b];
      head := head + 1;
      if KBD_BUFFER_SIZE == head {
        head := 0;
      }
      if head == tail {
        tail := tail + 1;
      }
      if KBD_BUFFER_SIZE == tail {
        tail := 0;
      }
    }

    // flush_kbd_buffer
    method FlushKbdBuffer()
      requires Valid()
      modifies this`head, this`tail
      ensures Valid() && Contents() == Flush(old(Contents()))
    {
      head := 0;
      tail := 0;
    }

    // keyboard_state_machine
    method KeyboardStateMachine(i: Byte) returns (o: Output)
      modifies this`state
      ensures (state, o) == Decode(old(state), i)
    {
      o := NOTHING;
      match state
      case StateInit =>
        if i == 0xF0 {
          state := StateIgnore;
          return;
        }
        if i == 0xE0 {
          state := ExtMakeEs;
          return;
        }
        o := Output(i, true, false, true);
        state := BasicBreakExpec;
      case BasicBreakExpec =>
        if i == 0xF0 {
          state := BasicBreakEs;
          return;
        }
        o := Output(i, true, true, true);
      case BasicBreakEs =>
        if i == 0xE0 || i == 0xF0 {
          state := StateIgnore;
          return;
        }
        o := Output(i, false, false, true);
        state := StateInit;
      case ExtMakeEs =>
        if i == 0xE0 || i == 0xF0 {
          state := StateIgnore;
          return;
        }
        o := Output(i, true, false, false);
        state := ExtBreakExpec;
      case ExtBreakExpec =>
        if i == 0xE0 {
          state := ExtBreakEs1;
          return;
        }
        if i == 0xF0 {
          state := StateIgnore;
          return;
        }
        state := StateInit;
      case ExtBreakEs1 =>
        if i == 0xF0 {
          state := ExtBreakEs2;
          return;
        }
        if i == 0xE0 {
          state := StateIgnore;
          return;
        }
        o := Output(i, true, false, false);
        state := ExtBreakExpec;
      case ExtBreakEs2 =>
        if i == 0xF0 || i == 0xE0 {
          state := StateIgnore;
          return;
        }
        o := Output(i, false, false, false);
        state := StateInit;
      case StateIgnore =>
        state := StateInit;
    }

    method DecodeByte() returns (out: Output)
      requires Valid() && tail != head
      modifies this`tail, this`state
      ensures Valid() && old(Contents()).unread != []
      ensures (Contents(), out) == Round(old(Contents()))
    {
      RingPop(keyBuffer[..], head, tail);
      out := KeyboardStateMachine(keyBuffer[tail]);
      tail := tail + 1;
      tail := Wrapped(tail);
    }

    // The parse loop of read_key: the last output, which is a made key or nothing.
    method ParseLoop() returns (out: Output)
      requires Valid()
      modifies this`tail, this`state
      ensures Valid() && Contents() == Parse(old(Contents())).0
      ensures Parse(old(Contents())).1 == if out.make then Some(out) else None
    {
      out := NOTHING;
      while tail != head
        invariant Valid() && head == old(head) && !out.make
        invariant Parse(Contents()) == Parse(old(Contents()))
        decreases |Contents().unread|
      {
        ParseStep(Contents());
        out := DecodeByte();
        if out.repeatKey {
          break;
        }
        if out.make {
          break;
        }
      }
    }

    // read_key; `stale` is what its uninitialised local `val` holds
    method ReadKey(stale: int) returns (r: KeyRead)
      requires Valid()
      modifies this`tail, this`state
      ensures Valid() && Contents() == Parse(old(Contents())).0
      ensures r == Report(Parse(old(Contents())).1, stale)
    {
      var out := ParseLoop();
      if out.make {
        r := ReportKey(out, stale);
      } else {
        r := KeyRead(-1, None, true);
      }
    }
  }

  // The part of read_key after its parse loop, for a made key.
  method ReportKey(out: Output, stale: int) returns (r: KeyRead)
    ensures r == Report(Some(out), stale)
  {
    var found, value;
    if out.basicKey {
      KeyMaps.BasicMapIncreasing();
      found, value := KeyMaps.BinarySearchKey(out.code, KeyMaps.BASIC_KEYMAP);
    } else {
      KeyMaps.ExtendedMapIncreasing();
      found, value := KeyMaps.BinarySearchKey(out.code, KeyMaps.EXTENDED_KEYMAP);
    }
    var val := if value.Some? then value.value else stale;
    if found != 0 {
      return KeyRead(found, Some(val), true);
    }
    var flag := if out.basicKey then 0x100 else 0x200;
    return KeyRead(0, Some(val), !HasFlag(val, flag));
  }
}
