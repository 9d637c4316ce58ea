// The two key maps of arch/i386/kernel/kbd-handler.c and the search in them.
module KeyMaps {
  import opened Options

  datatype Key = Key(scanCode: int, value: int)

  predicate Increasing(keys: seq<Key>) {
    forall i, j :: 0 <= i < j < |keys| ==> keys[i].scanCode < keys[j].scanCode
  }

  const BASIC_0: seq<Key> := [
    Key(0x01, 0x101), Key(0x03, 0x103), Key(0x04, 0x104), Key(0x05, 0x105), Key(0x06, 0x106), Key(0x07, 0x107),
    Key(0x09, 0x109), Key(0x0A, 0x10A), Key(0x0B, 0x10B), Key(0x0C, 0x10C), Key(0x0D, 0x9), Key(0x0E, 0x60)
  ]
  const BASIC_1: seq<Key> := [
    Key(0x11, 0x111), Key(0x12, 0x112), Key(0x15, 0x51), Key(0x16, 0x31), Key(0x1A, 0x5A), Key(0x1B, 0x53),
    Key(0x1C, 0x41), Key(0x1D, 0x57), Key(0x1E, 0x32), Key(0x21, 0x43), Key(0x22, 0x58), Key(0x23, 0x44)
  ]
  const BASIC_2: seq<Key> := [
    Key(0x24, 0x45), Key(0x25, 0x34), Key(0x26, 0x33), Key(0x29, 0x20), Key(0x2A, 0x56), Key(0x2B, 0x46),
    Key(0x2C, 0x54), Key(0x2D, 0x52), Key(0x2E, 0x35), Key(0x31, 0x4E), Key(0x32, 0x42), Key(0x33, 0x48)
  ]
  const BASIC_3: seq<Key> := [
    Key(0x34, 0x47), Key(0x35, 0x59), Key(0x36, 0x36), Key(0x3A, 0x4D), Key(0x3B, 0x4A), Key(0x3C, 0x55),
    Key(0x3D, 0x37), Key(0x3E, 0x38), Key(0x41, 0x2C), Key(0x42, 0x4B), Key(0x43, 0x49), Key(0x44, 0x4F)
  ]
  const BASIC_4: seq<Key> := [
    Key(0x45, 0x30), Key(0x46, 0x39), Key(0x49, 0x2E), Key(0x4A, 0x2F), Key(0x4B, 0x4C), Key(0x4C, 0x3B),
    Key(0x4D, 0x50), Key(0x4E, 0x2D), Key(0x52, 0x27), Key(0x54, 0x5B), Key(0x55, 0x3D), Key(0x58, 0x158)
  ]
  const BASIC_5: seq<Key> := [
    Key(0x59, 0x159), Key(0x5A, 0xA), Key(0x5B, 0x5D), Key(0x5D, 0x5C), Key(0x66, 0x8), Key(0x69, 0x169),
    Key(0x6B, 0x16B), Key(0x6C, 0x16C), Key(0x70, 0x170), Key(0x71, 0x171), Key(0x72, 0x172), Key(0x73, 0x173)
  ]
  const BASIC_6: seq<Key> := [
    Key(0x74, 0x174), Key(0x75, 0x175), Key(0x76, 0x176), Key(0x77, 0x177), Key(0x78, 0x178), Key(0x79, 0x179),
    Key(0x7A, 0x17A), Key(0x7B, 0x17B), Key(0x7C, 0x17C), Key(0x7D, 0x17D), Key(0x83, 0x183)
  ]

  const BASIC_LOW: seq<Key> := BASIC_0 + BASIC_1 + BASIC_2 + BASIC_3
  const BASIC_HIGH: seq<Key> := BASIC_4 + BASIC_5 + BASIC_6
  const BASIC_KEYMAP: seq<Key> := BASIC_LOW + BASIC_HIGH

  const EXTENDED_0: seq<Key> := [
    Key(0x10, 0x210), Key(0x11, 0x211), Key(0x14, 0x214), Key(0x15, 0x215), Key(0x18, 0x218), Key(0x1F, 0x21F),
    Key(0x20, 0x220), Key(0x21, 0x221), Key(0x23, 0x223), Key(0x27, 0x227), Key(0x28, 0x228), Key(0x2B, 0x22B),
    Key(0x2F, 0x22F)
  ]
  const EXTENDED_1: seq<Key> := [
    Key(0x30, 0x230), Key(0x32, 0x232), Key(0x34, 0x234), Key(0x37, 0x237), Key(0x38, 0x238), Key(0x3A, 0x23A),
    Key(0x3B, 0x23B), Key(0x3F, 0x23F), Key(0x40, 0x240), Key(0x48, 0x248), Key(0x4A, 0x24A), Key(0x4D, 0x24D),
    Key(0x50, 0x250)
  ]
  const EXTENDED_2: seq<Key> := [
    Key(0x5A, 0x25A), Key(0x5E, 0x25E), Key(0x69, 0x269), Key(0x6B, 0x26B), Key(0x6C, 0x26C), Key(0x70, 0x270),
    Key(0x71, 0x271), Key(0x72, 0x272), Key(0x74, 0x274), Key(0x75, 0x275), Key(0x7A, 0x27A), Key(0x7D, 0x27D)
  ]

  const EXTENDED_KEYMAP: seq<Key> := EXTENDED_0 + EXTENDED_1 + EXTENDED_2

  predicate ValuesIn(keys: seq<Key>, lo: int, hi: int) {
    forall i :: 0 <= i < |keys| ==> lo <= keys[i].value < hi
  }

  lemma IncreasingJoin(a: seq<Key>, b: seq<Key>)
    requires a != [] && b != [] && Increasing(a) && Increasing(b)
    requires a[|a| - 1].scanCode < b[0].scanCode
    ensures Increasing(a + b)
  {
  }

  lemma BasicRow0()
    ensures ValuesIn(BASIC_0, 0, 0x200) && Increasing(BASIC_0) && |BASIC_0| == 12
    ensures BASIC_0[0].scanCode == 0x01 && BASIC_0[11].scanCode == 0x0E
  {
  }

  lemma BasicRow1()
    ensures ValuesIn(BASIC_1, 0, 0x200) && Increasing(BASIC_1) && |BASIC_1| == 12
    ensures BASIC_1[0].scanCode == 0x11 && BASIC_1[11].scanCode == 0x23
  {
  }

  lemma BasicRow2()
    ensures ValuesIn(BASIC_2, 0, 0x200) && Increasing(BASIC_2) && |BASIC_2| == 12
    ensures BASIC_2[0].scanCode == 0x24 && BASIC_2[11].scanCode == 0x33
  {
  }

  lemma BasicRow3()
    ensures ValuesIn(BASIC_3, 0, 0x200) && Increasing(BASIC_3) && |BASIC_3| == 12
    ensures BASIC_3[0].scanCode == 0x34 && BASIC_3[11].scanCode == 0x44
  {
  }

  lemma BasicRow4()
    ensures ValuesIn(BASIC_4, 0, 0x200) && Increasing(BASIC_4) && |BASIC_4| == 12
    ensures BASIC_4[0].scanCode == 0x45 && BASIC_4[11].scanCode == 0x58
  {
  }

  lemma BasicRow5()
    ensures ValuesIn(BASIC_5, 0, 0x200) && Increasing(BASIC_5) && |BASIC_5| == 12
    ensures BASIC_5[0].scanCode == 0x59 && BASIC_5[11].scanCode == 0x73
  {
  }

  lemma BasicRow6()
    ensures ValuesIn(BASIC_6, 0, 0x200) && Increasing(BASIC_6) && |BASIC_6| == 11
    ensures BASIC_6[0].scanCode == 0x74 && BASIC_6[10].scanCode == 0x83
  {
  }

  lemma ExtendedRow0()
    ensures ValuesIn(EXTENDED_0, 0x200, 0x300) && Increasing(EXTENDED_0) && |EXTENDED_0| == 13
    ensures EXTENDED_0[0].scanCode == 0x10 && EXTENDED_0[12].scanCode == 0x2F
  {
  }

  lemma ExtendedRow1()
    ensures ValuesIn(EXTENDED_1, 0x200, 0x300) && Increasing(EXTENDED_1) && |EXTENDED_1| == 13
    ensures EXTENDED_1[0].scanCode == 0x30 && EXTENDED_1[12].scanCode == 0x50
  {
  }

  lemma ExtendedRow2()
    ensures ValuesIn(EXTENDED_2, 0x200, 0x300) && Increasing(EXTENDED_2) && |EXTENDED_2| == 12
    ensures EXTENDED_2[0].scanCode == 0x5A && EXTENDED_2[11].scanCode == 0x7D
  {
  }

  lemma BasicLowIncreasing()
    ensures Increasing(BASIC_LOW) && |BASIC_LOW| == 48
    ensures BASIC_LOW[47].scanCode == 0x44
  {
    BasicRow0();
    BasicRow1();
    BasicRow2();
    BasicRow3();
    IncreasingJoin(BASIC_0, BASIC_1);
    IncreasingJoin(BASIC_0 + BASIC_1, BASIC_2);
    IncreasingJoin(BASIC_0 + BASIC_1 + BASIC_2, BASIC_3);
  }

  lemma BasicHighIncreasing()
    ensures Increasing(BASIC_HIGH) && |BASIC_HIGH| == 35
    ensures BASIC_HIGH[0].scanCode == 0x45
  {
    BasicRow4();
    BasicRow5();
    BasicRow6();
    IncreasingJoin(BASIC_4, BASIC_5);
    IncreasingJoin(BASIC_4 + BASIC_5, BASIC_6);
  }

  lemma BasicMapIncreasing()
    ensures BASIC_KEYMAP != [] && Increasing(BASIC_KEYMAP)
  {
    BasicLowIncreasing();
    BasicHighIncreasing();
    IncreasingJoin(BASIC_LOW, BASIC_HIGH);
  }

  lemma ExtendedMapIncreasing()
    ensures EXTENDED_KEYMAP != [] && Increasing(EXTENDED_KEYMAP)
  {
    ExtendedRow0();
    ExtendedRow1();
    ExtendedRow2();
    IncreasingJoin(EXTENDED_0, EXTENDED_1);
    IncreasingJoin(EXTENDED_0 + EXTENDED_1, EXTENDED_2);
  }

  // The two maps keep their values apart, so the flag bits mean what they say.
  lemma MapValues()
    ensures ValuesIn(BASIC_KEYMAP, 0, 0x200) && ValuesIn(EXTENDED_KEYMAP, 0x200, 0x300)
  {
    BasicRow0();
    BasicRow1();
    BasicRow2();
    BasicRow3();
    BasicRow4();
    BasicRow5();
    BasicRow6();
    ExtendedRow0();
    ExtendedRow1();
    ExtendedRow2();
  }

  // The meaning of a map: the value listed for a scan code.
  function Lookup(keys: seq<Key>, scanCode: int): Option<int> {
    if keys == [] then None
    else if keys[0].scanCode == scanCode then Some(keys[0].value)
    else Lookup(keys[1..], scanCode)
  }

  lemma {:induction false} LookupFinds(keys: seq<Key>, scanCode: int, k: nat)
    requires Increasing(keys) && k < |keys| && keys[k].scanCode == scanCode
    ensures Lookup(keys, scanCode) == Some(keys[k].value)
  {
    if k > 0 {
      LookupFinds(keys[1..], scanCode, k - 1);
    }
  }

  lemma {:induction false} LookupMisses(keys: seq<Key>, scanCode: int)
    requires forall k :: 0 <= k < |keys| ==> keys[k].scanCode != scanCode
    ensures Lookup(keys, scanCode) == None
  {
    if keys != [] {
      LookupMisses(keys[1..], scanCode);
    }
  }

  lemma {:induction false} LookupInRange(keys: seq<Key>, scanCode: int, lo: int, hi: int)
    requires ValuesIn(keys, lo, hi) && Lookup(keys, scanCode).Some?
    ensures lo <= Lookup(keys, scanCode).value < hi
    ensures exists k :: 0 <= k < |keys| && keys[k] == Key(scanCode, Lookup(keys, scanCode).value)
  {
    if keys[0].scanCode != scanCode {
      LookupInRange(keys[1..], scanCode, lo, hi);
      var k :| 0 <= k < |keys[1..]| && keys[1..][k] == Key(scanCode, Lookup(keys, scanCode).value);
      assert keys[k + 1] == Key(scanCode, Lookup(keys, scanCode).value);
    }
  }

  ghost predicate Lists(keys: seq<Key>, scanCode: int) {
    exists k :: 0 <= k < |keys| && keys[k].scanCode == scanCode
  }

  lemma LookupMeaning(keys: seq<Key>, scanCode: int, lo: int, hi: int)
    requires Increasing(keys) && ValuesIn(keys, lo, hi)
    ensures Lookup(keys, scanCode).Some? <==> Lists(keys, scanCode)
    ensures Lookup(keys, scanCode).Some? ==>
              Key(scanCode, Lookup(keys, scanCode).value) in keys && lo <= Lookup(keys, scanCode).value < hi
  {
    if Lists(keys, scanCode) {
      var k :| 0 <= k < |keys| && keys[k].scanCode == scanCode;
      LookupFinds(keys, scanCode, k);
    } else {
      LookupMisses(keys, scanCode);
    }
    if Lookup(keys, scanCode).Some? {
      LookupInRange(keys, scanCode, lo, hi);
    }
  }

  // binary_search_key; `value` is what is stored through the pointer, if anything
  method BinarySearchKey(scanCode: int, keys: seq<Key>) returns (r: int, value: Option<int>)
    requires keys != [] && Increasing(keys)
    ensures value == Lookup(keys, scanCode)
    ensures r == if value.Some? then 0 else -1
  {
    var minIndex, maxIndex := 0, |keys| - 1;
    if scanCode < keys[minIndex].scanCode || scanCode > keys[maxIndex].scanCode {
      LookupMisses(keys, scanCode);
      return -1, None;
    }
    var medianIndex := 0;
    var found := false;
    while !found
      invariant !found
      invariant 0 <= minIndex <= maxIndex < |keys|
      invariant minIndex == maxIndex ==> |keys| == 1
      invariant keys[minIndex].scanCode <= scanCode <= keys[maxIndex].scanCode
      decreases maxIndex - minIndex
    {
      medianIndex := (minIndex + maxIndex) / 2;
      if medianIndex == minIndex {
        if keys[medianIndex].scanCode == scanCode {
          found := true;
        } else if keys[medianIndex + 1].scanCode == scanCode {
          medianIndex := medianIndex + 1;
          found := true;
        } else {
          found := false;
        }
        break;
      }
      if scanCode > keys[medianIndex].scanCode {
        minIndex := medianIndex;
      } else {
        maxIndex := medianIndex;
      }
    }
    if found {
      LookupFinds(keys, scanCode, medianIndex);
      return 0, Some(keys[medianIndex].value);
    }
    LookupMisses(keys, scanCode);
    return -1, None;
  }
}
