// Which key each scan code of the two key maps stands for: the rows of the
// keyboard in scan code set 2, and the keys that give no character.
module KeyLayout {
  import opened KeyMaps
  import opened Options

  // The keys with these scan codes give these characters, in this order.
  ghost predicate Gives(keys: seq<Key>, codes: seq<int>, text: string) {
    |codes| == |text| && forall i :: 0 <= i < |codes| ==> Lookup(keys, codes[i]) == Some(text[i] as int)
  }

  // The keys with these scan codes give no character, but their own code with
  // the flag of their map.
  ghost predicate Flagged(keys: seq<Key>, codes: seq<int>, flag: int) {
    forall i :: 0 <= i < |codes| ==> Lookup(keys, codes[i]) == Some(flag + codes[i])
  }

  // What a part of a map lists is what the map gives.
  ghost predicate Holds(part: seq<Key>, keys: seq<Key>) {
    forall i :: 0 <= i < |part| ==> Lookup(keys, part[i].scanCode) == Some(part[i].value)
  }

  lemma AllHold(keys: seq<Key>)
    requires Increasing(keys)
    ensures Holds(keys, keys)
  {
    forall i | 0 <= i < |keys|
      ensures Lookup(keys, keys[i].scanCode) == Some(keys[i].value)
    {
      LookupFinds(keys, keys[i].scanCode, i);
    }
  }

  lemma PartsHold(a: seq<Key>, b: seq<Key>, keys: seq<Key>)
    requires Holds(a + b, keys)
    ensures Holds(a, keys) && Holds(b, keys)
  {
    forall i | 0 <= i < |b|
      ensures Lookup(keys, b[i].scanCode) == Some(b[i].value)
    {
      assert (a + b)[|a| + i] == b[i];
    }
    forall i | 0 <= i < |a|
      ensures Lookup(keys, a[i].scanCode) == Some(a[i].value)
    {
      assert (a + b)[i] == a[i];
    }
  }

  ghost predicate BasicHolds(keys: seq<Key>) {
    && Holds(BASIC_0, keys) && Holds(BASIC_1, keys) && Holds(BASIC_2, keys) && Holds(BASIC_3, keys)
    && Holds(BASIC_4, keys) && Holds(BASIC_5, keys) && Holds(BASIC_6, keys)
  }

  ghost predicate ExtendedHolds(keys: seq<Key>) {
    Holds(EXTENDED_0, keys) && Holds(EXTENDED_1, keys) && Holds(EXTENDED_2, keys)
  }

  lemma BasicMapHolds()
    ensures BasicHolds(BASIC_KEYMAP)
  {
    BasicMapIncreasing();
    AllHold(BASIC_KEYMAP);
    BasicParts(BASIC_KEYMAP);
  }

  lemma BasicParts(keys: seq<Key>)
    requires Holds(BASIC_KEYMAP, keys)
    ensures BasicHolds(keys)
  {
    PartsHold(BASIC_LOW, BASIC_HIGH, keys);
    PartsHold(BASIC_0 + BASIC_1 + BASIC_2, BASIC_3, keys);
    PartsHold(BASIC_0 + BASIC_1, BASIC_2, keys);
    PartsHold(BASIC_0, BASIC_1, keys);
    PartsHold(BASIC_4 + BASIC_5, BASIC_6, keys);
    PartsHold(BASIC_4, BASIC_5, keys);
  }

  lemma ExtendedMapHolds()
    ensures ExtendedHolds(EXTENDED_KEYMAP)
  {
    ExtendedMapIncreasing();
    AllHold(EXTENDED_KEYMAP);
    PartsHold(EXTENDED_0 + EXTENDED_1, EXTENDED_2, EXTENDED_KEYMAP);
    PartsHold(EXTENDED_0, EXTENDED_1, EXTENDED_KEYMAP);
  }

  // ---- The rows of the keyboard ----

  lemma DigitRow()
    ensures Gives(BASIC_KEYMAP,
                  [0x0E, 0x16, 0x1E, 0x26, 0x25, 0x2E, 0x36, 0x3D, 0x3E, 0x46, 0x45, 0x4E, 0x55, 0x66],
                  "`1234567890-=\U{8}")
  {
    BasicMapHolds();
    assert BASIC_0[11].scanCode == 0x0E && BASIC_1[3].scanCode == 0x16 && BASIC_1[8].scanCode == 0x1E;
    assert BASIC_2[1].scanCode == 0x25 && BASIC_2[2].scanCode == 0x26 && BASIC_2[8].scanCode == 0x2E;
    assert BASIC_3[2].scanCode == 0x36 && BASIC_3[6].scanCode == 0x3D && BASIC_3[7].scanCode == 0x3E;
    assert BASIC_4[0].scanCode == 0x45 && BASIC_4[1].scanCode == 0x46 && BASIC_4[7].scanCode == 0x4E;
    assert BASIC_4[10].scanCode == 0x55 && BASIC_5[4].scanCode == 0x66;
  }

  lemma TopRow()
    ensures Gives(BASIC_KEYMAP,
                  [0x0D, 0x15, 0x1D, 0x24, 0x2D, 0x2C, 0x35, 0x3C, 0x43, 0x44, 0x4D, 0x54, 0x5B, 0x5D],
                  "\tQWERTYUIOP[]\\")
  {
    BasicMapHolds();
    assert BASIC_0[10].scanCode == 0x0D && BASIC_1[2].scanCode == 0x15 && BASIC_1[7].scanCode == 0x1D;
    assert BASIC_2[0].scanCode == 0x24 && BASIC_2[6].scanCode == 0x2C && BASIC_2[7].scanCode == 0x2D;
    assert BASIC_3[1].scanCode == 0x35 && BASIC_3[5].scanCode == 0x3C && BASIC_3[10].scanCode == 0x43;
    assert BASIC_3[11].scanCode == 0x44 && BASIC_4[6].scanCode == 0x4D && BASIC_4[9].scanCode == 0x54;
    assert BASIC_5[2].scanCode == 0x5B && BASIC_5[3].scanCode == 0x5D;
  }

  lemma HomeRow()
    ensures Gives(BASIC_KEYMAP,
                  [0x1C, 0x1B, 0x23, 0x2B, 0x34, 0x33, 0x3B, 0x42, 0x4B, 0x4C, 0x52, 0x5A],
                  "ASDFGHJKL;'\n")
  {
    BasicMapHolds();
    assert BASIC_1[5].scanCode == 0x1B && BASIC_1[6].scanCode == 0x1C && BASIC_1[11].scanCode == 0x23;
    assert BASIC_2[5].scanCode == 0x2B && BASIC_2[11].scanCode == 0x33 && BASIC_3[0].scanCode == 0x34;
    assert BASIC_3[4].scanCode == 0x3B && BASIC_3[9].scanCode == 0x42 && BASIC_4[4].scanCode == 0x4B;
    assert BASIC_4[5].scanCode == 0x4C && BASIC_4[8].scanCode == 0x52 && BASIC_5[1].scanCode == 0x5A;
  }

  lemma BottomRow()
    ensures Gives(BASIC_KEYMAP,
                  [0x1A, 0x22, 0x21, 0x2A, 0x32, 0x31, 0x3A, 0x41, 0x49, 0x4A, 0x29],
                  "ZXCVBNM,./ ")
  {
    BasicMapHolds();
    assert BASIC_1[4].scanCode == 0x1A && BASIC_1[9].scanCode == 0x21 && BASIC_1[10].scanCode == 0x22;
    assert BASIC_2[3].scanCode == 0x29 && BASIC_2[4].scanCode == 0x2A && BASIC_2[9].scanCode == 0x31;
    assert BASIC_2[10].scanCode == 0x32 && BASIC_3[3].scanCode == 0x3A && BASIC_3[8].scanCode == 0x41;
    assert BASIC_4[2].scanCode == 0x49 && BASIC_4[3].scanCode == 0x4A;
  }

  // F1 to F12.
  lemma FunctionKeys()
    ensures Flagged(BASIC_KEYMAP,
                    [0x05, 0x06, 0x04, 0x0C, 0x03, 0x0B, 0x83, 0x0A, 0x01, 0x09, 0x78, 0x07], 0x100)
  {
    BasicMapHolds();
    assert BASIC_0[0].scanCode == 0x01 && BASIC_0[1].scanCode == 0x03 && BASIC_0[2].scanCode == 0x04;
    assert BASIC_0[3].scanCode == 0x05 && BASIC_0[4].scanCode == 0x06 && BASIC_0[5].scanCode == 0x07;
    assert BASIC_0[6].scanCode == 0x09 && BASIC_0[7].scanCode == 0x0A && BASIC_0[8].scanCode == 0x0B;
    assert BASIC_0[9].scanCode == 0x0C && BASIC_6[4].scanCode == 0x78 && BASIC_6[10].scanCode == 0x83;
  }

  // The keypad: 0 to 9 and . * - +
  lemma Keypad()
    ensures Flagged(BASIC_KEYMAP,
                    [0x70, 0x69, 0x72, 0x7A, 0x6B, 0x73, 0x74, 0x6C, 0x75, 0x7D, 0x71, 0x7C, 0x7B, 0x79], 0x100)
  {
    BasicMapHolds();
    assert BASIC_5[5].scanCode == 0x69 && BASIC_5[6].scanCode == 0x6B && BASIC_5[7].scanCode == 0x6C;
    assert BASIC_5[8].scanCode == 0x70 && BASIC_5[9].scanCode == 0x71 && BASIC_5[10].scanCode == 0x72;
    assert BASIC_5[11].scanCode == 0x73 && BASIC_6[0].scanCode == 0x74 && BASIC_6[1].scanCode == 0x75;
    assert BASIC_6[5].scanCode == 0x79 && BASIC_6[6].scanCode == 0x7A && BASIC_6[7].scanCode == 0x7B;
    assert BASIC_6[8].scanCode == 0x7C && BASIC_6[9].scanCode == 0x7D;
  }

  // Left alt, the shifts, caps lock, escape and num lock.
  lemma OtherKeys()
    ensures Flagged(BASIC_KEYMAP, [0x11, 0x12, 0x59, 0x58, 0x76, 0x77], 0x100)
  {
    BasicMapHolds();
    assert BASIC_1[0].scanCode == 0x11 && BASIC_1[1].scanCode == 0x12 && BASIC_4[11].scanCode == 0x58;
    assert BASIC_5[0].scanCode == 0x59 && BASIC_6[2].scanCode == 0x76 && BASIC_6[3].scanCode == 0x77;
  }

  // Windows keys, right control and alt, menu, and / and enter of the keypad.
  lemma Modifiers()
    ensures Flagged(EXTENDED_KEYMAP, [0x1F, 0x14, 0x27, 0x11, 0x2F, 0x4A, 0x5A], 0x200)
  {
    ExtendedMapHolds();
    assert EXTENDED_0[1].scanCode == 0x11 && EXTENDED_0[2].scanCode == 0x14 && EXTENDED_0[5].scanCode == 0x1F;
    assert EXTENDED_0[9].scanCode == 0x27 && EXTENDED_0[12].scanCode == 0x2F && EXTENDED_1[10].scanCode == 0x4A;
    assert EXTENDED_2[0].scanCode == 0x5A;
  }

  // Insert, home, page up, delete, end, page down and the arrows.
  lemma Navigation()
    ensures Flagged(EXTENDED_KEYMAP, [0x70, 0x6C, 0x7D, 0x71, 0x69, 0x7A, 0x75, 0x6B, 0x72, 0x74], 0x200)
  {
    ExtendedMapHolds();
    assert EXTENDED_2[2].scanCode == 0x69 && EXTENDED_2[3].scanCode == 0x6B && EXTENDED_2[4].scanCode == 0x6C;
    assert EXTENDED_2[5].scanCode == 0x70 && EXTENDED_2[6].scanCode == 0x71 && EXTENDED_2[7].scanCode == 0x72;
    assert EXTENDED_2[8].scanCode == 0x74 && EXTENDED_2[9].scanCode == 0x75 && EXTENDED_2[10].scanCode == 0x7A;
    assert EXTENDED_2[11].scanCode == 0x7D;
  }

  // Multimedia and power keys.
  lemma Multimedia()
    ensures Flagged(EXTENDED_KEYMAP,
                    [0x4D, 0x15, 0x3B, 0x34, 0x23, 0x32, 0x21, 0x50, 0x48, 0x2B, 0x40,
                     0x10, 0x3A, 0x38, 0x30, 0x28, 0x20, 0x18, 0x37, 0x3F, 0x5E],
                    0x200)
  {
    ExtendedMapHolds();
    assert EXTENDED_0[0].scanCode == 0x10 && EXTENDED_0[3].scanCode == 0x15 && EXTENDED_0[4].scanCode == 0x18;
    assert EXTENDED_0[6].scanCode == 0x20 && EXTENDED_0[7].scanCode == 0x21 && EXTENDED_0[8].scanCode == 0x23;
    assert EXTENDED_0[10].scanCode == 0x28 && EXTENDED_0[11].scanCode == 0x2B && EXTENDED_1[0].scanCode == 0x30;
    assert EXTENDED_1[1].scanCode == 0x32 && EXTENDED_1[2].scanCode == 0x34 && EXTENDED_1[3].scanCode == 0x37;
    assert EXTENDED_1[4].scanCode == 0x38 && EXTENDED_1[5].scanCode == 0x3A && EXTENDED_1[6].scanCode == 0x3B;
    assert EXTENDED_1[7].scanCode == 0x3F && EXTENDED_1[8].scanCode == 0x40 && EXTENDED_1[9].scanCode == 0x48;
    assert EXTENDED_1[11].scanCode == 0x4D && EXTENDED_1[12].scanCode == 0x50 && EXTENDED_2[1].scanCode == 0x5E;
  }

  // Left control has no entry: read_key answers its make with -1.
  lemma LeftControlUnlisted()
    ensures Lookup(BASIC_KEYMAP, 0x14) == None
  {
    BasicMapIncreasing();
    assert BASIC_KEYMAP[13] == BASIC_1[1] && BASIC_KEYMAP[14] == BASIC_1[2];
    LookupMisses(BASIC_KEYMAP, 0x14);
  }

  // ---- The values ----

  // A value with the flag of its map is the scan code with that flag.
  predicate Coded(keys: seq<Key>, flag: int) {
    forall i :: 0 <= i < |keys| && keys[i].value >= 0x100 ==> keys[i].value == flag + keys[i].scanCode
  }

  predicate Distinct(keys: seq<Key>) {
    forall i, j :: 0 <= i < j < |keys| ==> keys[i].value != keys[j].value
  }

  predicate Apart(a: seq<Key>, b: seq<Key>) {
    forall i, j :: 0 <= i < |a| && 0 <= j < |b| ==> a[i].value != b[j].value
  }

  lemma Join(a: seq<Key>, b: seq<Key>, flag: int)
    requires Coded(a, flag) && Coded(b, flag) && Distinct(a) && Distinct(b) && Apart(a, b)
    ensures Coded(a + b, flag) && Distinct(a + b)
  {
  }

  lemma ApartBoth(a: seq<Key>, b: seq<Key>, c: seq<Key>)
    requires Apart(a, c) && Apart(b, c)
    ensures Apart(a + b, c)
  {
  }

  lemma CodedRows()
    ensures Coded(BASIC_0, 0x100) && Coded(BASIC_1, 0x100) && Coded(BASIC_2, 0x100) && Coded(BASIC_3, 0x100)
    ensures Coded(BASIC_4, 0x100) && Coded(BASIC_5, 0x100) && Coded(BASIC_6, 0x100)
  {
  }

  lemma LastRowValues()
    ensures ValuesIn(BASIC_6, 0x100, 0x200)
  {
  }

  lemma Row0()
    ensures Distinct(BASIC_0)
  {
  }

  lemma Row1()
    ensures Distinct(BASIC_1)
  {
  }

  lemma Row2()
    ensures Distinct(BASIC_2)
  {
  }

  lemma Row3()
    ensures Distinct(BASIC_3)
  {
  }

  lemma Row4()
    ensures Distinct(BASIC_4)
  {
  }

  lemma Row5()
    ensures Distinct(BASIC_5)
  {
  }

  lemma Row6()
    ensures Distinct(BASIC_6)
  {
  }

  lemma ApartFromRow1()
    ensures Apart(BASIC_0, BASIC_1)
  {
  }

  lemma ApartFromRow2()
    ensures Apart(BASIC_0, BASIC_2) && Apart(BASIC_1, BASIC_2)
  {
  }

  lemma ApartFromRow3()
    ensures Apart(BASIC_0, BASIC_3) && Apart(BASIC_1, BASIC_3) && Apart(BASIC_2, BASIC_3)
  {
  }

  lemma ApartFromRow4()
    ensures Apart(BASIC_0, BASIC_4) && Apart(BASIC_1, BASIC_4) && Apart(BASIC_2, BASIC_4)
  {
  }

  lemma ApartFromRow5()
    ensures Apart(BASIC_0, BASIC_5) && Apart(BASIC_1, BASIC_5) && Apart(BASIC_2, BASIC_5)
  {
  }

  lemma UpperRowsApart()
    ensures Apart(BASIC_3, BASIC_4) && Apart(BASIC_3, BASIC_5) && Apart(BASIC_4, BASIC_5)
  {
  }

  // The first three rows together.
  const FIRST: seq<Key> := BASIC_0 + BASIC_1 + BASIC_2

  lemma FirstApart(c: seq<Key>)
    requires Apart(BASIC_0, c) && Apart(BASIC_1, c) && Apart(BASIC_2, c)
    ensures Apart(FIRST, c)
  {
    ApartBoth(BASIC_0, BASIC_1, c);
    ApartBoth(BASIC_0 + BASIC_1, BASIC_2, c);
  }

  lemma FirstRows()
    ensures Coded(FIRST, 0x100) && Distinct(FIRST)
    ensures Apart(FIRST, BASIC_3) && Apart(FIRST, BASIC_4) && Apart(FIRST, BASIC_5)
  {
    CodedRows();
    Row0();
    Row1();
    Row2();
    ApartFromRow1();
    ApartFromRow2();
    ApartFromRow3();
    ApartFromRow4();
    ApartFromRow5();
    Join(BASIC_0, BASIC_1, 0x100);
    ApartBoth(BASIC_0, BASIC_1, BASIC_2);
    Join(BASIC_0 + BASIC_1, BASIC_2, 0x100);
    FirstApart(BASIC_3);
    FirstApart(BASIC_4);
    FirstApart(BASIC_5);
  }

  // All rows but the last.
  const FRONT: seq<Key> := FIRST + BASIC_3 + BASIC_4 + BASIC_5

  lemma FrontRows()
    ensures Coded(FRONT, 0x100) && Distinct(FRONT)
  {
    CodedRows();
    FirstRows();
    Row3();
    Row4();
    Row5();
    UpperRowsApart();
    Join(FIRST, BASIC_3, 0x100);
    ApartBoth(FIRST, BASIC_3, BASIC_4);
    Join(FIRST + BASIC_3, BASIC_4, 0x100);
    ApartBoth(FIRST, BASIC_3, BASIC_5);
    ApartBoth(FIRST + BASIC_3, BASIC_4, BASIC_5);
    Join(FIRST + BASIC_3 + BASIC_4, BASIC_5, 0x100);
  }

  // The last row holds no characters, so its keys are told apart by their codes.
  lemma LastRowApart(front: seq<Key>)
    requires Coded(front, 0x100) && Increasing(front + BASIC_6)
    ensures Apart(front, BASIC_6)
  {
    CodedRows();
    LastRowValues();
    forall i, j | 0 <= i < |front| && 0 <= j < |BASIC_6|
      ensures front[i].value != BASIC_6[j].value
    {
      assert (front + BASIC_6)[i] == front[i] && (front + BASIC_6)[|front| + j] == BASIC_6[j];
    }
  }

  lemma ExtendedCoded()
    ensures Coded(EXTENDED_KEYMAP, 0x200)
  {
    assert Coded(EXTENDED_0, 0x200) && Coded(EXTENDED_1, 0x200) && Coded(EXTENDED_2, 0x200);
  }

  // What gives no character gives its scan code, no two keys of a map give the
  // same, and the maps have the keys named above and no more.
  lemma KeyValues()
    ensures |BASIC_KEYMAP| == 83 && |EXTENDED_KEYMAP| == 38
    ensures Coded(BASIC_KEYMAP, 0x100) && Coded(EXTENDED_KEYMAP, 0x200)
    ensures Distinct(BASIC_KEYMAP) && Distinct(EXTENDED_KEYMAP)
  {
    CodedRows();
    FrontRows();
    Row6();
    BasicMapIncreasing();
    ExtendedMapIncreasing();
    ExtendedCoded();
    MapValues();
    assert BASIC_KEYMAP == FRONT + BASIC_6;
    LastRowApart(FRONT);
    Join(FRONT, BASIC_6, 0x100);
  }
}
