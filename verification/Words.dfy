// Unsigned 32-bit words and the C operators the two frame bitmaps use on them.
// A word is an integer, and `|`, `&`, `~` and `<<` are defined bit by bit from
// the low end, so a mask test can be traced to a bit number by induction.
module Words {

  const BITS_PER_WORD: nat := 32

  type u32 = x: int | 0 <= x < 0x1_0000_0000

  // Reduction modulo 2^32: what storing any integer in an `unsigned` keeps.
  function ToU32(x: int): (r: u32)
    ensures 0x1_0000_0000 <= x < 0x2_0000_0000 ==> r == x - 0x1_0000_0000
    ensures -0x1_0000_0000 <= x < 0 ==> r == x + 0x1_0000_0000
  {
    if 0 <= x < 0x1_0000_0000 then x else x % 0x1_0000_0000
  }

  function Or(a: nat, b: nat): nat
    decreases a + b
  {
    if a == 0 && b == 0 then 0
    else 2 * Or(a / 2, b / 2) + (if a % 2 == 1 || b % 2 == 1 then 1 else 0)
  }

  function And(a: nat, b: nat): nat {
    if a == 0 then 0
    else 2 * And(a / 2, b / 2) + (if a % 2 == 1 && b % 2 == 1 then 1 else 0)
  }

  function Not(a: u32): u32 {
    0xFFFF_FFFF - a
  }

  // `m << 1` in 32 bits: the top bit falls out.
  function ShiftLeft1(m: u32): u32 {
    ToU32(2 * m)
  }

  // `1 << offset`
  function Mask(offset: nat): (m: nat)
    ensures m > 0
  {
    if offset == 0 then 1 else 2 * Mask(offset - 1)
  }

  // Bit k of w, read off directly.
  predicate TestBit(w: nat, k: nat) {
    if k == 0 then w % 2 == 1 else TestBit(w / 2, k - 1)
  }

  lemma {:induction false} OrBit(a: nat, b: nat, k: nat)
    ensures TestBit(Or(a, b), k) <==> TestBit(a, k) || TestBit(b, k)
  {
    if a == 0 && b == 0 {
      ZeroBit(k);
    } else if k > 0 {
      OrBit(a / 2, b / 2, k - 1);
    }
  }

  lemma {:induction false} AndBit(a: nat, b: nat, k: nat)
    ensures TestBit(And(a, b), k) <==> TestBit(a, k) && TestBit(b, k)
  {
    if a == 0 {
      ZeroBit(k);
    } else if k > 0 {
      AndBit(a / 2, b / 2, k - 1);
    }
  }

  lemma {:induction false} ZeroBit(k: nat)
    ensures !TestBit(0, k)
  {
    if k > 0 {
      ZeroBit(k - 1);
    }
  }

  lemma {:induction false} MaskBit(j: nat, k: nat)
    ensures TestBit(Mask(j), k) <==> j == k
  {
    if j == 0 && k > 0 {
      ZeroBit(k - 1);
    } else if j > 0 && k > 0 {
      MaskBit(j - 1, k - 1);
    }
  }

  // Complementing within n bits flips every one of them.
  lemma {:induction false} ComplementBit(w: nat, n: nat, k: nat)
    requires w < Mask(n) && k < n
    ensures TestBit(Mask(n) - 1 - w, k) <==> !TestBit(w, k)
  {
    var c := Mask(n) - 1 - w;
    assert c / 2 == Mask(n - 1) - 1 - w / 2;
    if k > 0 {
      ComplementBit(w / 2, n - 1, k - 1);
    }
  }

  lemma Mask32()
    ensures Mask(32) == 0x1_0000_0000
  {
    assert Mask(8) == 0x100;
    assert Mask(16) == 0x1_0000;
    assert Mask(24) == 0x100_0000;
  }

  lemma {:induction false} MaskFits(k: nat, n: nat)
    requires k <= n
    ensures 1 <= Mask(k) <= Mask(n)
    ensures k < n ==> 2 * Mask(k) <= Mask(n)
    decreases n
  {
    if k < n {
      MaskFits(k, n - 1);
    } else if k > 0 {
      MaskFits(k - 1, k - 1);
    }
  }

  lemma {:induction false} OrFits(a: nat, b: nat, n: nat)
    requires a < Mask(n) && b < Mask(n)
    ensures Or(a, b) < Mask(n)
  {
    if n > 0 && !(a == 0 && b == 0) {
      OrFits(a / 2, b / 2, n - 1);
    }
  }

  lemma {:induction false} AndFits(a: nat, b: nat)
    ensures And(a, b) <= a
  {
    if a > 0 {
      AndFits(a / 2, b / 2);
    }
  }

  // The C test `w & (1 << k)` is nonzero exactly when bit k of w is set.
  lemma {:induction false} MaskTest(w: nat, k: nat)
    ensures And(w, Mask(k)) != 0 <==> TestBit(w, k)
  {
    if w == 0 {
      ZeroBit(k);
    } else if k == 0 {
      AndZero(w / 2);
    } else {
      MaskTest(w / 2, k - 1);
    }
  }

  lemma {:induction false} AndZero(a: nat)
    ensures And(a, 0) == 0
  {
    if a > 0 {
      AndZero(a / 2);
    }
  }

  // Setting, clearing and the all-ones word, as the allocators write them.
  function WithBit(w: u32, k: nat): (r: u32)
    requires k < BITS_PER_WORD
    ensures forall j: nat :: j < BITS_PER_WORD ==> (TestBit(r, j) <==> (j == k || TestBit(w, j)))
  {
    Mask32();
    MaskFits(k, 32);
    OrFits(w, Mask(k), 32);
    assert forall j: nat :: j < BITS_PER_WORD ==> (TestBit(Or(w, Mask(k)), j) <==> (j == k || TestBit(w, j))) by {
      forall j: nat | j < BITS_PER_WORD
        ensures TestBit(Or(w, Mask(k)), j) <==> (j == k || TestBit(w, j))
      {
        OrBit(w, Mask(k), j);
        MaskBit(k, j);
      }
    }
    Or(w, Mask(k))
  }

  function WithoutBit(w: u32, k: nat): (r: u32)
    requires k < BITS_PER_WORD
    ensures forall j: nat :: j < BITS_PER_WORD ==> (TestBit(r, j) <==> (j != k && TestBit(w, j)))
  {
    Mask32();
    MaskFits(k, 32);
    AndFits(w, Not(Mask(k)));
    assert forall j: nat :: j < BITS_PER_WORD ==>
        (TestBit(And(w, Not(Mask(k))), j) <==> (j != k && TestBit(w, j))) by {
      forall j: nat | j < BITS_PER_WORD
        ensures TestBit(And(w, Not(Mask(k))), j) <==> (j != k && TestBit(w, j))
      {
        AndBit(w, Not(Mask(k)), j);
        ComplementBit(Mask(k), 32, j);
        MaskBit(k, j);
      }
    }
    And(w, Not(Mask(k)))
  }

  lemma AllOnes(k: nat)
    requires k < BITS_PER_WORD
    ensures TestBit(Not(0), k)
  {
    Mask32();
    MaskFits(0, 32);
    ComplementBit(0, 32, k);
    ZeroBit(k);
  }

  // A word is determined by its 32 bits.
  lemma {:induction false} WordsExtensional(v: nat, w: nat, n: nat)
    requires v < Mask(n) && w < Mask(n)
    requires forall k: nat :: k < n ==> (TestBit(v, k) <==> TestBit(w, k))
    ensures v == w
  {
    if n > 0 {
      assert TestBit(v, 0) <==> TestBit(w, 0);
      forall k: nat | k < n - 1
        ensures TestBit(v / 2, k) <==> TestBit(w / 2, k)
      {
        assert TestBit(v, k + 1) <==> TestBit(w, k + 1);
      }
      WordsExtensional(v / 2, w / 2, n - 1);
    }
  }

  // The mask of the search loops, `mask = mask << 1`, walks the bits and is
  // zero exactly when it has left the word.
  lemma MaskWalk(k: nat)
    requires k < BITS_PER_WORD
    ensures 0 < Mask(k) < 0x1_0000_0000
    ensures ShiftLeft1(Mask(k)) == if k + 1 < BITS_PER_WORD then Mask(k + 1) else 0
  {
    Mask32();
    MaskFits(k, 32);
    if k + 1 < BITS_PER_WORD {
      MaskFits(k + 1, 32);
    }
  }

  // `(unsigned)(1 << offset)`
  function FirstMask(offset: nat): (m: u32)
    requires offset < BITS_PER_WORD
    ensures m == Mask(offset)
  {
    MaskWalk(offset);
    Mask(offset)
  }
}
