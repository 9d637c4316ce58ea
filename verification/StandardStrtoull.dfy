// simple_strtoull (lib/libc/stdlib.c) against section 7.20.1.4 of ISO C99: on
// which strings the value returned is the one the standard prescribes.
module StandardStrtoull {
  import DigitLoop
  import opened NumberParser
  import opened Numerals
  import opened Options

  // ---- The value the standard prescribes ----

  const ULLONG_MAX: u64 := 0xFFFF_FFFF_FFFF_FFFF

  // isspace in the "C" locale: space, and the characters from \t to \r.
  predicate IsWhite(c: char) {
    c == ' ' || 9 <= c as int <= 13
  }

  function AfterWhite(s: string): string {
    if s != [] && IsWhite(s[0]) then AfterWhite(s[1..]) else s
  }

  // Letters of either case stand for 10 to 35; 36 for any other character.
  function StandardDigit(c: char): nat {
    if IsDigit(c) then c as int - '0' as int
    else if 'a' <= c <= 'z' then c as int - 'a' as int + 10
    else if 'A' <= c <= 'Z' then c as int - 'A' as int + 10
    else 36
  }

  function StandardRun(s: string, base: nat): (n: nat)
    ensures n <= |s| && forall i :: 0 <= i < n ==> StandardDigit(s[i]) < base
    ensures n < |s| ==> StandardDigit(s[n]) >= base
  {
    if s == [] || StandardDigit(s[0]) >= base then 0 else 1 + StandardRun(s[1..], base)
  }

  function Horner(digits: string, base: nat): nat {
    if digits == [] then 0 else Horner(digits[..|digits| - 1], base) * base + StandardDigit(digits[|digits| - 1])
  }

  // The number at the start of the string.
  function StandardNumber(s: string, base: nat): nat {
    Horner(s[..StandardRun(s, base)], base)
  }

  // 0x or 0X, with a hex digit behind it.
  predicate HasPrefix(t: string) {
    |t| >= 3 && t[0] == '0' && (t[1] == 'x' || t[1] == 'X') && StandardDigit(t[2]) < 16
  }

  // The base of the number behind the sign, and where its digits start.
  function StandardStart(t: string, base: nat): (nat, string) {
    if (base == 0 || base == 16) && HasPrefix(t) then (16, t[2..])
    else if base != 0 then (base, t)
    else if Head(t) == '0' then (8, t)
    else (10, t)
  }

  function StandardMagnitude(t: string, base: nat): nat {
    var (b, digits) := StandardStart(t, base);
    StandardNumber(digits, b)
  }

  // An optional plus or minus sign.
  function BehindSign(t: string): string {
    if t != [] && (t[0] == '+' || t[0] == '-') then t[1..] else t
  }

  function WithMinus(sign: string, n: int): int {
    if sign != [] && sign[0] == '-' then -n else n
  }

  // The number with its sign, or the largest value if it is out of range.
  function InRange(sign: string, n: nat): u64 {
    if n > ULLONG_MAX then ULLONG_MAX else ToU64(WithMinus(sign, n))
  }

  function StandardValue(s: string, base: nat): u64 {
    var t := AfterWhite(s);
    InRange(t, StandardMagnitude(BehindSign(t), base))
  }

  // ---- The value the code gives ----

  function MagnitudeRead(t: string, base: nat): nat {
    match NumberAt(t, base)
    case None => 0
    case Some((b, digits)) => Value(DigitPrefix(digits, b), b)
  }

  lemma ReadMagnitude(s: string, base: nat)
    requires base == 0 || 2 <= base <= 36
    ensures var t := AfterSpaces(s);
            StrtoullValue(s, base).0 == ToU64(Signed(t, MagnitudeRead(AfterSign(t), base)))
  {
  }

  // ---- The digits of the code and those of the standard ----

  // Right behind the digits the code reads comes a digit of the base it does not
  // know: a letter.
  predicate LetterBehind(s: string, base: nat) {
    var n := DigitRun(s, base);
    n < |s| && StandardDigit(s[n]) < base
  }

  lemma DigitsKnown(c: char, base: nat)
    requires 2 <= base <= 36
    ensures CorrectDigit(c, base) ==> StandardDigit(c) == DigitValue(c) < base
    ensures !CorrectDigit(c, base) && StandardDigit(c) < base ==> StandardDigit(c) >= 10
  {
  }

  lemma {:induction false} SameDigits(s: string, base: nat)
    requires 2 <= base <= 36 && forall i :: 0 <= i < |s| ==> CorrectDigit(s[i], base)
    ensures Horner(s, base) == Value(s, base)
  {
    if s != [] {
      SameDigits(s[..|s| - 1], base);
      DigitsKnown(s[|s| - 1], base);
    }
  }

  lemma {:induction false} MoreDigits(s: string, k: nat, base: nat)
    requires base >= 1 && k <= |s|
    ensures Horner(s[..k], base) <= Horner(s, base)
    ensures k < |s| && StandardDigit(s[k]) > 0 ==> Horner(s[..k], base) < Horner(s, base)
  {
    if k == |s| {
      assert s[..k] == s;
    } else {
      var front := s[..|s| - 1];
      assert front[..k] == s[..k];
      MoreDigits(front, k, base);
      MulMonotone(1, base, Horner(front, base));
    }
  }

  lemma {:induction false} RunsCompare(s: string, base: nat)
    requires 2 <= base <= 36
    ensures DigitRun(s, base) <= StandardRun(s, base)
    ensures LetterBehind(s, base) <==> DigitRun(s, base) < StandardRun(s, base)
  {
    if s != [] {
      DigitsKnown(s[0], base);
      if CorrectDigit(s[0], base) {
        RunsCompare(s[1..], base);
      }
    }
  }

  // The code reads the standard's number, or a smaller one where a letter digit
  // stops it.
  lemma Numbers(s: string, base: nat)
    requires 2 <= base <= 36
    ensures var read, number := Value(DigitPrefix(s, base), base), StandardNumber(s, base);
            if LetterBehind(s, base) then read < number else read == number
  {
    RunsCompare(s, base);
    var digits, k := s[..StandardRun(s, base)], DigitRun(s, base);
    assert digits[..k] == DigitPrefix(s, base);
    SameDigits(DigitPrefix(s, base), base);
    MoreDigits(digits, k, base);
    if LetterBehind(s, base) {
      DigitsKnown(s[k], base);
      assert digits[k] == s[k];
    } else {
      assert digits == digits[..k];
    }
  }

  // ---- Where they differ ----

  // White space other than ' ': the code stops at it.
  predicate OtherWhite(t: string) {
    Head(t) != ' ' && IsWhite(Head(t))
  }

  // With base 0, a decimal number: it is not read at all.
  predicate Decimal(t: string, base: nat) {
    base == 0 && '1' <= Head(t) <= '9'
  }

  // An upper-case prefix: neither is such a number.
  predicate UpperPrefix(t: string, base: nat) {
    (base == 0 || base == 16) && HasPrefix(t) && t[1] == 'X'
  }

  // With base 0, a second prefix behind the first: both are taken off.
  predicate TwoPrefixes(t: string, base: nat) {
    base == 0 && |t| >= 5 && t[..4] == "0x0x" && IsXDigit(t[4])
  }

  // All other numbers: the code's digits, wrapped, against the standard's.
  predicate OrdinaryAsStandard(t: string, base: nat, sign: string)
    requires base == 0 || 2 <= base <= 36
  {
    var (b, digits) := StandardStart(t, base);
    if StandardNumber(digits, b) <= ULLONG_MAX then !LetterBehind(digits, b)
    else ToU64(WithMinus(sign, Value(DigitPrefix(digits, b), b))) == ULLONG_MAX
  }

  predicate ReadAsStandard(s: string, base: nat)
    requires base == 0 || 2 <= base <= 36
  {
    var sign := AfterSpaces(s);
    var t := BehindSign(sign);
    if OtherWhite(sign) then StandardMagnitude(BehindSign(AfterWhite(sign)), base) == 0
    else if Decimal(t, base) then false
    else if UpperPrefix(t, base) then StandardNumber(t[2..], 16) == 0
    else if TwoPrefixes(t, base) then ToU64(Value(DigitPrefix(t[4..], 16), 16)) == 0
    else OrdinaryAsStandard(t, base, sign)
  }

  lemma NothingRead(t: string, base: nat)
    requires !CorrectDigit(Head(t), base)
    ensures Value(DigitPrefix(t, base), base) == 0
  {
    assert DigitPrefix(t, base) == [];
  }

  // A zero first: the digits behind it have the value.
  lemma ZeroFirst(t: string, base: nat)
    requires 2 <= base <= 36 && Head(t) == '0'
    ensures Value(DigitPrefix(t, base), base) == Value(DigitPrefix(t[1..], base), base)
    ensures !CorrectDigit(Head(t[1..]), base) ==> Value(DigitPrefix(t, base), base) == 0
  {
    DropZero(t, base);
    if !CorrectDigit(Head(t[1..]), base) {
      NothingRead(t[1..], base);
    }
  }

  // What hex_process and the digits behind it come to.
  function HexRead(t: string): nat {
    match AfterHexPrefix(t)
    case None => 0
    case Some(u) => Value(DigitPrefix(u, 16), 16)
  }

  predicate LowerPrefix(t: string) {
    |t| >= 2 && t[..2] == "0x"
  }

  lemma HexReads(t: string)
    ensures HexRead(t) == Value(DigitPrefix(if LowerPrefix(t) then t[2..] else t, 16), 16)
    ensures LowerPrefix(t) ==> Value(DigitPrefix(t, 16), 16) == 0
  {
    if LowerPrefix(t) {
      ZeroFirst(t, 16);
      if !IsXDigit(Head(t[2..])) {
        NothingRead(t[2..], 16);
      }
    } else if Head(t) == '0' {
      ZeroFirst(t, 16);
    } else if !IsXDigit(Head(t)) {
      NothingRead(t, 16);
    }
  }

  lemma NonZeroFirst(t: string)
    requires '1' <= Head(t) <= '9'
    ensures StandardNumber(t, 10) > 0
  {
    var digits := t[..StandardRun(t, 10)];
    assert digits[0] == t[0] && Horner(digits[..0], 10) == 0;
    MoreDigits(digits, 0, 10);
  }

  lemma LoneZero(t: string)
    requires LowerPrefix(t)
    ensures StandardNumber(t, 16) == 0
  {
    assert StandardRun(t[1..], 16) == 0;
    assert t[..StandardRun(t, 16)] == "0" && "0"[..0] == "";
    assert Horner("0", 16) == Horner("", 16) * 16 + 0;
  }

  lemma BaseSixteen(t: string)
    requires !UpperPrefix(t, 16)
    ensures var (b, digits) := StandardStart(t, 16);
            b == 16 && MagnitudeRead(t, 16) == Value(DigitPrefix(digits, 16), 16)
  {
    HexReads(t);
    if LowerPrefix(t) && !HasPrefix(t) {
      NothingRead(t[2..], 16);
    }
  }

  lemma BaseZero(t: string)
    requires !Decimal(t, 0) && !UpperPrefix(t, 0) && !TwoPrefixes(t, 0)
    ensures var (b, digits) := StandardStart(t, 0);
            2 <= b <= 16 && MagnitudeRead(t, 0) == Value(DigitPrefix(digits, b), b)
  {
    if Head(t) != '0' {
      NothingRead(t, 10);
    } else if !HasPrefix(t) {
      ZeroFirst(t, 8);
    } else {
      BehindPrefix(t);
    }
  }

  lemma BehindPrefix(t: string)
    requires HasPrefix(t) && t[1] == 'x' && !TwoPrefixes(t, 0)
    ensures MagnitudeRead(t, 0) == Value(DigitPrefix(t[2..], 16), 16)
  {
    HexReads(t[2..]);
    if !IsXDigit(t[2]) {
      NothingRead(t[2..], 16);
    } else if LowerPrefix(t[2..]) {
      assert t[..4] == "0x" + t[2..][..2] && t[2..][2..] == t[4..];
      NothingRead(t[4..], 16);
    }
  }

  lemma BothPrefixesGo(t: string)
    requires TwoPrefixes(t, 0)
    ensures MagnitudeRead(t, 0) == Value(DigitPrefix(t[4..], 16), 16) && StandardMagnitude(t, 0) == 0
    ensures t[0] == '0'
  {
    assert t[0] == t[..4][0] && t[1] == t[..4][1] && t[2..][..2] == t[..4][2..] && t[2..][2..] == t[4..];
    HexReads(t[2..]);
    LoneZero(t[2..]);
  }

  // What is read and what the standard prescribes, without sign, in the three
  // cases of their own and in all others.
  lemma Magnitudes(t: string, base: nat)
    requires base == 0 || 2 <= base <= 36
    ensures var read, standard := MagnitudeRead(t, base), StandardMagnitude(t, base);
            if Decimal(t, base) then read == 0 && standard > 0
            else if UpperPrefix(t, base) then read == 0 && standard == StandardNumber(t[2..], 16)
            else if TwoPrefixes(t, base) then read == Value(DigitPrefix(t[4..], 16), 16) && standard == 0
            else
              var (b, digits) := StandardStart(t, base);
              2 <= b <= 36 && read == Value(DigitPrefix(digits, b), b) && standard == StandardNumber(digits, b)
  {
    if Decimal(t, base) {
      NonZeroFirst(t);
    } else if UpperPrefix(t, base) {
      HexReads(t);
    } else if TwoPrefixes(t, base) {
      BothPrefixesGo(t);
    } else if base == 0 {
      BaseZero(t);
    } else if base == 16 {
      BaseSixteen(t);
    }
  }

  // ---- The comparison ----

  // Two magnitudes under one sign.
  lemma SignedCompare(sign: string, read: nat, standard: nat)
    ensures standard <= ULLONG_MAX && read <= standard ==>
              (ToU64(Signed(sign, read)) == InRange(sign, standard) <==> read == standard)
    ensures InRange(sign, standard) == 0 <==> standard == 0
    ensures ToU64(Signed(sign, read)) == 0 <==> ToU64(read) == 0
  {
  }

  lemma WhiteSkipped(s: string)
    ensures AfterWhite(AfterSpaces(s)) == AfterWhite(s)
    ensures !OtherWhite(AfterSpaces(s)) ==> AfterWhite(s) == AfterSpaces(s)
  {
  }

  lemma OtherWhiteStops(sign: string, base: nat)
    requires OtherWhite(sign) && (base == 0 || 2 <= base <= 36)
    ensures MagnitudeRead(AfterSign(sign), base) == 0
  {
    NothingRead(sign, base);
  }

  lemma OrdinaryCompare(t: string, base: nat, sign: string)
    requires base == 0 || 2 <= base <= 36
    requires !Decimal(t, base) && !UpperPrefix(t, base) && !TwoPrefixes(t, base)
    ensures ToU64(Signed(sign, MagnitudeRead(t, base))) == InRange(sign, StandardMagnitude(t, base))
            <==> OrdinaryAsStandard(t, base, sign)
  {
    Magnitudes(t, base);
    var (b, digits) := StandardStart(t, base);
    Numbers(digits, b);
    SignedCompare(sign, MagnitudeRead(t, base), StandardMagnitude(t, base));
  }

  // simple_strtoull gives the standard's value exactly on these strings.
  lemma StandardExactlyWhen(s: string, base: nat)
    requires base == 0 || 2 <= base <= 36
    ensures StrtoullValue(s, base).0 == StandardValue(s, base) <==> ReadAsStandard(s, base)
  {
    var sign := AfterSpaces(s);
    var t := AfterSign(sign);
    ReadMagnitude(s, base);
    WhiteSkipped(s);
    if OtherWhite(sign) {
      OtherWhiteStops(sign, base);
      var u := AfterWhite(sign);
      SignedCompare(u, 0, StandardMagnitude(AfterSign(u), base));
    } else if Decimal(t, base) || UpperPrefix(t, base) || TwoPrefixes(t, base) {
      Magnitudes(t, base);
      SignedCompare(sign, MagnitudeRead(t, base), StandardMagnitude(t, base));
    } else {
      OrdinaryCompare(t, base, sign);
    }
  }

  // ---- The end pointer ----

  // What is left behind the number, or the whole string if there is none.
  function StandardEnd(s: string, base: nat): string {
    var (b, digits) := StandardStart(BehindSign(AfterWhite(s)), base);
    var n := StandardRun(digits, b);
    if n == 0 then s else digits[n..]
  }

  predicate EndsAsStandard(s: string, base: nat)
    requires base == 0 || 2 <= base <= 36
  {
    var sign := AfterSpaces(s);
    var t := BehindSign(sign);
    if OtherWhite(sign) then
      var (b, digits) := StandardStart(BehindSign(AfterWhite(sign)), base);
      base != 0 && base != 16 && StandardRun(digits, b) == 0 && sign == s
    else
      var (b, digits) := StandardStart(t, base);
      // detect_base and hex_process accept the number
      && NumberAt(t, base).Some? && !TwoPrefixes(t, base)
      && if StandardRun(digits, b) == 0 then digits == s else !LetterBehind(digits, b)
  }

  lemma ReadEnd(s: string, base: nat)
    requires base == 0 || 2 <= base <= 36
    ensures StrtoullValue(s, base).1 ==
            match NumberAt(AfterSign(AfterSpaces(s)), base)
            case None => None
            case Some((b, u)) => Some(u[DigitRun(u, b)..])
  {
  }

  // What is left behind the digits.
  function Behind(digits: string, base: nat): string {
    digits[DigitRun(digits, base)..]
  }

  // The zero that hex_process takes off is not missed.
  lemma HexEnd(t: string)
    requires AfterHexPrefix(t).Some?
    ensures Behind(AfterHexPrefix(t).value, 16) == Behind(if LowerPrefix(t) then t[2..] else t, 16)
    ensures LowerPrefix(t) ==> |t| >= 3 && IsXDigit(t[2])
  {
    if Head(t) == '0' && !LowerPrefix(t) {
      DropZero(t, 16);
    }
  }

  lemma BehindPrefixEnd(t: string)
    requires HasPrefix(t) && !TwoPrefixes(t, 0) && NumberAt(t, 0).Some?
    ensures NumberAt(t, 0).value.0 == 16 && Behind(NumberAt(t, 0).value.1, 16) == Behind(t[2..], 16)
  {
    HexEnd(t[2..]);
    if LowerPrefix(t[2..]) {
      assert t[..4] == "0x" + t[2..][..2];
    }
  }

  lemma OrdinaryEnd(t: string, base: nat)
    requires base == 0 || 2 <= base <= 36
    requires !TwoPrefixes(t, base) && NumberAt(t, base).Some?
    ensures var (b, digits) := StandardStart(t, base);
            b == NumberAt(t, base).value.0 && 2 <= b <= 36 && Behind(NumberAt(t, base).value.1, b) == Behind(digits, b)
  {
    if base == 16 {
      HexEnd(t);
    } else if base == 0 && HasPrefix(t) {
      BehindPrefixEnd(t);
    } else if base == 0 {
      DropZero(t, 8);
    }
  }

  // Behind two prefixes the code ends later.
  lemma BothPrefixesEnd(t: string)
    requires TwoPrefixes(t, 0)
    ensures NumberAt(t, 0).Some? ==> |Behind(NumberAt(t, 0).value.1, 16)| < |t| - 3 && NumberAt(t, 0).value.0 == 16
    ensures StandardStart(t, 0) == (16, t[2..]) && StandardRun(t[2..], 16) == 1
  {
    assert t[0] == t[..4][0] && t[1] == t[..4][1] && t[2] == t[..4][2] && t[3] == t[..4][3];
    assert StandardRun(t[2..], 16) == 1 + StandardRun(t[2..][1..], 16);
  }

  lemma SameEnd(digits: string, b: nat)
    requires 2 <= b <= 36
    ensures digits[DigitRun(digits, b)..] == digits[StandardRun(digits, b)..] <==> !LetterBehind(digits, b)
  {
    RunsCompare(digits, b);
    assert |digits[DigitRun(digits, b)..]| == |digits| - DigitRun(digits, b);
    assert |digits[StandardRun(digits, b)..]| == |digits| - StandardRun(digits, b);
  }

  // *endptr is set, and to what the standard says, exactly on these strings.
  lemma EndExactlyWhen(s: string, base: nat)
    requires base == 0 || 2 <= base <= 36
    ensures StrtoullValue(s, base).1 == Some(StandardEnd(s, base)) <==> EndsAsStandard(s, base)
  {
    var sign := AfterSpaces(s);
    ReadEnd(s, base);
    WhiteSkipped(s);
    if OtherWhite(sign) {
      WhiteEnd(s, base);
    } else if NumberAt(AfterSign(sign), base).Some? {
      NumberEnd(s, base, AfterSign(sign));
    }
  }

  lemma WhiteEnd(s: string, base: nat)
    requires OtherWhite(AfterSpaces(s)) && (base == 0 || 2 <= base <= 36)
    ensures StrtoullValue(s, base).1 == Some(StandardEnd(s, base)) <==> EndsAsStandard(s, base)
  {
    var sign := AfterSpaces(s);
    ReadEnd(s, base);
    WhiteSkipped(s);
    assert AfterSign(sign) == sign && DigitRun(sign, base) == 0;
    assert |AfterWhite(sign)| < |sign| by {
      ShorterAfterWhite(sign[1..]);
    }
  }

  lemma ShorterAfterWhite(s: string)
    ensures |AfterWhite(s)| <= |s|
  {
  }

  lemma NumberEnd(s: string, base: nat, t: string)
    requires base == 0 || 2 <= base <= 36
    requires !OtherWhite(AfterSpaces(s)) && t == AfterSign(AfterSpaces(s)) && NumberAt(t, base).Some?
    ensures StrtoullValue(s, base).1 == Some(StandardEnd(s, base)) <==> EndsAsStandard(s, base)
  {
    ReadEnd(s, base);
    WhiteSkipped(s);
    var (b, digits) := StandardStart(t, base);
    if TwoPrefixes(t, base) {
      BothPrefixesEnd(t);
    } else {
      OrdinaryEnd(t, base);
      SameEnd(digits, b);
      RunsCompare(digits, b);
    }
  }

  // ---- A number of each kind ----

  lemma TwoDigits(s: string, base: nat)
    requires |s| == 2 && StandardDigit(s[0]) < base && StandardDigit(s[1]) < base
    ensures StandardNumber(s, base) == StandardDigit(s[0]) * base + StandardDigit(s[1])
  {
    assert StandardRun(s[1..], base) == 1 + StandardRun(s[1..][1..], base);
    assert s[..2] == s && s[..1][..0] == [];
    assert Horner(s[..1], base) == Horner(s[..1][..0], base) * base + StandardDigit(s[0]);
  }

  lemma Twelve(s: string, base: nat)
    requires s == "12" && (base == 10 || base == 16)
    ensures StandardNumber(s, base) == Value(DigitPrefix(s, base), base) == base + 2
  {
    TwoDigits(s, base);
    assert s[1..] == "2" && DigitRun("2", base) == 1 + DigitRun("2"[1..], base);
    Numbers(s, base);
  }

  // What both give without sign and spaces in front.
  lemma UnsignedValues(s: string, base: nat, read: nat, standard: nat)
    requires base == 0 || 2 <= base <= 36
    requires s != "" && StandardDigit(s[0]) < 36
    requires MagnitudeRead(s, base) == read && StandardMagnitude(s, base) == standard
    ensures StrtoullValue(s, base).0 == ToU64(read)
    ensures StandardValue(s, base) == if standard > ULLONG_MAX then ULLONG_MAX else standard
  {
    assert AfterSpaces(s) == s && AfterSign(s) == s && AfterWhite(s) == s;
    ReadMagnitude(s, base);
  }

  lemma DecimalDifference(s: string)
    requires s == "12"
    ensures StrtoullValue(s, 0).0 == 0 && StandardValue(s, 0) == 12
  {
    Twelve(s, 10);
    UnsignedValues(s, 0, 0, 12);
  }

  lemma UpperPrefixDifference(s: string)
    requires s == "0X12"
    ensures StrtoullValue(s, 16).0 == 0 && StandardValue(s, 16) == 18
  {
    HexReads(s);
    Twelve(s[2..], 16);
    Magnitudes(s, 16);
    UnsignedValues(s, 16, 0, 18);
  }

  // 0x0x12 is 18, and so on, where the standard has 0.
  lemma TwoPrefixesDifference(s: string, n: nat)
    requires TwoPrefixes(s, 0) && Value(DigitPrefix(s[4..], 16), 16) == n
    ensures StrtoullValue(s, 0).0 == ToU64(n) && StandardValue(s, 0) == 0
  {
    BothPrefixesGo(s);
    UnsignedValues(s, 0, n, 0);
  }

  lemma LetterDifference(s: string)
    requires s == "ff"
    ensures StrtoullValue(s, 16).0 == 0 && StandardValue(s, 16) == 255
  {
    TwoDigits(s, 16);
    UnsignedValues(s, 16, 0, 255);
  }

  lemma WhiteDifference(s: string)
    requires s == "\t12"
    ensures StrtoullValue(s, 10).0 == 0 && StandardValue(s, 10) == 12
  {
    ReadMagnitude(s, 10);
    OtherWhiteStops(s, 10);
    assert s[1..] == "12" && AfterWhite(s) == AfterWhite(s[1..]) == s[1..];
    Twelve(s[1..], 10);
  }

  // 2^64
  lemma RangeDifference(s: string)
    requires s == "1" + Zeros(16)
    ensures StrtoullValue(s, 16).0 == 0 && StandardValue(s, 16) == ULLONG_MAX
  {
    OneAndSixteenZeros(s);
    BaseSixteen(s);
    UnsignedValues(s, 16, 0x1_0000_0000_0000_0000, 0x1_0000_0000_0000_0000);
  }

  lemma OneAndSixteenZeros(s: string)
    requires s == "1" + Zeros(16)
    ensures Value(DigitPrefix(s, 16), 16) == StandardNumber(s, 16) == 0x1_0000_0000_0000_0000
  {
    AllDigits(s, 16);
    DigitLoop.ValueOfOneAndZeros(16, 16);
    assert Pow(16, 4) == 0x1_0000 && Pow(16, 8) == 0x1_0000_0000 && Pow(16, 12) == 0x1_0000_0000_0000;
    assert Pow(16, 16) == 0x1_0000_0000_0000_0000;
    Numbers(s, 16);
  }

  lemma {:induction false} AllDigits(s: string, base: nat)
    requires forall i :: 0 <= i < |s| ==> CorrectDigit(s[i], base)
    ensures DigitPrefix(s, base) == s
  {
    if s != [] {
      AllDigits(s[1..], base);
    }
  }
}
