// The number parsers: atoi and the strtoull family (lib/libc/stdlib.c) and
// get_value (lib/libc/vsprintf.c).  A C string is the characters before its
// terminator; a pointer into it is the part of it still ahead.
module NumberParser {
  import opened Numerals
  import opened Options
  import Words

  type u64 = x: int | 0 <= x < 0x1_0000_0000_0000_0000

  function ToU64(x: int): u64 {
    x % 0x1_0000_0000_0000_0000
  }

  // *nptr
  function Head(s: string): char {
    if s == [] then NUL else s[0]
  }

  // is_correct_digit
  predicate CorrectDigit(d: char, base: int) {
    if base == 16 then IsXDigit(d)
    else if base == 2 then d == '0' || d == '1'
    else IsDigit(d) && d as int - 0x30 < base
  }

  // ---- What is parsed ----

  function DigitRun(s: string, base: int): (n: nat)
    ensures n <= |s| && forall i :: 0 <= i < n ==> CorrectDigit(s[i], base)
    ensures n < |s| ==> !CorrectDigit(s[n], base)
  {
    if s == [] || !CorrectDigit(s[0], base) then 0 else 1 + DigitRun(s[1..], base)
  }

  function DigitPrefix(s: string, base: int): string {
    s[..DigitRun(s, base)]
  }

  function AfterSign(s: string): string {
    if Head(s) == '+' || Head(s) == '-' then s[1..] else s
  }

  function AfterSpaces(s: string): (r: string)
    ensures |r| <= |s| && Head(r) != ' '
  {
    if Head(s) == ' ' then AfterSpaces(s[1..]) else s
  }

  function Signed(s: string, v: int): int {
    if Head(s) == '-' then -v else v
  }

  // atoi: an optional sign, then the decimal digits up to the first other character
  function AtoiValue(s: string): i32 {
    ToI32(Signed(s, Value(DigitPrefix(AfterSign(s), 10), 10)))
  }

  // hex_process: the digits after an optional 0x, or after a 0; nothing if the
  // next character is no hex digit
  function AfterHexPrefix(s: string): Option<string> {
    var t := if Head(s) != '0' then s else if Head(s[1..]) == 'x' then s[2..] else s[1..];
    if IsXDigit(Head(t)) then Some(t) else None
  }

  // detect_base, for base 0: the base and where the number starts
  function DetectedBase(s: string): Option<(nat, string)> {
    if Head(s) != '0' then None
    else if Head(s[1..]) == 'x' then (if IsXDigit(Head(s[2..])) then Some((16, s[2..])) else None)
    else if IsDigit(Head(s[1..])) then Some((8, s[1..]))
    else None
  }

  // The number behind spaces and sign: where its digits start and in what base,
  // or nothing if the call gives up.
  function NumberAt(t: string, base: nat): Option<(nat, string)> {
    match if base == 0 then DetectedBase(t) else Some((base, t))
    case None => None
    case Some((b, u)) =>
      if b != 16 then Some((b, u))
      else
        match AfterHexPrefix(u)
        case None => None
        case Some(v) => Some((16, v))
  }

  function NumberStart(s: string, base: int): Option<(nat, string)> {
    if base > 36 || base < 0 || base == 1 then None else NumberAt(AfterSign(AfterSpaces(s)), base)
  }

  // The value returned, and the string *endptr is left at, if it is set.
  function StrtoullValue(s: string, base: int): (u64, Option<string>) {
    match NumberStart(s, base)
    case None => (0, None)
    case Some((b, t)) =>
      (ToU64(Signed(AfterSpaces(s), Value(DigitPrefix(t, b), b))), Some(t[DigitRun(t, b)..]))
  }

  // A base that is none: nothing is read, and *endptr stays as it is.
  lemma InvalidBase(s: string, base: int)
    ensures !(base == 0 || 2 <= base <= 36) ==> StrtoullValue(s, base) == (0, None)
  {
  }

  // ---- Arithmetic modulo 2^32 and 2^64 ----

  predicate Same32(a: int, b: int) {
    (a - b) % 0x1_0000_0000 == 0
  }

  predicate Same64(a: int, b: int) {
    (a - b) % 0x1_0000_0000_0000_0000 == 0
  }

  lemma Wrapped32(x: int)
    ensures Same32(ToI32(x), x)
  {
  }

  lemma Wrapped64(x: int)
    ensures Same64(ToU64(x), x)
  {
  }

  lemma Same32Equal(a: int, b: int)
    requires Same32(a, b)
    ensures ToI32(a) == ToI32(b) && ToI32(-a) == ToI32(-b)
  {
  }

  lemma Same64Equal(a: int, b: int)
    requires Same64(a, b)
    ensures ToU64(a) == ToU64(b)
  {
  }

  lemma Same64Negate(a: int, b: int)
    requires Same64(a, b)
    ensures Same64(-a, -b)
  {
  }

  lemma Same64IsSame32(a: int, b: int)
    requires Same64(a, b)
    ensures Same32(a, b)
  {
  }

  lemma Same32Trans(a: int, b: int, c: int)
    requires Same32(a, b) && Same32(b, c)
    ensures Same32(a, c)
  {
  }

  lemma Same32Add(a: int, b: int, c: int, d: int)
    requires Same32(a, b) && Same32(c, d)
    ensures Same32(a + c, b + d)
  {
  }

  lemma Same32Mul(a: int, b: int, d: int)
    requires Same32(a, b)
    ensures Same32(d * a, d * b)
  {
    var k := (a - b) / 0x1_0000_0000;
    assert a - b == 0x1_0000_0000 * k;
    MulAssoc(d, 0x1_0000_0000, k);
    assert d * (a - b) == d * a - d * b;
    assert d * a - d * b == 0x1_0000_0000 * (d * k);
  }

  lemma Same64MulAdd(a: int, b: int, m: int, c: int)
    requires Same64(a, b)
    ensures Same64(a * m + c, b * m + c)
  {
    var k := (a - b) / 0x1_0000_0000_0000_0000;
    assert a - b == 0x1_0000_0000_0000_0000 * k;
    MulAdd(a, -b, m);
    assert (a - b) * m == a * m - b * m;
    MulAssoc(0x1_0000_0000_0000_0000, k, m);
    assert a * m - b * m == 0x1_0000_0000_0000_0000 * (k * m);
  }

  // ---- The parsers ----

  // The loops atoi and get_value share: from the last digit back, each digit
  // times a power of ten kept in a 32-bit int.
  method SumDigits(s: string, start: nat, count: nat) returns (val: i32)
    requires start + count <= |s|
    requires forall k :: start <= k < start + count ==> IsDigit(s[k])
    ensures val == ToI32(Value(s[start..start + count], 10))
  {
    var i := count;
    var p: int := start + count - 1;
    var t: i32 := 1;
    val := 0;
    ghost var done: nat := 0;
    assert s[start + count..start + count] == [];
    while i != 0
      invariant 0 <= i <= count && done == count - i && p == start + i - 1
      invariant Same32(t, Pow(10, done))
      invariant Same32(val, Value(s[p + 1..start + count], 10))
    {
      i := i - 1;
      if !IsDigit(s[p]) {
        assert false;
      }
      val, t := AddDigit(s[p], val, t, s[p + 1..start + count]);
      assert [s[p]] + s[p + 1..start + count] == s[p..start + count];
      p := p - 1;
      done := done + 1;
    }
    Same32Equal(val, Value(s[start..start + count], 10));
  }

  // What a digit adds in front of a tail, with t kept as the power of ten.
  lemma DigitAdds(c: char, val: int, t: int, tail: string, d: int, product: int)
    requires d == DigitValue(c) && product == d * t
    requires Same32(t, Pow(10, |tail|)) && Same32(val, Value(tail, 10))
    ensures Same32(val + product, Value([c] + tail, 10))
  {
    ValueOfFirst(c, tail, 10);
    Same32Mul(t, Pow(10, |tail|), d);
    Same32Add(val, Value(tail, 10), product, d * Pow(10, |tail|));
  }

  lemma PowerGrows(t: int, n: nat)
    requires Same32(t, Pow(10, n))
    ensures Same32(t * 10, Pow(10, n + 1))
  {
    Same32Mul(t, Pow(10, n), 10);
  }

  lemma WrapKeeps(x: int, y: int)
    requires Same32(x, y)
    ensures Same32(ToI32(x), y)
  {
  }

  method AddDigit(c: char, val: i32, t: i32, ghost tail: string) returns (val': i32, t': i32)
    requires IsDigit(c) && Same32(t, Pow(10, |tail|)) && Same32(val, Value(tail, 10))
    ensures Same32(t', Pow(10, |tail| + 1)) && Same32(val', Value([c] + tail, 10))
  {
    var d := c as int % 16;
    assert d == DigitValue(c);
    var product: int := d * t;
    DigitAdds(c, val, t, tail, d, product);
    WrapKeeps(val + product, Value([c] + tail, 10));
    val' := ToI32(val + product);
    PowerGrows(t, |tail|);
    WrapKeeps(t * 10, Pow(10, |tail| + 1));
    t' := ToI32(t * 10);
  }

  // The forward scan both do first: where the run of digits from p ends.
  method SkipDigits(s: string, p: nat) returns (i: nat)
    requires p <= |s|
    ensures i == DigitRun(s[p..], 10)
  {
    i := 0;
    assert s[p + 0..] == s[p..];
    while p + i < |s|
      invariant p + i <= |s|
      invariant DigitRun(s[p..], 10) == i + DigitRun(s[p + i..], 10)
    {
      if !IsDigit(s[p + i]) {
        break;
      }
      assert s[p + i..][1..] == s[p + i + 1..];
      i := i + 1;
    }
  }

  method Atoi(nptr: string) returns (val: i32)
    ensures val == AtoiValue(nptr)
  {
    var flag := false;
    var p := 0;
    if Head(nptr) == '+' {
      p := 1;
    } else if Head(nptr) == '-' {
      flag := true;
      p := 1;
    }
    assert nptr[p..] == AfterSign(nptr);
    var i := SkipDigits(nptr, p);
    assert nptr[p..][..i] == nptr[p..p + i];
    forall k | p <= k < p + i
      ensures IsDigit(nptr[k])
    {
      assert nptr[k] == nptr[p..][k - p];
    }
    val := SumDigits(nptr, p, i);
    if flag {
      NegatedComplement(val, Value(nptr[p..p + i], 10));
      var complement: i32 := -1 - val;
      var next: int := complement;
      val := ToI32(next + 1);
    }
  }

  lemma NegatedComplement(val: i32, v: int)
    requires val == ToI32(v)
    ensures ToI32(-1 - val + 1) == ToI32(-v)
  {
  }

  // get_value: the number at the pointer, which is moved past it
  method GetValue(fmt: string) returns (val: i32, rest: string)
    ensures val == ToI32(Value(DigitPrefix(fmt, 10), 10))
    ensures rest == fmt[DigitRun(fmt, 10)..]
  {
    assert fmt[0..] == fmt;
    var i := SkipDigits(fmt, 0);
    rest := fmt[i..];
    assert fmt[..i] == fmt[0..i];
    val := SumDigits(fmt, 0, i);
  }

  method DetectBase(nptr: string) returns (r: Option<(nat, string)>)
    ensures r == DetectedBase(nptr)
  {
    var base := -1;
    if Head(nptr) == NUL {
      return None;
    }
    var p := nptr;
    if Head(p) == '0' {
      p := p[1..];
      if Head(p) == 'x' {
        p := p[1..];
        if IsXDigit(Head(p)) {
          base := 16;
        }
      } else if IsDigit(Head(p)) {
        base := 8;
      }
    }
    return if base == -1 then None else Some((base, p));
  }

  method HexProcess(nptr: string) returns (r: Option<string>)
    ensures r == AfterHexPrefix(nptr)
  {
    if Head(nptr) == NUL {
      return None;
    }
    var p := nptr;
    if Head(p) == '0' {
      p := p[1..];
      if Head(p) == 'x' {
        p := p[1..];
      }
    }
    return if IsXDigit(Head(p)) then Some(p) else None;
  }

  // The loop over leading zeros.
  method GobbleZeros(nptr: string, base: int) returns (rest: string)
    requires 2 <= base <= 36
    ensures DigitRun(rest, base) <= DigitRun(nptr, base)
    ensures rest[DigitRun(rest, base)..] == nptr[DigitRun(nptr, base)..]
    ensures Value(DigitPrefix(rest, base), base) == Value(DigitPrefix(nptr, base), base)
  {
    rest := nptr;
    while Head(rest) == '0'
      invariant DigitRun(rest, base) <= DigitRun(nptr, base)
      invariant rest[DigitRun(rest, base)..] == nptr[DigitRun(nptr, base)..]
      invariant Value(DigitPrefix(rest, base), base) == Value(DigitPrefix(nptr, base), base)
      decreases |rest|
    {
      DropZero(rest, base);
      rest := rest[1..];
    }
  }

  lemma DropZero(s: string, base: int)
    requires 2 <= base <= 36 && Head(s) == '0'
    ensures DigitRun(s, base) == 1 + DigitRun(s[1..], base)
    ensures s[1..][DigitRun(s[1..], base)..] == s[DigitRun(s, base)..]
    ensures Value(DigitPrefix(s[1..], base), base) == Value(DigitPrefix(s, base), base)
  {
    var t := DigitPrefix(s[1..], base);
    assert DigitPrefix(s, base) == ['0'] + t;
    ValueOfFirst('0', t, base);
  }

  method HornerRound(num: u64, c: char, base: int, mul: int, ghost s: string) returns (next: u64)
    requires base >= 2 && CorrectDigit(c, base) && num == ToU64(Value(s, base))
    requires mul == if s == [] then 1 else base
    ensures next == ToU64(Value(s + [c], base))
  {
    var digit: int := c as int;
    if base == 16 && IsHexChar(c) {
      digit := digit - 'A' as int + 10;
    } else {
      digit := digit - 0x30;
    }
    HornerStep(num, s, c, base, mul, digit);
    next := ToU64(num * mul + digit);
  }

  // The guard of the loop: another digit of the run is ahead.
  lemma RunGuard(nptr: string, base: int, done: nat)
    requires done <= DigitRun(nptr, base)
    ensures CorrectDigit(Head(nptr[done..]), base) <==> done < DigitRun(nptr, base)
  {
  }

  // Horner's rule in 64 bits, with a factor of 1 before the first digit.
  method HornerDigits(nptr: string, base: int) returns (num: u64, rest: string)
    requires 2 <= base <= 36
    ensures num == ToU64(Value(DigitPrefix(nptr, base), base))
    ensures rest == nptr[DigitRun(nptr, base)..]
  {
    ghost var run := DigitRun(nptr, base);
    rest := nptr;
    var mul := 1;
    num := 0;
    ghost var seen := "";
    RunGuard(nptr, base, 0);
    while CorrectDigit(Head(rest), base)
      invariant |seen| <= run && seen == nptr[..|seen|] && rest == nptr[|seen|..]
      invariant num == ToU64(Value(seen, base))
      invariant mul == if seen == "" then 1 else base
      invariant CorrectDigit(Head(rest), base) <==> |seen| < run
      decreases |rest|
    {
      ghost var c := rest[0];
      num := HornerRound(num, rest[0], base, mul, seen);
      mul := base;
      rest := rest[1..];
      seen := seen + [c];
      RunGuard(nptr, base, |seen|);
    }
  }

  lemma HornerStep(num: u64, s: string, c: char, base: int, mul: int, digit: int)
    requires base >= 2 && num == ToU64(Value(s, base)) && digit == DigitValue(c)
    requires mul == if s == [] then 1 else base
    ensures ToU64(num * mul + digit) == ToU64(Value(s + [c], base))
  {
    assert (s + [c])[..|s|] == s;
    if s == [] {
      assert num == 0;
    } else {
      Wrapped64(Value(s, base));
      Same64MulAdd(num, Value(s, base), base, digit);
      Same64Equal(num * base + digit, Value(s, base) * base + digit);
    }
  }

  // num = ~num; num++
  method ComplementPlusOne(num: u64) returns (r: u64)
    ensures forall v: int :: num == ToU64(v) ==> r == ToU64(-v)
  {
    var complement: int := 0xFFFF_FFFF_FFFF_FFFF - num;
    r := ToU64(complement + 1);
    forall v: int | num == ToU64(v)
      ensures r == ToU64(-v)
    {
      var n: int := num;
      Wrapped64(v);
      Same64Negate(n, v);
      Same64Equal(-n, -v);
      Same64Equal(complement + 1, -n);
    }
  }

  method SkipSpaces(nptr: string) returns (p: string)
    ensures p == AfterSpaces(nptr)
  {
    p := nptr;
    while Head(p) == ' '
      invariant AfterSpaces(p) == AfterSpaces(nptr)
      decreases |p|
    {
      p := p[1..];
    }
  }

  // simple_strtoull; `nptr` is None for a NULL string, and `endptr` what *endptr
  // is set to, if there is one and it is set
  method SimpleStrtoull(nptr: Option<string>, hasEnd: bool, base: int) returns (num: u64, endptr: Option<string>)
    ensures nptr == None ==> num == 0 && endptr == None
    ensures nptr.Some? ==> num == StrtoullValue(nptr.value, base).0
    ensures nptr.Some? ==> endptr == if hasEnd then StrtoullValue(nptr.value, base).1 else None
  {
    if nptr == None {
      return 0, None;
    }
    if base > 36 || base < 0 || base == 1 {
      return 0, None;
    }
    var p, b: nat := nptr.value, base;
    p := SkipSpaces(p);
    var negSign := false;
    if Head(p) == '+' {
      p := p[1..];
    } else if Head(p) == '-' {
      negSign := true;
      p := p[1..];
    }
    if b == 0 {
      var detected := DetectBase(p);
      if detected.None? {
        return 0, None;
      }
      b, p := detected.value.0, detected.value.1;
    }
    if b == 16 {
      var digits := HexProcess(p);
      if digits.None? {
        return 0, None;
      }
      p := digits.value;
    }
    p := GobbleZeros(p, b);
    num, p := HornerDigits(p, b);
    endptr := if hasEnd then Some(p) else None;
    if negSign {
      num := ComplementPlusOne(num);
    }
  }

  // unsigned long is 32 bits wide
  method SimpleStrtoul(nptr: Option<string>, hasEnd: bool, base: int) returns (num: Words.u32, endptr: Option<string>)
    ensures nptr == None ==> num == 0 && endptr == None
    ensures nptr.Some? ==> num == Words.ToU32(StrtoullValue(nptr.value, base).0)
    ensures nptr.Some? ==> endptr == if hasEnd then StrtoullValue(nptr.value, base).1 else None
  {
    var wide;
    wide, endptr := SimpleStrtoull(nptr, hasEnd, base);
    num := Words.ToU32(wide);
  }
}
