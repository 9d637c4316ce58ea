// itoa and the integer arms of realize_string (lib/libc/vsprintf.c).
module NumberPrinter {
  import opened DigitLoop
  import opened Numerals
  import opened Words

  // ---- What itoa prints ----

  // Bases 2 and 16, and unsigned conversions, print the bit pattern.
  predicate Negative(value: i32, base: nat, unsignedValue: bool) {
    value < 0 && base != 16 && base != 2 && !unsignedValue
  }

  function Magnitude(value: i32, base: nat, unsignedValue: bool): u32 {
    var v: int := value;
    if Negative(value, base, unsignedValue) then ToU32(-v) else ToU32(v)
  }

  function Fill(c: char, n: int): (s: string)
    ensures |s| == (if n > 0 then n else 0) && forall i :: 0 <= i < |s| ==> s[i] == c
    decreases n
  {
    if n <= 0 then [] else Fill(c, n - 1) + [c]
  }

  function Sign(value: i32, base: nat, unsignedValue: bool): string {
    if Negative(value, base, unsignedValue) then "-" else ""
  }

  // Between sign and terminator: zeros up to a positive width, the digits, and
  // dots up to a negative width.
  function Padded(n: nat, base: nat, fieldwidth: int): string
    requires 2 <= base <= 16
  {
    Fill('0', fieldwidth - NumDigits(n, base)) + DigitText(n, base) + Fill('.', -fieldwidth - NumDigits(n, base))
  }

  function Rendered(value: i32, base: nat, unsignedValue: bool, fieldwidth: int): string
    requires 2 <= base <= 16
  {
    Sign(value, base, unsignedValue) + Padded(Magnitude(value, base, unsignedValue), base, fieldwidth)
  }

  // The printed length is the sign plus the larger of |width| and digit count,
  // always in bases 10 and 16.
  lemma RenderedLength(value: i32, base: nat, unsignedValue: bool, fieldwidth: int)
    requires 2 <= base <= 16
    ensures var width := if fieldwidth < 0 then -fieldwidth else fieldwidth;
            var n := NumDigits(Magnitude(value, base, unsignedValue), base);
            DivisorFits(Magnitude(value, base, unsignedValue), base) ==>
              |Rendered(value, base, unsignedValue, fieldwidth)|
              == |Sign(value, base, unsignedValue)| + (if width > n then width else n)
    ensures base == 10 || base == 16 ==> DivisorFits(Magnitude(value, base, unsignedValue), base)
    ensures forall c :: c in Rendered(value, base, unsignedValue, fieldwidth) ==> c != NUL
  {
    var n := Magnitude(value, base, unsignedValue);
    DivisorFitsTen(n);
    DivisorFitsSixteen(n);
    DigitsDenote(n, base);
    forall i | 0 <= i < |DigitText(n, base)|
      ensures DigitText(n, base)[i] != NUL
    {
      assert DivisorFits(n, base) ==> DigitValue(Digits(n, base)[i]) < base;
    }
  }

  // ---- Writing into a buffer ----

  // `before` with `text` written over it from position `at` on.
  function Patched(before: string, at: nat, text: string): (r: string)
    requires at + |text| <= |before|
    ensures |r| == |before|
  {
    if text == [] then before
    else
      var n := |text| - 1;
      Patched(before, at, text[..n])[at + n := text[n]]
  }

  lemma {:induction false} PatchedIs(before: string, at: nat, text: string)
    requires at + |text| <= |before|
    ensures Patched(before, at, text) == before[..at] + text + before[at + |text|..]
  {
    if text != [] {
      var n := |text| - 1;
      PatchedIs(before, at, text[..n]);
      assert text == text[..n] + [text[n]];
    }
  }

  // `*str = c`, with the ghost text written so far from `at` on.
  method Put(str: array<char>, p: nat, c: char, ghost before: string, ghost at: nat, ghost text: string)
    requires |before| == str.Length && at + |text| < str.Length && p == at + |text|
    requires str[..] == Patched(before, at, text)
    modifies str
    ensures str[..] == Patched(before, at, text + [c])
  {
    str[p] := c;
    assert (text + [c])[..|text|] == text;
    assert str[..] == old(str[..])[p := c];
  }

  // The two padding blocks of itoa: fill characters up to a positive width.
  method PutFill(str: array<char>, p: nat, c: char, width: int, digits: nat,
                 ghost before: string, ghost at: nat, ghost text: string)
    returns (end: nat)
    requires |before| == str.Length && p == at + |text| && at + |text| + |Fill(c, width - digits)| <= str.Length
    requires str[..] == Patched(before, at, text)
    modifies str
    ensures str[..] == Patched(before, at, text + Fill(c, width - digits)) && end == p + |Fill(c, width - digits)|
  {
    end := p;
    ghost var count := width - digits;
    assert text + Fill(c, 0) == text;
    if width > 0 {
      var fillbytes := if width - digits < 0 then 0 else width - digits;
      ghost var done := 0;
      while fillbytes > 0
        invariant end == p + done && 0 <= done <= |Fill(c, count)|
        invariant fillbytes == |Fill(c, count)| - done
        invariant str[..] == Patched(before, at, text + Fill(c, done))
      {
        Put(str, end, c, before, at, text + Fill(c, done));
        assert text + Fill(c, done) + [c] == text + Fill(c, done + 1);
        fillbytes := fillbytes - 1;
        end := end + 1;
        done := done + 1;
      }
    }
  }

  // ---- itoa ----

  // The loop that counts the digits: for (i = 1; uvalue /= base; i++)
  method CountDigits(n: nat, base: nat) returns (i: nat)
    requires base >= 2
    ensures i == NumDigits(n, base)
  {
    i := 1;
    NumDigitsStep(n, base);
    var uvalue: nat := n / base;
    while uvalue != 0
      invariant NumDigits(n, base) == i + if uvalue == 0 then 0 else NumDigits(uvalue, base)
      decreases uvalue
    {
      NumDigitsStep(uvalue, base);
      uvalue := uvalue / base;
      i := i + 1;
    }
  }

  // The digit loop of itoa: from the leading divisor down, a digit each.
  method PutDigits(str: array<char>, p: nat, n: u32, base: nat, digits: nat,
                   ghost before: string, ghost at: nat, ghost text: string)
    returns (end: nat)
    requires 2 <= base <= 16 && digits == NumDigits(n, base)
    requires |before| == str.Length && p == at + |text| && at + |text| + |DigitText(n, base)| <= str.Length
    requires str[..] == Patched(before, at, text)
    modifies str
    ensures str[..] == Patched(before, at, text + DigitText(n, base))
    ensures end == p + |DigitText(n, base)|
  {
    LeadingPower(n, base);
    var div := LeadingDivisor(digits, base);
    ghost var path := LoopPath(n, base, div);
    end := PutPath(str, p, n, div, base, before, at, text, path, DigitText(n, base));
  }

  method PutPath(str: array<char>, p: nat, n: u32, leading: i32, base: nat,
                 ghost before: string, ghost at: nat, ghost text: string,
                 ghost path: seq<(u32, i32)>, ghost all: string)
    returns (end: nat)
    requires base >= 2 && Follows(path, all, base) && path[0] == (n, leading)
    requires |before| == str.Length && p == at + |text| && at + |text| + |all| <= str.Length
    requires str[..] == Patched(before, at, text)
    modifies str
    ensures str[..] == Patched(before, at, text + all) && end == p + |all|
  {
    end := p;
    var div, absValue := leading, n;
    ghost var k := 0;
    assert text + all[..0] == text;
    while div != 0
      invariant 0 <= k <= |all| && path[k] == (absValue, div)
      invariant end == p + k && str[..] == Patched(before, at, text + all[..k])
      decreases |all| - k
    {
      assert k < |all|;
      ghost var c := all[k];
      var d;
      d, absValue, div := NextDigit(absValue, div, base, c, path[k + 1].0, path[k + 1].1);
      Put(str, end, DigitChar(d), before, at, text + all[..k]);
      assert text + all[..k] + [c] == text + all[..k + 1];
      end := end + 1;
      k := k + 1;
    }
    assert k == |all| && all[..k] == all;
  }

  // The three parts of the padded text, each behind what was printed before.
  lemma PaddedParts(text: string, n: nat, base: nat, fieldwidth: int, digits: nat)
    returns (first: string, second: string)
    requires 2 <= base <= 16 && digits == NumDigits(n, base)
    ensures first == text + Fill('0', fieldwidth - digits) && second == first + DigitText(n, base)
    ensures second + Fill('.', -fieldwidth - digits) == text + Padded(n, base, fieldwidth)
  {
    var zeros, dots := Fill('0', fieldwidth - digits), Fill('.', -fieldwidth - digits);
    first, second := text + zeros, text + zeros + DigitText(n, base);
    Regroup(text, zeros, DigitText(n, base), dots);
  }

  lemma Regroup(a: string, b: string, c: string, d: string)
    ensures a + (b + c + d) == a + b + c + d
  {
  }

  method PutPadded(str: array<char>, at0: nat, n: u32, base: nat, fieldwidth: int,
                   ghost before: string, ghost at: nat, ghost text: string)
    returns (end: nat)
    requires 2 <= base <= 16 && |before| == str.Length && at0 == at + |text|
    requires at + |text + Padded(n, base, fieldwidth)| <= str.Length
    requires str[..] == Patched(before, at, text)
    modifies str
    ensures str[..] == Patched(before, at, text + Padded(n, base, fieldwidth))
    ensures end == at + |text + Padded(n, base, fieldwidth)|
  {
    var digits := CountDigits(n, base);
    ghost var first, second := PaddedParts(text, n, base, fieldwidth, digits);
    end := PutFill(str, at0, '0', fieldwidth, digits, before, at, text);
    end := PutDigits(str, end, n, base, digits, before, at, first);
    end := PutFill(str, end, '.', -fieldwidth, digits, before, at, second);
  }

  method Itoa(value: i32, str: array<char>, at: nat, base: nat, unsignedValue: bool, fieldwidth: int)
    requires 2 <= base <= 16
    requires at + |Rendered(value, base, unsignedValue, fieldwidth)| < str.Length
    modifies str
    ensures str[..] == Patched(old(str[..]), at, Rendered(value, base, unsignedValue, fieldwidth) + [NUL])
  {
    ghost var before := str[..];
    ghost var sign := Sign(value, base, unsignedValue);
    var p := at;
    var absValue: u32 := ToU32(value);
    assert Patched(before, at, "") == before;
    if absValue >= 0x8000_0000 && base != 16 && base != 2 && !unsignedValue {
      Put(str, p, '-', before, at, "");
      p := p + 1;
      absValue := Not(absValue);
      absValue := ToU32(absValue + 1);
    }
    assert absValue == Magnitude(value, base, unsignedValue);
    p := PutPadded(str, p, absValue, base, fieldwidth, before, at, sign);
    Put(str, p, NUL, before, at, sign + Padded(absValue, base, fieldwidth));
  }

  // ---- realize_string, the arms %d, %u, %x and %p ----

  const STR_SIZE: nat := 100

  predicate IntegerConversion(conv: char) {
    conv == 'd' || conv == 'u' || conv == 'x' || conv == 'p'
  }

  function BaseOf(conv: char): nat {
    if conv == 'd' || conv == 'u' then 10 else 16
  }

  function Formatted(conv: char, value: i32, fieldwidth: int): string {
    (if conv == 'p' then "0x" else "") + Rendered(value, BaseOf(conv), conv != 'd', fieldwidth)
  }

  // The conversion into the local buffer str.
  method ConvertInteger(fieldwidth: int, conv: char, value: i32) returns (str: array<char>)
    requires IntegerConversion(conv)
    requires |Formatted(conv, value, fieldwidth)| < STR_SIZE
    ensures fresh(str) && str.Length == STR_SIZE
    ensures var text := Formatted(conv, value, fieldwidth); str[..|text|] == text && str[|text|] == NUL
  {
    str := new char[STR_SIZE](_ => NUL);
    var start := 0;
    if conv == 'p' {
      str[0], str[1] := '0', 'x';
      start := 2;
    }
    ghost var before := str[..];
    assert before[..start] == if conv == 'p' then "0x" else "";
    Itoa(value, str, start, BaseOf(conv), conv != 'd', fieldwidth);
    PatchedPrefix(before, start, Rendered(value, BaseOf(conv), conv != 'd', fieldwidth), str[..]);
  }

  lemma FormattedHasNoNul(conv: char, value: i32, fieldwidth: int)
    ensures forall c :: c in Formatted(conv, value, fieldwidth) ==> c != NUL
  {
    RenderedLength(value, BaseOf(conv), conv != 'd', fieldwidth);
  }

  method RealizeString(buf: array<char>, at: nat, fieldwidth: int, conv: char, value: i32) returns (end: nat)
    requires IntegerConversion(conv)
    requires |Formatted(conv, value, fieldwidth)| < STR_SIZE
    requires at + |Formatted(conv, value, fieldwidth)| < buf.Length
    modifies buf
    ensures buf[..] == Patched(old(buf[..]), at, Formatted(conv, value, fieldwidth) + [NUL])
    ensures end == at + |Formatted(conv, value, fieldwidth)|
  {
    var str := ConvertInteger(fieldwidth, conv, value);
    FormattedHasNoNul(conv, value, fieldwidth);
    end := CopyString(str, buf, at, Formatted(conv, value, fieldwidth));
  }

  lemma PatchedPrefix(before: string, at: nat, text: string, after: string)
    requires at + |text| < |before| && after == Patched(before, at, text + [NUL])
    ensures after[..at + |text|] == before[..at] + text && after[at + |text|] == NUL
  {
    PatchedIs(before, at, text + [NUL]);
  }

  // The copy loop at the end of realize_string.
  method CopyString(str: array<char>, buf: array<char>, at: nat, ghost text: string) returns (end: nat)
    requires str != buf && |text| < str.Length && str[..|text|] == text && str[|text|] == NUL
    requires forall c :: c in text ==> c != NUL
    requires at + |text| < buf.Length
    modifies buf
    ensures buf[..] == Patched(old(buf[..]), at, text + [NUL]) && end == at + |text|
  {
    ghost var before := buf[..];
    var i := 0;
    end := at;
    assert Patched(before, at, text[..0]) == before;
    forall k | 0 <= k < |text|
      ensures str[k] == text[k] != NUL
    {
      assert str[..|text|][k] == text[k] && text[k] in text;
    }
    while str[i] != NUL
      invariant 0 <= i <= |text| && end == at + i
      invariant buf[..] == Patched(before, at, text[..i])
      invariant str[..] == old(str[..]) && (i < |text| ==> str[i] == text[i] != NUL)
      decreases |text| - i
    {
      assert i < |text|;
      assert text[..i] + [str[i]] == text[..i + 1];
      Put(buf, end, str[i], before, at, text[..i]);
      i := i + 1;
      end := end + 1;
    }
    assert text[..|text|] == text;
    Put(buf, end, NUL, before, at, text);
  }
}
