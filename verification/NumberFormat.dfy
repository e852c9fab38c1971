/** Numerals as the C library prints them (libc/stdio/internal.c). */
module NumberFormat {

  const INT_MIN := -0x8000_0000
  const INT_MAX := 0x7FFF_FFFF
  const ULLONG_SIZE := 0x1_0000_0000_0000_0000

  predicate BaseOk(base: int) {
    2 <= base <= 36
  }

  function Digit(d: nat): (c: char)
    requires d < 36
  {
    if d < 10 then '0' + d as char else 'a' + (d - 10) as char
  }

  function DigitValue(c: char): int {
    if '0' <= c <= '9' then c as int - '0' as int
    else if 'a' <= c <= 'z' then c as int - 'a' as int + 10
    else -1
  }

  lemma DigitBack(d: nat)
    requires d < 36
    ensures DigitValue(Digit(d)) == d
  {
  }

  lemma ValueBack(c: char)
    requires DigitValue(c) >= 0
    ensures DigitValue(c) < 36 && Digit(DigitValue(c)) == c
  {
  }

  // ---------------------------------------------------------------- what a numeral is

  /** The digits of `n`, most significant first. */
  function Numeral(n: nat, base: nat): (s: string)
    requires BaseOk(base)
    ensures s != []
  {
    if n < base then [Digit(n)] else Numeral(n / base, base) + [Digit(n % base)]
  }

  function Parse(s: string, base: nat): int {
    if s == [] then 0 else Parse(s[..|s| - 1], base) * base + DigitValue(s[|s| - 1])
  }

  /** A non-empty string of digits of the base, without a leading zero unless it is "0". */
  predicate Canonical(s: string, base: nat) {
    && s != []
    && (forall i :: 0 <= i < |s| ==> 0 <= DigitValue(s[i]) < base)
    && (|s| > 1 ==> s[0] != '0')
  }

  lemma ParseAppend(s: string, c: char, base: nat)
    ensures Parse(s + [c], base) == Parse(s, base) * base + DigitValue(c)
  {
    assert (s + [c])[..|s|] == s;
  }

  lemma {:induction false} Times(x: int, y: int, b: nat)
    ensures x < y ==> x * b + b <= y * b
    decreases y - x
  {
    if x < y {
      Times(x, y - 1, b);
      assert y * b == (y - 1) * b + b;
    }
  }

  lemma Divide(n: nat, b: nat)
    requires b > 0
    ensures 0 <= n % b < b && n == n / b * b + n % b && n / b >= 0
  {
  }

  lemma DivideUnique(n: nat, b: nat, q: int, r: nat)
    requires 0 <= r < b && n == q * b + r
    ensures n / b == q && n % b == r
  {
    Divide(n, b);
    Times(q, n / b, b);
    Times(n / b, q, b);
  }

  lemma DivideLess(n: nat, base: nat)
    requires BaseOk(base) && n >= base
    ensures 0 < n / base < n && 2 * (n / base) <= n
  {
    Divide(n, base);
    Times(n / base, 1, base);
    TwoTimes(n / base, base);
  }

  lemma TwoTimes(q: nat, b: nat)
    requires b >= 2
    ensures 2 * q <= q * b
  {
    assert q * (b - 2) >= 0;
  }

  /** Reading a printed number gives it back. */
  lemma {:induction false} NumeralParses(n: nat, base: nat)
    requires BaseOk(base)
    ensures Parse(Numeral(n, base), base) == n
  {
    if n < base {
      DigitBack(n);
    } else {
      var q, r := n / base, n % base;
      Divide(n, base);
      DivideLess(n, base);
      NumeralParses(q, base);
      DigitBack(r);
      ParseDigit(Numeral(q, base), q, r, base);
    }
  }

  lemma ParseDigit(s: string, q: nat, r: nat, base: nat)
    requires BaseOk(base) && Parse(s, base) == q && r < 36
    ensures Parse(s + [Digit(r)], base) == q * base + r
  {
    ParseAppend(s, Digit(r), base);
    DigitBack(r);
  }

  lemma {:induction false} NumeralCanonical(n: nat, base: nat)
    requires BaseOk(base)
    ensures Canonical(Numeral(n, base), base) && (n > 0 ==> Numeral(n, base)[0] != '0')
  {
    if n < base {
      DigitBack(n);
    } else {
      DivideLess(n, base);
      NumeralCanonical(n / base, base);
      DigitBack(n % base);
    }
  }

  lemma {:induction false} CanonicalPositive(s: string, base: nat)
    requires BaseOk(base) && Canonical(s, base) && s[0] != '0'
    ensures Parse(s, base) > 0
  {
    if |s| == 1 {
      assert DigitValue(s[0]) > 0;
    } else {
      var init := s[..|s| - 1];
      CanonicalPositive(init, base);
      assert Parse(init, base) * base >= 1;
    }
  }

  lemma Carry(q: nat, base: nat, r: nat)
    requires BaseOk(base) && r < base && q > 0
    ensures q * base + r >= base && (q * base + r) / base == q && (q * base + r) % base == r
  {
    Times(0, q, base);
    DivideUnique(q * base + r, base, q, r);
  }

  /** The numeral is the only canonical string that reads as `n`. */
  lemma {:induction false} NumeralUnique(s: string, base: nat)
    requires BaseOk(base) && Canonical(s, base)
    ensures Parse(s, base) >= 0 && s == Numeral(Parse(s, base), base)
  {
    var last := s[|s| - 1];
    ValueBack(last);
    if |s| > 1 {
      var init := s[..|s| - 1];
      NumeralUnique(init, base);
      CanonicalPositive(init, base);
      Carry(Parse(init, base), base, DigitValue(last));
      assert s == init + [last];
    }
  }

  function Pow2(k: nat): nat {
    if k == 0 then 1 else 2 * Pow2(k - 1)
  }

  lemma FourTimes(k: nat)
    ensures Pow2(k + 2) == 4 * Pow2(k)
  {
  }

  lemma EightTimes(k: nat)
    ensures Pow2(k + 8) == 256 * Pow2(k)
  {
    FourTimes(k);
    FourTimes(k + 2);
    FourTimes(k + 4);
    FourTimes(k + 6);
  }

  lemma Pow2Of64()
    ensures Pow2(64) == ULLONG_SIZE
  {
    EightTimes(0);
    EightTimes(8);
    EightTimes(16);
    EightTimes(24);
    EightTimes(32);
    EightTimes(40);
    EightTimes(48);
    EightTimes(56);
  }

  lemma {:induction false} NumeralLength(n: nat, base: nat, k: nat)
    requires BaseOk(base) && k > 0 && n < Pow2(k)
    ensures |Numeral(n, base)| <= k
  {
    if n >= base {
      DivideLess(n, base);
      assert k > 1;
      NumeralLength(n / base, base, k - 1);
    }
  }

  /** 64 digits and the terminator fit the 65-byte buffer of every caller. */
  lemma NumeralFits(n: nat, base: nat)
    requires BaseOk(base) && n < ULLONG_SIZE
    ensures |Numeral(n, base)| <= 64
  {
    Pow2Of64();
    NumeralLength(n, base, 64);
  }

  lemma {:induction false} DecimalLength(n: nat, k: nat)
    requires k > 0 && n < Pow2(3 * k)
    ensures |Numeral(n, 10)| <= k
  {
    if n >= 10 {
      FourTimes(3 * k - 3);
      assert Pow2(3 * k) == 2 * Pow2(3 * k - 1) && 3 * (k - 1) == 3 * k - 3;
      assert k > 1;
      DecimalLength(n / 10, k - 1);
    }
  }

  lemma DecimalFits(n: nat)
    requires n < ULLONG_SIZE
    ensures |Numeral(n, 10)| <= 22
  {
    Pow2Of64();
    FourTimes(64);
    DecimalLength(n, 22);
  }

  // ---------------------------------------------------------------- writing one into a buffer

  function Reversed(s: string): (r: string)
    ensures |r| == |s| && forall i :: 0 <= i < |s| ==> r[i] == s[|s| - 1 - i]
  {
    seq(|s|, i requires 0 <= i < |s| => s[|s| - 1 - i])
  }

  lemma ReversedAppend(s: string, c: char)
    ensures Reversed(s + [c]) == [c] + Reversed(s)
  {
  }

  /** The buffer holds the C string `s` at `at`. */
  predicate Holds(b: string, at: nat, s: string) {
    at + |s| < |b| && b[at..at + |s|] == s && b[at + |s|] == '\0'
  }

  /** __reverse, and the same two-pointer loop inside __utoa and __ulltoa. */
  method ReverseRange(buffer: array<char>, lo: nat, hi: nat)
    requires lo <= hi <= buffer.Length
    modifies buffer
    ensures buffer[..] == old(buffer[..lo]) + Reversed(old(buffer[lo..hi])) + old(buffer[hi..])
  {
    var start, end := lo, hi - 1;
    while start < end
      invariant lo <= start <= end + 2 && start + end == lo + hi - 1
      invariant forall k :: 0 <= k < buffer.Length && (k < lo || hi <= k || start <= k <= end) ==> buffer[k] == old(buffer[k])
      invariant forall k :: lo <= k < start || end < k < hi ==> buffer[k] == old(buffer[lo + hi - 1 - k])
    {
      buffer[start], buffer[end] := buffer[end], buffer[start];
      start := start + 1;
      end := end - 1;
    }
    MiddleReversed(old(buffer[..]), buffer[..], lo, hi);
  }

  lemma MiddleReversed(s: string, r: string, lo: nat, hi: nat)
    requires lo <= hi <= |s| == |r|
    requires forall k :: 0 <= k < |s| && (k < lo || hi <= k) ==> r[k] == s[k]
    requires forall k :: lo <= k < hi ==> r[k] == s[lo + hi - 1 - k]
    ensures r == s[..lo] + Reversed(s[lo..hi]) + s[hi..]
  {
    var t := s[..lo] + Reversed(s[lo..hi]) + s[hi..];
    forall k | 0 <= k < |s| ensures r[k] == t[k] {
      if lo <= k < hi { assert t[k] == Reversed(s[lo..hi])[k - lo]; }
    }
  }

  lemma NumeralStep(n: nat, base: nat, done: string, value: nat)
    requires BaseOk(base) && Numeral(value, base) == Numeral(n, base) + Reversed(done)
    ensures 0 <= n / base && 0 <= n % base < base
    ensures n / base == 0 ==> Numeral(value, base) == Reversed(done + [Digit(n % base)])
    ensures n / base > 0 ==> n / base < n && Numeral(value, base) == Numeral(n / base, base) + Reversed(done + [Digit(n % base)])
  {
    ReversedAppend(done, Digit(n % base));
    Divide(n, base);
    if n >= base { DivideLess(n, base); } else { DivideUnique(n, base, 0, n); }
  }

  method PutChar(buffer: array<char>, ptr: nat, c: char, ghost at: nat)
    requires at <= ptr < buffer.Length
    modifies buffer
    ensures buffer[at..ptr + 1] == old(buffer[at..ptr]) + [c] && buffer[..at] == old(buffer[..at])
  {
    buffer[ptr] := c;
  }

  /** The digit loop of __utoa and __ulltoa: least significant digit first. */
  method WriteDigits(value: nat, buffer: array<char>, at: nat, base: nat) returns (ptr: nat)
    requires BaseOk(base) && at + |Numeral(value, base)| < buffer.Length
    modifies buffer
    ensures ptr == at + |Numeral(value, base)| && Numeral(value, base) == Reversed(buffer[at..ptr])
    ensures buffer[..at] == old(buffer[..at])
  {
    var v: nat := value;
    ptr := at;
    ghost var done := [];
    while true
      invariant at <= ptr <= buffer.Length && done == buffer[at..ptr]
      invariant Numeral(value, base) == Numeral(v, base) + Reversed(done)
      invariant buffer[..at] == old(buffer[..at])
      decreases v
    {
      NumeralStep(v, base, done, value);
      PutChar(buffer, ptr, Digit(v % base), at);
      ptr, done := ptr + 1, done + [Digit(v % base)];
      v := v / base;
      if v == 0 { break; }
    }
  }

  method Utoa(value: nat, buffer: array<char>, at: nat, base: nat)
    requires BaseOk(base) && at + |Numeral(value, base)| < buffer.Length
    modifies buffer
    ensures Holds(buffer[..], at, Numeral(value, base))
    ensures buffer[..at] == old(buffer[..at])
  {
    var ptr := WriteDigits(value, buffer, at, base);
    Finish(buffer, at, ptr);
  }

  /** The terminator is written and the digits before it are put in order. */
  method Finish(buffer: array<char>, at: nat, ptr: nat)
    requires at <= ptr < buffer.Length
    modifies buffer
    ensures Holds(buffer[..], at, Reversed(old(buffer[at..ptr]))) && buffer[..at] == old(buffer[..at])
  {
    buffer[ptr] := '\0';
    ghost var b := buffer[..];
    assert b[at..ptr] == old(buffer[at..ptr]) && b[..at] == old(buffer[..at]);
    ReverseRange(buffer, at, ptr);
    HoldsAfter(b, buffer[..], at, ptr);
  }

  lemma HoldsAfter(b: string, r: string, at: nat, ptr: nat)
    requires at <= ptr < |b| && b[ptr] == '\0' && r == b[..at] + Reversed(b[at..ptr]) + b[ptr..]
    ensures Holds(r, at, Reversed(b[at..ptr])) && r[..at] == b[..at]
  {
  }

  // ---------------------------------------------------------------- signed numbers

  /** The usual decimal form of an integer, and its reading. */
  function Signed(v: int): (s: string) {
    if v < 0 then "-" + Numeral(-v, 10) else Numeral(v, 10)
  }

  function ParseSigned(s: string): int {
    if s != [] && s[0] == '-' then -Parse(s[1..], 10) else Parse(s, 10)
  }

  lemma SignedParses(v: int)
    ensures ParseSigned(Signed(v)) == v
  {
    NumeralParses(if v < 0 then -v else v, 10);
    NumeralCanonical(if v < 0 then -v else v, 10);
    if v < 0 { assert Signed(v)[1..] == Numeral(-v, 10); }
  }

  /** What __lltoa prints: negative numbers get a sign in base 10 only, otherwise their 64-bit pattern is printed. */
  function LongText(v: int, base: nat): (s: string)
    requires BaseOk(base) && v >= -ULLONG_SIZE
  {
    if v < 0 && base == 10 then "-" + Numeral(-v, 10) else Numeral(if v < 0 then ULLONG_SIZE + v else v, base)
  }

  method Lltoa(value: int, buffer: array<char>, base: nat)
    requires BaseOk(base) && -ULLONG_SIZE / 2 <= value < ULLONG_SIZE / 2 && |LongText(value, base)| < buffer.Length
    modifies buffer
    ensures Holds(buffer[..], 0, LongText(value, base))
  {
    var val := if value < 0 then ULLONG_SIZE + value else value;
    var at := 0;
    if value < 0 && base == 10 {
      buffer[0] := '-';
      at := 1;
      val := -(value + 1) + 1;
    }
    Utoa(val, buffer, at, base);
    assert buffer[..][..at] == buffer[..at];
  }

  // ---------------------------------------------------------------- __itoa

  /** C division and remainder: the quotient is cut towards zero. */
  function TruncDiv(a: int, b: int): int
    requires b > 0
  {
    if a >= 0 then a / b else -(-a / b)
  }

  function TruncMod(a: int, b: int): (r: int)
    requires b > 0
    ensures -b < r < b
  {
    if a >= 0 then a % b else -(-a % b)
  }

  /** Negation in 32 bits. */
  function Negate(v: int): int {
    if v == INT_MIN then INT_MIN else -v
  }

  /** A remainder as a character; a negative one falls below '0'. */
  function RemainderChar(rem: int): char
    requires -36 < rem < 36
  {
    if rem > 9 then ('a' as int + rem - 10) as char else ('0' as int + rem) as char
  }

  /** The characters of the remainder loop, least significant first. */
  function Remainders(num: int, base: nat): string
    requires BaseOk(base)
    decreases if num < 0 then -num else num
  {
    if num == 0 then [] else
      TruncShrinks(num, base);
      [RemainderChar(TruncMod(num, base))] + Remainders(TruncDiv(num, base), base)
  }

  lemma TruncShrinks(num: int, base: nat)
    requires BaseOk(base) && num != 0
    ensures Size(TruncDiv(num, base)) < Size(num)
    ensures num > 0 ==> TruncDiv(num, base) >= 0
    ensures num < 0 ==> TruncDiv(num, base) <= 0
  {
    var n := Size(num);
    Divide(n, base);
    if n >= base { DivideLess(n, base); } else { DivideUnique(n, base, 0, n); }
  }

  function Size(v: int): nat {
    if v < 0 then -v else v
  }

  function IntText(num: int, base: nat): (s: string)
    requires BaseOk(base)
  {
    if num == 0 then "0"
    else if num < 0 && base == 10 then Reversed(Remainders(Negate(num), base) + "-")
    else Reversed(Remainders(num, base))
  }

  method Itoa(num: int, str: array<char>, base: nat)
    requires BaseOk(base) && INT_MIN <= num <= INT_MAX && |IntText(num, base)| < str.Length
    modifies str
    ensures Holds(str[..], 0, IntText(num, base))
  {
    if num == 0 {
      str[0] := '0';
      str[1] := '\0';
      return;
    }
    var isNegative := num < 0 && base == 10;
    var i := WriteRemainders(if isNegative then Negate(num) else num, str, base);
    if isNegative {
      PutChar(str, i, '-', 0);
      i := i + 1;
    }
    Finish(str, 0, i);
  }

  method WriteRemainders(num: int, str: array<char>, base: nat) returns (i: nat)
    requires BaseOk(base) && |Remainders(num, base)| < str.Length
    modifies str
    ensures i == |Remainders(num, base)| && str[..i] == Remainders(num, base)
  {
    var n := num;
    i := 0;
    while n != 0
      invariant 0 <= i < str.Length && Remainders(num, base) == str[0..i] + Remainders(n, base)
      decreases Size(n)
    {
      TruncShrinks(n, base);
      PutChar(str, i, RemainderChar(TruncMod(n, base)), 0);
      i := i + 1;
      n := TruncDiv(n, base);
    }
  }

  /** For a positive number the loop yields its digits. */
  lemma {:induction false} RemaindersNumeral(n: nat, base: nat)
    requires BaseOk(base) && n > 0
    ensures Reversed(Remainders(n, base)) == Numeral(n, base)
  {
    TruncShrinks(n, base);
    Divide(n, base);
    if n >= base {
      DivideLess(n, base);
      RemaindersNumeral(n / base, base);
    } else {
      DivideUnique(n, base, 0, n);
    }
  }

  lemma RemainderMirrored(r: int)
    requires 0 <= r < 36
    ensures RemainderChar(-r) as int == '0' as int - DigitValue(RemainderChar(r))
  {
  }

  /** For a negative number it yields the same number of characters, each as far below '0' as the digit is above. */
  lemma {:induction false} RemaindersMirrored(n: int, base: nat, k: nat)
    requires BaseOk(base) && n >= 0 && k < |Remainders(n, base)|
    ensures |Remainders(-n, base)| == |Remainders(n, base)|
    ensures Remainders(-n, base)[k] as int == '0' as int - DigitValue(Remainders(n, base)[k])
  {
    TruncShrinks(n, base);
    TruncShrinks(-n, base);
    if n / base > 0 {
      RemaindersMirrored(n / base, base, if k > 0 then k - 1 else 0);
    }
    RemainderMirrored(n % base);
  }

  /** The sign and the digits of the absolute value. */
  function SignedIn(v: int, base: nat): (s: string)
    requires BaseOk(base)
  {
    (if v < 0 then "-" else "") + Numeral(Size(v), base)
  }

  /** __itoa prints the number with its sign iff it is not negative, or the base is 10 and it is not INT_MIN. */
  lemma IntTextIff(num: int, base: nat)
    requires BaseOk(base) && INT_MIN <= num <= INT_MAX
    ensures IntText(num, base) == SignedIn(num, base) <==> num >= 0 || (base == 10 && num > INT_MIN)
  {
    var n := Size(num);
    if num != 0 { RemaindersNumeral(n, base); }
    if num < 0 {
      assert |Remainders(n, base)| == |Numeral(n, base)|;
      RemaindersMirrored(n, base, 0);
      if base != 10 {
        assert |IntText(num, base)| == |Numeral(n, base)|;
      } else {
        NegativeDecimal(num);
      }
    }
  }

  lemma NegativeDecimal(num: int)
    requires INT_MIN <= num < 0
    ensures IntText(num, 10) == SignedIn(num, 10) <==> num > INT_MIN
  {
    ReversedAppend(Remainders(Negate(num), 10), '-');
    RemaindersNumeral(-num, 10);
    if num == INT_MIN {
      var s := Reversed(Remainders(INT_MIN, 10));
      TruncShrinks(INT_MIN, 10);
      assert Remainders(INT_MIN, 10)[0] == '(';
      assert s[|s| - 1] == '(';
      assert IntText(num, 10) == "-" + s;
      assert Numeral(-num, 10) == Numeral(214748364, 10) + ['8'];
      assert SignedIn(num, 10)[|SignedIn(num, 10)| - 1] == '8';
    }
  }

  lemma OneRemainder(num: int, q: int, r: int)
    requires num < 0 && num == 10 * q + r && q <= 0 && -10 < r <= 0
    ensures Remainders(num, 10) == [RemainderChar(r)] + Remainders(q, 10)
  {
    TruncShrinks(num, 10);
  }

  /** The least int is printed as a minus sign and ten characters that are not digits. */
  lemma LeastInt()
    ensures IntText(INT_MIN, 10) == "-./,),(-*,("
  {
    OneRemainder(-2147483648, -214748364, -8);
    OneRemainder(-214748364, -21474836, -4);
    OneRemainder(-21474836, -2147483, -6);
    OneRemainder(-2147483, -214748, -3);
    OneRemainder(-214748, -21474, -8);
    OneRemainder(-21474, -2147, -4);
    OneRemainder(-2147, -214, -7);
    OneRemainder(-214, -21, -4);
    OneRemainder(-21, -2, -1);
    OneRemainder(-2, 0, -2);
    assert Remainders(INT_MIN, 10) == "(,*-(,),/.";
  }

  /** The two algorithms agree on every int above INT_MIN, and reading their output gives the number back. */
  lemma TwoAlgorithmsAgree(num: int)
    requires INT_MIN < num <= INT_MAX
    ensures IntText(num, 10) == LongText(num, 10) == Signed(num) && ParseSigned(IntText(num, 10)) == num
  {
    IntTextIff(num, 10);
    SignedParses(num);
  }

  /** __lltoa in base 10 is exact for every long long, the least included. */
  lemma LongTextParses(v: int)
    requires -ULLONG_SIZE / 2 <= v < ULLONG_SIZE / 2
    ensures LongText(v, 10) == Signed(v) && ParseSigned(LongText(v, 10)) == v
  {
    SignedParses(v);
  }

  /** Everything these functions print fits the 65-byte buffer, terminator included. */
  lemma TextsFit(v: int, base: nat)
    requires BaseOk(base) && -ULLONG_SIZE / 2 <= v < ULLONG_SIZE / 2
    ensures |LongText(v, base)| <= 64
    ensures INT_MIN <= v <= INT_MAX ==> |IntText(v, base)| <= 64
  {
    if v < 0 && base == 10 { DecimalFits(-v); } else { NumeralFits(if v < 0 then ULLONG_SIZE + v else v, base); }
    if INT_MIN <= v <= INT_MAX && v != 0 {
      var n := Size(v);
      RemaindersNumeral(n, base);
      assert |Remainders(n, base)| == |Numeral(n, base)|;
      RemaindersMirrored(n, base, 0);
      if base == 10 { DecimalFits(n); } else { NumeralFits(n, base); }
    }
  }
}
