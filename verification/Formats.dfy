/** What each conversion prints, spelled out character by character. */
module Formats {
  import opened NumberFormat
  import opened Vprintf

  /** The format starts with `spec`, which takes one argument and prints `s`. */
  ghost predicate Prints(spec: string, rest: string, args: seq<Arg>, s: string) {
    && args != [] && Matching(rest, args[1..]) && Matching(spec + rest, args)
    && Render(spec + rest, args) == s + Render(rest, args[1..])
  }

  /** What a format of two characters, the first of them a percent sign, starts with. */
  lemma ShortItem(spec: string, rest: string)
    requires |spec| == 2 && spec[0] == '%' && spec[1] != 'l' && !Short(spec[1]).Unknown?
    ensures First(spec + rest) == (Short(spec[1]), 2) && (spec + rest)[2..] == rest
  {
    assert At(spec + rest, 1) == spec[1];
  }

  lemma LongItem(c: char, rest: string)
    ensures var f := "%ll" + [c] + rest;
      First(f) == (if c == 'u' then (Conversion(ULongKind), 4) else if c == 'd' then (Conversion(LongKind), 4) else (Dropped, 3))
      && f[4..] == rest && f[3..] == [c] + rest
  {
    var f := "%ll" + [c] + rest;
    assert f[0] == '%' && At(f, 1) == 'l' && At(f, 2) == 'l' && At(f, 3) == c;
  }

  lemma ShortPrints(spec: string, kind: Kind, rest: string, args: seq<Arg>)
    requires |spec| == 2 && spec[0] == '%' && spec[1] != 'l' && Short(spec[1]) == Conversion(kind)
    requires args != [] && Fits(kind, args[0]) && Matching(rest, args[1..])
    ensures Prints(spec, rest, args, Text(kind, args[0]))
  {
    ShortItem(spec, rest);
  }

  /** %u prints the number in decimal ... */
  lemma UnsignedPrints(rest: string, args: seq<Arg>)
    requires args != [] && args[0].UInt? && args[0].u < UINT_SIZE && Matching(rest, args[1..])
    ensures exists s :: Prints("%u", rest, args, s) && Canonical(s, 10) && Parse(s, 10) == args[0].u
  {
    ShortPrints("%u", UIntKind, rest, args);
    var s := Numeral(args[0].u, 10);
    NumeralParses(args[0].u, 10);
    NumeralCanonical(args[0].u, 10);
    assert Prints("%u", rest, args, s);
  }

  /** ... and %x in hexadecimal. */
  lemma HexPrints(rest: string, args: seq<Arg>)
    requires args != [] && args[0].UInt? && args[0].u < UINT_SIZE && Matching(rest, args[1..])
    ensures exists s :: Prints("%x", rest, args, s) && Canonical(s, 16) && Parse(s, 16) == args[0].u
  {
    ShortPrints("%x", HexKind, rest, args);
    var s := Numeral(args[0].u, 16);
    NumeralParses(args[0].u, 16);
    NumeralCanonical(args[0].u, 16);
    assert Prints("%x", rest, args, s);
  }

  lemma LongUnsignedPrints(rest: string, args: seq<Arg>)
    requires args != [] && args[0].ULongLong? && args[0].ull < ULLONG_SIZE && Matching(rest, args[1..])
    ensures exists s :: Prints("%llu", rest, args, s) && Canonical(s, 10) && Parse(s, 10) == args[0].ull
  {
    LongItem('u', rest);
    assert "%ll" + ['u'] + rest == "%llu" + rest;
    var s := Numeral(args[0].ull, 10);
    NumeralParses(args[0].ull, 10);
    NumeralCanonical(args[0].ull, 10);
    assert Prints("%llu", rest, args, s);
  }

  /** %d prints every int above INT_MIN with its sign ... */
  lemma IntPrints(rest: string, args: seq<Arg>)
    requires args != [] && args[0].Int? && INT_MIN < args[0].i <= INT_MAX && Matching(rest, args[1..])
    ensures exists s :: Prints("%d", rest, args, s) && s == Signed(args[0].i) && ParseSigned(s) == args[0].i
  {
    ShortPrints("%d", IntKind, rest, args);
    TwoAlgorithmsAgree(args[0].i);
    assert Prints("%d", rest, args, IntText(args[0].i, 10));
  }

  /** (INT_MIN comes out as characters below '0'.) */
  lemma LeastIntPrints(rest: string, args: seq<Arg>)
    requires args != [] && args[0] == Int(INT_MIN) && Matching(rest, args[1..])
    ensures Prints("%d", rest, args, "-./,),(-*,(")
  {
    ShortPrints("%d", IntKind, rest, args);
    LeastInt();
  }

  /** ... and %lld every long long. */
  lemma LongPrints(rest: string, args: seq<Arg>)
    requires args != [] && args[0].LongLong? && -ULLONG_SIZE / 2 <= args[0].ll < ULLONG_SIZE / 2 && Matching(rest, args[1..])
    ensures exists s :: Prints("%lld", rest, args, s) && s == Signed(args[0].ll) && ParseSigned(s) == args[0].ll
  {
    LongItem('d', rest);
    assert "%ll" + ['d'] + rest == "%lld" + rest;
    LongTextParses(args[0].ll);
    assert Prints("%lld", rest, args, LongText(args[0].ll, 10));
  }

  /** %c prints one character, the argument cut to 8 bits. */
  lemma CharPrints(rest: string, args: seq<Arg>)
    requires args != [] && args[0].Int? && INT_MIN <= args[0].i <= INT_MAX && Matching(rest, args[1..])
    ensures exists c: char :: Prints("%c", rest, args, [c]) && c as int == args[0].i % 256
  {
    ShortPrints("%c", CharKind, rest, args);
    assert Prints("%c", rest, args, [(args[0].i % 256) as char]);
  }

  /** %s prints the string. */
  lemma StringPrints(rest: string, args: seq<Arg>)
    requires args != [] && args[0].Str? && NoNul(args[0].s) && Matching(rest, args[1..])
    ensures Prints("%s", rest, args, args[0].s)
  {
    ShortPrints("%s", StringKind, rest, args);
  }

  /** A doubled percent sign prints one, and any other character prints itself. */
  lemma PlainPrints(c: char, rest: string, args: seq<Arg>)
    requires Matching(rest, args)
    ensures Matching("%%" + rest, args) && Render("%%" + rest, args) == "%" + Render(rest, args)
    ensures c != '%' ==> Matching([c] + rest, args) && Render([c] + rest, args) == [c] + Render(rest, args)
  {
    ShortItem("%%", rest);
    if c != '%' { assert ([c] + rest)[1..] == rest; }
  }

  /** %ll before anything but u and d prints nothing. */
  lemma LongOtherPrints(c: char, rest: string, args: seq<Arg>)
    requires c != 'u' && c != 'd' && Matching([c] + rest, args)
    ensures var f := "%ll" + [c] + rest; Matching(f, args) && Render(f, args) == Render([c] + rest, args)
  {
    LongItem(c, rest);
  }

  /** Behind an unknown specifier everything is copied, the specifier included. */
  lemma UnknownPrints(c: char, rest: string, args: seq<Arg>)
    requires c !in "csdux%l" || (c == 'l' && (rest == [] || rest[0] != 'l'))
    ensures var f := "%" + [c] + rest; Matching(f, args) && Render(f, args) == f
  {
    var f := "%" + [c] + rest;
    assert f[0] == '%' && At(f, 1) == c && (c == 'l' ==> At(f, 2) != 'l');
    assert First(f) == (Unknown, |f|);
    assert f[|f|..] == [];
  }

  /** Hexadecimal digits are written with small letters. */
  lemma DigitChars(n: nat)
    requires n < 36
    ensures Digit(n) == "0123456789abcdefghijklmnopqrstuvwxyz"[n]
  {
  }
}
