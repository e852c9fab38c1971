/** The format interpreter (libc/stdio/vprintf.c and __append). */
module Vprintf {
  import opened NumberFormat

  const EOVERFLOW := 75
  const UINT_SIZE := 0x1_0000_0000

  /** One variable argument, as the conversions read them. */
  datatype Arg = Int(i: int) | UInt(u: nat) | LongLong(ll: int) | ULongLong(ull: nat) | Str(s: string)

  /** %c, %s, %d, %u, %x, %llu, %lld */
  datatype Kind = CharKind | StringKind | IntKind | UIntKind | HexKind | ULongKind | LongKind

  predicate NoNul(s: string) {
    forall i :: 0 <= i < |s| ==> s[i] != '\0'
  }

  predicate Fits(kind: Kind, a: Arg) {
    match kind
    case CharKind => a.Int? && INT_MIN <= a.i <= INT_MAX
    case StringKind => a.Str? && NoNul(a.s)
    case IntKind => a.Int? && INT_MIN <= a.i <= INT_MAX
    case UIntKind => a.UInt? && a.u < UINT_SIZE
    case HexKind => a.UInt? && a.u < UINT_SIZE
    case ULongKind => a.ULongLong? && a.ull < ULLONG_SIZE
    case LongKind => a.LongLong? && -ULLONG_SIZE / 2 <= a.ll < ULLONG_SIZE / 2
  }

  /** The text of one conversion. */
  function Text(kind: Kind, a: Arg): string
    requires Fits(kind, a)
  {
    match kind
    case CharKind => [(a.i % 256) as char]
    case StringKind => a.s
    case IntKind => IntText(a.i, 10)
    case UIntKind => Numeral(a.u, 10)
    case HexKind => Numeral(a.u, 16)
    case ULongKind => Numeral(a.ull, 10)
    case LongKind => LongText(a.ll, 10)
  }

  // ---------------------------------------------------------------- what a format means

  /** What a format starts with: a character to copy, a conversion, a `%ll` that is dropped, or a specifier that is
      not known, after which the rest of the format is copied, percent sign and all. */
  datatype Item = Copy(c: char) | Conversion(kind: Kind) | Dropped | Unknown

  /** Character `i` of a C string. */
  function At(f: string, i: nat): char {
    if i < |f| then f[i] else '\0'
  }

  function Short(c: char): (k: Item) {
    if c == 'c' then Conversion(CharKind)
    else if c == 's' then Conversion(StringKind)
    else if c == 'd' then Conversion(IntKind)
    else if c == 'u' then Conversion(UIntKind)
    else if c == 'x' then Conversion(HexKind)
    else if c == '%' then Copy('%')
    else Unknown
  }

  /** The first item of a format and how many characters it takes. */
  function First(f: string): (r: (Item, nat))
    requires f != []
    ensures 0 < r.1 <= |f|
  {
    if f[0] != '%' then (Copy(f[0]), 1)
    else if At(f, 1) == 'l' && At(f, 2) == 'l' then
      if At(f, 3) == 'u' then (Conversion(ULongKind), 4)
      else if At(f, 3) == 'd' then (Conversion(LongKind), 4)
      else (Dropped, 3)
    else if Short(At(f, 1)).Unknown? then (Unknown, |f|)
    else (Short(At(f, 1)), 2)
  }

  /** The arguments are those the conversions of the format ask for, in order; more may follow. */
  ghost predicate Matching(f: string, args: seq<Arg>)
    decreases |f|
  {
    if f == [] then true else
      var (item, n) := First(f);
      match item
      case Conversion(kind) => args != [] && Fits(kind, args[0]) && Matching(f[n..], args[1..])
      case _ => Matching(f[n..], args)
  }

  /** The whole text a format stands for, one item at a time. */
  ghost function Render(f: string, args: seq<Arg>): string
    requires Matching(f, args)
    decreases |f|
  {
    if f == [] then [] else
      var (item, n) := First(f);
      match item
      case Copy(c) => [c] + Render(f[n..], args)
      case Conversion(kind) => Text(kind, args[0]) + Render(f[n..], args[1..])
      case Dropped => Render(f[n..], args)
      case Unknown => f
  }

  // ---------------------------------------------------------------- how it is emitted

  /** The length of the run of characters before the next percent sign, the first one counted in any case. */
  function RunLength(f: string, n: nat): (r: nat)
    requires 0 < n <= |f|
    ensures n <= r <= |f| && (forall k :: n <= k < r ==> f[k] != '%') && (r < |f| ==> f[r] == '%')
    decreases |f| - n
  {
    if n < |f| && f[n] != '%' then RunLength(f, n + 1) else n
  }

  /** A format that starts with text: an ordinary character or a doubled percent sign. */
  predicate TextAhead(f: string) {
    f != [] && (f[0] != '%' || At(f, 1) == '%')
  }

  /** Where the text run starts and how long it is. */
  function TextRun(f: string): (r: (nat, nat))
    requires TextAhead(f)
    ensures 0 <= r.0 <= 1 && 0 < r.1 && r.0 + r.1 <= |f|
  {
    if f[0] == '%' then (1, RunLength(f[1..], 1)) else (0, RunLength(f, 1))
  }

  lemma CopyStep(f: string, args: seq<Arg>)
    requires Matching(f, args) && f != [] && f[0] != '%'
    ensures Matching(f[1..], args) && Render(f, args) == [f[0]] + Render(f[1..], args)
  {
    assert First(f) == (Copy(f[0]), 1);
  }

  lemma PercentStep(f: string, args: seq<Arg>)
    requires Matching(f, args) && f != [] && f[0] == '%' && At(f, 1) == '%'
    ensures |f| >= 2 && Matching(f[2..], args) && Render(f, args) == ['%'] + Render(f[2..], args)
  {
    assert First(f) == (Copy('%'), 2);
  }

  lemma Glue(f: string, r: nat, rest: string, all: string)
    requires 0 < r <= |f| && all == [f[0]] + (f[1..][..r - 1] + rest)
    ensures all == f[..r] + rest && f[1..][r - 1..] == f[r..]
  {
  }

  /** A run of text renders as itself. */
  lemma {:induction false} RunRenders(f: string, args: seq<Arg>, r: nat)
    requires Matching(f, args) && r <= |f| && forall k :: 0 <= k < r ==> f[k] != '%'
    ensures Matching(f[r..], args) && Render(f, args) == f[..r] + Render(f[r..], args)
    decreases r
  {
    if r > 0 {
      CopyStep(f, args);
      var g := f[1..];
      RunRenders(g, args, r - 1);
      assert g[r - 1..] == f[r..];
      Glue(f, r, Render(f[r..], args), Render(f, args));
    } else {
      assert f[0..] == f;
    }
  }

  lemma TextRenders(f: string, args: seq<Arg>)
    requires Matching(f, args) && TextAhead(f)
    ensures var (skip, n) := TextRun(f);
      Matching(f[skip + n..], args) && Render(f, args) == f[skip..skip + n] + Render(f[skip + n..], args)
  {
    if f[0] == '%' {
      PercentStep(f, args);
      DoubledRenders(f, args, TextRun(f).1);
    } else {
      RunRenders(f, args, TextRun(f).1);
    }
  }

  lemma DoubledRenders(f: string, args: seq<Arg>, n: nat)
    requires 2 <= |f| && Matching(f[2..], args) && 0 < n < |f| && f[1] == '%' && forall k :: 1 < k <= n ==> f[k] != '%'
    ensures Matching(f[n + 1..], args)
    ensures ['%'] + Render(f[2..], args) == f[1..n + 1] + Render(f[n + 1..], args)
  {
    var g := f[2..];
    SkipGlue(f, n);
    RunRenders(g, args, n - 1);
    Associate(['%'], g[..n - 1], Render(f[n + 1..], args));
  }

  lemma Associate(a: string, b: string, c: string)
    ensures a + (b + c) == (a + b) + c
  {
  }

  lemma SkipGlue(f: string, n: nat)
    requires 2 <= |f| && 0 < n < |f| && f[1] == '%'
    ensures f[2..][n - 1..] == f[n + 1..] && ['%'] + f[2..][..n - 1] == f[1..n + 1]
  {
  }

  /** The pieces handed to __append, in order. */
  ghost function Chunks(f: string, args: seq<Arg>): (cs: seq<string>)
    requires Matching(f, args)
    decreases |f|
  {
    if f == [] then []
    else if TextAhead(f) then
      TextRenders(f, args);
      var (skip, n) := TextRun(f);
      [f[skip..skip + n]] + Chunks(f[skip + n..], args)
    else
      var (item, n) := First(f);
      match item
      case Conversion(kind) => [Text(kind, args[0])] + Chunks(f[n..], args[1..])
      case Dropped => Chunks(f[n..], args)
      case _ => [f]
  }

  ghost function Concat(cs: seq<string>): string {
    if cs == [] then [] else cs[0] + Concat(cs[1..])
  }

  /** The pieces make up the rendering. */
  lemma {:induction false} ChunksRender(f: string, args: seq<Arg>)
    requires Matching(f, args)
    ensures Concat(Chunks(f, args)) == Render(f, args)
    decreases |f|
  {
    if f == [] {
    } else if TextAhead(f) {
      TextRenders(f, args);
      var (skip, n) := TextRun(f);
      ChunksRender(f[skip + n..], args);
    } else {
      var (item, n) := First(f);
      match item
      case Conversion(kind) => ChunksRender(f[n..], args[1..]);
      case Dropped => ChunksRender(f[n..], args);
      case _ =>
    }
  }

  /** Pieces are emitted as long as the running count stays an int; the first that would take it beyond stops everything. */
  ghost function Emit(cs: seq<string>, written: nat): (r: (string, int))
    requires written <= INT_MAX
  {
    if cs == [] then ([], written)
    else if |cs[0]| > INT_MAX - written then ([], EOVERFLOW)
    else
      var (out, r) := Emit(cs[1..], written + |cs[0]|);
      (cs[0] + out, r)
  }

  /** Output stopped after `j` whole pieces because the next one would not fit. */
  ghost predicate StoppedAt(cs: seq<string>, written: nat, out: string, j: nat) {
    j < |cs| && out == Concat(cs[..j]) && written + |out| <= INT_MAX < written + |out| + |cs[j]|
  }

  lemma ConcatTake(cs: seq<string>, j: nat)
    requires 0 < |cs| && j < |cs|
    ensures Concat(cs[..j + 1]) == cs[0] + Concat(cs[1..][..j])
  {
    assert cs[..j + 1][1..] == cs[1..][..j];
  }

  lemma {:induction false} EmitMeaning(cs: seq<string>, written: nat)
    requires written <= INT_MAX
    ensures var (out, r) := Emit(cs, written);
      if written + |Concat(cs)| <= INT_MAX then out == Concat(cs) && r == written + |out|
      else r == EOVERFLOW && out <= Concat(cs) && exists j: nat :: StoppedAt(cs, written, out, j)
  {
    var (out, r) := Emit(cs, written);
    if cs == [] {
    } else if |cs[0]| > INT_MAX - written {
      assert StoppedAt(cs, written, out, 0);
    } else {
      var written2 := written + |cs[0]|;
      EmitMeaning(cs[1..], written2);
      if written + |Concat(cs)| > INT_MAX {
        var (out2, _) := Emit(cs[1..], written2);
        var j: nat :| StoppedAt(cs[1..], written2, out2, j);
        ConcatTake(cs, j);
        assert StoppedAt(cs, written, out, j + 1);
      }
    }
  }

  // ---------------------------------------------------------------- the interpreter

  /** putchar gives back the unsigned character it was given, which is never EOF. */
  method PutChar(c: char, out: string) returns (r: int, out2: string)
    ensures r == c as int && out2 == out + [c]
  {
    r, out2 := c as int, out + [c];
  }

  method Print(data: string, out: string) returns (ok: bool, out2: string)
    ensures ok && out2 == out + data
  {
    out2 := out;
    for i := 0 to |data|
      invariant out2 == out + data[..i]
    {
      var r;
      r, out2 := PutChar(data[i], out2);
      if r == -1 { return false, out2; }
      assert data[..i + 1] == data[..i] + [data[i]];
    }
    assert data[..|data|] == data;
    ok := true;
  }

  method Append(data: string, written: nat, out: string) returns (err: int, written2: nat, out2: string)
    requires written <= INT_MAX
    ensures if |data| > INT_MAX - written then err == EOVERFLOW && written2 == written && out2 == out
            else err == 0 && written2 == written + |data| && out2 == out + data
  {
    var maxrem := INT_MAX - written;
    if maxrem < |data| { return EOVERFLOW, written, out; }
    var ok;
    ok, out2 := Print(data, out);
    if !ok { return -1, written, out2; }
    err, written2 := 0, written + |data|;
  }

  method StrLen(buffer: array<char>, ghost s: string) returns (n: nat)
    requires Holds(buffer[..], 0, s) && NoNul(s)
    ensures n == |s| && n < buffer.Length
  {
    n := 0;
    while buffer[n] != '\0'
      invariant n <= |s|
      decreases |s| - n
    {
      assert n < |s| ==> buffer[..][0..|s|][n] == buffer[n];
      n := n + 1;
    }
  }

  lemma NumeralNoNul(n: nat, base: nat)
    requires BaseOk(base)
    ensures NoNul(Numeral(n, base))
  {
    NumeralCanonical(n, base);
  }

  lemma {:induction false} RemaindersNoNul(num: int, base: nat)
    requires BaseOk(base)
    ensures NoNul(Remainders(num, base))
    decreases Size(num)
  {
    if num != 0 {
      TruncShrinks(num, base);
      RemaindersNoNul(TruncDiv(num, base), base);
    }
  }

  lemma IntTextNoNul(num: int)
    ensures NoNul(IntText(num, 10))
  {
    RemaindersNoNul(num, 10);
    RemaindersNoNul(Negate(num), 10);
  }

  /** The string in the buffer, measured with strlen. */
  method Scanned(buffer: array<char>, ghost s: string) returns (text: string)
    requires Holds(buffer[..], 0, s) && NoNul(s)
    ensures text == s
  {
    var n := StrLen(buffer, s);
    text := buffer[..n];
    assert buffer[..][0..n] == text;
  }

  /** One conversion: the argument's text, by way of the scratch buffer where it is a number. */
  method Converted(kind: Kind, a: Arg, buffer: array<char>) returns (text: string)
    requires Fits(kind, a) && buffer.Length == 65
    modifies buffer
    ensures text == Text(kind, a)
  {
    match kind
    case CharKind => text := [(a.i % 256) as char];
    case StringKind => text := a.s;
    case IntKind =>
      TextsFit(a.i, 10);
      IntTextNoNul(a.i);
      Itoa(a.i, buffer, 10);
      text := Scanned(buffer, IntText(a.i, 10));
    case UIntKind => text := ConvertedUnsigned(a.u, 10, buffer);
    case HexKind => text := ConvertedUnsigned(a.u, 16, buffer);
    case ULongKind => text := ConvertedUnsigned(a.ull, 10, buffer);
    case LongKind =>
      TextsFit(a.ll, 10);
      NumeralNoNul(Size(a.ll), 10);
      Lltoa(a.ll, buffer, 10);
      text := Scanned(buffer, LongText(a.ll, 10));
  }

  method ConvertedUnsigned(u: nat, base: nat, buffer: array<char>) returns (text: string)
    requires BaseOk(base) && u < ULLONG_SIZE && buffer.Length == 65
    modifies buffer
    ensures text == Numeral(u, base)
  {
    NumeralFits(u, base);
    NumeralNoNul(u, base);
    Utoa(u, buffer, 0, base);
    text := Scanned(buffer, Numeral(u, base));
  }

  /** Reading the specifier after the percent sign at `begun`. */
  method ReadSpecifier(format: string, begun: nat) returns (item: Item, pos: nat)
    requires begun < |format| && format[begun] == '%' && At(format, begun + 1) != '%' && NoNul(format)
    ensures (item, pos - begun) == First(format[begun..]) && begun < pos <= |format|
  {
    ghost var f := format[begun..];
    assert forall i: nat :: At(f, i) == At(format, begun + i);
    pos := begun + 1;
    if At(format, pos) == 'c' { return Conversion(CharKind), pos + 1; }
    if At(format, pos) == 's' { return Conversion(StringKind), pos + 1; }
    if At(format, pos) == 'd' { return Conversion(IntKind), pos + 1; }
    if At(format, pos) == 'u' { return Conversion(UIntKind), pos + 1; }
    if At(format, pos) == 'x' { return Conversion(HexKind), pos + 1; }
    if At(format, pos) == 'l' {
      pos := pos + 1;
      if At(format, pos) == 'l' {
        pos := pos + 1;
        if At(format, pos) == 'u' { return Conversion(ULongKind), pos + 1; }
        if At(format, pos) == 'd' { return Conversion(LongKind), pos + 1; }
        return Dropped, pos;
      }
    }
    return Unknown, |format|;
  }

  /** The run of text at `pos`. */
  method ReadText(format: string, pos: nat) returns (start: nat, amount: nat)
    requires pos < |format| && TextAhead(format[pos..]) && NoNul(format)
    ensures (start - pos, amount) == TextRun(format[pos..]) && start + amount <= |format|
  {
    ghost var f := format[pos..];
    start := pos;
    if format[start] == '%' { start := start + 1; }
    amount := 1;
    ghost var g := format[start..];
    assert f[start - pos..] == g;
    while At(format, start + amount) != '\0' && At(format, start + amount) != '%'
      invariant 0 < amount <= |g| && RunLength(g, amount) == RunLength(g, 1)
      decreases |g| - amount
    {
      amount := amount + 1;
    }
  }

  /** What is still to be emitted, and the result, when the format's rest is `f` and `written` characters are out. */
  ghost function Tail(f: string, args: seq<Arg>, written: nat): (string, int)
    requires Matching(f, args) && written <= INT_MAX
  {
    Emit(Chunks(f, args), written)
  }

  ghost function After(out: string, tail: (string, int)): (string, int) {
    (out + tail.0, tail.1)
  }

  lemma AfterAfter(out: string, chunk: string, tail: (string, int))
    ensures After(out, After(chunk, tail)) == After(out + chunk, tail)
  {
    assert out + (chunk + tail.0) == out + chunk + tail.0;
  }

  /** Emitting one piece first. */
  ghost predicate StepsTo(f: string, args: seq<Arg>, written: nat, chunk: string, f2: string, args2: seq<Arg>)
    requires written <= INT_MAX && Matching(f, args)
  {
    && Matching(f2, args2)
    && Tail(f, args, written) ==
       if |chunk| > INT_MAX - written then ([], EOVERFLOW) else After(chunk, Tail(f2, args2, written + |chunk|))
  }

  lemma TextSteps(f: string, args: seq<Arg>, written: nat)
    requires Matching(f, args) && written <= INT_MAX && TextAhead(f)
    ensures var (skip, n) := TextRun(f); StepsTo(f, args, written, f[skip..skip + n], f[skip + n..], args)
  {
    TextRenders(f, args);
    var (skip, n) := TextRun(f);
    assert Chunks(f, args)[1..] == Chunks(f[skip + n..], args);
  }

  lemma ItemSteps(f: string, args: seq<Arg>, written: nat)
    requires Matching(f, args) && written <= INT_MAX && f != [] && !TextAhead(f)
    ensures var (item, n) := First(f);
      match item
      case Conversion(kind) => args != [] && Fits(kind, args[0]) && StepsTo(f, args, written, Text(kind, args[0]), f[n..], args[1..])
      case Dropped => Matching(f[n..], args) && Tail(f, args, written) == Tail(f[n..], args, written)
      case _ => StepsTo(f, args, written, f, [], args)
  {
    var (item, n) := First(f);
    match item
    case Conversion(kind) => assert Chunks(f, args)[1..] == Chunks(f[n..], args[1..]);
    case Copy(_) =>
    case Dropped =>
    case Unknown => assert Chunks(f, args)[1..] == Chunks([], args);
  }

  lemma AfterNothing(out: string, r: int)
    ensures After(out, ([], r)) == (out, r) && After([], (out, r)) == (out, r)
  {
    assert out + [] == out && [] + out == out;
  }

  /** One call of __append: either the piece is out and the rest remains, or this was the end. */
  method AppendChunk(chunk: string, written: nat, out: string, ghost f: string, ghost args: seq<Arg>, ghost f2: string,
      ghost args2: seq<Arg>)
    returns (err: int, written2: nat, out2: string)
    requires written <= INT_MAX && Matching(f, args) && StepsTo(f, args, written, chunk, f2, args2)
    ensures err == 0 ==> written2 <= INT_MAX && After(out, Tail(f, args, written)) == After(out2, Tail(f2, args2, written2))
    ensures err != 0 ==> After(out, Tail(f, args, written)) == (out2, err)
  {
    err, written2, out2 := Append(chunk, written, out);
    if err == 0 {
      AfterAfter(out, chunk, Tail(f2, args2, written2));
    } else {
      AfterNothing(out, err);
    }
  }

  lemma TextStepsAt(format: string, pos: nat, args: seq<Arg>, written: nat, start: nat, amount: nat)
    requires pos < |format| && Matching(format[pos..], args) && written <= INT_MAX && TextAhead(format[pos..])
    requires (start - pos, amount) == TextRun(format[pos..])
    ensures pos <= start < start + amount <= |format|
    ensures StepsTo(format[pos..], args, written, format[start..start + amount], format[start + amount..], args)
  {
    var f := format[pos..];
    TextSteps(f, args, written);
    assert f[start - pos..start - pos + amount] == format[start..start + amount];
    assert f[start - pos + amount..] == format[start + amount..];
  }

  lemma ItemStepsAt(format: string, pos: nat, args: seq<Arg>, k: nat, written: nat, item: Item, next: nat)
    requires pos < next <= |format| && k <= |args| && Matching(format[pos..], args[k..]) && written <= INT_MAX
    requires !TextAhead(format[pos..]) && (item, next - pos) == First(format[pos..])
    ensures match item
      case Conversion(kind) => k < |args| && Fits(kind, args[k])
        && StepsTo(format[pos..], args[k..], written, Text(kind, args[k]), format[next..], args[k + 1..])
      case Dropped => Matching(format[next..], args[k..])
        && Tail(format[pos..], args[k..], written) == Tail(format[next..], args[k..], written)
      case _ => StepsTo(format[pos..], args[k..], written, format[pos..], [], args[k..])
  {
    ItemSteps(format[pos..], args[k..], written);
    assert format[pos..][next - pos..] == format[next..];
    if k < |args| { assert args[k..][1..] == args[k + 1..]; }
  }

  /** One step: the same text in all is still to come out, and the format has grown shorter. */
  ghost predicate Progress(format: string, result: (string, int), pos: nat, args: seq<Arg>, written: nat, out: string) {
    pos <= |format| && written <= INT_MAX && Matching(format[pos..], args)
    && result == After(out, Tail(format[pos..], args, written))
  }

  method StepText(format: string, pos: nat, ghost args: seq<Arg>, written: nat, out: string, ghost result: (string, int))
    returns (err: int, pos2: nat, written2: nat, out2: string)
    requires pos < |format| && NoNul(format) && Progress(format, result, pos, args, written, out) && TextAhead(format[pos..])
    ensures err == 0 ==> pos < pos2 && Progress(format, result, pos2, args, written2, out2)
    ensures err != 0 ==> result == (out2, err)
  {
    var start, amount := ReadText(format, pos);
    TextStepsAt(format, pos, args, written, start, amount);
    pos2 := start + amount;
    err, written2, out2 := AppendChunk(format[start..pos2], written, out, format[pos..], args, format[pos2..], args);
  }

  method StepItem(format: string, pos: nat, args: seq<Arg>, k: nat, written: nat, out: string, buffer: array<char>,
      ghost result: (string, int))
    returns (err: int, pos2: nat, k2: nat, written2: nat, out2: string)
    requires pos < |format| && NoNul(format) && k <= |args| && Progress(format, result, pos, args[k..], written, out)
    requires format[pos] == '%' && At(format, pos + 1) != '%' && buffer.Length == 65
    modifies buffer
    ensures err == 0 ==> pos < pos2 && k2 <= |args| && Progress(format, result, pos2, args[k2..], written2, out2)
    ensures err != 0 ==> result == (out2, err)
  {
    assert At(format[pos..], 1) == At(format, pos + 1);
    var item;
    item, pos2 := ReadSpecifier(format, pos);
    ItemStepsAt(format, pos, args, k, written, item, pos2);
    k2 := k;
    match item
    case Conversion(kind) =>
      var text := Converted(kind, args[k], buffer);
      k2 := k + 1;
      err, written2, out2 := AppendChunk(text, written, out, format[pos..], args[k..], format[pos2..], args[k2..]);
    case Dropped =>
      err, written2, out2 := 0, written, out;
    case Copy(_) => assert false;
    case Unknown =>
      err, written2, out2 := AppendChunk(format[pos..], written, out, format[pos..], args[k..], [], args[k..]);
      pos2 := |format|;
  }

  /** The pieces come out one by one until the format ends or the count would no longer be an int. */
  method Interpret(format: string, args: seq<Arg>) returns (r: int, out: string)
    requires NoNul(format) && Matching(format, args)
    ensures (out, r) == Emit(Chunks(format, args), 0)
  {
    var buffer := new char[65];
    var pos: nat, k: nat, written: nat, err := 0, 0, 0, 0;
    out := [];
    assert format[0..] == format && args[0..] == args;
    ghost var result := Tail(format, args, 0);
    AfterNothing(result.0, result.1);
    while pos < |format|
      invariant k <= |args| && Progress(format, result, pos, args[k..], written, out)
      decreases |format| - pos
    {
      if format[pos] != '%' || At(format, pos + 1) == '%' {
        assert At(format[pos..], 1) == At(format, pos + 1);
        err, pos, written, out := StepText(format, pos, args[k..], written, out, result);
      } else {
        err, pos, k, written, out := StepItem(format, pos, args, k, written, out, buffer, result);
      }
      if err != 0 { return err, out; }
    }
    r := written;
    AfterNothing(out, r);
  }

  /** vprintf emits exactly the rendering of its format and returns its length, if that is an int; otherwise it
      returns EOVERFLOW and what it has emitted is a prefix of the rendering. */
  method Vprintf(format: string, args: seq<Arg>) returns (r: int, out: string)
    requires NoNul(format) && Matching(format, args)
    ensures if |Render(format, args)| <= INT_MAX then out == Render(format, args) && r == |out|
            else r == EOVERFLOW && out <= Render(format, args) && |out| <= INT_MAX
    ensures (out, r) == Emit(Chunks(format, args), 0)
  {
    ChunksRender(format, args);
    EmitMeaning(Chunks(format, args), 0);
    r, out := Interpret(format, args);
  }

  /** The returned number is the length of the rendering iff that is an int; and EOVERFLOW, being positive, is also what
      a 75-character rendering returns. */
  lemma ResultIff(format: string, args: seq<Arg>)
    requires Matching(format, args)
    ensures var r := Emit(Chunks(format, args), 0).1; var n := |Render(format, args)|;
      (r == n <==> n <= INT_MAX) && (r == EOVERFLOW <==> n > INT_MAX || n == EOVERFLOW)
  {
    ChunksRender(format, args);
    EmitMeaning(Chunks(format, args), 0);
  }
}
