/**
 Formatted output of the R7 loader (CortexR7_Loader/common/printf.c): `sprintf` into a buffer and
 `tf_printf` to the console, each with its own integer, hexadecimal and string printers. A C string is
 the sequence of the characters before its terminator, and a 32-bit argument its bit pattern.
 */
module Printf {
  import opened BitWords

  const NUL: char := '\0'
  const SIGN: nat := 0x8000_0000
  const MODULUS: nat := 0x1_0000_0000

  type CString = s: string | NUL !in s

  datatype Arg = Num(bits: Word) | Text(text: CString)

  datatype Format = NullFormat | Format(text: CString)

  // ---- numerals

  predicate IsDigit(c: char) { '0' <= c <= '9' }

  predicate Digits(s: string) { forall i :: 0 <= i < |s| ==> IsDigit(s[i]) }

  /** A numeral without leading zeros. */
  predicate Canonical(s: string) {
    Digits(s) && |s| > 0 && (s[0] == '0' ==> |s| == 1)
  }

  function DigitChar(d: nat): char
    requires d < 10
  {
    (48 + d) as char
  }

  function Decimal(n: nat): (s: string) {
    if n < 10 then [DigitChar(n)] else Decimal(n / 10) + [DigitChar(n % 10)]
  }

  /** What a reader of decimal digits makes of them. */
  function Value(s: string): nat
    requires Digits(s)
  {
    if s == [] then 0 else 10 * Value(s[..|s| - 1]) + (s[|s| - 1] as nat - 48)
  }

  lemma {:induction false} DecimalReads(n: nat)
    ensures Canonical(Decimal(n)) && Value(Decimal(n)) == n
    ensures n > 0 ==> Decimal(n)[0] != '0'
  {
    if n >= 10 {
      DecimalReads(n / 10);
      assert Decimal(n)[..|Decimal(n)| - 1] == Decimal(n / 10);
    }
  }

  lemma {:induction false} DecimalOf(s: string)
    requires Canonical(s)
    ensures s == Decimal(Value(s))
  {
    var k := |s| - 1;
    var n := Value(s);
    assert s == s[..k] + [s[k]] && s[k] == DigitChar(n % 10);
    if k > 0 {
      DecimalOf(s[..k]);
      CanonicalIsPositive(s[..k]);
      assert n / 10 == Value(s[..k]);
    }
  }

  /** The decimal text of `n` is the one canonical numeral that reads as `n`. */
  lemma DecimalIsTheNumeral(n: nat, s: string)
    ensures s == Decimal(n) <==> Canonical(s) && Value(s) == n
  {
    DecimalReads(n);
    if Canonical(s) { DecimalOf(s); }
  }

  lemma {:induction false} CanonicalIsPositive(s: string)
    requires Digits(s) && |s| > 0 && s[0] != '0'
    ensures Value(s) > 0
  {
    if |s| > 1 { CanonicalIsPositive(s[..|s| - 1]); }
  }

  function Pow10(k: nat): nat { if k == 0 then 1 else 10 * Pow10(k - 1) }

  lemma {:induction false} DecimalLength(n: nat, k: nat)
    requires k > 0 && n < Pow10(k)
    ensures 0 < |Decimal(n)| <= k
  {
    if n >= 10 { DecimalLength(n / 10, k - 1); }
  }

  /** The digits of a 32-bit number fit the ten places of the digit buffer. */
  lemma TenDigitsSuffice(n: Word)
    ensures 0 < |Decimal(n)| <= 10
  {
    assert Pow10(5) == 100000;
    assert Pow10(10) == 10000000000;
    DecimalLength(n, 10);
  }

  // ---- signed numbers

  /** A bit pattern read as `int32_t`. */
  function Signed(w: Word): int {
    if w < SIGN then w else w - MODULUS
  }

  /** The magnitude as the code computes it: `(uint32_t)-num`, which keeps the lowest `int32_t`. */
  function Magnitude(w: Word): Word {
    if w < SIGN then w else MODULUS - w
  }

  function Sign(w: Word): string { if w < SIGN then [] else ['-'] }

  function SignedText(w: Word): string { Sign(w) + Decimal(Magnitude(w)) }

  function SignedValue(s: string): int
    requires |s| > 0 && (if s[0] == '-' then Digits(s[1..]) else Digits(s))
  {
    if s[0] == '-' then 0 - Value(s[1..]) else Value(s)
  }

  /** Reading a rendered signed number back gives the number, for the lowest `int32_t` too. */
  lemma SignedRoundTrip(w: Word)
    ensures Digits(SignedText(w)[if w < SIGN then 0 else 1..])
    ensures SignedText(w)[0] == '-' <==> Signed(w) < 0
    ensures SignedValue(SignedText(w)) == Signed(w)
  {
    DecimalReads(Magnitude(w));
    if w >= SIGN {
      assert SignedText(w)[1..] == Decimal(Magnitude(w));
    } else {
      assert SignedText(w) == Decimal(Magnitude(w));
    }
  }

  // ---- hexadecimal

  predicate IsHexDigit(c: char) { '0' <= c <= '9' || 'a' <= c <= 'f' }

  predicate HexDigits(s: string) { forall i :: 0 <= i < |s| ==> IsHexDigit(s[i]) }

  function HexChar(d: nat): char
    requires d < 16
  {
    if d < 10 then (48 + d) as char else (97 + d - 10) as char
  }

  /** The `k` lowest hexadecimal digits of `n`. */
  function HexText(n: nat, k: nat): (s: string)
    ensures |s| == k
  {
    if k == 0 then [] else HexText(n / 16, k - 1) + [HexChar(n % 16)]
  }

  function HexValue(s: string): nat
    requires HexDigits(s)
  {
    if s == [] then 0 else
      var c := s[|s| - 1];
      16 * HexValue(s[..|s| - 1]) + (if c <= '9' then c as nat - 48 else c as nat - 97 + 10)
  }

  lemma Pow16(m: nat)
    requires m >= 4
    ensures Pow2(m) == 16 * Pow2(m - 4)
  {
    assert Pow2(m - 2) == 2 * Pow2(m - 3);
    assert Pow2(m - 3) == 2 * Pow2(m - 4);
  }

  lemma {:induction false} HexReads(n: nat, k: nat)
    requires n < Pow2(4 * k)
    ensures HexDigits(HexText(n, k)) && HexValue(HexText(n, k)) == n
  {
    if k > 0 {
      Pow16(4 * k);
      HexReads(n / 16, k - 1);
      assert HexText(n, k)[..k - 1] == HexText(n / 16, k - 1);
    }
  }

  lemma {:induction false} HexIsOf(s: string)
    requires HexDigits(s)
    ensures s == HexText(HexValue(s), |s|)
  {
    if s != [] {
      var k := |s| - 1;
      HexIsOf(s[..k]);
      var n := HexValue(s);
      assert n / 16 == HexValue(s[..k]) && HexChar(n % 16) == s[k];
      assert s == s[..k] + [s[k]];
    }
  }

  /** The digits printed for `n` are the only `k` lower-case digits that read as `n`. */
  lemma HexIsTheNumeral(n: nat, k: nat, s: string)
    requires n < Pow2(4 * k)
    ensures s == HexText(n, k) <==> |s| == k && HexDigits(s) && HexValue(s) == n
  {
    HexReads(n, k);
    if HexDigits(s) { HexIsOf(s); }
  }

  lemma NibbleIs(a: nat)
    ensures And(a, 15) == a % 16
  {
    LowFour(a / 16, a % 16);
  }

  /** The shifted and masked digits are those of the text, from the front. */
  lemma {:induction false} HexAt(n: nat, k: nat, i: nat)
    requires i < k
    ensures And(Shr(n, (k - 1 - i) * 4), 15) < 16
    ensures HexText(n, k)[i] == HexChar(And(Shr(n, (k - 1 - i) * 4), 15))
  {
    NibbleIs(Shr(n, (k - 1 - i) * 4));
    if i < k - 1 {
      ShrNibble(n, (k - 1 - i) * 4);
      HexAt(n / 16, k - 1, i);
    }
  }

  // ---- rendering

  /** Conversion characters that consume an argument. */
  predicate Takes(c: char) { c == 'i' || c == 'd' || c == 's' || c == 'x' || c == 'u' }

  /** The arguments serve the format: one of the right kind for each conversion, and no lone `%` last. */
  predicate Serves(fmt: string, args: seq<Arg>) {
    if fmt == [] then true
    else if fmt[0] != '%' then Serves(fmt[1..], args)
    else if |fmt| == 1 then false
    else if Takes(fmt[1]) then
      args != [] && (args[0].Text? <==> fmt[1] == 's') && Serves(fmt[2..], args[1..])
    else Serves(fmt[2..], args)
  }

  function Conversion(c: char, arg: Arg): string
    requires Takes(c) && (arg.Text? <==> c == 's')
  {
    if c == 's' then arg.text
    else if c == 'x' then HexText(arg.bits, 8)
    else if c == 'u' then Decimal(arg.bits)
    else SignedText(arg.bits)
  }

  /** What a format and its arguments stand for; an unknown conversion stands for nothing. */
  function Render(fmt: string, args: seq<Arg>): string
    requires Serves(fmt, args)
  {
    if fmt == [] then []
    else if fmt[0] != '%' then [fmt[0]] + Render(fmt[1..], args)
    else if Takes(fmt[1]) then Conversion(fmt[1], args[0]) + Render(fmt[2..], args[1..])
    else Render(fmt[2..], args)
  }

  function Effective(fmt: Format): CString {
    if fmt.NullFormat? then "(fmt null)\n" else fmt.text
  }

  /** What `%u` and `%x` print reads as the number. */
  lemma UnsignedMeans(v: Word)
    ensures Canonical(Conversion('u', Num(v))) && Value(Conversion('u', Num(v))) == v
    ensures |Conversion('x', Num(v))| == 8 && HexDigits(Conversion('x', Num(v)))
    ensures HexValue(Conversion('x', Num(v))) == v
  {
    DecimalReads(v);
    Width32();
    HexReads(v, 8);
  }

  /** What `%d` and `%i` print: the number, or for a set sign bit a minus and how far it is from `2^32`. */
  lemma SignedMeans(v: Word, d: string)
    requires d == Conversion('d', Num(v))
    ensures Conversion('i', Num(v)) == d
    ensures v < 0x8000_0000 ==> Canonical(d) && Value(d) == v
    ensures v >= 0x8000_0000 ==>
              |d| > 1 && d[0] == '-' && Canonical(d[1..]) && Value(d[1..]) == 0x1_0000_0000 - v
  {
    DecimalReads(Magnitude(v));
    WithSign(v, Decimal(Magnitude(v)));
  }

  lemma WithSign(v: Word, d: string)
    ensures v < SIGN ==> Sign(v) + d == d
    ensures v >= SIGN ==> (Sign(v) + d)[0] == '-' && (Sign(v) + d)[1..] == d
  {
  }

  lemma StringMeans(text: CString)
    ensures Conversion('s', Text(text)) == text
  {
  }

  /** A literal character stands for itself, a conversion for its argument, and any other after a `%` for nothing. */
  lemma RenderPieces(c: char, arg: Arg)
    ensures c != '%' ==> Serves([c], []) && Render([c], []) == [c]
    ensures Takes(c) && (arg.Text? <==> c == 's') ==>
              Serves(['%', c], [arg]) && Render(['%', c], [arg]) == Conversion(c, arg)
    ensures !Takes(c) ==> Serves(['%', c], []) && Render(['%', c], []) == []
  {
    assert [c][1..] == [] && ['%', c][2..] == [] && [arg][1..] == [];
    assert Render([], []) == [];
    if Takes(c) && (arg.Text? <==> c == 's') {
      assert Render(['%', c], [arg]) == Conversion(c, arg) + [];
    }
  }

  /** The first character or conversion of a format, and what it prints. */
  function Step(f: string): nat { if f == [] || f[0] != '%' then 1 else 2 }

  predicate Consumes(f: string) { |f| > 1 && f[0] == '%' && Takes(f[1]) }

  function Piece(f: string, a: seq<Arg>): string
    requires f != [] && (Consumes(f) ==> a != [] && (a[0].Text? <==> f[1] == 's'))
  {
    if f[0] != '%' then [f[0]] else if Consumes(f) then Conversion(f[1], a[0]) else []
  }

  /** A format is served and rendered piece by piece. */
  lemma RenderBegins(f: string, a: seq<Arg>)
    requires f != []
    ensures Serves(f, a) <==>
              Step(f) <= |f| && (Consumes(f) ==> a != [] && (a[0].Text? <==> f[1] == 's'))
              && Serves(f[Step(f)..], if Consumes(f) then a[1..] else a)
    ensures Serves(f, a) ==>
              Render(f, a) == Piece(f, a) + Render(f[Step(f)..], if Consumes(f) then a[1..] else a)
              && Taken(f) == (if Consumes(f) then 1 else 0) + Taken(f[Step(f)..])
  {
  }

  /** The rendering of two formats after each other is the two renderings after each other. */
  lemma {:induction false} RenderConcat(f: string, a: seq<Arg>, g: string, b: seq<Arg>)
    requires Serves(f, a) && |a| == Taken(f) && Serves(g, b)
    ensures Serves(f + g, a + b) && Render(f + g, a + b) == Render(f, a) + Render(g, b)
  {
    if f == [] {
      assert f + g == g && a + b == b;
      assert Render(f, a) + Render(g, b) == Render(g, b);
    } else {
      RenderBegins(f, a);
      var rest, restArgs := f[Step(f)..], if Consumes(f) then a[1..] else a;
      RenderConcat(rest, restArgs, g, b);
      ConcatStep(f, a, g, b, rest, restArgs);
    }
  }

  /** The first piece of `f` is the first piece of `f + g`. */
  lemma FirstPiece(f: string, a: seq<Arg>, g: string, b: seq<Arg>)
    requires f != [] && Step(f) <= |f| && (Consumes(f) ==> a != [] && (a[0].Text? <==> f[1] == 's'))
    ensures f + g != [] && Step(f + g) == Step(f) <= |f + g| && (Consumes(f + g) <==> Consumes(f))
    ensures (f + g)[Step(f)..] == f[Step(f)..] + g
    ensures Consumes(f) ==> (a + b)[0] == a[0] && (f + g)[1] == f[1] && (a + b)[1..] == a[1..] + b
    ensures Piece(f + g, a + b) == Piece(f, a)
  {
    assert (f + g)[0] == f[0];
    if |f| > 1 { assert (f + g)[1] == f[1]; }
  }

  lemma ConcatStep(f: string, a: seq<Arg>, g: string, b: seq<Arg>, rest: string, restArgs: seq<Arg>)
    requires Serves(f, a) && f != [] && Step(f) <= |f| && Serves(g, b)
    requires Consumes(f) ==> a != [] && (a[0].Text? <==> f[1] == 's')
    requires rest == f[Step(f)..] && restArgs == if Consumes(f) then a[1..] else a
    requires Serves(rest, restArgs) && Serves(rest + g, restArgs + b)
    requires Render(rest + g, restArgs + b) == Render(rest, restArgs) + Render(g, b)
    ensures Serves(f + g, a + b) && Render(f + g, a + b) == Render(f, a) + Render(g, b)
  {
    FirstPiece(f, a, g, b);
    RenderBegins(f, a);
    WithPiece(f + g, a + b, Piece(f, a), rest + g, restArgs + b);
    Join(Piece(f, a), Render(rest, restArgs), Render(g, b));
  }

  lemma WithPiece(f: string, a: seq<Arg>, piece: string, rest: string, restArgs: seq<Arg>)
    requires f != [] && Step(f) <= |f| && (Consumes(f) ==> a != [] && (a[0].Text? <==> f[1] == 's'))
    requires piece == Piece(f, a) && rest == f[Step(f)..] && restArgs == (if Consumes(f) then a[1..] else a)
    requires Serves(rest, restArgs)
    ensures Serves(f, a) && Render(f, a) == piece + Render(rest, restArgs)
  {
    RenderBegins(f, a);
  }

  lemma Join(a: string, b: string, c: string)
    ensures a + (b + c) == (a + b) + c
  {
  }

  /** A format without `%` stands for itself. */
  lemma {:induction false} RenderPlain(f: string, a: seq<Arg>)
    requires '%' !in f
    ensures Serves(f, a) && Render(f, a) == f
  {
    if f != [] { RenderPlain(f[1..], a); }
  }

  /** A null format prints a note. */
  lemma NullFormatPrints(a: seq<Arg>)
    ensures Serves(Effective(NullFormat), a) && Render(Effective(NullFormat), a) == "(fmt null)\n"
  {
    RenderPlain("(fmt null)\n", a);
  }

  // ---- what a rendering tells

  predicate StartsNoDigit(s: string) { s == [] || !IsDigit(s[0]) }

  /** Every rendering has the same length: no decimal number and no string. */
  predicate FixedWidth(fmt: string) {
    if fmt == [] then true
    else if fmt[0] != '%' then FixedWidth(fmt[1..])
    else if |fmt| == 1 then false
    else FixedWidth(fmt[2..]) && (Takes(fmt[1]) ==> fmt[1] == 'x')
  }

  /**
   Every decimal number but the last is followed by a literal that is no digit, and there are no strings.
   What follows the last one may be anything.
   */
  predicate Separated(fmt: string) {
    if fmt == [] then true
    else if fmt[0] != '%' then Separated(fmt[1..])
    else if |fmt| == 1 || fmt[1] == 's' then false
    else Separated(fmt[2..])
         && (Takes(fmt[1]) && fmt[1] != 'x' && !FixedWidth(fmt[2..]) ==> fmt[2] != '%' && !IsDigit(fmt[2]))
  }

  /** How many arguments a format consumes. */
  function Taken(fmt: string): nat {
    if |fmt| == 0 then 0
    else if fmt[0] != '%' || |fmt| == 1 then Taken(fmt[1..])
    else (if Takes(fmt[1]) then 1 else 0) + Taken(fmt[2..])
  }

  lemma {:induction false} TakenAreThere(fmt: string, args: seq<Arg>)
    requires Serves(fmt, args)
    ensures Taken(fmt) <= |args|
  {
    if fmt != [] {
      if fmt[0] != '%' { TakenAreThere(fmt[1..], args); }
      else if Takes(fmt[1]) { TakenAreThere(fmt[2..], args[1..]); }
      else { TakenAreThere(fmt[2..], args); }
    }
  }

  /** The number of leading digits. */
  function Span(s: string): nat {
    if s == [] || !IsDigit(s[0]) then 0 else 1 + Span(s[1..])
  }

  lemma {:induction false} SpanOf(a: string, x: string)
    requires Digits(a) && StartsNoDigit(x)
    ensures Span(a + x) == |a|
  {
    if a == [] {
      assert a + x == x;
    } else {
      assert (a + x)[1..] == a[1..] + x;
      SpanOf(a[1..], x);
    }
  }

  lemma SplitAt(a: string, x: string, b: string, y: string)
    requires |a| == |b| && a + x == b + y
    ensures a == b && x == y
  {
    assert a == (a + x)[..|a|] && b == (b + y)[..|a|];
    assert x == (a + x)[|a|..] && y == (b + y)[|a|..];
  }

  lemma DecimalIsReadable(v: nat, w: nat, x: string, y: string)
    requires StartsNoDigit(x) && StartsNoDigit(y) && Decimal(v) + x == Decimal(w) + y
    ensures v == w && x == y
  {
    DecimalReads(v);
    DecimalReads(w);
    SpanOf(Decimal(v), x);
    SpanOf(Decimal(w), y);
    SplitAt(Decimal(v), x, Decimal(w), y);
  }

  lemma SignedIsReadable(v: Word, w: Word, x: string, y: string)
    requires StartsNoDigit(x) && StartsNoDigit(y) && SignedText(v) + x == SignedText(w) + y
    ensures v == w && x == y
  {
    SignIsReadable(v, x);
    SignIsReadable(w, y);
    DecimalIsReadable(Magnitude(v), Magnitude(w), x, y);
  }

  lemma SignIsReadable(v: Word, x: string)
    ensures |SignedText(v)| > 0
    ensures (SignedText(v) + x)[0] == '-' <==> v >= SIGN
    ensures (SignedText(v) + x)[if v < SIGN then 0 else 1..] == Decimal(Magnitude(v)) + x
  {
    var d := Decimal(Magnitude(v));
    DecimalReads(Magnitude(v));
    if v < SIGN {
      assert SignedText(v) == d && (d + x)[0..] == d + x && (d + x)[0] == d[0];
    } else {
      assert SignedText(v) == ['-'] + d && (['-'] + d + x)[1..] == d + x;
    }
  }

  lemma HexIsReadable(v: Word, w: Word, x: string, y: string)
    requires HexText(v, 8) + x == HexText(w, 8) + y
    ensures v == w && x == y
  {
    Width32();
    SplitAt(HexText(v, 8), x, HexText(w, 8), y);
    HexReads(v, 8);
    HexReads(w, 8);
  }

  lemma {:induction false} SameWidth(fmt: string, a: seq<Arg>, b: seq<Arg>)
    requires FixedWidth(fmt) && Serves(fmt, a) && Serves(fmt, b)
    ensures |Render(fmt, a)| == |Render(fmt, b)|
  {
    if fmt != [] {
      if fmt[0] != '%' { SameWidth(fmt[1..], a, b); }
      else if Takes(fmt[1]) { SameWidth(fmt[2..], a[1..], b[1..]); }
      else { SameWidth(fmt[2..], a, b); }
    }
  }

  /** A number is determined by its text. */
  lemma ConversionIsInjective(c: char, v: Word, w: Word)
    requires Takes(c) && c != 's' && Conversion(c, Num(v)) == Conversion(c, Num(w))
    ensures v == w
  {
    if c == 'x' {
      HexIsReadable(v, w, [], []);
    } else if c == 'u' {
      DecimalIsReadable(v, w, [], []);
    } else {
      SignedIsReadable(v, w, [], []);
    }
  }

  /** One number conversion in front of a text can be read off unambiguously. */
  lemma ConversionIsReadable(c: char, v: Word, w: Word, x: string, y: string)
    requires Takes(c) && c != 's'
    requires c != 'x' ==> |x| == |y| || (StartsNoDigit(x) && StartsNoDigit(y))
    requires Conversion(c, Num(v)) + x == Conversion(c, Num(w)) + y
    ensures v == w && x == y
  {
    if |x| == |y| {
      SplitAt(Conversion(c, Num(v)), x, Conversion(c, Num(w)), y);
      ConversionIsInjective(c, v, w);
    } else if c == 'x' {
      HexIsReadable(v, w, x, y);
    } else if c == 'u' {
      DecimalIsReadable(v, w, x, y);
    } else {
      SignedIsReadable(v, w, x, y);
    }
  }

  lemma RestStartsNoDigit(fmt: string, args: seq<Arg>)
    requires Serves(fmt, args) && (|fmt| > 0 ==> fmt[0] != '%' && !IsDigit(fmt[0]))
    ensures StartsNoDigit(Render(fmt, args))
  {
  }

  /** From a rendering by a separated format every number it shows can be recovered. */
  lemma {:induction false} NumbersAreRecoverable(fmt: string, a: seq<Arg>, b: seq<Arg>)
    requires Separated(fmt) && Serves(fmt, a) && Serves(fmt, b) && Render(fmt, a) == Render(fmt, b)
    ensures Taken(fmt) <= |a| && Taken(fmt) <= |b| && a[..Taken(fmt)] == b[..Taken(fmt)]
  {
    TakenAreThere(fmt, a);
    TakenAreThere(fmt, b);
    if fmt == [] {
    } else if fmt[0] != '%' {
      assert Render(fmt[1..], a) == Render(fmt, a)[1..] && Render(fmt[1..], b) == Render(fmt, b)[1..];
      NumbersAreRecoverable(fmt[1..], a, b);
    } else if Takes(fmt[1]) {
      var x, y := Render(fmt[2..], a[1..]), Render(fmt[2..], b[1..]);
      if fmt[1] != 'x' {
        if FixedWidth(fmt[2..]) {
          SameWidth(fmt[2..], a[1..], b[1..]);
        } else {
          RestStartsNoDigit(fmt[2..], a[1..]);
          RestStartsNoDigit(fmt[2..], b[1..]);
        }
      }
      ConversionIsReadable(fmt[1], a[0].bits, b[0].bits, x, y);
      NumbersAreRecoverable(fmt[2..], a[1..], b[1..]);
      var n := Taken(fmt);
      assert a[..n] == [a[0]] + a[1..][..n - 1] && b[..n] == [b[0]] + b[1..][..n - 1];
    } else {
      NumbersAreRecoverable(fmt[2..], a, b);
    }
  }

  /** Without a separator two different argument lists can look the same. */
  lemma AdjacentNumbersAreAmbiguous()
    ensures Serves("%u%u", [Num(1), Num(23)]) && Serves("%u%u", [Num(12), Num(3)])
    ensures Render("%u%u", [Num(1), Num(23)]) == Render("%u%u", [Num(12), Num(3)])
  {
    assert Decimal(1) == "1" && Decimal(12) == "12" && Decimal(23) == "23" && Decimal(3) == "3";
    RenderTwo(1, 23);
    RenderTwo(12, 3);
    assert "1" + "23" == "12" + "3";
  }

  lemma RenderTwo(v: Word, w: Word)
    ensures Serves("%u%u", [Num(v), Num(w)])
    ensures Render("%u%u", [Num(v), Num(w)]) == Decimal(v) + Decimal(w)
  {
    assert "%u%u"[2..] == "%u" && [Num(v), Num(w)][1..] == [Num(w)];
    assert "%u"[2..] == [] && [Num(w)][1..] == [];
    assert Render("%u", [Num(w)]) == Decimal(w) + [];
  }

  // ---- C strings

  /** The C string at the start of `s`. */
  function UpToNul(s: seq<char>): string {
    if s == [] || s[0] == NUL then [] else [s[0]] + UpToNul(s[1..])
  }

  lemma {:induction false} ReadsBack(text: CString, rest: seq<char>)
    ensures UpToNul(text + [NUL] + rest) == text
  {
    if text != [] {
      assert (text + [NUL] + rest)[1..] == text[1..] + [NUL] + rest;
      ReadsBack(text[1..], rest);
    }
  }

  lemma {:induction false} HexHasNoNul(n: nat, k: nat)
    ensures NUL !in HexText(n, k)
  {
    if k > 0 { HexHasNoNul(n / 16, k - 1); }
  }

  lemma {:induction false} RenderHasNoNul(fmt: string, args: seq<Arg>)
    requires Serves(fmt, args) && NUL !in fmt
    ensures NUL !in Render(fmt, args)
  {
    if fmt == [] {
    } else if fmt[0] != '%' {
      RenderHasNoNul(fmt[1..], args);
    } else if Takes(fmt[1]) {
      RenderHasNoNul(fmt[2..], args[1..]);
      if fmt[1] == 'x' {
        HexHasNoNul(args[0].bits, 8);
      } else if fmt[1] != 's' {
        var m := if fmt[1] == 'u' then args[0].bits else Magnitude(args[0].bits);
        DecimalReads(m);
      }
      assert NUL !in Conversion(fmt[1], args[0]);
    } else {
      RenderHasNoNul(fmt[2..], args);
    }
  }

  // ---- digits

  /** The digit loop of the integer printers: the digits of `num`, the lowest first. */
  method FillDigits(num: Word) returns (num_buf: array<char>, i: nat)
    ensures fresh(num_buf) && num_buf.Length == 10
    ensures i == |Decimal(num)| <= 10
    ensures forall j :: 0 <= j < i ==> num_buf[j] == Decimal(num)[i - 1 - j]
  {
    ghost var text := Decimal(num);
    TenDigitsSuffice(num);
    num_buf := new char[10];
    i := 0;
    var unum := num;
    while true
      invariant i < |text| <= 10 && Decimal(unum) == text[..|text| - i]
      invariant forall j :: 0 <= j < i ==> num_buf[j] == text[|text| - 1 - j]
      decreases unum
    {
      var rem := unum % 10;
      assert Decimal(unum)[|Decimal(unum)| - 1] == DigitChar(rem);
      num_buf[i] := (48 + rem) as char;
      i := i + 1;
      if unum >= 10 {
        assert Decimal(unum / 10) == Decimal(unum)[..|Decimal(unum)| - 1];
        TenDigitsSuffice(unum / 10);
      }
      unum := unum / 10;
      if unum < 1 { break; }
    }
  }

  /** The loop body of the hexadecimal printers: digit `i`, the highest first. */
  method HexDigitAt(num: Word, i: nat) returns (c: char)
    requires i < 8
    ensures c == HexText(num, 8)[i]
  {
    HexAt(num, 8, i);
    var d := And(Shr(num, (7 - i) * 4), 0x0F);
    if d >= 0x0A { d := d + (97 - 0x0A); } else { d := d + 48; }
    c := d as char;
  }

  // ---- console

  class Console {
    var out: string

    method Putc(c: char)
      modifies this
      ensures out == old(out) + [c]
    {
      out := out + [c];
    }

    method Uint32Print(num: Word) returns (count: nat)
      modifies this
      ensures out == old(out) + Decimal(num) && count == |Decimal(num)|
    {
      var num_buf, i := FillDigits(num);
      ghost var text := Decimal(num);
      count := 0;
      while i != 0
        invariant count + i == |text| && 0 <= i <= 10 && out == old(out) + text[..count]
        invariant forall j :: 0 <= j < i ==> num_buf[j] == text[|text| - 1 - j]
      {
        i := i - 1;
        Putc(num_buf[i]);
        count := count + 1;
      }
    }

    method Int32Print(num: Word) returns (count: nat)
      modifies this
      ensures out == old(out) + SignedText(num) && count == |SignedText(num)|
    {
      count := 0;
      if num >= SIGN {
        Putc('-');
        count := 1;
      }
      var n := Uint32Print(Magnitude(num));
      count := count + n;
    }

    method Uint32HexPrint(num: Word) returns (count: nat)
      modifies this
      ensures out == old(out) + HexText(num, 8) && count == 8
    {
      count := 0;
      for i := 0 to 8
        invariant count == i && out == old(out) + HexText(num, 8)[..i]
      {
        var c := HexDigitAt(num, i);
        Putc(c);
        count := count + 1;
      }
    }

    method StrPrint(str: CString) returns (count: nat)
      modifies this
      ensures out == old(out) + str && count == |str|
    {
      count := 0;
      while count < |str|
        invariant 0 <= count <= |str| && out == old(out) + str[..count]
      {
        Putc(str[count]);
        count := count + 1;
      }
    }

    /** The switch over the conversion characters; an unknown one prints nothing. */
    method PutConversion(c: char, arg: Arg) returns (count: nat)
      requires Takes(c) ==> (arg.Text? <==> c == 's')
      modifies this
      ensures out == old(out) + if Takes(c) then Conversion(c, arg) else []
      ensures count == if Takes(c) then |Conversion(c, arg)| else 0
    {
      count := 0;
      if c == 'i' || c == 'd' {
        count := Int32Print(arg.bits);
      } else if c == 's' {
        count := StrPrint(arg.text);
      } else if c == 'x' {
        count := Uint32HexPrint(arg.bits);
      } else if c == 'u' {
        count := Uint32Print(arg.bits);
      }
    }

    /** `tf_printf`: the console receives exactly the rendering. */
    method TfPrintf(fmt: CString, args: seq<Arg>)
      requires Serves(fmt, args)
      modifies this
      ensures out == old(out) + Render(fmt, args)
    {
      var k, next, count := 0, 0, 0;
      ghost var done: string := [];
      DoneStarts(fmt, args);
      while k < |fmt|
        invariant Done(fmt, args, k, next, done)
        invariant Printed(old(out), out, done) && count == |done|
      {
        ghost var before := done;
        DoneGrows(fmt, args, k, next, done);
        if fmt[k] == '%' {
          k := k + 1;
          var takes := Takes(fmt[k]);
          var arg := if takes then args[next] else Num(0);
          var n := PutConversion(fmt[k], arg);
          count := count + n;
          if takes {
            done := done + Conversion(fmt[k], arg);
            next := next + 1;
            PrintedThen(old(out), before, Conversion(fmt[k], arg));
          } else {
            PrintedThen(old(out), before, []);
          }
        } else {
          PrintedThen(old(out), done, [fmt[k]]);
          Putc(fmt[k]);
          done := done + [fmt[k]];
          count := count + 1;
        }
        k := k + 1;
      }
      DoneEnds(fmt, args, k, next, done);
    }
  }

  predicate Printed(was: string, now: string, text: string) { now == was + text }

  lemma PrintedThen(was: string, s: string, t: string)
    ensures Printed(was, was + s + t, s + t)
    ensures t == [] ==> s + t == s
  {
    assert was + s + t == was + (s + t);
  }

  // ---- progress of a rendering

  /** At position `k` of the format and `next` of the arguments, `done` has been produced. */
  ghost predicate Done(fmt: string, args: seq<Arg>, k: nat, next: nat, done: string)
    requires Serves(fmt, args)
  {
    k <= |fmt| && next <= |args| && Serves(fmt[k..], args[next..])
    && Render(fmt, args) == done + Render(fmt[k..], args[next..])
  }

  lemma DoneStarts(fmt: string, args: seq<Arg>)
    requires Serves(fmt, args)
    ensures Done(fmt, args, 0, 0, [])
  {
    assert fmt[0..] == fmt && args[0..] == args && [] + Render(fmt, args) == Render(fmt, args);
  }

  lemma DoneEnds(fmt: string, args: seq<Arg>, k: nat, next: nat, done: string)
    requires Serves(fmt, args) && Done(fmt, args, k, next, done)
    ensures |done| <= |Render(fmt, args)|
    ensures k == |fmt| ==> done == Render(fmt, args)
  {
  }

  lemma DoneGrows(fmt: string, args: seq<Arg>, k: nat, next: nat, done: string)
    requires Serves(fmt, args) && Done(fmt, args, k, next, done) && k < |fmt|
    ensures fmt[k] != '%' ==>
              Done(fmt, args, k + 1, next, done + [fmt[k]])
              && |done + [fmt[k]]| <= |Render(fmt, args)|
    ensures fmt[k] == '%' ==> k + 1 < |fmt|
    ensures fmt[k] == '%' && !Takes(fmt[k + 1]) ==> Done(fmt, args, k + 2, next, done)
    ensures fmt[k] == '%' && Takes(fmt[k + 1]) ==>
              next < |args| && (args[next].Text? <==> fmt[k + 1] == 's')
              && Done(fmt, args, k + 2, next + 1, done + Conversion(fmt[k + 1], args[next]))
              && |done + Conversion(fmt[k + 1], args[next])| <= |Render(fmt, args)|
  {
    StepAt(fmt, args, k, next);
    var all := Render(fmt, args);
    if fmt[k] != '%' {
      Regroup(all, done, [fmt[k]], Render(fmt[k + 1..], args[next..]));
    } else if Takes(fmt[k + 1]) {
      Regroup(all, done, Conversion(fmt[k + 1], args[next]), Render(fmt[k + 2..], args[next + 1..]));
    }
  }

  lemma Regroup(all: string, a: string, b: string, c: string)
    requires all == a + (b + c)
    ensures all == (a + b) + c && |a + b| <= |all|
  {
  }

  /** One step of a rendering, at positions in the format and the arguments. */
  lemma StepAt(fmt: string, args: seq<Arg>, k: nat, next: nat)
    requires k < |fmt| && next <= |args| && Serves(fmt[k..], args[next..])
    ensures fmt[k] != '%' ==>
              Serves(fmt[k + 1..], args[next..])
              && Render(fmt[k..], args[next..]) == [fmt[k]] + Render(fmt[k + 1..], args[next..])
    ensures fmt[k] == '%' ==> k + 1 < |fmt|
    ensures fmt[k] == '%' && !Takes(fmt[k + 1]) ==>
              Serves(fmt[k + 2..], args[next..])
              && Render(fmt[k..], args[next..]) == Render(fmt[k + 2..], args[next..])
    ensures fmt[k] == '%' && Takes(fmt[k + 1]) ==>
              next < |args| && (args[next].Text? <==> fmt[k + 1] == 's')
              && Serves(fmt[k + 2..], args[next + 1..])
              && Render(fmt[k..], args[next..])
                 == Conversion(fmt[k + 1], args[next]) + Render(fmt[k + 2..], args[next + 1..])
  {
    var f, a := fmt[k..], args[next..];
    assert f[0] == fmt[k] && f[1..] == fmt[k + 1..];
    if k + 1 < |fmt| { assert f[1] == fmt[k + 1] && f[2..] == fmt[k + 2..]; }
    if a != [] { assert a[0] == args[next] && a[1..] == args[next + 1..]; }
  }

  // ---- buffer

  /** `text` was written from `at` on, and nothing else changed. */
  predicate Wrote(was: seq<char>, now: seq<char>, at: nat, text: string) {
    at + |text| <= |was| && now == was[..at] + text + was[at + |text|..]
  }

  lemma WroteThen(was: seq<char>, mid: seq<char>, now: seq<char>, at: nat, s: string, t: string)
    requires Wrote(was, mid, at, s) && Wrote(mid, now, at + |s|, t)
    ensures Wrote(was, now, at, s + t)
  {
    assert mid[..at + |s|] == was[..at] + s;
    assert mid[at + |s| + |t|..] == was[at + |s| + |t|..];
  }

  lemma WritesNothing(was: seq<char>, at: nat)
    requires at <= |was|
    ensures Wrote(was, was, at, [])
  {
  }

  lemma WroteNothing(was: seq<char>, now: seq<char>, at: nat)
    requires Wrote(was, now, at, [])
    ensures now == was
  {
  }

  lemma Terminated(was: seq<char>, now: seq<char>, text: CString)
    requires Wrote(was, now, 0, text + [NUL])
    ensures UpToNul(now) == text
  {
    ReadsBack(text, was[|text| + 1..]);
    assert now == text + [NUL] + was[|text| + 1..];
  }

  /** `buf[at] = c`, after `done` was written. */
  method Store(buf: array<char>, at: nat, ghost start: nat, ghost was: seq<char>, ghost done: string, c: char)
    requires at < buf.Length && at == start + |done| && Wrote(was, buf[..], start, done)
    modifies buf
    ensures Wrote(was, buf[..], start, done + [c])
  {
    ghost var mid := buf[..];
    buf[at] := c;
    assert Wrote(mid, buf[..], at, [c]);
    WroteThen(was, mid, buf[..], start, done, [c]);
  }

  method Uint32Sprint(num: Word, buf: array<char>, at: nat) returns (count: nat)
    requires at + |Decimal(num)| <= buf.Length
    modifies buf
    ensures Wrote(old(buf[..]), buf[..], at, Decimal(num)) && count == |Decimal(num)|
  {
    var num_buf, i := FillDigits(num);
    ghost var text := Decimal(num);
    count := 0;
    while i != 0
      invariant count + i == |text| && 0 <= i <= 10
      invariant Wrote(old(buf[..]), buf[..], at, text[..count])
      invariant forall j :: 0 <= j < i ==> num_buf[j] == text[|text| - 1 - j]
      modifies buf
    {
      i := i - 1;
      assert text[..count + 1] == text[..count] + [num_buf[i]];
      Store(buf, at + count, at, old(buf[..]), text[..count], num_buf[i]);
      count := count + 1;
    }
    assert text[..count] == text;
  }

  /** The sign of a number, if it has one. */
  method SprintSign(num: Word, buf: array<char>, at: nat) returns (count: nat)
    requires at + |Sign(num)| <= buf.Length
    modifies buf
    ensures Wrote(old(buf[..]), buf[..], at, Sign(num)) && count == |Sign(num)|
  {
    WritesNothing(buf[..], at);
    count := 0;
    if num >= SIGN {
      Store(buf, at, at, buf[..], [], '-');
      count := 1;
    }
  }

  method Int32Sprint(num: Word, buf: array<char>, at: nat) returns (count: nat)
    requires at + |SignedText(num)| <= buf.Length
    modifies buf
    ensures Wrote(old(buf[..]), buf[..], at, SignedText(num)) && count == |SignedText(num)|
  {
    ghost var was := buf[..];
    count := SprintSign(num, buf, at);
    ghost var mid := buf[..];
    var n := Uint32Sprint(Magnitude(num), buf, at + count);
    WroteThen(was, mid, buf[..], at, Sign(num), Decimal(Magnitude(num)));
    count := count + n;
  }

  method Uint32HexSprint(num: Word, buf: array<char>, at: nat) returns (count: nat)
    requires at + 8 <= buf.Length
    modifies buf
    ensures Wrote(old(buf[..]), buf[..], at, HexText(num, 8)) && count == 8
  {
    ghost var text := HexText(num, 8);
    count := 0;
    for i := 0 to 8
      invariant count == i && Wrote(old(buf[..]), buf[..], at, text[..i])
    {
      var c := HexDigitAt(num, i);
      assert text[..i + 1] == text[..i] + [c];
      Store(buf, at + count, at, old(buf[..]), text[..i], c);
      count := count + 1;
    }
    assert text[..8] == text;
  }

  method StrSprint(str: CString, buf: array<char>, at: nat) returns (count: nat)
    requires at + |str| <= buf.Length
    modifies buf
    ensures Wrote(old(buf[..]), buf[..], at, str) && count == |str|
  {
    count := 0;
    while count < |str|
      invariant 0 <= count <= |str| && Wrote(old(buf[..]), buf[..], at, str[..count])
    {
      assert str[..count + 1] == str[..count] + [str[count]];
      Store(buf, at + count, at, old(buf[..]), str[..count], str[count]);
      count := count + 1;
    }
    assert str[..count] == str;
  }

  method SprintConversion(c: char, arg: Arg, buf: array<char>, at: nat) returns (count: nat)
    requires Takes(c) ==> (arg.Text? <==> c == 's')
    requires at + (if Takes(c) then |Conversion(c, arg)| else 0) <= buf.Length
    modifies buf
    ensures Wrote(old(buf[..]), buf[..], at, if Takes(c) then Conversion(c, arg) else [])
    ensures count == if Takes(c) then |Conversion(c, arg)| else 0
  {
    count := 0;
    if c == 'i' || c == 'd' {
      count := Int32Sprint(arg.bits, buf, at);
    } else if c == 's' {
      count := StrSprint(arg.text, buf, at);
    } else if c == 'x' {
      count := Uint32HexSprint(arg.bits, buf, at);
    } else if c == 'u' {
      count := Uint32Sprint(arg.bits, buf, at);
    }
  }

  /** `done` has been written from the start of the buffer; the format is read up to `k`, `next` arguments are used. */
  ghost predicate Reached(was: seq<char>, now: seq<char>, f: string, args: seq<Arg>, k: nat, next: nat, count: nat,
                          done: string)
    requires Serves(f, args)
  {
    Done(f, args, k, next, done) && Wrote(was, now, 0, done) && count == |done|
  }

  /** A literal character of the format. */
  method SprintLiteral(buf: array<char>, f: CString, args: seq<Arg>, k: nat, next: nat, count: nat,
                       ghost was: seq<char>, ghost done: string)
    requires Serves(f, args) && |Render(f, args)| <= buf.Length && k < |f| && f[k] != '%'
    requires Reached(was, buf[..], f, args, k, next, count, done)
    modifies buf
    ensures Reached(was, buf[..], f, args, k + 1, next, count + 1, done + [f[k]])
  {
    DoneGrows(f, args, k, next, done);
    Store(buf, count, 0, was, done, f[k]);
  }

  /** A conversion of the format, at its conversion character. */
  method SprintNext(buf: array<char>, f: CString, args: seq<Arg>, k: nat, next: nat, count: nat,
                    ghost was: seq<char>, ghost done: string)
    returns (next': nat, count': nat, ghost done': string)
    requires Serves(f, args) && |Render(f, args)| <= buf.Length && k < |f| && f[k] == '%'
    requires Reached(was, buf[..], f, args, k, next, count, done)
    modifies buf
    ensures k + 1 < |f| && Reached(was, buf[..], f, args, k + 2, next', count', done')
  {
    DoneGrows(f, args, k, next, done);
    var takes := Takes(f[k + 1]);
    var arg := if takes then args[next] else Num(0);
    ghost var mid := buf[..];
    var n := SprintConversion(f[k + 1], arg, buf, count);
    count' := count + n;
    if takes {
      WroteThen(was, mid, buf[..], 0, done, Conversion(f[k + 1], arg));
      next', done' := next + 1, done + Conversion(f[k + 1], arg);
    } else {
      WroteNothing(mid, buf[..], count);
      next', done' := next, done;
    }
  }

  /** The loop of `sprintf` over the format. */
  method SprintText(buf: array<char>, f: CString, args: seq<Arg>) returns (count: nat)
    requires Serves(f, args) && |Render(f, args)| <= buf.Length
    modifies buf
    ensures Wrote(old(buf[..]), buf[..], 0, Render(f, args)) && count == |Render(f, args)|
  {
    ghost var was := buf[..];
    ghost var done: string := [];
    var k, next: nat := 0, 0;
    count := 0;
    DoneStarts(f, args);
    WritesNothing(was, 0);
    while k < |f|
      invariant k <= |f| && Reached(was, buf[..], f, args, k, next, count, done)
    {
      if f[k] == '%' {
        next, count, done := SprintNext(buf, f, args, k, next, count, was, done);
        k := k + 2;
      } else {
        SprintLiteral(buf, f, args, k, next, count, was, done);
        done := done + [f[k]];
        count := count + 1;
        k := k + 1;
      }
    }
    DoneEnds(f, args, k, next, done);
  }

  /** `sprintf`: the buffer receives exactly the rendering and a terminator. */
  method Sprintf(buf: array<char>, fmt: Format, args: seq<Arg>) returns (count: nat)
    requires Serves(Effective(fmt), args) && |Render(Effective(fmt), args)| < buf.Length
    modifies buf
    ensures Wrote(old(buf[..]), buf[..], 0, Render(Effective(fmt), args) + [NUL])
    ensures UpToNul(buf[..]) == Render(Effective(fmt), args)
    ensures count == |Render(Effective(fmt), args)|
  {
    var f := Effective(fmt);
    ghost var was := buf[..];
    count := SprintText(buf, f, args);
    ghost var text := Render(f, args);
    Store(buf, count, 0, was, text, NUL);
    RenderHasNoNul(f, args);
    Terminated(was, buf[..], text);
  }
}
