/** The pieces of text handling the state and profile files rely on: splitting, trimming
    and joining as Rust's `str` does, and printing and parsing decimal numbers. */
module Text {
  import opened Prelude

  // ---------------------------------------------------------------- splitting

  function Split(s: string, sep: char): (parts: seq<string>)
    ensures |parts| >= 1
  {
    if s == "" then [""]
    else
      var rest := Split(s[1..], sep);
      if s[0] == sep then [""] + rest else [[s[0]] + rest[0]] + rest[1..]
  }

  /** Everything before the first `sep`, and everything after it. */
  function SplitOnce(s: string, sep: char): Option<(string, string)> {
    if s == "" then None
    else if s[0] == sep then Some(("", s[1..]))
    else
      var rest := SplitOnce(s[1..], sep);
      if rest.None? then None else Some(([s[0]] + rest.value.0, rest.value.1))
  }

  function Join(parts: seq<string>, glue: string): string {
    if parts == [] then ""
    else if |parts| == 1 then parts[0]
    else parts[0] + glue + Join(parts[1..], glue)
  }

  /** `str::lines`: a line ends at a newline, and drops one carriage return before it. */
  function Lines(s: string): seq<string>
    decreases |s|
  {
    if s == "" then []
    else
      var cut := SplitOnce(s, '\n');
      if cut.None? then [s]
      else
        SplitOnceShorter(s, '\n');
        [DropReturn(cut.value.0)] + Lines(cut.value.1)
  }

  function DropReturn(line: string): string {
    if line != "" && line[|line| - 1] == '\r' then line[..|line| - 1] else line
  }

  lemma SplitOnceShorter(s: string, sep: char)
    ensures SplitOnce(s, sep).Some? ==> |SplitOnce(s, sep).value.1| < |s|
  {}

  /** What one more character in front does to a split; none stands for the separator. */
  lemma SplitStep(first: string, rest: string, sep: char)
    requires |first| <= 1
    ensures Split("", sep) == [""]
    ensures first == "" ==> Split([sep] + rest, sep) == [""] + Split(rest, sep)
    ensures first == [sep] ==> Split(first + rest, sep) == [""] + Split(rest, sep)
    ensures first != "" && first != [sep] ==>
      Split(first + rest, sep) == [first + Split(rest, sep)[0]] + Split(rest, sep)[1..]
  {
    assert ([sep] + rest)[1..] == rest;
    if first != "" {
      assert (first + rest)[1..] == rest && (first + rest)[0] == first[0] && first == [first[0]];
    }
  }

  lemma ConcatFromHead<T>(head: T, left: seq<T>, right: seq<T>)
    requires left != []
    ensures (left + right)[0] == left[0]
    ensures [head] + (left + right)[1..] == ([head] + left[1..]) + right
    ensures [head] + (left + right) == ([head] + left) + right
  {}

  /** Splitting distributes over the separator. */
  lemma {:induction false} SplitAt(a: string, b: string, sep: char)
    ensures Split(a + [sep] + b, sep) == Split(a, sep) + Split(b, sep)
  {
    hide Split;
    var s := a + [sep] + b;
    if a == "" {
      SplitStep("", b, sep);
      assert s == [sep] + b;
    } else {
      var rest := a[1..] + [sep] + b;
      assert s == [a[0]] + rest && a == [a[0]] + a[1..];
      SplitAt(a[1..], b, sep);
      SplitStep([a[0]], rest, sep);
      SplitStep([a[0]], a[1..], sep);
      var (left, right) := (Split(a[1..], sep), Split(b, sep));
      ConcatFromHead(if a[0] == sep then "" else [a[0]] + left[0], left, right);
    }
  }

  lemma {:induction false} SplitWhole(s: string, sep: char)
    requires sep !in s
    ensures Split(s, sep) == [s]
  {
    if s == "" {
    } else {
      assert forall c :: c in s[1..] ==> c in s;
      SplitWhole(s[1..], sep);
      assert [s[0]] + s[1..] == s;
    }
  }

  lemma {:induction false} SplitOnceAt(a: string, b: string, sep: char)
    requires sep !in a
    ensures SplitOnce(a + [sep] + b, sep) == Some((a, b))
  {
    var s := a + [sep] + b;
    if a == "" {
      assert s[1..] == b;
    } else {
      assert forall c :: c in a[1..] ==> c in a;
      assert s[1..] == a[1..] + [sep] + b;
      SplitOnceAt(a[1..], b, sep);
      assert [a[0]] + a[1..] == a;
    }
  }

  lemma {:induction false} SplitOnceNone(s: string, sep: char)
    requires sep !in s
    ensures SplitOnce(s, sep).None?
  {
    if s == "" {
    } else {
      assert forall c :: c in s[1..] ==> c in s;
      SplitOnceNone(s[1..], sep);
    }
  }

  /** Text that begins with a finished line. */
  lemma LinesCons(line: string, rest: string)
    requires '\n' !in line && (line != "" ==> line[|line| - 1] != '\r')
    ensures Lines(line + "\n" + rest) == [line] + Lines(rest)
  {
    SplitOnceAt(line, rest, '\n');
    assert line + "\n" + rest != "";
  }

  /** Lines, each ended by a newline. */
  function Unlines(lines: seq<string>): string {
    if lines == [] then "" else lines[0] + "\n" + Unlines(lines[1..])
  }

  lemma {:induction false} UnlinesAppend(a: seq<string>, b: seq<string>)
    ensures Unlines(a + b) == Unlines(a) + Unlines(b)
  {
    if a == [] {
      assert a + b == b;
    } else {
      assert (a + b)[1..] == a[1..] + b;
      UnlinesAppend(a[1..], b);
    }
  }

  lemma UnlinesSnoc(lines: seq<string>, line: string)
    ensures Unlines(lines + [line]) == Unlines(lines) + line + "\n"
    ensures Unlines([line]) == line + "\n"
  {
    UnlinesAppend(lines, [line]);
    assert Unlines([line]) == line + "\n" + Unlines([line][1..]);
  }

  /** A line that survives being written and read back. */
  predicate LineSafe(line: string) { '\n' !in line && (line != "" ==> line[|line| - 1] != '\r') }

  predicate AllSafe(lines: seq<string>) { forall k :: 0 <= k < |lines| ==> LineSafe(lines[k]) }

  lemma {:induction false} LinesUnlines(lines: seq<string>)
    requires AllSafe(lines)
    ensures Lines(Unlines(lines)) == lines
  {
    if lines == [] {
    } else {
      LinesUnlines(lines[1..]);
      LinesCons(lines[0], Unlines(lines[1..]));
      assert [lines[0]] + lines[1..] == lines;
    }
  }

  // ----------------------------------------------------------------- trimming

  /** Unicode `White_Space`. */
  predicate IsSpace(c: char) {
    var n := c as int;
    || 9 <= n <= 13 || n == 32 || n == 0x85 || n == 0xA0 || n == 0x1680
    || 0x2000 <= n <= 0x200A || n == 0x2028 || n == 0x2029 || n == 0x202F || n == 0x205F || n == 0x3000
  }

  function TrimStart(s: string): string {
    if s != "" && IsSpace(s[0]) then TrimStart(s[1..]) else s
  }

  function TrimEnd(s: string): string {
    if s != "" && IsSpace(s[|s| - 1]) then TrimEnd(s[..|s| - 1]) else s
  }

  function Trim(s: string): string { TrimEnd(TrimStart(s)) }

  /** Text with something in it and no space at either end. */
  predicate Clean(s: string) { s != "" && !IsSpace(s[0]) && !IsSpace(s[|s| - 1]) }

  /** A pad of nothing or one blank. */
  predicate IsPad(pad: string) { pad == "" || pad == " " }

  lemma TrimPadded(before: string, s: string, after: string)
    requires Clean(s) && IsPad(before) && IsPad(after)
    ensures Trim(before + s + after) == s
  {
    var t := before + s + after;
    var u := s + after;
    if before == " " {
      assert t[1..] == u;
      assert TrimStart(t) == TrimStart(t[1..]);
    } else {
      assert t == u;
    }
    assert TrimStart(u) == u;
    if after == " " {
      assert u[..|u| - 1] == s;
      assert TrimEnd(u) == TrimEnd(u[..|u| - 1]);
    } else {
      assert u == s;
    }
    assert TrimEnd(s) == s;
  }

  lemma TrimClean(s: string)
    requires Clean(s)
    ensures Trim(s) == s
  {
    TrimPadded("", s, "");
    assert "" + s + "" == s;
  }

  /** Splitting what was joined gives the parts back, each behind its pad. */
  lemma {:induction false} SplitJoin(parts: seq<string>, sep: char, pad: string)
    requires parts != [] && sep !in pad
    requires forall k :: 0 <= k < |parts| ==> sep !in parts[k]
    ensures |Split(Join(parts, [sep] + pad), sep)| == |parts|
    ensures Split(Join(parts, [sep] + pad), sep)[0] == parts[0]
    ensures forall k :: 0 < k < |parts| ==> Split(Join(parts, [sep] + pad), sep)[k] == pad + parts[k]
  {
    var glue := [sep] + pad;
    if |parts| == 1 {
      SplitWhole(parts[0], sep);
    } else {
      var rest := Join(parts[1..], glue);
      SplitJoin(parts[1..], sep, pad);
      assert parts[0] + glue + rest == parts[0] + [sep] + (pad + rest);
      SplitAt(parts[0], pad + rest, sep);
      SplitWhole(parts[0], sep);
      SplitPrefix(pad, rest, sep);
      var all := Split(Join(parts, glue), sep);
      forall k | 0 < k < |parts| ensures all[k] == pad + parts[k] {
        assert parts[1..][k - 1] == parts[k];
      }
    }
  }

  lemma {:induction false} SplitPrefix(pad: string, s: string, sep: char)
    requires sep !in pad
    ensures Split(pad + s, sep) == [pad + Split(s, sep)[0]] + Split(s, sep)[1..]
  {
    if pad == "" {
      var t := Split(s, sep);
      assert pad + s == s && pad + t[0] == t[0] && [t[0]] + t[1..] == t;
    } else {
      assert forall c :: c in pad[1..] ==> c in pad;
      assert (pad + s)[1..] == pad[1..] + s;
      SplitPrefix(pad[1..], s, sep);
      var head := Split(s, sep)[0];
      assert [pad[0]] + (pad[1..] + head) == pad + head;
    }
  }

  // ------------------------------------------------------------------ numbers

  predicate IsDigit(c: char) { '0' <= c <= '9' }

  function DigitChar(n: nat): (c: char)
    requires n < 10
    ensures IsDigit(c) && DigitValue(c) == n
  {
    ('0' as int + n) as char
  }

  function DigitValue(c: char): nat
    requires IsDigit(c)
  {
    c as int - '0' as int
  }

  predicate AllDigits(s: string) { forall k :: 0 <= k < |s| ==> IsDigit(s[k]) }

  /** The number a run of digits stands for. */
  function DigitsValue(s: string): nat
    requires AllDigits(s)
  {
    if s == "" then 0 else DigitsValue(s[..|s| - 1]) * 10 + DigitValue(s[|s| - 1])
  }

  function PrintNat(n: nat): (s: string)
    ensures s != "" && AllDigits(s)
  {
    if n < 10 then [DigitChar(n)] else PrintNat(n / 10) + [DigitChar(n % 10)]
  }

  function Pow10(n: nat): (p: nat)
    ensures p > 0
  {
    if n == 0 then 1 else 10 * Pow10(n - 1)
  }

  /** The last `width` digits of `n`, zeros included. */
  function PrintPadded(n: nat, width: nat): (s: string)
    ensures |s| == width && AllDigits(s)
  {
    if width == 0 then "" else PrintPadded(n / 10, width - 1) + [DigitChar(n % 10)]
  }

  lemma {:induction false} PrintNatValue(n: nat)
    ensures DigitsValue(PrintNat(n)) == n
  {
    var s := PrintNat(n);
    if n >= 10 {
      PrintNatValue(n / 10);
      assert s[..|s| - 1] == PrintNat(n / 10);
    } else {
      assert s[..0] == "";
    }
  }

  /** Digits after digits: the first number shifted, plus the second. */
  lemma {:induction false} PrintedTogether(a: string, n: nat, width: nat)
    requires AllDigits(a)
    ensures AllDigits(a + PrintPadded(n, width))
    ensures DigitsValue(a + PrintPadded(n, width)) == DigitsValue(a) * Pow10(width) + n % Pow10(width)
    decreases width
  {
    var s := a + PrintPadded(n, width);
    if width == 0 {
      assert s == a;
    } else {
      PrintedTogether(a, n / 10, width - 1);
      assert s[..|s| - 1] == a + PrintPadded(n / 10, width - 1);
      assert DigitsValue(s) == DigitsValue(a + PrintPadded(n / 10, width - 1)) * 10 + n % 10;
      ShiftByTens(DigitsValue(a), n, Pow10(width - 1));
    }
  }

  lemma ShiftByTens(v: nat, n: nat, p: nat)
    requires p > 0
    ensures (v * p + (n / 10) % p) * 10 + n % 10 == v * (10 * p) + n % (10 * p)
  {
    ModByTens(n, p);
    assert (v * p) * 10 == v * (10 * p);
  }

  lemma ModByTens(n: nat, p: nat)
    requires p > 0
    ensures n % (10 * p) == (n / 10) % p * 10 + n % 10
  {
    var (q, r) := (n / 10, n % 10);
    var (a, b) := (q / p, q % p);
    assert n == q * 10 + r && q == a * p + b;
    assert n == (10 * p) * a + (b * 10 + r);
    RemainderUnique(n, 10 * p, a, b * 10 + r);
  }

  lemma MulAtLeast(m: int, k: int, n: int)
    requires m > 0 && k >= n
    ensures m * k >= m * n
  {}

  lemma RemainderUnique(n: nat, m: nat, q: nat, r: nat)
    requires m > 0 && r < m && n == m * q + r
    ensures n % m == r && n / m == q
  {
    var (q', r') := (n / m, n % m);
    assert n == m * q' + r';
    if q >= q' + 1 { MulAtLeast(m, q, q' + 1); }
    if q' >= q + 1 { MulAtLeast(m, q', q + 1); }
  }

  lemma QuotientNonNegative(n: nat, m: nat)
    requires m > 0
    ensures n / m >= 0
  {
    var (q, r) := (n / m, n % m);
    assert n == m * q + r;
    if q <= -1 { MulAtLeast(m, -1, q); }
  }

  const U8_MAX: nat := 255
  const U32_MAX: nat := 0xFFFF_FFFF

  /** Unsigned integers as Rust parses them: an optional plus, then digits, in range. */
  function ParseUnsigned(s: string, limit: nat): Option<nat> {
    var digits := if s != "" && s[0] == '+' then s[1..] else s;
    if digits != "" && AllDigits(digits) && DigitsValue(digits) <= limit then Some(DigitsValue(digits)) else None
  }

  lemma ParsePrintedNat(n: nat, limit: nat)
    requires n <= limit
    ensures ParseUnsigned(PrintNat(n), limit) == Some(n)
  {
    PrintNatValue(n);
  }

  /** A decimal fraction: `mantissa` over ten to the `places`. */
  datatype Decimal = Decimal(mantissa: int, places: nat) {
    /** Written with no more places than it needs. */
    predicate Normal() { places > 0 ==> mantissa % 10 != 0 }

    function Value(): real { mantissa as real / Pow10(places) as real }
  }

  /** A decimal in the one form each value has. */
  type Canonical = d: Decimal | d.Normal() witness Decimal(0, 0)

  /** A parsed float: a decimal, or a NaN or infinity. */
  datatype Number = NotFinite | Dec(decimal: Canonical)

  function Normalize(mantissa: int, places: nat): Canonical
    decreases places
  {
    if places > 0 && mantissa % 10 == 0 then Normalize(mantissa / 10, places - 1) else Decimal(mantissa, places)
  }

  function Lower(s: string): (r: string)
    ensures |r| == |s|
    ensures forall k :: 0 <= k < |s| ==> r[k] == LowerChar(s[k])
  {
    seq(|s|, k requires 0 <= k < |s| => LowerChar(s[k]))
  }

  function LowerChar(c: char): char {
    if 'A' <= c <= 'Z' then (c as int + 32) as char else c
  }

  /** Before and after the first `e` or `E`. */
  function SplitExponent(s: string): (string, Option<string>) {
    if s == "" then ("", None)
    else if s[0] == 'e' || s[0] == 'E' then ("", Some(s[1..]))
    else
      var (mantissa, exponent) := SplitExponent(s[1..]);
      ([s[0]] + mantissa, exponent)
  }

  function Sign(s: string): (bool, string) {
    if s != "" && s[0] == '-' then (true, s[1..])
    else if s != "" && s[0] == '+' then (false, s[1..])
    else (false, s)
  }

  function Signed(negative: bool, n: nat): int { if negative then 0 - n else n }

  function ParseExponent(text: Option<string>): Option<int> {
    if text.None? then Some(0)
    else
      var (negative, digits) := Sign(text.value);
      if digits != "" && AllDigits(digits) then Some(Signed(negative, DigitsValue(digits))) else None
  }

  function Scaled(mantissa: int, places: nat, exponent: int): Canonical {
    if exponent >= places then Decimal(mantissa * Pow10(exponent - places), 0)
    else Normalize(mantissa, places - exponent)
  }

  /** `str::parse::<f64>`, exactly: no rounding, and no overflow to infinity. */
  function ParseFloat(s: string): Option<Number> {
    var (negative, body) := Sign(s);
    if Lower(body) in {"inf", "infinity", "nan"} then Some(NotFinite)
    else
      var (mantissa, exponentText) := SplitExponent(body);
      var parts := SplitOnce(mantissa, '.');
      var (whole, fraction) := if parts.Some? then parts.value else (mantissa, "");
      var exponent := ParseExponent(exponentText);
      if exponent.None? || !AllDigits(whole) || !AllDigits(fraction) || whole + fraction == "" then None
      else
        var digits := DigitsValue(whole + fraction);
        Some(Dec(Scaled(Signed(negative, digits), |fraction|, exponent.value)))
  }

  /** `{}` on a non-negative float: no exponent, no trailing zeros. */
  function PrintDecimal(d: Decimal): string
    requires d.mantissa >= 0
  {
    QuotientNonNegative(d.mantissa, Pow10(d.places));
    var whole := PrintNat(d.mantissa / Pow10(d.places));
    if d.places == 0 then whole else whole + "." + PrintPadded(d.mantissa, d.places)
  }

  /** Digits and at most a point: what `PrintDecimal` is made of. */
  predicate Plain(s: string) {
    s != "" && IsDigit(s[0]) && IsDigit(s[|s| - 1]) && forall k :: 0 <= k < |s| ==> IsDigit(s[k]) || s[k] == '.'
  }

  lemma PrintedIsPlain(d: Decimal)
    requires d.mantissa >= 0
    ensures Plain(PrintDecimal(d))
  {}

  lemma {:induction false} PlainHasNoExponent(s: string)
    requires forall k :: 0 <= k < |s| ==> IsDigit(s[k]) || s[k] == '.'
    ensures SplitExponent(s) == (s, None)
  {
    if s == "" {
    } else {
      PlainHasNoExponent(s[1..]);
      assert [s[0]] + s[1..] == s;
    }
  }

  lemma DigitsHaveNo(s: string, c: char)
    requires AllDigits(s) && !IsDigit(c)
    ensures c !in s
  {}

  lemma ParseWhole(whole: string)
    requires whole != "" && AllDigits(whole)
    ensures ParseFloat(whole) == Some(Dec(Scaled(DigitsValue(whole), 0, 0)))
  {
    hide Scaled;
    NotAWord(whole);
    PlainHasNoExponent(whole);
    SplitOnceNone(whole, '.');
    assert whole + "" == whole;
  }

  lemma ParsePointed(whole: string, fraction: string)
    requires whole != "" && AllDigits(whole) && AllDigits(fraction)
    ensures AllDigits(whole + fraction)
    ensures ParseFloat(whole + "." + fraction) == Some(Dec(Scaled(DigitsValue(whole + fraction), |fraction|, 0)))
  {
    hide Scaled, DigitsValue;
    var s := whole + "." + fraction;
    assert s == whole + ['.'] + fraction && s[0] == whole[0];
    NotAWord(s);
    PlainHasNoExponent(s);
    DigitsHaveNo(whole, '.');
    SplitOnceAt(whole, fraction, '.');
  }

  lemma DivMod(n: int, p: nat)
    requires p > 0
    ensures (n / p) * p + n % p == n
  {}

  /** The printed digits, point left out, are the mantissa's. */
  lemma PrintedDigits(n: nat, places: nat)
    ensures n / Pow10(places) >= 0
    ensures AllDigits(PrintNat(n / Pow10(places)) + PrintPadded(n, places))
    ensures DigitsValue(PrintNat(n / Pow10(places)) + PrintPadded(n, places)) == n
  {
    hide Pow10, PrintNat, PrintPadded, DigitsValue;
    var p := Pow10(places);
    QuotientNonNegative(n, p);
    PrintNatValue(n / p);
    PrintedTogether(PrintNat(n / p), n, places);
    DivMod(n, p);
  }

  lemma ScaledNormal(d: Canonical)
    ensures Scaled(d.mantissa, d.places, 0) == d
  {}

  /** What is printed is parsed back, digit for digit. */
  lemma ParsePrinted(d: Canonical)
    requires d.mantissa >= 0
    ensures ParseFloat(PrintDecimal(d)) == Some(Dec(d))
  {
    PrintedDigits(d.mantissa, d.places);
    ScaledNormal(d);
    var whole := PrintNat(d.mantissa / Pow10(d.places));
    if d.places == 0 {
      assert whole + PrintPadded(d.mantissa, 0) == whole;
      hide ParseFloat, DigitsValue, Scaled, PrintNat;
      ParseWhole(whole);
    } else {
      hide ParseFloat, DigitsValue, Scaled, PrintNat, PrintPadded, Pow10;
      ParsePointed(whole, PrintPadded(d.mantissa, d.places));
    }
  }

  /** Text beginning with a digit carries no sign and is no word for a non-finite number. */
  lemma NotAWord(s: string)
    requires s != "" && IsDigit(s[0])
    ensures Sign(s) == (false, s)
    ensures Lower(s) !in {"inf", "infinity", "nan"}
  {
    assert Lower(s)[0] == s[0];
  }

  /** Round half to even, as `{:.0}` does. */
  function RoundHalfEven(x: real): int {
    var f := x.Floor;
    if x - f as real < 0.5 then f
    else if x - f as real > 0.5 then f + 1
    else if f % 2 == 0 then f else f + 1
  }

  /** `{:.0}` on a float. */
  function PrintRounded(c: Celsius): string {
    match c
    case NonFinite => "NaN"
    case Finite(x) =>
      if x < 0.0 then "-" + PrintNat(RoundedNonNegative(-x)) else PrintNat(RoundedNonNegative(x))
  }

  function RoundedNonNegative(x: real): nat
    requires x >= 0.0
  {
    RoundHalfEven(x)
  }

  /** The temperature a printed one stands for. */
  function Rounded(c: Celsius): Celsius {
    match c
    case NonFinite => NonFinite
    case Finite(x) => Finite(if x < 0.0 then 0.0 - RoundedNonNegative(-x) as real else RoundedNonNegative(x) as real)
  }

  /** The temperature a parsed number stands for. */
  function AsCelsius(n: Number): Celsius {
    match n
    case NotFinite => NonFinite
    case Dec(d) => Finite(d.Value())
  }

  lemma WholeValue(n: int)
    ensures AsCelsius(Dec(Scaled(n, 0, 0))) == Finite(n as real)
  {
    assert Scaled(n, 0, 0) == Decimal(n, 0);
    assert n as real / 1.0 == n as real;
  }

  /** Nothing in it that the state file gives a meaning to. */
  predicate Unmarked(s: string) { Clean(s) && ':' !in s && ',' !in s && '\n' !in s }

  lemma DigitsAreUnmarked(digits: string)
    requires digits != "" && AllDigits(digits)
    ensures Unmarked(digits) && Unmarked("-" + digits)
  {
    DigitsAreClean(digits);
  }

  /** A printed temperature parses to the rounded one, whatever it was. */
  lemma ParseRounded(c: Celsius)
    ensures ParseFloat(PrintRounded(c)).Some? && AsCelsius(ParseFloat(PrintRounded(c)).value) == Rounded(c)
    ensures Unmarked(PrintRounded(c))
  {
    hide ParseFloat, PrintNat, DigitsValue, RoundedNonNegative, Scaled, AsCelsius;
    match c
    case NonFinite =>
      ParseNaN();
    case Finite(x) =>
      var n: int := RoundedNonNegative(if x < 0.0 then -x else x);
      var digits := PrintNat(n);
      PrintNatValue(n);
      DigitsAreUnmarked(digits);
      if x < 0.0 {
        ParseNegative(digits);
        WholeValue(0 - n);
      } else {
        ParseWhole(digits);
        WholeValue(n);
      }
  }

  lemma ParseNaN()
    ensures ParseFloat("NaN") == Some(NotFinite) && AsCelsius(NotFinite) == NonFinite && Unmarked("NaN")
  {
    assert Lower("NaN") == "nan";
  }

  lemma ParseNegative(digits: string)
    requires digits != "" && AllDigits(digits)
    ensures ParseFloat("-" + digits) == Some(Dec(Scaled(0 - DigitsValue(digits), 0, 0)))
  {
    hide Scaled, DigitsValue;
    var s := "-" + digits;
    assert s[1..] == digits && s[0] == '-';
    NotAWord(digits);
    PlainHasNoExponent(digits);
    SplitOnceNone(digits, '.');
    assert digits + "" == digits;
  }

  lemma DigitsAreClean(digits: string)
    requires digits != "" && AllDigits(digits)
    ensures Clean(digits) && Clean("-" + digits)
    ensures forall c :: c in digits ==> IsDigit(c)
  {}

  // ------------------------------------------------------ exponents and signs

  lemma {:induction false} SplitExponentAt(whole: string, exponent: string)
    requires AllDigits(whole)
    ensures SplitExponent(whole + "e" + exponent) == (whole, Some(exponent))
  {
    var s := whole + "e" + exponent;
    if whole == "" {
      assert s[1..] == exponent;
    } else {
      assert s[1..] == whole[1..] + "e" + exponent;
      SplitExponentAt(whole[1..], exponent);
      assert [whole[0]] + whole[1..] == whole;
    }
  }

  /** Digits, an exponent sign and digits parse to the first number times ten to the second; a
      minus before them negates it. */
  lemma ParseScientific(whole: string, exponent: string)
    requires whole != "" && AllDigits(whole) && exponent != "" && AllDigits(exponent)
    ensures
      var value := DigitsValue(whole) * Pow10(DigitsValue(exponent));
      && ParseFloat(whole + "e" + exponent) == Some(Dec(Decimal(value, 0)))
      && ParseFloat("-" + (whole + "e" + exponent)) == Some(Dec(Decimal(-value, 0)))
  {
    hide DigitsValue, Pow10, ParseFloat, Scaled;
    ParseWithExponent(whole, exponent);
    ScaledUp(DigitsValue(whole), DigitsValue(exponent));
    ScaledUp(Signed(true, DigitsValue(whole)), DigitsValue(exponent));
    Negated(DigitsValue(whole), Pow10(DigitsValue(exponent)));
  }

  lemma Negated(a: int, b: int)
    ensures (-a) * b == -(a * b)
  {}

  lemma ScaledUp(mantissa: int, exponent: nat)
    ensures Scaled(mantissa, 0, exponent) == Decimal(mantissa * Pow10(exponent), 0)
  {}

  lemma ParseWithExponent(whole: string, exponent: string)
    requires whole != "" && AllDigits(whole) && exponent != "" && AllDigits(exponent)
    ensures
      var s := whole + "e" + exponent;
      && ParseFloat(s) == Some(Dec(Scaled(DigitsValue(whole), 0, DigitsValue(exponent))))
      && ParseFloat("-" + s) == Some(Dec(Scaled(Signed(true, DigitsValue(whole)), 0, DigitsValue(exponent))))
  {
    hide DigitsValue, SplitExponent, Scaled, SplitOnce, Lower;
    var s := whole + "e" + exponent;
    assert s[0] == whole[0] && ("-" + s)[1..] == s && ("-" + s)[0] == '-';
    NotAWord(s);
    SplitExponentAt(whole, exponent);
    SplitOnceNone(whole, '.');
    NotAWord(exponent);
    assert whole + "" == whole;
  }

  /** What is not a number is not taken for one: no digits, or a stray character before the
      exponent. */
  lemma NotANumber(s: string)
    ensures ParseFloat("").None?
    ensures ParseUnsigned("", U8_MAX).None? && ParseUnsigned("+", U8_MAX).None?
    ensures s != "" && s[0] != '+' && !AllDigits(s) ==> ParseUnsigned(s, U32_MAX).None?
    ensures s != "" && AllDigits(s) && DigitsValue(s) > U8_MAX ==> ParseUnsigned(s, U8_MAX).None?
  {
    assert Lower("") == "";
  }
}
