/**
 * `Money`: a fixed-point amount held as a signed count of centavos
 * (hundredths of a real), with its decimal parser, its display and its
 * exact integer arithmetic. Integer widths are not modelled: the count is
 * an unbounded `int`, except that the parser keeps `i64::from_str`'s range
 * check on the pieces it reads.
 */
module Currency {
  import opened Results
  import opened Text

  datatype Money = Money(centavos: int)

  /** The four ways `Money::parse` reports failure. */
  datatype ParseError = InvalidReaisPart | InvalidCentsPart | TooManyDecimalPlaces | InvalidNumber

  const Zero: Money := Money(0)

  function FromReais(reais: int): (m: Money)
    ensures m.centavos == 100 * reais
    ensures m.centavos % 100 == 0
  {
    Money(reais * 100)
  }

  function FromCentavos(centavos: int): (m: Money)
    ensures m.centavos == centavos
  {
    Money(centavos)
  }

  function ToCentavos(m: Money): (c: int)
    ensures FromCentavos(c) == m
  {
    m.centavos
  }

  // ---------------------------------------------------------------------
  // Parsing

  function Sign(negative: bool): string
  {
    if negative then "-" else ""
  }

  function Signed(negative: bool, v: int): int
  {
    if negative then -v else v
  }

  /** Up to two decimal digits read as hundredths: one digit is tenths. */
  function Hundredths(fs: string): nat
    requires AllDigits(fs)
  {
    if |fs| == 1 then 10 * DigitsValue(fs) else DigitsValue(fs)
  }

  /**
   * The centavos a fractional part stands for. The choice between one and
   * two digits is made on the UTF-8 byte length, as `str::len` does.
   */
  function CentsOf(cents: string): Result<int, ParseError>
  {
    if cents == [] then Ok(0)
    else if Utf8Len(cents) == 1 then
      (match ParseI64(cents)
       case Some(digit) => Ok(digit * 10)
       case None => Err(InvalidCentsPart))
    else if Utf8Len(cents) == 2 then
      (match ParseI64(cents)
       case Some(v) => Ok(v)
       case None => Err(InvalidCentsPart))
    else Err(TooManyDecimalPlaces)
  }

  /**
   * The fractional part is worth at most 99 centavos (and at least -9, for
   * a sign and a digit), and whatever was accepted was read by
   * `i64::from_str`.
   */
  lemma CentsOfRange(cents: string)
    ensures CentsOf(cents).Ok? ==> -9 <= CentsOf(cents).value <= 99
    ensures CentsOf(cents).Ok? && cents != [] ==> ParseI64(cents).Some?
  {
    if ParseI64(cents).Some? && Utf8Len(cents) <= 2 {
      ParseI64Short(cents);
    }
  }

  /** The fractional part is too long exactly when it takes more than two bytes. */
  lemma CentsOfTooLong(cents: string)
    ensures CentsOf(cents) == Err(TooManyDecimalPlaces) <==> Utf8Len(cents) > 2
  {
  }

  /** One digit is tenths, two digits are hundredths, none is zero. */
  lemma CentsOfDigits(fs: string)
    requires AllDigits(fs) && |fs| <= 2
    ensures CentsOf(fs) == Ok(Hundredths(fs))
  {
    DigitsValueShort(fs);
    Utf8LenAscii(fs);
    if fs != [] {
      ParseI64Spec(fs);
    }
  }

  /** Strictly a sequence of characters `Money::parse` can accept. */
  predicate NumeralChars(s: string)
  {
    forall i :: 0 <= i < |s| ==> IsDigit(s[i]) || s[i] == '+' || s[i] == '-' || s[i] == '.'
  }

  /**
   * The centavos of a trimmed amount whose leading `-` has been taken off:
   * the integer part before the first `.` and a fractional part of at most
   * two bytes are each read by `i64::from_str`.
   */
  function ParseUnsigned(body: string): Result<int, ParseError>
  {
    match Find(body, '.')
    case Some(dot) =>
      var reaisStr := body[..dot];
      var centsStr := body[dot + 1..];
      (match ParseI64(reaisStr)
       case None => Err(InvalidReaisPart)
       case Some(reais) =>
         (match CentsOf(centsStr)
          case Err(e) => Err(e)
          case Ok(cents) => Ok(reais * 100 + cents)))
    case None =>
      (match ParseI64(body)
       case None => Err(InvalidNumber)
       case Some(reais) => Ok(reais * 100))
  }

  /**
   * `Money::parse`: trim; empty means zero; one leading `-` negates the
   * whole amount.
   */
  function Parse(text: string): (r: Result<Money, ParseError>)
    ensures Trim(text) == [] ==> r == Ok(Zero)
  {
    var s := Trim(text);
    if s == [] then Ok(Zero)
    else
      var negative := s[0] == '-';
      var body := if negative then s[1..] else s;
      WithSign(negative, ParseUnsigned(body))
  }

  /** Applies the sign to a successfully read amount; errors pass through. */
  function WithSign(negative: bool, r: Result<int, ParseError>): (m: Result<Money, ParseError>)
  {
    match r
    case Err(e) => Err(e)
    case Ok(total) => Ok(Money(Signed(negative, total)))
  }

  // ---------------------------------------------------------------------
  // What the parser accepts and rejects

  lemma FindDot(ip: string, fs: string)
    requires '.' !in ip
    ensures Find(ip + "." + fs, '.') == Some(|ip|)
    ensures (ip + "." + fs)[..|ip|] == ip && (ip + "." + fs)[|ip| + 1..] == fs
  {
    var s := ip + "." + fs;
    assert s[|ip|] == '.';
  }

  lemma Regroup(a: string, b: string, c: string, d: string)
    ensures a + b + c + d == a + (b + c + d)
  {
  }

  /** Trimming whitespace off both ends of `core` gives `core` back. */
  lemma Surround(before: string, core: string, after: string)
    requires AllWhitespace(before) && AllWhitespace(after) && Trimmed(core)
    ensures Trim(before + core + after) == Trim(core) == core
  {
    TrimPadded(before, core, after);
    TrimPadded([], core, []);
    assert [] + core + [] == core;
  }

  lemma DecimalTrim(before: string, negative: bool, ds: string, fs: string, after: string)
    requires AllWhitespace(before) && AllWhitespace(after)
    requires ds != [] && AllDigits(ds) && AllDigits(fs)
    ensures Trim(before + Sign(negative) + ds + "." + fs + after) == Trim(Sign(negative) + ds + "." + fs)
  {
    var core := Sign(negative) + ds + "." + fs;
    assert before + Sign(negative) + ds + "." + fs + after == before + core + after;
    assert fs != [] ==> IsDigit(fs[|fs| - 1]);
    Surround(before, core, after);
  }

  lemma WholeTrim(before: string, negative: bool, ds: string, after: string)
    requires AllWhitespace(before) && AllWhitespace(after)
    requires ds != [] && AllDigits(ds)
    ensures Trim(before + Sign(negative) + ds + after) == Trim(Sign(negative) + ds)
  {
    var core := Sign(negative) + ds;
    assert before + Sign(negative) + ds + after == before + core + after;
    Surround(before, core, after);
  }

  lemma IntegerPartChars(ip: string)
    requires ParseI64(ip).Some?
    ensures '.' !in ip && ip != [] && !IsWhitespace(ip[0])
  {
    ParseI64Spec(ip);
  }

  /**
   * A text with no surrounding whitespace splits into its sign and the
   * rest; `expected` is what the rest yields once the sign is applied.
   */
  lemma ParseTrimmed(negative: bool, body: string, expected: Result<Money, ParseError>)
    requires Trimmed(Sign(negative) + body) && Sign(negative) + body != []
    requires negative || body == [] || body[0] != '-'
    requires WithSign(negative, ParseUnsigned(body)) == expected
    ensures Parse(Sign(negative) + body) == expected
  {
    var text := Sign(negative) + body;
    TrimPadded([], text, []);
    assert [] + text + [] == text;
    if negative {
      assert text[1..] == body;
    } else {
      assert text == body;
    }
  }

  /** The same as `ParseTrimmed`, for an integer part, a `.` and a fractional part. */
  lemma ParseDotted(negative: bool, ip: string, fs: string, expected: Result<Money, ParseError>)
    requires ParseI64(ip).Some? && (negative || ip[0] != '-') && Trimmed(fs)
    requires WithSign(negative, ParseUnsigned(ip + "." + fs)) == expected
    ensures Parse(Sign(negative) + ip + "." + fs) == expected
  {
    IntegerPartChars(ip);
    Regroup(Sign(negative), ip, ".", fs);
    ParseTrimmed(negative, ip + "." + fs, expected);
  }

  /** An integer part and an accepted fractional part make `reais * 100 + cents`. */
  lemma UnsignedDottedOk(ip: string, fs: string, reais: int, cents: int, total: int)
    requires ParseI64(ip) == Some(reais) && CentsOf(fs) == Ok(cents)
    requires total == reais * 100 + cents
    ensures ParseUnsigned(ip + "." + fs) == Ok(total)
  {
    IntegerPartChars(ip);
    FindDot(ip, fs);
  }

  /** After an integer part, a rejected fractional part decides the error. */
  lemma UnsignedDottedErr(ip: string, fs: string, e: ParseError)
    requires ParseI64(ip).Some? && CentsOf(fs) == Err(e)
    ensures ParseUnsigned(ip + "." + fs) == Err(e)
  {
    IntegerPartChars(ip);
    FindDot(ip, fs);
  }

  /** With no `.`, an integer is a whole number of reais. */
  lemma UnsignedWhole(ip: string, reais: int, total: int)
    requires ParseI64(ip) == Some(reais) && total == reais * 100
    ensures ParseUnsigned(ip) == Ok(total)
  {
    IntegerPartChars(ip);
  }

  lemma DigitsParse(ds: string)
    requires ds != [] && AllDigits(ds) && DigitsValue(ds) <= I64Max
    ensures ParseI64(ds) == Some(DigitsValue(ds))
  {
    ParseI64Spec(ds);
  }

  /**
   * The general rule: a `-` sign, then an integer part and a fractional
   * part that each read as integers, give plus or minus
   * `reais * 100 + cents`.
   */
  lemma ParseAmount(negative: bool, ip: string, fs: string, reais: int, cents: int)
    requires ParseI64(ip) == Some(reais) && (negative || ip[0] != '-')
    requires CentsOf(fs) == Ok(cents) && Trimmed(fs)
    ensures Parse(Sign(negative) + ip + "." + fs) == Ok(Money(Signed(negative, reais * 100 + cents)))
  {
    UnsignedDottedOk(ip, fs, reais, cents, reais * 100 + cents);
    ParseDotted(negative, ip, fs, Ok(Money(Signed(negative, reais * 100 + cents))));
  }

  /** The same rule when there is no `.`: plus or minus `reais * 100`. */
  lemma ParseInteger(negative: bool, ip: string, reais: int)
    requires ParseI64(ip) == Some(reais) && (negative || ip[0] != '-')
    ensures Parse(Sign(negative) + ip) == Ok(Money(Signed(negative, reais * 100)))
  {
    UnsignedWhole(ip, reais, reais * 100);
    IntegerPartChars(ip);
    ParseTrimmed(negative, ip, Ok(Money(Signed(negative, reais * 100))));
  }

  /**
   * An amount written the usual way, with whitespace around it: digits,
   * then optionally `.` and zero, one (tenths) or two (hundredths) digits.
   */
  lemma ParseDecimal(before: string, negative: bool, ds: string, fs: string, after: string)
    requires AllWhitespace(before) && AllWhitespace(after)
    requires ds != [] && AllDigits(ds) && DigitsValue(ds) <= I64Max
    requires AllDigits(fs) && |fs| <= 2
    ensures Parse(before + Sign(negative) + ds + "." + fs + after)
            == Ok(Money(Signed(negative, DigitsValue(ds) * 100 + Hundredths(fs))))
  {
    ParseDecimalTotal(before, negative, ds, fs, after, DigitsValue(ds) * 100 + Hundredths(fs));
  }

  lemma ParseDecimalTotal(before: string, negative: bool, ds: string, fs: string, after: string, total: int)
    requires AllWhitespace(before) && AllWhitespace(after)
    requires ds != [] && AllDigits(ds) && DigitsValue(ds) <= I64Max
    requires AllDigits(fs) && |fs| <= 2
    requires total == DigitsValue(ds) * 100 + Hundredths(fs)
    ensures Parse(before + Sign(negative) + ds + "." + fs + after) == Ok(Money(Signed(negative, total)))
  {
    DecimalUntrimmed(negative, ds, fs, total);
    DecimalTrim(before, negative, ds, fs, after);
    SameTrim(before + Sign(negative) + ds + "." + fs + after, Sign(negative) + ds + "." + fs, Ok(Money(Signed(negative, total))));
  }

  lemma DecimalUntrimmed(negative: bool, ds: string, fs: string, total: int)
    requires ds != [] && AllDigits(ds) && DigitsValue(ds) <= I64Max
    requires AllDigits(fs) && |fs| <= 2
    requires total == DigitsValue(ds) * 100 + Hundredths(fs)
    ensures Parse(Sign(negative) + ds + "." + fs) == Ok(Money(Signed(negative, total)))
  {
    assert fs != [] ==> !IsWhitespace(fs[|fs| - 1]);
    assert IsDigit(ds[0]);
    DigitsParse(ds);
    CentsOfDigits(fs);
    UnsignedDottedOk(ds, fs, DigitsValue(ds), Hundredths(fs), total);
    ParseDotted(negative, ds, fs, Ok(Money(Signed(negative, total))));
  }

  lemma ParseWholeReais(before: string, negative: bool, ds: string, after: string)
    requires AllWhitespace(before) && AllWhitespace(after)
    requires ds != [] && AllDigits(ds) && DigitsValue(ds) <= I64Max
    ensures Parse(before + Sign(negative) + ds + after) == Ok(Money(Signed(negative, DigitsValue(ds) * 100)))
  {
    DigitsParse(ds);
    assert IsDigit(ds[0]);
    UnsignedWhole(ds, DigitsValue(ds), DigitsValue(ds) * 100);
    ParseTrimmed(negative, ds, Ok(Money(Signed(negative, DigitsValue(ds) * 100))));
    WholeTrim(before, negative, ds, after);
    SameTrim(before + Sign(negative) + ds + after, Sign(negative) + ds,
             Ok(Money(Signed(negative, DigitsValue(ds) * 100))));
  }

  /** A leading `-` negates the amount the rest of the text gives, and keeps its error. */
  lemma ParseNegates(body: string)
    requires Trimmed(body) && body != [] && body[0] != '-'
    ensures Parse("-" + body) == (match Parse(body) case Ok(m) => Ok(Money(-m.centavos)) case Err(e) => Err(e))
  {
    ParseMinusBody(body);
    ParseBody(body);
    SignNegates(ParseUnsigned(body));
  }

  lemma ParseMinusBody(body: string)
    requires Trimmed(body) && body != [] && body[0] != '-'
    ensures Parse("-" + body) == WithSign(true, ParseUnsigned(body))
  {
    var minus := "-" + body;
    assert minus == Sign(true) + body && minus[|minus| - 1] == body[|body| - 1];
    ParseTrimmed(true, body, WithSign(true, ParseUnsigned(body)));
  }

  lemma ParseBody(body: string)
    requires Trimmed(body) && body != [] && body[0] != '-'
    ensures Parse(body) == WithSign(false, ParseUnsigned(body))
  {
    assert Sign(false) + body == body;
    ParseTrimmed(false, body, WithSign(false, ParseUnsigned(body)));
  }

  lemma SignNegates(u: Result<int, ParseError>)
    ensures WithSign(true, u) == (match WithSign(false, u) case Ok(m) => Ok(Money(-m.centavos)) case Err(e) => Err(e))
  {
  }

  /** `Parse` depends on its input only through the trimmed text. */
  lemma SameTrim(a: string, b: string, expected: Result<Money, ParseError>)
    requires Trim(a) == Trim(b) && Parse(b) == expected
    ensures Parse(a) == expected
  {
  }

  /** More than two bytes after the `.` is an error, whatever they are. */
  lemma ParseTooManyDecimalPlaces(negative: bool, ip: string, fs: string)
    requires ParseI64(ip).Some? && (negative || ip[0] != '-')
    requires Utf8Len(fs) > 2 && Trimmed(fs)
    ensures Parse(Sign(negative) + ip + "." + fs) == Err(TooManyDecimalPlaces)
  {
    CentsOfTooLong(fs);
    UnsignedDottedErr(ip, fs, TooManyDecimalPlaces);
    ParseDotted(negative, ip, fs, Err(TooManyDecimalPlaces));
  }

  /** One or two bytes after the `.` that are not an integer are an error. */
  lemma ParseInvalidCentsPart(negative: bool, ip: string, fs: string)
    requires ParseI64(ip).Some? && (negative || ip[0] != '-')
    requires (Utf8Len(fs) == 1 || Utf8Len(fs) == 2) && ParseI64(fs).None? && Trimmed(fs)
    ensures Parse(Sign(negative) + ip + "." + fs) == Err(InvalidCentsPart)
  {
    assert CentsOf(fs) == Err(InvalidCentsPart);
    UnsignedDottedErr(ip, fs, InvalidCentsPart);
    ParseDotted(negative, ip, fs, Err(InvalidCentsPart));
  }

  /** An integer part before the `.` that is empty or not an integer is an error. */
  lemma ParseInvalidReaisPart(negative: bool, ip: string, fs: string)
    requires '.' !in ip && ParseI64(ip).None? && (negative || ip == [] || ip[0] != '-')
    requires Trimmed(Sign(negative) + ip + "." + fs)
    ensures Parse(Sign(negative) + ip + "." + fs) == Err(InvalidReaisPart)
  {
    UnsignedInvalidReais(ip, fs);
    Regroup(Sign(negative), ip, ".", fs);
    assert (negative || (ip + "." + fs)[0] != '-');
    ParseTrimmed(negative, ip + "." + fs, Err(InvalidReaisPart));
  }

  lemma UnsignedInvalidReais(ip: string, fs: string)
    requires '.' !in ip && ParseI64(ip).None?
    ensures ParseUnsigned(ip + "." + fs) == Err(InvalidReaisPart)
  {
    FindDot(ip, fs);
  }

  /** With no `.`, anything but an integer (including nothing after `-`) is an error. */
  lemma ParseInvalidNumber(negative: bool, ip: string)
    requires '.' !in ip && ParseI64(ip).None? && (negative || ip == [] || ip[0] != '-')
    requires Trimmed(Sign(negative) + ip) && Sign(negative) + ip != []
    ensures Parse(Sign(negative) + ip) == Err(InvalidNumber)
  {
    ParseTrimmed(negative, ip, Err(InvalidNumber));
  }

  /** What `Parse` accepts is made only of digits, signs and at most one `.`. */
  lemma ParseAcceptsNumerals(text: string)
    requires Parse(text).Ok?
    ensures NumeralChars(Trim(text))
    ensures multiset(Trim(text))['.'] <= 1
  {
    var s := Trim(text);
    if s != [] {
      var negative := s[0] == '-';
      var body := if negative then s[1..] else s;
      assert ParseUnsigned(body).Ok?;
      UnsignedNumerals(body);
      NumeralsJoin(Sign(negative), body);
      assert multiset(Sign(negative))['.'] == 0;
      assert s == Sign(negative) + body;
    }
  }

  lemma NumeralsJoin(a: string, b: string)
    requires NumeralChars(a) && NumeralChars(b)
    ensures NumeralChars(a + b) && multiset(a + b)['.'] == multiset(a)['.'] + multiset(b)['.']
  {
    assert multiset(a + b) == multiset(a) + multiset(b);
  }

  /** What `i64::from_str` accepts holds digits and signs only. */
  lemma IntegerNumerals(s: string)
    requires ParseI64(s).Some?
    ensures NumeralChars(s) && multiset(s)['.'] == 0
  {
    ParseI64Spec(s);
    assert '.' !in s;
  }

  /** An accepted unsigned text holds numeral characters and at most one `.`. */
  lemma UnsignedNumerals(body: string)
    requires ParseUnsigned(body).Ok?
    ensures NumeralChars(body) && multiset(body)['.'] <= 1
  {
    match Find(body, '.')
    case Some(dot) =>
      UnsignedDottedParts(body, dot);
      SplitAtDot(body, dot);
      DottedNumerals(body[..dot], body[dot + 1..]);
    case None =>
      IntegerNumerals(body);
  }

  /** Around the first `.`, both parts of an accepted text were read. */
  lemma UnsignedDottedParts(body: string, dot: nat)
    requires ParseUnsigned(body).Ok? && Find(body, '.') == Some(dot)
    ensures ParseI64(body[..dot]).Some? && CentsOf(body[dot + 1..]).Ok?
  {
  }

  lemma SplitAtDot(body: string, dot: nat)
    requires dot < |body| && body[dot] == '.'
    ensures body == body[..dot] + "." + body[dot + 1..]
  {
  }

  lemma DottedNumerals(ip: string, fs: string)
    requires ParseI64(ip).Some? && CentsOf(fs).Ok?
    ensures NumeralChars(ip + "." + fs) && multiset(ip + "." + fs)['.'] <= 1
  {
    IntegerNumerals(ip);
    if fs != [] {
      CentsOfRange(fs);
      IntegerNumerals(fs);
    }
    NumeralsJoin(ip, ".");
    NumeralsJoin(ip + ".", fs);
  }

  // ---------------------------------------------------------------------
  // Display

  /** Rust's `c / 100` on `i64`: the quotient rounded toward zero. */
  function Quot100(c: int): (q: int)
    ensures c >= 0 ==> 0 <= c - 100 * q < 100
    ensures c < 0 ==> -100 < c - 100 * q <= 0
  {
    if c >= 0 then c / 100 else -((-c) / 100)
  }

  /** Rust's `c % 100` on `i64`: the remainder takes the sign of `c`. */
  function Rem100(c: int): (r: int)
    ensures c == 100 * Quot100(c) + r
    ensures -100 < r < 100
    ensures r < 0 ==> c < 0
    ensures r > 0 ==> c > 0
  {
    c - 100 * Quot100(c)
  }

  function Abs(n: int): nat
  {
    if n < 0 then -n else n
  }

  /**
   * `Display for Money`: the truncated quotient by 100, a `.`, and the
   * absolute value of the remainder in two digits. A sign appears only
   * when the quotient is nonzero, so amounts from -0.99 to -0.01 print
   * as positive.
   */
  function Format(m: Money): (s: string)
    ensures |s| >= 4 && s[|s| - 3] == '.' && AllDigits(s[|s| - 2..])
    ensures s[0] == '-' <==> m.centavos <= -100
  {
    var reais := Quot100(m.centavos);
    var centavos := Abs(Rem100(m.centavos));
    var s := IntToString(reais) + "." + Pad2(centavos);
    assert s[|s| - 2..] == Pad2(centavos);
    s
  }

  /**
   * The display with the sign kept for every negative amount: `-` when the
   * count is negative, then the magnitude in reais and two digits of
   * centavos.
   */
  function FormatSigned(m: Money): (s: string)
    ensures |s| >= 4 && s[|s| - 3] == '.' && AllDigits(s[|s| - 2..])
    ensures s[0] == '-' <==> m.centavos < 0
  {
    var c := m.centavos;
    var s := Sign(c < 0) + NatToString(Abs(c) / 100) + "." + Pad2(Abs(c) % 100);
    assert s[|s| - 2..] == Pad2(Abs(c) % 100);
    s
  }

  /** Outside -0.99 .. -0.01 both displays are one and the same string. */
  lemma FormatShape(m: Money)
    requires m.centavos >= 0 || m.centavos <= -100
    ensures Format(m) == FormatSigned(m)
  {
    var c := m.centavos;
    var q := Quot100(c);
    assert q == Signed(c < 0, Abs(c) / 100);
    assert Abs(Rem100(c)) == Abs(c) % 100;
    assert IntToString(q) == Sign(c < 0) + NatToString(Abs(c) / 100);
  }

  /** `Parse` reads back every display `FormatSigned` produces. */
  lemma ParseFormatSigned(m: Money)
    requires IsI64(m.centavos)
    ensures Parse(FormatSigned(m)) == Ok(m)
  {
    assert DigitsValue(NatToString(Abs(m.centavos) / 100)) * 100 + Hundredths(Pad2(Abs(m.centavos) % 100))
        == Abs(m.centavos);
    DecimalUntrimmed(m.centavos < 0, NatToString(Abs(m.centavos) / 100), Pad2(Abs(m.centavos) % 100), Abs(m.centavos));
    assert Money(Signed(m.centavos < 0, Abs(m.centavos))) == m;
  }

  /**
   * The round trip the display and the parser complete: every amount
   * except those from -0.99 to -0.01 is read back as itself.
   */
  lemma ParseFormat(m: Money)
    requires IsI64(m.centavos)
    requires m.centavos >= 0 || m.centavos <= -100
    ensures Parse(Format(m)) == Ok(m)
  {
    FormatShape(m);
    ParseFormatSigned(m);
  }

  /** Amounts from -0.99 to -0.01 lose their sign in the display. */
  lemma FormatDropsSign(m: Money)
    requires -100 < m.centavos < 0
    ensures Format(m) == "0." + Pad2(-m.centavos)
    ensures Parse(Format(m)) == Ok(Money(-m.centavos)) && Parse(Format(m)) != Ok(m)
  {
    DropsSignDisplay(m);
    ZeroReaisAmount(m);
    assert Money(-m.centavos) != m;
  }

  lemma DropsSignDisplay(m: Money)
    requires -100 < m.centavos < 0
    ensures Format(m) == "0." + Pad2(-m.centavos)
  {
    var c := m.centavos;
    assert Quot100(c) == 0 && Abs(Rem100(c)) == -c;
    assert IntToString(0) == "0";
  }

  lemma ZeroReaisAmount(m: Money)
    requires -100 < m.centavos < 0
    ensures Parse("0." + Pad2(-m.centavos)) == Ok(Money(-m.centavos))
  {
    ZeroReaisRead(Pad2(-m.centavos));
  }

  /** `0.cc` reads as cc centavos. */
  lemma ZeroReaisRead(fs: string)
    requires AllDigits(fs) && |fs| == 2
    ensures Parse("0." + fs) == Ok(Money(DigitsValue(fs)))
  {
    assert "0." + fs == Sign(false) + "0" + "." + fs;
    assert DigitsValue("0") == 0;
    DecimalUntrimmed(false, "0", fs, DigitsValue(fs));
  }

  /** The display spelled out: sign, reais without leading zeros, `.`, two digits. */
  lemma FormatDigits(negative: bool, reais: nat, cents: nat)
    requires cents < 100 && (negative ==> reais > 0)
    ensures Format(Money(Signed(negative, reais * 100 + cents)))
            == Sign(negative) + NatToString(reais) + "." + Pad2(cents)
  {
    var m := Money(Signed(negative, reais * 100 + cents));
    assert Abs(m.centavos) / 100 == reais && Abs(m.centavos) % 100 == cents;
    FormatShape(m);
  }

  /** Hundredths are always fewer than a hundred. */
  lemma HundredthsBelow(fs: string)
    requires AllDigits(fs) && |fs| <= 2
    ensures Hundredths(fs) < 100
  {
    DigitsValueShort(fs);
  }

  /**
   * Reading an amount and displaying it gives its canonical spelling:
   * the whitespace and leading zeros go, one decimal digit becomes two.
   * A `-` before zero reais is left out here: `-0.01` to `-0.99` lose
   * their sign on display (`FormatDropsSign`), and a zero amount is
   * displayed as `0.00` whatever its spelling.
   */
  lemma FormatOfParse(before: string, negative: bool, ds: string, fs: string, after: string, reais: nat, cents: nat)
    requires AllWhitespace(before) && AllWhitespace(after)
    requires ds != [] && AllDigits(ds) && DigitsValue(ds) <= I64Max
    requires AllDigits(fs) && |fs| <= 2
    requires reais == DigitsValue(ds) && cents == Hundredths(fs)
    requires negative ==> reais > 0
    ensures Parse(before + Sign(negative) + ds + "." + fs + after) == Ok(Money(Signed(negative, reais * 100 + cents)))
    ensures cents < 100
    ensures Format(Money(Signed(negative, reais * 100 + cents))) == Sign(negative) + NatToString(reais) + "." + Pad2(cents)
  {
    ParseDecimal(before, negative, ds, fs, after);
    HundredthsBelow(fs);
    FormatDigits(negative, reais, cents);
  }

  /** `7.5` reads as 750 centavos and displays as `7.50`. */
  lemma FormatOfParseExample()
    ensures Parse(" 007.5 ") == Ok(Money(750)) && Format(Money(750)) == "7.50"
  {
    SevenFiftyPieces();
    FormatOfParse(" ", false, "007", "5", " ", 7, 50);
  }

  /** The pieces of ` 007.5 ` and `7.50`; stated apart only to keep the solver's work small. */
  lemma SevenFiftyPieces()
    ensures DigitsValue("007") == 7 && Hundredths("5") == 50
    ensures NatToString(7) == "7" && Pad2(50) == "50"
    ensures " " + Sign(false) + "007" + "." + "5" + " " == " 007.5 " && AllWhitespace(" ")
  {
    assert "007"[..2] == "00" && "00"[..1] == "0";
  }

  /** The pieces of 123.45, 7.50, -20.50 and -7.50 as the display writes them; stated apart only to keep the solver's work small. */
  lemma FormatPieces()
    ensures NatToString(123) == "123" && NatToString(7) == "7" && NatToString(20) == "20"
    ensures Pad2(45) == "45" && Pad2(50) == "50"
    ensures Sign(false) + "123" + "." + "45" == "123.45" && Sign(false) + "7" + "." + "50" == "7.50"
    ensures Sign(true) + "20" + "." + "50" == "-20.50" && Sign(true) + "7" + "." + "50" == "-7.50"
  {
  }

  /** The display of the amounts the source's own examples print. */
  lemma FormatExamples()
    ensures Format(Money(12345)) == "123.45"
    ensures Format(Money(750)) == "7.50"
    ensures Format(Money(-2050)) == "-20.50"
    ensures Format(Money(-750)) == "-7.50"
  {
    FormatPieces();
    FormatDigits(false, 123, 45);
    FormatDigits(false, 7, 50);
    FormatDigits(true, 20, 50);
    FormatDigits(true, 7, 50);
  }

  /** Whole reais are displayed with `.00`. */
  lemma FormatFromReais(reais: int)
    ensures Format(FromReais(reais)) == IntToString(reais) + ".00"
  {
    var m := FromReais(reais);
    var c := m.centavos;
    assert Quot100(c) == reais;
    assert Abs(Rem100(c)) == 0;
    assert Pad2(0) == "00";
    assert Format(m) == IntToString(Quot100(c)) + "." + Pad2(Abs(Rem100(c)));
  }

  lemma FormatFromReaisExample()
    ensures Format(FromReais(100)) == "100.00"
  {
    FormatFromReais(100);
    assert IntToString(100) == "100";
  }

  /** -0.50 is displayed as 0.50; the corrected display keeps the sign. */
  lemma FormatDropsSignExample()
    ensures Format(Money(-50)) == "0.50" && FormatSigned(Money(-50)) == "-0.50"
  {
    DropsSignDisplay(Money(-50));
    assert Pad2(50) == "50" && NatToString(0) == "0";
    assert FormatSigned(Money(-50)) == Sign(true) + NatToString(0) + "." + Pad2(50);
  }

  /** Amounts the display writes are read back: 123.45, 7.50 and -20.50. */
  lemma ParseExamples()
    ensures Parse("123.45") == Ok(Money(12345))
    ensures Parse("7.50") == Ok(Money(750))
    ensures Parse("-20.50") == Ok(Money(-2050))
  {
    FormatExamples();
    ParseFormat(Money(12345));
    ParseFormat(Money(750));
    ParseFormat(Money(-2050));
  }

  /** The pieces of `7.5`, `-7.5` and `1.-5` as `i64::from_str` and `CentsOf` read them; stated apart only to keep the solver's work small. */
  lemma TenthsPieces()
    ensures ParseI64("7") == Some(7) && ParseI64("1") == Some(1)
    ensures CentsOf("5") == Ok(50) && CentsOf("-5") == Ok(-5)
    ensures Sign(false) + "7" + "." + "5" == "7.5" && Sign(true) + "7" + "." + "5" == "-7.5"
    ensures Sign(false) + "1" + "." + "-5" == "1.-5"
  {
  }

  /** The pieces of `100`, `100.` and `-100`; stated apart only to keep the solver's work small. */
  lemma HundredPieces()
    ensures ParseI64("100") == Some(100)
    ensures Sign(false) + "100" == "100" && Sign(true) + "100" == "-100"
    ensures Sign(false) + "100" + "." + "" == "100."
  {
    assert NatToString(100) == "100";
    DigitsParse("100");
  }

  /** A single decimal digit is tenths: 7.5 is 750 centavos. */
  lemma ParseTenthsExamples()
    ensures Parse("7.5") == Ok(Money(750))
    ensures Parse("-7.5") == Ok(Money(-750))
  {
    TenthsPieces();
    ParseAmount(false, "7", "5", 7, 50);
    ParseAmount(true, "7", "5", 7, 50);
  }

  /** Whole reais need no `.`, and a `.` with nothing after it adds nothing. */
  lemma ParseWholeExamples()
    ensures Parse("100") == Ok(FromReais(100))
    ensures Parse("100.") == Ok(FromReais(100))
    ensures Parse("-100") == Ok(Money(-10000))
  {
    HundredPieces();
    ParseInteger(false, "100", 100);
    ParseAmount(false, "100", "", 100, 0);
    ParseInteger(true, "100", 100);
  }

  /** Blank text is zero. */
  lemma ParseBlankExample()
    ensures Parse("") == Ok(Zero) && Parse("  ") == Ok(Zero)
  {
    assert Trim("  ") == [];
  }

  /**
   * The sign is taken off before `i64::from_str` reads what is left, which
   * accepts a sign of its own: a doubled `-` cancels out, and a `-` after
   * the `.` subtracts centavos.
   */
  lemma ParseSignOddities()
    ensures Parse("--5") == Ok(Money(500))
    ensures Parse("1.-5") == Ok(Money(95))
  {
    SignPieces();
    ParseInteger(true, "-5", -5);
    ParseAmount(false, "1", "-5", 1, -5);
  }

  /** The pieces of `--5`, `1.-5` and `1.234`; stated apart only to keep the solver's work small. */
  lemma SignPieces()
    ensures ParseI64("-5") == Some(-5) && Sign(true) + "-5" == "--5"
    ensures ParseI64("1") == Some(1) && CentsOf("-5") == Ok(-5)
    ensures Sign(false) + "1" + "." + "-5" == "1.-5"
    ensures Utf8Len("234") == 3 && Sign(false) + "1" + "." + "234" == "1.234"
  {
  }

  /** An empty integer part, or nothing after the `-`, is an error. */
  lemma ParseMissingDigitsExamples()
    ensures Parse(".5") == Err(InvalidReaisPart)
    ensures Parse("-") == Err(InvalidNumber)
  {
  }

  lemma ParseTooManyDecimalPlacesExample()
    ensures Parse("1.234") == Err(TooManyDecimalPlaces)
  {
    SignPieces();
    ParseTooManyDecimalPlaces(false, "1", "234");
  }

  // ---------------------------------------------------------------------
  // Arithmetic: `Add`, `Sub` and `Mul<i32>` act on the count of centavos

  function Add(a: Money, b: Money): Money
  {
    Money(a.centavos + b.centavos)
  }

  function Sub(a: Money, b: Money): Money
  {
    Money(a.centavos - b.centavos)
  }

  /** `Mul<i32>`: the count of centavos times a whole factor. */
  function Mul(a: Money, factor: int): Money
  {
    Money(a.centavos * factor)
  }

  /** The reference for `Mul`: `factor` copies of `a` added up. */
  function Repeated(a: Money, factor: nat): Money
  {
    if factor == 0 then Zero else Add(Repeated(a, factor - 1), a)
  }

  /** Multiplying by a count of days is adding the amount once per day. */
  lemma {:induction false} MulIsRepeatedAdd(a: Money, factor: nat)
    ensures Mul(a, factor) == Repeated(a, factor)
  {
    if factor > 0 {
      MulIsRepeatedAdd(a, factor - 1);
      assert a.centavos * factor == a.centavos * (factor - 1) + a.centavos;
    }
  }

  /** Amounts form a commutative group under `Add`, with `Zero` and `Sub`. */
  lemma AddLaws(a: Money, b: Money, c: Money)
    ensures Add(a, b) == Add(b, a)
    ensures Add(Add(a, b), c) == Add(a, Add(b, c))
    ensures Add(a, Zero) == a
    ensures Sub(Add(a, b), b) == a && Add(Sub(a, b), b) == a
    ensures Sub(a, a) == Zero
  {
  }

  /** `Mul` distributes over `Add` and composes factors. */
  lemma MulLaws(a: Money, b: Money, n: int, k: int)
    ensures Mul(Add(a, b), n) == Add(Mul(a, n), Mul(b, n))
    ensures Mul(a, n + k) == Add(Mul(a, n), Mul(a, k))
    ensures Mul(Mul(a, n), k) == Mul(a, n * k)
    ensures Mul(a, 0) == Zero && Mul(a, 1) == a
  {
    assert (a.centavos + b.centavos) * n == a.centavos * n + b.centavos * n;
    assert a.centavos * (n + k) == a.centavos * n + a.centavos * k;
    assert a.centavos * n * k == a.centavos * (n * k);
  }

  /** Whole reais add and multiply as the numbers of reais do. */
  lemma FromReaisLaws(r: int, s: int, n: int)
    ensures Add(FromReais(r), FromReais(s)) == FromReais(r + s)
    ensures Sub(FromReais(r), FromReais(s)) == FromReais(r - s)
    ensures Mul(FromReais(r), n) == FromReais(r * n)
  {
    assert r * 100 * n == r * n * 100;
  }

  /** The derived `Ord`: amounts compare as their counts of centavos. */
  predicate Below(a: Money, b: Money)
  {
    a.centavos < b.centavos
  }

  predicate AtMost(a: Money, b: Money)
  {
    Below(a, b) || a == b
  }

  /** `Below` is a strict total order, and adding an amount preserves it. */
  lemma OrderLaws(a: Money, b: Money, c: Money)
    ensures Below(a, b) || a == b || Below(b, a)
    ensures !(Below(a, b) && Below(b, a)) && !Below(a, a)
    ensures Below(a, b) && Below(b, c) ==> Below(a, c)
    ensures Below(a, b) <==> Below(Add(a, c), Add(b, c))
    ensures AtMost(a, b) <==> !Below(b, a)
  {
  }
}
