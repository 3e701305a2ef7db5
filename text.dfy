/**
 * The slice of Rust's standard library that the currency parser and its
 * display rely on: `char::is_whitespace` and `str::trim`, `str::find` of a
 * character, `str::len` (a count of UTF-8 bytes), `i64::from_str`, and the
 * decimal rendering of `{}` and `{:02}` for integers.
 */
module Text {
  import opened Results

  /** Unicode White_Space, the set `char::is_whitespace` accepts. */
  predicate IsWhitespace(c: char)
  {
    ('\t' <= c <= '\r') || c == ' ' || c == '\U{0085}' || c == '\U{00A0}' ||
    c == '\U{1680}' || ('\U{2000}' <= c <= '\U{200A}') || c == '\U{2028}' ||
    c == '\U{2029}' || c == '\U{202F}' || c == '\U{205F}' || c == '\U{3000}'
  }

  predicate AllWhitespace(s: string)
  {
    forall i :: 0 <= i < |s| ==> IsWhitespace(s[i])
  }

  /** No whitespace at either end: what `str::trim` leaves behind. */
  predicate Trimmed(s: string)
  {
    s == [] || (!IsWhitespace(s[0]) && !IsWhitespace(s[|s| - 1]))
  }

  function TrimStart(s: string): string
  {
    if s != [] && IsWhitespace(s[0]) then TrimStart(s[1..]) else s
  }

  function TrimEnd(s: string): string
  {
    if s != [] && IsWhitespace(s[|s| - 1]) then TrimEnd(s[..|s| - 1]) else s
  }

  /** `str::trim`: removes whitespace from both ends. */
  function Trim(s: string): string
  {
    TrimEnd(TrimStart(s))
  }

  lemma {:induction false} TrimStartSpec(s: string)
    ensures |TrimStart(s)| <= |s| && TrimStart(s) == s[|s| - |TrimStart(s)|..]
    ensures AllWhitespace(s[..|s| - |TrimStart(s)|])
    ensures TrimStart(s) != [] ==> !IsWhitespace(TrimStart(s)[0])
  {
    if s != [] && IsWhitespace(s[0]) {
      TrimStartSpec(s[1..]);
      var k := |s| - |TrimStart(s)|;
      assert s[..k] == [s[0]] + s[1..][..k - 1];
    }
  }

  lemma {:induction false} TrimEndSpec(s: string)
    ensures |TrimEnd(s)| <= |s| && TrimEnd(s) == s[..|TrimEnd(s)|]
    ensures AllWhitespace(s[|TrimEnd(s)|..])
    ensures TrimEnd(s) != [] ==> !IsWhitespace(TrimEnd(s)[|TrimEnd(s)| - 1])
  {
    if s != [] && IsWhitespace(s[|s| - 1]) {
      var t := s[..|s| - 1];
      TrimEndSpec(t);
      assert s[|TrimEnd(s)|..] == t[|TrimEnd(t)|..] + [s[|s| - 1]];
    }
  }

  /** `Trim` leaves no whitespace at either end. */
  lemma TrimSpec(s: string)
    ensures Trimmed(Trim(s)) && |Trim(s)| <= |s|
  {
    TrimStartSpec(s);
    TrimEndSpec(TrimStart(s));
  }

  /**
   * `Trim` leaves a slice of its input, and what it cuts off on either
   * side is all whitespace.
   */
  lemma TrimCuts(s: string)
    ensures |TrimStart(s)| <= |s|
    ensures |s| - |TrimStart(s)| + |Trim(s)| <= |s|
    ensures Trim(s) == s[|s| - |TrimStart(s)|..|s| - |TrimStart(s)| + |Trim(s)|]
    ensures AllWhitespace(s[..|s| - |TrimStart(s)|])
    ensures AllWhitespace(s[|s| - |TrimStart(s)| + |Trim(s)|..])
  {
    var t := TrimStart(s);
    TrimStartSpec(s);
    TrimEndSpec(t);
    var r := TrimEnd(t);
    var i := |s| - |t|;
    SliceOfSuffix(s, i, |r|);
  }

  lemma SliceOfSuffix(s: string, i: nat, n: nat)
    requires i + n <= |s|
    ensures s[i..][..n] == s[i..i + n] && s[i..][n..] == s[i + n..]
  {
  }

  lemma {:induction false} TrimStartPadded(w: string, core: string)
    requires AllWhitespace(w)
    requires core == [] || !IsWhitespace(core[0])
    ensures TrimStart(w + core) == core
  {
    if w != [] {
      assert (w + core)[1..] == w[1..] + core;
      TrimStartPadded(w[1..], core);
    }
  }

  lemma {:induction false} TrimEndPadded(core: string, w: string)
    requires AllWhitespace(w)
    requires core == [] || !IsWhitespace(core[|core| - 1])
    ensures TrimEnd(core + w) == core
  {
    if w != [] {
      assert (core + w)[..|core + w| - 1] == core + w[..|w| - 1];
      TrimEndPadded(core, w[..|w| - 1]);
    }
  }

  /** Surrounding whitespace is exactly what `str::trim` removes. */
  lemma TrimPadded(before: string, core: string, after: string)
    requires AllWhitespace(before) && AllWhitespace(after) && Trimmed(core)
    ensures Trim(before + core + after) == core
  {
    assert before + core + after == before + (core + after);
    if core == [] {
      assert before + core + after == before + after;
      TrimStartPadded(before + after, []);
      assert before + after + [] == before + after;
      TrimEndPadded([], []);
    } else {
      TrimStartPadded(before, core + after);
      TrimEndPadded(core, after);
    }
  }

  /** Number of bytes the UTF-8 encoding of `c` takes. */
  function Utf8Width(c: char): (n: nat)
    ensures 1 <= n <= 4
    ensures n == 1 <==> c as int < 0x80
  {
    if c as int < 0x80 then 1
    else if c as int < 0x800 then 2
    else if c as int < 0x1_0000 then 3
    else 4
  }

  /** `str::len`: the length of a string in UTF-8 bytes. */
  function Utf8Len(s: string): (n: nat)
    ensures |s| <= n <= 4 * |s|
  {
    if s == [] then 0 else Utf8Width(s[0]) + Utf8Len(s[1..])
  }

  /** A string of ASCII characters takes one byte per character. */
  lemma {:induction false} Utf8LenAscii(s: string)
    requires forall i :: 0 <= i < |s| ==> s[i] as int < 0x80
    ensures Utf8Len(s) == |s|
  {
    if s != [] {
      assert forall i :: 0 <= i < |s[1..]| ==> s[1..][i] == s[i + 1];
      Utf8LenAscii(s[1..]);
    }
  }

  /** `str::find` of one character: the index of its first occurrence. */
  function Find(s: string, c: char): (r: Option<nat>)
    ensures r.None? <==> c !in s
    ensures r.Some? ==> r.value < |s| && s[r.value] == c && c !in s[..r.value]
  {
    if s == [] then None
    else if s[0] == c then Some(0)
    else match Find(s[1..], c)
      case None => None
      case Some(k) =>
        assert s[..k + 1] == [s[0]] + s[1..][..k];
        Some(k + 1)
  }

  predicate IsDigit(c: char)
  {
    '0' <= c <= '9'
  }

  predicate AllDigits(s: string)
  {
    forall i :: 0 <= i < |s| ==> IsDigit(s[i])
  }

  function DigitValue(c: char): (d: nat)
    requires IsDigit(c)
    ensures d < 10
  {
    c as int - '0' as int
  }

  function DigitChar(d: nat): (c: char)
    requires d < 10
    ensures IsDigit(c) && DigitValue(c) == d
  {
    ('0' as int + d) as char
  }

  /** The number a string of decimal digits denotes, most significant first. */
  function DigitsValue(s: string): nat
    requires AllDigits(s)
  {
    if s == [] then 0 else DigitsValue(s[..|s| - 1]) * 10 + DigitValue(s[|s| - 1])
  }

  const I64Min: int := -0x8000_0000_0000_0000
  const I64Max: int := 0x7FFF_FFFF_FFFF_FFFF

  predicate IsI64(n: int)
  {
    I64Min <= n <= I64Max
  }

  /**
   * `i64::from_str`: one optional `+` or `-`, then at least one ASCII digit,
   * and a value that fits in 64 signed bits.
   */
  function ParseI64(s: string): Option<int>
  {
    if s == [] || s == "+" || s == "-" then None
    else
      var signed := s[0] == '+' || s[0] == '-';
      var digits := if signed then s[1..] else s;
      if !AllDigits(digits) then None
      else
        var v: int := if s[0] == '-' then 0 - (DigitsValue(digits) as int) else DigitsValue(digits);
        if IsI64(v) then Some(v) else None
  }

  /**
   * What `i64::from_str` accepts: a 64-bit value, written as digits after
   * at most one sign, negative only after `-`; and every digit string
   * whose value fits is accepted.
   */
  lemma ParseI64Spec(s: string)
    ensures ParseI64(s).Some? ==> IsI64(ParseI64(s).value)
    ensures ParseI64(s).Some? ==> s != [] && s != "+" && s != "-"
    ensures ParseI64(s).Some? ==> forall i :: 0 < i < |s| ==> IsDigit(s[i])
    ensures ParseI64(s).Some? ==> s[0] == '+' || s[0] == '-' || IsDigit(s[0])
    ensures ParseI64(s).Some? && s[0] == '-' ==> ParseI64(s).value <= 0
    ensures ParseI64(s).Some? && s[0] != '-' ==> ParseI64(s).value >= 0
    ensures s != [] && AllDigits(s) && IsI64(DigitsValue(s)) ==> ParseI64(s) == Some(DigitsValue(s))
    ensures s != [] && AllDigits(s) && !IsI64(DigitsValue(s)) ==> ParseI64(s).None?
  {
  }

  /** The value `i64::from_str` accepts is the digits after the sign, negated after `-`. */
  lemma ParseI64Value(s: string)
    requires ParseI64(s).Some?
    ensures |s| >= 2 && s[0] == '-' ==> AllDigits(s[1..]) && ParseI64(s).value == -(DigitsValue(s[1..]) as int)
    ensures |s| >= 2 && s[0] == '+' ==> AllDigits(s[1..]) && ParseI64(s).value == DigitsValue(s[1..])
    ensures s[0] != '-' && s[0] != '+' ==> AllDigits(s) && ParseI64(s).value == DigitsValue(s)
  {
  }

  /** The decimal digits of `n`, without leading zeros: `{}` of a natural number. */
  function NatToString(n: nat): (s: string)
    ensures |s| >= 1 && AllDigits(s) && DigitsValue(s) == n
    ensures s[0] == '0' ==> n == 0 && s == "0"
  {
    if n < 10 then [DigitChar(n)]
    else
      var p := NatToString(n / 10);
      var s := p + [DigitChar(n % 10)];
      assert s[..|s| - 1] == p;
      s
  }

  /** `{}` of a signed integer. */
  function IntToString(n: int): (s: string)
    ensures |s| >= 1
    ensures s[0] == '-' <==> n < 0
    ensures n < 0 ==> AllDigits(s[1..]) && |s| >= 2 && DigitsValue(s[1..]) == -n
    ensures n >= 0 ==> AllDigits(s) && DigitsValue(s) == n
    ensures n > 0 ==> s[0] != '0'
    ensures n < 0 ==> s[1] != '0'
    ensures n == 0 ==> s == "0"
  {
    if n < 0 then (var t := "-" + NatToString(-n); assert t[1..] == NatToString(-n); t) else NatToString(n)
  }

  /** `{:02}` of a number below 100: two digits, zero padded. */
  function Pad2(n: nat): (s: string)
    requires n < 100
    ensures |s| == 2 && AllDigits(s) && DigitsValue(s) == n
  {
    var s := [DigitChar(n / 10), DigitChar(n % 10)];
    assert s[..1] == [s[0]] && s[..1][..0] == [];
    assert DigitsValue(s[..1]) == n / 10;
    s
  }

  /** `i64::from_str` reads back what `{}` writes, for every 64-bit value. */
  lemma ParseI64OfIntToString(n: int)
    requires IsI64(n)
    ensures ParseI64(IntToString(n)) == Some(n)
  {
    var s := IntToString(n);
    if n < 0 {
      assert s[1..] == NatToString(-n);
    }
  }

  /** A leading `+` changes nothing and a leading `-` negates, as long as the value fits. */
  lemma ParseI64Signed(ds: string)
    requires ds != [] && AllDigits(ds)
    ensures IsI64(DigitsValue(ds)) ==> ParseI64("+" + ds) == Some(DigitsValue(ds))
    ensures IsI64(-(DigitsValue(ds) as int)) ==> ParseI64("-" + ds) == Some(-(DigitsValue(ds) as int))
    ensures !IsI64(DigitsValue(ds)) ==> ParseI64("+" + ds).None?
    ensures !IsI64(-(DigitsValue(ds) as int)) ==> ParseI64("-" + ds).None?
  {
    assert ("+" + ds)[1..] == ds && ("-" + ds)[1..] == ds;
  }

  /** At most two digits denote a number below 100. */
  lemma DigitsValueShort(s: string)
    requires AllDigits(s) && |s| <= 2
    ensures DigitsValue(s) < 100
    ensures |s| == 1 ==> DigitsValue(s) == DigitValue(s[0])
  {
    if |s| == 2 {
      assert s[..1][..0] == [];
    } else if |s| == 1 {
      assert s[..0] == [];
    }
  }

  /**
   * What `i64::from_str` can accept in at most two bytes: one digit, two
   * digits, or a sign and a digit; each character is one byte.
   */
  lemma ParseI64Short(s: string)
    requires ParseI64(s).Some? && Utf8Len(s) <= 2
    ensures |s| == Utf8Len(s)
    ensures |s| == 1 ==> IsDigit(s[0]) && ParseI64(s).value == DigitValue(s[0])
    ensures |s| == 2 ==> (IsDigit(s[0]) || s[0] == '+' || s[0] == '-') && IsDigit(s[1])
    ensures |s| == 2 ==> -9 <= ParseI64(s).value <= 99
  {
    ParseI64Spec(s);
    assert forall i :: 0 <= i < |s| ==> s[i] as int < 0x80;
    Utf8LenAscii(s);
    if |s| == 1 {
      DigitsValueShort(s);
    } else if |s| == 2 {
      if s[0] == '+' || s[0] == '-' {
        DigitsValueShort(s[1..]);
      } else {
        DigitsValueShort(s);
      }
    }
  }
}
