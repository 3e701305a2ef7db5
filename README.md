# calculadora-transporte in Dafny

A model of the core of `calculadora-transporte`, a small Rust calculator
for a transport allowance. It has three connected pieces:

- `Money`: an amount held as a signed count of centavos. It comes with a
  decimal parser (`parse`), a display (`reais.cc`), exact `+`, `-` and
  `* i32`, and the ordering of the count.
- `contar_dias_uteis`: counts the Monday-to-Friday dates of a month. The
  month must be in 1..12 and the year in 1900..2100. `obter_nome_mes`
  gives the Portuguese month names.
- `calcular_valores` and `calcular_valores_com_calendario` build the result records:
  - transport cost = the daily fare × the worked days × 2 (a trip there and a trip back);
  - final payment = the fixed fee + the transport cost − the deductions;
  - the calendar variant takes the worked days from the month's business
    days less its holidays, never below zero.

Modules, one per file:

| file | module | what |
|---|---|---|
| `results.dfy` | `Results` | `Option` and `Result` |
| `text.dfy` | `Text` | the parts of Rust's standard library the parser and the display use: `str::trim` (Unicode White_Space), `str::find`, `str::len` as a count of UTF-8 bytes, `i64::from_str`, and the `{}` and `{:02}` formats of integers |
| `currency.dfy` | `Currency` | `Money`: parsing, display, arithmetic, ordering |
| `gregorian.dfy` | `Gregorian` | a proleptic Gregorian calendar that stands in for the `chrono` crate: leap years, month lengths, next and previous day, comparison, and weekday from a day number counted from 0001-01-01 (a Monday) |
| `calendario.dfy` | `Calendario` | `contar_dias_uteis` as a method with a loop, its specification function `DiasUteis`, and `obter_nome_mes` |
| `calculo.dfy` | `Calculo` | the two result records and the two calculations |

`contar_dias_uteis` walks the dates of the month in a loop. It is modelled
as the method `Calendario.ContarDiasUteis`, proved equal to the function
`Calendario.DiasUteis`. That function counts business days by recursion
over the days of the month. The pure functions (`Calculo.CalcularValoresComCalendario`
and the lemmas) use `DiasUteis`, since a function cannot call a method.

## Model

| member | source | states |
|---|---|---|
| Currency.FromReais | src/lib.rs:10-12 | the count of centavos is 100 times the reais, so it is a multiple of 100 |
| Currency.FromCentavos | src/lib.rs:14-16 | the amount holds exactly the count it is given |
| Currency.ToCentavos | src/lib.rs:18-20 | reading the count back and rebuilding the amount gives the same amount |
| Text.TrimSpec | src/lib.rs:23 | `Text.Trim`, the model of `str::trim`, leaves no whitespace at either end and never lengthens the text |
| Text.TrimCuts | src/lib.rs:23 | the trimmed text is a contiguous slice of the input, and only whitespace was cut from each end |
| Text.Find | src/lib.rs:31-33 | `str::find` gives no index exactly when the character is absent; otherwise the index of its first occurrence |
| Text.Utf8Len | src/lib.rs:39-42 | `str::len` counts between one and four bytes per character |
| Text.Utf8LenAscii | src/lib.rs:39-42 | ASCII text takes one byte per character |
| Text.ParseI64Spec | src/lib.rs:35-55 | `Text.ParseI64`, the model of `i64::from_str`, accepts only at most one sign followed by digits, within the 64-bit range; the sign decides the sign of the value; a digit string is accepted exactly when its value fits in 64 bits |
| Text.ParseI64Value | src/lib.rs:35-55 | an accepted text is worth its digits' value, negated after a `-` |
| Text.ParseI64OfIntToString | src/lib.rs:35-55 | `i64::from_str` reads back every 64-bit value that `{}` writes |
| Text.ParseI64Signed | src/lib.rs:35-55 | a leading `+` leaves the value unchanged and a leading `-` negates it; out of the 64-bit range either is refused |
| Text.ParseI64Short | src/lib.rs:37-46 | whatever `i64::from_str` accepts in at most two bytes is one digit (worth that digit), or two characters of which the first is a digit or a sign and the second a digit, worth -9..99 |
| Text.IntToString | src/lib.rs:68-70 | `{}` of an integer: a `-` exactly for negative numbers, then the digits of the magnitude, with no leading zero; 0 is written `0` |
| Text.Pad2 | src/lib.rs:69-70 | `{:02}` of a number below 100: exactly two digits denoting it |
| Currency.CentsOfRange | src/lib.rs:37-46 | `Currency.CentsOf`, the fractional part of `parse`: an accepted fractional part is worth -9..99 centavos and was read by `i64::from_str` |
| Currency.CentsOfTooLong | src/lib.rs:37-46 | the fractional part is refused as too long exactly when it takes more than two bytes |
| Currency.CentsOfDigits | src/lib.rs:37-46 | no digit is 0, one digit is tenths (×10), two digits are hundredths |
| Currency.Parse | src/lib.rs:22-26 | blank text, once trimmed, is zero |
| Currency.ParseNegates | src/lib.rs:28-61 | a leading `-` negates the whole amount the rest of the text gives; errors pass through unchanged |
| Currency.SameTrim | src/lib.rs:23 | the result depends on the text only through its trimmed form |
| Currency.ParseAmount | src/lib.rs:28-53 | `Currency.ParseUnsigned`, the part of `parse` after the sign, with a `.`: an optional `-`, an integer part and a fractional part that are each read as integers give ±(reais × 100 + cents) |
| Currency.ParseInteger | src/lib.rs:54-62 | with no `.`, an optional `-` and an integer give ±(reais × 100) |
| Currency.ParseDecimal | src/lib.rs:22-53 | whitespace, an optional `-`, digits, a `.` and zero, one or two digits give ±(digits × 100 + hundredths) |
| Currency.ParseWholeReais | src/lib.rs:22-62 | whitespace, an optional `-` and digits give ±(digits × 100) |
| Currency.ParseTooManyDecimalPlaces | src/lib.rs:44-45 | more than two bytes after the `.` is the "too many decimal places" error |
| Currency.ParseInvalidCentsPart | src/lib.rs:39-43 | one or two bytes after the `.` that `i64::from_str` refuses give the cents-part error |
| Currency.ParseInvalidReaisPart | src/lib.rs:31-35 | an empty or non-integer part before the first `.` gives the reais-part error |
| Currency.ParseInvalidNumber | src/lib.rs:54-55 | with no `.`, text that `i64::from_str` refuses (a lone `-` included) gives the invalid-number error |
| Currency.ParseAcceptsNumerals | src/lib.rs:22-63 | accepted text, once trimmed, holds only digits, signs and at most one `.` |
| Currency.Quot100 | src/lib.rs:68 | Rust's `/ 100` truncates toward zero |
| Currency.Rem100 | src/lib.rs:69 | Rust's `% 100` has the sign of the dividend, and dividend = 100 × quotient + remainder |
| Currency.Format | src/lib.rs:66-71 | the display ends in `.` and two digits, and it starts with `-` exactly when the count is -100 or less |
| Currency.FormatSigned | src/lib.rs:66-71 | the corrected display starts with `-` exactly when the count is negative |
| Currency.FormatShape | src/lib.rs:66-71 | outside -99..-1 centavos the display and the corrected display agree |
| Currency.ParseFormatSigned | src/lib.rs:22-71 | `parse` reads back every 64-bit amount from the corrected display |
| Currency.ParseFormat | src/lib.rs:22-71 | `parse` reads back every 64-bit amount from the display, except for -99..-1 centavos |
| Currency.FormatDropsSign | src/lib.rs:66-71 | from -99 to -1 centavos the display is `0.cc`, which reads back as the positive amount |
| Currency.FormatDigits | src/lib.rs:66-71 | the display is the sign, the reais without leading zeros, `.` and two digits |
| Currency.FormatOfParse | src/lib.rs:22-71 | an amount written as whitespace, an optional `-`, digits, `.` and up to two digits is read as ±(digits × 100 + hundredths) and displayed canonically: the whitespace and leading zeros dropped, two decimal digits. A `-` before zero reais is excluded: `-0.01` to `-0.99` are what `FormatDropsSign` states, and a zero amount displays as `0.00` |
| Currency.FormatOfParseExample | src/lib.rs:22-71 | ` 007.5 ` is read as 750 centavos, displayed `7.50` |
| Currency.FormatExamples | src/lib.rs:469-476 | 12345 → `123.45`, 750 → `7.50`, -2050 → `-20.50`, -750 → `-7.50` |
| Currency.FormatFromReais | src/lib.rs:66-71 | whole reais display as the number followed by `.00` |
| Currency.FormatFromReaisExample | src/lib.rs:473 | 100 reais → `100.00` |
| Currency.FormatDropsSignExample | src/lib.rs:66-71 | -50 centavos display as `0.50`; the corrected display gives `-0.50` |
| Currency.ParseExamples | src/lib.rs:381-388 | `123.45` → 12345, `7.50` → 750, `-20.50` → -2050 |
| Currency.ParseTenthsExamples | src/lib.rs:383-390 | `7.5` → 750, `-7.5` → -750 |
| Currency.ParseWholeExamples | src/lib.rs:384-389 | `100` and `100.` → 100 reais, `-100` → -10000 |
| Currency.ParseBlankExample | src/lib.rs:386-387 | `""` and `"  "` → zero |
| Currency.ParseSignOddities | src/lib.rs:28-55 | the sign is stripped before `i64::from_str`, which accepts another one: `--5` → 500, `1.-5` → 95 |
| Currency.ParseMissingDigitsExamples | src/lib.rs:35-55 | `.5` is a reais-part error and `-` an invalid number |
| Currency.ParseTooManyDecimalPlacesExample | src/lib.rs:44-45 | `1.234` has too many decimal places |
| Currency.MulIsRepeatedAdd | src/lib.rs:90-96 | multiplying by n ≥ 0 is adding the amount n times |
| Currency.AddLaws | src/lib.rs:74-88 | `Currency.Add` and `Currency.Sub`: `+` is commutative and associative with zero as identity, and `-` undoes it |
| Currency.MulLaws | src/lib.rs:74-96 | `Currency.Mul`: `*` distributes over `+` and over sums of factors, composes factors, and ×0 gives zero, ×1 the same amount |
| Currency.FromReaisLaws | src/lib.rs:10-96 | whole reais add, subtract and multiply like the numbers of reais |
| Currency.OrderLaws | src/lib.rs:4-5 | `Currency.Below` and `Currency.AtMost`, the derived `<` and `<=`: the derived ordering is a strict total order on the count, and adding an amount preserves it |
| Gregorian.DaysInMonth | src/lib.rs:108-117 | every month has 28..31 days, and 28 only for February of a common year |
| Gregorian.FromYmd | src/lib.rs:108-119 | a date exists exactly when the month is 1..12 and the day within the month |
| Gregorian.SuccPred | src/lib.rs:117-128 | the next day and the previous day undo each other |
| Gregorian.SuccAfter | src/lib.rs:123-128 | a date is strictly before the next day and strictly after the previous day |
| Gregorian.MonthsAccumulate | src/lib.rs:113-117 | each month starts where the one before it ends |
| Gregorian.MonthsMakeYear | src/lib.rs:113-117 | the months add up to 365 or 366 days |
| Gregorian.YearsFollow | src/lib.rs:113-117 | consecutive years start one year length apart |
| Gregorian.DayNumberSucc | src/lib.rs:128 | the next day has the next day number, across month and year ends too |
| Gregorian.WeekdaySucc | src/lib.rs:124-128 | the weekday advances by one from each day to the next |
| Gregorian.BusinessDayResidue | src/lib.rs:124-125 | a business day is one whose day number is 0..4 modulo 7 |
| Gregorian.WeekdayExamples | src/lib.rs:497-507 | 2024-11-01 is a Friday and 2024-02-01 a Thursday |
| Calendario.BusinessDaysThrough | src/lib.rs:120-129 | among the first k days of a month at most k are business days |
| Calendario.DiasUteis | src/lib.rs:98-132 | a count is returned only for a month in 1..12 and a year in 1900..2100, and it is between 0 and the month's number of days |
| Calendario.ContarDiasUteis | src/lib.rs:98-132 | the loop returns exactly what `DiasUteis` states: the month error, then the year error, otherwise the number of business days of the month |
| Calendario.DiasUteisErrors | src/lib.rs:98-119 | the counter fails exactly when the month is outside 1..12 or the year outside 1900..2100; the month is checked first; the invalid-date error never happens |
| Calendario.DiasUteisBounds | src/lib.rs:98-132 | a valid month has 20..23 business days, never more than it has days |
| Calendario.Week | src/lib.rs:120-129 | seven more consecutive days add exactly five business days |
| Calendario.FourWeeks | src/lib.rs:120-129 | twenty-eight more consecutive days add exactly twenty business days |
| Calendario.WeekdaysAtMost | src/lib.rs:120-129 | no more business days than days |
| Calendario.ThroughIsWeekdaysFrom | src/lib.rs:120-129 | counting the days of the month equals counting their day numbers |
| Calendario.NovemberExample | src/lib.rs:497-501 | November 2024 has 21 business days |
| Calendario.FebruaryExample | src/lib.rs:504-508 | February 2024 has 21 business days |
| Calendario.JanuaryExample | src/lib.rs:98-132 | January 2024 has 23 business days |
| Calendario.DiasUteisErrorExamples | src/lib.rs:511-520 | months 0 and 13 and the years 1899 and 2101 are refused |
| Calendario.ObterNomeMes | src/lib.rs:134-150 | the month can be recovered from its name by `NumeroDoMes` |
| Calendario.NomesDistintos | src/lib.rs:134-150 | no two months share a name |
| Calendario.NomeMesExamples | src/lib.rs:523-528 | 1, 2, 11 and 12 are Janeiro, Fevereiro, Novembro and Dezembro |
| Calculo.CalcularValores | src/lib.rs:173-191 | every input is copied unchanged and there is no calendar; cost = 2 × days × fare and final = fixed + cost − deductions, in centavos |
| Calculo.CustoPorViagem | src/lib.rs:179 | for n ≥ 0 days, the cost is the fare added once for each of the 2n trips |
| Calculo.PagamentoReconcilia | src/lib.rs:180 | the final payment plus the deductions equals the fixed fee plus the cost |
| Calculo.PagamentoMonotono | src/lib.rs:179-180 | larger deductions give a strictly smaller payment; with a non-negative fare, more days never cost less |
| Calculo.DiasTrabalhados | src/lib.rs:202 | the worked days are the business days less the holidays, clamped at zero |
| Calculo.CalcularValoresComCalendario | src/lib.rs:193-225 | fails exactly when the business-day counter fails; on success the calendar information is present and the worked days are not negative |
| Calculo.ComCalendarioErrors | src/lib.rs:193-201 | the calendar variant fails exactly when the month or the year is refused, with the counter's own error |
| Calculo.ComCalendarioOk | src/lib.rs:193-225 | on success the result is `calcular_valores` on the worked days, with the calendar filled in: month, year, name, business days, the holidays as given, and the worked days |
| Calculo.ComCalendarioDias | src/lib.rs:201-202 | the worked days are never negative; with non-negative holidays they are at most the business days (≤ 23); with no holidays they equal them |
| Calculo.CalculoBasico | src/lib.rs:394-404 | (100, 5, 10 days, 0) → cost 100, final 200 |
| Calculo.CalculoComDeducoes | src/lib.rs:407-417 | (150, 7.50, 8 days, 25) → cost 120, final 245 |
| Calculo.ValoresZero | src/lib.rs:420-425 | all zeros give zero cost and zero payment |
| Calculo.ApenasUmaTaxa | src/lib.rs:428-441 | (200, 0, 5 days, 0) → cost 0, final 200; (0, 10, 6 days, 0) → cost 120, final 120 |
| Calculo.DeducoesMaiores | src/lib.rs:444-454 | (50, 5, 3 days, 100) → cost 30, final -20.00 |
| Calculo.ParseDecimalInputs | src/lib.rs:457-466 | `3.75`, `15.50` and `137.95` are read as 375, 1550 and 13795 centavos |
| Calculo.ValoresDecimais | src/lib.rs:457-466 | (123.45, 3.75, 4 days, 15.50) → cost 30, final 137.95 |
| Calculo.EstruturaRetorno | src/lib.rs:479-492 | the inputs come back unchanged |
| Calculo.ComCalendarioNovembro | src/lib.rs:537-565 | November 2024, 2 holidays → 19 days, cost 285.00, final 410.00, with Novembro, 21 and 2 in the calendar |
| Calculo.FeriadosExcessivos | src/lib.rs:568-583 | 25 holidays in November 2024 → 0 days, no cost, final 100.00 |
| Calculo.SemFeriados | src/lib.rs:586-600 | January 2024 with no holidays: the calendar records 0 holidays and the worked days equal the 23 business days |

## Left out

- The console routines `obter_valor_numerico`, `obter_inteiro`, `obter_mes`, `obter_ano` and `obter_feriados` (src/lib.rs:227-303) are left out. They read stdin in retry loops; the only logic they add is a call to `Money::parse` or an integer parse plus range checks.
- `calcular_pagamento` (src/lib.rs:305-373) is left out: it only prints to the terminal and calls the other routines.
- The `chrono` crate is replaced by a calendar of its own (`Gregorian`). Its year range, the `unwrap` of `succ_opt`/`pred_opt` at that range's ends, and its internal representation are not modelled.
- Money arithmetic uses unbounded integers: the `i64` and `i32` overflows of `from_reais`, `+`, `-`, `*` and `reais * 100 + cents` (panics in debug builds) are not modelled. In particular `Currency.ParseFormat` and `Currency.ParseFormatSigned` hold for `i64::MIN` only on unbounded integers: its display `-92233720368547758.08` is read back through `92233720368547758 * 100 + 8`, which overflows `i64` at src/lib.rs:48. The range check of `i64::from_str` is modelled, since it is an error rather than a panic.
- `Calendario.ContarDiasUteis` returns an unbounded count where the source has an `i32`; the count never exceeds 23.
- Calculo.DiasTrabalhados: the `i32` subtraction `dias_uteis_mes - feriados_deduzidos` (src/lib.rs:202) is computed on unbounded integers, so its overflow for holidays near the `i32` limits is not modelled.
- Text.Find: `str::find`, `split_at` and `&s[1..]` work on byte offsets; the model counts positions in characters. For text such as `é.5` the offsets differ but the pieces cut, and so the result of `parse`, are the same.
- The error messages are Portuguese strings in the source. They are modelled as the variants of `Currency.ParseError` and `Calendario.CalendarError`.
- `Money::parse`'s `map_err` closures are modelled only by which error they select.
- `Text.IsWhitespace` is the Unicode White_Space set as a fixed table. No other Unicode property is modelled.
- `obter_nome_mes` panics outside 1..12. `Calendario.ObterNomeMes` requires 1..12 instead.
- `Calculo.CalcularValoresComCalendario` calls `Calendario.DiasUteis`, the function the loop is proved equal to, because a function cannot call a method.

## Findings

| source | as written | input that shows it | evidently intended | confidence | as-written member | corrected member |
|---|---|---|---|---|---|---|
| src/lib.rs:66-71 | the sign comes only from the truncated quotient `c / 100`, which is 0 for -99..-1 centavos | -50 centavos displays as `0.50`, which parses back as +50 | `-0.50`, so that every amount parses back as itself | not executed | Currency.FormatDropsSign (about Currency.Format) | Currency.ParseFormatSigned (about Currency.FormatSigned) |
