/**
 * The calendar part of the calculator: `contar_dias_uteis`, which counts
 * the Monday-to-Friday dates of a month by walking them one by one, and
 * `obter_nome_mes`, the Portuguese name of a month.
 */
module Calendario {
  import opened Results
  import opened Gregorian

  /** The three ways `contar_dias_uteis` reports failure. */
  datatype CalendarError = MonthOutOfRange | YearOutOfRange | InvalidDate

  const FirstYear: int := 1900
  const LastYear: int := 2100

  /** Business days among the days 1 to `k` of a month. */
  function BusinessDaysThrough(year: int, month: int, k: int): (n: nat)
    requires 1 <= month <= 12 && 0 <= k <= DaysInMonth(year, month)
    ensures n <= k
    decreases k
  {
    if k == 0 then 0
    else BusinessDaysThrough(year, month, k - 1) + (if IsBusinessDay(Date(year, month, k)) then 1 else 0)
  }

  /**
   * What `contar_dias_uteis` computes: an error for a month outside 1..12,
   * then for a year outside 1900..2100, and otherwise the number of
   * business days of the month.
   */
  function DiasUteis(mes: nat, ano: int): (r: Result<int, CalendarError>)
    ensures r.Ok? ==> 1 <= mes <= 12 && FirstYear <= ano <= LastYear && 0 <= r.value <= DaysInMonth(ano, mes)
  {
    if mes < 1 || mes > 12 then Err(MonthOutOfRange)
    else if ano < FirstYear || ano > LastYear then Err(YearOutOfRange)
    else Ok(BusinessDaysThrough(ano, mes, DaysInMonth(ano, mes)))
  }

  /**
   * `contar_dias_uteis`: checks the month and the year, finds the first and
   * the last day of the month, and walks from one to the other counting the
   * days that are neither Saturday nor Sunday.
   */
  method ContarDiasUteis(mes: nat, ano: int) returns (r: Result<int, CalendarError>)
    ensures r == DiasUteis(mes, ano)
  {
    if mes < 1 || mes > 12 {
      return Err(MonthOutOfRange);
    }
    if ano < FirstYear || ano > LastYear {
      return Err(YearOutOfRange);
    }
    var primeiroDia: Date;
    match FromYmd(ano, mes, 1) {
      case None => return Err(InvalidDate);
      case Some(date) => primeiroDia := date;
    }
    var proximoMes := if mes == 12 then 1 else mes + 1;
    var proximoAno := if mes == 12 then ano + 1 else ano;
    var ultimoDia: Date;
    match FromYmd(proximoAno, proximoMes, 1) {
      case None => return Err(InvalidDate);
      case Some(date) => ultimoDia := Pred(date);
    }
    ghost var n := DaysInMonth(ano, mes);
    assert ultimoDia == Date(ano, mes, n);
    SuccAfter(ultimoDia);

    var diasUteis := 0;
    var dataAtual := primeiroDia;
    ghost var k := 0;
    while AtMost(dataAtual, ultimoDia)
      invariant 0 <= k <= n
      invariant Valid(dataAtual)
      invariant k < n ==> dataAtual == Date(ano, mes, k + 1)
      invariant k == n ==> dataAtual == Succ(ultimoDia)
      invariant diasUteis == BusinessDaysThrough(ano, mes, k)
      decreases n - k
    {
      var diaSemana := WeekdayOf(dataAtual);
      if diaSemana != Sat && diaSemana != Sun {
        diasUteis := diasUteis + 1;
      }
      dataAtual := Succ(dataAtual);
      k := k + 1;
    }
    return Ok(diasUteis);
  }

  /** The counter fails exactly on a month outside 1..12 or a year outside 1900..2100. */
  lemma DiasUteisErrors(mes: nat, ano: int)
    ensures DiasUteis(mes, ano).Err? <==> mes < 1 || mes > 12 || ano < FirstYear || ano > LastYear
    ensures DiasUteis(mes, ano) == Err(MonthOutOfRange) <==> mes < 1 || mes > 12
    ensures DiasUteis(mes, ano) != Err(InvalidDate)
  {
  }

  // ---------------------------------------------------------------------
  // Counting by day numbers: every seven consecutive days hold five business days

  /** 1 when day number `n` is a Monday to Friday, 0 otherwise. */
  function WeekdayUnit(n: int): nat
  {
    if n % 7 < 5 then 1 else 0
  }

  /** How many of the `len` day numbers from `start` on fall on Monday to Friday. */
  function WeekdaysFrom(start: int, len: nat): nat
  {
    if len == 0 then 0
    else WeekdaysFrom(start, len - 1) + WeekdayUnit(start + len - 1)
  }

  lemma {:induction false} WeekdaysAtMost(start: int, len: nat)
    ensures WeekdaysFrom(start, len) <= len
  {
    if len > 0 {
      WeekdaysAtMost(start, len - 1);
    }
  }

  lemma SevenConsecutive(n: int)
    ensures WeekdayUnit(n) + WeekdayUnit(n + 1) + WeekdayUnit(n + 2) + WeekdayUnit(n + 3)
          + WeekdayUnit(n + 4) + WeekdayUnit(n + 5) + WeekdayUnit(n + 6) == 5
  {
    NextResidue(n);
    NextResidue(n + 1);
    NextResidue(n + 2);
    NextResidue(n + 3);
    NextResidue(n + 4);
    NextResidue(n + 5);
  }

  /** A week more adds exactly five business days, wherever it starts. */
  lemma Week(start: int, len: nat)
    ensures WeekdaysFrom(start, len + 7) == WeekdaysFrom(start, len) + 5
  {
    var m := start + len;
    assert WeekdaysFrom(start, len + 7) == WeekdaysFrom(start, len + 6) + WeekdayUnit(m + 6);
    assert WeekdaysFrom(start, len + 6) == WeekdaysFrom(start, len + 5) + WeekdayUnit(m + 5);
    assert WeekdaysFrom(start, len + 5) == WeekdaysFrom(start, len + 4) + WeekdayUnit(m + 4);
    assert WeekdaysFrom(start, len + 4) == WeekdaysFrom(start, len + 3) + WeekdayUnit(m + 3);
    assert WeekdaysFrom(start, len + 3) == WeekdaysFrom(start, len + 2) + WeekdayUnit(m + 2);
    assert WeekdaysFrom(start, len + 2) == WeekdaysFrom(start, len + 1) + WeekdayUnit(m + 1);
    assert WeekdaysFrom(start, len + 1) == WeekdaysFrom(start, len) + WeekdayUnit(m);
    SevenConsecutive(m);
  }

  /** Four weeks plus up to three days: between 20 and 20 plus the extra days. */
  lemma FourWeeks(start: int, extra: nat)
    ensures WeekdaysFrom(start, 28 + extra) == WeekdaysFrom(start, extra) + 20
  {
    Week(start, extra);
    Week(start, extra + 7);
    Week(start, extra + 14);
    Week(start, extra + 21);
  }

  /** The days of a month have consecutive day numbers. */
  lemma DayNumberInMonth(year: int, month: int, day: int)
    requires 1 <= month <= 12 && 1 <= day <= DaysInMonth(year, month)
    ensures DayNumber(Date(year, month, day)) == DayNumber(Date(year, month, 1)) + day - 1
  {
  }

  /** The count of business days of a month is the count over its day numbers. */
  lemma {:induction false} ThroughIsWeekdaysFrom(year: int, month: int, k: int)
    requires 1 <= month <= 12 && 0 <= k <= DaysInMonth(year, month)
    ensures BusinessDaysThrough(year, month, k) == WeekdaysFrom(DayNumber(Date(year, month, 1)), k)
  {
    if k > 0 {
      ThroughIsWeekdaysFrom(year, month, k - 1);
      DayNumberInMonth(year, month, k);
      BusinessDayResidue(Date(year, month, k));
    }
  }

  /** Every month of the accepted years has between 20 and 23 business days, never more than its days. */
  lemma DiasUteisBounds(mes: nat, ano: int)
    requires 1 <= mes <= 12 && FirstYear <= ano <= LastYear
    ensures 20 <= DiasUteis(mes, ano).value <= 23
    ensures DiasUteis(mes, ano).value <= DaysInMonth(ano, mes)
  {
    var start := DayNumber(Date(ano, mes, 1));
    ThroughIsWeekdaysFrom(ano, mes, DaysInMonth(ano, mes));
    FourWeeks(start, DaysInMonth(ano, mes) - 28);
    WeekdaysAtMost(start, DaysInMonth(ano, mes) - 28);
  }

  /** November 2024 starts on a Friday and has 30 days: a Friday and a Saturday, then four full weeks. */
  lemma NovemberExample()
    ensures DiasUteis(11, 2024) == Ok(21)
  {
    var start := DayNumber(Date(2024, 11, 1));
    WeekdayExamples();
    assert start % 7 == 4;
    NextResidue(start);
    assert WeekdaysFrom(start, 2) == 1;
    ThroughIsWeekdaysFrom(2024, 11, 30);
    FourWeeks(start, 2);
  }

  /** February 2024, a leap month of 29 days, starts on a Thursday, then four full weeks follow. */
  lemma FebruaryExample()
    ensures DiasUteis(2, 2024) == Ok(21)
  {
    var start := DayNumber(Date(2024, 2, 1));
    WeekdayExamples();
    assert start % 7 == 3;
    assert WeekdaysFrom(start, 1) == 1;
    ThroughIsWeekdaysFrom(2024, 2, 29);
    FourWeeks(start, 1);
  }

  /** January 2024 starts on a Monday and has 31 days: Monday to Wednesday, then four full weeks. */
  lemma JanuaryExample()
    ensures DiasUteis(1, 2024) == Ok(23)
  {
    var start := DayNumber(Date(2024, 1, 1));
    assert DaysBeforeYear(2024) == 738885;
    assert start % 7 == 0;
    NextResidue(start);
    NextResidue(start + 1);
    assert WeekdaysFrom(start, 3) == 3;
    ThroughIsWeekdaysFrom(2024, 1, 31);
    FourWeeks(start, 3);
  }

  /** Months 0 and 13 and the years 1899 and 2101 are refused. */
  lemma DiasUteisErrorExamples()
    ensures DiasUteis(0, 2024) == Err(MonthOutOfRange)
    ensures DiasUteis(13, 2024) == Err(MonthOutOfRange)
    ensures DiasUteis(1, 1899) == Err(YearOutOfRange)
    ensures DiasUteis(1, 2101) == Err(YearOutOfRange)
  {
  }

  // ---------------------------------------------------------------------
  // Month names

  /**
   * `obter_nome_mes`: the Portuguese name of a month; the source panics
   * outside 1..12. Each name is told apart by `NumeroDoMes`.
   */
  function ObterNomeMes(mes: nat): (nome: string)
    requires 1 <= mes <= 12
    ensures NumeroDoMes(nome) == Some(mes)
  {
    match mes
    case 1 => "Janeiro"
    case 2 => "Fevereiro"
    case 3 => "Março"
    case 4 => "Abril"
    case 5 => "Maio"
    case 6 => "Junho"
    case 7 => "Julho"
    case 8 => "Agosto"
    case 9 => "Setembro"
    case 10 => "Outubro"
    case 11 => "Novembro"
    case _ => "Dezembro"
  }

  /** The month a name stands for: the inverse lookup of `ObterNomeMes`. */
  function NumeroDoMes(nome: string): Option<nat>
  {
    if nome == "Janeiro" then Some(1)
    else if nome == "Fevereiro" then Some(2)
    else if nome == "Março" then Some(3)
    else if nome == "Abril" then Some(4)
    else if nome == "Maio" then Some(5)
    else if nome == "Junho" then Some(6)
    else if nome == "Julho" then Some(7)
    else if nome == "Agosto" then Some(8)
    else if nome == "Setembro" then Some(9)
    else if nome == "Outubro" then Some(10)
    else if nome == "Novembro" then Some(11)
    else if nome == "Dezembro" then Some(12)
    else None
  }

  /** The lookup undoes `ObterNomeMes`, so no two months share a name. */
  lemma NomesDistintos(a: nat, b: nat)
    requires 1 <= a <= 12 && 1 <= b <= 12
    ensures ObterNomeMes(a) == ObterNomeMes(b) ==> a == b
  {
  }

  lemma NomeMesExamples()
    ensures ObterNomeMes(1) == "Janeiro" && ObterNomeMes(2) == "Fevereiro"
    ensures ObterNomeMes(11) == "Novembro" && ObterNomeMes(12) == "Dezembro"
  {
  }
}
