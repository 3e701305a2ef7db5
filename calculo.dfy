/**
 * The payment calculation: the transport cost is the daily fare for each
 * worked day, going and returning, and the final payment is the fixed fee
 * plus that cost minus the deductions. The calendar variant takes the
 * worked days from the business days of a month less its holidays.
 */
module Calculo {
  import opened Results
  import opened Text
  import opened Currency
  import Calendario

  /** `InformacaoCalendario`: the month the calculation was made for. */
  datatype InformacaoCalendario = InformacaoCalendario(
    mes: nat,
    ano: int,
    nomeMes: string,
    diasUteisMes: int,
    feriadosDeduzidos: int,
    diasTrabalhados: int)

  /** `ResultadoCalculo`: the inputs of a calculation together with what was computed from them. */
  datatype ResultadoCalculo = ResultadoCalculo(
    taxaFixa: Money,
    taxaTransporte: Money,
    diasTrabalhados: int,
    custoTransporte: Money,
    deducoesTotal: Money,
    pagamentoFinal: Money,
    calendario: Option<InformacaoCalendario>)

  /** `calcular_valores`: no check on the number of days, which may even be negative. */
  function CalcularValores(taxaFixa: Money, taxaTransporte: Money, diasTrabalhados: int, deducoesTotal: Money)
    : (r: ResultadoCalculo)
    ensures r.taxaFixa == taxaFixa && r.taxaTransporte == taxaTransporte
    ensures r.diasTrabalhados == diasTrabalhados && r.deducoesTotal == deducoesTotal
    ensures r.calendario == None
    ensures r.custoTransporte.centavos == 2 * (diasTrabalhados * taxaTransporte.centavos)
    ensures r.pagamentoFinal.centavos
            == taxaFixa.centavos + r.custoTransporte.centavos - deducoesTotal.centavos
  {
    var custoTransporte := Mul(Mul(taxaTransporte, diasTrabalhados), 2);
    var pagamentoFinal := Sub(Add(taxaFixa, custoTransporte), deducoesTotal);
    ResultadoCalculo(taxaFixa, taxaTransporte, diasTrabalhados, custoTransporte,
                     deducoesTotal, pagamentoFinal, None)
  }

  /** For a count of days, the cost is the fare paid once per trip, two trips a day. */
  lemma CustoPorViagem(taxaFixa: Money, taxaTransporte: Money, dias: nat, deducoesTotal: Money)
    ensures CalcularValores(taxaFixa, taxaTransporte, dias, deducoesTotal).custoTransporte
            == Repeated(taxaTransporte, 2 * dias)
  {
    MulLaws(taxaTransporte, taxaTransporte, dias, 2);
    assert dias * 2 == 2 * dias;
    MulIsRepeatedAdd(taxaTransporte, 2 * dias);
  }

  /** Adding the deductions back to the final payment gives the fixed fee plus the cost. */
  lemma PagamentoReconcilia(taxaFixa: Money, taxaTransporte: Money, dias: int, deducoesTotal: Money)
    ensures var r := CalcularValores(taxaFixa, taxaTransporte, dias, deducoesTotal);
            Add(r.pagamentoFinal, deducoesTotal) == Add(taxaFixa, r.custoTransporte)
  {
  }

  /** Larger deductions give a smaller final payment; with a non-negative fare, more days never cost less. */
  lemma PagamentoMonotono(taxaFixa: Money, taxaTransporte: Money, dias: int, outrosDias: int,
                          deducoes: Money, outrasDeducoes: Money)
    ensures Below(deducoes, outrasDeducoes) ==>
            Below(CalcularValores(taxaFixa, taxaTransporte, dias, outrasDeducoes).pagamentoFinal,
                  CalcularValores(taxaFixa, taxaTransporte, dias, deducoes).pagamentoFinal)
    ensures 0 <= taxaTransporte.centavos && dias <= outrosDias ==>
            AtMost(CalcularValores(taxaFixa, taxaTransporte, dias, deducoes).custoTransporte,
                   CalcularValores(taxaFixa, taxaTransporte, outrosDias, deducoes).custoTransporte)
  {
    if 0 <= taxaTransporte.centavos && dias <= outrosDias {
      assert dias * taxaTransporte.centavos <= outrosDias * taxaTransporte.centavos by {
        assert (outrosDias - dias) * taxaTransporte.centavos >= 0;
      }
    }
  }

  /** Worked days: the business days less the holidays, never below zero. */
  function DiasTrabalhados(diasUteisMes: int, feriadosDeduzidos: int): (dias: int)
    ensures dias >= 0
    ensures dias >= diasUteisMes - feriadosDeduzidos
    ensures dias == 0 || dias == diasUteisMes - feriadosDeduzidos
  {
    if diasUteisMes - feriadosDeduzidos > 0 then diasUteisMes - feriadosDeduzidos else 0
  }

  /**
   * `calcular_valores_com_calendario`: the error of the business-day counter
   * is passed on; otherwise the same formulas as `calcular_valores`, with the
   * calendar information filled in.
   */
  function CalcularValoresComCalendario(taxaFixa: Money, taxaTransporte: Money, mes: nat, ano: int,
                                        feriadosDeduzidos: int, deducoesTotal: Money)
    : (r: Result<ResultadoCalculo, Calendario.CalendarError>)
    ensures r.Err? <==> Calendario.DiasUteis(mes, ano).Err?
    ensures r.Ok? ==> r.value.calendario.Some? && r.value.diasTrabalhados >= 0
  {
    match Calendario.DiasUteis(mes, ano)
    case Err(e) => Err(e)
    case Ok(diasUteisMes) =>
      var diasTrabalhados := DiasTrabalhados(diasUteisMes, feriadosDeduzidos);
      var custoTransporte := Mul(Mul(taxaTransporte, diasTrabalhados), 2);
      var pagamentoFinal := Sub(Add(taxaFixa, custoTransporte), deducoesTotal);
      var calendario := InformacaoCalendario(mes, ano, Calendario.ObterNomeMes(mes), diasUteisMes,
                                             feriadosDeduzidos, diasTrabalhados);
      Ok(ResultadoCalculo(taxaFixa, taxaTransporte, diasTrabalhados, custoTransporte,
                          deducoesTotal, pagamentoFinal, Some(calendario)))
  }

  /** The calendar variant fails exactly when the month or the year is refused, with the counter's error. */
  lemma ComCalendarioErrors(taxaFixa: Money, taxaTransporte: Money, mes: nat, ano: int,
                            feriadosDeduzidos: int, deducoesTotal: Money)
    ensures var r := CalcularValoresComCalendario(taxaFixa, taxaTransporte, mes, ano, feriadosDeduzidos, deducoesTotal);
            (r.Err? <==> mes < 1 || mes > 12 || ano < Calendario.FirstYear || ano > Calendario.LastYear) &&
            (r.Err? ==> Calendario.DiasUteis(mes, ano) == Err(r.error))
  {
    Calendario.DiasUteisErrors(mes, ano);
  }

  /**
   * On success the calendar variant is `calcular_valores` on the worked
   * days, with the calendar information: the month, the year, its name, the
   * business days, the holidays as given and the worked days.
   */
  lemma ComCalendarioOk(taxaFixa: Money, taxaTransporte: Money, mes: nat, ano: int,
                        feriadosDeduzidos: int, deducoesTotal: Money)
    requires 1 <= mes <= 12 && Calendario.FirstYear <= ano <= Calendario.LastYear
    ensures var uteis := Calendario.DiasUteis(mes, ano).value;
            var dias := DiasTrabalhados(uteis, feriadosDeduzidos);
            CalcularValoresComCalendario(taxaFixa, taxaTransporte, mes, ano, feriadosDeduzidos, deducoesTotal)
            == Ok(CalcularValores(taxaFixa, taxaTransporte, dias, deducoesTotal).(
                    calendario := Some(InformacaoCalendario(mes, ano, Calendario.ObterNomeMes(mes), uteis,
                                                            feriadosDeduzidos, dias))))
  {
  }

  /** The worked days never exceed the month's business days when the holidays are not negative, so at most 23. */
  lemma ComCalendarioDias(taxaFixa: Money, taxaTransporte: Money, mes: nat, ano: int,
                          feriadosDeduzidos: int, deducoesTotal: Money)
    requires 1 <= mes <= 12 && Calendario.FirstYear <= ano <= Calendario.LastYear
    ensures var r := CalcularValoresComCalendario(taxaFixa, taxaTransporte, mes, ano, feriadosDeduzidos, deducoesTotal);
            r.Ok? && r.value.diasTrabalhados >= 0 &&
            (feriadosDeduzidos >= 0 ==> r.value.diasTrabalhados <= Calendario.DiasUteis(mes, ano).value <= 23) &&
            (feriadosDeduzidos == 0 ==> r.value.diasTrabalhados == Calendario.DiasUteis(mes, ano).value)
  {
    Calendario.DiasUteisBounds(mes, ano);
  }

  // ---------------------------------------------------------------------
  // The source's own scenarios, each result written out in full

  /** 5.00 a day for 10 days is 100.00; with a fixed 100.00 and nothing deducted, 200.00. */
  lemma CalculoBasico()
    ensures CalcularValores(FromReais(100), FromReais(5), 10, Zero)
            == ResultadoCalculo(FromReais(100), FromReais(5), 10, FromReais(100), Zero, FromReais(200), None)
  {
  }

  /** 7.50 for 8 days is 120.00; 150.00 + 120.00 - 25.00 is 245.00. */
  lemma CalculoComDeducoes()
    ensures CalcularValores(FromReais(150), Money(750), 8, FromReais(25))
            == ResultadoCalculo(FromReais(150), Money(750), 8, FromReais(120), FromReais(25), FromReais(245), None)
  {
  }

  /** Zero inputs give zero. */
  lemma ValoresZero()
    ensures CalcularValores(Zero, Zero, 0, Zero) == ResultadoCalculo(Zero, Zero, 0, Zero, Zero, Zero, None)
  {
  }

  /** A fixed fee alone, and a fare alone: 10.00 for 6 days is 120.00. */
  lemma ApenasUmaTaxa()
    ensures CalcularValores(FromReais(200), Zero, 5, Zero)
            == ResultadoCalculo(FromReais(200), Zero, 5, Zero, Zero, FromReais(200), None)
    ensures CalcularValores(Zero, FromReais(10), 6, Zero)
            == ResultadoCalculo(Zero, FromReais(10), 6, FromReais(120), Zero, FromReais(120), None)
  {
  }

  /** Deductions larger than the payment leave it negative: 50 + 30 - 100 is -20.00. */
  lemma DeducoesMaiores()
    ensures CalcularValores(FromReais(50), FromReais(5), 3, FromReais(100))
            == ResultadoCalculo(FromReais(50), FromReais(5), 3, FromReais(30), FromReais(100), FromCentavos(-2000), None)
  {
  }

  /** The pieces of 3.75, 15.50 and 137.95 as the display writes them; stated apart only to keep the solver's work small. */
  lemma DecimalPieces()
    ensures NatToString(3) == "3" && NatToString(15) == "15" && NatToString(137) == "137"
    ensures Pad2(75) == "75" && Pad2(50) == "50" && Pad2(95) == "95"
    ensures Sign(false) + "3" + "." + "75" == "3.75" && Sign(false) + "15" + "." + "50" == "15.50"
    ensures Sign(false) + "137" + "." + "95" == "137.95"
  {
  }

  /** The decimal amounts of the source's scenario, read by `Money::parse`. */
  lemma ParseDecimalInputs()
    ensures Parse("3.75") == Ok(Money(375))
    ensures Parse("15.50") == Ok(Money(1550))
    ensures Parse("137.95") == Ok(Money(13795))
  {
    DecimalPieces();
    FormatDigits(false, 3, 75);
    FormatDigits(false, 15, 50);
    FormatDigits(false, 137, 95);
    ParseFormat(Money(375));
    ParseFormat(Money(1550));
    ParseFormat(Money(13795));
  }

  /** 3.75 for 4 days is 30.00; 123.45 + 30.00 - 15.50 is 137.95 (the amounts `ParseDecimalInputs` reads). */
  lemma ValoresDecimais()
    ensures CalcularValores(Money(12345), Money(375), 4, Money(1550))
            == ResultadoCalculo(Money(12345), Money(375), 4, FromReais(30), Money(1550), Money(13795), None)
  {
  }

  /** The inputs are kept: 100.00, 5.00, 2 days and 10.00 come back unchanged. */
  lemma EstruturaRetorno()
    ensures CalcularValores(FromReais(100), FromReais(5), 2, FromReais(10)).taxaFixa == FromReais(100)
    ensures CalcularValores(FromReais(100), FromReais(5), 2, FromReais(10)).taxaTransporte == FromReais(5)
    ensures CalcularValores(FromReais(100), FromReais(5), 2, FromReais(10)).diasTrabalhados == 2
    ensures CalcularValores(FromReais(100), FromReais(5), 2, FromReais(10)).deducoesTotal == FromReais(10)
  {
  }

  /** November 2024 with 2 holidays: 19 worked days, 285.00 of transport and 410.00 in the end. */
  lemma ComCalendarioNovembro()
    ensures CalcularValoresComCalendario(FromReais(150), Money(750), 11, 2024, 2, FromReais(25))
            == Ok(ResultadoCalculo(FromReais(150), Money(750), 19, FromCentavos(28500), FromReais(25),
                                   FromReais(410), Some(InformacaoCalendario(11, 2024, "Novembro", 21, 2, 19))))
  {
    Calendario.NovemberExample();
  }

  /** More holidays than business days: no worked days, no transport, the fixed fee alone. */
  lemma FeriadosExcessivos()
    ensures CalcularValoresComCalendario(FromReais(100), FromReais(10), 11, 2024, 25, Zero)
            == Ok(ResultadoCalculo(FromReais(100), FromReais(10), 0, Zero, Zero, FromReais(100),
                                   Some(InformacaoCalendario(11, 2024, "Novembro", 21, 25, 0))))
  {
    Calendario.NovemberExample();
  }

  /** January 2024 without holidays: all 23 business days are worked, 5.00 twice a day is 230.00. */
  lemma SemFeriados()
    ensures CalcularValoresComCalendario(FromReais(200), FromReais(5), 1, 2024, 0, Zero)
            == Ok(ResultadoCalculo(FromReais(200), FromReais(5), 23, FromReais(230), Zero, FromReais(430),
                                   Some(InformacaoCalendario(1, 2024, "Janeiro", 23, 0, 23))))
  {
    Calendario.JanuaryExample();
    ComCalendarioOk(FromReais(200), FromReais(5), 1, 2024, 0, Zero);
  }
}
