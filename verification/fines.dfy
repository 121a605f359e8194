/** The interchangeable fine policies (`MultaStrategy`): a fixed R$2.00 per
    late day, and a progressive charge that starts at R$1.00, grows by R$0.50
    each day and is capped at R$10.00 per day; plus the calculator that holds
    the current policy (`MultaCalculator`). Amounts are in cents. */
module Fines {
  import opened Common
  import Loans

  /** `MultaFixaStrategy.VALOR_POR_DIA`, R$2.00. */
  const FixedRatePerDay := 200

  /** `MultaProgressivaStrategy`: R$1.00 on the first day, R$0.50 more on
      each following day, never more than R$10.00 for a single day. */
  const ProgressiveBase := 100
  const ProgressiveStep := 50
  const ProgressiveMaxPerDay := 1000

  /** The two policies, one per strategy class. */
  datatype Strategy = Fixed | Progressive

  /** The fixed policy's fine for a number of late days. */
  function FixedFine(days: int): (cents: int)
    ensures days <= 0 ==> cents == 0
    ensures days > 0 ==> cents == FixedRatePerDay * days
  {
    if days <= 0 then 0 else FixedRatePerDay * days
  }

  /** The fixed fine is never negative and never shrinks as lateness grows. */
  lemma FixedFineMonotone(fewer: int, more: int)
    requires fewer <= more
    ensures 0 <= FixedFine(fewer) <= FixedFine(more)
  {
  }

  /** The progressive policy's charge for the `day`-th late day (day 1 is the
      first): the base plus one step per earlier day, capped. */
  function DayCharge(day: int): (cents: int)
    requires day >= 1
    ensures ProgressiveBase <= cents <= ProgressiveMaxPerDay
    ensures cents <= ProgressiveBase + ProgressiveStep * (day - 1)
  {
    var uncapped := ProgressiveBase + ProgressiveStep * (day - 1);
    if uncapped > ProgressiveMaxPerDay then ProgressiveMaxPerDay else uncapped
  }

  /** The progressive policy's fine: the sum of the day charges of days
      1 to `days`; nothing when no day is late. */
  function ProgressiveFine(days: int): (cents: int)
    ensures days <= 0 ==> cents == 0
    ensures days > 0 ==> ProgressiveBase * days <= cents <= ProgressiveMaxPerDay * days
    decreases days
  {
    if days <= 0 then 0 else ProgressiveFine(days - 1) + DayCharge(days)
  }

  /** `MultaProgressivaStrategy.calcularMulta`'s loop: days 1 to `days`, each
      adding its capped charge to the running total. */
  method ComputeProgressiveFine(days: int) returns (total: int)
    ensures total == ProgressiveFine(days)
  {
    if days <= 0 {
      return 0;
    }
    total := 0;
    var day := 1;
    while day <= days
      invariant 1 <= day <= days + 1
      invariant total == ProgressiveFine(day - 1)
      decreases days - day
    {
      var charge := ProgressiveBase + ProgressiveStep * (day - 1);
      if charge > ProgressiveMaxPerDay {
        charge := ProgressiveMaxPerDay;
      }
      total := total + charge;
      day := day + 1;
    }
  }

  /** Six late days cost 1.00 + 1.50 + 2.00 + 2.50 + 3.00 + 3.50 = R$13.50. */
  lemma ProgressiveSixDays()
    ensures ProgressiveFine(6) == 1350
  {
    assert ProgressiveFine(1) == 100;
    assert ProgressiveFine(2) == 250;
    assert ProgressiveFine(3) == 450;
    assert ProgressiveFine(4) == 700;
    assert ProgressiveFine(5) == 1000;
  }

  /** Until the cap binds, the progressive fine is the arithmetic series
      100·d + 25·d·(d−1). */
  lemma {:induction false} ProgressiveClosedForm(days: nat)
    requires days <= 19
    ensures ProgressiveFine(days) == ProgressiveBase * days + 25 * days * (days - 1)
  {
    if days > 0 {
      ProgressiveClosedForm(days - 1);
      var d := days - 1;
      assert DayCharge(days) == ProgressiveBase + ProgressiveStep * d;
      assert ProgressiveBase * d + 25 * d * (d - 1) + ProgressiveBase + ProgressiveStep * d
          == ProgressiveBase * days + 25 * d * days;
    }
  }

  /** Every extra late day costs at least R$1.00 more: the progressive fine
      is strictly increasing in the number of late days. */
  lemma {:induction false} ProgressiveStrictlyIncreasing(fewer: nat, more: nat)
    requires fewer < more
    ensures ProgressiveFine(fewer) + ProgressiveBase * (more - fewer) <= ProgressiveFine(more)
  {
    if more - 1 > fewer {
      ProgressiveStrictlyIncreasing(fewer, more - 1);
    }
  }

  /** From day 19 on the cap binds: each further day adds exactly R$10.00,
      and before day 19 every day costs less than the cap. */
  lemma ProgressiveCapBinds(days: int)
    requires days >= 1
    ensures days >= 19 ==> ProgressiveFine(days) == ProgressiveFine(days - 1) + ProgressiveMaxPerDay
    ensures days < 19 ==> DayCharge(days) < ProgressiveMaxPerDay
  {
  }

  /** Past day 18 the progressive fine grows linearly from its day-18 value
      of R$94.50. */
  lemma {:induction false} ProgressiveBeyondCap(days: nat)
    requires days >= 18
    ensures ProgressiveFine(days) == 9450 + ProgressiveMaxPerDay * (days - 18)
  {
    if days == 18 {
      ProgressiveClosedForm(18);
    } else {
      ProgressiveBeyondCap(days - 1);
    }
  }

  /** `calcularMulta` of a strategy: the policy's fine for the loan's days
      late (`getDiasAtraso`). */
  function StrategyFine(s: Strategy, l: Loans.Loan, today: Day): (cents: int)
    requires l.WellFormed()
    ensures cents >= 0
    ensures Loans.DaysLate(l, today) <= 0 ==> cents == 0
    ensures s == Fixed ==> cents == FixedFine(Loans.DaysLate(l, today))
    ensures s == Progressive ==> cents == ProgressiveFine(Loans.DaysLate(l, today))
  {
    var days := Loans.DaysLate(l, today);
    match s
    case Fixed => FixedFine(days)
    case Progressive => ProgressiveFine(days)
  }

  /** The fixed strategy charges exactly what the loan entity's own fine
      computation charges, for every loan and date. */
  lemma FixedStrategyMatchesEntity(l: Loans.Loan, today: Day)
    requires l.WellFormed()
    ensures StrategyFine(Fixed, l, today) == Loans.Fine(l, today)
  {
  }

  /** `getDescricao`: the text shown for each policy. */
  function Description(s: Strategy): (text: string)
    ensures |text| > 0
  {
    match s
    case Fixed => "Multa fixa de R$ 2.00 por dia de atraso"
    case Progressive => "Multa progressiva: inicia em R$ 1.00 e aumenta R$ 0.50 por dia"
  }

  /** The two descriptions tell the policies apart. */
  lemma DescriptionsDiffer()
    ensures Description(Fixed) != Description(Progressive)
  {
    assert |Description(Fixed)| < |Description(Progressive)|;
  }

  /** `MultaCalculator`: the context holding the policy currently in use. */
  datatype FineCalculator = FineCalculator(strategy: Strategy)

  /** The calculator as constructed: it is wired with the fixed policy. */
  function NewCalculator(): (c: FineCalculator)
    ensures forall l: Loans.Loan, today: Day ::
      l.WellFormed() ==> Calculate(c, l, today) == Loans.Fine(l, today)
  {
    FineCalculator(Fixed)
  }

  /** `setStrategy`: replaces the policy in use. */
  function SetStrategy(c: FineCalculator, s: Strategy): (r: FineCalculator)
    ensures forall l: Loans.Loan, today: Day ::
      l.WellFormed() ==> Calculate(r, l, today) == StrategyFine(s, l, today)
    ensures CalculatorDescription(r) == Description(s)
  {
    FineCalculator(s)
  }

  /** `calcular`: the fine under the policy in use. */
  function Calculate(c: FineCalculator, l: Loans.Loan, today: Day): (cents: int)
    requires l.WellFormed()
    ensures cents >= 0
    ensures c.strategy == Fixed ==> cents == Loans.Fine(l, today)
    ensures c.strategy == Progressive ==> cents == ProgressiveFine(Loans.DaysLate(l, today))
  {
    StrategyFine(c.strategy, l, today)
  }

  /** `getDescricaoEstrategia`: the description of the policy in use. */
  function CalculatorDescription(c: FineCalculator): (text: string)
    ensures |text| > 0
    ensures text == Description(c.strategy)
  {
    Description(c.strategy)
  }

  /** Switching to the progressive policy and back restores the fixed fine;
      the last policy set is the one used. */
  lemma LastStrategyWins(c: FineCalculator, first: Strategy, second: Strategy, l: Loans.Loan, today: Day)
    requires l.WellFormed()
    ensures Calculate(SetStrategy(SetStrategy(c, first), second), l, today) == StrategyFine(second, l, today)
  {
  }
}
