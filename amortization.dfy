/**
 * The amortization engine: the fixed monthly payment of an annuity loan and
 * the month-by-month payment schedule with its final-month correction.
 */
module Amortization {
  import opened Money
  import opened Models

  /** Monthly rate as a fraction, from an annual rate in percent. */
  function MonthlyRate(annualRate: real): (r: real)
    ensures r * 1200.0 == annualRate
  {
    annualRate / 12.0 / 100.0
  }

  /** `base` raised to the natural power `n`, by exact multiplication. */
  function Pow(base: real, n: nat): real {
    if n == 0 then 1.0 else Pow(base, n - 1) * base
  }

  /** The fixed monthly payment for a loan of `loanAmount` at `annualRate` percent over `termMonths` months. */
  function CalculateMonthlyPayment(loanAmount: real, annualRate: real, termMonths: int): (payment: real)
    ensures termMonths <= 0 ==> payment == 0.0
    ensures termMonths > 0 && annualRate == 0.0 ==> payment * termMonths as real == loanAmount
    ensures termMonths > 0 && annualRate != 0.0 ==> IsCents(payment)
    ensures termMonths > 0 && annualRate != 0.0 ==>
              (Pow(1.0 + MonthlyRate(annualRate), termMonths) == 1.0 ==> payment == 0.0)
    ensures termMonths > 0 && annualRate != 0.0 && Pow(1.0 + MonthlyRate(annualRate), termMonths) != 1.0 ==>
              RoundedToCents(AnnuityPayment(loanAmount, MonthlyRate(annualRate), termMonths), payment)
  {
    if termMonths <= 0 then 0.0
    else
      var monthlyRate := MonthlyRate(annualRate);
      if monthlyRate == 0.0 then loanAmount / termMonths as real
      else
        var denominator := Pow(1.0 + monthlyRate, termMonths) - 1.0;
        if denominator == 0.0 then 0.0
        else RoundBank2(AnnuityPayment(loanAmount, monthlyRate, termMonths))
  }

  /** The annuity payment before rounding: L * r * (1+r)^n / ((1+r)^n - 1). */
  function AnnuityPayment(loanAmount: real, monthlyRate: real, termMonths: nat): (payment: real)
    requires Pow(1.0 + monthlyRate, termMonths) != 1.0
    ensures payment * (Pow(1.0 + monthlyRate, termMonths) - 1.0)
            == loanAmount * monthlyRate * Pow(1.0 + monthlyRate, termMonths)
  {
    var powOnePlusRate := Pow(1.0 + monthlyRate, termMonths);
    var numerator := monthlyRate * powOnePlusRate;
    var denominator := powOnePlusRate - 1.0;
    QuotientCancels(loanAmount, monthlyRate, powOnePlusRate);
    loanAmount * (numerator / denominator)
  }

  /**
   * The balance still owed after `k` months when a balance of `loanAmount`
   * accrues `rate` per month and `payment` is paid at the end of each month,
   * in exact arithmetic.
   */
  function Outstanding(loanAmount: real, rate: real, payment: real, k: nat): real {
    if k == 0 then loanAmount else Outstanding(loanAmount, rate, payment, k - 1) * (1.0 + rate) - payment
  }

  /** Closed form of the outstanding balance: B_k * r = L * r * (1+r)^k - P * ((1+r)^k - 1). */
  lemma {:induction false} OutstandingClosedForm(loanAmount: real, rate: real, payment: real, k: nat)
    ensures Outstanding(loanAmount, rate, payment, k) * rate
            == loanAmount * rate * Pow(1.0 + rate, k) - payment * (Pow(1.0 + rate, k) - 1.0)
  {
    if k > 0 {
      OutstandingClosedForm(loanAmount, rate, payment, k - 1);
      var b := Outstanding(loanAmount, rate, payment, k - 1);
      var p := Pow(1.0 + rate, k - 1);
      assert Pow(1.0 + rate, k) == p * (1.0 + rate);
      ClosedFormStep(loanAmount, rate, payment, b, p, Outstanding(loanAmount, rate, payment, k), Pow(1.0 + rate, k));
    } else {
      assert Outstanding(loanAmount, rate, payment, k) == loanAmount && Pow(1.0 + rate, k) == 1.0;
    }
  }

  /** One month of the closed form: accrue and pay once more, and the identity holds one power further. */
  lemma ClosedFormStep(loanAmount: real, rate: real, payment: real, b: real, p: real, next: real, q: real)
    requires b * rate == loanAmount * rate * p - payment * (p - 1.0)
    requires next == b * (1.0 + rate) - payment && q == p * (1.0 + rate)
    ensures next * rate == loanAmount * rate * q - payment * (q - 1.0)
  {
  }

  /**
   * Before rounding, the annuity payment of the general branch repays the
   * loan exactly: after `termMonths` months of accrual and payment nothing
   * is owed.
   */
  lemma AnnuityRepaysLoan(loanAmount: real, annualRate: real, termMonths: nat)
    requires termMonths > 0 && annualRate != 0.0
    requires Pow(1.0 + MonthlyRate(annualRate), termMonths) != 1.0
    ensures Outstanding(loanAmount, MonthlyRate(annualRate),
                        AnnuityPayment(loanAmount, MonthlyRate(annualRate), termMonths), termMonths) == 0.0
  {
    var r := MonthlyRate(annualRate);
    var q := Pow(1.0 + r, termMonths);
    var payment := AnnuityPayment(loanAmount, r, termMonths);
    OutstandingClosedForm(loanAmount, r, payment, termMonths);
    var b := Outstanding(loanAmount, r, payment, termMonths);
    assert b * r == 0.0;
    ZeroFactor(b, r);
  }

  lemma QuotientCancels(loanAmount: real, r: real, q: real)
    requires q != 1.0
    ensures loanAmount * (r * q / (q - 1.0)) * (q - 1.0) == loanAmount * r * q
  {
  }

  lemma ZeroFactor(b: real, r: real)
    requires b * r == 0.0 && r != 0.0
    ensures b == 0.0
  {
  }

  /** With no interest the straight-line payment repays the loan exactly. */
  lemma {:induction false} StraightLineRepaysLoan(loanAmount: real, termMonths: nat)
    requires termMonths > 0
    ensures Outstanding(loanAmount, 0.0, CalculateMonthlyPayment(loanAmount, 0.0, termMonths), termMonths) == 0.0
  {
    var payment := CalculateMonthlyPayment(loanAmount, 0.0, termMonths);
    OutstandingLinear(loanAmount, payment, termMonths);
  }

  lemma {:induction false} OutstandingLinear(loanAmount: real, payment: real, k: nat)
    ensures Outstanding(loanAmount, 0.0, payment, k) == loanAmount - payment * k as real
  {
    if k > 0 {
      OutstandingLinear(loanAmount, payment, k - 1);
    }
  }

  /** Selects one money column of a schedule entry. */
  datatype Column = Principal | Interest | Total

  function ColumnOf(p: Payment, column: Column): real {
    match column
    case Principal => p.principalPart
    case Interest => p.interestPart
    case Total => p.amount
  }

  /** The sum of one column over a schedule. */
  function SumOf(s: seq<Payment>, column: Column): real {
    if s == [] then 0.0 else SumOf(s[..|s| - 1], column) + ColumnOf(s[|s| - 1], column)
  }

  lemma SumOfAppend(s: seq<Payment>, p: Payment, column: Column)
    ensures SumOf(s + [p], column) == SumOf(s, column) + ColumnOf(p, column)
  {
    assert (s + [p])[..|s|] == s;
  }

  /** The principal still owed before entry `k` of schedule `s` is paid. */
  function Remaining(loanAmount: real, s: seq<Payment>, k: nat): real
    requires k <= |s|
  {
    loanAmount - SumOf(s[..k], Principal)
  }

  /** The interest charged for one month on `remaining`, rounded half to even to cents. */
  function InterestDue(remaining: real, annualRate: real): (interest: real)
    ensures RoundedToCents(remaining * MonthlyRate(annualRate), interest)
  {
    RoundBank2(remaining * MonthlyRate(annualRate))
  }

  /** Entry `i` falls due `i + 1` months after the start, is unpaid, and charges interest on the principal still owed. */
  ghost predicate DueEntry(s: seq<Payment>, i: int, loanAmount: real, annualRate: real, startMonth: int)
    requires 0 <= i < |s|
  {
    && s[i].dueMonth == startMonth + i + 1
    && !s[i].paid
    && s[i].interestPart == InterestDue(Remaining(loanAmount, s, i), annualRate)
  }

  /** Entry `i` pays the regular monthly payment and leaves a positive balance. */
  ghost predicate RegularEntry(s: seq<Payment>, i: int, loanAmount: real, monthlyPayment: real)
    requires 0 <= i < |s|
  {
    && s[i].amount == monthlyPayment
    && s[i].principalPart == monthlyPayment - s[i].interestPart
    && Remaining(loanAmount, s, i + 1) > 0.0
  }

  /** The last entry pays off exactly the principal still owed, with the rounded total as its amount. */
  ghost predicate ClosingEntry(s: seq<Payment>, loanAmount: real)
    requires |s| > 0
  {
    && s[|s| - 1].principalPart == Remaining(loanAmount, s, |s| - 1)
    && s[|s| - 1].amount == RoundBank2(s[|s| - 1].principalPart + s[|s| - 1].interestPart)
  }

  /**
   * What `GeneratePaymentSchedule` promises about its result `s`: one entry
   * per month until the principal is repaid, at most `termMonths` of them;
   * every entry's interest is the rounded interest on the principal still
   * owed; every entry but the last pays `monthlyPayment` and leaves a
   * positive balance; the last entry pays off exactly what remains; and it
   * ends before the term only if the regular payment would have overshot.
   */
  ghost predicate IsSchedule(s: seq<Payment>, loanAmount: real, annualRate: real, termMonths: int,
                             startMonth: int, monthlyPayment: real)
  {
    && (termMonths <= 0 ==> s == [])
    && (termMonths > 0 ==> 1 <= |s| <= termMonths)
    && (forall i :: 0 <= i < |s| ==> DueEntry(s, i, loanAmount, annualRate, startMonth))
    && (forall i :: 0 <= i < |s| - 1 ==> RegularEntry(s, i, loanAmount, monthlyPayment))
    && (|s| > 0 ==> ClosingEntry(s, loanAmount))
    && (0 < |s| < termMonths ==>
          Remaining(loanAmount, s, |s| - 1) - (monthlyPayment - s[|s| - 1].interestPart) <= 0.0)
  }

  /** The schedule loop. */
  method GeneratePaymentSchedule(loanAmount: real, annualRate: real, termMonths: int, startMonth: int,
                                 monthlyPayment: real)
    returns (schedule: seq<Payment>)
    ensures IsSchedule(schedule, loanAmount, annualRate, termMonths, startMonth, monthlyPayment)
    ensures termMonths > 0 ==> SumOf(schedule, Principal) == loanAmount
  {
    schedule := [];
    var remainingPrincipal := loanAmount;
    var monthlyRate := MonthlyRate(annualRate);
    var payment := monthlyPayment;

    var i := 0;
    while i < termMonths
      invariant 0 <= i == |schedule|
      invariant i == 0 || i < termMonths
      invariant remainingPrincipal == Remaining(loanAmount, schedule, i)
      invariant i > 0 ==> remainingPrincipal > 0.0
      invariant payment == monthlyPayment
      invariant forall k :: 0 <= k < i ==> DueEntry(schedule, k, loanAmount, annualRate, startMonth)
      invariant forall k :: 0 <= k < i ==> RegularEntry(schedule, k, loanAmount, monthlyPayment)
    {
      var dueMonth := startMonth + i + 1;
      var interestPart := InterestDue(remainingPrincipal, annualRate);
      var principalPart := payment - interestPart;

      var corrected := i == termMonths - 1 || remainingPrincipal - principalPart <= 0.0;
      if corrected {
        principalPart := remainingPrincipal;
        payment := RoundBank2(principalPart + interestPart);
      }

      var entry := Payment(dueMonth, payment, principalPart, interestPart, false);
      ghost var before := schedule;
      schedule := schedule + [entry];
      AppendKeepsEntries(before, entry, loanAmount, annualRate, startMonth, monthlyPayment);
      assert schedule[..i] == before && before[..i] == before;
      assert DueEntry(schedule, i, loanAmount, annualRate, startMonth);
      RemainingStep(loanAmount, schedule, i);

      remainingPrincipal := remainingPrincipal - principalPart;
      if remainingPrincipal <= 0.0 {
        assert corrected;
        assert schedule[..i + 1] == schedule;
        break;
      }
      assert RegularEntry(schedule, i, loanAmount, monthlyPayment);
      i := i + 1;
    }
  }

  /** Appending an entry leaves the entries before it, and the balances they leave, as they were. */
  lemma AppendKeepsEntries(before: seq<Payment>, entry: Payment, loanAmount: real, annualRate: real, startMonth: int,
                           monthlyPayment: real)
    requires forall k :: 0 <= k < |before| ==> DueEntry(before, k, loanAmount, annualRate, startMonth)
    requires forall k :: 0 <= k < |before| ==> RegularEntry(before, k, loanAmount, monthlyPayment)
    ensures forall k :: 0 <= k < |before| ==> DueEntry(before + [entry], k, loanAmount, annualRate, startMonth)
    ensures forall k :: 0 <= k < |before| ==> RegularEntry(before + [entry], k, loanAmount, monthlyPayment)
  {
    var after := before + [entry];
    forall k | 0 <= k < |before|
      ensures DueEntry(after, k, loanAmount, annualRate, startMonth)
      ensures RegularEntry(after, k, loanAmount, monthlyPayment)
    {
      assert after[..k] == before[..k] && after[..k + 1] == before[..k + 1];
      assert DueEntry(before, k, loanAmount, annualRate, startMonth);
      assert RegularEntry(before, k, loanAmount, monthlyPayment);
    }
  }

  lemma RemainingStep(loanAmount: real, s: seq<Payment>, k: int)
    requires 0 <= k < |s|
    ensures Remaining(loanAmount, s, k + 1) == Remaining(loanAmount, s, k) - s[k].principalPart
  {
    assert s[..k + 1] == s[..k] + [s[k]];
    SumOfAppend(s[..k], s[k], Principal);
  }

  /** The schedule repays the principal exactly and leaves nothing owed after its last entry. */
  lemma ScheduleRepaysPrincipal(s: seq<Payment>, loanAmount: real, annualRate: real, termMonths: int,
                                startMonth: int, monthlyPayment: real)
    requires IsSchedule(s, loanAmount, annualRate, termMonths, startMonth, monthlyPayment)
    requires termMonths > 0
    ensures SumOf(s, Principal) == loanAmount
    ensures Remaining(loanAmount, s, |s|) == 0.0
  {
    ClosingEntryRepays(s, loanAmount);
  }

  /** A closing entry that pays exactly the remaining principal brings the principal column up to the loan amount. */
  lemma ClosingEntryRepays(s: seq<Payment>, loanAmount: real)
    requires |s| > 0 && ClosingEntry(s, loanAmount)
    ensures SumOf(s, Principal) == loanAmount
    ensures Remaining(loanAmount, s, |s|) == 0.0
  {
    var n := |s|;
    assert s[..n - 1] + [s[n - 1]] == s;
    SumOfAppend(s[..n - 1], s[n - 1], Principal);
    assert s[..n] == s;
  }

  /** Due dates fall in consecutive months after the start, so they strictly increase. */
  lemma ScheduleDueDatesIncrease(s: seq<Payment>, loanAmount: real, annualRate: real, termMonths: int,
                                 startMonth: int, monthlyPayment: real, i: int, j: int)
    requires IsSchedule(s, loanAmount, annualRate, termMonths, startMonth, monthlyPayment)
    requires 0 <= i < j < |s|
    ensures startMonth < s[i].dueMonth < s[j].dueMonth <= startMonth + termMonths
  {
    assert DueEntry(s, i, loanAmount, annualRate, startMonth);
    assert DueEntry(s, j, loanAmount, annualRate, startMonth);
  }

  /**
   * When the loan amount and the monthly payment are whole cents, every entry
   * is whole cents and its amount is exactly principal plus interest, so the
   * schedule's total equals total principal plus total interest.
   */
  lemma {:induction false} ScheduleTotalsAddUp(s: seq<Payment>, loanAmount: real, annualRate: real, termMonths: int,
                                               startMonth: int, monthlyPayment: real)
    requires IsSchedule(s, loanAmount, annualRate, termMonths, startMonth, monthlyPayment)
    requires IsCents(loanAmount) && IsCents(monthlyPayment)
    ensures forall i :: 0 <= i < |s| ==> s[i].amount == s[i].principalPart + s[i].interestPart
    ensures SumOf(s, Total) == SumOf(s, Principal) + SumOf(s, Interest)
  {
    EntriesAddUp(s, loanAmount, annualRate, termMonths, startMonth, monthlyPayment, |s|);
    SumsAddUp(s);
  }

  lemma {:induction false} EntriesAddUp(s: seq<Payment>, loanAmount: real, annualRate: real, termMonths: int,
                                        startMonth: int, monthlyPayment: real, k: nat)
    requires IsSchedule(s, loanAmount, annualRate, termMonths, startMonth, monthlyPayment)
    requires IsCents(loanAmount) && IsCents(monthlyPayment)
    requires k <= |s|
    ensures IsCents(Remaining(loanAmount, s, k))
    ensures forall i :: 0 <= i < k ==> s[i].amount == s[i].principalPart + s[i].interestPart
  {
    if k == 0 {
      assert s[..0] == [];
    } else {
      EntriesAddUp(s, loanAmount, annualRate, termMonths, startMonth, monthlyPayment, k - 1);
      var e := s[k - 1];
      RemainingStep(loanAmount, s, k - 1);
      assert DueEntry(s, k - 1, loanAmount, annualRate, startMonth);
      if k - 1 < |s| - 1 {
        assert RegularEntry(s, k - 1, loanAmount, monthlyPayment);
        CentsClosed(monthlyPayment, e.interestPart);
      } else {
        assert ClosingEntry(s, loanAmount);
        CentsClosed(e.principalPart, e.interestPart);
        RoundBank2OfCents(e.principalPart + e.interestPart);
      }
      CentsClosed(Remaining(loanAmount, s, k - 1), e.principalPart);
    }
  }

  lemma {:induction false} SumsAddUp(s: seq<Payment>)
    requires forall i :: 0 <= i < |s| ==> s[i].amount == s[i].principalPart + s[i].interestPart
    ensures SumOf(s, Total) == SumOf(s, Principal) + SumOf(s, Interest)
  {
    if s != [] {
      SumsAddUp(s[..|s| - 1]);
    }
  }

  /**
   * The schedule's contract determines it completely: two schedules for the
   * same inputs are equal.
   */
  lemma ScheduleUnique(s: seq<Payment>, t: seq<Payment>, loanAmount: real, annualRate: real, termMonths: int,
                       startMonth: int, monthlyPayment: real)
    requires IsSchedule(s, loanAmount, annualRate, termMonths, startMonth, monthlyPayment)
    requires IsSchedule(t, loanAmount, annualRate, termMonths, startMonth, monthlyPayment)
    ensures s == t
  {
    if termMonths > 0 {
      var k := 0;
      while k < |s| && k < |t|
        invariant 0 <= k <= |s| && k <= |t|
        invariant s[..k] == t[..k]
      {
        assert Remaining(loanAmount, s, k) == Remaining(loanAmount, t, k);
        SameLength(s, t, loanAmount, annualRate, termMonths, startMonth, monthlyPayment, k);
        assert DueEntry(s, k, loanAmount, annualRate, startMonth) && DueEntry(t, k, loanAmount, annualRate, startMonth);
        if k < |s| - 1 {
          assert RegularEntry(s, k, loanAmount, monthlyPayment) && RegularEntry(t, k, loanAmount, monthlyPayment);
        } else {
          assert ClosingEntry(s, loanAmount) && ClosingEntry(t, loanAmount);
        }
        assert s[k] == t[k];
        assert s[..k + 1] == s[..k] + [s[k]] && t[..k + 1] == t[..k] + [t[k]];
        k := k + 1;
      }
      assert s[..k - 1] == s[..k][..k - 1] && t[..k - 1] == t[..k][..k - 1];
      SameLength(s, t, loanAmount, annualRate, termMonths, startMonth, monthlyPayment, k - 1);
      assert s == s[..k] && t == t[..k];
    }
  }

  /** If two schedules agree before entry `k`, entry `k` is the last of one exactly when it is the last of the other. */
  lemma SameLength(s: seq<Payment>, t: seq<Payment>, loanAmount: real, annualRate: real, termMonths: int,
                   startMonth: int, monthlyPayment: real, k: int)
    requires IsSchedule(s, loanAmount, annualRate, termMonths, startMonth, monthlyPayment)
    requires IsSchedule(t, loanAmount, annualRate, termMonths, startMonth, monthlyPayment)
    requires termMonths > 0
    requires 0 <= k < |s| && k < |t| && s[..k] == t[..k]
    ensures k == |s| - 1 <==> k == |t| - 1
  {
    assert Remaining(loanAmount, s, k) == Remaining(loanAmount, t, k);
    assert DueEntry(s, k, loanAmount, annualRate, startMonth) && DueEntry(t, k, loanAmount, annualRate, startMonth);
    if k < |s| - 1 && k == |t| - 1 {
      assert RegularEntry(s, k, loanAmount, monthlyPayment);
      RemainingStep(loanAmount, s, k);
    }
    if k < |t| - 1 && k == |s| - 1 {
      assert RegularEntry(t, k, loanAmount, monthlyPayment);
      RemainingStep(loanAmount, t, k);
    }
  }
}
