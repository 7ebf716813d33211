/**
 * The monthly-payment quote shown on the loan request form
 * (src/app/request/page.tsx).
 *
 * The form holds the raw amount text and the selected period tag. The quote is
 * recomputed from them: both must be non-empty, the parsed principal must be a
 * positive number, and the period must be one of four tags. Simple interest at
 * the form's fixed annual rate is pro-rated over the period (in months out of
 * a 12-month year), added to the principal, spread evenly over the months and
 * rounded with `Math.round`. Any invalid input gives no quote (`null`).
 *
 * `parseFloat` is not modelled: the caller passes its outcome, `None` for NaN.
 * Arithmetic is exact; in the browser 20/30 is not exactly representable, so
 * a result that lands exactly on a .5 tie here may differ there.
 */
module LoanQuote {
  import opened Wrappers
  import opened JsMath

  /** The annual interest rate, in percent, that the form quotes with. */
  const InterestRate: real := 8.5

  /** The four period tags of the period selector. */
  const TwentyDays: string := "20days"
  const OneMonth: string := "1month"
  const TwoMonths: string := "2months"
  const ThreeMonths: string := "3months"

  /** The `switch` on the period tag: its length in months, or none. */
  function MonthsFor(loanPeriod: string): (m: Option<real>)
    ensures m.Some? <==> loanPeriod in {TwentyDays, OneMonth, TwoMonths, ThreeMonths}
    ensures m.Some? ==> 0.0 < m.value <= 3.0
  {
    if loanPeriod == TwentyDays then Some(20.0 / 30.0)  // roughly 2/3 of a month
    else if loanPeriod == OneMonth then Some(1.0)
    else if loanPeriod == TwoMonths then Some(2.0)
    else if loanPeriod == ThreeMonths then Some(3.0)
    else None
  }

  /** Simple interest on `principal` at `ratePercent` a year over `months`. */
  function SimpleInterest(principal: real, ratePercent: real, months: real): (interest: real)
    ensures principal >= 0.0 && ratePercent >= 0.0 && months >= 0.0 ==> interest >= 0.0
  {
    principal * (ratePercent / 100.0) * (months / 12.0)
  }

  /**
   * The quote: `amount` is the amount field's text, `principal` what
   * `parseFloat(amount)` gave (None for NaN), `loanPeriod` the selected tag.
   */
  function MonthlyPayment(amount: string, principal: Option<real>, loanPeriod: string,
                          ratePercent: real): (r: Option<int>)
    ensures r.Some? <==>
      amount != "" && loanPeriod != "" && principal.Some? && principal.value > 0.0
      && MonthsFor(loanPeriod).Some?
  {
    if amount == "" || loanPeriod == "" then None
    else if principal.None? || principal.value <= 0.0 then None
    else match MonthsFor(loanPeriod)
      case None => None
      case Some(months) =>
        var interest := SimpleInterest(principal.value, ratePercent, months);
        var totalAmount := principal.value + interest;
        Some(Round(totalAmount / months))
  }

  /** The quote the form computes, at its fixed 8.5% rate. */
  function FormQuote(amount: string, principal: Option<real>, loanPeriod: string): (r: Option<int>)
    ensures r.Some? ==> principal.Some? && principal.value > 0.0 && MonthsFor(loanPeriod).Some?
  {
    MonthlyPayment(amount, principal, loanPeriod, InterestRate)
  }

  /** The form renders the payment line only when the quote is truthy. */
  function ShowsPayment(quote: Option<int>): (shown: bool)
    ensures shown ==> quote.Some?
  {
    quote.Some? && quote.value != 0
  }

  /** What a conditional child of the form puts on the page. */
  datatype Rendered = Nothing | BareZero | PaymentLine(payment: int)

  /**
   * `{monthlyPayment && (<div>…</div>)}` as written: `null` renders nothing,
   * a non-zero quote renders the payment line, and a quote of 0 makes the
   * whole expression the number 0, which React renders as the text "0".
   */
  function GuardOutput(quote: Option<int>): (out: Rendered)
    ensures out.PaymentLine? <==> ShowsPayment(quote)
    ensures out.PaymentLine? ==> out.payment == quote.value
    ensures out == BareZero <==> quote == Some(0)
  {
    match quote
    case None => Nothing
    case Some(p) => if p == 0 then BareZero else PaymentLine(p)
  }

  /** The guard as evidently intended: the payment line for a non-zero quote, nothing otherwise. */
  function IntendedOutput(quote: Option<int>): (out: Rendered)
    ensures out != BareZero
    ensures out.PaymentLine? <==> ShowsPayment(quote)
    ensures out.PaymentLine? ==> out.payment == quote.value
  {
    if ShowsPayment(quote) then PaymentLine(quote.value) else Nothing
  }

  /** The exact (unrounded) payment per month, in closed form. */
  function ExactPayment(principal: real, months: real, ratePercent: real): real
    requires months > 0.0
  {
    principal / months + principal * ratePercent / 1200.0
  }

  // ---------------------------------------------------------------- lemmas

  /** The exact payment is the principal times a per-month factor. */
  lemma ExactPaymentFactored(principal: real, months: real, ratePercent: real)
    requires months > 0.0
    ensures ExactPayment(principal, months, ratePercent)
            == principal * (1.0 / months + ratePercent / 1200.0)
  {
  }

  /** With a non-negative rate, the exact payment grows with the principal. */
  lemma ExactGrowsWithPrincipal(p1: real, p2: real, months: real, ratePercent: real)
    requires p1 <= p2 && months > 0.0 && ratePercent >= 0.0
    ensures ExactPayment(p1, months, ratePercent) <= ExactPayment(p2, months, ratePercent)
  {
    ExactPaymentFactored(p1, months, ratePercent);
    ExactPaymentFactored(p2, months, ratePercent);
    var factor := 1.0 / months + ratePercent / 1200.0;
    assert factor >= 0.0;
    assert (p2 - p1) * factor >= 0.0;
  }

  /** Spreading a positive amount over more months gives a smaller share. */
  lemma ShareShrinks(principal: real, shorter: real, longer: real)
    requires principal > 0.0 && 0.0 < shorter <= longer
    ensures principal / longer <= principal / shorter
  {
    assert principal / longer * longer == principal == principal / shorter * shorter;
    assert principal / longer * shorter <= principal / longer * longer;
  }

  /** An empty amount field or an unselected period gives no quote. */
  lemma EmptyInputGivesNoQuote(amount: string, principal: Option<real>, loanPeriod: string,
                               ratePercent: real)
    requires amount == "" || loanPeriod == ""
    ensures MonthlyPayment(amount, principal, loanPeriod, ratePercent) == None
  {
  }

  /** A principal that is NaN, zero or negative never yields a payment. */
  lemma NonPositivePrincipalGivesNoQuote(amount: string, principal: Option<real>,
                                         loanPeriod: string, ratePercent: real)
    requires principal == None || principal.value <= 0.0
    ensures MonthlyPayment(amount, principal, loanPeriod, ratePercent) == None
  {
  }

  /** The period mapping: the four tags and their month counts, nothing else. */
  lemma PeriodMapping(loanPeriod: string)
    ensures MonthsFor(TwentyDays) == Some(2.0 / 3.0)
    ensures MonthsFor(OneMonth) == Some(1.0)
    ensures MonthsFor(TwoMonths) == Some(2.0)
    ensures MonthsFor(ThreeMonths) == Some(3.0)
    ensures loanPeriod !in {TwentyDays, OneMonth, TwoMonths, ThreeMonths} ==>
      forall amount, principal, ratePercent ::
        MonthlyPayment(amount, principal, loanPeriod, ratePercent) == None
  {
  }

  /** The periods are ordered: 20 days < 1 month < 2 months < 3 months. */
  lemma PeriodOrder()
    ensures MonthsFor(TwentyDays).value < MonthsFor(OneMonth).value
            < MonthsFor(TwoMonths).value < MonthsFor(ThreeMonths).value
  {
  }

  /** Dividing the total by the months equals principal/months plus a fixed monthly interest. */
  lemma {:induction false} TotalPerMonth(principal: real, ratePercent: real, months: real)
    requires months > 0.0
    ensures (principal + SimpleInterest(principal, ratePercent, months)) / months
            == ExactPayment(principal, months, ratePercent)
  {
    var i := SimpleInterest(principal, ratePercent, months);
    assert i == months * (principal * ratePercent / 1200.0);
    assert i / months == principal * ratePercent / 1200.0;
    assert (principal + i) / months == principal / months + i / months;
  }

  /** For valid input the quote is the closed form round(P/m + P*R/1200). */
  lemma ClosedForm(amount: string, principal: real, loanPeriod: string, ratePercent: real)
    requires amount != "" && principal > 0.0 && MonthsFor(loanPeriod).Some?
    ensures MonthlyPayment(amount, Some(principal), loanPeriod, ratePercent)
            == Some(Round(ExactPayment(principal, MonthsFor(loanPeriod).value, ratePercent)))
  {
    TotalPerMonth(principal, ratePercent, MonthsFor(loanPeriod).value);
  }

  /** With a non-negative rate the interest is non-negative and the total covers the principal. */
  lemma TotalCoversPrincipal(principal: real, ratePercent: real, loanPeriod: string)
    requires principal > 0.0 && ratePercent >= 0.0 && MonthsFor(loanPeriod).Some?
    ensures SimpleInterest(principal, ratePercent, MonthsFor(loanPeriod).value) >= 0.0
    ensures principal + SimpleInterest(principal, ratePercent, MonthsFor(loanPeriod).value)
            >= principal
  {
  }

  /**
   * A quote never falls short of the principal spread over the period by half
   * a unit or more, and is non-negative, when the rate is non-negative.
   */
  lemma QuoteBounds(amount: string, principal: real, loanPeriod: string, ratePercent: real)
    requires amount != "" && principal > 0.0 && ratePercent >= 0.0
    requires MonthsFor(loanPeriod).Some?
    ensures var m := MonthsFor(loanPeriod).value;
            var q := MonthlyPayment(amount, Some(principal), loanPeriod, ratePercent).value;
            q >= 0 && principal / m - 0.5 < q as real
            && q as real <= principal / m + principal * ratePercent / 1200.0 + 0.5
  {
    var m := MonthsFor(loanPeriod).value;
    ClosedForm(amount, principal, loanPeriod, ratePercent);
    assert principal * ratePercent / 1200.0 >= 0.0;
    assert principal / m > 0.0;
    RoundNonNegative(ExactPayment(principal, m, ratePercent));
  }

  /** For a fixed period, a larger principal never gives a smaller payment. */
  lemma MonotoneInPrincipal(amount: string, p1: real, p2: real, loanPeriod: string,
                            ratePercent: real)
    requires amount != "" && 0.0 < p1 <= p2 && ratePercent >= 0.0
    requires MonthsFor(loanPeriod).Some?
    ensures MonthlyPayment(amount, Some(p1), loanPeriod, ratePercent).value
            <= MonthlyPayment(amount, Some(p2), loanPeriod, ratePercent).value
  {
    var m := MonthsFor(loanPeriod).value;
    ClosedForm(amount, p1, loanPeriod, ratePercent);
    ClosedForm(amount, p2, loanPeriod, ratePercent);
    ExactGrowsWithPrincipal(p1, p2, m, ratePercent);
    RoundMonotone(ExactPayment(p1, m, ratePercent), ExactPayment(p2, m, ratePercent));
  }

  /** For a fixed principal, a longer period never gives a larger payment. */
  lemma AntitoneInPeriod(amount: string, principal: real, short: string, long: string,
                         ratePercent: real)
    requires amount != "" && principal > 0.0
    requires MonthsFor(short).Some? && MonthsFor(long).Some?
    requires MonthsFor(short).value <= MonthsFor(long).value
    ensures MonthlyPayment(amount, Some(principal), long, ratePercent).value
            <= MonthlyPayment(amount, Some(principal), short, ratePercent).value
  {
    var ms, ml := MonthsFor(short).value, MonthsFor(long).value;
    ClosedForm(amount, principal, short, ratePercent);
    ClosedForm(amount, principal, long, ratePercent);
    ShareShrinks(principal, ms, ml);
    RoundMonotone(ExactPayment(principal, ml, ratePercent), ExactPayment(principal, ms, ratePercent));
  }

  /** Worked value: 25000 over two months at the form's 8.5% is 12677 a month. */
  lemma TwoMonthExample()
    ensures FormQuote("25000", Some(25000.0), TwoMonths) == Some(12677)
  {
    ClosedForm("25000", 25000.0, TwoMonths, InterestRate);
    RoundUnique(ExactPayment(25000.0, 2.0, InterestRate), 12677);
  }

  /** Worked values at other rates: 15000 for a month at 7.8%, 100 for 20 days at 10%. */
  lemma OtherRateExamples()
    ensures MonthlyPayment("15000", Some(15000.0), OneMonth, 7.8) == Some(15098)
    ensures MonthlyPayment("100", Some(100.0), TwentyDays, 10.0) == Some(151)
  {
    ClosedForm("15000", 15000.0, OneMonth, 7.8);
    RoundUnique(ExactPayment(15000.0, 1.0, 7.8), 15098);
    ClosedForm("100", 100.0, TwentyDays, 10.0);
    RoundUnique(ExactPayment(100.0, 2.0 / 3.0, 10.0), 151);
  }

  /**
   * The payment line is shown exactly when the input is valid and the exact
   * payment reaches half a unit; below that the quote is 0 and the line is
   * not rendered (the guard renders a bare 0 in its place, see `ZeroRenderedIff`).
   */
  lemma ShownIff(amount: string, principal: Option<real>, loanPeriod: string, ratePercent: real)
    requires ratePercent >= 0.0
    ensures ShowsPayment(MonthlyPayment(amount, principal, loanPeriod, ratePercent)) <==>
      amount != "" && principal.Some? && principal.value > 0.0 && MonthsFor(loanPeriod).Some?
      && ExactPayment(principal.value, MonthsFor(loanPeriod).value, ratePercent) >= 0.5
  {
    if amount != "" && principal.Some? && principal.value > 0.0 && MonthsFor(loanPeriod).Some? {
      var p, m := principal.value, MonthsFor(loanPeriod).value;
      ClosedForm(amount, p, loanPeriod, ratePercent);
      assert p / m > 0.0;
      assert p * ratePercent / 1200.0 >= 0.0;
      RoundIsZeroIff(ExactPayment(p, m, ratePercent));
    }
  }

  /**
   * The stray "0": with a non-negative rate, the guard renders a bare 0
   * exactly when the input is valid but the exact payment is below half a
   * unit. The intended guard renders nothing there and agrees elsewhere.
   */
  lemma ZeroRenderedIff(amount: string, principal: Option<real>, loanPeriod: string, ratePercent: real)
    requires ratePercent >= 0.0
    ensures var quote := MonthlyPayment(amount, principal, loanPeriod, ratePercent);
      (GuardOutput(quote) == BareZero <==>
         amount != "" && principal.Some? && principal.value > 0.0 && MonthsFor(loanPeriod).Some?
         && ExactPayment(principal.value, MonthsFor(loanPeriod).value, ratePercent) < 0.5)
      && (GuardOutput(quote) != BareZero ==> IntendedOutput(quote) == GuardOutput(quote))
  {
    ShownIff(amount, principal, loanPeriod, ratePercent);
  }

  /** Worked case: 0.5 over three months quotes 0, so the payment line is replaced by a bare "0". */
  lemma TinyPrincipalRendersZero()
    ensures FormQuote("0.5", Some(0.5), ThreeMonths) == Some(0)
    ensures !ShowsPayment(FormQuote("0.5", Some(0.5), ThreeMonths))
    ensures GuardOutput(FormQuote("0.5", Some(0.5), ThreeMonths)) == BareZero
    ensures IntendedOutput(FormQuote("0.5", Some(0.5), ThreeMonths)) == Nothing
  {
    ClosedForm("0.5", 0.5, ThreeMonths, InterestRate);
    RoundIsZeroIff(ExactPayment(0.5, 3.0, InterestRate));
  }
}
