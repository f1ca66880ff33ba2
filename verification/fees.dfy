/** The tiered late-fee schedule of calculate_late_fee_for_book, in cents:
    50 per day for the first week overdue, 100 per day after that, at most
    1500 per book. */
module Fees {
  import opened Domain

  const FirstWeekRate := 50
  const LaterRate := 100
  const FeeCap := 1500
  /** Fee for exactly one week overdue: the smallest fee ever charged. */
  const FirstWeekFee := 7 * FirstWeekRate

  /** The `status` of a quote: "Not overdue", "Overdue", or the message of
      a quote for which nothing was found. */
  datatype FeeStatus = NotOverdue | Overdue | NotFound(message: Message)

  /** The status as the text the dictionary holds. No message reads
      "Overdue", so testing the text for "Overdue", as the status report
      does, is testing for the Overdue status. */
  function StatusText(s: FeeStatus): (t: string)
    ensures s.NotFound? ==> t == Wording(s.message)
    ensures t == "Overdue" <==> s == Overdue
  {
    match s
    case NotOverdue => "Not overdue"
    case Overdue => "Overdue"
    case NotFound(m) => Wording(m)
  }

  /** The fee quote: amount in cents (Python's `fee_amount`), days overdue and status. */
  datatype FeeQuote = FeeQuote(feeCents: Option<int>, daysOverdue: Option<int>, status: FeeStatus)

  function Min(a: int, b: int): int {
    if a <= b then a else b
  }

  /** The tiering at the end of calculate_late_fee_for_book for a record that
      is `days` days past its due date. Only the branches `days <= 0` and
      `days >= 7` assign `status`, so for 1..6 days the Python call raises. */
  function Tier(days: int): (r: Completion<FeeQuote>)
    ensures r.Abrupt? <==> 1 <= days <= 6
    ensures r.Normal? ==> r.value.feeCents.Some? && r.value.daysOverdue.Some?
    ensures r.Normal? ==> 0 <= r.value.daysOverdue.value && 0 <= r.value.feeCents.value <= FeeCap
    ensures r.Normal? ==> (r.value.status == Overdue <==> days >= 7) && !r.value.status.NotFound?
    ensures r.Normal? && r.value.status == Overdue ==>
              r.value.daysOverdue == Some(days) && FirstWeekFee <= r.value.feeCents.value
    ensures days <= 0 ==> r == Normal(FeeQuote(Some(0), Some(0), NotOverdue))
  {
    if days <= 0 then
      Normal(FeeQuote(Some(0), Some(0), NotOverdue))
    else if days >= 7 then
      Normal(FeeQuote(Some(Min(7 * FirstWeekRate + (days - 7) * LaterRate, FeeCap)), Some(days), Overdue))
    else
      Abrupt(UnsetStatus)
  }

  /** Reference schedule, day by day: what has accrued after `days` days
      overdue when each of the first seven days costs 50 and each later day 100. */
  function Accrued(days: nat): nat {
    if days == 0 then 0 else Accrued(days - 1) + (if days <= 7 then FirstWeekRate else LaterRate)
  }

  lemma {:induction false} AccruedClosedForm(days: nat)
    ensures days <= 7 ==> Accrued(days) == FirstWeekRate * days
    ensures days >= 7 ==> Accrued(days) == FirstWeekFee + (days - 7) * LaterRate
  {
    if days > 0 {
      AccruedClosedForm(days - 1);
    }
  }

  /** For a record at least a week overdue the quoted fee is the day-by-day
      accrual, capped at 15.00. */
  lemma TierFollowsSchedule(days: int)
    requires days >= 7
    ensures Tier(days).Normal? && Tier(days).value.feeCents == Some(Min(Accrued(days), FeeCap))
  {
    AccruedClosedForm(days);
  }

  /** The more days overdue, the larger (or equal) the fee. */
  lemma TierMonotone(d1: int, d2: int)
    requires d1 <= d2
    requires Tier(d1).Normal? && Tier(d2).Normal?
    ensures Tier(d1).value.feeCents.value <= Tier(d2).value.feeCents.value
  {
  }

  /** The schedule's fixed points: 7 days cost 3.50, 15 days 11.50, 100 days
      the cap of 15.00; on the due date nothing is owed. */
  lemma TierExamples()
    ensures Tier(0) == Normal(FeeQuote(Some(0), Some(0), NotOverdue))
    ensures Tier(7) == Normal(FeeQuote(Some(350), Some(7), Overdue))
    ensures Tier(15) == Normal(FeeQuote(Some(1150), Some(15), Overdue))
    ensures Tier(100) == Normal(FeeQuote(Some(1500), Some(100), Overdue))
  {
  }

  /** The cap is reached from 19 days overdue on (18 days cost 14.50). */
  lemma TierCapReached(days: int)
    requires days >= 7
    ensures Tier(days).value.feeCents == Some(FeeCap) <==> days >= 19
  {
  }
}
