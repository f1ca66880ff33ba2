/** pay_late_fees and refund_late_fee_payment (services copy only): checks
    that decide whether the injected payment gateway is called at all, then
    one gateway call whose outcome becomes the reply. Amounts are in cents. */
module Payments {
  import opened Domain
  import opened Text
  import opened Ledger
  import opened Store
  import opened Fees
  import opened FeeCalculator

  /** What the gateway's process_payment does: accept with a transaction id
      and a message, decline with a message, or raise. */
  datatype PaymentOutcome =
    | PaymentAccepted(transactionId: string, message: string)
    | PaymentDeclined(message: string)
    | PaymentRaised(error: string)

  /** What the gateway's refund_payment does. */
  datatype RefundOutcome = RefundAccepted(message: string) | RefundDeclined(message: string) | RefundRaised(error: string)

  /** A call the engine makes on the gateway, with its arguments. */
  datatype GatewayCall =
    | ProcessPaymentCall(patronId: string, amountCents: int, description: string)
    | RefundPaymentCall(transactionId: string, amountCents: int)

  /** The injected payment gateway: it answers every call of a kind with the
      outcome it was set up with and records the calls made on it. */
  class Gateway {
    const paymentOutcome: PaymentOutcome
    const refundOutcome: RefundOutcome
    var calls: seq<GatewayCall>

    constructor (paymentOutcome: PaymentOutcome, refundOutcome: RefundOutcome)
      ensures this.paymentOutcome == paymentOutcome && this.refundOutcome == refundOutcome && calls == []
    {
      this.paymentOutcome, this.refundOutcome := paymentOutcome, refundOutcome;
      calls := [];
    }

    method ProcessPayment(patronId: string, amountCents: int, description: string) returns (o: PaymentOutcome)
      modifies this
      ensures calls == old(calls) + [ProcessPaymentCall(patronId, amountCents, description)]
      ensures o == paymentOutcome
    {
      calls := calls + [ProcessPaymentCall(patronId, amountCents, description)];
      o := paymentOutcome;
    }

    method RefundPayment(transactionId: string, amountCents: int) returns (o: RefundOutcome)
      modifies this
      ensures calls == old(calls) + [RefundPaymentCall(transactionId, amountCents)]
      ensures o == refundOutcome
    {
      calls := calls + [RefundPaymentCall(transactionId, amountCents)];
      o := refundOutcome;
    }
  }

  /** The payment description sent to the gateway. */
  function LateFeeDescription(title: string): string {
    "Late fees for '" + title + "'"
  }

  /** What the checks of pay_late_fees decide: refuse with a message, or
      charge an amount with a description. */
  datatype PayPlan = Refuse(reason: Message) | Charge(amountCents: int, description: string)

  /** The decision of pay_late_fees before the gateway, or the exception the
      fee computation raises (it is called outside the try). The fee quote
      always holds the key 'fee_amount', so the "Unable to calculate late
      fees." branch is never taken and does not appear. */
  function PaymentPlan(books: map<int, Book>, loans: seq<Loan>, p: string, b: int, today: int): (r: Completion<PayPlan>)
    ensures !ValidPatronId(p) ==> r == Normal(Refuse(InvalidPatronId))
    ensures r.Normal? && r.value.Charge? ==>
              && ValidPatronId(p) && b in books && r.value.amountCents > 0
              && r.value.description == LateFeeDescription(books[b].title)
  {
    if !ValidPatronId(p) then Normal(Refuse(InvalidPatronId))
    else match QuoteFor(books, loans, p, b, today, ServicesCopy)
      case Abrupt(e) => Abrupt(e)
      case Normal(f) =>
        var fee := f.feeCents.value;
        if fee <= 0 then Normal(Refuse(NoLateFees))
        else if b !in books then Normal(Refuse(BookNotFound))
        else Normal(Charge(fee, LateFeeDescription(books[b].title)))
  }

  /** How a payment ends: refused by the checks, or settled by the gateway. */
  datatype PayResult = PayRefused(reason: Message) | PaySettled(outcome: PaymentOutcome)

  /** The (success, message, transaction_id) tuple pay_late_fees returns. */
  function PayTuple(r: PayResult): (t: (bool, string, Option<string>))
    ensures t.0 <==> r.PaySettled? && r.outcome.PaymentAccepted?
    ensures t.0 ==> t.2 == Some(r.outcome.transactionId)
    ensures !t.0 ==> t.2 == None
    ensures r.PayRefused? ==> t.1 == Wording(r.reason)
    ensures r.PaySettled? && r.outcome.PaymentRaised? ==> HasPrefix(t.1, "Payment processing error: ")
  {
    match r
    case PayRefused(reason) => (false, Wording(reason), None)
    case PaySettled(PaymentAccepted(id, m)) => (true, "Payment successful! " + m, Some(id))
    case PaySettled(PaymentDeclined(m)) => (false, "Payment failed: " + m, None)
    case PaySettled(PaymentRaised(e)) => (false, "Payment processing error: " + e, None)
  }

  /** pay_late_fees with the gateway injected. The gateway is called once,
      with the fee as amount, exactly when the checks decide to charge. */
  method PayLateFees(db: Library, p: string, b: int, today: int, gw: Gateway) returns (r: Completion<PayResult>)
    modifies gw
    ensures var plan := PaymentPlan(db.books, db.loans, p, b, today);
            && (plan.Abrupt? ==> r == Abrupt(plan.exception) && gw.calls == old(gw.calls))
            && (plan.Normal? && plan.value.Refuse? ==> r == Normal(PayRefused(plan.value.reason)) && gw.calls == old(gw.calls))
            && (plan.Normal? && plan.value.Charge? ==>
                  r == Normal(PaySettled(gw.paymentOutcome))
                  && gw.calls == old(gw.calls) + [ProcessPaymentCall(p, plan.value.amountCents, plan.value.description)])
  {
    if !ValidPatronId(p) {
      return Normal(PayRefused(InvalidPatronId));
    }
    var quote := CalculateLateFee(db, p, b, today, ServicesCopy);
    if quote.Abrupt? {
      return Abrupt(quote.exception);
    }
    var fee := quote.value.feeCents.value;
    if fee <= 0 {
      return Normal(PayRefused(NoLateFees));
    }
    var book := db.BookById(b);
    if book.None? {
      return Normal(PayRefused(BookNotFound));
    }
    var outcome := gw.ProcessPayment(p, fee, LateFeeDescription(book.value.title));
    r := Normal(PaySettled(outcome));
  }

  /** For an outstanding loan in a sound store: paying raises while the loan
      is one to six days overdue, finds nothing to pay up to then, and from
      a full week overdue charges what the day-by-day schedule has accrued,
      capped at 15.00. */
  lemma PaymentForLoan(books: map<int, Book>, loans: seq<Loan>, l: Loan, today: int)
    requires WithinLimits(loans) && LoansRefer(books, loans)
    requires l in loans && l.Open() && ValidPatronId(l.patronId)
    ensures var plan, d := PaymentPlan(books, loans, l.patronId, l.bookId, today), today - l.dueDay;
            && (plan.Abrupt? <==> 1 <= d <= 6)
            && (d <= 0 ==> plan == Normal(Refuse(NoLateFees)))
            && (d >= 7 ==> l.bookId in books
                           && plan == Normal(Charge(Min(Accrued(d), FeeCap), LateFeeDescription(books[l.bookId].title))))
  {
    QuoteOfOpenLoan(books, loans, l, today, ServicesCopy);
    var d := today - l.dueDay;
    if d >= 7 {
      TierFollowsSchedule(d);
    }
  }

  /** Without an outstanding loan of the book there is nothing to pay: a
      well-formed id gets "No late fees to pay for this book.", even for a
      book that is not in the catalogue. */
  lemma PaymentWithoutLoan(books: map<int, Book>, loans: seq<Loan>, p: string, b: int, today: int)
    requires ValidPatronId(p) && forall l :: l in loans ==> !IsOpenLoanOf(l, p, b)
    ensures PaymentPlan(books, loans, p, b, today) == Normal(Refuse(NoLateFees))
  {
  }

  /** The "Book not found." refusal of pay_late_fees is never given: a
      positive fee is only quoted for a book in the catalogue. */
  lemma PaymentNeverMissesBook(books: map<int, Book>, loans: seq<Loan>, p: string, b: int, today: int)
    ensures PaymentPlan(books, loans, p, b, today) != Normal(Refuse(BookNotFound))
  {
  }

  /** Every charge lies between one week's fee (3.50) and the cap (15.00). */
  lemma ChargeWithinBounds(books: map<int, Book>, loans: seq<Loan>, p: string, b: int, today: int)
    ensures var plan := PaymentPlan(books, loans, p, b, today);
            plan.Normal? && plan.value.Charge? ==> FirstWeekFee <= plan.value.amountCents <= FeeCap
  {
  }

  /** Why refund_late_fee_payment refuses before the gateway, if it does. */
  function RefundGuard(transactionId: string, amountCents: int): (r: Option<Message>)
    ensures r.None? <==> HasPrefix(transactionId, "txn_") && 0 < amountCents <= FeeCap
  {
    if !HasPrefix(transactionId, "txn_") then Some(InvalidTransaction)
    else if amountCents <= 0 then Some(RefundNotPositive)
    else if amountCents > FeeCap then Some(RefundTooLarge)
    else None
  }

  /** Any late fee charged by pay_late_fees can be refunded in full under a
      transaction id of the gateway's "txn_" form. */
  lemma PaidFeeIsRefundable(books: map<int, Book>, loans: seq<Loan>, p: string, b: int, today: int, suffix: string)
    requires PaymentPlan(books, loans, p, b, today).Normal? && PaymentPlan(books, loans, p, b, today).value.Charge?
    ensures RefundGuard("txn_" + suffix, PaymentPlan(books, loans, p, b, today).value.amountCents).None?
  {
    ChargeWithinBounds(books, loans, p, b, today);
    assert ("txn_" + suffix)[..4] == "txn_";
  }

  /** How a refund ends: refused by the checks, or settled by the gateway. */
  datatype RefundResult = RefundRefused(reason: Message) | RefundSettled(outcome: RefundOutcome)

  /** The (success, message) pair refund_late_fee_payment returns. */
  function RefundTuple(r: RefundResult): (t: (bool, string))
    ensures t.0 <==> r.RefundSettled? && r.outcome.RefundAccepted?
    ensures r.RefundRefused? ==> t.1 == Wording(r.reason)
    ensures r.RefundSettled? && r.outcome.RefundAccepted? ==> t.1 == r.outcome.message
    ensures r.RefundSettled? && r.outcome.RefundRaised? ==> HasPrefix(t.1, "Refund processing error: ")
  {
    match r
    case RefundRefused(reason) => (false, Wording(reason))
    case RefundSettled(RefundAccepted(m)) => (true, m)
    case RefundSettled(RefundDeclined(m)) => (false, "Refund failed: " + m)
    case RefundSettled(RefundRaised(e)) => (false, "Refund processing error: " + e)
  }

  /** refund_late_fee_payment with the gateway injected: at most one call,
      made exactly when the checks pass, with the id and amount as given. */
  method RefundLateFeePayment(transactionId: string, amountCents: int, gw: Gateway) returns (r: RefundResult)
    modifies gw
    ensures RefundGuard(transactionId, amountCents).Some? ==>
              r == RefundRefused(RefundGuard(transactionId, amountCents).value) && gw.calls == old(gw.calls)
    ensures RefundGuard(transactionId, amountCents).None? ==>
              r == RefundSettled(gw.refundOutcome)
              && gw.calls == old(gw.calls) + [RefundPaymentCall(transactionId, amountCents)]
  {
    if !HasPrefix(transactionId, "txn_") {
      return RefundRefused(InvalidTransaction);
    }
    if amountCents <= 0 {
      return RefundRefused(RefundNotPositive);
    }
    if amountCents > FeeCap {
      return RefundRefused(RefundTooLarge);
    }
    var outcome := gw.RefundPayment(transactionId, amountCents);
    r := RefundSettled(outcome);
  }
}
