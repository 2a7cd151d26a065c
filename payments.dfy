/** The payment handlers: recording a payment (always as Completed) and the caller's
    payment history. */
module Payments {
  import opened Collections
  import opened Schema

  /** `createPayment`: a falsy eventId, amount or paymentMethod answers 400 and records
      nothing; otherwise one Completed payment stamped `now` is appended and the answer is
      201. There is no duplicate check. */
  method CreatePayment(db: Db, userId: int, eventId: Option<int>, amount: Option<int>,
                       paymentMethod: Option<string>, now: int) returns (status: int)
    requires db.Valid()
    modifies db`payments, db`nextId
    ensures db.Valid()
    ensures !Truthy(eventId) || !Truthy(amount) || !Filled(paymentMethod) ==>
      status == 400 && db.payments == old(db.payments) && db.nextId == old(db.nextId)
    ensures Truthy(eventId) && Truthy(amount) && Filled(paymentMethod) ==>
      && status == 201
      && db.payments == old(db.payments) + [Payment(old(db.nextId), userId, eventId.value,
                                                    paymentMethod.value, amount.value, Completed, now)]
      && db.nextId == old(db.nextId) + 1
  {
    if !Truthy(eventId) || !Truthy(amount) || !Filled(paymentMethod) {
      return 400;
    }
    db.payments := db.payments + [Payment(db.nextId, userId, eventId.value, paymentMethod.value,
                                          amount.value, Completed, now)];
    db.nextId := db.nextId + 1;
    status := 201;
  }

  function PaidBy(userId: int): Payment -> bool { (p: Payment) => p.userId == userId }
  function TransactionDate(p: Payment): int { p.transactionDate }

  /** `getUserPayments`: every payment of the caller and no other, newest TransactionDate
      first. */
  function UserPayments(payments: seq<Payment>, userId: int): (r: seq<Payment>)
    ensures SortedDesc(r, TransactionDate)
    ensures forall p :: (multiset(r)[p] == if p.userId == userId then multiset(payments)[p] else 0)
  {
    SelectOrdered(payments, PaidBy(userId), TransactionDate)
  }

  /** A recorded payment joins the caller's history as one more row, even when the caller
      has already paid for that event. */
  lemma {:induction false} RecordedPaymentListed(payments: seq<Payment>, userId: int, p: Payment)
    requires p.userId == userId
    ensures multiset(UserPayments(payments + [p], userId)) == multiset(UserPayments(payments, userId)) + multiset{p}
  {
    FilterSnoc(payments, p, PaidBy(userId));
    assert multiset(Filter(payments, PaidBy(userId)) + [p])
      == multiset(Filter(payments, PaidBy(userId))) + multiset{p};
  }
}
