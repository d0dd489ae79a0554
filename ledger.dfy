/**
 * The client-side patient record and its ledger: the total paid is the
 * up-front `paidFee` plus the sum of the instalment payments, and the due
 * amount is `totalFee` minus that total. The due amount is NOT clamped at
 * zero: an overpaid patient has a negative due. Money is an integer count
 * of the smallest currency unit.
 */
module Ledger {
  import opened Wrappers
  import Lists

  /** One instalment payment; `date` is a timestamp in milliseconds. */
  datatype Payment = Payment(id: string, amount: int, date: int, paymentMethod: string, notes: Option<string>)

  /** The patient record the three client components share. */
  datatype PatientData = PatientData(
    id: string,
    name: string,
    mobile: string,
    email: string,
    treatmentType: string,
    description: string,
    startDate: Option<int>,
    totalFee: int,
    paidFee: int,
    images: seq<string>,
    payments: seq<Payment>,
    createdAt: int)

  /** `payments.reduce((sum, p) => sum + p.amount, 0)`: a left fold over the payments. */
  function Sum(payments: seq<Payment>): (total: int)
    ensures (forall k :: 0 <= k < |payments| ==> payments[k].amount >= 0) ==> total >= 0
    ensures |payments| == 1 ==> total == payments[0].amount
  {
    if payments == [] then 0
    else Sum(payments[..|payments| - 1]) + payments[|payments| - 1].amount
  }

  /** `paidFee + sum of the payment amounts`. */
  function TotalPaid(paidFee: int, payments: seq<Payment>): (paid: int)
    ensures payments == [] ==> paid == paidFee
    ensures (forall k :: 0 <= k < |payments| ==> payments[k].amount >= 0) ==> paid >= paidFee
  {
    paidFee + Sum(payments)
  }

  /** `totalFee - totalPaid`, unclamped. */
  function Due(totalFee: int, paidFee: int, payments: seq<Payment>): (due: int)
    ensures payments == [] ==> due == totalFee - paidFee
    ensures (forall k :: 0 <= k < |payments| ==> payments[k].amount >= 0) ==> due <= totalFee - paidFee
  {
    totalFee - TotalPaid(paidFee, payments)
  }

  /**
   * The due amount shown for a record (`calculateDue(patient)`, `dueAmount`).
   * Nothing clamps it at zero: a fee of 1000 with one payment of 1500 shows -500.
   */
  function CalculateDue(p: PatientData): (due: int)
    ensures due == 0 <==> TotalPaid(p.paidFee, p.payments) == p.totalFee
    ensures due < 0 <==> TotalPaid(p.paidFee, p.payments) > p.totalFee
  {
    Due(p.totalFee, p.paidFee, p.payments)
  }

  /** The list marks a record as outstanding (in red) exactly when its due is positive. */
  function Outstanding(p: PatientData): (owing: bool)
    ensures owing <==> TotalPaid(p.paidFee, p.payments) < p.totalFee
  {
    CalculateDue(p) > 0
  }

  /** Payments whose id is not `id`; the predicate `removePayment` filters with. */
  function KeepOtherId(id: string): Payment -> bool
  {
    (p: Payment) => p.id != id
  }

  /** Payments whose id is `id`. */
  function HasId(id: string): Payment -> bool
  {
    (p: Payment) => p.id == id
  }

  lemma {:induction false} SumAppend(a: seq<Payment>, b: seq<Payment>)
    ensures Sum(a + b) == Sum(a) + Sum(b)
  {
    if b == [] {
      assert a + b == a;
    } else {
      SumAppend(a, b[..|b| - 1]);
      assert (a + b)[..|a + b| - 1] == a + b[..|b| - 1];
    }
  }

  lemma SumSingle(p: Payment)
    ensures Sum([p]) == p.amount
  {
    assert [p][..0] == [];
  }

  /** The sum folds from the left but equals the fold from the right. */
  lemma {:induction false} SumFromFront(payments: seq<Payment>)
    requires payments != []
    ensures Sum(payments) == payments[0].amount + Sum(payments[1..])
  {
    SumAppend([payments[0]], payments[1..]);
    SumSingle(payments[0]);
    assert [payments[0]] + payments[1..] == payments;
  }

  /** The total does not depend on the order of the payments: any permutation has the same sum. */
  lemma {:induction false} SumPermutation(ps: seq<Payment>, qs: seq<Payment>)
    requires multiset(ps) == multiset(qs)
    ensures Sum(ps) == Sum(qs)
  {
    if ps == [] {
      assert |qs| == |multiset(qs)| == 0;
    } else {
      var x := ps[|ps| - 1];
      var front := ps[..|ps| - 1];
      assert ps == front + [x];
      assert x in multiset(qs);
      var j :| 0 <= j < |qs| && qs[j] == x;
      var rest := qs[..j] + qs[j + 1..];
      assert qs == qs[..j] + [x] + qs[j + 1..];
      assert multiset(rest) == multiset(qs) - multiset{x};
      assert multiset(front) == multiset(ps) - multiset{x};
      SumPermutation(front, rest);
      SumAppend(qs[..j], qs[j + 1..]);
      SumAppend(qs[..j] + [x], qs[j + 1..]);
      SumAppend(qs[..j], [x]);
      SumSingle(x);
    }
  }

  /** Removing the payments with one id lowers the sum by exactly their amounts. */
  lemma {:induction false} SumSplitById(payments: seq<Payment>, id: string)
    ensures Sum(payments) == Sum(Lists.Filter(payments, KeepOtherId(id))) + Sum(Lists.Filter(payments, HasId(id)))
  {
    if payments != [] {
      var p := payments[0];
      SumSplitById(payments[1..], id);
      SumFromFront(payments);
      var kept := Lists.Filter(payments[1..], KeepOtherId(id));
      var hit := Lists.Filter(payments[1..], HasId(id));
      if p.id == id {
        assert Lists.Filter(payments, HasId(id)) == [p] + hit;
        assert Lists.Filter(payments, KeepOtherId(id)) == kept;
        SumAppend([p], hit);
        SumSingle(p);
      } else {
        assert Lists.Filter(payments, KeepOtherId(id)) == [p] + kept;
        assert Lists.Filter(payments, HasId(id)) == hit;
        SumAppend([p], kept);
        SumSingle(p);
      }
    }
  }

  /** Payments with positive amounts add up to something positive once there is one. */
  lemma {:induction false} SumPositive(payments: seq<Payment>)
    requires forall k :: 0 <= k < |payments| ==> payments[k].amount > 0
    ensures payments == [] <==> Sum(payments) == 0
    ensures Sum(payments) >= 0
  {
    if payments != [] {
      SumPositive(payments[..|payments| - 1]);
    }
  }

  /** Recording a payment lowers the due by exactly its amount. */
  lemma DueAfterPayment(totalFee: int, paidFee: int, payments: seq<Payment>, p: Payment)
    ensures Due(totalFee, paidFee, payments + [p]) == Due(totalFee, paidFee, payments) - p.amount
  {
    SumAppend(payments, [p]);
    SumSingle(p);
  }

  /** The due depends on the multiset of payments only, not on their order. */
  lemma DueOrderIndependent(totalFee: int, paidFee: int, ps: seq<Payment>, qs: seq<Payment>)
    requires multiset(ps) == multiset(qs)
    ensures Due(totalFee, paidFee, ps) == Due(totalFee, paidFee, qs)
  {
    SumPermutation(ps, qs);
  }

  /** Removing the payments with one id raises the due by exactly their amounts. */
  lemma DueAfterRemoval(totalFee: int, paidFee: int, payments: seq<Payment>, id: string)
    ensures Due(totalFee, paidFee, Lists.Filter(payments, KeepOtherId(id)))
         == Due(totalFee, paidFee, payments) + Sum(Lists.Filter(payments, HasId(id)))
  {
    SumSplitById(payments, id);
  }
}
