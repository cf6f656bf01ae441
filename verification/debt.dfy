/** DebtManager.cs: the player's debt, the tax rate reviewed against a debt ceiling, and the
    split of each taxed payment between a development cost and a debt payment. Floats are
    modelled as reals; the debt and development-cost reports go out as whole numbers. */
module Debt {
  import opened Wrappers
  import opened Tools

  /** The share of every payment that is development cost (0.1f). */
  const DevShare: real := 0.1
  /** How far the tax can rise above its minimum as the debt nears the ceiling (0.3f). */
  const TaxSpread: real := 0.3

  function MinReal(a: real, b: real): real
  {
    if a < b then a else b
  }

  /** debt/debtCeiling in float arithmetic, with the values ReviewTax then sees: a zero ceiling
      gives NaN (0/0) or +Infinity (debt/0), and neither is below 1, so both act as 1. The
      remaining case, a negative debt over a zero ceiling, is -Infinity and has no real value. */
  function DebtRatio(debt: real, ceiling: int): (r: real)
    requires ceiling != 0 || debt >= 0.0
    ensures ceiling > 0 && debt >= 0.0 ==> r >= 0.0
    ensures ceiling == 0 ==> r >= 1.0
  {
    if ceiling == 0 then 1.0 else debt / ceiling as real
  }

  /** The tax ReviewTax sets: the minimum plus 0.3 of the debt ratio capped at 1, itself capped
      at the maximum. */
  function ReviewedTax(debt: real, ceiling: int, minimumTax: real, maximumTax: real): (t: real)
    requires ceiling != 0 || debt >= 0.0
    ensures t <= maximumTax
    ensures t <= minimumTax + TaxSpread
  {
    var ratio := DebtRatio(debt, ceiling);
    var intermediate := (if ratio < 1.0 then ratio else 1.0) * TaxSpread;
    var tax := minimumTax + intermediate;
    if tax > maximumTax then maximumTax else tax
  }

  /** With no debt the tax is the minimum (capped at the maximum); at or over the ceiling it is
      the minimum plus 0.3 (capped at the maximum). */
  lemma ReviewedTaxEnds(debt: real, ceiling: int, minimumTax: real, maximumTax: real)
    requires ceiling > 0
    ensures debt == 0.0 ==> ReviewedTax(debt, ceiling, minimumTax, maximumTax) == MinReal(minimumTax, maximumTax)
    ensures debt >= ceiling as real ==>
              ReviewedTax(debt, ceiling, minimumTax, maximumTax) == MinReal(minimumTax + TaxSpread, maximumTax)
  {
    if debt >= ceiling as real {
      assert debt / ceiling as real >= 1.0;
    }
  }

  /** More debt never means less tax, and between no debt and the ceiling the tax stays within
      [minimum, minimum + 0.3]. */
  lemma ReviewedTaxMonotone(d1: real, d2: real, ceiling: int, minimumTax: real, maximumTax: real)
    requires ceiling > 0 && d1 <= d2
    ensures ReviewedTax(d1, ceiling, minimumTax, maximumTax) <= ReviewedTax(d2, ceiling, minimumTax, maximumTax)
    ensures d1 >= 0.0 ==> ReviewedTax(d1, ceiling, minimumTax, maximumTax) >= MinReal(minimumTax, maximumTax)
  {
    assert d1 / ceiling as real <= d2 / ceiling as real;
  }

  class DebtManager {
    var debt: real
    var tax: real
    const minimumTax: real
    /** MaximumTax. */
    const maximumTax: real
    /** The ceiling as the constructor receives it (an int, stored as a float). */
    const debtCeiling: int
    var devCostPaysOffDebt: bool
    /** Whether UpdateDebtWallet has a subscriber (GetUpdatesForDebtChanges adds one; none is
      ever removed). */
    var debtListened: bool

    /** DebtManager(baselineTax, maxTax, debtCeiling): no debt, the baseline as minimum tax, then
      a first tax review. */
    constructor (baselineTax: real, maxTax: real, debtCeiling: int)
      ensures debt == 0.0 && minimumTax == baselineTax && maximumTax == maxTax && this.debtCeiling == debtCeiling
      ensures tax == ReviewedTax(0.0, debtCeiling, baselineTax, maxTax) && !devCostPaysOffDebt && !debtListened
      ensures tax == MinReal(baselineTax, maxTax) || (debtCeiling == 0 && tax == MinReal(baselineTax + TaxSpread, maxTax))
    {
      debt := 0.0;
      minimumTax := baselineTax;
      maximumTax := maxTax;
      this.debtCeiling := debtCeiling;
      devCostPaysOffDebt := false;
      debtListened := false;
      new;
      tax := baselineTax;
      ReviewTax();
    }

    /** ReviewTax: recompute the tax from the current debt. */
    method ReviewTax()
      requires debtCeiling != 0 || debt >= 0.0
      modifies this
      ensures debt == old(debt) && devCostPaysOffDebt == old(devCostPaysOffDebt) && debtListened == old(debtListened)
      ensures tax == ReviewedTax(debt, debtCeiling, minimumTax, maximumTax)
      ensures tax <= maximumTax
    {
      var ratio := if debtCeiling == 0 then 1.0 else debt / debtCeiling as real;
      var intermediate := if ratio < 1.0 then ratio else 1.0;
      intermediate := intermediate * TaxSpread;
      tax := minimumTax + intermediate;
      if tax > maximumTax {
        tax := maximumTax;
      }
    }

    /** WorkItOut(ref devCost, ref debtPayment): move as much development cost into the debt
      payment as the debt left after the payment allows. */
    method WorkItOut(devCost: real, debtPayment: real) returns (devCost': real, debtPayment': real)
      ensures devCost' + debtPayment' == devCost + debtPayment
      ensures devCost' >= 0.0
      ensures debtPayment' <= debt
      ensures devCost' == 0.0 || debtPayment' == debt
      ensures debtPayment <= debt ==> debtPayment' == MinReal(devCost + debtPayment, debt)
    {
      var rest := debt;
      rest := rest - debtPayment;
      if rest > devCost {
        debtPayment' := debtPayment + devCost;
        devCost' := 0.0;
      } else {
        devCost' := devCost - rest;
        debtPayment' := debtPayment + rest;
      }
    }

    /** PayOffDebt(ref amount): tax the amount, split the tax into development cost and debt
      payment (never paying more than the debt), pay the debt, and credit the player the
      development cost rounded down. `paid` is the new amount, `credit` what AddFunds
      receives and `reported` what UpdateDebtWallet receives. The debt is lowered inside the
      argument of `UpdateDebtWallet?.Invoke`, which C# evaluates only when the event has a
      subscriber: without one the debt stays as it was although the payment is still taken. */
    method PayOffDebt(amount: real) returns (paid: real, debtPayment: real, credit: int, reported: Option<int>)
      modifies this
      ensures debtListened ==> debt == old(debt) - debtPayment && debt >= 0.0 && reported == Some(Ceil(debt))
      ensures !debtListened ==> debt == old(debt) && reported == None
      ensures debtPayment <= old(debt)
      ensures paid <= amount * old(tax)
      ensures amount * old(tax) - amount * DevShare > old(debt) ==>
                debtPayment == old(debt) && paid == amount * DevShare + old(debt)
      ensures amount * old(tax) - amount * DevShare <= old(debt) ==> paid == amount * old(tax)
      ensures amount * old(tax) - amount * DevShare <= old(debt) && !devCostPaysOffDebt ==>
                debtPayment == amount * old(tax) - amount * DevShare
      ensures amount * old(tax) - amount * DevShare <= old(debt) && devCostPaysOffDebt ==>
                debtPayment == MinReal(amount * old(tax), old(debt))
      ensures credit == Floor(paid - debtPayment)
      ensures amount >= 0.0 ==> paid - debtPayment >= 0.0
      ensures tax == old(tax) && devCostPaysOffDebt == old(devCostPaysOffDebt) && debtListened == old(debtListened)
    {
      var totalPayment := amount * tax;
      var devcost := amount * DevShare;
      debtPayment := totalPayment - devcost;
      if debtPayment > debt {
        debtPayment := debt;
      } else if devCostPaysOffDebt {
        devcost, debtPayment := WorkItOut(devcost, debtPayment);
      }
      totalPayment := devcost + debtPayment;
      if debtListened {
        debt := debt - debtPayment;
        reported := Some(ToInt(debt, Up));
      } else {
        reported := None;
      }
      credit := ToInt(devcost, Down);
      paid := totalPayment;
    }

    /** AddToDebt: the debt grows by exactly the amount, and a subscriber of UpdateDebtWallet
      receives it rounded up. */
    method AddToDebt(amount: real) returns (reported: Option<int>)
      modifies this
      ensures debt == old(debt) + amount
      ensures reported == if debtListened then Some(Ceil(debt)) else None
      ensures tax == old(tax) && devCostPaysOffDebt == old(devCostPaysOffDebt) && debtListened == old(debtListened)
    {
      debt := debt + amount;
      reported := if debtListened then Some(ToInt(debt, Up)) else None;
    }

    /** GetUpdatesForDebtChanges: subscribe to UpdateDebtWallet, which then at once receives the
      debt rounded up. */
    method GetUpdatesForDebtChanges() returns (reported: int)
      modifies this
      ensures debtListened && reported == Ceil(debt)
      ensures debt == old(debt) && tax == old(tax) && devCostPaysOffDebt == old(devCostPaysOffDebt)
    {
      debtListened := true;
      reported := ToInt(debt, Up);
    }

    /** ToggleDevelopmemtTarget: flip whether development cost pays off debt. */
    method ToggleDevelopmemtTarget()
      modifies this
      ensures devCostPaysOffDebt == !old(devCostPaysOffDebt)
      ensures debt == old(debt) && tax == old(tax) && debtListened == old(debtListened)
    {
      devCostPaysOffDebt := !devCostPaysOffDebt;
    }
  }

  /** Two toggles restore the development target. */
  method ToggleTwice(m: DebtManager)
    modifies m
    ensures m.devCostPaysOffDebt == old(m.devCostPaysOffDebt) && m.debt == old(m.debt) && m.tax == old(m.tax)
  {
    m.ToggleDevelopmemtTarget();
    m.ToggleDevelopmemtTarget();
  }

  /** With a tax below the development share, an unclamped payment on a non-negative debt
      without the development target makes the debt grow, once the debt is listened to. */
  method PaymentBelowDevShare(m: DebtManager, amount: real) returns (paid: real)
    requires m.tax < DevShare && amount > 0.0 && m.debt >= 0.0 && !m.devCostPaysOffDebt && m.debtListened
    modifies m
    ensures m.debt > old(m.debt)
  {
    assert amount * m.tax < amount * DevShare;
    var debtPayment, credit, reported;
    paid, debtPayment, credit, reported := m.PayOffDebt(amount);
  }

  /** Without a subscriber to UpdateDebtWallet a payment takes the tax but leaves the debt. */
  method UnheardPaymentKeepsDebt(m: DebtManager, amount: real) returns (paid: real)
    requires !m.debtListened && m.tax == 0.5 && m.debt == 100.0 && amount == 10.0
    modifies m
    ensures paid == 5.0 && m.debt == 100.0
  {
    var debtPayment, credit, reported;
    paid, debtPayment, credit, reported := m.PayOffDebt(amount);
  }

  /** Once something listens, the same payment lowers the debt by its debt share. */
  method HeardPaymentLowersDebt(m: DebtManager, amount: real) returns (paid: real)
    requires m.debtListened && !m.devCostPaysOffDebt && m.tax == 0.5 && m.debt == 100.0 && amount == 10.0
    modifies m
    ensures paid == 5.0 && m.debt == 96.0
  {
    var debtPayment, credit, reported;
    paid, debtPayment, credit, reported := m.PayOffDebt(amount);
  }
}
