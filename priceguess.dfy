/** The suggested-price hook used when stock is received: a department's
    markup over the ex-VAT cost of one sale unit, converted to a
    VAT-inclusive price and rounded up to a whole 10p. The VAT conversion
    (the department's current VAT rate) is a parameter. */
module PriceGuess {
  import opened Options
  import opened Money

  /** markup(): the VAT-inclusive price of cost * multiplier spread over a
      stock unit of the given size, rounded up (away from zero) to 0.1. */
  function Markup(excToInc: real -> real, cost: real, size: real, multiplier: real): (r: real)
    requires size != 0.0
    ensures IsTenth(r)
    ensures 0.0 <= excToInc(cost * multiplier / size) ==>
      excToInc(cost * multiplier / size) <= r < excToInc(cost * multiplier / size) + 0.1
    ensures excToInc(cost * multiplier / size) <= 0.0 ==>
      excToInc(cost * multiplier / size) - 0.1 < r <= excToInc(cost * multiplier / size)
  {
    RoundUpTenth(excToInc(cost * multiplier / size))
  }

  /** The lowest price department 4 suggests. */
  const Dept4Floor := 2.50

  /** PriceGuess.guess_price: a suggested price for the departments that
      have a markup policy, and no suggestion for any other department. */
  function GuessPrice(deptId: int, excToInc: real -> real, cost: real, size: real): (r: Option<real>)
    requires deptId in {1, 2, 3, 4, 5, 6, 13} ==> size != 0.0
    ensures r.Some? <==> deptId in {1, 2, 3, 4, 5, 6, 13}
    ensures r.Some? ==> IsTenth(r.value)
    ensures deptId == 4 ==> r.value >= Dept4Floor
  {
    if deptId == 1 then Some(Markup(excToInc, cost, size, 3.0))
    else if deptId == 2 then Some(Markup(excToInc, cost, size, 2.3))
    else if deptId == 3 then Some(Markup(excToInc, cost, size, 2.6))
    else if deptId == 4 then
      var m := Markup(excToInc, cost, size, 2.5);
      Some(Max(Dept4Floor, m))
    else if deptId == 5 then Some(Markup(excToInc, cost, size, 2.0))
    else if deptId == 6 then Some(Markup(excToInc, cost, size, 2.0))
    else if deptId == 13 then Some(Markup(excToInc, cost, size, 2.3))
    else None
  }

  /** A department's pricing policy: a markup multiplier and, optionally,
      a lowest price. */
  datatype Policy = Policy(multiplier: real, floor: Option<real>)

  /** The departments that have a policy, as a table. */
  const Policies: map<int, Policy> := map[
    1 := Policy(3.0, None),
    2 := Policy(2.3, None),
    3 := Policy(2.6, None),
    4 := Policy(2.5, Some(2.50)),
    5 := Policy(2.0, None),
    6 := Policy(2.0, None),
    13 := Policy(2.3, None)]

  /** max(a, b) as Python computes it: the larger of the two, and the
      first argument when neither is greater. */
  function Max(a: real, b: real): (r: real)
    ensures r >= a && r >= b
    ensures r == a || r == b
    ensures !(b > a) ==> r == a
  {
    if b > a then b else a
  }

  /** The price a policy gives: the markup, raised to the floor if any. */
  function ApplyPolicy(p: Policy, excToInc: real -> real, cost: real, size: real): real
    requires size != 0.0
  {
    var m := Markup(excToInc, cost, size, p.multiplier);
    match p.floor
    case None => m
    case Some(f) => Max(f, m)
  }

  /** guess_price's chain of department tests is exactly the policy table:
      a department in the table gets its policy's price, any other none. */
  lemma {:induction false} GuessPriceFollowsPolicies(deptId: int, excToInc: real -> real, cost: real, size: real)
    requires deptId in Policies ==> size != 0.0
    ensures deptId in Policies <==> deptId in {1, 2, 3, 4, 5, 6, 13}
    ensures GuessPrice(deptId, excToInc, cost, size) ==
      if deptId in Policies then Some(ApplyPolicy(Policies[deptId], excToInc, cost, size)) else None
  {
  }

  /** For department 4 the floor binds only when the marked-up price falls
      below 2.50; otherwise the suggestion is the markup itself. */
  lemma {:induction false} Dept4FloorOnlyWhenBelow(excToInc: real -> real, cost: real, size: real)
    requires size != 0.0
    ensures Markup(excToInc, cost, size, 2.5) >= Dept4Floor ==>
      GuessPrice(4, excToInc, cost, size) == Some(Markup(excToInc, cost, size, 2.5))
    ensures Markup(excToInc, cost, size, 2.5) < Dept4Floor ==> GuessPrice(4, excToInc, cost, size) == Some(Dept4Floor)
  {
  }

  /** With a VAT conversion that never lowers a price when its argument
      grows, a positive unit size and a non-negative multiplier, a dearer
      unit never gets a lower marked-up price. */
  lemma {:induction false} MarkupMonotoneInCost(excToInc: real -> real, cost1: real, cost2: real, size: real, multiplier: real)
    requires forall x, y :: x <= y ==> excToInc(x) <= excToInc(y)
    requires 0.0 < size && 0.0 <= multiplier && cost1 <= cost2
    ensures Markup(excToInc, cost1, size, multiplier) <= Markup(excToInc, cost2, size, multiplier)
  {
    var a, b := cost1 * multiplier, cost2 * multiplier;
    assert a <= b by {
      assert cost2 * multiplier - cost1 * multiplier == (cost2 - cost1) * multiplier;
    }
    assert a / size <= b / size by {
      assert b / size - a / size == (b - a) / size;
    }
    RoundUpTenthMonotone(excToInc(a / size), excToInc(b / size));
  }

  /** Hence, in every department with a policy, a dearer delivery never
      gets a lower suggested price. */
  lemma {:induction false} GuessPriceMonotoneInCost(deptId: int, excToInc: real -> real, cost1: real, cost2: real, size: real)
    requires forall x, y :: x <= y ==> excToInc(x) <= excToInc(y)
    requires 0.0 < size && cost1 <= cost2
    requires deptId in {1, 2, 3, 4, 5, 6, 13}
    ensures GuessPrice(deptId, excToInc, cost1, size).value <= GuessPrice(deptId, excToInc, cost2, size).value
  {
    var m := if deptId == 1 then 3.0 else if deptId == 2 || deptId == 13 then 2.3
             else if deptId == 3 then 2.6 else if deptId == 4 then 2.5 else 2.0;
    MarkupMonotoneInCost(excToInc, cost1, cost2, size, m);
  }
}
