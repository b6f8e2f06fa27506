/** The site's sale-line modifiers. Each modifier either rejects the item it
    is applied to (Incompatible, with a reason for the operator) or rewrites
    the sale's quantity, price and description in place. Every modifier
    finishes its eligibility checks before it assigns anything, so a
    rejected call leaves the sale exactly as it was.

    Each modifier is a class whose method changes the sale; the method is
    specified by a rule function on sale values, and the rules' properties
    are stated on those functions. */
module Modifiers {
  import opened Options
  import opened Stock
  import opened Sales
  import opened Money

  /** The department that holds wine. */
  const WineDept := 90

  /** What a modifier call reports: done, or the Incompatible reason. */
  datatype Outcome = Applied | Incompatible(reason: string)

  /** What a rule does to a sale: the new field values, or a rejection. */
  datatype RuleResult = Modified(after: SaleState) | Rejected(reason: string)

  /** A modifier call carried out rule result r: the sale now holds the new
      values, or it reports the reason and its fields are unchanged. */
  predicate Performs(r: RuleResult, outcome: Outcome, before: SaleState, after: SaleState) {
    match r
    case Modified(s) => outcome == Applied && after == s
    case Rejected(msg) => outcome == Incompatible(msg) && after == before
  }

  /** Quantity and price are scaled by the same factor k ("more of the same
      item"); a price that is unset or zero is left as it was. */
  predicate ScalesBy(before: SaleState, after: SaleState, k: real) {
    after.qty == before.qty * k &&
    after.price == (if Truthy(before.price) then Some(before.price.value * k) else before.price)
  }

  /** Scaling quantity and price together keeps the price per unit: a case
      of 24 costs 24 times one can, half a pint half a pint. */
  lemma {:induction false} ScalingKeepsUnitPrice(before: SaleState, after: SaleState, k: real)
    requires ScalesBy(before, after, k) && k != 0.0
    requires Truthy(before.price) && before.qty != 0.0
    ensures Truthy(after.price) && after.qty != 0.0
    ensures after.price.value / after.qty == before.price.value / before.qty
  {
    var p, q := before.price.value, before.qty;
    assert after.price.value == p * k && after.qty == q * k;
    calc {
      after.price.value / after.qty;
      (p * k) / (q * k);
      { assert (p * k) / (q * k) * (q * k) == p * k; }
      p / q;
    }
  }

  // ---------------------------------------------------------------- Case

  function ClubMateOnly(name: string): string {
    "The " + name + " modifier can only be used with Club Mate."
  }

  /** What Case does to a sale of stock type st: accepted only for Club Mate;
      a case is 24 of the "Regular 330ml" type and 20 of any other. */
  function CaseRule(name: string, st: StockType, s: SaleState): (r: RuleResult)
    ensures r.Modified? <==> st.manufacturer == "Club Mate"
    ensures r.Rejected? ==> r.reason == ClubMateOnly(name)
    ensures r.Modified? && st.name == "Regular 330ml" ==>
      ScalesBy(s, r.after, 24.0) && r.after.description == st.display + " case of 24"
    ensures r.Modified? && st.name != "Regular 330ml" ==>
      ScalesBy(s, r.after, 20.0) && r.after.description == st.display + " case of 20"
  {
    if st.manufacturer != "Club Mate" then Rejected(ClubMateOnly(name))
    else
      var caseqty := if st.name == "Regular 330ml" then 24 else 20;
      var price := if Truthy(s.price) then Some(s.price.value * caseqty as real) else s.price;
      Modified(SaleState(s.qty * caseqty as real, price,
                         st.display + " case of " + (if caseqty == 24 then "24" else "20")))
  }

  class Case {
    const name: string

    constructor (name: string)
      ensures this.name == name
    {
      this.name := name;
    }

    method ModStockline(stockline: StockLine, sale: Sale) returns (outcome: Outcome)
      requires sale.stocktype.Some?
      modifies sale
      ensures Performs(CaseRule(name, sale.stocktype.value, old(sale.State())),
                       outcome, old(sale.State()), sale.State())
    {
      var st := sale.stocktype.value;
      if st.manufacturer != "Club Mate" {
        return Incompatible(ClubMateOnly(name));
      }
      var caseqty := if st.name == "Regular 330ml" then 24 else 20;
      if Truthy(sale.price) {
        sale.price := Some(sale.price.value * caseqty as real);
      }
      sale.qty := sale.qty * caseqty as real;
      sale.description := st.display + " case of " + (if caseqty == 24 then "24" else "20");
      outcome := Applied;
    }
  }

  // ---------------------------------------------------------------- Half

  /** Stock sold in pints: by the "pint" unit, or in millilitres priced per
      568ml (an imperial pint). */
  predicate SoldInPints(u: StockUnit) {
    u.name == "pint" || (u.name == "ml" && u.baseUnitsPerSaleUnit == 568)
  }

  function PintsOnly(name: string): string {
    "The " + name + " modifier can only be used with stock that is sold in pints."
  }

  /** What Half does: halves quantity and price of anything sold in pints. */
  function HalfRule(name: string, st: StockType, s: SaleState): (r: RuleResult)
    ensures r.Modified? <==> st.unit.name == "pint" || (st.unit.name == "ml" && st.unit.baseUnitsPerSaleUnit == 568)
    ensures r.Rejected? ==> r.reason == PintsOnly(name)
    ensures r.Modified? ==> ScalesBy(s, r.after, 0.5) && r.after.description == st.display + " half pint"
  {
    if SoldInPints(st.unit) then
      var price := if Truthy(s.price) then Some(s.price.value / 2.0) else s.price;
      Modified(SaleState(s.qty * 0.5, price, st.display + " half pint"))
    else Rejected(PintsOnly(name))
  }

  class Half {
    const name: string

    constructor (name: string)
      ensures this.name == name
    {
      this.name := name;
    }

    method ModStockline(stockline: StockLine, sale: Sale) returns (outcome: Outcome)
      requires sale.stocktype.Some?
      modifies sale
      ensures Performs(HalfRule(name, sale.stocktype.value, old(sale.State())),
                       outcome, old(sale.State()), sale.State())
    {
      var st := sale.stocktype.value;
      if SoldInPints(st.unit) {
        if Truthy(sale.price) {
          sale.price := Some(sale.price.value / 2.0);
        }
        sale.qty := sale.qty * 0.5;
        sale.description := st.display + " half pint";
        return Applied;
      }
      outcome := Incompatible(PintsOnly(name));
    }
  }

  // ------------------------------------------------------- Mixer, Carton

  /** Soft drinks: stock kept in millilitres and priced per 568ml pint. */
  predicate SoftDrink(u: StockUnit) {
    u.name == "ml" && u.baseUnitsPerSaleUnit == 568
  }

  function SoftDrinksOnly(name: string): string {
    "The " + name + " modifier can only be used with soft drinks."
  }

  /** A fixed serving of a soft drink: qty ml at a fixed price, whatever
      the sale held before; an unset or zero price stays as it was. */
  function FixedServing(name: string, st: StockType, s: SaleState, qty: real, price: real, suffix: string): (r: RuleResult)
    ensures r.Modified? <==> st.unit.name == "ml" && st.unit.baseUnitsPerSaleUnit == 568
    ensures r.Rejected? ==> r.reason == SoftDrinksOnly(name)
    ensures r.Modified? ==> r.after.qty == qty && r.after.description == st.display + suffix
    ensures r.Modified? ==> r.after.price == if Truthy(s.price) then Some(price) else s.price
  {
    if !SoftDrink(st.unit) then Rejected(SoftDrinksOnly(name))
    else Modified(SaleState(qty, if Truthy(s.price) then Some(price) else s.price, st.display + suffix))
  }

  /** What Mixer does: a 100ml mixer at 0.70. */
  function MixerRule(name: string, st: StockType, s: SaleState): (r: RuleResult)
    ensures r.Modified? <==> SoftDrink(st.unit)
    ensures r.Rejected? ==> r.reason == SoftDrinksOnly(name)
    ensures r.Modified? ==> r.after.qty == 100.0 && r.after.description == st.display + " mixer"
    ensures r.Modified? && Truthy(s.price) ==> r.after.price == Some(0.70)
    ensures r.Modified? && !Truthy(s.price) ==> r.after.price == s.price
  {
    FixedServing(name, st, s, 100.0, 0.70, " mixer")
  }

  /** What Carton does: a 1000ml carton at 3.00. */
  function CartonRule(name: string, st: StockType, s: SaleState): (r: RuleResult)
    ensures r.Modified? <==> SoftDrink(st.unit)
    ensures r.Rejected? ==> r.reason == SoftDrinksOnly(name)
    ensures r.Modified? ==> r.after.qty == 1000.0 && r.after.description == st.display + " carton"
    ensures r.Modified? && Truthy(s.price) ==> r.after.price == Some(3.00)
    ensures r.Modified? && !Truthy(s.price) ==> r.after.price == s.price
  {
    FixedServing(name, st, s, 1000.0, 3.00, " carton")
  }

  /** Applying a fixed serving to a sale it has already set up changes
      nothing: quantity, price and description are fixed values. */
  lemma {:induction false} FixedServingIdempotent(name: string, st: StockType, s: SaleState, qty: real, price: real, suffix: string)
    requires FixedServing(name, st, s, qty, price, suffix).Modified?
    ensures FixedServing(name, st, FixedServing(name, st, s, qty, price, suffix).after, qty, price, suffix)
            == FixedServing(name, st, s, qty, price, suffix)
  {
  }

  /** A fixed serving forgets what the sale held: two sales that both carry
      a price, or carry the same unset or zero price, end up identical. */
  lemma {:induction false} FixedServingForgetsSale(name: string, st: StockType, s1: SaleState, s2: SaleState, qty: real, price: real, suffix: string)
    requires (Truthy(s1.price) && Truthy(s2.price)) || s1.price == s2.price
    ensures FixedServing(name, st, s1, qty, price, suffix) == FixedServing(name, st, s2, qty, price, suffix)
  {
  }

  class Mixer {
    const name: string

    constructor (name: string)
      ensures this.name == name
    {
      this.name := name;
    }

    method ModStockline(stockline: StockLine, sale: Sale) returns (outcome: Outcome)
      requires sale.stocktype.Some?
      modifies sale
      ensures Performs(MixerRule(name, sale.stocktype.value, old(sale.State())),
                       outcome, old(sale.State()), sale.State())
    {
      var st := sale.stocktype.value;
      if !SoftDrink(st.unit) {
        return Incompatible(SoftDrinksOnly(name));
      }
      if Truthy(sale.price) {
        sale.price := Some(0.70);
      }
      sale.qty := 100.0;
      sale.description := st.display + " mixer";
      outcome := Applied;
    }
  }

  class Carton {
    const name: string

    constructor (name: string)
      ensures this.name == name
    {
      this.name := name;
    }

    method ModStockline(stockline: StockLine, sale: Sale) returns (outcome: Outcome)
      requires sale.stocktype.Some?
      modifies sale
      ensures Performs(CartonRule(name, sale.stocktype.value, old(sale.State())),
                       outcome, old(sale.State()), sale.State())
    {
      var st := sale.stocktype.value;
      if !SoftDrink(st.unit) {
        return Incompatible(SoftDrinksOnly(name));
      }
      if Truthy(sale.price) {
        sale.price := Some(3.00);
      }
      sale.qty := 1000.0;
      sale.description := st.display + " carton";
      outcome := Applied;
    }
  }

  // -------------------------------------------------------------- Double

  /** Spirits: sold in 25ml or 50ml measures. */
  predicate SpiritMeasure(u: StockUnit) {
    u.name == "25ml" || u.name == "50ml"
  }

  function SpiritsOnly(name: string): string {
    "The " + name + " modifier can only be used with spirits."
  }

  /** What Double does: doubles quantity and price of a spirit measure. */
  function DoubleRule(name: string, st: StockType, s: SaleState): (r: RuleResult)
    ensures r.Modified? <==> st.unit.name == "25ml" || st.unit.name == "50ml"
    ensures r.Rejected? ==> r.reason == SpiritsOnly(name)
    ensures r.Modified? ==> ScalesBy(s, r.after, 2.0)
    ensures r.Modified? ==> r.after.description == st.display + " double " + st.unit.name
  {
    if !SpiritMeasure(st.unit) then Rejected(SpiritsOnly(name))
    else
      var price := if Truthy(s.price) then Some(s.price.value * 2.0) else s.price;
      Modified(SaleState(s.qty * 2.0, price, st.display + " double " + st.unit.name))
  }

  /** No stock type accepts both Half and Double: a pint is never a spirit
      measure, so Half on a 25ml or 50ml measure is always rejected. */
  lemma {:induction false} HalfAndDoubleExclusive(name: string, st: StockType, s: SaleState)
    ensures !(HalfRule(name, st, s).Modified? && DoubleRule(name, st, s).Modified?)
    ensures SpiritMeasure(st.unit) ==> HalfRule(name, st, s) == Rejected(PintsOnly(name))
  {
  }

  /** Case, Half and Double sell more or less of the same item: whenever one
      of them accepts a priced sale of non-zero quantity, the price per
      unit of quantity is unchanged. */
  lemma {:induction false} ScalingModifiersKeepUnitPrice(name: string, st: StockType, s: SaleState)
    requires Truthy(s.price) && s.qty != 0.0
    ensures CaseRule(name, st, s).Modified? ==>
      CaseRule(name, st, s).after.price.value / CaseRule(name, st, s).after.qty == s.price.value / s.qty
    ensures HalfRule(name, st, s).Modified? ==>
      HalfRule(name, st, s).after.price.value / HalfRule(name, st, s).after.qty == s.price.value / s.qty
    ensures DoubleRule(name, st, s).Modified? ==>
      DoubleRule(name, st, s).after.price.value / DoubleRule(name, st, s).after.qty == s.price.value / s.qty
  {
    var c := CaseRule(name, st, s);
    if c.Modified? {
      ScalingKeepsUnitPrice(s, c.after, if st.name == "Regular 330ml" then 24.0 else 20.0);
    }
    var h := HalfRule(name, st, s);
    if h.Modified? {
      ScalingKeepsUnitPrice(s, h.after, 0.5);
    }
    var d := DoubleRule(name, st, s);
    if d.Modified? {
      ScalingKeepsUnitPrice(s, d.after, 2.0);
    }
  }

  class Double {
    const name: string

    constructor (name: string)
      ensures this.name == name
    {
      this.name := name;
    }

    method ModStockline(stockline: StockLine, sale: Sale) returns (outcome: Outcome)
      requires sale.stocktype.Some?
      modifies sale
      ensures Performs(DoubleRule(name, sale.stocktype.value, old(sale.State())),
                       outcome, old(sale.State()), sale.State())
    {
      var st := sale.stocktype.value;
      if !SpiritMeasure(st.unit) {
        return Incompatible(SpiritsOnly(name));
      }
      if Truthy(sale.price) {
        sale.price := Some(sale.price.value * 2.0);
      }
      sale.qty := sale.qty * 2.0;
      sale.description := st.display + " double " + st.unit.name;
      outcome := Applied;
    }
  }

  // ---------------------------------------------------------------- Wine

  /** The bottle price scaled to a serving of size ml (a bottle is 750ml),
      rounded up to a whole 10p and written at two decimals. The scaled
      price is computed exactly (see README, Findings). */
  function WineRoundedPrice(size: real, price: real): (r: real)
    ensures IsTenth(r)
    ensures 0.0 <= size / 750.0 * price ==> size / 750.0 * price <= r < size / 750.0 * price + 0.1
    ensures size / 750.0 * price <= 0.0 ==> size / 750.0 * price - 0.1 < r <= size / 750.0 * price
  {
    var t := RoundUpTenth(size / 750.0 * price);
    QuantizeHundredthKeepsTenths(t);
    QuantizeHundredth(t)
  }

  /** The price of a serving: the rounded scaled price plus the serving's
      fixed extra charge. */
  function WineGlassPrice(size: real, price: real, extra: real): (r: real)
    ensures IsTenth(r - extra)
    ensures 0.0 <= size / 750.0 * price ==>
      size / 750.0 * price + extra <= r < size / 750.0 * price + extra + 0.1
    ensures size / 750.0 * price <= 0.0 ==>
      size / 750.0 * price + extra - 0.1 < r <= size / 750.0 * price + extra
  {
    WineRoundedPrice(size, price) + extra
  }

  /** The glass price never charges a further 10p: any whole-10p amount that
      covers the proportional price covers the glass price less its extra. */
  lemma {:induction false} WineGlassPriceIsLeast(size: real, price: real, extra: real, t: real)
    requires IsTenth(t) && 0.0 <= size / 750.0 * price <= t
    ensures WineGlassPrice(size, price, extra) - extra <= t
  {
    var x := size / 750.0 * price;
    RoundUpTenthIsNearest(x, t);
    QuantizeHundredthKeepsTenths(RoundUpTenth(x));
  }

  /** A wine stock line: continuous, kept in ml, priced per 750ml bottle and
      in the wine department. */
  predicate WineLine(line: StockLine) {
    line.linetype == "continuous" && line.stocktype.Some? &&
    line.stocktype.value.unit.name == "ml" &&
    line.stocktype.value.unit.baseUnitsPerSaleUnit == 750 &&
    line.stocktype.value.deptId == WineDept
  }

  const WineOnly := "This modifier can only be used with wine."

  /** What a Wine serving does on a stock line: the sale becomes size ml,
      priced in proportion to the bottle price (when there is one). */
  function WineStockLineRule(size: real, text: string, extra: real, line: StockLine, s: SaleState): (r: RuleResult)
    requires line.linetype == "continuous" ==> line.stocktype.Some?
    ensures r.Modified? <==>
      line.linetype == "continuous" && line.stocktype.value.unit.name == "ml" &&
      line.stocktype.value.unit.baseUnitsPerSaleUnit == 750 && line.stocktype.value.deptId == WineDept
    ensures r.Rejected? ==> r.reason == WineOnly
    ensures r.Modified? ==> r.after.qty == size && r.after.description == line.stocktype.value.display + " " + text
    ensures r.Modified? && Truthy(s.price) ==> r.after.price == Some(WineGlassPrice(size, s.price.value, extra))
    ensures r.Modified? && !Truthy(s.price) ==> r.after.price == s.price
  {
    if !WineLine(line) then Rejected(WineOnly)
    else
      var price := if Truthy(s.price) then Some(WineGlassPrice(size, s.price.value, extra)) else s.price;
      Modified(SaleState(size, price, line.stocktype.value.display + " " + text))
  }

  function MissingPriceField(plu: Plu, field: PluField): string {
    "The " + plu.description + " price lookup does not have " + FieldName(field) + " set."
  }

  /** What a Wine serving does on a price lookup: in the wine department it
      takes the serving's own price column, which must be set and non-zero;
      the quantity is left alone. */
  function WinePluRule(text: string, field: PluField, plu: Plu, s: SaleState): (r: RuleResult)
    ensures r.Modified? <==> plu.deptId == WineDept && Truthy(FieldValue(plu, field))
    ensures plu.deptId != WineDept ==> r == Rejected(WineOnly)
    ensures plu.deptId == WineDept && !Truthy(FieldValue(plu, field)) ==>
      r == Rejected(MissingPriceField(plu, field))
    ensures r.Modified? ==>
      r.after == SaleState(s.qty, FieldValue(plu, field), plu.description + " " + text)
  {
    if plu.deptId != WineDept then Rejected(WineOnly)
    else if !Truthy(FieldValue(plu, field)) then Rejected(MissingPriceField(plu, field))
    else Modified(SaleState(s.qty, FieldValue(plu, field), plu.description + " " + text))
  }

  /** Taking a wine serving from a price lookup twice is the same as once:
      the price and description come from the lookup alone. */
  lemma {:induction false} WinePluIdempotent(text: string, field: PluField, plu: Plu, s: SaleState)
    requires WinePluRule(text, field, plu, s).Modified?
    ensures WinePluRule(text, field, plu, WinePluRule(text, field, plu, s).after) == WinePluRule(text, field, plu, s)
  {
  }

  class Wine {
    const name: string
    const size: real
    const text: string
    const field: PluField
    const extra: real

    constructor (name: string, size: real, text: string, field: PluField, extra: real)
      ensures this.name == name && this.size == size && this.text == text
      ensures this.field == field && this.extra == extra
    {
      this.name := name;
      this.size := size;
      this.text := text;
      this.field := field;
      this.extra := extra;
    }

    method ModStockline(stockline: StockLine, sale: Sale) returns (outcome: Outcome)
      requires stockline.linetype == "continuous" ==> stockline.stocktype.Some?
      modifies sale
      ensures Performs(WineStockLineRule(size, text, extra, stockline, old(sale.State())),
                       outcome, old(sale.State()), sale.State())
    {
      if !WineLine(stockline) {
        return Incompatible(WineOnly);
      }
      sale.qty := size;
      sale.description := stockline.stocktype.value.display + " " + text;
      if Truthy(sale.price) {
        sale.price := Some(WineRoundedPrice(size, sale.price.value));
        sale.price := Some(sale.price.value + extra);
      }
      outcome := Applied;
    }

    method ModPlu(plu: Plu, sale: Sale) returns (outcome: Outcome)
      modifies sale
      ensures Performs(WinePluRule(text, field, plu, old(sale.State())),
                       outcome, old(sale.State()), sale.State())
    {
      if plu.deptId != WineDept {
        return Incompatible(WineOnly);
      }
      var price := FieldValue(plu, field);
      if !Truthy(price) {
        return Incompatible(MissingPriceField(plu, field));
      }
      sale.price := price;
      sale.description := plu.description + " " + text;
      outcome := Applied;
    }
  }

  /** The four servings the site registers: name, size in ml, suffix, price
      lookup column and extra charge. */
  datatype WineServing = WineServing(name: string, size: real, text: string, field: PluField, extra: real)

  const Small := WineServing("Small", 125.0, "125ml glass", AltPrice1, 0.00)
  const Medium := WineServing("Medium", 175.0, "175ml glass", AltPrice2, 0.00)
  const Large := WineServing("Large", 250.0, "250ml glass", AltPrice3, 0.00)
  const WineBottle := WineServing("Wine Bottle", 750.0, "75cl bottle", Price, 0.00)

  /** For any bottle price that is not negative, a bigger registered serving
      never costs less than a smaller one. */
  lemma {:induction false} ServingPricesFollowSize(price: real)
    requires 0.0 <= price
    ensures WineGlassPrice(Small.size, price, Small.extra) <= WineGlassPrice(Medium.size, price, Medium.extra)
    ensures WineGlassPrice(Medium.size, price, Medium.extra) <= WineGlassPrice(Large.size, price, Large.extra)
    ensures WineGlassPrice(Large.size, price, Large.extra) <= WineGlassPrice(WineBottle.size, price, WineBottle.extra)
  {
    WineRoundedPriceMonotone(125.0, 175.0, price);
    WineRoundedPriceMonotone(175.0, 250.0, price);
    WineRoundedPriceMonotone(250.0, 750.0, price);
  }

  /** For a price that is not negative, the rounded price grows with the
      serving size. */
  lemma {:induction false} WineRoundedPriceMonotone(small: real, large: real, price: real)
    requires 0.0 <= small <= large && 0.0 <= price
    ensures WineRoundedPrice(small, price) <= WineRoundedPrice(large, price)
  {
    var x, y := small / 750.0 * price, large / 750.0 * price;
    assert x <= y by {
      assert y - x == (large - small) / 750.0 * price;
    }
    RoundUpTenthMonotone(x, y);
    QuantizeHundredthKeepsTenths(RoundUpTenth(x));
    QuantizeHundredthKeepsTenths(RoundUpTenth(y));
  }

  /** A whole bottle sold through the Wine Bottle serving keeps a bottle
      price that is a whole number of tenths. */
  lemma {:induction false} WineBottleKeepsTenthPrices(price: real)
    requires IsTenth(price)
    ensures WineGlassPrice(WineBottle.size, price, WineBottle.extra) == price
  {
    assert 750.0 / 750.0 * price == price;
    RoundUpTenthKeepsTenths(price);
    QuantizeHundredthKeepsTenths(price);
  }

  /** A small glass from a bottle at 9.00 costs 1.50: 125/750 of 9.00 is
      1.5 exactly, which is already a whole number of tenths. */
  lemma {:induction false} SmallGlassAtNinePounds()
    ensures WineGlassPrice(Small.size, 9.00, Small.extra) == 1.50
  {
    assert 125.0 / 750.0 * 9.00 == 1.5;
    assert IsTenth(1.5) by { assert (1.5 * 10.0).Floor == 15; }
    RoundUpTenthKeepsTenths(1.5);
    QuantizeHundredthKeepsTenths(1.5);
  }

  /** A small glass from a bottle at 18.00 costs 3.00: 125/750 of 18.00 is
      3 exactly, which is already a whole number of tenths. */
  lemma {:induction false} SmallGlassAtEighteenPounds()
    ensures WineGlassPrice(Small.size, 18.00, Small.extra) == 3.00
  {
    assert 125.0 / 750.0 * 18.00 == 3.0;
    assert IsTenth(3.0) by { assert (3.0 * 10.0).Floor == 30; }
    RoundUpTenthKeepsTenths(3.0);
    QuantizeHundredthKeepsTenths(3.0);
  }
}
