# Till pricing rules: sale-line modifiers and the suggested-price hook

A model, in Dafny, of the pricing rules of the EMF Camp bar's till
configuration (`examples/emfcamp.py` in quicktill). It covers two parts:

- **Modifiers.** Case, Half, Mixer, Carton, Double and Wine rewrite a
  proposed sale in place: its quantity, its unit price (which may be unset)
  and its description. A modifier may instead reject the item with
  `Incompatible`. Every modifier makes all of its checks before it assigns
  anything. So a rejected call leaves the sale as it was, and each method's
  postcondition says so.
- **Price guess.** `PriceGuess.guess_price` and `markup` suggest a retail
  price for newly received stock. The price is the department's markup
  over the ex-VAT cost of one unit, made VAT-inclusive and rounded up to a
  whole 10p. Departments without a policy get no suggestion.

Layout:

- `money.dfy` (module `Money`): exact decimal values as Dafny reals. It
  holds `quantize(Decimal("0.1"), ROUND_UP)` as `RoundUpTenth`, which
  rounds away from zero. It holds `quantize(Decimal("0.10"))` under the
  default half-even rounding as `QuantizeHundredth`.
- `stock.dfy` (modules `Options`, `Stock`, `Sales`): stock units, stock
  types, stock lines and price lookups (PLUs) as values. The proposed sale
  is the class `Sales.Sale`. Its fields `qty`, `price` and `description`
  are what modifiers assign. `Truthy` is Python's truth test on
  `sale.price`: an unset price and a zero price are both false.
- `modifiers.dfy` (module `Modifiers`): one class per modifier, each with a
  `ModStockline` method (Wine also has `ModPlu`) that changes the sale.
  Each method is specified by a rule function on sale values (`CaseRule`,
  `HalfRule`, ...) through `Performs`. `Performs` says that on `Modified`
  the sale holds the new values, and on `Rejected` the call reports the
  reason and the sale is unchanged. The properties are lemmas about the
  rule functions.
- `priceguess.dfy` (module `PriceGuess`): `Markup` and `GuessPrice` as
  functions. `Policies` is the department table they are checked against.
- `pydecimal.dfy` (module `PyDecimal`): Python's decimal arithmetic under
  the default context (28 significant digits, half-even). It is used only
  to model the Wine price exactly as the source computes it (see
  Findings).

## Model

| member | source | states |
|---|---|---|
| `Money.RoundUpTenth` | examples/emfcamp.py:166 | The result is a whole number of tenths. For x >= 0 it lies in [x, x + 0.1). For x <= 0 it lies in (x - 0.1, x]. So it rounds away from zero, by less than 0.1. |
| `Money.RoundUpTenthIsNearest` | examples/emfcamp.py:166 | No multiple of 0.1 lies strictly between x and its rounding: on either side of zero, the rounding is the nearest tenth on the far side of x. |
| `Money.RoundUpTenthKeepsTenths` | examples/emfcamp.py:217 | A value that is already a whole number of tenths is left unchanged by ROUND_UP quantization. |
| `Money.RoundUpTenthMonotone` | examples/emfcamp.py:217 | Rounding up to tenths preserves order: x <= y implies round(x) <= round(y). |
| `Money.RoundHalfEven` | examples/emfcamp.py:167 | The result is an integer within 0.5 of y. A tie goes to the even neighbour (the default context's rounding). |
| `Money.QuantizeHundredth` | examples/emfcamp.py:167 | The result is a whole number of pence, within half a penny of x. At an exact half-penny it is an even number of pence. |
| `Money.RoundUpTenthUnique` | examples/emfcamp.py:166 | For x >= 0, a whole number of tenths in [x, x + 0.1) is RoundUpTenth(x): the bounds fix the rounding. |
| `Money.QuantizeHundredthKeepsTenths` | examples/emfcamp.py:166-167 | Re-quantizing a one-decimal value to two decimals does not change it. The second quantize step is exact. |
| `Modifiers.ScalingKeepsUnitPrice` | examples/emfcamp.py:56-58 | When quantity and a set price are scaled by the same non-zero factor (Case, Half, Double), the price per unit of quantity is unchanged. |
| `Modifiers.CaseRule` | examples/emfcamp.py:45-59 | Accepted exactly when the manufacturer is "Club Mate"; otherwise rejected with the Club Mate message. On acceptance, qty and a truthy price are both scaled by 24 when the type is "Regular 330ml" and by 20 otherwise. An unset or zero price is unchanged. The description is "<stock type> case of 24" or "... case of 20". |
| `Modifiers.Case.ModStockline` | examples/emfcamp.py:45-59 | The sale's new fields are exactly what CaseRule gives for its old fields. On rejection it returns Incompatible with that reason and the sale is unchanged. |
| `Modifiers.HalfRule` | examples/emfcamp.py:68-80 | Accepted exactly when the unit is "pint", or "ml" with 568 base units. On acceptance qty and a truthy price are scaled by 0.5 and the description is "<stock type> half pint". Otherwise it is rejected with the pints message. |
| `Modifiers.Half.ModStockline` | examples/emfcamp.py:68-80 | The sale's new fields are exactly what HalfRule gives. A rejection leaves the sale unchanged. |
| `Modifiers.FixedServing` | examples/emfcamp.py:91-98 | Accepted exactly when the unit is "ml" with 568 base units; otherwise rejected with the soft-drinks message. On acceptance qty is the fixed serving whatever it was before. A truthy price becomes the fixed price; an unset or zero price stays as it was. |
| `Modifiers.MixerRule` | examples/emfcamp.py:90-98 | Accepted exactly for soft drinks (ml, 568). Otherwise rejected with the soft-drinks message. On acceptance qty becomes 100.0, the description is "<stock type> mixer" and a truthy price becomes 0.70. An untruthy price is kept. |
| `Modifiers.CartonRule` | examples/emfcamp.py:108-116 | Accepted exactly for soft drinks (ml, 568). Otherwise rejected with the soft-drinks message. On acceptance qty becomes 1000.0, the description is "<stock type> carton" and a truthy price becomes 3.00. An untruthy price is kept. |
| `Modifiers.FixedServingIdempotent` | examples/emfcamp.py:95-98 | Applying Mixer or Carton again to a sale it has already rewritten gives the same result. |
| `Modifiers.FixedServingForgetsSale` | examples/emfcamp.py:95-98 | Any two sales that both carry a price, or carry the same unset or zero price, end up identical after Mixer or Carton, whatever their quantity was. |
| `Modifiers.Mixer.ModStockline` | examples/emfcamp.py:90-98 | The sale's new fields are exactly what MixerRule gives. A rejection leaves the sale unchanged. |
| `Modifiers.Carton.ModStockline` | examples/emfcamp.py:108-116 | The sale's new fields are exactly what CartonRule gives. A rejection leaves the sale unchanged. |
| `Modifiers.DoubleRule` | examples/emfcamp.py:125-134 | Accepted exactly when the unit name is "25ml" or "50ml"; otherwise rejected with the spirits message. On acceptance qty and a truthy price are both doubled and the description is "<stock type> double <unit>". |
| `Modifiers.HalfAndDoubleExclusive` | examples/emfcamp.py:69-71 | No stock type is accepted by both Half and Double. Half on a 25ml or 50ml measure is always rejected with the pints message. |
| `Modifiers.ScalingModifiersKeepUnitPrice` | examples/emfcamp.py:56-58 | For every stock type and every priced sale of non-zero quantity, whenever Case, Half or Double accepts it, the price per unit of quantity after the modifier equals the one before. |
| `Modifiers.Double.ModStockline` | examples/emfcamp.py:125-134 | The sale's new fields are exactly what DoubleRule gives. A rejection leaves the sale unchanged. |
| `Modifiers.WineRoundedPrice` | examples/emfcamp.py:165-167 | The scaled price (size/750 of the bottle price) rounded to a whole number of tenths. For a non-negative scaled price it is never below it and less than 0.1 above it. For a non-positive one it is never above it and less than 0.1 below. |
| `Modifiers.WineGlassPrice` | examples/emfcamp.py:164-168 | The serving price less the extra is a whole number of tenths. For a non-negative scaled price, the serving price lies in [scaled + extra, scaled + extra + 0.1). |
| `Modifiers.WineRoundedPriceMonotone` | examples/emfcamp.py:165-167 | For a non-negative price, a larger serving size never gives a smaller rounded price. |
| `Modifiers.WineGlassPriceIsLeast` | examples/emfcamp.py:165-166 | Every whole-10p amount at or above the non-negative scaled price is at or above the serving price less its extra. Rounding never charges a further 10p. |
| `Modifiers.WineStockLineRule` | examples/emfcamp.py:155-168 | Accepted exactly when the line is continuous and its stock type is in ml, 750 base units and department 90; otherwise rejected with the wine message. On acceptance qty becomes the serving size and the description is "<stock type> <text>". A truthy price becomes WineGlassPrice; an untruthy price is kept. |
| `Stock.FieldValue` | examples/emfcamp.py:174 | getattr(plu, field): the column whose attribute name is "price", "altprice1", "altprice2" or "altprice3" is the one read. |
| `Stock.FieldNameInjective` | examples/emfcamp.py:174 | Two price columns have the same attribute name exactly when they are the same column, so a field name selects one column. |
| `Modifiers.WinePluRule` | examples/emfcamp.py:170-180 | Rejected with the wine message when the PLU is not in department 90. Rejected with a message naming the PLU and the field when the field is unset or zero. Otherwise the price becomes the field's value and the description "<PLU description> <text>"; qty is unchanged. |
| `Modifiers.WinePluIdempotent` | examples/emfcamp.py:179-180 | Applying a Wine serving to a PLU sale twice gives the same as applying it once. |
| `Modifiers.Wine.constructor` | examples/emfcamp.py:148-153 | A Wine modifier keeps the name, size, text, field and extra it is built with. |
| `Modifiers.Wine.ModStockline` | examples/emfcamp.py:155-168 | The sale's new fields are exactly what WineStockLineRule gives. A rejection leaves the sale unchanged. |
| `Modifiers.Wine.ModPlu` | examples/emfcamp.py:170-180 | The sale's new fields are exactly what WinePluRule gives. A rejection leaves the sale unchanged. |
| `Modifiers.ServingPricesFollowSize` | examples/emfcamp.py:183-186 | For any non-negative bottle price the registered servings are ordered by price: Small <= Medium <= Large <= Wine Bottle. |
| `Modifiers.WineBottleKeepsTenthPrices` | examples/emfcamp.py:186 | The Wine Bottle serving leaves a bottle price that is a whole number of tenths unchanged. |
| `Modifiers.SmallGlassAtNinePounds` | examples/emfcamp.py:183 | A Small (125ml) serving of a bottle priced 9.00 costs 1.50. |
| `Modifiers.SmallGlassAtEighteenPounds` | examples/emfcamp.py:183 | A Small serving of a bottle priced 18.00 costs 3.00, exactly a sixth of the bottle. |
| `PriceGuess.Markup` | examples/emfcamp.py:214-217 | The result is a whole number of tenths. For a non-negative VAT-inclusive amount exc_to_inc(cost * markup / size) it lies in [amount, amount + 0.1). |
| `PriceGuess.GuessPrice` | examples/emfcamp.py:196-211 | There is a suggestion exactly for departments 1, 2, 3, 4, 5, 6 and 13. Every suggestion is a whole number of tenths. Department 4's is never below 2.50. |
| `PriceGuess.GuessPriceFollowsPolicies` | examples/emfcamp.py:196-211 | The chain of department tests agrees with the policy table for every department. The multipliers are 3.0, 2.3, 2.6, 2.5 (floor 2.50), 2.0, 2.0 and 2.3. Any other department gets None. |
| `PriceGuess.Max` | examples/emfcamp.py:204 | max(a, b): at least both arguments and equal to one of them; the first argument when the second is not greater. |
| `PriceGuess.Dept4FloorOnlyWhenBelow` | examples/emfcamp.py:203-205 | Department 4 suggests its markup when that is at least 2.50, and exactly 2.50 otherwise. |
| `PriceGuess.MarkupMonotoneInCost` | examples/emfcamp.py:214-217 | When the VAT conversion is order-preserving, the size is positive and the multiplier non-negative, a higher cost never gives a lower markup price. |
| `PriceGuess.GuessPriceMonotoneInCost` | examples/emfcamp.py:196-211 | Under the same conditions, in every department with a policy, a higher cost never gives a lower suggestion. |
| `PyDecimal.CeilDiv` | examples/emfcamp.py:166 | x / unit rounded up: c * unit is the least multiple of unit at or above x, less than one unit above it. |
| `PyDecimal.HalfEvenDiv` | examples/emfcamp.py:165-167 | x / unit rounded half-even: c * unit is at most half a unit from x, and c is even when x lies exactly half-way. |
| `PyDecimal.Fix` | examples/emfcamp.py:165 | _fix under the default context: the result has at most 28 digits and the same or a larger exponent, and it is d rounded half-even at its exponent. A d that fits in 28 digits is returned as it is; a longer one keeps exactly 28 digits, so the exponent is the least one that fits. |
| `PyDecimal.FixValue` | examples/emfcamp.py:165 | In values, _fix moves d by at most half a unit of the result's last place, not at all when d fits in 28 digits, and at an exact tie the result's last digit is even. |
| `PyDecimal.Mul` | examples/emfcamp.py:165 | a * b is the exact product of the coefficients at exponent a.exp + b.exp, rounded half-even. It is that product when it fits in 28 digits, and otherwise keeps exactly 28 digits. |
| `PyDecimal.MulValue` | examples/emfcamp.py:165 | In values, a * b lies within half a unit of its last place of Value(a) * Value(b), equals it when the product fits in 28 digits, and at a tie has an even last digit. |
| `PyDecimal.Add` | examples/emfcamp.py:168 | a + b is the exact sum, written at the smaller exponent, rounded half-even. It is that sum when it fits in 28 digits, and otherwise keeps exactly 28 digits. |
| `PyDecimal.AddValue` | examples/emfcamp.py:168 | In values, a + b lies within half a unit of its last place of Value(a) + Value(b), equals it when the sum fits in 28 digits, and at a tie has an even last digit. |
| `PyDecimal.StripZeros` | examples/emfcamp.py:165 | An exact quotient drops trailing zeros without changing its value (the result's coefficient times 10^(shift) is the input's). It never passes the ideal exponent, and it stops short of it only at a non-zero last digit. |
| `PyDecimal.Quotient` | examples/emfcamp.py:165 | The integer step of Decimal division: num / den at exponent exp, rounded half-even to at most 28 digits. It keeps exactly 28 digits unless the division is exact. |
| `PyDecimal.InexactQuotient` | examples/emfcamp.py:165 | With a non-zero remainder, the integer quotient nudged off a multiple of 5 and rounded by _fix is num / den rounded half-even, with exactly 28 digits. |
| `PyDecimal.ExactQuotient` | examples/emfcamp.py:165 | With no remainder, the quotient stripped of trailing zeros and rounded by _fix is num / den rounded half-even. It is num / den itself unless it keeps 28 digits. |
| `PyDecimal.Div` | examples/emfcamp.py:165 | a / b for a non-zero divisor: at most 28 digits, and the coefficient is the quotient of the shifted operands rounded half-even at the result's exponent. A result with fewer than 28 digits is exact: nothing of the quotient is lost. |
| `PyDecimal.DivValue` | examples/emfcamp.py:165 | In values, a / b lies within half a unit of its last place of Value(a) / Value(b). |
| `PyDecimal.ExactOrFullValue` | examples/emfcamp.py:165 | For any result with Div's contract (so for Div(a, b)): either it keeps 28 digits, or its value times Value(b) is exactly Value(a). |
| `PyDecimal.ExactQuotientValue` | examples/emfcamp.py:165 | A quotient with nothing lost, times the divisor, is the dividend in values. |
| `PyDecimal.RoundedQuotientValue` | examples/emfcamp.py:165 | Any r rounded as Div rounds satisfies |Value(r) * Value(b) - Value(a)| <= half a unit of r times Value(b). |
| `PyDecimal.Rescale` | examples/emfcamp.py:166-167 | _rescale: the result has exponent exactly e, and is d rounded up (ROUND_UP) or half-even at that exponent, exact when no digit is lost. |
| `PyDecimal.Quantize` | examples/emfcamp.py:166-167 | quantize(10^e): the result is None exactly when d is non-zero and d at exponent e, rounded in the given mode, needs more than 28 digits. Otherwise it has exponent exactly e and at most 28 digits and is d rounded in the given mode. Zero quantizes to zero. |
| `PyDecimal.RescaleTooLong` | examples/emfcamp.py:166-167 | When the adjusted exponent of d is more than 28 places above e, d rounded to exponent e in either mode needs more than 28 digits: quantize's early exit raises only where the result would not fit. |
| `PyDecimal.QuantizeValue` | examples/emfcamp.py:166-167 | In values, a ROUND_UP quantize gives r with Value(d) <= Value(r) < Value(d) + 10^e. A half-even quantize gives r within half of 10^e of d. |
| `PyDecimal.QuantizeTiesToEven` | examples/emfcamp.py:167 | A half-even quantize of a value lying exactly half-way between two steps of 10^e returns an even coefficient. |
| `PyDecimal.HalfEvenTieValue` | examples/emfcamp.py:165-167 | For any half-even rounding, a result exactly half a unit of its last place away from the input has an even coefficient. |
| `PyDecimal.RoundedUpIsRoundUpTenth` | examples/emfcamp.py:166 | A Decimal rounded up to exponent -1 has the value Money.RoundUpTenth gives for the input's value. |
| `PyDecimal.TenthsAtTwoDecimals` | examples/emfcamp.py:166-167 | The two quantize steps: a result has exponent -2, a last digit of 0 and at most 28 digits, and dropping that 0 gives the input rounded up to a tenth. There is a result exactly when the input is zero or its rounding up to a tenth has fewer than 28 digits. |
| `PyDecimal.SecondQuantize` | examples/emfcamp.py:167 | Quantizing a one-decimal value to 0.10 raises exactly when its coefficient already has 28 digits. |
| `PyDecimal.WineRoundedAsWritten` | examples/emfcamp.py:165-167 | size / 750.0 and the product with the price, each rounded half-even to 28 digits, then quantized up to 0.1 and half-even to 0.10. There is a price exactly when the 28-digit product is zero or its rounding up to a tenth has fewer than 28 digits. A price is a whole number of tenths at two decimals, the 28-digit product rounded up, and a zero size gives 0.00. |
| `PyDecimal.ZeroSizeRoundsToZero` | examples/emfcamp.py:165-167 | With a size of zero the quotient, the product and both quantize steps are zero, so the rounded price is 0.00. |
| `PyDecimal.WineRoundedValue` | examples/emfcamp.py:165-167 | The value of the rounded price as written is Money.RoundUpTenth of the value of the 28-digit product. The quantize steps add no error. |
| `PyDecimal.WinePriceAsWritten` | examples/emfcamp.py:164-168 | The rounded price plus the extra, the exact sum rounded half-even to 28 digits. None exactly where the rounding raises. A zero extra at two decimals or fewer leaves the rounded price as it is. |
| `PyDecimal.WinePriceValue` | examples/emfcamp.py:164-168 | In values, the price as written is the rounded price plus the extra, within half a unit of its last place, and exactly that when the sum fits in 28 digits. |
| `PyDecimal.WinePriceSteps` | examples/emfcamp.py:164-168 | Once the quotient, the product and both quantize results are known, the rounded price is the last quantize result. |
| `PyDecimal.SmallServingQuotient` | examples/emfcamp.py:165 | Decimal("125.0") / Decimal("750.0") under the default context is 0.1666666666666666666666666667, which is above 125/750. |
| `PyDecimal.EighteenPoundProduct` | examples/emfcamp.py:165 | That quotient times 18.00, rounded to 28 digits, is 3.000000000000000000000000001. |
| `PyDecimal.SmallGlassOfEighteenPoundBottle` | examples/emfcamp.py:164-168 | As written, the Small serving of an 18.00 bottle is priced 3.10, while the exact rule WineGlassPrice gives 3.00. |
| `PyDecimal.NinePoundProduct` | examples/emfcamp.py:165 | That quotient times 9.00, rounded to 28 digits, is exactly 1.5. |
| `PyDecimal.SmallGlassOfNinePoundBottle` | examples/emfcamp.py:164-168 | As written, the Small serving of a 9.00 bottle is priced 1.50, the same as the exact rule. |

A Small serving of a 9.00 bottle costs 1.50: a sixth of 9.00 is 1.5,
already a whole number of tenths, and the 28-digit path gives the same
(`SmallGlassAtNinePounds`, `SmallGlassOfNinePoundBottle`).

## Findings

| source | as written | input that shows it | evidently intended | confidence | as-written member | corrected member |
|---|---|---|---|---|---|---|
| examples/emfcamp.py:165-167 | `self.size / Decimal("750.0")` is rounded to 28 significant digits before it multiplies the price. For the Small serving that gives 0.1666666666666666666666666667, slightly above 1/6. For some bottle prices whose exact serving price is a whole number of tenths, the 28-digit product lands just above it and ROUND_UP then adds a full 10p: 18.00 gives 3.10 and 3.00 gives 0.60. Not every such price is lifted: at 9.00 (and 12.00) the product rounds back to exactly 1.5 (2.0), so 1.50 (2.00) is charged. | Small serving (125.0), extra 0.00, on a wine stock line with price 18.00: charged 3.10 | 3.00: a sixth of 18.00 is exactly 3.00, and rounding up leaves it unchanged | high (the quotient and product are computed in the proof); not executed | `PyDecimal.SmallGlassOfEighteenPoundBottle` (on `PyDecimal.WinePriceAsWritten`; `PyDecimal.SmallGlassOfNinePoundBottle` shows a price that is not lifted) | `Modifiers.WineGlassPrice` (bounds in its contract, `Modifiers.WineGlassPriceIsLeast`) |

The rest of the model uses the corrected, exact price: `WineStockLineRule`
and `Wine.ModStockline` charge `WineGlassPrice`.

## Left out

- Modifier registration and dispatch: the `Wine(...)` calls at lines 183-186
  register into `quicktill.modifiers`, which is not part of this model. The
  four registrations appear only as the constants `Small`, `Medium`,
  `Large` and `WineBottle`. How `SimpleModifier` reacts to a PLU is not
  modelled either.
- The "Free" `PercentageDiscount` (line 220) calls into `quicktill.register`,
  which is not part of this model.
- The receipt-printer app (`qr`, `appsmenu`), the printer and label-printer
  tables, and the `configurations` / `cf` site wiring (lines 224-352) are
  hardware and UI set-up with no pricing behaviour.
- `quicktill/lockscreen.py` (curses pop-ups and database queries) and
  `quicktill/__init__.py` (only `__all__`) are not modelled.
- VAT conversion: `exc_to_inc` of the department's current VAT rate is a
  database-backed collaborator. It is the function parameter `excToInc`.
- `str(stocktype)` comes from the ORM and is taken as the opaque string
  `StockType.display`. The descriptions are modelled as the concatenations
  the f-strings build from it.
- Decimal context precision: outside `PyDecimal`, all arithmetic is exact.
  The source rounds every quotient and product to 28 significant digits.
  That matters for the Wine quotient (see Findings). It also applies to
  `markup`'s division by the unit size, which the model takes as exact.
- Decimal representation: reals carry no exponent, so `100.0` and `100`,
  or `3.1` and `3.10`, are the same value in the model. NaN, infinities and
  negative zero are not modelled.
- PriceGuess.GuessPrice: for a department with a policy, a zero unit size
  makes the source raise (DivisionByZero, or InvalidOperation when
  `cost * markup` is zero as well). The model requires a non-zero size
  for those departments only.
- Modifiers.Case.ModStockline: like Half, Mixer, Carton and Double, it
  requires the sale to carry a stock type. The source reads
  `sale.stocktype` unconditionally and would raise AttributeError without
  one.
- Modifiers.Wine.ModStockline: requires a continuous line to have a stock
  type. The source reads `stockline.stocktype` once the line is continuous.
- Modifiers.Wine.constructor: the price field is one of the four price
  columns (`PluField`). In the source it is any string handed to `getattr`:
  a name that is not an attribute of the PLU raises AttributeError, and a
  non-price attribute would be read and charged as the price. The four
  registered servings name `altprice1`, `altprice2`, `altprice3` and
  `price`, all price columns, so the model leaves both cases out.
- PyDecimal: a `Dec` is a non-negative finite Decimal (a coefficient and an
  exponent), so every operation and value lemma there covers non-negative
  finite operands only. Signs, NaN, infinities, the exponent limits (Emax,
  Etiny) and the signal flags are not modelled.
- PyDecimal.WinePriceAsWritten: models non-negative operands only. Its
  addition is the exact sum rounded to 28 digits. It leaves out CPython's
  special-casing of a zero operand, the exponent limits (Emax, Etiny) and
  the signal flags.
