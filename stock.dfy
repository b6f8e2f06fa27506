/** An optional value: a nullable database column or a Python None. */
module Options {
  datatype Option<T> = None | Some(value: T)
}

/** The stock records a modifier inspects. They are read, never changed,
    by the pricing rules. */
module Stock {
  import opened Options

  /** A container measure: "pint", "ml", "25ml", ... and how many base
      units (millilitres for "ml") make one sale unit. */
  datatype StockUnit = StockUnit(name: string, baseUnitsPerSaleUnit: int)

  /** A kind of stock. `display` is the text str(stocktype) produces; the
      till builds it elsewhere, so here it is an opaque string. */
  datatype StockType = StockType(
    manufacturer: string,
    name: string,
    deptId: int,
    unit: StockUnit,
    display: string)

  /** A till key's stock line: its kind ("continuous", "regular", ...) and,
      for continuous lines, the stock type it sells. */
  datatype StockLine = StockLine(linetype: string, stocktype: Option<StockType>)

  /** The price columns of a price lookup that a modifier may name. */
  datatype PluField = Price | AltPrice1 | AltPrice2 | AltPrice3

  /** A price lookup (PLU): a priced item that is not a stock line. Each
      price column may be unset. */
  datatype Plu = Plu(
    deptId: int,
    description: string,
    price: Option<real>,
    altprice1: Option<real>,
    altprice2: Option<real>,
    altprice3: Option<real>)

  /** The attribute name of a price column, as a modifier's `field` holds it. */
  function FieldName(f: PluField): string {
    match f
    case Price => "price"
    case AltPrice1 => "altprice1"
    case AltPrice2 => "altprice2"
    case AltPrice3 => "altprice3"
  }

  /** Different price columns have different attribute names, so a name
      picks out one column. */
  lemma {:induction false} FieldNameInjective(f: PluField, g: PluField)
    ensures FieldName(f) == FieldName(g) <==> f == g
  {
  }

  /** getattr(plu, field): the value of the price column whose attribute
      name the modifier holds. */
  function FieldValue(plu: Plu, f: PluField): (r: Option<real>)
    ensures FieldName(f) == "price" ==> r == plu.price
    ensures FieldName(f) == "altprice1" ==> r == plu.altprice1
    ensures FieldName(f) == "altprice2" ==> r == plu.altprice2
    ensures FieldName(f) == "altprice3" ==> r == plu.altprice3
  {
    match f
    case Price => plu.price
    case AltPrice1 => plu.altprice1
    case AltPrice2 => plu.altprice2
    case AltPrice3 => plu.altprice3
  }
}

/** The proposed sale a modifier rewrites in place. */
module Sales {
  import opened Options
  import opened Stock

  /** The three fields of a sale that a modifier may change. */
  datatype SaleState = SaleState(qty: real, price: Option<real>, description: string)

  /** Python truthiness of `sale.price`: an unset price and a zero price
      are both false, so no price arithmetic is done on them. */
  predicate Truthy(p: Option<real>) {
    p.Some? && p.value != 0.0
  }

  /** A proposed sale. Its stock type is fixed when the sale is built (none
      for a price-lookup sale); quantity, price and description are what
      modifiers rewrite. */
  class Sale {
    var qty: real
    var price: Option<real>
    var description: string
    const stocktype: Option<StockType>

    constructor (stocktype: Option<StockType>, qty: real, price: Option<real>, description: string)
      ensures this.stocktype == stocktype
      ensures State() == SaleState(qty, price, description)
    {
      this.stocktype := stocktype;
      this.qty := qty;
      this.price := price;
      this.description := description;
    }

    /** The modifiable part of the sale, as a value. */
    function State(): SaleState
      reads this
    {
      SaleState(qty, price, description)
    }
  }
}
