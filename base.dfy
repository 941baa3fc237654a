/**
 * Order sides and order types (`src/base.rs`), each with one fixed wire string per variant.
 * The parse functions are the inverse tables; their contracts state that each table is a
 * bijection onto its set of wire strings.
 */
module Base {
  import opened Wrappers

  datatype Side = Sell | Buy

  /** The source's `Type`. */
  datatype OrderType = Limit | Market | StopLimit | StopMarket

  /** `Side::to_string`. */
  function SideString(s: Side): (r: string)
    ensures |r| > 0
  {
    match s
    case Sell => "sell"
    case Buy => "buy"
  }

  /** `Type::to_string`. */
  function TypeString(t: OrderType): (r: string)
    ensures |r| > 0
  {
    match t
    case Limit => "limit"
    case Market => "market"
    case StopLimit => "stopLimit"
    case StopMarket => "stopMarket"
  }

  /** The inverse of the side table: exactly the side whose wire string `w` is. */
  function ParseSide(w: string): (r: Option<Side>)
    ensures forall s: Side :: r == Some(s) <==> SideString(s) == w
  {
    if w == "sell" then Some(Sell)
    else if w == "buy" then Some(Buy)
    else None
  }

  /** The inverse of the type table: exactly the type whose wire string `w` is. */
  function ParseType(w: string): (r: Option<OrderType>)
    ensures forall t: OrderType :: r == Some(t) <==> TypeString(t) == w
  {
    if w == "limit" then Some(Limit)
    else if w == "market" then Some(Market)
    else if w == "stopLimit" then Some(StopLimit)
    else if w == "stopMarket" then Some(StopMarket)
    else None
  }

  /** Distinct sides have distinct wire strings. */
  lemma SideInjective(a: Side, b: Side)
    requires SideString(a) == SideString(b)
    ensures a == b
  {
    var r := ParseSide(SideString(a));
    assert r == Some(a) && r == Some(b);
  }

  /** Distinct types have distinct wire strings. */
  lemma TypeInjective(a: OrderType, b: OrderType)
    requires TypeString(a) == TypeString(b)
    ensures a == b
  {
    var r := ParseType(TypeString(a));
    assert r == Some(a) && r == Some(b);
  }
}
