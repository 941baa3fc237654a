/**
 * The wire models and the typed views (`src/models.rs`): the conversions from wire strings
 * to numbers, the order-book page selector, the typed order builders' `to_model`, and the
 * field set `serde` writes for `CreateOrder`. Every `f64::from_str(..).unwrap()` is a
 * parse that fails with `FloatParse` instead of panicking.
 */
module Models {
  import opened Wrappers
  import opened Errors
  import opened Floats
  import Coins
  import Base
  import opened Pairs

  /** `models::AccountCurrency`. */
  datatype AccountCurrency = AccountCurrency(currency: string, available: string, reserved: string)

  /** `models::typed::Currency`. */
  datatype Currency = Currency(currency: string, available: F64, reserved: F64)

  /** `models::Price`, as the exchange sends it. */
  datatype PriceModel = PriceModel(price: string, size: string)

  /** `models::typed::Price`. */
  datatype Price = Price(amount: F64, rate: F64)

  /** `models::OrderBookPage`. */
  datatype OrderBookPageModel = OrderBookPageModel(symbol: string, ask: seq<PriceModel>, bid: seq<PriceModel>, timestamp: string)

  /** `models::typed::OrderBookPage`. */
  datatype OrderBookPage = OrderBookPage(symbol: Coins.Symbol, prices: seq<Price>)

  /** `f64::from_str(text).unwrap()`. */
  function ParseF64(parse: Parse, text: string): (r: Result<F64, Error>)
    ensures r.Success? <==> parse(text).Some?
    ensures r.Success? ==> r.value == parse(text).value
    ensures r.Failure? ==> r.error == FloatParse(text)
  {
    match parse(text)
    case Some(x) => Success(x)
    case None => Failure(FloatParse(text))
  }

  /** `From<AccountCurrency> for Currency`: the name kept, `available` then `reserved` parsed. */
  function CurrencyFrom(a: AccountCurrency, parse: Parse): (r: Result<Currency, Error>)
    ensures r.Success? <==> parse(a.available).Some? && parse(a.reserved).Some?
    ensures r.Success? ==>
      r.value == Currency(a.currency, parse(a.available).value, parse(a.reserved).value)
    ensures r.Failure? ==>
      r.error == FloatParse(if parse(a.available).None? then a.available else a.reserved)
  {
    match ParseF64(parse, a.available)
    case Failure(e) => Failure(e)
    case Success(available) =>
      match ParseF64(parse, a.reserved)
      case Failure(e) => Failure(e)
      case Success(reserved) => Success(Currency(a.currency, available, reserved))
  }

  /** `From<&Price> for typed::Price`: the amount from `size` (parsed first), the rate from `price`. */
  function PriceFrom(p: PriceModel, parse: Parse): (r: Result<Price, Error>)
    ensures r.Success? <==> parse(p.size).Some? && parse(p.price).Some?
    ensures r.Success? ==> r.value == Price(parse(p.size).value, parse(p.price).value)
    ensures r.Failure? ==> r.error == FloatParse(if parse(p.size).None? then p.size else p.price)
  {
    match ParseF64(parse, p.size)
    case Failure(e) => Failure(e)
    case Success(amount) =>
      match ParseF64(parse, p.price)
      case Failure(e) => Failure(e)
      case Success(rate) => Success(Price(amount, rate))
  }

  /** `iter().map(Price::from).collect()`: every entry converted, in order, or the first failure. */
  function ConvertPrices(ps: seq<PriceModel>, parse: Parse): (r: Result<seq<Price>, Error>)
    ensures r.Success? <==> forall i | 0 <= i < |ps| :: PriceFrom(ps[i], parse).Success?
    ensures r.Success? ==>
      |r.value| == |ps| && forall i | 0 <= i < |ps| :: r.value[i] == PriceFrom(ps[i], parse).value
    ensures r.Failure? ==> exists i | 0 <= i < |ps| ::
      PriceFrom(ps[i], parse) == Failure(r.error) && forall j | 0 <= j < i :: PriceFrom(ps[j], parse).Success?
  {
    if ps == [] then Success([])
    else match PriceFrom(ps[0], parse)
      case Failure(e) => Failure(e)
      case Success(first) =>
        match ConvertPrices(ps[1..], parse)
        case Failure(e) => FailureAfterHead(ps, parse, e); Failure(e)
        case Success(rest) => SuccessCons(ps, parse, first, rest); Success([first] + rest)
  }

  /** A first failure in the tail, after a head that converts, is a first failure of the whole list. */
  lemma FailureAfterHead(ps: seq<PriceModel>, parse: Parse, e: Error)
    requires ps != [] && PriceFrom(ps[0], parse).Success?
    requires exists i | 0 <= i < |ps[1..]| ::
      PriceFrom(ps[1..][i], parse) == Failure(e) && forall j | 0 <= j < i :: PriceFrom(ps[1..][j], parse).Success?
    ensures exists i | 0 <= i < |ps| ::
      PriceFrom(ps[i], parse) == Failure(e) && forall j | 0 <= j < i :: PriceFrom(ps[j], parse).Success?
  {
    var i :| 0 <= i < |ps[1..]| &&
      PriceFrom(ps[1..][i], parse) == Failure(e) && forall j | 0 <= j < i :: PriceFrom(ps[1..][j], parse).Success?;
    assert PriceFrom(ps[i + 1], parse) == Failure(e);
    forall j | 0 <= j < i + 1 ensures PriceFrom(ps[j], parse).Success? {
      if j > 0 { assert ps[j] == ps[1..][j - 1]; }
    }
  }

  /** A converted head in front of a converted tail is the conversion of the whole list. */
  lemma SuccessCons(ps: seq<PriceModel>, parse: Parse, first: Price, rest: seq<Price>)
    requires ps != [] && PriceFrom(ps[0], parse) == Success(first)
    requires forall i | 0 <= i < |ps[1..]| :: PriceFrom(ps[1..][i], parse).Success?
    requires |rest| == |ps[1..]| && forall i | 0 <= i < |ps[1..]| :: rest[i] == PriceFrom(ps[1..][i], parse).value
    ensures forall i | 0 <= i < |ps| :: PriceFrom(ps[i], parse).Success?
    ensures |[first] + rest| == |ps| && forall i | 0 <= i < |ps| :: ([first] + rest)[i] == PriceFrom(ps[i], parse).value
  {
    forall i | 0 <= i < |ps|
      ensures PriceFrom(ps[i], parse).Success? && ([first] + rest)[i] == PriceFrom(ps[i], parse).value
    {
      if i > 0 { assert ps[i] == ps[1..][i - 1]; }
    }
  }

  /** The list a side reads from: the bids for a buyer, the asks for a seller. */
  function Selected(page: OrderBookPageModel, side: Base.Side): (r: seq<PriceModel>)
    ensures side == Base.Buy ==> r == page.bid
    ensures side == Base.Sell ==> r == page.ask
  {
    match side
    case Buy => page.bid
    case Sell => page.ask
  }

  /**
   * `typed::OrderBookPage::new`: look the symbol's wire string up in the book; absent is `None`,
   * present converts the side's list.
   */
  function NewOrderBookPage(symbol: Coins.Symbol, side: Base.Side, orderbook: map<string, OrderBookPageModel>, parse: Parse)
    : (r: Result<Option<OrderBookPage>, Error>)
    ensures Coins.SymbolString(symbol) !in orderbook ==> r == Success(None)
    ensures r == Success(None) ==> Coins.SymbolString(symbol) !in orderbook
    ensures r.Success? && r.value.Some? ==>
      var prices := Selected(orderbook[Coins.SymbolString(symbol)], side);
      r.value.value.symbol == symbol &&
      |r.value.value.prices| == |prices| &&
      forall i | 0 <= i < |prices| ::
        parse(prices[i].size).Some? && parse(prices[i].price).Some? &&
        r.value.value.prices[i] == Price(parse(prices[i].size).value, parse(prices[i].price).value)
    ensures r.Failure? ==>
      Coins.SymbolString(symbol) in orderbook &&
      exists i | 0 <= i < |Selected(orderbook[Coins.SymbolString(symbol)], side)| ::
        PriceFrom(Selected(orderbook[Coins.SymbolString(symbol)], side)[i], parse) == Failure(r.error)
  {
    var key := Coins.SymbolString(symbol);
    if key !in orderbook then Success(None)
    else match ConvertPrices(Selected(orderbook[key], side), parse)
      case Failure(e) => Failure(e)
      case Success(prices) => Success(Some(OrderBookPage(symbol, prices)))
  }

  /** `models::CreateMarketOrder`, the wire form. */
  datatype CreateMarketOrderModel = CreateMarketOrderModel(symbol: string, side: string, quantity: string, orderType: string)

  /** `models::CreateLimitOrder`, the wire form. */
  datatype CreateLimitOrderModel = CreateLimitOrderModel(symbol: string, side: string, quantity: string, price: string)

  /** `typed::CreateMarketOrder`; its constructor is `new`. */
  datatype CreateMarketOrder = CreateMarketOrder(symbol: Coins.Symbol, side: Base.Side, quantity: F64)

  /** `typed::CreateLimitOrder`; its constructor is `new`. */
  datatype CreateLimitOrder = CreateLimitOrder(symbol: Coins.Symbol, side: Base.Side, quantity: F64, price: F64)

  /** `CreateMarketOrder::to_model`: wire symbol, wire side, formatted quantity and the type `market`. */
  function MarketToModel(o: CreateMarketOrder, format: Format): (r: CreateMarketOrderModel)
    ensures r.symbol == Coins.SymbolString(o.symbol) && r.quantity == format(o.quantity)
    ensures Base.ParseSide(r.side) == Some(o.side)
    ensures Base.ParseType(r.orderType) == Some(Base.Market)
  {
    CreateMarketOrderModel(Coins.SymbolString(o.symbol), Base.SideString(o.side), format(o.quantity), Base.TypeString(Base.Market))
  }

  /** `CreateLimitOrder::to_model`: wire symbol, wire side, and one formatter for quantity and price. */
  function LimitToModel(o: CreateLimitOrder, format: Format): (r: CreateLimitOrderModel)
    ensures r.symbol == Coins.SymbolString(o.symbol)
    ensures Base.ParseSide(r.side) == Some(o.side)
    ensures r.quantity == format(o.quantity) && r.price == format(o.price)
    ensures o.quantity == o.price ==> r.quantity == r.price
  {
    CreateLimitOrderModel(Coins.SymbolString(o.symbol), Base.SideString(o.side), format(o.quantity), format(o.price))
  }

  /**
   * The model gives back the symbol and the side of a market order with canonical coins, once
   * the length of the left code is known, and the printed quantity; not the quantity itself,
   * for the formatter need not be injective (every NaN prints alike).
   */
  lemma MarketToModelRecovers(a: CreateMarketOrder, b: CreateMarketOrder, format: Format)
    requires Coins.IsCanonical(a.symbol.left) && Coins.IsCanonical(a.symbol.right)
    requires Coins.IsCanonical(b.symbol.left) && Coins.IsCanonical(b.symbol.right)
    requires |Coins.CoinString(a.symbol.left)| == |Coins.CoinString(b.symbol.left)|
    requires MarketToModel(a, format) == MarketToModel(b, format)
    ensures a.symbol == b.symbol && a.side == b.side && format(a.quantity) == format(b.quantity)
  {
    Coins.SplitAtBoundary(a.symbol);
    Coins.SplitAtBoundary(b.symbol);
    Base.SideInjective(a.side, b.side);
  }

  /** A value of the serialised JSON object: a string or a boolean. */
  datatype Json = Str(s: string) | Bool(b: bool)

  /** `models::CreateOrder`. */
  datatype CreateOrder = CreateOrder(
    clientOrderId: Option<string>,
    symbol: string,
    side: string,
    orderType: Option<string>,
    timeInForce: Option<string>,
    quantity: string,
    price: Option<string>,
    stopPrice: Option<string>,
    expireTime: Option<string>,
    strictValidate: string,
    postOnly: bool)

  function OptionalStr(v: Option<string>): Option<Json> {
    match v
    case None => None
    case Some(s) => Some(Str(s))
  }

  /** Every field under its serde name, in declaration order; `None` for a field that is skipped. */
  function DeclaredFields(o: CreateOrder): seq<(string, Option<Json>)> {
    [ ("clientOrderId", OptionalStr(o.clientOrderId)),
      ("symbol", Some(Str(o.symbol))),
      ("side", Some(Str(o.side))),
      ("type", OptionalStr(o.orderType)),
      ("timeInForce", OptionalStr(o.timeInForce)),
      ("quantity", Some(Str(o.quantity))),
      ("price", OptionalStr(o.price)),
      ("stopPrice", OptionalStr(o.stopPrice)),
      ("expireTime", OptionalStr(o.expireTime)),
      ("strictValidate", Some(Str(o.strictValidate))),
      ("postOnly", Some(Bool(o.postOnly))) ]
  }

  /** The fields `serde` writes: the declared ones, a `skip_serializing_if = "Option::is_none"` field only when set. */
  function Present(fs: seq<(string, Option<Json>)>): seq<(string, Json)> {
    if fs == [] then []
    else (if fs[0].1.Some? then [(fs[0].0, fs[0].1.value)] else []) + Present(fs[1..])
  }

  predicate DistinctKeys<V>(fs: seq<(string, V)>) {
    forall i, j | 0 <= i < j < |fs| :: fs[i].0 != fs[j].0
  }

  /** Dropping the skipped fields keeps the keys of the others and no more. */
  lemma {:induction false} PresentKeys(fs: seq<(string, Option<Json>)>, key: string)
    ensures (exists i | 0 <= i < |Present(fs)| :: Present(fs)[i].0 == key) <==>
            (exists i | 0 <= i < |fs| :: fs[i].0 == key && fs[i].1.Some?)
  {
    if fs != [] {
      PresentKeys(fs[1..], key);
      var head := if fs[0].1.Some? then [(fs[0].0, fs[0].1.value)] else [];
      assert Present(fs) == head + Present(fs[1..]);
      if exists i | 0 <= i < |fs| :: fs[i].0 == key && fs[i].1.Some? {
        var i :| 0 <= i < |fs| && fs[i].0 == key && fs[i].1.Some?;
        if i > 0 {
          assert fs[1..][i - 1] == fs[i];
          var k :| 0 <= k < |Present(fs[1..])| && Present(fs[1..])[k].0 == key;
          assert Present(fs)[|head| + k] == Present(fs[1..])[k];
        } else {
          assert Present(fs)[0].0 == key;
        }
      }
      if exists i | 0 <= i < |Present(fs)| :: Present(fs)[i].0 == key {
        var i :| 0 <= i < |Present(fs)| && Present(fs)[i].0 == key;
        if i >= |head| {
          assert Present(fs[1..])[i - |head|].0 == key;
          var k :| 0 <= k < |fs[1..]| && fs[1..][k].0 == key && fs[1..][k].1.Some?;
          assert fs[k + 1] == fs[1..][k];
        } else {
          assert fs[0].0 == key && fs[0].1.Some?;
        }
      }
    }
  }

  /** With distinct keys, looking a declared key up in the written object gives its value, or nothing when skipped. */
  lemma {:induction false} LookupPresent(fs: seq<(string, Option<Json>)>, k: nat)
    requires DistinctKeys(fs) && k < |fs|
    ensures Lookup(Present(fs), fs[k].0) == fs[k].1
  {
    var head := if fs[0].1.Some? then [(fs[0].0, fs[0].1.value)] else [];
    assert Present(fs) == head + Present(fs[1..]);
    assert DistinctKeys(fs[1..]) by {
      forall i, j | 0 <= i < j < |fs[1..]| ensures fs[1..][i].0 != fs[1..][j].0 {
        assert fs[1..][i] == fs[i + 1] && fs[1..][j] == fs[j + 1];
      }
    }
    if k == 0 {
      if fs[0].1.None? {
        PresentKeys(fs[1..], fs[0].0);
        assert forall i | 0 <= i < |fs[1..]| :: fs[1..][i].0 != fs[0].0 by {
          forall i | 0 <= i < |fs[1..]| ensures fs[1..][i].0 != fs[0].0 {
            assert fs[1..][i] == fs[i + 1];
          }
        }
      }
    } else {
      LookupPresent(fs[1..], k - 1);
      assert fs[1..][k - 1] == fs[k];
      assert fs[0].0 != fs[k].0;
      if head == [] {
        assert Present(fs) == Present(fs[1..]);
      } else {
        assert Present(fs)[0].0 == fs[0].0;
        assert Present(fs)[1..] == Present(fs[1..]);
      }
    }
  }

  /** The object `serde_json` writes for a `CreateOrder`. */
  function CreateOrderFields(o: CreateOrder): seq<(string, Json)> {
    Present(DeclaredFields(o))
  }

  /**
   * The written object has distinct keys, all of them serde names of `CreateOrder`; every
   * required field is there with its value, every optional one exactly when it is set.
   */
  lemma CreateOrderFacts(o: CreateOrder)
    ensures var r := CreateOrderFields(o);
      DistinctKeys(r) &&
      Lookup(r, "clientOrderId") == OptionalStr(o.clientOrderId) &&
      Lookup(r, "symbol") == Some(Str(o.symbol)) &&
      Lookup(r, "side") == Some(Str(o.side)) &&
      Lookup(r, "type") == OptionalStr(o.orderType) &&
      Lookup(r, "timeInForce") == OptionalStr(o.timeInForce) &&
      Lookup(r, "quantity") == Some(Str(o.quantity)) &&
      Lookup(r, "price") == OptionalStr(o.price) &&
      Lookup(r, "stopPrice") == OptionalStr(o.stopPrice) &&
      Lookup(r, "expireTime") == OptionalStr(o.expireTime) &&
      Lookup(r, "strictValidate") == Some(Str(o.strictValidate)) &&
      Lookup(r, "postOnly") == Some(Bool(o.postOnly)) &&
      forall i | 0 <= i < |r| :: exists k | 0 <= k < |DeclaredFields(o)| :: DeclaredFields(o)[k].0 == r[i].0
  {
    var fs := DeclaredFields(o);
    DeclaredDistinct(o);
    PresentDistinct(fs);
    RequiredLookups(o);
    OptionalLookups(o);
    WrittenDeclared(fs);
  }

  /** Every written key is a declared one. */
  lemma WrittenDeclared(fs: seq<(string, Option<Json>)>)
    ensures forall i | 0 <= i < |Present(fs)| :: exists k | 0 <= k < |fs| :: fs[k].0 == Present(fs)[i].0
  {
    var r := Present(fs);
    forall i | 0 <= i < |r| ensures exists k | 0 <= k < |fs| :: fs[k].0 == r[i].0 {
      PresentKeys(fs, r[i].0);
    }
  }

  /** The serde names of `CreateOrder` are pairwise different. */
  lemma DeclaredDistinct(o: CreateOrder)
    ensures DistinctKeys(DeclaredFields(o))
  {
  }

  lemma RequiredLookups(o: CreateOrder)
    ensures var r := Present(DeclaredFields(o));
      Lookup(r, "symbol") == Some(Str(o.symbol)) &&
      Lookup(r, "side") == Some(Str(o.side)) &&
      Lookup(r, "quantity") == Some(Str(o.quantity)) &&
      Lookup(r, "strictValidate") == Some(Str(o.strictValidate)) &&
      Lookup(r, "postOnly") == Some(Bool(o.postOnly))
  {
    var fs := DeclaredFields(o);
    DeclaredDistinct(o);
    LookupPresent(fs, 1);
    LookupPresent(fs, 2);
    LookupPresent(fs, 5);
    LookupPresent(fs, 9);
    LookupPresent(fs, 10);
  }

  lemma OptionalLookups(o: CreateOrder)
    ensures var r := Present(DeclaredFields(o));
      Lookup(r, "clientOrderId") == OptionalStr(o.clientOrderId) &&
      Lookup(r, "type") == OptionalStr(o.orderType) &&
      Lookup(r, "timeInForce") == OptionalStr(o.timeInForce) &&
      Lookup(r, "price") == OptionalStr(o.price) &&
      Lookup(r, "stopPrice") == OptionalStr(o.stopPrice) &&
      Lookup(r, "expireTime") == OptionalStr(o.expireTime)
  {
    var fs := DeclaredFields(o);
    DeclaredDistinct(o);
    LookupPresent(fs, 0);
    LookupPresent(fs, 3);
    LookupPresent(fs, 4);
    LookupPresent(fs, 6);
    LookupPresent(fs, 7);
    LookupPresent(fs, 8);
  }

  /** The written keys are distinct when the declared ones are. */
  lemma {:induction false} PresentDistinct(fs: seq<(string, Option<Json>)>)
    requires DistinctKeys(fs)
    ensures DistinctKeys(Present(fs))
  {
    if fs != [] {
      assert DistinctKeys(fs[1..]) by {
        forall i, j | 0 <= i < j < |fs[1..]| ensures fs[1..][i].0 != fs[1..][j].0 {
          assert fs[1..][i] == fs[i + 1] && fs[1..][j] == fs[j + 1];
        }
      }
      PresentDistinct(fs[1..]);
      if fs[0].1.Some? {
        var rest := Present(fs[1..]);
        assert Present(fs) == [(fs[0].0, fs[0].1.value)] + rest;
        forall j | 0 <= j < |rest| ensures rest[j].0 != fs[0].0 {
          PresentKeys(fs[1..], rest[j].0);
          var k :| 0 <= k < |fs[1..]| && fs[1..][k].0 == rest[j].0 && fs[1..][k].1.Some?;
          assert fs[k + 1] == fs[1..][k];
        }
      }
    }
  }
}
