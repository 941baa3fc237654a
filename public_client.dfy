/**
 * The public client (`src/public_client.rs`): three unauthenticated getters that build
 * their URL in place on a clone of the base URL, and the comma-join of a symbol list
 * that appends a comma after every symbol and then pops the last one.
 */
module PublicClient {
  import opened Wrappers
  import opened Errors
  import opened Urls
  import opened Http
  import Decimal
  import Coins
  import Floats
  import Pairs

  const PUBLIC := "public"
  const SYMBOL := "symbol"
  const ORDERBOOK := "orderbook"

  /** The wire strings of a symbol list, in order. */
  function Wires(symbols: seq<Coins.Symbol>): (ws: seq<string>)
    ensures |ws| == |symbols| && forall i | 0 <= i < |ws| :: ws[i] == Coins.SymbolString(symbols[i])
  {
    seq(|symbols|, i requires 0 <= i < |symbols| => Coins.SymbolString(symbols[i]))
  }

  /** The reference join: the strings with one comma between each two. */
  function CommaJoin(ws: seq<string>): string {
    if ws == [] then "" else if |ws| == 1 then ws[0] else ws[0] + "," + CommaJoin(ws[1..])
  }

  /** What the fold builds: each string followed by a comma. */
  function TrailingCommas(ws: seq<string>): string {
    if ws == [] then "" else TrailingCommas(ws[..|ws| - 1]) + ws[|ws| - 1] + ","
  }

  /** The sum of the lengths of the strings. */
  function TotalLength(ws: seq<string>): nat {
    if ws == [] then 0 else |ws[0]| + TotalLength(ws[1..])
  }

  /**
   * The `fold` over `push_str(symbol.to_string())` and `push(',')`, then the `pop` of the
   * last character when the string is not empty; the popped character is always a comma.
   */
  method JoinSymbols(symbols: seq<Coins.Symbol>) returns (joined: string)
    ensures joined == CommaJoin(Wires(symbols))
  {
    var ws := Wires(symbols);
    var accumulator := "";
    var i := 0;
    while i < |symbols|
      invariant 0 <= i <= |symbols|
      invariant accumulator == TrailingCommas(ws[..i])
    {
      var wire := Coins.SymbolString(symbols[i]);
      assert wire == ws[i];
      assert ws[..i + 1][..i] == ws[..i] && ws[..i + 1][i] == ws[i];
      assert TrailingCommas(ws[..i + 1]) == TrailingCommas(ws[..i]) + wire + ",";
      accumulator := accumulator + wire;
      accumulator := accumulator + ",";
      i := i + 1;
    }
    assert ws[..|symbols|] == ws;
    if symbols != [] {
      TrailingIsJoinComma(ws);
    }
    if |accumulator| > 0 {
      var comma := accumulator[|accumulator| - 1];
      accumulator := accumulator[..|accumulator| - 1];
      assert comma == ',';
    }
    joined := accumulator;
  }

  lemma {:induction false} CommaJoinAppend(ws: seq<string>, w: string)
    requires ws != []
    ensures CommaJoin(ws + [w]) == CommaJoin(ws) + "," + w
  {
    if |ws| == 1 {
      assert ws + [w] == [ws[0], w];
      assert [ws[0], w][1..] == [w];
    } else {
      assert (ws + [w])[1..] == ws[1..] + [w];
      CommaJoinAppend(ws[1..], w);
    }
  }

  /** The fold's string is the join with one comma more, so popping that comma gives the join. */
  lemma {:induction false} TrailingIsJoinComma(ws: seq<string>)
    requires ws != []
    ensures TrailingCommas(ws) == CommaJoin(ws) + ","
  {
    var init, w := ws[..|ws| - 1], ws[|ws| - 1];
    if init == [] {
      assert ws == [w];
    } else {
      TrailingIsJoinComma(init);
      CommaJoinAppend(init, w);
      assert init + [w] == ws;
    }
  }

  /** For one or more strings the join is as long as the strings together plus one comma fewer than strings. */
  lemma {:induction false} JoinLength(ws: seq<string>)
    requires ws != []
    ensures |CommaJoin(ws)| == TotalLength(ws) + |ws| - 1
  {
    if |ws| > 1 {
      JoinLength(ws[1..]);
    }
  }

  /** An empty list joins to the empty string. */
  lemma JoinEmpty()
    ensures CommaJoin([]) == "" && TrailingCommas([]) == ""
  {
  }

  predicate NoComma(w: string) { forall j | 0 <= j < |w| :: w[j] != ',' }

  /** The position of the first comma, if any. */
  function FirstComma(s: string): (r: Option<nat>)
    ensures r.Some? ==> r.value < |s| && s[r.value] == ',' && NoComma(s[..r.value])
    ensures r.None? ==> NoComma(s)
  {
    if s == [] then None
    else if s[0] == ',' then Some(0)
    else match FirstComma(s[1..])
      case None => None
      case Some(k) => assert s[..k + 1] == [s[0]] + s[1..][..k]; Some(k + 1)
  }

  /** The partner of the join: cut at every comma. */
  function Split(s: string): (r: seq<string>)
    ensures |r| >= 1
    decreases |s|
  {
    match FirstComma(s)
    case None => [s]
    case Some(k) => [s[..k]] + Split(s[k + 1..])
  }

  /** Splitting the join gives the symbols back when no wire string holds a comma. */
  lemma {:induction false} SplitJoin(ws: seq<string>)
    requires ws != [] && forall i | 0 <= i < |ws| :: NoComma(ws[i])
    ensures Split(CommaJoin(ws)) == ws
  {
    if |ws| == 1 {
      assert FirstComma(ws[0]) == None;
    } else {
      var rest := CommaJoin(ws[1..]);
      assert CommaJoin(ws) == ws[0] + ("," + rest);
      SplitCons(ws[0], rest);
      SplitJoin(ws[1..]);
      assert [ws[0]] + ws[1..] == ws;
    }
  }

  /** A comma-free word followed by a comma splits off as the first piece. */
  lemma SplitCons(w: string, rest: string)
    requires NoComma(w)
    ensures Split(w + ("," + rest)) == [w] + Split(rest)
  {
    var s := w + ("," + rest);
    FirstCommaAfter(w, rest);
    assert s[..|w|] == w;
    assert s[|w| + 1..] == rest;
  }

  lemma {:induction false} FirstCommaAfter(w: string, rest: string)
    requires NoComma(w)
    ensures FirstComma(w + ("," + rest)) == Some(|w|)
  {
    if w != [] {
      assert (w + ("," + rest))[1..] == w[1..] + ("," + rest);
      FirstCommaAfter(w[1..], rest);
    }
  }

  /**
   * With a limit of 10 and the list [BTC/USDT, TON/USDT], `get_orderbook` appends
   * `limit=10` and then `symbols=BTCUSDT20,TONUSDT20`: the limit first, and the USDT code
   * as the coin table prints it.
   */
  lemma OrderbookQueryExample()
    ensures var symbols := [Coins.Symbol(Coins.BTC, Coins.USDT), Coins.Symbol(Coins.TON, Coins.USDT)];
      [("limit", Decimal.NatToString(10)), ("symbols", CommaJoin(Wires(symbols)))] ==
      [("limit", "10"), ("symbols", "BTCUSDT20,TONUSDT20")]
  {
    WiresExample();
    JoinExample();
    TenExample();
  }

  lemma WiresExample()
    ensures Wires([Coins.Symbol(Coins.BTC, Coins.USDT), Coins.Symbol(Coins.TON, Coins.USDT)]) == ["BTCUSDT20", "TONUSDT20"]
  {
    var ws := Wires([Coins.Symbol(Coins.BTC, Coins.USDT), Coins.Symbol(Coins.TON, Coins.USDT)]);
    assert ws[0] == "BTC" + "USDT20" && ws[1] == "TON" + "USDT20";
    assert "BTC" + "USDT20" == "BTCUSDT20" && "TON" + "USDT20" == "TONUSDT20";
  }

  lemma JoinExample()
    ensures CommaJoin(["BTCUSDT20", "TONUSDT20"]) == "BTCUSDT20,TONUSDT20"
  {
    var ws := ["BTCUSDT20", "TONUSDT20"];
    assert ws[1..] == ["TONUSDT20"];
  }

  lemma TenExample()
    ensures Decimal.NatToString(10) == "10"
  {
    assert Decimal.NatToString(10) == Decimal.NatToString(1) + [Decimal.DigitChar(0)];
  }

  /** The request every public getter sends: GET, `Accept` only, empty body. */
  lemma BuildPublic(url: UrlValue)
    ensures Build(Get, url, [ACCEPT_JSON], []) == Success(Request(Get, url, [ACCEPT_JSON], []))
  {
    PrintableIsHeaderValue(ACCEPT_JSON.1);
  }

  /** `get_all_symbols` up to the send: push `public` then `symbol`. */
  method GetAllSymbols(base: UrlValue) returns (r: Result<Request, Error>)
    ensures r.Success? <==> base.path.Segments?
    ensures base.path.Opaque? ==> r == Failure(BadUrl)
    ensures r.Success? ==> r.value == Request(Get, WithSegments(base, [PUBLIC, SYMBOL]), [ACCEPT_JSON], [])
    ensures r.Success? ==> Pairs.Lookup(r.value.headers, "Authorization") == None
  {
    var url := new Url(base);
    if url.CannotBeABase() {
      return Failure(BadUrl);
    }
    url.Push(PUBLIC);
    url.Push(SYMBOL);
    assert url.Value() == WithSegments(base, [PUBLIC, SYMBOL]) by {
      var ss := base.path.segments;
      assert PushedAll(ss, [PUBLIC, SYMBOL]) == PushedAll(PushedSegments(ss, PUBLIC), [SYMBOL]);
      assert PushedAll(PushedSegments(ss, PUBLIC), [SYMBOL]) == PushedSegments(PushedSegments(ss, PUBLIC), SYMBOL);
    }
    BuildPublic(url.Value());
    r := Build(Get, url.Value(), [ACCEPT_JSON], []);
  }

  /**
   * `get_orderbook` up to the send: push `public` then `orderbook`, then a `limit` pair
   * exactly when a limit is given, then a `symbols` pair exactly when a list is given.
   */
  method GetOrderbook(base: UrlValue, limit: Option<Decimal.u64>, symbols: Option<seq<Coins.Symbol>>)
    returns (r: Result<Request, Error>)
    ensures r.Success? <==> base.path.Segments?
    ensures base.path.Opaque? ==> r == Failure(BadUrl)
    ensures r.Success? ==> r.value.httpMethod == Get && r.value.headers == [ACCEPT_JSON] && r.value.body == []
    ensures r.Success? ==> r.value.url.origin == base.origin && r.value.url.path == WithSegments(base, [PUBLIC, ORDERBOOK]).path
    ensures r.Success? ==>
      r.value.url.query == base.query
        + (if limit.Some? then [("limit", Decimal.NatToString(limit.value))] else [])
        + (if symbols.Some? then [("symbols", CommaJoin(Wires(symbols.value)))] else [])
  {
    var url := new Url(base);
    if url.CannotBeABase() {
      return Failure(BadUrl);
    }
    url.Push(PUBLIC);
    url.Push(ORDERBOOK);
    assert url.path == WithSegments(base, [PUBLIC, ORDERBOOK]).path by {
      var ss := base.path.segments;
      assert PushedAll(ss, [PUBLIC, ORDERBOOK]) == PushedAll(PushedSegments(ss, PUBLIC), [ORDERBOOK]);
      assert PushedAll(PushedSegments(ss, PUBLIC), [ORDERBOOK]) == PushedSegments(PushedSegments(ss, PUBLIC), ORDERBOOK);
    }
    if limit.Some? {
      url.AppendPair("limit", Decimal.NatToString(limit.value));
    }
    if symbols.Some? {
      var joined := JoinSymbols(symbols.value);
      url.AppendPair("symbols", joined);
    }
    BuildPublic(url.Value());
    r := Build(Get, url.Value(), [ACCEPT_JSON], []);
  }

  /**
   * `get_symbol_from_orderbook` up to the send: push `public`, `orderbook` and the symbol's
   * wire string, then a `volume` pair when a volume is given, else a `limit` pair when a
   * limit is given: never both.
   */
  method GetSymbolFromOrderbook(base: UrlValue, symbol: Coins.Symbol, limit: Option<Decimal.u64>,
                                volume: Option<Floats.F64>, format: Floats.Format)
    returns (r: Result<Request, Error>)
    ensures r.Success? <==> base.path.Segments?
    ensures base.path.Opaque? ==> r == Failure(BadUrl)
    ensures r.Success? ==> r.value.httpMethod == Get && r.value.headers == [ACCEPT_JSON] && r.value.body == []
    ensures r.Success? ==>
      r.value.url.origin == base.origin &&
      r.value.url.path == WithSegments(base, [PUBLIC, ORDERBOOK, Coins.SymbolString(symbol)]).path
    ensures r.Success? ==>
      r.value.url.query == base.query
        + (if volume.Some? then [("volume", format(volume.value))]
           else if limit.Some? then [("limit", Decimal.NatToString(limit.value))]
           else [])
    ensures r.Success? ==> |r.value.url.query| <= |base.query| + 1
  {
    var url := new Url(base);
    if url.CannotBeABase() {
      return Failure(BadUrl);
    }
    var wire := Coins.SymbolString(symbol);
    url.Push(PUBLIC);
    url.Push(ORDERBOOK);
    url.Push(wire);
    assert url.path == WithSegments(base, [PUBLIC, ORDERBOOK, wire]).path by {
      var ss := base.path.segments;
      var once := PushedSegments(ss, PUBLIC);
      var twice := PushedSegments(once, ORDERBOOK);
      assert PushedAll(ss, [PUBLIC, ORDERBOOK, wire]) == PushedAll(once, [ORDERBOOK, wire]);
      assert PushedAll(once, [ORDERBOOK, wire]) == PushedAll(twice, [wire]);
      assert PushedAll(twice, [wire]) == PushedSegments(twice, wire);
    }
    if volume.Some? {
      url.AppendPair("volume", format(volume.value));
    } else if limit.Some? {
      url.AppendPair("limit", Decimal.NatToString(limit.value));
    }
    BuildPublic(url.Value());
    r := Build(Get, url.Value(), [ACCEPT_JSON], []);
  }
}
