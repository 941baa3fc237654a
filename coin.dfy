/**
 * Coins and trading pairs (`src/coin.rs`). A coin prints through a fixed table with an
 * `Unknown` pass-through; a symbol is an ordered pair of coins whose wire form is the two
 * codes concatenated with no delimiter.
 */
module Coins {

  datatype Coin = TON | BTC | USDT | Unknown(name: string)

  /** `Symbol::new(left, right)` is the constructor. */
  datatype Symbol = Symbol(left: Coin, right: Coin)

  /** The codes the table knows by name. */
  predicate IsKnownCode(s: string) { s == "TON" || s == "BTC" || s == "USDT20" }

  /** A coin the table can give back from its own code: not an `Unknown` that shadows a known code. */
  predicate IsCanonical(c: Coin) { !(c.Unknown? && IsKnownCode(c.name)) }

  /** `Coin::to_string`. */
  function CoinString(c: Coin): (r: string)
    ensures !c.Unknown? ==> IsKnownCode(r)
    ensures c.Unknown? ==> r == c.name
  {
    match c
    case TON => "TON"
    case BTC => "BTC"
    case USDT => "USDT20"
    case Unknown(name) => name
  }

  /** `From<&str> for Coin`: the known codes by name, everything else passed through as `Unknown`. */
  function ParseCoin(s: string): (c: Coin)
    ensures CoinString(c) == s
    ensures c.Unknown? <==> !IsKnownCode(s)
    ensures IsCanonical(c)
  {
    match s
    case "TON" => TON
    case "BTC" => BTC
    case "USDT20" => USDT
    case other => Unknown(other)
  }

  /** Parsing undoes printing exactly for the canonical coins. */
  lemma ParsePrint(c: Coin)
    ensures ParseCoin(CoinString(c)) == c <==> IsCanonical(c)
  {
  }

  /** `"USDT"` is not the wire code of `USDT`: it parses to an unknown coin that prints as `"USDT"`. */
  lemma BareUsdtIsUnknown()
    ensures ParseCoin("USDT") == Unknown("USDT")
    ensures CoinString(USDT) == "USDT20" && CoinString(ParseCoin("USDT")) != CoinString(USDT)
  {
  }

  /** `Symbol::reversed`: the same two coins, the other way round. */
  function Reversed(s: Symbol): (r: Symbol)
    ensures r.left == s.right && r.right == s.left
  {
    Symbol(s.right, s.left)
  }

  /** `Symbol::to_string`: the left code, then the right code, with no delimiter. */
  function SymbolString(s: Symbol): (r: string)
    ensures |r| == |CoinString(s.left)| + |CoinString(s.right)|
    ensures r[..|CoinString(s.left)|] == CoinString(s.left)
    ensures r[|CoinString(s.left)|..] == CoinString(s.right)
  {
    CoinString(s.left) + CoinString(s.right)
  }

  /** Reversing is an involution, and a pair of distinct coins is a different symbol from its reverse. */
  lemma ReversedTwice(s: Symbol)
    ensures Reversed(Reversed(s)) == s
    ensures Reversed(s) == s <==> s.left == s.right
  {
  }

  /** The reversed symbol prints the right code first. */
  lemma ReversedString(s: Symbol)
    ensures SymbolString(Reversed(s)) == CoinString(s.right) + CoinString(s.left)
  {
  }

  /** Knowing where the left code ends recovers both coins of a canonical symbol from its wire form. */
  lemma SplitAtBoundary(s: Symbol)
    requires IsCanonical(s.left) && IsCanonical(s.right)
    ensures var w, k := SymbolString(s), |CoinString(s.left)|;
      Symbol(ParseCoin(w[..k]), ParseCoin(w[k..])) == s
  {
    ParsePrint(s.left);
    ParsePrint(s.right);
  }

  /** Without that boundary the wire form is ambiguous: two different canonical symbols share one. */
  lemma WireFormAmbiguous()
    ensures var a, b := Symbol(TON, BTC), Symbol(Unknown("TONB"), Unknown("TC"));
      a != b && IsCanonical(b.left) && IsCanonical(b.right) && SymbolString(a) == SymbolString(b)
  {
    assert "TON" + "BTC" == "TONB" + "TC";
  }
}
