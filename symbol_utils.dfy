/** Mapping of the bot's currency names onto Bitfinex funding symbols (src/utils/symbol.utils.ts). */
module SymbolUtils {

  /** The two currency names the symbol helper accepts. */
  datatype Currency = USD | USDT

  /** The currency's own spelling, as a template literal would print it. */
  function Name(c: Currency): string
  {
    match c
    case USD => "USD"
    case USDT => "USDT"
  }

  /**
   * Bitfinex spells the Tether funding symbol `fUST`, not `fUSDT`; every other
   * currency is prefixed with `f`.
   */
  function ConvertFundingSymbol(c: Currency): (s: string)
    ensures |s| == 4 && s[0] == 'f'
    ensures s == "fUST" <==> c == USDT
    ensures s == "fUSD" <==> c == USD
    ensures s == "f" + Name(c) <==> c != USDT
    ensures s != "fUSDT"
  {
    assert "f" + Name(USD) == "fUSD";
    if c == USDT then "fUST" else "f" + Name(c)
  }

  /** Distinct currencies never share a funding symbol. */
  lemma ConvertFundingSymbolInjective(a: Currency, b: Currency)
    ensures ConvertFundingSymbol(a) == ConvertFundingSymbol(b) ==> a == b
  {
  }
}
