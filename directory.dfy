/** The market/currency directory: the `contracts` object that `init` loads
    from returnCurrencies, the lookups that read it, and market names. */
module Directory {
  import opened Wrappers
  import opened Numerals
  import opened Scaler

  /** One entry of returnCurrencies: the token's contract address and its
      decimal precision. */
  datatype Currency = Currency(address: string, decimals: nat)

  /** symbol -> Currency, as returned by returnCurrencies. */
  type Contracts = map<string, Currency>

  /** A token as an order uses it: an address and the decimals to scale by. */
  datatype Token = Token(address: string, decimals: nat)

  /** The length of "0x" followed by 40 hex digits: a token given this way is
      not looked up. */
  const RawAddressLength: nat := 42

  /** get_decimals(symbol): the symbol's precision, or a throw for a symbol
      the directory does not hold. */
  function GetDecimals(contracts: Contracts, symbol: string): (r: Result<nat, string>)
    ensures r.Ok? <==> symbol in contracts
    ensures r.Ok? ==> r.value == contracts[symbol].decimals
    ensures r.Err? ==> r.error == "get_decimals undefined: " + symbol
  {
    if symbol !in contracts then Err("get_decimals undefined: " + symbol)
    else Ok(contracts[symbol].decimals)
  }

  /** get_amount(symbol, amount) = expand(amount, get_decimals(symbol)). */
  function GetAmount(contracts: Contracts, symbol: string, amount: string): (r: Result<string, string>)
    ensures r.Err? <==> symbol !in contracts
    ensures r.Err? ==> r.error == "get_decimals undefined: " + symbol
    ensures r.Ok? ==> r.value == Expand(amount, contracts[symbol].decimals)
  {
    match GetDecimals(contracts, symbol)
    case Err(e) => Err(e)
    case Ok(decimals) => Ok(Expand(amount, decimals))
  }

  /** get_amount fails exactly on an unknown symbol, and otherwise prints the
      amount scaled by the symbol's own precision and rounded. */
  lemma GetAmountIsScaledBySymbolDecimals(contracts: Contracts, symbol: string, amount: string)
    ensures GetAmount(contracts, symbol, amount).Err? <==> symbol !in contracts
    ensures symbol in contracts ==>
      GetAmount(contracts, symbol, amount) == Ok(Expand(amount, contracts[symbol].decimals))
    ensures symbol in contracts && ParseBigNumber(amount).Finite? ==>
      var text := GetAmount(contracts, symbol, amount).value;
      IsIntegerText(text)
      && IntegerValue(text) == Rounded(Scaled(ParseBigNumber(amount).value, contracts[symbol].decimals))
  {
    if symbol in contracts {
      ExpandIsRoundedScaledAmount(amount, contracts[symbol].decimals);
    }
  }

  /** One token of `limit`: a 42-character token is an address, used with the
      caller's decimals; anything else must be a symbol of the directory and
      is replaced by its address and decimals. None where limit throws. */
  function ResolveToken(contracts: Contracts, token: string, decimals: nat): (r: Option<Token>)
    ensures |token| == RawAddressLength ==> r == Some(Token(token, decimals))
    ensures |token| != RawAddressLength ==> (r.Some? <==> token in contracts)
    ensures |token| != RawAddressLength && token in contracts ==>
      r.value == Token(contracts[token].address, contracts[token].decimals)
  {
    if |token| == RawAddressLength then Some(Token(token, decimals))
    else if token in contracts then Some(Token(contracts[token].address, contracts[token].decimals))
    else None
  }

  /** Resolution agrees with get_decimals on every symbol that is looked up,
      and only raw addresses bypass the directory. */
  lemma ResolveTokenAgreesWithDirectory(contracts: Contracts, token: string, decimals: nat)
    ensures |token| == RawAddressLength ==> ResolveToken(contracts, token, decimals) == Some(Token(token, decimals))
    ensures |token| != RawAddressLength ==>
      (ResolveToken(contracts, token, decimals).Some? <==> GetDecimals(contracts, token).Ok?)
    ensures |token| != RawAddressLength && token in contracts ==>
      ResolveToken(contracts, token, decimals).value.decimals == GetDecimals(contracts, token).value
      && ResolveToken(contracts, token, decimals).value.address == contracts[token].address
  {
  }

  /** Both tokens of `limit`, the buy token first; the error names the token
      that failed (the corrected message, see OrderTokensAsWritten). */
  function OrderTokens(contracts: Contracts, tokenBuy: string, buyDecimals: nat,
                       tokenSell: string, sellDecimals: nat): Result<(Token, Token), string>
  {
    match ResolveToken(contracts, tokenBuy, buyDecimals)
    case None => Err("tokenBuy undefined: " + tokenBuy)
    case Some(buy) =>
      match ResolveToken(contracts, tokenSell, sellDecimals)
      case None => Err("tokenSell undefined: " + tokenSell)
      case Some(sell) => Ok((buy, sell))
  }

  /** An order's tokens resolve exactly when each one does; a failure is
      reported for the first token that does not, by that token's own text. */
  lemma OrderTokensReportsTheFailingToken(contracts: Contracts, tokenBuy: string, buyDecimals: nat,
                                          tokenSell: string, sellDecimals: nat)
    ensures var r := OrderTokens(contracts, tokenBuy, buyDecimals, tokenSell, sellDecimals);
      var buy := ResolveToken(contracts, tokenBuy, buyDecimals);
      var sell := ResolveToken(contracts, tokenSell, sellDecimals);
      && (r.Ok? <==> buy.Some? && sell.Some?)
      && (r.Ok? ==> r.value == (buy.value, sell.value))
      && (buy.None? ==> r == Err("tokenBuy undefined: " + tokenBuy))
      && (buy.Some? && sell.None? ==> r == Err("tokenSell undefined: " + tokenSell))
  {
  }

  /** The same two steps as idex.js writes them: the tokenSell message
      interpolates tokenBuy, which by then has been replaced by its address. */
  function OrderTokensAsWritten(contracts: Contracts, tokenBuy: string, buyDecimals: nat,
                                tokenSell: string, sellDecimals: nat): (r: Result<(Token, Token), string>)
    ensures var buy := ResolveToken(contracts, tokenBuy, buyDecimals);
      var sell := ResolveToken(contracts, tokenSell, sellDecimals);
      && (r.Ok? <==> buy.Some? && sell.Some?)
      && (r.Ok? ==> r.value == (buy.value, sell.value))
      && (buy.None? ==> r == Err("tokenBuy undefined: " + tokenBuy))
  {
    match ResolveToken(contracts, tokenBuy, buyDecimals)
    case None => Err("tokenBuy undefined: " + tokenBuy)
    case Some(buy) =>
      match ResolveToken(contracts, tokenSell, sellDecimals)
      case None => Err("tokenSell undefined: " + buy.address)
      case Some(sell) => Ok((buy, sell))
  }

  /** The two resolutions agree on which orders go through and on their
      tokens; they differ only in the text of the tokenSell message. */
  lemma AsWrittenDiffersOnlyInSellMessage(contracts: Contracts, tokenBuy: string, buyDecimals: nat,
                                          tokenSell: string, sellDecimals: nat)
    ensures var w := OrderTokensAsWritten(contracts, tokenBuy, buyDecimals, tokenSell, sellDecimals);
      var c := OrderTokens(contracts, tokenBuy, buyDecimals, tokenSell, sellDecimals);
      var buy := ResolveToken(contracts, tokenBuy, buyDecimals);
      && (w.Ok? <==> c.Ok?)
      && (w.Ok? ==> w.value == c.value)
      && (buy.None? ==> w == c)
      && (buy.Some? && w.Err? ==> w == Err("tokenSell undefined: " + buy.value.address))
  {
  }

  /** ETH's entry in returnCurrencies: the zero address, 18 decimals. */
  const EthAddress: string := "0x0000000000000000000000000000000000000000"

  /** A sell order of an unknown symbol for ETH: the message written by
      idex.js names ETH's address instead of the unknown symbol, where the
      corrected message names the symbol. */
  lemma SellErrorNamesTheBuyAddress()
    ensures var contracts := map["ETH" := Currency(EthAddress, 18)];
      && OrderTokensAsWritten(contracts, "ETH", 18, "XYZ", 18) == Err("tokenSell undefined: " + EthAddress)
      && OrderTokens(contracts, "ETH", 18, "XYZ", 18) == Err("tokenSell undefined: " + "XYZ")
      && OrderTokensAsWritten(contracts, "ETH", 18, "XYZ", 18) != OrderTokens(contracts, "ETH", 18, "XYZ", 18)
  {
    var contracts := map["ETH" := Currency(EthAddress, 18)];
    assert |"ETH"| == 3 && |"XYZ"| == 3;
    assert "XYZ"[0] != "ETH"[0];
    assert ResolveToken(contracts, "XYZ", 18) == None;
    assert |"tokenSell undefined: " + EthAddress| != |"tokenSell undefined: " + "XYZ"|;
  }

  // ---- market names ----

  const QuoteSymbol: string := "ETH"

  /** spread and orderBook: a market given without "_" is quoted in ETH. */
  function NormaliseMarket(market: string): (r: string)
    ensures '_' in r
    ensures '_' in market ==> r == market
  {
    if '_' !in market then QuoteSymbol + "_" + market else market
  }

  /** The prefix "ETH_" is added exactly when the name holds no "_"; the
      result always holds one, so normalising twice changes nothing. */
  lemma NormaliseMarketSpec(market: string)
    ensures '_' in market ==> NormaliseMarket(market) == market
    ensures '_' !in market ==> NormaliseMarket(market) == "ETH_" + market
    ensures '_' in NormaliseMarket(market)
    ensures NormaliseMarket(NormaliseMarket(market)) == NormaliseMarket(market)
  {
    if '_' !in market {
      assert NormaliseMarket(market)[3] == '_';
    }
  }
}
