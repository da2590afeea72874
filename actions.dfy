/** The signed actions of idex.js: for each of limit, rawtrade/trade, cancel
    and withdraw, the typed field list that is hashed, the signature, and the
    POST that carries the same values; with the order-book query, the
    cancelAll filter and the chomp_buy clamp. */
module Actions {
  import opened Wrappers
  import opened Numerals
  import opened Scaler
  import opened SolidityPack
  import opened Signer
  import opened Directory

  // ---- constants of the exchange API ----

  /** The IDEX exchange contract every order and withdrawal is bound to. */
  const IdexContractAddress: string := "0x2a0c0dbecc7e4d658f48e01e3fa353f44050c208"
  /** The `expires` value of every order. */
  const OrderExpiry: nat := 100000
  /** Milliseconds before a request is abandoned. */
  const RequestTimeout: nat := 10000
  const UserAgent: string := "Node IDEX API"

  const OrderUrl: string := "https://api.idex.market/order"
  const TradeUrl: string := "https://api.idex.market/trade"
  const CancelUrl: string := "https://api.idex.market/cancel"
  const WithdrawUrl: string := "https://api.idex.market/withdraw"
  const OrderBookUrl: string := "https://api.idex.market/returnOrderBook"

  /** The headers of every signed action and order-book request. */
  function RequestHeaders(apiKey: string): map<string, string>
  {
    map["Accept" := "application/json", "API-Key" := apiKey, "User-agent" := UserAgent]
  }

  /** The signing side of a session: the library calls, the private key given
      to ecsign, the API key of the headers and the signer address that every
      preimage and body carries. */
  datatype Account = Account(crypto: Crypto, privateKey: string, apiKey: string, address: string)

  // ---- what is posted ----

  /** The JSON bodies, field for field. The nonce is the number returnNextNonce
      answered; an order hash and a fill amount are whatever the caller passed. */
  datatype Body =
    | OrderBody(tokenBuy: string, amountBuy: string, tokenSell: string, amountSell: string,
                address: string, nonce: nat, expires: nat, v: int, r: string, s: string)
    | TradeBody(address: string, orderHash: Value, amount: Value, nonce: nat, v: int, r: string, s: string)
    | CancelBody(orderHash: Value, nonce: nat, address: string, v: int, r: string, s: string)
    | WithdrawBody(address: string, token: string, nonce: nat, amount: Value, v: int, r: string, s: string)
    | BookQuery(market: string, count: nat)

  /** A POST request: url, headers, timeout and JSON body. */
  datatype Post = Post(url: string, headers: map<string, string>, timeout: nat, body: Body)

  /** One signed action: the fields hashed, the hashes and signature, and the
      request that submits them. */
  datatype Submission = Submission(preimage: seq<Field>, signed: Signed, post: Post)

  // ---- the preimage schemas ----

  const OrderKinds: seq<Kind> := [Address, Address, Uint256, Address, Uint256, Uint256, Uint256, Address]
  const TradeKinds: seq<Kind> := [Uint256, Uint256, Address, Uint256]
  const CancelKinds: seq<Kind> := [Uint256, Uint256]
  const WithdrawKinds: seq<Kind> := [Address, Address, Uint256, Address, Uint256]

  /** limit: exchange contract, tokenBuy, amountBuy, tokenSell, amountSell,
      expires, nonce, signer. */
  function OrderFields(tokenBuy: string, amountBuy: string, tokenSell: string, amountSell: string,
                       expires: nat, nonce: nat, address: string): (fs: seq<Field>)
    ensures Kinds(fs) == OrderKinds
    ensures fs[0] == Addr(IdexContractAddress) && fs[7] == Addr(address)
    ensures fs[6] == U256(Int(nonce))
  {
    [Addr(IdexContractAddress), Addr(tokenBuy), U256(Str(amountBuy)), Addr(tokenSell),
     U256(Str(amountSell)), U256(Int(expires)), U256(Int(nonce)), Addr(address)]
  }

  /** rawtrade: orderHash, amount, signer, nonce. */
  function TradeFields(orderHash: Value, amount: Value, address: string, nonce: nat): (fs: seq<Field>)
    ensures Kinds(fs) == TradeKinds
    ensures fs[2] == Addr(address) && fs[3] == U256(Int(nonce))
  {
    [U256(orderHash), U256(amount), Addr(address), U256(Int(nonce))]
  }

  /** cancel: orderHash, nonce; the signer address is not hashed. */
  function CancelFields(orderHash: Value, nonce: nat): (fs: seq<Field>)
    ensures Kinds(fs) == CancelKinds
    ensures fs[1] == U256(Int(nonce))
  {
    [U256(orderHash), U256(Int(nonce))]
  }

  /** withdraw: exchange contract, token, amount, signer, nonce. */
  function WithdrawFields(token: string, amount: Value, address: string, nonce: nat): (fs: seq<Field>)
    ensures Kinds(fs) == WithdrawKinds
    ensures fs[0] == Addr(IdexContractAddress) && fs[3] == Addr(address) && fs[4] == U256(Int(nonce))
  {
    [Addr(IdexContractAddress), Addr(token), U256(amount), Addr(address), U256(Int(nonce))]
  }

  /** The preimage a receiver rebuilds from a signed body's own values. */
  function BodyPreimage(b: Body): seq<Field>
    requires !b.BookQuery?
  {
    match b
    case OrderBody(tokenBuy, amountBuy, tokenSell, amountSell, address, nonce, expires, _, _, _) =>
      OrderFields(tokenBuy, amountBuy, tokenSell, amountSell, expires, nonce, address)
    case TradeBody(address, orderHash, amount, nonce, _, _, _) => TradeFields(orderHash, amount, address, nonce)
    case CancelBody(orderHash, nonce, _, _, _, _) => CancelFields(orderHash, nonce)
    case WithdrawBody(address, token, nonce, amount, _, _, _) => WithdrawFields(token, amount, address, nonce)
  }

  /** A submission is coherent for an account when the body carries exactly
      the values that were hashed and the v, r, s that signed them, under the
      account's key, signer address and API key. */
  predicate Coherent(acct: Account, sub: Submission)
  {
    var body := sub.post.body;
    && !body.BookQuery?
    && sub.preimage == BodyPreimage(body)
    && Signature(body.v, body.r, body.s) == sub.signed.signature
    && body.address == acct.address
    && Sign(acct.crypto, acct.privateKey, sub.preimage) == Ok(sub.signed)
    && sub.post.headers == RequestHeaders(acct.apiKey)
    && sub.post.timeout == RequestTimeout
  }

  /** Signs the fields of an unsigned body and posts the body with the
      signature filled in. */
  function Submit(acct: Account, url: string, unsigned: Body): (r: Result<Submission, Failure>)
    requires !unsigned.BookQuery? && unsigned.address == acct.address
    ensures r.Err? <==> Sign(acct.crypto, acct.privateKey, BodyPreimage(unsigned)).Err?
    ensures r.Err? ==> r.error == Sign(acct.crypto, acct.privateKey, BodyPreimage(unsigned)).error
    ensures r.Ok? ==> Coherent(acct, r.value) && r.value.post.url == url
    ensures r.Ok? ==> r.value.post.body == unsigned.(v := r.value.signed.signature.v,
                                                      r := r.value.signed.signature.r,
                                                      s := r.value.signed.signature.s)
  {
    var fields := BodyPreimage(unsigned);
    match Sign(acct.crypto, acct.privateKey, fields)
    case Err(e) => Err(e)
    case Ok(signed) =>
      var sig := signed.signature;
      var body := unsigned.(v := sig.v, r := sig.r, s := sig.s);
      assert BodyPreimage(body) == fields;
      Ok(Submission(fields, signed, Post(url, RequestHeaders(acct.apiKey), RequestTimeout, body)))
  }

  // ---- the four actions ----

  /** limit(tokenBuy, amountBuy, tokenSell, amountSell, buyDecimals = 18,
      sellDecimals = 18), once the nonce is known. Its tokens are resolved
      as idex.js writes it, so an unknown sell token throws a message naming
      the buy token's address (OrderTokensAsWritten). */
  function LimitOrder(acct: Account, contracts: Contracts, tokenBuy: string, amountBuy: string,
                      tokenSell: string, amountSell: string, nonce: nat,
                      buyDecimals: nat := 18, sellDecimals: nat := 18): (r: Result<Submission, Failure>)
    ensures OrderTokensAsWritten(contracts, tokenBuy, buyDecimals, tokenSell, sellDecimals).Err? ==>
      r == Err(Thrown(OrderTokensAsWritten(contracts, tokenBuy, buyDecimals, tokenSell, sellDecimals).error))
    ensures OrderTokensAsWritten(contracts, tokenBuy, buyDecimals, tokenSell, sellDecimals).Ok? ==>
      var (buy, sell) := OrderTokensAsWritten(contracts, tokenBuy, buyDecimals, tokenSell, sellDecimals).value;
      r.Err? <==> Sign(acct.crypto, acct.privateKey,
                       OrderFields(buy.address, Expand(amountBuy, buy.decimals), sell.address,
                                   Expand(amountSell, sell.decimals), OrderExpiry, nonce, acct.address)).Err?
    ensures r.Ok? ==>
      var (buy, sell) := OrderTokensAsWritten(contracts, tokenBuy, buyDecimals, tokenSell, sellDecimals).value;
      && Coherent(acct, r.value) && r.value.post.url == OrderUrl
      && r.value.post.body.OrderBody?
      && r.value.post.body.tokenBuy == buy.address && r.value.post.body.tokenSell == sell.address
      && r.value.post.body.amountBuy == Expand(amountBuy, buy.decimals)
      && r.value.post.body.amountSell == Expand(amountSell, sell.decimals)
      && r.value.post.body.nonce == nonce && r.value.post.body.expires == OrderExpiry
  {
    match OrderTokensAsWritten(contracts, tokenBuy, buyDecimals, tokenSell, sellDecimals)
    case Err(message) => Err(Thrown(message))
    case Ok((buy, sell)) =>
      Submit(acct, OrderUrl, OrderBody(buy.address, Expand(amountBuy, buy.decimals), sell.address,
                                       Expand(amountSell, sell.decimals), acct.address, nonce,
                                       OrderExpiry, 0, "", ""))
  }

  /** rawtrade(orderHash, amount): fill an order with an amount in base units. */
  function RawTrade(acct: Account, orderHash: Value, amount: Value, nonce: nat): (r: Result<Submission, Failure>)
    ensures r.Err? <==> Sign(acct.crypto, acct.privateKey, TradeFields(orderHash, amount, acct.address, nonce)).Err?
    ensures r.Ok? ==>
      && Coherent(acct, r.value) && r.value.post.url == TradeUrl
      && r.value.preimage == TradeFields(orderHash, amount, acct.address, nonce)
      && r.value.post.body.TradeBody?
  {
    Submit(acct, TradeUrl, TradeBody(acct.address, orderHash, amount, nonce, 0, "", ""))
  }

  /** trade(orderHash, amount, decimals = 18): rawtrade of the expanded amount. */
  function Trade(acct: Account, orderHash: Value, amount: string, nonce: nat, decimals: nat := 18): (r: Result<Submission, Failure>)
    ensures r.Err? <==> Sign(acct.crypto, acct.privateKey,
                             TradeFields(orderHash, Str(Expand(amount, decimals)), acct.address, nonce)).Err?
    ensures r.Ok? ==>
      && Coherent(acct, r.value) && r.value.post.url == TradeUrl
      && r.value.preimage == TradeFields(orderHash, Str(Expand(amount, decimals)), acct.address, nonce)
  {
    RawTrade(acct, orderHash, Str(Expand(amount, decimals)), nonce)
  }

  /** cancel(orderHash). */
  function Cancel(acct: Account, orderHash: Value, nonce: nat): (r: Result<Submission, Failure>)
    ensures r.Err? <==> Sign(acct.crypto, acct.privateKey, CancelFields(orderHash, nonce)).Err?
    ensures r.Ok? ==>
      && Coherent(acct, r.value) && r.value.post.url == CancelUrl
      && r.value.preimage == CancelFields(orderHash, nonce)
      && r.value.post.body.CancelBody?
  {
    var unsigned := CancelBody(orderHash, nonce, acct.address, 0, "", "");
    assert BodyPreimage(unsigned) == CancelFields(orderHash, nonce);
    Submit(acct, CancelUrl, unsigned)
  }

  /** withdraw(symbol, amount): the symbol's address and decimals come from
      the directory. */
  function Withdraw(acct: Account, contracts: Contracts, symbol: string, amount: string, nonce: nat): (r: Result<Submission, Failure>)
    ensures symbol !in contracts ==> r == Err(Thrown("withdraw: invalid symbol: " + symbol))
    ensures symbol in contracts ==>
      (r.Err? <==> Sign(acct.crypto, acct.privateKey,
                        WithdrawFields(contracts[symbol].address, Str(Expand(amount, contracts[symbol].decimals)),
                                       acct.address, nonce)).Err?)
    ensures r.Ok? ==>
      && symbol in contracts
      && Coherent(acct, r.value) && r.value.post.url == WithdrawUrl
      && r.value.preimage == WithdrawFields(contracts[symbol].address,
                                            Str(Expand(amount, contracts[symbol].decimals)), acct.address, nonce)
      && r.value.post.body.WithdrawBody?
  {
    if symbol !in contracts then Err(Thrown("withdraw: invalid symbol: " + symbol))
    else
      var currency := contracts[symbol];
      var amountField := Str(Expand(amount, currency.decimals));
      var unsigned := WithdrawBody(acct.address, currency.address, nonce, amountField, 0, "", "");
      assert BodyPreimage(unsigned) == WithdrawFields(currency.address, amountField, acct.address, nonce);
      Submit(acct, WithdrawUrl, unsigned)
  }

  // ---- what the fields say ----

  /** The amount text expand prints is read back by soliditySha3 as the
      rounded, scaled amount: it packs exactly when that number fits in 256
      bits and is not negative, and "NaN", which holds no decimal digit, never packs. */
  lemma ExpandedAmountPacks(amount: string, decimals: nat)
    ensures ParseBigNumber(amount).NaN? ==> UintOf(Str(Expand(amount, decimals))).Err?
    ensures ParseBigNumber(amount).Finite? ==>
      var n := Rounded(Scaled(ParseBigNumber(amount).value, decimals));
      && (UintOf(Str(Expand(amount, decimals))).Ok? <==> 0 <= n < Uint256Bound)
      && (UintOf(Str(Expand(amount, decimals))).Ok? ==> UintOf(Str(Expand(amount, decimals))).value == n)
  {
    match ParseBigNumber(amount)
    case NaN =>
      assert !IsHexStrict("NaN") && !AllDec("NaN") by { assert !IsDecDigit("NaN"[0]); }
      assert ParseNumber(Str("NaN")) == None;
    case Finite(d) =>
      var scaled := Scaled(d, decimals);
      var n := Rounded(scaled);
      NumberOfNumeral(scaled.coefficient < 0, Abs(n));
      assert ParseNumber(Str(Expand(amount, decimals))) == Some(n);
  }

  /** A field holding expand's text that packs carries the rounded, scaled
      amount, and the amount was a number. */
  lemma PackedExpandedAmount(fs: seq<Field>, i: nat, amount: string, decimals: nat)
    requires i < |fs| && Pack(fs).Ok? && fs[i] == U256(Str(Expand(amount, decimals)))
    ensures ParseBigNumber(amount).Finite?
    ensures Meaning(fs[i]).UintWord? && Meaning(fs[i]).n == Rounded(Scaled(ParseBigNumber(amount).value, decimals))
  {
    assert PackField(fs[i]).Ok?;
    ExpandedAmountPacks(amount, decimals);
  }

  /** A signed limit order hashes the amounts as numbers: each is the caller's
      amount times 10 ** the resolved token's decimals, rounded; and both
      resolved tokens are valid addresses. */
  lemma LimitSignsScaledAmounts(acct: Account, contracts: Contracts, tokenBuy: string, amountBuy: string,
                                tokenSell: string, amountSell: string, nonce: nat, buyDecimals: nat, sellDecimals: nat)
    requires LimitOrder(acct, contracts, tokenBuy, amountBuy, tokenSell, amountSell, nonce, buyDecimals, sellDecimals).Ok?
    ensures var sub := LimitOrder(acct, contracts, tokenBuy, amountBuy, tokenSell, amountSell, nonce, buyDecimals, sellDecimals).value;
      var (buy, sell) := OrderTokensAsWritten(contracts, tokenBuy, buyDecimals, tokenSell, sellDecimals).value;
      && Pack(sub.preimage).Ok?
      && ParseBigNumber(amountBuy).Finite? && ParseBigNumber(amountSell).Finite?
      && Meaning(sub.preimage[2]).n == Rounded(Scaled(ParseBigNumber(amountBuy).value, buy.decimals))
      && Meaning(sub.preimage[4]).n == Rounded(Scaled(ParseBigNumber(amountSell).value, sell.decimals))
      && AddressOf(buy.address).Some? && AddressOf(sell.address).Some?
  {
    var sub := LimitOrder(acct, contracts, tokenBuy, amountBuy, tokenSell, amountSell, nonce, buyDecimals, sellDecimals).value;
    var (buy, sell) := OrderTokensAsWritten(contracts, tokenBuy, buyDecimals, tokenSell, sellDecimals).value;
    assert Pack(sub.preimage).Ok?;
    assert PackField(sub.preimage[1]).Ok? && PackField(sub.preimage[3]).Ok?;
    PackedExpandedAmount(sub.preimage, 2, amountBuy, buy.decimals);
    PackedExpandedAmount(sub.preimage, 4, amountSell, sell.decimals);
  }

  /** trade signs the amount expanded by the given decimals. */
  lemma TradeSignsScaledAmount(acct: Account, orderHash: Value, amount: string, nonce: nat, decimals: nat)
    requires Trade(acct, orderHash, amount, nonce, decimals).Ok?
    ensures var sub := Trade(acct, orderHash, amount, nonce, decimals).value;
      && sub.preimage == TradeFields(orderHash, Str(Expand(amount, decimals)), acct.address, nonce)
      && Pack(sub.preimage).Ok? && ParseBigNumber(amount).Finite?
      && Meaning(sub.preimage[1]).n == Rounded(Scaled(ParseBigNumber(amount).value, decimals))
  {
    var sub := Trade(acct, orderHash, amount, nonce, decimals).value;
    PackedExpandedAmount(sub.preimage, 1, amount, decimals);
  }

  /** withdraw signs the token's address and the amount expanded by the
      token's own decimals. */
  lemma WithdrawSignsScaledAmount(acct: Account, contracts: Contracts, symbol: string, amount: string, nonce: nat)
    requires Withdraw(acct, contracts, symbol, amount, nonce).Ok?
    ensures var sub := Withdraw(acct, contracts, symbol, amount, nonce).value;
      && symbol in contracts && Pack(sub.preimage).Ok? && ParseBigNumber(amount).Finite?
      && Meaning(sub.preimage[2]).n == Rounded(Scaled(ParseBigNumber(amount).value, contracts[symbol].decimals))
      && AddressOf(contracts[symbol].address).Some?
  {
    var sub := Withdraw(acct, contracts, symbol, amount, nonce).value;
    assert PackField(sub.preimage[1]).Ok?;
    PackedExpandedAmount(sub.preimage, 2, amount, contracts[symbol].decimals);
  }

  /** Two preimages of one schema that differ in the meaning of one field pack
      to different bytes, so they are different messages to sign. */
  lemma FieldChangesPack(fs: seq<Field>, gs: seq<Field>, i: nat)
    requires Kinds(fs) == Kinds(gs) && i < |fs|
    requires Pack(fs).Ok? && Pack(gs).Ok?
    requires Meaning(fs[i]) != Meaning(gs[i])
    ensures Pack(fs).value != Pack(gs).value
  {
    if Pack(fs).value == Pack(gs).value {
      PackInjective(fs, gs);
      assert false;
    }
  }

  /** Replacing one field of a packable preimage by another packable value of
      the same type but a different meaning changes the packed bytes. */
  lemma ReplacedFieldChangesPack(fs: seq<Field>, i: nat, f: Field)
    requires i < |fs| && Pack(fs).Ok? && PackField(f).Ok?
    requires KindOf(f) == KindOf(fs[i]) && Meaning(f) != Meaning(fs[i])
    ensures Pack(fs[i := f]).Ok? && Pack(fs).value != Pack(fs[i := f]).value
  {
    var gs := fs[i := f];
    assert forall j :: 0 <= j < |gs| ==> PackField(gs[j]).Ok? by {
      forall j | 0 <= j < |gs| ensures PackField(gs[j]).Ok? {
        if j != i { assert gs[j] == fs[j]; }
      }
    }
    assert Kinds(fs) == Kinds(gs);
    FieldChangesPack(gs, fs, i);
  }

  /** Where the signer address sits in a signed body's preimage; cancel
      hashes none. */
  function SignerSlot(b: Body): (i: nat)
    requires b.OrderBody? || b.TradeBody? || b.WithdrawBody?
    ensures i < |BodyPreimage(b)| && BodyPreimage(b)[i] == Addr(b.address)
  {
    match b
    case OrderBody(_, _, _, _, _, _, _, _, _, _) => 7
    case TradeBody(_, _, _, _, _, _, _) => 2
    case WithdrawBody(_, _, _, _, _, _, _) => 3
  }

  /** The signer hashed is the address the account carries, whatever key
      signs: when that address names other bytes than a second address, the
      signed preimage differs from the one that address would give. This is
      what idex.js does with the undeclared global `address` it reads at
      idex.js:71, 168 and 432, which nothing ties to the private key. */
  lemma SignerIsHashedAsGiven(acct: Account, sub: Submission, keyAddress: string)
    requires Coherent(acct, sub)
    requires sub.post.body.OrderBody? || sub.post.body.TradeBody? || sub.post.body.WithdrawBody?
    requires AddressOf(keyAddress).Some? && AddressOf(acct.address) != AddressOf(keyAddress)
    ensures var i := SignerSlot(sub.post.body);
      && sub.preimage[i] == Addr(acct.address)
      && Pack(sub.preimage[i := Addr(keyAddress)]).Ok?
      && Pack(sub.preimage).value != Pack(sub.preimage[i := Addr(keyAddress)]).value
  {
    var i := SignerSlot(sub.post.body);
    assert Pack(sub.preimage).Ok?;
    assert PackField(sub.preimage[i]).Ok?;
    ReplacedFieldChangesPack(sub.preimage, i, Addr(keyAddress));
  }

  /** Two limit orders that are the same but for the nonce hash different
      bytes: a signed order cannot be replayed under another nonce. */
  lemma OrderNonceIsSigned(tokenBuy: string, amountBuy: string, tokenSell: string, amountSell: string,
                           address: string, nonce1: nat, nonce2: nat)
    requires nonce1 != nonce2 && nonce2 < SafeNumberBound
    requires Pack(OrderFields(tokenBuy, amountBuy, tokenSell, amountSell, OrderExpiry, nonce1, address)).Ok?
    ensures var fs := OrderFields(tokenBuy, amountBuy, tokenSell, amountSell, OrderExpiry, nonce1, address);
      var gs := OrderFields(tokenBuy, amountBuy, tokenSell, amountSell, OrderExpiry, nonce2, address);
      Pack(gs).Ok? && Pack(fs).value != Pack(gs).value
  {
    var fs := OrderFields(tokenBuy, amountBuy, tokenSell, amountSell, OrderExpiry, nonce1, address);
    var gs := OrderFields(tokenBuy, amountBuy, tokenSell, amountSell, OrderExpiry, nonce2, address);
    var f := U256(Int(nonce2));
    OrderWithNonce(tokenBuy, amountBuy, tokenSell, amountSell, address, nonce1, nonce2);
    UintOfNumber(nonce1);
    UintOfNumber(nonce2);
    ReplacedFieldChangesPack(fs, 6, f);
    assert Pack(gs) == Pack(fs[6 := f]);
  }

  /** Orders differing only in nonce differ only in field 6. */
  lemma OrderWithNonce(tokenBuy: string, amountBuy: string, tokenSell: string, amountSell: string,
                       address: string, nonce1: nat, nonce2: nat)
    ensures OrderFields(tokenBuy, amountBuy, tokenSell, amountSell, OrderExpiry, nonce2, address)
      == OrderFields(tokenBuy, amountBuy, tokenSell, amountSell, OrderExpiry, nonce1, address)[6 := U256(Int(nonce2))]
  {
  }

  /** A Number field packs exactly when the Number is below 2^53, and then
      packs as itself. */
  lemma UintOfNumber(n: nat)
    ensures UintOf(Int(n)).Ok? <==> n < SafeNumberBound
    ensures n < SafeNumberBound ==> UintOf(Int(n)) == Ok(n) && Meaning(U256(Int(n))) == UintWord(n)
  {
    SafeNumbersFit();
  }

  /** The cancel preimage is order-sensitive: orderHash first, then nonce.
      Swapping them hashes the same bytes only when the two numbers are equal. */
  lemma CancelFieldOrderMatters(orderHash: Value, nonce: nat)
    requires Pack(CancelFields(orderHash, nonce)).Ok?
    requires UintOf(orderHash).value != nonce
    ensures Pack([U256(Int(nonce)), U256(orderHash)]).Ok?
    ensures Pack(CancelFields(orderHash, nonce)).value != Pack([U256(Int(nonce)), U256(orderHash)]).value
  {
    var fs := CancelFields(orderHash, nonce);
    var gs := [U256(Int(nonce)), U256(orderHash)];
    assert PackField(fs[0]).Ok? && PackField(fs[1]).Ok?;
    assert Kinds(gs) == CancelKinds;
    FieldChangesPack(fs, gs, 0);
  }

  // ---- order book, spread, cancelAll, chomp_buy ----

  /** One order of the book as returnOrderBook lists it; amountBuy is
      `params.amountBuy`, in base units. */
  datatype BookOrder = BookOrder(price: string, orderHash: Value, amount: string, amountBuy: string)
  datatype OrderBook = OrderBook(asks: seq<BookOrder>, bids: seq<BookOrder>)

  /** orderBook(market, count = 20): the returnOrderBook request. */
  function OrderBookQuery(apiKey: string, market: string, count: nat := 20): (p: Post)
    ensures p.body.BookQuery? && p.body.count == count
    ensures '_' in p.body.market
    ensures '_' in market ==> p.body.market == market
    ensures '_' !in market ==> p.body.market == "ETH_" + market
  {
    NormaliseMarketSpec(market);
    Post(OrderBookUrl, RequestHeaders(apiKey), RequestTimeout, BookQuery(NormaliseMarket(market), count))
  }

  /** The best ask and bid prices. */
  datatype Quote = Quote(ask: string, bid: string)

  /** spread(market): the query for one order per side, and the top ask and
      bid of the book it returns; false (None) when the request fails or a
      side is empty. */
  function Spread(apiKey: string, market: string, response: Option<OrderBook>): (r: (Post, Option<Quote>))
    ensures r.0 == OrderBookQuery(apiKey, market, 1)
    ensures r.1.Some? <==> response.Some? && |response.value.asks| > 0 && |response.value.bids| > 0
    ensures r.1.Some? ==> r.1.value == Quote(response.value.asks[0].price, response.value.bids[0].price)
  {
    var query := OrderBookQuery(apiKey, NormaliseMarket(market), 1);
    NormaliseMarketSpec(market);
    var quote :=
      if response.None? || |response.value.asks| == 0 || |response.value.bids| == 0 then None
      else Some(Quote(response.value.asks[0].price, response.value.bids[0].price));
    (query, quote)
  }

  /** An open order as returnOpenOrders lists it. */
  datatype OpenOrder = OpenOrder(side: string, orderHash: Value)

  /** cancelAll's filter: with no side ("" stands for false) every order, else
      the orders whose type is that side, in their listed order. */
  function Selected(orders: seq<OpenOrder>, side: string): (r: seq<OpenOrder>)
    ensures |r| <= |orders|
    ensures forall k :: 0 <= k < |r| ==> side == "" || r[k].side == side
  {
    if orders == [] then []
    else
      var last := orders[|orders| - 1];
      Selected(orders[..|orders| - 1], side) + (if side != "" && last.side != side then [] else [last])
  }

  /** An order is cancelled exactly when no side is given or it is on that
      side; with no side nothing is dropped or reordered. */
  lemma {:induction false} SelectedSpec(orders: seq<OpenOrder>, side: string)
    ensures side == "" ==> Selected(orders, side) == orders
    ensures forall o :: o in Selected(orders, side) <==> o in orders && (side == "" || o.side == side)
  {
    if orders != [] {
      var init := orders[..|orders| - 1];
      SelectedSpec(init, side);
      assert orders == init + [orders[|orders| - 1]];
    }
  }

  /** Number(text) for the base-unit amounts of the book: a run of decimal
      digits reads as its value; any other text as NaN (None). */
  function NumberOf(text: string): Option<nat>
  {
    if |text| > 0 && AllDec(text) then Some(DecToNat(text)) else None
  }

  /** JavaScript's `a > b` on two strings: they are compared character by
      character, and a string is greater than each of its proper prefixes. */
  function TextGreater(a: string, b: string): bool
  {
    if |b| == 0 then |a| > 0
    else if |a| == 0 then false
    else if a[0] != b[0] then a[0] > b[0]
    else TextGreater(a[1..], b[1..])
  }

  /** Two numerals of the same length compare as text exactly as they
      compare as numbers. */
  lemma {:induction false} TextGreaterOfDigits(a: string, b: string)
    requires AllDec(a) && AllDec(b) && |a| == |b|
    ensures TextGreater(a, b) <==> DecToNat(a) > DecToNat(b)
    decreases |a|
  {
    if |a| > 0 {
      DecToNatFirst(a);
      DecToNatFirst(b);
      if a[0] == b[0] {
        TextGreaterOfDigits(a[1..], b[1..]);
      } else {
        DecToNatBound(a[1..]);
        DecToNatBound(b[1..]);
        LeadingDigitDecides(DecDigitValue(a[0]), DecDigitValue(b[0]), Pow(10, |a| - 1),
                            DecToNat(a[1..]), DecToNat(b[1..]));
      }
    }
  }

  lemma LeadingDigitDecides(x: nat, y: nat, p: nat, u: nat, v: nat)
    requires x != y && u < p && v < p
    ensures x > y <==> x * p + u > y * p + v
  {
    if x > y {
      assert x * p >= (y + 1) * p == y * p + p;
    } else {
      assert y * p >= (x + 1) * p == x * p + p;
    }
  }

  /** A cap given as text is compared as text, so a longer amount whose
      first digit is smaller is not capped: "10" passes a cap of "5". */
  lemma TextCapIsNotNumeric()
    ensures NumberOf("10") == Some(10)
    ensures ClampAmount("10", Some(Str("5"))) == Str("10")
  {
    assert AllDec("10") by { assert IsDecDigit("10"[0]) && IsDecDigit("10"[1]); }
    assert "10"[..1] == "1" && "1"[..0] == [];
    assert DecToNat("10") == 10 * DecToNat("1") + DecDigitValue('0');
    assert TextGreater("10", "5") == false;
  }

  /** chomp_buy's clamp, `if (rawAmount > maxAmount) rawAmount = maxAmount`:
      the book's amount is text, so a Number cap compares with Number(text)
      and a text cap compares as text. None is the default cap, Infinity,
      which no amount exceeds. */
  function ClampAmount(rawAmount: string, maxAmount: Option<Value>): (r: Value)
    ensures r == Str(rawAmount) || (maxAmount.Some? && r == maxAmount.value)
    ensures maxAmount.None? ==> r == Str(rawAmount)
    ensures maxAmount.Some? && maxAmount.value.Int? ==>
      (r.Int? <==> NumberOf(rawAmount).Some? && NumberOf(rawAmount).value > maxAmount.value.n)
    ensures maxAmount.Some? && maxAmount.value.Str? ==>
      (if TextGreater(rawAmount, maxAmount.value.s) then r == maxAmount.value else r == Str(rawAmount))
  {
    match maxAmount
    case None => Str(rawAmount)
    case Some(Int(m)) =>
      if NumberOf(rawAmount).Some? && NumberOf(rawAmount).value > m then Int(m) else Str(rawAmount)
    case Some(Str(m)) =>
      if TextGreater(rawAmount, m) then Str(m) else Str(rawAmount)
  }

  /** The fill amount is the book's amount capped at the maximum: for a
      numeric amount and a Number cap, or a text cap of as many digits, it is
      the smaller of the two; with no maximum, or with text that is not a
      number under a Number cap, the book's amount goes through as it is. */
  lemma ClampIsMinimum(rawAmount: string, maxAmount: Option<Value>)
    ensures NumberOf(rawAmount).Some? && (maxAmount.None? || maxAmount.value.Int?) ==>
      var n := NumberOf(rawAmount).value;
      ParseNumber(ClampAmount(rawAmount, maxAmount))
        == if maxAmount.Some? && maxAmount.value.n < n then
             (if Abs(maxAmount.value.n) < SafeNumberBound then Some(maxAmount.value.n) else None)
           else Some(n)
    ensures NumberOf(rawAmount).Some? && maxAmount.Some? && maxAmount.value.Str?
            && AllDec(maxAmount.value.s) && |maxAmount.value.s| == |rawAmount| ==>
      var n := NumberOf(rawAmount).value;
      var m := DecToNat(maxAmount.value.s);
      ParseNumber(ClampAmount(rawAmount, maxAmount)) == Some(if m < n then m else n)
    ensures maxAmount.None? || (maxAmount.value.Int? && NumberOf(rawAmount).None?) ==>
      ClampAmount(rawAmount, maxAmount) == Str(rawAmount)
  {
    if NumberOf(rawAmount).Some? {
      NumberOfDigits(rawAmount, rawAmount, false);
      if maxAmount.Some? && maxAmount.value.Str? && AllDec(maxAmount.value.s) && |maxAmount.value.s| == |rawAmount| {
        TextGreaterOfDigits(rawAmount, maxAmount.value.s);
        NumberOfDigits(maxAmount.value.s, maxAmount.value.s, false);
      }
    }
  }

  /** chomp_buy(market, maxAmount = Infinity), given the book returned: fill
      the best ask for its amount, capped at maxAmount. An empty ask side
      throws. */
  function ChompBuy(acct: Account, book: OrderBook, maxAmount: Option<Value>, nonce: nat): (r: Result<Submission, Failure>)
    ensures |book.asks| == 0 ==> r.Err? && r.error.Thrown?
    ensures |book.asks| > 0 ==>
      r == RawTrade(acct, book.asks[0].orderHash, ClampAmount(book.asks[0].amountBuy, maxAmount), nonce)
  {
    if |book.asks| == 0 then Err(Thrown(NoBestAsk))
    else
      var best := book.asks[0];
      RawTrade(acct, best.orderHash, ClampAmount(best.amountBuy, maxAmount), nonce)
  }

  /** The TypeError raised by reading `price` of a missing first ask. */
  const NoBestAsk: string := "TypeError: Cannot read property 'price' of undefined"
}
