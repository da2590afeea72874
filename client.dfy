/** The client session of idex.js: the module-level state (API key, private
    key, headers, currency directory) that init, set_apikey and auth
    reassign, and the action functions as they run against that state, with
    the nonce answered by returnNextNonce as input. idex.js reads the signer
    from an `address` it never declares; these methods sign as get_address(),
    the address of the session's own key. */
module Client {
  import opened Wrappers
  import opened Buffers
  import opened Scaler
  import opened SolidityPack
  import opened Signer
  import opened Directory
  import opened Actions

  /** The JSON credentials file auth reads; a missing key reads as "". */
  datatype Credentials = Credentials(apiKey: string, privateKey: string)

  /** auth's test for a credentials file: the first argument ends in ".json". */
  predicate IsJsonPath(s: string)
  {
    |s| >= 5 && s[|s| - 5..] == ".json"
  }

  class Session {
    /** The signing library. */
    const crypto: Crypto
    var apiKey: string
    /** "" stands for every falsy key (false, undefined). */
    var privateKey: string
    var headers: map<string, string>
    var contracts: Contracts

    /** The general headers always carry the current API key. */
    ghost predicate Valid()
      reads this
    {
      headers == map["API-Key" := apiKey]
    }

    /** The state a freshly loaded module starts in. */
    constructor(crypto: Crypto)
      ensures this.crypto == crypto
      ensures apiKey == "" && privateKey == "" && contracts == map[]
      ensures Valid()
    {
      this.crypto := crypto;
      apiKey := "";
      privateKey := "";
      headers := map["API-Key" := ""];
      contracts := map[];
    }

    /** init(): replace the directory with what returnCurrencies answered. */
    method Init(fetched: Contracts) returns (r: Contracts)
      modifies this`contracts
      ensures contracts == fetched && r == fetched
    {
      contracts := fetched;
      r := contracts;
    }

    /** set_apikey(key). */
    method SetApiKey(key: string)
      modifies this`apiKey, this`headers
      ensures apiKey == key && Valid()
    {
      apiKey := key;
      headers := map["API-Key" := apiKey];
    }

    /** get_address(): "0x" and the lower-case hex of the key's address. */
    function GetAddress(): (r: Result<string, Failure>)
      reads this
      ensures r.Ok? <==> crypto.privateToAddress(privateKey).Some?
      ensures r.Ok? ==> |r.value| == RawAddressLength
      ensures r.Ok? ==> AddressOf(r.value) == Some(crypto.privateToAddress(privateKey).value)
    {
      match crypto.privateToAddress(privateKey)
      case None => Err(KeyRejected)
      case Some(bytes) =>
        AddressOfBufferToHex(bytes);
        Ok(BufferToHex(bytes))
    }

    /** auth(_apiKey, _privateKey = false), the file's contents given. The
        private key is stored before it is checked, so a rejected call still
        replaces it; the API key changes only once the check passes. */
    method Auth(apiKeyArg: string, privateKeyArg: string, file: Credentials) returns (r: Result<string, Failure>)
      requires Valid()
      modifies this`apiKey, this`privateKey, this`headers
      ensures Valid()
      ensures privateKey == (if IsJsonPath(apiKeyArg) then file.privateKey else privateKeyArg)
      ensures privateKey == "" ==> r == Err(Thrown("Invalid privateKey")) && apiKey == old(apiKey)
      ensures privateKey != "" ==> apiKey == (if IsJsonPath(apiKeyArg) then file.apiKey else apiKeyArg)
      ensures privateKey != "" ==> r == GetAddress()
    {
      var key := apiKeyArg;
      if IsJsonPath(apiKeyArg) {
        key := file.apiKey;
        privateKey := file.privateKey;
      } else {
        privateKey := privateKeyArg;
      }
      if privateKey == "" {
        return Err(Thrown("Invalid privateKey"));
      }
      SetApiKey(key);
      r := GetAddress();
    }

    /** The signing side of the session for a signer address. The actions
        below sign as get_address(), the address of the session's own key. */
    function AccountOf(address: string): Account
      reads this
    {
      Account(crypto, privateKey, apiKey, address)
    }

    /** Signing as get_address(), the signer field of every order, fill and
        withdrawal that is posted packs as the 20 bytes privateToAddress
        derives from the session's key, and the body names that address. */
    lemma SignerIsKeyAddress(address: string, sub: Submission)
      requires GetAddress() == Ok(address)
      requires Coherent(AccountOf(address), sub)
      requires sub.post.body.OrderBody? || sub.post.body.TradeBody? || sub.post.body.WithdrawBody?
      ensures sub.post.body.address == address
      ensures PackField(sub.preimage[SignerSlot(sub.post.body)]) == Ok(crypto.privateToAddress(privateKey).value)
      ensures Meaning(sub.preimage[SignerSlot(sub.post.body)]) == AddressWord(crypto.privateToAddress(privateKey).value)
    {
      var i := SignerSlot(sub.post.body);
      assert sub.preimage[i] == Addr(address);
    }

    /** limit(tokenBuy, amountBuy, tokenSell, amountSell, buyDecimals = 18,
        sellDecimals = 18): tokens and decimals are replaced step by step,
        then the amounts are scaled, signed and posted. */
    method Limit(address: string, nonce: nat, tokenBuy: string, amountBuy: string,
                 tokenSell: string, amountSell: string, buyDecimals: nat := 18, sellDecimals: nat := 18)
      returns (r: Result<Submission, Failure>)
      requires GetAddress() == Ok(address)
      ensures r == LimitOrder(AccountOf(address), contracts, tokenBuy, amountBuy, tokenSell, amountSell,
                              nonce, buyDecimals, sellDecimals)
    {
      var buyToken, buyDec := tokenBuy, buyDecimals;
      if |tokenBuy| != RawAddressLength {
        if tokenBuy !in contracts {
          return Err(Thrown("tokenBuy undefined: " + tokenBuy));
        }
        buyDec := contracts[tokenBuy].decimals;
        buyToken := contracts[tokenBuy].address;
      }
      var sellToken, sellDec := tokenSell, sellDecimals;
      if |tokenSell| != RawAddressLength {
        if tokenSell !in contracts {
          return Err(Thrown("tokenSell undefined: " + buyToken));
        }
        sellDec := contracts[tokenSell].decimals;
        sellToken := contracts[tokenSell].address;
      }
      var bigBuy := Expand(amountBuy, buyDec);
      var bigSell := Expand(amountSell, sellDec);
      r := Submit(AccountOf(address), OrderUrl,
                  OrderBody(buyToken, bigBuy, sellToken, bigSell, address, nonce, OrderExpiry, 0, "", ""));
    }

    /** buy(tokenBuy, amountBuy, price): a limit order selling ETH; `total` is
        the text of price * amountBuy. */
    method Buy(address: string, nonce: nat, tokenBuy: string, amountBuy: string, total: string)
      returns (r: Result<Submission, Failure>)
      requires GetAddress() == Ok(address)
      ensures r == LimitOrder(AccountOf(address), contracts, tokenBuy, amountBuy, "ETH", total, nonce)
    {
      r := Limit(address, nonce, tokenBuy, amountBuy, "ETH", total);
    }

    /** sell(tokenSell, amountSell, price): a limit order buying ETH; `total`
        is the text of price * amountSell. */
    method Sell(address: string, nonce: nat, tokenSell: string, amountSell: string, total: string)
      returns (r: Result<Submission, Failure>)
      requires GetAddress() == Ok(address)
      ensures r == LimitOrder(AccountOf(address), contracts, "ETH", total, tokenSell, amountSell, nonce)
    {
      r := Limit(address, nonce, "ETH", total, tokenSell, amountSell);
    }

    /** rawtrade(orderHash, amount). */
    method RawTrade(address: string, nonce: nat, orderHash: Value, amount: Value)
      returns (r: Result<Submission, Failure>)
      requires GetAddress() == Ok(address)
      ensures r == Actions.RawTrade(AccountOf(address), orderHash, amount, nonce)
    {
      r := Submit(AccountOf(address), TradeUrl, TradeBody(address, orderHash, amount, nonce, 0, "", ""));
    }

    /** trade(orderHash, amount, decimals = 18). */
    method Trade(address: string, nonce: nat, orderHash: Value, amount: string, decimals: nat := 18)
      returns (r: Result<Submission, Failure>)
      requires GetAddress() == Ok(address)
      ensures r == Actions.Trade(AccountOf(address), orderHash, amount, nonce, decimals)
    {
      var bigamount := Expand(amount, decimals);
      r := RawTrade(address, nonce, orderHash, Str(bigamount));
    }

    /** cancel(orderHash). */
    method Cancel(address: string, nonce: nat, orderHash: Value) returns (r: Result<Submission, Failure>)
      requires GetAddress() == Ok(address)
      ensures r == Actions.Cancel(AccountOf(address), orderHash, nonce)
    {
      r := Submit(AccountOf(address), CancelUrl, CancelBody(orderHash, nonce, address, 0, "", ""));
    }

    /** withdraw(symbol, amount). */
    method Withdraw(address: string, nonce: nat, symbol: string, amount: string)
      returns (r: Result<Submission, Failure>)
      requires GetAddress() == Ok(address)
      ensures r == Actions.Withdraw(AccountOf(address), contracts, symbol, amount, nonce)
    {
      if symbol !in contracts {
        return Err(Thrown("withdraw: invalid symbol: " + symbol));
      }
      var decimals := contracts[symbol].decimals;
      var token := contracts[symbol].address;
      var bigamount := Expand(amount, decimals);
      r := Submit(AccountOf(address), WithdrawUrl, WithdrawBody(address, token, nonce, Str(bigamount), 0, "", ""));
    }

    /** cancelAll(side = false) over the open orders returned, side "" for
        false: cancels the selected orders one after another, the k-th cancel
        signed with nonceAt(k); the first cancel that throws ends the loop. */
    method CancelAll(address: string, orders: seq<OpenOrder>, nonceAt: nat -> nat, side: string := "")
      returns (posted: seq<Submission>, failure: Option<Failure>)
      requires GetAddress() == Ok(address)
      ensures |posted| <= |Selected(orders, side)|
      ensures forall k :: 0 <= k < |posted| ==>
        Ok(posted[k]) == Actions.Cancel(AccountOf(address), Selected(orders, side)[k].orderHash, nonceAt(k))
      ensures failure.None? ==> |posted| == |Selected(orders, side)|
      ensures failure.Some? ==>
        && |posted| < |Selected(orders, side)|
        && Actions.Cancel(AccountOf(address), Selected(orders, side)[|posted|].orderHash, nonceAt(|posted|))
           == Err(failure.value)
    {
      var acct := AccountOf(address);
      posted, failure := CancelEach(orders, side, nonceAt, (orderHash: Value, nonce: nat) => Actions.Cancel(acct, orderHash, nonce));
    }

    /** orderBook(market, count = 20): the request it posts. */
    method OrderBookRequest(market: string, count: nat := 20) returns (p: Post)
      ensures p == OrderBookQuery(apiKey, market, count)
    {
      var name := market;
      if '_' !in name {
        name := "ETH_" + name;
      }
      p := Post(OrderBookUrl, RequestHeaders(apiKey), RequestTimeout, BookQuery(name, count));
    }

    /** chomp_buy(market, maxAmount = Infinity), given the book returned for
        the query: the amount of the best ask, lowered to maxAmount when it
        exceeds it, is filled with rawtrade. */
    method ChompBuy(address: string, nonce: nat, market: string, book: OrderBook, maxAmount: Option<Value> := None)
      returns (query: Post, r: Result<Submission, Failure>)
      requires GetAddress() == Ok(address)
      ensures query == OrderBookQuery(apiKey, market, 1)
      ensures r == Actions.ChompBuy(AccountOf(address), book, maxAmount, nonce)
    {
      query := OrderBookRequest(market, 1);
      if |book.asks| == 0 {
        return query, Err(Thrown(NoBestAsk));
      }
      var best := book.asks[0];
      var rawAmount := Str(best.amountBuy);
      match maxAmount {
        case None =>
        case Some(Int(m)) =>
          var n := NumberOf(best.amountBuy);
          if n.Some? && n.value > m {
            rawAmount := maxAmount.value;
          }
        case Some(Str(m)) =>
          if TextGreater(best.amountBuy, m) {
            rawAmount := maxAmount.value;
          }
      }
      assert rawAmount == ClampAmount(best.amountBuy, maxAmount);
      r := Actions.RawTrade(AccountOf(address), best.orderHash, rawAmount, nonce);
    }
  }

  /** The loop of cancelAll, for any cancel operation: the selected orders
      are cancelled in order, the k-th with nonceAt(k), until one fails. */
  method CancelEach(orders: seq<OpenOrder>, side: string, nonceAt: nat -> nat,
                    cancel: (Value, nat) -> Result<Submission, Failure>)
    returns (posted: seq<Submission>, failure: Option<Failure>)
    ensures |posted| <= |Selected(orders, side)|
    ensures forall k :: 0 <= k < |posted| ==> Ok(posted[k]) == cancel(Selected(orders, side)[k].orderHash, nonceAt(k))
    ensures failure.None? ==> |posted| == |Selected(orders, side)|
    ensures failure.Some? ==>
      && |posted| < |Selected(orders, side)|
      && cancel(Selected(orders, side)[|posted|].orderHash, nonceAt(|posted|)) == Err(failure.value)
  {
    posted := [];
    failure := None;
    var i := 0;
    while i < |orders|
      invariant 0 <= i <= |orders|
      invariant |posted| == |Selected(orders[..i], side)|
      invariant forall k :: 0 <= k < |posted| ==>
        Ok(posted[k]) == cancel(Selected(orders[..i], side)[k].orderHash, nonceAt(k))
    {
      var order := orders[i];
      SelectedStep(orders, i, side);
      if side != "" && order.side != side {
        i := i + 1;
        continue;
      }
      var c := cancel(order.orderHash, nonceAt(|posted|));
      if c.Err? {
        SelectedOfPrefix(orders, i + 1, side);
        failure := Some(c.error);
        return;
      }
      posted := posted + [c.value];
      i := i + 1;
    }
    assert orders[..i] == orders;
  }

  /** One more order either joins the selection or is skipped. */
  lemma SelectedStep(orders: seq<OpenOrder>, i: nat, side: string)
    requires i < |orders|
    ensures Selected(orders[..i + 1], side)
      == Selected(orders[..i], side) + (if side != "" && orders[i].side != side then [] else [orders[i]])
  {
    assert orders[..i + 1][..i] == orders[..i];
  }

  /** The orders cancelled for a prefix of the list are a prefix of those
      cancelled for the whole list. */
  lemma {:induction false} SelectedOfPrefix(orders: seq<OpenOrder>, i: nat, side: string)
    requires i <= |orders|
    ensures Selected(orders[..i], side) <= Selected(orders, side)
    decreases |orders|
  {
    if i < |orders| {
      var init := orders[..|orders| - 1];
      assert orders[..i] == init[..i];
      SelectedOfPrefix(init, i, side);
    } else {
      assert orders[..i] == orders;
    }
  }
}
