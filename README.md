# idex.js signed actions, in Dafny

This project models the signed-action core of `idex.js`, the Node client for
the IDEX exchange API. A limit order, a fill (`rawtrade`/`trade`), a cancel or
a withdrawal is turned into three things:

- an ordered, typed field list, which `soliditySha3` packs and hashes;
- a signature over that hash, in the personal-message envelope;
- a POST request whose JSON body carries the same values, plus `v`, `r` and `s`.

The model also covers the helpers around the core:

- `expand`, the decimal scaler, with the `toFixed(0)` rounding of
  bignumber.js;
- the currency directory (`contracts`) with `get_decimals`, `get_amount`,
  the resolution of tokens in `limit` and `withdraw`, and the 42-character
  raw-address bypass;
- the `ETH_` prefix that `spread` and `orderBook` add to market names;
- the `cancelAll` filter loop;
- the `chomp_buy` clamp;
- `obj_to_array`.

Modules, one per file:

- `Wrappers`: `Option` and `Result`.
- `Numerals`: decimal and hex digit strings, and powers.
- `Buffers`: bytes, `bufferToHex`/`toBuffer`, and big-endian words.
- `Scaler`: the BigNumber grammar, exact decimal arithmetic, half-up rounding, and `expand`.
- `SolidityPack`: what `soliditySha3` packs. An address is 20 bytes and a uint256 is 32 bytes. Its number reading (web3-utils `_parseNumber` over bn.js: hex-strict text in base 16, other text in base 10, a Number only below 2^53) and `isAddress` are modelled, along with the unpacking of a packed preimage.
- `Signer`: Keccak-256, `ecsign` and `privateToAddress` stay uninterpreted, as function-typed fields of a `Crypto` value. `hashPersonalMessage` and the mapping of `v`/`r`/`s` are modelled exactly on top of them.
- `Directory`: the currency map, the symbol lookups, and market names.
- `Actions`: the preimage schemas and the request bodies. It holds the four actions as functions of an `Account` (library calls, private key, API key, signer address), plus the order-book query, `spread`, the `cancelAll` filter and `chomp_buy`.
- `Client`: the module-level state of `idex.js` (`apiKey`, `privateKey`, `headers`, `contracts`) as the class `Session`. Its methods follow the source step by step and are proved equal to the `Actions` functions.
- `JsObjects`: `obj_to_array`, over objects that are changed in place.

Inputs that the source fetches or reads are passed in as parameters:

- the nonce answered by `returnNextNonce`;
- the signer address. `idex.js` reads it from a variable `address` that it never declares; the `Session` actions take it as a parameter and require it to be `get_address()`, the address of the session's own key (see "## Findings");
- the currency map;
- the order book;
- the open orders;
- the credentials file's contents.

The model follows the code, including five points where the code departs from the client's stated design:

- `expand` of text that bignumber.js cannot read returns the string `"NaN"`. It does not fail.
- The raw-address bypass in `limit` tests only that the token string is 42 characters long. It does not test for 40 hex digits.
- `buy` and `sell` look "ETH" up in the directory like any other symbol, so ETH must be a key of `contracts`.
- `limit`'s error for an unknown sell token names the buy token, which by then holds its directory address (idex.js:164). `Actions.LimitOrder` and `Client.Session.Limit` throw that message as written; `Directory.OrderTokens` is the corrected resolution, and "## Findings" relates the two.
- The signed actions read an `address` that the module never declares (idex.js:71, 168, 252, 262, 432). The client's design signs with the key's own address, and the `Session` methods model that; `Actions.SignerIsHashedAsGiven` shows what the code does with any other value.

## Model

| member | source | states |
|---|---|---|
| Scaler.ExpandIsRoundedScaledAmount | idex.js:46-49 | expand prints whole-number text equal to amount × 10^decimals rounded half away from zero, within half a unit of the exact product; unreadable text prints "NaN" |
| Scaler.ExpandIsExact | idex.js:46-49 | when the scaled amount is whole, expand prints exactly coefficient × 10^(exponent + decimals): nothing is lost |
| Scaler.ParseRender | idex.js:47 | the BigNumber grammar reads every decimal written in exponential form back as that decimal |
| Scaler.Rounded | idex.js:48 | toFixed(0) rounding: within half a unit of the exact value, ties away from zero, sign kept |
| Scaler.RoundHalfUp | idex.js:48 | integer division rounded half away from zero: distance at most half the divisor, ties move away from zero |
| Scaler.Expand | idex.js:46-49 | expand prints "NaN" exactly when the amount is outside bignumber.js's fast-path grammar |
| Scaler.ParseBigNumber | idex.js:47 | empty text and a lone "-" read as NaN; a negative value comes only from text with a leading "-", and such text never reads as a positive value |
| Scaler.ToFixed0Value | idex.js:48 | toFixed(0) prints whole-number text, an optional "-" and digits, whose value is the half-up rounded decimal |
| Scaler.ParseExponentOfDigits | idex.js:47 | the exponent after the marker reads as its digits' number when written "+d" or "d", and as its negation when written "-d" |
| Scaler.MantissaWithPoint | idex.js:47 | digits w, a point and digits f read as the numeral w followed by f, with as many places after the point as f has digits |
| Scaler.ParseFixed | idex.js:47 | an amount written with a point, "-"-signed or not, reads exactly as ±(w followed by f) × 10^-(length of f): "0.5" is 5 × 10^-1 and "-2.25" is -225 × 10^-2 |
| Scaler.ParseFixedWithExponent | idex.js:47 | the same text followed by "e" and an exponent reads as the same digits × 10^(exponent − length of f), so "1.5e+3" is 15 × 10^2 |
| Scaler.NegatedText | idex.js:47 | a "-" in front of text with no sign of its own reads as the negation of what that text reads as |
| Scaler.ParseWhole | idex.js:47 | an amount written as digits, "-"-signed or not, reads as ± their number, with exponent 0 |
| Scaler.ExpandOfFixed | idex.js:46-49 | an amount with at most `decimals` places after the point expands to whole-number text of exactly ±(w followed by f) × 10^(decimals − length of f): nothing is rounded |
| Numerals.DecToNatConcat | idex.js:47 | two digit strings written one after the other read as the first × 10^(length of the second) + the second |
| Directory.GetDecimals | idex.js:146-149 | ok exactly when the symbol is in the directory, with its decimals; otherwise throws "get_decimals undefined: " + symbol |
| Directory.GetAmount | idex.js:152-154 | get_amount throws get_decimals' error exactly for an unknown symbol, and otherwise is expand by the symbol's decimals |
| Directory.ResolveToken | idex.js:158-166 | a 42-character token is kept with the caller's decimals; any other token resolves exactly when it is a key of the directory, to its address and decimals |
| Directory.NormaliseMarket | idex.js:53 | the normalised market always holds "_", and a market that holds one is unchanged |
| Directory.GetAmountIsScaledBySymbolDecimals | idex.js:152-154 | get_amount fails exactly on an unknown symbol and otherwise equals expand(amount, get_decimals(symbol)), the rounded scaled amount |
| Directory.ResolveTokenAgreesWithDirectory | idex.js:158-167 | a 42-character token is used verbatim with the caller's decimals; any other token resolves exactly when get_decimals does, to its directory address and decimals |
| Directory.OrderTokensAsWritten | idex.js:157-167 | limit's resolution as written succeeds exactly when both tokens resolve, to the two resolved tokens, and checks the buy token first, throwing "tokenBuy undefined: " + tokenBuy |
| Directory.OrderTokensReportsTheFailingToken | idex.js:157-167 | the corrected resolution of limit's tokens: it succeeds exactly when both tokens resolve, checks the buy token first, and each throw names the token that failed |
| Directory.AsWrittenDiffersOnlyInSellMessage | idex.js:157-167 | limit's resolution as written and the corrected one accept the same tokens with the same results and the same tokenBuy error; as written, the tokenSell error names the resolved buy token's address |
| Directory.SellErrorNamesTheBuyAddress | idex.js:164 | with ETH in the directory, an unknown sell symbol yields a message naming ETH's address as written, where the corrected message names the symbol |
| Directory.NormaliseMarketSpec | idex.js:53 | "ETH_" is prefixed exactly when the market has no "_", names with "_" are unchanged, the result has "_", and normalising is idempotent |
| Actions.OrderFields | idex.js:173-215 | the order preimage follows the 8-field schema address, address, uint256, address, uint256, uint256, uint256, address, opening with the exchange contract and closing with nonce and signer |
| Actions.TradeFields | idex.js:78-95 | the fill preimage follows the schema uint256 orderHash, uint256 amount, address signer, uint256 nonce |
| Actions.CancelFields | idex.js:268-277 | the cancel preimage is two uint256 fields, orderHash then nonce |
| Actions.WithdrawFields | idex.js:433-454 | the withdraw preimage follows the schema exchange contract, token, uint256 amount, signer, nonce |
| Actions.Submit | idex.js:96-124 | a signed action fails exactly when signing fails; otherwise the body rebuilds the hashed preimage, carries the signature's v, r, s, the signer, the API-key headers and the 10 s timeout |
| Actions.LimitOrder | idex.js:157-248 | a limit order throws the resolution error as idex.js writes it; with both tokens resolved it fails exactly when signing the order preimage fails, and otherwise posts to /order a coherent body with the resolved tokens, both amounts expanded by the resolved decimals, the nonce and expires 100000 |
| Actions.RawTrade | idex.js:70-125 | a fill posts to /trade a coherent body whose preimage is the fill schema of orderHash, amount, signer and nonce |
| Actions.Trade | idex.js:64-67 | trade fails exactly when signing the fill of the expanded amount fails, and otherwise posts that fill to /trade |
| Actions.Cancel | idex.js:261-307 | a cancel posts to /cancel a coherent body whose preimage is orderHash then nonce |
| Actions.Withdraw | idex.js:427-484 | an unknown symbol throws "withdraw: invalid symbol: " + symbol; for a known symbol it fails exactly when signing the withdraw preimage fails, and otherwise posts to /withdraw a coherent body over the token's address and the amount expanded by its decimals |
| Actions.ExpandedAmountPacks | idex.js:192-201 | the text expand prints is read by soliditySha3 as the rounded scaled amount: it packs exactly when that number is in [0, 2^256), and "NaN" never packs |
| Actions.UintOfNumber | idex.js:207-210 | a Number field such as the nonce packs exactly when it is below 2^53, and then as itself |
| Actions.LimitSignsScaledAmounts | idex.js:169-215 | a signed limit order hashes, as numbers, each amount times 10^decimals of its resolved token, rounded, and both resolved tokens are valid addresses |
| Actions.TradeSignsScaledAmount | idex.js:64-67 | trade is rawtrade of expand(amount, decimals): the number hashed is the rounded scaled amount |
| Actions.WithdrawSignsScaledAmount | idex.js:428-454 | a signed withdrawal hashes the token's address and the amount scaled by the token's own decimals |
| Actions.FieldChangesPack | idex.js:78-95 | two preimages of one schema that differ in one field's address or number pack to different bytes |
| Actions.OrderNonceIsSigned | idex.js:207-210 | two orders that differ only in nonce hash different bytes |
| Actions.SignerIsHashedAsGiven | idex.js:71-95 | as written, the signer field of a signed order, fill or withdrawal is whatever `address` holds; when it names other bytes than the key's address, the bytes signed differ from those the key's address would give |
| Actions.CancelFieldOrderMatters | idex.js:268-277 | swapping orderHash and nonce changes the bytes hashed unless the two numbers are equal |
| Actions.OrderBookQuery | idex.js:329-348 | the returnOrderBook request carries the normalised market, which holds "_", and the count, 20 by default |
| Actions.Spread | idex.js:52-61 | spread queries one order per side of the normalised market and returns the top ask and bid prices, or false when the request fails or a side is empty |
| Actions.Selected | idex.js:253-254 | the filter keeps no more orders than it is given, and with a side only orders of that side |
| Actions.SelectedSpec | idex.js:254 | with no side every open order is cancelled in its listed order; with a side, exactly the orders of that type |
| Actions.ClampAmount | idex.js:493 | the fill amount is the book's text or the cap itself: with no cap (Infinity) the text; under a Number cap, the cap exactly when the text reads as a number above it; under a text cap, the cap exactly when the book's text is greater as text |
| Actions.ClampIsMinimum | idex.js:493 | for a numeric amount the fill amount reads as the smaller of the amount and a Number cap (a cap at or above 2^53 does not pack), or of the amount and a text cap of as many digits; with no cap, or non-numeric text under a Number cap, the text passes unchanged |
| Actions.TextGreaterOfDigits | idex.js:493 | two numerals of the same length compare as text (JavaScript's string `>`) exactly as they compare as numbers, in both directions |
| Actions.TextCapIsNotNumeric | idex.js:493 | a text cap is compared as text, not as a number: the amount "10" is not capped at "5" although 10 > 5 |
| Actions.ChompBuy | idex.js:488-496 | chomp_buy throws on an empty ask side and otherwise is rawtrade of the best ask's order hash and the clamped amount |
| SolidityPack.Pack | idex.js:182-215 | packing succeeds exactly when every field packs, and its length is the sum of the field widths (20 bytes for an address, 32 for a uint256) |
| SolidityPack.UintOf | idex.js:192-209 | a uint256 value packs exactly when soliditySha3's number reading accepts it as a number in [0, 2^256), and packs as that number |
| SolidityPack.UnpackPack | idex.js:182-215 | from the packed bytes and the field types alone every address and number of the preimage is read back |
| SolidityPack.PackInjective | idex.js:182-215 | two preimages of the same schema that pack to the same bytes carry the same addresses and numbers |
| SolidityPack.NumberOfNumeral | idex.js:192-201 | soliditySha3 reads a signed decimal numeral, the text expand prints, as the number it denotes |
| SolidityPack.AddressOfBufferToHex | idex.js:520 | "0x" and the hex of 20 bytes is a valid address that packs as those bytes |
| Buffers.ToBufferOfBufferToHex | idex.js:96 | toBuffer of the hex digest soliditySha3 prints recovers the digest bytes |
| Buffers.BigEndianRoundTrip | idex.js:192-209 | a number below 256^width written as width big-endian bytes reads back as itself |
| Signer.SoliditySha3 | idex.js:182-215 | the raw hash is the hex of Keccak-256 over the packed preimage, and fails exactly when packing fails |
| Signer.EnvelopeOfDigest | idex.js:216 | a 32-byte digest is salted under the 28-byte header 0x19 "Ethereum Signed Message:\n32" |
| Signer.MapSignature | idex.js:97-100 | v is kept as it is; r and s become 66-character hex strings that toBuffer reads back as the signature's bytes |
| Signer.Sign | idex.js:216-220 | signing fails exactly when packing fails or ecsign rejects the key; otherwise the raw hash, the salted hash and the mapped signature of ecsign over the salted hash |
| Client.Session.constructor | idex.js:17 | the session starts with empty keys, an empty directory and headers carrying the empty API key |
| Client.Session.Init | idex.js:128-130 | init replaces the whole directory with what returnCurrencies answered and returns it |
| Client.Session.SetApiKey | idex.js:513-516 | set_apikey stores the key and rebuilds the headers around it |
| Client.Session.GetAddress | idex.js:519-521 | get_address is "0x" and the hex of the key's 20-byte address: 42 characters, a valid address for packing, and a raw address for limit |
| Client.Session.Auth | idex.js:524-536 | auth stores the private key from the file or the argument before it checks it; a falsy key throws "Invalid privateKey" and leaves the API key; otherwise the API key is set and the address returned |
| Client.Session.SignerIsKeyAddress | idex.js:519-521 | signing as get_address(), the signer field of every posted order, fill and withdrawal packs as the 20 bytes privateToAddress derives from the session's key, and the body names that address |
| Client.Session.Limit | idex.js:157-248 | signing as get_address(), limit, reassigning tokens and decimals step by step and throwing the tokenSell message with the reassigned tokenBuy, is LimitOrder |
| Client.Session.Buy | idex.js:133-137 | signing as get_address(), buy is a limit order buying the token with ETH as the sell token |
| Client.Session.Sell | idex.js:140-143 | signing as get_address(), sell is a limit order selling the token with ETH as the buy token |
| Client.Session.RawTrade | idex.js:70-125 | signing as get_address(), rawtrade is Actions.RawTrade with the session's keys |
| Client.Session.Trade | idex.js:64-67 | signing as get_address(), trade is Actions.Trade, rawtrade of the expanded amount |
| Client.Session.Cancel | idex.js:261-307 | signing as get_address(), cancel is Actions.Cancel with the session's keys |
| Client.Session.Withdraw | idex.js:427-484 | signing as get_address(), withdraw is Actions.Withdraw over the session's directory |
| Client.Session.CancelAll | idex.js:251-258 | signing as get_address(), cancelAll cancels the selected orders in order, the k-th with the k-th nonce, and stops at the first cancel that throws, reporting its error |
| Client.CancelEach | idex.js:253-257 | the loop issues one cancel per selected order in list order until one fails; no order is skipped or repeated |
| Client.SelectedOfPrefix | idex.js:253-257 | the orders cancelled for a prefix of the list are a prefix of those cancelled for the whole list |
| Client.Session.OrderBookRequest | idex.js:329-348 | orderBook posts the returnOrderBook query for the normalised market |
| Client.Session.ChompBuy | idex.js:488-496 | signing as get_address(), chomp_buy queries one order of the book and fills its best ask with the amount clamped by a Number cap or, compared as text, by a text cap, as Actions.ChompBuy |
| JsObjects.ObjToArray | idex.js:627-635 | the output is the input's values in order, the same objects changed in place; each gets symbol set to the last key holding it and keeps its other properties |
| JsObjects.LastKeyOfDistinct | idex.js:627-635 | when no object is the value of two keys, each output object's symbol is the key at its position |

## Left out

- HTTP traffic (`request`, `axios`), promises and `console` output are left out. The nonce, the currency map, the order book and the open orders are inputs; a request is modelled as the `Post` value it would send; a rejected request is not modelled.
- node-idex-api.js is not part of this model: it holds thin request wrappers and a WebSocket subscription.
- Keccak-256, secp256k1 `ecsign` and `privateToAddress` are uninterpreted. `toBuffer(privateKey)` happens inside them.
- The read-only queries are left out because they are plain I/O: `currencies`, `get_nonce`, `ticker`, `return24Volume`, `get_balances`, `get_open_orders`, `get_trade_history`, `get_contract_eventlog` and `api`.
- `get_random` is left out because it is floating-point randomness.
- `chomp_sell` is left out; it is a clamp on `Number` floats that is not part of the modelled core.
- Client.Session.Buy: the total `price * amount` is a float product in JavaScript. It is taken as the text of that number.
- Client.Session.Sell: the total is taken the same way as in Buy.
- Client.Session.Limit: the Session actions sign as get_address(). As written, `idex.js` reads an undeclared `address`: with no global of that name the read throws a ReferenceError, and that error is not modelled. Buy, Sell, RawTrade, Trade, Cancel, Withdraw, CancelAll and ChompBuy are modelled the same way.
- Client.Session.Auth: the credentials file is given as its parsed contents. `fs.readFileSync` and `JSON.parse` failures are not modelled, and the warning for an empty API key is output only.
- Scaler.Expand: only bignumber.js's fast-path grammar is read. Text that only its fallback parser accepts (a leading "+", surrounding whitespace, hex such as "0x10", "Infinity") prints "NaN" here, where bignumber.js reads a number.
- Scaler.ExpandIsRoundedScaledAmount: three BigNumber inputs are not covered:
  - the fallback grammar (a leading "+", whitespace, hex, "Infinity") is read as NaN;
  - exponents beyond BigNumber's limits are not modelled;
  - `10 ** decimals` is taken as exact, whereas in JavaScript it is a float and is inexact above 10^22.
- SolidityPack.UintOf: text holding a character that is not a digit of its base is rejected, as bn.js 5 does; bn.js 4 instead reads such a character as a digit value, so there "NaN" would pack as a number. bn.js's removal of whitespace and Numbers that are not integers are not modelled.
- SolidityPack.AddressOf: the mixed-case checksum check of `isAddress` is not modelled. Every 40-hex-digit address is accepted.
- Signer.SoliditySha3: the `null` that web3 returns for the hash of an empty input is not modelled, since no preimage here is empty.
- Buffers.ToBufferOfBufferToHex: `toBuffer` is modelled only for 0x-hex strings, which are the only strings the core passes to it.
- Actions.ClampIsMinimum: `Number(text)` is modelled only for plain decimal digits; other text counts as NaN. JavaScript compares as floats, which lose precision above 2^53; the model compares exact integers. Under a text cap the minimum is stated only for two numerals of the same length; for other lengths Actions.ClampAmount states the text comparison that decides.
- Actions.ChompBuy: the TypeError text for an empty ask side is the engine's, not the client's. The clamp inherits the limits of Actions.ClampAmount.
- Actions.ClampAmount: a cap is a whole Number or a string. A Number cap that is not an integer (1.5) is not modelled. `Number(text)` is read only for plain decimal digits, and other text counts as NaN. The comparison `Number(text) > maxAmount` is made on exact integers, where JavaScript compares floats that lose precision above 2^53. A text cap is compared as text, as JavaScript does, but character by character on Unicode scalar values rather than UTF-16 code units; the two orders differ only outside the Basic Multilingual Plane, never on digits.
- Client.Session.ChompBuy: the cap is a whole Number or a string, with the limits of Actions.ClampAmount. A non-integer Number cap is not modelled.
- Directory.GetDecimals: inherited `Object.prototype` keys of the `contracts` object, such as "toString", are not modelled as present.
- Directory.ResolveTokenAgreesWithDirectory: lengths are counted in characters, not JavaScript's UTF-16 code units.
- JsObjects.ObjToArray: every property value is taken to be an object. Setting `symbol` on a primitive value, which JavaScript ignores, is not modelled.

## Findings

| source | as written | input that shows it | evidently intended | confidence | as-written member | corrected member |
|---|---|---|---|---|---|---|
| idex.js:164 | the tokenSell error interpolates `tokenBuy`, which by then holds the buy token's address | directory {"ETH": zero address, 18 decimals}; limit("ETH", 1, "XYZ", 1) throws "tokenSell undefined: 0x0000000000000000000000000000000000000000" | the message names the unknown sell token: "tokenSell undefined: XYZ" | not executed | Directory.OrderTokensAsWritten | Directory.OrderTokens |
| idex.js:71 | rawtrade, limit (idex.js:168), cancelAll (idex.js:252), cancel (idex.js:262) and withdraw (idex.js:432) read a variable `address` that the module never declares; it is not set from the private key | no global `address`: every signed action throws a ReferenceError; a global `address` holding another account's address: withdraw signs and posts that account as the signer, with this session's key | every action signs as get_address(), the address of the session's own key | not executed | Actions.SignerIsHashedAsGiven | Client.Session.SignerIsKeyAddress |
