# Token screening of the pump.fun trading bot, in Dafny

The bot polls a launch platform for newly created tokens every ten minutes and keeps
only the ones that pass a screening rule. `filterTokens` in `src/bot.js` applies
that rule and keeps the passing tokens in their original order. A token passes
when all three of these hold:

- its market cap is strictly between 10,000 and 20,000;
- every wallet in its declared wallet distribution holds strictly less than 3 percent;
- its volume is strictly greater than 10.

This project models that rule and the filter built on it, and proves what they promise.

- `tokens.dfy` (module `Tokens`): the `Wallet` and `Token` records and the rule's
  constants. `AllWalletsBelowCap` models `walletDistribution.every(...)`. `Eligible`
  combines the three conditions. Lemmas cover the boundary cases.
- `screening.dfy` (module `Screening`): `FilterTokens` is the order-preserving
  filter. `ScreenFetched` covers what `filterTokens` does with the fetch result,
  including the failed-fetch path. Lemmas prove the list laws: soundness and
  completeness, subsequence, concatenation, idempotence and occurrence counts.
- `selection.dfy` (module `Selection`): a second, independent description of the
  filter. The output is the input read at a strictly increasing list of positions,
  and those positions are exactly the eligible ones. `KeptPositions` computes those
  positions in one loop. `SelectionIsFilter` proves that every such selection
  equals `FilterTokens`.

Market cap, volume and wallet percentages are JavaScript numbers. The rule only
compares them with constants and never does arithmetic on them, so they are
modelled as exact `real`s.

## Model

| member | source | states |
|---|---|---|
| Tokens.AllWalletsBelowCap | src/bot.js:26 | the short-circuiting walk over the distribution is true exactly when every wallet's percent is below 3; it is true on an empty distribution |
| Tokens.EligibleIff | src/bot.js:25-27 | a token passes if and only if 10000 < marketCap < 20000, every wallet's percent is < 3, and volume > 10 |
| Tokens.MarketCapBoundsExcluded | src/bot.js:25 | a market cap of exactly 10000 or exactly 20000 rejects the token |
| Tokens.MarketCapJustInsidePasses | src/bot.js:25 | at 10001 or 19999 the market-cap condition holds, so only the wallet and volume conditions decide |
| Tokens.ConcentratedWalletRejects | src/bot.js:26 | one wallet at 3 percent or more, including exactly 3, rejects the token |
| Tokens.EmptyDistributionPasses | src/bot.js:26 | an empty wallet distribution does not reject: the verdict rests on market cap and volume alone |
| Tokens.LowVolumeRejects | src/bot.js:27 | a volume of 10 or less rejects the token |
| Tokens.ExampleTokenPasses | src/bot.js:21-28 | a token with market cap 15000, volume 50 and wallets of 1 and 2 percent passes |
| Screening.FilterTokens | src/bot.js:21-28 | every kept token passes the rule; a token is in the output if and only if it is in the input and passes; the output is no longer than the input |
| Screening.ScreenFetched | src/bot.js:12-21 | an undefined fetch result (a logged request error, or a response without a `tokens` field) makes the screening throw; a delivered list yields the order-preserving filter of it: exactly its passing tokens, as a subsequence of the input |
| Screening.FilterIsSubsequence | src/bot.js:21-30 | the output is an order-preserving subsequence of the input: nothing is added, changed or reordered |
| Screening.FilterConcat | src/bot.js:21 | filtering a + b gives the filtered a followed by the filtered b |
| Screening.FilterIdempotent | src/bot.js:21-28 | filtering an already filtered list returns it unchanged |
| Screening.FilterKeepsAllIffAllEligible | src/bot.js:21-28 | the filter returns its input unchanged if and only if every token in it passes |
| Screening.FilterCounts | src/bot.js:21-28 | a passing token occurs in the output as often as in the input; a failing token does not occur at all |
| Selection.KeptPositions | src/bot.js:21-30 | one left-to-right pass returns strictly increasing positions that are exactly the eligible ones, and reading the input at them gives the filter's output |
| Selection.SelectionIsFilter | src/bot.js:21-28 | any strictly increasing list of exactly the eligible positions reads back to the filter's output, so the output is the unique order-preserving selection of the passing tokens |

## Left out

- `getNewTokens` (src/bot.js:5-16) performs an authenticated HTTP GET through axios. The model receives its result as a parameter of `ScreenFetched`: either the token list or `undefined`. The result is `undefined` after a logged request error, or when the response has no `tokens` field.
- `tradeTokens` (src/bot.js:34-40) only logs each kept token, and its trading logic is a TODO. It has no behaviour to model.
- The ten-minute `setInterval` schedule (src/bot.js:43) and the `dotenv` loading (src/bot.js:1) are timers and environment I/O.
- JavaScript number semantics are not modelled. This covers NaN, infinities and the rounding of doubles. Values are exact reals, which is faithful because the rule only compares.
- Malformed records are not modelled: the model's `Token` always carries all three fields, and its wallets are never `null`. In the bot, malformed records behave as follows.
  - A missing `marketCap` or `volume` compares false. Only that one token is rejected.
  - A missing `walletDistribution` is reached only when the market cap is inside the band, because `&&` short-circuits (src/bot.js:25-26). An out-of-band token without a distribution is simply rejected.
  - An in-band token without a distribution makes `.every` throw. That TypeError aborts the whole `filterTokens` call, so the entire batch is lost.
  - The same whole-batch TypeError follows from a `null` token at the destructuring on src/bot.js:22, and from a `null` wallet at `wallet.percent` on src/bot.js:26 when that wallet is reached.
- A fetched `tokens` value that is defined but not an array makes `.filter` throw at src/bot.js:21. `Fetch` only distinguishes a token list from `undefined`.
- `src/bot.js` has no code for holder resolution, holder-concentration or social-link checks, trade submission or peak monitoring, so none of them is modelled.
