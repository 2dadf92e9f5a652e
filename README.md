# Bitfinex funding bot: decision logic in Dafny

A model of the decisions a small Bitfinex lending bot makes on every scheduled run. It:

- reads the wallets and keeps those whose balance is above 150;
- for each Tether (`UST`) wallet with more than 150 free, reads the `fUST` funding book;
- keeps, per lending period, the first lend level with the highest yearly rate;
- targets the 120-day tier only when it yields at least 10 percent a year;
- offers the free balance capped at 300, once per wallet;
- posts a notification when the exchange accepts the offer.

Modules:

- `SymbolUtils` (`symbol_utils.dfy`) covers `src/utils/symbol.utils.ts`.
- `BitfinexApi` (`bitfinex_api.dfy`) covers the data shaping in `src/apis/bitfinex.api.ts`. This is the book rows, the wallet tuples, and the guard, rate conversion and status check of an offer submission.
- `FundingBot` (`funding_bot.dfy`) covers `src/index.ts`:
  - the wallet filter;
  - the group-by-period reduce, as the method `GroupByPeriod`, proved equal to the fold `Grouped`;
  - the 120-day policy;
  - the wallet loop of `main`, as the method `RunCycle`, proved equal to `CycleSpec`.
- `Wrappers` (`wrappers.dfy`) gives `Option` for `null`/`undefined`.

The exchange's replies are parameters:

- The wallet reply is `None` when the request throws.
- Each eligible wallet's book reply is `None` when the request throws. This ends the whole run, as the exception propagates to the scheduler's catch.
- Each wallet's submission reply is a status string, or `Threw`.

A run yields the trace of what the bot sends out: wallet notices, book requests, offer requests and offer notices. Rates and amounts are `real`.

Where the bot's design description and the code disagree, the model follows the code:

- The description has a period-2 rule with priority over period 120. In the code that rule is commented out, so only period 120 is ever selected.
- The description splits a balance into several chunks. The code makes one offer of `min(availableBalance, 300)` per wallet.
- The description filters on `balance >= 150` and `availableBalance >= 150`. The code uses strict `>` for both.
- The description maps `UST` to `USDT` and also funds `USD` wallets. The code handles only `UST` wallets, and `convertFundingSymbol('USDT')` gives `fUST`.

## Model

| member | source | states |
|---|---|---|
| `SymbolUtils.ConvertFundingSymbol` | src/utils/symbol.utils.ts:1-4 | `USDT` gives `fUST` and `USD` gives `fUSD`; every result is `f` plus three letters; only `USDT` is not simply prefixed, so `fUSDT` never occurs |
| `SymbolUtils.ConvertFundingSymbolInjective` | src/utils/symbol.utils.ts:1-4 | distinct currencies get distinct funding symbols |
| `BitfinexApi.ToFundingBook` | src/apis/bitfinex.api.ts:35-40 | the daily rate divided by 100 gives back the raw rate; the yearly rate is 365 times the daily rate; period, count and amount are copied |
| `BitfinexApi.GetFundingBooks` | src/apis/bitfinex.api.ts:33-41 | the output is no longer than the input; it holds only lend levels (amount < 0) with yearly = 365 × daily; every lend row's conversion is in it, and each entry is the conversion of some lend row |
| `BitfinexApi.GetFundingBooksAppend` | src/apis/bitfinex.api.ts:34-41 | the conversion distributes over concatenation, so the input order is kept |
| `BitfinexApi.GetWalletBalances` | src/apis/bitfinex.api.ts:64-70 | one record per tuple, same length and order; each record projects back to its tuple |
| `BitfinexApi.WalletRowRoundTrip` | src/apis/bitfinex.api.ts:64-70 | tuple-to-record and record-to-tuple are inverse both ways |
| `BitfinexApi.OfferRequestFor` | src/apis/bitfinex.api.ts:86-95 | a `LIMIT` request on `fUST` with the given amount and period; the sent rate times 100 is the daily percentage |
| `BitfinexApi.PostFundingOffer` | src/apis/bitfinex.api.ts:79-117 | nothing is sent if and only if the amount is below 150 (150 itself is sent); there is a result if and only if a request was sent and the status is `SUCCESS`, and then it carries the amount, the period, `fUST` and 36500 × rate; another status or a thrown request gives none |
| `BitfinexApi.SubmittedRateIsBookRate` | src/apis/bitfinex.api.ts:87 | submitting a level's daily rate sends exactly the raw rate the book quoted (`/100` undoes `*100`) |
| `BitfinexApi.ReportedRateIsHundredfold` | src/apis/bitfinex.api.ts:106 | for a level from the book, the reported rate is 100 times the level's yearly percentage |
| `BitfinexApi.PostFundingOfferIntended` | src/apis/bitfinex.api.ts:102-109 | same request and same success condition as `PostFundingOffer`; the reported rate is 365 × the daily percentage |
| `BitfinexApi.IntendedReportedRateIsYearlyRate` | src/apis/bitfinex.api.ts:106 | with the intended reading, the reported rate is the level's yearly percentage |
| `FundingBot.CheckWalletAvailableBalance` | src/index.ts:8-14 | a wallet is kept if and only if it is in the input and its balance is above 150 |
| `FundingBot.CheckWalletAvailableBalanceAppend` | src/index.ts:10 | the filter distributes over concatenation, so the input order is kept |
| `FundingBot.BalanceOfExactlyMinimumIsDropped` | src/index.ts:10 | a wallet with balance exactly 150 is dropped |
| `FundingBot.Absorb` | src/index.ts:21-28 | the reducer step adds the level's period as a key and leaves other periods alone; the kept level changes only to a strictly higher yearly rate, so ties keep the earlier level |
| `FundingBot.GroupByPeriod` | src/index.ts:20-30 | the in-place reduce loop builds exactly the left fold `Grouped` |
| `FundingBot.GroupedKeys` | src/index.ts:20-30 | the tier map has a key if and only if some level has that period |
| `FundingBot.GroupedIsFirstBest` | src/index.ts:22-26 | each tier is a level of its period: none of that period is higher, and every earlier one is strictly lower |
| `FundingBot.FirstBestUnique` | src/index.ts:20-30 | at most one level per period meets that description, so the tier map is determined by the book |
| `FundingBot.Round6` | src/index.ts:36 | rounding to six decimals moves the rate by at most half a millionth |
| `FundingBot.SelectFundingRate` | src/index.ts:32-48 | a selection exists if and only if there is a period-120 tier with yearly rate >= 10 (10 itself is accepted); it is always for period 120, carries that tier's amount, and its rate is the tier's daily rate rounded |
| `FundingBot.PickFundingRate` | src/index.ts:16-49 | returns the policy applied to the grouped lend levels of the reply; an empty book gives `null` |
| `FundingBot.PickedRateSome` | src/index.ts:16-40 | when a rate is picked, it comes from the first period-120 lend level with the highest yearly rate, and that rate is at least 10 |
| `FundingBot.PickedRateNone` | src/index.ts:17-48 | nothing is picked if and only if every period-120 lend level yields below 10 a year, including when there is no such level |
| `FundingBot.ExactThresholdIsPicked` | src/index.ts:34 | a lone period-120 level at exactly 10 percent is picked, with its amount |
| `FundingBot.OtherPeriodIsNotPicked` | src/index.ts:42-48 | a level for any other period is never picked, whatever its rate |
| `FundingBot.OfferAmount` | src/index.ts:68 | the offered amount is the free balance or 300, whichever is smaller |
| `FundingBot.ProcessWallet` | src/index.ts:57-89 | the loop body with its `continue` gates yields exactly `WalletStep`'s actions, and aborts if and only if the book request throws |
| `FundingBot.RunCycle` | src/index.ts:51-91 | a thrown wallet request sends nothing; otherwise the run's trace is the loop over the eligible wallets, `CycleSpec` |
| `FundingBot.CycleSpecAbortedPrefix` | src/index.ts:97-101 | once a wallet's book request throws, no later wallet is processed |
| `FundingBot.WalletStepSubmitsOnce` | src/index.ts:57-75 | a wallet leads to at most one offer request, and to one if and only if free > 150, currency `UST`, a rate was picked and free <= abs(tier amount) |
| `FundingBot.WalletStepRequest` | src/index.ts:66-75 | a wallet's request offers min(free, 300), which is then above 150, for period 120 on `fUST` at the picked rate |
| `FundingBot.WalletStepRequests` | src/index.ts:57-75 | a wallet's requests are exactly one request for min(free, 300) at the picked rate and period when it passes the gates, and none otherwise |
| `FundingBot.WalletStepNotifies` | src/index.ts:77-88 | an offer notice is sent if and only if the gates passed and the exchange answered `SUCCESS` |
| `FundingBot.CycleSpecSends` | src/index.ts:56-90 | over a run there are no more offer requests than wallets; each is in (150, 300] for period 120 on `fUST`; only wallets with free balance above 150 are announced |
| `FundingBot.CycleAnnouncesEligibleWallets` | src/index.ts:52-61 | every announced wallet came from the wallet reply, with total and free balances above 150 |

## Findings

| source | as written | input that shows it | evidently intended | confidence | as-written member | corrected member |
|---|---|---|---|---|---|---|
| src/apis/bitfinex.api.ts:106 | the result's `rate` is `rate × 365 × 100`, but `rate` is already a daily percentage (the request divides it by 100) | a book rate of 0.0003 (daily 0.03 %, yearly 10.95 %) reports 1095; `ReportedRateIsHundredfold` shows this is 100 × the yearly percentage for every level | `rate × 365`, the yearly percentage, as `IntendedReportedRateIsYearlyRate` proves | medium, not executed | `BitfinexApi.PostFundingOffer` | `BitfinexApi.PostFundingOfferIntended` |

The caller never reads the reported rate: the offer notice prints the picked rate and the result's period. So the wallet loop, which uses `PostFundingOfferIntended`, sends the same trace under either reading.

## Left out

- HTTP transport is not modelled: axios, the base URLs, request signing, and the `len = 25` book parameter (src/lib/axios.lib.ts is not part of this model). Replies are parameters.
- Discord delivery is not modelled: the webhook post, its URL lookup, and the message text. Notices are recorded as trace actions. A webhook post that throws, which would also end the run, is not modelled.
- Scheduling and set-up are not modelled: the cron schedule, dotenv and the environment typings. The top-level catch appears only as the `aborted` flag of a run.
- Console logging is not modelled, and neither is async sequencing. The run is sequential.
- Floating point and BigNumber are not modelled: rates and amounts are exact reals, so the double rounding of `item[0] * 100` and of `Number(...)` is not captured.
- Round6: states only that the result is within half a millionth of its input. It rounds halves away from zero on exact reals. JavaScript's `toFixed` rounds the binary double, which can differ on halves.
- PostFundingOffer: the `symbol` parameter is fixed to `USDT`, the only value its type admits.
- GetWalletBalances: `walletType` stays a string, because the code does not check it against its three declared values.
- GetFundingBooks: a thrown request is modelled by the caller, as a `None` book reply, not inside the function.
- Each book request and each submission gets its own reply, indexed by the wallet's position among the eligible wallets. The model does not relate replies across wallets.
