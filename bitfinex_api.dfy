/**
 * The data-shaping parts of the Bitfinex client (src/apis/bitfinex.api.ts):
 * turning funding-book rows and wallet tuples into records, and the guard,
 * rate conversion and status check around a funding-offer submission.
 * The HTTP requests themselves are not modelled: their replies are inputs.
 */
module BitfinexApi {
  import opened Wrappers
  import opened SymbolUtils

  /** A raw funding-book row `[RATE, PERIOD, COUNT, AMOUNT]`; AMOUNT < 0 is a lender's offer. */
  type BookRow = (real, int, int, real)

  /** A lend-side book level with the rate expressed as daily and yearly percentages. */
  datatype FundingBook = FundingBook(dailyRate: real, yearlyRate: real, period: int, count: int, amount: real)

  /** Rows with a negative amount are offers to lend; the rest are bids to borrow. */
  predicate IsLendRow(row: BookRow)
  {
    row.3 < 0.0
  }

  /** One row as a record: the rate as a percentage per day and per 365-day year. */
  function ToFundingBook(row: BookRow): (b: FundingBook)
    ensures b.dailyRate / 100.0 == row.0
    ensures b.yearlyRate == 365.0 * b.dailyRate
    ensures b.period == row.1 && b.count == row.2 && b.amount == row.3
  {
    FundingBook(row.0 * 100.0, row.0 * (365.0 * 100.0), row.1, row.2, row.3)
  }

  /** The lend-side levels of a book reply, converted, in the reply's order. */
  function GetFundingBooks(rows: seq<BookRow>): (books: seq<FundingBook>)
    ensures |books| <= |rows|
    ensures forall b :: b in books ==> b.amount < 0.0 && b.yearlyRate == 365.0 * b.dailyRate
    ensures forall row :: row in rows && IsLendRow(row) ==> ToFundingBook(row) in books
    ensures forall b :: b in books ==> exists row :: row in rows && IsLendRow(row) && ToFundingBook(row) == b
  {
    if rows == [] then []
    else
      var rest := GetFundingBooks(rows[1..]);
      assert forall row :: row in rows[1..] ==> row in rows;
      if IsLendRow(rows[0]) then [ToFundingBook(rows[0])] + rest else rest
  }

  /** The conversion works row by row, so the output keeps the input order. */
  lemma {:induction false} GetFundingBooksAppend(a: seq<BookRow>, b: seq<BookRow>)
    ensures GetFundingBooks(a + b) == GetFundingBooks(a) + GetFundingBooks(b)
  {
    if a == [] {
      assert a + b == b;
    } else {
      assert (a + b)[1..] == a[1..] + b;
      GetFundingBooksAppend(a[1..], b);
    }
  }

  /** A raw wallet tuple `[WALLET_TYPE, CURRENCY, BALANCE, UNSETTLED_INTEREST, AVAILABLE_BALANCE]`. */
  type WalletRow = (string, string, real, real, real)

  datatype WalletBalance = WalletBalance(
    walletType: string,
    currency: string,
    balance: real,
    unsettledInterest: real,
    availableBalance: real)

  function ToWalletBalance(row: WalletRow): WalletBalance
  {
    WalletBalance(row.0, row.1, row.2, row.3, row.4)
  }

  /** The tuple a wallet record was read from. */
  function ToWalletRow(w: WalletBalance): WalletRow
  {
    (w.walletType, w.currency, w.balance, w.unsettledInterest, w.availableBalance)
  }

  /** Every tuple of the reply as a wallet record, position by position. */
  function GetWalletBalances(rows: seq<WalletRow>): (wallets: seq<WalletBalance>)
    ensures |wallets| == |rows|
    ensures forall i :: 0 <= i < |rows| ==> ToWalletRow(wallets[i]) == rows[i]
  {
    seq(|rows|, i requires 0 <= i < |rows| => ToWalletBalance(rows[i]))
  }

  /** Reading a tuple loses nothing: the projection and its inverse round-trip both ways. */
  lemma WalletRowRoundTrip(row: WalletRow, w: WalletBalance)
    ensures ToWalletRow(ToWalletBalance(row)) == row
    ensures ToWalletBalance(ToWalletRow(w)) == w
  {
  }

  /** Offers below this amount are refused before anything is sent. */
  const MinOfferAmount: real := 150.0

  /** The body of the offer-submission request. */
  datatype OfferRequest = OfferRequest(kind: string, symbol: string, amount: real, rate: real, period: int)

  /** What the submission request produced: a reply whose status field is read, or an exception. */
  datatype SubmitReply = Replied(status: string) | Threw

  /** What a successful submission returns to the caller. */
  datatype OfferResult = OfferResult(symbol: string, amount: real, rate: real, period: int, status: string)

  /** Whether a request was sent, and what the caller receives (`None` for `undefined`). */
  datatype PostOutcome = PostOutcome(sent: Option<OfferRequest>, result: Option<OfferResult>)

  /** The request for a Tether offer; `rate` is a daily percentage and is sent as a fraction. */
  function OfferRequestFor(amount: real, rate: real, period: int): (req: OfferRequest)
    ensures req.rate * 100.0 == rate
    ensures req.kind == "LIMIT" && req.symbol == ConvertFundingSymbol(USDT)
    ensures req.amount == amount && req.period == period
  {
    OfferRequest("LIMIT", ConvertFundingSymbol(USDT), amount, rate / 100.0, period)
  }

  /**
   * Submits a Tether funding offer. Amounts below the minimum are refused
   * without a request; otherwise `reply` is the exchange's answer to the
   * request, and only a `SUCCESS` status yields a result. The result's `rate`
   * is computed as the code has it: the daily percentage times 365 * 100.
   */
  function PostFundingOffer(amount: real, rate: real, period: int, reply: SubmitReply): (out: PostOutcome)
    ensures out.sent.None? <==> amount < MinOfferAmount
    ensures out.sent.Some? ==> out.sent.value == OfferRequestFor(amount, rate, period)
    ensures out.result.Some? <==> out.sent.Some? && reply == Replied("SUCCESS")
    ensures out.result.Some? ==>
      && out.result.value.amount == amount
      && out.result.value.period == period
      && out.result.value.rate == 36500.0 * rate
      && out.result.value.symbol == "fUST"
      && out.result.value.status == "SUCCESS"
  {
    if amount < MinOfferAmount then PostOutcome(None, None)
    else
      var req := OfferRequestFor(amount, rate, period);
      match reply
      case Replied(status) =>
        if status == "SUCCESS" then
          PostOutcome(Some(req), Some(OfferResult(req.symbol, amount, rate * (365.0 * 100.0), period, status)))
        else PostOutcome(Some(req), None)
      case Threw => PostOutcome(Some(req), None)
  }

  /** Sending a level's daily rate submits exactly the raw rate the book quoted. */
  lemma SubmittedRateIsBookRate(row: BookRow, amount: real, period: int)
    ensures OfferRequestFor(amount, ToFundingBook(row).dailyRate, period).rate == row.0
  {
  }

  /**
   * The reported rate multiplies a rate that is already a percentage by 100
   * again: for a level taken from the book it is a hundred times that level's
   * yearly percentage.
   */
  lemma ReportedRateIsHundredfold(row: BookRow, amount: real, period: int)
    requires amount >= MinOfferAmount
    ensures var b := ToFundingBook(row);
      PostFundingOffer(amount, b.dailyRate, period, Replied("SUCCESS")).result.value.rate == 100.0 * b.yearlyRate
  {
  }

  /**
   * `PostFundingOffer` with the reported rate read as evidently intended: the
   * yearly percentage of the daily percentage that was submitted.
   */
  function PostFundingOfferIntended(amount: real, rate: real, period: int, reply: SubmitReply): (out: PostOutcome)
    ensures out.sent == PostFundingOffer(amount, rate, period, reply).sent
    ensures out.result.Some? <==> PostFundingOffer(amount, rate, period, reply).result.Some?
    ensures out.result.Some? ==>
      out.result.value == PostFundingOffer(amount, rate, period, reply).result.value.(rate := 365.0 * rate)
  {
    var out := PostFundingOffer(amount, rate, period, reply);
    if out.result.Some? then out.(result := Some(out.result.value.(rate := 365.0 * rate))) else out
  }

  /** With the intended reading the reported rate is the level's own yearly percentage. */
  lemma IntendedReportedRateIsYearlyRate(row: BookRow, amount: real, period: int)
    requires amount >= MinOfferAmount
    ensures var b := ToFundingBook(row);
      PostFundingOfferIntended(amount, b.dailyRate, period, Replied("SUCCESS")).result.value.rate == b.yearlyRate
  {
  }
}
