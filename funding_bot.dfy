/**
 * The bot's decision cycle (src/index.ts): which wallets are eligible, which
 * funding tier is targeted, and which offer is sent for each wallet.
 * Replies of the exchange are inputs; the cycle yields the trace of what the
 * bot sends out.
 */
module FundingBot {
  import opened Wrappers
  import opened SymbolUtils
  import opened BitfinexApi

  /** Wallets and free balances at or below this amount are left alone. */
  const MinBalance: real := 150.0
  /** No single offer is larger than this. */
  const MaxOfferAmount: real := 300.0
  /** The only lending period the policy targets. */
  const TargetPeriod: int := 120
  /** The lowest yearly percentage accepted for the target period. */
  const MinYearlyRate: real := 10.0

  function Abs(x: real): (r: real)
    ensures r >= 0.0 && (r == x || r == -x)
  {
    if x < 0.0 then -x else x
  }

  // ---------------------------------------------------------------- wallets

  /** The wallets whose total balance is above the minimum, in their original order. */
  function CheckWalletAvailableBalance(wallets: seq<WalletBalance>): (eligible: seq<WalletBalance>)
    ensures |eligible| <= |wallets|
    ensures forall w :: w in eligible <==> w in wallets && w.balance > MinBalance
  {
    if wallets == [] then []
    else
      var rest := CheckWalletAvailableBalance(wallets[1..]);
      assert wallets == [wallets[0]] + wallets[1..];
      if wallets[0].balance > MinBalance then [wallets[0]] + rest else rest
  }

  /** The filter decides wallet by wallet, so it keeps the input order. */
  lemma {:induction false} CheckWalletAvailableBalanceAppend(a: seq<WalletBalance>, b: seq<WalletBalance>)
    ensures CheckWalletAvailableBalance(a + b) == CheckWalletAvailableBalance(a) + CheckWalletAvailableBalance(b)
  {
    if a == [] {
      assert a + b == b;
    } else {
      assert (a + b)[1..] == a[1..] + b;
      CheckWalletAvailableBalanceAppend(a[1..], b);
    }
  }

  // ---------------------------------------------------- tiers and selection

  /** One step of the reduce: a level replaces the kept one only with a strictly higher yearly rate. */
  function Absorb(acc: map<int, FundingBook>, offer: FundingBook): (m: map<int, FundingBook>)
    ensures m.Keys == acc.Keys + {offer.period}
    ensures forall p :: p in acc && p != offer.period ==> m[p] == acc[p]
    ensures offer.period in acc ==>
      (m[offer.period] == offer <==> offer.yearlyRate > acc[offer.period].yearlyRate) || m[offer.period] == acc[offer.period]
    ensures offer.period in acc && m[offer.period] != offer ==> m[offer.period] == acc[offer.period]
    ensures offer.period !in acc ==> m[offer.period] == offer
    ensures m[offer.period].yearlyRate >= offer.yearlyRate
  {
    if offer.period !in acc then acc[offer.period := offer]
    else if offer.yearlyRate > acc[offer.period].yearlyRate then acc[offer.period := offer]
    else acc
  }

  /** The tier map the reduce builds from `books`, folded from the left. */
  function Grouped(books: seq<FundingBook>): map<int, FundingBook>
    decreases |books|
  {
    if books == [] then map[]
    else Absorb(Grouped(books[..|books| - 1]), books[|books| - 1])
  }

  /** The group-by-period reduce, updating its accumulator entry by entry. */
  method GroupByPeriod(books: seq<FundingBook>) returns (acc: map<int, FundingBook>)
    ensures acc == Grouped(books)
  {
    acc := map[];
    for i := 0 to |books|
      invariant acc == Grouped(books[..i])
    {
      var offer := books[i];
      assert books[..i + 1][..i] == books[..i];
      if offer.period !in acc {
        acc := acc[offer.period := offer];
      } else if offer.yearlyRate > acc[offer.period].yearlyRate {
        acc := acc[offer.period := offer];
      }
    }
    assert books[..|books|] == books;
  }

  /**
   * `books[i]` is the level the reduce keeps for period `p`: no level of that
   * period has a higher yearly rate, and every earlier one has a lower rate.
   */
  ghost predicate IsFirstBest(books: seq<FundingBook>, p: int, i: int)
  {
    && 0 <= i < |books|
    && books[i].period == p
    && (forall j :: 0 <= j < |books| && books[j].period == p ==> books[j].yearlyRate <= books[i].yearlyRate)
    && (forall j :: 0 <= j < i && books[j].period == p ==> books[j].yearlyRate < books[i].yearlyRate)
  }

  /** The tier map has a key exactly for each period that occurs in the book. */
  lemma {:induction false} GroupedKeys(books: seq<FundingBook>, p: int)
    ensures p in Grouped(books) <==> exists i :: 0 <= i < |books| && books[i].period == p
  {
    if books != [] {
      var init := books[..|books| - 1];
      GroupedKeys(init, p);
      if p in Grouped(init) {
        var i :| 0 <= i < |init| && init[i].period == p;
        assert books[i].period == p;
      }
      if p !in Grouped(books) {
        forall i | 0 <= i < |books| ensures books[i].period != p {
          if i < |init| { assert books[i] == init[i]; }
        }
      }
    }
  }

  /** Each tier is the first level of its period with the highest yearly rate. */
  lemma {:induction false} GroupedIsFirstBest(books: seq<FundingBook>, p: int) returns (i: int)
    requires p in Grouped(books)
    ensures IsFirstBest(books, p, i) && Grouped(books)[p] == books[i]
  {
    var n := |books| - 1;
    var init := books[..n];
    var last := books[n];
    assert forall j :: 0 <= j < n ==> books[j] == init[j];
    if p != last.period {
      i := GroupedIsFirstBest(init, p);
    } else if p !in Grouped(init) {
      GroupedKeys(init, p);
      i := n;
    } else {
      var i0 := GroupedIsFirstBest(init, p);
      if last.yearlyRate > books[i0].yearlyRate {
        i := n;
      } else {
        i := i0;
      }
    }
  }

  /** The first-best level of a period is unique, so the tier map is determined by the book. */
  lemma FirstBestUnique(books: seq<FundingBook>, p: int, i: int, j: int)
    requires IsFirstBest(books, p, i) && IsFirstBest(books, p, j)
    ensures i == j
  {
  }

  /** What `toFixed(6)` followed by `Number` does: rounding to six decimals, halves away from zero. */
  function Round6(x: real): (r: real)
    ensures -0.0000005 <= r - x <= 0.0000005
  {
    if x >= 0.0 then (x * 1000000.0 + 0.5).Floor as real / 1000000.0
    else -((-x * 1000000.0 + 0.5).Floor as real / 1000000.0)
  }

  /** The selected tier: daily rate as submitted, its period, and the (negative) amount quoted there. */
  datatype FundingRate = FundingRate(rate: real, period: int, availableAmount: real)

  /** The policy: the period-120 tier if its yearly rate is at least 10, otherwise nothing. */
  function SelectFundingRate(tiers: map<int, FundingBook>): (r: Option<FundingRate>)
    ensures r.Some? <==> TargetPeriod in tiers && tiers[TargetPeriod].yearlyRate >= MinYearlyRate
    ensures r.Some? ==>
      && r.value.period == TargetPeriod
      && r.value.availableAmount == tiers[TargetPeriod].amount
      && -0.0000005 <= r.value.rate - tiers[TargetPeriod].dailyRate <= 0.0000005
  {
    if TargetPeriod in tiers && tiers[TargetPeriod].yearlyRate >= MinYearlyRate then
      var tier := tiers[TargetPeriod];
      Some(FundingRate(Round6(tier.dailyRate), TargetPeriod, tier.amount))
    else None
  }

  /** What `pickFundingRate` returns for a book reply. */
  function PickedRate(rows: seq<BookRow>): Option<FundingRate>
  {
    var books := GetFundingBooks(rows);
    if |books| == 0 then None else SelectFundingRate(Grouped(books))
  }

  /** `pickFundingRate` on the rows the book request returned. */
  method PickFundingRate(rows: seq<BookRow>) returns (r: Option<FundingRate>)
    ensures r == PickedRate(rows)
  {
    var books := GetFundingBooks(rows);
    if |books| == 0 {
      return None;
    }
    var tiers := GroupByPeriod(books);
    r := SelectFundingRate(tiers);
  }

  /**
   * A rate is picked exactly when some lend level for period 120 has a
   * yearly rate of at least 10; then the pick comes from the first such level
   * with the highest yearly rate.
   */
  lemma PickedRateSome(rows: seq<BookRow>) returns (i: int)
    requires PickedRate(rows).Some?
    ensures var books := GetFundingBooks(rows);
      && IsFirstBest(books, TargetPeriod, i)
      && books[i].yearlyRate >= MinYearlyRate
      && PickedRate(rows).value.period == TargetPeriod
      && PickedRate(rows).value.availableAmount == books[i].amount
      && -0.0000005 <= PickedRate(rows).value.rate - books[i].dailyRate <= 0.0000005
  {
    i := GroupedIsFirstBest(GetFundingBooks(rows), TargetPeriod);
  }

  /** Without a period-120 lend level at 10 or more, nothing is picked; an empty book picks nothing. */
  lemma PickedRateNone(rows: seq<BookRow>)
    ensures var books := GetFundingBooks(rows);
      PickedRate(rows).None? <==>
        forall i :: 0 <= i < |books| && books[i].period == TargetPeriod ==> books[i].yearlyRate < MinYearlyRate
  {
    var books := GetFundingBooks(rows);
    if PickedRate(rows).Some? {
      var i := PickedRateSome(rows);
    } else if |books| > 0 {
      GroupedKeys(books, TargetPeriod);
      if TargetPeriod in Grouped(books) {
        var k := GroupedIsFirstBest(books, TargetPeriod);
        assert Grouped(books)[TargetPeriod].yearlyRate < MinYearlyRate;
      }
    }
  }

  // ------------------------------------------------------------ the cycle

  /** What the bot sends out during a cycle. */
  datatype Action =
    | WalletNotice(wallet: WalletBalance)
    | FetchFundingBook(symbol: Currency)
    | SubmitOffer(request: OfferRequest)
    | OfferNotice(amount: real, rate: real, period: int)

  /** The actions of some steps, and whether an exception ended the cycle. */
  datatype Step = Step(actions: seq<Action>, aborted: bool)

  /** The amount offered from a free balance: the balance itself, capped at the maximum. */
  function OfferAmount(available: real): (a: real)
    ensures a <= available && a <= MaxOfferAmount
    ensures a == available || a == MaxOfferAmount
  {
    if available <= MaxOfferAmount then available else MaxOfferAmount
  }

  /**
   * The body of the wallet loop for one eligible wallet. `book` is the reply
   * to the funding-book request (`None` when it threw) and `reply` the reply
   * to the offer submission.
   */
  function WalletStep(w: WalletBalance, book: Option<seq<BookRow>>, reply: SubmitReply): Step
  {
    if w.availableBalance <= MinBalance then Step([], false)
    else if w.currency != "UST" then Step([WalletNotice(w)], false)
    else if book.None? then Step([WalletNotice(w), FetchFundingBook(USDT)], true)
    else
      var picked := PickedRate(book.value);
      if picked.None? || w.availableBalance > Abs(picked.value.availableAmount) then
        Step([WalletNotice(w), FetchFundingBook(USDT)], false)
      else
        var amount := OfferAmount(w.availableBalance);
        var out := PostFundingOfferIntended(amount, picked.value.rate, picked.value.period, reply);
        var sent := if out.sent.Some? then [SubmitOffer(out.sent.value)] else [];
        var notice := if out.result.Some? then [OfferNotice(amount, picked.value.rate, out.result.value.period)] else [];
        Step([WalletNotice(w), FetchFundingBook(USDT)] + sent + notice, false)
  }

  /** The loop over eligible wallets; a thrown fetch ends the cycle. */
  function CycleSpec(wallets: seq<WalletBalance>, books: nat -> Option<seq<BookRow>>, replies: nat -> SubmitReply): Step
    decreases |wallets|
  {
    if wallets == [] then Step([], false)
    else
      var n := |wallets| - 1;
      var before := CycleSpec(wallets[..n], books, replies);
      if before.aborted then before
      else
        var step := WalletStep(wallets[n], books(n), replies(n));
        Step(before.actions + step.actions, step.aborted)
  }

  /** The body of the wallet loop, with its `continue` gates as early returns. */
  method ProcessWallet(w: WalletBalance, book: Option<seq<BookRow>>, reply: SubmitReply) returns (step: Step)
    ensures step == WalletStep(w, book, reply)
  {
    step := Step([], false);
    if w.availableBalance <= MinBalance {
      return;
    }
    step := Step(step.actions + [WalletNotice(w)], false);
    if w.currency != "UST" {
      return;
    }
    step := Step(step.actions + [FetchFundingBook(USDT)], false);
    if book.None? {
      return step.(aborted := true);
    }
    var fundingRate := PickFundingRate(book.value);
    if fundingRate.None? || w.availableBalance > Abs(fundingRate.value.availableAmount) {
      return;
    }
    var amountToOffer := if w.availableBalance <= MaxOfferAmount then w.availableBalance else MaxOfferAmount;
    var fundingOffer := PostFundingOfferIntended(amountToOffer, fundingRate.value.rate, fundingRate.value.period, reply);
    if fundingOffer.sent.Some? {
      step := Step(step.actions + [SubmitOffer(fundingOffer.sent.value)], false);
    }
    if fundingOffer.result.Some? {
      step := Step(step.actions + [OfferNotice(amountToOffer, fundingRate.value.rate, fundingOffer.result.value.period)], false);
    }
  }

  /**
   * One run of the scheduled task. `walletRows` is the wallet reply (`None`
   * when it threw); the book and submission replies are indexed by the
   * position of the eligible wallet being processed.
   */
  method RunCycle(walletRows: Option<seq<WalletRow>>, books: nat -> Option<seq<BookRow>>, replies: nat -> SubmitReply)
    returns (actions: seq<Action>, aborted: bool)
    ensures walletRows.None? ==> actions == [] && aborted
    ensures walletRows.Some? ==>
      Step(actions, aborted) == CycleSpec(CheckWalletAvailableBalance(GetWalletBalances(walletRows.value)), books, replies)
  {
    actions, aborted := [], false;
    if walletRows.None? {
      return [], true;
    }
    var wallets := CheckWalletAvailableBalance(GetWalletBalances(walletRows.value));
    if |wallets| == 0 {
      return;
    }
    var i := 0;
    while i < |wallets| && !aborted
      invariant 0 <= i <= |wallets|
      invariant Step(actions, aborted) == CycleSpec(wallets[..i], books, replies)
    {
      assert wallets[..i + 1][..i] == wallets[..i];
      var step := ProcessWallet(wallets[i], books(i), replies(i));
      actions, aborted := actions + step.actions, step.aborted;
      i := i + 1;
    }
    if aborted {
      CycleSpecAbortedPrefix(wallets, i, books, replies);
    } else {
      assert wallets[..i] == wallets;
    }
  }

  /** Once a prefix of the wallets has aborted the cycle, the later wallets add nothing. */
  lemma {:induction false} CycleSpecAbortedPrefix(wallets: seq<WalletBalance>, k: nat, books: nat -> Option<seq<BookRow>>, replies: nat -> SubmitReply)
    requires k <= |wallets| && CycleSpec(wallets[..k], books, replies).aborted
    ensures CycleSpec(wallets, books, replies) == CycleSpec(wallets[..k], books, replies)
    decreases |wallets| - k
  {
    if k < |wallets| {
      var n := |wallets| - 1;
      assert wallets[..n][..k] == wallets[..k];
      CycleSpecAbortedPrefix(wallets[..n], k, books, replies);
    } else {
      assert wallets[..k] == wallets;
    }
  }

  // ------------------------------------------------- what a cycle sends out

  /** The offer requests among some actions, in order. */
  function Submissions(actions: seq<Action>): (reqs: seq<OfferRequest>)
    ensures |reqs| <= |actions|
    ensures forall r :: r in reqs <==> SubmitOffer(r) in actions
  {
    if actions == [] then []
    else
      var rest := Submissions(actions[1..]);
      assert actions == [actions[0]] + actions[1..];
      if actions[0].SubmitOffer? then [actions[0].request] + rest else rest
  }

  lemma {:induction false} SubmissionsAppend(a: seq<Action>, b: seq<Action>)
    ensures Submissions(a + b) == Submissions(a) + Submissions(b)
  {
    if a == [] {
      assert a + b == b;
    } else {
      assert (a + b)[1..] == a[1..] + b;
      SubmissionsAppend(a[1..], b);
    }
  }

  /** Whether some action is an offer notification. */
  predicate HasOfferNotice(actions: seq<Action>)
  {
    exists i :: 0 <= i < |actions| && actions[i].OfferNotice?
  }

  /** The gates a wallet passes before an offer is attempted. */
  predicate PassesGates(w: WalletBalance, book: Option<seq<BookRow>>)
  {
    && w.availableBalance > MinBalance
    && w.currency == "UST"
    && book.Some?
    && PickedRate(book.value).Some?
    && w.availableBalance <= Abs(PickedRate(book.value).value.availableAmount)
  }

  /** A wallet leads to at most one offer request, and to one exactly when it passes every gate. */
  lemma WalletStepSubmitsOnce(w: WalletBalance, book: Option<seq<BookRow>>, reply: SubmitReply)
    ensures var reqs := Submissions(WalletStep(w, book, reply).actions);
      |reqs| <= 1 && (|reqs| == 1 <==> PassesGates(w, book))
  {
    WalletStepRequests(w, book, reply);
  }

  /**
   * The request a wallet leads to offers its free balance capped at 300,
   * which is then above the minimum, for period 120 at the picked rate.
   */
  lemma WalletStepRequest(w: WalletBalance, book: Option<seq<BookRow>>, reply: SubmitReply, r: OfferRequest)
    ensures r in Submissions(WalletStep(w, book, reply).actions) ==>
      && PassesGates(w, book)
      && r.amount == OfferAmount(w.availableBalance)
      && MinBalance < r.amount <= MaxOfferAmount
      && r.period == TargetPeriod
      && r.symbol == "fUST"
      && r.rate * 100.0 == PickedRate(book.value).value.rate
  {
    WalletStepRequests(w, book, reply);
  }

  /** The requests of one wallet step, spelled out. */
  lemma WalletStepRequests(w: WalletBalance, book: Option<seq<BookRow>>, reply: SubmitReply)
    ensures Submissions(WalletStep(w, book, reply).actions) ==
      if PassesGates(w, book) then
        var picked := PickedRate(book.value).value;
        [OfferRequestFor(OfferAmount(w.availableBalance), picked.rate, picked.period)]
      else []
  {
    var step := WalletStep(w, book, reply);
    if PassesGates(w, book) {
      var picked := PickedRate(book.value).value;
      var amount := OfferAmount(w.availableBalance);
      var out := PostFundingOfferIntended(amount, picked.rate, picked.period, reply);
      var sent := if out.sent.Some? then [SubmitOffer(out.sent.value)] else [];
      var notice := if out.result.Some? then [OfferNotice(amount, picked.rate, out.result.value.period)] else [];
      assert step.actions == [WalletNotice(w), FetchFundingBook(USDT)] + sent + notice;
      SubmissionsAppend([WalletNotice(w), FetchFundingBook(USDT)] + sent, notice);
      SubmissionsAppend([WalletNotice(w), FetchFundingBook(USDT)], sent);
    }
  }

  /** An offer is announced exactly when its request was sent and the exchange answered `SUCCESS`. */
  lemma WalletStepNotifies(w: WalletBalance, book: Option<seq<BookRow>>, reply: SubmitReply)
    ensures HasOfferNotice(WalletStep(w, book, reply).actions) <==> PassesGates(w, book) && reply == Replied("SUCCESS")
  {
    var step := WalletStep(w, book, reply);
    if HasOfferNotice(step.actions) {
      var i :| 0 <= i < |step.actions| && step.actions[i].OfferNotice?;
    }
    if PassesGates(w, book) && reply == Replied("SUCCESS") {
      assert step.actions[|step.actions| - 1].OfferNotice?;
    }
  }

  /**
   * Over a whole cycle: no more requests than wallets, every request within
   * the amount bounds for period 120 on `fUST`, and only wallets of the input
   * with enough free balance are announced.
   */
  lemma {:induction false} CycleSpecSends(wallets: seq<WalletBalance>, books: nat -> Option<seq<BookRow>>, replies: nat -> SubmitReply)
    ensures var actions := CycleSpec(wallets, books, replies).actions;
      && |Submissions(actions)| <= |wallets|
      && (forall r :: r in Submissions(actions) ==>
            MinBalance < r.amount <= MaxOfferAmount && r.period == TargetPeriod && r.symbol == "fUST")
      && (forall w :: WalletNotice(w) in actions ==> w in wallets && w.availableBalance > MinBalance)
    decreases |wallets|
  {
    if wallets != [] {
      var n := |wallets| - 1;
      var before := CycleSpec(wallets[..n], books, replies);
      CycleSpecSends(wallets[..n], books, replies);
      assert forall w :: w in wallets[..n] ==> w in wallets;
      if !before.aborted {
        var step := WalletStep(wallets[n], books(n), replies(n));
        SubmissionsAppend(before.actions, step.actions);
        WalletStepSubmitsOnce(wallets[n], books(n), replies(n));
        forall r | r in Submissions(step.actions)
          ensures MinBalance < r.amount <= MaxOfferAmount && r.period == TargetPeriod && r.symbol == "fUST"
        {
          WalletStepRequest(wallets[n], books(n), replies(n), r);
        }
        forall w | WalletNotice(w) in step.actions
          ensures w == wallets[n] && w.availableBalance > MinBalance
        {
        }
      }
    }
  }

  /** Every wallet the cycle announces had a total and a free balance above 150 in the wallet reply. */
  lemma CycleAnnouncesEligibleWallets(rows: seq<WalletRow>, books: nat -> Option<seq<BookRow>>, replies: nat -> SubmitReply)
    ensures forall w :: WalletNotice(w) in CycleSpec(CheckWalletAvailableBalance(GetWalletBalances(rows)), books, replies).actions ==>
      ToWalletRow(w) in rows && w.balance > MinBalance && w.availableBalance > MinBalance
  {
    var wallets := GetWalletBalances(rows);
    CycleSpecSends(CheckWalletAvailableBalance(wallets), books, replies);
    forall w | w in wallets ensures ToWalletRow(w) in rows {
      var i :| 0 <= i < |wallets| && wallets[i] == w;
      assert ToWalletRow(w) == rows[i];
    }
  }

  // ------------------------------------------------------ boundary examples

  /** A wallet whose balance is exactly 150 is not eligible. */
  lemma BalanceOfExactlyMinimumIsDropped(w: WalletBalance)
    requires w.balance == MinBalance
    ensures CheckWalletAvailableBalance([w]) == []
  {
  }

  /** A period-120 level at exactly 10 percent a year is picked, with its amount. */
  lemma ExactThresholdIsPicked(count: int, amount: real)
    requires amount < 0.0
    ensures PickedRate([(MinYearlyRate / 36500.0, TargetPeriod, count, amount)]).Some?
    ensures PickedRate([(MinYearlyRate / 36500.0, TargetPeriod, count, amount)]).value.availableAmount == amount
  {
    var rows: seq<BookRow> := [(MinYearlyRate / 36500.0, TargetPeriod, count, amount)];
    assert IsLendRow(rows[0]);
    assert GetFundingBooks(rows)[0].yearlyRate == MinYearlyRate;
    PickedRateNone(rows);
    var i := PickedRateSome(rows);
  }

  /** However high its rate, a level for another period is never picked. */
  lemma OtherPeriodIsNotPicked(rate: real, period: int, count: int, amount: real)
    requires period != TargetPeriod
    ensures PickedRate([(rate, period, count, amount)]).None?
  {
    PickedRateNone([(rate, period, count, amount)]);
  }
}
