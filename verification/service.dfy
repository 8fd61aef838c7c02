/** The ledger engine of the credit-card service
    (serviceImpl/CreditCardServiceImpl.java): gap-fill, correction with a
    forward cascade, and the all-or-nothing batch of corrections. */
module CreditCardService {
  import opened Wrappers
  import opened Errors
  import opened BalanceHistories
  import opened BalanceHistoryRepository

  type CardNumber = string

  /** The card directory: card number to card id (CreditCardRepository.findByCardNumber). */
  type CardDirectory = map<CardNumber, CardId>

  /** One correction: the card's balance on `balanceDate` should be `balanceAmount`. */
  datatype UpdateBalancePayload = UpdateBalancePayload(creditCardNumber: CardNumber, balanceDate: Date, balanceAmount: Balance)

  function FindByCardNumber(cards: CardDirectory, number: CardNumber): Option<CardId> {
    if number in cards then Some(cards[number]) else None
  }

  /** The ledger has a row dated strictly before `date`. */
  ghost predicate HasEntryBefore(l: Ledger, date: Date) {
    exists d :: d in l && d < date
  }

  /** `date` has no row but lies between two rows: gap-fill creates it. */
  ghost predicate InGap(l: Ledger, date: Date) {
    date !in l && HasEntryBefore(l, date) && exists d :: d in l && date < d
  }

  /** Every date between the earliest and the latest row has a row. */
  ghost predicate Dense(l: Ledger) {
    l != map[] ==> forall d :: Earliest(l) <= d <= Latest(l) ==> d in l
  }

  // ---------------------------------------------------------------------
  // Gap-fill
  // ---------------------------------------------------------------------

  /** The rows the gap-fill loop collects for the dates from `date` up to but
      excluding `end`, keyed by date: each date with no row takes the balance
      of the latest row strictly before it. The lookups read the store as it
      was before the loop, since the collected rows are saved only after it.
      The lookup of an earlier row fails only when there is none. */
  ghost function GapHistories(s: Store, card: CardId, date: Date, end: Date): (r: Result<Ledger, BusinessError>)
    ensures r.Failure? ==> r.error == ParamException && !HasEntryBefore(LedgerOf(s, card), date)
    ensures r.Success? ==> forall d :: d in r.value <==> date <= d < end && d !in LedgerOf(s, card)
    ensures r.Success? ==> forall d :: d in r.value ==>
              && FindTopByCreditCardAndDateBefore(s, card, d).Some?
              && r.value[d] == FindTopByCreditCardAndDateBefore(s, card, d).value.balance
    decreases end - date
  {
    if !(date < end) then Success(map[])
    else if ExistsByCreditCardAndDate(s, card, date) then GapHistories(s, card, date + 1, end)
    else
      match FindTopByCreditCardAndDateBefore(s, card, date)
      case None => Failure(ParamException)
      case Some(lastHistory) =>
        var rest := GapHistories(s, card, date + 1, end);
        assert HasEntryBefore(LedgerOf(s, card), date + 1) by {
          assert lastHistory.date in LedgerOf(s, card) && lastHistory.date < date + 1;
        }
        if rest.Failure? then
          assert false; rest
        else
          Success(rest.value[date := lastHistory.balance])
  }

  /** Gap-fill: gives every missing day strictly between the card's earliest
      and latest row the balance of the latest row before it. Existing rows
      keep their balance and no row appears outside the recorded range; a card
      with no row is an error. The collected rows all belong to the card and
      have distinct dates, so saving them is a union with the card's ledger. */
  ghost function FillGapsInBalanceHistory(s: Store, card: CardId): (r: Result<Store, BusinessError>)
    ensures r.Failure? <==> LedgerOf(s, card) == map[]
    ensures r.Failure? ==> r.error == ParamException
    ensures r.Success? ==> r.value.Keys == s.Keys
    ensures r.Success? ==> forall c :: c != card ==> LedgerOf(r.value, c) == LedgerOf(s, c)
    ensures r.Success? ==>
              var l, filled := LedgerOf(s, card), LedgerOf(r.value, card);
              forall d :: d in filled <==> Earliest(l) <= d <= Latest(l)
    ensures r.Success? ==>
              var l, filled := LedgerOf(s, card), LedgerOf(r.value, card);
              forall d :: d in l ==> filled[d] == l[d]
    ensures r.Success? ==>
              var l, filled := LedgerOf(s, card), LedgerOf(r.value, card);
              forall d :: d in filled && d !in l ==>
                && FindTopByCreditCardAndDateBefore(s, card, d).Some?
                && filled[d] == FindTopByCreditCardAndDateBefore(s, card, d).value.balance
  {
    match FindEarliestDateByCreditCard(s, card)
    case None => Failure(ParamException)
    case Some(startDate) =>
      match FindLatestDateByCreditCard(s, card)
      case None => assert false; Failure(ParamException)
      case Some(endDate) =>
        assert HasEntryBefore(LedgerOf(s, card), startDate + 1);
        match GapHistories(s, card, startDate + 1, endDate)
        case Failure(e) => assert false; Failure(e)
        case Success(gapHistories) =>
          Success(s[card := LedgerOf(s, card) + gapHistories])
  }

  /** Forward fill, day by day: a day gap-fill creates has the balance of the
      day before it. */
  lemma GapDayRepeatsPreviousDay(s: Store, card: CardId, d: Date)
    requires InGap(LedgerOf(s, card), d)
    ensures FillGapsInBalanceHistory(s, card).Success?
    ensures var filled := LedgerOf(FillGapsInBalanceHistory(s, card).value, card);
            d in filled && d - 1 in filled && filled[d - 1] == filled[d]
  {
    var l := LedgerOf(s, card);
    assert Earliest(l) < d <= Latest(l);
    if d - 1 in l {
      GapDayAfterRecordedDay(s, card, d);
    } else {
      GapDayAfterGapDay(s, card, d);
    }
  }

  /** A gap day right after a recorded day copies that day's balance. */
  lemma GapDayAfterRecordedDay(s: Store, card: CardId, d: Date)
    requires InGap(LedgerOf(s, card), d) && d - 1 in LedgerOf(s, card)
    ensures FillGapsInBalanceHistory(s, card).Success?
    ensures var filled := LedgerOf(FillGapsInBalanceHistory(s, card).value, card);
            d in filled && d - 1 in filled && filled[d - 1] == filled[d]
  {
    var l := LedgerOf(s, card);
    assert Earliest(l) < d <= Latest(l);
    TopBeforeNextDay(s, card, d - 1);
  }

  /** Two consecutive gap days share the latest recorded day before them. */
  lemma GapDayAfterGapDay(s: Store, card: CardId, d: Date)
    requires InGap(LedgerOf(s, card), d) && InGap(LedgerOf(s, card), d - 1)
    ensures FillGapsInBalanceHistory(s, card).Success?
    ensures var filled := LedgerOf(FillGapsInBalanceHistory(s, card).value, card);
            d in filled && d - 1 in filled && filled[d - 1] == filled[d]
  {
    var l := LedgerOf(s, card);
    assert Earliest(l) < d - 1 && d <= Latest(l);
    TopBeforeSkipsMissingDay(s, card, d - 1);
  }

  /** Gap-fill after gap-fill changes nothing. */
  lemma {:induction false} FillGapsIdempotent(s: Store, card: CardId)
    requires LedgerOf(s, card) != map[]
    ensures FillGapsInBalanceHistory(s, card).Success?
    ensures var filled := FillGapsInBalanceHistory(s, card).value;
            FillGapsInBalanceHistory(filled, card) == Success(filled)
  {
    var l, filled := LedgerOf(s, card), FillGapsInBalanceHistory(s, card).value;
    FillGapsOfDenseLedger(filled, card);
  }

  /** A ledger with no interior gap is a fixed point of gap-fill. */
  lemma {:induction false} FillGapsOfDenseLedger(s: Store, card: CardId)
    requires LedgerOf(s, card) != map[]
    requires Dense(LedgerOf(s, card))
    ensures FillGapsInBalanceHistory(s, card) == Success(s)
  {
    var l := LedgerOf(s, card);
    var r := FillGapsInBalanceHistory(s, card).value;
    assert LedgerOf(r, card) == l;
    assert r == s;
  }

  /** After gap-fill, a date without a row lies outside the recorded range, so
      a correction that inserts a row never lands between two rows. */
  lemma AbsentDateLiesOutsideRange(s: Store, card: CardId, date: Date)
    requires LedgerOf(s, card) != map[]
    ensures FillGapsInBalanceHistory(s, card).Success?
    ensures date !in LedgerOf(FillGapsInBalanceHistory(s, card).value, card)
            ==> date < Earliest(LedgerOf(s, card)) || Latest(LedgerOf(s, card)) < date
  {
  }

  // ---------------------------------------------------------------------
  // Correction
  // ---------------------------------------------------------------------

  /** Correction: asserts that the card's balance on `payloadDate` is
      `payloadAmount`. A stored balance that differs is overwritten and the
      difference is added to every later row; an equal one changes nothing. A
      missing row is created with the amount, and its difference against
      itself is zero, so nothing cascades. Rows before the date never change. */
  function UpdateBalancesAfterPayloadDate(s: Store, payloadDate: Date, payloadAmount: Balance, card: CardId): (r: Store)
    ensures r.Keys == s.Keys + {card}
    ensures forall c :: c != card ==> LedgerOf(r, c) == LedgerOf(s, c)
    ensures LedgerOf(r, card).Keys == LedgerOf(s, card).Keys + {payloadDate}
    ensures LedgerOf(r, card)[payloadDate] == payloadAmount
    ensures forall d :: d in LedgerOf(s, card) && d < payloadDate ==> LedgerOf(r, card)[d] == LedgerOf(s, card)[d]
    ensures payloadDate !in LedgerOf(s, card) ==>
              forall d :: d in LedgerOf(s, card) ==> LedgerOf(r, card)[d] == LedgerOf(s, card)[d]
    ensures payloadDate in LedgerOf(s, card) ==>
              var difference := payloadAmount - LedgerOf(s, card)[payloadDate];
              forall d :: d in LedgerOf(s, card) && payloadDate < d ==> LedgerOf(r, card)[d] == LedgerOf(s, card)[d] + difference
  {
    var found := GetByCreditCardAndDate(s, card, payloadDate);
    var payloadHistory := if found.Some? then found.value else BalanceEntry(payloadDate, payloadAmount, card);
    var current := if found.Some? then s else Save(s, payloadHistory);
    var difference := payloadAmount - payloadHistory.balance;
    if difference != 0 then
      UpdateBalancesAfterDate(Save(current, payloadHistory.(balance := payloadAmount)), payloadDate, difference, card)
    else
      current
  }

  /** A correction that agrees with the stored balance leaves the whole store unchanged. */
  lemma CorrectionIdempotent(s: Store, payloadDate: Date, payloadAmount: Balance, card: CardId)
    requires payloadDate in LedgerOf(s, card) && LedgerOf(s, card)[payloadDate] == payloadAmount
    ensures UpdateBalancesAfterPayloadDate(s, payloadDate, payloadAmount, card) == s
  {
  }

  /** Applying the same correction twice is applying it once. */
  lemma CorrectionTwiceIsOnce(s: Store, payloadDate: Date, payloadAmount: Balance, card: CardId)
    ensures var once := UpdateBalancesAfterPayloadDate(s, payloadDate, payloadAmount, card);
            UpdateBalancesAfterPayloadDate(once, payloadDate, payloadAmount, card) == once
  {
    var once := UpdateBalancesAfterPayloadDate(s, payloadDate, payloadAmount, card);
    CorrectionIdempotent(once, payloadDate, payloadAmount, card);
  }

  /** The cascade keeps the running-balance relation: each later row stands
      to the corrected day exactly as it stood to the stored day before. */
  lemma CascadeKeepsOffsets(s: Store, payloadDate: Date, payloadAmount: Balance, card: CardId, d: Date)
    requires payloadDate in LedgerOf(s, card)
    requires d in LedgerOf(s, card) && payloadDate < d
    ensures var l, r := LedgerOf(s, card), LedgerOf(UpdateBalancesAfterPayloadDate(s, payloadDate, payloadAmount, card), card);
            r[d] - r[payloadDate] == l[d] - l[payloadDate]
  {
  }

  // ---------------------------------------------------------------------
  // Batch
  // ---------------------------------------------------------------------

  /** The status the batch reports on success. */
  const OK: string := "200 OK"

  /** What a batch reports, and the store that is visible after it. */
  datatype Outcome = Outcome(status: Result<string, BusinessError>, store: Store)

  /** One payload can be processed: its card number names a card that has at least one row. */
  ghost predicate Resolvable(cards: CardDirectory, s: Store, number: CardNumber) {
    number in cards && LedgerOf(s, cards[number]) != map[]
  }

  /** One iteration of the batch loop: resolve the card, gap-fill its ledger,
      apply the correction. An unknown card number is a ParamException. */
  ghost function ProcessPayload(cards: CardDirectory, s: Store, p: UpdateBalancePayload): (r: Result<Store, BusinessError>)
    ensures r.Failure? ==> r.error == ParamException
    ensures r.Success? <==> Resolvable(cards, s, p.creditCardNumber)
    ensures r.Success? ==> forall c :: LedgerOf(r.value, c) == map[] <==> LedgerOf(s, c) == map[]
  {
    var card :- FindByCardNumber(cards, p.creditCardNumber).ToResult(ParamException);
    var filled :- FillGapsInBalanceHistory(s, card);
    Success(UpdateBalancesAfterPayloadDate(filled, p.balanceDate, p.balanceAmount, card))
  }

  /** The batch loop without its transaction: payloads in order, each one's
      effect flushed before the next; on failure the store holds the effects
      of the payloads before the failing one. The loop fails exactly when some
      payload names an unknown card or a card with no row at the start. */
  ghost function ApplyPayloads(cards: CardDirectory, s: Store, payloads: seq<UpdateBalancePayload>): (t: Outcome)
    ensures t.status.Failure? ==> t.status.error == ParamException
    ensures t.status.Success? ==> t.status.value == OK
    ensures t.status.Success? <==> forall i :: 0 <= i < |payloads| ==> Resolvable(cards, s, payloads[i].creditCardNumber)
    decreases |payloads|
  {
    if |payloads| == 0 then Outcome(Success(OK), s)
    else
      match ProcessPayload(cards, s, payloads[0])
      case Failure(e) => Outcome(Failure(e), s)
      case Success(next) =>
        var t := ApplyPayloads(cards, next, payloads[1..]);
        assert forall i :: 1 <= i < |payloads| ==> payloads[i] == payloads[1..][i - 1];
        t
  }

  /** The transactional batch: on any failure the store is exactly the store
      before the batch; on success every payload has been applied in order. */
  ghost function UpdateBalanceHistory(cards: CardDirectory, s: Store, payloads: seq<UpdateBalancePayload>): (t: Outcome)
    ensures t.status.Failure? ==> t.store == s
    ensures t.status.Failure? ==> t.status.error == ParamException && t.status.error.Code() == 400
    ensures t.status.Success? ==> t.status.value == OK
    ensures t.status.Success? <==> forall i :: 0 <= i < |payloads| ==> Resolvable(cards, s, payloads[i].creditCardNumber)
  {
    var t := ApplyPayloads(cards, s, payloads);
    if t.status.Failure? then Outcome(t.status, s) else t
  }

  /** The batch loop runs its payloads in order: running `first + rest` is
      running `first` and then, if it succeeded, `rest` on its result. */
  lemma {:induction false} ApplyPayloadsInOrder(cards: CardDirectory, s: Store, first: seq<UpdateBalancePayload>, rest: seq<UpdateBalancePayload>)
    ensures ApplyPayloads(cards, s, first + rest)
         == var t := ApplyPayloads(cards, s, first);
            if t.status.Failure? then t else ApplyPayloads(cards, t.store, rest)
    decreases |first|
  {
    if |first| == 0 {
      assert first + rest == rest;
    } else {
      assert (first + rest)[1..] == first[1..] + rest;
      match ProcessPayload(cards, s, first[0])
      case Failure(_) =>
      case Success(next) =>
        ApplyPayloadsInOrder(cards, next, first[1..], rest);
    }
  }

  /** A successful batch ending in payload `p` is the batch before `p`
      followed by gap-fill and correction of `p`'s card. */
  lemma LastPayloadAppliedLast(cards: CardDirectory, s: Store, payloads: seq<UpdateBalancePayload>, p: UpdateBalancePayload)
    requires forall i :: 0 <= i < |payloads| ==> Resolvable(cards, s, payloads[i].creditCardNumber)
    requires Resolvable(cards, s, p.creditCardNumber)
    ensures UpdateBalanceHistory(cards, s, payloads + [p]).status.Success?
    ensures var before := UpdateBalanceHistory(cards, s, payloads).store;
            var card := cards[p.creditCardNumber];
            FillGapsInBalanceHistory(before, card).Success?
            && UpdateBalanceHistory(cards, s, payloads + [p]).store
               == UpdateBalancesAfterPayloadDate(FillGapsInBalanceHistory(before, card).value, p.balanceDate, p.balanceAmount, card)
  {
    assert forall i :: 0 <= i < |payloads + [p]| ==> (payloads + [p])[i] == if i < |payloads| then payloads[i] else p;
    ApplyPayloadsInOrder(cards, s, payloads, [p]);
  }

  // ---------------------------------------------------------------------
  // Worked examples
  // ---------------------------------------------------------------------

  /** The worked example of the balance-update endpoint: ledger
      [4/10: 100, 4/12: 110] and the correction 4/11: 110 give
      [4/10: 100, 4/11: 110, 4/12: 120]. Gap-fill first creates 4/11 with
      100, so the correction's difference is 10, which 4/12 receives. */
  lemma UpdateBalanceExample()
    ensures var cards := map["4111" := 1];
            var s := map[1 := map[Apr10 := 100, Apr10 + 2 := 110]];
            UpdateBalanceHistory(cards, s, [UpdateBalancePayload("4111", Apr10 + 1, 110)])
            == Outcome(Success(OK), map[1 := map[Apr10 := 100, Apr10 + 1 := 110, Apr10 + 2 := 120]])
  {
    var cards := map["4111" := 1];
    var s := map[1 := map[Apr10 := 100, Apr10 + 2 := 110]];
    var p := UpdateBalancePayload("4111", Apr10 + 1, 110);
    var filled := GapFillExample();
    CorrectionExample();
    assert FindByCardNumber(cards, p.creditCardNumber) == Some(1);
    SinglePayloadBatch(cards, s, p);
  }

  /** A batch of one payload that can be processed reports success with the
      store that payload produces. */
  lemma SinglePayloadBatch(cards: CardDirectory, s: Store, p: UpdateBalancePayload)
    requires Resolvable(cards, s, p.creditCardNumber)
    ensures ProcessPayload(cards, s, p).Success?
    ensures UpdateBalanceHistory(cards, s, [p]) == Outcome(Success(OK), ProcessPayload(cards, s, p).value)
  {
    var next := ProcessPayload(cards, s, p).value;
    assert [p][1..] == [];
    assert ApplyPayloads(cards, next, []) == Outcome(Success(OK), next);
    assert ApplyPayloads(cards, s, [p]) == Outcome(Success(OK), next);
  }

  /** Correction of the gap-filled worked example: 4/11 goes from 100 to 110
      and the difference of 10 is added to 4/12; 4/10 is untouched. */
  lemma CorrectionExample()
    ensures UpdateBalancesAfterPayloadDate(map[1 := map[Apr10 := 100, Apr10 + 1 := 100, Apr10 + 2 := 110]], Apr10 + 1, 110, 1)
         == map[1 := map[Apr10 := 100, Apr10 + 1 := 110, Apr10 + 2 := 120]]
  {
    var filled := map[1 := map[Apr10 := 100, Apr10 + 1 := 100, Apr10 + 2 := 110]];
    var corrected := UpdateBalancesAfterPayloadDate(filled, Apr10 + 1, 110, 1);
    var expected := map[1 := map[Apr10 := 100, Apr10 + 1 := 110, Apr10 + 2 := 120]];
    assert LedgerOf(corrected, 1) == expected[1];
    assert corrected.Keys == expected.Keys;
  }

  /** Gap-fill of the worked example: 4/11 is created with the balance of 4/10. */
  lemma GapFillExample() returns (filled: Store)
    ensures FillGapsInBalanceHistory(map[1 := map[Apr10 := 100, Apr10 + 2 := 110]], 1) == Success(filled)
    ensures filled == map[1 := map[Apr10 := 100, Apr10 + 1 := 100, Apr10 + 2 := 110]]
  {
    var s := map[1 := map[Apr10 := 100, Apr10 + 2 := 110]];
    var l := LedgerOf(s, 1);
    assert Apr10 in l && Apr10 + 2 in l;
    assert Earliest(l) == Apr10 by {
      assert Earliest(l) in l && Earliest(l) <= Apr10;
    }
    assert Latest(l) == Apr10 + 2 by {
      assert Latest(l) in l && Apr10 + 2 <= Latest(l);
    }
    filled := FillGapsInBalanceHistory(s, 1).value;
    TopBeforeNextDay(s, 1, Apr10);
    assert LedgerOf(filled, 1) == map[Apr10 := 100, Apr10 + 1 := 100, Apr10 + 2 := 110];
  }

  /** Batch atomicity: a valid correction of card 1 followed by a payload
      naming an unknown card fails with ParamException, and the store is the
      one before the batch, although the loop alone had already changed it. */
  lemma RollbackExample()
    ensures var cards := map["4111" := 1];
            var s := map[1 := map[Apr10 := 100, Apr10 + 2 := 110]];
            var payloads := [UpdateBalancePayload("4111", Apr10 + 1, 110), UpdateBalancePayload("5500", Apr10, 7)];
            && UpdateBalanceHistory(cards, s, payloads) == Outcome(Failure(ParamException), s)
            && ApplyPayloads(cards, s, payloads).store != s
  {
    var cards := map["4111" := 1];
    var s := map[1 := map[Apr10 := 100, Apr10 + 2 := 110]];
    var payloads := [UpdateBalancePayload("4111", Apr10 + 1, 110), UpdateBalancePayload("5500", Apr10, 7)];
    assert !Resolvable(cards, s, payloads[1].creditCardNumber);
    assert Apr10 in LedgerOf(s, 1);
    var first := ProcessPayload(cards, s, payloads[0]);
    assert first.Success?;
    assert Apr10 + 1 in LedgerOf(first.value, 1);
    assert payloads[1..] == [payloads[1]];
    assert ApplyPayloads(cards, s, payloads).store == first.value;
  }
}
