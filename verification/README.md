# Credit-card balance-history ledger

A Dafny model of the balance-history ledger of the credit-card backend.
The ledger holds one balance per day per credit card. The model covers
four operations:

- **gap-fill** gives every missing day between a card's earliest and latest
  recorded day the balance of the latest recorded day before it;
- **correction** asserts that a card's balance on a day is a given amount; a
  stored balance that differs is overwritten and the difference is added to
  every later day;
- **batch** runs gap-fill and correction for each payload in order, as one
  transaction;
- the **repository queries** they are built on: point get, existence, earliest
  date, latest row strictly before a date, the bulk "add to every later row"
  update, and save. The service also calls `findLatestDateByCreditCard`
  (CreditCardServiceImpl.java:141), which BalanceHistoryRepository.java does
  not declare; the model gives it the meaning MAX(date), the mirror of the
  declared MIN query.

Dates are day numbers: `LocalDate.plusDays(1)` is `+ 1`, and 2023-04-10 is
day 19457. Balances are integers, in cents for example. The balance-history
table is a `map<CardId, map<Date, Balance>>`, grouped by owning card. Because
MIN, MAX and "latest before" are defined by choice over finite sets, the
query, gap-fill and batch functions are ghost. Point get, save, the bulk
update and correction are compiled functions.

Modules, following the source files:

- `Wrappers`, `Errors` (wrappers.dfy): `Option`, `Result`, and the business
  error codes of `ResponseEnum`.
- `OrderedKeys` (ordered_keys.dfy): least and greatest element of a set of
  days.
- `BalanceHistories` (balance_history.dfy): the entry record and its natural
  order.
- `BalanceHistoryRepository` (repository.dfy): the table and its queries.
- `CreditCards` (credit_card.dfy): the card's sorted balance-history set and
  sorted-set insertion. It also holds `Ceiling`, closest-date retrieval. The
  entity's comment states this as a requirement to implement
  (CreditCard.java:55), but no method in the source implements it; the model
  states the requirement as written.
- `CreditCardService` (service.dfy): gap-fill, correction, the batch and the
  worked examples.

`createNewBalanceHistory` (CreditCardServiceImpl.java:122-128) is the
`BalanceEntry(date, balance, card)` constructor.

Notes on the code:

- An unknown card number in a batch fails with `ParamException`
  (CreditCardServiceImpl.java:96-97), reported as 400 Bad Request
  (ResponseEnum.java:6).
- Payload dates are not validated: any day is accepted.
- The gap-fill loop stops before the latest date (`isBefore(endDate)`). The
  comment beside it says the latest date is included, but that date always
  has a row, so both readings give the same result.

## Model

| member | source | states |
|---|---|---|
| BalanceHistories.CompareTo | src/main/java/com/shepherdmoney/interviewproject/model/BalanceHistory.java:42-45 | entries compare by date alone: negative, zero or positive exactly when the first date is earlier, equal or later; balance and owner play no part |
| BalanceHistories.CompareToIsTotalOrder | src/main/java/com/shepherdmoney/interviewproject/model/BalanceHistory.java:42-45 | the comparison meets the Comparable contract: sign-antisymmetric, transitive, and entries comparing equal compare alike with any third entry |
| BalanceHistories.CompareToIgnoresBalanceAndCard | src/main/java/com/shepherdmoney/interviewproject/model/BalanceHistory.java:42-45 | an entry compares equal to a copy of itself with any other balance and owner |
| BalanceHistoryRepository.GetByCreditCardAndDate | src/main/java/com/shepherdmoney/interviewproject/repository/BalanceHistoryRepository.java:22-23 | returns the card's row with exactly that date, with its stored balance, or nothing when the card has no row that day |
| BalanceHistoryRepository.ExistsByCreditCardAndDate | src/main/java/com/shepherdmoney/interviewproject/repository/BalanceHistoryRepository.java:28 | true exactly when the point lookup at that card and date finds a row |
| BalanceHistoryRepository.FindEarliestDateByCreditCard | src/main/java/com/shepherdmoney/interviewproject/repository/BalanceHistoryRepository.java:25-26 | empty exactly when the card has no row; otherwise a recorded date no later than any other of the card's dates |
| BalanceHistoryRepository.FindLatestDateByCreditCard | src/main/java/com/shepherdmoney/interviewproject/serviceImpl/CreditCardServiceImpl.java:141-142 | the mirror of the earliest-date query: empty exactly when the card has no row; otherwise a recorded date no earlier than any other |
| BalanceHistoryRepository.FindTopByCreditCardAndDateBefore | src/main/java/com/shepherdmoney/interviewproject/repository/BalanceHistoryRepository.java:30-31 | empty exactly when the card has no row before the date; otherwise the card's row with the greatest date strictly before it |
| BalanceHistoryRepository.TopBeforeNextDay | src/main/java/com/shepherdmoney/interviewproject/repository/BalanceHistoryRepository.java:30-31 | the latest row before the day after a recorded day is that day's row |
| BalanceHistoryRepository.TopBeforeSkipsMissingDay | src/main/java/com/shepherdmoney/interviewproject/repository/BalanceHistoryRepository.java:30-31 | moving the bound of the "latest before" query across a day with no row does not change the answer |
| BalanceHistoryRepository.Save | src/main/java/com/shepherdmoney/interviewproject/serviceImpl/CreditCardServiceImpl.java:179 | inserts or overwrites the row at the entry's date in its owner's ledger; every other row of every card is unchanged |
| BalanceHistoryRepository.GetAfterSave | src/main/java/com/shepherdmoney/interviewproject/serviceImpl/CreditCardServiceImpl.java:188-190 | a point lookup after saving an entry returns that entry, and any other card and date reads as before |
| BalanceHistoryRepository.UpdateBalancesAfterDate | src/main/java/com/shepherdmoney/interviewproject/repository/BalanceHistoryRepository.java:16-20 | adds the difference to every row of the card dated strictly after the date; rows on or before the date, other cards' rows and the set of rows are unchanged |
| BalanceHistoryRepository.UpdateBalancesAfterDateInverse | src/main/java/com/shepherdmoney/interviewproject/repository/BalanceHistoryRepository.java:16-20 | the bulk update by the negated difference at the same date undoes the bulk update exactly |
| BalanceHistoryRepository.UpdateBalancesAfterDateZero | src/main/java/com/shepherdmoney/interviewproject/repository/BalanceHistoryRepository.java:16-20 | a bulk update by zero leaves the table unchanged |
| CreditCards.BalanceHistoryOf | src/main/java/com/shepherdmoney/interviewproject/model/CreditCard.java:63-66 | the card's history is exactly the rows the card owns, in ascending date order, one entry per recorded date with its stored balance |
| CreditCards.SortedEntries | src/main/java/com/shepherdmoney/interviewproject/model/CreditCard.java:63-66 | lists a ledger's rows in strictly ascending date order, each recorded date once with its balance |
| CreditCards.Add | src/main/java/com/shepherdmoney/interviewproject/model/CreditCard.java:66 | sorted-set insertion keeps the history sorted; an entry whose date is already present is not added; otherwise the history gains exactly that entry |
| CreditCards.AddKeepsCardValid | src/main/java/com/shepherdmoney/interviewproject/model/CreditCard.java:63-66 | adding an entry the card owns keeps the card's history sorted and owned by the card |
| CreditCards.SortedHistoryFollowsCompareTo | src/main/java/com/shepherdmoney/interviewproject/model/BalanceHistory.java:43-45 | in a sorted history every entry compares below each later one, so no two entries compare equal and no date repeats |
| CreditCards.EntryHasOneOwner | src/main/java/com/shepherdmoney/interviewproject/model/BalanceHistory.java:37-40 | an entry found in the histories of two cards names one owner, and both cards are that owner |
| CreditCards.Ceiling | src/main/java/com/shepherdmoney/interviewproject/model/CreditCard.java:55 | closest-date retrieval: nothing exactly when every entry is earlier than the date; otherwise the history's entry with the least date on or after it |
| CreditCards.ClosestDateExample | src/main/java/com/shepherdmoney/interviewproject/model/CreditCard.java:41-55 | the documented history (04-10 to 04-13, then 04-16) is a valid sorted history with a gap, and asking for 04-15 yields the 04-16 entry |
| CreditCardService.GapHistories | src/main/java/com/shepherdmoney/interviewproject/serviceImpl/CreditCardServiceImpl.java:146-157 | the rows collected for a range of days are exactly its days without a row; each takes the balance of the latest original row before it; the lookup fails only when no earlier row exists |
| CreditCardService.FillGapsInBalanceHistory | src/main/java/com/shepherdmoney/interviewproject/serviceImpl/CreditCardServiceImpl.java:137-161 | fails with ParamException exactly when the card has no row; otherwise the card has a row on every day from its earliest to its latest date and none outside, existing rows keep their balance, each new day has the balance of the latest earlier row, and other cards are untouched |
| CreditCardService.GapDayRepeatsPreviousDay | src/main/java/com/shepherdmoney/interviewproject/serviceImpl/CreditCardServiceImpl.java:146-155 | forward fill day by day: a day with no row between two rows gets a row from gap-fill, with the same balance as the day before it |
| CreditCardService.FillGapsOfDenseLedger | src/main/java/com/shepherdmoney/interviewproject/serviceImpl/CreditCardServiceImpl.java:146-159 | gap-fill of a non-empty ledger with no interior gap succeeds and changes nothing |
| CreditCardService.FillGapsIdempotent | src/main/java/com/shepherdmoney/interviewproject/serviceImpl/CreditCardServiceImpl.java:137-161 | gap-fill applied to its own result changes nothing |
| CreditCardService.AbsentDateLiesOutsideRange | src/main/java/com/shepherdmoney/interviewproject/serviceImpl/CreditCardServiceImpl.java:175-181 | after gap-fill, a day without a row lies before the earliest or after the latest recorded day, so a correction that inserts never lands between rows |
| CreditCardService.UpdateBalancesAfterPayloadDate | src/main/java/com/shepherdmoney/interviewproject/serviceImpl/CreditCardServiceImpl.java:172-194 | the corrected day holds the amount afterwards; earlier rows never change; if the day had a row, every later row gains the amount minus the stored balance; if it had none, it is inserted and nothing else changes; other cards are untouched |
| CreditCardService.CorrectionIdempotent | src/main/java/com/shepherdmoney/interviewproject/serviceImpl/CreditCardServiceImpl.java:184-186 | a correction equal to the stored balance leaves the whole table unchanged |
| CreditCardService.CorrectionTwiceIsOnce | src/main/java/com/shepherdmoney/interviewproject/serviceImpl/CreditCardServiceImpl.java:172-194 | applying the same correction twice gives the same table as applying it once |
| CreditCardService.CascadeKeepsOffsets | src/main/java/com/shepherdmoney/interviewproject/serviceImpl/CreditCardServiceImpl.java:186-192 | the cascade keeps the running balance: each later row differs from the corrected day by what it differed from the stored day before |
| CreditCardService.ProcessPayload | src/main/java/com/shepherdmoney/interviewproject/serviceImpl/CreditCardServiceImpl.java:90-103 | one payload succeeds exactly when its card number is known and the card has a row, and fails with ParamException otherwise; it never empties or fills an empty ledger |
| CreditCardService.ApplyPayloads | src/main/java/com/shepherdmoney/interviewproject/serviceImpl/CreditCardServiceImpl.java:90-111 | the loop alone reports "200 OK" exactly when every payload names a known card that has a row at the start, and ParamException otherwise |
| CreditCardService.UpdateBalanceHistory | src/main/java/com/shepherdmoney/interviewproject/serviceImpl/CreditCardServiceImpl.java:87-112 | the transactional batch: on failure the table is exactly the table before the batch and the error is ParamException, reported as 400; it succeeds exactly when every payload's card number is known and that card has a row at the start |
| CreditCardService.ApplyPayloadsInOrder | src/main/java/com/shepherdmoney/interviewproject/serviceImpl/CreditCardServiceImpl.java:90-109 | payloads run in order: running a concatenation is running the first part and then, if it succeeded, the second part on its result |
| CreditCardService.LastPayloadAppliedLast | src/main/java/com/shepherdmoney/interviewproject/serviceImpl/CreditCardServiceImpl.java:96-103 | when every payload names a known card with a row, the batch succeeds, and its table equals the batch without its last payload followed by gap-fill and correction of that payload's card |
| CreditCardService.SinglePayloadBatch | src/main/java/com/shepherdmoney/interviewproject/serviceImpl/CreditCardServiceImpl.java:87-112 | a batch of one processable payload reports "200 OK" with the table that payload produces |
| CreditCardService.GapFillExample | src/main/java/com/shepherdmoney/interviewproject/controller/CreditCardController.java:59 | gap-fill of [4/10: 100, 4/12: 110] creates 4/11 with 100 |
| CreditCardService.CorrectionExample | src/main/java/com/shepherdmoney/interviewproject/controller/CreditCardController.java:60-61 | correcting 4/11 from 100 to 110 adds 10 to 4/12 and leaves 4/10 alone |
| CreditCardService.UpdateBalanceExample | src/main/java/com/shepherdmoney/interviewproject/controller/CreditCardController.java:62-64 | the documented batch: [4/10: 100, 4/12: 110] with correction 4/11: 110 becomes [4/10: 100, 4/11: 110, 4/12: 120] |
| CreditCardService.RollbackExample | src/main/java/com/shepherdmoney/interviewproject/serviceImpl/CreditCardServiceImpl.java:87-97 | a valid correction followed by an unknown card number fails with ParamException and leaves the table as before, although the loop alone had already changed it |

## Left out

- HTTP controllers, Swagger annotations and the controller tests: routing and
  response shaping only.
- User management and the card lookups `getCreditCardsByUserId`,
  `getUserByCreditCardNumber` and `createCardForUser`: thin wrappers over
  queries. The card directory is a map from card number to card id.
- The surrogate key `id` of a balance-history row: no ledger operation reads
  it, and the natural order ignores it.
- `double` balances: balances are integers, so the floating-point rounding of
  `payloadAmount - balance` is not modelled.
- `LocalDate` calendar arithmetic: dates are day numbers.
- BalanceHistories.CompareTo: returns only -1, 0 or 1. `LocalDate.compareTo`
  returns a year, month or day difference, and only its sign is ever used.
- `EntityManager.flush` and `clear`, and other persistence mechanics. The
  flushed state between payloads is the table that `ApplyPayloads` passes
  from one payload to the next. The rollback of the transaction is
  `UpdateBalanceHistory` returning the original table.
- `saveAll` of the collected gap rows is a map union. The rows have distinct
  dates and all belong to the card being filled.
- Concurrent batches: the model is sequential.
- Logging.
- The entity comment's wording that the most recent date comes first, and
  that the last entry must be today's date (CreditCard.java:38-40). The code
  does not enforce either, and the comment's own example is in ascending
  order. The model keeps the ascending natural order.
- Deleting a balance entry: the ledger engine has no deletion path.
- BalanceHistoryRepository.FindLatestDateByCreditCard: the method is not
  declared in BalanceHistoryRepository.java, though the service calls it
  (CreditCardServiceImpl.java:141-142). It is modelled as MAX(date) over the
  card's rows, mirroring the declared MIN query at lines 25-26.
- CreditCards.Ceiling: models the closest-date requirement in the entity's
  comment (CreditCard.java:55). No source method implements it.
- CreditCardService.UpdateBalanceHistory: assumes every payload has a
  non-null date and amount. A null `balanceAmount` makes the source throw
  NullPointerException when it unboxes the amount
  (CreditCardServiceImpl.java:178 or 184). A null `balanceDate` makes it
  insert a row with no date (lines 175-179). The controller does not
  validate payloads.
- CreditCardService.UpdateBalanceHistory: assumes card numbers are unique,
  since the card directory is a map from number to card. `createCardForUser`
  (CreditCardServiceImpl.java:76-85) does not check uniqueness. With two
  cards sharing a number, `findByCardNumber` throws a non-unique-result
  exception instead of `ParamException`. In these cases the source fails with
  a runtime exception that is not `ParamException` but still rolls the
  transaction back; the model does not represent them.
