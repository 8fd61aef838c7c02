/** The balance-history table and the queries the ledger engine runs on it
    (repository/BalanceHistoryRepository.java). Every query and update is
    scoped to one owning card. */
module BalanceHistoryRepository {
  import opened Wrappers
  import opened BalanceHistories
  import OrderedKeys

  /** One card's balance history: at most one balance per date. */
  type Ledger = map<Date, Balance>

  /** The balance-history table, grouped by owning card. A card with no row
      has no key or an empty ledger; both read as the empty ledger. */
  type Store = map<CardId, Ledger>

  /** The rows of the table owned by `card`. */
  function LedgerOf(s: Store, card: CardId): Ledger {
    if card in s then s[card] else map[]
  }

  /** The earliest recorded date of a non-empty ledger. */
  ghost function Earliest(l: Ledger): (d: Date)
    requires l != map[]
    ensures d in l
    ensures forall k :: k in l ==> d <= k
  {
    OrderedKeys.Least(l.Keys)
  }

  /** The latest recorded date of a non-empty ledger. */
  ghost function Latest(l: Ledger): (d: Date)
    requires l != map[]
    ensures d in l
    ensures forall k :: k in l ==> k <= d
  {
    OrderedKeys.Greatest(l.Keys)
  }

  /** Point lookup: the card's row at exactly `date`, if there is one. */
  function GetByCreditCardAndDate(s: Store, card: CardId, date: Date): (r: Option<BalanceEntry>)
    ensures r.None? ==> date !in LedgerOf(s, card)
    ensures r.Some? ==> r.value.card == card && r.value.date == date
    ensures r.Some? ==> date in LedgerOf(s, card) && LedgerOf(s, card)[date] == r.value.balance
  {
    var l := LedgerOf(s, card);
    if date in l then Some(BalanceEntry(date, l[date], card)) else None
  }

  /** Whether the card has a row at `date`. */
  function ExistsByCreditCardAndDate(s: Store, card: CardId, date: Date): (b: bool)
    ensures b <==> GetByCreditCardAndDate(s, card, date).Some?
  {
    date in LedgerOf(s, card)
  }

  /** MIN(date) over the card's rows; empty exactly when the card has no row. */
  ghost function FindEarliestDateByCreditCard(s: Store, card: CardId): (r: Option<Date>)
    ensures r.None? <==> LedgerOf(s, card) == map[]
    ensures r.Some? ==> r.value in LedgerOf(s, card)
    ensures r.Some? ==> forall d :: d in LedgerOf(s, card) ==> r.value <= d
  {
    var l := LedgerOf(s, card);
    if l == map[] then None else Some(Earliest(l))
  }

  /** MAX(date) over the card's rows; empty exactly when the card has no row. */
  ghost function FindLatestDateByCreditCard(s: Store, card: CardId): (r: Option<Date>)
    ensures r.None? <==> LedgerOf(s, card) == map[]
    ensures r.Some? ==> r.value in LedgerOf(s, card)
    ensures r.Some? ==> forall d :: d in LedgerOf(s, card) ==> d <= r.value
  {
    var l := LedgerOf(s, card);
    if l == map[] then None else Some(Latest(l))
  }

  /** The card's row with the greatest date strictly before `date`
      (ORDER BY date DESC LIMIT 1), or none when no earlier row exists. */
  ghost function FindTopByCreditCardAndDateBefore(s: Store, card: CardId, date: Date): (r: Option<BalanceEntry>)
    ensures r.None? <==> forall d :: d in LedgerOf(s, card) ==> date <= d
    ensures r.Some? ==> r.value.card == card && r.value.date < date
    ensures r.Some? ==> r.value.date in LedgerOf(s, card) && LedgerOf(s, card)[r.value.date] == r.value.balance
    ensures r.Some? ==> forall d :: d in LedgerOf(s, card) && d < date ==> d <= r.value.date
  {
    var l := LedgerOf(s, card);
    var before := set d | d in l && d < date;
    assert forall d :: d in l && d < date ==> d in before;
    if before == {} then None
    else
      var top := OrderedKeys.Greatest(before);
      Some(BalanceEntry(top, l[top], card))
  }

  /** Insert-or-update of one row (JpaRepository.save). */
  function Save(s: Store, e: BalanceEntry): (r: Store)
    ensures r.Keys == s.Keys + {e.card}
    ensures LedgerOf(r, e.card).Keys == LedgerOf(s, e.card).Keys + {e.date}
    ensures LedgerOf(r, e.card)[e.date] == e.balance
    ensures forall d :: d in LedgerOf(s, e.card) && d != e.date ==> LedgerOf(r, e.card)[d] == LedgerOf(s, e.card)[d]
    ensures forall c :: c != e.card ==> LedgerOf(r, c) == LedgerOf(s, c)
  {
    s[e.card := LedgerOf(s, e.card)[e.date := e.balance]]
  }

  /** The bulk update: adds `difference` to every row of `card` dated strictly
      after `date`; no row is created or removed. */
  function UpdateBalancesAfterDate(s: Store, date: Date, difference: Balance, card: CardId): (r: Store)
    ensures r.Keys == s.Keys
    ensures LedgerOf(r, card).Keys == LedgerOf(s, card).Keys
    ensures forall d :: d in LedgerOf(s, card) && date < d ==> LedgerOf(r, card)[d] == LedgerOf(s, card)[d] + difference
    ensures forall d :: d in LedgerOf(s, card) && d <= date ==> LedgerOf(r, card)[d] == LedgerOf(s, card)[d]
    ensures forall c :: c != card ==> LedgerOf(r, c) == LedgerOf(s, c)
  {
    if card !in s then s
    else
      var l := s[card];
      s[card := map d | d in l :: if date < d then l[d] + difference else l[d]]
  }

  /** Reading a row back after saving it yields the saved row; every other
      (card, date) reads as before. */
  lemma GetAfterSave(s: Store, e: BalanceEntry, card: CardId, date: Date)
    ensures GetByCreditCardAndDate(Save(s, e), card, date)
         == if card == e.card && date == e.date then Some(e) else GetByCreditCardAndDate(s, card, date)
  {
  }

  /** A bulk update by `difference` is undone by the bulk update by its
      negation at the same date. */
  lemma {:induction false} UpdateBalancesAfterDateInverse(s: Store, date: Date, difference: Balance, card: CardId)
    ensures UpdateBalancesAfterDate(UpdateBalancesAfterDate(s, date, difference, card), date, -difference, card) == s
  {
    var r := UpdateBalancesAfterDate(UpdateBalancesAfterDate(s, date, difference, card), date, -difference, card);
    if card in s {
      assert r[card] == s[card];
    }
  }

  /** A bulk update by zero changes nothing. */
  lemma {:induction false} UpdateBalancesAfterDateZero(s: Store, date: Date, card: CardId)
    ensures UpdateBalancesAfterDate(s, date, 0, card) == s
  {
    if card in s {
      assert UpdateBalancesAfterDate(s, date, 0, card)[card] == s[card];
    }
  }

  /** The row before the day after a recorded day is that day's row. */
  lemma TopBeforeNextDay(s: Store, card: CardId, date: Date)
    requires date in LedgerOf(s, card)
    ensures FindTopByCreditCardAndDateBefore(s, card, date + 1)
         == Some(BalanceEntry(date, LedgerOf(s, card)[date], card))
  {
  }

  /** Moving the bound of the "latest before" query across a day with no row
      does not change its answer. */
  lemma TopBeforeSkipsMissingDay(s: Store, card: CardId, date: Date)
    requires date !in LedgerOf(s, card)
    ensures FindTopByCreditCardAndDateBefore(s, card, date + 1)
         == FindTopByCreditCardAndDateBefore(s, card, date)
  {
  }
}
