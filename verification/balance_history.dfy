/** The balance-history entity (model/BalanceHistory.java): the balance of
    one credit card on one date, ordered by date alone. */
module BalanceHistories {

  /** A calendar date as a day number: LocalDate.plusDays(1) is + 1. */
  type Date = int

  /** A balance in the smallest currency unit. */
  type Balance = int

  /** The internal identifier of a credit card. */
  type CardId = int

  /** 2023-04-10 as a day number (days since 1970-01-01), for the worked examples. */
  const Apr10: Date := 19457

  /** One balance-history row; `card` is the single owning credit card. */
  datatype BalanceEntry = BalanceEntry(date: Date, balance: Balance, card: CardId)

  /** The natural ordering of entries (Comparable.compareTo): the sign of the
      date comparison; the balance and the owning card play no part. */
  function CompareTo(a: BalanceEntry, b: BalanceEntry): (r: int)
    ensures r < 0 <==> a.date < b.date
    ensures r == 0 <==> a.date == b.date
    ensures r > 0 <==> b.date < a.date
  {
    if a.date < b.date then -1
    else if a.date == b.date then 0
    else 1
  }

  /** CompareTo meets the contract of Comparable: it is antisymmetric in sign,
      transitive, and entries comparing equal compare alike with every third entry. */
  lemma CompareToIsTotalOrder()
    ensures forall a, b :: CompareTo(a, b) == -CompareTo(b, a)
    ensures forall a, b, c :: CompareTo(a, b) < 0 && CompareTo(b, c) < 0 ==> CompareTo(a, c) < 0
    ensures forall a, b, c :: CompareTo(a, b) == 0 ==> CompareTo(a, c) == CompareTo(b, c)
  {
  }

  /** Two entries that differ only in balance or owner compare equal, so a
      sorted set keyed by CompareTo keeps at most one of them. */
  lemma CompareToIgnoresBalanceAndCard(a: BalanceEntry, balance: Balance, card: CardId)
    ensures CompareTo(a, a.(balance := balance, card := card)) == 0
  {
  }
}
