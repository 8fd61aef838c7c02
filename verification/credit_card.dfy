/** The credit-card entity (model/CreditCard.java): a card owns its balance
    history, a set kept in natural order, that is by ascending date. */
module CreditCards {
  import opened Wrappers
  import opened BalanceHistories
  import opened BalanceHistoryRepository

  /** Dates strictly ascend along the history, so none repeats. */
  predicate NaturallySorted(h: seq<BalanceEntry>) {
    forall i, j :: 0 <= i < j < |h| ==> h[i].date < h[j].date
  }

  /** Every entry names `card` as its owner. */
  predicate OwnedBy(h: seq<BalanceEntry>, card: CardId) {
    forall i :: 0 <= i < |h| ==> h[i].card == card
  }

  /** The dates a history records. */
  function Dates(h: seq<BalanceEntry>): set<Date> {
    set i | 0 <= i < |h| :: h[i].date
  }

  /** A credit card and its balance history. */
  datatype CreditCard = CreditCard(id: CardId, number: string, balanceHistory: seq<BalanceEntry>) {
    predicate Valid() {
      NaturallySorted(balanceHistory) && OwnedBy(balanceHistory, id)
    }
  }

  /** Putting an entry before a sorted history whose dates all follow it
      keeps the history sorted. */
  lemma SortedPrepend(x: BalanceEntry, t: seq<BalanceEntry>)
    requires NaturallySorted(t)
    requires forall i :: 0 <= i < |t| ==> x.date < t[i].date
    ensures NaturallySorted([x] + t)
  {
    var h := [x] + t;
    forall i, j | 0 <= i < j < |h|
      ensures h[i].date < h[j].date
    {
      assert h[j] == t[j - 1];
      if 0 < i {
        assert h[i] == t[i - 1];
      }
    }
  }

  /** The dates of an entry put before a history. */
  lemma DatesPrepend(x: BalanceEntry, t: seq<BalanceEntry>)
    ensures Dates([x] + t) == {x.date} + Dates(t)
  {
    var h := [x] + t;
    forall d | d in Dates(h)
      ensures d in {x.date} + Dates(t)
    {
      var i :| 0 <= i < |h| && h[i].date == d;
      if 0 < i {
        assert t[i - 1].date == d;
      }
    }
    forall d | d in Dates(t)
      ensures d in Dates(h)
    {
      var i :| 0 <= i < |t| && t[i].date == d;
      assert h[i + 1].date == d;
    }
    assert h[0].date == x.date;
  }

  /** The card's rows as the entity sees them: the rows whose owner is the
      card, in natural order. */
  ghost function BalanceHistoryOf(s: Store, card: CardId): (h: seq<BalanceEntry>)
    ensures NaturallySorted(h) && OwnedBy(h, card)
    ensures Dates(h) == LedgerOf(s, card).Keys
    ensures forall i :: 0 <= i < |h| ==> h[i].date in LedgerOf(s, card) && LedgerOf(s, card)[h[i].date] == h[i].balance
  {
    SortedEntries(LedgerOf(s, card), card)
  }

  /** The entries of a ledger in ascending date order. */
  ghost function SortedEntries(l: Ledger, card: CardId): (h: seq<BalanceEntry>)
    ensures NaturallySorted(h) && OwnedBy(h, card)
    ensures Dates(h) == l.Keys
    ensures forall i :: 0 <= i < |h| ==> h[i].date in l && l[h[i].date] == h[i].balance
    decreases l.Keys
  {
    if l == map[] then []
    else
      var first := Earliest(l);
      var rest := l - {first};
      assert rest.Keys == l.Keys - {first};
      var tail := SortedEntries(rest, card);
      var x := BalanceEntry(first, l[first], card);
      SortedPrepend(x, tail);
      DatesPrepend(x, tail);
      EntriesPrepend(x, tail, l, card);
      [x] + tail
  }

  /** Putting an entry of the ledger before entries of the ledger, all owned
      by `card`, gives entries of the ledger owned by `card`. */
  lemma EntriesPrepend(x: BalanceEntry, t: seq<BalanceEntry>, l: Ledger, card: CardId)
    requires x.card == card && x.date in l && l[x.date] == x.balance
    requires OwnedBy(t, card)
    requires forall i :: 0 <= i < |t| ==> t[i].date in l && l[t[i].date] == t[i].balance
    ensures OwnedBy([x] + t, card)
    ensures forall i :: 0 <= i < |[x] + t| ==> ([x] + t)[i].date in l && l[([x] + t)[i].date] == ([x] + t)[i].balance
  {
    var h := [x] + t;
    assert forall i :: 1 <= i < |h| ==> h[i] == t[i - 1];
  }

  /** Sorted-set insertion under the natural order (TreeSet.add): an entry
      with a new date goes to its place, one whose date is present is not
      added and the history is unchanged. */
  function Add(h: seq<BalanceEntry>, e: BalanceEntry): (r: seq<BalanceEntry>)
    requires NaturallySorted(h)
    ensures NaturallySorted(r)
    ensures forall x :: x in r ==> x in h || x == e
    ensures e.date in Dates(h) ==> r == h
    ensures e.date !in Dates(h) ==> multiset(r) == multiset(h) + multiset{e}
  {
    if |h| == 0 then [e]
    else if CompareTo(e, h[0]) < 0 then
      SortedPrepend(e, h);
      assert e.date !in Dates(h);
      [e] + h
    else if CompareTo(e, h[0]) == 0 then
      assert h[0].date in Dates(h);
      h
    else
      var tail := h[1..];
      assert h == [h[0]] + tail;
      DatesPrepend(h[0], tail);
      var added := Add(tail, e);
      KeepFirst(h, e, added);
      [h[0]] + added
  }

  /** The first entry of a sorted history stays first when the rest is
      replaced by a sorted sequence of its entries and a later entry. */
  lemma KeepFirst(h: seq<BalanceEntry>, e: BalanceEntry, added: seq<BalanceEntry>)
    requires NaturallySorted(h) && |h| > 0 && h[0].date < e.date
    requires NaturallySorted(added)
    requires forall x :: x in added ==> x in h[1..] || x == e
    ensures NaturallySorted([h[0]] + added)
  {
    forall i | 0 <= i < |added|
      ensures h[0].date < added[i].date
    {
      assert added[i] in added;
      if added[i] != e {
        var k :| 0 <= k < |h[1..]| && h[1..][k] == added[i];
        assert h[1..][k] == h[k + 1];
      }
    }
    SortedPrepend(h[0], added);
  }

  /** Adding an entry owned by the card keeps the card's history valid. */
  lemma AddKeepsCardValid(c: CreditCard, e: BalanceEntry)
    requires c.Valid() && e.card == c.id
    ensures c.(balanceHistory := Add(c.balanceHistory, e)).Valid()
  {
    var r := Add(c.balanceHistory, e);
    forall i | 0 <= i < |r|
      ensures r[i].card == c.id
    {
      assert r[i] in r;
    }
  }

  /** A sorted history is ordered by CompareTo, the natural order: each
      entry compares below every later one, and as CompareTo is zero exactly
      on equal dates, no two entries share a date. */
  lemma SortedHistoryFollowsCompareTo(h: seq<BalanceEntry>)
    requires NaturallySorted(h)
    ensures forall i, j :: 0 <= i < j < |h| ==> CompareTo(h[i], h[j]) < 0
    ensures forall i, j :: 0 <= i < |h| && 0 <= j < |h| && i != j ==> CompareTo(h[i], h[j]) != 0
  {
  }

  /** A row is in the history of exactly one card: its owner. */
  lemma EntryHasOneOwner(s: Store, c1: CardId, c2: CardId, e: BalanceEntry)
    requires e in BalanceHistoryOf(s, c1) && e in BalanceHistoryOf(s, c2)
    ensures c1 == c2 && e.card == c1
  {
  }

  /** Closest-date retrieval: the earliest entry dated on or after `date`. */
  function Ceiling(h: seq<BalanceEntry>, date: Date): (r: Option<BalanceEntry>)
    requires NaturallySorted(h)
    ensures r.None? <==> forall i :: 0 <= i < |h| ==> h[i].date < date
    ensures r.Some? ==> r.value in h && date <= r.value.date
    ensures r.Some? ==> forall i :: 0 <= i < |h| && date <= h[i].date ==> r.value.date <= h[i].date
  {
    if |h| == 0 then None
    else if date <= h[0].date then Some(h[0])
    else
      assert forall i :: 1 <= i < |h| ==> h[i] == h[1..][i - 1];
      Ceiling(h[1..], date)
  }

  /** The history from the entity's documentation: ascending dates with a gap
      between 04-13 and 04-16; asking for 04-15 yields the 04-16 entry. */
  lemma ClosestDateExample(card: CardId)
    ensures var h := [BalanceEntry(Apr10, 800, card), BalanceEntry(Apr10 + 1, 1000, card),
                      BalanceEntry(Apr10 + 2, 1200, card), BalanceEntry(Apr10 + 3, 1100, card),
                      BalanceEntry(Apr10 + 6, 900, card)];
            && CreditCard(card, "4111", h).Valid()
            && Ceiling(h, Apr10 + 5) == Some(BalanceEntry(Apr10 + 6, 900, card))
  {
    var h := [BalanceEntry(Apr10, 800, card), BalanceEntry(Apr10 + 1, 1000, card),
              BalanceEntry(Apr10 + 2, 1200, card), BalanceEntry(Apr10 + 3, 1100, card),
              BalanceEntry(Apr10 + 6, 900, card)];
    assert CreditCard(card, "4111", h).Valid();
    assert h[4].date >= Apr10 + 5;
    var r := Ceiling(h, Apr10 + 5);
    assert r.value in h;
  }
}
