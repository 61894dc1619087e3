/** Transaction ids (app.py, generate_transaction_id): the date as
    YYYYMMDD followed by a per-day sequence number in decimal. The number
    of expenses already recorded on that day is a database read, so it is
    a parameter here. */
module TransactionIds {
  import opened Wrappers
  import opened Decimal
  import opened Records

  /** "YYYYMMDD" followed by n. */
  function TransactionIdFor(d: Date, n: nat): (id: string)
    ensures |id| >= 9 && AllDigits(id)
  {
    Padded(d.year, 4) + Padded(d.month, 2) + Padded(d.day, 2) + NatToString(n)
  }

  /** The date and the sequence number an id was made from. */
  function ParseTransactionId(id: string): Option<(Date, nat)> {
    if |id| >= 9 && AllDigits(id[..8]) && Canonical(id[8..]) then
      Some((Date(DigitsValue(id[..4]), DigitsValue(id[4..6]), DigitsValue(id[6..8])), DigitsValue(id[8..])))
    else None
  }

  /** An id reads back as the date and number it was made from. */
  lemma TransactionIdRoundTrip(d: Date, n: nat)
    requires ValidDate(d)
    ensures ParseTransactionId(TransactionIdFor(d, n)) == Some((d, n))
  {
    var y := Padded(d.year, 4);
    var m := Padded(d.month, 2);
    var dd := Padded(d.day, 2);
    var s := NatToString(n);
    var id := y + m + dd + s;
    PaddedRoundTrip(d.year, 4);
    PaddedRoundTrip(d.month, 2);
    PaddedRoundTrip(d.day, 2);
    NatToStringRoundTrip(n);
    NatToStringCanonical(n);
    assert id[..4] == y && id[4..6] == m && id[6..8] == dd && id[8..] == s;
    assert id[..8] == y + m + dd;
  }

  /** Different dates or numbers never give the same id. */
  lemma TransactionIdInjective(d1: Date, n1: nat, d2: Date, n2: nat)
    requires ValidDate(d1) && ValidDate(d2)
    requires TransactionIdFor(d1, n1) == TransactionIdFor(d2, n2)
    ensures d1 == d2 && n1 == n2
  {
    TransactionIdRoundTrip(d1, n1);
    TransactionIdRoundTrip(d2, n2);
  }

  /** On one day, two numbers give the same id exactly when they are
      equal (whatever the date). */
  lemma SameDayInjective(d: Date, n1: nat, n2: nat)
    ensures TransactionIdFor(d, n1) == TransactionIdFor(d, n2) <==> n1 == n2
  {
    if TransactionIdFor(d, n1) == TransactionIdFor(d, n2) {
      var prefix := Padded(d.year, 4) + Padded(d.month, 2) + Padded(d.day, 2);
      var id := TransactionIdFor(d, n1);
      assert id[|prefix|..] == NatToString(n1);
      assert TransactionIdFor(d, n2)[|prefix|..] == NatToString(n2);
      NatToStringRoundTrip(n1);
      NatToStringRoundTrip(n2);
    }
  }

  /** How many recorded expenses carry date d. */
  function CountOnDate(expenses: seq<Expense>, d: Date): (c: nat)
    ensures c <= |expenses|
    ensures c == 0 <==> forall e :: e in expenses ==> e.date != d
  {
    if expenses == [] then 0
    else
      var last := expenses[|expenses| - 1];
      CountOnDate(expenses[..|expenses| - 1], d) + if last.date == d then 1 else 0
  }

  /** The ids in use. */
  function Ids(expenses: seq<Expense>): (ids: set<string>)
    ensures forall e :: e in expenses ==> e.transactionId in ids
    ensures forall id :: id in ids ==> exists e :: e in expenses && e.transactionId == id
  {
    set e | e in expenses :: e.transactionId
  }

  /** The id as app.py computes it: the day's count plus one. */
  function GenerateTransactionId(d: Date, count: nat): (id: string)
    ensures ValidDate(d) ==> ParseTransactionId(id) == Some((d, count + 1))
  {
    if ValidDate(d) then
      TransactionIdRoundTrip(d, count + 1);
      TransactionIdFor(d, count + 1)
    else
      TransactionIdFor(d, count + 1)
  }

  /** After two expenses on one day and the deletion of the first, the
      count-based id is the id of the expense still recorded: the insert
      then breaks the uniqueness of transaction ids. */
  lemma GeneratedIdCollides(d: Date, first: Expense, second: Expense)
    requires first.date == d && second.date == d
    requires first.transactionId == GenerateTransactionId(d, 0)
    requires second.transactionId == GenerateTransactionId(d, 1)
    ensures var live := [first, second][..0] + [first, second][1..];
      GenerateTransactionId(d, CountOnDate(live, d)) in Ids(live)
  {
    var live := [first, second][..0] + [first, second][1..];
    assert live == [second];
    assert live[..0] == [];
  }

  /** The first sequence number from n on whose id is not in use. */
  function NextFree(d: Date, used: set<string>, n: nat): (k: nat)
    ensures k >= n && TransactionIdFor(d, k) !in used
    ensures forall j :: n <= j < k ==> TransactionIdFor(d, j) in used
    ensures TransactionIdFor(d, n) !in used ==> k == n
    decreases |used|
  {
    var id := TransactionIdFor(d, n);
    if id !in used then n
    else
      var k := NextFree(d, used - {id}, n + 1);
      SameDayInjective(d, k, n);
      assert TransactionIdFor(d, k) !in used;
      assert forall j :: n + 1 <= j < k ==> TransactionIdFor(d, j) in used;
      k
  }

  /** The id the store hands out: the count-based number, moved on past
      any number whose id is still in use. */
  function NextTransactionId(d: Date, expenses: seq<Expense>): (id: string)
    ensures id !in Ids(expenses)
    ensures var asWritten := GenerateTransactionId(d, CountOnDate(expenses, d));
      asWritten !in Ids(expenses) ==> id == asWritten
  {
    var n := CountOnDate(expenses, d) + 1;
    assert GenerateTransactionId(d, n - 1) == TransactionIdFor(d, n);
    TransactionIdFor(d, NextFree(d, Ids(expenses), n))
  }
}
