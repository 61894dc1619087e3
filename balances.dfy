/** `calculate_balances` and `get_member_summary`: folds over the recorded
    expenses and their split rows. */
module Balances {
  import opened Records

  /** Every split row of every expense, expense by expense. */
  function AllRows(es: seq<Expense>): seq<Entry> {
    if es == [] then [] else AllRows(es[..|es| - 1]) + es[|es| - 1].splits
  }

  /** `balances[m] += x`, first inserting m at 0 when it has no entry yet;
      an existing entry keeps its position, a new one goes last (the
      insertion order of a Python dict). */
  function Credit(balances: seq<Entry>, m: Member, x: real): seq<Entry> {
    var k := Find(balances, m);
    if k < |balances| then balances[k := Entry(m, balances[k].amount + x)]
    else balances + [Entry(m, 0.0 + x)]
  }

  /** The balance table built by crediting each row in turn. */
  function Tally(rows: seq<Entry>): seq<Entry> {
    if rows == [] then []
    else
      var last := rows[|rows| - 1];
      Credit(Tally(rows[..|rows| - 1]), last.member, last.amount)
  }

  /** The balances of a sequence of expenses. */
  function BalancesOf(es: seq<Expense>): seq<Entry> {
    Tally(AllRows(es))
  }

  /** The nested loops of `calculate_balances`. */
  method CalculateBalances(es: seq<Expense>) returns (balances: seq<Entry>)
    ensures balances == BalancesOf(es)
  {
    balances := [];
    for i := 0 to |es|
      invariant balances == Tally(AllRows(es[..i]))
    {
      var splits := es[i].splits;
      ghost var done := AllRows(es[..i]);
      assert done + splits[..0] == done;
      for j := 0 to |splits|
        invariant balances == Tally(done + splits[..j])
      {
        TallyStep(done, splits, j);
        balances := Credit(balances, splits[j].member, splits[j].amount);
      }
      AllRowsSnoc(es[..i + 1]);
      assert es[..i + 1][..i] == es[..i];
      assert splits[..|splits|] == splits;
    }
    assert es[..|es|] == es;
  }

  /** One more row of an expense credited onto the table. */
  lemma TallyStep(done: seq<Entry>, rows: seq<Entry>, j: nat)
    requires j < |rows|
    ensures Tally(done + rows[..j + 1]) == Credit(Tally(done + rows[..j]), rows[j].member, rows[j].amount)
  {
    var longer := done + rows[..j + 1];
    assert longer[..|longer| - 1] == done + rows[..j];
  }

  lemma AllRowsSnoc(es: seq<Expense>)
    requires es != []
    ensures AllRows(es) == AllRows(es[..|es| - 1]) + es[|es| - 1].splits
  {
  }

  /** Each member once, in order of first appearance. */
  function FirstAppearances(ms: seq<Member>): seq<Member> {
    if ms == [] then []
    else
      var earlier := FirstAppearances(ms[..|ms| - 1]);
      if ms[|ms| - 1] in earlier then earlier else earlier + [ms[|ms| - 1]]
  }

  /** Sum of f over the expenses. */
  function SumOver(es: seq<Expense>, f: Expense -> real): real {
    if es == [] then 0.0 else SumOver(es[..|es| - 1], f) + f(es[|es| - 1])
  }

  /** m's rows in one expense. */
  function RowsIn(m: Member): Expense -> real {
    (e: Expense) => SumFor(e.splits, m)
  }

  /** What m paid for one expense. */
  function PaidIn(m: Member): Expense -> real {
    (e: Expense) => if e.payer == m then e.amount else 0.0
  }

  /** m's split amount in one expense, 0 when m has none. */
  function OwedIn(m: Member): Expense -> real {
    (e: Expense) => Lookup(e.splits, m)
  }

  /** m's total over the split rows of the expenses. */
  function SplitTotal(es: seq<Expense>, m: Member): real {
    SumOver(es, RowsIn(m))
  }

  /** `total_paid` of `get_member_summary`: the amounts of the expenses m
      paid for. */
  function PaidBy(es: seq<Expense>, m: Member): real {
    SumOver(es, PaidIn(m))
  }

  /** `total_owed` of `get_member_summary`: m's split amount in each
      expense where m has one. */
  function OwedBy(es: seq<Expense>, m: Member): real {
    SumOver(es, OwedIn(m))
  }

  /** The loop of `get_member_summary`. */
  method MemberSummary(es: seq<Expense>, m: Member) returns (totalPaid: real, totalOwed: real)
    ensures totalPaid == PaidBy(es, m) && totalOwed == OwedBy(es, m)
  {
    totalPaid, totalOwed := 0.0, 0.0;
    for i := 0 to |es|
      invariant totalPaid == PaidBy(es[..i], m) && totalOwed == OwedBy(es[..i], m)
    {
      assert es[..i + 1][..i] == es[..i];
      if es[i].payer == m {
        totalPaid := totalPaid + es[i].amount;
      }
      var k := Find(es[i].splits, m);
      if k < |es[i].splits| {
        totalOwed := totalOwed + es[i].splits[k].amount;
      }
    }
    assert es[..|es|] == es;
  }

  // ---------------------------------------------------------------------
  // Facts about single steps

  lemma {:induction false} TotalUpdate(b: seq<Entry>, k: nat, e: Entry)
    requires k < |b|
    ensures Total(b[k := e]) == Total(b) - b[k].amount + e.amount
    decreases |b|
  {
    var n := |b|;
    if k < n - 1 {
      TotalUpdate(b[..n - 1], k, e);
      assert b[k := e][..n - 1] == b[..n - 1][k := e];
    } else {
      assert b[k := e][..n - 1] == b[..n - 1];
    }
  }

  lemma {:induction false} FindSameMembers(a: seq<Entry>, b: seq<Entry>, m: Member)
    requires Members(a) == Members(b)
    ensures Find(a, m) == Find(b, m)
    decreases |a|
  {
    if a != [] {
      assert a[0].member == b[0].member;
      assert Members(a[1..]) == Members(a)[1..] && Members(b[1..]) == Members(b)[1..];
      FindSameMembers(a[1..], b[1..], m);
    }
  }

  lemma FindAppend(b: seq<Entry>, e: Entry, m: Member)
    ensures Find(b + [e], m) == if Find(b, m) < |b| then Find(b, m)
                                 else if e.member == m then |b| else |b| + 1
  {
    var bb := b + [e];
    assert bb[..|bb| - 1] == b;
    FindPrefix(bb, m);
  }

  /** Crediting keeps members distinct, appends a new member at the end,
      adds x to m's balance only, and adds x to the total. */
  lemma CreditFacts(b: seq<Entry>, m: Member, x: real)
    requires Distinct(Members(b))
    ensures Members(Credit(b, m, x)) == if m in Members(b) then Members(b) else Members(b) + [m]
    ensures Distinct(Members(Credit(b, m, x)))
    ensures forall m' :: Lookup(Credit(b, m, x), m') == Lookup(b, m') + if m' == m then x else 0.0
    ensures Total(Credit(b, m, x)) == Total(b) + x
  {
    if Find(b, m) < |b| {
      CreditExisting(b, m, x);
    } else {
      CreditNew(b, m, x);
      AppendDistinct(Members(b), m);
    }
  }

  /** Crediting a member that has an entry updates that entry in place. */
  lemma CreditExisting(b: seq<Entry>, m: Member, x: real)
    requires Find(b, m) < |b|
    ensures m in Members(b) && Members(Credit(b, m, x)) == Members(b)
    ensures forall m' :: Lookup(Credit(b, m, x), m') == Lookup(b, m') + if m' == m then x else 0.0
    ensures Total(Credit(b, m, x)) == Total(b) + x
  {
    var k := Find(b, m);
    var e := Entry(m, b[k].amount + x);
    assert Credit(b, m, x) == b[k := e];
    UpdateFacts(b, k, e);
  }

  /** Replacing entry k by one of the same member keeps the members,
      changes the total by the difference, and changes only that member's
      balance. */
  lemma UpdateFacts(b: seq<Entry>, k: nat, e: Entry)
    requires k < |b| && Find(b, e.member) == k
    ensures e.member in Members(b) && Members(b[k := e]) == Members(b)
    ensures forall m' :: Lookup(b[k := e], m') == Lookup(b, m') + if m' == e.member then e.amount - b[k].amount else 0.0
    ensures Total(b[k := e]) == Total(b) - b[k].amount + e.amount
  {
    assert Members(b)[k] == e.member;
    assert Members(b[k := e]) == Members(b);
    TotalUpdate(b, k, e);
    forall m' ensures Lookup(b[k := e], m') == Lookup(b, m') + if m' == e.member then e.amount - b[k].amount else 0.0 {
      FindSameMembers(b[k := e], b, m');
    }
  }

  /** Crediting a member without an entry appends one holding x. */
  lemma CreditNew(b: seq<Entry>, m: Member, x: real)
    requires Find(b, m) == |b|
    ensures m !in Members(b) && Members(Credit(b, m, x)) == Members(b) + [m]
    ensures forall m' :: Lookup(Credit(b, m, x), m') == Lookup(b, m') + if m' == m then x else 0.0
    ensures Total(Credit(b, m, x)) == Total(b) + x
  {
    var e := Entry(m, 0.0 + x);
    var c := b + [e];
    assert Credit(b, m, x) == c;
    assert Members(c) == Members(b) + [m];
    TotalConcat(b, [e]);
    assert Total([e]) == x by {
      assert [e][..0] == [];
    }
    forall m' ensures Lookup(c, m') == Lookup(b, m') + if m' == m then x else 0.0 {
      FindAppend(b, e, m');
    }
  }

  lemma AppendDistinct(ms: seq<Member>, m: Member)
    requires Distinct(ms) && m !in ms
    ensures Distinct(ms + [m])
  {
  }

  lemma {:induction false} FirstAppearancesFacts(ms: seq<Member>)
    ensures Distinct(FirstAppearances(ms))
    ensures forall m :: m in FirstAppearances(ms) <==> m in ms
    decreases |ms|
  {
    if ms != [] {
      FirstAppearancesFacts(ms[..|ms| - 1]);
      assert ms == ms[..|ms| - 1] + [ms[|ms| - 1]];
    }
  }

  /** The table built from rows: its members are the rows' members in
      order of first appearance, each member's balance is the sum of its
      rows, and the balances total what the rows total. */
  lemma {:induction false} TallyFacts(rows: seq<Entry>)
    ensures Members(Tally(rows)) == FirstAppearances(Members(rows))
    ensures Distinct(Members(Tally(rows)))
    ensures forall m :: Lookup(Tally(rows), m) == SumFor(rows, m)
    ensures Total(Tally(rows)) == Total(rows)
    decreases |rows|
  {
    FirstAppearancesFacts(Members(rows));
    if rows != [] {
      var init := rows[..|rows| - 1];
      var last := rows[|rows| - 1];
      TallyFacts(init);
      assert Members(init) == Members(rows)[..|rows| - 1];
      CreditFacts(Tally(init), last.member, last.amount);
    }
  }

  // ---------------------------------------------------------------------
  // Sums over expenses

  lemma {:induction false} SumOverConcat(a: seq<Expense>, b: seq<Expense>, f: Expense -> real)
    ensures SumOver(a + b, f) == SumOver(a, f) + SumOver(b, f)
    decreases |b|
  {
    if b == [] {
      assert a + b == a;
    } else {
      SumOverConcat(a, b[..|b| - 1], f);
      assert (a + b)[..|a + b| - 1] == a + b[..|b| - 1];
    }
  }

  /** A sum over expenses does not depend on their order. */
  lemma {:induction false} SumOverPermutation(a: seq<Expense>, b: seq<Expense>, f: Expense -> real)
    requires multiset(a) == multiset(b)
    ensures SumOver(a, f) == SumOver(b, f)
    decreases |a|
  {
    if a == [] {
      assert |b| == |multiset(b)| == 0;
    } else {
      var x := a[|a| - 1];
      var init := a[..|a| - 1];
      assert a == init + [x];
      assert x in multiset(b);
      var k :| 0 <= k < |b| && b[k] == x;
      var rest := b[..k] + b[k + 1..];
      assert b == b[..k] + [x] + b[k + 1..];
      assert multiset(a) == multiset(init) + multiset{x};
      assert multiset(b) == multiset(rest) + multiset{x} by {
        assert b == b[..k] + [x] + b[k + 1..];
        assert rest == b[..k] + b[k + 1..];
      }
      assert multiset(init) == multiset(a) - multiset{x};
      assert multiset(rest) == multiset(b) - multiset{x};
      SumOverPermutation(init, rest, f);
      SumOverConcat(b[..k] + [x], b[k + 1..], f);
      SumOverConcat(b[..k], [x], f);
      SumOverConcat(b[..k], b[k + 1..], f);
      assert SumOver([x], f) == f(x) by {
        assert [x][..0] == [];
      }
    }
  }

  lemma {:induction false} SumOverPointwise(es: seq<Expense>, f: Expense -> real, g: Expense -> real)
    requires forall e :: e in es ==> f(e) == g(e)
    ensures SumOver(es, f) == SumOver(es, g)
    decreases |es|
  {
    if es != [] {
      SumOverPointwise(es[..|es| - 1], f, g);
    }
  }

  lemma {:induction false} AllRowsSumFor(es: seq<Expense>, m: Member)
    ensures SumFor(AllRows(es), m) == SplitTotal(es, m)
    decreases |es|
  {
    if es != [] {
      var init := es[..|es| - 1];
      AllRowsSumFor(init, m);
      SumForConcat(AllRows(init), es[|es| - 1].splits, m);
    }
  }

  lemma {:induction false} AllRowsTotal(es: seq<Expense>)
    requires forall e :: e in es ==> Total(e.splits) == 0.0
    ensures Total(AllRows(es)) == 0.0
    decreases |es|
  {
    if es != [] {
      var init := es[..|es| - 1];
      AllRowsTotal(init);
      TotalConcat(AllRows(init), es[|es| - 1].splits);
    }
  }

  lemma {:induction false} AllRowsMembers(es: seq<Expense>, m: Member)
    ensures m in Members(AllRows(es)) <==> exists e :: e in es && m in Members(e.splits)
    decreases |es|
  {
    if es != [] {
      var init := es[..|es| - 1];
      var last := es[|es| - 1];
      AllRowsMembers(init, m);
      assert Members(AllRows(es)) == Members(AllRows(init)) + Members(last.splits);
      assert es == init + [last];
    }
  }

  // ---------------------------------------------------------------------
  // Properties of calculate_balances

  /** The balance table has exactly one entry for each member that has a
      split row in some expense, in order of first appearance. */
  lemma BalanceMembers(es: seq<Expense>)
    ensures Members(BalancesOf(es)) == FirstAppearances(Members(AllRows(es)))
    ensures Distinct(Members(BalancesOf(es)))
    ensures forall m :: m in Members(BalancesOf(es)) <==> exists e :: e in es && m in Members(e.splits)
  {
    TallyFacts(AllRows(es));
    FirstAppearancesFacts(Members(AllRows(es)));
    forall m ensures m in Members(BalancesOf(es)) <==> exists e :: e in es && m in Members(e.splits) {
      AllRowsMembers(es, m);
    }
  }

  /** Each member's balance is the sum of its split amounts over all
      expenses. */
  lemma BalanceValues(es: seq<Expense>)
    ensures forall m :: Lookup(BalancesOf(es), m) == SplitTotal(es, m)
  {
    TallyFacts(AllRows(es));
    forall m ensures Lookup(BalancesOf(es), m) == SplitTotal(es, m) {
      AllRowsSumFor(es, m);
    }
  }

  /** When every expense's rows sum to zero, so do all balances. */
  lemma BalancesZeroSum(es: seq<Expense>)
    requires forall e :: e in es ==> Total(e.splits) == 0.0
    ensures Total(BalancesOf(es)) == 0.0
  {
    TallyFacts(AllRows(es));
    AllRowsTotal(es);
  }

  /** Reordering the expenses changes neither who has a balance nor any
      balance's value (only the order of the table). */
  lemma BalancesOrderIndependent(es: seq<Expense>, es': seq<Expense>)
    requires multiset(es) == multiset(es')
    ensures forall m :: m in Members(BalancesOf(es)) <==> m in Members(BalancesOf(es'))
    ensures forall m :: Lookup(BalancesOf(es), m) == Lookup(BalancesOf(es'), m)
  {
    BalanceMembers(es);
    BalanceMembers(es');
    BalanceValues(es);
    BalanceValues(es');
    forall m ensures Lookup(BalancesOf(es), m) == Lookup(BalancesOf(es'), m) {
      SumOverPermutation(es, es', RowsIn(m));
    }
    forall e ensures e in es <==> e in es' {
      assert e in es <==> e in multiset(es);
    }
  }

  /** Removing one expense changes each member's balance by exactly that
      expense's split amounts. */
  lemma BalanceAfterRemoval(es: seq<Expense>, k: nat)
    requires k < |es|
    ensures forall m :: Lookup(BalancesOf(es), m)
                     == Lookup(BalancesOf(es[..k] + es[k + 1..]), m) + SumFor(es[k].splits, m)
  {
    var rest := es[..k] + es[k + 1..];
    BalanceValues(es);
    BalanceValues(rest);
    assert es == es[..k] + [es[k]] + es[k + 1..];
    forall m ensures Lookup(BalancesOf(es), m) == Lookup(BalancesOf(rest), m) + SumFor(es[k].splits, m) {
      var f := RowsIn(m);
      SumOverConcat(es[..k] + [es[k]], es[k + 1..], f);
      SumOverConcat(es[..k], [es[k]], f);
      SumOverConcat(es[..k], es[k + 1..], f);
      assert SumOver([es[k]], f) == f(es[k]) by {
        assert [es[k]][..0] == [];
      }
    }
  }

  // ---------------------------------------------------------------------
  // Properties of get_member_summary

  /** When each expense has at most one split row per member (as the
      dictionary of splits guarantees), a member's `total_owed` is that
      member's balance. */
  lemma OwedIsBalance(es: seq<Expense>, m: Member)
    requires forall e :: e in es ==> Distinct(Members(e.splits))
    ensures OwedBy(es, m) == Lookup(BalancesOf(es), m)
  {
    BalanceValues(es);
    forall e | e in es ensures Lookup(e.splits, m) == SumFor(e.splits, m) {
      LookupIsSumFor(e.splits, m);
    }
    SumOverPointwise(es, OwedIn(m), RowsIn(m));
  }

  /** The member summary does not depend on the order of the expenses. */
  lemma SummaryOrderIndependent(es: seq<Expense>, es': seq<Expense>, m: Member)
    requires multiset(es) == multiset(es')
    ensures PaidBy(es, m) == PaidBy(es', m) && OwedBy(es, m) == OwedBy(es', m)
  {
    SumOverPermutation(es, es', PaidIn(m));
    SumOverPermutation(es, es', OwedIn(m));
  }
}
