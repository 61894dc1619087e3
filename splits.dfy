/** The split rows `add_expense` writes for one expense, under each of the
    three split policies, and the form check that guards the call. */
module Splits {
  import opened Wrappers
  import opened Records

  /** Python's ZeroDivisionError from dividing by len(split_with). */
  datatype SplitError = DivisionByZero

  /** One row of `amount` for each listed member, in order. */
  function Charge(ms: seq<Member>, amount: real): (rows: seq<Entry>)
    ensures |rows| == |ms| && Members(rows) == ms
    ensures forall k :: 0 <= k < |rows| ==> rows[k].amount == amount
  {
    seq(|ms|, k requires 0 <= k < |ms| => Entry(ms[k], amount))
  }

  /** A payer row followed by one row of `share` for each of `ms`. */
  function Rows(first: Entry, ms: seq<Member>, share: real): (rows: seq<Entry>)
    ensures |rows| == |ms| + 1 && rows[0] == first
    ensures Members(rows) == [first.member] + ms
  {
    var rows := [first] + Charge(ms, share);
    assert Members(rows) == [first.member] + Members(Charge(ms, share));
    rows
  }

  /** The members of ms other than p, in their order. */
  function Without(ms: seq<Member>, p: Member): seq<Member> {
    if ms == [] then []
    else Without(ms[..|ms| - 1], p) + (if ms[|ms| - 1] != p then [ms[|ms| - 1]] else [])
  }

  /** The rows written for an expense of `amount` paid by `payer` and split
      with `splitWith` under `policy`, payer row first; the division by
      len(split_with) fails when nobody is selected. */
  function SplitRows(amount: real, payer: Member, splitWith: seq<Member>, policy: Policy)
    : (r: Result<seq<Entry>, SplitError>)
    ensures r.Err? <==> policy != EqualSplit && |splitWith| == 0
    ensures r.Ok? ==> |r.value| >= 1 && r.value[0].member == payer
  {
    match policy
    case EqualSplit =>
      var share := amount / (|splitWith| + 1) as real;
      Ok(Rows(Entry(payer, amount - share), Without(splitWith, payer), -share))
    case PayerOwesFull =>
      if |splitWith| == 0 then Err(DivisionByZero)
      else Ok(Rows(Entry(payer, -amount), splitWith, amount / |splitWith| as real))
    case PayerOwesNothing =>
      if |splitWith| == 0 then Err(DivisionByZero)
      else Ok(Rows(Entry(payer, amount), splitWith, -(amount / |splitWith| as real)))
  }

  /** The row-writing loops of `add_expense`. */
  method ComputeSplits(amount: real, payer: Member, splitWith: seq<Member>, policy: Policy)
    returns (r: Result<seq<Entry>, SplitError>)
    ensures r == SplitRows(amount, payer, splitWith, policy)
  {
    var rows: seq<Entry>;
    match policy {
      case EqualSplit =>
        var share := amount / (|splitWith| + 1) as real;
        rows := [Entry(payer, amount - share)];
        for i := 0 to |splitWith|
          invariant rows == Rows(Entry(payer, amount - share), Without(splitWith[..i], payer), -share)
        {
          assert splitWith[..i + 1][..i] == splitWith[..i];
          if splitWith[i] != payer {
            rows := rows + [Entry(splitWith[i], -share)];
          }
        }
      case PayerOwesFull =>
        if |splitWith| == 0 {
          return Err(DivisionByZero);
        }
        var share := amount / |splitWith| as real;
        rows := [Entry(payer, -amount)];
        for i := 0 to |splitWith|
          invariant rows == Rows(Entry(payer, -amount), splitWith[..i], share)
        {
          rows := rows + [Entry(splitWith[i], share)];
        }
      case PayerOwesNothing =>
        if |splitWith| == 0 {
          return Err(DivisionByZero);
        }
        var share := amount / |splitWith| as real;
        rows := [Entry(payer, amount)];
        for i := 0 to |splitWith|
          invariant rows == Rows(Entry(payer, amount), splitWith[..i], -share)
        {
          rows := rows + [Entry(splitWith[i], -share)];
        }
    }
    assert splitWith[..|splitWith|] == splitWith;
    r := Ok(rows);
  }

  /** n copies of x added up. */
  function Times(n: nat, x: real): real {
    if n == 0 then 0.0 else Times(n - 1, x) + x
  }

  lemma {:induction false} TimesProduct(n: nat, x: real)
    ensures Times(n, x) == n as real * x
  {
    if n > 0 {
      TimesProduct(n - 1, x);
    }
  }

  lemma {:induction false} ChargeTotal(ms: seq<Member>, x: real)
    ensures Total(Charge(ms, x)) == Times(|ms|, x)
    decreases |ms|
  {
    if ms != [] {
      var init := ms[..|ms| - 1];
      ChargeTotal(init, x);
      assert Charge(ms, x)[..|ms| - 1] == Charge(init, x);
    }
  }

  lemma {:induction false} WithoutCount(ms: seq<Member>, p: Member)
    ensures |Without(ms, p)| + multiset(ms)[p] == |ms|
    ensures p !in ms ==> Without(ms, p) == ms
    decreases |ms|
  {
    if ms != [] {
      var init := ms[..|ms| - 1];
      WithoutCount(init, p);
      assert ms == init + [ms[|ms| - 1]];
    }
  }

  lemma RowsTotal(first: Entry, ms: seq<Member>, x: real)
    ensures Total(Rows(first, ms, x)) == first.amount + Times(|ms|, x)
  {
    TotalConcat([first], Charge(ms, x));
    ChargeTotal(ms, x);
    assert Total([first]) == first.amount by {
      assert [first][..0] == [];
    }
  }

  /** Dividing by a positive count and adding up that many parts gives the
      amount. */
  lemma ShareTimesCount(amount: real, k: nat)
    requires k > 0
    ensures Times(k, amount / k as real) == amount
  {
    TimesProduct(k, amount / k as real);
  }

  /** With `amount` made up of m + c + 1 shares, what is left after the
      payer's share and m more is c shares, which is zero for a non-zero
      amount only when c is. */
  lemma SharesLeft(amount: real, share: real, m: nat, c: nat)
    requires Times(m + c + 1, share) == amount
    ensures (amount - share) + Times(m, -share) == Times(c, share)
    ensures amount != 0.0 ==> (Times(c, share) == 0.0 <==> c == 0)
  {
    TimesProduct(m + c + 1, share);
    TimesProduct(m, -share);
    TimesProduct(c, share);
  }

  /** A payer row of `amount - share` and a row of `-share` for every
      selected member other than the payer, where `share` is one in
      |splitWith| + 1 parts of `amount`, total one share for every time
      the payer is selected. */
  lemma EqualRowsTotal(amount: real, payer: Member, splitWith: seq<Member>, share: real)
    requires Times(|splitWith| + 1, share) == amount
    ensures Total(Rows(Entry(payer, amount - share), Without(splitWith, payer), -share))
         == Times(multiset(splitWith)[payer], share)
    ensures amount != 0.0 ==> (Times(multiset(splitWith)[payer], share) == 0.0 <==> payer !in splitWith)
  {
    var others := Without(splitWith, payer);
    RowsTotal(Entry(payer, amount - share), others, -share);
    WithoutCount(splitWith, payer);
    SharesLeft(amount, share, |others|, multiset(splitWith)[payer]);
  }

  /** A payer row of `amount` (negated when `payerOwes`) and one row of the
      opposite `share` for each of `ms` total zero when the shares make up
      the amount. */
  lemma ShareRowsTotal(amount: real, payer: Member, ms: seq<Member>, share: real, payerOwes: bool)
    requires Times(|ms|, share) == amount
    ensures payerOwes ==> Total(Rows(Entry(payer, -amount), ms, share)) == 0.0
    ensures !payerOwes ==> Total(Rows(Entry(payer, amount), ms, -share)) == 0.0
  {
    if payerOwes {
      RowsTotal(Entry(payer, -amount), ms, share);
    } else {
      RowsTotal(Entry(payer, amount), ms, -share);
      TimesNegate(|ms|, share);
    }
  }

  lemma {:induction false} TimesNegate(n: nat, x: real)
    ensures Times(n, -x) == -Times(n, x)
  {
    if n > 0 {
      TimesNegate(n - 1, x);
    }
  }

  /** Under "Equal Split" the rows total one in |splitWith| + 1 parts of
      the amount for every time the payer is among the selected members,
      so the rows of a non-zero expense balance exactly when the payer is
      not selected. */
  lemma EqualSplitTotal(amount: real, payer: Member, splitWith: seq<Member>)
    ensures Total(SplitRows(amount, payer, splitWith, EqualSplit).value)
         == Times(multiset(splitWith)[payer], amount / (|splitWith| + 1) as real)
    ensures amount != 0.0 ==>
      (Total(SplitRows(amount, payer, splitWith, EqualSplit).value) == 0.0 <==> payer !in splitWith)
  {
    ShareTimesCount(amount, |splitWith| + 1);
    EqualRowsTotal(amount, payer, splitWith, amount / (|splitWith| + 1) as real);
  }

  /** Under the two other policies the payer row is cancelled by the
      selected members' equal shares. */
  lemma ShareSplitTotal(amount: real, payer: Member, splitWith: seq<Member>, policy: Policy)
    requires policy != EqualSplit && |splitWith| > 0
    ensures Total(SplitRows(amount, payer, splitWith, policy).value) == 0.0
  {
    var share := amount / |splitWith| as real;
    ShareTimesCount(amount, |splitWith|);
    ShareRowsTotal(amount, payer, splitWith, share, policy == PayerOwesFull);
    if policy == PayerOwesFull {
      assert SplitRows(amount, payer, splitWith, policy) == Ok(Rows(Entry(payer, -amount), splitWith, share));
    } else {
      assert SplitRows(amount, payer, splitWith, policy) == Ok(Rows(Entry(payer, amount), splitWith, -share));
    }
  }

  /** Money conservation for one expense: when the payer is not among the
      selected members (the "Split with" options exclude the payer), the
      rows of every policy that does not fail sum to exactly zero. */
  lemma SplitRowsBalanced(amount: real, payer: Member, splitWith: seq<Member>, policy: Policy)
    requires payer !in splitWith
    ensures SplitRows(amount, payer, splitWith, policy).Ok? <==> policy == EqualSplit || |splitWith| > 0
    ensures SplitRows(amount, payer, splitWith, policy).Ok? ==>
              Total(SplitRows(amount, payer, splitWith, policy).value) == 0.0
  {
    if policy == EqualSplit {
      EqualSplitTotal(amount, payer, splitWith);
      assert multiset(splitWith)[payer] == 0;
    } else if |splitWith| > 0 {
      ShareSplitTotal(amount, payer, splitWith, policy);
    }
  }

  /** With a payer outside a list of distinct selected members, every row
      of an expense belongs to a different member. */
  lemma SplitRowsDistinct(amount: real, payer: Member, splitWith: seq<Member>, policy: Policy)
    requires payer !in splitWith && Distinct(splitWith)
    requires SplitRows(amount, payer, splitWith, policy).Ok?
    ensures Members(SplitRows(amount, payer, splitWith, policy).value) == [payer] + splitWith
    ensures Distinct(Members(SplitRows(amount, payer, splitWith, policy).value))
  {
    SplitRowsMembers(amount, payer, splitWith, policy);
    PrependDistinct(payer, splitWith);
  }

  /** The rows name the payer, then each selected member in order. */
  lemma SplitRowsMembers(amount: real, payer: Member, splitWith: seq<Member>, policy: Policy)
    requires payer !in splitWith
    requires SplitRows(amount, payer, splitWith, policy).Ok?
    ensures Members(SplitRows(amount, payer, splitWith, policy).value) == [payer] + splitWith
  {
    WithoutCount(splitWith, payer);
  }

  lemma PrependDistinct(p: Member, ms: seq<Member>)
    requires p !in ms && Distinct(ms)
    ensures Distinct([p] + ms)
  {
    var s := [p] + ms;
    forall i, j | 0 <= i < j < |s| ensures s[i] != s[j] {
      assert s[j] == ms[j - 1];
      if i > 0 {
        assert s[i] == ms[i - 1];
      }
    }
  }

  /** The check made when "Add Expense" is pressed: a description, a
      positive amount, a payer, and selected members unless the policy is
      "Payer Owes Full". An empty payer string stands for no member to
      choose from. */
  function AddExpenseGuard(description: string, amount: real, payer: Member,
                           splitWith: seq<Member>, policy: Policy): (ok: bool)
    ensures ok ==> (SplitRows(amount, payer, splitWith, policy).Err? <==> policy == PayerOwesFull && splitWith == [])
  {
    description != "" && amount > 0.0 && payer != "" && (|splitWith| > 0 || policy == PayerOwesFull)
  }

  /** The guard lets through exactly the input on which the division by
      len(split_with) fails: "Payer Owes Full" with nobody selected. */
  lemma GuardAdmitsDivisionByZero(description: string, amount: real, payer: Member)
    requires description != "" && amount > 0.0 && payer != ""
    ensures AddExpenseGuard(description, amount, payer, [], PayerOwesFull)
    ensures SplitRows(amount, payer, [], PayerOwesFull) == Err(DivisionByZero)
  {
  }

  /** The guard as evidently intended: selected members are needed under
      every policy. */
  predicate CorrectedAddExpenseGuard(description: string, amount: real, payer: Member,
                                     splitWith: seq<Member>, policy: Policy)
  {
    description != "" && amount > 0.0 && payer != "" && |splitWith| > 0
  }

  /** The corrected guard admits precisely the inputs the written guard
      admits and the split computation can process. */
  lemma CorrectedGuardExact(description: string, amount: real, payer: Member,
                            splitWith: seq<Member>, policy: Policy)
    ensures CorrectedAddExpenseGuard(description, amount, payer, splitWith, policy)
        <==> AddExpenseGuard(description, amount, payer, splitWith, policy)
             && SplitRows(amount, payer, splitWith, policy).Ok?
  {
  }

  /** Scenario: 90 paid by A, split equally with B and C. */
  lemma EqualSplitScenario()
    ensures SplitRows(90.0, "A", ["B", "C"], EqualSplit)
         == Ok([Entry("A", 60.0), Entry("B", -30.0), Entry("C", -30.0)])
  {
    assert Without(["B", "C"], "A") == ["B", "C"] by {
      assert ["B", "C"][..1] == ["B"];
      assert ["B"][..0] == [];
    }
    var rows := SplitRows(90.0, "A", ["B", "C"], EqualSplit).value;
    assert rows[0] == Entry("A", 60.0);
    assert rows[1] == Entry("B", -30.0) && rows[2] == Entry("C", -30.0);
    assert rows == [Entry("A", 60.0), Entry("B", -30.0), Entry("C", -30.0)];
  }

  /** Scenario: 100 paid by A, "Payer Owes Full", with B and C. */
  lemma PayerOwesFullScenario()
    ensures SplitRows(100.0, "A", ["B", "C"], PayerOwesFull)
         == Ok([Entry("A", -100.0), Entry("B", 50.0), Entry("C", 50.0)])
  {
    var rows := SplitRows(100.0, "A", ["B", "C"], PayerOwesFull).value;
    assert rows[0] == Entry("A", -100.0);
    assert rows[1] == Entry("B", 50.0) && rows[2] == Entry("C", 50.0);
    assert rows == [Entry("A", -100.0), Entry("B", 50.0), Entry("C", 50.0)];
  }

  /** Scenario: 40 paid by A, "Payer Doesn't Owe Anything", with B. */
  lemma PayerOwesNothingScenario()
    ensures SplitRows(40.0, "A", ["B"], PayerOwesNothing) == Ok([Entry("A", 40.0), Entry("B", -40.0)])
  {
    var rows := SplitRows(40.0, "A", ["B"], PayerOwesNothing).value;
    assert rows[0] == Entry("A", 40.0) && rows[1] == Entry("B", -40.0);
    assert rows == [Entry("A", 40.0), Entry("B", -40.0)];
  }
}
