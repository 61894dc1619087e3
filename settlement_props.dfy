/** What the settlement suggestions promise about a balance table:
    transfers go from members who owe to members who are owed, nobody is
    pushed past zero, and a table whose balances add up to zero is settled
    completely. */
module SettlementProperties {
  import opened Records
  import opened Settlement

  // ---------------------------------------------------------------------
  // The two filters

  lemma MembersSnoc(a: seq<Entry>, e: Entry)
    ensures Members(a + [e]) == Members(a) + [e.member]
  {
  }

  /** p is b with some entries left out, the others kept in order. */
  predicate Subsequence(p: seq<Entry>, b: seq<Entry>)
    decreases |b|
  {
    if p == [] then true
    else if b == [] then false
    else (p[|p| - 1] == b[|b| - 1] && Subsequence(p[..|p| - 1], b[..|b| - 1]))
         || Subsequence(p, b[..|b| - 1])
  }

  /** Both filters keep the entries they select in the table's order. */
  lemma {:induction false} FiltersInOrder(b: seq<Entry>)
    ensures Subsequence(Positives(b), b) && Subsequence(Negatives(b), b)
    decreases |b|
  {
    if b != [] {
      var init := b[..|b| - 1];
      var last := b[|b| - 1];
      FiltersInOrder(init);
      if last.amount > 0.0 {
        assert Positives(b) == Positives(init) + [last];
        assert (Positives(init) + [last])[..|Positives(init)|] == Positives(init);
      } else {
        assert Positives(b) == Positives(init);
      }
      if last.amount < 0.0 {
        assert Negatives(b) == Negatives(init) + [last];
        assert (Negatives(init) + [last])[..|Negatives(init)|] == Negatives(init);
      } else {
        assert Negatives(b) == Negatives(init);
      }
    }
  }

  /** The positive and the negative entries together hold the whole total. */
  lemma {:induction false} TotalSplit(b: seq<Entry>)
    ensures Total(b) == Sum(Amounts(Positives(b))) + Sum(Amounts(Negatives(b)))
    decreases |b|
  {
    if b != [] {
      var init := b[..|b| - 1];
      var last := b[|b| - 1];
      TotalSplit(init);
      assert Total(b) == Total(init) + last.amount;
      if last.amount > 0.0 {
        assert Positives(b) == Positives(init) + [last];
        assert Negatives(b) == Negatives(init);
        SumAmountsSnoc(Positives(init), last);
      } else if last.amount < 0.0 {
        assert Positives(b) == Positives(init);
        assert Negatives(b) == Negatives(init) + [last];
        SumAmountsSnoc(Negatives(init), last);
      } else {
        assert Positives(b) == Positives(init);
        assert Negatives(b) == Negatives(init);
      }
    }
  }

  lemma SumAmountsSnoc(p: seq<Entry>, e: Entry)
    ensures Sum(Amounts(p + [e])) == Sum(Amounts(p)) + e.amount
  {
    var s := Amounts(p + [e]);
    assert s[..|s| - 1] == Amounts(p);
  }

  /** A table with one entry per member keeps one entry per member in
      each filter. */
  lemma {:induction false} FiltersDistinct(b: seq<Entry>)
    requires Distinct(Members(b))
    ensures Distinct(Members(Positives(b))) && Distinct(Members(Negatives(b)))
    decreases |b|
  {
    if b != [] {
      var init := b[..|b| - 1];
      var last := b[|b| - 1];
      assert Members(init) == Members(b)[..|b| - 1];
      FiltersDistinct(init);
      assert last.member !in Members(init) by {
        assert Members(b)[|b| - 1] == last.member;
      }
      if last.amount > 0.0 {
        MembersSnoc(Positives(init), last);
        assert last.member !in Members(Positives(init)) by {
          forall e | e in Positives(init) ensures e.member != last.member {
            assert e in init;
          }
        }
      }
      if last.amount < 0.0 {
        MembersSnoc(Negatives(init), last);
        assert last.member !in Members(Negatives(init)) by {
          forall e | e in Negatives(init) ensures e.member != last.member {
            assert e in init;
          }
        }
      }
    }
  }

  /** In a table with one entry per member, an entry is the only one for
      its member. */
  lemma SameMember(b: seq<Entry>, e1: Entry, e2: Entry)
    requires Distinct(Members(b)) && e1 in b && e2 in b && e1.member == e2.member
    ensures e1 == e2
  {
    var i :| 0 <= i < |b| && b[i] == e1;
    var j :| 0 <= j < |b| && b[j] == e2;
    assert Members(b)[i] == Members(b)[j];
  }

  /** A member is a creditor exactly when its balance is positive, and a
      debtor exactly when its balance is negative. */
  lemma Side(b: seq<Entry>, e: Entry)
    requires Distinct(Members(b)) && e in b
    ensures e.member in Members(Positives(b)) <==> e.amount > 0.0
    ensures e.member in Members(Negatives(b)) <==> e.amount < 0.0
  {
    if e.member in Members(Positives(b)) {
      var k :| 0 <= k < |Positives(b)| && Members(Positives(b))[k] == e.member;
      SameMember(b, e, Positives(b)[k]);
    }
    if e.amount > 0.0 {
      var k :| 0 <= k < |Positives(b)| && Positives(b)[k] == e;
      assert Members(Positives(b))[k] == e.member;
    }
    if e.member in Members(Negatives(b)) {
      var k :| 0 <= k < |Negatives(b)| && Members(Negatives(b))[k] == e.member;
      SameMember(b, e, Negatives(b)[k]);
    }
    if e.amount < 0.0 {
      var k :| 0 <= k < |Negatives(b)| && Negatives(b)[k] == e;
      assert Members(Negatives(b))[k] == e.member;
    }
  }

  /** The balance Lookup finds for a member is the amount of its entry. */
  lemma LookupEntry(b: seq<Entry>, e: Entry)
    requires Distinct(Members(b)) && e in b
    ensures Lookup(b, e.member) == e.amount
  {
    var k :| 0 <= k < |b| && b[k] == e;
    LookupDistinct(b, k);
  }

  /** The walks start from non-negative remainders and non-positive
      debts. */
  lemma PlanInputs(b: seq<Entry>)
    ensures NonNegative(Amounts(Positives(b)))
    ensures forall i :: 0 <= i < |Negatives(b)| ==> Negatives(b)[i].amount <= 0.0
  {
    var p := Positives(b);
    forall k | 0 <= k < |p| ensures Amounts(p)[k] >= 0.0 {
      assert p[k] in p;
    }
    var n := Negatives(b);
    forall i | 0 <= i < |n| ensures n[i].amount <= 0.0 {
      assert n[i] in n;
    }
  }

  /** The walks over a table keep remainders non-negative and debts
      non-positive, and a debt left unpaid means every creditor is
      exhausted. */
  lemma PlanShape(b: seq<Entry>)
    ensures var r := SettlementPlan(b);
      && NonNegative(r.credits)
      && (forall i :: 0 <= i < |Negatives(b)| ==> r.debts[i] <= 0.0)
      && (forall i :: 0 <= i < |Negatives(b)| ==> r.debts[i] == 0.0 || AllZero(r.credits))
  {
    var pos := Positives(b);
    PlanInputs(b);
    SettleShape(Negatives(b), Members(pos), Amounts(pos));
  }

  /** Every transfer of the walks over a table is a positive amount from a
      debtor to a creditor of that table. */
  lemma PlanParties(b: seq<Entry>)
    ensures forall t :: t in Suggestions(b) ==>
      t.debtor in Members(Negatives(b)) && t.creditor in Members(Positives(b)) && t.amount > 0.0
  {
    var pos := Positives(b);
    PlanInputs(b);
    SettleShape(Negatives(b), Members(pos), Amounts(pos));
  }

  /** A debtor's final debt is its balance plus what it paid. */
  lemma PlanDebts(b: seq<Entry>)
    requires Distinct(Members(b))
    ensures forall i :: 0 <= i < |Negatives(b)| ==>
      SettlementPlan(b).debts[i] == Negatives(b)[i].amount + Paid(Suggestions(b), Negatives(b)[i].member)
  {
    var pos := Positives(b);
    FiltersDistinct(b);
    PlanInputs(b);
    SettleDebts(Negatives(b), Members(pos), Amounts(pos));
  }

  /** A creditor's final remainder is its balance less what it received. */
  lemma PlanCredits(b: seq<Entry>)
    requires Distinct(Members(b))
    ensures forall k :: 0 <= k < |Positives(b)| ==>
      SettlementPlan(b).credits[k] == Positives(b)[k].amount - Received(Suggestions(b), Positives(b)[k].member)
  {
    var pos := Positives(b);
    FiltersDistinct(b);
    SettleCredits(Negatives(b), Members(pos), Amounts(pos));
  }

  /** The transfers' volume moves from the creditors' side to the
      debtors' side. */
  lemma PlanSums(b: seq<Entry>)
    requires Distinct(Members(b))
    ensures var r := SettlementPlan(b);
      && Sum(r.credits) == Sum(Amounts(Positives(b))) - Volume(r.transfers)
      && Sum(r.debts) == Sum(Amounts(Negatives(b))) + Volume(r.transfers)
  {
    var pos := Positives(b);
    FiltersDistinct(b);
    SettleCredits(Negatives(b), Members(pos), Amounts(pos));
    SettleDebtSum(Negatives(b), Members(pos), Amounts(pos));
  }

  // ---------------------------------------------------------------------
  // Where each member ends

  /** A debtor ends at its final debt, between its balance and zero. */
  lemma DebtorRemaining(b: seq<Entry>, i: nat)
    requires Distinct(Members(b)) && i < |Negatives(b)|
    ensures Remaining(Negatives(b)[i], Suggestions(b)) == SettlementPlan(b).debts[i]
    ensures Negatives(b)[i].amount <= SettlementPlan(b).debts[i] <= 0.0
  {
    var e := Negatives(b)[i];
    var ts := Suggestions(b);
    PlanShape(b);
    PlanDebts(b);
    PlanParties(b);
    Side(b, e);
    TransfersBounds(ts, e.member);
  }

  /** A creditor ends at its final remainder, between zero and its
      balance. */
  lemma CreditorRemaining(b: seq<Entry>, k: nat)
    requires Distinct(Members(b)) && k < |Positives(b)|
    ensures Remaining(Positives(b)[k], Suggestions(b)) == SettlementPlan(b).credits[k]
    ensures 0.0 <= SettlementPlan(b).credits[k] <= Positives(b)[k].amount
  {
    var e := Positives(b)[k];
    var ts := Suggestions(b);
    PlanShape(b);
    PlanCredits(b);
    PlanParties(b);
    Side(b, e);
    TransfersBounds(ts, e.member);
  }

  /** A member whose balance is zero neither pays nor receives. */
  lemma NeutralRemaining(b: seq<Entry>, e: Entry)
    requires Distinct(Members(b)) && e in b && e.amount == 0.0
    ensures Paid(Suggestions(b), e.member) == 0.0 && Received(Suggestions(b), e.member) == 0.0
  {
    PlanParties(b);
    Side(b, e);
    TransfersBounds(Suggestions(b), e.member);
  }

  // ---------------------------------------------------------------------
  // The promises

  /** Every suggested transfer is a positive amount from a member whose
      balance is negative to a member whose balance is positive. */
  lemma SuggestionsParties(b: seq<Entry>)
    requires Distinct(Members(b))
    ensures forall t :: t in Suggestions(b) ==>
      t.amount > 0.0 && Lookup(b, t.debtor) < 0.0 && Lookup(b, t.creditor) > 0.0
  {
    PlanParties(b);
    forall t | t in Suggestions(b)
      ensures Lookup(b, t.debtor) < 0.0 && Lookup(b, t.creditor) > 0.0
    {
      var i :| 0 <= i < |Negatives(b)| && Members(Negatives(b))[i] == t.debtor;
      LookupEntry(b, Negatives(b)[i]);
      var k :| 0 <= k < |Positives(b)| && Members(Positives(b))[k] == t.creditor;
      LookupEntry(b, Positives(b)[k]);
    }
  }

  /** Nobody is pushed past zero: a debtor pays at most what it owes and a
      creditor receives at most what it is owed. */
  lemma NoBalanceOvershoots(b: seq<Entry>)
    requires Distinct(Members(b))
    ensures forall e :: e in b ==>
      && (e.amount <= 0.0 ==> e.amount <= Remaining(e, Suggestions(b)) <= 0.0)
      && (e.amount >= 0.0 ==> 0.0 <= Remaining(e, Suggestions(b)) <= e.amount)
  {
    var ts := Suggestions(b);
    forall e | e in b
      ensures && (e.amount <= 0.0 ==> e.amount <= Remaining(e, ts) <= 0.0)
              && (e.amount >= 0.0 ==> 0.0 <= Remaining(e, ts) <= e.amount)
    {
      if e.amount < 0.0 {
        var i :| 0 <= i < |Negatives(b)| && Negatives(b)[i] == e;
        DebtorRemaining(b, i);
      } else if e.amount > 0.0 {
        var k :| 0 <= k < |Positives(b)| && Positives(b)[k] == e;
        CreditorRemaining(b, k);
      } else {
        NeutralRemaining(b, e);
      }
    }
  }

  lemma {:induction false} SumNonPositiveBound(s: seq<real>)
    requires forall k :: 0 <= k < |s| ==> s[k] <= 0.0
    ensures Sum(s) <= 0.0
    decreases |s|
  {
    if s != [] {
      SumNonPositiveBound(s[..|s| - 1]);
    }
  }

  lemma {:induction false} SumNonPositiveZero(s: seq<real>)
    requires forall k :: 0 <= k < |s| ==> s[k] <= 0.0
    requires Sum(s) == 0.0
    ensures forall k :: 0 <= k < |s| ==> s[k] == 0.0
    decreases |s|
  {
    if s != [] {
      SumNonPositiveBound(s[..|s| - 1]);
      SumNonPositiveZero(s[..|s| - 1]);
    }
  }

  /** When the balances add up to zero, every debt is paid off and every
      creditor's remainder is used up. */
  lemma PlanSettles(b: seq<Entry>)
    requires Distinct(Members(b)) && Total(b) == 0.0
    ensures AllZero(SettlementPlan(b).credits)
    ensures forall i :: 0 <= i < |Negatives(b)| ==> SettlementPlan(b).debts[i] == 0.0
  {
    var r := SettlementPlan(b);
    PlanShape(b);
    PlanSums(b);
    TotalSplit(b);
    SettledSides(r.credits, r.debts);
  }

  /** Non-negative remainders and non-positive debts that add up to zero,
      where a debt is left only when every remainder is used up, are all
      zero. */
  lemma SettledSides(credits: seq<real>, debts: seq<real>)
    requires NonNegative(credits) && forall i :: 0 <= i < |debts| ==> debts[i] <= 0.0
    requires forall i :: 0 <= i < |debts| ==> debts[i] == 0.0 || AllZero(credits)
    requires Sum(credits) + Sum(debts) == 0.0
    ensures AllZero(credits) && forall i :: 0 <= i < |debts| ==> debts[i] == 0.0
  {
    if AllZero(credits) {
      SumAllZero(credits);
      SumNonPositiveZero(debts);
    } else {
      assert AllZero(debts);
      SumAllZero(debts);
      SumNonNegativeZero(credits);
    }
  }

  lemma {:induction false} SumAllZero(s: seq<real>)
    requires AllZero(s)
    ensures Sum(s) == 0.0
    decreases |s|
  {
    if s != [] {
      SumAllZero(s[..|s| - 1]);
    }
  }

  /** When the balances add up to zero, following the suggestions leaves
      every member at zero. */
  lemma ZeroSumSettlesEveryone(b: seq<Entry>)
    requires Distinct(Members(b)) && Total(b) == 0.0
    ensures forall e :: e in b ==> Remaining(e, Suggestions(b)) == 0.0
  {
    forall e | e in b ensures Remaining(e, Suggestions(b)) == 0.0 {
      EntrySettles(b, e);
    }
  }

  /** One member of a zero-sum table ends at zero. */
  lemma EntrySettles(b: seq<Entry>, e: Entry)
    requires Distinct(Members(b)) && Total(b) == 0.0 && e in b
    ensures Remaining(e, Suggestions(b)) == 0.0
  {
    PlanSettles(b);
    if e.amount < 0.0 {
      var i :| 0 <= i < |Negatives(b)| && Negatives(b)[i] == e;
      DebtorRemaining(b, i);
    } else if e.amount > 0.0 {
      var k :| 0 <= k < |Positives(b)| && Positives(b)[k] == e;
      CreditorRemaining(b, k);
    } else {
      NeutralRemaining(b, e);
    }
  }

  /** Walks over no creditors transfer nothing. */
  lemma {:induction false} NoCreditorsNoTransfers(debtors: seq<Entry>)
    ensures SettleFrom(debtors, [], []).transfers == []
    decreases |debtors|
  {
    if debtors != [] {
      NoCreditorsNoTransfers(debtors[1..]);
    }
  }

  /** There are suggestions exactly when somebody owes and somebody is
      owed. */
  lemma SuggestionsEmptyIff(b: seq<Entry>)
    ensures Suggestions(b) == [] <==> Positives(b) == [] || Negatives(b) == []
  {
    var pos := Positives(b);
    var neg := Negatives(b);
    if pos == [] {
      assert Members(pos) == [] && Amounts(pos) == [];
      NoCreditorsNoTransfers(neg);
    } else if neg != [] {
      assert pos[0] in pos && neg[0] in neg;
      var p := Pass(neg[0].member, neg[0].amount, Members(pos), Amounts(pos), 0);
      PassStep(neg[0].member, neg[0].amount, Members(pos), Amounts(pos), 0);
      SettleStep(neg, Members(pos), Amounts(pos));
      assert p.transfers != [];
    }
  }

  /** A table in which every balance is zero gets no suggestions. */
  lemma AllSettledNoSuggestions(b: seq<Entry>)
    requires forall e :: e in b ==> e.amount == 0.0
    ensures Suggestions(b) == []
  {
    if Positives(b) != [] {
      assert Positives(b)[0] in Positives(b);
    }
    SuggestionsEmptyIff(b);
  }

  /** The table of the two-debtor scenario splits into one creditor and
      two debtors. */
  lemma ScenarioFilters()
    ensures var b := [Entry("A", -30.0), Entry("B", -20.0), Entry("C", 50.0)];
      Positives(b) == [Entry("C", 50.0)] && Negatives(b) == [Entry("A", -30.0), Entry("B", -20.0)]
  {
    var b := [Entry("A", -30.0), Entry("B", -20.0), Entry("C", 50.0)];
    assert b[..2] == [Entry("A", -30.0), Entry("B", -20.0)];
    assert b[..2][..1] == [Entry("A", -30.0)];
    assert [Entry("A", -30.0)][..0] == [];
    assert Positives([Entry("A", -30.0)]) == [];
    assert Negatives([Entry("A", -30.0)]) == [Entry("A", -30.0)];
    assert Positives(b[..2]) == [];
    assert Negatives(b[..2]) == b[..2];
  }

  /** Each debtor's walk in the two-debtor scenario. */
  lemma ScenarioPasses()
    ensures Pass("A", -30.0, ["C"], [50.0], 0) == PassResult([Transfer("A", "C", 30.0)], [20.0], 0.0)
    ensures Pass("B", -20.0, ["C"], [20.0], 0) == PassResult([Transfer("B", "C", 20.0)], [0.0], 0.0)
  {
    assert Pass("A", 0.0, ["C"], [20.0], 1) == PassResult([], [20.0], 0.0);
    assert [50.0][0 := 20.0] == [20.0];
    assert Pass("B", 0.0, ["C"], [0.0], 1) == PassResult([], [0.0], 0.0);
    assert [20.0][0 := 0.0] == [0.0];
  }

  /** The walks of the two debtors, one after the other. */
  lemma ScenarioSettle()
    ensures SettleFrom([Entry("A", -30.0), Entry("B", -20.0)], ["C"], [50.0]).transfers
      == [Transfer("A", "C", 30.0), Transfer("B", "C", 20.0)]
  {
    var neg := [Entry("A", -30.0), Entry("B", -20.0)];
    ScenarioPasses();
    SettleStep(neg, ["C"], [50.0]);
    assert neg[1..] == [Entry("B", -20.0)];
    SettleStep(neg[1..], ["C"], [20.0]);
    assert neg[1..][1..] == [];
  }

  /** Two debtors of one creditor pay it in table order. */
  lemma TwoDebtorsScenario()
    ensures Suggestions([Entry("A", -30.0), Entry("B", -20.0), Entry("C", 50.0)])
      == [Transfer("A", "C", 30.0), Transfer("B", "C", 20.0)]
  {
    ScenarioFilters();
    ScenarioSettle();
    assert Members([Entry("C", 50.0)]) == ["C"];
    assert Amounts([Entry("C", 50.0)]) == [50.0];
  }

  /** Positive remainders are all non-zero. */
  lemma {:induction false} NonZeroPositive(s: seq<real>)
    requires forall k :: 0 <= k < |s| ==> s[k] > 0.0
    ensures NonZero(s) == |s|
    decreases |s|
  {
    if s != [] {
      NonZeroPositive(s[..|s| - 1]);
    }
  }

  /** Every creditor starts with a remainder that is not yet exhausted. */
  lemma PositivesNonZero(b: seq<Entry>)
    ensures NonZero(Amounts(Positives(b))) == |Positives(b)|
  {
    var p := Positives(b);
    forall k | 0 <= k < |p| ensures Amounts(p)[k] > 0.0 {
      assert p[k] in p;
    }
    NonZeroPositive(Amounts(p));
  }

  /** At most one transfer fewer than there are debtors and creditors
      together, and none without a debtor: every transfer but each
      debtor's last exhausts a creditor, and the last debtor's last
      transfer either leaves a creditor unexhausted or exhausts the last
      one. */
  lemma SuggestionsCount(b: seq<Entry>)
    ensures |Suggestions(b)| <= if Negatives(b) == [] then 0 else |Positives(b)| + |Negatives(b)| - 1
  {
    var pos := Positives(b);
    PlanInputs(b);
    PositivesNonZero(b);
    SettleCount(Negatives(b), Members(pos), Amounts(pos));
  }
}
