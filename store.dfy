/** The ledger behind the app: the members table and the recorded
    expenses with their split rows (app.py, add_member, add_expense,
    delete_transaction_by_id, delete_all_transactions), held in memory. */
module Store {
  import opened Wrappers
  import opened Records
  import opened Splits
  import opened Balances
  import opened TransactionIds
  import opened Settlement
  import opened SettlementProperties

  /** Position of the expense carrying transaction id `id`, or |es|. */
  function IndexOfId(es: seq<Expense>, id: string): (k: nat)
    ensures k <= |es|
    ensures k < |es| ==> es[k].transactionId == id
    ensures k == |es| <==> id !in Ids(es)
  {
    if es == [] then 0
    else if es[0].transactionId == id then 0
    else
      var k := 1 + IndexOfId(es[1..], id);
      assert forall e :: e in es ==> e == es[0] || e in es[1..];
      k
  }

  /** Transaction ids are unique (the UNIQUE column). */
  predicate UniqueIds(es: seq<Expense>) {
    forall i, j :: 0 <= i < j < |es| ==> es[i].transactionId != es[j].transactionId
  }

  /** What every recorded expense satisfies: one split row per member,
      rows that balance, and rows only for known members. */
  predicate WellFormed(e: Expense, members: set<Member>) {
    Distinct(Members(e.splits)) && Total(e.splits) == 0.0
    && forall k :: 0 <= k < |e.splits| ==> e.splits[k].member in members
  }

  class Ledger {
    var members: set<Member>
    var expenses: seq<Expense>

    ghost predicate Valid()
      reads this
    {
      UniqueIds(expenses) && forall e :: e in expenses ==> WellFormed(e, members)
    }

    constructor ()
      ensures Valid() && members == {} && expenses == []
    {
      members := {};
      expenses := [];
    }

    /** Inserting a name that is already a member changes nothing and is
        reported. */
    method AddMember(name: Member) returns (added: bool)
      requires Valid()
      modifies this
      ensures Valid()
      ensures added <==> name !in old(members)
      ensures members == old(members) + {name} && expenses == old(expenses)
    {
      if name in members {
        added := false;
      } else {
        members := members + {name};
        added := true;
        forall e | e in expenses ensures WellFormed(e, members) {
          assert WellFormed(e, old(members));
        }
      }
    }

    /** Records an expense under a fresh id with the split rows of its
        policy; a split that cannot be computed leaves the ledger as it
        was. The payer and the selected members come from the members
        table and the payer is never among the selected. */
    method AddExpense(description: string, amount: real, payer: Member, splitWith: seq<Member>,
                      policy: Policy, date: Date) returns (r: Result<string, SplitError>)
      requires Valid()
      requires payer in members && (forall k :: 0 <= k < |splitWith| ==> splitWith[k] in members)
      requires payer !in splitWith && Distinct(splitWith)
      modifies this
      ensures Valid() && members == old(members)
      ensures r.Err? <==> SplitRows(amount, payer, splitWith, policy).Err?
      ensures r.Err? ==> expenses == old(expenses)
      ensures r.Ok? ==> r.value == NextTransactionId(date, old(expenses)) && r.value !in Ids(old(expenses))
      ensures r.Ok? ==>
        expenses == old(expenses) + [Expense(description, amount, payer, policy, date, r.value, SplitRows(amount, payer, splitWith, policy).value)]
    {
      var id := NextTransactionId(date, expenses);
      var rows := ComputeSplits(amount, payer, splitWith, policy);
      if rows.Err? {
        r := Err(rows.error);
      } else {
        var e := Expense(description, amount, payer, policy, date, id, rows.value);
        SplitRowsWellFormed(e, splitWith, members);
        AppendKeepsValid(expenses, e, members);
        expenses := expenses + [e];
        r := Ok(id);
      }
    }

    /** The "Add Expense" button: the form is checked first, with the
        guard that requires selected members under every policy, and a
        form that passes is always recorded. */
    method SubmitExpense(description: string, amount: real, payer: Member, splitWith: seq<Member>,
                         policy: Policy, date: Date) returns (accepted: bool)
      requires Valid()
      requires (payer in members || payer == "") && (forall k :: 0 <= k < |splitWith| ==> splitWith[k] in members)
      requires payer !in splitWith && Distinct(splitWith)
      modifies this
      ensures Valid() && members == old(members)
      ensures accepted <==> CorrectedAddExpenseGuard(description, amount, payer, splitWith, policy)
      ensures !accepted ==> expenses == old(expenses)
      ensures accepted ==>
        expenses == old(expenses) + [Expense(description, amount, payer, policy, date, NextTransactionId(date, old(expenses)),
                                             SplitRows(amount, payer, splitWith, policy).value)]
    {
      if CorrectedAddExpenseGuard(description, amount, payer, splitWith, policy) {
        CorrectedGuardExact(description, amount, payer, splitWith, policy);
        var r := AddExpense(description, amount, payer, splitWith, policy, date);
        accepted := true;
      } else {
        accepted := false;
      }
    }

    /** Removes the expense with the given id together with its split
        rows, or nothing when no expense has that id. */
    method DeleteTransaction(id: string) returns (removed: Option<Expense>)
      requires Valid()
      modifies this
      ensures Valid() && members == old(members)
      ensures removed.None? <==> id !in Ids(old(expenses))
      ensures removed.None? ==> expenses == old(expenses)
      ensures removed.Some? ==>
        var k := IndexOfId(old(expenses), id);
        && removed.value == old(expenses)[k]
        && expenses == old(expenses)[..k] + old(expenses)[k + 1..]
        && id !in Ids(expenses)
        && forall m :: Lookup(BalancesOf(old(expenses)), m)
                       == Lookup(BalancesOf(expenses), m) + Lookup(removed.value.splits, m)
    {
      var k := IndexOfId(expenses, id);
      if k == |expenses| {
        removed := None;
      } else {
        var e := expenses[k];
        var before := expenses;
        var rest := expenses[..k] + expenses[k + 1..];
        assert e in before;
        BalanceAfterRemoval(before, k);
        forall m ensures Lookup(BalancesOf(before), m) == Lookup(BalancesOf(rest), m) + Lookup(e.splits, m) {
          LookupIsSumFor(e.splits, m);
        }
        RemovalKeepsValid(before, k, members);
        expenses := rest;
        removed := Some(e);
      }
    }

    /** Clears every expense and split row; the members stay. */
    method DeleteAll()
      requires Valid()
      modifies this
      ensures Valid() && expenses == [] && members == old(members)
    {
      expenses := [];
    }
  }

  /** The rows of a split that succeeds, for a payer and selected members
      from the members table with the payer not selected, make a
      well-formed expense. */
  lemma SplitRowsWellFormed(e: Expense, splitWith: seq<Member>, members: set<Member>)
    requires e.payer in members && forall k :: 0 <= k < |splitWith| ==> splitWith[k] in members
    requires e.payer !in splitWith && Distinct(splitWith)
    requires SplitRows(e.amount, e.payer, splitWith, e.policy) == Ok(e.splits)
    ensures WellFormed(e, members)
  {
    SplitRowsBalanced(e.amount, e.payer, splitWith, e.policy);
    SplitRowsDistinct(e.amount, e.payer, splitWith, e.policy);
    var ms := Members(e.splits);
    forall k | 0 <= k < |e.splits| ensures e.splits[k].member in members {
      assert e.splits[k].member == ms[k];
      if k > 0 {
        assert ms[k] == splitWith[k - 1];
      }
    }
  }

  /** Appending a well-formed expense under an unused id keeps ids unique
      and every expense well formed. */
  lemma AppendKeepsValid(es: seq<Expense>, e: Expense, members: set<Member>)
    requires UniqueIds(es) && forall x :: x in es ==> WellFormed(x, members)
    requires WellFormed(e, members) && e.transactionId !in Ids(es)
    ensures UniqueIds(es + [e]) && forall x :: x in es + [e] ==> WellFormed(x, members)
  {
    forall i | 0 <= i < |es| ensures es[i].transactionId != e.transactionId {
      assert es[i] in es;
    }
  }

  /** Removing one expense keeps ids unique, removes the id, and keeps
      the others well formed. */
  lemma RemovalKeepsValid(es: seq<Expense>, k: nat, members: set<Member>)
    requires k < |es| && UniqueIds(es)
    requires forall e :: e in es ==> WellFormed(e, members)
    ensures var rest := es[..k] + es[k + 1..];
      && UniqueIds(rest)
      && es[k].transactionId !in Ids(rest)
      && forall e :: e in rest ==> WellFormed(e, members)
  {
    var rest := es[..k] + es[k + 1..];
    assert forall i :: 0 <= i < |rest| ==> rest[i] == es[if i < k then i else i + 1];
    forall e | e in rest ensures e in es && e.transactionId != es[k].transactionId {
      var i :| 0 <= i < |rest| && rest[i] == e;
    }
  }

  /** For a ledger's expenses the balances add up to zero, and following
      the suggested transfers leaves every member with a balance at
      zero. */
  lemma LedgerSettles(es: seq<Expense>, members: set<Member>)
    requires forall e :: e in es ==> WellFormed(e, members)
    ensures Total(BalancesOf(es)) == 0.0
    ensures forall e :: e in BalancesOf(es) ==> Remaining(e, Suggestions(BalancesOf(es))) == 0.0
  {
    BalancesZeroSum(es);
    BalanceMembers(es);
    ZeroSumSettlesEveryone(BalancesOf(es));
  }
}
