/** The settlement suggestions: greedy matching of debtors (negative
    balances) against creditors (positive balances), each in the order of
    the balance table, with creditors' remainders reduced in place. */
module Settlement {
  import opened Records

  /** "debtor pays creditor: amount". */
  datatype Transfer = Transfer(debtor: Member, creditor: Member, amount: real)

  function Abs(x: real): real {
    if x < 0.0 then -x else x
  }

  function Min(a: real, b: real): real {
    if a <= b then a else b
  }

  /** The entries with a strictly positive balance, in table order. */
  function Positives(b: seq<Entry>): (p: seq<Entry>)
    ensures forall e :: e in p <==> e in b && e.amount > 0.0
  {
    if b == [] then []
    else
      var last := b[|b| - 1];
      Positives(b[..|b| - 1]) + if last.amount > 0.0 then [last] else []
  }

  /** The entries with a strictly negative balance, in table order. */
  function Negatives(b: seq<Entry>): (n: seq<Entry>)
    ensures forall e :: e in n <==> e in b && e.amount < 0.0
  {
    if b == [] then []
    else
      var last := b[|b| - 1];
      Negatives(b[..|b| - 1]) + if last.amount < 0.0 then [last] else []
  }

  function Amounts(b: seq<Entry>): (s: seq<real>)
    ensures |s| == |b| && forall k :: 0 <= k < |b| ==> s[k] == b[k].amount
  {
    seq(|b|, k requires 0 <= k < |b| => b[k].amount)
  }

  function Sum(s: seq<real>): real {
    if s == [] then 0.0 else Sum(s[..|s| - 1]) + s[|s| - 1]
  }

  predicate NonNegative(s: seq<real>) {
    forall k :: 0 <= k < |s| ==> s[k] >= 0.0
  }

  predicate AllZero(s: seq<real>) {
    forall k :: 0 <= k < |s| ==> s[k] == 0.0
  }

  /** Total of all transfer amounts. */
  function Volume(ts: seq<Transfer>): real {
    if ts == [] then 0.0 else ts[0].amount + Volume(ts[1..])
  }

  /** Total that m pays. */
  function Paid(ts: seq<Transfer>, m: Member): real {
    if ts == [] then 0.0 else (if ts[0].debtor == m then ts[0].amount else 0.0) + Paid(ts[1..], m)
  }

  /** Total that m receives. */
  function Received(ts: seq<Transfer>, m: Member): real {
    if ts == [] then 0.0 else (if ts[0].creditor == m then ts[0].amount else 0.0) + Received(ts[1..], m)
  }

  /** What is left of an entry's balance once the transfers are made: a
      debtor's balance rises by what it pays, a creditor's falls by what
      it receives. */
  function Remaining(e: Entry, ts: seq<Transfer>): real {
    e.amount + Paid(ts, e.member) - Received(ts, e.member)
  }

  datatype PassResult = PassResult(transfers: seq<Transfer>, credits: seq<real>, debt: real)

  /** One debtor's walk over the creditors from position j: stop once the
      debt is 0, skip exhausted creditors, otherwise transfer the smaller of
      the debt and the creditor's remainder and reduce both. */
  function Pass(debtor: Member, debt: real, names: seq<Member>, credits: seq<real>, j: nat): (r: PassResult)
    requires |names| == |credits| && j <= |credits|
    ensures |r.credits| == |credits|
    decreases |credits| - j
  {
    if j == |credits| || debt == 0.0 then PassResult([], credits, debt)
    else if credits[j] == 0.0 then Pass(debtor, debt, names, credits, j + 1)
    else
      var amount := Min(Abs(debt), credits[j]);
      var rest := Pass(debtor, debt + amount, names, credits[j := credits[j] - amount], j + 1);
      PassResult([Transfer(debtor, names[j], amount)] + rest.transfers, rest.credits, rest.debt)
  }

  datatype Plan = Plan(transfers: seq<Transfer>, credits: seq<real>, debts: seq<real>)

  /** The debtors' walks in order, each starting from the creditors'
      remainders the previous ones left. */
  function SettleFrom(debtors: seq<Entry>, names: seq<Member>, credits: seq<real>): (r: Plan)
    requires |names| == |credits|
    ensures |r.credits| == |credits| && |r.debts| == |debtors|
  {
    if debtors == [] then Plan([], credits, [])
    else
      var p := Pass(debtors[0].member, debtors[0].amount, names, credits, 0);
      var rest := SettleFrom(debtors[1..], names, p.credits);
      Plan(p.transfers + rest.transfers, rest.credits, [p.debt] + rest.debts)
  }

  /** The debtors' walks over a balance table: debtors are the negative
      entries, creditors the positive ones, both in table order. */
  function SettlementPlan(balances: seq<Entry>): (r: Plan)
    ensures |r.debts| == |Negatives(balances)| && |r.credits| == |Positives(balances)|
  {
    var creditors := Positives(balances);
    SettleFrom(Negatives(balances), Members(creditors), Amounts(creditors))
  }

  /** The suggestions shown for a balance table. */
  function Suggestions(balances: seq<Entry>): seq<Transfer> {
    SettlementPlan(balances).transfers
  }

  /** The settlement loops: creditors' remainders live in an array that
      every debtor's walk reduces in place. */
  method SuggestSettlements(balances: seq<Entry>) returns (transfers: seq<Transfer>)
    ensures transfers == Suggestions(balances)
  {
    var creditors := Positives(balances);
    var debtors := Negatives(balances);
    var names := Members(creditors);
    var credit := new real[|creditors|](k => if 0 <= k < |creditors| then creditors[k].amount else 0.0);
    assert credit[..] == Amounts(creditors);
    ghost var plan := SettleFrom(debtors, names, credit[..]);
    transfers := [];
    for i := 0 to |debtors|
      invariant credit.Length == |names|
      invariant transfers + SettleFrom(debtors[i..], names, credit[..]).transfers == plan.transfers
    {
      ghost var before := credit[..];
      ghost var p := Pass(debtors[i].member, debtors[i].amount, names, before, 0);
      SettleStepAt(debtors, i, names, before);
      var paid := PayDebtor(debtors[i].member, debtors[i].amount, names, credit);
      ghost var after := credit[..];
      assert paid == p.transfers && after == p.credits;
      ghost var later := SettleFrom(debtors[i + 1..], names, after).transfers;
      assert transfers + (paid + later) == (transfers + paid) + later;
      transfers := transfers + paid;
    }
  }

  /** The inner loop of the settlement: one debtor walks over the
      creditors' remainders, reducing them in place. */
  method PayDebtor(debtor: Member, debt: real, names: seq<Member>, credit: array<real>) returns (paid: seq<Transfer>)
    requires credit.Length == |names|
    modifies credit
    ensures var pass := Pass(debtor, debt, names, old(credit[..]), 0);
      paid == pass.transfers && credit[..] == pass.credits
  {
    ghost var pass := Pass(debtor, debt, names, credit[..], 0);
    var remaining := debt;
    paid := [];
    var j := 0;
    while j < credit.Length && remaining != 0.0
      invariant 0 <= j <= credit.Length
      invariant paid + Pass(debtor, remaining, names, credit[..], j).transfers == pass.transfers
      invariant Pass(debtor, remaining, names, credit[..], j).credits == pass.credits
    {
      ghost var cs := credit[..];
      if credit[j] != 0.0 {
        var amount := Min(Abs(remaining), credit[j]);
        var t := Transfer(debtor, names[j], amount);
        ghost var rest := Pass(debtor, remaining + amount, names, cs[j := cs[j] - amount], j + 1);
        PassStep(debtor, remaining, names, cs, j);
        assert paid + ([t] + rest.transfers) == (paid + [t]) + rest.transfers;
        paid := paid + [t];
        remaining := remaining + amount;
        credit[j] := credit[j] - amount;
        assert credit[..] == cs[j := cs[j] - amount];
        assert Pass(debtor, remaining, names, credit[..], j + 1) == rest;
      } else {
        PassSkip(debtor, remaining, names, cs, j);
      }
      j := j + 1;
    }
  }

  /** The walks from debtor i on: debtor i's walk, then the rest. */
  lemma SettleStepAt(debtors: seq<Entry>, i: nat, names: seq<Member>, credits: seq<real>)
    requires |names| == |credits| && i < |debtors|
    ensures var p := Pass(debtors[i].member, debtors[i].amount, names, credits, 0);
      SettleFrom(debtors[i..], names, credits).transfers == p.transfers + SettleFrom(debtors[i + 1..], names, p.credits).transfers
  {
    SettleStep(debtors[i..], names, credits);
    assert debtors[i..][0] == debtors[i] && debtors[i..][1..] == debtors[i + 1..];
  }

  /** One debtor's walk followed by the rest. */
  lemma SettleStep(debtors: seq<Entry>, names: seq<Member>, credits: seq<real>)
    requires |names| == |credits| && debtors != []
    ensures var p := Pass(debtors[0].member, debtors[0].amount, names, credits, 0);
      SettleFrom(debtors, names, credits).transfers == p.transfers + SettleFrom(debtors[1..], names, p.credits).transfers
  {
  }

  /** A walk skips an exhausted creditor. */
  lemma PassSkip(d: Member, debt: real, names: seq<Member>, credits: seq<real>, j: nat)
    requires |names| == |credits| && j < |credits| && debt != 0.0 && credits[j] == 0.0
    ensures Pass(d, debt, names, credits, j) == Pass(d, debt, names, credits, j + 1)
  {
  }

  /** One transfer step of a walk. */
  lemma PassStep(d: Member, debt: real, names: seq<Member>, credits: seq<real>, j: nat)
    requires |names| == |credits| && j < |credits| && debt != 0.0 && credits[j] != 0.0
    ensures var amount := Min(Abs(debt), credits[j]);
      var rest := Pass(d, debt + amount, names, credits[j := credits[j] - amount], j + 1);
      Pass(d, debt, names, credits, j) == PassResult([Transfer(d, names[j], amount)] + rest.transfers, rest.credits, rest.debt)
  {
  }

  // ---------------------------------------------------------------------
  // Arithmetic over transfer lists

  lemma {:induction false} TransfersConcat(a: seq<Transfer>, b: seq<Transfer>, m: Member)
    ensures Volume(a + b) == Volume(a) + Volume(b)
    ensures Paid(a + b, m) == Paid(a, m) + Paid(b, m)
    ensures Received(a + b, m) == Received(a, m) + Received(b, m)
    decreases |a|
  {
    if a == [] {
      assert a + b == b;
    } else {
      TransfersConcat(a[1..], b, m);
      assert (a + b)[1..] == a[1..] + b;
    }
  }

  /** Nobody pays or receives in a transfer list that does not name them,
      and amounts that are all positive add up to non-negative totals. */
  lemma {:induction false} TransfersBounds(ts: seq<Transfer>, m: Member)
    requires forall t :: t in ts ==> t.amount > 0.0
    ensures 0.0 <= Paid(ts, m) && 0.0 <= Received(ts, m)
    ensures (forall t :: t in ts ==> t.debtor != m) ==> Paid(ts, m) == 0.0
    ensures (forall t :: t in ts ==> t.creditor != m) ==> Received(ts, m) == 0.0
    ensures (forall t :: t in ts ==> t.debtor == m) ==> Paid(ts, m) == Volume(ts)
    decreases |ts|
  {
    if ts != [] {
      assert forall t :: t in ts[1..] ==> t in ts;
      TransfersBounds(ts[1..], m);
    }
  }

  lemma {:induction false} SumUpdate(s: seq<real>, k: nat, v: real)
    requires k < |s|
    ensures Sum(s[k := v]) == Sum(s) - s[k] + v
    decreases |s|
  {
    var n := |s|;
    if k < n - 1 {
      SumUpdate(s[..n - 1], k, v);
      assert s[k := v][..n - 1] == s[..n - 1][k := v];
    } else {
      assert s[k := v][..n - 1] == s[..n - 1];
    }
  }

  lemma {:induction false} SumConcat(a: seq<real>, b: seq<real>)
    ensures Sum(a + b) == Sum(a) + Sum(b)
    decreases |b|
  {
    if b == [] {
      assert a + b == a;
    } else {
      SumConcat(a, b[..|b| - 1]);
      assert (a + b)[..|a + b| - 1] == a + b[..|b| - 1];
    }
  }

  lemma {:induction false} SumNonNegativeZero(s: seq<real>)
    requires NonNegative(s) && Sum(s) == 0.0
    ensures AllZero(s)
    decreases |s|
  {
    if s != [] {
      SumNonNegativeBound(s[..|s| - 1]);
      SumNonNegativeZero(s[..|s| - 1]);
    }
  }

  lemma {:induction false} SumNonNegativeBound(s: seq<real>)
    requires NonNegative(s)
    ensures Sum(s) >= 0.0
    decreases |s|
  {
    if s != [] {
      SumNonNegativeBound(s[..|s| - 1]);
    }
  }

  lemma AmountsCons(b: seq<Entry>)
    requires b != []
    ensures Amounts(b) == [b[0].amount] + Amounts(b[1..])
  {
  }

  // ---------------------------------------------------------------------
  // One debtor's walk

  /** One step of a walk: the transfer is positive and leaves neither the
      debt above zero nor the remainder below zero, and it zeroes one of
      the two. */
  lemma StepFacts(debt: real, credit: real)
    requires debt < 0.0 < credit
    ensures var amount := Min(Abs(debt), credit);
      && amount > 0.0 && debt + amount <= 0.0 && credit - amount >= 0.0
      && (debt + amount == 0.0 || credit - amount == 0.0)
  {
  }

  /** A walk keeps the debt non-positive and the remainders non-negative,
      transfers only positive amounts from this debtor to listed creditors,
      leaves creditors before j alone, and ends with the debt paid off or
      every creditor from j on exhausted. */
  lemma {:induction false} PassShape(d: Member, debt: real, names: seq<Member>, credits: seq<real>, j: nat)
    requires |names| == |credits| && j <= |credits|
    requires debt <= 0.0 && NonNegative(credits)
    ensures var r := Pass(d, debt, names, credits, j);
      && r.debt <= 0.0 && NonNegative(r.credits)
      && (forall t :: t in r.transfers ==> t.debtor == d && t.creditor in names && t.amount > 0.0)
      && (forall k :: 0 <= k < |credits| ==> r.credits[k] <= credits[k])
      && (forall k :: 0 <= k < j ==> r.credits[k] == credits[k])
      && (r.debt == 0.0 || forall k :: j <= k < |credits| ==> r.credits[k] == 0.0)
    decreases |credits| - j
  {
    if j == |credits| || debt == 0.0 {
    } else if credits[j] == 0.0 {
      PassShape(d, debt, names, credits, j + 1);
    } else {
      var amount := Min(Abs(debt), credits[j]);
      var credits' := credits[j := credits[j] - amount];
      var rest := Pass(d, debt + amount, names, credits', j + 1);
      StepFacts(debt, credits[j]);
      PassShape(d, debt + amount, names, credits', j + 1);
      var t := Transfer(d, names[j], amount);
      assert Pass(d, debt, names, credits, j) == PassResult([t] + rest.transfers, rest.credits, rest.debt);
    }
  }

  /** A walk moves exactly what it transfers from the creditors'
      remainders to the debt, and each creditor's remainder falls by what
      that creditor received. */
  lemma {:induction false} PassAccounting(d: Member, debt: real, names: seq<Member>, credits: seq<real>, j: nat)
    requires |names| == |credits| && j <= |credits| && Distinct(names)
    ensures var r := Pass(d, debt, names, credits, j);
      && r.debt == debt + Volume(r.transfers)
      && Sum(r.credits) == Sum(credits) - Volume(r.transfers)
      && (forall k :: 0 <= k < |credits| ==> r.credits[k] == credits[k] - Received(r.transfers, names[k]))
    decreases |credits| - j
  {
    if j == |credits| || debt == 0.0 {
    } else if credits[j] == 0.0 {
      PassAccounting(d, debt, names, credits, j + 1);
    } else {
      var amount := Min(Abs(debt), credits[j]);
      var credits' := credits[j := credits[j] - amount];
      var rest := Pass(d, debt + amount, names, credits', j + 1);
      PassAccounting(d, debt + amount, names, credits', j + 1);
      var t := Transfer(d, names[j], amount);
      var ts := [t] + rest.transfers;
      assert Pass(d, debt, names, credits, j) == PassResult(ts, rest.credits, rest.debt);
      assert ts[0] == t && ts[1..] == rest.transfers;
      assert Volume(ts) == amount + Volume(rest.transfers);
      SumUpdate(credits, j, credits[j] - amount);
      forall k | 0 <= k < |credits|
        ensures rest.credits[k] == credits[k] - Received(ts, names[k])
      {
        assert Received(ts, names[k]) == (if k == j then amount else 0.0) + Received(rest.transfers, names[k]);
      }
    }
  }

  // ---------------------------------------------------------------------
  // All debtors' walks

  /** Over all debtors: remainders stay non-negative and only fall, debts
      stay non-positive, every transfer is a positive amount from a debtor
      to a creditor, and every debtor whose debt is not paid off has
      exhausted every creditor. */
  lemma {:induction false} SettleShape(debtors: seq<Entry>, names: seq<Member>, credits: seq<real>)
    requires |names| == |credits| && NonNegative(credits)
    requires forall i :: 0 <= i < |debtors| ==> debtors[i].amount <= 0.0
    ensures var r := SettleFrom(debtors, names, credits);
      && NonNegative(r.credits)
      && (forall k :: 0 <= k < |credits| ==> r.credits[k] <= credits[k])
      && (forall i :: 0 <= i < |debtors| ==> r.debts[i] <= 0.0)
      && (forall t :: t in r.transfers ==> t.debtor in Members(debtors) && t.creditor in names && t.amount > 0.0)
      && (forall i :: 0 <= i < |debtors| ==> r.debts[i] == 0.0 || AllZero(r.credits))
    decreases |debtors|
  {
    if debtors != [] {
      var r := SettleFrom(debtors, names, credits);
      var d := debtors[0].member;
      var p := Pass(d, debtors[0].amount, names, credits, 0);
      var tail := debtors[1..];
      var rest := SettleFrom(tail, names, p.credits);
      PassShape(d, debtors[0].amount, names, credits, 0);
      SettleShape(tail, names, p.credits);
      assert r == Plan(p.transfers + rest.transfers, rest.credits, [p.debt] + rest.debts);
      assert Members(tail) == Members(debtors)[1..];
      forall i | 0 <= i < |debtors|
        ensures r.debts[i] <= 0.0 && (r.debts[i] == 0.0 || AllZero(r.credits))
      {
        if i > 0 {
          assert r.debts[i] == rest.debts[i - 1];
        }
      }
    }
  }

  /** Over all debtors: each creditor's final remainder is its balance
      minus what it received, and the remainders fall by exactly the
      volume transferred. */
  lemma {:induction false} SettleCredits(debtors: seq<Entry>, names: seq<Member>, credits: seq<real>)
    requires |names| == |credits| && Distinct(names)
    ensures var r := SettleFrom(debtors, names, credits);
      && (forall k :: 0 <= k < |credits| ==> r.credits[k] == credits[k] - Received(r.transfers, names[k]))
      && Sum(r.credits) == Sum(credits) - Volume(r.transfers)
    decreases |debtors|
  {
    if debtors != [] {
      var r := SettleFrom(debtors, names, credits);
      var p := Pass(debtors[0].member, debtors[0].amount, names, credits, 0);
      var rest := SettleFrom(debtors[1..], names, p.credits);
      assert r == Plan(p.transfers + rest.transfers, rest.credits, [p.debt] + rest.debts);
      PassAccounting(debtors[0].member, debtors[0].amount, names, credits, 0);
      SettleCredits(debtors[1..], names, p.credits);
      TransfersConcat(p.transfers, rest.transfers, debtors[0].member);
      forall k | 0 <= k < |credits|
        ensures r.credits[k] == credits[k] - Received(r.transfers, names[k])
      {
        TransfersConcat(p.transfers, rest.transfers, names[k]);
      }
    }
  }

  /** Over all debtors: each debtor's final debt is its balance plus what
      it paid. */
  lemma {:induction false} SettleDebts(debtors: seq<Entry>, names: seq<Member>, credits: seq<real>)
    requires |names| == |credits| && NonNegative(credits) && Distinct(names)
    requires forall i :: 0 <= i < |debtors| ==> debtors[i].amount <= 0.0
    requires Distinct(Members(debtors))
    ensures var r := SettleFrom(debtors, names, credits);
      forall i :: 0 <= i < |debtors| ==> r.debts[i] == debtors[i].amount + Paid(r.transfers, debtors[i].member)
    decreases |debtors|
  {
    if debtors != [] {
      var r := SettleFrom(debtors, names, credits);
      var d := debtors[0].member;
      var p := Pass(d, debtors[0].amount, names, credits, 0);
      var tail := debtors[1..];
      var rest := SettleFrom(tail, names, p.credits);
      assert r == Plan(p.transfers + rest.transfers, rest.credits, [p.debt] + rest.debts);
      assert Members(tail) == Members(debtors)[1..];
      PassShape(d, debtors[0].amount, names, credits, 0);
      PassAccounting(d, debtors[0].amount, names, credits, 0);
      SettleShape(tail, names, p.credits);
      SettleDebts(tail, names, p.credits);
      forall i | 0 <= i < |debtors|
        ensures r.debts[i] == debtors[i].amount + Paid(r.transfers, debtors[i].member)
      {
        var m := debtors[i].member;
        TransfersConcat(p.transfers, rest.transfers, m);
        if i == 0 {
          assert d !in Members(tail);
          TransfersBounds(p.transfers, d);
          TransfersBounds(rest.transfers, d);
        } else {
          assert r.debts[i] == rest.debts[i - 1] && tail[i - 1] == debtors[i];
          assert m != d by {
            assert Members(debtors)[0] == d && Members(debtors)[i] == m;
          }
          TransfersBounds(p.transfers, m);
        }
      }
    }
  }

  /** Over all debtors: the debts grow by exactly the volume transferred. */
  lemma {:induction false} SettleDebtSum(debtors: seq<Entry>, names: seq<Member>, credits: seq<real>)
    requires |names| == |credits| && Distinct(names)
    ensures var r := SettleFrom(debtors, names, credits);
      Sum(r.debts) == Sum(Amounts(debtors)) + Volume(r.transfers)
    decreases |debtors|
  {
    if debtors != [] {
      var r := SettleFrom(debtors, names, credits);
      var p := Pass(debtors[0].member, debtors[0].amount, names, credits, 0);
      var rest := SettleFrom(debtors[1..], names, p.credits);
      assert r == Plan(p.transfers + rest.transfers, rest.credits, [p.debt] + rest.debts);
      PassAccounting(debtors[0].member, debtors[0].amount, names, credits, 0);
      SettleDebtSum(debtors[1..], names, p.credits);
      TransfersConcat(p.transfers, rest.transfers, debtors[0].member);
      SumConcat([p.debt], rest.debts);
      SumConcat([debtors[0].amount], Amounts(debtors[1..]));
      AmountsCons(debtors);
      assert [p.debt][..0] == [] && [debtors[0].amount][..0] == [];
    }
  }

  // ---------------------------------------------------------------------
  // How many transfers

  /** How many remainders are not zero. */
  function NonZero(s: seq<real>): (c: nat)
    ensures c <= |s|
    ensures c == 0 <==> AllZero(s)
  {
    if s == [] then 0 else NonZero(s[..|s| - 1]) + if s[|s| - 1] != 0.0 then 1 else 0
  }

  /** Zeroing a non-zero remainder lowers the count by one; changing one
      non-zero remainder into another keeps it. */
  lemma {:induction false} NonZeroUpdate(s: seq<real>, k: nat, v: real)
    requires k < |s| && s[k] != 0.0
    ensures NonZero(s[k := v]) == NonZero(s) - (if v == 0.0 then 1 else 0)
    decreases |s|
  {
    var n := |s|;
    if k < n - 1 {
      NonZeroUpdate(s[..n - 1], k, v);
      assert s[k := v][..n - 1] == s[..n - 1][k := v];
    } else {
      assert s[k := v][..n - 1] == s[..n - 1];
    }
  }

  /** A walk's transfers and the creditors it leaves unexhausted number at
      most the n unexhausted creditors it started from, plus one for a
      last transfer that paid the debt off early. */
  predicate CountBound(r: PassResult, n: nat) {
    |r.transfers| + NonZero(r.credits) <= n + (if r.debt == 0.0 && NonZero(r.credits) > 0 then 1 else 0)
  }

  /** Every transfer of a walk but possibly one exhausts a creditor; the
      exception is a last transfer that pays the debt off while the
      creditors are not all exhausted. */
  lemma {:induction false} PassCount(d: Member, debt: real, names: seq<Member>, credits: seq<real>, j: nat)
    requires |names| == |credits| && j <= |credits|
    requires debt <= 0.0 && NonNegative(credits)
    ensures CountBound(Pass(d, debt, names, credits, j), NonZero(credits))
    decreases |credits| - j
  {
    if j == |credits| || debt == 0.0 {
      assert Pass(d, debt, names, credits, j) == PassResult([], credits, debt);
    } else if credits[j] == 0.0 {
      PassSkip(d, debt, names, credits, j);
      PassCount(d, debt, names, credits, j + 1);
    } else if credits[j] <= Abs(debt) {
      PassExhausts(d, debt, names, credits, j);
      PassCount(d, debt + credits[j], names, credits[j := 0.0], j + 1);
      ExhaustsCount(d, debt, names, credits, j);
    } else {
      PaysOffCount(d, debt, names, credits, j);
    }
  }

  /** The count after a transfer that exhausts creditor j follows from
      the count of the rest of the walk. */
  lemma ExhaustsCount(d: Member, debt: real, names: seq<Member>, credits: seq<real>, j: nat)
    requires |names| == |credits| && j < |credits|
    requires debt < 0.0 < credits[j] <= Abs(debt) && NonNegative(credits)
    requires CountBound(Pass(d, debt + credits[j], names, credits[j := 0.0], j + 1), NonZero(credits[j := 0.0]))
    ensures CountBound(Pass(d, debt, names, credits, j), NonZero(credits))
  {
    var r := Pass(d, debt, names, credits, j);
    var rest := Pass(d, debt + credits[j], names, credits[j := 0.0], j + 1);
    PassExhausts(d, debt, names, credits, j);
    NonZeroUpdate(credits, j, 0.0);
    assert |r.transfers| == 1 + |rest.transfers| && r.credits == rest.credits && r.debt == rest.debt;
  }

  /** A transfer that pays the debt off adds one transfer and leaves
      creditor j unexhausted. */
  lemma PaysOffCount(d: Member, debt: real, names: seq<Member>, credits: seq<real>, j: nat)
    requires |names| == |credits| && j < |credits|
    requires debt < 0.0 && Abs(debt) < credits[j]
    ensures CountBound(Pass(d, debt, names, credits, j), NonZero(credits))
  {
    PassPaysOff(d, debt, names, credits, j);
    NonZeroUpdate(credits, j, credits[j] + debt);
    var credits' := credits[j := credits[j] + debt];
    assert NonZero(credits') > 0 by {
      assert credits'[j] != 0.0;
    }
  }

  /** A transfer that exhausts creditor j leaves the walk to go on with a
      smaller debt. */
  lemma PassExhausts(d: Member, debt: real, names: seq<Member>, credits: seq<real>, j: nat)
    requires |names| == |credits| && j < |credits|
    requires debt < 0.0 < credits[j] <= Abs(debt) && NonNegative(credits)
    ensures var r := Pass(d, debt, names, credits, j);
      var rest := Pass(d, debt + credits[j], names, credits[j := 0.0], j + 1);
      |r.transfers| == 1 + |rest.transfers| && r.credits == rest.credits && r.debt == rest.debt
      && debt + credits[j] <= 0.0 && NonNegative(credits[j := 0.0])
  {
    PassStep(d, debt, names, credits, j);
  }

  /** A transfer that pays the debt off ends the walk. */
  lemma PassPaysOff(d: Member, debt: real, names: seq<Member>, credits: seq<real>, j: nat)
    requires |names| == |credits| && j < |credits|
    requires debt < 0.0 && Abs(debt) < credits[j]
    ensures Pass(d, debt, names, credits, j)
      == PassResult([Transfer(d, names[j], -debt)], credits[j := credits[j] + debt], 0.0)
  {
    PassStep(d, debt, names, credits, j);
  }

  /** Over all debtors: at most one transfer per debtor besides one per
      exhausted creditor, and one fewer when the creditors end exhausted. */
  lemma {:induction false} SettleCount(debtors: seq<Entry>, names: seq<Member>, credits: seq<real>)
    requires |names| == |credits| && NonNegative(credits)
    requires forall i :: 0 <= i < |debtors| ==> debtors[i].amount <= 0.0
    ensures var r := SettleFrom(debtors, names, credits);
      |r.transfers| + NonZero(r.credits)
        <= NonZero(credits) + |debtors| - (if NonZero(r.credits) == 0 && debtors != [] then 1 else 0)
    decreases |debtors|
  {
    if debtors != [] {
      var r := SettleFrom(debtors, names, credits);
      var p := Pass(debtors[0].member, debtors[0].amount, names, credits, 0);
      var tail := debtors[1..];
      var rest := SettleFrom(tail, names, p.credits);
      assert r == Plan(p.transfers + rest.transfers, rest.credits, [p.debt] + rest.debts);
      PassShape(debtors[0].member, debtors[0].amount, names, credits, 0);
      PassCount(debtors[0].member, debtors[0].amount, names, credits, 0);
      SettleCount(tail, names, p.credits);
      if tail == [] {
        assert rest == Plan([], p.credits, []);
      }
    }
  }
}
