# Splitwise-clone ledger, modelled in Dafny

This project models the expense-sharing core of the Streamlit app
`app.py`. It covers six parts:

- **Split rows.** `add_expense` turns an expense into signed split rows under
  one of three policies:
  - "Equal Split"
  - "Payer Owes Full"
  - "Payer Doesn't Owe Anything"
- **Add-expense guard.** The check made before an expense is accepted.
- **Balances.** `calculate_balances` folds all split rows into a balance
  table whose members appear in first-appearance order.
- **Member summary.** `get_member_summary` totals what one member paid and
  owes.
- **Settlement suggestions.** A greedy matching of debtors against creditors
  that reduces the creditors' remainders in place.
- **Display and ids.** `format_currency`, the transaction ids, and the
  logical effect of the members and expenses tables.

Amounts are exact `real` numbers, so zero-sum and full-settlement hold
exactly. Currency display works on whole cents.

The modules are:

- `Records`: members, policies, entries, dates, expenses, and dictionary
  lookups on entry tables.
- `Splits`: split rows (`SplitRows`, and the loop version `ComputeSplits`),
  plus the add-expense guard.
- `Balances`: the balance table (`BalancesOf`, `CalculateBalances`) and the
  member summary (`MemberSummary`).
- `Settlement`: the settlement walks over an array of creditor remainders.
  `Pass` and `SettleFrom` specify them; `SuggestSettlements` and `PayDebtor`
  implement them.
- `SettlementProperties`: what the suggestions promise about a balance table.
- `Decimal`, `Formatting`, `TransactionIds`: decimal strings, currency
  display, and transaction ids.
- `Store`: the class `Ledger`. Its fields are the members set and the
  expense sequence.

What the settlement suggestions guarantee:

- **Settling.** The suggestions bring every balance to zero only when the
  balances sum to zero (`ZeroSumSettlesEveryone`). Otherwise nobody is
  pushed past zero (`NoBalanceOvershoots`).
- **Transfer count.** There are never more than debtors + creditors − 1
  transfers, and none when nobody owes (`SuggestionsCount`). This holds
  whether or not the balances sum to zero.

## Model

| member | source | states |
|---|---|---|
| `Splits.SplitRows` | app.py:89-110 | the split fails exactly when a per-member share policy has nobody selected; otherwise the payer's row comes first |
| `Splits.ComputeSplits` | app.py:89-110 | the row-appending loops produce exactly `SplitRows`, including the division failure |
| `Splits.SplitRowsBalanced` | app.py:89-110 | with the payer not selected, the rows of every policy sum to zero, and the split succeeds iff the policy is Equal Split or somebody is selected |
| `Splits.EqualSplitTotal` | app.py:89-96 | Equal Split rows total one (n+1)-th of the amount for each time the payer is among the n selected (the divisor counts the payer, the loop skips them); for a non-zero amount they sum to zero iff the payer is not selected |
| `Splits.ShareSplitTotal` | app.py:97-110 | under "Payer Owes Full" and "Payer Doesn't Owe Anything" with somebody selected, the payer's row and the n shares of amount / n sum to zero |
| `Splits.SplitRowsDistinct` | app.py:89-110 | with distinct selected members who exclude the payer, the rows name the payer and then the selected members, each once |
| `Splits.SplitRowsMembers` | app.py:89-110 | with the payer not selected, a successful split has rows for the payer and then for each selected member in order |
| `Splits.GuardAdmitsDivisionByZero` | app.py:249 | the form check accepts "Payer Owes Full" with nobody selected, and that input makes the split divide by zero |
| `Splits.CorrectedGuardExact` | app.py:249 | the corrected check accepts exactly the inputs the written check accepts and the split can process |
| `Splits.EqualSplitScenario` | app.py:89-96 | 90 paid by A, split equally with B and C: A +60, B −30, C −30 |
| `Splits.PayerOwesFullScenario` | app.py:97-103 | 100 paid by A, with B and C: A −100, B +50, C +50 |
| `Splits.PayerOwesNothingScenario` | app.py:104-110 | 40 paid by A for B: A +40, B −40 |
| `Splits.AddExpenseGuard` | app.py:249 | the form check as written; on every input it accepts, the split fails exactly for "Payer Owes Full" with nobody selected |
| `Balances.CalculateBalances` | app.py:143-151 | the nested loops produce the table `BalancesOf`, which inserts a member at 0 on first sight and then adds each row |
| `Balances.CreditFacts` | app.py:148-150 | one `+=` changes only that member's balance, appends the member only when new, and keeps members distinct |
| `Balances.BalanceMembers` | app.py:143-151 | the table's members are distinct, in first-appearance order, and are exactly the members of some split |
| `Balances.BalanceValues` | app.py:143-151 | each member's balance is the sum of their split amounts over all expenses |
| `Balances.BalancesZeroSum` | app.py:143-151 | when every expense's rows sum to zero, the balances sum to zero |
| `Balances.BalancesOrderIndependent` | app.py:143-151 | reordering the expenses changes neither the set of members nor any balance |
| `Balances.BalanceAfterRemoval` | app.py:174-175 | removing one expense changes each member's balance by exactly that expense's rows for the member |
| `Balances.MemberSummary` | app.py:192-200 | the loop's totals are the amounts of the expenses the member paid and the member's split amounts |
| `Balances.OwedIsBalance` | app.py:198-199 | with one row per member in each expense, the owed total equals the member's balance |
| `Balances.SummaryOrderIndependent` | app.py:192-200 | reordering the expenses changes neither total |
| `Settlement.Positives` | app.py:266 | the creditors are exactly the entries with a strictly positive balance |
| `Settlement.Negatives` | app.py:267 | the debtors are exactly the entries with a strictly negative balance |
| `SettlementProperties.FiltersInOrder` | app.py:266-267 | each filter keeps the entries it selects in the balance table's order |
| `Settlement.SuggestSettlements` | app.py:266-289 | the nested loops over the array of creditor remainders emit exactly `Suggestions` |
| `Settlement.PayDebtor` | app.py:270-289 | one debtor's inner loop emits that debtor's walk and leaves the array holding the reduced remainders |
| `Settlement.StepFacts` | app.py:275 | a step transfers a positive amount, pushes neither the debt above nor the remainder below zero, and zeroes one of them |
| `Settlement.PassShape` | app.py:270-289 | one debtor's walk keeps remainders non-negative and only lowers them, pays only positive amounts to listed creditors, and ends paid off or with every later creditor exhausted |
| `Settlement.PassAccounting` | app.py:275-289 | a walk adds to the debt exactly what it transfers and lowers each creditor's remainder by what that creditor receives |
| `Settlement.SettleShape` | app.py:269-289 | over all debtors, remainders stay non-negative, debts stay non-positive, and any debtor left owing has exhausted every creditor |
| `Settlement.SettleDebts` | app.py:269-289 | each debtor's final debt is its balance plus what it paid |
| `Settlement.SettleCredits` | app.py:269-289 | each creditor's final remainder is its balance minus what it received, and the remainders fall by the transferred volume |
| `Settlement.SettleDebtSum` | app.py:269-289 | the debts rise by exactly the transferred volume |
| `Settlement.PassCount` | app.py:270-289 | every transfer of a walk but at most one exhausts a creditor |
| `Settlement.SettleCount` | app.py:269-289 | the number of transfers is at most the number of debtors plus the number of creditors exhausted, and one fewer when all end exhausted |
| `SettlementProperties.TotalSplit` | app.py:266-267 | the creditors' and the debtors' balances together make the whole total |
| `SettlementProperties.FiltersDistinct` | app.py:266-267 | each filtered table keeps one entry per member |
| `SettlementProperties.Side` | app.py:266-267 | a member is a creditor iff their balance is positive and a debtor iff it is negative |
| `SettlementProperties.DebtorRemaining` | app.py:269-289 | after the suggested transfers, a debtor is left with its final debt, which lies between its balance and zero |
| `SettlementProperties.CreditorRemaining` | app.py:269-289 | after the suggested transfers, a creditor is left with its final remainder, which lies between zero and its balance |
| `SettlementProperties.NeutralRemaining` | app.py:266-270 | a member whose balance is zero neither pays nor receives |
| `SettlementProperties.SuggestionsParties` | app.py:269-275 | every suggested transfer is a positive amount from a member with a negative balance to one with a positive balance |
| `SettlementProperties.NoBalanceOvershoots` | app.py:269-289 | following the suggestions, no debtor pays more than it owes and no creditor receives more than it is owed |
| `SettlementProperties.PlanSettles` | app.py:269-289 | when the balances sum to zero, every debt ends paid off and every creditor's remainder ends at zero |
| `SettlementProperties.ZeroSumSettlesEveryone` | app.py:269-289 | when the balances sum to zero, following the suggestions leaves every member at zero |
| `SettlementProperties.SuggestionsEmptyIff` | app.py:266-275 | there are no suggestions iff nobody is owed or nobody owes |
| `SettlementProperties.AllSettledNoSuggestions` | app.py:266-267 | an all-zero balance table gets no suggestions |
| `SettlementProperties.TwoDebtorsScenario` | app.py:269-289 | {A: −30, B: −20, C: +50} gives A pays C 30, then B pays C 20 |
| `SettlementProperties.SuggestionsCount` | app.py:269-289 | there are no transfers without a debtor, and otherwise at most debtors + creditors − 1 |
| `Formatting.Unsigned` | app.py:156-158 | a non-negative amount shows as canonical whole dollars, a point, and exactly two digits |
| `Formatting.FormatCurrency` | app.py:153-158 | the display starts with '-' iff the amount is negative, then '$' and the magnitude with two decimals |
| `Formatting.FormatRoundTrip` | app.py:153-158 | reading a display back gives the amount it shows |
| `Formatting.ParseSound` | app.py:153-158 | every string that reads as an amount is exactly that amount's display |
| `Formatting.ParseExact` | app.py:153-158 | a string reads as an amount iff it is that amount's display |
| `Formatting.FormatInjective` | app.py:153-158 | two different amounts never share a display |
| `Formatting.FormatNegativeScenario` | app.py:153-158 | −12.50 shows as "-$12.50" |
| `Formatting.FormatCentsScenario` | app.py:153-158 | 0.05 shows as "$0.05" |
| `Formatting.FormatZeroScenario` | app.py:153-158 | 0 shows as "$0.00" |
| `Decimal.NatToStringRoundTrip` | app.py:54 | the decimal rendering of the count reads back as the count |
| `Decimal.PaddedRoundTrip` | app.py:44 | a zero-padded date field has exactly its width and reads back as its value |
| `Decimal.CanonicalRoundTrip` | app.py:54 | a digit string without a leading zero is the rendering of its own value |
| `TransactionIds.TransactionIdFor` | app.py:54 | an id is all digits, the eight date digits followed by at least one more |
| `TransactionIds.TransactionIdRoundTrip` | app.py:42-56 | an id reads back as the date and the sequence number it was made from |
| `TransactionIds.TransactionIdInjective` | app.py:42-56 | different dates or numbers never give the same id |
| `TransactionIds.SameDayInjective` | app.py:54 | on one day, two sequence numbers give the same id exactly when they are equal |
| `TransactionIds.CountOnDate` | app.py:49-50 | the count of a day's expenses is zero iff no expense has that date |
| `TransactionIds.GenerateTransactionId` | app.py:42-56 | the id as written: for a valid date it reads back as that date and the day's count plus one |
| `TransactionIds.GeneratedIdCollides` | app.py:49-54 | after two expenses on a day and the deletion of the first, the count-based id is the id still in use |
| `TransactionIds.NextFree` | app.py:50 | the corrected sequence number is the first one from the count on whose id is unused |
| `TransactionIds.NextTransactionId` | app.py:42-56 | the corrected id is never in use, and equals the count-based id whenever that one is free |
| `Store.IndexOfId` | app.py:168-169 | the lookup finds the expense with the id, and fails exactly when no expense has it |
| `Store.RemovalKeepsValid` | app.py:174-175 | removing one expense keeps ids unique, frees its id, and keeps every other expense well formed |
| `Store.SplitRowsWellFormed` | app.py:89-110 | a successful split for a member payer and selected members, the payer not among them, gives rows for known members, one per member, summing to zero |
| `Store.AppendKeepsValid` | app.py:85-86 | appending a well-formed expense under an unused id keeps ids unique and every expense well formed |
| `Store.LedgerSettles` | app.py:143-151 | for any ledger's expenses, the balances sum to zero and following the suggestions leaves everyone at zero |
| `Store.Ledger.constructor` | app.py:29-39 | a fresh ledger has no members and no expenses |
| `Store.Ledger.AddMember` | app.py:59-68 | a new name is added; a duplicate changes nothing and is reported |
| `Store.Ledger.AddExpense` | app.py:78-113 | records the expense under an unused id with its policy's rows; a failed split leaves the ledger unchanged |
| `Store.Ledger.SubmitExpense` | app.py:248-253 | the form is accepted iff it passes the corrected check; an accepted form appends the expense under the corrected id with its policy's rows, and a rejected one changes nothing |
| `Store.Ledger.DeleteTransaction` | app.py:163-181 | removes exactly the expense with that id, or nothing for an unknown id; each balance drops by the removed rows |
| `Store.Ledger.DeleteAll` | app.py:184-190 | empties the expenses and keeps the members |

## Left out

- **Storage and the UI.** SQLite (connections, SQL text, commits, the
  `expenses.id` rowid that links split rows to their expense) and every
  Streamlit widget, message and style are left out. Each expense carries its
  own split rows. The UI checks for an empty member name (app.py:211) and
  an empty id to delete (app.py:335) are not modelled.
- **The `get_expenses` query** (app.py:115-140). The model takes the
  expenses as an in-memory sequence and does not model the
  `GROUP_CONCAT` text, the `float()` re-parse, the inner join or the
  `ORDER BY date DESC` ordering. Balance values do not depend on that order
  (`BalancesOrderIndependent`). The order of the table's members, and so
  the order of the suggestions, follows the sequence given.
- **Floating point.** Amounts are exact reals, so `+=` drift is not
  modelled, and neither is the rounding done by Python's `.2f`.
  `format_currency` is modelled on whole cents, so a float in (−0.005, 0),
  which Python shows as "-$0.00", has no counterpart.
- **Clock and dates.** `datetime.now` and `strftime` are left out: the date
  is a parameter, and the day's count is computed from the expenses held in
  memory. Years are taken to be zero-padded to four digits.
- **Unknown split types.** Policies are a three-valued datatype, so the
  case of an unknown split-type string, which writes no rows, cannot arise.
- **The form widgets' guarantees.** `Store.Ledger.AddExpense` requires the
  payer and the selected members to be members, the payer not to be
  selected, and no member to be selected twice. The select widgets
  guarantee these (app.py:236, 242).
- **Failed splits.** When the division at app.py:98 fails, the expense row
  inserted at app.py:85 is never committed, so nothing is stored. The
  model's error result leaves the ledger unchanged.
- **The two findings.** The ledger uses the corrected guard and the
  corrected id generator. The as-written versions (`AddExpenseGuard`,
  `GenerateTransactionId`) are modelled beside them and are not used by the
  store.
- `Balances.CalculateBalances`, `Balances.MemberSummary`: app.py:136
  builds each expense's splits as a dict, so of two rows for one member
  only the last survives. The model adds every row in `Tally` and takes the
  first row in `Lookup`. A ledger keeps one row per member in every expense
  (`Store.WellFormed`), so over a ledger the results agree with the
  program. On expenses with repeated members they do not.
- **Commented-out code** (app.py:160-161, 318-325) is not modelled.

## Findings

| source | as written | input that shows it | evidently intended | confidence | as-written member | corrected member |
|---|---|---|---|---|---|---|
| app.py:249 | the form check accepts an empty member selection when the policy is "Payer Owes Full" | description "x", amount 10, a payer, nobody selected, "Payer Owes Full": `amount / len(split_with)` at app.py:98 divides by zero | every policy needs at least one selected member | not executed | `Splits.GuardAdmitsDivisionByZero` | `Splits.CorrectedGuardExact` |
| app.py:49-54 | the id is the date followed by the number of expenses already on that date plus one | add two expenses on one day (ids D1 and D2), delete D1, then add another: the count is 1, so the new id is D2, which is still in use, and the insert at app.py:85 breaks the UNIQUE column | a sequence number whose id is not in use | not executed | `TransactionIds.GeneratedIdCollides` | `TransactionIds.NextTransactionId` |
