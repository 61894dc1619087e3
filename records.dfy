/** The ledger's entities: members, split policies, (member, amount)
    entries, calendar dates and recorded expenses. */
module Records {

  /** A member is identified by its name, compared exactly. */
  type Member = string

  /** The three choices of the "Split Type" selector. */
  datatype Policy = EqualSplit | PayerOwesFull | PayerOwesNothing

  /** One (member, signed amount) pair: a split row of an expense, or one
      entry of a balance table. Positive means the member is owed money. */
  datatype Entry = Entry(member: Member, amount: real)

  datatype Date = Date(year: nat, month: nat, day: nat)

  /** Dates a clock can give: the years of Python's datetime, real months
      and days. */
  predicate ValidDate(d: Date) {
    1 <= d.year <= 9999 && 1 <= d.month <= 12 && 1 <= d.day <= 31
  }

  /** A stored expense together with the split rows written for it. */
  datatype Expense = Expense(
    description: string,
    amount: real,
    payer: Member,
    policy: Policy,
    date: Date,
    transactionId: string,
    splits: seq<Entry>)

  function Members(entries: seq<Entry>): (ms: seq<Member>)
    ensures |ms| == |entries|
    ensures forall k :: 0 <= k < |entries| ==> ms[k] == entries[k].member
  {
    seq(|entries|, k requires 0 <= k < |entries| => entries[k].member)
  }

  predicate Distinct<T(==)>(s: seq<T>) {
    forall i, j :: 0 <= i < j < |s| ==> s[i] != s[j]
  }

  /** Sum of the amounts of a sequence of entries. */
  function Total(entries: seq<Entry>): real {
    if entries == [] then 0.0 else Total(entries[..|entries| - 1]) + entries[|entries| - 1].amount
  }

  /** Sum of the amounts of the entries that belong to m. */
  function SumFor(entries: seq<Entry>, m: Member): real {
    if entries == [] then 0.0
    else
      var last := entries[|entries| - 1];
      SumFor(entries[..|entries| - 1], m) + (if last.member == m then last.amount else 0.0)
  }

  /** Position of m's first entry, or |entries| when m has none. */
  function Find(entries: seq<Entry>, m: Member): (k: nat)
    ensures k <= |entries|
    ensures k < |entries| ==> entries[k].member == m
    ensures forall i :: 0 <= i < k ==> entries[i].member != m
  {
    if entries == [] then 0
    else if entries[0].member == m then 0
    else 1 + Find(entries[1..], m)
  }

  /** m's amount in an entry table, 0 when m is absent: what
      `table.get(m, 0)` gives for a dictionary. */
  function Lookup(entries: seq<Entry>, m: Member): real {
    var k := Find(entries, m);
    if k < |entries| then entries[k].amount else 0.0
  }

  lemma {:induction false} TotalConcat(a: seq<Entry>, b: seq<Entry>)
    ensures Total(a + b) == Total(a) + Total(b)
    decreases |b|
  {
    if b == [] {
      assert a + b == a;
    } else {
      var b' := b[..|b| - 1];
      TotalConcat(a, b');
      assert (a + b)[..|a + b| - 1] == a + b';
    }
  }

  lemma {:induction false} SumForConcat(a: seq<Entry>, b: seq<Entry>, m: Member)
    ensures SumFor(a + b, m) == SumFor(a, m) + SumFor(b, m)
    decreases |b|
  {
    if b == [] {
      assert a + b == a;
    } else {
      var b' := b[..|b| - 1];
      var last := b[|b| - 1];
      var c := if last.member == m then last.amount else 0.0;
      SumForConcat(a, b', m);
      assert (a + b)[..|a + b| - 1] == a + b' && (a + b)[|a + b| - 1] == last;
      assert SumFor(a + b, m) == SumFor(a + b', m) + c;
      assert SumFor(b, m) == SumFor(b', m) + c;
    }
  }

  lemma {:induction false} SumForAbsent(entries: seq<Entry>, m: Member)
    requires m !in Members(entries)
    ensures SumFor(entries, m) == 0.0
    decreases |entries|
  {
    if entries != [] {
      var init := entries[..|entries| - 1];
      assert Members(init) == Members(entries)[..|entries| - 1];
      SumForAbsent(init, m);
    }
  }

  /** In a table with distinct members, m's one entry is all of m's
      amounts. */
  lemma {:induction false} LookupIsSumFor(entries: seq<Entry>, m: Member)
    requires Distinct(Members(entries))
    ensures Lookup(entries, m) == SumFor(entries, m)
    decreases |entries|
  {
    if entries != [] {
      var init := entries[..|entries| - 1];
      var last := entries[|entries| - 1];
      assert Members(init) == Members(entries)[..|entries| - 1];
      LookupIsSumFor(init, m);
      FindPrefix(entries, m);
      if last.member == m {
        assert m !in Members(init);
        SumForAbsent(init, m);
      }
    }
  }

  /** Find over all entries agrees with Find over all but the last one,
      unless m occurs only in the last. */
  lemma FindPrefix(entries: seq<Entry>, m: Member)
    requires entries != []
    ensures var init := entries[..|entries| - 1];
      Find(entries, m) == if Find(init, m) < |init| then Find(init, m)
                          else if entries[|entries| - 1].member == m then |init| else |entries|
  {
    var init := entries[..|entries| - 1];
    var k := Find(entries, m);
    var k' := Find(init, m);
    if k' < |init| {
      assert entries[k'].member == m;
    }
  }

  /** Entries with distinct members: the entry for a member is found by
      Lookup. */
  lemma LookupDistinct(entries: seq<Entry>, k: nat)
    requires Distinct(Members(entries)) && k < |entries|
    ensures Lookup(entries, entries[k].member) == entries[k].amount
  {
    var f := Find(entries, entries[k].member);
    assert f < |entries| ==> f == k;
  }
}
