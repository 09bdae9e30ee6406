/**
 * frontend/src/lib/debtSimplification.ts: `calculateBalances` and
 * `simplifyDebts` as the imperative code they are, each proved against the
 * functions of modules Balances and Settlement.
 */
module DebtSimplificationTs {
  import opened Balances
  import opened Settlement
  import Host

  /**
   * `calculateBalances`: every member starts at 0; then, expense by expense,
   * the payer is credited the amount and each listed participant is debited
   * one share. The result is the closed form `Balance` for every member.
   */
  method CalculateBalances(expenses: seq<Expense>, members: seq<Member>) returns (balances: map<MemberId, real>)
    requires WellReferenced(expenses, members)
    ensures balances.Keys == MemberIds(members)
    ensures forall m | m in balances :: balances[m] == Balance(expenses, m)
  {
    balances := map[];
    for k := 0 to |members|
      invariant balances.Keys == MemberIds(members[..k])
      invariant forall m | m in balances :: balances[m] == 0.0
    {
      assert members[..k + 1] == members[..k] + [members[k]];
      balances := balances[members[k].id := 0.0];
    }
    assert members[..|members|] == members;

    for n := 0 to |expenses|
      invariant balances.Keys == MemberIds(members)
      invariant Holds(balances, expenses[..n])
    {
      var paidBy, amount, participants := expenses[n].paidBy, expenses[n].amount, expenses[n].participants;
      // With no participants the source's share is not finite, but it is never used.
      var splitAmount := if |participants| == 0 then 0.0 else amount / (|participants| as real);
      assert splitAmount == Share(expenses[n]);
      assert expenses[n] in expenses;

      ghost var before := balances;
      balances := balances[paidBy := balances[paidBy] + amount];
      CreditPayer(before, expenses[..n], expenses[n], splitAmount, balances);

      for p := 0 to |participants|
        invariant balances.Keys == MemberIds(members)
        invariant HoldsPartway(balances, expenses[..n], expenses[n], p, splitAmount)
      {
        var participantId := participants[p];
        assert participantId in participants;
        before := balances;
        balances := balances[participantId := balances[participantId] - splitAmount];
        DebitParticipant(before, expenses[..n], expenses[n], p, participantId, splitAmount, balances);
      }
      FinishExpense(balances, expenses, n, splitAmount);
    }
    assert expenses[..|expenses|] == expenses;
  }

  /**
   * The `Object.entries(...).forEach` walk of `simplifyDebts`: pushes a
   * creditor for each balance above the tolerance and a debtor, owing the
   * absolute value, for each balance below its negation.
   */
  method Partition(entries: seq<BalanceEntry>) returns (creditors: seq<Creditor>, debtors: seq<Debtor>)
    ensures creditors == CreditorsOf(entries) && debtors == DebtorsOf(entries)
  {
    creditors, debtors := [], [];
    for k := 0 to |entries|
      invariant creditors == CreditorsOf(entries[..k]) && debtors == DebtorsOf(entries[..k])
    {
      var memberId, balance := entries[k].memberId, entries[k].balance;
      assert entries[..k + 1][..k] == entries[..k];
      if balance > Tolerance {
        creditors := creditors + [Party(memberId, balance)];
      } else if balance < -Tolerance {
        debtors := debtors + [Party(memberId, Abs(balance))];
      }
    }
    assert entries[..|entries|] == entries;
  }

  /**
   * The cursor loop of `simplifyDebts`, run on the sorted lists, whose
   * entries it reduces in place; the lists and the cursors `i`, `j` as the
   * loop leaves them are returned beside the transactions. It emits what
   * `Greedy` emits. When it stops, one cursor has run off its list; on both
   * sides every entry before the cursor has less than the tolerance left,
   * the entry at the cursor has at least the tolerance, the entries after it
   * are untouched, and every entry keeps its id and an amount between 0 and
   * the one it started with.
   */
  method SettleGreedily(creditors: seq<Creditor>, debtors: seq<Debtor>)
    returns (transactions: seq<Transaction>, creditorsLeft: seq<Creditor>, debtorsLeft: seq<Debtor>, i: nat, j: nat)
    requires AboveTolerance(creditors) && AboveTolerance(debtors)
    ensures transactions == Greedy(creditors, debtors)
    ensures i == |creditorsLeft| || j == |debtorsLeft|
    ensures Passed(creditorsLeft, |creditorsLeft|) || Passed(debtorsLeft, |debtorsLeft|)
    ensures Cursor(creditors, creditorsLeft, i) && Cursor(debtors, debtorsLeft, j)
  {
    transactions := [];
    creditorsLeft, debtorsLeft := creditors, debtors;
    i, j := 0, 0;
    while i < |creditorsLeft| && j < |debtorsLeft|
      invariant Cursor(creditors, creditorsLeft, i) && Cursor(debtors, debtorsLeft, j)
      invariant transactions + Greedy(creditorsLeft[i..], debtorsLeft[j..]) == Greedy(creditors, debtors)
      decreases |creditorsLeft| - i + |debtorsLeft| - j
    {
      var creditor, debtor := creditorsLeft[i], debtorsLeft[j];
      ghost var cs, ds, i0, j0, done := creditorsLeft, debtorsLeft, i, j, transactions;

      var settleAmount := Min(creditor.amount, debtor.amount);
      if settleAmount > Tolerance {
        transactions := transactions + [Transaction(debtor.memberId, creditor.memberId, settleAmount)];
      }

      creditor, debtor := creditor.(amount := creditor.amount - settleAmount), debtor.(amount := debtor.amount - settleAmount);
      creditorsLeft, debtorsLeft := creditorsLeft[i := creditor], debtorsLeft[j := debtor];

      if creditor.amount < Tolerance {
        i := i + 1;
      }
      if debtor.amount < Tolerance {
        j := j + 1;
      }

      LoopStep(creditors, debtors, cs, ds, i0, j0, done, creditorsLeft, debtorsLeft, i, j, transactions);
    }
  }

  /**
   * `simplifyDebts`: the greedy matching of the sorted creditor and debtor
   * lists. Every transaction has a debtor pay a creditor more than the
   * tolerance; no creditor receives more than its balance and no debtor pays
   * more than it owes; there is none unless both lists are non-empty, and
   * then fewer than creditors plus debtors.
   */
  method SimplifyDebts(balances: map<MemberId, real>) returns (transactions: seq<Transaction>)
    ensures exists cs, ds :: SortedLists(cs, ds, balances) && transactions == Greedy(cs, ds)
    ensures forall t | t in transactions ::
      && t.from in balances && balances[t.from] < -Tolerance
      && t.to in balances && balances[t.to] > Tolerance
      && t.from != t.to && t.amount > Tolerance
    ensures forall x | x in balances && balances[x] > Tolerance :: Received(transactions, x) <= balances[x]
    ensures forall x | x in balances && balances[x] < -Tolerance :: Paid(transactions, x) <= -balances[x]
    ensures CreditorIds(balances) == {} || DebtorIds(balances) == {} ==> transactions == []
    ensures CreditorIds(balances) != {} && DebtorIds(balances) != {} ==>
      |transactions| < |CreditorIds(balances)| + |DebtorIds(balances)|
  {
    var entries := Host.Entries(balances);
    var creditorList, debtorList := Partition(entries);
    PartitionByThreshold(entries, balances);

    var creditors := Host.SortList(creditorList);
    var debtors := Host.SortList(debtorList);
    SortedPermutations(creditorList, debtorList, creditors, debtors, balances);

    var creditorsLeft, debtorsLeft, i, j;
    transactions, creditorsLeft, debtorsLeft, i, j := SettleGreedily(creditors, debtors);
    GreedyRespectsBalances(balances, creditors, debtors);
  }
}
