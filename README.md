# SplitPay expense balances and debt simplification

This project models the engine of SplitPay, a group expense-splitting
application. The engine has two functions, found in both
`frontend/src/lib/debtSimplification.ts` and its untyped copy
`frontend/src/lib/debtSimplification.js`:

- `calculateBalances(expenses, members)` starts every member at 0. For each
  expense, it credits the payer the whole amount and debits each listed
  participant one share, `amount / participants.length`.
- `simplifyDebts(balances)` does three things:
  - It splits the balance map into creditors (balance above 0.01) and debtors
    (balance below -0.01, stored as the absolute value).
  - It sorts both lists by amount, largest first.
  - It walks the two lists with a cursor each. At every step it settles the
    smaller of the two current amounts, records a transaction from the debtor
    to the creditor when that amount exceeds 0.01, reduces both amounts, and
    moves past whichever side has less than 0.01 left.

Modules:

- `Balances` holds the closed-form balance of a member:
  - `Net` is one expense's effect on a member, and `Balance` sums it over the
    expense list.
  - Conservation: the balances add up to 0 when every expense has
    participants and names only members.
  - The predicates the imperative loop keeps (`Holds`, `HoldsPartway`) and one
    lemma per loop step.
- `Settlement` holds the specification functions of `simplifyDebts`:
  - `CreditorsOf` and `DebtorsOf` are the partition.
  - `SortedLists` says what the sorted lists are.
  - `Greedy` is the cursor walk written as a recursive function.
  - Lemmas cover the partition, the permutation done by the sort, the
    transactions `Greedy` emits, the totals each party pays or receives, and
    the number of transactions.
  - A loop-step lemma (`LoopStep`) ties the imperative cursor loop to `Greedy`.
- `Host` models the two runtime facilities the code uses:
  - `Object.entries` lists every pair once, in an order the model leaves open.
  - `Array.prototype.sort` with `(a, b) => b.amount - a.amount` is modelled by
    a selection sort proved sorted and a permutation.
- `DebtSimplificationTs` and `DebtSimplificationJs` model the two files as the
  imperative code they are:
  - the member loop and the nested expense and participant loops over a
    mutable map;
  - the pushes of the partition walk;
  - the in-place sorts;
  - the `while` cursor loop that reduces list entries in place.

  Each method is proved against the functions above. Because both copies meet
  the same specification functions, they compute the same results. The
  `...MatchesTs` methods state this for each deterministic stage.

Amounts are modelled as exact reals, not IEEE doubles.

An expense with no participants is not rejected by `calculateBalances`. It
computes a share that it never uses, credits the payer and debits nobody. The
model follows that code. `Balances.EmptyParticipantsUnbalance` shows that such
an expense breaks conservation by its whole amount.

Some callers guard against this case, but not all of them:
- The Go route rejects an empty `participants` list
  (`backend/routes/groups.go:342`).
- The expense form rejects one too (`frontend/src/pages/GroupDetail.jsx:72`).
- The Express route does not (`backend/src/routes/groups.js:175`):
  `!participants` is false for `[]`. Through that route such an expense can
  reach `calculateBalances`.

## Model

| member | source | states |
|---|---|---|
| `Balances.Share` | frontend/src/lib/debtSimplification.ts:94 | defines the share each participant is debited: amount / number of participants, with 0 standing for the never-used non-finite share of an empty list |
| `Balances.Net` | frontend/src/lib/debtSimplification.ts:92-103 | defines one expense's effect on a member: the amount if the member paid, less the share once per listing |
| `Balances.Balance` | frontend/src/lib/debtSimplification.ts:84-106 | defines a member's balance after the expenses in order: 0 to start, then each expense's `Net` added |
| `Balances.NetClosedForm` | frontend/src/lib/debtSimplification.ts:92-103 | one expense changes a member's balance by the amount if that member paid, minus the share times the number of times the member is listed (so a paying participant nets amount - share, and a duplicated participant is debited twice) |
| `Balances.TimesIsProduct` | frontend/src/lib/debtSimplification.ts:100-102 | subtracting the share once per occurrence equals subtracting occurrences × share |
| `Balances.SharesAddUp` | frontend/src/lib/debtSimplification.ts:94-102 | for a non-empty participant list, the shares debited add back up to the amount |
| `Balances.Count` | frontend/src/lib/debtSimplification.ts:100-102 | how often a member is debited for one expense is at most the number of participants, and zero exactly when the member is not listed |
| `Balances.UninvolvedMemberIsZero` | frontend/src/lib/debtSimplification.ts:87-103 | a member who never pays and is never a participant keeps the initial balance 0 |
| `Balances.TotalBalanceEmpty` | frontend/src/lib/debtSimplification.ts:86-89 | with no expenses, the balances of all members sum to 0 |
| `Balances.Conservation` | frontend/src/lib/debtSimplification.ts:92-103 | when every expense has participants and names only members, the balances of the distinct members sum to 0 |
| `Balances.MapConservation` | frontend/src/lib/debtSimplification.ts:84-106 | for a map holding the closed form (as `CalculateBalances` returns it), when every expense has participants and names only keys, the values summed over any repeat-free listing of the keys come to 0 |
| `Balances.EmptyParticipantsUnbalance` | frontend/src/lib/debtSimplification.ts:94-102 | an expense with no participants adds its whole amount to the sum of balances: the payer is credited and nobody is debited |
| `Balances.CreditPayer` | frontend/src/lib/debtSimplification.ts:97 | crediting the payer the amount moves the map from "first n expenses applied" to "expense n started, no participant debited yet", keeping the keys |
| `Balances.PartialNetStep` | frontend/src/lib/debtSimplification.ts:100-102 | debiting the k-th participant takes one more share from exactly that member and leaves every other member's partial effect unchanged |
| `Balances.DebitParticipant` | frontend/src/lib/debtSimplification.ts:101 | `balances[participantId] -= splitAmount` advances the loop predicate from k participants debited to k + 1, keeping the keys |
| `Balances.FinishExpense` | frontend/src/lib/debtSimplification.ts:92-103 | once all participants of expense n are debited with its share, the map holds the closed form for the first n + 1 expenses |
| `Settlement.Abs` | frontend/src/lib/debtSimplification.ts:37 | `Math.abs` is non-negative and equals the value or its negation |
| `Settlement.Min` | frontend/src/lib/debtSimplification.ts:53 | `Math.min` is one of its arguments and no greater than either |
| `Settlement.CreditorsOf` | frontend/src/lib/debtSimplification.ts:33-39 | defines the creditor list pushed by the walk, in walk order; its contract: at most one creditor per entry, each owed more than 0.01 |
| `Settlement.DebtorsOf` | frontend/src/lib/debtSimplification.ts:33-39 | defines the debtor list pushed by the walk, each owing `Math.abs` of its balance; its contract: at most one debtor per entry, each owing more than 0.01 |
| `Settlement.CreditorsOfIds` | frontend/src/lib/debtSimplification.ts:33-35 | the creditor list names each walked member with balance above 0.01 exactly once, and no one else |
| `Settlement.CreditorsOfAmounts` | frontend/src/lib/debtSimplification.ts:34-35 | each creditor carries the absolute value of its member's balance (the balance itself, since a creditor's balance is above 0.01) |
| `Settlement.DebtorsOfIds` | frontend/src/lib/debtSimplification.ts:36-37 | the debtor list names each walked member with balance below -0.01 exactly once, and no one else |
| `Settlement.DebtorsOfAmounts` | frontend/src/lib/debtSimplification.ts:36-37 | each debtor carries the absolute value of its member's balance |
| `Settlement.PartitionByThreshold` | frontend/src/lib/debtSimplification.ts:33-39 | over a full enumeration of the map, the creditors are exactly the members above 0.01 and the debtors exactly those below -0.01, the two id sets are disjoint, and no member within [-0.01, 0.01] is in either |
| `Settlement.SortedPermutations` | frontend/src/lib/debtSimplification.ts:44-45 | any non-increasing permutation of the pushed lists is still an exact creditor and debtor list of the map, with every amount at least 0.01 |
| `Settlement.Advance` | frontend/src/lib/debtSimplification.ts:66-67 | defines the list after one step: the reduced current entry is passed if it holds less than 0.01, and stays current otherwise |
| `Settlement.SettleAmount` | frontend/src/lib/debtSimplification.ts:53 | defines one step's settled amount as `Math.min` of the current creditor's and debtor's amounts |
| `Settlement.Emitted` | frontend/src/lib/debtSimplification.ts:55-61 | defines one step's output: a transaction from the current debtor to the current creditor for the settled amount, only when it exceeds 0.01 |
| `Settlement.NextCreditors` | frontend/src/lib/debtSimplification.ts:63-66 | defines the creditor list after one step: the current creditor reduced by the settled amount, then advanced |
| `Settlement.NextDebtors` | frontend/src/lib/debtSimplification.ts:64-67 | defines the debtor list after one step: the current debtor reduced by the settled amount, then advanced |
| `Settlement.Greedy` | frontend/src/lib/debtSimplification.ts:49-68 | defines the transactions of the cursor loop as a recursion: nothing once either list is empty, otherwise one step's output followed by the rest on the lists after the step |
| `Settlement.CursorAdvance` | frontend/src/lib/debtSimplification.ts:63-67 | subtracting the settled amount and advancing past an entry below 0.01 keeps each entry's id, keeps its amount between 0 and the start value, leaves every entry past the cursor untouched, and makes every passed entry hold less than 0.01 |
| `Settlement.CursorStep` | frontend/src/lib/debtSimplification.ts:53-67 | one iteration emits exactly the first transaction `Greedy` would emit on the lists from the cursors on, and leaves the rest of `Greedy`'s output still to come |
| `Settlement.LoopStep` | frontend/src/lib/debtSimplification.ts:49-68 | one iteration preserves both cursor invariants and the invariant "emitted so far + `Greedy` of the rest = `Greedy` of the sorted lists" |
| `Settlement.GreedyEndpoints` | frontend/src/lib/debtSimplification.ts:55-61 | every transaction goes from a debtor in the list to a creditor in the list, with amount above 0.01 |
| `Settlement.NoSelfPayment` | frontend/src/lib/debtSimplification.ts:55-61 | when no id is both a creditor and a debtor, no transaction has from equal to to |
| `Settlement.GreedyLength` | frontend/src/lib/debtSimplification.ts:49-68 | no transaction if either list is empty, otherwise fewer transactions than creditors plus debtors |
| `Settlement.GreedyReceivedBounded` | frontend/src/lib/debtSimplification.ts:53-64 | with non-negative amounts, no member receives in total more than its amounts in the creditor list |
| `Settlement.GreedyPaidBounded` | frontend/src/lib/debtSimplification.ts:53-64 | with non-negative amounts, no member pays in total more than its amounts in the debtor list |
| `Settlement.GreedyRespectsBalances` | frontend/src/lib/debtSimplification.ts:24-71 | for exact creditor and debtor lists of a map: each transaction goes from a member below -0.01 to a different member above 0.01 for more than 0.01; no creditor receives more than its balance; no debtor pays more than it owes; there are no transactions when either side is empty, and otherwise fewer than creditors plus debtors |
| `Host.Entries` | frontend/src/lib/debtSimplification.ts:33 | `Object.entries` yields each key of the map once, paired with its value |
| `Host.SortByAmountDescending` | frontend/src/lib/debtSimplification.ts:44 | the array after the sort is non-increasing by amount and a permutation of the array before it |
| `Host.SortList` | frontend/src/lib/debtSimplification.ts:44-45 | sorting a pushed list yields a non-increasing permutation of it |
| `DebtSimplificationTs.CalculateBalances` | frontend/src/lib/debtSimplification.ts:84-106 | the map built by the nested loops has exactly the member ids as keys, and each entry equals the closed-form `Balance` |
| `DebtSimplificationTs.Partition` | frontend/src/lib/debtSimplification.ts:33-39 | the pushes of the `forEach` build exactly `CreditorsOf` and `DebtorsOf` of the entries |
| `DebtSimplificationTs.SettleGreedily` | frontend/src/lib/debtSimplification.ts:47-68 | the cursor loop emits exactly `Greedy` of the sorted lists; the cursors are returned, and when the loop stops one of them has run off its list; on both sides every entry before the cursor has less than 0.01 left, the entry at the cursor at least 0.01, the entries after it are untouched, and every entry keeps its id and ends between 0 and its start amount |
| `DebtSimplificationTs.SimplifyDebts` | frontend/src/lib/debtSimplification.ts:24-71 | the result is `Greedy` of some sorted exact creditor and debtor lists of the map, and carries every guarantee of `Settlement.GreedyRespectsBalances` |
| `DebtSimplificationJs.CalculateBalances` | frontend/src/lib/debtSimplification.js:53-75 | as in the TypeScript copy: the keys are the member ids and each entry is the closed-form `Balance` |
| `DebtSimplificationJs.Partition` | frontend/src/lib/debtSimplification.js:13-19 | the pushes build exactly `CreditorsOf` and `DebtorsOf` of the entries |
| `DebtSimplificationJs.SettleGreedily` | frontend/src/lib/debtSimplification.js:27-48 | as in the TypeScript copy: the loop emits exactly `Greedy`; at exit one cursor has run off its list; on both sides the entries before the cursor hold less than 0.01, the one at it at least 0.01, the ones after it are untouched; every entry keeps its id and stays between 0 and its start amount |
| `DebtSimplificationJs.SimplifyDebts` | frontend/src/lib/debtSimplification.js:4-51 | the same guarantees as the TypeScript `simplifyDebts` |
| `DebtSimplificationJs.CalculateBalancesMatchesTs` | frontend/src/lib/debtSimplification.js:53-75 | on the same input, the JavaScript and TypeScript `calculateBalances` return equal maps |
| `DebtSimplificationJs.PartitionMatchesTs` | frontend/src/lib/debtSimplification.js:13-19 | on the same entries, the two partition walks build equal creditor and debtor lists |
| `DebtSimplificationJs.SettleGreedilyMatchesTs` | frontend/src/lib/debtSimplification.js:29-48 | on the same sorted lists, the two cursor loops emit equal transaction lists |

## Left out

- Floating point: amounts, shares and comparisons are exact reals. IEEE rounding is not modelled, including the residues that repeated subtraction leaves in the cursor loop.
- Unknown member ids: the source reads `undefined` and produces NaN. `CalculateBalances` requires every payer and participant to be a member instead.
- Empty participant lists: the source's share is then not finite. It is never used, so the model stands 0 in for it (`Balances.Share`).
- The order of `Object.entries` and of equal amounts after the sort: `Host.Entries` picks the keys in an unspecified order, and the sort's ties are left open. For that reason the two `SimplifyDebts` are characterised by a property they share rather than shown to return equal lists.
- `Host.SortByAmountDescending`: a selection sort stands for the engine's `Array.prototype.sort`. Only its promised result is relied on: sorted and a permutation.
- Creditor and debtor objects updated in place (`creditor.amount -= settleAmount`): modelled as replacing the entry at the cursor in a sequence. Each object is held by exactly one list slot, so no aliasing is lost.
- Member fields other than `id`, and expense fields other than `paidBy`, `amount` and `participants`: the computation does not read them.
- DebtSimplificationTs.SimplifyDebts: does not claim that the transactions are the minimum possible, nor that they bring every balance to zero. The greedy walk guarantees neither; its result is bounded by the bounds proved instead.
- DebtSimplificationJs.SimplifyDebts: the same as for the TypeScript copy. Neither minimality nor zeroed balances is claimed.
- The call `simplifyDebts(calculateBalances(expenses, members))` in `frontend/src/pages/GroupDetail.jsx` is not part of this model: it only composes the two functions.
- Pages, components, HTTP routes, persistence, authentication and formatting helpers are not part of this model.
