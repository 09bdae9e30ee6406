/**
 * What `calculateBalances` computes, stated as a closed form over the
 * expense list, and the conservation law that the closed form obeys.
 * Amounts are exact reals: floating-point rounding is not modelled.
 */
module Balances {

  /** Member ids are the strings the application uses as object keys. */
  type MemberId = string

  /** A group member: only the id takes part in the computation. */
  datatype Member = Member(id: MemberId)

  /** The three fields of an expense record that the balance computation reads. */
  datatype Expense = Expense(paidBy: MemberId, amount: real, participants: seq<MemberId>)

  function MemberIds(members: seq<Member>): set<MemberId>
  {
    set m | m in members :: m.id
  }

  /**
   * Every id an expense names is the id of a group member. Without this the
   * source reads an absent key and produces NaN, which is not modelled.
   */
  predicate WellReferenced(expenses: seq<Expense>, members: seq<Member>)
  {
    forall e | e in expenses ::
      e.paidBy in MemberIds(members) && forall p | p in e.participants :: p in MemberIds(members)
  }

  /** The number of times `x` occurs in `s`. */
  function Count(x: MemberId, s: seq<MemberId>): (n: nat)
    ensures n <= |s|
    ensures n == 0 <==> x !in s
  {
    if s == [] then 0
    else Count(x, s[..|s| - 1]) + (if s[|s| - 1] == x then 1 else 0)
  }

  lemma CountAppend(x: MemberId, s: seq<MemberId>, y: MemberId)
    ensures Count(x, s + [y]) == Count(x, s) + (if y == x then 1 else 0)
  {
  }

  /**
   * The share each participant is debited: `amount / participants.length`.
   * When there are no participants the source computes a non-finite share
   * that it never uses; 0 stands for it here.
   */
  function Share(e: Expense): real
  {
    if |e.participants| == 0 then 0.0 else e.amount / (|e.participants| as real)
  }

  /**
   * The change one expense makes to member `m`'s balance: the payer is
   * credited the whole amount, and `m` is debited one share per occurrence in
   * the participant list (a payer who participates nets amount - share, a
   * participant listed twice is debited twice).
   */
  function Net(e: Expense, m: MemberId): real
  {
    (if e.paidBy == m then e.amount else 0.0) - Times(Count(m, e.participants), Share(e))
  }

  /** `x` added up `n` times, the way the source subtracts one share per occurrence. */
  function Times(n: nat, x: real): real
  {
    if n == 0 then 0.0 else Times(n - 1, x) + x
  }

  lemma {:induction false} TimesAdd(n: nat, k: nat, x: real)
    ensures Times(n + k, x) == Times(n, x) + Times(k, x)
  {
    if k > 0 {
      TimesAdd(n, k - 1, x);
    }
  }

  lemma {:induction false} TimesIsProduct(n: nat, x: real)
    ensures Times(n, x) == (n as real) * x
  {
    if n > 0 {
      TimesIsProduct(n - 1, x);
    }
  }

  /**
   * One expense's effect on `m` in closed form: the amount if `m` paid, less
   * one share for each time `m` is listed as a participant.
   */
  lemma NetClosedForm(e: Expense, m: MemberId)
    ensures Net(e, m) == (if e.paidBy == m then e.amount else 0.0) - (Count(m, e.participants) as real) * Share(e)
  {
    TimesIsProduct(Count(m, e.participants), Share(e));
  }

  /** The closed-form balance of `m` after the expenses `es`, in order. */
  function Balance(es: seq<Expense>, m: MemberId): real
  {
    if es == [] then 0.0 else Balance(es[..|es| - 1], m) + Net(es[|es| - 1], m)
  }

  /**
   * The change `e` makes to `m`'s balance once its payer has been credited
   * and only its first `k` participants have been debited `share` each.
   */
  function PartialNet(e: Expense, m: MemberId, k: nat, share: real): real
    requires k <= |e.participants|
  {
    (if e.paidBy == m then e.amount else 0.0) - Times(Count(m, e.participants[..k]), share)
  }

  /** Every entry of `balances` is the closed-form balance after `es`. */
  predicate Holds(balances: map<MemberId, real>, es: seq<Expense>)
  {
    forall m | m in balances :: balances[m] == Balance(es, m)
  }

  /**
   * Every entry of `balances` is the closed-form balance after `es`, then
   * `e`'s payer credited and its first `k` participants debited `share` each.
   */
  predicate HoldsPartway(balances: map<MemberId, real>, es: seq<Expense>, e: Expense, k: nat, share: real)
    requires k <= |e.participants|
  {
    forall m | m in balances :: balances[m] == Balance(es, m) + PartialNet(e, m, k, share)
  }

  /** Crediting the payer of `e` starts applying it. */
  lemma CreditPayer(balances: map<MemberId, real>, es: seq<Expense>, e: Expense, share: real,
                    credited: map<MemberId, real>)
    requires Holds(balances, es) && e.paidBy in balances
    requires credited == balances[e.paidBy := balances[e.paidBy] + e.amount]
    ensures credited.Keys == balances.Keys
    ensures HoldsPartway(credited, es, e, 0, share)
  {
  }

  /** Debiting the next participant one share applies one more debit of `e`. */
  lemma DebitParticipant(balances: map<MemberId, real>, es: seq<Expense>, e: Expense, k: nat,
                         x: MemberId, share: real, debited: map<MemberId, real>)
    requires k < |e.participants| && x == e.participants[k] && x in balances
    requires HoldsPartway(balances, es, e, k, share)
    requires debited == balances[x := balances[x] - share]
    ensures debited.Keys == balances.Keys
    ensures HoldsPartway(debited, es, e, k + 1, share)
  {
    forall m | m in debited ensures debited[m] == Balance(es, m) + PartialNet(e, m, k + 1, share) {
      PartialNetStep(e, m, k, share);
    }
  }

  /** Debiting the `k`th participant takes one more `share` from that participant only. */
  lemma PartialNetStep(e: Expense, m: MemberId, k: nat, share: real)
    requires k < |e.participants|
    ensures PartialNet(e, m, k + 1, share) == PartialNet(e, m, k, share) - (if e.participants[k] == m then share else 0.0)
  {
    var done := e.participants[..k];
    assert e.participants[..k + 1] == done + [e.participants[k]];
    CountAppend(m, done, e.participants[k]);
  }

  /** Once every participant of the `n`th expense has been debited, the first `n + 1` expenses have been applied. */
  lemma FinishExpense(balances: map<MemberId, real>, es: seq<Expense>, n: nat, share: real)
    requires n < |es| && share == Share(es[n])
    requires HoldsPartway(balances, es[..n], es[n], |es[n].participants|, share)
    ensures Holds(balances, es[..n + 1])
  {
    assert es[n].participants[..|es[n].participants|] == es[n].participants;
    assert es[..n + 1][..n] == es[..n];
  }

  /** A member named by no expense keeps the initial balance of exactly 0. */
  lemma {:induction false} UninvolvedMemberIsZero(es: seq<Expense>, m: MemberId)
    requires forall e | e in es :: e.paidBy != m && m !in e.participants
    ensures Balance(es, m) == 0.0
  {
    if es != [] {
      var init := es[..|es| - 1];
      assert forall e | e in init :: e in es;
      UninvolvedMemberIsZero(init, m);
      assert Count(m, es[|es| - 1].participants) == 0;
    }
  }

  predicate Distinct(ids: seq<MemberId>)
  {
    forall a, b | 0 <= a < b < |ids| :: ids[a] != ids[b]
  }

  /** The sum of the balances of the members listed in `ids`. */
  function TotalBalance(ids: seq<MemberId>, es: seq<Expense>): real
  {
    if ids == [] then 0.0 else TotalBalance(ids[..|ids| - 1], es) + Balance(es, ids[|ids| - 1])
  }

  /** The sum over `ids` of the change one expense makes. */
  function TotalNet(ids: seq<MemberId>, e: Expense): real
  {
    if ids == [] then 0.0 else TotalNet(ids[..|ids| - 1], e) + Net(e, ids[|ids| - 1])
  }

  /** The number of entries of `parts` that are listed in `ids`, counted with multiplicity. */
  function TotalCount(ids: seq<MemberId>, parts: seq<MemberId>): nat
  {
    if ids == [] then 0 else TotalCount(ids[..|ids| - 1], parts) + Count(ids[|ids| - 1], parts)
  }

  lemma {:induction false} CountInDistinct(ids: seq<MemberId>, x: MemberId)
    requires Distinct(ids) && x in ids
    ensures Count(x, ids) == 1
  {
    var init := ids[..|ids| - 1];
    if ids[|ids| - 1] == x {
      assert x !in init;
    } else {
      assert x in init;
      CountInDistinct(init, x);
    }
  }

  lemma {:induction false} TotalCountAppend(ids: seq<MemberId>, parts: seq<MemberId>, p: MemberId)
    ensures TotalCount(ids, parts + [p]) == TotalCount(ids, parts) + Count(p, ids)
  {
    if ids != [] {
      TotalCountAppend(ids[..|ids| - 1], parts, p);
      assert (parts + [p])[..|parts|] == parts;
    }
  }

  /** Every participant is counted exactly once when `ids` lists each member once. */
  lemma {:induction false} TotalCountOfMembers(ids: seq<MemberId>, parts: seq<MemberId>)
    requires Distinct(ids)
    requires forall p | p in parts :: p in ids
    ensures TotalCount(ids, parts) == |parts|
  {
    if parts == [] {
      TotalCountZero(ids);
    } else {
      var init := parts[..|parts| - 1];
      assert parts == init + [parts[|parts| - 1]];
      TotalCountOfMembers(ids, init);
      TotalCountAppend(ids, init, parts[|parts| - 1]);
      CountInDistinct(ids, parts[|parts| - 1]);
    }
  }

  lemma {:induction false} TotalCountZero(ids: seq<MemberId>)
    ensures TotalCount(ids, []) == 0
  {
    if ids != [] {
      TotalCountZero(ids[..|ids| - 1]);
    }
  }

  /** Summing one expense's effect over `ids` splits into the credit and the debits. */
  lemma {:induction false} TotalNetSplit(ids: seq<MemberId>, e: Expense)
    ensures TotalNet(ids, e) == Times(Count(e.paidBy, ids), e.amount) - Times(TotalCount(ids, e.participants), Share(e))
  {
    if ids != [] {
      var init, last := ids[..|ids| - 1], ids[|ids| - 1];
      TotalNetSplit(init, e);
      TimesAdd(Count(e.paidBy, init), if last == e.paidBy then 1 else 0, e.amount);
      TimesAdd(TotalCount(init, e.participants), Count(last, e.participants), Share(e));
    }
  }

  lemma {:induction false} TotalBalanceAppend(ids: seq<MemberId>, es: seq<Expense>, e: Expense)
    ensures TotalBalance(ids, es + [e]) == TotalBalance(ids, es) + TotalNet(ids, e)
  {
    assert (es + [e])[..|es|] == es;
    if ids != [] {
      TotalBalanceAppend(ids[..|ids| - 1], es, e);
    }
  }

  /**
   * Conservation: when `ids` lists every member once and every expense has
   * participants and names only listed members, the balances sum to 0.
   */
  lemma {:induction false} Conservation(ids: seq<MemberId>, es: seq<Expense>)
    requires Distinct(ids)
    requires forall e | e in es ::
      |e.participants| > 0 && e.paidBy in ids && forall p | p in e.participants :: p in ids
    ensures TotalBalance(ids, es) == 0.0
  {
    if es == [] {
      TotalBalanceEmpty(ids);
    } else {
      var init, e := es[..|es| - 1], es[|es| - 1];
      assert es == init + [e];
      assert forall x | x in init :: x in es;
      Conservation(ids, init);
      TotalBalanceAppend(ids, init, e);
      TotalNetSplit(ids, e);
      CountInDistinct(ids, e.paidBy);
      TotalCountOfMembers(ids, e.participants);
      SharesAddUp(e);
      assert Times(1, e.amount) == e.amount;
    }
  }

  /** The sum of the entries of `balances` for the ids listed in `ids`. */
  function SumOf(balances: map<MemberId, real>, ids: seq<MemberId>): real
    requires forall x | x in ids :: x in balances
  {
    if ids == [] then 0.0 else SumOf(balances, ids[..|ids| - 1]) + balances[ids[|ids| - 1]]
  }

  /** Summing a map that holds the closed form gives the closed-form total. */
  lemma {:induction false} SumOfHolds(balances: map<MemberId, real>, es: seq<Expense>, ids: seq<MemberId>)
    requires Holds(balances, es) && forall x | x in ids :: x in balances
    ensures SumOf(balances, ids) == TotalBalance(ids, es)
  {
    if ids != [] {
      var init := ids[..|ids| - 1];
      assert forall x | x in init :: x in ids;
      SumOfHolds(balances, es, init);
    }
  }

  /**
   * Conservation for the map that `calculateBalances` returns: when every
   * expense has participants and names only keys of the map, its values,
   * summed over any listing of its keys without repeats, come to 0.
   */
  lemma MapConservation(balances: map<MemberId, real>, es: seq<Expense>, ids: seq<MemberId>)
    requires Holds(balances, es)
    requires forall e | e in es ::
      |e.participants| > 0 && e.paidBy in balances && forall p | p in e.participants :: p in balances
    requires Distinct(ids) && forall x :: x in ids <==> x in balances
    ensures SumOf(balances, ids) == 0.0
  {
    SumOfHolds(balances, es, ids);
    Conservation(ids, es);
  }

  /** The shares of a non-empty participant list add back up to the amount. */
  lemma SharesAddUp(e: Expense)
    requires |e.participants| > 0
    ensures Times(|e.participants|, Share(e)) == e.amount
  {
    TimesIsProduct(|e.participants|, Share(e));
    var n := |e.participants| as real;
    assert n * (e.amount / n) == e.amount;
  }

  lemma {:induction false} TotalBalanceEmpty(ids: seq<MemberId>)
    ensures TotalBalance(ids, []) == 0.0
  {
    if ids != [] {
      TotalBalanceEmpty(ids[..|ids| - 1]);
    }
  }

  /**
   * An expense with no participants credits its payer and debits nobody, so
   * the balances of the group no longer sum to 0: the amount is created.
   */
  lemma {:induction false} EmptyParticipantsUnbalance(ids: seq<MemberId>, e: Expense)
    requires Distinct(ids) && e.paidBy in ids && e.participants == []
    ensures TotalNet(ids, e) == e.amount
  {
    TotalNetSplit(ids, e);
    CountInDistinct(ids, e.paidBy);
    TotalCountZero(ids);
    assert Times(1, e.amount) == e.amount;
  }
}
