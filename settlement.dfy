/**
 * What `simplifyDebts` computes: the split of a balance map into creditors
 * and debtors around the 0.01 tolerance, and the greedy matching of the two
 * sorted lists, written as functions, with the properties the algorithm
 * promises proved about them.
 */
module Settlement {
  import opened Balances

  /** A balance within this distance of zero counts as settled. */
  const Tolerance: real := 0.01

  /**
   * A creditor (who is owed `amount`) or a debtor (who owes `amount`): the
   * source's Creditor and Debtor shapes are the same record.
   */
  datatype Party = Party(memberId: MemberId, amount: real)
  type Creditor = Party
  type Debtor = Party

  /** A proposed payment of `amount` from debtor `from` to creditor `to`. */
  datatype Transaction = Transaction(from: MemberId, to: MemberId, amount: real)

  /** One `[memberId, balance]` pair, as `Object.entries` yields them. */
  datatype BalanceEntry = BalanceEntry(memberId: MemberId, balance: real)

  /** `Math.abs`. */
  function Abs(x: real): (r: real)
    ensures r >= 0.0 && (r == x || r == -x)
  {
    if x < 0.0 then -x else x
  }

  /** `Math.min`. */
  function Min(a: real, b: real): (r: real)
    ensures r <= a && r <= b && (r == a || r == b)
  {
    if a <= b then a else b
  }

  // ----- The balance map and its enumeration -----

  function EntryIds(entries: seq<BalanceEntry>): set<MemberId>
  {
    set e | e in entries :: e.memberId
  }

  predicate DistinctEntries(entries: seq<BalanceEntry>)
  {
    forall a, b | 0 <= a < b < |entries| :: entries[a].memberId != entries[b].memberId
  }

  /** Every entry carries the balance the map holds for its id, and no id repeats. */
  predicate Consistent(entries: seq<BalanceEntry>, balances: map<MemberId, real>)
  {
    && DistinctEntries(entries)
    && forall e | e in entries :: e.memberId in balances && balances[e.memberId] == e.balance
  }

  /** `entries` lists every pair of `balances` exactly once, in some order. */
  predicate Enumerates(entries: seq<BalanceEntry>, balances: map<MemberId, real>)
  {
    Consistent(entries, balances) && EntryIds(entries) == balances.Keys
  }

  /** The members who are owed more than the tolerance. */
  function CreditorIds(balances: map<MemberId, real>): set<MemberId>
  {
    set x | x in balances && balances[x] > Tolerance
  }

  /** The members who owe more than the tolerance. */
  function DebtorIds(balances: map<MemberId, real>): set<MemberId>
  {
    set x | x in balances && balances[x] < -Tolerance
  }

  // ----- Creditor and debtor lists -----

  /** The creditors pushed while walking `entries` in order: at most one per entry, each owed more than the tolerance. */
  function CreditorsOf(entries: seq<BalanceEntry>): (cs: seq<Party>)
    ensures |cs| <= |entries| && AboveTolerance(cs)
  {
    if entries == [] then []
    else
      var e := entries[|entries| - 1];
      CreditorsOf(entries[..|entries| - 1]) + (if e.balance > Tolerance then [Party(e.memberId, e.balance)] else [])
  }

  /**
   * The debtors pushed while walking `entries` in order, owing the absolute
   * balance: at most one per entry, each owing more than the tolerance.
   */
  function DebtorsOf(entries: seq<BalanceEntry>): (ds: seq<Party>)
    ensures |ds| <= |entries| && AboveTolerance(ds)
  {
    if entries == [] then []
    else
      var e := entries[|entries| - 1];
      DebtorsOf(entries[..|entries| - 1])
        + (if e.balance < -Tolerance then [Party(e.memberId, Abs(e.balance))] else [])
  }

  function IdsOf(ps: seq<Party>): set<MemberId>
  {
    set p | p in ps :: p.memberId
  }

  predicate DistinctParties(ps: seq<Party>)
  {
    forall a, b | 0 <= a < b < |ps| :: ps[a].memberId != ps[b].memberId
  }

  /**
   * `ps` holds exactly the members `ids`, once each, every one carrying the
   * absolute value of its balance.
   */
  predicate Lists(ps: seq<Party>, ids: set<MemberId>, balances: map<MemberId, real>)
  {
    && DistinctParties(ps)
    && IdsOf(ps) == ids
    && forall p | p in ps :: p.memberId in balances && p.amount == Abs(balances[p.memberId])
  }

  /** A creditor list of `balances`, in any order. */
  predicate CreditorList(cs: seq<Party>, balances: map<MemberId, real>)
  {
    Lists(cs, CreditorIds(balances), balances)
  }

  /** A debtor list of `balances`, in any order. */
  predicate DebtorList(ds: seq<Party>, balances: map<MemberId, real>)
  {
    Lists(ds, DebtorIds(balances), balances)
  }

  /** Ordered by amount, largest first: what `sort((a, b) => b.amount - a.amount)` establishes. */
  predicate SortedByAmount(ps: seq<Party>)
  {
    forall a, b | 0 <= a < b < |ps| :: ps[a].amount >= ps[b].amount
  }

  /** `cs` and `ds` are the creditor and debtor lists of `balances`, each sorted by amount, largest first. */
  predicate SortedLists(cs: seq<Party>, ds: seq<Party>, balances: map<MemberId, real>)
  {
    SortedByAmount(cs) && SortedByAmount(ds) && CreditorList(cs, balances) && DebtorList(ds, balances)
  }

  predicate NonNegative(ps: seq<Party>)
  {
    forall p | p in ps :: p.amount >= 0.0
  }

  // ----- The greedy matching -----

  /**
   * The list after one settling step: its current entry, reduced to `p`, is
   * passed once it falls below the tolerance and stays current otherwise.
   */
  function Advance(p: Party, rest: seq<Party>): seq<Party>
  {
    if p.amount < Tolerance then rest else [p] + rest
  }

  /** The amount one step settles: the smaller of what the current creditor and debtor hold. */
  function SettleAmount(cs: seq<Party>, ds: seq<Party>): real
    requires cs != [] && ds != []
  {
    Min(cs[0].amount, ds[0].amount)
  }

  /** The transaction one step emits: none unless the settled amount exceeds the tolerance. */
  function Emitted(cs: seq<Party>, ds: seq<Party>): seq<Transaction>
    requires cs != [] && ds != []
  {
    if SettleAmount(cs, ds) > Tolerance then [Transaction(ds[0].memberId, cs[0].memberId, SettleAmount(cs, ds))] else []
  }

  /** The creditor list after one step. */
  function NextCreditors(cs: seq<Party>, ds: seq<Party>): seq<Party>
    requires cs != [] && ds != []
  {
    Advance(cs[0].(amount := cs[0].amount - SettleAmount(cs, ds)), cs[1..])
  }

  /** The debtor list after one step. */
  function NextDebtors(cs: seq<Party>, ds: seq<Party>): seq<Party>
    requires cs != [] && ds != []
  {
    Advance(ds[0].(amount := ds[0].amount - SettleAmount(cs, ds)), ds[1..])
  }

  /**
   * The transactions the cursor loop emits when the current creditor is
   * `cs[0]` and the current debtor `ds[0]`: settle the smaller of the two
   * amounts, emit it when it exceeds the tolerance, subtract it from both and
   * advance past whichever falls below the tolerance; stop when either list
   * runs out.
   */
  function Greedy(cs: seq<Party>, ds: seq<Party>): seq<Transaction>
    decreases |cs| + |ds|
  {
    if cs == [] || ds == [] then []
    else Emitted(cs, ds) + Greedy(NextCreditors(cs, ds), NextDebtors(cs, ds))
  }

  /**
   * One step of the matching taken on whole lists with cursors `i` and `j`,
   * as the cursor loop takes it: the entries under the cursors are reduced
   * in place, the step's transaction (if any) is appended to what was emitted
   * before, and a cursor moves past an entry that falls below the tolerance.
   * What is emitted so far followed by what the rest of the lists emit stays
   * the same.
   */
  lemma CursorStep(cs: seq<Party>, ds: seq<Party>, i: nat, j: nat, cs': seq<Party>, ds': seq<Party>, i': nat, j': nat,
                   done: seq<Transaction>, emitted: seq<Transaction>)
    requires i < |cs| && j < |ds|
    requires cs' == cs[i := cs[i].(amount := cs[i].amount - Min(cs[i].amount, ds[j].amount))]
    requires ds' == ds[j := ds[j].(amount := ds[j].amount - Min(cs[i].amount, ds[j].amount))]
    requires i' == if cs'[i].amount < Tolerance then i + 1 else i
    requires j' == if ds'[j].amount < Tolerance then j + 1 else j
    requires emitted == if Min(cs[i].amount, ds[j].amount) > Tolerance
                        then [Transaction(ds[j].memberId, cs[i].memberId, Min(cs[i].amount, ds[j].amount))]
                        else []
    ensures (done + emitted) + Greedy(cs'[i'..], ds'[j'..]) == done + Greedy(cs[i..], ds[j..])
  {
    var c, d := cs[i..], ds[j..];
    assert c[0] == cs[i] && d[0] == ds[j];
    assert c[1..] == cs[i + 1..] && d[1..] == ds[j + 1..];
    DropAfterUpdate(cs, i, cs'[i], i');
    DropAfterUpdate(ds, j, ds'[j], j');
    assert NextCreditors(c, d) == cs'[i'..] && NextDebtors(c, d) == ds'[j'..];
    assert Emitted(c, d) == emitted;
    assert Greedy(c, d) == emitted + Greedy(cs'[i'..], ds'[j'..]);
    AppendAssociates(done, emitted, Greedy(cs'[i'..], ds'[j'..]));
  }

  /** Storing `p` under cursor `i` and moving past it when it falls below the tolerance leaves `Advance`'s list ahead. */
  lemma DropAfterUpdate(cs: seq<Party>, i: nat, p: Party, i': nat)
    requires i < |cs|
    requires i' == if p.amount < Tolerance then i + 1 else i
    ensures cs[i := p][i'..] == Advance(p, cs[i + 1..])
  {
  }

  /** Every amount in `ps` exceeds the tolerance, as every listed creditor's and debtor's does. */
  predicate AboveTolerance(ps: seq<Party>)
  {
    forall k | 0 <= k < |ps| :: ps[k].amount > Tolerance
  }

  /** The first `i` entries of `cur` have less than the tolerance left. */
  predicate Passed(cur: seq<Party>, i: nat)
  {
    i <= |cur| && forall k | 0 <= k < i :: cur[k].amount < Tolerance
  }

  /** `cur` is `orig` with every entry keeping its id and an amount between 0 and where it began. */
  predicate Reduced(orig: seq<Party>, cur: seq<Party>)
  {
    && |cur| == |orig|
    && forall k | 0 <= k < |cur| :: cur[k].memberId == orig[k].memberId && 0.0 <= cur[k].amount <= orig[k].amount
  }

  /**
   * The state of one side of the cursor loop: `cur` is what the list that
   * started as `orig` holds now and `i` is the cursor. Everything before the
   * cursor has been passed, the entry under it still holds at least the
   * tolerance, everything after it is untouched, and `cur` is a reduction
   * of `orig`.
   */
  predicate Cursor(orig: seq<Party>, cur: seq<Party>, i: nat)
  {
    && Reduced(orig, cur) && Passed(cur, i)
    && (i < |cur| ==> cur[i].amount >= Tolerance)
    && (forall k | i < k < |cur| :: cur[k] == orig[k])
  }

  /** Reducing the entry under the cursor, and moving past it when it falls below the tolerance, keeps `Cursor`. */
  lemma CursorAdvance(orig: seq<Party>, cur: seq<Party>, i: nat, settle: real, cur': seq<Party>, i': nat)
    requires Cursor(orig, cur, i) && i < |cur| && AboveTolerance(orig)
    requires 0.0 <= settle <= cur[i].amount
    requires cur' == cur[i := cur[i].(amount := cur[i].amount - settle)]
    requires i' == if cur'[i].amount < Tolerance then i + 1 else i
    ensures Cursor(orig, cur', i')
  {
  }

  /**
   * One pass of the cursor loop keeps its invariant: both sides stay
   * cursors over the original lists, and what was emitted so far followed by
   * what `Greedy` emits from the cursors on is what `Greedy` emits from the
   * start.
   */
  lemma LoopStep(creditors: seq<Party>, debtors: seq<Party>, cs: seq<Party>, ds: seq<Party>, i: nat, j: nat,
                 done: seq<Transaction>, cs': seq<Party>, ds': seq<Party>, i': nat, j': nat, done': seq<Transaction>)
    requires AboveTolerance(creditors) && AboveTolerance(debtors)
    requires Cursor(creditors, cs, i) && Cursor(debtors, ds, j) && i < |cs| && j < |ds|
    requires done + Greedy(cs[i..], ds[j..]) == Greedy(creditors, debtors)
    requires cs' == cs[i := cs[i].(amount := cs[i].amount - Min(cs[i].amount, ds[j].amount))]
    requires ds' == ds[j := ds[j].(amount := ds[j].amount - Min(cs[i].amount, ds[j].amount))]
    requires i' == if cs'[i].amount < Tolerance then i + 1 else i
    requires j' == if ds'[j].amount < Tolerance then j + 1 else j
    requires done' == done + if Min(cs[i].amount, ds[j].amount) > Tolerance
                             then [Transaction(ds[j].memberId, cs[i].memberId, Min(cs[i].amount, ds[j].amount))]
                             else []
    ensures Cursor(creditors, cs', i') && Cursor(debtors, ds', j')
    ensures done' + Greedy(cs'[i'..], ds'[j'..]) == Greedy(creditors, debtors)
  {
    var settle := Min(cs[i].amount, ds[j].amount);
    CursorAdvance(creditors, cs, i, settle, cs', i');
    CursorAdvance(debtors, ds, j, settle, ds', j');
    CursorStep(cs, ds, i, j, cs', ds', i', j', done, done'[|done|..]);
  }

  lemma AppendAssociates(a: seq<Transaction>, b: seq<Transaction>, c: seq<Transaction>)
    ensures (a + b) + c == a + (b + c)
  {
  }

  /** The total that `ts` pays to `x`. */
  function Received(ts: seq<Transaction>, x: MemberId): real
  {
    if ts == [] then 0.0 else (if ts[0].to == x then ts[0].amount else 0.0) + Received(ts[1..], x)
  }

  /** The total that `x` pays in `ts`. */
  function Paid(ts: seq<Transaction>, x: MemberId): real
  {
    if ts == [] then 0.0 else (if ts[0].from == x then ts[0].amount else 0.0) + Paid(ts[1..], x)
  }

  /** The total amount `ps` holds for `x`. */
  function AmountOf(ps: seq<Party>, x: MemberId): real
  {
    if ps == [] then 0.0 else (if ps[0].memberId == x then ps[0].amount else 0.0) + AmountOf(ps[1..], x)
  }

  // ----- Lemmas: the partition -----

  /** The creditors pushed are those of the entries walked that are creditors, once each. */
  lemma {:induction false} CreditorsOfIds(entries: seq<BalanceEntry>, balances: map<MemberId, real>)
    requires Consistent(entries, balances)
    ensures DistinctParties(CreditorsOf(entries))
    ensures IdsOf(CreditorsOf(entries)) == EntryIds(entries) * CreditorIds(balances)
  {
    if entries != [] {
      var init, e := entries[..|entries| - 1], entries[|entries| - 1];
      assert entries == init + [e];
      assert forall f | f in init :: f in entries;
      CreditorsOfIds(init, balances);
      assert EntryIds(entries) == EntryIds(init) + {e.memberId};
      assert e.memberId !in EntryIds(init);
      var cs := CreditorsOf(init);
      assert e in entries && e.memberId in balances && balances[e.memberId] == e.balance;
      if e.balance > Tolerance {
        var p := Party(e.memberId, e.balance);
        assert CreditorsOf(entries) == cs + [p];
        AppendParty(cs, p);
        assert e.memberId in CreditorIds(balances);
      } else {
        assert CreditorsOf(entries) == cs;
        assert e.memberId !in CreditorIds(balances);
      }
      AddToSelection(EntryIds(init), CreditorIds(balances), e.memberId);
    }
  }

  /** Every creditor pushed carries the absolute value of its balance. */
  lemma {:induction false} CreditorsOfAmounts(entries: seq<BalanceEntry>, balances: map<MemberId, real>)
    requires Consistent(entries, balances)
    ensures forall p | p in CreditorsOf(entries) :: p.memberId in balances && p.amount == Abs(balances[p.memberId])
  {
    if entries != [] {
      var init, e := entries[..|entries| - 1], entries[|entries| - 1];
      assert entries == init + [e];
      assert forall f | f in init :: f in entries;
      assert DistinctEntries(init);
      CreditorsOfAmounts(init, balances);
      assert e in entries;
    }
  }

  /** The debtors pushed are those of the entries walked that are debtors, once each. */
  lemma {:induction false} DebtorsOfIds(entries: seq<BalanceEntry>, balances: map<MemberId, real>)
    requires Consistent(entries, balances)
    ensures DistinctParties(DebtorsOf(entries))
    ensures IdsOf(DebtorsOf(entries)) == EntryIds(entries) * DebtorIds(balances)
  {
    if entries != [] {
      var init, e := entries[..|entries| - 1], entries[|entries| - 1];
      assert entries == init + [e];
      assert forall f | f in init :: f in entries;
      DebtorsOfIds(init, balances);
      assert EntryIds(entries) == EntryIds(init) + {e.memberId};
      assert e.memberId !in EntryIds(init);
      var ds := DebtorsOf(init);
      assert e in entries && e.memberId in balances && balances[e.memberId] == e.balance;
      if e.balance < -Tolerance {
        var p := Party(e.memberId, Abs(e.balance));
        assert DebtorsOf(entries) == ds + [p];
        AppendParty(ds, p);
        assert e.memberId in DebtorIds(balances);
      } else {
        assert DebtorsOf(entries) == ds;
        assert e.memberId !in DebtorIds(balances);
      }
      AddToSelection(EntryIds(init), DebtorIds(balances), e.memberId);
    }
  }

  /** Every debtor pushed carries the absolute value of its balance. */
  lemma {:induction false} DebtorsOfAmounts(entries: seq<BalanceEntry>, balances: map<MemberId, real>)
    requires Consistent(entries, balances)
    ensures forall p | p in DebtorsOf(entries) :: p.memberId in balances && p.amount == Abs(balances[p.memberId])
  {
    if entries != [] {
      var init, e := entries[..|entries| - 1], entries[|entries| - 1];
      assert entries == init + [e];
      assert forall f | f in init :: f in entries;
      assert DistinctEntries(init);
      DebtorsOfAmounts(init, balances);
      assert e in entries;
    }
  }

  /** Adding `x` to the ids walked adds it to those selected exactly when it belongs to the selection. */
  lemma AddToSelection(walked: set<MemberId>, selection: set<MemberId>, x: MemberId)
    ensures x in selection ==> (walked + {x}) * selection == walked * selection + {x}
    ensures x !in selection ==> (walked + {x}) * selection == walked * selection
  {
  }

  lemma AppendParty(ps: seq<Party>, p: Party)
    requires DistinctParties(ps) && p.memberId !in IdsOf(ps)
    ensures DistinctParties(ps + [p])
    ensures IdsOf(ps + [p]) == IdsOf(ps) + {p.memberId}
  {
    forall a | 0 <= a < |ps| ensures ps[a].memberId in IdsOf(ps) {
      assert ps[a] in ps;
    }
  }

  /**
   * The partition is exact: the creditors are the members whose balance
   * exceeds 0.01, carrying that balance; the debtors are those below -0.01,
   * carrying its absolute value; members inside the band are in neither list
   * and no member is in both.
   */
  lemma PartitionByThreshold(entries: seq<BalanceEntry>, balances: map<MemberId, real>)
    requires Enumerates(entries, balances)
    ensures CreditorList(CreditorsOf(entries), balances)
    ensures DebtorList(DebtorsOf(entries), balances)
    ensures forall x | x in balances && -Tolerance <= balances[x] <= Tolerance ::
      x !in IdsOf(CreditorsOf(entries)) && x !in IdsOf(DebtorsOf(entries))
    ensures IdsOf(CreditorsOf(entries)) !! IdsOf(DebtorsOf(entries))
  {
    CreditorsOfIds(entries, balances);
    CreditorsOfAmounts(entries, balances);
    DebtorsOfIds(entries, balances);
    DebtorsOfAmounts(entries, balances);
  }

  /** Every listed creditor and debtor holds more than the tolerance. */
  lemma ListsAboveTolerance(cs: seq<Party>, ds: seq<Party>, balances: map<MemberId, real>)
    requires CreditorList(cs, balances) && DebtorList(ds, balances)
    ensures AboveTolerance(cs) && AboveTolerance(ds)
  {
    forall k | 0 <= k < |cs| ensures cs[k].amount > Tolerance {
      assert cs[k] in cs && cs[k].memberId in IdsOf(cs);
    }
    forall k | 0 <= k < |ds| ensures ds[k].amount > Tolerance {
      assert ds[k] in ds && ds[k].memberId in IdsOf(ds);
    }
  }

  // ----- Lemmas: sorting permutes the lists -----

  lemma {:induction false} AtMostOnce(ps: seq<Party>, v: Party)
    requires DistinctParties(ps)
    ensures multiset(ps)[v] <= 1
  {
    if ps != [] {
      var init, last := ps[..|ps| - 1], ps[|ps| - 1];
      assert ps == init + [last];
      AtMostOnce(init, v);
      if last == v {
        assert v !in init by {
          forall a | 0 <= a < |init| ensures init[a] != v {
            assert ps[a].memberId != ps[|ps| - 1].memberId;
          }
        }
      }
    }
  }

  lemma TwiceCounted(ps: seq<Party>, i: nat, j: nat)
    requires i < j < |ps|
    ensures ps[i] == ps[j] ==> multiset(ps)[ps[i]] >= 2
  {
    assert ps == ps[..j] + [ps[j]] + ps[j + 1..];
    assert ps[i] in ps[..j];
  }

  lemma DistinctAfterPermutation(a: seq<Party>, b: seq<Party>)
    requires multiset(a) == multiset(b) && DistinctParties(a)
    ensures DistinctParties(b)
  {
    forall i, j | 0 <= i < j < |b| ensures b[i].memberId != b[j].memberId {
      TwiceCounted(b, i, j);
      AtMostOnce(a, b[i]);
      assert b[i] in multiset(a) && b[j] in multiset(a);
      var ki :| 0 <= ki < |a| && a[ki] == b[i];
      var kj :| 0 <= kj < |a| && a[kj] == b[j];
    }
  }

  /** A permutation of a creditor or debtor list is one as well. */
  lemma ListsAfterPermutation(a: seq<Party>, b: seq<Party>, ids: set<MemberId>, balances: map<MemberId, real>)
    requires multiset(a) == multiset(b) && Lists(a, ids, balances)
    ensures Lists(b, ids, balances)
  {
    DistinctAfterPermutation(a, b);
    assert forall p :: p in a <==> p in b by {
      forall p ensures p in a <==> p in b {
        assert p in a <==> p in multiset(a);
      }
    }
  }

  /** Sorting the creditor and debtor lists of `balances` yields sorted lists of them, every amount above the tolerance. */
  lemma SortedPermutations(creditorList: seq<Party>, debtorList: seq<Party>, cs: seq<Party>, ds: seq<Party>,
                           balances: map<MemberId, real>)
    requires CreditorList(creditorList, balances) && DebtorList(debtorList, balances)
    requires multiset(cs) == multiset(creditorList) && multiset(ds) == multiset(debtorList)
    requires SortedByAmount(cs) && SortedByAmount(ds)
    ensures SortedLists(cs, ds, balances) && AboveTolerance(cs) && AboveTolerance(ds)
  {
    ListsAfterPermutation(creditorList, cs, CreditorIds(balances), balances);
    ListsAfterPermutation(debtorList, ds, DebtorIds(balances), balances);
    ListsAboveTolerance(cs, ds, balances);
  }

  // ----- Lemmas: the greedy matching -----

  /** What the current entry keeps after a step: its id, and an amount no larger. */
  lemma AdvanceIds(p: Party, settle: real, rest: seq<Party>)
    ensures IdsOf(Advance(p.(amount := p.amount - settle), rest)) <= IdsOf([p] + rest)
  {
    var q := p.(amount := p.amount - settle);
    forall y | y in IdsOf(Advance(q, rest)) ensures y in IdsOf([p] + rest) {
      var r :| r in Advance(q, rest) && r.memberId == y;
      if r in rest {
        assert r in [p] + rest;
      } else {
        assert ([p] + rest)[0] == p;
      }
    }
  }

  /**
   * Every emitted transaction goes from a debtor of the lists to a creditor
   * of the lists, for more than the tolerance.
   */
  lemma {:induction false} GreedyEndpoints(cs: seq<Party>, ds: seq<Party>)
    ensures forall t | t in Greedy(cs, ds) :: t.to in IdsOf(cs) && t.from in IdsOf(ds) && t.amount > Tolerance
    decreases |cs| + |ds|
  {
    if cs != [] && ds != [] {
      var creditor, debtor, settle := cs[0], ds[0], SettleAmount(cs, ds);
      var cs', ds' := NextCreditors(cs, ds), NextDebtors(cs, ds);
      assert cs == [creditor] + cs[1..] && ds == [debtor] + ds[1..];
      GreedyEndpoints(cs', ds');
      AdvanceIds(creditor, settle, cs[1..]);
      AdvanceIds(debtor, settle, ds[1..]);
      assert creditor in cs && debtor in ds;
    }
  }

  lemma AdvanceNonNegative(p: Party, settle: real, rest: seq<Party>)
    requires 0.0 <= settle <= p.amount && NonNegative(rest)
    ensures NonNegative(Advance(p.(amount := p.amount - settle), rest))
  {
  }

  /** Creditors and debtors never meet in one transaction when no member is both. */
  lemma NoSelfPayment(cs: seq<Party>, ds: seq<Party>)
    requires IdsOf(cs) !! IdsOf(ds)
    ensures forall t | t in Greedy(cs, ds) :: t.from != t.to
  {
    GreedyEndpoints(cs, ds);
  }

  /**
   * Each step passes at least one entry and emits at most one transaction:
   * nothing is emitted when a list is empty, and fewer than |cs| + |ds|
   * transactions otherwise.
   */
  lemma {:induction false} GreedyLength(cs: seq<Party>, ds: seq<Party>)
    ensures cs == [] || ds == [] ==> Greedy(cs, ds) == []
    ensures cs != [] && ds != [] ==> |Greedy(cs, ds)| < |cs| + |ds|
    decreases |cs| + |ds|
  {
    if cs != [] && ds != [] {
      var cs', ds' := NextCreditors(cs, ds), NextDebtors(cs, ds);
      assert |cs'| + |ds'| < |cs| + |ds|;
      GreedyLength(cs', ds');
    }
  }

  /**
   * No creditor receives more than the creditor list holds for it: every
   * emitted amount was taken off the current creditor.
   */
  lemma {:induction false} GreedyReceivedBounded(cs: seq<Party>, ds: seq<Party>, x: MemberId)
    requires NonNegative(cs) && NonNegative(ds)
    ensures Received(Greedy(cs, ds), x) <= AmountOf(cs, x)
    decreases |cs| + |ds|
  {
    if cs == [] || ds == [] {
      AmountOfNonNegative(cs, x);
    } else {
      var creditor, debtor, settle := cs[0], ds[0], SettleAmount(cs, ds);
      var cs', ds' := NextCreditors(cs, ds), NextDebtors(cs, ds);
      assert creditor in cs && debtor in ds;
      AdvanceNonNegative(creditor, settle, cs[1..]);
      AdvanceNonNegative(debtor, settle, ds[1..]);
      GreedyReceivedBounded(cs', ds', x);
      ReceivedStep(cs, ds, x);
      assert cs == [creditor] + cs[1..];
      AdvanceAmount(creditor, settle, cs[1..], x);
      ChainBound(Received(Greedy(cs, ds), x), Received(Greedy(cs', ds'), x), AmountOf(cs', x), AmountOf(cs, x),
                 if creditor.memberId == x then settle else 0.0);
    }
  }

  /**
   * No debtor pays more than the debtor list holds for it: every emitted
   * amount was taken off the current debtor.
   */
  lemma {:induction false} GreedyPaidBounded(cs: seq<Party>, ds: seq<Party>, x: MemberId)
    requires NonNegative(cs) && NonNegative(ds)
    ensures Paid(Greedy(cs, ds), x) <= AmountOf(ds, x)
    decreases |cs| + |ds|
  {
    if cs == [] || ds == [] {
      AmountOfNonNegative(ds, x);
    } else {
      var creditor, debtor, settle := cs[0], ds[0], SettleAmount(cs, ds);
      var cs', ds' := NextCreditors(cs, ds), NextDebtors(cs, ds);
      assert creditor in cs && debtor in ds;
      AdvanceNonNegative(creditor, settle, cs[1..]);
      AdvanceNonNegative(debtor, settle, ds[1..]);
      GreedyPaidBounded(cs', ds', x);
      PaidStep(cs, ds, x);
      assert ds == [debtor] + ds[1..];
      AdvanceAmount(debtor, settle, ds[1..], x);
      ChainBound(Paid(Greedy(cs, ds), x), Paid(Greedy(cs', ds'), x), AmountOf(ds', x), AmountOf(ds, x),
                 if debtor.memberId == x then settle else 0.0);
    }
  }

  /** What one step of the matching pays to `x`, beside what the rest pays. */
  lemma ReceivedStep(cs: seq<Party>, ds: seq<Party>, x: MemberId)
    requires cs != [] && ds != [] && cs[0].amount >= 0.0 && ds[0].amount >= 0.0
    ensures Received(Greedy(cs, ds), x)
      <= (if cs[0].memberId == x then SettleAmount(cs, ds) else 0.0) + Received(Greedy(NextCreditors(cs, ds), NextDebtors(cs, ds)), x)
  {
    EmittedTotals(Emitted(cs, ds), Greedy(NextCreditors(cs, ds), NextDebtors(cs, ds)), x);
  }

  /** What `x` pays in one step of the matching, beside what it pays in the rest. */
  lemma PaidStep(cs: seq<Party>, ds: seq<Party>, x: MemberId)
    requires cs != [] && ds != [] && cs[0].amount >= 0.0 && ds[0].amount >= 0.0
    ensures Paid(Greedy(cs, ds), x)
      <= (if ds[0].memberId == x then SettleAmount(cs, ds) else 0.0) + Paid(Greedy(NextCreditors(cs, ds), NextDebtors(cs, ds)), x)
  {
    EmittedTotals(Emitted(cs, ds), Greedy(NextCreditors(cs, ds), NextDebtors(cs, ds)), x);
  }

  lemma ChainBound(total: real, rest: real, held: real, start: real, taken: real)
    requires total <= taken + rest && rest <= held && held + taken <= start
    ensures total <= start
  {
  }

  /** The totals of one step's transactions followed by the rest. */
  lemma EmittedTotals(emitted: seq<Transaction>, rest: seq<Transaction>, x: MemberId)
    requires |emitted| <= 1
    ensures Received(emitted + rest, x) == (if emitted != [] && emitted[0].to == x then emitted[0].amount else 0.0) + Received(rest, x)
    ensures Paid(emitted + rest, x) == (if emitted != [] && emitted[0].from == x then emitted[0].amount else 0.0) + Paid(rest, x)
  {
    if emitted == [] {
      assert emitted + rest == rest;
    } else {
      assert (emitted + rest)[1..] == rest;
    }
  }

  /** Taking `settle` off the current entry leaves the list holding that much less for its member. */
  lemma AdvanceAmount(p: Party, settle: real, rest: seq<Party>, x: MemberId)
    requires 0.0 <= settle <= p.amount
    ensures AmountOf(Advance(p.(amount := p.amount - settle), rest), x) + (if p.memberId == x then settle else 0.0)
      <= AmountOf([p] + rest, x)
  {
  }

  lemma {:induction false} AmountOfNonNegative(ps: seq<Party>, x: MemberId)
    requires NonNegative(ps)
    ensures AmountOf(ps, x) >= 0.0
  {
    if ps != [] {
      assert ps[0] in ps;
      assert forall p | p in ps[1..] :: p in ps;
      AmountOfNonNegative(ps[1..], x);
    }
  }

  /** In a list without repeated ids, the amount held for `x` is that of its one entry. */
  lemma {:induction false} AmountOfDistinct(ps: seq<Party>, x: MemberId)
    requires DistinctParties(ps)
    ensures x !in IdsOf(ps) ==> AmountOf(ps, x) == 0.0
    ensures forall p | p in ps && p.memberId == x :: AmountOf(ps, x) == p.amount
  {
    if ps != [] {
      var rest := ps[1..];
      assert forall p | p in rest :: p in ps;
      assert ps == [ps[0]] + rest;
      assert DistinctParties(rest) by {
        forall a, b | 0 <= a < b < |rest| ensures rest[a].memberId != rest[b].memberId {
          assert rest[a] == ps[a + 1] && rest[b] == ps[b + 1];
        }
      }
      assert ps[0].memberId !in IdsOf(rest) by {
        forall p | p in rest ensures p.memberId != ps[0].memberId {
          var k :| 0 <= k < |rest| && rest[k] == p;
          assert ps[k + 1] == p;
        }
      }
      AmountOfDistinct(rest, x);
    }
  }

  lemma {:induction false} CardOfDistinct(ps: seq<Party>)
    requires DistinctParties(ps)
    ensures |IdsOf(ps)| == |ps|
  {
    if ps != [] {
      var init, last := ps[..|ps| - 1], ps[|ps| - 1];
      assert ps == init + [last];
      assert DistinctParties(init);
      assert last.memberId !in IdsOf(init) by {
        forall p | p in init ensures p.memberId != last.memberId {
          var k :| 0 <= k < |init| && init[k] == p;
          assert ps[k] == p;
        }
      }
      AppendParty(init, last);
      CardOfDistinct(init);
    }
  }

  /**
   * Run on a creditor list and a debtor list of `balances` (in any order),
   * the greedy matching only ever has a debtor pay a creditor, for more than
   * the tolerance; no creditor receives more than its balance and no debtor
   * pays more than it owes; nothing is emitted unless both lists are
   * non-empty, and then fewer transactions than creditors plus debtors.
   */
  lemma GreedyRespectsBalances(balances: map<MemberId, real>, cs: seq<Party>, ds: seq<Party>)
    requires CreditorList(cs, balances) && DebtorList(ds, balances)
    ensures forall t | t in Greedy(cs, ds) ::
      && t.from in balances && balances[t.from] < -Tolerance
      && t.to in balances && balances[t.to] > Tolerance
      && t.from != t.to && t.amount > Tolerance
    ensures forall x | x in balances && balances[x] > Tolerance :: Received(Greedy(cs, ds), x) <= balances[x]
    ensures forall x | x in balances && balances[x] < -Tolerance :: Paid(Greedy(cs, ds), x) <= -balances[x]
    ensures CreditorIds(balances) == {} || DebtorIds(balances) == {} ==> Greedy(cs, ds) == []
    ensures CreditorIds(balances) != {} && DebtorIds(balances) != {} ==>
      |Greedy(cs, ds)| < |CreditorIds(balances)| + |DebtorIds(balances)|
  {
    GreedyEndpoints(cs, ds);
    GreedyLength(cs, ds);
    CardOfDistinct(cs);
    CardOfDistinct(ds);
    forall x | x in balances && balances[x] > Tolerance ensures Received(Greedy(cs, ds), x) <= balances[x] {
      GreedyReceivedBounded(cs, ds, x);
      AmountOfDistinct(cs, x);
      assert x in IdsOf(cs);
      var p :| p in cs && p.memberId == x;
    }
    forall x | x in balances && balances[x] < -Tolerance ensures Paid(Greedy(cs, ds), x) <= -balances[x] {
      GreedyPaidBounded(cs, ds, x);
      AmountOfDistinct(ds, x);
      assert x in IdsOf(ds);
      var p :| p in ds && p.memberId == x;
    }
  }
}
