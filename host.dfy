/**
 * The two JavaScript runtime facilities `simplifyDebts` relies on, with the
 * guarantees the algorithm may assume of them and no more: `Object.entries`
 * lists every pair of the balance map once, in an order the model leaves
 * open, and `Array.prototype.sort` with the comparator `b.amount - a.amount`
 * leaves the array ordered by amount, largest first, as a permutation of
 * what it held (how it breaks ties is left open too).
 */
module Host {
  import opened Balances
  import opened Settlement

  /** `Object.entries(balances)`: every pair once, in an order chosen here arbitrarily. */
  method Entries(balances: map<MemberId, real>) returns (entries: seq<BalanceEntry>)
    ensures Enumerates(entries, balances)
  {
    entries := [];
    var rest := balances.Keys;
    while rest != {}
      invariant rest <= balances.Keys
      invariant Consistent(entries, balances)
      invariant EntryIds(entries) == balances.Keys - rest
      decreases |rest|
    {
      var id :| id in rest;
      ghost var before := entries;
      entries := entries + [BalanceEntry(id, balances[id])];
      AppendEntry(before, balances, id, entries);
      rest := rest - {id};
    }
  }

  /** Appending the pair of an id not yet listed keeps the list consistent and adds that id. */
  lemma AppendEntry(entries: seq<BalanceEntry>, balances: map<MemberId, real>, id: MemberId,
                    appended: seq<BalanceEntry>)
    requires Consistent(entries, balances) && id in balances && id !in EntryIds(entries)
    requires appended == entries + [BalanceEntry(id, balances[id])]
    ensures Consistent(appended, balances) && EntryIds(appended) == EntryIds(entries) + {id}
  {
  }

  /**
   * `list.sort((x, y) => y.amount - x.amount)` on one of the pushed lists:
   * the list is copied into an array and sorted there in place.
   */
  method SortList(ps: seq<Party>) returns (sorted: seq<Party>)
    ensures SortedByAmount(sorted) && multiset(sorted) == multiset(ps)
  {
    var a := new Party[|ps|](k requires 0 <= k < |ps| => ps[k]);
    assert a[..] == ps;
    SortByAmountDescending(a);
    sorted := a[..];
  }

  /** `a.sort((x, y) => y.amount - x.amount)`: a selection sort stands for the host's sort. */
  method SortByAmountDescending(a: array<Party>)
    modifies a
    ensures SortedByAmount(a[..])
    ensures multiset(a[..]) == old(multiset(a[..]))
  {
    var i := 0;
    while i < a.Length
      invariant 0 <= i <= a.Length
      invariant SortedPrefix(a[..], i)
      invariant multiset(a[..]) == old(multiset(a[..]))
    {
      var largest := IndexOfLargest(a, i);
      ghost var before := a[..];
      a[i], a[largest] := a[largest], a[i];
      SelectLargest(before, i, largest, a[..]);
      i := i + 1;
    }
  }

  /** The index of an entry with the largest amount among `a[i..]`. */
  method IndexOfLargest(a: array<Party>, i: nat) returns (largest: nat)
    requires i < a.Length
    ensures i <= largest < a.Length
    ensures forall q | i <= q < a.Length :: a[largest].amount >= a[q].amount
  {
    largest := i;
    var k := i + 1;
    while k < a.Length
      invariant i <= largest < k <= a.Length
      invariant forall q | i <= q < k :: a[largest].amount >= a[q].amount
    {
      if a[k].amount > a[largest].amount {
        largest := k;
      }
      k := k + 1;
    }
  }

  /**
   * The first `i` entries of `s` are in place: ordered by amount, largest
   * first, and none smaller than an entry after them.
   */
  ghost predicate SortedPrefix(s: seq<Party>, i: nat)
    requires i <= |s|
  {
    && (forall p, q | 0 <= p < q < i :: s[p].amount >= s[q].amount)
    && (forall p, q | 0 <= p < i <= q < |s| :: s[p].amount >= s[q].amount)
  }

  /** Swapping the largest of the unsorted entries to the front of them puts one more in place. */
  lemma SelectLargest(s: seq<Party>, i: nat, largest: nat, t: seq<Party>)
    requires i <= largest < |s| && SortedPrefix(s, i)
    requires forall q | i <= q < |s| :: s[largest].amount >= s[q].amount
    requires t == s[i := s[largest]][largest := s[i]]
    ensures SortedPrefix(t, i + 1) && multiset(t) == multiset(s)
  {
    assert t[i] == s[largest];
    assert forall q | i < q < |t| :: t[q] == s[q] || (q == largest && t[q] == s[i]);
  }
}
