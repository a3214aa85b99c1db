/**
 * The orders a group's row list can be left in: by sort value with ties
 * broken by source-row index (what performSorting produces), and by
 * source-row index alone (what performUnsorting produces). The lemmas show
 * that, for a comparator that is a consistent total preorder, this order is
 * total, transitive and antisymmetric, so a sorted permutation of a row list
 * is unique.
 */
module RowOrder {
  import opened Common

  /** Row `a` may precede row `b`: its sort value is smaller, or the values
      compare Equal and `a` is the lower source row. */
  predicate KeyLe(cmp: (Variant, Variant) -> Comparison, key: int -> Variant, a: int, b: int) {
    match cmp(key(a), key(b))
    case Smaller => true
    case Equal => a <= b
    case Larger => false
  }

  /** Every row precedes every later row. */
  predicate SortedByKey(cmp: (Variant, Variant) -> Comparison, key: int -> Variant, s: seq<int>) {
    forall i, j :: 0 <= i < j < |s| ==> KeyLe(cmp, key, s[i], s[j])
  }

  /** Non-decreasing by source-row index. */
  predicate AscendingRows(s: seq<int>) {
    forall i, j :: 0 <= i < j < |s| ==> s[i] <= s[j]
  }

  /** QList::swap(i, j) on the row list. */
  function Swap(s: seq<int>, i: int, j: int): (r: seq<int>)
    requires 0 <= i < |s| && 0 <= j < |s|
    ensures |r| == |s| && r[i] == s[j] && r[j] == s[i]
    ensures forall k :: 0 <= k < |s| && k != i && k != j ==> r[k] == s[k]
    ensures multiset(r) == multiset(s)
  {
    s[i := s[j]][j := s[i]]
  }

  /** Exchange sort, outer loop at n: positions before n hold their final
      rows, each preceding every row after it. */
  ghost predicate PrefixPlaced(cmp: (Variant, Variant) -> Comparison, key: int -> Variant, s: seq<int>, n: int) {
    forall a, b :: 0 <= a < n && a < b < |s| ==> KeyLe(cmp, key, s[a], s[b])
  }

  /** Exchange sort, inner loop at i: the row at n precedes the rows at
      n+1 .. i-1. */
  ghost predicate HeadLeads(cmp: (Variant, Variant) -> Comparison, key: int -> Variant, s: seq<int>, n: int, i: int)
    requires 0 <= n < |s|
  {
    forall b :: n < b < i && b < |s| ==> KeyLe(cmp, key, s[n], s[b])
  }

  /** One comparison of the inner loop: exchanging the rows at n and i when
      the row at n does not precede the row at i keeps both loop invariants
      and extends HeadLeads to i. */
  lemma ExchangeStep(cmp: (Variant, Variant) -> Comparison, key: int -> Variant, s: seq<int>, n: int, i: int)
    requires ConsistentTotalOrder(cmp)
    requires 0 <= n < i < |s|
    requires PrefixPlaced(cmp, key, s, n) && HeadLeads(cmp, key, s, n, i)
    ensures var t := if KeyLe(cmp, key, s[n], s[i]) then s else Swap(s, n, i);
            PrefixPlaced(cmp, key, t, n) && HeadLeads(cmp, key, t, n, i + 1)
  {
    if !KeyLe(cmp, key, s[n], s[i]) {
      var t := Swap(s, n, i);
      var x, y := s[n], s[i];
      KeyLeTotal(cmp, key, x, y);
      forall b | n < b < i + 1 && b < |t|
        ensures KeyLe(cmp, key, t[n], t[b])
      {
        if b < i {
          KeyLeTransitive(cmp, key, y, x, s[b]);
        }
      }
      forall a, b | 0 <= a < n && a < b < |t|
        ensures KeyLe(cmp, key, t[a], t[b])
      {
        if b == n {
          assert t[b] == s[i];
        } else if b == i {
          assert t[b] == s[n];
        }
      }
    }
  }

  /** The end of the inner loop places one more row. */
  lemma PlaceNext(cmp: (Variant, Variant) -> Comparison, key: int -> Variant, s: seq<int>, n: int)
    requires 0 <= n < |s|
    requires PrefixPlaced(cmp, key, s, n) && HeadLeads(cmp, key, s, n, |s|)
    ensures PrefixPlaced(cmp, key, s, n + 1)
  {
  }


  /** Unsorting, outer loop at n: positions before n hold their final
      rows, each at most every row after it. */
  ghost predicate RowPrefixPlaced(s: seq<int>, n: int) {
    forall a, b :: 0 <= a < n && a < b < |s| ==> s[a] <= s[b]
  }

  /** Unsorting, inner loop at i: the row at n is at most the rows at
      n+1 .. i-1. */
  ghost predicate RowHeadLeads(s: seq<int>, n: int, i: int)
    requires 0 <= n < |s|
  {
    forall b :: n < b < i && b < |s| ==> s[n] <= s[b]
  }

  /** One comparison of the unsorting inner loop: exchanging the rows at n
      and i when the row at n is the larger keeps both loop invariants and
      extends RowHeadLeads to i. */
  lemma RowExchangeStep(s: seq<int>, n: int, i: int)
    requires 0 <= n < i < |s|
    requires RowPrefixPlaced(s, n) && RowHeadLeads(s, n, i)
    ensures var t := if s[n] > s[i] then Swap(s, n, i) else s;
            RowPrefixPlaced(t, n) && RowHeadLeads(t, n, i + 1)
  {
    if s[n] > s[i] {
      var t := Swap(s, n, i);
      forall a, b | 0 <= a < n && a < b < |t|
        ensures t[a] <= t[b]
      {
        if b == n {
          assert t[b] == s[i];
        } else if b == i {
          assert t[b] == s[n];
        }
      }
    }
  }

  lemma KeyLeTotal(cmp: (Variant, Variant) -> Comparison, key: int -> Variant, a: int, b: int)
    requires ConsistentTotalOrder(cmp)
    ensures KeyLe(cmp, key, a, b) || KeyLe(cmp, key, b, a)
  {
    assert cmp(key(a), key(b)) == Larger <==> cmp(key(b), key(a)) == Smaller;
    assert cmp(key(b), key(a)) == Larger <==> cmp(key(a), key(b)) == Smaller;
  }

  lemma KeyLeAntisymmetric(cmp: (Variant, Variant) -> Comparison, key: int -> Variant, a: int, b: int)
    requires ConsistentTotalOrder(cmp)
    requires KeyLe(cmp, key, a, b) && KeyLe(cmp, key, b, a)
    ensures a == b
  {
    var ka, kb := key(a), key(b);
    assert cmp(ka, kb) == Larger <==> cmp(kb, ka) == Smaller;
    assert cmp(kb, ka) == Larger <==> cmp(ka, kb) == Smaller;
  }

  lemma KeyLeTransitive(cmp: (Variant, Variant) -> Comparison, key: int -> Variant, a: int, b: int, c: int)
    requires ConsistentTotalOrder(cmp)
    requires KeyLe(cmp, key, a, b) && KeyLe(cmp, key, b, c)
    ensures KeyLe(cmp, key, a, c)
  {
    var ka, kb, kc := key(a), key(b), key(c);
    assert cmp(ka, kc) != Larger;
    assert cmp(kc, ka) == Larger <==> cmp(ka, kc) == Smaller;
    assert cmp(kb, ka) == Larger <==> cmp(ka, kb) == Smaller;
    assert cmp(kc, kb) == Larger <==> cmp(kb, kc) == Smaller;
    assert cmp(kb, kc) != Larger && cmp(kc, ka) != Larger ==> cmp(kb, ka) != Larger;
    assert cmp(kc, ka) != Larger && cmp(ka, kb) != Larger ==> cmp(kc, kb) != Larger;
  }

  /** The first row of a sorted list precedes every row of the list. */
  lemma HeadPrecedes(cmp: (Variant, Variant) -> Comparison, key: int -> Variant, s: seq<int>, x: int)
    requires SortedByKey(cmp, key, s)
    requires x in multiset(s)
    ensures |s| > 0 && (s[0] == x || KeyLe(cmp, key, s[0], x))
  {
    var j :| 0 <= j < |s| && s[j] == x;
  }

  /** Two sorted permutations of the same rows are the same list: the order
      performSorting leaves is fully determined by the rows and their values. */
  lemma {:induction false} SortedPermutationUnique(cmp: (Variant, Variant) -> Comparison, key: int -> Variant, s: seq<int>, t: seq<int>)
    requires ConsistentTotalOrder(cmp)
    requires multiset(s) == multiset(t)
    requires SortedByKey(cmp, key, s) && SortedByKey(cmp, key, t)
    ensures s == t
    decreases |s|
  {
    assert |s| == |multiset(s)| == |multiset(t)| == |t|;
    if |s| > 0 {
      HeadPrecedes(cmp, key, t, s[0]);
      HeadPrecedes(cmp, key, s, t[0]);
      if s[0] != t[0] {
        KeyLeAntisymmetric(cmp, key, s[0], t[0]);
      }
      assert s == [s[0]] + s[1..];
      assert t == [t[0]] + t[1..];
      assert multiset(s) == multiset{s[0]} + multiset(s[1..]);
      assert multiset(t) == multiset{t[0]} + multiset(t[1..]);
      assert s[0] == t[0];
      assert multiset(s[1..]) == multiset(s) - multiset{s[0]};
      assert multiset(t[1..]) == multiset(t) - multiset{t[0]};
      SortedPermutationUnique(cmp, key, s[1..], t[1..]);
    }
  }

  /** Ordering by row index is the special case of ordering by value in
      which every comparison is Equal: performUnsorting establishes exactly
      the order performSorting would with an all-Equal comparator. */
  lemma AscendingIsSortedByEqualKeys(key: int -> Variant, s: seq<int>)
    ensures AscendingRows(s) <==> SortedByKey((x, y) => Equal, key, s)
  {
  }

  /** The all-Equal comparator obeys the comparator laws. */
  lemma AllEqualIsConsistent()
    ensures ConsistentTotalOrder((x, y) => Equal)
  {
  }

  /** Two ascending permutations of the same rows are the same list: the
      order performUnsorting leaves is determined by the rows alone. */
  lemma AscendingPermutationUnique(s: seq<int>, t: seq<int>)
    requires multiset(s) == multiset(t)
    requires AscendingRows(s) && AscendingRows(t)
    ensures s == t
  {
    var key: int -> Variant := r => Invalid;
    AllEqualIsConsistent();
    AscendingIsSortedByEqualKeys(key, s);
    AscendingIsSortedByEqualKeys(key, t);
    SortedPermutationUnique((x, y) => Equal, key, s, t);
  }
}
