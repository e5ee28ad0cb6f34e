// The predictor's word bank is a Python dict from word to rank whose
// insertion order matters. Here it is a sequence of (word, rank) entries,
// and the dict operations the predictor relies on are spelled out: key
// lookup, `d[k] = v`, building a dict from pairs, the stable descending sort
// by rank, and `max` over the ranks.

module WordBank {

  type Entry = (string, int)
  type Bank = seq<Entry>

  /** `list(d)`: the words in bank order. */
  function Keys(bank: Bank): (keys: seq<string>)
    ensures |keys| == |bank|
    ensures forall i | 0 <= i < |bank| :: keys[i] == bank[i].0
    ensures forall w :: w in keys <==> HasKey(bank, w)
    ensures DistinctKeys(bank) <==> Distinct(keys)
  {
    seq(|bank|, i requires 0 <= i < |bank| => bank[i].0)
  }

  /** `w in d`. */
  predicate HasKey(bank: Bank, w: string) {
    exists i | 0 <= i < |bank| :: bank[i].0 == w
  }

  predicate DistinctKeys(bank: Bank) {
    forall i, j | 0 <= i < j < |bank| :: bank[i].0 != bank[j].0
  }

  /** Ranks in non-increasing order: highest first. */
  predicate SortedDesc(bank: Bank) {
    forall i, j | 0 <= i < j < |bank| :: bank[i].1 >= bank[j].1
  }

  /** The pairs never give one word two different ranks. */
  predicate Functional(pairs: Bank) {
    forall e1, e2 | e1 in pairs && e2 in pairs && e1.0 == e2.0 :: e1.1 == e2.1
  }

  // ---------------------------------------------------------------------
  // Building a dict from pairs
  // ---------------------------------------------------------------------

  /** `d[k] = v`: an existing key keeps its place and takes the new rank, a new
      key goes to the end. */
  function Assign(bank: Bank, k: string, v: int): (r: Bank)
    ensures HasKey(r, k) && (k, v) in r
  {
    if |bank| == 0 then
      assert [(k, v)][0].0 == k;
      [(k, v)]
    else if bank[0].0 == k then
      assert ([(k, v)] + bank[1..])[0].0 == k;
      [(k, v)] + bank[1..]
    else
      var rest := Assign(bank[1..], k, v);
      assert HasKey([bank[0]] + rest, k) by {
        var i :| 0 <= i < |rest| && rest[i].0 == k;
        assert ([bank[0]] + rest)[i + 1].0 == k;
      }
      [bank[0]] + rest
  }

  lemma {:induction false} AssignNewKey(bank: Bank, k: string, v: int)
    requires !HasKey(bank, k)
    ensures Assign(bank, k, v) == bank + [(k, v)]
  {
    if |bank| > 0 {
      AssignNewKey(bank[1..], k, v);
      assert bank == [bank[0]] + bank[1..];
    }
  }

  /** An existing key takes the new rank in its own place; every other entry
      stays where it was. */
  lemma {:induction false} AssignExistingKey(bank: Bank, k: string, v: int)
    requires DistinctKeys(bank) && HasKey(bank, k)
    ensures var r := Assign(bank, k, v);
            |r| == |bank| && forall i | 0 <= i < |bank| :: r[i] == (if bank[i].0 == k then (k, v) else bank[i])
  {
    if bank[0].0 != k {
      var j :| 0 <= j < |bank| && bank[j].0 == k;
      assert bank[1..][j - 1].0 == k;
      AssignExistingKey(bank[1..], k, v);
    }
  }

  /** On a dict, `d[k] = v` keeps the keys distinct, replaces the entry of `k`
      (or adds one) and keeps every other entry; an existing key keeps the
      key order. */
  lemma AssignKeepsDict(bank: Bank, k: string, v: int)
    requires DistinctKeys(bank)
    ensures var r := Assign(bank, k, v);
            && DistinctKeys(r)
            && (forall e :: e in r <==> (e in bank && e.0 != k) || e == (k, v))
            && (HasKey(bank, k) ==> Keys(r) == Keys(bank))
  {
    var r := Assign(bank, k, v);
    if HasKey(bank, k) {
      AssignExistingKey(bank, k, v);
      assert Keys(r) == Keys(bank);
      forall e ensures e in r <==> (e in bank && e.0 != k) || e == (k, v) {
        if e in bank && e.0 != k {
          var i :| 0 <= i < |bank| && bank[i] == e;
          assert r[i] == e;
        }
        if e == (k, v) {
          var i :| 0 <= i < |bank| && bank[i].0 == k;
          assert r[i] == e;
        }
      }
    } else {
      AssignNewKey(bank, k, v);
    }
  }

  lemma {:induction false} AssignSameEntry(bank: Bank, k: string, v: int)
    requires DistinctKeys(bank)
    requires (k, v) in bank
    ensures Assign(bank, k, v) == bank
  {
    if bank[0].0 != k {
      assert (k, v) in bank[1..];
      AssignSameEntry(bank[1..], k, v);
      assert bank == [bank[0]] + bank[1..];
    } else {
      var i :| 0 <= i < |bank| && bank[i] == (k, v);
      assert i == 0;
      assert bank == [bank[0]] + bank[1..];
    }
  }

  /** `{k: v for k, v in pairs}`. */
  function DictFromPairs(pairs: Bank): Bank {
    if |pairs| == 0 then []
    else
      var n := |pairs| - 1;
      Assign(DictFromPairs(pairs[..n]), pairs[n].0, pairs[n].1)
  }

  lemma DictFromPairsStep(d: Bank, prefix: Bank, last: Entry)
    requires DistinctKeys(d) && SortedDesc(d)
    requires forall e :: e in d <==> e in prefix
    requires forall e | e in prefix :: e.1 >= last.1
    requires forall e | e in prefix && e.0 == last.0 :: e.1 == last.1
    ensures DistinctKeys(Assign(d, last.0, last.1))
    ensures SortedDesc(Assign(d, last.0, last.1))
    ensures forall e :: e in Assign(d, last.0, last.1) <==> e in prefix || e == last
  {
    if HasKey(d, last.0) {
      var i :| 0 <= i < |d| && d[i].0 == last.0;
      assert d[i] in d;
      assert d[i] == last;
      AssignSameEntry(d, last.0, last.1);
    } else {
      AssignNewKey(d, last.0, last.1);
      var r := d + [last];
      forall i, j | 0 <= i < j < |r| ensures r[i].1 >= r[j].1 {
        if j == |d| {
          assert d[i] in d;
        }
      }
    }
  }

  /** From sorted pairs that agree on each word's rank, the dict keeps each
      word once, keeps the order and holds exactly the given pairs. */
  lemma {:induction false} DictFromSortedPairs(pairs: Bank)
    requires SortedDesc(pairs)
    requires Functional(pairs)
    ensures DistinctKeys(DictFromPairs(pairs))
    ensures SortedDesc(DictFromPairs(pairs))
    ensures forall e :: e in DictFromPairs(pairs) <==> e in pairs
  {
    if |pairs| > 0 {
      var n := |pairs| - 1;
      var prefix := pairs[..n];
      var last := pairs[n];
      assert pairs == prefix + [last];
      assert Functional(prefix) by {
        forall e1, e2 | e1 in prefix && e2 in prefix && e1.0 == e2.0 ensures e1.1 == e2.1 {
          assert e1 in pairs && e2 in pairs;
        }
      }
      forall e | e in prefix ensures e.1 >= last.1 && (e.0 == last.0 ==> e.1 == last.1) {
        var q :| 0 <= q < n && prefix[q] == e;
        assert pairs[q] == e;
        assert e in pairs && last in pairs;
      }
      DictFromSortedPairs(prefix);
      DictFromPairsStep(DictFromPairs(prefix), prefix, last);
    }
  }

  /** Rebuilding a dict from its own items (`{k: v for k, v in items}` over
      entries with distinct words) gives back the same entries in the same
      order. */
  lemma {:induction false} DictFromDistinctPairs(pairs: Bank)
    requires DistinctKeys(pairs)
    ensures DictFromPairs(pairs) == pairs
  {
    if |pairs| > 0 {
      var n := |pairs| - 1;
      var prefix := pairs[..n];
      assert DistinctKeys(prefix);
      DictFromDistinctPairs(prefix);
      assert !HasKey(prefix, pairs[n].0);
      AssignNewKey(prefix, pairs[n].0, pairs[n].1);
      assert pairs == prefix + [pairs[n]];
    }
  }

  // ---------------------------------------------------------------------
  // The stable sort by rank, highest first
  // ---------------------------------------------------------------------

  /** The entries of `bank` whose rank is `k`, in order. */
  function WithRank(bank: Bank, k: int): Bank {
    if |bank| == 0 then []
    else (if bank[0].1 == k then [bank[0]] else []) + WithRank(bank[1..], k)
  }

  lemma {:induction false} WithRankAppend(a: Bank, b: Bank, k: int)
    ensures WithRank(a + b, k) == WithRank(a, k) + WithRank(b, k)
  {
    if |a| > 0 {
      assert (a + b)[0] == a[0];
      assert (a + b)[1..] == a[1..] + b;
      WithRankAppend(a[1..], b, k);
    } else {
      assert a + b == b;
    }
  }

  lemma {:induction false} WithRankAbsent(bank: Bank, k: int)
    requires forall i | 0 <= i < |bank| :: bank[i].1 != k
    ensures WithRank(bank, k) == []
  {
    if |bank| > 0 { WithRankAbsent(bank[1..], k); }
  }

  /** Insert `x` after every entry ranked at least as high. */
  function InsertByRank(sorted: Bank, x: Entry): Bank {
    if |sorted| == 0 then [x]
    else if sorted[0].1 >= x.1 then [sorted[0]] + InsertByRank(sorted[1..], x)
    else [x] + sorted
  }

  lemma {:induction false} InsertByRankEntries(sorted: Bank, x: Entry)
    ensures multiset(InsertByRank(sorted, x)) == multiset(sorted) + multiset{x}
  {
    if |sorted| > 0 && sorted[0].1 >= x.1 {
      InsertByRankEntries(sorted[1..], x);
      assert sorted == [sorted[0]] + sorted[1..];
    }
  }

  lemma {:induction false} InsertByRankSorted(sorted: Bank, x: Entry)
    requires SortedDesc(sorted)
    ensures SortedDesc(InsertByRank(sorted, x))
  {
    var r := InsertByRank(sorted, x);
    if |sorted| > 0 && sorted[0].1 >= x.1 {
      var tail := sorted[1..];
      InsertByRankSorted(tail, x);
      InsertByRankEntries(tail, x);
      var t := InsertByRank(tail, x);
      assert r == [sorted[0]] + t;
      forall j | 0 <= j < |t| ensures t[j].1 <= sorted[0].1 {
        assert t[j] in multiset(t);
        assert t[j] in tail || t[j] == x;
      }
      forall i, j | 0 <= i < j < |r| ensures r[i].1 >= r[j].1 {
        if i == 0 {
          assert r[j] == t[j - 1];
        } else {
          assert r[i] == t[i - 1] && r[j] == t[j - 1];
        }
      }
    }
  }

  lemma {:induction false} InsertByRankWithRank(sorted: Bank, x: Entry, k: int)
    requires SortedDesc(sorted)
    ensures WithRank(InsertByRank(sorted, x), k) == WithRank(sorted, k) + (if x.1 == k then [x] else [])
  {
    var r := InsertByRank(sorted, x);
    if |sorted| == 0 {
      assert r[1..] == [];
    } else if sorted[0].1 >= x.1 {
      var tail := sorted[1..];
      InsertByRankWithRank(tail, x, k);
      assert r[0] == sorted[0] && r[1..] == InsertByRank(tail, x);
    } else {
      assert r[0] == x && r[1..] == sorted;
      if x.1 == k {
        WithRankAbsent(sorted, k);
      }
    }
  }

  lemma InsertByRankProperties(sorted: Bank, x: Entry)
    requires SortedDesc(sorted)
    ensures SortedDesc(InsertByRank(sorted, x))
    ensures multiset(InsertByRank(sorted, x)) == multiset(sorted) + multiset{x}
    ensures forall k :: WithRank(InsertByRank(sorted, x), k) == WithRank(sorted, k) + (if x.1 == k then [x] else [])
  {
    InsertByRankSorted(sorted, x);
    InsertByRankEntries(sorted, x);
    forall k ensures WithRank(InsertByRank(sorted, x), k) == WithRank(sorted, k) + (if x.1 == k then [x] else []) {
      InsertByRankWithRank(sorted, x, k);
    }
  }

  /** `sorted(bank, key=rank, reverse=True)`: Python's sort is stable even when
      reversed, so entries of equal rank keep their relative order. */
  function SortByRankDesc(bank: Bank): (r: Bank)
    ensures SortedDesc(r)
    ensures multiset(r) == multiset(bank)
    ensures forall k :: WithRank(r, k) == WithRank(bank, k)
  {
    if |bank| == 0 then []
    else
      var n := |bank| - 1;
      var sorted := SortByRankDesc(bank[..n]);
      InsertByRankProperties(sorted, bank[n]);
      SortSnocWithRank(bank, sorted);
      assert bank == bank[..n] + [bank[n]];
      InsertByRank(sorted, bank[n])
  }

  lemma SortSnocWithRank(bank: Bank, sorted: Bank)
    requires |bank| > 0
    requires forall k :: WithRank(sorted, k) == WithRank(bank[..|bank| - 1], k)
    ensures forall k :: WithRank(sorted, k) + (if bank[|bank| - 1].1 == k then [bank[|bank| - 1]] else []) == WithRank(bank, k)
  {
    var n := |bank| - 1;
    forall k ensures WithRank(sorted, k) + (if bank[n].1 == k then [bank[n]] else []) == WithRank(bank, k) {
      assert bank == bank[..n] + [bank[n]];
      WithRankAppend(bank[..n], [bank[n]], k);
    }
  }

  /** Sorting keeps the set of entries, hence the keys. */
  lemma SortKeepsEntries(bank: Bank)
    ensures |SortByRankDesc(bank)| == |bank|
    ensures forall e :: e in SortByRankDesc(bank) <==> e in bank
  {
    var r := SortByRankDesc(bank);
    assert |r| == |multiset(r)| == |multiset(bank)| == |bank|;
    forall e ensures e in r <==> e in bank {
      assert e in r <==> e in multiset(r);
      assert e in bank <==> e in multiset(bank);
    }
  }

  /** No element twice. */
  predicate Distinct<T(==)>(s: seq<T>) {
    forall i, j | 0 <= i < j < |s| :: s[i] != s[j]
  }

  lemma {:induction false} DistinctAtMostOnce<T>(s: seq<T>, x: T)
    requires Distinct(s)
    ensures multiset(s)[x] <= 1
  {
    if |s| > 0 {
      var n := |s| - 1;
      assert s == s[..n] + [s[n]];
      assert forall i | 0 <= i < n :: s[..n][i] == s[i];
      DistinctAtMostOnce(s[..n], x);
      if s[n] == x {
        assert x !in s[..n];
      }
    }
  }

  /** A permutation of a sequence without repeats has none either. */
  lemma PermutationKeepsDistinct<T>(a: seq<T>, b: seq<T>)
    requires multiset(a) == multiset(b)
    requires Distinct(b)
    ensures Distinct(a)
  {
    forall i, j | 0 <= i < j < |a| ensures a[i] != a[j] {
      if a[i] == a[j] {
        assert a == a[..j] + a[j..];
        assert a[i] in multiset(a[..j]);
        assert a[j] in multiset(a[j..]);
        DistinctAtMostOnce(b, a[i]);
      }
    }
  }

  /** Sorting a dict's items keeps the words distinct. */
  lemma SortKeepsDistinctKeys(bank: Bank)
    requires DistinctKeys(bank)
    ensures DistinctKeys(SortByRankDesc(bank))
  {
    var r := SortByRankDesc(bank);
    PermutationKeepsDistinct(r, bank);
    forall i, j | 0 <= i < j < |r| ensures r[i].0 != r[j].0 {
      assert r[i] in multiset(bank) && r[j] in multiset(bank);
      var a :| 0 <= a < |bank| && bank[a] == r[i];
      var b :| 0 <= b < |bank| && bank[b] == r[j];
    }
  }

  // ---------------------------------------------------------------------
  // max(d.values())
  // ---------------------------------------------------------------------

  function MaxRank(bank: Bank): (m: int)
    requires |bank| > 0
    ensures exists i | 0 <= i < |bank| :: bank[i].1 == m
    ensures forall i | 0 <= i < |bank| :: bank[i].1 <= m
  {
    if |bank| == 1 then bank[0].1
    else
      var n := |bank| - 1;
      var m := MaxRank(bank[..n]);
      assert forall i | 0 <= i < n :: bank[..n][i] == bank[i];
      if m < bank[n].1 then bank[n].1 else m
  }
}
