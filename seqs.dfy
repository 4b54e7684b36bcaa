/** Small facts about sequences of integers shared by the other modules. */
module Seqs {

  function Max(a: int, b: int): (r: int) { if a >= b then a else b }

  function Min(a: int, b: int): (r: int) { if a <= b then a else b }

  /** Positions i and j hold different elements. */
  predicate Differ<T(==)>(s: seq<T>, i: int, j: int)
    requires 0 <= i < |s| && 0 <= j < |s|
  {
    s[i] != s[j]
  }

  /** No element occurs twice. */
  predicate Distinct<T(==)>(s: seq<T>) {
    forall i, j {:trigger Differ(s, i, j)} :: 0 <= i < j < |s| ==> Differ(s, i, j)
  }

  /** Every element is a valid index below n. */
  predicate AllBelow(s: seq<int>, n: int) {
    forall i :: 0 <= i < |s| ==> 0 <= s[i] < n
  }

  /** The sum of a sequence, accumulated from the front as Java's loops do. */
  function Sum(s: seq<int>): int {
    if s == [] then 0 else Sum(s[..|s| - 1]) + s[|s| - 1]
  }

  /** The largest element, or `floor` when every element is below it (Java starts such loops at 0). */
  function MaxFrom(floor: int, s: seq<int>): int {
    if s == [] then floor else Max(MaxFrom(floor, s[..|s| - 1]), s[|s| - 1])
  }

  /** The smallest element, or `ceiling` when every element is above it. */
  function MinFrom(ceiling: int, s: seq<int>): int {
    if s == [] then ceiling else Min(MinFrom(ceiling, s[..|s| - 1]), s[|s| - 1])
  }

  lemma {:induction false} MaxFromBounds(floor: int, s: seq<int>)
    ensures MaxFrom(floor, s) >= floor
    ensures forall i :: 0 <= i < |s| ==> s[i] <= MaxFrom(floor, s)
    ensures MaxFrom(floor, s) == floor || exists i :: 0 <= i < |s| && s[i] == MaxFrom(floor, s)
  {
    if s != [] {
      MaxFromBounds(floor, s[..|s| - 1]);
      var m := MaxFrom(floor, s[..|s| - 1]);
      if m != floor && m >= s[|s| - 1] {
        var i :| 0 <= i < |s| - 1 && s[..|s| - 1][i] == m;
        assert s[i] == m;
      }
    }
  }

  /** A higher floor never gives a smaller maximum. */
  lemma {:induction false} MaxFromFloor(low: int, high: int, s: seq<int>)
    requires low <= high
    ensures MaxFrom(low, s) <= MaxFrom(high, s)
  {
    if s != [] {
      MaxFromFloor(low, high, s[..|s| - 1]);
    }
  }

  lemma {:induction false} MinFromBounds(ceiling: int, s: seq<int>)
    ensures MinFrom(ceiling, s) <= ceiling
    ensures forall i :: 0 <= i < |s| ==> MinFrom(ceiling, s) <= s[i]
    ensures MinFrom(ceiling, s) == ceiling || exists i :: 0 <= i < |s| && s[i] == MinFrom(ceiling, s)
  {
    if s != [] {
      MinFromBounds(ceiling, s[..|s| - 1]);
      var m := MinFrom(ceiling, s[..|s| - 1]);
      if m != ceiling && m <= s[|s| - 1] {
        var i :| 0 <= i < |s| - 1 && s[..|s| - 1][i] == m;
        assert s[i] == m;
      }
    }
  }

  /** Writing an entry twice leaves only the second value. */
  lemma UpdateTwice(s: seq<int>, i: int, a: int, b: int)
    requires 0 <= i < |s|
    ensures s[i := a][i := b] == s[i := b]
  {
  }

  /** Writing an entry and then its old value back leaves the sequence as it was. */
  lemma UpdateUndone(s: seq<int>, i: int, a: int)
    requires 0 <= i < |s|
    ensures s[i := a][i := s[i]] == s
  {
  }

  /** In a sequence without repeats, different positions hold different elements. */
  lemma DistinctAt<T>(s: seq<T>, i: int, j: int)
    requires Distinct(s) && 0 <= i < |s| && 0 <= j < |s| && i != j
    ensures s[i] != s[j]
  {
    if i < j {
      assert Differ(s, i, j);
    } else {
      assert Differ(s, j, i);
    }
  }

  /** An element of a sequence without repeats occurs neither before nor after its own position. */
  lemma DistinctOnce<T>(s: seq<T>, i: int)
    requires Distinct(s) && 0 <= i < |s|
    ensures s[i] !in s[..i] && s[i] !in s[i + 1..]
  {
    forall k | 0 <= k < i ensures s[..i][k] != s[i] {
      DistinctAt(s, k, i);
    }
    var after := s[i + 1..];
    forall k | 0 <= k < |after| ensures after[k] != s[i] {
      DistinctAt(s, i + 1 + k, i);
    }
  }

  /** A slice of a sequence without repeats has no repeats. */
  lemma DistinctSlice<T>(s: seq<T>, a: int, b: int)
    requires Distinct(s) && 0 <= a <= b <= |s|
    ensures Distinct(s[a..b])
  {
    forall i, j | 0 <= i < j < b - a ensures Differ(s[a..b], i, j) {
      DistinctAt(s, a + i, a + j);
    }
  }

  lemma DistinctSnoc<T>(s: seq<T>, x: T)
    requires Distinct(s) && x !in s
    ensures Distinct(s + [x])
  {
    forall i, j | 0 <= i < j < |s| + 1 ensures Differ(s + [x], i, j) {
      if j < |s| {
        assert Differ(s, i, j);
      } else {
        assert s[i] in s;
      }
    }
  }

  /** Non-decreasing order. */
  predicate Ascending(s: seq<int>) {
    forall i, j {:trigger InOrder(s, i, j)} :: 0 <= i < j < |s| ==> InOrder(s, i, j)
  }

  /** The element at position i is no greater than the one at j. */
  predicate InOrder(s: seq<int>, i: int, j: int)
    requires 0 <= i < |s| && 0 <= j < |s|
  {
    s[i] <= s[j]
  }

  /** The first element of an ascending sequence is its least. */
  lemma AscendingHead(s: seq<int>, x: int)
    requires Ascending(s) && x in s
    ensures s[0] <= x
  {
    var k :| 0 <= k < |s| && s[k] == x;
    if k > 0 {
      assert InOrder(s, 0, k);
    }
  }

  /** Places x before the first element not below it. */
  function Insert(x: int, s: seq<int>): (r: seq<int>)
    ensures multiset(r) == multiset(s) + multiset{x}
  {
    if s == [] then [x]
    else if x <= s[0] then [x] + s
    else
      assert s == [s[0]] + s[1..];
      [s[0]] + Insert(x, s[1..])
  }

  lemma {:induction false} InsertAscending(x: int, s: seq<int>)
    requires Ascending(s)
    ensures Ascending(Insert(x, s))
  {
    if s != [] && x > s[0] {
      var t := Insert(x, s[1..]);
      forall i, j | 0 <= i < j < |s| - 1 ensures InOrder(s[1..], i, j) {
        assert InOrder(s, i + 1, j + 1);
      }
      InsertAscending(x, s[1..]);
      var r := [s[0]] + t;
      forall i, j | 0 <= i < j < |r| ensures InOrder(r, i, j) {
        if i == 0 {
          assert t[j - 1] in multiset(t);
          if t[j - 1] != x {
            assert t[j - 1] in s[1..];
            var k :| 0 <= k < |s[1..]| && s[1..][k] == t[j - 1];
            assert InOrder(s, 0, k + 1);
          }
        } else {
          assert InOrder(t, i - 1, j - 1);
        }
      }
    } else if s != [] {
      var r := [x] + s;
      forall i, j | 0 <= i < j < |r| ensures InOrder(r, i, j) {
        if i == 0 {
          assert InOrder(s, 0, j - 1) || j == 1;
        } else {
          assert InOrder(s, i - 1, j - 1);
        }
      }
    }
  }

  /** Ascending order of integers (the order `Collections.sort` gives a list of Integer). */
  function Sort(s: seq<int>): (r: seq<int>)
    ensures multiset(r) == multiset(s)
  {
    if s == [] then []
    else
      assert s == [s[0]] + s[1..];
      Insert(s[0], Sort(s[1..]))
  }

  /** Sorting gives an ascending sequence. */
  lemma {:induction false} SortAscending(s: seq<int>)
    ensures Ascending(Sort(s))
  {
    if s != [] {
      SortAscending(s[1..]);
      InsertAscending(s[0], Sort(s[1..]));
    }
  }

  /** Dropping the first element of an ascending sequence leaves it ascending. */
  lemma AscendingTail(s: seq<int>)
    requires Ascending(s) && s != []
    ensures Ascending(s[1..])
  {
    forall i, j | 0 <= i < j < |s| - 1 ensures InOrder(s[1..], i, j) {
      assert InOrder(s, i + 1, j + 1);
    }
  }

  /** Two ascending sequences holding the same elements are the same sequence, so sorting is canonical. */
  lemma {:induction false} AscendingUnique(r1: seq<int>, r2: seq<int>)
    requires Ascending(r1) && Ascending(r2) && multiset(r1) == multiset(r2)
    ensures r1 == r2
  {
    if r1 != [] {
      SameHead(r1, r2);
      DropHead(r1);
      DropHead(r2);
      AscendingTail(r1);
      AscendingTail(r2);
      AscendingUnique(r1[1..], r2[1..]);
      assert r1 == [r1[0]] + r1[1..] && r2 == [r2[0]] + r2[1..];
    }
  }

  /** Two ascending sequences holding the same elements start with the same element. */
  lemma SameHead(r1: seq<int>, r2: seq<int>)
    requires Ascending(r1) && Ascending(r2) && multiset(r1) == multiset(r2) && r1 != []
    ensures r2 != [] && r1[0] == r2[0]
  {
    assert r1[0] in multiset(r1);
    assert r2 != [];
    assert r2[0] in multiset(r2);
    AscendingHead(r1, r2[0]);
    AscendingHead(r2, r1[0]);
  }

  /** The elements after the first are the elements less one copy of the first. */
  lemma DropHead(s: seq<int>)
    requires s != []
    ensures multiset(s[1..]) == multiset(s) - multiset{s[0]}
  {
    assert s == [s[0]] + s[1..];
  }

  /** No element of a sequence without repeats occurs more than once. */
  lemma {:induction false} DistinctCounts<T>(s: seq<T>)
    requires Distinct(s)
    ensures forall x :: multiset(s)[x] <= 1
  {
    if s != [] {
      assert s == [s[0]] + s[1..];
      DistinctSlice(s, 1, |s|);
      assert s[1..|s|] == s[1..];
      DistinctCounts(s[1..]);
      DistinctOnce(s, 0);
    }
  }

  /** A rearrangement of a sequence without repeats has no repeats. */
  lemma DistinctPermutation<T>(s: seq<T>, t: seq<T>)
    requires Distinct(s) && multiset(s) == multiset(t)
    ensures Distinct(t)
  {
    DistinctCounts(s);
    forall i, j | 0 <= i < j < |t| ensures Differ(t, i, j) {
      var before, after := t[..j], t[j..];
      assert t == before + after;
      assert before[i] == t[i] && after[0] == t[j];
      assert multiset(t)[t[j]] == multiset(before)[t[j]] + multiset(after)[t[j]];
    }
  }

  /**
   * The sum of the entries of d at the positions listed in `order`, accumulated from the front
   * (a position outside d adds nothing).
   */
  function SumAt(d: seq<int>, order: seq<int>): int
  {
    if order == [] then 0
    else
      var x := order[|order| - 1];
      SumAt(d, order[..|order| - 1]) + (if 0 <= x < |d| then d[x] else 0)
  }

  /** Summing over two lists of positions one after the other. */
  lemma {:induction false} SumAtConcat(d: seq<int>, a: seq<int>, b: seq<int>)
    requires AllBelow(a, |d|) && AllBelow(b, |d|)
    ensures AllBelow(a + b, |d|) && SumAt(d, a + b) == SumAt(d, a) + SumAt(d, b)
  {
    if b != [] {
      SumAtConcat(d, a, b[..|b| - 1]);
      assert (a + b)[..|a + b| - 1] == a + b[..|b| - 1];
    } else {
      assert a + b == a;
    }
  }

  /** Taking one position out of a list without repeats leaves the others, still without repeats. */
  lemma RemoveAt(order: seq<int>, k: int)
    requires Distinct(order) && 0 <= k < |order|
    ensures var rest := order[..k] + order[k + 1..];
      Distinct(rest) && forall x :: x in rest <==> x in order && x != order[k]
  {
    var rest := order[..k] + order[k + 1..];
    forall a, b | 0 <= a < b < |rest| ensures Differ(rest, a, b) {
      var a' := if a < k then a else a + 1;
      var b' := if b < k then b else b + 1;
      assert rest[a] == order[a'] && rest[b] == order[b'];
      DistinctAt(order, a', b');
    }
    forall x | x in rest ensures x != order[k] {
      var a :| 0 <= a < |rest| && rest[a] == x;
      var a' := if a < k then a else a + 1;
      assert rest[a] == order[a'];
      DistinctAt(order, a', k);
    }
    assert order == order[..k] + [order[k]] + order[k + 1..];
  }

  /** The sum over a list is the entry at one of its positions plus the sum over the others. */
  lemma SumAtRemove(d: seq<int>, order: seq<int>, k: int)
    requires AllBelow(order, |d|) && 0 <= k < |order|
    ensures AllBelow(order[..k] + order[k + 1..], |d|)
    ensures SumAt(d, order) == SumAt(d, order[..k] + order[k + 1..]) + d[order[k]]
  {
    assert order == order[..k] + [order[k]] + order[k + 1..];
    SumAtConcat(d, order[..k], [order[k]]);
    SumAtConcat(d, order[..k] + [order[k]], order[k + 1..]);
    SumAtConcat(d, order[..k], order[k + 1..]);
    assert SumAt(d, [order[k]]) == d[order[k]] by {
      assert [order[k]][..0] == [];
    }
  }

  /** Summing over the positions 0..n-1 in any order, each exactly once, gives the sum of the first n entries. */
  lemma {:induction false} CoverSum(d: seq<int>, order: seq<int>, n: nat)
    requires n <= |d| && Distinct(order)
    requires forall x :: x in order <==> 0 <= x < n
    ensures AllBelow(order, |d|) && SumAt(d, order) == Sum(d[..n])
    decreases n
  {
    assert AllBelow(order, |d|) by {
      forall i | 0 <= i < |order| ensures 0 <= order[i] < |d| {
        assert order[i] in order;
      }
    }
    assert |order| > 0 ==> order[0] in order;
    if n != 0 {
      assert n - 1 in order;
      var k :| 0 <= k < |order| && order[k] == n - 1;
      RemoveAt(order, k);
      CoverSum(d, order[..k] + order[k + 1..], n - 1);
      SumAtRemove(d, order, k);
      assert d[..n][..n - 1] == d[..n - 1];
    }
  }
}
