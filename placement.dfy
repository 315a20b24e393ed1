/** Competition placement with averaged ties, the arithmetic shared by the
    Green round-goal scorer and the nectar scorer: players sorted by a
    count, a tie group of k players starting at 0-based place p shares the
    place values of places p..p+k-1, floor-divided by k. */
module Placement {

  /** Number of elements of `s` whose key exceeds `c`. */
  function CountGreater<T>(s: seq<T>, key: T -> int, c: int): nat
  {
    if s == [] then 0
    else CountGreater(s[..|s| - 1], key, c) + (if key(s[|s| - 1]) > c then 1 else 0)
  }

  lemma {:induction false} CountGreaterAntitone<T>(s: seq<T>, key: T -> int, c: int, d: int)
    requires c <= d
    ensures CountGreater(s, key, d) <= CountGreater(s, key, c)
  {
    if s != [] { CountGreaterAntitone(s[..|s| - 1], key, c, d); }
  }

  /** Number of elements of `s` whose key is exactly `c`. */
  function CountEqual<T>(s: seq<T>, key: T -> int, c: int): nat
  {
    CountGreaterAntitone(s, key, c - 1, c);
    CountGreater(s, key, c - 1) - CountGreater(s, key, c)
  }

  lemma {:induction false} CountGreaterAppend<T>(a: seq<T>, b: seq<T>, key: T -> int, c: int)
    ensures CountGreater(a + b, key, c) == CountGreater(a, key, c) + CountGreater(b, key, c)
  {
    if b != [] {
      assert (a + b)[..|a + b| - 1] == a + b[..|b| - 1];
      CountGreaterAppend(a, b[..|b| - 1], key, c);
    } else {
      assert a + b == a;
    }
  }

  lemma CountEqualAppend<T>(a: seq<T>, b: seq<T>, key: T -> int, c: int)
    ensures CountEqual(a + b, key, c) == CountEqual(a, key, c) + CountEqual(b, key, c)
  {
    CountGreaterAppend(a, b, key, c);
    CountGreaterAppend(a, b, key, c - 1);
  }

  /** The counts depend only on the multiset of elements. */
  lemma {:induction false} CountGreaterPermutation<T>(s: seq<T>, t: seq<T>, key: T -> int, c: int)
    requires multiset(s) == multiset(t)
    ensures CountGreater(s, key, c) == CountGreater(t, key, c)
    decreases |s|
  {
    if s != [] {
      var x := s[|s| - 1];
      assert x in multiset(t);
      var k :| 0 <= k < |t| && t[k] == x;
      var rest := t[..k] + t[k + 1..];
      assert t == t[..k] + [x] + t[k + 1..];
      assert s == s[..|s| - 1] + [x];
      assert multiset(rest) == multiset(t) - multiset{x};
      assert multiset(s[..|s| - 1]) == multiset(s) - multiset{x};
      CountGreaterPermutation(s[..|s| - 1], rest, key, c);
      CountGreaterAppend(t[..k] + [x], t[k + 1..], key, c);
      CountGreaterAppend(t[..k], [x], key, c);
      CountGreaterAppend(t[..k], t[k + 1..], key, c);
      assert [x][..0] == [];
    } else {
      assert t == [];
    }
  }

  lemma CountEqualPermutation<T>(s: seq<T>, t: seq<T>, key: T -> int, c: int)
    requires multiset(s) == multiset(t)
    ensures CountEqual(s, key, c) == CountEqual(t, key, c)
  {
    CountGreaterPermutation(s, t, key, c);
    CountGreaterPermutation(s, t, key, c - 1);
  }

  /** Every element counts in the group of its own key. */
  lemma {:induction false} CountEqualMember<T>(s: seq<T>, key: T -> int, i: nat)
    requires i < |s|
    ensures CountEqual(s, key, key(s[i])) >= 1
  {
    var c := key(s[i]);
    assert s == s[..i] + [s[i]] + s[i + 1..];
    CountEqualAppend(s[..i] + [s[i]], s[i + 1..], key, c);
    CountEqualAppend(s[..i], [s[i]], key, c);
    assert [s[i]][..0] == [];
  }

  /** Sorted by key, largest first. */
  ghost predicate Descending<T>(s: seq<T>, key: T -> int)
  {
    forall i, j :: 0 <= i < j < |s| ==> key(s[i]) >= key(s[j])
  }

  /** `[p, q)` is a whole tie group of `s`: every key in it is `key(s[p])`,
      and the neighbours on either side differ. */
  ghost predicate TieGroup<T>(s: seq<T>, key: T -> int, p: nat, q: nat)
  {
    && p < q <= |s|
    && (forall i :: p <= i < q ==> key(s[i]) == key(s[p]))
    && (p > 0 ==> key(s[p - 1]) != key(s[p]))
    && (q < |s| ==> key(s[q]) != key(s[p]))
  }

  lemma {:induction false} CountGreaterAll<T>(s: seq<T>, key: T -> int, c: int)
    requires forall i :: 0 <= i < |s| ==> key(s[i]) > c
    ensures CountGreater(s, key, c) == |s|
  {
    if s != [] { CountGreaterAll(s[..|s| - 1], key, c); }
  }

  lemma {:induction false} CountGreaterNone<T>(s: seq<T>, key: T -> int, c: int)
    requires forall i :: 0 <= i < |s| ==> key(s[i]) <= c
    ensures CountGreater(s, key, c) == 0
  {
    if s != [] { CountGreaterNone(s[..|s| - 1], key, c); }
  }

  /** The counts only look at the keys. */
  lemma {:induction false} CountGreaterSameKeys<T>(s: seq<T>, t: seq<T>, key: T -> int, c: int)
    requires |s| == |t| && forall i :: 0 <= i < |s| ==> key(s[i]) == key(t[i])
    ensures CountGreater(s, key, c) == CountGreater(t, key, c)
  {
    if s != [] { CountGreaterSameKeys(s[..|s| - 1], t[..|t| - 1], key, c); }
  }

  lemma CountGreaterThree<T>(s: seq<T>, key: T -> int, p: nat, q: nat, c: int)
    requires p <= q <= |s|
    ensures CountGreater(s, key, c) == CountGreater(s[..p], key, c) + CountGreater(s[p..q], key, c) + CountGreater(s[q..], key, c)
  {
    assert s == s[..p] + s[p..q] + s[q..];
    CountGreaterAppend(s[..p] + s[p..q], s[q..], key, c);
    CountGreaterAppend(s[..p], s[p..q], key, c);
  }

  /** In a descending sequence, a tie group starting at place `p` has `p`
      players strictly ahead of it and `q - p` members. */
  lemma TieGroupCounts<T>(s: seq<T>, key: T -> int, p: nat, q: nat)
    requires Descending(s, key) && TieGroup(s, key, p, q)
    ensures CountGreater(s, key, key(s[p])) == p
    ensures CountEqual(s, key, key(s[p])) == q - p
  {
    TieGroupBounds(s, key, p, q);
    TieGroupAbove(s, key, p, q, key(s[p]));
    TieGroupAbove(s, key, p, q, key(s[p]) - 1);
  }

  /** In a descending sequence, everyone ahead of a tie group has a higher
      key and everyone behind it a lower one. */
  lemma TieGroupBounds<T>(s: seq<T>, key: T -> int, p: nat, q: nat)
    requires Descending(s, key) && TieGroup(s, key, p, q)
    ensures forall i :: 0 <= i < p ==> key(s[i]) > key(s[p])
    ensures forall i :: q <= i < |s| ==> key(s[i]) < key(s[p])
  {
    forall i | 0 <= i < p ensures key(s[i]) > key(s[p]) {
      assert key(s[i]) >= key(s[p - 1]) >= key(s[p]);
    }
    forall i | q <= i < |s| ensures key(s[i]) < key(s[p]) {
      assert key(s[i]) <= key(s[q]) <= key(s[p]);
    }
  }

  /** Counting above `c`, with `c` the group's key or one less: the players
      ahead always count, the group's members count only below their key,
      and the players behind never do. */
  lemma TieGroupAbove<T>(s: seq<T>, key: T -> int, p: nat, q: nat, c: int)
    requires TieGroup(s, key, p, q)
    requires forall i :: 0 <= i < p ==> key(s[i]) > key(s[p])
    requires forall i :: q <= i < |s| ==> key(s[i]) < key(s[p])
    requires c == key(s[p]) || c == key(s[p]) - 1
    ensures CountGreater(s, key, c) == p + (if c < key(s[p]) then q - p else 0)
  {
    OutsideGroup(s, key, p, q, c);
    var group := s[p..q];
    if c < key(s[p]) {
      forall i | 0 <= i < |group| ensures key(group[i]) > c {
        assert group[i] == s[p + i];
      }
      CountGreaterAll(group, key, c);
    } else {
      forall i | 0 <= i < |group| ensures key(group[i]) <= c {
        assert group[i] == s[p + i];
      }
      CountGreaterNone(group, key, c);
    }
  }

  /** Everyone ahead of places `p .. q - 1` counts above `c` and nobody
      behind them does. */
  lemma OutsideGroup<T>(s: seq<T>, key: T -> int, p: nat, q: nat, c: int)
    requires p <= q <= |s|
    requires forall i :: 0 <= i < p ==> key(s[i]) > c
    requires forall i :: q <= i < |s| ==> key(s[i]) <= c
    ensures CountGreater(s, key, c) == p + CountGreater(s[p..q], key, c)
  {
    var ahead, behind := s[..p], s[q..];
    forall i | 0 <= i < |ahead| ensures key(ahead[i]) > c {
      assert ahead[i] == s[i];
    }
    forall i | 0 <= i < |behind| ensures key(behind[i]) <= c {
      assert behind[i] == s[q + i];
    }
    CountGreaterThree(s, key, p, q, c);
    CountGreaterAll(ahead, key, c);
    CountGreaterNone(behind, key, c);
  }

  // ---------------------------------------------------------------------
  // Place values

  /** The place value of 0-based place `i`; places past the table score 0. */
  function PlaceValue(values: seq<nat>, i: nat): nat
  {
    if i < |values| then values[i] else 0
  }

  /** Sum of the place values of places `start .. start + k - 1`. */
  function SpanSum(values: seq<nat>, start: nat, k: nat): nat
    decreases k
  {
    if k == 0 then 0 else SpanSum(values, start, k - 1) + PlaceValue(values, start + k - 1)
  }

  /** What each member of a `k`-way tie at place `start` receives. */
  function Share(values: seq<nat>, start: nat, k: nat): nat
    requires k > 0
  {
    SpanSum(values, start, k) / k
  }

  lemma {:induction false} SpanSumSplit(values: seq<nat>, start: nat, j: nat, k: nat)
    ensures SpanSum(values, start, j) + SpanSum(values, start + j, k) == SpanSum(values, start, j + k)
    decreases k
  {
    if k > 0 { SpanSumSplit(values, start, j, k - 1); }
  }

  /** A span never sums to more than the whole table. */
  lemma {:induction false} SpanSumAtMostTable(values: seq<nat>, start: nat, k: nat)
    ensures SpanSum(values, start, k) <= SpanSum(values, 0, |values|)
    decreases k
  {
    if k == 0 {
    } else if start >= |values| {
      SpanSumBeyond(values, start, k);
    } else if start + k > |values| {
      SpanSumSplit(values, start, |values| - start, start + k - |values|);
      SpanSumBeyond(values, |values|, start + k - |values|);
      SpanSumSplit(values, 0, start, |values| - start);
    } else {
      SpanSumSplit(values, 0, start, k);
      SpanSumSplit(values, 0, start + k, |values| - start - k);
    }
  }

  lemma {:induction false} SpanSumBeyond(values: seq<nat>, start: nat, k: nat)
    requires start >= |values|
    ensures SpanSum(values, start, k) == 0
    decreases k
  {
    if k > 0 { SpanSumBeyond(values, start, k - 1); }
  }

  /** A group's members together receive at most the group's places. */
  lemma ShareTimesSize(values: seq<nat>, start: nat, k: nat)
    requires k > 0
    ensures k * Share(values, start, k) <= SpanSum(values, start, k)
  {
  }

  /** What a player whose key is `c` receives when the field is `base`. */
  function ShareFor<T>(values: seq<nat>, base: seq<T>, key: T -> int, c: int): nat
  {
    var k := CountEqual(base, key, c);
    if k == 0 then 0 else Share(values, CountGreater(base, key, c), k)
  }

  /** The shares received by the players of `s`, each scored against the
      field `base`, added up. */
  function SharesOf<T>(values: seq<nat>, base: seq<T>, key: T -> int, s: seq<T>): nat
  {
    if s == [] then 0 else SharesOf(values, base, key, s[..|s| - 1]) + ShareFor(values, base, key, key(s[|s| - 1]))
  }

  lemma ShareForPermutation<T>(values: seq<nat>, base: seq<T>, base': seq<T>, key: T -> int, c: int)
    requires multiset(base) == multiset(base')
    ensures ShareFor(values, base, key, c) == ShareFor(values, base', key, c)
  {
    CountGreaterPermutation(base, base', key, c);
    CountEqualPermutation(base, base', key, c);
  }

  /** Two fields with the same keys, place by place, award the same shares. */
  lemma ShareForSameKeys<T>(values: seq<nat>, base: seq<T>, base': seq<T>, key: T -> int, c: int)
    requires |base| == |base'| && forall i :: 0 <= i < |base| ==> key(base[i]) == key(base'[i])
    ensures ShareFor(values, base, key, c) == ShareFor(values, base', key, c)
  {
    CountGreaterSameKeys(base, base', key, c);
    CountGreaterSameKeys(base, base', key, c - 1);
  }

  /** Every member of the tie group `[p, q)` of a descending arrangement of
      the field receives the share of places `p .. q - 1`. */
  lemma GroupShare<T>(values: seq<nat>, s: seq<T>, base: seq<T>, key: T -> int, p: nat, q: nat)
    requires Descending(s, key) && TieGroup(s, key, p, q)
    requires multiset(s) == multiset(base)
    ensures ShareFor(values, base, key, key(s[p])) == Share(values, p, q - p)
  {
    TieGroupCounts(s, key, p, q);
    ShareForPermutation(values, s, base, key, key(s[p]));
  }

  lemma {:induction false} SharesOfAppend<T>(values: seq<nat>, base: seq<T>, key: T -> int, a: seq<T>, b: seq<T>)
    ensures SharesOf(values, base, key, a + b) == SharesOf(values, base, key, a) + SharesOf(values, base, key, b)
  {
    if b != [] {
      assert (a + b)[..|a + b| - 1] == a + b[..|b| - 1];
      SharesOfAppend(values, base, key, a, b[..|b| - 1]);
    } else {
      assert a + b == a;
    }
  }

  lemma {:induction false} SharesOfPermutation<T>(values: seq<nat>, base: seq<T>, key: T -> int, s: seq<T>, t: seq<T>)
    requires multiset(s) == multiset(t)
    ensures SharesOf(values, base, key, s) == SharesOf(values, base, key, t)
    decreases |s|
  {
    if s != [] {
      var x := s[|s| - 1];
      assert x in multiset(t);
      var k :| 0 <= k < |t| && t[k] == x;
      var rest := t[..k] + t[k + 1..];
      assert t == t[..k] + [x] + t[k + 1..];
      assert s == s[..|s| - 1] + [x];
      assert multiset(rest) == multiset(t) - multiset{x};
      assert multiset(s[..|s| - 1]) == multiset(s) - multiset{x};
      SharesOfPermutation(values, base, key, s[..|s| - 1], rest);
      SharesOfAppend(values, base, key, t[..k] + [x], t[k + 1..]);
      SharesOfAppend(values, base, key, t[..k], [x]);
      SharesOfAppend(values, base, key, t[..k], t[k + 1..]);
      assert [x][..0] == [];
    } else {
      assert t == [];
    }
  }

  /** First place of the tie group that holds place `i`. */
  function GroupStart<T>(s: seq<T>, key: T -> int, i: nat): (g: nat)
    requires i < |s|
    ensures g <= i && forall j :: g <= j <= i ==> key(s[j]) == key(s[i])
    ensures g > 0 ==> key(s[g - 1]) != key(s[g])
  {
    if i == 0 || key(s[i - 1]) != key(s[i]) then i else GroupStart(s, key, i - 1)
  }

  lemma ShareForGroup<T>(values: seq<nat>, s: seq<T>, key: T -> int, p: nat, q: nat, i: nat)
    requires Descending(s, key) && TieGroup(s, key, p, q) && p <= i < q
    ensures ShareFor(values, s, key, key(s[i])) == Share(values, p, q - p)
  {
    TieGroupCounts(s, key, p, q);
    assert key(s[i]) == key(s[p]);
  }

  lemma MulStep(k: nat, m: nat)
    requires k > 0
    ensures (k - 1) * m + m == k * m
  {
  }

  /** Every member of a group gets that group's share `sh`. */
  lemma {:induction false} SharesOverGroup<T>(values: seq<nat>, s: seq<T>, key: T -> int, p: nat, q: nat, r: nat, sh: nat)
    requires TieGroup(s, key, p, q) && p <= r <= q
    requires ShareFor(values, s, key, key(s[p])) == sh
    ensures SharesOf(values, s, key, s[..r]) == SharesOf(values, s, key, s[..p]) + (r - p) * sh
    decreases r
  {
    if r > p {
      SharesOverGroup(values, s, key, p, q, r - 1, sh);
      SharesOfSnoc(values, s, key, r);
      assert key(s[r - 1]) == key(s[p]);
      MulStep(r - p, sh);
    }
  }

  lemma SharesOfSnoc<T>(values: seq<nat>, s: seq<T>, key: T -> int, r: nat)
    requires 0 < r <= |s|
    ensures SharesOf(values, s, key, s[..r]) == SharesOf(values, s, key, s[..r - 1]) + ShareFor(values, s, key, key(s[r - 1]))
  {
    var prefix := s[..r];
    assert prefix[..|prefix| - 1] == s[..r - 1];
  }

  /** The players of a descending sequence never receive more than their
      places hold: each tie group loses at most its division remainder. */
  lemma {:induction false} SharesAtMostPlaces<T>(values: seq<nat>, s: seq<T>, key: T -> int, q: nat)
    requires Descending(s, key) && q <= |s|
    requires q == |s| || q == 0 || key(s[q - 1]) != key(s[q])
    ensures SharesOf(values, s, key, s[..q]) <= SpanSum(values, 0, q)
    decreases q
  {
    if q > 0 {
      var p := GroupStart(s, key, q - 1);
      assert TieGroup(s, key, p, q);
      SharesAtMostPlaces(values, s, key, p);
      ShareForGroup(values, s, key, p, q, p);
      SharesOverGroup(values, s, key, p, q, q, Share(values, p, q - p));
      ShareTimesSize(values, p, q - p);
      SpanSumSplit(values, 0, p, q - p);
    }
  }

  // ---------------------------------------------------------------------
  // A descending arrangement of any field, to reason about sums of shares

  function InsertDescending<T>(x: T, s: seq<T>, key: T -> int): (r: seq<T>)
  {
    if s == [] || key(x) >= key(s[0]) then [x] + s else [s[0]] + InsertDescending(x, s[1..], key)
  }

  function SortDescending<T>(s: seq<T>, key: T -> int): seq<T>
  {
    if s == [] then [] else InsertDescending(s[0], SortDescending(s[1..], key), key)
  }

  lemma {:induction false} InsertDescendingFacts<T>(x: T, s: seq<T>, key: T -> int)
    requires Descending(s, key)
    ensures multiset(InsertDescending(x, s, key)) == multiset(s) + multiset{x}
    ensures Descending(InsertDescending(x, s, key), key)
    ensures |InsertDescending(x, s, key)| == |s| + 1
    ensures InsertDescending(x, s, key)[0] == x || InsertDescending(x, s, key)[0] == s[0]
  {
    InsertDescendingContents(x, s, key);
    if s == [] || key(x) >= key(s[0]) {
      ConsDescending(x, s, key);
    } else {
      var rest := s[1..];
      DescendingTail(s, key);
      InsertDescendingFacts(x, rest, key);
      var t := InsertDescending(x, rest, key);
      assert rest != [] ==> key(s[0]) >= key(rest[0]);
      ConsDescending(s[0], t, key);
    }
  }

  lemma {:induction false} InsertDescendingContents<T>(x: T, s: seq<T>, key: T -> int)
    ensures multiset(InsertDescending(x, s, key)) == multiset(s) + multiset{x}
    ensures |InsertDescending(x, s, key)| == |s| + 1
    ensures InsertDescending(x, s, key)[0] == x || InsertDescending(x, s, key)[0] == s[0]
  {
    if s != [] && key(x) < key(s[0]) {
      InsertDescendingContents(x, s[1..], key);
      assert s == [s[0]] + s[1..];
    }
  }

  lemma DescendingTail<T>(s: seq<T>, key: T -> int)
    requires Descending(s, key) && s != []
    ensures Descending(s[1..], key)
  {
    forall i, j | 0 <= i < j < |s| - 1 ensures key(s[1..][i]) >= key(s[1..][j]) {
      assert s[1..][i] == s[i + 1] && s[1..][j] == s[j + 1];
    }
  }

  /** A descending sequence stays descending under a head no smaller than
      its first element. */
  lemma ConsDescending<T>(h: T, t: seq<T>, key: T -> int)
    requires Descending(t, key) && (t == [] || key(h) >= key(t[0]))
    ensures Descending([h] + t, key)
  {
    var r := [h] + t;
    forall i, j | 0 <= i < j < |r| ensures key(r[i]) >= key(r[j]) {
      assert r[j] == t[j - 1];
      if i == 0 {
        assert key(t[0]) >= key(t[j - 1]);
      } else {
        assert r[i] == t[i - 1];
      }
    }
  }

  lemma {:induction false} SortDescendingFacts<T>(s: seq<T>, key: T -> int)
    ensures multiset(SortDescending(s, key)) == multiset(s)
    ensures Descending(SortDescending(s, key), key)
  {
    if s != [] {
      SortDescendingFacts(s[1..], key);
      InsertDescendingFacts(s[0], SortDescending(s[1..], key), key);
      assert s == [s[0]] + s[1..];
    }
  }

  /** However a field is ordered, its players together receive at most the
      whole table: no tie split ever creates points. */
  lemma SharesAtMostTable<T>(values: seq<nat>, s: seq<T>, key: T -> int)
    ensures SharesOf(values, s, key, s) <= SpanSum(values, 0, |values|)
  {
    var d := SortDescending(s, key);
    SortDescendingFacts(s, key);
    SharesAtMostPlaces(values, d, key, |d|);
    assert d[..|d|] == d;
    SpanSumAtMostTable(values, 0, |d|);
    SharesOfPermutation(values, d, key, d, s);
    assert multiset(d) == multiset(s);
    forall x | x in s ensures ShareFor(values, d, key, key(x)) == ShareFor(values, s, key, key(x)) {
      ShareForPermutation(values, d, s, key, key(x));
    }
    SharesOfBaseSwap(values, d, s, key, s);
  }

  lemma {:induction false} SharesOfBaseSwap<T>(values: seq<nat>, base: seq<T>, base': seq<T>, key: T -> int, s: seq<T>)
    requires multiset(base) == multiset(base')
    ensures SharesOf(values, base, key, s) == SharesOf(values, base', key, s)
  {
    if s != [] {
      SharesOfBaseSwap(values, base, base', key, s[..|s| - 1]);
      ShareForPermutation(values, base, base', key, key(s[|s| - 1]));
    }
  }
}
