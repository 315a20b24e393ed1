/** Round-goal scoring (goals/scorer.go). Green: players ranked by count
    with competition ranks, each tie group sharing the floor average of
    the round's place values, a count of exactly 0 always scoring 0.
    Blue: every count clamped to 0..5. The source's input is a Go map,
    whose iteration order is unspecified; the model picks keys by choice. */
module RoundScorer {
  import opened Common
  import opened Placement

  datatype PlayerScore = PlayerScore(playerName: string, count: int, points: int, rank: int)

  function ScoreCount(p: PlayerScore): int { p.count }

  /** greenScoringRules: round -> 1-based place -> points. */
  const GreenScoringRules: map<int, map<int, int>> := map[
    1 := map[1 := 4, 2 := 1, 3 := 0],
    2 := map[1 := 5, 2 := 2, 3 := 0],
    3 := map[1 := 6, 2 := 3, 3 := 2],
    4 := map[1 := 7, 2 := 4, 3 := 2]]

  /** The round whose table is used: any round outside 1..4 falls back to 1. */
  function EffectiveRound(round: int): (r: int)
    ensures 1 <= r <= 4
    ensures 1 <= round <= 4 ==> r == round
    ensures !(1 <= round <= 4) ==> r == 1
  {
    if round < 1 || round > 4 then 1 else round
  }

  /** The round's place values, first place first. */
  function GreenPlaceValues(round: int): seq<nat>
  {
    match EffectiveRound(round)
    case 1 => [4, 1, 0]
    case 2 => [5, 2, 0]
    case 3 => [6, 3, 2]
    case 4 => [7, 4, 2]
  }

  /** The rules table and the place values agree, place by place. */
  lemma GreenRulesAreTable(round: int)
    ensures EffectiveRound(round) in GreenScoringRules
    ensures |GreenPlaceValues(round)| == 3
    ensures forall r :: r in GreenScoringRules[EffectiveRound(round)] <==> 1 <= r <= 3
    ensures forall r :: 1 <= r <= 3 ==> GreenScoringRules[EffectiveRound(round)][r] == GreenPlaceValues(round)[r - 1]
  {
  }

  /** What the Green side awards a player on `c` in the field `field`: 0 for
      a count of exactly 0, otherwise the floor-averaged share of the places
      the player's tie group covers. */
  function GreenPoints(values: seq<nat>, field: seq<PlayerScore>, c: int): nat
  {
    if c == 0 then 0 else ShareFor(values, field, ScoreCount, c)
  }

  /** One-based rank of a count in the field: 1 plus the number of
      players with a higher count. */
  function GreenRank(field: seq<PlayerScore>, c: int): nat
  {
    1 + CountGreater(field, ScoreCount, c)
  }

  // ---------------------------------------------------------------------
  // Collecting the map's entries

  /** `scores` lists every entry of `playerCounts`, each name once. */
  ghost predicate ListsEntries(scores: seq<PlayerScore>, playerCounts: map<string, int>)
  {
    && |scores| == |playerCounts|
    && (forall i :: 0 <= i < |scores| ==>
          scores[i].playerName in playerCounts && scores[i].count == playerCounts[scores[i].playerName])
    && (forall name :: name in playerCounts ==> exists i :: 0 <= i < |scores| && scores[i].playerName == name)
    && (forall i, j :: 0 <= i < j < |scores| ==> scores[i].playerName != scores[j].playerName)
  }

  /** The loop `for name, count := range playerCounts`: appends one record
      per entry, in an order the model leaves open; `points` gives each
      record's points. */
  method CollectEntries(playerCounts: map<string, int>, points: int -> int) returns (scores: seq<PlayerScore>)
    ensures ListsEntries(scores, playerCounts)
    ensures forall i :: 0 <= i < |scores| ==> scores[i].points == points(scores[i].count) && scores[i].rank == 0
  {
    scores := [];
    var remaining := playerCounts.Keys;
    while remaining != {}
      invariant remaining <= playerCounts.Keys
      invariant |scores| + |remaining| == |playerCounts|
      invariant forall i :: 0 <= i < |scores| ==>
        && scores[i].playerName in playerCounts && scores[i].playerName !in remaining
        && scores[i].count == playerCounts[scores[i].playerName]
        && scores[i].points == points(scores[i].count) && scores[i].rank == 0
      invariant forall name :: name in playerCounts ==> name in remaining || exists i :: 0 <= i < |scores| && scores[i].playerName == name
      invariant forall i, j :: 0 <= i < j < |scores| ==> scores[i].playerName != scores[j].playerName
      decreases |remaining|
    {
      var name :| name in remaining;
      var count := playerCounts[name];
      ghost var before := scores;
      scores := scores + [PlayerScore(name, count, points(count), 0)];
      remaining := remaining - {name};
      forall n | n in playerCounts && n !in remaining
        ensures exists i :: 0 <= i < |scores| && scores[i].playerName == n
      {
        if n == name {
          assert scores[|scores| - 1].playerName == n;
        } else {
          var i :| 0 <= i < |before| && before[i].playerName == n;
          assert scores[i] == before[i];
        }
      }
    }
  }

  // ---------------------------------------------------------------------
  // Sorting the records

  /** The order both sides sort by: larger key first, then name ascending. */
  predicate KeyThenName(key: PlayerScore -> int, x: PlayerScore, y: PlayerScore)
  {
    if key(x) == key(y) then StrLess(x.playerName, y.playerName) else key(x) > key(y)
  }

  lemma KeyThenNameIsStrictWeakOrder(key: PlayerScore -> int)
    ensures forall x, y :: KeyThenName(key, x, y) ==> !KeyThenName(key, y, x)
    ensures forall x, y, z :: KeyThenName(key, x, z) ==> KeyThenName(key, x, y) || KeyThenName(key, y, z)
  {
    forall x: PlayerScore, y: PlayerScore ensures KeyThenName(key, x, y) ==> !KeyThenName(key, y, x) {
      StrLessAsymmetric(x.playerName, y.playerName);
    }
    forall x: PlayerScore, y: PlayerScore, z: PlayerScore | KeyThenName(key, x, z)
      ensures KeyThenName(key, x, y) || KeyThenName(key, y, z)
    {
      if key(x) == key(y) == key(z) {
        if !StrLess(x.playerName, y.playerName) && !StrLess(y.playerName, z.playerName) {
          if x.playerName != y.playerName { StrLessTotal(x.playerName, y.playerName); StrLessTransitive(y.playerName, x.playerName, z.playerName); }
          StrLessAsymmetric(y.playerName, z.playerName);
          if y.playerName != z.playerName { StrLessTotal(y.playerName, z.playerName); }
          else { StrLessIrreflexive(x.playerName); }
        }
      }
    }
  }

  /** Sorted under the order with distinct names: keys descend and every
      pair is strictly ordered. */
  lemma KeyThenNameSorted(s: seq<PlayerScore>, less: (PlayerScore, PlayerScore) -> bool, key: PlayerScore -> int)
    requires forall x, y :: less(x, y) == KeyThenName(key, x, y)
    requires SortedBy(s, less)
    requires forall i, j :: 0 <= i < j < |s| ==> s[i].playerName != s[j].playerName
    ensures Descending(s, key)
    ensures forall i, j :: 0 <= i < j < |s| ==> less(s[i], s[j])
  {
    forall i, j | 0 <= i < j < |s| ensures less(s[i], s[j]) && key(s[i]) >= key(s[j]) {
      assert !less(s[j], s[i]);
      if key(s[i]) == key(s[j]) { StrLessTotal(s[i].playerName, s[j].playerName); }
    }
  }

  /** Rearranging the collected records keeps them a listing of the map. */
  lemma ListsEntriesPermutation(s: seq<PlayerScore>, t: seq<PlayerScore>, playerCounts: map<string, int>, points: int -> int)
    requires ListsEntries(s, playerCounts)
    requires forall i :: 0 <= i < |s| ==> s[i].points == points(s[i].count) && s[i].rank == 0
    requires multiset(s) == multiset(t)
    ensures ListsEntries(t, playerCounts)
    ensures forall i :: 0 <= i < |t| ==> t[i].points == points(t[i].count) && t[i].rank == 0
  {
    assert |t| == |multiset(t)| == |multiset(s)| == |s|;
    forall i | 0 <= i < |t|
      ensures t[i].playerName in playerCounts && t[i].count == playerCounts[t[i].playerName]
      ensures t[i].points == points(t[i].count) && t[i].rank == 0
    {
      MultisetMember(s, t[i]);
    }
    forall name | name in playerCounts ensures exists i :: 0 <= i < |t| && t[i].playerName == name {
      var k :| 0 <= k < |s| && s[k].playerName == name;
      assert s[k] in multiset(t);
      MultisetMember(t, s[k]);
    }
    assert Distinct(s);
    DistinctPermutation(s, t);
  }

  /** Records with the same names and counts, place by place, list the
      same entries. */
  lemma ListsEntriesSameKeys(s: seq<PlayerScore>, t: seq<PlayerScore>, playerCounts: map<string, int>)
    requires ListsEntries(s, playerCounts)
    requires |s| == |t| && forall i :: 0 <= i < |s| ==> t[i].playerName == s[i].playerName && t[i].count == s[i].count
    ensures ListsEntries(t, playerCounts)
  {
    forall i | 0 <= i < |t| ensures t[i].playerName in playerCounts && t[i].count == playerCounts[t[i].playerName] {
      assert t[i].playerName == s[i].playerName;
    }
    forall name | name in playerCounts ensures exists i :: 0 <= i < |t| && t[i].playerName == name {
      var k :| 0 <= k < |s| && s[k].playerName == name;
      assert t[k].playerName == name;
    }
    forall i, j | 0 <= i < j < |t| ensures t[i].playerName != t[j].playerName {
      assert s[i].playerName != s[j].playerName;
    }
  }

  /** ...and stay in Green order. */
  lemma GreenOrderSameKeys(s: seq<PlayerScore>, t: seq<PlayerScore>)
    requires |s| == |t| && forall i :: 0 <= i < |s| ==> t[i].playerName == s[i].playerName && t[i].count == s[i].count
    requires forall i, j :: 0 <= i < j < |s| ==> GreenBefore(s[i], s[j])
    ensures forall i, j :: 0 <= i < j < |t| ==> GreenBefore(t[i], t[j])
  {
    forall i, j | 0 <= i < j < |t| ensures GreenBefore(t[i], t[j]) {
      assert GreenBefore(s[i], s[j]);
      assert ScoreCount(t[i]) == ScoreCount(s[i]) && ScoreCount(t[j]) == ScoreCount(s[j]);
    }
  }

  // ---------------------------------------------------------------------
  // Green

  /** The Green less function: higher count first, then name ascending. */
  predicate GreenBefore(x: PlayerScore, y: PlayerScore)
  {
    KeyThenName(ScoreCount, x, y)
  }

  /** CalculateGreenScores: the entries in Green order, each ranked one
      more than the number of players with a higher count and awarded its
      tie group's share of the round's place values, 0 for a count of 0. */
  method CalculateGreenScores(playerCounts: map<string, int>, round: int) returns (scores: seq<PlayerScore>)
    ensures ListsEntries(scores, playerCounts)
    ensures forall i, j :: 0 <= i < j < |scores| ==> GreenBefore(scores[i], scores[j])
    ensures forall i :: 0 <= i < |scores| ==> GreenScored(scores[i], scores, GreenPlaceValues(round))
  {
    var effective := round;
    if round < 1 || round > 4 {
      effective := 1;
    }
    var a := SortedEntries(playerCounts);
    ghost var sorted := a[..];
    AssignGreen(a, effective);
    scores := a[..];
    assert GreenPlaceValues(round) == GreenPlaceValues(effective) by {
      assert EffectiveRound(round) == EffectiveRound(effective);
    }
    forall k | 0 <= k < |scores|
      ensures scores[k].playerName == sorted[k].playerName && scores[k].count == sorted[k].count
      ensures GreenScored(scores[k], scores, GreenPlaceValues(round))
    {
      assert scores[k] == a[k];
    }
    ListsEntriesSameKeys(sorted, scores, playerCounts);
    GreenOrderSameKeys(sorted, scores);
  }

  /** The first half of CalculateGreenScores: the map's entries, scored
      0 and unranked, sorted in place under GreenBefore. */
  method SortedEntries(playerCounts: map<string, int>) returns (a: array<PlayerScore>)
    ensures fresh(a)
    ensures ListsEntries(a[..], playerCounts)
    ensures Descending(a[..], ScoreCount)
    ensures forall i, j :: 0 <= i < j < |a[..]| ==> GreenBefore(a[..][i], a[..][j])
  {
    var entries := CollectEntries(playerCounts, c => 0);
    a := new PlayerScore[|entries|](k requires 0 <= k < |entries| => entries[k]);
    assert a[..] == entries;
    KeyThenNameIsStrictWeakOrder(ScoreCount);
    SortInPlace(a, GreenBefore);
    ListsEntriesPermutation(entries, a[..], playerCounts, c => 0);
    KeyThenNameSorted(a[..], GreenBefore, ScoreCount);
  }

  /** `x` carries the rank and points its count earns in `field`. */
  ghost predicate GreenScored(x: PlayerScore, field: seq<PlayerScore>, values: seq<nat>)
  {
    x.rank == GreenRank(field, x.count) && x.points == GreenPoints(values, field, x.count)
  }

  /** The members of a tie group starting at 0-based place `p` rank `p + 1`
      and, unless their count is 0, share places `p .. q - 1`. */
  lemma GreenGroup(field: seq<PlayerScore>, values: seq<nat>, p: nat, q: nat)
    requires Descending(field, ScoreCount) && TieGroup(field, ScoreCount, p, q)
    ensures GreenRank(field, field[p].count) == p + 1
    ensures field[p].count != 0 ==> GreenPoints(values, field, field[p].count) == SpanSum(values, p, q - p) / (q - p)
  {
    TieGroupCounts(field, ScoreCount, p, q);
  }

  /** The ranking loop of CalculateGreenScores over the sorted records. */
  method AssignGreen(a: array<PlayerScore>, round: int)
    requires 1 <= round <= 4
    requires Descending(a[..], ScoreCount)
    modifies a
    ensures forall k :: 0 <= k < a.Length ==> a[k].playerName == old(a[k].playerName) && a[k].count == old(a[k].count)
    ensures forall k :: 0 <= k < a.Length ==> GreenScored(a[k], a[..], GreenPlaceValues(round))
  {
    ghost var sorted := a[..];
    var currentRank := 1;
    var i := 0;
    while i < a.Length
      invariant 0 <= i <= a.Length && currentRank == i + 1
      invariant 0 < i < a.Length ==> sorted[i - 1].count != sorted[i].count
      invariant forall k :: 0 <= k < i ==>
        a[k].playerName == sorted[k].playerName && a[k].count == sorted[k].count && GreenScored(a[k], sorted, GreenPlaceValues(round))
      invariant forall k :: i <= k < a.Length ==> a[k] == sorted[k]
    {
      var numTied := ScoreGroup(a, i, currentRank, round, sorted);
      currentRank := currentRank + numTied;
      i := i + numTied;
    }
    CountGreaterAfterAssign(sorted, a[..], GreenPlaceValues(round));
  }

  /** One pass of the ranking loop: scores the tie group starting at `i`
      and returns its size. */
  method ScoreGroup(a: array<PlayerScore>, i: nat, currentRank: int, round: int, ghost sorted: seq<PlayerScore>) returns (numTied: nat)
    requires 1 <= round <= 4 && i < a.Length && currentRank == i + 1
    requires |sorted| == a.Length && Descending(sorted, ScoreCount)
    requires i > 0 ==> sorted[i - 1].count != sorted[i].count
    requires forall k :: i <= k < a.Length ==> a[k] == sorted[k]
    modifies a
    ensures i < i + numTied <= a.Length
    ensures i + numTied < a.Length ==> sorted[i + numTied - 1].count != sorted[i + numTied].count
    ensures forall k :: 0 <= k < i ==> a[k] == old(a[k])
    ensures forall k :: i <= k < i + numTied ==>
      a[k].playerName == sorted[k].playerName && a[k].count == sorted[k].count && GreenScored(a[k], sorted, GreenPlaceValues(round))
    ensures forall k :: i + numTied <= k < a.Length ==> a[k] == sorted[k]
  {
    var tied := TiedRun(a, i);
    numTied := |tied|;
    assert TieGroup(sorted, ScoreCount, i, i + numTied);
    if |tied| > 1 {
      ScoreTie(a, tied, i, currentRank, round, sorted);
    } else {
      ghost var values := GreenPlaceValues(round);
      GreenRulesAreTable(round);
      GreenGroup(sorted, values, i, i + 1);
      ScoreAlone(a, i, currentRank, round);
      assert SpanSum(values, i, 1) == PlaceValue(values, i);
    }
  }

  /** The branch of the ranking loop for a tie of the players `tied`,
      the run of equal counts starting at `i`: the group's rank and the
      floor average of the places it spans. */
  method ScoreTie(a: array<PlayerScore>, tied: seq<int>, i: nat, currentRank: int, round: int, ghost sorted: seq<PlayerScore>)
    requires 1 <= round <= 4 && i < a.Length && currentRank == i + 1
    requires |sorted| == a.Length && Descending(sorted, ScoreCount)
    requires |tied| > 1 && TieGroup(sorted, ScoreCount, i, i + |tied|)
    requires forall t :: 0 <= t < |tied| ==> tied[t] == i + t
    requires forall k :: i <= k < a.Length ==> a[k] == sorted[k]
    modifies a
    ensures forall k :: 0 <= k < i ==> a[k] == old(a[k])
    ensures forall k :: i <= k < i + |tied| ==>
      a[k].playerName == sorted[k].playerName && a[k].count == sorted[k].count && GreenScored(a[k], sorted, GreenPlaceValues(round))
    ensures forall k :: i + |tied| <= k < a.Length ==> a[k] == sorted[k]
  {
    ghost var values := GreenPlaceValues(round);
    GreenGroup(sorted, values, i, i + |tied|);
    var totalPoints := TiePoints(round, currentRank, |tied|);
    var avgPoints := totalPoints / |tied|;
    WriteTie(a, tied, currentRank, avgPoints);
    forall k | i <= k < i + |tied| ensures GreenScored(a[k], sorted, values) {
      assert tied[k - i] == k;
      assert sorted[k].count == sorted[i].count;
    }
  }

  /** The branch of the ranking loop for a player tied with nobody: rank
      `currentRank` and, unless the count is 0, that place's value. */
  method ScoreAlone(a: array<PlayerScore>, i: nat, currentRank: int, round: int)
    requires 1 <= round <= 4 && i < a.Length && 1 <= currentRank
    modifies a
    ensures a[i] == old(a[i]).(rank := currentRank,
      points := if old(a[i]).count == 0 then 0 else PlaceValue(GreenPlaceValues(round), currentRank - 1))
    ensures forall k :: 0 <= k < a.Length && k != i ==> a[k] == old(a[k])
  {
    GreenRulesAreTable(round);
    a[i] := a[i].(rank := currentRank);
    if a[i].count == 0 {
      a[i] := a[i].(points := 0);
    } else if currentRank in GreenScoringRules[round] && currentRank <= 3 {
      a[i] := a[i].(points := GreenScoringRules[round][currentRank]);
    } else {
      a[i] := a[i].(points := 0);
    }
  }

  /** The assigned records have the sorted records' counts, so ranks and
      shares computed against either agree. */
  lemma CountGreaterAfterAssign(sorted: seq<PlayerScore>, t: seq<PlayerScore>, values: seq<nat>)
    requires |sorted| == |t| && forall k :: 0 <= k < |t| ==> t[k].count == sorted[k].count
    ensures forall c :: GreenRank(t, c) == GreenRank(sorted, c)
    ensures forall c :: GreenPoints(values, t, c) == GreenPoints(values, sorted, c)
    ensures forall x :: GreenScored(x, t, values) <==> GreenScored(x, sorted, values)
  {
    forall c ensures GreenRank(t, c) == GreenRank(sorted, c) && GreenPoints(values, t, c) == GreenPoints(values, sorted, c) {
      CountGreaterSameKeys(t, sorted, ScoreCount, c);
      ShareForSameKeys(values, t, sorted, ScoreCount, c);
    }
  }

  /** The indices of the players tied with player `i`: `i` and the run of
      equal counts after it. */
  method TiedRun(a: array<PlayerScore>, i: nat) returns (tied: seq<int>)
    requires i < a.Length
    ensures 1 <= |tied| && i + |tied| <= a.Length
    ensures forall t :: 0 <= t < |tied| ==> tied[t] == i + t
    ensures forall k :: i <= k < i + |tied| ==> a[k].count == a[i].count
    ensures i + |tied| < a.Length ==> a[i + |tied|].count != a[i].count
  {
    tied := [i];
    var j := i + 1;
    while j < a.Length && a[j].count == a[i].count
      invariant i + 1 <= j <= a.Length && |tied| == j - i
      invariant forall t :: 0 <= t < |tied| ==> tied[t] == i + t
      invariant forall k :: i <= k < j ==> a[k].count == a[i].count
    {
      tied := tied + [j];
      j := j + 1;
    }
  }

  /** The points of places `currentRank .. currentRank + numTied - 1` of
      the round's table, places past the third counting nothing. */
  method TiePoints(round: int, currentRank: int, numTied: nat) returns (totalPoints: int)
    requires 1 <= round <= 4 && 1 <= currentRank
    ensures totalPoints == SpanSum(GreenPlaceValues(round), currentRank - 1, numTied)
  {
    ghost var values := GreenPlaceValues(round);
    GreenRulesAreTable(round);
    totalPoints := 0;
    var r := currentRank;
    while r < currentRank + numTied && r <= 3
      invariant currentRank <= r <= currentRank + numTied
      invariant totalPoints == SpanSum(values, currentRank - 1, r - currentRank)
    {
      if r in GreenScoringRules[round] {
        totalPoints := totalPoints + GreenScoringRules[round][r];
      }
      r := r + 1;
    }
    if r < currentRank + numTied {
      SpanSumSplit(values, currentRank - 1, r - currentRank, currentRank + numTied - r);
      SpanSumBeyond(values, r - 1, currentRank + numTied - r);
    }
  }

  /** Gives every tied player the group's rank and the averaged points,
      except that a count of 0 scores 0. */
  method WriteTie(a: array<PlayerScore>, tied: seq<int>, currentRank: int, avgPoints: int)
    requires forall t :: 0 <= t < |tied| ==> 0 <= tied[t] < a.Length
    requires forall t, u :: 0 <= t < u < |tied| ==> tied[t] != tied[u]
    modifies a
    ensures forall k :: 0 <= k < a.Length ==>
      a[k] == (if k in tied then old(a[k]).(rank := currentRank, points := if old(a[k]).count == 0 then 0 else avgPoints) else old(a[k]))
  {
    for t := 0 to |tied|
      invariant forall k :: 0 <= k < a.Length ==>
        a[k] == (if k in tied[..t] then old(a[k]).(rank := currentRank, points := if old(a[k]).count == 0 then 0 else avgPoints) else old(a[k]))
    {
      var idx := tied[t];
      assert idx !in tied[..t];
      a[idx] := a[idx].(rank := currentRank);
      if a[idx].count == 0 {
        a[idx] := a[idx].(points := 0);
      } else {
        a[idx] := a[idx].(points := avgPoints);
      }
      assert tied[..t + 1] == tied[..t] + [idx];
    }
    assert tied[..|tied|] == tied;
  }

  // ---------------------------------------------------------------------
  // What the Green result promises

  /** Points of the records, added up. */
  function PointsSum(s: seq<PlayerScore>): int
  {
    if s == [] then 0 else PointsSum(s[..|s| - 1]) + s[|s| - 1].points
  }

  lemma {:induction false} PointsAtMostShares(field: seq<PlayerScore>, values: seq<nat>, s: seq<PlayerScore>)
    requires forall i :: 0 <= i < |s| ==> GreenScored(s[i], field, values)
    ensures PointsSum(s) <= SharesOf(values, field, ScoreCount, s)
  {
    if s != [] {
      PointsAtMostShares(field, values, s[..|s| - 1]);
    }
  }

  /** The players together never receive more than the round's three
      place values: a tie's floor average can only lose points. */
  lemma GreenTotalAtMostTable(scores: seq<PlayerScore>, values: seq<nat>)
    requires forall i :: 0 <= i < |scores| ==> GreenScored(scores[i], scores, values)
    ensures PointsSum(scores) <= SpanSum(values, 0, |values|)
  {
    PointsAtMostShares(scores, values, scores);
    SharesAtMostTable(values, scores, ScoreCount);
  }

  /** Fourth place and below score nothing. */
  lemma GreenBeyondThirdScoresZero(field: seq<PlayerScore>, round: int, c: int)
    requires GreenRank(field, c) > 3
    ensures GreenPoints(GreenPlaceValues(round), field, c) == 0
  {
    GreenRulesAreTable(round);
    SpanSumBeyond(GreenPlaceValues(round), CountGreater(field, ScoreCount, c), CountEqual(field, ScoreCount, c));
  }

  /** A count held by some player ranks strictly ahead of every smaller count. */
  lemma GreenRankStrict(field: seq<PlayerScore>, i: nat, d: int)
    requires i < |field| && d < field[i].count
    ensures GreenRank(field, field[i].count) < GreenRank(field, d)
  {
    var c := field[i].count;
    CountEqualMember(field, ScoreCount, i);
    CountGreaterAntitone(field, ScoreCount, d, c - 1);
  }

  /** Two players share a rank exactly when their counts are equal, and the
      higher count has the better rank. */
  lemma GreenRanksFollowCounts(scores: seq<PlayerScore>, values: seq<nat>)
    requires forall i :: 0 <= i < |scores| ==> GreenScored(scores[i], scores, values)
    ensures forall i, j :: 0 <= i < |scores| && 0 <= j < |scores| ==>
      (scores[i].rank == scores[j].rank <==> scores[i].count == scores[j].count)
    ensures forall i, j :: 0 <= i < |scores| && 0 <= j < |scores| && scores[i].count > scores[j].count ==>
      scores[i].rank < scores[j].rank
  {
    forall i, j | 0 <= i < |scores| && 0 <= j < |scores|
      ensures scores[i].rank == scores[j].rank <==> scores[i].count == scores[j].count
      ensures scores[i].count > scores[j].count ==> scores[i].rank < scores[j].rank
    {
      if scores[i].count > scores[j].count {
        GreenRankStrict(scores, i, scores[j].count);
      } else if scores[j].count > scores[i].count {
        GreenRankStrict(scores, j, scores[i].count);
      }
    }
  }

  /** Round 3, counts 7, 4, 4, 1: first place takes 6, the two tied for
      second share (3 + 2) / 2 = 2, fourth place takes nothing. */
  lemma GreenExampleTieForSecond(scores: seq<PlayerScore>)
    requires |scores| == 4
    requires scores[0].count == 7 && scores[1].count == 4 && scores[2].count == 4 && scores[3].count == 1
    requires forall i :: 0 <= i < |scores| ==> GreenScored(scores[i], scores, GreenPlaceValues(3))
    ensures scores[0].rank == 1 && scores[1].rank == 2 && scores[2].rank == 2 && scores[3].rank == 4
    ensures scores[0].points == 6 && scores[1].points == 2 && scores[2].points == 2 && scores[3].points == 0
  {
    var values := GreenPlaceValues(3);
    assert Descending(scores, ScoreCount);
    assert TieGroup(scores, ScoreCount, 0, 1);
    GreenGroup(scores, values, 0, 1);
    assert TieGroup(scores, ScoreCount, 1, 3);
    GreenGroup(scores, values, 1, 3);
    assert TieGroup(scores, ScoreCount, 3, 4);
    GreenGroup(scores, values, 3, 4);
    assert SpanSum(values, 1, 2) == 5;
  }

  /** Round 3, counts 5, 0, 0: the two players on 0 share second place,
      whose places would be worth (3 + 2) / 2 = 2 each, and score 0. */
  lemma GreenExampleZeroCounts(scores: seq<PlayerScore>)
    requires |scores| == 3
    requires scores[0].count == 5 && scores[1].count == 0 && scores[2].count == 0
    requires forall i :: 0 <= i < |scores| ==> GreenScored(scores[i], scores, GreenPlaceValues(3))
    ensures scores[0].rank == 1 && scores[1].rank == 2 && scores[2].rank == 2
    ensures scores[0].points == 6 && scores[1].points == 0 && scores[2].points == 0
    ensures ShareFor(GreenPlaceValues(3), scores, ScoreCount, 0) == 2
  {
    var values := GreenPlaceValues(3);
    assert Descending(scores, ScoreCount);
    assert TieGroup(scores, ScoreCount, 0, 1);
    GreenGroup(scores, values, 0, 1);
    assert TieGroup(scores, ScoreCount, 1, 3);
    GreenGroup(scores, values, 1, 3);
    TieGroupCounts(scores, ScoreCount, 1, 3);
    assert SpanSum(values, 1, 2) == 5;
  }

  /** Round 3, counts 8, 8, 8, 2: three tied for first share
      (6 + 3 + 2) / 3 = 3 each. */
  lemma GreenExampleThreeWayTie(scores: seq<PlayerScore>)
    requires |scores| == 4
    requires scores[0].count == 8 && scores[1].count == 8 && scores[2].count == 8 && scores[3].count == 2
    requires forall i :: 0 <= i < |scores| ==> GreenScored(scores[i], scores, GreenPlaceValues(3))
    ensures scores[0].rank == 1 && scores[1].rank == 1 && scores[2].rank == 1 && scores[3].rank == 4
    ensures scores[0].points == 3 && scores[1].points == 3 && scores[2].points == 3 && scores[3].points == 0
  {
    var values := GreenPlaceValues(3);
    assert Descending(scores, ScoreCount);
    assert TieGroup(scores, ScoreCount, 0, 3);
    GreenGroup(scores, values, 0, 3);
    assert TieGroup(scores, ScoreCount, 3, 4);
    GreenGroup(scores, values, 3, 4);
  }

  // ---------------------------------------------------------------------
  // Blue

  function ScorePoints(p: PlayerScore): int { p.points }

  /** One point per item, at most 5, never below 0. */
  function BluePoints(count: int): (points: int)
    ensures 0 <= points <= 5
    ensures 0 <= count <= 5 ==> points == count
    ensures count >= 5 ==> points == 5
    ensures count <= 0 ==> points == 0
  {
    var points := if count > 5 then 5 else count;
    if points < 0 then 0 else points
  }

  /** The Blue less function: more points first, then name ascending. */
  predicate BlueBefore(x: PlayerScore, y: PlayerScore)
  {
    KeyThenName(ScorePoints, x, y)
  }

  /** CalculateBlueScores: every entry with its clamped count as points,
      unranked, in Blue order. */
  method CalculateBlueScores(playerCounts: map<string, int>) returns (scores: seq<PlayerScore>)
    ensures ListsEntries(scores, playerCounts)
    ensures forall i :: 0 <= i < |scores| ==> scores[i].points == BluePoints(scores[i].count) && scores[i].rank == 0
    ensures forall i, j :: 0 <= i < j < |scores| ==> BlueBefore(scores[i], scores[j])
  {
    var entries := CollectEntries(playerCounts, BluePoints);
    var a := new PlayerScore[|entries|](k requires 0 <= k < |entries| => entries[k]);
    assert a[..] == entries;
    KeyThenNameIsStrictWeakOrder(ScorePoints);
    SortInPlace(a, BlueBefore);
    scores := a[..];
    ListsEntriesPermutation(entries, scores, playerCounts, BluePoints);
    KeyThenNameSorted(scores, BlueBefore, ScorePoints);
  }

  /** More items never score fewer Blue points. */
  lemma BlueMonotone(c: int, d: int)
    requires c <= d
    ensures BluePoints(c) <= BluePoints(d)
  {
  }
}
