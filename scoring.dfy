/** End-of-game aggregation (scoring/scoring.go): the per-habitat nectar
    competition of the Oceania expansion, the per-player totals, and the
    final ranking with the unused-food tiebreaker. The caller's slice of
    players is an array updated in place, as in the source. */
module GameEnd {
  import opened Common
  import opened Placement

  /** One player's end-of-game sheet; `total` and `rank` are outputs. */
  datatype PlayerGameEnd = PlayerGameEnd(
    playerName: string,
    birdPoints: int,
    bonusCards: int,
    roundGoals: int,
    eggs: int,
    cachedFood: int,
    tuckedCards: int,
    nectarForest: int,
    nectarGrassland: int,
    nectarWetland: int,
    unusedFood: int,
    total: int,
    rank: int)

  /** Nectar points awarded per habitat, player name to points. */
  datatype NectarScoring = NectarScoring(forest: map<string, int>, grassland: map<string, int>, wetland: map<string, int>)

  const NoNectar := NectarScoring(map[], map[], map[])

  datatype Habitat = Forest | Grassland | Wetland

  /** The nectar a player holds in a habitat (the source's accessor closures). */
  function NectarIn(p: PlayerGameEnd, h: Habitat): int
  {
    match h
    case Forest => p.nectarForest
    case Grassland => p.nectarGrassland
    case Wetland => p.nectarWetland
  }

  /** What a missing key of a Go `map[string]int` reads as: zero. */
  function Award(m: map<string, int>, name: string): int
  {
    if name in m then m[name] else 0
  }

  /** The six printed components of a score sheet, added up. */
  function ComponentSum(p: PlayerGameEnd): int
  {
    p.birdPoints + p.bonusCards + p.roundGoals + p.eggs + p.cachedFood + p.tuckedCards
  }

  /** The total a player's sheet must show once nectar has been awarded. */
  function TotalFor(p: PlayerGameEnd, nectar: NectarScoring, includeOceania: bool): int
  {
    ComponentSum(p)
      + (if includeOceania
         then Award(nectar.forest, p.playerName) + Award(nectar.grassland, p.playerName) + Award(nectar.wetland, p.playerName)
         else 0)
  }

  // ---------------------------------------------------------------------
  // Nectar competition in one habitat

  /** A player with nectar in the habitat (the source's local `playerCount`). */
  datatype Contender = Contender(name: string, count: int)

  function ContenderCount(c: Contender): int { c.count }

  /** 1st = 5, 2nd = 2, every later place 0. */
  const NectarPlaceValues: seq<nat> := [5, 2]

  /** The players holding nectar in the habitat, in player order. */
  function Contenders(players: seq<PlayerGameEnd>, h: Habitat): (cs: seq<Contender>)
    ensures |cs| <= |players|
  {
    if players == [] then []
    else
      var last := players[|players| - 1];
      Contenders(players[..|players| - 1], h)
        + (if NectarIn(last, h) > 0 then [Contender(last.playerName, NectarIn(last, h))] else [])
  }

  function Names(cs: seq<Contender>): set<string>
  {
    set c | c in cs :: c.name
  }

  /** The smallest count listed under `name`. */
  function LowestCount(cs: seq<Contender>, name: string): (m: int)
    requires name in Names(cs)
    ensures Contender(name, m) in cs
    ensures forall c :: c in cs && c.name == name ==> m <= c.count
  {
    var last := cs[|cs| - 1];
    var init := cs[..|cs| - 1];
    assert cs == init + [last];
    if name in Names(init) then
      var m := LowestCount(init, name);
      if last.name == name && last.count < m then last.count else m
    else
      last.count
  }

  /** The points of every name listed in `s`, scored against the field `field`:
      a name listed more than once keeps the share of its lowest count. */
  function AwardsOver(field: seq<Contender>, s: seq<Contender>): map<string, int>
  {
    map name | name in Names(s) :: ShareFor(NectarPlaceValues, field, ContenderCount, LowestCount(s, name))
  }

  /** The map built by writing each entry of `s`, in order, under its name:
      a later entry overwrites an earlier one with the same name. */
  function AwardsInOrder(field: seq<Contender>, s: seq<Contender>): map<string, int>
  {
    if s == [] then map[]
    else
      var x := s[|s| - 1];
      AwardsInOrder(field, s[..|s| - 1])[x.name := ShareFor(NectarPlaceValues, field, ContenderCount, x.count)]
  }

  /** The map `scoreHabitat` returns: every player with nectar in the
      habitat, and nobody else, receives the floor-averaged share of the
      places their tie group occupies. */
  function HabitatAwards(players: seq<PlayerGameEnd>, h: Habitat): map<string, int>
  {
    var cs := Contenders(players, h);
    AwardsOver(cs, cs)
  }

  function NectarAwards(players: seq<PlayerGameEnd>): NectarScoring
  {
    NectarScoring(HabitatAwards(players, Forest), HabitatAwards(players, Grassland), HabitatAwards(players, Wetland))
  }

  predicate ContenderBefore(x: Contender, y: Contender)
  {
    x.count > y.count
  }

  lemma ContenderBeforeIsStrictWeakOrder()
    ensures StrictWeakOrder(ContenderBefore)
  {
  }

  lemma LowestCountPermutation(s: seq<Contender>, t: seq<Contender>, name: string)
    requires multiset(s) == multiset(t) && name in Names(s)
    ensures name in Names(t) && LowestCount(s, name) == LowestCount(t, name)
  {
    forall c ensures c in s <==> c in t {
      assert c in s <==> c in multiset(s);
      assert c in t <==> c in multiset(t);
    }
    var m := LowestCount(s, name);
    assert name in Names(t) by { assert Contender(name, m) in t; }
    var m' := LowestCount(t, name);
    assert Contender(name, m') in s;
  }

  lemma AwardsOverPermutation(field: seq<Contender>, s: seq<Contender>, t: seq<Contender>)
    requires multiset(s) == multiset(t)
    ensures AwardsOver(field, s) == AwardsOver(field, t)
  {
    forall c ensures c in s <==> c in t {
      assert c in s <==> c in multiset(s);
      assert c in t <==> c in multiset(t);
    }
    assert Names(s) == Names(t);
    forall name | name in Names(s) ensures LowestCount(s, name) == LowestCount(t, name) {
      LowestCountPermutation(s, t, name);
    }
  }

  /** Appending a contender no higher than everyone before it sets its own
      name to its share and leaves every other name alone. */
  lemma AwardsOverStep(field: seq<Contender>, s: seq<Contender>, x: Contender)
    requires forall i :: 0 <= i < |s| ==> s[i].count >= x.count
    ensures AwardsOver(field, s + [x]) == AwardsOver(field, s)[x.name := ShareFor(NectarPlaceValues, field, ContenderCount, x.count)]
  {
    var s' := s + [x];
    assert s'[..|s'| - 1] == s;
    assert Names(s') == Names(s) + {x.name};
    assert LowestCount(s', x.name) == x.count;
    forall name | name in Names(s) && name != x.name ensures LowestCount(s', name) == LowestCount(s, name) {
    }
  }

  /** Writing a descending list in order leaves every name with the share of
      its lowest count, whatever the order among equal counts. */
  lemma {:induction false} AwardsInOrderDescending(field: seq<Contender>, s: seq<Contender>)
    requires Descending(s, ContenderCount)
    ensures AwardsInOrder(field, s) == AwardsOver(field, s)
  {
    if s != [] {
      var init := s[..|s| - 1];
      var x := s[|s| - 1];
      assert s == init + [x];
      assert Descending(init, ContenderCount) by {
        forall i, j | 0 <= i < j < |init| ensures ContenderCount(init[i]) >= ContenderCount(init[j]) {
          assert ContenderCount(s[i]) >= ContenderCount(s[j]);
        }
      }
      assert forall i :: 0 <= i < |init| ==> init[i].count >= x.count by {
        forall i | 0 <= i < |init| ensures init[i].count >= x.count {
          assert ContenderCount(s[i]) >= ContenderCount(s[|s| - 1]);
        }
      }
      AwardsInOrderDescending(field, init);
      AwardsOverStep(field, init, x);
    }
  }

  /** Scores one habitat (scoreHabitat): keeps the players with positive
      nectar, sorts them by count (Go's unstable sort), then walks the tie
      groups, giving each member the floor average of the place values the
      group covers. */
  method ScoreHabitat(players: seq<PlayerGameEnd>, h: Habitat) returns (points: map<string, int>)
    ensures points == HabitatAwards(players, h)
  {
    points := map[];
    var counts := CollectContenders(players, h);
    if |counts| == 0 {
      return;
    }

    var sorted := SortByCount(counts);
    points := AwardTieGroups(counts, sorted);
    AwardsInOrderDescending(counts, sorted);
    AwardsOverPermutation(counts, sorted, counts);
  }

  /** The source's walk over the tie groups of the sorted contenders. */
  method AwardTieGroups(counts: seq<Contender>, sorted: seq<Contender>) returns (points: map<string, int>)
    requires Descending(sorted, ContenderCount) && multiset(sorted) == multiset(counts)
    ensures points == AwardsInOrder(counts, sorted)
  {
    points := map[];
    var position := 0;
    while position < |sorted|
      invariant 0 <= position <= |sorted|
      invariant position == 0 || position == |sorted| || sorted[position - 1].count != sorted[position].count
      invariant points == AwardsInOrder(counts, sorted[..position])
    {
      var tiedPlayers := TiedFrom(sorted, position);
      var numTied := |tiedPlayers|;
      var totalPoints := PlaceSum(position, numTied);
      var avgPoints := totalPoints / numTied;
      GroupShare(NectarPlaceValues, sorted, counts, ContenderCount, position, position + numTied);
      points := AwardGroup(points, sorted, counts, position, tiedPlayers, avgPoints);
      position := position + numTied;
    }
    assert sorted[..|sorted|] == sorted;
  }

  /** The loop that keeps the players with positive nectar, in order. */
  method CollectContenders(players: seq<PlayerGameEnd>, h: Habitat) returns (counts: seq<Contender>)
    ensures counts == Contenders(players, h)
  {
    counts := [];
    var n := 0;
    while n < |players|
      invariant 0 <= n <= |players|
      invariant counts == Contenders(players[..n], h)
    {
      assert players[..n + 1][..n] == players[..n];
      var count := NectarIn(players[n], h);
      if count > 0 {
        counts := counts + [Contender(players[n].playerName, count)];
      }
      n := n + 1;
    }
    assert players[..|players|] == players;
  }

  /** The source's `sort.Slice` of the contenders, largest count first; the
      order of equal counts is left to the sort. */
  method SortByCount(counts: seq<Contender>) returns (sorted: seq<Contender>)
    ensures Descending(sorted, ContenderCount)
    ensures multiset(sorted) == multiset(counts)
  {
    var a := new Contender[|counts|](i requires 0 <= i < |counts| => counts[i]);
    assert a[..] == counts;
    ContenderBeforeIsStrictWeakOrder();
    SortInPlace(a, ContenderBefore);
    sorted := a[..];
    assert Descending(sorted, ContenderCount) by {
      forall i, j | 0 <= i < j < |sorted| ensures ContenderCount(sorted[i]) >= ContenderCount(sorted[j]) {
        assert !ContenderBefore(sorted[j], sorted[i]);
      }
    }
  }

  /** The names of the tie group that starts at `position`. */
  method TiedFrom(sorted: seq<Contender>, position: nat) returns (tiedPlayers: seq<string>)
    requires position < |sorted| && Descending(sorted, ContenderCount)
    requires position == 0 || sorted[position - 1].count != sorted[position].count
    ensures TieGroup(sorted, ContenderCount, position, position + |tiedPlayers|)
    ensures forall t :: 0 <= t < |tiedPlayers| ==> tiedPlayers[t] == sorted[position + t].name
  {
    var currentCount := sorted[position].count;
    tiedPlayers := [];
    var i := position;
    while i < |sorted| && sorted[i].count == currentCount
      invariant position <= i <= |sorted|
      invariant forall t :: position <= t < i ==> sorted[t].count == currentCount
      invariant |tiedPlayers| == i - position
      invariant forall t :: 0 <= t < |tiedPlayers| ==> tiedPlayers[t] == sorted[position + t].name
    {
      tiedPlayers := tiedPlayers + [sorted[i].name];
      i := i + 1;
    }
  }

  /** The source's `totalPoints` loop over the tied places. */
  method PlaceSum(position: nat, numTied: nat) returns (totalPoints: nat)
    ensures totalPoints == SpanSum(NectarPlaceValues, position, numTied)
  {
    var placeValues := NectarPlaceValues;
    totalPoints := 0;
    var k := 0;
    while k < numTied
      invariant 0 <= k <= numTied
      invariant totalPoints == SpanSum(placeValues, position, k)
    {
      if position + k < |placeValues| {
        totalPoints := totalPoints + placeValues[position + k];
      }
      k := k + 1;
    }
  }

  /** Writes the group's share under each tied name. */
  method AwardGroup(points: map<string, int>, sorted: seq<Contender>, counts: seq<Contender>,
                    position: nat, tiedPlayers: seq<string>, avgPoints: int)
    returns (points': map<string, int>)
    requires position + |tiedPlayers| <= |sorted|
    requires forall t :: 0 <= t < |tiedPlayers| ==> tiedPlayers[t] == sorted[position + t].name
    requires TieGroup(sorted, ContenderCount, position, position + |tiedPlayers|)
    requires avgPoints == ShareFor(NectarPlaceValues, counts, ContenderCount, sorted[position].count)
    requires points == AwardsInOrder(counts, sorted[..position])
    ensures points' == AwardsInOrder(counts, sorted[..position + |tiedPlayers|])
  {
    points' := points;
    var t := 0;
    while t < |tiedPlayers|
      invariant 0 <= t <= |tiedPlayers|
      invariant points' == AwardsInOrder(counts, sorted[..position + t])
    {
      assert sorted[..position + t + 1][..position + t] == sorted[..position + t];
      assert ContenderCount(sorted[position + t]) == ContenderCount(sorted[position]);
      points' := points'[tiedPlayers[t] := avgPoints];
      t := t + 1;
    }
  }

  /** calculateNectarPoints: the three habitats scored independently. */
  method CalculateNectarPoints(players: seq<PlayerGameEnd>) returns (scoring: NectarScoring)
    ensures scoring == NectarAwards(players)
  {
    var forest := ScoreHabitat(players, Forest);
    var grassland := ScoreHabitat(players, Grassland);
    var wetland := ScoreHabitat(players, Wetland);
    scoring := NectarScoring(forest, grassland, wetland);
  }

  // ---------------------------------------------------------------------
  // Ranking

  /** `x` finishes ahead of `y`: a higher total, or an equal total and
      more unused food (the less function of `determineRankings`). */
  predicate RankBefore(x: PlayerGameEnd, y: PlayerGameEnd)
  {
    if x.total == y.total then x.unusedFood > y.unusedFood else x.total > y.total
  }

  /** Equal on both ranking keys; such players share a rank. */
  predicate SameStanding(x: PlayerGameEnd, y: PlayerGameEnd)
  {
    x.total == y.total && x.unusedFood == y.unusedFood
  }

  lemma RankBeforeIsStrictWeakOrder()
    ensures StrictWeakOrder(RankBefore)
    ensures forall x, y :: !RankBefore(x, y) && !RankBefore(y, x) <==> SameStanding(x, y)
  {
  }

  /** The sheet with its rank cleared: what ranking must leave unchanged. */
  function Unranked(p: PlayerGameEnd): PlayerGameEnd
  {
    p.(rank := 0)
  }

  /** Number of players in `s` who finish ahead of `x`. */
  function CountAhead(s: seq<PlayerGameEnd>, x: PlayerGameEnd): nat
  {
    if s == [] then 0
    else CountAhead(s[..|s| - 1], x) + (if RankBefore(s[|s| - 1], x) then 1 else 0)
  }

  lemma {:induction false} CountAheadAppend(a: seq<PlayerGameEnd>, b: seq<PlayerGameEnd>, x: PlayerGameEnd)
    ensures CountAhead(a + b, x) == CountAhead(a, x) + CountAhead(b, x)
  {
    if b == [] {
      assert a + b == a;
    } else {
      assert (a + b)[..|a + b| - 1] == a + b[..|b| - 1];
      CountAheadAppend(a, b[..|b| - 1], x);
    }
  }

  lemma {:induction false} CountAheadPermutation(s: seq<PlayerGameEnd>, t: seq<PlayerGameEnd>, x: PlayerGameEnd)
    requires multiset(s) == multiset(t)
    ensures CountAhead(s, x) == CountAhead(t, x)
    decreases |s|
  {
    if s == [] {
      assert t == [];
    } else {
      var y := s[|s| - 1];
      assert y in multiset(t);
      var k :| 0 <= k < |t| && t[k] == y;
      var rest := t[..k] + t[k + 1..];
      assert t == t[..k] + [y] + t[k + 1..];
      assert s == s[..|s| - 1] + [y];
      assert multiset(rest) == multiset(t) - multiset{y};
      assert multiset(s[..|s| - 1]) == multiset(s) - multiset{y};
      CountAheadPermutation(s[..|s| - 1], rest, x);
      CountAheadAppend(t[..k] + [y], t[k + 1..], x);
      CountAheadAppend(t[..k], [y], x);
      CountAheadAppend(t[..k], t[k + 1..], x);
      assert [y][..0] == [];
    }
  }

  /** Clearing ranks changes nobody's standing. */
  lemma {:induction false} CountAheadUnranked(s: seq<PlayerGameEnd>, x: PlayerGameEnd)
    ensures CountAhead(MapSeq(Unranked, s), x) == CountAhead(s, x)
  {
    if s != [] {
      var init := s[..|s| - 1];
      assert MapSeq(Unranked, s)[..|s| - 1] == MapSeq(Unranked, init);
      CountAheadUnranked(init, x);
    }
  }

  lemma {:induction false} CountAheadSameStanding(s: seq<PlayerGameEnd>, x: PlayerGameEnd, y: PlayerGameEnd)
    requires SameStanding(x, y)
    ensures CountAhead(s, x) == CountAhead(s, y)
  {
    if s != [] { CountAheadSameStanding(s[..|s| - 1], x, y); }
  }

  lemma {:induction false} CountAheadAll(s: seq<PlayerGameEnd>, x: PlayerGameEnd)
    requires forall i :: 0 <= i < |s| ==> RankBefore(s[i], x)
    ensures CountAhead(s, x) == |s|
  {
    if s != [] { CountAheadAll(s[..|s| - 1], x); }
  }

  lemma {:induction false} CountAheadNone(s: seq<PlayerGameEnd>, x: PlayerGameEnd)
    requires forall i :: 0 <= i < |s| ==> !RankBefore(s[i], x)
    ensures CountAhead(s, x) == 0
  {
    if s != [] { CountAheadNone(s[..|s| - 1], x); }
  }

  /** Finishing ahead of `z` puts strictly more players ahead of `z` than
      ahead of `x`, when `x` is one of the players. */
  lemma {:induction false} CountAheadStrict(s: seq<PlayerGameEnd>, x: PlayerGameEnd, z: PlayerGameEnd)
    requires RankBefore(x, z)
    ensures CountAhead(s, x) <= CountAhead(s, z)
    ensures x in s ==> CountAhead(s, x) < CountAhead(s, z)
  {
    if s != [] {
      var init := s[..|s| - 1];
      assert s == init + [s[|s| - 1]];
      CountAheadStrict(init, x, z);
    }
  }

  /** Competition ranking over an arrangement: the first player has rank
      1, a player level with the predecessor on both keys keeps the
      predecessor's rank, and any other player at 0-based index `i` has
      rank `i + 1`. */
  ghost predicate CompetitionRanked(s: seq<PlayerGameEnd>)
  {
    && (|s| > 0 ==> s[0].rank == 1)
    && (forall i, j :: 0 <= i && j == i + 1 && j < |s| ==>
          s[j].rank == (if SameStanding(s[i], s[j]) then s[i].rank else j + 1))
  }

  lemma {:induction false} RankOverPrefix(s: seq<PlayerGameEnd>, i: nat)
    requires SortedBy(s, RankBefore) && CompetitionRanked(s) && i < |s|
    ensures s[i].rank == 1 + CountAhead(s[..i], s[i])
  {
    RankBeforeIsStrictWeakOrder();
    if i == 0 {
      assert s[..0] == [];
    } else {
      RankOverPrefix(s, i - 1);
      assert s[..i] == s[..i - 1] + [s[i - 1]];
      CountAheadAppend(s[..i - 1], [s[i - 1]], s[i]);
      assert [s[i - 1]][..0] == [];
      if SameStanding(s[i - 1], s[i]) {
        CountAheadSameStanding(s[..i - 1], s[i - 1], s[i]);
      } else {
        assert RankBefore(s[i - 1], s[i]) by { assert !RankBefore(s[i], s[i - 1]); }
        forall j | 0 <= j < i ensures RankBefore(s[..i][j], s[i]) {
          if j < i - 1 {
            assert !RankBefore(s[i - 1], s[j]);
          }
        }
        CountAheadAll(s[..i], s[i]);
      }
    }
  }

  /** In a sorted, competition-ranked arrangement every player's rank is
      one more than the number of players who finish ahead of them. */
  lemma CompetitionRankCountsAhead(s: seq<PlayerGameEnd>)
    requires SortedBy(s, RankBefore) && CompetitionRanked(s)
    ensures forall i :: 0 <= i < |s| ==> s[i].rank == 1 + CountAhead(s, s[i])
  {
    forall i | 0 <= i < |s| ensures s[i].rank == 1 + CountAhead(s, s[i]) {
      RankOverPrefix(s, i);
      assert s == s[..i] + s[i..];
      CountAheadAppend(s[..i], s[i..], s[i]);
      forall j | 0 <= j < |s[i..]| ensures !RankBefore(s[i..][j], s[i]) {
        assert s[i..][j] == s[i + j];
      }
      CountAheadNone(s[i..], s[i]);
    }
  }

  /** Two players share a rank exactly when they are level on total and
      unused food. */
  lemma SharedRankIffSameStanding(s: seq<PlayerGameEnd>, i: nat, j: nat)
    requires SortedBy(s, RankBefore) && CompetitionRanked(s) && i < |s| && j < |s|
    ensures s[i].rank == s[j].rank <==> SameStanding(s[i], s[j])
  {
    CompetitionRankCountsAhead(s);
    RankBeforeIsStrictWeakOrder();
    if SameStanding(s[i], s[j]) {
      CountAheadSameStanding(s, s[i], s[j]);
    } else if RankBefore(s[i], s[j]) {
      CountAheadStrict(s, s[i], s[j]);
    } else {
      CountAheadStrict(s, s[j], s[i]);
    }
  }

  /** determineRankings: sorts the players in place by total, then unused
      food (Go's unstable sort), and writes competition ranks. */
  method DetermineRankings(players: array<PlayerGameEnd>)
    modifies players
    ensures multiset(MapSeq(Unranked, players[..])) == multiset(MapSeq(Unranked, old(players[..])))
    ensures SortedBy(players[..], RankBefore)
    ensures CompetitionRanked(players[..])
  {
    RankBeforeIsStrictWeakOrder();
    SortInPlace(players, RankBefore);
    ghost var sorted := players[..];
    AssignRanks(players);
    MapSeqPermutation(Unranked, sorted, old(players[..]));
  }

  /** The `currentRank` loop of `determineRankings` over the sorted players. */
  method AssignRanks(players: array<PlayerGameEnd>)
    requires SortedBy(players[..], RankBefore)
    modifies players
    ensures MapSeq(Unranked, players[..]) == MapSeq(Unranked, old(players[..]))
    ensures SortedBy(players[..], RankBefore)
    ensures CompetitionRanked(players[..])
  {
    var currentRank := 1;
    for i := 0 to players.Length
      invariant forall k :: 0 <= k < players.Length ==> Unranked(players[k]) == Unranked(old(players[k]))
      invariant CompetitionRanked(players[..i])
      invariant currentRank == if i == 0 then 1 else players[i - 1].rank
    {
      ghost var ranked := players[..i];
      if i > 0 {
        if players[i].total != players[i - 1].total || players[i].unusedFood != players[i - 1].unusedFood {
          currentRank := i + 1;
        }
      }
      players[i] := players[i].(rank := currentRank);
      ghost var y := players[i];
      assert y.rank == (if i == 0 then 1 else if SameStanding(ranked[i - 1], y) then ranked[i - 1].rank else i + 1);
      assert players[..i + 1] == ranked + [y];
      assert CompetitionRanked(ranked + [y]) by {
        forall k | 0 <= k < i + 1
          ensures (ranked + [y])[k].rank == (if k == 0 then 1 else if SameStanding((ranked + [y])[k - 1], (ranked + [y])[k]) then (ranked + [y])[k - 1].rank else k + 1)
        {
          if k < i {
            assert (ranked + [y])[k] == ranked[k];
            if k > 0 { assert (ranked + [y])[k - 1] == ranked[k - 1]; }
          } else if k > 0 {
            assert (ranked + [y])[k - 1] == ranked[k - 1];
          }
        }
      }
    }
    assert players[..] == players[..players.Length];
    assert SortedBy(players[..], RankBefore) by {
      forall p, q | 0 <= p < q < players.Length ensures !RankBefore(players[q], players[p]) {
        assert !RankBefore(old(players[q]), old(players[p]));
      }
    }
  }

  // ---------------------------------------------------------------------
  // The whole end-of-game computation

  /** The sheet with its total filled in. */
  function WithTotal(p: PlayerGameEnd, nectar: NectarScoring, includeOceania: bool): PlayerGameEnd
  {
    p.(total := TotalFor(p, nectar, includeOceania))
  }

  /** Every sheet of `s` with its total filled in, in order. */
  function Totalled(s: seq<PlayerGameEnd>, nectar: NectarScoring, includeOceania: bool): (r: seq<PlayerGameEnd>)
    ensures |r| == |s| && forall i :: 0 <= i < |s| ==> r[i] == WithTotal(s[i], nectar, includeOceania)
  {
    if s == [] then []
    else Totalled(s[..|s| - 1], nectar, includeOceania) + [WithTotal(s[|s| - 1], nectar, includeOceania)]
  }

  /** CalculateGameEndScores: awards nectar when the Oceania expansion is
      on, overwrites every player's total, then ranks the caller's players
      in place; the returned slice is the caller's. */
  method CalculateGameEndScores(players: array<PlayerGameEnd>, includeOceania: bool)
    returns (ranked: array<PlayerGameEnd>, nectarScoring: NectarScoring)
    modifies players
    ensures ranked == players
    ensures nectarScoring == if includeOceania then NectarAwards(old(players[..])) else NoNectar
    ensures multiset(MapSeq(Unranked, players[..]))
         == multiset(MapSeq(Unranked, Totalled(old(players[..]), nectarScoring, includeOceania)))
    ensures SortedBy(players[..], RankBefore)
    ensures CompetitionRanked(players[..])
  {
    nectarScoring := NoNectar;
    if includeOceania {
      nectarScoring := CalculateNectarPoints(players[..]);
    }

    for i := 0 to players.Length
      invariant forall k :: 0 <= k < i ==> players[k] == WithTotal(old(players[k]), nectarScoring, includeOceania)
      invariant forall k :: i <= k < players.Length ==> players[k] == old(players[k])
    {
      var total := players[i].birdPoints + players[i].bonusCards + players[i].roundGoals
        + players[i].eggs + players[i].cachedFood + players[i].tuckedCards;
      if includeOceania {
        total := total + Award(nectarScoring.forest, players[i].playerName);
        total := total + Award(nectarScoring.grassland, players[i].playerName);
        total := total + Award(nectarScoring.wetland, players[i].playerName);
      }
      players[i] := players[i].(total := total);
    }
    assert players[..] == Totalled(old(players[..]), nectarScoring, includeOceania);

    DetermineRankings(players);
    ranked := players;
  }

  // ---------------------------------------------------------------------
  // Properties of the nectar competition

  /** Some player of `players` holds nectar in `h` under `name`. */
  ghost predicate HasNectar(players: seq<PlayerGameEnd>, h: Habitat, name: string)
  {
    exists i :: 0 <= i < |players| && players[i].playerName == name && NectarIn(players[i], h) > 0
  }

  lemma {:induction false} ContendersNames(players: seq<PlayerGameEnd>, h: Habitat, name: string)
    ensures name in Names(Contenders(players, h)) <==> HasNectar(players, h, name)
  {
    if players != [] {
      var init := players[..|players| - 1];
      var last := players[|players| - 1];
      ContendersNames(init, h, name);
      var tail := if NectarIn(last, h) > 0 then [Contender(last.playerName, NectarIn(last, h))] else [];
      assert Contenders(players, h) == Contenders(init, h) + tail;
      assert Names(Contenders(players, h)) == Names(Contenders(init, h)) + Names(tail);
      if HasNectar(init, h, name) {
        var i :| 0 <= i < |init| && init[i].playerName == name && NectarIn(init[i], h) > 0;
        assert players[i] == init[i];
      }
    }
  }

  /** The habitat's map has a key for exactly the players holding nectar
      there; players without nectar are absent. */
  lemma HabitatAwardsKeys(players: seq<PlayerGameEnd>, h: Habitat)
    ensures forall name :: name in HabitatAwards(players, h) <==> HasNectar(players, h, name)
  {
    forall name ensures name in HabitatAwards(players, h) <==> HasNectar(players, h, name) {
      ContendersNames(players, h, name);
    }
  }

  /** When nobody holds nectar in the habitat its map is empty. */
  lemma NoNectarNoAwards(players: seq<PlayerGameEnd>, h: Habitat)
    requires forall i :: 0 <= i < |players| ==> NectarIn(players[i], h) <= 0
    ensures HabitatAwards(players, h) == map[]
  {
    HabitatAwardsKeys(players, h);
    assert forall name :: name !in HabitatAwards(players, h);
  }

  /** Where a listed name first occurs. */
  function NameIndex(cs: seq<Contender>, name: string): (i: nat)
    requires name in Names(cs)
    ensures i < |cs| && cs[i].name == name
  {
    if cs[0].name == name then 0
    else
      assert name in Names(cs[1..]) by {
        var c :| c in cs && c.name == name;
        assert c in cs[1..] by { assert cs == [cs[0]] + cs[1..]; }
      }
      1 + NameIndex(cs[1..], name)
  }

  /** No name is listed twice. */
  predicate NamesDistinct(cs: seq<Contender>)
  {
    forall i, j :: 0 <= i < j < |cs| ==> cs[i].name != cs[j].name
  }

  /** With distinct names, a contender's entry is the share of its own
      count against the whole field. */
  lemma AwardOfContender(field: seq<Contender>, s: seq<Contender>, i: nat)
    requires NamesDistinct(s) && i < |s|
    ensures s[i].name in AwardsOver(field, s)
    ensures AwardsOver(field, s)[s[i].name] == ShareFor(NectarPlaceValues, field, ContenderCount, s[i].count)
  {
    var m := LowestCount(s, s[i].name);
    assert s[i] in s;
    var j :| 0 <= j < |s| && s[j] == Contender(s[i].name, m);
    assert j == i;
  }

  /** Whatever order the unstable sort leaves ties in, every member of the
      tie group at sorted places `p .. q - 1` receives the floor average of
      those places' values. */
  lemma AwardOfGroup(cs: seq<Contender>, sorted: seq<Contender>, p: nat, q: nat, i: nat)
    requires NamesDistinct(cs) && multiset(sorted) == multiset(cs)
    requires Descending(sorted, ContenderCount) && TieGroup(sorted, ContenderCount, p, q) && p <= i < q
    ensures sorted[i].name in AwardsOver(cs, cs)
    ensures AwardsOver(cs, cs)[sorted[i].name] == Share(NectarPlaceValues, p, q - p)
  {
    assert sorted[i] in multiset(cs);
    var k :| 0 <= k < |cs| && cs[k] == sorted[i];
    AwardOfContender(cs, cs, k);
    GroupShare(NectarPlaceValues, sorted, cs, ContenderCount, p, q);
    assert ContenderCount(sorted[i]) == ContenderCount(sorted[p]);
  }

  lemma HabitatAwardOfGroup(players: seq<PlayerGameEnd>, h: Habitat, sorted: seq<Contender>, p: nat, q: nat, i: nat)
    requires NamesDistinct(Contenders(players, h))
    requires multiset(sorted) == multiset(Contenders(players, h))
    requires Descending(sorted, ContenderCount) && TieGroup(sorted, ContenderCount, p, q) && p <= i < q
    ensures sorted[i].name in HabitatAwards(players, h)
    ensures HabitatAwards(players, h)[sorted[i].name] == Share(NectarPlaceValues, p, q - p)
  {
    AwardOfGroup(Contenders(players, h), sorted, p, q, i);
  }

  /** Points listed in `m` for the names of `s`, added up. */
  function AwardSum(m: map<string, int>, s: seq<Contender>): int
  {
    if s == [] then 0 else AwardSum(m, s[..|s| - 1]) + Award(m, s[|s| - 1].name)
  }

  lemma {:induction false} AwardSumIsShares(m: map<string, int>, field: seq<Contender>, s: seq<Contender>)
    requires forall i :: 0 <= i < |s| ==> Award(m, s[i].name) == ShareFor(NectarPlaceValues, field, ContenderCount, s[i].count)
    ensures AwardSum(m, s) == SharesOf(NectarPlaceValues, field, ContenderCount, s)
  {
    if s != [] {
      var init := s[..|s| - 1];
      assert forall i :: 0 <= i < |init| ==> init[i] == s[i];
      AwardSumIsShares(m, field, init);
    }
  }

  /** A habitat never hands out more than 5 + 2 = 7 points in all. */
  lemma HabitatAwardsAtMostSeven(players: seq<PlayerGameEnd>, h: Habitat)
    requires NamesDistinct(Contenders(players, h))
    ensures AwardSum(HabitatAwards(players, h), Contenders(players, h)) <= 7
  {
    var cs := Contenders(players, h);
    forall i | 0 <= i < |cs|
      ensures Award(HabitatAwards(players, h), cs[i].name) == ShareFor(NectarPlaceValues, cs, ContenderCount, cs[i].count)
    {
      AwardOfContender(cs, cs, i);
    }
    AwardSumIsShares(HabitatAwards(players, h), cs, cs);
    SharesAtMostTable(NectarPlaceValues, cs, ContenderCount);
    assert SpanSum(NectarPlaceValues, 0, 2) == 7;
  }

  /** A map is determined by its keys and the values under them. */
  lemma MapOfThree(m: map<string, int>, a: string, b: string, c: string, va: int, vb: int, vc: int)
    requires m.Keys == {a, b, c} && a != b && b != c && a != c
    requires m[a] == va && m[b] == vb && m[c] == vc
    ensures m == map[a := va, b := vb, c := vc]
  {
  }

  lemma MapOfFour(m: map<string, int>, a: string, b: string, c: string, d: string, va: int, vb: int, vc: int, vd: int)
    requires m.Keys == {a, b, c, d} && a != b && a != c && a != d && b != c && b != d && c != d
    requires m[a] == va && m[b] == vb && m[c] == vc && m[d] == vd
    ensures m == map[a := va, b := vb, c := vc, d := vd]
  {
  }

  /** The names listed in a field of four. */
  lemma NamesOfFour(cs: seq<Contender>)
    requires |cs| == 4
    ensures Names(cs) == {cs[0].name, cs[1].name, cs[2].name, cs[3].name}
  {
    forall name | name in Names(cs) ensures name in {cs[0].name, cs[1].name, cs[2].name, cs[3].name} {
      var i := NameIndex(cs, name);
      assert i == 0 || i == 1 || i == 2 || i == 3;
    }
    assert cs[0] in cs && cs[1] in cs && cs[2] in cs && cs[3] in cs;
  }

  lemma NamesOfThree(cs: seq<Contender>)
    requires |cs| == 3
    ensures Names(cs) == {cs[0].name, cs[1].name, cs[2].name}
  {
    forall name | name in Names(cs) ensures name in {cs[0].name, cs[1].name, cs[2].name} {
      var i := NameIndex(cs, name);
      assert i == 0 || i == 1 || i == 2;
    }
    assert cs[0] in cs && cs[1] in cs && cs[2] in cs;
  }

  lemma AwardsOverKeys(field: seq<Contender>, s: seq<Contender>)
    ensures AwardsOver(field, s).Keys == Names(s)
  {
  }

  /** Two players tied on 4 split first and second, (5 + 2) / 2 = 3 each;
      the player on 2 is third and scores 0. */
  lemma NectarExampleTiedFirst(x: Contender, y: Contender, z: Contender)
    requires x.count == 4 && y.count == 4 && z.count == 2
    requires x.name != y.name && y.name != z.name && x.name != z.name
    ensures AwardsOver([x, y, z], [x, y, z]) == map[x.name := 3, y.name := 3, z.name := 0]
  {
    var cs := [x, y, z];
    TiedFirstValues(cs);
    AwardsOverKeys(cs, cs);
    NamesOfThree(cs);
    MapOfThree(AwardsOver(cs, cs), x.name, y.name, z.name, 3, 3, 0);
  }

  lemma TiedFirstValues(cs: seq<Contender>)
    requires |cs| == 3 && cs[0].count == 4 && cs[1].count == 4 && cs[2].count == 2
    requires NamesDistinct(cs)
    ensures AwardsOver(cs, cs)[cs[0].name] == 3 && AwardsOver(cs, cs)[cs[1].name] == 3 && AwardsOver(cs, cs)[cs[2].name] == 0
  {
    TiedFirstShape(cs);
    AwardOfGroup(cs, cs, 0, 2, 0);
    AwardOfGroup(cs, cs, 0, 2, 1);
    AwardOfGroup(cs, cs, 2, 3, 2);
  }

  /** The field 4, 4, 2: descending, a tie group of two and a group of
      one, whose shares are 3 and 0. */
  lemma TiedFirstShape(cs: seq<Contender>)
    requires |cs| == 3 && cs[0].count == 4 && cs[1].count == 4 && cs[2].count == 2
    ensures Descending(cs, ContenderCount) && TieGroup(cs, ContenderCount, 0, 2) && TieGroup(cs, ContenderCount, 2, 3)
    ensures Share(NectarPlaceValues, 0, 2) == 3 && Share(NectarPlaceValues, 2, 1) == 0
  {
    assert SpanSum(NectarPlaceValues, 0, 2) == 7;
    assert SpanSum(NectarPlaceValues, 2, 1) == 0;
  }

  /** Three players tied on 6 share (5 + 2 + 0) / 3 = 2 each; the fourth,
      on 2, scores 0. */
  lemma NectarExampleThreeWayTie(w: Contender, x: Contender, y: Contender, z: Contender)
    requires w.count == 6 && x.count == 6 && y.count == 6 && z.count == 2
    requires w.name != x.name && w.name != y.name && w.name != z.name
    requires x.name != y.name && x.name != z.name && y.name != z.name
    ensures AwardsOver([w, x, y, z], [w, x, y, z]) == map[w.name := 2, x.name := 2, y.name := 2, z.name := 0]
  {
    var cs := [w, x, y, z];
    ThreeWayTieValues(cs);
    AwardsOverKeys(cs, cs);
    NamesOfFour(cs);
    MapOfFour(AwardsOver(cs, cs), w.name, x.name, y.name, z.name, 2, 2, 2, 0);
  }

  /** Awards are looked up by name, so a sheet without nectar that shares
      its name with the habitat's leader collects the leader's 5 as well:
      two sheets together receive 10 points from one habitat. */
  lemma RepeatedNameSharesAward(p: PlayerGameEnd, q: PlayerGameEnd)
    requires p.playerName == q.playerName && p.nectarForest == 5 && q.nectarForest == 0
    ensures HabitatAwards([p, q], Forest) == map[p.playerName := 5]
    ensures Award(HabitatAwards([p, q], Forest), p.playerName) + Award(HabitatAwards([p, q], Forest), q.playerName) == 10
  {
    var c := Contender(p.playerName, 5);
    assert [p, q][..1] == [p];
    assert [p][..0] == [];
    assert Contenders([p, q], Forest) == [c];
    assert Names([c]) == {p.playerName};
    assert [c][..0] == [];
    assert LowestCount([c], p.playerName) == 5;
    assert ShareFor(NectarPlaceValues, [c], ContenderCount, 5) == 5 by {
      assert CountGreater([c], ContenderCount, 5) == 0;
      assert CountGreater([c], ContenderCount, 4) == 1;
      assert CountEqual([c], ContenderCount, 5) == 1;
      assert SpanSum(NectarPlaceValues, 0, 1) == 5;
    }
  }

  lemma ThreeWayTieValues(cs: seq<Contender>)
    requires |cs| == 4 && cs[0].count == 6 && cs[1].count == 6 && cs[2].count == 6 && cs[3].count == 2
    requires NamesDistinct(cs)
    ensures AwardsOver(cs, cs)[cs[0].name] == 2 && AwardsOver(cs, cs)[cs[1].name] == 2
    ensures AwardsOver(cs, cs)[cs[2].name] == 2 && AwardsOver(cs, cs)[cs[3].name] == 0
  {
    ThreeWayTieShape(cs);
    AwardOfGroup(cs, cs, 0, 3, 0);
    AwardOfGroup(cs, cs, 0, 3, 1);
    AwardOfGroup(cs, cs, 0, 3, 2);
    AwardOfGroup(cs, cs, 3, 4, 3);
  }

  /** The field 6, 6, 6, 2: descending, a tie group of three and a group
      of one, whose shares are 2 and 0. */
  lemma ThreeWayTieShape(cs: seq<Contender>)
    requires |cs| == 4 && cs[0].count == 6 && cs[1].count == 6 && cs[2].count == 6 && cs[3].count == 2
    ensures Descending(cs, ContenderCount) && TieGroup(cs, ContenderCount, 0, 3) && TieGroup(cs, ContenderCount, 3, 4)
    ensures Share(NectarPlaceValues, 0, 3) == 2 && Share(NectarPlaceValues, 3, 1) == 0
  {
    assert SpanSum(NectarPlaceValues, 0, 3) == 7;
    assert SpanSum(NectarPlaceValues, 3, 1) == 0;
  }

  // ---------------------------------------------------------------------
  // Properties of the end-of-game result

  /** However the unstable sort orders level players, every rank is fixed
      by the input alone: one more than the number of input players who
      finish ahead. */
  lemma RanksFromInput(input: seq<PlayerGameEnd>, s: seq<PlayerGameEnd>)
    requires multiset(MapSeq(Unranked, s)) == multiset(MapSeq(Unranked, input))
    requires SortedBy(s, RankBefore) && CompetitionRanked(s)
    ensures forall i :: 0 <= i < |s| ==> s[i].rank == 1 + CountAhead(input, s[i])
  {
    CompetitionRankCountsAhead(s);
    forall i | 0 <= i < |s| ensures CountAhead(s, s[i]) == CountAhead(input, s[i]) {
      CountAheadUnranked(s, s[i]);
      CountAheadPermutation(MapSeq(Unranked, s), MapSeq(Unranked, input), s[i]);
      CountAheadUnranked(input, s[i]);
    }
  }

  /** The players ranked first are exactly those level with the leader. */
  lemma WinnersLevelWithLeader(s: seq<PlayerGameEnd>)
    requires SortedBy(s, RankBefore) && CompetitionRanked(s) && |s| > 0
    ensures s[0].rank == 1
    ensures forall i :: 0 <= i < |s| ==> (s[i].rank == 1 <==> SameStanding(s[i], s[0]))
  {
    forall i | 0 <= i < |s| ensures s[i].rank == 1 <==> SameStanding(s[i], s[0]) {
      SharedRankIffSameStanding(s, i, 0);
    }
  }

  /** Every player of the result carries, apart from the rank, the sheet of
      some input player with the total filled in. */
  lemma ScoredSheets(input: seq<PlayerGameEnd>, s: seq<PlayerGameEnd>, nectar: NectarScoring, includeOceania: bool)
    requires multiset(MapSeq(Unranked, s)) == multiset(MapSeq(Unranked, Totalled(input, nectar, includeOceania)))
    ensures |s| == |input|
    ensures forall i :: 0 <= i < |s| ==>
      exists k :: 0 <= k < |input| && s[i] == input[k].(total := TotalFor(input[k], nectar, includeOceania), rank := s[i].rank)
  {
    var t := Totalled(input, nectar, includeOceania);
    var u, v := MapSeq(Unranked, s), MapSeq(Unranked, t);
    assert |s| == |u| == |multiset(u)| == |v|;
    forall i | 0 <= i < |s|
      ensures exists k :: 0 <= k < |input| && s[i] == input[k].(total := TotalFor(input[k], nectar, includeOceania), rank := s[i].rank)
    {
      assert u[i] in multiset(v);
      MultisetMember(v, u[i]);
      var k :| 0 <= k < |v| && v[k] == u[i];
      UnrankedTotalledAt(input, nectar, includeOceania, k);
      assert s[i] == input[k].(total := TotalFor(input[k], nectar, includeOceania), rank := s[i].rank);
    }
  }

  lemma UnrankedTotalledAt(input: seq<PlayerGameEnd>, nectar: NectarScoring, includeOceania: bool, k: nat)
    requires k < |input|
    ensures MapSeq(Unranked, Totalled(input, nectar, includeOceania))[k] == Unranked(WithTotal(input[k], nectar, includeOceania))
  {
  }

  lemma ExampleCountsAhead(input: seq<PlayerGameEnd>)
    requires |input| == 3
    requires input[0].total == 100 && input[0].unusedFood == 5
    requires input[1].total == 100 && input[1].unusedFood == 5
    requires input[2].total == 90
    ensures CountAhead(input, input[0]) == 0 && CountAhead(input, input[1]) == 0 && CountAhead(input, input[2]) == 2
  {
    CountAheadNone(input, input[0]);
    CountAheadNone(input, input[1]);
    assert input == input[..2] + [input[2]];
    CountAheadAppend(input[..2], [input[2]], input[2]);
    CountAheadAll(input[..2], input[2]);
    CountAheadNone([input[2]], input[2]);
  }

  lemma UnrankedAt(s: seq<PlayerGameEnd>, i: nat)
    requires i < |s|
    ensures |MapSeq(Unranked, s)| == |s| && MapSeq(Unranked, s)[i] == Unranked(s[i])
  {
  }

  /** A rearrangement up to ranks holds each player's standing on the
      other side. */
  lemma StandingIn(s: seq<PlayerGameEnd>, t: seq<PlayerGameEnd>, i: nat)
    requires multiset(MapSeq(Unranked, s)) == multiset(MapSeq(Unranked, t)) && i < |s|
    ensures exists k :: 0 <= k < |t| && Unranked(t[k]) == Unranked(s[i])
  {
    UnrankedAt(s, i);
    var u, v := MapSeq(Unranked, s), MapSeq(Unranked, t);
    assert u[i] in multiset(v);
    MultisetMember(v, u[i]);
    var k :| 0 <= k < |v| && v[k] == u[i];
    UnrankedAt(t, k);
  }

  /** Two players on 100 points with 5 unused food share first place; the
      player on 90 is third. */
  lemma RankingExample(input: seq<PlayerGameEnd>, s: seq<PlayerGameEnd>)
    requires |input| == 3
    requires input[0].total == 100 && input[0].unusedFood == 5
    requires input[1].total == 100 && input[1].unusedFood == 5
    requires input[2].total == 90
    requires multiset(MapSeq(Unranked, s)) == multiset(MapSeq(Unranked, input))
    requires SortedBy(s, RankBefore) && CompetitionRanked(s)
    ensures |s| == 3 && s[0].rank == 1 && s[1].rank == 1 && s[2].rank == 3
  {
    assert |s| == |MapSeq(Unranked, s)| == |multiset(MapSeq(Unranked, s))| == |MapSeq(Unranked, input)|;
    RanksFromInput(input, s);
    ExampleCountsAhead(input);
    forall i | 0 <= i < 3 ensures s[i].rank == if s[i].total == 100 then 1 else 3 {
      StandingIn(s, input, i);
      var k :| 0 <= k < 3 && Unranked(input[k]) == Unranked(s[i]);
      CountAheadSameStanding(input, input[k], s[i]);
      var ahead := CountAhead(input, s[i]);
      assert s[i].rank == 1 + ahead;
      assert s[i].total == input[k].total;
      if k == 0 {
        assert ahead == CountAhead(input, input[0]) == 0;
      } else if k == 1 {
        assert ahead == CountAhead(input, input[1]) == 0;
      } else {
        assert ahead == CountAhead(input, input[2]) == 2;
      }
    }
    StandingIn(input, s, 2);
    assert s[2].total == 90 by {
      assert !RankBefore(s[2], s[0]) && !RankBefore(s[2], s[1]);
    }
  }

  /** A game without players awards no nectar. */
  lemma EmptyGameNoNectar()
    ensures NectarAwards([]) == NoNectar
  {
    NoNectarNoAwards([], Forest);
    NoNectarNoAwards([], Grassland);
    NoNectarNoAwards([], Wetland);
  }
}
