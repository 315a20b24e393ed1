/** Drawing the four round goals of a game (goals/selector.go): with fewer
    than four goals in the pool they are used in order and the missing
    rounds stay empty; otherwise a copy of the pool is shuffled by
    Fisher–Yates and its first four goals are returned. The random source
    is a parameter `draw`: `draw(i)` is the index the shuffle swaps with
    position `i`, or the error the random source reported. */
module GoalSelector {
  import opened Common
  import opened GoalCatalog

  /** The four goals of a game, one per round. */
  datatype RoundGoals = RoundGoals(round1: Goal, round2: Goal, round3: Goal, round4: Goal)

  /** Go's zero `Goal`: every field empty. */
  const ZeroGoal: Goal := Goal("", "")

  const ZeroRounds: RoundGoals := RoundGoals(ZeroGoal, ZeroGoal, ZeroGoal, ZeroGoal)

  /** A random source answers a draw for bound `i + 1` with an index in
      `0..i` or with an error. */
  ghost predicate ValidDraws(draw: nat -> Result<nat, string>)
  {
    forall i :: draw(i).Ok? ==> draw(i).value <= i
  }

  /** The goal at position `k` of `s`, or the zero goal past its end. */
  function GoalAt(s: seq<Goal>, k: nat): Goal
  {
    if k < |s| then s[k] else ZeroGoal
  }

  /** The rounds filled with the first goals of `s`, in order. */
  function FirstRounds(s: seq<Goal>): RoundGoals
  {
    RoundGoals(GoalAt(s, 0), GoalAt(s, 1), GoalAt(s, 2), GoalAt(s, 3))
  }

  /** Swapping exchanges two goals, keeps the others in place and so
      rearranges the sequence. */
  lemma SwapFacts(s: seq<Goal>, i: nat, j: nat)
    requires i < |s| && j < |s|
    ensures Swap(s, i, j)[i] == s[j] && Swap(s, i, j)[j] == s[i]
    ensures forall k :: 0 <= k < |s| && k != i && k != j ==> Swap(s, i, j)[k] == s[k]
    ensures multiset(Swap(s, i, j)) == multiset(s)
  {
  }

  /** The Fisher–Yates steps for positions `i` down to 1, applied to `s`:
      the shuffled sequence, or the first error of the random source. */
  function ShuffleFrom(s: seq<Goal>, i: nat, draw: nat -> Result<nat, string>): (r: Result<seq<Goal>, string>)
    requires i < |s| && ValidDraws(draw)
    ensures r.Ok? ==> |r.value| == |s|
    decreases i
  {
    if i == 0 then Ok(s)
    else match draw(i)
      case Err(e) => Err(e)
      case Ok(j) => ShuffleFrom(Swap(s, i, j), i - 1, draw)
  }

  /** What SelectRandomGoals returns for pool `s`: the rounds, and the
      random source's error if it reported one. */
  function Selection(s: seq<Goal>, draw: nat -> Result<nat, string>): (RoundGoals, Option<string>)
    requires ValidDraws(draw)
  {
    if |s| < 4 then (FirstRounds(s), None)
    else match ShuffleFrom(s, |s| - 1, draw)
      case Err(e) => (ZeroRounds, Some(e))
      case Ok(t) => (FirstRounds(t), None)
  }

  /** SelectRandomGoals. The pool is read, never written: the shuffle
      works on a fresh copy. */
  method SelectRandomGoals(availableGoals: array<Goal>, draw: nat -> Result<nat, string>)
    returns (goals: RoundGoals, err: Option<string>)
    requires ValidDraws(draw)
    ensures (goals, err) == Selection(availableGoals[..], draw)
  {
    var n := availableGoals.Length;
    if n < 4 {
      goals := ZeroRounds;
      var i := 0;
      while i < n && i < 4
        invariant 0 <= i <= n
        invariant goals == FirstRounds(availableGoals[..i])
      {
        if i == 0 {
          goals := goals.(round1 := availableGoals[i]);
        } else if i == 1 {
          goals := goals.(round2 := availableGoals[i]);
        } else if i == 2 {
          goals := goals.(round3 := availableGoals[i]);
        } else {
          // The switch's fourth case: a pool of at most three goals never
          // reaches it.
          assert false;
        }
        i := i + 1;
      }
      assert availableGoals[..i] == availableGoals[..];
      return goals, None;
    }

    var goalsCopy := new Goal[n];
    forall k | 0 <= k < n {
      goalsCopy[k] := availableGoals[k];
    }
    assert goalsCopy[..] == availableGoals[..];

    var i := n - 1;
    while i > 0
      invariant 0 <= i < n
      invariant ShuffleFrom(goalsCopy[..], i, draw) == ShuffleFrom(availableGoals[..], n - 1, draw)
    {
      var nBig := draw(i);
      if nBig.Err? {
        return ZeroRounds, Some(nBig.error);
      }
      var j := nBig.value;
      ghost var before := goalsCopy[..];
      goalsCopy[i], goalsCopy[j] := goalsCopy[j], goalsCopy[i];
      assert goalsCopy[..] == Swap(before, i, j);
      i := i - 1;
    }
    goals := RoundGoals(goalsCopy[0], goalsCopy[1], goalsCopy[2], goalsCopy[3]);
    err := None;
  }

  // ---------------------------------------------------------------------
  // Properties

  /** The shuffle rearranges the pool: the same goals, as often each. */
  lemma {:induction false} ShufflePermutes(s: seq<Goal>, i: nat, draw: nat -> Result<nat, string>)
    requires i < |s| && ValidDraws(draw) && ShuffleFrom(s, i, draw).Ok?
    ensures multiset(ShuffleFrom(s, i, draw).value) == multiset(s)
    decreases i
  {
    if i > 0 {
      SwapFacts(s, i, draw(i).value);
      ShufflePermutes(Swap(s, i, draw(i).value), i - 1, draw);
    }
  }

  /** The shuffle fails exactly when one of the draws it makes fails, and
      then with that draw's error. */
  lemma {:induction false} ShuffleFails(s: seq<Goal>, i: nat, draw: nat -> Result<nat, string>)
    requires i < |s| && ValidDraws(draw)
    ensures ShuffleFrom(s, i, draw).Ok? <==> forall k :: 1 <= k <= i ==> draw(k).Ok?
    ensures ShuffleFrom(s, i, draw).Err? ==> exists k :: 1 <= k <= i && draw(k) == Err(ShuffleFrom(s, i, draw).error)
    decreases i
  {
    if i > 0 {
      if draw(i).Ok? {
        ShuffleFails(Swap(s, i, draw(i).value), i - 1, draw);
        assert (forall k :: 1 <= k <= i ==> draw(k).Ok?) <==> (forall k :: 1 <= k <= i - 1 ==> draw(k).Ok?);
      } else {
        assert !draw(i).Ok?;
      }
    }
  }

  /** Without an error, the pool of fewer than four goals fills the rounds
      in order and leaves the rest empty. */
  lemma FewGoalsInOrder(s: seq<Goal>, draw: nat -> Result<nat, string>)
    requires ValidDraws(draw) && |s| < 4
    ensures Selection(s, draw).1 == None
    ensures |s| >= 1 ==> Selection(s, draw).0.round1 == s[0]
    ensures |s| < 1 ==> Selection(s, draw).0.round1 == ZeroGoal
    ensures |s| >= 2 ==> Selection(s, draw).0.round2 == s[1]
    ensures |s| < 2 ==> Selection(s, draw).0.round2 == ZeroGoal
    ensures |s| >= 3 ==> Selection(s, draw).0.round3 == s[2]
    ensures |s| < 3 ==> Selection(s, draw).0.round3 == ZeroGoal
    ensures Selection(s, draw).0.round4 == ZeroGoal
    ensures s == [] ==> Selection(s, draw).0 == ZeroRounds
  {
  }

  /** SelectRandomGoals reports an error exactly when the pool has at least
      four goals and one of the shuffle's draws fails; the rounds are then
      all empty. */
  lemma SelectionFails(s: seq<Goal>, draw: nat -> Result<nat, string>)
    requires ValidDraws(draw)
    ensures Selection(s, draw).1.Some? <==> |s| >= 4 && exists k :: 1 <= k < |s| && draw(k).Err?
    ensures Selection(s, draw).1.Some? ==> Selection(s, draw).0 == ZeroRounds
  {
    if |s| >= 4 {
      ShuffleFails(s, |s| - 1, draw);
    }
  }

  /** The shuffled copy holds the pool's goals: the four rounds are the
      first four goals of a rearrangement of the pool. */
  lemma SelectionFromPool(s: seq<Goal>, draw: nat -> Result<nat, string>)
    requires ValidDraws(draw) && |s| >= 4 && Selection(s, draw).1 == None
    ensures exists t: seq<Goal> :: multiset(t) == multiset(s) && |t| == |s|
                     && Selection(s, draw).0 == RoundGoals(t[0], t[1], t[2], t[3])
  {
    var t := ShuffleFrom(s, |s| - 1, draw).value;
    ShufflePermutes(s, |s| - 1, draw);
    assert multiset(t) == multiset(s) && |t| == |s| && Selection(s, draw).0 == RoundGoals(t[0], t[1], t[2], t[3]);
  }

  /** From a pool without repeated goals the four rounds are four
      different goals, each from the pool. */
  lemma SelectionDistinct(s: seq<Goal>, draw: nat -> Result<nat, string>)
    requires ValidDraws(draw) && |s| >= 4 && Distinct(s) && Selection(s, draw).1 == None
    ensures var r := Selection(s, draw).0;
      && r.round1 in s && r.round2 in s && r.round3 in s && r.round4 in s
      && r.round1 != r.round2 && r.round1 != r.round3 && r.round1 != r.round4
      && r.round2 != r.round3 && r.round2 != r.round4 && r.round3 != r.round4
  {
    var t := ShuffleFrom(s, |s| - 1, draw).value;
    ShufflePermutes(s, |s| - 1, draw);
    DistinctPermutation(s, t);
    assert t[0] in multiset(s) && t[1] in multiset(s) && t[2] in multiset(s) && t[3] in multiset(s);
  }

  /** A pool of exactly four goals is dealt out completely. */
  lemma FourGoalsAllUsed(s: seq<Goal>, draw: nat -> Result<nat, string>)
    requires ValidDraws(draw) && |s| == 4 && Selection(s, draw).1 == None
    ensures var r := Selection(s, draw).0;
      multiset{r.round1, r.round2, r.round3, r.round4} == multiset(s)
  {
    var t := ShuffleFrom(s, 3, draw).value;
    ShufflePermutes(s, 3, draw);
    MultisetOfFour(t);
  }

  lemma MultisetOfFour(t: seq<Goal>)
    requires |t| == 4
    ensures multiset(t) == multiset{t[0], t[1], t[2], t[3]}
  {
    assert t == [t[0], t[1], t[2], t[3]];
  }

  /** A random source that always draws the position itself leaves the
      pool in order. */
  lemma {:induction false} IdentityDrawsKeepOrder(s: seq<Goal>, i: nat, draw: nat -> Result<nat, string>)
    requires i < |s| && ValidDraws(draw)
    requires forall k: nat :: draw(k) == Ok(k)
    ensures ShuffleFrom(s, i, draw) == Ok(s)
    decreases i
  {
    if i > 0 {
      SwapFacts(s, i, i);
      assert Swap(s, i, i) == s;
      IdentityDrawsKeepOrder(s, i - 1, draw);
    }
  }
}
