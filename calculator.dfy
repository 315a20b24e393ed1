/** The two helpers of the score calculator pages (static/js/game-end.js,
    with an identical copy in static/js/final-score.js): totalling each
    player's end-of-round goal scores from the goal board's cube
    placements, and English ordinals for the rankings. JavaScript numbers
    are modelled as `Number`: an integer or NaN. */
module Calculator {
  import opened Common

  /** A JavaScript number as these helpers produce it: an integer or NaN. */
  datatype Number = NaN | Num(n: int)

  /** JavaScript `+` on numbers: NaN absorbs everything. */
  function Add(a: Number, b: Number): (r: Number)
    ensures r.Num? <==> a.Num? && b.Num?
    ensures r.Num? ==> r.n == a.n + b.n
  {
    if a.Num? && b.Num? then Num(a.n + b.n) else NaN
  }

  // ---------------------------------------------------------------------
  // parseInt (section 19.2.5 of ECMA-262, without a radix argument)

  /** WhiteSpace and LineTerminator code points: what `parseInt` skips
      before the number. */
  predicate IsStrWhiteSpace(c: char)
  {
    || c == '\t' || c == '\U{000B}' || c == '\U{000C}' || c == ' ' || c == '\U{00A0}' || c == '\U{FEFF}'
    || c == '\U{1680}' || ('\U{2000}' <= c <= '\U{200A}') || c == '\U{202F}' || c == '\U{205F}' || c == '\U{3000}'
    || c == '\n' || c == '\r' || c == '\U{2028}' || c == '\U{2029}'
  }

  /** `s` without its leading white space. */
  function TrimStart(s: string): string
  {
    if s != [] && IsStrWhiteSpace(s[0]) then TrimStart(s[1..]) else s
  }

  /** What TrimStart drops is white space, and what it keeps is the rest
      of the string, starting with something else. */
  lemma {:induction false} TrimStartFacts(s: string)
    ensures |TrimStart(s)| <= |s| && TrimStart(s) == s[|s| - |TrimStart(s)|..]
    ensures TrimStart(s) == [] || !IsStrWhiteSpace(TrimStart(s)[0])
    ensures forall k :: 0 <= k < |s| - |TrimStart(s)| ==> IsStrWhiteSpace(s[k])
  {
    if s != [] && IsStrWhiteSpace(s[0]) {
      var t, r := s[1..], TrimStart(s[1..]);
      TrimStartFacts(t);
      assert TrimStart(s) == r;
      assert t[|t| - |r|..] == s[|s| - |r|..];
      forall k | 0 <= k < |s| - |r| ensures IsStrWhiteSpace(s[k]) {
        if k > 0 { assert s[k] == t[k - 1]; }
      }
    }
  }

  /** The value of digit `c` in radix 10 or 16, if it is one. */
  function DigitValue(c: char, radix: nat): (d: Option<nat>)
    requires radix == 10 || radix == 16
    ensures d.Some? ==> d.value < radix
  {
    if '0' <= c <= '9' then Some(c as int - '0' as int)
    else if radix == 16 && 'a' <= c <= 'f' then Some(c as int - 'a' as int + 10)
    else if radix == 16 && 'A' <= c <= 'F' then Some(c as int - 'A' as int + 10)
    else None
  }

  /** The longest prefix of `s` made of digits of `radix`. */
  function DigitPrefix(s: string, radix: nat): string
    requires radix == 10 || radix == 16
  {
    if s != [] && DigitValue(s[0], radix).Some? then [s[0]] + DigitPrefix(s[1..], radix) else []
  }

  /** The digit prefix is a prefix, made of digits, followed by the end of
      the string or by a character that is not a digit. */
  lemma {:induction false} DigitPrefixFacts(s: string, radix: nat)
    requires radix == 10 || radix == 16
    ensures var z := DigitPrefix(s, radix);
      && |z| <= |s| && z == s[..|z|]
      && (forall k :: 0 <= k < |z| ==> DigitValue(z[k], radix).Some?)
      && (|z| < |s| ==> DigitValue(s[|z|], radix).None?)
  {
    if s != [] && DigitValue(s[0], radix).Some? {
      DigitPrefixFacts(s[1..], radix);
    }
  }

  /** The value of a string of digits of `radix`, most significant first
      (a character that is not a digit counts as 0; none occurs where
      ParseInt uses it). */
  function RadixValue(z: string, radix: nat): nat
    requires radix == 10 || radix == 16
  {
    if z == [] then 0
    else
      var d := DigitValue(z[|z| - 1], radix);
      radix * RadixValue(z[..|z| - 1], radix) + (if d.Some? then d.value else 0)
  }

  /** JavaScript's `parseInt(s)`: skip leading white space, take an
      optional sign, read hexadecimal after "0x" or "0X" and decimal
      otherwise, and stop at the first character that is not a digit; NaN
      when there is no digit. The sign of zero is not modelled. */
  function ParseInt(s: string): Number
  {
    var t := TrimStart(s);
    var negative := t != [] && t[0] == '-';
    var u := if t != [] && (t[0] == '-' || t[0] == '+') then t[1..] else t;
    var hex := |u| >= 2 && u[0] == '0' && (u[1] == 'x' || u[1] == 'X');
    var radix := if hex then 16 else 10;
    var z := DigitPrefix(if hex then u[2..] else u, radix);
    if z == [] then NaN
    else if negative then Num(-(RadixValue(z, radix) as int))
    else Num(RadixValue(z, radix))
  }

  /** In radix 10 the value of a digit string is its decimal value. */
  lemma {:induction false} RadixValueDecimal(z: string)
    requires AllDigits(z)
    ensures forall k :: 0 <= k < |z| ==> DigitValue(z[k], 10).Some?
    ensures RadixValue(z, 10) == DigitsValue(z)
  {
    if z != [] {
      RadixValueDecimal(z[..|z| - 1]);
    }
  }

  /** A string made of digits is its own longest digit prefix. */
  lemma {:induction false} DigitPrefixAll(z: string)
    requires AllDigits(z)
    ensures DigitPrefix(z, 10) == z
  {
    if z != [] {
      DigitPrefixAll(z[1..]);
    }
  }

  /** `parseInt` reads back what number-to-string printed. */
  lemma ParseIntDecimal(n: int)
    ensures ParseInt(IntToDecimal(n)) == Num(n)
  {
    var m := if n < 0 then -n else n;
    NatToDecimalValue(m);
    if n < 0 {
      ParseNegativeDigits(NatToDecimal(m));
    } else {
      ParseDigits(NatToDecimal(m));
    }
  }

  lemma ParseDigits(d: string)
    requires d != [] && AllDigits(d)
    ensures ParseInt(d) == Num(DigitsValue(d))
  {
    RadixValueDecimal(d);
    DigitPrefixAll(d);
  }

  lemma ParseNegativeDigits(d: string)
    requires d != [] && AllDigits(d)
    ensures ParseInt("-" + d) == Num(-(DigitsValue(d) as int))
  {
    RadixValueDecimal(d);
    DigitPrefixAll(d);
    assert ("-" + d)[1..] == d;
  }

  /** Leading white space does not change what `parseInt` reads. */
  lemma {:induction false} ParseIntSkipsWhiteSpace(w: string, s: string)
    requires forall k :: 0 <= k < |w| ==> IsStrWhiteSpace(w[k])
    ensures ParseInt(w + s) == ParseInt(s)
  {
    TrimStartPrefix(w, s);
  }

  lemma {:induction false} TrimStartPrefix(w: string, s: string)
    requires forall k :: 0 <= k < |w| ==> IsStrWhiteSpace(w[k])
    ensures TrimStart(w + s) == TrimStart(s)
  {
    if w != [] {
      assert (w + s)[0] == w[0] && IsStrWhiteSpace(w[0]);
      assert (w + s)[1..] == w[1..] + s;
      TrimStartPrefix(w[1..], s);
    } else {
      assert w + s == s;
    }
  }

  /** A string that starts with neither white space, a sign nor a digit
      is not a number. */
  lemma NoDigitsNaN(s: string)
    requires s != [] && !IsStrWhiteSpace(s[0]) && s[0] != '-' && s[0] != '+' && !IsDigit(s[0])
    ensures ParseInt(s) == NaN
  {
  }

  // ---------------------------------------------------------------------
  // String.prototype.split with a one-character separator

  /** The index of the first `c` in `s`, if any. */
  function IndexOf(s: string, c: char): (r: Option<nat>)
    ensures r.Some? ==> r.value < |s| && s[r.value] == c && c !in s[..r.value]
    ensures r.None? ==> c !in s
  {
    if s == [] then None
    else if s[0] == c then Some(0)
    else match IndexOf(s[1..], c)
      case None => None
      case Some(k) => Some(k + 1)
  }

  /** `s.split(c)`: the pieces between the occurrences of `c`. */
  function Split(s: string, c: char): (parts: seq<string>)
    ensures |parts| >= 1
    ensures forall k :: 0 <= k < |parts| ==> c !in parts[k]
    decreases |s|
  {
    match IndexOf(s, c)
      case None => [s]
      case Some(k) => [s[..k]] + Split(s[k + 1..], c)
  }

  /** The pieces joined with `c` in between. */
  function Join(parts: seq<string>, c: char): string
    requires |parts| >= 1
  {
    if |parts| == 1 then parts[0] else parts[0] + [c] + Join(parts[1..], c)
  }

  /** Splitting loses nothing: joining the pieces gives the string back. */
  lemma {:induction false} JoinSplit(s: string, c: char)
    ensures Join(Split(s, c), c) == s
    decreases |s|
  {
    match IndexOf(s, c)
      case None =>
      case Some(k) =>
        var rest := Split(s[k + 1..], c);
        JoinSplit(s[k + 1..], c);
        var parts := [s[..k]] + rest;
        assert Split(s, c) == parts;
        assert parts[0] == s[..k] && parts[1..] == rest;
        assert Join(parts, c) == s[..k] + [c] + s[k + 1..];
        assert s == s[..k] + [c] + s[k + 1..];
  }

  /** A string without `c` splits into itself alone. */
  lemma SplitWithout(s: string, c: char)
    requires c !in s
    ensures Split(s, c) == [s]
  {
  }

  // ---------------------------------------------------------------------
  // calculateRoundGoalScores

  /** A player of the calculator, by name and cube colour. */
  datatype Player = Player(name: string, color: string)

  /** One entry of `cubePlacements`: a "round-score" key and the colours of
      the cubes placed there (None for a missing or falsy value). */
  datatype Placement = Placement(key: string, colors: Option<seq<string>>)

  /** `parseInt(parts[0])` for the key's pieces split at '-'. */
  function KeyRound(key: string): Number
  {
    ParseInt(Split(key, '-')[0])
  }

  /** `parseInt(parts[1])`; `parts[1]` is undefined when the key has no
      '-', and `parseInt(undefined)` is NaN. */
  function KeyScore(key: string): Number
  {
    var parts := Split(key, '-');
    if |parts| >= 2 then ParseInt(parts[1]) else NaN
  }

  /** The loop's test for round `round`: the key's round is that round and
      the colour list includes the player's colour. */
  predicate Matches(p: Placement, round: int, color: string)
  {
    KeyRound(p.key) == Num(round) && p.colors.Some? && color in p.colors.value
  }

  /** The score the first matching placement gives for `round`, if any. */
  function RoundScore(placements: seq<Placement>, round: int, color: string): Option<Number>
  {
    if placements == [] then None
    else if Matches(placements[0], round, color) then Some(KeyScore(placements[0].key))
    else RoundScore(placements[1..], round, color)
  }

  /** The total after adding round `round`'s score, if it has one. */
  function AddRound(total: Number, score: Option<Number>): Number
  {
    match score
      case None => total
      case Some(x) => Add(total, x)
  }

  /** The scores of rounds 1 to `rounds`, added from 0. */
  function TotalThrough(placements: seq<Placement>, color: string, rounds: nat): Number
  {
    if rounds == 0 then Num(0)
    else AddRound(TotalThrough(placements, color, rounds - 1), RoundScore(placements, rounds, color))
  }

  /** A player's end-of-round goal total: rounds 1 to 4. */
  function PlayerTotal(placements: seq<Placement>, color: string): Number
  {
    TotalThrough(placements, color, 4)
  }

  /** The callback of `players.map`: for each round, the first placement
      that matches adds its score, and the search stops there. */
  method PlayerRoundGoalTotal(player: Player, cubePlacements: seq<Placement>) returns (totalScore: Number)
    ensures totalScore == PlayerTotal(cubePlacements, player.color)
  {
    totalScore := Num(0);
    var round := 1;
    while round <= 4
      invariant 1 <= round <= 5
      invariant totalScore == TotalThrough(cubePlacements, player.color, round - 1)
    {
      var k := 0;
      while k < |cubePlacements|
        invariant 0 <= k <= |cubePlacements|
        invariant RoundScore(cubePlacements, round, player.color) == RoundScore(cubePlacements[k..], round, player.color)
        invariant totalScore == TotalThrough(cubePlacements, player.color, round - 1)
      {
        var key, colors := cubePlacements[k].key, cubePlacements[k].colors;
        var parts := Split(key, '-');
        var r := ParseInt(parts[0]);
        var score := if |parts| >= 2 then ParseInt(parts[1]) else NaN;
        if r == Num(round) && colors.Some? && player.color in colors.value {
          totalScore := Add(totalScore, score);
          break;
        }
        assert cubePlacements[k..][1..] == cubePlacements[k + 1..];
        k := k + 1;
      }
      round := round + 1;
    }
  }

  /** calculateRoundGoalScores: one total per player, in player order. */
  method CalculateRoundGoalScores(players: seq<Player>, cubePlacements: seq<Placement>) returns (scores: seq<Number>)
    ensures |scores| == |players|
    ensures forall i :: 0 <= i < |players| ==> scores[i] == PlayerTotal(cubePlacements, players[i].color)
  {
    scores := [];
    var i := 0;
    while i < |players|
      invariant 0 <= i <= |players|
      invariant |scores| == i
      invariant forall k :: 0 <= k < i ==> scores[k] == PlayerTotal(cubePlacements, players[k].color)
    {
      var total := PlayerRoundGoalTotal(players[i], cubePlacements);
      scores := scores + [total];
      i := i + 1;
    }
  }

  // ---------------------------------------------------------------------
  // Properties of the totals

  /** The placement at `k` is the first that matches. */
  ghost predicate FirstMatch(placements: seq<Placement>, round: int, color: string, k: int)
  {
    && 0 <= k < |placements| && Matches(placements[k], round, color)
    && forall m :: 0 <= m < k ==> !Matches(placements[m], round, color)
  }

  /** A round's score is that of its first matching placement, and there
      is none exactly when no placement matches. */
  lemma {:induction false} RoundScoreIsFirstMatch(placements: seq<Placement>, round: int, color: string)
    ensures RoundScore(placements, round, color).None? <==> forall m :: 0 <= m < |placements| ==> !Matches(placements[m], round, color)
    ensures forall k :: FirstMatch(placements, round, color, k) ==>
              RoundScore(placements, round, color) == Some(KeyScore(placements[k].key))
  {
    if placements != [] {
      var tail := placements[1..];
      RoundScoreIsFirstMatch(tail, round, color);
      forall m | 0 <= m < |tail| ensures tail[m] == placements[m + 1] { }
      forall k | FirstMatch(placements, round, color, k)
        ensures RoundScore(placements, round, color) == Some(KeyScore(placements[k].key))
      {
        if k > 0 {
          assert FirstMatch(tail, round, color, k - 1);
        }
      }
      if !Matches(placements[0], round, color) && RoundScore(tail, round, color).None? {
        forall m | 0 <= m < |placements| ensures !Matches(placements[m], round, color) {
          if m > 0 { assert placements[m] == tail[m - 1]; }
        }
      }
    }
  }

  /** A placement whose round is not `round` never contributes to it. */
  function KeepRound(placements: seq<Placement>, round: int): (r: seq<Placement>)
    ensures |r| <= |placements|
  {
    if placements == [] then []
    else if KeyRound(placements[0].key) == Num(round) then [placements[0]] + KeepRound(placements[1..], round)
    else KeepRound(placements[1..], round)
  }

  /** Dropping the placements of other rounds leaves a round's score
      unchanged: only keys of that round are looked at. */
  lemma {:induction false} RoundScoreOwnRound(placements: seq<Placement>, round: int, color: string)
    ensures RoundScore(KeepRound(placements, round), round, color) == RoundScore(placements, round, color)
  {
    if placements != [] {
      RoundScoreOwnRound(placements[1..], round, color);
    }
  }

  /** A round number outside 1..4 is never asked for: whatever such keys
      hold, the totals do not change when they are removed. */
  lemma {:induction false} OtherRoundsIgnored(placements: seq<Placement>, extra: seq<Placement>, color: string, rounds: nat)
    requires rounds <= 4
    requires forall k :: 0 <= k < |extra| ==> KeyRound(extra[k].key) !in {Num(1), Num(2), Num(3), Num(4)}
    ensures TotalThrough(placements + extra, color, rounds) == TotalThrough(placements, color, rounds)
  {
    if rounds > 0 {
      OtherRoundsIgnored(placements, extra, color, rounds - 1);
      RoundScoreAppendOther(placements, extra, rounds, color);
    }
  }

  lemma {:induction false} RoundScoreAppendOther(placements: seq<Placement>, extra: seq<Placement>, round: int, color: string)
    requires forall k :: 0 <= k < |extra| ==> KeyRound(extra[k].key) != Num(round)
    ensures RoundScore(placements + extra, round, color) == RoundScore(placements, round, color)
  {
    if placements == [] {
      NoneMatchNone(extra, round, color);
      assert placements + extra == extra;
    } else {
      assert (placements + extra)[1..] == placements[1..] + extra;
      RoundScoreAppendOther(placements[1..], extra, round, color);
    }
  }

  lemma {:induction false} NoneMatchNone(placements: seq<Placement>, round: int, color: string)
    requires forall k :: 0 <= k < |placements| ==> KeyRound(placements[k].key) != Num(round)
    ensures RoundScore(placements, round, color) == None
  {
    if placements != [] {
      NoneMatchNone(placements[1..], round, color);
    }
  }

  /** A player whose colour is on no placement totals 0. */
  lemma {:induction false} UnplacedTotalsZero(placements: seq<Placement>, color: string, rounds: nat)
    requires forall k :: 0 <= k < |placements| ==> placements[k].colors.None? || color !in placements[k].colors.value
    ensures TotalThrough(placements, color, rounds) == Num(0)
  {
    if rounds > 0 {
      UnplacedTotalsZero(placements, color, rounds - 1);
      RoundScoreIsFirstMatch(placements, rounds, color);
    }
  }

  /** A round whose first matching key has no readable score makes the
      whole total NaN. */
  lemma {:induction false} UnreadableScoreNaN(placements: seq<Placement>, color: string, round: nat, rounds: nat)
    requires 1 <= round <= rounds
    requires RoundScore(placements, round, color) == Some(NaN)
    ensures TotalThrough(placements, color, rounds) == NaN
  {
    if rounds > round {
      UnreadableScoreNaN(placements, color, round, rounds - 1);
    }
  }

  /** The keys the goal board writes, "round-score" with a score of at
      least 0, read back as that round and that score. */
  lemma KeyRoundTrip(round: nat, score: nat)
    ensures KeyRound(IntToDecimal(round) + "-" + IntToDecimal(score)) == Num(round)
    ensures KeyScore(IntToDecimal(round) + "-" + IntToDecimal(score)) == Num(score)
  {
    var a, b := IntToDecimal(round), IntToDecimal(score);
    NatToDecimalValue(round);
    NatToDecimalValue(score);
    assert '-' !in a by { assert forall k :: 0 <= k < |a| ==> IsDigit(a[k]); }
    assert '-' !in b by { assert forall k :: 0 <= k < |b| ==> IsDigit(b[k]); }
    var key := a + "-" + b;
    assert IndexOf(key, '-') == Some(|a|) by {
      IndexOfAfter(a, b, '-');
    }
    assert key[..|a|] == a && key[|a| + 1..] == b;
    SplitWithout(b, '-');
    ParseIntDecimal(round);
    ParseIntDecimal(score);
  }

  lemma {:induction false} IndexOfAfter(a: string, b: string, c: char)
    requires c !in a
    ensures IndexOf(a + [c] + b, c) == Some(|a|)
  {
    if a != [] {
      assert (a + [c] + b)[1..] == a[1..] + [c] + b;
      IndexOfAfter(a[1..], b, c);
    }
  }

  // ---------------------------------------------------------------------
  // getOrdinal

  /** JavaScript's `%`: the remainder takes the sign of the dividend. A
      zero remainder is returned as 0, which as an array index reads the
      same entry as JavaScript's -0. */
  function JsRem(a: int, b: int): (r: int)
    requires b > 0
    ensures a >= 0 ==> r == a % b
    ensures a < 0 ==> -b < r <= 0
    ensures a == b * (if a >= 0 then a / b else -((-a) / b)) + r
  {
    if a >= 0 then a % b else -((-a) % b)
  }

  /** Reading `['th', 'st', 'nd', 'rd'][i]`: undefined outside 0..3. */
  function SuffixAt(i: int): Option<string>
  {
    if i == 0 then Some("th")
    else if i == 1 then Some("st")
    else if i == 2 then Some("nd")
    else if i == 3 then Some("rd")
    else None
  }

  /** `s[(v - 20) % 10] || s[v] || s[0]` with `v = n % 100`; every entry is
      a non-empty, so truthy, string. */
  function OrdinalSuffix(n: int): string
  {
    var v := JsRem(n, 100);
    match SuffixAt(JsRem(v - 20, 10))
      case Some(x) => x
      case None =>
        match SuffixAt(v)
          case Some(x) => x
          case None => "th"
  }

  /** getOrdinal: the number's decimal text followed by its suffix. */
  function GetOrdinal(n: int): string
  {
    IntToDecimal(n) + OrdinalSuffix(n)
  }

  /** The English rule: "th" for 11 to 13 modulo 100, otherwise "st",
      "nd", "rd" for last digit 1, 2, 3 and "th" for the rest. */
  function EnglishSuffix(n: nat): string
  {
    if 11 <= n % 100 <= 13 then "th"
    else if n % 10 == 1 then "st"
    else if n % 10 == 2 then "nd"
    else if n % 10 == 3 then "rd"
    else "th"
  }

  /** For every rank the page shows, the suffix follows the English rule. */
  lemma OrdinalSuffixEnglish(n: nat)
    ensures OrdinalSuffix(n) == EnglishSuffix(n)
  {
    var v := n % 100;
    LastDigit(n);
    if v >= 20 {
      assert JsRem(v - 20, 10) == v % 10;
    } else if v == 0 || v == 10 {
      assert JsRem(v - 20, 10) == 0;
    } else if v < 10 {
      assert JsRem(v - 20, 10) == v - 10;
    } else {
      assert JsRem(v - 20, 10) == v - 20;
    }
  }

  /** getOrdinal of a rank: its decimal text and its English suffix. */
  lemma GetOrdinalEnglish(n: nat)
    ensures GetOrdinal(n) == IntToDecimal(n) + EnglishSuffix(n)
  {
    OrdinalSuffixEnglish(n);
  }

  /** The last digit survives taking the last two. */
  lemma LastDigit(n: nat)
    ensures (n % 100) % 10 == n % 10
  {
    var q := n / 100;
    assert n == 10 * (10 * q) + n % 100;
  }

  /** A negative number always gets "th": both lookups are undefined or
      read entry 0. */
  lemma OrdinalSuffixNegative(n: int)
    requires n < 0
    ensures OrdinalSuffix(n) == "th"
  {
  }

  lemma OrdinalExamples()
    ensures OrdinalSuffix(1) == "st" && OrdinalSuffix(2) == "nd" && OrdinalSuffix(3) == "rd" && OrdinalSuffix(4) == "th"
    ensures OrdinalSuffix(11) == "th" && OrdinalSuffix(12) == "th" && OrdinalSuffix(13) == "th"
    ensures OrdinalSuffix(21) == "st" && OrdinalSuffix(112) == "th" && OrdinalSuffix(10) == "th"
  {
  }
}
