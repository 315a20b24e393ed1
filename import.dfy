/** CSV import (import/import.go): text-to-value parsing, the conversion
    of one CSV record to a score sheet, the validation of a game's records,
    the import's own nectar scorer, and the grouping of CSV rows by game.
    The CSV reader is replaced by the sequence of rows (or read failures)
    it would yield; `time.Parse` is a parameter. */
module CsvImport {
  import opened Common
  import opened Placement
  import opened GameEnd

  // ---------------------------------------------------------------------
  // Text

  /** Go's `unicode.IsSpace`: the Latin-1 spaces and the Unicode
      White_Space characters beyond them. */
  predicate IsSpace(c: char)
  {
    var n := c as int;
    || (0x09 <= n <= 0x0D) || n == 0x20 || n == 0x85 || n == 0xA0 || n == 0x1680
    || (0x2000 <= n <= 0x200A) || n == 0x2028 || n == 0x2029 || n == 0x202F || n == 0x205F || n == 0x3000
  }

  function TrimLeft(s: string): (r: string)
    ensures |r| <= |s| && r == s[|s| - |r|..]
    ensures r == [] || !IsSpace(r[0])
  {
    if s != [] && IsSpace(s[0]) then TrimLeft(s[1..]) else s
  }

  function TrimRight(s: string): (r: string)
    ensures |r| <= |s| && r == s[..|r|]
    ensures r == [] || !IsSpace(r[|r| - 1])
  {
    if s != [] && IsSpace(s[|s| - 1]) then TrimRight(s[..|s| - 1]) else s
  }

  /** Neither the first nor the last character is white space. */
  predicate Unpadded(s: string)
  {
    s == [] || (!IsSpace(s[0]) && !IsSpace(s[|s| - 1]))
  }

  /** Go's `strings.TrimSpace`: drops leading and trailing white space; a
      string that neither starts nor ends with white space is unchanged. */
  function TrimSpace(s: string): (r: string)
    ensures |r| <= |s| && Unpadded(r)
    ensures Unpadded(s) ==> r == s
  {
    TrimRight(TrimLeft(s))
  }

  lemma TrimSpaceIdempotent(s: string)
    ensures TrimSpace(TrimSpace(s)) == TrimSpace(s)
  {
  }

  /** The decimal text of an integer has no white space at its ends. */
  lemma DecimalUnpadded(n: int)
    ensures Unpadded(IntToDecimal(n))
  {
    IntToDecimalShape(n);
  }

  /** The value of a string of decimal digits, or None when some
      character is not a digit. */
  function DecimalValue(s: string): Option<nat>
  {
    if s == [] then Some(0)
    else match DecimalValue(s[..|s| - 1])
      case None => None
      case Some(v) => if IsDigit(s[|s| - 1]) then Some(10 * v + (s[|s| - 1] as int - '0' as int)) else None
  }

  lemma {:induction false} DecimalValueDigits(s: string)
    ensures DecimalValue(s).Some? <==> AllDigits(s)
    ensures AllDigits(s) ==> DecimalValue(s) == Some(DigitsValue(s))
  {
    if s != [] {
      var init := s[..|s| - 1];
      DecimalValueDigits(init);
      assert AllDigits(s) ==> AllDigits(init) by {
        if AllDigits(s) {
          forall k | 0 <= k < |init| ensures IsDigit(init[k]) { assert init[k] == s[k]; }
        }
      }
      assert AllDigits(init) && IsDigit(s[|s| - 1]) ==> AllDigits(s) by {
        if AllDigits(init) && IsDigit(s[|s| - 1]) {
          forall k | 0 <= k < |s| ensures IsDigit(s[k]) {
            if k < |init| { assert init[k] == s[k]; }
          }
        }
      }
    }
  }

  /** Go's `strconv.Atoi`: an optional sign and at least one decimal digit,
      whose value fits a 64-bit `int`. */
  function Atoi(s: string): (r: Option<int>)
    ensures r.Some? ==> MinInt64 <= r.value <= MaxInt64
  {
    var signed := |s| > 0 && (s[0] == '+' || s[0] == '-');
    var digits := if signed then s[1..] else s;
    if digits == [] then None
    else match DecimalValue(digits)
      case None => None
      case Some(magnitude) =>
        var v: int := if signed && s[0] == '-' then -(magnitude as int) else magnitude;
        if MinInt64 <= v <= MaxInt64 then Some(v) else None
  }

  datatype FieldProblem = Empty | Invalid | Negative

  /** A field that failed to parse, and why. */
  datatype FieldError = FieldError(fieldName: string, problem: FieldProblem)

  /** parseInt: rejects an empty field, a field Atoi rejects, and a
      negative value, in that order. */
  function ParseInt(s: string, fieldName: string): (r: Result<int, FieldError>)
    ensures r.Ok? ==> 0 <= r.value <= MaxInt64 && Atoi(s) == Some(r.value)
    ensures r.Err? ==> r.error.fieldName == fieldName
    ensures r.Err? && r.error.problem == Empty <==> s == ""
    ensures r.Ok? <==> s != "" && Atoi(s).Some? && Atoi(s).value >= 0
    ensures r.Err? && r.error.problem == Invalid <==> s != "" && Atoi(s).None?
    ensures r.Err? && r.error.problem == Negative <==> Atoi(s).Some? && Atoi(s).value < 0
  {
    if s == "" then Err(FieldError(fieldName, Empty))
    else match Atoi(s)
      case None => Err(FieldError(fieldName, Invalid))
      case Some(v) => if v < 0 then Err(FieldError(fieldName, Negative)) else Ok(v)
  }

  /** Parsing what Itoa prints gives the number back. */
  lemma ParseIntDecimal(n: int, fieldName: string)
    requires 0 <= n <= MaxInt64
    ensures ParseInt(IntToDecimal(n), fieldName) == Ok(n)
  {
    NatToDecimalValue(n);
    DecimalValueDigits(IntToDecimal(n));
  }

  /** A lone minus sign on zero is accepted: "-0" parses to 0. */
  lemma ParseIntMinusZero(fieldName: string)
    ensures ParseInt("-0", fieldName) == Ok(0)
  {
    assert "-0"[1..] == "0";
    assert "0"[..0] == [];
    assert DecimalValue("0") == Some(0);
  }

  /** A negative number is refused as negative, not as malformed. */
  lemma ParseIntNegative(n: int, fieldName: string)
    requires 0 < n <= MaxInt64
    ensures ParseInt("-" + IntToDecimal(n), fieldName) == Err(FieldError(fieldName, Negative))
  {
    NatToDecimalValue(n);
    DecimalValueDigits(IntToDecimal(n));
    var s := "-" + IntToDecimal(n);
    assert s[1..] == IntToDecimal(n);
  }

  function LowerChar(c: char): char
  {
    if 'A' <= c <= 'Z' then (c as int - 'A' as int + 'a' as int) as char else c
  }

  /** `strings.ToLower` as far as it matters here: no character outside
      A-Z lowers to one of the ASCII letters and digits parseBool compares
      against, so lowering A-Z alone decides the same words. */
  function LowerAscii(s: string): (r: string)
    ensures |r| == |s| && forall i :: 0 <= i < |s| ==> r[i] == LowerChar(s[i])
  {
    if s == [] then [] else LowerAscii(s[..|s| - 1]) + [LowerChar(s[|s| - 1])]
  }

  predicate TrueWord(w: string) { w == "true" || w == "yes" || w == "1" || w == "y" }

  predicate FalseWord(w: string) { w == "false" || w == "no" || w == "0" || w == "n" }

  /** parseBool: true/yes/1/y and false/no/0/n in any letter case; the
      error carries the offending text. */
  function ParseBool(s: string): (r: Result<bool, string>)
    ensures r == Ok(true) <==> TrueWord(LowerAscii(s))
    ensures r == Ok(false) <==> FalseWord(LowerAscii(s))
    ensures r.Err? <==> !TrueWord(LowerAscii(s)) && !FalseWord(LowerAscii(s))
  {
    var lower := LowerAscii(s);
    if TrueWord(lower) then Ok(true)
    else if FalseWord(lower) then Ok(false)
    else Err(s)
  }

  /** FormatBool's text parses back to the same flag. */
  lemma ParseBoolFormatBool(b: bool)
    ensures ParseBool(FormatBool(b)) == Ok(b)
  {
    assert LowerAscii("true") == "true";
    assert LowerAscii("false") == "false";
  }

  lemma LowerAsciiIdempotent(s: string)
    ensures LowerAscii(LowerAscii(s)) == LowerAscii(s)
  {
  }

  /** Letter case never matters. */
  lemma ParseBoolIgnoresCase(s: string)
    ensures ParseBool(LowerAscii(s)).Ok? == ParseBool(s).Ok?
    ensures ParseBool(s).Ok? ==> ParseBool(LowerAscii(s)) == ParseBool(s)
  {
    LowerAsciiIdempotent(s);
  }

  // ---------------------------------------------------------------------
  // One record

  /** One CSV row, every field already trimmed. */
  datatype CsvRecord = CsvRecord(
    gameId: string,
    date: string,
    includeOceania: string,
    playerName: string,
    birdPoints: string,
    bonusCards: string,
    roundGoals: string,
    eggs: string,
    cachedFood: string,
    tuckedCards: string,
    nectarForest: string,
    nectarGrassland: string,
    nectarWetland: string,
    unusedFood: string,
    total: string,
    rank: string)

  datatype ConvertError = EmptyName | BadField(fieldError: FieldError) | RankBelowOne

  function Field(s: string, fieldName: string): Result<int, ConvertError>
  {
    match ParseInt(s, fieldName)
    case Ok(v) => Ok(v)
    case Err(e) => Err(BadField(e))
  }

  /** convertPlayer: the record's fields as a score sheet. The name must be
      non-empty and the rank at least 1; a blank UnusedFood reads as 0, a
      blank Total as the sum of the six components; the nectar fields are
      read only for an Oceania game and are 0 otherwise. */
  function ConvertPlayer(record: CsvRecord, includeOceania: bool): (r: Result<PlayerGameEnd, ConvertError>)
    ensures r.Ok? ==> r.value.playerName == record.playerName != ""
    ensures r.Ok? ==> r.value.rank >= 1
    ensures r.Ok? && record.total == "" ==> r.value.total == ComponentSum(r.value)
    ensures r.Ok? && record.unusedFood == "" ==> r.value.unusedFood == 0
    ensures r.Ok? && !includeOceania ==> r.value.nectarForest == r.value.nectarGrassland == r.value.nectarWetland == 0
  {
    if record.playerName == "" then Err(EmptyName) else
    var birdPoints :- Field(record.birdPoints, "BirdPoints");
    var bonusCards :- Field(record.bonusCards, "BonusCards");
    var roundGoals :- Field(record.roundGoals, "RoundGoals");
    var eggs :- Field(record.eggs, "Eggs");
    var cachedFood :- Field(record.cachedFood, "CachedFood");
    var tuckedCards :- Field(record.tuckedCards, "TuckedCards");
    var rank :- Field(record.rank, "Rank");
    if rank < 1 then Err(RankBelowOne) else
    var unusedFood :- if record.unusedFood != "" then Field(record.unusedFood, "UnusedFood") else Ok(0);
    var total :- if record.total != "" then Field(record.total, "Total")
                 else Ok(birdPoints + bonusCards + roundGoals + eggs + cachedFood + tuckedCards);
    var player := PlayerGameEnd(record.playerName, birdPoints, bonusCards, roundGoals, eggs, cachedFood, tuckedCards,
                                0, 0, 0, unusedFood, total, rank);
    if includeOceania then
      var nectarForest :- Field(record.nectarForest, "NectarForest");
      var nectarGrassland :- Field(record.nectarGrassland, "NectarGrassland");
      var nectarWetland :- Field(record.nectarWetland, "NectarWetland");
      Ok(player.(nectarForest := nectarForest, nectarGrassland := nectarGrassland, nectarWetland := nectarWetland))
    else
      Ok(player)
  }

  /** An accepted player's numbers are the values parsed from their
      fields: the six components and the rank always, UnusedFood and
      Total when given, and the nectar counts in an Oceania game. */
  lemma ConvertPlayerParsed(record: CsvRecord, includeOceania: bool)
    ensures var r := ConvertPlayer(record, includeOceania);
      r.Ok? ==>
        && ParseInt(record.birdPoints, "BirdPoints") == Ok(r.value.birdPoints)
        && ParseInt(record.bonusCards, "BonusCards") == Ok(r.value.bonusCards)
        && ParseInt(record.roundGoals, "RoundGoals") == Ok(r.value.roundGoals)
        && ParseInt(record.eggs, "Eggs") == Ok(r.value.eggs)
        && ParseInt(record.cachedFood, "CachedFood") == Ok(r.value.cachedFood)
        && ParseInt(record.tuckedCards, "TuckedCards") == Ok(r.value.tuckedCards)
        && ParseInt(record.rank, "Rank") == Ok(r.value.rank)
        && (record.unusedFood != "" ==> ParseInt(record.unusedFood, "UnusedFood") == Ok(r.value.unusedFood))
        && (record.total != "" ==> ParseInt(record.total, "Total") == Ok(r.value.total))
        && (includeOceania ==>
              && ParseInt(record.nectarForest, "NectarForest") == Ok(r.value.nectarForest)
              && ParseInt(record.nectarGrassland, "NectarGrassland") == Ok(r.value.nectarGrassland)
              && ParseInt(record.nectarWetland, "NectarWetland") == Ok(r.value.nectarWetland))
  {
  }

  /** The fields a sheet needs, each parsing as a non-negative number. */
  ghost predicate Parses(s: string)
  {
    ParseInt(s, "").Ok?
  }

  /** Exactly when convertPlayer accepts a record. */
  lemma ConvertPlayerAccepts(record: CsvRecord, includeOceania: bool)
    ensures ConvertPlayer(record, includeOceania).Ok? <==>
      && record.playerName != ""
      && Parses(record.birdPoints) && Parses(record.bonusCards) && Parses(record.roundGoals)
      && Parses(record.eggs) && Parses(record.cachedFood) && Parses(record.tuckedCards)
      && Parses(record.rank) && ParseInt(record.rank, "").value >= 1
      && (record.unusedFood == "" || Parses(record.unusedFood))
      && (record.total == "" || Parses(record.total))
      && (includeOceania ==> Parses(record.nectarForest) && Parses(record.nectarGrassland) && Parses(record.nectarWetland))
  {
  }

  // ---------------------------------------------------------------------
  // The import's nectar scorer: top two per habitat, no tie averaging

  /** Every player's nectar in a habitat, in player order (the source's
      `nectarCount` slices). */
  function AllCounts(players: seq<PlayerGameEnd>, h: Habitat): (cs: seq<Contender>)
    ensures |cs| == |players|
    ensures forall i :: 0 <= i < |players| ==> cs[i] == Contender(players[i].playerName, NectarIn(players[i], h))
  {
    if players == [] then []
    else AllCounts(players[..|players| - 1], h) + [Contender(players[|players| - 1].playerName, NectarIn(players[|players| - 1], h))]
  }

  /** One comparison of the exchange sort: a later count that beats the
      one at `i` changes places with it. */
  function ExchangeStep(s: seq<Contender>, i: nat, j: nat): (r: seq<Contender>)
    requires i < j < |s|
    ensures |r| == |s|
  {
    if s[j].count > s[i].count then Swap(s, i, j) else s
  }

  /** A comparison step only rearranges. */
  lemma ExchangeStepMultiset(s: seq<Contender>, i: nat, j: nat)
    requires i < j < |s|
    ensures multiset(ExchangeStep(s, i, j)) == multiset(s)
  {
    if s[j].count > s[i].count {
      assert Swap(s, i, j) == s[i := s[j]][j := s[i]];
    }
  }

  /** One pass `j := i + 1 ..` of findTopTwo's exchange sort: whichever
      later count beats the one at `i` is swapped into place `i`. */
  function ExchangePass(s: seq<Contender>, i: nat, j: nat): (r: seq<Contender>)
    requires i < j <= |s|
    ensures |r| == |s|
    decreases |s| - j
  {
    if j == |s| then s
    else ExchangePass(ExchangeStep(s, i, j), i, j + 1)
  }

  /** The passes `i ..` of the exchange sort. */
  function ExchangeFrom(s: seq<Contender>, i: nat): (r: seq<Contender>)
    requires i <= |s|
    ensures |r| == |s|
    decreases |s| - i
  {
    if i + 1 >= |s| then s else ExchangeFrom(ExchangePass(s, i, i + 1), i + 1)
  }

  function ExchangeSort(s: seq<Contender>): (r: seq<Contender>)
    ensures |r| == |s|
  {
    ExchangeFrom(s, 0)
  }

  /** The first player with the highest count. */
  function FirstMaxIndex(s: seq<Contender>): (k: nat)
    requires s != []
    ensures k < |s|
    ensures forall l :: 0 <= l < |s| ==> s[l].count <= s[k].count
    ensures forall l :: 0 <= l < k ==> s[l].count < s[k].count
  {
    if |s| == 1 then 0
    else
      var m := FirstMaxIndex(s[..|s| - 1]);
      if s[|s| - 1].count > s[m].count then |s| - 1 else m
  }

  lemma FirstMaxIndexUnique(s: seq<Contender>, k: nat)
    requires k < |s|
    requires forall l :: 0 <= l < |s| ==> s[l].count <= s[k].count
    requires forall l :: 0 <= l < k ==> s[l].count < s[k].count
    ensures FirstMaxIndex(s) == k
  {
    var m := FirstMaxIndex(s);
    assert !(m < k) && !(k < m);
  }

  /** A pass keeps the multiset of counts. */
  lemma {:induction false} ExchangePassMultiset(s: seq<Contender>, i: nat, j: nat)
    requires i < j <= |s|
    ensures multiset(ExchangePass(s, i, j)) == multiset(s)
    decreases |s| - j
  {
    if j == |s| {
      assert ExchangePass(s, i, j) == s;
    } else {
      var t := ExchangeStep(s, i, j);
      ExchangeStepMultiset(s, i, j);
      ExchangePassMultiset(t, i, j + 1);
      assert ExchangePass(s, i, j) == ExchangePass(t, i, j + 1);
    }
  }

  /** A pass leaves the places before `i` alone and leaves at `i` a count
      no later one beats. */
  lemma {:induction false} ExchangePassFacts(s: seq<Contender>, i: nat, j: nat)
    requires i < j <= |s|
    requires forall k :: i < k < j ==> s[k].count <= s[i].count
    ensures multiset(ExchangePass(s, i, j)) == multiset(s)
    ensures ExchangePass(s, i, j)[..i] == s[..i]
    ensures forall k :: i < k < |s| ==> ExchangePass(s, i, j)[k].count <= ExchangePass(s, i, j)[i].count
    decreases |s| - j
  {
    ExchangePassMultiset(s, i, j);
    if j < |s| {
      var t := ExchangeStep(s, i, j);
      if s[j].count > s[i].count {
        SwapFacts(s, i, j);
      } else {
        assert forall k :: i < k < j + 1 ==> t[k].count <= t[i].count;
      }
      ExchangePassFacts(t, i, j + 1);
    }
  }

  /** Swapping a larger count into place `i` keeps place `i` a maximum of
      the places up to `j` and leaves the places before `i` alone. */
  lemma SwapFacts(s: seq<Contender>, i: nat, j: nat)
    requires i < j < |s| && s[j].count > s[i].count
    requires forall k :: i < k < j ==> s[k].count <= s[i].count
    ensures Swap(s, i, j)[..i] == s[..i]
    ensures forall k :: i < k < j + 1 ==> Swap(s, i, j)[k].count <= Swap(s, i, j)[i].count
  {
  }

  /** The first pass leaves at place 0 the first player with the highest
      count: a later player takes the place only with a strictly greater
      count, and the places after `j` are still untouched. */
  lemma {:induction false} ExchangePassLeader(orig: seq<Contender>, s: seq<Contender>, j: nat)
    requires 0 < j <= |s| == |orig|
    requires s[j..] == orig[j..]
    requires s[0] == orig[FirstMaxIndex(orig[..j])]
    ensures ExchangePass(s, 0, j)[0] == orig[FirstMaxIndex(orig)]
    decreases |s| - j
  {
    if j == |s| {
      assert orig[..j] == orig;
    } else {
      var t := ExchangeStep(s, 0, j);
      assert t[j + 1..] == orig[j + 1..];
      assert orig[..j + 1][..j] == orig[..j];
      assert s[j] == orig[j];
      var m := FirstMaxIndex(orig[..j]);
      if s[j].count > s[0].count {
        FirstMaxIndexUnique(orig[..j + 1], j);
      } else {
        FirstMaxIndexUnique(orig[..j + 1], m);
      }
      ExchangePassLeader(orig, t, j + 1);
    }
  }

  /** The places before `i` hold the largest counts, in descending order. */
  ghost predicate SettledBefore(s: seq<Contender>, i: nat)
  {
    forall a, b :: 0 <= a < b < |s| && a < i ==> s[a].count >= s[b].count
  }

  /** Two rearrangements that agree before `i` agree as multisets after it. */
  lemma SameTail(s: seq<Contender>, t: seq<Contender>, i: nat)
    requires i <= |s| == |t| && t[..i] == s[..i] && multiset(t) == multiset(s)
    ensures multiset(t[i..]) == multiset(s[i..])
  {
    assert s[..i] + s[i..] == s && t[..i] + t[i..] == t;
    assert multiset(s[..i] + s[i..]) == multiset(s[..i]) + multiset(s[i..]);
    assert multiset(t[..i] + t[i..]) == multiset(t[..i]) + multiset(t[i..]);
    forall x ensures multiset(t[i..])[x] == multiset(s[i..])[x] {
      assert multiset(t)[x] == multiset(t[..i])[x] + multiset(t[i..])[x];
      assert multiset(s)[x] == multiset(s[..i])[x] + multiset(s[i..])[x];
    }
  }

  /** Where an element of the tail of `t` sits in the tail of `s`. */
  lemma TailIndex(s: seq<Contender>, t: seq<Contender>, i: nat, b: nat) returns (k: nat)
    requires i <= b < |t| && i <= |s| && multiset(t[i..]) == multiset(s[i..])
    ensures i <= k < |s| && s[k] == t[b]
  {
    assert t[b] == t[i..][b - i];
    MultisetMember(s[i..], t[b]);
    var m :| 0 <= m < |s[i..]| && s[i..][m] == t[b];
    k := i + m;
  }

  lemma SettledAfterPass(s: seq<Contender>, i: nat)
    requires i + 1 < |s| && SettledBefore(s, i)
    ensures SettledBefore(ExchangePass(s, i, i + 1), i + 1)
    ensures multiset(ExchangePass(s, i, i + 1)) == multiset(s)
  {
    ExchangePassFacts(s, i, i + 1);
    var t := ExchangePass(s, i, i + 1);
    SameTail(s, t, i);
    forall a, b | 0 <= a < b < |t| && a < i + 1 ensures t[a].count >= t[b].count {
      if a < i {
        assert t[a] == s[a] by { assert t[..i][a] == s[..i][a]; }
        if b < i {
          assert t[b] == s[b] by { assert t[..i][b] == s[..i][b]; }
        } else {
          var k := TailIndex(s, t, i, b);
          assert s[a].count >= s[k].count;
        }
      }
    }
  }

  lemma {:induction false} ExchangeFromFacts(s: seq<Contender>, i: nat)
    requires i <= |s| && SettledBefore(s, i)
    ensures multiset(ExchangeFrom(s, i)) == multiset(s)
    ensures ExchangeFrom(s, i)[..i] == s[..i]
    ensures Descending(ExchangeFrom(s, i), ContenderCount)
    decreases |s| - i
  {
    if i + 1 >= |s| {
      forall a, b | 0 <= a < b < |s| ensures s[a].count >= s[b].count { }
    } else {
      SettledAfterPass(s, i);
      ExchangePassFacts(s, i, i + 1);
      var t := ExchangePass(s, i, i + 1);
      ExchangeFromFacts(t, i + 1);
      var r := ExchangeFrom(t, i + 1);
      assert r[..i] == r[..i + 1][..i];
      assert t[..i] == s[..i];
    }
  }

  /** What the exchange sort achieves: the counts in descending order, a
      rearrangement of its input, led by the first player with the highest
      count. */
  lemma ExchangeSortFacts(s: seq<Contender>)
    ensures multiset(ExchangeSort(s)) == multiset(s)
    ensures Descending(ExchangeSort(s), ContenderCount)
    ensures s != [] ==> ExchangeSort(s)[0] == s[FirstMaxIndex(s)]
  {
    ExchangeFromFacts(s, 0);
    if |s| > 1 {
      assert s[..1] == [s[0]];
      ExchangePassLeader(s, s, 1);
      var t := ExchangePass(s, 0, 1);
      SettledAfterPass(s, 0);
      ExchangeFromFacts(t, 1);
      assert ExchangeFrom(t, 1)[..1][0] == t[..1][0];
    }
  }

  /** findTopTwo after its sort: the first name, and the second name only
      when the second count is positive. */
  function TopTwo(sorted: seq<Contender>): (r: (string, string))
    ensures sorted == [] ==> r == ("", "")
    ensures sorted != [] ==> r.0 == sorted[0].name
    ensures r.1 != "" ==> |sorted| > 1 && sorted[1].count > 0 && r.1 == sorted[1].name
    ensures |sorted| > 1 && sorted[1].count > 0 ==> r.1 == sorted[1].name
  {
    if sorted == [] then ("", "")
    else (sorted[0].name, if |sorted| > 1 && sorted[1].count > 0 then sorted[1].name else "")
  }

  /** The habitat's map: 5 under the first name, then 2 under the second,
      an empty name standing for nobody. A second name equal to the first
      overwrites its 5. */
  function TopTwoAwards(first: string, second: string): (m: map<string, int>)
    ensures m.Keys <= {first, second} && "" !in m
    ensures second != "" ==> second in m && m[second] == 2
    ensures first != "" && first != second ==> first in m && m[first] == 5
  {
    var leader := if first != "" then map[first := 5] else map[];
    if second != "" then leader[second := 2] else leader
  }

  /** The map calculateNectarScoring builds for one habitat from the
      counts in player order. */
  function LeaderAwards(counts: seq<Contender>): map<string, int>
  {
    var r := TopTwo(ExchangeSort(counts));
    TopTwoAwards(r.0, r.1)
  }

  function ImportHabitatAwards(players: seq<PlayerGameEnd>, h: Habitat): map<string, int>
  {
    LeaderAwards(AllCounts(players, h))
  }

  /** calculateNectarScoring: the import's nectar maps. */
  function ImportNectar(players: seq<PlayerGameEnd>): NectarScoring
  {
    NectarScoring(ImportHabitatAwards(players, Forest), ImportHabitatAwards(players, Grassland),
                  ImportHabitatAwards(players, Wetland))
  }

  /** findTopTwo: sorts `counts` in place with the exchange sort and reads
      off the top two names. */
  method FindTopTwo(counts: array<Contender>) returns (first: string, second: string)
    modifies counts
    ensures counts[..] == ExchangeSort(old(counts[..]))
    ensures (first, second) == TopTwo(counts[..])
  {
    if counts.Length == 0 {
      return "", "";
    }
    ghost var orig := counts[..];
    var i := 0;
    while i < counts.Length - 1
      invariant 0 <= i <= counts.Length - 1
      invariant ExchangeFrom(counts[..], i) == ExchangeSort(orig)
    {
      ghost var passStart := counts[..];
      ExchangePassInPlace(counts, i);
      assert ExchangeFrom(passStart, i) == ExchangeFrom(counts[..], i + 1);
      i := i + 1;
    }
    first := counts[0].name;
    second := "";
    if counts.Length > 1 && counts[1].count > 0 {
      second := counts[1].name;
    }
  }

  /** The inner loop of findTopTwo's sort: pass `i`. */
  method ExchangePassInPlace(counts: array<Contender>, i: nat)
    requires i + 1 < counts.Length
    modifies counts
    ensures counts[..] == ExchangePass(old(counts[..]), i, i + 1)
  {
    var j := i + 1;
    while j < counts.Length
      invariant i < j <= counts.Length
      invariant ExchangePass(counts[..], i, j) == ExchangePass(old(counts[..]), i, i + 1)
    {
      ghost var before := counts[..];
      if counts[j].count > counts[i].count {
        counts[i], counts[j] := counts[j], counts[i];
      }
      assert counts[..] == ExchangeStep(before, i, j);
      j := j + 1;
    }
  }

  /** One habitat of calculateNectarScoring: collect every player's count
      in player order, find the top two, write the map. */
  method ScoreImportHabitat(players: seq<PlayerGameEnd>, h: Habitat) returns (points: map<string, int>)
    ensures points == ImportHabitatAwards(players, h)
  {
    var counts := new Contender[|players|];
    var k := 0;
    while k < |players|
      invariant 0 <= k <= |players|
      invariant forall l :: 0 <= l < k ==> counts[l] == Contender(players[l].playerName, NectarIn(players[l], h))
    {
      counts[k] := Contender(players[k].playerName, NectarIn(players[k], h));
      k := k + 1;
    }
    assert counts[..] == AllCounts(players, h);
    var first, second := FindTopTwo(counts);
    points := map[];
    if first != "" {
      points := points[first := 5];
    }
    if second != "" {
      points := points[second := 2];
    }
  }

  method CalculateImportNectar(players: seq<PlayerGameEnd>) returns (scoring: NectarScoring)
    ensures scoring == ImportNectar(players)
  {
    var forest := ScoreImportHabitat(players, Forest);
    var grassland := ScoreImportHabitat(players, Grassland);
    var wetland := ScoreImportHabitat(players, Wetland);
    scoring := NectarScoring(forest, grassland, wetland);
  }

  // ---------------------------------------------------------------------
  // What the import's nectar scorer promises

  /** Rearranging a field with distinct names keeps them distinct. */
  lemma NamesDistinctPermutation(s: seq<Contender>, t: seq<Contender>)
    requires multiset(t) == multiset(s) && NamesDistinct(s)
    ensures NamesDistinct(t)
  {
    assert t[0..] == t && s[0..] == s;
    forall i, j | 0 <= i < j < |t| ensures t[i].name != t[j].name {
      if t[i].name == t[j].name {
        var k := TailIndex(s, t, 0, i);
        var l := TailIndex(s, t, 0, j);
        if k == l {
          TwiceMultiplicity(t, i, j);
          DistinctMultiplicity(s, t[i]);
        }
        assert false;
      }
    }
  }

  /** Where an element of a rearrangement sits in the original. */
  lemma IndexIn(s: seq<Contender>, t: seq<Contender>, b: nat) returns (k: nat)
    requires multiset(t) == multiset(s) && b < |t|
    ensures k < |s| && s[k] == t[b]
  {
    assert t[0..] == t && s[0..] == s;
    k := TailIndex(s, t, 0, b);
  }

  /** The exchange sort's result, with distinct names: sorted descending,
      led by the first player with the highest count, names still
      distinct. */
  lemma SortedField(counts: seq<Contender>)
    requires NamesDistinct(counts)
    ensures multiset(ExchangeSort(counts)) == multiset(counts)
    ensures Descending(ExchangeSort(counts), ContenderCount)
    ensures NamesDistinct(ExchangeSort(counts))
    ensures counts != [] ==> ExchangeSort(counts)[0] == counts[FirstMaxIndex(counts)]
  {
    ExchangeSortFacts(counts);
    NamesDistinctPermutation(counts, ExchangeSort(counts));
  }

  /** Every habitat map holds at most two players, one on 5 and one on 2,
      and never the empty name: at most 7 points in all. */
  lemma LeaderAwardsShape(counts: seq<Contender>)
    ensures forall k :: k in LeaderAwards(counts) ==> LeaderAwards(counts)[k] == 5 || LeaderAwards(counts)[k] == 2
    ensures forall k, l ::
      (k in LeaderAwards(counts) && l in LeaderAwards(counts) && LeaderAwards(counts)[k] == LeaderAwards(counts)[l]) ==> k == l
    ensures "" !in LeaderAwards(counts)
  {
    var r := TopTwo(ExchangeSort(counts));
    var m := TopTwoAwards(r.0, r.1);
    forall k | k in m ensures (k == r.1 && m[k] == 2) || (k == r.0 && k != r.1 && m[k] == 5) { }
  }

  /** With distinct names, the first player (in player order) holding the
      highest count gets 5: ties for first are not averaged, and the
      leader scores even when every count is 0. */
  lemma LeaderGetsFive(counts: seq<Contender>)
    requires counts != [] && NamesDistinct(counts)
    requires counts[FirstMaxIndex(counts)].name != ""
    ensures counts[FirstMaxIndex(counts)].name in LeaderAwards(counts)
    ensures LeaderAwards(counts)[counts[FirstMaxIndex(counts)].name] == 5
  {
    SortedField(counts);
    var sorted := ExchangeSort(counts);
    var r := TopTwo(sorted);
    assert r.0 == sorted[0].name;
    assert r.1 != r.0 by {
      if r.1 != "" { assert sorted[1].name != sorted[0].name; }
    }
  }

  /** Player `i` holds `name`, is not the leader, holds nectar, and no
      other non-leader holds more. */
  ghost predicate RunnerUpAt(counts: seq<Contender>, i: int, name: string)
  {
    && 0 <= i < |counts| && i != FirstMaxIndex(counts) && counts[i].name == name && counts[i].count > 0
    && forall j :: 0 <= j < |counts| && j != FirstMaxIndex(counts) ==> counts[j].count <= counts[i].count
  }

  /** With distinct names, 2 goes only to a player other than the leader
      who holds nectar and whose count no other non-leader beats. */
  lemma RunnerUpGetsTwo(counts: seq<Contender>, name: string)
    requires NamesDistinct(counts)
    requires name in LeaderAwards(counts) && LeaderAwards(counts)[name] == 2
    ensures exists i :: RunnerUpAt(counts, i, name)
  {
    SortedField(counts);
    var sorted := ExchangeSort(counts);
    var r := TopTwo(sorted);
    assert name == r.1;
    var leader := FirstMaxIndex(counts);
    var i := IndexIn(counts, sorted, 1);
    assert i != leader by { assert sorted[1].name != sorted[0].name; }
    forall j | 0 <= j < |counts| && j != leader ensures counts[j].count <= counts[i].count {
      var k := IndexIn(sorted, counts, j);
      assert k != 0;
      assert ContenderCount(sorted[1]) >= ContenderCount(sorted[k]);
    }
    assert RunnerUpAt(counts, i, name);
  }

  /** Conversely, when every player is named and some player other than
      the leader holds nectar, someone gets 2. */
  lemma SomeoneGetsTwo(counts: seq<Contender>, j: nat)
    requires NamesDistinct(counts) && forall i :: 0 <= i < |counts| ==> counts[i].name != ""
    requires j < |counts| && j != FirstMaxIndex(counts) && counts[j].count > 0
    ensures 2 in LeaderAwards(counts).Values
  {
    SecondHoldsNectar(counts, j);
    var r := TopTwo(ExchangeSort(counts));
    assert r.1 in TopTwoAwards(r.0, r.1);
  }

  /** When a player other than the leader holds nectar, so does the
      second place of the sorted field, and it is a named player. */
  lemma SecondHoldsNectar(counts: seq<Contender>, j: nat)
    requires NamesDistinct(counts) && forall i :: 0 <= i < |counts| ==> counts[i].name != ""
    requires j < |counts| && j != FirstMaxIndex(counts) && counts[j].count > 0
    ensures |ExchangeSort(counts)| > 1 && ExchangeSort(counts)[1].count > 0
    ensures ExchangeSort(counts)[1].name != ""
  {
    SortedField(counts);
    var sorted := ExchangeSort(counts);
    var k := IndexIn(sorted, counts, j);
    assert k != 0;
    assert ContenderCount(sorted[1]) >= ContenderCount(sorted[k]);
    var i := IndexIn(counts, sorted, 1);
  }

  /** When nobody holds nectar, the first player alone gets 5. */
  lemma NoNectarLeaderStillScores(counts: seq<Contender>)
    requires counts != [] && counts[0].name != ""
    requires forall i :: 0 <= i < |counts| ==> counts[i].count == 0
    ensures LeaderAwards(counts) == map[counts[0].name := 5]
  {
    ExchangeSortFacts(counts);
    FirstMaxIndexUnique(counts, 0);
    var sorted := ExchangeSort(counts);
    if |sorted| > 1 {
      var i := IndexIn(counts, sorted, 1);
    }
  }

  /** Two players tied on 4 ahead of one on 2: the import gives the first
      of them 5 and the second 2 (where the game-end scorer gives 3 each,
      see GameEnd.NectarExampleTiedFirst). */
  lemma ImportExampleTiedFirst(x: Contender, y: Contender, z: Contender)
    requires x.count == 4 && y.count == 4 && z.count == 2
    requires x.name != "" && y.name != "" && x.name != y.name
    ensures LeaderAwards([x, y, z]) == map[x.name := 5, y.name := 2]
  {
    var cs := [x, y, z];
    assert ExchangeStep(cs, 0, 1) == cs && ExchangeStep(cs, 0, 2) == cs && ExchangeStep(cs, 1, 2) == cs;
    assert ExchangePass(cs, 0, 2) == ExchangePass(cs, 0, 3) == cs;
    assert ExchangePass(cs, 0, 1) == cs;
    assert ExchangePass(cs, 1, 2) == ExchangePass(cs, 1, 3) == cs;
    assert ExchangeFrom(cs, 1) == ExchangeFrom(cs, 2) == cs;
    assert ExchangeSort(cs) == cs;
  }

  /** With a repeated name the runner-up's write overwrites the leader's:
      players "A" on 3 and "A" on 1 leave "A" with 2, not 5. */
  lemma RepeatedNameLeaderGetsTwo(x: Contender, y: Contender)
    requires x.name == y.name != "" && x.count == 3 && y.count == 1
    ensures LeaderAwards([x, y]) == map[x.name := 2]
  {
    var cs := [x, y];
    assert ExchangeStep(cs, 0, 1) == cs;
    assert ExchangePass(cs, 0, 1) == ExchangePass(cs, 0, 2) == cs;
    assert ExchangePass(cs, 1, 2) == cs;
    assert ExchangeFrom(cs, 1) == cs;
    assert ExchangeSort(cs) == cs;
  }

  // ---------------------------------------------------------------------
  // One game

  /** The instant `parseDate` yields; the model never looks inside it. */
  type Instant = int

  datatype GameError =
    | NoPlayers
    | InvalidDate
    | InvalidOceania(text: string)
    | InvalidPlayerCount(count: nat)
    | InconsistentDates
    | InconsistentOceania
    | PlayerInvalid(playerName: string, error: ConvertError)
    | DuplicateRank(rank: int)
    | MissingRank(rank: int)
    | NoWinner

  /** The fields of `db.GameResult` that ValidateAndConvertGame fills. */
  datatype GameResult = GameResult(
    createdAt: Instant,
    numPlayers: nat,
    includeOceania: bool,
    winnerName: string,
    winnerScore: int,
    players: seq<PlayerGameEnd>,
    nectarScoring: Option<NectarScoring>)

  function Prepend(prefix: seq<PlayerGameEnd>, r: Result<seq<PlayerGameEnd>, GameError>): Result<seq<PlayerGameEnd>, GameError>
  {
    if r.Ok? then Ok(prefix + r.value) else r
  }

  /** The checks on one record inside ValidateAndConvertGame's loop: the
      first record's Date and IncludeOceania text, a record that
      converts, and a rank not in `seen`. */
  function CheckRecord(record: CsvRecord, first: CsvRecord, includeOceania: bool, seen: set<int>)
    : (r: Result<PlayerGameEnd, GameError>)
    ensures r.Ok? <==> (record.date == first.date && record.includeOceania == first.includeOceania &&
      ConvertPlayer(record, includeOceania).Ok? && ConvertPlayer(record, includeOceania).value.rank !in seen)
    ensures r.Ok? ==> r.value == ConvertPlayer(record, includeOceania).value
  {
    if record.date != first.date then Err(InconsistentDates)
    else if record.includeOceania != first.includeOceania then Err(InconsistentOceania)
    else match ConvertPlayer(record, includeOceania)
      case Err(e) => Err(PlayerInvalid(record.playerName, e))
      case Ok(player) => if player.rank in seen then Err(DuplicateRank(player.rank)) else Ok(player)
  }

  /** The per-record loop of ValidateAndConvertGame from a point where the
      ranks in `seen` are taken: the first failing record's error, or
      every record converted. */
  function ConvertRecords(records: seq<CsvRecord>, first: CsvRecord, includeOceania: bool, seen: set<int>)
    : (r: Result<seq<PlayerGameEnd>, GameError>)
    ensures r.Ok? ==> |r.value| == |records|
    ensures r.Err? ==> r.error.InconsistentDates? || r.error.InconsistentOceania? || r.error.PlayerInvalid? || r.error.DuplicateRank?
    decreases |records|
  {
    if records == [] then Ok([])
    else match CheckRecord(records[0], first, includeOceania, seen)
      case Err(e) => Err(e)
      case Ok(player) => Prepend([player], ConvertRecords(records[1..], first, includeOceania, seen + {player.rank}))
  }

  /** The ranks the players hold. */
  function RankSet(players: seq<PlayerGameEnd>): (ranks: set<int>)
    ensures forall i :: 0 <= i < |players| ==> players[i].rank in ranks
  {
    if players == [] then {} else RankSet(players[..|players| - 1]) + {players[|players| - 1].rank}
  }

  /** Every rank in the set is some player's. */
  lemma {:induction false} RankSetMember(players: seq<PlayerGameEnd>, r: int) returns (i: nat)
    requires r in RankSet(players)
    ensures i < |players| && players[i].rank == r
  {
    var last := players[|players| - 1];
    if r == last.rank {
      i := |players| - 1;
    } else {
      i := RankSetMember(players[..|players| - 1], r);
    }
  }

  /** The smallest rank in `i ..= n` that nobody holds. */
  function MissingRankFrom(ranks: set<int>, i: int, n: int): (r: Option<int>)
    ensures r.Some? ==> i <= r.value <= n && r.value !in ranks && forall k :: i <= k < r.value ==> k in ranks
    ensures r.None? ==> forall k :: i <= k <= n ==> k in ranks
    decreases n - i
  {
    if i > n then None else if i !in ranks then Some(i) else MissingRankFrom(ranks, i + 1, n)
  }

  /** The first player with rank 1. */
  function FirstWinner(players: seq<PlayerGameEnd>): (w: Option<nat>)
    ensures w.Some? ==> w.value < |players| && players[w.value].rank == 1
    ensures w.Some? ==> forall l :: 0 <= l < w.value ==> players[l].rank != 1
    ensures w.None? <==> forall l :: 0 <= l < |players| ==> players[l].rank != 1
  {
    if players == [] then None
    else if players[0].rank == 1 then Some(0)
    else match FirstWinner(players[1..])
      case None => None
      case Some(k) => Some(k + 1)
  }

  /** ValidateAndConvertGame, check by check in the source's order. */
  function ValidateGame(records: seq<CsvRecord>, parseDate: string -> Option<Instant>): (r: Result<GameResult, GameError>)
    ensures r.Ok? ==> r.value.numPlayers == |records| == |r.value.players|
    ensures r.Ok? ==> r.value.nectarScoring.Some? == r.value.includeOceania
  {
    if records == [] then Err(NoPlayers)
    else
      var first := records[0];
      match parseDate(first.date)
      case None => Err(InvalidDate)
      case Some(createdAt) =>
        match ParseBool(first.includeOceania)
        case Err(text) => Err(InvalidOceania(text))
        case Ok(includeOceania) =>
          if |records| < 2 || |records| > 5 then Err(InvalidPlayerCount(|records|))
          else
            match ConvertRecords(records, first, includeOceania, {})
            case Err(e) => Err(e)
            case Ok(players) =>
              match MissingRankFrom(RankSet(players), 1, |players|)
              case Some(missing) => Err(MissingRank(missing))
              case None =>
                match FirstWinner(players)
                case None => Err(NoWinner)
                case Some(w) =>
                  Ok(GameResult(createdAt, |players|, includeOceania, players[w].playerName, players[w].total, players,
                                if includeOceania then Some(ImportNectar(players)) else None))
  }

  /** ValidateAndConvertGame (the unused game ID parameter dropped). */
  method ValidateAndConvertGame(records: seq<CsvRecord>, parseDate: string -> Option<Instant>)
    returns (r: Result<GameResult, GameError>)
    ensures r == ValidateGame(records, parseDate)
  {
    if |records| == 0 {
      return Err(NoPlayers);
    }
    var first := records[0];
    var date := parseDate(first.date);
    if date.None? {
      return Err(InvalidDate);
    }
    var flag := ParseBool(first.includeOceania);
    if flag.Err? {
      return Err(InvalidOceania(flag.error));
    }
    var includeOceania := flag.value;
    if |records| < 2 || |records| > 5 {
      return Err(InvalidPlayerCount(|records|));
    }
    var players, seenRanks, hasWinner, failure := ConvertAll(records, first, includeOceania);
    if failure.Some? {
      return Err(failure.value);
    }
    var missing := FindMissingRank(seenRanks, |players|);
    if missing.Some? {
      return Err(MissingRank(missing.value));
    }
    if !hasWinner {
      return Err(NoWinner);
    }
    var nectarScoring: Option<NectarScoring> := None;
    if includeOceania {
      var nectar := CalculateImportNectar(players);
      nectarScoring := Some(nectar);
    }
    var winnerName, winnerScore := FindWinner(players);
    r := Ok(GameResult(date.value, |players|, includeOceania, winnerName, winnerScore, players, nectarScoring));
  }

  /** The per-record loop: on success the converted players in record
      order, the set of their ranks, and whether one has rank 1. */
  method ConvertAll(records: seq<CsvRecord>, first: CsvRecord, includeOceania: bool)
    returns (players: seq<PlayerGameEnd>, seenRanks: set<int>, hasWinner: bool, failure: Option<GameError>)
    ensures failure.Some? <==> ConvertRecords(records, first, includeOceania, {}).Err?
    ensures failure.Some? ==> ConvertRecords(records, first, includeOceania, {}) == Err(failure.value)
    ensures failure.None? ==> ConvertRecords(records, first, includeOceania, {}) == Ok(players)
    ensures failure.None? ==> seenRanks == RankSet(players)
    ensures failure.None? ==> (hasWinner <==> exists l :: 0 <= l < |players| && players[l].rank == 1)
  {
    players, seenRanks, hasWinner, failure := [], {}, false, None;
    var k := 0;
    assert records[k..] == records;
    PrependNothing(ConvertRecords(records, first, includeOceania, {}));
    while k < |records|
      invariant 0 <= k <= |records| && |players| == k
      invariant seenRanks == RankSet(players)
      invariant hasWinner <==> exists l :: 0 <= l < k && players[l].rank == 1
      invariant ConvertRecords(records, first, includeOceania, {})
        == Prepend(players, ConvertRecords(records[k..], first, includeOceania, seenRanks))
    {
      var record := records[k];
      var player := CheckRecord(record, first, includeOceania, seenRanks);
      ConvertRecordsAt(records, k, first, includeOceania, seenRanks);
      if player.Err? {
        return players, seenRanks, hasWinner, Some(player.error);
      }
      ghost var rest := ConvertRecords(records[k + 1..], first, includeOceania, seenRanks + {player.value.rank});
      PrependTwice(players, player.value, rest);
      seenRanks := seenRanks + {player.value.rank};
      if player.value.rank == 1 {
        hasWinner := true;
      }
      players := players + [player.value];
      assert players[..k] == players[..|players| - 1];
      assert ConvertRecords(records, first, includeOceania, {}) == Prepend(players, rest);
      k := k + 1;
    }
    assert records[k..] == [];
    assert players + [] == players;
  }

  /** One step of ConvertRecords at record `k`. */
  lemma ConvertRecordsAt(records: seq<CsvRecord>, k: nat, first: CsvRecord, includeOceania: bool, seen: set<int>)
    requires k < |records|
    ensures CheckRecord(records[k], first, includeOceania, seen).Err? ==>
      ConvertRecords(records[k..], first, includeOceania, seen) == Err(CheckRecord(records[k], first, includeOceania, seen).error)
    ensures CheckRecord(records[k], first, includeOceania, seen).Ok? ==>
      var player := CheckRecord(records[k], first, includeOceania, seen).value;
      ConvertRecords(records[k..], first, includeOceania, seen)
        == Prepend([player], ConvertRecords(records[k + 1..], first, includeOceania, seen + {player.rank}))
  {
    assert records[k..][0] == records[k] && records[k..][1..] == records[k + 1..];
  }

  lemma PrependNothing(r: Result<seq<PlayerGameEnd>, GameError>)
    ensures Prepend([], r) == r
  {
    if r.Ok? {
      assert [] + r.value == r.value;
    }
  }

  lemma PrependTwice(prefix: seq<PlayerGameEnd>, p: PlayerGameEnd, r: Result<seq<PlayerGameEnd>, GameError>)
    ensures Prepend(prefix, Prepend([p], r)) == Prepend(prefix + [p], r)
  {
    if r.Ok? {
      assert prefix + ([p] + r.value) == prefix + [p] + r.value;
    }
  }

  /** The sequential-ranks loop: the first of 1 ..= n nobody holds. */
  method FindMissingRank(seenRanks: set<int>, n: nat) returns (missing: Option<int>)
    ensures missing == MissingRankFrom(seenRanks, 1, n)
  {
    var i := 1;
    while i <= n
      invariant 1 <= i <= n + 1
      invariant MissingRankFrom(seenRanks, 1, n) == MissingRankFrom(seenRanks, i, n)
    {
      if i !in seenRanks {
        return Some(i);
      }
      i := i + 1;
    }
    return None;
  }

  /** The winner loop: name and total of the first rank-1 player, or the
      zero values when there is none. */
  method FindWinner(players: seq<PlayerGameEnd>) returns (winnerName: string, winnerScore: int)
    ensures FirstWinner(players).Some? ==>
      winnerName == players[FirstWinner(players).value].playerName && winnerScore == players[FirstWinner(players).value].total
    ensures FirstWinner(players).None? ==> winnerName == "" && winnerScore == 0
  {
    winnerName, winnerScore := "", 0;
    var w := 0;
    while w < |players|
      invariant 0 <= w <= |players|
      invariant forall l :: 0 <= l < w ==> players[l].rank != 1
    {
      if players[w].rank == 1 {
        FirstWinnerIs(players, w);
        winnerName, winnerScore := players[w].playerName, players[w].total;
        return;
      }
      w := w + 1;
    }
  }

  lemma FirstWinnerIs(players: seq<PlayerGameEnd>, w: nat)
    requires w < |players| && players[w].rank == 1
    requires forall l :: 0 <= l < w ==> players[l].rank != 1
    ensures FirstWinner(players) == Some(w)
  {
    var k := FirstWinner(players);
    assert k.Some?;
    assert !(k.value < w) && !(w < k.value);
  }

  // ---------------------------------------------------------------------
  // What ValidateAndConvertGame promises

  /** A record that passes the consistency checks and converts. */
  ghost predicate Accepted(record: CsvRecord, first: CsvRecord, includeOceania: bool)
  {
    record.date == first.date && record.includeOceania == first.includeOceania && ConvertPlayer(record, includeOceania).Ok?
  }

  /** A record that converts to a player of rank `rank`. */
  ghost predicate HasRank(record: CsvRecord, includeOceania: bool, rank: int)
  {
    ConvertPlayer(record, includeOceania).Ok? && ConvertPlayer(record, includeOceania).value.rank == rank
  }

  /** Every record accepted, no rank taken from `seen`, no rank twice. */
  ghost predicate RecordsAccepted(records: seq<CsvRecord>, first: CsvRecord, includeOceania: bool, seen: set<int>)
  {
    && (forall i :: 0 <= i < |records| ==> Accepted(records[i], first, includeOceania))
    && (forall i, r :: 0 <= i < |records| && HasRank(records[i], includeOceania, r) ==> r !in seen)
    && (forall i, j, r :: 0 <= i < j < |records| && HasRank(records[i], includeOceania, r) ==> !HasRank(records[j], includeOceania, r))
  }

  /** Exactly when the per-record loop gets through, and what it yields:
      the records' conversions, in record order. */
  lemma {:induction false} ConvertRecordsAccepts(records: seq<CsvRecord>, first: CsvRecord, includeOceania: bool, seen: set<int>)
    ensures ConvertRecords(records, first, includeOceania, seen).Ok? <==> RecordsAccepted(records, first, includeOceania, seen)
    ensures ConvertRecords(records, first, includeOceania, seen).Ok? ==>
      forall i :: 0 <= i < |records| ==> ConvertRecords(records, first, includeOceania, seen).value[i] == ConvertPlayer(records[i], includeOceania).value
    decreases |records|
  {
    if records != [] {
      var c := CheckRecord(records[0], first, includeOceania, seen);
      if c.Ok? {
        var player := c.value;
        var tail := records[1..];
        var seen' := seen + {player.rank};
        ConvertRecordsAccepts(tail, first, includeOceania, seen');
        assert Accepted(records[0], first, includeOceania);
        if RecordsAccepted(records, first, includeOceania, seen) {
          AcceptedToTail(records, first, includeOceania, seen);
        }
        if RecordsAccepted(tail, first, includeOceania, seen') {
          TailToAccepted(records, first, includeOceania, seen);
        }
        var rest := ConvertRecords(tail, first, includeOceania, seen');
        assert ConvertRecords(records, first, includeOceania, seen) == Prepend([player], rest);
        if rest.Ok? {
          forall i | 0 < i < |records| ensures ([player] + rest.value)[i] == ConvertPlayer(records[i], includeOceania).value {
            assert records[i] == tail[i - 1];
          }
        }
      } else {
        AcceptedRefusal(records, first, includeOceania, seen);
      }
    }
  }

  /** Accepting all records means accepting the first and then the rest
      with the first one's rank taken. */
  lemma AcceptedToTail(records: seq<CsvRecord>, first: CsvRecord, includeOceania: bool, seen: set<int>)
    requires records != [] && Accepted(records[0], first, includeOceania)
    requires RecordsAccepted(records, first, includeOceania, seen)
    ensures ConvertPlayer(records[0], includeOceania).value.rank !in seen
    ensures RecordsAccepted(records[1..], first, includeOceania, seen + {ConvertPlayer(records[0], includeOceania).value.rank})
  {
    var tail := records[1..];
    var rank := ConvertPlayer(records[0], includeOceania).value.rank;
    assert HasRank(records[0], includeOceania, rank);
    forall i, r | 0 <= i < |tail| && HasRank(tail[i], includeOceania, r) ensures r !in seen + {rank} {
      assert HasRank(records[i + 1], includeOceania, r);
    }
    forall i, j, r | 0 <= i < j < |tail| && HasRank(tail[i], includeOceania, r)
      ensures !HasRank(tail[j], includeOceania, r)
    {
      assert HasRank(records[i + 1], includeOceania, r);
    }
    forall i | 0 <= i < |tail| ensures Accepted(tail[i], first, includeOceania) {
      assert Accepted(records[i + 1], first, includeOceania);
    }
  }

  /** The converse of AcceptedToTail. */
  lemma TailToAccepted(records: seq<CsvRecord>, first: CsvRecord, includeOceania: bool, seen: set<int>)
    requires records != [] && Accepted(records[0], first, includeOceania)
    requires ConvertPlayer(records[0], includeOceania).value.rank !in seen
    requires RecordsAccepted(records[1..], first, includeOceania, seen + {ConvertPlayer(records[0], includeOceania).value.rank})
    ensures RecordsAccepted(records, first, includeOceania, seen)
  {
    var tail := records[1..];
    assert forall i :: 0 < i < |records| ==> records[i] == tail[i - 1];
    forall i, r | 0 <= i < |records| && HasRank(records[i], includeOceania, r) ensures r !in seen {
      if i > 0 {
        assert HasRank(tail[i - 1], includeOceania, r);
      }
    }
    forall i, j, r | 0 <= i < j < |records| && HasRank(records[i], includeOceania, r)
      ensures !HasRank(records[j], includeOceania, r)
    {
      if i > 0 {
        assert HasRank(tail[i - 1], includeOceania, r);
      }
    }
  }

  /** A first record the checks refuse makes the whole run refused. */
  lemma AcceptedRefusal(records: seq<CsvRecord>, first: CsvRecord, includeOceania: bool, seen: set<int>)
    requires records != [] && CheckRecord(records[0], first, includeOceania, seen).Err?
    ensures !RecordsAccepted(records, first, includeOceania, seen)
  {
    if Accepted(records[0], first, includeOceania) {
      assert HasRank(records[0], includeOceania, ConvertPlayer(records[0], includeOceania).value.rank);
    }
  }

  /** The conditions under which a game's records are accepted: 2 to 5
      records, a date and an Oceania flag that parse, every record
      accepted with pairwise distinct ranks, and every rank 1 ..= n
      present. */
  ghost predicate ValidGame(records: seq<CsvRecord>, parseDate: string -> Option<Instant>)
  {
    && 2 <= |records| <= 5
    && parseDate(records[0].date).Some?
    && ParseBool(records[0].includeOceania).Ok?
    && RecordsAccepted(records, records[0], ParseBool(records[0].includeOceania).value, {})
    && forall r :: 1 <= r <= |records| ==> RankPresent(records, ParseBool(records[0].includeOceania).value, r)
  }

  /** Some record converts to a player of rank `rank`. */
  ghost predicate RankPresent(records: seq<CsvRecord>, includeOceania: bool, rank: int)
  {
    exists i :: 0 <= i < |records| && HasRank(records[i], includeOceania, rank)
  }

  /** Players of distinct ranks hold as many ranks as there are players. */
  lemma {:induction false} RankSetSize(players: seq<PlayerGameEnd>)
    requires forall i, j :: 0 <= i < j < |players| ==> players[i].rank != players[j].rank
    ensures |RankSet(players)| == |players|
  {
    if players != [] {
      var init := players[..|players| - 1];
      RankSetSize(init);
      if players[|players| - 1].rank in RankSet(init) {
        var i := RankSetMember(init, players[|players| - 1].rank);
        assert false;
      }
    }
  }

  /** The ranks 1 ..= n. */
  function RankRange(n: int): (ranks: set<int>)
    ensures forall r :: r in ranks <==> 1 <= r <= n
    decreases n
  {
    if n <= 0 then {} else RankRange(n - 1) + {n}
  }

  lemma {:induction false} RangeSize(n: nat)
    ensures |RankRange(n)| == n
  {
    if n > 0 {
      RangeSize(n - 1);
      assert n !in RankRange(n - 1);
    }
  }

  lemma SubsetSameSize(a: set<int>, b: set<int>)
    requires a <= b && |a| == |b|
    ensures a == b
  {
    var extra := b - a;
    assert b == a + extra && a * extra == {};
    assert |extra| == 0;
  }

  /** ValidateAndConvertGame accepts exactly the valid games. */
  lemma ValidateGameAccepts(records: seq<CsvRecord>, parseDate: string -> Option<Instant>)
    ensures ValidateGame(records, parseDate).Ok? <==> ValidGame(records, parseDate)
  {
    if records != [] && parseDate(records[0].date).Some? && ParseBool(records[0].includeOceania).Ok? && 2 <= |records| <= 5 {
      var includeOceania := ParseBool(records[0].includeOceania).value;
      ConvertRecordsAccepts(records, records[0], includeOceania, {});
      var converted := ConvertRecords(records, records[0], includeOceania, {});
      if converted.Ok? {
        ConvertedPlayers(records, records[0], includeOceania);
        CoveredRanks(records, includeOceania, converted.value);
        if MissingRankFrom(RankSet(converted.value), 1, |converted.value|).None? {
          WinnerPresent(converted.value);
        }
      }
    }
  }

  /** Every rank 1 ..= n is some record's exactly when the sequential-ranks
      check finds none missing. */
  lemma CoveredRanks(records: seq<CsvRecord>, includeOceania: bool, players: seq<PlayerGameEnd>)
    requires |players| == |records|
    requires forall i :: 0 <= i < |records| ==> ConvertPlayer(records[i], includeOceania) == Ok(players[i])
    ensures (forall r :: 1 <= r <= |records| ==> RankPresent(records, includeOceania, r))
      <==> MissingRankFrom(RankSet(players), 1, |players|).None?
  {
    if forall r :: 1 <= r <= |records| ==> RankPresent(records, includeOceania, r) {
      PresentRanksHeld(records, includeOceania, players);
    }
    if MissingRankFrom(RankSet(players), 1, |players|).None? {
      HeldRanksPresent(records, includeOceania, players);
    }
  }

  lemma PresentRanksHeld(records: seq<CsvRecord>, includeOceania: bool, players: seq<PlayerGameEnd>)
    requires |players| == |records|
    requires forall i :: 0 <= i < |records| ==> ConvertPlayer(records[i], includeOceania) == Ok(players[i])
    requires forall r :: 1 <= r <= |records| ==> RankPresent(records, includeOceania, r)
    ensures forall r :: 1 <= r <= |players| ==> r in RankSet(players)
  {
    forall r | 1 <= r <= |players| ensures r in RankSet(players) {
      assert RankPresent(records, includeOceania, r);
      var i :| 0 <= i < |records| && HasRank(records[i], includeOceania, r);
      assert players[i].rank == r;
    }
  }

  lemma HeldRanksPresent(records: seq<CsvRecord>, includeOceania: bool, players: seq<PlayerGameEnd>)
    requires |players| == |records|
    requires forall i :: 0 <= i < |records| ==> ConvertPlayer(records[i], includeOceania) == Ok(players[i])
    requires forall r :: 1 <= r <= |players| ==> r in RankSet(players)
    ensures forall r :: 1 <= r <= |records| ==> RankPresent(records, includeOceania, r)
  {
    forall r | 1 <= r <= |records| ensures RankPresent(records, includeOceania, r) {
      var i := RankSetMember(players, r);
      assert HasRank(records[i], includeOceania, r);
    }
  }

  /** With none of 1 ..= n missing and at least one player, someone has
      rank 1. */
  lemma WinnerPresent(players: seq<PlayerGameEnd>)
    requires players != [] && MissingRankFrom(RankSet(players), 1, |players|).None?
    ensures FirstWinner(players).Some?
  {
    assert 1 in RankSet(players);
    var i := RankSetMember(players, 1);
  }

  /** What an accepted game holds: the records' conversions in record
      order, played under the first record's date and Oceania flag; ranks
      exactly 1 ..= n, one per player; the first rank-1 player as winner;
      and nectar maps exactly for an Oceania game. */
  lemma ValidateGameResult(records: seq<CsvRecord>, parseDate: string -> Option<Instant>)
    requires ValidateGame(records, parseDate).Ok?
    ensures records != [] && ValidateGame(records, parseDate).value.createdAt == parseDate(records[0].date).value
    ensures ParseBool(records[0].includeOceania) == Ok(ValidateGame(records, parseDate).value.includeOceania)
    ensures forall i :: 0 <= i < |records| ==>
      records[i].date == records[0].date && records[i].includeOceania == records[0].includeOceania
    ensures forall i :: 0 <= i < |records| ==>
      ConvertPlayer(records[i], ValidateGame(records, parseDate).value.includeOceania) == Ok(ValidateGame(records, parseDate).value.players[i])
    ensures forall i, j :: 0 <= i < j < |records| ==>
      ValidateGame(records, parseDate).value.players[i].rank != ValidateGame(records, parseDate).value.players[j].rank
    ensures RankSet(ValidateGame(records, parseDate).value.players) == RankRange(|records|)
    ensures var game := ValidateGame(records, parseDate).value;
      game.nectarScoring == (if game.includeOceania then Some(ImportNectar(game.players)) else None)
    ensures var game := ValidateGame(records, parseDate).value;
      exists w :: 0 <= w < |records| && game.players[w].rank == 1 && (forall l :: 0 <= l < w ==> game.players[l].rank != 1)
        && game.winnerName == game.players[w].playerName && game.winnerScore == game.players[w].total
  {
    var players := ValidateGameOpen(records, parseDate);
    var includeOceania := ParseBool(records[0].includeOceania).value;
    ConvertedPlayers(records, records[0], includeOceania);
    RanksExactly(players);
    var w := FirstWinner(players).value;
  }

  /** What ValidateGame checked on its way to a result, and the players
      the result carries. */
  lemma ValidateGameOpen(records: seq<CsvRecord>, parseDate: string -> Option<Instant>) returns (players: seq<PlayerGameEnd>)
    requires ValidateGame(records, parseDate).Ok?
    ensures records != [] && parseDate(records[0].date).Some? && ParseBool(records[0].includeOceania).Ok?
    ensures ConvertRecords(records, records[0], ParseBool(records[0].includeOceania).value, {}) == Ok(players)
    ensures MissingRankFrom(RankSet(players), 1, |players|).None? && FirstWinner(players).Some?
    ensures var includeOceania := ParseBool(records[0].includeOceania).value;
      var w := FirstWinner(players).value;
      ValidateGame(records, parseDate).value == GameResult(parseDate(records[0].date).value, |players|, includeOceania,
        players[w].playerName, players[w].total, players, if includeOceania then Some(ImportNectar(players)) else None)
  {
    players := ConvertRecords(records, records[0], ParseBool(records[0].includeOceania).value, {}).value;
  }

  /** The players a successful per-record loop yields: each record's
      conversion, every record with the first one's Date and
      IncludeOceania text, no two with the same rank. */
  lemma ConvertedPlayers(records: seq<CsvRecord>, first: CsvRecord, includeOceania: bool)
    requires ConvertRecords(records, first, includeOceania, {}).Ok?
    ensures var players := ConvertRecords(records, first, includeOceania, {}).value;
      forall i :: 0 <= i < |records| ==> ConvertPlayer(records[i], includeOceania) == Ok(players[i])
    ensures forall i :: 0 <= i < |records| ==>
      records[i].date == first.date && records[i].includeOceania == first.includeOceania
    ensures var players := ConvertRecords(records, first, includeOceania, {}).value;
      forall i, j :: 0 <= i < j < |records| ==> players[i].rank != players[j].rank
  {
    ConvertRecordsAccepts(records, first, includeOceania, {});
    var players := ConvertRecords(records, first, includeOceania, {}).value;
    forall i | 0 <= i < |records| ensures ConvertPlayer(records[i], includeOceania) == Ok(players[i]) {
      assert Accepted(records[i], first, includeOceania);
    }
    forall i | 0 <= i < |records| ensures records[i].date == first.date && records[i].includeOceania == first.includeOceania {
      assert Accepted(records[i], first, includeOceania);
    }
    DistinctRanks(records, includeOceania, players);
  }

  lemma DistinctRanks(records: seq<CsvRecord>, includeOceania: bool, players: seq<PlayerGameEnd>)
    requires |players| == |records|
    requires forall i :: 0 <= i < |records| ==> ConvertPlayer(records[i], includeOceania) == Ok(players[i])
    requires forall i, j, r :: 0 <= i < j < |records| && HasRank(records[i], includeOceania, r) ==> !HasRank(records[j], includeOceania, r)
    ensures forall i, j :: 0 <= i < j < |records| ==> players[i].rank != players[j].rank
  {
    forall i, j | 0 <= i < j < |records| ensures players[i].rank != players[j].rank {
      assert HasRank(records[i], includeOceania, players[i].rank);
      assert !HasRank(records[j], includeOceania, players[i].rank);
    }
  }

  /** Distinct ranks with none of 1 ..= n missing are exactly 1 ..= n. */
  lemma RanksExactly(players: seq<PlayerGameEnd>)
    requires forall i, j :: 0 <= i < j < |players| ==> players[i].rank != players[j].rank
    requires MissingRankFrom(RankSet(players), 1, |players|).None?
    ensures RankSet(players) == RankRange(|players|)
  {
    RankSetSize(players);
    RangeSize(|players|);
    assert RankRange(|players|) <= RankSet(players);
    SubsetSameSize(RankRange(|players|), RankSet(players));
  }

  /** The no-winner check can never fire: once every rank 1 ..= n is
      present and there are at least two players, rank 1 is held. */
  lemma NoWinnerUnreachable(records: seq<CsvRecord>, parseDate: string -> Option<Instant>)
    ensures ValidateGame(records, parseDate) != Err(NoWinner)
  {
    if records != [] && parseDate(records[0].date).Some? && ParseBool(records[0].includeOceania).Ok? && 2 <= |records| <= 5 {
      var includeOceania := ParseBool(records[0].includeOceania).value;
      var converted := ConvertRecords(records, records[0], includeOceania, {});
      if converted.Ok? && MissingRankFrom(RankSet(converted.value), 1, |converted.value|).None? {
        WinnerPresent(converted.value);
      }
    }
  }

  /** The player count is checked only after the date and the Oceania
      flag of the first record parse. */
  lemma ParsesBeforeCount(records: seq<CsvRecord>, parseDate: string -> Option<Instant>)
    requires records != [] && (|records| < 2 || |records| > 5)
    ensures parseDate(records[0].date).None? ==> ValidateGame(records, parseDate) == Err(InvalidDate)
    ensures parseDate(records[0].date).Some? && ParseBool(records[0].includeOceania).Err? ==>
      ValidateGame(records, parseDate) == Err(InvalidOceania(records[0].includeOceania))
    ensures parseDate(records[0].date).Some? && ParseBool(records[0].includeOceania).Ok? ==>
      ValidateGame(records, parseDate) == Err(InvalidPlayerCount(|records|))
  {
  }

  // ---------------------------------------------------------------------
  // Reading the file: ParseCSV

  /** The import file's sixteen column names, in order. Only their number
      is checked when the header is read. */
  const ExpectedHeaders: seq<string> := ["GameID", "Date", "IncludeOceania", "PlayerName", "BirdPoints",
    "BonusCards", "RoundGoals", "Eggs", "CachedFood", "TuckedCards", "NectarForest", "NectarGrassland",
    "NectarWetland", "UnusedFood", "Total", "Rank"]

  /** What one call of the CSV reader yields: the fields of a row, or an
      error (a malformed quote, a row whose field count differs from the
      header's). The end of the file is the end of the sequence. */
  datatype Row = Fields(fields: seq<string>) | ReadFailure

  datatype ImportProblem =
    | HeaderUnreadable
    | HeaderColumns(got: nat)
    | RowUnreadable
    | ColumnCount(got: nat)
    | EmptyGameId

  /** An import error: the line it is reported on, the game it belongs to
      (empty while the file is read) and what went wrong. */
  datatype ImportError = ImportError(line: nat, gameId: string, problem: ImportProblem)

  /** The record built from a row of sixteen fields, each trimmed. */
  function RecordOf(fields: seq<string>): (r: CsvRecord)
    requires |fields| == |ExpectedHeaders|
    ensures r.gameId == TrimSpace(fields[0])
  {
    CsvRecord(TrimSpace(fields[0]), TrimSpace(fields[1]), TrimSpace(fields[2]), TrimSpace(fields[3]),
      TrimSpace(fields[4]), TrimSpace(fields[5]), TrimSpace(fields[6]), TrimSpace(fields[7]),
      TrimSpace(fields[8]), TrimSpace(fields[9]), TrimSpace(fields[10]), TrimSpace(fields[11]),
      TrimSpace(fields[12]), TrimSpace(fields[13]), TrimSpace(fields[14]), TrimSpace(fields[15]))
  }

  /** One row after the header: a record with a game ID, or the problem
      that keeps it out. */
  function ReadRow(row: Row): (r: Result<CsvRecord, ImportProblem>)
    ensures r.Ok? ==> r.value.gameId != ""
  {
    match row
    case ReadFailure => Err(RowUnreadable)
    case Fields(fields) =>
      if |fields| != |ExpectedHeaders| then Err(ColumnCount(|fields|))
      else
        var record := RecordOf(fields);
        if record.gameId == "" then Err(EmptyGameId) else Ok(record)
  }

  /** Exactly which rows are kept, and what a kept row holds. */
  lemma ReadRowAccepts(row: Row)
    ensures ReadRow(row).Ok? <==>
      row.Fields? && |row.fields| == |ExpectedHeaders| && TrimSpace(row.fields[0]) != ""
    ensures ReadRow(row).Ok? ==> ReadRow(row).value == RecordOf(row.fields) && ReadRow(row).value.gameId != ""
    ensures row.ReadFailure? ==> ReadRow(row) == Err(RowUnreadable)
    ensures row.Fields? && |row.fields| != |ExpectedHeaders| ==> ReadRow(row) == Err(ColumnCount(|row.fields|))
  {
  }

  /** What ReadRow makes of each row after the header. */
  function Outcomes(body: seq<Row>): (r: seq<Result<CsvRecord, ImportProblem>>)
    ensures |r| == |body|
  {
    MapSeq(ReadRow, body)
  }

  /** The groups and errors ParseCSV's loop builds from the rows'
      outcomes: `outcomes[i]` is record i + 2 read from the file (the
      header is record 1), whose number the error reports; a kept
      record is appended to its game's list, a refused row adds an error. */
  function ScanRows(outcomes: seq<Result<CsvRecord, ImportProblem>>): (r: (map<string, seq<CsvRecord>>, seq<ImportError>))
  {
    if outcomes == [] then (map[], [])
    else
      var before := ScanRows(outcomes[..|outcomes| - 1]);
      var line := |outcomes| + 1;
      match outcomes[|outcomes| - 1]
      case Err(problem) => (before.0, before.1 + [ImportError(line, "", problem)])
      case Ok(record) =>
        var existing := if record.gameId in before.0 then before.0[record.gameId] else [];
        (before.0[record.gameId := existing + [record]], before.1)
  }

  /** ParseCSV as a function of the reader's output: a missing, unreadable
      or wrongly sized header is a single error on line 1 and no games. */
  function ParseCsvGroups(rows: seq<Row>): (r: (map<string, seq<CsvRecord>>, seq<ImportError>))
    ensures (rows == [] || rows[0].ReadFailure?) ==> r == (map[], [ImportError(1, "", HeaderUnreadable)])
    ensures rows != [] && rows[0].Fields? && |rows[0].fields| != |ExpectedHeaders| ==>
      r == (map[], [ImportError(1, "", HeaderColumns(|rows[0].fields|))])
  {
    if rows == [] || rows[0].ReadFailure? then (map[], [ImportError(1, "", HeaderUnreadable)])
    else if |rows[0].fields| != |ExpectedHeaders| then (map[], [ImportError(1, "", HeaderColumns(|rows[0].fields|))])
    else ScanRows(Outcomes(rows[1..]))
  }

  /** ParseCSV: reads the header, then every row until the end of the
      file, grouping the kept records by game ID. */
  method ParseCSV(rows: seq<Row>) returns (gameRecords: map<string, seq<CsvRecord>>, errors: seq<ImportError>)
    ensures (gameRecords, errors) == ParseCsvGroups(rows)
  {
    if rows == [] || rows[0].ReadFailure? {
      return map[], [ImportError(1, "", HeaderUnreadable)];
    }
    var header := rows[0].fields;
    if |header| != |ExpectedHeaders| {
      return map[], [ImportError(1, "", HeaderColumns(|header|))];
    }
    gameRecords, errors := map[], [];
    var lineNum := 1;
    var k := 1;
    while k < |rows|
      invariant 1 <= k <= |rows| && lineNum == k
      invariant (gameRecords, errors) == ScanRows(Outcomes(rows[1..k]))
    {
      lineNum := lineNum + 1;
      var row := rows[k];
      OutcomesSnoc(rows[1..k], row);
      ScanRowsSnoc(Outcomes(rows[1..k]), ReadRow(row));
      assert rows[1..k] + [row] == rows[1..k + 1];
      k := k + 1;
      match row
      case ReadFailure =>
        errors := errors + [ImportError(lineNum, "", RowUnreadable)];
      case Fields(fields) =>
        if |fields| != |ExpectedHeaders| {
          errors := errors + [ImportError(lineNum, "", ColumnCount(|fields|))];
        } else {
          var record := RecordOf(fields);
          if record.gameId == "" {
            errors := errors + [ImportError(lineNum, record.gameId, EmptyGameId)];
          } else {
            var existing := if record.gameId in gameRecords then gameRecords[record.gameId] else [];
            gameRecords := gameRecords[record.gameId := existing + [record]];
          }
        }
    }
    assert rows[1..k] == rows[1..];
  }

  /** One more row, one more outcome, and the scan takes one more step. */
  lemma OutcomesSnoc(body: seq<Row>, row: Row)
    ensures Outcomes(body + [row]) == Outcomes(body) + [ReadRow(row)]
    ensures Outcomes(body + [row])[..|body|] == Outcomes(body)
  {
    assert (body + [row])[..|body|] == body;
  }

  /** The scan's step for one more outcome, on record `|outcomes| + 2`. */
  lemma ScanRowsSnoc(outcomes: seq<Result<CsvRecord, ImportProblem>>, o: Result<CsvRecord, ImportProblem>)
    ensures var before := ScanRows(outcomes);
      ScanRows(outcomes + [o]) ==
        match o
        case Err(problem) => (before.0, before.1 + [ImportError(|outcomes| + 2, "", problem)])
        case Ok(record) =>
          (before.0[record.gameId := (if record.gameId in before.0 then before.0[record.gameId] else []) + [record]], before.1)
  {
    assert (outcomes + [o])[..|outcomes|] == outcomes;
  }

  /** The kept records in file order. */
  function Kept(outcomes: seq<Result<CsvRecord, ImportProblem>>): (records: seq<CsvRecord>)
  {
    if outcomes == [] then []
    else Kept(outcomes[..|outcomes| - 1]) + (match outcomes[|outcomes| - 1] case Ok(record) => [record] case Err(_) => [])
  }

  /** The records of game `g`, in the order given. */
  function OfGame(records: seq<CsvRecord>, g: string): (r: seq<CsvRecord>)
  {
    if records == [] then []
    else OfGame(records[..|records| - 1], g) + (if records[|records| - 1].gameId == g then [records[|records| - 1]] else [])
  }

  /** Grouping is filtering: the list under a game ID holds exactly that
      game's kept records in file order, and only game IDs with a kept
      record are keys. */
  lemma {:induction false} ScanRowsGroups(outcomes: seq<Result<CsvRecord, ImportProblem>>, g: string)
    ensures g in ScanRows(outcomes).0 <==> OfGame(Kept(outcomes), g) != []
    ensures g in ScanRows(outcomes).0 ==> ScanRows(outcomes).0[g] == OfGame(Kept(outcomes), g)
  {
    if outcomes != [] {
      var init := outcomes[..|outcomes| - 1];
      ScanRowsGroups(init, g);
      var rest := Kept(init);
      var m := ScanRows(init).0;
      match outcomes[|outcomes| - 1]
      case Err(_) =>
        assert Kept(outcomes) == rest + [];
        assert rest + [] == rest;
      case Ok(record) =>
        assert Kept(outcomes) == rest + [record];
        OfGameSnoc(rest, record, g);
        var existing := if record.gameId in m then m[record.gameId] else [];
        assert ScanRows(outcomes).0 == m[record.gameId := existing + [record]];
    }
  }

  lemma OfGameSnoc(records: seq<CsvRecord>, record: CsvRecord, g: string)
    ensures OfGame(records + [record], g) == OfGame(records, g) + (if record.gameId == g then [record] else [])
  {
    assert (records + [record])[..|records|] == records;
  }

  /** Kept records come from the kept outcomes. */
  lemma {:induction false} KeptHaveIds(outcomes: seq<Result<CsvRecord, ImportProblem>>)
    requires forall i :: 0 <= i < |outcomes| && outcomes[i].Ok? ==> outcomes[i].value.gameId != ""
    ensures forall k :: 0 <= k < |Kept(outcomes)| ==> Kept(outcomes)[k].gameId != ""
  {
    if outcomes != [] {
      var init := outcomes[..|outcomes| - 1];
      KeptHaveIds(init);
      match outcomes[|outcomes| - 1]
      case Err(_) =>
        assert Kept(outcomes) == Kept(init) + [];
      case Ok(record) =>
        assert Kept(outcomes) == Kept(init) + [record];
    }
  }

  /** The filter of a game ID never picked. */
  lemma {:induction false} OfGameAbsent(records: seq<CsvRecord>, g: string)
    requires forall k :: 0 <= k < |records| ==> records[k].gameId != g
    ensures OfGame(records, g) == []
  {
    if records != [] { OfGameAbsent(records[..|records| - 1], g); }
  }

  /** The empty game ID is never a key. */
  lemma NoEmptyGameId(body: seq<Row>)
    ensures "" !in ScanRows(Outcomes(body)).0
  {
    var outcomes := Outcomes(body);
    forall i | 0 <= i < |outcomes| && outcomes[i].Ok? ensures outcomes[i].value.gameId != "" {
      assert outcomes[i] == ReadRow(body[i]);
    }
    KeptHaveIds(outcomes);
    OfGameAbsent(Kept(Outcomes(body)), "");
    ScanRowsGroups(Outcomes(body), "");
  }

  /** The errors after one more outcome. */
  lemma ScanRowsErrorsLast(outcomes: seq<Result<CsvRecord, ImportProblem>>)
    requires outcomes != []
    ensures outcomes[|outcomes| - 1].Err? ==>
      ScanRows(outcomes).1 == ScanRows(outcomes[..|outcomes| - 1]).1 + [ImportError(|outcomes| + 1, "", outcomes[|outcomes| - 1].error)]
    ensures outcomes[|outcomes| - 1].Ok? ==> ScanRows(outcomes).1 == ScanRows(outcomes[..|outcomes| - 1]).1
  {
  }

  /** Every row is kept or reported. */
  lemma {:induction false} ScanRowsCount(outcomes: seq<Result<CsvRecord, ImportProblem>>)
    ensures |ScanRows(outcomes).1| + |Kept(outcomes)| == |outcomes|
  {
    if outcomes != [] {
      var init := outcomes[..|outcomes| - 1];
      ScanRowsCount(init);
      ScanRowsErrorsLast(outcomes);
      match outcomes[|outcomes| - 1]
      case Err(problem) =>
        assert Kept(outcomes) == Kept(init) + [];
      case Ok(record) =>
        assert Kept(outcomes) == Kept(init) + [record];
    }
  }

  /** Every error names the number of a record after the header, in the
      order the records were read, and carries that record's problem. */
  lemma {:induction false} ScanRowsErrorLines(outcomes: seq<Result<CsvRecord, ImportProblem>>)
    ensures forall e :: e in ScanRows(outcomes).1 ==>
      2 <= e.line <= |outcomes| + 1 && e.gameId == "" && outcomes[e.line - 2] == Err(e.problem)
    ensures forall a, b :: 0 <= a < b < |ScanRows(outcomes).1| ==> ScanRows(outcomes).1[a].line < ScanRows(outcomes).1[b].line
  {
    if outcomes != [] {
      var init := outcomes[..|outcomes| - 1];
      ScanRowsErrorLines(init);
      ScanRowsErrorsLast(outcomes);
      var errs := ScanRows(init).1;
      forall e | e in errs ensures outcomes[e.line - 2] == Err(e.problem) {
        assert outcomes[e.line - 2] == init[e.line - 2];
      }
    }
  }

  /** Every refused row is reported, on its own line. */
  lemma {:induction false} ScanRowsReportsAll(outcomes: seq<Result<CsvRecord, ImportProblem>>, i: nat)
    requires i < |outcomes| && outcomes[i].Err?
    ensures ImportError(i + 2, "", outcomes[i].error) in ScanRows(outcomes).1
  {
    var init := outcomes[..|outcomes| - 1];
    ScanRowsErrorsLast(outcomes);
    if i < |init| {
      assert outcomes[i] == init[i];
      ScanRowsReportsAll(init, i);
    }
  }
}
