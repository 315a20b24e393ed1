# Wingspan scorekeeper, modelled in Dafny

This project models the scoring core of a scorekeeper for the board game
Wingspan and proves what that core promises. The modelled parts are:

- **End-of-game scoring** (`GameEnd`, scoring/scoring.go):
  - each score sheet's six components are added up;
  - with the Oceania expansion, the nectar competition is added in each of the three habitats. Places are worth 5 and 2. Tied players split their places' points, rounded down. Players without nectar get nothing.
  - The caller's sheets are then sorted in place by total, then by unused food, and given competition ranks.
- **Per-round goal scoring** (`RoundScorer`, goals/scorer.go):
  - the Green side ranks players by count with competition ranking. Ties split the round's place values, rounded down. A count of exactly 0 scores 0.
  - the Blue side clamps each count to 0..5.
  - Both sides list their output in a fixed order.
- **CSV import** (`CsvImport`, import/import.go), working on the rows and errors the CSV reader yields:
  - integer, boolean and per-player field conversion;
  - the game-level checks (2–5 players; consistent date and Oceania text; distinct ranks that are exactly 1..n; the winner);
  - the import's own, different nectar scorer: an exchange sort, then 5 and 2 for the top two, with no tie splitting;
  - grouping the file's rows by game ID, with line-numbered errors.
- **CSV export** (`CsvExport`, export/export.go): the header, then one row per player of every game. Read back by the import, each row gives back the player.
- **Goal catalog and draw** (`GoalCatalog`, goals/goals.go; `GoalSelector`, goals/selector.go):
  - the three goal lists and their concatenation;
  - drawing four round goals. The draw is a Fisher–Yates shuffle of a copy of the pool, with the random source as a parameter.
- **Calculator helpers** (`Calculator`, static/js/game-end.js): the round-goal totals computed from the cube placements on the goal board, and English ordinals. static/js/final-score.js holds character-for-character copies of both functions: `getOrdinal` at lines 355-360 and `calculateRoundGoalScores` at lines 461-484. Both copies are modelled once.

Helper modules:

- `Common`: Option and Result, decimal text, and an in-place sort. The sort stands in for Go's `sort.Slice`. It promises only "sorted under the less function and a permutation", which is all `sort.Slice` promises.
- `Placement`: counting players above a key, tie groups, and floor-averaged shares of a place-value table. The nectar competition and the Green side share it.

Each imperative operation is a method, proved against a specification function or predicate:

- `CalculateGameEndScores` and `DetermineRankings` work on an `array` in place.
- `SelectRandomGoals` shuffles a fresh array copy.
- `FindTopTwo` runs the exchange sort in place.
- The other loops build `seq`s and `map`s.

Go's `map` iteration order is a nondeterministic choice in the model.

## Model

| member | source | states |
|---|---|---|
| GameEnd.CalculateGameEndScores | scoring/scoring.go:32-65 | The nectar maps are the three habitats' awards when Oceania is on and empty otherwise. The caller's array is the one returned. Afterwards it holds a rearrangement of the input sheets, each with its total set to the six components plus its three nectar awards (0 when absent or Oceania off). It ends sorted and competition-ranked. |
| GameEnd.Totalled | scoring/scoring.go:45-59 | Every sheet, in order, gets the total `TotalFor` defines: the six-component sum, plus the habitat awards only with Oceania. |
| GameEnd.ScoredSheets | scoring/scoring.go:45-62 | Every ranked sheet is some input sheet with only its total (six components plus awards) and its rank changed. The count is unchanged. |
| GameEnd.CalculateNectarPoints | scoring/scoring.go:68-81 | The three maps are the forest, grassland and wetland awards of `scoreHabitat`. |
| GameEnd.ScoreHabitat | scoring/scoring.go:86-147 | The returned map equals the closed-form awards: each player with nectar gets its tie group's floor-averaged share of [5, 2]. |
| GameEnd.CollectContenders | scoring/scoring.go:94-100 | Keeps exactly the players with a positive count, in player order. |
| GameEnd.SortByCount | scoring/scoring.go:106-109 | The result is sorted by count, descending, and is a permutation of the input. |
| GameEnd.AwardTieGroups | scoring/scoring.go:114-144 | The position loop over a descending list writes the same map as entering each contender in list order. |
| GameEnd.TiedFrom | scoring/scoring.go:118-122 | Collects the names of exactly the maximal run of equal counts from `position`. |
| GameEnd.PlaceSum | scoring/scoring.go:125-132 | Sums the place values of the group's positions, counting positions past second place as 0. |
| GameEnd.AwardGroup | scoring/scoring.go:134-143 | Writing the group's average extends the map as if the group's contenders were entered one by one. |
| GameEnd.AwardsInOrderDescending | scoring/scoring.go:114-144 | For a descending list, the map written entry by entry equals the closed form, which gives every name the share of its tie group. |
| GameEnd.AwardsOverPermutation | scoring/scoring.go:106-109 | The awards do not depend on the order `sort.Slice` leaves equal counts in. |
| GameEnd.ContendersNames | scoring/scoring.go:95-100 | A name is a contender exactly when some player under that name holds positive nectar in the habitat. |
| GameEnd.HabitatAwardsKeys | scoring/scoring.go:95-104 | The award map's keys are exactly the players with positive nectar in the habitat. |
| GameEnd.NoNectarNoAwards | scoring/scoring.go:102-104 | When nobody has nectar in the habitat, the map is empty. |
| GameEnd.HabitatAwardOfGroup | scoring/scoring.go:111-144 | With distinct names, every member of a tie group covering sorted positions p..q-1 gets floor(sum of [5, 2] over those positions / (q - p)). |
| GameEnd.HabitatAwardsAtMostSeven | scoring/scoring.go:111-135 | With distinct names, the points awarded in one habitat add up to at most 5 + 2. |
| GameEnd.NectarExampleTiedFirst | scoring/scoring.go:111-144 | Counts {4, 4, 2} give awards 3, 3, 0. |
| GameEnd.NectarExampleThreeWayTie | scoring/scoring.go:111-144 | Counts {6, 6, 6, 2} give awards 2, 2, 2, 0. |
| GameEnd.RepeatedNameSharesAward | scoring/scoring.go:55-57 | A sheet with 5 forest nectar and a sheet with none under the same name: the map holds only that name on 5, and the two sheets collect 10 forest points between them. |
| GameEnd.EmptyGameNoNectar | scoring/scoring.go:68-81 | No players, no awards in any habitat. |
| GameEnd.RankBeforeIsStrictWeakOrder | scoring/scoring.go:152-157 | The ranking's less function (total descending, then unused food descending) is a strict weak order. Two sheets are incomparable exactly when they agree on both keys. |
| GameEnd.DetermineRankings | scoring/scoring.go:150-170 | Afterwards the array is a rearrangement of the input sheets with only ranks changed. It is sorted by total, then unused food, both descending, and competition-ranked. |
| GameEnd.AssignRanks | scoring/scoring.go:159-169 | The rank loop changes only ranks. Each rank is 1 for the first sheet, the predecessor's rank on a tie in both keys, and index + 1 otherwise. |
| GameEnd.CompetitionRankCountsAhead | scoring/scoring.go:159-169 | In a sorted, ranked list, every rank is 1 plus the number of sheets ranked strictly ahead. |
| GameEnd.RanksFromInput | scoring/scoring.go:150-169 | Every rank is 1 plus the number of input sheets strictly ahead, whatever order the sort chose. |
| GameEnd.SharedRankIffSameStanding | scoring/scoring.go:162-168 | Two sheets share a rank exactly when they tie on both total and unused food. |
| GameEnd.WinnersLevelWithLeader | scoring/scoring.go:160-168 | The first sheet (a lone player included) has rank 1. The rank-1 sheets are exactly those level with it. |
| GameEnd.RankingExample | scoring/scoring.go:150-169 | Totals 100/5, 100/5, 90 rank as 1, 1, 3. |
| RoundScorer.EffectiveRound | goals/scorer.go:26-28 | A round outside 1..4 is scored as round 1. Rounds 1..4 are kept. |
| RoundScorer.GreenRulesAreTable | goals/scorer.go:16-21 | The rules map holds exactly places 1..3 for the effective round. Place by place they match the place values 4/1/0, 5/2/0, 6/3/2 and 7/4/2. |
| RoundScorer.CollectEntries | goals/scorer.go:31-37 | The map loop lists each entry exactly once, with its count copied and its points computed from the count. |
| RoundScorer.SortedEntries | goals/scorer.go:31-45 | The entries end sorted by count descending, then name ascending. |
| RoundScorer.CalculateGreenScores | goals/scorer.go:25-94 | The output lists each map entry once. It is ordered by count descending, then name ascending. Each player's rank is 1 plus the number with a higher count, and its points are its tie group's floor-averaged share of the round's places, or 0 for a count of 0. |
| RoundScorer.AssignGreen | goals/scorer.go:47-91 | The rank loop over a descending array changes only ranks and points. Every player ends up scored as `GreenScored` says. |
| RoundScorer.ScoreGroup | goals/scorer.go:49-90 | One pass of the loop scores exactly the tie group starting at `i` and leaves the rest untouched. |
| RoundScorer.ScoreTie | goals/scorer.go:57-75 | A tie of two or more: every member gets the group's rank and floor-averaged points, or 0 for a count of 0. |
| RoundScorer.ScoreAlone | goals/scorer.go:76-87 | A lone player gets the current rank and that place's points (0 past third place), or 0 for a count of 0. |
| RoundScorer.TiedRun | goals/scorer.go:51-54 | The indices of the maximal run of equal counts from `i`. |
| RoundScorer.TiePoints | goals/scorer.go:59-64 | Sums the table's points for ranks r..r+k-1, up to rank 3. |
| RoundScorer.WriteTie | goals/scorer.go:67-75 | Writes rank and points at exactly the tied indices, 0 points where the count is 0. |
| RoundScorer.GreenGroup | goals/scorer.go:57-65 | A tie group at place p ranks p + 1. Unless its count is 0, it gets the sum of its places' values divided by its size, rounded down. |
| RoundScorer.GreenRanksFollowCounts | goals/scorer.go:48-90 | Two players share a rank exactly when their counts are equal. A higher count means a better rank. |
| RoundScorer.GreenTotalAtMostTable | goals/scorer.go:57-86 | The points awarded never exceed the sum of the round's table. |
| RoundScorer.GreenBeyondThirdScoresZero | goals/scorer.go:82-86 | A player ranked fourth or lower scores 0. |
| RoundScorer.GreenExampleTieForSecond | goals/scorer.go:25-94 | Round 3, counts {7, 4, 4, 1}: ranks 1, 2, 2, 4 and points 6, 2, 2, 0. |
| RoundScorer.GreenExampleZeroCounts | goals/scorer.go:69-73 | Round 3, counts {5, 0, 0}: the zero-count tie ranks 2 and scores 0, although its share would be 2. |
| RoundScorer.GreenExampleThreeWayTie | goals/scorer.go:57-65 | Round 3, a three-way tie for first: 11/3 = 3 points each; the fourth player scores 0. |
| RoundScorer.BluePoints | goals/scorer.go:102-108 | Points are the count clamped to 0..5. |
| RoundScorer.CalculateBlueScores | goals/scorer.go:98-126 | The output lists each map entry once, with its count kept, its points the clamped count and no rank. It is ordered by points descending, then name ascending. |
| RoundScorer.BlueMonotone | goals/scorer.go:102-108 | More items never score fewer Blue points. |
| CsvImport.TrimSpace | import/import.go:91-106 | The trimmed field has no leading or trailing white space. An unpadded field is kept as it is. |
| CsvImport.TrimSpaceIdempotent | import/import.go:91-106 | Trimming twice is trimming once. |
| CsvImport.Atoi | import/import.go:400 | Succeeds only with a value in the 64-bit range. |
| CsvImport.ParseInt | import/import.go:395-410 | Success holds exactly when the text is non-empty and `Atoi` reads a value of at least 0, and gives that value (at most 2^63-1). A failure names the field. It is "empty" exactly when the text is empty, "invalid" exactly when non-empty text is refused by `Atoi`, and "negative" exactly when `Atoi` reads a value below 0. |
| CsvImport.ParseIntDecimal | import/import.go:395-410 | The decimal text of any value in 0..2^63-1 parses back to that value. |
| CsvImport.ParseIntNegative | import/import.go:405-407 | A negative decimal is refused as negative. |
| CsvImport.ParseIntMinusZero | import/import.go:400-409 | "-0" is accepted as 0. |
| CsvImport.ParseBool | import/import.go:413-423 | Returns true exactly for true/yes/1/y and false exactly for false/no/0/n, after ASCII lower-casing. Anything else is an error. |
| CsvImport.ParseBoolIgnoresCase | import/import.go:414 | Case never changes the outcome. |
| CsvImport.ParseBoolFormatBool | import/import.go:413-423 | "true" and "false" read back as their value. |
| CsvImport.ConvertPlayer | import/import.go:218-315 | An accepted player keeps the record's non-empty name and has rank at least 1. A blank Total becomes the six-component sum. A blank UnusedFood becomes 0. Without Oceania the nectar counts are 0. |
| CsvImport.ConvertPlayerParsed | import/import.go:223-312 | An accepted player's numbers are the values parsed from their fields: the six components and the rank always, UnusedFood and Total when given, and the three nectar counts in an Oceania game. |
| CsvImport.ConvertPlayerAccepts | import/import.go:218-315 | A record is accepted exactly when it has a name, the six components and the rank parse, the rank is at least 1, each non-blank optional field parses, and the nectar fields parse when Oceania is on. |
| CsvImport.ValidateAndConvertGame | import/import.go:121-215 | Returns exactly `ValidateGame`, check by check in the source's order. |
| CsvImport.ValidateGame | import/import.go:121-215 | On success the player count equals the number of records, and the nectar maps are present exactly when Oceania is on. |
| CsvImport.ValidateGameAccepts | import/import.go:121-187 | A game is accepted exactly when it has 2–5 records; the date parses; the Oceania text is a boolean; every record matches the first's date and Oceania text, converts, and has a rank unseen so far; and every rank 1..n is held. |
| CsvImport.ValidateGameResult | import/import.go:130-214 | A successful result has: the parsed date; the flag; records consistent with the first; players converted in record order; pairwise distinct ranks that are exactly {1..n}; nectar maps exactly with Oceania; the winner's name and total taken from the first rank-1 player. |
| CsvImport.ParsesBeforeCount | import/import.go:130-144 | A bad date or boolean is reported before a wrong player count. |
| CsvImport.ConvertAll | import/import.go:147-176 | The record loop stops at the first failing record with its error. Otherwise it returns the converted players in order, the set of their ranks, and whether a rank 1 was seen. |
| CsvImport.ConvertRecordsAccepts | import/import.go:151-176 | The loop succeeds exactly when every record is consistent, converts, and has a rank unseen before it. The players are the records' conversions. |
| CsvImport.FindMissingRank | import/import.go:179-183 | Reports the smallest rank in 1..n that nobody holds, if any. |
| CsvImport.MissingRankFrom | import/import.go:179-183 | A reported rank is missing and all smaller ones are held. No report means every rank in the range is held. |
| CsvImport.FindWinner | import/import.go:196-204 | Name and total of the first rank-1 player; empty and 0 when there is none. |
| CsvImport.FirstWinner | import/import.go:198-203 | The first index holding rank 1, exactly when one exists. |
| CsvImport.NoWinnerUnreachable | import/import.go:185-187 | The no-winner error can never be returned, because rank 1 is already required among the ranks 1..n. |
| CsvImport.FindTopTwo | import/import.go:325-345 | The counts end in the exchange sort's order. The names are the top one and, when its count is positive, the second. |
| CsvImport.ExchangePassInPlace | import/import.go:332-336 | The inner loop performs exactly one exchange pass for position `i`. |
| CsvImport.ExchangeSortFacts | import/import.go:331-337 | The exchange sort yields a permutation sorted by count, descending. Its leader is the first player with the highest count. |
| CsvImport.TopTwo | import/import.go:326-344 | No counts give no names; the first name is the leader's; a second name exists exactly when the runner-up's count is positive. |
| CsvImport.TopTwoAwards | import/import.go:370-389 | Only the two names can be keys; the named second gets 2 and the named first, when different, gets 5. |
| CsvImport.ScoreImportHabitat | import/import.go:347-389 | One habitat's map equals `LeaderAwards` of the players' counts in player order. |
| CsvImport.CalculateImportNectar | import/import.go:318-392 | The three maps that calculateNectarScoring returns. |
| CsvImport.LeaderAwardsShape | import/import.go:364-389 | Every award is 5 or 2, no two names get the same award, and the empty name never appears. |
| CsvImport.LeaderGetsFive | import/import.go:331-372 | With distinct names, the first player with the highest count gets 5. |
| CsvImport.RunnerUpGetsTwo | import/import.go:339-375 | With distinct names, whoever gets 2 is second after the exchange sort, with a positive count. |
| CsvImport.SomeoneGetsTwo | import/import.go:340-342 | With distinct, non-empty names, if a player other than the leader has positive nectar, someone gets 2. |
| CsvImport.NoNectarLeaderStillScores | import/import.go:339-372 | With all counts 0, the first player still gets 5, and nobody else scores. |
| CsvImport.ImportExampleTiedFirst | import/import.go:325-389 | Counts {4, 4, 2} give 5 and 2: the tie is not split. |
| CsvImport.RepeatedNameLeaderGetsTwo | import/import.go:371-374 | Players "A" on 3 and "A" on 1 leave "A" with 2: the runner-up's write overwrites the leader's 5. |
| CsvImport.ParseCSV | import/import.go:53-118 | Returns exactly `ParseCsvGroups` of the reader's rows. |
| CsvImport.ParseCsvGroups | import/import.go:58-67 | A missing or unreadable header, or one without 16 columns, gives no games and a single error on line 1. |
| CsvImport.ReadRowAccepts | import/import.go:80-112 | A data row is kept exactly when it was read, has 16 fields and has a non-blank trimmed game ID. The kept record is the row's trimmed fields. |
| CsvImport.ScanRowsGroups | import/import.go:109-114 | A game ID is a key exactly when some kept record has it. Its group is those records, in file order. |
| CsvImport.NoEmptyGameId | import/import.go:109-112 | No group is filed under an empty game ID. |
| CsvImport.ScanRowsErrorLines | import/import.go:72-111 | Every error names the record number of the row that caused it (record i + 2, counting the header as record 1), with that row's problem. Errors come in increasing record order. |
| CsvImport.ScanRowsReportsAll | import/import.go:80-111 | Every refused row is reported, with its line. |
| CsvImport.ScanRowsCount | import/import.go:74-115 | Every data row is either kept or reported, never both. |
| CsvExport.ExportGamesToCSV | export/export.go:33-81 | The header row, then each game's rows in order. |
| CsvExport.WriteGame | export/export.go:44-72 | One row per player of the game, in stored order. |
| CsvExport.PlayerRow | export/export.go:49-66 | A row has as many columns as the header. |
| CsvExport.HeaderMatchesImport | export/export.go:12-29 | The export header is exactly the import's expected header (import/import.go:64). |
| CsvExport.DataRowsCount | export/export.go:43-73 | There is one data row per player over all games. |
| CsvExport.NoGamesHeaderOnly | export/export.go:38-80 | No games give the header alone. |
| CsvExport.DataRowsAt | export/export.go:43-73 | Player k of game i is on data row (players of earlier games) + k, and that row is its own. |
| CsvExport.RowColumns | export/export.go:44-66 | A row holds the game's ID, date and "true"/"false", the name, then the twelve numbers' decimals in header order. The nectar counts are included even without Oceania. |
| CsvExport.ExportReadsBack | export/export.go:49-66 | With an unpadded name and date, the import reads an exported row as the record of exactly those fields. |
| CsvExport.ExportedRecordConverts | export/export.go:31-66 | For non-negative numbers, rank at least 1 and a non-empty name, the exported flag reads back as the game's. The record converts back to the player, with nectar counts 0 when Oceania is off. |
| CsvExport.RoundTrip | export/export.go:31-66 | A stored player's row, read by the import, gives back the game ID, the date and the flag. `convertPlayer` recovers the player. |
| GoalCatalog.GetAllGoalsSelects | goals/goals.go:236-250 | The chosen goals are the catalog (base, then European, then Oceania) filtered to the chosen expansions, in order. |
| GoalCatalog.PoolSelects | goals/goals.go:236-250 | For any three lists tagged base, european and oceania, the conditional appends equal the filter of their concatenation. |
| GoalCatalog.SelectTagged | goals/goals.go:236-250 | A list of one tag is kept whole or dropped whole. |
| GoalCatalog.GetAllGoalsLength | goals/goals.go:12-250 | The result has 16, 10 and 8 goals for the chosen lists, added up. |
| GoalCatalog.NoExpansionNoGoals | goals/goals.go:237-249 | No expansion chosen gives no goals. |
| GoalCatalog.ListTags | goals/goals.go:12-233 | Every goal carries its list's expansion tag. |
| GoalCatalog.ListIdPrefixes | goals/goals.go:12-233 | Every ID starts with its list's prefix: base-, eu- or oc-. |
| GoalCatalog.CatalogIdsUnique | goals/goals.go:12-233 | IDs are unique across all three lists. |
| GoalSelector.SelectRandomGoals | goals/selector.go:17-61 | Returns exactly `Selection` of the pool under the random source. The pool array is never written. |
| GoalSelector.FewGoalsInOrder | goals/selector.go:18-35 | With fewer than 4 goals, round i is goal i-1 where it exists and the zero goal otherwise, with no error. |
| GoalSelector.ShufflePermutes | goals/selector.go:41-52 | The shuffled copy is a rearrangement of the pool. |
| GoalSelector.ShuffleFails | goals/selector.go:42-47 | The shuffle fails exactly when one of its draws fails, and then with that draw's error. |
| GoalSelector.SelectionFails | goals/selector.go:44-47 | An error is reported exactly when the pool has at least 4 goals and a draw fails. The rounds are then all zero goals. |
| GoalSelector.SelectionFromPool | goals/selector.go:54-60 | The four rounds are the first four goals of a rearrangement of the pool. |
| GoalSelector.SelectionDistinct | goals/selector.go:41-60 | From a pool without repeats, the four rounds are four different goals of the pool. |
| GoalSelector.FourGoalsAllUsed | goals/selector.go:41-60 | A pool of exactly 4 goals is dealt out completely. |
| GoalSelector.IdentityDrawsKeepOrder | goals/selector.go:42-52 | When every draw returns the position itself, the order is kept. |
| Calculator.CalculateRoundGoalScores | static/js/game-end.js:569-593 | One total per player, in player order, each that player's `PlayerTotal`. |
| Calculator.PlayerRoundGoalTotal | static/js/game-end.js:570-589 | The nested loops with `break` compute the sum over rounds 1..4 of the first matching placement's score. |
| Calculator.RoundScoreIsFirstMatch | static/js/final-score.js:466-479 | A round scores nothing exactly when no placement matches. Otherwise it scores the first matching key's score. |
| Calculator.RoundScoreOwnRound | static/js/game-end.js:574-585 | Only keys of the round itself affect that round's score. |
| Calculator.OtherRoundsIgnored | static/js/final-score.js:463-481 | Keys whose round is not 1..4 never change a total. |
| Calculator.UnplacedTotalsZero | static/js/game-end.js:571-589 | A colour in no placement totals 0. |
| Calculator.UnreadableScoreNaN | static/js/game-end.js:577-583 | A matching key without a readable score makes the total NaN. |
| Calculator.KeyRoundTrip | static/js/game-end.js:577-579 | A key written "round-score" reads back as that round and that score. |
| Calculator.Add | static/js/game-end.js:583 | JavaScript `+`: NaN absorbs, and integers add. |
| Calculator.ParseIntDecimal | static/js/game-end.js:578-579 | `parseInt` reads any integer's decimal text as that integer. |
| Calculator.ParseIntSkipsWhiteSpace | static/js/game-end.js:578-579 | Leading white space never changes `parseInt`'s result. |
| Calculator.NoDigitsNaN | static/js/game-end.js:578-579 | Text that starts with no sign, space or digit is NaN. |
| Calculator.JoinSplit | static/js/game-end.js:577 | Joining the pieces of `split('-')` with '-' gives back the key. |
| Calculator.IndexOf | static/js/game-end.js:577 | Finds the first occurrence of the separator, if any. |
| Calculator.Split | static/js/game-end.js:577 | There is at least one piece, and no piece holds the separator. |
| Calculator.JsRem | static/js/game-end.js:466-467 | JavaScript `%`: the remainder of truncating division, `a == b * trunc(a / b) + r`, with the dividend's sign and magnitude below the divisor. |
| Calculator.OrdinalSuffixEnglish | static/js/game-end.js:464-468 | For n ≥ 0 the suffix follows the English rule: "th" for 11–13 mod 100, else "st", "nd" or "rd" for last digit 1, 2 or 3, else "th". |
| Calculator.GetOrdinalEnglish | static/js/final-score.js:356-360 | For n ≥ 0, the ordinal is n's decimal text followed by the English suffix. |
| Calculator.OrdinalSuffixNegative | static/js/game-end.js:466-467 | A negative n gets "th": JavaScript's negative remainders index no entry. |
| Calculator.OrdinalExamples | static/js/game-end.js:464-468 | 1st, 2nd, 3rd, 4th, 10th, 11th, 12th, 13th, 21st, 112th. |

## Left out

- The CSV reader and writer are not modelled internally. The import sees the reader's output as a given sequence of rows: each is a field list or a read failure, and the sequence ends at end of file. A finite sequence assumes the reader eventually reaches end of file. On a reader that fails forever, the source's loop (import/import.go:74-83) records an error and continues on every pass and never ends; the model does not capture that. The writer's quoting and escaping are not modelled; the export produces rows of strings. A row whose field count differs from the header's arrives as a read failure, as Go's csv.Reader reports it. The model also checks the field count itself, as the source does.
- `parseDate` (`time.Parse` over nine layouts) is a parameter `string -> Option<Instant>`. The layouts are not modelled.
- `time.Format("2006-01-02")` in the export: the stored game carries its date already written.
- `crypto/rand` is replaced by a parameter `draw`. It gives the index in 0..i for position i, or an error.
- `ImportGames` and everything in `db/` (saving, JSON, statistics), HTTP handlers, templates and the rest of the two JavaScript files (DOM, fetch, localStorage) are not modelled. They are I/O around the core.
- Goal names and descriptions are not modelled: only IDs and expansion tags matter to the goal operations.
- JavaScript numbers are integers or NaN. Floating point, precision beyond 2^53 and the sign of zero are not modelled.
- `cubePlacements` values are modelled as a list of colours or absent. A string value, whose `includes` is a substring test, is not modelled. The order of `Object.entries` is the order of the given placement list.
- `ImportError`'s message text is not modelled. Errors carry a structured problem; the bad value's text is kept where Go prints it.
- CalculateGreenScores, CalculateBlueScores and DetermineRankings: Go's `sort.Slice` is not stable and map iteration order is random. The result order is stated only up to what the less function fixes. For Green and Blue, names are distinct, so the order is fully fixed. For rankings, sheets that tie on both keys may come in any order.
- CsvImport.TrimSpace: `strings.TrimSpace` is modelled on a white-space predicate covering ASCII and the Unicode spaces Go trims. The contract states only that the result is trimmed and that unpadded text is kept.
- CsvExport.RoundTrip: the round trip is stated field by field through the import's record and `convertPlayer`. There is no whole-file parse of the exported bytes.
- The export's writer errors cannot occur when writing into a `bytes.Buffer` and are not modelled.
- Integer widths: Go `int` is 64-bit. Parsing bounds values to that range (`Atoi`). Sums of components are unbounded integers, so overflow of a total beyond 2^63-1 is not modelled.

## Notes on the source

- The import's no-winner check (import/import.go:185-187) cannot fire: once every rank 1..n is present, rank 1 is among them (`CsvImport.NoWinnerUnreachable`).
- The import's nectar scorer gives 5 to the top player even when every count is 0 (`CsvImport.NoNectarLeaderStillScores`). It never splits ties (`CsvImport.ImportExampleTiedFirst`). The end-of-game scorer drops zero counts and splits ties. The two disagree by design of the code.
- Green scoring does not clamp negative counts. They are ranked normally and split their group's share; only a count of exactly 0 is forced to 0 points.
- The comment at goals/goals.go:183 says the Oceania list has 10 goals. The list holds 8 (`GoalCatalog.GetAllGoalsLength`).
- The selector's `case 3` (goals/selector.go:30-31) is unreachable, because that branch only runs for pools of at most three goals.
- `ValidateAndConvertGame`'s `gameID` parameter is unused and is dropped from the model.
- `ParseCSV` checks only the header's length, not its names.
- Neither scorer keeps player names distinct, and `ValidateAndConvertGame` accepts a game with two players of the same name. Awards are keyed by name. In the import's scorer, the runner-up's `2` overwrites the leader's `5` when they share a name (`CsvImport.RepeatedNameLeaderGetsTwo`). In the end-of-game scorer, every sheet reads its name's award, so a sheet without nectar that shares the leader's name also collects the leader's points. One habitat can then hand out more than 5 + 2 (`GameEnd.RepeatedNameSharesAward`).
- The line numbers in `ParseCSV`'s errors count the records read (`lineNum` at import/import.go:72-75), not the lines of the file. The CSV reader skips blank lines, and a quoted field can span lines, so the two can differ.
