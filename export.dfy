/** The CSV export (export/export.go): one header row, then one row per
    player of every stored game, in the layout the import reads. */
module CsvExport {
  import opened Common
  import opened GameEnd
  import opened CsvImport

  /** The export's column names. */
  const CsvHeader: seq<string> := ["GameID", "Date", "IncludeOceania", "PlayerName", "BirdPoints",
    "BonusCards", "RoundGoals", "Eggs", "CachedFood", "TuckedCards", "NectarForest", "NectarGrassland",
    "NectarWetland", "UnusedFood", "Total", "Rank"]

  /** What the export reads of a stored game: its ID, its creation date
      already written as YYYY-MM-DD, the Oceania flag and its players in
      stored order. */
  datatype StoredGame = StoredGame(id: int, date: string, includeOceania: bool, players: seq<PlayerGameEnd>)

  /** A player's twelve numbers, in header order. */
  function Numbers(p: PlayerGameEnd): (ns: seq<int>)
    ensures |ns| == 12
  {
    [p.birdPoints, p.bonusCards, p.roundGoals, p.eggs, p.cachedFood, p.tuckedCards,
     p.nectarForest, p.nectarGrassland, p.nectarWetland, p.unusedFood, p.total, p.rank]
  }

  /** strconv.Itoa on each number. */
  function Decimals(ns: seq<int>): (r: seq<string>)
    ensures |r| == |ns|
  {
    if ns == [] then [] else [IntToDecimal(ns[0])] + Decimals(ns[1..])
  }

  lemma {:induction false} DecimalsAt(ns: seq<int>, i: nat)
    requires i < |ns|
    ensures Decimals(ns)[i] == IntToDecimal(ns[i])
  {
    if i > 0 {
      DecimalsAt(ns[1..], i - 1);
      assert Decimals(ns) == [IntToDecimal(ns[0])] + Decimals(ns[1..]);
    }
  }

  /** One player's row: the game's three columns, the name, then the
      twelve numbers in header order. */
  function PlayerRow(gameId: string, date: string, includeOceania: string, p: PlayerGameEnd): (row: seq<string>)
    ensures |row| == |CsvHeader|
  {
    [gameId, date, includeOceania, p.playerName] + Decimals(Numbers(p))
  }

  /** The row of player `p` of game `g`. */
  function RowOf(g: StoredGame, p: PlayerGameEnd): seq<string>
  {
    PlayerRow(IntToDecimal(g.id), g.date, FormatBool(g.includeOceania), p)
  }

  /** The row-writing step for game `g`: a player to that player's row. */
  function RowFor(g: StoredGame): PlayerGameEnd -> seq<string>
  {
    p => RowOf(g, p)
  }

  /** A game's rows: one per player, in stored order. */
  function RowsOfGame(g: StoredGame): (rows: seq<seq<string>>)
    ensures |rows| == |g.players|
  {
    MapSeq(RowFor(g), g.players)
  }

  /** The data rows of all games: each game's rows, game after game. */
  function DataRows(games: seq<StoredGame>): seq<seq<string>>
  {
    Concat(MapSeq(RowsOfGame, games))
  }

  function PlayersOf(g: StoredGame): seq<PlayerGameEnd>
  {
    g.players
  }

  /** The number of players over all games. */
  function PlayerCount(games: seq<StoredGame>): nat
  {
    TotalLength(MapSeq(PlayersOf, games))
  }

  /** ExportGamesToCSV: the header, then for each game in order and each of
      its players in order, that player's row. */
  method ExportGamesToCSV(games: seq<StoredGame>) returns (rows: seq<seq<string>>)
    ensures rows == [CsvHeader] + DataRows(games)
  {
    rows := [CsvHeader];
    var g := 0;
    while g < |games|
      invariant 0 <= g <= |games|
      invariant rows == [CsvHeader] + DataRows(games[..g])
    {
      var gameRows := WriteGame(games[g]);
      ghost var before := MapSeq(RowsOfGame, games[..g]);
      MapSeqSnoc(RowsOfGame, games, g);
      ConcatSnoc(before, gameRows);
      AppendAssociative([CsvHeader], Concat(before), gameRows);
      rows := rows + gameRows;
      g := g + 1;
    }
    assert games[..g] == games;
  }

  /** The inner loop of ExportGamesToCSV: the game's three columns are
      rendered once, then one row is written per player. */
  method WriteGame(game: StoredGame) returns (gameRows: seq<seq<string>>)
    ensures gameRows == RowsOfGame(game)
  {
    var gameId := IntToDecimal(game.id);
    var date := game.date;
    var includeOceania := FormatBool(game.includeOceania);
    gameRows := [];
    var k := 0;
    while k < |game.players|
      invariant 0 <= k <= |game.players|
      invariant gameRows == MapSeq(RowFor(game), game.players[..k])
    {
      var row := PlayerRow(gameId, date, includeOceania, game.players[k]);
      MapSeqSnoc(RowFor(game), game.players, k);
      gameRows := gameRows + [row];
      k := k + 1;
    }
    assert game.players[..k] == game.players;
  }

  // ---------------------------------------------------------------------
  // Sequences of chunks

  /** The chunks laid end to end. */
  function Concat<T>(chunks: seq<seq<T>>): seq<T>
  {
    if chunks == [] then [] else Concat(chunks[..|chunks| - 1]) + chunks[|chunks| - 1]
  }

  /** The chunks' lengths added up. */
  function TotalLength<T>(chunks: seq<seq<T>>): nat
  {
    if chunks == [] then 0 else TotalLength(chunks[..|chunks| - 1]) + |chunks[|chunks| - 1]|
  }

  lemma AppendAssociative<T>(a: seq<T>, b: seq<T>, c: seq<T>)
    ensures (a + b) + c == a + (b + c)
  {
  }

  lemma ConcatSnoc<T>(chunks: seq<seq<T>>, x: seq<T>)
    ensures Concat(chunks + [x]) == Concat(chunks) + x
  {
    assert (chunks + [x])[..|chunks|] == chunks;
  }

  lemma MapSeqSnoc<T, U>(f: T -> U, s: seq<T>, i: nat)
    requires i < |s|
    ensures MapSeq(f, s[..i + 1]) == MapSeq(f, s[..i]) + [f(s[i])]
  {
    assert s[..i + 1][..i] == s[..i];
  }

  lemma MapSeqPrefix<T, U>(f: T -> U, s: seq<T>, i: nat)
    requires i <= |s|
    ensures MapSeq(f, s)[..i] == MapSeq(f, s[..i])
  {
  }

  lemma {:induction false} ConcatLength<T>(chunks: seq<seq<T>>)
    ensures |Concat(chunks)| == TotalLength(chunks)
  {
    if chunks != [] {
      ConcatLength(chunks[..|chunks| - 1]);
    }
  }

  /** Element `k` of chunk `i` sits after the elements of the chunks
      before it. */
  lemma {:induction false} ConcatAt<T>(chunks: seq<seq<T>>, i: nat, k: nat)
    requires i < |chunks| && k < |chunks[i]|
    ensures TotalLength(chunks[..i]) + k < |Concat(chunks)|
    ensures Concat(chunks)[TotalLength(chunks[..i]) + k] == chunks[i][k]
    decreases |chunks|
  {
    var init := chunks[..|chunks| - 1];
    ConcatLength(init);
    if i < |chunks| - 1 {
      assert init[..i] == chunks[..i];
      ConcatAt(init, i, k);
    } else {
      assert init == chunks[..i];
    }
  }

  /** Element `k` of the chunk made from `s[i]`, in the chunks made from
      all of `s` laid end to end, when `h` tells the length of each chunk. */
  lemma ConcatMapAt<T, U, V>(f: T -> seq<U>, h: T -> seq<V>, s: seq<T>, i: nat, k: nat)
    requires forall x :: |f(x)| == |h(x)|
    requires i < |s| && k < |f(s[i])|
    ensures TotalLength(MapSeq(h, s[..i])) + k < |Concat(MapSeq(f, s))|
    ensures Concat(MapSeq(f, s))[TotalLength(MapSeq(h, s[..i])) + k] == f(s[i])[k]
  {
    var chunks := MapSeq(f, s);
    assert chunks[i] == f(s[i]);
    ConcatAt(chunks, i, k);
    PrefixTotalLength(f, h, s, i);
  }

  lemma PrefixTotalLength<T, U, V>(f: T -> seq<U>, h: T -> seq<V>, s: seq<T>, i: nat)
    requires forall x :: |f(x)| == |h(x)|
    requires i <= |s|
    ensures TotalLength(MapSeq(f, s)[..i]) == TotalLength(MapSeq(h, s[..i]))
  {
    MapSeqPrefix(f, s, i);
    SameTotalLength(f, h, s[..i]);
  }

  /** Two maps that give chunks of the same lengths give the same total
      length. */
  lemma {:induction false} SameTotalLength<T, U, V>(f: T -> seq<U>, h: T -> seq<V>, s: seq<T>)
    requires forall x :: |f(x)| == |h(x)|
    ensures TotalLength(MapSeq(f, s)) == TotalLength(MapSeq(h, s))
  {
    if s != [] {
      var init := s[..|s| - 1];
      SameTotalLength(f, h, init);
      assert MapSeq(f, s)[..|s| - 1] == MapSeq(f, init);
      assert MapSeq(h, s)[..|s| - 1] == MapSeq(h, init);
    }
  }

  /** Each game contributes as many rows as it has players. */
  lemma RowsPerPlayer(games: seq<StoredGame>)
    ensures TotalLength(MapSeq(RowsOfGame, games)) == PlayerCount(games)
  {
    SameTotalLength(RowsOfGame, PlayersOf, games);
  }

  // ---------------------------------------------------------------------
  // Properties of the layout

  /** The export's header is the header the import expects. */
  lemma HeaderMatchesImport()
    ensures CsvHeader == ExpectedHeaders
  {
  }

  /** One data row per player of every game. */
  lemma DataRowsCount(games: seq<StoredGame>)
    ensures |DataRows(games)| == PlayerCount(games)
  {
    ConcatLength(MapSeq(RowsOfGame, games));
    RowsPerPlayer(games);
  }

  /** No games: the header row alone. */
  lemma NoGamesHeaderOnly(games: seq<StoredGame>)
    requires games == []
    ensures [CsvHeader] + DataRows(games) == [CsvHeader]
  {
  }

  /** Player `k` of game `i` is on the data row after the players of the
      games before it and the players before it. */
  lemma DataRowsAt(games: seq<StoredGame>, i: nat, k: nat)
    requires i < |games| && k < |games[i].players|
    ensures PlayerCount(games[..i]) + k < |DataRows(games)|
    ensures DataRows(games)[PlayerCount(games[..i]) + k] == RowOf(games[i], games[i].players[k])
  {
    DataRowsChunkAt(games, i, k);
    RowsOfGameAt(games[i], k);
  }

  lemma DataRowsChunkAt(games: seq<StoredGame>, i: nat, k: nat)
    requires i < |games| && k < |games[i].players|
    ensures PlayerCount(games[..i]) + k < |DataRows(games)|
    ensures DataRows(games)[PlayerCount(games[..i]) + k] == RowsOfGame(games[i])[k]
  {
    ConcatMapAt(RowsOfGame, PlayersOf, games, i, k);
  }

  lemma RowsOfGameAt(g: StoredGame, k: nat)
    requires k < |g.players|
    ensures RowsOfGame(g)[k] == RowOf(g, g.players[k])
  {
    assert RowsOfGame(g)[k] == RowFor(g)(g.players[k]);
  }

  // ---------------------------------------------------------------------
  // Round trip through the import

  /** The number fields a stored player can carry through the file. */
  ghost predicate Exportable(p: PlayerGameEnd)
  {
    && p.playerName != "" && Unpadded(p.playerName)
    && 0 <= p.birdPoints <= MaxInt64 && 0 <= p.bonusCards <= MaxInt64 && 0 <= p.roundGoals <= MaxInt64
    && 0 <= p.eggs <= MaxInt64 && 0 <= p.cachedFood <= MaxInt64 && 0 <= p.tuckedCards <= MaxInt64
    && 0 <= p.nectarForest <= MaxInt64 && 0 <= p.nectarGrassland <= MaxInt64 && 0 <= p.nectarWetland <= MaxInt64
    && 0 <= p.unusedFood <= MaxInt64 && 0 <= p.total <= MaxInt64 && 1 <= p.rank <= MaxInt64
  }

  /** A stored player as the import reads it back: the nectar counts are
      kept for an Oceania game and read as 0 otherwise. */
  function Reimported(p: PlayerGameEnd, includeOceania: bool): PlayerGameEnd
  {
    if includeOceania then p else p.(nectarForest := 0, nectarGrassland := 0, nectarWetland := 0)
  }

  /** `row` holds the exported columns of player `p` of game `g`: the
      game's ID, date and flag, the name, then the twelve numbers. */
  ghost predicate ExportedColumns(row: seq<string>, g: StoredGame, p: PlayerGameEnd)
  {
    && |row| == 16
    && row[0] == IntToDecimal(g.id) && row[1] == g.date
    && row[2] == FormatBool(g.includeOceania) && row[3] == p.playerName
    && forall i :: 0 <= i < 12 ==> row[4 + i] == IntToDecimal(Numbers(p)[i])
  }

  /** The columns of a player's row. */
  lemma RowColumns(g: StoredGame, p: PlayerGameEnd)
    ensures ExportedColumns(RowOf(g, p), g, p)
  {
    var ns := Numbers(p);
    forall i | 0 <= i < 12 ensures RowOf(g, p)[4 + i] == IntToDecimal(ns[i]) {
      DecimalsAt(ns, i);
    }
  }

  /** No field starts or ends with white space. */
  ghost predicate AllTrimmed(fields: seq<string>)
  {
    forall i :: 0 <= i < |fields| ==> Unpadded(fields[i])
  }

  /** Every field of an exported row is already trimmed, so reading it
      keeps it as it is. */
  lemma RowTrimmed(g: StoredGame, p: PlayerGameEnd)
    requires Unpadded(p.playerName) && Unpadded(g.date)
    ensures AllTrimmed(RowOf(g, p))
  {
    DecimalUnpadded(g.id);
    FormatBoolUnpadded(g.includeOceania);
    var head := [IntToDecimal(g.id), g.date, FormatBool(g.includeOceania), p.playerName];
    FourTrimmed(head[0], head[1], head[2], head[3]);
    DecimalsTrimmed(Numbers(p));
    AppendTrimmed(head, Decimals(Numbers(p)));
  }

  lemma FourTrimmed(a: string, b: string, c: string, d: string)
    requires Unpadded(a) && Unpadded(b) && Unpadded(c) && Unpadded(d)
    ensures AllTrimmed([a, b, c, d])
  {
    var s := [a, b, c, d];
    forall i | 0 <= i < 4 ensures Unpadded(s[i]) {
      if i == 0 {
      } else if i == 1 {
      } else if i == 2 {
      } else {
      }
    }
  }

  lemma AppendTrimmed(a: seq<string>, b: seq<string>)
    requires AllTrimmed(a) && AllTrimmed(b)
    ensures AllTrimmed(a + b)
  {
    forall i | 0 <= i < |a + b| ensures Unpadded((a + b)[i]) {
      if i < |a| {
        assert (a + b)[i] == a[i];
      } else {
        assert (a + b)[i] == b[i - |a|];
      }
    }
  }

  /** The decimal text of numbers carries no white space at its ends. */
  lemma {:induction false} DecimalsTrimmed(ns: seq<int>)
    ensures AllTrimmed(Decimals(ns))
  {
    if ns != [] {
      DecimalUnpadded(ns[0]);
      OneTrimmed(IntToDecimal(ns[0]));
      DecimalsTrimmed(ns[1..]);
      AppendTrimmed([IntToDecimal(ns[0])], Decimals(ns[1..]));
    }
  }

  lemma OneTrimmed(a: string)
    requires Unpadded(a)
    ensures AllTrimmed([a])
  {
  }

  lemma FormatBoolUnpadded(b: bool)
    ensures Unpadded(FormatBool(b))
  {
    var t := FormatBool(b);
    assert !IsSpace(t[0]) && !IsSpace(t[|t| - 1]);
  }

  /** The record the import should read from player `p`'s row: the
      game's ID, date and flag as written, the name, and each number's
      decimal text. */
  function ExportedRecord(g: StoredGame, p: PlayerGameEnd): CsvRecord
  {
    CsvRecord(IntToDecimal(g.id), g.date, FormatBool(g.includeOceania), p.playerName,
      IntToDecimal(p.birdPoints), IntToDecimal(p.bonusCards), IntToDecimal(p.roundGoals), IntToDecimal(p.eggs),
      IntToDecimal(p.cachedFood), IntToDecimal(p.tuckedCards), IntToDecimal(p.nectarForest),
      IntToDecimal(p.nectarGrassland), IntToDecimal(p.nectarWetland), IntToDecimal(p.unusedFood),
      IntToDecimal(p.total), IntToDecimal(p.rank))
  }

  lemma DecimalNotEmpty(n: int)
    ensures IntToDecimal(n) != ""
  {
    IntToDecimalShape(n);
  }

  /** A row of sixteen trimmed fields with a game ID reads as the record of
      those fields. */
  lemma ReadTrimmedRow(row: seq<string>)
    requires |row| == 16 && row[0] != "" && AllTrimmed(row)
    ensures ReadRow(Fields(row)) == Ok(CsvRecord(row[0], row[1], row[2], row[3], row[4], row[5], row[6], row[7],
      row[8], row[9], row[10], row[11], row[12], row[13], row[14], row[15]))
  {
    ReadRowAccepts(Fields(row));
  }

  /** The import accepts an exported row, with its name and date free of
      surrounding white space, as the record of the row's fields. */
  lemma ExportReadsBack(g: StoredGame, p: PlayerGameEnd)
    requires Unpadded(p.playerName) && Unpadded(g.date)
    ensures ReadRow(Fields(RowOf(g, p))) == Ok(ExportedRecord(g, p))
  {
    RowColumns(g, p);
    RowTrimmed(g, p);
    ReadColumns(RowOf(g, p), g, p);
  }

  lemma ReadColumns(row: seq<string>, g: StoredGame, p: PlayerGameEnd)
    requires ExportedColumns(row, g, p) && AllTrimmed(row)
    ensures ReadRow(Fields(row)) == Ok(ExportedRecord(g, p))
  {
    DecimalNotEmpty(g.id);
    ReadTrimmedRow(row);
    RecordOfColumns(row, g, p);
  }

  /** The record of a row with the exported columns is the exported
      record. */
  lemma RecordOfColumns(row: seq<string>, g: StoredGame, p: PlayerGameEnd)
    requires ExportedColumns(row, g, p)
    ensures CsvRecord(row[0], row[1], row[2], row[3], row[4], row[5], row[6], row[7], row[8], row[9], row[10],
      row[11], row[12], row[13], row[14], row[15]) == ExportedRecord(g, p)
  {
    var ns := Numbers(p);
    assert row[4 + 0] == IntToDecimal(ns[0]);
    assert row[4 + 1] == IntToDecimal(ns[1]);
    assert row[4 + 2] == IntToDecimal(ns[2]);
    assert row[4 + 3] == IntToDecimal(ns[3]);
    assert row[4 + 4] == IntToDecimal(ns[4]);
    assert row[4 + 5] == IntToDecimal(ns[5]);
    assert row[4 + 6] == IntToDecimal(ns[6]);
    assert row[4 + 7] == IntToDecimal(ns[7]);
    assert row[4 + 8] == IntToDecimal(ns[8]);
    assert row[4 + 9] == IntToDecimal(ns[9]);
    assert row[4 + 10] == IntToDecimal(ns[10]);
    assert row[4 + 11] == IntToDecimal(ns[11]);
  }

  /** Converting the exported record gives back the game's Oceania flag
      and the player's name, scores, unused food, total and rank; the
      nectar counts come back only for an Oceania game. */
  lemma ExportedRecordConverts(g: StoredGame, p: PlayerGameEnd)
    requires Exportable(p)
    ensures ParseBool(ExportedRecord(g, p).includeOceania) == Ok(g.includeOceania)
    ensures ConvertPlayer(ExportedRecord(g, p), g.includeOceania) == Ok(Reimported(p, g.includeOceania))
  {
    ParseBoolFormatBool(g.includeOceania);
    ParseIntDecimal(p.birdPoints, "BirdPoints");
    ParseIntDecimal(p.bonusCards, "BonusCards");
    ParseIntDecimal(p.roundGoals, "RoundGoals");
    ParseIntDecimal(p.eggs, "Eggs");
    ParseIntDecimal(p.cachedFood, "CachedFood");
    ParseIntDecimal(p.tuckedCards, "TuckedCards");
    ParseIntDecimal(p.nectarForest, "NectarForest");
    ParseIntDecimal(p.nectarGrassland, "NectarGrassland");
    ParseIntDecimal(p.nectarWetland, "NectarWetland");
    ParseIntDecimal(p.unusedFood, "UnusedFood");
    ParseIntDecimal(p.total, "Total");
    ParseIntDecimal(p.rank, "Rank");
    ConvertParsed(ExportedRecord(g, p), p, g.includeOceania);
  }

  /** Reading an exported row back: the import accepts it as a record of
      the same game, and converting that record gives back the Oceania
      flag and the player as stored, up to the nectar counts of a game
      without Oceania. */
  lemma RoundTrip(g: StoredGame, p: PlayerGameEnd)
    requires Exportable(p) && Unpadded(g.date)
    ensures ReadRow(Fields(RowOf(g, p))).Ok?
    ensures ReadRow(Fields(RowOf(g, p))).value.gameId == IntToDecimal(g.id)
    ensures ReadRow(Fields(RowOf(g, p))).value.date == g.date
    ensures ParseBool(ReadRow(Fields(RowOf(g, p))).value.includeOceania) == Ok(g.includeOceania)
    ensures ConvertPlayer(ReadRow(Fields(RowOf(g, p))).value, g.includeOceania) == Ok(Reimported(p, g.includeOceania))
  {
    ExportReadsBack(g, p);
    ExportedRecordConverts(g, p);
  }

  /** convertPlayer on a record whose fields parse to a player's numbers
      gives back that player, as the import reads it. */
  lemma ConvertParsed(rec: CsvRecord, p: PlayerGameEnd, includeOceania: bool)
    requires rec.playerName == p.playerName != "" && p.rank >= 1
    requires ParseInt(rec.birdPoints, "BirdPoints") == Ok(p.birdPoints)
    requires ParseInt(rec.bonusCards, "BonusCards") == Ok(p.bonusCards)
    requires ParseInt(rec.roundGoals, "RoundGoals") == Ok(p.roundGoals)
    requires ParseInt(rec.eggs, "Eggs") == Ok(p.eggs)
    requires ParseInt(rec.cachedFood, "CachedFood") == Ok(p.cachedFood)
    requires ParseInt(rec.tuckedCards, "TuckedCards") == Ok(p.tuckedCards)
    requires ParseInt(rec.nectarForest, "NectarForest") == Ok(p.nectarForest)
    requires ParseInt(rec.nectarGrassland, "NectarGrassland") == Ok(p.nectarGrassland)
    requires ParseInt(rec.nectarWetland, "NectarWetland") == Ok(p.nectarWetland)
    requires ParseInt(rec.unusedFood, "UnusedFood") == Ok(p.unusedFood)
    requires ParseInt(rec.total, "Total") == Ok(p.total)
    requires ParseInt(rec.rank, "Rank") == Ok(p.rank)
    ensures ConvertPlayer(rec, includeOceania) == Ok(Reimported(p, includeOceania))
  {
    assert rec.unusedFood != "" && rec.total != "";
  }
}
