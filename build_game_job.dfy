/**
 * app/jobs/build_game_job.rb: finds the dictionary words of a building
 * game's board, stores one game word per found word, and marks the game
 * ready when their number lies within the game's bounds, failed otherwise.
 */
module BuildGameJobs {
  import opened Wrappers
  import opened Clock
  import opened Text
  import opened Letters
  import opened Words
  import opened WordSearch
  import opened Games
  import opened GameWords
  import opened GameBoards
  import opened BoardGraph

  /** `update_game_state!`: the event fired for a game holding `count` game words. */
  function OutcomeEvent(count: int, minWords: int, maxWords: int): (ev: Event)
    ensures ev == MarkReady || ev == MarkFailed
    ensures ev == MarkReady <==> minWords <= count <= maxWords
  {
    if count >= minWords && count <= maxWords then MarkReady else MarkFailed
  }

  /** Both bounds are inclusive; with bounds 2 and 3, one or four words fail the game. */
  lemma OutcomeExamples()
    ensures OutcomeEvent(3, 2, 3) == MarkReady && OutcomeEvent(2, 2, 3) == MarkReady
    ensures OutcomeEvent(1, 2, 3) == MarkFailed && OutcomeEvent(4, 2, 3) == MarkFailed
  {
  }

  /** With the workflow as game.rb declares it, a game whose word count lies
      outside its bounds cannot be marked failed: `failed!` is no event of
      that workflow, so the job raises and the game stays building (a game
      without any word and bounds 1 to 10, say). With the failed state the
      same game ends up failed. */
  lemma FailedMissingAsWritten(count: int, minWords: int, maxWords: int)
    requires !(minWords <= count <= maxWords)
    ensures TargetAsWritten(Building, OutcomeEvent(count, minWords, maxWords)).None?
    ensures Target(Building, OutcomeEvent(count, minWords, maxWords)) == Some(Failed)
    ensures TargetAsWritten(Building, OutcomeEvent(0, 1, 10)).None?
  {
  }

  datatype JobError = GameNotFound | CreateFailed(cause: GameWordError)

  /** The game words the job stores for `found`, one per word in order,
      after the `before` rows. */
  ghost predicate CreatedFor(rows: seq<GameWord>, before: nat, gameId: nat, g: Game, found: seq<Word>, n: nat)
    requires n <= |found|
  {
    && |rows| == before + n
    && forall k | before <= k < |rows| ::
      (&& rows[k].gameId == gameId
       && rows[k].wordId == found[k - before].id
       && rows[k].value == found[k - before].value
       && Score(found[k - before].value, g.letterScores) == Some(rows[k].score))
  }

  /** Storing the row for `found[n]` extends the rows created so far. */
  lemma CreatedForSnoc(rows: seq<GameWord>, before: nat, gameId: nat, g: Game, found: seq<Word>, n: nat, row: GameWord)
    requires n < |found| && CreatedFor(rows, before, gameId, g, found, n)
    requires row.gameId == gameId && row.wordId == found[n].id && row.value == found[n].value
    requires Score(found[n].value, g.letterScores) == Some(row.score)
    ensures CreatedFor(rows + [row], before, gameId, g, found, n + 1)
  {
    var s := rows + [row];
    forall k | before <= k < |s|
      ensures s[k].gameId == gameId && s[k].wordId == found[k - before].id
      ensures s[k].value == found[k - before].value && Score(found[k - before].value, g.letterScores) == Some(s[k].score)
    {
      if k < |rows| {
        assert s[k] == rows[k];
      }
    }
  }

  /** On a game without earlier game words whose letter scores cover the
      table, storing the next found word cannot fail: its value is present,
      every letter has a score and no earlier row of the game holds it. */
  lemma CreateSucceeds(rows: seq<GameWord>, rows0: seq<GameWord>, id: nat, g: Game, table: LetterTable, found: seq<Word>, i: nat)
    requires i < |found| && rows0 <= rows
    requires CreatedFor(rows, |rows0|, id, g, found, i)
    requires RowsOf(rows0, id) == []
    requires DistinctValues(found)
    requires forall k | 0 <= k < |found| :: !IsBlank(found[k].value) && Findable(g.letters, found[k].value)
    requires AllLetters(g.letters, table) && ScoresCover(g, table)
    ensures !IsBlank(found[i].value) && Score(found[i].value, g.letterScores).Some?
    ensures forall k | 0 <= k < |rows| :: !(rows[k].gameId == id && SameValueIgnoringCase(rows[k].value, found[i].value))
  {
    var v := found[i].value;
    FindableUsesBoardLetters(g.letters, v);
    forall k | 0 <= k < |v| ensures v[k] in g.letterScores {
      var j :| 0 <= j < |g.letters| && g.letters[j] == v[k];
    }
    forall k | 0 <= k < |rows| ensures !(rows[k].gameId == id && SameValueIgnoringCase(rows[k].value, v)) {
      if k < |rows0| {
        assert rows[k] == rows0[k] && rows0[k] in rows0;
      }
    }
  }

  /** The games after a run on the building game `id`: that game fired with
      the outcome event for its earlier rows plus the words found on its
      board among `words`. */
  ghost function Built(games: map<nat, Game>, rows: seq<GameWord>, words: seq<Word>, id: nat, now: Time): map<nat, Game>
    requires id in games && games[id].state == Building
    requires games[id].minWords.Some? && games[id].maxWords.Some?
  {
    var g := games[id];
    var found := Findables(g.letters, Active(words));
    games[id := Fire(g, OutcomeEvent(|RowsOf(rows, id)| + |found|, g.minWords.value, g.maxWords.value), now).value]
  }

  /** `BuildGameJob#perform(game_id)`: a missing game is an error, a game
      that is not building is left alone, a building game is built. */
  method Perform(store: GameStore, gameWords: GameWordTable, dictionary: Dictionary, id: nat, now: Time)
    returns (r: Result<(), JobError>)
    requires store.Valid() && gameWords.Valid() && dictionary.Valid()
    modifies store, gameWords
    ensures store.Valid() && gameWords.Valid()
    ensures id !in old(store.games) ==>
      r == Failure(GameNotFound) && store.games == old(store.games) && gameWords.rows == old(gameWords.rows)
    ensures id in old(store.games) && old(store.games[id].state) != Building ==>
      r.Success? && store.games == old(store.games) && gameWords.rows == old(gameWords.rows)
    ensures id in old(store.games) && old(store.games[id].state) == Building ==>
      && old(gameWords.rows) <= gameWords.rows
      && (r.Success? ==> Completed(store.games, gameWords.rows, old(store.games), old(gameWords.rows), old(dictionary.words), id, now))
      && (r.Failure? ==> store.games == old(store.games))
      && (RowsOf(old(gameWords.rows), id) == [] && ScoresCover(old(store.games[id]), store.table) ==> r.Success?)
  {
    if id !in store.games {
      return Failure(GameNotFound);
    }
    if store.games[id].state != Building {
      return Success(());
    }
    r := Build(store, gameWords, dictionary, id, now);
  }

  /** What a completed run leaves behind: one row per found word after the
      earlier rows, and the game fired with its outcome event. */
  ghost predicate Completed(games: map<nat, Game>, rows: seq<GameWord>, games0: map<nat, Game>, rows0: seq<GameWord>, words: seq<Word>, id: nat, now: Time)
    requires id in games0 && games0[id].state == Building
    requires games0[id].minWords.Some? && games0[id].maxWords.Some?
  {
    var g := games0[id];
    var found := Findables(g.letters, Active(words));
    && CreatedFor(rows, |rows0|, id, g, found, |found|)
    && games == Built(games0, rows0, words, id, now)
    && id in games && games[id].state != Building
  }

  lemma CompletedIntro(games: map<nat, Game>, rows: seq<GameWord>, games0: map<nat, Game>, rows0: seq<GameWord>,
                       words: seq<Word>, id: nat, now: Time, found: seq<Word>, g: Game, n: nat)
    requires id in games0 && games0[id] == g && g.state == Building && g.minWords.Some? && g.maxWords.Some?
    requires found == Findables(g.letters, Active(words))
    requires n == |RowsOf(rows0, id)| + |found|
    requires CreatedFor(rows, |rows0|, id, g, found, |found|)
    requires games == games0[id := Fire(g, OutcomeEvent(n, g.minWords.value, g.maxWords.value), now).value]
    ensures Completed(games, rows, games0, rows0, words, id, now)
  {
  }

  /** The body of `perform` past its guard, on a building game. */
  method Build(store: GameStore, gameWords: GameWordTable, dictionary: Dictionary, id: nat, now: Time)
    returns (r: Result<(), JobError>)
    requires store.Valid() && gameWords.Valid() && dictionary.Valid()
    requires id in store.games && store.games[id].state == Building
    modifies store, gameWords
    ensures store.Valid() && gameWords.Valid()
    ensures old(gameWords.rows) <= gameWords.rows
    ensures r.Success? ==> Completed(store.games, gameWords.rows, old(store.games), old(gameWords.rows), old(dictionary.words), id, now)
    ensures r.Failure? ==> store.games == old(store.games)
    ensures RowsOf(old(gameWords.rows), id) == [] && ScoresCover(old(store.games[id]), store.table) ==> r.Success?
  {
    var g := store.games[id];
    var words := dictionary.words;
    // find_words!
    var found := FindGameWords(g, store.table, words);
    // create_game_words!
    ghost var rows0 := gameWords.rows;
    var created := CreateGameWords(gameWords, id, g, store.table, found);
    if created.Failure? {
      return Failure(CreateFailed(created.error));
    }
    // update_game_state!
    ghost var n := |RowsOf(gameWords.rows, id)|;
    assert n == |RowsOf(rows0, id)| + |found|;
    ghost var games0 := store.games;
    UpdateGameState(store, gameWords, id, now);
    CompletedIntro(store.games, gameWords.rows, games0, rows0, words, id, now, found, g, n);
    return Success(());
  }

  /** `find_words!`: a board built from the game's letters, searched against
      the dictionary. The words found have distinct, present values. */
  method FindGameWords(g: Game, table: LetterTable, words: seq<Word>) returns (found: seq<Word>)
    requires |g.letters| == TileCount && AllLetters(g.letters, table)
    requires DistinctValues(words) && forall i | 0 <= i < |words| :: !IsBlank(words[i].value)
    ensures found == Findables(g.letters, Active(words))
    ensures DistinctValues(found)
    ensures forall k | 0 <= k < |found| :: !IsBlank(found[k].value) && Findable(g.letters, found[k].value)
  {
    var board := new GameBoard(g.letters, table);
    found := board.FindWords(words);
    forall k | 0 <= k < |found| ensures !IsBlank(found[k].value) && Findable(g.letters, found[k].value) {
      assert found[k] in found;
      var j :| 0 <= j < |words| && words[j] == found[k];
    }
    ActiveKeepsDistinct(words);
    FindablesKeepsDistinct(g.letters, Active(words));
  }

  /** `update_game_state!`: `ready!` when the game's number of game words
      lies within its bounds, `failed!` otherwise. */
  method UpdateGameState(store: GameStore, gameWords: GameWordTable, id: nat, now: Time)
    requires store.Valid() && id in store.games && store.games[id].state == Building
    modifies store
    ensures store.Valid()
    ensures var g := old(store.games[id]);
      store.games == old(store.games)[id := Fire(g, OutcomeEvent(|RowsOf(gameWords.rows, id)|, g.minWords.value, g.maxWords.value), now).value]
    ensures store.games[id].state == Ready || store.games[id].state == Failed
  {
    var g := store.games[id];
    var count := gameWords.CountFor(id);
    var ev := OutcomeEvent(count, g.minWords.value, g.maxWords.value);
    ghost var games0 := store.games;
    var fired := store.FireEvent(id, ev, now);
    assert Fire(g, ev, now).Success?;
    assert store.games == games0[id := Fire(g, ev, now).value] by {
      forall k | k in store.games ensures store.games[k] == games0[id := Fire(g, ev, now).value][k] {
      }
    }
  }

  /** `create_game_words!`: `create!` for each found word in order; the first
      refusal is raised and ends the job, the rows stored before it remain. */
  method CreateGameWords(gameWords: GameWordTable, id: nat, g: Game, ghost table: LetterTable, found: seq<Word>)
    returns (r: Result<(), GameWordError>)
    requires gameWords.Valid()
    requires DistinctValues(found) && AllLetters(g.letters, table)
    requires forall k | 0 <= k < |found| :: !IsBlank(found[k].value) && Findable(g.letters, found[k].value)
    modifies gameWords
    ensures gameWords.Valid()
    ensures old(gameWords.rows) <= gameWords.rows
    ensures r.Success? ==> CreatedFor(gameWords.rows, |old(gameWords.rows)|, id, g, found, |found|)
    ensures r.Success? ==> |RowsOf(gameWords.rows, id)| == |RowsOf(old(gameWords.rows), id)| + |found|
    ensures RowsOf(old(gameWords.rows), id) == [] && ScoresCover(g, table) ==> r.Success?
  {
    ghost var rows0 := gameWords.rows;
    ghost var wellFormed := RowsOf(rows0, id) == [] && ScoresCover(g, table);
    for i := 0 to |found|
      invariant gameWords.Valid()
      invariant rows0 <= gameWords.rows
      invariant CreatedFor(gameWords.rows, |rows0|, id, g, found, i)
      invariant |RowsOf(gameWords.rows, id)| == |RowsOf(rows0, id)| + i
    {
      if wellFormed {
        CreateSucceeds(gameWords.rows, rows0, id, g, table, found, i);
      }
      var created := CreateGameWord(gameWords, id, g, found, i, rows0, wellFormed);
      if created.Failure? {
        return created;
      }
    }
    return Success(());
  }

  /** One `create!` of `create_game_words!`: the row for `found[i]`. It
      succeeds when the value is present, scored and not yet used in the
      game (`certain`). */
  method CreateGameWord(gameWords: GameWordTable, id: nat, g: Game, found: seq<Word>, i: nat,
                        ghost rows0: seq<GameWord>, ghost certain: bool)
    returns (r: Result<(), GameWordError>)
    requires gameWords.Valid() && i < |found| && rows0 <= gameWords.rows
    requires CreatedFor(gameWords.rows, |rows0|, id, g, found, i)
    requires |RowsOf(gameWords.rows, id)| == |RowsOf(rows0, id)| + i
    requires certain ==> !IsBlank(found[i].value) && Score(found[i].value, g.letterScores).Some?
    requires certain ==> forall k | 0 <= k < |gameWords.rows| ::
      !(gameWords.rows[k].gameId == id && SameValueIgnoringCase(gameWords.rows[k].value, found[i].value))
    modifies gameWords
    ensures gameWords.Valid() && rows0 <= gameWords.rows
    ensures r.Success? ==> CreatedFor(gameWords.rows, |rows0|, id, g, found, i + 1)
    ensures r.Success? ==> |RowsOf(gameWords.rows, id)| == |RowsOf(rows0, id)| + i + 1
    ensures certain ==> r.Success?
  {
    var w := found[i];
    assert certain ==> !gameWords.ValueTakenIn(id, w.value);
    ghost var before := gameWords.rows;
    var created := gameWords.Create(Some((id, g)), Some((w.id, w)));
    if created.Failure? {
      return Failure(created.error);
    }
    RowsOfAppend(before, created.value, id);
    CreatedForSnoc(before, |rows0|, id, g, found, i, created.value);
    return Success(());
  }
}
