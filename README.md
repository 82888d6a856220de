# Pludr in Dafny

Pludr is a word-search game. An operator creates a game with 25 letters
laid out as a 5x5 board. A background job looks up every dictionary word
that can be traced on the board. A word is traced along a path of
pairwise distinct tiles, each one orthogonally or diagonally adjacent to
the one before. The job stores those words as the game's words and marks
the game ready or failed, depending on whether their number lies within
the game's bounds. Once the game is started, players click tiles in the
browser to spell a word and submit it. The answer is "correct" (with the
word's score), "duplicate" or "incorrect".

This project models that core and proves its properties:

| file | module | what it models |
|---|---|---|
| `board_graph.dfy` | `BoardGraph` | The grid geometry and the neighbour lists. |
| `word_search.dfy` | `WordSearch` | The backtracking search `traverse`, with its specification as a self-avoiding path. Also the board's letter pairs. |
| `game_tile.dfy` | `Tiles` | `GameTile` as a class with a mutable neighbour list. |
| `game_board.dfy` | `GameBoards` | `GameBoard` as a class. It covers tile preparation and connection, `check_word` and `find_words`. |
| `text.dfy` | `Text` | The string helpers: strip, upcase, space removal and lexicographic order. |
| `letters.dfy` | `Letters` | The letter table. |
| `clock.dfy` | `Clock` | Time stamps. |
| `wrappers.dfy` | `Wrappers` | `Option` and `Result`. |
| `words.dfy` | `Words` | Dictionary words: normaliser, validations, soft-delete scopes, letter pairs, the candidate filter, and the words table as a class. |
| `games.dfy` | `Games` | The game workflow with its time stamps, letters, salt and destroyability. Also the games table, which holds at most one started game. |
| `game_words.dfy` | `GameWords` | Game words: copied value, hash, length and score. Also the game_words table. |
| `build_game_job.dfy` | `BuildGameJobs` | `BuildGameJob#perform`. |
| `guesses.dfy` | `Guesses` | Guesses and their alphabetical listing. Also `GuessesController#create`, including find-or-create and the feedback classification. |
| `tile_selection.dfy` | `TileSelection` | The Stimulus controller `game_board_controller.js`, with the tile selection as a class. |

Some things are parameters rather than computations:

- Tiles are the indices 0..24. A tile's neighbours are indices, and the search tracks visited tiles by index, not by letter.
- The SHA-256 digest is a function parameter of the game_words table.
- The random salt, the weighted random letters, the letter table of `config/letters.yml` and the current time are inputs.

Ruby and Rails use two different whitespace sets, and the model keeps them apart:

- `String#strip` removes NUL and the ASCII whitespace characters (`Text.IsWhitespace`).
- `blank?` matches `[[:space:]]`, the Unicode White_Space characters, which include the no-break space and exclude NUL (`Text.IsSpace`, `Text.IsBlank`). Presence validations and `params.require` use it.

Several behaviours are relied on by the job, the controller and the tests, but `app/models/game.rb` and `app/models/word.rb` do not contain them:

- the failed state;
- `Game.current`;
- `destroyable?` and `destroy`;
- ending the other started game on start;
- the word bounds validation;
- the `game_words` association;
- `letter_pairs`, `candidate_words`, `delete!` and `restore!`.

The model follows the tests for these and cites them. For the missing failed state, it also models the workflow as written; see "## Findings".

## Model

| member | source | states |
|---|---|---|
| BoardGraph.Cell | app/models/game_board.rb:54 | The cell at a row and column is a tile index. Its row and column are the given ones. |
| BoardGraph.NeighborsUpToMembers | app/models/game_board.rb:66-74 | A tile is among the neighbours the first k offsets contribute iff one of those offsets leads to it. |
| BoardGraph.OffsetIndex | app/models/game_board.rb:6-8 | Every non-zero offset of at most one in each direction occurs in NEIGHBOR_RELATIVE_COORDINATES. |
| BoardGraph.NeighborListIsAdjacency | app/models/game_board.rb:62-80 | j is a neighbour of i iff i != j and their rows and columns each differ by at most 1. |
| BoardGraph.NeighborListSymmetricIrreflexive | app/models/game_board.rb:66-74 | The neighbour relation is symmetric and no tile is its own neighbour. |
| BoardGraph.OffsetsDistinct | app/models/game_board.rb:6-8 | NEIGHBOR_RELATIVE_COORDINATES lists no offset twice. |
| BoardGraph.NeighborsUpToDistinct | app/models/game_board.rb:66-74 | No tile is added twice to one neighbour list. |
| BoardGraph.NeighborCount | app/models/game_board.rb:62-80 | A corner tile has 3 neighbours, an edge tile 5 and an interior tile 8. |
| WordSearch.Reverse | spec/models/game_board_spec.rb:18 | Reversal puts element k at position n-1-k. |
| WordSearch.TraverseSound | app/models/game_board.rb:87-97 | A successful `traverse` yields a self-avoiding path of adjacent tiles. The path spells the word, starts at the current tile and avoids the visited tiles. |
| WordSearch.TraverseComplete | app/models/game_board.rb:87-97 | Every such path is found from its first tile. Recursing into a neighbour after the last letter always succeeds, because every tile has a neighbour. |
| WordSearch.TraverseFindsPathsFrom | app/models/game_board.rb:87-97 | `traverse` from a tile succeeds iff a path starting there avoids the visited tiles. |
| WordSearch.CheckWordSpec | app/models/game_board.rb:26-32 | Some start tile succeeds iff the word can be formed on the board. |
| WordSearch.EmptyWordFound | app/models/game_board.rb:88 | The empty word is found on every board. |
| WordSearch.ReversePath | spec/models/game_board_spec.rb:15-49 | A path read backwards spells the reversed word. |
| WordSearch.FindableReversal | spec/models/game_board_spec.rb:15-49 | A word can be formed iff its reverse can. |
| WordSearch.Uniq | app/models/game_board.rb:106 | `uniq` keeps exactly the elements of its input, each once. |
| WordSearch.AllLetterPairs | app/models/game_board.rb:101-107 | The board's letter pairs contain no duplicates. |
| WordSearch.PairsFromMembers | app/models/game_board.rb:101-107 | The pairs from tile i on are the letter pairs of adjacent tiles, the first of them at index i or later. |
| WordSearch.AllLetterPairsSpec | app/models/game_board.rb:101-107 | A pair is a board letter pair iff two adjacent tiles carry its two letters. |
| WordSearch.FindableWordPairsOnBoard | app/models/game_board.rb:35-42 | Every consecutive letter pair of a findable word is a board letter pair. |
| WordSearch.ConcretePath | spec/models/game_board_spec.rb:15-49 | A given tile sequence with the path properties makes the word and its reverse findable. |
| WordSearch.ExampleRowFound | spec/models/game_board_spec.rb:15-19 | ABCDE along a row is found forwards and reversed. |
| WordSearch.ExampleColumnFound | spec/models/game_board_spec.rb:21-25 | AFKPU along a column is found forwards and reversed. |
| WordSearch.ExampleDiagonalFound | spec/models/game_board_spec.rb:33-37 | AGMSA along a diagonal is found forwards and reversed. |
| WordSearch.ExampleBentDiagonalFound | spec/models/game_board_spec.rb:39-43 | AGMIE along two diagonals is found forwards and reversed. |
| WordSearch.OnlyTileOneCarriesB | spec/models/game_board_spec.rb:6-11 | Only tile 1 of the example board carries B. |
| WordSearch.TileReuseRejected | spec/models/game_board_spec.rb:51-55 | All pairs of ABCHB pass the pair prefilter, yet neither it nor its reverse can be formed: it needs the one B tile twice. |
| Tiles.GameTile.constructor | app/models/game_tile.rb:7-12 | A new tile carries the letter, and the value and vowel flag from the table. Its neighbour list is empty. |
| Tiles.GameTile.AddNeighbor | app/models/game_tile.rb:29-31 | Appends exactly the given neighbour and changes nothing else. |
| GameBoards.Findables | app/models/game_board.rb:39-41 | The selected words are exactly the given words that can be formed. |
| GameBoards.FindableIsCovered | app/models/game_board.rb:35-42 | A findable word passes the candidate filter for the board's letter pairs. |
| GameBoards.CoveredByConsecutivePairs | spec/models/word_spec.rb:86-100 | A word whose consecutive pairs are all offered is covered. |
| GameBoards.PrefilterKeepsFindable | app/models/game_board.rb:37-42 | Prefiltering by the board's letter pairs keeps exactly the same findable words. |
| GameBoards.FindablesAppend | app/models/game_board.rb:39-41 | Selecting over a concatenation selects over each part. |
| GameBoards.FindablesKeepsDistinct | app/models/game_board.rb:39-41 | Selection keeps the word values distinct. |
| GameBoards.FindableUsesBoardLetters | app/models/game_board.rb:87-97 | Every character of a findable word is a letter of the board. |
| GameBoards.FindablesPrefix | app/models/game_board.rb:39-41 | Selecting over one more word appends it iff it can be formed. |
| GameBoards.GameBoard.constructor | app/models/game_board.rb:15-19 | The board holds 25 distinct fresh tiles. Tile i carries letter i and has the neighbour list of i, and the rows group the tiles by five. |
| GameBoards.GameBoard.PrepareTiles | app/models/game_board.rb:49-57 | One fresh tile per letter, in order, grouped into rows of five, each with no neighbours. |
| GameBoards.GameBoard.ConnectTiles | app/models/game_board.rb:62-80 | Every tile ends with exactly the neighbour list its offsets give. |
| GameBoards.GameBoard.ConnectTile | app/models/game_board.rb:66-75 | One tile's neighbours, added in offset order. |
| GameBoards.GameBoard.CheckWord | app/models/game_board.rb:26-32 | `check_word` answers true iff the word can be formed on the board. |
| GameBoards.GameBoard.FindWords | app/models/game_board.rb:37-42 | Exactly the active dictionary words that can be formed, in dictionary order. Deleted words never appear. |
| GameBoards.GameBoard.SelectFindable | app/models/game_board.rb:39-41 | The loop selects exactly the candidates that can be formed. |
| Text.UpcaseChar | app/models/word.rb:5 | Upper-casing leaves no ASCII lower case, keeps capitals, and keeps whitespace and spaces where they were. |
| Text.Upcase | app/models/word.rb:5 | Per character upper-casing; the length is preserved. |
| Text.UpcaseAt | app/models/word.rb:5 | Each character of the result is its original character upper-cased. |
| Text.UpcaseKeepsShape | app/models/word.rb:5 | The result has no ASCII lower case; whitespace and spaces stay exactly where they were. |
| Text.UpcaseIdempotent | app/models/word.rb:5 | Upper-casing twice equals upper-casing once. |
| Text.UpcaseAppend | app/models/game.rb:16 | Upper-casing a joined string joins the two upper-cased parts. |
| Text.TrimLeading | app/models/word.rb:5 | The result is a suffix, all that is cut is whitespace, and it does not start with whitespace. |
| Text.TrimTrailing | app/models/word.rb:5 | The result is a prefix, all that is cut is whitespace, and it does not end with whitespace. |
| Text.Strip | app/models/word.rb:5 | `strip` keeps an infix, and cuts only whitespace on either side. The result neither starts nor ends with whitespace. |
| Text.StripIdempotent | app/models/word.rb:5 | Stripping twice equals stripping once. |
| Text.RemoveSpaces | app/models/game.rb:16 | `gsub(" ", "")` leaves no space and keeps every other character with its multiplicity. Without spaces, nothing changes. |
| Text.RemoveSpacesChar | app/models/game.rb:16 | One character is dropped iff it is a space. |
| Text.RemoveSpacesAppend | app/models/game.rb:16 | Removing spaces from a joined string joins the two results, so the kept characters stay in order. With RemoveSpacesChar this fixes the result on every string. |
| Text.LexLeTotal | app/models/guess.rb:11 | Any two strings are ordered one way or the other. |
| Text.LexLeTransitive | app/models/guess.rb:11 | The string order is transitive. |
| Words.NormalizeValue | app/models/word.rb:5 | The normalised value is no longer than the input, has no lower case and no surrounding whitespace. |
| Words.StripKeepsTrimmed | app/models/word.rb:5 | `strip` leaves a trimmed string unchanged. |
| Words.NormalizeValueIdempotent | app/models/word.rb:5 | Normalising twice equals normalising once. |
| Words.NormalizeValueExample | spec/models/word_spec.rb:11-14 | "  word  " is stored as "WORD". |
| Words.StripExample | spec/models/word_spec.rb:11-14 | `strip` turns "  word  " into "word". |
| Words.NormalizedWordIsValid | spec/models/word_spec.rb:6-8 | A normalised word passes the validations. |
| Words.ShortWordIsInvalid | app/models/word.rb:7 | A value shorter than 4 characters is invalid. |
| Words.DuplicateWordIsInvalid | spec/models/word_spec.rb:21 | Uniqueness ignores case. |
| Words.LetterPairs | spec/models/word_spec.rb:43-47 | A word has one pair fewer than it has letters. |
| Words.LetterPairsExample | spec/models/word_spec.rb:43-47 | TEST has the pairs TE, ES, ST. |
| Words.Active | app/models/word.rb:9 | Exactly the words without deleted_at, in order. |
| Words.Deleted | app/models/word.rb:10 | Exactly the words with deleted_at, in order. |
| Words.ActiveDeletedPartition | spec/models/word_spec.rb:62-84 | The `active` and `deleted` scopes partition the words. |
| Words.CandidateWords | spec/models/word_spec.rb:86-100 | Exactly the words all of whose letter pairs are offered. |
| Words.CoveredWordIsCandidate | spec/models/word_spec.rb:87-90 | TEST is a candidate when TE, ES and ST are offered. |
| Words.PartlyCoveredWordIsNoCandidate | spec/models/word_spec.rb:97-100 | TEST is no candidate when ST is missing. |
| Words.DistinctValuesSnoc | app/models/word.rb:7 | Appending a value unlike every earlier one keeps the values distinct. |
| Words.ActiveKeepsDistinct | app/models/word.rb:9 | The active scope keeps values distinct. |
| Words.ValueTaken | app/models/word.rb:7 | Answers whether some stored word has the value, ignoring case. |
| Words.Validate | app/models/word.rb:7 | `valid?` answers true iff the value is present, at least 4 long and unlike every stored value. |
| Words.StoredSnoc | app/models/word.rb:7 | Storing a validated word under the next id keeps the table well formed. |
| Words.Dictionary.constructor | db/schema.rb:72-80 | The words table starts empty and well formed. |
| Words.Dictionary.Create | app/models/word.rb:5-7 | The word is stored normalised and active iff it is valid against the stored words; otherwise nothing changes. |
| Words.Dictionary.Insert | app/models/word.rb:7 | A validated word stored under the next id is appended, and the table stays well formed. |
| Words.Dictionary.Delete | spec/models/word_spec.rb:115-127 | `delete!` sets deleted_at to now only when it is nil. Every other word and field is unchanged. |
| Words.Dictionary.Restore | spec/models/word_spec.rb:130-135 | `restore!` clears deleted_at and changes nothing else. |
| Games.TargetAsWritten | app/models/game.rb:22-49 | The workflow as declared. It never reaches failed, and agrees with the tested table on every other event. |
| Games.TransitionsMoveForward | spec/models/game_spec.rb:116-259 | Every transition moves strictly forward; nothing returns to building. |
| Games.FinalStatesAcceptNothing | spec/models/game_spec.rb:229-259 | Failed, ended and canceled games accept no event. |
| Games.EventDeterminesTarget | spec/models/game_spec.rb:116-259 | Each event always leads to the same state. |
| Games.Fire | app/models/game.rb:22-54 | An undeclared event raises NoTransitionAllowed and changes nothing. Otherwise the game takes the table's state, and only the state and the time stamps change. |
| Games.FireKeepsStamps | app/models/game.rb:50-53 | `on_transition` keeps the time stamps in agreement with the state. |
| Games.FireStamps | spec/models/game_spec.rb:172-226 | Starting stamps started_at. Ending or canceling a started game stamps ended_at. Canceling a ready game leaves ended_at unset. |
| Games.NormalizeLetters | app/models/game.rb:16 | Normalised letters contain no space, no lower case, and are no longer than the input. |
| Games.NormalizeLettersChar | app/models/game.rb:16 | A single space normalises to nothing; any other character to itself upper-cased. |
| Games.NormalizeLettersAppend | app/models/game.rb:16 | Normalising a joined string joins the normalised parts, so letters keep their order. With NormalizeLettersChar this fixes the result on every string. |
| Games.NormalizeLettersExample | spec/models/game_spec.rb:65-67 | "e f g h i j k l m n o p q r s t u v w x y z æ ø å" normalises to "EFGHIJKLMNOPQRSTUVWXYZÆØÅ". |
| Games.NormalizeLettersIdempotent | app/models/game.rb:16 | Normalising twice equals normalising once. |
| Games.GenerateSalt | app/models/game.rb:74-76 | After `generate_salt` a salt is set. An existing salt is kept, and a missing one becomes the new one. |
| Games.SaltNeverOverwritten | spec/models/game_spec.rb:11-19 | A second call never replaces the salt. |
| Games.RandomizeLetters | app/models/game.rb:59-64 | Fails unless building. Otherwise it sets the drawn letters, which pass validation. |
| Games.GameStore.constructor | db/migrate/20250613131003_ensure_only_single_started_game.rb:3 | The games table starts empty and well formed. |
| Games.GameStore.Create | app/models/game.rb:16-20 | The letters given are normalised before validation and stored normalised. A game whose normalised form is invalid is refused (RecordInvalid), and so is a second started game (RecordNotUnique). Otherwise the game is stored with a salt under a new id. |
| Games.GameStore.Current | spec/models/game_spec.rb:262-275 | Answers the started game, or none when no game is started. |
| Games.EndStarted | spec/models/game_spec.rb:178-182 | Ending the started games keeps every game of the table. |
| Games.EndStartedKeepsValid | spec/models/game_spec.rb:178-182 | After ending the started games none is started, and each keeps its salt, letters and word bounds. |
| Games.EndingKeepsOneStarted | db/migrate/20250613131003_ensure_only_single_started_game.rb:3 | Storing a game keeps at most one game started when the game is not started or no other game is. |
| Games.GameStore.FireEvent | spec/models/game_spec.rb:178-182 | A missing id or an undeclared event changes nothing. Otherwise the game fires; starting it ends the previously started game, and every other game is unchanged. At most one game stays started. |
| Games.GameStore.Destroy | spec/models/game_spec.rb:293-325 | Deletes the game and answers true iff it is destroyable; otherwise nothing changes. |
| GameWords.Score | app/models/game_word.rb:33 | There is a score iff every character of the value has a letter score. |
| GameWords.ScoreAppend | app/models/game_word.rb:33 | The score of a concatenation is the sum of the scores. |
| GameWords.ScoreBounds | app/models/game_word.rb:33 | With letter scores between lo and hi, the score lies between lo and hi times the length. |
| GameWords.ScoreExample | spec/models/game_word_spec.rb:49-54 | TEST with T:1, E:2, S:3 scores 7. |
| GameWords.GameWordTable.constructor | db/schema.rb:18-34 | The game_words table starts empty and well formed. |
| GameWords.GameWordTable.Create | app/models/game_word.rb:9-34 | Stores a row iff game and word are given, the value is present, every letter has a score, and the value is new in the game (ignoring case). The row copies the word's value and holds digest(salt + value), the length and the score. On failure nothing changes. |
| GameWords.GameWordTable.CountFor | app/models/game_word.rb:5 | A game has no more words than the table has rows. |
| GameWords.RowsOf | app/models/game_word.rb:5 | Exactly the rows of the game, in order. |
| GameWords.RowsOfAppend | app/models/game_word.rb:5 | A new row adds to its own game's rows only. |
| BuildGameJobs.OutcomeEvent | app/jobs/build_game_job.rb:28-34 | Ready iff min_words <= count <= max_words (both bounds inclusive); failed otherwise. |
| BuildGameJobs.OutcomeExamples | spec/jobs/build_game_job_spec.rb:22-43 | With bounds 2 and 3, three and two words give ready, one and four give failed. |
| BuildGameJobs.FailedMissingAsWritten | app/jobs/build_game_job.rb:32 | With the workflow as declared, an out-of-bounds count leads nowhere. With the tested workflow it leads to failed. |
| BuildGameJobs.CreatedForSnoc | app/jobs/build_game_job.rb:23-25 | One more created row extends the created rows by one word. |
| BuildGameJobs.CreateSucceeds | app/models/game_word.rb:9-11 | Each found word of a fresh game can be stored: its value is present, scored, and new in the game. |
| BuildGameJobs.CompletedIntro | app/jobs/build_game_job.rb:4-14 | Rows for all found words and the outcome transition make the build complete. |
| BuildGameJobs.Perform | app/jobs/build_game_job.rb:4-14 | Not found: raises, and nothing changes. Not building: no-op. Building: one row per active findable word, in order; then ready or failed by the bounds, so a second run is a no-op. |
| BuildGameJobs.Build | app/jobs/build_game_job.rb:9-13 | Builds a building game completely, unless a create fails. A create cannot fail on a fresh game with a full score snapshot. |
| BuildGameJobs.FindGameWords | app/jobs/build_game_job.rb:18-20 | Exactly the active dictionary words findable on the board, with distinct, present values. |
| BuildGameJobs.UpdateGameState | app/jobs/build_game_job.rb:28-34 | The game fires the outcome event for its word count and ends ready or failed. |
| BuildGameJobs.CreateGameWord | app/jobs/build_game_job.rb:24 | One `create!` appends the row for the next found word. It cannot fail for a present, scored value new in the game. |
| BuildGameJobs.CreateGameWords | app/jobs/build_game_job.rb:22-26 | One row per found word, in order, each with the word's value and score. Success is certain on a fresh game with a full score snapshot. |
| Guesses.GuessesBy | app/controllers/guesses_controller.rb:51 | Exactly one player's guesses. |
| Guesses.GuessesByAppend | app/controllers/guesses_controller.rb:51 | A new guess adds to its own player's guesses only. |
| Guesses.GameWordOf | app/models/guess.rb:13 | The game word with the guess's id, when there is one. |
| Guesses.MatchingWord | app/controllers/guesses_controller.rb:43-45 | A game word of the game equal to the guess ignoring case, or none iff there is no such word. |
| Guesses.MatchingWordUnique | db/schema.rb:21-27 | Values are unique per game, so the matching game word is the only one. |
| Guesses.MatchingWordIgnoresCase | db/schema.rb:21 | A guess matches whatever case it is typed in. |
| Guesses.Judge | app/controllers/guesses_controller.rb:77-84 | No match: "incorrect", nothing stored. A match already guessed: "duplicate", nothing stored. Otherwise: "correct" with the word and score, and exactly one guess of this player stored. |
| Guesses.JudgeTwice | app/controllers/guesses_controller.rb:77-84 | Submitting the same word again never scores twice: a correct answer becomes a duplicate and nothing more is stored. |
| Guesses.JudgeLeavesOthers | app/controllers/guesses_controller.rb:51 | Other players' guesses are untouched. |
| Guesses.JudgeKeepsUnique | app/models/guess.rb:9 | At most one guess per player and game word is kept. |
| Guesses.PlayExample | spec/features/play_spec.rb:26-32 | ABCD is incorrect. ABCDE is correct for 10, then a duplicate. |
| Guesses.MessageWordAsWritten | app/controllers/guesses_controller.rb:77-84 | As written, the incorrect message names no word, and the other messages name the game word. |
| Guesses.IncorrectMessageAsWritten | app/controllers/guesses_controller.rb:83 | A guess of ABCD that reaches the controller on a game whose only word is ABCDE gets, as written, a message naming no word, while the intended message names ABCD. |
| Guesses.SortedPairwise | app/models/guess.rb:11 | Sorted adjacent pairs give sorted pairs everywhere. |
| Guesses.LexLeReflexive | app/models/guess.rb:11 | Every value is ordered before itself. |
| Guesses.Insert | app/models/guess.rb:11 | Insertion keeps the order and adds exactly the one element. |
| Guesses.Alphabetical | app/models/guess.rb:11 | `alphabetical` is sorted by value and a permutation of the guesses. |
| Guesses.AlphabeticalExample | spec/models/guess_spec.rb:48-59 | APPLE, PEAR, BANANA are listed as APPLE, BANANA, PEAR. |
| Guesses.SortedPrefixExample | spec/models/guess_spec.rb:48-59 | APPLE, PEAR stay in order. |
| Guesses.InsertExample | spec/models/guess_spec.rb:48-59 | BANANA goes between APPLE and PEAR. |
| Guesses.GuessedWords | app/controllers/guesses_controller.rb:57-59 | Only game words of the game the player has guessed. |
| Guesses.GuessedWordsComplete | app/controllers/guesses_controller.rb:57-59 | Every game word of the game the player has guessed is listed. |
| Guesses.GuessTable.constructor | db/migrate/20250718114945_create_guess.rb:3-10 | The guesses table starts empty and well formed. |
| Guesses.GuessTable.FindOrCreate | app/models/guess.rb:8-9 | Without a game word nothing is stored. An existing guess of the pair is found. Otherwise exactly one new guess is stored; the pair stays unique. |
| Guesses.SubmitGuess | app/controllers/guesses_controller.rb:5-59 | No started game or a blank guess is an error that stores nothing. Otherwise the answer and the new table follow Judge for the started game, with the player's guesses listed alphabetically. |
| TileSelection.IsAdjacentIsBoardAdjacency | app/javascript/controllers/game_board_controller.js:99-107 | The browser's `#isAdjacent` is the board's adjacency. |
| TileSelection.IndexOf | app/javascript/controllers/game_board_controller.js:72 | `findIndex` gives the first position of the tile. |
| TileSelection.Spelled | app/javascript/controllers/game_board_controller.js:136 | The value has the letters of the selected tiles, in selection order. |
| TileSelection.ToggledKeepsValid | app/javascript/controllers/game_board_controller.js:25-37 | A click keeps the selection distinct and chained by adjacency. |
| TileSelection.SelectionIsFindable | app/javascript/controllers/game_board_controller.js:136-137 | A selection spells a word `check_word` accepts, along exactly the selected tiles. |
| TileSelection.PathCanBeClicked | app/javascript/controllers/game_board_controller.js:59-68 | Clicking any path's tiles in order selects exactly that path. |
| TileSelection.ClickingTwiceUndoes | app/javascript/controllers/game_board_controller.js:71-84 | Clicking a just-selected tile again restores the previous selection. |
| TileSelection.DisabledState | app/javascript/controllers/game_board_controller.js:112-132 | Selected tiles are enabled. With no selection the attribute is removed. Otherwise a tile is disabled iff it cannot be selected. |
| TileSelection.DisabledTilesAreInert | app/javascript/controllers/game_board_controller.js:112-132 | A click changes the selection iff the tile is not shown disabled. |
| TileSelection.GameBoardController.constructor | app/javascript/controllers/game_board_controller.js:8-10 | Nothing is selected at first. |
| TileSelection.GameBoardController.Value | app/javascript/controllers/game_board_controller.js:136-137 | The dispatched value is always a word that can be formed on the board. |
| TileSelection.GameBoardController.SelectTile | app/javascript/controllers/game_board_controller.js:59-68 | Appends the tile iff the selection is empty or the tile is adjacent to the last one; otherwise nothing changes. |
| TileSelection.GameBoardController.DeselectTileAndSubsequent | app/javascript/controllers/game_board_controller.js:71-84 | Truncates the selection before the tile; an unselected tile changes nothing. |
| TileSelection.GameBoardController.ToggleTile | app/javascript/controllers/game_board_controller.js:25-37 | Deselects a selected tile and its successors, otherwise selects the tile when allowed. The value dispatched is the selection's spelling. |
| TileSelection.GameBoardController.ResetAllTiles | app/javascript/controllers/game_board_controller.js:41-52 | Leaves nothing selected and dispatches the empty value. |
| TileSelection.GameBoardController.Disabled | app/javascript/controllers/game_board_controller.js:112-132 | A tile is shown disabled iff clicking it would change nothing. |

## Left out

- Cryptography is not modelled. The SHA-256 digest of `hashed_value` is an uninterpreted function parameter, and `SecureRandom.hex(16)` is an input string.
- `WeightedRandomizer` and `config/letters.yml` are not part of this model. The letter table is a parameter and the drawn letters are an input, so the tests' "A is a vowel, B is not" and "C is worth 5" examples are not restated.
- `Time.current` is an input `now`.
- Transactions, database races and the storage-level unique indexes are not modelled. Each operation is one atomic method, and each unique index is a class invariant.
- Tiles.GameTile.constructor: requires the letter to be a key of the letter table; with an unknown letter, `Game::LETTERS[letter][:value]` raises NoMethodError.
- Tile neighbours are stored as tile indices rather than object references.
- Games: the `game_words` association and its `counter_cache` are modelled by counting rows.
- Games: the cascade of `dependent: :destroy` from a game word to its guesses, and the database `on_delete: :cascade`, are not modelled.
- Games: the default values of min_words and max_words, and the randomisation and letter-score snapshot taken when a game is initialised, appear only in the tests and factories. Scores are an input map.
- Words: the letters-only format validation appears only in the tests, not in `app/models/word.rb`, so it is not modelled.
- Words: ids of the words table are a counter; the ransack attributes are not modelled.
- Text.Upcase: upper-cases ASCII and the Danish æ, ø, å only, not all of Unicode; citext comparison is modelled by this upper-casing.
- Text.LexLe: orders by code point, not by the database collation.
- BuildGameJobs.Perform: when a game word fails to save (a value already in the game, or a letter without a score), the job raises. The rows created before the failure are kept, since no transaction wraps them. The model states that this cannot happen on a fresh game whose score snapshot covers the letter table.
- GameBoards: the examples of spec/models/game_board_spec.rb:27-31 and 45-49 (ABCDEJOTA and the snaking AFKGCIOSWVU) are not restated; they are instances of the same path lemma.
- Guesses: the i18n feedback messages, Turbo stream rendering and redirects are not modelled; the message is reduced to the word it names.
- TileSelection: `aria-disabled` is modelled as a function of the selection, not as stored DOM state. Event dispatch is the returned value.
- The hash check of `game_controller.js` and the guess list scrolling of `guesses_controller.js` are not part of this model.

## Findings

| source | as written | input that shows it | evidently intended | confidence | as-written member | corrected member |
|---|---|---|---|---|---|---|
| app/models/game.rb:22-49, app/jobs/build_game_job.rb:32 | The workflow declares no failed state or `failed` event, yet the job calls `@game.failed!` when the word count is out of bounds. | A building game whose board yields no words, with bounds 1 to 10: the job raises and the game stays building. | Building goes to failed via `failed`, as spec/models/game_spec.rb:133-136 and spec/jobs/build_game_job_spec.rb:27-43 expect. | medium, not executed | Games.TargetAsWritten, BuildGameJobs.FailedMissingAsWritten | Games.Fire, BuildGameJobs.UpdateGameState |
| app/controllers/guesses_controller.rb:83 | The incorrect message interpolates `@guess_value`, which nothing assigns, so it names no word. | A POST of guess=ABCD to a game whose only word is ABCDE, sent directly or from the form with JavaScript off: the message names no word. In the browser, app/javascript/controllers/game_controller.js:53-57 answers an unknown word itself, so the request is never sent. | The message names the submitted word: the `word:` argument at guesses_controller.rb:83 is there for it, and the browser's own message at app/javascript/controllers/game_controller.js:56 interpolates the guess. | high, not executed | Guesses.MessageWordAsWritten, Guesses.IncorrectMessageAsWritten | Guesses.Judge, Guesses.PlayExample |
