/**
 * app/models/guess.rb and app/controllers/guesses_controller.rb: a player
 * submits a word; the controller looks the word up among the game words of
 * the started game, finds or creates the player's guess of it and answers
 * "correct" (a new guess), "duplicate" (guessed before) or "incorrect" (no
 * such game word), together with the player's guesses in alphabetical order.
 */
module Guesses {
  import opened Wrappers
  import opened Text
  import opened Words
  import opened Games
  import opened GameWords

  /** A stored guesses row: one player's correct guess of one game word. */
  datatype Guess = Guess(id: nat, gameWordId: nat, userId: nat)

  /** The player has a guess of the game word (the unique index on
      user_id and game_word_id). */
  predicate Guessed(rows: seq<Guess>, userId: nat, gameWordId: nat)
  {
    exists i | 0 <= i < |rows| :: rows[i].userId == userId && rows[i].gameWordId == gameWordId
  }

  /** No player guessed the same game word twice. */
  predicate UniqueGuesses(rows: seq<Guess>)
  {
    forall i, j | 0 <= i < j < |rows| ::
      rows[i].userId != rows[j].userId || rows[i].gameWordId != rows[j].gameWordId
  }

  /** The guesses of one player, in order. */
  function GuessesBy(rows: seq<Guess>, userId: nat): (r: seq<Guess>)
    ensures forall x :: x in r <==> x in rows && x.userId == userId
  {
    if rows == [] then []
    else
      var last := rows[|rows| - 1];
      assert rows == rows[..|rows| - 1] + [last];
      GuessesBy(rows[..|rows| - 1], userId) + (if last.userId == userId then [last] else [])
  }

  lemma GuessesByAppend(rows: seq<Guess>, g: Guess, userId: nat)
    ensures GuessesBy(rows + [g], userId) == GuessesBy(rows, userId) + (if g.userId == userId then [g] else [])
  {
    assert (rows + [g])[..|rows + [g]| - 1] == rows;
  }

  /** `belongs_to :game_word` with `delegate :value, :score`: the game word a
      guess refers to, looked up by id. */
  function GameWordOf(gameWords: seq<GameWord>, id: nat): (r: Option<GameWord>)
    ensures r.Some? ==> r.value in gameWords && r.value.id == id
    ensures r.None? <==> forall k | 0 <= k < |gameWords| :: gameWords[k].id != id
  {
    if gameWords == [] then None
    else if gameWords[0].id == id then Some(gameWords[0])
    else GameWordOf(gameWords[1..], id)
  }

  /** `@game.game_words.find_by(value:)`: a game word of the game whose value
      equals the guess, compared as citext (without case). */
  function MatchingWord(gameWords: seq<GameWord>, gameId: nat, value: string): (r: Option<GameWord>)
    ensures r.Some? ==> r.value in gameWords && r.value.gameId == gameId && SameValueIgnoringCase(r.value.value, value)
    ensures r.None? <==> forall k | 0 <= k < |gameWords| ::
      !(gameWords[k].gameId == gameId && SameValueIgnoringCase(gameWords[k].value, value))
  {
    if gameWords == [] then None
    else if gameWords[0].gameId == gameId && Upcase(gameWords[0].value) == Upcase(value) then Some(gameWords[0])
    else MatchingWord(gameWords[1..], gameId, value)
  }

  /** Within one game values are unique without case, so the game word a
      guess matches does not depend on which matching row is returned. */
  lemma MatchingWordUnique(gameWords: seq<GameWord>, gameId: nat, value: string, k: nat)
    requires forall i, j | 0 <= i < j < |gameWords| && gameWords[i].gameId == gameWords[j].gameId ::
      !SameValueIgnoringCase(gameWords[i].value, gameWords[j].value)
    requires k < |gameWords| && gameWords[k].gameId == gameId && SameValueIgnoringCase(gameWords[k].value, value)
    ensures MatchingWord(gameWords, gameId, value) == Some(gameWords[k])
  {
    var m := MatchingWord(gameWords, gameId, value).value;
    var i :| 0 <= i < |gameWords| && gameWords[i] == m;
    assert SameValueIgnoringCase(gameWords[i].value, gameWords[k].value);
    if i < k {
    } else if k < i {
    }
  }

  /** Guesses compare by the upper-cased value, so a guess matches whatever
      case it is typed in. */
  lemma MatchingWordIgnoresCase(gameWords: seq<GameWord>, gameId: nat, a: string, b: string)
    requires SameValueIgnoringCase(a, b)
    ensures MatchingWord(gameWords, gameId, a) == MatchingWord(gameWords, gameId, b)
  {
  }

  /** The three answers of `feedback`. */
  datatype Feedback = Correct(word: string, score: int) | Duplicate(word: string) | Incorrect(word: string)

  /** What a submission does to the guesses table, and the answer. */
  datatype Outcome = Outcome(feedback: Feedback, rows: seq<Guess>, nextId: nat)

  /** `find_or_create_guess` followed by `feedback`: no matching game word
      gives "incorrect" and stores nothing (the guess fails its presence
      validation); a game word the player already has gives "duplicate"; any
      other gives "correct" with the word's score and stores a new guess. */
  function Judge(gameWords: seq<GameWord>, rows: seq<Guess>, nextId: nat, userId: nat, gameId: nat, value: string): (o: Outcome)
    ensures o.feedback.Incorrect? <==> MatchingWord(gameWords, gameId, value).None?
    ensures o.feedback.Incorrect? ==> o.feedback.word == value
    ensures o.feedback.Correct? ==>
      (&& o.feedback.word == MatchingWord(gameWords, gameId, value).value.value
       && o.feedback.score == MatchingWord(gameWords, gameId, value).value.score
       && !Guessed(rows, userId, MatchingWord(gameWords, gameId, value).value.id)
       && Guessed(o.rows, userId, MatchingWord(gameWords, gameId, value).value.id))
    ensures o.feedback.Duplicate? ==>
      (&& o.feedback.word == MatchingWord(gameWords, gameId, value).value.value
       && Guessed(rows, userId, MatchingWord(gameWords, gameId, value).value.id))
    ensures rows <= o.rows && |o.rows| == |rows| + (if o.feedback.Correct? then 1 else 0)
    ensures forall k | |rows| <= k < |o.rows| :: o.rows[k].userId == userId && o.rows[k].id == nextId
    ensures o.nextId == nextId + |o.rows| - |rows|
  {
    match MatchingWord(gameWords, gameId, value)
    case None => Outcome(Incorrect(value), rows, nextId)
    case Some(gw) =>
      if Guessed(rows, userId, gw.id) then Outcome(Duplicate(gw.value), rows, nextId)
      else
        var row := Guess(nextId, gw.id, userId);
        assert (rows + [row])[|rows|] == row;
        Outcome(Correct(gw.value, gw.score), rows + [row], nextId + 1)
  }

  /** Submitting the same word again never scores twice: the second answer
      is "duplicate" (or again "incorrect") and nothing more is stored. */
  lemma {:induction false} JudgeTwice(gameWords: seq<GameWord>, rows: seq<Guess>, nextId: nat, userId: nat, gameId: nat, value: string)
    ensures var o1 := Judge(gameWords, rows, nextId, userId, gameId, value);
            var o2 := Judge(gameWords, o1.rows, o1.nextId, userId, gameId, value);
            && o2.rows == o1.rows && o2.nextId == o1.nextId
            && (o1.feedback.Incorrect? <==> o2.feedback.Incorrect?)
            && (o1.feedback.Correct? ==> o2.feedback == Duplicate(o1.feedback.word))
  {
    var o1 := Judge(gameWords, rows, nextId, userId, gameId, value);
    var m := MatchingWord(gameWords, gameId, value);
    if m.Some? {
      assert Guessed(o1.rows, userId, m.value.id);
    }
  }

  /** A submission stores nothing for any other player. */
  lemma {:induction false} JudgeLeavesOthers(gameWords: seq<GameWord>, rows: seq<Guess>, nextId: nat, userId: nat, gameId: nat, value: string, other: nat)
    requires other != userId
    ensures GuessesBy(Judge(gameWords, rows, nextId, userId, gameId, value).rows, other) == GuessesBy(rows, other)
  {
    var o := Judge(gameWords, rows, nextId, userId, gameId, value);
    if o.feedback.Correct? {
      GuessesByAppend(rows, o.rows[|rows|], other);
      assert o.rows == rows + [o.rows[|rows|]];
    }
  }

  /** A submission keeps every player's guesses unique. */
  lemma {:induction false} JudgeKeepsUnique(gameWords: seq<GameWord>, rows: seq<Guess>, nextId: nat, userId: nat, gameId: nat, value: string)
    requires UniqueGuesses(rows)
    ensures UniqueGuesses(Judge(gameWords, rows, nextId, userId, gameId, value).rows)
  {
    var o := Judge(gameWords, rows, nextId, userId, gameId, value);
    if o.feedback.Correct? {
      var id := MatchingWord(gameWords, gameId, value).value.id;
      assert o.rows[|rows|].gameWordId == id;
      forall i | 0 <= i < |rows|
        ensures rows[i].userId != userId || rows[i].gameWordId != id
      {
      }
    }
  }

  /** The play-through of the feature test: on a game whose only word is
      ABCDE scoring 10, ABCD is incorrect, ABCDE is correct for 10 points, and
      the same word again is a duplicate. */
  lemma PlayExample(word: GameWord, userId: nat)
    requires word.value == "ABCDE" && word.score == 10
    ensures Judge([word], [], 0, userId, word.gameId, "ABCD") == Outcome(Incorrect("ABCD"), [], 0)
    ensures var o := Judge([word], [], 0, userId, word.gameId, "ABCDE");
            && o == Outcome(Correct("ABCDE", 10), [Guess(0, word.id, userId)], 1)
            && Judge([word], o.rows, o.nextId, userId, word.gameId, "ABCDE").feedback == Duplicate("ABCDE")
  {
    assert !SameValueIgnoringCase(word.value, "ABCD") by {
      assert |Upcase(word.value)| != |Upcase("ABCD")|;
    }
    assert SameValueIgnoringCase(word.value, "ABCDE");
    JudgeTwice([word], [], 0, userId, word.gameId, "ABCDE");
  }

  /** The word the feedback message names, as the controller is written:
      the "incorrect" message interpolates `@guess_value`, an instance
      variable nothing assigns, so it names no word at all. */
  function MessageWordAsWritten(f: Feedback): (w: string)
    ensures f.Incorrect? ==> w == ""
    ensures !f.Incorrect? ==> w == f.word
  {
    match f
    case Incorrect(_) => ""
    case Correct(word, _) => word
    case Duplicate(word) => word
  }

  /** A guess of ABCD that reaches the controller on a game whose only word
      is ABCDE (a request sent directly, or the form posted without the
      browser controller's check) is answered, as written, with a message
      naming no word; the intended message names ABCD. */
  lemma IncorrectMessageAsWritten(word: GameWord, userId: nat)
    requires word.value == "ABCDE" && word.score == 10
    ensures Judge([word], [], 0, userId, word.gameId, "ABCD").feedback.word == "ABCD"
    ensures MessageWordAsWritten(Judge([word], [], 0, userId, word.gameId, "ABCD").feedback) == ""
  {
    PlayExample(word, userId);
  }

  /** The order of `alphabetical`: by the value of the game word. */
  predicate Sorted(ws: seq<GameWord>)
  {
    forall i | 0 <= i < |ws| - 1 :: LexLe(ws[i].value, ws[i + 1].value)
  }

  /** Adjacent order gives the order of every pair. */
  lemma {:induction false} SortedPairwise(ws: seq<GameWord>, i: nat, j: nat)
    requires Sorted(ws) && i <= j < |ws|
    ensures LexLe(ws[i].value, ws[j].value)
    decreases j - i
  {
    if i == j {
      LexLeReflexive(ws[i].value);
    } else {
      SortedPairwise(ws, i + 1, j);
      LexLeTransitive(ws[i].value, ws[i + 1].value, ws[j].value);
    }
  }

  lemma LexLeReflexive(a: string)
    ensures LexLe(a, a)
  {
  }

  /** `w` placed into the sorted `ws` before the first value it does not follow. */
  function Insert(w: GameWord, ws: seq<GameWord>): (r: seq<GameWord>)
    requires Sorted(ws)
    ensures Sorted(r)
    ensures multiset(r) == multiset(ws) + multiset{w}
    ensures |r| > 0 && (r[0] == w || (|ws| > 0 && r[0] == ws[0]))
  {
    if ws == [] || LexLe(w.value, ws[0].value) then [w] + ws
    else
      LexLeTotal(w.value, ws[0].value);
      var rest := Insert(w, ws[1..]);
      assert ws == [ws[0]] + ws[1..];
      [ws[0]] + rest
  }

  /** `order(game_word: { value: :asc })`: the same game words, ordered by value. */
  function Alphabetical(ws: seq<GameWord>): (r: seq<GameWord>)
    ensures Sorted(r)
    ensures multiset(r) == multiset(ws)
  {
    if ws == [] then []
    else
      assert ws == ws[..|ws| - 1] + [ws[|ws| - 1]];
      Insert(ws[|ws| - 1], Alphabetical(ws[..|ws| - 1]))
  }

  /** The example of the Guess model: APPLE, PEAR and BANANA guessed in that
      order are listed as APPLE, BANANA, PEAR. */
  lemma AlphabeticalExample(apple: GameWord, pear: GameWord, banana: GameWord)
    requires apple.value == "APPLE" && pear.value == "PEAR" && banana.value == "BANANA"
    ensures Alphabetical([apple, pear, banana]) == [apple, banana, pear]
  {
    var ws := [apple, pear, banana];
    assert ws[..2] == [apple, pear];
    SortedPrefixExample(apple, pear);
    InsertExample(apple, pear, banana);
  }

  lemma SortedPrefixExample(apple: GameWord, pear: GameWord)
    requires apple.value == "APPLE" && pear.value == "PEAR"
    ensures Alphabetical([apple, pear]) == [apple, pear]
  {
    assert [apple, pear][..1] == [apple] && [apple][..0] == [];
    assert Alphabetical([apple]) == [apple];
    assert LexLe(apple.value, pear.value);
  }

  lemma InsertExample(apple: GameWord, pear: GameWord, banana: GameWord)
    requires apple.value == "APPLE" && pear.value == "PEAR" && banana.value == "BANANA"
    ensures Sorted([apple, pear]) && Insert(banana, [apple, pear]) == [apple, banana, pear]
  {
    assert LexLe(apple.value, pear.value);
    assert !LexLe(banana.value, apple.value);
    assert [apple, pear][1..] == [pear];
    InsertBeforeExample(banana, pear);
  }

  lemma InsertBeforeExample(banana: GameWord, pear: GameWord)
    requires pear.value == "PEAR" && banana.value == "BANANA"
    ensures Insert(banana, [pear]) == [banana, pear]
  {
    assert LexLe(banana.value, pear.value);
  }

  /** `@game.guesses.where(user:)`: the game words of the game the player
      has guessed, in the order of the guesses. */
  function GuessedWords(rows: seq<Guess>, gameWords: seq<GameWord>, userId: nat, gameId: nat): (r: seq<GameWord>)
    ensures forall x | x in r :: x in gameWords && x.gameId == gameId && Guessed(rows, userId, x.id)
    ensures |r| <= |rows|
  {
    if rows == [] then []
    else
      var last := rows[|rows| - 1];
      var prefix := GuessedWords(rows[..|rows| - 1], gameWords, userId, gameId);
      assert forall x | x in prefix :: Guessed(rows, userId, x.id) by {
        forall x | x in prefix
          ensures Guessed(rows, userId, x.id)
        {
          var i :| 0 <= i < |rows| - 1 && rows[..|rows| - 1][i].userId == userId && rows[..|rows| - 1][i].gameWordId == x.id;
          assert rows[i] == rows[..|rows| - 1][i];
        }
      }
      match GameWordOf(gameWords, last.gameWordId)
      case Some(gw) =>
        if last.userId == userId && gw.gameId == gameId then prefix + [gw] else prefix
      case None => prefix
  }

  /** Every game word of the game the player has guessed is listed, when
      game word ids are distinct. */
  lemma {:induction false} GuessedWordsComplete(rows: seq<Guess>, gameWords: seq<GameWord>, userId: nat, gameId: nat, k: nat)
    requires forall i, j | 0 <= i < j < |gameWords| :: gameWords[i].id != gameWords[j].id
    requires k < |gameWords| && gameWords[k].gameId == gameId && Guessed(rows, userId, gameWords[k].id)
    ensures gameWords[k] in GuessedWords(rows, gameWords, userId, gameId)
  {
    var last := rows[|rows| - 1];
    var init := rows[..|rows| - 1];
    if last.userId == userId && last.gameWordId == gameWords[k].id {
      var gw := GameWordOf(gameWords, last.gameWordId).value;
      var j :| 0 <= j < |gameWords| && gameWords[j] == gw;
      assert gameWords[j].id == gameWords[k].id;
    } else {
      var i :| 0 <= i < |rows| && rows[i].userId == userId && rows[i].gameWordId == gameWords[k].id;
      assert init[i] == rows[i];
      GuessedWordsComplete(init, gameWords, userId, gameId, k);
    }
  }

  /** The guesses table. */
  class GuessTable {
    var rows: seq<Guess>
    var nextId: nat

    /** Ids are below nextId and distinct; no player guessed a game word twice. */
    ghost predicate Valid()
      reads this
    {
      && (forall i | 0 <= i < |rows| :: rows[i].id < nextId)
      && (forall i, j | 0 <= i < j < |rows| :: rows[i].id != rows[j].id)
      && UniqueGuesses(rows)
    }

    constructor()
      ensures Valid() && rows == []
    {
      rows := [];
      nextId := 0;
    }

    /** `Current.user.guesses.find_or_create_by(game_word:)`: the player's
        guess of the game word when there is one, otherwise a new one; without
        a game word the new guess is invalid and nothing is stored. `created`
        is `previously_new_record?`, `r.Some?` is `persisted?`. */
    method FindOrCreate(userId: nat, gameWordId: Option<nat>) returns (r: Option<Guess>, created: bool)
      requires Valid()
      modifies this
      ensures Valid()
      ensures r.Some? <==> gameWordId.Some?
      ensures created <==> gameWordId.Some? && !old(Guessed(rows, userId, gameWordId.value))
      ensures r.Some? ==> r.value.userId == userId && r.value.gameWordId == gameWordId.value && r.value in rows
      ensures created ==> rows == old(rows) + [r.value] && r.value.id == old(nextId) && nextId == old(nextId) + 1
      ensures !created ==> rows == old(rows) && nextId == old(nextId)
    {
      if gameWordId.None? {
        return None, false;
      }
      var id := gameWordId.value;
      if i :| 0 <= i < |rows| && rows[i].userId == userId && rows[i].gameWordId == id {
        return Some(rows[i]), false;
      }
      var g := Guess(nextId, id, userId);
      rows := rows + [g];
      nextId := nextId + 1;
      return Some(g), true;
    }
  }

  /** Why the controller cannot answer: there is no started game, or the
      `guess` parameter is missing or blank (`params.require`). */
  datatype GuessError = NoCurrentGame | ParameterMissing

  /** The rendered answer: the feedback and the player's guesses of the game. */
  datatype Response = Response(feedback: Feedback, guesses: seq<GameWord>)

  /** GuessesController#create with its before_actions: `load_game`,
      `find_game_word`, `find_or_create_guess` and `load_guesses`. */
  method SubmitGuess(store: GameStore, gameWords: GameWordTable, guesses: GuessTable, userId: nat, value: string)
    returns (r: Result<Response, GuessError>)
    requires store.Valid() && gameWords.Valid() && guesses.Valid()
    modifies guesses
    ensures guesses.Valid()
    ensures r.Failure? <==> (forall id | id in store.games :: store.games[id].state != Started) || IsBlank(value)
    ensures r.Failure? ==>
      (&& guesses.rows == old(guesses.rows) && guesses.nextId == old(guesses.nextId)
       && r.error == if forall id | id in store.games :: store.games[id].state != Started then NoCurrentGame else ParameterMissing)
    ensures forall gameId | gameId in store.games && store.games[gameId].state == Started && r.Success? ::
      var o := Judge(gameWords.rows, old(guesses.rows), old(guesses.nextId), userId, gameId, value);
      && r.value.feedback == o.feedback && guesses.rows == o.rows && guesses.nextId == o.nextId
      && r.value.guesses == Alphabetical(GuessedWords(guesses.rows, gameWords.rows, userId, gameId))
  {
    var current := store.Current();
    if current.None? {
      return Failure(NoCurrentGame);
    }
    if IsBlank(value) {
      return Failure(ParameterMissing);
    }
    var gameId := current.value;
    var gameWord := MatchingWord(gameWords.rows, gameId, value);
    var guess, created := guesses.FindOrCreate(userId, if gameWord.Some? then Some(gameWord.value.id) else None);
    var feedback;
    if guess.Some? && created {
      feedback := Correct(gameWord.value.value, gameWord.value.score);
    } else if guess.Some? {
      feedback := Duplicate(gameWord.value.value);
    } else {
      feedback := Incorrect(value);
    }
    var listed := Alphabetical(GuessedWords(guesses.rows, gameWords.rows, userId, gameId));
    r := Success(Response(feedback, listed));
  }
}
