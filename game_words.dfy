/**
 * app/models/game_word.rb: a dictionary word placed in a game. Before
 * validation it copies the word's value, hashes it with the game's salt,
 * and records its length and its score under the game's letter scores;
 * values are unique within a game.
 */
module GameWords {
  import opened Wrappers
  import opened Text
  import opened Words
  import opened Games

  /** A stored game_words row. */
  datatype GameWord = GameWord(
    id: nat,
    gameId: nat,
    wordId: nat,
    value: string,
    hashedValue: string,
    length: int,
    score: int)

  /** Why `create!` refuses a game word. `ScoreMissing` is the TypeError
      raised when a character of the value has no letter score. */
  datatype GameWordError = MissingGame | MissingWord | MissingValue | ValueTaken | ScoreMissing

  /** `value.chars.sum { |char| game.letter_scores[char] }`, None when some
      character has no score. */
  function Score(value: string, scores: map<char, int>): (r: Option<int>)
    ensures r.Some? <==> forall i | 0 <= i < |value| :: value[i] in scores
  {
    if value == [] then Some(0)
    else if value[0] !in scores then None
    else
      match Score(value[1..], scores)
      case None => None
      case Some(rest) => Some(scores[value[0]] + rest)
  }

  /** The score of a concatenation is the sum of the scores of its parts. */
  lemma {:induction false} ScoreAppend(a: string, b: string, scores: map<char, int>)
    requires Score(a, scores).Some? && Score(b, scores).Some?
    ensures Score(a + b, scores) == Some(Score(a, scores).value + Score(b, scores).value)
  {
    if a != [] {
      assert (a + b)[1..] == a[1..] + b;
      ScoreAppend(a[1..], b, scores);
    } else {
      assert a + b == b;
    }
  }

  /** With every score between `lo` and `hi`, the score lies between
      `lo` and `hi` times the length. */
  lemma {:induction false} ScoreBounds(value: string, scores: map<char, int>, lo: int, hi: int)
    requires Score(value, scores).Some?
    requires forall c | c in scores :: lo <= scores[c] <= hi
    ensures lo * |value| <= Score(value, scores).value <= hi * |value|
  {
    if value != [] {
      ScoreBounds(value[1..], scores, lo, hi);
    }
  }

  lemma ScoreExample()
    ensures Score("TEST", map['T' := 1, 'E' := 2, 'S' := 3]) == Some(7)
  {
    var scores := map['T' := 1, 'E' := 2, 'S' := 3];
    var v := "TEST";
    assert v[1..] == "EST" && v[1..][1..] == "ST" && v[1..][1..][1..] == "T" && v[1..][1..][1..][1..] == [];
  }

  /** The string the digest is taken of: `"#{game.salt}#{value}"`, a missing
      salt interpolating as the empty string. */
  function SaltedValue(salt: Option<string>, value: string): string
  {
    (if salt.Some? then salt.value else "") + value
  }

  /** The game_words table; `digest` stands for SHA-256 in hex. */
  class GameWordTable {
    const digest: string -> string
    var rows: seq<GameWord>
    var nextId: nat

    /** Row ids are below nextId and distinct; within one game no two rows
        share a value, compared as citext (without case). */
    ghost predicate Valid()
      reads this
    {
      && (forall i | 0 <= i < |rows| :: rows[i].id < nextId)
      && (forall i, j | 0 <= i < j < |rows| :: rows[i].id != rows[j].id)
      && (forall i, j | 0 <= i < j < |rows| && rows[i].gameId == rows[j].gameId ::
            !SameValueIgnoringCase(rows[i].value, rows[j].value))
    }

    constructor(digest: string -> string)
      ensures Valid() && rows == [] && this.digest == digest
    {
      this.digest := digest;
      rows := [];
      nextId := 0;
    }

    /** Some row of game `gameId` already has `value`, ignoring case. */
    predicate ValueTakenIn(gameId: nat, value: string)
      reads this
    {
      exists i | 0 <= i < |rows| :: rows[i].gameId == gameId && SameValueIgnoringCase(rows[i].value, value)
    }

    /** `game_words.create!(game:, word:)`: the before_validation callbacks
        fill in value, hash, length and score, then the validations decide. */
    method Create(game: Option<(nat, Game)>, word: Option<(nat, Word)>) returns (r: Result<GameWord, GameWordError>)
      requires Valid()
      modifies this
      ensures Valid()
      ensures r.Failure? ==> rows == old(rows) && nextId == old(nextId)
      ensures r.Success? ==> rows == old(rows) + [r.value]
      ensures r.Success? <==>
        (&& game.Some? && word.Some? && !IsBlank(word.value.1.value)
         && Score(word.value.1.value, game.value.1.letterScores).Some?
         && !old(ValueTakenIn(game.value.0, word.value.1.value)))
      ensures r.Success? ==>
        (&& r.value.id == old(nextId)
         && r.value.gameId == game.value.0 && r.value.wordId == word.value.0
         && r.value.value == word.value.1.value
         && r.value.hashedValue == digest(SaltedValue(game.value.1.salt, word.value.1.value))
         && r.value.length == |word.value.1.value|
         && r.value.score == Score(word.value.1.value, game.value.1.letterScores).value)
    {
      // set_value_and_hashed_value
      if word.None? {
        return Failure(MissingWord);
      }
      if game.None? {
        return Failure(MissingGame);
      }
      var (gameId, g) := game.value;
      var (wordId, w) := word.value;
      var value := w.value;
      var hashedValue := digest(SaltedValue(g.salt, value));
      // calculate_length_and_score
      if IsBlank(value) {
        return Failure(MissingValue);
      }
      var length := |value|;
      var score := Score(value, g.letterScores);
      if score.None? {
        return Failure(ScoreMissing);
      }
      // validates :value, uniqueness: { scope: :game_id }
      var taken := false;
      for i := 0 to |rows|
        invariant taken <==> exists k | 0 <= k < i :: rows[k].gameId == gameId && SameValueIgnoringCase(rows[k].value, value)
      {
        if rows[i].gameId == gameId && Upcase(rows[i].value) == Upcase(value) {
          taken := true;
        }
      }
      if taken {
        return Failure(ValueTaken);
      }
      var row := GameWord(nextId, gameId, wordId, value, hashedValue, length, score.value);
      rows := rows + [row];
      nextId := nextId + 1;
      return Success(row);
    }

    /** `game.game_words.size`: the number of rows of one game. */
    function CountFor(gameId: nat): (n: nat)
      reads this
      ensures n <= |rows|
    {
      |RowsOf(rows, gameId)|
    }
  }

  /** The rows of one game, in order. */
  function RowsOf(rows: seq<GameWord>, gameId: nat): (r: seq<GameWord>)
    ensures forall x :: x in r <==> x in rows && x.gameId == gameId
    ensures |r| <= |rows|
  {
    if rows == [] then []
    else
      var last := rows[|rows| - 1];
      assert rows == rows[..|rows| - 1] + [last];
      RowsOf(rows[..|rows| - 1], gameId) + (if last.gameId == gameId then [last] else [])
  }

  lemma RowsOfAppend(rows: seq<GameWord>, row: GameWord, gameId: nat)
    ensures RowsOf(rows + [row], gameId) == RowsOf(rows, gameId) + (if row.gameId == gameId then [row] else [])
  {
    assert (rows + [row])[..|rows + [row]| - 1] == rows;
  }
}
