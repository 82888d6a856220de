/**
 * app/models/game.rb: a game's letters, salt, word bounds and its workflow
 * (building, ready, failed, started, ended, canceled), with the time
 * stamps set on transition; and the games table, which holds at most one
 * started game.
 */
module Games {
  import opened Wrappers
  import opened Clock
  import opened Text
  import opened Letters
  import opened BoardGraph

  datatype State = Building | Ready | Failed | Started | Ended | Canceled

  /** The workflow events `ready!`, `failed!`, `start!`, `end!`, `cancel!`. */
  datatype Event = MarkReady | MarkFailed | Start | End | Cancel

  /** The workflow table: the state `ev` leads to from `s`, or None when
      the event is not declared in `s` (Workflow::NoTransitionAllowed). */
  function Target(s: State, ev: Event): Option<State>
  {
    match (s, ev)
    case (Building, MarkReady) => Some(Ready)
    case (Building, MarkFailed) => Some(Failed)
    case (Ready, Start) => Some(Started)
    case (Ready, Cancel) => Some(Canceled)
    case (Started, End) => Some(Ended)
    case (Started, Cancel) => Some(Canceled)
    case _ => None
  }

  /** The workflow exactly as game.rb declares it: building knows only
      `ready`, and there is neither a failed state nor a `failed!` event. */
  function TargetAsWritten(s: State, ev: Event): (r: Option<State>)
    ensures r.Some? ==> r.value != Failed
    ensures ev != MarkFailed ==> r == Target(s, ev)
  {
    match (s, ev)
    case (Building, MarkReady) => Some(Ready)
    case (Ready, Start) => Some(Started)
    case (Ready, Cancel) => Some(Canceled)
    case (Started, End) => Some(Ended)
    case (Started, Cancel) => Some(Canceled)
    case _ => None
  }

  /** How far along the lifecycle a state is. */
  function Stage(s: State): nat
  {
    match s
    case Building => 0
    case Ready => 1
    case Failed => 1
    case Started => 2
    case Ended => 3
    case Canceled => 3
  }

  predicate IsFinal(s: State)
  {
    s == Failed || s == Ended || s == Canceled
  }

  /** Every transition moves strictly forward, so no state is ever re-entered
      and nothing leads back to building. */
  lemma TransitionsMoveForward(s: State, ev: Event)
    requires Target(s, ev).Some?
    ensures Stage(Target(s, ev).value) > Stage(s)
    ensures Target(s, ev).value != Building
  {
  }

  /** Failed, ended and canceled games accept no event. */
  lemma FinalStatesAcceptNothing(s: State, ev: Event)
    requires IsFinal(s)
    ensures Target(s, ev).None?
  {
  }

  /** Each event has one target, whichever state it fires from. */
  lemma EventDeterminesTarget(s1: State, s2: State, ev: Event)
    requires Target(s1, ev).Some? && Target(s2, ev).Some?
    ensures Target(s1, ev) == Target(s2, ev)
  {
  }

  datatype Game = Game(
    state: State,
    letters: string,
    salt: Option<string>,
    letterScores: map<char, int>,
    minWords: Option<int>,
    maxWords: Option<int>,
    startedAt: Option<Time>,
    endedAt: Option<Time>)

  datatype GameError = NoTransitionAllowed | NotBuilding | RecordInvalid | RecordNotUnique | RecordNotFound

  /** Firing an event: the new state from the table, then `on_transition`
      stamps started_at on entering started, and ended_at on entering ended
      or canceled from started. */
  function Fire(g: Game, ev: Event, now: Time): (r: Result<Game, GameError>)
    ensures r.Failure? <==> Target(g.state, ev).None?
    ensures r.Failure? ==> r.error == NoTransitionAllowed
    ensures r.Success? ==> r.value.state == Target(g.state, ev).value
    ensures r.Success? ==> r.value.(state := g.state, startedAt := g.startedAt, endedAt := g.endedAt) == g
  {
    match Target(g.state, ev)
    case None => Failure(NoTransitionAllowed)
    case Some(next) =>
      var startedAt := if next == Started then Some(now) else g.startedAt;
      var endedAt := if (next == Ended || next == Canceled) && g.state == Started then Some(now) else g.endedAt;
      Success(g.(state := next, startedAt := startedAt, endedAt := endedAt))
  }

  /** The time stamps a game in each state carries: none before it starts,
      started_at from the start on, ended_at once a started game ends or is
      canceled, and a game canceled before it started has no time stamp. */
  predicate StampsAgree(g: Game)
  {
    match g.state
    case Building | Ready | Failed => g.startedAt.None? && g.endedAt.None?
    case Started => g.startedAt.Some? && g.endedAt.None?
    case Ended => g.startedAt.Some? && g.endedAt.Some?
    case Canceled => g.startedAt.Some? <==> g.endedAt.Some?
  }

  /** `on_transition` keeps the time stamps in agreement with the state. */
  lemma FireKeepsStamps(g: Game, ev: Event, now: Time)
    requires StampsAgree(g) && Fire(g, ev, now).Success?
    ensures StampsAgree(Fire(g, ev, now).value)
  {
  }

  /** Starting stamps the start time; ending or canceling a started game
      stamps the end time; canceling a ready game leaves ended_at unset. */
  lemma FireStamps(g: Game, now: Time)
    requires StampsAgree(g)
    ensures g.state == Ready ==> Fire(g, Start, now).value.startedAt == Some(now)
    ensures g.state == Started ==> Fire(g, End, now).value.endedAt == Some(now)
    ensures g.state == Started ==> Fire(g, Cancel, now).value.endedAt == Some(now)
    ensures g.state == Ready ==> Fire(g, Cancel, now).value.endedAt.None?
  {
  }

  /** `normalizes :letters`: spaces removed, then upper-cased. */
  function NormalizeLetters(s: string): (r: string)
    ensures ' ' !in r
    ensures forall i | 0 <= i < |r| :: !('a' <= r[i] <= 'z')
    ensures |r| <= |s|
  {
    var t := RemoveSpaces(s);
    var r := Upcase(t);
    UpcaseKeepsShape(t);
    assert forall i | 0 <= i < |r| :: r[i] != ' ' by {
      forall i | 0 <= i < |r| ensures r[i] != ' ' {
        assert t[i] in t;
      }
    }
    r
  }

  /** One character: a space is dropped, anything else upper-cased. */
  lemma NormalizeLettersChar(c: char)
    ensures NormalizeLetters([c]) == if c == ' ' then [] else [UpcaseChar(c)]
  {
  }

  /** The normaliser works piece by piece, so the letters keep their order;
      with NormalizeLettersChar this fixes its result on every string. */
  lemma NormalizeLettersAppend(a: string, b: string)
    ensures NormalizeLetters(a + b) == NormalizeLetters(a) + NormalizeLetters(b)
  {
    RemoveSpacesAppend(a, b);
    UpcaseAppend(RemoveSpaces(a), RemoveSpaces(b));
  }

  /** A letter followed by a space: the letter is upper-cased, the space dropped. */
  lemma NormalizeLettersPair(c: char, rest: string)
    requires c != ' '
    ensures NormalizeLetters([c, ' '] + rest) == [UpcaseChar(c)] + NormalizeLetters(rest)
  {
    calc {
      NormalizeLetters([c, ' '] + rest);
    == { assert [c, ' '] + rest == [c] + ([' '] + rest); }
      NormalizeLetters([c] + ([' '] + rest));
    == { NormalizeLettersAppend([c], [' '] + rest); NormalizeLettersChar(c); }
      [UpcaseChar(c)] + NormalizeLetters([' '] + rest);
    == { NormalizeLettersAppend([' '], rest); NormalizeLettersChar(' '); }
      [UpcaseChar(c)] + NormalizeLetters(rest);
    }
  }

  /** Five letters written with spaces between them, and optionally one
      after them, normalise to the five letters upper-cased. */
  lemma NormalizeLettersFive(a: char, b: char, c: char, d: char, e: char, tail: string, s: string, u: string)
    requires a != ' ' && b != ' ' && c != ' ' && d != ' ' && e != ' '
    requires tail == [] || tail == [' ']
    requires s == [a, ' ', b, ' ', c, ' ', d, ' ', e] + tail
    requires u == [UpcaseChar(a), UpcaseChar(b), UpcaseChar(c), UpcaseChar(d), UpcaseChar(e)]
    ensures NormalizeLetters(s) == u
  {
    var s5 := [e] + tail;
    var s4 := [d, ' '] + s5;
    var s3 := [c, ' '] + s4;
    var s2 := [b, ' '] + s3;
    calc {
      NormalizeLetters(s);
    == { assert s == [a, ' '] + s2; NormalizeLettersPair(a, s2); }
      [UpcaseChar(a)] + NormalizeLetters(s2);
    == { NormalizeLettersPair(b, s3); }
      [UpcaseChar(a)] + ([UpcaseChar(b)] + NormalizeLetters(s3));
    == { NormalizeLettersPair(c, s4); }
      [UpcaseChar(a)] + ([UpcaseChar(b)] + ([UpcaseChar(c)] + NormalizeLetters(s4)));
    == { NormalizeLettersPair(d, s5); }
      [UpcaseChar(a)] + ([UpcaseChar(b)] + ([UpcaseChar(c)] + ([UpcaseChar(d)] + NormalizeLetters(s5))));
    == { NormalizeLettersAppend([e], tail); NormalizeLettersChar(e); NormalizeLettersChar(' '); }
      [UpcaseChar(a)] + ([UpcaseChar(b)] + ([UpcaseChar(c)] + ([UpcaseChar(d)] + [UpcaseChar(e)])));
    }
  }

  /** Normalising pieces one by one and joining the results is normalising
      the joined pieces. */
  lemma NormalizeLettersJoin(c1: string, c2: string, c3: string, c4: string, c5: string,
                             u1: string, u2: string, u3: string, u4: string, u5: string)
    requires NormalizeLetters(c1) == u1 && NormalizeLetters(c2) == u2 && NormalizeLetters(c3) == u3
    requires NormalizeLetters(c4) == u4 && NormalizeLetters(c5) == u5
    ensures NormalizeLetters(c1 + c2 + c3 + c4 + c5) == u1 + u2 + u3 + u4 + u5
  {
    NormalizeLettersAppend(c1, c2);
    NormalizeLettersAppend(c1 + c2, c3);
    NormalizeLettersAppend(c1 + c2 + c3, c4);
    NormalizeLettersAppend(c1 + c2 + c3 + c4, c5);
  }

  /** The letters of the normalisation example: the spaced lower-case
      alphabet with æ, ø and å becomes the upper-case alphabet. */
  lemma NormalizeLettersExample(s: string, u: string)
    requires s == "e f g h i j k l m n o p q r s t u v w x y z æ ø å"
    requires u == "EFGHIJKLMNOPQRSTUVWXYZÆØÅ"
    ensures NormalizeLetters(s) == u
  {
    var c1, c2, c3, c4, c5 := LowerInChunks(s);
    var u1, u2, u3, u4, u5 := UpperInChunks(u);
    ExampleChunk1(c1, u1);
    ExampleChunk2(c2, u2);
    ExampleChunk3(c3, u3);
    ExampleChunk4(c4, u4);
    ExampleChunk5(c5, u5);
    NormalizeLettersJoin(c1, c2, c3, c4, c5, u1, u2, u3, u4, u5);
  }

  lemma ExampleChunk1(c: string, u: string)
    requires c == "e f g h i " && u == "EFGHI"
    ensures NormalizeLetters(c) == u
  {
    NormalizeLettersFive('e', 'f', 'g', 'h', 'i', " ", c, u);
  }

  lemma ExampleChunk2(c: string, u: string)
    requires c == "j k l m n " && u == "JKLMN"
    ensures NormalizeLetters(c) == u
  {
    NormalizeLettersFive('j', 'k', 'l', 'm', 'n', " ", c, u);
  }

  lemma ExampleChunk3(c: string, u: string)
    requires c == "o p q r s " && u == "OPQRS"
    ensures NormalizeLetters(c) == u
  {
    NormalizeLettersFive('o', 'p', 'q', 'r', 's', " ", c, u);
  }

  lemma ExampleChunk4(c: string, u: string)
    requires c == "t u v w x " && u == "TUVWX"
    ensures NormalizeLetters(c) == u
  {
    NormalizeLettersFive('t', 'u', 'v', 'w', 'x', " ", c, u);
  }

  lemma ExampleChunk5(c: string, u: string)
    requires c == "y z æ ø å" && u == "YZÆØÅ"
    ensures NormalizeLetters(c) == u
  {
    NormalizeLettersFive('y', 'z', 'æ', 'ø', 'å', "", c, u);
  }

  /** The example's letters cut into five pieces; each piece is cut off the
      end of a literal whose front is the literal before it. */
  lemma LowerInChunks(s: string) returns (c1: string, c2: string, c3: string, c4: string, c5: string)
    requires s == "e f g h i j k l m n o p q r s t u v w x y z æ ø å"
    ensures c1 == "e f g h i " && c2 == "j k l m n " && c3 == "o p q r s " && c4 == "t u v w x " && c5 == "y z æ ø å"
    ensures s == c1 + c2 + c3 + c4 + c5
  {
    c1, c2, c3, c4, c5 := "e f g h i ", "j k l m n ", "o p q r s ", "t u v w x ", "y z æ ø å";
    assert s == "e f g h i j k l m n o p q r s t u v w x " + c5;
    assert "e f g h i j k l m n o p q r s t u v w x " == "e f g h i j k l m n o p q r s " + c4;
    assert "e f g h i j k l m n o p q r s " == "e f g h i j k l m n " + c3;
    assert "e f g h i j k l m n " == c1 + c2;
  }

  lemma UpperInChunks(s: string) returns (c1: string, c2: string, c3: string, c4: string, c5: string)
    requires s == "EFGHIJKLMNOPQRSTUVWXYZÆØÅ"
    ensures c1 == "EFGHI" && c2 == "JKLMN" && c3 == "OPQRS" && c4 == "TUVWX" && c5 == "YZÆØÅ"
    ensures s == c1 + c2 + c3 + c4 + c5
  {
    c1, c2, c3, c4, c5 := "EFGHI", "JKLMN", "OPQRS", "TUVWX", "YZÆØÅ";
    assert s == "EFGHIJKLMNOPQRSTUVWX" + c5;
    assert "EFGHIJKLMNOPQRSTUVWX" == "EFGHIJKLMNOPQRS" + c4;
    assert "EFGHIJKLMNOPQRS" == "EFGHIJKLMN" + c3;
    assert "EFGHIJKLMN" == c1 + c2;
  }

  lemma NormalizeLettersIdempotent(s: string)
    ensures NormalizeLetters(NormalizeLetters(s)) == NormalizeLetters(s)
  {
    var r := NormalizeLetters(s);
    assert RemoveSpaces(r) == r;
    UpcaseIdempotent(RemoveSpaces(s));
  }

  /** `validates :letters`: present, exactly GRID_SIZE_SQUARED characters,
      each a letter of the table. */
  predicate LettersValid(letters: string, table: LetterTable)
  {
    !IsBlank(letters) && |letters| == TileCount && AllLetters(letters, table)
  }

  /** A game can be saved: valid letters and both word bounds set and at least 1. */
  predicate GameValid(g: Game, table: LetterTable)
  {
    && LettersValid(g.letters, table)
    && g.minWords.Some? && g.minWords.value >= 1
    && g.maxWords.Some? && g.maxWords.value >= 1
  }

  /** `generate_salt`: `salt ||= fresh`. */
  function GenerateSalt(g: Game, newSalt: string): (r: Game)
    ensures r.salt.Some?
    ensures g.salt.Some? ==> r == g
    ensures g.salt.None? ==> r == g.(salt := Some(newSalt))
  {
    if g.salt.Some? then g else g.(salt := Some(newSalt))
  }

  /** A salt once generated is never replaced by a later call. */
  lemma SaltNeverOverwritten(g: Game, first: string, second: string)
    ensures GenerateSalt(GenerateSalt(g, first), second) == GenerateSalt(g, first)
  {
  }

  /** The letters of the table are stored as they are written: no
      whitespace, already upper case. */
  predicate TableNormalized(table: LetterTable)
  {
    forall c | c in table :: !IsWhitespace(c) && !IsSpace(c) && UpcaseChar(c) == c
  }

  /** `randomize_letters`: only a building game; `drawn` stands for the
      25 weighted samples from the table, assigned through the normaliser. */
  function RandomizeLetters(g: Game, drawn: string, table: LetterTable): (r: Result<Game, GameError>)
    requires |drawn| == TileCount && AllLetters(drawn, table) && TableNormalized(table)
    ensures r.Failure? <==> g.state != Building
    ensures r.Failure? ==> r.error == NotBuilding
    ensures r.Success? ==> r.value == g.(letters := drawn) && LettersValid(r.value.letters, table)
  {
    if g.state != Building then Failure(NotBuilding)
    else
      assert ' ' !in drawn by {
        forall i | 0 <= i < |drawn| ensures drawn[i] != ' ' {
          assert drawn[i] in table;
        }
      }
      assert Upcase(drawn) == drawn by {
        UpcaseAt(drawn);
        forall i | 0 <= i < |drawn| ensures UpcaseChar(drawn[i]) == drawn[i] {
          assert drawn[i] in table;
        }
      }
      assert !IsSpace(drawn[0]) by {
        assert drawn[0] in table && UpcaseChar(drawn[0]) == drawn[0];
      }
      Success(g.(letters := NormalizeLetters(drawn)))
  }

  /** The game's letter-score snapshot scores every letter of the table. */
  predicate ScoresCover(g: Game, table: LetterTable)
  {
    forall c | c in table :: c in g.letterScores
  }

  /** `destroyable?`: only ready and failed games may be deleted. */
  predicate Destroyable(g: Game)
  {
    g.state == Ready || g.state == Failed
  }

  /** No two distinct ids hold a started game (the partial unique index on
      workflow_state = 'started'). */
  ghost predicate AtMostOneStarted(games: map<nat, Game>)
  {
    forall a, b | a in games && b in games && games[a].state == Started && games[b].state == Started :: a == b
  }

  /** Every started game of the table ended at `now`; the others unchanged. */
  function EndStarted(games: map<nat, Game>, now: Time): (m: map<nat, Game>)
    ensures m.Keys == games.Keys
  {
    map k | k in games :: if games[k].state == Started then Fire(games[k], End, now).value else games[k]
  }

  /** Ending the started games leaves none started and keeps every game's
      salt, letters and word bounds. */
  lemma EndStartedKeepsValid(games: map<nat, Game>, table: LetterTable, now: Time)
    requires forall k | k in games :: games[k].salt.Some? && GameValid(games[k], table)
    ensures forall k | k in EndStarted(games, now) :: EndStarted(games, now)[k].state != Started
    ensures forall k | k in EndStarted(games, now) :: EndStarted(games, now)[k].salt.Some? && GameValid(EndStarted(games, now)[k], table)
  {
    var m := EndStarted(games, now);
    forall k | k in m
      ensures m[k].state != Started && m[k].salt.Some? && GameValid(m[k], table)
    {
      assert games[k].state == Started ==> m[k] == Fire(games[k], End, now).value;
    }
  }

  /** Putting a game into a table with at most one started game keeps at
      most one started when either the game is not started or no other is. */
  lemma EndingKeepsOneStarted(games: map<nat, Game>, id: nat, g: Game)
    requires AtMostOneStarted(games)
    requires g.state == Started ==> forall k | k in games :: games[k].state != Started
    ensures AtMostOneStarted(games[id := g])
  {
  }

  /** The games table. */
  class GameStore {
    const table: LetterTable
    var games: map<nat, Game>
    var nextId: nat

    ghost predicate Valid()
      reads this
    {
      && (forall id | id in games :: id < nextId)
      && (forall id | id in games :: games[id].salt.Some? && GameValid(games[id], table))
      && AtMostOneStarted(games)
    }

    constructor(table: LetterTable)
      ensures Valid() && this.table == table && games == map[]
    {
      this.table := table;
      games := map[];
      nextId := 0;
    }

    /** `Game.create!`: the letters given are normalised on assignment, the
        new record gets a salt (after_initialize), must be valid, and may not
        be a second started game. */
    method Create(g: Game, freshSalt: string) returns (r: Result<nat, GameError>)
      requires Valid()
      modifies this
      ensures Valid()
      ensures r.Failure? ==> games == old(games) && nextId == old(nextId)
      ensures r.Failure? <==>
        || !GameValid(g.(letters := NormalizeLetters(g.letters)), table)
        || (g.state == Started && exists id | id in old(games) :: old(games)[id].state == Started)
      ensures r.Failure? ==>
        r.error == (if !GameValid(g.(letters := NormalizeLetters(g.letters)), table) then RecordInvalid else RecordNotUnique)
      ensures r.Success? ==>
        (&& r.value == old(nextId) && r.value !in old(games)
         && games == old(games)[r.value := GenerateSalt(g.(letters := NormalizeLetters(g.letters)), freshSalt)]
         && games[r.value].letters == NormalizeLetters(g.letters))
    {
      var saved := GenerateSalt(g.(letters := NormalizeLetters(g.letters)), freshSalt);
      if !GameValid(saved, table) {
        return Failure(RecordInvalid);
      }
      if saved.state == Started && exists id | id in games :: games[id].state == Started {
        return Failure(RecordNotUnique);
      }
      r := Success(nextId);
      games := games[nextId := saved];
      nextId := nextId + 1;
    }

    /** `Game.current`: the started game, if there is one. */
    method Current() returns (r: Option<nat>)
      requires Valid()
      ensures r.Some? ==> r.value in games && games[r.value].state == Started
      ensures r.None? ==> forall id | id in games :: games[id].state != Started
    {
      if id :| id in games && games[id].state == Started {
        return Some(id);
      }
      return None;
    }

    /** Firing an event on the game `id`. Starting a game ends the game that
        was started before it. */
    method FireEvent(id: nat, ev: Event, now: Time) returns (r: Result<(), GameError>)
      requires Valid()
      modifies this
      ensures Valid()
      ensures nextId == old(nextId) && games.Keys == old(games).Keys
      ensures r.Failure? ==> games == old(games)
      ensures r.Failure? <==> id !in old(games) || Fire(old(games)[id], ev, now).Failure?
      ensures r.Failure? ==> r.error == if id !in old(games) then RecordNotFound else NoTransitionAllowed
      ensures r.Success? ==> games[id] == Fire(old(games)[id], ev, now).value
      ensures r.Success? ==> forall k | k in old(games) && k != id ::
        games[k] == (if games[id].state == Started && old(games)[k].state == Started
                     then Fire(old(games)[k], End, now).value else old(games)[k])
    {
      if id !in games {
        return Failure(RecordNotFound);
      }
      var fired := Fire(games[id], ev, now);
      if fired.Failure? {
        return Failure(NoTransitionAllowed);
      }
      var next := fired.value;
      assert next.salt.Some? && GameValid(next, table);
      var others := games;
      if next.state == Started {
        others := EndStarted(games, now);
        EndStartedKeepsValid(games, table, now);
      }
      EndingKeepsOneStarted(others, id, next);
      games := others[id := next];
      r := Success(());
    }

    /** `destroy`: deletes a ready or failed game and answers true; any other
        game stays and the answer is false. */
    method Destroy(id: nat) returns (ok: bool)
      requires Valid() && id in games
      modifies this
      ensures Valid()
      ensures ok <==> Destroyable(old(games)[id])
      ensures ok ==> games == old(games) - {id}
      ensures !ok ==> games == old(games)
      ensures nextId == old(nextId)
    {
      if Destroyable(games[id]) {
        games := games - {id};
        return true;
      }
      return false;
    }
  }
}
