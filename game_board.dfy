/**
 * app/models/game_board.rb: the board built for a game, its tiles wired to
 * their neighbours, the word check and the dictionary search.
 */
module GameBoards {
  import opened BoardGraph
  import opened WordSearch
  import opened Letters
  import opened Tiles
  import opened Words

  /** The words among `ws` that can be formed on the board, in order. */
  ghost function Findables(letters: seq<char>, ws: seq<Word>): (r: seq<Word>)
    ensures forall w :: w in r <==> w in ws && Findable(letters, w.value)
  {
    if ws == [] then []
    else
      var last := ws[|ws| - 1];
      assert ws == ws[..|ws| - 1] + [last];
      Findables(letters, ws[..|ws| - 1]) + (if Findable(letters, last.value) then [last] else [])
  }

  /** A word that can be formed has every letter pair on the board. */
  lemma FindableIsCovered(letters: seq<char>, w: Word)
    requires |letters| == TileCount && Findable(letters, w.value)
    ensures Covered(w, AllLetterPairs(letters))
  {
    var v := w.value;
    forall k | 0 <= k < |v| - 1 ensures [v[k], v[k + 1]] in AllLetterPairs(letters) {
      FindableWordPairsOnBoard(letters, v, k);
    }
    CoveredByConsecutivePairs(w, AllLetterPairs(letters));
  }

  lemma CoveredByConsecutivePairs(w: Word, pairs: seq<string>)
    requires forall k | 0 <= k < |w.value| - 1 :: [w.value[k], w.value[k + 1]] in pairs
    ensures Covered(w, pairs)
  {
    var lp := LetterPairs(w.value);
    assert forall k | 0 <= k < |lp| :: lp[k] == [w.value[k], w.value[k + 1]];
  }

  /** The `candidate_words` prefilter of `find_words` loses no word that
      `check_word` would accept. */
  lemma {:induction false} PrefilterKeepsFindable(letters: seq<char>, ws: seq<Word>)
    requires |letters| == TileCount
    ensures Findables(letters, CandidateWords(ws, AllLetterPairs(letters))) == Findables(letters, ws)
  {
    if ws != [] {
      var init, last := ws[..|ws| - 1], ws[|ws| - 1];
      var pairs := AllLetterPairs(letters);
      PrefilterKeepsFindable(letters, init);
      if Findable(letters, last.value) {
        FindableIsCovered(letters, last);
      }
      var kept := if Covered(last, pairs) then [last] else [];
      assert CandidateWords(ws, pairs) == CandidateWords(init, pairs) + kept;
      FindablesAppend(letters, CandidateWords(init, pairs), kept);
    }
  }

  lemma FindablesAppend(letters: seq<char>, xs: seq<Word>, ys: seq<Word>)
    requires |ys| <= 1
    ensures Findables(letters, xs + ys) ==
      Findables(letters, xs) + (if ys != [] && Findable(letters, ys[0].value) then ys else [])
  {
    if ys != [] {
      assert (xs + ys)[..|xs + ys| - 1] == xs;
    } else {
      assert xs + ys == xs;
    }
  }

  /** Filtering keeps the values distinct. */
  lemma {:induction false} FindablesKeepsDistinct(letters: seq<char>, ws: seq<Word>)
    requires DistinctValues(ws)
    ensures DistinctValues(Findables(letters, ws))
  {
    if ws != [] {
      var init, last := ws[..|ws| - 1], ws[|ws| - 1];
      FindablesKeepsDistinct(letters, init);
      if Findable(letters, last.value) {
        forall x | x in Findables(letters, init) ensures !SameValueIgnoringCase(x.value, last.value) {
          var i :| 0 <= i < |init| && init[i] == x;
          assert ws[i] == x;
        }
        DistinctValuesSnoc(Findables(letters, init), last);
      }
    }
  }

  /** Every character of a word that can be formed is a letter of the board. */
  lemma FindableUsesBoardLetters(letters: seq<char>, word: string)
    requires Findable(letters, word)
    ensures forall k | 0 <= k < |word| :: word[k] in letters
  {
    var p :| IsPath(letters, word, p);
    forall k | 0 <= k < |word| ensures word[k] in letters {
      assert letters[p[k]] == word[k];
    }
  }

  /** One more word of the input extends the filtered prefix by at most that word. */
  lemma FindablesPrefix(letters: seq<char>, ws: seq<Word>, i: nat)
    requires i < |ws|
    ensures Findables(letters, ws[..i + 1]) ==
      Findables(letters, ws[..i]) + (if Findable(letters, ws[i].value) then [ws[i]] else [])
  {
    assert ws[..i + 1][..i] == ws[..i];
  }

  class GameBoard {
    const letters: seq<char>
    const table: LetterTable
    var allTiles: seq<GameTile>
    var boardTiles: seq<seq<GameTile>>

    /** The tiles of the board in letter order, one object per position,
        grouped into rows of GridSize, each wired to its grid neighbours. */
    ghost predicate Valid()
      reads this, allTiles
    {
      && |letters| == TileCount && |allTiles| == TileCount
      && (forall a, b | 0 <= a < b < TileCount :: allTiles[a] != allTiles[b])
      && (forall i | 0 <= i < TileCount :: allTiles[i].letter == letters[i])
      && (forall i | 0 <= i < TileCount :: allTiles[i].neighbors == NeighborList(i))
      && Rows()
    }

    /** `in_groups_of(GRID_SIZE)`: row `r` holds tiles 5r .. 5r + 4. */
    ghost predicate Rows()
      reads this
    {
      && |allTiles| == TileCount && |boardTiles| == GridSize
      && forall r | 0 <= r < GridSize :: boardTiles[r] == allTiles[r * GridSize..(r + 1) * GridSize]
    }

    /** `GameBoard.new(game)` on the game's letters. */
    constructor(letters: seq<char>, table: LetterTable)
      requires |letters| == TileCount && AllLetters(letters, table)
      ensures Valid()
      ensures this.letters == letters && this.table == table
      ensures forall i | 0 <= i < TileCount :: fresh(allTiles[i])
    {
      this.letters := letters;
      this.table := table;
      allTiles := [];
      boardTiles := [];
      new;
      PrepareTiles();
      ConnectTiles();
    }

    /** `prepare_tiles`: one new tile per letter, grouped into rows. */
    method PrepareTiles()
      requires |letters| == TileCount && AllLetters(letters, table)
      modifies this
      ensures Rows()
      ensures forall a, b | 0 <= a < b < TileCount :: allTiles[a] != allTiles[b]
      ensures forall i | 0 <= i < TileCount :: fresh(allTiles[i])
      ensures forall i | 0 <= i < TileCount ::
        (&& allTiles[i].letter == letters[i]
         && allTiles[i].value == table[letters[i]].value && allTiles[i].vowel == table[letters[i]].vowel
         && allTiles[i].neighbors == [])
    {
      var tiles: seq<GameTile> := [];
      for i := 0 to |letters|
        invariant |tiles| == i
        invariant forall a, b | 0 <= a < b < i :: tiles[a] != tiles[b]
        invariant forall k | 0 <= k < i :: fresh(tiles[k])
        invariant forall k | 0 <= k < i ::
          (&& tiles[k].letter == letters[k]
           && tiles[k].value == table[letters[k]].value && tiles[k].vowel == table[letters[k]].vowel
           && tiles[k].neighbors == [])
      {
        var tile := new GameTile(letters[i], table);
        tiles := tiles + [tile];
      }
      allTiles := tiles;
      boardTiles := seq(GridSize, r requires 0 <= r < GridSize => tiles[r * GridSize..(r + 1) * GridSize]);
    }

    /** `connect_tiles`: every tile, row by row and column by column, gets
        the in-grid cells at the eight relative coordinates as neighbours. */
    method ConnectTiles()
      requires Rows()
      requires forall a, b | 0 <= a < b < TileCount :: allTiles[a] != allTiles[b]
      requires forall i | 0 <= i < TileCount :: allTiles[i].neighbors == []
      modifies allTiles
      ensures forall i | 0 <= i < TileCount :: allTiles[i].neighbors == NeighborList(i)
    {
      for r := 0 to GridSize
        invariant forall i | 0 <= i < r * GridSize :: allTiles[i].neighbors == NeighborList(i)
        invariant forall i | r * GridSize <= i < TileCount :: allTiles[i].neighbors == []
      {
        var row := boardTiles[r];
        for c := 0 to GridSize
          invariant forall i | 0 <= i < r * GridSize + c :: allTiles[i].neighbors == NeighborList(i)
          invariant forall i | r * GridSize + c <= i < TileCount :: allTiles[i].neighbors == []
        {
          assert row[c] == allTiles[r * GridSize + c];
          ConnectTile(row[c], r, c);
        }
      }
    }

    /** The body of `connect_tiles` for the tile at row `r`, column `c`: the
        eight relative coordinates tried in order, the in-grid ones added. */
    static method ConnectTile(tile: GameTile, r: nat, c: nat)
      requires InGrid(r, c) && tile.neighbors == []
      modifies tile`neighbors
      ensures tile.neighbors == NeighborList(Cell(r, c))
    {
      ghost var here := Cell(r, c);
      for k := 0 to |NeighborOffsets|
        invariant tile.neighbors == NeighborsUpTo(here, k)
      {
        var neighborRow := r + NeighborOffsets[k].0;
        var neighborCol := c + NeighborOffsets[k].1;
        if 0 <= neighborRow < GridSize && 0 <= neighborCol < GridSize {
          tile.AddNeighbor(Cell(neighborRow, neighborCol));
        }
      }
    }

    /** `check_word`: some tile starts a successful search; this holds iff
        the word can be formed on the board. */
    method CheckWord(word: string) returns (found: bool)
      requires Valid()
      ensures found <==> Findable(letters, word)
    {
      CheckWordSpec(letters, word);
      for i := 0 to |allTiles|
        invariant forall j | 0 <= j < i :: !Traverse(letters, word, j, [])
      {
        if Traverse(letters, word, i, []) {
          assert i < TileCount && Traverse(letters, word, i, []);
          return true;
        }
      }
      return false;
    }

    /** `find_words`: the active dictionary words that can be formed on the
        board, in dictionary order; the letter-pair prefilter loses none. */
    method FindWords(dictionary: seq<Word>) returns (found: seq<Word>)
      requires Valid()
      ensures found == Findables(letters, Active(dictionary))
      ensures forall w :: w in found <==> w in dictionary && w.deletedAt.None? && Findable(letters, w.value)
    {
      var candidates := CandidateWords(Active(dictionary), AllLetterPairs(letters));
      found := SelectFindable(candidates);
      PrefilterKeepsFindable(letters, Active(dictionary));
    }

    /** `candidate_words.select { |word| check_word(word.value) }`. */
    method SelectFindable(candidates: seq<Word>) returns (found: seq<Word>)
      requires Valid()
      ensures found == Findables(letters, candidates)
    {
      found := [];
      for i := 0 to |candidates|
        invariant found == Findables(letters, candidates[..i])
      {
        var ok := CheckWord(candidates[i].value);
        FindablesPrefix(letters, candidates, i);
        if ok {
          found := found + [candidates[i]];
        }
      }
      assert candidates[..|candidates|] == candidates;
    }
  }
}
