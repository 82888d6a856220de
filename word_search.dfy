/**
 * The word search of app/models/game_board.rb on the level of tile indices:
 * the backtracking `traverse`, the specification it meets (a self-avoiding
 * path of adjacent tiles spelling the word) and the board's letter pairs
 * used as a prefilter.
 */
module WordSearch {
  import opened BoardGraph

  predicate Distinct<T(==)>(s: seq<T>)
  {
    forall a, b | 0 <= a < b < |s| :: s[a] != s[b]
  }

  function Reverse<T>(s: seq<T>): (r: seq<T>)
    ensures |r| == |s| && forall k | 0 <= k < |s| :: r[k] == s[|s| - 1 - k]
  {
    seq(|s|, k requires 0 <= k < |s| => s[|s| - 1 - k])
  }

  /** `p` is a sequence of pairwise distinct tiles, consecutive ones adjacent,
      whose k-th tile carries the k-th character of `word`. */
  ghost predicate IsPath(letters: seq<char>, word: string, p: seq<nat>)
  {
    && |letters| == TileCount && |p| == |word|
    && (forall k | 0 <= k < |p| :: p[k] < TileCount && letters[p[k]] == word[k])
    && (forall k | 0 <= k < |p| - 1 :: Adjacent(p[k], p[k + 1]))
    && Distinct(p)
  }

  /** The word can be formed on the board. */
  ghost predicate Findable(letters: seq<char>, word: string)
  {
    exists p :: IsPath(letters, word, p)
  }

  /** `traverse(letters, current_tile, visited_tiles)`: the depth-first search.
      It succeeds on an empty remainder, fails on a visited tile or a wrong
      letter, and otherwise asks whether any neighbour continues the word. */
  function Traverse(letters: seq<char>, word: string, cur: nat, visited: seq<nat>): bool
    requires |letters| == TileCount && cur < TileCount
    decreases |word|
  {
    if |word| == 0 then true
    else if cur in visited then false
    else if letters[cur] != word[0] then false
    else exists n | n in NeighborList(cur) :: Traverse(letters, word[1..], n, visited + [cur])
  }

  /** A successful search yields a path starting at the current tile that
      avoids every visited tile. */
  lemma {:induction false} TraverseSound(letters: seq<char>, word: string, cur: nat, visited: seq<nat>)
    returns (p: seq<nat>)
    requires |letters| == TileCount && cur < TileCount && |word| > 0
    requires Traverse(letters, word, cur, visited)
    ensures IsPath(letters, word, p) && p[0] == cur
    ensures forall k | 0 <= k < |p| :: p[k] !in visited
  {
    if |word| == 1 {
      p := [cur];
    } else {
      var n :| n in NeighborList(cur) && Traverse(letters, word[1..], n, visited + [cur]);
      var q := TraverseSound(letters, word[1..], n, visited + [cur]);
      NeighborListIsAdjacency(cur, n);
      p := [cur] + q;
      forall k | 1 <= k < |p| ensures p[k] != cur && p[k] !in visited {
        assert p[k] == q[k - 1];
      }
    }
  }

  /** Every path avoiding the visited tiles is found from its first tile. For
      the last letter the search still needs a neighbour to recurse into with
      an empty remainder; every tile of the 5x5 board has at least three. */
  lemma {:induction false} TraverseComplete(letters: seq<char>, word: string, p: seq<nat>, visited: seq<nat>)
    requires IsPath(letters, word, p) && |p| > 0
    requires forall k | 0 <= k < |p| :: p[k] !in visited
    ensures Traverse(letters, word, p[0], visited)
  {
    if |p| == 1 {
      NeighborCount(p[0]);
      var n := NeighborList(p[0])[0];
      assert Traverse(letters, word[1..], n, visited + [p[0]]);
    } else {
      var q := p[1..];
      assert IsPath(letters, word[1..], q) by {
        forall k | 0 <= k < |q| - 1 ensures Adjacent(q[k], q[k + 1]) {
          assert q[k] == p[k + 1] && q[k + 1] == p[k + 2];
        }
      }
      forall k | 0 <= k < |q| ensures q[k] !in visited + [p[0]] {
        assert q[k] == p[k + 1];
      }
      TraverseComplete(letters, word[1..], q, visited + [p[0]]);
      NeighborListIsAdjacency(p[0], p[1]);
    }
  }

  /** `traverse` from `cur` succeeds exactly when a path spelling the word
      starts at `cur` and avoids the visited tiles. */
  lemma TraverseFindsPathsFrom(letters: seq<char>, word: string, cur: nat, visited: seq<nat>)
    requires |letters| == TileCount && cur < TileCount && |word| > 0
    ensures Traverse(letters, word, cur, visited) <==>
      exists p :: IsPath(letters, word, p) && p[0] == cur && forall k | 0 <= k < |p| :: p[k] !in visited
  {
    if Traverse(letters, word, cur, visited) {
      var p := TraverseSound(letters, word, cur, visited);
    }
    if exists p :: IsPath(letters, word, p) && p[0] == cur && forall k | 0 <= k < |p| :: p[k] !in visited {
      var p :| IsPath(letters, word, p) && p[0] == cur && forall k | 0 <= k < |p| :: p[k] !in visited;
      TraverseComplete(letters, word, p, visited);
    }
  }

  /** `check_word` tries every tile as a start with nothing visited: it
      succeeds iff the word can be formed, the empty word included. */
  lemma CheckWordSpec(letters: seq<char>, word: string)
    requires |letters| == TileCount
    ensures (exists i | 0 <= i < TileCount :: Traverse(letters, word, i, [])) <==> Findable(letters, word)
  {
    if |word| == 0 {
      assert IsPath(letters, word, []);
      assert Traverse(letters, word, 0, []);
    } else {
      if i :| 0 <= i < TileCount && Traverse(letters, word, i, []) {
        var p := TraverseSound(letters, word, i, []);
      }
      if Findable(letters, word) {
        var p :| IsPath(letters, word, p);
        TraverseComplete(letters, word, p, []);
        assert p[0] < TileCount && Traverse(letters, word, p[0], []);
      }
    }
  }

  /** The empty word is found on every board: `traverse` succeeds at once
      on an empty remainder. */
  lemma EmptyWordFound(letters: seq<char>)
    requires |letters| == TileCount
    ensures Traverse(letters, "", 0, []) && Findable(letters, "")
  {
    assert IsPath(letters, "", []);
  }

  /** A path read backwards spells the reversed word. */
  lemma ReversePath(letters: seq<char>, word: string, p: seq<nat>)
    requires IsPath(letters, word, p)
    ensures IsPath(letters, Reverse(word), Reverse(p))
  {
    var r := Reverse(p);
    forall k | 0 <= k < |r| - 1 ensures Adjacent(r[k], r[k + 1]) {
      assert r[k] == p[|p| - 1 - k] && r[k + 1] == p[|p| - 2 - k];
      assert Adjacent(p[|p| - 2 - k], p[|p| - 1 - k]);
    }
    forall a, b | 0 <= a < b < |r| ensures r[a] != r[b] {
      assert r[a] == p[|p| - 1 - a] && r[b] == p[|p| - 1 - b];
    }
  }

  /** A word can be formed iff its reverse can. */
  lemma FindableReversal(letters: seq<char>, word: string)
    ensures Findable(letters, word) <==> Findable(letters, Reverse(word))
  {
    if Findable(letters, word) {
      var p :| IsPath(letters, word, p);
      ReversePath(letters, word, p);
    }
    if Findable(letters, Reverse(word)) {
      var p :| IsPath(letters, Reverse(word), p);
      ReversePath(letters, Reverse(word), p);
      assert Reverse(Reverse(word)) == word;
    }
  }

  // ---------------------------------------------------------------------------
  // all_letter_pairs

  /** The pairs "#{tile.letter}#{neighbor.letter}" of one tile, in neighbour order. */
  function TilePairs(letters: seq<char>, i: nat): seq<string>
    requires |letters| == TileCount && i < TileCount
  {
    seq(|NeighborList(i)|, k requires 0 <= k < |NeighborList(i)| => [letters[i], letters[NeighborList(i)[k]]])
  }

  /** The flattened pairs of tiles i..24. */
  function PairsFrom(letters: seq<char>, i: nat): seq<string>
    requires |letters| == TileCount && i <= TileCount
    decreases TileCount - i
  {
    if i == TileCount then [] else TilePairs(letters, i) + PairsFrom(letters, i + 1)
  }

  /** Array#uniq: the first occurrence of every element, nothing twice. */
  function Uniq<T(==,!new)>(s: seq<T>): (r: seq<T>)
    ensures Distinct(r)
    ensures forall x :: x in r <==> x in s
  {
    if s == [] then []
    else
      var u := Uniq(s[..|s| - 1]);
      assert s == s[..|s| - 1] + [s[|s| - 1]];
      if s[|s| - 1] in u then u else u + [s[|s| - 1]]
  }

  /** `all_letter_pairs`: every (tile letter, neighbour letter) pair once. */
  function AllLetterPairs(letters: seq<char>): (r: seq<string>)
    requires |letters| == TileCount
    ensures Distinct(r)
  {
    Uniq(PairsFrom(letters, 0))
  }

  /** Tiles `a` and `b` are adjacent and carry the two letters of `pair`. */
  predicate IsLetterPair(letters: seq<char>, pair: string, a: int, b: int)
    requires |letters| == TileCount
  {
    Adjacent(a, b) && pair == [letters[a], letters[b]]
  }

  lemma {:induction false} PairsFromMembers(letters: seq<char>, i: nat, pair: string)
    requires |letters| == TileCount && i <= TileCount
    ensures pair in PairsFrom(letters, i) <==>
      exists a, b :: i <= a && IsLetterPair(letters, pair, a, b)
    decreases TileCount - i
  {
    if i < TileCount {
      PairsFromMembers(letters, i + 1, pair);
      if pair in TilePairs(letters, i) {
        var k :| 0 <= k < |NeighborList(i)| && pair == TilePairs(letters, i)[k];
        NeighborListIsAdjacency(i, NeighborList(i)[k]);
        assert IsLetterPair(letters, pair, i, NeighborList(i)[k]);
      }
      if exists b :: IsLetterPair(letters, pair, i, b) {
        var b :| IsLetterPair(letters, pair, i, b);
        NeighborListIsAdjacency(i, b);
        var k :| 0 <= k < |NeighborList(i)| && NeighborList(i)[k] == b;
        assert TilePairs(letters, i)[k] == pair;
      }
    }
  }

  /** The board's letter pairs are exactly the letter pairs of adjacent tiles,
      each listed once (game_board.rb:101-107). */
  lemma AllLetterPairsSpec(letters: seq<char>, pair: string)
    requires |letters| == TileCount
    ensures pair in AllLetterPairs(letters) <==> exists a, b :: IsLetterPair(letters, pair, a, b)
  {
    PairsFromMembers(letters, 0, pair);
    assert pair in AllLetterPairs(letters) <==> pair in PairsFrom(letters, 0);
  }

  /** Every consecutive pair of letters of a word that can be formed is a
      letter pair of the board: the prefilter never drops a findable word. */
  lemma FindableWordPairsOnBoard(letters: seq<char>, word: string, k: nat)
    requires |letters| == TileCount && Findable(letters, word) && k + 1 < |word|
    ensures [word[k], word[k + 1]] in AllLetterPairs(letters)
  {
    var p :| IsPath(letters, word, p);
    assert IsLetterPair(letters, [word[k], word[k + 1]], p[k], p[k + 1]);
    AllLetterPairsSpec(letters, [word[k], word[k + 1]]);
  }

  // ---------------------------------------------------------------------------
  // The board of spec/models/game_board_spec.rb:6-11

  const ExampleBoard: string := "ABCDEFGHIJKLMNOPQRSTUVWXA"

  /** A concrete path, checked part by part. */
  lemma ConcretePath(letters: seq<char>, word: string, p: seq<nat>)
    requires |letters| == TileCount && |p| == |word|
    requires forall k | 0 <= k < |p| :: p[k] < TileCount && letters[p[k]] == word[k]
    requires forall k | 0 <= k < |p| - 1 :: Adjacent(p[k], p[k + 1])
    requires Distinct(p)
    ensures Findable(letters, word) && Findable(letters, Reverse(word))
  {
    assert IsPath(letters, word, p);
    FindableReversal(letters, word);
  }

  /** "ABCDE", along a single row, is found forwards and reversed. */
  lemma ExampleRowFound()
    ensures Findable(ExampleBoard, "ABCDE") && Findable(ExampleBoard, Reverse("ABCDE"))
  {
    assert Adjacent(0, 1) && Adjacent(1, 2) && Adjacent(2, 3) && Adjacent(3, 4);
    ConcretePath(ExampleBoard, "ABCDE", [0, 1, 2, 3, 4]);
  }

  /** "AFKPU", along a single column, is found forwards and reversed. */
  lemma ExampleColumnFound()
    ensures Findable(ExampleBoard, "AFKPU") && Findable(ExampleBoard, Reverse("AFKPU"))
  {
    assert Adjacent(0, 5) && Adjacent(5, 10) && Adjacent(10, 15) && Adjacent(15, 20);
    ConcretePath(ExampleBoard, "AFKPU", [0, 5, 10, 15, 20]);
  }

  /** "AGMSA", along a diagonal, is found forwards and reversed. */
  lemma ExampleDiagonalFound()
    ensures Findable(ExampleBoard, "AGMSA") && Findable(ExampleBoard, Reverse("AGMSA"))
  {
    assert Adjacent(0, 6) && Adjacent(6, 12) && Adjacent(12, 18) && Adjacent(18, 24);
    ConcretePath(ExampleBoard, "AGMSA", [0, 6, 12, 18, 24]);
  }

  /** "AGMIE", along two connected diagonals, is found forwards and reversed. */
  lemma ExampleBentDiagonalFound()
    ensures Findable(ExampleBoard, "AGMIE") && Findable(ExampleBoard, Reverse("AGMIE"))
  {
    assert Adjacent(0, 6) && Adjacent(6, 12) && Adjacent(12, 8) && Adjacent(8, 4);
    ConcretePath(ExampleBoard, "AGMIE", [0, 6, 12, 8, 4]);
  }

  lemma OnlyTileOneCarriesB(i: nat)
    requires i < TileCount && ExampleBoard[i] == 'B'
    ensures i == 1
  {
  }

  /** "ABCHB" passes the letter pair prefilter, but its only placement uses
      the single B tile twice, so neither it nor its reverse can be formed. */
  lemma TileReuseRejected()
    ensures forall k | 0 <= k < 4 :: ["ABCHB"[k], "ABCHB"[k + 1]] in AllLetterPairs(ExampleBoard)
    ensures !Findable(ExampleBoard, "ABCHB") && !Findable(ExampleBoard, Reverse("ABCHB"))
  {
    forall k | 0 <= k < 4 ensures ["ABCHB"[k], "ABCHB"[k + 1]] in AllLetterPairs(ExampleBoard) {
      var p := [0, 1, 2, 7, 1];
      assert Adjacent(p[k], p[k + 1]);
      assert ["ABCHB"[k], "ABCHB"[k + 1]] == [ExampleBoard[p[k]], ExampleBoard[p[k + 1]]];
      assert IsLetterPair(ExampleBoard, ["ABCHB"[k], "ABCHB"[k + 1]], p[k], p[k + 1]);
      AllLetterPairsSpec(ExampleBoard, ["ABCHB"[k], "ABCHB"[k + 1]]);
    }
    if Findable(ExampleBoard, "ABCHB") {
      var p :| IsPath(ExampleBoard, "ABCHB", p);
      OnlyTileOneCarriesB(p[1]);
      OnlyTileOneCarriesB(p[4]);
      assert false;
    }
    FindableReversal(ExampleBoard, "ABCHB");
  }
}
