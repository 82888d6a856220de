/** app/models/game_tile.rb: one tile of a game board. Neighbours are
    recorded by their tile index on the board. */
module Tiles {
  import opened Letters

  class GameTile {
    const letter: char
    const value: int
    const vowel: bool
    var neighbors: seq<nat>

    /** `GameTile.new(letter)`: value and vowel flag looked up in the table. */
    constructor(letter: char, table: LetterTable)
      requires letter in table
      ensures this.letter == letter
      ensures value == table[letter].value && vowel == table[letter].vowel
      ensures neighbors == []
    {
      this.letter := letter;
      value := table[letter].value;
      vowel := table[letter].vowel;
      neighbors := [];
    }

    predicate IsVowel()
    {
      vowel
    }

    predicate IsConsonant()
    {
      !IsVowel()
    }

    /** `add_neighbor`: appends one neighbour; letter, value and vowel flag are
        constants of the tile. */
    method AddNeighbor(neighbor: nat)
      modifies this`neighbors
      ensures neighbors == old(neighbors) + [neighbor]
    {
      neighbors := neighbors + [neighbor];
    }
  }
}
