/** The letter table Game::LETTERS, loaded from configuration: per letter its
    point value, whether it is a vowel and its selection weight. */
module Letters {

  datatype LetterInfo = LetterInfo(value: int, vowel: bool, chance: nat)

  type LetterTable = map<char, LetterInfo>

  /** Every character of `s` is a letter of the table. */
  predicate AllLetters(s: string, table: LetterTable)
  {
    forall i | 0 <= i < |s| :: s[i] in table
  }
}
