/**
 * app/models/word.rb: dictionary words, their normaliser and validations,
 * the soft-delete scopes, the ordered letter pairs and the candidate filter.
 */
module Words {
  import opened Wrappers
  import opened Clock
  import opened Text

  /** A dictionary word; `deletedAt` is None while the word is active. */
  datatype Word = Word(id: nat, value: string, deletedAt: Option<Time>)

  /** `normalizes :value`: surrounding whitespace stripped, then upper-cased. */
  function NormalizeValue(s: string): (r: string)
    ensures |r| <= |s|
    ensures forall i | 0 <= i < |r| :: !('a' <= r[i] <= 'z')
    ensures r == [] || (!IsWhitespace(r[0]) && !IsWhitespace(r[|r| - 1]))
  {
    var t := Strip(s);
    UpcaseKeepsTrimmed(t);
    Upcase(t)
  }

  /** Upper-casing a value with no whitespace at either end leaves none there. */
  lemma UpcaseKeepsTrimmed(t: string)
    requires t == [] || (!IsWhitespace(t[0]) && !IsWhitespace(t[|t| - 1]))
    ensures forall i | 0 <= i < |t| :: !('a' <= Upcase(t)[i] <= 'z')
    ensures Upcase(t) == [] || (!IsWhitespace(Upcase(t)[0]) && !IsWhitespace(Upcase(t)[|t| - 1]))
  {
    UpcaseKeepsShape(t);
  }

  lemma StripKeepsTrimmed(t: string)
    requires t == [] || (!IsWhitespace(t[0]) && !IsWhitespace(t[|t| - 1]))
    ensures Strip(t) == t
  {
    assert TrimLeading(t) == t;
    assert TrimTrailing(t) == t;
  }

  /** Normalising a normalised value changes nothing. */
  lemma NormalizeValueIdempotent(s: string)
    ensures NormalizeValue(NormalizeValue(s)) == NormalizeValue(s)
  {
    var n := NormalizeValue(s);
    StripKeepsTrimmed(n);
    UpcaseIdempotent(Strip(s));
    assert NormalizeValue(n) == Upcase(n);
  }

  lemma NormalizeValueExample()
    ensures NormalizeValue("  word  ") == "WORD"
  {
    var w := "word";
    StripExample(w, "  word  ");
    UpcaseExample(w, "WORD");
  }

  lemma UpcaseExample(w: string, u: string)
    requires w == "word" && u == "WORD"
    ensures Upcase(w) == u
  {
    UpcaseAt(w);
    assert UpcaseChar('w') == 'W' && UpcaseChar('o') == 'O' && UpcaseChar('r') == 'R' && UpcaseChar('d') == 'D';
  }

  /** The padding on both sides of "word" is stripped. */
  lemma StripExample(w: string, padded: string)
    requires w == "word" && padded == "  word  "
    ensures Strip(padded) == w
  {
    var t2 := w + [' ', ' '];
    TrimLeadingExample(t2, padded);
    TrimTrailingExample(w, t2);
  }

  lemma TrimLeadingExample(t2: string, padded: string)
    requires t2 == "word  " && padded == "  word  "
    ensures TrimLeading(padded) == t2
  {
    var l1 := [' '] + t2;
    assert !IsWhitespace(t2[0]);
    assert TrimLeading(t2) == t2;
    assert l1[1..] == t2;
    assert TrimLeading(l1) == t2;
    assert padded[1..] == l1;
  }

  lemma TrimTrailingExample(w: string, t2: string)
    requires w == "word" && t2 == "word  "
    ensures TrimTrailing(t2) == w
  {
    var t1 := w + [' '];
    assert !IsWhitespace(w[|w| - 1]);
    assert TrimTrailing(w) == w;
    assert t1[..|t1| - 1] == w;
    assert TrimTrailing(t1) == w;
    assert t2[..|t2| - 1] == t1;
  }

  /** Two values equal as citext (case-insensitive) strings. */
  predicate SameValueIgnoringCase(a: string, b: string)
  {
    Upcase(a) == Upcase(b)
  }

  /** `validates :value, presence: true, uniqueness: true, length: { minimum: 4 }`,
      against the other stored words. */
  predicate IsValid(w: Word, others: seq<Word>)
  {
    && !IsBlank(w.value)
    && |w.value| >= 4
    && forall i | 0 <= i < |others| :: !SameValueIgnoringCase(others[i].value, w.value)
  }

  /** A padded lower-case word is stored normalised and passes validation. */
  lemma NormalizedWordIsValid(deletedAt: Option<Time>)
    ensures IsValid(Word(1, NormalizeValue("  word  "), deletedAt), [])
  {
    NormalizeValueExample();
    var w := "WORD";
    assert !IsSpace(w[0]);
  }

  lemma ShortWordIsInvalid(deletedAt: Option<Time>)
    ensures !IsValid(Word(1, "ABC", deletedAt), [])
  {
  }

  /** Uniqueness ignores case, as the citext column does. */
  lemma DuplicateWordIsInvalid(deletedAt: Option<Time>)
    ensures !IsValid(Word(2, "TEST", deletedAt), [Word(1, "test", None)])
  {
    var lower := "test";
    var upper := "TEST";
    assert Upcase(lower) == upper;
    assert Upcase(upper) == upper;
    var others := [Word(1, lower, None)];
    assert SameValueIgnoringCase(others[0].value, upper);
  }

  /** The ordered list of adjacent letter pairs of a value. */
  function LetterPairs(v: string): (r: seq<string>)
    ensures |r| == if |v| == 0 then 0 else |v| - 1
  {
    seq(if |v| == 0 then 0 else |v| - 1, k requires 0 <= k < |v| - 1 => [v[k], v[k + 1]])
  }

  lemma LetterPairsExample()
    ensures LetterPairs("TEST") == ["TE", "ES", "ST"]
  {
  }

  /** Every letter pair of the word is one of `pairs`. */
  predicate Covered(w: Word, pairs: seq<string>)
  {
    forall q | q in LetterPairs(w.value) :: q in pairs
  }

  /** The `active` scope: words whose deleted_at is nil, in order. */
  function Active(ws: seq<Word>): (r: seq<Word>)
    ensures forall w :: w in r <==> w in ws && w.deletedAt.None?
    ensures |r| <= |ws|
  {
    if ws == [] then []
    else
      var last := ws[|ws| - 1];
      assert ws == ws[..|ws| - 1] + [last];
      Active(ws[..|ws| - 1]) + (if last.deletedAt.None? then [last] else [])
  }

  /** The `deleted` scope: words whose deleted_at is set, in order. */
  function Deleted(ws: seq<Word>): (r: seq<Word>)
    ensures forall w :: w in r <==> w in ws && w.deletedAt.Some?
    ensures |r| <= |ws|
  {
    if ws == [] then []
    else
      var last := ws[|ws| - 1];
      assert ws == ws[..|ws| - 1] + [last];
      Deleted(ws[..|ws| - 1]) + (if last.deletedAt.Some? then [last] else [])
  }

  /** `active` and `deleted` split the words between them, each word going
      to exactly one side. */
  lemma {:induction false} ActiveDeletedPartition(ws: seq<Word>)
    ensures multiset(Active(ws)) + multiset(Deleted(ws)) == multiset(ws)
  {
    if ws != [] {
      var init, last := ws[..|ws| - 1], ws[|ws| - 1];
      assert ws == init + [last];
      ActiveDeletedPartition(init);
      var kept, dropped := if last.deletedAt.None? then [last] else [], if last.deletedAt.Some? then [last] else [];
      SplitSnoc(init, last, Active(init), kept, Deleted(init), dropped);
    }
  }

  /** One step of the partition: the last word goes to exactly one side. */
  lemma SplitSnoc(init: seq<Word>, last: Word, a: seq<Word>, kept: seq<Word>, d: seq<Word>, dropped: seq<Word>)
    requires multiset(a) + multiset(d) == multiset(init)
    requires multiset(kept) + multiset(dropped) == multiset{last}
    ensures multiset(a + kept) + multiset(d + dropped) == multiset(init + [last])
  {
  }

  /** `candidate_words(pairs)`: the words all of whose letter pairs are among
      `pairs`, in order. */
  function CandidateWords(ws: seq<Word>, pairs: seq<string>): (r: seq<Word>)
    ensures forall w :: w in r <==> w in ws && Covered(w, pairs)
    ensures |r| <= |ws|
  {
    if ws == [] then []
    else
      var last := ws[|ws| - 1];
      assert ws == ws[..|ws| - 1] + [last];
      CandidateWords(ws[..|ws| - 1], pairs) + (if Covered(last, pairs) then [last] else [])
  }

  /** A word all of whose pairs are offered is a candidate. */
  lemma CoveredWordIsCandidate()
    ensures CandidateWords([Word(1, "TEST", None)], ["TE", "ES", "ST", "FO", "OO", "BA", "AR"]) == [Word(1, "TEST", None)]
  {
    var w := Word(1, "TEST", None);
    var pairs := ["TE", "ES", "ST", "FO", "OO", "BA", "AR"];
    LetterPairsExample();
    assert Covered(w, pairs) by {
      assert pairs[0] == "TE" && pairs[1] == "ES" && pairs[2] == "ST";
    }
    assert [w][..0] == [];
  }

  /** A word missing one of its pairs is not a candidate. */
  lemma PartlyCoveredWordIsNoCandidate()
    ensures CandidateWords([Word(1, "TEST", None)], ["TE", "ES", "FO", "OO", "BA", "AR"]) == []
  {
    var w := Word(1, "TEST", None);
    var pairs := ["TE", "ES", "FO", "OO", "BA", "AR"];
    LetterPairsExample();
    assert !Covered(w, pairs) by {
      var st := "ST";
      assert st in LetterPairs(w.value);
      assert forall k | 0 <= k < |pairs| :: pairs[k] != st;
    }
    assert [w][..0] == [];
  }

  /** No two words share a value, compared without case. */
  predicate DistinctValues(ws: seq<Word>)
  {
    forall i, j | 0 <= i < j < |ws| :: !SameValueIgnoringCase(ws[i].value, ws[j].value)
  }

  /** Appending a word whose value differs from every earlier one keeps the
      values distinct. */
  lemma DistinctValuesSnoc(ws: seq<Word>, w: Word)
    requires DistinctValues(ws)
    requires forall x | x in ws :: !SameValueIgnoringCase(x.value, w.value)
    ensures DistinctValues(ws + [w])
  {
    var s := ws + [w];
    forall i, j | 0 <= i < j < |s| ensures !SameValueIgnoringCase(s[i].value, s[j].value) {
      if j == |ws| {
        assert s[i] in ws;
      }
    }
  }

  /** The `active` scope keeps the values distinct. */
  lemma {:induction false} ActiveKeepsDistinct(ws: seq<Word>)
    requires DistinctValues(ws)
    ensures DistinctValues(Active(ws))
  {
    if ws != [] {
      var init, last := ws[..|ws| - 1], ws[|ws| - 1];
      ActiveKeepsDistinct(init);
      if last.deletedAt.None? {
        forall x | x in Active(init) ensures !SameValueIgnoringCase(x.value, last.value) {
          var i :| 0 <= i < |init| && init[i] == x;
          assert ws[i] == x;
        }
        DistinctValuesSnoc(Active(init), last);
      }
    }
  }

  datatype WordError = Invalid

  /** The uniqueness lookup: does some stored word have value `v`, without case? */
  method ValueTaken(ws: seq<Word>, v: string) returns (taken: bool)
    ensures taken <==> exists k | 0 <= k < |ws| :: SameValueIgnoringCase(ws[k].value, v)
  {
    taken := false;
    for i := 0 to |ws|
      invariant taken <==> exists k | 0 <= k < i :: SameValueIgnoringCase(ws[k].value, v)
    {
      if SameValueIgnoringCase(ws[i].value, v) {
        taken := true;
      }
    }
  }

  /** What the words table holds: values distinct without case, each one
      present and at least 4 characters long, ids below the next id. */
  predicate Stored(ws: seq<Word>, nextId: nat)
  {
    && DistinctValues(ws)
    && (forall i | 0 <= i < |ws| :: !IsBlank(ws[i].value) && |ws[i].value| >= 4)
    && (forall i | 0 <= i < |ws| :: ws[i].id < nextId)
  }

  /** Storing a word that passed validation under the next id keeps the table well formed. */
  lemma StoredSnoc(ws: seq<Word>, nextId: nat, w: Word)
    requires Stored(ws, nextId) && IsValid(w, ws) && w.id == nextId
    ensures Stored(ws + [w], nextId + 1)
  {
    forall x | x in ws ensures !SameValueIgnoringCase(x.value, w.value) {
      var i :| 0 <= i < |ws| && ws[i] == x;
    }
    DistinctValuesSnoc(ws, w);
    var s := ws + [w];
    forall i | 0 <= i < |s| ensures !IsBlank(s[i].value) && |s[i].value| >= 4 && s[i].id < nextId + 1 {
      if i < |ws| {
        assert s[i] == ws[i];
      }
    }
  }

  /** `valid?`: presence, length, then the uniqueness lookup. */
  method Validate(w: Word, ws: seq<Word>) returns (ok: bool)
    ensures ok <==> IsValid(w, ws)
  {
    if IsBlank(w.value) || |w.value| < 4 {
      return false;
    }
    var taken := ValueTaken(ws, w.value);
    return !taken;
  }

  /** The words table. */
  class Dictionary {
    var words: seq<Word>
    var nextId: nat

    ghost predicate Valid()
      reads this
    {
      Stored(words, nextId)
    }

    constructor()
      ensures Valid() && words == []
    {
      words := [];
      nextId := 0;
    }

    /** `Word.create(value:)`: the value is normalised, then validated
        against the stored words; a valid word is stored active. */
    method Create(value: string) returns (r: Result<Word, WordError>)
      requires Valid()
      modifies this
      ensures Valid()
      ensures r.Success? <==> IsValid(Word(old(nextId), NormalizeValue(value), None), old(words))
      ensures r.Success? ==> r.value == Word(old(nextId), NormalizeValue(value), None) && words == old(words) + [r.value]
      ensures r.Failure? ==> words == old(words) && nextId == old(nextId)
    {
      var w := Word(nextId, NormalizeValue(value), None);
      var ok := Validate(w, words);
      if !ok {
        return Failure(Invalid);
      }
      Insert(w);
      return Success(w);
    }

    /** The INSERT of a validated word under the next id. */
    method Insert(w: Word)
      requires Valid() && IsValid(w, words) && w.id == nextId
      modifies this
      ensures Valid()
      ensures words == old(words) + [w] && nextId == old(nextId) + 1
    {
      StoredSnoc(words, nextId, w);
      words := words + [w];
      nextId := nextId + 1;
    }

    /** `delete!`: sets deleted_at to now unless it is already set. */
    method Delete(i: nat, now: Time)
      requires Valid() && i < |words|
      modifies this
      ensures Valid()
      ensures nextId == old(nextId) && |words| == |old(words)|
      ensures words[i] == old(words[i]).(deletedAt := if old(words[i].deletedAt).None? then Some(now) else old(words[i].deletedAt))
      ensures forall j | 0 <= j < |words| && j != i :: words[j] == old(words[j])
    {
      if words[i].deletedAt.None? {
        words := words[i := words[i].(deletedAt := Some(now))];
      }
    }

    /** `restore!`: sets deleted_at back to nil. */
    method Restore(i: nat)
      requires Valid() && i < |words|
      modifies this
      ensures Valid()
      ensures nextId == old(nextId)
      ensures words == old(words)[i := old(words[i]).(deletedAt := None)]
    {
      words := words[i := words[i].(deletedAt := None)];
    }
  }
}
