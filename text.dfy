/**
 * String helpers shared by the normalisers of Word and Game, the citext
 * comparisons of the database and the ordering of guesses.
 */
module Text {

  /** The characters Ruby's String#strip removes: NUL, tab, line feed,
      vertical tab, form feed, carriage return and space. */
  predicate IsWhitespace(c: char)
  {
    c == ' ' || c == '\t' || c == '\n' || c == '\U{B}' || c == '\U{C}' || c == '\r' || c == '\0'
  }

  /** A string made of strip's whitespace only (the part strip cuts off). */
  predicate AllWhitespace(s: string)
  {
    forall i | 0 <= i < |s| :: IsWhitespace(s[i])
  }

  /** The POSIX class `[[:space:]]` of a Ruby regular expression on a UTF-8
      string: the characters with the Unicode White_Space property. Unlike
      strip's set it holds no NUL and includes the no-break and
      typographic spaces. */
  predicate IsSpace(c: char)
  {
    || c == '\t' || c == '\n' || c == '\U{B}' || c == '\U{C}' || c == '\r' || c == ' '
    || c == '\U{85}' || c == '\U{A0}' || c == '\U{1680}'
    || ('\U{2000}' <= c <= '\U{200A}')
    || c == '\U{2028}' || c == '\U{2029}' || c == '\U{202F}' || c == '\U{205F}' || c == '\U{3000}'
  }

  /** Rails' `blank?` on a string: it matches `[[:space:]]*` whole, so it is
      empty or made of White_Space characters only. */
  predicate IsBlank(s: string)
  {
    forall i | 0 <= i < |s| :: IsSpace(s[i])
  }

  /** Upper-casing of one character: ASCII a-z and the Danish letters æ, ø, å. */
  function UpcaseChar(c: char): (u: char)
    ensures !('a' <= u <= 'z')
    ensures 'A' <= c <= 'Z' ==> u == c
    ensures IsWhitespace(u) <==> IsWhitespace(c)
    ensures u == ' ' <==> c == ' '
  {
    if 'a' <= c <= 'z' then (c as int - 32) as char
    else if c == 'æ' then 'Æ'
    else if c == 'ø' then 'Ø'
    else if c == 'å' then 'Å'
    else c
  }

  /** String#upcase, character by character. */
  function Upcase(s: string): (u: string)
    ensures |u| == |s|
  {
    if s == [] then [] else [UpcaseChar(s[0])] + Upcase(s[1..])
  }

  /** Each character of the upper-cased string is its upper-cased original. */
  lemma {:induction false} UpcaseAt(s: string)
    ensures forall i | 0 <= i < |s| :: Upcase(s)[i] == UpcaseChar(s[i])
  {
    if s != [] {
      UpcaseAt(s[1..]);
      forall i | 1 <= i < |s| ensures Upcase(s)[i] == UpcaseChar(s[i]) {
        assert Upcase(s)[i] == Upcase(s[1..])[i - 1];
      }
    }
  }

  /** Upper-casing leaves no ASCII lower case and moves no whitespace and no
      space. */
  lemma UpcaseKeepsShape(s: string)
    ensures forall i | 0 <= i < |s| :: !('a' <= Upcase(s)[i] <= 'z')
    ensures forall i | 0 <= i < |s| :: IsWhitespace(Upcase(s)[i]) <==> IsWhitespace(s[i])
    ensures forall i | 0 <= i < |s| :: Upcase(s)[i] == ' ' <==> s[i] == ' '
  {
    UpcaseAt(s);
  }

  lemma {:induction false} UpcaseIdempotent(s: string)
    ensures Upcase(Upcase(s)) == Upcase(s)
  {
    if s != [] {
      UpcaseIdempotent(s[1..]);
      assert Upcase(s)[1..] == Upcase(s[1..]);
    }
  }

  /** Leading whitespace removed (String#lstrip). */
  function TrimLeading(s: string): (r: string)
    ensures |r| <= |s| && r == s[|s| - |r|..]
    ensures AllWhitespace(s[..|s| - |r|])
    ensures r == [] || !IsWhitespace(r[0])
  {
    if s == [] || !IsWhitespace(s[0]) then s
    else
      var r := TrimLeading(s[1..]);
      BlankPrefixCons(s, r);
      r
  }

  /** Cutting one more whitespace character off the front keeps the cut part blank. */
  lemma BlankPrefixCons(s: string, r: string)
    requires |s| > 0 && IsWhitespace(s[0])
    requires |r| <= |s| - 1 && r == s[1..][|s| - 1 - |r|..] && AllWhitespace(s[1..][..|s| - 1 - |r|])
    ensures r == s[|s| - |r|..] && AllWhitespace(s[..|s| - |r|])
  {
    var t := s[1..];
    forall k | 1 <= k < |s| - |r| ensures IsWhitespace(s[k]) {
      assert s[k] == t[..|t| - |r|][k - 1];
    }
  }

  /** Trailing whitespace removed (String#rstrip). */
  function TrimTrailing(s: string): (r: string)
    ensures |r| <= |s| && r == s[..|r|]
    ensures AllWhitespace(s[|r|..])
    ensures r == [] || !IsWhitespace(r[|r| - 1])
  {
    if s == [] || !IsWhitespace(s[|s| - 1]) then s
    else
      var r := TrimTrailing(s[..|s| - 1]);
      BlankSuffixSnoc(s, r);
      r
  }

  /** Cutting one more whitespace character off the back keeps the cut part blank. */
  lemma BlankSuffixSnoc(s: string, r: string)
    requires |s| > 0 && IsWhitespace(s[|s| - 1])
    requires |r| <= |s| - 1 && r == s[..|s| - 1][..|r|] && AllWhitespace(s[..|s| - 1][|r|..])
    ensures r == s[..|r|] && AllWhitespace(s[|r|..])
  {
    assert s[|r|..] == s[..|s| - 1][|r|..] + [s[|s| - 1]];
  }

  /** String#strip: the longest infix of `s` that neither starts nor ends
      with whitespace, all that is cut off on either side being whitespace. */
  function Strip(s: string): (r: string)
    ensures exists i, j :: 0 <= i <= j <= |s| && r == s[i..j] && AllWhitespace(s[..i]) && AllWhitespace(s[j..])
    ensures r == [] || (!IsWhitespace(r[0]) && !IsWhitespace(r[|r| - 1]))
  {
    TrimBothSplits(s);
    TrimTrailing(TrimLeading(s))
  }

  /** Trimming both ends cuts a whitespace prefix and a whitespace suffix. */
  lemma TrimBothSplits(s: string)
    ensures exists i, j :: 0 <= i <= j <= |s| && TrimTrailing(TrimLeading(s)) == s[i..j] && AllWhitespace(s[..i]) && AllWhitespace(s[j..])
  {
    var l := TrimLeading(s);
    var r := TrimTrailing(l);
    var i, j := PrefixOfSuffix(s, l, r);
    assert 0 <= i <= j <= |s| && r == s[i..j] && AllWhitespace(s[..i]) && AllWhitespace(s[j..]);
  }

  /** A prefix `r` of a suffix `l` of `s` is an infix of `s`; whatever `l`
      leaves off `s` and `r` leaves off `l` is cut off `s`. */
  lemma PrefixOfSuffix(s: string, l: string, r: string) returns (i: nat, j: nat)
    requires |l| <= |s| && l == s[|s| - |l|..] && AllWhitespace(s[..|s| - |l|])
    requires |r| <= |l| && r == l[..|r|] && AllWhitespace(l[|r|..])
    ensures i <= j <= |s| && r == s[i..j] && AllWhitespace(s[..i]) && AllWhitespace(s[j..])
  {
    i := |s| - |l|;
    j := i + |r|;
    assert r == s[i..j];
    assert s[j..] == l[|r|..];
  }

  lemma {:induction false} StripIdempotent(s: string)
    ensures Strip(Strip(s)) == Strip(s)
  {
    var r := Strip(s);
    if r != [] {
      assert TrimLeading(r) == r;
      assert TrimTrailing(r) == r;
    }
  }

  /** `gsub(" ", "")`: every space removed, every other character kept in order. */
  function RemoveSpaces(s: string): (r: string)
    ensures ' ' !in r
    ensures |r| <= |s|
    ensures ' ' !in s ==> r == s
    ensures forall c :: c != ' ' ==> multiset(r)[c] == multiset(s)[c]
  {
    if s == [] then []
    else
      assert s == [s[0]] + s[1..];
      (if s[0] == ' ' then [] else [s[0]]) + RemoveSpaces(s[1..])
  }

  /** A single character is dropped exactly when it is a space. */
  lemma RemoveSpacesChar(c: char)
    ensures RemoveSpaces([c]) == if c == ' ' then [] else [c]
  {
  }

  lemma RemoveSpacesCons(c: char, s: string)
    ensures RemoveSpaces([c] + s) == (if c == ' ' then [] else [c]) + RemoveSpaces(s)
  {
    assert ([c] + s)[0] == c && ([c] + s)[1..] == s;
  }

  /** Removing spaces works piece by piece: the kept characters stay in
      their order. With RemoveSpacesChar this fixes the result of every
      string. */
  lemma {:induction false} RemoveSpacesAppend(a: string, b: string)
    ensures RemoveSpaces(a + b) == RemoveSpaces(a) + RemoveSpaces(b)
  {
    if a == [] {
      assert a + b == b;
    } else {
      var head: string := if a[0] == ' ' then [] else [a[0]];
      ConsSplit(a, b);
      RemoveSpacesCons(a[0], a[1..] + b);
      RemoveSpacesCons(a[0], a[1..]);
      RemoveSpacesAppend(a[1..], b);
      AppendAssoc(head, RemoveSpaces(a[1..]), RemoveSpaces(b));
    }
  }

  /** A non-empty string and a string joined to it, both as their first
      character and the rest. */
  lemma ConsSplit(a: string, b: string)
    requires a != []
    ensures a == [a[0]] + a[1..] && a + b == [a[0]] + (a[1..] + b)
  {
  }

  lemma AppendAssoc(x: string, y: string, z: string)
    ensures x + (y + z) == (x + y) + z
  {
  }

  /** Upper-casing works piece by piece. */
  lemma {:induction false} UpcaseAppend(a: string, b: string)
    ensures Upcase(a + b) == Upcase(a) + Upcase(b)
  {
    if a == [] {
      assert a + b == b;
    } else {
      ConsSplit(a, b);
      assert (a + b)[0] == a[0] && (a + b)[1..] == a[1..] + b;
      UpcaseAppend(a[1..], b);
      AppendAssoc([UpcaseChar(a[0])], Upcase(a[1..]), Upcase(b));
    }
  }

  /** Lexicographic order on strings, character by character. */
  predicate LexLe(a: string, b: string)
  {
    |a| == 0 || (|b| > 0 && (a[0] < b[0] || (a[0] == b[0] && LexLe(a[1..], b[1..]))))
  }

  lemma LexLeTotal(a: string, b: string)
    ensures LexLe(a, b) || LexLe(b, a)
  {
  }

  lemma LexLeTransitive(a: string, b: string, c: string)
    requires LexLe(a, b) && LexLe(b, c)
    ensures LexLe(a, c)
  {
  }
}
