/** getInitials and getFirstGraphemeUpper: up to two upper-cased first graphemes of a display name or e-mail address. */
module Initials {
  import opened Common
  import opened WordSplit

  /**
   * The two text services getInitials calls and this model leaves abstract: `splitGraphemes` of the
   * grapheme-splitter library (extended grapheme clusters of Unicode Standard Annex #29) and
   * `String.prototype.toUpperCase` with its locale-independent special casing.
   */
  datatype UnicodeLibrary = UnicodeLibrary(splitGraphemes: Text -> seq<Text>, toUpperCase: Text -> Text) {

    /** All the model assumes of the segmenter: a non-empty word has a first cluster, and it is a non-empty prefix of the word. */
    ghost predicate Valid() {
      forall w: Text :: |w| > 0 ==> IsFirstClusterOf(splitGraphemes(w), w)
    }
  }

  predicate IsFirstClusterOf(clusters: seq<Text>, w: Text) {
    |clusters| > 0 && 0 < |clusters[0]| <= |w| && clusters[0] == w[..|clusters[0]|]
  }

  /** `_.split(s, '@')[0]`: the text before the first '@', or all of it when there is none. */
  function BeforeAt(s: Text): (r: Text)
    ensures '@' !in r
    ensures r <= s
    ensures |r| < |s| ==> s[|r|] == '@'
  {
    if s == [] || s[0] == '@' then [] else [s[0]] + BeforeAt(s[1..])
  }

  /** Text without '@' passes through BeforeAt unchanged, and whatever follows it is cut at its own first '@'. */
  lemma {:induction false} BeforeAtAppend(a: Text, b: Text)
    requires '@' !in a
    ensures BeforeAt(a + b) == a + BeforeAt(b)
    decreases |a|
  {
    if a == [] {
      assert a + b == b;
    } else {
      var ab := a + b;
      assert ab[0] == a[0] && ab[0] != '@';
      assert ab[1..] == a[1..] + b;
      assert '@' !in a[1..] by {
        forall i | 0 <= i < |a| - 1 ensures a[1..][i] != '@' {
          assert a[1..][i] == a[i + 1];
        }
      }
      BeforeAtAppend(a[1..], b);
      assert BeforeAt(ab) == [a[0]] + (a[1..] + BeforeAt(b));
      assert a == [a[0]] + a[1..];
    }
  }

  /** getFirstGraphemeUpper: the first grapheme of a word, upper-cased; '' for an absent or empty word. */
  function FirstGraphemeUpper(lib: UnicodeLibrary, word: Option<Text>): (r: Text)
    requires lib.Valid()
    ensures word.None? || word == Some([]) ==> r == []
    ensures word.Some? && word.value != [] ==>
      exists n :: 0 < n <= |word.value| && r == lib.toUpperCase(word.value[..n])
  {
    if word.None? || |word.value| == 0 then []
    else
      var first := lib.splitGraphemes(word.value)[0];
      assert first == word.value[..|first|];
      lib.toUpperCase(first)
  }

  /** The i-th element of a destructured array: absent (undefined) past its end. */
  function Element(ts: seq<Text>, i: nat): (r: Option<Text>)
    ensures r.Some? <==> i < |ts|
    ensures r.Some? ==> r.value == ts[i]
  {
    if i < |ts| then Some(ts[i]) else None
  }

  /** getInitials: the first graphemes of the first two words before any '@', upper-cased and concatenated. */
  function GetInitials(lib: UnicodeLibrary, s: Option<Text>): (r: Text)
    requires lib.Valid()
    ensures s.None? || s == Some([]) ==> r == []
  {
    var initialsBasis := BeforeAt(s.GetOr([]));
    var words := Split(initialsBasis);
    FirstGraphemeUpper(lib, Element(words, 0)) + FirstGraphemeUpper(lib, Element(words, 1))
  }

  /** The initials depend on the first two tokens of the part before the first '@' and on nothing else. */
  lemma InitialsOfTokens(lib: UnicodeLibrary, s: Text)
    requires lib.Valid()
    ensures var t := Tokens(BeforeAt(s));
      GetInitials(lib, Some(s)) == FirstGraphemeUpper(lib, Some(t[0])) + FirstGraphemeUpper(lib, Element(t, 1))
  {
    SplitIsTokens(BeforeAt(s));
  }

  /** Text without '@' is its own initials basis. */
  lemma BeforeAtNoAt(a: Text)
    requires '@' !in a
    ensures BeforeAt(a) == a
  {
    BeforeAtAppend(a, []);
    assert a + [] == a;
  }

  /** The domain part of an e-mail address is ignored: everything from the first '@' on is dropped. */
  lemma InitialsIgnoreDomain(lib: UnicodeLibrary, a: Text, b: Text)
    requires lib.Valid()
    requires '@' !in a
    ensures GetInitials(lib, Some(a + ['@'] + b)) == GetInitials(lib, Some(a))
  {
    BasisIgnoresDomain(a, b);
  }

  /** The initials basis of an address is its local part. */
  lemma BasisIgnoresDomain(a: Text, b: Text)
    requires '@' !in a
    ensures BeforeAt(a + ['@'] + b) == BeforeAt(a)
  {
    BeforeAtAppend(a, ['@'] + b);
    assert a + ['@'] + b == a + (['@'] + b);
    assert a + [] == a;
    BeforeAtNoAt(a);
  }

  /** Texts whose bases have the same first two tokens get the same initials. */
  lemma InitialsOfSameWords(lib: UnicodeLibrary, s1: Text, s2: Text)
    requires lib.Valid()
    requires var t1, t2 := Tokens(BeforeAt(s1)), Tokens(BeforeAt(s2));
      t1[0] == t2[0] && Element(t1, 1) == Element(t2, 1)
    ensures GetInitials(lib, Some(s1)) == GetInitials(lib, Some(s2))
  {
    InitialsOfTokens(lib, s1);
    InitialsOfTokens(lib, s2);
  }

  /**
   * Only the first two tokens matter: once the text has two tokens and does not end with a delimiter,
   * appending a delimiter and anything at all leaves the initials unchanged.
   */
  lemma InitialsIgnoreLaterWords(lib: UnicodeLibrary, x: Text, d: char, y: Text)
    requires lib.Valid()
    requires '@' !in x
    requires |Tokens(x)| >= 2
    requires x == [] || !IsDelimiter(x[|x| - 1])
    requires IsDelimiter(d)
    ensures GetInitials(lib, Some(x + [d] + y)) == GetInitials(lib, Some(x))
  {
    var y' := BeforeAt(y);
    BasisOfAppend(x, d, y);
    BeforeAtNoAt(x);
    TokensAppend(x, d, y', []);
    InitialsOfSameWords(lib, x + [d] + y, x);
  }

  /** Appending a delimiter and more text to a basis without '@' only cuts the appended text at its first '@'. */
  lemma BasisOfAppend(x: Text, d: char, y: Text)
    requires '@' !in x && IsDelimiter(d)
    ensures BeforeAt(x + [d] + y) == x + [d] + BeforeAt(y)
  {
    assert d != '@';
    assert '@' !in x + [d];
    BeforeAtAppend(x + [d], y);
  }

  /** Two words joined by one delimiter give the first grapheme of each, upper-cased: "john.doe" gives "J" + "D". */
  lemma InitialsOfTwoWords(lib: UnicodeLibrary, w1: Text, d: char, w2: Text)
    requires lib.Valid()
    requires NoDelimiter(w1) && NoDelimiter(w2) && '@' !in w1 && '@' !in w2
    requires IsDelimiter(d)
    ensures GetInitials(lib, Some(w1 + [d] + w2)) ==
      FirstGraphemeUpper(lib, Some(w1)) + FirstGraphemeUpper(lib, Some(w2))
  {
    var s := w1 + [d] + w2;
    BasisOfAppend(w1, d, w2);
    BeforeAtNoAt(w2);
    TwoWords(w1, d, w2);
    InitialsOfTokens(lib, s);
  }

  /** Two words joined by one delimiter are the two tokens. */
  lemma TwoWords(w1: Text, d: char, w2: Text)
    requires NoDelimiter(w1) && NoDelimiter(w2) && IsDelimiter(d)
    ensures Tokens(w1 + [d] + w2) == [w1, w2]
  {
    TokensAppend(w1, d, w2, []);
    if w2 != [] {
      assert RunLength(w2, ClassOf(d).value) == 0;
    }
    TokensOfWord(w1, []);
    TokensOfWord(w2, []);
    assert [] + w1 == w1 && [] + w2 == w2;
  }

  /** Text made only of delimiters, of one class or several, gives no initials: every token is empty. */
  lemma InitialsOfDelimitersOnly(lib: UnicodeLibrary, s: Text)
    requires lib.Valid()
    requires forall i :: 0 <= i < |s| ==> IsDelimiter(s[i])
    ensures GetInitials(lib, Some(s)) == []
  {
    assert '@' !in s by {
      forall i | 0 <= i < |s| ensures s[i] != '@' {
        assert IsDelimiter(s[i]);
      }
    }
    BeforeAtNoAt(s);
    TokensOfDelimiters(s, []);
    InitialsOfTokens(lib, s);
  }

  /** A leading delimiter makes the first token empty, so " john" gets only the initial of "john". */
  lemma InitialsAfterLeadingDelimiter(lib: UnicodeLibrary, d: char, w: Text)
    requires lib.Valid()
    requires IsDelimiter(d) && NoDelimiter(w) && '@' !in w
    ensures GetInitials(lib, Some([d] + w)) == FirstGraphemeUpper(lib, Some(w))
  {
    assert d != '@';
    BeforeAtNoAt([d] + w);
    LeadingDelimiter(d, w);
    SplitIsTokens([d] + w);
    InitialsOfTokens(lib, [d] + w);
  }

  /** An address "first.last@domain" gets the upper-cased first graphemes of "first" and "last". */
  lemma InitialsOfAddress(lib: UnicodeLibrary, first: Text, d: char, last: Text, domain: Text)
    requires lib.Valid()
    requires NoDelimiter(first) && NoDelimiter(last) && '@' !in first && '@' !in last
    requires IsDelimiter(d)
    ensures GetInitials(lib, Some(first + [d] + last + ['@'] + domain)) ==
      FirstGraphemeUpper(lib, Some(first)) + FirstGraphemeUpper(lib, Some(last))
  {
    assert '@' !in first + [d] + last by {
      assert d != '@';
    }
    InitialsIgnoreDomain(lib, first + [d] + last, domain);
    InitialsOfTwoWords(lib, first, d, last);
  }
}
