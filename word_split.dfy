/**
 * wordSplitRegex, `/\s+|\.+|_+|;+|-+|,+|\|+|\/+|\\+/`, and `String.prototype.split` with it.
 * Split follows the loop of RegExp.prototype[@@split] (section 22.2.6.14 of ECMA-262);
 * Tokens is an independent, code point by code point definition proved equal to it.
 */
module WordSplit {
  import opened Common

  /** The nine alternatives of wordSplitRegex, in the order the regex lists them; each is one class repeated. */
  datatype DelimiterClass = Whitespace | Dot | Underscore | Semicolon | Hyphen | Comma | Bar | Slash | Backslash

  /** `\s` of a JavaScript regular expression: the WhiteSpace and LineTerminator code points. */
  predicate IsRegexWhitespace(c: char) {
    var n := c as int;
    n == 0x09 || n == 0x0A || n == 0x0B || n == 0x0C || n == 0x0D || n == 0x20 ||
    n == 0xA0 || n == 0x1680 || (0x2000 <= n <= 0x200A) || n == 0x2028 || n == 0x2029 ||
    n == 0x202F || n == 0x205F || n == 0x3000 || n == 0xFEFF
  }

  /** The first alternative of the regex whose character class holds c, if any. */
  function ClassOf(c: char): Option<DelimiterClass> {
    if IsRegexWhitespace(c) then Some(Whitespace)
    else if c == '.' then Some(Dot)
    else if c == '_' then Some(Underscore)
    else if c == ';' then Some(Semicolon)
    else if c == '-' then Some(Hyphen)
    else if c == ',' then Some(Comma)
    else if c == '|' then Some(Bar)
    else if c == '/' then Some(Slash)
    else if c == '\\' then Some(Backslash)
    else None
  }

  predicate IsDelimiter(c: char) {
    ClassOf(c).Some?
  }

  /** A word: text in which no alternative of the regex can start. */
  predicate NoDelimiter(t: Text) {
    forall i :: 0 <= i < |t| ==> !IsDelimiter(t[i])
  }

  /** How much of s a greedy `X+` for class k consumes: the longest prefix of s whose code points are all of class k. */
  function RunLength(s: Text, k: DelimiterClass): (n: nat)
    ensures n <= |s|
    ensures n < |s| ==> ClassOf(s[n]) != Some(k)
  {
    if s != [] && ClassOf(s[0]) == Some(k) then 1 + RunLength(s[1..], k) else 0
  }

  /** Everything a run consumes is of its class. */
  lemma {:induction false} RunLengthConsumesClass(s: Text, k: DelimiterClass)
    ensures forall i :: 0 <= i < RunLength(s, k) ==> ClassOf(s[i]) == Some(k)
    decreases |s|
  {
    if s != [] && ClassOf(s[0]) == Some(k) {
      RunLengthConsumesClass(s[1..], k);
      assert forall i :: 1 <= i < RunLength(s, k) ==> s[i] == s[1..][i - 1];
    }
  }

  /** Where a sticky match of wordSplitRegex tried at q ends, or None when no alternative matches there. */
  function MatchEnd(s: Text, q: nat): (e: Option<nat>)
    requires q < |s|
    ensures e.Some? <==> IsDelimiter(s[q])
    ensures e.Some? ==> q < e.value <= |s|
    ensures e.Some? ==> forall i :: q <= i < e.value ==> ClassOf(s[i]) == ClassOf(s[q])
    ensures e.Some? && e.value < |s| ==> ClassOf(s[e.value]) != ClassOf(s[q])
  {
    match ClassOf(s[q])
    case None => None
    case Some(k) =>
      RunLengthConsumesClass(s[q..], k);
      Some(q + RunLength(s[q..], k))
  }

  /** The loop of RegExp.prototype[@@split]: p is where the current token starts, q where the next match is tried. */
  function SplitLoop(s: Text, p: nat, q: nat): seq<Text>
    requires p <= q <= |s|
    decreases |s| - q
  {
    if q == |s| then [s[p..]]
    else match MatchEnd(s, q)
      case None => SplitLoop(s, p, q + 1)
      case Some(e) => if e == p then SplitLoop(s, p, q + 1) else [s[p..q]] + SplitLoop(s, e, e)
  }

  /** `s.split(wordSplitRegex)`. The regex cannot match the empty text, so "" gives [""]. */
  function Split(s: Text): seq<Text> {
    if |s| == 0 then [s] else SplitLoop(s, 0, 0)
  }

  /**
   * Reference definition of the split, one code point at a time over the rest of the text, with the
   * token read so far in `current`: a delimiter ends that token and the rest of its run is skipped;
   * any other code point extends it.
   */
  function TokensFrom(s: Text, current: Text): (r: seq<Text>)
    ensures |r| >= 1
    decreases |s|
  {
    if s == [] then [current]
    else match ClassOf(s[0])
      case Some(k) => [current] + TokensFrom(s[RunLength(s, k)..], [])
      case None => TokensFrom(s[1..], current + [s[0]])
  }

  /** The reference tokens of s. */
  function Tokens(s: Text): seq<Text> {
    TokensFrom(s, [])
  }

  /** Unfolding the reference at a code point that is not a delimiter: it joins the current token. */
  lemma TokensFromAtWord(s: Text, current: Text)
    requires s != [] && !IsDelimiter(s[0])
    ensures TokensFrom(s, current) == TokensFrom(s[1..], current + [s[0]])
  {
  }

  /** Unfolding the reference at a delimiter: the current token is finished and the delimiter's run skipped. */
  lemma TokensFromAtRun(s: Text, current: Text)
    requires s != [] && IsDelimiter(s[0])
    ensures TokensFrom(s, current) == [current] + TokensFrom(s[RunLength(s, ClassOf(s[0]).value)..], [])
  {
  }

  /** The loop, with s[p..q] read and no match found in it yet, yields the reference tokens of the rest with s[p..q] as the current token. */
  lemma {:induction false} SplitLoopIsTokens(s: Text, p: nat, q: nat)
    requires p <= q <= |s|
    ensures SplitLoop(s, p, q) == TokensFrom(s[q..], s[p..q])
    decreases |s| - q
  {
    if q == |s| {
      assert s[q..] == [] && s[p..q] == s[p..];
    } else if IsDelimiter(s[q]) {
      var e := MatchEnd(s, q).value;
      SplitLoopIsTokens(s, e, e);
      assert s[e..e] == [];
      SplitLoopAtMatch(s, p, q);
    } else {
      SplitLoopIsTokens(s, p, q + 1);
      SplitLoopAtWord(s, p, q);
    }
  }

  /** Step of SplitLoopIsTokens where a match starts at q: both sides finish the token s[p..q] and go on after the run. */
  lemma SplitLoopAtMatch(s: Text, p: nat, q: nat)
    requires p <= q < |s| && IsDelimiter(s[q])
    requires var e := MatchEnd(s, q).value; SplitLoop(s, e, e) == TokensFrom(s[e..], [])
    ensures SplitLoop(s, p, q) == TokensFrom(s[q..], s[p..q])
  {
    var e := MatchEnd(s, q).value;
    SplitLoopFinishesToken(s, p, q);
    TokensFromAtMatch(s, p, q);
  }

  /** A match at q makes the loop emit s[p..q] and restart after the match. */
  lemma SplitLoopFinishesToken(s: Text, p: nat, q: nat)
    requires p <= q < |s| && IsDelimiter(s[q])
    ensures var e := MatchEnd(s, q).value; SplitLoop(s, p, q) == [s[p..q]] + SplitLoop(s, e, e)
  {
  }

  /** The reference, at the same point, also finishes s[p..q] and restarts after the run. */
  lemma TokensFromAtMatch(s: Text, p: nat, q: nat)
    requires p <= q < |s| && IsDelimiter(s[q])
    ensures var e := MatchEnd(s, q).value; TokensFrom(s[q..], s[p..q]) == [s[p..q]] + TokensFrom(s[e..], [])
  {
    var k := ClassOf(s[q]).value;
    var rest := s[q..];
    var n := RunLength(rest, k);
    assert MatchEnd(s, q) == Some(q + n);
    assert rest[0] == s[q];
    assert rest[n..] == s[q + n..];
    TokensFromAtRun(rest, s[p..q]);
  }

  /** Step of SplitLoopIsTokens where no match starts at q: both sides extend the token by s[q]. */
  lemma SplitLoopAtWord(s: Text, p: nat, q: nat)
    requires p <= q < |s| && !IsDelimiter(s[q])
    requires SplitLoop(s, p, q + 1) == TokensFrom(s[q + 1..], s[p..q + 1])
    ensures SplitLoop(s, p, q) == TokensFrom(s[q..], s[p..q])
  {
    var rest := s[q..];
    assert rest[0] == s[q];
    assert rest[1..] == s[q + 1..];
    assert s[p..q] + [s[q]] == s[p..q + 1];
    TokensFromAtWord(rest, s[p..q]);
  }

  /** `s.split(wordSplitRegex)` agrees with the reference definition on every input. */
  lemma SplitIsTokens(s: Text)
    ensures Split(s) == Tokens(s)
  {
    if |s| > 0 {
      SplitLoopIsTokens(s, 0, 0);
      assert s[0..0] == [] && s[0..] == s;
    }
  }

  /** Every token is a word: no delimiter survives the split. */
  lemma {:induction false} TokensAreWords(s: Text, current: Text)
    requires NoDelimiter(current)
    ensures forall i :: 0 <= i < |TokensFrom(s, current)| ==> NoDelimiter(TokensFrom(s, current)[i])
    decreases |s|
  {
    if s != [] {
      match ClassOf(s[0])
      case Some(k) =>
        TokensAreWords(s[RunLength(s, k)..], []);
      case None =>
        var next := current + [s[0]];
        assert NoDelimiter(next) by {
          forall i | 0 <= i < |next| ensures !IsDelimiter(next[i]) {
            if i < |current| { assert next[i] == current[i]; }
          }
        }
        TokensAreWords(s[1..], next);
    }
  }

  /** A word without delimiters only extends the current token. */
  lemma {:induction false} TokensOfWord(w: Text, current: Text)
    requires NoDelimiter(w)
    ensures TokensFrom(w, current) == [current + w]
    decreases |w|
  {
    if w == [] {
      assert current + w == current;
    } else {
      TokensOfWord(w[1..], current + [w[0]]);
      assert current + [w[0]] + w[1..] == current + w;
    }
  }

  /** Text made only of delimiters, of any mix of classes, yields empty tokens after the current one. */
  lemma {:induction false} TokensOfDelimiters(s: Text, current: Text)
    requires forall i :: 0 <= i < |s| ==> IsDelimiter(s[i])
    ensures TokensFrom(s, current)[0] == current
    ensures forall i :: 1 <= i < |TokensFrom(s, current)| ==> TokensFrom(s, current)[i] == []
    decreases |s|
  {
    if s != [] {
      var k := ClassOf(s[0]).value;
      var n := RunLength(s, k);
      TokensOfDelimiters(s[n..], []);
    }
  }

  /** A run of class k that starts inside x stops inside x when x ends with a non-delimiter. */
  lemma {:induction false} RunLengthStopsInside(x: Text, z: Text, k: DelimiterClass)
    requires x != [] && !IsDelimiter(x[|x| - 1])
    ensures RunLength(x + z, k) == RunLength(x, k) < |x|
    decreases |x|
  {
    if ClassOf(x[0]) == Some(k) {
      assert (x + z)[1..] == x[1..] + z;
      RunLengthStopsInside(x[1..], z, k);
    }
  }

  /** The tokens after a delimiter d: those of y once the rest of d's run is skipped. */
  function TokensAfter(d: char, y: Text): seq<Text>
    requires IsDelimiter(d)
  {
    Tokens(y[RunLength(y, ClassOf(d).value)..])
  }

  /**
   * Appending a delimiter and more text to x keeps the tokens of x and adds new ones after them,
   * provided x does not already end with a delimiter (whose run the new one could join).
   */
  lemma {:induction false} TokensAppend(x: Text, d: char, y: Text, current: Text)
    requires x == [] || !IsDelimiter(x[|x| - 1])
    requires IsDelimiter(d)
    ensures TokensFrom(x + [d] + y, current) == TokensFrom(x, current) + TokensAfter(d, y)
    decreases |x|
  {
    var tail := [d] + y;
    var a := TokensAfter(d, y);
    assert x + [d] + y == x + tail;
    if x == [] {
      TokensAppendToEmpty(d, y, current);
    } else if IsDelimiter(x[0]) {
      var k := ClassOf(x[0]).value;
      var r := RunLength(x, k);
      RunLengthStopsInside(x, tail, k);
      assert TokensFrom(x[r..] + tail, []) == TokensFrom(x[r..], []) + a by {
        TokensAppend(x[r..], d, y, []);
        assert x[r..] + [d] + y == x[r..] + tail;
      }
      AppendAfterRun(x, tail, current, a);
    } else {
      var next := current + [x[0]];
      assert TokensFrom(x[1..] + tail, next) == TokensFrom(x[1..], next) + a by {
        TokensAppend(x[1..], d, y, next);
        assert x[1..] + [d] + y == x[1..] + tail;
      }
      AppendAfterWordStart(x, tail, current, a);
    }
  }

  /** TokensAppend when x is empty. */
  lemma TokensAppendToEmpty(d: char, y: Text, current: Text)
    requires IsDelimiter(d)
    ensures TokensFrom([] + [d] + y, current) == TokensFrom([], current) + TokensAfter(d, y)
  {
    var k := ClassOf(d).value;
    var z := [d] + y;
    assert [] + [d] + y == z && z[1..] == y;
    assert RunLength(z, k) == 1 + RunLength(y, k);
    assert z[RunLength(z, k)..] == y[RunLength(y, k)..];
    TokensFromAtRun(z, current);
  }

  /** Step of TokensAppend when x starts with a delimiter run that ends inside x. */
  lemma AppendAfterRun(x: Text, tail: Text, current: Text, a: seq<Text>)
    requires x != [] && IsDelimiter(x[0])
    requires var r := RunLength(x, ClassOf(x[0]).value);
      r < |x| && RunLength(x + tail, ClassOf(x[0]).value) == r &&
      TokensFrom(x[r..] + tail, []) == TokensFrom(x[r..], []) + a
    ensures TokensFrom(x + tail, current) == TokensFrom(x, current) + a
  {
    var r := RunLength(x, ClassOf(x[0]).value);
    var rest := TokensFrom(x[r..], []);
    assert TokensFrom(x + tail, current) == [current] + TokensFrom(x[r..] + tail, []) by {
      var xt := x + tail;
      assert xt[r..] == x[r..] + tail;
      assert xt[0] == x[0];
      TokensFromAtRun(xt, current);
    }
    TokensFromAtRun(x, current);
    assert [current] + (rest + a) == ([current] + rest) + a;
  }

  /** Step of TokensAppend when x starts with a code point that is not a delimiter. */
  lemma AppendAfterWordStart(x: Text, tail: Text, current: Text, a: seq<Text>)
    requires x != [] && !IsDelimiter(x[0])
    requires TokensFrom(x[1..] + tail, current + [x[0]]) == TokensFrom(x[1..], current + [x[0]]) + a
    ensures TokensFrom(x + tail, current) == TokensFrom(x, current) + a
  {
    assert TokensFrom(x + tail, current) == TokensFrom(x[1..] + tail, current + [x[0]]) by {
      var xt := x + tail;
      assert xt[0] == x[0] && xt[1..] == x[1..] + tail;
      TokensFromAtWord(xt, current);
    }
    TokensFromAtWord(x, current);
  }

  /** A delimiter at the very start gives an empty first token: " john" splits into ["", "john"]. */
  lemma LeadingDelimiter(d: char, w: Text)
    requires IsDelimiter(d) && NoDelimiter(w)
    ensures Split([d] + w) == [[], w]
  {
    TokensAppend([], d, w, []);
    assert [] + [d] + w == [d] + w;
    if w != [] {
      assert RunLength(w, ClassOf(d).value) == 0;
    }
    TokensOfWord(w, []);
    assert [] + w == w;
    SplitIsTokens([d] + w);
  }

  /** Two delimiters of different classes in a row leave an empty token between them: "a._b" splits into ["a", "", "b"]. */
  lemma MixedRun(a: Text, c1: char, c2: char, b: Text)
    requires NoDelimiter(a) && NoDelimiter(b)
    requires IsDelimiter(c1) && IsDelimiter(c2) && ClassOf(c1) != ClassOf(c2)
    ensures Split(a + [c1, c2] + b) == [a, [], b]
  {
    assert a + [c1] + ([c2] + b) == a + [c1, c2] + b;
    TokensAppend(a, c1, [c2] + b, []);
    assert RunLength([c2] + b, ClassOf(c1).value) == 0;
    LeadingDelimiter(c2, b);
    SplitIsTokens([c2] + b);
    TokensOfWord(a, []);
    assert [] + a == a;
    SplitIsTokens(a + [c1, c2] + b);
  }

  /** Concatenation of a list of texts. */
  function Flatten(ts: seq<Text>): Text {
    if ts == [] then [] else ts[0] + Flatten(ts[1..])
  }

  /** s with every delimiter code point removed. */
  function RemoveDelimiters(s: Text): (r: Text)
    ensures NoDelimiter(r)
  {
    if s == [] then []
    else (if IsDelimiter(s[0]) then [] else [s[0]]) + RemoveDelimiters(s[1..])
  }

  /** Skipping a run of delimiters removes nothing that RemoveDelimiters keeps. */
  lemma {:induction false} RemoveDelimitersSkipsRun(s: Text, n: nat)
    requires n <= |s|
    requires forall i :: 0 <= i < n ==> IsDelimiter(s[i])
    ensures RemoveDelimiters(s) == RemoveDelimiters(s[n..])
    decreases n
  {
    if n > 0 {
      assert s[1..][n - 1..] == s[n..];
      RemoveDelimitersSkipsRun(s[1..], n - 1);
    }
  }

  /** Nothing but the delimiters is lost: the tokens, put back together, are the text without its delimiters. */
  lemma {:induction false} TokensKeepContent(s: Text, current: Text)
    ensures Flatten(TokensFrom(s, current)) == current + RemoveDelimiters(s)
    decreases |s|
  {
    if s == [] {
      assert [current][1..] == [];
      assert current + [] == current;
    } else {
      match ClassOf(s[0])
      case Some(k) =>
        var n := RunLength(s, k);
        var t := TokensFrom(s[n..], []);
        TokensKeepContent(s[n..], []);
        RunLengthConsumesClass(s, k);
        RemoveDelimitersSkipsRun(s, n);
        assert ([current] + t)[1..] == t;
        assert [] + RemoveDelimiters(s[n..]) == RemoveDelimiters(s[n..]);
      case None =>
        TokensKeepContent(s[1..], current + [s[0]]);
        assert current + [s[0]] + RemoveDelimiters(s[1..]) == current + ([s[0]] + RemoveDelimiters(s[1..]));
    }
  }
}
