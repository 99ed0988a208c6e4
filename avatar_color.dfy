/** getAvatarColor: a deterministic background colour for an initials avatar. */
module AvatarColor {
  import opened Common

  /** A colour as the palette holds it, e.g. "#6A50D3". */
  type Color = Text

  /** AVATAR_COLORS, the default palette. */
  const AvatarColors: seq<Color> := [
    "#6A50D3", "#FF9B42", "#DF486F", "#73348C", "#B23683",
    "#F96E57", "#4380E2", "#2AA076", "#00A8B3"
  ]

  /** JavaScript truthiness of an optional string: present and not empty. */
  predicate IsTruthy(t: Option<Text>) {
    t.Some? && |t.value| > 0
  }

  /** Whether the caller supplied custom backgrounds that are used (present and not empty). */
  predicate HasCustomBackgrounds(custom: Option<seq<Color>>) {
    custom.Some? && |custom.value| > 0
  }

  /** colorsBase: the palette the colour is drawn from. It is never empty, so the index below is defined. */
  function ColorsBase(custom: Option<seq<Color>>): (palette: seq<Color>)
    ensures |palette| > 0
    ensures HasCustomBackgrounds(custom) ==> palette == custom.value
    ensures !HasCustomBackgrounds(custom) ==> palette == AvatarColors
  {
    if HasCustomBackgrounds(custom) then custom.value else AvatarColors
  }

  /** The sum of the code point values of t, accumulated from the left. */
  function CodePointSum(t: Text): nat
  {
    if t == [] then 0 else CodePointSum(t[..|t| - 1]) + t[|t| - 1] as nat
  }

  /** The colour getAvatarColor returns. */
  function AvatarColorOf(initials: Option<Text>, custom: Option<seq<Color>>): (color: Color)
    ensures color in ColorsBase(custom)
    ensures HasCustomBackgrounds(custom) ==> color in custom.value
    ensures !HasCustomBackgrounds(custom) ==> color in AvatarColors
    ensures !IsTruthy(initials) ==> color == ColorsBase(custom)[0]
  {
    var colorsBase := ColorsBase(custom);
    var colorIndex := if IsTruthy(initials) then CodePointSum(initials.value) % |colorsBase| else 0;
    colorsBase[colorIndex]
  }

  /** getAvatarColor: sums the code points of the initials in a loop and indexes the palette with the sum. */
  method GetAvatarColor(initials: Option<Text>, custom: Option<seq<Color>>) returns (color: Color)
    ensures color == AvatarColorOf(initials, custom)
  {
    var colorsBase := ColorsBase(custom);
    var colorIndex := 0;
    if IsTruthy(initials) {
      var text := initials.value;
      var nameHash := 0;
      for i := 0 to |text|
        invariant nameHash == CodePointSum(text[..i])
      {
        assert text[..i + 1][..i] == text[..i];
        nameHash := nameHash + text[i] as nat;
      }
      assert text[..|text|] == text;
      colorIndex := nameHash % |colorsBase|;
    }
    color := colorsBase[colorIndex];
  }

  /** The sum over a concatenation is the sum of the parts. */
  lemma {:induction false} CodePointSumConcat(a: Text, b: Text)
    ensures CodePointSum(a + b) == CodePointSum(a) + CodePointSum(b)
    decreases |b|
  {
    if b == [] {
      assert a + b == a;
    } else {
      var b' := b[..|b| - 1];
      assert (a + b)[..|a + b| - 1] == a + b';
      CodePointSumConcat(a, b');
    }
  }

  /** The sum depends only on the multiset of code points, not on their order. */
  lemma {:induction false} CodePointSumPermutation(a: Text, b: Text)
    requires multiset(a) == multiset(b)
    ensures CodePointSum(a) == CodePointSum(b)
    decreases |a|
  {
    if a == [] {
      assert |b| == |multiset(b)| == 0;
    } else {
      var x := a[|a| - 1];
      var a' := a[..|a| - 1];
      assert a == a' + [x];
      assert x in multiset(b);
      var j :| 0 <= j < |b| && b[j] == x;
      var b' := b[..j] + b[j + 1..];
      assert b == b[..j] + [x] + b[j + 1..];
      assert multiset(a) == multiset(a') + multiset{x};
      assert multiset(b) == multiset(b[..j]) + multiset{x} + multiset(b[j + 1..]);
      assert multiset(b') == multiset(b[..j]) + multiset(b[j + 1..]);
      assert multiset(a') == multiset(a) - multiset{x};
      assert multiset(b') == multiset(b) - multiset{x};
      CodePointSumPermutation(a', b');
      CodePointSumConcat(a', [x]);
      CodePointSumConcat(b[..j], [x]);
      CodePointSumConcat(b[..j] + [x], b[j + 1..]);
      CodePointSumConcat(b[..j], b[j + 1..]);
    }
  }

  /** Initials that are a permutation of each other get the same colour. */
  lemma AvatarColorPermutation(a: Text, b: Text, custom: Option<seq<Color>>)
    requires multiset(a) == multiset(b)
    ensures AvatarColorOf(Some(a), custom) == AvatarColorOf(Some(b), custom)
  {
    assert |a| == |multiset(a)| == |b|;
    CodePointSumPermutation(a, b);
  }
}
