# Avatar initials, colour and Gravatar check

A Dafny model of the avatar helpers in `react/features/base/avatar/functions.js`:

- **getAvatarColor** picks a background colour for an initials avatar. The palette is the
  caller's custom backgrounds when they are present and non-empty, and the nine `AVATAR_COLORS`
  otherwise. Falsy initials (absent or `''`) get the palette's first entry. Any other initials
  get the entry at the sum of their code points modulo the palette length.
- **getInitials** (with **getFirstGraphemeUpper**) keeps the text before the first `@` and
  splits it with `wordSplitRegex`. It then concatenates the upper-cased first grapheme of the
  first two tokens. A missing or empty token contributes `''`.
- **isGravatarURL** tests whether a URL (`undefined` meaning `''`) starts with `GRAVATAR_BASE_URL`.

Text is `seq<char>`: one element per Unicode code point. That is what the `for…of` loop of
getAvatarColor walks. An absent argument is `None` of `Common.Option`. For `getInitials` and
`getAvatarColor` that is `null` or `undefined`, which both treat alike. For `isGravatarURL` it is
`undefined` only: the default parameter replaces `undefined` and nothing else.

`s.split(wordSplitRegex)` is modelled in `WordSplit`. `Split`/`SplitLoop` follow the loop
of `RegExp.prototype[@@split]` (section 22.2.6.14 of ECMA-262). It tries a sticky match of the
regex at each position q. On a match it emits the pending token and restarts after the match.
The `e == p` branch is kept. `Tokens`/`TokensFrom` is a separate definition that works one code
point at a time. `SplitIsTokens` proves the two equal for every input, and the other lemmas are
stated through `Tokens`. Each alternative of the regex matches a run of ONE delimiter class, so
the model reproduces what JavaScript does and what a "collapse all delimiters" reading would not:

- a leading delimiter gives an empty first token: `" john"` splits into `["", "john"]`, so
  `" john doe"` gets only the initial of `john` (`LeadingDelimiter`, `InitialsAfterLeadingDelimiter`);
- two delimiters of different classes give an empty token between them: `"a._b"` splits into
  `["a", "", "b"]` (`MixedRun`).

The grapheme segmenter and `toUpperCase` are the two function fields of `Initials.UnicodeLibrary`.
Its `Valid()` states the only assumption made: a non-empty word has a first grapheme cluster, and
that cluster is a non-empty prefix of the word. `GRAVATAR_BASE_URL` is the parameter
`gravatarBaseUrl` of `Gravatar.IsGravatarUrl`.

## Model

| member | source | states |
|---|---|---|
| AvatarColor.IsTruthy | react/features/base/avatar/functions.js:35 | no contract; the truthiness test `if (initials)`: present and not `''` |
| AvatarColor.HasCustomBackgrounds | react/features/base/avatar/functions.js:30 | no contract; the truthiness of `customAvatarBackgrounds && customAvatarBackgrounds.length` |
| AvatarColor.ColorsBase | react/features/base/avatar/functions.js:30-31 | the palette is the custom backgrounds exactly when they are present and non-empty, and `AVATAR_COLORS` otherwise; either way it is never empty, so indexing it modulo its length is defined |
| AvatarColor.CodePointSum | react/features/base/avatar/functions.js:36-40 | no contract; the `nameHash` the loop builds, as a function; `GetAvatarColor`'s invariant ties the loop to it |
| AvatarColor.AvatarColorOf | react/features/base/avatar/functions.js:29-46 | the colour is an element of the chosen palette: of the custom backgrounds when they are present and non-empty, of `AVATAR_COLORS` otherwise; absent or empty initials give the palette's first entry |
| AvatarColor.GetAvatarColor | react/features/base/avatar/functions.js:33-45 | the loop's `nameHash` is the code point sum of the prefix walked so far, and the colour returned is `AvatarColorOf(initials, custom)` |
| AvatarColor.CodePointSumConcat | react/features/base/avatar/functions.js:36-40 | the hash of a concatenation is the sum of the hashes of its parts |
| AvatarColor.CodePointSumPermutation | react/features/base/avatar/functions.js:36-40 | two texts with the same multiset of code points have the same hash |
| AvatarColor.AvatarColorPermutation | react/features/base/avatar/functions.js:35-45 | initials that are permutations of each other get the same colour |
| WordSplit.IsRegexWhitespace | react/features/base/avatar/functions.js:19 | no contract; the code points `\s` matches (WhiteSpace and LineTerminator of ECMA-262) |
| WordSplit.ClassOf | react/features/base/avatar/functions.js:19 | no contract; the nine alternatives of `wordSplitRegex`, each a single character class, in the order the regex lists them |
| WordSplit.RunLength | react/features/base/avatar/functions.js:19 | a greedy `X+` alternative consumes a prefix no longer than the text and stops only at the end or at a code point outside its class |
| WordSplit.RunLengthConsumesClass | react/features/base/avatar/functions.js:19 | every code point a run consumes belongs to that run's class |
| WordSplit.MatchEnd | react/features/base/avatar/functions.js:19 | a sticky match of `wordSplitRegex` starts at q exactly when the code point there is a delimiter; it is non-empty, ends within the text, covers only code points of the class of `s[q]`, and ends at the end of the text or before a code point of another class: the whole run |
| WordSplit.SplitLoop | react/features/base/avatar/functions.js:71 | no contract; the loop of `RegExp.prototype[@@split]`; equal to `TokensFrom` by `SplitLoopIsTokens` |
| WordSplit.Split | react/features/base/avatar/functions.js:71 | no contract; `initialsBasis.split(wordSplitRegex)`; equal to `Tokens` by `SplitIsTokens` |
| WordSplit.TokensFrom | react/features/base/avatar/functions.js:71 | splitting always yields at least one token, so `firstWord` is always defined |
| WordSplit.SplitLoopIsTokens | react/features/base/avatar/functions.js:71 | each state of the split loop (pending token `s[p..q]`) yields the reference tokens of the rest with that token in progress |
| WordSplit.SplitIsTokens | react/features/base/avatar/functions.js:71 | `s.split(wordSplitRegex)` equals the reference tokenisation for every text |
| WordSplit.TokensAreWords | react/features/base/avatar/functions.js:19 | no token contains a delimiter |
| WordSplit.TokensKeepContent | react/features/base/avatar/functions.js:71 | the tokens put back together are the text with its delimiters removed: nothing else is lost |
| WordSplit.TokensOfWord | react/features/base/avatar/functions.js:71 | a text without delimiters is a single token |
| WordSplit.TokensOfDelimiters | react/features/base/avatar/functions.js:71 | a text made only of delimiters, of one class or several, yields only empty tokens |
| WordSplit.TokensAppend | react/features/base/avatar/functions.js:71 | appending a delimiter and more text to a text that does not end with a delimiter keeps its tokens and only adds tokens after them |
| WordSplit.LeadingDelimiter | react/features/base/avatar/functions.js:71 | a delimiter followed by a word splits into an empty token and the word |
| WordSplit.MixedRun | react/features/base/avatar/functions.js:19 | adjacent delimiters of different classes leave an empty token between the words around them |
| Initials.BeforeAt | react/features/base/avatar/functions.js:70 | the basis is the longest prefix without `@`: it contains no `@`, is a prefix of the input, and is followed by `@` unless it is the whole input |
| Initials.BeforeAtAppend | react/features/base/avatar/functions.js:70 | text without `@` passes into the basis unchanged, and what follows it is cut at its own first `@` |
| Initials.BeforeAtNoAt | react/features/base/avatar/functions.js:70 | text without `@` is its own basis |
| Initials.BasisIgnoresDomain | react/features/base/avatar/functions.js:69-70 | the basis of `local@domain` is the basis of `local` |
| Initials.FirstGraphemeUpper | react/features/base/avatar/functions.js:54-60 | an absent or empty word gives `''`; otherwise the result is the upper-casing of a non-empty prefix of the word |
| Initials.GetInitials | react/features/base/avatar/functions.js:68-74 | an absent or empty input gives `''` |
| Initials.InitialsOfTokens | react/features/base/avatar/functions.js:70-73 | the initials are those of the first token and the (possibly missing) second token of the basis |
| Initials.InitialsOfSameWords | react/features/base/avatar/functions.js:71-73 | inputs whose bases share their first two tokens get the same initials |
| Initials.InitialsIgnoreDomain | react/features/base/avatar/functions.js:69-73 | for `a` without `@`, the initials of `a@b` are those of `a`, for every `b` |
| Initials.InitialsIgnoreLaterWords | react/features/base/avatar/functions.js:71-73 | once the text has two tokens and does not end with a delimiter, appending a delimiter and anything else does not change the initials |
| Initials.TwoWords | react/features/base/avatar/functions.js:71 | two words joined by one delimiter are exactly the two tokens |
| Initials.InitialsOfTwoWords | react/features/base/avatar/functions.js:71-73 | two words joined by one delimiter give the first-grapheme initial of each word, in order |
| Initials.InitialsOfDelimitersOnly | react/features/base/avatar/functions.js:55-73 | an input made only of delimiters gives `''` |
| Initials.InitialsAfterLeadingDelimiter | react/features/base/avatar/functions.js:55-73 | a delimiter followed by a word gives only that word's initial, since the first token is empty |
| Initials.InitialsOfAddress | react/features/base/avatar/functions.js:68-74 | `first.last@domain` gives the initials of `first` and `last` |
| Gravatar.StartsWith | react/features/base/avatar/functions.js:83 | `startsWith` holds exactly when the prefix is no longer than the text and equals the text's first code points |
| Gravatar.IsGravatarUrl | react/features/base/avatar/functions.js:82-83 | true exactly when `GRAVATAR_BASE_URL` is a prefix of the URL; an absent URL is `''`, which matches only an empty base |
| Gravatar.GravatarUrlIsBasePlusPath | react/features/base/avatar/functions.js:82-83 | a URL is recognised exactly when it is the base URL followed by some path |

## Left out

- Grapheme segmentation (the grapheme-splitter library, Unicode Standard Annex #29) is a foreign call. It is the abstract `UnicodeLibrary.splitGraphemes`, and only the "first cluster is a non-empty prefix" property is assumed of it.
- `String.prototype.toUpperCase` is the uninterpreted `UnicodeLibrary.toUpperCase`. Nothing is assumed about it, including its length. So the bound of at most two upper-cased graphemes on the initials is not stated.
- The value of `GRAVATAR_BASE_URL` lives in the avatar constants module, which is not part of this model. It is a parameter.
- UTF-16 is not modelled: text is a sequence of code points. `split`, `startsWith` and `toUpperCase` on well-formed strings see the same boundaries either way. Lone surrogates are not representable.
- AvatarColor.GetAvatarColor: `nameHash` is a JavaScript number, which is exact only up to 2^53. The model sums unbounded integers. The two differ only for initials longer than about eight billion code points, which no JavaScript engine can hold.
- Gravatar.IsGravatarUrl: a `null` URL, which the Flow type `string` excludes, makes the source throw a TypeError at `url.startsWith`; the model has no `null` for this argument, and `None` is `undefined`, which becomes `''`.
- `_.split` coercion of non-string arguments (numbers, objects) is not modelled; only an absent argument, which becomes `''`, is.
- The `limit` argument of `split` (2^32 - 1 tokens by default) is not modelled; only the first two tokens are ever used.
- Flow type annotations and module imports/exports carry no behaviour and are left out.
