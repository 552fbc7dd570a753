# A verified model of guri-vr's natural-language scene parser

guri-vr turns a plain-text script into a virtual-reality scene. The parser,
`nlp.js`, reads the script line by line. It keeps only the lines that name a
duration, such as `5 seconds`; a kept line is one scene, a "paragraph".

In each paragraph a case-insensitive regular expression finds the entity
keywords, in English, Spanish or as emoji: audio, panorama, image, text,
video, videosphere, durations, voiceover, chart, background, fondo and model.
Each entity becomes a scene object. Its attributes are read from a window of
the paragraph around it:
- the URL of its media;
- a quoted caption;
- a location word (left, arriba, ...) that gives a position and a rotation;
- a size word (tiny, enorme, ...) that gives a scale;
- a colour or a number of seconds.

The model is in Dafny and has these modules:

- `Wrappers`: `Option` and `Result`.
- `Text`: the regular-expression primitives the parser relies on, written as
  explicit scanners over `seq<char>`:
  - case folding;
  - the `\s`, `\w` and hex classes;
  - leftmost search;
  - `substring`, `replace` and `split`/`join`.
- `Vocabulary`: the position, rotation and size tables, the model offset and
  their properties.
- `Scanner`: the entity regular expression and the `exec` loop of
  `getObjects`. The loop is the method `ScanEntities`, proved against the
  specification function `MatchesFrom`.
- `Extractors`: the durations, the background and fondo colours, the location
  and size words, the quote and the URLs, each as a function of the window
  text with lemmas stating what it finds.
- `Dispatcher`: the two windows, the switch over entity types, and the
  `map`/`filter` that builds a paragraph's objects. A thrown `TypeError` is
  modelled as an `Err` carrying a `Failure`.
- `Pipeline`: the exported function — split into lines, keep the duration
  lines, map each to its objects.

Where the code and the documentation of the project disagree, the model
follows the code:
- The line filter is case-sensitive and wants one plain space between the
  digits and the unit: `5 Seconds` and `5  seconds` do not start a scene.
- A keyword that no case of the switch names is not discarded. For example,
  `Audio` written with a capital is found by the case-insensitive scanner but
  not named by the case-sensitive switch. It is returned as the scanner
  recorded it (`Raw`).
- Two keywords separated by a single delimiter cannot both be found. The
  trailing delimiter of a match is consumed, so in `5 seconds audio` only
  `seconds` is an entity (`Scanner.SharedDelimiterIsMissed`).

## Model

| member | source | states |
|---|---|---|
| `Text.Fold` | nlp.js:6 | the `i` flag maps A–Z and the Latin-1 capitals À–Þ other than × to the letter 32 code points higher, so A–Z to a–z, and leaves every other character alone |
| `Text.FoldIgnoresCase` | nlp.js:6 | folding twice is folding once, and a capital and the letter 32 above it fold to the same character, which is not a capital |
| `Text.FindPattern` | nlp.js:47 | the position found is the first occurrence of the pattern, and there is none exactly when the pattern occurs nowhere |
| `Text.RemoveFirst` | nlp.js:47 | `replace` of a literal pattern cuts out its first occurrence: putting the pattern back at that position gives the string again; a string in which it does not occur is unchanged |
| `Text.RemoveAll` | nlp.js:184 | after `replace(/"/g, '')` no quote is left and the string is no longer; a string without quotes is unchanged |
| `Text.RemoveAllIsFilter` | nlp.js:184 | the removal distributes over concatenation, and drops one character exactly when it is the quote, so it keeps every other character in order |
| `Text.SplitJoin` | nlp.js:12 | joining the pieces of `split('\n')` gives back the script, and no piece holds a line break |
| `Text.JoinSplit` | nlp.js:12 | splitting a join of pieces without the separator gives back the pieces |
| `Text.LastPieceIsSuffix` | nlp.js:140-148 | the last piece of `url.split('.')` is a suffix of the URL without a dot, preceded by a dot when there are several pieces, and is the whole URL when it has no dot |
| `Text.LastPieceAfterDot` | nlp.js:140-148 | the last piece holds no dot and ends the URL; when the URL has a dot, the character before it is a dot, and otherwise it is the whole URL |
| `Vocabulary.AbsPos` | nlp.js:199-223 | every position is on a wall (x or z is ±8) at eye height 1.6 lowered by half the height, or above or below (y is 6 or −3) at x = −width/2 and z = 0 |
| `Vocabulary.RotationOf` | nlp.js:225-249 | every rotation is about one axis only, x or y, never z, by 0, 90 or −90 degrees about x and 0, 90, −90 or 180 about y |
| `Vocabulary.AbsSize` | nlp.js:251-268 | every scale is uniform and positive |
| `Vocabulary.ModelOffsetIsTranslation` | nlp.js:166-168 | moving a position to a model's base takes [0, 3, 0] off it, keeps the difference between any two positions, and sends distinct positions to distinct ones |
| `Vocabulary.BilingualLocations` | nlp.js:199-249 | every English location word and its Spanish twin give the same position for every width and height, and the same rotation |
| `Vocabulary.BilingualSizes` | nlp.js:251-268 | every English size word and its Spanish twin give the same scale |
| `Vocabulary.UnnamedLocationIsFront` | nlp.js:199-249 | a word neither switch names gives the front wall at eye height, centred by the width and height, with no rotation |
| `Vocabulary.LeftWall` | nlp.js:199-205 | `left` gives x −8, y 1.6 lowered by half the height, z half the width; with no width and height it is exactly [−8, 1.6, 0] |
| `Vocabulary.UnnamedSizeIsUnit` | nlp.js:251-268 | a word the size switch does not name gives scale [1, 1, 1] |
| `Vocabulary.WallsAreRotatedFront` | nlp.js:199-249 | on the walls the rotation turns only about the vertical axis by a quarter turn; the left, behind and front positions are the front position turned by it, and the right position only for width 0, its z offset having the left wall's sign |
| `Vocabulary.SizesAreUniformAndOrdered` | nlp.js:251-268 | every scale is uniform and positive, and tiny < small < normal < large < huge |
| `Extractors.FindDuration` | nlp.js:36 | the position found starts a duration expression and none starts earlier; none is found exactly when none exists |
| `Extractors.ContainsDurationIff` | nlp.js:13 | a line passes the filter exactly when it holds digits, one space and `⏲`, `second`, `seconds` or `segundos`, case-sensitively |
| `Extractors.FindDurationIsFirst` | nlp.js:36 | the match found is the leftmost duration expression, with its whole run of digits |
| `Extractors.DurationValueSpec` | nlp.js:36-42 | a duration is dropped exactly when its window holds no duration expression; otherwise its value is the number written by the digits of the leftmost one |
| `Extractors.BackgroundTokenShape` | nlp.js:44 | a background colour token is `#` and 3 to 6 hex digits, or a run of word characters |
| `Extractors.BackgroundColorOfLowerCase` | nlp.js:44-47 | when ` background` follows the token in lower case, the colour is exactly the token |
| `Extractors.BackgroundTokenEndSound` | nlp.js:44 | a match the background matcher reports at i is a colour token `s[i..j]` followed by ` background` ignoring case |
| `Extractors.BackgroundTokenEndComplete` | nlp.js:44 | wherever a colour token `s[i..j]` is followed by ` background` ignoring case, the matcher at i reports exactly j |
| `Extractors.BackgroundColorOfOtherCase` | nlp.js:44-47 | when the suffix after the token is not in lower case, such as ` Background`, nothing is cut out and the colour is the whole match, suffix included |
| `Extractors.BackgroundColorIsToken` | nlp.js:44-47 | the `background` case fails exactly when no position pair i ≤ j has a colour token `s[i..j]` followed by ` background` ignoring case; otherwise it uses such a pair with the leftmost i, no earlier position having one. It cuts out the first lower-case ` background` of that match: with a lower-case suffix the colour is the token, otherwise the whole match is kept |
| `Extractors.FondoHexEnd` | nlp.js:154 | `fondo #` ignoring case at a position, then 3 to 6 hex digits, taken greedily: the match stops at six digits, at the end of the window or at a non-hex character, and one exists whenever three hex digits follow |
| `Extractors.FondoColor` | nlp.js:154-157 | the fondo colour is `#` and 3 to 6 hex digits, missing exactly when no `fondo #<hex>` occurs in the window; otherwise it is the greedy capture of the leftmost match |
| `Extractors.FindWordStart` | nlp.js:190 | the position found holds a location (or size) word ignoring case, and no earlier position does |
| `Extractors.FindWordSpec` | nlp.js:190-196 | the word found is the leftmost occurrence of an alternative, ignoring case and in the window's own spelling; none is found exactly when no alternative occurs |
| `Extractors.DefaultPlacement` | nlp.js:187-192 | with no location word the position is the front wall, centred by the width and height, and the rotation is zero |
| `Extractors.DefaultSize` | nlp.js:194-197 | with no size word the scale is [1, 1, 1] |
| `Extractors.GetPosition` | nlp.js:187-192 | with no location word the position is the front wall, x = −width/2, y = 1.6 − height/2, z = −8 |
| `Extractors.GetRotation` | nlp.js:225-227 | with no location word there is no rotation |
| `Extractors.GetSize` | nlp.js:194-197 | every scale is uniform and positive, and with no size word it is [1, 1, 1] |
| `Extractors.QuoteCloseOnOneLine` | nlp.js:182 | on one line a quote closes exactly when another quote follows it, and it closes at the last one |
| `Extractors.QuoteSpan` | nlp.js:181-185 | on one line, a quote is found exactly when two quotes exist; it runs from the first quote to the last, with every quote removed |
| `Extractors.GetQuote` | nlp.js:181-185 | a quote holds no quote mark, and there is none exactly when no quote closes anywhere in the window |
| `Extractors.FirstEndingWithSpec` | nlp.js:173-178 | the filtered match is the first match passing the suffix test, and there is none exactly when no match passes |
| `Extractors.UrlMatchesAreUrls` | nlp.js:171 | every match of the URL pattern is a URL of the window: a scheme, then URL characters, as long as possible |
| `Extractors.UrlMatchesFirst` | nlp.js:171 | the window has a match exactly when some URL (a scheme, URL characters, as long as possible) begins in it; the first match is that URL at the leftmost position, and no URL starts before it |
| `Extractors.UrlEndAtComplete` | nlp.js:171 | wherever a URL begins, the matcher at that position finds the whole of it, ending where the URL ends |
| `Extractors.UrlMatchesInOrder` | nlp.js:171 | the matches come in text order: each is a URL at its span, match k+1 is the leftmost URL at or after the end of match k, and no URL starts after the last match |
| `Extractors.GetUrlSpec` | nlp.js:170-179 | without a test the URL is the first match, missing exactly when there is none; with a suffix it is the first match that ends with it, missing exactly when none does |
| `Extractors.GetUrl` | nlp.js:170-179 | the URL returned is one of the matches, it ends with the suffix when there is one, and without a suffix there is one exactly when the window has a match |
| `Extractors.GetModelSource` | nlp.js:129-148 | the model's file is one of the matches; it has an extension exactly when it has a file; a material file ends in `.mtl` and comes with extension `obj` |
| `Extractors.ModelSourceSpec` | nlp.js:131-148 | when some URL ends in `.obj` the model takes the first such URL, extension `obj` and the first `.mtl` URL or undefined; otherwise it takes the first URL, a null material and as extension the last piece of the URL split at its dots; with no URL there is neither source nor extension |
| `Extractors.ModelExtensionIsLastPiece` | nlp.js:138-148 | with no `.obj` URL the extension exists, holds no dot and ends the first URL; it follows a dot when the URL has one, and otherwise it is the whole URL |
| `Scanner.KeywordFromSpec` | nlp.js:6 | the alternation picks the first keyword, in list order, that fits with a trailing delimiter, and none when none fits |
| `Scanner.MatchAt` | nlp.js:6 | a match found at a position begins there, and ends inside the paragraph after it |
| `Scanner.MatchAtSpec` | nlp.js:6 | a match begins at the start of the paragraph or at a delimiter, its keyword follows at once as written and fits there, and the match consumes it; when there is no match, no keyword fits at the start (at position 0) or after the delimiter |
| `Scanner.Exec` | nlp.js:22 | a match `exec` returns begins at or after `lastIndex` and ends after its own index, inside the paragraph |
| `Scanner.ExecSpec` | nlp.js:22 | `exec` from `lastIndex` returns the leftmost match at or after it, or null when there is none inside the paragraph |
| `Scanner.ScanEntities` | nlp.js:17-24 | the loop records, in order, the keyword and index of each match that `exec` returns, resuming each search where the last match ended |
| `Scanner.MatchesFromOrdered` | nlp.js:22 | each recorded match is the pattern's match at its own index, and each begins at or after the end of the one before |
| `Scanner.TokensIncreasing` | nlp.js:22-23 | entity indices strictly increase; each is the leading delimiter of its keyword, or 0 at the start; a later keyword never begins where an earlier match ended |
| `Scanner.MatchNumber` | nlp.js:22-23 | each match is well placed, and the next match starts at or after its end, with its keyword after its index |
| `Scanner.MatchesFromComplete` | nlp.js:22 | no match is skipped: every position where the pattern matches lies inside the stretch one recorded match consumed |
| `Scanner.DelimitedKeywordIsCovered` | nlp.js:6-22 | where a keyword fits at the start of the paragraph, or after any delimiter, that start or delimiter lies inside the stretch some recorded match consumed |
| `Scanner.NoMatchWithoutDelimiter` | nlp.js:6 | where no delimiter follows, `exec` finds nothing more |
| `Scanner.KeywordInitials` | nlp.js:6 | no keyword is empty or begins with a digit or a delimiter, in any case |
| `Scanner.AlternativesBeforeSeconds` | nlp.js:6 | the alternation holds `seconds` and then `second`; `seconds` comes before `second`, and of the keywords before it only `sound` starts with `s` |
| `Scanner.VideoEsferaFoundWhole` | nlp.js:6 | in `video esfera`, the longer alternative is tried before `video` and is found whole |
| `Scanner.IndexAtLeadingDelimiter` | nlp.js:6 | in ` seconds` the match's index is the leading space, with the keyword one position later |
| `Scanner.SharedDelimiterIsMissed` | nlp.js:6-24 | in `5 seconds audio` only `seconds` (index 1) is recorded; `audio` is missed because its leading space was consumed |
| `Dispatcher.BackwardWindow` | nlp.js:29-31 | the backward window is the paragraph's text from the previous entity's index plus its keyword's length (or 0 for the first entity) to this keyword's index plus its length plus one, cut at the paragraph's end. That is the keyword's end when a delimiter leads it, and one past the keyword only at position 0 |
| `Dispatcher.ForwardWindow` | nlp.js:52-54 | the forward window is the paragraph's text from the entity's index to the end of the paragraph for the last entity, or up to one past the next entity's index |
| `Dispatcher.Describe` | nlp.js:27-161 | only a duration can be dropped, and only a background, a text or a fondo can throw |
| `Dispatcher.DescribeForward` | nlp.js:56-161 | the `switch` never drops an entity, and throws only for a text or a fondo |
| `Dispatcher.ForwardObjectType` | nlp.js:56-161 | each object the switch returns has the `type` of its case: `background` for `fondo`, the keyword's own for an entity no case names |
| `Dispatcher.ObjectTypeOfEntity` | nlp.js:27-161 | each object of an entity has the `type` its keyword names: `duration` for the four duration keywords, `background` for `background` and `fondo`, and so on |
| `Dispatcher.GetObjects` | nlp.js:17-164 | the scanning loop, then the map and filter, give `getObjects` of the paragraph |
| `Dispatcher.KeptIsFilter` | nlp.js:163 | the filter keeps each object, drops each `false`, and distributes over concatenation, so order is kept |
| `Dispatcher.KeptWithoutDrops` | nlp.js:163 | with nothing dropped the k-th object is the k-th entity's |
| `Dispatcher.CollectSpec` | nlp.js:27-163 | the result is an error exactly when some entity threw, and then it is the first one's; otherwise it is the kept objects in order |
| `Dispatcher.ObjectsSpec` | nlp.js:17-164 | `getObjects` fails exactly when some entity throws, with the first error; otherwise it returns the kept objects in scan order, and with no drops the i-th object is the i-th entity's |
| `Dispatcher.DroppedIff` | nlp.js:35-37 | an entity is dropped exactly when it is a duration and its backward window holds no duration expression |
| `Dispatcher.DurationFromBackwardWindow` | nlp.js:29-42 | a duration whose backward window holds one has as value the number of the first duration expression there |
| `Dispatcher.ThrownIff` | nlp.js:43-158 | an entity throws exactly for a background with no colour, a text with no quote or a fondo with no hex code, each with its own error |
| `Dispatcher.ForwardThrownIff` | nlp.js:56-161 | after the forward window is taken, only a text with no quote or a fondo with no hex code throws |
| `Dispatcher.ForwardErrors` | nlp.js:56-161 | the forward switch never drops an entity, and each error comes from its own case |
| `Dispatcher.CrashPatterns` | nlp.js:44-47 | background and fondo crash exactly when their window holds no `<colour> background` or `fondo #<hex>` at all; for background, exactly when no colour token `s[i..j]` is followed by ` background` ignoring case |
| `Dispatcher.UnnamedKindIsRaw` | nlp.js:161 | an entity no case names is returned as recorded, its keyword and index unchanged |
| `Dispatcher.CaptionOnlyWithoutUrl` | nlp.js:83-117 | a panorama or picture takes the first URL; it has a caption only when there is no URL, and that caption is the quote |
| `Dispatcher.TextStepThrowsIff` | nlp.js:118-128 | a text throws exactly when its window has no quote, and otherwise its text is the quote |
| `Dispatcher.TextPanelScale` | nlp.js:118-128 | a text is scaled five times a picture's scale in the same window, is turned the same way, and holds no quote mark |
| `Dispatcher.TextPanelLayout` | nlp.js:121-128 | with no location or size word a text sits at [−7, 1.6 − length/60, −8] with scale [5, 5, 5] and no rotation |
| `Dispatcher.ModelPlacement` | nlp.js:129-152 | a model takes `GetModelSource`'s file and sits 3 below where `GetPosition` puts it with no width or height; with no location word it is at [0, −1.4, −8] |
| `Dispatcher.ForwardWindowHoldsKeyword` | nlp.js:52-54 | the forward window starts at the entity's index, holds its keyword there or after the delimiter, and ends before the next entity's keyword |
| `Dispatcher.BackwardWindowEndsWithKeyword` | nlp.js:29-31 | the backward window ends with the entity's keyword, or with the keyword and the character after it |
| `Pipeline.Interpret` | nlp.js:10-15 | the exported function succeeds exactly when every kept line gives its objects, and then returns each line's objects in line order; otherwise it fails with the error of the first line that throws |
| `Pipeline.DurationLinesSpec` | nlp.js:13 | the filter keeps exactly the lines holding a duration, and it distributes over concatenation, so line order is kept |
| `Pipeline.KeptLinesSpec` | nlp.js:10-13 | every kept line is a whole line of the script, without a line break and holding digits, a space and a unit; every such line is kept |
| `Pipeline.AllOkSpec` | nlp.js:14 | the call succeeds exactly when every line does, with one list per line in order; otherwise it fails with the first line's error |

## Left out

- Characters are Unicode scalar values, not the UTF-16 code units of
  JavaScript strings. An entity's `index` and a caption's `text.length` count an
  emoji or another astral character as one, not two. Window cuts are computed
  the same way in both counts, with one exception. After an emoji keyword, as in
  `x 🔊 3 seconds`, the next entity's backward window starts in JavaScript at
  the emoji's second UTF-16 unit, a lone surrogate, and in the model at the
  whole emoji. Neither the duration nor the background pattern can match either
  of those characters.
- The URL pattern is simplified. A match is `http://` or `https://` followed
  by a non-empty maximal run of the pattern's path characters. The host part,
  with its `{2,256}` length, dot, 2–6 letter top-level domain and word
  boundary, is not modelled. Neither is the backtracking those allow.
- Positions, scales and sizes are exact reals, not IEEE doubles. `1/3`, `1.6`
  and `length/30` carry no rounding.
- `undefined` is modelled as `None` in the optional attributes (`src`, the
  quotes, `extension`). No attribute is ever `false` there. The one `false` is a
  panorama's or picture's caption when it has a URL, kept as `Suppressed`,
  apart from a missing quote. A model's `mtl` keeps `null` apart from
  `undefined`.
- The `type` field of an object is the constructor of its `Descriptor`, and
  `TypeName` reads it as an `ObjectTag` instead of a string; an entity no case
  names keeps its keyword in `Raw`.
- Case folding of the `i` flag covers ASCII and the Latin-1 capitals. That is
  every letter of the keywords and of the location and size words. Other
  scripts' case pairs are not folded.
- `parseInt` precision is not modelled: a duration's value is the exact
  natural number its digits write, however long.
- The `lastIndex` state of the module-level global regular expression is
  modelled by the explicit resume position of `Exec`. The loop always ends with
  `exec` returning null, which resets `lastIndex` to 0, so the state does not
  leak between paragraphs.
- `trim()` of the recorded keyword is not modelled, because a keyword never
  begins or ends with white space.
- The scanner functions take the keyword list as a parameter. `Tokens` and
  `GetObjects` apply them to the paragraph keyword list.
- Scanner.SharedDelimiterIsMissed: the example is stated for a parameter
  that the precondition fixes to one string.
- Scanner.VideoEsferaFoundWhole: likewise stated for a parameter fixed to
  one string.
- Scanner.IndexAtLeadingDelimiter: likewise stated for a parameter fixed to
  one string.
- Extractors.QuoteSpan: stated for windows without line terminators. A
  window comes from one line of the script, so it holds no `\n`. A `\r` of a
  CRLF script, or U+2028 / U+2029, would stop `.`, and `GetQuote` models that,
  but the lemma does not cover it.
- Scanner.ExecSpec: the null case speaks of positions inside the paragraph.
  Only an empty keyword could match at its end.
- The objects' field names follow the source, with three renamed: a
  voiceover's `text` is called `speech`, and a panorama's and a picture's
  `text` are called `caption`.
- A thrown `TypeError` ends the whole call. The model returns the first
  failure as an `Err` instead of unwinding.
