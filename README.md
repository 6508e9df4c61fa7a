# ArticleSummary in Dafny

A model of `ArticleSummary.js`, the browser widget that shows an "article
summary" card above a blog post and reveals its text with a typewriter effect.
The model covers:

- the constructor's visibility gate. It returns early when `enableSummary` is
  off, when `location.href` is on the blacklist, or when no URL glob pattern
  matches `location.pathname`.
- the translation of a glob into a regular expression and its unanchored test;
- `cleanContent`, which collapses runs of blank lines and trims the text;
- `detectDarkMode` (the `attr` and `attr=value` selector forms) and the
  attribute name that `observeDarkMode` watches, with the observer's callback;
- the theme state: the initial theme, `updateTheme`, and the class of the
  newest summary block;
- `render`, which returns early without a container, and `updateContent`;
- the `typeText` typewriter as a state machine. One `Tick` is one fired timer
  callback.

The files are:

- `Text.dfy`: the JavaScript string operations the widget uses, specified on
  `seq<char>`. These are `trim`, `split`, `replace` of one character with a
  global flag, and substring search.
- `UrlGate.dfy`: `shouldHideSummary`, `shouldShowSummary`, and the constructor's
  gate.
- `CleanContent.dfy`: `cleanContent`.
- `DarkMode.dfy`: `detectDarkMode` and the observed attribute name.
- `Typewriter.dfy`: `typeText`, as the class `Session`.
- `Summary.dfy`: the widget's own state, as the class `ArticleSummary`.
- `Wrappers.dfy`: `Option`.

The global `articleConfig`, `window.location` and the root element's
attributes are passed in as parameters (`Config`, `Page`, and a map from
attribute name to value). The container is present or absent.

A URL pattern is modelled when its characters are no regular-expression
metacharacter other than `*`. Other patterns are outside the model (see "Left out").
After translation, the expression is a series of literal segments joined by
`.*`. An unanchored test of such an expression holds exactly when the segments
occur in the path in order and without overlapping (`UrlGate.InOrder`). The
executable `UrlGate.Test` searches greedily for the leftmost occurrence of
each segment, and it is proved to agree with that meaning.

The `\n\s*\n` replacement in `cleanContent` uses the regular expression's
backtracking semantics. A match starts at a line feed and runs to the LAST
line feed of the whitespace run that follows it. So `"a\n \n b"` becomes
`"a\n b"`: the space after the second line feed is kept.

## Model

| member | source | states |
|---|---|---|
| Text.LeadingWs | ArticleSummary.js:109 | the length of the whitespace run at the start: every character before it is whitespace, the one at it is not |
| Text.TrailingWs | ArticleSummary.js:109 | the length of the whitespace run at the end: every character after the cut is whitespace, the one before it is not |
| Text.Trim | ArticleSummary.js:77 | the result has no whitespace at either end and is no longer than the input |
| Text.TrimIsSlice | ArticleSummary.js:109 | `trim` removes only whitespace: the input is the result with all-whitespace text before and after it |
| Text.TrimKeepsTrimmed | ArticleSummary.js:109 | a string with no whitespace at its ends is left unchanged by `trim` |
| Text.TrimEmptyIffBlank | ArticleSummary.js:109-110 | `trim` gives the empty string exactly when the input is all whitespace |
| Text.TrimIs | ArticleSummary.js:109 | a string made of whitespace, a part with no whitespace at its ends, and whitespace trims to that part |
| Text.TrimKeepsAbsent | ArticleSummary.js:113 | `trim` adds no character: one absent from the input is absent from the result |
| Text.TrimDropsLeading | ArticleSummary.js:113 | cutting the leading whitespace first does not change the trimmed result |
| Text.TrimDropsTrailing | ArticleSummary.js:113 | cutting the trailing whitespace first does not change the trimmed result |
| Text.TrimAround | ArticleSummary.js:109-113 | trimming `x`, a non-whitespace character and `y` cuts whitespace only from the start of `x` and the end of `y` |
| Text.TrimKeepsText | ArticleSummary.js:77 | `trim` keeps every non-whitespace character, in order |
| Text.Split | ArticleSummary.js:113 | `split` gives at least one piece; no piece holds the separator; there are two or more pieces exactly when the separator occurs |
| Text.SplitPiecesFromString | ArticleSummary.js:113 | every character of every piece comes from the input |
| Text.SplitThenJoin | ArticleSummary.js:113 | joining the pieces with the separator gives back the input |
| Text.JoinThenSplit | ArticleSummary.js:113 | splitting the join of separator-free pieces gives back the pieces |
| Text.SplitWithoutSeparator | ArticleSummary.js:112-117 | a string without the separator splits into itself alone |
| Text.SplitAfterPiece | ArticleSummary.js:113 | the split of `x` + separator + `y` is `x` followed by the split of `y`, when `x` holds no separator |
| Text.SplitTrailingSeparator | ArticleSummary.js:113 | a trailing separator adds one empty last piece |
| Text.ReplaceAll | ArticleSummary.js:62 | a global replace by text that does not hold the character leaves no occurrence of it |
| Text.ReplaceAllKeepsAbsent | ArticleSummary.js:114 | a global replace introduces no character that is in neither the input nor the replacement |
| Text.ReplaceAllAppend | ArticleSummary.js:62 | a global replace of a concatenation is the concatenation of the replaces |
| Text.ReplaceAllAbsent | ArticleSummary.js:114 | a global replace changes nothing when the character does not occur |
| Text.ReplaceAllIsJoinOfSplit | ArticleSummary.js:62 | replacing every occurrence is splitting on the character and joining with the replacement |
| Text.ReplaceAllWithItself | ArticleSummary.js:62 | replacing a character by itself changes nothing |
| Text.IndexOf | ArticleSummary.js:70-71 | the result is -1 exactly when the needle never occurs; otherwise it is the leftmost occurrence |
| Text.NonWsAppend | ArticleSummary.js:77 | the non-whitespace characters of a concatenation are those of its parts, in order |
| Text.NonWsOfBlank | ArticleSummary.js:77 | an all-whitespace string has no non-whitespace characters |
| UrlGate.StripAnchors | ArticleSummary.js:53-59 | the result is the pattern with its first character cut exactly when that is `*`, and then its last character cut exactly when what is left ends in `*`; so no character is added |
| UrlGate.Translate | ArticleSummary.js:53-67 | the regular expression built from a pattern always starts with `/` |
| UrlGate.Rooted | ArticleSummary.js:64-67 | a first segment that starts with `/` leaves everything unchanged; otherwise `/` is put in front of the first segment only; either way the first segment then starts with `/` |
| UrlGate.Segments | ArticleSummary.js:53-67 | a pattern's literal segments: at least one; the first starts with `/`; none holds `*`; plain patterns give plain segments |
| UrlGate.JoinStartsWithFirst | ArticleSummary.js:65-67 | a join begins with its first piece |
| UrlGate.TranslateJoinsSegments | ArticleSummary.js:62-67 | the translated pattern is its segments joined by `.*` |
| UrlGate.TranslateStars | ArticleSummary.js:53-67 | edge cases of the translation: `*` and `**` become `/`, `***` becomes `/.*` |
| UrlGate.Search | ArticleSummary.js:70-71 | no segments always match; a successful search means the first segment occurs in the path |
| UrlGate.InOrderInSuffix | ArticleSummary.js:70-71 | an unanchored match in a suffix of the path is a match in the path |
| UrlGate.SearchSound | ArticleSummary.js:70-71 | when the greedy search succeeds, the segments occur in the path in order |
| UrlGate.SearchComplete | ArticleSummary.js:70-71 | when the segments occur in order anywhere, the greedy leftmost search finds a match |
| UrlGate.SearchIsInOrder | ArticleSummary.js:70-71 | the greedy leftmost search succeeds exactly when the segments occur in order without overlapping |
| UrlGate.Test | ArticleSummary.js:69-71 | `regex.test(path)` for a plain pattern holds exactly when the path matches the pattern's segments in order |
| UrlGate.ShouldShowSummary | ArticleSummary.js:49-73 | true exactly when some configured pattern matches the path; false for an empty pattern list |
| UrlGate.ShouldHideSummary | ArticleSummary.js:43-46 | the page is hidden exactly when some blacklist entry equals `href` |
| UrlGate.Gate | ArticleSummary.js:5-17 | the widget is set up only when enabled, when `href` is not on the blacklist (lines 43-46), and when some pattern matches; the blacklist wins over every pattern |
| UrlGate.LiteralPatternIsSubstring | ArticleSummary.js:62-71 | a pattern without `*` matches exactly when it occurs anywhere in the path, so the match is not anchored |
| UrlGate.SegmentsOfLiteral | ArticleSummary.js:53-67 | a star-free pattern that starts with `/` is its own single segment |
| UrlGate.InOrderSingle | ArticleSummary.js:70-71 | a single segment matches exactly when it occurs somewhere in the path |
| UrlGate.InOrderTrailingEmpty | ArticleSummary.js:57-62 | a trailing empty segment does not change whether the path matches |
| UrlGate.StripWrapped | ArticleSummary.js:53-59 | `*x*` loses exactly its two outer stars |
| UrlGate.SegmentsOfTrailingStar | ArticleSummary.js:53-67 | when `x` ends in a star, `*x*` has the segments of `x` plus a final empty one |
| UrlGate.StarWrappedIsSame | ArticleSummary.js:53-71 | wrapping a pattern that does not start with `*` in stars does not change which paths it matches (`**a*` matches `/ba` but `*a` does not, so the condition is needed) |
| UrlGate.DocsMatchesInsidePath | ArticleSummary.js:62-71 | `/docs` matches `/my/docs/page`, because the test is unanchored |
| UrlGate.BlogGlobMatches | ArticleSummary.js:53-71 | `*/blog/*` matches `/blog/2024/post` |
| CleanContent.LastNewlineInRun | ArticleSummary.js:77 | where a match of `\n\s*\n` that starts at a line feed ends: the last line feed of the following whitespace run; -1 exactly when that run holds no line feed |
| CleanContent.Collapse | ArticleSummary.js:77 | the replace never lengthens the text |
| CleanContent.Clean | ArticleSummary.js:75-78 | the cleaned content has no whitespace at either end |
| CleanContent.CollapseKeepsOpenLine | ArticleSummary.js:77 | the replace keeps "no line feed before the text" |
| CleanContent.CollapseNoBlankLine | ArticleSummary.js:77 | after the replace, no two line feeds are separated by whitespace only |
| CleanContent.NonWsOfBlankPrefix | ArticleSummary.js:77 | dropping an all-whitespace prefix keeps the non-whitespace characters |
| CleanContent.CollapseKeepsText | ArticleSummary.js:77 | the replace keeps every non-whitespace character, in order |
| CleanContent.CollapseFixesNoBlankLine | ArticleSummary.js:77 | text without blank lines is left unchanged by the replace |
| CleanContent.OpenLinePrefix | ArticleSummary.js:77 | a prefix keeps "no line feed before the text" |
| CleanContent.NoBlankLinePrefix | ArticleSummary.js:77 | a prefix of text without blank lines has none |
| CleanContent.NoBlankLineSuffix | ArticleSummary.js:77 | a suffix of text without blank lines has none |
| CleanContent.TrimKeepsNoBlankLine | ArticleSummary.js:77 | `trim` does not create a blank line |
| CleanContent.CleanNoBlankLine | ArticleSummary.js:75-78 | cleaned content has no blank line |
| CleanContent.CleanKeepsText | ArticleSummary.js:75-78 | cleaning keeps every non-whitespace character, in order |
| CleanContent.CleanIdempotent | ArticleSummary.js:75-78 | cleaning cleaned content changes nothing |
| CleanContent.OpenLineHasTextBefore | ArticleSummary.js:77 | under "no line feed before the text", a line feed has non-whitespace before it |
| CleanContent.NoBlankLineMeans | ArticleSummary.js:77 | without blank lines, some non-whitespace character lies strictly between any two line feeds |
| DarkMode.SelectorHolds | ArticleSummary.js:112-118 | a trimmed selector holds only when the attribute it names is present |
| DarkMode.DetectDarkMode | ArticleSummary.js:103-123 | dark only when an observer is set up and its attribute is present on the root element |
| DarkMode.WatchedName | ArticleSummary.js:131-133 | the watched name holds no `=`, and it has no whitespace at its ends when the selector has none |
| DarkMode.ObservedAttribute | ArticleSummary.js:126-133 | no attribute is watched exactly when the selector is unset or all whitespace; a watched name holds no `=` and no whitespace at its ends |
| DarkMode.StripQuotes | ArticleSummary.js:114 | the compared value holds no `'` and no `"` |
| DarkMode.BlankSelectorIsNotDark | ArticleSummary.js:103-110 | an unset, empty or all-whitespace selector is never dark, and no observer is set up (lines 128-129) |
| DarkMode.DetectReadsObservedAttribute | ArticleSummary.js:112-118 | detection reads only the attribute the observer watches (lines 131-133): two roots that agree on it give the same result |
| DarkMode.AbsentAttributeIsNotDark | ArticleSummary.js:115-117 | when the watched attribute is absent, the page is not dark |
| DarkMode.PresenceForm | ArticleSummary.js:116-117 | a selector without `=` is dark exactly when the root element has that attribute, and the observer watches it |
| DarkMode.StripQuotesOfQuoted | ArticleSummary.js:114 | removing quotes from `'v'`, `"v"` or `v` gives `v` |
| DarkMode.ReplaceAllAroundAbsent | ArticleSummary.js:114 | a replace of a quote character acts only on the surrounding quotes of a quote-free value |
| DarkMode.SelectorTrimmed | ArticleSummary.js:109 | `name=rest` with trimmed parts is unchanged by `trim` |
| DarkMode.SplitSelector | ArticleSummary.js:113 | `name=rest` splits into exactly `name` and `rest` |
| DarkMode.HoldsForParts | ArticleSummary.js:112-115 | the equality form compares attribute `name` with `rest` cleared of quotes, and the observer's name is `name` |
| DarkMode.EqualityFormParts | ArticleSummary.js:112-115 | `name=rest` is dark exactly when the attribute is present and equal to `rest` with all quotes removed; the observer watches `name` |
| DarkMode.EqualityFormPadded | ArticleSummary.js:109-115 | `name=rest` with any spacing is dark exactly when the trimmed `name` is present and equal to the trimmed `rest` with all quotes removed; the observer watches the trimmed `name` (lines 131-133) |
| DarkMode.EqualityForm | ArticleSummary.js:112-115 | `name=v`, `name='v'` and `name="v"` are dark exactly when attribute `name` is `v`; the observer watches `name` |
| DarkMode.SplitThreePieces | ArticleSummary.js:113 | `name=rest=tail` splits into `name`, then `rest`, and then more |
| DarkMode.ExtraPiecesIgnored | ArticleSummary.js:109-115 | in `name=rest=tail`, with any spacing and any `tail`, everything after the second `=` is ignored: it is dark exactly when the trimmed `name` is present and equal to the trimmed `rest` without quotes, and the observer watches the trimmed `name` |
| DarkMode.DataThemeDark | ArticleSummary.js:112-115 | `data-theme=dark` is dark exactly when the root's `data-theme` is `dark` |
| Typewriter.Frame | ArticleSummary.js:190-192 | the frame for prefix length `k` is the first `k` characters of the text followed by the cursor |
| Typewriter.AllFrames | ArticleSummary.js:188-209 | a full reveal writes one frame per prefix length, `|text| + 1` in all |
| Typewriter.AllFramesShape | ArticleSummary.js:188-209 | the first frame is the bare cursor, the last is the whole text and the cursor, and each frame adds exactly the next character |
| Typewriter.Session.constructor | ArticleSummary.js:166-210 | `typeText`'s first, synchronous `type` call writes the bare cursor and injects the style; an empty text goes straight to the fade-out wait; `|text| + 2` callbacks remain |
| Typewriter.Session.Tick | ArticleSummary.js:188-209 | a `type` call writes the next prefix and the cursor, then either schedules the next character or, after the whole text, the fade-out; the fade-out adds `cursor-fadeout`; the last callback removes the cursor and the style |
| Typewriter.Session.RunToEnd | ArticleSummary.js:188-209 | when every callback has fired, each frame was written once and in order, the element shows exactly the text, and cursor and style are gone; the number of callbacks is `|text| + 2` |
| Summary.OrElse | ArticleSummary.js:21-25 | JavaScript `v || fallback`: a non-empty given value wins; a missing or empty one gives the fallback; the result is empty only when both are |
| Summary.ThemeClass | ArticleSummary.js:161 | the block class is `post-SummaraidGPT gpttheme_` followed by the theme |
| Summary.InitialTheme | ArticleSummary.js:27 | never empty; `dark` when detection says dark, and otherwise the given theme or `default`; with no observed attribute, the given theme or `default` |
| Summary.ThemeClassDeterminesTheme | ArticleSummary.js:84 | two themes give the same block class exactly when they are the same theme |
| Summary.ArticleSummary.constructor | ArticleSummary.js:3-31 | the widget is set up exactly when the gate passes; the option defaults are `./icon.svg`, the localized title, the cleaned content and `SummaraidGPT`; the theme is `dark` when detected, else the given theme or `default`; the observed attribute is recorded; with a container, one block and a fresh reveal that has written only the cursor, keeps cursor and style attached and has `|text| + 2` callbacks pending (so an empty text waits for both timers) |
| Summary.ArticleSummary.Render | ArticleSummary.js:80-101 | without a container nothing changes; otherwise a block with the current theme's class is put in front of the existing ones, and a new reveal of the content starts: only the cursor is written, cursor and style are attached, and `|text| + 2` callbacks are pending |
| Summary.ArticleSummary.UpdateTheme | ArticleSummary.js:155-164 | an unchanged theme changes nothing; otherwise the theme is set and the newest block gets the new theme's class, so the newest block always shows the current theme |
| Summary.ArticleSummary.UpdateContent | ArticleSummary.js:213-216 | the content becomes the cleaned argument and is rendered again, with a new reveal in the same starting state as `Render`'s |
| Summary.ArticleSummary.OnAttributeMutation | ArticleSummary.js:135-143 | called with the selector the observer was set up from, a mutation of the watched attribute re-runs detection and sets the theme to `dark` or `default`; any other attribute changes nothing |

## Left out

- Timers and the random typing delay (lines 196-206) are not modelled. A tick is one fired callback, in the order the code schedules them.
- The DOM is a model, not a copy. The HTML template (lines 83-96), `getElementById`, `querySelector`, the cursor's blink animation and the injected style text are represented by the state they produce: the block classes, the frames written, the cursor's classes, and whether the cursor and style are attached. The template's class attribute (line 84) is parsed by the browser, so a given theme holding `"` or a character reference such as `&amp;` would give a different class from `ThemeClass(theme)`; the model takes the class to be `ThemeClass(theme)` there too. The `className` assignment at line 161 is not parsed, and there the class is exact.
- Typewriter.Session: each frame is the string assigned to `innerHTML` (line 191), and the browser parses it as HTML. So "the element shows exactly the text" in `RunToEnd` is about the string assigned, not the parsed content. The clearing assignment at line 168 is overwritten by the first frame before anything else runs, and it is not recorded as a frame.
- `render` prepends to `innerHTML`, so the existing markup is parsed again. Earlier blocks are kept only as their class attribute. The container's other content, and the loss of a running reveal's element references, are not modelled.
- Summary.ArticleSummary.UpdateTheme: it assumes `querySelector('.post-SummaraidGPT')` finds the newest block. In the page, that call returns the first such block in document order, and the newest block is prepended, so it is first.
- Summary.ArticleSummary.Render: starting a new reveal does not cancel the timers of an earlier one. The code never cancels them, and the model follows it. Only the latest `Session` is kept.
- `logMessage` (lines 36-40) and the `console.error` calls are console output only.
- The `DOMContentLoaded` bootstrap (lines 219 and later) is not modelled. The caller's choice of container and options is a parameter.
- The `MutationObserver` object and its `attributeFilter` registration are represented by the recorded attribute name and the callback `OnAttributeMutation`.
- UrlGate.Test: patterns whose characters include regular-expression metacharacters other than `*` are excluded by a precondition. A full regular-expression engine is not part of this model. An invalid expression, which throws in the page, is among the excluded patterns.
- UrlGate.InOrder: JavaScript's `.` does not match line terminators. A `location.pathname` holds none, so `.*` is modelled as any text.
- DarkMode.DetectDarkMode: `getAttribute` and `hasAttribute` lowercase the name on HTML documents. The model compares names exactly.
- The `try`/`catch` in `detectDarkMode` and `observeDarkMode` is not modelled. With a string selector, no modelled step throws.
- Text.IsWs: the whitespace set holds the ASCII whitespace characters only. JavaScript's `\s` and `trim` also include Unicode spaces and line terminators, which are not modelled. Strings are sequences of characters, with no UTF-16 surrogate pairs.
- CleanContent.Clean: `cleanContent(undefined)` throws in the code (`options.content` missing). The model takes the content as a string.
- Summary.ArticleSummary.UpdateTheme and Summary.ArticleSummary.UpdateContent require that the constructor did not return early. Otherwise `this.options` is undefined, and the code throws a TypeError.
