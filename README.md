# m2-timer timer engine in Dafny

This project models the timer engine of m2-timer in `js/main.js`. The extension
turns slide texts such as `[[05:00|abc]]` into live countdowns during a
presentation. It has three parts, and each has a Dafny counterpart:

- **TimeExpression** (module `TimeExpression`). The constructor runs the
  regular expression `prefix(\d{2}):(\d{2})splitter([0-9a-zA-Z]+)suffix` over a
  text. It keeps `ok`, the limit `MM*60+SS` and the label. `now(elapsed)`
  renders `|limit - elapsed|` as `MM:SS`, with the overtime colour once the
  limit is passed.
  - `exec` is modelled as the leftmost start index at which the pattern
    matches (`Search`/`Exec`).
  - The label is what the greedy `+` settles on after backtracking: the
    longest alphanumeric run that the suffix follows (`LabelLength`).
  - The pattern is specified by the predicate `IsMatch` and by `Captures`.
  - `Parse` is the constructor. `Now` is `now`.
- **Timer** (module `Timers`). A class over a mutable `Element` that has
  `innerHTML`, `style.fill` and the `m2timer` cache of its original markup.
  - The constructor caches the markup on first sight and parses the cached
    markup from then on.
  - `Update` truncates the elapsed seconds. It rewrites the element only when
    that whole number changes.
- **Session** (module `Sessions`). A class with the ordered list of enabled
  timers and a map from label to start instant.
  - `InitTimers` is `initTimers`: the loop method `BuildTimers` builds the
    timers, and the loop method `Seed` seeds the start times.
  - `UpdateTimers` pushes `(now - start) / 1000` into every timer.
  - Both loops are proved against specification functions: `Parses`,
    `EnabledIndices`, `Positions` and `Seeded`.

The module `Text` holds the JavaScript conversions the rendering relies on:
`String(x)`, `parseInt` of a digit string, and `('00' + x).slice(-2)`.
`Wrappers` holds `Option`.

The code offers only one rendering policy, the coloured overtime. A text
that stops at zero and shows a label instead is not in `js/main.js`, so the
model has only the overtime policy.

## Model

| member | source | states |
|---|---|---|
| Text.Decimal | js/main.js:41 | `String(x)` of a non-negative integer is a non-empty digit string. It ends in the digit `x % 10` and has no leading zero. |
| Text.DecimalValue | js/main.js:31 | `parseInt` of a digit string, most significant digit first. It has no contract of its own; `Text.DecimalRoundTrip` and `Text.TwoDigitsValue` state what it reads. |
| Text.DecimalRoundTrip | js/main.js:31 | `parseInt` reads `String(x)` back as x. |
| Text.TwoDigits | js/main.js:41 | `('00' + x).slice(-2)` is exactly the tens digit and the units digit of x. |
| Text.TwoDigitsValue | js/main.js:41 | The padded pair is all digits and reads back as `x % 100`. |
| TimeExpression.AlnumRunMaximal | js/main.js:22 | The run of `[0-9a-zA-Z]` at a position is alphanumeric throughout and cannot be extended. |
| TimeExpression.AlnumRun | js/main.js:22 | The length of the `[0-9a-zA-Z]` run at a position, which stays within the text; `TimeExpression.AlnumRunMaximal` states that it is the whole run. |
| TimeExpression.LabelLength | js/main.js:22 | The greedy `+` giving back characters until the suffix follows: never longer than the run; `TimeExpression.LabelLengthLargest` states that it is the longest such length. |
| TimeExpression.MatchAt | js/main.js:22-23 | The pattern tried at one start index. It has no contract of its own; `TimeExpression.MatchAtCorrect` states what it captures against `IsMatch`. |
| TimeExpression.Search | js/main.js:23 | `exec` scanning start indices from i on. It has no contract of its own; `TimeExpression.SearchCorrect` states it. |
| TimeExpression.Exec | js/main.js:23 | `regex.exec(str)`: the scan from index 0. It has no contract of its own; `TimeExpression.ExecCorrect` states it. |
| TimeExpression.Parse | js/main.js:15-33 | The constructor's `ok`, `limit`, `label` and overtime colour. It has no contract of its own; `TimeExpression.ParseFails`, `TimeExpression.ParseFinds` and `TimeExpression.ParseRoundTrip` state it. |
| TimeExpression.LabelLengthLargest | js/main.js:22 | The length the greedy `+` backtracks to is followed by the suffix, and no longer length within the run is. |
| TimeExpression.MatchAtLongest | js/main.js:22-23 | Where any label matches at an index, the pattern tried there succeeds with a label at least as long. |
| TimeExpression.MatchAtSound | js/main.js:22-23 | What the pattern captures at an index is a match at that index. |
| TimeExpression.MatchAtCorrect | js/main.js:22-23 | At one start index the pattern fails exactly when no label matches there. Otherwise it captures the two clock halves and the longest matching label. |
| TimeExpression.SearchCorrect | js/main.js:23 | Scanning from i reports the first index at or after i where the pattern occurs, with its capture. It reports none when the pattern does not occur from i on. |
| TimeExpression.ExecCorrect | js/main.js:23-28 | `exec` fails if and only if the pattern occurs nowhere. Otherwise it reports a capture at the leftmost occurrence. |
| TimeExpression.ExecFirst | js/main.js:23 | Where the pattern occurs at j, `exec` reports a capture at j or earlier. |
| TimeExpression.ClockCaptures | js/main.js:31 | `parseInt` of the two captured clock halves gives minutes and seconds, and `MM*60+SS` is the clock's value. |
| TimeExpression.ParseFails | js/main.js:22-28 | `ok` is false if and only if the text holds no directive. A failed parse keeps the initial field values. |
| TimeExpression.ParseFinds | js/main.js:30-32 | On success the limit is the leftmost directive's `MM*60+SS` and the label is that directive's greedy label, a non-empty alphanumeric string. |
| TimeExpression.ParseFirstLongest | js/main.js:22-32 | A directive at index 0 whose label no other label there outgrows is what the constructor keeps. |
| TimeExpression.ParseAtStart | js/main.js:22-32 | A directive at index 0 whose label is not followed by an alphanumeric character is what the constructor keeps. |
| TimeExpression.ParseRoundTrip | js/main.js:22-32 | Parsing `prefix + DD:DD + splitter + label + suffix + rest` gives `ok`, the clock's `MM*60+SS` and the label. The only demand is that no alphanumeric character follows the label. |
| TimeExpression.ParseDirective | js/main.js:22-32 | A text that is exactly one directive parses to that directive's limit and label. |
| TimeExpression.ParseExample | js/main.js:15-33 | `[[05:00\|abc]]` with tokens `[[`, `\|`, `]]` is a 300-second timer labelled abc. |
| TimeExpression.ParseBacktracks | js/main.js:22 | With a suffix that starts with a letter, the greedy label gives back characters: `[01:00\|xaya]` with suffix `a]` yields label `xay`. |
| TimeExpression.ClockText | js/main.js:41-42 | The text `${f(mm)}:${f(ss)}` always has the shape `DD:DD`. |
| TimeExpression.ClockTextValue | js/main.js:41-42 | The two halves of the clock text read back as minutes mod 100 and seconds mod 100. |
| TimeExpression.Abs | js/main.js:38 | `Math.abs`: the number or its negation, whichever is not negative. |
| TimeExpression.Now | js/main.js:35-51 | `now` always yields a five-character `DD:DD` text. |
| TimeExpression.NowDigits | js/main.js:36-42 | The seconds shown are `\|limit - elapsed\| mod 60`. The minutes shown are the whole minutes mod 100, because the slice keeps the last two digits. |
| TimeExpression.NowReadsBack | js/main.js:35-42 | Below 100 minutes, the shown text denotes exactly `\|limit - elapsed\|` seconds. |
| TimeExpression.NowParsesBack | js/main.js:22-42 | A directive written with the text a timer shows parses back to the time left or overrun, below 100 minutes. |
| TimeExpression.NowColor | js/main.js:44-45 | The overtime colour is attached if and only if `elapsed > limit`. Otherwise the fill is undefined. |
| TimeExpression.NowExamples | js/main.js:35-51 | 65 s shows `01:05`. With a 10 s limit: elapsed 9 shows `00:01` uncoloured, 10 shows `00:00` uncoloured, and 11 shows `00:01` in the overtime colour. |
| Timers.Trunc | js/main.js:83 | `parseInt` of the elapsed seconds is the integer part, truncated toward zero on both sides of 0. |
| Timers.TruncExamples | js/main.js:83 | 5.4 and 5.9 truncate to 5. -0.5 truncates to 0 and -1.5 to -1. |
| Timers.Element | js/main.js:67-75 | A text node: its markup, its fill and the `m2timer` object holding its markup from before any timer wrote to it. |
| Timers.Element.Original | js/main.js:68-70 | The markup a Timer parses: the cached one when there is a cache, else the current one. The Timer constructor's contract states how it is used. |
| Timers.Timer.Enabled | js/main.js:59-61 | `get enabled()`: the directive's `ok`. It has no contract of its own; `Sessions.BuiltParsed` and `Sessions.Session.Valid` rely on it. |
| Timers.Timer.Label | js/main.js:63-65 | `get label()`: the directive's label. It has no contract of its own; `Sessions.Seeded` is keyed by it through `Sessions.LabelsOf`. |
| Timers.Timer.constructor | js/main.js:67-80 | On first sight the element's markup is cached and parsed. With a cache, the cache is parsed and left as it is. Markup and fill are untouched, and the last elapsed value is -1. |
| Timers.Timer.Update | js/main.js:82-93 | With the truncated value equal to the last one, nothing is written. Otherwise the value is recorded and the element shows `now` of it. The cache is never touched, and a shown countdown stays shown. |
| Timers.FirstUpdateWrites | js/main.js:79-93 | A new timer's first update with a time of 0 or more writes the countdown, because the last value starts at -1. |
| Timers.UpdateTwice | js/main.js:82-93 | Two updates within the same whole second act as one: the timer holds that second, and the element is rewritten with its countdown if the second is new and left exactly as it was otherwise. The cache is untouched. |
| Timers.RebuildKeepsExpression | js/main.js:67-80 | A second Timer built on an element after the first one has rewritten it parses the same original markup, so it gets the same directive. |
| Sessions.Seeded | js/main.js:117-123 | Seeding adds exactly the labels of the timers as keys. Known labels keep their start, and new ones start at `now`, so the first-seen start wins. |
| Sessions.SeededKnown | js/main.js:117-123 | Seeding labels that are all known leaves the map unchanged. |
| Sessions.SeededAgain | js/main.js:104-123 | Rebuilding the same timers later keeps every recorded start. |
| Sessions.SeededTickZero | js/main.js:121-131 | A tick at the instant of the rebuild gives 0 elapsed seconds for every newly seeded label. |
| Sessions.SeededAsWritten | js/main.js:117-123 | With `label in {}` on a plain object, a label that names an inherited property is never given a start. Every other new label is added with the start `now`, and existing entries keep their values. |
| Sessions.InheritedLabelParses | js/main.js:22-32 | `[[05:00\|toString]]` is an enabled directive with label `toString`. |
| Sessions.InheritedLabelNotSeeded | js/main.js:118-121 | As written, `toString` gets no start time. The corrected seeding records it at `now`. |
| Sessions.SeededAgrees | js/main.js:118 | For labels that are not inherited keys, the as-written seeding and the corrected one agree. |
| Sessions.PositionsSound | js/main.js:110-115 | The filter keeps only positions whose entry holds, in ascending order. |
| Sessions.PositionsComplete | js/main.js:110-115 | The filter keeps every position whose entry holds. |
| Sessions.Positions | js/main.js:110-115 | The filter of the first loop: the positions, in order, of the entries that hold. `Sessions.PositionsSound` and `Sessions.PositionsComplete` state it. |
| Sessions.Parses | js/main.js:111 | The directive each text parses to, one per text; `Sessions.ParsesAt` states entry by entry. |
| Sessions.EnabledIndices | js/main.js:110-115 | The positions of the texts whose directive parses; `Sessions.EnabledIndicesCorrect` states it. |
| Sessions.ParsesAt | js/main.js:111 | The directive listed for text j is the parse of text j. |
| Sessions.EnabledIndicesCorrect | js/main.js:110-115 | A text's position is kept if and only if its directive parses, and the kept positions ascend. |
| Sessions.ElapsedSeconds | js/main.js:130-132 | `parseInt((now - start) / 1000)` is the integer quotient by 1000, rounded toward zero for either sign. |
| Sessions.BuiltParsed | js/main.js:110-115 | Each timer built sits on the element at its kept position, holds the parse of that element's original text, and is enabled. |
| Sessions.BuiltEnabled | js/main.js:110-115 | All timers kept are enabled. On distinct elements, no two of them share an element. |
| Sessions.BuildOne | js/main.js:111-114 | One step of the first loop: a timer on the next element, kept when enabled. The loop's invariant is preserved, and the timer it keeps is newly allocated. |
| Sessions.BuildTimers | js/main.js:110-115 | The timers are exactly the enabled timers of the elements, in element order, each holding its element's original directive. Every timer is newly allocated and has written nothing yet. Every element gets its cache, and nothing else of the elements changes. |
| Sessions.Seed | js/main.js:117-123 | The second loop computes exactly the seeding of the timers' labels. |
| Sessions.Session.constructor | js/main.js:96-98 | A new session has no timers and no start times. |
| Sessions.Session.InitMonitors | js/main.js:100-102 | `initMonitors` empties the start times and keeps the timers. |
| Sessions.Session.InitTimers | js/main.js:104-124 | The timers are exactly the enabled timers of the elements, in order. With the corrected `in` test, the start times gain exactly the new labels at `now`, and existing entries are unchanged. The timers are newly allocated, so a caller may update them next. On distinct elements every timer's label has a start afterwards. |
| Sessions.Session.UpdateTimers | js/main.js:126-134 | Every timer receives the truncated seconds since the start of its label. The timers, the start times and the session invariant stay as they were. |
| Sessions.SlideUpdate | js/main.js:185-189 | A rebuild followed at once by a tick. The timers are exactly the enabled timers of the elements, in order, and each shows its countdown. Every timer holds the seconds since its label's start: a label first seen at this rebuild reads 0, and a label already known counts from the start recorded before. Every element keeps its original markup in its cache, and an element without a directive is left as it was. |

## Left out

- The four tokens are parameters (`Tokens`). `chrome.i18n.getMessage` (js/main.js:16-20) is a call into the browser.
- The tokens are taken as literal text. The source splices them into `RegExp` unescaped, so metacharacters in a localised message would change the pattern; that is not modelled.
- The DOM queries for the presenter iframe and its `<text>` nodes (js/main.js:107-108) become the `elems` parameter of `InitTimers`.
- `Date.now()` (js/main.js:121, 127) becomes the `now` parameter. `initTimers` takes one `now` for all the labels it seeds. The source calls `Date.now()` once per new label, within a few milliseconds.
- The `app` driver (js/main.js:137-196) is event plumbing and is not part of this model: the `MutationObserver`, `setInterval(…, 100)` and the enable, disable and time-update callbacks. Only `onPresenterSlideUpdate` (js/main.js:185-189) is modelled, as `Sessions.SlideUpdate`. The undeclared `session` passed at line 148 is part of that driver.
- `style.fill = undefined` (js/main.js:92) is `fill := None`. What the browser then renders is not modelled.
- `Timers.Element`: `innerHTML` is plain text. Markup parsing and entity escaping by the browser are not modelled.
- Strings are sequences of characters. The UTF-16 code units of JavaScript are not distinguished from characters.
- `Timers.Trunc`: the elapsed time is an exact real, not a double, and `parseInt` is taken as truncation. `parseInt` converts its argument with `String` first, so numbers printed in exponent form (`5e-7`, `1e21`) read as their leading digits (5, 1), which the model does not follow. `updateTimers` passes milliseconds divided by 1000, which never print that way.
- `Text.Decimal` covers only non-negative integers. `String(x)` switches to exponent form from 10^21 on, which the model does not follow; minutes and seconds never come near it.
- `Sessions.Session.UpdateTimers`: with the as-written seeding, a label named after an inherited property reads a function as its start and renders `aN:aN`. The model uses the corrected seeding, so every label has a start; see Findings.
- `Sessions.Session.InitTimers`: seeds with the corrected `in` test (`Sessions.Seeded`), under which every new label gets `now`. As written, `label in {}` also sees the keys inherited from `Object.prototype`; `Sessions.SeededAsWritten` models that and the Findings row shows what it breaks.
- `Sessions.Session.InitTimers`: ensures `Valid()` only when the elements are pairwise distinct. A node list never repeats a node, and repeating one would give two timers on one element.
- `TimeExpression.Now`: the overtime test `Math.sign(left) < 0` is written as `left < 0`. The two agree on integers, and `NaN` does not arise in this model.
- `TimeExpression.NowReadsBack`: stated only below 100 minutes. Above that the slice drops the hundreds of minutes, which `TimeExpression.NowDigits` states.

## Findings

| source | as written | input that shows it | evidently intended | confidence | as-written member | corrected member |
|---|---|---|---|---|---|---|
| js/main.js:118 | `timer.label in this.#monitors` on the plain object `{}`, which also sees the properties inherited from `Object.prototype` | a slide text `[[05:00\|toString]]` (tokens `[[`, `\|`, `]]`): the label `toString` counts as known, so no start is recorded. `updateTimers` then subtracts the inherited function and the timer renders `aN:aN` | a label gets a start time unless an earlier timer recorded one | not executed | Sessions.SeededAsWritten, Sessions.InheritedLabelNotSeeded | Sessions.Seeded, Sessions.SeededAgrees |
