# text-flashy-reveal, modelled in Dafny

`textFlashyReveal(element, options)` is a browser text effect. It
splits an element's text into one span per character, hides the spans, and
reveals them in random order once the element scrolls into view. Each
character flashes from an accent colour, through a lighter transition colour,
to its final colour. This project models the deterministic core of that
function and proves what it does. The timers, the random draws and the
visibility notifications that drive it become inputs.

- `color.dfy` (module `Color`): `lightenColor`. It parses `#rrggbb`,
  blends each channel toward white with round-half-up, and formats it back
  as lower-case hex.
- `config.dfy` (module `Config`): the options spread over the defaults,
  the derived transition colour, and the missing-element error.
- `units.dfy` (module `Units`): a character span abstracted to its
  character, opacity and colour; one timer callback (`Step`), a sequence
  of them (`Apply`), and `reset` (`ResetAll`).
- `shuffle.dfy` (module `Shuffling`): `shuffle` as decorate / stable sort
  by key / undecorate, with the keys (the random draws) as a parameter.
- `sequencer.dfy` (module `Sequencer`): `animate` and `highlightOnly` as a
  schedule of three timers per unit, and what every valid firing order of
  that schedule leaves behind.
- `segment.dfy` (module `Segment`): what `splitText` produces from the
  list of nodes the tree walker visits: the element's children (spacers,
  glyphs, cloned line breaks) and the animatable characters.
- `visibility.dfy` (module `Visibility`): the observer callback's decision
  for each entry, as a function of `hasAnimated`, `replay`,
  `revealOnReplay` and `isIntersecting`.
- `reveal.dfy` (module `Reveal`): the closure state as a class
  `RevealEffect`. It holds the element's children, the animatable units and
  `hasAnimated`. `SplitText`, `Reset`, `Fire`/`Deliver` and
  `OnEntry`/`OnEntries` (the observer callback) update that state in place.
  `Animate` and `HighlightOnly` return the timers they schedule. The module
  also has the entry point `TextFlashyReveal`.

A glyph child names its unit by index. The element's children and
`animatableChars` hold the same span objects in the source, and this index
is how the model shares them.

Timers: `animate` gives the unit at shuffled position `i` three nested
timers. They are due at `i * revealDelay`, then `flashDelay` after the
first one runs, then `colorDelay` after the second one runs. The model
treats a negative delay as 0, as `setTimeout` does (`Sequencer.Clamp`). A
*delivery* is any order in which the browser may fire these timers:
- each timer fires exactly once;
- the timers of one unit fire in nesting order: stage 1, then 2, then 3.

Nothing else is assumed about the order. A nested timer is created inside
its parent's callback, and its delay counts from when that callback actually
ran. If the page is busy, a unit's later stages can therefore fire after
timers that were planned later.

The end-state theorems hold for every delivery and every shuffle. With
`animate`, every unit ends shown in the final colour. With
`highlightOnly`, every unit ends in the final colour and its opacity is
unchanged.

`lightenColor` rounds with `Math.round`, so 127.5 becomes 128. So
`#000000` lightened by 50% is `#808080` (`Color.LightenBlackByHalf`).

The walker visits every node below the root, so the text of an element
nested inside the root is expanded several times. Each enclosing element
below the root expands it once, from its untrimmed `textContent`, and the
text node expands it once more after trimming. For example,
`<b><i>x</i></b>` gives three units for `x`. The model keeps this behaviour.
`Segment.NestedTextExpandedTwice` proves the case of one element holding
one already-trimmed text node.

## Model

| member | source | states |
|---|---|---|
| `Color.ParsePair` | text-flashy-reveal.js:26-28 | `parseInt(_, 16)` of two hex digits: the value's high nibble is the first digit's value and its low nibble the second's |
| `Color.ToHex` | text-flashy-reveal.js:39 | `toHex` gives exactly two lower-case hex digits, and `parseInt(_, 16)` of them is the channel again |
| `Color.ToHexOfParsePair` | text-flashy-reveal.js:26-40 | parsing two hex digits and formatting the value gives the same digits, in lower case |
| `Color.FirstIndex` | text-flashy-reveal.js:23 | `hex.replace("#", "")` removes the first `#`: the index found holds `#` and no earlier position does |
| `Color.RemoveFirst` | text-flashy-reveal.js:23 | `hex.replace("#", "")` is one character shorter when `#` occurs, strips a leading `#`, and changes nothing when there is no `#` |
| `Color.RemoveFirstContents` | text-flashy-reveal.js:23 | when `#` occurs, the character removed is the first `#` and the others keep their order |
| `Color.Channels` | text-flashy-reveal.js:23-28 | the three channels parsed from the six digits after the `#`: formatting each channel gives its two digits back in lower case |
| `Color.Blend` | text-flashy-reveal.js:31-32 | `lighten` never darkens (`c <= r`); `r` is within half a unit of the exact blend `c + (255-c)*p/100`, with halves rounded up |
| `Color.BlendMonotone` | text-flashy-reveal.js:31-32 | a larger percentage never gives a darker channel |
| `Color.BlendEndpoints` | text-flashy-reveal.js:31-32 | 0% keeps the channel, 100% gives 255, and 255 stays 255 |
| `Color.LightenColor` | text-flashy-reveal.js:22-41 | the result is `#` followed by six lower-case hex digits |
| `Color.LightenColorRoundTrip` | text-flashy-reveal.js:22-41 | the result is well-formed, and parsing it gives exactly the three blended channels of the input |
| `Color.LightenNeverDarkens` | text-flashy-reveal.js:31-36 | each output channel is at least the input channel |
| `Color.LightenColorEndpoints` | text-flashy-reveal.js:31-40 | 0% keeps every channel; 100% gives `#ffffff` |
| `Color.LightenWhite` | text-flashy-reveal.js:22-41 | `#ffffff` is a fixed point for every percentage |
| `Color.DefaultTransitionColor` | text-flashy-reveal.js:57-59 | the default accent `#ff7a00` lightened by 60% is `#ffca99` |
| `Color.LightenBlackByHalf` | text-flashy-reveal.js:31-32 | `#000000` lightened by 50% is `#808080` (127.5 rounds up) |
| `Config.Truthy` | text-flashy-reveal.js:57 | the `!options.transitionColor` test: a missing or empty transition colour is falsy, any other string truthy |
| `Config.Resolve` | text-flashy-reveal.js:43-59 | every supplied option replaces its default and every other field takes its documented default; the transition colour is the caller's when truthy, else the accent lightened by 60% |
| `Config.ResolveDefaults` | text-flashy-reveal.js:43-59 | with no options, the configuration is the documented defaults with transition colour `#ffca99` |
| `Config.ResolveIsFixedPoint` | text-flashy-reveal.js:43-59 | a resolved configuration has a truthy transition colour, so resolving it again as options changes nothing |
| `Config.Start` | text-flashy-reveal.js:17-19 | it fails exactly when the element is missing, with the documented message; otherwise it yields the resolved configuration |
| `Units.Perform` | text-flashy-reveal.js:154-160 | one style write: `opacity = "1"` changes only the opacity, a colour write changes only the colour; the character stays |
| `Units.Step` | text-flashy-reveal.js:153-160 | one callback changes only its own unit (opacity to 1, or colour); every other unit and the length stay the same |
| `Units.Apply` | text-flashy-reveal.js:147-165 | firing callbacks keeps the number of units and every unit's character |
| `Units.ApplyAppend` | text-flashy-reveal.js:147-165 | firing `a` and then `b` is the same as firing `a + b` |
| `Units.ApplyUntouched` | text-flashy-reveal.js:147-185 | callbacks for other units leave a unit exactly as it was |
| `Units.ApplyKeepsShown` | text-flashy-reveal.js:147-185 | no callback hides a unit: once opacity is 1 it stays 1 |
| `Units.ApplyPaintOnly` | text-flashy-reveal.js:167-185 | callbacks that only paint leave every opacity unchanged |
| `Units.ShownFrom` | text-flashy-reveal.js:153-154 | a unit shown by some callback is still shown after all callbacks |
| `Units.LastPaintWins` | text-flashy-reveal.js:157-160 | a unit ends with the colour written by the last callback that touches it |
| `Units.Hidden` | text-flashy-reveal.js:193-194 | `reset` gives a span opacity 0 and the accent colour and keeps its character |
| `Units.ResetAll` | text-flashy-reveal.js:187-205 | `reset` keeps the number, order and characters of the units; every unit ends at opacity 0 and the accent colour |
| `Units.ResetIdempotent` | text-flashy-reveal.js:187-205 | resetting twice is the same as resetting once |
| `Shuffling.Decorate` | text-flashy-reveal.js:142 | each item is paired with its own random draw, in order; dropping the draws gives the items back |
| `Shuffling.Insert` | text-flashy-reveal.js:143 | one insertion step of the sort adds exactly one entry |
| `Shuffling.InsertSorted` | text-flashy-reveal.js:143 | inserting into a key-sorted list keeps it sorted |
| `Shuffling.InsertItems` | text-flashy-reveal.js:142-144 | inserting adds exactly the inserted item to the multiset of items |
| `Shuffling.SortByKey` | text-flashy-reveal.js:143 | the sort keeps the number of entries |
| `Shuffling.SortByKeySorted` | text-flashy-reveal.js:143 | the sort orders the decorated items by key |
| `Shuffling.SortByKeyItems` | text-flashy-reveal.js:142-144 | the sort keeps the multiset of items |
| `Shuffling.Undecorate` | text-flashy-reveal.js:144 | `.map((o) => o.item)` keeps the order and drops the keys |
| `Shuffling.Shuffle` | text-flashy-reveal.js:140-145 | `shuffle` returns a permutation of its input: same length, same multiset |
| `Shuffling.PermutationKeepsDistinct` | text-flashy-reveal.js:140-145 | a permutation of a list without repetitions has none either |
| `Shuffling.ShuffledSlots` | text-flashy-reveal.js:140-145 | shuffling the unit indices `0..n-1` yields each index exactly once, and nothing else |
| `Sequencer.Clamp` | text-flashy-reveal.js:153-163 | the delay `setTimeout` uses is the larger of the given delay and 0 |
| `Sequencer.FirstAction` | text-flashy-reveal.js:153-174 | stage 1 shows the unit exactly under `animate` (:154); under `highlightOnly` it repaints it with the accent colour (:174) |
| `Sequencer.Chain` | text-flashy-reveal.js:153-163 | the three nested timers of one unit: all for that unit, stages 1, 2, 3, each due no earlier than its parent, doing the first action, the transition colour, then the final colour |
| `Sequencer.Schedule` | text-flashy-reveal.js:150-164 | the schedule has three timers per shuffled unit, and under `highlightOnly` every one of them only paints |
| `Sequencer.ScheduleAt` | text-flashy-reveal.js:150-164 | timer `s` of shuffled position `j` is entry `3j + s` of the schedule |
| `Sequencer.ScheduleTimes` | text-flashy-reveal.js:150-164 | with non-negative delays, position `j` gets its first action at `j*revealDelay`, the transition colour `flashDelay` later, and the final colour `colorDelay` after that |
| `Sequencer.ScheduleMember` | text-flashy-reveal.js:150-164 | every scheduled timer is stage `s` of some position's chain |
| `Sequencer.Delivery` | text-flashy-reveal.js:153-163 | an order in which the nested timers can fire: each scheduled timer exactly once (so as many timers as scheduled, all of them scheduled ones), and one unit's stages in nesting order |
| `Sequencer.DeliveryTouchesOnly` | text-flashy-reveal.js:147-185 | every delivered timer belongs to a scheduled chain, so it touches only a shuffled unit |
| `Sequencer.DeliveredAt` | text-flashy-reveal.js:147-185 | every scheduled timer fires at some point of a delivery |
| `Sequencer.FinalTimerIsLast` | text-flashy-reveal.js:153-163 | nothing touches a unit after its final-colour timer has fired, because that timer is the last stage of the unit's nested chain |
| `Sequencer.FinalColorWins` | text-flashy-reveal.js:147-185 | after a delivery, every scheduled unit has the final colour |
| `Sequencer.UnscheduledUntouched` | text-flashy-reveal.js:147-185 | units outside the schedule end exactly as they started |
| `Sequencer.RevealedUnit` | text-flashy-reveal.js:147-165 | under `animate`, a scheduled unit ends shown (opacity 1) in the final colour, its character unchanged |
| `Sequencer.RevealEndState` | text-flashy-reveal.js:147-165 | after `animate` and any delivery: scheduled units are shown in the final colour and all others are untouched |
| `Sequencer.HighlightPaintsOnly` | text-flashy-reveal.js:167-185 | `highlightOnly` never writes opacity |
| `Sequencer.HighlightEndState` | text-flashy-reveal.js:167-185 | after `highlightOnly` and any delivery: scheduled units keep their opacity and end in the final colour; all others are untouched |
| `Sequencer.ShuffledOrder` | text-flashy-reveal.js:140-150 | the shuffled order is distinct, names only existing units, and names every unit |
| `Sequencer.AnimateCompletes` | text-flashy-reveal.js:140-165 | for any random draws and any delivery, `animate` leaves every unit shown in the final colour |
| `Sequencer.HighlightCompletes` | text-flashy-reveal.js:140-185 | for any random draws and any delivery, `highlightOnly` leaves every unit in the final colour with its opacity unchanged |
| `Segment.IsTrimmed` | text-flashy-reveal.js:110 | the code points `trim` removes include space, tab, line feed and carriage return, and no letter or digit |
| `Segment.Trim` | text-flashy-reveal.js:110 | `trim` gives an infix that neither starts nor ends with white space, and everything cut off is white space |
| `Segment.TrimAllSpace` | text-flashy-reveal.js:110-111 | text made only of white space trims to the empty string, so its node is skipped |
| `Segment.TrimUntrimmed` | text-flashy-reveal.js:110 | text without leading or trailing white space is unchanged |
| `Segment.Expanded` | text-flashy-reveal.js:80-113 | the characters expanded for one node: none for a `BR` or another node type, the whole `textContent` for any other element, and `Trim` of the data (`.trim()`) for a text node |
| `Segment.NodeTokens` | text-flashy-reveal.js:80-137 | a `BR` contributes its clone, any other node one character token per expanded character, in order |
| `Segment.Tokens` | text-flashy-reveal.js:80-137 | the element's children node after node; every cloned break is a clone of a visited `BR` |
| `Segment.NonSpace` | text-flashy-reveal.js:85-106 | no `" "` ever becomes an animatable unit |
| `Segment.Glyphs` | text-flashy-reveal.js:80-137 | the animatable characters never include `" "` |
| `Segment.GlyphsSnoc` | text-flashy-reveal.js:80-137 | each visited node adds its own tokens and its non-space characters, in visit order |
| `Segment.BreakAddsNoUnit` | text-flashy-reveal.js:82-83 | a `BR` adds exactly one cloned break and no unit |
| `Segment.BlankTextSkipped` | text-flashy-reveal.js:109-111 | a white-space-only text node adds nothing |
| `Segment.NestedTextExpandedTwice` | text-flashy-reveal.js:68-137 | an inline element followed by its own text node contributes its characters twice |
| `Segment.TokenOf` | text-flashy-reveal.js:83-94 | what one child shows: a spacer `" "` (:88), a glyph its unit's character (:94), a clone the `BR` it copies (:83); only a clone is a line break |
| `Segment.Render` | text-flashy-reveal.js:80-137 | the element's text, one token per child in child order |
| `Segment.PiecesMatchTokens` | text-flashy-reveal.js:80-137 | in a laid-out element, a child is a spacer exactly where the text has `" "`, a clone exactly where it has a `BR`, and a glyph exactly where it has any other character |
| `Segment.RenderSameChars` | text-flashy-reveal.js:187-205 | what the children show depends only on the units' characters, so restyling units never changes the text |
| `Visibility.React` | text-flashy-reveal.js:210-226 | an entry fully reveals iff it is visible and (not yet animated, or `replay` and `revealOnReplay`); only highlights iff visible, animated, `replay` and not `revealOnReplay`; resets iff invisible, animated, `replay` and `revealOnReplay` |
| `Visibility.After` | text-flashy-reveal.js:212-214 | `hasAnimated` becomes true at the first visible entry and is never cleared |
| `Visibility.Reactions` | text-flashy-reveal.js:209-228 | a batch of entries gets one reaction per entry |
| `Visibility.ReactionsAt` | text-flashy-reveal.js:209-228 | the reaction to entry `i` is the single-entry reaction with `hasAnimated` set iff it started set or an earlier entry was visible |
| `Visibility.ReactionsAppend` | text-flashy-reveal.js:209-228 | two batches react like one batch holding both |
| `Visibility.OneShot` | text-flashy-reveal.js:210-226 | without `replay`: a reveal happens only at the first visible entry, if the text has not animated, and nothing else ever happens |
| `Visibility.ReplayReveals` | text-flashy-reveal.js:215-226 | with `replay` and `revealOnReplay`: every visible entry reveals, and every invisible entry after a reveal resets |
| `Visibility.ReplayHighlights` | text-flashy-reveal.js:215-226 | with `replay` but not `revealOnReplay`: the first visible entry reveals, later visible ones only highlight, and nothing ever resets |
| `Visibility.NothingBeforeFirstView` | text-flashy-reveal.js:210-226 | before the first visible entry nothing happens, whatever the settings |
| `Reveal.Planned` | text-flashy-reveal.js:211-226 | a reveal or a highlight schedules three timers per unit, a highlight's timers only paint, and an immediate reset or no reaction schedules none |
| `Reveal.NewUnits` | text-flashy-reveal.js:92-105 | the units created for a text are its characters, each at opacity 0 and the accent colour |
| `Reveal.RevealEffect.AppendSpacer` | text-flashy-reveal.js:86-91 | appends one child showing `" "` and no unit |
| `Reveal.RevealEffect.AppendBreak` | text-flashy-reveal.js:82-83 | appends one cloned line break and no unit |
| `Reveal.RevealEffect.AppendGlyph` | text-flashy-reveal.js:92-105 | appends one child and one hidden, accent-coloured unit; the child names the new unit |
| `Reveal.RevealEffect.AppendChar` | text-flashy-reveal.js:85-106 | one character adds one child showing it, plus a unit unless it is `" "` |
| `Reveal.RevealEffect.Expand` | text-flashy-reveal.js:85-134 | the children grow by the text's characters, and the units grow by its non-space characters, hidden and accent-coloured |
| `Reveal.RevealEffect.SplitText` | text-flashy-reveal.js:65-138 | the children show exactly the visited nodes' tokens, and the units are exactly their non-space characters in visit order, all hidden and accent-coloured |
| `Reveal.RevealEffect.Reset` | text-flashy-reveal.js:187-205 | the units become `ResetAll` of the old units; children and `hasAnimated` are unchanged |
| `Reveal.RevealEffect.Fire` | text-flashy-reveal.js:153-160 | one timer callback updates the units as `Step` says |
| `Reveal.RevealEffect.Deliver` | text-flashy-reveal.js:147-165 | firing timers in order updates the units as `Apply` says |
| `Reveal.RevealEffect.Stagger` | text-flashy-reveal.js:150-164 | the `forEach` creates exactly the schedule of the shuffled units |
| `Reveal.RevealEffect.Animate` | text-flashy-reveal.js:147-165 | `animate` schedules the reveal timers of the shuffled units |
| `Reveal.RevealEffect.HighlightOnly` | text-flashy-reveal.js:167-185 | `highlightOnly` schedules the recolouring timers of the shuffled units |
| `Reveal.RevealEffect.OnEntry` | text-flashy-reveal.js:210-226 | one entry schedules what `React` calls for, hides the units exactly on an immediate reset, sets `hasAnimated` on the first visible entry, and keeps the layout invariant |
| `Reveal.RevealEffect.OnEntries` | text-flashy-reveal.js:209-228 | a batch schedules entry by entry what `Reactions` calls for; afterwards `hasAnimated` is set iff it was or some entry was visible, and the units are reset iff some entry reset them |
| `Reveal.RevealEffect.constructor` | text-flashy-reveal.js:235-237 | set-up splits the text and hides it: the layout invariant holds, every unit is hidden and accent-coloured, and nothing has animated |
| `Reveal.TextFlashyReveal` | text-flashy-reveal.js:17-238 | fails exactly when the element is missing, with the documented message; otherwise gives a fresh effect with the resolved configuration, split and hidden |

## Left out

- DOM work is not modelled: creating and appending elements, `innerHTML`, `setAttribute`, `cloneNode` and inline styles other than opacity and colour. A span is its character, opacity and colour. A child of the element is a spacer, a glyph naming a unit, or a cloned `BR`.
- The tree walk (`createTreeWalker` with `SHOW_ALL`) is an input: the list of visited nodes, each an element with its tag and `textContent`, a text node, or another node.
- `element.style.whiteSpace = "pre"`, the spacer width, and the CSS `transition` strings are not modelled. The `immediate` argument of `reset` and the `offsetHeight` reflow only affect the transition, so `Reveal.RevealEffect.Reset` has no such argument.
- `setTimeout` and real time are not modelled. `Animate` and `HighlightOnly` return the timers they schedule, and `Deliver` fires timers in a given order. Timers left over from an earlier `animate` that fire after a later `reset` or `animate` (rapid scrolling in and out) are not modelled.
- `Math.random()` is not modelled. Its draws are a parameter of `Shuffle`, so every proved statement holds for every draw. The uniformity of the shuffle is not stated.
- The sort is modelled as a stable insertion sort by key, because the comparator `a.r - b.r` sorts by key.
- `IntersectionObserver` is not modelled: creating it, the `threshold` geometry, `observer.observe`, and the returned disposer that disconnects it. `threshold` is only resolved. The observer's entries are the input of `OnEntries`, as `isIntersecting` flags.
- Floating point is not modelled. `Math.round(c + (255 - c) * (percent / 100))` is computed in exact integers as `(100c + (255-c)p + 50) / 100`.
- `Color.LightenColor`: requires six hex digits after the first `#` is removed, and a percentage in 0..100. With a malformed accent colour the source produces `NaN` channels. Only 60 (and the unused default of 50) is ever passed as the percentage.
- `Config.Resolve`: options are either given or left out. An option explicitly set to `undefined`, or holding a value of the wrong type, is not modelled. `replay` and `revealOnReplay` are booleans.
- Characters are Unicode scalar values. `for...of` over a string holding a lone surrogate is not modelled.
- `setTimeout` converts its delay to a 32-bit integer. It drops fractions, and a delay above 2^31 - 1 ms overflows, so the timer fires at once. `Sequencer.Clamp` only models the treatment of negative delays. `revealDelay`, `flashDelay` and `colorDelay` are integers in the model, so a fractional delay such as `12.5` cannot be expressed. The delivery order does not depend on the delays, so the end-state theorems are unaffected.
- `textFlashyReveal(element, null)` is not modelled. Spreading `null` over the defaults succeeds, but reading `options.transitionColor` afterwards throws a `TypeError`. In the model, options are always a record of optional fields.
- A colour is modelled as the string last assigned to `style.color`. A browser ignores a value that does not parse as a CSS colour, so with an unparsable `finalColor` or `transitionColor` the span keeps its previous colour. That case is not modelled, and `Sequencer.FinalColorWins`, `Sequencer.AnimateCompletes` and `Sequencer.HighlightCompletes` assume a valid colour string.
