# Pattern Memory Test, modelled in Dafny

The pattern tester helps someone who has forgotten their Android unlock
pattern. The user draws candidate patterns on a 3×3 grid of dots and marks
each one as "not my pattern" or "my pattern". The tester remembers the
rejected patterns, so that drawing one again is reported as a duplicate.

The model has two parts.

- **Pattern engine** (`engine.dfy`, module `PatternEngine`; `key.dfy`, module `PatternKey`).
  These are pure functions and lemmas:
  - `MiddleDot` finds the "skipped" dot between two dots.
  - `AddDot` is the append rule: it auto-includes the skipped dot and never repeats a dot.
  - `Draw` folds `AddDot` over a whole stroke.
  - `Encode` gives a pattern's key (its dots in decimal joined by `-`).
  - `Decode` inverts `Encode`, which proves that different patterns never share a key.
- **Session controller** (`session.dfy`, module `Session`). This is the class
  `PatternTester`, with the component's state as fields:
  - `currentPattern`, `isDrawing`, `awaitingValidation` and `validationResult`;
  - the counters `tested` and `invalid`;
  - the set `invalidPatterns`.

  There is one method per handler: pointer start, move and end; "No" and "Yes";
  reset; background click. The constructor `Load` models loading the saved key
  list. The predicate `Valid()` is the invariant every handler keeps:
  - `invalid <= tested`;
  - the current pattern has no repeated dot and no entry above 9;
  - no pattern awaits a judgment while a stroke is in progress.

  Every handler except "No" and reset leaves the rejected set unchanged. "No"
  only adds to it, and reset empties it.

The middle-dot formulas follow the program exactly, and they do not match
Android's geometry for every stroke. The vertical case computes
`row(a) + 1 + 3·col(a)`, with row and column swapped. The horizontal case
computes `3·row(a) + col(a) + 1`, which is right only for left-to-right strokes.
So 0→6 auto-includes 1, 2→0 includes 3, and 8→2 and 8→6 include 9, which is not
a dot on the grid. Android's rule takes the geometric midpoint; the model follows
the code and gives the midpoint separately, as `GridMiddle`.
`MiddleDotAgreesWithGrid` states exactly which strokes the two agree on:
diagonals, left-to-right rows, the strokes 1→7 and 6→0, and every stroke with no
gap, where both give none. Because the middle can be 9, patterns range over
0..9, not 0..8, and a pattern can have ten entries, one more than the grid has
dots: the stroke 8, 2, 1, 0, 3, 4, 5, 7, 6 builds [8,9,2,1,0,3,4,5,7,6]
(`OffGridStep2` to `OffGridStep9`, one lemma per step). The no-repeat property
still holds, because the middle dot is never the dot being added. The
remaining estimate starts from 389112 patterns (`TotalPatterns`,
app/page.tsx:13).

In these other places the code's behaviour is modelled as written:

- Loading sets both counters to the length of the saved list, not to the size of the set built from it.
- A background click clears the display even in the middle of a stroke, because the handler does not look at `isDrawing`.
- Starting a new stroke does not cancel a pending auto-dismiss.
  - A dismissal that fires later clears the pattern and the verdict but not `awaitingValidation`.
  - After that, "No" records the key of the empty pattern, which is `""`.
  - This is why "a pending judgment has at least 4 dots and an unrecorded key" is stated as a postcondition of `HandleEnd`, not as a class invariant.

## Model

| member | source | states |
|---|---|---|
| `PatternEngine.MiddleDot` | app/page.tsx:62-79 | a middle exists exactly for a vertical, horizontal or diagonal two-step gap; a diagonal gap gives the centre 4; the middle is never the target dot; from dots 0..9 to a grid dot it stays within 0..9 |
| `PatternEngine.MiddleDotDetectsGaps` | app/page.tsx:62-79 | on the grid, a middle is found exactly when the geometric midpoint of the two dots is a dot |
| `PatternEngine.MiddleDotAgreesWithGrid` | app/page.tsx:69-77 | the program's middle equals the geometric one exactly when the stroke is not a right-to-left row and not a vertical stroke other than 1→7 and 6→0 |
| `PatternEngine.MiddleDotVertical` | app/page.tsx:69-71 | a vertical gap's geometric middle is the dot between, a + 3 or a − 3; the program's middle equals it exactly for 1→7 and 6→0 |
| `PatternEngine.MiddleDotLeftToRight` | app/page.tsx:72-74 | a left-to-right row gap from a gives a + 1, the geometric middle |
| `PatternEngine.MiddleDotDiagonal` | app/page.tsx:75-77 | a diagonal gap gives the centre 4, which is also the geometric middle |
| `PatternEngine.MiddleDotRightToLeft` | app/page.tsx:72-74 | a right-to-left row gap from a gives a + 1, where the geometric middle is a − 1 |
| `PatternEngine.MiddleDotExamples` | app/page.tsx:62-79 | 0→2 gives 1, 0→8 gives 4, 0→1 gives none, and 0→6 gives 1 where the geometric middle is 3 |
| `PatternEngine.MiddleDotBackwardExamples` | app/page.tsx:69-74 | 2→0 gives 3, and 8→2 and 8→6 give 9, which is not a grid dot |
| `PatternEngine.OffGridStep2` | app/page.tsx:82-99 | adding 2 to [8] gives [8,9,2]: the off-grid 9 enters the pattern |
| `PatternEngine.OffGridStep9` | app/page.tsx:82-99 | the last step of the stroke 8, 2, 1, 0, 3, 4, 5, 7, 6 gives [8,9,2,1,0,3,4,5,7,6], ten entries, one more than the grid has dots |
| `PatternEngine.AddDot` | app/page.tsx:82-99 | a dot already present leaves the pattern unchanged; otherwise the old pattern is a prefix, the new dot is last and the length grows by 1 or 2; it grows by 2 exactly when a middle exists and is unused, and the inserted entry is that middle |
| `PatternEngine.AddDotKeepsDistinct` | app/page.tsx:82-99 | a pattern without repeats stays without repeats, and one within 0..9 stays within 0..9 when a grid dot is added |
| `PatternEngine.AddDotInserts` | app/page.tsx:88-97 | a new dot whose middle from the last dot exists and is unused is appended after that middle |
| `PatternEngine.AddDotAppends` | app/page.tsx:88-97 | a new dot with no middle, or a middle already used, or an empty pattern, is appended alone |
| `PatternEngine.AddDotSkipsRow` | app/page.tsx:82-99 | adding 2 to [0] gives [0,1,2] |
| `PatternEngine.AddDotSkipsCentre` | app/page.tsx:82-99 | adding 8 to [0] gives [0,4,8] |
| `PatternEngine.AddDotSkipsColumn` | app/page.tsx:82-99 | adding 6 to [0] gives [0,1,6], not the geometric [0,3,6] |
| `PatternEngine.AddDotAdjacent` | app/page.tsx:82-99 | adding 1 to [0] gives [0,1] |
| `PatternEngine.AddDotMiddleUsed` | app/page.tsx:82-99 | adding 2 to [1,0] gives [1,0,2], because the middle 1 is already used |
| `PatternEngine.AddDotRepeated` | app/page.tsx:83 | adding 0 to [0,1] leaves it unchanged |
| `PatternEngine.DrawDistinct` | app/page.tsx:119-151 | a stroke that starts on a dot and passes over grid dots never repeats a dot and stays within 0..9 |
| `PatternEngine.DrawExtends` | app/page.tsx:136-151 | a stroke only extends the pattern it started from, by at most two entries per dot passed over |
| `PatternEngine.DrawContainsMoves` | app/page.tsx:136-151 | every dot a stroke passes over, and every dot it started with, is in the resulting pattern |
| `PatternKey.NatToString` | app/page.tsx:59 | the numeral of a number is a non-empty string of digits, one digit long exactly for numbers below 10 |
| `PatternKey.NatToStringInverse` | app/page.tsx:59 | reading the numeral back gives the number |
| `PatternKey.Encode` | app/page.tsx:59 | only the empty pattern has the empty key |
| `PatternKey.DecodeEncode` | app/page.tsx:59 | every key decodes back to the pattern it was made from |
| `PatternKey.EncodeInjective` | app/page.tsx:59 | two patterns have the same key if and only if they are equal |
| `PatternKey.EncodeOrderSensitive` | app/page.tsx:59 | the key of [0,1,2] is "0-1-2" and differs from that of [2,1,0] |
| `Session.RejectingMakesDuplicate` | app/page.tsx:160-167 | once the key of a pattern of at least 4 dots is in the rejected set, finishing that pattern again is judged a duplicate |
| `Session.RejectingLeavesOthers` | app/page.tsx:160-172 | adding the key of one pattern to the rejected set never changes how a different pattern is judged |
| `Session.StrokeThroughEdge` | app/page.tsx:82-99 | drawing 0, 1, 2, 5, 8 builds [0,1,2,5,8] step by step with nothing auto-included |
| `Session.DrawStroke` | app/page.tsx:119-151 | pointer down on a dot followed by one move per dot passed over builds exactly `Draw([start], moves)`, the stroke that `DrawDistinct`, `DrawExtends` and `DrawContainsMoves` describe; drawing stays on, nothing awaits a judgment, no verdict is shown, and the set, counters and pending dismissals are unchanged |
| `Session.PatternTester.Load` | app/page.tsx:36-46 | the rejected set is the set of saved keys; both counters are the length of the saved list; nothing is drawn or awaiting |
| `Session.PatternTester.Remaining` | app/page.tsx:296 | the remaining estimate is `TotalPatterns` minus the number of rejected keys: never above 389112, and equal to it exactly when no key is rejected |
| `Session.PatternTester.HandleStart` | app/page.tsx:119-133 | a dot under the pointer starts a new pattern with just that dot, sets drawing, and clears the verdict and any pending judgment; no dot changes nothing; counters and set are untouched |
| `Session.PatternTester.HandleMove` | app/page.tsx:136-151 | nothing changes unless drawing and over a dot; then the pattern becomes AddDot of the old one; the old pattern stays a prefix; everything else is unchanged |
| `Session.PatternTester.HandleEnd` | app/page.tsx:154-176 | a no-op unless drawing; otherwise drawing stops and: too short clears the pattern; a duplicate shows "duplicate" and schedules a dismissal; anything else awaits a judgment, so a pending judgment then has at least 4 dots and a key not in the set; set and counters never change |
| `Session.PatternTester.MarkInvalid` | app/page.tsx:179-193 | callable only while a judgment is pending; adds the current key to the set (the size grows by one only if the key is new); increments both counters; shows "invalid"; schedules a dismissal |
| `Session.PatternTester.MarkValid` | app/page.tsx:196-200 | callable only while a judgment is pending; increments only `tested`; leaves the set unchanged; shows "valid" |
| `Session.PatternTester.ResetAll` | app/page.tsx:203-212 | without confirmation nothing changes; with it the set is empty, both counters are 0, the display is cleared and the remaining estimate is the full 389112 |
| `Session.PatternTester.HandleBackgroundClick` | app/page.tsx:215-222 | clears the pattern, the verdict and the pending judgment if a pattern or verdict is shown, whether or not a stroke is in progress; otherwise nothing changes |
| `Session.PatternTester.DismissTimerFires` | app/page.tsx:166-192 | a scheduled auto-dismiss (the duplicate callback at lines 166-169 or the one "No" schedules at lines 189-192) clears the pattern and the verdict, and leaves the pending judgment, the set and the counters alone |

Every method of `PatternTester` also requires and ensures `Valid()`. The method
`FreshSessionScenario` is a verified client that runs through a whole session.
It draws 0-1-2-5-8, which then awaits a judgment, and answers "No": the key is
recorded and both counters are 1. Drawing the same pattern again shows
"duplicate" and leaves the counters at 1. A confirmed reset then restores the
full remaining estimate.

## Left out

- app/layout.tsx: page metadata and markup only.
- `getDotFromPosition` (app/page.tsx:102-116) uses floating-point distances over on-screen rectangles. The handlers receive the resolved dot instead: `Some(d)` with `d < 9`, or `None`.
- Canvas drawing, rendering, styling and the `touchPos` line drawn to the finger are user-interface output.
- The haptic `navigator.vibrate` call, `preventDefault` and pointer capture are browser side effects.
- The "Export" button (`exportData`) builds a JSON file through the browser's Blob, URL and anchor objects.
- Local storage is I/O, and is modelled only through `Load`'s parameter.
  - `Load` takes the already-parsed list of saved keys. Storage that is absent gives the same state as an empty list.
  - A stored value that fails to parse makes the source throw. The model does not capture that.
  - The save effect, which writes the set whenever it is non-empty, is not modelled.
  - Reset's removal of the stored item is not modelled either.
- `confirm()` in `resetAll` is a dialog. Its answer is the `confirmed` parameter.
- The 1500 ms timers are not timed. Each scheduled dismissal increments `pendingDismissals`. `DismissTimerFires` may then run at any later point, in any order relative to other events; this allows more interleavings than real time does.
- The "Reset" and "Export" buttons are disabled while the set is empty. That is a rendering rule: the handlers themselves have no guard, so `ResetAll` has no such precondition.
- The "No" and "Yes" buttons are rendered only while a judgment is pending (app/page.tsx:434-463). So `MarkInvalid` and `MarkValid` require `awaitingValidation`.
- React's batched updates and stale closures are not modelled. Each handler is one atomic update of the state.
- Counters are unbounded naturals. The source's JavaScript numbers would lose precision only beyond 2^53 events.
