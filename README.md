# RectPlacer core, modelled in Dafny

RectPlacer reads a text of rectangle definitions and draws them as
rectangular prisms in a 3-D scene. This project models three parts of it and
proves properties of each:

- **The definition parser** (`src/domain/rectParser.ts`), modules `JsText`, `LineFormat` and `RectParser`.
  - `parseRectInfo` splits the text on `\r?\n`, trims every line, and skips blank lines and `#` / `//` comments.
  - Every other line is checked in order: first against the line grammar `LINE_RE` (an optional `*`, then six decimal fields separated by commas), then for finiteness, then for positive `lx`, `ly` and `lz`.
  - Each checked line gives exactly one record or exactly one error. The error carries the 1-based line number and the untrimmed line.
  - The grammar is a hand-written recogniser over characters, a small automaton, with a declarative description it is proved equivalent to.
  - `parseFloat` is the exact decimal value of the literal, turned into an infinity past the double overflow threshold and into 0 below the underflow threshold.
  - The `for` loop is the method `RectParser.ParseRectInfo`. It is proved equal to the function `RectParser.ParseText`, which all the list properties are stated about.
- **The geometry helpers** (`src/domain/rect.ts`), module `Rect`: the records, `isFiniteNumber`, and the change of axes `toRenderPos`, (x, y, z) to (x, z, -y).
- **The state kernel of the Three.js scene manager** (`src/three/rectPlacerThree.ts`), module `Placer`, without Three.js itself.
  - Disposable resources are objects that count their `dispose` calls.
  - `ResourceTracker` is a class over a set of them.
  - An `InstancedMesh` is a class with a fixed-size array of (position, scale) slots and a draw count.
  - `RectPlacerThree` is a class holding:
    - the `alive` flag;
    - `rafId`;
    - the optional axes helper and its flag;
    - the tracker;
    - the two shared materials, the controls and the renderer;
    - the two instance buffers.

  Its methods change these fields in place as the source does.

`isFiniteNumber` is `Rect.IsFiniteNumber` over a small number type `Rect.Num`: a finite real, either infinity, or NaN. The parser applies it to all six fields.

### Behaviour a reader might not expect

The model follows the code in each case below.
- **No capacity check.** One might expect a count beyond the instance capacity to be rejected or capped with a warning.
  - `setRects` has no check: the counts are set to the full number of definitions.
  - A slot write past the buffer's end is dropped, because typed arrays drop out-of-range writes.
  - `Placer.RectPlacerThree.SetRects` states both behaviours.
- **`dispose` has no guard.** One might expect everything to be released exactly once and later calls to do nothing.
  - `dispose` has no guard, so a second call disposes the controls, the renderer and both shared materials again.
  - `Placer.RectPlacerThree.Dispose` states this for every call.
  - `dispose` does not release the axes helper.
- **`setRects` does not check `alive`.** It still writes the buffers after `dispose`.
- **The parser sets `status`, not `highlighted`.** One might expect each parsed record to carry the `highlighted` flag that `setRects` reads, set from the leading `*`.
  - The code builds records with `status` (`'working'`, `'highlighted'` or `'normal'`) instead.
  - `setRects` reads `highlighted`, which such a record does not have.
  - The model keeps the parser's record as the code builds it (`RectParser.ParsedRect`).
  - `setRects` takes the boolean-flagged `Rect.RectDefinition`.
  - `Placer.DrawnAs` is what `setRects` sees when handed a parser record: `highlighted` is undefined, hence false.
  - `Placer.ParsedRectsDrawnAsNormal` shows the consequence: such records all land in the normal buffer and the highlight buffer stays empty.

## Model

| member | source | states |
|---|---|---|
| Rect.ToRenderPos | src/domain/rect.ts:26-28 | the render x equals the authoring x, and (x, y, z) ↦ (x, -z, y) undoes the transform |
| Rect.ToRenderPosSurjective | src/domain/rect.ts:26-28 | every render position is the image of its back-transform, so the transform is a bijection |
| Rect.ToRenderPosInjective | src/domain/rect.ts:26-28 | two positions with the same render position are equal |
| Rect.ToRenderPosTwice | src/domain/rect.ts:27 | applying the transform twice gives (x, -y, -z) |
| Rect.ToRenderPosNotInvolution | src/domain/rect.ts:27 | the transform is not its own inverse: (0, 1, 0) goes to (0, -1, 0) after two applications |
| Rect.ToRenderPosFourTimes | src/domain/rect.ts:27 | four applications give back the original position |
| Rect.ToRenderPosKeepsNorm | src/domain/rect.ts:27 | the transform keeps the squared length: it is a rotation |
| Rect.ToRenderPosAxes | src/domain/rect.ts:27 | the render y is the authoring z and the render z is minus the authoring y |
| JsText.TrimStartSpec | src/domain/rectParser.ts:25 | trimming the front leaves a suffix; everything dropped is JS whitespace; the result is empty or starts with non-whitespace |
| JsText.TrimEndSpec | src/domain/rectParser.ts:25 | trimming the back leaves a prefix; everything dropped is JS whitespace; the result is empty or ends with non-whitespace |
| JsText.TrimSpec | src/domain/rectParser.ts:25 | `trim` returns a contiguous slice of the line with only whitespace around it and non-whitespace at both ends |
| JsText.TrimEmptyIff | src/domain/rectParser.ts:25-27 | a trimmed line is empty exactly when the raw line is all whitespace, so exactly those lines are skipped as blank |
| JsText.TrimCharacterized | src/domain/rectParser.ts:25 | whitespace + m + whitespace trims to m whenever m has non-whitespace ends: the trimmed line is unique |
| JsText.TrimIdempotent | src/domain/rectParser.ts:25 | trimming a trimmed line changes nothing |
| JsText.SplitLines | src/domain/rectParser.ts:20 | splitting gives at least one line, and no line contains a line feed |
| JsText.SplitOn | src/domain/rectParser.ts:20 | splitting on a separator gives at least one piece, none containing the separator |
| JsText.JoinSplitOn | src/domain/rectParser.ts:20 | joining the pieces with the separator gives back the text |
| JsText.SplitOnJoin | src/domain/rectParser.ts:20 | splitting pieces joined with a separator they lack gives back the pieces |
| JsText.SplitOnCount | src/domain/rectParser.ts:20 | the number of pieces is the number of separators plus one |
| JsText.SplitLinesIsSplitOnAfterDropCR | src/domain/rectParser.ts:20 | splitting on `\r?\n` is splitting on `\n` after each CR-LF has become LF |
| JsText.SplitLinesJoin | src/domain/rectParser.ts:20 | the lines joined by `\n` are the text with every CR-LF turned into LF |
| JsText.SplitLinesCount | src/domain/rectParser.ts:20 | the number of lines is the number of line feeds plus one |
| JsText.SplitLinesSingle | src/domain/rectParser.ts:20 | a text without a line feed is a single line |
| LineFormat.DotIndex | src/domain/rectParser.ts:9 | the position of the first `.` in a field, or its length when there is none |
| LineFormat.NumberLiteralSound | src/domain/rectParser.ts:9 | every field the recogniser accepts is an optional sign, one or more digits, and optionally a `.` followed by digits, and those three parts put together give back the field |
| LineFormat.NumberLiteralComplete | src/domain/rectParser.ts:9 | every string of that shape is accepted |
| LineFormat.NumberPartsUnique | src/domain/rectParser.ts:9 | a field splits into sign, whole digits and fraction in exactly one way |
| LineFormat.RunAlphabet | src/domain/rectParser.ts:9 | an accepted field uses only signs, digits and `.` |
| LineFormat.FractionDigitsValuePositive | src/domain/rectParser.ts:38-43 | the digits after the point are worth at least 0 and less than 1, and more than 0 exactly when one of them is non-zero |
| LineFormat.UnsignedValuePositive | src/domain/rectParser.ts:38-43 | an unsigned literal's value is at least 0, and positive exactly when a digit is non-zero |
| LineFormat.LiteralPositive | src/domain/rectParser.ts:38-43 | a literal's value is positive exactly when it has no `-` sign and a non-zero digit |
| LineFormat.ParseFloatFaithful | src/domain/rectParser.ts:38-43 | `parseFloat` of a field never gives NaN; the result is finite exactly when the exact value is below the overflow threshold in magnitude; a finite result is positive exactly when the value is above the underflow threshold; a non-zero finite result is the exact value |
| LineFormat.MatchLine | src/domain/rectParser.ts:31-37 | on a match there are six fields, each a number literal, and the `*` flag is set exactly when the line starts with `*` |
| LineFormat.MatchLineSound | src/domain/rectParser.ts:8-9 | a matched line is the optional `*` followed by the six fields joined with commas |
| LineFormat.MatchLineComplete | src/domain/rectParser.ts:8-9 | every line of that form matches, with those fields |
| LineFormat.MatchLineCommas | src/domain/rectParser.ts:8-9 | a matched line has exactly five commas, so a line with five fields is a format error |
| LineFormat.MatchedLineAlphabet | src/domain/rectParser.ts:8-9 | a matched line holds only `*`, commas, signs, digits and `.`, so a space inside the line is a format error |
| LineFormat.LeadingPointRefused | src/domain/rectParser.ts:9 | a field starting with `.` (such as `.5`) is refused |
| LineFormat.TrailingPointAccepted | src/domain/rectParser.ts:9 | digits followed by a bare `.` (such as `1.`) are accepted and have the value of the digits |
| LineFormat.ExponentRefused | src/domain/rectParser.ts:9 | `1e5` and `1E5` are refused |
| RectParser.ParseLine | src/domain/rectParser.ts:23-69 | a line adds nothing exactly when it is blank or a comment after trimming; an error carries the line number and the untrimmed line; a record carries the untrimmed line and a positive size |
| RectParser.ChecksInOrder | src/domain/rectParser.ts:31-62 | the grammar is checked first, then finiteness, then positive size, each with its own message and only the first failure reported; a record takes lx, ly, lz, x, y, z from the six fields in order; its status is working exactly at the cursor line, otherwise highlighted exactly when the line starts with `*` |
| RectParser.Outcomes | src/domain/rectParser.ts:22-24 | one outcome per line of the text |
| RectParser.OutcomeAt | src/domain/rectParser.ts:22-24 | the n-th outcome is the line parsed with line number n, 1-based |
| RectParser.CheckLine | src/domain/rectParser.ts:23-69 | the loop body with its early exits computes exactly the line's outcome |
| RectParser.ParseRectInfo | src/domain/rectParser.ts:16-73 | the loop that appends to `rects` and `errors` returns exactly the lists of accepted records and errors, line by line |
| RectParser.CollectTraceBack | src/domain/rectParser.ts:22-70 | each collected error and record comes from a line whose outcome it is, at strictly increasing positions |
| RectParser.CollectComplete | src/domain/rectParser.ts:22-70 | every rejected or accepted line is collected |
| RectParser.CollectCount | src/domain/rectParser.ts:22-70 | records plus errors equals the number of lines that are not skipped |
| RectParser.OutcomesCount | src/domain/rectParser.ts:22-29 | the lines that are not skipped are the non-blank, non-comment lines |
| RectParser.ParseCount | src/domain/rectParser.ts:22-70 | the number of records plus the number of errors equals the number of non-blank, non-comment lines |
| RectParser.ErrorsTraceBack | src/domain/rectParser.ts:20-53 | every error names a line of the text (1-based); its raw text is that line, and that line alone yields that error |
| RectParser.ErrorLinesIncrease | src/domain/rectParser.ts:22-53 | error line numbers strictly increase through the list |
| RectParser.RejectedLinesReported | src/domain/rectParser.ts:31-53 | every rejected line's error is in the list |
| RectParser.RectsTraceBack | src/domain/rectParser.ts:22-69 | the records come from strictly increasing lines; each is that line's record, with the untrimmed line as `rawLine` and a positive size |
| RectParser.AcceptedLinesReported | src/domain/rectParser.ts:64-69 | every accepted line's record is in the list |
| RectParser.ParseLineRenumbered | src/domain/rectParser.ts:55-62 | without a cursor line, an accepted line yields the same record whatever its line number |
| RectParser.ReparseRecord | src/domain/rectParser.ts:16-72 | parsing a record's `rawLine` on its own, without a cursor line, gives exactly that record and no error |
| RectParser.ReparseRecordAtCursor | src/domain/rectParser.ts:16-72 | for any cursor line, parsing a record's `rawLine` on its own without a cursor gives that record back, except that a `working` status becomes the status the line's `*` gives |
| RectParser.SingleLineParse | src/domain/rectParser.ts:20-24 | a text without a line feed is parsed as line 1 |
| RectParser.IgnoredLineAddsNothing | src/domain/rectParser.ts:27-29 | appending a blank or comment line changes neither list |
| Placer.Resource.Dispose | src/three/rectPlacerThree.ts:16 | disposing a resource counts one more dispose call |
| Placer.DisposeEach | src/three/rectPlacerThree.ts:93-95 | `forEach(m => m.dispose())` disposes each material once per occurrence in the array |
| Placer.ResourceTracker.Track | src/three/rectPlacerThree.ts:21-24 | the resource joins the set and the same object is returned; tracking a tracked object leaves the set as it was |
| Placer.ResourceTracker.TrackMaterial | src/three/rectPlacerThree.ts:27-30 | every material of an array, or the single material, joins the set, and nothing else does |
| Placer.ResourceTracker.DisposeAll | src/three/rectPlacerThree.ts:32-35 | every tracked resource is disposed exactly once, nothing else is, and the set ends empty, so a second call disposes nothing |
| Placer.TrackNew | src/three/rectPlacerThree.ts:334 | a new resource is tracked and was not tracked before |
| Placer.TrackedEnvironment | src/three/rectPlacerThree.ts:334-487 | scene set-up tracks thirteen new, undisposed resources |
| Placer.InstanceBatch.constructor | src/three/rectPlacerThree.ts:493-509 | a buffer of the given capacity, all identity slots, drawing nothing |
| Placer.InstanceBatch.SetMatrixAt | src/three/rectPlacerThree.ts:165-171 | slot k alone takes the instance when k is inside the buffer; beyond it, nothing changes |
| Placer.InstanceOf | src/three/rectPlacerThree.ts:159-163 | an instance's scale is (lx, lz, ly) and its position maps back to the definition's position |
| Placer.LayoutCounts | src/three/rectPlacerThree.ts:165-176 | the two counts sum to the number of definitions |
| Placer.LayoutCountsFlagged | src/three/rectPlacerThree.ts:165-176 | each buffer's count is the number of definitions with its flag |
| Placer.LayoutPartition | src/three/rectPlacerThree.ts:156-172 | the two buffers together hold exactly the instances of all definitions, as multisets |
| Placer.LayoutMembers | src/three/rectPlacerThree.ts:165-172 | every instance in a buffer comes from a definition with that buffer's flag |
| Placer.LayoutPrefix | src/three/rectPlacerThree.ts:156-172 | what the first j definitions write is a prefix of what all of them write |
| Placer.LayoutSlot | src/three/rectPlacerThree.ts:165-172 | the k-th definition with a flag, in input order, goes to slot k of that flag's buffer |
| Placer.ParsedRectsDrawnAsNormal | src/three/rectPlacerThree.ts:166 | parser records given to `setRects` as built all go to the normal buffer, whatever their status, and the highlight buffer stays empty |
| Placer.AxesHelper.constructor | src/three/rectPlacerThree.ts:83 | a new axes helper owns a new geometry and a single new material, two different objects, neither disposed |
| Placer.RectPlacerThree.constructor | src/three/rectPlacerThree.ts:117-125 | a new placer is alive, not looping, and shows new axes; it owns everything it holds: thirteen new tracked resources, four new untracked ones (two shared materials, controls, renderer) and new axes parts (one geometry and one material, different objects), none disposed yet, all distinct; its two new buffers have `maxRects` = 200000 identity slots and count 0 |
| Placer.RectPlacerThree.SetShowAxes | src/three/rectPlacerThree.ts:79-99 | the flag takes the value; showing creates new, undisposed axes only when there are none and otherwise touches nothing; hiding disposes the existing axes' geometry and materials and clears the field; no resource outside the axes is disposed; ownership stays disjoint |
| Placer.RectPlacerThree.CreateAxes | src/three/rectPlacerThree.ts:82-86 | the new axes and their parts are fresh and undisposed, so they overlap neither the tracked nor the hand-released resources |
| Placer.RectPlacerThree.ReleaseAxes | src/three/rectPlacerThree.ts:88-97 | each of the axes' geometry and materials is disposed once per occurrence, and the field is cleared |
| Placer.RectPlacerThree.Mount | src/three/rectPlacerThree.ts:127-132 | the canvas ends up in the container and the loop runs, started only if it was stopped |
| Placer.RectPlacerThree.Resize | src/three/rectPlacerThree.ts:134-140 | a live placer takes the new size; a disposed one changes nothing |
| Placer.RectPlacerThree.SetRects | src/three/rectPlacerThree.ts:142-180 | with a buffer missing nothing changes; otherwise each buffer's count is the number of its definitions and needs an upload; slot k below the count holds the k-th such definition's instance; slots above are unchanged; only the buffers change; there is no capacity check |
| Placer.FillBatches | src/three/rectPlacerThree.ts:148-179 | after the loop, each buffer's count is the number of definitions with its flag, slot k below the count holds the k-th such definition's instance, slots above keep their contents, and both buffers need an upload |
| Placer.RectPlacerThree.ClearRectMeshes | src/three/rectPlacerThree.ts:531-540 | each present buffer draws nothing and needs an upload |
| Placer.RectPlacerThree.Start | src/three/rectPlacerThree.ts:515-523 | a running loop is left alone; a stopped one gets a pending frame and renders one frame at once |
| Placer.RectPlacerThree.AnimationFrame | src/three/rectPlacerThree.ts:517-521 | a tick requests the next frame and renders one |
| Placer.RectPlacerThree.Stop | src/three/rectPlacerThree.ts:525-529 | afterwards no frame is pending; a pending frame is cancelled, and a stopped loop is left alone |
| Placer.RectPlacerThree.Dispose | src/three/rectPlacerThree.ts:201-215 | the placer is dead and stopped; both buffers draw nothing; every tracked resource is disposed once and the set emptied; the controls, renderer and shared materials are disposed once more on every call; the axes stay |
| Placer.RectPlacerThree.OnTextureLoaded | src/three/rectPlacerThree.ts:318-323 | a texture arriving after disposal is disposed and not tracked; otherwise it is tracked and not disposed (the ground handler at line 344 tracks it; the sky loader at lines 263-270 does the same and resolves exactly when alive) |
| Placer.RectPlacerThree.OnSkyTextureResolved | src/three/rectPlacerThree.ts:362-368 | after disposal nothing is tracked; otherwise a new, undisposed clone is tracked (the wall handler at lines 452-458 is the same) |
| Placer.Lifecycle | src/three/rectPlacerThree.ts:201-215 | over a placer's whole life (construction, showing and hiding the axes, drawing rects, one `dispose`), each of the thirteen resources tracked at construction, each of the four hand-released ones and both parts of the hidden axes are disposed exactly once, and the tracker ends empty |

## Left out

- Three.js itself is not modelled: the scene graph, camera, lights, colours, texture wrapping and repeat, `Matrix4.compose` (an instance is the (position, scale) pair it composes) and the instance upload.
- The axes helper's length and rotation are not modelled; neither is adding it to or removing it from the scene.
- Construction failure is not modelled: the model assumes the WebGL renderer can be created, so the error that wraps its failure is left out.
- `loadStl`, `setStlScale` and the STL mesh (src/three/rectPlacerThree.ts:182-199, 542-546) are not modelled: they read a file asynchronously and call a foreign STL decoder. `loadStl` also has no `alive` check.
- `takeScreenshot` is not modelled: it is canvas, Blob and DOM I/O.
- The asynchronous side of texture loading is left out: the sky texture promise cache, promise rejection and `catch`, and the loaders' error callbacks, which only log.
- Placer.RectPlacerThree.OnTextureLoaded: stands for both the `loadTexture` guard with the ground handler and the sky loader's handler. It states only the callbacks' effect on the tracker and on the texture.
- Placer.RectPlacerThree.Resize: records only the size a live placer accepts. The pixel ratio, the renderer size and the camera aspect are floating point and browser calls.
- `requestAnimationFrame` ids are parameters, and `mount`'s DOM container is a number.
- Placer.ResourceTracker.DisposeAll: disposes in an unspecified order, where a JavaScript `Set` iterates in insertion order. Only the number of dispose calls per resource is stated.
- The `showAxes` getter only reads `showAxesFlag`, and `axesLength` is a constant. `console.warn` messages are not modelled.
- `parseFloat` values are exact decimal reals, not rounded to the nearest double.
  - The overflow and underflow decisions are those of the IEEE conversion.
  - A finite value is not rounded, and negative zero is plain 0.
- Strings are sequences of characters. The model ignores UTF-16 surrogate pairs, which `trim` and the regular expression treat as two code units; no whitespace or digit lies outside the Basic Multilingual Plane.
- `cursorLine` is an optional integer; a non-integral JavaScript number never equals a line number, which an integer cannot express.
- main.js, src/main.ts and src/docs/index.ts are not part of this model: they are the legacy global script and the Vue and i18n bootstrap.
- The loop body of `parseRectInfo` is the method `RectParser.CheckLine`. Its `continue`s are early returns, so the loop in `RectParser.ParseRectInfo` has a single call where the source has the checks inline.
