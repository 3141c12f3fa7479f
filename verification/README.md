# OCR label code and stability filter, in Dafny

A model of the decision logic of the two camera screens of the OCR test app.
Both screens read frames continuously. The code they return to the screen
below them must not be a one-frame misread, so each screen accepts a reading
only after it has come out the same on three readings in a row; a frame that
yields no reading does not break the run.

- **The label-code normalizer** (`analyzeImageProxy` in the OCR screen) has
  four steps:
  1. Trim the recognizer's text.
  2. Take the leftmost match of
     `\b([A-Z]{3}[A-Z0-9]{4})-([A-Z0-9]{6})-([A-Z0-9])\b`.
  3. Split the match on `-`.
  4. Correct the usual OCR confusions: the letters `O` and `I` become the
     digits `0` and `1` wherever the pattern admits a digit.

  The result is the frame's candidate.
- **The stability filter with its one-shot latch** is shared by both screens.
  - The state is the last reading, the length of the current run of identical
    readings and the latch `hasNavigatedBack`.
  - When a run reaches the threshold of 3 while the latch is clear, the latch
    is set and the reading is written once into the saved state of the
    previous screen: `"ocr_result"` for the OCR screen, `"barcode_result"`
    for the barcode screen.
  - The back button sets the same latch without writing anything.

The Dafny modules follow that structure:

| module | file | contents |
|---|---|---|
| `Wrappers` | `wrappers.dfy` | `Option`, for Kotlin's nullable values |
| `Text` | `text.dfy` | the Kotlin string functions the normalizer calls: `trim()`, `isBlank()`, `replace`, `split`, and joining |
| `LabelCode` | `label_code.dfy` | the pattern as a search for a 16-character window, the segment corrections, `Normalize`, an independent position-by-position `Corrected`, and the `IsNormalized` shape |
| `Stability` | `stability.dfy` | the filter (`Step`, `Back`, and the folds `Final`, `Trace` and `Emissions`), the result slot (`OnEvent`, `RunScreen`), and a reference description of the filter in terms of the readings alone |
| `OcrScreen`, `BarcodeScreen` | `ocr_screen.dfy`, `barcode_screen.dfy` | what a frame or a button press means to each screen, and whole-session properties |

Notes on how the model reads the code:

- **The dead `'0' -> 'O'` rule.** The rule for the first three characters of
  the first segment never fires. The pattern admits only letters there, so
  the correction is exactly "O/I become 0/1 in digit places"
  (`SegmentCorrectionIsCorrected`). The model keeps the rule as written
  (`FixHead`).
- **Trimming.** Trimming never changes the leftmost match, because whitespace
  is never a word character (`TrimKeepsMatch`).
- **Guards that never fire.** A match is never blank and always splits into
  three parts, so the `isNullOrBlank` guard and the `parts.size == 3` guard
  never reject one (`MatchSplitsInThree`).
- **Readings after the latch.** After the latch is set, readings still update
  `lastResult` and `stableCount`, as in the code; only the write is
  suppressed.
- **Counter width.** The counter is a Kotlin `Int` and `++` wraps at 2^31 - 1
  (`Inc32`). While the latch is clear the counter stays below the threshold
  (`FilterTracksReadings`), so the wrap can never decide an emission.
- **The first reading.** The first reading always counts 1, even when it
  equals the initial `""`. This holds because the initial count is 0.

## Model

Source paths are relative to the repository root.

| member | source | states |
|---|---|---|
| Text.TrimBy | app/src/main/java/com/example/ocrtestapp/uis/OCRCameraScreen.kt:53 | the trimmed text is a slice of the input; everything cut off before and after it is whitespace; it neither starts nor ends with whitespace |
| Text.Replace | app/src/main/java/com/example/ocrtestapp/uis/OCRCameraScreen.kt:78-79 | same length; every occurrence of the old character becomes the new one; every other character is kept in place |
| Text.Split | app/src/main/java/com/example/ocrtestapp/uis/OCRCameraScreen.kt:61 | one piece more than there are delimiters, and no piece contains the delimiter |
| Text.JoinSplit | app/src/main/java/com/example/ocrtestapp/uis/OCRCameraScreen.kt:61 | joining the pieces of a split with the same delimiter gives back the string |
| Text.SplitAtFirst | app/src/main/java/com/example/ocrtestapp/uis/OCRCameraScreen.kt:61 | splitting at the first delimiter peels off the text before it as the first piece |
| LabelCode.FirstMatch | app/src/main/java/com/example/ocrtestapp/uis/OCRCameraScreen.kt:55-57 | a found offset is a match with no match to its left; no result means the pattern matches nowhere |
| LabelCode.CorrectHead | app/src/main/java/com/example/ocrtestapp/uis/OCRCameraScreen.kt:68-75 | same length; a `0` among the first three characters becomes `O`; from the fourth on `O` becomes `0` and `I` becomes `1`; every other character is kept, so no `0` is left in the first three places and no `O` or `I` after them |
| LabelCode.CorrectTail | app/src/main/java/com/example/ocrtestapp/uis/OCRCameraScreen.kt:78-79 | same length; each `O` becomes `0` and each `I` becomes `1`; nothing else changes, so no `O` or `I` remains |
| LabelCode.MatchSplitsInThree | app/src/main/java/com/example/ocrtestapp/uis/OCRCameraScreen.kt:59-65 | a match is not blank, and its split on `-` is exactly its 7-, 6- and 1-character segments |
| LabelCode.SegmentCorrectionIsCorrected | app/src/main/java/com/example/ocrtestapp/uis/OCRCameraScreen.kt:63-81 | the split, per-segment correction and rejoin equal the independent position-by-position correction `Corrected` |
| LabelCode.CorrectedIsNormalized | app/src/main/java/com/example/ocrtestapp/uis/OCRCameraScreen.kt:67-81 | the corrected match keeps the pattern's shape with no O/I in digit places; its first three letters and every uncorrected character are the match's own |
| LabelCode.MatchInPaddedSlice | app/src/main/java/com/example/ocrtestapp/uis/OCRCameraScreen.kt:53-56 | inside padding that is never a word character, a match of the slice is a match of the whole at the shifted offset and vice versa, and no match reaches into the padding |
| LabelCode.PaddedKeepsMatch | app/src/main/java/com/example/ocrtestapp/uis/OCRCameraScreen.kt:53-57 | such padding changes neither whether there is a match nor the matched text |
| LabelCode.TrimKeepsMatch | app/src/main/java/com/example/ocrtestapp/uis/OCRCameraScreen.kt:53-57 | the leftmost match of the trimmed text is the leftmost match of the raw text |
| LabelCode.NormalizeIsCorrectedMatch | app/src/main/java/com/example/ocrtestapp/uis/OCRCameraScreen.kt:53-81 | a frame has a candidate exactly when its raw text has a match, and the candidate is the position-by-position correction of the leftmost match |
| LabelCode.NormalizeShape | app/src/main/java/com/example/ocrtestapp/uis/OCRCameraScreen.kt:55-81 | every candidate is a normalized code that splits into three segments; it comes from a match and agrees with it except at corrected O/I |
| LabelCode.NormalizeFixesNormalized | app/src/main/java/com/example/ocrtestapp/uis/OCRCameraScreen.kt:53-81 | a normalized code on its own is its own candidate |
| LabelCode.NormalizeIdempotent | app/src/main/java/com/example/ocrtestapp/uis/OCRCameraScreen.kt:53-81 | normalizing a candidate again gives the same candidate |
| LabelCode.ExampleCorrection | app/src/main/java/com/example/ocrtestapp/uis/OCRCameraScreen.kt:63-81 | `ABC123X-456O1I-O` becomes `ABC123X-456011-0` |
| LabelCode.ExampleNoBoundary | app/src/main/java/com/example/ocrtestapp/uis/OCRCameraScreen.kt:55-57 | a letter glued in front of a code removes the word boundary, so the frame has no candidate |
| LabelCode.ExampleSurroundingText | app/src/main/java/com/example/ocrtestapp/uis/OCRCameraScreen.kt:53-81 | a code with other text and lines around it is still found and corrected |
| Stability.Inc32 | app/src/main/java/com/example/ocrtestapp/uis/OCRCameraScreen.kt:84 | `++` on a 32-bit `Int` is +1 modulo 2^32 in the signed range: +1 below the maximum, and it stays in range |
| Stability.Step | app/src/main/java/com/example/ocrtestapp/uis/OCRCameraScreen.kt:83-101 | the reading becomes the last result; the count goes up on a repeat and is 1 otherwise; it emits that reading exactly when the count reaches 3 with the latch clear; the latch is then set |
| Stability.Back | app/src/main/java/com/example/ocrtestapp/uis/OCRCameraScreen.kt:199-205 | the back button sets the latch and nothing else; with the latch already set it does nothing |
| Stability.LatchHolds | app/src/main/java/com/example/ocrtestapp/uis/OCRCameraScreen.kt:92-93 | once set, the latch stays set and nothing more is emitted |
| Stability.AtMostOneEmission | app/src/main/java/com/example/ocrtestapp/uis/OCRCameraScreen.kt:92-96 | any event sequence emits at most once, never once the latch is set, and an emission leaves the latch set |
| Stability.NoReadingIsSilent | app/src/main/java/com/example/ocrtestapp/uis/BarcodeCameraScreen.kt:64 | a frame without a reading changes neither the state nor the emissions |
| Stability.EmittedIsReading | app/src/main/java/com/example/ocrtestapp/uis/OCRCameraScreen.kt:92-96 | an event that emits is a reading and emits its own value |
| Stability.BackSuppresses | app/src/main/java/com/example/ocrtestapp/uis/BarcodeCameraScreen.kt:114-119 | after the back button nothing more is emitted, and pressing it twice is pressing it once |
| Stability.FirstReadingCountsOne | app/src/main/java/com/example/ocrtestapp/uis/BarcodeCameraScreen.kt:33-35 | from the initial state any first reading, even `""`, leaves count 1 and emits nothing |
| Stability.FreshRunEmitsOnThird | app/src/main/java/com/example/ocrtestapp/uis/BarcodeCameraScreen.kt:67-80 | a fresh run of one value, latch clear, emits on its third reading and on no other; the latch is set exactly from the third on |
| Stability.FreshRunEmissions | app/src/main/java/com/example/ocrtestapp/uis/BarcodeCameraScreen.kt:67-80 | such a run emits its value once it is three readings long, and nothing before |
| Stability.ExampleThreeFrames | app/src/main/java/com/example/ocrtestapp/uis/BarcodeCameraScreen.kt:67-80 | three identical barcode frames give the trace none, none, the value |
| Stability.TrailingRun | app/src/main/java/com/example/ocrtestapp/uis/OCRCameraScreen.kt:83-88 | the length of the longest suffix of equal readings, as a maximal-suffix property |
| Stability.RunReachesThreshold | app/src/main/java/com/example/ocrtestapp/uis/OCRCameraScreen.kt:92 | the run is at least 3 long exactly when the last three readings agree |
| Stability.LastResultFollowsReadings | app/src/main/java/com/example/ocrtestapp/uis/OCRCameraScreen.kt:83-88 | whatever the latch, the last result is the most recent reading |
| Stability.FilterTracksReadings | app/src/main/java/com/example/ocrtestapp/uis/OCRCameraScreen.kt:83-96 | from a fresh screen: the last result is the last reading; the latch is set exactly when the screen is done; until then the counter is the current run length, below 3 |
| Stability.EmissionMatchesReference | app/src/main/java/com/example/ocrtestapp/uis/OCRCameraScreen.kt:83-96 | from a fresh screen, event k emits exactly when it is a reading that completes a run of 3 and no earlier event ended the screen; it emits its own reading |
| Stability.SlotWrittenOnce | app/src/main/java/com/example/ocrtestapp/uis/OCRCameraScreen.kt:92-96 | the result key is written once with the emitted value or not at all; no other saved entry changes |
| Stability.BackFreezesSlot | app/src/main/java/com/example/ocrtestapp/uis/OCRCameraScreen.kt:199-205 | whatever follows a press of the back button, the result slot and the rest of the saved state stay what they were at the press |
| Stability.SlotHoldsStableReading | app/src/main/java/com/example/ocrtestapp/uis/OCRCameraScreen.kt:83-96 | from a fresh screen, a reading that completes a run of 3 before the screen was done is what the result key holds at the end, whatever follows |
| OcrScreen.ToEvent | app/src/main/java/com/example/ocrtestapp/uis/OCRCameraScreen.kt:48-111 | a frame is a reading exactly when its text has a match; the reading is the frame's normalized candidate; only the button is a back press |
| OcrScreen.NoCandidateKeepsScreen | app/src/main/java/com/example/ocrtestapp/uis/OCRCameraScreen.kt:48-111 | a frame without a candidate, a failed recognition or a frame without an image leave the screen unchanged |
| OcrScreen.EmissionIsFrameCandidate | app/src/main/java/com/example/ocrtestapp/uis/OCRCameraScreen.kt:92-96 | the value written at a frame is that frame's candidate, a normalized code |
| OcrScreen.ResultIsNormalizedCode | app/src/main/java/com/example/ocrtestapp/uis/OCRCameraScreen.kt:92-96 | after any session the saved state is unchanged, or has only gained `"ocr_result"` holding the candidate of one of the session's frames, a normalized code |
| OcrScreen.BackButtonFreezesResult | app/src/main/java/com/example/ocrtestapp/uis/OCRCameraScreen.kt:199-205 | whatever follows a press of the back button, the saved state is what it was at the press |
| OcrScreen.ExampleSession | app/src/main/java/com/example/ocrtestapp/uis/OCRCameraScreen.kt:53-96 | after a noisy frame, the corrected code is written on the third frame of the label and not on the second |
| BarcodeScreen.ToEvent | app/src/main/java/com/example/ocrtestapp/uis/BarcodeCameraScreen.kt:58-64 | a frame is a reading exactly when its first barcode has a raw value; the reading is that value unmodified; later barcodes play no part |
| BarcodeScreen.NoCodeKeepsScreen | app/src/main/java/com/example/ocrtestapp/uis/BarcodeCameraScreen.kt:58-96 | no barcode, a first barcode without a raw value, a failed scan or a frame without an image leave the screen unchanged |
| BarcodeScreen.EmissionIsFirstRawValue | app/src/main/java/com/example/ocrtestapp/uis/BarcodeCameraScreen.kt:64-80 | the value written at a frame is the raw value of that frame's first barcode |
| BarcodeScreen.ResultIsDecodedValue | app/src/main/java/com/example/ocrtestapp/uis/BarcodeCameraScreen.kt:76-80 | after any session the saved state is unchanged, or has only gained `"barcode_result"` holding the first raw value of one of the frames |
| BarcodeScreen.BackButtonFreezesResult | app/src/main/java/com/example/ocrtestapp/uis/BarcodeCameraScreen.kt:114-119 | whatever follows a press of the back button, the saved state is what it was at the press |
| BarcodeScreen.ExampleSession | app/src/main/java/com/example/ocrtestapp/uis/BarcodeCameraScreen.kt:64-80 | a frame that decodes nothing between readings does not break the run; the value is written on the third reading and not before |

## Left out

- **Camera pipeline.** Camera set-up, ML Kit recognition and barcode
  scanning, `InputImage` construction, and `imageProxy.close()` are left
  out. They are input and output. A frame enters the model as the
  recognizer's text, or as the list of raw values of the decoded barcodes.
- **Navigation.** `popBackStack()`, whether immediate or posted with a 200 ms
  delay, is left out. The model has no clock, and the back stack below the
  camera screen is not modelled beyond its saved-state map.
- **Missing previous entry.** A `null` `previousBackStackEntry` would make the
  write a no-op. The model assumes a previous entry exists, as it does when
  the screens are reached from the home screen.
- **Threading.** The model delivers listener callbacks one at a time, in
  order. The camera executor, the main-thread button handler and the
  asynchronous ML Kit callbacks are not interleaved.
- **Other code.** Logging, the Compose layout, `HomeScreen`, `MainActivity`
  and the non-default value of `threshold` are left out. No caller passes a
  different threshold.
- LabelCode.IsWordChar: `\b` is modelled with ASCII word characters
  `[A-Za-z0-9_]`. Android's ICU regex engine also counts letters and digits
  outside ASCII as word characters. That engine is not part of this model.
- Text.IsWhitespace: characters are Unicode scalar values, not UTF-16 code
  units. Surrogate pairs are not modelled, and no whitespace character lies
  outside the Basic Multilingual Plane.
