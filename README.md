# Kinect background removal and gesture smoothing — a Dafny model

This project models the sequential core of a Kinect v2 sample application that does two things:

- It removes the background from the colour camera image. Every colour pixel whose mapped depth pixel holds no tracked body is zeroed.
- It turns continuous gesture results into a debounced "advance the background" event, using a 20-sample ring buffer per gesture detector.

Modules:

- `Masking` (`masking.dfy`): the colour-to-depth mapping entry, the C# truncating cast, and the per-pixel keep decision. `Masked` gives the colour buffer after the pass as a function of the buffer before it. `MaskBackground` is the in-place masking loop, proved against `Masked`. Lemmas cover the sentinel, out-of-frame, body and no-body cases, plus a 4x4 scenario.
- `MainWindowHandlers` (`main_window.dfy`): the multi-source frame handler. It covers acquisition, the early return on a missing sub-frame, bitmap locking, colour conversion into the back buffer, masking, the dirty rectangle, and the try/finally disposal. The try block is a labelled block; leaving it early is the early return or an exception from one of its SDK calls, which a `Failure` parameter selects. The file also holds the body-frame handler that rebinds the gesture detector slots. Frames and the bitmap are classes. Their disposal, lock, unlock and dirty-rectangle calls are counters.
- `Smoothing` (`smoothing.dfy`): the value view of a detector's ring: `Ring`, `Push`, `PushAll`, the full-scan count `CountTrue` and the trigger `Fires`, with the counting lemmas.
- `GestureDetection` (`gesture_detector.dfy`): the `GestureDetector` class. It holds the gesture source's tracking id and the reader's paused flag, each with a set-if-different setter. It also holds the `bool` buffer array with its cursor, the counting scan, the continuous-gesture push and the gesture-frame handler.
- `Backgrounds` (`backgrounds.dfy`): the three backgrounds and the main window's `BackgroundSelectedIndex`. It also gives the next index under C#'s remainder. It is a separate module so that a detector can update the window's selection without a module cycle.
- `Wrappers` (`wrappers.dfy`): `Option`.

Three facts about the code shape the model:

- The depth coordinate is `(int)(x + 0.5f)`, which truncates toward zero. Coordinates in (-1.5, -0.5) therefore land on column or row 0, which is in the frame (`Masking.TruncationDiffersOnlyNearMinusOne`).
- The advance tests the count for equality on every push. It fires again on each push that leaves exactly 10 of 20 samples true (`Smoothing.RefiresWhileCountStaysAtHalf`, `Smoothing.TenTruesThenFalseFiresTwice`).
- The continuous result is processed only when the frame's discrete result dictionary is present, because the continuous branch is nested inside that test.

Inputs that come from the SDK or the UI are parameters:

- the colour-to-depth mapping table;
- the converted B-G-R-A colour image, a field of `ColorFrame`;
- the body-index bytes, a field of `BodyIndexFrame`;
- which sub-frames were acquired;
- the body frame's tracking ids;
- the gesture results;
- the combo box's current selection.

## Model

| member | source | states |
|---|---|---|
| Masking.TruncateToInt | MainWindow.xaml.cs:185-186 | the cast truncates toward zero: the result is within 1 of the value, on the side of zero |
| Masking.DepthCoordinateRoundsHalfUp | MainWindow.xaml.cs:185-186 | for coordinates at least -0.5 the depth coordinate is floor(c + 0.5) |
| Masking.TruncationDiffersOnlyNearMinusOne | MainWindow.xaml.cs:185-189 | coordinates in (-1.5, -0.5) map to 0, where round-half-up gives -1; a non-negative coordinate that differs from round-half-up comes only from that interval |
| Masking.DepthIndexInBounds | MainWindow.xaml.cs:189-194 | a depth pixel that passes the bounds test has a row-major index in [0, depthWidth*depthHeight), so the body-index read is in bounds |
| Masking.DepthCoordinate | MainWindow.xaml.cs:185-186 | the depth pixel coordinate of a mapped coordinate is the truncating cast of c + 0.5 |
| Masking.KeepPixel | MainWindow.xaml.cs:181-198 | a colour pixel is kept exactly when neither coordinate is -inf, the depth coordinate is inside the depth frame and the body-index byte there is not 0xFF |
| Masking.Masked | MainWindow.xaml.cs:166-201 | the colour buffer after the pass: below the table length each pixel is the original where KeepPixel holds and 0 elsewhere; the rest is the original |
| Masking.MaskBackground | MainWindow.xaml.cs:166-201 | the loop leaves the colour buffer equal to Masked of the buffer before it: pixels are zeroed exactly where the keep decision fails and only below the table's length |
| Masking.SentinelZeroes | MainWindow.xaml.cs:180-200 | an entry with either coordinate -inf yields pixel 0 whatever the body-index bytes |
| Masking.OutOfFrameZeroes | MainWindow.xaml.cs:185-200 | an entry whose depth coordinate falls outside [0,depthWidth)x[0,depthHeight) yields pixel 0 |
| Masking.InFrameFollowsBodyIndex | MainWindow.xaml.cs:189-200 | an in-frame entry reads an in-bounds body-index byte and keeps the original pixel exactly when that byte is not 0xFF, otherwise yields 0 |
| Masking.OnlyZeroesWithinTable | MainWindow.xaml.cs:166-200 | every output pixel is the original or 0, and pixels at or beyond the table length are unchanged |
| Masking.MaskedIdempotent | MainWindow.xaml.cs:175-201 | running the pass again with the same inputs changes nothing |
| Masking.OnlyBodyPixelSurvives | MainWindow.xaml.cs:175-201 | 4x4 colour mapped one to one onto 4x4 depth, body only at index 5: pixel 5 is kept and all others are 0 |
| MainWindowHandlers.MultiSourceFrameArrived | MainWindow.xaml.cs:94-273 | on every exit (early return, normal completion, or an exception from any SDK call of the try block) the bitmap ends unlocked, unlocked once per lock, and each acquired frame is disposed exactly once; with all three sub-frames and no exception the back buffer becomes the masked converted image and is locked and marked dirty once; a missing sub-frame or an expired frame set means no lock, no write, no dirty rect; an exception leaves the buffer as far as the calls before it got |
| MainWindowHandlers.Complete | MainWindow.xaml.cs:104-125 | a frame set is processed only when the multi-source frame and all three sub-frames were acquired |
| MainWindowHandlers.CompletedCalls | MainWindow.xaml.cs:134-250 | the order of the try block's SDK calls (mapping, Lock, conversion, body-index buffer, AddDirtyRect, body drawing); all six complete exactly when nothing throws |
| MainWindowHandlers.BodyFrameArrived | MainWindow.xaml.cs:278-313 | with body data, slot i's id equals body i's id and paused is rewritten to (id == 0) only where the id differed; setters reach the SDK only with new values; slots beyond the body count and every slot without data are untouched; smoothing buffers are never reset |
| MainWindowHandlers.DepthFrame.Dispose | MainWindow.xaml.cs:142-144 | counts one disposal |
| MainWindowHandlers.ColorFrame.Dispose | MainWindow.xaml.cs:154-156 | counts one disposal |
| MainWindowHandlers.BodyIndexFrame.Dispose | MainWindow.xaml.cs:269-272 | counts one disposal |
| MainWindowHandlers.ColorFrame.CopyConvertedFrameData | MainWindow.xaml.cs:152 | the back buffer afterwards holds the converted image |
| MainWindowHandlers.Bitmap.Lock | MainWindow.xaml.cs:148-150 | the bitmap becomes locked; one lock call counted |
| MainWindowHandlers.Bitmap.Unlock | MainWindow.xaml.cs:254-257 | the bitmap becomes unlocked; one unlock call counted |
| MainWindowHandlers.Bitmap.AddDirtyRect | MainWindow.xaml.cs:203 | one dirty-rectangle notification, legal only while locked |
| GestureDetection.GestureDetector.constructor | GestureDetector.cs:39-68 | a new detector has id 0, is paused, and its 20 samples are all false with the cursor at 0 |
| GestureDetection.GestureDetector.SetTrackingId | GestureDetector.cs:92-98 | the id becomes the value; the SDK is written only when it differed |
| GestureDetection.GestureDetector.SetPaused | GestureDetector.cs:109-115 | paused becomes the value; the SDK is written only when it differed |
| GestureDetection.GestureDetector.CountActive | GestureDetector.cs:199-206 | the scan returns the number of true samples |
| GestureDetection.GestureDetector.ChangeProgress | GestureDetector.cs:186-212 | the ring becomes Push of the old ring with (progress > 0.7); the buffer stays 20 long with cursor in [0,20); the advance happens iff the post-push count is exactly 10, and then sets the selection to the index after the combo's; a change notification is raised only on an advance that changes the index |
| GestureDetection.GestureDetector.GestureFrameArrived | GestureDetector.cs:146-219 | no frame or no discrete results: nothing changes; otherwise visibility is (confidence > 0.8) when the summon gesture has a result, and a change result is pushed as above, with the same notification rule |
| Smoothing.CountTrue | GestureDetector.cs:199-206 | the count of true samples never exceeds the number of samples |
| Smoothing.CountTrueUpdate | GestureDetector.cs:188-206 | overwriting one sample changes the count by the written sample minus the overwritten one |
| Smoothing.CountTruePrefix | GestureDetector.cs:199-206 | n samples of which the first k are true count min(k, n) |
| Smoothing.Initial | GestureDetector.cs:65-68 | the initial ring is well formed, every sample false, cursor 0 |
| Smoothing.Active | GestureDetector.cs:188-195 | a continuous result records true exactly when progress > 0.7 |
| Smoothing.SummonVisible | GestureDetector.cs:170-179 | the summon gesture is shown exactly when confidence > 0.8 |
| Smoothing.Fires | GestureDetector.cs:207 | the background advances exactly when the count of true samples equals 20/2 = 10 |
| Smoothing.Push | GestureDetector.cs:188-197 | a push writes the sample at the old cursor, leaves the other 19 unchanged, moves the cursor to (old + 1) mod 20, and moves the count by at most one |
| Smoothing.PushAll | GestureDetector.cs:188-197 | any sequence of pushes keeps the buffer length 20 and the cursor in [0,20) |
| Smoothing.PushTruesFromInitial | GestureDetector.cs:188-197 | from the initial ring, k <= 20 pushes of true give the first k samples true and the cursor at k mod 20 |
| Smoothing.CountAfterTrues | GestureDetector.cs:188-206 | from the initial ring, k <= 20 pushes of true give count k |
| Smoothing.FiresOnlyOnTenthTrue | GestureDetector.cs:199-207 | among the first 20 pushes of true from the initial ring, only the 10th fires |
| Smoothing.RefiresWhileCountStaysAtHalf | GestureDetector.cs:188-207 | a push that overwrites a sample with an equal one while the count is 10 fires again |
| Smoothing.TenTruesThenFalseFiresTwice | GestureDetector.cs:188-207 | ten trues then a false from the initial ring fire on both the 10th and the 11th push |
| Smoothing.SummonThresholdIsStrict | GestureDetector.cs:170-179 | visible iff confidence > 0.8; 0.8 is hidden, 0.8000001 is visible |
| Backgrounds.CsRemainder | GestureDetector.cs:209 | C#'s remainder by the background count: congruent to the dividend modulo 3, in [0,3) for a non-negative dividend and in (-3,0] for a negative one |
| Backgrounds.NextBackground | GestureDetector.cs:209 | for a selection of -1 or more the advanced index is in [0,3); -1 (nothing selected) goes to 0, 0 to 1, 1 to 2 and 2 back to 0 |
| Backgrounds.NextBackgroundCycles | GestureDetector.cs:209-211 | three advances from a valid selection return to it |
| Backgrounds.BackgroundSelection.constructor | MainWindow.xaml.cs:26 | the selection starts at 0 |
| Backgrounds.BackgroundSelection.SetSelectedIndex | MainWindow.xaml.cs:391-402 | the index becomes the value; a change notification is raised only when it differed |

## Left out

- Coordinate mapping (`MapColorFrameToDepthSpaceUsingIntPtr`) is an SDK call. Its output table is a parameter.
- Colour conversion (`CopyConvertedFrameDataToIntPtr`) is an SDK format transform. `ColorFrame.bgra` stands for its output.
- Floating point: coordinates, confidence and progress are `real`. The model ignores the rounding of `x + 0.5f`, NaN and +inf. Only -inf is represented, as the sentinel. The source compares `float` results with `double` literals, so a confidence of `0.8f` (about 0.80000001) is visible and a progress of `0.7f` (about 0.69999999) is not active; the model's boundary cases at exactly 0.8 and 0.7 are facts about reals and match no `float` input. A C# cast of a value outside the `int` range is unspecified; the model's unbounded cast sends every such value out of the frame anyway.
- MainWindowHandlers.MultiSourceFrameArrived: an SDK call that throws is taken to have had no effect, so a partly completed colour conversion is not modelled. Exceptions from Dispose, Unlock and the sub-frame acquisitions are not modelled either; a failed acquisition is the same as an expired sub-frame.
- The source's continuous branch would throw if the continuous result dictionary were null while the discrete one was present. The model folds that case into "no change result".
- The body part of the multi-source handler (hand-joint drawing, `DrawItem`, canvas handling) is UI work.
- The `using` scopes around `LockImageBuffer` and the body frame are not modelled.
- Bitmap creation and the back-buffer size arithmetic depend on the WPF stride. The back buffer is modelled as one 32-bit entry per pixel.
- The sensor and SDK lifecycle is resource plumbing: sensor open and close, reader creation, event subscription, `MainWindow_Closing` and `GestureDetector.Dispose`.
- Gesture database loading and the dispatch over the frame source's gestures are SDK work. Both gestures are taken to be loaded. A frame's results for them are given directly.
- Skipping classification while a reader is paused is done by the SDK reader, not by this code.
- The dispatcher call that applies the visibility is UI work. `GestureFrameArrived` returns the visibility it would dispatch.
- Reading the combo box's `SelectedIndex` is UI work. It is a parameter. The data binding that ties it to `BackgroundSelectedIndex` is not part of this model.
- `ShowPineapple`, `SetBackground` and the status text are UI handlers.
- Ordering between the multi-source, body and gesture event streams is a concurrency concern. Each handler is one sequential call.
