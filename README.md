# Camera filters: the kaleidoscope and the mode loop, verified in Dafny

The webcam viewer reads frames from camera 0 and applies the filter selected by
the keyboard: grayscale, edges, sepia, blur, a "Doctor Strange" kaleidoscope or
thermal vision. It shows each frame with a line of instructions and switches
modes on key presses until `q` is pressed or a read fails. Nearly all of this is
done by OpenCV calls. This project models the two parts with logic of their own:

- `modes.dfy` (module `Modes`) has the filter modes and the key table. It covers
  `waitKey(1) & 0xFF`, then the `if`/`elif` chain that maps `q`, `g`, `e`, `s`,
  `b`, `d`, `t` and `n` to quitting or to a mode, and ignores every other code.
- `kaleidoscope.dfy` (module `Kaleidoscope`) has the quadrant mirroring of
  `apply_doctor_strange`. `cv2.flip` is stated as an index map on grids of
  cells. The pure function `Kaleidoscope` says what the frame holds afterwards.
  The method `ApplyDoctorStrange` writes the four quadrants into a
  two-dimensional array in place, as four slice assignments (`WriteBlock`). It is
  proved to leave exactly `Kaleidoscope` of the rotated frame. The 45-degree
  rotation is a library call; its result is an input grid, `rotated`.
- `render_loop.dfy` (module `RenderLoop`) has the script itself:
  - `Capture` is the camera handle. It keeps the frames the device will still
    deliver, and counts the calls to `read` and to `release`.
  - `Session` is the script from `isOpened()` to `release()`, with the
    `while True` loop.
  - `Loop` and `Script` are pure functions that say what a run displays, which
    mode it ends in, how many frames it reads and why it stops. `Session` is
    proved to do exactly what they say. Lemmas then relate them to the keys
    pressed.
  - The image operations are opaque functions in a `Library` value, over an
    abstract frame type.
  - The keyboard is the sequence of codes that `waitKey(1)` returns, one per
    iteration. Once that sequence runs out, no key is pressed and `waitKey` gives -1.

Two details of the code shape the model:
- The camera is released only when it opened. `cap.release()` sits inside the
  `else` branch of `if not cap.isOpened()`, so nothing is released on the
  "could not open" path.
- For odd frame sizes the slice assignments do not leave a one-pixel seam. The
  destination slices are then one row or column larger than the top-left
  quadrant, so numpy refuses them (or, for a size of 3, broadcasts the single row
  or column). The model requires even sizes; see "Left out".

## Model

| member | source | states |
|---|---|---|
| `Modes.Mask` | test.py:96 | `waitKey(1) & 0xFF` is the unique code in 0..255 congruent to the raw code modulo 256; codes already in range are unchanged |
| `Modes.KeyFor` | test.py:99-119 | every mode has a letter that the chain decodes to selecting it, and the key table binds that letter to it |
| `Modes.SelectingKeyIsUnique` | test.py:99-119 | only that one letter selects a given mode |
| `Modes.Decode` | test.py:97-119 | the `if`/`elif` chain agrees with the key table `n g e s b d t q` on every code in 0..255; every code outside the table is ignored |
| `Modes.NextMode` | test.py:99-119 | the key handler changes the mode only to the mode whose letter was pressed, and a mode's letter always selects that mode |
| `Modes.KeyTransitions` | test.py:96-119 | for every masked code, the next mode is the one the key table binds to it when it binds a mode, and otherwise the prior mode; "no key pressed" (-1, masked to 255) is ignored |
| `Kaleidoscope.Flip` | test.py:24-26 | `cv2.flip` keeps the number of rows; `FlipAt` gives where each cell comes from |
| `Kaleidoscope.FlipAt` | test.py:24-26 | `cv2.flip` keeps the quadrant's shape; code 0 reverses the rows, code 1 the columns and code -1 both |
| `Kaleidoscope.FlipBothComposes` | test.py:24-26 | flipping with code -1 equals flipping the rows and then the columns, in either order |
| `Kaleidoscope.FlipInvolution` | test.py:24-26 | each flip undoes itself |
| `Kaleidoscope.Kaleidoscope` | test.py:23-32 | for even h the result has h rows; its cells are given by `KaleidoscopeQuadrants` |
| `Kaleidoscope.KaleidoscopeShape` | test.py:15-16 | for even h and w the result has the frame's h rows of w cells |
| `Kaleidoscope.KaleidoscopeQuadrants` | test.py:23-32 | the result has h rows of w cells; cell (i, j) is the rotated frame's cell at row i in the top half and row h-1-i in the bottom half, at column j in the left half and column w-1-j in the right half: the top-left quadrant, its column-flipped copy on the right, its row-flipped copy below and its copy flipped both ways diagonally opposite |
| `Kaleidoscope.KaleidoscopeAt` | test.py:23-32 | each output cell is the rotated frame's cell at its row and column folded into the top-left quadrant |
| `Kaleidoscope.KaleidoscopeReadsTopLeftOnly` | test.py:23 | the result depends only on the rotated frame's top-left quadrant |
| `Kaleidoscope.KaleidoscopeSymmetric` | test.py:29-32 | the result is its own mirror image: `cv2.flip` with any code leaves it unchanged |
| `Kaleidoscope.KaleidoscopeIdempotent` | test.py:23-32 | mirroring an already mirrored frame changes nothing |
| `Kaleidoscope.PasteQuadrants` | test.py:29-32 | writing the four quadrants over any frame, in the source's order, leaves exactly their tiling, whatever the frame held before |
| `Kaleidoscope.WriteBlock` | test.py:29-32 | a slice assignment `frame[top:bottom, left:right] = block` leaves the array holding `Paste` of its old cells: the block's cells in the slice and every other cell as it was |
| `Kaleidoscope.ApplyDoctorStrange` | test.py:14-34 | writes the four quadrants into `frame` in place, overwriting every cell with the kaleidoscope of the rotated frame, and returns the same array |
| `RenderLoop.ApplyFilter` | test.py:69-82 | in mode `None` no branch of the filter chain applies and the captured frame passes through unchanged |
| `RenderLoop.Displayed` | test.py:84-93 | the displayed frame is the filtered frame with the instructions drawn over it; in mode `None`, the captured frame with only the instructions |
| `RenderLoop.Script` | test.py:46-67 | a camera that did not open stops the script before any read, with nothing shown (the source never assigns `filter_mode` on that path; the trace's `Normal` there is only a placeholder); an opened camera reads nothing exactly when the first read fails; the first frame is shown unfiltered, since the mode starts as `None` |
| `RenderLoop.Loop` | test.py:61-119 | one frame is displayed per successful read, never more than the camera delivers; the loop ends by `q` or by a failed read, and reads nothing exactly when the first read fails |
| `RenderLoop.ModeAfterFirstKey` | test.py:96-119 | applying the first key and then the others is applying all the keys in order |
| `RenderLoop.UnmappedKeysKeepMode` | test.py:96-119 | keys that select no mode leave the mode unchanged, however many are pressed |
| `RenderLoop.LoopShown` | test.py:59-119 | frame i is displayed with the filter of the mode the first i keys selected |
| `RenderLoop.LoopFinalMode` | test.py:96-119 | the loop ends in the mode selected by all the keys it polled; a final `q` leaves the mode as it was |
| `RenderLoop.LoopStops` | test.py:63-98 | no `q` comes before the last frame read; a stop by `q` had `q` polled after the last frame; a stop by a failed read means every delivered frame was read and no `q` was polled |
| `RenderLoop.QuitEndsLoop` | test.py:97-98 | a `q` polled after frame i stops the loop with no frame after frame i read and no further read call |
| `RenderLoop.PassThroughUntilModeKey` | test.py:59-82 | starting from `None`, each frame is displayed unfiltered (only annotated) until a mode key is pressed |
| `RenderLoop.ModeKeyTakesEffect` | test.py:70-119 | a mode key pressed after frame i selects its filter for frame i + 1, whatever the mode was |
| `RenderLoop.FirstReadFails` | test.py:63-67 | when the first read fails nothing is displayed, the mode stays `None` and `read` is called once |
| `RenderLoop.Capture.constructor` | test.py:43 | a new capture has its frames pending and has been neither read nor released |
| `RenderLoop.Capture.Read` | test.py:63 | `cap.read()` returns the next frame and consumes it, or fails, once the stream has ended or when the device never opened; each call is counted |
| `RenderLoop.Capture.Release` | test.py:122 | `cap.release()` is counted and changes nothing else |
| `RenderLoop.Session` | test.py:43-123 | the script displays what `Script` says; provided no library call raises, it releases the camera exactly once when it opened, and it never releases it when it did not; it calls `read` once per frame plus once for a failed read; frames after a `q` stay unread |

## Left out

- The image operations are opaque functions in `RenderLoop.Library`: `cv2.cvtColor`, `cv2.Canny(_, 50, 150)`, `cv2.GaussianBlur(_, (15, 15), 0)`, `cv2.applyColorMap(_, COLORMAP_JET)`. They are foreign library calls with floating-point kernels.
- The 45-degree rotation (`cv2.getRotationMatrix2D`, `cv2.warpAffine`) is not modelled, because it is a floating-point interpolation in a library call. Its result is the `rotated` input of `Kaleidoscope.ApplyDoctorStrange`, and in the loop it is part of the opaque `doctorStrange`.
- `apply_sepia` (test.py:5-11) is opaque, because it is a floating-point channel transform through `cv2.transform`, followed by a clip.
- `apply_thermal_vision` (test.py:37-40) is only its composition: gray, then the color map. Both calls are opaque.
- The on-screen instructions are one opaque `overlay` function, because `cv2.putText` and `cv2.addWeighted` do font rendering and a floating-point blend.
- Frames are of an abstract type in the loop, and grids of opaque cells in the kaleidoscope. Channel counts, the 8-bit sample type and the one-channel output of grayscale and edges are not modelled.
- The loop's `doctorStrange` filter is opaque. `Kaleidoscope.ApplyDoctorStrange` models that filter given the rotated frame, but the two are not connected in the proofs.
- `cv2.imshow`, `cv2.destroyAllWindows` and the console messages are left out, because they are output only. The displayed frames are recorded as `Trace.shown`, and the reason for stopping as `Trace.stop`.
- The camera and the keyboard are inputs given up front: a sequence of frames, then a failing read; and a sequence of key codes. A camera that never fails while `q` is never pressed keeps the loop at test.py:61 running forever; such an endless stream is not represented, but every finite prefix of such a run is. Timing (the 1 ms wait) is not modelled.
- ApplyDoctorStrange: requires even height and width. For odd sizes the source's slice assignments at test.py:30-32 have a destination one row or column larger than the quadrant. numpy then raises a shape error after the top-left quadrant (and possibly the bottom-left one) has been written, or, for a size of 3, broadcasts the single row or column. That behaviour is not modelled.
- Session: the library calls are assumed not to raise. The script has no `try`/`finally`, so an exception inside the loop (such as the shape error of `apply_doctor_strange` on an odd-sized frame in mode `d`) ends it without reaching `cap.release()` at test.py:122; the model does not represent that path, and its promise of exactly one release holds only when no call raises.
