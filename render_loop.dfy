/** The viewer's main script (test.py:43-123): open the camera, then read, filter,
    annotate, show and poll a key until `q` or a failed read, then release the
    camera once.

    The image operations are library calls and are opaque here: a `Library`
    value supplies them as functions on an abstract frame type `F`. The keyboard
    is the sequence of codes `waitKey(1)` returns, one per iteration; when that
    sequence is used up, no key is pressed and `waitKey` gives -1. */
module RenderLoop {
  import opened Modes

  datatype Option<T> = None | Some(value: T)

  /** The library calls the loop makes, each an opaque function on frames. */
  datatype Library<!F> = Library(
    toGray: F -> F,         // cv2.cvtColor(frame, cv2.COLOR_BGR2GRAY)
    canny: F -> F,          // cv2.Canny(gray, 50, 150)
    sepia: F -> F,          // apply_sepia(frame)
    blur: F -> F,           // cv2.GaussianBlur(frame, (15, 15), 0)
    doctorStrange: F -> F,  // apply_doctor_strange(frame), see module Kaleidoscope
    colorMap: F -> F,       // cv2.applyColorMap(gray, cv2.COLORMAP_JET)
    overlay: F -> F)        // putText on a copy, then addWeighted(copy, 0.9, frame, 0.1, 0)

  /** The `if`/`elif` chain that applies the selected filter; in mode `Normal`
      no branch matches and the frame passes through. */
  function ApplyFilter<F>(lib: Library<F>, mode: FilterMode, frame: F): (r: F)
    ensures mode == Normal ==> r == frame
  {
    match mode
    case Normal => frame
    case Grayscale => lib.toGray(frame)
    case Edges => lib.canny(lib.toGray(frame))
    case Sepia => lib.sepia(frame)
    case Blurred => lib.blur(frame)
    case DoctorStrange => lib.doctorStrange(frame)
    case Thermal => lib.colorMap(lib.toGray(frame))
  }

  /** The frame `imshow` displays for a captured frame in a given mode: the
      filtered frame with the instructions drawn over it, so in mode `Normal`
      the captured frame with only the instructions. */
  function Displayed<F>(lib: Library<F>, mode: FilterMode, frame: F): (r: F)
    ensures mode == Normal ==> r == lib.overlay(frame)
  {
    lib.overlay(ApplyFilter(lib, mode, frame))
  }

  /** The code `waitKey(1)` returns at iteration `i`: -1 once the keys run out. */
  function KeyAt(keys: seq<int>, i: nat): int
  {
    if i < |keys| then keys[i] else -1
  }

  /** The keys left for the next iterations once one key has been polled. */
  function LaterKeys(keys: seq<int>): (r: seq<int>)
    ensures forall i: nat :: KeyAt(r, i) == KeyAt(keys, i + 1)
  {
    if keys == [] then [] else keys[1..]
  }

  /** Whether the raw code polled quits the loop. */
  predicate IsQuit(raw: int)
  {
    Decode(Mask(raw)) == Quit
  }

  /** Why the script stopped: the `q` key, a failed read, or a camera that did
      not open (then the loop is never entered). */
  datatype Stop = QuitKey | StreamEnded | DeviceUnavailable

  /** What a run of the script did: the frames it displayed, the mode it ended
      in, how many frames it read successfully, and why it stopped. */
  datatype Trace<F> = Trace(shown: seq<F>, mode: FilterMode, framesRead: nat, stop: Stop)

  /** How many times the script called `cap.read()`: once per frame read, and once
      more for the read that failed. */
  function ReadCalls<F>(t: Trace<F>): nat
  {
    t.framesRead + if t.stop == StreamEnded then 1 else 0
  }

  /** The `while True` loop from `mode` on, when the camera still delivers
      `frames` and then fails, and the keys polled are `keys`. */
  function Loop<F>(lib: Library<F>, frames: seq<F>, keys: seq<int>, mode: FilterMode): (t: Trace<F>)
    ensures |t.shown| == t.framesRead <= |frames|
    ensures t.stop == QuitKey || t.stop == StreamEnded
    ensures t.framesRead == 0 <==> frames == []
    decreases |frames|
  {
    if frames == [] then Trace([], mode, 0, StreamEnded)
    else
      var shown := Displayed(lib, mode, frames[0]);
      var key := Mask(KeyAt(keys, 0));
      if Decode(key) == Quit then Trace([shown], mode, 1, QuitKey)
      else
        var rest := Loop(lib, frames[1..], LaterKeys(keys), NextMode(mode, key));
        Trace([shown] + rest.shown, rest.mode, rest.framesRead + 1, rest.stop)
  }

  /** A run that first displayed `shown`, reading `n` frames, and then went on as `rest`. */
  function Prepend<F>(shown: seq<F>, n: nat, rest: Trace<F>): Trace<F>
  {
    Trace(shown + rest.shown, rest.mode, n + rest.framesRead, rest.stop)
  }

  /** One iteration that reads a frame and polls a key other than `q`: the frame
      is displayed in the current mode, and the loop goes on with the rest of
      the frames and keys in the mode that key selects. */
  lemma LoopStep<F>(lib: Library<F>, frames: seq<F>, keys: seq<int>, mode: FilterMode)
    requires frames != [] && !IsQuit(KeyAt(keys, 0))
    ensures Loop(lib, frames, keys, mode)
      == Prepend([Displayed(lib, mode, frames[0])], 1,
                 Loop(lib, frames[1..], LaterKeys(keys), NextMode(mode, Mask(KeyAt(keys, 0)))))
  {
  }

  /** Prepending twice is prepending once what both prepended. */
  lemma PrependTwice<F>(a: seq<F>, m: nat, b: seq<F>, n: nat, rest: Trace<F>)
    ensures Prepend(a, m, Prepend(b, n, rest)) == Prepend(a + b, m + n, rest)
  {
    assert a + (b + rest.shown) == (a + b) + rest.shown;
  }

  /** The whole script: nothing happens when the camera did not open, and the
      loop starts in mode `Normal` (`filter_mode = None`) when it did. The
      script never sets `filter_mode` when the camera did not open; the mode
      `Normal` in that trace is only a placeholder. */
  function Script<F>(isOpen: bool, frames: seq<F>, keys: seq<int>, lib: Library<F>): (t: Trace<F>)
    ensures |t.shown| == t.framesRead <= |frames|
    ensures t.stop == DeviceUnavailable <==> !isOpen
    ensures !isOpen ==> t.framesRead == 0 && t.mode == Normal
    ensures isOpen ==> (t.framesRead == 0 <==> frames == [])
    ensures isOpen && frames != [] ==> t.shown[0] == lib.overlay(frames[0])
  {
    if isOpen then Loop(lib, frames, keys, Normal) else Trace([], Normal, 0, DeviceUnavailable)
  }

  /** The mode after the first `n` keys, starting from `mode`, independent of
      the frames: every key is applied in turn by the key handler. */
  function ModeAfter(mode: FilterMode, keys: seq<int>, n: nat): FilterMode
  {
    if n == 0 then mode else NextMode(ModeAfter(mode, keys, n - 1), Mask(KeyAt(keys, n - 1)))
  }

  /** Applying the first key and then the remaining `n` keys is applying `n + 1` keys. */
  lemma {:induction false} ModeAfterFirstKey(mode: FilterMode, keys: seq<int>, n: nat)
    ensures ModeAfter(NextMode(mode, Mask(KeyAt(keys, 0))), LaterKeys(keys), n) == ModeAfter(mode, keys, n + 1)
  {
    if n > 0 {
      ModeAfterFirstKey(mode, keys, n - 1);
      assert KeyAt(LaterKeys(keys), n - 1) == KeyAt(keys, n);
    }
  }

  /** Keys that select no mode leave the mode where it was. */
  lemma {:induction false} UnmappedKeysKeepMode(mode: FilterMode, keys: seq<int>, n: nat)
    requires forall k :: 0 <= k < n ==> !Decode(Mask(KeyAt(keys, k))).Select?
    ensures ModeAfter(mode, keys, n) == mode
  {
    if n > 0 {
      UnmappedKeysKeepMode(mode, keys, n - 1);
      assert !Decode(Mask(KeyAt(keys, n - 1))).Select?;
    }
  }

  /** Frame i is displayed in the mode the first i keys selected. */
  lemma {:induction false} LoopShown<F>(lib: Library<F>, frames: seq<F>, keys: seq<int>, mode: FilterMode)
    ensures forall i :: 0 <= i < Loop(lib, frames, keys, mode).framesRead ==>
      Loop(lib, frames, keys, mode).shown[i] == Displayed(lib, ModeAfter(mode, keys, i), frames[i])
  {
    var t := Loop(lib, frames, keys, mode);
    if frames != [] {
      var key := Mask(KeyAt(keys, 0));
      if Decode(key) != Quit {
        var next := NextMode(mode, key);
        var rest := Loop(lib, frames[1..], LaterKeys(keys), next);
        LoopStep(lib, frames, keys, mode);
        assert t.shown == [Displayed(lib, mode, frames[0])] + rest.shown;
        LoopShown(lib, frames[1..], LaterKeys(keys), next);
        forall i | 0 <= i < t.framesRead
          ensures t.shown[i] == Displayed(lib, ModeAfter(mode, keys, i), frames[i])
        {
          if i > 0 {
            ModeAfterFirstKey(mode, keys, i - 1);
            assert t.shown[i] == rest.shown[i - 1];
          }
        }
      }
    }
  }

  /** The loop ends in the mode selected by all the keys it polled (a final `q`
      leaves the mode as it was). */
  lemma {:induction false} LoopFinalMode<F>(lib: Library<F>, frames: seq<F>, keys: seq<int>, mode: FilterMode)
    ensures Loop(lib, frames, keys, mode).mode == ModeAfter(mode, keys, Loop(lib, frames, keys, mode).framesRead)
  {
    if frames != [] {
      var key := Mask(KeyAt(keys, 0));
      if Decode(key) == Quit {
        assert ModeAfter(mode, keys, 1) == NextMode(mode, key) == mode;
      } else {
        var next := NextMode(mode, key);
        var rest := Loop(lib, frames[1..], LaterKeys(keys), next);
        LoopFinalMode(lib, frames[1..], LaterKeys(keys), next);
        ModeAfterFirstKey(mode, keys, rest.framesRead);
      }
    }
  }

  /** The loop stops at the first `q` among the frames it reads, and only a
      failed read after the last frame stops it otherwise. */
  lemma {:induction false} LoopStops<F>(lib: Library<F>, frames: seq<F>, keys: seq<int>, mode: FilterMode)
    ensures forall i :: 0 <= i < Loop(lib, frames, keys, mode).framesRead - 1 ==> !IsQuit(KeyAt(keys, i))
    ensures Loop(lib, frames, keys, mode).stop == QuitKey ==>
      IsQuit(KeyAt(keys, Loop(lib, frames, keys, mode).framesRead - 1))
    ensures Loop(lib, frames, keys, mode).stop == StreamEnded ==>
      Loop(lib, frames, keys, mode).framesRead == |frames| &&
      forall i :: 0 <= i < |frames| ==> !IsQuit(KeyAt(keys, i))
  {
    var t := Loop(lib, frames, keys, mode);
    if frames != [] {
      var key := Mask(KeyAt(keys, 0));
      if Decode(key) != Quit {
        var next := NextMode(mode, key);
        var rest := Loop(lib, frames[1..], LaterKeys(keys), next);
        LoopStops(lib, frames[1..], LaterKeys(keys), next);
        forall i | 0 <= i < t.framesRead - 1
          ensures !IsQuit(KeyAt(keys, i))
        {
          if i > 0 {
            assert KeyAt(LaterKeys(keys), i - 1) == KeyAt(keys, i);
          }
        }
        if t.stop == StreamEnded {
          forall i | 0 <= i < |frames|
            ensures !IsQuit(KeyAt(keys, i))
          {
            if i > 0 {
              assert KeyAt(LaterKeys(keys), i - 1) == KeyAt(keys, i);
            }
          }
        }
      }
    }
  }

  /** A `q` polled after frame i ends the loop there: no frame after frame i
      is read, and no read fails. */
  lemma QuitEndsLoop<F>(lib: Library<F>, frames: seq<F>, keys: seq<int>, mode: FilterMode, i: nat)
    requires i < |frames| && IsQuit(KeyAt(keys, i))
    ensures Loop(lib, frames, keys, mode).stop == QuitKey
    ensures Loop(lib, frames, keys, mode).framesRead <= i + 1
    ensures ReadCalls(Loop(lib, frames, keys, mode)) == Loop(lib, frames, keys, mode).framesRead
  {
    LoopStops(lib, frames, keys, mode);
  }

  /** Until a mode key is pressed the script shows every frame unfiltered, only
      annotated with the instructions. */
  lemma PassThroughUntilModeKey<F>(lib: Library<F>, frames: seq<F>, keys: seq<int>, i: nat)
    requires i < Loop(lib, frames, keys, Normal).framesRead
    requires forall k :: 0 <= k < i ==> !Decode(Mask(KeyAt(keys, k))).Select?
    ensures Loop(lib, frames, keys, Normal).shown[i] == lib.overlay(frames[i])
  {
    LoopShown(lib, frames, keys, Normal);
    UnmappedKeysKeepMode(Normal, keys, i);
  }

  /** A mode key polled after frame i selects its mode for frame i + 1,
      whatever the mode was before. */
  lemma ModeKeyTakesEffect<F>(lib: Library<F>, frames: seq<F>, keys: seq<int>, mode: FilterMode, i: nat, m: FilterMode)
    requires i + 1 < Loop(lib, frames, keys, mode).framesRead
    requires Decode(Mask(KeyAt(keys, i))) == Select(m)
    ensures Loop(lib, frames, keys, mode).shown[i + 1] == Displayed(lib, m, frames[i + 1])
  {
    LoopShown(lib, frames, keys, mode);
  }

  /** When the camera delivers no frame at all, the first read fails: nothing
      is displayed, no key is polled, the mode stays `Normal`, and read is
      called exactly once. */
  lemma FirstReadFails<F>(lib: Library<F>, keys: seq<int>)
    ensures Script(true, [], keys, lib) == Trace([], Normal, 0, StreamEnded)
    ensures ReadCalls(Script(true, [], keys, lib)) == 1
  {
  }

  /** `cv2.VideoCapture(0)` as far as the script uses it. */
  class Capture<F> {
    /** `cap.isOpened()` */
    const isOpen: bool
    /** The frames the device still delivers before a read fails. */
    var pending: seq<F>
    /** How many times `read` was called. */
    var readCount: nat
    /** How many times `release` was called. */
    var releaseCount: nat

    constructor (isOpen: bool, frames: seq<F>)
      ensures this.isOpen == isOpen && pending == frames && readCount == 0 && releaseCount == 0
    {
      this.isOpen := isOpen;
      pending := frames;
      readCount := 0;
      releaseCount := 0;
    }

    /** `cap.read()`: the next frame, or `None` (`ret` false) once the stream has
        ended or when the device never opened. */
    method Read() returns (frame: Option<F>)
      modifies this
      ensures readCount == old(readCount) + 1 && releaseCount == old(releaseCount)
      ensures if isOpen && old(pending) != []
              then frame == Some(old(pending)[0]) && pending == old(pending)[1..]
              else frame == None && pending == old(pending)
    {
      readCount := readCount + 1;
      if isOpen && pending != [] {
        frame := Some(pending[0]);
        pending := pending[1..];
      } else {
        frame := None;
      }
    }

    /** `cap.release()` */
    method Release()
      modifies this
      ensures releaseCount == old(releaseCount) + 1 && readCount == old(readCount) && pending == old(pending)
    {
      releaseCount := releaseCount + 1;
    }
  }

  /** The script from `cap.isOpened()` to `cap.release()`. It displays what
      `Script` says, releases the camera exactly once when it opened and never
      when it did not, calls `read` once per frame read plus once for a failed
      read, and leaves unread the frames after a `q`. */
  method Session<F>(cap: Capture<F>, keys: seq<int>, lib: Library<F>) returns (t: Trace<F>)
    modifies cap
    ensures t == Script(cap.isOpen, old(cap.pending), keys, lib)
    ensures cap.releaseCount == old(cap.releaseCount) + (if cap.isOpen then 1 else 0)
    ensures cap.readCount == old(cap.readCount) + ReadCalls(t)
    ensures t.framesRead <= |old(cap.pending)| && cap.pending == old(cap.pending)[t.framesRead..]
  {
    if !cap.isOpen {
      // the error message is not modelled
      return Trace([], Normal, 0, DeviceUnavailable);
    }
    ghost var frames0, reads0 := cap.pending, cap.readCount;
    var mode := Normal;
    var shown: seq<F> := [];
    var n := 0;
    var ks := keys;
    var stop := StreamEnded;
    while true
      invariant cap.releaseCount == old(cap.releaseCount)
      invariant n <= |frames0| && cap.pending == frames0[n..] && cap.readCount == reads0 + n
      invariant |shown| == n
      invariant Loop(lib, frames0, keys, Normal) == Prepend(shown, n, Loop(lib, cap.pending, ks, mode))
      decreases |cap.pending|
    {
      ghost var pendingBefore, keysBefore, modeBefore, shownBefore := cap.pending, ks, mode, shown;
      var got := cap.Read();
      if got.None? {
        // the message is not modelled
        stop := StreamEnded;
        break;
      }
      var frame := ApplyFilter(lib, mode, got.value);
      frame := lib.overlay(frame);
      shown := shown + [frame];
      n := n + 1;
      var key := Mask(KeyAt(ks, 0));
      ks := LaterKeys(ks);
      match Decode(key) {
        case Quit =>
          stop := QuitKey;
          break;
        case Select(m) =>
          mode := m;
        case Ignore =>
      }
      LoopStep(lib, pendingBefore, keysBefore, modeBefore);
      PrependTwice(shownBefore, n - 1, [frame], 1, Loop(lib, cap.pending, ks, mode));
    }
    t := Trace(shown, mode, n, stop);
    cap.Release();
  }
}
