/** The filter modes of the webcam viewer and the keyboard table that switches
    between them (test.py, the `filter_mode` variable and the `if`/`elif` chain
    on the masked key code). */
module Modes {

  /** The value of `filter_mode`. `Normal` is the script's `None`: no filter. */
  datatype FilterMode = Normal | Grayscale | Edges | Sepia | Blurred | DoctorStrange | Thermal

  /** What one masked key code does to the render loop. */
  datatype KeyAction = Quit | Select(mode: FilterMode) | Ignore

  /** `waitKey(1) & 0xFF`. Python's `&` with the non-negative mask 0xFF keeps the
      low eight bits of the two's-complement value, which is the remainder modulo
      256 rounded towards minus infinity; so "no key" (-1) becomes 255. */
  function Mask(raw: int): (k: int)
    ensures 0 <= k < 256
    ensures (raw - k) % 256 == 0
    ensures 0 <= raw < 256 ==> k == raw
  {
    raw % 256
  }

  /** The `if`/`elif` chain on the key code: `q` quits, seven letters select a
      mode, and since the chain has no final `else` every other code is ignored.
      The chain agrees with the key table on every code. */
  function Decode(key: int): (a: KeyAction)
    ensures 0 <= key < 256 && (key as char) in Bindings ==> a == Bindings[key as char]
    ensures !(0 <= key < 256 && (key as char) in Bindings) ==> a == Ignore
  {
    if key == 'q' as int then Quit
    else if key == 'g' as int then Select(Grayscale)
    else if key == 'e' as int then Select(Edges)
    else if key == 's' as int then Select(Sepia)
    else if key == 'b' as int then Select(Blurred)
    else if key == 'd' as int then Select(DoctorStrange)
    else if key == 't' as int then Select(Thermal)
    else if key == 'n' as int then Select(Normal)
    else Ignore
  }

  /** The key table as the viewer's help text announces it, written as a map. */
  const Bindings: map<char, KeyAction> :=
    map['n' := Select(Normal), 'g' := Select(Grayscale), 'e' := Select(Edges),
        's' := Select(Sepia), 'b' := Select(Blurred), 'd' := Select(DoctorStrange),
        't' := Select(Thermal), 'q' := Quit]

  /** The mode after the key handler has seen the masked code `key` (when the
      key is not `q`, which ends the loop instead). */
  function NextMode(mode: FilterMode, key: int): (r: FilterMode)
    ensures r == mode || key == KeyFor(r) as int
    ensures key == KeyFor(r) as int || forall m :: key != KeyFor(m) as int
  {
    match Decode(key)
    case Select(m) => m
    case _ => mode
  }

  /** The letter that selects `mode`. */
  function KeyFor(mode: FilterMode): (c: char)
    ensures Decode(c as int) == Select(mode)
    ensures c in Bindings && Bindings[c] == Select(mode)
  {
    match mode
    case Normal => 'n'
    case Grayscale => 'g'
    case Edges => 'e'
    case Sepia => 's'
    case Blurred => 'b'
    case DoctorStrange => 'd'
    case Thermal => 't'
  }

  /** Only one key selects a given mode: `KeyFor` is the unique inverse of `Decode`. */
  lemma SelectingKeyIsUnique(key: int, mode: FilterMode)
    requires Decode(key) == Select(mode)
    ensures key == KeyFor(mode) as int
  {
  }

  /** The mode transitions as the key table gives them: a code bound to a mode
      selects that mode whatever the prior mode was, and every other non-quit
      code keeps the prior mode, including 255, which is "no key pressed" (-1)
      once masked. */
  lemma KeyTransitions(mode: FilterMode, key: int)
    requires 0 <= key < 256
    ensures NextMode(mode, key) ==
      if (key as char) in Bindings && Bindings[key as char].Select? then Bindings[key as char].mode else mode
    ensures Decode(Mask(-1)) == Ignore
  {
  }
}
