/** struct keyboard and the interrupt handler of src/drivers/keyboard.c. */
module Keyboard {
  import opened Words
  import opened InputQueue

  const EXTENDED_SCANCODE: byte := 0xE0
  const RELEASED_KEY: byte := 0x80

  const LEFT_SHIFT_KEY: byte := 0x2A
  const RIGHT_SHIFT_KEY: byte := 0x36
  const CAPS_LOCK_KEY: byte := 0x3A
  const ALTGR_KEY: byte := 0x38

  const CTRL_SCANCODES: seq<byte> := [0x2A, 0x36, 0x3A, 0x1D, 0x38]
  const EXTENDED_CTRL_SCANCODES: seq<byte> := [0x1D, 0x5B, 0x38, 0x48, 0x4D, 0x4B, 0x50]

  datatype Layer = Standard | Shift | AltGr

  /** The character tables of a keyboard; the last two may be missing (NULL). */
  datatype Layout = Layout(std: seq<byte>, shift: Option<seq<byte>>, altgr: Option<seq<byte>>)
  {
    predicate Valid() {
      |std| == 256 && (shift.Some? ==> |shift.value| == 256) && (altgr.Some? ==> |altgr.value| == 256)
    }

    /** keyboard_read_character: a missing table falls back to the standard one. */
    function Character(layer: Layer, scan: byte): byte
      requires Valid()
    {
      if Released(scan) then 0
      else if layer == Shift && shift.Some? then shift.value[scan]
      else if layer == AltGr && altgr.Some? then altgr.value[scan]
      else std[scan]
    }
  }

  predicate Released(scan: byte) {
    scan >= RELEASED_KEY
  }

  /** UNRELEASED, the scancode without its release bit. */
  function Key(scan: byte): byte {
    if Released(scan) then scan - RELEASED_KEY else scan
  }

  predicate IsControl(extended: bool, scan: byte) {
    Key(scan) in if extended then EXTENDED_CTRL_SCANCODES else CTRL_SCANCODES
  }

  /** What the handler keeps between interrupts. */
  datatype State = State(extended: bool, capsLock: bool, selected: Layer)

  const START := State(false, false, Standard)

  /** keyboard_change_table. */
  function TableChanged(s: State, scan: byte, extended: bool): State {
    var pressed :=
      if !extended && scan in [RIGHT_SHIFT_KEY, LEFT_SHIFT_KEY] then s.(selected := Shift)
      else if !extended && scan == CAPS_LOCK_KEY then s.(capsLock := !s.capsLock)
      else if extended && scan == ALTGR_KEY then s.(selected := AltGr)
      else s;
    if Released(scan) then pressed.(selected := if pressed.capsLock then Shift else Standard) else pressed
  }

  /** keyboard_handler: the new state, and the character to queue, 0 for none. */
  function Handle(layout: Layout, s: State, scan: byte): (State, byte)
    requires layout.Valid()
  {
    var extended, cleared := s.extended, s.(extended := false);
    if scan == EXTENDED_SCANCODE then (cleared.(extended := true), 0)
    else if IsControl(extended, scan) then (TableChanged(cleared, scan, extended), 0)
    else (cleared, layout.Character(cleared.selected, scan))
  }

  /** The state after the first n scancodes of a history. */
  function After(layout: Layout, history: seq<byte>, n: nat): State
    requires layout.Valid() && n <= |history|
  {
    if n == 0 then START else Handle(layout, After(layout, history, n - 1), history[n - 1]).0
  }

  // The same state read off the history, with no machine: scancodes are those of the keyboard, by number.

  /** The scancode at position i was announced by an extended prefix just before it. */
  predicate Extended(history: seq<byte>, i: nat) {
    0 < i <= |history| && history[i - 1] == 0xE0
  }

  predicate CapsAt(history: seq<byte>, i: nat) {
    i < |history| && history[i] == 0x3A && !Extended(history, i)
  }

  function CapsPresses(history: seq<byte>, n: nat): set<nat> {
    set i: nat | 0 <= i < n && CapsAt(history, i)
  }

  /** Caps lock has been pressed an odd number of times in the first n scancodes. */
  predicate CapsOdd(history: seq<byte>, n: nat) {
    |CapsPresses(history, n)| % 2 == 1
  }

  /** The scancode at position i is the press or, 0x80 above it, the release of a key that types nothing: both
      shifts, caps lock, left control and left alt; behind a prefix, right control, the menu key, AltGr and the
      arrows. */
  predicate ControlAt(history: seq<byte>, i: nat) {
    i < |history| && history[i] % 0x80 in if Extended(history, i) then {0x1D, 0x5B, 0x38, 0x48, 0x4D, 0x4B, 0x50}
                                          else {0x2A, 0x36, 0x3A, 0x1D, 0x38}
  }

  /** The scancode at position i selects a table: a shift or AltGr press, or the release of any
      control key. */
  predicate SelectsAt(history: seq<byte>, i: nat) {
    && ControlAt(history, i)
    && (history[i] >= 0x80 || history[i] in if Extended(history, i) then {0x38} else {0x2A, 0x36})
  }

  /** The table selected at position i. */
  function LayerAt(history: seq<byte>, i: nat): Layer
    requires i < |history|
  {
    if history[i] >= 0x80 then (if CapsOdd(history, i) then Shift else Standard)
    else if Extended(history, i) then AltGr else Shift
  }

  /** The table chosen by the last of the first n scancodes that selects one. */
  function LastSelected(history: seq<byte>, n: nat): Layer
    requires n <= |history|
  {
    if n == 0 then Standard
    else if SelectsAt(history, n - 1) then LayerAt(history, n - 1)
    else LastSelected(history, n - 1)
  }

  /** The keys of the handler's two arrays. */
  lemma ControlIsListed(history: seq<byte>, i: nat)
    requires i < |history|
    ensures IsControl(Extended(history, i), history[i]) <==> ControlAt(history, i)
    ensures history[i] == EXTENDED_SCANCODE ==> history[i] >= 0x80 && !ControlAt(history, i)
  {}

  lemma CapsStep(history: seq<byte>, n: nat)
    requires n < |history|
    ensures CapsOdd(history, n + 1) == (CapsOdd(history, n) != CapsAt(history, n))
  {
    var presses := CapsPresses(history, n);
    assert CapsPresses(history, n + 1) == if CapsAt(history, n) then presses + {n} else presses;
  }

  /** What one scancode does to the state, in the terms of the history. */
  lemma HandleStep(layout: Layout, history: seq<byte>, n: nat, s: State)
    requires layout.Valid() && n < |history| && s.extended == Extended(history, n)
    ensures var s' := Handle(layout, s, history[n]).0;
            && s'.extended == Extended(history, n + 1)
            && s'.capsLock == (s.capsLock != CapsAt(history, n))
            && (s.capsLock == CapsOdd(history, n) && SelectsAt(history, n) ==> s'.selected == LayerAt(history, n))
            && (!SelectsAt(history, n) ==> s'.selected == s.selected)
  {
    hide CapsOdd, ControlAt, IsControl;
    ControlIsListed(history, n);
    SelectorIsControl(history, n);
  }

  /** Every key that changes the state is among them. */
  lemma SelectorIsControl(history: seq<byte>, n: nat)
    requires n < |history|
    ensures CapsAt(history, n) ==> ControlAt(history, n)
  {}

  /** For every history: the trigger is set exactly after the prefix byte, caps lock is the parity of
      its presses, and the selected table is the one that the last selecting scancode chose. */
  lemma {:induction false} StateIsHistory(layout: Layout, history: seq<byte>, n: nat)
    requires layout.Valid() && n <= |history|
    ensures After(layout, history, n) == State(Extended(history, n), CapsOdd(history, n), LastSelected(history, n))
  {
    hide CapsOdd, SelectsAt, LayerAt, CapsAt, Handle, Extended;
    if n > 0 {
      StateIsHistory(layout, history, n - 1);
      HandleStep(layout, history, n - 1, After(layout, history, n - 1));
      CapsStep(history, n - 1);
    } else {
      NothingPressed(history);
    }
  }

  lemma NothingPressed(history: seq<byte>)
    ensures !CapsOdd(history, 0) && !Extended(history, 0)
  {
    assert CapsPresses(history, 0) == {};
  }

  /** The character that the scancode at position i types, 0 for none: nothing at a prefix, a control key or
      a release, and else what the table selected last holds, or the standard one if that is missing. */
  function CharacterAt(layout: Layout, history: seq<byte>, i: nat): byte
    requires layout.Valid() && i < |history|
  {
    var scan := history[i];
    if scan >= 0x80 || ControlAt(history, i) then 0
    else match LastSelected(history, i)
      case Standard => layout.std[scan]
      case Shift => layout.shift.GetOr(layout.std)[scan]
      case AltGr => layout.altgr.GetOr(layout.std)[scan]
  }

  /** That is what the handler queues. */
  lemma TypesByHistory(layout: Layout, history: seq<byte>, i: nat)
    requires layout.Valid() && i < |history|
    ensures Handle(layout, After(layout, history, i), history[i]).1 == CharacterAt(layout, history, i)
  {
    hide After, CapsOdd, LastSelected, ControlAt, IsControl, Extended;
    StateIsHistory(layout, history, i);
    ControlIsListed(history, i);
  }

  class Driver {
    const layout: Layout
    const buffer: Queue
    var extended: bool
    var capsLock: bool
    var selected: Layer

    constructor (layout: Layout, buffer: Queue)
      requires layout.Valid() && buffer.Valid()
      ensures this.layout == layout && this.buffer == buffer && Snapshot() == START
    {
      this.layout, this.buffer := layout, buffer;
      extended, capsLock, selected := false, false, Standard;
    }

    function Snapshot(): State
      reads this
    {
      State(extended, capsLock, selected)
    }

    ghost predicate Valid()
      reads buffer, buffer.values
    {
      layout.Valid() && buffer.Valid()
    }

    method ChangeTable(scan: byte, ext: bool)
      modifies `capsLock, `selected
      ensures Snapshot() == TableChanged(old(Snapshot()), scan, ext)
    {
      if !ext {
        if scan in [RIGHT_SHIFT_KEY, LEFT_SHIFT_KEY] {
          selected := Shift;
        } else if scan == CAPS_LOCK_KEY {
          capsLock := !capsLock;
        }
      } else if scan == ALTGR_KEY {
        selected := AltGr;
      }
      if Released(scan) {
        selected := if capsLock then Shift else Standard;
      }
    }

    /** The interrupt handler: one scancode in, at most one character queued, and that only when
        there is room. */
    method Handler(scan: byte)
      requires Valid()
      modifies this, buffer, buffer.values
      ensures Valid()
      ensures var (s', c) := Handle(layout, old(Snapshot()), scan);
              Snapshot() == s'
              && buffer.Contents() == if c == 0 || |old(buffer.Contents())| >= buffer.capacity
                                      then old(buffer.Contents()) else old(buffer.Contents()) + [c]
    {
      var ext := extended;
      extended := false;
      if scan == EXTENDED_SCANCODE {
        extended := true;
      } else if (!ext && Key(scan) in CTRL_SCANCODES) || (ext && Key(scan) in EXTENDED_CTRL_SCANCODES) {
        ChangeTable(scan, ext);
      } else {
        var chr := layout.Character(selected, scan);
        if chr != 0 {
          var full := buffer.Enqueue(chr);
        }
      }
    }
  }
}
