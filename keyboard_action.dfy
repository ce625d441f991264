/** The 12-byte keyboard payload (`KeyboardAction`): `Ctrl` (modifier flags)
    at offset 0, `ResVel` at 1 and the ten key slots `Button0`..`Button9` at
    offsets 2..11, one byte each (0 = empty slot). */
module KeyboardActionLayout {
  import opened Bytes

  /** `Button0`..`Button9`: slot i is field `Button<i>`. */
  type ButtonSlots = s: seq<u8> | |s| == 10 witness [0, 0, 0, 0, 0, 0, 0, 0, 0, 0]

  const EmptySlots: ButtonSlots := [0, 0, 0, 0, 0, 0, 0, 0, 0, 0]

  /** The marshalled contents of a keyboard action, as a value. */
  datatype KeyboardActionValue = KeyboardActionValue(ctrl: u8, resVel: u8, buttons: ButtonSlots)
  {
    /** Presses `button` in the first slot with the given modifiers. */
    function SetButtons(button: u8, modifiers: u8): (r: KeyboardActionValue)
      ensures r.buttons[0] == button && r.ctrl == modifiers
      ensures r.resVel == resVel && r.buttons[1..] == buttons[1..]
    {
      this.(buttons := buttons[0 := button], ctrl := modifiers)
    }

    /** Empties all ten slots. */
    function ResetButtons(): (r: KeyboardActionValue)
      ensures forall i :: 0 <= i < 10 ==> r.buttons[i] == 0
      ensures r.ctrl == ctrl && r.resVel == resVel
    {
      this.(buttons := EmptySlots)
    }
  }

  /** `new KeyboardAction()`: no modifier, no key; sent as "all keys up". */
  const Released: KeyboardActionValue := KeyboardActionValue(0, 0, EmptySlots)

  /** The mutable action a caller fills in before sending it: `SetButtons`
      and `ResetButtons` assign its fields in place. */
  class KeyboardAction {
    var ctrl: u8
    var resVel: u8
    var buttons: ButtonSlots

    function Value(): KeyboardActionValue
      reads this
    {
      KeyboardActionValue(ctrl, resVel, buttons)
    }

    constructor ()
      ensures Value() == Released
    {
      ctrl, resVel, buttons := 0, 0, EmptySlots;
    }

    method SetButtons(button: u8, modifiers: u8)
      modifies this
      ensures Value() == old(Value()).SetButtons(button, modifiers)
    {
      buttons := buttons[0 := button];
      ctrl := modifiers;
    }

    method ResetButtons()
      modifies this
      ensures Value() == old(Value()).ResetButtons()
    {
      buttons := EmptySlots;
    }
  }

  const Size: nat := 12

  function Encode(k: KeyboardActionValue): (b: seq<u8>)
    ensures |b| == Size
  {
    [k.ctrl, k.resVel] + k.buttons
  }

  /** Reads a keyboard action from the start of `b`. */
  function Decode(b: seq<u8>): KeyboardActionValue
    requires |b| >= Size
  {
    KeyboardActionValue(b[0], b[1], b[2..12])
  }

  lemma FieldOffsets(k: KeyboardActionValue)
    ensures Encode(k)[0] == k.ctrl && Encode(k)[1] == k.resVel
    ensures forall i :: 0 <= i < 10 ==> Encode(k)[2 + i] == k.buttons[i]
  {
  }

  lemma DecodeEncode(k: KeyboardActionValue, rest: seq<u8>)
    ensures Decode(Encode(k) + rest) == k
  {
    assert (Encode(k) + rest)[2..12] == k.buttons;
  }

  lemma EncodeDecode(b: seq<u8>)
    requires |b| == Size
    ensures Encode(Decode(b)) == b
  {
  }

  /** Resetting twice is resetting once. */
  lemma ResetIdempotent(k: KeyboardActionValue)
    ensures k.ResetButtons().ResetButtons() == k.ResetButtons()
  {
  }

  /** The release payload is twelve zero bytes, and a key-down payload is
      never the release payload unless both its key and modifiers are 0. */
  lemma ReleaseIsZeroBytes(button: u8, modifiers: u8)
    ensures Encode(Released) == seq(Size, _ => 0)
    ensures Encode(Released.SetButtons(button, modifiers)) == Encode(Released) <==> button == 0 && modifiers == 0
  {
    var down := Encode(Released.SetButtons(button, modifiers));
    assert down[0] == modifiers && down[2] == button;
  }
}
