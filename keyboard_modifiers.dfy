/** `KeyboardModifiers`: a byte-backed flag enum, one bit per modifier key,
    so every combination fits the one-byte `Ctrl` field of a keyboard action. */
module KeyboardModifierFlags {

  datatype KeyboardModifier =
    LeftControl | LeftShift | LeftAlt | LeftGui | RightControl | RightShift | RightAlt | RightGui

  function Flag(m: KeyboardModifier): bv8
  {
    match m
    case LeftControl => 0x01
    case LeftShift => 0x02
    case LeftAlt => 0x04
    case LeftGui => 0x08
    case RightControl => 0x10
    case RightShift => 0x20
    case RightAlt => 0x40
    case RightGui => 0x80
  }

  const AllModifiers: seq<KeyboardModifier> :=
    [LeftControl, LeftShift, LeftAlt, LeftGui, RightControl, RightShift, RightAlt, RightGui]

  /** The modifiers OR-ed together in order, starting from 0. */
  function Combine(ms: seq<KeyboardModifier>): bv8
  {
    if ms == [] then 0 else Combine(ms[..|ms| - 1]) | Flag(ms[|ms| - 1])
  }

  /** Each flag is a single bit and no two flags share it, so a left
      modifier never collides with its right-hand twin. */
  lemma FlagsAreDistinctBits(a: KeyboardModifier, b: KeyboardModifier)
    ensures Flag(a) != 0 && Flag(a) & (Flag(a) - 1) == 0
    ensures a != b ==> Flag(a) & Flag(b) == 0
  {
  }

  /** A modifier is present in a combination exactly when it was combined in. */
  lemma {:induction false} CombineHas(ms: seq<KeyboardModifier>, m: KeyboardModifier)
    ensures Combine(ms) & Flag(m) != 0 <==> m in ms
  {
    if ms != [] {
      var init := ms[..|ms| - 1];
      CombineHas(init, m);
      assert ms == init + [ms[|ms| - 1]];
      FlagsAreDistinctBits(m, ms[|ms| - 1]);
    }
  }

  /** The eight flags together fill the byte. */
  lemma AllModifiersFillByte()
    ensures |AllModifiers| == 8
    ensures Combine(AllModifiers) == 0xFF
  {
    var c := Combine(AllModifiers);
    CombineHas(AllModifiers, LeftControl);
    CombineHas(AllModifiers, LeftShift);
    CombineHas(AllModifiers, LeftAlt);
    CombineHas(AllModifiers, LeftGui);
    CombineHas(AllModifiers, RightControl);
    CombineHas(AllModifiers, RightShift);
    CombineHas(AllModifiers, RightAlt);
    CombineHas(AllModifiers, RightGui);
    assert c & 0x01 != 0 && c & 0x02 != 0 && c & 0x04 != 0 && c & 0x08 != 0;
    assert c & 0x10 != 0 && c & 0x20 != 0 && c & 0x40 != 0 && c & 0x80 != 0;
  }
}
