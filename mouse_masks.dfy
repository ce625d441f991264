/** `MouseMasks`: eight combinable flags, bits 0..7, each suppressing one kind
    of physical mouse input on the device. */
module MouseMaskFlags {

  datatype MouseMask = Left | Right | Middle | Side1 | Side2 | XMovement | YMovement | Wheel

  function Flag(m: MouseMask): bv8
  {
    match m
    case Left => 1 << 0
    case Right => 1 << 1
    case Middle => 1 << 2
    case Side1 => 1 << 3
    case Side2 => 1 << 4
    case XMovement => 1 << 5
    case YMovement => 1 << 6
    case Wheel => 1 << 7
  }

  /** The OR of the flags of the masks in s. */
  function Combine(s: set<MouseMask>): bv8
  {
    (if Left in s then Flag(Left) else 0) |
    (if Right in s then Flag(Right) else 0) |
    (if Middle in s then Flag(Middle) else 0) |
    (if Side1 in s then Flag(Side1) else 0) |
    (if Side2 in s then Flag(Side2) else 0) |
    (if XMovement in s then Flag(XMovement) else 0) |
    (if YMovement in s then Flag(YMovement) else 0) |
    (if Wheel in s then Flag(Wheel) else 0)
  }

  predicate HasFlag(v: bv8, m: MouseMask)
  {
    v & Flag(m) != 0
  }

  lemma FlagsAreDistinctBits(a: MouseMask, b: MouseMask)
    ensures Flag(a) != 0 && Flag(a) & (Flag(a) - 1) == 0
    ensures a != b ==> Flag(a) & Flag(b) == 0
  {
  }

  /** A combination carries exactly the masks that went into it: combining
      loses none of them (movement on X, on Y, the wheel and every button). */
  lemma CombineKeepsEach(s: set<MouseMask>, m: MouseMask)
    ensures HasFlag(Combine(s), m) <==> m in s
  {
  }

  /** Different sets of masks give different values; all lie in 0..255. */
  lemma CombineInjective(s: set<MouseMask>, t: set<MouseMask>)
    ensures Combine(s) == Combine(t) ==> s == t
    ensures 0 <= Combine(s) as int < 256
  {
    if Combine(s) == Combine(t) {
      forall m ensures m in s <==> m in t {
        CombineKeepsEach(s, m);
        CombineKeepsEach(t, m);
      }
    }
  }
}
