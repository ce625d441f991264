/** `MouseButton`: flag values for the `Buttons` field of a mouse action.
    Left, right and middle are bits 0, 1 and 2. */
module MouseButtons {

  datatype MouseButton = MouseLeft | MouseRight | MouseMiddle

  function Flag(b: MouseButton): bv8
  {
    match b
    case MouseLeft => 1
    case MouseRight => 1 << 1
    case MouseMiddle => 1 << 2
  }

  /** The buttons OR-ed together in order, starting from 0 (what the click
      loop leaves in `Buttons`). */
  function Combine(bs: seq<MouseButton>): bv8
  {
    if bs == [] then 0 else Combine(bs[..|bs| - 1]) | Flag(bs[|bs| - 1])
  }

  /** The flag value a set of pressed buttons stands for. */
  function Mask(s: set<MouseButton>): bv8
  {
    (if MouseLeft in s then 1 else 0) |
    (if MouseRight in s then 2 else 0) |
    (if MouseMiddle in s then 4 else 0)
  }

  lemma FlagsAreDistinctBits(a: MouseButton, b: MouseButton)
    ensures Flag(a) != 0 && Flag(a) & (Flag(a) - 1) == 0
    ensures a != b ==> Flag(a) & Flag(b) == 0
    ensures Flag(MouseLeft) == 1 && Flag(MouseRight) == 2 && Flag(MouseMiddle) == 4
  {
  }

  /** OR-ing a list of buttons yields the mask of the set of buttons in it. */
  lemma {:induction false} CombineIsMask(bs: seq<MouseButton>)
    ensures Combine(bs) == Mask(set b | b in bs)
  {
    if bs != [] {
      var init := bs[..|bs| - 1];
      var last := bs[|bs| - 1];
      CombineIsMask(init);
      assert (set b | b in bs) == (set b | b in init) + {last} by {
        assert bs == init + [last];
      }
    }
  }

  /** The mask of a set determines the set, and always lies in 0..7. */
  lemma MaskDeterminesSet(s: set<MouseButton>, t: set<MouseButton>)
    ensures Mask(s) as int <= 7
    ensures Mask(s) == Mask(t) <==> s == t
  {
    if Mask(s) == Mask(t) {
      forall b ensures b in s <==> b in t {
        assert Mask(s) & Flag(b) == Mask(t) & Flag(b);
      }
    }
  }

  /** Neither the order of the buttons nor repetitions change the combination. */
  lemma CombineOrderIndependent(bs: seq<MouseButton>, cs: seq<MouseButton>)
    requires forall b :: b in bs <==> b in cs
    ensures Combine(bs) == Combine(cs)
  {
    CombineIsMask(bs);
    CombineIsMask(cs);
    assert (set b | b in bs) == (set b | b in cs);
  }

  /** No buttons means 0: all buttons up. */
  lemma NoButtonsIsZero()
    ensures Combine([]) == 0 && Mask({}) == 0
  {
  }
}
