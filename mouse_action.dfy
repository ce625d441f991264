/** The 56-byte mouse payload (`MouseAction`): signed 32-bit `Buttons`, `X`,
    `Y` and `Wheel` at offsets 0, 4, 8 and 12, then ten signed 32-bit
    `Points` from offset 16. All little-endian two's complement. */
module MouseActionLayout {
  import opened Bytes

  /** `Points` is marshalled as a by-value array of exactly ten ints. */
  type Points = s: seq<i32> | |s| == 10 witness [0, 0, 0, 0, 0, 0, 0, 0, 0, 0]

  datatype MouseAction = MouseAction(buttons: i32, x: i32, y: i32, wheel: i32, points: Points)

  const Size: nat := 56

  const ZeroPoints: Points := [0, 0, 0, 0, 0, 0, 0, 0, 0, 0]

  /** `new MouseAction()`: every field zero, `Points` ten zeros. */
  const Default: MouseAction := MouseAction(0, 0, 0, 0, ZeroPoints)

  function EncodeInts(ps: seq<i32>): (b: seq<u8>)
    ensures |b| == 4 * |ps|
  {
    if ps == [] then [] else EncodeI32(ps[0]) + EncodeInts(ps[1..])
  }

  function DecodeInts(b: seq<u8>, n: nat): (ps: seq<i32>)
    requires |b| >= 4 * n
    ensures |ps| == n
  {
    if n == 0 then [] else [DecodeI32(b[0..4])] + DecodeInts(b[4..], n - 1)
  }

  function Encode(m: MouseAction): (b: seq<u8>)
    ensures |b| == Size
  {
    EncodeI32(m.buttons) + EncodeI32(m.x) + EncodeI32(m.y) + EncodeI32(m.wheel) + EncodeInts(m.points)
  }

  /** Reads a mouse action from the start of `b`. */
  function Decode(b: seq<u8>): MouseAction
    requires |b| >= Size
  {
    MouseAction(DecodeI32(b[0..4]), DecodeI32(b[4..8]), DecodeI32(b[8..12]), DecodeI32(b[12..16]),
                DecodeInts(b[16..56], 10))
  }

  /** Point k of the list sits at byte 4k of its encoding. */
  lemma {:induction false} IntAt(ps: seq<i32>, k: nat)
    requires k < |ps|
    ensures EncodeInts(ps)[4 * k..4 * k + 4] == EncodeI32(ps[k])
  {
    if k > 0 {
      IntAt(ps[1..], k - 1);
      var b := EncodeInts(ps);
      assert b == EncodeI32(ps[0]) + EncodeInts(ps[1..]);
      assert b[4 * k..4 * k + 4] == EncodeInts(ps[1..])[4 * (k - 1)..4 * (k - 1) + 4];
    }
  }

  lemma {:induction false} IntsRoundTrip(ps: seq<i32>, rest: seq<u8>)
    ensures DecodeInts(EncodeInts(ps) + rest, |ps|) == ps
  {
    if ps != [] {
      var head, tail := EncodeI32(ps[0]), EncodeInts(ps[1..]);
      var b := EncodeInts(ps) + rest;
      ConcatAssoc(head, tail, rest);
      SliceOfConcat(head, tail + rest, []);
      assert b == head + (tail + rest);
      assert b[0..4] == head && b[4..] == tail + rest;
      I32RoundTrip(ps[0], head);
      IntsRoundTrip(ps[1..], rest);
      assert ps == [ps[0]] + ps[1..];
    }
  }

  lemma {:induction false} IntsDecodeEncode(b: seq<u8>, n: nat)
    requires |b| == 4 * n
    ensures EncodeInts(DecodeInts(b, n)) == b
  {
    if n > 0 {
      var ps := DecodeInts(b, n);
      assert ps[1..] == DecodeInts(b[4..], n - 1);
      IntsDecodeEncode(b[4..], n - 1);
      I32RoundTrip(0, b[0..4]);
      assert b == b[0..4] + b[4..];
    }
  }

  lemma FieldOffsets(m: MouseAction)
    ensures Encode(m)[0..4] == EncodeI32(m.buttons)
    ensures Encode(m)[4..8] == EncodeI32(m.x)
    ensures Encode(m)[8..12] == EncodeI32(m.y)
    ensures Encode(m)[12..16] == EncodeI32(m.wheel)
    ensures Encode(m)[16..56] == EncodeInts(m.points)
    ensures forall k :: 0 <= k < 10 ==> Encode(m)[16 + 4 * k..20 + 4 * k] == EncodeI32(m.points[k])
  {
    var b := Encode(m);
    assert b[0..4] == EncodeI32(m.buttons);
    assert b[4..8] == EncodeI32(m.x);
    assert b[8..12] == EncodeI32(m.y);
    assert b[12..16] == EncodeI32(m.wheel);
    assert b[16..56] == EncodeInts(m.points);
    forall k | 0 <= k < 10
      ensures b[16 + 4 * k..20 + 4 * k] == EncodeI32(m.points[k])
    {
      IntAt(m.points, k);
      assert b[16 + 4 * k..20 + 4 * k] == b[16..56][4 * k..4 * k + 4];
    }
  }

  /** Every action, negative deltas included, survives encoding; bytes after
      the 56th do not disturb decoding. */
  lemma DecodeEncode(m: MouseAction, rest: seq<u8>)
    ensures Decode(Encode(m) + rest) == m
  {
    var b := Encode(m) + rest;
    FieldOffsets(m);
    assert b[..56] == Encode(m);
    assert b[0..4] == Encode(m)[0..4] && b[4..8] == Encode(m)[4..8];
    assert b[8..12] == Encode(m)[8..12] && b[12..16] == Encode(m)[12..16];
    assert b[16..56] == EncodeInts(m.points) + [];
    I32RoundTrip(m.buttons, b[0..4]);
    I32RoundTrip(m.x, b[4..8]);
    I32RoundTrip(m.y, b[8..12]);
    I32RoundTrip(m.wheel, b[12..16]);
    IntsRoundTrip(m.points, []);
  }

  lemma EncodeDecode(b: seq<u8>)
    requires |b| == Size
    ensures Encode(Decode(b)) == b
  {
    var m := Decode(b);
    var b0, b1, b2, b3, rest := b[0..4], b[4..8], b[8..12], b[12..16], b[16..56];
    assert EncodeI32(m.buttons) == b0 by { I32RoundTrip(0, b0); }
    assert EncodeI32(m.x) == b1 by { I32RoundTrip(0, b1); }
    assert EncodeI32(m.y) == b2 by { I32RoundTrip(0, b2); }
    assert EncodeI32(m.wheel) == b3 by { I32RoundTrip(0, b3); }
    assert EncodeInts(m.points) == rest by { IntsDecodeEncode(rest, 10); }
    assert b == b0 + b1 + b2 + b3 + rest;
  }

  /** Zeros encode as zero bytes. */
  lemma {:induction false} ZeroInts(n: nat)
    ensures EncodeInts(seq(n, _ => 0)) == seq(4 * n, _ => 0)
  {
    if n > 0 {
      var ps: seq<i32> := seq(n, _ => 0);
      assert ps[1..] == seq(n - 1, _ => 0);
      ZeroInts(n - 1);
      assert EncodeI32(0) == [0, 0, 0, 0];
      assert EncodeInts(ps) == [0, 0, 0, 0] + seq(4 * (n - 1), _ => 0);
    }
  }

  /** A fresh action encodes as 56 zero bytes. */
  lemma DefaultIsZeroBytes()
    ensures Encode(Default) == seq(Size, _ => 0)
  {
    var z := EncodeI32(0);
    assert z == [0, 0, 0, 0];
    assert ZeroPoints == seq(10, _ => 0);
    ZeroInts(10);
    assert Encode(Default) == z + z + z + z + seq(40, _ => 0);
  }
}
