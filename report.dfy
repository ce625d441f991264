/** Monitor reports streamed by the device: an 8-byte mouse report, a 12-byte
    keyboard report, and their 20-byte composite (mouse at offset 0,
    keyboard at offset 8). */
module Reports {
  import opened Bytes

  /** `ReportId`@0, `Buttons`@1, and signed 16-bit `X`@2, `Y`@4, `Wheel`@6. */
  datatype MouseReport = MouseReport(reportId: u8, buttons: u8, x: i16, y: i16, wheel: i16)

  /** The ten pressed-key slots, `FirstKey` .. `TenthButton`, at offsets 2..11. */
  type KeySlots = s: seq<u8> | |s| == 10 witness [0, 0, 0, 0, 0, 0, 0, 0, 0, 0]

  /** `ReportId`@0, `Buttons`@1, ten key slots @2..11. */
  datatype KeyboardReport = KeyboardReport(reportId: u8, buttons: u8, keys: KeySlots)
  {
    /** Whether `button` occupies any of the ten key slots. */
    predicate IsButtonPressed(button: u8): (r: bool)
      ensures r <==> exists i :: 0 <= i < 10 && keys[i] == button
    {
      keys[0] == button || keys[1] == button || keys[2] == button || keys[3] == button ||
      keys[4] == button || keys[5] == button || keys[6] == button || keys[7] == button ||
      keys[8] == button || keys[9] == button
    }
  }

  datatype CompositeReport = CompositeReport(mouseReport: MouseReport, keyboardReport: KeyboardReport)

  const MouseSize: nat := 8
  const KeyboardSize: nat := 12
  const CompositeSize: nat := 20

  function EncodeMouse(m: MouseReport): (b: seq<u8>)
    ensures |b| == MouseSize
  {
    [m.reportId, m.buttons] + EncodeI16(m.x) + EncodeI16(m.y) + EncodeI16(m.wheel)
  }

  function DecodeMouse(b: seq<u8>): MouseReport
    requires |b| >= MouseSize
  {
    MouseReport(b[0], b[1], DecodeI16(b[2..4]), DecodeI16(b[4..6]), DecodeI16(b[6..8]))
  }

  function EncodeKeyboard(k: KeyboardReport): (b: seq<u8>)
    ensures |b| == KeyboardSize
  {
    [k.reportId, k.buttons] + k.keys
  }

  function DecodeKeyboard(b: seq<u8>): KeyboardReport
    requires |b| >= KeyboardSize
  {
    KeyboardReport(b[0], b[1], b[2..12])
  }

  function EncodeComposite(c: CompositeReport): (b: seq<u8>)
    ensures |b| == CompositeSize
  {
    EncodeMouse(c.mouseReport) + EncodeKeyboard(c.keyboardReport)
  }

  /** Reads a composite report from the start of a datagram. */
  function DecodeComposite(b: seq<u8>): CompositeReport
    requires |b| >= CompositeSize
  {
    CompositeReport(DecodeMouse(b[0..8]), DecodeKeyboard(b[8..20]))
  }

  lemma MouseFieldOffsets(m: MouseReport)
    ensures EncodeMouse(m)[0] == m.reportId && EncodeMouse(m)[1] == m.buttons
    ensures EncodeMouse(m)[2..4] == EncodeI16(m.x)
    ensures EncodeMouse(m)[4..6] == EncodeI16(m.y)
    ensures EncodeMouse(m)[6..8] == EncodeI16(m.wheel)
  {
    var b := EncodeMouse(m);
    assert b[2..4] == EncodeI16(m.x);
    assert b[4..6] == EncodeI16(m.y);
    assert b[6..8] == EncodeI16(m.wheel);
  }

  lemma MouseDecodeEncode(m: MouseReport, rest: seq<u8>)
    ensures DecodeMouse(EncodeMouse(m) + rest) == m
  {
    var b := EncodeMouse(m) + rest;
    MouseFieldOffsets(m);
    assert b[2..4] == EncodeMouse(m)[2..4] && b[4..6] == EncodeMouse(m)[4..6] && b[6..8] == EncodeMouse(m)[6..8];
    I16RoundTrip(m.x, b[2..4]);
    I16RoundTrip(m.y, b[4..6]);
    I16RoundTrip(m.wheel, b[6..8]);
  }

  lemma MouseEncodeDecode(b: seq<u8>)
    requires |b| == MouseSize
    ensures EncodeMouse(DecodeMouse(b)) == b
  {
    var m := DecodeMouse(b);
    assert EncodeI16(m.x) == b[2..4] by { I16RoundTrip(0, b[2..4]); }
    assert EncodeI16(m.y) == b[4..6] by { I16RoundTrip(0, b[4..6]); }
    assert EncodeI16(m.wheel) == b[6..8] by { I16RoundTrip(0, b[6..8]); }
    assert b == [b[0], b[1]] + b[2..4] + b[4..6] + b[6..8];
  }

  lemma KeyboardDecodeEncode(k: KeyboardReport, rest: seq<u8>)
    ensures DecodeKeyboard(EncodeKeyboard(k) + rest) == k
  {
    assert (EncodeKeyboard(k) + rest)[2..12] == k.keys;
  }

  lemma KeyboardEncodeDecode(b: seq<u8>)
    requires |b| == KeyboardSize
    ensures EncodeKeyboard(DecodeKeyboard(b)) == b
  {
  }

  /** The mouse report occupies bytes 0..7 and the keyboard report bytes 8..19. */
  lemma CompositeOffsets(c: CompositeReport)
    ensures EncodeComposite(c)[0..8] == EncodeMouse(c.mouseReport)
    ensures EncodeComposite(c)[8..20] == EncodeKeyboard(c.keyboardReport)
  {
  }

  lemma CompositeDecodeEncode(c: CompositeReport, rest: seq<u8>)
    ensures DecodeComposite(EncodeComposite(c) + rest) == c
  {
    var b := EncodeComposite(c) + rest;
    assert b[0..8] == EncodeMouse(c.mouseReport) + [];
    assert b[8..20] == EncodeKeyboard(c.keyboardReport) + [];
    MouseDecodeEncode(c.mouseReport, []);
    KeyboardDecodeEncode(c.keyboardReport, []);
  }

  lemma CompositeEncodeDecode(b: seq<u8>)
    requires |b| == CompositeSize
    ensures EncodeComposite(DecodeComposite(b)) == b
  {
    MouseEncodeDecode(b[0..8]);
    KeyboardEncodeDecode(b[8..20]);
    assert b == b[0..8] + b[8..20];
  }

  /** The report id and the modifier byte play no part in the key test. */
  lemma PressedIgnoresIdAndButtons(k: KeyboardReport, id: u8, mods: u8, button: u8)
    ensures k.(reportId := id, buttons := mods).IsButtonPressed(button) == k.IsButtonPressed(button)
  {
  }

  /** Rearranging the slots does not change which keys count as pressed. */
  lemma PressedIgnoresSlotOrder(k1: KeyboardReport, k2: KeyboardReport, button: u8)
    requires multiset(k1.keys) == multiset(k2.keys)
    ensures k1.IsButtonPressed(button) == k2.IsButtonPressed(button)
  {
    assert button in k1.keys <==> button in multiset(k1.keys);
    assert button in k2.keys <==> button in multiset(k2.keys);
  }
}
