/** The 1024-byte screen-line payload (`ScreenLineBuffer`): one fixed byte
    array at offset 0. One such payload updates one line of the device's
    LCD per show-picture command. */
module ScreenLine {
  import opened Bytes

  const Size: nat := 1024

  type LineBytes = s: seq<u8> | |s| == 1024 witness seq(1024, _ => 0)

  datatype ScreenLineBuffer = ScreenLineBuffer(buffer: LineBytes)

  /** The 1024 bytes verbatim. */
  function Encode(l: ScreenLineBuffer): (b: seq<u8>)
    ensures |b| == Size
  {
    l.buffer
  }

  function Decode(b: seq<u8>): ScreenLineBuffer
    requires |b| >= Size
  {
    ScreenLineBuffer(b[..1024])
  }

  lemma DecodeEncode(l: ScreenLineBuffer, rest: seq<u8>)
    ensures Decode(Encode(l) + rest) == l
  {
    assert (Encode(l) + rest)[..1024] == l.buffer;
  }

  lemma EncodeDecode(b: seq<u8>)
    requires |b| == Size
    ensures Encode(Decode(b)) == b
  {
  }
}
