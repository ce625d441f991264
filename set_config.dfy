/** The 2-byte configuration payload (`SetConfigCommand`): the new port as two
    raw bytes at offset 0. The new address does not travel here but in the
    header's nonce, in network byte order. */
module SetConfigLayout {
  import opened Bytes

  type PortBytes = s: seq<u8> | |s| == 2 witness [0, 0]

  datatype SetConfigCommand = SetConfigCommand(port: PortBytes)

  /** `new SetConfigCommand()`: both bytes 0. */
  const Default: SetConfigCommand := SetConfigCommand([0, 0])

  const Size: nat := 2

  /** The two stored bytes verbatim, in index order, with no byte swapping. */
  function Encode(c: SetConfigCommand): (b: seq<u8>)
    ensures |b| == Size
  {
    c.port
  }

  function Decode(b: seq<u8>): SetConfigCommand
    requires |b| >= Size
  {
    SetConfigCommand(b[0..2])
  }

  lemma DecodeEncode(c: SetConfigCommand, rest: seq<u8>)
    ensures Decode(Encode(c) + rest) == c
    ensures Encode(c)[0] == c.port[0] && Encode(c)[1] == c.port[1]
  {
    assert (Encode(c) + rest)[0..2] == c.port;
  }

  lemma EncodeDecode(b: seq<u8>)
    requires |b| == Size
    ensures Encode(Decode(b)) == b
  {
  }

  lemma DefaultIsZero()
    ensures Encode(Default) == [0, 0]
  {
  }
}
