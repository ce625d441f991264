/** The 16-byte command header (`CmdHeadT`): four unsigned 32-bit fields at
    explicit offsets 0, 4, 8 and 12, each little-endian. */
module Header {
  import opened Bytes

  datatype CmdHead = CmdHead(mac: u32, rand: u32, indexpts: u32, cmd: u32)

  const Size: nat := 16

  function Encode(h: CmdHead): (b: seq<u8>)
    ensures |b| == Size
  {
    EncodeU32(h.mac) + EncodeU32(h.rand) + EncodeU32(h.indexpts) + EncodeU32(h.cmd)
  }

  /** Reads a header from the start of `b`; anything after byte 16 is ignored. */
  function Decode(b: seq<u8>): CmdHead
    requires |b| >= Size
  {
    CmdHead(Word(b, 0), Word(b, 4), Word(b, 8), Word(b, 12))
  }

  /** The little-endian `uint` at byte offset `o`. */
  function Word(b: seq<u8>, o: nat): u32
    requires o + 4 <= |b|
  {
    (b[o] as int) + 0x100 * ((b[o + 1] as int) + 0x100 * ((b[o + 2] as int) + 0x100 * (b[o + 3] as int)))
  }

  lemma WordIsField(b: seq<u8>)
    requires |b| >= Size
    ensures Word(b, 0) == DecodeU32(b[0..4]) && Word(b, 4) == DecodeU32(b[4..8])
    ensures Word(b, 8) == DecodeU32(b[8..12]) && Word(b, 12) == DecodeU32(b[12..16])
  {
  }

  /** The field a header byte belongs to: byte i lies in field i / 4. */
  function Field(h: CmdHead, k: nat): u32
    requires k < 4
  {
    match k
    case 0 => h.mac
    case 1 => h.rand
    case 2 => h.indexpts
    case 3 => h.cmd
  }

  lemma FieldOffsets(h: CmdHead)
    ensures Encode(h)[0..4] == EncodeU32(h.mac)
    ensures Encode(h)[4..8] == EncodeU32(h.rand)
    ensures Encode(h)[8..12] == EncodeU32(h.indexpts)
    ensures Encode(h)[12..16] == EncodeU32(h.cmd)
  {
    var b := Encode(h);
    assert b[0..4] == EncodeU32(h.mac);
    assert b[4..8] == EncodeU32(h.rand);
    assert b[8..12] == EncodeU32(h.indexpts);
    assert b[12..16] == EncodeU32(h.cmd);
  }

  lemma DecodeEncode(h: CmdHead, rest: seq<u8>)
    ensures Decode(Encode(h) + rest) == h
  {
    var b := Encode(h) + rest;
    FieldOffsets(h);
    assert b[..16] == Encode(h);
    assert b[0..4] == Encode(h)[0..4] && b[4..8] == Encode(h)[4..8];
    assert b[8..12] == Encode(h)[8..12] && b[12..16] == Encode(h)[12..16];
    WordIsField(b);
    U32RoundTrip(h.mac, b[0..4]);
    U32RoundTrip(h.rand, b[4..8]);
    U32RoundTrip(h.indexpts, b[8..12]);
    U32RoundTrip(h.cmd, b[12..16]);
  }

  lemma EncodeDecode(b: seq<u8>)
    requires |b| == Size
    ensures Encode(Decode(b)) == b
  {
    var h := Decode(b);
    WordIsField(b);
    U32RoundTrip(h.mac, b[0..4]);
    U32RoundTrip(h.rand, b[4..8]);
    U32RoundTrip(h.indexpts, b[8..12]);
    U32RoundTrip(h.cmd, b[12..16]);
    assert b == b[0..4] + b[4..8] + b[8..12] + b[12..16];
  }

  /** Byte i of an encoded header is determined by field i / 4 alone. */
  lemma ByteOwner(h: CmdHead, i: nat)
    requires i < Size
    ensures Encode(h)[i] == EncodeU32(Field(h, i / 4))[i % 4]
  {
    FieldOffsets(h);
    var b := Encode(h);
    var k := i / 4;
    assert b[4 * k..4 * k + 4] == EncodeU32(Field(h, k));
    assert b[i] == b[4 * k..4 * k + 4][i % 4];
  }

  /** Changing field k of a header changes only bytes 4k .. 4k+3 of its encoding. */
  lemma FieldLocality(h1: CmdHead, h2: CmdHead, k: nat)
    requires k < 4
    requires forall j :: 0 <= j < 4 && j != k ==> Field(h1, j) == Field(h2, j)
    ensures forall i :: 0 <= i < Size && !(4 * k <= i < 4 * k + 4) ==> Encode(h1)[i] == Encode(h2)[i]
  {
    forall i | 0 <= i < Size && !(4 * k <= i < 4 * k + 4)
      ensures Encode(h1)[i] == Encode(h2)[i]
    {
      ByteOwner(h1, i);
      ByteOwner(h2, i);
    }
  }
}
