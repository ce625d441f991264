/** Turning layout structs into bytes and back. The generic type parameter
    of the source becomes a sum over the eight layouts; the marshaller becomes
    each layout's explicit little-endian encoding. */
module StructHelper {
  import opened Bytes
  import Header
  import MouseActionLayout
  import KeyboardActionLayout
  import SetConfigLayout
  import ScreenLine
  import Reports

  datatype Kind =
    | HeadKind | MouseKind | KeyboardKind | ConfigKind | LineKind
    | MouseReportKind | KeyboardReportKind | CompositeKind

  datatype Struct =
    | HeadStruct(head: Header.CmdHead)
    | MouseStruct(mouse: MouseActionLayout.MouseAction)
    | KeyboardStruct(keyboard: KeyboardActionLayout.KeyboardActionValue)
    | ConfigStruct(config: SetConfigLayout.SetConfigCommand)
    | LineStruct(line: ScreenLine.ScreenLineBuffer)
    | MouseReportStruct(mouseReport: Reports.MouseReport)
    | KeyboardReportStruct(keyboardReport: Reports.KeyboardReport)
    | CompositeStruct(composite: Reports.CompositeReport)

  function KindOf(s: Struct): Kind {
    match s
    case HeadStruct(_) => HeadKind
    case MouseStruct(_) => MouseKind
    case KeyboardStruct(_) => KeyboardKind
    case ConfigStruct(_) => ConfigKind
    case LineStruct(_) => LineKind
    case MouseReportStruct(_) => MouseReportKind
    case KeyboardReportStruct(_) => KeyboardReportKind
    case CompositeStruct(_) => CompositeKind
  }

  /** `Marshal.SizeOf` of each layout. */
  function SizeOf(k: Kind): nat {
    match k
    case HeadKind => Header.Size
    case MouseKind => MouseActionLayout.Size
    case KeyboardKind => KeyboardActionLayout.Size
    case ConfigKind => SetConfigLayout.Size
    case LineKind => ScreenLine.Size
    case MouseReportKind => Reports.MouseSize
    case KeyboardReportKind => Reports.KeyboardSize
    case CompositeKind => Reports.CompositeSize
  }

  lemma Sizes()
    ensures SizeOf(HeadKind) == 16 && SizeOf(MouseKind) == 56 && SizeOf(KeyboardKind) == 12
    ensures SizeOf(ConfigKind) == 2 && SizeOf(LineKind) == 1024
    ensures SizeOf(MouseReportKind) == 8 && SizeOf(KeyboardReportKind) == 12 && SizeOf(CompositeKind) == 20
  {
  }

  /** The bytes the marshaller writes for `s`: exactly `SizeOf` of its kind. */
  function Encode(s: Struct): (b: seq<u8>)
    ensures |b| == SizeOf(KindOf(s))
  {
    match s
    case HeadStruct(h) => Header.Encode(h)
    case MouseStruct(m) => MouseActionLayout.Encode(m)
    case KeyboardStruct(k) => KeyboardActionLayout.Encode(k)
    case ConfigStruct(c) => SetConfigLayout.Encode(c)
    case LineStruct(l) => ScreenLine.Encode(l)
    case MouseReportStruct(m) => Reports.EncodeMouse(m)
    case KeyboardReportStruct(k) => Reports.EncodeKeyboard(k)
    case CompositeStruct(c) => Reports.EncodeComposite(c)
  }

  /** Reads a struct of kind `k` from the start of `b`; bytes past its size
      are not looked at. */
  function Decode(k: Kind, b: seq<u8>): Struct
    requires |b| >= SizeOf(k)
  {
    match k
    case HeadKind => HeadStruct(Header.Decode(b))
    case MouseKind => MouseStruct(MouseActionLayout.Decode(b))
    case KeyboardKind => KeyboardStruct(KeyboardActionLayout.Decode(b))
    case ConfigKind => ConfigStruct(SetConfigLayout.Decode(b))
    case LineKind => LineStruct(ScreenLine.Decode(b))
    case MouseReportKind => MouseReportStruct(Reports.DecodeMouse(b))
    case KeyboardReportKind => KeyboardReportStruct(Reports.DecodeKeyboard(b))
    case CompositeKind => CompositeStruct(Reports.DecodeComposite(b))
  }

  /** Decoding what was encoded gives the struct back, whatever follows it. */
  lemma DecodeEncode(s: Struct, rest: seq<u8>)
    ensures Decode(KindOf(s), Encode(s) + rest) == s
  {
    match s
    case HeadStruct(h) => Header.DecodeEncode(h, rest);
    case MouseStruct(m) => MouseActionLayout.DecodeEncode(m, rest);
    case KeyboardStruct(k) => KeyboardActionLayout.DecodeEncode(k, rest);
    case ConfigStruct(c) => SetConfigLayout.DecodeEncode(c, rest);
    case LineStruct(l) => ScreenLine.DecodeEncode(l, rest);
    case MouseReportStruct(m) => Reports.MouseDecodeEncode(m, rest);
    case KeyboardReportStruct(k) => Reports.KeyboardDecodeEncode(k, rest);
    case CompositeStruct(c) => Reports.CompositeDecodeEncode(c, rest);
  }

  /** Every buffer of the right size is the encoding of what it decodes to. */
  lemma EncodeDecode(k: Kind, b: seq<u8>)
    requires |b| == SizeOf(k)
    ensures KindOf(Decode(k, b)) == k && Encode(Decode(k, b)) == b
  {
    match k
    case HeadKind => Header.EncodeDecode(b);
    case MouseKind => MouseActionLayout.EncodeDecode(b);
    case KeyboardKind => KeyboardActionLayout.EncodeDecode(b);
    case ConfigKind => SetConfigLayout.EncodeDecode(b);
    case LineKind => ScreenLine.EncodeDecode(b);
    case MouseReportKind => Reports.MouseEncodeDecode(b);
    case KeyboardReportKind => Reports.KeyboardEncodeDecode(b);
    case CompositeKind => Reports.CompositeEncodeDecode(b);
  }

  /** A header followed by a payload: decoding the buffer as a header gives
      the header, and the payload starts right after it, at offset 16. */
  lemma HeaderThenPayload(h: Header.CmdHead, p: Struct)
    ensures Decode(HeadKind, Encode(HeadStruct(h)) + Encode(p)) == HeadStruct(h)
    ensures (Encode(HeadStruct(h)) + Encode(p))[16..] == Encode(p)
    ensures Decode(KindOf(p), (Encode(HeadStruct(h)) + Encode(p))[16..]) == p
  {
    DecodeEncode(HeadStruct(h), Encode(p));
    DecodeEncode(p, []);
    assert Encode(p) + [] == Encode(p);
  }

  /** `StructToByteArray(req)`: a fresh array of `SizeOf` bytes holding the
      encoding of `req`. */
  method StructToByteArray(req: Struct) returns (arr: array<u8>)
    ensures fresh(arr)
    ensures arr.Length == SizeOf(KindOf(req)) && arr[..] == Encode(req)
  {
    var size := SizeOf(KindOf(req));
    arr := new u8[size];
    var image := Encode(req);
    ArrayCopy(image, 0, arr, 0, size);
    assert arr[..] == image by {
      assert image[0..size] == image;
    }
  }

  /** `StructToByteArray(req, req2)`: one buffer of both sizes, the first
      struct copied to offset 0 and the second to offset `struct1.Length`. */
  method StructPairToByteArray(req: Struct, req2: Struct) returns (buff: array<u8>)
    ensures fresh(buff)
    ensures buff.Length == SizeOf(KindOf(req)) + SizeOf(KindOf(req2))
    ensures buff[..SizeOf(KindOf(req))] == Encode(req)
    ensures buff[SizeOf(KindOf(req))..] == Encode(req2)
    ensures buff[..] == Encode(req) + Encode(req2)
  {
    var struct1 := StructToByteArray(req);
    var struct2 := StructToByteArray(req2);
    buff := CopyPair(struct1, struct2);
    assert buff[..] == Encode(req) + Encode(req2);
  }

  /** The buffer of `StructToByteArray(req, req2)`: both arrays copied one
      after the other into a new one of their combined length. */
  method CopyPair(struct1: array<u8>, struct2: array<u8>) returns (buff: array<u8>)
    ensures fresh(buff) && buff[..] == struct1[..] + struct2[..]
  {
    buff := new u8[struct1.Length + struct2.Length];
    ArrayCopy(struct1[..], 0, buff, 0, struct1.Length);
    ghost var afterFirst := buff[..];
    assert afterFirst[..struct1.Length] == struct1[..];
    ArrayCopy(struct2[..], 0, buff, struct1.Length, struct2.Length);
    assert struct2[..][0..struct2.Length] == struct2[..];
  }

  /** `ByteArrayToStruct<T>(bytes)`: reads a struct of kind `kind` from the
      start of the buffer. The marshaller does not check the length, so the
      buffer must hold at least `SizeOf(kind)` bytes. */
  method ByteArrayToStruct(kind: Kind, bytes: array<u8>) returns (r: Struct)
    requires bytes.Length >= SizeOf(kind)
    ensures KindOf(r) == kind && Encode(r) == bytes[..SizeOf(kind)]
  {
    r := Decode(kind, bytes[..]);
    assert r == Decode(kind, bytes[..SizeOf(kind)]) by {
      DecodePrefix(kind, bytes[..]);
    }
    EncodeDecode(kind, bytes[..SizeOf(kind)]);
  }

  /** Decoding reads only the first `SizeOf(k)` bytes. */
  lemma DecodePrefix(k: Kind, b: seq<u8>)
    requires |b| >= SizeOf(k)
    ensures Decode(k, b) == Decode(k, b[..SizeOf(k)])
  {
    var p := b[..SizeOf(k)];
    EncodeDecode(k, p);
    var s := Decode(k, p);
    assert b == Encode(s) + b[SizeOf(k)..];
    DecodeEncode(s, b[SizeOf(k)..]);
  }
}
