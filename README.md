# KMBox.NET core in Dafny

This project models the core of KMBox.NET, a UDP client for the KMBox Net
hardware mouse/keyboard box. Every command the client sends is a 16-byte
header, `CmdHeadT`. The header holds the device id parsed from the
box's hexadecimal "mac" string, a nonce, a sequence number and a command
code. An optional payload struct follows the header. The box answers with
a header. A command succeeds when the reply echoes the request's sequence
number and command code.

The model has these parts:

- **Wire layouts** (`Bytes`, `Header`, `MouseActionLayout`,
  `KeyboardActionLayout`, `SetConfigLayout`, `ScreenLine`, `Reports`).
  Each explicit-layout struct is a datatype with a little-endian encoder and
  decoder. Each has a round trip proved in both directions, and its field
  offsets are stated as lemmas.
- **Command codes** (`Commands`): the distinct 32-bit codes that name each
  command in the header's `cmd` field.
- **Flag enums** (`MouseButtons`, `MouseMaskFlags`,
  `KeyboardModifierFlags`). Each flag is a bit of a byte. Combining flags
  with OR loses nothing, and the order of combination does not matter.
- **`StructHelper`**: serialising one struct or a header/payload pair to
  bytes, and reading a struct back from the front of a buffer.
- **`HexHelper.MacToUInt`**: the loop that parses the device id. It is proved
  equal to a recursive specification, `MacValue`. Lemmas about that
  specification cover case insensitivity, the exact failure conditions and
  a round trip from any 32-bit id.
- **`KmBox.KmBoxClient`**: the client class. It holds the sequence counter
  `currentIndexPts` and a ghost `trace` of every request sent with the
  reply taken for it. Each operation's postcondition says which datagrams
  were added to the trace, and what was in their headers and payloads. It
  also says how far the counter moved and what the operation returned.
  `TypeText` and `SetImage`, the multi-datagram operations, are specified
  by the sequence of requests they must produce (`Protocol.TypePlan`,
  `Protocol.LinesSent`) and by where they stop.
- **`KmBox.ReportListener`**: the monitor listener. It enables monitor mode,
  then decodes one `CompositeReport` per received datagram and hands it to
  the event listener, until cancellation.

The model follows the code where the code is more specific than its
documentation comments:

- `MacToUInt` fails with an index error only once the string has at least
  34 characters. A string of 33 characters fills the 16-byte buffer and
  ignores its odd last character (`HexHelper.TooLong`,
  `HexHelper.OddCharacterIgnored`).
- `SetConfig` stores the port with the high byte first, whatever the
  comment on `SetConfigCommand.Port` says (`Protocol.ConfigPayload`).
- The monitor nonce is `0xAA55_0000 | (ushort)port + 1`. When the low 16
  bits of the port are `0xFFFF`, the `+ 1` carries into bit 16, which is
  already set, so the nonce's low half is 0 (`Protocol.MonitorNonce`).

## Model

| member | source | states |
|---|---|---|
| Bytes.U16RoundTrip | KMBox.NET/KmBoxClient.cs:326-327 | decoding the two little-endian bytes of a 16-bit value gives it back, and any two bytes are the encoding of their decoding |
| Bytes.U32RoundTrip | KMBox.NET/Structures/CmdHeadT.cs:16-36 | a 32-bit header field and its four little-endian bytes are inverse to each other in both directions |
| Bytes.I32RoundTrip | KMBox.NET/Structures/MouseAction.cs:20-46 | a signed 32-bit field stored as two's complement little-endian decodes back to itself, and every 4-byte pattern is some field value |
| Bytes.I16RoundTrip | KMBox.NET/Structures/Report.cs:28-41 | a signed 16-bit report field stored as two's complement little-endian round-trips in both directions |
| Bytes.And8Masks | KMBox.NET/KmBoxClient.cs:376-406 | ANDing with 255 keeps a byte and ANDing with 0 clears it, which is what masking an address with 255.255.255.0 relies on |
| Bytes.Or8Zero | KMBox.NET/KmBoxClient.cs:141-144 | OR with 0 leaves a byte unchanged, so an empty button list combines to 0 |
| Bytes.ArrayCopy | KMBox.NET/KmBoxClient.cs:363 | `Array.Copy`: the destination range receives the source range and every other element is unchanged |
| Commands.CommandsDistinct | KMBox.NET/Structures/KmCommand.cs:6-86 | the sixteen command codes are pairwise distinct, so a reply's command field names exactly one command |
| Commands.ConnectWireBytes | KMBox.NET/Structures/KmCommand.cs:11 | `CmdConnect` goes on the wire as bytes 28 28 3C AF |
| Header.Encode | KMBox.NET/Structures/CmdHeadT.cs:16-36 | a header serialises to exactly 16 bytes |
| Header.WordIsField | KMBox.NET/Structures/CmdHeadT.cs:16-36 | decoding 16 bytes reads the field at byte offset 4k from bytes 4k..4k+3 |
| Header.FieldOffsets | KMBox.NET/Structures/CmdHeadT.cs:16-36 | mac, rand, indexpts and cmd occupy bytes 0-3, 4-7, 8-11 and 12-15, little-endian |
| Header.DecodeEncode | KMBox.NET/Structures/CmdHeadT.cs:16-36 | decoding the serialised header gives the header back, whatever bytes follow it |
| Header.EncodeDecode | KMBox.NET/Structures/CmdHeadT.cs:16-36 | every 16-byte buffer is the serialisation of the header decoded from it |
| Header.Decode | KMBox.NET/Structures/CmdHeadT.cs:16-36 | definition: the four little-endian words of the first 16 bytes; `Header.DecodeEncode` and `Header.EncodeDecode` prove it inverse to `Header.Encode` |
| Header.ByteOwner | KMBox.NET/Structures/CmdHeadT.cs:16-36 | byte i of a serialised header depends only on field i / 4 |
| Header.FieldLocality | KMBox.NET/Structures/CmdHeadT.cs:16-36 | changing one field changes no byte outside that field's four bytes, so replacing `rand` leaves bytes 0-3 and 8-15 alone |
| MouseButtons.FlagsAreDistinctBits | KMBox.NET/Structures/MouseButton.cs:8-25 | Left, Right and Middle are 1, 2 and 4, each a single bit, and no two share a bit |
| MouseButtons.CombineIsMask | KMBox.NET/KmBoxClient.cs:141-144 | ORing a button list equals the mask of the set of buttons in it |
| MouseButtons.MaskDeterminesSet | KMBox.NET/Structures/MouseButton.cs:8-25 | a button mask is at most 7, and two sets have the same mask exactly when they are equal |
| MouseButtons.CombineOrderIndependent | KMBox.NET/KmBoxClient.cs:133-149 | two button lists holding the same buttons give the same mask, whatever the order or repetition |
| MouseButtons.NoButtonsIsZero | KMBox.NET/KmBoxClient.cs:133-149 | `MouseClick()` with no buttons sends button state 0 |
| MouseButtons.Combine | KMBox.NET/KmBoxClient.cs:141-144 | definition: the buttons OR-ed in order from 0; `MouseButtons.CombineIsMask` and `MouseButtons.CombineOrderIndependent` prove it depends only on the set of buttons |
| MouseMaskFlags.FlagsAreDistinctBits | KMBox.NET/Structures/MouseMasks.cs:7-48 | the eight masks are bits 0..7, pairwise distinct |
| MouseMaskFlags.CombineKeepsEach | KMBox.NET/Structures/MouseMasks.cs:7-48 | a mask is set in a combination exactly when it is in the combined set |
| MouseMaskFlags.CombineInjective | KMBox.NET/KmBoxClient.cs:438-447 | distinct mask sets give distinct nonces, and every combination fits in a byte |
| MouseMaskFlags.Combine | KMBox.NET/KmBoxClient.cs:438-447 | definition: the OR of the flags of a set of masks, sent as the nonce; `MouseMaskFlags.CombineKeepsEach` and `MouseMaskFlags.CombineInjective` prove it loses nothing |
| KeyboardModifierFlags.FlagsAreDistinctBits | KMBox.NET/Structures/KeyboardModifiers.cs:10-19 | the eight modifiers are 0x01..0x80, one bit each, pairwise distinct |
| KeyboardModifierFlags.CombineHas | KMBox.NET/Structures/KeyboardModifiers.cs:10-19 | a modifier's bit is set in a combination exactly when the modifier is listed |
| KeyboardModifierFlags.AllModifiersFillByte | KMBox.NET/Structures/KeyboardModifiers.cs:10-19 | there are eight modifiers and together they fill the byte (0xFF) |
| KeyboardModifierFlags.Combine | KMBox.NET/Structures/KeyboardModifiers.cs:10-19 | definition: modifiers OR-ed in order from 0; `KeyboardModifierFlags.CombineHas` proves a bit is set exactly for a listed modifier |
| KeyboardActionLayout.KeyboardActionValue.SetButtons | KMBox.NET/Structures/KeyboardAction.cs:93-97 | the first key slot holds the button and `ctrl` the modifiers; the other nine slots and `resVel` keep their values |
| KeyboardActionLayout.KeyboardActionValue.ResetButtons | KMBox.NET/Structures/KeyboardAction.cs:102-114 | all ten key slots become 0; `ctrl` and `resVel` keep their values |
| KeyboardActionLayout.KeyboardAction.constructor | KMBox.NET/Structures/KeyboardAction.cs:11-85 | a new keyboard action is all zero, which is the "release everything" payload |
| KeyboardActionLayout.KeyboardAction.SetButtons | KMBox.NET/Structures/KeyboardAction.cs:93-97 | the struct updated in place holds the value `SetButtons` computes from its old value |
| KeyboardActionLayout.KeyboardAction.ResetButtons | KMBox.NET/Structures/KeyboardAction.cs:102-114 | the struct updated in place holds its old value with every key slot cleared |
| KeyboardActionLayout.Encode | KMBox.NET/Structures/KeyboardAction.cs:11-85 | a keyboard action serialises to 12 bytes |
| KeyboardActionLayout.FieldOffsets | KMBox.NET/Structures/KeyboardAction.cs:16-85 | `ctrl` is byte 0, `resVel` byte 1 and key slot k byte 2 + k |
| KeyboardActionLayout.DecodeEncode | KMBox.NET/Structures/KeyboardAction.cs:11-85 | decoding the serialised action gives it back, whatever bytes follow |
| KeyboardActionLayout.EncodeDecode | KMBox.NET/Structures/KeyboardAction.cs:11-85 | every 12-byte buffer is the serialisation of the action decoded from it |
| KeyboardActionLayout.Decode | KMBox.NET/Structures/KeyboardAction.cs:11-85 | definition: the twelve bytes read back as `ctrl`, `resVel` and ten key slots; its round trips are `KeyboardActionLayout.DecodeEncode` and `KeyboardActionLayout.EncodeDecode` |
| KeyboardActionLayout.ResetIdempotent | KMBox.NET/Structures/KeyboardAction.cs:102-114 | resetting twice is resetting once, and a reset clears whatever `SetButtons` stored |
| KeyboardActionLayout.ReleaseIsZeroBytes | KMBox.NET/KmBoxClient.cs:244-261 | the release payload is 12 zero bytes, and a key-down payload equals it only for button 0 with no modifiers |
| MouseActionLayout.EncodeInts | KMBox.NET/Structures/MouseAction.cs:44-46 | n 32-bit ints serialise to 4n bytes |
| MouseActionLayout.DecodeInts | KMBox.NET/Structures/MouseAction.cs:44-46 | decoding n ints yields n values |
| MouseActionLayout.Encode | KMBox.NET/Structures/MouseAction.cs:11-46 | a mouse action serialises to 56 bytes |
| MouseActionLayout.IntAt | KMBox.NET/Structures/MouseAction.cs:44-46 | point k lies at bytes 4k..4k+3 of the serialised point array |
| MouseActionLayout.IntsRoundTrip | KMBox.NET/Structures/MouseAction.cs:44-46 | decoding a serialised int array gives it back, whatever bytes follow |
| MouseActionLayout.IntsDecodeEncode | KMBox.NET/Structures/MouseAction.cs:44-46 | every 4n-byte buffer is the serialisation of the n ints decoded from it |
| MouseActionLayout.FieldOffsets | KMBox.NET/Structures/MouseAction.cs:20-46 | buttons, x, y and wheel sit at offsets 0, 4, 8 and 12, and point k at 16 + 4k |
| MouseActionLayout.DecodeEncode | KMBox.NET/Structures/MouseAction.cs:11-46 | decoding the serialised mouse action gives it back |
| MouseActionLayout.EncodeDecode | KMBox.NET/Structures/MouseAction.cs:11-46 | every 56-byte buffer is the serialisation of the action decoded from it |
| MouseActionLayout.Decode | KMBox.NET/Structures/MouseAction.cs:11-46 | definition: the 56 bytes read back as four ints and the ten-int point array; its round trips are `MouseActionLayout.DecodeEncode` and `MouseActionLayout.EncodeDecode` |
| MouseActionLayout.ZeroInts | KMBox.NET/Structures/MouseAction.cs:46 | n zero ints serialise to 4n zero bytes |
| MouseActionLayout.DefaultIsZeroBytes | KMBox.NET/Structures/MouseAction.cs:13-46 | `new MouseAction()` is 56 zero bytes on the wire |
| Reports.KeyboardReport.IsButtonPressed | KMBox.NET/Structures/Report.cs:126-140 | true exactly when one of the ten key slots holds the button |
| Reports.EncodeMouse | KMBox.NET/Structures/Report.cs:10-41 | a mouse report serialises to 8 bytes |
| Reports.EncodeKeyboard | KMBox.NET/Structures/Report.cs:51-124 | a keyboard report serialises to 12 bytes |
| Reports.EncodeComposite | KMBox.NET/Structures/Report.cs:149-162 | a composite report serialises to 20 bytes |
| Reports.MouseFieldOffsets | KMBox.NET/Structures/Report.cs:16-41 | report id byte 0, buttons byte 1, x at 2-3, y at 4-5, wheel at 6-7 |
| Reports.MouseDecodeEncode | KMBox.NET/Structures/Report.cs:10-41 | decoding a serialised mouse report gives it back |
| Reports.MouseEncodeDecode | KMBox.NET/Structures/Report.cs:10-41 | every 8-byte buffer is the serialisation of the mouse report decoded from it |
| Reports.KeyboardDecodeEncode | KMBox.NET/Structures/Report.cs:51-124 | decoding a serialised keyboard report gives it back |
| Reports.KeyboardEncodeDecode | KMBox.NET/Structures/Report.cs:51-124 | every 12-byte buffer is the serialisation of the keyboard report decoded from it |
| Reports.DecodeMouse | KMBox.NET/Structures/Report.cs:10-41 | definition: a mouse report read from its 8 bytes; its round trips are `Reports.MouseDecodeEncode` and `Reports.MouseEncodeDecode` |
| Reports.DecodeKeyboard | KMBox.NET/Structures/Report.cs:51-124 | definition: a keyboard report read from its 12 bytes; its round trips are `Reports.KeyboardDecodeEncode` and `Reports.KeyboardEncodeDecode` |
| Reports.CompositeOffsets | KMBox.NET/Structures/Report.cs:155-162 | bytes 0-7 are the mouse report and bytes 8-19 the keyboard report |
| Reports.CompositeDecodeEncode | KMBox.NET/Structures/Report.cs:149-162 | decoding a serialised composite report gives it back |
| Reports.CompositeEncodeDecode | KMBox.NET/Structures/Report.cs:149-162 | every 20-byte datagram prefix is the serialisation of the report decoded from it |
| Reports.DecodeComposite | KMBox.NET/Structures/Report.cs:149-162 | definition: the mouse report from bytes 0-7 and the keyboard report from bytes 8-19 of a datagram; its round trips are `Reports.CompositeDecodeEncode` and `Reports.CompositeEncodeDecode` |
| Reports.PressedIgnoresIdAndButtons | KMBox.NET/Structures/Report.cs:126-140 | whether a key is pressed does not depend on the report id or the modifier byte |
| Reports.PressedIgnoresSlotOrder | KMBox.NET/Structures/Report.cs:126-140 | two reports holding the same multiset of keys agree on every key |
| ScreenLine.Encode | KMBox.NET/Structures/SetScreenLine.cs:6-14 | a screen line serialises to its 1024 bytes verbatim |
| ScreenLine.DecodeEncode | KMBox.NET/Structures/SetScreenLine.cs:6-14 | decoding a serialised screen line gives it back |
| ScreenLine.EncodeDecode | KMBox.NET/Structures/SetScreenLine.cs:6-14 | every 1024-byte buffer is a serialised screen line |
| ScreenLine.Decode | KMBox.NET/Structures/SetScreenLine.cs:6-14 | definition: the first 1024 bytes as the line buffer; its round trips are `ScreenLine.DecodeEncode` and `ScreenLine.EncodeDecode` |
| SetConfigLayout.Encode | KMBox.NET/Structures/SetConfigCommand.cs:12-21 | the config payload is its two port bytes verbatim |
| SetConfigLayout.DecodeEncode | KMBox.NET/Structures/SetConfigCommand.cs:12-21 | decoding the serialised payload gives it back |
| SetConfigLayout.EncodeDecode | KMBox.NET/Structures/SetConfigCommand.cs:12-21 | every 2-byte buffer is a serialised config payload |
| SetConfigLayout.Decode | KMBox.NET/Structures/SetConfigCommand.cs:12-21 | definition: the first two bytes as the port bytes; its round trips are `SetConfigLayout.DecodeEncode` and `SetConfigLayout.EncodeDecode` |
| SetConfigLayout.DefaultIsZero | KMBox.NET/Structures/SetConfigCommand.cs:12-21 | `new SetConfigCommand()` is two zero bytes |
| StructHelper.Sizes | KMBox.NET/StructHelper.cs:12 | `Marshal.SizeOf` of each struct: 16, 56, 12, 2, 1024, 8, 12 and 20 bytes |
| StructHelper.Encode | KMBox.NET/StructHelper.cs:10-22 | a struct serialises to exactly its marshalled size |
| StructHelper.DecodeEncode | KMBox.NET/StructHelper.cs:40-54 | reading a struct back from its bytes gives it back, whatever follows |
| StructHelper.EncodeDecode | KMBox.NET/StructHelper.cs:40-54 | a buffer of a struct's size is the serialisation of the struct read from it, and the kind is kept |
| StructHelper.Decode | KMBox.NET/StructHelper.cs:40-54 | definition: the layout decoder of the requested kind applied to the front of the buffer; `StructHelper.DecodeEncode`, `StructHelper.EncodeDecode` and `StructHelper.DecodePrefix` state its properties |
| StructHelper.HeaderThenPayload | KMBox.NET/StructHelper.cs:24-38 | in a header+payload datagram the first 16 bytes read back as the header and the rest as the payload |
| StructHelper.StructToByteArray | KMBox.NET/StructHelper.cs:10-22 | returns a fresh array of the struct's size holding its serialisation |
| StructHelper.StructPairToByteArray | KMBox.NET/StructHelper.cs:24-38 | returns a fresh array that is the first struct's bytes followed by the second's |
| StructHelper.CopyPair | KMBox.NET/StructHelper.cs:28-37 | the combined buffer is the concatenation of the two arrays |
| StructHelper.ByteArrayToStruct | KMBox.NET/StructHelper.cs:40-54 | the struct read has the requested kind, and its serialisation is the buffer's first `SizeOf` bytes |
| StructHelper.DecodePrefix | KMBox.NET/StructHelper.cs:40-54 | reading a struct looks only at the first `SizeOf` bytes, so a longer reply reads like its prefix |
| HexHelper.Upper | KMBox.NET/HexHelper.cs:21-29 | `char.ToUpper` on the codes reached, under a culture that maps them as the invariant culture does: a-z move down by 32, and codes below 'a' are unchanged |
| HexHelper.MacToUInt | KMBox.NET/HexHelper.cs:12-35 | the loop returns exactly `MacValue`: the first character overflow or buffer overrun as an error, else the first four bytes packed big-endian |
| HexHelper.ReadPair | KMBox.NET/HexHelper.cs:18-29 | a character pair fails exactly when either character's code is above 255; otherwise it yields the pair's byte |
| HexHelper.DigitValues | KMBox.NET/HexHelper.cs:21-29 | '0'-'9', 'A'-'F' and 'a'-'f' give their hexadecimal digit values |
| HexHelper.FaultsAgree | KMBox.NET/HexHelper.cs:16-32 | strings equal up to letter case fail at the same point with the same error |
| HexHelper.CaseInsensitive | KMBox.NET/HexHelper.cs:12-35 | an id string and its other-case spelling parse to the same result |
| HexHelper.ExampleId | KMBox.NET/HexHelper.cs:12-35 | "417F0CD3" parses to 0x417F0CD3 |
| HexHelper.ExampleIdLowerCase | KMBox.NET/HexHelper.cs:12-35 | "417f0cd3" parses to the same id |
| HexHelper.OddCharacterIgnored | KMBox.NET/HexHelper.cs:16 | a trailing unpaired character is ignored |
| HexHelper.FaultsOnPrefix | KMBox.NET/HexHelper.cs:16-32 | dropping an unpaired last character does not change where parsing fails |
| HexHelper.NoFaultOnPrefix | KMBox.NET/HexHelper.cs:16-32 | a string that parses without fault has prefixes that do too |
| HexHelper.TailIgnored | KMBox.NET/HexHelper.cs:34 | a valid id longer than 8 characters has the value of its first 8 characters |
| HexHelper.PackedBigEndian | KMBox.NET/HexHelper.cs:34 | the id's little-endian wire bytes are the parsed bytes in reverse: the string's first byte is the id's most significant byte |
| HexHelper.ShortStringLowBytesZero | KMBox.NET/HexHelper.cs:14-34 | with fewer than 8 characters, the buffer bytes never written stay zero, so the id's low-order bytes are zero |
| HexHelper.LeadingZeros | KMBox.NET/HexHelper.cs:14-34 | in the id's little-endian bytes, those that come from unwritten buffer slots are zero |
| HexHelper.NoFaultIff | KMBox.NET/HexHelper.cs:16-32 | parsing from a pair index succeeds exactly when no pair is past the 16-byte buffer and no paired character overflows a byte |
| HexHelper.FailureIff | KMBox.NET/HexHelper.cs:12-35 | parsing fails exactly when the string has 34 or more characters or a paired character has a code above 255 |
| HexHelper.TooLongFaults | KMBox.NET/HexHelper.cs:16-32 | with 34 or more byte-sized characters, the 17th pair is an index error |
| HexHelper.TooLong | KMBox.NET/HexHelper.cs:31 | a string of 34 or more characters whose first 34 are byte-sized fails with the index error of the store into the 16-byte buffer |
| HexHelper.HexString | KMBox.NET/HexHelper.cs:12-35 | the canonical upper-case spelling of an id has 8 characters |
| HexHelper.DigitOfHexChar | KMBox.NET/HexHelper.cs:21-29 | every hexadecimal digit character is a byte-sized character and parses to its value |
| HexHelper.PairOfHexByte | KMBox.NET/HexHelper.cs:18-31 | a byte written as two hexadecimal digits parses back to itself |
| HexHelper.HexStringBytes | KMBox.NET/HexHelper.cs:18-31 | pair j of an id's spelling parses to the id's byte 3 - j |
| HexHelper.DecodeFour | KMBox.NET/HexHelper.cs:34 | packing four bytes high-first is the same as reading them little-endian in reverse |
| HexHelper.HexRoundTrip | KMBox.NET/HexHelper.cs:12-35 | every 32-bit id parses back from its 8-digit spelling |
| HexHelper.MacValue | KMBox.NET/HexHelper.cs:12-35 | definition: the first fault of the pair loop, else the first four buffer bytes packed high-first; `HexHelper.MacToUInt` ensures the loop computes it and `HexHelper.FailureIff`, `HexHelper.CaseInsensitive` and `HexHelper.HexRoundTrip` state its properties |
| Protocol.RequestBytes | KMBox.NET/KmBoxClient.cs:507-519 | a request datagram is 16 header bytes plus the payload |
| Protocol.Inc | KMBox.NET/KmBoxClient.cs:527 | definition: `_currentIndexPts++` on a `uint`, with 0xFFFFFFFF followed by 0; `Protocol.IncIsModular` and `Protocol.WrapAround` state it |
| Protocol.IncIsModular | KMBox.NET/KmBoxClient.cs:527 | the post-increment of the unsigned counter is the next value modulo 2^32 |
| Protocol.CheckResponse | KMBox.NET/KmBoxClient.cs:532-536 | a reply passes exactly when it equals the request apart from the device id and the nonce |
| Protocol.FreshClientNumbering | KMBox.NET/KmBoxClient.cs:29-34 | a new client numbers its k-th command k, while k < 2^32 |
| Protocol.IndexAfterAdds | KMBox.NET/KmBoxClient.cs:521-530 | j commands and then k more advance the counter by j + k |
| Protocol.WrapAround | KMBox.NET/KmBoxClient.cs:527 | the command after number 0xFFFFFFFF is numbered 0 |
| Protocol.CorrelatedIffEcho | KMBox.NET/KmBoxClient.cs:532-536 | a reply is accepted exactly when it echoes bytes 8-15 (sequence number and command) of the request |
| Protocol.CheckIgnoresMacAndRand | KMBox.NET/KmBoxClient.cs:532-536 | the check looks neither at the device id nor at the nonce |
| Protocol.CheckRejectsMismatch | KMBox.NET/KmBoxClient.cs:532-536 | a reply that echoes the request passes, and one with another sequence number or command fails |
| Protocol.RequestOnTheWire | KMBox.NET/KmBoxClient.cs:507-519 | a request carries the device id, sequence number and command in its first 16 bytes and the payload after them |
| Protocol.NumberedConcat | KMBox.NET/KmBoxClient.cs:521-530 | two consecutively numbered runs of commands join into one |
| Protocol.MonitorNonceCarriesPort | KMBox.NET/KmBoxClient.cs:426 | for a port whose low half is below 0xFFFF, the nonce has 0xAA55 in its high half and port + 1 (mod 2^16) in its low half |
| Protocol.MonitorNonce | KMBox.NET/KmBoxClient.cs:420-431 | disabling sends 0; enabling sends 0xAA55_0000 plus the port's low 16 bits plus one, except that a low half of 0xFFFF gives the bare marker 0xAA55_0000 because the carry is lost in the OR |
| Protocol.LowHalfOfNext | KMBox.NET/KmBoxClient.cs:426 | below 0xFFFF, adding one to the port's low half does not carry |
| Protocol.OrLowHalf | KMBox.NET/KmBoxClient.cs:426 | ORing a 16-bit value into 0xAA55_0000 adds it |
| Protocol.MarkerBytes | KMBox.NET/KmBoxClient.cs:426 | the monitor marker goes on the wire as 00 00 55 AA |
| Protocol.OrCarry | KMBox.NET/KmBoxClient.cs:426 | 0x10000 OR 0xAA55_0000 is 0xAA55_0000 |
| Protocol.MaskKeyNonce | KMBox.NET/KmBoxClient.cs:454-463 | masking a key sends the key code in the second byte of `rand` and zeros in the other three |
| Protocol.InKmBoxSubnet | KMBox.NET/KmBoxClient.cs:376-406 | an IPv4 address is in the box's subnet exactly when it starts 192.168.2 |
| Protocol.ConfigPayload | KMBox.NET/KmBoxClient.cs:323-328 | the port goes high byte first, and reading the two bytes back swapped gives the port |
| Protocol.AddressOnTheWire | KMBox.NET/KmBoxClient.cs:321 | a config request carries the four address bytes, in order, in bytes 4-7 |
| Protocol.Lookup | KMBox.NET/KmBoxClient.cs:239-242 | a character maps to the empty stroke (which `TypeText` rejects) exactly when the map lacks it or holds the empty stroke for it; otherwise its stroke in the map |
| Protocol.TypePlan | KMBox.NET/KmBoxClient.cs:237-258 | the planned requests hold one key-down per supported character before the first unsupported one, a release before each character that repeats the one before it, and a final release only when every character is supported (so the last request is that release) |
| Protocol.TypeTextOutcome | KMBox.NET/KmBoxClient.cs:232-262 | definition: a bad device id sends nothing and throws (after an unsupported first character's exception); otherwise the sent requests follow `TypePlan` and end with true, with false at the first refused key-down, or with the unsupported character's exception; its cases are proved by `Protocol.TypedNothing`, `Protocol.TypedUnsupported`, `Protocol.TypedStep` and `Protocol.TypedStepRefused`, and `KmBox.KmBoxClient.TypeText` ensures it |
| Protocol.ImageOutcome | KMBox.NET/KmBoxClient.cs:348-372 | definition: an image of the wrong length throws before anything is sent; a bad device id throws with nothing sent; otherwise lines 0.. are sent in order, every one but the last answered, ending with true after all lines or false at the first unanswered one; `KmBox.KmBoxClient.SetImage` ensures it |
| Protocol.FirstUnsupported | KMBox.NET/KmBoxClient.cs:237-242 | the index of the first character the key map lacks (or the text length); every earlier character is supported |
| Protocol.UnsupportedFrom | KMBox.NET/KmBoxClient.cs:237-242 | the first unsupported index at or after i |
| Protocol.KeystrokesPrefix | KMBox.NET/KmBoxClient.cs:237-258 | the keystrokes for a prefix of the text are a prefix of those for a longer prefix |
| Protocol.FollowsAt | KMBox.NET/KmBoxClient.cs:237-258 | the j-th datagram of a typing run is the j-th planned keystroke, numbered index0 + j |
| Protocol.FollowsAppend | KMBox.NET/KmBoxClient.cs:237-258 | a typing run extended by the next numbered keystroke is still a typing run |
| Protocol.FollowsConcat | KMBox.NET/KmBoxClient.cs:237-258 | two consecutive typing runs form one |
| Protocol.FollowsConcatAt | KMBox.NET/KmBoxClient.cs:237-258 | each datagram of two joined typing runs is the matching keystroke with the matching number |
| Protocol.DownsAt | KMBox.NET/KmBoxClient.cs:251-252 | in a run whose key-downs were accepted, the reply to key-down j correlates |
| Protocol.DownsConcat | KMBox.NET/KmBoxClient.cs:251-252 | accepted key-downs of consecutive runs stay accepted when joined |
| Protocol.FirstUnsupportedAt | KMBox.NET/KmBoxClient.cs:239-242 | a text whose characters before i are supported and whose i-th is not has its first unsupported character at i |
| Protocol.TypedNothing | KMBox.NET/KmBoxClient.cs:232-236 | before the first character nothing has been sent |
| Protocol.TypedUnsupported | KMBox.NET/KmBoxClient.cs:239-242 | meeting an unsupported character ends `TypeText` with that character's exception after the keystrokes for the earlier ones |
| Protocol.TypedNoDevice | KMBox.NET/KmBoxClient.cs:521-530 | an id that does not parse ends `TypeText` with its exception and nothing sent, unless an unsupported character comes first |
| Protocol.TypedStep | KMBox.NET/KmBoxClient.cs:244-253 | one more character typed and accepted extends the typed prefix by one |
| Protocol.TypedExtend | KMBox.NET/KmBoxClient.cs:244-253 | typing character i appends its strokes to the plan for the first i characters |
| Protocol.TypedStepRefused | KMBox.NET/KmBoxClient.cs:251-252 | a key-down whose reply does not correlate ends `TypeText` with false |
| Protocol.TypedCharacter | KMBox.NET/KmBoxClient.cs:244-253 | the outcome of pressing character i either extends the typed prefix or is a final outcome of `TypeText` |
| Protocol.DownsLast | KMBox.NET/KmBoxClient.cs:251-252 | an accepted last key-down extends the accepted run |
| Protocol.TypedRefused | KMBox.NET/KmBoxClient.cs:251-252 | a refused key-down after i + 1 characters is an allowed false outcome of `TypeText` |
| Protocol.RefusedEnds | KMBox.NET/KmBoxClient.cs:251-252 | a run that stops on a refused key-down is a prefix of the full plan ending on a key-down |
| Protocol.PlanExtends | KMBox.NET/KmBoxClient.cs:237-261 | the strokes for any supported prefix are a prefix of the whole typing plan |
| Protocol.DownsPrefix | KMBox.NET/KmBoxClient.cs:251-252 | a run accepted against a prefix of the plan is accepted against the plan |
| Protocol.TypedAll | KMBox.NET/KmBoxClient.cs:260-261 | after every character, the final release completes `TypeText` with true, whatever its reply |
| Protocol.CountDownsConcat | KMBox.NET/KmBoxClient.cs:237-258 | key-downs of joined stroke lists add up |
| Protocol.KeystrokesDowns | KMBox.NET/KmBoxClient.cs:237-258 | typing n characters presses exactly n keys |
| Protocol.CharacterDowns | KMBox.NET/KmBoxClient.cs:244-253 | each character presses exactly one key |
| Protocol.KeystrokesLength | KMBox.NET/KmBoxClient.cs:244-249 | typing n characters sends n key-downs plus one release per character equal to its predecessor |
| Protocol.NoAdjacentSameKey | KMBox.NET/KmBoxClient.cs:244-249 | with an injective key map, two key-downs in a row are never the same key, so a repeated letter is never lost |
| Protocol.RepeatExample | KMBox.NET/KmBoxClient.cs:244-249 | "aa" types down-a, release, down-a; "ab" types down-a, down-b |
| Protocol.EmptyTextOneRelease | KMBox.NET/KmBoxClient.cs:232-262 | typing the empty text sends one release and returns true |
| Protocol.UnsupportedStopsTyping | KMBox.NET/KmBoxClient.cs:239-242 | an unsupported-character exception names the first unsupported character, after exactly the strokes for the characters before it, and no final release |
| Protocol.FalseEndsOnKeyDown | KMBox.NET/KmBoxClient.cs:251-252 | `TypeText` returns false only right after a refused key-down, before the plan is complete |
| Protocol.ImageLineAnswered | KMBox.NET/KmBoxClient.cs:358-369 | an accepted line extends the run of accepted lines |
| Protocol.ImageLineRefused | KMBox.NET/KmBoxClient.cs:366-367 | a refused line ends `SetImage` with false |
| Protocol.ImageAllLines | KMBox.NET/KmBoxClient.cs:358-371 | forty accepted lines end `SetImage` with true |
| Protocol.ImageNoDevice | KMBox.NET/KmBoxClient.cs:348-372 | an id that does not parse ends `SetImage` with its exception and nothing sent |
| Protocol.LinesTileImage | KMBox.NET/KmBoxClient.cs:358-369 | image byte b is sent as byte b mod 1024 of line b / 1024's payload, so the forty lines carry the whole image |
| KmBox.KmBoxClient.constructor | KMBox.NET/KmBoxClient.cs:29-34 | keeps endpoint, port and id; counter 0; no listener; nothing sent |
| KmBox.KmBoxClient.NextCmdHead | KMBox.NET/KmBoxClient.cs:521-530 | the header carries the parsed id, a nonce below `int.MaxValue`, the current counter and the command; the counter then advances modulo 2^32; a bad id throws with the counter untouched |
| KmBox.KmBoxClient.Transmit | KMBox.NET/KmBoxClient.cs:507-519 | the request bytes are sent once and the first 16 bytes of the reply are read back as a header |
| KmBox.KmBoxClient.SendAndReceive | KMBox.NET/KmBoxClient.cs:494-505 | one header-only exchange is added to the trace |
| KmBox.KmBoxClient.SendAndReceiveWith | KMBox.NET/KmBoxClient.cs:507-519 | one exchange whose payload is the serialised struct is added to the trace |
| KmBox.KmBoxClient.Connect | KMBox.NET/KmBoxClient.cs:40-48 | sends one header-only `CmdConnect` with a random nonce and returns whether the reply correlates |
| KmBox.KmBoxClient.Reboot | KMBox.NET/KmBoxClient.cs:412-418 | sends one header-only `CmdReboot` |
| KmBox.KmBoxClient.MouseMoveSimple | KMBox.NET/KmBoxClient.cs:56-69 | sends `CmdMouseMove` with a zero mouse action carrying x and y |
| KmBox.KmBoxClient.MouseMoveAuto | KMBox.NET/KmBoxClient.cs:79-93 | sends `CmdMouseAutomove` with the duration as nonce and x, y in the payload |
| KmBox.KmBoxClient.MouseMoveBezier | KMBox.NET/KmBoxClient.cs:106-126 | sends `CmdBeizerMove` with the duration as nonce, x, y and the two control points in points 0..3 |
| KmBox.KmBoxClient.MouseClick | KMBox.NET/KmBoxClient.cs:133-149 | sends `CmdMouseLeft` whose button state is the OR of the listed buttons |
| KmBox.KmBoxClient.CombineButtons | KMBox.NET/KmBoxClient.cs:141-144 | the loop computes the OR of the listed button flags |
| KmBox.KmBoxClient.MouseLeftClick | KMBox.NET/KmBoxClient.cs:155-158 | a click with button state 1 |
| KmBox.KmBoxClient.MouseRightClick | KMBox.NET/KmBoxClient.cs:164-167 | a click with button state 2 |
| KmBox.KmBoxClient.MouseMiddleClick | KMBox.NET/KmBoxClient.cs:173-176 | a click with button state 4 |
| KmBox.KmBoxClient.AllMouseButtonsUp | KMBox.NET/KmBoxClient.cs:182-185 | a click with button state 0 |
| KmBox.KmBoxClient.MouseWheel | KMBox.NET/KmBoxClient.cs:192-204 | sends `CmdMouseWheel` with a zero mouse action carrying the wheel value |
| KmBox.KmBoxClient.KeyboardButtonDown | KMBox.NET/KmBoxClient.cs:212-223 | sends `CmdKeyboardAll` whose payload holds the button in slot 0 and the modifiers |
| KmBox.KmBoxClient.AllKeyboardButtonsUp | KMBox.NET/KmBoxClient.cs:268-274 | sends `CmdKeyboardAll` with the all-zero release payload |
| KmBox.KmBoxClient.SendRawMouse | KMBox.NET/KmBoxClient.cs:282-288 | sends the given command with the given mouse action as payload |
| KmBox.KmBoxClient.SendRawKeyboard | KMBox.NET/KmBoxClient.cs:296-302 | sends the given command with the given keyboard action as payload |
| KmBox.KmBoxClient.EnableMonitor | KMBox.NET/KmBoxClient.cs:420-431 | sends header-only `CmdMonitor` whose nonce is the monitor nonce for the port, or 0 to disable |
| KmBox.KmBoxClient.MaskMouseInput | KMBox.NET/KmBoxClient.cs:438-447 | sends header-only `CmdMask` whose nonce is the OR of the mask flags |
| KmBox.KmBoxClient.MaskKeyboardButton | KMBox.NET/KmBoxClient.cs:454-463 | sends header-only `CmdMask` with the key code shifted into bits 8-15 of the nonce |
| KmBox.KmBoxClient.UnmaskAllInput | KMBox.NET/KmBoxClient.cs:469-478 | sends header-only `CmdUnmaskAll` with nonce 0 |
| KmBox.KmBoxClient.IsInKmBoxSubnet | KMBox.NET/KmBoxClient.cs:376-406 | true exactly when the address masked with 255.255.255.0 equals 192.168.2.0 |
| KmBox.KmBoxClient.SetConfig | KMBox.NET/KmBoxClient.cs:309-332 | a non-IPv4 address or one outside the subnet throws with nothing sent; otherwise one `CmdSetConfig` goes out with the address as nonce and the port high byte first |
| KmBox.KmBoxClient.SetImage | KMBox.NET/KmBoxClient.cs:348-372 | a buffer other than 40960 bytes throws; otherwise lines 0.. are sent in order with nonce 4·i and slice i of the image, stopping at the first refused line; true after all forty |
| KmBox.KmBoxClient.UploadLines | KMBox.NET/KmBoxClient.cs:358-371 | the line loop keeps every line sent so far accepted and ends in an allowed outcome of `SetImage` |
| KmBox.KmBoxClient.UploadLine | KMBox.NET/KmBoxClient.cs:358-369 | one more line either extends the accepted lines or ends `SetImage` |
| KmBox.KmBoxClient.SendImageLine | KMBox.NET/KmBoxClient.cs:360-365 | line i goes out as `CmdShowPicture` with nonce 4·i and image bytes 1024·i.. as payload, numbered next |
| KmBox.KmBoxClient.LineAppended | KMBox.NET/KmBoxClient.cs:358-369 | a correctly formed next line extends the sequence of sent lines |
| KmBox.KmBoxClient.TypeText | KMBox.NET/KmBoxClient.cs:232-262 | sends exactly the planned keystrokes for the supported prefix, releasing between equal neighbours; stops with the unsupported character's exception, with false on a refused key-down, or with true after a final release |
| KmBox.KmBoxClient.TypeCharacter | KMBox.NET/KmBoxClient.cs:239-253 | pressing character i either extends the typed prefix or ends `TypeText` in an allowed outcome |
| KmBox.KmBoxClient.FinishTyping | KMBox.NET/KmBoxClient.cs:260-261 | the final release ends `TypeText` with true |
| KmBox.KmBoxClient.PressCharacter | KMBox.NET/KmBoxClient.cs:244-253 | sends a release first when the character repeats, then the key-down, and reports the key-down's correlation |
| KmBox.KmBoxClient.CreateReportListener | KMBox.NET/KmBoxClient.cs:485-492 | throws while the latest listener has not stopped; otherwise returns a fresh, unstarted listener on this client and remembers it |
| KmBox.FirstCancel | KMBox.NET/ReportListener.cs:59-67 | the number of datagrams received before the first cancellation |
| KmBox.DecodedReports | KMBox.NET/ReportListener.cs:59-67 | one report for each of the first k datagrams |
| KmBox.DecodedReportAt | KMBox.NET/ReportListener.cs:61-66 | report i is decoded from the first 20 bytes of datagram i |
| KmBox.DecodeDatagram | KMBox.NET/ReportListener.cs:63-64 | the report read from a datagram serialises to its first 20 bytes |
| KmBox.ReportDecoded | KMBox.NET/ReportListener.cs:61-66 | decoding one more datagram appends its report |
| KmBox.ReportListener.constructor | KMBox.NET/ReportListener.cs:31-34 | a new listener is bound to its client, not started, not stopped, with nothing delivered |
| KmBox.ReportListener.Start | KMBox.NET/ReportListener.cs:41-48 | starting twice throws; the first start marks the listener running |
| KmBox.ReportListener.ListenerThread | KMBox.NET/ReportListener.cs:50-73 | enables monitor mode for the client's port, delivers one decoded report per datagram before cancellation if a listener is set, and is always stopped at the end |
| KmBox.ReportListener.ReceiveReports | KMBox.NET/ReportListener.cs:59-67 | the receive loop delivers exactly the reports of the datagrams before the first cancellation, or nothing when no listener is set |
| KmBox.ReportListener.DeliverReport | KMBox.NET/ReportListener.cs:61-66 | one datagram's report is delivered if a listener is set |
| KmBox.ReportListener.Stop | KMBox.NET/ReportListener.cs:78-86 | stopping a stopped listener does nothing; otherwise it disables monitor mode, then cancels and is stopped; an id that does not parse throws before the cancel |
| KmBox.ReportListener.Dispose | KMBox.NET/ReportListener.cs:91-94 | the same as `Stop` |

## Left out

- UDP I/O is not modelled as sockets. A send appends an exchange to the
  ghost `trace`. The reply is an arbitrary datagram of at least 16 bytes,
  chosen with `:|`. Timeouts, lost datagrams and socket exceptions are not
  modelled.
- The random nonce from `RandomNumberGenerator.GetInt32(int.MaxValue)` is
  an arbitrary value below `0x7FFF_FFFF`.
- `async`/`await`, `Task.Delay` (the `delay` parameter of `TypeText`), the
  background task and thread scheduling are not modelled. The listener loop
  is a method over the sequence of receive outcomes (`Receive`), and
  cancellation is the first `Cancelled` in it. The `ManualResetEventSlim`
  passed to `Start` is stored but never signalled by the code, so it is
  left out.
- `KmBox.ReportListener.ListenerThread`: the event listener callback is
  modelled as appending the report to the ghost `delivered` list. User code
  run by the callback is not modelled.
- `KmBox.ReportListener.ListenerThread` and `KmBox.DecodeDatagram` require
  every datagram to hold at least 20 bytes (`LongEnough`). What
  `Marshal.PtrToStructure` does on a shorter buffer is not defined by the
  code.
- `StructHelper.ByteArrayToStruct` has the same precondition: the buffer is
  at least the struct's size.
- `HexHelper.MacToUInt`: the id is a string of Unicode scalar values, each
  standing for one UTF-16 code unit. That is exact below U+10000. A
  character above U+FFFF, which .NET stores as two code units, and a lone
  surrogate are not modelled, so for such a string the model's index
  positions differ from the code's.
- `HexHelper.FailureIff`: the length of 34 in its condition counts
  characters, which equals the code's count of UTF-16 code units only for
  strings without characters above U+FFFF.
- `HexHelper.Upper`: `char.ToUpper` follows the current culture; the model
  maps codes 0-255 as the invariant culture does. A culture-specific
  mapping (the Turkish culture maps 'i' to U+0130) is not modelled. The
  hexadecimal digits 0-9, A-F and a-f are mapped the same way in every
  culture.
- `KmBox.ReportListener.ListenerThread`: a receive sequence that ends
  without `Cancelled` stands for a receive that then throws (the socket was
  closed or failed), which ends the loop. A receive that blocks forever is
  not modelled.
- `GCHandle`, `Marshal` and unmanaged memory are not modelled. The structs
  are modelled by their explicit byte layout.
- `IPAddress` parsing and `AddressFamily` are not modelled. An address is
  its byte sequence, and IPv4 means four bytes. The local endpoint bound at
  `Port + 1` is not modelled.
- The `KeyboardButton` enum's values and the map from characters to key
  strokes are not modelled. `TypeText` takes the map as a parameter.
- `ToString` overrides of the report structs are left out.
- The `InteractiveTest` demo program is not part of this model.
