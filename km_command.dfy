/** `KmCommand`: the sixteen 32-bit command codes carried in the header's
    `cmd` field. Their values are a fixed contract with the device firmware. */
module Commands {
  import opened Bytes

  const CmdConnect: u32 := 0xaf3c2828
  const CmdMouseMove: u32 := 0xaede7345
  const CmdMouseLeft: u32 := 0x9823AE8D
  const CmdMouseMiddle: u32 := 0x97a3AE8D
  const CmdMouseRight: u32 := 0x238d8212
  const CmdMouseWheel: u32 := 0xffeead38
  const CmdMouseAutomove: u32 := 0xaede7346
  const CmdKeyboardAll: u32 := 0x123c2c2f
  const CmdReboot: u32 := 0xaa8855aa
  const CmdBeizerMove: u32 := 0xa238455a
  const CmdMonitor: u32 := 0x27388020
  const CmdDebug: u32 := 0x27382021
  const CmdMask: u32 := 0x23234343
  const CmdUnmaskAll: u32 := 0x23344343
  const CmdSetConfig: u32 := 0x1d3d3323
  const CmdShowPicture: u32 := 0x12334883

  /** Every code, in declaration order. */
  const AllCommands: seq<u32> := [
    CmdConnect, CmdMouseMove, CmdMouseLeft, CmdMouseMiddle,
    CmdMouseRight, CmdMouseWheel, CmdMouseAutomove, CmdKeyboardAll,
    CmdReboot, CmdBeizerMove, CmdMonitor, CmdDebug,
    CmdMask, CmdUnmaskAll, CmdSetConfig, CmdShowPicture
  ]

  /** No two commands share a code, so matching the `cmd` field of a reply
      identifies the command it answers. */
  lemma CommandsDistinct()
    ensures |AllCommands| == 16
    ensures forall i, j :: 0 <= i < j < |AllCommands| ==> AllCommands[i] != AllCommands[j]
  {
  }

  /** On the wire (header bytes 12..15) the connect code reads 28 28 3C AF. */
  lemma ConnectWireBytes()
    ensures EncodeU32(CmdConnect) == [0x28, 0x28, 0x3C, 0xAF]
  {
  }
}
