/** The UDP client and its report listener. Every command goes through
    `NextCmdHead` (device id, nonce, post-incremented sequence number) and
    one request/reply round trip; the datagrams exchanged are recorded in
    the ghost `trace`, and each reply is an arbitrary datagram of at least
    a header's length. */
module KmBox {
  import opened Bytes
  import opened Outcomes
  import opened Protocol
  import Header
  import Commands
  import MouseButtons
  import MouseMaskFlags
  import MouseActionLayout
  import KeyboardActionLayout
  import SetConfigLayout
  import ScreenLine
  import Reports
  import StructHelper
  import HexHelper

  class KmBoxClient {
    const remoteEndpoint: seq<u8>
    const port: i32
    const mac: string

    var currentIndexPts: u32
    var latestReportListener: ReportListener?
    /** Every request sent and the reply taken for it, oldest first. */
    ghost var trace: seq<Exchange>

    /** The device id every header carries: the parsed `mac`, or the
        exception parsing it throws. */
    function DeviceId(): Result<u32> {
      HexHelper.MacValue(mac)
    }

    ghost function Last(): Exchange
      reads this
      requires trace != []
    {
      trace[|trace| - 1]
    }

    constructor (remoteEndpoint: seq<u8>, port: i32, mac: string)
      ensures this.remoteEndpoint == remoteEndpoint && this.port == port && this.mac == mac
      ensures currentIndexPts == 0 && latestReportListener == null && trace == []
    {
      this.remoteEndpoint := remoteEndpoint;
      this.port := port;
      this.mac := mac;
      currentIndexPts := 0;
      latestReportListener := null;
      trace := [];
    }

    /** The header for the next command: the device id, a random nonce below
        `int.MaxValue`, the current sequence number (then incremented with
        wrap-around) and `command`. A device id that does not parse throws
        before the counter moves. */
    method NextCmdHead(command: u32) returns (r: Result<CmdHead>)
      modifies `currentIndexPts
      ensures DeviceId().Failure? ==> r == Failure(DeviceId().error) && currentIndexPts == old(currentIndexPts)
      ensures DeviceId().Success? ==>
        r.Success? && r.value.mac == DeviceId().value && r.value.rand < 0x7FFF_FFFF &&
        r.value.indexpts == old(currentIndexPts) && r.value.cmd == command &&
        currentIndexPts == Inc(old(currentIndexPts))
    {
      var m :- HexHelper.MacToUInt(mac);
      var nonce: u32 :| nonce < 0x7FFF_FFFF;
      r := Success(Header.CmdHead(m, nonce, currentIndexPts, command));
      currentIndexPts := Inc(currentIndexPts);
    }

    /** Sends the serialized request (the bytes of `head` followed by
        those of `payload`) and reads the first 16 bytes of the reply as a
        header; the reply is any datagram at least that long. */
    method Transmit(request: array<u8>, ghost head: CmdHead, ghost payload: seq<u8>) returns (response: CmdHead)
      requires request[..] == Header.Encode(head) + payload
      modifies `trace
      ensures trace == old(trace) + [Exchange(head, payload, response)]
      ensures RequestBytes(Last()) == request[..]
    {
      ghost var silence: seq<u8> := seq(Header.Size, _ => 0);
      assert |silence| >= Header.Size;
      var reply: seq<u8> :| |reply| >= Header.Size;
      var buffer := new u8[|reply|](i requires 0 <= i < |reply| => reply[i]);
      var s := StructHelper.ByteArrayToStruct(StructHelper.HeadKind, buffer);
      response := s.head;
      trace := trace + [Exchange(head, payload, response)];
    }

    /** `SendAndRecieve<CmdHeadT, CmdHeadT>`: a header-only request. */
    method SendAndReceive(head: CmdHead) returns (response: CmdHead)
      modifies `trace
      ensures trace == old(trace) + [Exchange(head, [], response)]
    {
      var serialized := StructHelper.StructToByteArray(StructHelper.HeadStruct(head));
      assert Header.Encode(head) + [] == Header.Encode(head);
      response := Transmit(serialized, head, []);
    }

    /** `SendAndRecieve<CmdHeadT, TRequest, CmdHeadT>`: a header followed by
        the payload struct. */
    method SendAndReceiveWith(head: CmdHead, payload: StructHelper.Struct) returns (response: CmdHead)
      modifies `trace
      ensures trace == old(trace) + [Exchange(head, StructHelper.Encode(payload), response)]
    {
      var serialized := StructHelper.StructPairToByteArray(StructHelper.HeadStruct(head), payload);
      response := Transmit(serialized, head, StructHelper.Encode(payload));
    }

    method Connect() returns (r: Result<bool>)
      modifies `currentIndexPts, `trace
      ensures Commanded(DeviceId(), old(trace), trace, old(currentIndexPts), currentIndexPts,
                        Commands.CmdConnect, Random, [], r)
    {
      var request :- NextCmdHead(Commands.CmdConnect);
      var response := SendAndReceive(request);
      r := Success(CheckResponse(request, response));
    }

    method Reboot() returns (r: Result<bool>)
      modifies `currentIndexPts, `trace
      ensures Commanded(DeviceId(), old(trace), trace, old(currentIndexPts), currentIndexPts,
                        Commands.CmdReboot, Random, [], r)
    {
      var request :- NextCmdHead(Commands.CmdReboot);
      var response := SendAndReceive(request);
      r := Success(CheckResponse(request, response));
    }

    /** Moves the cursor by (x, y) at once. */
    method MouseMoveSimple(x: i16, y: i16) returns (r: Result<bool>)
      modifies `currentIndexPts, `trace
      ensures Commanded(DeviceId(), old(trace), trace, old(currentIndexPts), currentIndexPts,
                        Commands.CmdMouseMove, Random,
                        MouseActionLayout.Encode(MouseActionLayout.Default.(x := x, y := y)), r)
    {
      var request :- NextCmdHead(Commands.CmdMouseMove);
      var currentMouseAction := MouseActionLayout.Default.(x := x, y := y);
      var response := SendAndReceiveWith(request, StructHelper.MouseStruct(currentMouseAction));
      r := Success(CheckResponse(request, response));
    }

    /** Moves the cursor by (x, y) over `ms` milliseconds: `ms` is the nonce. */
    method MouseMoveAuto(x: i16, y: i16, ms: u32) returns (r: Result<bool>)
      modifies `currentIndexPts, `trace
      ensures Commanded(DeviceId(), old(trace), trace, old(currentIndexPts), currentIndexPts,
                        Commands.CmdMouseAutomove, Fixed(ms),
                        MouseActionLayout.Encode(MouseActionLayout.Default.(x := x, y := y)), r)
    {
      var request :- NextCmdHead(Commands.CmdMouseAutomove);
      request := request.(rand := ms);
      var currentMouseAction := MouseActionLayout.Default.(x := x, y := y);
      var response := SendAndReceiveWith(request, StructHelper.MouseStruct(currentMouseAction));
      r := Success(CheckResponse(request, response));
    }

    /** A Bézier move: `ms` is the nonce and the two control points fill the
        first four of the ten point slots. */
    method MouseMoveBezier(x: i32, y: i32, ms: u32, x1: i32, y1: i32, x2: i32, y2: i32) returns (r: Result<bool>)
      modifies `currentIndexPts, `trace
      ensures Commanded(DeviceId(), old(trace), trace, old(currentIndexPts), currentIndexPts,
                        Commands.CmdBeizerMove, Fixed(ms),
                        MouseActionLayout.Encode(MouseActionLayout.MouseAction(0, x, y, 0, [x1, y1, x2, y2, 0, 0, 0, 0, 0, 0])), r)
    {
      var request :- NextCmdHead(Commands.CmdBeizerMove);
      request := request.(rand := ms);
      var currentMouseAction := MouseActionLayout.Default.(x := x, y := y);
      var points := currentMouseAction.points;
      points := points[0 := x1][1 := y1][2 := x2][3 := y2];
      assert points == [x1, y1, x2, y2, 0, 0, 0, 0, 0, 0];
      currentMouseAction := currentMouseAction.(points := points);
      assert currentMouseAction == MouseActionLayout.MouseAction(0, x, y, 0, [x1, y1, x2, y2, 0, 0, 0, 0, 0, 0]);
      var response := SendAndReceiveWith(request, StructHelper.MouseStruct(currentMouseAction));
      r := Success(CheckResponse(request, response));
    }

    /** Presses the given buttons: always the left-button command, with the
        buttons field the OR of their flags (0 for none). */
    method MouseClick(mouseButton: seq<MouseButtons.MouseButton>) returns (r: Result<bool>)
      modifies `currentIndexPts, `trace
      ensures Commanded(DeviceId(), old(trace), trace, old(currentIndexPts), currentIndexPts,
                        Commands.CmdMouseLeft, Random,
                        MouseActionLayout.Encode(MouseActionLayout.Default.(buttons := MouseButtons.Combine(mouseButton) as int)), r)
    {
      var request :- NextCmdHead(Commands.CmdMouseLeft);
      var buttons := CombineButtons(mouseButton);
      var currentMouseAction := MouseActionLayout.Default.(buttons := buttons as int);
      var response := SendAndReceiveWith(request, StructHelper.MouseStruct(currentMouseAction));
      r := Success(CheckResponse(request, response));
    }

    /** The buttons field of `MouseClick`: the flags ORed one at a time,
        each of which fits in a byte. */
    static method CombineButtons(mouseButton: seq<MouseButtons.MouseButton>) returns (buttons: bv8)
      ensures buttons == MouseButtons.Combine(mouseButton)
    {
      buttons := 0;
      for i := 0 to |mouseButton|
        invariant buttons == MouseButtons.Combine(mouseButton[..i])
      {
        assert mouseButton[..i + 1][..i] == mouseButton[..i];
        buttons := buttons | MouseButtons.Flag(mouseButton[i]);
      }
      assert mouseButton[..|mouseButton|] == mouseButton;
    }

    method MouseLeftClick() returns (r: Result<bool>)
      modifies `currentIndexPts, `trace
      ensures Commanded(DeviceId(), old(trace), trace, old(currentIndexPts), currentIndexPts,
                        Commands.CmdMouseLeft, Random, MouseActionLayout.Encode(MouseActionLayout.Default.(buttons := 1)), r)
    {
      r := MouseClick([MouseButtons.MouseLeft]);
    }

    method MouseRightClick() returns (r: Result<bool>)
      modifies `currentIndexPts, `trace
      ensures Commanded(DeviceId(), old(trace), trace, old(currentIndexPts), currentIndexPts,
                        Commands.CmdMouseLeft, Random, MouseActionLayout.Encode(MouseActionLayout.Default.(buttons := 2)), r)
    {
      r := MouseClick([MouseButtons.MouseRight]);
    }

    method MouseMiddleClick() returns (r: Result<bool>)
      modifies `currentIndexPts, `trace
      ensures Commanded(DeviceId(), old(trace), trace, old(currentIndexPts), currentIndexPts,
                        Commands.CmdMouseLeft, Random, MouseActionLayout.Encode(MouseActionLayout.Default.(buttons := 4)), r)
    {
      r := MouseClick([MouseButtons.MouseMiddle]);
    }

    /** A click with no buttons: the all-zero mouse action. */
    method AllMouseButtonsUp() returns (r: Result<bool>)
      modifies `currentIndexPts, `trace
      ensures Commanded(DeviceId(), old(trace), trace, old(currentIndexPts), currentIndexPts,
                        Commands.CmdMouseLeft, Random, MouseActionLayout.Encode(MouseActionLayout.Default), r)
    {
      r := MouseClick([]);
      assert MouseActionLayout.Default.(buttons := MouseButtons.Combine([]) as int) == MouseActionLayout.Default;
    }

    method MouseWheel(wheel: i32) returns (r: Result<bool>)
      modifies `currentIndexPts, `trace
      ensures Commanded(DeviceId(), old(trace), trace, old(currentIndexPts), currentIndexPts,
                        Commands.CmdMouseWheel, Random,
                        MouseActionLayout.Encode(MouseActionLayout.Default.(wheel := wheel)), r)
    {
      var request :- NextCmdHead(Commands.CmdMouseWheel);
      var currentMouseAction := MouseActionLayout.Default.(wheel := wheel);
      var response := SendAndReceiveWith(request, StructHelper.MouseStruct(currentMouseAction));
      r := Success(CheckResponse(request, response));
    }

    /** Presses one key with modifiers: slot 0 holds the key, `Ctrl` the
        modifiers. */
    method KeyboardButtonDown(button: u8, modifiers: u8) returns (r: Result<bool>)
      modifies `currentIndexPts, `trace
      ensures Commanded(DeviceId(), old(trace), trace, old(currentIndexPts), currentIndexPts,
                        Commands.CmdKeyboardAll, Random, KeyPayload(KeyDown(KeyStroke(button, modifiers))), r)
    {
      var request :- NextCmdHead(Commands.CmdKeyboardAll);
      var currentKeyboardAction := new KeyboardActionLayout.KeyboardAction();
      currentKeyboardAction.SetButtons(button, modifiers);
      var response := SendAndReceiveWith(request, StructHelper.KeyboardStruct(currentKeyboardAction.Value()));
      r := Success(CheckResponse(request, response));
    }

    /** Releases every key: an all-zero keyboard action. */
    method AllKeyboardButtonsUp() returns (r: Result<bool>)
      modifies `currentIndexPts, `trace
      ensures Commanded(DeviceId(), old(trace), trace, old(currentIndexPts), currentIndexPts,
                        Commands.CmdKeyboardAll, Random, KeyPayload(KeyRelease), r)
    {
      var request :- NextCmdHead(Commands.CmdKeyboardAll);
      var currentKeyboardAction := new KeyboardActionLayout.KeyboardAction();
      var response := SendAndReceiveWith(request, StructHelper.KeyboardStruct(currentKeyboardAction.Value()));
      r := Success(CheckResponse(request, response));
    }

    method SendRawMouse(command: u32, mouseAction: MouseActionLayout.MouseAction) returns (r: Result<bool>)
      modifies `currentIndexPts, `trace
      ensures Commanded(DeviceId(), old(trace), trace, old(currentIndexPts), currentIndexPts,
                        command, Random, MouseActionLayout.Encode(mouseAction), r)
    {
      var request :- NextCmdHead(command);
      var response := SendAndReceiveWith(request, StructHelper.MouseStruct(mouseAction));
      r := Success(CheckResponse(request, response));
    }

    method SendRawKeyboard(command: u32, keyboardAction: KeyboardActionLayout.KeyboardActionValue) returns (r: Result<bool>)
      modifies `currentIndexPts, `trace
      ensures Commanded(DeviceId(), old(trace), trace, old(currentIndexPts), currentIndexPts,
                        command, Random, KeyboardActionLayout.Encode(keyboardAction), r)
    {
      var request :- NextCmdHead(command);
      var response := SendAndReceiveWith(request, StructHelper.KeyboardStruct(keyboardAction));
      r := Success(CheckResponse(request, response));
    }

    /** Turns the device's report stream on (towards local port `Port + 1`)
        or off. */
    method EnableMonitor(enable: bool) returns (r: Result<bool>)
      modifies `currentIndexPts, `trace
      ensures Commanded(DeviceId(), old(trace), trace, old(currentIndexPts), currentIndexPts,
                        Commands.CmdMonitor, Fixed(MonitorNonce(enable, port)), [], r)
    {
      var request :- NextCmdHead(Commands.CmdMonitor);
      request := request.(rand := if enable then Or32(port % 0x1_0000 + 1, 0xAA55_0000) else 0);
      var response := SendAndReceive(request);
      r := Success(CheckResponse(request, response));
    }

    /** Masks the given mouse inputs: the nonce is the OR of their flags. */
    method MaskMouseInput(masks: set<MouseMaskFlags.MouseMask>) returns (r: Result<bool>)
      modifies `currentIndexPts, `trace
      ensures Commanded(DeviceId(), old(trace), trace, old(currentIndexPts), currentIndexPts,
                        Commands.CmdMask, Fixed(MouseMaskFlags.Combine(masks) as int), [], r)
    {
      var request :- NextCmdHead(Commands.CmdMask);
      request := request.(rand := MouseMaskFlags.Combine(masks) as int);
      var response := SendAndReceive(request);
      r := Success(CheckResponse(request, response));
    }

    /** Masks one key: the key code shifted into the nonce's second byte. */
    method MaskKeyboardButton(keyboardButton: u8) returns (r: Result<bool>)
      modifies `currentIndexPts, `trace
      ensures Commanded(DeviceId(), old(trace), trace, old(currentIndexPts), currentIndexPts,
                        Commands.CmdMask, Fixed(MaskKeyNonce(keyboardButton)), [], r)
    {
      var request :- NextCmdHead(Commands.CmdMask);
      request := request.(rand := keyboardButton * 0x100);
      var response := SendAndReceive(request);
      r := Success(CheckResponse(request, response));
    }

    method UnmaskAllInput() returns (r: Result<bool>)
      modifies `currentIndexPts, `trace
      ensures Commanded(DeviceId(), old(trace), trace, old(currentIndexPts), currentIndexPts,
                        Commands.CmdUnmaskAll, Fixed(0), [], r)
    {
      var request :- NextCmdHead(Commands.CmdUnmaskAll);
      request := request.(rand := 0);
      var response := SendAndReceive(request);
      r := Success(CheckResponse(request, response));
    }

    /** Whether `ipAddress` ANDed with 255.255.255.0 is 192.168.2.0: the
        masked bytes are computed first, then compared until the first
        mismatch. */
    static method IsInKmBoxSubnet(ipAddress: seq<u8>) returns (isInSubnet: bool)
      requires |ipAddress| == 4
      ensures isInSubnet <==> InKmBoxSubnet(ipAddress)
    {
      var resultBytes := new u8[|ipAddress|];
      for i := 0 to |ipAddress|
        invariant forall j :: 0 <= j < i ==> resultBytes[j] == And8(ipAddress[j], SubnetMask[j])
      {
        resultBytes[i] := And8(ipAddress[i], SubnetMask[i]);
      }
      isInSubnet := true;
      var i := 0;
      while i < |ipAddress|
        invariant 0 <= i <= |ipAddress|
        invariant isInSubnet <==> forall j :: 0 <= j < i ==> resultBytes[j] == SubnetAddress[j]
        invariant !isInSubnet ==> !InKmBoxSubnet(ipAddress)
        decreases if isInSubnet then |ipAddress| - i else 0
      {
        if resultBytes[i] == SubnetAddress[i] {
          i := i + 1;
          continue;
        }
        isInSubnet := false;
        break;
      }
    }

    /** Stores a new address and port on the device. A non-IPv4 address, or
        one outside 192.168.2.*, throws before any header is built; otherwise
        the address is the nonce and the port the payload, high byte first. */
    method SetConfig(newIpAddress: seq<u8>, newPort: u16) returns (r: Result<bool>)
      modifies `currentIndexPts, `trace
      ensures |newIpAddress| != 4 ==> r == Failure(NotIPv4) && trace == old(trace) && currentIndexPts == old(currentIndexPts)
      ensures |newIpAddress| == 4 && !InKmBoxSubnet(newIpAddress) ==>
        r == Failure(NotInKmBoxSubnet) && trace == old(trace) && currentIndexPts == old(currentIndexPts)
      ensures |newIpAddress| == 4 && InKmBoxSubnet(newIpAddress) ==>
        Commanded(DeviceId(), old(trace), trace, old(currentIndexPts), currentIndexPts,
                  Commands.CmdSetConfig, Fixed(DecodeU32(newIpAddress)), SetConfigLayout.Encode(ConfigPayload(newPort)), r)
    {
      if |newIpAddress| != 4 {
        return Failure(NotIPv4);
      }
      var inSubnet := IsInKmBoxSubnet(newIpAddress);
      if !inSubnet {
        return Failure(NotInKmBoxSubnet);
      }
      var request :- NextCmdHead(Commands.CmdSetConfig);
      var addressAsBytes := newIpAddress;
      var portAsBytes := EncodeU16(newPort);
      request := request.(rand := DecodeU32(addressAsBytes));
      var setConfig := SetConfigLayout.Default;
      setConfig := setConfig.(port := setConfig.port[0 := portAsBytes[1]]);
      setConfig := setConfig.(port := setConfig.port[1 := portAsBytes[0]]);
      var response := SendAndReceiveWith(request, StructHelper.ConfigStruct(setConfig));
      r := Success(CheckResponse(request, response));
    }

    /** Uploads a 128×160 image as forty 1024-byte lines, line `i` with nonce
        4·i, stopping at the first reply that does not correlate. */
    method SetImage(buff128160: array<u8>) returns (r: Result<bool>, ghost sent: seq<Exchange>)
      modifies `currentIndexPts, `trace
      ensures trace == old(trace) + sent
      ensures currentIndexPts == IndexAfter(old(currentIndexPts), |sent|)
      ensures ImageOutcome(buff128160[..], DeviceId(), sent, old(currentIndexPts), r)
    {
      if buff128160.Length != ImageSize {
        return Failure(ImageLengthInvalid), [];
      }
      r, sent := UploadLines(buff128160);
    }

    /** The upload loop of `SetImage`, for a buffer of the right length. */
    method UploadLines(image: array<u8>) returns (r: Result<bool>, ghost sent: seq<Exchange>)
      requires image.Length == ImageSize
      modifies `currentIndexPts, `trace
      ensures trace == old(trace) + sent
      ensures currentIndexPts == IndexAfter(old(currentIndexPts), |sent|)
      ensures ImageOutcome(image[..], DeviceId(), sent, old(currentIndexPts), r)
    {
      ghost var t0 := trace;
      ghost var index0 := currentIndexPts;
      ghost var img := image[..];
      sent := [];
      var buffer := new u8[LineSize];
      var line := 0;
      while line < LineCount
        invariant 0 <= line <= LineCount && |sent| == line
        invariant trace == t0 + sent
        invariant currentIndexPts == IndexAfter(index0, line)
        invariant image[..] == img && LinesAnswered(img, DeviceId(), sent, index0)
      {
        var ok;
        ok, sent := UploadLine(image, line, buffer, img, t0, index0, sent);
        if ok != Success(true) {
          return ok, sent;
        }
        line := line + 1;
      }
      ImageAllLines(img, DeviceId().value, sent, index0);
      r := Success(true);
    }

    /** One line of the upload loop and its bookkeeping: `sent` grows by
        the line's command, and the loop goes on only when it was answered. */
    method UploadLine(image: array<u8>, line: nat, buffer: array<u8>, ghost img: seq<u8>,
                      ghost t0: seq<Exchange>, ghost index0: u32, ghost sent: seq<Exchange>)
      returns (r: Result<bool>, ghost sent': seq<Exchange>)
      requires image.Length == ImageSize && buffer.Length == LineSize && image != buffer && image[..] == img
      requires line < LineCount && |sent| == line && currentIndexPts == IndexAfter(index0, line)
      requires trace == t0 + sent && LinesAnswered(img, DeviceId(), sent, index0)
      modifies `currentIndexPts, `trace, buffer
      ensures trace == t0 + sent' && currentIndexPts == IndexAfter(index0, |sent'|)
      ensures r == Success(true) ==> |sent'| == line + 1 && LinesAnswered(img, DeviceId(), sent', index0)
      ensures r != Success(true) ==> ImageOutcome(img, DeviceId(), sent', index0, r)
    {
      ghost var e;
      r, e := SendImageLine(image, line, buffer, img, index0, sent);
      if r.Failure? {
        ImageNoDevice(img, r.error, index0);
        return r, sent;
      }
      ConcatAssoc(t0, sent, [e]);
      sent' := sent + [e];
      if !r.value {
        ImageLineRefused(img, DeviceId().value, sent, e, index0);
      } else {
        ImageLineAnswered(img, DeviceId().value, sent, e, index0);
      }
    }

    /** One pass of the upload loop: line `line` of `image`, copied into the
        reused 1024-byte `buffer`, sent as a ShowPicture command with nonce
        4·line. */
    method SendImageLine(image: array<u8>, line: nat, buffer: array<u8>, ghost img: seq<u8>, ghost index0: u32, ghost sent: seq<Exchange>)
      returns (r: Result<bool>, ghost e: Exchange)
      requires image.Length == ImageSize && buffer.Length == LineSize && image != buffer && image[..] == img
      requires line < LineCount && |sent| == line && currentIndexPts == IndexAfter(index0, line)
      requires DeviceId().Success? ==> LinesSent(sent, DeviceId().value, index0, img)
      modifies `currentIndexPts, `trace, buffer
      ensures DeviceId().Failure? ==>
        r == Failure(DeviceId().error) && trace == old(trace) && currentIndexPts == old(currentIndexPts)
      ensures DeviceId().Success? ==>
        r == Success(Correlated(e)) && trace == old(trace) + [e] &&
        currentIndexPts == IndexAfter(index0, line + 1) &&
        LinesSent(sent + [e], DeviceId().value, index0, img)
    {
      var next := NextCmdHead(Commands.CmdShowPicture);
      if next.Failure? {
        var none := Header.CmdHead(0, 0, 0, 0);
        return Failure(next.error), Exchange(none, [], none);
      }
      var request := next.value.(rand := line * 4);
      ArrayCopy(image[..], line * LineSize, buffer, 0, LineSize);
      var response := SendAndReceiveWith(request, StructHelper.LineStruct(ScreenLine.ScreenLineBuffer(buffer[..])));
      e := Last();
      LineAppended(sent, DeviceId().value, index0, img, e);
      r := Success(CheckResponse(request, response));
    }

    /** One more line sent keeps `LinesSent`. */
    static lemma LineAppended(ex: seq<Exchange>, m: u32, index0: u32, image: seq<u8>, e: Exchange)
      requires |image| == ImageSize && |ex| < LineCount
      requires LinesSent(ex, m, index0, image)
      requires IsRequest(e, m, IndexAfter(index0, |ex|), Commands.CmdShowPicture, Fixed(4 * |ex|),
                         image[LineSize * |ex|..LineSize * |ex| + LineSize])
      ensures LinesSent(ex + [e], m, index0, image)
    {
    }

    /** Types `text` one character at a time through `keyMap`: an unmapped
        character throws, a character equal to the previous one is preceded
        by a release, a refused key-down returns false, and a final release
        follows the last character. Release replies are not checked. */
    method TypeText(keyMap: map<char, KeyStroke>, text: string) returns (r: Result<bool>, ghost typed: seq<Exchange>)
      modifies `currentIndexPts, `trace
      ensures trace == old(trace) + typed
      ensures currentIndexPts == IndexAfter(old(currentIndexPts), |typed|)
      ensures TypeTextOutcome(keyMap, text, DeviceId(), typed, old(currentIndexPts), r)
    {
      ghost var t0 := trace;
      ghost var index0 := currentIndexPts;
      typed := [];
      assert t0 + typed == t0;
      TypedNothing(keyMap, text, DeviceId(), index0);
      var lastCharacter: Option<char> := None;
      var i := 0;
      while i < |text|
        invariant 0 <= i <= |text|
        invariant lastCharacter == if i == 0 then None else Some(text[i - 1])
        invariant trace == t0 + typed
        invariant currentIndexPts == IndexAfter(index0, |typed|)
        invariant TypedSoFar(keyMap, text, i, DeviceId(), index0, typed)
      {
        var stroke := Lookup(keyMap, text[i]);
        if stroke.button == 0 && stroke.modifiers == 0 {
          TypedUnsupported(keyMap, text, i, DeviceId(), index0, typed);
          return Failure(UnsupportedCharacter(text[i])), typed;
        }
        var pressed;
        ghost var sent;
        pressed, sent := TypeCharacter(keyMap, text, i, stroke, lastCharacter == Some(text[i]), index0, typed);
        ConcatAssoc(t0, typed, sent);
        typed := typed + sent;
        if pressed != Success(true) {
          return pressed, typed;
        }
        lastCharacter := Some(text[i]);
        i := i + 1;
      }
      ghost var sent;
      r, sent := FinishTyping(keyMap, text, index0, typed);
      ConcatAssoc(t0, typed, sent);
      typed := typed + sent;
    }

    /** One mapped character of the typing loop: it is pressed, and the
        loop goes on only when its key-down was answered. */
    method TypeCharacter(keyMap: map<char, KeyStroke>, text: string, i: nat, stroke: KeyStroke, repeat: bool,
                         ghost index0: u32, ghost ex: seq<Exchange>)
      returns (r: Result<bool>, ghost sent: seq<Exchange>)
      requires i < |text| && repeat == (i > 0 && text[i - 1] == text[i])
      requires stroke == Lookup(keyMap, text[i]) && Supported(keyMap, text[i])
      requires TypedSoFar(keyMap, text, i, DeviceId(), index0, ex)
      requires currentIndexPts == IndexAfter(index0, |ex|)
      modifies `currentIndexPts, `trace
      ensures trace == old(trace) + sent && currentIndexPts == IndexAfter(index0, |ex + sent|)
      ensures r == Success(true) ==> TypedSoFar(keyMap, text, i + 1, DeviceId(), index0, ex + sent)
      ensures r != Success(true) ==> TypeTextOutcome(keyMap, text, DeviceId(), ex + sent, index0, r)
    {
      ghost var id, step := DeviceId(), CharacterStrokes(keyMap, text, i);
      ghost var ks;
      r, sent, ks := PressCharacter(stroke, repeat);
      assert ks == step && id == DeviceId();
      TypedCharacter(keyMap, text, i, id, index0, ex, r, sent);
      IndexAfterAdds(index0, |ex|, |sent|);
      assert |ex + sent| == |ex| + |sent|;
    }

    /** After the last character: the final release; its result is
        TypeText's. */
    method FinishTyping(keyMap: map<char, KeyStroke>, text: string, ghost index0: u32, ghost ex: seq<Exchange>)
      returns (r: Result<bool>, ghost sent: seq<Exchange>)
      requires TypedSoFar(keyMap, text, |text|, DeviceId(), index0, ex)
      requires currentIndexPts == IndexAfter(index0, |ex|)
      modifies `currentIndexPts, `trace
      ensures trace == old(trace) + sent && currentIndexPts == IndexAfter(index0, |ex + sent|)
      ensures TypeTextOutcome(keyMap, text, DeviceId(), ex + sent, index0, r)
    {
      var released := AllKeyboardButtonsUp();
      if released.Failure? {
        TypedNoDevice(keyMap, text, |text|, DeviceId().error, index0);
        assert ex + [] == ex;
        return Failure(released.error), [];
      }
      sent := [Last()];
      TypedAll(keyMap, text, DeviceId().value, index0, ex, Last());
      assert |ex + sent| == |ex| + 1;
      r := Success(true);
    }

    /** One mapped character of `TypeText`: a release first when it repeats
        the previous character (its reply is ignored), then its key-down,
        whose correlation is the result. */
    method PressCharacter(stroke: KeyStroke, repeat: bool) returns (r: Result<bool>, ghost sent: seq<Exchange>, ghost ks: seq<KeyCommand>)
      modifies `currentIndexPts, `trace
      ensures ks == (if repeat then [KeyRelease] else []) + [KeyDown(stroke)]
      ensures trace == old(trace) + sent && currentIndexPts == IndexAfter(old(currentIndexPts), |sent|)
      ensures DeviceId().Failure? ==> r == Failure(DeviceId().error) && sent == []
      ensures DeviceId().Success? ==>
        r.Success? && |sent| == |ks| && Follows(sent, DeviceId().value, old(currentIndexPts), ks) &&
        r.value == Correlated(sent[|sent| - 1]) && DownsCorrelated(sent[..|sent| - 1], ks)
    {
      ghost var index0 := currentIndexPts;
      sent, ks := [], [];
      if repeat {
        var released := AllKeyboardButtonsUp();
        if released.Failure? {
          return Failure(released.error), [], [KeyRelease, KeyDown(stroke)];
        }
        sent, ks := [Last()], [KeyRelease];
        assert currentIndexPts == IndexAfter(index0, 1);
      }
      ghost var before := trace;
      var pressed := KeyboardButtonDown(stroke.button, stroke.modifiers);
      if pressed.Failure? {
        assert !repeat;
        return pressed, [], [KeyDown(stroke)];
      }
      assert trace == before + [Last()];
      assert currentIndexPts == Inc(IndexAfter(index0, |sent|)) == IndexAfter(index0, |sent| + 1);
      sent, ks := sent + [Last()], ks + [KeyDown(stroke)];
      r := pressed;
    }

    /** A new listener, unless the latest one has not stopped. */
    method CreateReportListener() returns (r: Result<ReportListener>)
      modifies `latestReportListener
      ensures old(latestReportListener) != null && !old(latestReportListener.stopped) ==>
        r == Failure(ListenerNotStopped) && latestReportListener == old(latestReportListener)
      ensures old(latestReportListener) == null || old(latestReportListener.stopped) ==>
        r.Success? && fresh(r.value) && latestReportListener == r.value && r.value.client == this &&
        !r.value.stopped && !r.value.started && !r.value.cancellationRequested && r.value.delivered == []
    {
      if latestReportListener != null && !latestReportListener.stopped {
        return Failure(ListenerNotStopped);
      }
      var listener := new ReportListener(this);
      latestReportListener := listener;
      r := Success(listener);
    }
  }

  /** One outcome of the listener's receive call. The listener is run over a
      finite sequence of outcomes: a sequence that ends without `Cancelled`
      stands for a receive that then throws (the socket closed or failed),
      which also ends the loop; a receive that blocks forever is not
      modelled. */
  datatype Receive = Datagram(bytes: seq<u8>) | Cancelled

  /** The index of the first cancellation, or |incoming|. */
  function FirstCancel(incoming: seq<Receive>): (k: nat)
    ensures k <= |incoming|
    ensures forall j :: 0 <= j < k ==> incoming[j].Datagram?
    ensures k < |incoming| ==> incoming[k].Cancelled?
  {
    if incoming == [] || incoming[0].Cancelled? then 0 else 1 + FirstCancel(incoming[1..])
  }

  predicate LongEnough(incoming: seq<Receive>) {
    forall i :: 0 <= i < |incoming| && incoming[i].Datagram? ==> |incoming[i].bytes| >= Reports.CompositeSize
  }

  /** The reports decoded from the first `k` datagrams, in arrival order. */
  function DecodedReports(incoming: seq<Receive>, k: nat): (rs: seq<Reports.CompositeReport>)
    requires k <= FirstCancel(incoming) && LongEnough(incoming)
    ensures |rs| == k
  {
    if k == 0 then []
    else DecodedReports(incoming, k - 1) + [Reports.DecodeComposite(incoming[k - 1].bytes[..Reports.CompositeSize])]
  }

  /** Report i is what the first 20 bytes of datagram i encode. */
  lemma {:induction false} DecodedReportAt(incoming: seq<Receive>, k: nat, i: nat)
    requires k <= FirstCancel(incoming) && LongEnough(incoming) && i < k
    ensures Reports.EncodeComposite(DecodedReports(incoming, k)[i]) == incoming[i].bytes[..Reports.CompositeSize]
  {
    if i == k - 1 {
      Reports.CompositeEncodeDecode(incoming[i].bytes[..Reports.CompositeSize]);
    } else {
      DecodedReportAt(incoming, k - 1, i);
    }
  }

  /** `ByteArrayToStruct<CompositeReport>` on one received datagram. */
  method DecodeDatagram(bytes: seq<u8>) returns (report: Reports.CompositeReport)
    requires |bytes| >= Reports.CompositeSize
    ensures Reports.EncodeComposite(report) == bytes[..Reports.CompositeSize]
  {
    var buffer := new u8[|bytes|](i requires 0 <= i < |bytes| => bytes[i]);
    assert buffer[..] == bytes;
    var s := StructHelper.ByteArrayToStruct(StructHelper.CompositeKind, buffer);
    report := s.composite;
  }

  /** Decoding datagram `k` extends the decoded reports by one. */
  lemma ReportDecoded(incoming: seq<Receive>, k: nat, c: Reports.CompositeReport)
    requires k < FirstCancel(incoming) && LongEnough(incoming)
    requires Reports.EncodeComposite(c) == incoming[k].bytes[..Reports.CompositeSize]
    ensures DecodedReports(incoming, k + 1) == DecodedReports(incoming, k) + [c]
  {
    Reports.CompositeDecodeEncode(c, []);
    assert Reports.EncodeComposite(c) + [] == Reports.EncodeComposite(c);
  }

  /** The subscriber side of the device's report stream. */
  class ReportListener {
    const client: KmBoxClient
    var stopped: bool
    var started: bool
    var cancellationRequested: bool
    /** Whether an `EventListener` is installed. */
    var eventListenerSet: bool
    /** The reports handed to `EventListener`, oldest first. */
    var delivered: seq<Reports.CompositeReport>

    constructor (client: KmBoxClient)
      ensures this.client == client
      ensures !stopped && !started && !cancellationRequested && !eventListenerSet && delivered == []
    {
      this.client := client;
      stopped := false;
      started := false;
      cancellationRequested := false;
      eventListenerSet := false;
      delivered := [];
    }

    /** Launches the worker once per instance; the worker's run is
        `ListenerThread`. */
    method Start() returns (r: Result<()>)
      modifies `started
      ensures started
      ensures r == if old(started) then Failure(ListenerAlreadyRunning) else Success(())
    {
      if started {
        return Failure(ListenerAlreadyRunning);
      }
      started := true;
      r := Success(());
    }

    /** The worker: monitor-enable first, then one decoded report per
        datagram, in order, until cancellation; `stopped` on every exit. The
        enable reply's result is not looked at by the source; it is returned
        here so that callers can state what was sent. */
    method ListenerThread(incoming: seq<Receive>) returns (monitor: Result<bool>)
      requires started && LongEnough(incoming)
      modifies `stopped, `delivered, client`currentIndexPts, client`trace
      ensures stopped && cancellationRequested == old(cancellationRequested)
      ensures Commanded(client.DeviceId(), old(client.trace), client.trace, old(client.currentIndexPts), client.currentIndexPts,
                        Commands.CmdMonitor, Fixed(MonitorNonce(true, client.port)), [], monitor)
      ensures delivered == old(delivered) +
        if monitor.Success? && !cancellationRequested && eventListenerSet then DecodedReports(incoming, FirstCancel(incoming))
        else []
    {
      monitor := client.EnableMonitor(true);
      if monitor.Success? {
        ReceiveReports(incoming);
      }
      stopped := true;
    }

    /** The receive loop: one decoded report per datagram, handed to the
        event listener when one is installed, until the first cancellation
        or the end of `incoming` (a receive that throws). */
    method ReceiveReports(incoming: seq<Receive>)
      requires LongEnough(incoming)
      modifies `delivered
      ensures delivered == old(delivered) +
        if !cancellationRequested && eventListenerSet then DecodedReports(incoming, FirstCancel(incoming)) else []
    {
      ghost var n := FirstCancel(incoming);
      ghost var d0 := delivered;
      var k := 0;
      while !cancellationRequested && k < |incoming| && incoming[k].Datagram?
        invariant 0 <= k <= n && (cancellationRequested ==> k == 0)
        invariant delivered == d0 + if eventListenerSet then DecodedReports(incoming, k) else []
        decreases |incoming| - k
      {
        DeliverReport(incoming, k, d0);
        k := k + 1;
      }
    }

    /** One pass of the receive loop: datagram `k` decoded and, when an
        event listener is installed, handed to it. */
    method DeliverReport(incoming: seq<Receive>, k: nat, ghost d0: seq<Reports.CompositeReport>)
      requires k < FirstCancel(incoming) && LongEnough(incoming)
      requires delivered == d0 + if eventListenerSet then DecodedReports(incoming, k) else []
      modifies `delivered
      ensures delivered == d0 + if eventListenerSet then DecodedReports(incoming, k + 1) else []
    {
      var report := DecodeDatagram(incoming[k].bytes);
      ReportDecoded(incoming, k, report);
      if eventListenerSet {
        ConcatAssoc(d0, DecodedReports(incoming, k), [report]);
        delivered := delivered + [report];
      }
    }

    /** A stopped listener: nothing. Otherwise monitor-disable is sent (its
        reply is ignored, a device id that does not parse throws), then the
        worker is cancelled and the listener marked stopped. */
    method Stop() returns (r: Result<()>)
      modifies `stopped, `cancellationRequested, client`currentIndexPts, client`trace
      ensures old(stopped) ==>
        r == Success(()) && stopped && cancellationRequested == old(cancellationRequested) &&
        client.trace == old(client.trace) && client.currentIndexPts == old(client.currentIndexPts)
      ensures !old(stopped) ==>
        Sent(client.DeviceId(), old(client.trace), client.trace, old(client.currentIndexPts), client.currentIndexPts,
             Commands.CmdMonitor, Fixed(MonitorNonce(false, client.port)), [])
      ensures !old(stopped) && client.DeviceId().Failure? ==>
        r == Failure(client.DeviceId().error) && !stopped && cancellationRequested == old(cancellationRequested)
      ensures !old(stopped) && client.DeviceId().Success? ==> r == Success(()) && stopped && cancellationRequested
    {
      if stopped {
        return Success(());
      }
      var disabled :- client.EnableMonitor(false);
      cancellationRequested := true;
      stopped := true;
      r := Success(());
    }

    /** Same as `Stop`. */
    method Dispose() returns (r: Result<()>)
      modifies `stopped, `cancellationRequested, client`currentIndexPts, client`trace
      ensures old(stopped) ==>
        r == Success(()) && stopped && cancellationRequested == old(cancellationRequested) &&
        client.trace == old(client.trace) && client.currentIndexPts == old(client.currentIndexPts)
      ensures !old(stopped) ==>
        Sent(client.DeviceId(), old(client.trace), client.trace, old(client.currentIndexPts), client.currentIndexPts,
             Commands.CmdMonitor, Fixed(MonitorNonce(false, client.port)), [])
      ensures !old(stopped) && client.DeviceId().Failure? ==>
        r == Failure(client.DeviceId().error) && !stopped && cancellationRequested == old(cancellationRequested)
      ensures !old(stopped) && client.DeviceId().Success? ==> r == Success(()) && stopped && cancellationRequested
    {
      r := Stop();
    }
  }
}
