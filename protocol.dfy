/** The client's protocol rules, stated over the datagrams it exchanges:
    how a request is framed, how a reply is matched to it, which nonce and
    payload each operation carries, and the order of the commands sent by
    the three multi-command operations (typing text, uploading an image,
    changing the configuration). */
module Protocol {
  import opened Bytes
  import opened Outcomes
  import Header
  import Commands
  import MouseButtons
  import KeyboardActionLayout
  import SetConfigLayout

  type CmdHead = Header.CmdHead

  /** One UDP round trip: the request as built (its header and the payload
      bytes serialized after it) and the header read from the start of the
      reply. */
  datatype Exchange = Exchange(head: CmdHead, payload: seq<u8>, reply: CmdHead)

  /** The datagram sent for `e`: the header's 16 bytes, then the payload. */
  function RequestBytes(e: Exchange): (d: seq<u8>)
    ensures |d| == Header.Size + |e.payload|
  {
    Header.Encode(e.head) + e.payload
  }

  // ---------------------------------------------------------------------
  // Sequence numbers

  /** `_currentIndexPts++` on a `uint`: wraps from 0xFFFFFFFF to 0. */
  function Inc(x: u32): u32 {
    if x == 0xFFFF_FFFF then 0 else x + 1
  }

  /** The post-increment is addition modulo 2^32. */
  lemma IncIsModular(x: u32)
    ensures Inc(x) == (x + 1) % 0x1_0000_0000
  {
  }

  /** The counter after `k` increments from `start`. */
  function IndexAfter(start: u32, k: nat): u32 {
    if k == 0 then start else Inc(IndexAfter(start, k - 1))
  }


  /** A fresh client numbers its commands 0, 1, 2, ... */
  lemma {:induction false} FreshClientNumbering(k: nat)
    requires k < 0x1_0000_0000
    ensures IndexAfter(0, k) == k
  {
    if k > 0 {
      FreshClientNumbering(k - 1);
    }
  }

  /** After 2^32 commands the counter is back where it started. */
  lemma {:induction false} IndexAfterAdds(start: u32, j: nat, k: nat)
    ensures IndexAfter(IndexAfter(start, j), k) == IndexAfter(start, j + k)
  {
    if k > 0 {
      IndexAfterAdds(start, j, k - 1);
    }
  }

  lemma WrapAround()
    ensures IndexAfter(0xFFFF_FFFF, 1) == 0
  {
  }

  // ---------------------------------------------------------------------
  // Framing and correlation

  /** `CheckResponse`: a reply answers a request when it echoes the command
      code and the sequence number. */
  predicate CheckResponse(request: CmdHead, response: CmdHead): (ok: bool)
    ensures ok <==> response == request.(mac := response.mac, rand := response.rand)
  {
    request.cmd == response.cmd && request.indexpts == response.indexpts
  }

  /** How the header's `rand` field is filled: by the random source (any
      value below `int.MaxValue`) or overwritten by the operation. */
  datatype Nonce = Random | Fixed(value: u32)

  /** `e` is the request for command `cmd` with sequence `index` from
      device `id`, carrying `payload` after its header. */
  predicate IsRequest(e: Exchange, id: u32, index: u32, cmd: u32, nonce: Nonce, payload: seq<u8>) {
    e.head.mac == id && e.head.indexpts == index && e.head.cmd == cmd && e.payload == payload &&
    match nonce
    case Random => e.head.rand < 0x7FFF_FFFF
    case Fixed(n) => e.head.rand == n
  }

  /** The reply of `e` is accepted by `CheckResponse`. */
  predicate Correlated(e: Exchange) {
    CheckResponse(e.head, e.reply)
  }

  /** One command NOT sent because building its header threw (the device id
      does not parse), or sent exactly once with the next sequence number. */
  predicate Sent(id: Result<u32>, before: seq<Exchange>, after: seq<Exchange>, index0: u32, index1: u32,
                 cmd: u32, nonce: Nonce, payload: seq<u8>)
  {
    match id
    case Failure(_) => after == before && index1 == index0
    case Success(m) =>
      index1 == Inc(index0) && |after| == |before| + 1 && after == before + [after[|before|]] &&
      IsRequest(after[|before|], m, index0, cmd, nonce, payload)
  }

  /** A single-command operation: `Sent`, and its result is the exception
      or whether the reply correlates. */
  predicate Commanded(id: Result<u32>, before: seq<Exchange>, after: seq<Exchange>, index0: u32, index1: u32,
                      cmd: u32, nonce: Nonce, payload: seq<u8>, r: Result<bool>)
  {
    Sent(id, before, after, index0, index1, cmd, nonce, payload) &&
    if id.Failure? then r == Failure(id.error) else r == Success(Correlated(after[|before|]))
  }

  /** Correlation looks only at header bytes 8..15 (sequence and command):
      the reply must echo exactly those eight bytes of the request. */
  lemma CorrelatedIffEcho(e: Exchange)
    ensures Correlated(e) <==> RequestBytes(e)[8..16] == Header.Encode(e.reply)[8..16]
  {
    var q, p := RequestBytes(e), Header.Encode(e.reply);
    Header.FieldOffsets(e.head);
    Header.FieldOffsets(e.reply);
    assert q[8..16] == EncodeU32(e.head.indexpts) + EncodeU32(e.head.cmd);
    assert p[8..16] == EncodeU32(e.reply.indexpts) + EncodeU32(e.reply.cmd);
    if q[8..16] == p[8..16] {
      assert EncodeU32(e.head.indexpts) == q[8..16][..4] && EncodeU32(e.reply.indexpts) == p[8..16][..4];
      assert EncodeU32(e.head.cmd) == q[8..16][4..] && EncodeU32(e.reply.cmd) == p[8..16][4..];
      U32RoundTrip(e.head.indexpts, EncodeU32(0));
      U32RoundTrip(e.reply.indexpts, EncodeU32(0));
      U32RoundTrip(e.head.cmd, EncodeU32(0));
      U32RoundTrip(e.reply.cmd, EncodeU32(0));
    }
  }

  /** `mac` and `rand` play no part in correlation, on either side. */
  lemma CheckIgnoresMacAndRand(request: CmdHead, response: CmdHead, m: u32, n: u32, m2: u32, n2: u32)
    ensures CheckResponse(request.(mac := m, rand := n), response.(mac := m2, rand := n2))
      == CheckResponse(request, response)
  {
  }

  /** A reply that differs from the request in the sequence number, or in
      the command code, is refused; an echo of the request is accepted. */
  lemma CheckRejectsMismatch(request: CmdHead, response: CmdHead)
    ensures CheckResponse(request, request)
    ensures response.indexpts != request.indexpts ==> !CheckResponse(request, response)
    ensures response.cmd != request.cmd ==> !CheckResponse(request, response)
  {
  }

  /** The datagram of a request: its first 16 bytes decode to the header
      that describes it and the payload follows them. */
  lemma RequestOnTheWire(e: Exchange, id: u32, index: u32, cmd: u32, nonce: Nonce, payload: seq<u8>)
    requires IsRequest(e, id, index, cmd, nonce, payload)
    ensures Header.Decode(RequestBytes(e)) == e.head
    ensures Header.Decode(RequestBytes(e)).mac == id && Header.Decode(RequestBytes(e)).indexpts == index
    ensures Header.Decode(RequestBytes(e)).cmd == cmd && RequestBytes(e)[Header.Size..] == payload
  {
    Header.DecodeEncode(e.head, e.payload);
  }

  /** The sequence numbers of consecutive commands of a client. */
  predicate Numbered(ex: seq<Exchange>, start: u32) {
    forall i {:trigger ex[i]} :: 0 <= i < |ex| ==> ex[i].head.indexpts == IndexAfter(start, i)
  }

  /** Command runs compose: a run numbered from `start` followed by a run
      numbered from where the first one left the counter is one run. */
  lemma NumberedConcat(a: seq<Exchange>, b: seq<Exchange>, start: u32)
    requires Numbered(a, start) && Numbered(b, IndexAfter(start, |a|))
    ensures Numbered(a + b, start)
  {
    forall i | |a| <= i < |a| + |b|
      ensures (a + b)[i].head.indexpts == IndexAfter(start, i)
    {
      IndexAfterAdds(start, |a|, i - |a|);
    }
  }

  // ---------------------------------------------------------------------
  // Nonces and payloads of the single-command operations

  /** `EnableMonitor`: when enabling, the low half is the local port the
      listener binds (`(ushort)Port + 1`) OR-ed with 0xAA55 in the high half;
      0 when disabling. Below the top port the OR is an addition; at port
      0xFFFF (mod 2^16) the `+ 1` carries into bit 16, which 0xAA55 already
      sets, and the nonce loses the port entirely. */
  function MonitorNonce(enable: bool, port: i32): (n: u32)
    ensures !enable ==> n == 0
    ensures enable && port % 0x1_0000 < 0xFFFF ==> n == 0xAA55_0000 + port % 0x1_0000 + 1
    ensures enable && port % 0x1_0000 == 0xFFFF ==> n == 0xAA55_0000
  {
    if enable then
      var low := port % 0x1_0000 + 1;
      assert low < 0x1_0000 ==> Or32(low, 0xAA55_0000) == 0xAA55_0000 + low by {
        if low < 0x1_0000 {
          OrLowHalf(low);
        }
      }
      assert low == 0x1_0000 ==> Or32(low, 0xAA55_0000) == 0xAA55_0000 by {
        OrCarry();
      }
      Or32(low, 0xAA55_0000)
    else
      0
  }

  /** Below the top port the device learns the marker 0xAA55 in the high
      half and the listener's port, `port + 1` modulo 2^16, in the low half. */
  lemma MonitorNonceCarriesPort(port: i32)
    requires port % 0x1_0000 < 0xFFFF
    ensures MonitorNonce(true, port) / 0x1_0000 == 0xAA55
    ensures MonitorNonce(true, port) % 0x1_0000 == (port + 1) % 0x1_0000
  {
    LowHalfOfNext(port);
  }

  lemma LowHalfOfNext(port: int)
    requires port % 0x1_0000 < 0xFFFF
    ensures (port + 1) % 0x1_0000 == port % 0x1_0000 + 1
    ensures (0xAA55_0000 + port % 0x1_0000 + 1) % 0x1_0000 == port % 0x1_0000 + 1
    ensures (0xAA55_0000 + port % 0x1_0000 + 1) / 0x1_0000 == 0xAA55
  {
    var low, high := port % 0x1_0000, port / 0x1_0000;
    assert port + 1 == 0x1_0000 * high + (low + 1);
    assert 0xAA55_0000 + low + 1 == 0x1_0000 * 0xAA55 + (low + 1);
  }

  lemma OrLowHalf(p: u32)
    requires 0 < p < 0x1_0000
    ensures Or32(p, 0xAA55_0000) == 0xAA55_0000 + p
  {
    var x := EncodeU32(p);
    assert x == [p % 256, p / 256, 0, 0];
    MarkerBytes();
    Or8Zero(x[0]);
    Or8Zero(x[1]);
    Or8Zero(0x55);
    Or8Zero(0xAA);
  }

  /** The marker 0xAA55 in the high half of a little-endian word. */
  lemma MarkerBytes()
    ensures EncodeU32(0xAA55_0000) == [0, 0, 0x55, 0xAA]
  {
  }

  lemma OrCarry()
    ensures Or32(0x1_0000, 0xAA55_0000) == 0xAA55_0000
  {
    assert EncodeU32(0x1_0000) == [0, 0, 1, 0];
    MarkerBytes();
    assert Or8(1, 0x55) == 0x55;
    Or8Zero(0);
    Or8Zero(0xAA);
  }

  /** `MaskKeyboardButton`: the key code shifted into the second byte, so
      the masked key travels in header byte 5 and nowhere else in `rand`. */
  function MaskKeyNonce(button: u8): (n: u32)
    ensures EncodeU32(n) == [0, button, 0, 0]
  {
    button * 0x100
  }

  // ---------------------------------------------------------------------
  // SetConfig

  const SubnetMask: seq<u8> := [255, 255, 255, 0]
  const SubnetAddress: seq<u8> := [192, 168, 2, 0]

  /** The address ANDed with 255.255.255.0 is 192.168.2.0, which means
      its first three octets are 192, 168 and 2. */
  predicate InKmBoxSubnet(ip: seq<u8>): (inSubnet: bool)
    requires |ip| == 4
    ensures inSubnet <==> ip[0] == 192 && ip[1] == 168 && ip[2] == 2
  {
    And8Masks(ip[0]);
    And8Masks(ip[1]);
    And8Masks(ip[2]);
    And8Masks(ip[3]);
    forall i :: 0 <= i < 4 ==> And8(ip[i], SubnetMask[i]) == SubnetAddress[i]
  }

  /** `BitConverter.GetBytes(newPort)` (little-endian), stored swapped: the
      payload holds the port high byte first, and swapping the two bytes
      back gives the port. */
  function ConfigPayload(port: u16): (c: SetConfigLayout.SetConfigCommand)
    ensures c.port == [port / 256, port % 256]
    ensures DecodeU16([c.port[1], c.port[0]]) == port
  {
    var portAsBytes := EncodeU16(port);
    SetConfigLayout.SetConfigCommand([portAsBytes[1], portAsBytes[0]])
  }

  lemma AddressOnTheWire(e: Exchange, id: u32, index: u32, ip: seq<u8>, payload: seq<u8>)
    requires |ip| == 4 && IsRequest(e, id, index, Commands.CmdSetConfig, Fixed(DecodeU32(ip)), payload)
    ensures RequestBytes(e)[4..8] == ip
  {
    Header.FieldOffsets(e.head);
    assert RequestBytes(e)[4..8] == Header.Encode(e.head)[4..8];
    U32RoundTrip(0, ip);
  }

  // ---------------------------------------------------------------------
  // TypeText

  /** A key mapping entry `(button, modifiers)`; (0, 0) means unmapped. */
  datatype KeyStroke = KeyStroke(button: u8, modifiers: u8)

  /** `CharToKeyboardButton.GetValueOrDefault(c)`: a character is refused
      exactly when it is unmapped or mapped to (0, 0). */
  function Lookup(keyMap: map<char, KeyStroke>, c: char): (k: KeyStroke)
    ensures k == KeyStroke(0, 0) <==> c !in keyMap || keyMap[c] == KeyStroke(0, 0)
    ensures k != KeyStroke(0, 0) ==> c in keyMap && keyMap[c] == k
  {
    if c in keyMap then keyMap[c] else KeyStroke(0, 0)
  }

  predicate Supported(keyMap: map<char, KeyStroke>, c: char) {
    Lookup(keyMap, c) != KeyStroke(0, 0)
  }

  /** The two keyboard commands TypeText sends. */
  datatype KeyCommand = KeyDown(stroke: KeyStroke) | KeyRelease

  function KeyPayload(k: KeyCommand): seq<u8> {
    match k
    case KeyDown(s) => KeyboardActionLayout.Encode(KeyboardActionLayout.Released.SetButtons(s.button, s.modifiers))
    case KeyRelease => KeyboardActionLayout.Encode(KeyboardActionLayout.Released)
  }

  /** The commands for the first `n` characters of `text`: each
      character's key-down, preceded by a release when it repeats the
      character before it. */
  function Keystrokes(keyMap: map<char, KeyStroke>, text: string, n: nat): seq<KeyCommand>
    requires n <= |text|
  {
    if n == 0 then [] else Keystrokes(keyMap, text, n - 1) + CharacterStrokes(keyMap, text, n - 1)
  }

  /** The commands for character `i`: a release when it repeats the
      character before it, then its key-down. */
  function CharacterStrokes(keyMap: map<char, KeyStroke>, text: string, i: nat): seq<KeyCommand>
    requires i < |text|
  {
    (if i > 0 && text[i - 1] == text[i] then [KeyRelease] else []) + [KeyDown(Lookup(keyMap, text[i]))]
  }

  /** The index of the first unmapped character, or |text|. */
  function FirstUnsupported(keyMap: map<char, KeyStroke>, text: string): (u: nat)
    ensures u <= |text|
    ensures forall j :: 0 <= j < u ==> Supported(keyMap, text[j])
    ensures u < |text| ==> !Supported(keyMap, text[u])
  {
    UnsupportedFrom(keyMap, text, 0)
  }

  /** The index of the first unmapped character at `i` or after, or |text|. */
  function UnsupportedFrom(keyMap: map<char, KeyStroke>, text: string, i: nat): (u: nat)
    requires i <= |text|
    ensures i <= u <= |text|
    ensures forall j :: i <= j < u ==> Supported(keyMap, text[j])
    ensures u < |text| ==> !Supported(keyMap, text[u])
    decreases |text| - i
  {
    if i == |text| || !Supported(keyMap, text[i]) then i else UnsupportedFrom(keyMap, text, i + 1)
  }

  /** Everything TypeText sends when every key-down is answered: the
      keystrokes up to the first unmapped character and, when there is
      none, one final release. */
  function TypePlan(keyMap: map<char, KeyStroke>, text: string): (plan: seq<KeyCommand>)
    ensures CountDowns(plan) == FirstUnsupported(keyMap, text)
    ensures |plan| == FirstUnsupported(keyMap, text) + RepeatCount(text, FirstUnsupported(keyMap, text)) +
                      (if FirstUnsupported(keyMap, text) == |text| then 1 else 0)
    ensures FirstUnsupported(keyMap, text) == |text| ==> plan[|plan| - 1] == KeyRelease
  {
    var u := FirstUnsupported(keyMap, text);
    KeystrokesLength(keyMap, text, u);
    KeystrokesDowns(keyMap, text, u);
    CountDownsConcat(Keystrokes(keyMap, text, u), if u == |text| then [KeyRelease] else []);
    Keystrokes(keyMap, text, u) + (if u == |text| then [KeyRelease] else [])
  }

  /** `ex` are keyboard commands from device `id` numbered from `index0`,
      carrying the payloads of `ks`. */
  predicate Follows(ex: seq<Exchange>, id: u32, index0: u32, ks: seq<KeyCommand>) {
    |ex| == |ks| && FollowsFor(ex, id, index0, ks, |ex|)
  }

  /** The first `n` commands of `ex` are keyboard commands from device `id`
      numbered from `index0`, carrying the payloads of the first `n` of `ks`. */
  predicate FollowsFor(ex: seq<Exchange>, id: u32, index0: u32, ks: seq<KeyCommand>, n: nat)
    requires n <= |ex| && n <= |ks|
  {
    n == 0 ||
    (FollowsFor(ex, id, index0, ks, n - 1) &&
     IsRequest(ex[n - 1], id, IndexAfter(index0, n - 1), Commands.CmdKeyboardAll, Random, KeyPayload(ks[n - 1])))
  }

  /** Every key-down among the first |ex| commands of `ks` was answered. */
  predicate DownsCorrelated(ex: seq<Exchange>, ks: seq<KeyCommand>) {
    DownsFor(ex, ks, |ex|)
  }

  /** Every key-down among the first `n` commands of `ks` was answered. */
  predicate DownsFor(ex: seq<Exchange>, ks: seq<KeyCommand>, n: nat)
    requires n <= |ex|
  {
    n == 0 || (DownsFor(ex, ks, n - 1) && (n - 1 < |ks| && ks[n - 1].KeyDown? ==> Correlated(ex[n - 1])))
  }

  /** What TypeText sends (`ex`) and returns, given the device id. A key-down
      whose reply fails ends it with false; an unmapped character ends it
      with an exception after the keystrokes before it; otherwise the final
      release follows and the result is true. Release replies are never
      checked. */
  predicate TypeTextOutcome(keyMap: map<char, KeyStroke>, text: string, id: Result<u32>,
                            ex: seq<Exchange>, index0: u32, r: Result<bool>)
  {
    var u := FirstUnsupported(keyMap, text);
    var plan := TypePlan(keyMap, text);
    match id
    case Failure(e) =>
      ex == [] && r == (if u == 0 && |text| > 0 then Failure(UnsupportedCharacter(text[0])) else Failure(e))
    case Success(m) => |ex| <= |plan| && Follows(ex, m, index0, plan[..|ex|]) && TypingEnded(keyMap, text, ex, r)
  }

  /** How the commands in `ex` ended TypeText with result `r`. */
  predicate TypingEnded(keyMap: map<char, KeyStroke>, text: string, ex: seq<Exchange>, r: Result<bool>) {
    var u := FirstUnsupported(keyMap, text);
    var plan := TypePlan(keyMap, text);
    match r
    case Success(true) => u == |text| && |ex| == |plan| && DownsCorrelated(ex, plan)
    case Success(false) =>
      0 < |ex| <= |plan| && plan[|ex| - 1].KeyDown? && !Correlated(ex[|ex| - 1]) && DownsCorrelated(ex[..|ex| - 1], plan)
    case Failure(e) => u < |text| && e == UnsupportedCharacter(text[u]) && |ex| == |plan| && DownsCorrelated(ex, plan)
  }

  /** The keystrokes of fewer characters are a prefix of those of more. */
  lemma {:induction false} KeystrokesPrefix(keyMap: map<char, KeyStroke>, text: string, k: nat, n: nat)
    requires k <= n <= |text|
    ensures |Keystrokes(keyMap, text, k)| <= |Keystrokes(keyMap, text, n)|
    ensures Keystrokes(keyMap, text, n)[..|Keystrokes(keyMap, text, k)|] == Keystrokes(keyMap, text, k)
  {
    if k < n {
      KeystrokesPrefix(keyMap, text, k, n - 1);
      var prev := Keystrokes(keyMap, text, n - 1);
      assert Keystrokes(keyMap, text, n) == prev + CharacterStrokes(keyMap, text, n - 1);
      assert (prev + CharacterStrokes(keyMap, text, n - 1))[..|prev|] == prev;
    }
  }

  /** Command `j` of the first `n` of a run. */
  lemma {:induction false} FollowsForAt(ex: seq<Exchange>, id: u32, index0: u32, ks: seq<KeyCommand>, n: nat, j: nat)
    requires n <= |ex| && n <= |ks| && FollowsFor(ex, id, index0, ks, n) && j < n
    ensures IsRequest(ex[j], id, IndexAfter(index0, j), Commands.CmdKeyboardAll, Random, KeyPayload(ks[j]))
  {
    if j < n - 1 {
      FollowsForAt(ex, id, index0, ks, n - 1, j);
    }
  }

  /** A run is built from its commands one by one. */
  lemma {:induction false} FollowsForAll(ex: seq<Exchange>, id: u32, index0: u32, ks: seq<KeyCommand>, n: nat)
    requires n <= |ex| && n <= |ks|
    requires forall j {:trigger ex[j]} :: 0 <= j < n ==>
      IsRequest(ex[j], id, IndexAfter(index0, j), Commands.CmdKeyboardAll, Random, KeyPayload(ks[j]))
    ensures FollowsFor(ex, id, index0, ks, n)
  {
    if n > 0 {
      FollowsForAll(ex, id, index0, ks, n - 1);
    }
  }

  /** Command `j` of a run that follows `ks`. */
  lemma FollowsAt(ex: seq<Exchange>, id: u32, index0: u32, ks: seq<KeyCommand>, j: nat)
    requires Follows(ex, id, index0, ks) && j < |ex|
    ensures IsRequest(ex[j], id, IndexAfter(index0, j), Commands.CmdKeyboardAll, Random, KeyPayload(ks[j]))
  {
    FollowsForAt(ex, id, index0, ks, |ex|, j);
  }

  /** Appending one answered keyboard command to a run that follows `ks`. */
  lemma FollowsAppend(ex: seq<Exchange>, id: u32, index0: u32, ks: seq<KeyCommand>, e: Exchange, k: KeyCommand)
    requires Follows(ex, id, index0, ks)
    requires IsRequest(e, id, IndexAfter(index0, |ex|), Commands.CmdKeyboardAll, Random, KeyPayload(k))
    ensures Follows(ex + [e], id, index0, ks + [k])
  {
    var ex2, ks2 := ex + [e], ks + [k];
    forall i | 0 <= i < |ex2|
      ensures IsRequest(ex2[i], id, IndexAfter(index0, i), Commands.CmdKeyboardAll, Random, KeyPayload(ks2[i]))
    {
      if i < |ex| {
        FollowsAt(ex, id, index0, ks, i);
        assert ex2[i] == ex[i] && ks2[i] == ks[i];
      } else {
        assert ex2[i] == e && ks2[i] == k;
      }
    }
    FollowsForAll(ex2, id, index0, ks2, |ex2|);
  }

  /** Two consecutive runs of keyboard commands form one run. */
  lemma FollowsConcat(a: seq<Exchange>, b: seq<Exchange>, id: u32, index0: u32, ka: seq<KeyCommand>, kb: seq<KeyCommand>)
    requires Follows(a, id, index0, ka) && Follows(b, id, IndexAfter(index0, |a|), kb)
    ensures Follows(a + b, id, index0, ka + kb)
  {
    var ex, ks := a + b, ka + kb;
    forall i | 0 <= i < |ex|
      ensures IsRequest(ex[i], id, IndexAfter(index0, i), Commands.CmdKeyboardAll, Random, KeyPayload(ks[i]))
    {
      FollowsConcatAt(a, b, id, index0, ka, kb, i);
    }
    FollowsForAll(ex, id, index0, ks, |ex|);
  }

  /** Command `i` of two consecutive runs. */
  lemma FollowsConcatAt(a: seq<Exchange>, b: seq<Exchange>, id: u32, index0: u32, ka: seq<KeyCommand>, kb: seq<KeyCommand>, i: nat)
    requires Follows(a, id, index0, ka) && Follows(b, id, IndexAfter(index0, |a|), kb) && i < |a| + |b|
    ensures IsRequest((a + b)[i], id, IndexAfter(index0, i), Commands.CmdKeyboardAll, Random, KeyPayload((ka + kb)[i]))
  {
    if i < |a| {
      FollowsAt(a, id, index0, ka, i);
      assert (a + b)[i] == a[i] && (ka + kb)[i] == ka[i];
    } else {
      var j := i - |a|;
      FollowsAt(b, id, IndexAfter(index0, |a|), kb, j);
      IndexAfterAdds(index0, |a|, j);
      assert (a + b)[i] == b[j] && (ka + kb)[i] == kb[j];
    }
  }

  /** An answered key-down among the first `n` commands. */
  lemma {:induction false} DownsForAt(ex: seq<Exchange>, ks: seq<KeyCommand>, n: nat, j: nat)
    requires n <= |ex| && DownsFor(ex, ks, n) && j < n && j < |ks| && ks[j].KeyDown?
    ensures Correlated(ex[j])
  {
    if j < n - 1 {
      DownsForAt(ex, ks, n - 1, j);
    }
  }

  /** Answered key-downs are checked one command at a time. */
  lemma {:induction false} DownsForAll(ex: seq<Exchange>, ks: seq<KeyCommand>, n: nat)
    requires n <= |ex|
    requires forall j {:trigger ex[j]} :: 0 <= j < n && j < |ks| && ks[j].KeyDown? ==> Correlated(ex[j])
    ensures DownsFor(ex, ks, n)
  {
    if n > 0 {
      DownsForAll(ex, ks, n - 1);
    }
  }

  /** A key-down of `ks` answered in `ex`. */
  lemma DownsAt(ex: seq<Exchange>, ks: seq<KeyCommand>, j: nat)
    requires DownsCorrelated(ex, ks) && j < |ex| && j < |ks| && ks[j].KeyDown?
    ensures Correlated(ex[j])
  {
    DownsForAt(ex, ks, |ex|, j);
  }

  /** Answered key-downs of two runs. */
  lemma DownsConcat(a: seq<Exchange>, b: seq<Exchange>, ka: seq<KeyCommand>, kb: seq<KeyCommand>)
    requires |a| == |ka| && DownsCorrelated(a, ka) && |b| <= |kb| && DownsCorrelated(b, kb)
    ensures DownsCorrelated(a + b, ka + kb)
  {
    var ex, ks := a + b, ka + kb;
    forall i | 0 <= i < |ex| && i < |ks| && ks[i].KeyDown?
      ensures Correlated(ex[i])
    {
      if i < |a| {
        assert ex[i] == a[i] && ks[i] == ka[i];
        DownsAt(a, ka, i);
      } else {
        assert ex[i] == b[i - |a|] && ks[i] == kb[i - |a|];
        DownsAt(b, kb, i - |a|);
      }
    }
    DownsForAll(ex, ks, |ex|);
  }

  /** The first unmapped character is the one the loop stopped at. */
  lemma FirstUnsupportedAt(keyMap: map<char, KeyStroke>, text: string, i: nat)
    requires i <= |text|
    requires forall j :: 0 <= j < i ==> Supported(keyMap, text[j])
    requires i < |text| ==> !Supported(keyMap, text[i])
    ensures FirstUnsupported(keyMap, text) == i
  {
  }

  /** The state of the typing loop before character `i`: the characters
      before it are mapped and, when the device id parses, `ex` holds their
      keystrokes with every key-down answered; when it does not, nothing
      has been sent and the loop is still at the first character. */
  predicate TypedSoFar(keyMap: map<char, KeyStroke>, text: string, i: nat, id: Result<u32>,
                       index0: u32, ex: seq<Exchange>)
  {
    i <= |text| && (forall j :: 0 <= j < i ==> Supported(keyMap, text[j])) &&
    match id
    case Failure(_) => i == 0 && ex == []
    case Success(m) =>
      Follows(ex, m, index0, Keystrokes(keyMap, text, i)) && DownsCorrelated(ex, Keystrokes(keyMap, text, i))
  }

  /** The typing loop starts with nothing sent. */
  lemma TypedNothing(keyMap: map<char, KeyStroke>, text: string, id: Result<u32>, index0: u32)
    ensures TypedSoFar(keyMap, text, 0, id, index0, [])
  {
  }

  /** The unmapped-character exit of the typing loop. */
  lemma TypedUnsupported(keyMap: map<char, KeyStroke>, text: string, i: nat, id: Result<u32>,
                         index0: u32, ex: seq<Exchange>)
    requires TypedSoFar(keyMap, text, i, id, index0, ex)
    requires i < |text| && !Supported(keyMap, text[i])
    ensures TypeTextOutcome(keyMap, text, id, ex, index0, Failure(UnsupportedCharacter(text[i])))
  {
    FirstUnsupportedAt(keyMap, text, i);
    if id.Success? {
      var plan := TypePlan(keyMap, text);
      assert plan == Keystrokes(keyMap, text, i) + [] == Keystrokes(keyMap, text, i);
      assert plan[..|ex|] == plan;
    }
  }

  /** The exit when the device id does not parse: the first command throws,
      unless the first character is unmapped (the unmapped-character exit). */
  lemma TypedNoDevice(keyMap: map<char, KeyStroke>, text: string, i: nat, e: Error, index0: u32)
    requires TypedSoFar(keyMap, text, i, Failure(e), index0, [])
    requires i < |text| ==> Supported(keyMap, text[i])
    ensures TypeTextOutcome(keyMap, text, Failure(e), [], index0, Failure(e))
  {
  }

  /** One mapped character of the typing loop, given the commands `sent`
      for it: with every key-down among them answered, the loop moves on
      to the next character. */
  lemma TypedStep(keyMap: map<char, KeyStroke>, text: string, i: nat, m: u32, index0: u32,
                  ex: seq<Exchange>, sent: seq<Exchange>)
    requires TypedSoFar(keyMap, text, i, Success(m), index0, ex)
    requires i < |text| && Supported(keyMap, text[i])
    requires Follows(sent, m, IndexAfter(index0, |ex|), CharacterStrokes(keyMap, text, i))
    requires DownsCorrelated(sent, CharacterStrokes(keyMap, text, i))
    ensures TypedSoFar(keyMap, text, i + 1, Success(m), index0, ex + sent)
  {
    var ks := Keystrokes(keyMap, text, i);
    var step := CharacterStrokes(keyMap, text, i);
    TypedExtend(keyMap, text, i, m, index0, ex, sent);
    DownsConcat(ex, sent, ks, step);
  }

  /** The commands for character `i` extend the run of keystrokes. */
  lemma TypedExtend(keyMap: map<char, KeyStroke>, text: string, i: nat, m: u32, index0: u32,
                    ex: seq<Exchange>, sent: seq<Exchange>)
    requires TypedSoFar(keyMap, text, i, Success(m), index0, ex)
    requires i < |text| && Supported(keyMap, text[i])
    requires Follows(sent, m, IndexAfter(index0, |ex|), CharacterStrokes(keyMap, text, i))
    ensures Keystrokes(keyMap, text, i + 1) == Keystrokes(keyMap, text, i) + CharacterStrokes(keyMap, text, i)
    ensures Follows(ex + sent, m, index0, Keystrokes(keyMap, text, i + 1))
    ensures forall j :: 0 <= j < i + 1 ==> Supported(keyMap, text[j])
  {
    FollowsConcat(ex, sent, m, index0, Keystrokes(keyMap, text, i), CharacterStrokes(keyMap, text, i));
  }

  /** One mapped character whose key-down is refused: TypeText ends with
      false right after it. */
  lemma TypedStepRefused(keyMap: map<char, KeyStroke>, text: string, i: nat, m: u32, index0: u32,
                         ex: seq<Exchange>, sent: seq<Exchange>)
    requires TypedSoFar(keyMap, text, i, Success(m), index0, ex)
    requires i < |text| && Supported(keyMap, text[i])
    requires Follows(sent, m, IndexAfter(index0, |ex|), CharacterStrokes(keyMap, text, i))
    requires DownsCorrelated(sent[..|sent| - 1], CharacterStrokes(keyMap, text, i))
    requires !Correlated(sent[|sent| - 1])
    ensures TypeTextOutcome(keyMap, text, Success(m), ex + sent, index0, Success(false))
  {
    var ks := Keystrokes(keyMap, text, i);
    var step := CharacterStrokes(keyMap, text, i);
    TypedExtend(keyMap, text, i, m, index0, ex, sent);
    DownsConcat(ex, sent[..|sent| - 1], ks, step);
    DropLastConcat(ex, sent);
    TypedRefused(keyMap, text, i, m, ex + sent, index0);
  }

  /** The end of one pass of the typing loop over the mapped character
      `i`, given what pressing it returned and sent: an exception when the
      device id does not parse, otherwise the commands of the character;
      an answered key-down moves on to the next character, and anything
      else is TypeText's result. */
  lemma TypedCharacter(keyMap: map<char, KeyStroke>, text: string, i: nat, id: Result<u32>, index0: u32,
                       ex: seq<Exchange>, pressed: Result<bool>, sent: seq<Exchange>)
    requires TypedSoFar(keyMap, text, i, id, index0, ex)
    requires i < |text| && Supported(keyMap, text[i])
    requires id.Failure? ==> pressed == Failure(id.error) && sent == []
    requires id.Success? ==>
      pressed.Success? && 0 < |sent| && Follows(sent, id.value, IndexAfter(index0, |ex|), CharacterStrokes(keyMap, text, i)) &&
      pressed.value == Correlated(sent[|sent| - 1]) && DownsCorrelated(sent[..|sent| - 1], CharacterStrokes(keyMap, text, i))
    ensures pressed == Success(true) ==> TypedSoFar(keyMap, text, i + 1, id, index0, ex + sent)
    ensures pressed != Success(true) ==> TypeTextOutcome(keyMap, text, id, ex + sent, index0, pressed)
  {
    if id.Failure? {
      TypedNoDevice(keyMap, text, i, id.error, index0);
      assert ex + sent == ex;
    } else if pressed.value {
      DownsLast(sent, CharacterStrokes(keyMap, text, i));
      TypedStep(keyMap, text, i, id.value, index0, ex, sent);
    } else {
      TypedStepRefused(keyMap, text, i, id.value, index0, ex, sent);
    }
  }

  /** A last command answered completes a run of answered key-downs. */
  lemma DownsLast(sent: seq<Exchange>, ks: seq<KeyCommand>)
    requires 0 < |sent| && DownsCorrelated(sent[..|sent| - 1], ks) && Correlated(sent[|sent| - 1])
    ensures DownsCorrelated(sent, ks)
  {
    forall k | 0 <= k < |sent| && k < |ks| && ks[k].KeyDown?
      ensures Correlated(sent[k])
    {
      if k < |sent| - 1 {
        assert sent[..|sent| - 1][k] == sent[k];
        DownsAt(sent[..|sent| - 1], ks, k);
      }
    }
    DownsForAll(sent, ks, |sent|);
  }

  /** The refused-key-down exit of the typing loop, after character `i`. */
  lemma TypedRefused(keyMap: map<char, KeyStroke>, text: string, i: nat, m: u32, ex: seq<Exchange>, index0: u32)
    requires i < |text|
    requires forall j :: 0 <= j <= i ==> Supported(keyMap, text[j])
    requires Follows(ex, m, index0, Keystrokes(keyMap, text, i + 1))
    requires 0 < |ex| && !Correlated(ex[|ex| - 1])
    requires DownsCorrelated(ex[..|ex| - 1], Keystrokes(keyMap, text, i + 1))
    ensures TypeTextOutcome(keyMap, text, Success(m), ex, index0, Success(false))
  {
    var plan := TypePlan(keyMap, text);
    var ks := Keystrokes(keyMap, text, i + 1);
    assert ks == Keystrokes(keyMap, text, i) + CharacterStrokes(keyMap, text, i);
    PlanExtends(keyMap, text, i + 1);
    RefusedEnds(ex, ks, plan);
  }

  /** A refused last key-down, seen against the whole plan. */
  lemma RefusedEnds(ex: seq<Exchange>, ks: seq<KeyCommand>, plan: seq<KeyCommand>)
    requires 0 < |ex| == |ks| <= |plan| && plan[..|ks|] == ks && ks[|ks| - 1].KeyDown?
    requires DownsCorrelated(ex[..|ex| - 1], ks)
    ensures plan[..|ex|] == ks && plan[|ex| - 1].KeyDown?
    ensures DownsCorrelated(ex[..|ex| - 1], plan)
  {
    assert plan[|ex| - 1] == plan[..|ks|][|ks| - 1];
    DownsPrefix(ex[..|ex| - 1], ks, plan);
  }

  /** The keystrokes of the first k mapped characters begin the plan. */
  lemma PlanExtends(keyMap: map<char, KeyStroke>, text: string, k: nat)
    requires k <= |text| && forall j :: 0 <= j < k ==> Supported(keyMap, text[j])
    ensures |Keystrokes(keyMap, text, k)| <= |TypePlan(keyMap, text)|
    ensures TypePlan(keyMap, text)[..|Keystrokes(keyMap, text, k)|] == Keystrokes(keyMap, text, k)
  {
    var u := FirstUnsupported(keyMap, text);
    assert k <= u;
    KeystrokesPrefix(keyMap, text, k, u);
  }

  /** Answered key-downs over a prefix of the plan are answered key-downs
      over the plan. */
  lemma DownsPrefix(ex: seq<Exchange>, ks: seq<KeyCommand>, plan: seq<KeyCommand>)
    requires |ex| <= |ks| <= |plan| && plan[..|ks|] == ks && DownsCorrelated(ex, ks)
    ensures DownsCorrelated(ex, plan)
  {
    forall j | 0 <= j < |ex| && j < |plan| && plan[j].KeyDown?
      ensures Correlated(ex[j])
    {
      assert plan[j] == plan[..|ks|][j];
      DownsAt(ex, ks, j);
    }
    DownsForAll(ex, plan, |ex|);
  }

  /** The normal exit of the typing loop: every character, then the release. */
  lemma TypedAll(keyMap: map<char, KeyStroke>, text: string, m: u32, index0: u32, ex: seq<Exchange>, e: Exchange)
    requires TypedSoFar(keyMap, text, |text|, Success(m), index0, ex)
    requires IsRequest(e, m, IndexAfter(index0, |ex|), Commands.CmdKeyboardAll, Random, KeyPayload(KeyRelease))
    ensures TypeTextOutcome(keyMap, text, Success(m), ex + [e], index0, Success(true))
  {
    FirstUnsupportedAt(keyMap, text, |text|);
    var plan := TypePlan(keyMap, text);
    assert plan == Keystrokes(keyMap, text, |text|) + [KeyRelease];
    FollowsAppend(ex, m, index0, Keystrokes(keyMap, text, |text|), e, KeyRelease);
    DownsConcat(ex, [e], Keystrokes(keyMap, text, |text|), [KeyRelease]);
    assert plan[..|ex + [e]|] == plan;
    assert TypingEnded(keyMap, text, ex + [e], Success(true));
  }

  /** How many of the first `n` characters repeat the character before
      them. */
  function RepeatCount(text: string, n: nat): nat
    requires n <= |text|
  {
    if n < 2 then 0 else RepeatCount(text, n - 1) + (if text[n - 2] == text[n - 1] then 1 else 0)
  }

  function CountDowns(ks: seq<KeyCommand>): nat {
    if ks == [] then 0 else CountDowns(ks[..|ks| - 1]) + (if ks[|ks| - 1].KeyDown? then 1 else 0)
  }

  lemma {:induction false} CountDownsConcat(a: seq<KeyCommand>, b: seq<KeyCommand>)
    ensures CountDowns(a + b) == CountDowns(a) + CountDowns(b)
    decreases |b|
  {
    if b != [] {
      assert (a + b)[..|a + b| - 1] == a + b[..|b| - 1];
      CountDownsConcat(a, b[..|b| - 1]);
    } else {
      assert a + b == a;
    }
  }

  /** One key-down per character. */
  lemma {:induction false} KeystrokesDowns(keyMap: map<char, KeyStroke>, text: string, n: nat)
    requires n <= |text|
    ensures CountDowns(Keystrokes(keyMap, text, n)) == n
  {
    if n > 0 {
      KeystrokesDowns(keyMap, text, n - 1);
      CountDownsConcat(Keystrokes(keyMap, text, n - 1), CharacterStrokes(keyMap, text, n - 1));
      CharacterDowns(keyMap, text, n - 1);
    }
  }

  /** The commands for one character hold exactly one key-down. */
  lemma CharacterDowns(keyMap: map<char, KeyStroke>, text: string, i: nat)
    requires i < |text|
    ensures CountDowns(CharacterStrokes(keyMap, text, i)) == 1
  {
    var ks := CharacterStrokes(keyMap, text, i);
    var down := KeyDown(Lookup(keyMap, text[i]));
    if i > 0 && text[i - 1] == text[i] {
      assert ks == [KeyRelease, down] && ks[..1] == [KeyRelease] && ks[..1][..0] == [];
      assert CountDowns(ks[..1]) == 0;
    } else {
      assert ks == [down] && ks[..0] == [];
    }
  }

  /** One command per character, plus one release per repeated pair. */
  lemma {:induction false} KeystrokesLength(keyMap: map<char, KeyStroke>, text: string, n: nat)
    requires n <= |text|
    ensures |Keystrokes(keyMap, text, n)| == n + RepeatCount(text, n)
  {
    if n > 0 {
      KeystrokesLength(keyMap, text, n - 1);
    }
  }

  /** Under an injective key map two adjacent key-downs never press the
      same key: a repeated character always gets a release in between. */
  lemma {:induction false} NoAdjacentSameKey(keyMap: map<char, KeyStroke>, text: string, n: nat, i: nat)
    requires forall a, b :: a in keyMap && b in keyMap && a != b ==> keyMap[a] != keyMap[b]
    requires n <= |text| && forall j :: 0 <= j < n ==> Supported(keyMap, text[j])
    requires i + 1 < |Keystrokes(keyMap, text, n)|
    requires Keystrokes(keyMap, text, n)[i].KeyDown? && Keystrokes(keyMap, text, n)[i + 1].KeyDown?
    ensures Keystrokes(keyMap, text, n)[i] != Keystrokes(keyMap, text, n)[i + 1]
  {
    var k := n - 1;
    var prev := Keystrokes(keyMap, text, k);
    var rel: seq<KeyCommand> := if k > 0 && text[k - 1] == text[k] then [KeyRelease] else [];
    var ks := Keystrokes(keyMap, text, n);
    assert ks == prev + rel + [KeyDown(Lookup(keyMap, text[k]))];
    if i + 1 < |prev| {
      assert ks[i] == prev[i] && ks[i + 1] == prev[i + 1];
      NoAdjacentSameKey(keyMap, text, k, i);
    } else {
      // ks[i + 1] is the last key-down, ks[i] the last key-down of `prev`
      assert rel == [] && i + 1 == |prev|;
      assert k > 0 && text[k - 1] != text[k];
      assert prev == Keystrokes(keyMap, text, k - 1) + CharacterStrokes(keyMap, text, k - 1);
      assert prev[|prev| - 1] == KeyDown(Lookup(keyMap, text[k - 1]));
      assert Supported(keyMap, text[k - 1]) && Supported(keyMap, text[k]);
    }
  }

  /** Typing "aa" releases between the two key-downs, "ab" does not. */
  lemma RepeatExample(keyMap: map<char, KeyStroke>)
    ensures Keystrokes(keyMap, "aa", 2) == [KeyDown(Lookup(keyMap, 'a')), KeyRelease, KeyDown(Lookup(keyMap, 'a'))]
    ensures Keystrokes(keyMap, "ab", 2) == [KeyDown(Lookup(keyMap, 'a')), KeyDown(Lookup(keyMap, 'b'))]
  {
    assert Keystrokes(keyMap, "aa", 1) == [KeyDown(Lookup(keyMap, 'a'))];
    assert Keystrokes(keyMap, "ab", 1) == [KeyDown(Lookup(keyMap, 'a'))];
  }

  /** Empty text sends exactly one release and returns true. */
  lemma EmptyTextOneRelease(keyMap: map<char, KeyStroke>, m: u32, ex: seq<Exchange>, index0: u32, r: Result<bool>)
    requires TypeTextOutcome(keyMap, "", Success(m), ex, index0, r)
    ensures r == Success(true) && |ex| == 1
    ensures IsRequest(ex[0], m, index0, Commands.CmdKeyboardAll, Random, KeyPayload(KeyRelease))
  {
    assert TypePlan(keyMap, "") == [KeyRelease];
  }

  /** An unmapped character stops TypeText before anything is sent for it:
      exactly one key-down per character before it, and no final release. */
  lemma UnsupportedStopsTyping(keyMap: map<char, KeyStroke>, text: string, m: u32, ex: seq<Exchange>,
                               index0: u32, c: char)
    requires TypeTextOutcome(keyMap, text, Success(m), ex, index0, Failure(UnsupportedCharacter(c)))
    ensures FirstUnsupported(keyMap, text) < |text| && c == text[FirstUnsupported(keyMap, text)]
    ensures !Supported(keyMap, c)
    ensures |ex| == |Keystrokes(keyMap, text, FirstUnsupported(keyMap, text))|
    ensures CountDowns(TypePlan(keyMap, text)) == FirstUnsupported(keyMap, text)
  {
    var u := FirstUnsupported(keyMap, text);
    assert TypingEnded(keyMap, text, ex, Failure(UnsupportedCharacter(c)));
    var ks := Keystrokes(keyMap, text, u);
    KeystrokesDowns(keyMap, text, u);
    assert TypePlan(keyMap, text) == ks + [] == ks;
  }

  /** A false result comes right after a key-down, never after a release,
      and no final release follows it. */
  lemma FalseEndsOnKeyDown(keyMap: map<char, KeyStroke>, text: string, m: u32, ex: seq<Exchange>, index0: u32)
    requires TypeTextOutcome(keyMap, text, Success(m), ex, index0, Success(false))
    ensures 0 < |ex| && !Correlated(ex[|ex| - 1])
    ensures TypePlan(keyMap, text)[|ex| - 1].KeyDown?
    ensures |ex| < |TypePlan(keyMap, text)| || FirstUnsupported(keyMap, text) < |text|
  {
    var u := FirstUnsupported(keyMap, text);
    var plan := TypePlan(keyMap, text);
    assert TypingEnded(keyMap, text, ex, Success(false));
    if u == |text| {
      assert plan[|plan| - 1] == KeyRelease;
    }
  }

  // ---------------------------------------------------------------------
  // SetImage

  const ImageSize: nat := 40960
  const LineSize: nat := 1024
  const LineCount: nat := 40

  /** `ex` are ShowPicture commands for lines 0, 1, ... in order: line i has
      nonce 4·i and carries bytes [1024·i, 1024·i + 1024) of the image. */
  predicate LinesSent(ex: seq<Exchange>, id: u32, index0: u32, image: seq<u8>)
    requires |image| == ImageSize
  {
    |ex| <= LineCount &&
    forall i {:trigger ex[i]} :: 0 <= i < |ex| ==>
      IsRequest(ex[i], id, IndexAfter(index0, i), Commands.CmdShowPicture, Fixed(4 * i),
                image[LineSize * i..LineSize * i + LineSize])
  }

  /** What SetImage sends and returns: nothing and an exception for a wrong
      length or an unusable device id; otherwise lines until the first reply
      that fails to correlate (false), or all forty (true). */
  predicate ImageOutcome(image: seq<u8>, id: Result<u32>, ex: seq<Exchange>, index0: u32, r: Result<bool>) {
    if |image| != ImageSize then r == Failure(ImageLengthInvalid) && ex == []
    else match id
      case Failure(e) => r == Failure(e) && ex == []
      case Success(m) =>
        LinesSent(ex, m, index0, image) &&
        (forall i :: 0 <= i < |ex| - 1 ==> Correlated(ex[i])) &&
        match r
        case Success(true) => |ex| == LineCount && Correlated(ex[LineCount - 1])
        case Success(false) => 0 < |ex| && !Correlated(ex[|ex| - 1])
        case Failure(_) => false
  }

  /** The state of the upload loop: nothing sent when the device id does
      not parse, otherwise lines 0 .. |ex| - 1 sent and every one answered. */
  predicate LinesAnswered(image: seq<u8>, id: Result<u32>, ex: seq<Exchange>, index0: u32)
    requires |image| == ImageSize
  {
    match id
    case Failure(_) => ex == []
    case Success(m) => LinesSent(ex, m, index0, image) && forall i :: 0 <= i < |ex| ==> Correlated(ex[i])
  }

  /** An answered line keeps the upload going. */
  lemma ImageLineAnswered(image: seq<u8>, m: u32, ex: seq<Exchange>, e: Exchange, index0: u32)
    requires |image| == ImageSize && LinesAnswered(image, Success(m), ex, index0)
    requires LinesSent(ex + [e], m, index0, image) && Correlated(e)
    ensures LinesAnswered(image, Success(m), ex + [e], index0)
  {
  }

  /** A refused line ends the upload with false. */
  lemma ImageLineRefused(image: seq<u8>, m: u32, ex: seq<Exchange>, e: Exchange, index0: u32)
    requires |image| == ImageSize && LinesAnswered(image, Success(m), ex, index0)
    requires LinesSent(ex + [e], m, index0, image) && !Correlated(e)
    ensures ImageOutcome(image, Success(m), ex + [e], index0, Success(false))
  {
  }

  /** Forty answered lines end the upload with true. */
  lemma ImageAllLines(image: seq<u8>, m: u32, ex: seq<Exchange>, index0: u32)
    requires |image| == ImageSize && LinesAnswered(image, Success(m), ex, index0) && |ex| == LineCount
    ensures ImageOutcome(image, Success(m), ex, index0, Success(true))
  {
  }

  /** A device id that does not parse fails the first line, before anything
      is sent. */
  lemma ImageNoDevice(image: seq<u8>, e: Error, index0: u32)
    requires |image| == ImageSize
    ensures ImageOutcome(image, Failure(e), [], index0, Failure(e))
  {
  }

  /** The forty lines tile the image: every image byte is sent exactly once,
      in line `b / 1024` at offset `b % 1024`. */
  lemma LinesTileImage(ex: seq<Exchange>, id: u32, index0: u32, image: seq<u8>, b: nat)
    requires |image| == ImageSize && LinesSent(ex, id, index0, image) && |ex| == LineCount && b < ImageSize
    ensures RequestBytes(ex[b / LineSize])[Header.Size + b % LineSize] == image[b]
  {
    var i := b / LineSize;
    assert RequestBytes(ex[i])[Header.Size..] == ex[i].payload;
    assert ex[i].payload[b % LineSize] == image[LineSize * i..LineSize * i + LineSize][b % LineSize];
  }
}
