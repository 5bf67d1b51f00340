/** Packet framing: every frame the program sends is `varint(len(packet)) +
    packet`, where `packet` begins with the packet id byte 0x00
    (dynmc.py:90-102, 235-238, 242-248); every buffer it receives is read as
    three leading varints (dynmc.py:107-113, 192-199). */
module Frames {
  import opened Results
  import opened VarInt
  import opened Text

  /** `to_var_int(len(packet)) + bytes(packet)`. */
  function Frame(packet: seq<Byte>): seq<Byte>
  {
    ToVarInt(|packet|) + packet
  }

  /** A frame whose leading varint counts exactly the bytes after it, and
      whose next byte is the one-byte packet id 0. */
  predicate WellFramed(f: seq<Byte>)
  {
    match ReadVarInt(f, 0)
    case Decoded(len, n) => len == |f| - n && ReadVarInt(f, n) == Decoded(0, 1)
    case Failed(_) => false
  }

  /** Reading a frame's header gives back the packet length and leaves the packet. */
  lemma {:induction false} FrameHeader(packet: seq<Byte>)
    requires |packet| < VarIntBound
    ensures var n := |ToVarInt(|packet|)|;
            ReadVarInt(Frame(packet), 0) == Decoded(|packet|, n) && Frame(packet)[n..] == packet
  {
    RoundTrip(|packet|, packet);
  }

  lemma {:induction false} FrameWellFramed(packet: seq<Byte>)
    requires 1 <= |packet| < VarIntBound && packet[0] == 0x00
    ensures WellFramed(Frame(packet))
  {
    var f := Frame(packet);
    var n := |ToVarInt(|packet|)|;
    FrameHeader(packet);
    assert f[n] == packet[0];
    ReadVarIntOneByte(f, n);
  }

  /** The "text" of the login notice (dynmc.py:245). */
  const LoginNoticeText: string := "Server startup will now occur, please wait and reconnect shortly."

  /** The `json.dumps` text of the login notice (dynmc.py:244-247). */
  const LoginNoticeJson: string := "{\"text\": \"" + LoginNoticeText + "\"}"

  /** Packet id 0 followed by a length-prefixed JSON string: the body of the
      status response and of the login notice. */
  function ResponsePacket(json: string): seq<Byte>
  {
    [0x00] + ToPacketStr(json)
  }

  lemma {:induction false} ResponsePacketLength(json: string)
    requires |json| < 0x1_0000_0000
    ensures |ResponsePacket(json)| < VarIntBound
  {
    ToVarIntLength(|json|);
  }

  /** The status response frame for the JSON text of the status record
      (dynmc.py:234-238). */
  function StatusFrame(json: string): seq<Byte>
  {
    Frame(ResponsePacket(json))
  }

  /** Any JSON text of fewer than 2^32 characters makes a status frame the
      decoder can read back. */
  lemma {:induction false} StatusFrameWellFramed(json: string)
    requires |json| < 0x1_0000_0000
    ensures WellFramed(StatusFrame(json))
  {
    ResponsePacketLength(json);
    FrameWellFramed(ResponsePacket(json));
  }

  /** The login notice frame (dynmc.py:242-248). */
  function LoginNoticeFrame(): seq<Byte>
  {
    Frame(ResponsePacket(LoginNoticeJson))
  }

  /** The login notice announces its 79-byte packet correctly. */
  lemma {:induction false} LoginNoticeWellFramed()
    ensures WellFramed(LoginNoticeFrame())
  {
    LoginNoticeJsonLength();
    StatusFrameWellFramed(LoginNoticeJson);
  }

  lemma {:induction false} LoginNoticeJsonLength()
    ensures |LoginNoticeJson| == 77
  {
  }

  /** The handshake the idle monitor sends (dynmc.py:90-97): packet id 0,
      protocol version 500, the host as a packet string, the port LOW byte
      first, then next state 1 (status). Ports outside 0..65535 never get
      here: `socket.connect` (dynmc.py:85) rejects them and the tick is
      skipped. */
  function HandshakePacket(host: string, port: int): seq<Byte>
    requires 0 <= port < 0x1_0000
  {
    [0x00] + ToVarInt(500) + ToPacketStr(host) + [port % 0x100, port / 0x100] + ToVarInt(0x01)
  }

  function HandshakeFrame(host: string, port: int): (f: seq<Byte>)
    requires 0 <= port < 0x1_0000
    ensures |f| > 0 && f[|f| - 1] == 0x01
  {
    var packet := HandshakePacket(host, port);
    assert packet[|packet| - 1] == 0x01;
    Frame(packet)
  }

  /** A handshake for a host name of fewer than 2^32 characters is well framed. */
  lemma {:induction false} HandshakeFrameWellFramed(host: string, port: int)
    requires 0 <= port < 0x1_0000 && |host| < 0x1_0000_0000
    ensures WellFramed(HandshakeFrame(host, port))
  {
    ToVarIntLength(|host|);
    FrameWellFramed(HandshakePacket(host, port));
  }

  /** The empty status request the idle monitor sends after the handshake
      (dynmc.py:100-102). */
  function RequestFrame(): (f: seq<Byte>)
    ensures f == [0x01, 0x00]
  {
    Frame([0x00])
  }

  lemma {:induction false} RequestFrameWellFramed()
    ensures WellFramed(RequestFrame())
  {
    FrameWellFramed([0x00]);
  }

  /** Concatenation regrouped to the left. */
  lemma {:induction false} Regroup<T>(a: seq<T>, b: seq<T>, c: seq<T>, d: seq<T>)
    ensures a + (b + (c + d)) == a + b + c + d
  {
    assert b + (c + d) == b + c + d;
  }

  /** The three varints both the listener and the monitor read from the front
      of a received buffer, and the offset just past them. */
  datatype Leading = Leading(length: nat, packetId: nat, third: nat, offset: nat)

  function LeadingVarInts(data: seq<Byte>): (r: Result<Leading, VarIntError>)
    ensures r.Ok? ==> 3 <= r.value.offset <= |data|
  {
    match ReadVarInt(data, 0)
    case Failed(e) => Err(e)
    case Decoded(length, n1) =>
      match ReadVarInt(data, n1)
      case Failed(e) => Err(e)
      case Decoded(packetId, n2) =>
        match ReadVarInt(data, n1 + n2)
        case Failed(e) => Err(e)
        case Decoded(third, n3) => Ok(Leading(length, packetId, third, n1 + n2 + n3))
  }

  lemma {:induction false} LeadingOfReads(data: seq<Byte>, a: nat, n1: nat, b: nat, n2: nat, c: nat, n3: nat)
    requires ReadVarInt(data, 0) == Decoded(a, n1)
    requires ReadVarInt(data, n1) == Decoded(b, n2)
    requires ReadVarInt(data, n1 + n2) == Decoded(c, n3)
    ensures LeadingVarInts(data) == Ok(Leading(a, b, c, n1 + n2 + n3))
  {
  }

  /** Three complete encodings at offsets 0, `i` and `j` are read as the
      leading fields. */
  lemma {:induction false} LeadingAt(data: seq<Byte>, i: nat, j: nat, k: nat)
    requires 0 < i < j < k <= |data|
    requires IsVarInt(data[..i]) && IsVarInt(data[i..j]) && IsVarInt(data[j..k])
    ensures LeadingVarInts(data)
            == Ok(Leading(GroupValue(data[..i]), GroupValue(data[i..j]), GroupValue(data[j..k]), k))
  {
    assert data[0..0 + i] == data[..i];
    ReadVarIntOfVarInt(data, 0, i);
    assert data[i..i + (j - i)] == data[i..j];
    ReadVarIntOfVarInt(data, i, j - i);
    assert data[j..j + (k - j)] == data[j..k];
    ReadVarIntOfVarInt(data, j, k - j);
    LeadingOfReads(data, GroupValue(data[..i]), i, GroupValue(data[i..j]), j - i, GroupValue(data[j..k]), k - j);
  }

  lemma {:induction false} LeadingOfFields(s1: seq<Byte>, s2: seq<Byte>, s3: seq<Byte>, rest: seq<Byte>)
    requires IsVarInt(s1) && IsVarInt(s2) && IsVarInt(s3)
    ensures LeadingVarInts(s1 + s2 + s3 + rest)
            == Ok(Leading(GroupValue(s1), GroupValue(s2), GroupValue(s3), |s1| + |s2| + |s3|))
  {
    var data := s1 + s2 + s3 + rest;
    FieldSlices(s1, s2, s3, rest);
    assert data[..|s1|] == s1;
    assert data[|s1|..|s1| + |s2|] == s2;
    assert data[|s1| + |s2|..|s1| + |s2| + |s3|] == s3;
    LeadingAtFields(data, s1, s2, s3);
  }

  lemma {:induction false} LeadingAtFields(data: seq<Byte>, s1: seq<Byte>, s2: seq<Byte>, s3: seq<Byte>)
    requires 0 < |s1| < |s1| + |s2| < |s1| + |s2| + |s3| <= |data|
    requires IsVarInt(data[..|s1|]) && GroupValue(data[..|s1|]) == GroupValue(s1)
    requires IsVarInt(data[|s1|..|s1| + |s2|]) && GroupValue(data[|s1|..|s1| + |s2|]) == GroupValue(s2)
    requires IsVarInt(data[|s1| + |s2|..|s1| + |s2| + |s3|])
    requires GroupValue(data[|s1| + |s2|..|s1| + |s2| + |s3|]) == GroupValue(s3)
    ensures LeadingVarInts(data)
            == Ok(Leading(GroupValue(s1), GroupValue(s2), GroupValue(s3), |s1| + |s2| + |s3|))
  {
    LeadingAt(data, |s1|, |s1| + |s2|, |s1| + |s2| + |s3|);
  }

  /** The slices of `s1 + s2 + s3 + rest` at the field boundaries are the fields. */
  lemma {:induction false} FieldSlices(s1: seq<Byte>, s2: seq<Byte>, s3: seq<Byte>, rest: seq<Byte>)
    requires IsVarInt(s1) && IsVarInt(s2) && IsVarInt(s3)
    ensures 0 < |s1| < |s1| + |s2| < |s1| + |s2| + |s3| <= |s1 + s2 + s3 + rest|
    ensures (s1 + s2 + s3 + rest)[..|s1|] == s1
    ensures (s1 + s2 + s3 + rest)[|s1|..|s1| + |s2|] == s2
    ensures (s1 + s2 + s3 + rest)[|s1| + |s2|..|s1| + |s2| + |s3|] == s3
  {
  }

  /** A complete encoding `s` at `begin` is read whole. */
  lemma {:induction false} ReadVarIntOf(buf: seq<Byte>, begin: nat, s: seq<Byte>)
    requires IsVarInt(s) && begin + |s| <= |buf| && buf[begin..begin + |s|] == s
    ensures ReadVarInt(buf, begin) == Decoded(GroupValue(s), |s|)
  {
    ReadVarIntOfVarInt(buf, begin, |s|);
  }

  lemma {:induction false} FirstField(s1: seq<Byte>, s2: seq<Byte>, s3: seq<Byte>, rest: seq<Byte>)
    requires IsVarInt(s1)
    ensures ReadVarInt(s1 + s2 + s3 + rest, 0) == Decoded(GroupValue(s1), |s1|)
  {
    assert (s1 + s2 + s3 + rest)[0..0 + |s1|] == s1;
    ReadVarIntOf(s1 + s2 + s3 + rest, 0, s1);
  }

  lemma {:induction false} SecondField(s1: seq<Byte>, s2: seq<Byte>, s3: seq<Byte>, rest: seq<Byte>)
    requires IsVarInt(s2)
    ensures ReadVarInt(s1 + s2 + s3 + rest, |s1|) == Decoded(GroupValue(s2), |s2|)
  {
    assert (s1 + s2 + s3 + rest)[|s1|..|s1| + |s2|] == s2;
    ReadVarIntOf(s1 + s2 + s3 + rest, |s1|, s2);
  }

  /** A buffer that starts with three complete encodings. */
  predicate StartsWithThreeVarInts(data: seq<Byte>)
  {
    exists i, j, k :: 0 < i < j < k <= |data| && IsVarInt(data[..i]) && IsVarInt(data[i..j]) && IsVarInt(data[j..k])
  }

  /** The leading read fails exactly when the buffer does not start with three
      complete encodings. */
  lemma {:induction false} LeadingVarIntsOk(data: seq<Byte>)
    ensures LeadingVarInts(data).Ok? <==> StartsWithThreeVarInts(data)
  {
    if LeadingVarInts(data).Ok? {
      LeadingWitness(data);
    }
    if StartsWithThreeVarInts(data) {
      var i, j, k :| 0 < i < j < k <= |data| && IsVarInt(data[..i]) && IsVarInt(data[i..j]) && IsVarInt(data[j..k]);
      LeadingAt(data, i, j, k);
    }
  }

  lemma {:induction false} LeadingWitness(data: seq<Byte>)
    requires LeadingVarInts(data).Ok?
    ensures StartsWithThreeVarInts(data)
  {
    var n1 := ReadVarInt(data, 0).size;
    var n2 := ReadVarInt(data, n1).size;
    WitnessOfReads(data, n1, n2, ReadVarInt(data, n1 + n2).size);
  }

  lemma {:induction false} WitnessOfReads(data: seq<Byte>, n1: nat, n2: nat, n3: nat)
    requires ReadVarInt(data, 0).Decoded? && ReadVarInt(data, 0).size == n1
    requires ReadVarInt(data, n1).Decoded? && ReadVarInt(data, n1).size == n2
    requires ReadVarInt(data, n1 + n2).Decoded? && ReadVarInt(data, n1 + n2).size == n3
    ensures StartsWithThreeVarInts(data)
  {
    ReadVarIntOk(data, 0);
    ReadVarIntOk(data, n1);
    ReadVarIntOk(data, n1 + n2);
    WitnessOfFields(data, n1, n2, n3);
  }

  lemma {:induction false} WitnessOfFields(data: seq<Byte>, n1: nat, n2: nat, n3: nat)
    requires 0 < n1 && 0 < n2 && 0 < n3 && n1 + n2 + n3 <= |data|
    requires IsVarInt(data[0..0 + n1]) && IsVarInt(data[n1..n1 + n2]) && IsVarInt(data[n1 + n2..n1 + n2 + n3])
    ensures StartsWithThreeVarInts(data)
  {
    assert data[..n1] == data[0..0 + n1];
    assert IsVarInt(data[..n1]) && IsVarInt(data[n1..n1 + n2]) && IsVarInt(data[n1 + n2..n1 + n2 + n3]);
  }
}
