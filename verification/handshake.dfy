/** The listener's handling of one received buffer (dynmc.py:192-270): read
    three varints, then choose a reply by packet id and by the LAST byte of
    the buffer. The server address and port in a handshake are never parsed. */
module Handshake {
  import opened Results
  import opened VarInt
  import opened Text
  import opened Frames

  /** The status record built at dynmc.py:210-228, before `json.dumps`. */
  datatype TextComponent = TextComponent(text: string, bold: bool)
  datatype Version = Version(name: string, protocol: int)
  datatype Players = Players(max: int, online: int)
  datatype Description = Description(text: string, extra: seq<TextComponent>)
  datatype StatusResponse = StatusResponse(version: Version, players: Players, description: Description)

  const VersionName: string := "1.19"
  const PausedNotice: string := "\nServer paused, connect to restart"

  /** The status record for the configured MOTD and the client's declared protocol. */
  function StatusFor(motd: string, protocol: int): StatusResponse
  {
    StatusResponse(
      Version(VersionName, protocol),
      Players(0, 0),
      Description(motd, [TextComponent(PausedNotice, true)]))
  }

  /** What the listener does with a buffer:
      - Ignore: one of the three varint reads raised `InvalidVarInt`;
      - SendStatus: the status frame is sent and the connection closed;
      - StartServer: the login notice is sent and the real server started;
      - Echo: the whole buffer is sent back verbatim;
      - NoReply: nothing is sent. */
  datatype Action =
    | Ignore
    | SendStatus(response: StatusResponse)
    | StartServer
    | Echo(data: seq<Byte>)
    | NoReply

  function Dispatch(motd: string, data: seq<Byte>): (a: Action)
    ensures a != Ignore ==> |data| >= 3
    ensures a.Echo? ==> a.data == data
    ensures a.SendStatus? ==> data[|data| - 1] == 0x01
    ensures a.StartServer? ==> data[|data| - 1] == 0x02
  {
    match LeadingVarInts(data)
    case Err(_) => Ignore
    case Ok(fields) =>
      if fields.packetId == 0x00 then
        if data[|data| - 1] == 0x01 then SendStatus(StatusFor(motd, fields.third))
        else if data[|data| - 1] == 0x02 then StartServer
        else NoReply
      else if fields.packetId == 0x01 then Echo(data)
      else NoReply
  }

  /** A buffer is ignored exactly when it does not start with three complete varints. */
  lemma {:induction false} DispatchIgnore(motd: string, data: seq<Byte>)
    ensures Dispatch(motd, data) == Ignore <==> !StartsWithThreeVarInts(data)
  {
    LeadingVarIntsOk(data);
  }

  /** The dispatch rule stated on the byte layout: with three varints
      `s1 s2 s3` in front, the second is the packet id and the third the
      protocol version echoed in a status reply, while the choice between
      status and login looks only at the buffer's final byte, whatever
      `rest` holds. */
  lemma {:induction false} DispatchSpec(motd: string, s1: seq<Byte>, s2: seq<Byte>, s3: seq<Byte>, rest: seq<Byte>)
    requires IsVarInt(s1) && IsVarInt(s2) && IsVarInt(s3)
    ensures var data := s1 + s2 + s3 + rest;
            var last := data[|data| - 1];
            Dispatch(motd, data) ==
              if GroupValue(s2) == 0 then
                if last == 0x01 then SendStatus(StatusFor(motd, GroupValue(s3)))
                else if last == 0x02 then StartServer
                else NoReply
              else if GroupValue(s2) == 1 then Echo(data)
              else NoReply
  {
    LeadingOfFields(s1, s2, s3, rest);
  }

  /** Every status reply reports version "1.19" with the client's protocol
      (the third varint), no players, the MOTD as text and a single bold
      "paused" line. */
  lemma {:induction false} StatusReplyContents(motd: string, data: seq<Byte>)
    requires Dispatch(motd, data).SendStatus?
    ensures var r := Dispatch(motd, data).response;
            && LeadingVarInts(data).Ok?
            && r.version == Version("1.19", LeadingVarInts(data).value.third)
            && r.version.protocol < VarIntBound
            && r.players.max == 0 && r.players.online == 0
            && r.description.text == motd
            && r.description.extra == [TextComponent("\nServer paused, connect to restart", true)]
  {
    var l := LeadingVarInts(data).value;
    var n1 := ReadVarInt(data, 0).size;
    var n2 := ReadVarInt(data, n1).size;
    ReadVarIntOk(data, n1 + n2);
    var n3 := ReadVarInt(data, n1 + n2).size;
    Pow128Monotone(n3, 5);
    Pow128Five();
  }

  /** The monitor's handshake frame as three varints (length, packet id 0,
      protocol 500) and the bytes after them, which end in next state 1. */
  lemma {:induction false} HandshakeLayout(host: string, port: int)
    requires 0 <= port < 0x1_0000 && |host| < 0x1_0000_0000
    ensures var s1 := ToVarInt(|HandshakePacket(host, port)|);
            var rest := ToPacketStr(host) + [port % 0x100, port / 0x100, 0x01];
            && IsVarInt(s1)
            && HandshakeFrame(host, port) == s1 + [0x00] + [0xF4, 0x03] + rest
  {
    HandshakePacketBound(host, port);
    HandshakePacketLayout(host, port);
  }

  lemma {:induction false} HandshakePacketBound(host: string, port: int)
    requires 0 <= port < 0x1_0000 && |host| < 0x1_0000_0000
    ensures IsVarInt(ToVarInt(|HandshakePacket(host, port)|))
  {
    ToVarIntLength(|host|);
    assert |ToVarInt(500)| == 2;
    assert |ToVarInt(0x01)| == 1;
    ToVarIntLength(|HandshakePacket(host, port)|);
  }

  lemma {:induction false} HandshakePacketLayout(host: string, port: int)
    requires 0 <= port < 0x1_0000
    ensures HandshakePacket(host, port) == [0x00] + [0xF4, 0x03] + (ToPacketStr(host) + [port % 0x100, port / 0x100, 0x01])
  {
    assert ToVarInt(500) == [0xF4, 0x03];
    assert ToVarInt(0x01) == [0x01];
  }

  /** A buffer laid out as a status handshake for protocol 500 is dispatched
      on its final byte. */
  lemma {:induction false} DispatchHandshakeLayout(motd: string, data: seq<Byte>, s1: seq<Byte>, rest: seq<Byte>)
    requires IsVarInt(s1) && |rest| > 0 && data == s1 + [0x00] + [0xF4, 0x03] + rest
    ensures Dispatch(motd, data) ==
              if rest[|rest| - 1] == 0x01 then SendStatus(StatusFor(motd, 500))
              else if rest[|rest| - 1] == 0x02 then StartServer
              else NoReply
  {
    assert IsVarInt([0x00]) && GroupValue([0x00]) == 0;
    assert IsVarInt([0xF4, 0x03]) && GroupValue([0xF4, 0x03]) == 500;
    DispatchSpec(motd, s1, [0x00], [0xF4, 0x03], rest);
    assert data[|data| - 1] == rest[|rest| - 1];
  }

  /** The monitor's own handshake, arriving alone, is answered with a status
      reply for protocol 500. */
  lemma {:induction false} DispatchMonitorHandshake(motd: string, host: string, port: int)
    requires 0 <= port < 0x1_0000 && |host| < 0x1_0000_0000
    ensures Dispatch(motd, HandshakeFrame(host, port)) == SendStatus(StatusFor(motd, 500))
  {
    HandshakeLayout(host, port);
    var s1 := ToVarInt(|HandshakePacket(host, port)|);
    var rest := ToPacketStr(host) + [port % 0x100, port / 0x100, 0x01];
    DispatchHandshakeLayout(motd, HandshakeFrame(host, port), s1, rest);
  }

  /** Next state comes from the last byte of the buffer, not from the
      handshake: the same handshake followed by the request frame in one
      buffer ends in 0x00 and gets no reply. */
  lemma {:induction false} HandshakeWithRequestGetsNoReply(motd: string, host: string, port: int)
    requires 0 <= port < 0x1_0000 && |host| < 0x1_0000_0000
    ensures Dispatch(motd, HandshakeFrame(host, port) + RequestFrame()) == NoReply
  {
    HandshakeLayout(host, port);
    var s1 := ToVarInt(|HandshakePacket(host, port)|);
    var rest := ToPacketStr(host) + [port % 0x100, port / 0x100, 0x01];
    AppendRequest(HandshakeFrame(host, port), s1, rest);
    DispatchHandshakeLayout(motd, HandshakeFrame(host, port) + RequestFrame(), s1, rest + [0x01, 0x00]);
  }

  lemma {:induction false} AppendRequest(f: seq<Byte>, s1: seq<Byte>, rest: seq<Byte>)
    requires f == s1 + [0x00] + [0xF4, 0x03] + rest
    ensures f + RequestFrame() == s1 + [0x00] + [0xF4, 0x03] + (rest + [0x01, 0x00])
  {
  }

  /** No special case for the legacy 0xFE ping: a lone 0xFE is dropped because
      its varint never ends, but a buffer starting with 0xFE whose varints
      happen to parse is dispatched like any other. */
  lemma {:induction false} LegacyPingNotSpecial(motd: string)
    ensures Dispatch(motd, [0xFE]) == Ignore
    ensures Dispatch(motd, [0xFE, 0x01, 0x00, 0x00, 0x01]) == SendStatus(StatusFor(motd, 0))
  {
    DispatchSpec(motd, [0xFE, 0x01], [0x00], [0x00], [0x01]);
  }

  /** A ping frame is echoed only if its payload starts with a varint that
      ends within five bytes: a payload of 0xFF bytes is dropped. */
  lemma {:induction false} PingEcho(motd: string, payload: seq<Byte>)
    requires |payload| == 8
    ensures payload[0] < 0x80 ==> Dispatch(motd, [0x09, 0x01] + payload) == Echo([0x09, 0x01] + payload)
    ensures (forall i :: 0 <= i < 5 ==> payload[i] >= 0x80) ==> Dispatch(motd, [0x09, 0x01] + payload) == Ignore
  {
    var data := [0x09, 0x01] + payload;
    if payload[0] < 0x80 {
      assert data == [0x09] + [0x01] + [payload[0]] + payload[1..];
      DispatchSpec(motd, [0x09], [0x01], [payload[0]], payload[1..]);
    }
    ReadVarIntErr(data, 2);
    assert [0x09, 0x01] == [0x09] + [0x01] + [];
    assert data == [0x09] + [0x01] + [] + payload;
    assert forall i :: 2 <= i < 7 ==> data[i] == payload[i - 2];
    FirstField([0x09], [0x01], [], payload);
    SecondField([0x09], [0x01], [], payload);
  }

  /** Socket, process and thread steps the listener takes (dynmc.py:238-270). */
  datatype Effect =
    | Send(bytes: seq<Byte>)
    | CloseConnection
    | CloseListener
    | LaunchServer
    | StartMonitor
    | AwaitServerExit
    | SignalMonitorStop
    | Pause
    | Rebind

  /** The steps taken for each action; `toJson` stands for `json.dumps`. On a
      login the listener is closed before `start.sh` is launched, and a new
      listener is bound only after the server process has exited. An ignored
      connection is not even closed. */
  function Effects(a: Action, toJson: StatusResponse -> string): seq<Effect>
  {
    match a
    case Ignore => []
    case NoReply => []
    case SendStatus(r) => [Send(StatusFrame(toJson(r))), CloseConnection]
    case Echo(d) => [Send(d), CloseConnection]
    case StartServer => [Send(LoginNoticeFrame())] + ServerHandoff
  }

  /** After the login notice: close the connection and the listener, run
      `start.sh`, start the monitor, wait for the process, signal the monitor,
      sleep a second, and bind a new listener. */
  const ServerHandoff: seq<Effect> :=
    [ CloseConnection, CloseListener, LaunchServer, StartMonitor,
      AwaitServerExit, SignalMonitorStop, Pause, Rebind ]

  /** Runs effects against who holds the port: `listening` (the listener) and
      `serverUp` (the real server). None if a step would give the port two
      owners, close a listener that is not open, or start a second server. */
  function PortOwners(effects: seq<Effect>, listening: bool, serverUp: bool): Option<(bool, bool)>
    decreases |effects|
  {
    if |effects| == 0 then Some((listening, serverUp))
    else
      var e := effects[0];
      match e
      case CloseListener =>
        if listening then PortOwners(effects[1..], false, serverUp) else None
      case LaunchServer =>
        if listening || serverUp then None else PortOwners(effects[1..], listening, true)
      case AwaitServerExit =>
        PortOwners(effects[1..], listening, false)
      case Rebind =>
        if listening || serverUp then None else PortOwners(effects[1..], true, serverUp)
      case _ =>
        PortOwners(effects[1..], listening, serverUp)
  }

  /** The hand-off gives the port to the server only once the listener is
      closed, and takes it back only once the server has exited. */
  lemma {:induction false} HandoffRestoresListener()
    ensures PortOwners(ServerHandoff, true, false) == Some((true, false))
    ensures LaunchServer in ServerHandoff
  {
    var e := ServerHandoff;
    assert PortOwners(e[8..], true, false) == Some((true, false));
    assert PortOwners(e[7..], false, false) == Some((true, false));
    assert PortOwners(e[6..], false, false) == Some((true, false));
    assert PortOwners(e[5..], false, false) == Some((true, false));
    assert PortOwners(e[4..], false, true) == Some((true, false));
    assert PortOwners(e[3..], false, true) == Some((true, false));
    assert PortOwners(e[2..], false, false) == Some((true, false));
    assert PortOwners(e[1..], true, false) == Some((true, false));
  }

  /** The port never has two owners, and every connection leaves the listener
      open again with no server running: nothing is done for an ignored
      buffer, and only a login hands the port to the server and takes it back. */
  lemma {:induction false} PortExclusive(a: Action, toJson: StatusResponse -> string)
    ensures PortOwners(Effects(a, toJson), true, false) == Some((true, false))
    ensures a == Ignore ==> Effects(a, toJson) == []
    ensures LaunchServer in Effects(a, toJson) <==> a == StartServer
  {
    var e := Effects(a, toJson);
    if a == StartServer {
      HandoffRestoresListener();
      assert e[1..] == ServerHandoff;
    } else if |e| == 2 {
      assert PortOwners(e[2..], true, false) == Some((true, false));
      assert PortOwners(e[1..], true, false) == Some((true, false));
    }
  }

  /** The bytes sent for a status request or a login are well-formed frames. */
  lemma {:induction false} RepliesWellFramed(a: Action, toJson: StatusResponse -> string)
    requires a.SendStatus? ==> |toJson(a.response)| < 0x1_0000_0000
    ensures a.SendStatus? || a.StartServer? ==> WellFramed(Effects(a, toJson)[0].bytes)
  {
    match a
    case SendStatus(r) => StatusFrameWellFramed(toJson(r));
    case StartServer => LoginNoticeWellFramed();
    case _ =>
  }
}
