# dynmc core, modelled in Dafny

dynmc puts a stand-in listener on a Minecraft server's port while the real
server is stopped. The stand-in answers status pings with a "paused" status
record. When a client tries to log in, it sends a notice, frees the port and
starts `start.sh`. An idle-monitor thread then polls the real server every 30
seconds and sends the rcon `stop` command once nobody has been online for
`ceil(time/30)` consecutive polls. After the server exits, the listener binds
the port again.

This project models the pure parts of that core as Dafny functions over byte
sequences and strings, and proves their properties:

- `results.dfy`, module `Results`: the `Option` and `Result` types used for the
  source's exceptions.
- `varint.dfy`, module `VarInt`: `read_var_int` and `to_var_int`. The byte
  layout is unsigned LEB128 (7-bit groups, low group first, 0x80 as the
  continuation bit). The decoder reads at most five bytes. It does not mask to
  32 bits, so it returns values up to 2^35 - 1. It also accepts non-minimal
  encodings.
- `text.dfy`, module `Text`: UTF-8 encoding and `to_packet_str`. The length
  prefix counts characters, not bytes.
- `frames.dfy`, module `Frames`: `varint(len(packet)) + packet` framing. It
  holds the four outbound frames (status response, login notice, monitor
  handshake, monitor request) and the "read three varints" step that both the
  listener and the monitor use.
- `handshake.dfy`, module `Handshake`: the listener's dispatch of one received
  buffer to an `Action`. The status reply is a typed record. The socket and
  process steps of each action are a list of `Effect`s, checked against a
  port-ownership predicate.
- `monitor.dfy`, module `Monitor`: the poll threshold, the response parse, the
  per-poll `Step`, and a `Run` that folds `Step` over a trace of poll outcomes.
- `properties.dfy`, module `Properties`: the `server.properties` line parser,
  the rcon check of `dyn_mc.py`, and the startup checks of `dynmc.py`.
  The startup checks include `int()` on the two ports.

The varint accumulation is written as addition. The source ORs each 7-bit
group into the value at bit `7*k`. The groups never overlap, so OR and
addition give the same result.

## Model

| member | source | states |
|---|---|---|
| VarInt.ReadVarInt | dynmc.py:28-55 | A successful read consumes 1 to 5 bytes, all inside the buffer |
| VarInt.ReadVarIntOk | dynmc.py:40-55 | A successful read took a complete encoding (continuation bit on every byte but the last). Its value is that encoding's little-endian 7-bit group value, below 2^(7n) |
| VarInt.ReadGroupsShape | dynmc.py:44-55 | Each pass of the read loop continues only past bytes with 0x80 set. A successful read stops at the first byte below 0x80 |
| VarInt.ReadGroupsValue | dynmc.py:44-55 | Each pass adds the next 7-bit group at weight 128^k. A successful read returns the group value of the bytes it consumed |
| VarInt.ReadVarIntErr | dynmc.py:44-54 | Both directions: "ran out of bytes" iff the buffer ends within five bytes before any byte below 0x80. "Too long" iff five bytes in a row have the continuation bit |
| VarInt.ReadVarIntOfVarInt | dynmc.py:44-55 | A complete encoding at `begin` is read whole, with its value and length, whatever follows it |
| VarInt.ToVarInt | dynmc.py:57-64 | Every byte but the last has 0x80 set, and the last is below 0x80. The groups spell `v`. The byte count is exactly the number of 7-bit groups of `v` |
| VarInt.ToVarIntSmall | dynmc.py:60-62 | A value below 128 encodes as that single byte |
| VarInt.ToVarIntLength | dynmc.py:57-64 | The encoding has at most 5 bytes iff `v < 2^35` |
| VarInt.RoundTrip | dynmc.py:28-64 | For `v < 2^35` and any suffix, decoding the encoding gives `(v, len(encoding))` |
| VarInt.RoundTripTooLong | dynmc.py:52-54 | For `v >= 2^35`, decoding the encoding raises "too long" |
| VarInt.NonMinimalAccepted | dynmc.py:44-55 | Padded encodings such as `80 00` decode |
| VarInt.FifthGroupUnmasked | dynmc.py:49-54 | `FF FF FF FF 7F` decodes to 2^35 - 1, so the fifth group is not masked to 32 bits |
| Text.Utf8 | dynmc.py:67 | The UTF-8 byte count is at least the character count and equals it iff the text is ASCII |
| Text.PacketStrPrefix | dynmc.py:66-67 | The prefix reads back as the character count, and the UTF-8 bytes follow it. The prefix equals the number of bytes after it iff the string is ASCII |
| Text.PacketStrCountsCharacters | dynmc.py:66-67 | One non-ASCII character gets prefix 1 and two bytes |
| Frames.FrameHeader | dynmc.py:97 | A frame's leading varint reads back as the packet length, and the packet follows it |
| Frames.FrameWellFramed | dynmc.py:235-238 | A packet that starts with id 0x00 makes a frame whose leading varint counts the bytes after it. The next byte reads as id 0 of length 1 |
| Frames.StatusFrameWellFramed | dynmc.py:234-238 | The status frame is well framed for any JSON text shorter than 2^32 characters |
| Frames.LoginNoticeWellFramed | dynmc.py:242-248 | The login notice frame is well framed |
| Frames.HandshakeFrame | dynmc.py:90-97 | The monitor handshake ends with next state 1, the byte the listener dispatches on |
| Frames.HandshakeFrameWellFramed | dynmc.py:90-97 | The monitor handshake is well framed for any port in 0..65535 and any host name shorter than 2^32 characters |
| Frames.RequestFrame | dynmc.py:100-102 | The monitor request is exactly the two bytes `01 00` |
| Frames.RequestFrameWellFramed | dynmc.py:100-102 | The monitor request is a well-formed frame |
| Frames.LeadingVarInts | dynmc.py:192-199 | When the three reads succeed, the offset after them is at least 3 and inside the buffer |
| Frames.LeadingAt | dynmc.py:192-199 | Complete encodings ending at offsets i < j < k are read as the three leading fields, with values their group values and offset k |
| Frames.LeadingOfFields | dynmc.py:192-199 | Three complete encodings at the front are read as length, packet id and third field, whatever follows |
| Frames.LeadingVarIntsOk | dynmc.py:192-202 | The three reads succeed iff the buffer starts with three complete encodings |
| Handshake.Dispatch | dynmc.py:192-270 | A buffer that is not ignored has at least 3 bytes, so `data[-1]` is defined. An echo returns the buffer verbatim. Status and login happen only when the last byte is 1 or 2 |
| Handshake.DispatchIgnore | dynmc.py:193-202 | A buffer is ignored iff it does not start with three complete varints |
| Handshake.DispatchSpec | dynmc.py:206-270 | Stated on the byte layout: packet id 0 with last byte 1 gives a status reply carrying the third varint. Last byte 2 gives login. Id 1 echoes. Anything else gives no reply |
| Handshake.StatusReplyContents | dynmc.py:210-228 | The status record has name "1.19", protocol equal to the third varint, max = online = 0, the MOTD as text, and exactly one bold extra "\nServer paused, connect to restart" |
| Handshake.DispatchMonitorHandshake | dynmc.py:206-209 | The monitor's own handshake, received alone, gets a status reply for protocol 500 |
| Handshake.HandshakeWithRequestGetsNoReply | dynmc.py:207-240 | Handshake and request frames arriving in one buffer end in 0x00, so the buffer gets no reply. The next state comes from the last byte, not from a parsed field |
| Handshake.LegacyPingNotSpecial | dynmc.py:192-207 | A buffer starting with 0xFE is not special-cased. It can be ignored or answered |
| Handshake.PingEcho | dynmc.py:268-270 | A ping frame is echoed when its payload starts below 0x80. It is ignored when five payload bytes carry the continuation bit |
| Handshake.HandoffRestoresListener | dynmc.py:249-267 | The login hand-off closes the listener before launching the server. It rebinds only after the server has exited |
| Handshake.PortExclusive | dynmc.py:238-270 | For every action the port never has two owners, and the listener ends up open with no server. An ignored buffer causes no effect. Only a login launches the server |
| Handshake.RepliesWellFramed | dynmc.py:234-248 | The bytes sent for status and login replies are well-formed frames |
| Monitor.Limit | dynmc.py:75 | `30*(limit-1) < time <= 30*limit`, the integer ceiling of `time/30` |
| Monitor.DefaultLimit | dynmc.py:75 | 600 seconds give 20 polls |
| Monitor.ParseResponse | dynmc.py:105-114 | A successful parse returns a suffix of the buffer, after at least three bytes |
| Monitor.ParseResponseSpec | dynmc.py:107-114 | After three complete varints the whole remainder is the payload, whatever the declared JSON length says |
| Monitor.ParseStatusFrame | dynmc.py:107-114 | Parsing a status response frame recovers exactly the UTF-8 bytes of its JSON text |
| Monitor.Observe | dynmc.py:104-116 | A poll that connected never counts as a connect failure. It yields a count iff the response parses and the JSON gives a count, and that count is the one the JSON gives. Otherwise it is a fault |
| Monitor.ObserveStatusFrame | dynmc.py:105-116 | A status frame yields the count its JSON reports. An empty read is a fault |
| Monitor.Step | dynmc.py:81-126 | A connect failure changes nothing. Stop is issued iff the poll saw 0 online and the updated counter reaches the limit. A fault ends the thread |
| Monitor.Run | dynmc.py:80-126 | There is one counter per poll, and every stop index is a poll of the trace |
| Monitor.RunCounter | dynmc.py:117-120 | Without faults, the counter equals the number of empty polls since the last poll that saw somebody. Failed connections count neither way |
| Monitor.RunStops | dynmc.py:122-125 | Without faults, stop is issued at poll i iff poll i saw 0 online and the idle streak up to i has reached the limit |
| Monitor.RunAfterFault | dynmc.py:104-116 | After a fault the thread is gone, and no stop is issued at or after it |
| Monitor.NotOneShot | dynmc.py:81-126 | After a stop, the next empty poll issues stop again |
| Monitor.ExampleSingleStop | dynmc.py:117-126 | Limit 3 and polls 0,0,5,0,0,0 give counters 1,2,0,1,2,3 and one stop, at the sixth poll |
| Monitor.ExampleConnectFail | dynmc.py:84-87 | Limit 2 and polls 0, failure, 0 give counters 1,1,2 and a stop at the third poll |
| Monitor.ExampleRepeatedStop | dynmc.py:81-126 | Limit 2 and four empty polls issue stop at the second, third and fourth |
| Properties.StripLeft | dyn_mc.py:15 | Only leading whitespace is removed, and the result does not start with whitespace. Whitespace is either the `str.isspace()` set or the narrower set `int()` skips |
| Properties.StripRight | dyn_mc.py:15 | Only trailing whitespace is removed, and the result does not end with whitespace |
| Properties.StripSurrounded | dyn_mc.py:15 | Whitespace around a text that starts and ends with a non-space is exactly what `strip()` removes |
| Properties.Split | dyn_mc.py:15 | There is one more part than separators, no part contains the separator, and joining the parts gives back the string |
| Properties.ParseLineSpec | dyn_mc.py:15-18 | A line is stored as `(k, v)` iff its stripped text is `k=v` with no other `=` |
| Properties.ParseLineNone | dyn_mc.py:16 | A line adds nothing iff its stripped text has zero or several `=` |
| Properties.ParseLineEmptyValue | dyn_mc.py:15-18 | `key=` stores the empty string |
| Properties.ParseProperties | dyn_mc.py:9-18 | A key is in the map iff some line stores it. Its value is the value of the last such line |
| Properties.LastWins | dyn_mc.py:18 | When a key repeats, the last occurrence wins |
| Properties.LookupFromLine | dyn_mc.py:15-18 | Every stored value comes from a line that stores it under that key |
| Properties.SkippedLineIrrelevant | dyn_mc.py:16 | Removing a line that does not parse, anywhere, leaves the map unchanged |
| Properties.CheckRcon | dyn_mc.py:20-26 | A missing or empty `rcon.port` is reported first. Then anything but exactly "true" for `enable-rcon` is rejected, and a missing value counts as "false" |
| Properties.IntLiteralDecimal | dynmc.py:160 | `int(str(n)) == n` |
| Properties.IntLiteralNegative | dynmc.py:166 | `int(p + "-" + str(n) + q) == -n` for any `p` and `q` made of whitespace that `int()` skips |
| Properties.IntLiteralSeparator | dynmc.py:160 | A separator U+001C..U+001F before a number is removed by `strip()` but makes `int()` raise |
| Properties.IntLiteralEmpty | dynmc.py:166 | `int("")` raises |
| Properties.LoadSettings | dynmc.py:155-176 | The checks run in the source's order: each error is returned iff every earlier check passed and its own check fails. Success holds iff `server-port` and `rcon.port` are present and numeric, `enable-rcon` is not literally "false", and a password exists. The settings carry the converted ports, the password, the `server-ip` default "0.0.0.0" and the `motd` default "" |
| Properties.ValidatorsDisagreeOnEnable | dynmc.py:168-170 | An `enable-rcon` value other than "true"/"false" passes dynmc.py but fails dyn_mc.py |
| Properties.ValidatorsDisagreeOnEmptyPort | dynmc.py:162-166 | An empty `rcon.port` passes dynmc.py's presence check and then fails `int()`. dyn_mc.py reports it as not specified |

## Left out

- Sockets: accept, recv, send, close, timeouts and `SO_REUSEADDR`. The received buffer is a parameter. The socket steps of each action are the `Effect` list, with no timing. `recv(1024)`/`recv(4096)` truncation is not modelled, because the buffer is whatever `recv` returned.
- Threads, the `Event` and the 30-second wait. A monitor run is a finite trace of poll outcomes. The stop signal (`stop_flag.set()`) is the end of the trace.
- MCRcon is a foreign library. A stop appears only as an index in `RunResult.stops`.
- Monitor.Run: an exception raised by MCRcon (connect or auth failure) ends the thread in the source. The model keeps polling after a stop.
- `json.dumps` and `json.loads` are library calls. The status JSON text is a parameter (`toJson`) and the count read from a response is a parameter (`onlineOf`). So are the `.decode("utf-8")` of the payload and its failure. The login notice text is the fixed `json.dumps` output.
- Frames.LoginNoticeWellFramed: it states well-framedness only. That the notice text is ASCII is not proved, so its prefix is not proved equal to its byte count.
- The favicon branch (dynmc.py:229-233) is left out. `bytes.replace` with str arguments raises `TypeError`, and base64 is a library call.
- `math.ceil` on a float is modelled as exact integer ceiling division. The two differ only for magnitudes beyond 2^53.
- Text.Utf8: Dafny characters are Unicode scalar values. Python strings holding lone surrogates, which make `encode` raise, are not modelled.
- Properties.IntLiteral: only ASCII digits are modelled. Python's `int()` also accepts other Unicode decimal digits.
- Properties.IntLiteralDecimal: the digit limit of CPython 3.11 and later is not modelled. There `int()` raises for more than 4300 digits (`sys.int_max_str_digits`), and the source does not pin a Python version. A port has at most five digits.
- Splitting the file into lines (`readline` and universal newlines) is I/O. The parser takes the list of lines `readline` returns.
- Startup I/O is left out: argparse, the `DYNMC_EMPTY_TIME` default, timestamped logging, the existence checks for `server.properties`, `start.sh` and the icon, and `os._exit`. A failed startup check is a `StartupError` value.
- The `except Exception` at dynmc.py:203-205 is not modelled: `read_var_int` on a bytes buffer raises nothing else.
- mcvars.c is not part of this model. It is an unfinished C prototype. Its length checks are empty, and `buf[*idx++]` advances the pointer rather than the index.

## Behaviour that a reader might not expect

The model follows the code in these places:

- A legacy `0xFE` ping gets no special case. It is read like any other packet
  (`Handshake.LegacyPingNotSpecial`).
- The stop command is not one-shot. The monitor keeps polling after it and
  sends stop again (`Monitor.NotOneShot`, `Monitor.ExampleRepeatedStop`).
- Only a connect failure during a poll is caught. A failure after connecting
  ends the monitor thread (`Monitor.RunAfterFault`).
- `encode_string` prefixes the character count, not the UTF-8 byte count
  (`Text.PacketStrPrefix`).
- Dispatch does not parse a `next_state` field. It reads the last byte of the
  buffer (`Handshake.HandshakeWithRequestGetsNoReply`).
