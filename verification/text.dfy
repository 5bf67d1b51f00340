/** Length-prefixed strings (`to_packet_str`, dynmc.py:66-67): the prefix is
    the varint of the string's CHARACTER count, followed by the string's UTF-8
    bytes. The two agree only for ASCII text. */
module Text {
  import opened Results
  import opened VarInt

  predicate IsAscii(s: string)
  {
    forall i :: 0 <= i < |s| ==> s[i] as int < 0x80
  }

  /** The UTF-8 encoding of one Unicode scalar value (`str.encode("utf-8")`). */
  function Utf8Char(c: char): (r: seq<Byte>)
    ensures 1 <= |r| <= 4
    ensures |r| == 1 <==> c as int < 0x80
  {
    var x := c as int;
    if x < 0x80 then [x]
    else if x < 0x800 then [0xC0 + x / 0x40, 0x80 + x % 0x40]
    else if x < 0x1_0000 then [0xE0 + x / 0x1000, 0x80 + (x / 0x40) % 0x40, 0x80 + x % 0x40]
    else [0xF0 + x / 0x4_0000, 0x80 + (x / 0x1000) % 0x40, 0x80 + (x / 0x40) % 0x40, 0x80 + x % 0x40]
  }

  /** `s.encode("utf-8")`: one byte per ASCII character and two to four for
      every other one, so the byte count equals the character count exactly
      when the text is ASCII. */
  function Utf8(s: string): (r: seq<Byte>)
    ensures |s| <= |r| <= 4 * |s|
    ensures |r| == |s| <==> IsAscii(s)
  {
    if |s| == 0 then []
    else
      var rest := Utf8(s[1..]);
      assert IsAscii(s) <==> s[0] as int < 0x80 && IsAscii(s[1..]) by {
        assert forall i :: 1 <= i < |s| ==> s[i] == s[1..][i - 1];
      }
      Utf8Char(s[0]) + rest
  }

  /** `to_packet_str(s)`. */
  function ToPacketStr(s: string): seq<Byte>
  {
    ToVarInt(|s|) + Utf8(s)
  }

  /** Reading the prefix back yields the character count and leaves exactly
      the UTF-8 bytes; that count equals the number of bytes that follow it
      if and only if the string is ASCII. */
  lemma {:induction false} PacketStrPrefix(s: string)
    requires |s| < VarIntBound
    ensures var n := |ToVarInt(|s|)|;
            && ReadVarInt(ToPacketStr(s), 0) == Decoded(|s|, n)
            && ToPacketStr(s)[n..] == Utf8(s)
            && (|s| == |ToPacketStr(s)| - n <==> IsAscii(s))
  {
    RoundTrip(|s|, Utf8(s));
  }

  /** The prefix counts characters, not bytes: "\U{E9}" (e acute) is one character and two bytes. */
  lemma {:induction false} PacketStrCountsCharacters()
    ensures ToPacketStr("\U{E9}") == [0x01, 0xC3, 0xA9]
  {
  }
}
