/** The protocol's variable-length integers (dynmc.py:17-64): 7-bit groups,
    least significant group first, with the top bit (0x80) of each byte set
    when another byte follows. This is the byte layout of unsigned LEB128.

    The decoder ORs each group into the value at bit position 7*k; because
    the groups occupy disjoint bit ranges, that OR is the sum written here. */
module VarInt {
  import opened Results

  type Byte = b: int | 0 <= b < 256

  /** SEGMENT_BITS and CONTINUE_BIT of the source. */
  const SegmentBits: int := 0x7F
  const ContinueBit: int := 0x80

  /** The decoder reads at most five groups, so every decoded value is below
      2^35 (the fifth group holds bits 28-34; nothing masks it to 32 bits). */
  const VarIntBound: nat := 0x8_0000_0000

  /** The two ways `read_var_int` raises `InvalidVarInt`. */
  datatype VarIntError = RanOutOfBytes | TooLong

  /** What `read_var_int` returns, `(value, bytes read)`, or the error it raises. */
  datatype Decoded = Decoded(value: nat, size: nat) | Failed(error: VarIntError)

  /** 128^n, i.e. 1 << (7 * n). */
  function Pow128(n: nat): (p: nat)
    ensures p >= 1
  {
    if n == 0 then 1 else 128 * Pow128(n - 1)
  }

  lemma {:induction false} Pow128Five()
    ensures Pow128(5) == VarIntBound
  {
    assert Pow128(1) == 128;
    assert Pow128(2) == 16384;
    assert Pow128(3) == 2097152;
    assert Pow128(4) == 268435456;
  }

  lemma {:induction false} Pow128Monotone(m: nat, n: nat)
    requires m <= n
    ensures Pow128(m) <= Pow128(n)
    decreases n - m
  {
    if m < n {
      Pow128Monotone(m, n - 1);
    }
  }

  /** A complete encoding: one to five bytes, every byte but the last with the
      continuation bit set, the last one without it. */
  predicate IsVarInt(s: seq<Byte>)
  {
    && 1 <= |s| <= 5
    && (forall i :: 0 <= i < |s| - 1 ==> s[i] >= ContinueBit)
    && s[|s| - 1] < ContinueBit
  }

  /** The number the 7-bit groups of `s` stand for, least significant first. */
  function GroupValue(s: seq<Byte>): nat
  {
    if |s| == 0 then 0 else s[0] % 128 + 128 * GroupValue(s[1..])
  }

  lemma {:induction false} GroupValueBound(s: seq<Byte>)
    ensures GroupValue(s) < Pow128(|s|)
  {
    if |s| > 0 {
      GroupValueBound(s[1..]);
      assert GroupValue(s[1..]) <= Pow128(|s| - 1) - 1;
    }
  }

  /** Appending one byte adds its group at the next weight: the step the
      decoder's loop takes. */
  lemma {:induction false} GroupValueSnoc(s: seq<Byte>, b: Byte)
    ensures GroupValue(s + [b]) == GroupValue(s) + (b % 128) * Pow128(|s|)
  {
    if |s| == 0 {
      assert GroupValue([b]) == b % 128 + 128 * GroupValue([]);
    } else {
      assert (s + [b])[1..] == s[1..] + [b];
      GroupValueSnoc(s[1..], b);
      calc {
        GroupValue(s + [b]);
        s[0] % 128 + 128 * GroupValue(s[1..] + [b]);
        s[0] % 128 + 128 * (GroupValue(s[1..]) + (b % 128) * Pow128(|s| - 1));
        { assert 128 * ((b % 128) * Pow128(|s| - 1)) == (b % 128) * (128 * Pow128(|s| - 1)); }
        GroupValue(s) + (b % 128) * Pow128(|s|);
      }
    }
  }

  /** One pass of the `while True` loop of `read_var_int`, at offset `idx`
      from `begin`, with `value` the groups read so far. */
  function ReadGroups(buf: seq<Byte>, begin: nat, idx: nat, value: nat): (r: Decoded)
    requires idx < 5
    ensures r.Decoded? ==> idx < r.size <= 5 && begin + r.size <= |buf|
    decreases 5 - idx
  {
    if begin + idx >= |buf| then Failed(RanOutOfBytes)
    else
      var b := buf[begin + idx];
      var value' := value + (b % 128) * Pow128(idx);
      if b < ContinueBit then Decoded(value', idx + 1)
      else if 7 * (idx + 1) >= 32 then Failed(TooLong)
      else ReadGroups(buf, begin, idx + 1, value')
  }

  /** `read_var_int(buf, begin)`. */
  function ReadVarInt(buf: seq<Byte>, begin: nat): (r: Decoded)
    ensures r.Decoded? ==> 1 <= r.size <= 5 && begin + r.size <= |buf|
  {
    ReadGroups(buf, begin, 0, 0)
  }

  /** A successful read ends at the first byte without the continuation bit. */
  lemma {:induction false} ReadGroupsShape(buf: seq<Byte>, begin: nat, idx: nat, value: nat)
    requires idx < 5
    requires forall i :: begin <= i < begin + idx ==> i < |buf| && buf[i] >= ContinueBit
    ensures var r := ReadGroups(buf, begin, idx, value);
            r.Decoded? ==>
              && (forall i :: begin <= i < begin + r.size - 1 ==> buf[i] >= ContinueBit)
              && buf[begin + r.size - 1] < ContinueBit
    decreases 5 - idx
  {
    if begin + idx < |buf| {
      var b := buf[begin + idx];
      if b >= ContinueBit && 7 * (idx + 1) < 32 {
        ReadGroupsShape(buf, begin, idx + 1, value + (b % 128) * Pow128(idx));
      }
    }
  }

  /** ... and returns the value of the groups it read. */
  lemma {:induction false} ReadGroupsValue(buf: seq<Byte>, begin: nat, idx: nat, value: nat)
    requires idx < 5 && begin + idx <= |buf|
    requires value == GroupValue(buf[begin..begin + idx])
    ensures var r := ReadGroups(buf, begin, idx, value);
            r.Decoded? ==> r.value == GroupValue(buf[begin..begin + r.size])
    decreases 5 - idx
  {
    if begin + idx < |buf| {
      var b := buf[begin + idx];
      ReadStep(buf, begin, idx);
      if b >= ContinueBit && 7 * (idx + 1) < 32 {
        ReadGroupsValue(buf, begin, idx + 1, value + (b % 128) * Pow128(idx));
      }
    }
  }

  /** One more byte read adds its group at the next weight. */
  lemma {:induction false} ReadStep(buf: seq<Byte>, begin: nat, idx: nat)
    requires begin + idx < |buf|
    ensures GroupValue(buf[begin..begin + idx + 1])
            == GroupValue(buf[begin..begin + idx]) + (buf[begin + idx] % 128) * Pow128(idx)
  {
    assert buf[begin..begin + idx + 1] == buf[begin..begin + idx] + [buf[begin + idx]];
    GroupValueSnoc(buf[begin..begin + idx], buf[begin + idx]);
  }

  /** Continuation bytes closed by a byte without the bit form a complete encoding. */
  lemma {:induction false} ReadLast(buf: seq<Byte>, begin: nat, idx: nat)
    requires idx < 5 && begin + idx < |buf| && buf[begin + idx] < ContinueBit
    requires forall i :: begin <= i < begin + idx ==> buf[i] >= ContinueBit
    ensures IsVarInt(buf[begin..begin + idx + 1])
  {
    var s := buf[begin..begin + idx + 1];
    assert forall i :: 0 <= i < |s| ==> s[i] == buf[begin + i];
  }

  lemma {:induction false} ReadGroupsErr(buf: seq<Byte>, begin: nat, idx: nat, value: nat)
    requires idx < 5
    requires forall i :: begin <= i < begin + idx && i < |buf| ==> buf[i] >= ContinueBit
    ensures var r := ReadGroups(buf, begin, idx, value);
            && (r == Failed(TooLong) <==> begin + 5 <= |buf| && forall i :: begin <= i < begin + 5 ==> buf[i] >= ContinueBit)
            && (r == Failed(RanOutOfBytes) <==> |buf| < begin + 5 && forall i :: begin <= i < |buf| ==> buf[i] >= ContinueBit)
    decreases 5 - idx
  {
    if begin + idx < |buf| {
      var b := buf[begin + idx];
      if b >= ContinueBit && 7 * (idx + 1) < 32 {
        ReadGroupsErr(buf, begin, idx + 1, value + (b % 128) * Pow128(idx));
      }
    }
  }

  /** What a successful read returns: the complete encoding at `begin` and its value. */
  lemma {:induction false} ReadVarIntOk(buf: seq<Byte>, begin: nat)
    requires ReadVarInt(buf, begin).Decoded?
    ensures var v, n := ReadVarInt(buf, begin).value, ReadVarInt(buf, begin).size;
            IsVarInt(buf[begin..begin + n]) && v == GroupValue(buf[begin..begin + n]) && v < Pow128(n)
  {
    var n := ReadVarInt(buf, begin).size;
    ReadGroupsShape(buf, begin, 0, 0);
    ReadGroupsValue(buf, begin, 0, 0);
    ReadLast(buf, begin, n - 1);
    GroupValueBound(buf[begin..begin + n]);
  }

  /** The two errors of `read_var_int`, both directions: it runs out of bytes
      exactly when the buffer ends before a byte with the top bit clear within
      the first five, and it is "too long" exactly when five bytes in a row
      carry the continuation bit. */
  lemma {:induction false} ReadVarIntErr(buf: seq<Byte>, begin: nat)
    ensures ReadVarInt(buf, begin) == Failed(TooLong)
            <==> begin + 5 <= |buf| && forall i :: begin <= i < begin + 5 ==> buf[i] >= ContinueBit
    ensures ReadVarInt(buf, begin) == Failed(RanOutOfBytes)
            <==> |buf| < begin + 5 && forall i :: begin <= i < |buf| ==> buf[i] >= ContinueBit
  {
    ReadGroupsErr(buf, begin, 0, 0);
  }

  /** Conversely, a complete encoding at `begin` is read whole, whatever follows it. */
  lemma {:induction false} ReadVarIntOfVarInt(buf: seq<Byte>, begin: nat, n: nat)
    requires begin + n <= |buf| && IsVarInt(buf[begin..begin + n])
    ensures ReadVarInt(buf, begin) == Decoded(GroupValue(buf[begin..begin + n]), n)
  {
    var s := buf[begin..begin + n];
    assert forall i :: begin <= i < begin + n - 1 ==> buf[i] == s[i - begin];
    ReadVarIntErr(buf, begin);
    assert buf[begin + n - 1] == s[n - 1];
    var r := ReadVarInt(buf, begin);
    assert r.Decoded?;
    var m := r.size;
    ReadVarIntOk(buf, begin);
    assert m == n;
  }

  /** A byte below 0x80 is a complete one-byte encoding of itself. */
  lemma {:induction false} ReadVarIntOneByte(buf: seq<Byte>, begin: nat)
    requires begin < |buf| && buf[begin] < ContinueBit
    ensures ReadVarInt(buf, begin) == Decoded(buf[begin], 1)
  {
  }

  /** `to_var_int(value)` for the non-negative values it terminates on: each
      step emits the low group with the continuation bit and shifts right by 7,
      until the rest fits in one byte. */
  function ToVarInt(v: nat): (r: seq<Byte>)
    ensures 1 <= |r|
    ensures forall i :: 0 <= i < |r| - 1 ==> r[i] >= ContinueBit
    ensures r[|r| - 1] < ContinueBit
    ensures GroupValue(r) == v
    ensures v < Pow128(|r|) && (|r| == 1 || Pow128(|r| - 1) <= v)
  {
    if v < 128 then
      [v]
    else
      var rest := ToVarInt(v / 128);
      PrependGroup(v, rest);
      [v % 128 + ContinueBit] + rest
  }

  /** Putting the low group of `v`, with the continuation bit, in front of a
      minimal encoding of `v / 128` gives a minimal encoding of `v`. */
  lemma {:induction false} PrependGroup(v: nat, rest: seq<Byte>)
    requires v >= 128 && 1 <= |rest|
    requires forall i :: 0 <= i < |rest| - 1 ==> rest[i] >= ContinueBit
    requires rest[|rest| - 1] < ContinueBit
    requires GroupValue(rest) == v / 128
    requires v / 128 < Pow128(|rest|) && (|rest| == 1 || Pow128(|rest| - 1) <= v / 128)
    ensures var r := [v % 128 + ContinueBit] + rest;
            && (forall i :: 0 <= i < |r| - 1 ==> r[i] >= ContinueBit)
            && r[|r| - 1] < ContinueBit
            && GroupValue(r) == v
            && v < Pow128(|r|) && Pow128(|r| - 1) <= v
  {
    var r := [v % 128 + ContinueBit] + rest;
    assert r[1..] == rest;
    assert forall i :: 1 <= i < |r| ==> r[i] == rest[i - 1];
    assert v == v % 128 + 128 * (v / 128);
    assert 128 * (v / 128) < 128 * Pow128(|rest|);
    assert |rest| == 1 || 128 * Pow128(|rest| - 1) <= 128 * (v / 128);
  }

  /** Values below 128 encode as the single byte itself. */
  lemma {:induction false} ToVarIntSmall(v: nat)
    requires v < 128
    ensures ToVarInt(v) == [v]
  {
  }

  /** The encoder uses as many bytes as `v` has 7-bit groups, so the values the
      decoder can return (below 2^35) take at most five. */
  lemma {:induction false} ToVarIntLength(v: nat)
    ensures v < VarIntBound <==> |ToVarInt(v)| <= 5
  {
    var r := ToVarInt(v);
    MinimalLength(v, |r|);
  }

  /** A value with an n-group minimal encoding is below 2^35 iff n <= 5. */
  lemma {:induction false} MinimalLength(v: nat, n: nat)
    requires 1 <= n && v < Pow128(n) && (n == 1 || Pow128(n - 1) <= v)
    ensures v < VarIntBound <==> n <= 5
  {
    Pow128Five();
    if n <= 5 {
      Pow128Monotone(n, 5);
    } else {
      Pow128Monotone(5, n - 1);
    }
  }

  /** Round trip: every value the decoder can represent comes back, with the
      encoding's length as the byte count, whatever bytes follow it. */
  lemma {:induction false} RoundTrip(v: nat, rest: seq<Byte>)
    requires v < VarIntBound
    ensures ReadVarInt(ToVarInt(v) + rest, 0) == Decoded(v, |ToVarInt(v)|)
  {
    ToVarIntLength(v);
    ReadVarIntPrefix(ToVarInt(v), rest);
  }

  /** A complete encoding at the front of a buffer is read whatever follows it. */
  lemma {:induction false} ReadVarIntPrefix(e: seq<Byte>, rest: seq<Byte>)
    requires IsVarInt(e)
    ensures ReadVarInt(e + rest, 0) == Decoded(GroupValue(e), |e|)
  {
    assert (e + rest)[0..|e|] == e;
    ReadVarIntOfVarInt(e + rest, 0, |e|);
  }

  /** Above the decoder's range the encoding has at least six bytes, so reading
      it back raises "too long". */
  lemma {:induction false} RoundTripTooLong(v: nat, rest: seq<Byte>)
    requires v >= VarIntBound
    ensures ReadVarInt(ToVarInt(v) + rest, 0) == Failed(TooLong)
  {
    var e := ToVarInt(v);
    ToVarIntLength(v);
    assert forall i :: 0 <= i < 5 ==> (e + rest)[i] == e[i];
    ReadVarIntErr(e + rest, 0);
  }

  /** Non-minimal encodings are accepted: a zero group with the continuation
      bit set in front of the terminator still decodes. */
  lemma {:induction false} NonMinimalAccepted()
    ensures ReadVarInt([0x80, 0x00], 0) == Decoded(0, 2)
    ensures ReadVarInt([0x81, 0x80, 0x00], 0) == Decoded(1, 3)
  {
  }

  /** The fifth group is not masked: five bytes decode up to 2^35 - 1. */
  lemma {:induction false} FifthGroupUnmasked()
    ensures ReadVarInt([0xFF, 0xFF, 0xFF, 0xFF, 0x7F], 0) == Decoded(VarIntBound - 1, 5)
  {
  }
}
