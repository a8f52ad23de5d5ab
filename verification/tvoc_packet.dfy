/** The nine-byte packet of the air-quality (TVOC) sensor: header FF 18,
    the reading big-endian in bytes 4 and 5, and in byte 8 the two's
    complement of the 8-bit sum of bytes 1 to 7. */
module TvocPacket {
  import opened Results

  type Byte = x: int | 0 <= x < 256

  const PACKET_SIZE: nat := 9
  const HEADER_1: Byte := 0xFF
  const HEADER_2: Byte := 0x18

  /** `uint16_t`, the width of the reading. */
  type U16 = x: int | 0 <= x < 0x1_0000

  type Packet = p: seq<Byte> | |p| == 9
    witness [0, 0, 0, 0, 0, 0, 0, 0, 0]

  /** The sum of the bytes, without truncation. */
  function Sum(s: seq<Byte>): nat {
    if |s| == 0 then 0 else Sum(s[..|s| - 1]) + s[|s| - 1]
  }

  /** `calculate_tvoc_checksum`: the byte that brings the 8-bit sum of bytes
      1 to 7 to zero. */
  function Checksum(p: Packet): (c: Byte)
    ensures (Sum(p[1..8]) + c) % 256 == 0
  {
    (256 - Sum(p[1..8]) % 256) % 256
  }

  /** The loop of `calculate_tvoc_checksum` with its 8-bit accumulator, and
      the final `(~sum) + 1` truncated to a byte. */
  method ComputeChecksum(p: Packet) returns (c: Byte)
    ensures c == Checksum(p)
  {
    var sum: Byte := 0;
    var i := 1;
    while i < 8
      invariant 1 <= i <= 8
      invariant sum == Sum(p[1..i]) % 256
    {
      SumStep(p, i);
      sum := (sum + p[i]) % 256;
      i := i + 1;
    }
    var inverted := 255 - sum;
    c := (inverted + 1) % 256;
  }

  /** One more byte in the running 8-bit sum. */
  lemma SumStep(p: Packet, i: nat)
    requires 1 <= i < 8
    ensures Sum(p[1..i + 1]) % 256 == (Sum(p[1..i]) % 256 + p[i]) % 256
  {
    assert p[1..i + 1][..i - 1] == p[1..i];
    assert Sum(p[1..i + 1]) == Sum(p[1..i]) + p[i];
  }

  /** The checksum byte is right exactly when bytes 1 to 8 sum to zero
      modulo 256. */
  lemma ChecksumIffZeroSum(p: Packet)
    ensures p[8] == Checksum(p) <==> Sum(p[1..9]) % 256 == 0
  {
    assert p[1..9][..7] == p[1..8];
  }

  /** `parse_tvoc_packet`: the header and the checksum are checked, then the
      reading is read big-endian from bytes 4 and 5. */
  function Parse(p: Packet): (r: Option<U16>)
    ensures r.Some? <==> p[0] == HEADER_1 && p[1] == HEADER_2 && Sum(p[1..9]) % 256 == 0
    ensures r.Some? ==> r.value / 256 == p[4] && r.value % 256 == p[5]
  {
    ChecksumIffZeroSum(p);
    if p[0] != HEADER_1 || p[1] != HEADER_2 then None
    else if p[8] != Checksum(p) then None
    else Some(p[4] as int * 256 + p[5] as int)
  }

  /** The packet a sensor sends for `value`, with the other payload bytes
      given. */
  function Build(b2: Byte, b3: Byte, value: U16, b6: Byte, b7: Byte): (p: Packet)
    ensures p[..8] == [HEADER_1, HEADER_2, b2, b3, value / 256, value % 256, b6, b7]
  {
    var p: Packet := [HEADER_1, HEADER_2, b2, b3, value / 256, value % 256, b6, b7, 0];
    p[8 := Checksum(p)]
  }

  /** Round trip: every built packet parses to its value. */
  lemma ParseBuild(b2: Byte, b3: Byte, value: U16, b6: Byte, b7: Byte)
    ensures Parse(Build(b2, b3, value, b6, b7)) == Some(value)
  {
    var p := Build(b2, b3, value, b6, b7);
    var q: Packet := [HEADER_1, HEADER_2, b2, b3, value / 256, value % 256, b6, b7, 0];
    assert p[1..8] == q[1..8];
    assert p[8] == Checksum(p);
  }

  /** And conversely: every accepted packet is the one built from its own
      payload bytes and value. */
  lemma BuildParse(p: Packet)
    requires Parse(p).Some?
    ensures p == Build(p[2], p[3], Parse(p).value, p[6], p[7])
  {
    var v := Parse(p).value;
    var q := Build(p[2], p[3], v, p[6], p[7]);
    assert q[1..8] == p[1..8];
    assert q[8] == Checksum(q) == Checksum(p) == p[8];
  }
}
