/** Bytes and the big-endian integers of the RFB wire format. */
module RfbBytes {
  import opened Wrappers

  type byte = b: int | 0 <= b < 256

  const I32_LIMIT: int := 0x8000_0000
  const U32_LIMIT: int := 0x1_0000_0000

  /** `int.from_bytes(two_bytes, "big")`. */
  function U16(hi: byte, lo: byte): (n: nat)
    ensures n < 65536
  {
    256 * hi + lo
  }

  function EncU16(n: nat): (b: seq<byte>)
    requires n < 65536
    ensures |b| == 2 && U16(b[0], b[1]) == n
  {
    assert 256 * (n / 256) <= n < 256 * (n / 256) + 256;
    var hi: byte :| 256 * hi <= n < 256 * hi + 256;
    [hi, n - 256 * hi]
  }

  lemma EncU16OfU16(hi: byte, lo: byte)
    ensures EncU16(U16(hi, lo)) == [hi, lo]
  {
  }

  function U32(b: seq<byte>): (n: nat)
    requires |b| == 4
    ensures n < U32_LIMIT
  {
    65536 * U16(b[0], b[1]) + U16(b[2], b[3])
  }

  function HighHalf(n: nat): (hi: nat)
    requires n < U32_LIMIT
    ensures hi < 65536 && 65536 * hi <= n < 65536 * hi + 65536
  {
    assert n / 65536 < 65536 && 65536 * (n / 65536) <= n < 65536 * (n / 65536) + 65536;
    var hi: nat :| hi < 65536 && 65536 * hi <= n < 65536 * hi + 65536;
    hi
  }

  function EncU32(n: nat): (b: seq<byte>)
    requires n < U32_LIMIT
    ensures |b| == 4 && U32(b) == n
  {
    EncU16(HighHalf(n)) + EncU16(n - 65536 * HighHalf(n))
  }

  lemma HighHalfOfSum(hi: nat, lo: nat)
    requires hi < 65536 && lo < 65536
    ensures HighHalf(65536 * hi + lo) == hi
  {
  }

  lemma EncU32OfU32(b: seq<byte>)
    requires |b| == 4
    ensures EncU32(U32(b)) == b
  {
    HighHalfOfSum(U16(b[0], b[1]), U16(b[2], b[3]));
    EncU16OfU16(b[0], b[1]);
    EncU16OfU16(b[2], b[3]);
    assert b == [b[0], b[1]] + [b[2], b[3]];
  }

  /** `int.from_bytes(four_bytes, "big", signed=True)`: two's complement. */
  function I32(b: seq<byte>): (v: int)
    requires |b| == 4
    ensures -I32_LIMIT <= v < I32_LIMIT
  {
    if U32(b) < I32_LIMIT then U32(b) else U32(b) - U32_LIMIT
  }

  function EncI32(v: int): (b: seq<byte>)
    requires -I32_LIMIT <= v < I32_LIMIT
    ensures |b| == 4 && I32(b) == v
  {
    EncU32(if v < 0 then v + U32_LIMIT else v)
  }

  /** The wire order: most significant byte first. */
  lemma BigEndian(b: seq<byte>)
    requires |b| == 4
    ensures U32(b) == b[0] as int * 0x100_0000 + b[1] as int * 0x1_0000 + b[2] as int * 0x100 + b[3] as int
    ensures I32(b) == U32(b) - (if b[0] >= 0x80 then U32_LIMIT else 0)
  {
  }

  lemma EncI32OfI32(b: seq<byte>)
    requires |b| == 4
    ensures EncI32(I32(b)) == b
  {
    EncU32OfU32(b);
  }

  lemma EncI32Small(v: byte)
    ensures EncI32(v) == [0, 0, 0, v]
  {
    EncI32OfI32([0, 0, 0, v]);
  }

  /** The four bytes of a small non-negative number, both ways. */
  lemma I32Small(b: seq<byte>, v: byte)
    requires |b| == 4
    ensures I32(b) == v <==> b == [0, 0, 0, v]
  {
    if I32(b) == v {
      assert 65536 * U16(b[0], b[1]) + U16(b[2], b[3]) == v;
    }
  }

  function Abs(v: int): nat {
    if v < 0 then -v else v
  }

  function Flatten(chunks: seq<seq<byte>>): seq<byte> {
    if chunks == [] then [] else chunks[0] + Flatten(chunks[1..])
  }

  // -- What the framings of both directions share ------------------------------------------------------

  function AtLeast(b: seq<byte>, n: nat): Frame {
    if |b| < n then Wait else Whole(n)
  }

  function Zeros(n: nat): seq<byte> {
    seq(n, _ => 0)
  }

  lemma TypeAndBody(raw: seq<byte>)
    requires |raw| >= 1
    ensures [raw[0]] + raw[1..] == raw
  {
  }

  /** A printed cut text announces its length where the framing looks for it. */
  lemma CutTextAnnounces(t: byte, pad: seq<byte>, length: int, text: seq<byte>, x: seq<byte>)
    requires |pad| == 3 && -I32_LIMIT <= length < I32_LIMIT && |text| == Abs(length)
    ensures var b := [t] + pad + EncI32(length) + text + x;
            |b| >= 8 + |text| && b[0] == t && I32(b[4..8]) == length
  {
    var e := EncI32(length);
    var b := [t] + pad + e + text + x;
    assert b[4..8] == e;
  }

  /** A complete cut text is its fields printed again. */
  lemma CutTextReassembled(raw: seq<byte>)
    requires |raw| >= 8 && |raw| == 8 + Abs(I32(raw[4..8]))
    ensures var text := raw[8..];
            && (if I32(raw[4..8]) < 0 then 0 < |text| <= I32_LIMIT else |text| < I32_LIMIT)
            && [raw[0]] + raw[1..4] + EncI32(if I32(raw[4..8]) < 0 then -|text| else |text|) + text == raw
  {
    EncI32OfI32(raw[4..8]);
    assert raw == [raw[0]] + raw[1..4] + raw[4..8] + raw[8..];
  }
}
