/**
 * The verifiers of checksum.c: the IPv4 header check and the TCP/UDP checks
 * over the IPv4 and IPv6 pseudo-headers. Each reports 1 (here `true`) when
 * the checksum it computes is 0 or 0xFFFF, the two one's-complement zeros.
 *
 * Headers are the raw bytes of `struct iphdr` (20 bytes, section 3.1 of
 * RFC 791) and `struct ip6_hdr` (40 bytes, section 3 of RFC 2460); only the
 * fields the verifiers copy are given names.
 */
module Verifiers {
  import opened OnesComplement
  import Accumulator

  // ---------------------------------------------------------------------------
  // IPv4

  /** `sizeof(struct iphdr)`: the fixed IPv4 header without options. */
  const IpHeaderSize: nat := 20

  type IpHeader = h: seq<byte> | |h| == IpHeaderSize witness seq(IpHeaderSize, i => 0)

  function Protocol(h: IpHeader): byte { h[9] }
  function SourceAddress(h: IpHeader): seq<byte> { h[12..16] }
  function DestinationAddress(h: IpHeader): seq<byte> { h[16..20] }

  /** `htons(len)`: the C `int` length converted to 16 bits, in network order. */
  function LengthField(len: nat): seq<byte>
  {
    var v := len % 0x1_0000;
    [v / 0x100, v % 0x100]
  }

  /**
   * `struct pseudo_ip` as `checkIPDATAchecksum` fills it: source address,
   * destination address, a zero byte, the protocol and the data length
   * (section 3.1 of RFC 793, and RFC 768). Its words add up to the addresses'
   * words, the protocol as a low byte and the length taken modulo 2^16.
   */
  function PseudoHeader(h: IpHeader, len: nat): (p: seq<byte>)
    ensures |p| == 12
    ensures WordSum(p) == WordSum(SourceAddress(h)) + WordSum(DestinationAddress(h)) + Protocol(h) + len % 0x1_0000
  {
    var src, dst := SourceAddress(h), DestinationAddress(h);
    var p := src + dst + [0, Protocol(h)] + LengthField(len);
    assert p == src + (dst + ([0, Protocol(h)] + LengthField(len)));
    WordSumAppend(src, dst + ([0, Protocol(h)] + LengthField(len)));
    WordSumAppend(dst, [0, Protocol(h)] + LengthField(len));
    WordSumAppend([0, Protocol(h)], LengthField(len));
    p
  }

  /**
   * `checkIPchecksum(iphdr, option, optionLen)` with `optionLen == |option|`:
   * without options the fixed header alone is summed, otherwise the header
   * and the options as one stream.
   */
  method CheckIPChecksum(header: IpHeader, option: seq<byte>) returns (ok: bool)
    ensures ok <==> Verifies(header + option)
    ensures ok <==> WordSum(header + option) % M == 0
  {
    var sum: u16;
    if |option| == 0 {
      sum := Accumulator.Checksum(header);
      assert header + option == header;
    } else {
      sum := Accumulator.Checksum2(header, option);
    }
    ok := sum == 0 || sum == 0xFFFF;
    VerifiesIffMultiple(header + option);
  }

  /**
   * `checkIPDATAchecksum(iphdr, data, len)` with `len == |data|`: the TCP or
   * UDP segment `data` checked together with its IPv4 pseudo-header.
   */
  method CheckIPDataChecksum(header: IpHeader, data: seq<byte>) returns (ok: bool)
    ensures ok <==> Verifies(PseudoHeader(header, |data|) + data)
    ensures ok <==> (WordSum(SourceAddress(header)) + WordSum(DestinationAddress(header))
                     + Protocol(header) + |data| % 0x1_0000 + WordSum(data)) % M == 0
  {
    var pseudo := PseudoHeader(header, |data|);
    var sum := Accumulator.Checksum2(pseudo, data);
    ok := sum == 0 || sum == 0xFFFF;
    VerifiesIffMultiple(pseudo + data);
    WordSumAppend(pseudo, data);
  }

  // ---------------------------------------------------------------------------
  // IPv6

  type Ip6Header = h: seq<byte> | |h| == 40 witness seq(40, i => 0)

  /** `ip6_plen`, read in network order. */
  function PayloadLength(h: Ip6Header): u16 { Word(h[4], h[5]) }
  function NextHeader(h: Ip6Header): byte { h[6] }
  function Source6(h: Ip6Header): seq<byte> { h[8..24] }
  function Destination6(h: Ip6Header): seq<byte> { h[24..40] }

  /** The C data models: the width of `unsigned long` differs between them. */
  datatype DataModel = ILP32 | LP64

  function LongSize(m: DataModel): nat
  {
    match m
    case ILP32 => 4
    case LP64 => 8
  }

  /** Trailing padding that rounds `struct pseudo_ip6_hdr` up to the alignment of `unsigned long`. */
  function TrailingPadding(m: DataModel): nat
  {
    match m
    case ILP32 => 0
    case LP64 => 4
  }

  /** The last eight bytes of both IPv6 pseudo-header layouts contribute the payload length and the next-header value. */
  lemma {:induction false} LengthAndNextWords(h: Ip6Header)
    ensures WordSum(h[4..6] + [0, 0, 0, NextHeader(h)]) == PayloadLength(h) + NextHeader(h)
    ensures WordSum([0, 0, h[4], h[5]] + [0, 0, 0, NextHeader(h)]) == PayloadLength(h) + NextHeader(h)
  {
    var nxt: seq<byte> := [0, 0, 0, NextHeader(h)];
    assert WordSum(nxt[2..]) == Word(0, NextHeader(h)) + WordSum(nxt[2..][2..]);
    assert nxt[2..][2..] == [];
    var len: seq<byte> := h[4..6];
    assert WordSum(len) == PayloadLength(h) + WordSum(len[2..]);
    assert len[2..] == [];
    WordSumAppend(len, nxt);
    var wide: seq<byte> := [0, 0, h[4], h[5]];
    assert WordSum(wide[2..]) == PayloadLength(h) + WordSum(wide[2..][2..]);
    assert wide[2..][2..] == [];
    WordSumAppend(wide, nxt);
  }

  /**
   * `struct pseudo_ip6_hdr` as `checkIP6DATAchecksum` fills it: zeroed, then
   * the addresses, `plen` holding the header's `ip6_plen` verbatim (its two
   * bytes in the low-order end of an `unsigned long`), the zero `dmy1` and
   * `dmy2`, and `nxt`. Every byte but those copied is zero, so its words add
   * up to the addresses' words, the payload length and the next-header value
   * as a low byte, whatever the data model.
   */
  function PseudoHeader6(m: DataModel, h: Ip6Header): (p: seq<byte>)
    ensures |p| == StructSize6(m)
    ensures WordSum(p) == WordSum(Source6(h)) + WordSum(Destination6(h)) + PayloadLength(h) + NextHeader(h)
  {
    var addrs := Source6(h) + Destination6(h);
    var tail := h[4..6] + [0, 0, 0, NextHeader(h)];
    var p := addrs + (Zeros(LongSize(m) - 2) + (tail + Zeros(TrailingPadding(m))));
    PseudoHeader6Words(m, h, addrs, tail, p);
    p
  }

  /** `sizeof(struct pseudo_ip6_hdr)`. */
  function StructSize6(m: DataModel): nat
  {
    match m
    case ILP32 => 40
    case LP64 => 48
  }

  lemma {:induction false} PseudoHeader6Words(m: DataModel, h: Ip6Header, addrs: seq<byte>, tail: seq<byte>, p: seq<byte>)
    requires addrs == Source6(h) + Destination6(h)
    requires tail == h[4..6] + [0, 0, 0, NextHeader(h)]
    requires p == addrs + (Zeros(LongSize(m) - 2) + (tail + Zeros(TrailingPadding(m))))
    ensures |p| == StructSize6(m)
    ensures WordSum(p) == WordSum(Source6(h)) + WordSum(Destination6(h)) + PayloadLength(h) + NextHeader(h)
  {
    var pad := Zeros(TrailingPadding(m));
    match m {
      case ILP32 =>
        ZeroWordsNeutral(addrs, 1, tail + pad);
        assert pad == [];
        assert tail + pad == tail;
      case LP64 =>
        ZeroWordsNeutral(addrs, 3, tail + pad);
        WordSumAppend(tail, pad);
        WordSumZeros(4);
    }
    WordSumAppend(Source6(h), Destination6(h));
    WordSumAppend(addrs, tail + pad);
    LengthAndNextWords(h);
  }

  /**
   * The IPv6 pseudo-header of section 8.1 of RFC 2460: source, destination,
   * a 32-bit upper-layer length, three zero bytes and the next-header value.
   * Here the length is the header's 16-bit payload length.
   */
  function Rfc2460PseudoHeader(h: Ip6Header): (q: seq<byte>)
    ensures |q| == 40
    ensures WordSum(q) == WordSum(Source6(h)) + WordSum(Destination6(h)) + PayloadLength(h) + NextHeader(h)
  {
    var addrs := Source6(h) + Destination6(h);
    var tail := [0, 0, h[4], h[5]] + [0, 0, 0, NextHeader(h)];
    WordSumAppend(Source6(h), Destination6(h));
    WordSumAppend(addrs, tail);
    LengthAndNextWords(h);
    addrs + tail
  }

  /** The C layout and the RFC 2460 layout give every payload the same checksum, on either data model. */
  lemma {:induction false} PseudoHeader6MatchesRfc2460(m: DataModel, h: Ip6Header, data: seq<byte>)
    ensures InternetChecksum(PseudoHeader6(m, h) + data) == InternetChecksum(Rfc2460PseudoHeader(h) + data)
  {
    var p, q := PseudoHeader6(m, h), Rfc2460PseudoHeader(h);
    assert |p| % 2 == 0 by {
      match m
      case ILP32 =>
      case LP64 =>
    }
    WordSumAppend(p, data);
    WordSumAppend(q, data);
    assert WordSum(p + data) == WordSum(q + data);
    ChecksumOfWordSum(p + data);
    ChecksumOfWordSum(q + data);
  }

  /**
   * `checkIP6DATAchecksum(ip, data, len)` with `len == |data|`: the
   * upper-layer packet `data` checked together with its IPv6 pseudo-header.
   * The length in the pseudo-header is the header's `ip6_plen`, not `len`.
   */
  method CheckIP6DataChecksum(m: DataModel, header: Ip6Header, data: seq<byte>) returns (ok: bool)
    ensures ok <==> Verifies(PseudoHeader6(m, header) + data)
    ensures ok <==> Verifies(Rfc2460PseudoHeader(header) + data)
  {
    var pseudo := PseudoHeader6(m, header);
    var sum := Accumulator.Checksum2(pseudo, data);
    ok := sum == 0 || sum == 0xFFFF;
    PseudoHeader6MatchesRfc2460(m, header, data);
  }

  // ---------------------------------------------------------------------------
  // What the verifiers accept

  /** The header checksum field: offset 10 of the IPv4 header (section 3.1 of RFC 791). */
  const IpChecksumOffset: nat := 10

  /**
   * A header whose checksum field was computed over the header and options
   * with that field zero, and then stored, passes `CheckIPChecksum`.
   */
  lemma {:induction false} IpHeaderRoundTrip(header: IpHeader, option: seq<byte>)
    requires header[IpChecksumOffset] == 0 && header[IpChecksumOffset + 1] == 0
    ensures var c := InternetChecksum(header + option);
            Verifies(WithWord(header, IpChecksumOffset, c) + option)
  {
    var c := InternetChecksum(header + option);
    ChecksumInsertionVerifies(header + option, IpChecksumOffset);
    assert WithWord(header + option, IpChecksumOffset, c) == WithWord(header, IpChecksumOffset, c) + option;
  }

  /**
   * A TCP or UDP segment whose checksum field (at an even offset `k`: 16 for
   * TCP, 6 for UDP) was computed over the pseudo-header and the segment with
   * that field zero, and then stored, passes `CheckIPDataChecksum`.
   */
  lemma {:induction false} TransportRoundTrip(header: IpHeader, data: seq<byte>, k: nat)
    requires k % 2 == 0 && k + 1 < |data|
    requires data[k] == 0 && data[k + 1] == 0
    ensures var c := InternetChecksum(PseudoHeader(header, |data|) + data);
            Verifies(PseudoHeader(header, |data|) + WithWord(data, k, c))
  {
    var p := PseudoHeader(header, |data|);
    var c := InternetChecksum(p + data);
    ChecksumInsertionVerifies(p + data, |p| + k);
    assert WithWord(p + data, |p| + k, c) == p + WithWord(data, k, c);
  }

  /** Once a segment passes `CheckIPDataChecksum`, changing any one of its bytes makes it fail. */
  lemma {:induction false} CorruptedSegmentRejected(header: IpHeader, data: seq<byte>, i: nat, v: byte)
    requires i < |data| && v != data[i]
    requires Verifies(PseudoHeader(header, |data|) + data)
    ensures !Verifies(PseudoHeader(header, |data[i := v]|) + data[i := v])
  {
    var p := PseudoHeader(header, |data|);
    SingleByteChangeDetected(p + data, |p| + i, v);
    assert (p + data)[|p| + i := v] == p + data[i := v];
  }
}
