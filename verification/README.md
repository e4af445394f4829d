# Internet checksum engine of packet-capcha, in Dafny

This project models `checksum.c`, the checksum engine of a raw-packet
capture tool. It has two layers.

- The core accumulators are `checksum` and `checksum2`. They compute the one's-complement checksum of RFC 1071 over one buffer, or over two buffers read as one stream. The sum goes into a 32-bit accumulator that folds its carries back in.
- The verifiers are `checkIPchecksum`, `checkIPDATAchecksum` and `checkIP6DATAchecksum`. They check the IPv4 header, and TCP/UDP data behind an IPv4 or IPv6 pseudo-header. Each reports success when the computed checksum is `0` or `0xFFFF`.

There are four modules.

- `OnesComplement` (`ones_complement.dfy`) is the arithmetic reference.
  - `WordSum` is the plain sum of big-endian 16-bit words. An odd trailing byte is padded with a zero low byte.
  - `OnesSum` is the word-by-word end-around-carry sum described in section 1 of RFC 1071.
  - `EndAround` is its closed form.
  - `InternetChecksum` is the complement of `OnesSum`.
  - `Verifies` is the receiver's 0-or-0xFFFF test.
  - Lemmas relate these to each other: splitting at even offsets, zero padding, single-byte changes, and the sender/receiver round trip.
- `Accumulator` (`accumulator.dfy`) holds the C loops as methods. `u_int32_t` arithmetic is written out explicitly as modulo 2^32, and `sum & 0x80000000`, `sum >> 16` and `~sum` are modelled directly. Loop invariants prove two things: the accumulator never wraps (it stays below 2^31 at every loop head), and each fold keeps its value modulo 0xFFFF. `Checksum` and `Checksum2` are proved to return `InternetChecksum` of the buffer and of the concatenation, respectively.
- `Verifiers` (`verifiers.dfy`) models `struct pseudo_ip` and `struct pseudo_ip6_hdr` as byte sequences, and the three `check*` functions as methods built on `Accumulator`.
  - `struct pseudo_ip6_hdr` is built for both C data models (`unsigned long` of 4 or 8 bytes, with the trailing struct padding on LP64).
  - Both layouts are proved to checksum like the pseudo-header of section 8.1 of RFC 2460.
- `HostOrder` (`host_order.dfy`) models what the C code computes on a little-endian host, where `*ptr` reads a `u_int16_t` low byte first.
  - For one buffer this byte-swaps the result (`LeChecksumIsSwapped`, section 2(B) of RFC 1071). A byte swap keeps the 0-or-0xFFFF verdict (`SwapKeepsVerdict`). That justifies reading network-order words in the verifiers and in `checksum`. It holds for `checksum2` only when `len1` is even.
  - It also holds the finding below.

Buffers are `seq<byte>` and every length argument is the length of its sequence. The verifiers return `true` where the C code returns 1. The IP headers are the raw bytes of `struct iphdr` (20 bytes) and `struct ip6_hdr` (40 bytes). Only the fields the verifiers copy are named.

Points where the code is followed closely:
- The accumulator folds inside the loop only when bit 31 is set (checksum.c:54-56). Section 2(C) of RFC 1071 allows carries to be deferred like this.
- The IPv6 pseudo-header is `struct pseudo_ip6_hdr` (checksum.c:29-36), which is 48 bytes on LP64, not the 40-byte layout of section 8.1 of RFC 2460.
- `checkIPDATAchecksum` is documented for TCP and UDP only, and is modelled that way.

## Model

| member | source | states |
|---|---|---|
| OnesComplement.OnesSumIsEndAround | checksum.c:39-42 | adding the 16-bit words one at a time with end-around carry gives the end-around reduction of their plain sum |
| OnesComplement.ChecksumOfWordSum | checksum.c:43-72 | the checksum is 0xFFFF minus the end-around reduction of the big-endian word sum, with an odd tail byte counted as a high byte; so it depends on the bytes only through that sum |
| OnesComplement.VerifiesIffMultiple | checksum.c:138-143 | the result is 0 or 0xFFFF exactly when the word sum of the checked bytes is a multiple of 0xFFFF (both directions) |
| OnesComplement.WordSumAppend | checksum.c:75-78 | the word sum of a concatenation whose first part has even length is the sum of the parts' word sums |
| OnesComplement.ZeroWordsNeutral | checksum.c:189 | an even number of zero bytes inserted at an even offset leaves the word sum unchanged, so memset padding never affects a checksum |
| OnesComplement.ChecksumInsertionVerifies | checksum.c:135 | storing the checksum, computed with its field zero, in network order at an even offset makes the buffer verify |
| OnesComplement.SingleByteChangeDetected | checksum.c:135 | after any one byte of a buffer that verifies is changed, the buffer no longer verifies |
| Accumulator.FoldCarry | checksum.c:55 | one fold step keeps the value modulo 0xFFFF, and keeps it zero exactly when it was zero; its result is at most 2*0xFFFF, and it shrinks any value above 16 bits |
| Accumulator.AddWord | checksum.c:53-56 | from below 2^31, adding a word and folding on bit 31 never wraps the u_int32_t; it returns below 2^31 a value equal to the sum modulo 0xFFFF |
| Accumulator.Complement | checksum.c:71 | `~sum` truncated to 16 bits is 0xFFFF minus a sum that fits in 16 bits |
| Accumulator.AddWords | checksum.c:52-58 | the strided loop consumes every complete word and returns an accumulator below 2^31 that represents the start value plus those words |
| Accumulator.AddTail | checksum.c:60-65 | an odd tail byte is added as the high byte of a word whose low byte is zero |
| Accumulator.FoldAll | checksum.c:67-69 | the final fold loop terminates with a value of at most 0xFFFF that is congruent to its input modulo 0xFFFF and zero only if the input was |
| Accumulator.Finish | checksum.c:67-71 | folding and complementing an accumulator that represents a buffer's word sum yields that buffer's Internet checksum |
| Accumulator.Checksum | checksum.c:43-72 | `checksum(data, len)` returns the Internet checksum of `data` |
| Accumulator.AddBoundary | checksum.c:94-106 | for odd `len1`, the last byte of `data1` and the first byte of `data2` form one word, and traversal resumes at `data2[1..]`; for even `len1` it starts at `data2`; either way the accumulator then represents an even-length prefix of the concatenation |
| Accumulator.Checksum2 | checksum.c:79-126 | `checksum2(d1, len1, d2, len2)` returns the checksum of `d1` followed by `d2`, for both parities of `len1`; odd `len1` needs `len2 >= 1` |
| Verifiers.PseudoHeader | checksum.c:162-169 | the IPv4 pseudo-header has 12 bytes, and its words add up to the address words, the protocol as a low byte and `htons(len)` |
| Verifiers.CheckIPChecksum | checksum.c:131-155 | with or without options, returns true iff the checksum of the header followed by the options is 0 or 0xFFFF, i.e. iff their word sum is a multiple of 0xFFFF |
| Verifiers.CheckIPDataChecksum | checksum.c:160-178 | returns true iff the pseudo-header followed by the data verifies, i.e. iff addresses + protocol + length mod 2^16 + data words is a multiple of 0xFFFF |
| Verifiers.PseudoHeader6 | checksum.c:184-194 | the filled `struct pseudo_ip6_hdr` is 40 bytes on ILP32 and 48 on LP64, and its words add up to the address words, `ip6_plen` (copied verbatim) and `ip6_nxt` as a low byte |
| Verifiers.Rfc2460PseudoHeader | checksum.c:29-36 | the 40-byte RFC 2460 pseudo-header built from the same fields has the same word sum |
| Verifiers.PseudoHeader6MatchesRfc2460 | checksum.c:29-36 | for every payload and data model, the C pseudo-header and the RFC 2460 one give the same checksum |
| Verifiers.CheckIP6DataChecksum | checksum.c:184-203 | returns true iff the C pseudo-header followed by the data verifies, which holds iff the same is true with the RFC 2460 pseudo-header |
| Verifiers.IpHeaderRoundTrip | checksum.c:135-143 | a header with its checksum field (offset 10) filled in from the header and options makes `CheckIPChecksum` succeed |
| Verifiers.TransportRoundTrip | checksum.c:157-178 | a TCP or UDP segment with its checksum field (even offset) filled in from the pseudo-header and the segment makes `CheckIPDataChecksum` succeed |
| Verifiers.CorruptedSegmentRejected | checksum.c:160-178 | changing any one byte of a segment that passes `CheckIPDataChecksum` makes it fail |
| HostOrder.LeSumIsSwapped | checksum.c:50-53 | the one's-complement sum of little-endian word reads is the byte-swapped sum of network-order reads |
| HostOrder.SwapKeepsVerdict | checksum.c:138-143 | the 0-or-0xFFFF test accepts a byte-swapped checksum exactly when it accepts the original, so host byte order does not change a verifier's answer |
| HostOrder.LeChecksumIsSwapped | checksum.c:50-53 | with host-order (little-endian) word reads, `checksum` returns the network-order checksum byte-swapped |
| HostOrder.BoundaryWordAsWritten | checksum.c:96 | on a little-endian host the boundary word is `tail * 256 + first`, in network order, whatever byte lies past `data1` |
| HostOrder.Checksum2AsWritten | checksum.c:79-126 | `checksum2` as written on a little-endian host; with even `len1` it is the little-endian checksum of the concatenation |
| HostOrder.CorrectedSumIsWhole | checksum.c:94-103 | with the boundary word loaded in host order, the words `checksum2` adds are exactly the host-order words of the concatenation, for both parities of `len1` |
| HostOrder.Checksum2Corrected | checksum.c:94-103 | with the boundary word read in host order, `checksum2` is the little-endian checksum of the concatenation, i.e. the byte-swapped `Accumulator.Checksum2` result |
| HostOrder.AsWrittenAgreesIffBoundaryBytesEqual | checksum.c:94-103 | on a little-endian host with odd `len1`, `checksum2` as written equals the checksum of the concatenation iff the last byte of `data1` equals the first byte of `data2` |
| HostOrder.AsWrittenSpliceCounterexample | checksum.c:96 | for `[1, 2, 3]` and `[4]`, the little-endian `checksum2` as written sums 0x0505; `checksum` of `[1, 2, 3, 4]` sums 0x0604 |

## Findings

| source | as written | input that shows it | evidently intended | confidence | as-written member | corrected member |
|---|---|---|---|---|---|---|
| checksum.c:96 | `val = ((*ptr) << 8) + (*data2)` builds the boundary word with the tail of `data1` as its high byte, while every other word is loaded in host byte order; on a little-endian host the two orders differ | `data1 = [1, 2, 3]`, `data2 = [4]` on a little-endian host: the sum is 0x0201 + 0x0304 = 0x0505, whereas `checksum([1, 2, 3, 4])` sums 0x0201 + 0x0403 = 0x0604 | the checksum of the concatenation (checksum.c:75-78), i.e. a boundary word loaded in host order | not executed; high (on little-endian hosts it is wrong exactly when the two boundary bytes differ, per `HostOrder.AsWrittenAgreesIffBoundaryBytesEqual`) | HostOrder.Checksum2AsWritten | HostOrder.Checksum2Corrected |

The three verifiers of checksum.c always pass an even-length first buffer: 20, 12, and 40 or 48 bytes. So the defect is latent for them. Other callers of `checksum2` are not part of this model. The verifiers use `Accumulator.Checksum2`, whose boundary word has the same byte order as every other word.

## Left out

- Raw-socket setup, the capture loops and header printing (`ltest/ltest.c`, `pcap.c`) are I/O. Packet dissection (`AnalyzePacket`) is not part of this model. The verifiers receive already-delimited buffers.
- Host byte order: the model reads words in network order. `HostOrder` shows that little-endian reads only byte-swap a single-buffer result. The big-endian reading of checksum.c:96 is not modelled: there `*ptr` includes a byte past `data1`, which the 16-bit truncation keeps. That is an out-of-range read.
- C lengths: every `int` length is the length of its sequence. Negative lengths, and lengths that disagree with the buffer, are caller errors in the C code and are not modelled.
- `htons(len)` is modelled as `len` modulo 2^16. The IPv6 pseudo-header copies `ip6_plen` verbatim, as the code does, so the 32-bit upper-layer length and extension headers of RFC 2460 are not modelled.
- `struct pseudo_ip6_hdr`: `unsigned long` is modelled as 4 bytes (ILP32) or 8 bytes (LP64). Inside it, the two `ip6_plen` bytes are placed in network order at its high-address end. Other placements of those bytes at an even offset give the same word sum, by `ZeroWordsNeutral`.
- Accumulator.Checksum2: for odd `len1` it uses the intended boundary word `tail * 256 + data2[0]`. checksum.c:96 builds a different word on both byte orders: on a little-endian host it is in network order among host-order words (the finding above), and on a big-endian host it is the byte past `data1` times 256 plus `data2[0]`, which drops the tail of `data1`. So `Accumulator.Checksum2` states what `checksum2` is meant to return, not what the code returns for odd `len1`.
- HostOrder.LeChecksumIsSwapped: `LeChecksum` is the closed-form end-around reduction of the little-endian word sum, not a second copy of the accumulator loops. The loops' reduction is proved once, for network-order words (`Accumulator.Finish`), and the same reasoning applies to any word values.
- HostOrder.Checksum2AsWritten: built from the end-around reduction proved for the accumulator loops (`Accumulator.Finish`), not from a separate little-endian copy of those loops.
- ICMPv4 checking through `checkIPDATAchecksum` is not modelled. The function is documented for TCP and UDP, and ICMPv4 uses no pseudo-header.
