/**
 * What checksum.c computes on a little-endian host, where `*ptr` on a
 * `u_int16_t *` reads the byte at the lower address as the low-order byte.
 *
 * For a single buffer this only byte-swaps the result (section 2(B) of
 * RFC 1071), which is why the rest of the model reads words in network
 * order. The boundary word of `checksum2` (checksum.c:96) is the exception:
 * it is assembled arithmetically as `tail << 8 | first`, i.e. in network
 * order, while every other word of the same sum is in host order.
 */
module HostOrder {
  import opened OnesComplement

  /** A `u_int16_t` loaded from bytes `first`, `second` (in address order) on a little-endian host. */
  function LeWord(first: byte, second: byte): u16
  {
    first + second * 0x100
  }

  /**
   * The word sum the C loops accumulate on a little-endian host. The odd tail
   * is `memcpy`'d into the first byte of a zeroed `u_int16_t`, its low-order
   * byte.
   */
  function LeWordSum(s: seq<byte>): nat
    decreases |s|
  {
    if |s| == 0 then 0
    else if |s| == 1 then LeWord(s[0], 0)
    else LeWord(s[0], s[1]) + LeWordSum(s[2..])
  }

  /** Exchanges the two bytes of a 16-bit value (`ntohs` on a little-endian host). */
  function Swap16(x: u16): u16
  {
    (x % 0x100) * 0x100 + x / 0x100
  }

  /** `checksum(data, len)` on a little-endian host. */
  function LeChecksum(s: seq<byte>): u16
  {
    0xFFFF - EndAround(LeWordSum(s))
  }

  /** The sum of the bytes at even offsets: the high bytes of the network-order words. */
  function HighBytes(s: seq<byte>): nat
    decreases |s|
  {
    if |s| == 0 then 0
    else if |s| <= 2 then s[0]
    else s[0] + HighBytes(s[2..])
  }

  // ---------------------------------------------------------------------------
  // Arithmetic modulo 0xFFFF

  lemma ModMultiple(a: nat, k: nat)
    ensures (a + M * k) % M == a % M
  {
    var q, r := a / M, a % M;
    assert a + M * k == M * (q + k) + r;
  }

  lemma ScaleEquivalent(a: nat, b: nat)
    requires a % M == b % M
    ensures (0x100 * a) % M == (0x100 * b) % M
  {
    var r := a % M;
    assert 0x100 * a == 0x100 * r + M * (0x100 * (a / M));
    assert 0x100 * b == 0x100 * r + M * (0x100 * (b / M));
    ModMultiple(0x100 * r, 0x100 * (a / M));
    ModMultiple(0x100 * r, 0x100 * (b / M));
  }

  /** Sixteen-bit values that differ by less than 0xFFFF (and not at all in the zero test) differ as one's-complement numbers. */
  lemma EndAroundDistinct(a: nat, b: nat)
    requires a != b && -M < a - b < M
    requires a != 0 && b != 0
    ensures EndAround(a) != EndAround(b)
  {
    assert a - b == M * (a / M - b / M) + (a % M - b % M);
  }

  lemma DropAbove16(x: nat, k: nat)
    requires x < 0x1_0000
    ensures (x + 0x1_0000 * k) % 0x1_0000 == x
  {
  }

  // ---------------------------------------------------------------------------
  // Byte order independence (section 2(B) of RFC 1071)

  /** Reading every word byte-swapped multiplies the word sum by 256 modulo 0xFFFF. */
  lemma {:induction false} LeWordSumScaled(s: seq<byte>)
    ensures 0x100 * WordSum(s) == LeWordSum(s) + M * HighBytes(s)
    ensures LeWordSum(s) == 0 <==> WordSum(s) == 0
    decreases |s|
  {
    if |s| >= 2 {
      LeWordSumScaled(s[2..]);
    }
  }

  lemma SwapScaled(v: u16)
    ensures 0x100 * v == Swap16(v) + M * (v / 0x100)
    ensures Swap16(v) == 0 <==> v == 0
  {
  }

  /** Reading every word byte-swapped byte-swaps the one's-complement sum. */
  lemma {:induction false} LeSumIsSwapped(s: seq<byte>)
    ensures EndAround(LeWordSum(s)) == Swap16(EndAround(WordSum(s)))
  {
    var n, l := WordSum(s), LeWordSum(s);
    var e := EndAround(n);
    LeWordSumScaled(s);
    SwapScaled(e);
    ScaleEquivalent(e, n);
    ModMultiple(Swap16(e), e / 0x100);
    ModMultiple(l, HighBytes(s));
    assert OnesEquivalent(Swap16(e), l);
    EndAroundUnique(l, Swap16(e));
  }

  /** Complementing commutes with the byte swap. */
  lemma SwapComplement(e: u16)
    ensures Swap16(0xFFFF - e) == 0xFFFF - Swap16(e)
  {
    var c := 0xFFFF - e;
    assert c / 0x100 == 0xFF - e / 0x100 && c % 0x100 == 0xFF - e % 0x100;
  }

  /** A receiver's 0-or-0xFFFF test gives the same verdict on a byte-swapped result. */
  lemma SwapKeepsVerdict(x: u16)
    ensures (Swap16(x) == 0 || Swap16(x) == 0xFFFF) <==> (x == 0 || x == 0xFFFF)
  {
  }

  /** On a little-endian host `checksum` returns the network-order checksum byte-swapped. */
  lemma {:induction false} LeChecksumIsSwapped(s: seq<byte>)
    ensures LeChecksum(s) == Swap16(InternetChecksum(s))
  {
    LeSumIsSwapped(s);
    ChecksumOfWordSum(s);
    SwapComplement(EndAround(WordSum(s)));
  }

  lemma {:induction false} LeWordSumAppend(a: seq<byte>, b: seq<byte>)
    requires |a| % 2 == 0
    ensures LeWordSum(a + b) == LeWordSum(a) + LeWordSum(b)
    decreases |a|
  {
    if |a| == 0 {
      assert a + b == b;
    } else {
      assert (a + b)[2..] == a[2..] + b;
      LeWordSumAppend(a[2..], b);
    }
  }

  // ---------------------------------------------------------------------------
  // checksum2 on a little-endian host

  /**
   * checksum.c:96, `val = ((*ptr) << 8) + (*data2)` stored in a `u_int16_t`:
   * `*ptr` loads the tail byte of `data1` and the byte after it, `beyond`,
   * which lies outside `data1`.
   */
  function BoundaryWordAsWritten(tail: byte, beyond: byte, first: byte): (w: u16)
    ensures w == Word(tail, first)
  {
    assert LeWord(tail, beyond) * 0x100 + first == Word(tail, first) + 0x1_0000 * beyond;
    DropAbove16(Word(tail, first), beyond);
    (LeWord(tail, beyond) * 0x100 + first) % 0x1_0000
  }

  /**
   * `checksum2` as written, on a little-endian host; the loops and folds are
   * those of the Accumulator module. With `data1` of even length the boundary
   * word never arises and the result is the checksum of the concatenation.
   */
  function Checksum2AsWritten(data1: seq<byte>, beyond: byte, data2: seq<byte>): (r: u16)
    requires |data1| % 2 == 1 ==> |data2| >= 1
    ensures |data1| % 2 == 0 ==> r == LeChecksum(data1 + data2)
  {
    if |data1| % 2 == 1 then
      var i := |data1| - 1;
      0xFFFF - EndAround(LeWordSum(data1[..i]) + BoundaryWordAsWritten(data1[i], beyond, data2[0]) + LeWordSum(data2[1..]))
    else
      LeWordSumAppend(data1, data2);
      0xFFFF - EndAround(LeWordSum(data1) + LeWordSum(data2))
  }

  /**
   * `checksum2` with the boundary word loaded in host order like every other
   * word: on a little-endian host the tail of `data1` is its low-order byte.
   * It is the checksum of the concatenation, which is the network-order
   * checksum that `Accumulator.Checksum2` computes, byte-swapped.
   */
  function Checksum2Corrected(data1: seq<byte>, data2: seq<byte>): (r: u16)
    requires |data1| % 2 == 1 ==> |data2| >= 1
    ensures r == LeChecksum(data1 + data2)
    ensures r == Swap16(InternetChecksum(data1 + data2))
  {
    var n := CorrectedSum(data1, data2);
    CorrectedSumIsWhole(data1, data2);
    LeChecksumIsSwapped(data1 + data2);
    0xFFFF - EndAround(n)
  }

  /** The accumulator total of `checksum2` when the boundary word is loaded in host order. */
  function CorrectedSum(data1: seq<byte>, data2: seq<byte>): nat
    requires |data1| % 2 == 1 ==> |data2| >= 1
  {
    if |data1| % 2 == 1 then
      var i := |data1| - 1;
      LeWordSum(data1[..i]) + LeWord(data1[i], data2[0]) + LeWordSum(data2[1..])
    else
      LeWordSum(data1) + LeWordSum(data2)
  }

  lemma OddPredecessorEven(n: nat)
    requires n % 2 == 1
    ensures (n - 1) % 2 == 0
  {
  }

  /** With the boundary word in host order, `checksum2` sums exactly the words of the concatenation. */
  lemma {:induction false} CorrectedSumIsWhole(data1: seq<byte>, data2: seq<byte>)
    requires |data1| % 2 == 1 ==> |data2| >= 1
    ensures CorrectedSum(data1, data2) == LeWordSum(data1 + data2)
  {
    if |data1| % 2 == 1 {
      var i := |data1| - 1;
      OddPredecessorEven(|data1|);
      LeBoundarySplit(data1, i, data2);
    } else {
      LeWordSumAppend(data1, data2);
    }
  }

  /** The host-order word sum of `s` split around the word at the even offset `i`. */
  lemma {:induction false} LeWordSumAround(s: seq<byte>, i: nat)
    requires i % 2 == 0 && i + 1 < |s|
    ensures LeWordSum(s) == LeWordSum(s[..i]) + LeWord(s[i], s[i + 1]) + LeWordSum(s[i + 2..])
  {
    var tail := s[i..];
    assert s == s[..i] + tail;
    LeWordSumAppend(s[..i], tail);
    assert tail[2..] == s[i + 2..];
  }

  /** With `data1` of odd length, the host-order word sum of the concatenation has the boundary word in host order. */
  lemma {:induction false} LeBoundarySplit(data1: seq<byte>, i: nat, data2: seq<byte>)
    requires i + 1 == |data1| && i % 2 == 0 && |data2| >= 1
    ensures LeWordSum(data1 + data2) == LeWordSum(data1[..i]) + LeWord(data1[i], data2[0]) + LeWordSum(data2[1..])
  {
    var whole := data1 + data2;
    LeWordSumAround(whole, i);
    assert whole[..i] == data1[..i];
    assert whole[i + 2..] == data2[1..];
  }

  /**
   * On a little-endian host, with `data1` of odd length, `checksum2` as
   * written agrees with the checksum of the concatenation exactly when the
   * last byte of `data1` equals the first byte of `data2`, whatever byte lies
   * past `data1`. With `data1` of even length it always agrees.
   */
  lemma {:induction false} AsWrittenAgreesIffBoundaryBytesEqual(data1: seq<byte>, beyond: byte, data2: seq<byte>)
    requires |data1| % 2 == 1 ==> |data2| >= 1
    ensures Checksum2AsWritten(data1, beyond, data2) == Checksum2Corrected(data1, data2)
            <==> (|data1| % 2 == 0 || data1[|data1| - 1] == data2[0])
  {
    if |data1| % 2 == 1 {
      var i := |data1| - 1;
      var t, f := data1[i], data2[0];
      var rest := LeWordSum(data1[..i]) + LeWordSum(data2[1..]);
      var a, b := rest + Word(t, f), rest + LeWord(t, f);
      assert a - b == 0xFF * (t as int - f as int);
      if t != f {
        assert a != 0 && b != 0;
        EndAroundDistinct(a, b);
      }
    }
  }

  /** A concrete splice that `checksum2` gets wrong on a little-endian host: [1, 2, 3] followed by [4]. */
  lemma {:induction false} AsWrittenSpliceCounterexample(beyond: byte)
    ensures Checksum2AsWritten([1, 2, 3], beyond, [4]) == 0xFFFF - 0x0505
    ensures LeChecksum([1, 2, 3, 4]) == 0xFFFF - 0x0604
  {
    var d1: seq<byte> := [1, 2, 3];
    var d2: seq<byte> := [4];
    var whole: seq<byte> := [1, 2, 3, 4];
    assert d1[..2] == [1, 2] && d2[1..] == [];
    assert LeWordSum([1, 2]) == 0x0201 by {
      var p: seq<byte> := [1, 2];
      assert p[2..] == [];
    }
    assert LeWordSum(whole) == 0x0201 + LeWordSum(whole[2..]);
    assert whole[2..] == [3, 4];
    var q: seq<byte> := [3, 4];
    assert LeWordSum(q) == 0x0403 + LeWordSum(q[2..]);
    assert q[2..] == [];
  }
}
