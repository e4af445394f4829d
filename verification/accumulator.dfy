/**
 * `checksum` and `checksum2` of checksum.c: the 32-bit accumulator loops,
 * with the `u_int32_t` width written out so that the proofs can show it
 * never wraps.
 *
 * Words are read in network order. The C code reads `u_int16_t` in host
 * order; for `checksum`, and for `checksum2` when `data1` has even length,
 * that only byte-swaps the result (section 2(B) of RFC 1071), which the module
 * HostOrder proves for little-endian hosts. For `checksum2` with `data1` of
 * odd length the boundary word modelled here is the intended one, not the one
 * checksum.c:96 builds (see HostOrder).
 */
module Accumulator {
  import opened OnesComplement

  type u32 = x: int | 0 <= x < 0x1_0000_0000

  /** `sum += w` on a `u_int32_t`. */
  function AddU32(sum: u32, w: u16): u32
  {
    (sum + w) % 0x1_0000_0000
  }

  /** `sum & 0x80000000`: bit 31 of a 32-bit value is set. */
  predicate Bit31(x: u32)
  {
    x / 0x8000_0000 == 1
  }

  /** `(sum & 0xFFFF) + (sum >> 16)`: one end-around carry step. */
  function FoldCarry(x: u32): (r: u32)
    ensures OnesEquivalent(r, x)
    ensures r <= 2 * 0xFFFF
    ensures x > 0xFFFF ==> r < x
  {
    var hi, lo := x / 0x1_0000, x % 0x1_0000;
    assert x == hi * 0x1_0000 + lo;
    assert x - (hi + lo) == hi * M;
    lo + hi
  }

  /**
   * One step of the strided loops (checksum.c:53-56, also 88-91, 96-100 and
   * 108-111): add a word, then fold if bit 31 became set. Below 2^31 the add
   * cannot wrap, and the step keeps the accumulator below 2^31.
   */
  function AddWord(sum: u32, w: u16): (r: u32)
    requires sum < 0x8000_0000
    ensures r < 0x8000_0000
    ensures OnesEquivalent(r, sum + w)
  {
    var added := AddU32(sum, w);
    assert added == sum + w;
    if Bit31(added) then FoldCarry(added) else added
  }

  /** An accumulator that stands for a sum still does so after `AddWord` adds the same word to both. */
  lemma AddWordKeepsValue(sum: u32, total: nat, w: u16)
    requires sum < 0x8000_0000
    requires OnesEquivalent(sum, total)
    ensures OnesEquivalent(AddWord(sum, w), total + w)
  {
    EquivalentAdd(sum, total, w);
    EquivalentTransitive(AddWord(sum, w), sum + w, total + w);
  }

  /** `~sum` on a `u_int32_t`, returned as `u_int16_t`. */
  function Complement(x: u32): (r: u16)
    ensures x <= 0xFFFF ==> r + x == 0xFFFF
  {
    (0xFFFF_FFFF - x) % 0x1_0000
  }

  /**
   * The strided loop of checksum.c:52-58 (also 87-93 and 107-113), started
   * from the accumulator value `acc`: it adds every complete word of `s` and
   * folds whenever bit 31 becomes set. It returns the accumulator and the
   * number of bytes consumed; an odd tail byte is left to the caller.
   */
  method AddWords(s: seq<byte>, acc: u32) returns (sum: u32, i: nat)
    requires acc < 0x8000_0000
    ensures i % 2 == 0 && i == |s| - |s| % 2
    ensures sum < 0x8000_0000
    ensures OnesEquivalent(sum, acc + WordSum(s[..i]))
  {
    sum, i := acc, 0;
    var c := |s|;
    while c > 1
      invariant 0 <= c && i + c == |s| && i % 2 == 0
      invariant sum < 0x8000_0000
      invariant OnesEquivalent(sum, acc + WordSum(s[..i]))
    {
      var w := Word(s[i], s[i + 1]);
      PrefixWordStep(s, i);
      AddWordKeepsValue(sum, acc + WordSum(s[..i]), w);
      sum := AddWord(sum, w);
      i, c := i + 2, c - 2;
    }
  }

  /**
   * The final loop of checksum.c:67-69 (and 121-123): fold while anything is
   * left above bit 15. It ends with a 16-bit value equal, as a one's-complement
   * number, to the one it started from.
   */
  method FoldAll(x: u32) returns (sum: u32)
    ensures sum <= 0xFFFF
    ensures OnesEquivalent(sum, x)
  {
    sum := x;
    while sum / 0x1_0000 != 0
      invariant OnesEquivalent(sum, x)
      decreases sum
    {
      ghost var before := sum;
      sum := FoldCarry(sum);
      EquivalentTransitive(sum, before, x);
    }
  }

  /**
   * Adds the odd tail byte of checksum.c:60-65 (and 114-119), the high byte of
   * a word whose low byte is zero, to an accumulator standing for `base` plus
   * the complete words of `s`.
   */
  method AddTail(s: seq<byte>, i: nat, acc: u32, ghost base: nat) returns (sum: u32)
    requires i % 2 == 0 && i == |s| - |s| % 2
    requires acc < 0x8000_0000
    requires OnesEquivalent(acc, base + WordSum(s[..i]))
    ensures OnesEquivalent(sum, base + WordSum(s))
  {
    sum := acc;
    if |s| - i == 1 {
      sum := AddU32(sum, Word(s[i], 0));
      assert s == s[..i] + [s[i]];
      WordSumAppend(s[..i], [s[i]]);
      EquivalentAdd(acc, base + WordSum(s[..i]), Word(s[i], 0));
    } else {
      assert s[..i] == s;
    }
  }

  /** Folds the accumulator and complements it, finishing the checksum of bytes whose word sum it represents. */
  method Finish(acc: u32, ghost s: seq<byte>) returns (r: u16)
    requires OnesEquivalent(acc, WordSum(s))
    ensures r == InternetChecksum(s)
  {
    var sum := FoldAll(acc);
    EquivalentTransitive(sum, acc, WordSum(s));
    EndAroundUnique(WordSum(s), sum);
    ChecksumOfWordSum(s);
    r := Complement(sum);
  }

  /** `checksum(data, len)` of checksum.c:43-72, with `len == |data|`. */
  method Checksum(data: seq<byte>) returns (r: u16)
    ensures r == InternetChecksum(data)
  {
    var sum, i := AddWords(data, 0);
    sum := AddTail(data, i, sum, 0);
    r := Finish(sum, data);
  }

  /**
   * The boundary of checksum.c:94-106, reached once `data1`'s complete words
   * are summed (`i` bytes of it). An odd tail byte of `data1` is paired with
   * the first byte of `data2` as the intended word `tail * 256 + data2[0]`,
   * and the traversal resumes at `data2[1..]` (the C code's `ptr = data2 + 1;
   * len2--`); otherwise it starts at `data2` itself. The word checksum.c:96
   * actually builds differs: on a little-endian host it is in network order
   * among host-order words, and on a big-endian host it is the byte past
   * `data1` times 256 plus `data2[0]` (see HostOrder). `head` is the even-length prefix of the concatenation
   * that the accumulator now stands for.
   */
  method AddBoundary(data1: seq<byte>, i: nat, data2: seq<byte>, acc: u32)
    returns (sum: u32, rest: seq<byte>, ghost head: seq<byte>)
    requires i % 2 == 0 && i == |data1| - |data1| % 2
    requires |data1| % 2 == 1 ==> |data2| >= 1
    requires acc < 0x8000_0000
    requires OnesEquivalent(acc, WordSum(data1[..i]))
    ensures sum < 0x8000_0000
    ensures rest == if |data1| % 2 == 1 then data2[1..] else data2
    ensures |head| % 2 == 0 && head + rest == data1 + data2
    ensures OnesEquivalent(sum, WordSum(head))
  {
    if |data1| - i == 1 {
      var w := Word(data1[i], data2[0]);
      AddWordKeepsValue(acc, WordSum(data1[..i]), w);
      sum := AddWord(acc, w);
      rest := data2[1..];
      head := BoundarySplit(data1, i, data2);
    } else {
      sum, rest, head := acc, data2, data1;
      assert data1[..i] == data1;
    }
  }

  /** The even-length prefix of `data1 + data2` that ends with the boundary word, for odd-length `data1`. */
  lemma {:induction false} BoundarySplit(data1: seq<byte>, i: nat, data2: seq<byte>) returns (head: seq<byte>)
    requires i % 2 == 0 && i + 1 == |data1| && |data2| >= 1
    ensures |head| == i + 2 && |head| % 2 == 0 && head + data2[1..] == data1 + data2
    ensures WordSum(head) == WordSum(data1[..i]) + Word(data1[i], data2[0])
  {
    var whole := data1 + data2;
    PrefixWordStep(whole, i);
    assert whole[..i] == data1[..i];
    head := whole[..i + 2];
    assert i + 2 == 2 * (i / 2 + 1);
    assert head + data2[1..] == whole;
  }

  /**
   * `checksum2(data1, len1, data2, len2)` of checksum.c:79-126: the checksum
   * of `data1` followed by `data2`, computed without joining them. When
   * `data1` has odd length the model pairs its last byte with the first byte
   * of `data2` as one word, the intended reading of checksum.c:96, which the
   * C code builds differently (see `AddBoundary` and HostOrder); `data2` must
   * then be non-empty, since the C code reads `*data2` unconditionally on
   * that branch.
   */
  method Checksum2(data1: seq<byte>, data2: seq<byte>) returns (r: u16)
    requires |data1| % 2 == 1 ==> |data2| >= 1
    ensures r == InternetChecksum(data1 + data2)
  {
    var sum, i := AddWords(data1, 0);
    var rest;
    ghost var head;
    sum, rest, head := AddBoundary(data1, i, data2, sum);
    ghost var mid := sum;
    var j;
    sum, j := AddWords(rest, sum);
    EquivalentAdd(mid, WordSum(head), WordSum(rest[..j]));
    EquivalentTransitive(sum, mid + WordSum(rest[..j]), WordSum(head) + WordSum(rest[..j]));
    sum := AddTail(rest, j, sum, WordSum(head));
    WordSumAppend(head, rest);
    r := Finish(sum, data1 + data2);
  }
}
