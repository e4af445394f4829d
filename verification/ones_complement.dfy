/**
 * The Internet checksum of RFC 1071, stated without any machine detail:
 * a byte sequence is read as big-endian 16-bit words (an odd trailing byte is
 * the high byte of a word whose low byte is zero), the words are added with
 * end-around carry, and the checksum is the one's complement of that sum.
 *
 * One's-complement addition on 16 bits is addition modulo 0xFFFF in which a
 * non-zero total is represented by a value in 1..0xFFFF, so 0xFFFF is the
 * "negative zero" that only a non-empty sum can produce.
 */
module OnesComplement {

  type byte = x: int | 0 <= x < 0x100
  type u16 = x: int | 0 <= x < 0x1_0000

  /** 2^16 - 1: one's-complement sums agree modulo this value. */
  const M: int := 0xFFFF

  /** The big-endian 16-bit word with high byte `hi` and low byte `lo`. */
  function Word(hi: byte, lo: byte): u16
  {
    hi * 0x100 + lo
  }

  /** The plain (unbounded) sum of the words of `s`, odd tail padded with a zero byte. */
  function WordSum(s: seq<byte>): nat
    decreases |s|
  {
    if |s| == 0 then 0
    else if |s| == 1 then Word(s[0], 0)
    else Word(s[0], s[1]) + WordSum(s[2..])
  }

  /** `n` zero bytes. */
  function Zeros(n: nat): seq<byte>
  {
    seq(n, i => 0)
  }

  /** `a` and `b` stand for the same one's-complement value. */
  predicate OnesEquivalent(a: nat, b: nat)
  {
    a % M == b % M && (a == 0 <==> b == 0)
  }

  /** 16-bit one's-complement addition: a carry out of bit 15 is added back in at bit 0. */
  function OnesAdd(a: u16, b: u16): (r: u16)
    ensures OnesEquivalent(r, a + b)
  {
    if a + b > 0xFFFF then a + b - 0x1_0000 + 1 else a + b
  }

  /** The one's-complement sum of the words of `s`, word by word as section 1 of RFC 1071 describes it. */
  function OnesSum(s: seq<byte>): u16
    decreases |s|
  {
    if |s| == 0 then 0
    else if |s| == 1 then OnesAdd(Word(s[0], 0), 0)
    else OnesAdd(Word(s[0], s[1]), OnesSum(s[2..]))
  }

  /** Closed form of the end-around-carry reduction of a non-negative integer to 16 bits. */
  function EndAround(n: nat): (r: u16)
    ensures OnesEquivalent(r, n)
  {
    if n == 0 then 0 else (n - 1) % M + 1
  }

  /** The Internet checksum: the one's complement of the one's-complement word sum. */
  function InternetChecksum(s: seq<byte>): u16
  {
    0xFFFF - OnesSum(s)
  }

  /** What a receiver accepts: the checksum over data that includes its checksum field is one of the two zeros. */
  predicate Verifies(s: seq<byte>)
  {
    InternetChecksum(s) == 0 || InternetChecksum(s) == 0xFFFF
  }

  /** `s` with the 16-bit value `w` written in network order at offsets `k` and `k + 1`. */
  function WithWord(s: seq<byte>, k: nat, w: u16): seq<byte>
    requires k + 1 < |s|
  {
    s[k := w / 0x100][k + 1 := w % 0x100]
  }

  // ---------------------------------------------------------------------------
  // The one's-complement value of a sum

  lemma EquivalentAdd(a: nat, b: nat, w: nat)
    requires OnesEquivalent(a, b)
    ensures OnesEquivalent(a + w, b + w)
  {
  }

  lemma EquivalentTransitive(a: nat, b: nat, c: nat)
    requires OnesEquivalent(a, b) && OnesEquivalent(b, c)
    ensures OnesEquivalent(a, c)
  {
  }

  /** A 16-bit value is determined by its residue modulo 0xFFFF and by whether it is zero. */
  lemma EndAroundUnique(n: nat, v: u16)
    requires OnesEquivalent(v, n)
    ensures v == EndAround(n)
  {
    if n != 0 {
      var e := EndAround(n);
      assert 1 <= v && 1 <= e;
      assert (v - 1) % M == (e - 1) % M;
    }
  }

  /** Adding words one at a time with end-around carry reduces the plain word sum. */
  lemma {:induction false} OnesSumIsEndAround(s: seq<byte>)
    ensures OnesSum(s) == EndAround(WordSum(s))
    decreases |s|
  {
    if |s| == 0 {
    } else if |s| == 1 {
      EndAroundUnique(WordSum(s), OnesSum(s));
    } else {
      OnesSumIsEndAround(s[2..]);
      var w := Word(s[0], s[1]);
      var n := WordSum(s[2..]);
      EquivalentAdd(EndAround(n), n, w);
      EquivalentTransitive(OnesSum(s), w + EndAround(n), w + n);
      EndAroundUnique(WordSum(s), OnesSum(s));
    }
  }

  /** The checksum depends on the bytes only through the plain word sum. */
  lemma {:induction false} ChecksumOfWordSum(s: seq<byte>)
    ensures InternetChecksum(s) == 0xFFFF - EndAround(WordSum(s))
  {
    OnesSumIsEndAround(s);
  }

  /** A buffer verifies exactly when its word sum is a multiple of 0xFFFF. */
  lemma {:induction false} VerifiesIffMultiple(s: seq<byte>)
    ensures Verifies(s) <==> WordSum(s) % M == 0
  {
    OnesSumIsEndAround(s);
  }

  // ---------------------------------------------------------------------------
  // How the word sum reacts to the shape of the bytes

  /** Splitting at an even offset splits the word sum. */
  lemma {:induction false} WordSumAppend(a: seq<byte>, b: seq<byte>)
    requires |a| % 2 == 0
    ensures WordSum(a + b) == WordSum(a) + WordSum(b)
    decreases |a|
  {
    if |a| == 0 {
      assert a + b == b;
    } else {
      assert (a + b)[2..] == a[2..] + b;
      WordSumAppend(a[2..], b);
    }
  }

  /** The complete words of a prefix grow by one word at a time. */
  lemma {:induction false} PrefixWordStep(s: seq<byte>, i: nat)
    requires i % 2 == 0 && i + 1 < |s|
    ensures WordSum(s[..i + 2]) == WordSum(s[..i]) + Word(s[i], s[i + 1])
  {
    var pair := s[i..i + 2];
    assert WordSum(pair) == Word(s[i], s[i + 1]) + WordSum(pair[2..]);
    assert pair[2..] == [];
    WordSumAppend(s[..i], pair);
    assert s[..i + 2] == s[..i] + pair;
  }

  lemma {:induction false} WordSumZeros(n: nat)
    ensures WordSum(Zeros(n)) == 0
  {
    if n >= 2 {
      assert Zeros(n)[2..] == Zeros(n - 2);
      WordSumZeros(n - 2);
    }
  }

  /** Zero bytes inserted at an even offset, an even number of them, leave the word sum unchanged. */
  lemma {:induction false} ZeroWordsNeutral(a: seq<byte>, k: nat, b: seq<byte>)
    requires |a| % 2 == 0
    ensures WordSum(a + (Zeros(2 * k) + b)) == WordSum(a + b)
  {
    var z := Zeros(2 * k);
    WordSumZeros(2 * k);
    WordSumAppend(z, b);
    WordSumAppend(a, z + b);
    WordSumAppend(a, b);
  }

  /** Replacing the high byte of word `j` moves the word sum by 256 times the change of that byte. */
  lemma {:induction false} WordSumUpdateHigh(s: seq<byte>, j: nat, v: byte)
    requires 2 * j < |s|
    ensures WordSum(s[2 * j := v]) + 0x100 * (s[2 * j] as int) == WordSum(s) + 0x100 * (v as int)
    decreases j
  {
    if j > 0 {
      assert s[2 * j := v][2..] == s[2..][2 * (j - 1) := v];
      WordSumUpdateHigh(s[2..], j - 1, v);
    }
  }

  /** Replacing the low byte of word `j` moves the word sum by the change of that byte. */
  lemma {:induction false} WordSumUpdateLow(s: seq<byte>, j: nat, v: byte)
    requires 2 * j + 1 < |s|
    ensures WordSum(s[2 * j + 1 := v]) + s[2 * j + 1] == WordSum(s) + v
    decreases j
  {
    if j > 0 {
      assert s[2 * j + 1 := v][2..] == s[2..][2 * (j - 1) + 1 := v];
      WordSumUpdateLow(s[2..], j - 1, v);
    }
  }

  // ---------------------------------------------------------------------------
  // The checksum round trip and error detection

  /** A multiple of 0xFFFF moved by a non-zero amount smaller than 0xFFFF is no longer a multiple. */
  lemma ShiftLeavesMultiple(w: nat, d: int)
    requires w % M == 0 && d != 0 && -M < d < M && w + d >= 0
    ensures (w + d) % M != 0
  {
    assert w == M * (w / M);
    assert w + d == M * ((w + d) / M) + (w + d) % M;
  }

  /** The word sum moves by less than 0xFFFF, and does move, when one byte changes. */
  lemma {:induction false} ByteChangeShift(s: seq<byte>, i: nat, v: byte)
    requires i < |s| && v != s[i]
    ensures var d := WordSum(s[i := v]) - WordSum(s); d != 0 && -M < d < M
  {
    var j := i / 2;
    if i == 2 * j {
      WordSumUpdateHigh(s, j, v);
    } else {
      assert i == 2 * j + 1;
      WordSumUpdateLow(s, j, v);
    }
  }

  /** Storing `w` into a zero word at an even offset adds `w` to the word sum. */
  lemma {:induction false} StoreWordAdds(s: seq<byte>, k: nat, w: u16)
    requires k % 2 == 0 && k + 1 < |s|
    requires s[k] == 0 && s[k + 1] == 0
    ensures WordSum(WithWord(s, k, w)) == WordSum(s) + w
  {
    var j := k / 2;
    assert k == 2 * j;
    var hi: byte, lo: byte := w / 0x100, w % 0x100;
    var t1 := s[k := hi];
    WordSumUpdateHigh(s, j, hi);
    WordSumUpdateLow(t1, j, lo);
    assert w == 0x100 * hi + lo;
    assert t1[k + 1 := lo] == WithWord(s, k, w);
  }

  /** Adding the checksum to the sum it was computed from gives a multiple of 0xFFFF. */
  lemma ComplementCancels(n: nat)
    ensures (n + (0xFFFF - EndAround(n))) % M == 0
  {
    var e := EndAround(n);
    assert n % M == e % M;
    assert n + (0xFFFF - e) == (n - e) + M;
    assert (n - e) % M == 0;
  }

  /**
   * A sender computes the checksum with its checksum field zero and stores it
   * there in network order; the receiver's check then succeeds.
   */
  lemma {:induction false} ChecksumInsertionVerifies(s: seq<byte>, k: nat)
    requires k % 2 == 0 && k + 1 < |s|
    requires s[k] == 0 && s[k + 1] == 0
    ensures Verifies(WithWord(s, k, InternetChecksum(s)))
  {
    var n, c := WordSum(s), InternetChecksum(s);
    ChecksumOfWordSum(s);
    ComplementCancels(n);
    StoreWordAdds(s, k, c);
    VerifiesIffMultiple(WithWord(s, k, c));
  }

  /** Changing any single byte of a buffer that verifies makes it fail to verify. */
  lemma {:induction false} SingleByteChangeDetected(s: seq<byte>, i: nat, v: byte)
    requires i < |s| && v != s[i]
    requires Verifies(s)
    ensures !Verifies(s[i := v])
  {
    var t := s[i := v];
    ByteChangeShift(s, i, v);
    VerifiesIffMultiple(s);
    VerifiesIffMultiple(t);
    ShiftLeavesMultiple(WordSum(s), WordSum(t) - WordSum(s));
  }
}
