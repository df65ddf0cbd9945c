/** SHA-256 as FIPS 180-4 defines it on whole messages. */
module Sha256 {
  type Octet = bv8
  type Message = seq<Octet>

  /** A `uint32_t`. */
  datatype Word = Word(bits: bv32)

  /** Addition modulo 2^32. */
  function Add(x: Word, y: Word): Word {
    Word(x.bits + y.bits)
  }

  // ----- section 4.1.2 and 4.2.2

  /** `details::rotate_right` */
  function RotateRight(x: bv32, n: bv32): bv32
    requires 0 < n < 32
  {
    (x >> n) | (x << (32 - n))
  }

  function Sum0(x: Word): Word {
    Word(RotateRight(x.bits, 2) ^ RotateRight(x.bits, 13) ^ RotateRight(x.bits, 22))
  }

  function Sum1(x: Word): Word {
    Word(RotateRight(x.bits, 6) ^ RotateRight(x.bits, 11) ^ RotateRight(x.bits, 25))
  }

  function Sigma0(x: Word): Word {
    Word(RotateRight(x.bits, 7) ^ RotateRight(x.bits, 18) ^ (x.bits >> 3))
  }

  function Sigma1(x: Word): Word {
    Word(RotateRight(x.bits, 17) ^ RotateRight(x.bits, 19) ^ (x.bits >> 10))
  }

  function Ch(x: Word, y: Word, z: Word): Word {
    Word((x.bits & y.bits) ^ ((!x.bits) & z.bits))
  }

  function Maj(x: Word, y: Word, z: Word): Word {
    Word((x.bits & y.bits) ^ (x.bits & z.bits) ^ (y.bits & z.bits))
  }

  const K: seq<bv32> := (K_0 + K_16) + (K_32 + K_48)

  const K_0: seq<bv32> := [
    0x428a2f98, 0x71374491, 0xb5c0fbcf, 0xe9b5dba5, 0x3956c25b, 0x59f111f1, 0x923f82a4, 0xab1c5ed5,
    0xd807aa98, 0x12835b01, 0x243185be, 0x550c7dc3, 0x72be5d74, 0x80deb1fe, 0x9bdc06a7, 0xc19bf174]

  const K_16: seq<bv32> := [
    0xe49b69c1, 0xefbe4786, 0x0fc19dc6, 0x240ca1cc, 0x2de92c6f, 0x4a7484aa, 0x5cb0a9dc, 0x76f988da,
    0x983e5152, 0xa831c66d, 0xb00327c8, 0xbf597fc7, 0xc6e00bf3, 0xd5a79147, 0x06ca6351, 0x14292967]

  const K_32: seq<bv32> := [
    0x27b70a85, 0x2e1b2138, 0x4d2c6dfc, 0x53380d13, 0x650a7354, 0x766a0abb, 0x81c2c92e, 0x92722c85,
    0xa2bfe8a1, 0xa81a664b, 0xc24b8b70, 0xc76c51a3, 0xd192e819, 0xd6990624, 0xf40e3585, 0x106aa070]

  const K_48: seq<bv32> := [
    0x19a4c116, 0x1e376c08, 0x2748774c, 0x34b0bcb5, 0x391c0cb3, 0x4ed8aa4a, 0x5b9cca4f, 0x682e6ff3,
    0x748f82ee, 0x78a5636f, 0x84c87814, 0x8cc70208, 0x90befffa, 0xa4506ceb, 0xbef9a3f7, 0xc67178f2]

  datatype Hash = Hash(a: Word, b: Word, c: Word, d: Word, e: Word, f: Word, g: Word, h: Word)

  /** Section 5.3.3. */
  const INITIAL: Hash :=
    Hash(Word(0x6a09e667), Word(0xbb67ae85), Word(0x3c6ef372), Word(0xa54ff53a),
         Word(0x510e527f), Word(0x9b05688c), Word(0x1f83d9ab), Word(0x5be0cd19))

  // ----- section 5.2.1 and 6.2.2

  type Block = s: Message | |s| == 64 witness seq(64, _ => 0)

  function BigEndian(p: Octet, q: Octet, r: Octet, s: Octet): Word {
    Word((p as bv32 << 24) | (q as bv32 << 16) | (r as bv32 << 8) | (s as bv32))
  }

  /** The first `n` big-endian words of a block. */
  function BlockWords(block: Block, n: nat): (r: seq<Word>)
    requires n <= 16
    ensures |r| == n
  {
    if n == 0 then []
    else
      BlockWords(block, n - 1)
      + [BigEndian(block[4 * n - 4], block[4 * n - 3], block[4 * n - 2], block[4 * n - 1])]
  }

  /** A word of the message schedule from the ones 2, 7, 15 and 16 places before it. */
  function Extend(p: Word, q: Word, r: Word, s: Word): Word {
    Add(Add(Add(Sigma1(p), q), Sigma0(r)), s)
  }

  /** The message schedule up to word `t`. */
  function Schedule(words: seq<Word>, t: nat): (r: seq<Word>)
    requires |words| == 16 <= t
    ensures |r| == t
  {
    if t == 16 then words
    else
      var w := Schedule(words, t - 1);
      w + [Extend(w[t - 3], w[t - 8], w[t - 16], w[t - 17])]
  }

  function Round(s: Hash, k: Word, w: Word): Hash {
    var t1 := Add(Add(Add(Add(s.h, Sum1(s.e)), Ch(s.e, s.f, s.g)), k), w);
    var t2 := Add(Sum0(s.a), Maj(s.a, s.b, s.c));
    Hash(Add(t1, t2), s.a, s.b, s.c, Add(s.d, t1), s.e, s.f, s.g)
  }

  /** The working variables after `t` rounds with the constants `k` and the schedule `w`. */
  function Rounds(start: Hash, k: seq<bv32>, w: seq<Word>, t: nat): Hash
    requires t <= |k| && t <= |w|
  {
    if t == 0 then start else Round(Rounds(start, k, w, t - 1), Word(k[t - 1]), w[t - 1])
  }

  function Plus(x: Hash, y: Hash): Hash {
    Hash(Add(x.a, y.a), Add(x.b, y.b), Add(x.c, y.c), Add(x.d, y.d),
         Add(x.e, y.e), Add(x.f, y.f), Add(x.g, y.g), Add(x.h, y.h))
  }

  function Compress(start: Hash, block: Block): Hash {
    Plus(start, Rounds(start, K, Schedule(BlockWords(block, 16), |K|), |K|))
  }

  /** The hash value of the `n` blocks of `data`. */
  function HashOf(data: Message, n: nat): Hash
    requires |data| == 64 * n
    decreases n, 0
  {
    if n == 0 then INITIAL else HashLast(data, n - 1)
  }

  function HashLast(data: Message, n: nat): Hash
    requires |data| == 64 * n + 64
    decreases n, 2
  {
    HashWith(data[..64 * n], n, data[64 * n..])
  }

  /** The hash value with one more block. */
  function HashWith(data: Message, n: nat, block: Block): Hash
    requires |data| == 64 * n
    decreases n, 1
  {
    Compress(HashOf(data, n), block)
  }

  // ----- section 5.1.1

  const TWO_64: nat := 0x1_0000_0000_0000_0000

  /** How many blocks `n` bytes, the marker and the length take. */
  function PadBlocks(n: nat): (b: nat)
    ensures 64 * b - 64 <= n + 8 < 64 * b
  {
    (n + 8) / 64 + 1
  }

  /** How many zero bytes padding takes: the fewest that bring the length to 56 modulo 64. */
  function ZeroCount(n: nat): (z: nat)
    ensures z < 64 && (n + 1 + z) % 64 == 56
  {
    64 * PadBlocks(n) - 9 - n
  }

  function Zeros(n: nat): (r: Message)
    ensures |r| == n && forall k :: 0 <= k < n ==> r[k] == 0
  {
    seq(n, _ => 0)
  }

  /** The eight bytes of `n`, the most significant one first. */
  function LengthBytes(n: bv64): (r: Message)
    ensures |r| == 8
  {
    [(n >> 56) as Octet, ((n >> 48) & 0xff) as Octet, ((n >> 40) & 0xff) as Octet, ((n >> 32) & 0xff) as Octet,
     ((n >> 24) & 0xff) as Octet, ((n >> 16) & 0xff) as Octet, ((n >> 8) & 0xff) as Octet, (n & 0xff) as Octet]
  }

  /** The length in bits of `n` bytes as a 64-bit number. */
  function BitLength(n: nat): bv64 {
    Wide(8 * n % TWO_64)
  }

  function Wide(n: nat): bv64
    requires n < TWO_64
  {
    n as bv64
  }

  function Padding(n: nat): (r: Message)
    ensures |r| == 1 + ZeroCount(n) + 8
  {
    [0x80] + Zeros(ZeroCount(n)) + LengthBytes(BitLength(n))
  }

  function Pad(m: Message): (r: Message)
    ensures |r| == 64 * PadBlocks(|m|)
  {
    m + Padding(|m|)
  }

  function WordBytes(w: Word): (r: Message)
    ensures |r| == 4
  {
    [(w.bits >> 24) as Octet, ((w.bits >> 16) & 0xff) as Octet, ((w.bits >> 8) & 0xff) as Octet,
     (w.bits & 0xff) as Octet]
  }

  function HashBytes(s: Hash): (r: Message)
    ensures |r| == 32
  {
    WordBytes(s.a) + WordBytes(s.b) + WordBytes(s.c) + WordBytes(s.d)
    + WordBytes(s.e) + WordBytes(s.f) + WordBytes(s.g) + WordBytes(s.h)
  }

  /** The digest of a message. */
  function Digest(m: Message): (r: Message)
    ensures |r| == 32
  {
    HashBytes(HashOf(Pad(m), PadBlocks(|m|)))
  }

  // ----- about the definition

  /** One more block. */
  lemma HashMore(a: Message, n: nat, block: Block)
    requires |a| == 64 * n
    ensures HashOf(a + block, n + 1) == Compress(HashOf(a, n), block)
  {
    assert HashLast(a + block, n) == HashWith(a, n, block) by {
      assert (a + block)[..64 * n] == a && (a + block)[64 * n..] == block;
    }
  }

  /** Padding of a longer message has its marker where padding of a shorter one has zeros. */
  lemma PadMarker(m: Message, n: nat)
    requires |m| <= n < 64 * PadBlocks(|m|) - 8
    ensures Pad(m)[n] == if n == |m| then 0x80 else 0
  {
    assert Pad(m)[n] == Padding(|m|)[n - |m|];
  }

  /** Different messages are padded to different messages. */
  lemma PadInjective(m: Message, n: Message)
    requires Pad(m) == Pad(n)
    ensures m == n
  {
    PadMarker(m, |m|);
    PadMarker(n, |n|);
    if |m| < |n| {
      PadMarker(m, |n|);
    } else if |n| < |m| {
      PadMarker(n, |m|);
    } else {
      assert m == Pad(m)[..|m|] == Pad(n)[..|n|] == n;
    }
  }
}
