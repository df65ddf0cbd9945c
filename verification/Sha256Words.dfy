/** What the words of SHA-256 are: the functions of section 4.1.2 of FIPS 180-4 bit by bit, and the constants of
    sections 4.2.2 and 5.3.3 from the primes. */
module Sha256Words {
  import opened Sha256

  // ----- bits

  /** Bit `i` of a word, the lowest one being bit 0. */
  predicate Bit(x: bv32, i: bv32)
    requires i < 32
  {
    (x >> i) & 1 == 1
  }

  /** Rotating moves each bit by `n` places, around the end of the word. */
  lemma RotatedBit(x: bv32, n: bv32, i: bv32)
    requires 0 < n < 32 && i < 32
    ensures Bit(RotateRight(x, n), i) <==> Bit(x, (i + n) % 32)
  {
    if n < 8 {
      RotatedSlightly(x, n, i);
    } else if n < 16 {
      RotatedLess(x, n, i);
    } else if n < 24 {
      RotatedMore(x, n, i);
    } else {
      RotatedMost(x, n, i);
    }
  }

  lemma RotatedSlightly(x: bv32, n: bv32, i: bv32)
    requires 0 < n < 8 && i < 32
    ensures Bit(RotateRight(x, n), i) <==> Bit(x, (i + n) % 32)
  {
  }

  lemma RotatedLess(x: bv32, n: bv32, i: bv32)
    requires 8 <= n < 16 && i < 32
    ensures Bit(RotateRight(x, n), i) <==> Bit(x, (i + n) % 32)
  {
  }

  lemma RotatedMore(x: bv32, n: bv32, i: bv32)
    requires 16 <= n < 24 && i < 32
    ensures Bit(RotateRight(x, n), i) <==> Bit(x, (i + n) % 32)
  {
  }

  lemma RotatedMost(x: bv32, n: bv32, i: bv32)
    requires 24 <= n < 32 && i < 32
    ensures Bit(RotateRight(x, n), i) <==> Bit(x, (i + n) % 32)
  {
  }

  /** The second word's bit where the first word has a one, and the third word's elsewhere. */
  lemma ChosenBit(x: Word, y: Word, z: Word, i: bv32)
    requires i < 32
    ensures Bit(Ch(x, y, z).bits, i) <==> if Bit(x.bits, i) then Bit(y.bits, i) else Bit(z.bits, i)
  {
  }

  /** What at least two of the words have. */
  lemma MajorityBit(x: Word, y: Word, z: Word, i: bv32)
    requires i < 32
    ensures Bit(Maj(x, y, z).bits, i) <==>
            || (Bit(x.bits, i) && Bit(y.bits, i))
            || (Bit(x.bits, i) && Bit(z.bits, i))
            || (Bit(y.bits, i) && Bit(z.bits, i))
  {
  }

  // ----- bytes

  /** Storing a word big-endian and loading it gives it back. */
  lemma WordOfBytes(w: Word)
    ensures var r := WordBytes(w);
            BigEndian(r[0], r[1], r[2], r[3]) == w
  {
  }

  /** The bytes of a length, the first of which counts most, make up the length. */
  lemma LengthOfBytes(n: bv64)
    ensures var r := LengthBytes(n);
            n == (r[0] as bv64 << 56) | (r[1] as bv64 << 48) | (r[2] as bv64 << 40) | (r[3] as bv64 << 32)
                 | (r[4] as bv64 << 24) | (r[5] as bv64 << 16) | (r[6] as bv64 << 8) | (r[7] as bv64)
  {
  }

  // ----- constants

  /** The first 64 primes. */
  const PRIMES: seq<nat> := (PRIMES_0 + PRIMES_16) + (PRIMES_32 + PRIMES_48)

  const PRIMES_0: seq<nat> := [
    2, 3, 5, 7, 11, 13, 17, 19, 23, 29, 31, 37, 41, 43, 47, 53]

  const PRIMES_16: seq<nat> := [
    59, 61, 67, 71, 73, 79, 83, 89, 97, 101, 103, 107, 109, 113, 127, 131]

  const PRIMES_32: seq<nat> := [
    137, 139, 149, 151, 157, 163, 167, 173, 179, 181, 191, 193, 197, 199, 211, 223]

  const PRIMES_48: seq<nat> := [
    227, 229, 233, 239, 241, 251, 257, 263, 269, 271, 277, 281, 283, 293, 307, 311]

  /** `k` is the first 32 bits behind the point of the cube root of `p`, which has the whole part `w`. */
  predicate CubeRoot(w: nat, k: bv32, p: nat) {
    var c := w * 0x1_0000_0000 + k as nat;
    c * c * c <= p * 0x1_0000_0000_0000_0000_0000_0000 < (c + 1) * (c + 1) * (c + 1)
  }

  /** The same of the square root. */
  predicate SquareRoot(w: nat, k: bv32, p: nat) {
    var c := w * 0x1_0000_0000 + k as nat;
    c * c <= p * 0x1_0000_0000_0000_0000 < (c + 1) * (c + 1)
  }

  ghost predicate FromPrime(i: nat)
    requires i < |K| == |PRIMES|
  {
    exists w :: CubeRoot(w, K[i], PRIMES[i])
  }

  lemma Rooted(i: nat, w: nat, k: bv32, p: nat)
    requires |K| == |PRIMES| == 64 && i < 64 && K[i] == k && PRIMES[i] == p && CubeRoot(w, k, p)
    ensures FromPrime(i)
  {
  }

  /** Each round constant is the first 32 bits of the fraction of its prime's cube root. */
  lemma RoundConstant(i: nat)
    requires i < 64
    ensures |K| == |PRIMES| == 64 && FromPrime(i)
  {
    if i < 4 {
      Constants0(i);
    } else if i < 8 {
      Constants4(i);
    } else if i < 12 {
      Constants8(i);
    } else if i < 16 {
      Constants12(i);
    } else if i < 20 {
      Constants16(i);
    } else if i < 24 {
      Constants20(i);
    } else if i < 28 {
      Constants24(i);
    } else if i < 32 {
      Constants28(i);
    } else if i < 36 {
      Constants32(i);
    } else if i < 40 {
      Constants36(i);
    } else if i < 44 {
      Constants40(i);
    } else if i < 48 {
      Constants44(i);
    } else if i < 52 {
      Constants48(i);
    } else if i < 56 {
      Constants52(i);
    } else if i < 60 {
      Constants56(i);
    } else if i < 64 {
      Constants60(i);
    }
  }

  lemma Constants0(i: nat)
    requires 0 <= i < 4
    ensures FromPrime(i)
  {
    if i == 0 {
      Rooted(i, 1, 0x428a2f98, 2);
    } else if i == 1 {
      Rooted(i, 1, 0x71374491, 3);
    } else if i == 2 {
      Rooted(i, 1, 0xb5c0fbcf, 5);
    } else if i == 3 {
      Rooted(i, 1, 0xe9b5dba5, 7);
    }
  }

  lemma Constants4(i: nat)
    requires 4 <= i < 8
    ensures FromPrime(i)
  {
    if i == 4 {
      Rooted(i, 2, 0x3956c25b, 11);
    } else if i == 5 {
      Rooted(i, 2, 0x59f111f1, 13);
    } else if i == 6 {
      Rooted(i, 2, 0x923f82a4, 17);
    } else if i == 7 {
      Rooted(i, 2, 0xab1c5ed5, 19);
    }
  }

  lemma Constants8(i: nat)
    requires 8 <= i < 12
    ensures FromPrime(i)
  {
    if i == 8 {
      Rooted(i, 2, 0xd807aa98, 23);
    } else if i == 9 {
      Rooted(i, 3, 0x12835b01, 29);
    } else if i == 10 {
      Rooted(i, 3, 0x243185be, 31);
    } else if i == 11 {
      Rooted(i, 3, 0x550c7dc3, 37);
    }
  }

  lemma Constants12(i: nat)
    requires 12 <= i < 16
    ensures FromPrime(i)
  {
    if i == 12 {
      Rooted(i, 3, 0x72be5d74, 41);
    } else if i == 13 {
      Rooted(i, 3, 0x80deb1fe, 43);
    } else if i == 14 {
      Rooted(i, 3, 0x9bdc06a7, 47);
    } else if i == 15 {
      Rooted(i, 3, 0xc19bf174, 53);
    }
  }

  lemma Constants16(i: nat)
    requires 16 <= i < 20
    ensures FromPrime(i)
  {
    if i == 16 {
      Rooted(i, 3, 0xe49b69c1, 59);
    } else if i == 17 {
      Rooted(i, 3, 0xefbe4786, 61);
    } else if i == 18 {
      Rooted(i, 4, 0x0fc19dc6, 67);
    } else if i == 19 {
      Rooted(i, 4, 0x240ca1cc, 71);
    }
  }

  lemma Constants20(i: nat)
    requires 20 <= i < 24
    ensures FromPrime(i)
  {
    if i == 20 {
      Rooted(i, 4, 0x2de92c6f, 73);
    } else if i == 21 {
      Rooted(i, 4, 0x4a7484aa, 79);
    } else if i == 22 {
      Rooted(i, 4, 0x5cb0a9dc, 83);
    } else if i == 23 {
      Rooted(i, 4, 0x76f988da, 89);
    }
  }

  lemma Constants24(i: nat)
    requires 24 <= i < 28
    ensures FromPrime(i)
  {
    if i == 24 {
      Rooted(i, 4, 0x983e5152, 97);
    } else if i == 25 {
      Rooted(i, 4, 0xa831c66d, 101);
    } else if i == 26 {
      Rooted(i, 4, 0xb00327c8, 103);
    } else if i == 27 {
      Rooted(i, 4, 0xbf597fc7, 107);
    }
  }

  lemma Constants28(i: nat)
    requires 28 <= i < 32
    ensures FromPrime(i)
  {
    if i == 28 {
      Rooted(i, 4, 0xc6e00bf3, 109);
    } else if i == 29 {
      Rooted(i, 4, 0xd5a79147, 113);
    } else if i == 30 {
      Rooted(i, 5, 0x06ca6351, 127);
    } else if i == 31 {
      Rooted(i, 5, 0x14292967, 131);
    }
  }

  lemma Constants32(i: nat)
    requires 32 <= i < 36
    ensures FromPrime(i)
  {
    if i == 32 {
      Rooted(i, 5, 0x27b70a85, 137);
    } else if i == 33 {
      Rooted(i, 5, 0x2e1b2138, 139);
    } else if i == 34 {
      Rooted(i, 5, 0x4d2c6dfc, 149);
    } else if i == 35 {
      Rooted(i, 5, 0x53380d13, 151);
    }
  }

  lemma Constants36(i: nat)
    requires 36 <= i < 40
    ensures FromPrime(i)
  {
    if i == 36 {
      Rooted(i, 5, 0x650a7354, 157);
    } else if i == 37 {
      Rooted(i, 5, 0x766a0abb, 163);
    } else if i == 38 {
      Rooted(i, 5, 0x81c2c92e, 167);
    } else if i == 39 {
      Rooted(i, 5, 0x92722c85, 173);
    }
  }

  lemma Constants40(i: nat)
    requires 40 <= i < 44
    ensures FromPrime(i)
  {
    if i == 40 {
      Rooted(i, 5, 0xa2bfe8a1, 179);
    } else if i == 41 {
      Rooted(i, 5, 0xa81a664b, 181);
    } else if i == 42 {
      Rooted(i, 5, 0xc24b8b70, 191);
    } else if i == 43 {
      Rooted(i, 5, 0xc76c51a3, 193);
    }
  }

  lemma Constants44(i: nat)
    requires 44 <= i < 48
    ensures FromPrime(i)
  {
    if i == 44 {
      Rooted(i, 5, 0xd192e819, 197);
    } else if i == 45 {
      Rooted(i, 5, 0xd6990624, 199);
    } else if i == 46 {
      Rooted(i, 5, 0xf40e3585, 211);
    } else if i == 47 {
      Rooted(i, 6, 0x106aa070, 223);
    }
  }

  lemma Constants48(i: nat)
    requires 48 <= i < 52
    ensures FromPrime(i)
  {
    if i == 48 {
      Rooted(i, 6, 0x19a4c116, 227);
    } else if i == 49 {
      Rooted(i, 6, 0x1e376c08, 229);
    } else if i == 50 {
      Rooted(i, 6, 0x2748774c, 233);
    } else if i == 51 {
      Rooted(i, 6, 0x34b0bcb5, 239);
    }
  }

  lemma Constants52(i: nat)
    requires 52 <= i < 56
    ensures FromPrime(i)
  {
    if i == 52 {
      Rooted(i, 6, 0x391c0cb3, 241);
    } else if i == 53 {
      Rooted(i, 6, 0x4ed8aa4a, 251);
    } else if i == 54 {
      Rooted(i, 6, 0x5b9cca4f, 257);
    } else if i == 55 {
      Rooted(i, 6, 0x682e6ff3, 263);
    }
  }

  lemma Constants56(i: nat)
    requires 56 <= i < 60
    ensures FromPrime(i)
  {
    if i == 56 {
      Rooted(i, 6, 0x748f82ee, 269);
    } else if i == 57 {
      Rooted(i, 6, 0x78a5636f, 271);
    } else if i == 58 {
      Rooted(i, 6, 0x84c87814, 277);
    } else if i == 59 {
      Rooted(i, 6, 0x8cc70208, 281);
    }
  }

  lemma Constants60(i: nat)
    requires 60 <= i < 64
    ensures FromPrime(i)
  {
    if i == 60 {
      Rooted(i, 6, 0x90befffa, 283);
    } else if i == 61 {
      Rooted(i, 6, 0xa4506ceb, 293);
    } else if i == 62 {
      Rooted(i, 6, 0xbef9a3f7, 307);
    } else if i == 63 {
      Rooted(i, 6, 0xc67178f2, 311);
    }
  }

  /** The words of the initial hash value in their order. */
  function InitialWord(i: nat): bv32
    requires i < 8
  {
    match i
    case 0 => INITIAL.a.bits
    case 1 => INITIAL.b.bits
    case 2 => INITIAL.c.bits
    case 3 => INITIAL.d.bits
    case 4 => INITIAL.e.bits
    case 5 => INITIAL.f.bits
    case 6 => INITIAL.g.bits
    case 7 => INITIAL.h.bits
  }

  ghost predicate InitialFromPrime(i: nat)
    requires i < 8 <= |PRIMES|
  {
    exists w :: SquareRoot(w, InitialWord(i), PRIMES[i])
  }

  lemma SquareRooted(i: nat, w: nat, k: bv32, p: nat)
    requires i < 8 <= |PRIMES| && InitialWord(i) == k && PRIMES[i] == p && SquareRoot(w, k, p)
    ensures InitialFromPrime(i)
  {
  }

  /** Each word of the initial hash value is the first 32 bits of the fraction of its prime's square root. */
  lemma InitialConstant(i: nat)
    requires i < 8
    ensures |PRIMES| == 64 && InitialFromPrime(i)
  {
    if i == 0 {
      SquareRooted(i, 1, 0x6a09e667, 2);
    } else if i == 1 {
      SquareRooted(i, 1, 0xbb67ae85, 3);
    } else if i == 2 {
      SquareRooted(i, 2, 0x3c6ef372, 5);
    } else if i == 3 {
      SquareRooted(i, 2, 0xa54ff53a, 7);
    } else if i == 4 {
      SquareRooted(i, 3, 0x510e527f, 11);
    } else if i == 5 {
      SquareRooted(i, 3, 0x9b05688c, 13);
    } else if i == 6 {
      SquareRooted(i, 4, 0x1f83d9ab, 17);
    } else if i == 7 {
      SquareRooted(i, 4, 0x5be0cd19, 19);
    }
  }
}
