/** The example of FIPS 180-4's authors: the digest of the message `abc`, followed through the schedule and the
    64 rounds. Every rotation, shift and constant takes part in it. */
module Sha256Example {
  import opened Sha256
  import opened Sha256Streams

  const ABC: Message := [0x61, 0x62, 0x63]

  /** The padded message is one block. */
  const BLOCK: seq<Word> := [
    Word(0x61626380), Word(0), Word(0), Word(0), Word(0), Word(0), Word(0), Word(0),
    Word(0), Word(0), Word(0), Word(0), Word(0), Word(0), Word(0), Word(24)]

  /** Eight words of the schedule, from place `t` on. */
  predicate Row(w: seq<Word>, t: nat, a: bv32, b: bv32, c: bv32, d: bv32, e: bv32, f: bv32, g: bv32, h: bv32) {
    && t + 8 <= |w| && w[t] == Word(a) && w[t + 1] == Word(b) && w[t + 2] == Word(c) && w[t + 3] == Word(d)
    && w[t + 4] == Word(e) && w[t + 5] == Word(f) && w[t + 6] == Word(g) && w[t + 7] == Word(h)
  }

  // ----- the schedule

  /** The whole schedule satisfies the equation each of its words was made by. */
  lemma {:induction false} ScheduleAt(words: seq<Word>, n: nat, t: nat)
    requires |words| == 16 <= n && t < n
    ensures Schedule(words, n)[t] ==
            if t < 16 then words[t]
            else
              var w := Schedule(words, n);
              Extend(w[t - 2], w[t - 7], w[t - 15], w[t - 16])
  {
    if n > 16 && t < n - 1 {
      ScheduleAt(words, n - 1, t);
    }
  }

  lemma NextWord(words: seq<Word>, w: seq<Word>, t: nat, p: bv32, q: bv32, r: bv32, s: bv32, x: bv32)
    requires |words| == 16 <= t < |w| && w == Schedule(words, |w|)
    requires w[t - 2] == Word(p) && w[t - 7] == Word(q) && w[t - 15] == Word(r) && w[t - 16] == Word(s)
    requires Extend(Word(p), Word(q), Word(r), Word(s)) == Word(x)
    ensures w[t] == Word(x)
  {
    ScheduleAt(words, |w|, t);
  }

  predicate Words0(w: seq<Word>, t: nat) {
    Row(w, t, 0x61626380, 0x00000000, 0x00000000, 0x00000000,
           0x00000000, 0x00000000, 0x00000000, 0x00000000)
  }

  predicate Words8(w: seq<Word>, t: nat) {
    Row(w, t, 0x00000000, 0x00000000, 0x00000000, 0x00000000,
           0x00000000, 0x00000000, 0x00000000, 0x00000018)
  }

  predicate Words16(w: seq<Word>, t: nat) {
    Row(w, t, 0x61626380, 0x000f0000, 0x7da86405, 0x600003c6,
           0x3e9d7b78, 0x0183fc00, 0x12dcbfdb, 0xe2e2c38e)
  }

  predicate Words24(w: seq<Word>, t: nat) {
    Row(w, t, 0xc8215c1a, 0xb73679a2, 0xe5bc3909, 0x32663c5b,
           0x9d209d67, 0xec8726cb, 0x702138a4, 0xd3b7973b)
  }

  predicate Words32(w: seq<Word>, t: nat) {
    Row(w, t, 0x93f5997f, 0x3b68ba73, 0xaff4ffc1, 0xf10a5c62,
           0x0a8b3996, 0x72af830a, 0x9409e33e, 0x24641522)
  }

  predicate Words40(w: seq<Word>, t: nat) {
    Row(w, t, 0x9f47bf94, 0xf0a64f5a, 0x3e246a79, 0x27333ba3,
           0x0c4763f2, 0x840abf27, 0x7a290d5d, 0x065c43da)
  }

  predicate Words48(w: seq<Word>, t: nat) {
    Row(w, t, 0xfb3e89cb, 0xcc7617db, 0xb9e66c34, 0xa9993667,
           0x84badedd, 0xc21462bc, 0x1487472c, 0xb20f7a99)
  }

  predicate Words56(w: seq<Word>, t: nat) {
    Row(w, t, 0xef57b9cd, 0xebe6b238, 0x9fe3095e, 0x78bc8d4b,
           0xa43fcf15, 0x668b2ff8, 0xeeaba2cc, 0x12b1edeb)
  }

  lemma Schedule16(words: seq<Word>, w: seq<Word>, t: nat)
    requires |words| == 16 <= t && t + 8 <= |w| && w == Schedule(words, |w|) && Words0(w, t - 16) && Words8(w, t - 8)
    ensures Words16(w, t)
  {
    NextWord(words, w, t + 0, 0x00000000, 0x00000000, 0x00000000, 0x61626380, 0x61626380);
    NextWord(words, w, t + 1, 0x00000018, 0x00000000, 0x00000000, 0x00000000, 0x000f0000);
    NextWord(words, w, t + 2, 0x61626380, 0x00000000, 0x00000000, 0x00000000, 0x7da86405);
    NextWord(words, w, t + 3, 0x000f0000, 0x00000000, 0x00000000, 0x00000000, 0x600003c6);
    NextWord(words, w, t + 4, 0x7da86405, 0x00000000, 0x00000000, 0x00000000, 0x3e9d7b78);
    NextWord(words, w, t + 5, 0x600003c6, 0x00000000, 0x00000000, 0x00000000, 0x0183fc00);
    NextWord(words, w, t + 6, 0x3e9d7b78, 0x00000018, 0x00000000, 0x00000000, 0x12dcbfdb);
    NextWord(words, w, t + 7, 0x0183fc00, 0x61626380, 0x00000000, 0x00000000, 0xe2e2c38e);
  }

  lemma Schedule24(words: seq<Word>, w: seq<Word>, t: nat)
    requires |words| == 16 <= t && t + 8 <= |w| && w == Schedule(words, |w|) && Words8(w, t - 16) && Words16(w, t - 8)
    ensures Words24(w, t)
  {
    NextWord(words, w, t + 0, 0x12dcbfdb, 0x000f0000, 0x00000000, 0x00000000, 0xc8215c1a);
    NextWord(words, w, t + 1, 0xe2e2c38e, 0x7da86405, 0x00000000, 0x00000000, 0xb73679a2);
    NextWord(words, w, t + 2, 0xc8215c1a, 0x600003c6, 0x00000000, 0x00000000, 0xe5bc3909);
    NextWord(words, w, t + 3, 0xb73679a2, 0x3e9d7b78, 0x00000000, 0x00000000, 0x32663c5b);
    NextWord(words, w, t + 4, 0xe5bc3909, 0x0183fc00, 0x00000000, 0x00000000, 0x9d209d67);
    NextWord(words, w, t + 5, 0x32663c5b, 0x12dcbfdb, 0x00000000, 0x00000000, 0xec8726cb);
    NextWord(words, w, t + 6, 0x9d209d67, 0xe2e2c38e, 0x00000018, 0x00000000, 0x702138a4);
    NextWord(words, w, t + 7, 0xec8726cb, 0xc8215c1a, 0x61626380, 0x00000018, 0xd3b7973b);
  }

  lemma Schedule32(words: seq<Word>, w: seq<Word>, t: nat)
    requires |words| == 16 <= t && t + 8 <= |w| && w == Schedule(words, |w|) && Words16(w, t - 16) && Words24(w, t - 8)
    ensures Words32(w, t)
  {
    NextWord(words, w, t + 0, 0x702138a4, 0xb73679a2, 0x000f0000, 0x61626380, 0x93f5997f);
    NextWord(words, w, t + 1, 0xd3b7973b, 0xe5bc3909, 0x7da86405, 0x000f0000, 0x3b68ba73);
    NextWord(words, w, t + 2, 0x93f5997f, 0x32663c5b, 0x600003c6, 0x7da86405, 0xaff4ffc1);
    NextWord(words, w, t + 3, 0x3b68ba73, 0x9d209d67, 0x3e9d7b78, 0x600003c6, 0xf10a5c62);
    NextWord(words, w, t + 4, 0xaff4ffc1, 0xec8726cb, 0x0183fc00, 0x3e9d7b78, 0x0a8b3996);
    NextWord(words, w, t + 5, 0xf10a5c62, 0x702138a4, 0x12dcbfdb, 0x0183fc00, 0x72af830a);
    NextWord(words, w, t + 6, 0x0a8b3996, 0xd3b7973b, 0xe2e2c38e, 0x12dcbfdb, 0x9409e33e);
    NextWord(words, w, t + 7, 0x72af830a, 0x93f5997f, 0xc8215c1a, 0xe2e2c38e, 0x24641522);
  }

  lemma Schedule40(words: seq<Word>, w: seq<Word>, t: nat)
    requires |words| == 16 <= t && t + 8 <= |w| && w == Schedule(words, |w|) && Words24(w, t - 16) && Words32(w, t - 8)
    ensures Words40(w, t)
  {
    NextWord(words, w, t + 0, 0x9409e33e, 0x3b68ba73, 0xb73679a2, 0xc8215c1a, 0x9f47bf94);
    NextWord(words, w, t + 1, 0x24641522, 0xaff4ffc1, 0xe5bc3909, 0xb73679a2, 0xf0a64f5a);
    NextWord(words, w, t + 2, 0x9f47bf94, 0xf10a5c62, 0x32663c5b, 0xe5bc3909, 0x3e246a79);
    NextWord(words, w, t + 3, 0xf0a64f5a, 0x0a8b3996, 0x9d209d67, 0x32663c5b, 0x27333ba3);
    NextWord(words, w, t + 4, 0x3e246a79, 0x72af830a, 0xec8726cb, 0x9d209d67, 0x0c4763f2);
    NextWord(words, w, t + 5, 0x27333ba3, 0x9409e33e, 0x702138a4, 0xec8726cb, 0x840abf27);
    NextWord(words, w, t + 6, 0x0c4763f2, 0x24641522, 0xd3b7973b, 0x702138a4, 0x7a290d5d);
    NextWord(words, w, t + 7, 0x840abf27, 0x9f47bf94, 0x93f5997f, 0xd3b7973b, 0x065c43da);
  }

  lemma Schedule48(words: seq<Word>, w: seq<Word>, t: nat)
    requires |words| == 16 <= t && t + 8 <= |w| && w == Schedule(words, |w|) && Words32(w, t - 16) && Words40(w, t - 8)
    ensures Words48(w, t)
  {
    NextWord(words, w, t + 0, 0x7a290d5d, 0xf0a64f5a, 0x3b68ba73, 0x93f5997f, 0xfb3e89cb);
    NextWord(words, w, t + 1, 0x065c43da, 0x3e246a79, 0xaff4ffc1, 0x3b68ba73, 0xcc7617db);
    NextWord(words, w, t + 2, 0xfb3e89cb, 0x27333ba3, 0xf10a5c62, 0xaff4ffc1, 0xb9e66c34);
    NextWord(words, w, t + 3, 0xcc7617db, 0x0c4763f2, 0x0a8b3996, 0xf10a5c62, 0xa9993667);
    NextWord(words, w, t + 4, 0xb9e66c34, 0x840abf27, 0x72af830a, 0x0a8b3996, 0x84badedd);
    NextWord(words, w, t + 5, 0xa9993667, 0x7a290d5d, 0x9409e33e, 0x72af830a, 0xc21462bc);
    NextWord(words, w, t + 6, 0x84badedd, 0x065c43da, 0x24641522, 0x9409e33e, 0x1487472c);
    NextWord(words, w, t + 7, 0xc21462bc, 0xfb3e89cb, 0x9f47bf94, 0x24641522, 0xb20f7a99);
  }

  lemma Schedule56(words: seq<Word>, w: seq<Word>, t: nat)
    requires |words| == 16 <= t && t + 8 <= |w| && w == Schedule(words, |w|) && Words40(w, t - 16) && Words48(w, t - 8)
    ensures Words56(w, t)
  {
    NextWord(words, w, t + 0, 0x1487472c, 0xcc7617db, 0xf0a64f5a, 0x9f47bf94, 0xef57b9cd);
    NextWord(words, w, t + 1, 0xb20f7a99, 0xb9e66c34, 0x3e246a79, 0xf0a64f5a, 0xebe6b238);
    NextWord(words, w, t + 2, 0xef57b9cd, 0xa9993667, 0x27333ba3, 0x3e246a79, 0x9fe3095e);
    NextWord(words, w, t + 3, 0xebe6b238, 0x84badedd, 0x0c4763f2, 0x27333ba3, 0x78bc8d4b);
    NextWord(words, w, t + 4, 0x9fe3095e, 0xc21462bc, 0x840abf27, 0x0c4763f2, 0xa43fcf15);
    NextWord(words, w, t + 5, 0x78bc8d4b, 0x1487472c, 0x7a290d5d, 0x840abf27, 0x668b2ff8);
    NextWord(words, w, t + 6, 0xa43fcf15, 0xb20f7a99, 0x065c43da, 0x7a290d5d, 0xeeaba2cc);
    NextWord(words, w, t + 7, 0x668b2ff8, 0xef57b9cd, 0xfb3e89cb, 0x065c43da, 0x12b1edeb);
  }

  // ----- the rounds

  const STATE8: Hash :=
    Hash(Word(0x85a07b5f), Word(0xe5030380), Word(0x2b4209f5), Word(0x04409a6a),
         Word(0x0c657a79), Word(0x9b27a401), Word(0x714260ad), Word(0x43ada245))

  const STATE16: Hash :=
    Hash(Word(0xb0fa238e), Word(0xc0645fde), Word(0xd932eb16), Word(0x87912990),
         Word(0x07590dcd), Word(0x0b92f20c), Word(0x745a48de), Word(0x1e578218))

  const STATE24: Hash :=
    Hash(Word(0xc5d53d8d), Word(0xa7a3623f), Word(0xc2606d6d), Word(0x9dc68b63),
         Word(0xaa47c347), Word(0x49f5114a), Word(0xe1257970), Word(0x8ada8930))

  const STATE32: Hash :=
    Hash(Word(0x73b33bf5), Word(0xea992a22), Word(0xa0060b30), Word(0x363482c9),
         Word(0xba591112), Word(0x0109ab3a), Word(0xade79437), Word(0x6112a3b7))

  const STATE40: Hash :=
    Hash(Word(0x79ea687a), Word(0x6dc57a8a), Word(0x34df1604), Word(0x41a65cb1),
         Word(0x1efbc0a0), Word(0xf0781bc8), Word(0xa507a53d), Word(0x0772a26b))

  const STATE48: Hash :=
    Hash(Word(0x4172328d), Word(0xa14c14b0), Word(0x72ab4b91), Word(0x26628815),
         Word(0xfecf0bc6), Word(0xd57b94a9), Word(0xb7755da1), Word(0xa80f11f0))

  const STATE56: Hash :=
    Hash(Word(0x38cc9913), Word(0x3ec45cdb), Word(0xf5702fdb), Word(0x101fd28f),
         Word(0x54cb266b), Word(0xe50e1b4f), Word(0x9f4787c3), Word(0x529e7d00))

  const STATE64: Hash :=
    Hash(Word(0x506e3058), Word(0xd39a2165), Word(0x04d24d6c), Word(0xb85e2ce9),
         Word(0x5ef50f24), Word(0xfb121210), Word(0x948d25b6), Word(0x961f4894))

  /** Eight round constants, from place `t` on. */
  predicate Column(k: seq<bv32>, t: nat, a: bv32, b: bv32, c: bv32, d: bv32, e: bv32, f: bv32, g: bv32, h: bv32) {
    && t + 8 <= |k| && k[t] == a && k[t + 1] == b && k[t + 2] == c && k[t + 3] == d
    && k[t + 4] == e && k[t + 5] == f && k[t + 6] == g && k[t + 7] == h
  }

  predicate Constants0(k: seq<bv32>, t: nat) {
    Column(k, t, 0x428a2f98, 0x71374491, 0xb5c0fbcf, 0xe9b5dba5,
              0x3956c25b, 0x59f111f1, 0x923f82a4, 0xab1c5ed5)
  }

  predicate Constants8(k: seq<bv32>, t: nat) {
    Column(k, t, 0xd807aa98, 0x12835b01, 0x243185be, 0x550c7dc3,
              0x72be5d74, 0x80deb1fe, 0x9bdc06a7, 0xc19bf174)
  }

  predicate Constants16(k: seq<bv32>, t: nat) {
    Column(k, t, 0xe49b69c1, 0xefbe4786, 0x0fc19dc6, 0x240ca1cc,
              0x2de92c6f, 0x4a7484aa, 0x5cb0a9dc, 0x76f988da)
  }

  predicate Constants24(k: seq<bv32>, t: nat) {
    Column(k, t, 0x983e5152, 0xa831c66d, 0xb00327c8, 0xbf597fc7,
              0xc6e00bf3, 0xd5a79147, 0x06ca6351, 0x14292967)
  }

  predicate Constants32(k: seq<bv32>, t: nat) {
    Column(k, t, 0x27b70a85, 0x2e1b2138, 0x4d2c6dfc, 0x53380d13,
              0x650a7354, 0x766a0abb, 0x81c2c92e, 0x92722c85)
  }

  predicate Constants40(k: seq<bv32>, t: nat) {
    Column(k, t, 0xa2bfe8a1, 0xa81a664b, 0xc24b8b70, 0xc76c51a3,
              0xd192e819, 0xd6990624, 0xf40e3585, 0x106aa070)
  }

  predicate Constants48(k: seq<bv32>, t: nat) {
    Column(k, t, 0x19a4c116, 0x1e376c08, 0x2748774c, 0x34b0bcb5,
              0x391c0cb3, 0x4ed8aa4a, 0x5b9cca4f, 0x682e6ff3)
  }

  predicate Constants56(k: seq<bv32>, t: nat) {
    Column(k, t, 0x748f82ee, 0x78a5636f, 0x84c87814, 0x8cc70208,
              0x90befffa, 0xa4506ceb, 0xbef9a3f7, 0xc67178f2)
  }

  lemma Compute0(start: Hash, k: seq<bv32>, w: seq<Word>, t: nat)
    requires t + 8 <= |k| && t + 8 <= |w| && Rounds(start, k, w, t) == INITIAL
    requires Constants0(k, t) && Words0(w, t)
    ensures Rounds(start, k, w, t + 8) == STATE8
  {
    assert Rounds(start, k, w, t + 1) ==
      Hash(Word(0x5d6aebcd), Word(0x6a09e667), Word(0xbb67ae85), Word(0x3c6ef372),
           Word(0xfa2a4622), Word(0x510e527f), Word(0x9b05688c), Word(0x1f83d9ab));
    assert Rounds(start, k, w, t + 2) ==
      Hash(Word(0x5a6ad9ad), Word(0x5d6aebcd), Word(0x6a09e667), Word(0xbb67ae85),
           Word(0x78ce7989), Word(0xfa2a4622), Word(0x510e527f), Word(0x9b05688c));
    assert Rounds(start, k, w, t + 3) ==
      Hash(Word(0xc8c347a7), Word(0x5a6ad9ad), Word(0x5d6aebcd), Word(0x6a09e667),
           Word(0xf92939eb), Word(0x78ce7989), Word(0xfa2a4622), Word(0x510e527f));
    assert Rounds(start, k, w, t + 4) ==
      Hash(Word(0xd550f666), Word(0xc8c347a7), Word(0x5a6ad9ad), Word(0x5d6aebcd),
           Word(0x24e00850), Word(0xf92939eb), Word(0x78ce7989), Word(0xfa2a4622));
    assert Rounds(start, k, w, t + 5) ==
      Hash(Word(0x04409a6a), Word(0xd550f666), Word(0xc8c347a7), Word(0x5a6ad9ad),
           Word(0x43ada245), Word(0x24e00850), Word(0xf92939eb), Word(0x78ce7989));
    assert Rounds(start, k, w, t + 6) ==
      Hash(Word(0x2b4209f5), Word(0x04409a6a), Word(0xd550f666), Word(0xc8c347a7),
           Word(0x714260ad), Word(0x43ada245), Word(0x24e00850), Word(0xf92939eb));
    assert Rounds(start, k, w, t + 7) ==
      Hash(Word(0xe5030380), Word(0x2b4209f5), Word(0x04409a6a), Word(0xd550f666),
           Word(0x9b27a401), Word(0x714260ad), Word(0x43ada245), Word(0x24e00850));
  }

  lemma Compute8(start: Hash, k: seq<bv32>, w: seq<Word>, t: nat)
    requires t + 8 <= |k| && t + 8 <= |w| && Rounds(start, k, w, t) == STATE8
    requires Constants8(k, t) && Words8(w, t)
    ensures Rounds(start, k, w, t + 8) == STATE16
  {
    assert Rounds(start, k, w, t + 1) ==
      Hash(Word(0x8e04ecb9), Word(0x85a07b5f), Word(0xe5030380), Word(0x2b4209f5),
           Word(0x32ca2d8c), Word(0x0c657a79), Word(0x9b27a401), Word(0x714260ad));
    assert Rounds(start, k, w, t + 2) ==
      Hash(Word(0x8c87346b), Word(0x8e04ecb9), Word(0x85a07b5f), Word(0xe5030380),
           Word(0x1cc92596), Word(0x32ca2d8c), Word(0x0c657a79), Word(0x9b27a401));
    assert Rounds(start, k, w, t + 3) ==
      Hash(Word(0x4798a3f4), Word(0x8c87346b), Word(0x8e04ecb9), Word(0x85a07b5f),
           Word(0x436b23e8), Word(0x1cc92596), Word(0x32ca2d8c), Word(0x0c657a79));
    assert Rounds(start, k, w, t + 4) ==
      Hash(Word(0xf71fc5a9), Word(0x4798a3f4), Word(0x8c87346b), Word(0x8e04ecb9),
           Word(0x816fd6e9), Word(0x436b23e8), Word(0x1cc92596), Word(0x32ca2d8c));
    assert Rounds(start, k, w, t + 5) ==
      Hash(Word(0x87912990), Word(0xf71fc5a9), Word(0x4798a3f4), Word(0x8c87346b),
           Word(0x1e578218), Word(0x816fd6e9), Word(0x436b23e8), Word(0x1cc92596));
    assert Rounds(start, k, w, t + 6) ==
      Hash(Word(0xd932eb16), Word(0x87912990), Word(0xf71fc5a9), Word(0x4798a3f4),
           Word(0x745a48de), Word(0x1e578218), Word(0x816fd6e9), Word(0x436b23e8));
    assert Rounds(start, k, w, t + 7) ==
      Hash(Word(0xc0645fde), Word(0xd932eb16), Word(0x87912990), Word(0xf71fc5a9),
           Word(0x0b92f20c), Word(0x745a48de), Word(0x1e578218), Word(0x816fd6e9));
  }

  lemma Compute16(start: Hash, k: seq<bv32>, w: seq<Word>, t: nat)
    requires t + 8 <= |k| && t + 8 <= |w| && Rounds(start, k, w, t) == STATE16
    requires Constants16(k, t) && Words16(w, t)
    ensures Rounds(start, k, w, t + 8) == STATE24
  {
    assert Rounds(start, k, w, t + 1) ==
      Hash(Word(0x21da9a9b), Word(0xb0fa238e), Word(0xc0645fde), Word(0xd932eb16),
           Word(0x8034229c), Word(0x07590dcd), Word(0x0b92f20c), Word(0x745a48de));
    assert Rounds(start, k, w, t + 2) ==
      Hash(Word(0xc2fbd9d1), Word(0x21da9a9b), Word(0xb0fa238e), Word(0xc0645fde),
           Word(0x846ee454), Word(0x8034229c), Word(0x07590dcd), Word(0x0b92f20c));
    assert Rounds(start, k, w, t + 3) ==
      Hash(Word(0xfe777bbf), Word(0xc2fbd9d1), Word(0x21da9a9b), Word(0xb0fa238e),
           Word(0xcc899961), Word(0x846ee454), Word(0x8034229c), Word(0x07590dcd));
    assert Rounds(start, k, w, t + 4) ==
      Hash(Word(0xe1f20c33), Word(0xfe777bbf), Word(0xc2fbd9d1), Word(0x21da9a9b),
           Word(0xb0638179), Word(0xcc899961), Word(0x846ee454), Word(0x8034229c));
    assert Rounds(start, k, w, t + 5) ==
      Hash(Word(0x9dc68b63), Word(0xe1f20c33), Word(0xfe777bbf), Word(0xc2fbd9d1),
           Word(0x8ada8930), Word(0xb0638179), Word(0xcc899961), Word(0x846ee454));
    assert Rounds(start, k, w, t + 6) ==
      Hash(Word(0xc2606d6d), Word(0x9dc68b63), Word(0xe1f20c33), Word(0xfe777bbf),
           Word(0xe1257970), Word(0x8ada8930), Word(0xb0638179), Word(0xcc899961));
    assert Rounds(start, k, w, t + 7) ==
      Hash(Word(0xa7a3623f), Word(0xc2606d6d), Word(0x9dc68b63), Word(0xe1f20c33),
           Word(0x49f5114a), Word(0xe1257970), Word(0x8ada8930), Word(0xb0638179));
  }

  lemma Compute24(start: Hash, k: seq<bv32>, w: seq<Word>, t: nat)
    requires t + 8 <= |k| && t + 8 <= |w| && Rounds(start, k, w, t) == STATE24
    requires Constants24(k, t) && Words24(w, t)
    ensures Rounds(start, k, w, t + 8) == STATE32
  {
    assert Rounds(start, k, w, t + 1) ==
      Hash(Word(0x1c2c2838), Word(0xc5d53d8d), Word(0xa7a3623f), Word(0xc2606d6d),
           Word(0x2823ef91), Word(0xaa47c347), Word(0x49f5114a), Word(0xe1257970));
    assert Rounds(start, k, w, t + 2) ==
      Hash(Word(0xcde8037d), Word(0x1c2c2838), Word(0xc5d53d8d), Word(0xa7a3623f),
           Word(0x14383d8e), Word(0x2823ef91), Word(0xaa47c347), Word(0x49f5114a));
    assert Rounds(start, k, w, t + 3) ==
      Hash(Word(0xb62ec4bc), Word(0xcde8037d), Word(0x1c2c2838), Word(0xc5d53d8d),
           Word(0xc74c6516), Word(0x14383d8e), Word(0x2823ef91), Word(0xaa47c347));
    assert Rounds(start, k, w, t + 4) ==
      Hash(Word(0x77d37528), Word(0xb62ec4bc), Word(0xcde8037d), Word(0x1c2c2838),
           Word(0xedffbff8), Word(0xc74c6516), Word(0x14383d8e), Word(0x2823ef91));
    assert Rounds(start, k, w, t + 5) ==
      Hash(Word(0x363482c9), Word(0x77d37528), Word(0xb62ec4bc), Word(0xcde8037d),
           Word(0x6112a3b7), Word(0xedffbff8), Word(0xc74c6516), Word(0x14383d8e));
    assert Rounds(start, k, w, t + 6) ==
      Hash(Word(0xa0060b30), Word(0x363482c9), Word(0x77d37528), Word(0xb62ec4bc),
           Word(0xade79437), Word(0x6112a3b7), Word(0xedffbff8), Word(0xc74c6516));
    assert Rounds(start, k, w, t + 7) ==
      Hash(Word(0xea992a22), Word(0xa0060b30), Word(0x363482c9), Word(0x77d37528),
           Word(0x0109ab3a), Word(0xade79437), Word(0x6112a3b7), Word(0xedffbff8));
  }

  lemma Compute32(start: Hash, k: seq<bv32>, w: seq<Word>, t: nat)
    requires t + 8 <= |k| && t + 8 <= |w| && Rounds(start, k, w, t) == STATE32
    requires Constants32(k, t) && Words32(w, t)
    ensures Rounds(start, k, w, t + 8) == STATE40
  {
    assert Rounds(start, k, w, t + 1) ==
      Hash(Word(0x98e12507), Word(0x73b33bf5), Word(0xea992a22), Word(0xa0060b30),
           Word(0x9cd9f5f6), Word(0xba591112), Word(0x0109ab3a), Word(0xade79437));
    assert Rounds(start, k, w, t + 2) ==
      Hash(Word(0xfe604df5), Word(0x98e12507), Word(0x73b33bf5), Word(0xea992a22),
           Word(0x59249dd3), Word(0x9cd9f5f6), Word(0xba591112), Word(0x0109ab3a));
    assert Rounds(start, k, w, t + 3) ==
      Hash(Word(0xa9a7738c), Word(0xfe604df5), Word(0x98e12507), Word(0x73b33bf5),
           Word(0x085f3833), Word(0x59249dd3), Word(0x9cd9f5f6), Word(0xba591112));
    assert Rounds(start, k, w, t + 4) ==
      Hash(Word(0x65a0cfe4), Word(0xa9a7738c), Word(0xfe604df5), Word(0x98e12507),
           Word(0xf4b002d6), Word(0x085f3833), Word(0x59249dd3), Word(0x9cd9f5f6));
    assert Rounds(start, k, w, t + 5) ==
      Hash(Word(0x41a65cb1), Word(0x65a0cfe4), Word(0xa9a7738c), Word(0xfe604df5),
           Word(0x0772a26b), Word(0xf4b002d6), Word(0x085f3833), Word(0x59249dd3));
    assert Rounds(start, k, w, t + 6) ==
      Hash(Word(0x34df1604), Word(0x41a65cb1), Word(0x65a0cfe4), Word(0xa9a7738c),
           Word(0xa507a53d), Word(0x0772a26b), Word(0xf4b002d6), Word(0x085f3833));
    assert Rounds(start, k, w, t + 7) ==
      Hash(Word(0x6dc57a8a), Word(0x34df1604), Word(0x41a65cb1), Word(0x65a0cfe4),
           Word(0xf0781bc8), Word(0xa507a53d), Word(0x0772a26b), Word(0xf4b002d6));
  }

  lemma Compute40(start: Hash, k: seq<bv32>, w: seq<Word>, t: nat)
    requires t + 8 <= |k| && t + 8 <= |w| && Rounds(start, k, w, t) == STATE40
    requires Constants40(k, t) && Words40(w, t)
    ensures Rounds(start, k, w, t + 8) == STATE48
  {
    assert Rounds(start, k, w, t + 1) ==
      Hash(Word(0xd6670766), Word(0x79ea687a), Word(0x6dc57a8a), Word(0x34df1604),
           Word(0x26352d63), Word(0x1efbc0a0), Word(0xf0781bc8), Word(0xa507a53d));
    assert Rounds(start, k, w, t + 2) ==
      Hash(Word(0xdf46652f), Word(0xd6670766), Word(0x79ea687a), Word(0x6dc57a8a),
           Word(0x838b2711), Word(0x26352d63), Word(0x1efbc0a0), Word(0xf0781bc8));
    assert Rounds(start, k, w, t + 3) ==
      Hash(Word(0x17aa0dfe), Word(0xdf46652f), Word(0xd6670766), Word(0x79ea687a),
           Word(0xdecd4715), Word(0x838b2711), Word(0x26352d63), Word(0x1efbc0a0));
    assert Rounds(start, k, w, t + 4) ==
      Hash(Word(0x9d4baf93), Word(0x17aa0dfe), Word(0xdf46652f), Word(0xd6670766),
           Word(0xfda24c2e), Word(0xdecd4715), Word(0x838b2711), Word(0x26352d63));
    assert Rounds(start, k, w, t + 5) ==
      Hash(Word(0x26628815), Word(0x9d4baf93), Word(0x17aa0dfe), Word(0xdf46652f),
           Word(0xa80f11f0), Word(0xfda24c2e), Word(0xdecd4715), Word(0x838b2711));
    assert Rounds(start, k, w, t + 6) ==
      Hash(Word(0x72ab4b91), Word(0x26628815), Word(0x9d4baf93), Word(0x17aa0dfe),
           Word(0xb7755da1), Word(0xa80f11f0), Word(0xfda24c2e), Word(0xdecd4715));
    assert Rounds(start, k, w, t + 7) ==
      Hash(Word(0xa14c14b0), Word(0x72ab4b91), Word(0x26628815), Word(0x9d4baf93),
           Word(0xd57b94a9), Word(0xb7755da1), Word(0xa80f11f0), Word(0xfda24c2e));
  }

  lemma Compute48(start: Hash, k: seq<bv32>, w: seq<Word>, t: nat)
    requires t + 8 <= |k| && t + 8 <= |w| && Rounds(start, k, w, t) == STATE48
    requires Constants48(k, t) && Words48(w, t)
    ensures Rounds(start, k, w, t + 8) == STATE56
  {
    assert Rounds(start, k, w, t + 1) ==
      Hash(Word(0x05757ceb), Word(0x4172328d), Word(0xa14c14b0), Word(0x72ab4b91),
           Word(0xbd714038), Word(0xfecf0bc6), Word(0xd57b94a9), Word(0xb7755da1));
    assert Rounds(start, k, w, t + 2) ==
      Hash(Word(0xf11bfaa8), Word(0x05757ceb), Word(0x4172328d), Word(0xa14c14b0),
           Word(0x6e5c390c), Word(0xbd714038), Word(0xfecf0bc6), Word(0xd57b94a9));
    assert Rounds(start, k, w, t + 3) ==
      Hash(Word(0x7a0508a1), Word(0xf11bfaa8), Word(0x05757ceb), Word(0x4172328d),
           Word(0x52f1ccf7), Word(0x6e5c390c), Word(0xbd714038), Word(0xfecf0bc6));
    assert Rounds(start, k, w, t + 4) ==
      Hash(Word(0x886e7a22), Word(0x7a0508a1), Word(0xf11bfaa8), Word(0x05757ceb),
           Word(0x49231c1e), Word(0x52f1ccf7), Word(0x6e5c390c), Word(0xbd714038));
    assert Rounds(start, k, w, t + 5) ==
      Hash(Word(0x101fd28f), Word(0x886e7a22), Word(0x7a0508a1), Word(0xf11bfaa8),
           Word(0x529e7d00), Word(0x49231c1e), Word(0x52f1ccf7), Word(0x6e5c390c));
    assert Rounds(start, k, w, t + 6) ==
      Hash(Word(0xf5702fdb), Word(0x101fd28f), Word(0x886e7a22), Word(0x7a0508a1),
           Word(0x9f4787c3), Word(0x529e7d00), Word(0x49231c1e), Word(0x52f1ccf7));
    assert Rounds(start, k, w, t + 7) ==
      Hash(Word(0x3ec45cdb), Word(0xf5702fdb), Word(0x101fd28f), Word(0x886e7a22),
           Word(0xe50e1b4f), Word(0x9f4787c3), Word(0x529e7d00), Word(0x49231c1e));
  }

  lemma Compute56(start: Hash, k: seq<bv32>, w: seq<Word>, t: nat)
    requires t + 8 <= |k| && t + 8 <= |w| && Rounds(start, k, w, t) == STATE56
    requires Constants56(k, t) && Words56(w, t)
    ensures Rounds(start, k, w, t + 8) == STATE64
  {
    assert Rounds(start, k, w, t + 1) ==
      Hash(Word(0xfcd1887b), Word(0x38cc9913), Word(0x3ec45cdb), Word(0xf5702fdb),
           Word(0x9b5e906c), Word(0x54cb266b), Word(0xe50e1b4f), Word(0x9f4787c3));
    assert Rounds(start, k, w, t + 2) ==
      Hash(Word(0xc062d46f), Word(0xfcd1887b), Word(0x38cc9913), Word(0x3ec45cdb),
           Word(0x7e44008e), Word(0x9b5e906c), Word(0x54cb266b), Word(0xe50e1b4f));
    assert Rounds(start, k, w, t + 3) ==
      Hash(Word(0xffb70472), Word(0xc062d46f), Word(0xfcd1887b), Word(0x38cc9913),
           Word(0x6d83bfc6), Word(0x7e44008e), Word(0x9b5e906c), Word(0x54cb266b));
    assert Rounds(start, k, w, t + 4) ==
      Hash(Word(0xb6ae8fff), Word(0xffb70472), Word(0xc062d46f), Word(0xfcd1887b),
           Word(0xb21bad3d), Word(0x6d83bfc6), Word(0x7e44008e), Word(0x9b5e906c));
    assert Rounds(start, k, w, t + 5) ==
      Hash(Word(0xb85e2ce9), Word(0xb6ae8fff), Word(0xffb70472), Word(0xc062d46f),
           Word(0x961f4894), Word(0xb21bad3d), Word(0x6d83bfc6), Word(0x7e44008e));
    assert Rounds(start, k, w, t + 6) ==
      Hash(Word(0x04d24d6c), Word(0xb85e2ce9), Word(0xb6ae8fff), Word(0xffb70472),
           Word(0x948d25b6), Word(0x961f4894), Word(0xb21bad3d), Word(0x6d83bfc6));
    assert Rounds(start, k, w, t + 7) ==
      Hash(Word(0xd39a2165), Word(0x04d24d6c), Word(0xb85e2ce9), Word(0xb6ae8fff),
           Word(0xfb121210), Word(0x948d25b6), Word(0x961f4894), Word(0xb21bad3d));
  }

  lemma ConstantRow0(k: seq<bv32>)
    requires k == K
    ensures Constants0(k, 0)
  {
    assert k[0..16] == K_0;
    assert forall t :: 0 <= t < 8 ==> k[t] == k[0..16][t - 0];
  }

  lemma ConstantRow8(k: seq<bv32>)
    requires k == K
    ensures Constants8(k, 8)
  {
    assert k[0..16] == K_0;
    assert forall t :: 8 <= t < 16 ==> k[t] == k[0..16][t - 0];
  }

  lemma ConstantRow16(k: seq<bv32>)
    requires k == K
    ensures Constants16(k, 16)
  {
    assert k[16..32] == K_16;
    assert forall t :: 16 <= t < 24 ==> k[t] == k[16..32][t - 16];
  }

  lemma ConstantRow24(k: seq<bv32>)
    requires k == K
    ensures Constants24(k, 24)
  {
    assert k[16..32] == K_16;
    assert forall t :: 24 <= t < 32 ==> k[t] == k[16..32][t - 16];
  }

  lemma ConstantRow32(k: seq<bv32>)
    requires k == K
    ensures Constants32(k, 32)
  {
    assert k[32..48] == K_32;
    assert forall t :: 32 <= t < 40 ==> k[t] == k[32..48][t - 32];
  }

  lemma ConstantRow40(k: seq<bv32>)
    requires k == K
    ensures Constants40(k, 40)
  {
    assert k[32..48] == K_32;
    assert forall t :: 40 <= t < 48 ==> k[t] == k[32..48][t - 32];
  }

  lemma ConstantRow48(k: seq<bv32>)
    requires k == K
    ensures Constants48(k, 48)
  {
    assert k[48..64] == K_48;
    assert forall t :: 48 <= t < 56 ==> k[t] == k[48..64][t - 48];
  }

  lemma ConstantRow56(k: seq<bv32>)
    requires k == K
    ensures Constants56(k, 56)
  {
    assert k[48..64] == K_48;
    assert forall t :: 56 <= t < 64 ==> k[t] == k[48..64][t - 48];
  }

  lemma ScheduleRows(words: seq<Word>, w: seq<Word>)
    requires words == BLOCK && |w| == 64 && w == Schedule(words, |w|)
    ensures Words0(w, 0) && Words8(w, 8) && Words16(w, 16) && Words24(w, 24)
    ensures Words32(w, 32) && Words40(w, 40) && Words48(w, 48) && Words56(w, 56)
  {
    FirstWords(words, w);
    Schedule16(words, w, 16);
    Schedule24(words, w, 24);
    Schedule32(words, w, 32);
    Schedule40(words, w, 40);
    Schedule48(words, w, 48);
    Schedule56(words, w, 56);
  }

  lemma HalfOfRounds(start: Hash, k: seq<bv32>, w: seq<Word>, t: nat)
    requires start == INITIAL && |k| == |w| == 64 && t == 0
    requires Constants0(k, 0) && Constants8(k, 8) && Constants16(k, 16) && Constants24(k, 24)
    requires Words0(w, 0) && Words8(w, 8) && Words16(w, 16) && Words24(w, 24)
    ensures Rounds(start, k, w, t + 32) == STATE32
  {
    Compute0(start, k, w, t + 0);
    Compute8(start, k, w, t + 8);
    Compute16(start, k, w, t + 16);
    Compute24(start, k, w, t + 24);
  }

  lemma OtherRounds(start: Hash, k: seq<bv32>, w: seq<Word>, t: nat)
    requires |k| == |w| == 64 && t == 32 && Rounds(start, k, w, t) == STATE32
    requires Constants32(k, 32) && Constants40(k, 40) && Constants48(k, 48) && Constants56(k, 56)
    requires Words32(w, 32) && Words40(w, 40) && Words48(w, 48) && Words56(w, 56)
    ensures Rounds(start, k, w, t + 32) == STATE64
  {
    Compute32(start, k, w, t + 0);
    Compute40(start, k, w, t + 8);
    Compute48(start, k, w, t + 16);
    Compute56(start, k, w, t + 24);
  }

  /** All rounds. */
  lemma AllRounds(start: Hash, words: seq<Word>, k: seq<bv32>, w: seq<Word>, t: nat)
    requires start == INITIAL && words == BLOCK && k == K && |w| == 64 && w == Schedule(words, |w|) && t == 0
    ensures Rounds(start, k, w, t + 32 + 32) == STATE64
  {
    ConstantRow0(k);
    ConstantRow8(k);
    ConstantRow16(k);
    ConstantRow24(k);
    ScheduleRows(words, w);
    HalfOfRounds(start, k, w, t);
    ConstantRow32(k);
    ConstantRow40(k);
    ConstantRow48(k);
    ConstantRow56(k);
    OtherRounds(start, k, w, t + 32);
  }

  lemma FirstWords(words: seq<Word>, w: seq<Word>)
    requires words == BLOCK && |w| == 64 && w == Schedule(words, |w|)
    ensures Words0(w, 0) && Words8(w, 8)
  {
    assert w[..16] == words by {
      forall t: nat | t < 16
        ensures w[t] == words[t]
      {
        ScheduleAt(words, |w|, t);
      }
    }
    FirstRow(words, w);
    SecondRow(words, w);
  }

  lemma FirstRow(words: seq<Word>, w: seq<Word>)
    requires words == BLOCK && |w| == 64 && w[..16] == words
    ensures Words0(w, 0)
  {
    assert forall t :: 0 <= t < 8 ==> w[t] == w[..16][t];
  }

  lemma SecondRow(words: seq<Word>, w: seq<Word>)
    requires words == BLOCK && |w| == 64 && w[..16] == words
    ensures Words8(w, 8)
  {
    assert forall t :: 8 <= t < 16 ==> w[t] == w[..16][t];
  }

  // ----- the digest

  const DIGEST: Message := [
    0xba, 0x78, 0x16, 0xbf, 0x8f, 0x01, 0xcf, 0xea,
    0x41, 0x41, 0x40, 0xde, 0x5d, 0xae, 0x22, 0x23,
    0xb0, 0x03, 0x61, 0xa3, 0x96, 0x17, 0x7a, 0x9c,
    0xb4, 0x10, 0xff, 0x61, 0xf2, 0x00, 0x15, 0xad]

  lemma {:induction false} BlockWordAt(block: Block, n: nat, i: nat)
    requires i < n <= 16
    ensures BlockWords(block, n)[i] == BigEndian(block[4 * i], block[4 * i + 1], block[4 * i + 2], block[4 * i + 3])
  {
    if i < n - 1 {
      BlockWordAt(block, n - 1, i);
    }
  }

  /** The length of the message in bits ends the block. */
  lemma PaddedLength()
    ensures |Pad(ABC)| == 64
    ensures Pad(ABC)[56..] == [0, 0, 0, 0, 0, 0, 0, 24]
  {
    assert Pad(ABC)[56..] == LengthBytes(BitLength(3));
    assert BitLength(3) == 24;
  }

  lemma PaddedBytes(k: nat)
    requires k < 64
    ensures |Pad(ABC)| == 64
    ensures Pad(ABC)[k] == if k < 3 then ABC[k] else if k == 3 then 0x80 else if k == 63 then 24 else 0
  {
    PaddedLength();
    if 3 <= k < 56 {
      PadMarker(ABC, k);
    } else if k >= 56 {
      assert Pad(ABC)[k] == Pad(ABC)[56..][k - 56];
    }
  }

  lemma PaddedBlock()
    ensures |Pad(ABC)| == 64 && BlockWords(Pad(ABC), 16) == BLOCK
  {
    PaddedLength();
    forall i: nat | i < 16
      ensures BlockWords(Pad(ABC), 16)[i] == BLOCK[i]
    {
      BlockWordAt(Pad(ABC), 16, i);
      PaddedBytes(4 * i);
      PaddedBytes(4 * i + 1);
      PaddedBytes(4 * i + 2);
      PaddedBytes(4 * i + 3);
    }
  }

  lemma OneBlock(block: Block)
    requires block == Pad(ABC)
    ensures Digest(ABC) == HashBytes(Compress(INITIAL, block))
  {
    HashMore([], 0, block);
    assert [] + block == block;
  }

  lemma CompressBlock(block: Block)
    requires block == Pad(ABC)
    ensures Compress(INITIAL, block) == Plus(INITIAL, STATE64)
  {
    PaddedBlock();
    var words := BlockWords(block, 16);
    AllRounds(INITIAL, words, K, Schedule(words, |K|), 0);
  }

  const FINAL: Hash :=
    Hash(Word(0xba7816bf), Word(0x8f01cfea), Word(0x414140de), Word(0x5dae2223),
         Word(0xb00361a3), Word(0x96177a9c), Word(0xb410ff61), Word(0xf20015ad))

  lemma FinalHash()
    ensures Plus(INITIAL, STATE64) == FINAL
  {
  }

  lemma FinalWords()
    ensures WordBytes(FINAL.a) == [0xba, 0x78, 0x16, 0xbf]
    ensures WordBytes(FINAL.b) == [0x8f, 0x01, 0xcf, 0xea]
    ensures WordBytes(FINAL.c) == [0x41, 0x41, 0x40, 0xde]
    ensures WordBytes(FINAL.d) == [0x5d, 0xae, 0x22, 0x23]
    ensures WordBytes(FINAL.e) == [0xb0, 0x03, 0x61, 0xa3]
    ensures WordBytes(FINAL.f) == [0x96, 0x17, 0x7a, 0x9c]
    ensures WordBytes(FINAL.g) == [0xb4, 0x10, 0xff, 0x61]
    ensures WordBytes(FINAL.h) == [0xf2, 0x00, 0x15, 0xad]
  {
  }

  lemma FinalBytes()
    ensures HashBytes(FINAL) == DIGEST
  {
    FinalWords();
  }

  /** The digest of `abc`. */
  lemma AbcDigest()
    ensures Digest(ABC) == DIGEST
  {
    PaddedLength();
    OneBlock(Pad(ABC));
    CompressBlock(Pad(ABC));
    FinalHash();
    FinalBytes();
  }

  /** The class computes it, however the three bytes are passed. */
  method HashAbc(chunks: seq<Message>) returns (r: Message)
    requires Joined(chunks) == ABC
    ensures r == DIGEST
  {
    r := HashChunks(chunks);
    AbcDigest();
  }
}
