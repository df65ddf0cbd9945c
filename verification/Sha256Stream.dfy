/** The incremental hash as it runs: fields that are updated in place, a block that fills up. */
module Sha256Streams {
  import opened Sha256

  // ----- byte order on a little-endian machine

  /** A `uint32_t` read from four bytes. */
  function LoadWord(p: Octet, q: Octet, r: Octet, s: Octet): Word {
    Word((p as bv32) | (q as bv32 << 8) | (r as bv32 << 16) | (s as bv32 << 24))
  }

  /** `details::to_big_endian` of 32 bits. */
  function SwapWord(val: Word): Word {
    Word(((val.bits & 0xff000000) >> 24) | ((val.bits & 0x00ff0000) >> 8)
         | ((val.bits & 0x0000ff00) << 8) | ((val.bits & 0x000000ff) << 24))
  }

  /** `details::to_big_endian` of 64 bits. */
  function SwapLong(val: bv64): bv64 {
    ((val & 0xff00000000000000) >> 56) | ((val & 0x00ff000000000000) >> 40)
    | ((val & 0x0000ff0000000000) >> 24) | ((val & 0x000000ff00000000) >> 8)
    | ((val & 0x00000000ff000000) << 8) | ((val & 0x0000000000ff0000) << 24)
    | ((val & 0x000000000000ff00) << 40) | ((val & 0x00000000000000ff) << 56)
  }

  /** The bytes of a `uint32_t` in memory. */
  function StoreWord(w: Word): (r: Message)
    ensures |r| == 4
  {
    [(w.bits & 0xff) as Octet, ((w.bits >> 8) & 0xff) as Octet, ((w.bits >> 16) & 0xff) as Octet,
     (w.bits >> 24) as Octet]
  }

  /** The bytes of a `uint64_t` in memory. */
  function StoreLong(n: bv64): (r: Message)
    ensures |r| == 8
  {
    [(n & 0xff) as Octet, ((n >> 8) & 0xff) as Octet, ((n >> 16) & 0xff) as Octet, ((n >> 24) & 0xff) as Octet,
     ((n >> 32) & 0xff) as Octet, ((n >> 40) & 0xff) as Octet, ((n >> 48) & 0xff) as Octet, (n >> 56) as Octet]
  }

  lemma LoadSwapped(p: Octet, q: Octet, r: Octet, s: Octet)
    ensures SwapWord(LoadWord(p, q, r, s)) == BigEndian(p, q, r, s)
  {
  }

  lemma StoreSwapped(w: Word)
    ensures StoreWord(SwapWord(w)) == WordBytes(w)
  {
  }

  lemma StoreSwappedLong(n: bv64)
    ensures StoreLong(SwapLong(n)) == LengthBytes(n)
  {
  }

  lemma AddModulo(x: nat, y: nat)
    ensures (x % TWO_64 + y) % TWO_64 == (x + y) % TWO_64
  {
  }

  // ----- the last block or two

  /** The bytes behind the last full block, the marker and zeros up to `end`. */
  function Tail(rest: Message, end: nat): (r: Message)
    requires |rest| < end
    ensures |r| == end
  {
    rest + [0x80] + Zeros(end - |rest| - 1)
  }

  /** Padding that fits into the block that is being filled. */
  lemma PadOne(m: Message, n: nat)
    requires 64 * n <= |m| < 64 * n + 56
    ensures PadBlocks(|m|) == n + 1
    ensures Pad(m) == m[..64 * n] + (Tail(m[64 * n..], 56) + LengthBytes(BitLength(|m|)))
  {
    var rest := m[64 * n..];
    assert ZeroCount(|m|) == 55 - |rest|;
    Regroup(m[..64 * n], rest, [0x80], Zeros(55 - |rest|), LengthBytes(BitLength(|m|)));
    assert m[..64 * n] + rest == m;
  }

  /** Padding that takes one more block. */
  lemma PadTwo(m: Message, n: nat)
    requires 64 * n + 56 <= |m| < 64 * n + 64
    ensures PadBlocks(|m|) == n + 2
    ensures Pad(m) == m[..64 * n] + Tail(m[64 * n..], 64) + (Zeros(56) + LengthBytes(BitLength(|m|)))
  {
    var rest, len := m[64 * n..], LengthBytes(BitLength(|m|));
    assert ZeroCount(|m|) == 119 - |rest|;
    assert Zeros(119 - |rest|) == Zeros(63 - |rest|) + Zeros(56);
    Regroup(m[..64 * n], rest, [0x80], Zeros(63 - |rest|) + Zeros(56), len);
    RegroupLong(m[..64 * n], rest + [0x80], Zeros(63 - |rest|), Zeros(56), len);
    assert m[..64 * n] + rest == m;
  }

  lemma Regroup(a: Message, b: Message, c: Message, d: Message, e: Message)
    ensures a + b + (c + d + e) == a + (b + c + d + e)
  {
  }

  lemma RegroupLong(a: Message, b: Message, c: Message, d: Message, e: Message)
    ensures a + (b + (c + d) + e) == a + (b + c) + (d + e)
  {
  }

  // ----- the class

  /** The words of one block, read the way the machine reads them. */
  method LoadBlock(data: Message, i: nat) returns (words: array<Word>)
    requires 64 * i + 64 <= |data|
    ensures fresh(words) && words.Length == 16 && words[..] == BlockWords(data[64 * i..64 * i + 64], 16)
  {
    words := new Word[16](_ => Word(0));
    ghost var block := data[64 * i..64 * i + 64];
    for j := 0 to 16
      invariant words[..j] == BlockWords(block, j)
    {
      var at := 64 * i + 4 * j;
      words[j] := SwapWord(LoadWord(data[at], data[at + 1], data[at + 2], data[at + 3]));
      LoadSwapped(data[at], data[at + 1], data[at + 2], data[at + 3]);
    }
    assert words[..16] == words[..];
  }

  /** The message schedule. */
  method ExpandBlock(words: array<Word>) returns (w: array<Word>)
    requires words.Length == 16
    ensures fresh(w) && w.Length == 64 && w[..] == Schedule(words[..], w.Length)
  {
    w := new Word[64](_ => Word(0));
    for t := 0 to 16
      invariant w[..t] == words[..t]
    {
      w[t] := words[t];
    }
    for t := 16 to 64
      invariant w[..t] == Schedule(words[..], t)
    {
      ghost var done := w[..t];
      w[t] := Add(Add(Add(Sigma1(w[t - 2]), w[t - 7]), Sigma0(w[t - 15])), w[t - 16]);
      assert w[..t + 1] == done + [w[t]];
    }
    assert w[..w.Length] == w[..];
  }

  /** The rounds. */
  method RunRounds(start: Hash, k: seq<bv32>, w: array<Word>) returns (s: Hash)
    requires w.Length == |k|
    ensures s == Rounds(start, k, w[..], |k|)
  {
    var a, b, c, d, e, f, g, h := start.a, start.b, start.c, start.d, start.e, start.f, start.g, start.h;
    for t := 0 to |k|
      invariant Hash(a, b, c, d, e, f, g, h) == Rounds(start, k, w[..], t)
    {
      var t1 := Add(Add(Add(Add(h, Sum1(e)), Ch(e, f, g)), Word(k[t])), w[t]);
      var t2 := Add(Sum0(a), Maj(a, b, c));
      h := g;
      g := f;
      f := e;
      e := Add(d, t1);
      d := c;
      c := b;
      b := a;
      a := Add(t1, t2);
    }
    s := Hash(a, b, c, d, e, f, g, h);
  }

  class SHA256 {
    var pos: nat
    var total: nat
    const H: array<Word>
    const m: array<Octet>
    /** Everything that was passed to `Update`, and how many full blocks of it there are. */
    ghost var fed: Message
    ghost var blocks: nat

    ghost predicate Valid()
      reads this, H, m
    {
      && H.Length == 8 && m.Length == 64 && pos < 64
      && |fed| == 64 * blocks + pos && m[..pos] == fed[64 * blocks..]
      && total == 512 * blocks % TWO_64
      && State() == HashOf(fed[..64 * blocks], blocks)
    }

    ghost function State(): Hash
      reads this, H
      requires H.Length == 8
    {
      Hash(H[0], H[1], H[2], H[3], H[4], H[5], H[6], H[7])
    }

    constructor ()
      ensures Valid() && fed == [] && fresh(H) && fresh(m)
    {
      pos, total, fed, blocks := 0, 0, [], 0;
      H, m := new Word[8](_ => Word(0)), new Octet[64];
      new;
      H[0], H[1], H[2], H[3] := Word(0x6a09e667), Word(0xbb67ae85), Word(0x3c6ef372), Word(0xa54ff53a);
      H[4], H[5], H[6], H[7] := Word(0x510e527f), Word(0x9b05688c), Word(0x1f83d9ab), Word(0x5be0cd19);
    }

    /** One round of the loop of `transform`. */
    method TransformBlock(data: Message, i: nat)
      requires H.Length == 8 && 64 * i + 64 <= |data|
      modifies H
      ensures State() == Compress(old(State()), data[64 * i..64 * i + 64])
    {
      ghost var block := data[64 * i..64 * i + 64];
      var words := LoadBlock(data, i);
      var w := ExpandBlock(words);
      var s := RunRounds(Hash(H[0], H[1], H[2], H[3], H[4], H[5], H[6], H[7]), K, w);
      AddTo(s);
    }

    method AddTo(s: Hash)
      requires H.Length == 8
      modifies H
      ensures State() == Plus(old(State()), s)
    {
      H[0], H[1], H[2], H[3] := Add(H[0], s.a), Add(H[1], s.b), Add(H[2], s.c), Add(H[3], s.d);
      H[4], H[5], H[6], H[7] := Add(H[4], s.e), Add(H[5], s.f), Add(H[6], s.g), Add(H[7], s.h);
    }

    /** `TransformBlock` behind the blocks `done`. */
    method TransformNext(data: Message, i: nat, ghost done: Message, ghost before: nat)
      requires H.Length == 8 && 64 * i + 64 <= |data| && |done| == 64 * before
      requires State() == HashOf(done, before)
      modifies H
      ensures State() == HashOf(done + data[64 * i..64 * i + 64], before + 1)
    {
      HashMore(done, before, data[64 * i..64 * i + 64]);
      TransformBlock(data, i);
    }

    /** `transform` behind the blocks `done`. */
    method Transform(data: Message, n: nat, ghost done: Message, ghost before: nat)
      requires H.Length == 8 && |data| == 64 * n && |done| == 64 * before
      requires State() == HashOf(done, before)
      modifies H
      ensures State() == HashOf(done + data, before + n)
    {
      ghost var sofar := done;
      assert sofar == done + data[..0];
      for i := 0 to n
        invariant sofar == done + data[..64 * i] && |sofar| == 64 * (before + i)
        invariant State() == HashOf(sofar, before + i)
      {
        TransformNext(data, i, sofar, before + i);
        TakeBlock(done, data, i);
        sofar := sofar + data[64 * i..64 * i + 64];
      }
      assert sofar == done + data by { assert data[..64 * n] == data; }
    }

    /** `std::copy_n` into the current block. */
    method Fill(at: nat, piece: Message)
      requires m.Length == 64 && at + |piece| <= 64
      modifies m
      ensures m[..at + |piece|] == old(m[..at]) + piece
      ensures m[at + |piece|..] == old(m[at + |piece|..])
    {
      for i := 0 to |piece|
        invariant m[..at + i] == old(m[..at]) + piece[..i]
        invariant m[at + |piece|..] == old(m[at + |piece|..])
      {
        m[at + i] := piece[i];
        assert m[..at + i + 1] == m[..at + i] + [piece[i]];
        assert piece[..i + 1] == piece[..i] + [piece[i]];
      }
      assert piece[..|piece|] == piece;
    }

    /** The part of `update` that completes a block that was begun. */
    method Complete(data: Message)
      requires Valid() && pos != 0 && pos + |data| >= 64
      modifies this`pos, this`total, this`fed, this`blocks, H, m
      ensures Valid() && pos == 0 && fed == old(fed) + data[..64 - old(pos)]
    {
      ghost var done, begun := fed[..64 * blocks], fed[64 * blocks..];
      var piece := data[..64 - pos];
      Fill(pos, piece);
      assert m[..64] == m[..];
      Transform(m[..], 1, done, blocks);
      total := (total + 64 * 8) % TWO_64;
      AddModulo(512 * blocks, 512);
      NextBlock(fed, blocks, piece);
      fed, blocks, pos := fed + piece, blocks + 1, 0;
    }

    /** The part of `update` that transforms full blocks. */
    method TakeBlocks(data: Message, n: nat)
      requires Valid() && pos == 0 && |data| == 64 * n
      modifies this`total, this`fed, this`blocks, H
      ensures Valid() && fed == old(fed) + data
    {
      assert fed[..64 * blocks] == fed;
      Transform(data, n, fed, blocks);
      total := (total + 64 * n * 8) % TWO_64;
      AddModulo(512 * blocks, 512 * n);
      fed, blocks := fed + data, blocks + n;
      assert fed[..64 * blocks] == fed;
    }

    /** The part of `update` that keeps the rest for later. */
    method Keep(data: Message)
      requires Valid() && pos + |data| < 64
      modifies this`pos, this`fed, m
      ensures Valid() && fed == old(fed) + data
    {
      Fill(pos, data);
      KeepMore(fed, 64 * blocks, data);
      pos, fed := pos + |data|, fed + data;
    }

    /** `update` */
    method Update(data: Message)
      requires Valid()
      modifies this`pos, this`total, this`fed, this`blocks, H, m
      ensures Valid() && fed == old(fed) + data
    {
      var rest := data;
      if pos != 0 && pos + |rest| >= 64 {
        var n := 64 - pos;
        Complete(rest);
        rest := rest[n..];
      }
      assert old(fed) + data == fed + rest;
      if |rest| >= 64 {
        var n := |rest| / 64;
        var bytes := n * 64;
        TakeBlocks(rest[..bytes], n);
        rest := rest[bytes..];
      }
      assert old(fed) + data == fed + rest;
      Keep(rest);
    }

    /** `final`: the digest of everything that was passed to `update`. */
    method Final(digest: array<Octet>)
      requires Valid() && digest.Length >= 32 && digest != m
      modifies this`pos, this`total, H, m, digest
      ensures digest[..32] == Digest(old(fed))
      ensures digest[32..] == old(digest[32..])
    {
      ghost var begun := fed[64 * blocks..];
      AddModulo(512 * blocks, pos * 8);
      total := (total + pos * 8) % TWO_64;
      Fill(pos, [0x80]);
      pos := pos + 1;
      if pos > 64 - 8 {
        FinishTwo(begun);
      } else {
        FinishOne(begun);
      }
      WriteHash(digest);
    }

    /** The rest of `final` up to the digest when the length fits into the block. */
    method FinishOne(ghost begun: Message)
      requires H.Length == 8 && m.Length == 64 && pos <= 56 && |begun| + 1 == pos && m[..pos] == begun + [0x80]
      requires |fed| == 64 * blocks + |begun| && begun == fed[64 * blocks..]
      requires total == 8 * |fed| % TWO_64 && State() == HashOf(fed[..64 * blocks], blocks)
      modifies H, m
      ensures State() == HashOf(Pad(fed), PadBlocks(|fed|))
    {
      PadOne(fed, blocks);
      WriteLength(begun + [0x80]);
      Transform(m[..], 1, fed[..64 * blocks], blocks);
    }

    /** The rest of `final` up to the digest when the length needs one more block. */
    method FinishTwo(ghost begun: Message)
      requires H.Length == 8 && m.Length == 64 && 56 < pos <= 64 && |begun| + 1 == pos && m[..pos] == begun + [0x80]
      requires |fed| == 64 * blocks + |begun| && begun == fed[64 * blocks..]
      requires total == 8 * |fed| % TWO_64 && State() == HashOf(fed[..64 * blocks], blocks)
      modifies this`pos, H, m
      ensures State() == HashOf(Pad(fed), PadBlocks(|fed|))
    {
      PadTwo(fed, blocks);
      ghost var done, last := fed[..64 * blocks], Tail(begun, 64);
      FillUp(begun + [0x80]);
      Transform(m[..], 1, done, blocks);
      pos := 0;
      WriteLength([]);
      assert [] + Zeros(56) == Zeros(56);
      Transform(m[..], 1, done + last, blocks + 1);
    }

    /** Zeros up to the end of the block. */
    method FillUp(ghost head: Message)
      requires m.Length == 64 && pos == |head| <= 64 && m[..pos] == head
      modifies m
      ensures m[..] == head + Zeros(64 - pos)
    {
      if pos != 64 {
        Fill(pos, Zeros(64 - pos));
      } else {
        assert head + Zeros(0) == head;
      }
      assert m[..] == m[..64];
    }

    /** Zeros, and the length in the last eight bytes of the block. */
    method WriteLength(ghost head: Message)
      requires m.Length == 64 && pos == |head| <= 56 && m[..pos] == head && total < TWO_64
      modifies m
      ensures m[..] == head + Zeros(56 - pos) + LengthBytes(Wide(total))
    {
      FillUp(head);
      assert m[..56] == m[..][..56] == head + Zeros(56 - pos);
      StoreSwappedLong(Wide(total));
      Fill(56, StoreLong(SwapLong(Wide(total))));
      assert m[..] == m[..64];
    }

    /** The end of `final`: the words of the hash value in big-endian order. */
    method WriteHash(digest: array<Octet>)
      requires H.Length == 8 && digest.Length >= 32
      modifies H, digest
      ensures digest[..32] == HashBytes(old(State()))
      ensures digest[32..] == old(digest[32..])
    {
      ghost var s := State();
      for i := 0 to 8
        invariant forall k :: 0 <= k < 8 ==> H[k] == if k < i then SwapWord(old(H[k])) else old(H[k])
        invariant digest[..] == old(digest[..])
      {
        H[i] := SwapWord(H[i]);
      }
      CopyWords(digest, s);
    }

    method CopyWords(digest: array<Octet>, ghost s: Hash)
      requires H.Length == 8 && digest.Length >= 32
      requires forall k :: 0 <= k < 8 ==> H[k] == SwapWord(WordAt(s, k))
      modifies digest
      ensures digest[..32] == HashBytes(s)
      ensures digest[32..] == old(digest[32..])
    {
      for i := 0 to 8
        invariant digest[..4 * i] == HashPrefix(s, i)
        invariant digest[32..] == old(digest[32..])
      {
        var bytes := StoreWord(H[i]);
        StoreSwapped(WordAt(s, i));
        ghost var before := digest[..4 * i];
        digest[4 * i], digest[4 * i + 1] := bytes[0], bytes[1];
        digest[4 * i + 2], digest[4 * i + 3] := bytes[2], bytes[3];
        assert digest[..4 * (i + 1)] == before + bytes;
      }
      WholePrefix(s);
    }
  }

  function WordAt(s: Hash, i: nat): Word
    requires i < 8
  {
    match i
    case 0 => s.a
    case 1 => s.b
    case 2 => s.c
    case 3 => s.d
    case 4 => s.e
    case 5 => s.f
    case 6 => s.g
    case 7 => s.h
  }

  function HashPrefix(s: Hash, n: nat): (r: Message)
    requires n <= 8
    ensures |r| == 4 * n
  {
    if n == 0 then [] else HashPrefix(s, n - 1) + WordBytes(WordAt(s, n - 1))
  }

  lemma WholePrefix(s: Hash)
    ensures HashPrefix(s, 8) == HashBytes(s)
  {
    assert HashPrefix(s, 1) == WordBytes(s.a);
    assert HashPrefix(s, 2) == WordBytes(s.a) + WordBytes(s.b);
    assert HashPrefix(s, 4) == HashPrefix(s, 2) + WordBytes(s.c) + WordBytes(s.d);
    assert HashPrefix(s, 6) == HashPrefix(s, 4) + WordBytes(s.e) + WordBytes(s.f);
  }

  lemma KeepMore(fed: Message, start: nat, data: Message)
    requires start <= |fed|
    ensures (fed + data)[..start] == fed[..start] && (fed + data)[start..] == fed[start..] + data
  {
  }

  /** A block that becomes full. */
  lemma NextBlock(fed: Message, blocks: nat, piece: Message)
    requires |fed| + |piece| == 64 * blocks + 64 && |fed| >= 64 * blocks
    ensures (fed + piece)[..64 * (blocks + 1)] == fed[..64 * blocks] + (fed[64 * blocks..] + piece)
    ensures (fed + piece)[64 * (blocks + 1)..] == []
  {
  }

  lemma TakeBlock(done: Message, data: Message, i: nat)
    requires 64 * i + 64 <= |data|
    ensures done + data[..64 * (i + 1)] == done + data[..64 * i] + data[64 * i..64 * i + 64]
  {
  }

  // ----- every way of cutting a message

  function Joined(chunks: seq<Message>): Message {
    if chunks == [] then [] else Joined(chunks[..|chunks| - 1]) + chunks[|chunks| - 1]
  }

  /** However a message is cut into `update` calls, `final` gives its digest. */
  method HashChunks(chunks: seq<Message>) returns (r: Message)
    ensures r == Digest(Joined(chunks))
  {
    var sha := new SHA256();
    for i := 0 to |chunks|
      invariant sha.Valid() && fresh(sha) && fresh(sha.H) && fresh(sha.m)
      invariant sha.fed == Joined(chunks[..i])
    {
      sha.Update(chunks[i]);
      assert chunks[..i + 1][..i] == chunks[..i];
    }
    assert chunks[..|chunks|] == chunks;
    var digest := new Octet[32];
    sha.Final(digest);
    r := digest[..];
    assert digest[..32] == digest[..];
  }
}
