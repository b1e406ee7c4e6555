/**
 * The state of a SHA256 object as a value, and what `updateHash` and
 * `finalize` do to it, as pure functions. `Sha256Engine.Sha256` is proved
 * to follow these functions step by step; the lemmas here say what they
 * mean: how many blocks have been compressed, what is pending, what the
 * final block looks like and what the digest string is.
 */
module Sha256Stream {
  import opened ByteEncoding
  import opened Sha256Compression

  /**
   * What `processBlock` does to the hash words with a 64-byte block. The
   * class uses `Compress`; the functions and lemmas here take it as a
   * parameter, since none of them depends on what it computes.
   */
  type BlockFunction = (HashWords, Block) -> HashWords

  /** The three fields of the class: `hashValues`, `messageLength` and `messageBlock`. */
  datatype EngineState = EngineState(hashValues: HashWords, messageLength: nat, messageBlock: seq<bv8>)

  /**
   * What holds between calls of `updateHash`: a 64-bit counter and fewer
   * than 64 pending bytes (a full buffer is compressed and cleared at once).
   */
  predicate Absorbing(st: EngineState)
  {
    st.messageLength < TWO_64 && |st.messageBlock| < 64
  }

  /** The hash words after f has been applied to each 64-byte block of m in turn. */
  function Chain(f: BlockFunction, h: HashWords, m: seq<bv8>): HashWords
    requires |m| % 64 == 0
  {
    if |m| == 0 then h else f(Chain(f, h, m[..|m| - 64]), m[|m| - 64..])
  }

  /** Chaining the first k + 1 blocks is chaining the first k, then block k. */
  lemma ChainStep(f: BlockFunction, h: HashWords, m: seq<bv8>, k: nat)
    requires 64 * (k + 1) <= |m|
    ensures Chain(f, h, m[..64 * (k + 1)]) == f(Chain(f, h, m[..64 * k]), m[64 * k .. 64 * (k + 1)])
  {
    var p := m[..64 * (k + 1)];
    assert p[..|p| - 64] == m[..64 * k];
    assert p[|p| - 64..] == m[64 * k .. 64 * (k + 1)];
  }

  /** Chaining a + b is chaining a, then b from where a left off. */
  lemma {:induction false} ChainAppend(f: BlockFunction, h: HashWords, a: seq<bv8>, b: seq<bv8>)
    requires |a| % 64 == 0 && |b| % 64 == 0
    ensures Chain(f, h, a + b) == Chain(f, Chain(f, h, a), b)
  {
    if |b| == 0 {
      assert a + b == a;
    } else {
      var front := b[..|b| - 64];
      assert (a + b)[..|a + b| - 64] == a + front;
      assert (a + b)[|a + b| - 64..] == b[|b| - 64..];
      ChainAppend(f, h, a, front);
    }
  }

  /** The state the constructor builds. */
  function Initial(): (st: EngineState)
    ensures Absorbing(st)
  {
    EngineState(INITIAL_HASH, 0, [])
  }

  /**
   * One iteration of the `updateHash` loop: append the byte; when the
   * buffer reaches 64 bytes, compress it, add 512 to the 64-bit counter
   * (wrapping modulo 2^64) and clear the buffer.
   */
  function PushByte(f: BlockFunction, st: EngineState, b: bv8): (r: EngineState)
    requires Absorbing(st)
    ensures Absorbing(r)
  {
    var block := st.messageBlock + [b];
    if |block| == 64 then
      EngineState(f(st.hashValues, block), (st.messageLength + 512) % TWO_64, [])
    else
      EngineState(st.hashValues, st.messageLength, block)
  }

  /** `updateHash(data)`: the bytes pushed in order, first byte first. */
  function Absorb(f: BlockFunction, st: EngineState, data: seq<bv8>): (r: EngineState)
    requires Absorbing(st)
    ensures Absorbing(r)
  {
    if data == [] then st else PushByte(f, Absorb(f, st, data[..|data| - 1]), data[|data| - 1])
  }

  /** Chunking is invisible: feeding a then b is feeding a + b. */
  lemma {:induction false} AbsorbConcat(f: BlockFunction, st: EngineState, a: seq<bv8>, b: seq<bv8>)
    requires Absorbing(st)
    ensures Absorb(f, st, a + b) == Absorb(f, Absorb(f, st, a), b)
  {
    if b == [] {
      assert a + b == a;
    } else {
      var front := b[..|b| - 1];
      assert (a + b)[..|a + b| - 1] == a + front;
      assert (a + b)[|a + b| - 1] == b[|b| - 1];
      AbsorbConcat(f, st, a, front);
    }
  }

  lemma ModAddLeft(a: nat, b: nat)
    ensures (a % TWO_64 + b) % TWO_64 == (a + b) % TWO_64
  {
    var q := a / TWO_64;
    assert a + b == (a % TWO_64 + b) + TWO_64 * q;
  }

  lemma AlignedMod(x: nat, k: nat)
    requires x % 512 == 0
    ensures ((x + 512 * k) % TWO_64) % 512 == 0
  {
    var y := x + 512 * k;
    var q, c := y / TWO_64, x / 512 + k;
    assert y == 512 * c;
    assert y == TWO_64 * q + y % TWO_64;
    assert y % TWO_64 == 512 * (c - 0x80_0000_0000_0000 * q);
  }

  /** A remainder below 64 that leaves a multiple of 64 is the remainder modulo 64. */
  lemma SplitMod(n: nat, r: nat)
    requires r < 64 && r <= n && (n - r) % 64 == 0
    ensures r == n % 64 && n - r == 64 * (n / 64)
  {
    var q := (n - r) / 64;
    assert n == 64 * q + r;
  }

  /**
   * How a state relates to all the bytes fed since the hash words were h
   * and the counter was len with nothing pending: every byte of `all` up
   * to the last complete 64-byte block has been compressed from h, in
   * order, the rest are pending, and the counter has grown by 8 per
   * compressed byte, modulo 2^64.
   */
  predicate Follows(f: BlockFunction, h: HashWords, len: nat, all: seq<bv8>, st: EngineState)
  {
    var c := |all| - |st.messageBlock|;
    0 <= c && c % 64 == 0 &&
    st.messageBlock == all[c..] &&
    st.hashValues == Chain(f, h, all[..c]) &&
    st.messageLength == (len + 8 * c) % TWO_64
  }

  /** One byte keeps a state in step with everything fed so far. */
  lemma PushFollows(f: BlockFunction, h: HashWords, len: nat, all: seq<bv8>, st: EngineState, b: bv8)
    requires Absorbing(st) && Follows(f, h, len, all, st)
    ensures Follows(f, h, len, all + [b], PushByte(f, st, b))
  {
    if |st.messageBlock| == 63 {
      PushFollowsFull(f, h, len, all, st, b);
    } else {
      var c := |all| - |st.messageBlock|;
      assert (all + [b])[..c] == all[..c];
      assert (all + [b])[c..] == st.messageBlock + [b];
    }
  }

  /** The byte that fills the buffer: the block is compressed and the counter moves on by 512. */
  lemma PushFollowsFull(f: BlockFunction, h: HashWords, len: nat, all: seq<bv8>, st: EngineState, b: bv8)
    requires Absorbing(st) && Follows(f, h, len, all, st) && |st.messageBlock| == 63
    ensures Follows(f, h, len, all + [b], PushByte(f, st, b))
  {
    var c := |all| - 63;
    var m := (all + [b])[..c + 64];
    assert m == all + [b];
    assert m[..|m| - 64] == all[..c];
    assert m[|m| - 64..] == st.messageBlock + [b];
    assert Chain(f, h, m) == f(st.hashValues, st.messageBlock + [b]);
    ModAddLeft(len + 8 * c, 512);
    assert len + 8 * c + 512 == len + 8 * (c + 64);
    assert (all + [b])[c + 64..] == [];
  }

  /** `updateHash` keeps the state in step with the pending bytes followed by the new ones. */
  lemma {:induction false} AbsorbFollows(f: BlockFunction, st: EngineState, data: seq<bv8>)
    requires Absorbing(st)
    ensures Follows(f, st.hashValues, st.messageLength, st.messageBlock + data, Absorb(f, st, data))
  {
    var all := st.messageBlock + data;
    if data == [] {
      assert all == st.messageBlock && all[..0] == [];
    } else {
      var front := data[..|data| - 1];
      assert all == (st.messageBlock + front) + [data[|data| - 1]];
      AbsorbFollows(f, st, front);
      PushFollows(f, st.hashValues, st.messageLength, st.messageBlock + front, Absorb(f, st, front), data[|data| - 1]);
    }
  }

  /**
   * What `Follows` means once fewer than 64 bytes are pending: the pending
   * bytes are the last |all| mod 64, the first 64 * (|all| div 64) have
   * been compressed, and the counter grew by 512 per compressed block.
   */
  lemma FollowsMeans(f: BlockFunction, h: HashWords, len: nat, all: seq<bv8>, st: EngineState)
    requires Absorbing(st) && Follows(f, h, len, all, st)
    ensures var full := |all| / 64;
      |st.messageBlock| == |all| % 64 &&
      st.messageBlock == all[64 * full..] &&
      st.hashValues == Chain(f, h, all[..64 * full]) &&
      st.messageLength == (len + 512 * full) % TWO_64
  {
    var c := |all| - |st.messageBlock|;
    SplitMod(|all|, |st.messageBlock|);
    assert c == 64 * (|all| / 64);
    assert 8 * c == 512 * (|all| / 64);
  }

  /**
   * `updateHash` leaves fewer than 64 bytes pending: of the pending bytes
   * followed by the new ones, those after the last complete 64-byte
   * block, (p + n) mod 64 of them for p pending and n new bytes.
   */
  lemma AbsorbPending(f: BlockFunction, st: EngineState, data: seq<bv8>)
    requires Absorbing(st)
    ensures var all := st.messageBlock + data;
      |Absorb(f, st, data).messageBlock| == |all| % 64 &&
      Absorb(f, st, data).messageBlock == all[64 * (|all| / 64)..]
  {
    AbsorbFollows(f, st, data);
    FollowsMeans(f, st.hashValues, st.messageLength, st.messageBlock + data, Absorb(f, st, data));
  }

  /** `updateHash` adds 512 to the counter for each block it compresses, modulo 2^64. */
  lemma AbsorbLength(f: BlockFunction, st: EngineState, data: seq<bv8>)
    requires Absorbing(st)
    ensures Absorb(f, st, data).messageLength ==
      (st.messageLength + 512 * (|st.messageBlock + data| / 64)) % TWO_64
  {
    AbsorbFollows(f, st, data);
    FollowsMeans(f, st.hashValues, st.messageLength, st.messageBlock + data, Absorb(f, st, data));
  }

  /**
   * `updateHash` compresses every complete 64-byte block of the pending
   * bytes followed by the new ones, in order.
   */
  lemma AbsorbHash(f: BlockFunction, st: EngineState, data: seq<bv8>)
    requires Absorbing(st)
    ensures var all := st.messageBlock + data;
      Absorb(f, st, data).hashValues == Chain(f, st.hashValues, all[..64 * (|all| / 64)])
  {
    AbsorbFollows(f, st, data);
    FollowsMeans(f, st.hashValues, st.messageLength, st.messageBlock + data, Absorb(f, st, data));
  }

  /** The counter counts compressed bits: a multiple of 512 stays a multiple of 512. */
  lemma LengthStaysAligned(f: BlockFunction, st: EngineState, data: seq<bv8>)
    requires Absorbing(st) && st.messageLength % 512 == 0
    ensures Absorb(f, st, data).messageLength % 512 == 0
  {
    AbsorbLength(f, st, data);
    AlignedMod(st.messageLength, |st.messageBlock + data| / 64);
  }

  // ---------------------------------------------------------------------
  // finalize, as written
  // ---------------------------------------------------------------------

  /** n zero bytes. */
  function Zeros(n: nat): (r: seq<bv8>)
    ensures |r| == n && forall j :: 0 <= j < n ==> r[j] == 0
  {
    seq(n, _ => 0)
  }

  /** The buffer size the padding loop stops at: 56, or 120 once 56 or more bytes are pending. */
  function PaddedSize(p: nat): nat
  {
    if p < 56 then 56 else 120
  }

  /** The pending bytes, then 0x80, then zeros up to `PaddedSize`. */
  function Padding(block: seq<bv8>): (r: seq<bv8>)
    requires |block| < 64
  {
    block + [0x80] + Zeros(PaddedSize(|block|) - |block| - 1)
  }

  /** `messageLength += messageBlock.size() * 8`, taken after the padding, modulo 2^64. */
  function FinalLength(st: EngineState): nat
    requires Absorbing(st)
  {
    (st.messageLength + 8 * |Padding(st.messageBlock)|) % TWO_64
  }

  /** The buffer when `processBlock` is called: padding, then the eight length bytes. */
  function FinalBuffer(st: EngineState): seq<bv8>
    requires Absorbing(st)
  {
    Padding(st.messageBlock) + LengthBytes(FinalLength(st))
  }

  /**
   * The hash words after the single `processBlock` call in `finalize`,
   * which reads the first 64 bytes of the buffer.
   */
  function FinalHash(f: BlockFunction, st: EngineState): HashWords
    requires Absorbing(st)
  {
    FinalBufferShape(st);
    f(st.hashValues, FinalBuffer(st)[..64])
  }

  /** The string `finalize` returns. */
  function Digest(f: BlockFunction, st: EngineState): string
    requires Absorbing(st)
  {
    HexWords(FinalHash(f, st))
  }

  /**
   * The padding: with P pending bytes, bytes [0, P) are unchanged, byte P
   * is 0x80, and zero bytes follow up to 56 bytes when P < 56 and up to
   * 120 bytes otherwise.
   */
  lemma PaddingShape(block: seq<bv8>)
    requires |block| < 64
    ensures var r, p := Padding(block), |block|;
      |r| == (if p < 56 then 56 else 120) &&
      r[..p] == block && r[p] == 0x80 &&
      forall j :: p < j < |r| ==> r[j] == 0
  {
    var r, p := Padding(block), |block|;
    assert r[..p] == block;
    forall j | p < j < |r|
      ensures r[j] == 0
    {
      assert r[j] == Zeros(PaddedSize(p) - p - 1)[j - p - 1];
    }
  }

  /**
   * The buffer `processBlock` sees in `finalize`: exactly eight bytes follow
   * the padding, giving 64 or 128 bytes, and they are the big-endian
   * encoding of the counter after it was increased by 8 times the padded
   * size (56 or 120), modulo 2^64.
   */
  lemma FinalBufferShape(st: EngineState)
    requires Absorbing(st)
    ensures var b, s := FinalBuffer(st), PaddedSize(|st.messageBlock|);
      |b| == s + 8 && (|b| == 64 || |b| == 128) &&
      b[..s] == Padding(st.messageBlock) &&
      FromBigEndian(b[s..]) == FinalLength(st) &&
      FinalLength(st) == (st.messageLength + 8 * s) % TWO_64
  {
    var b, s := FinalBuffer(st), PaddedSize(|st.messageBlock|);
    PaddingShape(st.messageBlock);
    assert b[..s] == Padding(st.messageBlock);
    assert b[s..] == LengthBytes(FinalLength(st));
    LengthBytesRoundTrip(FinalLength(st));
  }

  /**
   * What reaches the hash in `finalize`: with fewer than 56 bytes pending,
   * the whole 64-byte buffer, length bytes included; with 56 or more, only
   * the first 64 bytes of the padding, so the length bytes (and the rest
   * of the second block) never reach the hash.
   */
  lemma FinalHashInput(f: BlockFunction, st: EngineState)
    requires Absorbing(st)
    ensures |st.messageBlock| < 56 ==> |FinalBuffer(st)| == 64 && FinalHash(f, st) == f(st.hashValues, FinalBuffer(st))
    ensures |st.messageBlock| >= 56 ==> FinalHash(f, st) == f(st.hashValues, Padding(st.messageBlock)[..64])
  {
    var b := FinalBuffer(st);
    FinalBufferShape(st);
    if |st.messageBlock| < 56 {
      assert b[..64] == b;
    } else {
      assert b[..64] == Padding(st.messageBlock)[..64];
    }
  }

  /**
   * The digest is 64 lowercase hexadecimal characters, eight per hash
   * word, word 0 first, each group reading back as its word.
   */
  lemma DigestShape(f: BlockFunction, st: EngineState)
    requires Absorbing(st)
    ensures |Digest(f, st)| == 64
    ensures AllHex(Digest(f, st))
    ensures forall i :: 0 <= i < 8 ==>
      Digest(f, st)[8 * i .. 8 * i + 8] == HexWord(FinalHash(f, st)[i]) &&
      FromHex(HexWord(FinalHash(f, st)[i])) == FinalHash(f, st)[i] as nat
  {
    HexWordsShape(FinalHash(f, st));
  }
}
