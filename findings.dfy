/**
 * Two places where `finalize` departs from the padding of section 5.1.1
 * of FIPS 180-4, which the class evidently means to follow, each stated
 * about the model of the code as written, and the corrected finalization
 * with its intended property: hashing the message is chaining the block
 * function over the FIPS-padded message from the initial hash words.
 */
module Sha256Findings {
  import opened ByteEncoding
  import opened Sha256Compression
  import opened Sha256Stream

  /** Adding a positive amount below 2^64 always changes a value modulo 2^64. */
  lemma ModShiftChanges(a: nat, d: nat)
    requires 0 < d < TWO_64
    ensures (a + d) % TWO_64 != a % TWO_64
  {
    var q, r := a / TWO_64, a % TWO_64;
    assert a == TWO_64 * q + r;
    if r + d < TWO_64 {
      assert a + d == TWO_64 * q + (r + d);
    } else {
      assert a + d == TWO_64 * (q + 1) + (r + d - TWO_64);
    }
  }

  /** Two block-aligned cuts less than a block from the same end are the same cut. */
  lemma SameCut(x: nat, y: nat, n: nat)
    requires x % 64 == 0 && y % 64 == 0 && x <= n < x + 64 && y <= n < y + 64
    ensures x == y
  {
    var a, b := x / 64, y / 64;
    assert x == 64 * a && y == 64 * b;
  }

  /** Every message is its complete 64-byte blocks followed by fewer than 64 bytes. */
  lemma SplitMessage(m: seq<bv8>) returns (blocks: seq<bv8>, rest: seq<bv8>)
    ensures m == blocks + rest && |blocks| % 64 == 0 && |rest| < 64
    ensures |rest| == |m| % 64 && |blocks| == |m| - |m| % 64
  {
    var n := |m| - |m| % 64;
    assert n % 64 == 0 by {
      assert |m| == 64 * (|m| / 64) + |m| % 64;
    }
    blocks, rest := m[..n], m[n..];
    assert m == blocks + rest;
  }

  /**
   * What a new object holds after `updateHash` with complete blocks
   * followed by fewer than 64 bytes: the blocks compressed from the
   * initial hash words, 8 bits counted per compressed byte, the rest pending.
   */
  lemma AbsorbBlocksThenRest(f: BlockFunction, blocks: seq<bv8>, rest: seq<bv8>)
    requires |blocks| % 64 == 0 && |rest| < 64
    ensures Absorb(f, Initial(), blocks + rest) ==
      EngineState(Chain(f, INITIAL_HASH, blocks), (8 * |blocks|) % TWO_64, rest)
  {
    var all, r := blocks + rest, Absorb(f, Initial(), blocks + rest);
    assert Initial().messageBlock + all == all;
    AbsorbFollows(f, Initial(), all);
    var c := |all| - |r.messageBlock|;
    SameCut(c, |blocks|, |all|);
    assert all[..c] == blocks && all[c..] == rest;
  }

  // ---------------------------------------------------------------------
  // Finding 1: the length field counts the padding
  // ---------------------------------------------------------------------

  /**
   * The arithmetic of finding 1: a counter of 8 a bits, increased by 8
   * times the padded size of p pending bytes, is 8 bits per byte of
   * something other than a + p bytes.
   */
  lemma PaddedCountArith(a: nat, p: nat)
    requires p < 64
    ensures ((8 * a) % TWO_64 + 8 * PaddedSize(p)) % TWO_64 == (8 * (a + PaddedSize(p))) % TWO_64
    ensures (8 * (a + PaddedSize(p))) % TWO_64 != (8 * (a + p)) % TWO_64
  {
    ModAddLeft(8 * a, 8 * PaddedSize(p));
    ModShiftChanges(8 * (a + p), 8 * (PaddedSize(p) - p));
    assert 8 * (a + p) + 8 * (PaddedSize(p) - p) == 8 * (a + PaddedSize(p));
  }

  /** The counter `finalize` writes, in terms of the number of pending bytes. */
  lemma FinalLengthPadded(st: EngineState)
    requires Absorbing(st)
    ensures FinalLength(st) == (st.messageLength + 8 * PaddedSize(|st.messageBlock|)) % TWO_64
  {
    PaddingShape(st.messageBlock);
  }

  /** Finding 1 for complete blocks followed by fewer than 64 bytes. */
  lemma LengthFieldOfBlocksThenRest(f: BlockFunction, blocks: seq<bv8>, rest: seq<bv8>)
    requires |blocks| % 64 == 0 && |rest| < 64
    ensures var m := blocks + rest; var st := Absorb(f, Initial(), m);
      FinalLength(st) == (8 * (|m| - |m| % 64 + PaddedSize(|m| % 64))) % TWO_64 &&
      FinalLength(st) != (8 * |m|) % TWO_64
  {
    AbsorbBlocksThenRest(f, blocks, rest);
    LengthFieldAfterBlocks(Chain(f, INITIAL_HASH, blocks), blocks, rest);
  }

  /** The same, for any state that has counted the blocks and holds the rest. */
  lemma LengthFieldAfterBlocks(h: HashWords, blocks: seq<bv8>, rest: seq<bv8>)
    requires |blocks| % 64 == 0 && |rest| < 64
    ensures var n, st := |blocks + rest|, EngineState(h, (8 * |blocks|) % TWO_64, rest);
      FinalLength(st) == (8 * (n - n % 64 + PaddedSize(n % 64))) % TWO_64 &&
      FinalLength(st) != (8 * n) % TWO_64
  {
    var n, st := |blocks + rest|, EngineState(h, (8 * |blocks|) % TWO_64, rest);
    assert n == |blocks| + |rest|;
    FinalLengthPadded(st);
    PaddedCountArith(|blocks|, |rest|);
    BlocksThenRestSizes(|blocks|, |rest|);
  }

  /** The sizes of complete blocks of a bytes followed by p < 64 bytes. */
  lemma BlocksThenRestSizes(a: nat, p: nat)
    requires a % 64 == 0 && p < 64
    ensures (a + p) % 64 == p && (a + p) - (a + p) % 64 == a
  {
    var q := a / 64;
    assert a + p == 64 * q + p;
  }

  /**
   * As written, the length field of the final block is never the message
   * length in bits modulo 2^64: it counts the 56 or 120 bytes of the
   * padded buffer instead of the pending message bytes.
   */
  lemma LengthFieldCountsPadding(f: BlockFunction, m: seq<bv8>)
    ensures var st := Absorb(f, Initial(), m);
      FinalLength(st) == (8 * (|m| - |m| % 64 + PaddedSize(|m| % 64))) % TWO_64 &&
      FinalLength(st) != (8 * |m|) % TWO_64
  {
    var blocks, rest := SplitMessage(m);
    LengthFieldOfBlocksThenRest(f, blocks, rest);
  }

  /** The empty message gets the length field 448 (56 bytes of padding) where 0 is intended. */
  lemma EmptyMessageLengthField(f: BlockFunction)
    ensures FinalLength(Absorb(f, Initial(), [])) == 448
    ensures FinalBuffer(Absorb(f, Initial(), []))[56..] == LengthBytes(448)
  {
    assert Absorb(f, Initial(), []) == Initial();
    PaddingShape([]);
  }

  // ---------------------------------------------------------------------
  // Finding 2: the second block is never compressed
  // ---------------------------------------------------------------------

  /**
   * As written, when 56 or more bytes are pending the length bytes land in
   * a second block that is never compressed, so the hash does not depend
   * on the counter at all: any two counters give the same hash words.
   */
  lemma SecondBlockDropped(f: BlockFunction, st: EngineState, otherLength: nat)
    requires Absorbing(st) && |st.messageBlock| >= 56 && otherLength < TWO_64
    ensures FinalHash(f, st) == FinalHash(f, st.(messageLength := otherLength))
  {
    FinalHashInput(f, st);
    FinalHashInput(f, st.(messageLength := otherLength));
  }

  // ---------------------------------------------------------------------
  // The corrected finalization
  // ---------------------------------------------------------------------

  /**
   * The FIPS 180-4 padded message: the message, 0x80, the fewest zero
   * bytes that make the total a multiple of 64 after the eight-byte
   * field, and the message length in bits modulo 2^64, big-endian.
   */
  function FipsPad(m: seq<bv8>): (r: seq<bv8>)
    ensures |r| % 64 == 0
  {
    var k := (55 - |m|) % 64;
    assert (|m| + 1 + k + 8) % 64 == 0;
    m + [0x80] + Zeros(k) + LengthBytes((8 * |m|) % TWO_64)
  }

  /** The layout of the FIPS padding, which the corrected finalization produces. */
  lemma FipsPadShape(m: seq<bv8>)
    ensures var r, n := FipsPad(m), |m|;
      |r| % 64 == 0 && n + 9 <= |r| < n + 9 + 64 &&
      r[..n] == m && r[n] == 0x80 &&
      (forall j :: n < j < |r| - 8 ==> r[j] == 0) &&
      FromBigEndian(r[|r| - 8..]) == (8 * n) % TWO_64
  {
    var r, n, k := FipsPad(m), |m|, (55 - |m|) % 64;
    var bits := (8 * n) % TWO_64;
    assert r[..n] == m;
    forall j | n < j < |r| - 8
      ensures r[j] == 0
    {
      assert r[j] == Zeros(k)[j - n - 1];
    }
    assert r[|r| - 8..] == LengthBytes(bits);
    LengthBytesRoundTrip(bits);
  }

  /**
   * The final buffer as intended: the same padding, but followed by the
   * counter increased by the pending message bytes only, 8 bits each.
   */
  function CorrectedBuffer(st: EngineState): (r: seq<bv8>)
    requires Absorbing(st)
    ensures |r| % 64 == 0
  {
    PaddingShape(st.messageBlock);
    Padding(st.messageBlock) + LengthBytes((st.messageLength + 8 * |st.messageBlock|) % TWO_64)
  }

  /** The intended finalization compresses every block of that buffer, one or two. */
  function CorrectedFinalHash(f: BlockFunction, st: EngineState): HashWords
    requires Absorbing(st)
  {
    Chain(f, st.hashValues, CorrectedBuffer(st))
  }

  /** The intended digest string. */
  function CorrectedDigest(f: BlockFunction, st: EngineState): string
    requires Absorbing(st)
  {
    HexWords(CorrectedFinalHash(f, st))
  }

  /**
   * The arithmetic of the corrected buffer: for complete blocks of a bytes
   * and p < 64 bytes more, the padding's zero count is the FIPS one for
   * a + p bytes, and the corrected counter is 8 (a + p) modulo 2^64.
   */
  lemma CorrectedCountArith(a: nat, p: nat)
    requires a % 64 == 0 && p < 64
    ensures (55 - (a + p)) % 64 == PaddedSize(p) - p - 1
    ensures ((8 * a) % TWO_64 + 8 * p) % TWO_64 == (8 * (a + p)) % TWO_64
  {
    var q := a / 64;
    assert a == 64 * q;
    if p < 56 {
      assert 55 - (a + p) == 64 * (-q) + (55 - p);
    } else {
      assert 55 - (a + p) == 64 * (-q - 1) + (119 - p);
    }
    ModAddLeft(8 * a, 8 * p);
  }

  /**
   * For complete blocks followed by fewer than 64 bytes, the blocks
   * followed by the corrected final buffer are exactly the FIPS padded
   * message.
   */
  lemma CorrectedBufferCompletesPad(f: BlockFunction, blocks: seq<bv8>, rest: seq<bv8>)
    requires |blocks| % 64 == 0 && |rest| < 64
    ensures blocks + CorrectedBuffer(Absorb(f, Initial(), blocks + rest)) == FipsPad(blocks + rest)
  {
    AbsorbBlocksThenRest(f, blocks, rest);
    CorrectedBufferAfterBlocks(Chain(f, INITIAL_HASH, blocks), blocks, rest);
  }

  /** The same, for any state that has counted the blocks and holds the rest. */
  lemma CorrectedBufferAfterBlocks(h: HashWords, blocks: seq<bv8>, rest: seq<bv8>)
    requires |blocks| % 64 == 0 && |rest| < 64
    ensures blocks + CorrectedBuffer(EngineState(h, (8 * |blocks|) % TWO_64, rest)) == FipsPad(blocks + rest)
  {
    var m, st := blocks + rest, EngineState(h, (8 * |blocks|) % TWO_64, rest);
    var n := |m|;
    assert n == |blocks| + |rest|;
    CorrectedCountArith(|blocks|, |rest|);
    var k := PaddedSize(|rest|) - |rest| - 1;
    var bits := (st.messageLength + 8 * |rest|) % TWO_64;
    assert k == (55 - n) % 64;
    assert bits == (8 * n) % TWO_64;
    assert CorrectedBuffer(st) == rest + [0x80] + Zeros(k) + LengthBytes(bits);
    assert blocks + (rest + [0x80] + Zeros(k) + LengthBytes(bits)) == m + [0x80] + Zeros(k) + LengthBytes(bits);
  }

  /**
   * The intended property, proved for the corrected finalization: feeding
   * a message in any chunks and finalizing gives the block function chained
   * over the FIPS padded message from the initial hash words.
   */
  lemma CorrectedFinalHashIsFips(f: BlockFunction, m: seq<bv8>)
    ensures CorrectedFinalHash(f, Absorb(f, Initial(), m)) == Chain(f, INITIAL_HASH, FipsPad(m))
  {
    var blocks, rest := SplitMessage(m);
    var st := Absorb(f, Initial(), m);
    AbsorbBlocksThenRest(f, blocks, rest);
    CorrectedBufferCompletesPad(f, blocks, rest);
    ChainAppend(f, INITIAL_HASH, blocks, CorrectedBuffer(st));
  }

  /** The corrected digest has the same shape as the one the class returns. */
  lemma CorrectedDigestShape(f: BlockFunction, m: seq<bv8>)
    ensures var d := CorrectedDigest(f, Absorb(f, Initial(), m));
      |d| == 64 && AllHex(d) &&
      d == HexWords(Chain(f, INITIAL_HASH, FipsPad(m)))
  {
    CorrectedFinalHashIsFips(f, m);
    HexWordsShape(CorrectedFinalHash(f, Absorb(f, Initial(), m)));
  }
}
