/**
 * The compression function of the SHA256 class (`processBlock`) as pure
 * functions on values: the message schedule, one round, the 64 rounds and
 * the feed-forward into the hash words, plus the constant tables. The
 * mutable version that works on arrays is `Sha256Engine.Sha256.ProcessBlock`,
 * whose contract ties it to `Compress`.
 */
module Sha256Compression {
  import opened Sha256Primitives
  import opened ByteEncoding

  /** First 32 bits of the fractional parts of the cube roots of the first 64 primes. */
  const ROUND_CONSTANTS: seq<bv32> := [
    0x428a2f98, 0x71374491, 0xb5c0fbcf, 0xe9b5dba5, 0x3956c25b, 0x59f111f1, 0x923f82a4, 0xab1c5ed5,
    0xd807aa98, 0x12835b01, 0x243185be, 0x550c7dc3, 0x72be5d74, 0x80deb1fe, 0x9bdc06a7, 0xc19bf174,
    0xe49b69c1, 0xefbe4786, 0x0fc19dc6, 0x240ca1cc, 0x2de92c6f, 0x4a7484aa, 0x5cb0a9dc, 0x76f988da,
    0x983e5152, 0xa831c66d, 0xb00327c8, 0xbf597fc7, 0xc6e00bf3, 0xd5a79147, 0x06ca6351, 0x14292967,
    0x27b70a85, 0x2e1b2138, 0x4d2c6dfc, 0x53380d13, 0x650a7354, 0x766a0abb, 0x81c2c92e, 0x92722c85,
    0xa2bfe8a1, 0xa81a664b, 0xc24b8b70, 0xc76c51a3, 0xd192e819, 0xd6990624, 0xf40e3585, 0x106aa070,
    0x19a4c116, 0x1e376c08, 0x2748774c, 0x34b0bcb5, 0x391c0cb3, 0x4ed8aa4a, 0x5b9cca4f, 0x682e6ff3,
    0x748f82ee, 0x78a5636f, 0x84c87814, 0x8cc70208, 0x90befffa, 0xa4506ceb, 0xbef9a3f7, 0xc67178f2
  ]

  /** First 32 bits of the fractional parts of the square roots of the first 8 primes. */
  const INITIAL_HASH: HashWords := [
    0x6a09e667, 0xbb67ae85, 0x3c6ef372, 0xa54ff53a, 0x510e527f, 0x9b05688c, 0x1f83d9ab, 0x5be0cd19
  ]

  /** The eight hash words (`hashValues`, and `workingHash`). */
  type HashWords = h: seq<bv32> | |h| == 8 witness seq(8, _ => 0)

  /** The 64 bytes `processBlock` reads: `messageBlock[0..63]`. */
  type Block = b: seq<bv8> | |b| == 64 witness seq(64, _ => 0)

  // ---------------------------------------------------------------------
  // Message schedule
  // ---------------------------------------------------------------------

  /** Schedule word i < 16: bytes 4i .. 4i+3 of the block, most significant first. */
  function MessageWord(block: Block, i: nat): bv32
    requires i < 16
  {
    LoadWord(block[4 * i], block[4 * i + 1], block[4 * i + 2], block[4 * i + 3])
  }

  /** The word that follows a schedule prefix of length t >= 16. */
  function NextWord(w: seq<bv32>): bv32
    requires |w| >= 16
  {
    var t := |w|;
    Add(Add(Add(Sigma1(w[t - 2]), w[t - 7]), Sigma0(w[t - 15])), w[t - 16])
  }

  /** The first t words of the schedule, in the order the two loops write them. */
  function ScheduleUpTo(block: Block, t: nat): (w: seq<bv32>)
    requires t <= 64
    ensures |w| == t
  {
    if t <= 16 then seq(t, i requires 0 <= i < t => MessageWord(block, i))
    else
      var w := ScheduleUpTo(block, t - 1);
      w + [NextWord(w)]
  }

  /** All 64 words of `messageSchedule`. */
  function Schedule(block: Block): (w: seq<bv32>)
    ensures |w| == 64
  {
    ScheduleUpTo(block, 64)
  }

  /** A shorter schedule is a prefix of a longer one: a word, once written, is never rewritten. */
  lemma {:induction false} SchedulePrefix(block: Block, s: nat, t: nat)
    requires s <= t <= 64
    ensures ScheduleUpTo(block, s) == ScheduleUpTo(block, t)[..s]
  {
    if s < t {
      if t <= 16 {
        assert ScheduleUpTo(block, s) == ScheduleUpTo(block, t)[..s];
      } else {
        SchedulePrefix(block, s, t - 1);
        assert ScheduleUpTo(block, t)[..t - 1] == ScheduleUpTo(block, t - 1);
      }
    }
  }

  /** Schedule words 0..15 are the big-endian words of the block: `W[i]` is bytes 4i .. 4i+3. */
  lemma ScheduleLoads(block: Block)
    ensures forall i :: 0 <= i < 16 ==>
      Schedule(block)[i] == LoadWord(block[4 * i], block[4 * i + 1], block[4 * i + 2], block[4 * i + 3])
  {
    SchedulePrefix(block, 16, 64);
  }

  /** Schedule word t >= 16 is sigma1(W[t-2]) + W[t-7] + sigma0(W[t-15]) + W[t-16] modulo 2^32. */
  lemma ScheduleExtends(block: Block, t: nat)
    requires 16 <= t < 64
    ensures Schedule(block)[t] ==
      Add(Add(Add(Sigma1(Schedule(block)[t - 2]), Schedule(block)[t - 7]),
              Sigma0(Schedule(block)[t - 15])), Schedule(block)[t - 16])
  {
    SchedulePrefix(block, t + 1, 64);
    var w, p := Schedule(block), ScheduleUpTo(block, t + 1);
    assert p[..t] == ScheduleUpTo(block, t);
    assert w[t - 2] == p[t - 2] && w[t - 7] == p[t - 7] && w[t - 15] == p[t - 15] && w[t - 16] == p[t - 16];
  }

  // ---------------------------------------------------------------------
  // Rounds
  // ---------------------------------------------------------------------

  /** tempHash1, from registers 4..7, the round constant and the schedule word. */
  function Temp1(e: bv32, f: bv32, g: bv32, h: bv32, k: bv32, w: bv32): bv32
  {
    Add(Add(Add(Add(h, UpperSigma1(e)), Choose(e, f, g)), k), w)
  }

  /** tempHash2, from registers 0..2. */
  function Temp2(a: bv32, b: bv32, c: bv32): bv32
  {
    Add(UpperSigma0(a), Majority(a, b, c))
  }

  /**
   * One iteration of the main compression loop on `workingHash`: the
   * registers shift by one, with register 4 receiving old register 3 plus
   * tempHash1 and register 0 receiving tempHash1 plus tempHash2.
   */
  function Round(s: seq<bv32>, k: bv32, w: bv32): (r: seq<bv32>)
    requires |s| == 8
    ensures |r| == 8
    ensures r[1] == s[0] && r[2] == s[1] && r[3] == s[2]
    ensures r[5] == s[4] && r[6] == s[5] && r[7] == s[6]
  {
    var t1 := Temp1(s[4], s[5], s[6], s[7], k, w);
    [Add(t1, Temp2(s[0], s[1], s[2])), s[0], s[1], s[2], Add(s[3], t1), s[4], s[5], s[6]]
  }

  /** The first t rounds, using round constant i and schedule word i in round i. */
  function RoundsUpTo(s: seq<bv32>, ws: seq<bv32>, t: nat): (r: seq<bv32>)
    requires |s| == 8 && t <= |ws| && t <= 64
    ensures |r| == 8
  {
    if t == 0 then s else Round(RoundsUpTo(s, ws, t - 1), ROUND_CONSTANTS[t - 1], ws[t - 1])
  }

  /**
   * The working registers form two shift registers: from round 3 on,
   * registers 1, 2, 3 hold what register 0 held one, two and three rounds
   * earlier, and registers 5, 6, 7 likewise for register 4. Only registers
   * 0 and 4 receive new values.
   */
  lemma RegisterHistory(s: seq<bv32>, ws: seq<bv32>, t: nat)
    requires |s| == 8 && 3 <= t <= |ws| && t <= 64
    ensures RoundsUpTo(s, ws, t)[1] == RoundsUpTo(s, ws, t - 1)[0]
    ensures RoundsUpTo(s, ws, t)[2] == RoundsUpTo(s, ws, t - 2)[0]
    ensures RoundsUpTo(s, ws, t)[3] == RoundsUpTo(s, ws, t - 3)[0]
    ensures RoundsUpTo(s, ws, t)[5] == RoundsUpTo(s, ws, t - 1)[4]
    ensures RoundsUpTo(s, ws, t)[6] == RoundsUpTo(s, ws, t - 2)[4]
    ensures RoundsUpTo(s, ws, t)[7] == RoundsUpTo(s, ws, t - 3)[4]
  {
    var r1, r2, r3 := RoundsUpTo(s, ws, t - 1), RoundsUpTo(s, ws, t - 2), RoundsUpTo(s, ws, t - 3);
    assert r1 == Round(r2, ROUND_CONSTANTS[t - 2], ws[t - 2]);
    assert r2 == Round(r3, ROUND_CONSTANTS[t - 3], ws[t - 3]);
  }

  /** The feed-forward `hashValues[i] += workingHash[i]`, modulo 2^32. */
  function FeedForward(a: seq<bv32>, b: seq<bv32>): (r: seq<bv32>)
    requires |a| == 8 && |b| == 8
    ensures |r| == 8
  {
    seq(8, i requires 0 <= i < 8 => Add(a[i], b[i]))
  }

  /** What one call of `processBlock` does to the hash words. */
  function Compress(h: HashWords, block: Block): HashWords
  {
    FeedForward(h, RoundsUpTo(h, Schedule(block), 64))
  }
}
