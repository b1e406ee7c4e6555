/**
 * The SHA256 class itself: three fields updated in place, `processBlock`
 * over local schedule and working arrays, the byte-at-a-time `updateHash`
 * loop, and `finalize`, which pads, appends the length, compresses and
 * renders the hash words. Each method is proved to follow the functions
 * of `Sha256Compression` and `Sha256Stream` instantiated with `Compress`.
 */
module Sha256Engine {
  import opened Sha256Primitives
  import opened ByteEncoding
  import opened Sha256Compression
  import opened Sha256Stream

  /**
   * The register shift at the end of a round: registers 1..3 and 5..7
   * take the old values of 0..2 and 4..6, and registers 0 and 4 the new
   * values a and e.
   */
  method ShiftRegisters(workingHash: array<bv32>, a: bv32, e: bv32)
    requires workingHash.Length == 8
    modifies workingHash
    ensures workingHash[0] == a && workingHash[4] == e
    ensures workingHash[1] == old(workingHash[0]) && workingHash[2] == old(workingHash[1]) && workingHash[3] == old(workingHash[2])
    ensures workingHash[5] == old(workingHash[4]) && workingHash[6] == old(workingHash[5]) && workingHash[7] == old(workingHash[6])
  {
    workingHash[7] := workingHash[6];
    workingHash[6] := workingHash[5];
    workingHash[5] := workingHash[4];
    workingHash[4] := e;
    workingHash[3] := workingHash[2];
    workingHash[2] := workingHash[1];
    workingHash[1] := workingHash[0];
    workingHash[0] := a;
  }

  /**
   * One iteration of the main compression loop of `processBlock`, on the
   * eight working registers.
   */
  method RoundStep(workingHash: array<bv32>, k: bv32, w: bv32)
    requires workingHash.Length == 8
    modifies workingHash
    ensures workingHash[..] == Round(old(workingHash[..]), k, w)
  {
    ghost var s := workingHash[..];
    var tempHash1 := Temp1(workingHash[4], workingHash[5], workingHash[6], workingHash[7], k, w);
    var tempHash2 := Temp2(workingHash[0], workingHash[1], workingHash[2]);
    ShiftRegisters(workingHash, Add(tempHash1, tempHash2), Add(workingHash[3], tempHash1));
    assert workingHash[..] == [Add(tempHash1, tempHash2), s[0], s[1], s[2], Add(s[3], tempHash1), s[4], s[5], s[6]];
  }

  /**
   * The two schedule loops of `processBlock`: words 0..15 loaded from the
   * block, words 16..63 extended from earlier ones.
   */
  method PrepareSchedule(block: Block) returns (messageSchedule: array<bv32>)
    ensures fresh(messageSchedule) && messageSchedule.Length == 64
    ensures messageSchedule[..] == Schedule(block)
  {
    messageSchedule := new bv32[64];
    for i := 0 to 16
      invariant messageSchedule[..i] == ScheduleUpTo(block, i)
    {
      messageSchedule[i] := LoadWord(block[i * 4], block[i * 4 + 1], block[i * 4 + 2], block[i * 4 + 3]);
      assert messageSchedule[..i + 1] == messageSchedule[..i] + [MessageWord(block, i)];
    }

    for round := 16 to 64
      invariant messageSchedule[..round] == ScheduleUpTo(block, round)
    {
      ghost var w := messageSchedule[..round];
      messageSchedule[round] := Add(Add(Add(Sigma1(messageSchedule[round - 2]), messageSchedule[round - 7]),
                                        Sigma0(messageSchedule[round - 15])), messageSchedule[round - 16]);
      assert messageSchedule[round] == NextWord(w);
      assert messageSchedule[..round + 1] == w + [NextWord(w)];
    }
    assert messageSchedule[..] == messageSchedule[..64];
  }

  /** The main compression loop of `processBlock`: 64 rounds over the working registers. */
  method CompressionLoop(workingHash: array<bv32>, messageSchedule: array<bv32>)
    requires workingHash.Length == 8 && messageSchedule.Length == 64 && workingHash != messageSchedule
    modifies workingHash
    ensures workingHash[..] == RoundsUpTo(old(workingHash[..]), messageSchedule[..], 64)
  {
    for round := 0 to 64
      invariant workingHash[..] == RoundsUpTo(old(workingHash[..]), messageSchedule[..], round)
    {
      RoundStep(workingHash, ROUND_CONSTANTS[round], messageSchedule[round]);
    }
  }

  /** The last loop of `processBlock`: `hashValues[i] += workingHash[i]`, modulo 2^32. */
  method UpdateHashValues(hashValues: array<bv32>, workingHash: array<bv32>)
    requires hashValues.Length == 8 && workingHash.Length == 8 && hashValues != workingHash
    modifies hashValues
    ensures hashValues[..] == FeedForward(old(hashValues[..]), workingHash[..])
  {
    for i := 0 to 8
      invariant forall j :: 0 <= j < i ==> hashValues[j] == Add(old(hashValues[j]), workingHash[j])
      invariant forall j :: i <= j < 8 ==> hashValues[j] == old(hashValues[j])
    {
      hashValues[i] := Add(hashValues[i], workingHash[i]);
    }
  }

  /**
   * The padding loop of `finalize`: 0x80, then zero bytes until the buffer
   * holds 56 bytes, or 120 when 56 or more were pending.
   */
  method PadBlock(block: seq<bv8>) returns (padded: seq<bv8>)
    requires |block| < 64
    ensures padded == Padding(block)
  {
    var originalBlockSize := |block|;
    var paddingLength := if originalBlockSize < 56 then 56 - originalBlockSize else 120 - originalBlockSize;
    ghost var zeros := paddingLength - 1;
    padded := block + [0x80];
    paddingLength := paddingLength - 1;
    while paddingLength > 0
      invariant 0 <= paddingLength <= zeros
      invariant padded == block + [0x80] + Zeros(zeros - paddingLength)
    {
      assert Zeros(zeros - paddingLength + 1) == Zeros(zeros - paddingLength) + [0];
      padded := padded + [0x00];
      paddingLength := paddingLength - 1;
    }
  }

  /**
   * The length loop of `finalize`: for i from 7 down to 0, byte i of the
   * counter, so the most significant byte comes first.
   */
  method AppendLength(block: seq<bv8>, messageLength: nat) returns (r: seq<bv8>)
    ensures r == block + LengthBytes(messageLength)
  {
    r := block;
    var i: int := 7;
    while i >= 0
      invariant -1 <= i <= 7
      invariant r == block + LengthBytes(messageLength)[..7 - i]
    {
      assert LengthBytes(messageLength)[..8 - i] == LengthBytes(messageLength)[..7 - i] + [ByteAt(messageLength, i)];
      r := r + [ByteAt(messageLength, i)];
      i := i - 1;
    }
  }

  /**
   * The output loop of `finalize`: each hash word as eight zero-padded
   * lowercase hexadecimal digits, word 0 first.
   */
  method HexString(hashValues: array<bv32>) returns (digest: string)
    ensures digest == HexWords(hashValues[..])
  {
    digest := "";
    for j := 0 to hashValues.Length
      invariant digest == HexWords(hashValues[..j])
    {
      assert hashValues[..j + 1][..j] == hashValues[..j];
      digest := digest + HexWord(hashValues[j]);
    }
    assert hashValues[..hashValues.Length] == hashValues[..];
  }

  class Sha256 {
    var hashValues: array<bv32>
    /** The 64-bit `messageLength`, kept below 2^64 by explicit wrapping. */
    var messageLength: nat
    var messageBlock: seq<bv8>
    /** Set by `Finalize`; the class is not meant to be fed or finalized again after it. */
    ghost var finalized: bool

    ghost predicate Valid()
      reads this, hashValues
    {
      hashValues.Length == 8 && messageLength < TWO_64 && (!finalized ==> |messageBlock| < 64)
    }

    /** The three fields as a value. */
    ghost function State(): EngineState
      requires Valid()
      reads this, hashValues
    {
      EngineState(hashValues[..], messageLength, messageBlock)
    }

    /** `SHA256()`: the initial hash words, a zero counter and an empty buffer. */
    constructor ()
      ensures Valid() && !finalized
      ensures State() == Initial()
      ensures fresh(hashValues)
    {
      var h := new bv32[8];
      h[0] := 0x6a09e667;
      h[1] := 0xbb67ae85;
      h[2] := 0x3c6ef372;
      h[3] := 0xa54ff53a;
      h[4] := 0x510e527f;
      h[5] := 0x9b05688c;
      h[6] := 0x1f83d9ab;
      h[7] := 0x5be0cd19;
      hashValues := h;
      messageLength := 0;
      messageBlock := [];
      finalized := false;
      new;
      assert hashValues[..] == INITIAL_HASH;
    }

    /**
     * `processBlock`: compress the first 64 bytes of `messageBlock` into
     * the hash words. The buffer and the counter are left alone.
     */
    method ProcessBlock()
      requires hashValues.Length == 8 && |messageBlock| >= 64
      modifies hashValues
      ensures hashValues[..] == Compress(old(hashValues[..]), messageBlock[..64])
    {
      ghost var h0: HashWords := hashValues[..];
      var workingHash := new bv32[8];
      for i := 0 to 8
        invariant forall j :: 0 <= j < i ==> workingHash[j] == h0[j]
        modifies workingHash
      {
        workingHash[i] := hashValues[i];
      }
      assert workingHash[..] == h0;

      var messageSchedule := PrepareSchedule(messageBlock[..64]);
      CompressionLoop(workingHash, messageSchedule);

      UpdateHashValues(hashValues, workingHash);
    }
    /**
     * `updateHash(data, dataLength)`: push the first `dataLength` bytes of
     * `data` one at a time, compressing and clearing the buffer and adding
     * 512 to the counter whenever it fills.
     */
    method UpdateHash(data: array<bv8>, dataLength: nat)
      requires Valid() && !finalized && dataLength <= data.Length
      modifies this, hashValues
      ensures Valid() && !finalized && hashValues == old(hashValues)
      ensures State() == Absorb(Compress, old(State()), data[..dataLength])
    {
      for i := 0 to dataLength
        invariant Valid() && !finalized && hashValues == old(hashValues)
        invariant State() == Absorb(Compress, old(State()), data[..i])
      {
        AbsorbByte(data[i]);
        assert data[..i + 1][..i] == data[..i];
      }
    }

    /**
     * The body of the `updateHash` loop: append the byte; once 64 bytes
     * are buffered, compress them, add 512 to the counter and clear the
     * buffer.
     */
    method AbsorbByte(b: bv8)
      requires Valid() && !finalized
      modifies this, hashValues
      ensures Valid() && !finalized && hashValues == old(hashValues)
      ensures State() == PushByte(Compress, old(State()), b)
    {
      messageBlock := messageBlock + [b];
      if |messageBlock| == 64 {
        ProcessBlock();
        assert messageBlock[..64] == messageBlock;
        messageLength := (messageLength + 512) % TWO_64;
        messageBlock := [];
      }
    }

    /** `updateHash(const string&)`: the string's bytes, passed on to `UpdateHash`. */
    method UpdateHashString(data: seq<bv8>)
      requires Valid() && !finalized
      modifies this, hashValues
      ensures Valid() && !finalized && hashValues == old(hashValues)
      ensures State() == Absorb(Compress, old(State()), data)
    {
      var bytes := new bv8[|data|](i requires 0 <= i < |data| => data[i]);
      assert bytes[..|data|] == data;
      UpdateHash(bytes, |data|);
    }

    /**
     * `finalize`: pad the buffer with 0x80 and zeros to 56 or 120 bytes,
     * add 8 times the padded size to the counter, append the counter's
     * eight bytes, compress the first 64 bytes, and render the hash words
     * as hexadecimal.
     */
    method Finalize() returns (digest: string)
      requires Valid() && !finalized
      modifies this, hashValues
      ensures Valid() && finalized && hashValues == old(hashValues)
      ensures messageBlock == FinalBuffer(old(State()))
      ensures messageLength == FinalLength(old(State()))
      ensures hashValues[..] == FinalHash(Compress, old(State()))
      ensures digest == Digest(Compress, old(State()))
    {
      ghost var st := State();
      PadAndAppendLength();
      FinalBufferShape(st);
      ProcessBlock();
      digest := HexString(hashValues);
      finalized := true;
    }

    /**
     * The first part of `finalize`: pad the buffer, add 8 times its new
     * size to the counter (modulo 2^64), then append the counter's bytes.
     */
    method PadAndAppendLength()
      requires Valid() && !finalized
      modifies this
      ensures hashValues == old(hashValues) && !finalized
      ensures messageBlock == FinalBuffer(old(State()))
      ensures messageLength == FinalLength(old(State()))
    {
      messageBlock := PadBlock(messageBlock);
      messageLength := (messageLength + |messageBlock| * 8) % TWO_64;
      messageBlock := AppendLength(messageBlock, messageLength);
    }

    /**
     * `calculateHash(input)`: a fresh object fed the whole input, then
     * finalized. The result is 64 lowercase hexadecimal characters.
     */
    static method CalculateHash(input: seq<bv8>) returns (digest: string)
      ensures digest == Digest(Compress, Absorb(Compress, Initial(), input))
      ensures |digest| == 64 && AllHex(digest)
    {
      var hasher := new Sha256();
      hasher.UpdateHashString(input);
      digest := hasher.Finalize();
      DigestShape(Compress, Absorb(Compress, Initial(), input));
    }
  }
}
