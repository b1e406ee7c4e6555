# SHA256 class, modelled and verified in Dafny

This project models the `SHA256` class of `main.cpp`, a streaming SHA-256 implementation. The hasher mixes pure and imperative code. Its parts:

- **Primitives.** `rotateRight` and the six logical functions of section 4.1.2 of FIPS 180-4. These are pure functions on `bv32`.
- **Compression (`processBlock`).** A pure `Compress` builds the message schedule, runs the 64 rounds and feeds the result forward. An imperative method on `array<bv32>` is proved to compute exactly `Compress`.
- **Streaming state.** The class keeps `hashValues`, `messageLength` and `messageBlock`. An `EngineState` value mirrors them, and `PushByte` / `Absorb` model what `updateHash` does to that state.
- **The class.** `Sha256Engine.Sha256` is a Dafny `class` with those three fields and a ghost `finalized` flag. Its methods update the fields in place, and each method's contract ties it to the pure functions.
- **Finalization, as written.** `finalize` is modelled exactly as the code does it, including its two departures from the padding of section 5.1.1 of FIPS 180-4. Those departures are stated and proved under "## Findings", next to a corrected finalization that is proved to produce the FIPS padded message.

Representation choices:

- 32-bit words are `bv32`, so `uint32_t` wrap-around is built in.
- `messageLength` is a `nat` field kept below 2^64. Each update is written with an explicit `% TWO_64`, as `uint64_t` would wrap.
- `messageBlock` is a `seq<bv8>` that the methods reassign (`push_back`, `clear`).
- `std::string` input is modelled as its bytes (`seq<bv8>`). The output digest is a `string`.
- In the schedule load (`main.cpp:57`), `messageBlock[i * 4] << 24` promotes the byte before shifting. It is modelled as an unsigned big-endian load (`ByteEncoding.LoadWord`).
- The stream lemmas take the block function as a parameter (`Sha256Stream.BlockFunction`), because they hold for any block function. The class instantiates it with `Compress`.

Modules:

- `primitives.dfy` (`Sha256Primitives`)
- `encoding.dfy` (`ByteEncoding`): word, length-field and hexadecimal encodings, each with a round-trip lemma.
- `compression.dfy` (`Sha256Compression`)
- `stream.dfy` (`Sha256Stream`)
- `engine.dfy` (`Sha256Engine`): the class and the helper methods for its loops.
- `findings.dfy` (`Sha256Findings`)

## Model

| member | source | states |
|---|---|---|
| Sha256Primitives.RotateRight | main.cpp:17-19 | definition: `(value >> bits) or (value << (32 - bits))` on 32-bit words, callable only with 0 < bits < 32, so a shift by 32 cannot occur. |
| Sha256Primitives.RotateRightBit | main.cpp:17-19 | for every rotation amount the class uses (2, 6, 7, 11, 13, 17, 18, 19, 22, 25), the amount lies strictly between 0 and 32 (so no shift by 32 occurs), and bit i of `rotateRight(v, b)` is bit (i + b) mod 32 of v. |
| Sha256Primitives.RotateRight2Bit | main.cpp:17-19 | `rotateRight(v, 2)` rotates right by 2, bit by bit; likewise the nine lemmas below for the other amounts, each used by RotateRightBit. |
| Sha256Primitives.RotateRight6Bit | main.cpp:17-19 | rotation by 6, bit by bit. |
| Sha256Primitives.RotateRight7Bit | main.cpp:17-19 | rotation by 7, bit by bit. |
| Sha256Primitives.RotateRight11Bit | main.cpp:17-19 | rotation by 11, bit by bit. |
| Sha256Primitives.RotateRight13Bit | main.cpp:17-19 | rotation by 13, bit by bit. |
| Sha256Primitives.RotateRight17Bit | main.cpp:17-19 | rotation by 17, bit by bit. |
| Sha256Primitives.RotateRight18Bit | main.cpp:17-19 | rotation by 18, bit by bit. |
| Sha256Primitives.RotateRight19Bit | main.cpp:17-19 | rotation by 19, bit by bit. |
| Sha256Primitives.RotateRight22Bit | main.cpp:17-19 | rotation by 22, bit by bit. |
| Sha256Primitives.RotateRight25Bit | main.cpp:17-19 | rotation by 25, bit by bit. |
| Sha256Primitives.Choose | main.cpp:21-23 | definition: `(x & y) ^ (~x & z)`. |
| Sha256Primitives.ChooseIsMux | main.cpp:21-23 | the two terms of `choose` never overlap, so its xor equals an or. |
| Sha256Primitives.MuxBit | main.cpp:21-23 | the or-form picks bit i of y where x has a 1 and bit i of z where x has a 0. |
| Sha256Primitives.ChooseBit | main.cpp:21-23 | `choose(x, y, z)`: each bit of x selects the bit of y (if set) or of z (if clear), as Ch in FIPS 180-4. |
| Sha256Primitives.Majority | main.cpp:25-27 | definition: `(x & y) ^ (x & z) ^ (y & z)`. |
| Sha256Primitives.MajorityIsVote | main.cpp:25-27 | the three-way xor of `majority` equals the or of the pairwise ands. |
| Sha256Primitives.VoteBit | main.cpp:25-27 | bit i of the or-form is set exactly when at least two of the inputs have bit i set. |
| Sha256Primitives.MajorityBit | main.cpp:25-27 | `majority(x, y, z)`: each result bit is the majority vote of the three input bits, as Maj in FIPS 180-4. |
| Sha256Primitives.Sigma0 | main.cpp:29-31 | definition: rotations by 7 and 18 xor a right shift by 3. |
| Sha256Primitives.Sigma1 | main.cpp:33-35 | definition: rotations by 17 and 19 xor a right shift by 10. |
| Sha256Primitives.UpperSigma0 | main.cpp:37-39 | definition: rotations by 2, 13 and 22, xored. |
| Sha256Primitives.UpperSigma1 | main.cpp:41-43 | definition: rotations by 6, 11 and 25, xored. |
| Sha256Primitives.Add | main.cpp:65-95 | definition: `uint32_t` addition, modulo 2^32. |
| ByteEncoding.LoadWord | main.cpp:57-60 | definition: the four bytes widened to 32 bits, shifted by 24, 16, 8 and 0 and or-ed: an unsigned big-endian load. |
| ByteEncoding.WordBytes | main.cpp:56-61 | a word has exactly four bytes, most significant first; it is the inverse partner of the schedule load. |
| ByteEncoding.LoadWordBytes | main.cpp:56-61 | loading a word's four bytes with the shift-and-or of the schedule loop gives the word back. |
| ByteEncoding.WordBytesLoad | main.cpp:56-61 | splitting a loaded word gives back the four bytes, in order, so the load loses nothing. |
| ByteEncoding.ShiftRightBytes | main.cpp:146 | definition: `x >> (8 * i)` on the unsigned counter, as i divisions by 256. |
| ByteEncoding.ByteAt | main.cpp:146 | definition: `static_cast<uint8_t>((x >> (i * 8)) & 0xFF)`. |
| ByteEncoding.LengthBytes | main.cpp:145-147 | the length loop appends exactly eight bytes. |
| ByteEncoding.ToBigEndian | main.cpp:145-147 | the n-byte big-endian encoding has n bytes; the reference definition for the length bytes. |
| ByteEncoding.ToBigEndianRoundTrip | main.cpp:145-147 | decoding the n-byte big-endian encoding of x < 256^n gives x. |
| ByteEncoding.ToBigEndianByteAt | main.cpp:146 | position n-1-i of the n-byte encoding holds `(x >> (8 i)) & 0xFF`. |
| ByteEncoding.LengthBytesIsBigEndian | main.cpp:145-147 | the eight bytes of the loop from i = 7 down to 0 are the 8-byte big-endian encoding of the counter. |
| ByteEncoding.LengthBytesRoundTrip | main.cpp:145-147 | for a counter below 2^64, the eight appended bytes read back, big-endian, as the counter. |
| ByteEncoding.HexDigit | main.cpp:154 | every digit below 16 is rendered as a lowercase hexadecimal character. |
| ByteEncoding.DigitValue | main.cpp:154 | reading a lowercase hex character gives a digit below 16 that renders back to it. |
| ByteEncoding.DigitValueOfHexDigit | main.cpp:154 | reading the character rendered for a digit gives the digit. |
| ByteEncoding.ToHex | main.cpp:154 | `hex` output of a number is at least one character, all lowercase hexadecimal. |
| ByteEncoding.ToHexLength | main.cpp:154 | a number below 16^k has at most k hex digits, so a word fits in `setw(8)`. |
| ByteEncoding.ToHexRoundTrip | main.cpp:154 | reading back the hex digits of n gives n. |
| ByteEncoding.Fill | main.cpp:154 | `setfill('0')` padding is n copies of the fill character. |
| ByteEncoding.PadLeft | main.cpp:154 | `setw` padding gives the string's length or the width, whichever is larger. |
| ByteEncoding.FromHexZeros | main.cpp:154 | a run of '0' characters is hexadecimal and reads as 0. |
| ByteEncoding.FromHexLeadingZeros | main.cpp:154 | leading '0' fill characters do not change the value read back. |
| ByteEncoding.AllHexConcat | main.cpp:153-155 | concatenated hexadecimal strings are hexadecimal. |
| ByteEncoding.HexWord | main.cpp:154 | definition: `hex << setw(8) << setfill('0')` of one word, i.e. its minimal lowercase hex digits padded on the left with '0' to eight characters. |
| ByteEncoding.HexWordLength | main.cpp:154 | each word is rendered as exactly eight characters. |
| ByteEncoding.HexWordRoundTrip | main.cpp:154 | each word's eight zero-padded lowercase hex characters read back as the word. |
| ByteEncoding.HexWords | main.cpp:152-156 | the output loop produces eight characters per word. |
| ByteEncoding.HexWordsAt | main.cpp:152-156 | characters 8i .. 8i+7 of the output are the rendering of word i, word 0 first. |
| ByteEncoding.HexWordsAllHex | main.cpp:152-156 | the whole output is lowercase hexadecimal. |
| ByteEncoding.HexWordsShape | main.cpp:152-156 | the output has 8 characters per word, all hexadecimal, and each group of eight reads back as its word. |
| Sha256Compression.ROUND_CONSTANTS | main.cpp:167-176 | definition: the 64 round constants, word for word. |
| Sha256Compression.INITIAL_HASH | main.cpp:102-109 | definition: the eight initial hash words, word for word. |
| Sha256Compression.MessageWord | main.cpp:57-60 | definition: schedule word i < 16 is the load of bytes 4i .. 4i+3. |
| Sha256Compression.NextWord | main.cpp:65-68 | definition: sigma1(W[t-2]) + W[t-7] + sigma0(W[t-15]) + W[t-16] modulo 2^32, for the next index t. |
| Sha256Compression.ScheduleUpTo | main.cpp:56-69 | the schedule prefix written by the two loops after t iterations has t words. |
| Sha256Compression.Schedule | main.cpp:46-69 | `messageSchedule` has 64 words. |
| Sha256Compression.SchedulePrefix | main.cpp:56-69 | a schedule word, once written, is never rewritten: shorter prefixes are prefixes of longer ones. |
| Sha256Compression.ScheduleLoads | main.cpp:56-61 | W[0..15] are the big-endian words of bytes 4i .. 4i+3 of the block. |
| Sha256Compression.ScheduleExtends | main.cpp:64-69 | for 16 <= t < 64, W[t] = sigma1(W[t-2]) + W[t-7] + sigma0(W[t-15]) + W[t-16] modulo 2^32. |
| Sha256Compression.Temp1 | main.cpp:73-77 | definition: tempHash1 = h + Sigma1(e) + choose(e, f, g) + K[t] + W[t] modulo 2^32. |
| Sha256Compression.Temp2 | main.cpp:79-80 | definition: tempHash2 = Sigma0(a) + majority(a, b, c) modulo 2^32. |
| Sha256Compression.Round | main.cpp:72-91 | in each round, registers 1..3 take the old 0..2 and registers 5..7 the old 4..6. |
| Sha256Compression.RoundsUpTo | main.cpp:72-91 | the rounds always yield eight registers. |
| Sha256Compression.RegisterHistory | main.cpp:82-90 | from round 3 on, registers 1, 2, 3 hold register 0 of one, two and three rounds earlier, and 5, 6, 7 likewise for register 4; only registers 0 and 4 receive new values. |
| Sha256Compression.FeedForward | main.cpp:93-96 | the feed-forward yields eight words. |
| Sha256Compression.Compress | main.cpp:45-97 | definition: the feed-forward of the 64 rounds over the block's schedule, starting from the hash words; the imperative `ProcessBlock` is proved to compute it. |
| Sha256Stream.EngineState | main.cpp:13-15 | definition: the three fields `hashValues`, `messageLength` and `messageBlock` as one value. |
| Sha256Stream.Absorbing | main.cpp:113-122 | definition: what holds between calls of `updateHash`: a counter below 2^64 and fewer than 64 pending bytes. |
| Sha256Stream.Chain | main.cpp:116-117 | definition: the block function applied to each 64-byte block in turn, the reference that the compressed hash words are compared against. |
| Sha256Stream.ChainStep | main.cpp:113-122 | chaining the first k + 1 blocks is chaining the first k, then applying the block function to block k. |
| Sha256Stream.ChainAppend | main.cpp:113-122 | chaining a + b is chaining b from the hash that chaining a left. |
| Sha256Stream.Initial | main.cpp:100-111 | the constructed state, where `updateHash` may start, is in the absorbing shape: counter below 2^64, fewer than 64 pending bytes. |
| Sha256Stream.PushByte | main.cpp:114-120 | one byte keeps the state absorbing: a full buffer is compressed and cleared at once. |
| Sha256Stream.Absorb | main.cpp:113-122 | after `updateHash`, fewer than 64 bytes are pending and the counter is below 2^64. |
| Sha256Stream.AbsorbConcat | main.cpp:113-126 | chunking is invisible: feeding a then b gives the same hash words, counter and buffer as feeding a + b. |
| Sha256Stream.Follows | main.cpp:113-122 | definition: the invariant of the `updateHash` loop relating a state to every byte fed since a given state: the pending bytes are the tail after the last complete block, the hash words the chain of the blocks, the counter 8 bits per compressed byte. |
| Sha256Stream.PushFollows | main.cpp:114-120 | one byte keeps the state in step with all bytes fed so far: pending bytes are the tail after the compressed blocks, the hash is their chain, the counter has grown by 8 per compressed byte. |
| Sha256Stream.PushFollowsFull | main.cpp:116-120 | the byte that fills the buffer compresses exactly the next block and adds 512 to the counter. |
| Sha256Stream.AbsorbFollows | main.cpp:113-122 | `updateHash` keeps the state in step with the pending bytes followed by the new data. |
| Sha256Stream.FollowsMeans | main.cpp:113-122 | a state in step with m holds the last mod(|m|, 64) bytes of m, the chain of its 64 * div(|m|, 64) first bytes, and the counter plus 512 per block. |
| Sha256Stream.AbsorbPending | main.cpp:113-122 | with p pending bytes and n new ones, `updateHash` leaves (p + n) mod 64 pending: the bytes after the last complete block. |
| Sha256Stream.AbsorbLength | main.cpp:118 | `messageLength` grows by 512 * ((p + n) div 64), modulo 2^64. |
| Sha256Stream.AbsorbHash | main.cpp:116-117 | the hash words are the old ones with every complete 64-byte block of pending + new bytes compressed into them, in order. |
| Sha256Stream.LengthStaysAligned | main.cpp:118 | a counter that is a multiple of 512 stays a multiple of 512. |
| Sha256Stream.Zeros | main.cpp:138-141 | n zero bytes. |
| Sha256Stream.PaddedSize | main.cpp:130-132 | definition: the size the padding stops at, 56 when fewer than 56 bytes are pending, otherwise 120. |
| Sha256Stream.Padding | main.cpp:129-141 | definition: the pending bytes, 0x80, then zeros up to `PaddedSize`. |
| Sha256Stream.FinalLength | main.cpp:144 | definition: the counter plus 8 times the size of the padded buffer, modulo 2^64. |
| Sha256Stream.FinalBuffer | main.cpp:143-147 | definition: the padding followed by the eight big-endian bytes of `FinalLength`. |
| Sha256Stream.FinalHash | main.cpp:149 | definition: the block function applied once, to the first 64 bytes of the final buffer. |
| Sha256Stream.Digest | main.cpp:151-156 | definition: the hex rendering of `FinalHash`. |
| Sha256Stream.PaddingShape | main.cpp:129-141 | with P pending bytes, bytes [0, P) are unchanged, byte P is 0x80, and zero bytes follow up to 56 bytes (P < 56) or 120 (P >= 56). |
| Sha256Stream.FinalBufferShape | main.cpp:143-147 | exactly 8 bytes follow the padding, giving 64 or 128 bytes; they read back, big-endian, as the counter increased by 8 times 56 or 120, modulo 2^64. |
| Sha256Stream.FinalHashInput | main.cpp:149 | with P < 56 the whole 64-byte buffer, length bytes included, is compressed; with P >= 56 only the first 64 bytes of the padding are, once. |
| Sha256Stream.DigestShape | main.cpp:151-156 | `finalize` returns 64 lowercase hex characters, eight per hash word, word 0 first, each group reading back as its word. |
| Sha256Engine.ShiftRegisters | main.cpp:83-90 | the eight moves leave registers 0 and 4 with the new values and shift 0..2 into 1..3 and 4..6 into 5..7. |
| Sha256Engine.RoundStep | main.cpp:73-90 | one iteration of the compression loop turns the working registers into `Round` of the old ones. |
| Sha256Engine.PrepareSchedule | main.cpp:55-69 | the two loops fill a fresh 64-word array with exactly the message schedule of the block. |
| Sha256Engine.CompressionLoop | main.cpp:71-91 | the main loop leaves the working registers equal to the 64 rounds applied to their initial values. |
| Sha256Engine.UpdateHashValues | main.cpp:93-96 | each `hashValues[i]` becomes old `hashValues[i]` + `workingHash[i]` modulo 2^32. |
| Sha256Engine.PadBlock | main.cpp:129-141 | the padding loop produces exactly `Padding` of the pending bytes. |
| Sha256Engine.AppendLength | main.cpp:145-147 | the length loop appends exactly the eight `LengthBytes` of the counter. |
| Sha256Engine.HexString | main.cpp:151-156 | the output loop produces exactly the hex rendering of the eight hash words, word 0 first. |
| Sha256Engine.Sha256.Valid | main.cpp:13-15 | definition: eight hash words, a counter below 2^64, and fewer than 64 pending bytes until finalized. |
| Sha256Engine.Sha256.State | main.cpp:13-15 | definition: the three fields as an `EngineState` value. |
| Sha256Engine.Sha256.constructor | main.cpp:100-111 | a new object holds the eight initial hash words, a zero counter and an empty buffer. |
| Sha256Engine.Sha256.ProcessBlock | main.cpp:45-97 | `hashValues` becomes `Compress` of its old value and the first 64 buffered bytes; only `hashValues` changes (the buffer and the counter are outside its frame). |
| Sha256Engine.Sha256.UpdateHash | main.cpp:113-122 | the object's state becomes `Absorb` of its old state and the first `dataLength` bytes of `data`. |
| Sha256Engine.Sha256.AbsorbByte | main.cpp:114-120 | one loop iteration turns the state into `PushByte` of the old state. |
| Sha256Engine.Sha256.UpdateHashString | main.cpp:124-126 | the string overload has the same effect as feeding its bytes. |
| Sha256Engine.Sha256.PadAndAppendLength | main.cpp:129-147 | the buffer becomes the final buffer of the old state and the counter its final length. |
| Sha256Engine.Sha256.Finalize | main.cpp:128-157 | from any state reachable by `updateHash`: the buffer and counter become the final buffer and length, the hash words `FinalHash`, and the returned string `Digest` of the old state; the object is marked finalized. |
| Sha256Engine.Sha256.CalculateHash | main.cpp:159-163 | the returned string is the digest of a new object fed the whole input; it is 64 lowercase hexadecimal characters. |
| Sha256Findings.AbsorbBlocksThenRest | main.cpp:113-122 | feeding complete blocks followed by fewer than 64 bytes to a new object compresses the blocks into the initial hash words, counts 8 bits per compressed byte and leaves the rest pending. |
| Sha256Findings.FinalLengthPadded | main.cpp:144 | the counter written by `finalize` is the old counter plus 8 times 56 or 120, modulo 2^64. |
| Sha256Findings.LengthFieldOfBlocksThenRest | main.cpp:144 | finding 1, for a message given as complete blocks and a rest. |
| Sha256Findings.LengthFieldAfterBlocks | main.cpp:144 | finding 1, for any state that has counted the blocks and holds the rest. |
| Sha256Findings.LengthFieldCountsPadding | main.cpp:144 | for every message m, the length field equals 8 * (the bytes of m's complete blocks + 56 or 120) modulo 2^64, and it is never 8 times the length of m modulo 2^64. |
| Sha256Findings.EmptyMessageLengthField | main.cpp:144-147 | for the empty message, the length field is 448, encoded big-endian in the last eight bytes. |
| Sha256Findings.SecondBlockDropped | main.cpp:149 | with 56 or more pending bytes, the final hash words do not depend on the counter at all. |
| Sha256Findings.FipsPad | main.cpp:128-147 | the FIPS 180-4 padded message (the corrected reference) is a whole number of 64-byte blocks. |
| Sha256Findings.FipsPadShape | main.cpp:128-147 | the FIPS padded message keeps the message, then 0x80 and zeros, ending in the 8-byte big-endian bit length, and has 9 to 72 bytes more than the message. |
| Sha256Findings.CorrectedBuffer | main.cpp:128-147 | the corrected final buffer is one or two whole blocks. |
| Sha256Findings.CorrectedFinalHash | main.cpp:149 | definition: the corrected finalization compresses every block of the corrected buffer, one or two. |
| Sha256Findings.CorrectedDigest | main.cpp:151-156 | definition: the hex rendering of `CorrectedFinalHash`. |
| Sha256Findings.CorrectedCountArith | main.cpp:144 | for complete blocks of a bytes followed by p more, the padding's zero count matches the FIPS one for a + p bytes, and the corrected counter is 8 (a + p) modulo 2^64. |
| Sha256Findings.CorrectedBufferAfterBlocks | main.cpp:128-147 | after complete blocks, the blocks followed by the corrected final buffer are the FIPS padded message. |
| Sha256Findings.CorrectedBufferCompletesPad | main.cpp:128-147 | fed to a new object, the complete blocks followed by the corrected final buffer are the FIPS padded message. |
| Sha256Findings.CorrectedFinalHashIsFips | main.cpp:128-163 | with the corrected finalization, feeding m and finalizing gives the block function chained over the FIPS padded message, from the initial hash words. |
| Sha256Findings.CorrectedDigestShape | main.cpp:151-163 | the corrected digest is 64 lowercase hex characters: the rendering of that chain. |

Proof helpers with no source lines of their own, and so no row: `ByteEncoding.SmallByteRoundTrip`, `ByteEncoding.ByteRoundTrip`, `ByteEncoding.DivBound`, `ByteEncoding.Pow256`, `ByteEncoding.Pow16`, `Sha256Stream.ModAddLeft`, `Sha256Stream.AlignedMod`, `Sha256Stream.SplitMod`, `Sha256Findings.ModShiftChanges`, `Sha256Findings.SameCut`, `Sha256Findings.SplitMessage`, `Sha256Findings.BlocksThenRestSizes` and `Sha256Findings.PaddedCountArith`.

## Left out

- `main()`: its file I/O, read loop and console reporting are outside the class.
- `messageBlock.reserve(64)` is a performance detail.
- The `stringstream`/`iomanip` machinery is modelled as a pure function on words (`ByteEncoding.HexWord`), not a library stream.
- Cryptographic properties such as collision resistance cannot be stated about this code.
- Known-answer vectors are not proved. Because of the findings below, this code is not expected to reproduce them.
- Sha256Primitives.RotateRightBit: the rotation property is proved only for the ten amounts the class uses, not for every 0 < b < 32.
- The bit-level descriptions of `sigma0`, `sigma1`, `upperSigma0` and `upperSigma1` are not stated. They follow from the rotation lemmas but are not proved.
- No lemma shows that one compression round can be undone (the round as a bijection of the registers). The model states what the rounds compute, not that they are invertible.
- Reuse after `finalize` is excluded by the ghost `finalized` flag, which `UpdateHash` and `Finalize` require to be false. The class does not guard against reuse. After `finalize` the buffer still holds 64 or 128 bytes. When it holds 128, a second `finalize` computes `120 - originalBlockSize`, which wraps around in `size_t`.
- The pointer-and-length overload of `updateHash` is modelled by an array and a length at most its size. Reading past the end of the caller's buffer is not modelled.
- `messageLength` is a `nat` below 2^64 with every update taken modulo 2^64, which matches `uint64_t`. Whether the counter would overflow for messages of 2^61 bytes or more is not examined further.

## Findings

| source | as written | input that shows it | evidently intended | confidence | as-written member | corrected member |
|---|---|---|---|---|---|---|
| main.cpp:144 | `messageLength += messageBlock.size() * 8` runs after padding, so it adds 8 * 56 or 8 * 120 rather than 8 times the number of pending message bytes | the empty message: the length field is 448, where FIPS 180-4 gives 0 | add 8 * (pending bytes) before padding, so that the field is the message length in bits modulo 2^64 | not executed | Sha256Findings.LengthFieldCountsPadding | Sha256Findings.CorrectedFinalHashIsFips |
| main.cpp:149 | `processBlock()` runs once and reads only bytes 0..63, so when 56 or more bytes are pending the second block, which holds the length field, is never compressed | any state with 56 or more pending bytes, such as after a message of 56 + 64k bytes for any k: changing the counter does not change the final hash, so the length field never reaches it | compress both blocks when the padded buffer holds 128 bytes | not executed | Sha256Findings.SecondBlockDropped | Sha256Findings.CorrectedFinalHashIsFips |
