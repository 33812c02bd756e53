# BLAKE2b streaming hash (Blake2b.cpp) in Dafny

This project models `src/Blake2/Blake2b.cpp`, a streaming implementation of
BLAKE2b as RFC 7693 defines it. The hash object keeps four things:

- a running 8-word hash `m_hash`;
- a 128-byte pending block `m_chunk`;
- the number of pending bytes `m_chunkSize`;
- the byte counter `m_bytesCompressed`, plus the digest length `m_outputHashLength`.

`Init(key, outputHashLength)` checks its arguments, loads the parameter-block
IV and makes a key the first pending block. `Update(data, len)` copies the
input into the pending block. It compresses a full block only when more
input arrives, so a full block is never compressed before it is known not to
be the last. `Finalize()` zero-pads the pending block, compresses it as the
final block and returns the first `outputHashLength` bytes of the hash.
`Blake2b(message)` is the one-shot hash that chains these calls.

The project has three modules, one per file:

- `blake2b_spec.dfy` (`Blake2bSpec`) holds RFC 7693 as pure functions:
  - IV and SIGMA (sections 2.6 and 2.7);
  - little-endian words (section 2.4) and the parameter block (section 2.5);
  - G (section 3.1) and the compression function F (section 3.2);
  - the whole-message digest `Digest(key, msg, nn)` (section 3.3).
- `blake2b_state.dfy` (`Blake2bState`) describes the object's state as a
  value. Functions give what `Init`, `Update` and `Finalize` do to it. It
  proves:
  - `Update` does not depend on how the input is split;
  - every compression during streaming gets the RFC byte counter;
  - `Init`, `Update` and `Finalize` together compute `Digest(key, msg, nn)`.
  It also holds both halves of the key-padding finding below.
- `blake2b.dfy` (`Blake2bImpl`) holds the object itself:
  - a class `Blake2b` with an `array<bv64>` hash and a 128-byte `array<bv8>` block;
  - methods for `Init`, `Update` and `Finalize` that change the object in
    place, each proved to have the effect the functions of `Blake2bState`
    give;
  - a method for `compress` that works in place on the hash, proved to
    compute F of `Blake2bSpec`, and one for `mix` that takes and returns the
    four words, proved to compute G;
  - the one-shot `Hash`, proved to return `Digest([], message, 64)`.

Several definitions in `Blake2bSpec` (SigmaRow, GWords, G, Round, F,
Word64) go through a helper with a `delay` argument that counts down and
changes nothing. This only keeps the verifier from expanding them everywhere.
The lemmas named "…Definition", SigmaRowIsTableRow and RoundsStep unfold
them. Likewise, the one-line step lemmas of `Blake2bImpl` (SumStep,
RotateStepR1…R4, XorStep, FoldStep, ParameterStep) only name one statement's
effect. In the table below such lemmas are marked as unfoldings.

The two structural rules the code relies on are part of the state's
invariant:

- the pending block holds at most 128 bytes;
- the byte counter stays below 2^64.

## Model

| member | source | states |
|---|---|---|
| Blake2bSpec.SigmaRowsArePermutations | src/Blake2/Blake2b.cpp:50-65 | SIGMA has 10 rows of 16 indices below 16, and the entries of each row are pairwise distinct. So each row is a permutation of 0..15, and `m_chunk[sigma[k]]` is always in bounds. |
| Blake2bSpec.SigmaRowIsTableRow | src/Blake2/Blake2b.cpp:245 | Unfolding: the row a round uses, `SigmaRow(i % 10)`, is row `i % 10` of the SIGMA table. |
| Blake2bSpec.ParamInitIsParameterBlock | src/Blake2/Blake2b.cpp:110-114 | IV with word 0 xored with `0x01010000 ^ (kk << 8) ^ nn` is IV xored word by word with the little-endian words of the RFC 7693 parameter block. That block is digest length, key length, fanout 1, depth 1, then zeros. |
| Blake2bSpec.StoreLoadWord | src/Blake2/Blake2b.cpp:173-180 | Encoding the word loaded from eight bytes gives those eight bytes back. |
| Blake2bSpec.LEBytesOfWords | src/Blake2/Blake2b.cpp:173-180 | Decoding a 128-byte block into 16 little-endian words and encoding them again gives the block. So the byte view that Update writes and the word view that compress reads are the same storage. |
| Blake2bSpec.WordsOfLEBytes | src/Blake2/Blake2b.cpp:248-257 | Encoding 16 words and decoding them again gives the words. |
| Blake2bSpec.LEBytesAt | src/Blake2/Blake2b.cpp:213 | Byte `8 * j + k` of the hash's byte image is byte `k` of word `j`, least significant byte first. |
| Blake2bSpec.LoadWordOfLEBytes | src/Blake2/Blake2b.cpp:213 | Loading word `j` back from the byte image of the hash gives `h[j]`. |
| Blake2bSpec.GWordsDefinition | src/Blake2/Blake2b.cpp:274-284 | Unfolding: G on four words is its eight steps. Two rounds each do an add into a, an xor-rotate of d by 32 (then 16), an add into c, and an xor-rotate of b by 24 (then 63). |
| Blake2bSpec.GUpdatesFour | src/Blake2/Blake2b.cpp:248-257 | A vector is G(v, a, b, c, d, x, y) if and only if positions a, b, c, d hold the four words G computes and the other twelve hold v's words. |
| Blake2bSpec.RoundDefinition | src/Blake2/Blake2b.cpp:247-257 | Unfolding: a round is G on columns (0,4,8,12) … (3,7,11,15), then on diagonals (0,5,10,15) … (3,4,9,14). Call i takes message inputs 2i and 2i+1. |
| Blake2bSpec.RoundsStep | src/Blake2/Blake2b.cpp:242-245 | Unfolding: round n + 1 applies SIGMA row `n % 10` to the result of the first n rounds. |
| Blake2bSpec.CounterBelow64 | src/Blake2/Blake2b.cpp:228-233 | For a counter below 2^64, the low counter word is the counter and the high word is 0. So skipping `v[13] ^= HI(t)` changes nothing. |
| Blake2bSpec.FDefinition | src/Blake2/Blake2b.cpp:218-264 | Unfolding: F(h, m, t, f) is the feed-forward `h[i] ^ v[i] ^ v[i + 8]` of twelve rounds. The rounds run on `h ++ IV`, with the counter words xored into v[12] and v[13] and v[14] inverted iff f. |
| Blake2bSpec.ZeroPad | src/Blake2/Blake2b.cpp:204-205 | The padded block is 128 bytes: x followed by zeros. |
| Blake2bSpec.MessageBlocksAt | src/Blake2/Blake2b.cpp:155-191 | Block i of the message is bytes `128 * i` up to `128 * i + 128` (or the end), zero-padded, and starts inside the message. |
| Blake2bState.Initialize | src/Blake2/Blake2b.cpp:96-139 | Init fails exactly when nn is outside 1..64 or the key is longer than 64 bytes. A bad nn is reported first. On success the hash is the parameter-block IV and the length is nn. A non-empty key gives the zero-padded key as pending block, with chunkSize = counter = 128. With no key both are 0 and the block is untouched. |
| Blake2bState.Flush | src/Blake2/Blake2b.cpp:158-162 | Compressing the full block keeps the block bytes, the counter and the length, and empties the block. |
| Blake2bState.FlushIfFull | src/Blake2/Blake2b.cpp:158-162 | Afterwards the block is not full, and the bytes, counter and length are unchanged. |
| Blake2bState.CopySize | src/Blake2/Blake2b.cpp:165-170 | A pass copies at least 1 and at most len bytes, never past the end of the block. It stops only at the end of the input or of the block. |
| Blake2bState.OverwriteAt | src/Blake2/Blake2b.cpp:180 | After the memcpy of x at offset `at`, byte j is `x[j - at]` inside the copied range and unchanged outside it. |
| Blake2bState.CopyIn | src/Blake2/Blake2b.cpp:172-186 | Copying x keeps the hash, the length and the bytes before chunkSize, and puts x at chunkSize. chunkSize and the counter both grow by the length of x. |
| Blake2bState.Absorb | src/Blake2/Blake2b.cpp:147-191 | Update keeps the state well formed and grows the counter by exactly the length of data. It keeps the length, is a no-op on empty input, and leaves a non-empty block after non-empty input, so a full block waits for more input. |
| Blake2bState.AbsorbStartsWithFlush | src/Blake2/Blake2b.cpp:155-162 | Unfolding of one pass: Update on non-empty input first compresses a full block as non-final. |
| Blake2bState.AbsorbPass | src/Blake2/Blake2b.cpp:164-190 | Unfolding of one pass: with room in the block, Update copies the bytes that fit and continues with the rest of the input. |
| Blake2bState.AbsorbConcat | src/Blake2/Blake2b.cpp:147-191 | Chunking invariance: Update(a) then Update(b) leaves the whole state as Update(a + b) does, stale buffer bytes included. |
| Blake2bState.InitializeAbsorbsKeyPrefix | src/Blake2/Blake2b.cpp:116-136 | After a valid Init, the object has absorbed the stream made of the padded key block (or nothing), from the parameter-block IV. |
| Blake2bState.FlushKeepsAbsorbed | src/Blake2/Blake2b.cpp:158-162 | Compressing a full block keeps the absorbed-stream invariant. The counter passed to that compression is the number of stream bytes through the end of the block: RFC 7693's t. |
| Blake2bState.CopyKeepsAbsorbed | src/Blake2/Blake2b.cpp:172-186 | Copying x into the block extends the absorbed stream by x. |
| Blake2bState.AbsorbExtendsStream | src/Blake2/Blake2b.cpp:147-191 | Update(data) extends the absorbed stream by exactly data. All compressed blocks are hashed in order with counters 128, 256, …. |
| Blake2bState.FinalizeState | src/Blake2/Blake2b.cpp:194-208 | Finalize zero-fills the block from chunkSize to 128. It compresses it once as the final block with the current counter, and keeps chunkSize, counter and length. |
| Blake2bState.Output | src/Blake2/Blake2b.cpp:210-215 | The digest has exactly outputLength bytes, and byte i is byte `i % 8` (little-endian) of final hash word `i / 8`. |
| Blake2bState.OutputOfAbsorbed | src/Blake2/Blake2b.cpp:194-215 | Once the stream s is absorbed, Finalize's output is the digest over the data blocks of s, with the last block final at a counter equal to the length of s. |
| Blake2bState.InitUpdateAbsorbs | src/Blake2/Blake2b.cpp:96-191 | Init(key, nn) then Update(msg) absorbs the padded key (if any) and then msg. The block is empty only if both are. |
| Blake2bState.StreamingMatchesDigest | src/Blake2/Blake2b.cpp:96-216 | Init(key, nn), Update(msg) and Finalize() on any object give BLAKE2b(key, msg, nn) of RFC 7693 section 3.3. |
| Blake2bState.KeyBlockAsWritten | src/Blake2/Blake2b.cpp:122-125 | As written, the key block is the key followed by the buffer's previous bytes (the memset misses the buffer). |
| Blake2bState.InitializeAsWritten | src/Blake2/Blake2b.cpp:96-139 | Init as written fails exactly when Initialize does. It differs from it only in the key block. |
| Blake2bState.KeyPaddingKeepsStaleBytes | src/Blake2/Blake2b.cpp:125 | A buffer of 0xFF bytes with key [1] shows the as-written key block is not the zero-padded key. |
| Blake2bState.KeyPaddingFreshBuffer | src/Blake2/Blake2b.cpp:87-94 | On the all-zero buffer of a newly constructed object, Init as written equals the intended Init. |
| Blake2bImpl.RotateRightRotates | src/Blake2/Blake2b.cpp:30-34 | For the amounts 32, 24, 16 and 63, rotateRight is the 64-bit right rotation. |
| Blake2bImpl.Mix | src/Blake2/Blake2b.cpp:266-285 | The four words mix leaves are G's, with wrapping adds and rotations by 32, 24, 16 and 63. |
| Blake2bImpl.MixAt | src/Blake2/Blake2b.cpp:248-257 | mix on four distinct words of the working vector, passed by reference, leaves the vector as G(v, a, b, c, d, x, y). |
| Blake2bImpl.MixRound | src/Blake2/Blake2b.cpp:244-257 | One pass of the round loop turns the working vector into Round(v, m, SIGMA row). |
| Blake2bImpl.Copy | src/Blake2/Blake2b.cpp:111 | std::copy writes src at offset `at` and leaves the rest of dst unchanged. |
| Blake2bImpl.LoadWorkingVector | src/Blake2/Blake2b.cpp:220-239 | The working vector is `h ++ IV`, with the counter xored into v[12] (the high word is 0) and v[14] inverted iff final. |
| Blake2bImpl.MixRounds | src/Blake2/Blake2b.cpp:241-258 | The twelve rounds with SIGMA rows `i % 10` give Rounds(v, m, 12). |
| Blake2bImpl.FoldWord | src/Blake2/Blake2b.cpp:262 | `m_hash[i] ^= v[i] ^ v[i + 8]` changes word i to `h[i] ^ v[i] ^ v[i + 8]` and no other word. |
| Blake2bImpl.FoldInto | src/Blake2/Blake2b.cpp:260-263 | The loop leaves the hash as FeedForward(h, v). |
| Blake2bImpl.ZeroFrom | src/Blake2/Blake2b.cpp:205 | The memset zeroes the buffer from `from` to the end, and leaves the bytes before it. |
| Blake2bImpl.LoadParameters | src/Blake2/Blake2b.cpp:110-114 | Copying IV and xoring the parameter word into word 0 leaves the hash as ParamInit(kk, nn). |
| Blake2bImpl.LoadKey | src/Blake2/Blake2b.cpp:121-125 | The key is copied and the rest of the block zeroed (the intended padding), so the block is ZeroPad(key). |
| Blake2bImpl.UpdatePass | src/Blake2/Blake2b.cpp:155-190 | Unfolding of one loop pass, combining AbsorbStartsWithFlush and AbsorbPass: the input left to absorb after flushing and copying the bytes that fit gives the same final state as before. |
| Blake2bImpl.CopyOut | src/Blake2/Blake2b.cpp:211-213 | The new vector of n bytes is the first n bytes of the little-endian image of the hash words. |
| Blake2bImpl.Blake2b.constructor | src/Blake2/Blake2b.cpp:87-94 | A new object has a zero hash, a zero block, chunkSize and counter 0, and digest length 64. |
| Blake2bImpl.Blake2b.Init | src/Blake2/Blake2b.cpp:96-139 | Init rejects a bad length or key with the error Initialize names and changes nothing. Otherwise it returns Done and leaves the state Initialize gives. |
| Blake2bImpl.Blake2b.Load | src/Blake2/Blake2b.cpp:110-138 | On accepted arguments the fields become the parameter-block IV, the padded key with 128/128 (or the old block with 0/0), and the length. |
| Blake2bImpl.Blake2b.FlushIfFullBlock | src/Blake2/Blake2b.cpp:158-162 | A full block is compressed as non-final and emptied; otherwise nothing changes. |
| Blake2bImpl.Blake2b.Append | src/Blake2/Blake2b.cpp:172-186 | The memcpy at byte offset chunkSize and the two counter updates leave the state CopyIn(old state, piece). |
| Blake2bImpl.Blake2b.UpdatePassStep | src/Blake2/Blake2b.cpp:157-190 | One pass takes in the minimum of the room left in the (flushed) block and the input left, at least one byte. The new state is CopyIn(FlushIfFull(old state), those bytes). The counter grows by the bytes taken, and absorbing the rest from the new state gives what absorbing from `offset` gave. |
| Blake2bImpl.Blake2b.Update | src/Blake2/Blake2b.cpp:147-191 | The loop leaves the object state Absorb(old state, data). |
| Blake2bImpl.Blake2b.Finalize | src/Blake2/Blake2b.cpp:194-216 | The state becomes FinalizeState(old state), and the returned bytes are Output(old state). |
| Blake2bImpl.Blake2b.Compress | src/Blake2/Blake2b.cpp:218-264 | The hash becomes F(h, words of the block, counter, finalChunk), and the object stays valid. |
| Blake2bImpl.Hash | src/Blake2/Blake2b.cpp:67-75 | The one-shot hash of a message shorter than 2^64 bytes is 64 bytes long. It is RFC 7693's unkeyed 64-byte BLAKE2b digest, `Digest([], message, 64)`. |

## Left out

- Blake2bImpl.RotateRightRotates: proves the template agrees with a true rotation only for the four amounts mix uses (32, 24, 16, 63), not for every 0 < n < 64. With a symbolic amount the proof is too costly for the solver.
- Blake2bImpl.Blake2b.Update: requires that the counter plus the input length stays below 2^64. The source does not check this and would wrap. It supports no message of that size, as the comment at lines 228-232 says, so the high counter word is never modelled as nonzero.
- Blake2bImpl.LoadKey: models the padding the source means to write (bytes keySize..127 zero), not the out-of-bounds memset at line 125. The as-written behaviour is modelled separately; see Findings. The memory corruption outside the object is not modelled.
- Blake2bImpl.Hash: takes `Init()` with no arguments to mean no key and a 64-byte digest. Blake2b.h, where those defaults are declared, is not part of this model.
- The pending block is a 128-byte array. `compress` reads its 16 words as little-endian words, which is what the source's reads of the `std::vector<uint64_t>` do on a little-endian host. Byte aliasing through `void*` is not modelled; the lemmas LEBytesOfWords and WordsOfLEBytes state that the two views agree.
- `mix` takes four words by reference; the model passes them in and out as values and writes them back to the working vector.
- The `std::string` overload of `Blake2b` (lines 77-85) and the `Update(const std::vector<uint8_t>&)` forwarder (lines 141-145) only convert their argument to bytes. Update takes `seq<bv8>`.
- The unused forward declaration of `compress` (lines 15-19) has no behaviour.
- The `std::invalid_argument` exceptions of Init become the `Rejected` status. In both cases nothing has been changed when the error is reported.
- The `uint8_t size` and `size_t len` of Update are `nat`s. `size` never exceeds 128, so the 8-bit width never truncates it.
- Misuse the source does not guard against, such as finalizing twice or calling Update after Finalize, is neither forbidden nor given special meaning. The methods do to the state exactly what they do at any other time.
- No RFC 7693 test vector is evaluated. The digest is related to the RFC's definition by proof, not by example.

## Findings

| source | as written | input that shows it | evidently intended | confidence | as-written member | corrected member |
|---|---|---|---|---|---|---|
| src/Blake2/Blake2b.cpp:125 | `std::memset(&m_chunk[remainingBytes], 0, remainingBytes)` indexes the 16-word `m_chunk` at word 128 - keySize (at least 64), so it writes outside the buffer and never zero-fills the block after the key | an object whose block holds 0xFF bytes from earlier input, re-initialised with key [1]: block byte 1 stays 0xFF instead of 0 | zero the block from byte keySize to byte 127, so the first data block is the zero-padded key of RFC 7693 section 3.3 | not executed | Blake2bState.InitializeAsWritten, Blake2bState.KeyPaddingKeepsStaleBytes | Blake2bState.Initialize, Blake2bState.StreamingMatchesDigest |
