# A verified model of the asset server

The server reads Ragnarok Online archives (GRF files), merges them into one index, resolves request paths through a cache
and a chain of sources, and relays game connections from WebSocket to TCP. This project models those parts in Dafny and
proves what they are for.

- **Archive codecs.** `Des`, `Chaining`, `Cham`, `ThreeWay`, `Idea` and `Rc6` are the ciphers, written out concretely with
  their in-place loops. `Tails`, `Protected` and `ProtectedEntry` are the protected entries and their key blocks.
  `GrfTable`, `GrfLegacy` and `GrfHeader` are the file tables and headers, `GrfArchive` the reader, `GrfWriter` and
  `GrfWriting` the writers. `GrfRoundTrip` holds the main results: an archive the writers write within the formats' limits
  opens to exactly its files and gives their data back, and every strict prefix of one is refused. `Misread` is what
  happens to a payload read in the wrong mode. `ToyLibrary` meets every law assumed of library code, and holds the
  archives that show where a file does not come back.
- **What the codecs are.** A round trip holds for any pair of inverse functions, so the formats are also stated without
  the functions that read and write them. `DesReference` and `DesTables` give the DES variant bit by bit and by the tables
  of FIPS 46-3, and its schedule in numeric ranges; `IdeaReference` and `Rc6Reference` the key schedules without rotation
  or table; `CipherVectors` published test vectors; `FormatLayout` and `ProtectedReference` every field at its place, with
  literal keys, biases and limits.
- **The cache.** `Recency` is a plain recency list; `Cache` is the class with its map, access order and byte total, proved
  against that list. `WorkingSet` says what the list holds without mentioning eviction, and so when a key is a hit.
  `CacheRuns` runs gets, inserts and encodings in every interleaving.
- **The index and the client.** `AssetIndex` is the four-key index, proved equal to a scan in archive order. `Client` is
  the source chain behind the cache, `Precedence` says which source answers in any world, and `ClientRuns` says exactly
  when caching cannot be observed, over resolves that interleave. `Serving` joins archives, index and client: what was
  written into an archive is what a request is served.
- **The proxy** (`WsProxy`) is a step system over frames, partial writes, reads and failures: nothing is lost or
  reordered, it closes only for a cause, and what is due can always still be delivered.
- **The calendar** (`Calendar`) is `civil_from_days` and the timestamp around it.
- `Bytes`, `Words` and `Library` hold bytes, words and the interface to library code.

## How it is modelled

Bytes are 8-bit vectors, and words that wrap around are vectors of 16, 32 or 128 bits. Code that rewrites a buffer is a
method over an array, or over the fields of a class, whose contract gives the new contents as a function of the old; the
theorems are about those functions. AES, zlib, LZ4, the hashes and the case and CP949 tables are parameters. `Library`
states the only laws assumed of them, and only the theorems that need a law name it: AES decryption inverts encryption; a
deflated stream is not empty and inflates to its source in any larger buffer, whatever follows it; LZ4 inverts its
compressor. Errors are a `Result` with coarse codes.

## Where the code does less than one might expect

Each of these is proved, with the exact condition where one is named:

- A 0x1xx table keeps a name exactly when it has no NUL and its padded length is at most 248, because the reader takes the
  length from one byte (`GrfLegacy.NameSurvives`). A longer name is cut, and what is left is stated too.
- Equal packed and real sizes mean "stored". A file whose deflated stream is exactly as long as the file reads back as
  that stream; every other one reads back as itself (`Inflatable` in `GrfWriter`, used by both archive theorems).
  `ToyLibrary.ShortFileReadsAsItsStream` is such a file.
- A 0x300 header reads back exactly when the table starts below 2^40 (`GrfHeader.WideHeaderRoundTrip`).
- An ordinary entry reads shorter than it declares in exactly two cases (`GrfArchive.ReadSizes`): it has no body at all,
  or its body is shorter than the stored content it declares. `NoBodyReadsEmpty` and `ShortBodyReadsShort` are one of
  each.
- A 0x102 file is written in header mode and read in mixed mode exactly when its extension asks for header mode but its
  flags, or the extension of its name after the cut, ask for mixed mode (`GrfRoundTrip.Disagrees`). Its payload survives
  exactly when the mixed schedule leaves every block behind the twentieth as it is (`Misread.MisreadIff`,
  `GrfRoundTrip.LegacyContentSurvives`); `ToyLibrary.WrongModeDamages` is an archive whose file reads as other bytes.
- Caching is invisible exactly when every stored answer agrees with the sources for all public paths that share its key.
  Warm-up and resolves without game data can break that; two concrete clients show it (`ClientRuns`).
- `add_encoding` says the entry it grows is the newest. It is exactly when no hit and no kept insert of another key came
  after the last of its own (`CacheRuns.GrownIsNewestIff`); `CacheRuns.GrownNeedNotBeNewest` is a run in which it is not.
  The entry keeps its rank and is spared even when it is the oldest (`Cache.FileCache.AddEncoding`).
## Model

| member | source | states |
|---|---|---|
| `Des.PermutationsAreInverse` | src/des.rs:100-122 | the initial and the final bit permutation undo each other on every block, both ways |
| `Des.Permute` | src/des.rs:100-122 | the loop over a bit table, in place, leaves the block permuted by that table |
| `Des.EvenWindow` | src/des.rs:136-148 | the even windows of the expansion are the bits the E table of DES asks for: the last bit of the byte before, then five of its own |
| `Des.OddWindow` | src/des.rs:136-148 | the odd windows likewise, ending in the first bit of the byte after |
| `Des.Expansion` | src/des.rs:136-148 | the in-place expansion writes the eight windows of bytes 4 to 7 |
| `Des.SubstitutionBox` | src/des.rs:150-158 | the in-place substitution packs two table entries a byte and clears bytes 4 to 7 |
| `Des.Transposition` | src/des.rs:124-134 | the in-place transposition writes the transposed bits of bytes 0 to 3 into bytes 4 to 7 and clears the first four |
| `Des.RoundFunction` | src/des.rs:160-170 | the round changes bytes 0 to 3 by a function of bytes 4 to 7, which it leaves alone |
| `Des.RoundIsInvolution` | src/des.rs:160-170 | the round applied twice is the identity |
| `Des.TransformIsInvolution` | src/des.rs:172-179 | `decrypt_block` applied twice is the identity on every block |
| `DesReference.TransformBits` | src/des.rs:160-179 | the block transform bit by bit, without its permutation tables: even bits of every byte stay, and each odd bit is XORed with a bit of a mask that depends on the even bits alone |
| `DesReference.MaskBits` | src/des.rs:124-170 | bit `i` of that mask is one bit of the S-box entry whose six-bit window of the even bits the E table of DES names |
| `DesTables.StandardBoxes` | src/des.rs:50-75 | the packed tables are the eight S-boxes of FIPS 46-3, row by row and column by column |
| `DesTables.StandardRound` | src/des.rs:36-75 | with the permutation P the round is the round of FIPS 46-3 without its key |
| `Des.DecryptBlock` | src/des.rs:172-179 | the in-place method rewrites exactly its eight bytes with the block transform |
| `Des.ShuffleDecTable` | src/des.rs:79-98 | the table built from the list of pairs swaps the listed bytes and keeps every other byte |
| `Des.SwapIsInvolution` | src/des.rs:79-98 | the byte substitution is its own inverse |
| `Des.ShuffleInverses` | src/des.rs:185-203 | the two shuffles undo each other both ways |
| `Des.ShuffleDec` | src/des.rs:185-193 | the in-place shuffle, as a permutation of the block and a substitution of its last byte |
| `Des.ShuffleEnc` | src/des.rs:195-203 | the in-place inverse shuffle |
| `DesReference.ShuffleMoves` | src/des.rs:185-203 | where each of the first seven bytes goes, in both shuffles |
| `DesReference.LastByteSwaps` | src/des.rs:79-98 | what becomes of the eighth: the seven pairs in numbers |
| `Des.SkippedStep` | src/des.rs:231-243 | the closed form of the counter moves exactly on the blocks the transform skips, so the rule for block `i` needs no run of the loop |
| `Des.WalkMixed` | src/des.rs:222-281 | the loop with its running counter `j` computes the closed-form schedule, in both directions |
| `Des.DecodeFull` | src/des.rs:222-244 | in-place mixed mode decoding is the scheduled action on every whole block; `DesReference.MixedSchedule` gives the schedule in numbers |
| `Des.EncodeFull` | src/des.rs:261-281 | in-place mixed mode encoding likewise |
| `Des.DecodeHeader` | src/des.rs:251-256 | in-place header mode transforms the first twenty whole blocks |
| `Des.MixedModeBlocks` | src/des.rs:222-281 | what becomes of each whole block in mixed mode: transformed, shuffled or kept |
| `DesReference.CycleRanges` | src/des.rs:205-220 | the cycle in numeric ranges, without digits: 1 below 100, then 4, 5, 14 and 15 for three to six digits, and `d + 15` from `10^(d-1)` on for seven or more; no other number goes with a size |
| `DesReference.MixedSchedule` | src/des.rs:222-281 | for every size and its range: which blocks behind the twentieth are transformed (the multiples of the cycle), which are shuffled (the eighth and then every seventh of the others) and which stay, in both directions |
| `Des.MixedModeTail` | src/des.rs:222-281 | the bytes behind the last whole block are never touched, nor is a buffer without a whole block |
| `Des.HeaderModeBlocks` | src/des.rs:251-256 | header mode transforms exactly the whole blocks among the first twenty |
| `Des.MixedModeRoundTrip` | src/des.rs:222-281 | `decode_full` and `encode_full` undo each other both ways for every buffer, length and entry length |
| `Des.HeaderModeInvolution` | src/des.rs:246-286 | header mode is its own inverse for every buffer and length |
| `Misread.MisreadIff` | src/grf.rs:756-764 | a payload written in header mode and read in mixed mode comes back exactly when every block behind the twentieth is one the schedule leaves as it is; below 168 bytes it always does |
| `Misread.DamagedPayload` | src/des.rs:222-256 | a family of payloads that does not come back: 168 bytes whose last block is empty |
| `Chaining.CbcRoundTrip` | src/grf_ciphers.rs:12-23 | CBC decryption undoes CBC encryption for any pair of mutually inverse block functions and any number of blocks (section 6.2 of NIST SP 800-38A) |
| `Chaining.CbcReverseRoundTrip` | src/grf_ciphers.rs:12-23 | and encryption undoes decryption |
| `Chaining.CfbRoundTrip` | src/grf_ciphers.rs:92-102 | CFB decryption undoes CFB encryption for any stream function and block size |
| `Chaining.CfbReverseRoundTrip` | src/grf_ciphers.rs:92-102 | and encryption undoes decryption |
| `Chaining.CbcBlock` | src/grf_ciphers.rs:12-23 | block `k` of CBC decryption from two blocks of the input, without the loop |
| `Chaining.CfbBlock` | src/grf_ciphers.rs:92-102 | block `k` of CFB decryption likewise |
| `Chaining.CbcDecrypt` | src/grf_ciphers.rs:12-23 | the in-place loop with its rolling `previous` is CBC decryption of the slice |
| `Cham.RoundsInvert` | src/grf_ciphers.rs:38-46 | each of the 80 rounds is undone by its counterpart, both ways |
| `Cham.BlocksInvert` | src/grf_ciphers.rs:25-55 | 80 rounds of encryption and decryption undo each other on every block under every key |
| `Cham.KeySchedule` | src/grf_ciphers.rs:26-31 | the key loop computes the eight round keys |
| `Cham.DecryptRounds` | src/grf_ciphers.rs:38-46 | the loop over mutable words is the function of 80 inverse rounds |
| `Cham.ChamCbcRoundTrip` | src/grf_ciphers.rs:25-55 | `cham_cbc_decrypt` and the encoder undo each other both ways over any number of blocks |
| `Cham.ChamCbcDecrypt` | src/grf_ciphers.rs:25-55 | the in-place method is CBC decryption under the concrete CHAM block cipher |
| `CipherVectors.ChamVector` | src/grf_ciphers.rs:25-55 | the test vector published with CHAM-128/128, in both directions |
| `ThreeWay.Encrypt` | src/grf_ciphers.rs:64-90 | the 11-round loop computes the block encryption |
| `ThreeWay.ThetaFourTimes` | src/grf_ciphers.rs:57-62 | the mixing step applied four times is the identity, so it has an inverse |
| `ThreeWay.EncryptionIsPermutation` | src/grf_ciphers.rs:64-90 | for every key the 11 rounds and the last mixing are a bijection on blocks |
| `CipherVectors.ThreeWayVector` | src/grf_protected.rs:96-104 | the twelve bytes of keystream behind which every type 0x71 header starts |
| `ThreeWay.ThreeWayCfbDecrypt` | src/grf_ciphers.rs:92-102 | the in-place CFB loop decrypts the slice under the ThreeWay stream |
| `Idea.NoSmallFactor` | src/grf_ciphers.rs:104-108 | no number from 2 to 256 divides 65537, the ground of its primality |
| `Idea.PrimeFactors` | src/grf_ciphers.rs:104-108 | 65537 is a product of two numbers only if one of them is 1 |
| `Idea.EuclidsLemma` | src/grf_ciphers.rs:104-108 | 65537 divides a product only if it divides a factor, so nonzero residues never multiply to zero |
| `Idea.MultiplyIsGroupProduct` | src/grf_ciphers.rs:104-108 | `idea_multiply` is the product of nonzero residues modulo 65537 with 0 standing for 65536, so the cast to 16 bits loses nothing |
| `Idea.MultiplyInverts` | src/grf_ciphers.rs:104-108 | multiplication by any key word has an inverse key word |
| `Idea.MaskingInverts` | src/grf_ciphers.rs:132-135 | the mask step of a round, whose masks depend on the words they change, is undone by itself |
| `Idea.RoundsInvert` | src/grf_ciphers.rs:127-136 | one full round is undone for every six key words, both ways |
| `Idea.EncryptionIsPermutation` | src/grf_ciphers.rs:122-148 | for every key schedule the eight rounds and output step are a bijection on blocks |
| `Idea.Encrypt` | src/grf_ciphers.rs:122-148 | the round loop over mutable words computes that bijection |
| `Idea.KeySchedule` | src/grf_ciphers.rs:110-120 | the loop with its rotating 128-bit value computes the 52 key words; `IdeaReference.ScheduleBits` says which they are |
| `IdeaReference.ScheduleBits` | src/grf_ciphers.rs:110-120 | the schedule without rotation: bit `b` of key word `i` is bit `(16 * (i % 8) + 25 * (i / 8) + b) % 128` of the key |
| `CipherVectors.IdeaVector` | src/grf_ciphers.rs:110-148 | the test vector published with IDEA, key schedule included |
| `Idea.Mask` | src/grf_ciphers.rs:150-158 | the two chained encryptions of a 16-byte mask |
| `IdeaReference.MaskHalves` | src/grf_ciphers.rs:150-158 | the first half of a mask encrypts the first half of the input under the vector, the second the second under the first |
| `Words.RotationsInvert` | src/grf_ciphers.rs:193-198 | a rotation by any amount, taken modulo 32, is undone, both ways |
| `Rc6.KeySchedule` | src/grf_ciphers.rs:160-179 | the 132-step mixing loop computes the 44 round keys |
| `Rc6Reference.ScheduleIsStream` | src/grf_ciphers.rs:160-179 | the schedule as two recursive streams, without table or indices: round key `i` is what step `89 + i` of the first stream gives |
| `Rc6.Encrypt` | src/grf_ciphers.rs:181-205 | the 20-round loop over mutable words computes the block encryption |
| `Rc6.RoundsInvert` | src/grf_ciphers.rs:189-200 | one round, whose rotation amounts depend on the words it keeps, is undone, both ways |
| `Words.RotationIsStaged` | src/grf_ciphers.rs:193-198 | a rotation is the rotations by 1, 2, 4, 8 and 16 that its amount holds |
| `Rc6Reference.BlockEquations` | src/grf_ciphers.rs:181-205 | the keys added in front of the first round and behind the twentieth, word by word |
| `Rc6Reference.RoundEquations` | src/grf_ciphers.rs:189-200 | one round as four equations, its rotation amounts and keys in the places the cipher asks for |
| `Rc6.EncryptionIsPermutation` | src/grf_ciphers.rs:181-205 | for every key schedule the 20 rounds and the whitening are a bijection on blocks |
| `Tails.BodyRoundTrip` | src/grf_ciphers.rs:207-244 | bodies 128 and 133: decrypting the bounded window and the mask pass undo the encoder for every tail length |
| `Tails.DecryptBodyTail` | src/grf_ciphers.rs:207-244 | the in-place method, window first and mask second, is that decoder |
| `ProtectedReference.MaskedThroughout` | src/grf_ciphers.rs:207-244 | the mask goes over the whole tail, its key and its input being the two hashes in the order of the body |
| `ProtectedReference.OutsideWindow` | src/grf_ciphers.rs:218-241 | bytes outside the window (2048 to 3072 of an AES tail of at least 3072 bytes, the whole blocks of a shorter one, at most 1024 bytes of an RC6 tail) differ from the coded ones by the mask only |
| `ProtectedReference.InsideWindow` | src/grf_ciphers.rs:218-241 | each block of the window from two blocks of the input, under the key and the vector at their places in the parameters |
| `Tails.Rc6CfbDecrypt` | src/grf_ciphers.rs:229-239 | the in-place RC6 loop is CFB decryption of its slice |
| `Tails.LegacyRoundTrip` | src/grf_ciphers.rs:248-296 | bodies 5 and 7: decoding recovers every tail from its padded encoding |
| `Tails.LegacyReverseRoundTrip` | src/grf_ciphers.rs:248-296 | whenever decoding succeeds, encoding the result gives back the exact input |
| `Tails.LegacyAcceptsExactlyEncodings` | src/grf_ciphers.rs:248-296 | an input decodes to a tail if and only if it is the encoder's output for that tail (section 6.3 of RFC 5652 for the padding) |
| `Tails.LegacyEncodedLength` | src/grf_ciphers.rs:258-263 | an encoding is 1 to 16 bytes longer than its tail |
| `Tails.PaddingIsPadded` | src/grf_ciphers.rs:282-290 | the padding check accepts exactly a padded prefix |
| `Tails.HasPadding` | src/grf_ciphers.rs:282-290 | the check over the bytes at the end decides that |
| `Tails.MoveDown` | src/grf_ciphers.rs:291 | `copy_within` moves the suffix down over the padding, overlapping or not |
| `Tails.DecryptLegacyTail` | src/grf_ciphers.rs:248-296 | the in-place method with its shift and suffix mask is the legacy decoder, errors included |
| `ProtectedReference.LegacyParts` | src/grf_ciphers.rs:248-296 | what an accepted tail is: up to 1024 bytes and their padding under AES-CBC, the padding spelling its length, then masked bytes, with keys and vectors at their places |
| `Tails.ChainedBlockInverts` | src/grf_ciphers.rs:316-323 | the 12-byte rotation and double XOR of one block are undone |
| `Tails.ChainRoundTrip` | src/grf_ciphers.rs:315-326 | the chained pass with its partial last block is undone for every length |
| `Tails.ChamRoundTrip` | src/grf_ciphers.rs:300-327 | body 1: the CHAM prefix of at most 1024 bytes and the chained pass undo the encoder for every tail length |
| `Tails.Unchain` | src/grf_ciphers.rs:315-326 | the in-place chained pass, whose feedback is the block as it was, is the chained decoder |
| `Tails.DecryptChamTail` | src/grf_ciphers.rs:300-327 | the in-place method is the body 1 decoder |
| `ProtectedReference.UnchainedBytes` | src/grf_ciphers.rs:300-327 | the chained pass byte by byte: each byte is that four places in front of it, counted around, XORed with the mask of that place and with the byte sixteen earlier |
| `ProtectedReference.ChamParts` | src/grf_ciphers.rs:300-327 | CHAM first, over at most 1024 bytes, under a key made of sixty parameters and the second half of the seeded name hash |
| `Protected.RecordsRoundTrip` | src/grf_protected.rs:65-72 | reading written records gives their map, or nothing as soon as one id is zero, oversized or a duplicate |
| `Protected.KeysOfIds` | src/grf_protected.rs:65-72 | the map holds exactly the written ids |
| `Protected.KeyBlockRoundTrip` | src/grf_protected.rs:40-74 | a written key block is accepted exactly for 1 to 65535 records with distinct ids from 1 to 65535, and then decodes to their map |
| `Protected.DecodeArchiveKeys` | src/grf_protected.rs:40-74 | the method that copies, decrypts in place and fills the map is that decoder on every input |
| `ProtectedReference.KeyBlockLetters` | src/grf_protected.rs:54-59 | the sixteen letters every key block is encrypted under |
| `ProtectedReference.KeyBlockLayout` | src/grf_protected.rs:40-74 | what an accepted key block is, field by field: distinct ids from 1 to 65535, each with the sixty bytes behind it, and nothing else in the map |
| `Protected.ReadRecords` | src/grf_protected.rs:65-72 | the record loop fills the map or refuses |
| `ProtectedEntry.HeaderRoundTrip` | src/grf_protected.rs:76-116 | all four header types: a written header decodes to its fields and the rest of the payload stays behind it |
| `ProtectedEntry.HeaderCipherRoundTrip` | tests/fixtures/generate.py:174-185 | the AES and ThreeWay header ciphers are undone by the reader |
| `ProtectedEntry.DecodeHeader` | src/grf_protected.rs:76-116 | the method that decrypts a copy in place and checks its checksum; `ProtectedReference.AesHeaderVector` says which vector each type takes |
| `ProtectedReference.HeaderAccepted` | src/grf_protected.rs:76-116 | a header is accepted exactly when it has 104 bytes, version 1, a known type and the checksum of its decrypted part |
| `ProtectedReference.AesHeaderVector` | src/grf_protected.rs:82-95 | bytes 8 to 24 of an accepted AES header, under the literal key: the literal vector for type 1, the name hash for type 2, the hash of bytes 4 to 8 for type 15 |
| `ProtectedReference.AesHeaderBlocks` | src/grf_protected.rs:82-95 | and the blocks behind them |
| `ProtectedReference.NameMattersForTypeTwo` | src/grf_protected.rs:87-94 | headers of every other type decode alike under any two name hashes |
| `ProtectedReference.ThreeWayHeader` | src/grf_protected.rs:96-104 | a type 0x71 header is uncovered by a literal keystream |
| `ProtectedEntry.FieldsRoundTrip` | src/grf_protected.rs:126-162 | the header fields are read from where the writer put them |
| `ProtectedReference.FieldsLayout` | src/grf_protected.rs:118-165 | where each field of a header stands |
| `ProtectedReference.ParameterBytes` | src/grf_protected.rs:154-170 | the parameters byte by byte: the material, under flag 1 XORed with the output hash, and four zeros |
| `ProtectedEntry.TailRoundTrip` | src/grf_protected.rs:173-199 | whichever of the five body ciphers is chosen, its tail decoder undoes its tail encoder |
| `ProtectedEntry.BodyRoundTrip` | src/grf_protected.rs:172-200 | bodies of at most 128 bytes pass unchanged, longer ones are recovered and cut to their compressed size |
| `ProtectedEntry.PackingRoundTrip` | src/grf_protected.rs:201-238 | stored, zlib and LZ4 bodies unpack to what was packed |
| `ProtectedEntry.EntryRoundTrip` | src/grf_protected.rs:118-243 | `decode_entry` undoes the writer for every output up to 256 MiB, every header type, body cipher, compression and parameter flag, with own or archive key material |
| `ProtectedEntry.EntrySoundness` | src/grf_protected.rs:118-243 | any accepted payload gives exactly the declared size, at most 256 MiB, and the content hash in its header |
| `ProtectedReference.EntryAccepted` | src/grf_protected.rs:118-165 | what the header of any accepted entry says: sizes, body cipher, compression, flags and key |
| `ProtectedReference.EntryContent` | src/grf_protected.rs:149-243 | which bytes are the body, which material is used and what is done with them |
| `ProtectedReference.CompressionLayout` | src/grf_protected.rs:197-237 | the three compressions: stored, a zlib stream used up, an LZ4 block |
| `ProtectedReference.BodyFront` | src/grf_protected.rs:171-196 | bodies of up to 128 bytes, and the first 128 of any other, are in the clear |
| `ProtectedReference.TailCiphers` | src/grf_protected.rs:172-195 | which pass the rest takes under each body cipher |
| `ProtectedEntry.DecryptBody` | src/grf_protected.rs:172-200 | the dispatch on the body cipher, in place and truncated |
| `ProtectedEntry.DecodeEntry` | src/grf_protected.rs:118-243 | the method equals the decoder on every payload; its slices are in range by verification |
| `GrfTable.RowsRoundTrip` | src/grf.rs:299-348 | if a parser reads each piece back as its row, it reads the whole table back as the rows in order |
| `GrfTable.CutTableRefused` | src/grf.rs:308-326 | if a parser refuses each cut piece, every strict prefix of a table is refused |
| `GrfTable.ModernRowReads` | src/grf.rs:315-362 | a 17- or 21-byte row reads back as its name and entry, whatever follows it, with stored type 0 content as a file |
| `GrfTable.ModernNameSurvives` | src/grf.rs:315-326 | a 0x200 or 0x300 name comes back whole exactly when it has no NUL |
| `GrfTable.ModernRowRefusesCut` | src/grf.rs:309-326 | a modern row that ends early is refused |
| `GrfTable.ModernTableRoundTrip` | src/grf.rs:299-362 | a written modern table reads back entry by entry in order, and every strict prefix of it is refused |
| `GrfTable.EndOfName` | src/grf.rs:315-319 | the scan stops at the first NUL or at the end |
| `GrfTable.ReadModernTable` | src/grf.rs:299-348 | the cursor loop returns ranges that hold exactly the names and entries of the row parser, or its error |
| `FormatLayout.UnendedName` | src/grf.rs:315-319 | a table that ends inside a name holds no further row |
| `FormatLayout.ModernRowLayout` | src/grf.rs:299-348 | a modern row wherever it stands, as numbers at fixed distances behind its NUL |
| `GrfLegacy.FilenameRoundTrip` | tests/support/mod.rs:37-46 | decoding any number of leading blocks of an encoded name gives those blocks back, whatever follows |
| `GrfLegacy.NameSurvives` | src/grf.rs:436 | a 0x1xx name survives writing and reading exactly when it has no NUL and its padded length is at most 248 |
| `GrfLegacy.WrittenName` | src/grf.rs:446-456 | the name read from a written block is the written one cut at a NUL and at its padded length modulo 256 |
| `GrfLegacy.ModesAgree` | tests/support/mod.rs:49-54 | the reader's choice by the text behind the last dot and the writer's by the lower-cased ending agree on every name |
| `GrfLegacy.EndingIsLastExtension` | src/grf.rs:386-401 | a name ends in one of the four extensions, ignoring case, exactly when that is what stands behind its last dot |
| `GrfLegacy.LowByte` | src/grf.rs:436 | the length believed for a padded name is that length modulo 256 |
| `GrfLegacy.LegacyEntryRoundTrip` | src/grf.rs:458-474 | the biased lengths of a written row give its sizes back, with the mode bit its extension asks for |
| `GrfLegacy.LegacyRowReads` | tests/support/mod.rs:182-201 | a written 0x1xx row reads back with its cut name and mode, whatever follows it |
| `GrfLegacy.LegacyRowRefusesCut` | src/grf.rs:429-444 | a 0x1xx row that ends early is refused |
| `GrfLegacy.LegacyTableRoundTrip` | src/grf.rs:421-492 | a written 0x1xx table reads back row by row, and every strict prefix of it is refused |
| `GrfLegacy.DecodeFilename` | src/grf.rs:369-379 | the in-place loop decodes exactly the blocks of its slice that start within the length |
| `GrfLegacy.ReadLegacyRow` | src/grf.rs:428-488 | reading one row rewrites nothing in front of it and nothing behind its own name block, and finds what the parser finds in the original bytes |
| `GrfLegacy.ReadLegacyTable` | src/grf.rs:421-492 | the in-place walk returns ranges that, in the rewritten table, hold what the parser reads from an immutable copy, or its error |
| `FormatLayout.LegacyRowLayout` | src/grf.rs:421-492 | a 0x1xx row wherever it stands |
| `FormatLayout.LegacyFixedLayout` | src/grf.rs:446-488 | its seventeen fixed bytes, biases and type included |
| `FormatLayout.NibblesExchanged` | src/grf.rs:369-379 | what exchanging the halves of a byte does to its number |
| `FormatLayout.NameBlock` | src/grf.rs:369-379 | a name block by block: halves of bytes exchanged, then transformed, for the blocks that start within the length |
| `FormatLayout.LowerNumbers` | src/grf.rs:386-401 | lower case of a byte, in numbers |
| `FormatLayout.HeaderModeExtensions` | src/grf.rs:386-401 | header mode is for names that end in `.gnd`, `.gat`, `.act` or `.str`, in any case |
| `GrfHeader.KnownSignatures` | src/grf.rs:28 | both signatures are accepted, the shorter one with any bytes behind its NUL |
| `GrfHeader.NarrowHeaderRoundTrip` | src/grf.rs:218-248 | headers of 0x1xx and 0x200 archives give table offset and file count back, whatever seed hides the count |
| `GrfHeader.NarrowCountClamps` | src/grf.rs:218-248 | a stored count not above the seed and 7 is read as zero, as a saturating subtraction gives |
| `GrfHeader.WideHeaderRoundTrip` | src/grf.rs:250-271 | a 0x300 header reads back exactly when its table starts below 2^40; above that the high word looks like the 0x200 layout |
| `FormatLayout.HeaderLayout` | src/grf.rs:205-271 | any header, field by field, with every reason to refuse it and the 0x300 header that is read as 0x200 |
| `GrfArchive.Open` | src/grf.rs:501-690 | the method over the archive's bytes gives exactly the archive or error of its specification, in-place table walk and file loop included |
| `GrfArchive.OpenLegacy` | src/grf.rs:535-553 | the uncompressed table to the end of the archive, with its limits |
| `GrfArchive.OpenModern` | src/grf.rs:518-609 | the compressed table with its limits, and the key block behind it |
| `GrfArchive.ListFiles` | src/grf.rs:626-661 | the loop keeps files and protected entries of at most 256 MiB, in order, and hashes protected names |
| `FormatLayout.LegacyImageLayout` | src/grf.rs:501-690 | what any accepted 0x1xx archive is |
| `FormatLayout.ModernImageLayout` | src/grf.rs:501-690 | what any accepted 0x200 or 0x300 archive is: where its table stands and how long it is |
| `FormatLayout.KeyBlockLayout` | src/grf.rs:518-609 | where the key block of a 0x300 archive stands, and that none is read when its length is zero |
| `FormatLayout.ListedKinds` | src/grf.rs:626-661 | files and protected entries of at most 256 MiB are listed, nothing else |
| `GrfArchive.ReadEntry` | src/grf.rs:693-774 | the method with its in-place DES pass equals the specification on every entry of every archive |
| `FormatLayout.OrdinaryLayout` | src/grf.rs:693-774 | an ordinary entry: where its payload stands, which type bit asks for which mode, and when it is inflated |
| `FormatLayout.ProtectedLayout` | src/grf.rs:693-774 | a protected entry: its type, its limits and the bytes that are decoded |
| `GrfArchive.ReadSizes` | src/grf.rs:693-774 | any answer has exactly the declared size, except in two kinds of ordinary entry: one with no body gives nothing, and one whose body is shorter than the stored content it declares gives that body |
| `GrfArchive.NoBodyReadsEmpty` | src/grf.rs:700-702 | an entry of the first kind: it declares ten deflated bytes and reads as none |
| `GrfArchive.ShortBodyReadsShort` | src/grf.rs:766-771 | an entry of the second kind: it declares four stored bytes and reads as the two it has |
| `GrfArchive.InflateExact` | src/grf.rs:178-192 | an inflated answer has exactly the expected size |
| `GrfWriter.DecryptionInverts` | tests/support/mod.rs:246-263 | the reader's DES dispatch undoes the writer's for every type byte |
| `GrfWriter.OrdinaryRoundTrip` | src/grf.rs:756-773 | an ordinary payload reads as its content, except that a stream exactly as long as its content is taken for stored |
| `GrfWriter.FilesRead` | src/grf.rs:626-661 | rows that are listed exactly when their specs are files give the files of the specs, in order |
| `GrfRoundTrip.ModernArchiveOpens` | tests/support/mod.rs:225-311 | what opening a written 0x200 or 0x300 archive gives, whichever limit it exceeds |
| `GrfRoundTrip.ModernArchiveRoundTrip` | tests/support/mod.rs:225-311 | a written 0x200 or 0x300 archive, with protected entries and a key block if it has them, opens to exactly its files in order with their names, types, sizes and data |
| `GrfRoundTrip.CutModernArchiveRefused` | src/grf.rs:501-603 | every strict prefix of such an archive is refused |
| `GrfRoundTrip.LegacyArchiveRoundTrip` | tests/support/mod.rs:150-219 | a written 0x102 archive, whatever names and flags its files have, opens to exactly its files in order, each under what is left of its name, with its size, mode and data, and drops its directories; a file written in header mode and read in mixed mode reads as what its payload gives in the wrong mode |
| `GrfRoundTrip.LegacyContentSurvives` | tests/support/mod.rs:150-180 | every other file, and such a file if its payload survives, reads as its data; every payload of at most 160 bytes survives, and surviving is the same as being unchanged by the wrong mode |
| `GrfRoundTrip.CutLegacyArchiveRefused` | src/grf.rs:535-553 | every strict prefix of it is refused, and so is an archive of nothing |
| `ToyLibrary.WrongModeDamages` | tests/support/mod.rs:97-114 | a written archive whose one file, 83 bytes flagged for mixed mode under `.gat`, reads as other bytes |
| `ToyLibrary.ShortFileReadsAsItsStream` | src/grf.rs:766-771 | a written archive whose one file reads as its own deflated stream |
| `ToyLibrary.KeyedArchiveReads` | tests/grf.rs:21-48 | what the theorem on protected archives requires can be met: a 0x300 archive with a key block and an entry that names its key |
| `ToyLibrary.LawsHoldTogether` | tests/support/mod.rs:28-32 | the laws assumed of AES, zlib and LZ4 can hold together |
| `GrfWriting.EncodeFilename` | tests/support/mod.rs:37-46 | the in-place encoder transforms and swaps every whole block |
| `GrfWriting.WriteV102` | tests/support/mod.rs:150-219 | the appending loop writes the bytes the round trip is about |
| `GrfWriting.WriteSigned` | tests/support/mod.rs:225-311 | likewise for 0x200 and 0x300 |
| `Recency.ExcessIsLeast` | src/cache.rs:148-151 | the evicted prefix is the shortest that makes both limits fit |
| `Recency.OverflowIsLeast` | src/cache.rs:192-194 | growing an entry evicts the shortest prefix of the others that makes room |
| `Recency.TouchedKeeps` | src/cache.rs:99-122 | a get only reorders: same items, same total |
| `Recency.InsertedKeeps` | src/cache.rs:126-169 | a kept insert respects both limits, is the newest, and otherwise leaves only old items under other keys |
| `Recency.GrownKeeps` | src/cache.rs:179-198 | counting an encoding respects both limits if the grown entry alone fits |
| `Recency.ResolvedInclusion` | src/cache.rs:99-169 | one resolve keeps the smaller cache a suffix of the larger |
| `Recency.LruInclusion` | src/cache.rs:99-169 | over every run of resolves with a fixed file per key, none over a tenth of the smaller budget, the smaller cache is a suffix of the larger after every step, so its hits are hits there |
| `WorkingSet.HoldsTheLongest` | src/cache.rs:99-204 | over every run of resolves with a fixed file per key the cache holds exactly the longest end of the files used, by last use, that is within both limits: eviction has no other effect |
| `WorkingSet.HitExactlyWhen` | src/cache.rs:99-175 | a key used before is a hit if and only if its file may stay (some entry, a tenth of the budget) and all files used since its last use, itself included, fit together |
| `WorkingSet.NeverUsed` | src/cache.rs:99-122 | a key never used is a miss |
| `Cache.FileCache.constructor` | src/cache.rs:84-97 | an empty cache under its two limits |
| `Cache.FileCache.Get` | src/cache.rs:99-122 | map and order stay inverse; the list has the key at the newest end; the answer is the entry, and hits and misses count it |
| `Cache.FileCache.Insert` | src/cache.rs:126-169 | a kept insert displaces its key, evicts and is newest; an oversized one changes nothing, not even an older entry under its key |
| `Cache.FileCache.AddEncoding` | src/cache.rs:179-198 | the entry grows only if the copy is the cached one, keeps its rank among the survivors, and the others make room |
| `Cache.FileCache.Displace` | src/cache.rs:143-146 | an older entry under the key leaves map, order and total |
| `Cache.FileCache.MakeRoom` | src/cache.rs:148-151 | the two eviction loops together evict the shortest prefix that makes both limits fit |
| `Cache.FileCache.MakeRoomBeside` | src/cache.rs:190-194 | the eviction loop spares the entry out of the order and evicts the shortest prefix of the others |
| `Cache.FileCache.EvictFor` | src/cache.rs:200-204 | evicts the shortest prefix that fits once the count does |
| `Cache.FileCache.EvictOldest` | src/cache.rs:206-215 | the oldest goes from map, order and total alike, also while an entry is out of the order |
| `CacheRuns.EveryRunIsSafe` | src/cache.rs:126-215 | in every state any interleaving of gets, inserts, encodings and counts reaches, keys are distinct, both limits hold and each item is its data plus its counted encoding |
| `CacheRuns.CountKeepsSafe` | src/client.rs:304-319 | a late count, even for a replaced copy, keeps all that |
| `CacheRuns.AccountingIsExact` | src/client.rs:304-319 | the running total is exactly the resident bytes less the encodings in flight, hence exactly the resident bytes when none is |
| `CacheRuns.GetIsLatestKept` | src/cache.rs:99-169 | after any run a get is a miss or answers with the latest kept insert of its key |
| `CacheRuns.InsertIsAnswered` | src/cache.rs:126-175 | an insert is what the next get answers if and only if the cache holds entries and the file is at most a tenth of its budget; else the older answer stays |
| `CacheRuns.NewestIff` | src/cache.rs:99-169 | in every reachable state an item is the newest if and only if no hit and no kept insert of another key came after the last of its own |
| `CacheRuns.GrownIsNewestIff` | src/cache.rs:185-196 | the item a count grows is the newest, before and after, if and only if that holds of its key; so the comment in the code is true exactly then |
| `CacheRuns.GrownNeedNotBeNewest` | src/cache.rs:185-196 | a run in which it is not: the grown item stays behind another |
| `AssetIndex.ClaimFile` | src/index.rs:59-85 | one file claims up to four keys, each only if free; what it won is what the plain scan says |
| `AssetIndex.Build` | src/index.rs:50-103 | the nested loops give the plain overlay: first claimers, reachable slots and mojibake count |
| `AssetIndex.LookupIsOverlay` | src/index.rs:115-125 | a lookup is the first file in archive order whose stored or mojibake name is the path up to case and slash direction; the backslash probe never changes the answer |
| `AssetIndex.SamePathIs` | src/index.rs:37-45 | the same path up to case and slash direction, letter by letter |
| `Serving.FlatAt` | src/index.rs:50-60 | file `i` of archive `g` stands behind all files of the archives before it |
| `AssetIndex.ReachableIffFound` | src/index.rs:71-85 | a file is reachable exactly when some lookup returns it |
| `AssetIndex.SpellingFinds` | src/index.rs:1-14 | a spelling finds its file exactly when no earlier file shares it up to case and slash direction |
| `AssetIndex.Lookup` | src/index.rs:115-125 | the two probes return the file of the slot they find |
| `Client.FindInArchives` | src/client.rs:201-219 | the four probes in order are one chain of fallbacks |
| `Client.ResolveWith` | src/client.rs:129-243 | the answer and the new cache contents are those of the specification, with or without game data; the order of its sources is proved in `Precedence` |
| `Precedence.RefusedPath` | src/client.rs:129-132 | a path that is not public or cannot be joined is a miss |
| `Precedence.LooseFileFirst` | src/client.rs:141-153 | a loose file comes before every other source, with or without game data |
| `Precedence.SelectedDirectoryNext` | src/client.rs:155-179 | then the selected `BGM` or `AI` directory, for a first segment in any case before either slash, and only as game data |
| `Precedence.NoSelectedDirectory` | src/client.rs:157-166 | a path without a slash has no selected directory |
| `Precedence.OverrideNext` | src/client.rs:181-195 | then the override directory, without a leading `data/` |
| `Precedence.ArchivesLast` | src/client.rs:200-239 | then the archives, under the path as asked for |
| `Precedence.DecodedSpelling` | src/client.rs:203-208 | a file that only the Korean reading of the path names is found |
| `Precedence.Latin1Spelling` | src/client.rs:209-218 | a file that only the windows-1252 reading, or its Korean reading, names is found |
| `Precedence.NoSpelling` | src/client.rs:203-243 | a path that no spelling names is a miss |
| `Precedence.WithoutGameData` | src/client.rs:124-199 | without game data only loose files and the override directory answer |
| `Client.Cached` | src/client.rs:111-116 | the fast path asks only whether the path is public |
| `Client.Encoded` | src/client.rs:285-322 | a kept copy is encoded once, in its slot, and counted; any other is encoded for each request; only smaller encodings are served |
| `ClientRuns.TransparentIffFillsAgree` | src/client.rs:129-243 | every allowed run, with other steps between the cache probe of a resolve and its insert, answers what the sources alone would, if and only if everything a step may store and the cache keeps is what the sources give every public path under that key |
| `ClientRuns.ResolveIsStartAndFill` | src/client.rs:129-243 | a resolve nobody interrupts is its probe followed by its fill |
| `ClientRuns.CaseBlindSourcesAreTransparent` | src/client.rs:129-243 | without warm-up and with game data, directories and respellings that keep paths of equal folding together are enough; that the archives do is proved from their index |
| `ClientRuns.ArchivesAreCaseBlind` | src/client.rs:201-219 | the archive probes give the same file for paths of equal folding |
| `ClientRuns.DisagreementShows` | src/client.rs:111-116 | a stored answer that disagrees shows in the very next probe |
| `ClientRuns.WithoutGameDataPollutes` | src/client.rs:166-189 | a concrete client whose cache a resolve without game data makes unfaithful |
| `ClientRuns.WarmUpPollutes` | src/client.rs:446-467 | a concrete client whose cache the warm-up makes unfaithful |
| `Serving.ArchivedFileIsServed` | src/client.rs:201-239 | a client over opened archives serves, under each spelling that finds a file, what reading that file's entry gives |
| `Serving.WrittenFileIsServed` | src/client.rs:201-239 | end to end for 0x102: a file written into an archive is served with its data under each spelling that finds it, if its payload survives and its stream is not as long as itself |
| `Serving.WrittenModernFileIsServed` | src/client.rs:201-239 | likewise for 0x200 and 0x300, protected entries included |
| `WsProxy.KeptPush` | src/wsproxy.rs:169-175 | pushing keeps the first 64 early frames |
| `WsProxy.StepKeepsUp` | src/wsproxy.rs:60-128 | every step keeps: written plus owed bytes are the kept early frames and all later ones |
| `WsProxy.StepKeepsDown` | src/wsproxy.rs:130-164 | every step keeps: sent plus held bytes are the bytes read from the server, and no close frame precedes the end |
| `WsProxy.StreamOrder` | src/wsproxy.rs:60-167 | over every interleaving the bytes written are a prefix of the first 64 early frames and all later ones, those sent to the client a prefix of the server's, with at most one close frame |
| `WsProxy.NothingLost` | src/wsproxy.rs:97-149 | whenever a side waits for more, everything due to the other end has crossed; that such states are reached is `EarlyFramesArrive` and `CanDeliverAll` |
| `WsProxy.ClosedExactlyWhen` | src/wsproxy.rs:60-167 | a proxy to an allowed target is closed if and only if the client left or something failed, in every run; it has sent one close frame then, none if the client left before there was a connection |
| `WsProxy.EarlyFramesArrive` | src/wsproxy.rs:60-105 | any number of frames, the connection, and whole writes reach a state where both sides wait and the server has exactly the first 64 frames |
| `WsProxy.LaterFrameArrives` | src/wsproxy.rs:115-128 | a later frame arrives whole, whatever the other side does |
| `WsProxy.ServerBytesArrive` | src/wsproxy.rs:130-149 | what is read from the server, up to 16 KiB at a time, reaches the client unchanged |
| `WsProxy.CanDeliverAll` | src/wsproxy.rs:60-167 | from every reachable open state there is a way on without failures that delivers everything due both ways, so no run gets stuck |
| `WsProxy.ClosedStays` | src/wsproxy.rs:151-166 | closing is final |
| `WsProxy.OnlyAllowedTargets` | src/wsproxy.rs:26-43 | nothing is written to a target that is malformed or not on the list |
| `Calendar.YearFound` | src/util.rs:129-134 | every day of a 400-year era lies in the year the code finds for it |
| `Calendar.YearIs` | src/util.rs:130-134 | the year formula is exact on every day of every year of an era |
| `Calendar.DayOfYear` | src/util.rs:134-138 | within a year that starts in March the code counts through the calendar |
| `Calendar.NextDay` | src/util.rs:128-139 | every day number has a valid date, and the next day number the next Gregorian date |
| `Calendar.DayNumberOfCivil` | src/util.rs:128-139 | counting a date's years, months and days back gives its day number |
| `Calendar.CivilOfDayNumber` | src/util.rs:128-139 | and the code turns the count of every valid date back into that date |
| `Calendar.EpochDate` | src/util.rs:128-139 | day 0 is 1970-01-01 |
| `Calendar.TimestampRoundTrip` | src/util.rs:111-125 | the fields are in range and stand for the given second, before the epoch too (section 5.6 of RFC 3339) |
| `Calendar.TextReads` | src/util.rs:111-125 | for years 0 to 9999 the text is 24 characters long and its fields can be read back |

## Left out

- The internals of AES, zlib, LZ4, xxHash, SHA-256, MD5 and gzip: library code, taken as parameters.
- CP949, windows-1252 and Unicode case tables: parameters of the index and the client; nothing is assumed of them.
- Choosing a name encoding by ratios, and the statistics gathered while opening an archive: floating-point heuristics and
  counters. An opened archive keeps its raw names.
- File handles: an archive is the sequence of its bytes, a directory a function from paths to contents, a read error a
  missing file. Path joining, symbolic links and which paths are public are parameters of the client.
- The archive number in the index is not cut to 16 bits and the slot not to 32, and the cache's access numbers do not wrap
  at 2^64: no server loads that much.
- `keeps` compares floating-point numbers in the code; the model compares `10 * length <= budget`.
- `Cache.FileCache` and `Client.Encoded` are one caller at a time, as under the cache's lock; interleavings are in
  `CacheRuns`, where a slot's single initialisation is one step.
- Auto-extract, the missing-file log, and the limit and patterns of the warm-up: input and output. `ClientRuns` lets any
  set of reachable files be warmed.
- GrfRoundTrip.LegacyArchiveRoundTrip: asks for flags without the protected bit, which no file given to a writer has.
- GrfRoundTrip.ModernArchiveRoundTrip: asks for names without NUL, since any other never comes back
  (`GrfTable.ModernNameSurvives`), and likewise for ordinary entries without the protected bit.
- GrfWriting.WriteSigned: writes ordinary entries only; archives with protected entries and key blocks are covered as the
  specification function `ModernArchive`.
- HTTP routing, headers, range requests, configuration, managed mode, the application proxy and the validator: plumbing
  with easy contracts. From the HTTP code only the rule that a served encoding is smaller is used.
- Base64, extensions and header tokens: true but easy.
- The proxy's sockets: a write or read moves any number of bytes and may fail at any point; timing, Nagle's algorithm and
  name resolution are not modelled.
