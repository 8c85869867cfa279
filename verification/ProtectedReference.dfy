/**
 What the reader of protected entries makes of its input, byte by byte and without the writer: which key, vector and
 mask each part is undone with, and which bytes it leaves alone (src/grf_protected.rs, src/grf_ciphers.rs).
 */
module ProtectedReference {
  import opened Bytes
  import opened Library
  import opened Chaining
  import opened Protected
  import opened ProtectedEntry
  import Tails
  import Cham
  import CipherVectors
  import Idea
  import Rc6
  import ThreeWay

  // ---------------------------------------------------------------- headers

  /** The key of every AES header. */
  function HeaderKey(): Block16 {
    [0x56, 0xfd, 0x7e, 0x71, 0x2f, 0x6d, 0x36, 0xf5, 0x5c, 0xa5, 0x99, 0xe6, 0x7b, 0x18, 0x10, 0x7a]
  }

  /** The vector of a header of type 1. */
  function FixedVector(): Block16 {
    [0x4c, 0xe8, 0xa1, 0xae, 0x45, 0xb3, 0x21, 0x60, 0x7e, 0x4f, 0x26, 0xa4, 0xbb, 0x14, 0x0c, 0x96]
  }

  lemma HeaderConstants()
    ensures HeaderKey() == AES_KEY && FixedVector() == AES_IV
  {
  }

  /**
   A header is accepted exactly when it is long enough, of version 1 and a known type, and its decrypted part has the
   checksum in front of it; the first eight bytes stay.
   */
  lemma HeaderAccepted(lib: Library, payload: seq<byte>, nameHash: Block16)
    ensures var r := HeaderDecoded(lib, payload, nameHash);
            (r.Ok? <==>
             && |payload| >= 104 && payload[0] == 1
             && (payload[1] == 1 || payload[1] == 2 || payload[1] == 15 || payload[1] == 0x71)
             && lib.xxh32(HeaderDecrypted(lib, payload[1], payload[4..8], nameHash, payload[8..104])) ==
                Number(payload[4..8]))
            && (r.Ok? ==> r.value == payload[..8] + HeaderDecrypted(lib, payload[1], payload[4..8], nameHash,
                                                                    payload[8..104]))
  {
    hide HeaderDecrypted, Number, Word;
    if |payload| >= 104 {
      WordIsNumber(payload, 4);
    }
  }

  /**
   The first block of every accepted AES header: type 1 is undone with a fixed vector, type 2 with the hash of the name,
   and type 15 with the hash of the checksum in front of it.
   */
  lemma AesHeaderVector(lib: Library, payload: seq<byte>, nameHash: Block16)
    requires HeaderDecoded(lib, payload, nameHash).Ok? && payload[1] != 0x71
    ensures var header, plain := HeaderDecoded(lib, payload, nameHash).value,
            lib.aesDecrypt(HeaderKey())(payload[8..24]);
            && (payload[1] == 1 ==> header[8..24] == Xor(plain, FixedVector()))
            && (payload[1] == 2 ==> header[8..24] == Xor(plain, nameHash))
            && (payload[1] == 15 ==> header[8..24] == Xor(plain, lib.xxh128(payload[4..8])))
  {
    hide Xor, CbcDecrypted, HeaderDecoded, Number;
    HeaderAccepted(lib, payload, nameHash);
    HeaderConstants();
    CbcBlock(lib.aesDecrypt(AES_KEY), HeaderIv(lib, payload[1], payload[4..8], nameHash), payload[8..104], 0, 0);
    Inside(payload, HeaderDecrypted(lib, payload[1], payload[4..8], nameHash, payload[8..104]), 0);
  }

  lemma Inside(payload: seq<byte>, plain: seq<byte>, at: nat)
    requires |payload| >= 104 && |plain| == 96 && at + 16 <= 96
    ensures (payload[..8] + plain)[at + 8..at + 24] == plain[at..at + 16]
    ensures payload[8..104][at..at + 16] == payload[at + 8..at + 24]
    ensures at >= 16 ==> payload[8..104][at - 16..at] == payload[at - 8..at + 8]
  {
  }

  /** The five blocks behind it are undone with the block in front of each. */
  lemma AesHeaderBlocks(lib: Library, payload: seq<byte>, nameHash: Block16, k: nat, at: nat)
    requires HeaderDecoded(lib, payload, nameHash).Ok? && payload[1] != 0x71
    requires 1 <= k <= 5 && at == 16 * k + 8
    ensures HeaderDecoded(lib, payload, nameHash).value[at..at + 16] ==
            Xor(lib.aesDecrypt(HeaderKey())(payload[at..at + 16]), payload[at - 16..at])
  {
    hide Xor, CbcDecrypted, HeaderDecoded, Number;
    HeaderAccepted(lib, payload, nameHash);
    HeaderConstants();
    CbcBlock(lib.aesDecrypt(AES_KEY), HeaderIv(lib, payload[1], payload[4..8], nameHash), payload[8..104], k, at - 8);
    Inside(payload, HeaderDecrypted(lib, payload[1], payload[4..8], nameHash, payload[8..104]), at - 8);
  }

  /** Only headers of type 2 look at the name. */
  lemma NameMattersForTypeTwo(lib: Library, payload: seq<byte>, nameHash: Block16, other: Block16)
    requires |payload| >= 2 && payload[1] != 2
    ensures HeaderDecoded(lib, payload, nameHash) == HeaderDecoded(lib, payload, other)
  {
    hide CbcDecrypted, CfbDecrypted;
  }

  function HeaderStream(): seq<byte> {
    [0xae, 0x5e, 0x91, 0x85, 0x4f, 0x00, 0xfb, 0xac, 0x29, 0x8a, 0x79, 0xd9]
  }

  /** Every header of type 0x71 starts behind the same twelve bytes of keystream. */
  lemma ThreeWayHeader(lib: Library, payload: seq<byte>, nameHash: Block16)
    requires HeaderDecoded(lib, payload, nameHash).Ok? && payload[1] == 0x71
    ensures HeaderDecoded(lib, payload, nameHash).value[8..20] == Xor(payload[8..20], HeaderStream())
  {
    hide Xor, CfbDecrypted, HeaderDecoded, Number, ThreeWay.EncryptedBlock;
    HeaderAccepted(lib, payload, nameHash);
    CipherVectors.ThreeWayVector();
    CfbBlock(ThreeWay.Stream(THREEWAY_KEY), 12, THREEWAY_IV, payload[8..104], 0, 0);
    var plain := HeaderDecrypted(lib, 0x71, payload[4..8], nameHash, payload[8..104]);
    assert (payload[..8] + plain)[8..20] == plain[0..0 + 12];
    assert payload[8..104][0..0 + 12] == payload[8..20];
  }

  // ---------------------------------------------------------------- fields and parameters

  /** Where the fields of a decoded header stand. */
  lemma FieldsLayout(header: Header)
    ensures var f := FieldsOf(header);
            && f.cipher == Number(header[8..10]) && f.compression == header[10] && f.flags == header[11]
            && f.padded == Number(header[12..16]) && f.compressed == Number(header[16..20])
            && f.output == Number(header[20..24]) && f.outputHash == header[24..40]
            && f.keyId == Number(header[40..44]) && f.material == header[44..104]
  {
    hide Word;
    WordIsNumber(header, 12);
    WordIsNumber(header, 16);
    WordIsNumber(header, 20);
    WordIsNumber(header, 40);
    NumberStep(header[8], [header[9]]);
    NumberStep(header[9], []);
    assert header[8..10] == [header[8]] + [header[9]] && [header[9]] + [] == [header[9]];
  }

  /** The parameters: the key material, four zeros behind it, and with flag 1 the output's hash over the material. */
  lemma ParameterBytes(material: Material, flagged: bool, outputHash: Block16, i: nat)
    requires i < 64
    ensures ParametersOf(material, flagged, outputHash)[i] ==
            if i >= 60 then 0 else if flagged then material[i] ^ outputHash[i % 16] else material[i]
  {
  }

  /** What the header of any accepted entry says. */
  lemma EntryAccepted(lib: Library, payload: seq<byte>, nameHash: Block16, seededHash: Block16, realSize: nat,
                      keys: ArchiveKeys)
    requires EntryDecoded(lib, payload, nameHash, seededHash, realSize, keys).Ok?
    ensures |payload| >= 104 && HeaderDecoded(lib, payload, nameHash).Ok?
    ensures var f := FieldsOf(HeaderDecoded(lib, payload, nameHash).value);
            && f.output == realSize <= 268_435_456 && f.padded <= |payload| - 104 && f.compressed <= f.padded
            && (f.cipher == 1 || f.cipher == 5 || f.cipher == 7 || f.cipher == 128 || f.cipher == 133)
            && f.compression <= 2 && f.flags <= 1 && (f.keyId == 0 || f.keyId in keys)
  {
    hide FieldsOf, HeaderDecoded, FinishedEntry, ProtectedEntry.BodyDecoded;
  }

  /** An entry is decoded from a body under some parameters. */
  ghost predicate DecodesFrom(lib: Library, payload: seq<byte>, nameHash: Block16, seededHash: Block16, realSize: nat,
                              keys: ArchiveKeys, f: Fields, parameters: Tails.Parameters, body: seq<byte>)
    requires f.compressed <= |body|
  {
    hide EntryDecoded, FinishedEntry, ProtectedEntry.BodyDecoded;
    EntryDecoded(lib, payload, nameHash, seededHash, realSize, keys) ==
    FinishedEntry(lib, f, ProtectedEntry.BodyDecoded(lib, f.cipher, parameters, nameHash, seededHash, f.outputHash,
                                                     body, f.compressed))
  }

  /** The body is what stands behind the header, and its key material the header's own or the archive's. */
  lemma EntryContent(lib: Library, payload: seq<byte>, nameHash: Block16, seededHash: Block16, realSize: nat,
                     keys: ArchiveKeys, header: Header, f: Fields, material: Material)
    requires |payload| >= 104 && FieldsAccepted(f, |payload| - 104, realSize)
    requires if f.keyId == 0 then material == f.material else f.keyId in keys && material == keys[f.keyId]
    requires HeaderDecoded(lib, payload, nameHash) == Ok(header) && f == FieldsOf(header)
    ensures DecodesFrom(lib, payload, nameHash, seededHash, realSize, keys, f,
                        ParametersOf(material, f.flags == 1, f.outputHash), payload[104..104 + f.padded])
  {
    hide FieldsOf, HeaderDecoded, FinishedEntry, ProtectedEntry.BodyDecoded, ParametersOf;
  }

  /** The three compressions: stored, a zlib stream that is used up, and an LZ4 block. */
  lemma CompressionLayout(lib: Library, compression: byte, body: seq<byte>, size: nat)
    requires compression <= 2 && Unpacked(lib, compression, body, size).Ok?
    ensures var output := Unpacked(lib, compression, body, size).value;
            && |output| == size
            && (compression == 0 ==> output == body)
            && (compression == 1 ==> lib.inflate(body, size + 1) == Inflated(true, output, |body|))
            && (compression == 2 ==> lib.lz4Decompress(body, size) == Some(output))
  {
  }

  // ---------------------------------------------------------------- bodies 128 and 133

  /** The part of a tail that is decrypted as well as masked. */
  predicate InWindow(cipher: nat, length: nat, i: nat) {
    if cipher == 128 then
      if length < 3072 then i < length / 16 * 16 else 2048 <= i < 3072
    else
      i < 1024 && i < length / 16 * 16
  }

  /** The mask of bodies 128 and 133; the two hashes change places between them. */
  function MaskOfBody(cipher: nat, parameters: Tails.Parameters, nameHash: Block16, outputHash: Block16): Block16 {
    if cipher == 128 then Idea.MaskOf(outputHash, nameHash, parameters[49..57])
    else Idea.MaskOf(nameHash, outputHash, parameters[49..57])
  }

  /** A tail with its window decrypted. */
  function Unlocked(lib: Library, cipher: nat, parameters: Tails.Parameters, tail: seq<byte>): (r: seq<byte>)
    ensures |r| == |tail|
  {
    hide Tails.WindowDecrypted;
    var (start, size) := Tails.BodyWindow(cipher, |tail|);
    Spliced(tail, start, Tails.WindowDecrypted(lib, cipher, parameters, tail[start..start + size]))
  }

  /** The mask goes over the whole tail, window included. */
  lemma MaskedThroughout(lib: Library, cipher: nat, parameters: Tails.Parameters, nameHash: Block16,
                         outputHash: Block16, tail: seq<byte>)
    requires cipher == 128 || cipher == 133
    ensures Tails.BodyDecoded(lib, cipher, parameters, nameHash, outputHash, tail) ==
            MaskXor(Unlocked(lib, cipher, parameters, tail), MaskOfBody(cipher, parameters, nameHash, outputHash))
  {
    hide Idea.MaskOf, Tails.WindowDecrypted, MaskXor;
  }

  /** Bytes outside the window are left alone before that. */
  lemma OutsideWindow(lib: Library, cipher: nat, parameters: Tails.Parameters, tail: seq<byte>, i: nat)
    requires (cipher == 128 || cipher == 133) && i < |tail| && !InWindow(cipher, |tail|, i)
    ensures Unlocked(lib, cipher, parameters, tail)[i] == tail[i]
  {
    hide Tails.WindowDecrypted;
    var (start, size) := Tails.BodyWindow(cipher, |tail|);
    SplicedOutside(tail, start, Tails.WindowDecrypted(lib, cipher, parameters, tail[start..start + size]), i);
  }

  lemma SplicedOutside(s: seq<byte>, at: nat, part: seq<byte>, i: nat)
    requires at + |part| <= |s| && i < |s| && !(at <= i < at + |part|)
    ensures Spliced(s, at, part)[i] == s[i]
  {
  }

  lemma SplicedInside(s: seq<byte>, at: nat, part: seq<byte>, x: nat)
    requires at + |part| <= |s| && x + 16 <= |part|
    ensures Spliced(s, at, part)[at + x..at + x + 16] == part[x..x + 16]
  {
    var r := Spliced(s, at, part);
    assert forall i | x <= i < x + 16 :: r[at + i] == part[i];
  }

  /** Blocks inside it are undone by AES-CBC or by CFB under RC6, whose keys and vectors are parts of the parameters. */
  function WindowBlock(lib: Library, cipher: nat, parameters: Tails.Parameters, block: Block16, before: Block16)
    : Block16
  {
    if cipher == 128 then Xor(lib.aesDecrypt(parameters[44..60])(block), before)
    else Xor(block, Rc6.EncryptedBlock(before, Rc6.Schedule(parameters[24..40])))
  }

  function WindowVector(cipher: nat, parameters: Tails.Parameters): Block16 {
    if cipher == 128 then parameters[28..44] else parameters[40..56]
  }

  lemma WindowBlocks(lib: Library, cipher: nat, parameters: Tails.Parameters, data: seq<byte>, k: nat, at: nat)
    requires at == 16 * k && at + 16 <= |data|
    ensures Tails.WindowDecrypted(lib, cipher, parameters, data)[at..at + 16] ==
            WindowBlock(lib, cipher, parameters, data[at..at + 16],
                        if k == 0 then WindowVector(cipher, parameters) else data[at - 16..at])
  {
    hide Xor, CbcDecrypted, CfbDecrypted, Rc6.EncryptedBlock, Rc6.Schedule;
    if cipher == 128 {
      CbcBlock(lib.aesDecrypt(parameters[44..60]), parameters[28..44], data, k, at);
    } else {
      CfbBlock(Rc6.Stream(Rc6.Schedule(parameters[24..40])), 16, parameters[40..56], data, k, at);
    }
  }

  lemma Subslice(s: seq<byte>, start: nat, size: nat, x: nat)
    requires start + size <= |s| && x + 16 <= size
    ensures s[start..start + size][x..x + 16] == s[start + x..start + x + 16]
  {
    var part := s[start..start + size];
    assert forall i | x <= i < x + 16 :: part[i] == s[start + i];
  }

  /** The blocks of the window, which starts at 0 or 2048. */
  lemma InsideWindow(lib: Library, cipher: nat, parameters: Tails.Parameters, tail: seq<byte>, start: nat, k: nat,
                     at: nat, block: Block16, before: Block16)
    requires (cipher == 128 || cipher == 133) && start == (if cipher == 128 && |tail| >= 3072 then 2048 else 0)
    requires at == start + 16 * k && at + 16 <= |tail| && InWindow(cipher, |tail|, at) && block == tail[at..at + 16]
    requires before == if k == 0 then WindowVector(cipher, parameters) else tail[at - 16..at]
    ensures Unlocked(lib, cipher, parameters, tail)[at..at + 16] == WindowBlock(lib, cipher, parameters, block, before)
  {
    hide Tails.WindowDecrypted, WindowBlock, Spliced, WindowVector;
    var (from, size) := Tails.BodyWindow(cipher, |tail|);
    if start == 0 {
      WholeBlocks(|tail|, k);
    }
    assert from == start && 16 * k + 16 <= size;
    var data := tail[start..start + size];
    WindowBlocks(lib, cipher, parameters, data, k, 16 * k);
    Subslice(tail, start, size, 16 * k);
    if k > 0 {
      Subslice(tail, start, size, 16 * k - 16);
    }
    SplicedInside(tail, start, Tails.WindowDecrypted(lib, cipher, parameters, data), 16 * k);
  }

  lemma WholeBlocks(length: nat, k: nat)
    requires 16 * k < length / 16 * 16
    ensures 16 * k + 16 <= length / 16 * 16
  {
  }

  // ---------------------------------------------------------------- bodies 5 and 7

  function LegacyKey(cipher: nat, parameters: Tails.Parameters): Block16 {
    if cipher == 5 then parameters[..16] else parameters[28..44]
  }

  function LegacyVector(cipher: nat, parameters: Tails.Parameters): Block16 {
    if cipher == 5 then parameters[16..32] else parameters[44..60]
  }

  /** The hashes change places between the two here as well. */
  function MaskOfLegacy(cipher: nat, parameters: Tails.Parameters, nameHash: Block16, outputHash: Block16): Block16 {
    if cipher == 5 then Idea.MaskOf(nameHash, outputHash, parameters[48..56])
    else Idea.MaskOf(outputHash, nameHash, parameters[52..60])
  }

  /**
   Any accepted tail of these bodies: up to 1024 bytes of content and their padding under AES-CBC, the padding spelling
   its own length, and the rest masked.
   */
  lemma LegacyParts(lib: Library, cipher: nat, parameters: Tails.Parameters, nameHash: Block16, outputHash: Block16,
                    tail: seq<byte>, compressed: nat, length: nat, padding: nat, plain: seq<byte>)
    requires cipher == 5 || cipher == 7
    requires length == (if compressed < 1024 then compressed else 1024) && padding == 16 - length % 16
    requires length + padding <= |tail|
    requires plain == CbcDecrypted(lib.aesDecrypt(LegacyKey(cipher, parameters)), LegacyVector(cipher, parameters),
                                   tail[..length + padding])
    ensures var r := Tails.LegacyDecoded(lib, cipher, parameters, nameHash, outputHash, tail, compressed);
            r.Ok? ==>
              && |tail| == compressed + padding && |plain| == length + padding
              && (forall k | length <= k < length + padding :: Value(plain[k]) == padding)
              && r.value == plain[..length] +
                            MaskXor(tail[length + padding..], MaskOfLegacy(cipher, parameters, nameHash, outputHash))
  {
    hide CbcDecrypted, MaskXor, Idea.MaskOf, Value;
  }

  // ---------------------------------------------------------------- body 1

  /**
   The chained pass undone, byte by byte: each byte of a whole block comes from the one four places in front of it,
   counted around, under the mask of that place and the byte sixteen earlier. A partial block keeps its places.
   */
  lemma {:induction false} UnchainedBytes(mask: Block16, previous: Block16, data: seq<byte>, at: nat, j: nat)
    requires at % 16 == 0 && j < 16 && at + j < |data|
    ensures var from := if at + 16 <= |data| then (j + 12) % 16 else j;
            Tails.Unchained(mask, previous, data)[at + j] ==
            data[at + from] ^ mask[from] ^ (previous + data)[at + j]
    decreases at
  {
    if at == 0 {
      UnchainedFirst(mask, previous, data, j);
    } else {
      hide Tails.Unchained;
      var first, rest := data[..16], data[16..];
      var from := if at + 16 <= |data| then (j + 12) % 16 else j;
      UnchainUnfolds(mask, previous, data);
      UnchainedBytes(mask, first, rest, at - 16, j);
      assert rest[at - 16 + from] == data[at + from];
      assert (first + rest)[at - 16 + j] == (previous + data)[at + j];
    }
  }

  lemma UnchainUnfolds(mask: Block16, previous: Block16, data: seq<byte>)
    requires |data| >= 16
    ensures forall i | 16 <= i < |data| ::
              Tails.Unchained(mask, previous, data)[i] == Tails.Unchained(mask, data[..16], data[16..])[i - 16]
  {
    hide Tails.UnchainedBlock;
  }

  lemma UnchainedFirst(mask: Block16, previous: Block16, data: seq<byte>, j: nat)
    requires j < 16 && j < |data|
    ensures var from := if 16 <= |data| then (j + 12) % 16 else j;
            Tails.Unchained(mask, previous, data)[j] == data[from] ^ mask[from] ^ previous[j]
  {
    if |data| < 16 {
      XorAssociates(data[j], mask[j], previous[j]);
    } else {
      assert Tails.Unchained(mask, previous, data)[j] == Tails.UnchainedBlock(data[..16], mask, previous)[j];
      assert data[..16][(j + 12) % 16] == data[(j + 12) % 16];
    }
  }

  lemma XorAssociates(a: byte, b: byte, c: byte)
    ensures a ^ (b ^ c) == a ^ b ^ c
  {
  }

  /** Body 1 undoes CHAM first, over at most 1024 bytes, under a key made of the parameters and the seeded name hash. */
  lemma ChamParts(lib: Library, parameters: Tails.Parameters, seededHash: Block16, outputHash: Block16,
                  tail: seq<byte>, size: nat, key: Block16)
    requires size == (if |tail| / 16 * 16 < 1024 then |tail| / 16 * 16 else 1024)
    requires key == lib.xxh128Seeded(parameters[..60], Number(seededHash[8..16]))
    ensures Tails.ChamDecoded(lib, parameters, seededHash, outputHash, tail) ==
            Tails.Unchained(seededHash, outputHash, Cham.CbcDecrypted(key, outputHash, tail[..size]) + tail[size..])
  {
    hide Cham.CbcDecrypted, Tails.Unchained, Number, Word;
    LongIsNumber(seededHash[8..], 0);
    assert seededHash[8..][0..0 + 8] == seededHash[8..16];
    assert Tails.Rc6Window(|tail|) == size;
    var plain := Cham.CbcDecrypted(key, outputHash, tail[..size]);
    assert Spliced(tail, 0, plain) == plain + tail[size..];
  }

  // ---------------------------------------------------------------- the parts of an entry

  /** Up to 128 bytes a body is in the clear, and so are the first 128 of a longer one. */
  lemma BodyFront(lib: Library, cipher: nat, parameters: Tails.Parameters, nameHash: Block16, seededHash: Block16,
                  outputHash: Block16, body: seq<byte>, compressed: nat)
    requires compressed <= |body|
    ensures var r := ProtectedEntry.BodyDecoded(lib, cipher, parameters, nameHash, seededHash, outputHash, body,
                                                compressed);
            && (compressed <= 128 ==> r == Ok(body[..compressed]))
            && (compressed > 128 && r.Ok? ==> r.value[..128] == body[..128])
  {
    hide TailDecoded;
  }

  /** Which pass the tail of a longer one takes. */
  lemma TailCiphers(lib: Library, parameters: Tails.Parameters, nameHash: Block16, seededHash: Block16,
                    outputHash: Block16, tail: seq<byte>, compressed: nat, cipher: nat)
    requires compressed <= |tail| && (cipher == 1 || cipher == 5 || cipher == 7 || cipher == 128 || cipher == 133)
    ensures TailDecoded(lib, cipher, parameters, nameHash, seededHash, outputHash, tail, compressed) ==
            if cipher == 1 then Ok(Tails.ChamDecoded(lib, parameters, seededHash, outputHash, tail)[..compressed])
            else if cipher < 128 then
              Tails.LegacyDecoded(lib, cipher, parameters, nameHash, outputHash, tail, compressed)
            else Ok(Tails.BodyDecoded(lib, cipher, parameters, nameHash, outputHash, tail)[..compressed])
  {
    hide Tails.ChamDecoded, Tails.LegacyDecoded, Tails.BodyDecoded;
  }

  // ---------------------------------------------------------------- key blocks

  /** The sixteen letters whose hash is the key and the vector of every key block. */
  lemma KeyBlockLetters()
    ensures |FOOTER_HASH_INPUT| == 16
    ensures forall i | 0 <= i < 16 :: Value(FOOTER_HASH_INPUT[i]) == "uf8E8qAwHthrLxiS"[i] as nat
  {
  }

  /**
   What any accepted key block is: twenty bytes in front with the length at 12 and the checksum at 16, then 64-byte
   records under CHAM-CBC. Each has its id in front, no id twice, and the map holds just their key material.
   */
  lemma KeyBlockLayout(lib: Library, raw: seq<byte>, decoded: seq<byte>)
    requires raw != [] && ArchiveKeysDecoded(lib, raw).Ok? && |raw| >= 20
    requires var (key, iv) := lib.sha256(FOOTER_HASH_INPUT); decoded == Cham.CbcDecrypted(key, iv, raw[20..])
    ensures raw[..4] == [1, 1, 0, 0] && |raw| == 20 + Number(raw[12..16])
    ensures 0 < |decoded| <= 64 * 65_535 && |decoded| % 64 == 0 && lib.xxh32(decoded) == Number(raw[16..20])
    ensures HoldsRecords(decoded, |decoded| / 64, ArchiveKeysDecoded(lib, raw).value)
  {
    hide Cham.CbcDecrypted, Number, Word, AddRecords;
    WordIsNumber(raw, 12);
    WordIsNumber(raw, 16);
    RecordsLayout(decoded, |decoded| / 64);
  }

  /** The ids of the first `n` records are distinct and in range, and the map takes each to its key material. */
  ghost predicate HoldsRecords(decoded: seq<byte>, n: nat, keys: ArchiveKeys)
    requires 64 * n <= |decoded|
  {
    && (forall k | 0 <= k < n :: 1 <= IdOf(decoded, k) <= 65_535)
    && (forall j, k | 0 <= j < k < n :: IdOf(decoded, j) != IdOf(decoded, k))
    && (forall k | 0 <= k < n :: IdOf(decoded, k) in keys && keys[IdOf(decoded, k)] == MaterialAt(decoded, k))
    && (forall id <- keys :: exists k :: 0 <= k < n && IdOf(decoded, k) == id)
  }

  function IdOf(decoded: seq<byte>, k: nat): nat
    requires 64 * k + 64 <= |decoded|
  {
    Number(decoded[64 * k..64 * k + 4])
  }

  function MaterialAt(decoded: seq<byte>, k: nat): Material
    requires 64 * k + 64 <= |decoded|
  {
    decoded[64 * k + 4..64 * k + 64]
  }

  lemma {:induction false} RecordsLayout(decoded: seq<byte>, n: nat)
    requires 64 * n <= |decoded| && AddRecords(decoded, n).Some?
    ensures HoldsRecords(decoded, n, AddRecords(decoded, n).value)
  {
    hide Number, Word, IdOf, MaterialAt;
    if n > 0 {
      RecordsLayout(decoded, n - 1);
      OneRecord(decoded, n - 1);
      var before, keys := AddRecords(decoded, n - 1).value, AddRecords(decoded, n).value;
      assert keys == before[IdOf(decoded, n - 1) := MaterialAt(decoded, n - 1)];
    }
  }

  lemma OneRecord(decoded: seq<byte>, k: nat)
    requires 64 * k + 64 <= |decoded|
    ensures IdOf(decoded, k) == Word(decoded, 64 * k)
    ensures MaterialAt(decoded, k) == decoded[64 * k + 4..64 * (k + 1)]
  {
    hide Number, Word;
    WordIsNumber(decoded, 64 * k);
  }
}
