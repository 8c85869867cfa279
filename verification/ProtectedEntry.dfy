/** Decoding of one protected entry, and the writer it undoes (src/grf_protected.rs, tests/fixtures/generate.py). */
module ProtectedEntry {
  import opened Bytes
  import opened Chaining
  import opened Library
  import opened Protected
  import Tails
  import ThreeWay

  type Header = s: seq<byte> | |s| == 104 witness seq(104, _ => 0)

  const AES_KEY: Block16 := [
    0x56, 0xfd, 0x7e, 0x71, 0x2f, 0x6d, 0x36, 0xf5, 0x5c, 0xa5, 0x99, 0xe6, 0x7b, 0x18, 0x10, 0x7a]
  const AES_IV: Block16 := [
    0x4c, 0xe8, 0xa1, 0xae, 0x45, 0xb3, 0x21, 0x60, 0x7e, 0x4f, 0x26, 0xa4, 0xbb, 0x14, 0x0c, 0x96]
  const THREEWAY_KEY: Block12 := [0xad, 0x61, 0xae, 0xda, 0xbf, 0x20, 0x3e, 0x1d, 0xfe, 0x1d, 0xb7, 0x2b]
  const THREEWAY_IV: Block12 := [0xa0, 0x95, 0xdf, 0xcf, 0xd0, 0x4b, 0x74, 0xdb, 0x02, 0x7e, 0xde, 0x09]

  // ---------------------------------------------------------------- headers

  predicate HeaderKind(kind: byte) {
    kind == 1 || kind == 2 || kind == 15 || kind == 0x71
  }

  /** The initial vector of an AES header: fixed, the name's hash, or the hash of the stored checksum. */
  function HeaderIv(lib: Library, kind: byte, checksum: seq<byte>, nameHash: Block16): Block16 {
    if kind == 1 then AES_IV else if kind == 2 then nameHash else lib.xxh128(checksum)
  }

  function HeaderDecrypted(lib: Library, kind: byte, checksum: seq<byte>, nameHash: Block16, data: seq<byte>)
    : (r: seq<byte>)
    ensures |r| == |data|
  {
    if kind == 0x71 then CfbDecrypted(ThreeWay.Stream(THREEWAY_KEY), 12, THREEWAY_IV, data)
    else CbcDecrypted(lib.aesDecrypt(AES_KEY), HeaderIv(lib, kind, checksum, nameHash), data)
  }

  function HeaderEncrypted(lib: Library, kind: byte, checksum: seq<byte>, nameHash: Block16, data: seq<byte>)
    : (r: seq<byte>)
    ensures |r| == |data|
  {
    if kind == 0x71 then CfbEncrypted(ThreeWay.Stream(THREEWAY_KEY), 12, THREEWAY_IV, data)
    else CbcEncrypted(lib.aesEncrypt(AES_KEY), HeaderIv(lib, kind, checksum, nameHash), data)
  }

  lemma HeaderCipherRoundTrip(lib: Library, kind: byte, checksum: seq<byte>, nameHash: Block16, data: seq<byte>)
    requires lib.AesLaw()
    ensures HeaderDecrypted(lib, kind, checksum, nameHash, HeaderEncrypted(lib, kind, checksum, nameHash, data)) == data
  {
    hide ThreeWay.EncryptedBlock;
    CfbRoundTrip(ThreeWay.Stream(THREEWAY_KEY), 12, THREEWAY_IV, data);
    CbcRoundTrip(lib.aesEncrypt(AES_KEY), lib.aesDecrypt(AES_KEY), HeaderIv(lib, kind, checksum, nameHash), data);
  }

  function HeaderDecoded(lib: Library, payload: seq<byte>, nameHash: Block16): Result<Header> {
    if |payload| < 104 || payload[0] != 1 || !HeaderKind(payload[1]) then Err(CorruptEntry)
    else
      hide HeaderDecrypted;
      var plain := HeaderDecrypted(lib, payload[1], payload[4..8], nameHash, payload[8..104]);
      if lib.xxh32(plain) != Word(payload, 4) then Err(CorruptEntry)
      else Ok(payload[..8] + plain)
  }

  /** `decode_header`: a copy of the first 104 bytes, decrypted in place. */
  method DecodeHeader(lib: Library, payload: seq<byte>, nameHash: Block16) returns (r: Result<Header>)
    ensures r == HeaderDecoded(lib, payload, nameHash)
  {
    hide Word, Spliced, CfbDecrypted, CbcDecrypted, ThreeWay.EncryptedBlock;
    if |payload| < 104 || payload[0] != 1 || !HeaderKind(payload[1]) {
      return Err(CorruptEntry);
    }
    var header := Copied(payload[..104]);
    ghost var plain := HeaderDecrypted(lib, payload[1], payload[4..8], nameHash, payload[8..104]);
    HeaderParts(payload, plain);
    if payload[1] == 0x71 {
      ThreeWay.ThreeWayCfbDecrypt(header, 8, 104, THREEWAY_KEY, THREEWAY_IV);
    } else {
      CbcDecrypt(lib.aesDecrypt(AES_KEY), header, 8, 104, HeaderIv(lib, payload[1], payload[4..8], nameHash));
    }
    if lib.xxh32(header[..][8..]) != Word(payload, 4) {
      return Err(CorruptEntry);
    }
    return Ok(header[..]);
  }

  lemma HeaderParts(payload: seq<byte>, plain: seq<byte>)
    requires |payload| >= 104 && |plain| == 96
    ensures payload[..104][8..104] == payload[8..104]
    ensures Spliced(payload[..104], 8, plain) == payload[..8] + plain
    ensures (payload[..8] + plain)[8..] == plain
  {
  }

  // ---------------------------------------------------------------- header fields

  datatype Fields = Fields(cipher: nat, compression: byte, flags: byte, padded: u32, compressed: u32, output: u32,
                           outputHash: Block16, keyId: u32, material: Material)

  function FieldsOf(header: Header): Fields {
    Fields(Value(header[8]) + 256 * Value(header[9]), header[10], header[11], Word(header, 12), Word(header, 16),
           Word(header, 20), header[24..40], Word(header, 40), header[44..104])
  }

  /** The 96 bytes of a header behind its checksum. */
  function FieldBytes(f: Fields): (s: seq<byte>)
    requires f.cipher < 65536
    ensures |s| == 96
  {
    [FromValue(f.cipher % 256), FromValue(f.cipher / 256), f.compression, f.flags] + WordBytes(f.padded) +
    WordBytes(f.compressed) + WordBytes(f.output) + f.outputHash + WordBytes(f.keyId) + f.material
  }

  lemma FieldsRoundTrip(front: seq<byte>, f: Fields)
    requires |front| == 8 && f.cipher < 65536
    ensures FieldsOf(front + FieldBytes(f)) == f
  {
    hide Word, WordBytes, Value, FromValue;
    var h := front + FieldBytes(f);
    ValueRoundTrip(f.cipher % 256);
    ValueRoundTrip(f.cipher / 256);
    assert h[12..12 + 4] == WordBytes(f.padded) && h[16..16 + 4] == WordBytes(f.compressed);
    assert h[20..20 + 4] == WordBytes(f.output) && h[40..40 + 4] == WordBytes(f.keyId);
    WordInContext(h, 12, f.padded);
    WordInContext(h, 16, f.compressed);
    WordInContext(h, 20, f.output);
    WordInContext(h, 40, f.keyId);
    assert h[24..40] == f.outputHash && h[44..104] == f.material;
  }

  /** The four header bytes before the checksum, the checksum, and the encrypted fields. */
  function HeaderBytes(lib: Library, kind: byte, f: Fields, nameHash: Block16): (s: seq<byte>)
    requires f.cipher < 65536
    ensures |s| == 104
  {
    hide HeaderEncrypted, FieldBytes;
    var checksum := WordBytes(lib.xxh32(FieldBytes(f)));
    [1, kind, 0, 0] + checksum + HeaderEncrypted(lib, kind, checksum, nameHash, FieldBytes(f))
  }

  lemma HeaderRoundTrip(lib: Library, kind: byte, f: Fields, nameHash: Block16, body: seq<byte>)
    requires lib.AesLaw() && HeaderKind(kind) && f.cipher < 65536
    ensures var r := HeaderDecoded(lib, HeaderBytes(lib, kind, f, nameHash) + body, nameHash);
            r.Ok? && FieldsOf(r.value) == f
    ensures (HeaderBytes(lib, kind, f, nameHash) + body)[104..] == body
  {
    hide HeaderDecrypted, HeaderEncrypted, FieldBytes, FieldsOf, Word, WordBytes;
    var plain := FieldBytes(f);
    var checksum := WordBytes(lib.xxh32(plain));
    var coded := HeaderEncrypted(lib, kind, checksum, nameHash, plain);
    var payload := HeaderBytes(lib, kind, f, nameHash) + body;
    assert payload == [1, kind, 0, 0] + checksum + coded + body;
    assert payload[4..4 + 4] == checksum && payload[8..104] == coded;
    WordInContext(payload, 4, lib.xxh32(plain));
    HeaderCipherRoundTrip(lib, kind, checksum, nameHash, plain);
    FieldsRoundTrip(payload[..8], f);
  }

  // ---------------------------------------------------------------- bodies

  predicate KnownCipher(cipher: nat) {
    cipher == 1 || cipher == 5 || cipher == 7 || cipher == 128 || cipher == 133
  }

  function ParametersOf(material: Material, flagged: bool, outputHash: Block16): Tails.Parameters {
    seq(64, i requires 0 <= i < 64 =>
      if i < 60 then (if flagged then material[i] ^ outputHash[i % 16] else material[i]) else 0)
  }

  function TailDecoded(lib: Library, cipher: nat, parameters: Tails.Parameters, nameHash: Block16, seededHash: Block16,
                       outputHash: Block16, tail: seq<byte>, compressed: nat): (r: Result<seq<byte>>)
    requires compressed <= |tail|
    ensures r.Ok? ==> |r.value| == compressed
  {
    hide Tails.ChamDecoded, Tails.LegacyDecoded, Tails.BodyDecoded;
    if cipher == 1 then Ok(Tails.ChamDecoded(lib, parameters, seededHash, outputHash, tail)[..compressed])
    else if cipher == 5 || cipher == 7 then
      Tails.LegacyDecoded(lib, cipher, parameters, nameHash, outputHash, tail, compressed)
    else Ok(Tails.BodyDecoded(lib, cipher, parameters, nameHash, outputHash, tail)[..compressed])
  }

  function TailEncoded(lib: Library, cipher: nat, parameters: Tails.Parameters, nameHash: Block16, seededHash: Block16,
                       outputHash: Block16, tail: seq<byte>): seq<byte> {
    if cipher == 1 then Tails.ChamEncoded(lib, parameters, seededHash, outputHash, tail)
    else if cipher == 5 || cipher == 7 then Tails.LegacyEncoded(lib, cipher, parameters, nameHash, outputHash, tail)
    else Tails.BodyEncoded(lib, cipher, parameters, nameHash, outputHash, tail)
  }

  lemma TailRoundTrip(lib: Library, cipher: nat, parameters: Tails.Parameters, nameHash: Block16, seededHash: Block16,
                      outputHash: Block16, tail: seq<byte>)
    requires lib.AesLaw()
    ensures var coded := TailEncoded(lib, cipher, parameters, nameHash, seededHash, outputHash, tail);
            && |tail| <= |coded| <= |tail| + 16
            && (cipher != 5 && cipher != 7 ==> |coded| == |tail|)
            && TailDecoded(lib, cipher, parameters, nameHash, seededHash, outputHash, coded, |tail|) == Ok(tail)
  {
    hide Tails.ChamDecoded, Tails.ChamEncoded, Tails.LegacyDecoded, Tails.LegacyEncoded, Tails.BodyDecoded,
      Tails.BodyEncoded;
    assert tail[..|tail|] == tail;
    if cipher == 1 {
      Tails.ChamRoundTrip(lib, parameters, seededHash, outputHash, tail);
    } else if cipher == 5 || cipher == 7 {
      Tails.LegacyRoundTrip(lib, cipher, parameters, nameHash, outputHash, tail);
      Tails.LegacyEncodedLength(lib, cipher, parameters, nameHash, outputHash, tail);
    } else {
      Tails.BodyRoundTrip(lib, cipher, parameters, nameHash, outputHash, tail);
    }
  }

  /** The compressed bytes of an entry: the first 128 in the clear, the rest through its body cipher. */
  function BodyDecoded(lib: Library, cipher: nat, parameters: Tails.Parameters, nameHash: Block16, seededHash: Block16,
                       outputHash: Block16, body: seq<byte>, compressed: nat): (r: Result<seq<byte>>)
    requires compressed <= |body|
    ensures r.Ok? ==> |r.value| == compressed
  {
    hide TailDecoded;
    if compressed <= 128 then Ok(body[..compressed])
    else
      match TailDecoded(lib, cipher, parameters, nameHash, seededHash, outputHash, body[128..], compressed - 128)
      case Err(e) => Err(e)
      case Ok(tail) => Ok(body[..128] + tail)
  }

  function BodyEncoded(lib: Library, cipher: nat, parameters: Tails.Parameters, nameHash: Block16, seededHash: Block16,
                       outputHash: Block16, packed: seq<byte>): seq<byte> {
    if |packed| <= 128 then packed
    else packed[..128] + TailEncoded(lib, cipher, parameters, nameHash, seededHash, outputHash, packed[128..])
  }

  lemma BodyRoundTrip(lib: Library, cipher: nat, parameters: Tails.Parameters, nameHash: Block16, seededHash: Block16,
                      outputHash: Block16, packed: seq<byte>)
    requires lib.AesLaw()
    ensures var body := BodyEncoded(lib, cipher, parameters, nameHash, seededHash, outputHash, packed);
            && |packed| <= |body| <= |packed| + 16
            && BodyDecoded(lib, cipher, parameters, nameHash, seededHash, outputHash, body, |packed|) == Ok(packed)
  {
    hide TailDecoded, TailEncoded;
    assert packed[..|packed|] == packed;
    if |packed| > 128 {
      TailRoundTrip(lib, cipher, parameters, nameHash, seededHash, outputHash, packed[128..]);
      var body := BodyEncoded(lib, cipher, parameters, nameHash, seededHash, outputHash, packed);
      assert body[128..] == TailEncoded(lib, cipher, parameters, nameHash, seededHash, outputHash, packed[128..]);
      assert packed == packed[..128] + packed[128..];
    }
  }

  // ---------------------------------------------------------------- compression

  /** The declared output of a body, or an error when the stream does not give exactly that much. */
  function Unpacked(lib: Library, compression: byte, body: seq<byte>, expected: nat): (r: Result<seq<byte>>)
    ensures r.Ok? ==> |r.value| == expected
  {
    if compression == 0 then
      if |body| != expected then Err(CorruptEntry) else Ok(body)
    else if compression == 1 then
      match lib.inflate(body, expected + 1)
      case Failed => Err(CorruptEntry)
      case Inflated(ended, output, consumed) =>
        if !ended || |output| != expected || consumed != |body| then Err(CorruptEntry) else Ok(output)
    else
      match lib.lz4Decompress(body, expected)
      case None => Err(CorruptEntry)
      case Some(output) => if |output| != expected then Err(CorruptEntry) else Ok(output)
  }

  function Packed(lib: Library, compression: byte, output: seq<byte>): seq<byte> {
    if compression == 0 then output else if compression == 1 then lib.deflate(output) else lib.lz4Compress(output)
  }

  lemma PackingRoundTrip(lib: Library, compression: byte, output: seq<byte>)
    requires lib.ZlibLaw() && lib.Lz4Law()
    ensures Unpacked(lib, compression, Packed(lib, compression, output), |output|) == Ok(output)
  {
    var stream := lib.deflate(output);
    assert lib.inflate(stream + [], |output| + 1) == Inflated(true, output, |stream|);
    assert stream + [] == stream;
  }

  // ---------------------------------------------------------------- entries

  /** The key material of an entry: its own, or the archive key it names. */
  function MaterialOf(f: Fields, keys: ArchiveKeys): Option<Material> {
    if f.keyId == 0 then Some(f.material)
    else if f.keyId in keys then Some(keys[f.keyId])
    else None
  }

  /** The checks on the declared sizes and kinds. */
  predicate FieldsAccepted(f: Fields, available: nat, realSize: nat) {
    && f.output <= MAX_OUTPUT_SIZE && realSize == f.output
    && f.padded <= available && f.compressed <= f.padded
    && KnownCipher(f.cipher) && f.compression <= 2 && f.flags <= 1
  }

  function FinishedEntry(lib: Library, f: Fields, packed: Result<seq<byte>>): (r: Result<seq<byte>>)
    ensures r.Ok? ==> |r.value| == f.output && lib.xxh128(r.value) == f.outputHash
  {
    match packed
    case Err(e) => Err(e)
    case Ok(body) =>
      match Unpacked(lib, f.compression, body, f.output)
      case Err(e) => Err(e)
      case Ok(output) => if lib.xxh128(output) != f.outputHash then Err(CorruptEntry) else Ok(output)
  }

  /** `decode_entry`, as a function of the payload. */
  function EntryDecoded(lib: Library, payload: seq<byte>, nameHash: Block16, seededHash: Block16, realSize: nat,
                        keys: ArchiveKeys): (r: Result<seq<byte>>)
  {
    hide HeaderDecoded, FieldsOf, BodyDecoded, FinishedEntry;
    match HeaderDecoded(lib, payload, nameHash)
    case Err(e) => Err(e)
    case Ok(header) =>
      var f := FieldsOf(header);
      if |payload| < 104 || !FieldsAccepted(f, |payload| - 104, realSize) then Err(CorruptEntry)
      else
        match MaterialOf(f, keys)
        case None => Err(CorruptEntry)
        case Some(material) =>
          FinishedEntry(lib, f, BodyDecoded(lib, f.cipher, ParametersOf(material, f.flags == 1, f.outputHash), nameHash,
                                            seededHash, f.outputHash, payload[104..104 + f.padded], f.compressed))
  }

  /** What any accepted payload guarantees: the declared size, bounded, and the declared content hash. */
  lemma EntrySoundness(lib: Library, payload: seq<byte>, nameHash: Block16, seededHash: Block16, realSize: nat,
                       keys: ArchiveKeys)
    ensures var r := EntryDecoded(lib, payload, nameHash, seededHash, realSize, keys);
            r.Ok? ==>
              && |r.value| == realSize <= MAX_OUTPUT_SIZE
              && HeaderDecoded(lib, payload, nameHash).Ok?
              && lib.xxh128(r.value) == HeaderDecoded(lib, payload, nameHash).value[24..40]
  {
    hide HeaderDecoded, BodyDecoded, FinishedEntry, ParametersOf;
  }

  /** What the writer may choose for an entry. */
  datatype Choice = Choice(kind: byte, cipher: nat, compression: byte, flags: byte, keyId: u32, material: Material)

  predicate ValidChoice(c: Choice) {
    HeaderKind(c.kind) && KnownCipher(c.cipher) && c.compression <= 2 && c.flags <= 1
  }

  function EntryBody(lib: Library, c: Choice, nameHash: Block16, seededHash: Block16, output: seq<byte>): seq<byte> {
    var hash := lib.xxh128(output);
    BodyEncoded(lib, c.cipher, ParametersOf(c.material, c.flags == 1, hash), nameHash, seededHash, hash,
                Packed(lib, c.compression, output))
  }

  /** The writer: header and body of one output. */
  function EntryBytes(lib: Library, c: Choice, nameHash: Block16, seededHash: Block16, output: seq<byte>): seq<byte>
    requires c.cipher < 65536 && |output| < U32_LIMIT
    requires |Packed(lib, c.compression, output)| < U32_LIMIT
    requires |EntryBody(lib, c, nameHash, seededHash, output)| < U32_LIMIT
  {
    hide EntryBody, Packed, HeaderBytes;
    var body := EntryBody(lib, c, nameHash, seededHash, output);
    var f := Fields(c.cipher, c.compression, c.flags, |body|, |Packed(lib, c.compression, output)|, |output|,
                    lib.xxh128(output), c.keyId, c.material);
    HeaderBytes(lib, c.kind, f, nameHash) + body
  }

  /**
   `decode_entry` undoes the writer for every output up to 256 MiB, every header type, body cipher, compression and
   parameter flag, whether the key material is the entry's own or an archive key.
   */
  lemma EntryRoundTrip(lib: Library, c: Choice, nameHash: Block16, seededHash: Block16, output: seq<byte>,
                       keys: ArchiveKeys)
    requires lib.AesLaw() && lib.ZlibLaw() && lib.Lz4Law()
    requires ValidChoice(c) && |output| <= MAX_OUTPUT_SIZE
    requires |Packed(lib, c.compression, output)| + 16 < U32_LIMIT
    requires c.keyId == 0 || (c.keyId in keys && keys[c.keyId] == c.material)
    ensures |EntryBody(lib, c, nameHash, seededHash, output)| < U32_LIMIT
    ensures EntryDecoded(lib, EntryBytes(lib, c, nameHash, seededHash, output), nameHash, seededHash, |output|, keys)
            == Ok(output)
  {
    hide HeaderDecoded, HeaderBytes, FieldsOf, BodyDecoded, BodyEncoded, Unpacked, Packed, ParametersOf;
    var hash, packed := lib.xxh128(output), Packed(lib, c.compression, output);
    var parameters := ParametersOf(c.material, c.flags == 1, hash);
    BodyRoundTrip(lib, c.cipher, parameters, nameHash, seededHash, hash, packed);
    var body := EntryBody(lib, c, nameHash, seededHash, output);
    var f := Fields(c.cipher, c.compression, c.flags, |body|, |packed|, |output|, hash, c.keyId, c.material);
    HeaderRoundTrip(lib, c.kind, f, nameHash, body);
    var payload := HeaderBytes(lib, c.kind, f, nameHash) + body;
    SecondPart(HeaderBytes(lib, c.kind, f, nameHash), body);
    PackingRoundTrip(lib, c.compression, output);
  }

  // ---------------------------------------------------------------- the decoder

  /** The body cipher applied in place to what follows the first 128 bytes, and the body cut to its compressed size. */
  method DecryptBody(lib: Library, cipher: nat, parameters: Tails.Parameters, nameHash: Block16, seededHash: Block16,
                     outputHash: Block16, body: array<byte>, compressed: nat) returns (r: Result<seq<byte>>)
    requires KnownCipher(cipher) && compressed <= body.Length
    modifies body
    ensures r == BodyDecoded(lib, cipher, parameters, nameHash, seededHash, outputHash, old(body[..]), compressed)
  {
    hide Tails.ChamDecoded, Tails.LegacyDecoded, Tails.BodyDecoded;
    ghost var s := body[..];
    if compressed > 128 {
      if cipher == 1 {
        Tails.DecryptChamTail(lib, parameters, seededHash, outputHash, body, 128);
        CutTail(s[..128], body[..][128..], compressed);
      } else if cipher == 5 || cipher == 7 {
        var outcome := Tails.DecryptLegacyTail(lib, cipher, parameters, nameHash, outputHash, body, 128,
                                               compressed - 128);
        if outcome.Err? {
          return Err(outcome.error);
        }
      } else {
        Tails.DecryptBodyTail(lib, cipher, parameters, nameHash, outputHash, body, 128);
        CutTail(s[..128], body[..][128..], compressed);
      }
    }
    return Ok(body[..][..compressed]);
  }

  lemma CutTail(front: seq<byte>, tail: seq<byte>, compressed: nat)
    requires |front| == 128 && 128 <= compressed <= 128 + |tail|
    ensures (front + tail)[..compressed] == front + tail[..compressed - 128]
  {
  }

  method DecodeEntry(lib: Library, payload: seq<byte>, nameHash: Block16, seededHash: Block16, realSize: nat,
                     keys: ArchiveKeys) returns (r: Result<seq<byte>>)
    ensures r == EntryDecoded(lib, payload, nameHash, seededHash, realSize, keys)
  {
    hide HeaderDecoded, FieldsOf, BodyDecoded, ParametersOf, FinishedEntry;
    var header := DecodeHeader(lib, payload, nameHash);
    if header.Err? {
      return Err(header.error);
    }
    var f := FieldsOf(header.value);
    if |payload| < 104 || !FieldsAccepted(f, |payload| - 104, realSize) {
      return Err(CorruptEntry);
    }
    var material := MaterialOf(f, keys);
    if material.None? {
      return Err(CorruptEntry);
    }
    var parameters := ParametersOf(material.value, f.flags == 1, f.outputHash);
    var body := Copied(payload[104..104 + f.padded]);
    var packed := DecryptBody(lib, f.cipher, parameters, nameHash, seededHash, f.outputHash, body, f.compressed);
    r := FinishedEntry(lib, f, packed);
  }
}
