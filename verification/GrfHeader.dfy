/** The 46-byte archive header and its three layouts (src/grf.rs). */
module GrfHeader {
  import opened Bytes
  import opened Library
  import opened GrfTable

  const HEADER_SIZE: nat := 46

  /** `Master of Magic` */
  const MASTER: seq<byte> := [0x4d, 0x61, 0x73, 0x74, 0x65, 0x72, 0x20, 0x6f, 0x66, 0x20, 0x4d, 0x61, 0x67, 0x69, 0x63]
  /** `Event Horizon` */
  const EVENT: seq<byte> := [0x45, 0x76, 0x65, 0x6e, 0x74, 0x20, 0x48, 0x6f, 0x72, 0x69, 0x7a, 0x6f, 0x6e]

  datatype Header = Header(version: nat, tableOffset: nat, fileCount: nat)

  /** The signature: the first 15 bytes, up to a NUL. */
  function SignatureOf(s: seq<byte>): seq<byte>
    requires |s| >= 15
  {
    s[..15][..NameLength(s[..15])]
  }

  /** The layout of 0x1xx and 0x200: a 32-bit offset, and a count biased by a seed and seven. */
  function NarrowHeader(s: seq<byte>, version: nat): Header
    requires |s| >= HEADER_SIZE
  {
    var count: int := Word(s, 38) - Word(s, 34) - 7;
    Header(version, Word(s, 30) + HEADER_SIZE, if count < 0 then 0 else count)
  }

  predicate IsLegacy(version: nat) {
    version / 256 == 1
  }

  function ParseHeader(s: seq<byte>): Result<Header> {
    hide Word, SignatureOf;
    if |s| < HEADER_SIZE then Err(CorruptTable)
    else if SignatureOf(s) != MASTER && SignatureOf(s) != EVENT then Err(BadSignature)
    else
      var version, low, high := Word(s, 42), Word(s, 30), Word(s, 34);
      if IsLegacy(version) then Ok(NarrowHeader(s, version))
      else if version != 0x200 && version != 0x300 then Err(UnsupportedVersion)
      else if version == 0x200 then Ok(NarrowHeader(s, version))
      else if high / 256 != 0 then Ok(NarrowHeader(s, 0x200))
      else Ok(Header(version, 0x1_0000_0000 * high + low + HEADER_SIZE, Word(s, 38)))
  }

  predicate Signed(signature: seq<byte>) {
    |signature| <= 30 &&
    var front := (signature + seq(30, _ => 0))[..15];
    SignatureOf(front) == MASTER || SignatureOf(front) == EVENT
  }

  function Stamp(signature: seq<byte>): (s: seq<byte>)
    requires |signature| <= 30
    ensures |s| == 30
  {
    (signature + seq(30, _ => 0))[..30]
  }

  /** A header as the writers lay it out. */
  function HeaderBytes(signature: seq<byte>, low: u32, high: u32, count: u32, version: u32): (s: seq<byte>)
    requires |signature| <= 30
    ensures |s| == HEADER_SIZE
  {
    Stamp(signature) + WordBytes(low) + WordBytes(high) + WordBytes(count) + WordBytes(version)
  }

  lemma HeaderWords(signature: seq<byte>, low: u32, high: u32, count: u32, version: u32)
    requires |signature| <= 30
    ensures var s := HeaderBytes(signature, low, high, count, version);
            Word(s, 30) == low && Word(s, 34) == high && Word(s, 38) == count && Word(s, 42) == version
  {
    hide Word, WordBytes, Stamp;
    var s := HeaderBytes(signature, low, high, count, version);
    assert s[30..30 + 4] == WordBytes(low) && s[34..34 + 4] == WordBytes(high);
    assert s[38..38 + 4] == WordBytes(count) && s[42..42 + 4] == WordBytes(version);
    WordInContext(s, 30, low);
    WordInContext(s, 34, high);
    WordInContext(s, 38, count);
    WordInContext(s, 42, version);
  }

  lemma HeaderSignature(signature: seq<byte>, low: u32, high: u32, count: u32, version: u32)
    requires Signed(signature)
    ensures var s := HeaderBytes(signature, low, high, count, version);
            SignatureOf(s) == MASTER || SignatureOf(s) == EVENT
  {
    hide NameLength, WordBytes;
    var s, front := HeaderBytes(signature, low, high, count, version), (signature + seq(30, _ => 0))[..15];
    assert s[..15] == front == front[..15];
  }

  /** The two signatures archives carry, one of them with other data behind its NUL. */
  lemma KnownSignatures(tail: seq<byte>)
    requires |tail| <= 16
    ensures Signed(MASTER) && Signed(EVENT + [0] + tail)
  {
    hide NameLength;
    var front := (MASTER + seq(30, _ => 0))[..15];
    assert front == MASTER == front[..15];
    NameWithoutNul(MASTER);
    var second := (EVENT + [0] + tail + seq(30, _ => 0))[..15];
    assert second[..15] == second == EVENT + [0] + second[14..];
    NameBeforeNul(EVENT, second[14..]);
    assert SignatureOf(second) == EVENT;
  }

  /** The headers of 0x1xx and 0x200 archives read back, whatever seed the count is hidden behind. */
  lemma NarrowHeaderRoundTrip(signature: seq<byte>, offset: u32, seed: nat, count: nat, version: u32)
    requires Signed(signature) && seed + count + 7 < U32_LIMIT && (IsLegacy(version) || version == 0x200)
    ensures ParseHeader(HeaderBytes(signature, offset, seed, seed + count + 7, version)) ==
            Ok(Header(version, offset + HEADER_SIZE, count))
  {
    hide Word, HeaderBytes, SignatureOf;
    HeaderWords(signature, offset, seed, seed + count + 7, version);
    HeaderSignature(signature, offset, seed, seed + count + 7, version);
  }

  /** A stored count that is not above what is subtracted from it is a count of zero. */
  lemma NarrowCountClamps(signature: seq<byte>, offset: u32, seed: u32, stored: u32, version: u32)
    requires Signed(signature) && stored <= seed + 7 && (IsLegacy(version) || version == 0x200)
    ensures ParseHeader(HeaderBytes(signature, offset, seed, stored, version)) ==
            Ok(Header(version, offset + HEADER_SIZE, 0))
  {
    hide Word, HeaderBytes, SignatureOf;
    HeaderWords(signature, offset, seed, stored, version);
    HeaderSignature(signature, offset, seed, stored, version);
  }

  /** The header of a 0x300 archive reads back exactly when its table starts below 2^40. */
  lemma WideHeaderRoundTrip(signature: seq<byte>, offset: nat, count: u32)
    requires Signed(signature) && offset < OffsetLimit(true)
    ensures ParseHeader(HeaderBytes(signature, offset % 0x1_0000_0000, offset / 0x1_0000_0000, count, 0x300)) ==
            Ok(Header(0x300, offset + HEADER_SIZE, count))
            <==> offset < 0x100_0000_0000
  {
    hide Word, HeaderBytes, SignatureOf;
    var low, high := offset % 0x1_0000_0000, offset / 0x1_0000_0000;
    HeaderWords(signature, low, high, count, 0x300);
    HeaderSignature(signature, low, high, count, 0x300);
  }
}
