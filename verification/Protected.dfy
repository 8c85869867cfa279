/**
 Protected entries: archive key blocks, entry headers and bodies (src/grf_protected.rs, tests/fixtures/generate.py).
 */
module Protected {
  import opened Bytes
  import opened Library
  import Cham

  const MAX_OUTPUT_SIZE: nat := 256 * 1024 * 1024

  type Material = s: seq<byte> | |s| == 60 witness seq(60, _ => 0)
  type ArchiveKeys = map<nat, Material>

  // ---------------------------------------------------------------- archive key block

  const FOOTER_HASH_INPUT: seq<byte> := [
    0x75, 0x66, 0x38, 0x45, 0x38, 0x71, 0x41, 0x77, 0x48, 0x74, 0x68, 0x72, 0x4c, 0x78, 0x69, 0x53]

  datatype Record = Record(id: u32, material: Material)

  function RecordBytes(record: Record): (s: seq<byte>)
    ensures |s| == 64
  {
    WordBytes(record.id) + record.material
  }

  function RecordsBytes(records: seq<Record>): (s: seq<byte>)
    ensures |s| == 64 * |records|
  {
    if records == [] then [] else RecordsBytes(records[..|records| - 1]) + RecordBytes(records[|records| - 1])
  }

  /** The records added to `keys` in order, or nothing when one is invalid or a duplicate. */
  function AddRecords(decoded: seq<byte>, count: nat): Option<ArchiveKeys>
    requires 64 * count <= |decoded|
  {
    if count == 0 then Some(map[])
    else
      match AddRecords(decoded, count - 1)
      case None => None
      case Some(keys) =>
        var id := Word(decoded, 64 * (count - 1));
        if id == 0 || id > 65535 || id in keys then None
        else Some(keys[id := decoded[64 * (count - 1) + 4..64 * count]])
  }

  function KeyBlockDecrypted(lib: Library, coded: seq<byte>): (r: seq<byte>)
    ensures |r| == |coded|
  {
    var (key, iv) := lib.sha256(FOOTER_HASH_INPUT);
    Cham.CbcDecrypted(key, iv, coded)
  }

  /** The checks on the plain part of a key block. */
  predicate KeyBlockFits(raw: seq<byte>) {
    && |raw| >= 20
    && raw[..4] == [1, 1, 0, 0]
    && var size := Word(raw, 12);
       size != 0 && size % 64 == 0 && size / 64 <= 65535 && |raw| - 20 == size
  }

  function ArchiveKeysDecoded(lib: Library, raw: seq<byte>): Result<ArchiveKeys> {
    if raw == [] then Ok(map[])
    else if !KeyBlockFits(raw) then Err(CorruptKeyBlock)
    else
      var decoded := KeyBlockDecrypted(lib, raw[20..]);
      if lib.xxh32(decoded) != Word(raw, 16) then Err(CorruptKeyBlock)
      else
        match AddRecords(decoded, |decoded| / 64)
        case None => Err(CorruptKeyBlock)
        case Some(keys) => Ok(keys)
  }

  /** The writer: a fixed mark, a time stamp, the size, a checksum, and the records in CHAM CBC. */
  function FooterBytes(lib: Library, timestamp: seq<byte>, records: seq<Record>): seq<byte>
    requires |timestamp| == 8 && 64 * |records| < U32_LIMIT
  {
    var plain := RecordsBytes(records);
    var (key, iv) := lib.sha256(FOOTER_HASH_INPUT);
    [1, 1, 0, 0] + timestamp + WordBytes(|plain|) + WordBytes(lib.xxh32(plain)) + Cham.CbcEncrypted(key, iv, plain)
  }

  predicate ValidId(id: nat) {
    1 <= id <= 65535
  }

  /** Every id valid, and none used twice. */
  predicate ValidRecords(records: seq<Record>) {
    && (forall i | 0 <= i < |records| :: ValidId(records[i].id))
    && (forall i, j | 0 <= i < j < |records| :: records[i].id != records[j].id)
  }

  function KeysOf(records: seq<Record>): ArchiveKeys {
    if records == [] then map[]
    else KeysOf(records[..|records| - 1])[records[|records| - 1].id := records[|records| - 1].material]
  }

  lemma {:induction false} KeysOfIds(records: seq<Record>)
    ensures forall id :: id in KeysOf(records) <==> exists i :: 0 <= i < |records| && records[i].id == id
  {
    if records != [] {
      var front, last := records[..|records| - 1], records[|records| - 1];
      KeysOfIds(front);
      forall id
        ensures id in KeysOf(records) <==> exists i :: 0 <= i < |records| && records[i].id == id
      {
        if id in KeysOf(front) {
          var i :| 0 <= i < |front| && front[i].id == id;
          assert records[i].id == id;
        } else if id == last.id {
          assert records[|records| - 1].id == id;
        } else if i :| 0 <= i < |records| && records[i].id == id {
          assert front[i].id == id;
        }
      }
    }
  }

  lemma RecordAt(front: seq<byte>, record: Record, rest: seq<byte>)
    ensures Word(front + RecordBytes(record) + rest, |front|) == record.id
    ensures (front + RecordBytes(record) + rest)[|front| + 4..|front| + 64] == record.material
  {
    hide WordBytes, Word;
    var s := front + RecordBytes(record) + rest;
    assert s[|front|..|front| + 4] == WordBytes(record.id);
    WordInContext(s, |front|, record.id);
  }

  /** Reading back what was written gives the records' map, unless an id is invalid or repeated. */
  lemma {:induction false} RecordsRoundTrip(records: seq<Record>, rest: seq<byte>)
    ensures AddRecords(RecordsBytes(records) + rest, |records|) ==
            if ValidRecords(records) then Some(KeysOf(records)) else None
  {
    hide Word, RecordBytes;
    var s := RecordsBytes(records) + rest;
    if records != [] {
      var front, last := records[..|records| - 1], records[|records| - 1];
      assert s == RecordsBytes(front) + (RecordBytes(last) + rest);
      RecordsRoundTrip(front, RecordBytes(last) + rest);
      assert s == RecordsBytes(front) + RecordBytes(last) + rest;
      RecordAt(RecordsBytes(front), last, rest);
      KeysOfIds(front);
      ValidRecordsStep(records);
    }
  }

  lemma ValidRecordsStep(records: seq<Record>)
    requires records != []
    ensures var front, last := records[..|records| - 1], records[|records| - 1];
            ValidRecords(records) <==> ValidRecords(front) && ValidId(last.id) && last.id !in KeysOf(front)
  {
    var front, last := records[..|records| - 1], records[|records| - 1];
    KeysOfIds(front);
    if ValidRecords(front) && ValidId(last.id) && last.id !in KeysOf(front) {
      forall i, j | 0 <= i < j < |records|
        ensures records[i].id != records[j].id
      {
        assert front[i].id == records[i].id;
        assert j < |front| ==> front[j].id == records[j].id;
      }
      forall i | 0 <= i < |records|
        ensures ValidId(records[i].id)
      {
        assert i < |front| ==> front[i].id == records[i].id;
      }
    }
  }

  lemma FooterParts(timestamp: seq<byte>, size: u32, sum: u32, coded: seq<byte>)
    requires |timestamp| == 8
    ensures var raw := [1, 1, 0, 0] + timestamp + WordBytes(size) + WordBytes(sum) + coded;
            && |raw| == 20 + |coded| && raw[..4] == [1, 1, 0, 0] && Word(raw, 12) == size && Word(raw, 16) == sum
            && raw[20..] == coded
  {
    hide WordBytes, Word;
    var raw := [1, 1, 0, 0] + timestamp + WordBytes(size) + WordBytes(sum) + coded;
    assert raw[12..12 + 4] == WordBytes(size) && raw[16..16 + 4] == WordBytes(sum);
    WordInContext(raw, 12, size);
    WordInContext(raw, 16, sum);
  }

  /**
   A written key block is accepted exactly when it holds between 1 and 65535 records whose ids are distinct and between
   1 and 65535, and then it decodes to the map of those records.
   */
  lemma KeyBlockRoundTrip(lib: Library, timestamp: seq<byte>, records: seq<Record>)
    requires |timestamp| == 8 && 64 * |records| < U32_LIMIT
    ensures ArchiveKeysDecoded(lib, FooterBytes(lib, timestamp, records)) ==
            if 1 <= |records| <= 65535 && ValidRecords(records) then Ok(KeysOf(records)) else Err(CorruptKeyBlock)
  {
    hide ArchiveKeysDecoded, KeyBlockFits, KeyBlockDecrypted, AddRecords, ValidRecords, KeysOf, FooterBytes,
      RecordsBytes;
    var raw, plain := FooterBytes(lib, timestamp, records), RecordsBytes(records);
    FooterShape(lib, timestamp, records);
    KeyBlockOutcome(lib, raw);
    RecordsRoundTrip(records, []);
    assert plain + [] == plain;
  }

  lemma FooterShape(lib: Library, timestamp: seq<byte>, records: seq<Record>)
    requires |timestamp| == 8 && 64 * |records| < U32_LIMIT
    ensures var raw, plain := FooterBytes(lib, timestamp, records), RecordsBytes(records);
            && |raw| >= 20 && Word(raw, 16) == lib.xxh32(plain) && KeyBlockDecrypted(lib, raw[20..]) == plain
            && (KeyBlockFits(raw) <==> 1 <= |records| <= 65535)
  {
    hide Cham.CbcDecrypted, Cham.CbcEncrypted, Word, WordBytes, RecordsBytes;
    var plain := RecordsBytes(records);
    var (key, iv) := lib.sha256(FOOTER_HASH_INPUT);
    var coded := Cham.CbcEncrypted(key, iv, plain);
    FooterParts(timestamp, |plain|, lib.xxh32(plain), coded);
    Cham.ChamCbcRoundTrip(key, iv, plain);
  }

  lemma KeyBlockOutcome(lib: Library, raw: seq<byte>)
    requires |raw| >= 20
    ensures ArchiveKeysDecoded(lib, raw) ==
            if KeyBlockFits(raw) && lib.xxh32(KeyBlockDecrypted(lib, raw[20..])) == Word(raw, 16) then
              match AddRecords(KeyBlockDecrypted(lib, raw[20..]), (|raw| - 20) / 64)
              case None => Err(CorruptKeyBlock)
              case Some(keys) => Ok(keys)
            else Err(CorruptKeyBlock)
  {
    hide KeyBlockFits, KeyBlockDecrypted, AddRecords, Word;
  }

  /** `decode_archive_keys`: a copy decrypted in place, then read record by record. */
  method DecodeArchiveKeys(lib: Library, raw: seq<byte>) returns (r: Result<ArchiveKeys>)
    ensures r == ArchiveKeysDecoded(lib, raw)
  {
    hide Cham.CbcDecrypted, Word;
    if raw == [] {
      return Ok(map[]);
    }
    if !KeyBlockFits(raw) {
      return Err(CorruptKeyBlock);
    }
    var (key, iv) := lib.sha256(FOOTER_HASH_INPUT);
    var decoded := Copied(raw[20..]);
    Cham.ChamCbcDecrypt(decoded, 0, decoded.Length, key, iv);
    ghost var plain := KeyBlockDecrypted(lib, raw[20..]);
    assert raw[20..][0..decoded.Length] == raw[20..];
    SpliceParts(raw[20..], 0, decoded.Length, plain);
    assert decoded[..] == plain;
    if lib.xxh32(decoded[..]) != Word(raw, 16) {
      return Err(CorruptKeyBlock);
    }
    r := ReadRecords(decoded[..]);
  }

  /** An array holding a copy of a sequence. */
  method Copied(s: seq<byte>) returns (a: array<byte>)
    ensures fresh(a) && a[..] == s
  {
    a := new byte[|s|];
    for i := 0 to |s|
      invariant a[..i] == s[..i]
    {
      a[i] := s[i];
    }
  }

  /** The record loop. */
  method ReadRecords(decoded: seq<byte>) returns (r: Result<ArchiveKeys>)
    ensures r == match AddRecords(decoded, |decoded| / 64)
                 case None => Err(CorruptKeyBlock)
                 case Some(keys) => Ok(keys)
  {
    hide Word;
    var keys: ArchiveKeys := map[];
    for i := 0 to |decoded| / 64
      invariant AddRecords(decoded, i) == Some(keys)
    {
      var id := Word(decoded, 64 * i);
      if id == 0 || id > 65535 || id in keys {
        NoneStays(decoded, i + 1, |decoded| / 64);
        return Err(CorruptKeyBlock);
      }
      keys := keys[id := decoded[64 * i + 4..64 * (i + 1)]];
    }
    return Ok(keys);
  }

  lemma {:induction false} NoneStays(decoded: seq<byte>, i: nat, n: nat)
    requires i <= n && 64 * n <= |decoded| && AddRecords(decoded, i) == None
    ensures AddRecords(decoded, n) == None
    decreases n
  {
    if i < n {
      NoneStays(decoded, i, n - 1);
    }
  }
}
