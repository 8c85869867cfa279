/** Opening an archive and reading its entries (src/grf.rs). */
module GrfArchive {
  import opened Bytes
  import opened Library
  import opened Protected
  import opened GrfTable
  import opened GrfLegacy
  import opened GrfHeader
  import ProtectedEntry
  import Des

  const MAX_ENTRIES: nat := 500_000
  const MAX_TABLE_BYTES: nat := 512 * 1024 * 1024
  const MAX_KEY_BLOCK: nat := 20 + 65535 * 64
  const PROTECTED_SLACK: nat := 2 * 1024 * 1024

  /** A listed file: its name as the table spells it, its entry, and the hashes of the name. */
  datatype File = File(name: seq<byte>, entry: Entry, nameHash: Block16, seededHash: Block16)

  datatype Archive = Archive(version: nat, files: seq<File>, keys: ArchiveKeys)

  // ---------------------------------------------------------------- opening

  function ReadAt(image: seq<byte>, offset: nat, length: nat): (r: Result<seq<byte>>)
    ensures r.Ok? <==> offset + length <= |image|
    ensures r.Ok? ==> |r.value| == length && r.value == image[offset..offset + length]
  {
    if offset + length <= |image| then Ok(image[offset..offset + length]) else Err(UnexpectedEnd)
  }

  /** A zlib stream that ends after exactly the declared number of bytes; what follows it is ignored. */
  function InflateExact(lib: Library, data: seq<byte>, expected: nat): (r: Result<seq<byte>>)
    ensures r.Ok? ==> |r.value| == expected
  {
    match lib.inflate(data, expected + 1)
    case Failed => Err(CorruptEntry)
    case Inflated(ended, output, _) => if ended && |output| == expected then Ok(output) else Err(CorruptEntry)
  }

  function OrCorruptTable<T>(r: Result<T>): Result<T> {
    if r.Ok? then r else Err(CorruptTable)
  }

  /** The table of a 0x1xx archive: everything from its start to the end of the archive. */
  function LegacyTable(image: seq<byte>, at: nat): Result<seq<byte>> {
    if at > |image| || |image| - at == 0 || |image| - at > MAX_TABLE_BYTES then Err(CorruptTable)
    else Ok(image[at..])
  }

  /** The compressed table at `at`, behind its two sizes, and where it ends. */
  function ModernTable(lib: Library, image: seq<byte>, at: nat): Result<(seq<byte>, nat)> {
    match ReadAt(image, at, 8)
    case Err(e) => Err(e)
    case Ok(sizes) =>
      var packed, size := Word(sizes, 0), Word(sizes, 4);
      if packed == 0 || size == 0 || size > MAX_TABLE_BYTES || at + 8 + packed > |image| then Err(CorruptTable)
      else
        match InflateExact(lib, image[at + 8..at + 8 + packed], size)
        case Err(_) => Err(CorruptTable)
        case Ok(data) => Ok((data, at + 8 + packed))
  }

  /** The key block of `length` bytes at `at`. */
  function KeysAt(lib: Library, image: seq<byte>, at: nat, length: nat): Result<ArchiveKeys> {
    if length == 0 then Ok(map[])
    else if at + length > |image| then Err(CorruptTable)
    else OrCorruptTable(ArchiveKeysDecoded(lib, image[at..at + length]))
  }

  function KeyBlockLength(image: seq<byte>, h: Header): Result<nat> {
    if h.version != 0x300 then Ok(0)
    else
      match ReadAt(image, h.tableOffset, 4)
      case Err(e) => Err(e)
      case Ok(s) => if Word(s, 0) > MAX_KEY_BLOCK then Err(TooManyEntries) else Ok(Word(s, 0))
  }

  function Skip(version: nat): nat {
    if version == 0x300 then 4 else 0
  }

  /** The rows of a table, and the archive's keys. */
  function TableRead(lib: Library, image: seq<byte>, h: Header): Result<(seq<Named>, ArchiveKeys)> {
    hide Rows;
    match KeyBlockLength(image, h)
    case Err(e) => Err(e)
    case Ok(keyLength) =>
      var at := h.tableOffset + Skip(h.version);
      if IsLegacy(h.version) then
        match LegacyTable(image, at)
        case Err(e) => Err(e)
        case Ok(data) => WithKeys(Rows(LegacyRow(), data, h.fileCount), Ok(map[]))
      else
        match ModernTable(lib, image, at)
        case Err(e) => Err(e)
        case Ok((data, end)) => WithKeys(Rows(ModernRow(h.version == 0x300), data, h.fileCount),
                                         KeysAt(lib, image, end, keyLength))
  }

  function WithKeys(rows: Result<seq<Named>>, keys: Result<ArchiveKeys>): Result<(seq<Named>, ArchiveKeys)> {
    match keys
    case Err(e) => Err(e)
    case Ok(k) =>
      match rows
      case Err(e) => Err(e)
      case Ok(r) => Ok((r, k))
  }

  predicate IsProtected(entry: Entry) {
    HasBit(entry.kind, PROTECTED)
  }

  /** Whether a row is listed: a file or protected entry of at most 256 MiB. */
  predicate IsListed(entry: Entry) {
    entry.realSize <= MAX_OUTPUT_SIZE && (HasBit(entry.kind, FILE) || IsProtected(entry))
  }

  function FileOf(lib: Library, row: Named): File {
    if IsProtected(row.entry)
    then File(row.name, row.entry, lib.xxh128(row.name), lib.xxh128Seeded(row.name, row.entry.realSize))
    else File(row.name, row.entry, seq(16, _ => 0), seq(16, _ => 0))
  }

  /** The listed files, in table order. */
  function Listed(lib: Library, rows: seq<Named>): seq<File> {
    if rows == [] then []
    else (if IsListed(rows[0].entry) then [FileOf(lib, rows[0])] else []) + Listed(lib, rows[1..])
  }

  /** The archive of a table that was read. */
  function Shelved(lib: Library, version: nat, table: Result<(seq<Named>, ArchiveKeys)>): Result<Archive> {
    match table
    case Err(e) => Err(e)
    case Ok((rows, keys)) => Ok(Archive(version, Listed(lib, rows), keys))
  }

  function Opened(lib: Library, image: seq<byte>): Result<Archive> {
    hide TableRead, ParseHeader;
    match ReadAt(image, 0, HEADER_SIZE)
    case Err(e) => Err(e)
    case Ok(front) =>
      match ParseHeader(front)
      case Err(e) => Err(e)
      case Ok(h) =>
        if h.fileCount > MAX_ENTRIES then Err(TooManyEntries)
        else Shelved(lib, h.version, TableRead(lib, image, h))
  }

  // ---------------------------------------------------------------- reading an entry

  /** The payload of an ordinary entry after its DES layer. */
  function Decrypted(entry: Entry, payload: seq<byte>): (r: seq<byte>)
    ensures |r| == |payload|
  {
    if HasBit(entry.kind, ENCRYPT_MIXED) then Des.Mixed(Des.Decode, payload, entry.lengthAligned, entry.compressedSize)
    else if HasBit(entry.kind, ENCRYPT_HEADER) then Des.HeaderMode(payload, entry.lengthAligned)
    else payload
  }

  function Truncated(data: seq<byte>, n: nat): seq<byte> {
    if n <= |data| then data[..n] else data
  }

  /** What an ordinary payload holds: equal sizes mean stored, anything else a zlib stream. */
  function OrdinaryRead(lib: Library, entry: Entry, payload: seq<byte>): Result<seq<byte>> {
    var data := Decrypted(entry, payload);
    if entry.realSize == entry.compressedSize then Ok(Truncated(data, entry.realSize))
    else InflateExact(lib, data, entry.realSize)
  }

  function ProtectedRead(lib: Library, keys: ArchiveKeys, file: File, payload: seq<byte>): Result<seq<byte>>
    requires |payload| == file.entry.lengthAligned
  {
    var e := file.entry;
    if e.kind != PROTECTED || e.compressedSize > e.lengthAligned || e.compressedSize > MAX_OUTPUT_SIZE + PROTECTED_SLACK
    then Err(CorruptEntry)
    else ProtectedEntry.EntryDecoded(lib, payload[..e.compressedSize], file.nameHash, file.seededHash, e.realSize, keys)
  }

  /** `read_entry`, as a function of the archive's bytes. */
  function EntryRead(lib: Library, image: seq<byte>, keys: ArchiveKeys, file: File): Result<seq<byte>> {
    hide ProtectedRead, OrdinaryRead;
    var e := file.entry;
    if e.realSize > MAX_OUTPUT_SIZE then Err(CorruptEntry)
    else if e.lengthAligned == 0 && !IsProtected(e) then Ok([])
    else if e.offset + HEADER_SIZE + e.lengthAligned > |image| then Err(CorruptEntry)
    else
      var payload := image[e.offset + HEADER_SIZE..e.offset + HEADER_SIZE + e.lengthAligned];
      if IsProtected(e) then ProtectedRead(lib, keys, file, payload) else OrdinaryRead(lib, e, payload)
  }

  /**
   What any entry of any archive gives: an answer has exactly the declared size, but for two kinds of ordinary entry.
   One with no body at all gives nothing, whatever it declares; one whose body is shorter than the stored content it
   declares gives what there is. An answer with content was read from inside the archive.
   */
  lemma ReadSizes(lib: Library, image: seq<byte>, keys: ArchiveKeys, file: File)
    ensures var e, r := file.entry, EntryRead(lib, image, keys, file);
            r.Ok? ==>
              && |r.value| <= e.realSize <= MAX_OUTPUT_SIZE
              && (|r.value| == e.realSize <==>
                    IsProtected(e) || (if e.lengthAligned == 0 then e.realSize == 0
                                       else e.realSize == e.compressedSize ==> e.realSize <= e.lengthAligned))
              && (r.value != [] ==> e.offset + HEADER_SIZE + e.lengthAligned <= |image|)
  {
    hide ProtectedEntry.EntryDecoded, Decrypted, HasBit;
    var e := file.entry;
    if IsProtected(e) && e.offset + HEADER_SIZE + e.lengthAligned <= |image| && e.compressedSize <= e.lengthAligned {
      var payload := image[e.offset + HEADER_SIZE..e.offset + HEADER_SIZE + e.lengthAligned];
      ProtectedEntry.EntrySoundness(lib, payload[..e.compressedSize], file.nameHash, file.seededHash, e.realSize, keys);
    }
  }

  lemma FileBits()
    ensures !HasBit(FILE, PROTECTED) && !HasBit(FILE, ENCRYPT_MIXED) && !HasBit(FILE, ENCRYPT_HEADER)
  {
  }

  /** An entry that declares ten deflated bytes but no body: it reads as nothing from any archive. */
  lemma NoBodyReadsEmpty(lib: Library, image: seq<byte>, keys: ArchiveKeys, name: seq<byte>, hash: Block16)
    ensures EntryRead(lib, image, keys, File(name, Entry(0, 5, 0, 10, FILE), hash, hash)) == Ok([])
  {
    hide HasBit;
    FileBits();
  }

  /** An entry that declares four stored bytes but has a body of two: it reads as those two. */
  lemma ShortBodyReadsShort(lib: Library, image: seq<byte>, keys: ArchiveKeys, name: seq<byte>, hash: Block16)
    requires |image| >= HEADER_SIZE + 2
    ensures EntryRead(lib, image, keys, File(name, Entry(0, 4, 2, 4, FILE), hash, hash)) ==
            Ok(image[HEADER_SIZE..HEADER_SIZE + 2])
  {
    hide HasBit;
    FileBits();
  }

  lemma CutPayload(image: seq<byte>, start: nat, packed: nat, aligned: nat)
    requires packed <= aligned && start + aligned <= |image|
    ensures image[start..start + aligned][..packed] == image[start..start + packed]
  {
  }

  method ReadEntry(lib: Library, image: seq<byte>, keys: ArchiveKeys, file: File) returns (r: Result<seq<byte>>)
    ensures r == EntryRead(lib, image, keys, file)
  {
    hide Des.Mixed, Des.HeaderMode, ProtectedEntry.EntryDecoded, HasBit;
    var e := file.entry;
    if e.realSize > MAX_OUTPUT_SIZE {
      return Err(CorruptEntry);
    }
    if e.lengthAligned == 0 && !IsProtected(e) {
      return Ok([]);
    }
    var start := e.offset + HEADER_SIZE;
    if start + e.lengthAligned > |image| {
      return Err(CorruptEntry);
    }
    if IsProtected(e) {
      if e.kind != PROTECTED || e.compressedSize > e.lengthAligned ||
          e.compressedSize > MAX_OUTPUT_SIZE + PROTECTED_SLACK {
        return Err(CorruptEntry);
      }
      CutPayload(image, start, e.compressedSize, e.lengthAligned);
      r := ProtectedEntry.DecodeEntry(lib, image[start..start + e.compressedSize], file.nameHash, file.seededHash,
          e.realSize, keys);
      return;
    }
    var data := Copied(image[start..start + e.lengthAligned]);
    if HasBit(e.kind, ENCRYPT_MIXED) {
      Des.DecodeFull(data, e.lengthAligned, e.compressedSize);
    } else if HasBit(e.kind, ENCRYPT_HEADER) {
      Des.DecodeHeader(data, e.lengthAligned);
    }
    if e.realSize == e.compressedSize {
      return Ok(Truncated(data[..], e.realSize));
    }
    r := InflateExact(lib, data[..], e.realSize);
  }

  lemma {:induction false} ListedSnoc(lib: Library, rows: seq<Named>, row: Named)
    ensures Listed(lib, rows + [row]) == Listed(lib, rows) + if IsListed(row.entry) then [FileOf(lib, row)] else []
  {
    if rows != [] {
      assert (rows + [row])[1..] == rows[1..] + [row];
      ListedSnoc(lib, rows[1..], row);
    }
  }

  /** The loop over the parsed rows that keeps the files. */
  method ListFiles(lib: Library, data: seq<byte>, located: seq<Located>) returns (files: seq<File>)
    requires InRange(located, |data|)
    ensures files == Listed(lib, Resolved(located, data))
  {
    hide IsListed, FileOf, Listed;
    files := [];
    ghost var rows := Resolved(located, data);
    assert Listed(lib, rows[..0]) == [] by { ListedNone(lib); }
    for i := 0 to |located|
      invariant files == Listed(lib, rows[..i])
    {
      var row := Named(data[located[i].start..located[i].end], located[i].entry);
      ListedSnoc(lib, rows[..i], row);
      assert rows[..i + 1] == rows[..i] + [row];
      if IsListed(row.entry) {
        files := files + [FileOf(lib, row)];
      }
    }
    assert rows[..|located|] == rows;
  }

  lemma ListedNone(lib: Library)
    ensures Listed(lib, []) == []
  {
  }

  method OpenLegacy(lib: Library, image: seq<byte>, h: Header) returns (r: Result<Archive>)
    requires IsLegacy(h.version)
    ensures r == Shelved(lib, h.version, TableRead(lib, image, h))
  {
    hide Listed, Rows, Resolved, InRange;
    var at := h.tableOffset;
    if at > |image| || |image| - at == 0 || |image| - at > MAX_TABLE_BYTES {
      return Err(CorruptTable);
    }
    var data := Copied(image[at..]);
    var located := ReadLegacyTable(data, h.fileCount);
    if located.Err? {
      return Err(located.error);
    }
    var files := ListFiles(lib, data[..], located.value);
    return Ok(Archive(h.version, files, map[]));
  }

  method OpenModern(lib: Library, image: seq<byte>, h: Header) returns (r: Result<Archive>)
    requires !IsLegacy(h.version)
    ensures r == Shelved(lib, h.version, TableRead(lib, image, h))
  {
    hide Listed, Rows, Resolved, InRange, ArchiveKeysDecoded, Word, InflateExact;
    var keyLength := 0;
    if h.version == 0x300 {
      var field := ReadAt(image, h.tableOffset, 4);
      if field.Err? {
        return Err(field.error);
      }
      keyLength := Word(field.value, 0);
    }
    if keyLength > MAX_KEY_BLOCK {
      return Err(TooManyEntries);
    }
    var at := h.tableOffset + Skip(h.version);
    var sizes := ReadAt(image, at, 8);
    if sizes.Err? {
      return Err(sizes.error);
    }
    var packed, size := Word(sizes.value, 0), Word(sizes.value, 4);
    if packed == 0 || size == 0 || size > MAX_TABLE_BYTES || at + 8 + packed > |image| {
      return Err(CorruptTable);
    }
    var data := InflateExact(lib, image[at + 8..at + 8 + packed], size);
    if data.Err? {
      return Err(CorruptTable);
    }
    var keys: ArchiveKeys := map[];
    if keyLength != 0 {
      var end := at + 8 + packed;
      if end + keyLength > |image| {
        return Err(CorruptTable);
      }
      var decoded := DecodeArchiveKeys(lib, image[end..end + keyLength]);
      if decoded.Err? {
        return Err(CorruptTable);
      }
      keys := decoded.value;
    }
    var located := ReadModernTable(data.value, h.fileCount, h.version == 0x300);
    if located.Err? {
      return Err(located.error);
    }
    var files := ListFiles(lib, data.value, located.value);
    return Ok(Archive(h.version, files, keys));
  }

  /** `Grf::open`, over the bytes of the archive. */
  method Open(lib: Library, image: seq<byte>) returns (r: Result<Archive>)
    ensures r == Opened(lib, image)
  {
    hide TableRead, ParseHeader, Listed;
    var front := ReadAt(image, 0, HEADER_SIZE);
    if front.Err? {
      return Err(front.error);
    }
    var header := ParseHeader(front.value);
    if header.Err? {
      return Err(header.error);
    }
    if header.value.fileCount > MAX_ENTRIES {
      return Err(TooManyEntries);
    }
    if IsLegacy(header.value.version) {
      r := OpenLegacy(lib, image, header.value);
    } else {
      r := OpenModern(lib, image, header.value);
    }
  }
}
