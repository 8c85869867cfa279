/** Whole archives: opening what the writers wrote, and refusing what was cut short (src/grf.rs, tests/support/mod.rs,
    tests/grf.rs). */
module GrfRoundTrip {
  import opened Bytes
  import opened Library
  import opened Protected
  import opened GrfTable
  import opened GrfLegacy
  import opened GrfHeader
  import opened GrfArchive
  import opened GrfWriter
  import opened Misread

  // ---------------------------------------------------------------- 0x200 and 0x300

  function WideVersion(wide: bool): nat {
    if wide then 0x300 else 0x200
  }

  ghost predicate ModernFits(lib: Library, signature: seq<byte>, wide: bool, items: seq<Item>, keyBlock: seq<byte>) {
    && AllFit(items) && Signed(signature)
    && |items| < U32_LIMIT - 7 && |Body(items)| < OffsetLimit(wide)
    && |keyBlock| < U32_LIMIT && (!wide ==> keyBlock == [])
    && ModernWritable(RowsFrom(items, 0), wide)
    && |ModernTableBytes(RowsFrom(items, 0), wide)| < U32_LIMIT
    && |lib.deflate(ModernTableBytes(RowsFrom(items, 0), wide))| < U32_LIMIT
  }

  function ModernHeader(signature: seq<byte>, wide: bool, count: nat, offset: nat): (s: seq<byte>)
    requires |signature| <= 30 && count < U32_LIMIT - 7 && offset < OffsetLimit(wide)
    ensures |s| == HEADER_SIZE
  {
    if wide then HeaderBytes(signature, offset % 0x1_0000_0000, offset / 0x1_0000_0000, count, 0x300)
    else HeaderBytes(signature, offset, 0, count + 7, 0x200)
  }

  /** The compressed table behind its sizes, with the key block's length in front and the key block behind it. */
  function ModernTail(wide: bool, packed: seq<byte>, size: nat, keyBlock: seq<byte>): seq<byte>
    requires |packed| < U32_LIMIT && size < U32_LIMIT && |keyBlock| < U32_LIMIT
  {
    (if wide then WordBytes(|keyBlock|) else []) + (WordBytes(|packed|) + WordBytes(size)) + packed + keyBlock
  }

  /** The bytes of a 0x200 or 0x300 archive. */
  ghost function ModernArchive(lib: Library, signature: seq<byte>, wide: bool, items: seq<Item>,
                               keyBlock: seq<byte>): seq<byte>
    requires ModernFits(lib, signature, wide, items, keyBlock)
  {
    var table := ModernTableBytes(RowsFrom(items, 0), wide);
    ModernHeader(signature, wide, |items|, |Body(items)|) + Body(items) + ModernTail(wide, lib.deflate(table), |table|,
        keyBlock)
  }

  lemma WordIn(word: seq<byte>, n: nat, before: seq<byte>, after: seq<byte>)
    requires n < U32_LIMIT && word == WordBytes(n)
    ensures Word((before + word + after)[|before|..|before| + 4], 0) == n
  {
    hide Word, WordBytes;
    var part := (before + word + after)[|before|..|before| + 4];
    assert part == word && part[0..0 + 4] == word;
    WordInContext(part, 0, n);
  }

  lemma TwoWords(a: nat, b: nat)
    requires a < U32_LIMIT && b < U32_LIMIT
    ensures Word(WordBytes(a) + WordBytes(b), 0) == a && Word(WordBytes(a) + WordBytes(b), 4) == b
  {
    hide Word, WordBytes;
    var s := WordBytes(a) + WordBytes(b);
    assert s[0..0 + 4] == WordBytes(a) && s[4..4 + 4] == WordBytes(b);
    WordInContext(s, 0, a);
    WordInContext(s, 4, b);
  }

  lemma ThreeParts(front: seq<byte>, sizes: seq<byte>, packed: seq<byte>, keyBlock: seq<byte>)
    requires |sizes| == 8
    ensures var image, at := front + sizes + packed + keyBlock, |front|;
            && image[at..at + 8] == sizes
            && image[at + 8..at + 8 + |packed|] == packed
            && image[at + 8 + |packed|..at + 8 + |packed| + |keyBlock|] == keyBlock
  {
  }

  lemma Regroup(front: seq<byte>, first: seq<byte>, sizes: seq<byte>, packed: seq<byte>, keyBlock: seq<byte>)
    ensures var image := front + (first + sizes + packed + keyBlock);
            image == front + first + sizes + packed + keyBlock == front + first + (sizes + packed + keyBlock)
  {
  }

  /** The tail of a modern archive, wherever it starts. */
  lemma TailParts(front: seq<byte>, wide: bool, packed: seq<byte>, size: nat, keyBlock: seq<byte>)
    requires |packed| < U32_LIMIT && size < U32_LIMIT && |keyBlock| < U32_LIMIT
    ensures var image, at := front + ModernTail(wide, packed, size, keyBlock), |front| + if wide then 4 else 0;
            && |image| == at + 8 + |packed| + |keyBlock|
            && (wide ==> Word(image[|front|..|front| + 4], 0) == |keyBlock|)
            && Word(image[at..at + 8], 0) == |packed| && Word(image[at..at + 8], 4) == size
            && image[at + 8..at + 8 + |packed|] == packed
            && image[at + 8 + |packed|..at + 8 + |packed| + |keyBlock|] == keyBlock
  {
    hide Word, WordBytes;
    var first, sizes := if wide then WordBytes(|keyBlock|) else [], WordBytes(|packed|) + WordBytes(size);
    var image := front + ModernTail(wide, packed, size, keyBlock);
    Regroup(front, first, sizes, packed, keyBlock);
    ThreeParts(front + first, sizes, packed, keyBlock);
    TwoWords(|packed|, size);
    if wide {
      WordIn(first, |keyBlock|, front, sizes + packed + keyBlock);
    }
  }

  function KeysOfBlock(lib: Library, keyBlock: seq<byte>): Result<ArchiveKeys> {
    if keyBlock == [] then Ok(map[]) else OrCorruptTable(ArchiveKeysDecoded(lib, keyBlock))
  }

  predicate TableAccepted(table: seq<byte>) {
    table != [] && |table| <= MAX_TABLE_BYTES
  }

  lemma InflateTable(lib: Library, table: seq<byte>)
    requires lib.ZlibLaw()
    ensures InflateExact(lib, lib.deflate(table), |table|) == Ok(table)
    ensures lib.deflate(table) != []
  {
    assert lib.deflate(table) + [] == lib.deflate(table);
  }

  /** The table reader finds the table, and the key block behind it. */
  lemma ModernTableFound(lib: Library, front: seq<byte>, wide: bool, table: seq<byte>, keyBlock: seq<byte>, h: Header)
    requires lib.ZlibLaw() && |table| < U32_LIMIT && |lib.deflate(table)| < U32_LIMIT
    requires |keyBlock| < U32_LIMIT && (!wide ==> keyBlock == [])
    requires h.version == WideVersion(wide) && h.tableOffset == |front|
    ensures var image := front + ModernTail(wide, lib.deflate(table), |table|, keyBlock);
            TableRead(lib, image, h) ==
              if |keyBlock| > MAX_KEY_BLOCK then Err(TooManyEntries)
              else if !TableAccepted(table) then Err(CorruptTable)
              else WithKeys(Rows(ModernRow(wide), table, h.fileCount), KeysOfBlock(lib, keyBlock))
  {
    hide Word, ModernTail, Rows, ArchiveKeysDecoded, InflateExact, ModernRow, LegacyRow;
    var packed := lib.deflate(table);
    TailParts(front, wide, packed, |table|, keyBlock);
    InflateTable(lib, table);
  }

  /** What opening a written 0x200 or 0x300 archive gives, whatever limits it exceeds. */
  lemma ModernArchiveOpens(lib: Library, signature: seq<byte>, wide: bool, items: seq<Item>, keyBlock: seq<byte>)
    requires lib.ZlibLaw() && ModernFits(lib, signature, wide, items, keyBlock) && |Body(items)| < 0x100_0000_0000
    ensures var rows := RowsFrom(items, 0);
            Opened(lib, ModernArchive(lib, signature, wide, items, keyBlock)) ==
              if |items| > MAX_ENTRIES || |keyBlock| > MAX_KEY_BLOCK then Err(TooManyEntries)
              else if !TableAccepted(ModernTableBytes(rows, wide)) then Err(CorruptTable)
              else Shelved(lib, WideVersion(wide), WithKeys(Ok(StoredRows(rows)), KeysOfBlock(lib, keyBlock)))
  {
    hide ModernTail, TableRead, ParseHeader, HeaderBytes, Rows, ModernRow, KeysOfBlock, TableAccepted, Listed,
      ModernTableBytes,
      RowsFrom, Body, ModernWritable, AllFit;
    var rows := RowsFrom(items, 0);
    var table, body := ModernTableBytes(rows, wide), Body(items);
    var header := ModernHeader(signature, wide, |items|, |body|);
    var image := ModernArchive(lib, signature, wide, items, keyBlock);
    assert image[0..0 + HEADER_SIZE] == header;
    if wide {
      WideHeaderRoundTrip(signature, |body|, |items|);
    } else {
      NarrowHeaderRoundTrip(signature, |body|, 0, |items|, 0x200);
    }
    ModernTableFound(lib, header + body, wide, table, keyBlock,
                     Header(WideVersion(wide), |body| + HEADER_SIZE, |items|));
    ModernTableRoundTrip(rows, wide, 0);
  }

  /** No table is found in an archive that ends before its key block does. */
  lemma CutTableNotFound(lib: Library, front: seq<byte>, wide: bool, packed: seq<byte>, size: nat, keyBlock: seq<byte>,
      h: Header, k: nat)
    requires |packed| < U32_LIMIT && size < U32_LIMIT && |keyBlock| < U32_LIMIT && (!wide ==> keyBlock == [])
    requires h.version == WideVersion(wide) && h.tableOffset == |front|
    requires k < |front + ModernTail(wide, packed, size, keyBlock)|
    ensures TableRead(lib, (front + ModernTail(wide, packed, size, keyBlock))[..k], h).Err?
  {
    hide Word, ModernTail, Rows, ArchiveKeysDecoded, InflateExact, ModernRow, LegacyRow;
    var whole := front + ModernTail(wide, packed, size, keyBlock);
    var image, at := whole[..k], |front| + if wide then 4 else 0;
    TailParts(front, wide, packed, size, keyBlock);
    if wide && |front| + 4 <= k {
      assert image[|front|..|front| + 4] == whole[|front|..|front| + 4];
    }
    if at + 8 <= k {
      assert image[at..at + 8] == whole[at..at + 8];
    }
  }

  /** Every strict prefix of a written 0x200 or 0x300 archive is refused. */
  lemma CutModernArchiveRefused(lib: Library, signature: seq<byte>, wide: bool, items: seq<Item>, keyBlock: seq<byte>,
                                k: nat)
    requires ModernFits(lib, signature, wide, items, keyBlock) && |Body(items)| < 0x100_0000_0000
    requires k < |ModernArchive(lib, signature, wide, items, keyBlock)|
    ensures Opened(lib, ModernArchive(lib, signature, wide, items, keyBlock)[..k]).Err?
  {
    hide ModernTail, TableRead, ParseHeader, HeaderBytes, Rows, ModernRow, ModernTableBytes, RowsFrom, Body,
        ModernWritable, AllFit;
    var rows := RowsFrom(items, 0);
    var table, body := ModernTableBytes(rows, wide), Body(items);
    var header := ModernHeader(signature, wide, |items|, |body|);
    var image := ModernArchive(lib, signature, wide, items, keyBlock);
    if k >= HEADER_SIZE {
      assert image[..k][0..0 + HEADER_SIZE] == header;
      if wide {
        WideHeaderRoundTrip(signature, |body|, |items|);
      } else {
        NarrowHeaderRoundTrip(signature, |body|, 0, |items|, 0x200);
      }
      CutTableNotFound(lib, header + body, wide, lib.deflate(table), |table|, keyBlock,
        Header(WideVersion(wide), |body| + HEADER_SIZE, |items|), k);
    }
  }

  /** The archive `write_signed` or `write_protected_archive` writes for the given entries. */
  ghost predicate ModernSpecsFit(lib: Library, signature: seq<byte>, wide: bool, specs: seq<Spec>,
                                 keyBlock: seq<byte>) {
    var items := ModernItems(lib, specs);
    && ModernFits(lib, signature, wide, items, keyBlock)
    && |Body(items)| < 0x100_0000_0000
    && 0 < |specs| <= MAX_ENTRIES && |keyBlock| <= MAX_KEY_BLOCK
    && |ModernTableBytes(RowsFrom(items, 0), wide)| <= MAX_TABLE_BYTES
  }

  lemma TableNotEmpty(rows: seq<Named>, wide: bool)
    requires ModernWritable(rows, wide) && rows != []
    ensures ModernTableBytes(rows, wide) != []
  {
    hide ModernEntryBytes;
    assert ModernPieces(rows, wide)[0] == ModernRowBytes(rows[0], wide);
  }

  lemma BodyStandsInArchive(lib: Library, signature: seq<byte>, wide: bool, items: seq<Item>, keyBlock: seq<byte>)
    requires ModernFits(lib, signature, wide, items, keyBlock)
    ensures StandsAt(ModernArchive(lib, signature, wide, items, keyBlock), 0, Body(items))
  {
    hide ModernTail, ModernHeader, RowsFrom, Body, ModernTableBytes, ModernWritable, AllFit;
    var table := ModernTableBytes(RowsFrom(items, 0), wide);
    var header := ModernHeader(signature, wide, |items|, |Body(items)|);
    var tail := ModernTail(wide, lib.deflate(table), |table|, keyBlock);
    var image := ModernArchive(lib, signature, wide, items, keyBlock);
    assert image == header + Body(items) + tail;
    assert image[HEADER_SIZE + 0..HEADER_SIZE + 0 + |Body(items)|] == Body(items);
  }

  /**
   A written 0x200 or 0x300 archive opens, whatever its signature's tail and key block, and lists exactly its files in
   order, each under its name, size and type; reading a file returns its data, protected entries included.
   */
  lemma ModernArchiveRoundTrip(lib: Library, signature: seq<byte>, wide: bool, specs: seq<Spec>, keyBlock: seq<byte>,
      keys: ArchiveKeys)
    requires lib.ZlibLaw() && lib.AesLaw() && lib.Lz4Law()
    requires ModernSpecsFit(lib, signature, wide, specs, keyBlock)
    requires KeysOfBlock(lib, keyBlock) == Ok(keys) && AllWritable(lib, keys, specs)
    ensures var image := ModernArchive(lib, signature, wide, ModernItems(lib, specs), keyBlock);
            var r := Opened(lib, image);
            && r.Ok? && r.value.version == WideVersion(wide) && r.value.keys == keys
            && AllMatch(lib, image, keys, r.value.files, ModernListing(lib), Filtered(ModernListing(lib), specs))
  {
    hide ModernArchive, Opened, ModernFits, AllMatch, Filtered, ModernListing, Listed, StoredRows, RowsFrom, Body,
      KeysOfBlock,
      AllWritable, ModernTableBytes, ModernItem;
    var items := ModernItems(lib, specs);
    ModernItemsFit(lib, keys, specs);
    assert ModernWritable(RowsFrom(items, 0), wide) by { FitsWritable(lib, signature, wide, items, keyBlock); }
    TableNotEmpty(RowsFrom(items, 0), wide);
    ModernArchiveOpens(lib, signature, wide, items, keyBlock);
    BodyStandsInArchive(lib, signature, wide, items, keyBlock);
    ModernFilesRead(lib, ModernArchive(lib, signature, wide, items, keyBlock), keys, specs);
  }

  lemma FitsWritable(lib: Library, signature: seq<byte>, wide: bool, items: seq<Item>, keyBlock: seq<byte>)
    requires ModernFits(lib, signature, wide, items, keyBlock)
    ensures AllFit(items) && ModernWritable(RowsFrom(items, 0), wide)
  {
  }

  // ---------------------------------------------------------------- 0x102

  const LEGACY_VERSION: nat := 0x102

  /** An ordinary entry whose lengths fit the fields of its row. */
  predicate LengthsFit(lib: Library, spec: Spec) {
    && spec.Plain? && PaddedLength(|spec.name|) + 6 < U32_LIMIT
    && |lib.deflate(spec.data)| + |spec.data| + LENGTH_BIAS < U32_LIMIT
    && RoundUp(|lib.deflate(spec.data)|) + ALIGNED_BIAS < U32_LIMIT
  }

  /** An entry that `write_v102` is given: an ordinary one whose flags do not say that it is protected. */
  predicate LegacySpec(lib: Library, spec: Spec) {
    LengthsFit(lib, spec) && !HasBit(spec.flags, PROTECTED)
  }

  /**
   A file that is written in header mode, as its extension asks, and read in mixed mode: its flags ask for that already,
   or the extension that is left of its name does.
   */
  predicate Disagrees(spec: Spec)
    requires spec.Plain?
  {
    !FullEncrypt(spec.name) && (HasBit(spec.flags, ENCRYPT_MIXED) || FullEncrypt(CutName(spec.name)))
  }

  /** The type byte a reader ends up with: writer and reader both add the mode of the name they see. */
  function LegacyKind(spec: Spec): byte
    requires spec.Plain?
  {
    if HasBit(spec.flags, FILE)
    then With(With(spec.flags, ModeOf(FullEncrypt(spec.name))), ModeOf(FullEncrypt(CutName(spec.name))))
    else spec.flags
  }

  /** The payload of a 0x102 entry before it is encrypted. */
  function LegacyPayload(lib: Library, data: seq<byte>): (payload: seq<byte>)
    ensures |payload| == RoundUp(|lib.deflate(data)|)
  {
    var packed := lib.deflate(data);
    packed + Zeros(RoundUp(|packed|) - |packed|)
  }

  /** What a decrypted payload gives: equal sizes mean stored, anything else a zlib stream. */
  function Unpacked(lib: Library, data: seq<byte>, payload: seq<byte>): Result<seq<byte>> {
    if |lib.deflate(data)| == |data| then Ok(Truncated(payload, |data|)) else InflateExact(lib, payload, |data|)
  }

  /**
   What reading a file of a 0x102 archive gives: its content, or what its payload gives when it is read in the wrong
   mode.
   */
  function LegacyContent(lib: Library, spec: Spec): Result<seq<byte>>
    requires spec.Plain?
  {
    var payload := LegacyPayload(lib, spec.data);
    if Disagrees(spec) then Unpacked(lib, spec.data, ReadAsMixed(payload, |lib.deflate(spec.data)|))
    else Ok(Inflatable(lib, spec.data))
  }

  /**
   A file whose payload the reader decrypts to what was encrypted: each block, where the modes differ, happens to
   stay.
   */
  predicate PayloadSurvives(lib: Library, spec: Spec)
    requires spec.Plain?
  {
    var payload := LegacyPayload(lib, spec.data);
    Disagrees(spec) ==> forall k | 0 <= k < |payload| / 8 :: Survives(payload, |lib.deflate(spec.data)|, k)
  }

  /** A 0x102 archive lists the files, under what is left of their names; the extensions decide their modes. */
  function LegacyListing(lib: Library): Listing {
    (spec: Spec) =>
      if spec.Plain? && HasBit(spec.flags, FILE) && |spec.data| <= MAX_OUTPUT_SIZE
      then Some(Shown(CutName(spec.name), LegacyKind(spec), LegacyContent(lib, spec)))
      else None
  }

  lemma ModeBits(flags: byte, full: bool)
    ensures var kind := With(flags, ModeOf(full));
            && HasBit(kind, FILE) == HasBit(flags, FILE) && HasBit(kind, PROTECTED) == HasBit(flags, PROTECTED)
  {
  }

  /** The mode a file is read in, when `full` is asked of the writer and `cut` of the reader. */
  lemma ModesMeet(flags: byte, full: bool, cut: bool)
    ensures var kind := With(With(flags, ModeOf(full)), ModeOf(cut));
            if full || (!HasBit(flags, ENCRYPT_MIXED) && !cut) then SameModes(kind, ModeOf(full))
            else HasBit(kind, ENCRYPT_MIXED)
  {
  }

  lemma LegacyItemFits(lib: Library, spec: Spec)
    requires LengthsFit(lib, spec)
    ensures ItemFits(LegacyItem(lib, spec))
    ensures HasBit(spec.flags, FILE) ==> |LegacyItem(lib, spec).payload| == LegacyItem(lib, spec).aligned
    ensures !HasBit(spec.flags, FILE) ==> LegacyItem(lib, spec).payload == []
  {
    hide Encrypted, HasBit, ModeOf, FullEncrypt;
  }

  /** The row read back for an entry: its name is cut, and reader and writer have both marked its mode. */
  lemma LegacyItemReadBack(lib: Library, spec: Spec, start: nat)
    requires LegacySpec(lib, spec)
    ensures ItemFits(LegacyItem(lib, spec))
    ensures ReadBack(RowOf(LegacyItem(lib, spec), start)) ==
            Named(CutName(spec.name), RowOf(LegacyItem(lib, spec), start).entry.(kind := LegacyKind(spec)))
    ensures !HasBit(LegacyKind(spec), PROTECTED) && HasBit(LegacyKind(spec), FILE) == HasBit(spec.flags, FILE)
  {
    hide Encrypted, HasBit, ModeOf, FullEncrypt, IsFullEncrypt, CutName, RoundUp, Zeros, With;
    LegacyItemFits(lib, spec);
    var full, cut := FullEncrypt(spec.name), FullEncrypt(CutName(spec.name));
    ModesAgree(CutName(spec.name));
    ModeBits(spec.flags, full);
    ModeBits(With(spec.flags, ModeOf(full)), cut);
  }

  /** The item of a file: how much it is padded, and the mode it is encrypted in, which is the one it is read in. */
  lemma LegacyItemOfFile(lib: Library, spec: Spec) returns (n: nat, mode: byte)
    requires LegacySpec(lib, spec) && HasBit(spec.flags, FILE) && !Disagrees(spec)
    ensures var packed, item := lib.deflate(spec.data), LegacyItem(lib, spec);
            && item.payload == Encrypted(mode, packed + Zeros(n), |packed|)
            && item.packed == |packed| && item.aligned == |packed| + n && item.size == |spec.data|
    ensures SameModes(LegacyKind(spec), mode)
  {
    hide Encrypted, HasBit, ModeOf, FullEncrypt, Zeros, SameModes, With, CutName;
    n := RoundUp(|lib.deflate(spec.data)|) - |lib.deflate(spec.data)|;
    mode := ModeOf(FullEncrypt(spec.name));
    ModesMeet(spec.flags, FullEncrypt(spec.name), FullEncrypt(CutName(spec.name)));
  }

  /** The item of a file that is read in the wrong mode. */
  lemma LegacyItemMisread(lib: Library, spec: Spec, entry: Entry)
    requires LegacySpec(lib, spec) && HasBit(spec.flags, FILE) && Disagrees(spec) && ItemFits(LegacyItem(lib, spec))
    requires entry == RowOf(LegacyItem(lib, spec), entry.offset).entry.(kind := LegacyKind(spec))
    ensures Decrypted(entry, LegacyItem(lib, spec).payload) ==
            ReadAsMixed(LegacyPayload(lib, spec.data), |lib.deflate(spec.data)|)
  {
    hide HasBit, FullEncrypt, Zeros, With, Des.Mixed, Des.HeaderMode, CutName, SameModes;
    ModesMeet(spec.flags, FullEncrypt(spec.name), FullEncrypt(CutName(spec.name)));
    HeaderModeBits();
  }

  lemma HeaderModeBits()
    ensures !HasBit(ENCRYPT_HEADER, ENCRYPT_MIXED) && HasBit(ENCRYPT_HEADER, ENCRYPT_HEADER)
  {
  }

  /** A file that is read in the mode it was written in, or whose payload survives, reads as what was written. */
  lemma LegacyContentSurvives(lib: Library, spec: Spec)
    requires lib.ZlibLaw() && spec.Plain?
    ensures PayloadSurvives(lib, spec) ==> LegacyContent(lib, spec) == Ok(Inflatable(lib, spec.data))
    ensures |LegacyPayload(lib, spec.data)| <= 160 ==> PayloadSurvives(lib, spec)
    ensures var payload := LegacyPayload(lib, spec.data);
            Disagrees(spec) ==>
              (PayloadSurvives(lib, spec) <==> ReadAsMixed(payload, |lib.deflate(spec.data)|) == payload)
  {
    hide Survives, ReadAsMixed, Disagrees, Zeros;
    var packed, payload := lib.deflate(spec.data), LegacyPayload(lib, spec.data);
    MisreadIff(payload, |packed|);
    TakeFirst(packed, Zeros(RoundUp(|packed|) - |packed|));
    FirstSurvive(payload, |packed|);
  }

  lemma FirstSurvive(payload: seq<byte>, entryLength: nat)
    ensures |payload| <= 160 ==> forall k | 0 <= k < |payload| / 8 :: Survives(payload, entryLength, k)
  {
    hide Des.Acted, Des.ActionAt;
  }

  /** Reading the payload of a file's entry. */
  lemma LegacyPayloadRead(lib: Library, spec: Spec, entry: Entry)
    requires lib.ZlibLaw() && LegacySpec(lib, spec) && HasBit(spec.flags, FILE) && ItemFits(LegacyItem(lib, spec))
    requires entry == RowOf(LegacyItem(lib, spec), entry.offset).entry.(kind := LegacyKind(spec))
    ensures OrdinaryRead(lib, entry, LegacyItem(lib, spec).payload) == LegacyContent(lib, spec)
    ensures entry.lengthAligned > 0
  {
    hide Encrypted, Decrypted, HasBit, SameModes, Zeros, FullEncrypt, ReadAsMixed, CutName, LegacyKind;
    LegacyItemSizes(lib, spec);
    if Disagrees(spec) {
      LegacyItemMisread(lib, spec, entry);
    } else {
      var n, mode := LegacyItemOfFile(lib, spec);
      hide OrdinaryRead;
      OrdinaryRoundTrip(lib, entry, mode, spec.data, lib.deflate(spec.data), n);
    }
  }

  lemma LegacyItemSizes(lib: Library, spec: Spec)
    requires lib.ZlibLaw() && spec.Plain? && HasBit(spec.flags, FILE)
    ensures var item := LegacyItem(lib, spec);
            item.packed == |lib.deflate(spec.data)| && item.size == |spec.data| && item.aligned > 0
  {
    hide Encrypted, HasBit, Zeros, FullEncrypt;
  }

  lemma LegacyFileRead(lib: Library, image: seq<byte>, spec: Spec, start: nat)
    requires lib.ZlibLaw() && LegacySpec(lib, spec) && StandsAt(image, start, LegacyItem(lib, spec).payload)
    ensures ItemFits(LegacyItem(lib, spec))
    ensures ReadsAs(lib, image, map[], LegacyListing(lib), ReadBack(RowOf(LegacyItem(lib, spec), start)), spec)
  {
    hide Encrypted, HasBit, ModeOf, FullEncrypt, With, ReadBack, RoundUp, OrdinaryRead, ProtectedRead, LegacySpec,
      LengthsFit, LegacyContent, LegacyKind, CutName;
    LegacyItemReadBack(lib, spec, start);
    LegacyLengthsFit(lib, spec);
    LegacyItemFits(lib, spec);
    if LegacyListing(lib)(spec).Some? {
      LegacyPayloadRead(lib, spec, RowOf(LegacyItem(lib, spec), start).entry.(kind := LegacyKind(spec)));
    }
  }

  lemma LegacyLengthsFit(lib: Library, spec: Spec)
    requires LegacySpec(lib, spec)
    ensures LengthsFit(lib, spec) && spec.Plain?
  {
  }

  predicate AllLegacy(lib: Library, specs: seq<Spec>) {
    forall i | 0 <= i < |specs| :: LegacySpec(lib, specs[i])
  }

  predicate AllLengthsFit(lib: Library, specs: seq<Spec>) {
    forall i | 0 <= i < |specs| :: LengthsFit(lib, specs[i])
  }

  function LegacyItems(lib: Library, specs: seq<Spec>): (items: seq<Item>)
    requires AllLengthsFit(lib, specs)
    ensures |items| == |specs|
  {
    seq(|specs|, i requires 0 <= i < |specs| => LegacyItem(lib, specs[i]))
  }

  lemma LegacyItemsFit(lib: Library, specs: seq<Spec>, start: nat)
    requires AllLengthsFit(lib, specs)
    ensures AllFit(LegacyItems(lib, specs))
    ensures var rows := RowsFrom(LegacyItems(lib, specs), start);
            start + |Body(LegacyItems(lib, specs))| < U32_LIMIT ==> LegacyWritable(rows)
  {
    hide LegacyItem, LengthsFit, ItemFits, RowsFrom, Body, LegacyFits;
    var items := LegacyItems(lib, specs);
    forall i | 0 <= i < |specs|
      ensures ItemFits(items[i])
    {
      LegacyItemFits(lib, specs[i]);
    }
    RowsInBody(items, start);
    var rows := RowsFrom(items, start);
    if start + |Body(items)| < U32_LIMIT {
      forall i | 0 <= i < |rows|
        ensures LegacyFits(rows[i])
      {
        LegacyRowFits(lib, specs[i], rows[i].entry.offset);
      }
    }
  }

  lemma LegacyRowFits(lib: Library, spec: Spec, start: nat)
    requires LengthsFit(lib, spec) && start < U32_LIMIT
    ensures ItemFits(LegacyItem(lib, spec)) && LegacyFits(RowOf(LegacyItem(lib, spec), start))
  {
    hide Encrypted, HasBit, ModeOf, FullEncrypt;
  }

  lemma LegacyFilesRead(lib: Library, image: seq<byte>, specs: seq<Spec>)
    requires lib.ZlibLaw() && AllLegacy(lib, specs) && AllLengthsFit(lib, specs)
    requires StandsAt(image, 0, Body(LegacyItems(lib, specs)))
    ensures AllFit(LegacyItems(lib, specs))
    ensures AllMatch(lib, image, map[], Listed(lib, AllReadBack(RowsFrom(LegacyItems(lib, specs), 0))),
                     LegacyListing(lib), Filtered(LegacyListing(lib), specs))
  {
    hide LegacyItem, LegacySpec, LengthsFit, ItemFits, RowsFrom, Body, LegacyListing, ReadBack, StandsAt, Listed,
        Filtered, ReadsAs, AllMatch;
    LegacyItemsFit(lib, specs, 0);
    var items := LegacyItems(lib, specs);
    var rows := RowsFrom(items, 0);
    PayloadsStand(image, items, 0);
    RowsInBody(items, 0);
    forall i | 0 <= i < |specs|
      ensures ReadsAs(lib, image, map[], LegacyListing(lib), AllReadBack(rows)[i], specs[i])
    {
      LegacyFileRead(lib, image, specs[i], rows[i].entry.offset);
    }
    FilesRead(lib, image, map[], LegacyListing(lib), AllReadBack(rows), specs);
  }

  predicate LegacyArchiveFits(lib: Library, specs: seq<Spec>) {
    && AllLengthsFit(lib, specs)
    && |specs| < U32_LIMIT - 7
    && |Body(LegacyItems(lib, specs))| < U32_LIMIT
  }

  function LegacyRows(lib: Library, specs: seq<Spec>): (rows: seq<Named>)
    requires LegacyArchiveFits(lib, specs)
    ensures |rows| == |specs| && LegacyWritable(rows)
  {
    LegacyItemsFit(lib, specs, 0);
    RowsFrom(LegacyItems(lib, specs), 0)
  }

  function LegacyHeader(count: nat, offset: nat): (s: seq<byte>)
    requires count < U32_LIMIT - 7 && offset < U32_LIMIT
    ensures |s| == HEADER_SIZE
  {
    HeaderBytes(MASTER, offset, 0, count + 7, LEGACY_VERSION)
  }

  /** The bytes `write_v102` writes. */
  function LegacyArchive(lib: Library, specs: seq<Spec>): seq<byte>
    requires LegacyArchiveFits(lib, specs)
  {
    var body := Body(LegacyItems(lib, specs));
    LegacyHeader(|specs|, |body|) + body + LegacyTableBytes(LegacyRows(lib, specs))
  }

  lemma LegacyTableFound(lib: Library, front: seq<byte>, table: seq<byte>, h: Header)
    requires h.version == LEGACY_VERSION && h.tableOffset == |front|
    ensures TableRead(lib, front + table, h) ==
              if table == [] || |table| > MAX_TABLE_BYTES then Err(CorruptTable)
              else WithKeys(Rows(LegacyRow(), table, h.fileCount), Ok(map[]))
  {
    hide Rows, LegacyRow, ModernRow, ModernTable, KeysAt;
    SecondPart(front, table);
  }

  /** The header of an image of the 0x102 layout. */
  lemma LegacyFront(count: nat, body: seq<byte>, table: seq<byte>)
    requires count < U32_LIMIT - 7 && |body| < U32_LIMIT
    ensures var image := LegacyHeader(count, |body|) + body + table;
            && ReadAt(image, 0, HEADER_SIZE) == Ok(LegacyHeader(count, |body|))
            && ParseHeader(LegacyHeader(count, |body|)) == Ok(Header(LEGACY_VERSION, |body| + HEADER_SIZE, count))
  {
    hide HeaderBytes, ParseHeader;
    KnownSignatures([]);
    var header := LegacyHeader(count, |body|);
    var image := header + body + table;
    NarrowHeaderRoundTrip(MASTER, |body|, 0, count, LEGACY_VERSION);
    assert image[0..0 + HEADER_SIZE] == header;
  }

  /** Opening an archive of the 0x102 layout that may end early reads the table from where the body ends. */
  lemma LegacyImageOpens(lib: Library, count: nat, body: seq<byte>, table: seq<byte>)
    requires count < U32_LIMIT - 7 && |body| < U32_LIMIT
    ensures Opened(lib, LegacyHeader(count, |body|) + body + table) ==
              if count > MAX_ENTRIES then Err(TooManyEntries)
              else if table == [] || |table| > MAX_TABLE_BYTES then Err(CorruptTable)
              else Shelved(lib, LEGACY_VERSION, WithKeys(Rows(LegacyRow(), table, count), Ok(map[])))
  {
    hide LegacyHeader, ParseHeader, Rows, LegacyRow, Listed, TableRead, ReadAt;
    LegacyFront(count, body, table);
    LegacyTableFound(lib, LegacyHeader(count, |body|) + body, table,
                     Header(LEGACY_VERSION, |body| + HEADER_SIZE, count));
  }

  lemma CutBodyRefused(lib: Library, count: nat, body: seq<byte>, k: nat)
    requires count < U32_LIMIT - 7 && |body| < U32_LIMIT && k < HEADER_SIZE + |body|
    ensures Opened(lib, (LegacyHeader(count, |body|) + body)[..k]).Err?
  {
    hide HeaderBytes, ParseHeader, Rows, LegacyRow, ModernRow, Listed, ArchiveKeysDecoded, ModernTable, KeysAt,
      WithKeys;
    var header := LegacyHeader(count, |body|);
    var image := (header + body)[..k];
    LegacyFront(count, body, []);
    if k >= HEADER_SIZE {
      assert image[0..0 + HEADER_SIZE] == header;
    }
  }

  /**
   A written 0x102 archive of files and directories opens, within the reader's limits, and lists exactly its files in
   order, each under its size and what is left of its name, which is all of it exactly where `NameSurvives` says so.
   Reading a file returns its data, except where it is read in mixed mode but was written in header mode: then it
   returns what the payload gives in the wrong mode, which is the same unless `PayloadSurvives` fails. The directories
   are dropped.
   */
  lemma LegacyArchiveRoundTrip(lib: Library, specs: seq<Spec>)
    requires lib.ZlibLaw() && LegacyArchiveFits(lib, specs) && AllLegacy(lib, specs)
    requires 0 < |specs| <= MAX_ENTRIES && |LegacyTableBytes(LegacyRows(lib, specs))| <= MAX_TABLE_BYTES
    ensures var image := LegacyArchive(lib, specs);
            var r := Opened(lib, image);
            && r.Ok? && r.value.version == LEGACY_VERSION && r.value.keys == map[]
            && AllMatch(lib, image, map[], r.value.files, LegacyListing(lib), Filtered(LegacyListing(lib), specs))
  {
    hide Opened, AllMatch, Filtered, LegacyListing, Listed, AllReadBack, RowsFrom, LegacyTableBytes, AllLegacy,
        AllLengthsFit, Rows, LegacyRow, LegacyHeader, Body;
    var image, table, body := LegacyArchive(lib, specs), LegacyTableBytes(LegacyRows(lib, specs)),
        Body(LegacyItems(lib, specs));
    LegacyTableNotEmpty(LegacyRows(lib, specs));
    LegacyTableRoundTrip(LegacyRows(lib, specs), 0);
    LegacyImageOpens(lib, |specs|, body, table);
    assert StandsAt(image, 0, body) by { assert image[HEADER_SIZE + 0..HEADER_SIZE + 0 + |body|] == body; }
    LegacyFilesRead(lib, image, specs);
  }

  lemma LegacyTableNotEmpty(rows: seq<Named>)
    requires LegacyWritable(rows) && rows != []
    ensures LegacyTableBytes(rows) != []
  {
    hide LegacyFixedBytes, FilenameEncoded;
    assert LegacyPieces(rows)[0] == LegacyRowBytes(rows[0]);
  }

  /** Every strict prefix of a written 0x102 archive is refused, and so is an archive of nothing. */
  lemma CutLegacyArchiveRefused(lib: Library, specs: seq<Spec>, k: nat)
    requires LegacyArchiveFits(lib, specs) && k <= |LegacyArchive(lib, specs)|
    ensures k < |LegacyArchive(lib, specs)| || specs == [] ==> Opened(lib, LegacyArchive(lib, specs)[..k]).Err?
  {
    hide LegacyTableBytes, LegacyRows, Rows, LegacyRow, LegacyHeader, Body, Opened, Listed, AllLengthsFit;
    var rows, body := LegacyRows(lib, specs), Body(LegacyItems(lib, specs));
    var start, table := HEADER_SIZE + |body|, LegacyTableBytes(rows);
    var image := LegacyArchive(lib, specs);
    if k < start {
      assert image[..k] == (LegacyHeader(|specs|, |body|) + body)[..k];
      CutBodyRefused(lib, |specs|, body, k);
    } else {
      assert image[..k] == LegacyHeader(|specs|, |body|) + body + table[..k - start];
      LegacyImageOpens(lib, |specs|, body, table[..k - start]);
      LegacyTableRoundTrip(rows, k - start);
      if specs == [] {
        NoRows(rows);
      }
    }
  }

  lemma NoRows(rows: seq<Named>)
    requires rows == []
    ensures LegacyTableBytes(rows) == []
  {
  }
}
