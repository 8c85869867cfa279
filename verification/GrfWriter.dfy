/** The archive writers (tests/support/mod.rs, tests/grf.rs), and what the reader makes of their archives. */
module GrfWriter {
  import opened Bytes
  import opened Library
  import opened Protected
  import opened GrfTable
  import opened GrfLegacy
  import opened GrfHeader
  import opened GrfArchive
  import ProtectedEntry
  import Des

  /** One entry of an archive to write: an ordinary one, or a protected one under the name's own hashes. */
  datatype Spec =
    | Plain(name: seq<byte>, data: seq<byte>, flags: byte, stored: bool)
    | Locked(name: seq<byte>, data: seq<byte>, choice: ProtectedEntry.Choice)

  /** What a writer puts into an archive for one entry: the bytes of its body and the fields of its row. */
  datatype Item = Item(name: seq<byte>, payload: seq<byte>, packed: nat, aligned: nat, size: nat, kind: byte)

  function RoundUp(n: nat): (r: nat)
    ensures n <= r < n + 8 && r % 8 == 0
  {
    (n + 7) / 8 * 8
  }

  function Encrypted(kind: byte, payload: seq<byte>, packed: nat): (r: seq<byte>)
    ensures |r| == |payload|
  {
    if HasBit(kind, ENCRYPT_MIXED) then Des.Mixed(Des.Encode, payload, |payload|, packed)
    else if HasBit(kind, ENCRYPT_HEADER) then Des.HeaderMode(payload, |payload|)
    else payload
  }

  lemma DecryptionInverts(entry: Entry, payload: seq<byte>)
    requires entry.lengthAligned == |payload|
    ensures Decrypted(entry, Encrypted(entry.kind, payload, entry.compressedSize)) == payload
  {
    hide Des.Mixed, Des.HeaderMode, HasBit;
    Des.MixedModeRoundTrip(payload, |payload|, entry.compressedSize);
    Des.HeaderModeInvolution(payload, |payload|);
  }

  // ---------------------------------------------------------------- items

  function ModernPacked(lib: Library, spec: Spec): seq<byte>
    requires spec.Plain?
  {
    if spec.stored then spec.data else lib.deflate(spec.data)
  }

  predicate IsEncrypted(kind: byte) {
    HasBit(kind, ENCRYPT_MIXED) || HasBit(kind, ENCRYPT_HEADER)
  }

  /** The lengths the formats have 32 bits for, and what a protected entry needs. */
  ghost predicate Writable(lib: Library, spec: Spec) {
    && NulFree(spec.name)
    && |spec.data| < U32_LIMIT
    && match spec
       case Plain(_, _, flags, stored) => |ModernPacked(lib, spec)| + 8 <= U32_LIMIT && !HasBit(flags, PROTECTED)
       case Locked(name, data, choice) =>
         && ProtectedEntry.ValidChoice(choice)
         && |data| <= MAX_OUTPUT_SIZE
         && |ProtectedEntry.Packed(lib, choice.compression, data)| + 16 < U32_LIMIT
         && |LockedPayload(lib, spec)| <= MAX_OUTPUT_SIZE + PROTECTED_SLACK
  }

  ghost function LockedPayload(lib: Library, spec: Spec): seq<byte>
    requires spec.Locked?
  {
    var body := ProtectedEntry.EntryBody(lib, spec.choice, lib.xxh128(spec.name),
                                         lib.xxh128Seeded(spec.name, |spec.data|), spec.data);
    var packed := ProtectedEntry.Packed(lib, spec.choice.compression, spec.data);
    if spec.choice.cipher < 65536 && |spec.data| < U32_LIMIT && |packed| < U32_LIMIT && |body| < U32_LIMIT
    then ProtectedEntry.EntryBytes(lib, spec.choice, lib.xxh128(spec.name), lib.xxh128Seeded(spec.name, |spec.data|),
                                   spec.data)
    else []
  }

  /** An ordinary entry of `write_signed`: padded to whole blocks and encrypted if its flags say so. */
  function PlainItem(lib: Library, spec: Spec): Item
    requires spec.Plain?
  {
    hide RoundUp;
    var packed := ModernPacked(lib, spec);
    var aligned := if IsEncrypted(spec.flags) then RoundUp(|packed|) else |packed|;
    Item(spec.name, Encrypted(spec.flags, packed + Zeros(aligned - |packed|), |packed|), |packed|, aligned, |spec.data|,
        spec.flags)
  }

  ghost function ModernItem(lib: Library, spec: Spec): Item {
    match spec
    case Plain(_, _, _, _) => PlainItem(lib, spec)
    case Locked(name, data, _) =>
      var payload := LockedPayload(lib, spec);
      Item(name, payload, |payload|, |payload|, |data|, PROTECTED)
  }

  /**
   An entry of `write_v102`: always deflated and padded, encrypted by its extension, and without a body if it is no
   file.
   */
  function LegacyItem(lib: Library, spec: Spec): Item
    requires spec.Plain?
  {
    hide RoundUp;
    var packed := lib.deflate(spec.data);
    var aligned := RoundUp(|packed|);
    var mode := ModeOf(FullEncrypt(spec.name));
    if HasBit(spec.flags, FILE)
    then Item(spec.name, Encrypted(mode, packed + Zeros(aligned - |packed|), |packed|), |packed|, aligned, |spec.data|,
        With(spec.flags, mode))
    else Item(spec.name, [], |packed|, aligned, |spec.data|, spec.flags)
  }

  // ---------------------------------------------------------------- reading an item back

  lemma TakeFirst(a: seq<byte>, b: seq<byte>)
    ensures (a + b)[..|a|] == a
  {
  }

  /** Two type bytes that make the reader undo the same encryption. */
  predicate SameModes(a: byte, b: byte) {
    HasBit(a, ENCRYPT_MIXED) == HasBit(b, ENCRYPT_MIXED) &&
    (HasBit(a, ENCRYPT_MIXED) || HasBit(a, ENCRYPT_HEADER) == HasBit(b, ENCRYPT_HEADER))
  }

  /** An ordinary payload reads as its content, except that a stream as long as its content is taken for it. */
  lemma OrdinaryRoundTrip(lib: Library, e: Entry, kind: byte, data: seq<byte>, packed: seq<byte>, n: nat)
    requires lib.ZlibLaw() && SameModes(e.kind, kind) && (packed == data || packed == lib.deflate(data))
    requires e.compressedSize == |packed| && e.lengthAligned == |packed| + n && e.realSize == |data|
    ensures OrdinaryRead(lib, e, Encrypted(kind, packed + Zeros(n), |packed|)) ==
            Ok(if |packed| == |data| then packed else data)
  {
    hide Decrypted, Encrypted, Zeros, HasBit;
    var payload := packed + Zeros(n);
    var plain := Encrypted(kind, payload, |packed|);
    assert Encrypted(e.kind, payload, |packed|) == plain &&
        Decrypted(e, plain) == payload by { SameDecryption(e, kind, payload, |packed|); }
    TakeFirst(packed, Zeros(n));
  }

  lemma SameDecryption(e: Entry, kind: byte, payload: seq<byte>, packed: nat)
    requires SameModes(e.kind, kind) && e.compressedSize == packed && e.lengthAligned == |payload|
    ensures Encrypted(e.kind, payload, packed) == Encrypted(kind, payload, packed)
    ensures Decrypted(e, Encrypted(kind, payload, packed)) == payload
  {
    hide Des.Mixed, Des.HeaderMode, HasBit;
    DecryptionInverts(e, payload);
  }

  // ---------------------------------------------------------------- layout

  predicate ItemFits(item: Item) {
    item.packed < U32_LIMIT && item.aligned < U32_LIMIT && item.size < U32_LIMIT
  }

  predicate AllFit(items: seq<Item>) {
    forall i | 0 <= i < |items| :: ItemFits(items[i])
  }

  function RowOf(item: Item, start: nat): Named
    requires ItemFits(item)
  {
    Named(item.name, Entry(start, item.packed, item.aligned, item.size, item.kind))
  }

  /** The bodies, one after the other. */
  function Body(items: seq<Item>): seq<byte> {
    if items == [] then [] else items[0].payload + Body(items[1..])
  }

  /** The rows of items whose bodies start at `start`. */
  function RowsFrom(items: seq<Item>, start: nat): (rows: seq<Named>)
    requires AllFit(items)
    ensures |rows| == |items|
  {
    if items == [] then [] else [RowOf(items[0], start)] + RowsFrom(items[1..], start + |items[0].payload|)
  }

  /** Every row starts inside the body and keeps its item's fields. */
  lemma {:induction false} RowsInBody(items: seq<Item>, start: nat)
    requires AllFit(items)
    ensures forall i | 0 <= i < |items| :: start <= RowsFrom(items, start)[i].entry.offset <= start + |Body(items)|
    ensures forall i | 0 <= i < |items| ::
              RowsFrom(items, start)[i] == RowOf(items[i], RowsFrom(items, start)[i].entry.offset)
  {
    if items != [] {
      RowsInBody(items[1..], start + |items[0].payload|);
    }
  }

  // ---------------------------------------------------------------- files

  /** What a deflated entry reads back as: a stream as long as its content is taken for stored. */
  function Inflatable(lib: Library, data: seq<byte>): seq<byte> {
    if |lib.deflate(data)| == |data| then lib.deflate(data) else data
  }

  /** How an archive shows a file: its name, its type byte, and what reading it returns. */
  datatype Shown = Shown(name: seq<byte>, kind: byte, content: Result<seq<byte>>)

  /** Which entries an archive lists, and how. */
  type Listing = Spec -> Option<Shown>

  /** A listed file that is the file of `spec`: its name, type and size, and what reading it returns. */
  ghost predicate Matches(lib: Library, image: seq<byte>, keys: ArchiveKeys, file: File, spec: Spec, shown: Shown) {
    && file.name == shown.name
    && file.entry.kind == shown.kind
    && file.entry.realSize == |spec.data|
    && EntryRead(lib, image, keys, file) == shown.content
  }

  ghost predicate AllMatch(lib: Library, image: seq<byte>, keys: ArchiveKeys, files: seq<File>, listing: Listing,
      specs: seq<Spec>) {
    hide Matches;
    |files| == |specs| &&
    forall i | 0 <= i < |specs| ::
      listing(specs[i]).Some? && Matches(lib, image, keys, files[i], specs[i], listing(specs[i]).value)
  }

  /** Specs that are files, in order. */
  function Filtered(listing: Listing, specs: seq<Spec>): seq<Spec> {
    if specs == [] then [] else (if listing(specs[0]).Some? then [specs[0]] else []) + Filtered(listing, specs[1..])
  }

  lemma MatchOneMore(lib: Library, image: seq<byte>, keys: ArchiveKeys, listing: Listing, files: seq<File>,
                     specs: seq<Spec>,
                     file: seq<File>, spec: seq<Spec>)
    requires AllMatch(lib, image, keys, files, listing, specs) && AllMatch(lib, image, keys, file, listing, spec)
    ensures AllMatch(lib, image, keys, file + files, listing, spec + specs)
  {
    hide Matches;
  }

  // ---------------------------------------------------------------- modern archives

  /** Whether a modern archive lists an entry: protected, a file by its flags, or stored content under type 0. */
  function ModernListing(lib: Library): Listing {
    (spec: Spec) =>
      match spec
      case Plain(name, data, flags, stored) =>
        var content := Ok(if stored then data else Inflatable(lib, data));
        if |data| > MAX_OUTPUT_SIZE then None
        else if HasBit(flags, FILE) then Some(Shown(name, flags, content))
        else if flags == 0 && |data| > 0 && |ModernPacked(lib, spec)| == |data| then Some(Shown(name, FILE, content))
        else None
      case Locked(name, data, _) => Some(Shown(name, PROTECTED, Ok(data)))
  }

  ghost predicate KeyKnown(keys: ArchiveKeys, spec: Spec) {
    spec.Locked? ==>
      spec.choice.keyId == 0 ||
      (spec.choice.keyId in keys && keys[spec.choice.keyId] == spec.choice.material)
  }

  lemma Bits(flags: byte)
    ensures !HasBit(FILE, ENCRYPT_MIXED) && !HasBit(FILE, ENCRYPT_HEADER) && !HasBit(FILE, PROTECTED) &&
            HasBit(FILE, FILE)
    ensures !HasBit(0, ENCRYPT_MIXED) && !HasBit(0, ENCRYPT_HEADER) && !HasBit(0, PROTECTED) && !HasBit(0, FILE)
    ensures HasBit(PROTECTED, PROTECTED)
  {
  }

  lemma ModernItemFits(lib: Library, spec: Spec)
    requires Writable(lib, spec)
    ensures ItemFits(ModernItem(lib, spec)) && |ModernItem(lib, spec).payload| == ModernItem(lib, spec).aligned
  {
    hide Encrypted, HasBit;
  }

  /** The body of `item` stands at `start` in the archive. */
  predicate StandsAt(image: seq<byte>, start: nat, payload: seq<byte>) {
    HEADER_SIZE + start + |payload| <= |image| && image[HEADER_SIZE + start..HEADER_SIZE + start + |payload|] == payload
  }

  lemma PlainItemRead(lib: Library, image: seq<byte>, keys: ArchiveKeys, spec: Spec, start: nat)
    requires lib.ZlibLaw() && Writable(lib, spec) && spec.Plain? && ModernListing(lib)(spec).Some?
    requires StandsAt(image, start, ModernItem(lib, spec).payload)
    ensures ItemFits(ModernItem(lib, spec))
    ensures var row := RowOf(ModernItem(lib, spec), start);
            Matches(lib, image, keys, FileOf(lib, row.(entry := StoredAsFile(row.entry))), spec,
                    ModernListing(lib)(spec).value)
  {
    hide HasBit, Encrypted, OrdinaryRead, RoundUp, NulFree;
    ModernItemFits(lib, spec);
    Bits(spec.flags);
    var item, packed := ModernItem(lib, spec), ModernPacked(lib, spec);
    var entry := StoredAsFile(RowOf(item, start).entry);
    assert !IsProtected(entry);
    var n := item.aligned - |packed|;
    OrdinaryRoundTrip(lib, entry, spec.flags, spec.data, packed, n);
    if item.aligned == 0 {
      assert packed == [] && packed != lib.deflate(spec.data);
    }
  }

  lemma LockedPayloadDecodes(lib: Library, keys: ArchiveKeys, spec: Spec)
    requires lib.ZlibLaw() && lib.AesLaw() && lib.Lz4Law() && Writable(lib, spec) && spec.Locked? &&
             KeyKnown(keys, spec)
    ensures ProtectedEntry.EntryDecoded(lib, LockedPayload(lib, spec), lib.xxh128(spec.name),
                                        lib.xxh128Seeded(spec.name, |spec.data|), |spec.data|, keys) == Ok(spec.data)
  {
    hide HasBit, ProtectedEntry.EntryBody, ProtectedEntry.EntryBytes, ProtectedEntry.EntryDecoded,
      ProtectedEntry.Packed, NulFree, ProtectedEntry.ValidChoice;
    assert spec.choice.cipher < 65536 by { CipherFits(spec.choice); }
    ProtectedEntry.EntryRoundTrip(lib, spec.choice, lib.xxh128(spec.name), lib.xxh128Seeded(spec.name, |spec.data|),
        spec.data, keys);
  }

  lemma CipherFits(choice: ProtectedEntry.Choice)
    requires ProtectedEntry.ValidChoice(choice)
    ensures choice.cipher < 65536
  {
  }

  lemma LockedItemRead(lib: Library, image: seq<byte>, keys: ArchiveKeys, spec: Spec, start: nat)
    requires lib.ZlibLaw() && lib.AesLaw() && lib.Lz4Law() && Writable(lib, spec) && spec.Locked? &&
             KeyKnown(keys, spec)
    requires StandsAt(image, start, ModernItem(lib, spec).payload)
    ensures ItemFits(ModernItem(lib, spec))
    ensures var row := RowOf(ModernItem(lib, spec), start);
            Matches(lib, image, keys, FileOf(lib, row.(entry := StoredAsFile(row.entry))), spec,
                    ModernListing(lib)(spec).value)
  {
    hide HasBit, LockedPayload, ProtectedEntry.EntryDecoded, ProtectedEntry.Packed, NulFree, ProtectedEntry.ValidChoice,
      OrdinaryRead, PlainItem, ModernPacked, KeyKnown;
    ModernItemFits(lib, spec);
    Bits(PROTECTED);
    LockedPayloadDecodes(lib, keys, spec);
    var payload := LockedPayload(lib, spec);
    assert payload[..|payload|] == payload;
    var file := FileOf(lib, RowOf(ModernItem(lib, spec), start));
    assert ProtectedRead(lib, keys, file, payload) == Ok(spec.data);
  }

  /** An entry of a modern archive is listed exactly when it is a file. */
  lemma ModernItemListed(lib: Library, spec: Spec, start: nat)
    requires Writable(lib, spec)
    ensures ItemFits(ModernItem(lib, spec))
    ensures IsListed(StoredAsFile(RowOf(ModernItem(lib, spec), start).entry)) == ModernListing(lib)(spec).Some?
  {
    hide HasBit, LockedPayload, ProtectedEntry.Packed, NulFree, ProtectedEntry.ValidChoice, Encrypted, RoundUp;
    ModernItemFits(lib, spec);
    Bits(PROTECTED);
  }

  ghost predicate AllWritable(lib: Library, keys: ArchiveKeys, specs: seq<Spec>) {
    forall i | 0 <= i < |specs| :: Writable(lib, specs[i]) && KeyKnown(keys, specs[i])
  }

  ghost function ModernItems(lib: Library, specs: seq<Spec>): (items: seq<Item>)
    ensures |items| == |specs|
  {
    seq(|specs|, i requires 0 <= i < |specs| => ModernItem(lib, specs[i]))
  }

  lemma ModernItemsFit(lib: Library, keys: ArchiveKeys, specs: seq<Spec>)
    requires AllWritable(lib, keys, specs)
    ensures AllFit(ModernItems(lib, specs))
  {
    hide ModernItem, Writable, ItemFits, KeyKnown;
    forall i | 0 <= i < |specs|
      ensures ItemFits(ModernItems(lib, specs)[i])
    {
      ModernItemFits(lib, specs[i]);
    }
  }

  lemma BodyStands(image: seq<byte>, start: nat, first: seq<byte>, rest: seq<byte>)
    requires StandsAt(image, start, first + rest)
    ensures StandsAt(image, start, first) && StandsAt(image, start + |first|, rest)
  {
    var at := HEADER_SIZE + start;
    var whole := image[at..at + |first + rest|];
    assert image[at..at + |first|] == whole[..|first|];
    assert image[at + |first|..at + |first| + |rest|] == whole[|first|..];
  }

  /** Every item's payload stands where its row points. */
  lemma {:induction false} PayloadsStand(image: seq<byte>, items: seq<Item>, start: nat)
    requires AllFit(items) && StandsAt(image, start, Body(items))
    ensures forall i | 0 <= i < |items| :: StandsAt(image, RowsFrom(items, start)[i].entry.offset, items[i].payload)
    decreases |items|
  {
    hide StandsAt, ItemFits;
    if items != [] {
      BodyStands(image, start, items[0].payload, Body(items[1..]));
      PayloadsStand(image, items[1..], start + |items[0].payload|);
    }
  }

  /** A row that is listed exactly when its spec is a file, and then is that file. */
  ghost predicate ReadsAs(lib: Library, image: seq<byte>, keys: ArchiveKeys, listing: Listing, row: Named, spec: Spec) {
    hide Matches;
    && IsListed(row.entry) == listing(spec).Some?
    && (listing(spec).Some? ==> Matches(lib, image, keys, FileOf(lib, row), spec, listing(spec).value))
  }

  /** The listed files are those of the specs, in order, and each reads back. */
  lemma {:induction false} FilesRead(lib: Library, image: seq<byte>, keys: ArchiveKeys, listing: Listing,
      rows: seq<Named>, specs: seq<Spec>)
    requires |rows| == |specs| && forall i | 0 <= i < |rows| :: ReadsAs(lib, image, keys, listing, rows[i], specs[i])
    ensures AllMatch(lib, image, keys, Listed(lib, rows), listing, Filtered(listing, specs))
    decreases |rows|
  {
    hide Matches, IsListed, FileOf;
    if rows != [] {
      assert ReadsAs(lib, image, keys, listing, rows[0], specs[0]);
      FilesRead(lib, image, keys, listing, rows[1..], specs[1..]);
      MatchOneMore(lib, image, keys, listing, Listed(lib, rows[1..]), Filtered(listing, specs[1..]),
        if IsListed(rows[0].entry) then [FileOf(lib, rows[0])] else [],
        if listing(specs[0]).Some? then [specs[0]] else []);
    }
  }

  lemma ModernFilesRead(lib: Library, image: seq<byte>, keys: ArchiveKeys, specs: seq<Spec>)
    requires lib.ZlibLaw() && lib.AesLaw() && lib.Lz4Law() && AllWritable(lib, keys, specs)
    requires StandsAt(image, 0, Body(ModernItems(lib, specs)))
    ensures AllFit(ModernItems(lib, specs))
    ensures AllMatch(lib, image, keys, Listed(lib, StoredRows(RowsFrom(ModernItems(lib, specs), 0))),
                     ModernListing(lib),
                     Filtered(ModernListing(lib), specs))
  {
    hide ModernItem, Writable, KeyKnown, ModernListing, Matches, StoredAsFile, FileOf, IsListed, StandsAt, Listed,
        Filtered, RowsFrom, Body, ReadsAs;
    ModernItemsFit(lib, keys, specs);
    var items := ModernItems(lib, specs);
    var rows := RowsFrom(items, 0);
    PayloadsStand(image, items, 0);
    RowsInBody(items, 0);
    forall i | 0 <= i < |specs|
      ensures ReadsAs(lib, image, keys, ModernListing(lib), StoredRows(rows)[i], specs[i])
    {
      ModernFileRead(lib, image, keys, specs[i], rows[i].entry.offset);
    }
    FilesRead(lib, image, keys, ModernListing(lib), StoredRows(rows), specs);
  }

  lemma ModernFileRead(lib: Library, image: seq<byte>, keys: ArchiveKeys, spec: Spec, start: nat)
    requires lib.ZlibLaw() && lib.AesLaw() && lib.Lz4Law() && Writable(lib, spec) && KeyKnown(keys, spec)
    requires StandsAt(image, start, ModernItem(lib, spec).payload)
    ensures ItemFits(ModernItem(lib, spec))
    ensures var row := RowOf(ModernItem(lib, spec), start);
            ReadsAs(lib, image, keys, ModernListing(lib), row.(entry := StoredAsFile(row.entry)), spec)
  {
    hide ModernItem, Writable, ItemFits, KeyKnown, ModernListing, Matches, StoredAsFile, FileOf, IsListed, StandsAt;
    ModernItemListed(lib, spec, start);
    if ModernListing(lib)(spec).Some? {
      if spec.Plain? {
        PlainItemRead(lib, image, keys, spec, start);
      } else {
        LockedItemRead(lib, image, keys, spec, start);
      }
    }
  }
}
