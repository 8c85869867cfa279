/**
 From archive bytes to served bytes: clients over archives that were opened (src/client.rs, src/grf.rs, src/index.rs).
 */
module Serving {
  import opened Bytes
  import opened Library
  import opened GrfArchive
  import opened GrfWriter
  import opened GrfLegacy
  import opened GrfRoundTrip
  import opened AssetIndex
  import opened Client
  import opened Precedence

  /** How each archive's names are decoded, by the archive's number. */
  type Decoding = (nat, seq<byte>) -> string

  function NamedFiles(decode: Decoding, archives: seq<Archive>): (r: seq<seq<(string, File)>>)
    ensures |r| == |archives|
  {
    seq(|archives|, g requires 0 <= g < |archives| => NamesOf(decode, g, archives[g].files))
  }

  function NamesOf(decode: Decoding, g: nat, files: seq<File>): (r: seq<(string, File)>)
    ensures |r| == |files|
  {
    seq(|files|, i requires 0 <= i < |files| => (decode(g, files[i].name), files[i]))
  }

  function Readable(r: Result<seq<byte>>): Option<seq<byte>> {
    if r.Ok? then Some(r.value) else None
  }

  /** A client over opened archives: its index is the overlay of their files, and it reads an entry from its archive. */
  ghost predicate IsOver(w: World<File>, lib: Library, decode: Decoding, images: seq<seq<byte>>,
                         archives: seq<Archive>) {
    && |images| == |archives| && (forall g | 0 <= g < |images| :: Opened(lib, images[g]) == Ok(archives[g]))
    && w.index.files == Flat(NamedFiles(decode, archives)) && IsOverlay(w.spelling, w.index)
    && forall f: IndexedFile<File> | f.grf < |archives| ::
         w.entryBytes(f) == Readable(EntryRead(lib, images[f.grf], archives[f.grf].keys, f.entry))
  }

  // ---------------------------------------------------------------- places in the index

  /** Where the files of archive `g` start in the index. */
  function StartOf<E>(grfs: seq<seq<(string, E)>>, g: nat): nat
    requires g <= |grfs|
  {
    |Flat(grfs[..g])|
  }

  lemma {:induction false} FlatAt<E>(grfs: seq<seq<(string, E)>>, g: nat, i: nat)
    requires g < |grfs| && i < |grfs[g]|
    ensures var slot := StartOf(grfs, g) + i;
            slot < |Flat(grfs)| && Flat(grfs)[slot] == IndexedFile(g, grfs[g][i].0, grfs[g][i].1)
    decreases |grfs|
  {
    var n := |grfs| - 1;
    if g < n {
      assert grfs[..n][..g] == grfs[..g];
      FlatAt(grfs[..n], g, i);
    }
  }

  /** The client's file for file `i` of archive `g`. */
  function SlotOf(decode: Decoding, archives: seq<Archive>, g: nat, i: nat): nat
    requires g < |archives|
  {
    StartOf(NamedFiles(decode, archives), g) + i
  }

  lemma FileAt(w: World<File>, lib: Library, decode: Decoding, images: seq<seq<byte>>, archives: seq<Archive>, g: nat,
               i: nat)
    requires IsOver(w, lib, decode, images, archives) && g < |archives| && i < |archives[g].files|
    ensures var slot, file := SlotOf(decode, archives, g, i), archives[g].files[i];
            && slot < |w.index.files| && w.index.files[slot] == IndexedFile(g, decode(g, file.name), file)
            && w.entryBytes(w.index.files[slot]) == Readable(EntryRead(lib, images[g], archives[g].keys, file))
  {
    hide IsOverlay, Opened, EntryRead;
    FlatAt(NamedFiles(decode, archives), g, i);
  }

  // ---------------------------------------------------------------- served bytes

  /** What a client over opened archives serves under a spelling of a file is what reading its entry gives. */
  lemma ArchivedFileIsServed(w: World<File>, lib: Library, decode: Decoding, images: seq<seq<byte>>,
                             archives: seq<Archive>, g: nat, i: nat, path: string)
    requires IsOver(w, lib, decode, images, archives) && g < |archives| && i < |archives[g].files|
    requires OnlyArchived(w, path) && Names(w, path, SlotOf(decode, archives, g, i))
    ensures w.Valid()
    ensures Uncached(w, path, true) ==
            match EntryRead(lib, images[g], archives[g].keys, archives[g].files[i])
            case Err(_) => None
            case Ok(content) => Some((content, Grf(g)))
  {
    hide IsOver, EntryRead, AnswersTo, SlotOf, Client.ClientFile, LookIn, IsOverlay;
    var slot := SlotOf(decode, archives, g, i);
    OverIsOverlay(w, lib, decode, images, archives);
    FileAt(w, lib, decode, images, archives, g, i);
    SpellingFinds(w.spelling, w.index, slot, path);
    assert Find(w, path) == Some(slot);
  }

  lemma OverIsOverlay(w: World<File>, lib: Library, decode: Decoding, images: seq<seq<byte>>, archives: seq<Archive>)
    requires IsOver(w, lib, decode, images, archives)
    ensures IsOverlay(w.spelling, w.index) && w.Valid()
  {
    hide Opened, EntryRead, Winners, MojibakeWinners, Claims;
  }

  /** An image that is a written 0x102 archive, within the limits of reader and writer. */
  ghost predicate IsWritten(lib: Library, image: seq<byte>, specs: seq<Spec>) {
    && LegacyArchiveFits(lib, specs) && AllLegacy(lib, specs) && image == LegacyArchive(lib, specs)
    && 0 < |specs| <= MAX_ENTRIES && |LegacyTableBytes(LegacyRows(lib, specs))| <= MAX_TABLE_BYTES
  }

  /** The specs of the files a 0x102 archive lists. */
  ghost function FilesOf(lib: Library, specs: seq<Spec>): seq<Spec> {
    Filtered(LegacyListing(lib), specs)
  }

  /** Each file that a written archive opens to reads as its spec says. */
  lemma WrittenFileReads(lib: Library, image: seq<byte>, specs: seq<Spec>, archive: Archive, i: nat)
    requires lib.ZlibLaw() && IsWritten(lib, image, specs) && Opened(lib, image) == Ok(archive)
    requires i < |FilesOf(lib, specs)|
    ensures i < |archive.files| && FilesOf(lib, specs)[i].Plain?
    ensures EntryRead(lib, image, archive.keys, archive.files[i]) == LegacyContent(lib, FilesOf(lib, specs)[i])
  {
    hide Opened, LegacyArchive, EntryRead, AllLegacy, LegacyArchiveFits, LegacyTableBytes, LegacyRows, Filtered,
      LegacyListing;
    LegacyArchiveRoundTrip(lib, specs);
    ListedContent(lib, FilesOf(lib, specs)[i]);
  }

  lemma ListedContent(lib: Library, spec: Spec)
    ensures LegacyListing(lib)(spec).Some? ==>
              spec.Plain? && LegacyListing(lib)(spec).value.content == LegacyContent(lib, spec)
  {
    hide LegacyContent;
  }

  lemma RecoveredContent(lib: Library, spec: Spec)
    requires lib.ZlibLaw() && spec.Plain? && PayloadSurvives(lib, spec) && |lib.deflate(spec.data)| != |spec.data|
    ensures LegacyContent(lib, spec) == Ok(spec.data)
  {
    hide LegacyContent, PayloadSurvives;
    LegacyContentSurvives(lib, spec);
  }

  /**
   End to end. A client over a written 0x102 archive, among any others, serves each of its files under every path that
   spells that file and no earlier one, with the bytes the file was written from wherever its payload survives.
   */
  lemma WrittenFileIsServed(w: World<File>, lib: Library, decode: Decoding, images: seq<seq<byte>>,
                            archives: seq<Archive>, g: nat, specs: seq<Spec>, i: nat, path: string)
    requires lib.ZlibLaw() && IsOver(w, lib, decode, images, archives) && g < |archives|
    requires IsWritten(lib, images[g], specs) && i < |FilesOf(lib, specs)|
    requires OnlyArchived(w, path) && Names(w, path, SlotOf(decode, archives, g, i))
    ensures w.Valid() && FilesOf(lib, specs)[i].Plain?
    ensures var spec := FilesOf(lib, specs)[i];
            PayloadSurvives(lib, spec) && |lib.deflate(spec.data)| != |spec.data| ==>
              Uncached(w, path, true) == Some((spec.data, Grf(g)))
  {
    hide IsWritten, FilesOf, EntryRead, OnlyArchived, Names, PayloadSurvives, SlotOf, Uncached, IsOverlay;
    WrittenFileReads(lib, images[g], specs, archives[g], i);
    ArchivedFileIsServed(w, lib, decode, images, archives, g, i, path);
    var spec := FilesOf(lib, specs)[i];
    if PayloadSurvives(lib, spec) && |lib.deflate(spec.data)| != |spec.data| {
      RecoveredContent(lib, spec);
    }
  }

  // ---------------------------------------------------------------- 0x200 and 0x300

  /** An image that is a written 0x200 or 0x300 archive, within the limits of reader and writer. */
  ghost predicate IsWrittenModern(lib: Library, image: seq<byte>, signature: seq<byte>, wide: bool, specs: seq<Spec>,
                                  keyBlock: seq<byte>) {
    && ModernSpecsFit(lib, signature, wide, specs, keyBlock)
    && KeysOfBlock(lib, keyBlock).Ok? && AllWritable(lib, KeysOfBlock(lib, keyBlock).value, specs)
    && image == ModernArchive(lib, signature, wide, ModernItems(lib, specs), keyBlock)
  }

  /** The specs of the files such an archive lists. */
  ghost function ModernFilesOf(lib: Library, specs: seq<Spec>): seq<Spec> {
    Filtered(ModernListing(lib), specs)
  }

  /** Anything but deflated content whose stream is exactly as long as itself. */
  predicate Recoverable(lib: Library, spec: Spec) {
    spec.Plain? && !spec.stored ==> |lib.deflate(spec.data)| != |spec.data|
  }

  lemma ModernContent(lib: Library, spec: Spec)
    ensures ModernListing(lib)(spec).Some? && Recoverable(lib, spec) ==>
              ModernListing(lib)(spec).value.content == Ok(spec.data)
  {
  }

  lemma WrittenModernFileReads(lib: Library, image: seq<byte>, signature: seq<byte>, wide: bool, specs: seq<Spec>,
                               keyBlock: seq<byte>, archive: Archive, i: nat)
    requires lib.ZlibLaw() && lib.AesLaw() && lib.Lz4Law()
    requires IsWrittenModern(lib, image, signature, wide, specs, keyBlock) && Opened(lib, image) == Ok(archive)
    requires i < |ModernFilesOf(lib, specs)|
    ensures i < |archive.files|
    ensures var spec := ModernFilesOf(lib, specs)[i];
            Recoverable(lib, spec) ==> EntryRead(lib, image, archive.keys, archive.files[i]) == Ok(spec.data)
  {
    hide Opened, ModernArchive, ModernItems, EntryRead, AllWritable, ModernSpecsFit, KeysOfBlock, Filtered,
      ModernListing, Recoverable;
    ModernArchiveRoundTrip(lib, signature, wide, specs, keyBlock, KeysOfBlock(lib, keyBlock).value);
    ModernContent(lib, ModernFilesOf(lib, specs)[i]);
  }

  /** End to end likewise, protected entries included. */
  lemma WrittenModernFileIsServed(w: World<File>, lib: Library, decode: Decoding, images: seq<seq<byte>>,
                                  archives: seq<Archive>, g: nat, signature: seq<byte>, wide: bool,
                                  specs: seq<Spec>, keyBlock: seq<byte>, i: nat, path: string)
    requires lib.ZlibLaw() && lib.AesLaw() && lib.Lz4Law()
    requires IsOver(w, lib, decode, images, archives) && g < |archives|
    requires IsWrittenModern(lib, images[g], signature, wide, specs, keyBlock) && i < |ModernFilesOf(lib, specs)|
    requires OnlyArchived(w, path) && Names(w, path, SlotOf(decode, archives, g, i))
    ensures w.Valid()
    ensures var spec := ModernFilesOf(lib, specs)[i];
            Recoverable(lib, spec) ==> Uncached(w, path, true) == Some((spec.data, Grf(g)))
  {
    hide IsWrittenModern, ModernFilesOf, EntryRead, OnlyArchived, Names, Recoverable, SlotOf, Uncached, IsOverlay;
    WrittenModernFileReads(lib, images[g], signature, wide, specs, keyBlock, archives[g], i);
    ArchivedFileIsServed(w, lib, decode, images, archives, g, i, path);
  }
}
