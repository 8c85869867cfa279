/**
 Where the archive formats keep their fields, byte by byte, and the constants around them: what a reader makes of any
 header or row, said without the writers (src/grf.rs).
 */
module FormatLayout {
  import opened Bytes
  import opened Library
  import opened GrfTable
  import opened GrfLegacy
  import opened GrfHeader
  import opened GrfArchive
  import opened Protected
  import ProtectedEntry
  import Des

  // ---------------------------------------------------------------- headers

  /** `s` starts with the letters of `text`. */
  predicate StartsWith(s: seq<byte>, text: string) {
    |s| >= |text| && forall i | 0 <= i < |text| :: Value(s[i]) == text[i] as nat
  }

  lemma SignatureLetters(s: seq<byte>)
    requires |s| >= 15
    ensures SignatureOf(s) == MASTER <==> StartsWith(s, "Master of Magic")
    ensures SignatureOf(s) == EVENT <==> StartsWith(s, "Event Horizon") && s[13] == 0
  {
    hide Value, MASTER, EVENT;
    MasterLetters();
    EventLetters();
    var n := NameLength(s[..15]);
    if StartsWith(s, "Master of Magic") {
      forall i | 0 <= i < 15
        ensures s[i] == MASTER[i]
      {
        ValueInjective(s[i], MASTER[i]);
      }
      assert s[..15] == MASTER;
    }
    if StartsWith(s, "Event Horizon") && s[13] == 0 {
      forall i | 0 <= i < 13
        ensures s[i] == EVENT[i]
      {
        ValueInjective(s[i], EVENT[i]);
      }
      assert s[..13] == EVENT;
      assert s[..15][13] == 0;
    }
  }

  lemma MasterLetters()
    ensures |MASTER| == 15 && StartsWith(MASTER, "Master of Magic") && NulFree(MASTER)
  {
  }

  lemma EventLetters()
    ensures |EVENT| == 13 && StartsWith(EVENT, "Event Horizon") && NulFree(EVENT)
  {
  }

  /**
   The header of any archive: offset at 30, seed at 34, count at 38 and version at 42, all little-endian. A 0x300 header
   has a 64-bit offset and no seed, unless its second word is too large for one; then it is read as 0x200.
   */
  lemma HeaderLayout(s: seq<byte>)
    requires |s| >= 46
    ensures var version, seed, count := Number(s[42..46]), Number(s[34..38]), Number(s[38..42]);
            var narrow := Header(if version == 0x300 then 0x200 else version, Number(s[30..34]) + 46,
                                 if count < seed + 7 then 0 else count - seed - 7);
            ParseHeader(s) ==
            if !StartsWith(s, "Master of Magic") && !(StartsWith(s, "Event Horizon") && s[13] == 0) then
              Err(BadSignature)
            else if 0x100 <= version < 0x200 || version == 0x200 || (version == 0x300 && seed >= 0x100) then Ok(narrow)
            else if version == 0x300 then Ok(Header(0x300, Number(s[30..38]) + 46, count))
            else Err(UnsupportedVersion)
  {
    hide Number, Word, SignatureOf, MASTER, EVENT, StartsWith;
    SignatureLetters(s);
    WordIsNumber(s, 30);
    WordIsNumber(s, 34);
    WordIsNumber(s, 38);
    WordIsNumber(s, 42);
    LongIsNumber(s, 30);
  }

  // ---------------------------------------------------------------- modern rows

  /**
   A 0x200 or 0x300 row wherever it stands: a name up to its NUL, three sizes, the type byte and the offset, which has
   64 bits in a 0x300 table. Type 0 with stored content is a file, whose type is 1.
   */
  lemma ModernRowLayout(s: seq<byte>, wide: bool, n: nat)
    requires n < |s| && s[n] == 0 && forall i | 0 <= i < n :: s[i] != 0
    ensures if |s| - n < (if wide then 22 else 18) then ModernRowOf(s, wide).Err?
            else
              var packed, aligned, size := Number(s[n + 1..n + 5]), Number(s[n + 5..n + 9]), Number(s[n + 9..n + 13]);
              var kind := if s[n + 13] == 0 && size > 0 && packed == size then 1 else s[n + 13];
              var end := if wide then n + 22 else n + 18;
              && packed < U32_LIMIT && aligned < U32_LIMIT && size < U32_LIMIT
              && ModernRowOf(s, wide) ==
                 Ok((Named(s[..n], Entry(Number(s[n + 14..end]), packed, aligned, size, kind)), s[end..]))
  {
    hide Number, Word, NameLength;
    NameLengthIs(s, n);
    var fixed := s[n + 1..];
    if |s| - n >= if wide then 22 else 18 {
      WordWithin(s, n + 1, 0);
      WordWithin(s, n + 1, 4);
      WordWithin(s, n + 1, 8);
      WordWithin(s, n + 1, 13);
      if wide {
        LongIsNumber(fixed, 13);
        assert fixed[13..13 + 8] == s[n + 14..n + 22];
      }
      assert fixed[EntrySize(wide)..] == s[if wide then n + 22 else n + 18..];
    }
  }

  lemma WordWithin(s: seq<byte>, from: nat, at: nat)
    requires from + at + 4 <= |s|
    ensures Word(s[from..], at) == Number(s[from + at..from + at + 4])
  {
    hide Number, Word;
    WordIsNumber(s[from..], at);
    assert s[from..][at..at + 4] == s[from + at..from + at + 4];
  }

  /** A table that ends inside a name holds no further row. */
  lemma UnendedName(s: seq<byte>, wide: bool)
    requires NulFree(s)
    ensures ModernRowOf(s, wide).Err?
  {
    hide NameLength;
    NameWithoutNul(s);
  }

  // ---------------------------------------------------------------- 0x1xx rows

  /** What a size field says once its bias is taken off; nothing is below zero. */
  function Unbiased(field: nat, bias: nat): nat {
    if field < bias then 0 else field - bias
  }

  /** The type byte of a 0x1xx row: bit 1 says file, 2 and 4 the mode. */
  function LegacyKind(kind: byte, underflow: bool, full: bool): byte {
    if underflow then kind & 0xfe
    else if kind & 1 == 0 then kind
    else if full then kind | 2
    else kind | 4
  }

  lemma MarkedIs(kind: byte, underflow: bool, name: seq<byte>)
    ensures Marked(kind, underflow, name) == LegacyKind(kind, underflow, IsFullEncrypt(name))
  {
    hide IsFullEncrypt;
  }

  /** The fixed part of a row at `m`, with its biases. */
  lemma LegacyFixedLayout(s: seq<byte>, m: nat, name: seq<byte>, total: u32, padded: u32, size: u32, offset: u32)
    requires m + 17 <= |s| && total == Number(s[m..m + 4]) && padded == Number(s[m + 4..m + 8])
    requires size == Number(s[m + 8..m + 12]) && offset == Number(s[m + 13..m + 17])
    ensures LegacyEntry(s[m..], name) ==
            Entry(offset, Unbiased(total, size + 715), Unbiased(padded, 37579), size,
                  LegacyKind(s[m + 12], total < size + 715 || padded < 37579, IsFullEncrypt(name)))
  {
    hide Number, Word, IsFullEncrypt, Marked, LegacyKind;
    WordWithin(s, m, 0);
    WordWithin(s, m, 4);
    WordWithin(s, m, 8);
    WordWithin(s, m, 13);
    MarkedIs(s[m + 12], total < size + 715 || padded < 37579, name);
  }

  /**
   A 0x1xx row wherever it stands: the length of the name block, two unused bytes, the block, and seventeen fixed bytes
   at `m`. The name's length is taken from the first byte alone. A size that falls below zero costs the row its file
   bit; any other file gets the mode that its name asks for.
   */
  lemma LegacyRowLayout(s: seq<byte>, m: nat, n: nat)
    requires |s| >= 4 && m == 4 + Number(s[..4]) && n == Unbiased(Value(s[0]), 6)
    ensures if |s| < m + 17 || m < 6 + n then LegacyRowOf(s).Err?
            else
              var name := LegacyName(s[6..m], n);
              LegacyRowOf(s) == Ok((Named(name, LegacyEntry(s[m..], name)), s[m + 17..]))
  {
    hide Number, Word, LegacyName, IsFullEncrypt, LegacyEntry;
    WordIsNumber(s, 0);
  }

  /** Every byte of a name block has its halves exchanged. */
  lemma NibblesExchanged(b: byte)
    ensures Value(NibbleSwap(b)) == 16 * (Value(b) % 16) + Value(b) / 16
  {
  }

  /**
   A name block by block: each that starts within the length and is whole has the halves of its bytes exchanged and is
   then transformed; the others stay.
   */
  lemma {:induction false} NameBlock(block: seq<byte>, length: nat, k: nat)
    requires 8 * k + 8 <= |block|
    ensures Des.Block(FilenameDecoded(block, length), k) ==
            if 8 * k < length then Des.Transformed(Swapped(Des.Block(block, k))) else Des.Block(block, k)
  {
    hide Des.Transformed, Swapped, Des.HeaderMode;
    var n := NameBlocks(length, |block|);
    Des.WalkedBlocks(Deobfuscate(), block, n);
    if k < n {
      Des.HeaderModeOfBlock(Swapped(Des.Block(block, k)));
    } else {
      var r := FilenameDecoded(block, length);
      assert Des.Block(r, k) == r[8 * n..][8 * (k - n)..8 * (k - n) + 8];
      assert Des.Block(block, k) == block[8 * n..][8 * (k - n)..8 * (k - n) + 8];
    }
  }

  /** A name ends in the letters of `text`, in either case. */
  predicate EndsIn(name: seq<byte>, text: string) {
    |name| >= |text| &&
    forall i | 0 <= i < |text| :: Value(Lower(name[|name| - |text| + i])) == text[i] as nat
  }

  /** Lower case in numbers. */
  lemma LowerNumbers(b: byte)
    ensures Value(Lower(b)) == if 65 <= Value(b) <= 90 then Value(b) + 32 else Value(b)
  {
  }

  /** The four extensions that ask for header mode. */
  lemma HeaderModeExtensions(name: seq<byte>)
    ensures !IsFullEncrypt(name) <==>
            EndsIn(name, ".gnd") || EndsIn(name, ".gat") || EndsIn(name, ".act") || EndsIn(name, ".str")
  {
    hide IsFullEncrypt, Lower, HEADER_ONLY;
    ModesAgree(name);
    Endings();
    EndingIs(name, HEADER_ONLY[0], ".gnd");
    EndingIs(name, HEADER_ONLY[1], ".gat");
    EndingIs(name, HEADER_ONLY[2], ".act");
    EndingIs(name, HEADER_ONLY[3], ".str");
    forall c | 0 <= c < 4
      ensures HEADER_ONLY[c] in {HEADER_ONLY[0], HEADER_ONLY[1], HEADER_ONLY[2], HEADER_ONLY[3]}
    {
      FourthAtMost(c);
    }
  }

  lemma FourthAtMost(c: nat)
    requires c < 4
    ensures c == 0 || c == 1 || c == 2 || c == 3
  {
  }

  predicate Spells(s: seq<byte>, text: string) {
    |s| == |text| && forall i | 0 <= i < |text| :: Value(s[i]) == text[i] as nat
  }

  lemma Endings()
    ensures |HEADER_ONLY| == 4
    ensures Spells(HEADER_ONLY[0], ".gnd") && Spells(HEADER_ONLY[1], ".gat")
    ensures Spells(HEADER_ONLY[2], ".act") && Spells(HEADER_ONLY[3], ".str")
  {
  }

  lemma EndingIs(name: seq<byte>, ending: seq<byte>, text: string)
    requires Spells(ending, text)
    ensures EndsWith(Lowered(name), ending) <==> EndsIn(name, text)
  {
    hide Lower, Value;
    var n := |name| - |text|;
    if n >= 0 {
      var s := Lowered(name)[n..];
      assert forall i | 0 <= i < |text| :: s[i] == Lower(name[n + i]);
      if EndsIn(name, text) {
        forall i | 0 <= i < |text|
          ensures s[i] == ending[i]
        {
          ValueInjective(s[i], ending[i]);
        }
      }
    }
  }

  // ---------------------------------------------------------------- archives

  /** A file, or a protected entry, of at most 256 MiB. */
  lemma ListedKinds(entry: Entry)
    ensures IsListed(entry) <==> entry.realSize <= 268_435_456 && (entry.kind & 0x01 != 0 || entry.kind & 0x80 != 0)
  {
  }

  /** What any accepted 0x1xx archive is: a table in the clear, from the offset in its header to its end. */
  lemma LegacyImageLayout(lib: Library, image: seq<byte>, h: Header)
    requires |image| >= 46 && ParseHeader(image[..46]) == Ok(h) && 0x100 <= h.version < 0x200
    ensures var r := Opened(lib, image);
            r.Ok? ==>
              && h.fileCount <= 500_000 && 0 < |image| - h.tableOffset <= 536_870_912
              && var rows := Rows(LegacyRow(), image[h.tableOffset..], h.fileCount);
                 rows.Ok? && r.value == Archive(h.version, Listed(lib, rows.value), map[])
  {
    hide ParseHeader, Rows, Listed, LegacyRow;
    assert image[0..0 + HEADER_SIZE] == image[..46];
  }

  /** Where the table of a 0x200 or 0x300 archive starts: a 0x300 header points at the length of the key block. */
  function TableAt(h: Header): nat {
    if h.version == 0x300 then h.tableOffset + 4 else h.tableOffset
  }

  /**
   What any accepted 0x200 or 0x300 archive is: two sizes, a deflated table of just those sizes, and in a 0x300 archive
   the key block right behind it, whose length stands in front of the sizes.
   */
  lemma ModernImageLayout(lib: Library, image: seq<byte>, h: Header, packed: nat, size: nat)
    requires |image| >= 46 && ParseHeader(image[..46]) == Ok(h) && (h.version == 0x200 || h.version == 0x300)
    requires TableAt(h) + 8 <= |image| && packed == Number(image[TableAt(h)..TableAt(h) + 4])
    requires size == Number(image[TableAt(h) + 4..TableAt(h) + 8])
    ensures var r, start, end := Opened(lib, image), TableAt(h) + 8, TableAt(h) + 8 + packed;
            r.Ok? ==>
              && h.fileCount <= 500_000 && 0 < packed && 0 < size <= 536_870_912 && end <= |image|
              && var table := lib.inflate(image[start..end], size + 1);
                 && table.Inflated? && table.ended && |table.output| == size
                 && var rows := Rows(ModernRow(h.version == 0x300), table.output, h.fileCount);
                    && rows.Ok? && r.value.version == h.version && r.value.files == Listed(lib, rows.value)
  {
    hide ParseHeader, Rows, Listed, ModernRow, Number, Word, KeysAt, KeyBlockLength;
    assert image[0..0 + HEADER_SIZE] == image[..46];
    var at := TableAt(h);
    SizesAt(image, at);
    TableAtIs(lib, image, h);
  }

  lemma SizesAt(image: seq<byte>, at: nat)
    requires at + 8 <= |image|
    ensures var sizes := image[at..at + 8];
            Word(sizes, 0) == Number(image[at..at + 4]) && Word(sizes, 4) == Number(image[at + 4..at + 8])
  {
    hide Word, Number;
    var sizes := image[at..at + 8];
    WordIsNumber(sizes, 0);
    WordIsNumber(sizes, 4);
    assert sizes[0..0 + 4] == image[at..at + 4] && sizes[4..4 + 4] == image[at + 4..at + 8];
  }

  lemma TableAtIs(lib: Library, image: seq<byte>, h: Header)
    requires h.version == 0x200 || h.version == 0x300
    ensures h.tableOffset + Skip(h.version) == TableAt(h)
  {
  }

  /** The key block of an accepted archive: none before 0x300, and none of length zero. */
  lemma KeyBlockLayout(lib: Library, image: seq<byte>, h: Header, packed: nat, length: nat)
    requires |image| >= 46 && ParseHeader(image[..46]) == Ok(h) && h.version == 0x300
    requires TableAt(h) + 8 <= |image| && packed == Number(image[TableAt(h)..TableAt(h) + 4])
    requires length == Number(image[h.tableOffset..h.tableOffset + 4])
    ensures var r, end := Opened(lib, image), TableAt(h) + 8 + packed;
            r.Ok? ==>
              && length <= 4_194_260
              && (length == 0 ==> r.value.keys == map[])
              && (length > 0 ==> end + length <= |image| &&
                                 ArchiveKeysDecoded(lib, image[end..end + length]) == Ok(r.value.keys))
  {
    hide ParseHeader, Rows, Listed, ModernRow, Number, Word, InflateExact, ArchiveKeysDecoded;
    assert image[0..0 + HEADER_SIZE] == image[..46];
    SizesAt(image, TableAt(h));
    var s := image[h.tableOffset..h.tableOffset + 4];
    WordIsNumber(s, 0);
    assert s[0..0 + 4] == s;
  }

  /**
   Reading an ordinary entry: the payload stands 46 bytes behind the offset, type bit 2 asks for mixed mode and bit 4
   for header mode, equal sizes mean stored content, and anything else is inflated to just the declared size.
   */
  lemma OrdinaryLayout(lib: Library, image: seq<byte>, keys: ArchiveKeys, file: File)
    requires var e := file.entry;
             && e.kind & 0x80 == 0 && 0 < e.lengthAligned && e.realSize <= 268_435_456
             && e.offset + 46 + e.lengthAligned <= |image|
    ensures var e := file.entry;
            var payload := image[e.offset + 46..e.offset + 46 + e.lengthAligned];
            var data := if e.kind & 0x02 != 0 then Des.Mixed(Des.Decode, payload, |payload|, e.compressedSize)
                        else if e.kind & 0x04 != 0 then Des.HeaderMode(payload, |payload|)
                        else payload;
            EntryRead(lib, image, keys, file) ==
            if e.realSize == e.compressedSize then Ok(if e.realSize <= |data| then data[..e.realSize] else data)
            else InflateExact(lib, data, e.realSize)
  {
    hide Des.Mixed, Des.HeaderMode, InflateExact;
  }

  /** A protected entry has type 0x80 and no other bit, and its declared body of at most 258 MiB is all that is read. */
  lemma ProtectedLayout(lib: Library, image: seq<byte>, keys: ArchiveKeys, file: File)
    requires file.entry.kind & 0x80 != 0 && EntryRead(lib, image, keys, file).Ok?
    ensures var e := file.entry;
            && e.kind == 0x80 && e.compressedSize <= e.lengthAligned && e.compressedSize <= 270_532_608
            && e.offset + 46 + e.lengthAligned <= |image|
            && EntryRead(lib, image, keys, file) ==
               ProtectedEntry.EntryDecoded(lib, image[e.offset + 46..e.offset + 46 + e.compressedSize], file.nameHash,
                                           file.seededHash, e.realSize, keys)
  {
    hide ProtectedEntry.EntryDecoded;
    var e := file.entry;
    if e.offset + HEADER_SIZE + e.lengthAligned <= |image| && e.compressedSize <= e.lengthAligned {
      var payload := image[e.offset + HEADER_SIZE..e.offset + HEADER_SIZE + e.lengthAligned];
      assert payload[..e.compressedSize] == image[e.offset + 46..e.offset + 46 + e.compressedSize];
    }
  }
}
