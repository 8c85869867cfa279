/** A small library that meets every law, and archives written with it that show where a file does not come back. */
module ToyLibrary {
  import opened Bytes
  import opened Library
  import opened Protected
  import opened GrfTable
  import opened GrfLegacy
  import opened GrfHeader
  import opened GrfArchive
  import opened GrfWriter
  import opened GrfRoundTrip
  import opened Misread

  // ---------------------------------------------------------------- the library

  /** One content with a stream as long as itself, and that stream. */
  const SHORT: seq<byte> := [7, 7, 7, 7]
  const SHORT_STREAM: seq<byte> := [2, 2, 2, 2]

  function Strokes(n: nat): (s: seq<byte>)
    ensures |s| == n && forall i | 0 <= i < n :: s[i] == 1
  {
    seq(n, _ => 1)
  }

  /** Any other stream: as many ones as there are bytes, a zero, and the bytes. */
  function Counted(data: seq<byte>): (s: seq<byte>)
    ensures |s| == 2 * |data| + 1
  {
    Strokes(|data|) + [0] + data
  }

  function Deflate(data: seq<byte>): seq<byte> {
    if data == SHORT then SHORT_STREAM else Counted(data)
  }

  /** How many ones a stream starts with. */
  function Ones(s: seq<byte>): (n: nat)
    ensures n <= |s|
    ensures n < |s| ==> s[n] != 1
    ensures forall i | 0 <= i < n :: s[i] == 1
  {
    if s == [] || s[0] != 1 then 0 else 1 + Ones(s[1..])
  }

  function Inflate(s: seq<byte>, capacity: nat): Inflated {
    if |s| >= 4 && s[..4] == SHORT_STREAM then (if capacity > 4 then Inflated(true, SHORT, 4) else Failed)
    else
      var n := Ones(s);
      if 2 * n + 1 <= |s| && s[n] == 0 && capacity > n then Inflated(true, s[n + 1..2 * n + 1], 2 * n + 1) else Failed
  }

  /** What stands where in a stream, whatever follows it. */
  lemma {:induction false} CountedAt(data: seq<byte>, rest: seq<byte>)
    ensures var s, n := Counted(data) + rest, |data|;
            |s| == 2 * n + 1 + |rest| && s[..n] == Strokes(n) && s[n] == 0 && s[n + 1..2 * n + 1] == data
  {
    hide Strokes;
    Middle(Strokes(|data|), [0], data, rest);
  }

  lemma {:induction false} Middle(a: seq<byte>, b: seq<byte>, c: seq<byte>, d: seq<byte>)
    ensures var s, i, j := a + b + c + d, |a|, |a| + |b|;
            s[..i] == a && s[i..j] == b && s[j..j + |c|] == c
  {
  }

  lemma {:induction false} OnesOfCounted(data: seq<byte>, rest: seq<byte>)
    ensures Ones(Counted(data) + rest) == |data|
  {
    hide Ones, Counted, Strokes;
    CountedAt(data, rest);
    var s := Counted(data) + rest;
    assert forall i | 0 <= i < |data| :: s[i] == s[..|data|][i];
    var n := Ones(s);
    assert n <= |data|;
    assert n >= |data|;
  }

  /** A counted stream inflates to its content, whatever follows it. */
  lemma {:induction false} CountedInflates(data: seq<byte>, rest: seq<byte>, capacity: nat)
    requires capacity > |data|
    ensures Inflate(Counted(data) + rest, capacity) == Inflated(true, data, 2 * |data| + 1)
  {
    hide Ones, Counted, Strokes;
    var s := Counted(data) + rest;
    OnesOfCounted(data, rest);
    CountedAt(data, rest);
    assert s[0] != 2 by { assert |data| > 0 ==> s[0] == s[..|data|][0]; }
    assert SHORT_STREAM[0] == 2;
    assert |s| >= 4 ==> s[..4][0] == s[0];
  }

  lemma DeflateInflates(data: seq<byte>, rest: seq<byte>, capacity: nat)
    requires capacity > |data|
    ensures Inflate(Deflate(data) + rest, capacity) == Inflated(true, data, |Deflate(data)|)
  {
    hide Counted, Ones;
    if data == SHORT {
      assert (SHORT_STREAM + rest)[..4] == SHORT_STREAM;
    } else {
      CountedInflates(data, rest, capacity);
    }
  }

  function Toy(): Library {
    Library(_ => (block: Block16) => block, _ => (block: Block16) => block,
            _ => seq(16, _ => 0), (_, _) => seq(16, _ => 0), _ => 0, _ => (seq(16, _ => 0), seq(16, _ => 0)),
            (data: seq<byte>) => Deflate(data), (s: seq<byte>, capacity: nat) => Inflate(s, capacity),
            (data: seq<byte>) => data, (s: seq<byte>, n: nat) => if |s| == n then Some(s) else None)
  }

  lemma ToyStreams(data: seq<byte>, s: seq<byte>, capacity: nat)
    ensures Toy().deflate(data) == Deflate(data) && Toy().inflate(s, capacity) == Inflate(s, capacity)
  {
    hide Deflate, Inflate;
  }

  lemma ToyZlib()
    ensures Toy().ZlibLaw()
  {
    hide Deflate, Inflate, Toy;
    forall data: seq<byte>, padding: seq<byte>, capacity: nat | capacity > |data|
      ensures Toy().inflate(Toy().deflate(data) + padding, capacity) == Inflated(true, data, |Toy().deflate(data)|)
    {
      ToyStreams(data, Deflate(data) + padding, capacity);
      DeflateInflates(data, padding, capacity);
    }
    forall data: seq<byte>
      ensures |Toy().deflate(data)| > 0
    {
      ToyStreams(data, [], 0);
      DeflateNotEmpty(data);
    }
  }

  lemma ToyOthers()
    ensures Toy().AesLaw() && Toy().Lz4Law()
  {
    hide Deflate, Inflate;
  }

  /** The laws assumed of the library functions can hold together. */
  lemma LawsHoldTogether()
    ensures Toy().AesLaw() && Toy().ZlibLaw() && Toy().Lz4Law()
  {
    hide Toy;
    ToyZlib();
    ToyOthers();
  }

  lemma DeflateNotEmpty(data: seq<byte>)
    ensures |Deflate(data)| > 0
  {
  }

  /** Streams are not much more than twice as long as their content. */
  ghost predicate Compact(lib: Library) {
    forall data :: |lib.deflate(data)| <= 2 * |data| + 4
  }

  lemma ToyIsCompact()
    ensures Compact(Toy())
  {
    hide Counted;
    ShortSize();
  }

  lemma ShortSize()
    ensures |SHORT| == 4 && |SHORT_STREAM| == 4
  {
  }

  // ---------------------------------------------------------------- 0x102 archives of one file

  /** `x.gat` */
  const GAT: seq<byte> := [0x78, 0x2e, 0x67, 0x61, 0x74]

  lemma GatBytes()
    ensures |GAT| == 5 && GAT[0] == 0x78 && GAT[1] == 0x2e && GAT[2] == 0x67 && GAT[3] == 0x61 && GAT[4] == 0x74
  {
  }

  /** `.gat` in lower case. */
  lemma SecondEnding()
    ensures |HEADER_ONLY| == 4 && |HEADER_ONLY[1]| == 4
    ensures var e := HEADER_ONLY[1]; e[0] == 0x2e && e[1] == 0x67 && e[2] == 0x61 && e[3] == 0x74
    ensures Lower(0x2e) == 0x2e && Lower(0x67) == 0x67 && Lower(0x61) == 0x61 && Lower(0x74) == 0x74
  {
  }

  lemma HeaderOnlyEnding(name: seq<byte>)
    requires |name| == 5 && name[1] == 0x2e && name[2] == 0x67 && name[3] == 0x61 && name[4] == 0x74
    ensures !FullEncrypt(name)
  {
    hide HEADER_ONLY, Lower;
    SecondEnding();
    var s, e := Lowered(name), HEADER_ONLY[1];
    assert forall i | 0 <= i < 4 :: s[1..][i] == s[1 + i] == e[i];
    assert s[1..] == e;
    assert EndsWith(s, e);
  }

  lemma GatIsHeaderOnly()
    ensures !FullEncrypt(GAT) && NulFree(GAT)
  {
    hide FullEncrypt, GAT;
    GatBytes();
    HeaderOnlyEnding(GAT);
  }

  lemma FlagBits()
    ensures var flags := With(FILE, ENCRYPT_MIXED);
            && HasBit(flags, FILE) && HasBit(flags, ENCRYPT_MIXED) && !HasBit(flags, PROTECTED)
            && HasBit(FILE, FILE) && !HasBit(FILE, ENCRYPT_MIXED) && !HasBit(FILE, PROTECTED)
  {
  }

  /** A file of up to a thousand bytes under a name of a few. */
  predicate Small(spec: Spec) {
    spec.Plain? && |spec.name| < 100 && |spec.data| <= 1000
  }

  lemma SmallLengthsFit(lib: Library, spec: Spec)
    requires Compact(lib) && Small(spec)
    ensures LengthsFit(lib, spec)
    ensures ItemFits(LegacyItem(lib, spec)) && |LegacyItem(lib, spec).payload| < 3000
    ensures LegacyItem(lib, spec).name == spec.name
  {
    hide Encrypted, ModeOf, With, HasBit, FullEncrypt, LegacyItem;
    assert |lib.deflate(spec.data)| <= 2004;
    LegacyItemFits(lib, spec);
    LegacySizes(lib, spec);
  }

  lemma {:induction false} OneBody(items: seq<Item>)
    requires |items| == 1
    ensures Body(items) == items[0].payload
  {
    assert items[1..] == [] && Body(items) == items[0].payload + Body(items[1..]) && Body(items[1..]) == [];
  }

  lemma {:induction false} OnePiece(rows: seq<Named>)
    requires |rows| == 1 && LegacyWritable(rows)
    ensures LegacyTableBytes(rows) == LegacyRowBytes(rows[0])
  {
    hide LegacyRowBytes, LegacyFits;
    var pieces := LegacyPieces(rows);
    assert pieces[1..] == [] && Concat(pieces) == pieces[0] + Concat(pieces[1..]) && Concat(pieces[1..]) == [];
  }

  /** One small file fits a 0x102 archive. */
  lemma OneFileFits(lib: Library, spec: Spec)
    requires Compact(lib) && Small(spec)
    ensures LegacyArchiveFits(lib, [spec]) && |LegacyTableBytes(LegacyRows(lib, [spec]))| <= MAX_TABLE_BYTES
  {
    hide LegacyItem, LegacyRowBytes, LengthsFit, ItemFits, Body, LegacyTableBytes;
    SmallLengthsFit(lib, spec);
    assert AllLengthsFit(lib, [spec]);
    OneBody(LegacyItems(lib, [spec]));
    OneRowFits(lib, spec, LegacyRows(lib, [spec]));
  }

  lemma OneRowFits(lib: Library, spec: Spec, rows: seq<Named>)
    requires |rows| == 1 && LegacyWritable(rows) && rows[0].name == spec.name && Small(spec)
    ensures |LegacyTableBytes(rows)| <= MAX_TABLE_BYTES
  {
    hide LegacyRowBytes, LegacyTableBytes;
    OnePiece(rows);
    RowSize(rows[0]);
  }

  lemma LegacySizes(lib: Library, spec: Spec)
    requires spec.Plain?
    ensures LegacyItem(lib, spec).aligned == RoundUp(|lib.deflate(spec.data)|)
    ensures LegacyItem(lib, spec).name == spec.name
  {
    hide Encrypted, With, ModeOf, HasBit, FullEncrypt;
  }

  lemma RowSize(row: Named)
    requires LegacyFits(row)
    ensures |LegacyRowBytes(row)| == PaddedLength(|row.name|) + 10 + FIXED_SIZE
  {
    hide FilenameEncoded, LegacyFixedBytes;
  }

  /** An archive of one short file opens to that file, which reads as its listing says. */
  lemma OneFileReads(lib: Library, spec: Spec)
    requires lib.ZlibLaw() && Compact(lib) && Small(spec)
    requires HasBit(spec.flags, FILE) && !HasBit(spec.flags, PROTECTED)
    ensures LegacyArchiveFits(lib, [spec])
    ensures var image := LegacyArchive(lib, [spec]);
            var r := Opened(lib, image);
            r.Ok? && |r.value.files| == 1 &&
                EntryRead(lib, image, map[], r.value.files[0]) == LegacyContent(lib, spec)
  {
    hide Opened, LegacyArchive, LegacyTableBytes, HasBit, FullEncrypt, LegacyContent, EntryRead, LegacyArchiveFits,
      AllLegacy, AllMatch, Filtered, LegacyListing, Library.ZlibLaw, Compact;
    var specs := [spec];
    OneFileFits(lib, spec);
    OneFileKept(lib, spec);
    LegacyArchiveRoundTrip(lib, specs);
    OneFileListed(lib, spec);
    OneFileMatches(lib, LegacyArchive(lib, specs), Opened(lib, LegacyArchive(lib, specs)).value.files, spec);
  }

  lemma OneFileKept(lib: Library, spec: Spec)
    requires spec.Plain? && !HasBit(spec.flags, PROTECTED) && LegacyArchiveFits(lib, [spec])
    ensures AllLegacy(lib, [spec])
  {
    hide HasBit, LengthsFit, Body;
    FitsLengths(lib, spec);
  }

  lemma OneFileListed(lib: Library, spec: Spec)
    requires spec.Plain? && |spec.data| <= 1000 && HasBit(spec.flags, FILE)
    ensures LegacyListing(lib)(spec).Some? && LegacyListing(lib)(spec).value.content == LegacyContent(lib, spec)
    ensures Filtered(LegacyListing(lib), [spec]) == [spec]
  {
    hide HasBit, LegacyContent, With, ModeOf, FullEncrypt;
    assert [spec][1..] == [];
  }

  lemma OneFileMatches(lib: Library, image: seq<byte>, files: seq<File>, spec: Spec)
    requires AllMatch(lib, image, map[], files, LegacyListing(lib), [spec])
    ensures |files| == 1 && LegacyListing(lib)(spec).Some?
    ensures EntryRead(lib, image, map[], files[0]) == LegacyListing(lib)(spec).value.content
  {
    hide EntryRead, LegacyListing;
    assert [spec][0] == spec;
  }

  lemma FitsLengths(lib: Library, spec: Spec)
    requires LegacyArchiveFits(lib, [spec])
    ensures LengthsFit(lib, spec)
  {
    assert LengthsFit(lib, [spec][0]);
  }

  lemma GatAgrees(data: seq<byte>)
    ensures !Disagrees(Plain(GAT, data, FILE, false))
  {
    hide FullEncrypt, HasBit, CutName, GAT;
    GatIsHeaderOnly();
    GatBytes();
    NameSurvives(GAT);
    FlagBits();
  }

  lemma AgreedContent(lib: Library, spec: Spec)
    requires spec.Plain? && !Disagrees(spec)
    ensures LegacyContent(lib, spec) == Ok(Inflatable(lib, spec.data))
  {
    hide Disagrees;
  }

  /** A file whose stream is as long as itself reads back as that stream. */
  lemma ShortFileReadsAsItsStream()
    ensures var spec := Plain(GAT, SHORT, FILE, false);
            && LegacyArchiveFits(Toy(), [spec])
            && var image := LegacyArchive(Toy(), [spec]);
               var r := Opened(Toy(), image);
               && r.Ok? && |r.value.files| == 1
               && EntryRead(Toy(), image, map[], r.value.files[0]) == Ok(SHORT_STREAM) && SHORT_STREAM != SHORT
  {
    hide Opened, LegacyArchive, HasBit, EntryRead, LegacyArchiveFits, LegacyContent, Disagrees, Toy, GAT, Compact,
      Library.ZlibLaw;
    var spec := Plain(GAT, SHORT, FILE, false);
    FlagBits();
    GatBytes();
    ToyIsCompact();
    LawsHoldTogether();
    OneFileReads(Toy(), spec);
    GatAgrees(SHORT);
    AgreedContent(Toy(), spec);
    ShortStream();
  }

  lemma ShortStream()
    ensures |SHORT| == |Toy().deflate(SHORT)| && Toy().deflate(SHORT) == SHORT_STREAM && SHORT_STREAM != SHORT
  {
    assert SHORT_STREAM[0] != SHORT[0];
  }

  // ---------------------------------------------------------------- a file in the wrong mode

  const EMPTY_FILE_SIZE: nat := 83

  function Empties(): seq<byte> {
    seq(EMPTY_FILE_SIZE, _ => 0)
  }

  lemma EmptiesPayload()
    ensures Deflate(Empties()) == Counted(Empties()) && |LegacyPayload(Toy(), Empties())| == 168
    ensures LegacyPayload(Toy(), Empties()) == Counted(Empties()) + [0]
    ensures Des.Block(LegacyPayload(Toy(), Empties()), 20) == EMPTY_BLOCK
  {
    hide Counted, Empties, EMPTY_BLOCK, Strokes, Toy, Deflate, Des.Block, LegacyPayload;
    EmptiesSize();
    ToyDeflates(Empties());
    PaddedPayload(Toy(), Empties());
    CountedAt(Empties(), [0]);
    TwentiethIsEmpty(Counted(Empties()) + [0]);
  }

  lemma PaddedPayload(lib: Library, data: seq<byte>)
    requires |lib.deflate(data)| == 167
    ensures LegacyPayload(lib, data) == lib.deflate(data) + [0]
  {
    hide Zeros;
    OneZero();
  }

  lemma ToyDeflates(data: seq<byte>)
    ensures |data| != 4 ==> Toy().deflate(data) == Deflate(data) == Counted(data)
  {
    hide Counted, SHORT_STREAM;
    ShortSize();
  }

  lemma OneZero()
    ensures Zeros(1) == [0]
  {
  }

  lemma TwentiethIsEmpty(payload: seq<byte>)
    requires |payload| == 168 && payload[84..167] == Empties() && payload[167] == 0
    ensures Des.Block(payload, 20) == EMPTY_BLOCK
  {
    hide Empties;
    EmptiesSize();
    assert forall i | 160 <= i < 167 :: payload[i] == payload[84..167][i - 84];
    EmptyFrom(payload[160..168]);
  }

  lemma EmptyFrom(block: Block8)
    requires forall i | 0 <= i < 8 :: block[i] == 0
    ensures block == EMPTY_BLOCK
  {
  }

  lemma GatDisagrees(data: seq<byte>)
    ensures Disagrees(Plain(GAT, data, With(FILE, ENCRYPT_MIXED), false))
  {
    hide FullEncrypt, HasBit, CutName, GAT, With;
    GatIsHeaderOnly();
    FlagBits();
  }

  /** What reading the empty file in the wrong mode gives. */
  lemma DamagedContent(lib: Library, spec: Spec)
    requires lib == Toy() && spec.Plain? && spec.data == Empties() && Disagrees(spec)
    ensures !PayloadSurvives(lib, spec)
    ensures var r := LegacyContent(lib, spec); r.Ok? && |r.value| == 83 && r.value != Empties()
  {
    hide ReadAsMixed, Inflate, LegacyPayload, Counted, Deflate, Empties, Toy, Disagrees, PayloadSurvives,
      Library.ZlibLaw;
    EmptiesPayload();
    EmptiesSize();
    ToyDeflates(Empties());
    DamagedEmpties();
    LawsHoldTogether();
    LegacyContentSurvives(lib, spec);
    assert ReadAsMixed(LegacyPayload(lib, Empties()), 167)[160] != LegacyPayload(lib, Empties())[160];
  }

  /** Eighty-three empty bytes under a header-only extension, flagged for mixed mode, come back as something else. */
  lemma WrongModeDamages()
    ensures var spec := Plain(GAT, Empties(), With(FILE, ENCRYPT_MIXED), false);
            && LegacyArchiveFits(Toy(), [spec]) && !PayloadSurvives(Toy(), spec)
            && var image := LegacyArchive(Toy(), [spec]);
               var r := Opened(Toy(), image);
               && r.Ok? && |r.value.files| == 1
               && var read := EntryRead(Toy(), image, map[], r.value.files[0]);
                  read.Ok? && |read.value| == 83 && read.value != Empties()
  {
    hide Opened, LegacyArchive, HasBit, EntryRead, LegacyArchiveFits, With, PayloadSurvives, LegacyContent, Disagrees,
      Empties, Toy, GAT, Compact, Library.ZlibLaw;
    var spec := Plain(GAT, Empties(), With(FILE, ENCRYPT_MIXED), false);
    FlagBits();
    GatBytes();
    GatDisagrees(Empties());
    EmptiesSize();
    ToyIsCompact();
    LawsHoldTogether();
    OneFileReads(Toy(), spec);
    DamagedContent(Toy(), spec);
  }

  lemma EmptiesSize()
    ensures |Empties()| == 83 && forall i | 0 <= i < 83 :: Empties()[i] == 0
  {
  }

  /** A buffer that starts as the empty file's stream does is the stream of its own next bytes. */
  lemma StreamOfOther(payload: seq<byte>, damaged: seq<byte>)
    requires payload == Counted(Empties()) + [0] && |damaged| == |payload| == 168 && damaged[..160] == payload[..160]
    ensures damaged == Counted(damaged[84..167]) + [damaged[167]]
  {
    hide Counted, Empties, Strokes;
    EmptiesSize();
    CountedAt(Empties(), [0]);
    var data := damaged[84..167];
    CountedAt(data, [damaged[167]]);
    var other := Counted(data) + [damaged[167]];
    assert damaged[..83] == damaged[..160][..83] == payload[..83] == other[..83];
    assert damaged[83] == damaged[..160][83] == payload[83];
    FourParts(damaged);
    FourParts(other);
  }

  lemma {:induction false} FourParts(s: seq<byte>)
    requires |s| == 168
    ensures s == s[..83] + [s[83]] + s[84..167] + [s[167]]
  {
  }

  /** The payload of the empty file, and what the wrong mode makes of it. */
  lemma DamagedStart()
    ensures var payload := LegacyPayload(Toy(), Empties());
            && payload == Counted(Empties()) + [0] && |payload| == 168 && payload[160] == 0
            && var damaged := ReadAsMixed(payload, 167);
               |damaged| == 168 && damaged[..160] == payload[..160] && damaged[160] != 0
  {
    hide ReadAsMixed, LegacyPayload, Deflate, Counted, Empties, Des.Block, EMPTY_BLOCK, Toy;
    EmptiesPayload();
    var payload := LegacyPayload(Toy(), Empties());
    DamagedPayload(payload, 167);
    BlockStart(payload);
    EmptyStart();
  }

  lemma EmptyStart()
    ensures EMPTY_BLOCK[0] == 0
  {
  }

  /** A buffer that starts as the empty file's stream does, but does not go on like it, inflates to something else. */
  lemma OtherInflates(payload: seq<byte>, damaged: seq<byte>)
    requires payload == Counted(Empties()) + [0] && |damaged| == |payload| == 168 && damaged[..160] == payload[..160]
    requires damaged[160] != 0
    ensures Inflate(damaged, 84) == Inflated(true, damaged[84..167], 167) && damaged[84..167] != Empties()
  {
    hide Inflate, Counted, Empties;
    var data := damaged[84..167];
    StreamOfOther(payload, damaged);
    CountedInflates(data, [damaged[167]], 84);
    EmptiesSize();
    assert data[76] == damaged[160];
  }

  lemma ToyInflates(s: seq<byte>, size: nat)
    requires var r := Inflate(s, size + 1); r.Inflated? && r.ended && |r.output| == size
    ensures InflateExact(Toy(), s, size) == Ok(Inflate(s, size + 1).output)
  {
    hide Inflate;
  }

  /** The payload of the empty file in the wrong mode is the stream of another. */
  lemma DamagedEmpties()
    ensures var payload := LegacyPayload(Toy(), Empties());
            && |payload| == 168 && payload[160] == 0 && ReadAsMixed(payload, 167)[160] != 0
            && var r := InflateExact(Toy(), ReadAsMixed(payload, 167), 83);
               r.Ok? && |r.value| == 83 && r.value != Empties()
  {
    hide ReadAsMixed, Inflate, LegacyPayload, Counted, Empties, Toy;
    DamagedStart();
    var payload := LegacyPayload(Toy(), Empties());
    var damaged := ReadAsMixed(payload, 167);
    OtherInflates(payload, damaged);
    ToyInflates(damaged, 83);
  }

  lemma BlockStart(s: seq<byte>)
    requires |s| == 168
    ensures Des.Block(s, 20)[0] == s[160]
  {
  }

  // ---------------------------------------------------------------- a 0x300 archive with a key block

  ghost function ToyRecord(): Record {
    Record(7, seq(60, _ => 0))
  }

  ghost function ToyKeyMap(): ArchiveKeys {
    map[7 := ToyRecord().material]
  }

  ghost function ToyKeyBlock(): seq<byte> {
    FooterBytes(Toy(), seq(8, _ => 0), [ToyRecord()])
  }

  /** A protected entry that names the archive's key. */
  ghost function KeyedSpec(): Spec {
    Spec.Locked(GAT, [1, 2, 3], ProtectedEntry.Choice(1, 128, 0, 0, 7, ToyRecord().material))
  }

  lemma ToyKeys()
    ensures KeysOfBlock(Toy(), ToyKeyBlock()) == Ok(ToyKeyMap()) && |ToyKeyBlock()| == 84
  {
    hide ArchiveKeysDecoded, FooterBytes, RecordBytes, Toy;
    var records := [ToyRecord()];
    KeyBlockRoundTrip(Toy(), seq(8, _ => 0), records);
    FooterSize(Toy(), seq(8, _ => 0), records);
    assert ValidRecords(records);
    assert records[..0] == [];
    assert KeysOf(records) == ToyKeyMap();
  }

  lemma FooterSize(lib: Library, timestamp: seq<byte>, records: seq<Record>)
    requires |timestamp| == 8 && 64 * |records| < U32_LIMIT
    ensures |FooterBytes(lib, timestamp, records)| == 20 + 64 * |records|
  {
    hide RecordsBytes;
  }

  lemma KeyedPayloadSize()
    ensures |LockedPayload(Toy(), KeyedSpec())| == 107
  {
    hide ProtectedEntry.HeaderBytes, ProtectedEntry.ParametersOf, Toy;
  }

  lemma KeyedChoice()
    ensures var spec := KeyedSpec();
            && spec.Locked? && spec.name == GAT && |spec.data| == 3 && ProtectedEntry.ValidChoice(spec.choice)
            && spec.choice.keyId == 7 && spec.choice.material == ToyRecord().material
            && |ProtectedEntry.Packed(Toy(), spec.choice.compression, spec.data)| == 3
  {
    hide Toy, GAT, ToyRecord;
  }

  lemma ChosenIsWritable(lib: Library, spec: Spec, keys: ArchiveKeys)
    requires spec.Locked? && NulFree(spec.name) && |spec.data| == 3 && ProtectedEntry.ValidChoice(spec.choice)
    requires |ProtectedEntry.Packed(lib, spec.choice.compression, spec.data)| == 3 && |LockedPayload(lib, spec)| == 107
    requires spec.choice.keyId in keys && keys[spec.choice.keyId] == spec.choice.material
    ensures Writable(lib, spec) && KeyKnown(keys, spec)
  {
    hide LockedPayload, NulFree, ProtectedEntry.Packed, ProtectedEntry.ValidChoice;
  }

  lemma KeyedIsWritable()
    ensures KeyKnown(ToyKeyMap(), KeyedSpec()) && Writable(Toy(), KeyedSpec())
  {
    hide LockedPayload, Toy, KeyedSpec, GAT, NulFree, FullEncrypt, ProtectedEntry.Packed, ProtectedEntry.ValidChoice,
      ToyRecord, Writable, KeyKnown;
    KeyedChoice();
    KeyedPayloadSize();
    GatIsHeaderOnly();
    ChosenIsWritable(Toy(), KeyedSpec(), ToyKeyMap());
  }

  lemma {:induction false} OneRow(items: seq<Item>)
    requires |items| == 1 && AllFit(items) && |items[0].name| < 1000 && NulFree(items[0].name)
    ensures Body(items) == items[0].payload
    ensures var rows := RowsFrom(items, 0);
            ModernWritable(rows, true) && 0 < |ModernTableBytes(rows, true)| < 2000
  {
    hide ModernEntryBytes, NulFree;
    assert items[1..] == [] && Body(items) == items[0].payload + Body(items[1..]) && Body(items[1..]) == [];
    var rows := RowsFrom(items, 0);
    assert rows == [RowOf(items[0], 0)] + RowsFrom(items[1..], |items[0].payload|);
    var pieces := ModernPieces(rows, true);
    assert pieces[1..] == [] && Concat(pieces) == pieces[0] + Concat(pieces[1..]) && Concat(pieces[1..]) == [];
  }

  lemma OneItemFits(lib: Library, signature: seq<byte>, items: seq<Item>, keyBlock: seq<byte>)
    requires Compact(lib) && Signed(signature) && |keyBlock| < 1000
    requires |items| == 1 && AllFit(items) && |items[0].name| < 1000 && NulFree(items[0].name)
    requires |items[0].payload| < 1000
    ensures ModernFits(lib, signature, true, items, keyBlock) && |Body(items)| < 1000
    ensures |ModernTableBytes(RowsFrom(items, 0), true)| < 2000
  {
    hide Signed, RowsFrom, ModernTableBytes, Body, NulFree, ModernWritable, Compact, AllFit;
    OneRow(items);
    CompactStream(lib, ModernTableBytes(RowsFrom(items, 0), true));
  }

  lemma CompactStream(lib: Library, data: seq<byte>)
    requires Compact(lib)
    ensures |lib.deflate(data)| <= 2 * |data| + 4
  {
  }

  lemma OneItem(lib: Library, spec: Spec)
    requires spec.Locked?
    ensures ModernItems(lib, [spec])[0].name == spec.name
    ensures ModernItems(lib, [spec])[0].payload == LockedPayload(lib, spec)
  {
    hide LockedPayload;
    assert ModernItems(lib, [spec])[0] == ModernItem(lib, spec);
  }

  lemma OneFileFitsModern(lib: Library, signature: seq<byte>, spec: Spec, keys: ArchiveKeys, keyBlock: seq<byte>)
    requires Compact(lib) && Signed(signature) && Writable(lib, spec) && KeyKnown(keys, spec) && spec.Locked?
    requires |spec.name| < 1000 && |LockedPayload(lib, spec)| < 1000 && |keyBlock| < 1000
    ensures AllWritable(lib, keys, [spec]) && ModernSpecsFit(lib, signature, true, [spec], keyBlock)
  {
    hide Writable, LockedPayload, Signed, KeyKnown, RowsFrom, ModernTableBytes, Body, NulFree, ModernItems, ModernFits,
      Compact, AllFit;
    ModernItemsFit(lib, keys, [spec]);
    WritableName(lib, spec);
    OneItem(lib, spec);
    OneItemFits(lib, signature, ModernItems(lib, [spec]), keyBlock);
  }

  lemma WritableName(lib: Library, spec: Spec)
    requires Writable(lib, spec)
    ensures NulFree(spec.name)
  {
  }

  lemma OneFileReadsModern(lib: Library, signature: seq<byte>, spec: Spec, keys: ArchiveKeys, keyBlock: seq<byte>)
    requires lib.ZlibLaw() && lib.AesLaw() && lib.Lz4Law() && spec.Locked?
    requires ModernSpecsFit(lib, signature, true, [spec], keyBlock) && AllWritable(lib, keys, [spec])
    requires KeysOfBlock(lib, keyBlock) == Ok(keys)
    ensures var image := ModernArchive(lib, signature, true, ModernItems(lib, [spec]), keyBlock);
            var r := Opened(lib, image);
            r.Ok? && |r.value.files| == 1 && EntryRead(lib, image, r.value.keys, r.value.files[0]) == Ok(spec.data)
  {
    hide Opened, EntryRead, ModernFits, AllWritable, Filtered, ModernListing, ModernItems, KeysOfBlock, AllMatch,
      Library.ZlibLaw, Library.AesLaw, Library.Lz4Law, ModernArchive;
    ModernArchiveRoundTrip(lib, signature, true, [spec], keyBlock, keys);
    KeyedListed(lib, spec);
    var image := ModernArchive(lib, signature, true, ModernItems(lib, [spec]), keyBlock);
    KeyedMatches(lib, image, keys, Opened(lib, image).value.files, spec);
  }

  lemma KeyedListed(lib: Library, spec: Spec)
    requires spec.Locked?
    ensures ModernListing(lib)(spec) == Some(Shown(spec.name, PROTECTED, Ok(spec.data)))
    ensures Filtered(ModernListing(lib), [spec]) == [spec]
  {
    assert [spec][1..] == [];
  }

  lemma KeyedMatches(lib: Library, image: seq<byte>, keys: ArchiveKeys, files: seq<File>, spec: Spec)
    requires AllMatch(lib, image, keys, files, ModernListing(lib), [spec]) && spec.Locked?
    ensures |files| == 1 && EntryRead(lib, image, keys, files[0]) == Ok(spec.data)
  {
    hide EntryRead, ModernListing;
    KeyedListed(lib, spec);
    assert [spec][0] == spec;
  }

  /** What the round trip of protected archives requires can be met, and such an archive's file reads back. */
  lemma KeyedArchiveReads()
    ensures ModernSpecsFit(Toy(), MASTER, true, [KeyedSpec()], ToyKeyBlock())
    ensures var image := ModernArchive(Toy(), MASTER, true, ModernItems(Toy(), [KeyedSpec()]), ToyKeyBlock());
            var r := Opened(Toy(), image);
            r.Ok? && |r.value.files| == 1 && EntryRead(Toy(), image, r.value.keys, r.value.files[0]) == Ok([1, 2, 3])
  {
    hide Opened, ModernArchive, EntryRead, ModernSpecsFit, AllWritable, Toy, Writable, LockedPayload, KeysOfBlock,
      Signed, Library.ZlibLaw, Library.AesLaw, Library.Lz4Law, ToyKeyBlock, ModernItems, MASTER, GAT, ToyRecord,
      Compact;
    var keys := ToyKeyMap();
    LawsHoldTogether();
    ToyIsCompact();
    ToyKeys();
    KeyedChoice();
    GatBytes();
    KeyedIsWritable();
    KeyedPayloadSize();
    KnownSignatures([]);
    OneFileFitsModern(Toy(), MASTER, KeyedSpec(), keys, ToyKeyBlock());
    OneFileReadsModern(Toy(), MASTER, KeyedSpec(), keys, ToyKeyBlock());
  }
}
