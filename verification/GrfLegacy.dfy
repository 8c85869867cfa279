/** The 0x1xx file table: obfuscated names, modes picked by extension,
    and the reader that decodes names in place (src/grf.rs, tests/support/mod.rs). */
module GrfLegacy {
  import opened Bytes
  import opened Library
  import opened GrfTable
  import Des

  // ---------------------------------------------------------------- names

  function NibbleSwap(b: byte): byte {
    (b >> 4) | (b << 4)
  }

  lemma NibbleSwapTwice(b: byte)
    ensures NibbleSwap(NibbleSwap(b)) == b
  {
  }

  function Swapped(s: Block8): Block8 {
    seq(8, i requires 0 <= i < 8 => NibbleSwap(s[i]))
  }

  lemma SwappedTwice(s: Block8)
    ensures Swapped(Swapped(s)) == s
  {
    hide NibbleSwap;
    forall i | 0 <= i < 8
      ensures NibbleSwap(NibbleSwap(s[i])) == s[i]
    {
      NibbleSwapTwice(s[i]);
    }
  }

  function Deobfuscate(): (nat, Block8) -> Block8 {
    (k: nat, block: Block8) => Des.HeaderMode(Swapped(block), 8)
  }

  function Obfuscate(): (nat, Block8) -> Block8 {
    (k: nat, block: Block8) => Swapped(Des.HeaderMode(block, 8))
  }

  lemma ObfuscationInverts(k: nat, block: Block8)
    ensures Deobfuscate()(k, Obfuscate()(k, block)) == block
  {
    hide Des.HeaderMode, Swapped;
    SwappedTwice(Des.HeaderMode(block, 8));
    Des.HeaderModeInvolution(block, 8);
  }

  /** The blocks `decode_filename` decodes: all that start within `length` and fit the buffer. */
  function NameBlocks(length: nat, available: nat): (n: nat)
    ensures 8 * n <= available
  {
    Des.Min((length + 7) / 8, available / 8)
  }

  function FilenameDecoded(block: seq<byte>, length: nat): (r: seq<byte>)
    ensures |r| == |block|
  {
    Des.Walked(Deobfuscate(), block, NameBlocks(length, |block|))
  }

  function FilenameEncoded(name: seq<byte>): (r: seq<byte>)
    ensures |r| == |name|
  {
    Des.Walked(Obfuscate(), name, |name| / 8)
  }

  /** Decoding the first `m` blocks of an encoded name gives those blocks back, whatever follows the name. */
  lemma FilenameRoundTrip(name: seq<byte>, rest: seq<byte>, m: nat)
    requires |name| % 8 == 0 && 8 * m <= |name|
    ensures FilenameDecoded(FilenameEncoded(name) + rest, 8 * m)[..8 * m] == name[..8 * m]
  {
    hide Deobfuscate, Obfuscate, Des.Walked;
    var n := |name| / 8;
    var there := FilenameEncoded(name);
    var s := there + rest;
    assert NameBlocks(8 * m, |s|) == m;
    var back := FilenameDecoded(s, 8 * m);
    Des.WalkedBlocks(Obfuscate(), name, n);
    Des.WalkedBlocks(Deobfuscate(), s, m);
    forall k | 0 <= k < m
      ensures Des.Block(back[..8 * m], k) == Des.Block(name[..8 * m], k)
    {
      assert Des.Block(s, k) == Des.Block(there, k) == Obfuscate()(k, Des.Block(name, k));
      ObfuscationInverts(k, Des.Block(name, k));
      assert Des.Block(back[..8 * m], k) == Des.Block(back, k);
      assert Des.Block(name[..8 * m], k) == Des.Block(name, k);
    }
    assert back[..8 * m][8 * m..] == name[..8 * m][8 * m..];
    Des.EqualByBlocks(back[..8 * m], name[..8 * m], m);
  }

  function Zeros(n: nat): (s: seq<byte>)
    ensures |s| == n
  {
    seq(n, _ => 0)
  }

  /** The length of a name with its NUL, in whole blocks. */
  function PaddedLength(n: nat): (r: nat)
    ensures r % 8 == 0 && r > n
  {
    n / 8 * 8 + 8
  }

  function Padded(name: seq<byte>): (r: seq<byte>)
    ensures |r| == PaddedLength(|name|)
  {
    name + Zeros(PaddedLength(|name|) - |name|)
  }

  /** The name a reader finds in `block`, of which it believes `length` bytes. */
  function LegacyName(block: seq<byte>, length: nat): seq<byte>
    requires length <= |block|
  {
    var name := FilenameDecoded(block, length)[..length];
    name[..NameLength(name)]
  }

  /** What survives of a name: it stops at a NUL, and its padded length is believed modulo 256. */
  function CutName(name: seq<byte>): seq<byte> {
    name[..Des.Min(NameLength(name), PaddedLength(|name|) % 256)]
  }

  /** A name survives exactly when it holds no NUL and its padded length is at most 248. */
  lemma NameSurvives(name: seq<byte>)
    ensures CutName(name) == name <==> NulFree(name) && PaddedLength(|name|) <= 248
  {
    var cut := Des.Min(NameLength(name), PaddedLength(|name|) % 256);
    assert |CutName(name)| == cut;
    if cut == |name| {
      assert CutName(name) == name;
    }
    if NulFree(name) {
      NameWithoutNul(name);
    }
    if PaddedLength(|name|) > 248 {
      assert PaddedLength(|name|) >= 256;
      assert PaddedLength(|name|) % 256 <= PaddedLength(|name|) - 256 < |name|;
    }
  }

  lemma NameLengthIs(s: seq<byte>, n: nat)
    requires n <= |s| && (forall i | 0 <= i < n :: s[i] != 0) && (n < |s| ==> s[n] == 0)
    ensures NameLength(s) == n
  {
    hide NameLength;
    var m := NameLength(s);
  }

  lemma PaddedNameLength(name: seq<byte>, m: nat)
    requires m <= PaddedLength(|name|)
    ensures NameLength(Padded(name)[..m]) == Des.Min(NameLength(name), m)
    ensures Padded(name)[..m][..Des.Min(NameLength(name), m)] == name[..Des.Min(NameLength(name), m)]
  {
    hide NameLength, PaddedLength;
    PaddedBytes(name, m);
    NameLengthIs(Padded(name)[..m], Des.Min(NameLength(name), m));
  }

  lemma PaddedBytes(name: seq<byte>, m: nat)
    requires m <= PaddedLength(|name|)
    ensures forall i | 0 <= i < m :: Padded(name)[..m][i] == if i < |name| then name[i] else 0
    ensures forall n | 0 <= n <= m && n <= |name| :: Padded(name)[..m][..n] == name[..n]
  {
    hide PaddedLength;
  }

  lemma WrittenName(name: seq<byte>, rest: seq<byte>)
    ensures var block, m := FilenameEncoded(Padded(name)) + rest, PaddedLength(|name|) % 256;
            m <= |block| && LegacyName(block, m) == CutName(name)
  {
    hide FilenameDecoded, FilenameEncoded, NameLength;
    var m := PaddedLength(|name|) % 256;
    assert m == 8 * (m / 8) && m <= PaddedLength(|name|);
    FilenameRoundTrip(Padded(name), rest, m / 8);
    PaddedNameLength(name, m);
  }

  // ---------------------------------------------------------------- modes

  function Lower(b: byte): byte {
    if 0x41 <= b <= 0x5a then b + 0x20 else b
  }

  /** `.gnd`, `.gat`, `.act` and `.str`. */
  const HEADER_ONLY: seq<seq<byte>> := [
    [0x2e, 0x67, 0x6e, 0x64], [0x2e, 0x67, 0x61, 0x74], [0x2e, 0x61, 0x63, 0x74], [0x2e, 0x73, 0x74, 0x72]]

  predicate SameLetters(a: seq<byte>, b: seq<byte>) {
    |a| == |b| && forall i | 0 <= i < |a| :: Lower(a[i]) == Lower(b[i])
  }

  /** Where the last dot of a name is. */
  function LastDot(name: seq<byte>): (at: Option<nat>)
    ensures at.Some? ==> at.value < |name| && name[at.value] == 0x2e
    ensures forall i | 0 <= i < |name| && name[i] == 0x2e :: at.Some? && i <= at.value
  {
    if name == [] then None
    else if name[|name| - 1] == 0x2e then Some(|name| - 1)
    else LastDot(name[..|name| - 1])
  }

  /** The reader's choice: by the extension behind the last dot. */
  predicate IsFullEncrypt(name: seq<byte>) {
    match LastDot(name)
    case None => true
    case Some(dot) => !exists c | 0 <= c < |HEADER_ONLY| :: SameLetters(name[dot..], HEADER_ONLY[c])
  }

  predicate EndsWith(s: seq<byte>, ending: seq<byte>) {
    |s| >= |ending| && s[|s| - |ending|..] == ending
  }

  function Lowered(name: seq<byte>): (r: seq<byte>)
    ensures |r| == |name|
  {
    seq(|name|, i requires 0 <= i < |name| => Lower(name[i]))
  }

  /** The writer's choice: by the ending of the lower-cased name. */
  predicate FullEncrypt(name: seq<byte>) {
    !exists c | 0 <= c < |HEADER_ONLY| :: EndsWith(Lowered(name), HEADER_ONLY[c])
  }

  /** An ending starts with a dot and has lower-case letters behind it. */
  predicate IsExtension(ending: seq<byte>) {
    |ending| == 4 && ending[0] == 0x2e && forall i | 1 <= i < 4 :: ending[i] != 0x2e && Lower(ending[i]) == ending[i]
  }

  lemma EndingsAreExtensions()
    ensures forall c | 0 <= c < |HEADER_ONLY| :: IsExtension(HEADER_ONLY[c])
  {
  }

  lemma EndingIsLastExtension(name: seq<byte>, ending: seq<byte>)
    requires IsExtension(ending)
    ensures EndsWith(Lowered(name), ending) <==>
            LastDot(name).Some? && SameLetters(name[LastDot(name).value..], ending)
  {
    hide Lower, LastDot;
    DotLowers();
    var n := |name|;
    if EndsWith(Lowered(name), ending) {
      assert forall i | 0 <= i < 4 :: Lower(name[n - 4 + i]) == Lowered(name)[n - 4..][i] == ending[i];
      assert Lower(name[n - 4 + 0]) == ending[0] && Lower(name[n - 4 + 1]) == ending[1];
      assert Lower(name[n - 4 + 2]) == ending[2] && Lower(name[n - 4 + 3]) == ending[3];
      assert LastDot(name) == Some(n - 4);
    }
    if LastDot(name).Some? && SameLetters(name[LastDot(name).value..], ending) {
      assert LastDot(name).value == n - 4;
      forall i | 0 <= i < 4
        ensures Lowered(name)[n - 4..][i] == ending[i]
      {
        assert name[n - 4..][i] == name[n - 4 + i];
      }
    }
  }

  lemma DotLowers()
    ensures forall b :: Lower(b) == 0x2e <==> b == 0x2e
  {
  }

  /** Reader and writer pick the same mode for every name. */
  lemma ModesAgree(name: seq<byte>)
    ensures IsFullEncrypt(name) == FullEncrypt(name)
  {
    hide HEADER_ONLY, LastDot, SameLetters, EndsWith, IsExtension;
    EndingsAreExtensions();
    forall c | 0 <= c < |HEADER_ONLY|
      ensures EndsWith(Lowered(name), HEADER_ONLY[c]) <==>
              LastDot(name).Some? && SameLetters(name[LastDot(name).value..], HEADER_ONLY[c])
    {
      EndingIsLastExtension(name, HEADER_ONLY[c]);
    }
  }

  function ModeOf(full: bool): byte {
    if full then ENCRYPT_MIXED else ENCRYPT_HEADER
  }

  // ---------------------------------------------------------------- rows

  const LENGTH_BIAS: nat := 715
  const ALIGNED_BIAS: nat := 37579
  const FIXED_SIZE: nat := 17

  function AtLeastZero(n: int): (r: nat)
    ensures r as int == if n < 0 then 0 else n
  {
    if n < 0 then 0 else n
  }

  /** A type byte with more bits set. */
  function With(kind: byte, bits: byte): byte {
    kind | bits
  }

  /** The type byte with the mode of its file; an entry whose lengths underflow loses its file bit instead. */
  function Marked(kind: byte, underflow: bool, name: seq<byte>): byte {
    if underflow then kind & 0xfe
    else if HasBit(kind, FILE) then With(kind, ModeOf(IsFullEncrypt(name)))
    else kind
  }

  /** The fixed part of a row, given the name in front of it. */
  function LegacyEntry(s: seq<byte>, name: seq<byte>): Entry
    requires |s| >= FIXED_SIZE
  {
    hide Word, Marked, HasBit;
    var size := Word(s, 8);
    var packed: int := Word(s, 0) - size - LENGTH_BIAS;
    var aligned: int := Word(s, 4) - ALIGNED_BIAS;
    Entry(Word(s, 13), AtLeastZero(packed), AtLeastZero(aligned), size, Marked(s[12], packed < 0 || aligned < 0, name))
  }

  /** The name length a reader believes: the low byte of the block length alone. */
  function NameLengthByte(b: byte): nat {
    AtLeastZero(Value(b) - 6)
  }

  function LegacyRowOf(s: seq<byte>): Result<(Named, seq<byte>)> {
    if |s| < 4 then Err(CorruptTable)
    else
      var meta, nameLength := 4 + Word(s, 0), NameLengthByte(s[0]);
      if meta + FIXED_SIZE > |s| || 6 + nameLength > meta then Err(CorruptTable)
      else
        var name := LegacyName(s[6..meta], nameLength);
        Ok((Named(name, LegacyEntry(s[meta..], name)), s[meta + FIXED_SIZE..]))
  }

  function LegacyRow(): Parser {
    (s: seq<byte>) => LegacyRowOf(s)
  }

  predicate LegacyFits(row: Named) {
    && row.entry.compressedSize + row.entry.realSize + LENGTH_BIAS < U32_LIMIT
    && row.entry.lengthAligned + ALIGNED_BIAS < U32_LIMIT
    && row.entry.offset < U32_LIMIT
    && PaddedLength(|row.name|) + 6 < U32_LIMIT
  }

  function LegacyFixedBytes(entry: Entry): (s: seq<byte>)
    requires LegacyFits(Named([], entry))
    ensures |s| == FIXED_SIZE
  {
    WordBytes(entry.compressedSize + entry.realSize + LENGTH_BIAS) + WordBytes(entry.lengthAligned + ALIGNED_BIAS) +
    WordBytes(entry.realSize) + [entry.kind] + WordBytes(entry.offset)
  }

  /**
   The row `write_v102` writes: block length, two unused bytes, the obfuscated name, four unused bytes, the fixed
   part.
   */
  function LegacyRowBytes(row: Named): seq<byte>
    requires LegacyFits(row)
  {
    WordBytes(PaddedLength(|row.name|) + 6) + Zeros(2) + FilenameEncoded(Padded(row.name)) + Zeros(4) +
        LegacyFixedBytes(row.entry)
  }

  /** The row a reader gets back: the cut name, and the mode its extension asks for. */
  function ReadBack(row: Named): Named {
    var name := CutName(row.name);
    Named(name, row.entry.(kind := Marked(row.entry.kind, false, name)))
  }

  lemma LegacyEntryRoundTrip(row: Named, name: seq<byte>, rest: seq<byte>)
    requires LegacyFits(row)
    ensures LegacyEntry(LegacyFixedBytes(row.entry) + rest, name) ==
            row.entry.(kind := Marked(row.entry.kind, false, name))
  {
    hide Word, WordBytes, Marked;
    var e := row.entry;
    var s := LegacyFixedBytes(e) + rest;
    assert s[0..0 + 4] == WordBytes(e.compressedSize + e.realSize + LENGTH_BIAS);
    assert s[4..4 + 4] == WordBytes(e.lengthAligned + ALIGNED_BIAS);
    assert s[8..8 + 4] == WordBytes(e.realSize) && s[12] == e.kind;
    assert s[13..13 + 4] == WordBytes(e.offset);
    WordInContext(s, 0, e.compressedSize + e.realSize + LENGTH_BIAS);
    WordInContext(s, 4, e.lengthAligned + ALIGNED_BIAS);
    WordInContext(s, 8, e.realSize);
    WordInContext(s, 13, e.offset);
  }

  lemma FirstDigit(n: nat)
    requires n < U32_LIMIT
    ensures Value(WordBytes(n)[0]) == n % 256
  {
    hide Value, FromValue;
    ValueRoundTrip(n % 256);
  }

  lemma RemainderByEights(n: nat)
    requires n % 8 == 0
    ensures (n + 6) % 256 == n % 256 + 6
  {
    assert n == 256 * (n / 256) + n % 256;
    assert n % 256 % 8 == 0;
  }

  /** The low byte of a block length that leaves room for the six extra bytes. */
  lemma LowByte(n: nat)
    requires n % 8 == 0 && n + 6 < U32_LIMIT
    ensures NameLengthByte(WordBytes(n + 6)[0]) == n % 256
  {
    hide Value, WordBytes;
    FirstDigit(n + 6);
    RemainderByEights(n);
  }

  lemma FiveParts(word: seq<byte>, two: seq<byte>, block: seq<byte>, fixed: seq<byte>, rest: seq<byte>)
    requires |word| == 4 && |two| == 2
    ensures var s, n := word + two + block + fixed + rest, 6 + |block|;
            && s[0..4] == word && s[6..n] == block && s[n..] == fixed + rest && s[n + |fixed|..] == rest
  {
    var s := word + two + block + fixed + rest;
    assert s == (word + two + block) + (fixed + rest);
    SecondPart(word + two, block);
  }

  lemma LegacyRowReadsBefore(row: Named, rest: seq<byte>)
    requires LegacyFits(row)
    ensures LegacyRowOf(LegacyRowBytes(row) + rest) == Ok((ReadBack(row), rest))
  {
    hide Word, WordBytes, LegacyEntry, LegacyFixedBytes, LegacyName, CutName, FilenameEncoded, NameLengthByte,
      Marked, Padded, Zeros;
    var n, fixed := PaddedLength(|row.name|), LegacyFixedBytes(row.entry);
    var block := FilenameEncoded(Padded(row.name)) + Zeros(4);
    var s := LegacyRowBytes(row) + rest;
    assert s == WordBytes(n + 6) + Zeros(2) + block + fixed + rest;
    FiveParts(WordBytes(n + 6), Zeros(2), block, fixed, rest);
    assert s[0..0 + 4] == WordBytes(n + 6);
    WordInContext(s, 0, n + 6);
    assert s[0] == s[0..4][0];
    LowByte(n);
    WrittenName(row.name, Zeros(4));
    LegacyEntryRoundTrip(row, CutName(row.name), rest);
  }

  /** A reader gets every written row back, whatever follows it. */
  lemma LegacyRowReads(row: Named)
    requires LegacyFits(row)
    ensures Reads(LegacyRow(), LegacyRowBytes(row), ReadBack(row))
  {
    hide LegacyRowOf, LegacyRowBytes, ReadBack;
    forall rest
      ensures LegacyRow()(LegacyRowBytes(row) + rest) == Ok((ReadBack(row), rest))
    {
      LegacyRowReadsBefore(row, rest);
    }
  }

  lemma LegacyRowRefusesCut(row: Named)
    requires LegacyFits(row)
    ensures RefusesCut(LegacyRow(), LegacyRowBytes(row))
  {
    hide Word, WordBytes, LegacyEntry, LegacyFixedBytes, LegacyName, FilenameEncoded, NameLengthByte, Padded, Zeros;
    var piece, n := LegacyRowBytes(row), PaddedLength(|row.name|);
    forall k | 0 <= k < |piece|
      ensures LegacyRow()(piece[..k]).Err?
    {
      if k >= 4 {
        assert piece[..k][0..0 + 4] == WordBytes(n + 6);
        WordInContext(piece[..k], 0, n + 6);
      }
    }
  }

  predicate LegacyWritable(rows: seq<Named>) {
    forall i | 0 <= i < |rows| :: LegacyFits(rows[i])
  }

  function LegacyPieces(rows: seq<Named>): (pieces: seq<seq<byte>>)
    requires LegacyWritable(rows)
    ensures |pieces| == |rows|
  {
    seq(|rows|, i requires 0 <= i < |rows| => LegacyRowBytes(rows[i]))
  }

  function LegacyTableBytes(rows: seq<Named>): seq<byte>
    requires LegacyWritable(rows)
  {
    Concat(LegacyPieces(rows))
  }

  function AllReadBack(rows: seq<Named>): (r: seq<Named>)
    ensures |r| == |rows|
  {
    seq(|rows|, i requires 0 <= i < |rows| => ReadBack(rows[i]))
  }

  /** A written table reads back row by row, and every strict prefix of it is refused. */
  lemma LegacyTableRoundTrip(rows: seq<Named>, k: nat)
    requires LegacyWritable(rows)
    ensures Rows(LegacyRow(), LegacyTableBytes(rows), |rows|) == Ok(AllReadBack(rows))
    ensures k < |LegacyTableBytes(rows)| ==> Rows(LegacyRow(), LegacyTableBytes(rows)[..k], |rows|).Err?
  {
    hide LegacyRowBytes, LegacyRow, ReadBack, LegacyFits;
    var pieces := LegacyPieces(rows);
    forall i | 0 <= i < |rows|
      ensures Reads(LegacyRow(), pieces[i], AllReadBack(rows)[i]) && RefusesCut(LegacyRow(), pieces[i])
    {
      LegacyRowReads(rows[i]);
      LegacyRowRefusesCut(rows[i]);
    }
    RowsRoundTrip(LegacyRow(), pieces, AllReadBack(rows), []);
    assert Concat(pieces) + [] == Concat(pieces);
    if k < |Concat(pieces)| {
      CutTableRefused(LegacyRow(), pieces, AllReadBack(rows), k);
    }
  }

  // ---------------------------------------------------------------- in place

  lemma SpliceInside(s: seq<byte>, lo: nat, buf: seq<byte>, start: nat, part: seq<byte>)
    requires lo + |buf| <= |s| && start + |part| <= |buf|
    ensures Spliced(s, lo, buf)[lo + start..lo + start + |part|] == buf[start..start + |part|]
    ensures Spliced(Spliced(s, lo, buf), lo + start, part) == Spliced(s, lo, Spliced(buf, start, part))
  {
  }

  method SwapNibbles(data: array<byte>, at: nat)
    requires at + 8 <= data.Length
    modifies data
    ensures data[..] == Spliced(old(data[..]), at, Swapped(old(data[..])[at..at + 8]))
  {
    hide NibbleSwap;
    ghost var s := data[..];
    for i := 0 to 8
      invariant forall j | 0 <= j < data.Length :: data[j] == if at <= j < at + i then NibbleSwap(s[j]) else s[j]
    {
      data[at + i] := NibbleSwap(data[at + i]);
    }
  }

  method DecodeNameBlock(data: array<byte>, at: nat, ghost k: nat, ghost block: Block8)
    requires at + 8 <= data.Length && data[..][at..at + 8] == block
    modifies data
    ensures data[..] == Spliced(old(data[..]), at, Deobfuscate()(k, block))
  {
    hide Swapped, Des.Transformed, Des.HeaderMode, Spliced;
    Des.HeaderModeOfBlock(Swapped(block));
    SpliceLaws(data[..], at, Swapped(block), Des.Transformed(Swapped(block)));
    SwapNibbles(data, at);
    Des.DecryptBlock(data, at);
  }

  lemma WalkStart(act: (nat, Block8) -> Block8, s: seq<byte>)
    ensures Des.Walked(act, s, 0) == s
  {
  }

  lemma WalkStep(act: (nat, Block8) -> Block8, s: seq<byte>, k: nat)
    requires 8 * k + 8 <= |s|
    ensures Des.Walked(act, s, k + 1) ==
            Spliced(Des.Walked(act, s, k), 8 * k, act(k, Des.Block(Des.Walked(act, s, k), k)))
  {
  }

  /** `decode_filename` on the bytes from `start` to `stop`. */
  method DecodeFilename(data: array<byte>, start: nat, stop: nat, length: nat)
    requires start <= stop <= data.Length
    modifies data
    ensures data[..] == Spliced(old(data[..]), start, FilenameDecoded(old(data[..])[start..stop], length))
  {
    hide Des.Walked, Deobfuscate, Spliced;
    ghost var s := data[..];
    ghost var block := s[start..stop];
    WalkStart(Deobfuscate(), block);
    var at := 0;
    ghost var k := 0;
    SpliceLaws(s, start, block, block);
    while at < length && at + 8 <= stop - start
      invariant at == 8 * k && at <= stop - start && k <= NameBlocks(length, stop - start)
      invariant data[..] == Spliced(s, start, Des.Walked(Deobfuscate(), block, k))
    {
      ghost var walked := Des.Walked(Deobfuscate(), block, k);
      ghost var next := Des.Block(walked, k);
      WalkStep(Deobfuscate(), block, k);
      SpliceInside(s, start, walked, at, Deobfuscate()(k, next));
      DecodeNameBlock(data, start + at, k, next);
      at := at + 8;
      k := k + 1;
    }
  }

  lemma ResolvedStays(rows: seq<Located>, a: seq<byte>, b: seq<byte>, p: nat)
    requires p <= |a| && p <= |b| && a[..p] == b[..p] && InRange(rows, p)
    ensures Resolved(rows, a) == Resolved(rows, b)
  {
    forall i | 0 <= i < |rows|
      ensures a[rows[i].start..rows[i].end] == b[rows[i].start..rows[i].end]
    {
      assert a[rows[i].start..rows[i].end] == a[..p][rows[i].start..rows[i].end];
      assert b[rows[i].start..rows[i].end] == b[..p][rows[i].start..rows[i].end];
    }
  }

  lemma InRangeWidens(rows: seq<Located>, p: nat, limit: nat)
    requires InRange(rows, p) && p <= limit
    ensures InRange(rows, limit)
  {
  }

  /**
   What reading one row in place leaves: nothing in front of it changed, and what was read is what the parser reads.
   */
  ghost predicate ReadsInPlace(before: seq<byte>, after: seq<byte>, p: nat, r: Result<Located>, next: nat)
    requires p <= |before| == |after|
  {
    && after[..p] == before[..p]
    && match LegacyRowOf(before[p..])
       case Err(e) => r == Err(e)
       case Ok((row, rest)) =>
         && r.Ok? && p <= r.value.start <= r.value.end <= next <= |after|
         && Named(after[r.value.start..r.value.end], r.value.entry) == row
         && after[next..] == rest
  }

  lemma WordShift(s: seq<byte>, p: nat)
    requires p + 4 <= |s|
    ensures Word(s, p) == Word(s[p..], 0)
  {
  }

  lemma RowInPlace(before: seq<byte>, after: seq<byte>, p: nat, meta: nat, length: nat)
    requires p + 6 + length <= meta && meta + FIXED_SIZE <= |before|
    requires meta == p + 4 + Word(before, p) && length == NameLengthByte(before[p])
    requires after == Spliced(before, p + 6, FilenameDecoded(before[p + 6..meta], length))
    ensures var end := p + 6 + NameLength(after[p + 6..p + 6 + length]);
            ReadsInPlace(before, after, p, Ok(Located(p + 6, end, LegacyEntry(after[meta..], after[p + 6..end]))),
                meta + FIXED_SIZE)
  {
    hide FilenameDecoded, NameLength, Word, NameLengthByte, Spliced, LegacyEntry;
    var s, block := before[p..], before[p + 6..meta];
    var decoded := FilenameDecoded(block, length);
    WordShift(before, p);
    assert s[6..meta - p] == block;
    SpliceParts(before, p + 6, meta, decoded);
    assert after[..p] == before[..p];
    assert after[meta..] == before[meta..] == s[meta - p..];
    assert after[meta + FIXED_SIZE..] == s[meta - p + FIXED_SIZE..];
    assert after[p + 6..p + 6 + length] == decoded[..length];
    var n := NameLength(decoded[..length]);
    assert after[p + 6..p + 6 + n] == decoded[..length][..n];
  }

  /** The row at `p`, whose name is decoded where it stands. */
  method ReadLegacyRow(data: array<byte>, p: nat) returns (r: Result<Located>, next: nat)
    requires p <= data.Length
    modifies data
    ensures ReadsInPlace(old(data[..]), data[..], p, r, next)
  {
    hide FilenameDecoded, NameLength, Word, NameLengthByte, Spliced, LegacyEntry, LegacyName;
    ghost var before := data[..];
    if p + 4 > data.Length {
      return Err(CorruptTable), p;
    }
    WordShift(before, p);
    var meta := p + 4 + Word(data[..], p);
    var nameLength := NameLengthByte(data[p]);
    if meta + FIXED_SIZE > data.Length || p + 6 + nameLength > meta {
      return Err(CorruptTable), p;
    }
    var nameStart := p + 6;
    DecodeFilename(data, nameStart, meta, nameLength);
    var nameEnd := nameStart + NameLength(data[nameStart..nameStart + nameLength]);
    var entry := LegacyEntry(data[meta..], data[nameStart..nameEnd]);
    RowInPlace(before, data[..], p, meta, nameLength);
    assert data[meta..] == data[..][meta..];
    assert data[nameStart..nameEnd] == data[..][nameStart..nameEnd];
    assert data[nameStart..nameStart + nameLength] == data[..][nameStart..nameStart + nameLength];
    return Ok(Located(nameStart, nameEnd, entry)), meta + FIXED_SIZE;
  }

  /**
   `read_legacy_table`, which decodes each name where it stands and reads what the parser reads in the original table.
   */
  method ReadLegacyTable(data: array<byte>, count: nat) returns (r: Result<seq<Located>>)
    modifies data
    ensures Locates(r, data[..], Rows(LegacyRow(), old(data[..]), count))
  {
    hide LegacyRowOf, Rows, Resolved;
    ghost var original := data[..];
    var out: seq<Located>, p: nat := [], 0;
    assert data[..][0..] == original;
    assert Resolved([], original) == [] by { ResolvedNone(original); }
    NothingPrepended(Rows(LegacyRow(), original, count));
    for i := 0 to count
      invariant p <= data.Length && InRange(out, p)
      invariant Rows(LegacyRow(), original, count) ==
                Prepended(Resolved(out, data[..]), Rows(LegacyRow(), data[..][p..], count - i))
    {
      ghost var before := data[..];
      assert LegacyRow()(before[p..]) == LegacyRowOf(before[p..]);
      RowsFail(LegacyRow(), before[p..], count - i);
      var row, next := ReadLegacyRow(data, p);
      if row.Err? {
        return Err(row.error);
      }
      ghost var rest := LegacyRowOf(before[p..]).value.1;
      ResolvedStays(out, before, data[..], p);
      InRangeWidens(out, p, data.Length);
      RowRead(LegacyRow(), Rows(LegacyRow(), original, count), out, row.value, data[..], before[p..], count - i, rest);
      out := out + [row.value];
      p := next;
    }
    InRangeWidens(out, p, data.Length);
    RowsDone(LegacyRow(), Resolved(out, data[..]), data[..][p..]);
    return Ok(out);
  }
}
