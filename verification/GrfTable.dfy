/** File tables of archives: the modern and the obfuscated legacy layout, and their writers (src/grf.rs,
    tests/support/mod.rs). */
module GrfTable {
  import opened Bytes
  import opened Library

  const FILE: byte := 0x01
  const ENCRYPT_MIXED: byte := 0x02
  const ENCRYPT_HEADER: byte := 0x04
  const PROTECTED: byte := 0x80

  datatype Entry = Entry(offset: nat, compressedSize: u32, lengthAligned: u32, realSize: u32, kind: byte)

  predicate HasBit(kind: byte, bit: byte) {
    kind & bit != 0
  }

  /** One row of a table: the name's bytes and the entry. */
  datatype Named = Named(name: seq<byte>, entry: Entry)

  // ---------------------------------------------------------------- rows in sequence

  type Parser = seq<byte> -> Result<(Named, seq<byte>)>

  /** `count` rows read one after the other; the first failure fails the table. */
  function Rows(parse: Parser, s: seq<byte>, count: nat): Result<seq<Named>>
    decreases count
  {
    if count == 0 then Ok([])
    else
      match parse(s)
      case Err(e) => Err(e)
      case Ok((row, rest)) => Prepended([row], Rows(parse, rest, count - 1))
  }

  function Prepended(front: seq<Named>, rows: Result<seq<Named>>): Result<seq<Named>> {
    match rows
    case Err(e) => Err(e)
    case Ok(value) => Ok(front + value)
  }

  lemma PrependTwice(a: seq<Named>, b: seq<Named>, rows: Result<seq<Named>>)
    ensures Prepended(a, Prepended(b, rows)) == Prepended(a + b, rows)
  {
    if rows.Ok? {
      assert a + (b + rows.value) == a + b + rows.value;
    }
  }

  function Concat(pieces: seq<seq<byte>>): seq<byte> {
    if pieces == [] then [] else pieces[0] + Concat(pieces[1..])
  }

  /** The parser reads a piece back as a row, whatever follows it. */
  ghost predicate Reads(parse: Parser, piece: seq<byte>, row: Named) {
    forall rest :: parse(piece + rest) == Ok((row, rest))
  }

  /** The parser refuses a piece that was cut short. */
  ghost predicate RefusesCut(parse: Parser, piece: seq<byte>) {
    forall k | 0 <= k < |piece| :: parse(piece[..k]).Err?
  }

  lemma {:induction false} RowsRoundTrip(parse: Parser, pieces: seq<seq<byte>>, rows: seq<Named>, rest: seq<byte>)
    requires |pieces| == |rows| && forall i | 0 <= i < |rows| :: Reads(parse, pieces[i], rows[i])
    ensures Rows(parse, Concat(pieces) + rest, |rows|) == Ok(rows)
    decreases |rows|
  {
    if rows != [] {
      assert Reads(parse, pieces[0], rows[0]);
      assert Concat(pieces) + rest == pieces[0] + (Concat(pieces[1..]) + rest);
      RowsRoundTrip(parse, pieces[1..], rows[1..], rest);
      assert rows == [rows[0]] + rows[1..];
    }
  }

  /** Every strict prefix of a table is refused: the cut falls in some row. */
  lemma {:induction false} CutTableRefused(parse: Parser, pieces: seq<seq<byte>>, rows: seq<Named>, k: nat)
    requires |pieces| == |rows| && forall i | 0 <= i < |rows| :: Reads(parse, pieces[i], rows[i])
    requires forall i | 0 <= i < |rows| :: RefusesCut(parse, pieces[i])
    requires k < |Concat(pieces)|
    ensures Rows(parse, Concat(pieces)[..k], |rows|).Err?
    decreases |rows|
  {
    var first, s := pieces[0], Concat(pieces);
    if k < |first| {
      assert RefusesCut(parse, first);
      assert s[..k] == first[..k];
    } else {
      assert Reads(parse, first, rows[0]);
      var tail := Concat(pieces[1..]);
      assert s[..k] == first + tail[..k - |first|];
      CutTableRefused(parse, pieces[1..], rows[1..], k - |first|);
    }
  }

  // ---------------------------------------------------------------- names

  /** Where the first NUL of a sequence is, or its length. */
  function NameLength(s: seq<byte>): (n: nat)
    ensures n <= |s|
    ensures n < |s| ==> s[n] == 0
    ensures forall i | 0 <= i < n :: s[i] != 0
  {
    if s == [] || s[0] == 0 then 0 else 1 + NameLength(s[1..])
  }

  predicate NulFree(name: seq<byte>) {
    forall i | 0 <= i < |name| :: name[i] != 0
  }

  lemma NameBeforeNul(name: seq<byte>, rest: seq<byte>)
    requires NulFree(name)
    ensures NameLength(name + [0] + rest) == |name|
  {
    var s := name + [0] + rest;
    assert s[|name|] == 0;
    assert forall i | 0 <= i < |name| :: s[i] == name[i];
  }

  lemma NameWithoutNul(name: seq<byte>)
    requires NulFree(name)
    ensures NameLength(name) == |name|
  {
    var n := NameLength(name);
  }

  // ---------------------------------------------------------------- the modern table

  /** A row of type 0 with content of equal packed and real size is a stored file. */
  function StoredAsFile(entry: Entry): Entry {
    if entry.kind == 0 && entry.realSize > 0 && entry.compressedSize == entry.realSize then entry.(kind := FILE)
        else entry
  }

  function EntrySize(wide: bool): nat {
    if wide then 21 else 17
  }

  function ModernEntry(s: seq<byte>, wide: bool): Entry
    requires |s| >= EntrySize(wide)
  {
    Entry(if wide then 0x1_0000_0000 * Word(s, 17) + Word(s, 13) else Word(s, 13),
          Word(s, 0), Word(s, 4), Word(s, 8), s[12])
  }

  /** A NUL-terminated name and the fixed data behind it. */
  function ModernRowOf(s: seq<byte>, wide: bool): Result<(Named, seq<byte>)> {
    var n := NameLength(s);
    if s == [] || n + 1 + EntrySize(wide) > |s| then Err(CorruptTable)
    else Ok((Named(s[..n], StoredAsFile(ModernEntry(s[n + 1..], wide))), s[n + 1..][EntrySize(wide)..]))
  }

  function ModernRow(wide: bool): Parser {
    (s: seq<byte>) => ModernRowOf(s, wide)
  }

  function OffsetLimit(wide: bool): nat {
    if wide then 0x1_0000_0000_0000_0000 else 0x1_0000_0000
  }

  function ModernEntryBytes(entry: Entry, wide: bool): (s: seq<byte>)
    requires entry.offset < OffsetLimit(wide)
    ensures |s| == EntrySize(wide)
  {
    WordBytes(entry.compressedSize) + WordBytes(entry.lengthAligned) + WordBytes(entry.realSize) + [entry.kind] +
    WordBytes(entry.offset % 0x1_0000_0000) + (if wide then WordBytes(entry.offset / 0x1_0000_0000) else [])
  }

  function ModernRowBytes(row: Named, wide: bool): seq<byte>
    requires row.entry.offset < OffsetLimit(wide)
  {
    row.name + [0] + ModernEntryBytes(row.entry, wide)
  }

  lemma ModernEntryRoundTrip(entry: Entry, wide: bool, rest: seq<byte>)
    requires entry.offset < OffsetLimit(wide)
    ensures ModernEntry(ModernEntryBytes(entry, wide) + rest, wide) == entry
  {
    hide Word, WordBytes;
    var s := ModernEntryBytes(entry, wide) + rest;
    assert s[0..0 + 4] == WordBytes(entry.compressedSize) && s[4..4 + 4] == WordBytes(entry.lengthAligned);
    assert s[8..8 + 4] == WordBytes(entry.realSize) && s[12] == entry.kind;
    assert s[13..13 + 4] == WordBytes(entry.offset % 0x1_0000_0000);
    WordInContext(s, 0, entry.compressedSize);
    WordInContext(s, 4, entry.lengthAligned);
    WordInContext(s, 8, entry.realSize);
    WordInContext(s, 13, entry.offset % 0x1_0000_0000);
    if wide {
      assert s[17..17 + 4] == WordBytes(entry.offset / 0x1_0000_0000);
      WordInContext(s, 17, entry.offset / 0x1_0000_0000);
    }
  }

  lemma ModernRowReadsBefore(row: Named, wide: bool, rest: seq<byte>)
    requires row.entry.offset < OffsetLimit(wide) && NulFree(row.name)
    ensures ModernRowOf(ModernRowBytes(row, wide) + rest, wide) == Ok((row.(entry := StoredAsFile(row.entry)), rest))
  {
    hide ModernEntry, ModernEntryBytes, NameLength, NulFree, StoredAsFile;
    var data := ModernEntryBytes(row.entry, wide);
    var s := ModernRowBytes(row, wide) + rest;
    assert s == row.name + [0] + (data + rest);
    NameBeforeNul(row.name, data + rest);
    assert s[..|row.name|] == row.name && s[|row.name| + 1..] == data + rest;
    assert (data + rest)[|data|..] == rest;
    ModernEntryRoundTrip(row.entry, wide, rest);
  }

  lemma ModernRowReads(row: Named, wide: bool)
    requires row.entry.offset < OffsetLimit(wide) && NulFree(row.name)
    ensures Reads(ModernRow(wide), ModernRowBytes(row, wide), row.(entry := StoredAsFile(row.entry)))
  {
    hide ModernRowBytes, ModernRowOf, StoredAsFile;
    forall rest
      ensures ModernRow(wide)(ModernRowBytes(row, wide) + rest) == Ok((row.(entry := StoredAsFile(row.entry)), rest))
    {
      ModernRowReadsBefore(row, wide, rest);
    }
  }

  /** A name with a NUL is cut there, and never comes back. */
  lemma ModernNameSurvives(row: Named, wide: bool, rest: seq<byte>)
    requires row.entry.offset < OffsetLimit(wide)
    ensures var r := ModernRowOf(ModernRowBytes(row, wide) + rest, wide);
            r.Ok? && r.value.0.name == row.name <==> NulFree(row.name)
  {
    hide ModernEntry, ModernEntryBytes, StoredAsFile;
    var s := ModernRowBytes(row, wide) + rest;
    if NulFree(row.name) {
      ModernRowReadsBefore(row, wide, rest);
    } else {
      var i :| 0 <= i < |row.name| && row.name[i] == 0;
      assert s[i] == 0;
      assert NameLength(s) <= i;
    }
  }

  lemma ModernRowRefusesCut(row: Named, wide: bool)
    requires row.entry.offset < OffsetLimit(wide) && NulFree(row.name)
    ensures RefusesCut(ModernRow(wide), ModernRowBytes(row, wide))
  {
    hide ModernEntry, ModernEntryBytes, NameLength, StoredAsFile;
    var piece := ModernRowBytes(row, wide);
    forall k | 0 <= k < |piece|
      ensures ModernRow(wide)(piece[..k]).Err?
    {
      var data := ModernEntryBytes(row.entry, wide);
      if k <= |row.name| {
        assert piece[..k] == row.name[..k];
        NameWithoutNul(row.name[..k]);
      } else {
        assert piece[..k] == row.name + [0] + data[..k - |row.name| - 1];
        NameBeforeNul(row.name, data[..k - |row.name| - 1]);
      }
    }
  }

  predicate ModernWritable(rows: seq<Named>, wide: bool) {
    forall i | 0 <= i < |rows| :: rows[i].entry.offset < OffsetLimit(wide) && NulFree(rows[i].name)
  }

  function ModernPieces(rows: seq<Named>, wide: bool): seq<seq<byte>>
    requires ModernWritable(rows, wide)
  {
    seq(|rows|, i requires 0 <= i < |rows| => ModernRowBytes(rows[i], wide))
  }

  function ModernTableBytes(rows: seq<Named>, wide: bool): seq<byte>
    requires ModernWritable(rows, wide)
  {
    Concat(ModernPieces(rows, wide))
  }

  function StoredRows(rows: seq<Named>): seq<Named> {
    seq(|rows|, i requires 0 <= i < |rows| => rows[i].(entry := StoredAsFile(rows[i].entry)))
  }

  /** A written table reads back row by row, and every strict prefix of it is refused. */
  lemma ModernTableRoundTrip(rows: seq<Named>, wide: bool, k: nat)
    requires ModernWritable(rows, wide)
    ensures Rows(ModernRow(wide), ModernTableBytes(rows, wide), |rows|) == Ok(StoredRows(rows))
    ensures k < |ModernTableBytes(rows, wide)| ==> Rows(ModernRow(wide), ModernTableBytes(rows, wide)[..k], |rows|).Err?
  {
    hide ModernRowBytes, ModernRow, StoredAsFile;
    var pieces := ModernPieces(rows, wide);
    forall i | 0 <= i < |rows|
      ensures Reads(ModernRow(wide), pieces[i], StoredRows(rows)[i]) && RefusesCut(ModernRow(wide), pieces[i])
    {
      ModernRowReads(rows[i], wide);
      ModernRowRefusesCut(rows[i], wide);
    }
    RowsRoundTrip(ModernRow(wide), pieces, StoredRows(rows), []);
    assert Concat(pieces) + [] == Concat(pieces);
    if k < |Concat(pieces)| {
      CutTableRefused(ModernRow(wide), pieces, StoredRows(rows), k);
    }
  }

  /** A row as the parsers return it: the range of its name in the table, and its entry. */
  datatype Located = Located(start: nat, end: nat, entry: Entry)

  ghost predicate InRange(rows: seq<Located>, limit: nat) {
    forall i | 0 <= i < |rows| :: rows[i].start <= rows[i].end <= limit
  }

  /** The rows with the names their ranges hold. */
  ghost function Resolved(rows: seq<Located>, data: seq<byte>): (r: seq<Named>)
    requires InRange(rows, |data|)
  {
    seq(|rows|, i requires 0 <= i < |rows| => Named(data[rows[i].start..rows[i].end], rows[i].entry))
  }

  /** What a table method returns: the located rows, which resolve to the rows read from the original table. */
  ghost predicate Locates(r: Result<seq<Located>>, data: seq<byte>, rows: Result<seq<Named>>) {
    match (r, rows)
    case (Ok(located), Ok(named)) => InRange(located, |data|) && Resolved(located, data) == named
    case (Err(e), Err(expected)) => e == expected
    case _ => false
  }

  lemma NothingPrepended(rows: Result<seq<Named>>)
    ensures Prepended([], rows) == rows
  {
    if rows.Ok? {
      assert [] + rows.value == rows.value;
    }
  }

  lemma ResolvedSnoc(rows: seq<Located>, row: Located, data: seq<byte>)
    requires InRange(rows, |data|) && row.start <= row.end <= |data|
    ensures Resolved(rows + [row], data) == Resolved(rows, data) + [Named(data[row.start..row.end], row.entry)]
  {
  }

  /** Reading one more row, which the parser places at `row` with the rest of the data from `p` on. */
  lemma RowRead(parse: Parser, all: Result<seq<Named>>, rows: seq<Located>, row: Located, data: seq<byte>,
      rest: seq<byte>, left: nat, s: seq<byte>)
    requires InRange(rows, |data|) && row.start <= row.end <= |data| && left > 0
    requires all == Prepended(Resolved(rows, data), Rows(parse, rest, left))
    requires parse(rest) == Ok((Named(data[row.start..row.end], row.entry), s))
    ensures InRange(rows + [row], |data|)
    ensures all == Prepended(Resolved(rows + [row], data), Rows(parse, s, left - 1))
  {
    var named := Named(data[row.start..row.end], row.entry);
    assert Rows(parse, rest, left) == Prepended([named], Rows(parse, s, left - 1));
    PrependTwice(Resolved(rows, data), [named], Rows(parse, s, left - 1));
    ResolvedSnoc(rows, row, data);
  }

  /** Where the name at `p` ends: the scan of both table readers' names. */
  method EndOfName(data: seq<byte>, p: nat) returns (end: nat)
    requires p <= |data|
    ensures end == p + NameLength(data[p..])
  {
    end := p;
    while end < |data| && data[end] != 0
      invariant p <= end <= |data|
      invariant NameLength(data[p..]) >= end - p
    {
      end := end + 1;
    }
  }

  /** `read_modern_table`: one cursor over the table. */
  method ReadModernTable(data: seq<byte>, count: nat, wide: bool) returns (r: Result<seq<Located>>)
    ensures Locates(r, data, Rows(ModernRow(wide), data, count))
  {
    hide ModernEntry, StoredAsFile, NameLength, Rows, Resolved;
    var out: seq<Located>, p: nat := [], 0;
    assert data[0..] == data;
    assert Resolved([], data) == [] by { ResolvedNone(data); }
    NothingPrepended(Rows(ModernRow(wide), data, count));
    for i := 0 to count
      invariant p <= |data| && InRange(out, |data|)
      invariant Rows(ModernRow(wide), data, count) ==
                Prepended(Resolved(out, data), Rows(ModernRow(wide), data[p..], count - i))
    {
      ghost var s := data[p..];
      RowsFail(ModernRow(wide), s, count - i);
      if p >= |data| {
        return Err(CorruptTable);
      }
      var end := EndOfName(data, p);
      if end + 1 + EntrySize(wide) > |data| {
        return Err(CorruptTable);
      }
      assert data[end + 1..] == s[end - p + 1..] && s[..end - p] == data[p..end];
      var row := Located(p, end, StoredAsFile(ModernEntry(data[end + 1..], wide)));
      assert data[end + 1..][EntrySize(wide)..] == data[end + 1 + EntrySize(wide)..];
      RowRead(ModernRow(wide), Rows(ModernRow(wide), data, count), out, row, data, s, count - i,
          data[end + 1 + EntrySize(wide)..]);
      out := out + [row];
      p := end + 1 + EntrySize(wide);
    }
    RowsDone(ModernRow(wide), Resolved(out, data), data[p..]);
    return Ok(out);
  }

  lemma RowsDone(parse: Parser, rows: seq<Named>, s: seq<byte>)
    ensures Prepended(rows, Rows(parse, s, 0)) == Ok(rows)
  {
    assert rows + [] == rows;
  }

  lemma ResolvedNone(data: seq<byte>)
    ensures Resolved([], data) == []
  {
  }

  lemma RowsFail(parse: Parser, s: seq<byte>, count: nat)
    requires count > 0
    ensures parse(s).Err? ==> Rows(parse, s, count) == Err(parse(s).error)
  {
  }
}
