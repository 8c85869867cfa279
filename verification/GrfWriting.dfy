/**
 The writers' loops, which append to a body and a table and encrypt payloads and names in place
 (tests/support/mod.rs).
 */
module GrfWriting {
  import opened Bytes
  import opened Library
  import opened Protected
  import opened GrfTable
  import opened GrfLegacy
  import opened GrfWriter
  import opened GrfRoundTrip
  import Des

  method EncodeNameBlock(name: array<byte>, k: nat)
    requires 8 * k + 8 <= name.Length
    modifies name
    ensures name[..] == Spliced(old(name[..]), 8 * k, Obfuscate()(k, Des.Block(old(name[..]), k)))
  {
    hide Swapped, Des.Transformed, Des.HeaderMode, Spliced;
    var at := 8 * k;
    ghost var s := name[..];
    ghost var block: Block8 := s[at..at + 8];
    Des.HeaderModeOfBlock(block);
    Des.DecryptBlock(name, at);
    SpliceLaws(s, at, Des.Transformed(block), Swapped(Des.Transformed(block)));
    SwapNibbles(name, at);
  }

  /** `encode_filename` */
  method EncodeFilename(name: array<byte>)
    modifies name
    ensures name[..] == FilenameEncoded(old(name[..]))
  {
    hide Des.Walked, Obfuscate, Spliced;
    ghost var s := name[..];
    WalkStart(Obfuscate(), s);
    var at, k := 0, 0;
    while at + 8 <= name.Length
      invariant at == 8 * k && at <= name.Length
      invariant name[..] == Des.Walked(Obfuscate(), s, k)
    {
      WalkStep(Obfuscate(), s, k);
      EncodeNameBlock(name, k);
      at := at + 8;
      k := k + 1;
    }
  }

  method EncryptPayload(kind: byte, payload: seq<byte>, packed: nat) returns (r: seq<byte>)
    ensures r == Encrypted(kind, payload, packed)
  {
    hide Des.Mixed, Des.HeaderMode, HasBit;
    var data := Copied(payload);
    if HasBit(kind, ENCRYPT_MIXED) {
      Des.EncodeFull(data, data.Length, packed);
    } else if HasBit(kind, ENCRYPT_HEADER) {
      Des.DecodeHeader(data, data.Length);
    }
    r := data[..];
  }

  method LegacyRowWritten(row: Named) returns (r: seq<byte>)
    requires LegacyFits(row)
    ensures r == LegacyRowBytes(row)
  {
    hide WordBytes, LegacyFixedBytes, FilenameEncoded;
    var name := row.name + [0];
    while |name| % 8 != 0
      invariant |row.name| < |name| <= PaddedLength(|row.name|)
      invariant name == row.name + Zeros(|name| - |row.name|)
      decreases PaddedLength(|row.name|) - |name|
    {
      NextMultiple(|row.name|, |name|);
      name := name + [0];
    }
    OnlyMultiple(|row.name|, |name|);
    var buffer := Copied(name);
    EncodeFilename(buffer);
    return WordBytes(|name| + 6) + Zeros(2) + buffer[..] + Zeros(4) + LegacyFixedBytes(row.entry);
  }

  lemma NextMultiple(n: nat, m: nat)
    requires n < m <= PaddedLength(n) && m % 8 != 0
    ensures m < PaddedLength(n)
  {
  }

  lemma OnlyMultiple(n: nat, m: nat)
    requires n < m <= PaddedLength(n) && m % 8 == 0
    ensures m == PaddedLength(n)
  {
  }

  // ---------------------------------------------------------------- appending

  lemma {:induction false} BodySnoc(items: seq<Item>, item: Item)
    ensures Body(items + [item]) == Body(items) + item.payload
  {
    if items != [] {
      assert (items + [item])[1..] == items[1..] + [item];
      BodySnoc(items[1..], item);
    }
  }

  lemma {:induction false} ConcatSnoc(pieces: seq<seq<byte>>, piece: seq<byte>)
    ensures Concat(pieces + [piece]) == Concat(pieces) + piece
  {
    if pieces != [] {
      assert (pieces + [piece])[1..] == pieces[1..] + [piece];
      ConcatSnoc(pieces[1..], piece);
    }
  }

  /** One more item's payload appended to the body. */
  lemma ItemAppended(items: seq<Item>, i: nat, body: seq<byte>)
    requires AllFit(items) && i < |items| && body == Body(items[..i])
    ensures RowsFrom(items, 0)[i] == RowOf(items[i], |body|)
    ensures body + items[i].payload == Body(items[..i + 1])
  {
    hide ItemFits, RowsFrom, Body, RowOf;
    assert items[..i + 1] == items[..i] + [items[i]];
    BodySnoc(items[..i], items[i]);
    RowAt(items, i, 0);
  }

  lemma {:induction false} RowAt(items: seq<Item>, i: nat, start: nat)
    requires AllFit(items) && i < |items|
    ensures RowsFrom(items, start)[i] == RowOf(items[i], start + |Body(items[..i])|)
    decreases i
  {
    hide ItemFits;
    if i > 0 {
      RowAt(items[1..], i - 1, start + |items[0].payload|);
      assert items[..i][1..] == items[1..][..i - 1];
    }
  }

  method LegacyItemWritten(lib: Library, spec: Spec) returns (item: Item)
    requires spec.Plain?
    ensures item == LegacyItem(lib, spec)
  {
    hide Encrypted, HasBit, ModeOf, FullEncrypt, With;
    var packed := lib.deflate(spec.data);
    var aligned := RoundUp(|packed|);
    var payload := packed + Zeros(aligned - |packed|);
    if HasBit(spec.flags, FILE) {
      var mode := ModeOf(FullEncrypt(spec.name));
      payload := EncryptPayload(mode, payload, |packed|);
      return Item(spec.name, payload, |packed|, aligned, |spec.data|, With(spec.flags, mode));
    }
    return Item(spec.name, [], |packed|, aligned, |spec.data|, spec.flags);
  }

  /** `write_v102` */
  method WriteV102(lib: Library, specs: seq<Spec>) returns (image: seq<byte>)
    requires LegacyArchiveFits(lib, specs)
    ensures image == LegacyArchive(lib, specs)
  {
    hide LegacyItem, LengthsFit, RowsFrom, Body, Concat, LegacyRowBytes, LegacyFits, LegacyHeader, RowOf;
    ghost var items, rows, pieces := LegacyItems(lib, specs), LegacyRows(lib, specs), [];
    LegacyItemsFit(lib, specs, 0);
    var body, table := [], [];
    NothingWritten();
    assert items[..0] == [];
    for i := 0 to |specs|
      invariant body == Body(items[..i])
      invariant |pieces| == i && forall j | 0 <= j < i :: pieces[j] == LegacyPieces(rows)[j]
      invariant table == Concat(pieces)
    {
      LengthsFitAt(lib, specs, i);
      var item := LegacyItemWritten(lib, specs[i]);
      ItemAppended(items, i, body);
      assert LegacyFits(rows[i]);
      var row := LegacyRowWritten(RowOf(item, |body|));
      ConcatSnoc(pieces, row);
      body := body + item.payload;
      table := table + row;
      pieces := pieces + [row];
    }
    assert items[..|specs|] == items && pieces == LegacyPieces(rows);
    image := LegacyHeader(|specs|, |body|) + body + table;
  }

  lemma LengthsFitAt(lib: Library, specs: seq<Spec>, i: nat)
    requires AllLengthsFit(lib, specs) && i < |specs|
    ensures LengthsFit(lib, specs[i]) && specs[i].Plain? && LegacyItems(lib, specs)[i] == LegacyItem(lib, specs[i])
  {
    hide LegacyItem;
  }

  lemma NothingWritten()
    ensures Body([]) == [] && Concat([]) == []
  {
  }

  method PlainItemWritten(lib: Library, spec: Spec) returns (item: Item)
    requires spec.Plain?
    ensures item == PlainItem(lib, spec)
  {
    hide Encrypted, HasBit;
    var packed := if spec.stored then spec.data else lib.deflate(spec.data);
    var aligned := |packed|;
    var payload := packed;
    assert packed == packed + Zeros(0);
    if IsEncrypted(spec.flags) {
      aligned := RoundUp(|packed|);
      payload := packed + Zeros(aligned - |packed|);
    }
    payload := EncryptPayload(spec.flags, payload, |packed|);
    return Item(spec.name, payload, |packed|, aligned, |spec.data|, spec.flags);
  }

  /** `write_signed` */
  method WriteSigned(lib: Library, signature: seq<byte>, wide: bool, specs: seq<Spec>) returns (image: seq<byte>)
    requires forall i | 0 <= i < |specs| :: specs[i].Plain?
    requires ModernFits(lib, signature, wide, ModernItems(lib, specs), [])
    ensures image == ModernArchive(lib, signature, wide, ModernItems(lib, specs), [])
  {
    hide PlainItem, RowsFrom, Body, Concat, ModernHeader, RowOf, ItemFits, ModernEntryBytes, Writable;
    ghost var items, pieces := ModernItems(lib, specs), [];
    ghost var rows := RowsFrom(items, 0);
    var body, table := [], [];
    NothingWritten();
    assert items[..0] == [];
    for i := 0 to |specs|
      invariant body == Body(items[..i])
      invariant |pieces| == i && forall j | 0 <= j < i :: pieces[j] == ModernPieces(rows, wide)[j]
      invariant table == Concat(pieces)
    {
      var item := PlainItemWritten(lib, specs[i]);
      ItemAppended(items, i, body);
      RowsInBody(items, 0);
      var row := ModernRowBytes(RowOf(item, |body|), wide);
      ConcatSnoc(pieces, row);
      body := body + item.payload;
      table := table + row;
      pieces := pieces + [row];
    }
    assert items[..|specs|] == items && pieces == ModernPieces(rows, wide);
    var packed := lib.deflate(table);
    image := ModernHeader(signature, wide, |specs|, |body|) + body + ModernTail(wide, packed, |table|, []);
  }
}
