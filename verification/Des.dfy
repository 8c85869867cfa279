/**
 The one-round DES variant of archive entries (src/des.rs).  Blocks are specified as sequences of eight bytes and
 transformed in place in arrays. Bit 0 of a block is the most significant bit of its first byte.
 */
module Des {
  import opened Bytes

  /** The `MASK` table: bit `k` of a byte, counting from the most significant. */
  function Mask(k: nat): byte
    requires k < 8
  {
    if k == 0 then 0x80 else if k == 1 then 0x40 else if k == 2 then 0x20 else if k == 3 then 0x10
    else if k == 4 then 0x08 else if k == 5 then 0x04 else if k == 6 then 0x02 else 0x01
  }

  const INITIAL_PERMUTATION_TABLE: seq<seq<nat>> := [
    [58, 50, 42, 34, 26, 18, 10, 2],
    [60, 52, 44, 36, 28, 20, 12, 4],
    [62, 54, 46, 38, 30, 22, 14, 6],
    [64, 56, 48, 40, 32, 24, 16, 8],
    [57, 49, 41, 33, 25, 17, 9, 1],
    [59, 51, 43, 35, 27, 19, 11, 3],
    [61, 53, 45, 37, 29, 21, 13, 5],
    [63, 55, 47, 39, 31, 23, 15, 7]]

  const FINAL_PERMUTATION_TABLE: seq<seq<nat>> := [
    [40, 8, 48, 16, 56, 24, 64, 32],
    [39, 7, 47, 15, 55, 23, 63, 31],
    [38, 6, 46, 14, 54, 22, 62, 30],
    [37, 5, 45, 13, 53, 21, 61, 29],
    [36, 4, 44, 12, 52, 20, 60, 28],
    [35, 3, 43, 11, 51, 19, 59, 27],
    [34, 2, 42, 10, 50, 18, 58, 26],
    [33, 1, 41, 9, 49, 17, 57, 25]]

  const TRANSPOSITION_TABLE: seq<seq<nat>> := [
    [16, 7, 20, 21],
    [29, 12, 28, 17],
    [1, 15, 23, 26],
    [5, 18, 31, 10],
    [2, 8, 24, 14],
    [32, 27, 3, 9],
    [19, 13, 30, 6],
    [22, 11, 4, 25]]

  const SUBSTITUTION_BOX_TABLE: seq<seq<byte>> := [
    [0xef, 0x03, 0x41, 0xfd, 0xd8, 0x74, 0x1e, 0x47] + [0x26, 0xef, 0xfb, 0x22, 0xb3, 0xd8, 0x84, 0x1e] +
    [0x39, 0xac, 0xa7, 0x60, 0x62, 0xc1, 0xcd, 0xba] + [0x5c, 0x96, 0x90, 0x59, 0x05, 0x3b, 0x7a, 0x85] +
    [0x40, 0xfd, 0x1e, 0xc8, 0xe7, 0x8a, 0x8b, 0x21] + [0xda, 0x43, 0x64, 0x9f, 0x2d, 0x14, 0xb1, 0x72] +
    [0xf5, 0x5b, 0xc8, 0xb6, 0x9c, 0x37, 0x76, 0xec] + [0x39, 0xa0, 0xa3, 0x05, 0x52, 0x6e, 0x0f, 0xd9],
    [0xa7, 0xdd, 0x0d, 0x78, 0x9e, 0x0b, 0xe3, 0x95] + [0x60, 0x36, 0x36, 0x4f, 0xf9, 0x60, 0x5a, 0xa3] +
    [0x11, 0x24, 0xd2, 0x87, 0xc8, 0x52, 0x75, 0xec] + [0xbb, 0xc1, 0x4c, 0xba, 0x24, 0xfe, 0x8f, 0x19] +
    [0xda, 0x13, 0x66, 0xaf, 0x49, 0xd0, 0x90, 0x06] + [0x8c, 0x6a, 0xfb, 0x91, 0x37, 0x8d, 0x0d, 0x78] +
    [0xbf, 0x49, 0x11, 0xf4, 0x23, 0xe5, 0xce, 0x3b] + [0x55, 0xbc, 0xa2, 0x57, 0xe8, 0x22, 0x74, 0xce],
    [0x2c, 0xea, 0xc1, 0xbf, 0x4a, 0x24, 0x1f, 0xc2] + [0x79, 0x47, 0xa2, 0x7c, 0xb6, 0xd9, 0x68, 0x15] +
    [0x80, 0x56, 0x5d, 0x01, 0x33, 0xfd, 0xf4, 0xae] + [0xde, 0x30, 0x07, 0x9b, 0xe5, 0x83, 0x9b, 0x68] +
    [0x49, 0xb4, 0x2e, 0x83, 0x1f, 0xc2, 0xb5, 0x7c] + [0xa2, 0x19, 0xd8, 0xe5, 0x7c, 0x2f, 0x83, 0xda] +
    [0xf7, 0x6b, 0x90, 0xfe, 0xc4, 0x01, 0x5a, 0x97] + [0x61, 0xa6, 0x3d, 0x40, 0x0b, 0x58, 0xe6, 0x3d],
    [0x4d, 0xd1, 0xb2, 0x0f, 0x28, 0xbd, 0xe4, 0x78] + [0xf6, 0x4a, 0x0f, 0x93, 0x8b, 0x17, 0xd1, 0xa4] +
    [0x3a, 0xec, 0xc9, 0x35, 0x93, 0x56, 0x7e, 0xcb] + [0x55, 0x20, 0xa0, 0xfe, 0x6c, 0x89, 0x17, 0x62] +
    [0x17, 0x62, 0x4b, 0xb1, 0xb4, 0xde, 0xd1, 0x87] + [0xc9, 0x14, 0x3c, 0x4a, 0x7e, 0xa8, 0xe2, 0x7d] +
    [0xa0, 0x9f, 0xf6, 0x5c, 0x6a, 0x09, 0x8d, 0xf0] + [0x0f, 0xe3, 0x53, 0x25, 0x95, 0x36, 0x28, 0xcb]]

  // ---------------------------------------------------------------- bits of bytes and blocks

  /** The eight bits of a byte, most significant first. */
  function ByteBits(b: byte): (bits: seq<bool>)
    ensures |bits| == 8
  {
    seq(8, k requires 0 <= k < 8 => b & Mask(k) != 0)
  }

  function Pack(bits: seq<bool>): byte
    requires |bits| == 8
  {
    (if bits[0] then 0x80 else 0) | (if bits[1] then 0x40 else 0) | (if bits[2] then 0x20 else 0) |
    (if bits[3] then 0x10 else 0) | (if bits[4] then 0x08 else 0) | (if bits[5] then 0x04 else 0) |
    (if bits[6] then 0x02 else 0) | (if bits[7] then 0x01 else 0)
  }

  lemma PackByteBits(b: byte)
    ensures Pack(ByteBits(b)) == b
  {
  }

  lemma ByteBitsPack(bits: seq<bool>)
    requires |bits| == 8
    ensures ByteBits(Pack(bits)) == bits
  {
  }

  lemma OrMask(b: byte, k: nat, j: nat)
    requires k < 8 && j < 8
    ensures (b | Mask(k)) & Mask(j) != 0 <==> j == k || b & Mask(j) != 0
  {
  }

  /** ORing a mask sets one bit. */
  lemma SetByteBit(b: byte, k: nat)
    requires k < 8
    ensures ByteBits(b | Mask(k)) == ByteBits(b)[k := true]
  {
    var after := b | Mask(k);
    forall j | 0 <= j < 8
      ensures ByteBits(after)[j] == ByteBits(b)[k := true][j]
    {
      OrMask(b, k, j);
    }
  }

  /** The bits of a sequence of bytes. */
  function Bits(s: seq<byte>): (bits: seq<bool>)
    ensures |bits| == 8 * |s|
  {
    if s == [] then [] else ByteBits(s[0]) + Bits(s[1..])
  }

  function FromBits(bits: seq<bool>): (s: seq<byte>)
    requires |bits| % 8 == 0
    ensures 8 * |s| == |bits|
  {
    if bits == [] then [] else [Pack(bits[..8])] + FromBits(bits[8..])
  }

  lemma {:induction false} BitAt(s: seq<byte>, r: nat, c: nat)
    requires r < |s| && c < 8
    ensures Bits(s)[8 * r + c] == ByteBits(s[r])[c]
  {
    if r > 0 {
      BitAt(s[1..], r - 1, c);
    }
  }

  lemma {:induction false} FromBitsInverse(s: seq<byte>)
    ensures FromBits(Bits(s)) == s
  {
    if s != [] {
      PackByteBits(s[0]);
      assert Bits(s)[..8] == ByteBits(s[0]) && Bits(s)[8..] == Bits(s[1..]);
      FromBitsInverse(s[1..]);
    }
  }

  lemma {:induction false} BitsInverse(bits: seq<bool>)
    requires |bits| % 8 == 0
    ensures Bits(FromBits(bits)) == bits
  {
    if bits != [] {
      ByteBitsPack(bits[..8]);
      assert FromBits(bits)[1..] == FromBits(bits[8..]);
      BitsInverse(bits[8..]);
    }
  }

  lemma {:induction false} BitsAppend(a: seq<byte>, b: seq<byte>)
    ensures Bits(a + b) == Bits(a) + Bits(b)
  {
    if a == [] {
      assert a + b == b;
    } else {
      assert (a + b)[1..] == a[1..] + b;
      BitsAppend(a[1..], b);
    }
  }

  /** Replacing a byte replaces its eight bits. */
  lemma ReplaceByte(s: seq<byte>, r: nat, b: byte)
    requires r < |s|
    ensures Bits(s[r := b]) == Bits(s[..r]) + ByteBits(b) + Bits(s[r + 1..])
  {
    hide ByteBits;
    assert s[r := b] == s[..r] + ([b] + s[r + 1..]);
    BitsAppend(s[..r], [b] + s[r + 1..]);
    BitsAppend([b], s[r + 1..]);
    assert Bits([b]) == ByteBits(b) + Bits([b][1..]);
  }

  /** Setting a mask bit in one byte sets one bit of the whole. */
  lemma SetBit(s: seq<byte>, r: nat, c: nat, b: byte)
    requires r < |s| && c < 8
    requires ByteBits(b) == ByteBits(s[r])[c := true]
    ensures Bits(s[r := b]) == Bits(s)[8 * r + c := true]
  {
    hide ByteBits, Bits;
    ReplaceByte(s, r, b);
    ReplaceByte(s, r, s[r]);
    assert s[r := s[r]] == s;
  }

  lemma {:induction false} ZeroBits(s: seq<byte>)
    requires forall i | 0 <= i < |s| :: s[i] == 0
    ensures forall i | 0 <= i < 8 * |s| :: !Bits(s)[i]
  {
    if s != [] {
      ZeroBits(s[1..]);
    }
  }

  // ---------------------------------------------------------------- bit permutations

  predicate Below8(k: nat) {
    k == 0 || k == 1 || k == 2 || k == 3 || k == 4 || k == 5 || k == 6 || k == 7
  }

  /** The one-based bit position a table of eight rows lists at place `i`. */
  function Entry(t: seq<seq<nat>>, i: nat): nat
    requires i < 64 && |t| == 8 && |t[i / 8]| == 8
  {
    t[i / 8][i % 8]
  }

  /** Eight rows of eight bit positions between 1 and 64. */
  predicate IsTable(t: seq<seq<nat>>) {
    && |t| == 8
    && (forall r | 0 <= r < 8 :: |t[r]| == 8)
    && (forall i | 0 <= i < 64 :: 1 <= Entry(t, i) <= 64)
  }

  /** Bit `i` of the result is the bit of the source the table names at place `i`. */
  function Gather(t: seq<seq<nat>>, bits: seq<bool>): (r: seq<bool>)
    requires IsTable(t) && |bits| == 64
    ensures |r| == 64
  {
    seq(64, i requires 0 <= i < 64 => bits[Entry(t, i) - 1])
  }

  function Permuted(t: seq<seq<nat>>, s: Block8): Block8
    requires IsTable(t)
  {
    FromBits(Gather(t, Bits(s)))
  }

  lemma InitialEntry(r: nat, c: nat)
    requires r < 8 && c < 8
    ensures |INITIAL_PERMUTATION_TABLE| == 8 && |INITIAL_PERMUTATION_TABLE[r]| == 8
    ensures INITIAL_PERMUTATION_TABLE[r][c] == (if r < 4 then 58 + 2 * r else 49 + 2 * r) - 8 * c
  {
    assert Below8(r) && Below8(c);
  }

  lemma FinalEntry(r: nat, c: nat)
    requires r < 8 && c < 8
    ensures |FINAL_PERMUTATION_TABLE| == 8 && |FINAL_PERMUTATION_TABLE[r]| == 8
    ensures FINAL_PERMUTATION_TABLE[r][c] == (if c % 2 == 0 then 40 else 8) - r + 8 * (c / 2)
  {
    assert Below8(r) && Below8(c);
  }

  lemma TablesAreTables()
    ensures IsTable(INITIAL_PERMUTATION_TABLE) && IsTable(FINAL_PERMUTATION_TABLE)
  {
    forall r | 0 <= r < 8
      ensures |INITIAL_PERMUTATION_TABLE[r]| == 8 && |FINAL_PERMUTATION_TABLE[r]| == 8
    {
      assert Below8(r);
    }
    forall i | 0 <= i < 64
      ensures 1 <= Entry(INITIAL_PERMUTATION_TABLE, i) <= 64 && 1 <= Entry(FINAL_PERMUTATION_TABLE, i) <= 64
    {
      InitialEntry(i / 8, i % 8);
      FinalEntry(i / 8, i % 8);
    }
  }

  /** A table whose every entry points at the place where the other points back undoes it. */
  lemma GathersCancel(t: seq<seq<nat>>, back: seq<seq<nat>>, bits: seq<bool>)
    requires IsTable(t) && IsTable(back) && |bits| == 64
    requires forall i | 0 <= i < 64 :: Entry(t, Entry(back, i) - 1) == i + 1
    ensures Gather(back, Gather(t, bits)) == bits
  {
  }

  /** The place an entry of the final table points at, where the initial table points back. */
  lemma FinalPointsBack(r: nat, c: nat) returns (row: nat, column: nat)
    requires r < 8 && c < 8
    ensures row < 8 && column < 8
    ensures |INITIAL_PERMUTATION_TABLE| == |FINAL_PERMUTATION_TABLE| == 8
    ensures |INITIAL_PERMUTATION_TABLE[row]| == |FINAL_PERMUTATION_TABLE[r]| == 8
    ensures FINAL_PERMUTATION_TABLE[r][c] == 8 * row + column + 1
    ensures INITIAL_PERMUTATION_TABLE[row][column] == 8 * r + c + 1
  {
    row, column := (if c % 2 == 0 then 4 else 0) + c / 2, 7 - r;
    FinalEntry(r, c);
    InitialEntry(row, column);
  }

  lemma InitialPointsBack(r: nat, c: nat) returns (row: nat, column: nat)
    requires r < 8 && c < 8
    ensures row < 8 && column < 8
    ensures |INITIAL_PERMUTATION_TABLE| == |FINAL_PERMUTATION_TABLE| == 8
    ensures |INITIAL_PERMUTATION_TABLE[r]| == |FINAL_PERMUTATION_TABLE[row]| == 8
    ensures INITIAL_PERMUTATION_TABLE[r][c] == 8 * row + column + 1
    ensures FINAL_PERMUTATION_TABLE[row][column] == 8 * r + c + 1
  {
    row, column := 7 - c, if r < 4 then 2 * r + 1 else 2 * r - 8;
    InitialEntry(r, c);
    FinalEntry(row, column);
  }

  lemma PositionParts(row: nat, column: nat)
    requires column < 8
    ensures (8 * row + column) / 8 == row && (8 * row + column) % 8 == column
  {
  }

  lemma TablesPointBack(i: nat)
    requires i < 64 && IsTable(INITIAL_PERMUTATION_TABLE) && IsTable(FINAL_PERMUTATION_TABLE)
    ensures Entry(INITIAL_PERMUTATION_TABLE, Entry(FINAL_PERMUTATION_TABLE, i) - 1) == i + 1
    ensures Entry(FINAL_PERMUTATION_TABLE, Entry(INITIAL_PERMUTATION_TABLE, i) - 1) == i + 1
  {
    hide INITIAL_PERMUTATION_TABLE, FINAL_PERMUTATION_TABLE;
    var r, c := i / 8, i % 8;
    var row, column := FinalPointsBack(r, c);
    PositionParts(row, column);
    var row', column' := InitialPointsBack(r, c);
    PositionParts(row', column');
  }

  /** The initial and the final permutation are mutually inverse, on every block. */
  lemma PermutationsAreInverse(s: Block8)
    ensures IsTable(INITIAL_PERMUTATION_TABLE) && IsTable(FINAL_PERMUTATION_TABLE)
    ensures Permuted(FINAL_PERMUTATION_TABLE, Permuted(INITIAL_PERMUTATION_TABLE, s)) == s
    ensures Permuted(INITIAL_PERMUTATION_TABLE, Permuted(FINAL_PERMUTATION_TABLE, s)) == s
  {
    hide Bits, FromBits, Gather;
    TablesAreTables();
    var ip, fp, bits := INITIAL_PERMUTATION_TABLE, FINAL_PERMUTATION_TABLE, Bits(s);
    forall i | 0 <= i < 64
      ensures Entry(ip, Entry(fp, i) - 1) == i + 1 && Entry(fp, Entry(ip, i) - 1) == i + 1
    {
      TablesPointBack(i);
    }
    GathersCancel(ip, fp, bits);
    GathersCancel(fp, ip, bits);
    BitsInverse(Gather(ip, bits));
    BitsInverse(Gather(fp, bits));
    FromBitsInverse(s);
  }

  lemma TestBit(s: seq<byte>, r: nat, c: nat)
    requires r < |s| && c < 8
    ensures s[r] & Mask(c) != 0 <==> Bits(s)[8 * r + c]
  {
    hide Bits, Mask;
    BitAt(s, r, c);
  }

  /** Testing the source bit a table names, and setting the target bit when it is set. */
  lemma CopyBit(src: seq<byte>, j: nat, tmp: seq<byte>, i: nat)
    requires j < 8 * |src| && i < 8 * |tmp|
    ensures src[j / 8] & Mask(j % 8) != 0 <==> Bits(src)[j]
    ensures Bits(tmp[i / 8 := tmp[i / 8] | Mask(i % 8)]) == Bits(tmp)[i := true]
  {
    hide Bits, ByteBits, Mask;
    TestBit(src, j / 8, j % 8);
    SetByteBit(tmp[i / 8], i % 8);
    SetBit(tmp, i / 8, i % 8, tmp[i / 8] | Mask(i % 8));
  }

  function Falses(n: nat): seq<bool> {
    seq(n, _ => false)
  }

  /** The bits of the source that a list of positions names. */
  function Picked(src: Block8, from: seq<nat>): (r: seq<bool>)
    requires forall k | 0 <= k < |from| :: from[k] < 64
    ensures |r| == |from|
  {
    seq(|from|, k requires 0 <= k < |from| => Bits(src)[from[k]])
  }

  /** The loop of the permutations and the transposition: masks ORed one at a time into a cleared block. */
  method CopyBits(src: Block8, from: seq<nat>, start: nat) returns (tmp: Block8)
    requires start + |from| == 64
    requires forall k | 0 <= k < |from| :: from[k] < 64
    ensures Bits(tmp) == Falses(start) + Picked(src, from)
  {
    hide Mask, Bits, ByteBits;
    tmp := seq(8, _ => 0);
    ZeroBits(tmp);
    for i := 0 to |from|
      invariant Bits(tmp) == Falses(start) + Picked(src, from)[..i] + Falses(|from| - i)
    {
      var j, at := from[i], start + i;
      CopyBit(src, j, tmp, at);
      if src[j / 8] & Mask(j % 8) != 0 {
        tmp := tmp[at / 8 := tmp[at / 8] | Mask(at % 8)];
      }
    }
  }

  /** Overwriting a block-long array. */
  method Store(block: array<byte>, contents: Block8)
    requires block.Length == 8
    modifies block
    ensures block[..] == contents
  {
    for i := 0 to 8
      invariant block[..i] == contents[..i]
    {
      block[i] := contents[i];
    }
  }

  /** `initial_permutation` and `final_permutation`. */
  method Permute(block: array<byte>, table: seq<seq<nat>>)
    requires block.Length == 8 && IsTable(table)
    modifies block
    ensures block[..] == Permuted(table, old(block[..]))
  {
    var src: Block8 := block[..];
    var from := seq(64, i requires 0 <= i < 64 => Entry(table, i) - 1);
    var tmp := CopyBits(src, from, 0);
    assert Bits(tmp) == Gather(table, Bits(src));
    FromBitsInverse(tmp);
    Store(block, tmp);
  }

  // ---------------------------------------------------------------- the round function

  type Half = s: seq<byte> | |s| == 4 witness [0, 0, 0, 0]

  /** Six bits from the last bit of `x` on. */
  function LateWindow(x: byte, y: byte): byte {
    ((x << 5) | (y >> 3)) & 0x3f
  }

  /** Six bits up to the first bit of `y`. */
  function EarlyWindow(x: byte, y: byte): byte {
    ((x << 1) | (y >> 7)) & 0x3f
  }

  function Expanded(half: Half): Block8 {
    [LateWindow(half[3], half[0]), EarlyWindow(half[0], half[1]), LateWindow(half[0], half[1]),
     EarlyWindow(half[1], half[2]),
     LateWindow(half[1], half[2]), EarlyWindow(half[2], half[3]), LateWindow(half[2], half[3]),
         EarlyWindow(half[3], half[0])]
  }

  /** Bit `c` of the six: the last bit of `x`, then the first five of `y`. */
  lemma LateWindowBit(x: byte, y: byte, c: nat)
    requires c < 6
    ensures ByteBits(LateWindow(x, y))[2 + c] == if c == 0 then ByteBits(x)[7] else ByteBits(y)[c - 1]
  {
  }

  /** Bit `c` of the six: the last five bits of `x`, then the first of `y`. */
  lemma EarlyWindowBit(x: byte, y: byte, c: nat)
    requires c < 6
    ensures ByteBits(EarlyWindow(x, y))[2 + c] == if c == 5 then ByteBits(y)[0] else ByteBits(x)[3 + c]
  {
  }

  /** Window 2q runs from the last bit of the byte before byte q ... */
  lemma EvenWindow(half: Half, q: nat, before: nat, c: nat)
    requires q < 4 && before == (q + 3) % 4 && c < 6
    ensures ByteBits(Expanded(half)[2 * q])[2 + c] == Bits(half)[if c == 0 then 8 * before + 7 else 8 * q + (c - 1)]
  {
    assert Expanded(half)[2 * q] == LateWindow(half[before], half[q]);
    LateWindowBit(half[before], half[q], c);
    if c == 0 {
      BitAt(half, before, 7);
    } else {
      BitAt(half, q, c - 1);
    }
  }

  /** ... and window 2q+1 to the first bit of the byte after it: each window overlaps its neighbours by two bits. */
  lemma OddWindow(half: Half, q: nat, after: nat, c: nat)
    requires q < 4 && after == (q + 1) % 4 && c < 6
    ensures ByteBits(Expanded(half)[2 * q + 1])[2 + c] == Bits(half)[if c == 5 then 8 * after else 8 * q + (3 + c)]
  {
    assert Expanded(half)[2 * q + 1] == EarlyWindow(half[q], half[after]);
    EarlyWindowBit(half[q], half[after], c);
    if c == 5 {
      BitAt(half, after, 0);
    } else {
      BitAt(half, q, 3 + c);
    }
  }

  method Expansion(block: array<byte>)
    requires block.Length == 8
    modifies block
    ensures block[..] == Expanded(old(block[4..]))
  {
    var s := block[..];
    assert s[4..] == block[4..];
    var tmp: Block8 := [
      LateWindow(s[7], s[4]), EarlyWindow(s[4], s[5]), LateWindow(s[4], s[5]), EarlyWindow(s[5], s[6]),
      LateWindow(s[5], s[6]), EarlyWindow(s[6], s[7]), LateWindow(s[6], s[7]), EarlyWindow(s[7], s[4])];
    Store(block, tmp);
  }

  /** The S-box entry a six-bit window selects. */
  function SubstitutionEntry(i: nat, window: byte): byte
    requires i < 4 && window < 64
  {
    SUBSTITUTION_BOX_TABLE[i][Value(window)]
  }

  predicate IsWindows(s: Block8) {
    forall g | 0 <= g < 8 :: s[g] < 64
  }

  lemma ExpandedIsWindows(half: Half)
    ensures IsWindows(Expanded(half))
  {
  }

  function Substituted(s: Block8): Half
    requires IsWindows(s)
  {
    seq(4, i requires 0 <= i < 4 =>
      (SubstitutionEntry(i, s[2 * i]) & 0xf0) | (SubstitutionEntry(i, s[2 * i + 1]) & 0x0f))
  }

  method SubstitutionBox(block: array<byte>)
    requires block.Length == 8 && IsWindows(block[..])
    modifies block
    ensures block[..] == Substituted(old(block[..])) + [0, 0, 0, 0]
  {
    hide SubstitutionEntry;
    var s: Block8 := block[..];
    var tmp: Block8 := seq(8, _ => 0);
    for i := 0 to 4
      invariant forall k | 0 <= k < i :: tmp[k] == Substituted(s)[k]
      invariant forall k | i <= k < 8 :: tmp[k] == 0
    {
      tmp := tmp[i := (SubstitutionEntry(i, s[i * 2]) & 0xf0) | (SubstitutionEntry(i, s[i * 2 + 1]) & 0x0f)];
    }
    Store(block, tmp);
  }

  function TransposedFrom(i: nat): nat
    requires i < 32
    ensures TransposedFrom(i) < 32
  {
    TranspositionEntry(i / 4, i % 4);
    TRANSPOSITION_TABLE[i / 4][i % 4] - 1
  }

  lemma TranspositionEntry(r: nat, c: nat)
    requires r < 8 && c < 4
    ensures |TRANSPOSITION_TABLE| == 8 && |TRANSPOSITION_TABLE[r]| == 4 && 1 <= TRANSPOSITION_TABLE[r][c] <= 32
  {
    assert Below8(r) && Below8(c);
  }

  lemma LeadingBits(s: Block8)
    ensures Bits(s[..4]) == Bits(s)[..32] && Bits(s[4..]) == Bits(s)[32..]
  {
    BitsAppend(s[..4], s[4..]);
    assert s == s[..4] + s[4..];
  }

  function TransposedBits(half: Half): (bits: seq<bool>)
    ensures |bits| == 32
  {
    seq(32, i requires 0 <= i < 32 => Bits(half)[TransposedFrom(i)])
  }

  /** Bit `i` of the result is the bit of the half the transposition table names. */
  function Transposed(half: Half): Half {
    FromBits(TransposedBits(half))
  }

  /** A block is known from the bits of its two halves. */
  lemma BlockFromBits(s: Block8, first: Half, second: seq<bool>)
    requires |second| == 32 && Bits(s) == Bits(first) + second
    ensures s == first + FromBits(second)
  {
    LeadingBits(s);
    FromBitsInverse(s[..4]);
    FromBitsInverse(s[4..]);
    FromBitsInverse(first);
    assert Bits(s)[..32] == Bits(first) && Bits(s)[32..] == second;
    assert s == s[..4] + s[4..];
  }

  lemma NoBits()
    ensures Bits([0, 0, 0, 0]) == Falses(32)
  {
    ZeroBits([0, 0, 0, 0]);
  }

  /** The transposition reads the first four bytes and leaves its result in the last four. */
  method Transposition(block: array<byte>)
    requires block.Length == 8
    modifies block
    ensures block[..] == [0, 0, 0, 0] + Transposed(old(block[..4]))
  {
    var src: Block8 := block[..];
    var from := seq(32, i requires 0 <= i < 32 => TransposedFrom(i));
    var tmp := CopyBits(src, from, 32);
    LeadingBits(src);
    assert src[..4] == block[..4];
    assert Picked(src, from) == TransposedBits(src[..4]);
    NoBits();
    BlockFromBits(tmp, [0, 0, 0, 0], TransposedBits(src[..4]));
    Store(block, tmp);
  }

  /** What the round XORs into the first half, a function of the second half alone. */
  function RoundMask(half: Half): Half {
    ExpandedIsWindows(half);
    Transposed(Substituted(Expanded(half)))
  }

  function Rounded(s: Block8): Block8 {
    Xor(s[..4], RoundMask(s[4..])) + s[4..]
  }

  /** XORs the last four bytes of `mask` into the first four of the block. */
  method XorFirstHalf(block: array<byte>, mask: array<byte>)
    requires block.Length == mask.Length == 8 && block != mask
    modifies block
    ensures block[..] == Xor(old(block[..4]), old(mask[4..])) + old(block[4..])
  {
    for i := 0 to 4
      invariant block[i..] == old(block[i..])
      invariant forall k | 0 <= k < i :: block[k] == old(block[k]) ^ mask[4 + k]
    {
      block[i] := block[i] ^ mask[4 + i];
    }
  }

  method RoundFunction(block: array<byte>)
    requires block.Length == 8
    modifies block
    ensures block[..] == Rounded(old(block[..]))
  {
    ghost var s: Block8 := block[..];
    ExpandedIsWindows(s[4..]);
    var tmp2 := new byte[8];
    Store(tmp2, block[..]);
    assert tmp2[4..] == s[4..];
    Expansion(tmp2);
    SubstitutionBox(tmp2);
    assert tmp2[..4] == Substituted(Expanded(s[4..]));
    Transposition(tmp2);
    assert tmp2[4..] == RoundMask(s[4..]);
    XorFirstHalf(block, tmp2);
  }

  /** The round is an involution: it changes the first half by a function of the second, which it leaves alone. */
  lemma RoundIsInvolution(s: Block8)
    ensures Rounded(Rounded(s)) == s
  {
    var mask := RoundMask(s[4..]);
    assert Rounded(s)[4..] == s[4..] && Rounded(s)[..4] == Xor(s[..4], mask);
    XorTwice(s[..4], mask);
    assert s == s[..4] + s[4..];
  }

  // ---------------------------------------------------------------- blocks

  /** `decrypt_block`, as a function of the block's bytes. */
  function Transformed(s: Block8): Block8 {
    TablesAreTables();
    Permuted(FINAL_PERMUTATION_TABLE, Rounded(Permuted(INITIAL_PERMUTATION_TABLE, s)))
  }

  /** The block transform decrypts what it encrypts. */
  lemma TransformIsInvolution(s: Block8)
    ensures Transformed(Transformed(s)) == s
  {
    TablesAreTables();
    var mixed := Permuted(INITIAL_PERMUTATION_TABLE, s);
    PermutationsAreInverse(Rounded(mixed));
    PermutationsAreInverse(s);
    RoundIsInvolution(mixed);
  }

  method DecryptBlock(src: array<byte>, index: nat)
    requires index + 8 <= src.Length
    modifies src
    ensures src[..] == Spliced(old(src[..]), index, Transformed(old(src[..])[index..index + 8]))
  {
    TablesAreTables();
    var block := new byte[8];
    Store(block, src[index..index + 8]);
    Permute(block, INITIAL_PERMUTATION_TABLE);
    RoundFunction(block);
    Permute(block, FINAL_PERMUTATION_TABLE);
    StoreAt(src, index, block[..]);
  }

  // ---------------------------------------------------------------- the byte shuffle

  const SHUFFLE_LIST: seq<byte> := [
    0x00, 0x2b, 0x6c, 0x80, 0x01, 0x68, 0x48, 0x77, 0x60, 0xff, 0xb9, 0xc0, 0xfe, 0xeb]

  const SHUFFLE_PERM: seq<nat> := [3, 4, 6, 0, 1, 2, 5]

  /** The listed bytes swap with their partners; every other byte stays. */
  function SwappedByte(b: byte): byte {
    if b == 0x00 then 0x2b else if b == 0x2b then 0x00
    else if b == 0x6c then 0x80 else if b == 0x80 then 0x6c
    else if b == 0x01 then 0x68 else if b == 0x68 then 0x01
    else if b == 0x48 then 0x77 else if b == 0x77 then 0x48
    else if b == 0x60 then 0xff else if b == 0xff then 0x60
    else if b == 0xb9 then 0xc0 else if b == 0xc0 then 0xb9
    else if b == 0xfe then 0xeb else if b == 0xeb then 0xfe
    else b
  }

  lemma SwapIsInvolution(b: byte)
    ensures SwappedByte(SwappedByte(b)) == b
  {
  }

  lemma ListedPair(m: nat)
    requires m < 7
    ensures |SHUFFLE_LIST| == 14
    ensures SwappedByte(SHUFFLE_LIST[2 * m]) == SHUFFLE_LIST[2 * m + 1]
    ensures SwappedByte(SHUFFLE_LIST[2 * m + 1]) == SHUFFLE_LIST[2 * m]
  {
    assert Below8(m);
  }

  lemma UnlistedStays(b: byte)
    ensures |SHUFFLE_LIST| == 14
    ensures b !in SHUFFLE_LIST ==> SwappedByte(b) == b
  {
    assert SHUFFLE_LIST[0] == 0x00 && SHUFFLE_LIST[1] == 0x2b && SHUFFLE_LIST[2] == 0x6c && SHUFFLE_LIST[3] == 0x80;
    assert SHUFFLE_LIST[4] == 0x01 && SHUFFLE_LIST[5] == 0x68 && SHUFFLE_LIST[6] == 0x48 && SHUFFLE_LIST[7] == 0x77;
    assert SHUFFLE_LIST[8] == 0x60 && SHUFFLE_LIST[9] == 0xff && SHUFFLE_LIST[10] == 0xb9 && SHUFFLE_LIST[11] == 0xc0;
    assert SHUFFLE_LIST[12] == 0xfe && SHUFFLE_LIST[13] == 0xeb;
  }

  /** A table, looked up by `index`, that applies `f` to the listed elements and leaves the others. */
  ghost predicate Substitutes<T(!new)>(table: seq<T>, index: T -> nat, f: T -> T, listed: seq<T>) {
    forall c: T :: index(c) < |table| && table[index(c)] == if c in listed then f(c) else c
  }

  /** Swapping two more entries lists two more elements. */
  lemma SubstituteSwap<T(!new)>(table: seq<T>, index: T -> nat, f: T -> T, listed: seq<T>, a: T, b: T)
    requires forall x, y :: index(x) == index(y) ==> x == y
    requires Substitutes(table, index, f, listed) && f(a) == b && f(b) == a
    ensures Substitutes(table[index(a) := b][index(b) := a], index, f, listed + [a, b])
  {
    var after := table[index(a) := b][index(b) := a];
    forall c: T
      ensures index(c) < |after| && after[index(c)] == if c in listed + [a, b] then f(c) else c
    {
      assert c in listed + [a, b] <==> c in listed || c == a || c == b;
    }
  }

  lemma ValueIsInjective()
    ensures forall a, b :: Value(a) == Value(b) ==> a == b
  {
    forall a, b | Value(a) == Value(b)
      ensures a == b
    {
      ValueInjective(a, b);
    }
  }

  method IdentityTable() returns (out: seq<byte>)
    ensures |out| == 256
    ensures forall b: byte :: out[Value(b)] == b
  {
    out := [];
    for i := 0 to 256
      invariant |out| == i
      invariant forall k | 0 <= k < i :: out[k] == FromValue(k)
    {
      out := out + [FromValue(i)];
    }
    forall b: byte
      ensures out[Value(b)] == b
    {
      FromValueRoundTrip(b);
    }
  }

  /** The 256-entry substitution table, built from the list of pairs. */
  method ShuffleDecTable() returns (out: seq<byte>)
    ensures |out| == 256
    ensures forall b: byte :: out[Value(b)] == SwappedByte(b)
  {
    hide Value, SwappedByte, SHUFFLE_LIST;
    UnlistedStays(0);
    out := IdentityTable();
    ValueIsInjective();
    for m := 0 to 7
      invariant |out| == 256
      invariant Substitutes(out, Value, SwappedByte, SHUFFLE_LIST[..2 * m])
    {
      var a, b := SHUFFLE_LIST[2 * m], SHUFFLE_LIST[2 * m + 1];
      ListedPair(m);
      SubstituteSwap(out, Value, SwappedByte, SHUFFLE_LIST[..2 * m], a, b);
      assert SHUFFLE_LIST[..2 * (m + 1)] == SHUFFLE_LIST[..2 * m] + [a, b];
      out := out[Value(a) := b];
      out := out[Value(b) := a];
    }
    assert SHUFFLE_LIST[..2 * 7] == SHUFFLE_LIST;
    forall b: byte
      ensures out[Value(b)] == SwappedByte(b)
    {
      UnlistedStays(b);
    }
  }

  function Shuffled(s: Block8): Block8 {
    [s[3], s[4], s[6], s[0], s[1], s[2], s[5], SwappedByte(s[7])]
  }

  function Unshuffled(s: Block8): Block8 {
    [s[3], s[4], s[5], s[0], s[1], s[6], s[2], SwappedByte(s[7])]
  }

  lemma ShuffleInverses(s: Block8)
    ensures Shuffled(Unshuffled(s)) == s
    ensures Unshuffled(Shuffled(s)) == s
  {
    SwapIsInvolution(s[7]);
  }

  method ShuffleDec(src: array<byte>, index: nat, table: seq<byte>)
    requires index + 8 <= src.Length
    requires |table| == 256 && forall b: byte :: table[Value(b)] == SwappedByte(b)
    modifies src
    ensures src[..] == Spliced(old(src[..]), index, Shuffled(old(src[..])[index..index + 8]))
  {
    hide SwappedByte, Value;
    var s: Block8 := src[index..index + 8];
    var tmp: Block8 := seq(8, _ => 0);
    for i := 0 to 7
      invariant forall k | 0 <= k < i :: tmp[k] == s[SHUFFLE_PERM[k]]
    {
      tmp := tmp[i := s[SHUFFLE_PERM[i]]];
    }
    tmp := tmp[7 := table[Value(s[7])]];
    assert tmp[0] == s[3] && tmp[1] == s[4] && tmp[2] == s[6] && tmp[3] == s[0] && tmp[4] == s[1] && tmp[5] == s[2];
    assert tmp == Shuffled(s);
    StoreAt(src, index, tmp);
  }

  method ShuffleEnc(src: array<byte>, index: nat, table: seq<byte>)
    requires index + 8 <= src.Length
    requires |table| == 256 && forall b: byte :: table[Value(b)] == SwappedByte(b)
    modifies src
    ensures src[..] == Spliced(old(src[..]), index, Unshuffled(old(src[..])[index..index + 8]))
  {
    hide SwappedByte, Value;
    var s: Block8 := src[index..index + 8];
    var tmp: Block8 := seq(8, _ => 0);
    for i := 0 to 7
      invariant forall k | 0 <= k < i :: tmp[SHUFFLE_PERM[k]] == s[k]
    {
      tmp := tmp[SHUFFLE_PERM[i] := s[i]];
    }
    tmp := tmp[7 := table[Value(s[7])]];
    assert tmp[SHUFFLE_PERM[0]] == s[0] && tmp[SHUFFLE_PERM[1]] == s[1] && tmp[SHUFFLE_PERM[2]] == s[2];
    assert tmp[SHUFFLE_PERM[3]] == s[3] && tmp[SHUFFLE_PERM[4]] == s[4] && tmp[SHUFFLE_PERM[5]] == s[5];
    assert tmp[SHUFFLE_PERM[6]] == s[6];
    assert tmp == Unshuffled(s);
    StoreAt(src, index, tmp);
  }

  // ---------------------------------------------------------------- the block schedule of mixed mode

  /** How many decimal digits `to_string` writes. */
  function DecimalDigits(n: nat): (d: nat)
    ensures d >= 1
  {
    if n < 10 then 1 else 1 + DecimalDigits(n / 10)
  }

  function CycleFor(entryLength: nat): (cycle: nat)
    ensures cycle >= 1
  {
    var digits := DecimalDigits(entryLength);
    if digits < 3 then 1
    else if digits < 5 then digits + 1
    else if digits < 7 then digits + 9
    else digits + 15
  }

  datatype Action = Transform | Shuffle | Keep

  /** How many multiples of `cycle` lie below `i`. */
  function Multiples(i: nat, cycle: nat): nat
    requires cycle >= 1
  {
    (i + cycle - 1) / cycle
  }

  /** How many of blocks 20 to i-1 the transform skips. */
  function Skipped(i: nat, cycle: nat): int
    requires cycle >= 1 && i >= 20
  {
    i - 20 - (Multiples(i, cycle) - Multiples(20, cycle))
  }

  /**
   What mixed mode does to block `i`, in closed form: the first twenty blocks and every `cycle`-th one are transformed;
   of the others, every seventh is shuffled, except the first of all.
   */
  function ActionAt(i: nat, cycle: nat): Action
    requires cycle >= 1
  {
    if i < 20 || i % cycle == 0 then Transform
    else if Skipped(i, cycle) != 0 && Skipped(i, cycle) % 7 == 0 then Shuffle
    else Keep
  }

  lemma DivisionStep(i: nat, cycle: nat)
    requires cycle >= 1
    ensures i % cycle == 0 ==> (i + cycle) / cycle == (i + cycle - 1) / cycle + 1
    ensures i % cycle != 0 ==> (i + cycle) / cycle == (i + cycle - 1) / cycle
  {
    var q, r := i / cycle, i % cycle;
    assert i == q * cycle + r;
    if r == 0 {
      QuotientIs(i + cycle, cycle, q + 1, 0);
      QuotientIs(i + cycle - 1, cycle, q, cycle - 1);
    } else {
      QuotientIs(i + cycle, cycle, q + 1, r);
      QuotientIs(i + cycle - 1, cycle, q + 1, r - 1);
    }
  }

  lemma AtLeastOne(k: int, d: nat)
    requires k >= 1
    ensures k * d >= d
  {
  }

  lemma QuotientIs(n: nat, d: nat, q: nat, r: nat)
    requires d >= 1 && r < d && n == q * d + r
    ensures n / d == q
  {
    var q', r' := n / d, n % d;
    assert n == q' * d + r';
    assert q * d - q' * d == (q - q') * d;
    if q' < q {
      AtLeastOne(q - q', d);
    } else if q < q' {
      assert (q' - q) * d == -((q - q') * d);
      AtLeastOne(q' - q, d);
    }
  }

  /** The running counter of the loop moves exactly on the blocks the transform skips. */
  lemma SkippedStep(i: nat, cycle: nat)
    requires cycle >= 1 && i >= 20
    ensures Skipped(i + 1, cycle) == Skipped(i, cycle) + if i % cycle == 0 then 0 else 1
  {
    DivisionStep(i, cycle);
  }

  // ---------------------------------------------------------------- whole buffers

  datatype Direction = Decode | Encode

  function Reverse(direction: Direction): Direction {
    if direction.Decode? then Encode else Decode
  }

  function Acted(direction: Direction, action: Action, block: Block8): Block8 {
    match action
    case Transform => Transformed(block)
    case Shuffle => if direction.Decode? then Shuffled(block) else Unshuffled(block)
    case Keep => block
  }

  lemma ActionsInvert(direction: Direction, action: Action, block: Block8)
    ensures Acted(Reverse(direction), action, Acted(direction, action, block)) == block
  {
    TransformIsInvolution(block);
    ShuffleInverses(block);
  }

  function Block(s: seq<byte>, k: nat): Block8
    requires 8 * k + 8 <= |s|
  {
    s[8 * k..8 * k + 8]
  }

  /** The buffer after `act` was applied to each of its first `n` blocks. */
  function Walked(act: (nat, Block8) -> Block8, s: seq<byte>, n: nat): (r: seq<byte>)
    requires 8 * n <= |s|
    ensures |r| == |s|
  {
    if n == 0 then s
    else
      var before := Walked(act, s, n - 1);
      Spliced(before, 8 * (n - 1), act(n - 1, Block(before, n - 1)))
  }

  /** Block by block, the walk is the action; past its blocks nothing changes. */
  lemma {:induction false} WalkedBlocks(act: (nat, Block8) -> Block8, s: seq<byte>, n: nat)
    requires 8 * n <= |s|
    ensures forall k | 0 <= k < n :: Block(Walked(act, s, n), k) == act(k, Block(s, k))
    ensures Walked(act, s, n)[8 * n..] == s[8 * n..]
  {
    if n > 0 {
      WalkedBlocks(act, s, n - 1);
      var before, after := Walked(act, s, n - 1), Walked(act, s, n);
      assert Block(before, n - 1) == before[8 * (n - 1)..][..8] == s[8 * (n - 1)..][..8] == Block(s, n - 1);
      forall k | 0 <= k < n
        ensures Block(after, k) == act(k, Block(s, k))
      {
        if k < n - 1 {
          assert Block(after, k) == Block(before, k);
        }
      }
      assert after[8 * n..] == before[8 * (n - 1)..][8..];
      assert s[8 * n..] == s[8 * (n - 1)..][8..];
    }
  }

  lemma EqualByBlocks(a: seq<byte>, b: seq<byte>, n: nat)
    requires |a| == |b| && 8 * n <= |a|
    requires forall k | 0 <= k < n :: Block(a, k) == Block(b, k)
    requires a[8 * n..] == b[8 * n..]
    ensures a == b
  {
    forall i | 0 <= i < |a|
      ensures a[i] == b[i]
    {
      if i < 8 * n {
        assert a[i] == Block(a, i / 8)[i % 8] && b[i] == Block(b, i / 8)[i % 8];
      } else {
        assert a[i] == a[8 * n..][i - 8 * n] && b[i] == b[8 * n..][i - 8 * n];
      }
    }
  }

  /** Walking again with an action that undoes the first restores the buffer. */
  lemma WalkBack(act: (nat, Block8) -> Block8, undo: (nat, Block8) -> Block8, s: seq<byte>, n: nat)
    requires 8 * n <= |s|
    requires forall k: nat, b: Block8 :: undo(k, act(k, b)) == b
    ensures Walked(undo, Walked(act, s, n), n) == s
  {
    hide Block;
    var there := Walked(act, s, n);
    WalkedBlocks(act, s, n);
    WalkedBlocks(undo, there, n);
    EqualByBlocks(Walked(undo, there, n), s, n);
  }

  /** The action mixed mode schedules for each block. */
  function Scheduled(direction: Direction, cycle: nat): (nat, Block8) -> Block8
    requires cycle >= 1
  {
    (k: nat, block: Block8) => Acted(direction, ActionAt(k, cycle), block)
  }

  lemma SchedulesInvert(direction: Direction, cycle: nat)
    requires cycle >= 1
    ensures forall k: nat, b: Block8 :: Scheduled(Reverse(direction), cycle)(k, Scheduled(direction, cycle)(k, b)) == b
  {
    forall k: nat, b: Block8
      ensures Scheduled(Reverse(direction), cycle)(k, Scheduled(direction, cycle)(k, b)) == b
    {
      ActionsInvert(direction, ActionAt(k, cycle), b);
    }
  }

  function Min(a: nat, b: nat): nat {
    if a <= b then a else b
  }

  /** The whole blocks both the stated length and the buffer hold. */
  function BlockCount(length: nat, available: nat): (n: nat)
    ensures 8 * n <= available && 8 * n <= length
  {
    Min(length, available) / 8
  }

  /** Encryption mode 0, in either direction. */
  function Mixed(direction: Direction, s: seq<byte>, length: nat, entryLength: nat): (r: seq<byte>)
    ensures |r| == |s|
  {
    Walked(Scheduled(direction, CycleFor(entryLength)), s, BlockCount(length, |s|))
  }

  function TransformEach(): (nat, Block8) -> Block8 {
    (k: nat, block: Block8) => Transformed(block)
  }

  /** Encryption mode 1, which is its own inverse. */
  function HeaderMode(s: seq<byte>, length: nat): (r: seq<byte>)
    ensures |r| == |s|
  {
    Walked(TransformEach(), s, Min(20, BlockCount(length, |s|)))
  }

  /** Mixed-mode decoding and encoding undo each other both ways, whatever the lengths. */
  lemma MixedModeRoundTrip(s: seq<byte>, length: nat, entryLength: nat)
    ensures Mixed(Decode, Mixed(Encode, s, length, entryLength), length, entryLength) == s
    ensures Mixed(Encode, Mixed(Decode, s, length, entryLength), length, entryLength) == s
  {
    var cycle, n := CycleFor(entryLength), BlockCount(length, |s|);
    SchedulesInvert(Encode, cycle);
    SchedulesInvert(Decode, cycle);
    WalkBack(Scheduled(Encode, cycle), Scheduled(Decode, cycle), s, n);
    WalkBack(Scheduled(Decode, cycle), Scheduled(Encode, cycle), s, n);
  }

  /** What mixed mode does to each block. */
  lemma MixedModeBlocks(direction: Direction, s: seq<byte>, length: nat, entryLength: nat, k: nat)
    requires k < BlockCount(length, |s|)
    ensures Block(Mixed(direction, s, length, entryLength), k) ==
            Acted(direction, ActionAt(k, CycleFor(entryLength)), Block(s, k))
  {
    WalkedBlocks(Scheduled(direction, CycleFor(entryLength)), s, BlockCount(length, |s|));
  }

  /** Mixed mode never touches what lies behind its last whole block, nor anything when there is none. */
  lemma MixedModeTail(direction: Direction, s: seq<byte>, length: nat, entryLength: nat)
    ensures var n := BlockCount(length, |s|); Mixed(direction, s, length, entryLength)[8 * n..] == s[8 * n..]
  {
    WalkedBlocks(Scheduled(direction, CycleFor(entryLength)), s, BlockCount(length, |s|));
  }

  lemma TransformEachInverts()
    ensures forall k: nat, b: Block8 :: TransformEach()(k, TransformEach()(k, b)) == b
  {
    forall k: nat, b: Block8
      ensures TransformEach()(k, TransformEach()(k, b)) == b
    {
      TransformIsInvolution(b);
    }
  }

  lemma HeaderModeInvolution(s: seq<byte>, length: nat)
    ensures HeaderMode(HeaderMode(s, length), length) == s
  {
    TransformEachInverts();
    WalkBack(TransformEach(), TransformEach(), s, Min(20, BlockCount(length, |s|)));
  }

  /** What header mode does to each block. */
  lemma HeaderModeBlocks(s: seq<byte>, length: nat, k: nat)
    requires k < BlockCount(length, |s|)
    ensures Block(HeaderMode(s, length), k) == if k < 20 then Transformed(Block(s, k)) else Block(s, k)
  {
    hide Transformed;
    var n := Min(20, BlockCount(length, |s|));
    WalkedBlocks(TransformEach(), s, n);
    if k >= 20 {
      var r := HeaderMode(s, length);
      assert Block(r, k) == r[8 * n..][8 * (k - n)..8 * (k - n) + 8] == s[8 * n..][8 * (k - n)..8 * (k - n) + 8];
    }
  }

  lemma HeaderModeTail(s: seq<byte>, length: nat)
    ensures var n := BlockCount(length, |s|); HeaderMode(s, length)[8 * n..] == s[8 * n..]
  {
    hide Transformed;
    var m, n := Min(20, BlockCount(length, |s|)), BlockCount(length, |s|);
    WalkedBlocks(TransformEach(), s, m);
    assert HeaderMode(s, length)[8 * n..] == HeaderMode(s, length)[8 * m..][8 * (n - m)..];
    assert s[8 * n..] == s[8 * m..][8 * (n - m)..];
  }

  /** One block of the mixed schedule that is transformed. */
  method TransformScheduled(direction: Direction, src: array<byte>, i: nat, cycle: nat, ghost s: seq<byte>)
    requires cycle >= 1 && 8 * i + 8 <= src.Length == |s| && ActionAt(i, cycle).Transform?
    requires src[..] == Walked(Scheduled(direction, cycle), s, i)
    modifies src
    ensures src[..] == Walked(Scheduled(direction, cycle), s, i + 1)
  {
    hide Transformed, Skipped;
    DecryptBlock(src, i * 8);
  }

  method ShuffleScheduled(direction: Direction, src: array<byte>, i: nat, cycle: nat, table: seq<byte>,
                          ghost s: seq<byte>)
    requires cycle >= 1 && 8 * i + 8 <= src.Length == |s| && ActionAt(i, cycle).Shuffle?
    requires src[..] == Walked(Scheduled(direction, cycle), s, i)
    requires |table| == 256 && forall b: byte :: table[Value(b)] == SwappedByte(b)
    modifies src
    ensures src[..] == Walked(Scheduled(direction, cycle), s, i + 1)
  {
    hide Shuffled, Unshuffled, Transformed, Skipped;
    if direction.Decode? {
      ShuffleDec(src, i * 8, table);
    } else {
      ShuffleEnc(src, i * 8, table);
    }
  }

  lemma KeepScheduled(direction: Direction, s: seq<byte>, i: nat, cycle: nat)
    requires cycle >= 1 && 8 * i + 8 <= |s| && ActionAt(i, cycle).Keep?
    ensures Walked(Scheduled(direction, cycle), s, i + 1) == Walked(Scheduled(direction, cycle), s, i)
  {
    hide Skipped, Transformed;
    var before := Walked(Scheduled(direction, cycle), s, i);
    assert Spliced(before, 8 * i, Block(before, i)) == before;
  }

  /** `decode_full` and `encode_full`, which differ in the shuffle they call. */
  method WalkMixed(direction: Direction, src: array<byte>, length: nat, entryLength: nat)
    modifies src
    ensures src[..] == Mixed(direction, old(src[..]), length, entryLength)
  {
    hide Transformed;
    var cycle := CycleFor(entryLength);
    var nblocks := BlockCount(length, src.Length);
    var table := ShuffleDecTable();
    ghost var s := src[..];
    for i := 0 to Min(20, nblocks)
      invariant src[..] == Walked(Scheduled(direction, cycle), s, i)
    {
      TransformScheduled(direction, src, i, cycle, s);
    }
    if 20 < nblocks {
      var j := -1;
      for i := 20 to nblocks
        invariant src[..] == Walked(Scheduled(direction, cycle), s, i)
        invariant j == Skipped(i, cycle) - 1
      {
        SkippedStep(i, cycle);
        if i % cycle == 0 {
          TransformScheduled(direction, src, i, cycle, s);
          continue;
        }
        j := j + 1;
        if j != 0 && j % 7 == 0 {
          ShuffleScheduled(direction, src, i, cycle, table, s);
        } else {
          KeepScheduled(direction, s, i, cycle);
        }
      }
    }
  }

  method DecodeFull(src: array<byte>, length: nat, entryLength: nat)
    modifies src
    ensures src[..] == Mixed(Decode, old(src[..]), length, entryLength)
  {
    WalkMixed(Decode, src, length, entryLength);
  }

  method EncodeFull(src: array<byte>, length: nat, entryLength: nat)
    modifies src
    ensures src[..] == Mixed(Encode, old(src[..]), length, entryLength)
  {
    WalkMixed(Encode, src, length, entryLength);
  }

  method DecodeHeader(src: array<byte>, length: nat)
    modifies src
    ensures src[..] == HeaderMode(old(src[..]), length)
  {
    hide Transformed;
    ghost var s := src[..];
    for i := 0 to Min(20, BlockCount(length, src.Length))
      invariant src[..] == Walked(TransformEach(), s, i)
    {
      TransformEachStep(src, i, s);
    }
  }

  method TransformEachStep(src: array<byte>, i: nat, ghost s: seq<byte>)
    requires 8 * i + 8 <= src.Length == |s|
    requires src[..] == Walked(TransformEach(), s, i)
    modifies src
    ensures src[..] == Walked(TransformEach(), s, i + 1)
  {
    hide Transformed;
    DecryptBlock(src, i * 8);
  }

  /** On a slice of exactly one block, header mode is the block transform. */
  lemma HeaderModeOfBlock(s: Block8)
    ensures HeaderMode(s, 8) == Transformed(s)
  {
    hide Transformed;
    var act := TransformEach();
    assert Block(s, 0) == s;
    assert Walked(act, s, 1) == Spliced(s, 0, act(0, s)) == act(0, s);
  }
}
