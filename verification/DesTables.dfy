/** The tables of the block transform are those of the Data Encryption Standard (src/des.rs). */
module DesTables {
  import opened Bytes
  import opened Des
  import opened DesReference

  // The rows of the eight S-boxes of FIPS 46-3: S32 is the second row of the third box.

  const S11: seq<byte> := [14, 4, 13, 1, 2, 15, 11, 8, 3, 10, 6, 12, 5, 9, 0, 7]
  const S12: seq<byte> := [0, 15, 7, 4, 14, 2, 13, 1, 10, 6, 12, 11, 9, 5, 3, 8]
  const S13: seq<byte> := [4, 1, 14, 8, 13, 6, 2, 11, 15, 12, 9, 7, 3, 10, 5, 0]
  const S14: seq<byte> := [15, 12, 8, 2, 4, 9, 1, 7, 5, 11, 3, 14, 10, 0, 6, 13]
  const S21: seq<byte> := [15, 1, 8, 14, 6, 11, 3, 4, 9, 7, 2, 13, 12, 0, 5, 10]
  const S22: seq<byte> := [3, 13, 4, 7, 15, 2, 8, 14, 12, 0, 1, 10, 6, 9, 11, 5]
  const S23: seq<byte> := [0, 14, 7, 11, 10, 4, 13, 1, 5, 8, 12, 6, 9, 3, 2, 15]
  const S24: seq<byte> := [13, 8, 10, 1, 3, 15, 4, 2, 11, 6, 7, 12, 0, 5, 14, 9]
  const S31: seq<byte> := [10, 0, 9, 14, 6, 3, 15, 5, 1, 13, 12, 7, 11, 4, 2, 8]
  const S32: seq<byte> := [13, 7, 0, 9, 3, 4, 6, 10, 2, 8, 5, 14, 12, 11, 15, 1]
  const S33: seq<byte> := [13, 6, 4, 9, 8, 15, 3, 0, 11, 1, 2, 12, 5, 10, 14, 7]
  const S34: seq<byte> := [1, 10, 13, 0, 6, 9, 8, 7, 4, 15, 14, 3, 11, 5, 2, 12]
  const S41: seq<byte> := [7, 13, 14, 3, 0, 6, 9, 10, 1, 2, 8, 5, 11, 12, 4, 15]
  const S42: seq<byte> := [13, 8, 11, 5, 6, 15, 0, 3, 4, 7, 2, 12, 1, 10, 14, 9]
  const S43: seq<byte> := [10, 6, 9, 0, 12, 11, 7, 13, 15, 1, 3, 14, 5, 2, 8, 4]
  const S44: seq<byte> := [3, 15, 0, 6, 10, 1, 13, 8, 9, 4, 5, 11, 12, 7, 2, 14]
  const S51: seq<byte> := [2, 12, 4, 1, 7, 10, 11, 6, 8, 5, 3, 15, 13, 0, 14, 9]
  const S52: seq<byte> := [14, 11, 2, 12, 4, 7, 13, 1, 5, 0, 15, 10, 3, 9, 8, 6]
  const S53: seq<byte> := [4, 2, 1, 11, 10, 13, 7, 8, 15, 9, 12, 5, 6, 3, 0, 14]
  const S54: seq<byte> := [11, 8, 12, 7, 1, 14, 2, 13, 6, 15, 0, 9, 10, 4, 5, 3]
  const S61: seq<byte> := [12, 1, 10, 15, 9, 2, 6, 8, 0, 13, 3, 4, 14, 7, 5, 11]
  const S62: seq<byte> := [10, 15, 4, 2, 7, 12, 9, 5, 6, 1, 13, 14, 0, 11, 3, 8]
  const S63: seq<byte> := [9, 14, 15, 5, 2, 8, 12, 3, 7, 0, 4, 10, 1, 13, 11, 6]
  const S64: seq<byte> := [4, 3, 2, 12, 9, 5, 15, 10, 11, 14, 1, 7, 6, 0, 8, 13]
  const S71: seq<byte> := [4, 11, 2, 14, 15, 0, 8, 13, 3, 12, 9, 7, 5, 10, 6, 1]
  const S72: seq<byte> := [13, 0, 11, 7, 4, 9, 1, 10, 14, 3, 5, 12, 2, 15, 8, 6]
  const S73: seq<byte> := [1, 4, 11, 13, 12, 3, 7, 14, 10, 15, 6, 8, 0, 5, 9, 2]
  const S74: seq<byte> := [6, 11, 13, 8, 1, 4, 10, 7, 9, 5, 0, 15, 14, 2, 3, 12]
  const S81: seq<byte> := [13, 2, 8, 4, 6, 15, 11, 1, 10, 9, 3, 14, 5, 0, 12, 7]
  const S82: seq<byte> := [1, 15, 13, 8, 10, 3, 7, 4, 12, 5, 6, 11, 0, 14, 9, 2]
  const S83: seq<byte> := [7, 11, 4, 1, 9, 12, 14, 2, 0, 6, 10, 13, 15, 3, 5, 8]
  const S84: seq<byte> := [2, 1, 14, 7, 4, 10, 8, 13, 15, 12, 9, 0, 3, 5, 6, 11]

  /** A row of a box. */
  function BoxRow(g: nat, row: nat): (entries: seq<byte>)
    requires g < 8 && row < 4
    ensures |entries| == 16
  {
    if g == 0 then if row == 0 then S11 else if row == 1 then S12 else if row == 2 then S13 else S14
    else if g == 1 then if row == 0 then S21 else if row == 1 then S22 else if row == 2 then S23 else S24
    else if g == 2 then if row == 0 then S31 else if row == 1 then S32 else if row == 2 then S33 else S34
    else if g == 3 then if row == 0 then S41 else if row == 1 then S42 else if row == 2 then S43 else S44
    else if g == 4 then if row == 0 then S51 else if row == 1 then S52 else if row == 2 then S53 else S54
    else if g == 5 then if row == 0 then S61 else if row == 1 then S62 else if row == 2 then S63 else S64
    else if g == 6 then if row == 0 then S71 else if row == 1 then S72 else if row == 2 then S73 else S74
    else if row == 0 then S81 else if row == 1 then S82 else if row == 2 then S83 else S84
  }

  /** Two entries in a byte. */
  function Pack(a: byte, b: byte): byte {
    (a << 4) | (b & 0x0f)
  }

  /** A byte of packed table `k` holds the entries of two boxes. */
  predicate Packs(k: nat, row: nat, column: nat)
    requires k < 4 && row < 4 && column < 16
  {
    SUBSTITUTION_BOX_TABLE[k][32 * (row / 2) + 2 * column + row % 2] ==
    Pack(BoxRow(2 * k, row)[column], BoxRow(2 * k + 1, row)[column])
  }

  /** Sixteen entries of table `k` from `at`: two rows of each of two boxes, from column `c`. */
  predicate PacksRows(k: nat, at: nat, a: seq<byte>, b: seq<byte>, a2: seq<byte>, b2: seq<byte>, c: nat) {
    && k < |SUBSTITUTION_BOX_TABLE| && at + 16 <= |SUBSTITUTION_BOX_TABLE[k]| && c + 8 <= |a| == |b| == |a2| == |b2|
    && var t := SUBSTITUTION_BOX_TABLE[k];
       && t[at] == Pack(a[c], b[c]) && t[at + 1] == Pack(a2[c], b2[c])
       && t[at + 2] == Pack(a[c + 1], b[c + 1]) && t[at + 3] == Pack(a2[c + 1], b2[c + 1])
       && t[at + 4] == Pack(a[c + 2], b[c + 2]) && t[at + 5] == Pack(a2[c + 2], b2[c + 2])
       && t[at + 6] == Pack(a[c + 3], b[c + 3]) && t[at + 7] == Pack(a2[c + 3], b2[c + 3])
       && t[at + 8] == Pack(a[c + 4], b[c + 4]) && t[at + 9] == Pack(a2[c + 4], b2[c + 4])
       && t[at + 10] == Pack(a[c + 5], b[c + 5]) && t[at + 11] == Pack(a2[c + 5], b2[c + 5])
       && t[at + 12] == Pack(a[c + 6], b[c + 6]) && t[at + 13] == Pack(a2[c + 6], b2[c + 6])
       && t[at + 14] == Pack(a[c + 7], b[c + 7]) && t[at + 15] == Pack(a2[c + 7], b2[c + 7])
  }

  lemma Part11()
    ensures PacksRows(0, 0, S11, S21, S12, S22, 0)
  {
    var t := SUBSTITUTION_BOX_TABLE[0];
    assert t[0] == 0xef && t[1] == 0x03 && t[2] == 0x41 && t[3] == 0xfd;
    assert t[4] == 0xd8 && t[5] == 0x74 && t[6] == 0x1e && t[7] == 0x47;
    assert t[8] == 0x26 && t[9] == 0xef && t[10] == 0xfb && t[11] == 0x22;
    assert t[12] == 0xb3 && t[13] == 0xd8 && t[14] == 0x84 && t[15] == 0x1e;
  }

  lemma Part12()
    ensures PacksRows(0, 16, S11, S21, S12, S22, 8)
  {
    var t := SUBSTITUTION_BOX_TABLE[0];
    assert t[16] == 0x39 && t[17] == 0xac && t[18] == 0xa7 && t[19] == 0x60;
    assert t[20] == 0x62 && t[21] == 0xc1 && t[22] == 0xcd && t[23] == 0xba;
    assert t[24] == 0x5c && t[25] == 0x96 && t[26] == 0x90 && t[27] == 0x59;
    assert t[28] == 0x05 && t[29] == 0x3b && t[30] == 0x7a && t[31] == 0x85;
  }

  lemma Part13()
    ensures PacksRows(0, 32, S13, S23, S14, S24, 0)
  {
    var t := SUBSTITUTION_BOX_TABLE[0];
    assert t[32] == 0x40 && t[33] == 0xfd && t[34] == 0x1e && t[35] == 0xc8;
    assert t[36] == 0xe7 && t[37] == 0x8a && t[38] == 0x8b && t[39] == 0x21;
    assert t[40] == 0xda && t[41] == 0x43 && t[42] == 0x64 && t[43] == 0x9f;
    assert t[44] == 0x2d && t[45] == 0x14 && t[46] == 0xb1 && t[47] == 0x72;
  }

  lemma Part14()
    ensures PacksRows(0, 48, S13, S23, S14, S24, 8)
  {
    var t := SUBSTITUTION_BOX_TABLE[0];
    assert t[48] == 0xf5 && t[49] == 0x5b && t[50] == 0xc8 && t[51] == 0xb6;
    assert t[52] == 0x9c && t[53] == 0x37 && t[54] == 0x76 && t[55] == 0xec;
    assert t[56] == 0x39 && t[57] == 0xa0 && t[58] == 0xa3 && t[59] == 0x05;
    assert t[60] == 0x52 && t[61] == 0x6e && t[62] == 0x0f && t[63] == 0xd9;
  }

  lemma Part21()
    ensures PacksRows(1, 0, S31, S41, S32, S42, 0)
  {
    var t := SUBSTITUTION_BOX_TABLE[1];
    assert t[0] == 0xa7 && t[1] == 0xdd && t[2] == 0x0d && t[3] == 0x78;
    assert t[4] == 0x9e && t[5] == 0x0b && t[6] == 0xe3 && t[7] == 0x95;
    assert t[8] == 0x60 && t[9] == 0x36 && t[10] == 0x36 && t[11] == 0x4f;
    assert t[12] == 0xf9 && t[13] == 0x60 && t[14] == 0x5a && t[15] == 0xa3;
  }

  lemma Part22()
    ensures PacksRows(1, 16, S31, S41, S32, S42, 8)
  {
    var t := SUBSTITUTION_BOX_TABLE[1];
    assert t[16] == 0x11 && t[17] == 0x24 && t[18] == 0xd2 && t[19] == 0x87;
    assert t[20] == 0xc8 && t[21] == 0x52 && t[22] == 0x75 && t[23] == 0xec;
    assert t[24] == 0xbb && t[25] == 0xc1 && t[26] == 0x4c && t[27] == 0xba;
    assert t[28] == 0x24 && t[29] == 0xfe && t[30] == 0x8f && t[31] == 0x19;
  }

  lemma Part23()
    ensures PacksRows(1, 32, S33, S43, S34, S44, 0)
  {
    var t := SUBSTITUTION_BOX_TABLE[1];
    assert t[32] == 0xda && t[33] == 0x13 && t[34] == 0x66 && t[35] == 0xaf;
    assert t[36] == 0x49 && t[37] == 0xd0 && t[38] == 0x90 && t[39] == 0x06;
    assert t[40] == 0x8c && t[41] == 0x6a && t[42] == 0xfb && t[43] == 0x91;
    assert t[44] == 0x37 && t[45] == 0x8d && t[46] == 0x0d && t[47] == 0x78;
  }

  lemma Part24()
    ensures PacksRows(1, 48, S33, S43, S34, S44, 8)
  {
    var t := SUBSTITUTION_BOX_TABLE[1];
    assert t[48] == 0xbf && t[49] == 0x49 && t[50] == 0x11 && t[51] == 0xf4;
    assert t[52] == 0x23 && t[53] == 0xe5 && t[54] == 0xce && t[55] == 0x3b;
    assert t[56] == 0x55 && t[57] == 0xbc && t[58] == 0xa2 && t[59] == 0x57;
    assert t[60] == 0xe8 && t[61] == 0x22 && t[62] == 0x74 && t[63] == 0xce;
  }

  lemma Part31()
    ensures PacksRows(2, 0, S51, S61, S52, S62, 0)
  {
    var t := SUBSTITUTION_BOX_TABLE[2];
    assert t[0] == 0x2c && t[1] == 0xea && t[2] == 0xc1 && t[3] == 0xbf;
    assert t[4] == 0x4a && t[5] == 0x24 && t[6] == 0x1f && t[7] == 0xc2;
    assert t[8] == 0x79 && t[9] == 0x47 && t[10] == 0xa2 && t[11] == 0x7c;
    assert t[12] == 0xb6 && t[13] == 0xd9 && t[14] == 0x68 && t[15] == 0x15;
  }

  lemma Part32()
    ensures PacksRows(2, 16, S51, S61, S52, S62, 8)
  {
    var t := SUBSTITUTION_BOX_TABLE[2];
    assert t[16] == 0x80 && t[17] == 0x56 && t[18] == 0x5d && t[19] == 0x01;
    assert t[20] == 0x33 && t[21] == 0xfd && t[22] == 0xf4 && t[23] == 0xae;
    assert t[24] == 0xde && t[25] == 0x30 && t[26] == 0x07 && t[27] == 0x9b;
    assert t[28] == 0xe5 && t[29] == 0x83 && t[30] == 0x9b && t[31] == 0x68;
  }

  lemma Part33()
    ensures PacksRows(2, 32, S53, S63, S54, S64, 0)
  {
    var t := SUBSTITUTION_BOX_TABLE[2];
    assert t[32] == 0x49 && t[33] == 0xb4 && t[34] == 0x2e && t[35] == 0x83;
    assert t[36] == 0x1f && t[37] == 0xc2 && t[38] == 0xb5 && t[39] == 0x7c;
    assert t[40] == 0xa2 && t[41] == 0x19 && t[42] == 0xd8 && t[43] == 0xe5;
    assert t[44] == 0x7c && t[45] == 0x2f && t[46] == 0x83 && t[47] == 0xda;
  }

  lemma Part34()
    ensures PacksRows(2, 48, S53, S63, S54, S64, 8)
  {
    var t := SUBSTITUTION_BOX_TABLE[2];
    assert t[48] == 0xf7 && t[49] == 0x6b && t[50] == 0x90 && t[51] == 0xfe;
    assert t[52] == 0xc4 && t[53] == 0x01 && t[54] == 0x5a && t[55] == 0x97;
    assert t[56] == 0x61 && t[57] == 0xa6 && t[58] == 0x3d && t[59] == 0x40;
    assert t[60] == 0x0b && t[61] == 0x58 && t[62] == 0xe6 && t[63] == 0x3d;
  }

  lemma Part41()
    ensures PacksRows(3, 0, S71, S81, S72, S82, 0)
  {
    var t := SUBSTITUTION_BOX_TABLE[3];
    assert t[0] == 0x4d && t[1] == 0xd1 && t[2] == 0xb2 && t[3] == 0x0f;
    assert t[4] == 0x28 && t[5] == 0xbd && t[6] == 0xe4 && t[7] == 0x78;
    assert t[8] == 0xf6 && t[9] == 0x4a && t[10] == 0x0f && t[11] == 0x93;
    assert t[12] == 0x8b && t[13] == 0x17 && t[14] == 0xd1 && t[15] == 0xa4;
  }

  lemma Part42()
    ensures PacksRows(3, 16, S71, S81, S72, S82, 8)
  {
    var t := SUBSTITUTION_BOX_TABLE[3];
    assert t[16] == 0x3a && t[17] == 0xec && t[18] == 0xc9 && t[19] == 0x35;
    assert t[20] == 0x93 && t[21] == 0x56 && t[22] == 0x7e && t[23] == 0xcb;
    assert t[24] == 0x55 && t[25] == 0x20 && t[26] == 0xa0 && t[27] == 0xfe;
    assert t[28] == 0x6c && t[29] == 0x89 && t[30] == 0x17 && t[31] == 0x62;
  }

  lemma Part43()
    ensures PacksRows(3, 32, S73, S83, S74, S84, 0)
  {
    var t := SUBSTITUTION_BOX_TABLE[3];
    assert t[32] == 0x17 && t[33] == 0x62 && t[34] == 0x4b && t[35] == 0xb1;
    assert t[36] == 0xb4 && t[37] == 0xde && t[38] == 0xd1 && t[39] == 0x87;
    assert t[40] == 0xc9 && t[41] == 0x14 && t[42] == 0x3c && t[43] == 0x4a;
    assert t[44] == 0x7e && t[45] == 0xa8 && t[46] == 0xe2 && t[47] == 0x7d;
  }

  lemma Part44()
    ensures PacksRows(3, 48, S73, S83, S74, S84, 8)
  {
    var t := SUBSTITUTION_BOX_TABLE[3];
    assert t[48] == 0xa0 && t[49] == 0x9f && t[50] == 0xf6 && t[51] == 0x5c;
    assert t[52] == 0x6a && t[53] == 0x09 && t[54] == 0x8d && t[55] == 0xf0;
    assert t[56] == 0x0f && t[57] == 0xe3 && t[58] == 0x53 && t[59] == 0x25;
    assert t[60] == 0x95 && t[61] == 0x36 && t[62] == 0x28 && t[63] == 0xcb;
  }

  lemma FromRows(k: nat, row: nat, c: nat, column: nat)
    requires k < 4 && (row == 0 || row == 2) && (c == 0 || c == 8) && c <= column < c + 8
    requires PacksRows(k, 16 * row + 2 * c, BoxRow(2 * k, row), BoxRow(2 * k + 1, row), BoxRow(2 * k, row + 1),
                       BoxRow(2 * k + 1, row + 1), c)
    ensures Packs(k, row, column) && Packs(k, row + 1, column)
  {
    hide Pack, BoxRow, SUBSTITUTION_BOX_TABLE;
    var j := column - c;
    assert j == 0 || j == 1 || j == 2 || j == 3 || j == 4 || j == 5 || j == 6 || j == 7;
  }

  lemma Packed1(row: nat, column: nat)
    requires row < 4 && column < 16
    ensures Packs(0, row, column)
  {
    hide SUBSTITUTION_BOX_TABLE, Packs, PacksRows, S11, S12, S13, S14, S21, S22, S23, S24;
    if row < 2 && column < 8 {
      Part11();
      FromRows(0, 0, 0, column);
    } else if row < 2 {
      Part12();
      FromRows(0, 0, 8, column);
    } else if column < 8 {
      Part13();
      FromRows(0, 2, 0, column);
    } else {
      Part14();
      FromRows(0, 2, 8, column);
    }
  }

  lemma Packed2(row: nat, column: nat)
    requires row < 4 && column < 16
    ensures Packs(1, row, column)
  {
    hide SUBSTITUTION_BOX_TABLE, Packs, PacksRows, S31, S32, S33, S34, S41, S42, S43, S44;
    if row < 2 && column < 8 {
      Part21();
      FromRows(1, 0, 0, column);
    } else if row < 2 {
      Part22();
      FromRows(1, 0, 8, column);
    } else if column < 8 {
      Part23();
      FromRows(1, 2, 0, column);
    } else {
      Part24();
      FromRows(1, 2, 8, column);
    }
  }

  lemma Packed3(row: nat, column: nat)
    requires row < 4 && column < 16
    ensures Packs(2, row, column)
  {
    hide SUBSTITUTION_BOX_TABLE, Packs, PacksRows, S51, S52, S53, S54, S61, S62, S63, S64;
    if row < 2 && column < 8 {
      Part31();
      FromRows(2, 0, 0, column);
    } else if row < 2 {
      Part32();
      FromRows(2, 0, 8, column);
    } else if column < 8 {
      Part33();
      FromRows(2, 2, 0, column);
    } else {
      Part34();
      FromRows(2, 2, 8, column);
    }
  }

  lemma Packed4(row: nat, column: nat)
    requires row < 4 && column < 16
    ensures Packs(3, row, column)
  {
    hide SUBSTITUTION_BOX_TABLE, Packs, PacksRows, S71, S72, S73, S74, S81, S82, S83, S84;
    if row < 2 && column < 8 {
      Part41();
      FromRows(3, 0, 0, column);
    } else if row < 2 {
      Part42();
      FromRows(3, 0, 8, column);
    } else if column < 8 {
      Part43();
      FromRows(3, 2, 0, column);
    } else {
      Part44();
      FromRows(3, 2, 8, column);
    }
  }

  /** The packed tables are the eight S-boxes: two to a byte, in the order of their windows. */
  lemma StandardBoxes(k: nat, row: nat, column: nat)
    requires k < 4 && row < 4 && column < 16
    ensures SubstitutionEntry(k, FromValue(32 * (row / 2) + 2 * column + row % 2)) ==
            Pack(BoxRow(2 * k, row)[column], BoxRow(2 * k + 1, row)[column])
  {
    hide BoxRow, Pack, SUBSTITUTION_BOX_TABLE;
    ValueRoundTrip(32 * (row / 2) + 2 * column + row % 2);
    if k == 0 {
      Packed1(row, column);
    } else if k == 1 {
      Packed2(row, column);
    } else if k == 2 {
      Packed3(row, column);
    } else {
      Packed4(row, column);
    }
  }

  /** The permutation P of FIPS 46-3: where each bit behind the boxes comes from, counted from 1. */
  const P: seq<nat> :=
    [16, 7, 20, 21, 29, 12, 28, 17] + [1, 15, 23, 26, 5, 18, 31, 10] +
    [2, 8, 24, 14, 32, 27, 3, 9] + [19, 13, 30, 6, 22, 11, 4, 25]

  lemma StandardTransposition(i: nat)
    requires i < 32
    ensures P[i] == TransposedFrom(i) + 1
  {
    var r, c := i / 4, i % 4;
    assert Below8(r) && (c == 0 || c == 1 || c == 2 || c == 3);
  }

  lemma PackedBits(a: byte, b: byte, j: nat)
    requires j < 8
    ensures ByteBits(Pack(a, b))[j] == if j < 4 then ByteBits(a)[4 + j] else ByteBits(b)[j]
  {
    hide Pack, Mask;
    MaskShifts(j);
    HalfPacked(a, b, Mask(j), if j < 4 then Mask(4 + j) else Mask(j));
  }

  lemma MaskShifts(j: nat)
    requires j < 8
    ensures if j < 4 then Mask(j) >= 0x10 && Mask(4 + j) == Mask(j) >> 4 else Mask(j) < 0x10
    ensures Mask(j) & 0x0f == 0 || Mask(j) & 0xf0 == 0
  {
  }

  lemma HalfPacked(a: byte, b: byte, m: byte, n: byte)
    requires n == if m >= 0x10 then m >> 4 else m
    ensures m & 0x0f == 0 || m & 0xf0 == 0 ==> (Pack(a, b) & m != 0) == (if m >= 0x10 then a & n != 0 else b & n != 0)
  {
  }

  /**
   The round is the round of the standard, without its key: bit `i` of the mask is one bit of what an S-box holds for
   its window, the box and the bit being those that P names.
   */
  lemma StandardRound(half: Half, i: nat, p: nat, window: byte, row: nat, column: nat)
    requires i < 32 && p + 1 == P[i] && p < 32 && IsWindow(half, p / 4, window)
    requires row < 4 && column < 16 && Value(window) == 32 * (row / 2) + 2 * column + row % 2
    ensures Bits(RoundMask(half))[i] == ByteBits(BoxRow(p / 4, row)[column])[4 + p % 4]
  {
    hide Bits, ByteBits, BoxRow, Pack, RoundMask, SubstitutionEntry, P, TransposedFrom, IsWindow;
    StandardTransposition(i);
    MaskBits(half, i, p, window);
    FromValueRoundTrip(window);
    var k := p / 8;
    StandardBoxes(k, row, column);
    PackedBits(BoxRow(2 * k, row)[column], BoxRow(2 * k + 1, row)[column], p % 8);
  }
}
