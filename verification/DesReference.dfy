/** The DES modes said another way: the block schedule in plain numbers, and the transform bit by bit (src/des.rs). */
module DesReference {
  import opened Bytes
  import opened Des

  // ---------------------------------------------------------------- the cycle

  function PowerOfTen(k: nat): (n: nat)
    ensures n >= 1
  {
    if k == 0 then 1 else 10 * PowerOfTen(k - 1)
  }

  /** The cycle that goes with a packed size: fixed up to six digits, and 15 more than its digits above. */
  ghost predicate HasCycle(entryLength: nat, cycle: nat) {
    if entryLength < 100 then cycle == 1
    else if entryLength < 1_000 then cycle == 4
    else if entryLength < 10_000 then cycle == 5
    else if entryLength < 100_000 then cycle == 14
    else if entryLength < 1_000_000 then cycle == 15
    else cycle >= 22 && PowerOfTen(cycle - 16) <= entryLength < PowerOfTen(cycle - 15)
  }

  lemma {:induction false} DigitsBound(n: nat)
    ensures n < PowerOfTen(DecimalDigits(n))
    ensures n >= 10 ==> PowerOfTen(DecimalDigits(n) - 1) <= n
  {
    if n >= 10 {
      DigitsBound(n / 10);
    }
  }

  lemma {:induction false} PowersGrow(a: nat, b: nat)
    requires a <= b
    ensures PowerOfTen(a) <= PowerOfTen(b)
  {
    if a < b {
      PowersGrow(a, b - 1);
    }
  }

  lemma DigitsAre(n: nat, d: nat)
    requires d >= 2 && PowerOfTen(d - 1) <= n < PowerOfTen(d)
    ensures DecimalDigits(n) == d
  {
    DigitsBound(n);
    PowersGrow(1, d - 1);
    var e := DecimalDigits(n);
    if e < d {
      PowersGrow(e, d - 1);
    } else if d < e {
      PowersGrow(d, e - 1);
    }
  }

  lemma FirstPowers()
    ensures PowerOfTen(1) == 10 && PowerOfTen(2) == 100 && PowerOfTen(3) == 1_000 && PowerOfTen(4) == 10_000
    ensures PowerOfTen(5) == 100_000 && PowerOfTen(6) == 1_000_000
  {
    assert PowerOfTen(3) == 10 * PowerOfTen(2);
    assert PowerOfTen(4) == 10 * PowerOfTen(3);
    assert PowerOfTen(5) == 10 * PowerOfTen(4);
    assert PowerOfTen(6) == 10 * PowerOfTen(5);
  }

  lemma ShortCycles(entryLength: nat)
    requires entryLength < 1_000_000
    ensures HasCycle(entryLength, CycleFor(entryLength))
  {
    hide PowerOfTen, DecimalDigits;
    FirstPowers();
    if entryLength >= 100_000 {
      DigitsAre(entryLength, 6);
    } else if entryLength >= 10_000 {
      DigitsAre(entryLength, 5);
    } else if entryLength >= 1_000 {
      DigitsAre(entryLength, 4);
    } else if entryLength >= 100 {
      DigitsAre(entryLength, 3);
    } else if entryLength >= 10 {
      DigitsAre(entryLength, 2);
    } else {
      OneDigit(entryLength);
    }
  }

  lemma OneDigit(n: nat)
    requires n < 10
    ensures DecimalDigits(n) == 1
  {
  }

  /** The cycle in numeric ranges; no other number goes with a size. */
  lemma CycleRanges(entryLength: nat, cycle: nat)
    ensures HasCycle(entryLength, cycle) <==> cycle == CycleFor(entryLength)
  {
    hide PowerOfTen, DecimalDigits;
    FirstPowers();
    if entryLength < 1_000_000 {
      ShortCycles(entryLength);
    } else {
      DigitsBound(entryLength);
      var d := DecimalDigits(entryLength);
      if d < 7 {
        PowersGrow(d, 6);
      }
      if HasCycle(entryLength, cycle) {
        DigitsAre(entryLength, cycle - 15);
      }
    }
  }

  // ---------------------------------------------------------------- the schedule

  /** How many of the blocks from the twentieth up to `k` are not multiples of the cycle, by counting. */
  ghost function PassedOver(k: nat, cycle: nat): nat
    requires cycle >= 1
  {
    if k <= 20 then 0 else PassedOver(k - 1, cycle) + if (k - 1) % cycle == 0 then 0 else 1
  }

  lemma {:induction false} PassedOverIsSkipped(k: nat, cycle: nat)
    requires cycle >= 1 && k >= 20
    ensures PassedOver(k, cycle) == Skipped(k, cycle)
  {
    hide Skipped;
    if k == 20 {
      NoneSkipped(cycle);
    } else {
      PassedOverIsSkipped(k - 1, cycle);
      SkippedStep(k - 1, cycle);
    }
  }

  lemma NoneSkipped(cycle: nat)
    requires cycle >= 1
    ensures Skipped(20, cycle) == 0
  {
  }

  /** Where the shuffles move the first seven bytes. */
  lemma ShuffleMoves(s: Block8, i: nat)
    requires i < 7
    ensures Shuffled(s)[[3, 4, 5, 0, 1, 6, 2][i]] == s[i]
    ensures Unshuffled(s)[[3, 4, 6, 0, 1, 2, 5][i]] == s[i]
  {
    assert Below8(i);
  }

  /** What they do to the eighth: seven pairs of bytes are exchanged, and every other byte stays. */
  lemma LastByteSwaps(s: Block8)
    ensures Shuffled(s)[7] == Unshuffled(s)[7]
    ensures s[7] == 0x00 ==> Shuffled(s)[7] == 0x2b
    ensures s[7] == 0x6c ==> Shuffled(s)[7] == 0x80
    ensures s[7] == 0x01 ==> Shuffled(s)[7] == 0x68
    ensures s[7] == 0x48 ==> Shuffled(s)[7] == 0x77
    ensures s[7] == 0x60 ==> Shuffled(s)[7] == 0xff
    ensures s[7] == 0xb9 ==> Shuffled(s)[7] == 0xc0
    ensures s[7] == 0xfe ==> Shuffled(s)[7] == 0xeb
    ensures var listed := [0x00, 0x2b, 0x6c, 0x80, 0x01, 0x68, 0x48, 0x77, 0x60, 0xff, 0xb9, 0xc0, 0xfe, 0xeb];
            s[7] !in listed ==> Shuffled(s)[7] == s[7]
  {
  }

  /**
   Mixed mode, block by block and in numbers. The first twenty blocks are transformed, and behind them every block whose
   number is a multiple of the cycle for the packed size. Of those passed over, the eighth and then every seventh is
   shuffled; the others stay.
   */
  lemma MixedSchedule(s: seq<byte>, length: nat, entryLength: nat, cycle: nat, k: nat)
    requires cycle >= 1 && HasCycle(entryLength, cycle) && 8 * k + 8 <= length && 8 * k + 8 <= |s|
    ensures var decoded, encoded := Mixed(Decode, s, length, entryLength), Mixed(Encode, s, length, entryLength);
            var before := PassedOver(k, cycle);
            if k < 20 || k % cycle == 0 then
              Block(decoded, k) == Block(encoded, k) == Transformed(Block(s, k))
            else if before >= 7 && before % 7 == 0 then
              Block(decoded, k) == Shuffled(Block(s, k)) && Block(encoded, k) == Unshuffled(Block(s, k))
            else
              Block(decoded, k) == Block(encoded, k) == Block(s, k)
  {
    hide Transformed, Mixed, CycleFor, Skipped, HasCycle, Shuffled, Unshuffled;
    CycleRanges(entryLength, cycle);
    MixedModeBlocks(Decode, s, length, entryLength, k);
    MixedModeBlocks(Encode, s, length, entryLength, k);
    if k >= 20 {
      PassedOverIsSkipped(k, cycle);
    }
  }

  // ---------------------------------------------------------------- the transform

  /** Bit `c` of byte `b`, the first bit being the most significant. */
  function BitOf(s: seq<byte>, b: nat, c: nat): bool
    requires b < |s| && c < 8
  {
    Bits(s)[8 * b + c]
  }

  /** The even bits of a block's bytes, last byte first: what the round reads. */
  ghost predicate EvenBits(s: Block8, half: Half) {
    forall r, c | 0 <= r < 4 && 0 <= c < 8 :: BitOf(half, r, c) == BitOf(s, 7 - c, 2 * r)
  }

  lemma {:induction false} GatherInitial(s: Block8, r: nat, c: nat)
    requires r < 8 && c < 8
    ensures IsTable(INITIAL_PERMUTATION_TABLE)
    ensures BitOf(Permuted(INITIAL_PERMUTATION_TABLE, s), r, c) ==
            BitOf(s, 7 - c, if r < 4 then 2 * r + 1 else 2 * r - 8)
  {
    hide Bits, FromBits, INITIAL_PERMUTATION_TABLE, FINAL_PERMUTATION_TABLE;
    TablesAreTables();
    InitialEntry(r, c);
    PositionParts(r, c);
    BitsInverse(Gather(INITIAL_PERMUTATION_TABLE, Bits(s)));
    assert Entry(INITIAL_PERMUTATION_TABLE, 8 * r + c) == INITIAL_PERMUTATION_TABLE[r][c];
  }

  lemma {:induction false} GatherFinal(s: Block8, r: nat, c: nat)
    requires r < 8 && c < 8
    ensures IsTable(FINAL_PERMUTATION_TABLE)
    ensures BitOf(Permuted(FINAL_PERMUTATION_TABLE, s), r, c) ==
            BitOf(s, (if c % 2 == 0 then 4 else 0) + c / 2, 7 - r)
  {
    hide Bits, FromBits, INITIAL_PERMUTATION_TABLE, FINAL_PERMUTATION_TABLE;
    TablesAreTables();
    FinalEntry(r, c);
    PositionParts(r, c);
    BitsInverse(Gather(FINAL_PERMUTATION_TABLE, Bits(s)));
    assert Entry(FINAL_PERMUTATION_TABLE, 8 * r + c) == FINAL_PERMUTATION_TABLE[r][c];
  }

  lemma XorUnder(a: byte, b: byte, m: byte)
    requires m == 0x80 || m == 0x40 || m == 0x20 || m == 0x10 || m == 0x08 || m == 0x04 || m == 0x02 || m == 0x01
    ensures ((a ^ b) & m != 0) == ((a & m != 0) != (b & m != 0))
  {
  }

  lemma XorBit(a: byte, b: byte, c: nat)
    requires c < 8
    ensures ByteBits(a ^ b)[c] == (ByteBits(a)[c] != ByteBits(b)[c])
  {
    XorUnder(a, b, Mask(c));
  }

  lemma RoundedBytes(s: Block8, r: nat)
    requires r < 8
    ensures Rounded(s)[r] == if r < 4 then s[r] ^ RoundMask(s[4..])[r] else s[r]
  {
    hide RoundMask;
    if r >= 4 {
      assert Rounded(s)[r] == s[4..][r - 4];
    }
  }

  /** The bits of the two halves after the round. */
  lemma {:induction false} RoundedBits(s: Block8, r: nat, c: nat)
    requires r < 8 && c < 8
    ensures BitOf(Rounded(s), r, c) ==
            if r < 4 then BitOf(s, r, c) != BitOf(RoundMask(s[4..]), r, c) else BitOf(s, r, c)
  {
    hide Bits, ByteBits, RoundMask, Rounded;
    RoundedBytes(s, r);
    BitAt(Rounded(s), r, c);
    BitAt(s, r, c);
    if r < 4 {
      BitAt(RoundMask(s[4..]), r, c);
      XorBit(s[r], RoundMask(s[4..])[r], c);
    }
  }

  /**
   The block transform bit by bit, without its tables. It leaves the even bits of every byte alone and XORs each odd bit
   with a bit of the round's mask, which depends on nothing but the even bits.
   */
  lemma {:induction false} TransformBits(s: Block8, half: Half, b: nat, c: nat)
    requires EvenBits(s, half) && b < 8 && c < 8
    ensures BitOf(Transformed(s), b, c) ==
            if c % 2 == 0 then BitOf(s, b, c) else BitOf(s, b, c) != BitOf(RoundMask(half), c / 2, 7 - b)
  {
    hide Bits, FromBits, RoundMask, INITIAL_PERMUTATION_TABLE, FINAL_PERMUTATION_TABLE, BitOf, Rounded, Permuted;
    TablesAreTables();
    var mixed := Permuted(INITIAL_PERMUTATION_TABLE, s);
    var row := (if c % 2 == 0 then 4 else 0) + c / 2;
    GatherFinal(Rounded(mixed), b, c);
    RoundedBits(mixed, row, 7 - b);
    GatherInitial(s, row, 7 - b);
    SecondHalf(s, half);
  }

  /** The second half of the permuted block are the even bits. */
  lemma {:induction false} SecondHalf(s: Block8, half: Half)
    requires EvenBits(s, half)
    ensures IsTable(INITIAL_PERMUTATION_TABLE) && Permuted(INITIAL_PERMUTATION_TABLE, s)[4..] == half
  {
    hide Bits, FromBits, INITIAL_PERMUTATION_TABLE, FINAL_PERMUTATION_TABLE, Permuted;
    TablesAreTables();
    var mixed := Permuted(INITIAL_PERMUTATION_TABLE, s);
    LeadingBits(mixed);
    forall i | 0 <= i < 32
      ensures Bits(mixed[4..])[i] == Bits(half)[i]
    {
      GatherInitial(s, 4 + i / 8, i % 8);
      assert Bits(mixed)[32..][i] == Bits(mixed)[32 + i] == BitOf(mixed, 4 + i / 8, i % 8);
      assert Bits(half)[i] == BitOf(half, i / 8, i % 8);
    }
    assert Bits(mixed[4..]) == Bits(half);
    FromBitsInverse(mixed[4..]);
    FromBitsInverse(half);
  }

  // ---------------------------------------------------------------- the mask of a round

  /** Window `g` of a half: six of its bits in a row, from the one before bit 4g on, counted around. */
  ghost predicate IsWindow(half: Half, g: nat, window: byte)
    requires g < 8
  {
    window < 64 && forall k | 2 <= k < 8 :: ByteBits(window)[k] == Bits(half)[(4 * g + 29 + k) % 32]
  }

  lemma {:induction false} WindowBit(half: Half, g: nat, c: nat)
    requires g < 8 && c < 6
    ensures ByteBits(Expanded(half)[g])[2 + c] == Bits(half)[(4 * g + 31 + c) % 32]
  {
    hide Bits, ByteBits, Expanded;
    if g % 2 == 0 {
      EvenWindow(half, g / 2, (g / 2 + 3) % 4, c);
    } else {
      OddWindow(half, g / 2, (g / 2 + 1) % 4, c);
    }
  }

  lemma SmallBits(b: byte)
    requires b < 64
    ensures !ByteBits(b)[0] && !ByteBits(b)[1]
  {
  }

  lemma SameBits(a: byte, b: byte)
    requires ByteBits(a) == ByteBits(b)
    ensures a == b
  {
    hide ByteBits;
    PackByteBits(a);
    PackByteBits(b);
  }

  /** There is just one such window, and the expansion finds it. */
  lemma {:induction false} WindowIs(half: Half, g: nat, window: byte)
    requires g < 8 && IsWindow(half, g, window)
    ensures Expanded(half)[g] == window
  {
    hide Bits, ByteBits, Expanded;
    ExpandedIsWindows(half);
    var found := Expanded(half)[g];
    SmallBits(found);
    SmallBits(window);
    forall k | 0 <= k < 8
      ensures ByteBits(found)[k] == ByteBits(window)[k]
    {
      if k >= 2 {
        WindowBit(half, g, k - 2);
      }
    }
    SameBits(found, window);
  }

  lemma Nibbles(a: byte, b: byte, j: nat)
    requires j < 8
    ensures ByteBits((a & 0xf0) | (b & 0x0f))[j] == if j < 4 then ByteBits(a)[j] else ByteBits(b)[j]
  {
    HalfMasked(a, b, Mask(j));
  }

  lemma HalfMasked(a: byte, b: byte, m: byte)
    requires m == 0x80 || m == 0x40 || m == 0x20 || m == 0x10 || m == 0x08 || m == 0x04 || m == 0x02 || m == 0x01
    ensures (((a & 0xf0) | (b & 0x0f)) & m != 0) == (if m >= 0x10 then a & m != 0 else b & m != 0)
  {
  }

  /** The bits behind the S-boxes; two boxes share a byte. */
  lemma {:induction false} SubstitutedBits(half: Half, p: nat, window: byte)
    requires p < 32 && IsWindow(half, p / 4, window)
    ensures IsWindows(Expanded(half))
    ensures Bits(Substituted(Expanded(half)))[p] == ByteBits(SubstitutionEntry(p / 8, window))[p % 8]
  {
    hide Bits, ByteBits, Expanded, SubstitutionEntry, IsWindow, Substituted;
    ExpandedIsWindows(half);
    BitAt(Substituted(Expanded(half)), p / 8, p % 8);
    assert p / 4 == if p % 8 < 4 then 2 * (p / 8) else 2 * (p / 8) + 1;
    SubstitutedAt(half, p / 8, p % 8, window);
  }

  lemma SubstitutedAt(half: Half, k: nat, c: nat, window: byte)
    requires k < 4 && c < 8 && IsWindow(half, if c < 4 then 2 * k else 2 * k + 1, window)
    ensures IsWindows(Expanded(half))
    ensures ByteBits(Substituted(Expanded(half))[k])[c] == ByteBits(SubstitutionEntry(k, window))[c]
  {
    hide Bits, ByteBits, Expanded, SubstitutionEntry, IsWindow, Substituted;
    ExpandedIsWindows(half);
    var s := Expanded(half);
    WindowIs(half, if c < 4 then 2 * k else 2 * k + 1, window);
    SubstitutedByte(s, k);
    Nibbles(SubstitutionEntry(k, s[2 * k]), SubstitutionEntry(k, s[2 * k + 1]), c);
  }

  lemma SubstitutedByte(s: Block8, k: nat)
    requires IsWindows(s) && k < 4
    ensures Substituted(s)[k] == (SubstitutionEntry(k, s[2 * k]) & 0xf0) | (SubstitutionEntry(k, s[2 * k + 1]) & 0x0f)
  {
    hide SubstitutionEntry;
  }

  /**
   The mask of a round bit by bit: bit `i` is a bit of one S-box entry, the bit the transposition table names for it,
   and the entry is the one the window of that box selects.
   */
  lemma {:induction false} MaskBits(half: Half, i: nat, p: nat, window: byte)
    requires i < 32 && p == TransposedFrom(i) && IsWindow(half, p / 4, window)
    ensures Bits(RoundMask(half))[i] == ByteBits(SubstitutionEntry(p / 8, window))[p % 8]
  {
    hide Bits, ByteBits, Expanded, TransposedFrom, SubstitutionEntry, IsWindow, Substituted, FromBits;
    SubstitutedBits(half, p, window);
    BitsInverse(TransposedBits(Substituted(Expanded(half))));
  }
}
