/**
 What becomes of a payload that was encrypted in header mode and is decrypted in mixed mode (src/des.rs, src/grf.rs).
 */
module Misread {
  import opened Bytes
  import opened Des

  /** A buffer encoded in header mode and decoded in mixed mode. */
  function ReadAsMixed(s: seq<byte>, entryLength: nat): (r: seq<byte>)
    ensures |r| == |s|
  {
    Mixed(Decode, HeaderMode(s, |s|), |s|, entryLength)
  }

  /** Block `k` survives: it is among the first twenty, or mixed mode leaves it as it is. */
  predicate Survives(s: seq<byte>, entryLength: nat, k: nat)
    requires k < |s| / 8
  {
    k < 20 || Acted(Decode, ActionAt(k, CycleFor(entryLength)), Block(s, k)) == Block(s, k)
  }

  lemma MisreadBlock(s: seq<byte>, entryLength: nat, k: nat)
    requires k < |s| / 8
    ensures Block(ReadAsMixed(s, entryLength), k) ==
            if k < 20 then Block(s, k) else Acted(Decode, ActionAt(k, CycleFor(entryLength)), Block(s, k))
  {
    hide Transformed, Mixed, HeaderMode, CycleFor, Skipped;
    MixedModeBlocks(Decode, HeaderMode(s, |s|), |s|, entryLength, k);
    HeaderModeBlocks(s, |s|, k);
    TransformIsInvolution(Block(s, k));
  }

  lemma MisreadTail(s: seq<byte>, entryLength: nat)
    ensures var n := |s| / 8; ReadAsMixed(s, entryLength)[8 * n..] == s[8 * n..]
  {
    hide Mixed, HeaderMode;
    MixedModeTail(Decode, HeaderMode(s, |s|), |s|, entryLength);
    HeaderModeTail(s, |s|);
  }

  /** The first twenty blocks always survive; the buffer survives exactly when every block behind them does. */
  lemma MisreadIff(s: seq<byte>, entryLength: nat)
    ensures ReadAsMixed(s, entryLength) == s <==> forall k | 0 <= k < |s| / 8 :: Survives(s, entryLength, k)
    ensures |s| < 168 ==> ReadAsMixed(s, entryLength) == s
  {
    hide Block, ReadAsMixed, Acted, ActionAt, CycleFor;
    var r, n := ReadAsMixed(s, entryLength), |s| / 8;
    forall k | 0 <= k < n
      ensures Block(r, k) == Block(s, k) <==> Survives(s, entryLength, k)
    {
      MisreadBlock(s, entryLength, k);
    }
    MisreadTail(s, entryLength);
    if forall k | 0 <= k < n :: Survives(s, entryLength, k) {
      EqualByBlocks(r, s, n);
    }
  }

  // ---------------------------------------------------------------- a payload that does not survive

  const EMPTY_BLOCK: Block8 := [0, 0, 0, 0, 0, 0, 0, 0]

  lemma EmptyBlockStays()
    ensures IsTable(INITIAL_PERMUTATION_TABLE) && Permuted(INITIAL_PERMUTATION_TABLE, EMPTY_BLOCK) == EMPTY_BLOCK
  {
    hide Bits, FromBits, INITIAL_PERMUTATION_TABLE;
    TablesAreTables();
    ZeroBits(EMPTY_BLOCK);
    assert Gather(INITIAL_PERMUTATION_TABLE, Bits(EMPTY_BLOCK)) == Bits(EMPTY_BLOCK);
    FromBitsInverse(EMPTY_BLOCK);
  }

  lemma SecondSubstitution()
    ensures (SubstitutionEntry(1, 0) & 0xf0) | (SubstitutionEntry(1, 0) & 0x0f) == 0xa7
  {
    assert Value(0) == 0;
    assert SUBSTITUTION_BOX_TABLE[1][0] == 0xa7;
  }

  lemma SecondHalfByte(half: Half)
    requires half[1] == 0xa7
    ensures Bits(Transposed(half))[23]
  {
    hide Bits, FromBits;
    BitsInverse(TransposedBits(half));
    BitAt(half, 1, 0);
    assert TransposedFrom(23) == 8;
    assert ByteBits(half[1])[0];
  }

  /** The mask of an empty half: one of the bits of its second S-box entry lands at place 23. */
  lemma EmptyHalfMask()
    ensures Bits(RoundMask([0, 0, 0, 0]))[23]
  {
    hide Bits, Transposed, SubstitutionEntry;
    var half: Half := [0, 0, 0, 0];
    ExpandedIsWindows(half);
    SecondSubstitution();
    SecondHalfByte(Substituted(Expanded(half)));
  }

  lemma XorWithNothing(mask: Half)
    ensures Xor([0, 0, 0, 0], mask) == mask
  {
  }

  /** The transform changes the first byte of an empty block. */
  lemma EmptyBlockChanges()
    ensures Transformed(EMPTY_BLOCK)[0] != 0
  {
    hide Bits, FromBits, RoundMask, INITIAL_PERMUTATION_TABLE, FINAL_PERMUTATION_TABLE, ByteBits;
    TablesAreTables();
    EmptyBlockStays();
    var half: Half := [0, 0, 0, 0];
    var rounded := Rounded(EMPTY_BLOCK);
    assert EMPTY_BLOCK[..4] == half && EMPTY_BLOCK[4..] == half;
    XorWithNothing(RoundMask(half));
    EmptyHalfMask();
    BitsAppend(RoundMask(half), half);
    var gathered := Gather(FINAL_PERMUTATION_TABLE, Bits(rounded));
    FinalEntry(0, 5);
    assert gathered[5] == Bits(rounded)[Entry(FINAL_PERMUTATION_TABLE, 5) - 1] == Bits(rounded)[23];
    BitsInverse(gathered);
    BitAt(Transformed(EMPTY_BLOCK), 0, 5);
    ZeroByteBits();
  }

  lemma ZeroByteBits()
    ensures !ByteBits(0)[5]
  {
  }

  /** 168 bytes of which the last block is empty, with any three-digit entry length, do not survive. */
  lemma DamagedPayload(s: seq<byte>, entryLength: nat)
    requires |s| == 168 && Block(s, 20) == EMPTY_BLOCK && 100 <= entryLength < 1000
    ensures ReadAsMixed(s, entryLength)[..160] == s[..160] && ReadAsMixed(s, entryLength)[160] != 0
  {
    hide ReadAsMixed, Transformed;
    var r := ReadAsMixed(s, entryLength);
    assert CycleFor(entryLength) == 4 by {
      assert DecimalDigits(entryLength) == 1 + DecimalDigits(entryLength / 10);
    }
    assert ActionAt(20, 4) == Transform;
    MisreadBlock(s, entryLength, 20);
    EmptyBlockChanges();
    assert Block(r, 20)[0] == r[160];
    forall i | 0 <= i < 160
      ensures r[i] == s[i]
    {
      MisreadBlock(s, entryLength, i / 8);
      assert r[i] == Block(r, i / 8)[i % 8] && s[i] == Block(s, i / 8)[i % 8];
    }
  }
}
