/** The IDEA key schedule bit by bit, and the two halves of a mask (src/grf_ciphers.rs). */
module IdeaReference {
  import opened Bytes
  import opened Idea
  import Des

  // ---------------------------------------------------------------- bits

  function WordMask(b: nat): bv16
    requires b < 16
  {
    if b == 0 then 0x8000 else if b == 1 then 0x4000 else if b == 2 then 0x2000 else if b == 3 then 0x1000
    else if b == 4 then 0x0800 else if b == 5 then 0x0400 else if b == 6 then 0x0200 else if b == 7 then 0x0100
    else if b == 8 then 0x0080 else if b == 9 then 0x0040 else if b == 10 then 0x0020 else if b == 11 then 0x0010
    else if b == 12 then 0x0008 else if b == 13 then 0x0004 else if b == 14 then 0x0002 else 0x0001
  }

  /** Bit `b` of a key word, the most significant first. */
  predicate WordBit(w: bv16, b: nat)
    requires b < 16
  {
    w & WordMask(b) != 0
  }

  /** Bit `n` of a key's 128, counted from the first bit of its first byte. */
  predicate KeyBit(key: Block16, n: nat)
    requires n < 128
  {
    key[n / 8] & Des.Mask(n % 8) != 0
  }

  lemma PairBit(high: byte, low: byte, b: nat)
    requires b < 16
    ensures WordBit(FromBytes(high, low), b) ==
            if b < 8 then high & Des.Mask(b) != 0 else low & Des.Mask(b - 8) != 0
  {
  }

  /** Nine bits of one word and seven of the next. */
  function Straddled(x: bv16, y: bv16): bv16 {
    (x << 9) | (y >> 7)
  }

  lemma MaskMoves(b: nat)
    requires b < 16
    ensures b < 7 ==> WordMask(b) & 0x01ff == 0 && WordMask(b + 9) == WordMask(b) >> 9
    ensures b >= 7 ==> WordMask(b) & 0xfe00 == 0 && WordMask(b - 7) == WordMask(b) << 7
  {
  }

  lemma StraddledFirst(x: bv16, y: bv16, m: bv16, k: bv16)
    requires m & 0x01ff == 0 && k == m >> 9
    ensures (Straddled(x, y) & m != 0) == (x & k != 0)
  {
  }

  lemma StraddledSecond(x: bv16, y: bv16, m: bv16, k: bv16)
    requires m & 0xfe00 == 0 && k == m << 7
    ensures (Straddled(x, y) & m != 0) == (y & k != 0)
  {
  }

  lemma EarlyBit(x: bv16, y: bv16, b: nat)
    requires b < 7
    ensures WordBit(Straddled(x, y), b) == WordBit(x, b + 9)
  {
    hide WordMask, Straddled;
    MaskMoves(b);
    StraddledFirst(x, y, WordMask(b), WordMask(b + 9));
  }

  lemma LateBit(x: bv16, y: bv16, b: nat)
    requires 7 <= b < 16
    ensures WordBit(Straddled(x, y), b) == WordBit(y, b - 7)
  {
    hide WordMask, Straddled;
    MaskMoves(b);
    StraddledSecond(x, y, WordMask(b), WordMask(b - 7));
  }

  // ---------------------------------------------------------------- the first eight words

  lemma WideStep(key: Block16, k: nat)
    requires k < 16
    ensures Wide(key[..k + 1]) == (Wide(key[..k]) << 8) | (key[k] as bv128)
  {
    assert key[..k + 1][..k] == key[..k];
  }

  lemma WideStart(key: Block16)
    ensures Wide(key[..0]) == 0 && key[..16] == key
  {
  }

  function Shifted(value: bv128, b: byte): bv128 {
    (value << 8) | (b as bv128)
  }

  /** Appending a word shifts the seven before it up. */
  lemma TwoMore(value: bv128, high: byte, low: byte)
    ensures var next := Shifted(Shifted(value, high), low);
            && Slot(next, 7) == FromBytes(high, low)
            && Slot(next, 6) == Slot(value, 7) && Slot(next, 5) == Slot(value, 6) && Slot(next, 4) == Slot(value, 5)
            && Slot(next, 3) == Slot(value, 4) && Slot(next, 2) == Slot(value, 3) && Slot(next, 1) == Slot(value, 2)
            && Slot(next, 0) == Slot(value, 1)
  {
  }

  lemma MovedUp(value: bv128, high: byte, low: byte, j: nat)
    requires j < 8
    ensures Slot(Shifted(Shifted(value, high), low), j) == if j < 7 then Slot(value, j + 1) else FromBytes(high, low)
  {
    hide Slot, Shifted, FromBytes;
    TwoMore(value, high, low);
    if j < 7 {
      SlotCase(j);
    }
  }

  lemma WideByTwo(key: Block16, m: nat)
    requires m < 15
    ensures Wide(key[..m + 2]) == Shifted(Shifted(Wide(key[..m]), key[m]), key[m + 1])
  {
    hide Wide, Shifted;
    WideStep(key, m);
    WideStep(key, m + 1);
    ShiftedIs(Wide(key[..m]), key[m], key[m + 1]);
  }

  lemma {:induction false} WordsOfWide(key: Block16, n: nat, w: nat)
    requires w < n <= 8
    ensures Slot(Wide(key[..2 * n]), 8 - n + w) == FromBytes(key[2 * w], key[2 * w + 1])
    decreases n
  {
    hide Slot, Wide, FromBytes, Shifted;
    var m := 2 * (n - 1);
    WideByTwo(key, m);
    MovedUp(Wide(key[..m]), key[m], key[m + 1], 8 - n + w);
    assert key[..m + 2] == key[..2 * n];
    if w < n - 1 {
      WordsOfWide(key, n - 1, w);
    }
  }

  lemma ShiftedIs(value: bv128, high: byte, low: byte)
    ensures Shifted(Shifted(value, high), low) == ((((value << 8) | (high as bv128)) << 8) | (low as bv128))
  {
  }

  lemma SlotCase(j: nat)
    requires j < 7
    ensures j == 0 || j == 1 || j == 2 || j == 3 || j == 4 || j == 5 || j == 6
  {
  }

  // ---------------------------------------------------------------- rotation

  /** Rotating by 25 bits moves every word up by one and by nine more bits. */
  lemma RotatedSlots(value: bv128)
    ensures Slot(Rotated(value), 0) == Straddled(Slot(value, 1), Slot(value, 2))
    ensures Slot(Rotated(value), 1) == Straddled(Slot(value, 2), Slot(value, 3))
    ensures Slot(Rotated(value), 2) == Straddled(Slot(value, 3), Slot(value, 4))
    ensures Slot(Rotated(value), 3) == Straddled(Slot(value, 4), Slot(value, 5))
    ensures Slot(Rotated(value), 4) == Straddled(Slot(value, 5), Slot(value, 6))
    ensures Slot(Rotated(value), 5) == Straddled(Slot(value, 6), Slot(value, 7))
    ensures Slot(Rotated(value), 6) == Straddled(Slot(value, 7), Slot(value, 0))
    ensures Slot(Rotated(value), 7) == Straddled(Slot(value, 0), Slot(value, 1))
  {
  }

  /** The slot after a slot, around. */
  function Following(j: nat): nat
    requires j < 8
    ensures Following(j) < 8
  {
    if j == 7 then 0 else j + 1
  }

  lemma RotatedSlot(value: bv128, j: nat)
    requires j < 8
    ensures Slot(Rotated(value), j) == Straddled(Slot(value, Following(j)), Slot(value, Following(Following(j))))
  {
    hide Slot, Rotated, Straddled;
    RotatedSlots(value);
    if j < 7 {
      SlotCase(j);
    }
  }

  /** The place in the key of bit `b` of word `j` after `n` rotations. */
  function Place(n: nat, j: nat, b: nat): (p: nat)
    ensures p < 128
  {
    (16 * j + 25 * n + b) % 128
  }

  lemma SamePlace(n: nat, j: nat, b: nat)
    requires n > 0 && j < 8 && b < 16
    ensures b < 7 ==> Place(n - 1, Following(j), b + 9) == Place(n, j, b)
    ensures b >= 7 ==> Place(n - 1, Following(Following(j)), b - 7) == Place(n, j, b)
  {
    var p := 16 * j + 25 * n + b;
    Around(p);
    assert 16 * Following(j) == 16 * j + 16 - if j == 7 then 128 else 0;
    assert 16 * Following(Following(j)) == 16 * j + 32 - if j >= 6 then 128 else 0;
  }

  lemma Around(p: int)
    ensures (p - 128) % 128 == p % 128
  {
  }

  lemma PlaceParts(j: nat, b: nat)
    requires j < 8 && b < 16
    ensures Place(0, j, b) == 16 * j + b
    ensures (16 * j + b) / 8 == (if b < 8 then 2 * j else 2 * j + 1) && (16 * j + b) % 8 == (if b < 8 then b else b - 8)
  {
  }

  lemma UnrotatedBit(key: Block16, j: nat, b: nat)
    requires j < 8 && b < 16
    ensures WordBit(Slot(RotatedTimes(Wide(key), 0), j), b) == KeyBit(key, Place(0, j, b))
  {
    hide Slot, WordBit, Wide, FromBytes, Place, Des.Mask, RotatedTimes;
    NotRotated(Wide(key));
    WideStart(key);
    WordsOfWide(key, 8, j);
    PairBit(key[2 * j], key[2 * j + 1], b);
    PlaceParts(j, b);
  }

  lemma {:induction false} RotatedBit(key: Block16, n: nat, j: nat, b: nat)
    requires j < 8 && b < 16
    ensures WordBit(Slot(RotatedTimes(Wide(key), n), j), b) == KeyBit(key, Place(n, j, b))
    decreases n
  {
    hide Slot, Rotated, Straddled, WordBit, Wide, RotatedTimes, KeyBit, Place, Following;
    if n == 0 {
      UnrotatedBit(key, j, b);
    } else {
      RotatedAgain(Wide(key), n - 1);
      RotatedSlot(RotatedTimes(Wide(key), n - 1), j);
      SamePlace(n, j, b);
      var x, y := Following(j), Following(Following(j));
      var before := RotatedTimes(Wide(key), n - 1);
      if b < 7 {
        EarlyBit(Slot(before, x), Slot(before, y), b);
        RotatedBit(key, n - 1, x, b + 9);
      } else {
        LateBit(Slot(before, x), Slot(before, y), b);
        RotatedBit(key, n - 1, y, b - 7);
      }
    }
  }

  /**
   The key schedule without rotation: bit `b` of key word `i` is one bit of the key, 16 further for each word of a row
   of eight and 25 further for each row, counted around.
   */
  lemma ScheduleBits(key: Block16, i: nat, b: nat)
    requires i < 52 && b < 16
    ensures WordBit(Schedule(key)[i], b) == KeyBit(key, (16 * (i % 8) + 25 * (i / 8) + b) % 128)
  {
    hide Slot, WordBit, Wide, RotatedTimes, KeyBit;
    RotatedBit(key, i / 8, i % 8, b);
  }

  /** The mask is CBC: its first half hides the first half of the input under the vector, the second under the first. */
  lemma MaskHalves(key: Block16, input: Block16, iv: Block8, first: Block8, second: Block8)
    requires forall i | 0 <= i < 8 :: first[i] == input[i] ^ iv[i]
    requires forall i | 0 <= i < 8 :: second[i] == input[8 + i] ^ MaskOf(key, input, iv)[i]
    ensures MaskOf(key, input, iv)[..8] == EncryptedBlock(first, Schedule(key))
    ensures MaskOf(key, input, iv)[8..] == EncryptedBlock(second, Schedule(key))
  {
    hide EncryptedBlock, Schedule;
    assert first == Xor(input[..8], iv);
    assert second == Xor(input[8..], MaskOf(key, input, iv)[..8]);
  }
}
