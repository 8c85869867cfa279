/**
 The IDEA block cipher, used for XOR masks (src/grf_ciphers.rs), and why every key schedule makes it a permutation.
 */
module Idea {
  import opened Bytes

  // ---------------------------------------------------------------- 16-bit words

  function HighByte(w: bv16): byte {
    (w >> 8) as byte
  }

  function LowByte(w: bv16): byte {
    (w & 0xff) as byte
  }

  function FromBytes(high: byte, low: byte): bv16 {
    (high as bv16 << 8) | (low as bv16)
  }

  lemma BytesAndWords(w: bv16, high: byte, low: byte)
    ensures FromBytes(HighByte(w), LowByte(w)) == w
    ensures HighByte(FromBytes(high, low)) == high && LowByte(FromBytes(high, low)) == low
  {
  }

  /** The number a word stands for. */
  function ToNat(w: bv16): (n: nat)
    ensures n < 65536
  {
    256 * Value(HighByte(w)) + Value(LowByte(w))
  }

  /** The low 16 bits of a number, which is what a cast to 16 bits keeps. */
  function Truncated(n: nat): bv16 {
    FromBytes(FromValue(n / 256 % 256), FromValue(n % 256))
  }

  lemma ToNatTruncated(n: nat)
    ensures ToNat(Truncated(n)) == n % 65536
  {
    hide Value, FromValue, FromBytes, HighByte, LowByte;
    BytesAndWords(0, FromValue(n / 256 % 256), FromValue(n % 256));
    ValueRoundTrip(n / 256 % 256);
    ValueRoundTrip(n % 256);
  }

  lemma TwoDigits(high: nat, low: nat)
    requires high < 256 && low < 256
    ensures (256 * high + low) / 256 % 256 == high && (256 * high + low) % 256 == low
  {
  }

  lemma TruncatedToNat(w: bv16)
    ensures Truncated(ToNat(w)) == w
  {
    hide Value, FromValue, FromBytes, HighByte, LowByte;
    BytesAndWords(w, 0, 0);
    FromValueRoundTrip(HighByte(w));
    FromValueRoundTrip(LowByte(w));
    TwoDigits(Value(HighByte(w)), Value(LowByte(w)));
  }

  lemma ZeroIsZero(w: bv16)
    ensures ToNat(w) == 0 <==> w == 0
  {
    hide FromBytes, HighByte, LowByte, Value, FromValue;
    TruncatedToNat(w);
    ToNatTruncated(0);
    ZeroTruncated();
  }

  lemma ZeroTruncated()
    ensures Truncated(0) == 0
  {
  }

  // ---------------------------------------------------------------- arithmetic modulo 65537

  lemma NoSmallFactor(g: nat, h: nat)
    requires 2 <= g <= 256
    ensures g * h != 65537
  {
  }

  /** 65537 is prime: a factor or its cofactor would lie between 2 and 256. */
  lemma PrimeFactors(g: nat, h: nat)
    requires g * h == 65537
    ensures g == 1 || g == 65537
  {
    if 2 <= g <= 256 {
      NoSmallFactor(g, h);
    } else if 2 <= h <= 256 {
      NoSmallFactor(h, g);
    } else if g > 256 && h > 256 {
      ProductGrows(g, h);
    }
  }

  lemma ProductGrows(g: nat, h: nat)
    requires g > 256 && h > 256
    ensures g * h > 65537
  {
    assert g * h >= 257 * h;
  }

  /** Bezout's identity for the greatest common divisor, with the cofactors that show it divides both. */
  datatype Bezout = Bezout(divisor: nat, x: int, y: int, p: nat, q: nat)

  ghost predicate IsBezout(z: Bezout, a: nat, b: nat) {
    a * z.x + b * z.y == z.divisor && a == z.p * z.divisor && b == z.q * z.divisor
  }

  lemma BezoutStep(z: Bezout, a: nat, b: nat)
    requires b > 0 && IsBezout(z, b, a % b)
    ensures IsBezout(Bezout(z.divisor, z.y, z.x - (a / b) * z.y, (a / b) * z.p + z.q, z.p), a, b)
  {
    var k, r := a / b, a % b;
    assert a == k * b + r;
    assert a * z.y + b * (z.x - k * z.y) == b * z.x + (a - k * b) * z.y;
    assert (k * z.p + z.q) * z.divisor == k * (z.p * z.divisor) + z.q * z.divisor;
  }

  lemma {:induction false} FindBezout(a: nat, b: nat) returns (z: Bezout)
    ensures IsBezout(z, a, b)
    decreases b
  {
    if b == 0 {
      z := Bezout(a, 1, 0, 1, 0);
    } else {
      var rest := FindBezout(b, a % b);
      BezoutStep(rest, a, b);
      z := Bezout(rest.divisor, rest.y, rest.x - (a / b) * rest.y, (a / b) * rest.p + rest.q, rest.p);
    }
  }

  ghost predicate IsInverse(n: nat, inverse: nat) {
    1 <= inverse <= 65536 && n * inverse % 65537 == 1
  }

  lemma FindInverse(n: nat) returns (inverse: nat)
    requires 1 <= n <= 65536
    ensures IsInverse(n, inverse)
  {
    var z := FindBezout(65537, n);
    assert z.divisor * z.p == 65537;
    PrimeFactors(z.divisor, z.p);
    if z.divisor == 65537 {
      assert false;
    }
    inverse := z.y % 65537;
    var k := z.y / 65537;
    assert z.y == 65537 * k + inverse;
    assert n * z.y == 65537 * (n * k) + n * inverse;
    assert n * inverse == 1 + 65537 * (-z.x - n * k);
  }

  lemma InverseExists(n: nat)
    requires 1 <= n <= 65536
    ensures exists i :: IsInverse(n, i)
  {
    var i := FindInverse(n);
  }

  ghost function InverseOf(n: nat): (inverse: nat)
    requires 1 <= n <= 65536
    ensures IsInverse(n, inverse)
  {
    InverseExists(n);
    var i :| IsInverse(n, i);
    i
  }

  // ---------------------------------------------------------------- multiplication

  /** The nonzero residue a word stands for: 0 means 65536. */
  function Residue(w: bv16): (n: nat)
    ensures 1 <= n <= 65536
  {
    ZeroIsZero(w);
    if w == 0 then 65536 else ToNat(w)
  }

  function Multiply(a: bv16, b: bv16): bv16 {
    Truncated(Residue(a) * Residue(b) % 65537)
  }

  lemma ResidueInjective(a: bv16, b: bv16)
    requires Residue(a) == Residue(b)
    ensures a == b
  {
    hide ToNat, Truncated;
    ZeroIsZero(a);
    ZeroIsZero(b);
    TruncatedToNat(a);
    TruncatedToNat(b);
  }

  lemma ResidueOfTruncated(n: nat)
    requires 1 <= n <= 65536
    ensures Residue(Truncated(n)) == n
  {
    hide ToNat, Truncated;
    ToNatTruncated(n);
    ZeroIsZero(Truncated(n));
  }

  /** The residues of a product modulo 65537 that cannot be zero, as 65537 is prime. */
  lemma ProductIsNonzero(a: nat, b: nat)
    requires 1 <= a <= 65536 && 1 <= b <= 65536
    ensures a * b % 65537 != 0
  {
    var i := FindInverse(b);
    RemainderOfProduct(a, b, i);
  }

  /** Euclid's lemma for 65537. */
  lemma EuclidsLemma(a: nat, b: nat)
    requires a * b % 65537 == 0
    ensures a % 65537 == 0 || b % 65537 == 0
  {
    var p, q := a % 65537, b % 65537;
    if p != 0 && q != 0 {
      ProductIsNonzero(p, q);
      ResidueOfProduct(a, b);
    }
  }

  /** A product has the residue of the product of the residues. */
  lemma ResidueOfProduct(a: nat, b: nat)
    ensures a * b % 65537 == a % 65537 * (b % 65537) % 65537
  {
    var k, p := a / 65537, a % 65537;
    var m, q := b / 65537, b % 65537;
    Distribute(k, p, b);
    Distribute(m, q, p);
    assert a * b == 65537 * (k * b + m * p) + p * q;
    SameRemainder(a * b, p * q, k * b + m * p);
  }

  lemma SameRemainder(n: nat, r: nat, k: int)
    requires n == 65537 * k + r
    ensures n % 65537 == r % 65537
  {
  }

  lemma Reassociate(a: int, b: int, c: int)
    ensures a * b * c == a * (b * c)
  {
  }

  lemma Distribute(k: int, r: int, c: int)
    ensures (65537 * k + r) * c == 65537 * (k * c) + r * c
  {
    Reassociate(65537, k, c);
  }

  /** Multiplying by an element and then by its inverse changes no residue. */
  lemma RemainderOfProduct(a: nat, b: nat, inverse: nat)
    requires 1 <= a <= 65536 && IsInverse(b, inverse)
    ensures a * b % 65537 * inverse % 65537 == a
  {
    var k, r := a * b / 65537, a * b % 65537;
    var m := b * inverse / 65537;
    Reassociate(a, b, inverse);
    Distribute(k, r, inverse);
    Distribute(m, 1, a);
    assert r * inverse == 65537 * (m * a - k * inverse) + a;
  }

  /**
   `idea_multiply` is multiplication in the group of nonzero residues modulo the prime 65537, with 0 standing for
   65536: the cast to 16 bits loses nothing.
   */
  lemma MultiplyIsGroupProduct(a: bv16, b: bv16)
    ensures Residue(Multiply(a, b)) == Residue(a) * Residue(b) % 65537
  {
    hide Truncated, Residue;
    ProductIsNonzero(Residue(a), Residue(b));
    ResidueOfTruncated(Residue(a) * Residue(b) % 65537);
  }

  /** The key word that undoes multiplication by `key`. */
  ghost function Inverse(key: bv16): bv16 {
    Truncated(InverseOf(Residue(key)))
  }

  lemma MultiplyInverts(w: bv16, key: bv16)
    ensures Multiply(Multiply(w, key), Inverse(key)) == w
    ensures Multiply(Multiply(w, Inverse(key)), key) == w
  {
    hide Truncated, Residue, Multiply;
    var k, i := Residue(key), InverseOf(Residue(key));
    ResidueOfTruncated(i);
    assert k * i == i * k;
    MultiplyIsGroupProduct(w, key);
    MultiplyIsGroupProduct(Multiply(w, key), Inverse(key));
    RemainderOfProduct(Residue(w), k, i);
    ResidueInjective(Multiply(Multiply(w, key), Inverse(key)), w);
    MultiplyIsGroupProduct(w, Inverse(key));
    MultiplyIsGroupProduct(Multiply(w, Inverse(key)), key);
    RemainderOfProduct(Residue(w), i, k);
    ResidueInjective(Multiply(Multiply(w, Inverse(key)), key), w);
  }

  // ---------------------------------------------------------------- rounds

  /** `wrapping_add`. */
  function Sum(a: bv16, b: bv16): bv16 {
    a + b
  }

  function Difference(a: bv16, b: bv16): bv16 {
    a - b
  }

  lemma SumsAre(a: bv16, b: bv16)
    ensures Sum(a, b) == a + b && Difference(a, b) == a - b
  {
  }

  lemma SumCancels(a: bv16, b: bv16)
    ensures Difference(a + b, b) == a && Sum(a - b, b) == a
  {
  }

  lemma SumsInvert(a: bv16, b: bv16)
    ensures Difference(Sum(a, b), b) == a
    ensures Sum(Difference(a, b), b) == a
  {
    hide Sum, Difference;
    SumsAre(a, b);
    SumCancels(a, b);
  }

  function Mix(a: bv16, b: bv16): bv16 {
    a ^ b
  }

  lemma MixLaws(a: bv16, b: bv16, m: bv16)
    ensures Mix(Mix(a, m), m) == a
    ensures Mix(Mix(a, m), Mix(b, m)) == Mix(a, b)
  {
  }

  const ROUNDS: nat := 8

  datatype State = State(a: bv16, b: bv16, c: bv16, d: bv16)

  type Keys = s: seq<bv16> | |s| == 52 witness seq(52, _ => 0)

  /** The first half of a round: the four words combined with four key words. */
  function Keyed(s: State, k0: bv16, k1: bv16, k2: bv16, k3: bv16): State {
    State(Multiply(s.a, k0), Sum(s.b, k1), Sum(s.c, k2), Multiply(s.d, k3))
  }

  ghost function Unkeyed(s: State, k0: bv16, k1: bv16, k2: bv16, k3: bv16): State {
    State(Multiply(s.a, Inverse(k0)), Difference(s.b, k1), Difference(s.c, k2), Multiply(s.d, Inverse(k3)))
  }

  lemma KeyingInverts(s: State, k0: bv16, k1: bv16, k2: bv16, k3: bv16)
    ensures Unkeyed(Keyed(s, k0, k1, k2, k3), k0, k1, k2, k3) == s
    ensures Keyed(Unkeyed(s, k0, k1, k2, k3), k0, k1, k2, k3) == s
  {
    hide Multiply, Inverse, Sum, Difference;
    MultiplyInverts(s.a, k0);
    MultiplyInverts(s.d, k3);
    SumsInvert(s.b, k1);
    SumsInvert(s.c, k2);
  }

  /** The two masks a round derives from the differences of its words. */
  function Masks(ac: bv16, bd: bv16, k4: bv16, k5: bv16): (bv16, bv16) {
    var e := Multiply(ac, k4);
    var f := Multiply(Sum(bd, e), k5);
    (f, Sum(e, f))
  }

  /** The second half of a round: masks XORed in, the middle words exchanged. */
  function Masked(s: State, k4: bv16, k5: bv16): State {
    var (f, g) := Masks(Mix(s.a, s.c), Mix(s.b, s.d), k4, k5);
    State(Mix(s.a, f), Mix(s.c, f), Mix(s.b, g), Mix(s.d, g))
  }

  function Unmasked(s: State, k4: bv16, k5: bv16): State {
    var (f, g) := Masks(Mix(s.a, s.b), Mix(s.c, s.d), k4, k5);
    State(Mix(s.a, f), Mix(s.c, g), Mix(s.b, f), Mix(s.d, g))
  }

  /** Words that share a mask keep their difference, so the masks can be derived again on the way back. */
  lemma MaskingInverts(s: State, k4: bv16, k5: bv16)
    ensures Unmasked(Masked(s, k4, k5), k4, k5) == s
    ensures Masked(Unmasked(s, k4, k5), k4, k5) == s
  {
    hide Masks, Mix;
    var (f, g) := Masks(Mix(s.a, s.c), Mix(s.b, s.d), k4, k5);
    MixLaws(s.a, s.c, f);
    MixLaws(s.c, s.c, f);
    MixLaws(s.b, s.d, g);
    MixLaws(s.d, s.d, g);
    var (f', g') := Masks(Mix(s.a, s.b), Mix(s.c, s.d), k4, k5);
    MixLaws(s.a, s.b, f');
    MixLaws(s.b, s.b, f');
    MixLaws(s.c, s.d, g');
    MixLaws(s.d, s.d, g');
  }

  function Round(s: State, keys: Keys, r: nat): State
    requires r < 8
  {
    var k := 6 * r;
    Masked(Keyed(s, keys[k], keys[k + 1], keys[k + 2], keys[k + 3]), keys[k + 4], keys[k + 5])
  }

  ghost function UndoRound(s: State, keys: Keys, r: nat): State
    requires r < 8
  {
    var k := 6 * r;
    Unkeyed(Unmasked(s, keys[k + 4], keys[k + 5]), keys[k], keys[k + 1], keys[k + 2], keys[k + 3])
  }

  lemma RoundsInvert(s: State, keys: Keys, r: nat)
    requires r < 8
    ensures UndoRound(Round(s, keys, r), keys, r) == s
    ensures Round(UndoRound(s, keys, r), keys, r) == s
  {
    hide Masked, Unmasked, Keyed, Unkeyed;
    var k := 6 * r;
    var keyed := Keyed(s, keys[k], keys[k + 1], keys[k + 2], keys[k + 3]);
    MaskingInverts(keyed, keys[k + 4], keys[k + 5]);
    KeyingInverts(s, keys[k], keys[k + 1], keys[k + 2], keys[k + 3]);
    var unmasked := Unmasked(s, keys[k + 4], keys[k + 5]);
    KeyingInverts(unmasked, keys[k], keys[k + 1], keys[k + 2], keys[k + 3]);
    MaskingInverts(s, keys[k + 4], keys[k + 5]);
  }

  /** Rounds 0 to n-1. */
  function Rounds(s: State, keys: Keys, n: nat): State
    requires n <= ROUNDS
  {
    if n == 0 then s else Round(Rounds(s, keys, n - 1), keys, n - 1)
  }

  ghost function UndoRounds(s: State, keys: Keys, n: nat): State
    requires n <= ROUNDS
    decreases n
  {
    if n == 0 then s else UndoRounds(UndoRound(s, keys, n - 1), keys, n - 1)
  }

  lemma {:induction false} AllRoundsInvert(s: State, keys: Keys, n: nat)
    requires n <= ROUNDS
    ensures UndoRounds(Rounds(s, keys, n), keys, n) == s
    ensures Rounds(UndoRounds(s, keys, n), keys, n) == s
    decreases n
  {
    hide Round, UndoRound;
    if n > 0 {
      RoundsInvert(Rounds(s, keys, n - 1), keys, n - 1);
      AllRoundsInvert(s, keys, n - 1);
      AllRoundsInvert(UndoRound(s, keys, n - 1), keys, n - 1);
      RoundsInvert(s, keys, n - 1);
    }
  }

  /** Eight rounds, the exchange of the middle words undone, and the output keys. */
  function EncryptState(s: State, keys: Keys): State {
    var r := Rounds(s, keys, ROUNDS);
    Keyed(State(r.a, r.c, r.b, r.d), keys[48], keys[49], keys[50], keys[51])
  }

  ghost function DecryptState(s: State, keys: Keys): State {
    var r := Unkeyed(s, keys[48], keys[49], keys[50], keys[51]);
    UndoRounds(State(r.a, r.c, r.b, r.d), keys, ROUNDS)
  }

  lemma StatesInvert(s: State, keys: Keys)
    ensures DecryptState(EncryptState(s, keys), keys) == s
    ensures EncryptState(DecryptState(s, keys), keys) == s
  {
    hide Rounds, UndoRounds, Keyed, Unkeyed;
    var r := Rounds(s, keys, ROUNDS);
    KeyingInverts(State(r.a, r.c, r.b, r.d), keys[48], keys[49], keys[50], keys[51]);
    AllRoundsInvert(s, keys, ROUNDS);
    var u := Unkeyed(s, keys[48], keys[49], keys[50], keys[51]);
    AllRoundsInvert(State(u.a, u.c, u.b, u.d), keys, ROUNDS);
    KeyingInverts(s, keys[48], keys[49], keys[50], keys[51]);
  }

  // ---------------------------------------------------------------- blocks

  function StateOf(block: Block8): State {
    State(FromBytes(block[0], block[1]), FromBytes(block[2], block[3]),
          FromBytes(block[4], block[5]), FromBytes(block[6], block[7]))
  }

  function BlockOf(s: State): Block8 {
    [HighByte(s.a), LowByte(s.a), HighByte(s.b), LowByte(s.b), HighByte(s.c), LowByte(s.c), HighByte(s.d), LowByte(s.d)]
  }

  lemma BlocksAndStates(block: Block8, s: State)
    ensures BlockOf(StateOf(block)) == block
    ensures StateOf(BlockOf(s)) == s
  {
    hide FromBytes, HighByte, LowByte;
    BytesAndWords(s.a, block[0], block[1]);
    BytesAndWords(s.b, block[2], block[3]);
    BytesAndWords(s.c, block[4], block[5]);
    BytesAndWords(s.d, block[6], block[7]);
  }

  function EncryptedBlock(block: Block8, keys: Keys): Block8 {
    BlockOf(EncryptState(StateOf(block), keys))
  }

  ghost function DecryptedBlock(block: Block8, keys: Keys): Block8 {
    BlockOf(DecryptState(StateOf(block), keys))
  }

  /** For every key schedule the eight rounds permute the blocks: each block comes from exactly one. */
  lemma EncryptionIsPermutation(block: Block8, keys: Keys)
    ensures DecryptedBlock(EncryptedBlock(block, keys), keys) == block
    ensures EncryptedBlock(DecryptedBlock(block, keys), keys) == block
  {
    hide EncryptState, DecryptState, StateOf, BlockOf;
    var s := StateOf(block);
    BlocksAndStates(block, EncryptState(s, keys));
    BlocksAndStates(block, DecryptState(s, keys));
    StatesInvert(s, keys);
  }

  /** The round loop of `idea_encrypt`. */
  method Encrypt(block: Block8, keys: Keys) returns (result: Block8)
    ensures result == EncryptedBlock(block, keys)
  {
    hide Multiply, Sum, Mix, StateOf, BlockOf;
    var start := StateOf(block);
    var a, b, c, d := start.a, start.b, start.c, start.d;
    for r := 0 to ROUNDS
      invariant State(a, b, c, d) == Rounds(start, keys, r)
    {
      var k := 6 * r;
      a := Multiply(a, keys[k]);
      b := Sum(b, keys[k + 1]);
      c := Sum(c, keys[k + 2]);
      d := Multiply(d, keys[k + 3]);
      var e := Multiply(Mix(a, c), keys[k + 4]);
      var f := Multiply(Sum(Mix(b, d), e), keys[k + 5]);
      var g := Sum(e, f);
      a, b, c, d := Mix(a, f), Mix(c, f), Mix(b, g), Mix(d, g);
    }
    var final := State(Multiply(a, keys[48]), Sum(c, keys[49]), Sum(b, keys[50]), Multiply(d, keys[51]));
    result := BlockOf(final);
  }

  // ---------------------------------------------------------------- key schedule and mask

  function Wide(s: seq<byte>): bv128 {
    if s == [] then 0 else (Wide(s[..|s| - 1]) << 8) | (s[|s| - 1] as bv128)
  }

  function Rotated(value: bv128): bv128 {
    (value << 25) | (value >> 103)
  }

  function RotatedTimes(value: bv128, n: nat): bv128 {
    if n == 0 then value else Rotated(RotatedTimes(value, n - 1))
  }

  /** Word `j` of eight, the most significant first. */
  function Slot(value: bv128, j: nat): bv16
    requires j < 8
  {
    if j == 0 then ((value >> 112) & 0xffff) as bv16
    else if j == 1 then ((value >> 96) & 0xffff) as bv16
    else if j == 2 then ((value >> 80) & 0xffff) as bv16
    else if j == 3 then ((value >> 64) & 0xffff) as bv16
    else if j == 4 then ((value >> 48) & 0xffff) as bv16
    else if j == 5 then ((value >> 32) & 0xffff) as bv16
    else if j == 6 then ((value >> 16) & 0xffff) as bv16
    else (value & 0xffff) as bv16
  }

  /** Key word `i`: eight words of the key, then eight of the key rotated by 25 bits, and so on. */
  function KeyWord(key: Block16, i: nat): bv16 {
    Slot(RotatedTimes(Wide(key), i / 8), i % 8)
  }

  function Schedule(key: Block16): Keys {
    seq(52, i requires 0 <= i < 52 => KeyWord(key, i))
  }

  lemma NotRotated(value: bv128)
    ensures RotatedTimes(value, 0) == value
  {
  }

  /** The key rotates before every eighth word but the first. */
  lemma RotationStep(key: Block16, i: nat)
    ensures var before, now := RotatedTimes(Wide(key), if i == 0 then 0 else (i - 1) / 8),
            RotatedTimes(Wide(key), i / 8);
            && now == (if i > 0 && i % 8 == 0 then Rotated(before) else before)
            && KeyWord(key, i) == Slot(now, i % 8)
  {
    hide Slot, Rotated, Wide, RotatedTimes;
    if i > 0 && i % 8 == 0 {
      assert i / 8 == (i - 1) / 8 + 1;
      RotatedAgain(Wide(key), (i - 1) / 8);
    }
  }

  lemma RotatedAgain(value: bv128, n: nat)
    ensures RotatedTimes(value, n + 1) == Rotated(RotatedTimes(value, n))
  {
    hide Rotated;
  }

  method KeySchedule(key: Block16) returns (keys: Keys)
    ensures keys == Schedule(key)
  {
    hide Slot, Rotated, Wide, RotatedTimes, KeyWord;
    var value := Wide(key);
    keys := seq(52, _ => 0);
    NotRotated(value);
    for i := 0 to 52
      invariant forall k | 0 <= k < i :: keys[k] == KeyWord(key, k)
      invariant value == RotatedTimes(Wide(key), if i == 0 then 0 else (i - 1) / 8)
    {
      RotationStep(key, i);
      if i > 0 && i % 8 == 0 {
        value := Rotated(value);
      }
      keys := keys[i := Slot(value, i % 8)];
    }
  }

  /** Two chained blocks: each is encrypted after XOR with what went before. */
  function ChainedBlocks(cipher: Block8 -> Block8, first: Block8, second: Block8, iv: Block8): Block16 {
    var start: seq<byte> := cipher(Xor(first, iv));
    start + cipher(Xor(second, start))
  }

  /** The 16-byte mask. */
  function MaskOf(key: Block16, input: Block16, iv: Block8): Block16 {
    ChainedBlocks((block: Block8) => EncryptedBlock(block, Schedule(key)), input[..8], input[8..], iv)
  }

  method Mask(key: Block16, input: Block16, iv: Block8) returns (mask: Block16)
    ensures mask == MaskOf(key, input, iv)
  {
    hide Xor, EncryptedBlock, Schedule;
    var keys := KeySchedule(key);
    var first: seq<byte> := Encrypt(Xor(input[..8], iv), keys);
    var second := Encrypt(Xor(input[8..], first), keys);
    mask := first + second;
  }
}
