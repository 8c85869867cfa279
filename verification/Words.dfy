/**
 32-bit words as the ciphers use them: byte orders, wrap-around addition and rotations.
 */
module Words {
  import opened Bytes

  /** The word whose most significant byte is `b3`. */
  function FromBytes(b0: byte, b1: byte, b2: byte, b3: byte): bv32 {
    (b3 as bv32 << 24) | (b2 as bv32 << 16) | (b1 as bv32 << 8) | (b0 as bv32)
  }

  /** The bytes of a word, least significant first. */
  function ToBytes(w: bv32): (s: seq<byte>)
    ensures |s| == 4
  {
    [(w & 0xff) as byte, ((w >> 8) & 0xff) as byte, ((w >> 16) & 0xff) as byte, ((w >> 24) & 0xff) as byte]
  }

  lemma FromToBytes(w: bv32)
    ensures var s := ToBytes(w); FromBytes(s[0], s[1], s[2], s[3]) == w
  {
  }

  lemma ToFromBytes(b0: byte, b1: byte, b2: byte, b3: byte)
    ensures ToBytes(FromBytes(b0, b1, b2, b3)) == [b0, b1, b2, b3]
  {
  }

  /** Big-endian word `i` of a sequence. */
  function BigEndian(s: seq<byte>, i: nat): bv32
    requires 4 * i + 4 <= |s|
  {
    FromBytes(s[4 * i + 3], s[4 * i + 2], s[4 * i + 1], s[4 * i])
  }

  function BigEndianBytes(w: bv32): (s: seq<byte>)
    ensures |s| == 4
  {
    [ToBytes(w)[3], ToBytes(w)[2], ToBytes(w)[1], ToBytes(w)[0]]
  }

  lemma BigEndianOfBytes(s: seq<byte>, i: nat, w: bv32)
    requires 4 * i + 4 <= |s| && s[4 * i..4 * i + 4] == BigEndianBytes(w)
    ensures BigEndian(s, i) == w
  {
    hide ToBytes, FromBytes;
    FromToBytes(w);
    var part := s[4 * i..4 * i + 4];
    assert part[0] == s[4 * i] && part[1] == s[4 * i + 1] && part[2] == s[4 * i + 2] && part[3] == s[4 * i + 3];
  }

  lemma BytesOfBigEndian(s: seq<byte>, i: nat)
    requires 4 * i + 4 <= |s|
    ensures BigEndianBytes(BigEndian(s, i)) == s[4 * i..4 * i + 4]
  {
    hide ToBytes, FromBytes;
    ToFromBytes(s[4 * i + 3], s[4 * i + 2], s[4 * i + 1], s[4 * i]);
  }

  /** Little-endian word `i` of a sequence. */
  function LittleEndian(s: seq<byte>, i: nat): bv32
    requires 4 * i + 4 <= |s|
  {
    FromBytes(s[4 * i], s[4 * i + 1], s[4 * i + 2], s[4 * i + 3])
  }

  // ---------------------------------------------------------------- wrap-around addition

  function WrappingAdd(a: bv32, b: bv32): bv32 {
    a + b
  }

  function WrappingSub(a: bv32, b: bv32): bv32 {
    a - b
  }

  lemma WrappingIs(a: bv32, b: bv32)
    ensures WrappingAdd(a, b) == a + b && WrappingSub(a, b) == a - b
  {
  }

  lemma SumCancels(a: bv32, b: bv32)
    ensures WrappingSub(a + b, b) == a && WrappingAdd(a - b, b) == a
  {
  }

  lemma AddSubInvert(a: bv32, b: bv32)
    ensures WrappingSub(WrappingAdd(a, b), b) == a
    ensures WrappingAdd(WrappingSub(a, b), b) == a
  {
    hide WrappingAdd, WrappingSub;
    WrappingIs(a, b);
    SumCancels(a, b);
  }

  // ---------------------------------------------------------------- rotations

  /** Rotation by an amount taken modulo 32. */
  function RotateLeft(w: bv32, amount: bv32): bv32 {
    (w << (amount & 31)) | (w >> ((32 - amount) & 31))
  }

  // The rotations by the steps 1, 2, 4, 8 and 16, each with its inverse.

  function TurnOne(w: bv32): bv32 {
    (w << 1) | (w >> 31)
  }

  function BackOne(w: bv32): bv32 {
    (w >> 1) | (w << 31)
  }

  lemma OneInverts(w: bv32)
    ensures BackOne(TurnOne(w)) == w && TurnOne(BackOne(w)) == w
  {
  }

  function TurnTwo(w: bv32): bv32 {
    (w << 2) | (w >> 30)
  }

  function BackTwo(w: bv32): bv32 {
    (w >> 2) | (w << 30)
  }

  lemma TwoInverts(w: bv32)
    ensures BackTwo(TurnTwo(w)) == w && TurnTwo(BackTwo(w)) == w
  {
  }

  function TurnFour(w: bv32): bv32 {
    (w << 4) | (w >> 28)
  }

  function BackFour(w: bv32): bv32 {
    (w >> 4) | (w << 28)
  }

  lemma FourInverts(w: bv32)
    ensures BackFour(TurnFour(w)) == w && TurnFour(BackFour(w)) == w
  {
  }

  function TurnEight(w: bv32): bv32 {
    (w << 8) | (w >> 24)
  }

  function BackEight(w: bv32): bv32 {
    (w >> 8) | (w << 24)
  }

  lemma EightInverts(w: bv32)
    ensures BackEight(TurnEight(w)) == w && TurnEight(BackEight(w)) == w
  {
  }

  function TurnSixteen(w: bv32): bv32 {
    (w << 16) | (w >> 16)
  }

  function BackSixteen(w: bv32): bv32 {
    (w >> 16) | (w << 16)
  }

  lemma SixteenInverts(w: bv32)
    ensures BackSixteen(TurnSixteen(w)) == w && TurnSixteen(BackSixteen(w)) == w
  {
  }

  /** A rotation by one of those steps, and back. */
  function Turned(w: bv32, step: nat): bv32 {
    if step == 1 then TurnOne(w) else if step == 2 then TurnTwo(w) else if step == 4 then TurnFour(w)
    else if step == 8 then TurnEight(w) else TurnSixteen(w)
  }

  function TurnedBack(w: bv32, step: nat): bv32 {
    if step == 1 then BackOne(w) else if step == 2 then BackTwo(w) else if step == 4 then BackFour(w)
    else if step == 8 then BackEight(w) else BackSixteen(w)
  }

  lemma TurnsInvert(w: bv32, step: nat)
    ensures TurnedBack(Turned(w, step), step) == w && Turned(TurnedBack(w, step), step) == w
  {
    hide TurnOne, TurnTwo, TurnFour, TurnEight, TurnSixteen, BackOne, BackTwo, BackFour, BackEight, BackSixteen;
    OneInverts(w);
    TwoInverts(w);
    FourInverts(w);
    EightInverts(w);
    SixteenInverts(w);
  }

  /** Whether an amount holds a step. */
  predicate Holds(amount: bv32, step: nat) {
    if step == 1 then amount & 1 != 0
    else if step == 2 then amount & 2 != 0
    else if step == 4 then amount & 4 != 0
    else if step == 8 then amount & 8 != 0
    else amount & 16 != 0
  }

  function Stage(w: bv32, amount: bv32, step: nat): bv32 {
    if Holds(amount, step) then Turned(w, step) else w
  }

  function StageBack(w: bv32, amount: bv32, step: nat): bv32 {
    if Holds(amount, step) then TurnedBack(w, step) else w
  }

  lemma StagesInvert(w: bv32, amount: bv32, step: nat)
    ensures StageBack(Stage(w, amount, step), amount, step) == w && Stage(StageBack(w, amount, step), amount, step) == w
  {
    hide Turned, TurnedBack, Holds;
    TurnsInvert(w, step);
  }

  /** A rotation is the rotations by the steps its amount holds. */
  function Staged(w: bv32, amount: bv32): bv32 {
    Stage(Stage(Stage(Stage(Stage(w, amount, 1), amount, 2), amount, 4), amount, 8), amount, 16)
  }

  function Shifted(w: bv32, left: bv32, right: bv32): bv32 {
    if left <= 31 && right <= 31 then (w << left) | (w >> right) else w
  }

  lemma RotationShifts(w: bv32, amount: bv32)
    ensures RotateLeft(w, amount) == Shifted(w, amount & 31, (32 - amount) & 31)
  {
  }

  lemma SameRotation(w: bv32, a: bv32, b: bv32)
    requires a & 31 == b & 31 && (32 - a) & 31 == (32 - b) & 31
    ensures RotateLeft(w, a) == RotateLeft(w, b)
  {
    hide RotateLeft, Shifted;
    RotationShifts(w, a);
    RotationShifts(w, b);
  }

  lemma HoldsOne(w: bv32, amount: bv32)
    requires amount & 1 != 0
    ensures RotateLeft(w, amount) == RotateLeft(TurnOne(w), amount & 30)
  {
  }

  lemma LacksOne(amount: bv32)
    requires amount & 1 == 0
    ensures amount & 31 == (amount & 30) & 31 && (32 - amount) & 31 == (32 - (amount & 30)) & 31
  {
  }

  lemma FirstStage(w: bv32, amount: bv32)
    ensures RotateLeft(w, amount) == RotateLeft(Stage(w, amount, 1), amount & 30)
  {
    hide RotateLeft, TurnOne;
    if amount & 1 != 0 {
      HoldsOne(w, amount);
    } else {
      LacksOne(amount);
      SameRotation(w, amount, amount & 30);
    }
  }

  lemma HoldsTwo(w: bv32, amount: bv32)
    requires amount & 1 == 0 && amount & 2 != 0
    ensures RotateLeft(w, amount) == RotateLeft(TurnTwo(w), amount & 28)
  {
  }

  lemma LacksTwo(amount: bv32)
    requires amount & 2 == 0
    ensures (amount & 30) & 31 == (amount & 28) & 31 && (32 - (amount & 30)) & 31 == (32 - (amount & 28)) & 31
  {
  }

  lemma BelowTwo(amount: bv32)
    ensures (amount & 30) & 1 == 0 && (amount & 30) & 2 == amount & 2 && (amount & 30) & 28 == amount & 28
  {
  }

  lemma SecondStage(w: bv32, amount: bv32)
    ensures RotateLeft(w, amount & 30) == RotateLeft(Stage(w, amount, 2), amount & 28)
  {
    hide RotateLeft, TurnTwo;
    BelowTwo(amount);
    if amount & 2 != 0 {
      HoldsTwo(w, amount & 30);
    } else {
      LacksTwo(amount);
      SameRotation(w, amount & 30, amount & 28);
    }
  }

  lemma HoldsFour(w: bv32, amount: bv32)
    requires amount & 3 == 0 && amount & 4 != 0
    ensures RotateLeft(w, amount) == RotateLeft(TurnFour(w), amount & 24)
  {
  }

  lemma LacksFour(amount: bv32)
    requires amount & 4 == 0
    ensures (amount & 28) & 31 == (amount & 24) & 31 && (32 - (amount & 28)) & 31 == (32 - (amount & 24)) & 31
  {
  }

  lemma BelowFour(amount: bv32)
    ensures (amount & 28) & 3 == 0 && (amount & 28) & 4 == amount & 4 && (amount & 28) & 24 == amount & 24
  {
  }

  lemma ThirdStage(w: bv32, amount: bv32)
    ensures RotateLeft(w, amount & 28) == RotateLeft(Stage(w, amount, 4), amount & 24)
  {
    hide RotateLeft, TurnFour;
    BelowFour(amount);
    if amount & 4 != 0 {
      HoldsFour(w, amount & 28);
    } else {
      LacksFour(amount);
      SameRotation(w, amount & 28, amount & 24);
    }
  }

  lemma HoldsEight(w: bv32, amount: bv32)
    requires amount & 7 == 0 && amount & 8 != 0
    ensures RotateLeft(w, amount) == RotateLeft(TurnEight(w), amount & 16)
  {
  }

  lemma LacksEight(amount: bv32)
    requires amount & 8 == 0
    ensures (amount & 24) & 31 == (amount & 16) & 31 && (32 - (amount & 24)) & 31 == (32 - (amount & 16)) & 31
  {
  }

  lemma BelowEight(amount: bv32)
    ensures (amount & 24) & 7 == 0 && (amount & 24) & 8 == amount & 8 && (amount & 24) & 16 == amount & 16
  {
  }

  lemma FourthStage(w: bv32, amount: bv32)
    ensures RotateLeft(w, amount & 24) == RotateLeft(Stage(w, amount, 8), amount & 16)
  {
    hide RotateLeft, TurnEight;
    BelowEight(amount);
    if amount & 8 != 0 {
      HoldsEight(w, amount & 24);
    } else {
      LacksEight(amount);
      SameRotation(w, amount & 24, amount & 16);
    }
  }

  lemma HoldsSixteen(w: bv32, amount: bv32)
    requires amount & 31 == 16
    ensures RotateLeft(w, amount) == TurnSixteen(w)
  {
  }

  lemma NoAmount(w: bv32, amount: bv32)
    requires amount & 31 == 0
    ensures RotateLeft(w, amount) == w
  {
  }

  lemma BelowSixteen(amount: bv32)
    ensures (amount & 16) & 31 == if amount & 16 != 0 then 16 else 0
  {
  }

  lemma LastStage(w: bv32, amount: bv32)
    ensures RotateLeft(w, amount & 16) == Stage(w, amount, 16)
  {
    hide RotateLeft, TurnSixteen;
    BelowSixteen(amount);
    if amount & 16 != 0 {
      HoldsSixteen(w, amount & 16);
    } else {
      NoAmount(w, amount & 16);
    }
  }

  lemma RotationIsStaged(w: bv32, amount: bv32)
    ensures RotateLeft(w, amount) == Staged(w, amount)
  {
    hide RotateLeft, Stage;
    var w1 := Stage(w, amount, 1);
    var w2 := Stage(w1, amount, 2);
    var w4 := Stage(w2, amount, 4);
    FirstStage(w, amount);
    SecondStage(w1, amount);
    ThirdStage(w2, amount);
    FourthStage(w4, amount);
    LastStage(Stage(w4, amount, 8), amount);
  }

  /** The rotation that undoes `RotateLeft`. */
  function RotateBack(w: bv32, amount: bv32): bv32 {
    StageBack(StageBack(StageBack(StageBack(StageBack(w, amount, 16), amount, 8), amount, 4), amount, 2), amount, 1)
  }

  lemma RotationsInvert(w: bv32, amount: bv32)
    ensures RotateBack(RotateLeft(w, amount), amount) == w && RotateLeft(RotateBack(w, amount), amount) == w
  {
    hide RotateLeft, Stage, StageBack;
    RotationIsStaged(w, amount);
    RotationIsStaged(RotateBack(w, amount), amount);
    var w1 := Stage(w, amount, 1);
    var w2 := Stage(w1, amount, 2);
    var w4 := Stage(w2, amount, 4);
    StagesInvert(w, amount, 1);
    StagesInvert(w1, amount, 2);
    StagesInvert(w2, amount, 4);
    StagesInvert(w4, amount, 8);
    StagesInvert(Stage(w4, amount, 8), amount, 16);
    var b16 := StageBack(w, amount, 16);
    var b8 := StageBack(b16, amount, 8);
    var b4 := StageBack(b8, amount, 4);
    StagesInvert(w, amount, 16);
    StagesInvert(b16, amount, 8);
    StagesInvert(b8, amount, 4);
    StagesInvert(b4, amount, 2);
    StagesInvert(StageBack(b4, amount, 2), amount, 1);
  }
}
