/** The RC6 block cipher with 20 rounds, used as a CFB keystream (src/grf_ciphers.rs). Word arithmetic wraps around. */
module Rc6 {
  import opened Bytes
  import opened Words

  type Keys = s: seq<bv32> | |s| == 44 witness seq(44, _ => 0)

  const ROUNDS: nat := 20
  const MIXING_STEPS: nat := 132

  // ---------------------------------------------------------------- key schedule

  /** The registers of the key schedule: the key table, the user key's words, and the two words last written. */
  datatype Mixing = Mixing(keys: Keys, words: seq<bv32>, a: bv32, b: bv32)

  function InitialKey(i: nat): bv32 {
    if i == 0 then 0xb7e15163 else InitialKey(i - 1) + 0x9e3779b9
  }

  function InitialMixing(key: Block16): Mixing {
    Mixing(seq(44, i requires 0 <= i < 44 => InitialKey(i)),
           [LittleEndian(key, 0), LittleEndian(key, 1), LittleEndian(key, 2), LittleEndian(key, 3)], 0, 0)
  }

  function MixedKey(key: bv32, a: bv32, b: bv32): bv32 {
    RotateLeft(key + a + b, 3)
  }

  function MixedWord(word: bv32, a: bv32, b: bv32): bv32 {
    RotateLeft(word + a + b, a + b)
  }

  function MixStep(m: Mixing, i: nat, j: nat): Mixing
    requires i < 44 && |m.words| == 4 && j < 4
  {
    var a := MixedKey(m.keys[i], m.a, m.b);
    var b := MixedWord(m.words[j], a, m.b);
    Mixing(m.keys[i := a], m.words[j := b], a, b)
  }

  /** The schedule after `n` of its 132 steps. */
  function MixSteps(key: Block16, n: nat): (m: Mixing)
    ensures |m.words| == 4
  {
    if n == 0 then InitialMixing(key) else MixStep(MixSteps(key, n - 1), (n - 1) % 44, (n - 1) % 4)
  }

  function Schedule(key: Block16): Keys {
    MixSteps(key, MIXING_STEPS).keys
  }

  lemma NextMixing(key: Block16, n: nat)
    ensures MixSteps(key, n + 1) == MixStep(MixSteps(key, n), n % 44, n % 4)
  {
    hide MixStep;
  }

  lemma StepWrites(m: Mixing, i: nat, j: nat)
    requires i < 44 && |m.words| == 4 && j < 4
    ensures var a := MixedKey(m.keys[i], m.a, m.b);
            var b := MixedWord(m.words[j], a, m.b);
            MixStep(m, i, j) == Mixing(m.keys[i := a], m.words[j := b], a, b)
  {
    hide MixedKey, MixedWord;
  }

  lemma NextKeyIndex(n: nat)
    ensures (n % 44 + 1) % 44 == (n + 1) % 44
  {
    var q, r := n / 44, n % 44;
    assert n + 1 == 44 * q + (r + 1);
    if r == 43 {
      assert n + 1 == 44 * (q + 1);
    }
  }

  lemma NextWordIndex(n: nat)
    ensures (n % 4 + 1) % 4 == (n + 1) % 4
  {
  }

  method KeySchedule(key: Block16) returns (keys: Keys)
    ensures keys == Schedule(key)
  {
    hide MixedKey, MixedWord, MixStep, LittleEndian, InitialKey, MixSteps, InitialMixing;
    var m := InitialMixing(key);
    var words, a, b := m.words, m.a, m.b;
    keys := m.keys;
    var i, j := 0, 0;
    InitialSteps(key);
    for n := 0 to MIXING_STEPS
      invariant i == n % 44 && j == n % 4 && |words| == 4
      invariant Mixing(keys, words, a, b) == MixSteps(key, n)
    {
      NextMixing(key, n);
      StepWrites(MixSteps(key, n), i, j);
      NextKeyIndex(n);
      NextWordIndex(n);
      a := MixedKey(keys[i], a, b);
      keys := keys[i := a];
      b := MixedWord(words[j], a, b);
      words := words[j := b];
      i := (i + 1) % 44;
      j := (j + 1) % 4;
    }
  }

  lemma InitialSteps(key: Block16)
    ensures MixSteps(key, 0) == InitialMixing(key)
  {
  }

  // ---------------------------------------------------------------- encryption

  datatype State = State(a: bv32, b: bv32, c: bv32, d: bv32)

  function Square(x: bv32): bv32 {
    RotateLeft(x * (2 * x + 1), 5)
  }

  function Mix(w: bv32, mask: bv32): bv32 {
    w ^ mask
  }

  function HalfRound(x: bv32, mask: bv32, amount: bv32, key: bv32): bv32 {
    WrappingAdd(RotateLeft(Mix(x, mask), amount), key)
  }

  function Round(s: State, keys: Keys, i: nat): State
    requires 1 <= i <= 20
  {
    var t, u := Square(s.b), Square(s.d);
    State(s.b, HalfRound(s.c, u, t, keys[2 * i + 1]), s.d, HalfRound(s.a, t, u, keys[2 * i]))
  }

  /** Rounds 1 to n. */
  function Rounds(s: State, keys: Keys, n: nat): State
    requires n <= ROUNDS
  {
    if n == 0 then s else Round(Rounds(s, keys, n - 1), keys, n)
  }

  function StateOf(block: Block16): State {
    State(LittleEndian(block, 0), LittleEndian(block, 1), LittleEndian(block, 2), LittleEndian(block, 3))
  }

  function BlockOf(s: State): Block16 {
    ToBytes(s.a) + ToBytes(s.b) + ToBytes(s.c) + ToBytes(s.d)
  }

  function Whitened(s: State, keys: Keys): State {
    State(s.a, WrappingAdd(s.b, keys[0]), s.c, WrappingAdd(s.d, keys[1]))
  }

  function Finished(s: State, keys: Keys): State {
    State(WrappingAdd(s.a, keys[42]), s.b, WrappingAdd(s.c, keys[43]), s.d)
  }

  function EncryptedBlock(block: Block16, keys: Keys): Block16 {
    BlockOf(Finished(Rounds(Whitened(StateOf(block), keys), keys, ROUNDS), keys))
  }

  method Encrypt(block: Block16, keys: Keys) returns (result: Block16)
    ensures result == EncryptedBlock(block, keys)
  {
    hide Square, HalfRound, StateOf, BlockOf, Whitened, Finished;
    var start := Whitened(StateOf(block), keys);
    var a, b, c, d := start.a, start.b, start.c, start.d;
    for i := 1 to ROUNDS + 1
      invariant State(a, b, c, d) == Rounds(start, keys, i - 1)
    {
      var t := Square(b);
      var u := Square(d);
      a := HalfRound(a, t, u, keys[2 * i]);
      c := HalfRound(c, u, t, keys[2 * i + 1]);
      a, b, c, d := b, c, d, a;
    }
    result := BlockOf(Finished(State(a, b, c, d), keys));
  }

  // ---------------------------------------------------------------- the inverse

  ghost function UndoHalf(y: bv32, mask: bv32, amount: bv32, key: bv32): bv32 {
    Mix(RotateBack(WrappingSub(y, key), amount), mask)
  }

  lemma MasksCancel(w: bv32, mask: bv32)
    ensures Mix(Mix(w, mask), mask) == w
  {
  }

  lemma HalvesInvert(x: bv32, mask: bv32, amount: bv32, key: bv32)
    ensures UndoHalf(HalfRound(x, mask, amount, key), mask, amount, key) == x
    ensures HalfRound(UndoHalf(x, mask, amount, key), mask, amount, key) == x
  {
    hide RotateLeft, RotateBack, WrappingAdd, WrappingSub, Mix;
    AddSubInvert(RotateLeft(Mix(x, mask), amount), key);
    RotationsInvert(Mix(x, mask), amount);
    MasksCancel(x, mask);
    MasksCancel(RotateBack(WrappingSub(x, key), amount), mask);
    RotationsInvert(WrappingSub(x, key), amount);
    AddSubInvert(x, key);
  }

  ghost function UndoRound(s: State, keys: Keys, i: nat): State
    requires 1 <= i <= 20
  {
    var t, u := Square(s.a), Square(s.c);
    State(UndoHalf(s.d, t, u, keys[2 * i]), s.a, UndoHalf(s.b, u, t, keys[2 * i + 1]), s.c)
  }

  /** A round changes two words by functions of the other two, so it can be undone. */
  lemma RoundsInvert(s: State, keys: Keys, i: nat)
    requires 1 <= i <= 20
    ensures UndoRound(Round(s, keys, i), keys, i) == s && Round(UndoRound(s, keys, i), keys, i) == s
  {
    hide Square, HalfRound, UndoHalf;
    HalvesInvert(s.a, Square(s.b), Square(s.d), keys[2 * i]);
    HalvesInvert(s.c, Square(s.d), Square(s.b), keys[2 * i + 1]);
    HalvesInvert(s.d, Square(s.a), Square(s.c), keys[2 * i]);
    HalvesInvert(s.b, Square(s.c), Square(s.a), keys[2 * i + 1]);
  }

  /** Rounds n to 1, undone. */
  ghost function UndoRounds(s: State, keys: Keys, n: nat): State
    requires n <= ROUNDS
    decreases n
  {
    if n == 0 then s else UndoRounds(UndoRound(s, keys, n), keys, n - 1)
  }

  lemma {:induction false} AllRoundsInvert(s: State, keys: Keys, n: nat)
    requires n <= ROUNDS
    ensures UndoRounds(Rounds(s, keys, n), keys, n) == s && Rounds(UndoRounds(s, keys, n), keys, n) == s
    decreases n
  {
    hide Round, UndoRound;
    if n > 0 {
      RoundsInvert(Rounds(s, keys, n - 1), keys, n);
      AllRoundsInvert(s, keys, n - 1);
      AllRoundsInvert(UndoRound(s, keys, n), keys, n - 1);
      RoundsInvert(s, keys, n);
    }
  }

  ghost function Unwhitened(s: State, keys: Keys): State {
    State(s.a, WrappingSub(s.b, keys[0]), s.c, WrappingSub(s.d, keys[1]))
  }

  ghost function Unfinished(s: State, keys: Keys): State {
    State(WrappingSub(s.a, keys[42]), s.b, WrappingSub(s.c, keys[43]), s.d)
  }

  lemma WhiteningInverts(s: State, keys: Keys)
    ensures Unwhitened(Whitened(s, keys), keys) == s && Whitened(Unwhitened(s, keys), keys) == s
    ensures Unfinished(Finished(s, keys), keys) == s && Finished(Unfinished(s, keys), keys) == s
  {
    hide WrappingAdd, WrappingSub;
    AddSubInvert(s.b, keys[0]);
    AddSubInvert(s.d, keys[1]);
    AddSubInvert(s.a, keys[42]);
    AddSubInvert(s.c, keys[43]);
  }

  lemma FourBytes(block: Block16, i: nat)
    requires i < 4
    ensures ToBytes(LittleEndian(block, i)) == block[4 * i..4 * i + 4]
  {
    hide ToBytes, FromBytes;
    ToFromBytes(block[4 * i], block[4 * i + 1], block[4 * i + 2], block[4 * i + 3]);
  }

  lemma WordAt(w: bv32, block: Block16, i: nat)
    requires i < 4 && block[4 * i..4 * i + 4] == ToBytes(w)
    ensures LittleEndian(block, i) == w
  {
    hide ToBytes, FromBytes;
    var part := block[4 * i..4 * i + 4];
    assert part[0] == block[4 * i] && part[1] == block[4 * i + 1] && part[2] == block[4 * i + 2] &&
        part[3] == block[4 * i + 3];
    FromToBytes(w);
  }

  lemma BlockOfState(block: Block16)
    ensures BlockOf(StateOf(block)) == block
  {
    hide ToBytes, LittleEndian;
    FourBytes(block, 0);
    FourBytes(block, 1);
    FourBytes(block, 2);
    FourBytes(block, 3);
    assert block == block[0..4] + block[4..8] + block[8..12] + block[12..16];
  }

  lemma FourWords(a: seq<byte>, b: seq<byte>, c: seq<byte>, d: seq<byte>)
    requires |a| == |b| == |c| == |d| == 4
    ensures var s := a + b + c + d; s[0..4] == a && s[4..8] == b && s[8..12] == c && s[12..16] == d
  {
  }

  lemma StateOfBlock(s: State)
    ensures StateOf(BlockOf(s)) == s
  {
    hide ToBytes, LittleEndian;
    FourWords(ToBytes(s.a), ToBytes(s.b), ToBytes(s.c), ToBytes(s.d));
    WordAt(s.a, BlockOf(s), 0);
    WordAt(s.b, BlockOf(s), 1);
    WordAt(s.c, BlockOf(s), 2);
    WordAt(s.d, BlockOf(s), 3);
  }

  ghost function DecryptedBlock(block: Block16, keys: Keys): Block16 {
    BlockOf(Unwhitened(UndoRounds(Unfinished(StateOf(block), keys), keys, ROUNDS), keys))
  }

  /** For every key schedule the twenty rounds permute the blocks. */
  lemma EncryptionIsPermutation(block: Block16, keys: Keys)
    ensures DecryptedBlock(EncryptedBlock(block, keys), keys) == block
    ensures EncryptedBlock(DecryptedBlock(block, keys), keys) == block
  {
    hide StateOf, BlockOf, Whitened, Unwhitened, Finished, Unfinished, Rounds, UndoRounds;
    var s := StateOf(block);
    var white := Whitened(s, keys);
    var there := Rounds(white, keys, ROUNDS);
    StateOfBlock(Finished(there, keys));
    BlockOfState(block);
    WhiteningInverts(there, keys);
    AllRoundsInvert(white, keys, ROUNDS);
    WhiteningInverts(s, keys);
    var back := UndoRounds(Unfinished(s, keys), keys, ROUNDS);
    StateOfBlock(Unwhitened(back, keys));
    WhiteningInverts(back, keys);
    AllRoundsInvert(Unfinished(s, keys), keys, ROUNDS);
  }

  /** The keystream function of CFB under one key schedule. */
  function Stream(keys: Keys): seq<byte> --> seq<byte> {
    (block: seq<byte>) requires |block| == 16 => EncryptedBlock(block, keys)
  }
}
