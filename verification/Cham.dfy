/** The CHAM block cipher with 80 rounds over big-endian words, and its CBC mode (src/grf_ciphers.rs). */
module Cham {
  import opened Bytes
  import opened Chaining
  import opened Words

  const ROUNDS: nat := 80

  type State = s: seq<bv32> | |s| == 4 witness [0, 0, 0, 0]
  type Keys = s: seq<bv32> | |s| == 8 witness [0, 0, 0, 0, 0, 0, 0, 0]

  function StateOf(b: Block16): State {
    [BigEndian(b, 0), BigEndian(b, 1), BigEndian(b, 2), BigEndian(b, 3)]
  }

  function BlockOf(w: State): Block16 {
    BigEndianBytes(w[0]) + BigEndianBytes(w[1]) + BigEndianBytes(w[2]) + BigEndianBytes(w[3])
  }

  lemma StateRoundTrip(w: State)
    ensures StateOf(BlockOf(w)) == w
  {
    hide BigEndianBytes, BigEndian;
    var b := BlockOf(w);
    assert b[4 * 0..4 * 0 + 4] == BigEndianBytes(w[0]) && b[4 * 1..4 * 1 + 4] == BigEndianBytes(w[1]);
    assert b[4 * 2..4 * 2 + 4] == BigEndianBytes(w[2]) && b[4 * 3..4 * 3 + 4] == BigEndianBytes(w[3]);
    BigEndianOfBytes(BlockOf(w), 0, w[0]);
    BigEndianOfBytes(BlockOf(w), 1, w[1]);
    BigEndianOfBytes(BlockOf(w), 2, w[2]);
    BigEndianOfBytes(BlockOf(w), 3, w[3]);
  }

  lemma BlockRoundTrip(b: Block16)
    ensures BlockOf(StateOf(b)) == b
  {
    hide BigEndianBytes, BigEndian;
    BytesOfBigEndian(b, 0);
    BytesOfBigEndian(b, 1);
    BytesOfBigEndian(b, 2);
    BytesOfBigEndian(b, 3);
    assert b == b[0..4] + b[4..8] + b[8..12] + b[12..16];
  }

  // ---------------------------------------------------------------- rounds

  function RoundNumber(r: nat): bv32
    requires r < ROUNDS
  {
    r as bv32
  }

  /** Rotation by eight bits or by one: the amounts alternate from round to round. */
  function RotatedLeft(w: bv32, byEight: bool): bv32 {
    if byEight then (w << 8) | (w >> 24) else (w << 1) | (w >> 31)
  }

  function RotatedRight(w: bv32, byEight: bool): bv32 {
    if byEight then (w >> 8) | (w << 24) else (w >> 1) | (w << 31)
  }

  lemma RotationsInvert(w: bv32, byEight: bool)
    ensures RotatedRight(RotatedLeft(w, byEight), byEight) == w
    ensures RotatedLeft(RotatedRight(w, byEight), byEight) == w
  {
  }

  /** The round number XORed into a word. */
  function Numbered(w: bv32, r: bv32): bv32 {
    w ^ r
  }

  lemma NumberedTwice(w: bv32, r: bv32)
    ensures Numbered(Numbered(w, r), r) == w
  {
  }

  function EncryptedWord(word: bv32, mask: bv32, r: bv32, byEight: bool): bv32 {
    RotatedLeft(WrappingAdd(Numbered(word, r), mask), byEight)
  }

  function DecryptedWord(word: bv32, mask: bv32, r: bv32, byEight: bool): bv32 {
    Numbered(WrappingSub(RotatedRight(word, byEight), mask), r)
  }

  lemma WordsInvert(word: bv32, mask: bv32, r: bv32, byEight: bool)
    ensures DecryptedWord(EncryptedWord(word, mask, r, byEight), mask, r, byEight) == word
    ensures EncryptedWord(DecryptedWord(word, mask, r, byEight), mask, r, byEight) == word
  {
    hide RotatedLeft, RotatedRight, WrappingAdd, WrappingSub, Numbered;
    var rotated := RotatedRight(word, byEight);
    RotationsInvert(WrappingAdd(Numbered(word, r), mask), byEight);
    AddSubInvert(Numbered(word, r), mask);
    NumberedTwice(word, r);
    NumberedTwice(WrappingSub(rotated, mask), r);
    AddSubInvert(rotated, mask);
    RotationsInvert(word, byEight);
  }

  /** What a round adds to its word: the next word, rotated, mixed with a round key. */
  function RoundMask(w: State, keys: Keys, r: nat): bv32 {
    RotatedLeft(w[(r + 1) % 4], r % 2 == 1) ^ keys[r % 8]
  }

  function EncryptRound(w: State, keys: Keys, r: nat): State
    requires r < ROUNDS
  {
    hide EncryptedWord, RoundMask, RoundNumber;
    w[r % 4 := EncryptedWord(w[r % 4], RoundMask(w, keys, r), RoundNumber(r), r % 2 == 0)]
  }

  function DecryptRound(w: State, keys: Keys, r: nat): State
    requires r < ROUNDS
  {
    hide DecryptedWord, RoundMask, RoundNumber;
    w[r % 4 := DecryptedWord(w[r % 4], RoundMask(w, keys, r), RoundNumber(r), r % 2 == 0)]
  }

  lemma RoundMaskStays(w: State, keys: Keys, r: nat, word: bv32)
    ensures RoundMask(w[r % 4 := word], keys, r) == RoundMask(w, keys, r)
  {
    hide RotatedLeft;
    assert (r + 1) % 4 != r % 4;
  }

  /** A round changes one word by a mask that depends on another, so the mask is the same on the way back. */
  lemma RoundsInvert(w: State, keys: Keys, r: nat)
    requires r < ROUNDS
    ensures DecryptRound(EncryptRound(w, keys, r), keys, r) == w
    ensures EncryptRound(DecryptRound(w, keys, r), keys, r) == w
  {
    hide EncryptedWord, DecryptedWord, RoundNumber, RoundMask;
    RoundMaskStays(w, keys, r, EncryptedWord(w[r % 4], RoundMask(w, keys, r), RoundNumber(r), r % 2 == 0));
    RoundMaskStays(w, keys, r, DecryptedWord(w[r % 4], RoundMask(w, keys, r), RoundNumber(r), r % 2 == 0));
    WordsInvert(w[r % 4], RoundMask(w, keys, r), RoundNumber(r), r % 2 == 0);
  }

  /** Rounds 0 to n-1, in order. */
  function Encrypted(w: State, keys: Keys, n: nat): State
    requires n <= ROUNDS
  {
    if n == 0 then w else EncryptRound(Encrypted(w, keys, n - 1), keys, n - 1)
  }

  /** Rounds n-1 down to 0. */
  function Decrypted(w: State, keys: Keys, n: nat): State
    requires n <= ROUNDS
    decreases n
  {
    if n == 0 then w else Decrypted(DecryptRound(w, keys, n - 1), keys, n - 1)
  }

  lemma {:induction false} EncryptionInverts(w: State, keys: Keys, n: nat)
    requires n <= ROUNDS
    ensures Decrypted(Encrypted(w, keys, n), keys, n) == w
    ensures Encrypted(Decrypted(w, keys, n), keys, n) == w
    decreases n
  {
    hide EncryptRound, DecryptRound;
    if n > 0 {
      RoundsInvert(Encrypted(w, keys, n - 1), keys, n - 1);
      EncryptionInverts(w, keys, n - 1);
      EncryptionInverts(DecryptRound(w, keys, n - 1), keys, n - 1);
      RoundsInvert(w, keys, n - 1);
    }
  }

  // ---------------------------------------------------------------- blocks

  function EncryptBlock(keys: Keys): Block16 -> Block16 {
    (b: Block16) => BlockOf(Encrypted(StateOf(b), keys, ROUNDS))
  }

  function DecryptBlock(keys: Keys): Block16 -> Block16 {
    (b: Block16) => BlockOf(Decrypted(StateOf(b), keys, ROUNDS))
  }

  /** All 80 rounds are undone, in either order, on every block and for every key schedule. */
  lemma BlocksInvert(keys: Keys)
    ensures Undoes(EncryptBlock(keys), DecryptBlock(keys))
    ensures Undoes(DecryptBlock(keys), EncryptBlock(keys))
  {
    hide Encrypted, Decrypted, StateOf, BlockOf;
    forall b: Block16
      ensures DecryptBlock(keys)(EncryptBlock(keys)(b)) == b
      ensures EncryptBlock(keys)(DecryptBlock(keys)(b)) == b
    {
      var w := StateOf(b);
      StateRoundTrip(Encrypted(w, keys, ROUNDS));
      StateRoundTrip(Decrypted(w, keys, ROUNDS));
      EncryptionInverts(w, keys, ROUNDS);
      BlockRoundTrip(b);
    }
  }

  function LowKey(w: bv32): bv32 {
    w ^ RotateLeft(w, 1) ^ RotateLeft(w, 8)
  }

  function HighKey(w: bv32): bv32 {
    w ^ RotateLeft(w, 1) ^ RotateLeft(w, 11)
  }

  /** The partner of a number in its even-odd pair, which is what XOR with 1 gives. */
  function PairedWith(i: nat): nat {
    if i % 2 == 0 then i + 1 else i - 1
  }

  function Schedule(key: Block16): Keys {
    seq(8, k requires 0 <= k < 8 => if k < 4 then LowKey(BigEndian(key, k))
        else HighKey(BigEndian(key, PairedWith(k) - 4)))
  }

  method KeySchedule(key: Block16) returns (keys: Keys)
    ensures keys == Schedule(key)
  {
    hide LowKey, HighKey, BigEndian;
    keys := seq(8, _ => 0);
    for i := 0 to 4
      invariant forall k | 0 <= k < i :: keys[k] == LowKey(BigEndian(key, k))
      invariant forall k | 4 <= k < 8 && PairedWith(k) < i + 4 :: keys[k] == HighKey(BigEndian(key, PairedWith(k) - 4))
    {
      var value := BigEndian(key, i);
      keys := keys[i := LowKey(value)];
      keys := keys[PairedWith(i + 4) := HighKey(value)];
    }
  }

  /** The round loop of one block, last round first. */
  method DecryptRounds(keys: Keys, encrypted: Block16) returns (block: Block16)
    ensures block == DecryptBlock(keys)(encrypted)
  {
    hide DecryptedWord, RoundMask, RoundNumber, StateOf, BlockOf;
    var words := StateOf(encrypted);
    var round := ROUNDS;
    while round > 0
      invariant 0 <= round <= ROUNDS
      invariant Decrypted(words, keys, round) == Decrypted(StateOf(encrypted), keys, ROUNDS)
    {
      round := round - 1;
      var i := round % 4;
      var mask := RoundMask(words, keys, round);
      words := words[i := DecryptedWord(words[i], mask, RoundNumber(round), round % 2 == 0)];
    }
    block := BlockOf(words);
  }

  function CbcDecrypted(key: Block16, iv: Block16, data: seq<byte>): (r: seq<byte>)
    ensures |r| == |data|
  {
    hide DecryptBlock, Schedule;
    Chaining.CbcDecrypted(DecryptBlock(Schedule(key)), iv, data)
  }

  /** The writer's side: CBC over `cham_encrypt`. */
  function CbcEncrypted(key: Block16, iv: Block16, data: seq<byte>): (r: seq<byte>)
    ensures |r| == |data|
  {
    hide EncryptBlock, Schedule;
    Chaining.CbcEncrypted(EncryptBlock(Schedule(key)), iv, data)
  }

  /** `cham_cbc_decrypt` undoes the writer's CBC over any number of blocks, and the writer's undoes it. */
  lemma ChamCbcRoundTrip(key: Block16, iv: Block16, data: seq<byte>)
    ensures CbcDecrypted(key, iv, CbcEncrypted(key, iv, data)) == data
    ensures CbcEncrypted(key, iv, CbcDecrypted(key, iv, data)) == data
  {
    hide EncryptBlock, DecryptBlock, Schedule;
    var keys := Schedule(key);
    BlocksInvert(keys);
    CbcRoundTrip(EncryptBlock(keys), DecryptBlock(keys), iv, data);
    CbcReverseRoundTrip(EncryptBlock(keys), DecryptBlock(keys), iv, data);
  }

  /** `cham_cbc_decrypt` on the slice of `data` from `lo` to `hi`. */
  method ChamCbcDecrypt(data: array<byte>, lo: nat, hi: nat, key: Block16, iv: Block16)
    requires lo <= hi <= data.Length
    modifies data
    ensures data[..] == Spliced(old(data[..]), lo, CbcDecrypted(key, iv, old(data[..])[lo..hi]))
  {
    hide Xor, DecryptBlock, Schedule, Chaining.CbcDecrypted, Spliced, InPass;
    var keys := KeySchedule(key);
    ghost var d := DecryptBlock(keys);
    ghost var s := data[..];
    ghost var done, rest := [], s[lo..hi];
    PassStarts(s, lo, hi);
    var previous: Block16 := iv;
    var at := lo;
    while hi - at >= 16
      invariant lo <= at <= hi && at == lo + |done| && |rest| == hi - at
      invariant InPass(data[..], s[..lo], done, rest, s[hi..])
      invariant done + Chaining.CbcDecrypted(d, previous, rest) == Chaining.CbcDecrypted(d, iv, s[lo..hi])
    {
      var encrypted: Block16 := data[..][at..at + 16];
      var words := DecryptRounds(keys, encrypted);
      var block: Block16 := Xor(words, previous);
      PassMoves(data[..], s[..lo], done, rest, s[hi..], at, block);
      CbcStep(d, previous, done, rest, block);
      StoreAt(data, at, block);
      done, rest := done + block, rest[16..];
      previous := encrypted;
      at := at + 16;
    }
    CbcRemainder(d, previous, rest);
    PassEnds(data[..], s, lo, hi, done, rest);
  }
}
