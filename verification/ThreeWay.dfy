/** The ThreeWay block cipher with 11 rounds, and the CFB mode the entry headers use it in (src/grf_ciphers.rs). */
module ThreeWay {
  import opened Bytes
  import opened Chaining
  import opened Words

  const ROUNDS: nat := 11

  datatype State = State(a: bv32, b: bv32, c: bv32)

  // The words of `threeway_theta`.

  function ThetaA(a: bv32, b: bv32, c: bv32): bv32 {
    var e := a ^ b ^ c;
    var mix := ((e << 16) | (e >> 16)) ^ ((e << 8) | (e >> 24));
    var u := (a << 24) ^ (c >> 8) ^ (b << 8) ^ (a >> 24);
    a ^ mix ^ u
  }

  function ThetaB(a: bv32, b: bv32, c: bv32): bv32 {
    var e := a ^ b ^ c;
    var mix := ((e << 16) | (e >> 16)) ^ ((e << 8) | (e >> 24));
    var v := (b << 24) ^ (a >> 8) ^ (c << 8) ^ (b >> 24);
    b ^ mix ^ v
  }

  function ThetaC(a: bv32, b: bv32, c: bv32): bv32 {
    var e := a ^ b ^ c;
    var mix := ((e << 16) | (e >> 16)) ^ ((e << 8) | (e >> 24));
    var u := (a << 24) ^ (c >> 8) ^ (b << 8) ^ (a >> 24);
    var v := (b << 24) ^ (a >> 8) ^ (c << 8) ^ (b >> 24);
    c ^ mix ^ (u >> 16) ^ (v << 16)
  }

  /** `threeway_theta` */
  function Theta(s: State): State {
    State(ThetaA(s.a, s.b, s.c), ThetaB(s.a, s.b, s.c), ThetaC(s.a, s.b, s.c))
  }

  function Added(w: bv32, key: bv32, constant: bv32): bv32 {
    w ^ key ^ constant
  }

  /** The key words and, in the outer words, the round constant. */
  function AddKey(s: State, key: State, rc: bv32): State {
    State(Added(s.a, key.a, rc << 16), Added(s.b, key.b, 0), Added(s.c, key.c, rc))
  }

  /** One word of the nonlinear step. */
  function Lane(x: bv32, y: bv32, z: bv32): bv32 {
    x ^ (y | !z)
  }

  /** The nonlinear step between two rotations. */
  function Substituted(s: State): State {
    var u, v := RotateLeft(s.a, 22), RotateLeft(s.c, 1);
    State(RotateLeft(Lane(u, s.b, v), 1), Lane(s.b, v, u), RotateLeft(Lane(v, u, s.b), 22))
  }

  /** The next round constant. */
  function NextConstant(rc: bv32): bv32 {
    var doubled := rc << 1;
    if doubled & 0x10000 != 0 then doubled ^ 0x11011 else doubled
  }

  /** The round constant after `n` rounds. */
  function ConstantAfter(n: nat): bv32 {
    if n == 0 then 0x0b0b else NextConstant(ConstantAfter(n - 1))
  }

  function Rounds(s: State, key: State, n: nat): State {
    if n == 0 then s
    else Substituted(Theta(AddKey(Rounds(s, key, n - 1), key, ConstantAfter(n - 1))))
  }

  function StateOf(block: Block12): State {
    State(BigEndian(block, 0), BigEndian(block, 1), BigEndian(block, 2))
  }

  function BlockOf(s: State): Block12 {
    BigEndianBytes(s.a) + BigEndianBytes(s.b) + BigEndianBytes(s.c)
  }

  function EncryptedBlock(key: Block12, block: Block12): Block12 {
    BlockOf(Theta(AddKey(Rounds(StateOf(block), StateOf(key), ROUNDS), StateOf(key), ConstantAfter(ROUNDS))))
  }

  method Encrypt(key: Block12, block: Block12) returns (result: Block12)
    ensures result == EncryptedBlock(key, block)
  {
    hide Theta, AddKey, Substituted, NextConstant, StateOf, BlockOf;
    var k, s := StateOf(key), StateOf(block);
    var rc: bv32 := 0x0b0b;
    for round := 0 to ROUNDS
      invariant s == Rounds(StateOf(block), k, round)
      invariant rc == ConstantAfter(round)
    {
      s := Substituted(Theta(AddKey(s, k, rc)));
      rc := NextConstant(rc);
    }
    result := BlockOf(Theta(AddKey(s, k, rc)));
  }

  // ---------------------------------------------------------------- the linear step, twice

  // Each word of a step, and of a step on the words that a step gives, as an expression in the words it started from.

  lemma ThetaWordA(a: bv32, b: bv32, c: bv32)
    ensures var e := a ^ b ^ c;
            var mix := ((e << 16) | (e >> 16)) ^ ((e << 8) | (e >> 24));
            var u := (a << 24) ^ (c >> 8) ^ (b << 8) ^ (a >> 24);
            ThetaA(a, b, c) == a ^ mix ^ u
  {
  }

  lemma ThetaWordB(a: bv32, b: bv32, c: bv32)
    ensures var e := a ^ b ^ c;
            var mix := ((e << 16) | (e >> 16)) ^ ((e << 8) | (e >> 24));
            var v := (b << 24) ^ (a >> 8) ^ (c << 8) ^ (b >> 24);
            ThetaB(a, b, c) == b ^ mix ^ v
  {
  }

  lemma ThetaWordC(a: bv32, b: bv32, c: bv32)
    ensures var e := a ^ b ^ c;
            var mix := ((e << 16) | (e >> 16)) ^ ((e << 8) | (e >> 24));
            var u := (a << 24) ^ (c >> 8) ^ (b << 8) ^ (a >> 24);
            var v := (b << 24) ^ (a >> 8) ^ (c << 8) ^ (b >> 24);
            ThetaC(a, b, c) == c ^ mix ^ (u >> 16) ^ (v << 16)
  {
  }

  lemma ThetaAgainA(a: bv32, b: bv32, c: bv32)
    ensures var e := a ^ b ^ c;
            var mix := ((e << 16) | (e >> 16)) ^ ((e << 8) | (e >> 24));
            var u := (a << 24) ^ (c >> 8) ^ (b << 8) ^ (a >> 24);
            var v := (b << 24) ^ (a >> 8) ^ (c << 8) ^ (b >> 24);
            var x, y, z := a ^ mix ^ u, b ^ mix ^ v, c ^ mix ^ (u >> 16) ^ (v << 16);
            ThetaA(x, y, z) == a ^ e ^ ((e << 16) | (e >> 16))
  {
  }

  lemma ThetaAgainB(a: bv32, b: bv32, c: bv32)
    ensures var e := a ^ b ^ c;
            var mix := ((e << 16) | (e >> 16)) ^ ((e << 8) | (e >> 24));
            var u := (a << 24) ^ (c >> 8) ^ (b << 8) ^ (a >> 24);
            var v := (b << 24) ^ (a >> 8) ^ (c << 8) ^ (b >> 24);
            var x, y, z := a ^ mix ^ u, b ^ mix ^ v, c ^ mix ^ (u >> 16) ^ (v << 16);
            ThetaB(x, y, z) == b ^ e ^ ((e << 16) | (e >> 16))
  {
  }

  lemma ThetaAgainC(a: bv32, b: bv32, c: bv32)
    ensures var e := a ^ b ^ c;
            var mix := ((e << 16) | (e >> 16)) ^ ((e << 8) | (e >> 24));
            var u := (a << 24) ^ (c >> 8) ^ (b << 8) ^ (a >> 24);
            var v := (b << 24) ^ (a >> 8) ^ (c << 8) ^ (b >> 24);
            var x, y, z := a ^ mix ^ u, b ^ mix ^ v, c ^ mix ^ (u >> 16) ^ (v << 16);
            ThetaC(x, y, z) == c ^ e ^ ((e << 16) | (e >> 16))
  {
  }

  /** A word with the sum of the three words, and that sum turned by two bytes, added to it. */
  function WithParity(w: bv32, a: bv32, b: bv32, c: bv32): bv32 {
    var e := a ^ b ^ c;
    w ^ e ^ ((e << 16) | (e >> 16))
  }

  lemma WithParityWord(w: bv32, a: bv32, b: bv32, c: bv32)
    ensures var e := a ^ b ^ c;
            WithParity(w, a, b, c) == w ^ e ^ ((e << 16) | (e >> 16))
  {
  }

  lemma WithParityAgain(w: bv32, a: bv32, b: bv32, c: bv32)
    ensures var e := a ^ b ^ c;
            var p := (e << 16) | (e >> 16);
            WithParity(w ^ e ^ p, a ^ e ^ p, b ^ e ^ p, c ^ e ^ p) == w
  {
  }

  function Paired(s: State): State {
    State(WithParity(s.a, s.a, s.b, s.c), WithParity(s.b, s.a, s.b, s.c), WithParity(s.c, s.a, s.b, s.c))
  }

  lemma ThetaTwiceA(a: bv32, b: bv32, c: bv32)
    ensures ThetaA(ThetaA(a, b, c), ThetaB(a, b, c), ThetaC(a, b, c)) == WithParity(a, a, b, c)
  {
    hide ThetaA, ThetaB, ThetaC, WithParity;
    ThetaWordA(a, b, c);
    ThetaWordB(a, b, c);
    ThetaWordC(a, b, c);
    ThetaAgainA(a, b, c);
    WithParityWord(a, a, b, c);
  }

  lemma ThetaTwiceB(a: bv32, b: bv32, c: bv32)
    ensures ThetaB(ThetaA(a, b, c), ThetaB(a, b, c), ThetaC(a, b, c)) == WithParity(b, a, b, c)
  {
    hide ThetaA, ThetaB, ThetaC, WithParity;
    ThetaWordA(a, b, c);
    ThetaWordB(a, b, c);
    ThetaWordC(a, b, c);
    ThetaAgainB(a, b, c);
    WithParityWord(b, a, b, c);
  }

  lemma ThetaTwiceC(a: bv32, b: bv32, c: bv32)
    ensures ThetaC(ThetaA(a, b, c), ThetaB(a, b, c), ThetaC(a, b, c)) == WithParity(c, a, b, c)
  {
    hide ThetaA, ThetaB, ThetaC, WithParity;
    ThetaWordA(a, b, c);
    ThetaWordB(a, b, c);
    ThetaWordC(a, b, c);
    ThetaAgainC(a, b, c);
    WithParityWord(c, a, b, c);
  }

  /** The linear step done twice adds to each word a sum of all of them. */
  lemma ThetaTwice(s: State)
    ensures Theta(Theta(s)) == Paired(s)
  {
    hide ThetaA, ThetaB, ThetaC, WithParity;
    ThetaTwiceA(s.a, s.b, s.c);
    ThetaTwiceB(s.a, s.b, s.c);
    ThetaTwiceC(s.a, s.b, s.c);
  }

  lemma ParityTwice(w: bv32, a: bv32, b: bv32, c: bv32)
    ensures WithParity(WithParity(w, a, b, c), WithParity(a, a, b, c), WithParity(b, a, b, c),
                       WithParity(c, a, b, c)) == w
  {
    hide WithParity;
    WithParityWord(w, a, b, c);
    WithParityWord(a, a, b, c);
    WithParityWord(b, a, b, c);
    WithParityWord(c, a, b, c);
    WithParityAgain(w, a, b, c);
  }

  lemma PairedTwice(s: State)
    ensures Paired(Paired(s)) == s
  {
    hide WithParity;
    ParityTwice(s.a, s.a, s.b, s.c);
    ParityTwice(s.b, s.a, s.b, s.c);
    ParityTwice(s.c, s.a, s.b, s.c);
  }

  /** The linear step done four times is the identity, so three more undo it. */
  lemma ThetaFourTimes(s: State)
    ensures Theta(Theta(Theta(Theta(s)))) == s
  {
    hide Theta, Paired;
    ThetaTwice(s);
    ThetaTwice(Theta(Theta(s)));
    PairedTwice(s);
  }

  // ---------------------------------------------------------------- the inverse

  /** The words that a nonlinear step took are mixed back with the others in the other order. */
  lemma LanesCancel(x: bv32, y: bv32, z: bv32)
    ensures Lane(Lane(x, y, z), Lane(z, x, y), Lane(y, z, x)) == x
  {
  }

  ghost function Unsubstituted(s: State): State {
    var x, z := RotateBack(s.a, 1), RotateBack(s.c, 22);
    State(RotateBack(Lane(x, z, s.b), 22), Lane(s.b, x, z), RotateBack(Lane(z, s.b, x), 1))
  }

  lemma SubstitutionInverts(s: State)
    ensures Unsubstituted(Substituted(s)) == s && Substituted(Unsubstituted(s)) == s
  {
    hide RotateLeft, RotateBack, Lane;
    var u, v := RotateLeft(s.a, 22), RotateLeft(s.c, 1);
    RotationsInvert(Lane(u, s.b, v), 1);
    RotationsInvert(Lane(v, u, s.b), 22);
    LanesCancel(u, s.b, v);
    LanesCancel(s.b, v, u);
    LanesCancel(v, u, s.b);
    RotationsInvert(s.a, 22);
    RotationsInvert(s.c, 1);
    var x, z := RotateBack(s.a, 1), RotateBack(s.c, 22);
    RotationsInvert(Lane(x, z, s.b), 22);
    RotationsInvert(Lane(z, s.b, x), 1);
    LanesCancel(x, z, s.b);
    LanesCancel(s.b, x, z);
    LanesCancel(z, s.b, x);
    RotationsInvert(s.a, 1);
    RotationsInvert(s.c, 22);
  }

  lemma AddedTwice(w: bv32, key: bv32, constant: bv32)
    ensures Added(Added(w, key, constant), key, constant) == w
  {
  }

  lemma KeyedTwice(s: State, key: State, rc: bv32)
    ensures AddKey(AddKey(s, key, rc), key, rc) == s
  {
    hide Added;
    AddedTwice(s.a, key.a, rc << 16);
    AddedTwice(s.b, key.b, 0);
    AddedTwice(s.c, key.c, rc);
  }

  ghost function UndoRounds(s: State, key: State, n: nat): State
    decreases n
  {
    if n == 0 then s
    else UndoRounds(AddKey(Theta(Theta(Theta(Unsubstituted(s)))), key, ConstantAfter(n - 1)), key, n - 1)
  }

  lemma {:induction false} RoundsInvert(s: State, key: State, n: nat)
    ensures UndoRounds(Rounds(s, key, n), key, n) == s && Rounds(UndoRounds(s, key, n), key, n) == s
    decreases n
  {
    hide Theta, AddKey, Substituted, Unsubstituted, ConstantAfter;
    if n > 0 {
      var before := Rounds(s, key, n - 1);
      var keyed := AddKey(before, key, ConstantAfter(n - 1));
      SubstitutionInverts(Theta(keyed));
      ThetaFourTimes(keyed);
      KeyedTwice(before, key, ConstantAfter(n - 1));
      RoundsInvert(s, key, n - 1);
      var back := Theta(Theta(Theta(Unsubstituted(s))));
      RoundsInvert(AddKey(back, key, ConstantAfter(n - 1)), key, n - 1);
      KeyedTwice(back, key, ConstantAfter(n - 1));
      ThetaFourTimes(Unsubstituted(s));
      SubstitutionInverts(s);
    }
  }

  lemma BlockOfState(block: Block12)
    ensures BlockOf(StateOf(block)) == block
  {
    hide BigEndian, BigEndianBytes;
    BytesOfBigEndian(block, 0);
    BytesOfBigEndian(block, 1);
    BytesOfBigEndian(block, 2);
    assert block == block[0..4] + block[4..8] + block[8..12];
  }

  lemma StateOfBlock(s: State)
    ensures StateOf(BlockOf(s)) == s
  {
    hide BigEndian, BigEndianBytes;
    var b := BlockOf(s);
    assert b[4 * 0..4 * 0 + 4] == BigEndianBytes(s.a);
    assert b[4 * 1..4 * 1 + 4] == BigEndianBytes(s.b);
    assert b[4 * 2..4 * 2 + 4] == BigEndianBytes(s.c);
    BigEndianOfBytes(b, 0, s.a);
    BigEndianOfBytes(b, 1, s.b);
    BigEndianOfBytes(b, 2, s.c);
  }

  ghost function DecryptedBlock(key: Block12, block: Block12): Block12 {
    var k := StateOf(key);
    BlockOf(UndoRounds(AddKey(Theta(Theta(Theta(StateOf(block)))), k, ConstantAfter(ROUNDS)), k, ROUNDS))
  }

  /** For every key the eleven rounds and the output step permute the blocks. */
  lemma EncryptionIsPermutation(key: Block12, block: Block12)
    ensures DecryptedBlock(key, EncryptedBlock(key, block)) == block
    ensures EncryptedBlock(key, DecryptedBlock(key, block)) == block
  {
    hide Theta, AddKey, ConstantAfter, StateOf, BlockOf, Rounds, UndoRounds;
    var k, s, rc := StateOf(key), StateOf(block), ConstantAfter(ROUNDS);
    var there := Rounds(s, k, ROUNDS);
    StateOfBlock(Theta(AddKey(there, k, rc)));
    ThetaFourTimes(AddKey(there, k, rc));
    KeyedTwice(there, k, rc);
    RoundsInvert(s, k, ROUNDS);
    BlockOfState(block);
    var back := Theta(Theta(Theta(s)));
    StateOfBlock(UndoRounds(AddKey(back, k, rc), k, ROUNDS));
    RoundsInvert(AddKey(back, k, rc), k, ROUNDS);
    KeyedTwice(back, k, rc);
    ThetaFourTimes(s);
  }

  // ---------------------------------------------------------------- CFB

  /** The keystream function of CFB under one key. */
  function Stream(key: Block12): seq<byte> --> seq<byte> {
    (block: seq<byte>) requires |block| == 12 => EncryptedBlock(key, block)
  }

  /** `threeway_cfb_decrypt` on the slice of `data` from `lo` to `hi`. */
  method ThreeWayCfbDecrypt(data: array<byte>, lo: nat, hi: nat, key: Block12, iv: Block12)
    requires lo <= hi <= data.Length
    modifies data
    ensures data[..] == Spliced(old(data[..]), lo, CfbDecrypted(Stream(key), 12, iv, old(data[..])[lo..hi]))
  {
    hide Xor, EncryptedBlock, CfbDecrypted, Spliced, InPass;
    ghost var s := data[..];
    ghost var done, rest := [], s[lo..hi];
    PassStarts(s, lo, hi);
    var previous: Block12 := iv;
    var at := lo;
    while hi - at >= 12
      invariant lo <= at <= hi && at == lo + |done| && |rest| == hi - at
      invariant InPass(data[..], s[..lo], done, rest, s[hi..])
      invariant done + CfbDecrypted(Stream(key), 12, previous, rest) == CfbDecrypted(Stream(key), 12, iv, s[lo..hi])
    {
      var encrypted: Block12 := data[..][at..at + 12];
      var stream := Encrypt(key, previous);
      var block: Block12 := Xor(encrypted, stream);
      PassMoves(data[..], s[..lo], done, rest, s[hi..], at, block);
      CfbStep(Stream(key), 12, previous, done, rest, block);
      StoreAt(data, at, block);
      done, rest := done + block, rest[12..];
      previous := encrypted;
      at := at + 12;
    }
    CfbRemainder(Stream(key), 12, previous, rest);
    PassEnds(data[..], s, lo, hi, done, rest);
  }
}
