/** The RC6 round in sums and turns, and its key schedule as two streams instead of tables (src/grf_ciphers.rs). */
module Rc6Reference {
  import opened Bytes
  import opened Words
  import opened Rc6

  // ---------------------------------------------------------------- the round

  function Turned(p: bv32): bv32 {
    (p << 5) | (p >> 27)
  }

  function Product(x: bv32): bv32 {
    x * (2 * x + 1)
  }

  lemma SquareIs(x: bv32)
    ensures Square(x) == Turned(Product(x))
  {
  }

  /** One round: both masks come from the words that stay, and turn the words they mask by each other's amounts. */
  lemma RoundEquations(s: State, keys: Keys, i: nat)
    requires 1 <= i <= 20
    ensures var t, u := Turned(Product(s.b)), Turned(Product(s.d));
            Round(s, keys, i) ==
            State(s.b, WrappingAdd(RotateLeft(s.c ^ u, t), keys[2 * i + 1]),
                  s.d, WrappingAdd(RotateLeft(s.a ^ t, u), keys[2 * i]))
  {
    hide Square, Turned, Product, RotateLeft, WrappingAdd;
    SquareIs(s.b);
    SquareIs(s.d);
  }

  /** The keys in front of the first round and behind the twentieth. */
  lemma BlockEquations(block: Block16, keys: Keys, start: State, last: State)
    requires start == State(LittleEndian(block, 0), WrappingAdd(LittleEndian(block, 1), keys[0]),
                            LittleEndian(block, 2), WrappingAdd(LittleEndian(block, 3), keys[1]))
    requires last == Rounds(start, keys, 20)
    ensures var r := EncryptedBlock(block, keys);
            && LittleEndian(r, 0) == WrappingAdd(last.a, keys[42]) && LittleEndian(r, 1) == last.b
            && LittleEndian(r, 2) == WrappingAdd(last.c, keys[43]) && LittleEndian(r, 3) == last.d
  {
    hide Rounds, BlockOf, LittleEndian, WrappingAdd;
    assert start == Whitened(StateOf(block), keys);
    StateOfBlock(Finished(last, keys));
  }

  // ---------------------------------------------------------------- the key schedule

  /** The constants the key table starts from. */
  function TableStart(i: nat): bv32 {
    if i == 0 then 0xb7e15163 else TableStart(i - 1) + 0x9e3779b9
  }

  function Added(w: bv32, a: bv32, b: bv32): bv32 {
    w + a + b
  }

  function ThreeBits(w: bv32): bv32 {
    (w << 3) | (w >> 29)
  }

  lemma MixedKeyIs(w: bv32, a: bv32, b: bv32)
    ensures MixedKey(w, a, b) == ThreeBits(Added(w, a, b))
  {
  }

  lemma MixedWordIs(w: bv32, a: bv32, b: bv32)
    ensures MixedWord(w, a, b) == RotateLeft(Added(w, a, b), WrappingAdd(a, b))
  {
    hide RotateLeft;
  }

  /** The words written into the key table, numbered by steps from 1; the table has 44 places. */
  ghost function A(key: Block16, n: nat): bv32
    decreases n, 0
  {
    if n == 0 then 0
    else ThreeBits(Added(if n <= 44 then TableStart(n - 1) else A(key, n - 44), A(key, n - 1), B(key, n - 1)))
  }

  /** The words written into the four words of the user's key. */
  ghost function B(key: Block16, n: nat): bv32
    decreases n, 1
  {
    if n == 0 then 0
    else
      RotateLeft(Added(if n <= 4 then LittleEndian(key, n - 1) else B(key, n - 4), A(key, n), B(key, n - 1)),
                 WrappingAdd(A(key, n), B(key, n - 1)))
  }

  /** What stands at place `i` of the key table after `pass` whole passes over it and `b` more steps. */
  ghost function KeyAfter(key: Block16, pass: nat, b: nat, i: nat): bv32 {
    if i < b then A(key, 44 * pass + i + 1)
    else if pass == 0 then TableStart(i)
    else A(key, 44 * (pass - 1) + i + 1)
  }

  ghost function WordAfter(key: Block16, pass: nat, d: nat, j: nat): bv32
    requires j < 4
  {
    if j < d then B(key, 4 * pass + j + 1)
    else if pass == 0 then LittleEndian(key, j)
    else B(key, 4 * (pass - 1) + j + 1)
  }

  /** The registers after `n` steps hold the last words of both streams. */
  ghost predicate Follows(key: Block16, m: Mixing, n: nat) {
    && |m.words| == 4 && m.a == A(key, n) && m.b == B(key, n)
    && (forall i | 0 <= i < 44 :: m.keys[i] == KeyAfter(key, n / 44, n % 44, i))
    && (forall j | 0 <= j < 4 :: m.words[j] == WordAfter(key, n / 4, n % 4, j))
  }

  lemma {:induction false} StartsAlike(i: nat)
    ensures TableStart(i) == InitialKey(i)
  {
    if i > 0 {
      StartsAlike(i - 1);
    }
  }

  lemma Starts(key: Block16)
    ensures Follows(key, InitialMixing(key), 0)
  {
    hide LittleEndian, InitialKey, TableStart;
    forall i | 0 <= i < 44 {
      StartsAlike(i);
    }
    var m := InitialMixing(key);
    assert m.words[0] == LittleEndian(key, 0) && m.words[1] == LittleEndian(key, 1);
    assert m.words[2] == LittleEndian(key, 2) && m.words[3] == LittleEndian(key, 3);
  }

  lemma NextA(key: Block16, n: nat, w: bv32)
    requires w == if n < 44 then TableStart(n) else A(key, n - 43)
    ensures A(key, n + 1) == MixedKey(w, A(key, n), B(key, n))
  {
    hide TableStart, MixedKey, ThreeBits, Added;
    MixedKeyIs(w, A(key, n), B(key, n));
  }

  lemma NextB(key: Block16, n: nat, w: bv32)
    requires w == if n < 4 then LittleEndian(key, n) else B(key, n - 3)
    ensures B(key, n + 1) == MixedWord(w, A(key, n + 1), B(key, n))
  {
    hide LittleEndian, RotateLeft, MixedWord, Added, WrappingAdd;
    MixedWordIs(w, A(key, n + 1), B(key, n));
  }

  lemma Steps(n: nat)
    ensures (n + 1) / 44 == (if n % 44 == 43 then n / 44 + 1 else n / 44)
    ensures (n + 1) % 44 == (if n % 44 == 43 then 0 else n % 44 + 1)
    ensures (n + 1) / 4 == (if n % 4 == 3 then n / 4 + 1 else n / 4)
    ensures (n + 1) % 4 == (if n % 4 == 3 then 0 else n % 4 + 1)
  {
  }

  /** Writing place `n % 44` keeps the table in step. */
  lemma TableFollows(key: Block16, keys: Keys, n: nat, after: Keys)
    requires forall i | 0 <= i < 44 :: keys[i] == KeyAfter(key, n / 44, n % 44, i)
    requires after == keys[n % 44 := A(key, n + 1)]
    ensures forall i | 0 <= i < 44 :: after[i] == KeyAfter(key, (n + 1) / 44, (n + 1) % 44, i)
  {
    hide A, TableStart;
    Steps(n);
  }

  lemma WordsFollow(key: Block16, words: seq<bv32>, n: nat, after: seq<bv32>)
    requires |words| == 4 && forall j | 0 <= j < 4 :: words[j] == WordAfter(key, n / 4, n % 4, j)
    requires after == words[n % 4 := B(key, n + 1)]
    ensures forall j | 0 <= j < 4 :: after[j] == WordAfter(key, (n + 1) / 4, (n + 1) % 4, j)
  {
    hide B, LittleEndian;
    Steps(n);
  }

  lemma {:induction false} MixingFollows(key: Block16, n: nat)
    ensures Follows(key, MixSteps(key, n), n)
  {
    hide A, B, TableStart, LittleEndian, MixedKey, MixedWord, MixSteps, InitialMixing;
    if n == 0 {
      InitialSteps(key);
      Starts(key);
    } else {
      MixingFollows(key, n - 1);
      NextMixing(key, n - 1);
      var m := MixSteps(key, n - 1);
      var i, j := (n - 1) % 44, (n - 1) % 4;
      NextA(key, n - 1, m.keys[i]);
      NextB(key, n - 1, m.words[j]);
      TableFollows(key, m.keys, n - 1, m.keys[i := A(key, n)]);
      WordsFollow(key, m.words, n - 1, m.words[j := B(key, n)]);
    }
  }

  /** The round keys are the words that the third pass writes. */
  lemma ScheduleIsStream(key: Block16, i: nat)
    requires i < 44
    ensures Schedule(key)[i] == A(key, 89 + i)
  {
    hide A, B, TableStart, MixSteps;
    MixingFollows(key, 132);
  }
}
