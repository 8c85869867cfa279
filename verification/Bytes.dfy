/** Bytes, little-endian words and byte-wise XOR, as the archive formats use them. */
module Bytes {

  type byte = bv8

  /** The block sizes the ciphers work in. */
  type Block8 = s: seq<byte> | |s| == 8 witness seq(8, _ => 0)
  type Block12 = s: seq<byte> | |s| == 12 witness seq(12, _ => 0)
  type Block16 = s: seq<byte> | |s| == 16 witness seq(16, _ => 0)

  const U32_LIMIT: nat := 0x1_0000_0000

  /** The value of a byte as a number. */
  function Value(b: byte): (n: nat)
    ensures n < 256
  {
    b as nat
  }

  /** The byte of a value. */
  function FromValue(n: nat): byte
    requires n < 256
  {
    n as byte
  }

  lemma ValueSuccessor(b: byte)
    requires b != 0xff
    ensures Value(b + 1) == Value(b) + 1
  {
  }

  lemma FromValueRoundTrip(b: byte)
    ensures FromValue(Value(b)) == b
  {
  }

  lemma ValueInjective(a: byte, b: byte)
    requires Value(a) == Value(b)
    ensures a == b
  {
    FromValueRoundTrip(a);
    FromValueRoundTrip(b);
  }

  /** Counting up reaches every value, so the two conversions are inverses. */
  lemma {:induction false} ByteOf(n: nat) returns (b: byte)
    requires n < 256
    ensures Value(b) == n && FromValue(n) == b
  {
    if n == 0 {
      b := 0;
    } else {
      var below := ByteOf(n - 1);
      ValueSuccessor(below);
      b := below + 1;
    }
  }

  lemma ValueRoundTrip(n: nat)
    requires n < 256
    ensures Value(FromValue(n)) == n
  {
    var _ := ByteOf(n);
  }

  /** The number four bytes spell, least significant first. */
  function Join(b0: nat, b1: nat, b2: nat, b3: nat): nat {
    b0 + 0x100 * b1 + 0x1_0000 * b2 + 0x100_0000 * b3
  }

  /** The little-endian word at `at`. */
  function Word(s: seq<byte>, at: nat): (n: nat)
    requires at + 4 <= |s|
    ensures n < U32_LIMIT
  {
    Join(Value(s[at]), Value(s[at + 1]), Value(s[at + 2]), Value(s[at + 3]))
  }

  /** The number any bytes spell, least significant first. */
  function Number(s: seq<byte>): nat {
    if s == [] then 0 else Value(s[0]) + 0x100 * Number(s[1..])
  }

  lemma {:induction false} NumberAppend(a: seq<byte>, b: seq<byte>)
    requires |a| == 4
    ensures Number(a + b) == Number(a) + 0x1_0000_0000 * Number(b)
  {
    NumberStep(a[0], a[1..] + b);
    NumberStep(a[1], a[2..] + b);
    NumberStep(a[2], a[3..] + b);
    NumberStep(a[3], b);
    NumberOfFour(a);
    assert a + b == [a[0]] + (a[1..] + b) && a[1..] + b == [a[1]] + (a[2..] + b);
    assert a[2..] + b == [a[2]] + (a[3..] + b) && a[3..] + b == [a[3]] + b;
  }

  lemma NumberStep(b: byte, s: seq<byte>)
    ensures Number([b] + s) == Value(b) + 0x100 * Number(s)
  {
    assert ([b] + s)[1..] == s;
  }

  lemma {:induction false} NumberOfFour(a: seq<byte>)
    requires |a| == 4
    ensures Number(a) == Word(a, 0)
  {
    hide Value;
    NumberStep(a[0], a[1..]);
    NumberStep(a[1], a[2..]);
    NumberStep(a[2], a[3..]);
    NumberStep(a[3], []);
    assert a == [a[0]] + a[1..] && a[1..] == [a[1]] + a[2..];
    assert a[2..] == [a[2]] + a[3..] && a[3..] == [a[3]] + [];
  }

  lemma WordIsNumber(s: seq<byte>, at: nat)
    requires at + 4 <= |s|
    ensures Word(s, at) == Number(s[at..at + 4])
  {
    hide Value, Number;
    var a := s[at..at + 4];
    NumberOfFour(a);
    assert a[0] == s[at] && a[1] == s[at + 1] && a[2] == s[at + 2] && a[3] == s[at + 3];
  }

  lemma LongIsNumber(s: seq<byte>, at: nat)
    requires at + 8 <= |s|
    ensures Word(s, at) + 0x1_0000_0000 * Word(s, at + 4) == Number(s[at..at + 8])
  {
    hide Value, Number, Word;
    WordIsNumber(s, at);
    WordIsNumber(s, at + 4);
    NumberAppend(s[at..at + 4], s[at + 4..at + 8]);
    assert s[at..at + 8] == s[at..at + 4] + s[at + 4..at + 8];
  }

  /** Digit `k` of a number in base 256. */
  function Digit(n: nat, k: nat): (d: nat)
    ensures d < 256
  {
    if k == 0 then n % 0x100 else Digit(n / 0x100, k - 1)
  }

  /** The four little-endian bytes of a 32-bit value. */
  function WordBytes(n: nat): (s: seq<byte>)
    requires n < U32_LIMIT
    ensures |s| == 4
  {
    [FromValue(Digit(n, 0)), FromValue(Digit(n, 1)), FromValue(Digit(n, 2)), FromValue(Digit(n, 3))]
  }

  lemma JoinDigits(n: nat)
    requires n < U32_LIMIT
    ensures Join(Digit(n, 0), Digit(n, 1), Digit(n, 2), Digit(n, 3)) == n
  {
    assert Digit(n, 1) == n / 0x100 % 0x100;
    assert Digit(n, 2) == n / 0x100 / 0x100 % 0x100;
    assert Digit(n, 3) == n / 0x100 / 0x100 / 0x100 % 0x100;
  }

  lemma WordRoundTrip(n: nat)
    requires n < U32_LIMIT
    ensures Word(WordBytes(n), 0) == n
  {
    JoinDigits(n);
    ValueRoundTrip(Digit(n, 0));
    ValueRoundTrip(Digit(n, 1));
    ValueRoundTrip(Digit(n, 2));
    ValueRoundTrip(Digit(n, 3));
  }

  /** A word written into a longer sequence is read back from where it was written. */
  lemma WordInContext(s: seq<byte>, at: nat, n: nat)
    requires n < U32_LIMIT
    requires at + 4 <= |s| && s[at..at + 4] == WordBytes(n)
    ensures Word(s, at) == n
  {
    WordRoundTrip(n);
    forall k | 0 <= k < 4
      ensures s[at + k] == WordBytes(n)[k]
    {
      assert s[at..at + 4][k] == s[at + k];
    }
  }

  /** Byte-wise XOR over the shorter of two sequences, the way `zip` pairs them. */
  function Xor(a: seq<byte>, b: seq<byte>): (r: seq<byte>)
    ensures |r| == if |a| <= |b| then |a| else |b|
  {
    seq(if |a| <= |b| then |a| else |b|, i requires 0 <= i < |a| && i < |b| => a[i] ^ b[i])
  }

  lemma XorTwice(a: seq<byte>, b: seq<byte>)
    requires |a| <= |b|
    ensures Xor(Xor(a, b), b) == a
  {
    forall i | 0 <= i < |a|
      ensures (a[i] ^ b[i]) ^ b[i] == a[i]
    {
      XorByteTwice(a[i], b[i]);
    }
  }

  lemma XorByteTwice(a: byte, b: byte)
    ensures (a ^ b) ^ b == a
  {
  }

  /** XOR of a buffer with a 16-byte mask repeated along it. */
  function MaskXor(data: seq<byte>, mask: Block16): (r: seq<byte>)
    ensures |r| == |data|
  {
    seq(|data|, i requires 0 <= i < |data| => data[i] ^ mask[i % 16])
  }

  lemma MaskXorTwice(data: seq<byte>, mask: Block16)
    ensures MaskXor(MaskXor(data, mask), mask) == data
  {
    forall i | 0 <= i < |data|
      ensures (data[i] ^ mask[i % 16]) ^ mask[i % 16] == data[i]
    {
      XorByteTwice(data[i], mask[i % 16]);
    }
  }

  /** The sequence with `part` written over what stood at `index`. */
  function Spliced(s: seq<byte>, index: nat, part: seq<byte>): (r: seq<byte>)
    requires index + |part| <= |s|
    ensures |r| == |s|
  {
    s[..index] + part + s[index + |part|..]
  }

  method StoreAt(dest: array<byte>, index: nat, part: seq<byte>)
    requires index + |part| <= dest.Length
    modifies dest
    ensures dest[..] == Spliced(old(dest[..]), index, part)
  {
    for i := 0 to |part|
      invariant dest[..index] == old(dest[..index])
      invariant dest[index..index + i] == part[..i]
      invariant dest[index + i..] == old(dest[index + i..])
    {
      dest[index + i] := part[i];
    }
    assert dest[..] == dest[..index] + dest[index..index + |part|] + dest[index + |part|..];
  }

  lemma SpliceLaws(s: seq<byte>, index: nat, part: seq<byte>, again: seq<byte>)
    requires index + |part| <= |s| && |again| == |part|
    ensures Spliced(s, index, part)[index..index + |part|] == part
    ensures Spliced(Spliced(s, index, part), index, again) == Spliced(s, index, again)
    ensures Spliced(s, index, s[index..index + |part|]) == s
  {
  }

  lemma SpliceParts(s: seq<byte>, lo: nat, hi: nat, part: seq<byte>)
    requires lo <= hi <= |s| && |part| == hi - lo
    ensures Spliced(s, lo, part) == s[..lo] + part + s[hi..]
  {
  }

  /** A splice behind the first `lo` bytes is a splice of what follows them. */
  lemma SpliceSuffix(s: seq<byte>, lo: nat, start: nat, part: seq<byte>)
    requires lo + start + |part| <= |s|
    ensures Spliced(s, lo + start, part) == s[..lo] + Spliced(s[lo..], start, part)
    ensures s[lo..][start..start + |part|] == s[lo + start..lo + start + |part|]
  {
  }

  lemma SecondPart(a: seq<byte>, b: seq<byte>)
    ensures (a + b)[|a|..|a| + |b|] == b && (a + b)[|a|..] == b
  {
  }
}
