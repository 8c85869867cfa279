/**
 Cipher chaining over whole blocks: CBC (section 6.2 of NIST SP 800-38A) and CFB (section 6.3), as
 src/grf_ciphers.rs applies them in place. A partial block at the end is left alone, as `chunks_exact_mut` does.
 */
module Chaining {
  import opened Bytes

  function CbcDecrypted(d: Block16 -> Block16, previous: Block16, data: seq<byte>): (r: seq<byte>)
    ensures |r| == |data|
    decreases |data|
  {
    if |data| < 16 then data
    else Xor(d(data[..16]), previous) + CbcDecrypted(d, data[..16], data[16..])
  }

  function CbcEncrypted(e: Block16 -> Block16, previous: Block16, data: seq<byte>): (r: seq<byte>)
    ensures |r| == |data|
    decreases |data|
  {
    if |data| < 16 then data
    else
      var block: Block16 := e(Xor(data[..16], previous));
      block + CbcEncrypted(e, block, data[16..])
  }

  /** A block cipher whose second function undoes the first on every block. */
  ghost predicate Undoes(e: Block16 -> Block16, d: Block16 -> Block16) {
    forall b: Block16 :: d(e(b)) == b
  }

  lemma {:induction false} CbcRoundTrip(e: Block16 -> Block16, d: Block16 -> Block16, iv: Block16, data: seq<byte>)
    requires Undoes(e, d)
    ensures CbcDecrypted(d, iv, CbcEncrypted(e, iv, data)) == data
    decreases |data|
  {
    hide Xor;
    if |data| >= 16 {
      var mixed: Block16 := Xor(data[..16], iv);
      var block := e(mixed);
      var coded := CbcEncrypted(e, iv, data);
      assert coded[..16] == block && coded[16..] == CbcEncrypted(e, block, data[16..]);
      assert d(e(mixed)) == mixed;
      XorTwice(data[..16], iv);
      CbcRoundTrip(e, d, block, data[16..]);
      assert data == data[..16] + data[16..];
    }
  }

  /** The other way round: what CBC decrypts, encrypting restores. */
  lemma {:induction false} CbcReverseRoundTrip(e: Block16 -> Block16, d: Block16 -> Block16, iv: Block16,
                                               data: seq<byte>)
    requires Undoes(d, e)
    ensures CbcEncrypted(e, iv, CbcDecrypted(d, iv, data)) == data
    decreases |data|
  {
    hide Xor;
    if |data| >= 16 {
      var block: Block16 := data[..16];
      var plain := CbcDecrypted(d, iv, data);
      assert plain[..16] == Xor(d(block), iv) && plain[16..] == CbcDecrypted(d, block, data[16..]);
      XorTwice(d(block), iv);
      assert e(d(block)) == block;
      CbcReverseRoundTrip(e, d, block, data[16..]);
      assert data == block + data[16..];
    }
  }

  /** Keystream functions: defined on every block of the size, with a block as the result. */
  ghost predicate IsStream(e: seq<byte> --> seq<byte>, size: nat) {
    forall b: seq<byte> | |b| == size :: e.requires(b) && |e(b)| == size
  }

  function CfbDecrypted(e: seq<byte> --> seq<byte>, size: nat, previous: seq<byte>, data: seq<byte>): (r: seq<byte>)
    requires size > 0 && |previous| == size && IsStream(e, size)
    ensures |r| == |data|
    decreases |data|
  {
    if |data| < size then data
    else Xor(data[..size], e(previous)) + CfbDecrypted(e, size, data[..size], data[size..])
  }

  function CfbEncrypted(e: seq<byte> --> seq<byte>, size: nat, previous: seq<byte>, data: seq<byte>): (r: seq<byte>)
    requires size > 0 && |previous| == size && IsStream(e, size)
    ensures |r| == |data|
    decreases |data|
  {
    if |data| < size then data
    else
      var block := Xor(data[..size], e(previous));
      block + CfbEncrypted(e, size, block, data[size..])
  }

  /** CFB needs no inverse of the cipher, and is undone in either order. */
  lemma {:induction false} CfbRoundTrip(e: seq<byte> --> seq<byte>, size: nat, iv: seq<byte>, data: seq<byte>)
    requires size > 0 && |iv| == size && IsStream(e, size)
    ensures CfbDecrypted(e, size, iv, CfbEncrypted(e, size, iv, data)) == data
    decreases |data|
  {
    hide Xor;
    if |data| >= size {
      var block := Xor(data[..size], e(iv));
      var coded := CfbEncrypted(e, size, iv, data);
      assert coded[..size] == block && coded[size..] == CfbEncrypted(e, size, block, data[size..]);
      XorTwice(data[..size], e(iv));
      CfbRoundTrip(e, size, block, data[size..]);
      assert data == data[..size] + data[size..];
    }
  }

  lemma {:induction false} CfbReverseRoundTrip(e: seq<byte> --> seq<byte>, size: nat, iv: seq<byte>, data: seq<byte>)
    requires size > 0 && |iv| == size && IsStream(e, size)
    ensures CfbEncrypted(e, size, iv, CfbDecrypted(e, size, iv, data)) == data
    decreases |data|
  {
    hide Xor;
    if |data| >= size {
      var coded := data[..size];
      var plain := CfbDecrypted(e, size, iv, data);
      assert plain[..size] == Xor(coded, e(iv)) && plain[size..] == CfbDecrypted(e, size, coded, data[size..]);
      XorTwice(coded, e(iv));
      CfbReverseRoundTrip(e, size, coded, data[size..]);
      assert data == coded + data[size..];
    }
  }

  /** An in-place pass over a slice: `done` is finished, `rest` untouched, and `before` and `after` surround them. */
  ghost predicate InPass(data: seq<byte>, before: seq<byte>, done: seq<byte>, rest: seq<byte>, after: seq<byte>) {
    data == before + done + rest + after
  }

  lemma PassStarts(data: seq<byte>, lo: nat, hi: nat)
    requires lo <= hi <= |data|
    ensures InPass(data, data[..lo], [], data[lo..hi], data[hi..])
  {
  }

  /** Writing a block over the next one moves the pass on. */
  lemma PassMoves(data: seq<byte>, before: seq<byte>, done: seq<byte>, rest: seq<byte>, after: seq<byte>, at: nat,
                  block: seq<byte>)
    requires InPass(data, before, done, rest, after) && |block| <= |rest| && at == |before| + |done|
    ensures at + |block| <= |data| && data[at..at + |block|] == rest[..|block|]
    ensures InPass(Spliced(data, at, block), before, done + block, rest[|block|..], after)
  {
  }

  lemma PassEnds(data: seq<byte>, s: seq<byte>, lo: nat, hi: nat, done: seq<byte>, rest: seq<byte>)
    requires lo <= hi <= |s| && |done| + |rest| == hi - lo && InPass(data, s[..lo], done, rest, s[hi..])
    ensures data == Spliced(s, lo, done + rest)
  {
  }

  lemma CbcStep(d: Block16 -> Block16, previous: Block16, done: seq<byte>, data: seq<byte>, block: Block16)
    requires |data| >= 16 && block == Xor(d(data[..16]), previous)
    ensures done + CbcDecrypted(d, previous, data) == (done + block) + CbcDecrypted(d, data[..16], data[16..])
  {
    hide Xor;
  }

  lemma CbcRemainder(d: Block16 -> Block16, previous: Block16, data: seq<byte>)
    requires |data| < 16
    ensures CbcDecrypted(d, previous, data) == data
  {
  }

  lemma CfbStep(e: seq<byte> --> seq<byte>, size: nat, previous: seq<byte>, done: seq<byte>, data: seq<byte>,
                block: seq<byte>)
    requires size > 0 && |previous| == size && IsStream(e, size)
    requires |data| >= size && block == Xor(data[..size], e(previous))
    ensures done + CfbDecrypted(e, size, previous, data) ==
            (done + block) + CfbDecrypted(e, size, data[..size], data[size..])
  {
    hide Xor;
  }

  lemma CfbRemainder(e: seq<byte> --> seq<byte>, size: nat, previous: seq<byte>, data: seq<byte>)
    requires size > 0 && |previous| == size && IsStream(e, size) && |data| < size
    ensures CfbDecrypted(e, size, previous, data) == data
  {
  }

  /** `aes_cbc_decrypt` on the slice of `data` from `lo` to `hi`, for any block decryption. */
  method CbcDecrypt(d: Block16 -> Block16, data: array<byte>, lo: nat, hi: nat, iv: Block16)
    requires lo <= hi <= data.Length
    modifies data
    ensures data[..] == Spliced(old(data[..]), lo, CbcDecrypted(d, iv, old(data[..])[lo..hi]))
  {
    hide Xor, CbcDecrypted, Spliced, InPass;
    ghost var s := data[..];
    ghost var done, rest := [], s[lo..hi];
    PassStarts(s, lo, hi);
    var previous: Block16 := iv;
    var at := lo;
    while hi - at >= 16
      invariant lo <= at <= hi && at == lo + |done| && |rest| == hi - at
      invariant InPass(data[..], s[..lo], done, rest, s[hi..])
      invariant done + CbcDecrypted(d, previous, rest) == CbcDecrypted(d, iv, s[lo..hi])
    {
      var encrypted: Block16 := data[..][at..at + 16];
      var block: Block16 := Xor(d(encrypted), previous);
      PassMoves(data[..], s[..lo], done, rest, s[hi..], at, block);
      CbcStep(d, previous, done, rest, block);
      StoreAt(data, at, block);
      done, rest := done + block, rest[16..];
      previous := encrypted;
      at := at + 16;
    }
    CbcRemainder(d, previous, rest);
    PassEnds(data[..], s, lo, hi, done, rest);
  }

  // ---------------------------------------------------------------- block by block

  lemma FirstPart(a: seq<byte>, b: seq<byte>)
    ensures (a + b)[0..|a|] == a
  {
  }

  lemma SecondSlice(a: seq<byte>, b: seq<byte>, size: nat, at: nat)
    requires |a| == size <= at && at <= |b|
    ensures (a + b)[at..at + size] == b[at - size..at]
  {
  }

  /** Slices of what follows the first block. */
  lemma SliceOfRest(data: seq<byte>, size: nat, at: nat)
    requires size <= at && at + size <= |data|
    ensures data[size..][at - size..at] == data[at..at + size]
    ensures at >= 2 * size ==> data[size..][at - size - size..at - size] == data[at - size..at]
    ensures at == size ==> data[at - size..at] == data[..size]
  {
  }

  lemma CbcUnfolds(d: Block16 -> Block16, iv: Block16, data: seq<byte>)
    requires |data| >= 16
    ensures CbcDecrypted(d, iv, data) == Xor(d(data[..16]), iv) + CbcDecrypted(d, data[..16], data[16..])
  {
  }

  /** Block `k` of CBC decryption, at `at`, from two blocks of the input. */
  lemma {:induction false} CbcBlock(d: Block16 -> Block16, iv: Block16, data: seq<byte>, k: nat, at: nat)
    requires at == 16 * k && at + 16 <= |data|
    ensures CbcDecrypted(d, iv, data)[at..at + 16] ==
            Xor(d(data[at..at + 16]), if k == 0 then iv else data[at - 16..at])
    decreases k
  {
    hide Xor, CbcDecrypted;
    var first, rest := Xor(d(data[..16]), iv), CbcDecrypted(d, data[..16], data[16..]);
    CbcUnfolds(d, iv, data);
    if k == 0 {
      FirstPart(first, rest);
      assert data[at..at + 16] == data[..16];
    } else {
      CbcBlock(d, data[..16], data[16..], k - 1, at - 16);
      SecondSlice(first, rest, 16, at);
      SliceOfRest(data, 16, at);
    }
  }

  lemma CfbUnfolds(e: seq<byte> --> seq<byte>, size: nat, iv: seq<byte>, data: seq<byte>)
    requires size > 0 && |iv| == size && IsStream(e, size) && |data| >= size
    ensures CfbDecrypted(e, size, iv, data) ==
            Xor(data[..size], e(iv)) + CfbDecrypted(e, size, data[..size], data[size..])
  {
  }

  /** Block `k` of CFB decryption, at `at`: the input XORed with the cipher's answer to the block before. */
  lemma {:induction false} CfbBlock(e: seq<byte> --> seq<byte>, size: nat, iv: seq<byte>, data: seq<byte>, k: nat,
                                    at: nat)
    requires size > 0 && |iv| == size && IsStream(e, size) && at == size * k && at + size <= |data|
    ensures k > 0 ==> size <= at
    ensures CfbDecrypted(e, size, iv, data)[at..at + size] ==
            Xor(data[at..at + size], e(if k == 0 then iv else data[at - size..at]))
    decreases k
  {
    hide Xor, CfbDecrypted;
    var first, rest := Xor(data[..size], e(iv)), CfbDecrypted(e, size, data[..size], data[size..]);
    CfbUnfolds(e, size, iv, data);
    if k == 0 {
      FirstPart(first, rest);
      assert data[at..at + size] == data[..size];
    } else {
      Multiples(size, k);
      CfbBlock(e, size, data[..size], data[size..], k - 1, at - size);
      SecondSlice(first, rest, size, at);
      SliceOfRest(data, size, at);
    }
  }

  lemma Multiples(size: nat, k: nat)
    requires k > 0
    ensures size * k == size * (k - 1) + size && size <= size * k
    ensures k > 1 ==> 2 * size <= size * k
    ensures k == 1 ==> size * k == size
  {
    if k > 1 {
      assert size * k == size * (k - 2) + 2 * size;
    }
  }
}
