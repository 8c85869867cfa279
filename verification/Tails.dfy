/** The five ciphers of protected bodies, which cover what follows the first 128 bytes (src/grf_ciphers.rs). */
module Tails {
  import opened Bytes
  import opened Chaining
  import opened Library
  import Cham
  import Idea
  import Rc6

  type Parameters = s: seq<byte> | |s| == 64 witness seq(64, _ => 0)

  function Least(a: nat, b: nat): nat {
    if a <= b then a else b
  }

  // ---------------------------------------------------------------- body ciphers 128 and 133

  function BodyMask(cipher: nat, parameters: Parameters, nameHash: Block16, outputHash: Block16): Block16 {
    if cipher == 128 then Idea.MaskOf(outputHash, nameHash, parameters[49..57])
    else Idea.MaskOf(nameHash, outputHash, parameters[49..57])
  }

  /** Where the AES window starts and how long it is: the whole blocks of a short tail, or 1024 bytes from 2048. */
  function AesWindow(length: nat): (w: (nat, nat))
    ensures w.0 + w.1 <= length && w.1 % 16 == 0
  {
    if length < 3072 then (0, length / 16 * 16) else (2048, 1024)
  }

  function Rc6Window(length: nat): (w: nat)
    ensures w <= length && w % 16 == 0
  {
    Least(length / 16 * 16, 1024)
  }

  function BodyWindow(cipher: nat, length: nat): (w: (nat, nat))
    ensures w.0 + w.1 <= length && w.1 % 16 == 0
  {
    if cipher == 128 then AesWindow(length) else (0, Rc6Window(length))
  }

  function WindowDecrypted(lib: Library, cipher: nat, parameters: Parameters, data: seq<byte>): (r: seq<byte>)
    ensures |r| == |data|
  {
    if cipher == 128 then CbcDecrypted(lib.aesDecrypt(parameters[44..60]), parameters[28..44], data)
    else CfbDecrypted(Rc6.Stream(Rc6.Schedule(parameters[24..40])), 16, parameters[40..56], data)
  }

  function WindowEncrypted(lib: Library, cipher: nat, parameters: Parameters, data: seq<byte>): (r: seq<byte>)
    ensures |r| == |data|
  {
    if cipher == 128 then CbcEncrypted(lib.aesEncrypt(parameters[44..60]), parameters[28..44], data)
    else CfbEncrypted(Rc6.Stream(Rc6.Schedule(parameters[24..40])), 16, parameters[40..56], data)
  }

  lemma WindowRoundTrip(lib: Library, cipher: nat, parameters: Parameters, data: seq<byte>)
    requires lib.AesLaw()
    ensures WindowDecrypted(lib, cipher, parameters, WindowEncrypted(lib, cipher, parameters, data)) == data
  {
    if cipher == 128 {
      var key := parameters[44..60];
      CbcRoundTrip(lib.aesEncrypt(key), lib.aesDecrypt(key), parameters[28..44], data);
    } else {
      CfbRoundTrip(Rc6.Stream(Rc6.Schedule(parameters[24..40])), 16, parameters[40..56], data);
    }
  }

  /** `decrypt_body_tail`: one window decrypted, then the mask over everything. */
  function BodyDecoded(lib: Library, cipher: nat, parameters: Parameters, nameHash: Block16, outputHash: Block16,
                       tail: seq<byte>): (r: seq<byte>)
    ensures |r| == |tail|
  {
    var (start, size) := BodyWindow(cipher, |tail|);
    var unlocked := Spliced(tail, start, WindowDecrypted(lib, cipher, parameters, tail[start..start + size]));
    MaskXor(unlocked, BodyMask(cipher, parameters, nameHash, outputHash))
  }

  /** The writer: the mask first, then the window encrypted. */
  function BodyEncoded(lib: Library, cipher: nat, parameters: Parameters, nameHash: Block16, outputHash: Block16,
                       tail: seq<byte>): (r: seq<byte>)
    ensures |r| == |tail|
  {
    var (start, size) := BodyWindow(cipher, |tail|);
    var masked := MaskXor(tail, BodyMask(cipher, parameters, nameHash, outputHash));
    Spliced(masked, start, WindowEncrypted(lib, cipher, parameters, masked[start..start + size]))
  }

  lemma BodyRoundTrip(lib: Library, cipher: nat, parameters: Parameters, nameHash: Block16, outputHash: Block16,
                      tail: seq<byte>)
    requires lib.AesLaw()
    ensures BodyDecoded(lib, cipher, parameters, nameHash, outputHash,
                        BodyEncoded(lib, cipher, parameters, nameHash, outputHash, tail)) == tail
  {
    hide WindowDecrypted, WindowEncrypted, MaskXor, BodyMask, Spliced;
    var (start, size) := BodyWindow(cipher, |tail|);
    var mask := BodyMask(cipher, parameters, nameHash, outputHash);
    var masked := MaskXor(tail, mask);
    var window := masked[start..start + size];
    WindowRoundTrip(lib, cipher, parameters, window);
    SpliceLaws(masked, start, WindowEncrypted(lib, cipher, parameters, window), window);
    MaskXorTwice(tail, mask);
  }

  /** The rolling loop of the RC6 body cipher on the slice of `data` from `lo` to `hi`. */
  method Rc6CfbDecrypt(data: array<byte>, lo: nat, hi: nat, key: Block16, iv: Block16)
    requires lo <= hi <= data.Length
    modifies data
    ensures data[..] ==
            Spliced(old(data[..]), lo, CfbDecrypted(Rc6.Stream(Rc6.Schedule(key)), 16, iv, old(data[..])[lo..hi]))
  {
    hide Xor, Rc6.EncryptedBlock, Rc6.Schedule, CfbDecrypted, Spliced, InPass;
    var keys := Rc6.KeySchedule(key);
    ghost var stream := Rc6.Stream(keys);
    ghost var s := data[..];
    ghost var done, rest := [], s[lo..hi];
    PassStarts(s, lo, hi);
    var previous: Block16 := iv;
    var at := lo;
    while hi - at >= 16
      invariant lo <= at <= hi && at == lo + |done| && |rest| == hi - at
      invariant InPass(data[..], s[..lo], done, rest, s[hi..])
      invariant done + CfbDecrypted(stream, 16, previous, rest) == CfbDecrypted(stream, 16, iv, s[lo..hi])
    {
      var encrypted: Block16 := data[..][at..at + 16];
      var mask := Rc6.Encrypt(previous, keys);
      var block: Block16 := Xor(encrypted, mask);
      PassMoves(data[..], s[..lo], done, rest, s[hi..], at, block);
      CfbStep(stream, 16, previous, done, rest, block);
      StoreAt(data, at, block);
      done, rest := done + block, rest[16..];
      previous := encrypted;
      at := at + 16;
    }
    CfbRemainder(stream, 16, previous, rest);
    PassEnds(data[..], s, lo, hi, done, rest);
  }

  /** XORs a repeated mask over the slice of `data` from `lo` to `hi`. */
  method XorMask(data: array<byte>, lo: nat, hi: nat, mask: Block16)
    requires lo <= hi <= data.Length
    modifies data
    ensures data[..] == Spliced(old(data[..]), lo, MaskXor(old(data[..])[lo..hi], mask))
  {
    ghost var s := data[..];
    ghost var masked := MaskXor(s[lo..hi], mask);
    for i := 0 to hi - lo
      invariant forall k | 0 <= k < data.Length :: data[k] == if lo <= k < lo + i then masked[k - lo] else s[k]
    {
      data[lo + i] := data[lo + i] ^ mask[i % 16];
    }
    assert data[..] == Spliced(s, lo, masked);
  }

  /** The window of a body tail that follows the first `lo` bytes of `data`. */
  method DecryptWindow(lib: Library, cipher: nat, parameters: Parameters, data: array<byte>, lo: nat)
    requires lo <= data.Length
    modifies data
    ensures var (start, size) := BodyWindow(cipher, data.Length - lo);
            data[..] == Spliced(old(data[..]), lo + start,
                                WindowDecrypted(lib, cipher, parameters, old(data[..])[lo + start..lo + start + size]))
  {
    hide CbcDecrypted, CfbDecrypted, Rc6.Schedule, Spliced;
    if cipher == 128 {
      var (start, size) := AesWindow(data.Length - lo);
      CbcDecrypt(lib.aesDecrypt(parameters[44..60]), data, lo + start, lo + start + size, parameters[28..44]);
    } else {
      Rc6CfbDecrypt(data, lo, lo + Rc6Window(data.Length - lo), parameters[24..40], parameters[40..56]);
    }
  }

  method ComputeBodyMask(cipher: nat, parameters: Parameters, nameHash: Block16, outputHash: Block16)
    returns (mask: Block16)
    ensures mask == BodyMask(cipher, parameters, nameHash, outputHash)
  {
    hide Idea.MaskOf;
    if cipher == 128 {
      mask := Idea.Mask(outputHash, nameHash, parameters[49..57]);
    } else {
      mask := Idea.Mask(nameHash, outputHash, parameters[49..57]);
    }
  }

  /** `decrypt_body_tail` on what follows the first `lo` bytes of `data`. */
  method DecryptBodyTail(lib: Library, cipher: nat, parameters: Parameters, nameHash: Block16, outputHash: Block16,
                         data: array<byte>, lo: nat)
    requires lo <= data.Length
    modifies data
    ensures data[..] ==
            old(data[..])[..lo] + BodyDecoded(lib, cipher, parameters, nameHash, outputHash, old(data[..])[lo..])
  {
    hide MaskXor, WindowDecrypted, Spliced, BodyMask;
    var mask := ComputeBodyMask(cipher, parameters, nameHash, outputHash);
    ghost var s := data[..];
    ghost var (start, size) := BodyWindow(cipher, data.Length - lo);
    ghost var plain := WindowDecrypted(lib, cipher, parameters, s[lo + start..lo + start + size]);
    DecryptWindow(lib, cipher, parameters, data, lo);
    SpliceSuffix(s, lo, start, plain);
    ghost var unlocked := Spliced(s[lo..], start, plain);
    assert data[..] == s[..lo] + unlocked;
    assert (s[..lo] + unlocked)[lo..data.Length] == unlocked;
    SpliceParts(s[..lo] + unlocked, lo, data.Length, MaskXor(unlocked, mask));
    XorMask(data, lo, data.Length, mask);
  }

  // ---------------------------------------------------------------- body ciphers 5 and 7

  function LegacyMask(cipher: nat, parameters: Parameters, nameHash: Block16, outputHash: Block16): Block16 {
    if cipher == 5 then Idea.MaskOf(nameHash, outputHash, parameters[48..56])
    else Idea.MaskOf(outputHash, nameHash, parameters[52..60])
  }

  function LegacyKey(cipher: nat, parameters: Parameters): Block16 {
    if cipher == 5 then parameters[..16] else parameters[28..44]
  }

  function LegacyIv(cipher: nat, parameters: Parameters): Block16 {
    if cipher == 5 then parameters[16..32] else parameters[44..60]
  }

  /** PKCS#7 padding (section 6.3 of RFC 5652): between one and sixteen bytes, each their number. */
  function Padded(s: seq<byte>): (r: seq<byte>)
    ensures |r| == (|s| / 16 + 1) * 16
  {
    var size := 16 - |s| % 16;
    s + seq(size, _ => FromValue(size))
  }

  /** Whether what follows the first `length` bytes of a padded prefix is the padding it must be. */
  predicate IsPadding(plain: seq<byte>, length: nat) {
    && 0 < |plain|
    && var padding := Value(plain[|plain| - 1]);
       1 <= padding <= 16 && |plain| - padding == length &&
           forall k | length <= k < |plain| :: Value(plain[k]) == padding
  }

  lemma PaddedIsPadding(s: seq<byte>)
    ensures IsPadding(Padded(s), |s|) && Padded(s)[..|s|] == s
  {
    hide FromValue, Value;
    ValueRoundTrip(16 - |s| % 16);
  }

  /** Padding determines itself: whatever the check accepts, the writer produced. */
  lemma PaddingIsPadded(plain: seq<byte>, length: nat)
    requires IsPadding(plain, length) && |plain| == (length / 16 + 1) * 16
    ensures plain == Padded(plain[..length])
  {
    hide FromValue, Value;
    var size := 16 - length % 16;
    assert |plain| - length == size;
    forall k | length <= k < |plain|
      ensures plain[k] == FromValue(size)
    {
      FromValueRoundTrip(plain[k]);
    }
    assert plain == plain[..length] + seq(size, _ => FromValue(size));
  }

  function LegacyPrefix(length: nat): nat {
    Least(length, 1024)
  }

  /** The length of a prefix with its padding. */
  function LegacyEncrypted(length: nat): nat {
    (length / 16 + 1) * 16
  }

  /** `decrypt_legacy_tail`: a padded AES prefix, then a masked suffix moved up to it. */
  function LegacyDecoded(lib: Library, cipher: nat, parameters: Parameters, nameHash: Block16, outputHash: Block16,
                         tail: seq<byte>, compressedLength: nat): (r: Result<seq<byte>>)
    ensures r.Ok? ==> |r.value| == compressedLength
  {
    var length := LegacyPrefix(compressedLength);
    var encrypted := LegacyEncrypted(length);
    if |tail| < encrypted || |tail| - encrypted != compressedLength - length then Err(PaddingSizeMismatch)
    else
      var plain := CbcDecrypted(lib.aesDecrypt(LegacyKey(cipher, parameters)), LegacyIv(cipher, parameters),
                                tail[..encrypted]);
      if !IsPadding(plain, length) then Err(InvalidPadding)
      else Ok(plain[..length] + MaskXor(tail[encrypted..], LegacyMask(cipher, parameters, nameHash, outputHash)))
  }

  function LegacyEncoded(lib: Library, cipher: nat, parameters: Parameters, nameHash: Block16, outputHash: Block16,
                         tail: seq<byte>): seq<byte> {
    var length := LegacyPrefix(|tail|);
    CbcEncrypted(lib.aesEncrypt(LegacyKey(cipher, parameters)), LegacyIv(cipher, parameters), Padded(tail[..length])) +
    MaskXor(tail[length..], LegacyMask(cipher, parameters, nameHash, outputHash))
  }

  lemma LegacyRoundTrip(lib: Library, cipher: nat, parameters: Parameters, nameHash: Block16, outputHash: Block16,
                        tail: seq<byte>)
    requires lib.AesLaw()
    ensures LegacyDecoded(lib, cipher, parameters, nameHash, outputHash,
                          LegacyEncoded(lib, cipher, parameters, nameHash, outputHash, tail), |tail|) == Ok(tail)
  {
    hide CbcDecrypted, CbcEncrypted, IsPadding, Padded, LegacyMask, LegacyKey, LegacyIv, MaskXor;
    var length := LegacyPrefix(|tail|);
    var key, iv, mask := LegacyKey(cipher, parameters), LegacyIv(cipher, parameters),
                         LegacyMask(cipher, parameters, nameHash, outputHash);
    var padded := Padded(tail[..length]);
    var first, second := CbcEncrypted(lib.aesEncrypt(key), iv, padded), MaskXor(tail[length..], mask);
    assert |tail[..length]| == length;
    assert (first + second)[..|first|] == first && (first + second)[|first|..] == second;
    CbcRoundTrip(lib.aesEncrypt(key), lib.aesDecrypt(key), iv, padded);
    PaddedIsPadding(tail[..length]);
    MaskXorTwice(tail[length..], mask);
    assert tail == tail[..length] + tail[length..];
  }

  lemma LegacyReverseRoundTrip(lib: Library, cipher: nat, parameters: Parameters, nameHash: Block16,
                               outputHash: Block16,
                               coded: seq<byte>, compressedLength: nat)
    requires lib.AesLaw()
    ensures var r := LegacyDecoded(lib, cipher, parameters, nameHash, outputHash, coded, compressedLength);
            r.Ok? ==> LegacyEncoded(lib, cipher, parameters, nameHash, outputHash, r.value) == coded
  {
    hide CbcDecrypted, CbcEncrypted, IsPadding, Padded, LegacyMask, LegacyKey, LegacyIv, MaskXor;
    var r := LegacyDecoded(lib, cipher, parameters, nameHash, outputHash, coded, compressedLength);
    if r.Ok? {
      var length := LegacyPrefix(compressedLength);
      var encrypted := LegacyEncrypted(length);
      var key, iv, mask := LegacyKey(cipher, parameters), LegacyIv(cipher, parameters),
                           LegacyMask(cipher, parameters, nameHash, outputHash);
      var plain := CbcDecrypted(lib.aesDecrypt(key), iv, coded[..encrypted]);
      PaddingIsPadded(plain, length);
      CbcReverseRoundTrip(lib.aesEncrypt(key), lib.aesDecrypt(key), iv, coded[..encrypted]);
      MaskXorTwice(coded[encrypted..], mask);
      assert r.value[..length] == plain[..length];
      assert r.value[length..] == MaskXor(coded[encrypted..], mask);
      assert coded == coded[..encrypted] + coded[encrypted..];
    }
  }

  lemma LegacyEncodedLength(lib: Library, cipher: nat, parameters: Parameters, nameHash: Block16, outputHash: Block16,
                            tail: seq<byte>)
    ensures var n := |LegacyEncoded(lib, cipher, parameters, nameHash, outputHash, tail)|;
            |tail| < n <= |tail| + 16
  {
    hide CbcEncrypted, LegacyMask, LegacyKey, LegacyIv, MaskXor;
  }

  /** The tails the reader accepts are precisely the writer's: each decodes to its source, and nothing else decodes. */
  lemma LegacyAcceptsExactlyEncodings(lib: Library, cipher: nat, parameters: Parameters, nameHash: Block16,
                                      outputHash: Block16, coded: seq<byte>, tail: seq<byte>)
    requires lib.AesLaw()
    ensures LegacyDecoded(lib, cipher, parameters, nameHash, outputHash, coded, |tail|) == Ok(tail)
            <==> coded == LegacyEncoded(lib, cipher, parameters, nameHash, outputHash, tail)
  {
    hide LegacyDecoded, LegacyEncoded;
    LegacyRoundTrip(lib, cipher, parameters, nameHash, outputHash, tail);
    LegacyReverseRoundTrip(lib, cipher, parameters, nameHash, outputHash, coded, |tail|);
  }

  /** `copy_within`: the bytes from `source` to the end of `data` moved down to `target`. */
  method MoveDown(data: array<byte>, source: nat, target: nat)
    requires target <= source <= data.Length
    modifies data
    ensures data[..] == Spliced(old(data[..]), target, old(data[..])[source..])
  {
    hide Spliced;
    ghost var s := data[..];
    MoveStart(s, source, target);
    for i := 0 to data.Length - source
      invariant data[..] == Spliced(s, target, s[source..source + i])
    {
      MoveStep(s, source, target, i);
      assert data[source + i] == data[..][source + i];
      data[target + i] := data[source + i];
      assert data[..] == Spliced(s, target, s[source..source + i])[target + i := s[source + i]];
    }
    assert s[source..source + (data.Length - source)] == s[source..];
  }

  lemma MoveStart(s: seq<byte>, source: nat, target: nat)
    requires target <= source <= |s|
    ensures Spliced(s, target, s[source..source + 0]) == s
  {
  }

  /** The byte to move next is still the original one, since the target lies below the source. */
  lemma MoveStep(s: seq<byte>, source: nat, target: nat, i: nat)
    requires target <= source && source + i < |s|
    ensures var moved := Spliced(s, target, s[source..source + i]);
            && moved[source + i] == s[source + i]
            && moved[target + i := s[source + i]] == Spliced(s, target, s[source..source + i + 1])
  {
  }

  /** The padding check of `decrypt_legacy_tail` on the slice of `data` from `lo` to `hi`. */
  method HasPadding(data: array<byte>, lo: nat, hi: nat, length: nat) returns (valid: bool)
    requires lo < hi <= data.Length && length <= hi - lo
    ensures valid == IsPadding(data[..][lo..hi], length)
  {
    hide Value;
    ghost var plain := data[..][lo..hi];
    var padding := Value(data[hi - 1]);
    assert plain[|plain| - 1] == data[hi - 1];
    if !(1 <= padding <= 16) || hi - lo - padding != length {
      return false;
    }
    var i := length;
    while i < hi - lo
      invariant length <= i <= hi - lo
      invariant forall k | length <= k < i :: Value(plain[k]) == padding
    {
      assert plain[i] == data[lo + i];
      if Value(data[lo + i]) != padding {
        return false;
      }
      i := i + 1;
    }
    return true;
  }

  /** Moves the suffix behind a decrypted prefix down over its padding, and unmasks it. */
  method UnmaskSuffix(data: array<byte>, source: nat, target: nat, mask: Block16)
    requires target <= source <= data.Length
    modifies data
    ensures var s := old(data[..]);
            data[..][..target + (data.Length - source)] == s[..target] + MaskXor(s[source..], mask)
  {
    hide MaskXor, Spliced;
    ghost var s := data[..];
    ghost var suffix := s[source..];
    MoveDown(data, source, target);
    SpliceLaws(s, target, suffix, MaskXor(suffix, mask));
    SpliceParts(s, target, target + |suffix|, MaskXor(suffix, mask));
    XorMask(data, target, target + (data.Length - source), mask);
  }

  method ComputeLegacyMask(cipher: nat, parameters: Parameters, nameHash: Block16, outputHash: Block16)
    returns (mask: Block16)
    ensures mask == LegacyMask(cipher, parameters, nameHash, outputHash)
  {
    hide Idea.MaskOf;
    if cipher == 5 {
      mask := Idea.Mask(nameHash, outputHash, parameters[48..56]);
    } else {
      mask := Idea.Mask(outputHash, nameHash, parameters[52..60]);
    }
  }

  predicate LegacyFits(available: nat, compressedLength: nat) {
    var length := LegacyPrefix(compressedLength);
    available >= LegacyEncrypted(length) && available - LegacyEncrypted(length) == compressedLength - length
  }

  lemma LegacyOutcome(lib: Library, cipher: nat, parameters: Parameters, nameHash: Block16, outputHash: Block16,
                      tail: seq<byte>, compressedLength: nat)
    ensures var decoded := LegacyDecoded(lib, cipher, parameters, nameHash, outputHash, tail, compressedLength);
            if !LegacyFits(|tail|, compressedLength) then decoded == Err(PaddingSizeMismatch)
            else
              var length := LegacyPrefix(compressedLength);
              var encrypted := LegacyEncrypted(length);
              var plain := CbcDecrypted(lib.aesDecrypt(LegacyKey(cipher, parameters)), LegacyIv(cipher, parameters),
                                        tail[..encrypted]);
              decoded == if IsPadding(plain, length)
                         then Ok(plain[..length] + MaskXor(tail[encrypted..],
                                                           LegacyMask(cipher, parameters, nameHash, outputHash)))
                         else Err(InvalidPadding)
  {
    hide CbcDecrypted, IsPadding, MaskXor, LegacyMask, LegacyKey, LegacyIv;
  }

  /** `decrypt_legacy_tail` on what follows the first `lo` bytes of `data`. */
  method DecryptLegacyTail(lib: Library, cipher: nat, parameters: Parameters, nameHash: Block16, outputHash: Block16,
                           data: array<byte>, lo: nat, compressedLength: nat) returns (r: Result<()>)
    requires lo <= data.Length
    modifies data
    ensures var decoded :=
              LegacyDecoded(lib, cipher, parameters, nameHash, outputHash, old(data[..])[lo..], compressedLength);
            && (r.Ok? <==> decoded.Ok?)
            && (r.Err? ==> decoded == Err(r.error))
            && (r.Ok? ==> lo + compressedLength <= data.Length
                          && data[..][..lo + compressedLength] == old(data[..])[..lo] + decoded.value)
  {
    hide LegacyDecoded, CbcDecrypted, IsPadding, MaskXor, Spliced, LegacyMask, LegacyKey, LegacyIv;
    ghost var s := data[..];
    LegacyOutcome(lib, cipher, parameters, nameHash, outputHash, s[lo..], compressedLength);
    if !LegacyFits(data.Length - lo, compressedLength) {
      return Err(PaddingSizeMismatch);
    }
    var length := LegacyPrefix(compressedLength);
    var encrypted := LegacyEncrypted(length);
    var key, iv := LegacyKey(cipher, parameters), LegacyIv(cipher, parameters);
    var mask := ComputeLegacyMask(cipher, parameters, nameHash, outputHash);
    ghost var plain := CbcDecrypted(lib.aesDecrypt(key), iv, s[lo..lo + encrypted]);
    LegacyParts(s, lo, encrypted, plain, length);
    CbcDecrypt(lib.aesDecrypt(key), data, lo, lo + encrypted, iv);
    var valid := HasPadding(data, lo, lo + encrypted, length);
    if !valid {
      return Err(InvalidPadding);
    }
    UnmaskSuffix(data, lo + encrypted, lo + length, mask);
    return Ok(());
  }

  /** The parts of a buffer once the prefix of its tail is decrypted. */
  lemma LegacyParts(s: seq<byte>, lo: nat, encrypted: nat, plain: seq<byte>, length: nat)
    requires lo + encrypted <= |s| && |plain| == encrypted && length <= encrypted
    ensures s[lo..][..encrypted] == s[lo..lo + encrypted] && s[lo..][encrypted..] == s[lo + encrypted..]
    ensures var after := Spliced(s, lo, plain);
            && after[lo..lo + encrypted] == plain
            && after[..lo + length] == s[..lo] + plain[..length]
            && after[lo + encrypted..] == s[lo + encrypted..]
  {
  }

  // ---------------------------------------------------------------- body cipher 1

  /** The number eight little-endian bytes spell. */
  function Seed(s: seq<byte>): nat
    requires |s| == 8
  {
    Word(s, 0) + 0x1_0000_0000 * Word(s, 4)
  }

  function ChamKey(lib: Library, parameters: Parameters, seededHash: Block16): Block16 {
    lib.xxh128Seeded(parameters[..60], Seed(seededHash[8..]))
  }

  /** One block of the chained rotation, undone. */
  function UnchainedBlock(original: Block16, mask: Block16, previous: Block16): Block16 {
    seq(16, i requires 0 <= i < 16 => original[(i + 12) % 16] ^ mask[(i + 12) % 16] ^ previous[i])
  }

  /** The writer's block: XOR with the block before, rotation by four bytes, XOR with the name hash. */
  function ChainedBlock(plain: Block16, mask: Block16, previous: Block16): Block16 {
    seq(16, j requires 0 <= j < 16 => (plain[(j + 4) % 16] ^ previous[(j + 4) % 16]) ^ mask[j])
  }

  lemma XorThree(a: byte, b: byte, c: byte)
    ensures ((a ^ b) ^ c) ^ c ^ b == a
  {
  }

  lemma ChainedBlockInverts(plain: Block16, mask: Block16, previous: Block16)
    ensures UnchainedBlock(ChainedBlock(plain, mask, previous), mask, previous) == plain
  {
    var chained := ChainedBlock(plain, mask, previous);
    forall i | 0 <= i < 16
      ensures UnchainedBlock(chained, mask, previous)[i] == plain[i]
    {
      var j := (i + 12) % 16;
      assert (j + 4) % 16 == i;
      XorThree(plain[i], previous[i], mask[j]);
    }
  }

  /** XOR of a partial block with the name hash and the block before. */
  function PartialXor(data: seq<byte>, mask: Block16, previous: Block16): (r: seq<byte>)
    requires |data| < 16
    ensures |r| == |data|
  {
    seq(|data|, i requires 0 <= i < |data| => data[i] ^ (mask[i] ^ previous[i]))
  }

  lemma PartialXorTwice(data: seq<byte>, mask: Block16, previous: Block16)
    requires |data| < 16
    ensures PartialXor(PartialXor(data, mask, previous), mask, previous) == data
  {
    forall i | 0 <= i < |data|
      ensures (data[i] ^ (mask[i] ^ previous[i])) ^ (mask[i] ^ previous[i]) == data[i]
    {
      XorByteTwice(data[i], mask[i] ^ previous[i]);
    }
  }

  function Unchained(mask: Block16, previous: Block16, data: seq<byte>): (r: seq<byte>)
    ensures |r| == |data|
    decreases |data|
  {
    if |data| < 16 then PartialXor(data, mask, previous)
    else UnchainedBlock(data[..16], mask, previous) + Unchained(mask, data[..16], data[16..])
  }

  function Chained(mask: Block16, previous: Block16, data: seq<byte>): (r: seq<byte>)
    ensures |r| == |data|
    decreases |data|
  {
    if |data| < 16 then PartialXor(data, mask, previous)
    else
      var block := ChainedBlock(data[..16], mask, previous);
      block + Chained(mask, block, data[16..])
  }

  lemma {:induction false} ChainRoundTrip(mask: Block16, previous: Block16, data: seq<byte>)
    ensures Unchained(mask, previous, Chained(mask, previous, data)) == data
    decreases |data|
  {
    hide ChainedBlock, UnchainedBlock, PartialXor;
    if |data| < 16 {
      PartialXorTwice(data, mask, previous);
    } else {
      var block := ChainedBlock(data[..16], mask, previous);
      var coded := Chained(mask, previous, data);
      assert coded[..16] == block && coded[16..] == Chained(mask, block, data[16..]);
      ChainedBlockInverts(data[..16], mask, previous);
      ChainRoundTrip(mask, block, data[16..]);
      assert data == data[..16] + data[16..];
    }
  }

  /** `decrypt_cham_tail`: a bounded CHAM prefix, then the chained rotation over everything. */
  function ChamDecoded(lib: Library, parameters: Parameters, seededHash: Block16, outputHash: Block16, tail: seq<byte>)
    : (r: seq<byte>)
    ensures |r| == |tail|
  {
    hide Cham.CbcDecrypted, Unchained;
    var size := Rc6Window(|tail|);
    Unchained(seededHash, outputHash,
              Spliced(tail, 0, Cham.CbcDecrypted(ChamKey(lib, parameters, seededHash), outputHash, tail[..size])))
  }

  function ChamEncoded(lib: Library, parameters: Parameters, seededHash: Block16, outputHash: Block16, tail: seq<byte>)
    : (r: seq<byte>)
    ensures |r| == |tail|
  {
    hide Cham.CbcEncrypted, Chained;
    var size := Rc6Window(|tail|);
    var chained := Chained(seededHash, outputHash, tail);
    Spliced(chained, 0, Cham.CbcEncrypted(ChamKey(lib, parameters, seededHash), outputHash, chained[..size]))
  }

  lemma ChamRoundTrip(lib: Library, parameters: Parameters, seededHash: Block16, outputHash: Block16, tail: seq<byte>)
    ensures ChamDecoded(lib, parameters, seededHash, outputHash,
                        ChamEncoded(lib, parameters, seededHash, outputHash, tail)) == tail
  {
    hide ChamKey, Chained, Unchained, Cham.CbcEncrypted, Cham.CbcDecrypted, Spliced;
    var size := Rc6Window(|tail|);
    var key, chained := ChamKey(lib, parameters, seededHash), Chained(seededHash, outputHash, tail);
    var coded := Cham.CbcEncrypted(key, outputHash, chained[..size]);
    Cham.ChamCbcRoundTrip(key, outputHash, chained[..size]);
    SpliceLaws(chained, 0, coded, chained[..size]);
    assert Spliced(chained, 0, coded)[..size] == Spliced(chained, 0, coded)[0..0 + size];
    assert chained[0..0 + size] == chained[..size];
    ChainRoundTrip(seededHash, outputHash, tail);
  }

  lemma UnchainStep(mask: Block16, previous: Block16, done: seq<byte>, rest: seq<byte>, block: Block16)
    requires |rest| >= 16 && block == UnchainedBlock(rest[..16], mask, previous)
    ensures done + Unchained(mask, previous, rest) == (done + block) + Unchained(mask, rest[..16], rest[16..])
  {
    hide UnchainedBlock, PartialXor;
  }

  lemma UnchainEnd(mask: Block16, previous: Block16, rest: seq<byte>)
    requires |rest| < 16
    ensures Unchained(mask, previous, rest) == PartialXor(rest, mask, previous)
  {
    hide PartialXor;
  }

  /** The chained pass of `decrypt_cham_tail` on what follows the first `lo` bytes of `data`. */
  method Unchain(data: array<byte>, lo: nat, mask: Block16, outputHash: Block16)
    requires lo <= data.Length
    modifies data
    ensures data[..] == old(data[..])[..lo] + Unchained(mask, outputHash, old(data[..])[lo..])
  {
    hide UnchainedBlock, PartialXor, Unchained, InPass, Spliced;
    ghost var s := data[..];
    var hi := data.Length;
    ghost var done, rest := [], s[lo..hi];
    PassStarts(s, lo, hi);
    assert s[lo..hi] == s[lo..];
    var previous := outputHash;
    var at := lo;
    while hi - at >= 16
      invariant lo <= at <= hi && at == lo + |done| && |rest| == hi - at
      invariant InPass(data[..], s[..lo], done, rest, s[hi..])
      invariant done + Unchained(mask, previous, rest) == Unchained(mask, outputHash, s[lo..])
    {
      var original: Block16 := data[..][at..at + 16];
      var block: Block16 := UnchainedBlock(original, mask, previous);
      PassMoves(data[..], s[..lo], done, rest, s[hi..], at, block);
      UnchainStep(mask, previous, done, rest, block);
      StoreAt(data, at, block);
      done, rest := done + block, rest[16..];
      previous := original;
      at := at + 16;
    }
    var partial := data[..][at..hi];
    PassMoves(data[..], s[..lo], done, rest, s[hi..], at, PartialXor(rest, mask, previous));
    assert partial == rest;
    UnchainEnd(mask, previous, rest);
    StoreAt(data, at, PartialXor(partial, mask, previous));
    PassEnds(data[..], s, lo, hi, Unchained(mask, outputHash, s[lo..]), []);
    SpliceParts(s, lo, hi, Unchained(mask, outputHash, s[lo..]));
  }

  /** `decrypt_cham_tail` on what follows the first `lo` bytes of `data`. */
  method DecryptChamTail(lib: Library, parameters: Parameters, seededHash: Block16, outputHash: Block16,
                         data: array<byte>, lo: nat)
    requires lo <= data.Length
    modifies data
    ensures data[..] ==
            old(data[..])[..lo] + ChamDecoded(lib, parameters, seededHash, outputHash, old(data[..])[lo..])
  {
    hide Unchained, Cham.CbcDecrypted, Spliced, Seed;
    ghost var s := data[..];
    var key := ChamKey(lib, parameters, seededHash);
    var size := Rc6Window(data.Length - lo);
    Cham.ChamCbcDecrypt(data, lo, lo + size, key, outputHash);
    ghost var plain := Cham.CbcDecrypted(key, outputHash, s[lo..lo + size]);
    SpliceSuffix(s, lo, 0, plain);
    assert s[lo..][..size] == s[lo..lo + size];
    assert data[..] == s[..lo] + Spliced(s[lo..], 0, plain);
    assert data[..][lo..] == Spliced(s[lo..], 0, plain);
    Unchain(data, lo, seededHash, outputHash);
  }
}
