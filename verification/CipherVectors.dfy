/**
 Test vectors of the ciphers: the published ones of CHAM-128/128 and IDEA, and the first block of keystream that every
 header of type 0x71 is XORed with (src/grf_ciphers.rs, src/grf_protected.rs).
 */
module CipherVectors {
  import opened Bytes
  import opened Words
  import Cham
  import ThreeWay
  import Idea
  import opened IdeaReference
  import ProtectedEntry

  // ---------------------------------------------------------------- CHAM-128/128

  const CHAM_KEY: Block16 := [
    0x03, 0x02, 0x01, 0x00, 0x07, 0x06, 0x05, 0x04, 0x0b, 0x0a, 0x09, 0x08, 0x0f, 0x0e, 0x0d, 0x0c]

  const CHAM_PLAIN: Block16 := [
    0x33, 0x22, 0x11, 0x00, 0x77, 0x66, 0x55, 0x44, 0xbb, 0xaa, 0x99, 0x88, 0xff, 0xee, 0xdd, 0xcc]

  const CHAM_CIPHER: Block16 := [
    0xc3, 0x74, 0x60, 0x34, 0xb5, 0x57, 0x00, 0xc5, 0x8d, 0x64, 0xec, 0x32, 0x48, 0x93, 0x32, 0xf7]

  function ChamKeys(): Cham.Keys {
    [0x07070303, 0x0f0f0b0b, 0x17171313, 0x1f1f1b1b,
     0x39222f34, 0x150e0318, 0x617a776c, 0x4d565b40]
  }

  lemma ChamKeyWords()
    ensures BigEndian(CHAM_KEY, 0) == 0x03020100 && BigEndian(CHAM_KEY, 1) == 0x07060504
    ensures BigEndian(CHAM_KEY, 2) == 0x0b0a0908 && BigEndian(CHAM_KEY, 3) == 0x0f0e0d0c
  {
  }

  lemma ChamRoundKeys()
    ensures Cham.LowKey(0x03020100) == 0x07070303 && Cham.LowKey(0x07060504) == 0x0f0f0b0b
    ensures Cham.LowKey(0x0b0a0908) == 0x17171313 && Cham.LowKey(0x0f0e0d0c) == 0x1f1f1b1b
    ensures Cham.HighKey(0x03020100) == 0x150e0318 && Cham.HighKey(0x07060504) == 0x39222f34
    ensures Cham.HighKey(0x0b0a0908) == 0x4d565b40 && Cham.HighKey(0x0f0e0d0c) == 0x617a776c
  {
  }

  lemma ChamSchedule()
    ensures Cham.Schedule(CHAM_KEY) == ChamKeys()
  {
    hide Cham.LowKey, Cham.HighKey, BigEndian, CHAM_KEY;
    ChamKeyWords();
    ChamRoundKeys();
    var keys := Cham.Schedule(CHAM_KEY);
    assert keys[0] == ChamKeys()[0] && keys[1] == ChamKeys()[1] && keys[2] == ChamKeys()[2] && keys[3] == ChamKeys()[3];
    assert keys[4] == ChamKeys()[4] && keys[5] == ChamKeys()[5] && keys[6] == ChamKeys()[6] && keys[7] == ChamKeys()[7];
  }

  lemma FourMore(w: Cham.State, keys: Cham.Keys, n: nat)
    requires n + 4 <= 80
    ensures Cham.Encrypted(w, keys, n + 4) ==
            Cham.EncryptRound(Cham.EncryptRound(Cham.EncryptRound(Cham.EncryptRound(
              Cham.Encrypted(w, keys, n),
              keys, n), keys, n + 1), keys, n + 2), keys, n + 3)
  {
    hide Cham.EncryptRound;
    assert Cham.Encrypted(w, keys, n + 2) ==
           Cham.EncryptRound(Cham.EncryptRound(Cham.Encrypted(w, keys, n), keys, n), keys, n + 1);
  }

  /** A word after its round. */
  function Rounded(word: bv32, next: bv32, key: bv32, r: bv32, even: bool): bv32 {
    Cham.EncryptedWord(word, Cham.RotatedLeft(next, !even) ^ key, r, even)
  }

  lemma RoundFirst(n: nat, keys: Cham.Keys, a: bv32, b: bv32, c: bv32, d: bv32, word: bv32)
    requires n < 80 && n % 4 == 0 && (n + 1) % 4 == 1 && n % 2 == 0
    requires word == Rounded(a, b, keys[n % 8], Cham.RoundNumber(n), true)
    ensures Cham.EncryptRound([a, b, c, d], keys, n) == [word, b, c, d]
  {
    hide Cham.EncryptedWord, Cham.RotatedLeft, Cham.RoundNumber;
  }

  lemma RoundSecond(n: nat, keys: Cham.Keys, a: bv32, b: bv32, c: bv32, d: bv32, word: bv32)
    requires n < 80 && n % 4 == 1 && (n + 1) % 4 == 2 && n % 2 == 1
    requires word == Rounded(b, c, keys[n % 8], Cham.RoundNumber(n), false)
    ensures Cham.EncryptRound([a, b, c, d], keys, n) == [a, word, c, d]
  {
    hide Cham.EncryptedWord, Cham.RotatedLeft, Cham.RoundNumber;
  }

  lemma RoundThird(n: nat, keys: Cham.Keys, a: bv32, b: bv32, c: bv32, d: bv32, word: bv32)
    requires n < 80 && n % 4 == 2 && (n + 1) % 4 == 3 && n % 2 == 0
    requires word == Rounded(c, d, keys[n % 8], Cham.RoundNumber(n), true)
    ensures Cham.EncryptRound([a, b, c, d], keys, n) == [a, b, word, d]
  {
    hide Cham.EncryptedWord, Cham.RotatedLeft, Cham.RoundNumber;
  }

  lemma RoundFourth(n: nat, keys: Cham.Keys, a: bv32, b: bv32, c: bv32, d: bv32, word: bv32)
    requires n < 80 && n % 4 == 3 && (n + 1) % 4 == 0 && n % 2 == 1
    requires word == Rounded(d, a, keys[n % 8], Cham.RoundNumber(n), false)
    ensures Cham.EncryptRound([a, b, c, d], keys, n) == [a, b, c, word]
  {
    hide Cham.EncryptedWord, Cham.RotatedLeft, Cham.RoundNumber;
  }

  lemma ChamRounds0()
    ensures Cham.EncryptRound(Cham.EncryptRound(Cham.EncryptRound(Cham.EncryptRound(
              [0x33221100, 0x77665544, 0xbbaa9988, 0xffeeddcc],
              ChamKeys(), 0), ChamKeys(), 1), ChamKeys(), 2), ChamKeys(), 3) ==
            [0xedba8b1c, 0x39f9b1ea, 0x754214a4, 0x4b05cb8b]
  {
    hide Cham.EncryptRound;
    RoundFirst(0, ChamKeys(), 0x33221100, 0x77665544, 0xbbaa9988, 0xffeeddcc, 0xedba8b1c);
    RoundSecond(1, ChamKeys(), 0xedba8b1c, 0x77665544, 0xbbaa9988, 0xffeeddcc, 0x39f9b1ea);
    RoundThird(2, ChamKeys(), 0xedba8b1c, 0x39f9b1ea, 0xbbaa9988, 0xffeeddcc, 0x754214a4);
    RoundFourth(3, ChamKeys(), 0xedba8b1c, 0x39f9b1ea, 0x754214a4, 0xffeeddcc, 0x4b05cb8b);
  }

  lemma ChamRounds4()
    ensures Cham.EncryptRound(Cham.EncryptRound(Cham.EncryptRound(Cham.EncryptRound(
              [0xedba8b1c, 0x39f9b1ea, 0x754214a4, 0x4b05cb8b],
              ChamKeys(), 4), ChamKeys(), 5), ChamKeys(), 6), ChamKeys(), 7) ==
            [0x8bd7f838, 0x2228b2b9, 0xb3f51c6c, 0xcb685eaf]
  {
    hide Cham.EncryptRound;
    RoundFirst(4, ChamKeys(), 0xedba8b1c, 0x39f9b1ea, 0x754214a4, 0x4b05cb8b, 0x8bd7f838);
    RoundSecond(5, ChamKeys(), 0x8bd7f838, 0x39f9b1ea, 0x754214a4, 0x4b05cb8b, 0x2228b2b9);
    RoundThird(6, ChamKeys(), 0x8bd7f838, 0x2228b2b9, 0x754214a4, 0x4b05cb8b, 0xb3f51c6c);
    RoundFourth(7, ChamKeys(), 0x8bd7f838, 0x2228b2b9, 0xb3f51c6c, 0x4b05cb8b, 0xcb685eaf);
  }

  lemma ChamRounds8()
    ensures Cham.EncryptRound(Cham.EncryptRound(Cham.EncryptRound(Cham.EncryptRound(
              [0x8bd7f838, 0x2228b2b9, 0xb3f51c6c, 0xcb685eaf],
              ChamKeys(), 8), ChamKeys(), 9), ChamKeys(), 10), ChamKeys(), 11) ==
            [0x2e5ea1cf, 0x387834d0, 0xbccab235, 0x1a4e65b2]
  {
    hide Cham.EncryptRound;
    RoundFirst(8, ChamKeys(), 0x8bd7f838, 0x2228b2b9, 0xb3f51c6c, 0xcb685eaf, 0x2e5ea1cf);
    RoundSecond(9, ChamKeys(), 0x2e5ea1cf, 0x2228b2b9, 0xb3f51c6c, 0xcb685eaf, 0x387834d0);
    RoundThird(10, ChamKeys(), 0x2e5ea1cf, 0x387834d0, 0xb3f51c6c, 0xcb685eaf, 0xbccab235);
    RoundFourth(11, ChamKeys(), 0x2e5ea1cf, 0x387834d0, 0xbccab235, 0xcb685eaf, 0x1a4e65b2);
  }

  lemma ChamRounds12()
    ensures Cham.EncryptRound(Cham.EncryptRound(Cham.EncryptRound(Cham.EncryptRound(
              [0x2e5ea1cf, 0x387834d0, 0xbccab235, 0x1a4e65b2],
              ChamKeys(), 12), ChamKeys(), 13), ChamKeys(), 14), ChamKeys(), 15) ==
            [0x30e85778, 0x3068d702, 0xb16e4312, 0x7e9f125b]
  {
    hide Cham.EncryptRound;
    RoundFirst(12, ChamKeys(), 0x2e5ea1cf, 0x387834d0, 0xbccab235, 0x1a4e65b2, 0x30e85778);
    RoundSecond(13, ChamKeys(), 0x30e85778, 0x387834d0, 0xbccab235, 0x1a4e65b2, 0x3068d702);
    RoundThird(14, ChamKeys(), 0x30e85778, 0x3068d702, 0xbccab235, 0x1a4e65b2, 0xb16e4312);
    RoundFourth(15, ChamKeys(), 0x30e85778, 0x3068d702, 0xb16e4312, 0x1a4e65b2, 0x7e9f125b);
  }

  lemma ChamRounds16()
    ensures Cham.EncryptRound(Cham.EncryptRound(Cham.EncryptRound(Cham.EncryptRound(
              [0x30e85778, 0x3068d702, 0xb16e4312, 0x7e9f125b],
              ChamKeys(), 16), ChamKeys(), 17), ChamKeys(), 18), ChamKeys(), 19) ==
            [0xbf046f98, 0x2369e19b, 0x977aa59b, 0x341f2bd9]
  {
    hide Cham.EncryptRound;
    RoundFirst(16, ChamKeys(), 0x30e85778, 0x3068d702, 0xb16e4312, 0x7e9f125b, 0xbf046f98);
    RoundSecond(17, ChamKeys(), 0xbf046f98, 0x3068d702, 0xb16e4312, 0x7e9f125b, 0x2369e19b);
    RoundThird(18, ChamKeys(), 0xbf046f98, 0x2369e19b, 0xb16e4312, 0x7e9f125b, 0x977aa59b);
    RoundFourth(19, ChamKeys(), 0xbf046f98, 0x2369e19b, 0x977aa59b, 0x7e9f125b, 0x341f2bd9);
  }

  lemma ChamRounds20()
    ensures Cham.EncryptRound(Cham.EncryptRound(Cham.EncryptRound(Cham.EncryptRound(
              [0xbf046f98, 0x2369e19b, 0x977aa59b, 0x341f2bd9],
              ChamKeys(), 20), ChamKeys(), 21), ChamKeys(), 22), ChamKeys(), 23) ==
            [0xf65b8e3e, 0x262af43b, 0xbec66ba0, 0x95ef2308]
  {
    hide Cham.EncryptRound;
    RoundFirst(20, ChamKeys(), 0xbf046f98, 0x2369e19b, 0x977aa59b, 0x341f2bd9, 0xf65b8e3e);
    RoundSecond(21, ChamKeys(), 0xf65b8e3e, 0x2369e19b, 0x977aa59b, 0x341f2bd9, 0x262af43b);
    RoundThird(22, ChamKeys(), 0xf65b8e3e, 0x262af43b, 0x977aa59b, 0x341f2bd9, 0xbec66ba0);
    RoundFourth(23, ChamKeys(), 0xf65b8e3e, 0x262af43b, 0xbec66ba0, 0x341f2bd9, 0x95ef2308);
  }

  lemma ChamRounds24()
    ensures Cham.EncryptRound(Cham.EncryptRound(Cham.EncryptRound(Cham.EncryptRound(
              [0xf65b8e3e, 0x262af43b, 0xbec66ba0, 0x95ef2308],
              ChamKeys(), 24), ChamKeys(), 25), ChamKeys(), 26), ChamKeys(), 27) ==
            [0xae799b41, 0xdf1f3faf, 0x8fc0bcfb, 0xf8e6fb91]
  {
    hide Cham.EncryptRound;
    RoundFirst(24, ChamKeys(), 0xf65b8e3e, 0x262af43b, 0xbec66ba0, 0x95ef2308, 0xae799b41);
    RoundSecond(25, ChamKeys(), 0xae799b41, 0x262af43b, 0xbec66ba0, 0x95ef2308, 0xdf1f3faf);
    RoundThird(26, ChamKeys(), 0xae799b41, 0xdf1f3faf, 0xbec66ba0, 0x95ef2308, 0x8fc0bcfb);
    RoundFourth(27, ChamKeys(), 0xae799b41, 0xdf1f3faf, 0x8fc0bcfb, 0x95ef2308, 0xf8e6fb91);
  }

  lemma ChamRounds28()
    ensures Cham.EncryptRound(Cham.EncryptRound(Cham.EncryptRound(Cham.EncryptRound(
              [0xae799b41, 0xdf1f3faf, 0x8fc0bcfb, 0xf8e6fb91],
              ChamKeys(), 28), ChamKeys(), 29), ChamKeys(), 30), ChamKeys(), 31) ==
            [0x95ebc835, 0x69a47093, 0x783d3420, 0x3f0ad4c7]
  {
    hide Cham.EncryptRound;
    RoundFirst(28, ChamKeys(), 0xae799b41, 0xdf1f3faf, 0x8fc0bcfb, 0xf8e6fb91, 0x95ebc835);
    RoundSecond(29, ChamKeys(), 0x95ebc835, 0xdf1f3faf, 0x8fc0bcfb, 0xf8e6fb91, 0x69a47093);
    RoundThird(30, ChamKeys(), 0x95ebc835, 0x69a47093, 0x8fc0bcfb, 0xf8e6fb91, 0x783d3420);
    RoundFourth(31, ChamKeys(), 0x95ebc835, 0x69a47093, 0x783d3420, 0xf8e6fb91, 0x3f0ad4c7);
  }

  lemma ChamRounds32()
    ensures Cham.EncryptRound(Cham.EncryptRound(Cham.EncryptRound(Cham.EncryptRound(
              [0x95ebc835, 0x69a47093, 0x783d3420, 0x3f0ad4c7],
              ChamKeys(), 32), ChamKeys(), 33), ChamKeys(), 34), ChamKeys(), 35) ==
            [0x3baa3a6a, 0x37bf384b, 0x3fee9fe1, 0xe8608c09]
  {
    hide Cham.EncryptRound;
    RoundFirst(32, ChamKeys(), 0x95ebc835, 0x69a47093, 0x783d3420, 0x3f0ad4c7, 0x3baa3a6a);
    RoundSecond(33, ChamKeys(), 0x3baa3a6a, 0x69a47093, 0x783d3420, 0x3f0ad4c7, 0x37bf384b);
    RoundThird(34, ChamKeys(), 0x3baa3a6a, 0x37bf384b, 0x783d3420, 0x3f0ad4c7, 0x3fee9fe1);
    RoundFourth(35, ChamKeys(), 0x3baa3a6a, 0x37bf384b, 0x3fee9fe1, 0x3f0ad4c7, 0xe8608c09);
  }

  lemma ChamRounds36()
    ensures Cham.EncryptRound(Cham.EncryptRound(Cham.EncryptRound(Cham.EncryptRound(
              [0x3baa3a6a, 0x37bf384b, 0x3fee9fe1, 0xe8608c09],
              ChamKeys(), 36), ChamKeys(), 37), ChamKeys(), 38), ChamKeys(), 39) ==
            [0x0699f092, 0x66a2352a, 0xaa0f46f1, 0x7a0eaae9]
  {
    hide Cham.EncryptRound;
    RoundFirst(36, ChamKeys(), 0x3baa3a6a, 0x37bf384b, 0x3fee9fe1, 0xe8608c09, 0x0699f092);
    RoundSecond(37, ChamKeys(), 0x0699f092, 0x37bf384b, 0x3fee9fe1, 0xe8608c09, 0x66a2352a);
    RoundThird(38, ChamKeys(), 0x0699f092, 0x66a2352a, 0x3fee9fe1, 0xe8608c09, 0xaa0f46f1);
    RoundFourth(39, ChamKeys(), 0x0699f092, 0x66a2352a, 0xaa0f46f1, 0xe8608c09, 0x7a0eaae9);
  }

  lemma ChamRounds40()
    ensures Cham.EncryptRound(Cham.EncryptRound(Cham.EncryptRound(Cham.EncryptRound(
              [0x0699f092, 0x66a2352a, 0xaa0f46f1, 0x7a0eaae9],
              ChamKeys(), 40), ChamKeys(), 41), ChamKeys(), 42), ChamKeys(), 43) ==
            [0xdd5a11d0, 0xcdd85f48, 0x198d9c8d, 0x7e3aed11]
  {
    hide Cham.EncryptRound;
    RoundFirst(40, ChamKeys(), 0x0699f092, 0x66a2352a, 0xaa0f46f1, 0x7a0eaae9, 0xdd5a11d0);
    RoundSecond(41, ChamKeys(), 0xdd5a11d0, 0x66a2352a, 0xaa0f46f1, 0x7a0eaae9, 0xcdd85f48);
    RoundThird(42, ChamKeys(), 0xdd5a11d0, 0xcdd85f48, 0xaa0f46f1, 0x7a0eaae9, 0x198d9c8d);
    RoundFourth(43, ChamKeys(), 0xdd5a11d0, 0xcdd85f48, 0x198d9c8d, 0x7a0eaae9, 0x7e3aed11);
  }

  lemma ChamRounds44()
    ensures Cham.EncryptRound(Cham.EncryptRound(Cham.EncryptRound(Cham.EncryptRound(
              [0xdd5a11d0, 0xcdd85f48, 0x198d9c8d, 0x7e3aed11],
              ChamKeys(), 44), ChamKeys(), 45), ChamKeys(), 46), ChamKeys(), 47) ==
            [0xeca3a17f, 0xccd5dacc, 0x9d49f1b6, 0xda6423d4]
  {
    hide Cham.EncryptRound;
    RoundFirst(44, ChamKeys(), 0xdd5a11d0, 0xcdd85f48, 0x198d9c8d, 0x7e3aed11, 0xeca3a17f);
    RoundSecond(45, ChamKeys(), 0xeca3a17f, 0xcdd85f48, 0x198d9c8d, 0x7e3aed11, 0xccd5dacc);
    RoundThird(46, ChamKeys(), 0xeca3a17f, 0xccd5dacc, 0x198d9c8d, 0x7e3aed11, 0x9d49f1b6);
    RoundFourth(47, ChamKeys(), 0xeca3a17f, 0xccd5dacc, 0x9d49f1b6, 0x7e3aed11, 0xda6423d4);
  }

  lemma ChamRounds48()
    ensures Cham.EncryptRound(Cham.EncryptRound(Cham.EncryptRound(Cham.EncryptRound(
              [0xeca3a17f, 0xccd5dacc, 0x9d49f1b6, 0xda6423d4],
              ChamKeys(), 48), ChamKeys(), 49), ChamKeys(), 50), ChamKeys(), 51) ==
            [0x5057e98b, 0x27a93126, 0x29463e41, 0x46b56864]
  {
    hide Cham.EncryptRound;
    RoundFirst(48, ChamKeys(), 0xeca3a17f, 0xccd5dacc, 0x9d49f1b6, 0xda6423d4, 0x5057e98b);
    RoundSecond(49, ChamKeys(), 0x5057e98b, 0xccd5dacc, 0x9d49f1b6, 0xda6423d4, 0x27a93126);
    RoundThird(50, ChamKeys(), 0x5057e98b, 0x27a93126, 0x9d49f1b6, 0xda6423d4, 0x29463e41);
    RoundFourth(51, ChamKeys(), 0x5057e98b, 0x27a93126, 0x29463e41, 0xda6423d4, 0x46b56864);
  }

  lemma ChamRounds52()
    ensures Cham.EncryptRound(Cham.EncryptRound(Cham.EncryptRound(Cham.EncryptRound(
              [0x5057e98b, 0x27a93126, 0x29463e41, 0x46b56864],
              ChamKeys(), 52), ChamKeys(), 53), ChamKeys(), 54), ChamKeys(), 55) ==
            [0xc83737c6, 0xf5b2e688, 0x56e61b15, 0x822e0bb7]
  {
    hide Cham.EncryptRound;
    RoundFirst(52, ChamKeys(), 0x5057e98b, 0x27a93126, 0x29463e41, 0x46b56864, 0xc83737c6);
    RoundSecond(53, ChamKeys(), 0xc83737c6, 0x27a93126, 0x29463e41, 0x46b56864, 0xf5b2e688);
    RoundThird(54, ChamKeys(), 0xc83737c6, 0xf5b2e688, 0x29463e41, 0x46b56864, 0x56e61b15);
    RoundFourth(55, ChamKeys(), 0xc83737c6, 0xf5b2e688, 0x56e61b15, 0x46b56864, 0x822e0bb7);
  }

  lemma ChamRounds56()
    ensures Cham.EncryptRound(Cham.EncryptRound(Cham.EncryptRound(Cham.EncryptRound(
              [0xc83737c6, 0xf5b2e688, 0x56e61b15, 0x822e0bb7],
              ChamKeys(), 56), ChamKeys(), 57), ChamKeys(), 58), ChamKeys(), 59) ==
            [0x9a0610b4, 0xbd8e0a1d, 0x311fab6a, 0x367b761b]
  {
    hide Cham.EncryptRound;
    RoundFirst(56, ChamKeys(), 0xc83737c6, 0xf5b2e688, 0x56e61b15, 0x822e0bb7, 0x9a0610b4);
    RoundSecond(57, ChamKeys(), 0x9a0610b4, 0xf5b2e688, 0x56e61b15, 0x822e0bb7, 0xbd8e0a1d);
    RoundThird(58, ChamKeys(), 0x9a0610b4, 0xbd8e0a1d, 0x56e61b15, 0x822e0bb7, 0x311fab6a);
    RoundFourth(59, ChamKeys(), 0x9a0610b4, 0xbd8e0a1d, 0x311fab6a, 0x822e0bb7, 0x367b761b);
  }

  lemma ChamRounds60()
    ensures Cham.EncryptRound(Cham.EncryptRound(Cham.EncryptRound(Cham.EncryptRound(
              [0x9a0610b4, 0xbd8e0a1d, 0x311fab6a, 0x367b761b],
              ChamKeys(), 60), ChamKeys(), 61), ChamKeys(), 62), ChamKeys(), 63) ==
            [0x444b97dc, 0x9066e693, 0xac46ae3e, 0x7a79fa50]
  {
    hide Cham.EncryptRound;
    RoundFirst(60, ChamKeys(), 0x9a0610b4, 0xbd8e0a1d, 0x311fab6a, 0x367b761b, 0x444b97dc);
    RoundSecond(61, ChamKeys(), 0x444b97dc, 0xbd8e0a1d, 0x311fab6a, 0x367b761b, 0x9066e693);
    RoundThird(62, ChamKeys(), 0x444b97dc, 0x9066e693, 0x311fab6a, 0x367b761b, 0xac46ae3e);
    RoundFourth(63, ChamKeys(), 0x444b97dc, 0x9066e693, 0xac46ae3e, 0x367b761b, 0x7a79fa50);
  }

  lemma ChamRounds64()
    ensures Cham.EncryptRound(Cham.EncryptRound(Cham.EncryptRound(Cham.EncryptRound(
              [0x444b97dc, 0x9066e693, 0xac46ae3e, 0x7a79fa50],
              ChamKeys(), 64), ChamKeys(), 65), ChamKeys(), 66), ChamKeys(), 67) ==
            [0x1665c06c, 0xb41038f3, 0x2b962f90, 0xeab2e241]
  {
    hide Cham.EncryptRound;
    RoundFirst(64, ChamKeys(), 0x444b97dc, 0x9066e693, 0xac46ae3e, 0x7a79fa50, 0x1665c06c);
    RoundSecond(65, ChamKeys(), 0x1665c06c, 0x9066e693, 0xac46ae3e, 0x7a79fa50, 0xb41038f3);
    RoundThird(66, ChamKeys(), 0x1665c06c, 0xb41038f3, 0xac46ae3e, 0x7a79fa50, 0x2b962f90);
    RoundFourth(67, ChamKeys(), 0x1665c06c, 0xb41038f3, 0x2b962f90, 0x7a79fa50, 0xeab2e241);
  }

  lemma ChamRounds68()
    ensures Cham.EncryptRound(Cham.EncryptRound(Cham.EncryptRound(Cham.EncryptRound(
              [0x1665c06c, 0xb41038f3, 0x2b962f90, 0xeab2e241],
              ChamKeys(), 68), ChamKeys(), 69), ChamKeys(), 70), ChamKeys(), 71) ==
            [0x681efb67, 0x6e6397d2, 0xb5e3c5df, 0x7cc03c5c]
  {
    hide Cham.EncryptRound;
    RoundFirst(68, ChamKeys(), 0x1665c06c, 0xb41038f3, 0x2b962f90, 0xeab2e241, 0x681efb67);
    RoundSecond(69, ChamKeys(), 0x681efb67, 0xb41038f3, 0x2b962f90, 0xeab2e241, 0x6e6397d2);
    RoundThird(70, ChamKeys(), 0x681efb67, 0x6e6397d2, 0x2b962f90, 0xeab2e241, 0xb5e3c5df);
    RoundFourth(71, ChamKeys(), 0x681efb67, 0x6e6397d2, 0xb5e3c5df, 0xeab2e241, 0x7cc03c5c);
  }

  lemma ChamRounds72()
    ensures Cham.EncryptRound(Cham.EncryptRound(Cham.EncryptRound(Cham.EncryptRound(
              [0x681efb67, 0x6e6397d2, 0xb5e3c5df, 0x7cc03c5c],
              ChamKeys(), 72), ChamKeys(), 73), ChamKeys(), 74), ChamKeys(), 75) ==
            [0xdf27d643, 0xb65cd8b2, 0x7b3140a4, 0x6b1329b7]
  {
    hide Cham.EncryptRound;
    RoundFirst(72, ChamKeys(), 0x681efb67, 0x6e6397d2, 0xb5e3c5df, 0x7cc03c5c, 0xdf27d643);
    RoundSecond(73, ChamKeys(), 0xdf27d643, 0x6e6397d2, 0xb5e3c5df, 0x7cc03c5c, 0xb65cd8b2);
    RoundThird(74, ChamKeys(), 0xdf27d643, 0xb65cd8b2, 0xb5e3c5df, 0x7cc03c5c, 0x7b3140a4);
    RoundFourth(75, ChamKeys(), 0xdf27d643, 0xb65cd8b2, 0x7b3140a4, 0x7cc03c5c, 0x6b1329b7);
  }

  lemma ChamRounds76()
    ensures Cham.EncryptRound(Cham.EncryptRound(Cham.EncryptRound(Cham.EncryptRound(
              [0xdf27d643, 0xb65cd8b2, 0x7b3140a4, 0x6b1329b7],
              ChamKeys(), 76), ChamKeys(), 77), ChamKeys(), 78), ChamKeys(), 79) ==
            [0xc3746034, 0xb55700c5, 0x8d64ec32, 0x489332f7]
  {
    hide Cham.EncryptRound;
    RoundFirst(76, ChamKeys(), 0xdf27d643, 0xb65cd8b2, 0x7b3140a4, 0x6b1329b7, 0xc3746034);
    RoundSecond(77, ChamKeys(), 0xc3746034, 0xb65cd8b2, 0x7b3140a4, 0x6b1329b7, 0xb55700c5);
    RoundThird(78, ChamKeys(), 0xc3746034, 0xb55700c5, 0x7b3140a4, 0x6b1329b7, 0x8d64ec32);
    RoundFourth(79, ChamKeys(), 0xc3746034, 0xb55700c5, 0x8d64ec32, 0x6b1329b7, 0x489332f7);
  }

  lemma ChamRounds()
    ensures Cham.Encrypted([0x33221100, 0x77665544, 0xbbaa9988, 0xffeeddcc], ChamKeys(), 80) ==
            [0xc3746034, 0xb55700c5, 0x8d64ec32, 0x489332f7]
  {
    hide Cham.EncryptRound, Cham.Encrypted, ChamKeys;
    var w: Cham.State := [0x33221100, 0x77665544, 0xbbaa9988, 0xffeeddcc];
    assert Cham.Encrypted(w, ChamKeys(), 0) == w by { ChamNoRounds(w, ChamKeys()); }
    FourMore(w, ChamKeys(), 0);
    ChamRounds0();
    FourMore(w, ChamKeys(), 4);
    ChamRounds4();
    FourMore(w, ChamKeys(), 8);
    ChamRounds8();
    FourMore(w, ChamKeys(), 12);
    ChamRounds12();
    FourMore(w, ChamKeys(), 16);
    ChamRounds16();
    FourMore(w, ChamKeys(), 20);
    ChamRounds20();
    FourMore(w, ChamKeys(), 24);
    ChamRounds24();
    FourMore(w, ChamKeys(), 28);
    ChamRounds28();
    FourMore(w, ChamKeys(), 32);
    ChamRounds32();
    FourMore(w, ChamKeys(), 36);
    ChamRounds36();
    FourMore(w, ChamKeys(), 40);
    ChamRounds40();
    FourMore(w, ChamKeys(), 44);
    ChamRounds44();
    FourMore(w, ChamKeys(), 48);
    ChamRounds48();
    FourMore(w, ChamKeys(), 52);
    ChamRounds52();
    FourMore(w, ChamKeys(), 56);
    ChamRounds56();
    FourMore(w, ChamKeys(), 60);
    ChamRounds60();
    FourMore(w, ChamKeys(), 64);
    ChamRounds64();
    FourMore(w, ChamKeys(), 68);
    ChamRounds68();
    FourMore(w, ChamKeys(), 72);
    ChamRounds72();
    FourMore(w, ChamKeys(), 76);
    ChamRounds76();
  }

  lemma ChamNoRounds(w: Cham.State, keys: Cham.Keys)
    ensures Cham.Encrypted(w, keys, 0) == w
  {
  }

  lemma ChamBlocks()
    ensures Cham.StateOf(CHAM_PLAIN) == [0x33221100, 0x77665544, 0xbbaa9988, 0xffeeddcc]
    ensures Cham.BlockOf([0xc3746034, 0xb55700c5, 0x8d64ec32, 0x489332f7]) == CHAM_CIPHER
  {
    assert BigEndian(CHAM_PLAIN, 0) == 0x33221100 && BigEndian(CHAM_PLAIN, 1) == 0x77665544;
    assert BigEndian(CHAM_PLAIN, 2) == 0xbbaa9988 && BigEndian(CHAM_PLAIN, 3) == 0xffeeddcc;
  }

  /** The test vector that was published with CHAM-128/128, in both directions. */
  lemma ChamVector()
    ensures Cham.EncryptBlock(Cham.Schedule(CHAM_KEY))(CHAM_PLAIN) == CHAM_CIPHER
    ensures Cham.DecryptBlock(Cham.Schedule(CHAM_KEY))(CHAM_CIPHER) == CHAM_PLAIN
  {
    hide Cham.Encrypted, Cham.Decrypted, Cham.Schedule, Cham.StateOf, Cham.BlockOf, CHAM_KEY, CHAM_PLAIN, CHAM_CIPHER;
    ChamSchedule();
    ChamRounds();
    ChamBlocks();
    Cham.BlocksInvert(Cham.Schedule(CHAM_KEY));
  }

  // ---------------------------------------------------------------- ThreeWay

  function ThreeWayKey(): ThreeWay.State {
    ThreeWay.State(0xad61aeda, 0xbf203e1d, 0xfe1db72b)
  }

  function ThreeWayRound(s: ThreeWay.State, constant: bv32): ThreeWay.State {
    ThreeWay.Substituted(ThreeWay.Theta(ThreeWay.AddKey(s, ThreeWayKey(), constant)))
  }

  lemma OneMoreRound(s: ThreeWay.State, n: nat)
    ensures ThreeWay.Rounds(s, ThreeWayKey(), n + 1) ==
            ThreeWayRound(ThreeWay.Rounds(s, ThreeWayKey(), n), ThreeWay.ConstantAfter(n))
  {
    hide ThreeWay.Substituted, ThreeWay.Theta, ThreeWay.AddKey, ThreeWayKey;
  }

  lemma ThreeWayConstants()
    ensures ThreeWay.ConstantAfter(0) == 0x0b0b && ThreeWay.ConstantAfter(1) == 0x1616
    ensures ThreeWay.ConstantAfter(2) == 0x2c2c && ThreeWay.ConstantAfter(3) == 0x5858
    ensures ThreeWay.ConstantAfter(4) == 0xb0b0 && ThreeWay.ConstantAfter(5) == 0x7171
    ensures ThreeWay.ConstantAfter(6) == 0xe2e2 && ThreeWay.ConstantAfter(7) == 0xd5d5
    ensures ThreeWay.ConstantAfter(8) == 0xbbbb && ThreeWay.ConstantAfter(9) == 0x6767
    ensures ThreeWay.ConstantAfter(10) == 0xcece && ThreeWay.ConstantAfter(11) == 0x8d8d
  {
  }

  lemma ThreeWayRounds0()
    ensures ThreeWayRound(ThreeWayRound(ThreeWayRound(ThreeWayRound(
              ThreeWay.State(0xa095dfcf, 0xd04b74db, 0x027ede09), 0x0b0b), 0x1616), 0x2c2c), 0x5858) ==
            ThreeWay.State(0x7811d130, 0x8ac32ae7, 0x21697dc1)
  {
  }

  lemma ThreeWayRounds4()
    ensures ThreeWayRound(ThreeWayRound(ThreeWayRound(ThreeWayRound(
              ThreeWay.State(0x7811d130, 0x8ac32ae7, 0x21697dc1), 0xb0b0), 0x7171), 0xe2e2), 0xd5d5) ==
            ThreeWay.State(0x54d8805f, 0x0c01d857, 0xf8dd0651)
  {
  }

  lemma ThreeWayRounds8()
    ensures ThreeWayRound(ThreeWayRound(ThreeWayRound(
              ThreeWay.State(0x54d8805f, 0x0c01d857, 0xf8dd0651), 0xbbbb), 0x6767), 0xcece) ==
            ThreeWay.State(0xe858054f, 0x35cf5ea8, 0xb371da6a)
  {
  }

  lemma ThreeWayLast()
    ensures ThreeWay.Theta(ThreeWay.AddKey(
              ThreeWay.State(0xe858054f, 0x35cf5ea8, 0xb371da6a), ThreeWayKey(), 0x8d8d)) ==
            ThreeWay.State(0xae5e9185, 0x4f00fbac, 0x298a79d9)
  {
  }

  lemma ThreeWayBlocks()
    ensures ThreeWay.StateOf(ProtectedEntry.THREEWAY_KEY) == ThreeWayKey()
    ensures ThreeWay.StateOf(ProtectedEntry.THREEWAY_IV) == ThreeWay.State(0xa095dfcf, 0xd04b74db, 0x027ede09)
    ensures ThreeWay.BlockOf(ThreeWay.State(0xae5e9185, 0x4f00fbac, 0x298a79d9)) ==
            [0xae, 0x5e, 0x91, 0x85, 0x4f, 0x00, 0xfb, 0xac, 0x29, 0x8a, 0x79, 0xd9]
  {
    assert BigEndian(ProtectedEntry.THREEWAY_KEY, 0) == 0xad61aeda;
  }

  lemma NoThreeWayRounds(s: ThreeWay.State)
    ensures ThreeWay.Rounds(s, ThreeWayKey(), 0) == s
  {
  }

  /** The keystream that hides bytes 8 to 20 of every header of type 0x71. */
  lemma ThreeWayVector()
    ensures ThreeWay.EncryptedBlock(ProtectedEntry.THREEWAY_KEY, ProtectedEntry.THREEWAY_IV) ==
            [0xae, 0x5e, 0x91, 0x85, 0x4f, 0x00, 0xfb, 0xac, 0x29, 0x8a, 0x79, 0xd9]
  {
    hide ThreeWay.StateOf, ThreeWay.BlockOf, ThreeWay.Theta, ThreeWay.AddKey, ThreeWay.Rounds, ThreeWayRound,
      ThreeWayKey, ThreeWay.ConstantAfter, ProtectedEntry.THREEWAY_KEY, ProtectedEntry.THREEWAY_IV;
    var s := ThreeWay.State(0xa095dfcf, 0xd04b74db, 0x027ede09);
    ThreeWayBlocks();
    ThreeWayConstants();
    NoThreeWayRounds(s);
    OneMoreRound(s, 0);
    OneMoreRound(s, 1);
    OneMoreRound(s, 2);
    OneMoreRound(s, 3);
    OneMoreRound(s, 4);
    OneMoreRound(s, 5);
    OneMoreRound(s, 6);
    OneMoreRound(s, 7);
    OneMoreRound(s, 8);
    OneMoreRound(s, 9);
    OneMoreRound(s, 10);
    ThreeWayRounds0();
    ThreeWayRounds4();
    ThreeWayRounds8();
    ThreeWayLast();
  }

  // ---------------------------------------------------------------- IDEA

  const IDEA_KEY: Block16 := [0, 1, 0, 2, 0, 3, 0, 4, 0, 5, 0, 6, 0, 7, 0, 8]

  const IDEA_PLAIN: Block8 := [0, 0, 0, 1, 0, 2, 0, 3]

  const IDEA_CIPHER: Block8 := [0x11, 0xfb, 0xed, 0x2b, 0x01, 0x98, 0x6d, 0xe5]

  /** A product of key words, in numbers. */
  lemma Product(a: bv16, b: bv16, r: bv16, m: nat, n: nat, p: nat)
    requires Idea.Residue(a) == m && Idea.Residue(b) == n && Idea.Residue(r) == p && m * n % 65537 == p
    ensures Idea.Multiply(a, b) == r
  {
    hide Idea.Multiply, Idea.Residue;
    Idea.MultiplyIsGroupProduct(a, b);
    Idea.ResidueInjective(Idea.Multiply(a, b), r);
  }

  function IdeaRound(s: Idea.State, k0: bv16, k1: bv16, k2: bv16, k3: bv16, k4: bv16, k5: bv16): Idea.State {
    Idea.Masked(Idea.Keyed(s, k0, k1, k2, k3), k4, k5)
  }

  lemma IdeaRound0()
    ensures IdeaRound(Idea.State(0x0000, 0x0001, 0x0002, 0x0003), 0x0001, 0x0002, 0x0003, 0x0004, 0x0005, 0x0006) ==
            Idea.State(0x00f0, 0x00f5, 0x010a, 0x0105)
  {
    hide Idea.Multiply;
    Product(0x0000, 0x0001, 0x0000, 65536, 1, 65536);
    Product(0x0003, 0x0004, 0x000c, 3, 4, 12);
    Product(0x0005, 0x0005, 0x0019, 5, 5, 25);
    Product(0x0028, 0x0006, 0x00f0, 40, 6, 240);
  }

  lemma IdeaRound1()
    ensures IdeaRound(Idea.State(0x00f0, 0x00f5, 0x010a, 0x0105), 0x0007, 0x0008, 0x0400, 0x0600, 0x0800, 0x0a00) ==
            Idea.State(0x222f, 0x21b5, 0xf45e, 0xe959)
  {
    hide Idea.Multiply;
    Product(0x00f0, 0x0007, 0x0690, 240, 7, 1680);
    Product(0x0105, 0x0600, 0x1dfa, 261, 1536, 7674);
    Product(0x039a, 0x0800, 0xcfe4, 922, 2048, 53220);
    Product(0xeceb, 0x0a00, 0x24bf, 60651, 2560, 9407);
  }

  lemma IdeaRound2()
    ensures IdeaRound(Idea.State(0x222f, 0x21b5, 0xf45e, 0xe959), 0x0c00, 0x0e00, 0x1000, 0x0200, 0x0010, 0x0014) ==
            Idea.State(0x0f86, 0x39be, 0x8ee8, 0x1173)
  {
    hide Idea.Multiply;
    Product(0x222f, 0x0c00, 0x3266, 8751, 3072, 12902);
    Product(0xe959, 0x0200, 0xb02e, 59737, 512, 45102);
    Product(0x3638, 0x0010, 0x637d, 13880, 16, 25469);
    Product(0x0318, 0x0014, 0x3de0, 792, 20, 15840);
  }

  lemma IdeaRound3()
    ensures IdeaRound(Idea.State(0x0f86, 0x39be, 0x8ee8, 0x1173), 0x0018, 0x001c, 0x0020, 0x0004, 0x0008, 0x000c) ==
            Idea.State(0x57df, 0xac58, 0xc65b, 0xba4d)
  {
    hide Idea.Multiply;
    Product(0x0f86, 0x0018, 0x748f, 3974, 24, 29839);
    Product(0x1173, 0x0004, 0x45cc, 4467, 4, 17868);
    Product(0xfb87, 0x0008, 0xdc31, 64391, 8, 56369);
    Product(0x5847, 0x000c, 0x2350, 22599, 12, 9040);
  }

  lemma IdeaRound4()
    ensures IdeaRound(Idea.State(0x57df, 0xac58, 0xc65b, 0xba4d), 0x2800, 0x3000, 0x3800, 0x4000, 0x0800, 0x1000) ==
            Idea.State(0x8e81, 0xba9c, 0xf77f, 0x3a4a)
  {
    hide Idea.Multiply;
    Product(0x57df, 0x2800, 0xca46, 22495, 10240, 51782);
    Product(0xba4d, 0x4000, 0x116d, 47693, 16384, 4461);
    Product(0x341d, 0x0800, 0xe660, 13341, 2048, 58976);
    Product(0xb395, 0x1000, 0x44c7, 45973, 4096, 17607);
  }

  lemma IdeaRound5()
    ensures IdeaRound(Idea.State(0x8e81, 0xba9c, 0xf77f, 0x3a4a), 0x1800, 0x2000, 0x0070, 0x0080, 0x0010, 0x0020) ==
            Idea.State(0x6942, 0x9409, 0xe21b, 0x1c64)
  {
    hide Idea.Multiply;
    Product(0x8e81, 0x1800, 0x0aa4, 36481, 6144, 2724);
    Product(0x3a4a, 0x0080, 0x24e3, 14922, 128, 9443);
    Product(0xfd4b, 0x0010, 0xd4a1, 64843, 16, 54433);
    Product(0xd320, 0x0020, 0x63e6, 54048, 32, 25574);
  }

  lemma IdeaRound6()
    ensures IdeaRound(Idea.State(0x6942, 0x9409, 0xe21b, 0x1c64), 0x0030, 0x0040, 0x0050, 0x0060, 0x0000, 0x2000) ==
            Idea.State(0x99d0, 0xc7f6, 0x5331, 0x620e)
  {
    hide Idea.Multiply;
    Product(0x6942, 0x0030, 0xbc4d, 26946, 48, 48205);
    Product(0x1c64, 0x0060, 0xa576, 7268, 96, 42358);
    Product(0x5e26, 0x0000, 0xa1db, 24102, 65536, 41435);
    Product(0xd31a, 0x2000, 0x259d, 54042, 8192, 9629);
  }

  lemma IdeaRound7()
    ensures IdeaRound(Idea.State(0x99d0, 0xc7f6, 0x5331, 0x620e), 0x4000, 0x6000, 0x8000, 0xa000, 0xc000, 0xe001) ==
            Idea.State(0x0a24, 0x0098, 0xec6b, 0x4925)
  {
    hide Idea.Multiply;
    Product(0x99d0, 0x4000, 0xd98d, 39376, 16384, 55693);
    Product(0x620e, 0xa000, 0x82b8, 25102, 40960, 33464);
    Product(0x0abc, 0xc000, 0xf7f4, 2748, 49152, 63476);
    Product(0x9d42, 0xe001, 0xd3a9, 40258, 57345, 54185);
  }

  const IDEA_ROW_0: bv128 := 0x00010002_00030004_00050006_00070008
  const IDEA_ROW_1: bv128 := 0x04000600_08000a00_0c000e00_10000200
  const IDEA_ROW_2: bv128 := 0x00100014_0018001c_00200004_0008000c
  const IDEA_ROW_3: bv128 := 0x28003000_38004000_08001000_18002000
  const IDEA_ROW_4: bv128 := 0x00700080_00100020_00300040_00500060
  const IDEA_ROW_5: bv128 := 0x00002000_40006000_8000a000_c000e001
  const IDEA_ROW_6: bv128 := 0x008000c0_01000140_018001c0_02000040

  lemma IdeaHalf()
    ensures Idea.Wide(IDEA_KEY[..8]) == 0x00000000_00000000_00010002_00030004
  {
    hide Idea.Wide;
    WideStart(IDEA_KEY);
    WideStep(IDEA_KEY, 0);
    WideStep(IDEA_KEY, 1);
    WideStep(IDEA_KEY, 2);
    WideStep(IDEA_KEY, 3);
    WideStep(IDEA_KEY, 4);
    WideStep(IDEA_KEY, 5);
    WideStep(IDEA_KEY, 6);
    WideStep(IDEA_KEY, 7);
  }

  lemma IdeaWide()
    ensures Idea.Wide(IDEA_KEY) == IDEA_ROW_0
  {
    hide Idea.Wide;
    WideStart(IDEA_KEY);
    IdeaHalf();
    WideStep(IDEA_KEY, 8);
    WideStep(IDEA_KEY, 9);
    WideStep(IDEA_KEY, 10);
    WideStep(IDEA_KEY, 11);
    WideStep(IDEA_KEY, 12);
    WideStep(IDEA_KEY, 13);
    WideStep(IDEA_KEY, 14);
    WideStep(IDEA_KEY, 15);
  }

  lemma IdeaRows()
    ensures Idea.Rotated(IDEA_ROW_0) == IDEA_ROW_1
    ensures Idea.Rotated(IDEA_ROW_1) == IDEA_ROW_2
    ensures Idea.Rotated(IDEA_ROW_2) == IDEA_ROW_3
    ensures Idea.Rotated(IDEA_ROW_3) == IDEA_ROW_4
    ensures Idea.Rotated(IDEA_ROW_4) == IDEA_ROW_5
    ensures Idea.Rotated(IDEA_ROW_5) == IDEA_ROW_6
  {
  }

  lemma IdeaSlots0()
    ensures Idea.Slot(IDEA_ROW_0, 0) == 0x0001 && Idea.Slot(IDEA_ROW_0, 1) == 0x0002
    ensures Idea.Slot(IDEA_ROW_0, 2) == 0x0003 && Idea.Slot(IDEA_ROW_0, 3) == 0x0004
    ensures Idea.Slot(IDEA_ROW_0, 4) == 0x0005 && Idea.Slot(IDEA_ROW_0, 5) == 0x0006
    ensures Idea.Slot(IDEA_ROW_0, 6) == 0x0007 && Idea.Slot(IDEA_ROW_0, 7) == 0x0008
  {
  }

  lemma IdeaSlots1()
    ensures Idea.Slot(IDEA_ROW_1, 0) == 0x0400 && Idea.Slot(IDEA_ROW_1, 1) == 0x0600
    ensures Idea.Slot(IDEA_ROW_1, 2) == 0x0800 && Idea.Slot(IDEA_ROW_1, 3) == 0x0a00
    ensures Idea.Slot(IDEA_ROW_1, 4) == 0x0c00 && Idea.Slot(IDEA_ROW_1, 5) == 0x0e00
    ensures Idea.Slot(IDEA_ROW_1, 6) == 0x1000 && Idea.Slot(IDEA_ROW_1, 7) == 0x0200
  {
  }

  lemma IdeaSlots2()
    ensures Idea.Slot(IDEA_ROW_2, 0) == 0x0010 && Idea.Slot(IDEA_ROW_2, 1) == 0x0014
    ensures Idea.Slot(IDEA_ROW_2, 2) == 0x0018 && Idea.Slot(IDEA_ROW_2, 3) == 0x001c
    ensures Idea.Slot(IDEA_ROW_2, 4) == 0x0020 && Idea.Slot(IDEA_ROW_2, 5) == 0x0004
    ensures Idea.Slot(IDEA_ROW_2, 6) == 0x0008 && Idea.Slot(IDEA_ROW_2, 7) == 0x000c
  {
  }

  lemma IdeaSlots3()
    ensures Idea.Slot(IDEA_ROW_3, 0) == 0x2800 && Idea.Slot(IDEA_ROW_3, 1) == 0x3000
    ensures Idea.Slot(IDEA_ROW_3, 2) == 0x3800 && Idea.Slot(IDEA_ROW_3, 3) == 0x4000
    ensures Idea.Slot(IDEA_ROW_3, 4) == 0x0800 && Idea.Slot(IDEA_ROW_3, 5) == 0x1000
    ensures Idea.Slot(IDEA_ROW_3, 6) == 0x1800 && Idea.Slot(IDEA_ROW_3, 7) == 0x2000
  {
  }

  lemma IdeaSlots4()
    ensures Idea.Slot(IDEA_ROW_4, 0) == 0x0070 && Idea.Slot(IDEA_ROW_4, 1) == 0x0080
    ensures Idea.Slot(IDEA_ROW_4, 2) == 0x0010 && Idea.Slot(IDEA_ROW_4, 3) == 0x0020
    ensures Idea.Slot(IDEA_ROW_4, 4) == 0x0030 && Idea.Slot(IDEA_ROW_4, 5) == 0x0040
    ensures Idea.Slot(IDEA_ROW_4, 6) == 0x0050 && Idea.Slot(IDEA_ROW_4, 7) == 0x0060
  {
  }

  lemma IdeaSlots5()
    ensures Idea.Slot(IDEA_ROW_5, 0) == 0x0000 && Idea.Slot(IDEA_ROW_5, 1) == 0x2000
    ensures Idea.Slot(IDEA_ROW_5, 2) == 0x4000 && Idea.Slot(IDEA_ROW_5, 3) == 0x6000
    ensures Idea.Slot(IDEA_ROW_5, 4) == 0x8000 && Idea.Slot(IDEA_ROW_5, 5) == 0xa000
    ensures Idea.Slot(IDEA_ROW_5, 6) == 0xc000 && Idea.Slot(IDEA_ROW_5, 7) == 0xe001
  {
  }

  lemma IdeaSlots6()
    ensures Idea.Slot(IDEA_ROW_6, 0) == 0x0080 && Idea.Slot(IDEA_ROW_6, 1) == 0x00c0
    ensures Idea.Slot(IDEA_ROW_6, 2) == 0x0100 && Idea.Slot(IDEA_ROW_6, 3) == 0x0140
  {
  }

  lemma IdeaRotations()
    ensures Idea.RotatedTimes(Idea.Wide(IDEA_KEY), 0) == IDEA_ROW_0
    ensures Idea.RotatedTimes(Idea.Wide(IDEA_KEY), 1) == IDEA_ROW_1
    ensures Idea.RotatedTimes(Idea.Wide(IDEA_KEY), 2) == IDEA_ROW_2
    ensures Idea.RotatedTimes(Idea.Wide(IDEA_KEY), 3) == IDEA_ROW_3
    ensures Idea.RotatedTimes(Idea.Wide(IDEA_KEY), 4) == IDEA_ROW_4
    ensures Idea.RotatedTimes(Idea.Wide(IDEA_KEY), 5) == IDEA_ROW_5
    ensures Idea.RotatedTimes(Idea.Wide(IDEA_KEY), 6) == IDEA_ROW_6
  {
    hide Idea.Wide, Idea.Rotated, Idea.RotatedTimes, IDEA_KEY;
    IdeaWide();
    IdeaRows();
    Idea.NotRotated(Idea.Wide(IDEA_KEY));
    Idea.RotatedAgain(Idea.Wide(IDEA_KEY), 0);
    Idea.RotatedAgain(Idea.Wide(IDEA_KEY), 1);
    Idea.RotatedAgain(Idea.Wide(IDEA_KEY), 2);
    Idea.RotatedAgain(Idea.Wide(IDEA_KEY), 3);
    Idea.RotatedAgain(Idea.Wide(IDEA_KEY), 4);
    Idea.RotatedAgain(Idea.Wide(IDEA_KEY), 5);
  }

  lemma IdeaKeys0()
    ensures Idea.Schedule(IDEA_KEY)[0] == 0x0001 && Idea.Schedule(IDEA_KEY)[1] == 0x0002
    ensures Idea.Schedule(IDEA_KEY)[2] == 0x0003 && Idea.Schedule(IDEA_KEY)[3] == 0x0004
    ensures Idea.Schedule(IDEA_KEY)[4] == 0x0005 && Idea.Schedule(IDEA_KEY)[5] == 0x0006
  {
    hide Idea.Wide, Idea.RotatedTimes, Idea.Slot, IDEA_KEY;
    IdeaRotations();
    IdeaSlots0();
  }

  lemma IdeaKeys1()
    ensures Idea.Schedule(IDEA_KEY)[6] == 0x0007 && Idea.Schedule(IDEA_KEY)[7] == 0x0008
    ensures Idea.Schedule(IDEA_KEY)[8] == 0x0400 && Idea.Schedule(IDEA_KEY)[9] == 0x0600
    ensures Idea.Schedule(IDEA_KEY)[10] == 0x0800 && Idea.Schedule(IDEA_KEY)[11] == 0x0a00
  {
    hide Idea.Wide, Idea.RotatedTimes, Idea.Slot, IDEA_KEY;
    IdeaRotations();
    IdeaSlots0();
    IdeaSlots1();
  }

  lemma IdeaKeys2()
    ensures Idea.Schedule(IDEA_KEY)[12] == 0x0c00 && Idea.Schedule(IDEA_KEY)[13] == 0x0e00
    ensures Idea.Schedule(IDEA_KEY)[14] == 0x1000 && Idea.Schedule(IDEA_KEY)[15] == 0x0200
    ensures Idea.Schedule(IDEA_KEY)[16] == 0x0010 && Idea.Schedule(IDEA_KEY)[17] == 0x0014
  {
    hide Idea.Wide, Idea.RotatedTimes, Idea.Slot, IDEA_KEY;
    IdeaRotations();
    IdeaSlots1();
    IdeaSlots2();
  }

  lemma IdeaKeys3()
    ensures Idea.Schedule(IDEA_KEY)[18] == 0x0018 && Idea.Schedule(IDEA_KEY)[19] == 0x001c
    ensures Idea.Schedule(IDEA_KEY)[20] == 0x0020 && Idea.Schedule(IDEA_KEY)[21] == 0x0004
    ensures Idea.Schedule(IDEA_KEY)[22] == 0x0008 && Idea.Schedule(IDEA_KEY)[23] == 0x000c
  {
    hide Idea.Wide, Idea.RotatedTimes, Idea.Slot, IDEA_KEY;
    IdeaRotations();
    IdeaSlots2();
  }

  lemma IdeaKeys4()
    ensures Idea.Schedule(IDEA_KEY)[24] == 0x2800 && Idea.Schedule(IDEA_KEY)[25] == 0x3000
    ensures Idea.Schedule(IDEA_KEY)[26] == 0x3800 && Idea.Schedule(IDEA_KEY)[27] == 0x4000
    ensures Idea.Schedule(IDEA_KEY)[28] == 0x0800 && Idea.Schedule(IDEA_KEY)[29] == 0x1000
  {
    hide Idea.Wide, Idea.RotatedTimes, Idea.Slot, IDEA_KEY;
    IdeaRotations();
    IdeaSlots3();
  }

  lemma IdeaKeys5()
    ensures Idea.Schedule(IDEA_KEY)[30] == 0x1800 && Idea.Schedule(IDEA_KEY)[31] == 0x2000
    ensures Idea.Schedule(IDEA_KEY)[32] == 0x0070 && Idea.Schedule(IDEA_KEY)[33] == 0x0080
    ensures Idea.Schedule(IDEA_KEY)[34] == 0x0010 && Idea.Schedule(IDEA_KEY)[35] == 0x0020
  {
    hide Idea.Wide, Idea.RotatedTimes, Idea.Slot, IDEA_KEY;
    IdeaRotations();
    IdeaSlots3();
    IdeaSlots4();
  }

  lemma IdeaKeys6()
    ensures Idea.Schedule(IDEA_KEY)[36] == 0x0030 && Idea.Schedule(IDEA_KEY)[37] == 0x0040
    ensures Idea.Schedule(IDEA_KEY)[38] == 0x0050 && Idea.Schedule(IDEA_KEY)[39] == 0x0060
    ensures Idea.Schedule(IDEA_KEY)[40] == 0x0000 && Idea.Schedule(IDEA_KEY)[41] == 0x2000
  {
    hide Idea.Wide, Idea.RotatedTimes, Idea.Slot, IDEA_KEY;
    IdeaRotations();
    IdeaSlots4();
    IdeaSlots5();
  }

  lemma IdeaKeys7()
    ensures Idea.Schedule(IDEA_KEY)[42] == 0x4000 && Idea.Schedule(IDEA_KEY)[43] == 0x6000
    ensures Idea.Schedule(IDEA_KEY)[44] == 0x8000 && Idea.Schedule(IDEA_KEY)[45] == 0xa000
    ensures Idea.Schedule(IDEA_KEY)[46] == 0xc000 && Idea.Schedule(IDEA_KEY)[47] == 0xe001
  {
    hide Idea.Wide, Idea.RotatedTimes, Idea.Slot, IDEA_KEY;
    IdeaRotations();
    IdeaSlots5();
  }

  lemma IdeaKeys8()
    ensures Idea.Schedule(IDEA_KEY)[48] == 0x0080 && Idea.Schedule(IDEA_KEY)[49] == 0x00c0
    ensures Idea.Schedule(IDEA_KEY)[50] == 0x0100 && Idea.Schedule(IDEA_KEY)[51] == 0x0140
  {
    hide Idea.Wide, Idea.RotatedTimes, Idea.Slot, IDEA_KEY;
    IdeaRotations();
    IdeaSlots6();
  }

  lemma IdeaRounds(keys: Idea.Keys, s: Idea.State)
    requires keys == Idea.Schedule(IDEA_KEY) && s == Idea.State(0x0000, 0x0001, 0x0002, 0x0003)
    ensures Idea.Rounds(s, keys, 8) == Idea.State(0x0a24, 0x0098, 0xec6b, 0x4925)
  {
    hide IdeaRound, Idea.Schedule, IDEA_KEY, Idea.Rounds;
    NoIdeaRounds(s, keys);
    OneMoreIdeaRound(s, keys, 0);
    IdeaKeys0();
    IdeaRound0();
    OneMoreIdeaRound(s, keys, 1);
    IdeaKeys1();
    IdeaRound1();
    OneMoreIdeaRound(s, keys, 2);
    IdeaKeys2();
    IdeaRound2();
    OneMoreIdeaRound(s, keys, 3);
    IdeaKeys3();
    IdeaRound3();
    OneMoreIdeaRound(s, keys, 4);
    IdeaKeys4();
    IdeaRound4();
    OneMoreIdeaRound(s, keys, 5);
    IdeaKeys5();
    IdeaRound5();
    OneMoreIdeaRound(s, keys, 6);
    IdeaKeys6();
    IdeaRound6();
    OneMoreIdeaRound(s, keys, 7);
    IdeaKeys7();
    IdeaRound7();
  }

  lemma NoIdeaRounds(s: Idea.State, keys: Idea.Keys)
    ensures Idea.Rounds(s, keys, 0) == s
  {
  }

  lemma OneMoreIdeaRound(s: Idea.State, keys: Idea.Keys, r: nat)
    requires r < 8
    ensures var k := 6 * r;
            Idea.Rounds(s, keys, r + 1) ==
            IdeaRound(Idea.Rounds(s, keys, r), keys[k], keys[k + 1], keys[k + 2], keys[k + 3], keys[k + 4], keys[k + 5])
  {
    hide Idea.Masked, Idea.Keyed;
  }

  lemma IdeaLast()
    ensures Idea.Keyed(Idea.State(0x0a24, 0xec6b, 0x0098, 0x4925), 0x0080, 0x00c0, 0x0100, 0x0140) ==
            Idea.State(0x11fb, 0xed2b, 0x0198, 0x6de5)
  {
    hide Idea.Multiply;
    Product(0x0a24, 0x0080, 0x11fb, 2596, 128, 4603);
    Product(0x4925, 0x0140, 0x6de5, 18725, 320, 28133);
  }

  lemma IdeaBlocks()
    ensures Idea.StateOf(IDEA_PLAIN) == Idea.State(0x0000, 0x0001, 0x0002, 0x0003)
    ensures Idea.BlockOf(Idea.State(0x11fb, 0xed2b, 0x0198, 0x6de5)) == IDEA_CIPHER
  {
  }

  /** The test vector that was published with IDEA. */
  lemma IdeaVector()
    ensures Idea.EncryptedBlock(IDEA_PLAIN, Idea.Schedule(IDEA_KEY)) == IDEA_CIPHER
  {
    hide Idea.Keyed, Idea.Rounds, Idea.Schedule, Idea.StateOf, Idea.BlockOf, IDEA_KEY, IDEA_PLAIN, IDEA_CIPHER;
    IdeaBlocks();
    IdeaRounds(Idea.Schedule(IDEA_KEY), Idea.StateOf(IDEA_PLAIN));
    IdeaKeys8();
    IdeaLast();
  }
}
