/** `hashString` of src/string.cpp: a 64-bit multiply/xor fold over the bytes of a text,
    followed by five avalanche lines.  All arithmetic wraps modulo 2^64, hence `bv64`. */
module StringHash {

  const SEED: bv64 := 2166136261

  /** The conversion `(uint64_t)byte` of a C++ `char`, which is sign-extending on the targets
      where `char` is signed and zero-extending on the others. */
  function Widen(byte: bv8, charIsSigned: bool): bv64 {
    if charIsSigned && byte >= 0x80 then 0xFFFF_FFFF_FFFF_FF00 | byte as bv64 else byte as bv64
  }

  function TimesPrime(h: bv64): bv64 { h * 16777619 }

  function MixWord(hash: bv64, word: bv64): bv64 { TimesPrime(hash ^ word) }

  /** One turn of the loop. */
  function Mix(hash: bv64, byte: bv8, charIsSigned: bool): bv64 {
    MixWord(hash, Widen(byte, charIsSigned))
  }

  /** The state of the loop after all the bytes of `txt`, started in state `hash`. */
  function Absorb(hash: bv64, txt: seq<bv8>, charIsSigned: bool): bv64
    decreases |txt|
  {
    if txt == [] then hash else Absorb(Mix(hash, txt[0], charIsSigned), txt[1..], charIsSigned)
  }

  // The five avalanche lines, one function each.
  function AddShift13(h: bv64): bv64 { h + (h << 13) }
  function XorShift7(h: bv64): bv64 { h ^ (h >> 7) }
  function AddShift3(h: bv64): bv64 { h + (h << 3) }
  function XorShift17(h: bv64): bv64 { h ^ (h >> 17) }
  function AddShift5(h: bv64): bv64 { h + (h << 5) }

  function Finish(hash: bv64): bv64 {
    AddShift5(XorShift17(AddShift3(XorShift7(AddShift13(hash)))))
  }

  function HashOf(txt: seq<bv8>, charIsSigned: bool): bv64 {
    Finish(Absorb(SEED, txt, charIsSigned))
  }

  method HashString(txt: seq<bv8>, charIsSigned: bool) returns (hash: bv64)
    ensures hash == HashOf(txt, charIsSigned)
  {
    hide TimesPrime, Widen, AddShift13, XorShift7, AddShift3, XorShift17, AddShift5;
    hash := SEED;
    for i := 0 to |txt|
      invariant Absorb(hash, txt[i..], charIsSigned) == Absorb(SEED, txt, charIsSigned)
    {
      hash := TimesPrime(hash ^ Widen(txt[i], charIsSigned));
      assert txt[i..][1..] == txt[i + 1..];
    }
    hash := AddShift13(hash);
    hash := XorShift7(hash);
    hash := AddShift3(hash);
    hash := XorShift17(hash);
    hash := AddShift5(hash);
  }

  // ---------- running the hash backwards ----------

  /** Multiplies by the inverse of the prime modulo 2^64. */
  function OverPrime(h: bv64): bv64 { h * 9778875398352553115 }

  function Unmix(hash: bv64, byte: bv8, charIsSigned: bool): bv64 {
    OverPrime(hash) ^ Widen(byte, charIsSigned)
  }

  /** Undoes `Absorb`, reading `txt` from its end. */
  function Rewind(hash: bv64, txt: seq<bv8>, charIsSigned: bool): bv64
    decreases |txt|
  {
    if txt == [] then hash else Unmix(Rewind(hash, txt[1..], charIsSigned), txt[0], charIsSigned)
  }

  // What undoes each avalanche line: `h + (h << n)` is a product with 2^n + 1, undone by the
  // inverse of that factor modulo 2^64, and a xor-shift is undone by the xor of its repetitions,
  // in which everything shifted out has cancelled.
  function Times8193(h: bv64): bv64 { h * 8193 }
  function Over8193(h: bv64): bv64 { h * 4503049938657281 }
  function Times9(h: bv64): bv64 { h * 9 }
  function Over9(h: bv64): bv64 { h * 10248191152060862009 }
  function Times33(h: bv64): bv64 { h * 33 }
  function Over33(h: bv64): bv64 { h * 1117984489315730401 }
  function UnXorShift7(h: bv64): bv64 {
    h ^ (h >> 7) ^ (h >> 14) ^ (h >> 21) ^ (h >> 28) ^ (h >> 35) ^ (h >> 42) ^ (h >> 49) ^ (h >> 56) ^ (h >> 63)
  }
  function UnXorShift17(h: bv64): bv64 { h ^ (h >> 17) ^ (h >> 34) ^ (h >> 51) }

  function Unfinish(hash: bv64): bv64 {
    Over8193(UnXorShift7(Over9(UnXorShift17(Over33(hash)))))
  }

  lemma Shift13IsProduct(h: bv64)
    ensures AddShift13(h) == h * 8193 && AddShift13(h) == Times8193(h)
  {
  }

  lemma Product8193(h: bv64)
    ensures Over8193(h * 8193) == h && Times8193(h * 4503049938657281) == h
  {
  }

  lemma Shift13Inverse(h: bv64)
    ensures Over8193(AddShift13(h)) == h && AddShift13(Over8193(h)) == h
  {
    Shift13IsProduct(h);
    Shift13IsProduct(Over8193(h));
    Product8193(h);
    hide AddShift13;
    assert Over8193(AddShift13(h)) == h by { hide Over8193; }
    assert AddShift13(Over8193(h)) == h by { hide Times8193; }
  }

  lemma Shift3IsProduct(h: bv64)
    ensures AddShift3(h) == h * 9 && AddShift3(h) == Times9(h)
  {
  }

  lemma Product9(h: bv64)
    ensures Over9(h * 9) == h && Times9(h * 10248191152060862009) == h
  {
  }

  lemma Shift3Inverse(h: bv64)
    ensures Over9(AddShift3(h)) == h && AddShift3(Over9(h)) == h
  {
    Shift3IsProduct(h);
    Shift3IsProduct(Over9(h));
    Product9(h);
    hide AddShift3;
    assert Over9(AddShift3(h)) == h by { hide Over9; }
    assert AddShift3(Over9(h)) == h by { hide Times9; }
  }

  lemma Shift5IsProduct(h: bv64)
    ensures AddShift5(h) == h * 33 && AddShift5(h) == Times33(h)
  {
  }

  lemma Product33(h: bv64)
    ensures Over33(h * 33) == h && Times33(h * 1117984489315730401) == h
  {
  }

  lemma Shift5Inverse(h: bv64)
    ensures Over33(AddShift5(h)) == h && AddShift5(Over33(h)) == h
  {
    Shift5IsProduct(h);
    Shift5IsProduct(Over33(h));
    Product33(h);
    hide AddShift5;
    assert Over33(AddShift5(h)) == h by { hide Over33; }
    assert AddShift5(Over33(h)) == h by { hide Times33; }
  }

  lemma XorShift7Cancels(h: bv64)
    ensures UnXorShift7(h ^ (h >> 7)) == h
    ensures XorShift7(h ^ (h >> 7) ^ (h >> 14) ^ (h >> 21) ^ (h >> 28) ^ (h >> 35) ^ (h >> 42) ^ (h >> 49)
                       ^ (h >> 56) ^ (h >> 63)) == h
  {
  }

  lemma XorShift7Inverse(h: bv64)
    ensures UnXorShift7(XorShift7(h)) == h && XorShift7(UnXorShift7(h)) == h
  {
    XorShift7Cancels(h);
    assert UnXorShift7(XorShift7(h)) == h by { hide UnXorShift7; }
    assert XorShift7(UnXorShift7(h)) == h by { hide XorShift7; }
  }

  lemma XorShift17Cancels(h: bv64)
    ensures UnXorShift17(h ^ (h >> 17)) == h
    ensures XorShift17(h ^ (h >> 17) ^ (h >> 34) ^ (h >> 51)) == h
  {
  }

  lemma XorShift17Inverse(h: bv64)
    ensures UnXorShift17(XorShift17(h)) == h && XorShift17(UnXorShift17(h)) == h
  {
    XorShift17Cancels(h);
    assert UnXorShift17(XorShift17(h)) == h by { hide UnXorShift17; }
    assert XorShift17(UnXorShift17(h)) == h by { hide XorShift17; }
  }

  /** The five avalanche lines are a bijection of the 64-bit words. */
  lemma FinishIsBijective(hash: bv64)
    ensures Unfinish(Finish(hash)) == hash
    ensures Finish(Unfinish(hash)) == hash
  {
    hide AddShift13, XorShift7, AddShift3, XorShift17, AddShift5;
    hide Over8193, UnXorShift7, Over9, UnXorShift17, Over33;
    var h2 := XorShift7(AddShift13(hash));
    var h3 := AddShift3(h2);
    Shift13Inverse(hash);
    XorShift7Inverse(AddShift13(hash));
    Shift3Inverse(h2);
    XorShift17Inverse(h3);
    Shift5Inverse(XorShift17(h3));
    var g3 := UnXorShift17(Over33(hash));
    var g2 := Over9(g3);
    Shift5Inverse(hash);
    XorShift17Inverse(Over33(hash));
    Shift3Inverse(g3);
    XorShift7Inverse(g2);
    Shift13Inverse(UnXorShift7(g2));
  }

  lemma PrimeInverse(h: bv64)
    ensures OverPrime(h * 16777619) == h
  {
  }

  lemma TimesPrimeUndone(h: bv64)
    ensures OverPrime(TimesPrime(h)) == h
  {
    PrimeInverse(h);
    hide OverPrime;
  }

  /** A turn of the loop can be undone by whoever knows the byte. */
  lemma MixUndone(hash: bv64, byte: bv8, charIsSigned: bool)
    ensures Unmix(Mix(hash, byte, charIsSigned), byte, charIsSigned) == hash
  {
    hide Widen, OverPrime, TimesPrime;
    TimesPrimeUndone(hash ^ Widen(byte, charIsSigned));
  }

  lemma XorCancels(h: bv64, x: bv64, y: bv64)
    ensures h ^ x == h ^ y <==> x == y
  {
  }

  lemma MixTellsWordsApart(hash: bv64, x: bv64, y: bv64)
    ensures MixWord(hash, x) == MixWord(hash, y) <==> x == y
  {
    hide OverPrime, TimesPrime;
    TimesPrimeUndone(hash ^ x);
    TimesPrimeUndone(hash ^ y);
    XorCancels(hash, x, y);
  }

  lemma WidenIsInjective(a: bv8, b: bv8, charIsSigned: bool)
    ensures Widen(a, charIsSigned) == Widen(b, charIsSigned) <==> a == b
  {
  }

  /** From one state, a turn of the loop tells any two bytes apart. */
  lemma MixTellsBytesApart(hash: bv64, a: bv8, b: bv8, charIsSigned: bool)
    ensures Mix(hash, a, charIsSigned) == Mix(hash, b, charIsSigned) <==> a == b
  {
    hide Widen, MixWord;
    MixTellsWordsApart(hash, Widen(a, charIsSigned), Widen(b, charIsSigned));
    WidenIsInjective(a, b, charIsSigned);
  }

  lemma {:induction false} RewindUndoesAbsorb(hash: bv64, txt: seq<bv8>, charIsSigned: bool)
    ensures Rewind(Absorb(hash, txt, charIsSigned), txt, charIsSigned) == hash
    decreases |txt|
  {
    if txt != [] {
      RewindUndoesAbsorb(Mix(hash, txt[0], charIsSigned), txt[1..], charIsSigned);
      MixUndone(hash, txt[0], charIsSigned);
    }
  }

  lemma {:induction false} AbsorbConcat(hash: bv64, x: seq<bv8>, y: seq<bv8>, charIsSigned: bool)
    ensures Absorb(hash, x + y, charIsSigned) == Absorb(Absorb(hash, x, charIsSigned), y, charIsSigned)
    decreases |x|
  {
    if x == [] {
      assert x + y == y;
    } else {
      assert (x + y)[1..] == x[1..] + y;
      AbsorbConcat(Mix(hash, x[0], charIsSigned), x[1..], y, charIsSigned);
    }
  }

  /** The hash of a text and its last bytes determine the state the loop had before them. */
  lemma HashRewinds(x: seq<bv8>, y: seq<bv8>, charIsSigned: bool)
    ensures Rewind(Unfinish(HashOf(x + y, charIsSigned)), y, charIsSigned) == Absorb(SEED, x, charIsSigned)
  {
    AbsorbConcat(SEED, x, y, charIsSigned);
    FinishIsBijective(Absorb(SEED, x + y, charIsSigned));
    RewindUndoesAbsorb(Absorb(SEED, x, charIsSigned), y, charIsSigned);
  }

  /** A common suffix neither makes nor hides a collision. */
  lemma CommonSuffix(x: seq<bv8>, x': seq<bv8>, y: seq<bv8>, charIsSigned: bool)
    ensures HashOf(x + y, charIsSigned) == HashOf(x' + y, charIsSigned)
            <==> HashOf(x, charIsSigned) == HashOf(x', charIsSigned)
  {
    hide Absorb, Finish, Unfinish, Rewind;
    HashRewinds(x, y, charIsSigned);
    HashRewinds(x', y, charIsSigned);
    HashRewinds(x, [], charIsSigned);
    HashRewinds(x', [], charIsSigned);
    assert x + [] == x && x' + [] == x';
    AbsorbConcat(SEED, x, y, charIsSigned);
    AbsorbConcat(SEED, x', y, charIsSigned);
  }

  /** Changing one byte of a text, wherever it stands, always changes the hash. */
  lemma OneByteChange(x: seq<bv8>, a: bv8, b: bv8, y: seq<bv8>, charIsSigned: bool)
    ensures HashOf(x + [a] + y, charIsSigned) == HashOf(x + [b] + y, charIsSigned) <==> a == b
  {
    hide Mix, Unmix, Finish, Unfinish;
    var h := Absorb(SEED, x, charIsSigned);
    CommonSuffix(x + [a], x + [b], y, charIsSigned);
    AbsorbConcat(SEED, x, [a], charIsSigned);
    AbsorbConcat(SEED, x, [b], charIsSigned);
    assert Absorb(h, [a], charIsSigned) == Mix(h, a, charIsSigned);
    assert Absorb(h, [b], charIsSigned) == Mix(h, b, charIsSigned);
    MixTellsBytesApart(h, a, b, charIsSigned);
    FinishIsBijective(Mix(h, a, charIsSigned));
    FinishIsBijective(Mix(h, b, charIsSigned));
  }

  /** The hash of a single byte, written out. */
  lemma OneByteHash(byte: bv8)
    ensures HashOf([byte], false) == Finish((2166136261 ^ (byte as bv64)) * 16777619)
    ensures HashOf([byte], true)
            == Finish((2166136261 ^ (if byte < 0x80 then byte as bv64 else 0xFFFF_FFFF_FFFF_FF00 | byte as bv64))
                      * 16777619)
  {
    hide Finish;
    assert [byte][1..] == [];
    assert Absorb(SEED, [byte], false) == Mix(SEED, byte, false);
    assert Absorb(SEED, [byte], true) == Mix(SEED, byte, true);
  }

  /** Hashes of the empty text, of "a", of "ab", and of the byte 128 for both kinds of `char`. */
  lemma KnownHashes()
    ensures HashOf([], true) == HashOf([], false) == 5230414047343518
    ensures HashOf([0x61], true) == HashOf([0x61], false) == 4237859864282064591
    ensures HashOf([0x61, 0x62], true) == 3845004646520640435
    ensures HashOf([0x80], true) == 6971362683259471607 && HashOf([0x80], false) == 4242109139923186806
  {
    assert Absorb(SEED, [], true) == Absorb(SEED, [], false) == SEED;
    OneByteHash(0x61);
    OneByteHash(0x80);
    AbsorbConcat(SEED, [0x61], [0x62], true);
    assert [0x61] + [0x62] == [0x61 as bv8, 0x62];
    assert Absorb(SEED, [0x61], true) == Mix(SEED, 0x61, true);
    assert Absorb(SEED, [0x61, 0x62], true) == Mix(Mix(SEED, 0x61, true), 0x62, true);
  }
}
