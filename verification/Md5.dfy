/** The streaming MD5 of src/cpp17/md5.hpp. */
module Md5 {
  import opened Bits
  import opened Md5Step
  import Rfc = Rfc1321

  lemma LowestByte(x: nat)
    ensures x % 0x100 == Low(x) % 0x100
  {
  }

  lemma SecondByte(x: nat)
    ensures x / 0x100 % 0x100 == Low(x) / 0x100 % 0x100
  {
    var h, r := x / 0x1_0000_0000, Low(x);
    var n := r / 0x100;
    ModUnique(x, h * 0x100_0000 + n, r % 0x100, 0x100);
    ModShift(n, h * 0x1_0000, 0x100);
  }

  lemma ThirdByte(x: nat)
    ensures x / 0x1_0000 % 0x100 == Low(x) / 0x1_0000 % 0x100
  {
    var h, r := x / 0x1_0000_0000, Low(x);
    var n := r / 0x1_0000;
    ModUnique(x, h * 0x1_0000 + n, r % 0x1_0000, 0x1_0000);
    ModShift(n, h * 0x100, 0x100);
  }

  lemma FourthByte(x: nat)
    ensures x / 0x100_0000 % 0x100 == Low(x) / 0x100_0000 % 0x100
  {
    var h, r := x / 0x1_0000_0000, Low(x);
    var n := r / 0x100_0000;
    ModUnique(x, h * 0x100 + n, r % 0x100_0000, 0x100_0000);
    ModShift(n, h, 0x100);
  }

  lemma LowBytes(x: nat)
    ensures x % 0x100 == Low(x) % 0x100
    ensures x / 0x100 % 0x100 == Low(x) / 0x100 % 0x100
    ensures x / 0x1_0000 % 0x100 == Low(x) / 0x1_0000 % 0x100
    ensures x / 0x100_0000 % 0x100 == Low(x) / 0x100_0000 % 0x100
  {
    LowestByte(x);
    SecondByte(x);
    ThirdByte(x);
    FourthByte(x);
    hide Low;
  }

  /** The low 64 bits of a length in bits: the byte count above its low 29 bits makes the high word, those 29
      bits, shifted left by 3, the low one. */
  lemma BitLength(length: nat)
    ensures 8 * length % 0x1_0000_0000_0000_0000
            == 0x1_0000_0000 * (length / 0x2000_0000 % 0x1_0000_0000) + 8 * (length % 0x2000_0000)
  {
    var h, lo := length / 0x2000_0000, length % 0x2000_0000;
    var q, r := h / 0x1_0000_0000, h % 0x1_0000_0000;
    assert 8 * length == q * 0x1_0000_0000_0000_0000 + (0x1_0000_0000 * r + 8 * lo);
    ModUnique(8 * length, q, 0x1_0000_0000 * r + 8 * lo, 0x1_0000_0000_0000_0000);
  }

  /** The two counters, the low one shifted left by 3, hold the low 64 bits of the length in bits. */
  lemma LengthBytesOfCounters(width: nat, length: nat)
    requires width >= 32
    ensures var lo, hi := length % 0x2000_0000, Wrap(width, length / 0x2000_0000);
            Rfc.LengthBytes(length) == Rfc.WordBytes(Low(Wrap(width, lo * 8))) + Rfc.WordBytes(Low(hi))
  {
    hide Wrap, Rfc.WordBytes;
    var lo, r := length % 0x2000_0000, length / 0x2000_0000 % 0x1_0000_0000;
    LowOfRegister(lo * 8, width);
    LowOfRegister(length / 0x2000_0000, width);
    BitLength(length);
    ModUnique(0x1_0000_0000 * r + 8 * lo, r, 8 * lo, 0x1_0000_0000);
  }

  method Memset(dst: array<Rfc.byte>, at: nat, n: nat)
    requires at + n <= dst.Length
    modifies dst
    ensures dst[..] == old(dst[..at]) + Rfc.Zeros(n) + old(dst[at + n..])
  {
    forall i | 0 <= i < n {
      dst[at + i] := 0;
    }
  }

  function Max(x: nat, y: nat): nat { if x < y then y else x }

  method Memcpy(dst: array<Rfc.byte>, at: nat, src: array<Rfc.byte>, from: nat, n: nat)
    requires dst != src && at + n <= dst.Length && from + n <= src.Length
    modifies dst
    ensures dst[..] == old(dst[..at]) + src[from..from + n] + old(dst[at + n..])
  {
    forall i | 0 <= i < n {
      dst[at + i] := src[from + i];
    }
  }

  lemma WholeBlocks(size: nat)
    ensures size / 64 * 64 == 64 * (size / 64) && size % 64 == size - 64 * (size / 64)
    ensures size / 64 * 64 % 64 == 0 && (size / 64 == 0 <==> size < 64)
  {
  }

  lemma UsedBytes(length: nat)
    ensures And(length % 0x2000_0000, 0x3f) == Rfc.Left(length)
  {
    hide Pow2, Bitwise;
    Pow2Values();
    AndMask(length % 0x2000_0000, 6);
  }

  lemma LowBitsOfWrap(x: nat, m: nat, width: nat)
    requires m <= width
    ensures Wrap(width, x) % Pow2(m) == x % Pow2(m)
  {
    hide Pow2;
    ModMod(x, m, width);
  }

  lemma WrapAdd(width: nat, x: nat, y: nat)
    ensures Wrap(width, Wrap(width, x) + Wrap(width, y)) == Wrap(width, x + y)
  {
    hide Pow2;
    ModAdd(x, y, Pow2(width));
  }

  lemma WrapSmall(width: nat, x: nat)
    requires x < Pow2(width)
    ensures Wrap(width, x) == x
  {
    hide Pow2;
    ModUnique(x, 0, x, Pow2(width));
  }

  lemma WordsFit(width: nat)
    requires width >= 32
    ensures Pow2(width) >= 0x1_0000_0000
  {
    Pow2Values();
    Pow2Grows(32, width);
  }

  /** How `Update` moves the two counters past `size` more bytes: the mask makes the width of the sum
      irrelevant, and the comparison detects the carry out of the low 29 bits. */
  lemma CountersAdvance(width: nat, longWidth: nat, length: nat, size: nat)
    requires width >= 32 && longWidth >= 32
    ensures var lo, hi := length % 0x2000_0000, Wrap(width, length / 0x2000_0000);
            var lo' := And(Wrap(Max(width, longWidth), lo + size), 0x1fff_ffff);
            var hi' := if lo' < lo then Wrap(width, hi + 1) else hi;
            lo' == (length + size) % 0x2000_0000
            && Wrap(width, hi' + Wrap(width, size / 0x2000_0000)) == Wrap(width, (length + size) / 0x2000_0000)
  {
    hide Pow2, Bitwise, Wrap;
    Pow2Values();
    var lo, H := length % 0x2000_0000, length / 0x2000_0000;
    var sum := Wrap(Max(width, longWidth), lo + size);
    AndMask(sum, 29);
    LowBitsOfWrap(lo + size, 29, Max(width, longWidth));
    var lo' := And(sum, 0x1fff_ffff);
    assert lo' == (length + size) % 0x2000_0000;
    var carry := if lo' < lo then 1 else 0;
    assert (length + size) / 0x2000_0000 == H + carry + size / 0x2000_0000;
    WrapAdd(width, H, 1);
    WrapAdd(width, H + carry, size / 0x2000_0000);
    WordsFit(width);
    WrapSmall(width, 1);
  }

  /** Or-ing shifted bytes makes the little-endian word. */
  lemma OrOfBytes(b0: nat, b1: nat, b2: nat, b3: nat)
    requires b0 < 0x100 && b1 < 0x100 && b2 < 0x100 && b3 < 0x100
    ensures Or(Or(Or(b0, b1 * 0x100), b2 * 0x1_0000), b3 * 0x100_0000)
            == b0 + 0x100 * b1 + 0x1_0000 * b2 + 0x100_0000 * b3
  {
    hide Bitwise, Pow2;
    Pow2Values();
    var w1 := b0 + 0x100 * b1;
    var w2 := w1 + 0x1_0000 * b2;
    OrDisjoint(b1, b0, 8);
    BitwiseCommutes(OrBits, b0, b1 * 0x100);
    OrDisjoint(b2, w1, 16);
    BitwiseCommutes(OrBits, w1, b2 * 0x1_0000);
    OrDisjoint(b3, w2, 24);
    BitwiseCommutes(OrBits, w2, b3 * 0x100_0000);
  }

  lemma SumsReduce(width: nat, a: nat, b: nat, c: nat, d: nat, a': nat, b': nat, c': nat, d': nat)
    requires width >= 32
    ensures var st, st' := Reduce(a, b, c, d), Reduce(a', b', c', d');
            Reduce(Wrap(width, a + a'), Wrap(width, b + b'), Wrap(width, c + c'), Wrap(width, d + d'))
            == Rfc.State(Rfc.Add(st.a, st'.a), Rfc.Add(st.b, st'.b), Rfc.Add(st.c, st'.c), Rfc.Add(st.d, st'.d))
  {
    hide Wrap, Low, Rfc.Add;
    LowOfRegister(a + a', width);
    LowOfRegister(b + b', width);
    LowOfRegister(c + c', width);
    LowOfRegister(d + d', width);
    LowAdd(a, a');
    LowAdd(b, b');
    LowAdd(c, c');
    LowAdd(d, d');
  }

  /** `MD5_CTX`.  `width` is the number of bits of `MD5_u32plus`, of which the source asks only that
      there be 32 or more, and `longWidth` that of `unsigned long`. */
  class Context {
    const width: nat
    const longWidth: nat
    var lo: nat
    var hi: nat
    var a: nat
    var b: nat
    var c: nat
    var d: nat
    const buffer: array<Rfc.byte>
    const block: array<nat>

    /** The bytes passed to `Update` since `Init`. */
    ghost var message: seq<Rfc.byte>

    ghost predicate Allocated() {
      width >= 32 && longWidth >= 32 && buffer.Length == 64 && block.Length == 16
    }

    ghost predicate AreWords(a: nat, b: nat, c: nat, d: nat) {
      a < Pow2(width) && b < Pow2(width) && c < Pow2(width) && d < Pow2(width)
    }

    /** The digest registers modulo 2^32. */
    ghost function Registers(): Rfc.State
      reads this
    {
      Reduce(a, b, c, d)
    }

    /** Between calls: the registers hold the digest state after all the whole blocks of the message,
        the buffer holds the bytes left over, and the two counters hold the length, split after 29 bits. */
    ghost predicate Valid()
      reads this, buffer
    {
      && Allocated()
      && AreWords(a, b, c, d)
      && Registers() == Rfc.Process(Rfc.INIT, message)
      && buffer[..Rfc.Left(|message|)] == Rfc.Tail(message)
      && lo == |message| % 0x2000_0000
      && hi == Wrap(width, |message| / 0x2000_0000)
    }

    constructor (width: nat, longWidth: nat)
      requires width >= 32 && longWidth >= 32
      ensures Allocated() && fresh(buffer) && fresh(block)
      ensures this.width == width && this.longWidth == longWidth
    {
      this.width, this.longWidth := width, longWidth;
      buffer, block := new Rfc.byte[64], new nat[16];
    }

    method Init()
      requires Allocated()
      modifies this
      ensures Valid() && message == []
    {
      a, b, c, d := 0x6745_2301, 0xefcd_ab89, 0x98ba_dcfe, 0x1032_5476;
      lo, hi := 0, 0;
      message := [];
      WordsFit(width);
    }

    /** The first `n` words of the block being compressed are in the cache. */
    ghost predicate Cached(X: seq<Rfc.word>, n: nat)
      requires Allocated() && n <= 16 == |X|
      reads block
    {
      forall j :: 0 <= j < n ==> block[j] == X[j]
    }

    /** `SET`: decodes word `n` of the 64 bytes at `ptr` and caches it for the later rounds. */
    method Set(ptr: seq<Rfc.byte>, n: nat) returns (x: nat)
      requires Allocated() && n < 16 && |ptr| == 64
      requires Cached(Rfc.Words(ptr), n)
      modifies block
      ensures x == Rfc.Words(ptr)[n] && Cached(Rfc.Words(ptr), n + 1)
    {
      var b0: nat, b1: nat, b2: nat, b3: nat := ptr[4 * n], ptr[4 * n + 1], ptr[4 * n + 2], ptr[4 * n + 3];
      x := Or(Or(Or(b0, b1 * 0x100), b2 * 0x1_0000), b3 * 0x100_0000);
      OrOfBytes(b0, b1, b2, b3);
      block[n] := x;
    }

    /** The first half of round 1 of `body`, from registers `a0` to `d0`. */
    method Round1FirstHalf(ptr: seq<Rfc.byte>, a0: nat, b0: nat, c0: nat, d0: nat)
      returns (a: nat, b: nat, c: nat, d: nat)
      requires Allocated() && AreWords(a0, b0, c0, d0) && |ptr| == 64
      modifies block
      ensures AreWords(a, b, c, d)
      ensures Cached(Rfc.Words(ptr), 8)
      ensures Reduce(a, b, c, d) == Rfc.Steps(8, Reduce(a0, b0, c0, d0), Rfc.Words(ptr))
    {
      hide Pow2, Wrap, Bitwise, Low, Reduce, Step, Cached, Rfc.Words, Rfc.Steps, Rfc.T, Rfc.K, Rfc.S;
      Rfc.Rows0To7();
      a, b, c, d := a0, b0, c0, d0;
      ghost var a', b', c', d';
      ghost var X := Rfc.Words(ptr);
      ghost var st := Reduce(a, b, c, d);
      Rfc.NoSteps(st, X);
      var x;
      a', b', c', d' := a, b, c, d;
      x := Set(ptr, 0);
      a := Step(width, F, a, b, c, d, x, 0xd76a_a478, 7);
      x := Set(ptr, 1);
      d := Step(width, F, d, a, b, c, x, 0xe8c7_b756, 12);
      x := Set(ptr, 2);
      c := Step(width, F, c, d, a, b, x, 0x2420_70db, 17);
      x := Set(ptr, 3);
      b := Step(width, F, b, c, d, a, x, 0xc1bd_ceee, 22);
      FourSteps(width, F, F, 0, a', b', c', d', st, X);
      a', b', c', d' := a, b, c, d;
      x := Set(ptr, 4);
      a := Step(width, F, a, b, c, d, x, 0xf57c_0faf, 7);
      x := Set(ptr, 5);
      d := Step(width, F, d, a, b, c, x, 0x4787_c62a, 12);
      x := Set(ptr, 6);
      c := Step(width, F, c, d, a, b, x, 0xa830_4613, 17);
      x := Set(ptr, 7);
      b := Step(width, F, b, c, d, a, x, 0xfd46_9501, 22);
      FourSteps(width, F, F, 4, a', b', c', d', st, X);
    }

    /** The second half of round 1. */
    method Round1SecondHalf(ptr: seq<Rfc.byte>, ghost st: Rfc.State, a0: nat, b0: nat, c0: nat, d0: nat)
      returns (a: nat, b: nat, c: nat, d: nat)
      requires Allocated() && AreWords(a0, b0, c0, d0) && |ptr| == 64
      requires Reduce(a0, b0, c0, d0) == Rfc.Steps(8, st, Rfc.Words(ptr)) && Cached(Rfc.Words(ptr), 8)
      modifies block
      ensures AreWords(a, b, c, d)
      ensures Cached(Rfc.Words(ptr), 16)
      ensures Reduce(a, b, c, d) == Rfc.Steps(16, st, Rfc.Words(ptr))
    {
      hide Pow2, Wrap, Bitwise, Low, Reduce, Step, Cached, Rfc.Words, Rfc.Steps, Rfc.T, Rfc.K, Rfc.S;
      Rfc.Rows8To15();
      a, b, c, d := a0, b0, c0, d0;
      ghost var a', b', c', d';
      ghost var X := Rfc.Words(ptr);
      var x;
      a', b', c', d' := a, b, c, d;
      x := Set(ptr, 8);
      a := Step(width, F, a, b, c, d, x, 0x6980_98d8, 7);
      x := Set(ptr, 9);
      d := Step(width, F, d, a, b, c, x, 0x8b44_f7af, 12);
      x := Set(ptr, 10);
      c := Step(width, F, c, d, a, b, x, 0xffff_5bb1, 17);
      x := Set(ptr, 11);
      b := Step(width, F, b, c, d, a, x, 0x895c_d7be, 22);
      FourSteps(width, F, F, 8, a', b', c', d', st, X);
      a', b', c', d' := a, b, c, d;
      x := Set(ptr, 12);
      a := Step(width, F, a, b, c, d, x, 0x6b90_1122, 7);
      x := Set(ptr, 13);
      d := Step(width, F, d, a, b, c, x, 0xfd98_7193, 12);
      x := Set(ptr, 14);
      c := Step(width, F, c, d, a, b, x, 0xa679_438e, 17);
      x := Set(ptr, 15);
      b := Step(width, F, b, c, d, a, x, 0x49b4_0821, 22);
      FourSteps(width, F, F, 12, a', b', c', d', st, X);
    }

    /** Round 2 of `body`, on the words that round 1 cached. */
    method Round2(ghost st: Rfc.State, ghost X: seq<Rfc.word>, a0: nat, b0: nat, c0: nat, d0: nat)
      returns (a: nat, b: nat, c: nat, d: nat)
      requires Allocated() && AreWords(a0, b0, c0, d0)
      requires |X| == 16 && Cached(X, 16)
      requires Reduce(a0, b0, c0, d0) == Rfc.Steps(16, st, X)
      ensures AreWords(a, b, c, d)
      ensures Reduce(a, b, c, d) == Rfc.Steps(32, st, X)
    {
      hide Pow2, Wrap, Bitwise, Low, Reduce, Step, Rfc.Steps, Rfc.T, Rfc.K, Rfc.S;
      Rfc.Rows16To23();
      Rfc.Rows24To31();
      a, b, c, d := a0, b0, c0, d0;
      ghost var a', b', c', d';
      a', b', c', d' := a, b, c, d;
      a := Step(width, G, a, b, c, d, block[1], 0xf61e_2562, 5);
      d := Step(width, G, d, a, b, c, block[6], 0xc040_b340, 9);
      c := Step(width, G, c, d, a, b, block[11], 0x265e_5a51, 14);
      b := Step(width, G, b, c, d, a, block[0], 0xe9b6_c7aa, 20);
      FourSteps(width, G, G, 16, a', b', c', d', st, X);
      a', b', c', d' := a, b, c, d;
      a := Step(width, G, a, b, c, d, block[5], 0xd62f_105d, 5);
      d := Step(width, G, d, a, b, c, block[10], 0x0244_1453, 9);
      c := Step(width, G, c, d, a, b, block[15], 0xd8a1_e681, 14);
      b := Step(width, G, b, c, d, a, block[4], 0xe7d3_fbc8, 20);
      FourSteps(width, G, G, 20, a', b', c', d', st, X);
      a', b', c', d' := a, b, c, d;
      a := Step(width, G, a, b, c, d, block[9], 0x21e1_cde6, 5);
      d := Step(width, G, d, a, b, c, block[14], 0xc337_07d6, 9);
      c := Step(width, G, c, d, a, b, block[3], 0xf4d5_0d87, 14);
      b := Step(width, G, b, c, d, a, block[8], 0x455a_14ed, 20);
      FourSteps(width, G, G, 24, a', b', c', d', st, X);
      a', b', c', d' := a, b, c, d;
      a := Step(width, G, a, b, c, d, block[13], 0xa9e3_e905, 5);
      d := Step(width, G, d, a, b, c, block[2], 0xfcef_a3f8, 9);
      c := Step(width, G, c, d, a, b, block[7], 0x676f_02d9, 14);
      b := Step(width, G, b, c, d, a, block[12], 0x8d2a_4c8a, 20);
      FourSteps(width, G, G, 28, a', b', c', d', st, X);
    }

    /** Round 3 of `body`, on the words that round 1 cached. */
    method Round3(ghost st: Rfc.State, ghost X: seq<Rfc.word>, a0: nat, b0: nat, c0: nat, d0: nat)
      returns (a: nat, b: nat, c: nat, d: nat)
      requires Allocated() && AreWords(a0, b0, c0, d0)
      requires |X| == 16 && Cached(X, 16)
      requires Reduce(a0, b0, c0, d0) == Rfc.Steps(32, st, X)
      ensures AreWords(a, b, c, d)
      ensures Reduce(a, b, c, d) == Rfc.Steps(48, st, X)
    {
      hide Pow2, Wrap, Bitwise, Low, Reduce, Step, Rfc.Steps, Rfc.T, Rfc.K, Rfc.S;
      Rfc.Rows32To39();
      Rfc.Rows40To47();
      a, b, c, d := a0, b0, c0, d0;
      ghost var a', b', c', d';
      a', b', c', d' := a, b, c, d;
      a := Step(width, H, a, b, c, d, block[5], 0xfffa_3942, 4);
      d := Step(width, H2, d, a, b, c, block[8], 0x8771_f681, 11);
      c := Step(width, H, c, d, a, b, block[11], 0x6d9d_6122, 16);
      b := Step(width, H2, b, c, d, a, block[14], 0xfde5_380c, 23);
      FourSteps(width, H, H2, 32, a', b', c', d', st, X);
      a', b', c', d' := a, b, c, d;
      a := Step(width, H, a, b, c, d, block[1], 0xa4be_ea44, 4);
      d := Step(width, H2, d, a, b, c, block[4], 0x4bde_cfa9, 11);
      c := Step(width, H, c, d, a, b, block[7], 0xf6bb_4b60, 16);
      b := Step(width, H2, b, c, d, a, block[10], 0xbebf_bc70, 23);
      FourSteps(width, H, H2, 36, a', b', c', d', st, X);
      a', b', c', d' := a, b, c, d;
      a := Step(width, H, a, b, c, d, block[13], 0x289b_7ec6, 4);
      d := Step(width, H2, d, a, b, c, block[0], 0xeaa1_27fa, 11);
      c := Step(width, H, c, d, a, b, block[3], 0xd4ef_3085, 16);
      b := Step(width, H2, b, c, d, a, block[6], 0x0488_1d05, 23);
      FourSteps(width, H, H2, 40, a', b', c', d', st, X);
      a', b', c', d' := a, b, c, d;
      a := Step(width, H, a, b, c, d, block[9], 0xd9d4_d039, 4);
      d := Step(width, H2, d, a, b, c, block[12], 0xe6db_99e5, 11);
      c := Step(width, H, c, d, a, b, block[15], 0x1fa2_7cf8, 16);
      b := Step(width, H2, b, c, d, a, block[2], 0xc4ac_5665, 23);
      FourSteps(width, H, H2, 44, a', b', c', d', st, X);
    }

    /** Round 4 of `body`, on the words that round 1 cached. */
    method Round4(ghost st: Rfc.State, ghost X: seq<Rfc.word>, a0: nat, b0: nat, c0: nat, d0: nat)
      returns (a: nat, b: nat, c: nat, d: nat)
      requires Allocated() && AreWords(a0, b0, c0, d0)
      requires |X| == 16 && Cached(X, 16)
      requires Reduce(a0, b0, c0, d0) == Rfc.Steps(48, st, X)
      ensures AreWords(a, b, c, d)
      ensures Reduce(a, b, c, d) == Rfc.Steps(64, st, X)
    {
      hide Pow2, Wrap, Bitwise, Low, Reduce, Step, Rfc.Steps, Rfc.T, Rfc.K, Rfc.S;
      Rfc.Rows48To55();
      Rfc.Rows56To63();
      a, b, c, d := a0, b0, c0, d0;
      ghost var a', b', c', d';
      a', b', c', d' := a, b, c, d;
      a := Step(width, I, a, b, c, d, block[0], 0xf429_2244, 6);
      d := Step(width, I, d, a, b, c, block[7], 0x432a_ff97, 10);
      c := Step(width, I, c, d, a, b, block[14], 0xab94_23a7, 15);
      b := Step(width, I, b, c, d, a, block[5], 0xfc93_a039, 21);
      FourSteps(width, I, I, 48, a', b', c', d', st, X);
      a', b', c', d' := a, b, c, d;
      a := Step(width, I, a, b, c, d, block[12], 0x655b_59c3, 6);
      d := Step(width, I, d, a, b, c, block[3], 0x8f0c_cc92, 10);
      c := Step(width, I, c, d, a, b, block[10], 0xffef_f47d, 15);
      b := Step(width, I, b, c, d, a, block[1], 0x8584_5dd1, 21);
      FourSteps(width, I, I, 52, a', b', c', d', st, X);
      a', b', c', d' := a, b, c, d;
      a := Step(width, I, a, b, c, d, block[8], 0x6fa8_7e4f, 6);
      d := Step(width, I, d, a, b, c, block[15], 0xfe2c_e6e0, 10);
      c := Step(width, I, c, d, a, b, block[6], 0xa301_4314, 15);
      b := Step(width, I, b, c, d, a, block[13], 0x4e08_11a1, 21);
      FourSteps(width, I, I, 56, a', b', c', d', st, X);
      a', b', c', d' := a, b, c, d;
      a := Step(width, I, a, b, c, d, block[4], 0xf753_7e82, 6);
      d := Step(width, I, d, a, b, c, block[11], 0xbd3a_f235, 10);
      c := Step(width, I, c, d, a, b, block[2], 0x2ad7_d2bb, 15);
      b := Step(width, I, b, c, d, a, block[9], 0xeb86_d391, 21);
      FourSteps(width, I, I, 60, a', b', c', d', st, X);
    }

    /** `body`: compresses `size / 64` blocks starting at `start`; returns the end of what it read. */
    method Body(data: array<Rfc.byte>, start: nat, size: nat) returns (ptr: nat)
      requires Allocated() && AreWords(a, b, c, d)
      requires size > 0 && size % 64 == 0 && start + size <= data.Length
      modifies this`a, this`b, this`c, this`d, block
      ensures AreWords(a, b, c, d)
      ensures Registers() == Rfc.Process(old(Registers()), data[start..start + size])
      ensures ptr == start + size
    {
      hide Pow2, Wrap, Bitwise, Cached, Low, Rfc.Steps, Rfc.Words, Rfc.Process, Rfc.Add;
      ptr := start;
      var size := size;
      var a, b, c, d := this.a, this.b, this.c, this.d;
      ghost var end, blocks := start + size, size / 64;
      while true
        invariant blocks > 0 && size == 64 * blocks && ptr + size == end
        invariant AreWords(a, b, c, d)
        invariant Rfc.Process(Reduce(a, b, c, d), data[ptr..end])
                  == Rfc.Process(old(Registers()), data[start..end])
        decreases size
      {
        var savedA, savedB, savedC, savedD := a, b, c, d;
        ghost var before, X := Reduce(a, b, c, d), Rfc.Words(data[ptr..ptr + 64]);
        a, b, c, d := Round1FirstHalf(data[ptr..ptr + 64], a, b, c, d);
        a, b, c, d := Round1SecondHalf(data[ptr..ptr + 64], before, a, b, c, d);
        a, b, c, d := Round2(before, X, a, b, c, d);
        a, b, c, d := Round3(before, X, a, b, c, d);
        a, b, c, d := Round4(before, X, a, b, c, d);
        SumsReduce(width, a, b, c, d, savedA, savedB, savedC, savedD);
        a, b := Wrap(width, a + savedA), Wrap(width, b + savedB);
        c, d := Wrap(width, c + savedC), Wrap(width, d + savedD);
        Rfc.ProcessFirst(before, data[ptr..end]);
        assert data[ptr..end][..64] == data[ptr..ptr + 64] && data[ptr..end][64..] == data[ptr + 64..end];
        ptr := ptr + 64;
        size := size - 64;
        blocks := blocks - 1;
        if size == 0 {
          Rfc.ProcessNone(Reduce(a, b, c, d), data[ptr..end]);
          break;
        }
      }
      this.a, this.b, this.c, this.d := a, b, c, d;
    }

    method Update(data: array<Rfc.byte>, size: nat)
      requires Valid() && data != buffer && size <= data.Length && size < Pow2(longWidth)
      modifies this, buffer, block
      ensures Valid() && message == old(message) + data[..size]
    {
      hide Pow2, Bitwise, Wrap, Low, Rfc.Process, Rfc.Tail, Rfc.Left;
      ghost var m, d := message, data[..size];
      CountersAdvance(width, longWidth, |m|, size);
      UsedBytes(|m|);
      Rfc.Feed(m, d);
      Rfc.TailOfConcat(m, d);
      var savedLo := lo;
      lo := And(Wrap(Max(width, longWidth), savedLo + size), 0x1fff_ffff);
      if lo < savedLo {
        hi := Wrap(width, hi + 1);
      }
      hi := Wrap(width, hi + Wrap(width, size / 0x2000_0000));
      Absorb(data, size, And(savedLo, 0x3f), Rfc.Tail(m));
      message := m + d;
    }

    /** The rest of `MD5_Update`, once the counters are set: completes and compresses the block in the
        buffer, compresses the whole blocks of the data in place, and keeps what is left over. */
    method Absorb(data: array<Rfc.byte>, size: nat, used: nat, ghost tail: seq<Rfc.byte>)
      requires Allocated() && AreWords(a, b, c, d) && data != buffer && size <= data.Length
      requires used == |tail| < 64 && buffer[..used] == tail
      modifies this`a, this`b, this`c, this`d, buffer, block
      ensures AreWords(a, b, c, d)
      ensures Registers() == Rfc.Process(old(Registers()), tail + data[..size])
      ensures buffer[..Rfc.Left(|tail| + size)] == Rfc.Tail(tail + data[..size])
    {
      hide Pow2, Low, Reduce, Rfc.Process, Rfc.Tail, Rfc.Left;
      ghost var pending := tail + data[..size];
      var from, left := 0, size;
      if used != 0 {
        var available := 64 - used;
        if size < available {
          Memcpy(buffer, used, data, 0, size);
          Rfc.ProcessNone(Registers(), pending);
          Rfc.TailIs(pending, 0);
          return;
        }
        Memcpy(buffer, used, data, 0, available);
        from := from + available;
        left := left - available;
        Rfc.ProcessConcat(Registers(), buffer[0..64], data[from..size], 1);
        assert pending == buffer[0..64] + data[from..size];
        var _ := Body(buffer, 0, 64);
      }
      AbsorbRest(data, from, left);
      Rfc.TailIs(pending, if used != 0 then 1 else 0);
      assert used == 0 ==> pending == data[0..size];
    }

    method AbsorbRest(data: array<Rfc.byte>, start: nat, size: nat)
      requires Allocated() && AreWords(a, b, c, d) && data != buffer && start + size <= data.Length
      modifies this`a, this`b, this`c, this`d, buffer, block
      ensures AreWords(a, b, c, d)
      ensures Registers() == Rfc.Process(old(Registers()), data[start..start + size])
      ensures buffer[..Rfc.Left(size)] == Rfc.Tail(data[start..start + size])
    {
      hide Pow2, Low, Reduce, Rfc.Process, Rfc.Tail, Rfc.Left;
      var from, left := start, size;
      ghost var end, n := start + size, size / 64;
      ghost var pending := data[start..end];
      WholeBlocks(size);
      Rfc.ProcessSplit(Registers(), pending, n);
      assert pending[..64 * n] == data[start..start + 64 * n];
      assert pending[64 * n..] == data[start + 64 * n..end];
      Rfc.TailIs(pending, n);
      if left >= 64 {
        from := Body(data, from, left / 64 * 64);
        left := left % 64;
      } else {
        Rfc.ProcessNone(Registers(), pending[..0]);
      }
      assert data[from..end] == pending[64 * n..];
      Memcpy(buffer, 0, data, from, left);
      Rfc.ProcessNone(Registers(), data[from..end]);
    }

    /** `OUT`: stores the low 32 bits of a word, low-order byte first. */
    static method Out(dst: array<Rfc.byte>, at: nat, src: nat)
      requires at + 4 <= dst.Length
      modifies dst
      ensures dst[..] == old(dst[..at]) + Rfc.WordBytes(Low(src)) + old(dst[at + 4..])
    {
      dst[at] := src % 0x100;
      dst[at + 1] := src / 0x100 % 0x100;
      dst[at + 2] := src / 0x1_0000 % 0x100;
      dst[at + 3] := src / 0x100_0000 % 0x100;
      LowBytes(src);
    }

    method Final(result: array<Rfc.byte>)
      requires Valid() && result != buffer && result.Length >= 16
      modifies this, buffer, block, result
      ensures result[..16] == Rfc.Digest(old(message)) && result[16..] == old(result[16..])
      ensures lo == hi == a == b == c == d == 0
      ensures forall i :: 0 <= i < 64 ==> buffer[i] == 0
      ensures forall i :: 0 <= i < 16 ==> block[i] == 0
    {
      hide Pow2, Bitwise, Wrap, Low, Rfc.Process, Rfc.Tail, Rfc.Left, Rfc.WordBytes, Rfc.Padding;
      ghost var n, P := |message|, Rfc.Padding(|message|);
      UsedBytes(n);
      LengthBytesOfCounters(width, n);
      Rfc.PadsTail(message);
      var used := And(lo, 0x3f);
      lo := Wrap(width, lo * 8);
      FinalBlocks(used, Rfc.Tail(message), n);
      OutputRegisters(result);
      Clear();
    }

    method OutputRegisters(result: array<Rfc.byte>)
      requires result.Length >= 16
      modifies result
      ensures result[..16] == Rfc.Output(Registers()) && result[16..] == old(result[16..])
    {
      hide Rfc.WordBytes, Low;
      ghost var rest := result[16..];
      OutNext(result, 0, a, rest);
      assert result[..4] == Rfc.WordBytes(Low(a));
      OutNext(result, 4, b, rest);
      assert result[..8] == Rfc.WordBytes(Low(a)) + Rfc.WordBytes(Low(b));
      OutNext(result, 8, c, rest);
      assert result[..12] == Rfc.WordBytes(Low(a)) + Rfc.WordBytes(Low(b)) + Rfc.WordBytes(Low(c));
      OutNext(result, 12, d, rest);
    }

    /** `OUT` for the next word of a result. */
    static method OutNext(dst: array<Rfc.byte>, at: nat, src: nat, ghost rest: seq<Rfc.byte>)
      requires at + 4 <= 16 <= dst.Length && dst[16..] == rest
      modifies dst
      ensures dst[..at + 4] == old(dst[..at]) + Rfc.WordBytes(Low(src)) && dst[16..] == rest
    {
      hide Rfc.WordBytes, Low;
      ghost var front, back := dst[..at], dst[at + 4..];
      Out(dst, at, src);
      assert back[12 - at..] == rest;
      assert dst[at + 4..] == back;
      assert dst[16..] == dst[at + 4..][12 - at..];
    }

    /** The padding of `MD5_Final`: one block when the length still fits behind the one bit, two blocks
        otherwise.  `length` is the message length that the counters stand for. */
    method FinalBlocks(used: nat, ghost tail: seq<Rfc.byte>, ghost length: nat)
      requires Allocated() && AreWords(a, b, c, d)
      requires used == |tail| == Rfc.Left(length) && buffer[..used] == tail
      requires Rfc.LengthBytes(length) == Rfc.WordBytes(Low(lo)) + Rfc.WordBytes(Low(hi))
      modifies this`a, this`b, this`c, this`d, buffer, block
      ensures AreWords(a, b, c, d)
      ensures Registers() == Rfc.Process(old(Registers()), tail + Rfc.Padding(length))
    {
      hide Pow2, Bitwise, Low, Reduce, Rfc.Process, Rfc.WordBytes, Rfc.LengthBytes, Rfc.Left, Rfc.Padding;
      ghost var L := Rfc.LengthBytes(length);
      Rfc.PaddingBlocks(tail, length);
      buffer[used] := 0x80;
      var used := used + 1;
      var available := 64 - used;
      if available < 8 {
        Memset(buffer, used, available);
        ghost var first := tail + [0x80] + Rfc.Zeros(available);
        assert buffer[0..64] == first;
        Rfc.ProcessConcat(Registers(), first, Rfc.Zeros(56) + L, 1);
        var _ := Body(buffer, 0, 64);
        used := 0;
        available := 64;
        LengthBlock(used, available, [], L);
        assert [] + Rfc.Zeros(56) + L == Rfc.Zeros(56) + L;
      } else {
        LengthBlock(used, available, tail + [0x80], L);
      }
    }

    /** The last block: what is in the buffer, zeros, and the length. */
    method LengthBlock(used: nat, available: nat, ghost kept: seq<Rfc.byte>, ghost L: seq<Rfc.byte>)
      requires Allocated() && AreWords(a, b, c, d)
      requires used == |kept| <= 56 && available == 64 - used && buffer[..used] == kept
      requires L == Rfc.WordBytes(Low(lo)) + Rfc.WordBytes(Low(hi))
      modifies this`a, this`b, this`c, this`d, buffer, block
      ensures AreWords(a, b, c, d)
      ensures Registers() == Rfc.Process(old(Registers()), kept + Rfc.Zeros(56 - used) + L)
    {
      hide Pow2, Bitwise, Low, Reduce, Rfc.Process, Rfc.WordBytes;
      Memset(buffer, used, available - 8);
      ghost var front := kept + Rfc.Zeros(available - 8);
      assert buffer[..56] == front;
      Out(buffer, 56, lo);
      Out(buffer, 60, hi);
      assert buffer[0..64] == front + L;
      var _ := Body(buffer, 0, 64);
    }

    /** `memset(ctx, 0, sizeof(*ctx))` */
    method Clear()
      requires Allocated()
      modifies this, buffer, block
      ensures lo == hi == a == b == c == d == 0
      ensures forall i :: 0 <= i < 64 ==> buffer[i] == 0
      ensures forall i :: 0 <= i < 16 ==> block[i] == 0
    {
      lo, hi, a, b, c, d := 0, 0, 0, 0, 0, 0;
      forall i | 0 <= i < 64 { buffer[i] := 0; }
      forall i | 0 <= i < 16 { block[i] := 0; }
    }
  }
}
