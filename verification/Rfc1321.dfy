/** The MD5 message digest as RFC 1321 defines it (sections 2 and 3.1 to 3.5), for messages that
    are whole bytes.  This is the reference the streaming implementation is proved against. */
module Rfc1321 {
  import opened Bits

  type byte = x: nat | x < 0x100
  type word = x: nat | x < 0x1_0000_0000

  /** The four-word buffer of section 3.3. */
  datatype State = State(a: word, b: word, c: word, d: word)

  const INIT := State(0x6745_2301, 0xefcd_ab89, 0x98ba_dcfe, 0x1032_5476)

  function Add(x: word, y: word): word { (x + y) % 0x1_0000_0000 }

  /** The part of `x` below `p` moves up by the factor `q`, the part above it comes down. */
  function SwapParts(x: nat, p: nat, q: nat): nat
    requires p > 0
  {
    x % p * q + x / p
  }

  lemma RotationBound(h: nat, r: nat, p: nat, q: nat)
    requires r < p && h * p + r < p * q
    ensures r * q + h < p * q
  {
    if h >= q {
      Distribute(h - q, q, p);
      AtLeast(h - q + 1, p);
      Distribute(h - q, 1, p);
      assert false;
    }
    Distribute(p - 1 - r, r + 1, q);
    Distribute(r, 1, q);
    if p - 1 - r > 0 { AtLeast(p - 1 - r, q); }
  }

  lemma RotationFits(x: word, s: nat)
    requires 0 < s < 32
    ensures SwapParts(x, Pow2(32 - s), Pow2(s)) < 0x1_0000_0000
  {
    hide Pow2;
    Pow2Values();
    Pow2Add(32 - s, s);
    RotationBound(x / Pow2(32 - s), x % Pow2(32 - s), Pow2(32 - s), Pow2(s));
  }

  /** `X <<< s` of section 2: the bits shifted out on the left come back on the right. */
  function RotateLeft(x: word, s: nat): word
    requires 0 < s < 32
  {
    RotationFits(x, s);
    SwapParts(x, Pow2(32 - s), Pow2(s))
  }

  function Complement(x: word): word { 0xffff_ffff - x }

  // The auxiliary functions of section 3.4.
  function F(x: word, y: word, z: word): nat { Or(And(x, y), And(Complement(x), z)) }
  function G(x: word, y: word, z: word): nat { Or(And(x, z), And(y, Complement(z))) }
  function H(x: word, y: word, z: word): nat { Xor(Xor(x, y), z) }
  function I(x: word, y: word, z: word): nat { Xor(y, Or(x, Complement(z))) }

  lemma AuxiliaryIsWord(x: word, y: word, z: word)
    ensures F(x, y, z) < 0x1_0000_0000 && G(x, y, z) < 0x1_0000_0000
    ensures H(x, y, z) < 0x1_0000_0000 && I(x, y, z) < 0x1_0000_0000
  {
    hide Bitwise, Pow2;
    Pow2Values();
    BitwiseBound(AndBits, x, y, 32);
    BitwiseBound(AndBits, Complement(x), z, 32);
    BitwiseBound(OrBits, And(x, y), And(Complement(x), z), 32);
    BitwiseBound(AndBits, x, z, 32);
    BitwiseBound(AndBits, y, Complement(z), 32);
    BitwiseBound(OrBits, And(x, z), And(y, Complement(z)), 32);
    BitwiseBound(XorBits, x, y, 32);
    BitwiseBound(XorBits, Xor(x, y), z, 32);
    BitwiseBound(OrBits, x, Complement(z), 32);
    BitwiseBound(XorBits, y, Or(x, Complement(z)), 32);
  }

  /** The function of round `round`, counted from 0. */
  function Auxiliary(round: nat, x: word, y: word, z: word): word
  {
    AuxiliaryIsWord(x, y, z);
    match round case 0 => F(x, y, z) case 1 => G(x, y, z) case 2 => H(x, y, z) case _ => I(x, y, z)
  }

  /** The word of the block that step `i` reads. */
  function K(i: nat): (k: nat)
    ensures k < 16
  {
    match i / 16
    case 0 => i
    case 1 => (5 * i + 1) % 16
    case 2 => (3 * i + 5) % 16
    case _ => 7 * i % 16
  }

  /** The distance that step `i` rotates by. */
  function S(i: nat): (s: nat)
    ensures 0 < s < 32
  {
    match (i / 16, i % 4)
    case (0, 0) => 7 case (0, 1) => 12 case (0, 2) => 17 case (0, _) => 22
    case (1, 0) => 5 case (1, 1) => 9 case (1, 2) => 14 case (1, _) => 20
    case (2, 0) => 4 case (2, 1) => 11 case (2, 2) => 16 case (2, _) => 23
    case (_, 0) => 6 case (_, 1) => 10 case (_, 2) => 15 case (_, _) => 21
  }

  // The table that section 3.4 refers to, counted from 0, one function for each round.
  function T1(i: nat): word {
    match i
    case 0 => 0xd76a_a478 case 1 => 0xe8c7_b756 case 2 => 0x2420_70db case 3 => 0xc1bd_ceee
    case 4 => 0xf57c_0faf case 5 => 0x4787_c62a case 6 => 0xa830_4613 case 7 => 0xfd46_9501
    case 8 => 0x6980_98d8 case 9 => 0x8b44_f7af case 10 => 0xffff_5bb1 case 11 => 0x895c_d7be
    case 12 => 0x6b90_1122 case 13 => 0xfd98_7193 case 14 => 0xa679_438e case _ => 0x49b4_0821
  }

  function T2(i: nat): word {
    match i
    case 16 => 0xf61e_2562 case 17 => 0xc040_b340 case 18 => 0x265e_5a51 case 19 => 0xe9b6_c7aa
    case 20 => 0xd62f_105d case 21 => 0x0244_1453 case 22 => 0xd8a1_e681 case 23 => 0xe7d3_fbc8
    case 24 => 0x21e1_cde6 case 25 => 0xc337_07d6 case 26 => 0xf4d5_0d87 case 27 => 0x455a_14ed
    case 28 => 0xa9e3_e905 case 29 => 0xfcef_a3f8 case 30 => 0x676f_02d9 case _ => 0x8d2a_4c8a
  }

  function T3(i: nat): word {
    match i
    case 32 => 0xfffa_3942 case 33 => 0x8771_f681 case 34 => 0x6d9d_6122 case 35 => 0xfde5_380c
    case 36 => 0xa4be_ea44 case 37 => 0x4bde_cfa9 case 38 => 0xf6bb_4b60 case 39 => 0xbebf_bc70
    case 40 => 0x289b_7ec6 case 41 => 0xeaa1_27fa case 42 => 0xd4ef_3085 case 43 => 0x0488_1d05
    case 44 => 0xd9d4_d039 case 45 => 0xe6db_99e5 case 46 => 0x1fa2_7cf8 case _ => 0xc4ac_5665
  }

  function T4(i: nat): word {
    match i
    case 48 => 0xf429_2244 case 49 => 0x432a_ff97 case 50 => 0xab94_23a7 case 51 => 0xfc93_a039
    case 52 => 0x655b_59c3 case 53 => 0x8f0c_cc92 case 54 => 0xffef_f47d case 55 => 0x8584_5dd1
    case 56 => 0x6fa8_7e4f case 57 => 0xfe2c_e6e0 case 58 => 0xa301_4314 case 59 => 0x4e08_11a1
    case 60 => 0xf753_7e82 case 61 => 0xbd3a_f235 case 62 => 0x2ad7_d2bb case _ => 0xeb86_d391
  }

  function T(i: nat): word {
    match i / 16 case 0 => T1(i) case 1 => T2(i) case 2 => T3(i) case _ => T4(i)
  }

  // The table, eight rows at a time.
  lemma Rows0To7()
    ensures K(0) == 0 && S(0) == 7 && T(0) == 0xd76a_a478
    ensures K(1) == 1 && S(1) == 12 && T(1) == 0xe8c7_b756
    ensures K(2) == 2 && S(2) == 17 && T(2) == 0x2420_70db
    ensures K(3) == 3 && S(3) == 22 && T(3) == 0xc1bd_ceee
    ensures K(4) == 4 && S(4) == 7 && T(4) == 0xf57c_0faf
    ensures K(5) == 5 && S(5) == 12 && T(5) == 0x4787_c62a
    ensures K(6) == 6 && S(6) == 17 && T(6) == 0xa830_4613
    ensures K(7) == 7 && S(7) == 22 && T(7) == 0xfd46_9501
  {
  }

  lemma Rows8To15()
    ensures K(8) == 8 && S(8) == 7 && T(8) == 0x6980_98d8
    ensures K(9) == 9 && S(9) == 12 && T(9) == 0x8b44_f7af
    ensures K(10) == 10 && S(10) == 17 && T(10) == 0xffff_5bb1
    ensures K(11) == 11 && S(11) == 22 && T(11) == 0x895c_d7be
    ensures K(12) == 12 && S(12) == 7 && T(12) == 0x6b90_1122
    ensures K(13) == 13 && S(13) == 12 && T(13) == 0xfd98_7193
    ensures K(14) == 14 && S(14) == 17 && T(14) == 0xa679_438e
    ensures K(15) == 15 && S(15) == 22 && T(15) == 0x49b4_0821
  {
  }

  lemma Rows16To23()
    ensures K(16) == 1 && S(16) == 5 && T(16) == 0xf61e_2562
    ensures K(17) == 6 && S(17) == 9 && T(17) == 0xc040_b340
    ensures K(18) == 11 && S(18) == 14 && T(18) == 0x265e_5a51
    ensures K(19) == 0 && S(19) == 20 && T(19) == 0xe9b6_c7aa
    ensures K(20) == 5 && S(20) == 5 && T(20) == 0xd62f_105d
    ensures K(21) == 10 && S(21) == 9 && T(21) == 0x0244_1453
    ensures K(22) == 15 && S(22) == 14 && T(22) == 0xd8a1_e681
    ensures K(23) == 4 && S(23) == 20 && T(23) == 0xe7d3_fbc8
  {
  }

  lemma Rows24To31()
    ensures K(24) == 9 && S(24) == 5 && T(24) == 0x21e1_cde6
    ensures K(25) == 14 && S(25) == 9 && T(25) == 0xc337_07d6
    ensures K(26) == 3 && S(26) == 14 && T(26) == 0xf4d5_0d87
    ensures K(27) == 8 && S(27) == 20 && T(27) == 0x455a_14ed
    ensures K(28) == 13 && S(28) == 5 && T(28) == 0xa9e3_e905
    ensures K(29) == 2 && S(29) == 9 && T(29) == 0xfcef_a3f8
    ensures K(30) == 7 && S(30) == 14 && T(30) == 0x676f_02d9
    ensures K(31) == 12 && S(31) == 20 && T(31) == 0x8d2a_4c8a
  {
  }

  lemma Rows32To39()
    ensures K(32) == 5 && S(32) == 4 && T(32) == 0xfffa_3942
    ensures K(33) == 8 && S(33) == 11 && T(33) == 0x8771_f681
    ensures K(34) == 11 && S(34) == 16 && T(34) == 0x6d9d_6122
    ensures K(35) == 14 && S(35) == 23 && T(35) == 0xfde5_380c
    ensures K(36) == 1 && S(36) == 4 && T(36) == 0xa4be_ea44
    ensures K(37) == 4 && S(37) == 11 && T(37) == 0x4bde_cfa9
    ensures K(38) == 7 && S(38) == 16 && T(38) == 0xf6bb_4b60
    ensures K(39) == 10 && S(39) == 23 && T(39) == 0xbebf_bc70
  {
  }

  lemma Rows40To47()
    ensures K(40) == 13 && S(40) == 4 && T(40) == 0x289b_7ec6
    ensures K(41) == 0 && S(41) == 11 && T(41) == 0xeaa1_27fa
    ensures K(42) == 3 && S(42) == 16 && T(42) == 0xd4ef_3085
    ensures K(43) == 6 && S(43) == 23 && T(43) == 0x0488_1d05
    ensures K(44) == 9 && S(44) == 4 && T(44) == 0xd9d4_d039
    ensures K(45) == 12 && S(45) == 11 && T(45) == 0xe6db_99e5
    ensures K(46) == 15 && S(46) == 16 && T(46) == 0x1fa2_7cf8
    ensures K(47) == 2 && S(47) == 23 && T(47) == 0xc4ac_5665
  {
  }

  lemma Rows48To55()
    ensures K(48) == 0 && S(48) == 6 && T(48) == 0xf429_2244
    ensures K(49) == 7 && S(49) == 10 && T(49) == 0x432a_ff97
    ensures K(50) == 14 && S(50) == 15 && T(50) == 0xab94_23a7
    ensures K(51) == 5 && S(51) == 21 && T(51) == 0xfc93_a039
    ensures K(52) == 12 && S(52) == 6 && T(52) == 0x655b_59c3
    ensures K(53) == 3 && S(53) == 10 && T(53) == 0x8f0c_cc92
    ensures K(54) == 10 && S(54) == 15 && T(54) == 0xffef_f47d
    ensures K(55) == 1 && S(55) == 21 && T(55) == 0x8584_5dd1
  {
  }

  lemma Rows56To63()
    ensures K(56) == 8 && S(56) == 6 && T(56) == 0x6fa8_7e4f
    ensures K(57) == 15 && S(57) == 10 && T(57) == 0xfe2c_e6e0
    ensures K(58) == 6 && S(58) == 15 && T(58) == 0xa301_4314
    ensures K(59) == 13 && S(59) == 21 && T(59) == 0x4e08_11a1
    ensures K(60) == 4 && S(60) == 6 && T(60) == 0xf753_7e82
    ensures K(61) == 11 && S(61) == 10 && T(61) == 0xbd3a_f235
    ensures K(62) == 2 && S(62) == 15 && T(62) == 0x2ad7_d2bb
    ensures K(63) == 9 && S(63) == 21 && T(63) == 0xeb86_d391
  {
  }

  /** `b + ((a + f(b,c,d) + X[k] + T[i]) <<< s)`, the new value that step `i` computes. */
  function Operation(i: nat, st: State, x: word): word {
    var sum := Add(Add(Add(st.a, Auxiliary(i / 16, st.b, st.c, st.d)), x), T(i));
    Add(st.b, RotateLeft(sum, S(i)))
  }

  /** The first `n` steps of section 3.4 on the block `X`; after each one the registers rotate. */
  function Steps(n: nat, st: State, X: seq<word>): State
    requires |X| == 16
  {
    if n == 0 then st
    else
      var r := Steps(n - 1, st, X);
      State(r.d, Operation(n - 1, r, X[K(n - 1)]), r.b, r.c)
  }

  lemma NoSteps(st: State, X: seq<word>)
    requires |X| == 16
    ensures Steps(0, st, X) == st
  {
  }

  function Compress(st: State, X: seq<word>): State
    requires |X| == 16
  {
    var r := Steps(4 * |X|, st, X);
    State(Add(r.a, st.a), Add(r.b, st.b), Add(r.c, st.c), Add(r.d, st.d))
  }

  /** The `n`-th word of a block, low-order byte first (section 2). */
  function WordAt(block: seq<byte>, n: nat): word
    requires 4 * n + 4 <= |block|
  {
    var b0: nat, b1: nat, b2: nat, b3: nat := block[4 * n], block[4 * n + 1], block[4 * n + 2], block[4 * n + 3];
    b0 + 0x100 * b1 + 0x1_0000 * b2 + 0x100_0000 * b3
  }

  function Words(block: seq<byte>): (X: seq<word>)
    requires |block| == 64
    ensures |X| == 16 && forall n :: 0 <= n < 16 ==> X[n] == WordAt(block, n)
  {
    seq(16, n requires 0 <= n < 16 => WordAt(block, n))
  }

  /** Section 3.4 over the whole blocks at the front of `msg`. */
  function Process(st: State, msg: seq<byte>): State
    decreases |msg|
  {
    if |msg| < 64 then st else Process(Compress(st, Words(msg[..64])), msg[64..])
  }

  function WordBytes(w: nat): (s: seq<byte>)
    ensures |s| == 4
  {
    [w % 0x100, w / 0x100 % 0x100, w / 0x1_0000 % 0x100, w / 0x100_0000 % 0x100]
  }

  function Zeros(n: nat): (s: seq<byte>)
    ensures |s| == n && forall i :: 0 <= i < n ==> s[i] == 0
  {
    seq(n, _ => 0)
  }

  /** Section 3.2: the low 64 bits of the length in bits, as two words, the low-order one first. */
  function LengthBytes(length: nat): (s: seq<byte>)
    ensures |s| == 8
  {
    var bits := 8 * length % 0x1_0000_0000_0000_0000;
    WordBytes(bits % 0x1_0000_0000) + WordBytes(bits / 0x1_0000_0000)
  }

  function PaddingZeros(length: nat): nat {
    if length % 64 < 56 then 55 - length % 64 else 119 - length % 64
  }

  /** Sections 3.1 and 3.2: a one bit, the fewest zero bits that leave room for the length in the
      last block, and the length. */
  function Padding(length: nat): seq<byte> {
    [0x80] + Zeros(PaddingZeros(length)) + LengthBytes(length)
  }

  function Pad(msg: seq<byte>): seq<byte> {
    msg + Padding(|msg|)
  }

  /** The zeros chosen are the only number below 64 of them that completes a block. */
  lemma PaddingIsShortest(length: nat, zeros: nat)
    ensures (length + 1 + zeros + 8) % 64 == 0
            <==> zeros >= PaddingZeros(length) && (zeros - PaddingZeros(length)) % 64 == 0
  {
    var q := length / 64;
    assert length == 64 * q + length % 64;
  }

  /** Section 3.5. */
  function Output(st: State): (s: seq<byte>)
    ensures |s| == 16
  {
    WordBytes(st.a) + WordBytes(st.b) + WordBytes(st.c) + WordBytes(st.d)
  }

  function Digest(msg: seq<byte>): (s: seq<byte>)
    ensures |s| == 16
  {
    Output(Process(INIT, Pad(msg)))
  }

  lemma {:induction false} ProcessConcat(st: State, x: seq<byte>, y: seq<byte>, blocks: nat)
    requires |x| == 64 * blocks
    ensures Process(st, x + y) == Process(Process(st, x), y)
    decreases blocks
  {
    if blocks == 0 {
      assert x + y == y;
    } else {
      assert (x + y)[..64] == x[..64] && (x + y)[64..] == x[64..] + y;
      ProcessConcat(Compress(st, Words(x[..64])), x[64..], y, blocks - 1);
    }
  }

  lemma ProcessSplit(st: State, msg: seq<byte>, blocks: nat)
    requires 64 * blocks <= |msg|
    ensures Process(st, msg) == Process(Process(st, msg[..64 * blocks]), msg[64 * blocks..])
  {
    ProcessConcat(st, msg[..64 * blocks], msg[64 * blocks..], blocks);
    assert msg == msg[..64 * blocks] + msg[64 * blocks..];
  }

  lemma ProcessFirst(st: State, msg: seq<byte>)
    requires |msg| >= 64
    ensures Process(st, msg) == Process(Compress(st, Words(msg[..64])), msg[64..])
  {
  }

  lemma ProcessNone(st: State, msg: seq<byte>)
    requires |msg| < 64
    ensures Process(st, msg) == st
  {
  }

  /** How many bytes of a message of this length follow its last whole block, and which. */
  function Left(length: nat): (n: nat)
    ensures n < 64
  {
    length % 64
  }

  function Tail(msg: seq<byte>): (t: seq<byte>)
    ensures |t| == Left(|msg|)
  {
    msg[|msg| - Left(|msg|)..]
  }

  lemma TailIs(msg: seq<byte>, blocks: nat)
    requires 64 * blocks <= |msg|
    ensures Left(|msg|) == Left(|msg| - 64 * blocks)
    ensures Tail(msg) == Tail(msg[64 * blocks..])
    ensures |msg| - 64 * blocks < 64 ==> Left(|msg|) == |msg| - 64 * blocks && Tail(msg) == msg[64 * blocks..]
  {
    var r := |msg| - 64 * blocks;
    assert |msg| == 64 * (blocks + r / 64) + r % 64;
  }

  /** Only the bytes after the last whole block still matter when more of the message comes. */
  lemma Feed(m: seq<byte>, d: seq<byte>)
    ensures Process(INIT, m + d) == Process(Process(INIT, m), Tail(m) + d)
  {
    hide Process;
    var n := |m| / 64;
    var whole, tail := m[..64 * n], m[64 * n..];
    assert Tail(m) == tail && m == whole + tail && m + d == whole + (tail + d);
    ProcessConcat(INIT, whole, tail, n);
    ProcessConcat(INIT, whole, tail + d, n);
    ProcessNone(Process(INIT, whole), tail);
  }

  lemma TailOfConcat(m: seq<byte>, d: seq<byte>)
    ensures Tail(m + d) == Tail(Tail(m) + d)
    ensures Left(|m| + |d|) == Left(Left(|m|) + |d|)
  {
    var n := |m| / 64;
    TailIs(m + d, n);
    assert (m + d)[64 * n..] == Tail(m) + d;
  }

  /** The digest state after the padded message, from the state after the message alone. */
  lemma PadsTail(m: seq<byte>)
    ensures Digest(m) == Output(Process(Process(INIT, m), Tail(m) + Padding(|m|)))
  {
    Feed(m, Padding(|m|));
  }

  /** The padded tail: one block if it leaves room for the length, two otherwise. */
  lemma PaddingBlocks(tail: seq<byte>, length: nat)
    requires |tail| == Left(length)
    ensures |tail| < 56 ==> tail + Padding(length) == tail + [0x80] + Zeros(55 - |tail|) + LengthBytes(length)
    ensures |tail| >= 56 ==>
              tail + Padding(length) == (tail + [0x80] + Zeros(63 - |tail|)) + (Zeros(56) + LengthBytes(length))
  {
    if |tail| >= 56 {
      assert Zeros(119 - |tail|) == Zeros(63 - |tail|) + Zeros(56);
    }
  }
}
