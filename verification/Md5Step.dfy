/** The `F/G/H/H2/I` and `STEP` macros of src/cpp17/md5.hpp on words of any width of 32 bits or
    more, and their agreement, modulo 2^32, with the operations of RFC 1321. */
module Md5Step {
  import opened Bits
  import Rfc = Rfc1321

  datatype Macro = F | G | H | H2 | I

  /** The round, counted from 0, in which a macro is used. */
  predicate BelongsTo(m: Macro, round: nat) {
    match round
    case 0 => m == F
    case 1 => m == G
    case 2 => m == H || m == H2
    case _ => m == I
  }

  function Expand(width: nat, m: Macro, x: nat, y: nat, z: nat): nat
    requires z < Pow2(width)
  {
    match m
    case F => Xor(z, And(x, Xor(y, z)))
    case G => Xor(y, And(z, Xor(x, y)))
    case H => Xor(Xor(x, y), z)
    case H2 => Xor(x, Xor(y, z))
    case I => Xor(y, Or(x, Not(width, z)))
  }

  /** The shift-and-mask rotation of `STEP`. */
  function Rotate(width: nat, a: nat, s: nat): nat
    requires 0 < s < 32
  {
    Or(Wrap(width, a * Pow2(s)), And(a, 0xffff_ffff) / Pow2(32 - s))
  }

  function Step(width: nat, m: Macro, a: nat, b: nat, c: nat, d: nat, x: nat, t: nat, s: nat): (r: nat)
    requires d < Pow2(width) && 0 < s < 32
    ensures r < Pow2(width)
  {
    Wrap(width, Rotate(width, Wrap(width, a + Expand(width, m, b, c, d) + x + t), s) + b)
  }

  function Low(x: nat): Rfc.word { x % 0x1_0000_0000 }

  /** The low 32 bits of four registers. */
  function Reduce(a: nat, b: nat, c: nat, d: nat): Rfc.State {
    Rfc.State(Low(a), Low(b), Low(c), Low(d))
  }

  // ---------- the round functions ----------

  lemma ExpandTrunc(width: nat, m: Macro, x: nat, y: nat, z: nat)
    requires width >= 32 && z < Pow2(width)
    ensures Low(z) < Pow2(32)
    ensures Low(Expand(width, m, x, y, z)) == Expand(32, m, Low(x), Low(y), Low(z))
  {
    hide Bitwise, Pow2;
    Pow2Values();
    match m
    case F =>
      BitwiseTrunc(XorBits, z, And(x, Xor(y, z)), 32);
      BitwiseTrunc(AndBits, x, Xor(y, z), 32);
      BitwiseTrunc(XorBits, y, z, 32);
    case G =>
      BitwiseTrunc(XorBits, y, And(z, Xor(x, y)), 32);
      BitwiseTrunc(AndBits, z, Xor(x, y), 32);
      BitwiseTrunc(XorBits, x, y, 32);
    case H =>
      BitwiseTrunc(XorBits, Xor(x, y), z, 32);
      BitwiseTrunc(XorBits, x, y, 32);
    case H2 =>
      BitwiseTrunc(XorBits, x, Xor(y, z), 32);
      BitwiseTrunc(XorBits, y, z, 32);
    case I =>
      BitwiseTrunc(XorBits, y, Or(x, Not(width, z)), 32);
      BitwiseTrunc(OrBits, x, Not(width, z), 32);
      NotTrunc(z, 32, width);
  }

  lemma NotParts(k: nat, x: nat)
    requires k > 0 && x < Pow2(k)
    ensures Not(k, x) % 2 == 1 - x % 2
    ensures x / 2 < Pow2(k - 1) && Not(k, x) / 2 == Not(k - 1, x / 2)
  {
  }

  lemma SelectZero(x: nat, y: nat, z: nat)
    requires x < Pow2(0) && y < Pow2(0) && z < Pow2(0)
    ensures Xor(z, And(x, Xor(y, z))) == Or(And(x, y), And(Not(0, x), z)) == 0
  {
  }

  /** The selection that `F` computes without an and-not instruction. */
  lemma {:induction false} SelectForms(x: nat, y: nat, z: nat, k: nat)
    requires x < Pow2(k) && y < Pow2(k) && z < Pow2(k)
    ensures Xor(z, And(x, Xor(y, z))) == Or(And(x, y), And(Not(k, x), z))
  {
    hide Bitwise, Not;
    if k == 0 {
      SelectZero(x, y, z);
    } else {
      NotParts(k, x);
      SelectForms(x / 2, y / 2, z / 2, k - 1);
      hide Pow2;
      BitwiseParts(XorBits, y, z);
      BitwiseParts(AndBits, x, Xor(y, z));
      BitwiseParts(XorBits, z, And(x, Xor(y, z)));
      BitwiseParts(AndBits, x, y);
      BitwiseParts(AndBits, Not(k, x), z);
      BitwiseParts(OrBits, And(x, y), And(Not(k, x), z));
      var l, r := Xor(z, And(x, Xor(y, z))), Or(And(x, y), And(Not(k, x), z));
      assert l / 2 == r / 2 && l % 2 == r % 2;
    }
  }

  lemma {:induction false} BitwiseCommutes(op: BitOp, x: nat, y: nat)
    ensures Bitwise(op, x, y) == Bitwise(op, y, x)
    decreases x + y
  {
    if x + y > 0 {
      BitwiseCommutes(op, x / 2, y / 2);
    }
  }

  lemma {:induction false} XorAssociates(x: nat, y: nat, z: nat)
    ensures Xor(x, Xor(y, z)) == Xor(Xor(x, y), z)
    decreases x + y + z
  {
    if x + y + z > 0 {
      XorAssociates(x / 2, y / 2, z / 2);
      BitwiseParts(XorBits, y, z);
      BitwiseParts(XorBits, x, Xor(y, z));
      BitwiseParts(XorBits, x, y);
      BitwiseParts(XorBits, Xor(x, y), z);
      hide Bitwise;
    }
  }

  /** On 32-bit words, each macro is the function of section 3.4 of RFC 1321 for its round. */
  lemma ExpandIsAuxiliary(m: Macro, round: nat, x: Rfc.word, y: Rfc.word, z: Rfc.word)
    requires BelongsTo(m, round)
    ensures z < Pow2(32)
    ensures Expand(32, m, x, y, z) == Rfc.Auxiliary(round, x, y, z)
  {
    hide Bitwise, Pow2;
    Pow2Values();
    match m
    case F => SelectForms(x, y, z, 32);
    case G =>
      SelectForms(z, x, y, 32);
      BitwiseCommutes(AndBits, z, x);
      BitwiseCommutes(AndBits, Rfc.Complement(z), y);
    case H =>
    case H2 => XorAssociates(x, y, z);
    case I =>
  }

  // ---------- the rotation ----------

  lemma ShiftParts(x: nat, h: nat, r: nat, p: nat, q: nat, P: nat)
    requires r < p && q > 0 && x == h * p + r && P == p * q
    ensures P > 0
    ensures x * q % P == r * q
  {
    assert x * q == h * P + r * q by { MulRegroup(h, p, q); Distribute(h * p, r, q); }
    Distribute(p - r, r, q);
    AtLeast(p - r, q);
    ModUnique(x * q, h, r * q, P);
  }

  /** A left shift keeps, modulo 2^(n+s), exactly the low n bits. */
  lemma ShiftTrunc(x: nat, n: nat, s: nat)
    ensures x * Pow2(s) % Pow2(n + s) == x % Pow2(n) * Pow2(s)
  {
    hide Pow2;
    Pow2Add(n, s);
    ShiftParts(x, x / Pow2(n), x % Pow2(n), Pow2(n), Pow2(s), Pow2(n + s));
  }

  lemma SmallQuotient(x: nat, p: nat, q: nat)
    requires p > 0 && x < p * q
    ensures x / p < q
  {
    var h := x / p;
    if h >= q {
      Distribute(h - q, q, p);
      if h > q { AtLeast(h - q, p); }
      assert false;
    }
  }

  lemma {:induction false} Pow2Grows(m: nat, n: nat)
    requires m <= n
    ensures Pow2(m) <= Pow2(n)
    decreases n - m
  {
    if m < n {
      Pow2Grows(m + 1, n);
    }
  }

  lemma RotateTrunc(width: nat, a: nat, s: nat)
    requires width >= 32 && 0 < s < 32
    ensures Low(Rotate(width, a, s)) == Rfc.RotateLeft(Low(a), s)
  {
    hide Pow2, Bitwise;
    Pow2Values();
    var p, q := Pow2(32 - s), Pow2(s);
    AndMask(a, 32);
    var up, down := Wrap(width, a * q), Low(a) / p;
    BitwiseTrunc(OrBits, up, down, 32);
    ModMod(a * q, 32, width);
    ShiftTrunc(a, 32 - s, s);
    ModMod(a, 32 - s, 32);
    assert Low(up) == Low(a) % p * q;
    Pow2Add(32 - s, s);
    SmallQuotient(Low(a), p, q);
    Pow2Grows(s, 32);
    ModUnique(down, 0, down, 0x1_0000_0000);
    OrDisjoint(Low(a) % p, down, s);
  }

  // ---------- one step, four steps ----------

  lemma LowAdd(x: nat, y: nat)
    ensures Low(x + y) == Rfc.Add(Low(x), Low(y))
  {
    ModAdd(x, y, 0x1_0000_0000);
  }

  /** Reducing a register to its width first does not change its low 32 bits. */
  lemma LowOfRegister(x: nat, width: nat)
    requires width >= 32
    ensures Low(Wrap(width, x)) == Low(x)
  {
    hide Pow2;
    Pow2Values();
    ModMod(x, 32, width);
  }

  lemma LowOfWord(x: Rfc.word)
    ensures Low(x) == x
  {
  }

  /** On registers of any width from 32 bits up, `STEP` computes, modulo 2^32, the operation of
      step `i` of RFC 1321 on the registers modulo 2^32. */
  lemma StepIsOperation(width: nat, m: Macro, i: nat, a: nat, b: nat, c: nat, d: nat, x: Rfc.word)
    requires width >= 32 && d < Pow2(width) && BelongsTo(m, i / 16)
    ensures Low(Step(width, m, a, b, c, d, x, Rfc.T(i), Rfc.S(i)))
            == Rfc.Operation(i, Reduce(a, b, c, d), x)
    ensures Step(width, m, a, b, c, d, x, Rfc.T(i), Rfc.S(i)) < Pow2(width)
  {
    hide Bitwise, Pow2, Wrap, Low, BelongsTo, Expand, Rotate;
    hide Rfc.T, Rfc.S, Rfc.Auxiliary, Rfc.RotateLeft, Rfc.Add;
    var f := Expand(width, m, b, c, d);
    var sum := a + f + x + Rfc.T(i);
    var turned := Rotate(width, Wrap(width, sum), Rfc.S(i));
    ExpandTrunc(width, m, b, c, d);
    ExpandIsAuxiliary(m, i / 16, Low(b), Low(c), Low(d));
    LowAdd(a, f);
    LowAdd(a + f, x);
    LowAdd(a + f + x, Rfc.T(i));
    LowOfWord(x);
    LowOfWord(Rfc.T(i));
    LowOfRegister(sum, width);
    RotateTrunc(width, Wrap(width, sum), Rfc.S(i));
    LowOfRegister(b + turned, width);
    LowAdd(b, turned);
  }

  lemma SameRound(i: nat)
    requires i % 4 == 0
    ensures (i + 1) / 16 == (i + 2) / 16 == (i + 3) / 16 == i / 16
  {
  }

  /** Four consecutive `STEP` lines, which between them renew each register once, make four steps
      of RFC 1321, whose registers rotate instead. */
  lemma FourSteps(width: nat, m: Macro, m': Macro, i: nat, a: nat, b: nat, c: nat, d: nat,
                  st: Rfc.State, X: seq<Rfc.word>)
    requires width >= 32 && |X| == 16
    requires a < Pow2(width) && b < Pow2(width) && c < Pow2(width) && d < Pow2(width)
    requires i % 4 == 0 && BelongsTo(m, i / 16) && BelongsTo(m', i / 16)
    requires Rfc.Steps(i, st, X) == Reduce(a, b, c, d)
    ensures var a' := Step(width, m, a, b, c, d, X[Rfc.K(i)], Rfc.T(i), Rfc.S(i));
            a' < Pow2(width) &&
            var d' := Step(width, m', d, a', b, c, X[Rfc.K(i + 1)], Rfc.T(i + 1), Rfc.S(i + 1));
            d' < Pow2(width) &&
            var c' := Step(width, m, c, d', a', b, X[Rfc.K(i + 2)], Rfc.T(i + 2), Rfc.S(i + 2));
            c' < Pow2(width) &&
            var b' := Step(width, m', b, c', d', a', X[Rfc.K(i + 3)], Rfc.T(i + 3), Rfc.S(i + 3));
            b' < Pow2(width) && Rfc.Steps(i + 4, st, X) == Reduce(a', b', c', d')
  {
    hide Bitwise, Pow2, Wrap, Low, Rfc.T, Rfc.S, Rfc.K, Step, Rfc.Operation;
    SameRound(i);
    hide BelongsTo;
    StepIsOperation(width, m, i, a, b, c, d, X[Rfc.K(i)]);
    var a' := Step(width, m, a, b, c, d, X[Rfc.K(i)], Rfc.T(i), Rfc.S(i));
    StepIsOperation(width, m', i + 1, d, a', b, c, X[Rfc.K(i + 1)]);
    var d' := Step(width, m', d, a', b, c, X[Rfc.K(i + 1)], Rfc.T(i + 1), Rfc.S(i + 1));
    StepIsOperation(width, m, i + 2, c, d', a', b, X[Rfc.K(i + 2)]);
    var c' := Step(width, m, c, d', a', b, X[Rfc.K(i + 2)], Rfc.T(i + 2), Rfc.S(i + 2));
    StepIsOperation(width, m', i + 3, b, c', d', a', X[Rfc.K(i + 3)]);
    assert Rfc.Steps(i + 1, st, X) == Reduce(d, a', b, c);
    assert Rfc.Steps(i + 2, st, X) == Reduce(c, d', a', b);
    assert Rfc.Steps(i + 3, st, X) == Reduce(b, c', d', a');
  }
}
