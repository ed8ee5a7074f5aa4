/** Unsigned machine words of any width as natural numbers, with the bitwise operations of C. */
module Bits {

  function Pow2(n: nat): (p: nat)
    ensures p > 0
  {
    if n == 0 then 1 else 2 * Pow2(n - 1)
  }

  /** What a `width`-bit unsigned word holds after the value `x` is stored in it. */
  function Wrap(width: nat, x: nat): (w: nat)
    ensures w < Pow2(width)
  {
    x % Pow2(width)
  }

  datatype BitOp = AndBits | OrBits | XorBits

  function Bit(op: BitOp, x: nat, y: nat): nat
    requires x < 2 && y < 2
  {
    match op
    case AndBits => if x == 1 && y == 1 then 1 else 0
    case OrBits => if x == 1 || y == 1 then 1 else 0
    case XorBits => if x == y then 0 else 1
  }

  function Bitwise(op: BitOp, x: nat, y: nat): nat
    decreases x + y
  {
    if x == 0 && y == 0 then 0 else Bit(op, x % 2, y % 2) + 2 * Bitwise(op, x / 2, y / 2)
  }

  function And(x: nat, y: nat): nat { Bitwise(AndBits, x, y) }
  function Or(x: nat, y: nat): nat { Bitwise(OrBits, x, y) }
  function Xor(x: nat, y: nat): nat { Bitwise(XorBits, x, y) }

  /** The complement `~x` of a `width`-bit word. */
  function Not(width: nat, x: nat): nat
    requires x < Pow2(width)
  {
    Pow2(width) - 1 - x
  }

  // ---------- powers of two ----------

  lemma {:induction false} Pow2Add(m: nat, n: nat)
    ensures Pow2(m + n) == Pow2(m) * Pow2(n)
  {
    if m > 0 {
      Pow2Add(m - 1, n);
    }
  }

  lemma Pow2Values()
    ensures Pow2(6) == 0x40 && Pow2(8) == 0x100 && Pow2(16) == 0x1_0000 && Pow2(24) == 0x100_0000
    ensures Pow2(29) == 0x2000_0000 && Pow2(32) == 0x1_0000_0000
  {
    Pow2Add(4, 4);
    assert Pow2(4) == 16;
    assert Pow2(6) == 64;
    Pow2Add(8, 8);
    Pow2Add(8, 16);
    Pow2Add(16, 16);
    Pow2Add(5, 24);
    assert Pow2(5) == 32;
  }

  lemma MulRegroup(a: int, b: int, c: int)
    ensures a * (b * c) == (a * c) * b
  {
  }

  lemma Distribute(a: int, b: int, p: int)
    ensures (a - b) * p == a * p - b * p && (b - a) * p == b * p - a * p
    ensures (a + b) * p == a * p + b * p
  {
  }

  lemma AtLeast(k: int, p: nat)
    requires k > 0
    ensures k * p >= p
  {
    Distribute(k - 1, 1, p);
  }

  lemma ModUnique(x: int, q: int, r: int, p: nat)
    requires p > 0 && x == q * p + r && 0 <= r < p
    ensures x % p == r && x / p == q
  {
    var q' := x / p;
    assert x == q' * p + x % p;
    Distribute(q, q', p);
    if q > q' {
      AtLeast(q - q', p);
    } else if q < q' {
      AtLeast(q' - q, p);
    }
  }

  lemma {:induction false} ModShift(r: int, k: int, p: nat)
    requires p > 0
    ensures (k * p + r) % p == r % p
  {
    var q := r / p;
    Distribute(k, q, p);
    ModUnique(k * p + r, k + q, r % p, p);
  }

  /** Reducing modulo a larger power of two first changes nothing. */
  lemma ModMod(x: int, m: nat, n: nat)
    requires m <= n
    ensures x % Pow2(n) % Pow2(m) == x % Pow2(m)
  {
    hide Pow2;
    Pow2Add(m, n - m);
    var p, q, P := Pow2(m), Pow2(n - m), Pow2(n);
    var h := x / P;
    assert x == h * P + x % P;
    MulRegroup(h, p, q);
    ModShift(x % P, h * q, p);
  }

  /** Addition modulo `p` may be reduced at any point. */
  lemma ModAdd(x: int, y: int, p: nat)
    requires p > 0
    ensures (x + y) % p == (x % p + y % p) % p
  {
    var a, b, r, s := x / p, y / p, x % p, y % p;
    assert x + y == (a + b) * p + (r + s) by { Distribute(a, b, p); }
    ModShift(r + s, a + b, p);
  }

  /** The lowest bit and the rest of a truncated word. */
  lemma TruncParts(x: nat, k: nat)
    requires k > 0
    ensures x % Pow2(k) % 2 == x % 2
    ensures x % Pow2(k) / 2 == x / 2 % Pow2(k - 1)
  {
    var p := Pow2(k - 1);
    var q, r := x / 2 / p, x / 2 % p;
    assert x == (q * p + r) * 2 + x % 2;
    assert (q * p + r) * 2 + x % 2 == q * (2 * p) + (2 * r + x % 2) by { MulRegroup(q, 2, p); }
    ModUnique(x, q, 2 * r + x % 2, 2 * p);
  }

  // ---------- bitwise operations ----------

  lemma BitwiseParts(op: BitOp, x: nat, y: nat)
    ensures Bitwise(op, x, y) % 2 == Bit(op, x % 2, y % 2)
    ensures Bitwise(op, x, y) / 2 == Bitwise(op, x / 2, y / 2)
  {
  }

  /** Every bitwise operation commutes with truncation. */
  lemma {:induction false} BitwiseTrunc(op: BitOp, x: nat, y: nat, k: nat)
    ensures Bitwise(op, x, y) % Pow2(k) == Bitwise(op, x % Pow2(k), y % Pow2(k))
  {
    if k == 0 {
    } else {
      hide Bitwise;
      TruncParts(x, k);
      TruncParts(y, k);
      TruncParts(Bitwise(op, x, y), k);
      BitwiseTrunc(op, x / 2, y / 2, k - 1);
      BitwiseParts(op, x, y);
      BitwiseParts(op, x % Pow2(k), y % Pow2(k));
    }
  }

  /** Bit `i` of a word, the lowest one being bit 0. */
  predicate HasBit(x: nat, i: nat) {
    if i == 0 then x % 2 == 1 else HasBit(x / 2, i - 1)
  }

  /** The operators of C, bit by bit: both, either, just one. */
  lemma {:induction false} BitwiseBits(x: nat, y: nat, i: nat)
    ensures HasBit(And(x, y), i) <==> HasBit(x, i) && HasBit(y, i)
    ensures HasBit(Or(x, y), i) <==> HasBit(x, i) || HasBit(y, i)
    ensures HasBit(Xor(x, y), i) <==> HasBit(x, i) != HasBit(y, i)
    decreases i
  {
    BitwiseParts(AndBits, x, y);
    BitwiseParts(OrBits, x, y);
    BitwiseParts(XorBits, x, y);
    hide Bitwise;
    if i > 0 {
      BitwiseBits(x / 2, y / 2, i - 1);
    }
  }

  lemma BitwiseBound(op: BitOp, x: nat, y: nat, k: nat)
    requires x < Pow2(k) && y < Pow2(k)
    ensures Bitwise(op, x, y) < Pow2(k)
  {
    BitwiseTrunc(op, x, y, k);
    ModUnique(x, 0, x, Pow2(k));
    ModUnique(y, 0, y, Pow2(k));
  }

  lemma {:induction false} OrZero(x: nat)
    ensures Or(x, 0) == x
  {
    if x > 0 {
      OrZero(x / 2);
    }
  }

  /** Or-ing into vacated low bits is addition. */
  lemma {:induction false} OrDisjoint(x: nat, y: nat, s: nat)
    requires y < Pow2(s)
    ensures Or(x * Pow2(s), y) == x * Pow2(s) + y
  {
    if s == 0 {
      OrZero(x);
    } else {
      var p := Pow2(s - 1);
      assert x * Pow2(s) == 2 * (x * p) by { MulRegroup(x, 2, p); }
      OrDisjoint(x, y / 2, s - 1);
    }
  }

  lemma {:induction false} AndZero(x: nat)
    ensures And(x, 0) == 0
  {
    if x > 0 {
      AndZero(x / 2);
    }
  }

  lemma MaskParts(k: nat)
    requires k > 0
    ensures (Pow2(k) - 1) % 2 == 1 && (Pow2(k) - 1) / 2 == Pow2(k - 1) - 1
  {
  }

  /** Masking with 2^k - 1 is truncation. */
  lemma {:induction false} AndMask(x: nat, k: nat)
    ensures And(x, Pow2(k) - 1) == x % Pow2(k)
  {
    hide Bitwise;
    if k == 0 {
      AndZero(x);
    } else {
      MaskParts(k);
      hide Pow2;
      TruncParts(x, k);
      AndMask(x / 2, k - 1);
      var y := Pow2(k) - 1;
      BitwiseParts(AndBits, x, y);
      assert Bit(AndBits, x % 2, 1) == x % 2;
      assert And(x, y) / 2 == x % Pow2(k) / 2 && And(x, y) % 2 == x % Pow2(k) % 2;
    }
  }

  lemma ComplementMod(x: nat, p: nat, q: int, P: int)
    requires p > 0 && P == p * q
    ensures x % p < p && (P - 1 - x) % p == p - 1 - x % p
  {
    var h, r := x / p, x % p;
    assert P - 1 - x == (q - 1 - h) * p + (p - 1 - r) by { Distribute(q - 1, h, p); Distribute(q, 1, p); }
    ModUnique(P - 1 - x, q - 1 - h, p - 1 - r, p);
  }

  /** The complement of a wide word, truncated, is the complement of the truncated word. */
  lemma NotTrunc(x: nat, k: nat, width: nat)
    requires k <= width && x < Pow2(width)
    ensures x % Pow2(k) < Pow2(k)
    ensures Not(width, x) % Pow2(k) == Not(k, x % Pow2(k))
  {
    hide Pow2;
    Pow2Add(k, width - k);
    ComplementMod(x, Pow2(k), Pow2(width - k), Pow2(width));
  }
}
