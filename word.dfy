/** Unsigned 32-bit words and the instruction layout: four byte fields,
    op-code in bits 24-31, then the first, second and third operand in
    bits 16-23, 8-15 and 0-7. Words are integers below 2^32; the two
    Rust operators the encoder applies to them, `<<` and `|` on `u32`, are
    written out as Shl and Or. */
module Word {

  const WORD_LIMIT: int := 0x1_0000_0000

  type u32 = x: int | 0 <= x < WORD_LIMIT
  type u8 = x: int | 0 <= x < 256

  function Pow2(n: nat): (p: nat)
    ensures p > 0
  {
    if n == 0 then 1 else 2 * Pow2(n - 1)
  }

  /** `x << n` on `u32`: bits shifted past bit 31 are lost, so the shift
      multiplies by 2^n exactly when `x` is below 2^(32 - n). */
  function Shl(x: u32, n: nat): (r: u32)
    requires n < 32
    ensures x < Pow2(32 - n) ==> r == x * Pow2(n)
  {
    ShlExact(x, n);
    (x * Pow2(n)) % WORD_LIMIT
  }

  lemma ShlExact(x: nat, n: nat)
    requires n < 32
    ensures x < Pow2(32 - n) ==> (x * Pow2(n)) % WORD_LIMIT == x * Pow2(n)
  {
    if x < Pow2(32 - n) {
      Pow2Complement(n);
      MulStrict(x, Pow2(32 - n), Pow2(n));
      ModSmall(x * Pow2(n), WORD_LIMIT);
    }
  }

  lemma Pow2Complement(n: nat)
    requires n <= 32
    ensures Pow2(32 - n) * Pow2(n) == WORD_LIMIT
  {
    Pow2Add(32 - n, n);
    Pow2Bytes();
  }

  lemma MulStrict(a: int, b: int, d: int)
    requires a < b && d > 0
    ensures a * d < b * d
  {
    MulMonotone(a + 1, b, d);
  }

  lemma ModSmall(v: int, d: int)
    requires 0 <= v < d
    ensures v % d == v
  {
  }

  /** Bitwise or of two naturals, one binary digit at a time. */
  function BitOr(x: nat, y: nat): nat
    decreases x + y
  {
    if x == 0 then y
    else if y == 0 then x
    else 2 * BitOr(x / 2, y / 2) + (if x % 2 == 1 || y % 2 == 1 then 1 else 0)
  }

  /** Bit `k` of `x` is set. */
  predicate Bit(x: nat, k: nat) {
    (x / Pow2(k)) % 2 == 1
  }

  /** A bit is set in `BitOr(x, y)` exactly when it is set in `x` or in `y`. */
  lemma {:induction false} BitOrBits(x: nat, y: nat, k: nat)
    ensures Bit(BitOr(x, y), k) <==> Bit(x, k) || Bit(y, k)
    decreases k
  {
    if x != 0 && y != 0 {
      var b := if x % 2 == 1 || y % 2 == 1 then 1 else 0;
      var r := BitOr(x, y);
      assert r == 2 * BitOr(x / 2, y / 2) + b;
      assert r / 2 == BitOr(x / 2, y / 2) && r % 2 == b;
      if k == 0 {
        assert Pow2(0) == 1;
        assert Bit(r, 0) <==> b == 1;
      } else {
        BitOrBits(x / 2, y / 2, k - 1);
        DivHalf(r, k);
        DivHalf(x, k);
        DivHalf(y, k);
      }
    }
  }

  /** Dividing by 2^k is halving, then dividing by 2^(k-1). */
  lemma DivHalf(x: nat, k: nat)
    requires k > 0
    ensures x / Pow2(k) == (x / 2) / Pow2(k - 1)
  {
    var p := Pow2(k - 1);
    var q, r := x / 2, x % 2;
    var q2, r2 := q / p, q % p;
    assert x == 2 * (q2 * p + r2) + r;
    assert x == q2 * (2 * p) + (2 * r2 + r);
    assert 0 <= 2 * r2 + r < 2 * p;
    DivUnique(x, 2 * p, q2, 2 * r2 + r);
  }

  lemma MulMonotone(a: int, b: int, d: int)
    requires a <= b && d > 0
    ensures a * d <= b * d
  {
  }

  /** Division by a positive `d` is determined by any quotient and
      remainder that recompose the dividend. */
  lemma DivUnique(x: int, d: int, q: int, r: int)
    requires d > 0 && x == q * d + r && 0 <= r < d
    ensures x / d == q
  {
    var q0, r0 := x / d, x % d;
    assert x == q0 * d + r0;
    if q < q0 {
      MulMonotone(q + 1, q0, d);
    } else if q > q0 {
      MulMonotone(q0 + 1, q, d);
    }
  }

  /** Or-ing a value below 2^k into a multiple of 2^k is addition: the
      two have no set bit in common. */
  lemma {:induction false} OrDisjoint(q: nat, y: nat, k: nat)
    requires y < Pow2(k)
    ensures BitOr(q * Pow2(k), y) == q * Pow2(k) + y
    decreases k
  {
    var x := q * Pow2(k);
    if k == 0 {
      assert y == 0;
    } else if x != 0 && y != 0 {
      var p := Pow2(k - 1);
      assert x == 2 * (q * p);
      assert x / 2 == q * p && x % 2 == 0;
      OrDisjoint(q, y / 2, k - 1);
    }
  }

  /** Or keeps words within 32 bits. */
  lemma {:induction false} OrBound(x: nat, y: nat, n: nat)
    requires x < Pow2(n) && y < Pow2(n)
    ensures BitOr(x, y) < Pow2(n)
    decreases n
  {
    if x != 0 && y != 0 {
      OrBound(x / 2, y / 2, n - 1);
    }
  }

  lemma {:induction false} Pow2Add(a: nat, b: nat)
    ensures Pow2(a + b) == Pow2(a) * Pow2(b)
    decreases a
  {
    if a > 0 {
      Pow2Add(a - 1, b);
    }
  }

  lemma Pow2Bytes()
    ensures Pow2(8) == 0x100
    ensures Pow2(16) == 0x1_0000
    ensures Pow2(24) == 0x100_0000
    ensures Pow2(32) == WORD_LIMIT
  {
    Pow2Add(8, 8);
    Pow2Add(16, 8);
    Pow2Add(16, 16);
  }

  /** A multiple of 2^n has no bit set below bit n. */
  lemma LowBitClear(q: nat, n: nat, k: nat)
    requires k < n
    ensures !Bit(q * Pow2(n), k)
  {
    Pow2Add(k, n - k);
    var a, b := Pow2(k), Pow2(n - k - 1);
    assert Pow2(n) == a * (2 * b);
    Regroup(q, a, b);
    DivUnique(q * Pow2(n), a, 2 * (q * b), 0);
  }

  lemma Regroup(q: int, a: int, b: int)
    ensures q * (a * (2 * b)) == (2 * (q * b)) * a
  {
  }

  /** A value below 2^n has no bit set at or above bit n. */
  lemma HighBitClear(y: nat, n: nat, k: nat)
    requires y < Pow2(n) && k >= n
    ensures !Bit(y, k)
  {
    Pow2Add(n, k - n);
    MulMonotone(1, Pow2(k - n), Pow2(n));
    DivUnique(y, Pow2(k), 0, y);
  }

  /** A multiple of 2^n and a value below 2^n have no set bit in common. */
  lemma SplitBits(q: nat, y: nat, n: nat)
    requires y < Pow2(n)
    ensures forall k: nat :: Bit(q * Pow2(n), k) ==> k >= n
    ensures forall k: nat :: Bit(y, k) ==> k < n
  {
    forall k: nat | k < n ensures !Bit(q * Pow2(n), k) {
      LowBitClear(q, n, k);
    }
    forall k: nat | k >= n ensures !Bit(y, k) {
      HighBitClear(y, n, k);
    }
  }

  /** `x | y` on `u32`: BitOr, which BitOrBits shows to be bitwise, kept
      within 32 bits by OrBound. */
  function Or(x: u32, y: u32): u32
  {
    Pow2Bytes();
    OrBound(x, y, 32);
    BitOr(x, y)
  }

  /** The four fields of an instruction word. */
  datatype Fields = Fields(op: u8, arg1: u8, arg2: u8, arg3: u8)

  /** Byte `k` of `w`, counting from the least significant byte:
      `(w >> (8 * k)) & 0xFF`. */
  function ByteAt(w: u32, k: nat): u8
    requires k < 4
    decreases k
  {
    if k == 0 then w % 0x100 else ByteAt(w / 0x100, k - 1)
  }

  lemma SplitByte(high: nat, low: u8)
    ensures (high * 0x100 + low) / 0x100 == high && (high * 0x100 + low) % 0x100 == low
  {
  }

  /** The word holding the four fields in their bytes, most significant
      first. */
  function Pack(f: Fields): (w: u32)
    ensures ByteAt(w, 3) == f.op && ByteAt(w, 2) == f.arg1
    ensures ByteAt(w, 1) == f.arg2 && ByteAt(w, 0) == f.arg3
  {
    SplitByte((f.op * 0x100 + f.arg1) * 0x100 + f.arg2, f.arg3);
    SplitByte(f.op * 0x100 + f.arg1, f.arg2);
    SplitByte(f.op, f.arg1);
    SplitByte(0, f.op);
    ((f.op * 0x100 + f.arg1) * 0x100 + f.arg2) * 0x100 + f.arg3
  }

  /** Reads the four fields back out of a word. */
  function Unpack(w: u32): (f: Fields)
    ensures Pack(f) == w
  {
    Fields(ByteAt(w, 3), ByteAt(w, 2), ByteAt(w, 1), ByteAt(w, 0))
  }

  /** A word is its op-code field, shifted to bit 24, plus the word holding
      only its operand fields, which is below 2^24. */
  lemma PackSplit(f: Fields)
    ensures Pack(Fields(0, f.arg1, f.arg2, f.arg3)) < 0x100_0000
    ensures Pack(f) == f.op * 0x100_0000 + Pack(Fields(0, f.arg1, f.arg2, f.arg3))
  {
  }

  /** A word is the shifted op-code or-ed with its operand fields, and the
      two have no set bit in common. */
  lemma PackShape(f: Fields)
    ensures var args := Pack(Fields(0, f.arg1, f.arg2, f.arg3));
      Pack(f) == Or(Shl(f.op, 24), args) &&
      (forall k: nat :: Bit(Shl(f.op, 24), k) ==> k >= 24) &&
      (forall k: nat :: Bit(args, k) ==> k < 24)
  {
    var args := Pack(Fields(0, f.arg1, f.arg2, f.arg3));
    PackSplit(f);
    Pow2Bytes();
    assert Shl(f.op, 24) == f.op * Pow2(24);
    OrDisjoint(f.op, args, 24);
    SplitBits(f.op, args, 24);
  }

  /** Packing is injective: distinct fields give distinct words. */
  lemma PackInjective(f: Fields, g: Fields)
    requires Pack(f) == Pack(g)
    ensures f == g
  {
    assert ByteAt(Pack(f), 3) == f.op && ByteAt(Pack(g), 3) == g.op;
  }
}
