/** The diffusion step `mds` of the transform, modelled as its code is written:
    sixteen shift-and-XOR byte products, all folded into ONE 32-bit
    accumulator.  The reduction test inside the byte multiply can never fire,
    so each product is the low byte of a carry-less product, and the result
    always fits in a byte. */
module Mds {

  /** The fixed coefficient table, row by row. */
  const Matrix: seq<seq<bv8>> :=
    [[0x01, 0xEF, 0x5B, 0x5B],
     [0x5B, 0xEF, 0xEF, 0x01],
     [0xEF, 0x5B, 0x01, 0xEF],
     [0xEF, 0x01, 0xEF, 0x5B]]

  /** Reference: the low 8 bits of the carry-less (shift-and-XOR) product
      of `a` and `b`: the XOR of `a << k` over the set bits `k` of `b`, all
      kept to one byte. */
  function ClMulLow(a: bv8, b: bv8): bv8
    decreases b
  {
    if b == 0 then 0
    else if b & 1 != 0 then a ^ ClMulLow(a << 1, b >> 1)
    else ClMulLow(a << 1, b >> 1)
  }

  /** The source's reduction test `x0 > (x0 ^ 0x169)`.  `x0` is a byte that C
      promotes to `int` before the XOR; 16 bits are enough to hold both sides. */
  predicate ReductionFires(x0: bv8) {
    (x0 as bv16) > ((x0 as bv16) ^ 0x169)
  }

  /** `if (x0 > (x0 ^ 0x169)) x0 ^= 0x169;` -- storing back into the byte
      `x0` keeps the low 8 bits of 0x169, which are 0x69. */
  function Reduce(x0: bv8): bv8 {
    if ReductionFires(x0) then x0 ^ 0x69 else x0
  }

  /** The inner `while (y)` loop of `mds`: one iteration reduces `x0`, XORs it
      into `acc` when the low bit of `y` is set, then doubles `x0` (truncated
      to a byte) and halves `y`. */
  function MulByte(x0: bv8, y: bv8, acc: bv32): bv32
    decreases y
  {
    if y == 0 then acc
    else MulByte(Reduce(x0) << 1, y >> 1, Accumulate(acc, Reduce(x0), y))
  }

  /** `if (y & 1) acc ^= x0;` */
  function Accumulate(acc: bv32, x0: bv8, y: bv8): bv32 {
    if y & 1 != 0 then acc ^ (x0 as bv32) else acc
  }

  /** The byte `x[j]` that the source extracts from `w`, most significant
      first: `(uint8_t)(w >> 24)`, `(uint8_t)(w >> 16)`, `(uint8_t)(w >> 8)`,
      `(uint8_t)w`. */
  function ByteOf(w: bv32, j: nat): bv8
    requires j < 4
  {
    ((w >> (24 - 8 * j)) & 0xFF) as bv8
  }

  /** Inner `for (j ...)` loop of `mds` for row `i`, from column `j` on. */
  function MdsRow(w: bv32, i: nat, j: nat, acc: bv32): (r: bv32)
    requires i < 4 && j <= 4
    ensures acc < 256 ==> r < 256
    decreases 4 - j
  {
    if j == 4 then acc
    else
      var acc1 := MulByte(Matrix[i][j], ByteOf(w, j), acc);
      MulByteProduct(Matrix[i][j], ByteOf(w, j), acc);
      ByteBelow256(acc, ClMulLow(Matrix[i][j], ByteOf(w, j)));
      MdsRow(w, i, j + 1, acc1)
  }

  /** Outer `for (i ...)` loop of `mds`, from row `i` on. */
  function MdsRows(w: bv32, i: nat, acc: bv32): (r: bv32)
    requires i <= 4
    ensures acc < 256 ==> r < 256
    decreases 4 - i
  {
    if i == 4 then acc
    else MdsRows(w, i + 1, MdsRow(w, i, 0, acc))
  }

  /** `mds(w)`: the accumulator starts at zero and every contribution is a
      byte, so the result is always below 256. */
  function Mds(w: bv32): (r: bv32)
    ensures r < 256
  {
    MdsRows(w, 0, 0)
  }

  // ---------------------------------------------------------------------
  // The reduction branch is dead, and each inner loop is a carry-less product.

  /** For a byte `x0`, `x0 ^ 0x169` is at least 256, so `x0` is never the
      larger side and the reduction never happens. */
  lemma ReductionNeverFires(x0: bv8)
    ensures !ReductionFires(x0)
    ensures Reduce(x0) == x0
  {
  }

  lemma XorWiden(acc: bv32, t: bv8, u: bv8)
    ensures (acc ^ (t as bv32)) ^ (u as bv32) == acc ^ ((t ^ u) as bv32)
  {
  }

  lemma XorZero(acc: bv32)
    ensures acc ^ ((0 as bv8) as bv32) == acc
  {
  }

  lemma ByteBelow256(acc: bv32, t: bv8)
    ensures acc < 256 ==> acc ^ (t as bv32) < 256
  {
  }

  lemma MulByteUnfoldOdd(x0: bv8, y: bv8, acc: bv32)
    requires y & 1 != 0
    ensures MulByte(x0, y, acc) == MulByte(x0 << 1, y >> 1, acc ^ (x0 as bv32))
  {
    ReductionNeverFires(x0);
    assert y != 0;
    assert Accumulate(acc, x0, y) == acc ^ (x0 as bv32);
  }

  lemma MulByteUnfoldEven(x0: bv8, y: bv8, acc: bv32)
    requires y != 0 && y & 1 == 0
    ensures MulByte(x0, y, acc) == MulByte(x0 << 1, y >> 1, acc)
  {
    ReductionNeverFires(x0);
    assert Accumulate(acc, x0, y) == acc;
  }

  /** The inner loop XORs exactly the low byte of the carry-less product of
      `x0` and `y` into the accumulator. */
  lemma {:induction false} MulByteProduct(x0: bv8, y: bv8, acc: bv32)
    ensures MulByte(x0, y, acc) == acc ^ (ClMulLow(x0, y) as bv32)
    decreases y
  {
    if y == 0 {
      XorZero(acc);
    } else if y & 1 != 0 {
      MulByteProduct(x0 << 1, y >> 1, acc ^ (x0 as bv32));
      ProductStepOdd(x0, y, acc);
    } else {
      MulByteProduct(x0 << 1, y >> 1, acc);
      ProductStepEven(x0, y, acc);
    }
  }

  lemma ProductStepOdd(x0: bv8, y: bv8, acc: bv32)
    requires y & 1 != 0
    requires MulByte(x0 << 1, y >> 1, acc ^ (x0 as bv32))
             == (acc ^ (x0 as bv32)) ^ (ClMulLow(x0 << 1, y >> 1) as bv32)
    ensures MulByte(x0, y, acc) == acc ^ (ClMulLow(x0, y) as bv32)
  {
    MulByteUnfoldOdd(x0, y, acc);
    XorWiden(acc, x0, ClMulLow(x0 << 1, y >> 1));
  }

  lemma ProductStepEven(x0: bv8, y: bv8, acc: bv32)
    requires y != 0 && y & 1 == 0
    requires MulByte(x0 << 1, y >> 1, acc) == acc ^ (ClMulLow(x0 << 1, y >> 1) as bv32)
    ensures MulByte(x0, y, acc) == acc ^ (ClMulLow(x0, y) as bv32)
  {
    MulByteUnfoldEven(x0, y, acc);
  }

  /** A zero byte skips the `while (y)` loop altogether. */
  lemma MulByteZero(x0: bv8, acc: bv32)
    ensures MulByte(x0, 0, acc) == acc
  {
  }

  // ---------------------------------------------------------------------
  // The value of `mds`: the XOR of all sixteen byte products.

  /** XOR of two words, named so that the accumulator proofs below can reason
      about it without unfolding the bit-vector operation. */
  function Xor(a: bv32, b: bv32): bv32 {
    a ^ b
  }

  lemma XorAssoc(a: bv32, b: bv32, c: bv32)
    ensures Xor(Xor(a, b), c) == Xor(a, Xor(b, c))
  {
  }

  lemma XorZeroRight(a: bv32)
    ensures Xor(a, 0) == a
  {
  }

  lemma XorZeroLeft(a: bv32)
    ensures Xor(0, a) == a
  {
  }

  /** Reference: the XOR of the carry-less products of row `i` of the matrix
      with the bytes of `w`, over columns `j..3`. */
  function RowProducts(w: bv32, i: nat, j: nat): bv32
    requires i < 4 && j <= 4
    decreases 4 - j
  {
    if j == 4 then 0
    else Xor(ClMulLow(Matrix[i][j], ByteOf(w, j)) as bv32, RowProducts(w, i, j + 1))
  }

  /** Reference: the XOR of `RowProducts` over rows `i..3`. */
  function Products(w: bv32, i: nat): bv32
    requires i <= 4
    decreases 4 - i
  {
    if i == 4 then 0 else Xor(RowProducts(w, i, 0), Products(w, i + 1))
  }

  lemma RowStep(w: bv32, i: nat, j: nat, acc: bv32)
    requires i < 4 && j < 4
    requires MdsRow(w, i, j + 1, Xor(acc, ClMulLow(Matrix[i][j], ByteOf(w, j)) as bv32))
             == Xor(Xor(acc, ClMulLow(Matrix[i][j], ByteOf(w, j)) as bv32), RowProducts(w, i, j + 1))
    ensures MdsRow(w, i, j, acc) == Xor(acc, RowProducts(w, i, j))
  {
    var c := ClMulLow(Matrix[i][j], ByteOf(w, j)) as bv32;
    MulByteProduct(Matrix[i][j], ByteOf(w, j), acc);
    XorAssoc(acc, c, RowProducts(w, i, j + 1));
  }

  /** Row `i`'s inner loop, from column `j`, XORs exactly that row's
      remaining products into the accumulator. */
  lemma {:induction false} MdsRowProducts(w: bv32, i: nat, j: nat, acc: bv32)
    requires i < 4 && j <= 4
    ensures MdsRow(w, i, j, acc) == Xor(acc, RowProducts(w, i, j))
    decreases 4 - j
  {
    if j == 4 {
      XorZeroRight(acc);
    } else {
      var c := ClMulLow(Matrix[i][j], ByteOf(w, j)) as bv32;
      MdsRowProducts(w, i, j + 1, Xor(acc, c));
      RowStep(w, i, j, acc);
    }
  }

  lemma RowsStep(w: bv32, i: nat, acc: bv32)
    requires i < 4
    requires MdsRows(w, i + 1, MdsRow(w, i, 0, acc)) == Xor(MdsRow(w, i, 0, acc), Products(w, i + 1))
    ensures MdsRows(w, i, acc) == Xor(acc, Products(w, i))
  {
    MdsRowProducts(w, i, 0, acc);
    XorAssoc(acc, RowProducts(w, i, 0), Products(w, i + 1));
  }

  /** The outer loop, from row `i`, XORs exactly the remaining rows'
      products into the accumulator. */
  lemma {:induction false} MdsRowsProducts(w: bv32, i: nat, acc: bv32)
    requires i <= 4
    ensures MdsRows(w, i, acc) == Xor(acc, Products(w, i))
    decreases 4 - i
  {
    if i == 4 {
      XorZeroRight(acc);
    } else {
      MdsRowsProducts(w, i + 1, MdsRow(w, i, 0, acc));
      RowsStep(w, i, acc);
    }
  }

  /** `mds(w)` is the XOR of the sixteen products
      `ClMulLow(Matrix[i][j], x[j])`, one for each entry of the matrix. */
  lemma MdsProducts(w: bv32)
    ensures Mds(w) == Products(w, 0)
  {
    MdsRowsProducts(w, 0, 0);
    XorZeroLeft(Products(w, 0));
  }

  // ---------------------------------------------------------------------
  // A zero input word contributes nothing.

  lemma {:induction false} MdsRowZero(i: nat, j: nat, acc: bv32)
    requires i < 4 && j <= 4
    ensures MdsRow(0, i, j, acc) == acc
    decreases 4 - j
  {
    if j < 4 {
      assert ByteOf(0, j) == 0;
      MulByteZero(Matrix[i][j], acc);
      MdsRowZero(i, j + 1, acc);
    }
  }

  lemma {:induction false} MdsRowsZero(i: nat, acc: bv32)
    requires i <= 4
    ensures MdsRows(0, i, acc) == acc
    decreases 4 - i
  {
    if i < 4 {
      MdsRowZero(i, 0, acc);
      MdsRowsZero(i + 1, acc);
    }
  }

  /** `mds(0) == 0`: every byte of a zero word is zero, so every inner
      `while (y)` loop is skipped and the accumulator stays zero. */
  lemma MdsZero()
    ensures Mds(0) == 0
  {
    MdsRowsZero(0, 0);
  }
}
