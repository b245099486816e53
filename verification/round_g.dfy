/** The round function `round_g`: four byte-substitution folds of the input
    word through the substitution table, then the diffusion step `mds`. */
module RoundFunction {
  import opened Tables
  import Mds

  /** One iteration of the fold loop, `x = sbox[x & 0xFF] ^ (x >> 8)`: the
      low byte of `x` is replaced by a table byte and everything above moves
      down one byte.  The table entry is a `uint8_t`, so it only ever touches
      the low byte of the result. */
  function Fold(sbox: seq<bv8>, x: bv32): (r: bv32)
    requires |sbox| >= 256
    ensures r >> 8 == x >> 16
  {
    (sbox[(x & 0xFF) as int] as bv32) ^ (x >> 8)
  }

  /** The four folds of `round_g`.  Each fold shifts one byte out, so after
      the third fold only one byte remains, and the fourth fold returns a
      byte straight from the table. */
  function Substitute(sbox: seq<bv8>, w: bv32): (x: bv32)
    requires |sbox| >= 256
    ensures x < 256
  {
    var x1 := Fold(sbox, w);
    var x2 := Fold(sbox, x1);
    var x3 := Fold(sbox, x2);
    assert x3 < 256;
    Fold(sbox, x3)
  }

  /** `round_g(ctx, w)`: the substituted byte passed through `mds`. */
  function RoundG(ctx: Context, w: bv32): (r: bv32)
    requires ctx.Valid()
    ensures r < 256
  {
    Mds.Mds(Substitute(ctx.sbox, w))
  }

  // ---------------------------------------------------------------------
  // Only the first 256 table bytes are read.

  lemma FoldReadsLowTable(s1: seq<bv8>, s2: seq<bv8>, x: bv32)
    requires |s1| >= 256 && |s2| >= 256 && s1[..256] == s2[..256]
    ensures Fold(s1, x) == Fold(s2, x)
  {
    var k := (x & 0xFF) as int;
    assert k < 256;
    assert s1[k] == s1[..256][k] == s2[..256][k] == s2[k];
  }

  /** The index `x & 0xFF` is always below 256, so two tables that agree on
      their first 256 bytes give the same round function. */
  lemma RoundGReadsLowTable(c1: Context, c2: Context, w: bv32)
    requires c1.Valid() && c2.Valid()
    requires c1.sbox[..256] == c2.sbox[..256]
    ensures RoundG(c1, w) == RoundG(c2, w)
  {
    var x1 := Fold(c1.sbox, w);
    FoldReadsLowTable(c1.sbox, c2.sbox, w);
    var x2 := Fold(c1.sbox, x1);
    FoldReadsLowTable(c1.sbox, c2.sbox, x1);
    var x3 := Fold(c1.sbox, x2);
    FoldReadsLowTable(c1.sbox, c2.sbox, x2);
    FoldReadsLowTable(c1.sbox, c2.sbox, x3);
  }

  lemma FoldZeroTable(sbox: seq<bv8>, x: bv32)
    requires |sbox| >= 256 && x < 256
    requires forall k :: 0 <= k < 256 ==> sbox[k] == 0
    ensures Fold(sbox, x) == 0
  {
    assert sbox[(x & 0xFF) as int] == 0;
    assert x >> 8 == 0;
  }

  /** With an all-zero table the fourth fold yields zero, and `mds(0) == 0`,
      so the round function is identically zero. */
  lemma RoundGZeroTable(ctx: Context, w: bv32)
    requires ctx.Valid()
    requires forall k :: 0 <= k < 256 ==> ctx.sbox[k] == 0
    ensures RoundG(ctx, w) == 0
  {
    var x3 := Fold(ctx.sbox, Fold(ctx.sbox, Fold(ctx.sbox, w)));
    FoldZeroTable(ctx.sbox, x3);
    Mds.MdsZero();
  }
}
