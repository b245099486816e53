/** `tf_enc`: whitening, the sixteen-round network, and whitening again, on
    a block of four 32-bit words. */
module Cipher {
  import opened Bits
  import opened Tables
  import opened RoundFunction
  import opened Feistel

  /** A block as the four words `w[0..3]` of the block union. */
  datatype Block = Block(w0: bv32, w1: bv32, w2: bv32, w3: bv32)

  /** The four consecutive keys `keys[base..base + 3]` that `whiten` is
      handed as `&keys[base]`. */
  function KeyGroup(keys: seq<bv32>, base: int): Block
    requires 0 <= base && base + 4 <= |keys|
  {
    Block(keys[base], keys[base + 1], keys[base + 2], keys[base + 3])
  }

  /** One step of `whiten`: `in->w[i] ^= keys[i]`. */
  function WhitenWord(w: bv32, key: bv32): bv32 {
    w ^ key
  }

  /** `whiten(in, keys)`: word `i` of the block whitened with key `i`. */
  function Whiten(blk: Block, k: Block): Block {
    Block(WhitenWord(blk.w0, k.w0), WhitenWord(blk.w1, k.w1),
          WhitenWord(blk.w2, k.w2), WhitenWord(blk.w3, k.w3))
  }

  lemma WhitenWordTwice(w: bv32, key: bv32)
    ensures WhitenWord(WhitenWord(w, key), key) == w
  {
    XorTwice(w, key);
  }

  /** Whitening twice with the same four keys restores the block. */
  lemma WhitenTwice(blk: Block, k: Block)
    ensures Whiten(Whiten(blk, k), k) == blk
  {
    WhitenWordTwice(blk.w0, k.w0);
    WhitenWordTwice(blk.w1, k.w1);
    WhitenWordTwice(blk.w2, k.w2);
    WhitenWordTwice(blk.w3, k.w3);
  }

  /** Two key groups are the same exactly when the four keys they cover
      are. */
  lemma KeyGroupEqual(keys: seq<bv32>, base: int, base': int)
    requires 0 <= base && base + 4 <= |keys|
    requires 0 <= base' && base' + 4 <= |keys|
    ensures KeyGroup(keys, base) == KeyGroup(keys, base')
        <==> keys[base..base + 4] == keys[base'..base' + 4]
  {
    var g := keys[base..base + 4];
    var g' := keys[base'..base' + 4];
    assert g == [keys[base], keys[base + 1], keys[base + 2], keys[base + 3]];
    assert g' == [keys[base'], keys[base' + 1], keys[base' + 2], keys[base' + 3]];
  }

  /** Whitening the zero block yields the keys themselves. */
  lemma WhitenZero(k: Block)
    ensures Whiten(Block(0, 0, 0, 0), k) == k
  {
  }

  /** `whiten(in, &keys[base])` and `whiten(in, &keys[base'])` act the same
      on every block exactly when the four keys at `base` and at `base'`
      are the same. */
  lemma SameWhitening(keys: seq<bv32>, base: int, base': int)
    requires 0 <= base && base + 4 <= |keys|
    requires 0 <= base' && base' + 4 <= |keys|
    ensures (forall blk :: Whiten(blk, KeyGroup(keys, base)) == Whiten(blk, KeyGroup(keys, base')))
        <==> keys[base..base + 4] == keys[base'..base' + 4]
  {
    KeyGroupEqual(keys, base, base');
    if forall blk :: Whiten(blk, KeyGroup(keys, base)) == Whiten(blk, KeyGroup(keys, base')) {
      WhitenZero(KeyGroup(keys, base));
      WhitenZero(KeyGroup(keys, base'));
    }
  }

  /** The numeric value of the `enc` flag: `TF_ENCRYPT` is 1, `TF_DECRYPT`
      is 0. */
  function Flag(dir: Direction): int {
    match dir
    case Encrypt => 1
    case Decrypt => 0
  }

  /** The key offset of the first whitening, `&ctx->keys[enc * 4]`. */
  function PreWhitenBase(dir: Direction): int {
    Flag(dir) * 4
  }

  /** The key offset of the second whitening,
      `&ctx->keys[enc == TF_DECRYPT ? 0 : 4]`. */
  function PostWhitenBase(dir: Direction): int {
    if Flag(dir) == 0 then 0 else 4
  }

  /** Encryption whitens with `keys[4..7]` before and after the rounds, and
      decryption with `keys[0..3]` both times. */
  lemma WhiteningKeys(dir: Direction)
    ensures PreWhitenBase(dir) == PostWhitenBase(dir)
    ensures dir == Encrypt <==> PreWhitenBase(dir) == 4
    ensures dir == Decrypt <==> PreWhitenBase(dir) == 0
  {
  }

  function ToState(blk: Block): State {
    State(blk.w0, blk.w1, blk.w2, blk.w3)
  }

  /** The network already wrote its words back in the order `(C, D, A, B)`,
      so storing them is a plain copy. */
  function ToBlock(s: State): Block {
    Block(s.a, s.b, s.c, s.d)
  }

  /** `tf_enc(ctx, data, enc)`, as written. */
  function TfEnc(ctx: Context, dir: Direction, blk: Block): Block
    requires ctx.Valid()
  {
    var pre := Whiten(blk, KeyGroup(ctx.keys, PreWhitenBase(dir)));
    var post := ToBlock(Network(ctx, dir, ToState(pre)));
    Whiten(post, KeyGroup(ctx.keys, PostWhitenBase(dir)))
  }

  /** Whitening, then the network, then whitening again, undone by the
      opposite direction when its first whitening keys are the second
      whitening keys of this run and the other way round. */
  lemma SandwichInverse(ctx: Context, dir: Direction, blk: Block, k1: Block, k2: Block)
    requires ctx.Valid()
    ensures
      var out := Whiten(ToBlock(Network(ctx, dir, ToState(Whiten(blk, k1)))), k2);
      Whiten(ToBlock(Network(ctx, Opposite(dir), ToState(Whiten(out, k2)))), k1) == blk
  {
    var pre := Whiten(blk, k1);
    var net := Network(ctx, dir, ToState(pre));
    WhitenTwice(ToBlock(net), k2);
    assert ToState(ToBlock(net)) == net;
    NetworkInverse(ctx, dir, ToState(pre));
    assert ToBlock(ToState(pre)) == pre;
    WhitenTwice(blk, k1);
  }

  /** When the two whitening key groups coincide, running `tf_enc` in the
      opposite direction on its output gives the block back. */
  lemma TfEncRoundTrip(ctx: Context, dir: Direction, blk: Block)
    requires ctx.Valid()
    requires ctx.keys[0..4] == ctx.keys[4..8]
    ensures TfEnc(ctx, Opposite(dir), TfEnc(ctx, dir, blk)) == blk
  {
    KeyGroupEqual(ctx.keys, 0, 4);
    var k := KeyGroup(ctx.keys, PreWhitenBase(dir));
    assert KeyGroup(ctx.keys, PostWhitenBase(dir)) == k;
    assert KeyGroup(ctx.keys, PreWhitenBase(Opposite(dir))) == k;
    assert KeyGroup(ctx.keys, PostWhitenBase(Opposite(dir))) == k;
    SandwichInverse(ctx, dir, blk, k, k);
  }

  // ---------------------------------------------------------------------
  // The whitening keys as written break the round trip.

  /** `m` one-bit left rotations. */
  function RotlTimes(x: bv32, m: nat): bv32
    decreases m
  {
    if m == 0 then x else RotlTimes(Rotl(x, 1), m - 1)
  }

  predicate ZeroTable(ctx: Context) {
    ctx.Valid() && forall i :: 0 <= i < 256 ==> ctx.sbox[i] == 0
  }

  predicate ZeroRoundKeys(ctx: Context, lo: int) {
    ctx.Valid() && 0 <= lo && forall i :: lo <= i < 40 ==> ctx.keys[i] == 0
  }

  lemma OffsetsZero(ctx: Context, a: bv32, b: bv32)
    requires ZeroTable(ctx)
    ensures Offsets(ctx, a, b, RoundKeys(0, 0)) == (0, 0)
  {
    RoundGZeroTable(ctx, a);
    RoundGZeroTable(ctx, Rotl(b, 8));
  }

  lemma MixZeroDecrypt(s: State)
    requires s.b == 0 && s.d == 0
    ensures Mix(Decrypt, (0, 0), s) == State(s.a, 0, Rotl(s.c, 1), 0)
  {
    assert RotlXor(s.c, 0) == Rotl(s.c, 1);
    assert XorRotr(0, 0) == 0;
  }

  /** With zero round keys, the round `f` only rotates `C` left by one and
      exchanges the halves of a state whose `B` and `D` are zero. */
  ghost predicate RotatesC(f: (State, RoundKeys) -> State) {
    forall a: bv32, c: bv32 :: f(State(a, 0, c, 0), RoundKeys(0, 0)) == State(Rotl(c, 1), 0, a, 0)
  }

  /** A zero table makes every decryption round of that shape. */
  lemma ZeroTableRotatesC(ctx: Context)
    requires ZeroTable(ctx)
    ensures RotatesC(RoundFn(ctx, Decrypt))
  {
    forall a: bv32, c: bv32
      ensures RoundFn(ctx, Decrypt)(State(a, 0, c, 0), RoundKeys(0, 0)) == State(Rotl(c, 1), 0, a, 0)
    {
      OffsetsZero(ctx, a, 0);
      MixZeroDecrypt(State(a, 0, c, 0));
    }
  }

  lemma DecryptRoundStep(f: (State, RoundKeys) -> State, keys: seq<bv32>, a: bv32, c: bv32, cur: int, n: nat)
    requires RotatesC(f) && |keys| == 40 && n >= 1 && CursorFits(Decrypt, cur, n)
    requires keys[cur - 1] == 0 && keys[cur] == 0
    ensures Rounds(f, keys, Decrypt, State(a, 0, c, 0), cur, n)
         == Rounds(f, keys, Decrypt, State(Rotl(c, 1), 0, a, 0), cur - 2, n - 1)
  {
    assert KeyAt(keys, Decrypt, cur) == RoundKeys(0, 0);
    assert f(State(a, 0, c, 0), RoundKeys(0, 0)) == State(Rotl(c, 1), 0, a, 0);
  }

  /** So every two such rounds rotate both `A` and `C` left by one. */
  lemma {:induction false} DecryptRoundsZero(f: (State, RoundKeys) -> State, keys: seq<bv32>,
                                             a: bv32, c: bv32, cur: int, m: nat)
    requires RotatesC(f) && |keys| == 40 && cur <= 39 && 0 <= cur - 4 * m + 1
    requires forall i :: cur - 4 * m + 1 <= i <= cur ==> keys[i] == 0
    ensures CursorFits(Decrypt, cur, 2 * m)
    ensures Rounds(f, keys, Decrypt, State(a, 0, c, 0), cur, 2 * m)
         == State(RotlTimes(a, m), 0, RotlTimes(c, m), 0)
    decreases m
  {
    if m > 0 {
      DecryptRoundStep(f, keys, a, c, cur, 2 * m);
      DecryptRoundStep(f, keys, Rotl(c, 1), a, cur - 2, 2 * m - 1);
      DecryptRoundsZero(f, keys, Rotl(a, 1), Rotl(c, 1), cur - 4, m - 1);
    }
  }

  /** The counterexample contexts: an all-zero table, `keys[0] == 1`, and
      every other key zero. */
  predicate Witness(ctx: Context) {
    ZeroTable(ctx) && ctx.keys[0] == 1 && ZeroRoundKeys(ctx, 1)
  }

  /** Such a context exists. */
  lemma WitnessExists()
    ensures Witness(Context([1] + seq(39, _ => 0), seq(1024, _ => 0)))
  {
  }

  lemma WitnessKeys(ctx: Context)
    requires Witness(ctx)
    ensures ZeroRoundKeys(ctx, 8)
    ensures KeyGroup(ctx.keys, 0) == Block(1, 0, 0, 0)
    ensures KeyGroup(ctx.keys, 4) == Block(0, 0, 0, 0)
  {
  }

  lemma RotationsOfWitness()
    ensures RotlTimes(0, 8) == 0
    ensures RotlTimes(1, 8) == 256
  {
  }

  /** In a witness context the decryption network fixes the zero state
      and moves the one in `A` to `C` rotated by eight. */
  lemma WitnessNetworks(ctx: Context)
    requires Witness(ctx)
    ensures Network(ctx, Decrypt, State(0, 0, 0, 0)) == State(0, 0, 0, 0)
    ensures Network(ctx, Encrypt, State(0, 0, 0, 0)) == State(0, 0, 0, 0)
    ensures Network(ctx, Decrypt, State(1, 0, 0, 0)) == State(0, 0, 256, 0)
  {
    WitnessKeys(ctx);
    RotationsOfWitness();
    ZeroTableRotatesC(ctx);
    DecryptRoundsZero(RoundFn(ctx, Decrypt), ctx.keys, 0, 0, 39, 8);
    DecryptRoundsZero(RoundFn(ctx, Decrypt), ctx.keys, 1, 0, 39, 8);
    NetworkInverse(ctx, Decrypt, State(0, 0, 0, 0));
  }

  /** In a witness context encryption maps the zero block to itself, but
      decryption maps it to `(1, 0, 256, 0)`: decryption whitens with
      `keys[0..3]`, which hold a 1 that encryption never XORed in. */
  lemma WhiteningMismatchCounterexample(ctx: Context)
    requires Witness(ctx)
    ensures TfEnc(ctx, Encrypt, Block(0, 0, 0, 0)) == Block(0, 0, 0, 0)
    ensures TfEnc(ctx, Decrypt, Block(0, 0, 0, 0)) == Block(1, 0, 256, 0)
    ensures TfEnc(ctx, Decrypt, TfEnc(ctx, Encrypt, Block(0, 0, 0, 0))) != Block(0, 0, 0, 0)
  {
    WitnessKeys(ctx);
    WitnessNetworks(ctx);
    var zero := Block(0, 0, 0, 0);
    var one := Block(1, 0, 0, 0);
    assert Whiten(zero, zero) == zero;
    assert Whiten(zero, one) == one;
    assert Whiten(Block(0, 0, 256, 0), one) == Block(1, 0, 256, 0);
  }

  // ---------------------------------------------------------------------
  // The evidently intended whitening.

  /** First whitening with `keys[0..3]` when encrypting and `keys[4..7]`
      when decrypting; the second whitening uses the other group. */
  function CorrectedPreWhitenBase(dir: Direction): int {
    match dir
    case Encrypt => 0
    case Decrypt => 4
  }

  /** `tf_enc` with the first whitening offset corrected; the second
      whitening is as written. */
  function TfEncCorrected(ctx: Context, dir: Direction, blk: Block): Block
    requires ctx.Valid()
  {
    var pre := Whiten(blk, KeyGroup(ctx.keys, CorrectedPreWhitenBase(dir)));
    var post := ToBlock(Network(ctx, dir, ToState(pre)));
    Whiten(post, KeyGroup(ctx.keys, PostWhitenBase(dir)))
  }

  /** With the corrected offset each whitening of one direction is undone by
      the matching whitening of the other, for every key and table. */
  lemma TfEncCorrectedRoundTrip(ctx: Context, dir: Direction, blk: Block)
    requires ctx.Valid()
    ensures TfEncCorrected(ctx, Opposite(dir), TfEncCorrected(ctx, dir, blk)) == blk
  {
    var k1 := KeyGroup(ctx.keys, CorrectedPreWhitenBase(dir));
    var k2 := KeyGroup(ctx.keys, PostWhitenBase(dir));
    assert KeyGroup(ctx.keys, CorrectedPreWhitenBase(Opposite(dir))) == k2;
    assert KeyGroup(ctx.keys, PostWhitenBase(Opposite(dir))) == k1;
    SandwichInverse(ctx, dir, blk, k1, k2);
  }
}
