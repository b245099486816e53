/** The sixteen-round network inside `tf_enc`, without the whitening steps:
    the round body, the key cursor that walks the round keys two at a time,
    and the final reordering of the four words.  The loop skeleton is stated
    for any round function, so that the facts about the cursor and about
    undoing a run of rounds do not depend on what one round computes. */
module Feistel {
  import opened Bits
  import opened Tables
  import opened RoundFunction

  /** The `enc` flag: `TF_ENCRYPT` (1) or `TF_DECRYPT` (0). */
  datatype Direction = Encrypt | Decrypt

  function Opposite(dir: Direction): Direction {
    match dir
    case Encrypt => Decrypt
    case Decrypt => Encrypt
  }

  /** The four working words `A`, `B`, `C`, `D`. */
  datatype State = State(a: bv32, b: bv32, c: bv32, d: bv32)

  /** The two keys one round consumes: the one added into `C` and the one
      added into `D`. */
  datatype RoundKeys = RoundKeys(kc: bv32, kd: bv32)

  /** The two words a round XORs into `C` and `D`: `T0 = round_g(A)` and
      `T1 = round_g(B rotated left by 8)`, the wrapping pseudo-Hadamard step
      `T0 += T1; T1 += T0`, then the round keys added as `T0 + kc` and
      `T1 + kd`. */
  function Offsets(ctx: Context, a: bv32, b: bv32, k: RoundKeys): (bv32, bv32)
    requires ctx.Valid()
  {
    var t0 := RoundG(ctx, a);
    var t1 := RoundG(ctx, Rotl(b, 8));
    var t0' := t0 + t1;
    var t1' := t1 + t0';
    (t0' + k.kc, t1' + k.kd)
  }

  /** `W ^= X; W = (W >> 1) | (W << 31);` */
  function XorRotr(w: bv32, x: bv32): bv32 {
    Rotr(w ^ x, 1)
  }

  /** `W = (W << 1) | (W >> 31); W ^= X;` */
  function RotlXor(w: bv32, x: bv32): bv32 {
    Rotl(w, 1) ^ x
  }

  /** The update of `C` and `D` in one round, given the two words `x` to
      XOR in.  Encryption XORs `x.0` into `C` and rotates it right by one,
      and rotates `D` left by one before XORing `x.1` into it; decryption
      does the mirror-image steps, `D` first.  `A` and `B` are only read. */
  function Mix(dir: Direction, x: (bv32, bv32), s: State): (r: State)
    ensures r.a == s.a && r.b == s.b
  {
    match dir
    case Encrypt => State(s.a, s.b, XorRotr(s.c, x.0), RotlXor(s.d, x.1))
    case Decrypt => State(s.a, s.b, RotlXor(s.c, x.0), XorRotr(s.d, x.1))
  }

  /** The end-of-round exchange of `A` with `C` and of `B` with `D`. */
  function Swap(s: State): State {
    State(s.c, s.d, s.a, s.b)
  }

  /** One iteration of the round loop: the old `A` and `B` move, untouched,
      into `C` and `D`. */
  function Round(ctx: Context, dir: Direction, s: State, k: RoundKeys): (r: State)
    requires ctx.Valid()
    ensures r.c == s.a && r.d == s.b
  {
    Swap(Mix(dir, Offsets(ctx, s.a, s.b, k), s))
  }

  /** The round as a value, for the loop skeleton below. */
  function RoundFn(ctx: Context, dir: Direction): (State, RoundKeys) -> State
    requires ctx.Valid()
  {
    (s, k) => Round(ctx, dir, s, k)
  }

  // ---------------------------------------------------------------------
  // The key cursor.

  /** `keys = &ctx->keys[8]`, moved on by `2 * 14 + 3` when decrypting. */
  function KeyStart(dir: Direction): int {
    match dir
    case Encrypt => 8
    case Decrypt => 8 + 2 * 14 + 3
  }

  /** The cursor can serve `n` more rounds without leaving `keys[0..39]`:
      encryption reads `cur` and `cur + 1` and moves up by two, decryption
      reads `cur` and `cur - 1` and moves down by two. */
  predicate CursorFits(dir: Direction, cur: int, n: nat) {
    match dir
    case Encrypt => 0 <= cur && cur + 2 * n <= 40
    case Decrypt => cur <= 39 && 0 <= cur - 2 * n + 1
  }

  /** Where the cursor stands after one round. */
  function Step(dir: Direction, cur: int): int {
    match dir
    case Encrypt => cur + 2
    case Decrypt => cur - 2
  }

  /** The keys read through the cursor: `*keys++` twice (first for `C`) when
      encrypting, `*keys--` twice (first for `D`) when decrypting. */
  function KeyAt(keys: seq<bv32>, dir: Direction, cur: int): RoundKeys
    requires |keys| == 40 && CursorFits(dir, cur, 1)
  {
    match dir
    case Encrypt => RoundKeys(keys[cur], keys[cur + 1])
    case Decrypt => RoundKeys(keys[cur - 1], keys[cur])
  }

  /** The round loop `for (i = 16; i > 0; i--)`, as `n` rounds left from key
      cursor `cur`, for a given round function. */
  function Rounds(round: (State, RoundKeys) -> State, keys: seq<bv32>, dir: Direction,
                  s: State, cur: int, n: nat): State
    requires |keys| == 40 && CursorFits(dir, cur, n)
    decreases n
  {
    if n == 0 then s
    else Rounds(round, keys, dir, round(s, KeyAt(keys, dir, cur)), Step(dir, cur), n - 1)
  }

  /** The rounds, the `(C, D, A, B)` write-back, and nothing else of
      `tf_enc`.  The write-back undoes the exchange of the last round. */
  function Network(ctx: Context, dir: Direction, s: State): State
    requires ctx.Valid()
  {
    Swap(Rounds(RoundFn(ctx, dir), ctx.keys, dir, s, KeyStart(dir), 16))
  }

  // ---------------------------------------------------------------------
  // Reference: the rounds as a fold over an explicit list of round keys.

  /** The cursor position `r` rounds after `cur`. */
  function Advance(dir: Direction, cur: int, r: nat): int {
    match dir
    case Encrypt => cur + 2 * r
    case Decrypt => cur - 2 * r
  }

  lemma AdvanceFits(dir: Direction, cur: int, n: nat, r: nat)
    requires CursorFits(dir, cur, n) && r < n
    ensures CursorFits(dir, Advance(dir, cur, r), 1)
  {
  }

  /** The round keys the cursor hands out over `n` rounds, in order. */
  function KeysFrom(keys: seq<bv32>, dir: Direction, cur: int, n: nat): seq<RoundKeys>
    requires |keys| == 40 && CursorFits(dir, cur, n)
  {
    seq(n, r requires 0 <= r < n =>
      AdvanceFits(dir, cur, n, r);
      KeyAt(keys, dir, Advance(dir, cur, r)))
  }

  /** The sixteen round keys of one direction. */
  function Schedule(keys: seq<bv32>, dir: Direction): seq<RoundKeys>
    requires |keys| == 40
  {
    KeysFrom(keys, dir, KeyStart(dir), 16)
  }

  /** Rounds applied in turn, one for each entry of `ks`. */
  function Run(round: (State, RoundKeys) -> State, s: State, ks: seq<RoundKeys>): State
    decreases |ks|
  {
    if ks == [] then s
    else Run(round, round(s, ks[0]), ks[1..])
  }

  function Reversed<T>(xs: seq<T>): (r: seq<T>)
    ensures |r| == |xs|
    ensures forall i :: 0 <= i < |xs| ==> r[i] == xs[|xs| - 1 - i]
    decreases |xs|
  {
    if xs == [] then [] else Reversed(xs[1..]) + [xs[0]]
  }

  // ---------------------------------------------------------------------
  // Which keys each round reads.

  /** Encryption round `r` adds `keys[8 + 2r]` into `C` and `keys[9 + 2r]`
      into `D`; decryption round `r` adds `keys[39 - 2r]` into `D` and
      `keys[38 - 2r]` into `C`.  Every index lies in `8..39`. */
  lemma ScheduleIndices(keys: seq<bv32>, r: nat)
    requires |keys| == 40 && r < 16
    ensures |Schedule(keys, Encrypt)| == |Schedule(keys, Decrypt)| == 16
    ensures Schedule(keys, Encrypt)[r] == RoundKeys(keys[8 + 2 * r], keys[9 + 2 * r])
    ensures Schedule(keys, Decrypt)[r] == RoundKeys(keys[38 - 2 * r], keys[39 - 2 * r])
  {
  }

  /** The decryption cursor hands out the encryption round keys in reverse
      order, pair for pair. */
  lemma ScheduleReversed(keys: seq<bv32>)
    requires |keys| == 40
    ensures Schedule(keys, Decrypt) == Reversed(Schedule(keys, Encrypt))
    ensures Schedule(keys, Encrypt) == Reversed(Schedule(keys, Decrypt))
  {
    var e := Schedule(keys, Encrypt);
    var d := Schedule(keys, Decrypt);
    forall r | 0 <= r < 16
      ensures d[r] == e[15 - r]
    {
      ScheduleIndices(keys, r);
      ScheduleIndices(keys, 15 - r);
    }
    assert d == Reversed(e);
    assert e == Reversed(d);
  }

  lemma KeysFromTail(keys: seq<bv32>, dir: Direction, cur: int, n: nat)
    requires |keys| == 40 && CursorFits(dir, cur, n) && n > 0
    ensures KeysFrom(keys, dir, cur, n)[0] == KeyAt(keys, dir, cur)
    ensures KeysFrom(keys, dir, cur, n)[1..] == KeysFrom(keys, dir, Step(dir, cur), n - 1)
  {
    var ks := KeysFrom(keys, dir, cur, n);
    var rest := KeysFrom(keys, dir, Step(dir, cur), n - 1);
    assert Advance(dir, cur, 0) == cur;
    forall r | 0 <= r < n - 1
      ensures ks[1..][r] == rest[r]
    {
      assert Advance(dir, cur, r + 1) == Advance(dir, Step(dir, cur), r);
    }
  }

  /** The cursor-driven loop is the fold over the keys it reads. */
  lemma {:induction false} RoundsFollowKeys(round: (State, RoundKeys) -> State, keys: seq<bv32>,
                                            dir: Direction, s: State, cur: int, n: nat)
    requires |keys| == 40 && CursorFits(dir, cur, n)
    ensures Rounds(round, keys, dir, s, cur, n) == Run(round, s, KeysFrom(keys, dir, cur, n))
    decreases n
  {
    if n > 0 {
      var k := KeyAt(keys, dir, cur);
      KeysFromTail(keys, dir, cur, n);
      RoundsFollowKeys(round, keys, dir, round(s, k), Step(dir, cur), n - 1);
    }
  }

  // ---------------------------------------------------------------------
  // Undoing a run of rounds, for any pair of rounds that undo each other.

  lemma {:induction false} RunAppend(round: (State, RoundKeys) -> State, s: State,
                                     xs: seq<RoundKeys>, ys: seq<RoundKeys>)
    ensures Run(round, s, xs + ys) == Run(round, Run(round, s, xs), ys)
    decreases |xs|
  {
    if xs == [] {
      assert xs + ys == ys;
    } else {
      assert (xs + ys)[0] == xs[0];
      assert (xs + ys)[1..] == xs[1..] + ys;
      RunAppend(round, round(s, xs[0]), xs[1..], ys);
    }
  }

  /** If `back` undoes `forth` one round at a time (up to the exchange of
      halves), then running `back` over the reversed key list undoes a whole
      run of `forth`. */
  lemma {:induction false} RunInverse(forth: (State, RoundKeys) -> State, back: (State, RoundKeys) -> State,
                                      s: State, ks: seq<RoundKeys>)
    requires forall u, k :: back(Swap(forth(u, k)), k) == Swap(u)
    ensures Run(back, Swap(Run(forth, s, ks)), Reversed(ks)) == Swap(s)
    decreases |ks|
  {
    if ks != [] {
      var k := ks[0];
      var s1 := forth(s, k);
      RunInverse(forth, back, s1, ks[1..]);
      assert Reversed(ks) == Reversed(ks[1..]) + [k];
      RunAppend(back, Swap(Run(forth, s, ks)), Reversed(ks[1..]), [k]);
    }
  }

  // ---------------------------------------------------------------------
  // One round is undone by the opposite direction.

  /** Rotating left and XORing in `x` undoes XORing in `x` and rotating
      right, and the other way round. */
  lemma RotlXorUndoesXorRotr(w: bv32, x: bv32)
    ensures RotlXor(XorRotr(w, x), x) == w
  {
    RotateOneInverse(w ^ x);
  }

  lemma XorRotrUndoesRotlXor(w: bv32, x: bv32)
    ensures XorRotr(RotlXor(w, x), x) == w
  {
    XorTwice(Rotl(w, 1), x);
    RotateOneInverse(w);
  }

  /** XORing in the same two words, the opposite direction's update undoes
      this one. */
  lemma MixInverse(dir: Direction, x: (bv32, bv32), s: State)
    ensures Mix(Opposite(dir), x, Mix(dir, x, s)) == s
  {
    match dir
    case Encrypt => EncryptUndone(x, s);
    case Decrypt => DecryptUndone(x, s);
  }

  lemma EncryptUndone(x: (bv32, bv32), s: State)
    ensures Mix(Decrypt, x, Mix(Encrypt, x, s)) == s
  {
    RotlXorUndoesXorRotr(s.c, x.0);
    XorRotrUndoesRotlXor(s.d, x.1);
  }

  lemma DecryptUndone(x: (bv32, bv32), s: State)
    ensures Mix(Encrypt, x, Mix(Decrypt, x, s)) == s
  {
    XorRotrUndoesRotlXor(s.c, x.0);
    RotlXorUndoesXorRotr(s.d, x.1);
  }

  /** One decryption round, fed the state an encryption round produced under
      the same two keys with its halves exchanged back, restores the
      pre-round state with its halves exchanged (and the other way round):
      `T0` and `T1` depend only on `A` and `B`, which the round leaves as
      they were. */
  lemma RoundInverse(ctx: Context, dir: Direction, s: State, k: RoundKeys)
    requires ctx.Valid()
    ensures Round(ctx, Opposite(dir), Swap(Round(ctx, dir, s, k)), k) == Swap(s)
  {
    var x := Offsets(ctx, s.a, s.b, k);
    var m := Mix(dir, x, s);
    assert Swap(Round(ctx, dir, s, k)) == m;
    assert Offsets(ctx, m.a, m.b, k) == x;
    MixInverse(dir, x, s);
  }

  /** The network run in the opposite direction on its own output returns
      the original four words, for every context. */
  lemma NetworkInverse(ctx: Context, dir: Direction, s: State)
    requires ctx.Valid()
    ensures Network(ctx, Opposite(dir), Network(ctx, dir, s)) == s
  {
    var forth := RoundFn(ctx, dir);
    var back := RoundFn(ctx, Opposite(dir));
    var ks := Schedule(ctx.keys, dir);
    var u := Rounds(forth, ctx.keys, dir, s, KeyStart(dir), 16);
    RoundsFollowKeys(forth, ctx.keys, dir, s, KeyStart(dir), 16);
    RoundsFollowKeys(back, ctx.keys, Opposite(dir), Swap(u), KeyStart(Opposite(dir)), 16);
    ScheduleReversed(ctx.keys);
    forall v, k
      ensures back(Swap(forth(v, k)), k) == Swap(v)
    {
      RoundInverse(ctx, dir, v, k);
    }
    RunInverse(forth, back, s, ks);
  }
}
