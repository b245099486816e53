# A Dafny model of the TWOFISH-ALGO block transform

`main.c` is a small, self-described "Twofish" program. It reads a key,
reads lines of text, pads each line to a multiple of 16 bytes and encrypts
it block by block with `tf_enc`. This project models the computational
core of that file as pure Dafny functions and proves properties of it:

- `whiten`: XOR of a 128-bit block with four key words.
- `mds`: the "MDS" diffusion step, as its code is actually written.
- `round_g`: four table lookups folded into one word, then `mds`.
- `tf_enc`: the 16-round Feistel network for both values of `enc`, with its
  key cursor, plus the whitening before and after it.
- `pad_data`: PKCS#7-style padding, as in section 6.3 of RFC 5652.

The model follows the C code, not the published Twofish cipher the program
is named after. Where the two differ, the model keeps the code's behaviour:

- In Twofish, the MDS step is a GF(2^8) matrix product with one output byte
  per row. The code's `mds` XORs all sixteen byte products into ONE
  accumulator. Its reduction test `x0 > (x0 ^ 0x169)` can never fire for a
  byte `x0`. So every product is the low byte of a carry-less product, `mds`
  is the XOR of those sixteen bytes, and it always returns a value below 256.
- Twofish's key-dependent S-boxes map bytes through four tables. The code
  reads single bytes `sbox[x & 0xFF]`, so only the first 256 bytes of the
  table matter.
- In Twofish, decryption whitens first with the output-whitening keys and
  last with the input-whitening keys, so it always undoes encryption. In the
  code, pre-whitening uses `keys[enc * 4]` and post-whitening uses
  `keys[enc == TF_DECRYPT ? 0 : 4]`. Encryption therefore whitens twice with
  `keys[4..7]`, and decryption twice with `keys[0..3]`. The round trip holds
  whenever those two groups agree. That condition is sufficient but not
  necessary, and the round trip can fail when the groups differ; see Findings.
- `main` reads each line with `fgets` into a 64-byte buffer, so a line has
  at most 63 characters. Padding rounds that up to at most 64, so the padded
  line always fits the buffer.

Modules, one per concern:

- `Bits` (`bits.dfy`): 32-bit rotations.
- `Mds` (`mds.dfy`): `mds`.
- `Tables` (`tables.dfy`): the context `tf_ctx`, with 40 key words and the
  byte table.
- `RoundFunction` (`round_g.dfy`): `round_g`.
- `Feistel` (`feistel.dfy`): the round loop of `tf_enc`, written once over any
  round function.
- `Cipher` (`cipher.dfy`): whitening and the whole of `tf_enc`, including
  the counterexample and the corrected variant.
- `Padding` (`padding.dfy`): `pad_data`.

C's `uint32_t` arithmetic is `bv32`, whose `+` wraps the same way. The
`enc` flag is a two-valued `Direction`: `TF_ENCRYPT` is 1 and `TF_DECRYPT`
is 0.

## Model

| member | source | states |
|---|---|---|
| Mds.ReductionNeverFires | main.c:45-46 | for every byte `x0` the reduction test is false, so the reduction leaves `x0` unchanged |
| Mds.MulByteProduct | main.c:42-51 | the `while (y)` loop XORs exactly the low byte of the carry-less product of the coefficient and `y` into the accumulator, matching an independent recursive definition |
| Mds.MdsRow | main.c:41-52 | one row's inner loop keeps an accumulator that is below 256 below 256 |
| Mds.Mds | main.c:30-55 | the result of `mds` is always below 256: all sixteen products land in the same low byte; its value is stated by `Mds.MdsProducts` |
| Mds.MdsProducts | main.c:30-55 | `mds(w)` equals the XOR of the sixteen carry-less products `matrix[i][j] * x[j]`, each kept to one byte, an independent reference definition |
| Mds.MdsRowProducts | main.c:41-52 | the inner `for (j ...)` loop of row `i` XORs exactly that row's remaining products into the accumulator |
| Mds.MdsRowsProducts | main.c:40-53 | the outer `for (i ...)` loop XORs exactly the remaining rows' products into the accumulator |
| Mds.MdsZero | main.c:37-54 | `mds(0) == 0`: every byte of a zero word skips its loop |
| RoundFunction.Fold | main.c:62 | one fold step discards the low byte of `x` and keeps `x >> 16` above the new low byte |
| RoundFunction.Substitute | main.c:58-63 | after the four folds only a single byte remains |
| RoundFunction.RoundG | main.c:57-66 | `round_g` always returns a value below 256 |
| RoundFunction.RoundGReadsLowTable | main.c:61-63 | two contexts whose tables agree on the first 256 bytes give the same `round_g` |
| RoundFunction.RoundGZeroTable | main.c:57-66 | with a table whose first 256 bytes are zero, `round_g` is zero for every word |
| Feistel.Mix | main.c:88-97 | a round changes only `C` and `D`; `A` and `B` are unchanged in both directions |
| Feistel.Round | main.c:82-105 | after the swap, the new `C` and `D` are the old `A` and `B` |
| Feistel.MixInverse | main.c:88-97 | the decrypt update of `C`, `D` undoes the encrypt update for the same offsets, and back |
| Feistel.RoundInverse | main.c:82-105 | one round in the opposite direction, applied to the swapped output with the same round keys, gives back the swapped input |
| Feistel.ScheduleIndices | main.c:76-97 | encryption round `r` uses `keys[8 + 2r]`, `keys[9 + 2r]`; decryption round `r` uses `keys[38 - 2r]`, `keys[39 - 2r]` |
| Feistel.ScheduleReversed | main.c:76-97 | the decryption key cursor visits the encryption round keys in reverse order, and back |
| Feistel.RoundsFollowKeys | main.c:76-106 | the cursor loop equals folding the round over the list of round keys the cursor visits |
| Feistel.RunInverse | main.c:81-106 | for any round that its partner round undoes, running the partner over the reversed keys undoes a run |
| Feistel.NetworkInverse | main.c:71-111 | the 16-round network with its final exchange is inverted by the network in the opposite direction, for every context |
| Cipher.WhitenTwice | main.c:24-28 | whitening twice with the same four key words gives back the block |
| Cipher.KeyGroupEqual | main.c:69 | the four-word key record read through `&ctx->keys[base]` is the same for two bases exactly when the key slices are equal |
| Cipher.SameWhitening | main.c:69-113 | whitening through `&keys[base]` and through `&keys[base']` agree on every block exactly when the four keys at the two bases are equal |
| Cipher.WhiteningKeys | main.c:69-113 | both directions whiten before and after with the SAME key group: `keys[4..7]` for encryption and `keys[0..3]` for decryption |
| Cipher.TfEncRoundTrip | main.c:68-114 | decryption undoes encryption, and back, whenever `keys[0..3] == keys[4..7]` |
| Cipher.WhiteningMismatchCounterexample | main.c:68-114 | for a concrete context, decrypting the encryption of the zero block does not give the zero block |
| Cipher.TfEncCorrectedRoundTrip | main.c:68-114 | with pre-whitening from `keys[0..3]` for encryption and `keys[4..7]` for decryption, the round trip holds for every context |
| Padding.PadLength | main.c:127 | the pad count is between 1 and 16 and brings the length to a multiple of 16 |
| Padding.PadLengthUnique | main.c:127 | no other count between 1 and 16 does so |
| Padding.PadData | main.c:126-132 | the new length is the next multiple of 16 above `len`; the added bytes all hold the pad count; the bytes before and after are unchanged; stripping by the last byte gives back the original text |
| Padding.PadFitsLineBuffer | main.c:165-172 | a line of at most 63 characters still fits the 64-byte buffer after padding |

## Left out

- `main`: the key prompt, file I/O, `fgets`/`strlen`, the block loop and `fwrite` are I/O and are not modelled. Only the buffer bound they imply is stated, in `Padding.PadFitsLineBuffer`.
- `tf_init` and `tf_setkey` have empty bodies, so the context is left arbitrary: any 40 key words and any 1024-byte table.
- `qbox` is never read by the core and is not modelled. Table bytes past index 255 are in the model but are never read.
- The `tf_blk` union's byte view, byte order and `memcpy`/`memset` are not modelled. A block is four 32-bit words.
- `enc` values other than 0 and 1 read key words outside `keys[40]`. They are not modelled; `Direction` has exactly two values.
- `Padding.PadData`: `size_t` wrap-around of `*len + padding` is not modelled, because lengths are unbounded naturals. The buffer is required to hold `len + padding` bytes, as the caller guarantees.
- Equivalence with the published Twofish cipher is not claimed: the code's `mds`, `round_g` and key handling differ from it.
- `Padding.PadData` keeps the bytes as a `Byte` type of range 0..255 rather than `char`, because the pad count is at most 16 and fits either way.

## Findings

| source | as written | input that shows it | evidently intended | confidence | as-written member | corrected member |
|---|---|---|---|---|---|---|
| main.c:69 | pre-whitening uses `&ctx->keys[enc * 4]`, the same group that post-whitening at line 113 uses for that direction, so decryption does not always undo encryption | table bytes 0..255 all zero, `keys[0] = 1`, all other keys 0, zero block: encryption gives the zero block, and decrypting it gives `(1, 0, 256, 0)` | pre-whitening with `keys[enc == TF_ENCRYPT ? 0 : 4]`, the opposite group to post-whitening | not executed | Cipher.WhiteningMismatchCounterexample | Cipher.TfEncCorrectedRoundTrip |
