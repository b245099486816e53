/** `pad_data`: PKCS#7-style padding (section 6.3 of RFC 5652) of a text
    buffer to a multiple of the 16-byte block size, in place. */
module Padding {

  /** `uint8_t`. */
  newtype Byte = x: int | 0 <= x < 256

  const BlockSize: nat := 16

  /** `16 - (*len % 16)`: between 1 and 16 bytes, enough to reach the next
      multiple of 16; a length that is already a multiple gets a whole
      block. */
  function PadLength(len: nat): (p: nat)
    ensures 1 <= p <= BlockSize
    ensures (len + p) % BlockSize == 0
  {
    BlockSize - len % BlockSize
  }

  /** No other count between 1 and 16 reaches a multiple of 16. */
  lemma PadLengthUnique(len: nat, q: nat)
    requires 1 <= q <= BlockSize && (len + q) % BlockSize == 0
    ensures q == PadLength(len)
  {
  }

  /** The receiving side of the format: the last byte says how many bytes
      to drop. */
  function Strip(s: seq<Byte>): seq<Byte>
    requires |s| > 0 && s[|s| - 1] as int <= |s|
  {
    s[..|s| - s[|s| - 1] as int]
  }

  /** `out` is `data` with bytes `len .. len + p - 1` set to `p`. */
  predicate PaddedFrom(data: seq<Byte>, out: seq<Byte>, len: nat, p: nat)
    requires len + p <= |data| && p < 256
  {
    && |out| == |data|
    && (forall j :: 0 <= j < len ==> out[j] == data[j])
    && (forall j :: len <= j < len + p ==> out[j] == p as Byte)
    && (forall j :: len + p <= j < |data| ==> out[j] == data[j])
  }

  lemma PaddedSlices(data: seq<Byte>, out: seq<Byte>, len: nat, p: nat)
    requires len + p <= |data| && 0 < p < 256 && PaddedFrom(data, out, len, p)
    ensures out[..len] == data[..len]
    ensures out[len + p..] == data[len + p..]
    ensures Strip(out[..len + p]) == data[..len]
  {
    var head := out[..len + p];
    assert head[len + p - 1] == p as Byte;
    assert head[..len] == out[..len];
  }

  /** `pad_data(data, &len)` on a buffer of at least `len + p` bytes: bytes
      `len .. len + p - 1` are set to `p`, everything else is left alone, and
      the new length is returned. */
  method PadData(data: seq<Byte>, len: nat) returns (out: seq<Byte>, newLen: nat)
    requires len + PadLength(len) <= |data|
    ensures |out| == |data|
    ensures newLen == len + PadLength(len)
    ensures newLen % BlockSize == 0 && len < newLen <= len + BlockSize
    ensures forall j :: len <= j < newLen ==> out[j] as int == newLen - len
    ensures out[..len] == data[..len]
    ensures out[newLen..] == data[newLen..]
    ensures Strip(out[..newLen]) == data[..len]
  {
    var padding := BlockSize - len % BlockSize;
    out := data;
    var i := len;
    while i < len + padding
      invariant len <= i <= len + padding
      invariant |out| == |data|
      invariant forall j :: len <= j < i ==> out[j] == padding as Byte
      invariant forall j :: 0 <= j < len ==> out[j] == data[j]
      invariant forall j :: i <= j < |data| ==> out[j] == data[j]
    {
      out := out[i := padding as Byte];
      i := i + 1;
    }
    newLen := len + padding;
    PaddedSlices(data, out, len, padding);
  }

  /** `main` reads lines with `fgets` into a 64-byte buffer, so a line has at
      most 63 characters, and the padded line still fits in the buffer. */
  lemma PadFitsLineBuffer(len: nat)
    requires len <= 63
    ensures len + PadLength(len) <= 64
  {
  }
}
