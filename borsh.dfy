/** The fragment of the Borsh binary format that the counter program derives
    for its two types: a one-byte `u8`, a four-byte little-endian `u32`, and the
    reader discipline of `try_from_slice`, which fails on short input and on
    bytes left over after the value. */
module Borsh {

  type Byte = x: int | 0 <= x < 0x100
  type U32 = x: int | 0 <= x <= MaxU32

  const MaxU32: int := 0xFFFF_FFFF

  datatype Result<+T, +E> = Ok(value: T) | Err(error: E)

  /** The causes of Borsh read and write failures. */
  datatype IoError =
    | UnexpectedEof                     // the input ended inside a value
    | UnexpectedVariantIndex(tag: Byte)  // an enum tag with no variant
    | NotAllBytesRead                   // try_from_slice found bytes after the value
    | WriteZero                         // the output slice is too short for the value

  /** 256 to the power `n`: one more than the largest value `n` bytes hold. */
  function Pow256(n: nat): (p: nat)
    ensures p > 0
  {
    if n == 0 then 1 else 0x100 * Pow256(n - 1)
  }

  /** The `n` low-order bytes of `v`, least significant first. */
  function LittleEndian(v: nat, n: nat): (bs: seq<Byte>)
    ensures |bs| == n
  {
    if n == 0 then [] else [v % 0x100] + LittleEndian(v / 0x100, n - 1)
  }

  /** The number whose bytes, least significant first, are `bs`. */
  function FromLittleEndian(bs: seq<Byte>): (v: nat)
    ensures v < Pow256(|bs|)
  {
    if bs == [] then 0 else bs[0] + 0x100 * FromLittleEndian(bs[1..])
  }

  /** Any value that fits in `n` bytes is given back by its `n` bytes. */
  lemma {:induction false} LittleEndianRoundTrip(v: nat, n: nat)
    requires v < Pow256(n)
    ensures FromLittleEndian(LittleEndian(v, n)) == v
  {
    if n > 0 {
      LittleEndianRoundTrip(v / 0x100, n - 1);
      assert LittleEndian(v, n)[1..] == LittleEndian(v / 0x100, n - 1);
    }
  }

  /** Any bytes are the encoding of the number they denote. */
  lemma {:induction false} FromLittleEndianRoundTrip(bs: seq<Byte>)
    ensures LittleEndian(FromLittleEndian(bs), |bs|) == bs
  {
    if bs != [] {
      FromLittleEndianRoundTrip(bs[1..]);
      var v := FromLittleEndian(bs);
      assert v % 0x100 == bs[0] && v / 0x100 == FromLittleEndian(bs[1..]);
    }
  }

  /** The four little-endian bytes of a `u32` (`u32::to_le_bytes`). */
  function EncodeU32(v: U32): (bs: seq<Byte>)
    ensures |bs| == 4
  {
    LittleEndian(v, 4)
  }

  /** The `u32` whose little-endian bytes are `bs` (`u32::from_le_bytes`). */
  function DecodeU32(bs: seq<Byte>): (v: U32)
    requires |bs| == 4
    ensures v == bs[0] as int + 0x100 * (bs[1] as int) + 0x1_0000 * (bs[2] as int) + 0x100_0000 * (bs[3] as int)
  {
    assert Pow256(4) == MaxU32 + 1;
    assert FromLittleEndian(bs[3..]) == bs[3] by { assert bs[3..][1..] == []; }
    assert FromLittleEndian(bs[2..]) == bs[2] + 0x100 * FromLittleEndian(bs[3..]) by { assert bs[2..][1..] == bs[3..]; }
    assert FromLittleEndian(bs[1..]) == bs[1] + 0x100 * FromLittleEndian(bs[2..]) by { assert bs[1..][1..] == bs[2..]; }
    FromLittleEndian(bs)
  }

  lemma U32RoundTrip(v: U32)
    ensures DecodeU32(EncodeU32(v)) == v
  {
    assert Pow256(4) == MaxU32 + 1;
    LittleEndianRoundTrip(v, 4);
  }

  /** Every four-byte sequence is the encoding of exactly one `u32`. */
  lemma U32BytesRoundTrip(bs: seq<Byte>)
    requires |bs| == 4
    ensures EncodeU32(DecodeU32(bs)) == bs
  {
    FromLittleEndianRoundTrip(bs);
  }

  /** Distinct values have distinct encodings. */
  lemma EncodeU32Injective(v: U32, w: U32)
    ensures EncodeU32(v) == EncodeU32(w) <==> v == w
  {
    if EncodeU32(v) == EncodeU32(w) {
      U32RoundTrip(v);
      U32RoundTrip(w);
    }
  }

  /** Borsh's reader for `u32`: the value and the bytes after it. */
  function ReadU32(input: seq<Byte>): (r: Result<(U32, seq<Byte>), IoError>)
    ensures r.Err? <==> |input| < 4
    ensures r.Err? ==> r.error == UnexpectedEof
    ensures r.Ok? ==> EncodeU32(r.value.0) + r.value.1 == input
  {
    if |input| < 4 then Err(UnexpectedEof)
    else
      U32BytesRoundTrip(input[..4]);
      Ok((DecodeU32(input[..4]), input[4..]))
  }

  /** Borsh's reader for `u8`: the byte and the bytes after it. */
  function ReadU8(input: seq<Byte>): (r: Result<(Byte, seq<Byte>), IoError>)
    ensures r.Err? <==> input == []
    ensures r.Err? ==> r.error == UnexpectedEof
    ensures r.Ok? ==> [r.value.0] + r.value.1 == input
  {
    if input == [] then Err(UnexpectedEof) else Ok((input[0], input[1..]))
  }

  /** Borsh serialization into a `&mut [u8]`: the value's bytes overwrite the
      front of the slice and the rest of it is kept; a slice shorter than the
      value fails with WriteZero. */
  function WriteInto(dest: seq<Byte>, bytes: seq<Byte>): (r: Result<seq<Byte>, IoError>)
    ensures r.Err? <==> |dest| < |bytes|
    ensures r.Err? ==> r.error == WriteZero
    ensures r.Ok? ==> |r.value| == |dest| && r.value[..|bytes|] == bytes && r.value[|bytes|..] == dest[|bytes|..]
  {
    if |dest| < |bytes| then Err(WriteZero) else Ok(bytes + dest[|bytes|..])
  }
}
