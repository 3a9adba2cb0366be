/** The derived Borsh encodings of the program's two types: the instruction
    enum (a one-byte variant index in declaration order, then the variant's
    `u32`) and the `Counter` account struct (its one `u32` field). */
module CounterCodec {
  import opened Borsh

  /** `Instruction_data`: exactly one variant, each carrying a `u32`. */
  datatype Instruction =
    | Initialize(value: U32)
    | Increment(value: U32)
    | Decrement(value: U32)

  /** `Counter`: the account state. */
  datatype Counter = Counter(data: U32)

  const InstructionSize: nat := 5
  const CounterSize: nat := 4

  /** The variant index Borsh derives from declaration order. */
  function VariantIndex(ins: Instruction): (tag: Byte)
    ensures tag < 3
  {
    match ins
    case Initialize(_) => 0
    case Increment(_) => 1
    case Decrement(_) => 2
  }

  /** The variant with index `tag`, carrying `v`; no variant for `tag >= 3`. */
  function VariantOf(tag: Byte, v: U32): (r: Result<Instruction, IoError>)
    ensures r.Ok? <==> tag < 3
    ensures r.Ok? ==> VariantIndex(r.value) == tag && r.value.value == v
    ensures r.Err? ==> r.error == UnexpectedVariantIndex(tag)
  {
    if tag == 0 then Ok(Initialize(v))
    else if tag == 1 then Ok(Increment(v))
    else if tag == 2 then Ok(Decrement(v))
    else Err(UnexpectedVariantIndex(tag))
  }

  function SerializeInstruction(ins: Instruction): (bs: seq<Byte>)
    ensures |bs| == InstructionSize
    ensures bs[0] == VariantIndex(ins) && bs[1..] == EncodeU32(ins.value)
  {
    [VariantIndex(ins)] + EncodeU32(ins.value)
  }

  /** Borsh's enum reader: the tag is read and checked before the payload. */
  function ReadInstruction(input: seq<Byte>): (r: Result<(Instruction, seq<Byte>), IoError>)
    ensures r.Ok? <==> |input| >= InstructionSize && input[0] < 3
    ensures r.Ok? ==> SerializeInstruction(r.value.0) + r.value.1 == input
    ensures input == [] ==> r == Err(UnexpectedEof)
    ensures input != [] && input[0] >= 3 ==> r == Err(UnexpectedVariantIndex(input[0]))
    ensures input != [] && input[0] < 3 && |input| < InstructionSize ==> r == Err(UnexpectedEof)
  {
    match ReadU8(input)
    case Err(e) => Err(e)
    case Ok((tag, rest)) =>
      if tag >= 3 then Err(UnexpectedVariantIndex(tag))
      else
        match ReadU32(rest)
        case Err(e) => Err(e)
        case Ok((v, rest')) => Ok((VariantOf(tag, v).value, rest'))
  }

  /** `Instruction_data::try_from_slice`: the whole slice must be one instruction. */
  function InstructionFromSlice(input: seq<Byte>): (r: Result<Instruction, IoError>)
    ensures r.Ok? <==> |input| == InstructionSize && input[0] < 3
    ensures r.Ok? ==> SerializeInstruction(r.value) == input
  {
    match ReadInstruction(input)
    case Err(e) => Err(e)
    case Ok((ins, rest)) => if rest == [] then Ok(ins) else Err(NotAllBytesRead)
  }

  function SerializeCounter(c: Counter): (bs: seq<Byte>)
    ensures |bs| == CounterSize
  {
    EncodeU32(c.data)
  }

  /** `Counter::try_from_slice`: the whole slice must be one counter. */
  function CounterFromSlice(input: seq<Byte>): (r: Result<Counter, IoError>)
    ensures r.Ok? <==> |input| == CounterSize
    ensures r.Ok? ==> SerializeCounter(r.value) == input
    ensures r.Err? ==> r.error == (if |input| < CounterSize then UnexpectedEof else NotAllBytesRead)
  {
    match ReadU32(input)
    case Err(e) => Err(e)
    case Ok((v, rest)) => if rest == [] then Ok(Counter(v)) else Err(NotAllBytesRead)
  }

  /** Decoding an encoded instruction gives it back. */
  lemma InstructionRoundTrip(ins: Instruction)
    ensures InstructionFromSlice(SerializeInstruction(ins)) == Ok(ins)
  {
    var bs := SerializeInstruction(ins);
    assert bs[1..] == EncodeU32(ins.value);
    U32RoundTrip(ins.value);
  }

  /** An encoded instruction is its variant index, 0 for Initialize, 1 for
      Increment and 2 for Decrement, followed by the same four bytes that
      encode a counter holding its value. */
  lemma InstructionLayout(ins: Instruction)
    ensures SerializeInstruction(ins)[1..] == SerializeCounter(Counter(ins.value))
    ensures ins.Initialize? <==> SerializeInstruction(ins)[0] == 0
    ensures ins.Increment? <==> SerializeInstruction(ins)[0] == 1
    ensures ins.Decrement? <==> SerializeInstruction(ins)[0] == 2
  {
  }

  /** Which error `try_from_slice` reports for each malformed instruction. */
  lemma InstructionDecodeErrors(input: seq<Byte>)
    ensures |input| == 0 ==> InstructionFromSlice(input) == Err(UnexpectedEof)
    ensures |input| > 0 && input[0] >= 3 ==>
      InstructionFromSlice(input) == Err(UnexpectedVariantIndex(input[0]))
    ensures 0 < |input| < InstructionSize && input[0] < 3 ==> InstructionFromSlice(input) == Err(UnexpectedEof)
    ensures |input| > InstructionSize && input[0] < 3 ==> InstructionFromSlice(input) == Err(NotAllBytesRead)
  {
  }

  /** Decoding a counter's encoding gives it back. */
  lemma CounterRoundTrip(c: Counter)
    ensures CounterFromSlice(SerializeCounter(c)) == Ok(c)
  {
    U32RoundTrip(c.data);
  }

  /** The counter's four bytes are its value in little-endian order: byte `i`
      carries weight 256 to the power `i`. */
  lemma CounterLittleEndian(c: Counter)
    ensures var bs := SerializeCounter(c);
      c.data == bs[0] as int + 0x100 * (bs[1] as int) + 0x1_0000 * (bs[2] as int) + 0x100_0000 * (bs[3] as int)
  {
    U32RoundTrip(c.data);
  }
}
