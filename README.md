# Solana counter program, modelled in Dafny

The program keeps one unsigned 32-bit counter in the data of a Solana account.
Each call to its entry point `process_instructions` carries one
Borsh-encoded `Instruction_data`:

- `Initialize(v)` stores `v`;
- `Increment(v)` adds `v` to the stored value;
- `Decrement(v)` subtracts `v` from it.

The model has four modules:

- `Borsh` (`borsh.dfy`) covers the parts of the Borsh binary format the program uses. A `u8` is one byte. A `u32` is four bytes, little-endian. It also has the reader behind `try_from_slice` and the serializer that writes into a `&mut [u8]`.
- `CounterCodec` (`codec.dfy`) holds the derived encodings of `Instruction_data` and `Counter`, as pure functions over byte sequences. It proves round trips in both directions and says which error each malformed input gets.
- `Processor` (`processor.dfy`) specifies the handler with the pure functions `Execute` and `Process`. `ProcessInstructions` is the handler itself. It is a method that takes a sequence of accounts, each data buffer an `array<Byte>`, and writes the first one in place, as the source does. Its contract ties it to `Process`.
- `CounterProperties` (`properties.dfy`) proves the handler's promises:
  - with no accounts, the call fails first;
  - only the first account is read;
  - a malformed instruction fails with its decode error;
  - `Initialize` overwrites, and re-initializing leaves the second value;
  - `Increment` and `Decrement` use checked arithmetic;
  - the client's 10 → 15 → 12 scenario holds.

Policies:

- **Strict lengths.** Every `try_from_slice` call (lines 30, 37, 43) requires the whole slice to be consumed.
  - An instruction is exactly 5 bytes.
  - `Increment` and `Decrement` need account data of exactly 4 bytes.
  - Too few bytes give `UnexpectedEof`. Extra bytes give `NotAllBytesRead`.
  - The enum tag is checked before its payload is read. So `[3]` fails with `UnexpectedVariantIndex`, not `UnexpectedEof`.
- **`Initialize` writes without reading.** It serializes into the account slice. That overwrites the first 4 bytes and keeps any bytes after them. Data shorter than 4 bytes fails with `WriteZero`.
- **Checked arithmetic.** The source's `+=` and `-=` are unchecked `u32` operations. A build with overflow checks panics; a build without them wraps. The model reports a sum above 2^32 − 1 as `ArithmeticOverflow` and a negative difference as `ArithmeticUnderflow`. Both leave the account unchanged.
- **Errors change nothing.** On every error the account is stated unchanged. The runtime discards the account writes of a failed instruction. That includes a partial write into a too-short slice.
- **In-place update.** The handler writes the account's data buffer in place, and the model does the same (`ProcessInstructions` modifies `accounts[0]`).

## Model

| member | source | states |
|---|---|---|
| `Borsh.LittleEndian` | src/lib.rs:21 | the little-endian encoding of a value in `n` bytes has exactly `n` bytes |
| `Borsh.FromLittleEndian` | src/lib.rs:21 | the number that `n` little-endian bytes denote is below 256 to the power `n` |
| `Borsh.LittleEndianRoundTrip` | src/lib.rs:21 | decoding the `n` little-endian bytes of any value that fits in `n` bytes gives it back |
| `Borsh.FromLittleEndianRoundTrip` | src/lib.rs:21 | re-encoding the number that some bytes denote gives back those bytes |
| `Borsh.EncodeU32` | src/lib.rs:21 | a `u32` is encoded as exactly four bytes |
| `Borsh.DecodeU32` | src/lib.rs:21 | four bytes decode to a `u32` equal to the bytes weighted 1, 256, 65536 and 16777216 |
| `Borsh.U32RoundTrip` | src/lib.rs:21 | decoding the four bytes of any `u32` gives it back |
| `Borsh.U32BytesRoundTrip` | src/lib.rs:21 | any four bytes are the encoding of the value they decode to, so the encoding is a bijection |
| `Borsh.EncodeU32Injective` | src/lib.rs:21 | two `u32` values have the same bytes exactly when they are equal |
| `Borsh.ReadU8` | src/lib.rs:30 | reading the enum tag fails with UnexpectedEof exactly on empty input, and otherwise splits off the first byte |
| `Borsh.ReadU32` | src/lib.rs:37 | reading a `u32` fails with UnexpectedEof exactly when fewer than four bytes remain, and otherwise the value's encoding followed by the rest is the input |
| `Borsh.WriteInto` | src/lib.rs:34 | serializing into a slice fails with WriteZero exactly when the slice is too short, and otherwise overwrites its prefix, keeps its length and keeps its tail |
| `CounterCodec.VariantIndex` | src/lib.rs:12-16 | every variant index is below 3 |
| `CounterCodec.VariantOf` | src/lib.rs:12-16 | tags 0, 1 and 2 select the variant with that index and carry the value; any other tag is UnexpectedVariantIndex |
| `CounterCodec.SerializeInstruction` | src/lib.rs:11-16 | an instruction encodes as 5 bytes: its variant index, then its value as a `u32` |
| `CounterCodec.ReadInstruction` | src/lib.rs:11-30 | the derived enum reader succeeds exactly when at least 5 bytes remain and the tag is below 3, and then the instruction's encoding followed by the rest is the input; empty input and a valid tag with under 5 bytes are UnexpectedEof; a tag of 3 or more is UnexpectedVariantIndex |
| `CounterCodec.InstructionFromSlice` | src/lib.rs:30 | decoding succeeds exactly on 5-byte input whose tag is below 3, and what it decodes re-encodes to the input |
| `CounterCodec.SerializeCounter` | src/lib.rs:19-22 | a counter encodes as exactly four bytes |
| `CounterCodec.CounterFromSlice` | src/lib.rs:37 | decoding succeeds exactly on four bytes and re-encodes to them; shorter input is UnexpectedEof, longer input is NotAllBytesRead |
| `CounterCodec.InstructionRoundTrip` | src/lib.rs:11-16 | decoding an encoded instruction gives it back |
| `CounterCodec.InstructionLayout` | src/lib.rs:12-16 | the first byte is 0 exactly for Initialize, 1 exactly for Increment and 2 exactly for Decrement; the other four bytes are the value's counter encoding |
| `CounterCodec.InstructionDecodeErrors` | src/lib.rs:30 | empty input is UnexpectedEof; a tag of 3 or more is UnexpectedVariantIndex, even on short input; a valid tag with under 5 bytes is UnexpectedEof; a valid tag with over 5 bytes is NotAllBytesRead |
| `CounterCodec.CounterRoundTrip` | src/lib.rs:19-22 | decoding an encoded counter gives it back |
| `CounterCodec.CounterLittleEndian` | src/lib.rs:19-22 | a counter's value is its four bytes weighted 1, 256, 65536 and 16777216 |
| `Processor.Store` | src/lib.rs:33-34 | writing a counter into account data fails with WriteZero exactly when the data is under four bytes; otherwise the length and the bytes after the counter are kept, and the first four bytes decode to the counter |
| `Processor.Execute` | src/lib.rs:31-48 | a successful instruction needs at least four bytes of data, keeps its length, and changes nothing after the first four bytes |
| `Processor.Process` | src/lib.rs:29-48 | success needs at least one account, and the new data has the first account's length |
| `Processor.WriteCounter` | src/lib.rs:34 | the in-place serialize into the account buffer succeeds exactly when `Store` does and leaves the buffer as `Store` says; on failure the buffer is unchanged |
| `Processor.ProcessInstructions` | src/lib.rs:24-51 | the handler fails exactly when `Process` fails, with the same error; on success the first account's buffer holds `Process`'s result; on any error it is unchanged; no other account is modified |
| `CounterProperties.NoAccountsFailsFirst` | src/lib.rs:29 | with no accounts the result is NotEnoughAccountKeys, whatever the instruction data |
| `CounterProperties.OnlyFirstAccountRead` | src/lib.rs:29 | accounts after the first never change the outcome |
| `CounterProperties.MalformedInstructionFails` | src/lib.rs:30 | instruction data that is not 5 bytes, or has a tag of 3 or more, fails with its decode error before the account is used |
| `CounterProperties.EncodedInstructionExecutes` | src/lib.rs:30-31 | an encoded instruction is dispatched as that same instruction |
| `CounterProperties.InitializeSets` | src/lib.rs:32-35 | Initialize(v) on four-byte data leaves exactly the encoding of `v`, and it decodes to `v` whatever the data held |
| `CounterProperties.InitializeIgnoresOldValue` | src/lib.rs:32-35 | Initialize does not depend on the old counter bytes; data under four bytes fails with WriteZero |
| `CounterProperties.ReinitializeOverwrites` | src/lib.rs:32-35 | Initialize(a) then Initialize(b) leaves the same data as Initialize(b) alone |
| `CounterProperties.IncrementAdds` | src/lib.rs:36-41 | on data holding `c`, Increment(v) leaves `c + v` when that is at most 2^32 − 1; it fails with ArithmeticOverflow exactly when the sum is larger |
| `CounterProperties.DecrementSubtracts` | src/lib.rs:42-47 | on data holding `c`, Decrement(v) leaves `c - v` when `v <= c`; it fails with ArithmeticUnderflow exactly when `v > c` |
| `CounterProperties.ArithmeticNeedsCounterSize` | src/lib.rs:37-43 | Increment and Decrement on data that is not four bytes fail to decode it: shorter data is UnexpectedEof, longer data is NotAllBytesRead |
| `CounterProperties.IncrementThenDecrement` | src/lib.rs:36-47 | Increment(v) then Decrement(v) restores the account when the increment does not overflow |
| `CounterProperties.CheckedArithmeticExamples` | src/lib.rs:38-44 | 2^32 − 1 plus 1 is ArithmeticOverflow, and 2 minus 5 is ArithmeticUnderflow |
| `CounterProperties.ClientInstructionBytes` | client/index.test.ts:53-58 | the client's Initialize(10), Increment(5) and Decrement(3) are `[0,10,0,0,0]`, `[1,5,0,0,0]` and `[2,3,0,0,0]` |
| `CounterProperties.ClientScenario` | client/index.test.ts:79-145 | on a zero-filled four-byte account, calling the handler with Initialize(10), Increment(5) and Decrement(3) leaves 10, 15 and 12 |

## Left out

- Process-level errors are modelled by kind only. The runtime's error codes and the text of Borsh's `io::Error` messages are not modelled.
- The `msg!` log lines are not modelled; they are only side effects.
- The entry-point wiring is not modelled: the `entrypoint!` macro, the unused program id, and the `AccountInfo`/`RefCell` borrow mechanics. Account data is a plain byte array. The source has no owner or signer checks, so the model has none.
- ProcessInstructions: Rust's wrap-around arithmetic in builds without overflow checks is not modelled. The model uses the checked reading, described above.
- WriteCounter, ProcessInstructions: a failed call's partial write into a too-short buffer is not modelled, because the runtime discards it. The model leaves the buffer unchanged on every error.
- Duplicate account entries that share one data buffer are not modelled specially. The method's frame allows writes to the first account's buffer only.
- The TypeScript client is not modelled: the devnet connection, the airdrop, account creation and sending transactions. It serves only as evidence for the variant order, the 4-byte account and the 10 → 15 → 12 scenario.
- The client's borsh-js schemas are not modelled, including the `field: "enum"` key and the optional-field `Instruction` class. They depend on a library not included here.
- client/types.ts is not part of this model. It only wraps borsh-js to compute the 4-byte account size.
