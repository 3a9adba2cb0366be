/** What `process_instructions` promises about the counter account, stated on
    its specification `Process`/`Execute` and, for the client's three-step
    scenario, on the in-place method itself. */
module CounterProperties {
  import opened Borsh
  import opened CounterCodec
  import opened Processor

  /** With no accounts the call fails before the instruction data is looked at. */
  lemma NoAccountsFailsFirst(instructionData: seq<Byte>)
    ensures Process([], instructionData) == Err(NotEnoughAccountKeys)
  {
  }

  /** Only the first account is read: the others never change the outcome. */
  lemma OnlyFirstAccountRead(accounts: seq<seq<Byte>>, others: seq<seq<Byte>>, instructionData: seq<Byte>)
    requires |accounts| > 0
    ensures Process(accounts, instructionData) == Process([accounts[0]] + others, instructionData)
  {
  }

  /** Instruction data that is not exactly one instruction fails with the
      decode error, whatever the account holds. */
  lemma MalformedInstructionFails(accounts: seq<seq<Byte>>, instructionData: seq<Byte>)
    requires |accounts| > 0
    requires |instructionData| != InstructionSize || instructionData[0] >= 3
    ensures InstructionFromSlice(instructionData).Err?
    ensures Process(accounts, instructionData) == Err(BorshIoError(InstructionFromSlice(instructionData).error))
  {
  }

  /** A well-formed instruction reaches the account exactly as it was encoded. */
  lemma EncodedInstructionExecutes(accounts: seq<seq<Byte>>, ins: Instruction)
    requires |accounts| > 0
    ensures Process(accounts, SerializeInstruction(ins)) == Execute(accounts[0], ins)
  {
    InstructionRoundTrip(ins);
  }

  /** Initialize on a four-byte account leaves it holding `v`, whatever it held. */
  lemma InitializeSets(account: seq<Byte>, v: U32)
    requires |account| == CounterSize
    ensures Execute(account, Initialize(v)) == Ok(SerializeCounter(Counter(v)))
    ensures CounterFromSlice(Execute(account, Initialize(v)).value) == Ok(Counter(v))
  {
  }

  /** Initialize never reads the counter bytes: accounts that differ only there
      end up the same; one too short for a counter fails to be written. */
  lemma InitializeIgnoresOldValue(a1: seq<Byte>, a2: seq<Byte>, v: U32)
    requires |a1| == |a2|
    requires |a1| >= CounterSize ==> a1[CounterSize..] == a2[CounterSize..]
    ensures Execute(a1, Initialize(v)) == Execute(a2, Initialize(v))
    ensures |a1| < CounterSize ==> Execute(a1, Initialize(v)) == Err(BorshIoError(WriteZero))
  {
  }

  /** Re-initializing overwrites: Initialize(a) then Initialize(b) leaves what
      Initialize(b) alone leaves. */
  lemma ReinitializeOverwrites(account: seq<Byte>, a: U32, b: U32)
    requires Execute(account, Initialize(a)).Ok?
    ensures Execute(Execute(account, Initialize(a)).value, Initialize(b)) == Execute(account, Initialize(b))
  {
  }

  /** Increment on an account holding `c` leaves `c + v`, or fails with
      ArithmeticOverflow when that exceeds MaxU32. */
  lemma IncrementAdds(account: seq<Byte>, c: U32, v: U32)
    requires CounterFromSlice(account) == Ok(Counter(c))
    ensures c + v <= MaxU32 ==> Execute(account, Increment(v)) == Ok(SerializeCounter(Counter(c + v)))
    ensures c + v <= MaxU32 ==> CounterFromSlice(Execute(account, Increment(v)).value) == Ok(Counter(c + v))
    ensures c + v > MaxU32 <==> Execute(account, Increment(v)) == Err(ArithmeticOverflow)
  {
  }

  /** Decrement on an account holding `c` leaves `c - v`, or fails with
      ArithmeticUnderflow when `v > c`. */
  lemma DecrementSubtracts(account: seq<Byte>, c: U32, v: U32)
    requires CounterFromSlice(account) == Ok(Counter(c))
    ensures v <= c ==> Execute(account, Decrement(v)) == Ok(SerializeCounter(Counter(c - v)))
    ensures v <= c ==> CounterFromSlice(Execute(account, Decrement(v)).value) == Ok(Counter(c - v))
    ensures v > c <==> Execute(account, Decrement(v)) == Err(ArithmeticUnderflow)
  {
  }

  /** Increment and Decrement read the account as a whole counter, so data of
      any length but four fails to decode. */
  lemma ArithmeticNeedsCounterSize(account: seq<Byte>, v: U32)
    requires |account| != CounterSize
    ensures var e := BorshIoError(if |account| < CounterSize then UnexpectedEof else NotAllBytesRead);
      Execute(account, Increment(v)) == Err(e) && Execute(account, Decrement(v)) == Err(e)
  {
  }

  /** Increment then Decrement by the same amount restores the account,
      unless the increment overflows. */
  lemma IncrementThenDecrement(account: seq<Byte>, c: U32, v: U32)
    requires CounterFromSlice(account) == Ok(Counter(c))
    requires c + v <= MaxU32
    ensures Execute(Execute(account, Increment(v)).value, Decrement(v)) == Ok(account)
  {
  }

  /** Sums past MaxU32 and differences below zero fail instead of wrapping. */
  lemma CheckedArithmeticExamples()
    ensures Execute([0xFF, 0xFF, 0xFF, 0xFF], Increment(1)) == Err(ArithmeticOverflow)
    ensures Execute([2, 0, 0, 0], Decrement(5)) == Err(ArithmeticUnderflow)
  {
  }

  /** The wire bytes of the client's three instructions. */
  lemma ClientInstructionBytes()
    ensures SerializeInstruction(Initialize(10)) == [0, 10, 0, 0, 0]
    ensures SerializeInstruction(Increment(5)) == [1, 5, 0, 0, 0]
    ensures SerializeInstruction(Decrement(3)) == [2, 3, 0, 0, 0]
  {
  }

  /** The client's scenario on a zero-filled four-byte account: Initialize(10),
      Increment(5), Decrement(3) leave 10, 15 and 12. */
  method ClientScenario() returns (values: seq<U32>)
    ensures values == [10, 15, 12]
  {
    var account := new Byte[CounterSize](_ => 0);
    assert account[..] == SerializeCounter(Counter(0));
    CounterRoundTrip(Counter(0));

    InitializeSets(account[..], 10);
    EncodedInstructionExecutes([account[..]], Initialize(10));
    var r := ProcessInstructions([account], SerializeInstruction(Initialize(10)));
    var afterInit := CounterFromSlice(account[..]).value.data;

    IncrementAdds(account[..], 10, 5);
    EncodedInstructionExecutes([account[..]], Increment(5));
    r := ProcessInstructions([account], SerializeInstruction(Increment(5)));
    var afterIncrement := CounterFromSlice(account[..]).value.data;

    DecrementSubtracts(account[..], 15, 3);
    EncodedInstructionExecutes([account[..]], Decrement(3));
    r := ProcessInstructions([account], SerializeInstruction(Decrement(3)));
    var afterDecrement := CounterFromSlice(account[..]).value.data;

    values := [afterInit, afterIncrement, afterDecrement];
  }
}
