/** The program's entry point `process_instructions`: take the first account,
    decode the instruction, and apply it to the account's data in place.

    Arithmetic policy: `counter.data += value` and `counter.data -= value` are
    unchecked `u32` operations in the source. A build with overflow checks
    panics on a result outside `u32`, which fails the instruction; a build
    without them wraps. This model takes the checked reading: a sum above
    `MaxU32` is ArithmeticOverflow, a difference below zero is
    ArithmeticUnderflow, and either leaves the account as it was.

    Failure policy: every error returns before the account is written, except
    that Borsh's write into a too-short slice may store a partial prefix before
    it fails; the runtime discards all account changes of a failed instruction,
    so the model states the account unchanged on every error. */
module Processor {
  import opened Borsh
  import opened CounterCodec

  /** The errors `process_instructions` can end with. */
  datatype ProgramError =
    | NotEnoughAccountKeys        // next_account_info on an empty account list
    | BorshIoError(cause: IoError)  // a Borsh read or write failed
    | ArithmeticOverflow          // Increment past MaxU32
    | ArithmeticUnderflow         // Decrement below zero

  /** `counter.serialize(&mut *acc.data.borrow_mut())`: the counter's four bytes
      overwrite the front of the account data. */
  function Store(account: seq<Byte>, c: Counter): (r: Result<seq<Byte>, ProgramError>)
    ensures r.Ok? <==> |account| >= CounterSize
    ensures r.Err? ==> r.error == BorshIoError(WriteZero)
    ensures r.Ok? ==> |r.value| == |account| && r.value[CounterSize..] == account[CounterSize..]
    ensures r.Ok? ==> CounterFromSlice(r.value[..CounterSize]) == Ok(c)
  {
    match WriteInto(account, SerializeCounter(c))
    case Err(e) => Err(BorshIoError(e))
    case Ok(bytes) =>
      CounterRoundTrip(c);
      Ok(bytes)
  }

  /** The new account data after one decoded instruction, or the error. Only
      the counter's four bytes can change. */
  function Execute(account: seq<Byte>, ins: Instruction): (r: Result<seq<Byte>, ProgramError>)
    ensures r.Ok? ==> CounterSize <= |account| == |r.value| && r.value[CounterSize..] == account[CounterSize..]
  {
    match ins
    case Initialize(v) => Store(account, Counter(v))
    case Increment(v) =>
      (match CounterFromSlice(account)
       case Err(e) => Err(BorshIoError(e))
       case Ok(counter) =>
         if counter.data + v > MaxU32 then Err(ArithmeticOverflow)
         else Store(account, Counter(counter.data + v)))
    case Decrement(v) =>
      match CounterFromSlice(account)
      case Err(e) => Err(BorshIoError(e))
      case Ok(counter) =>
        if counter.data < v then Err(ArithmeticUnderflow)
        else Store(account, Counter(counter.data - v))
  }

  /** `process_instructions` on the data of the accounts passed in: the new
      data of the first account, or the error. */
  function Process(accounts: seq<seq<Byte>>, instructionData: seq<Byte>): (r: Result<seq<Byte>, ProgramError>)
    ensures r.Ok? ==> |accounts| > 0 && |r.value| == |accounts[0]|
  {
    if accounts == [] then Err(NotEnoughAccountKeys)
    else
      match InstructionFromSlice(instructionData)
      case Err(e) => Err(BorshIoError(e))
      case Ok(ins) => Execute(accounts[0], ins)
  }

  /** The data of each account. */
  function Snapshot(accounts: seq<array<Byte>>): seq<seq<Byte>>
    reads accounts
  {
    seq(|accounts|, i requires 0 <= i < |accounts| reads accounts => accounts[i][..])
  }

  /** `counter.serialize(&mut *acc.data.borrow_mut())` on the account's buffer. */
  method WriteCounter(c: Counter, buf: array<Byte>) returns (r: Result<(), ProgramError>)
    modifies buf
    ensures var stored := Store(old(buf[..]), c);
      (r.Ok? <==> stored.Ok?) && (r.Err? ==> r.error == stored.error) &&
      buf[..] == if stored.Ok? then stored.value else old(buf[..])
  {
    if buf.Length < CounterSize {
      return Err(BorshIoError(WriteZero));
    }
    var bytes := SerializeCounter(c);
    forall i | 0 <= i < CounterSize {
      buf[i] := bytes[i];
    }
    assert buf[..] == bytes + old(buf[..])[CounterSize..];
    r := Ok(());
  }

  /** `process_instructions`: reads and writes only the first account; on any
      error its data is as before. */
  method ProcessInstructions(accounts: seq<array<Byte>>, instructionData: seq<Byte>)
    returns (r: Result<(), ProgramError>)
    modifies if |accounts| > 0 then {accounts[0]} else {}
    ensures var outcome := Process(old(Snapshot(accounts)), instructionData);
      (r.Ok? <==> outcome.Ok?) && (r.Err? ==> r.error == outcome.error)
    ensures |accounts| > 0 ==>
      var outcome := Process(old(Snapshot(accounts)), instructionData);
      accounts[0][..] == if outcome.Ok? then outcome.value else old(accounts[0][..])
  {
    if |accounts| == 0 {
      return Err(NotEnoughAccountKeys);
    }
    var acc := accounts[0];
    var data := InstructionFromSlice(instructionData);
    if data.Err? {
      return Err(BorshIoError(data.error));
    }
    match data.value
    case Initialize(value) =>
      var counter := Counter(value);
      r := WriteCounter(counter, acc);
    case Increment(value) =>
      var read := CounterFromSlice(acc[..]);
      if read.Err? {
        return Err(BorshIoError(read.error));
      }
      var counter := read.value;
      if counter.data + value > MaxU32 {
        return Err(ArithmeticOverflow);
      }
      counter := counter.(data := counter.data + value);
      r := WriteCounter(counter, acc);
    case Decrement(value) =>
      var read := CounterFromSlice(acc[..]);
      if read.Err? {
        return Err(BorshIoError(read.error));
      }
      var counter := read.value;
      if counter.data < value {
        return Err(ArithmeticUnderflow);
      }
      counter := counter.(data := counter.data - value);
      r := WriteCounter(counter, acc);
  }
}
