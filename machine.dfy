/** The machine state and the step function of interpret_immut, which takes
    a state by value and returns the next one or None; the run loop of
    run_program_immut as a function with fuel. */
module Machine {
  import opened Wrappers
  import opened Decoder

  /** Rust's u8: the tape's cells. */
  newtype u8 = x: int | 0 <= x < 256

  /** State { pc, ptr, mem }; mem is the growable Vec<u8> tape. */
  datatype State = State(pc: nat, ptr: nat, mem: seq<u8>)
  {
    /** The pointer selects a cell of the tape: State::new sets it up and
        every step keeps it (StepTape). */
    predicate Valid()
    {
      ptr < |mem|
    }
  }

  /** State::new(): pc 0, ptr 0, a tape of one zero cell. */
  function Init(): (s: State)
    ensures s.Valid() && s.pc == 0 && s.ptr == 0 && |s.mem| == 1 && s.mem[0] == 0
  {
    State(0, 0, [0])
  }

  /** The standard streams: the bytes stdin has still to deliver, and the
      characters print! has written so far. */
  datatype Io = Io(input: seq<u8>, output: seq<char>)

  /** Why a step panics, with the pc of the instruction. */
  datatype RunError =
    | PointerUnderflow(pc: nat)   // Left at ptr == 0: ptr -= 1 overflows
    | InputExhausted(pc: nat)     // Input with stdin at its end: unwrap on None
    | PcOutOfRange(pc: nat)       // pc beyond the vector: insts[pc] is out of bounds

  /** What interpret_immut returns: None (halt), Some(next state), or a panic. */
  datatype StepResult = Halt | Next(state: State, io: Io) | Fault(error: RunError)

  /** The Inc arm: u8::MAX goes to 0, anything else up by one. */
  function WrapInc(c: u8): (r: u8)
    ensures r as int == (c as int + 1) % 256
  {
    if c == 255 then 0 else c + 1
  }

  /** The Dec arm: 0 goes to u8::MAX, anything else down by one. */
  function WrapDec(c: u8): (r: u8)
    ensures r as int == (c as int - 1) % 256
  {
    if c == 0 then 255 else c - 1
  }

  /** Whether a jump instruction takes its jump on the given cell:
      JmpForward on zero, JmpBack on non-zero. */
  predicate Fires(inst: Instruction, cell: u8)
  {
    (inst.JmpForward? && cell == 0) || (inst.JmpBack? && cell != 0)
  }

  /** interpret_immut(self, insts), with stdin and stdout threaded through io. */
  function Step(s: State, insts: seq<Instruction>, io: Io): (r: StepResult)
    requires s.Valid()
    ensures r.Halt? <==> s.pc == |insts|
    ensures r.Next? ==> r.state.Valid()
  {
    if s.pc == |insts| then Halt
    else if s.pc > |insts| then Fault(PcOutOfRange(s.pc))
    else
      var pc, ptr, mem := s.pc, s.ptr, s.mem;
      match insts[pc]
      case Left =>
        if ptr == 0 then Fault(PointerUnderflow(pc))
        else Next(State(pc + 1, ptr - 1, mem), io)
      case Right =>
        var mem' := if ptr + 1 == |mem| then mem + [0] else mem;
        Next(State(pc + 1, ptr + 1, mem'), io)
      case Input =>
        if io.input == [] then Fault(InputExhausted(pc))
        else Next(State(pc + 1, ptr, mem[ptr := io.input[0]]), Io(io.input[1..], io.output))
      case Output =>
        Next(State(pc + 1, ptr, mem), Io(io.input, io.output + [mem[ptr] as int as char]))
      case Inc =>
        Next(State(pc + 1, ptr, mem[ptr := WrapInc(mem[ptr])]), io)
      case Dec =>
        Next(State(pc + 1, ptr, mem[ptr := WrapDec(mem[ptr])]), io)
      case JmpForward(tgt) =>
        Next(State((if mem[ptr] == 0 then tgt else pc) + 1, ptr, mem), io)
      case JmpBack(tgt) =>
        Next(State((if mem[ptr] != 0 then tgt else pc) + 1, ptr, mem), io)
  }

  /** The streams: only Output writes, and it writes the character of the cell
      under the pointer; only Input reads, and it stores the byte it took from
      the front of the input in that cell. */
  lemma StepStreams(s: State, insts: seq<Instruction>, io: Io)
    requires s.Valid() && Step(s, insts, io).Next?
    ensures var t, io' := Step(s, insts, io).state, Step(s, insts, io).io;
      (insts[s.pc] == Output ==> io'.output == io.output + [s.mem[s.ptr] as int as char]) &&
      (insts[s.pc] != Output ==> io'.output == io.output) &&
      (insts[s.pc] == Input ==> io.input != [] && io'.input == io.input[1..] && t.mem[s.ptr] == io.input[0]) &&
      (insts[s.pc] != Input ==> io'.input == io.input)
  {
  }

  /** Control flow: a step that does not halt or panic moves pc to one past
      the jump target when a jump fires and to the next instruction otherwise. */
  lemma StepControlFlow(s: State, insts: seq<Instruction>, io: Io)
    requires s.Valid() && s.pc < |insts|
    ensures Step(s, insts, io).Next? ==>
      Step(s, insts, io).state.pc ==
        (if Fires(insts[s.pc], s.mem[s.ptr]) then insts[s.pc].target else s.pc) + 1
    ensures Step(s, insts, io).Fault? <==>
      (insts[s.pc] == Left && s.ptr == 0) || (insts[s.pc] == Input && io.input == [])
  {
  }

  /** The tape: Right appends exactly one zero cell when the pointer reaches the
      end of the tape and nothing else changes the tape's length; a step writes
      at most the cell under the pointer. */
  lemma StepTape(s: State, insts: seq<Instruction>, io: Io)
    requires s.Valid() && Step(s, insts, io).Next?
    ensures var t := Step(s, insts, io).state;
      t.ptr < |t.mem| &&
      |t.mem| == |s.mem| + (if insts[s.pc] == Right && s.ptr + 1 == |s.mem| then 1 else 0) &&
      (|t.mem| > |s.mem| ==> t.mem[|s.mem|] == 0) &&
      (forall i :: 0 <= i < |s.mem| && i != s.ptr ==> t.mem[i] == s.mem[i]) &&
      (insts[s.pc] !in {Input, Inc, Dec} ==> t.mem[s.ptr] == s.mem[s.ptr]) &&
      (insts[s.pc] == Inc ==> t.mem[s.ptr] as int == (s.mem[s.ptr] as int + 1) % 256) &&
      (insts[s.pc] == Dec ==> t.mem[s.ptr] as int == (s.mem[s.ptr] as int - 1) % 256) &&
      (insts[s.pc] == Left ==> t.ptr == s.ptr - 1) &&
      (insts[s.pc] == Right ==> t.ptr == s.ptr + 1) &&
      (insts[s.pc] != Left && insts[s.pc] != Right ==> t.ptr == s.ptr)
  {
  }

  /** Inc then Dec, or Dec then Inc, on the same cell restores the tape. */
  lemma IncDecRestores(s: State, insts: seq<Instruction>, io: Io)
    requires s.Valid() && s.pc + 1 < |insts|
    requires (insts[s.pc] == Inc && insts[s.pc + 1] == Dec) || (insts[s.pc] == Dec && insts[s.pc + 1] == Inc)
    ensures Step(s, insts, io).Next?
    ensures var t := Step(s, insts, io).state;
      Step(t, insts, io).Next? && Step(t, insts, io).state == State(s.pc + 2, s.ptr, s.mem)
  {
    var t := Step(s, insts, io).state;
    assert t.mem[s.ptr := s.mem[s.ptr]] == s.mem;
  }

  /** Every jump target lies inside the instruction vector (true of every
      decoded vector, see WellFormedDecoded). */
  predicate WellFormed(insts: seq<Instruction>)
  {
    forall i :: 0 <= i < |insts| && (insts[i].JmpForward? || insts[i].JmpBack?) ==> insts[i].target < |insts|
  }

  /** On a well-formed vector pc never passes the end, so the index insts[pc]
      never goes out of bounds. */
  lemma StepPcBound(s: State, insts: seq<Instruction>, io: Io)
    requires s.Valid() && s.pc <= |insts| && WellFormed(insts)
    ensures !Step(s, insts, io).Fault? || !Step(s, insts, io).error.PcOutOfRange?
    ensures Step(s, insts, io).Next? ==> Step(s, insts, io).state.pc <= |insts|
  {
  }

  /** In a decoded program a firing JmpForward lands just after its partner
      JmpBack, and a firing JmpBack lands on the first instruction of the loop
      body, just after its partner JmpForward. */
  lemma LoopJumps(program: seq<char>, insts: seq<Instruction>, s: State, io: Io)
    requires Decode(program) == Ok(insts)
    requires s.Valid() && s.pc < |insts| && Fires(insts[s.pc], s.mem[s.ptr])
    ensures Step(s, insts, io).Next?
    ensures var j := Step(s, insts, io).state.pc - 1;
      0 <= j < |insts| &&
      (insts[s.pc].JmpForward? ==> insts[j] == JmpBack(s.pc)) &&
      (insts[s.pc].JmpBack? ==> insts[j] == JmpForward(s.pc))
  {
    JumpPartners(program, 1, insts);
  }

  /** The decoder only produces well-formed vectors. */
  lemma WellFormedDecoded(program: seq<char>, insts: seq<Instruction>)
    requires Decode(program) == Ok(insts)
    ensures WellFormed(insts)
  {
    JumpPartners(program, 1, insts);
  }

  // ---------------------------------------------------------------------
  // Runs
  // ---------------------------------------------------------------------

  /** How a run ends: halted at the end of the vector, panicked in a step,
      refused by the decoder before any step, or stopped when the fuel ran out. */
  datatype Outcome =
    | Halted(state: State, io: Io)
    | Crashed(error: RunError, io: Io)
    | Rejected(decodeError: DecodeError)
    | OutOfFuel(state: State, io: Io)

  /** The loop of run_program_immut, allowed at most fuel calls of the step. */
  function Run(s: State, insts: seq<Instruction>, io: Io, fuel: nat): (r: Outcome)
    requires s.Valid()
    ensures !r.Rejected?
    ensures r.Halted? ==> r.state.pc == |insts| && r.state.Valid()
    decreases fuel
  {
    if fuel == 0 then OutOfFuel(s, io)
    else
      match Step(s, insts, io)
      case Halt => Halted(s, io)
      case Fault(e) => Crashed(e, io)
      case Next(s', io') => Run(s', insts, io', fuel - 1)
  }

  /** Over a whole run, output is only ever appended to and input is only
      consumed from the front. */
  lemma {:induction false} RunStreams(s: State, insts: seq<Instruction>, io: Io, fuel: nat)
    requires s.Valid()
    ensures var r := Run(s, insts, io, fuel);
      io.output <= r.io.output &&
      |r.io.input| <= |io.input| && r.io.input == io.input[|io.input| - |r.io.input|..]
    decreases fuel
  {
    if fuel > 0 {
      match Step(s, insts, io)
      case Halt =>
      case Fault(e) =>
      case Next(s', io') =>
        StepStreams(s, insts, io);
        RunStreams(s', insts, io', fuel - 1);
    }
  }

  /** run_program_immut(program): decode, then run from State::new() with the
      given stdin; a decode panic happens before any step. */
  function Execute(program: seq<char>, input: seq<u8>, fuel: nat): (r: Outcome)
    ensures r.Rejected? <==> Decode(program).Err?
  {
    match Decode(program)
    case Err(e) => Rejected(e)
    case Ok(insts) => Run(Init(), insts, Io(input, []), fuel)
  }

  /** A decoded program never indexes past its instruction vector. */
  lemma {:induction false} RunInBounds(s: State, insts: seq<Instruction>, io: Io, fuel: nat)
    requires s.Valid() && s.pc <= |insts| && WellFormed(insts)
    ensures !Run(s, insts, io, fuel).Crashed? || !Run(s, insts, io, fuel).error.PcOutOfRange?
    decreases fuel
  {
    if fuel > 0 {
      StepPcBound(s, insts, io);
      match Step(s, insts, io)
      case Halt =>
      case Fault(e) =>
      case Next(s', io') => RunInBounds(s', insts, io', fuel - 1);
    }
  }

  /** More fuel does not change a run that has already ended: the fuel bound
      only cuts off runs that have not halted or panicked. */
  lemma {:induction false} RunFuelMonotone(s: State, insts: seq<Instruction>, io: Io, fuel: nat, more: nat)
    requires s.Valid() && fuel <= more
    requires !Run(s, insts, io, fuel).OutOfFuel?
    ensures Run(s, insts, io, more) == Run(s, insts, io, fuel)
    decreases fuel
  {
    match Step(s, insts, io)
    case Halt =>
    case Fault(e) =>
    case Next(s', io') => RunFuelMonotone(s', insts, io', fuel - 1, more - 1);
  }

  /** Running a program the decoder accepts never fails on the vector's bounds. */
  lemma ExecuteInBounds(program: seq<char>, input: seq<u8>, fuel: nat)
    ensures !Execute(program, input, fuel).Crashed? || !Execute(program, input, fuel).error.PcOutOfRange?
  {
    if Decode(program).Ok? {
      WellFormedDecoded(program, Decode(program).value);
      RunInBounds(Init(), Decode(program).value, Io(input, []), fuel);
    }
  }
}
