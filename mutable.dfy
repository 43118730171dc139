/** The state as interpret updates it: one object whose pc, ptr and tape
    change in place, step by step. */
module Mutable {
  import opened Wrappers
  import opened Decoder
  import Machine

  class State {
    var pc: nat
    var ptr: nat
    var mem: seq<Machine.u8>

    /** The object's fields as a state value, for comparing with interpret_immut. */
    function View(): Machine.State
      reads this
    {
      Machine.State(pc, ptr, mem)
    }

    /** State::new(). */
    constructor ()
      ensures View() == Machine.Init()
    {
      pc, ptr, mem := 0, 0, [0];
    }

    /** interpret(&mut self, insts): Ok(true) and Ok(false) are the returned
        bool, Err a panic. The new fields and streams are exactly what
        interpret_immut returns on the same state, true goes with Some and
        false with None, and a panic leaves the fields as they were. */
    method Interpret(insts: seq<Instruction>, io: Machine.Io) returns (r: Result<bool, Machine.RunError>, io': Machine.Io)
      requires View().Valid()
      modifies this
      ensures View().Valid()
      ensures match Machine.Step(old(View()), insts, io)
        case Halt => r == Ok(false) && View() == old(View()) && io' == io
        case Next(s, nextIo) => r == Ok(true) && View() == s && io' == nextIo
        case Fault(e) => r == Err(e) && View() == old(View())
    {
      io' := io;
      if pc == |insts| {
        return Ok(false), io';
      }
      if pc > |insts| {
        return Err(Machine.PcOutOfRange(pc)), io';
      }
      match insts[pc] {
        case Left =>
          if ptr == 0 {
            return Err(Machine.PointerUnderflow(pc)), io';
          }
          ptr := ptr - 1;
        case Right =>
          ptr := ptr + 1;
          if ptr == |mem| {
            mem := mem + [0];
          }
        case Input =>
          if io.input == [] {
            return Err(Machine.InputExhausted(pc)), io';
          }
          mem := mem[ptr := io.input[0]];
          io' := Machine.Io(io.input[1..], io.output);
        case Output =>
          io' := Machine.Io(io.input, io.output + [mem[ptr] as int as char]);
        case Inc =>
          if mem[ptr] == 255 {
            mem := mem[ptr := 0];
          } else {
            mem := mem[ptr := mem[ptr] + 1];
          }
        case Dec =>
          if mem[ptr] == 0 {
            mem := mem[ptr := 255];
          } else {
            mem := mem[ptr := mem[ptr] - 1];
          }
        case JmpForward(tgt) =>
          if mem[ptr] == 0 {
            pc := tgt;
          }
        case JmpBack(tgt) =>
          if mem[ptr] != 0 {
            pc := tgt;
          }
      }
      pc := pc + 1;
      r := Ok(true);
    }
  }
}

/** The two drivers: decode, then call the step on a fresh state until it
    reports the halt. The loops of the Rust code are unbounded; here each is
    given fuel, the largest number of step calls it may make. */
module Driver {
  import opened Wrappers
  import opened Decoder
  import Machine
  import Mutable

  /** run_program: one State object, mutated by interpret until it returns false. */
  method RunProgram(program: seq<char>, input: seq<Machine.u8>, fuel: nat) returns (r: Machine.Outcome)
    ensures r == Machine.Execute(program, input, fuel)
  {
    var decoded := DecodeProgram(program);
    if decoded.Err? {
      return Machine.Rejected(decoded.error);
    }
    r := InterpretLoop(decoded.value, input, fuel);
  }

  /** The loop `while state.interpret(&instructions) {}` on a fresh State. */
  method InterpretLoop(insts: seq<Instruction>, input: seq<Machine.u8>, fuel: nat) returns (r: Machine.Outcome)
    ensures r == Machine.Run(Machine.Init(), insts, Machine.Io(input, []), fuel)
  {
    var state := new Mutable.State();
    var io := Machine.Io(input, []);
    var left := fuel;
    while left > 0
      invariant state.View().Valid()
      invariant Machine.Run(state.View(), insts, io, left) == Machine.Run(Machine.Init(), insts, Machine.Io(input, []), fuel)
    {
      var running, io' := state.Interpret(insts, io);
      match running {
        case Err(e) => return Machine.Crashed(e, io);
        case Ok(more) =>
          if !more {
            return Machine.Halted(state.View(), io);
          }
      }
      io := io';
      left := left - 1;
    }
    return Machine.OutOfFuel(state.View(), io);
  }

  /** run_program_immut: the state is a value, replaced by each Some the step
      returns, until the step returns None. */
  method RunProgramImmut(program: seq<char>, input: seq<Machine.u8>, fuel: nat) returns (r: Machine.Outcome)
    ensures r == Machine.Execute(program, input, fuel)
  {
    var decoded := DecodeProgram(program);
    if decoded.Err? {
      return Machine.Rejected(decoded.error);
    }
    r := StepLoop(decoded.value, input, fuel);
  }

  /** The loop of run_program_immut on State::new(). */
  method StepLoop(insts: seq<Instruction>, input: seq<Machine.u8>, fuel: nat) returns (r: Machine.Outcome)
    ensures r == Machine.Run(Machine.Init(), insts, Machine.Io(input, []), fuel)
  {
    var state := Machine.Init();
    var io := Machine.Io(input, []);
    var left := fuel;
    while left > 0
      invariant state.Valid()
      invariant Machine.Run(state, insts, io, left) == Machine.Run(Machine.Init(), insts, Machine.Io(input, []), fuel)
    {
      match Machine.Step(state, insts, io) {
        case Halt => return Machine.Halted(state, io);
        case Fault(e) => return Machine.Crashed(e, io);
        case Next(s, io') =>
          state, io := s, io';
      }
      left := left - 1;
    }
    return Machine.OutOfFuel(state, io);
  }
}
