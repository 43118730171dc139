# bfrs in Dafny

A model of bfrs, a small Rust interpreter for the eight-instruction tape
language Brainfuck (`+ - < > , . [ ]`). The whole interpreter lives in
`src/main.rs`, and the model covers both of its parts:

- **The decoder** turns source text into a vector of `Instruction`s, one per
  character. `search_right_bracket` and `search_left_bracket` resolve each
  bracket to the absolute index of its partner. Module `Brackets` holds each
  search three ways: as a function, as the Rust code's loop (a method proved
  equal to the function), and as a declarative description of the partner it
  finds. Module `Decoder` holds `Instruction::from` and the in-order decode
  that `run_program` performs.
- **The machine**, in the Rust code's two versions:
  - `State::interpret_immut` takes the state `{pc, ptr, mem}` by value and
    returns the next state or `None`. In module `Machine` it is the function
    `Step` over the datatype `State`.
  - `State::interpret` updates one state object in place. In module `Mutable`
    it is the method `Interpret` of class `State`, whose fields are reassigned.
    Its postcondition says it does exactly what `Step` does: the same new
    state, with `true` for `Some` and `false` for `None`.
  - Module `Driver` holds the two run loops, `run_program` and
    `run_program_immut`. Both are proved equal to the same function,
    `Machine.Execute`.

Panics become explicit errors:
- `DecodeError` covers an unknown character, an unmatched `[`, and an
  unmatched `]`. A `]` at index 0 also lands here: there, `pos - 1`
  underflows.
- `RunError` covers `<` at pointer 0 (`ptr -= 1` underflows), `,` with stdin
  exhausted (`unwrap` on `None`), and a `pc` past the vector (`insts[pc]` out
  of bounds). The last can happen only for vectors the decoder cannot produce
  (`ExecuteInBounds`).

Integer overflow follows Rust's debug build, where overflow panics. In a
release build, `ptr -= 1` at 0 would wrap instead.

Standard input is modelled as a sequence of bytes still to be read. Standard
output is modelled as the sequence of characters `print!` has written. Both
are threaded through each step in an `Io` value.

The backward search is evidently meant to mirror the forward one, but its
loop `while p > 0` (src/main.rs:75) never inspects index 0, so no program
that starts with `[` decodes (see Findings). The model keeps that behaviour
in the decoder the drivers use and proves the corrected search separately.

## Model

| member | source | states |
|---|---|---|
| `Brackets.ScanRight` | src/main.rs:57-69 | the forward scan returns only a position at or after where it starts that holds a `]` |
| `Brackets.RightBracket` | src/main.rs:56-58 | any index `search_right_bracket` returns lies after `pos`, inside the text, and holds a `]`; `RightBracketSpec` says which one |
| `Brackets.RightBracketSpec` | src/main.rs:56-70 | `search_right_bracket` returns the first `]` after `pos` that closes a balanced span; it returns None exactly when no `]` after `pos` does |
| `Brackets.RightPartnerNeverNegative` | src/main.rs:57-66 | between a `[` and the `]` found for it, the nesting counter never drops below zero |
| `Brackets.SearchRightBracket` | src/main.rs:56-70 | the Rust loop over `p` and `bracket_cnt` returns what the forward scan specifies |
| `Brackets.ScanLeft` | src/main.rs:73-85 | the backward scan returns only a `[` that lies below its start and no lower than the lowest index it inspects |
| `Brackets.LeftBracket` | src/main.rs:72-86 | as written, the backward search never returns index 0, because the loop stops when `p` reaches 0 |
| `Brackets.LeftScanSpec` | src/main.rs:72-86 | the backward search returns the last `[` before `pos` (at or above the lowest inspected index) that opens a balanced span; it returns None exactly when there is no such `[` |
| `Brackets.LeftPartnerNeverNegative` | src/main.rs:73-82 | between a `]` and the `[` found for it, the backward counter never drops below zero |
| `Brackets.SearchLeftBracket` | src/main.rs:72-86 | the Rust loop, from `pos - 1` down while `p > 0`, returns what the backward scan specifies |
| `Brackets.RightThenLeft` | src/main.rs:56-86 | the `]` that the forward search pairs with a `[` is one whose backward search finds that same `[` first |
| `Brackets.LeftThenRight` | src/main.rs:56-86 | the `[` that the backward search pairs with a `]` is one whose forward search finds that same `]` first |
| `Brackets.ScanLeftFloors` | src/main.rs:75 | inspecting index 0 as well changes nothing when the original search already finds a partner |
| `Decoder.InstructionFrom` | src/main.rs:89-101 | a failure names the character's own index; a `JmpForward` target lies after the bracket and inside the text; a `JmpBack` target lies before it and no lower than the lowest inspected index |
| `Decoder.DecodePrefix` | src/main.rs:17-20 | decoding succeeds exactly when every index decodes, giving one instruction per index in order; otherwise it fails with the error of the first index that does not decode |
| `Decoder.Decode` | src/main.rs:17-20 | the decode of `run_program` succeeds with one instruction per character, each what `Instruction::from` gives at that index; a failure is the error of the first index that does not decode |
| `Decoder.FirstFailure` | src/main.rs:18-20 | when every earlier index decodes and this one does not, this one's error is the decode's error |
| `Decoder.DecodeProgram` | src/main.rs:17-20 | the in-order loop of `Instruction::from` calls, run with the searching loops, returns exactly the decode |
| `Decoder.DecodeShape` | src/main.rs:89-100 | a decoded vector has one instruction per character, and each is the one its character names (`+` Inc, `-` Dec, `<` Left, `>` Right, `,` Input, `.` Output, `[` JmpForward, `]` JmpBack); a failure is an unknown character exactly when that character is not an opcode, and an unmatched-bracket failure sits on a bracket of that kind |
| `Decoder.JumpPartners` | src/main.rs:56-100 | in a decoded vector, `insts[i] == JmpForward(j)` exactly when `insts[j] == JmpBack(i)`, and every jump target is below the vector's length |
| `Decoder.OpenHasPartner` | src/main.rs:56-70 | in a balanced text every `[` has a `]` for the forward search to find |
| `Decoder.CloseHasPartner` | src/main.rs:72-86 | in a balanced text a `]` is never first, and the backward search finds its `[`, unless the text starts with `[` and index 0 is not inspected |
| `Decoder.InstructionFromOk` | src/main.rs:89-100 | every opcode of such a balanced text decodes |
| `Decoder.DecodeBalanced` | src/main.rs:17-20 | a balanced text of opcodes decodes, provided the backward search can reach every `[` |
| `Decoder.DecodedOpen` | src/main.rs:97 | in a decodable text every `[` has a `]` that closes it |
| `Decoder.DecodedClose` | src/main.rs:98 | in a decodable text every `]` has a `[` that opens it |
| `Brackets.PrefixDepth` | src/main.rs:72-86 | when every `]` has a `[` that opens it, no prefix of the text closes more brackets than it opens |
| `Brackets.SuffixDepth` | src/main.rs:56-70 | when every `[` has a `]` that closes it, no suffix of the text opens more brackets than it closes |
| `Decoder.DecodedIsBalanced` | src/main.rs:17-20 | every decodable text is balanced |
| `Decoder.DecodedNoLeadingOpen` | src/main.rs:72-86 | a text the original decoder accepts does not start with `[` |
| `Decoder.DecodeAccepts` | src/main.rs:17-20 | the decoder succeeds exactly on balanced texts made only of opcodes; with the original search, the text also must not start with `[` |
| `Decoder.LeadingLoopRejected` | src/main.rs:75 | the balanced program `[-]` fails to decode as written, with an unmatched `]` at index 2; the corrected decoder pairs its brackets |
| `Decoder.LeadingLoopInstructions` | src/main.rs:72-100 | in `[-]`, the `[` and the `-` decode alike under both searches; the `]` at index 2 is an unmatched-bracket failure as written and a jump back to 0 with index 0 inspected |
| `Decoder.DecodeFixedAccepts` | src/main.rs:72-86 | the corrected decoder accepts exactly the balanced texts of opcodes, a leading `[` included, and pairs each jump with its partner |
| `Decoder.DecodeFixed` | src/main.rs:72-86 | the decode with the backward search also inspecting index 0 is characterised the same way: one instruction per character, or the first failing index's error |
| `Decoder.DecodeFixedAgrees` | src/main.rs:72-86 | wherever the source's decoder succeeds, the corrected one gives the same vector |
| `Machine.Init` | src/main.rs:112-118 | a new state has pc 0, pointer 0 and a tape of one zero cell, and the pointer is on the tape |
| `Machine.WrapInc` | src/main.rs:144-150 | Inc adds one to the cell modulo 256, so 255 goes to 0 |
| `Machine.WrapDec` | src/main.rs:151-157 | Dec subtracts one from the cell modulo 256, so 0 goes to 255 |
| `Machine.Step` | src/main.rs:120-172 | the step halts (None) exactly when `pc == insts.len()`; a step that continues keeps the pointer on the tape |
| `Machine.StepStreams` | src/main.rs:137-143 | only Output writes, and it appends exactly the character of the cell under the pointer; only Input reads, and it takes the first byte of the input and stores it in that cell; every other step leaves both streams as they were |
| `Machine.StepControlFlow` | src/main.rs:127-169 | the next `pc` is one past the target when a jump fires (JmpForward on a zero cell, JmpBack on a non-zero cell) and `pc + 1` otherwise; a step at a valid `pc` panics exactly on `<` at pointer 0 or `,` with no input left |
| `Machine.StepTape` | src/main.rs:128-157 | the pointer stays on the tape; Right appends exactly one zero cell when the pointer reaches the end, and no other step changes the tape's length; only the cell under the pointer is ever written, and only by Input, Inc or Dec; Inc leaves that cell at its old value plus one modulo 256 and Dec at its old value minus one modulo 256; Left moves the pointer down one, Right moves it up one, and the rest leave it |
| `Machine.IncDecRestores` | src/main.rs:144-157 | Inc then Dec, or Dec then Inc, on the same cell leaves the tape and pointer as they were |
| `Machine.StepPcBound` | src/main.rs:127-169 | when every jump target is in range, `pc` never passes the vector's length, and indexing by `pc` never fails |
| `Machine.LoopJumps` | src/main.rs:158-169 | in a decoded program, a firing JmpForward lands just past its partner JmpBack, and a firing JmpBack lands on the first instruction of the loop body |
| `Machine.WellFormedDecoded` | src/main.rs:89-100 | every jump target of a decoded vector is in range |
| `Machine.Run` | src/main.rs:30-41 | a run is never a decode rejection; a run that halts stops with `pc == insts.len()` and the pointer on the tape |
| `Machine.RunStreams` | src/main.rs:30-41 | over a whole run, output is only ever appended to, and the input left is a suffix of the input given |
| `Machine.Execute` | src/main.rs:25-42 | a program is rejected before any step exactly when decoding fails |
| `Machine.RunInBounds` | src/main.rs:30-41 | on a well-formed vector, a run never panics on an out-of-range `pc` |
| `Machine.RunFuelMonotone` | src/main.rs:31-41 | giving more fuel to a run that already halted or panicked does not change its outcome |
| `Machine.ExecuteInBounds` | src/main.rs:25-41 | running any program never panics on an out-of-range `pc` |
| `Mutable.State.constructor` | src/main.rs:112-118 | a new state object holds the same values as `State::new()` |
| `Mutable.State.Interpret` | src/main.rs:174-223 | the in-place step leaves the object's fields and streams exactly as `interpret_immut` returns them: `true` with `Some`, `false` with `None` (state untouched), and a panic leaves the fields as they were |
| `Driver.RunProgram` | src/main.rs:16-23 | decoding, then calling the in-place step on one state object until it returns false, gives exactly the outcome of `Execute` |
| `Driver.InterpretLoop` | src/main.rs:21-22 | calling the in-place step on a fresh state object until it returns false gives exactly the outcome of `Run` from `State::new()` |
| `Driver.StepLoop` | src/main.rs:30-41 | replacing the state value with each `Some` the step returns, from `State::new()`, gives exactly the outcome of `Run` |
| `Driver.RunProgramImmut` | src/main.rs:25-42 | decoding, then replacing the state value with each `Some` until `None`, gives exactly the outcome of `Execute`; with `RunProgram`, the two engines agree on every program, input and fuel |

## Left out

- `main` and its sample programs (src/main.rs:3-14) are not modelled. The
  output of the "Hello World!" program and the quine's self-reproduction are
  properties of fixed inputs, not of the interpreter.
- Real stdin and stdout are not modelled. Input is a sequence of bytes and
  output a sequence of characters, carried in `Io`.
- `print!` sends `char::from(byte)` as UTF-8. The model records the character,
  not its encoding, so cells of 128 or more do not show up as two bytes.
- A read error from stdin (the inner `unwrap` on an `Err`) is not modelled.
  Only end of input is, as `InputExhausted`.
- Driver.RunProgram: the Rust code loops until the program halts, which may be
  never. The model gives each loop a fuel bound and ends a run that uses it
  up with `OutOfFuel`. `RunFuelMonotone` shows the bound cuts off only runs
  that have not ended.
- Driver.RunProgramImmut: bounded by fuel in the same way.
- Overflow of `pos + 1` and `ptr += 1` at `usize::MAX` is not modelled. Both
  would need a vector of that many elements.
- `bracket_cnt` is an `i32` in the Rust code and a `nat` in the model. Its
  overflow after 2^31 nested `[` is not modelled. The model's type records
  that the counter never goes negative.
- `#[derive(Debug)]` is formatting only.

## Findings

| source | as written | input that shows it | evidently intended | confidence | as-written member | corrected member |
|---|---|---|---|---|---|---|
| src/main.rs:74-75 | `search_left_bracket` runs `while p > 0`, so it never inspects index 0 and cannot find a `[` there | `[-]`: it is balanced, but decoding the `]` at index 2 finds no partner and the `unwrap` panics | the backward search is symmetric to the forward one and inspects index 0 too, so every balanced program decodes | high; not executed | `Decoder.LeadingLoopRejected` | `Decoder.DecodeFixedAccepts` |

`Decoder.DecodeFixed` is the decoder with the corrected search.
`DecodeFixedAgrees` shows it changes nothing for programs the original already
decodes. The drivers keep the original decoder, so that they model
`run_program` as written.
