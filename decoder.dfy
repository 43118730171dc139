/** The decoder: source text to instruction vector, one instruction per
    character, with each bracket resolved to the absolute index of its
    partner (Instruction::from and the collect loop of run_program). */
module Decoder {
  import opened Wrappers
  import opened Brackets

  datatype Instruction =
    | Left
    | Right
    | Input
    | Output
    | Inc
    | Dec
    | JmpForward(target: nat)
    | JmpBack(target: nat)

  /** Why decoding panics, with the index of the offending character. */
  datatype DecodeError =
    | UnknownInstruction(at: nat)
    | UnmatchedOpen(at: nat)
    | UnmatchedClose(at: nat)

  /** The eight opcode characters; every other character is refused. */
  predicate IsOpcode(c: char)
  {
    c in {'+', '-', '<', '>', ',', '.', '[', ']'}
  }

  /** Instruction::from(pc, program). floor is the lowest index the backward
      search inspects: 1 in the Rust code (Decode), 0 in the corrected decoder
      (DecodeFixed). A ']' at index 0 panics on the subtraction pos - 1. */
  function InstructionFrom(pc: nat, program: seq<char>, floor: nat): (r: Result<Instruction, DecodeError>)
    requires pc < |program|
    ensures r.Err? ==> r.error.at == pc
    ensures r.Ok? && r.value.JmpForward? ==> pc < r.value.target < |program|
    ensures r.Ok? && r.value.JmpBack? ==> floor <= r.value.target < pc
  {
    match program[pc]
    case '+' => Ok(Inc)
    case '-' => Ok(Dec)
    case '<' => Ok(Left)
    case '>' => Ok(Right)
    case ',' => Ok(Input)
    case '.' => Ok(Output)
    case '[' =>
      (match RightBracket(pc, program)
       case Some(t) => Ok(JmpForward(t))
       case None => Err(UnmatchedOpen(pc)))
    case ']' =>
      if pc == 0 then Err(UnmatchedClose(pc))
      else
        (match ScanLeft(program, pc, 0, floor)
         case Some(t) => Ok(JmpBack(t))
         case None => Err(UnmatchedClose(pc)))
    case _ => Err(UnknownInstruction(pc))
  }

  /** Decoding the first n characters in order, stopping at the first panic as
      `(0..len).map(..).collect()` does. */
  function DecodePrefix(program: seq<char>, n: nat, floor: nat): (r: Result<seq<Instruction>, DecodeError>)
    requires n <= |program|
    ensures r.Ok? ==> |r.value| == n && forall i :: 0 <= i < n ==> InstructionFrom(i, program, floor) == Ok(r.value[i])
    ensures r.Err? ==> r.error.at < n && InstructionFrom(r.error.at, program, floor) == Err(r.error)
    ensures r.Err? ==> forall i :: 0 <= i < r.error.at ==> InstructionFrom(i, program, floor).Ok?
  {
    if n == 0 then Ok([])
    else
      match DecodePrefix(program, n - 1, floor)
      case Err(e) => Err(e)
      case Ok(insts) =>
        match InstructionFrom(n - 1, program, floor)
        case Err(e) => Err(e)
        case Ok(inst) => Ok(insts + [inst])
  }

  /** The decoder as the Rust code writes it. */
  function Decode(program: seq<char>): (r: Result<seq<Instruction>, DecodeError>)
    ensures r.Ok? ==> (|r.value| == |program| &&
      forall i :: 0 <= i < |program| ==> InstructionFrom(i, program, 1) == Ok(r.value[i]))
    ensures r.Err? ==> (r.error.at < |program| &&
      InstructionFrom(r.error.at, program, 1) == Err(r.error) &&
      forall i :: 0 <= i < r.error.at ==> InstructionFrom(i, program, 1).Ok?)
  {
    DecodePrefix(program, |program|, 1)
  }

  /** The decoder with a backward search that also inspects index 0. */
  function DecodeFixed(program: seq<char>): (r: Result<seq<Instruction>, DecodeError>)
    ensures r.Ok? ==> (|r.value| == |program| &&
      forall i :: 0 <= i < |program| ==> InstructionFrom(i, program, 0) == Ok(r.value[i]))
    ensures r.Err? ==> (r.error.at < |program| &&
      InstructionFrom(r.error.at, program, 0) == Err(r.error) &&
      forall i :: 0 <= i < r.error.at ==> InstructionFrom(i, program, 0).Ok?)
  {
    DecodePrefix(program, |program|, 0)
  }

  /** The decode panics at the first index whose character does not decode. */
  lemma FirstFailure(program: seq<char>, idx: nat, floor: nat)
    requires idx < |program|
    requires forall i :: 0 <= i < idx ==> InstructionFrom(i, program, floor).Ok?
    requires InstructionFrom(idx, program, floor).Err?
    ensures DecodePrefix(program, |program|, floor) == Err(InstructionFrom(idx, program, floor).error)
  {
  }

  /** The collect loop of run_program: Instruction::from on every index in
      order, with the bracket searches run as the Rust code's loops. */
  method DecodeProgram(program: seq<char>) returns (r: Result<seq<Instruction>, DecodeError>)
    ensures r == Decode(program)
  {
    var insts: seq<Instruction> := [];
    var idx := 0;
    while idx < |program|
      invariant idx <= |program| && |insts| == idx
      invariant forall i :: 0 <= i < idx ==> InstructionFrom(i, program, 1) == Ok(insts[i])
    {
      var inst: Instruction;
      match program[idx] {
        case '+' => inst := Inc;
        case '-' => inst := Dec;
        case '<' => inst := Left;
        case '>' => inst := Right;
        case ',' => inst := Input;
        case '.' => inst := Output;
        case '[' =>
          var t := SearchRightBracket(idx, program);
          if t.None? {
            FirstFailure(program, idx, 1);
            return Err(UnmatchedOpen(idx));
          }
          inst := JmpForward(t.value);
        case ']' =>
          if idx == 0 {
            FirstFailure(program, idx, 1);
            return Err(UnmatchedClose(idx));
          }
          var t := SearchLeftBracket(idx, program);
          if t.None? {
            FirstFailure(program, idx, 1);
            return Err(UnmatchedClose(idx));
          }
          inst := JmpBack(t.value);
        case _ =>
          FirstFailure(program, idx, 1);
          return Err(UnknownInstruction(idx));
      }
      insts := insts + [inst];
      idx := idx + 1;
    }
    assert Decode(program).Ok? ==> Decode(program).value == insts;
    return Ok(insts);
  }

  /** The character each instruction is decoded from. */
  predicate Encodes(c: char, inst: Instruction)
  {
    match inst
    case Inc => c == '+'
    case Dec => c == '-'
    case Left => c == '<'
    case Right => c == '>'
    case Input => c == ','
    case Output => c == '.'
    case JmpForward(_) => c == '['
    case JmpBack(_) => c == ']'
  }

  /** A successful decode yields one instruction per character, index-aligned,
      each the one its character names; a failed decode reports the first
      character that is not an opcode or whose bracket has no partner. */
  lemma DecodeShape(program: seq<char>, floor: nat)
    ensures var r := DecodePrefix(program, |program|, floor);
      r.Ok? ==> |r.value| == |program| &&
                forall i :: 0 <= i < |program| ==> IsOpcode(program[i]) && Encodes(program[i], r.value[i])
    ensures var r := DecodePrefix(program, |program|, floor);
      r.Err? ==> r.error.at < |program| &&
                 (r.error.UnknownInstruction? <==> !IsOpcode(program[r.error.at])) &&
                 (r.error.UnmatchedOpen? ==> program[r.error.at] == '[') &&
                 (r.error.UnmatchedClose? ==> program[r.error.at] == ']')
  {
    var r := DecodePrefix(program, |program|, floor);
    if r.Ok? {
      forall i | 0 <= i < |program|
        ensures IsOpcode(program[i]) && Encodes(program[i], r.value[i])
      {
        assert InstructionFrom(i, program, floor) == Ok(r.value[i]);
      }
    }
  }

  /** Whatever floor, the bracket at a decoded jump and the bracket at its
      target name each other: JmpForward(j) at i exactly when JmpBack(i) at j. */
  lemma {:induction false} JumpPartners(program: seq<char>, floor: nat, insts: seq<Instruction>)
    requires DecodePrefix(program, |program|, floor) == Ok(insts)
    ensures forall i, j :: 0 <= i < |insts| && 0 <= j < |insts| ==>
      (insts[i] == JmpForward(j) <==> insts[j] == JmpBack(i))
    ensures forall i :: 0 <= i < |insts| && (insts[i].JmpForward? || insts[i].JmpBack?) ==>
      insts[i].target < |insts|
  {
    forall i, j | 0 <= i < |insts| && 0 <= j < |insts|
      ensures insts[i] == JmpForward(j) <==> insts[j] == JmpBack(i)
    {
      assert InstructionFrom(i, program, floor) == Ok(insts[i]);
      assert InstructionFrom(j, program, floor) == Ok(insts[j]);
      if insts[i] == JmpForward(j) {
        RightBracketSpec(i, program);
        RightThenLeft(program, i, j);
        LeftScanSpec(j, program, floor);
        var k := insts[j].target;
        assert IsLeftPartner(program, j, k, floor);
        assert k == i;
      }
      if insts[j] == JmpBack(i) {
        LeftScanSpec(j, program, floor);
        LeftThenRight(program, i, j, floor);
        RightBracketSpec(i, program);
        var k := insts[i].target;
        assert IsRightPartner(program, i, k);
        assert k == j;
      }
    }
    forall i | 0 <= i < |insts| && (insts[i].JmpForward? || insts[i].JmpBack?)
      ensures insts[i].target < |insts|
    {
      assert InstructionFrom(i, program, floor) == Ok(insts[i]);
    }
  }

  /** Every prefix has depth at least zero and the whole text has depth zero. */
  ghost predicate Balanced(s: seq<char>)
  {
    Depth(s) == 0 && forall k :: 0 <= k <= |s| ==> Depth(s[..k]) >= 0
  }

  /** In a balanced text every '[' has a ']' for the forward search to find. */
  lemma OpenHasPartner(program: seq<char>, pc: nat)
    requires pc < |program| && program[pc] == '[' && Balanced(program)
    ensures RightBracket(pc, program).Some?
  {
    assert program[0..|program|] == program;
    assert program[..pc] == program[0..pc];
    assert Depth(program[..pc]) >= 0;
    DepthSnoc(program, 0, pc);
    DepthSplit(program, 0, pc + 1, |program|);
    var q := FirstDrop(program, pc + 1, |program|);
    assert ClosesAt(program, pc, q);
    RightBracketSpec(pc, program);
  }

  /** In a balanced text no ']' comes first, and every ']' has a '[' for the
      backward search to find, unless that '[' is at index 0 and floor is 1. */
  lemma CloseHasPartner(program: seq<char>, pc: nat, floor: nat)
    requires pc < |program| && program[pc] == ']' && Balanced(program)
    requires floor <= 1 && (floor == 1 ==> program[0] != '[')
    ensures 0 < pc && ScanLeft(program, pc, 0, floor).Some?
  {
    assert program[..pc + 1] == program[0..pc + 1];
    assert Depth(program[..pc + 1]) >= 0;
    DepthSnoc(program, 0, pc);
    var q := LastRise(program, 0, pc);
    assert OpensAt(program, pc, q);
    LeftScanSpec(pc, program, floor);
  }

  /** On a balanced text of opcodes every character decodes, provided the
      backward search can reach every '[': always with floor 0, and with the
      original floor 1 when the text does not start with '['. */
  lemma InstructionFromOk(program: seq<char>, pc: nat, floor: nat)
    requires pc < |program| && floor <= 1
    requires IsOpcode(program[pc])
    requires Balanced(program)
    requires floor == 1 ==> program[0] != '['
    ensures InstructionFrom(pc, program, floor).Ok?
  {
    if program[pc] == '[' {
      OpenHasPartner(program, pc);
    } else if program[pc] == ']' {
      CloseHasPartner(program, pc, floor);
    }
  }

  /** Decoding succeeds on every balanced text of opcodes that the backward
      search can resolve (see InstructionFromOk). */
  lemma DecodeBalanced(program: seq<char>, floor: nat)
    requires floor <= 1
    requires forall i :: 0 <= i < |program| ==> IsOpcode(program[i])
    requires Balanced(program)
    requires floor == 1 && |program| > 0 ==> program[0] != '['
    ensures DecodePrefix(program, |program|, floor).Ok?
  {
    var r := DecodePrefix(program, |program|, floor);
    if r.Err? {
      InstructionFromOk(program, r.error.at, floor);
    }
  }

  /** In a decodable text every '[' has a ']' that closes it. */
  lemma DecodedOpen(program: seq<char>, floor: nat, q: nat) returns (j: nat)
    requires DecodePrefix(program, |program|, floor).Ok?
    requires q < |program| && program[q] == '['
    ensures ClosesAt(program, q, j)
  {
    var insts := DecodePrefix(program, |program|, floor).value;
    assert InstructionFrom(q, program, floor) == Ok(insts[q]);
    RightBracketSpec(q, program);
    j := insts[q].target;
  }

  /** In a decodable text every ']' has a '[' that opens it. */
  lemma DecodedClose(program: seq<char>, floor: nat, k: nat) returns (i: nat)
    requires DecodePrefix(program, |program|, floor).Ok?
    requires k < |program| && program[k] == ']'
    ensures OpensAt(program, k, i)
  {
    var insts := DecodePrefix(program, |program|, floor).value;
    assert InstructionFrom(k, program, floor) == Ok(insts[k]);
    LeftScanSpec(k, program, floor);
    i := insts[k].target;
  }

  /** A decodable text is balanced. */
  lemma DecodedIsBalanced(program: seq<char>, floor: nat)
    requires DecodePrefix(program, |program|, floor).Ok?
    ensures Balanced(program)
  {
    forall k | 0 <= k < |program| && program[k] == ']'
      ensures exists i :: OpensAt(program, k, i)
    {
      var i := DecodedClose(program, floor, k);
    }
    forall q | 0 <= q < |program| && program[q] == '['
      ensures exists j :: ClosesAt(program, q, j)
    {
      var j := DecodedOpen(program, floor, q);
    }
    forall k | 0 <= k <= |program|
      ensures Depth(program[..k]) >= 0
    {
      PrefixDepth(program, k);
      assert program[..k] == program[0..k];
    }
    SuffixDepth(program, 0);
    assert program[..|program|] == program[0..|program|] == program;
  }

  /** With the original floor 1 a decodable text does not start with '[': the
      backward search from its partner could never reach index 0. */
  lemma DecodedNoLeadingOpen(program: seq<char>)
    requires DecodePrefix(program, |program|, 1).Ok? && |program| > 0
    ensures program[0] != '['
  {
    var insts := DecodePrefix(program, |program|, 1).value;
    JumpPartners(program, 1, insts);
  }

  /** What the decoder accepts: exactly the balanced texts of opcodes, except
      that with the original floor 1 a text may not start with '['. */
  lemma DecodeAccepts(program: seq<char>, floor: nat)
    requires floor <= 1
    ensures DecodePrefix(program, |program|, floor).Ok? <==>
      (forall i :: 0 <= i < |program| ==> IsOpcode(program[i])) && Balanced(program) &&
      (floor == 1 && |program| > 0 ==> program[0] != '[')
  {
    if DecodePrefix(program, |program|, floor).Ok? {
      DecodeShape(program, floor);
      DecodedIsBalanced(program, floor);
      if floor == 1 && |program| > 0 {
        DecodedNoLeadingOpen(program);
      }
    } else if (forall i :: 0 <= i < |program| ==> IsOpcode(program[i])) && Balanced(program) &&
              (floor == 1 && |program| > 0 ==> program[0] != '[') {
      DecodeBalanced(program, floor);
    }
  }

  // ---------------------------------------------------------------------
  // The backward search never inspects index 0
  // ---------------------------------------------------------------------

  /** As written, the balanced program "[-]" does not decode: the search back
      from the ']' at index 2 stops before the '[' at index 0 and the unwrap
      panics. The corrected decoder pairs the two brackets. */
  lemma LeadingLoopRejected()
    ensures Balanced("[-]")
    ensures Decode("[-]") == Err(UnmatchedClose(2))
    ensures DecodeFixed("[-]") == Ok([JmpForward(2), Dec, JmpBack(0)])
  {
    var s := "[-]";
    LeadingLoopInstructions();
    assert DecodePrefix(s, 0, 1) == Ok([]);
    assert [] + [JmpForward(2)] == [JmpForward(2)];
    assert DecodePrefix(s, 1, 1) == Ok([JmpForward(2)]);
    assert [JmpForward(2)] + [Dec] == [JmpForward(2), Dec];
    assert DecodePrefix(s, 2, 1) == Ok([JmpForward(2), Dec]);
    assert DecodePrefix(s, 1, 0) == Ok([JmpForward(2)]);
    assert DecodePrefix(s, 2, 0) == Ok([JmpForward(2), Dec]);
    assert [JmpForward(2), Dec] + [JmpBack(0)] == [JmpForward(2), Dec, JmpBack(0)];
    assert DecodePrefix(s, 3, 0) == Ok([JmpForward(2), Dec, JmpBack(0)]);
  }

  /** How each position of "[-]" decodes under either scan floor. */
  lemma LeadingLoopInstructions()
    ensures Balanced("[-]")
    ensures InstructionFrom(0, "[-]", 1) == Ok(JmpForward(2)) == InstructionFrom(0, "[-]", 0)
    ensures InstructionFrom(1, "[-]", 1) == Ok(Dec) == InstructionFrom(1, "[-]", 0)
    ensures InstructionFrom(2, "[-]", 1) == Err(UnmatchedClose(2))
    ensures InstructionFrom(2, "[-]", 0) == Ok(JmpBack(0))
  {
    var s := "[-]";
    assert s[..0] == [] && s[..1] == ['['] && s[..2] == ['[', '-'] && s[..3] == s;
    assert multiset(s) == multiset{'[', '-', ']'};
    assert Depth(s[1..2]) == 0;
    assert RightBracket(0, s) == Some(2);
    assert ScanLeft(s, 2, 0, 1) == None;
    assert ScanLeft(s, 2, 0, 0) == Some(0);
    assert s[0] == '[' && s[1] == '-' && s[2] == ']';
  }

  /** The corrected decoder accepts exactly the balanced texts of opcodes, a
      leading '[' included, and its jumps pair each bracket with its partner. */
  lemma DecodeFixedAccepts(program: seq<char>)
    ensures DecodeFixed(program).Ok? <==>
      (forall i :: 0 <= i < |program| ==> IsOpcode(program[i])) && Balanced(program)
    ensures DecodeFixed(program).Ok? ==>
      var insts := DecodeFixed(program).value;
      forall i, j :: 0 <= i < |insts| && 0 <= j < |insts| ==>
        (insts[i] == JmpForward(j) <==> insts[j] == JmpBack(i))
  {
    DecodeAccepts(program, 0);
    if DecodeFixed(program).Ok? {
      JumpPartners(program, 0, DecodeFixed(program).value);
    }
  }

  /** Wherever the original decoder succeeds, the corrected one gives the same
      instructions, so the correction only changes programs that panicked. */
  lemma DecodeFixedAgrees(program: seq<char>)
    requires Decode(program).Ok?
    ensures DecodeFixed(program) == Decode(program)
  {
    var insts := Decode(program).value;
    forall i | 0 <= i < |program|
      ensures InstructionFrom(i, program, 0) == Ok(insts[i])
    {
      assert InstructionFrom(i, program, 1) == Ok(insts[i]);
      if program[i] == ']' {
        ScanLeftFloors(program, i, 0);
      }
    }
    assert DecodeFixed(program).value == insts;
  }
}
