/** The bytecode machine as a step function over a program counter, a stack and an output. */
module VmMachine {
  import opened MachineInts

  const STACK_SIZE := 16
  const OUTPUT_SIZE := 64

  const PUSH: uint8 := 0x01
  const POP: uint8 := 0x02
  const DUP: uint8 := 0x03
  const ADD: uint8 := 0x04
  const SUB: uint8 := 0x05
  const MUL: uint8 := 0x06
  const JMP: uint8 := 0x07
  const JZ: uint8 := 0x08
  const PRINT: uint8 := 0x09
  const HALT: uint8 := 0xFF

  datatype Status =
    | Ok
    | Halted
    | StackOverflow
    | StackUnderflow
    | BadOpcode
    | PcOutOfRange
    | OutputOverflow

  /** `stack` holds the `sp` values in use, bottom first; `output` the `out_len` values recorded. */
  datatype State = State(pc: nat, stack: seq<int>, output: seq<int>)
  {
    function Depth(): nat { |stack| }
  }

  const START := State(0, [], [])

  function SignExtend(b: uint8): int { if b < 128 then b else b - 256 }

  /** The two's complement value of the low 32 bits. C leaves signed overflow undefined. */
  function Wrap32(x: int): int { (x + 0x8000_0000) % 0x1_0000_0000 - 0x8000_0000 }

  datatype Operator = Plus | Minus | Times

  function Apply(op: Operator, a: int, b: int): int {
    match op
    case Plus => a + b
    case Minus => a - b
    case Times => a * b
  }

  function Push(s: State, v: int): (Status, State) {
    if s.Depth() >= STACK_SIZE then (StackOverflow, s) else (Ok, s.(stack := s.stack + [v]))
  }

  function Arithmetic(s: State, op: Operator): (Status, State) {
    var n := s.Depth();
    if n < 2 then (StackUnderflow, s)
    else (Ok, s.(stack := s.stack[..n - 2] + [Wrap32(Apply(op, s.stack[n - 2], s.stack[n - 1]))]))
  }

  /** Most instructions move `pc` on whether or not they succeeded. */
  function Advance(r: (Status, State), width: nat): (Status, State) {
    (r.0, r.1.(pc := r.1.pc + width))
  }

  function Step(code: seq<uint8>, s: State): (Status, State) {
    var n := s.Depth();
    if s.pc >= |code| then (PcOutOfRange, s)
    else
      var op := code[s.pc];
      if op == PUSH || op == JMP || op == JZ then
        if s.pc + 1 >= |code| then (PcOutOfRange, s) else StepWithOperand(code, s, op, code[s.pc + 1])
      else if op == POP then
        Advance(if n == 0 then (StackUnderflow, s) else (Ok, s.(stack := s.stack[..n - 1])), 1)
      else if op == DUP then
        Advance(if n == 0 then (StackUnderflow, s) else Push(s, s.stack[n - 1]), 1)
      else if op == ADD then Advance(Arithmetic(s, Plus), 1)
      else if op == SUB then Advance(Arithmetic(s, Minus), 1)
      else if op == MUL then Advance(Arithmetic(s, Times), 1)
      else if op == PRINT then
        Advance(if n == 0 then (StackUnderflow, s)
                else if |s.output| >= OUTPUT_SIZE then (OutputOverflow, s)
                else (Ok, s.(stack := s.stack[..n - 1], output := s.output + [s.stack[n - 1]])), 1)
      else if op == HALT then (Halted, s)
      else (BadOpcode, s)
  }

  function StepWithOperand(code: seq<uint8>, s: State, op: uint8, operand: uint8): (Status, State) {
    var n := s.Depth();
    if op == PUSH then Advance(Push(s, SignExtend(operand)), 2)
    else if operand >= |code| then (PcOutOfRange, s)
    else if op == JMP then (Ok, s.(pc := operand))
    else if n == 0 then (StackUnderflow, s)
    else if s.stack[n - 1] == 0 then (Ok, s.(stack := s.stack[..n - 1], pc := operand))
    else (Ok, s.(stack := s.stack[..n - 1], pc := s.pc + 2))
  }

  /** At most `n` steps, stopping after the first that is not Ok. */
  function Run(code: seq<uint8>, s: State, n: nat): (Status, State)
    decreases n
  {
    if n == 0 then (Ok, s)
    else
      var r := Step(code, s);
      if r.0 != Ok then r else Run(code, r.1, n - 1)
  }

  /** `vm_run` from `s` returns. */
  ghost predicate Stops(code: seq<uint8>, s: State) {
    exists n: nat :: Run(code, s, n).0 != Ok
  }

  ghost predicate InBounds(code: seq<uint8>, s: State) {
    s.pc <= |code| && s.Depth() <= STACK_SIZE && |s.output| <= OUTPUT_SIZE
  }

  // ---------------------------------------------------------------- single steps

  /** Every step stays in bounds and only appends to the output; a step that fails changes neither
      the stack nor the output. */
  lemma StepIsSafe(code: seq<uint8>, s: State)
    requires InBounds(code, s)
    ensures var (status, s') := Step(code, s);
            && InBounds(code, s')
            && s.output <= s'.output
            && (status != Ok ==> s'.stack == s.stack && s'.output == s.output)
  {
  }

  /** The instruction set: instructions without an operand, and bytes that are no instruction. */
  lemma SimpleInstructions(code: seq<uint8>, s: State)
    requires s.pc < |code| && code[s.pc] !in {0x01, 0x04, 0x05, 0x06, 0x07, 0x08}
    ensures var n, op, next := |s.stack|, code[s.pc], s.(pc := s.pc + 1);
            Step(code, s) ==
              if op == 0x02 then
                if n == 0 then (StackUnderflow, next) else (Ok, next.(stack := s.stack[..n - 1]))
              else if op == 0x03 then
                if n == 0 then (StackUnderflow, next)
                else if n >= 16 then (StackOverflow, next)
                else (Ok, next.(stack := s.stack + [s.stack[n - 1]]))
              else if op == 0x09 then
                if n == 0 then (StackUnderflow, next)
                else if |s.output| >= 64 then (OutputOverflow, next)
                else (Ok, next.(stack := s.stack[..n - 1], output := s.output + [s.stack[n - 1]]))
              else if op == 0xFF then (Halted, s)
              else (BadOpcode, s)
  {
  }

  /** ADD, SUB and MUL, the operand popped last on the left. */
  lemma ArithmeticInstructions(code: seq<uint8>, s: State)
    requires s.pc < |code| && code[s.pc] in {0x04, 0x05, 0x06}
    ensures var n, next := |s.stack|, s.(pc := s.pc + 1);
            if n < 2 then Step(code, s) == (StackUnderflow, next)
            else
              var a, b := s.stack[n - 2], s.stack[n - 1];
              var exact := if code[s.pc] == 0x04 then a + b else if code[s.pc] == 0x05 then a - b else a * b;
              exists v: int :: Step(code, s) == (Ok, next.(stack := s.stack[..n - 2] + [v]))
                          && -0x8000_0000 <= v < 0x8000_0000
                          && (-0x8000_0000 <= exact < 0x8000_0000 ==> v == exact)
  {
    var n := |s.stack|;
    if n >= 2 {
      var a, b := s.stack[n - 2], s.stack[n - 1];
      var op := if code[s.pc] == 0x04 then Plus else if code[s.pc] == 0x05 then Minus else Times;
      var v := Wrap32(Apply(op, a, b));
      WrapFits(Apply(op, a, b));
      assert Step(code, s) == (Ok, State(s.pc + 1, s.stack[..n - 2] + [v], s.output));
    }
  }

  lemma WrapFits(x: int)
    ensures -0x8000_0000 <= Wrap32(x) < 0x8000_0000
    ensures -0x8000_0000 <= x < 0x8000_0000 ==> Wrap32(x) == x
  {
  }

  /** PUSH, JMP and JZ, and where the code ends too early. */
  lemma OperandInstructions(code: seq<uint8>, s: State)
    ensures s.pc >= |code| ==> Step(code, s) == (PcOutOfRange, s)
    ensures s.pc + 1 == |code| && code[s.pc] in {0x01, 0x07, 0x08} ==> Step(code, s) == (PcOutOfRange, s)
    ensures s.pc + 1 < |code| && code[s.pc] == 0x01 && |s.stack| >= 16 ==>
              Step(code, s) == (StackOverflow, s.(pc := s.pc + 2))
    ensures s.pc + 1 < |code| && code[s.pc] == 0x01 && |s.stack| < 16 ==>
              exists v: int :: Step(code, s) == (Ok, s.(pc := s.pc + 2, stack := s.stack + [v]))
                          && -128 <= v < 128 && (v - code[s.pc + 1]) % 256 == 0
    ensures s.pc + 1 < |code| && code[s.pc] in {0x07, 0x08} && code[s.pc + 1] >= |code| ==>
              Step(code, s) == (PcOutOfRange, s)
    ensures s.pc + 1 < |code| && code[s.pc] == 0x07 && code[s.pc + 1] < |code| ==>
              Step(code, s) == (Ok, s.(pc := code[s.pc + 1]))
    ensures s.pc + 1 < |code| && code[s.pc] == 0x08 && code[s.pc + 1] < |code| ==>
              var n := |s.stack|;
              Step(code, s) ==
                if n == 0 then (StackUnderflow, s)
                else (Ok, s.(stack := s.stack[..n - 1], pc := if s.stack[n - 1] == 0 then code[s.pc + 1] else s.pc + 2))
  {
    if s.pc + 1 < |code| && code[s.pc] == 0x01 && |s.stack| < 16 {
      var v: int := SignExtend(code[s.pc + 1]);
      assert Step(code, s) == (Ok, s.(pc := s.pc + 2, stack := s.stack + [v]));
    }
  }

  lemma {:induction false} RunIsSafe(code: seq<uint8>, s: State, n: nat)
    requires InBounds(code, s)
    ensures InBounds(code, Run(code, s, n).1) && s.output <= Run(code, s, n).1.output
    decreases n
  {
    hide Step, InBounds;
    if n == 0 {
    } else {
      StepIsSafe(code, s);
      var r := Step(code, s);
      if r.0 == Ok { RunIsSafe(code, r.1, n - 1); }
    }
  }

  // ---------------------------------------------------------------- composing runs

  /** Runs compose. */
  lemma {:induction false} RunSplits(code: seq<uint8>, s: State, m: nat, n: nat)
    requires Run(code, s, m).0 == Ok
    ensures Run(code, s, m + n) == Run(code, Run(code, s, m).1, n)
    decreases m
  {
    hide Step;
    if m == 0 {
    } else {
      RunSplits(code, Step(code, s).1, m - 1, n);
    }
  }

  /** Once stopped, a run gives the same result however many more steps are allowed. */
  lemma {:induction false} StoppedStays(code: seq<uint8>, s: State, m: nat, n: nat)
    requires Run(code, s, m).0 != Ok && m <= n
    ensures Run(code, s, n) == Run(code, s, m)
    decreases m
  {
    hide Step;
    var r := Step(code, s);
    if r.0 != Ok {
    } else {
      StoppedStays(code, r.1, m - 1, n - 1);
    }
  }
}
