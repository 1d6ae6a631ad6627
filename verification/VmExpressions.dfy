/** Expressions compiled to bytecode run to their value. */
module VmExpressions {
  import opened MachineInts
  import opened VmMachine

  /** Expressions whose code uses every instruction but PRINT and HALT. */
  datatype Expr =
    | Lit(value: int8)                                 // PUSH value
    | Bin(op: Operator, left: Expr, right: Expr)      // left; right; ADD, SUB or MUL
    | Square(arg: Expr)                               // arg; DUP; MUL
    | Second(first: Expr, second: Expr)               // first; POP; second
    | Cond(test: Expr, nonzero: Expr, zero: Expr)     // test; JZ L; nonzero; JMP M; L: zero; M:

  // ---------------------------------------------------------------- code

  function Opcode(op: Operator): uint8 {
    match op
    case Plus => ADD
    case Minus => SUB
    case Times => MUL
  }

  function Length(e: Expr): nat {
    match e
    case Lit(_) => 2
    case Bin(_, l, r) => Length(l) + Length(r) + 1
    case Square(a) => Length(a) + 2
    case Second(a, b) => Length(a) + 1 + Length(b)
    case Cond(t, a, b) => Length(t) + 2 + Length(a) + 2 + Length(b)
  }

  function Address(p: nat): uint8 { p % 256 }

  /** The code of `e` for offset `p`; jump targets are absolute. */
  function Compile(e: Expr, p: nat): (code: seq<uint8>)
    ensures |code| == Length(e)
  {
    match e
    case Lit(v) => [PUSH, v % 256]
    case Bin(op, l, r) => Compile(l, p) + Compile(r, p + Length(l)) + [Opcode(op)]
    case Square(a) => Compile(a, p) + [DUP, MUL]
    case Second(a, b) => Compile(a, p) + [POP] + Compile(b, p + Length(a) + 1)
    case Cond(t, a, b) =>
      var pa := p + Length(t) + 2;
      var pb := pa + Length(a) + 2;
      Compile(t, p) + [JZ, Address(pb)] + Compile(a, pa) + [JMP, Address(pb + Length(b))] + Compile(b, pb)
  }

  /** Every jump in the code of `e` at `p` has a target that fits a byte and lies inside the program. */
  predicate JumpsFit(e: Expr, p: nat, codeLen: nat) {
    match e
    case Lit(_) => true
    case Bin(_, l, r) => JumpsFit(l, p, codeLen) && JumpsFit(r, p + Length(l), codeLen)
    case Square(a) => JumpsFit(a, p, codeLen)
    case Second(a, b) => JumpsFit(a, p, codeLen) && JumpsFit(b, p + Length(a) + 1, codeLen)
    case Cond(t, a, b) =>
      var pa := p + Length(t) + 2;
      var pb := pa + Length(a) + 2;
      && p + Length(e) < 256 && p + Length(e) < codeLen
      && JumpsFit(t, p, codeLen) && JumpsFit(a, pa, codeLen) && JumpsFit(b, pb, codeLen)
  }

  // ---------------------------------------------------------------- meaning

  function Eval(e: Expr): int {
    match e
    case Lit(v) => v
    case Bin(Plus, l, r) => Eval(l) + Eval(r)
    case Bin(Minus, l, r) => Eval(l) - Eval(r)
    case Bin(Times, l, r) => Eval(l) * Eval(r)
    case Square(a) => Eval(a) * Eval(a)
    case Second(_, b) => Eval(b)
    case Cond(t, a, b) => if Eval(t) == 0 then Eval(b) else Eval(a)
  }

  predicate FitsInt32(x: int) { -0x8000_0000 <= x < 0x8000_0000 }

  /** The exact value of every subexpression that is evaluated fits a 32-bit integer. */
  predicate NeverOverflows(e: Expr) {
    && FitsInt32(Eval(e))
    && match e
       case Lit(_) => true
       case Bin(_, l, r) => NeverOverflows(l) && NeverOverflows(r)
       case Square(a) => NeverOverflows(a)
       case Second(a, b) => NeverOverflows(a) && NeverOverflows(b)
       case Cond(t, a, b) => NeverOverflows(t) && NeverOverflows(if Eval(t) == 0 then b else a)
  }

  function Max(a: nat, b: nat): nat { if a < b then b else a }

  /** How many free stack slots evaluating `e` takes at its peak. */
  function Need(e: Expr): (n: nat)
    ensures n >= 1
  {
    match e
    case Lit(_) => 1
    case Bin(_, l, r) => Max(Need(l), 1 + Need(r))
    case Square(a) => Max(Need(a), 2)
    case Second(a, b) => Max(Need(a), Need(b))
    case Cond(t, a, b) => Max(Need(t), if Eval(t) == 0 then Need(b) else Need(a))
  }

  function Steps(e: Expr): nat {
    match e
    case Lit(_) => 1
    case Bin(_, l, r) => Steps(l) + Steps(r) + 1
    case Square(a) => Steps(a) + 1 + 1
    case Second(a, b) => Steps(a) + 1 + Steps(b)
    case Cond(t, a, b) => Steps(t) + 1 + if Eval(t) == 0 then Steps(b) else Steps(a) + 1
  }

  // ---------------------------------------------------------------- code in a program

  /** The bytes `c` stand at offset `p` of the program. */
  predicate At(code: seq<uint8>, p: nat, c: seq<uint8>) {
    p + |c| <= |code| && forall i :: 0 <= i < |c| ==> c[i] == code[p + i]
  }

  lemma AtParts(code: seq<uint8>, p: nat, a: seq<uint8>, b: seq<uint8>)
    requires At(code, p, a + b)
    ensures At(code, p, a) && At(code, p + |a|, b)
  {
    var c := a + b;
    assert forall i :: 0 <= i < |a| ==> a[i] == c[i];
    forall i | 0 <= i < |b| ensures b[i] == code[p + |a| + i] {
      assert b[i] == c[|a| + i];
    }
  }

  /** The code of `e` stands at `p`, with its jumps in range. */
  ghost predicate Holds(code: seq<uint8>, p: nat, e: Expr) {
    At(code, p, Compile(e, p)) && JumpsFit(e, p, |code|)
  }

  lemma BinParts(code: seq<uint8>, p: nat, e: Expr)
    requires Holds(code, p, e) && e.Bin?
    ensures Holds(code, p, e.left) && Holds(code, p + Length(e.left), e.right)
    ensures At(code, p + Length(e.left) + Length(e.right), [Opcode(e.op)])
  {
    hide At;
    var l, r := Compile(e.left, p), Compile(e.right, p + Length(e.left));
    AtParts(code, p, l + r, [Opcode(e.op)]);
    AtParts(code, p, l, r);
  }

  lemma SquareParts(code: seq<uint8>, p: nat, e: Expr)
    requires Holds(code, p, e) && e.Square?
    ensures Holds(code, p, e.arg)
    ensures At(code, p + Length(e.arg), [DUP]) && At(code, p + Length(e.arg) + 1, [MUL])
  {
    hide At;
    AtParts(code, p, Compile(e.arg, p), [DUP, MUL]);
    assert [DUP, MUL] == [DUP] + [MUL];
    AtParts(code, p + Length(e.arg), [DUP], [MUL]);
  }

  lemma SecondParts(code: seq<uint8>, p: nat, e: Expr)
    requires Holds(code, p, e) && e.Second?
    ensures Holds(code, p, e.first) && Holds(code, p + Length(e.first) + 1, e.second)
    ensures At(code, p + Length(e.first), [POP])
  {
    hide At;
    var a, b := Compile(e.first, p), Compile(e.second, p + Length(e.first) + 1);
    AtParts(code, p, a + [POP], b);
    AtParts(code, p, a, [POP]);
  }

  lemma CondFits(e: Expr, p: nat, codeLen: nat)
    requires e.Cond? && JumpsFit(e, p, codeLen)
    ensures var pa := p + Length(e.test) + 2;
            var pb := pa + Length(e.nonzero) + 2;
            && JumpsFit(e.test, p, codeLen) && JumpsFit(e.nonzero, pa, codeLen) && JumpsFit(e.zero, pb, codeLen)
            && pb + Length(e.zero) < codeLen && pb + Length(e.zero) < 256
            && Address(pb) == pb && Address(pb + Length(e.zero)) == pb + Length(e.zero)
  {
  }

  lemma FiveParts(code: seq<uint8>, p: nat, a: seq<uint8>, b: seq<uint8>, c: seq<uint8>, d: seq<uint8>, e: seq<uint8>)
    requires At(code, p, a + b + c + d + e)
    ensures At(code, p, a) && At(code, p + |a|, b) && At(code, p + |a| + |b|, c)
    ensures At(code, p + |a| + |b| + |c|, d) && At(code, p + |a| + |b| + |c| + |d|, e)
  {
    hide At;
    AtParts(code, p, a + b + c + d, e);
    AtParts(code, p, a + b + c, d);
    AtParts(code, p, a + b, c);
    AtParts(code, p, a, b);
  }

  lemma CondParts(code: seq<uint8>, p: nat, e: Expr)
    requires Holds(code, p, e) && e.Cond?
    ensures var pa := p + Length(e.test) + 2;
            var pb := pa + Length(e.nonzero) + 2;
            && Holds(code, p, e.test) && Holds(code, pa, e.nonzero) && Holds(code, pb, e.zero)
            && At(code, pa - 2, [JZ, pb]) && At(code, pb - 2, [JMP, pb + Length(e.zero)])
            && pb + Length(e.zero) < |code| && pb + Length(e.zero) < 256
  {
    hide At, Length, JumpsFit, Address;
    CondFits(e, p, |code|);
    var pa := p + Length(e.test) + 2;
    var pb := pa + Length(e.nonzero) + 2;
    var t, a, b := Compile(e.test, p), Compile(e.nonzero, pa), Compile(e.zero, pb);
    FiveParts(code, p, t, [JZ, Address(pb)], a, [JMP, Address(pb + Length(e.zero))], b);
  }

  // ---------------------------------------------------------------- single instructions

  lemma WrapExact(x: int)
    requires FitsInt32(x)
    ensures Wrap32(x) == x
  {
  }

  lemma PushStep(code: seq<uint8>, s: State, v: int8)
    requires At(code, s.pc, [PUSH, v % 256]) && s.Depth() <= STACK_SIZE
    ensures if s.Depth() < STACK_SIZE then Step(code, s) == (Ok, State(s.pc + 2, s.stack + [v], s.output))
            else Step(code, s).0 == StackOverflow
  {
    var c: seq<uint8> := [PUSH, v % 256];
    assert c[0] == PUSH && c[1] == v % 256;
    assert SignExtend(v % 256) == v;
  }

  lemma OperatorStep(code: seq<uint8>, s: State, op: Operator, a: int, b: int, rest: seq<int>)
    requires At(code, s.pc, [Opcode(op)]) && s.stack == rest + [a] + [b]
    requires FitsInt32(Apply(op, a, b))
    ensures Step(code, s) == (Ok, State(s.pc + 1, rest + [Apply(op, a, b)], s.output))
  {
    WrapExact(Apply(op, a, b));
    assert code[s.pc] == [Opcode(op)][0];
    var n := |s.stack|;
    assert s.stack[..n - 2] == rest && s.stack[n - 2] == a && s.stack[n - 1] == b;
  }

  lemma DupStep(code: seq<uint8>, s: State, a: int, rest: seq<int>)
    requires At(code, s.pc, [DUP]) && s.stack == rest + [a] && s.Depth() <= STACK_SIZE
    ensures if s.Depth() < STACK_SIZE then Step(code, s) == (Ok, State(s.pc + 1, rest + [a] + [a], s.output))
            else Step(code, s).0 == StackOverflow
  {
    assert code[s.pc] == [DUP][0];
  }

  lemma PopStep(code: seq<uint8>, s: State, a: int, rest: seq<int>)
    requires At(code, s.pc, [POP]) && s.stack == rest + [a]
    ensures Step(code, s) == (Ok, State(s.pc + 1, rest, s.output))
  {
    assert code[s.pc] == [POP][0];
    assert s.stack[..|s.stack| - 1] == rest;
  }

  lemma JumpStep(code: seq<uint8>, s: State, target: uint8)
    requires At(code, s.pc, [JMP, target]) && target < |code|
    ensures Step(code, s) == (Ok, State(target, s.stack, s.output))
  {
    var c := [JMP, target];
    assert c[0] == JMP && c[1] == target;
  }

  lemma BranchStep(code: seq<uint8>, s: State, target: uint8, v: int, rest: seq<int>)
    requires At(code, s.pc, [JZ, target]) && target < |code| && s.stack == rest + [v]
    ensures Step(code, s) == (Ok, State(if v == 0 then target else s.pc + 2, rest, s.output))
  {
    var c := [JZ, target];
    assert c[0] == JZ && c[1] == target;
    assert s.stack[..|s.stack| - 1] == rest;
  }

  // ---------------------------------------------------------------- sequencing

  lemma OneStep(code: seq<uint8>, s: State)
    ensures Run(code, s, 1) == Step(code, s)
  {
    hide Step;
    var r := Step(code, s);
    assert Run(code, r.1, 0) == (Ok, r.1);
  }

  lemma Then(code: seq<uint8>, s: State, s1: State, r: (Status, State), m: nat, n: nat)
    requires Run(code, s, m) == (Ok, s1) && Run(code, s1, n) == r
    ensures Run(code, s, m + n) == r
  {
    hide Step;
    RunSplits(code, s, m, n);
  }

  lemma ThenStep(code: seq<uint8>, s: State, s1: State, r: (Status, State), m: nat)
    requires Run(code, s, m) == (Ok, s1) && Step(code, s1) == r
    ensures Run(code, s, m + 1) == r
  {
    hide Step, Run;
    OneStep(code, s1);
    Then(code, s, s1, r, m, 1);
  }

  lemma FailsEarlier(code: seq<uint8>, s: State, m: nat, n: nat)
    requires Run(code, s, m).0 == StackOverflow && m <= n
    ensures Run(code, s, n).0 == StackOverflow
  {
    hide Step;
    StoppedStays(code, s, m, n);
  }

  // ---------------------------------------------------------------- evaluation

  /** The state after the code of `e` has run from `s`. */
  function Pushed(s: State, e: Expr): State {
    State(s.pc + Length(e), s.stack + [Eval(e)], s.output)
  }

  ghost predicate Pushes(code: seq<uint8>, s: State, e: Expr) {
    Run(code, s, Steps(e)) == (Ok, Pushed(s, e))
  }

  lemma LitPushes(code: seq<uint8>, s: State, e: Expr)
    requires e.Lit? && Holds(code, s.pc, e) && s.Depth() <= STACK_SIZE
    ensures if s.Depth() < STACK_SIZE then Pushes(code, s, e) else Run(code, s, Steps(e)).0 == StackOverflow
  {
    hide Step, Run, At;
    PushStep(code, s, e.value);
    OneStep(code, s);
  }

  lemma EvalApplies(e: Expr)
    ensures e.Bin? ==> Eval(e) == Apply(e.op, Eval(e.left), Eval(e.right))
    ensures e.Square? ==> Eval(e) == Apply(Times, Eval(e.arg), Eval(e.arg))
  {
  }

  lemma BinPushes(code: seq<uint8>, s: State, e: Expr)
    requires e.Bin? && At(code, s.pc + Length(e.left) + Length(e.right), [Opcode(e.op)]) && FitsInt32(Eval(e))
    requires Pushes(code, s, e.left) && Pushes(code, Pushed(s, e.left), e.right)
    ensures Pushes(code, s, e)
  {
    hide Step, Run, At, Apply;
    EvalApplies(e);
    var s1 := Pushed(s, e.left);
    var s2 := Pushed(s1, e.right);
    Then(code, s, s1, (Ok, s2), Steps(e.left), Steps(e.right));
    OperatorStep(code, s2, e.op, Eval(e.left), Eval(e.right), s.stack);
    ThenStep(code, s, s2, (Ok, Pushed(s, e)), Steps(e.left) + Steps(e.right));
  }

  /** DUP after the argument: the one place where a second slot is needed. */
  lemma Duplicates(code: seq<uint8>, s: State, a: Expr)
    requires Pushes(code, s, a) && At(code, s.pc + Length(a), [DUP]) && s.Depth() < STACK_SIZE
    ensures if s.Depth() + 2 <= STACK_SIZE
            then Run(code, s, Steps(a) + 1)
                 == (Ok, State(s.pc + Length(a) + 1, s.stack + [Eval(a)] + [Eval(a)], s.output))
            else Run(code, s, Steps(a) + 1).0 == StackOverflow
  {
    hide Step, Run, At;
    var s1 := Pushed(s, a);
    DupStep(code, s1, Eval(a), s.stack);
    ThenStep(code, s, s1, Step(code, s1), Steps(a));
  }

  lemma SquarePushes(code: seq<uint8>, s: State, e: Expr)
    requires e.Square? && FitsInt32(Eval(e)) && Pushes(code, s, e.arg) && s.Depth() + 2 <= STACK_SIZE
    requires At(code, s.pc + Length(e.arg), [DUP]) && At(code, s.pc + Length(e.arg) + 1, [MUL])
    ensures Pushes(code, s, e)
  {
    hide Step, Run, At, Apply;
    EvalApplies(e);
    var v := Eval(e.arg);
    var s2 := State(s.pc + Length(e.arg) + 1, s.stack + [v] + [v], s.output);
    Duplicates(code, s, e.arg);
    OperatorStep(code, s2, Times, v, v, s.stack);
    ThenStep(code, s, s2, (Ok, Pushed(s, e)), Steps(e.arg) + 1);
  }

  lemma Discards(code: seq<uint8>, s: State, a: Expr)
    requires Pushes(code, s, a) && At(code, s.pc + Length(a), [POP])
    ensures Run(code, s, Steps(a) + 1) == (Ok, State(s.pc + Length(a) + 1, s.stack, s.output))
  {
    hide Step, Run, At;
    var s1 := Pushed(s, a);
    PopStep(code, s1, Eval(a), s.stack);
    ThenStep(code, s, s1, Step(code, s1), Steps(a));
  }

  lemma SecondPushes(code: seq<uint8>, s: State, e: Expr)
    requires e.Second? && Pushes(code, s, e.first) && At(code, s.pc + Length(e.first), [POP])
    requires Pushes(code, State(s.pc + Length(e.first) + 1, s.stack, s.output), e.second)
    ensures Pushes(code, s, e)
  {
    hide Step, Run, At;
    Discards(code, s, e.first);
    Then(code, s, State(s.pc + Length(e.first) + 1, s.stack, s.output), (Ok, Pushed(s, e)),
         Steps(e.first) + 1, Steps(e.second));
  }

  /** Where the branch of a conditional goes, and with what. */
  function Branched(s: State, e: Expr): State
    requires e.Cond?
  {
    var pa := s.pc + Length(e.test) + 2;
    State(if Eval(e.test) == 0 then pa + Length(e.nonzero) + 2 else pa, s.stack, s.output)
  }

  function Taken(e: Expr): Expr
    requires e.Cond?
  {
    if Eval(e.test) == 0 then e.zero else e.nonzero
  }

  lemma Branches(code: seq<uint8>, s: State, e: Expr)
    requires e.Cond? && Holds(code, s.pc, e) && Pushes(code, s, e.test)
    ensures Run(code, s, Steps(e.test) + 1) == (Ok, Branched(s, e))
  {
    hide Step, Run, At, Compile, JumpsFit;
    CondParts(code, s.pc, e);
    var s1 := Pushed(s, e.test);
    BranchStep(code, s1, s.pc + Length(e.test) + 2 + Length(e.nonzero) + 2, Eval(e.test), s.stack);
    ThenStep(code, s, s1, Step(code, s1), Steps(e.test));
  }

  lemma CondPushes(code: seq<uint8>, s: State, e: Expr)
    requires e.Cond? && Holds(code, s.pc, e) && Pushes(code, s, e.test)
    requires Pushes(code, Branched(s, e), Taken(e))
    ensures Pushes(code, s, e)
  {
    hide Step, Run, At, Compile, JumpsFit, Holds;
    Branches(code, s, e);
    var s2 := Branched(s, e);
    var s3 := Pushed(s2, Taken(e));
    Then(code, s, s2, (Ok, s3), Steps(e.test) + 1, Steps(Taken(e)));
    if Eval(e.test) != 0 {
      CondParts(code, s.pc, e);
      JumpStep(code, s3, s.pc + Length(e));
      ThenStep(code, s, s3, (Ok, Pushed(s, e)), Steps(e.test) + 1 + Steps(e.nonzero));
    }
  }

  /** Compiled expressions evaluate: placed anywhere in a program, with enough free stack, the code
      pushes exactly the value, touches nothing else and ends just behind itself. */
  lemma {:induction false} Evaluates(code: seq<uint8>, s: State, e: Expr)
    requires Holds(code, s.pc, e) && NeverOverflows(e)
    requires s.Depth() + Need(e) <= STACK_SIZE
    ensures Pushes(code, s, e)
    decreases e
  {
    hide Pushes, At, Holds, Apply, Compile, JumpsFit, Run, Step, Steps, Length, Opcode, SignExtend;
    match e
    case Lit(b) =>
      LitPushes(code, s, e);
    case Bin(op, l, r) =>
      BinParts(code, s.pc, e);
      Evaluates(code, s, l);
      Evaluates(code, Pushed(s, l), r);
      BinPushes(code, s, e);
    case Square(a) =>
      SquareParts(code, s.pc, e);
      Evaluates(code, s, a);
      SquarePushes(code, s, e);
    case Second(a, b) =>
      SecondParts(code, s.pc, e);
      Evaluates(code, s, a);
      Evaluates(code, State(s.pc + Length(a) + 1, s.stack, s.output), b);
      SecondPushes(code, s, e);
    case Cond(t, a, b) =>
      CondParts(code, s.pc, e);
      Evaluates(code, s, t);
      Evaluates(code, Branched(s, e), Taken(e));
      CondPushes(code, s, e);
  }

  // ---------------------------------------------------------------- too little stack

  ghost predicate RunsOut(code: seq<uint8>, s: State, e: Expr) {
    Run(code, s, Steps(e)).0 == StackOverflow
  }

  lemma RunsOutFirst(code: seq<uint8>, s: State, a: Expr, e: Expr)
    requires RunsOut(code, s, a) && Steps(a) <= Steps(e)
    ensures RunsOut(code, s, e)
  {
    hide Step, Run, Steps;
    FailsEarlier(code, s, Steps(a), Steps(e));
  }

  lemma RunsOutLater(code: seq<uint8>, s: State, m: nat, s1: State, b: Expr, e: Expr)
    requires Run(code, s, m) == (Ok, s1) && RunsOut(code, s1, b) && m + Steps(b) <= Steps(e)
    ensures RunsOut(code, s, e)
  {
    hide Step, Run, Steps;
    Then(code, s, s1, Run(code, s1, Steps(b)), m, Steps(b));
    FailsEarlier(code, s, m + Steps(b), Steps(e));
  }

  lemma RunsOutAfter(code: seq<uint8>, s: State, a: Expr, b: Expr, e: Expr)
    requires Pushes(code, s, a) && RunsOut(code, Pushed(s, a), b) && Steps(a) + Steps(b) <= Steps(e)
    ensures RunsOut(code, s, e)
  {
    hide Step, Run, Steps;
    RunsOutLater(code, s, Steps(a), Pushed(s, a), b, e);
  }

  lemma RunsOutDuplicating(code: seq<uint8>, s: State, e: Expr)
    requires e.Square? && Holds(code, s.pc, e) && Pushes(code, s, e.arg) && s.Depth() + 1 == STACK_SIZE
    ensures RunsOut(code, s, e)
  {
    hide Step, Run, At, Holds;
    SquareParts(code, s.pc, e);
    Duplicates(code, s, e.arg);
    FailsEarlier(code, s, Steps(e.arg) + 1, Steps(e));
  }

  lemma RunsOutSecond(code: seq<uint8>, s: State, e: Expr)
    requires e.Second? && Holds(code, s.pc, e) && Pushes(code, s, e.first)
    requires RunsOut(code, State(s.pc + Length(e.first) + 1, s.stack, s.output), e.second)
    ensures RunsOut(code, s, e)
  {
    hide Step, Run, At, Holds;
    SecondParts(code, s.pc, e);
    Discards(code, s, e.first);
    RunsOutLater(code, s, Steps(e.first) + 1, State(s.pc + Length(e.first) + 1, s.stack, s.output), e.second, e);
  }

  lemma RunsOutTaken(code: seq<uint8>, s: State, e: Expr)
    requires e.Cond? && Holds(code, s.pc, e) && Pushes(code, s, e.test)
    requires RunsOut(code, Branched(s, e), Taken(e))
    ensures RunsOut(code, s, e)
  {
    hide Step, Run, At, Holds;
    Branches(code, s, e);
    RunsOutLater(code, s, Steps(e.test) + 1, Branched(s, e), Taken(e), e);
  }

  lemma RunsOutPushing(code: seq<uint8>, s: State, e: Expr)
    requires e.Lit? && Holds(code, s.pc, e) && s.Depth() == STACK_SIZE
    ensures RunsOut(code, s, e)
  {
    hide Step, Run, At, Holds;
    LitPushes(code, s, e);
  }

  /** With too little free stack the code overflows instead. */
  lemma {:induction false} Overflows(code: seq<uint8>, s: State, e: Expr)
    requires Holds(code, s.pc, e) && NeverOverflows(e)
    requires s.Depth() <= STACK_SIZE < s.Depth() + Need(e)
    ensures RunsOut(code, s, e)
    decreases e
  {
    hide Run, RunsOut, Pushes, Step, At, Holds, Apply, Compile, JumpsFit, Length, Opcode, SignExtend;
    match e
    case Lit(b) =>
      RunsOutPushing(code, s, e);
    case Bin(op, l, r) =>
      BinParts(code, s.pc, e);
      if s.Depth() + Need(l) > STACK_SIZE {
        Overflows(code, s, l);
        RunsOutFirst(code, s, l, e);
      } else {
        Evaluates(code, s, l);
        Overflows(code, Pushed(s, l), r);
        RunsOutAfter(code, s, l, r, e);
      }
    case Square(a) =>
      SquareParts(code, s.pc, e);
      if s.Depth() + Need(a) > STACK_SIZE {
        Overflows(code, s, a);
        RunsOutFirst(code, s, a, e);
      } else {
        Evaluates(code, s, a);
        RunsOutDuplicating(code, s, e);
      }
    case Second(a, b) =>
      SecondParts(code, s.pc, e);
      if s.Depth() + Need(a) > STACK_SIZE {
        Overflows(code, s, a);
        RunsOutFirst(code, s, a, e);
      } else {
        Evaluates(code, s, a);
        Overflows(code, State(s.pc + Length(a) + 1, s.stack, s.output), b);
        RunsOutSecond(code, s, e);
      }
    case Cond(t, a, b) =>
      CondParts(code, s.pc, e);
      if s.Depth() + Need(t) > STACK_SIZE {
        Overflows(code, s, t);
        RunsOutFirst(code, s, t, e);
      } else {
        Evaluates(code, s, t);
        Overflows(code, Branched(s, e), Taken(e));
        RunsOutTaken(code, s, e);
      }
  }

  // ---------------------------------------------------------------- whole programs

  function Program(e: Expr): seq<uint8> { Compile(e, 0) + [PRINT, HALT] }

  lemma PrintStep(code: seq<uint8>, s: State, v: int)
    requires At(code, s.pc, [PRINT]) && s.stack == [v] && s.output == []
    ensures Step(code, s) == (Ok, State(s.pc + 1, [], [v]))
  {
    assert code[s.pc] == [PRINT][0];
    assert s.stack[..0] == [] && s.output + [v] == [v];
  }

  lemma HaltStep(code: seq<uint8>, s: State)
    requires At(code, s.pc, [HALT])
    ensures Step(code, s) == (Halted, s)
  {
    assert code[s.pc] == [HALT][0];
  }

  lemma ProgramHolds(e: Expr)
    requires JumpsFit(e, 0, Length(e) + 2)
    ensures Holds(Program(e), 0, e)
    ensures At(Program(e), Length(e), [PRINT]) && At(Program(e), Length(e) + 1, [HALT])
  {
    hide Compile, JumpsFit, Length;
    var c := Compile(e, 0);
    assert c + [PRINT, HALT] == c + [PRINT] + [HALT];
    assert At(Program(e), 0, c);
    assert At(Program(e), |c|, [PRINT]);
    assert At(Program(e), |c| + 1, [HALT]);
  }

  /** The program for `e` prints the value of `e` and halts when 16 stack slots are enough for `e`. */
  lemma ProgramPrintsItsValue(e: Expr)
    requires NeverOverflows(e) && JumpsFit(e, 0, Length(e) + 2) && Need(e) <= STACK_SIZE
    ensures Run(Program(e), START, Steps(e) + 1 + 1) == (Halted, State(Length(e) + 1, [], [Eval(e)]))
  {
    hide Step, Run, JumpsFit, At, Holds, Program;
    var code := Program(e);
    var s := Pushed(START, e);
    var s1 := State(Length(e) + 1, [], [Eval(e)]);
    ProgramHolds(e);
    Evaluates(code, START, e);
    PrintStep(code, s, Eval(e));
    ThenStep(code, START, s, (Ok, s1), Steps(e));
    HaltStep(code, s1);
    ThenStep(code, START, s1, (Halted, s1), Steps(e) + 1);
  }

  /** And ends with a stack overflow when they are not. */
  lemma ProgramOverflows(e: Expr)
    requires NeverOverflows(e) && JumpsFit(e, 0, Length(e) + 2) && Need(e) > STACK_SIZE
    ensures Run(Program(e), START, Steps(e)).0 == StackOverflow
  {
    hide Step, Run, JumpsFit, At, Holds, Program;
    ProgramHolds(e);
    Overflows(Program(e), START, e);
  }
}
