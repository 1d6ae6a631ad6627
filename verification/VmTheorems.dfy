/** Whole-run properties of the bytecode machine. */
module VmTheorems {
  import opened MachineInts
  import opened VmMachine

  // ---------------------------------------------------------------- stack typing

  /** The stack depth expected whenever control reaches a program offset. */
  type Typing = map<nat, nat>

  predicate Flows(d: Typing, to: nat, depth: nat) {
    to in d && d[to] == depth
  }

  /** The instruction at `p` neither under- nor overflows at depth `d[p]`, and every place control
      can go next is typed with the depth it leaves. */
  predicate Checks(code: seq<uint8>, d: Typing, p: nat)
    requires p in d
  {
    p < |code| ==>
      var h := d[p];
      var op := code[p];
      if op == PUSH then p + 1 < |code| ==> h < STACK_SIZE && Flows(d, p + 2, h + 1)
      else if op == DUP then 1 <= h < STACK_SIZE && Flows(d, p + 1, h + 1)
      else if op == POP || op == PRINT then 1 <= h && Flows(d, p + 1, h - 1)
      else if op == ADD || op == SUB || op == MUL then 2 <= h && Flows(d, p + 1, h - 1)
      else if op == JMP then p + 1 < |code| && code[p + 1] < |code| ==> Flows(d, code[p + 1], h)
      else if op == JZ then
        p + 1 < |code| && code[p + 1] < |code| ==> 1 <= h && Flows(d, p + 2, h - 1) && Flows(d, code[p + 1], h - 1)
      else true
  }

  ghost predicate Typed(code: seq<uint8>, d: Typing) {
    Flows(d, 0, 0) && forall p :: p in d ==> Checks(code, d, p)
  }

  lemma StepFollowsTyping(code: seq<uint8>, d: Typing, s: State)
    requires Typed(code, d) && Flows(d, s.pc, s.Depth())
    ensures var (status, s') := Step(code, s);
            && status != StackOverflow && status != StackUnderflow
            && (status == Ok ==> Flows(d, s'.pc, s'.Depth()))
  {
  }

  /** A state the typing expects goes on to a state it expects, or stops without a stack error. */
  predicate StaysTyped(code: seq<uint8>, d: Typing, s: State) {
    var (status, s') := Step(code, s);
    && status != StackOverflow && status != StackUnderflow
    && (status == Ok ==> s'.pc in d && d[s'.pc] == |s'.stack|)
  }

  function Stack(depth: nat, v: int): (r: seq<int>)
    ensures |r| == depth && forall i :: 0 <= i < depth ==> r[i] == v
  {
    seq(depth, _ => v)
  }

  /** The checks ask no more than that: an assignment passes them exactly when every state that matches it
      stays typed. */
  lemma TypedExactly(code: seq<uint8>, d: Typing)
    ensures Typed(code, d)
            <==> Flows(d, 0, 0) && forall s: State :: Flows(d, s.pc, |s.stack|) ==> StaysTyped(code, d, s)
  {
    hide Flows, Checks, StaysTyped;
    if Typed(code, d) {
      forall s: State | Flows(d, s.pc, |s.stack|) ensures StaysTyped(code, d, s) {
        StepStaysTyped(code, d, s);
      }
    }
    if Flows(d, 0, 0) && forall s: State :: Flows(d, s.pc, |s.stack|) ==> StaysTyped(code, d, s) {
      forall p | p in d ensures Checks(code, d, p) {
        var zero, one := State(p, Stack(d[p], 0), []), State(p, Stack(d[p], 1), []);
        FlowsHere(d, p);
        assert StaysTyped(code, d, zero) && StaysTyped(code, d, one);
        ChecksNeeded(code, d, p);
      }
    }
  }

  lemma StepStaysTyped(code: seq<uint8>, d: Typing, s: State)
    requires Typed(code, d) && Flows(d, s.pc, |s.stack|)
    ensures StaysTyped(code, d, s)
  {
    hide Step, Typed;
    StepFollowsTyping(code, d, s);
  }

  lemma FlowsHere(d: Typing, p: nat)
    requires p in d
    ensures Flows(d, p, d[p])
  {
  }

  lemma ChecksNeeded(code: seq<uint8>, d: Typing, p: nat)
    requires p in d
    requires StaysTyped(code, d, State(p, Stack(d[p], 0), [])) && StaysTyped(code, d, State(p, Stack(d[p], 1), []))
    ensures Checks(code, d, p)
  {
    hide Stack;
  }

  lemma {:induction false} RunFollowsTyping(code: seq<uint8>, d: Typing, s: State, n: nat)
    requires Typed(code, d) && Flows(d, s.pc, s.Depth())
    ensures var (status, s') := Run(code, s, n);
            && status != StackOverflow && status != StackUnderflow
            && (status == Ok ==> Flows(d, s'.pc, s'.Depth()))
    decreases n
  {
    hide Step, Typed, Flows;
    if n == 0 {
    } else {
      StepFollowsTyping(code, d, s);
      var r := Step(code, s);
      if r.0 == Ok { RunFollowsTyping(code, d, r.1, n - 1); }
    }
  }

  /** A typed program never meets a stack error, and its depth at every step is the typed one. */
  lemma TypedProgramsKeepTheirDepth(code: seq<uint8>, d: Typing, n: nat)
    requires Typed(code, d)
    ensures var (status, s) := Run(code, START, n);
            && status != StackOverflow && status != StackUnderflow
            && (status == Ok ==> Flows(d, s.pc, s.Depth()))
  {
    RunFollowsTyping(code, d, START, n);
  }

  // ---------------------------------------------------------------- termination

  /** Every byte that could act as a jump has a following byte that lies ahead of it. Operand
      positions count too, because a jump may land on an operand. */
  ghost predicate JumpsForward(code: seq<uint8>) {
    forall p :: 0 <= p && p + 1 < |code| && (code[p] == JMP || code[p] == JZ) ==> code[p + 1] > p
  }

  lemma ForwardStep(code: seq<uint8>, s: State)
    requires JumpsForward(code) && s.pc <= |code|
    ensures s.pc == |code| ==> Step(code, s).0 != Ok
    ensures Step(code, s).0 == Ok ==> s.pc < Step(code, s).1.pc <= |code|
  {
  }

  lemma {:induction false} ForwardRunsStop(code: seq<uint8>, s: State)
    requires JumpsForward(code) && s.pc <= |code|
    ensures Run(code, s, |code| - s.pc + 1).0 != Ok
    decreases |code| - s.pc
  {
    hide Step, JumpsForward;
    ForwardStep(code, s);
    var r := Step(code, s);
    if r.0 != Ok {
    } else {
      ForwardRunsStop(code, r.1);
      StoppedStays(code, r.1, |code| - r.1.pc + 1, |code| - s.pc);
    }
  }

  /** Such a program stops after at most `|code|` Ok steps. */
  lemma ForwardProgramsStop(code: seq<uint8>)
    requires forall p :: 0 <= p && p + 1 < |code| && (code[p] == 0x07 || code[p] == 0x08) ==> code[p + 1] > p
    ensures Run(code, START, |code| + 1).0 != Ok && Stops(code, START)
  {
    ForwardRunsStop(code, START);
  }

  /** Every typed offset holds a known instruction with its operand and, for a jump, a target in range. */
  ghost predicate Closed(code: seq<uint8>, d: Typing) {
    forall p :: p in d ==>
      && p < |code|
      && (1 <= code[p] <= 9 || code[p] == HALT)
      && (code[p] == PUSH || code[p] == JMP || code[p] == JZ ==> p + 1 < |code|)
      && (code[p] == JMP || code[p] == JZ ==> code[p + 1] < |code|)
  }

  /** Of a typed program, `Closed` asks exactly that no expected state meets a bad opcode or leaves the code. */
  lemma ClosedExactly(code: seq<uint8>, d: Typing)
    requires Typed(code, d)
    ensures Closed(code, d)
            <==> forall s: State :: Flows(d, s.pc, |s.stack|) ==> Step(code, s).0 !in {BadOpcode, PcOutOfRange}
  {
    hide Flows, Typed, Checks, Closed, Step;
    if Closed(code, d) {
      forall s: State | Flows(d, s.pc, |s.stack|) ensures Step(code, s).0 !in {BadOpcode, PcOutOfRange} {
        ClosedStepMeetsNoError(code, d, s);
      }
    } else {
      var p := NotClosedAt(code, d);
      FlowsHere(d, p);
      assert Flows(d, State(p, Stack(d[p], 0), []).pc, |State(p, Stack(d[p], 0), []).stack|);
    }
  }

  lemma NotClosedAt(code: seq<uint8>, d: Typing) returns (p: nat)
    requires !Closed(code, d)
    ensures p in d && Step(code, State(p, Stack(d[p], 0), [])).0 in {BadOpcode, PcOutOfRange}
  {
    p :| p in d && !(&& p < |code|
                     && (1 <= code[p] <= 9 || code[p] == HALT)
                     && (code[p] == PUSH || code[p] == JMP || code[p] == JZ ==> p + 1 < |code|)
                     && (code[p] == JMP || code[p] == JZ ==> code[p + 1] < |code|));
  }

  lemma ClosedStepMeetsNoError(code: seq<uint8>, d: Typing, s: State)
    requires Typed(code, d) && Closed(code, d) && Flows(d, s.pc, s.Depth())
    ensures Step(code, s).0 in {Ok, Halted, OutputOverflow}
  {
    hide Typed, Checks;
    StepFollowsTyping(code, d, s);
  }

  lemma {:induction false} ClosedRunsMeetNoError(code: seq<uint8>, d: Typing, s: State, n: nat)
    requires Typed(code, d) && Closed(code, d) && Flows(d, s.pc, s.Depth())
    ensures Run(code, s, n).0 in {Ok, Halted, OutputOverflow}
    decreases n
  {
    hide Step, Typed, Closed, Flows;
    if n == 0 {
    } else {
      StepFollowsTyping(code, d, s);
      ClosedStepMeetsNoError(code, d, s);
      var r := Step(code, s);
      if r.0 == Ok { ClosedRunsMeetNoError(code, d, r.1, n - 1); }
    }
  }

  /** Typed, closed and forward-jumping: the program halts, unless it prints more than 64 values. */
  lemma CertifiedProgramsHalt(code: seq<uint8>, d: Typing)
    requires Typed(code, d) && Closed(code, d) && JumpsForward(code)
    ensures Run(code, START, |code| + 1).0 in {Halted, OutputOverflow}
  {
    hide Step, Run, JumpsForward, Closed, Checks;
    ForwardRunsStop(code, START);
    ClosedRunsMeetNoError(code, d, START, |code| + 1);
  }

  // ---------------------------------------------------------------- code extension

  lemma StepIgnoresAppended(code: seq<uint8>, more: seq<uint8>, s: State)
    requires Step(code, s).0 != PcOutOfRange
    ensures Step(code + more, s) == Step(code, s)
  {
  }

  /** Bytes appended to a program are invisible to a run that does not leave the original code. */
  lemma {:induction false} AppendingIsInvisible(code: seq<uint8>, more: seq<uint8>, s: State, n: nat)
    requires Run(code, s, n).0 != PcOutOfRange
    ensures Run(code + more, s, n) == Run(code, s, n)
    decreases n
  {
    hide Step;
    if n == 0 {
    } else {
      StepIgnoresAppended(code, more, s);
      if Step(code, s).0 == Ok { AppendingIsInvisible(code, more, Step(code, s).1, n - 1); }
    }
  }
}
