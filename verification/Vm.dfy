/** The virtual machine over its fixed arrays, proved against VmMachine. */
module Vm {
  import opened MachineInts
  import opened VmMachine

  class Machine {
    var code: seq<uint8>
    var pc: nat
    const stack: array<int>
    var sp: nat
    const output: array<int>
    var outLen: nat

    ghost predicate Valid()
      reads this
    {
      && stack.Length == STACK_SIZE && output.Length == OUTPUT_SIZE && stack != output
      && sp <= STACK_SIZE && outLen <= OUTPUT_SIZE && pc <= |code|
    }

    /** What a run can observe: nothing above `sp` or `outLen`. */
    ghost function View(): (s: State)
      reads this, stack, output
      requires Valid()
      ensures s.pc == pc && |s.stack| == sp && |s.output| == outLen
    {
      State(pc, stack[..sp], output[..outLen])
    }

    /** `vm_init` on storage with arbitrary contents. */
    constructor (code: seq<uint8>)
      ensures Valid() && fresh(stack) && fresh(output)
      ensures this.code == code && View() == START
      ensures forall i :: 0 <= i < STACK_SIZE ==> stack[i] == 0
      ensures forall j :: 0 <= j < OUTPUT_SIZE ==> output[j] == 0
    {
      this.code := code;
      stack, output := new int[STACK_SIZE], new int[OUTPUT_SIZE];
      pc, sp, outLen := 0, 0, 0;
      new;
      for i := 0 to STACK_SIZE
        modifies stack
        invariant forall k :: 0 <= k < i ==> stack[k] == 0
      {
        stack[i] := 0;
      }
      for j := 0 to OUTPUT_SIZE
        modifies output
        invariant forall k :: 0 <= k < j ==> output[k] == 0
      {
        output[j] := 0;
      }
    }

    method Push(value: int) returns (status: Status)
      requires Valid()
      modifies this`sp, stack
      ensures Valid() && (status, View()) == VmMachine.Push(old(View()), value)
    {
      if sp >= STACK_SIZE { return StackOverflow; }
      stack[sp] := value;
      sp := sp + 1;
      assert stack[..sp] == old(stack[..sp]) + [value];
      return Ok;
    }

    /** Without a value to pop, `out` stays what it was. */
    method Pop(out: int) returns (status: Status, out': int)
      requires Valid()
      modifies this`sp
      ensures Valid()
      ensures if old(sp) == 0 then status == StackUnderflow && out' == out && View() == old(View())
              else status == Ok && View() == old(View()).(stack := old(View()).stack[..old(sp) - 1])
                   && out' == old(View()).stack[old(sp) - 1]
    {
      if sp == 0 { return StackUnderflow, out; }
      out' := stack[sp - 1];
      sp := sp - 1;
      return Ok, out';
    }

    /** `vm_add`, `vm_sub` and `vm_mult` differ only in the operator and in naming the operands;
        the value popped first is the right one. */
    method Arithmetic(op: Operator) returns (status: Status)
      requires Valid()
      modifies this`sp, stack
      ensures Valid() && (status, View()) == VmMachine.Arithmetic(old(View()), op)
    {
      if sp < 2 { return StackUnderflow; }
      ghost var s := stack[..sp];
      var a, b, ignored, result;
      ignored, b := Pop(0);
      ignored, a := Pop(0);
      result := Push(Wrap32(Apply(op, a, b)));
      assert s[..|s| - 1][..|s| - 2] == s[..|s| - 2];
      return Ok;
    }

    method Print() returns (status: Status)
      requires Valid()
      modifies this`sp, this`outLen, output
      ensures Valid()
      ensures pc == old(pc)
      ensures if old(sp) == 0 then status == StackUnderflow && View() == old(View())
              else if old(outLen) >= OUTPUT_SIZE then status == OutputOverflow && View() == old(View())
              else status == Ok && View().stack == old(View()).stack[..old(sp) - 1]
                   && View().output == old(View()).output + [old(View()).stack[old(sp) - 1]]
    {
      if sp <= 0 { return StackUnderflow; }
      if outLen >= OUTPUT_SIZE { return OutputOverflow; }
      var popped, v := Pop(0);
      output[outLen] := v;
      outLen := outLen + 1;
      return Ok;
    }

    method Dup() returns (status: Status)
      requires Valid()
      modifies this`sp, stack
      ensures Valid()
      ensures (status, View()) == if old(sp) == 0 then (StackUnderflow, old(View()))
                                  else VmMachine.Push(old(View()), old(View()).stack[old(sp) - 1])
    {
      if sp <= 0 { return StackUnderflow; }
      status := Push(stack[sp - 1]);
    }

    method Jump(addr: uint8) returns (status: Status)
      requires Valid()
      modifies this`pc
      ensures Valid()
      ensures (status, View()) == if addr >= |code| then (PcOutOfRange, old(View())) else (Ok, old(View()).(pc := addr))
    {
      if addr >= |code| { return PcOutOfRange; }
      pc := addr;
      return Ok;
    }

    /** The target is checked even when the jump is not taken. */
    method JumpIfZero(addr: uint8) returns (status: Status)
      requires Valid() && pc + 1 < |code|
      modifies this`pc, this`sp
      ensures Valid()
      ensures (status, View()) == StepWithOperand(code, old(View()), JZ, addr)
    {
      if addr >= |code| { return PcOutOfRange; }
      if sp < 1 { return StackUnderflow; }
      var popped, v := Pop(0);
      if v == 0 { pc := addr; } else { pc := pc + 2; }
      return Ok;
    }

    /** `pc += width`. */
    method Skip(width: nat)
      requires Valid() && pc + width <= |code|
      modifies this`pc
      ensures Valid() && View() == old(View()).(pc := old(pc) + width)
    {
      pc := pc + width;
    }

    method Step() returns (status: Status)
      requires Valid()
      modifies this`pc, this`sp, this`outLen, stack, output
      ensures Valid() && (status, View()) == VmMachine.Step(code, old(View()))
    {
      hide View, VmMachine.Push, VmMachine.Arithmetic, SignExtend;
      status := BadOpcode;
      if pc >= |code| { return PcOutOfRange; }
      var out := 0;
      var op := code[pc];
      if op == PUSH {
        if pc + 1 >= |code| { return PcOutOfRange; }
        status := Push(SignExtend(code[pc + 1]));
        Skip(2);
      } else if op == POP {
        status, out := Pop(out);
        Skip(1);
      } else if op == DUP {
        status := Dup();
        Skip(1);
      } else if op == ADD {
        status := Arithmetic(Plus);
        Skip(1);
      } else if op == SUB {
        status := Arithmetic(Minus);
        Skip(1);
      } else if op == MUL {
        status := Arithmetic(Times);
        Skip(1);
      } else if op == JMP {
        if pc + 1 >= |code| { return PcOutOfRange; }
        status := Jump(code[pc + 1]);
      } else if op == JZ {
        if pc + 1 >= |code| { return PcOutOfRange; }
        status := JumpIfZero(code[pc + 1]);
      } else if op == PRINT {
        status := Print();
        Skip(1);
      } else if op == HALT {
        status := Halted;
      }
    }

    /** `vm_run` on any program that stops from here; one that does not never returns. */
    method Run() returns (status: Status)
      requires Valid() && Stops(code, View())
      modifies this`pc, this`sp, this`outLen, stack, output
      ensures Valid() && status != Ok
      ensures forall n: nat :: VmMachine.Run(code, old(View()), n).0 != Ok ==>
                (status, View()) == VmMachine.Run(code, old(View()), n)
    {
      hide VmMachine.Step;
      ghost var s := View();
      ghost var total: nat :| VmMachine.Run(code, s, total).0 != Ok;
      ghost var k: nat := 0;
      status := Ok;
      while status == Ok
        invariant Valid() && k <= total
        invariant if status == Ok
                  then VmMachine.Run(code, View(), total - k) == VmMachine.Run(code, s, total)
                  else (status, View()) == VmMachine.Run(code, s, total)
        decreases total - k, status == Ok
      {
        status := Step();
        k := k + 1;
      }
      forall n: nat | VmMachine.Run(code, s, n).0 != Ok
        ensures (status, View()) == VmMachine.Run(code, s, n)
      {
        StoppedStays(code, s, if n < total then n else total, if n < total then total else n);
      }
    }
  }
}
