// The registers of the processor and the instruction sequences that save and restore them:
// the interrupt stub and task_return.
module Cpu {
  import opened Words

  // A machine word is a number or an address: a block of memory and an index in it, counted
  // in words. Offsets are written in bytes, as in the assembler code and the structs.
  datatype Value = Num(n: Word) | Ptr(block: array<Value>, index: int)

  predicate CanLoad(p: Value, offset: nat) {
    p.Ptr? && offset % 4 == 0 && 0 <= p.index + offset / 4 < p.block.Length
  }

  function Load(p: Value, offset: nat): Value
    requires CanLoad(p, offset)
    reads if p.Ptr? then {p.block} else {}
  {
    p.block[p.index + offset / 4]
  }

  // The lower half of a word, as a segment register takes it.
  function Low(v: Value): Value { if v.Num? then Num(v.n % 0x1_0000) else v }

  // Everything a program can see of the registers, except the data segment registers: the
  // stack pointer and the others.
  datatype General = General(
    eax: Value, ebx: Value, ecx: Value, edx: Value, esi: Value, edi: Value, ebp: Value,
    ip: Value, flags: Value, cs: Value, ss: Value)
  datatype Registers = Registers(g: General, esp: Value)

  // struct interrupt_frame, as the C code sees it.
  function FromFrame(frame: seq<Value>): Registers
    requires |frame| == 14
  {
    var g := General(
      eax := frame[32 / 4], ebx := frame[20 / 4], ecx := frame[28 / 4], edx := frame[24 / 4],
      esi := frame[8 / 4], edi := frame[4 / 4], ebp := frame[12 / 4],
      ip := frame[36 / 4], flags := frame[44 / 4], cs := frame[40 / 4], ss := frame[52 / 4]);
    Registers(g, frame[48 / 4])
  }

  // struct registers, as the C code sees it.
  function FromSaved(saved: seq<Value>): Registers
    requires |saved| == 12
  {
    var g := General(
      eax := saved[24 / 4], ebx := saved[12 / 4], ecx := saved[20 / 4], edx := saved[16 / 4],
      esi := saved[4 / 4], edi := saved[0 / 4], ebp := saved[8 / 4],
      ip := saved[28 / 4], flags := saved[36 / 4], cs := saved[32 / 4], ss := saved[44 / 4]);
    Registers(g, saved[40 / 4])
  }

  class Processor {
    var r: General
    var esp: Value
    var ds: Value
    var es: Value
    var fs: Value
    var gs: Value

    // The kernel stack the processor changes to when a program is interrupted, and its top.
    const stack: array<Value>
    const top: nat

    ghost function See(): Registers
      reads this`r, this`esp
    {
      Registers(r, esp)
    }

    // Whether the processor runs on the kernel stack with i words below the stack pointer.
    ghost predicate At(i: int)
      reads this`esp
    {
      esp == Ptr(stack, i) && 0 <= i <= stack.Length
    }

    method Push(v: Value)
      requires esp.Ptr? && esp.block == stack && 0 < esp.index <= stack.Length
      modifies this`esp, stack
      ensures esp == Ptr(stack, old(esp.index) - 1)
      ensures stack[..] == old(stack[..])[old(esp.index) - 1 := v]
    {
      esp := Ptr(stack, esp.index - 1);
      stack[esp.index] := v;
    }

    method Pop() returns (v: Value)
      requires esp.Ptr? && esp.block == stack && 0 <= esp.index < stack.Length
      modifies this`esp
      ensures v == stack[old(esp.index)] && esp == Ptr(stack, old(esp.index) + 1)
    {
      v := stack[esp.index];
      esp := Ptr(stack, esp.index + 1);
    }

    // What the processor does itself on an interrupt of a program.
    method Interrupt()
      requires 5 <= top <= stack.Length
      modifies this`r, this`esp, stack
      ensures At(top - 5)
      ensures var u := old(r); r == u.(ss := r.ss, flags := r.flags, cs := r.cs, ip := r.ip)
      ensures var u := old(See());
              && stack[top - 1] == u.g.ss && stack[top - 2] == u.esp && stack[top - 3] == u.g.flags
              && stack[top - 4] == u.g.cs && stack[top - 5] == u.g.ip
    {
      var userEsp := esp;
      esp := Ptr(stack, top);
      Push(r.ss);
      Push(userEsp);
      Push(r.flags);
      Push(r.cs);
      Push(r.ip);
      var kernelSs, kernelFlags, kernelCs, kernelIp := *, *, *, *;
      r := r.(ss := kernelSs, flags := kernelFlags, cs := kernelCs, ip := kernelIp);
    }

    method PushAll(i: nat)
      requires At(i + 8)
      modifies this`esp, stack
      ensures At(i)
      ensures && stack[i + 7] == r.eax && stack[i + 6] == r.ecx && stack[i + 5] == r.edx && stack[i + 4] == r.ebx
              && stack[i + 3] == old(esp) && stack[i + 2] == r.ebp && stack[i + 1] == r.esi && stack[i] == r.edi
      ensures stack[i + 8..] == old(stack[i + 8..])
    {
      var before := esp;
      Push(r.eax);
      Push(r.ecx);
      Push(r.edx);
      Push(r.ebx);
      Push(before);
      Push(r.ebp);
      Push(r.esi);
      Push(r.edi);
    }

    method PopFour(i: nat) returns (a: Value, b: Value, c: Value, d: Value)
      requires At(i) && i + 4 <= stack.Length
      modifies this`esp
      ensures At(i + 4)
      ensures a == stack[i] && b == stack[i + 1] && c == stack[i + 2] && d == stack[i + 3]
    {
      a := Pop();
      b := Pop();
      c := Pop();
      d := Pop();
    }

    method PopAll(i: nat)
      requires At(i) && i + 8 <= stack.Length
      modifies this`r, this`esp
      ensures At(i + 8)
      ensures r == old(r).(edi := stack[i], esi := stack[i + 1], ebp := stack[i + 2], ebx := stack[i + 4],
                           edx := stack[i + 5], ecx := stack[i + 6], eax := stack[i + 7])
    {
      var edi, esi, ebp, _ := PopFour(i);
      var ebx, edx, ecx, eax := PopFour(i + 4);
      r := r.(edi := edi, esi := esi, ebp := ebp, ebx := ebx, edx := edx, ecx := ecx, eax := eax);
    }

    method Iret(i: nat)
      requires At(i) && i + 5 <= stack.Length
      modifies this`r, this`esp
      ensures r == old(r).(ip := stack[i], cs := stack[i + 1], flags := stack[i + 2], ss := stack[i + 4])
      ensures esp == stack[i + 3]
    {
      var ip := Pop();
      var cs := Pop();
      var flags := Pop();
      var userEsp := Pop();
      var ss := Pop();
      r, esp := r.(ip := ip, cs := cs, flags := flags, ss := ss), userEsp;
    }

    // From the interrupt to the call of the handler: what lies on the stack is a frame that
    // holds all that the program saw. The argument is the address of that frame.
    method EnterStub(vector: Word) returns (frame: Value)
      requires 16 <= top <= stack.Length
      modifies this`r, this`esp, stack
      ensures frame == Ptr(stack, top - 14) && At(top - 16)
      ensures FromFrame(stack[top - 14..top]) == old(See())
      ensures stack[top - 16] == Num(vector) && stack[top - 15] == frame
    {
      PushFrame();
      hide FromFrame;
      ghost var f := stack[top - 14..top];
      Push(esp);
      Push(Num(vector));
      frame := stack[top - 15];
      assert stack[top - 14..top] == f;
    }

    method PushFrame()
      requires 14 <= top <= stack.Length
      modifies this`r, this`esp, stack
      ensures At(top - 14)
      ensures FromFrame(stack[top - 14..top]) == old(See())
    {
      Interrupt();
      ghost var returned := stack[top - 5..];
      PushAll(top - 13);
      Push(Num(0));
      assert stack[top - 5..] == returned;
      assert returned[0] == stack[top - 5] && returned[1] == stack[top - 4] && returned[2] == stack[top - 3]
        && returned[3] == stack[top - 2] && returned[4] == stack[top - 1];
    }

    // An exception for which the processor pushes an error code behind what it pushes always.
    // The stub pushes nothing in its place, but struct interrupt_frame has the error code at its
    // other end, so of the frame the C code sees only what the processor pushed is right; every
    // general register is another one, and the error code is found in eax.
    method EnterFaultStub(vector: Word, code: Value) returns (frame: Value)
      requires 16 <= top <= stack.Length
      modifies this`r, this`esp, stack
      ensures frame == Ptr(stack, top - 14) && At(top - 16)
      ensures stack[top - 16] == Num(vector) && stack[top - 15] == frame
      ensures var u := old(See());
              FromFrame(stack[top - 14..top]) ==
              Registers(u.g.(eax := code, ecx := u.g.eax, edx := u.g.ecx, ebx := u.g.edx,
                             ebp := Ptr(stack, top - 6), esi := u.g.ebp, edi := u.g.esi), u.esp)
    {
      PushFaultFrame(code);
      hide FromFrame;
      ghost var f := stack[top - 14..top];
      Push(esp);
      Push(Num(vector));
      frame := stack[top - 15];
      assert stack[top - 14..top] == f;
    }

    method PushFaultFrame(code: Value)
      requires 14 <= top <= stack.Length
      modifies this`r, this`esp, stack
      ensures At(top - 14)
      ensures var u := old(See());
              FromFrame(stack[top - 14..top]) ==
              Registers(u.g.(eax := code, ecx := u.g.eax, edx := u.g.ecx, ebx := u.g.edx,
                             ebp := Ptr(stack, top - 6), esi := u.g.ebp, edi := u.g.esi), u.esp)
    {
      Interrupt();
      ghost var returned := stack[top - 5..];
      Push(code);
      ghost var pushed := stack[top - 6..];
      assert pushed[0] == code && pushed[1..] == returned;
      PushAll(top - 14);
      assert stack[top - 6..] == pushed;
      assert returned[0] == pushed[1] == stack[top - 5] && returned[1] == pushed[2] == stack[top - 4]
        && returned[2] == pushed[3] == stack[top - 3] && returned[3] == pushed[4] == stack[top - 2]
        && returned[4] == pushed[5] == stack[top - 1] && pushed[0] == stack[top - 6];
    }

    // Behind the call of a handler that returns.
    method LeaveStub()
      requires 16 <= top <= stack.Length && At(top - 16)
      modifies this`r, this`esp
      ensures See() == FromFrame(stack[top - 14..top])
    {
      esp := Ptr(stack, esp.index + 2);
      esp := Ptr(stack, esp.index + 1);
      PopAll(top - 13);
      Iret(top - 5);
    }

    // C code uses any register and the stack, its arguments included, below some place.
    method RunC(i: nat, depth: nat, keep: nat)
      requires At(i) && depth <= i <= keep <= stack.Length
      modifies this`r, this`esp, stack
      ensures At(i - depth)
      ensures stack[keep..] == old(stack[keep..])
    {
      r := *;
      esp := Ptr(stack, i - depth);
      for k := 0 to keep
        modifies stack
        invariant stack[keep..] == old(stack[keep..])
      {
        stack[k] := *;
      }
    }

    // The end of the C code: its frames are given back.
    method Return(i: nat, depth: nat)
      requires At(i) && i + depth <= stack.Length
      modifies this`r, this`esp
      ensures At(i + depth)
    {
      r := *;
      esp := Ptr(stack, i + depth);
    }

    // task_return, called with the address of saved registers.
    method TaskReturn(i: nat, saved: array<Value>)
      requires saved != stack && saved.Length == 12 && 7 <= i && At(i)
      modifies this, stack
      ensures See() == FromSaved(saved[..])
      ensures ds == es == fs == gs == Low(r.ss)
      ensures r.ss.Num? ==> ds == Num(r.ss.n % 0x1_0000)
    {
      Push(Ptr(saved, 0));
      Push(Num(0));
      r := r.(ebp := esp);
      r := r.(ebx := Load(r.ebp, 4));
      PushForIret(i - 7, saved);
      r := r.(eax := Low(Load(r.ebx, 44)));
      ds := r.eax;
      es := r.eax;
      fs := r.eax;
      gs := r.eax;
      LoadGeneral(saved);
      Iret(i - 7);
    }

    method PushForIret(i: nat, saved: array<Value>)
      requires r.ebx == Ptr(saved, 0) && saved != stack && saved.Length == 12 && At(i + 5)
      modifies this`esp, stack
      ensures At(i)
      ensures var u := FromSaved(saved[..]);
              && stack[i] == u.g.ip && stack[i + 1] == u.g.cs && stack[i + 2] == u.g.flags
              && stack[i + 3] == u.esp && stack[i + 4] == u.g.ss
    {
      Push(Load(r.ebx, 44));
      Push(Load(r.ebx, 40));
      Push(Load(r.ebx, 36));
      Push(Load(r.ebx, 32));
      Push(Load(r.ebx, 28));
    }

    method LoadGeneral(saved: array<Value>)
      requires r.ebx == Ptr(saved, 0) && saved.Length == 12
      modifies this`r
      ensures var u := FromSaved(saved[..]);
              r == u.g.(ip := old(r).ip, flags := old(r).flags, cs := old(r).cs, ss := old(r).ss)
    {
      var s := r;
      s := s.(edi := Load(s.ebx, 0));
      s := s.(esi := Load(s.ebx, 4));
      s := s.(ebp := Load(s.ebx, 8));
      s := s.(edx := Load(s.ebx, 16));
      s := s.(ecx := Load(s.ebx, 20));
      s := s.(eax := Load(s.ebx, 24));
      s := s.(ebx := Load(s.ebx, 12));
      r := s;
    }
  }
}
