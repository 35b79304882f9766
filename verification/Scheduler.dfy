// The task list, the timer interrupt that goes through it, and what a task sees of that.
module Scheduler {
  import opened Words
  import opened Cpu
  import LoadPlan

  class Task {
    const saved: array<Value>
    const directory: int
    var next: Task?
    var prev: Task?

    // A zeroed task with the registers a program starts with.
    constructor (directory: int, entry: Word)
      ensures fresh(saved) && saved.Length == 12 && next == prev == null && this.directory == directory
      ensures FromSaved(saved[..]) == FirstRegisters(entry)
    {
      this.directory := directory;
      saved := new Value[12](i => Num(0));
      next, prev := null, null;
      new;
      saved[28 / 4] := Num(entry);
      saved[44 / 4] := Num(USER_DATA_SELECTOR);
      saved[32 / 4] := Num(USER_CODE_SELECTOR);
      saved[40 / 4] := Num(LoadPlan.STACK_START);
      saved[36 / 4] := Num(0x200);
    }
  }

  const USER_CODE_SELECTOR: Word := 0x1b
  const USER_DATA_SELECTOR: Word := 0x23
  const TIMER: Word := 0x20
  const SYSCALL: Word := 0x80
  const VECTORS: Word := 0x100

  // The vectors for which the stub takes an error code to be on the stack already.
  predicate HasErrorCode(vector: Word) {
    vector == 8 || vector == 10 || vector == 11 || vector == 12 || vector == 13 || vector == 14 || vector == 17
    || vector == 21 || vector == 29 || vector == 30
  }

  function FirstRegisters(entry: Word): Registers {
    var zero := Num(0);
    Registers(
      General(zero, zero, zero, zero, zero, zero, zero,
              Num(entry), Num(0x200), Num(USER_CODE_SELECTOR), Num(USER_DATA_SELECTOR)),
      Num(LoadPlan.STACK_START))
  }

  // The vectors that go through the stub and come back: the timer handler does not return, and
  // system calls have an entry of their own.
  predicate IsPlain(vector: Word): (plain: bool)
    ensures plain <==> vector < 256 && vector !in {8, 10, 11, 12, 13, 14, 17, 21, 29, 30, 0x20, 0x80}
  {
    vector < VECTORS && !HasErrorCode(vector) && vector != TIMER && vector != SYSCALL
  }

  // The place behind place i of n in a circle.
  function Next(i: nat, n: nat): nat { if i + 1 < n then i + 1 else 0 }

  function Follow(l: seq<Task>, i: nat): Task?
    requires i < |l|
  {
    if i + 1 < |l| then l[i + 1] else null
  }

  function Without(l: seq<Task>, k: nat): seq<Task>
    requires k < |l|
  {
    l[..k] + l[k + 1..]
  }

  lemma WithLast(l: seq<Task>, task: Task, i: nat)
    requires l != [] && i <= |l|
    ensures var l' := l + [task];
            && l'[i] == (if i < |l| then l[i] else task)
            && Follow(l', i) == (if i + 1 < |l| then Follow(l, i) else if i + 1 == |l| then task else null)
            && Precede(l', i) == if i < |l| then Precede(l, i) else l[|l| - 1]
  {
  }

  // Taking out neighbours.
  lemma WithoutTwo(l: seq<Task>, k: nat)
    requires 0 < k && k + 1 < |l| && l[k] !in l[..k] && l[k] !in l[k + 1..]
    ensures var rest := Without(l, k);
            && |rest| == |l| - 1 && rest[k - 1] == l[k - 1] && rest[k] == l[k + 1] && l[k] !in rest
            && (forall t :: t in l && t != l[k] ==> t in rest)
            && Without(rest, k) == l[..k] + l[k + 2..]
  {
  }

  function Precede(l: seq<Task>, i: nat): Task?
    requires i < |l|
  {
    if i > 0 then l[i - 1] else null
  }

  class Machine {
    var head: Task?
    var tail: Task?
    var current: Task?
    var loaded: int
    const cpu: Processor

    constructor (cpu: Processor, loaded: int)
      ensures Linked([]) && this.cpu == cpu && this.loaded == loaded
    {
      this.cpu := cpu;
      this.loaded := loaded;
      head, tail, current := null, null, null;
    }

    // l is what one reaches from the head by the next links.
    ghost predicate Chain(l: seq<Task>)
      reads this`head, l
    {
      && (forall i, j :: 0 <= i < j < |l| ==> l[i] != l[j])
      && head == (if l == [] then null else l[0])
      && forall i :: 0 <= i < |l| ==> l[i].next == Follow(l, i)
    }

    // Also the previous links, the tail and the current task are those of l.
    ghost predicate Linked(l: seq<Task>)
      reads this, l
    {
      && Chain(l)
      && (forall i :: 0 <= i < |l| ==> l[i].prev == Precede(l, i))
      && tail == (if l == [] then null else l[|l| - 1])
      && if l == [] then current == null else current in l
    }

    // task_new, with memory for the task and for its directory. The program starts at its entry
    // with an empty stack, at the end of the one that is mapped for it, and with interrupts on.
    // Its segments are the user code and the user data descriptor, number 3 and 4 of the table,
    // both at privilege level 3.
    method TaskNew(directory: int, entry: Word, ghost l: seq<Task>) returns (task: Task)
      requires Linked(l)
      modifies this, l
      ensures fresh(task) && Linked(l + [task])
      ensures fresh(task.saved) && task.saved.Length == 12 && task.directory == directory
      ensures var r := FromSaved(task.saved[..]);
              && r.g.ip == Num(entry)
              && r.esp == Num(LoadPlan.STACK_END + LoadPlan.STACK_SIZE) == Num(0x3F_F000)
              && r.g.cs == Num(8 * 3 + 3) && r.g.ss == Num(8 * 4 + 3)
              && r.g.flags == Num(0x200)
              && r.g.eax == r.g.ebx == r.g.ecx == r.g.edx == r.g.esi == r.g.edi == r.g.ebp == Num(0)
      ensures current == (if l == [] then task else old(current)) && loaded == old(loaded)
      ensures forall depth: nat :: Ready(l, depth) ==> Ready(l + [task], depth)
    {
      hide FromSaved, Machine.Linked;
      task := new Task(directory, entry);
      Append(task, l);
    }

    method Append(task: Task, ghost l: seq<Task>)
      requires Linked(l) && task !in l && task.next == task.prev == null
      modifies this`head, this`tail, this`current, task, if l == [] then {} else {l[|l| - 1]}
      ensures Linked(l + [task])
      ensures current == (if l == [] then task else old(current))
    {
      if head == null {
        head := task;
        tail := task;
        current := task;
        return;
      }
      tail.next := task;
      task.prev := tail;
      tail := task;
      assert forall i :: 0 <= i < |l| ==> l[i].prev == Precede(l, i);
      assert forall i :: 0 <= i < |l| - 1 ==> l[i].next == Follow(l, i);
      LinkedWith(l, task);
    }

    lemma LinkedWith(l: seq<Task>, task: Task)
      requires l != [] && task !in l && task.next == null && task.prev == l[|l| - 1] && tail == task
      requires forall i, j :: 0 <= i < j < |l| ==> l[i] != l[j]
      requires head == l[0] && l[|l| - 1].next == task && current in l
      requires forall i :: 0 <= i < |l| ==> l[i].prev == Precede(l, i)
      requires forall i :: 0 <= i < |l| - 1 ==> l[i].next == Follow(l, i)
      ensures Linked(l + [task])
    {
      hide Follow, Precede;
      forall i | 0 <= i <= |l|
        ensures (l + [task])[i].next == Follow(l + [task], i) && (l + [task])[i].prev == Precede(l + [task], i)
      {
        WithLast(l, task, i);
      }
    }

    method GetNext(ghost l: seq<Task>, ghost i: nat) returns (task: Task?)
      requires Chain(l) && i < |l| && current == l[i]
      ensures task == l[Next(i, |l|)]
    {
      assert l[i].next == Follow(l, i);
      if current.next == null {
        return head;
      }
      return current.next;
    }

    // task_list_remove on any forward chain, whatever the previous links are. The chain comes
    // out as it should exactly when the link back from the task is right.
    method ListRemove(task: Task, ghost l: seq<Task>, ghost k: nat)
      requires Chain(l) && k < |l| && task == l[k] && current in l
      modifies this, task.prev
      ensures Chain(Without(l, k)) <==>
        if k == 0 then task.prev !in l[1..] else task.prev == l[k - 1]
      ensures current == if old(current) != task then old(current)
                         else if k + 1 < |l| then l[k + 1]
                         else if k > 0 then l[0]
                         else null
      ensures tail == if old(tail) == task then task.prev else old(tail)
      ensures task.prev != null ==> task.prev.prev == old(task.prev.prev)
      ensures loaded == old(loaded)
    {
      ghost var prev := task.prev;
      assert task.next == Follow(l, k);
      if task.prev != null {
        task.prev.next := task.next;
      }
      if task == head {
        head := task.next;
      }
      if task == tail {
        tail := task.prev;
      }
      if task == current {
        if current.next == null {
          current := head;
        } else {
          current := current.next;
        }
      }
      ChainWithout(l, k, prev);
    }

    // The chain after the link of prev has been set behind the task at place k.
    lemma ChainWithout(l: seq<Task>, k: nat, prev: Task?)
      requires k < |l| && (forall i, j :: 0 <= i < j < |l| ==> l[i] != l[j])
      requires head == if k == 0 then Follow(l, 0) else l[0]
      requires forall i :: 0 <= i < |l| ==> l[i].next == if l[i] == prev then Follow(l, k) else Follow(l, i)
      ensures Chain(Without(l, k)) <==> if k == 0 then prev !in l[1..] else prev == l[k - 1]
    {
      var rest := Without(l, k);
      if k > 0 && prev != l[k - 1] {
        assert l[k - 1].next == l[k] && Follow(rest, k - 1) != l[k];
        assert rest[k - 1].next != Follow(rest, k - 1);
      } else if k == 0 && prev in l[1..] {
        var j :| 0 < j < |l| && l[j] == prev;
        assert l[j].next == l[1] && Follow(rest, j - 1) != l[1];
        assert rest[j - 1].next != Follow(rest, j - 1);
      } else {
        forall i | 0 <= i < |rest|
          ensures rest[i].next == Follow(rest, i)
        {
          var j := if i < k then i else i + 1;
          assert rest[i] == l[j];
        }
      }
    }

    // From a list in order the first removal leaves the chain in order. The next link back is
    // not repaired, so removing the neighbour after it does not.
    method RemoveNeighbours(ghost l: seq<Task>, ghost k: nat, first: Task, second: Task)
      requires Linked(l) && 0 < k && k + 1 < |l| && first == l[k] && second == l[k + 1]
      modifies this, l
      ensures !Chain(l[..k] + l[k + 2..])
    {
      LinkedAt(l, k);
      LinkedAt(l, k + 1);
      WithoutTwo(l, k);
      hide Machine.Linked, Machine.Chain, Without;
      ghost var rest := Without(l, k);
      ListRemove(first, l, k);
      ListRemove(second, rest, k);
    }

    lemma LinkedAt(l: seq<Task>, k: nat)
      requires Linked(l) && k < |l|
      ensures Chain(l) && current in l && l[k].prev == Precede(l, k)
      ensures l[k] !in l[..k] && l[k] !in l[k + 1..]
    {
    }

    // Each task has its own saved registers, and the kernel stack has room for the stub, the
    // given number of words for the C functions, and task_return.
    ghost predicate Ready(l: seq<Task>, depth: nat)
    {
      && (forall i :: 0 <= i < |l| ==> l[i].saved.Length == 12 && l[i].saved != cpu.stack)
      && (forall i, j :: 0 <= i < j < |l| ==> l[i].saved != l[j].saved)
      && 23 + depth <= cpu.top <= cpu.stack.Length
    }

    // What each task sees of the registers, or will when it runs again.
    ghost function Seen(task: Task): Registers
      requires task.saved.Length == 12
      reads this`current, cpu`r, cpu`esp, task.saved
    {
      if task == current then cpu.See() else FromSaved(task.saved[..])
    }

    // task_save_state
    method SaveState(task: Task, frame: Value)
      requires task.saved.Length == 12 && task.saved != cpu.stack
      requires frame.Ptr? && frame.block == cpu.stack && 0 <= frame.index && frame.index + 14 <= cpu.stack.Length
      modifies task.saved
      ensures FromSaved(task.saved[..]) == FromFrame(cpu.stack[frame.index..frame.index + 14])
    {
      task.saved[28 / 4] := Load(frame, 36);
      task.saved[32 / 4] := Load(frame, 40);
      task.saved[44 / 4] := Load(frame, 52);
      task.saved[36 / 4] := Load(frame, 44);
      task.saved[24 / 4] := Load(frame, 32);
      task.saved[12 / 4] := Load(frame, 20);
      task.saved[20 / 4] := Load(frame, 28);
      task.saved[16 / 4] := Load(frame, 24);
      task.saved[0 / 4] := Load(frame, 4);
      task.saved[4 / 4] := Load(frame, 8);
      task.saved[8 / 4] := Load(frame, 12);
      task.saved[40 / 4] := Load(frame, 48);
    }

    // task_switch
    method Switch(task: Task)
      modifies this`current, this`loaded
      ensures current == task && loaded == task.directory
    {
      current := task;
      loaded := task.directory;
    }

    // From the program of the current task to the timer handler.
    method Preempt(depth: nat, kernelDirectory: int, ghost l: seq<Task>, ghost i: nat)
      requires Ready(l, depth) && i < |l| && current == l[i]
      modifies this`loaded, cpu`r, cpu`esp, cpu.stack, l[i].saved
      ensures FromSaved(current.saved[..]) == old(cpu.See()) && loaded == kernelDirectory
      ensures cpu.At(cpu.top - 16 - depth)
    {
      hide FromSaved, FromFrame;
      var frame := cpu.EnterStub(TIMER);
      ghost var above := cpu.stack[cpu.top - 14..];
      assert above[..14] == cpu.stack[cpu.top - 14..cpu.top];
      cpu.RunC(cpu.top - 16, depth, cpu.top - 14);
      assert above[..14] == cpu.stack[cpu.top - 14..cpu.top];
      loaded := kernelDirectory;
      SaveState(current, frame);
    }

    // The whole of a timer interrupt, from the program of one task to that of the next.
    method Tick(depth: nat, kernelDirectory: int, ghost l: seq<Task>, ghost i: nat)
      requires Chain(l) && Ready(l, depth) && i < |l| && current == l[i]
      modifies this`current, this`loaded, cpu, cpu.stack, l[i].saved
      ensures current == l[Next(i, |l|)] && loaded == current.directory
      ensures forall t :: 0 <= t < |l| ==> Seen(l[t]) == old(Seen(l[t]))
      ensures cpu.ds == cpu.es == cpu.fs == cpu.gs == Low(cpu.r.ss)
    {
      hide FromSaved;
      Preempt(depth, kernelDirectory, l, i);
      var next := GetNext(l, i);
      Switch(next);
      cpu.TaskReturn(cpu.top - 16 - depth, current.saved);
    }

    // Any other vector for which the stub expects no error code, with a handler that returns
    // or with none: the program goes on as if nothing had happened.
    method OtherInterrupt(vector: Word, handled: bool, depth: nat, ghost l: seq<Task>, ghost i: nat)
      requires IsPlain(vector)
      requires Ready(l, depth) && i < |l| && current == l[i]
      modifies this`current, this`loaded, cpu, cpu.stack, l[i].saved
      ensures cpu.See() == old(cpu.See()) && current == old(current) && loaded == current.directory
      ensures forall t :: 0 <= t < |l| ==> Seen(l[t]) == old(Seen(l[t]))
      ensures handled ==> FromSaved(current.saved[..]) == old(cpu.See())
      ensures !handled ==> current.saved[..] == old(current.saved[..])
      ensures cpu.ds == cpu.es == cpu.fs == cpu.gs == Num(USER_DATA_SELECTOR)
    {
      hide FromSaved, FromFrame;
      var frame := cpu.EnterStub(vector);
      ghost var above := cpu.stack[cpu.top - 14..];
      assert above[..14] == cpu.stack[cpu.top - 14..cpu.top];
      cpu.RunC(cpu.top - 16, depth, cpu.top - 14);
      assert above[..14] == cpu.stack[cpu.top - 14..cpu.top];
      if handled {
        SaveState(current, frame);
      }
      cpu.RunC(cpu.top - 16 - depth, 0, cpu.top - 14);
      assert above[..14] == cpu.stack[cpu.top - 14..cpu.top];
      UserRegisters();
      Switch(current);
      cpu.Return(cpu.top - 16 - depth, depth);
      cpu.LeaveStub();
    }

    method UserRegisters()
      modifies cpu`ds, cpu`es, cpu`fs, cpu`gs
      ensures cpu.ds == cpu.es == cpu.fs == cpu.gs == Num(USER_DATA_SELECTOR)
    {
      cpu.ds, cpu.es := Num(USER_DATA_SELECTOR), Num(USER_DATA_SELECTOR);
      cpu.fs, cpu.gs := Num(USER_DATA_SELECTOR), Num(USER_DATA_SELECTOR);
    }

    // v is what each task of the list sees.
    ghost predicate Shows(l: seq<Task>, v: seq<Registers>)
      reads this`current, cpu`r, cpu`esp, set t | t in l :: t.saved
    {
      |v| == |l| && forall t :: 0 <= t < |l| ==> l[t].saved.Length == 12 && Seen(l[t]) == v[t]
    }

    method UserStep(f: Registers -> Registers, ghost l: seq<Task>, ghost i: nat, ghost v: seq<Registers>)
      requires Chain(l) && i < |l| == |v| && current == l[i] && Shows(l, v)
      modifies cpu`r, cpu`esp
      ensures Shows(l, v[i := f(v[i])])
    {
      var after := f(Registers(cpu.r, cpu.esp));
      cpu.r, cpu.esp := after.g, after.esp;
    }

    method Happen(event: PlainEvent, depth: nat, kernelDirectory: int,
                  ghost l: seq<Task>, ghost i: nat, ghost v: seq<Registers>)
      requires Chain(l) && Ready(l, depth) && i < |l| == |v| && current == l[i] && Shows(l, v)
      modifies this`current, this`loaded, cpu, cpu.stack, l[i].saved
      ensures Chain(l) && current == l[TurnAfter(event, i, |l|)]
      ensures Shows(l, SeenAfter(v, event, i))
    {
      hide FromSaved, Machine.Chain, Machine.Ready, Machine.Seen;
      match event
      case Step(f) =>
        hide Machine.Shows;
        UserStep(f, l, i, v);
      case Timer =>
        Tick(depth, kernelDirectory, l, i);
      case Other(vector, handled) =>
        OtherInterrupt(vector, handled, depth, l, i);
    }

    // Any run of steps of programs, timer interrupts and other interrupts.
    method Execute(events: seq<PlainEvent>, depth: nat, kernelDirectory: int,
                   ghost l: seq<Task>, ghost i: nat, ghost v: seq<Registers>)
      requires Chain(l) && Ready(l, depth) && i < |l| == |v| && current == l[i] && Shows(l, v)
      modifies this`current, this`loaded, cpu, cpu.stack, set t | t in l :: t.saved
      ensures Chain(l) && current == l[Turn(events, i, |l|)]
      ensures Shows(l, SeenAtEnd(v, events, i))
    {
      hide FromSaved, Machine.Chain, Machine.Shows, Machine.Ready, SeenAfter, TurnAfter;
      if events != [] {
        var rest, event := events[..|events| - 1], events[|events| - 1];
        Execute(rest, depth, kernelDirectory, l, i, v);
        Happen(event, depth, kernelDirectory, l, Turn(rest, i, |l|), SeenAtEnd(v, rest, i));
      }
    }
  }

  // What can happen to the processor: the running program changes the registers in any way,
  // or there is an interrupt.
  datatype Event = Step(f: Registers -> Registers) | Timer | Other(vector: Word, handled: bool)

  type PlainEvent = e: Event | e.Other? ==> IsPlain(e.vector) witness Timer

  // The place of the task that runs, and what the tasks see, after an event and after a run
  // of events in which the task at place i runs first.
  function TurnAfter(event: PlainEvent, i: nat, n: nat): (j: nat)
    requires i < n
    ensures j < n
  {
    if event.Timer? then Next(i, n) else i
  }

  function SeenAfter(v: seq<Registers>, event: PlainEvent, i: nat): (v': seq<Registers>)
    requires i < |v|
    ensures |v'| == |v|
  {
    if event.Step? then v[i := event.f(v[i])] else v
  }

  function Turn(events: seq<PlainEvent>, i: nat, n: nat): (j: nat)
    requires i < n
    ensures j < n
  {
    if events == [] then i
    else TurnAfter(events[|events| - 1], Turn(events[..|events| - 1], i, n), n)
  }

  function SeenAtEnd(v: seq<Registers>, events: seq<PlainEvent>, i: nat): (v': seq<Registers>)
    requires i < |v|
    ensures |v'| == |v|
  {
    if events == [] then v
    else
      var rest := events[..|events| - 1];
      SeenAfter(SeenAtEnd(v, rest, i), events[|events| - 1], Turn(rest, i, |v|))
  }

  // The steps among the events that are those of the task at place t.
  function OwnSteps(events: seq<PlainEvent>, i: nat, n: nat, t: nat): seq<Registers -> Registers>
    requires i < n
  {
    if events == [] then []
    else
      var rest, e := events[..|events| - 1], events[|events| - 1];
      OwnSteps(rest, i, n, t) + (if e.Step? && Turn(rest, i, n) == t then [e.f] else [])
  }

  // The registers of a program that runs by itself.
  function Alone(r: Registers, steps: seq<Registers -> Registers>): Registers {
    if steps == [] then r else steps[|steps| - 1](Alone(r, steps[..|steps| - 1]))
  }

  // Each task has gone through its own steps and nothing else.
  lemma {:induction false} InterruptsAreInvisible(v: seq<Registers>, events: seq<PlainEvent>, i: nat, t: nat)
    requires i < |v| && t < |v|
    ensures SeenAtEnd(v, events, i)[t] == Alone(v[t], OwnSteps(events, i, |v|, t))
  {
    if events != [] {
      var rest, e := events[..|events| - 1], events[|events| - 1];
      InterruptsAreInvisible(v, rest, i, t);
      var own := OwnSteps(rest, i, |v|, t);
      if e.Step? && t == Turn(rest, i, |v|) {
        assert (own + [e.f])[..|own|] == own;
      } else {
        assert own + [] == own;
      }
    }
  }

  // Round robin: in n timer interrupts each of n tasks gets exactly one turn, and the one
  // that ran before them runs again after them.
  function Ticks(k: nat): seq<PlainEvent> { seq(k, i => Timer) }

  function TicksUntil(i: nat, n: nat, t: nat): nat
    requires i < n && t < n
  {
    if t > i then t - i else t + n - i
  }

  lemma {:induction false} RoundRobin(i: nat, n: nat, t: nat, k: nat)
    requires i < n && t < n && 1 <= k <= n
    ensures Turn(Ticks(k), i, n) == t <==> k == TicksUntil(i, n, t)
    ensures Turn(Ticks(n), i, n) == i
  {
    AfterTicks(i, n, k);
    AfterTicks(i, n, n);
  }

  lemma {:induction false} AfterTicks(i: nat, n: nat, k: nat)
    requires i < n && k <= n
    ensures Turn(Ticks(k), i, n) == if i + k < n then i + k else i + k - n
  {
    if k > 0 {
      assert Ticks(k)[..k - 1] == Ticks(k - 1);
      AfterTicks(i, n, k - 1);
    }
  }
}
