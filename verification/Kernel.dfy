/**
 The code of kernel/scheduler/scheduler.c and kernel/arch/x86/isr.asm over mutable state: the task
 array, the scheduler's globals, memory and the registers.  Each method is proved to take the state
 where modules `Scheduler` and `ContextSwitch` say.
 */
module Kernel {
  import opened Scheduler
  import opened ContextSwitch

  /** The handler finds the vector in the frame, whatever its own calls leave below. */
  lemma VectorInFrame(mem: seq<nat>, cpu: Regs, vector: nat, scratch: seq<nat>)
    requires FRAME_WORDS + |scratch| <= cpu.esp <= |mem|
    ensures var frame := cpu.esp - FRAME_WORDS;
      Store(Store(mem, frame, Frame(cpu, vector)), frame - |scratch|, scratch)[frame + 8] == vector
  {
  }

  class Cpu {
    var mem: array<nat>
    var tasks: array<Task>
    var idle: Task
    var cur: Current
    var nextId: nat
    var ticks: nat
    var cpu: Regs

    ghost predicate Valid()
      reads this
    {
      tasks.Length == MAX_TASKS && (cur.Slot? ==> cur.index < MAX_TASKS)
    }

    ghost function State(): (s: Sched)
      reads this, tasks
      requires Valid()
      ensures Shape(s)
    {
      Sched(tasks[..], idle, cur, nextId, ticks)
    }

    ghost function Whole(): Machine
      reads this, tasks, mem
      requires Valid()
    {
      Machine(cpu, mem[..], State())
    }

    /** `*(--sp) = w`, on memory that so far is `base` with `above` stored from `sp` up. */
    method Push(sp: nat, w: nat, ghost base: seq<nat>, ghost above: seq<nat>) returns (sp': nat)
      requires 0 < sp && sp + |above| <= |base| == mem.Length
      requires mem[..] == Store(base, sp, above)
      modifies mem
      ensures sp' == sp - 1 && mem[..] == Store(base, sp', [w] + above)
    {
      sp' := sp - 1;
      mem[sp'] := w;
      assert forall i :: 0 <= i < mem.Length ==> mem[i] == Store(base, sp', [w] + above)[i];
    }

    method PushZeros(sp: nat, n: nat, ghost base: seq<nat>, ghost above: seq<nat>) returns (sp': nat)
      requires n <= sp && sp + |above| <= |base| == mem.Length
      requires mem[..] == Store(base, sp, above)
      modifies mem
      ensures sp' == sp - n && mem[..] == Store(base, sp', seq(n, _ => 0) + above)
    {
      sp' := sp;
      ghost var zeros: seq<nat> := [];
      for k := 0 to n
        invariant sp' == sp - k && zeros == seq(k, _ => 0)
        invariant mem[..] == Store(base, sp', zeros + above)
      {
        sp' := Push(sp', 0, base, zeros + above);
        assert [0] + (zeros + above) == ([0] + zeros) + above;
        zeros := [0] + zeros;
      }
    }

    method CreateContext(l: Layout, top: nat, entry: nat) returns (sp: nat)
      requires FRAME_WORDS + 1 <= top <= mem.Length
      modifies mem
      ensures sp == top - FRAME_WORDS - 1
      ensures mem[..] == Store(old(mem[..]), sp, FreshStack(l, entry))
    {
      ghost var base := mem[..];
      assert Store(base, top, []) == base;
      sp := Push(top, l.taskExit, base, []);
      sp := Push(sp, EFLAGS_IF, base, [l.taskExit]);
      sp := Push(sp, KERNEL_CS, base, [EFLAGS_IF, l.taskExit]);
      sp := Push(sp, entry, base, [KERNEL_CS, EFLAGS_IF, l.taskExit]);
      sp := Push(sp, 0, base, [entry, KERNEL_CS, EFLAGS_IF, l.taskExit]);
      sp := Push(sp, 32, base, [0, entry, KERNEL_CS, EFLAGS_IF, l.taskExit]);
      ghost var above := [32, 0, entry, KERNEL_CS, EFLAGS_IF, l.taskExit];
      sp := PushZeros(sp, 8, base, above);
      assert seq(8, _ => 0) + above == FreshStack(l, entry);
    }

    method SchedulerInit(l: Layout)
      requires Valid() && GoodLayout(l) && mem.Length == l.memory
      modifies this, mem, tasks
      ensures Valid() && mem == old(mem) && tasks == old(tasks) && cpu == old(cpu)
      ensures Whole() == Boot(l, old(cpu), old(mem[..]))
    {
      for i := 0 to MAX_TASKS
        invariant Valid() && mem == old(mem) && tasks == old(tasks) && cpu == old(cpu)
        invariant mem[..] == old(mem[..])
        invariant forall k :: 0 <= k < i ==> tasks[k] == Task(0, Terminated, 0)
      {
        tasks[i] := Task(0, Terminated, 0);
      }
      nextId := 1;
      tasks[0] := tasks[0].(state := Running);
      var esp := CreateContext(l, l.idleStack + STACK_WORDS, l.idleEntry);
      idle := Task(IDLE_ID, Ready, esp);
      cur := Slot(0);
      ticks := 0;
      assert tasks[..] == Initial(esp).tasks;
    }

    /** A store through `curTask`. */
    method StoreCurrent(t: Task)
      requires Valid() && cur != Nobody
      modifies this`idle, tasks
      ensures Valid() && State() == SetCurrentTask(old(State()), t)
    {
      if cur.Idle? {
        idle := t;
      } else {
        tasks[cur.index] := t;
      }
    }

    method ReadCurrent() returns (t: Task)
      requires Valid() && cur != Nobody
      ensures t == CurrentTask(State())
    {
      if cur.Idle? {
        t := idle;
      } else {
        t := tasks[cur.index];
      }
    }

    /** The first loop of `task_create`: the first TERMINATED slot from 1 on, 16 for none. */
    method FindFree() returns (slot: nat)
      requires Valid()
      ensures slot == FirstTerminated(tasks[..], 1)
    {
      slot := 1;
      while slot < MAX_TASKS && tasks[slot].state != Terminated
        invariant 1 <= slot <= MAX_TASKS
        invariant FirstTerminated(tasks[..], 1) == FirstTerminated(tasks[..], slot)
      {
        slot := slot + 1;
      }
    }

    method TaskCreate(l: Layout, entry: nat) returns (id: int)
      requires Valid() && GoodLayout(l) && mem.Length == l.memory
      modifies this, mem, tasks
      ensures Valid() && mem == old(mem) && tasks == old(tasks) && cpu == old(cpu)
      ensures id == if entry == 0 then -1 else NewId(old(State()))
      ensures id == -1 ==> mem[..] == old(mem[..])
      ensures id == -1 ==> State() == if entry == 0 then old(State()) else Create(old(State()), 0).0
      ensures id != -1 ==>
        && 1 <= id < MAX_TASKS && FRAME_WORDS + 1 <= Top(l, Slot(id)) <= |old(mem[..])|
        && var esp := Top(l, Slot(id)) - FRAME_WORDS - 1;
        && State() == Create(old(State()), esp).0
        && mem[..] == Store(old(mem[..]), esp, FreshStack(l, entry))
    {
      if entry == 0 {
        return -1;
      }
      hide Store, FreshStack, FirstTerminated;
      var slot := FindFree();
      if slot == MAX_TASKS {
        return -1;
      }
      if tasks[slot].id == 0 {
        tasks[slot] := tasks[slot].(id := nextId);
        nextId := nextId + 1;
      }
      // The unsigned `id - 1` wraps for id 0, so 0 fails the check too.
      if tasks[slot].id == 0 || tasks[slot].id - 1 >= MAX_TASKS - 1 {
        return -1;
      }
      id := Activate(l, slot, entry);
    }

    /** The end of `task_create`: the context on the stack that the id selects, then the state. */
    method Activate(l: Layout, slot: nat, entry: nat) returns (id: int)
      requires Valid() && GoodLayout(l) && mem.Length == l.memory
      requires 1 <= slot < MAX_TASKS && 1 <= tasks[slot].id < MAX_TASKS
      modifies mem, tasks
      ensures id == old(tasks[slot].id) && Valid()
      ensures FRAME_WORDS + 1 <= Top(l, Slot(id)) <= mem.Length
      ensures var esp := Top(l, Slot(id)) - FRAME_WORDS - 1;
        && mem[..] == Store(old(mem[..]), esp, FreshStack(l, entry))
        && tasks[..] == old(tasks[..])[slot := Task(id, Ready, esp)]
    {
      hide Store, FreshStack;
      id := tasks[slot].id;
      var esp := CreateContext(l, l.taskStacks + (tasks[slot].id - 1) * STACK_WORDS + STACK_WORDS, entry);
      tasks[slot] := tasks[slot].(esp := esp);
      tasks[slot] := tasks[slot].(state := Ready);
      assert tasks[..] == old(tasks[..])[slot := Task(id, Ready, esp)];
    }

    method TaskBlockSet()
      requires Valid() && cur != Nobody
      modifies this`idle, tasks
      ensures Valid() && State() == BlockSet(old(State()))
    {
      var t := ReadCurrent();
      StoreCurrent(t.(state := Blocked));
    }

    method TaskUnblock(id: nat) returns (result: int)
      requires Valid()
      modifies tasks
      ensures Valid() && (State(), result) == Unblock(old(State()), id)
    {
      for i := 1 to MAX_TASKS
        invariant tasks[..] == old(tasks[..])
        invariant FirstBlocked(tasks[..], id, 1) == FirstBlocked(tasks[..], id, i)
      {
        if tasks[i].id == id && tasks[i].state == Blocked {
          tasks[i] := tasks[i].(state := Ready);
          assert tasks[..] == old(tasks[..])[i := WithState(old(tasks[..])[i], Ready)];
          return 0;
        }
      }
      return -1;
    }

    /** The loop of `scheduler_schedule` that turns `curTask` back into an index. */
    method FindIndex() returns (index: nat)
      requires Valid()
      ensures index == StartIndex(State())
    {
      index := 0;
      for i := 0 to MAX_TASKS
        invariant index == 0
        invariant cur.Slot? ==> i <= cur.index
      {
        if cur == Slot(i) {
          return i;
        }
      }
    }

    /** The round-robin loop of `scheduler_schedule`: the next READY slot, 16 for none. */
    method FindReady(curIdx: nat) returns (next: nat)
      requires Valid()
      ensures next == FirstReady(tasks[..], curIdx, 1)
    {
      for i := 1 to MAX_TASKS + 1
        invariant FirstReady(tasks[..], curIdx, 1) == FirstReady(tasks[..], curIdx, i)
      {
        next := (curIdx + i) % MAX_TASKS;
        if tasks[next].state == Ready {
          return;
        }
      }
      next := MAX_TASKS;
    }

    method Dispatch(who: Current) returns (esp: nat)
      requires Valid() && who != Nobody && (who.Slot? ==> who.index < MAX_TASKS)
      modifies this`cur, this`ticks, this`idle, tasks
      ensures Valid() && State() == DispatchTo(old(State()), who)
      ensures esp == CurrentTask(State()).esp
    {
      cur := who;
      var t := ReadCurrent();
      StoreCurrent(t.(state := Running));
      ticks := 0;
      esp := t.esp;
    }

    method SchedulerSchedule(regs: nat) returns (back: nat)
      requires Valid()
      modifies this`cur, this`ticks, this`idle, tasks
      ensures Valid() && State() == Schedule(old(State()), regs)
      ensures back == Resumed(old(State()), regs)
    {
      if cur == Nobody || regs == 0 {
        return regs;
      }
      var t := ReadCurrent();
      t := t.(esp := regs);
      if t.state == Running {
        t := t.(state := Ready);
      }
      StoreCurrent(t);
      ghost var d := State();
      assert d == Demoted(old(State()), regs);
      hide DispatchTo, FirstReady;
      var curIdx := FindIndex();
      var next := FindReady(curIdx);
      t := ReadCurrent();
      if next < MAX_TASKS {
        back := Dispatch(Slot(next));
      } else if t.state == Ready {
        back := Dispatch(cur);
      } else {
        back := Dispatch(Idle);
      }
    }

    method SchedulerTick(regs: nat) returns (back: nat)
      requires Valid()
      modifies this`cur, this`ticks, this`idle, tasks
      ensures Valid() && State() == Tick(old(State()), regs)
      ensures back == Returned(old(State()), Timer, regs)
    {
      ticks := ticks + 1;
      if ticks < TIME_SLICE {
        return regs;
      }
      ticks := 0;
      back := SchedulerSchedule(regs);
    }

    method SchedulerExit(regs: nat) returns (back: nat)
      requires Valid()
      modifies this`cur, this`ticks, this`idle, tasks
      ensures Valid() && State() == Exit(old(State()), regs)
      ensures back == Returned(old(State()), ExitTrap, regs)
    {
      if cur == Nobody || regs == 0 {
        return regs;
      }
      var t := ReadCurrent();
      StoreCurrent(t.(state := Terminated));
      back := SchedulerSchedule(regs);
    }

    /** The scheduler's share of `interrupt_handler`. */
    method InterruptHandler(regs: nat, ghost trap: Trap) returns (back: nat)
      requires Valid() && regs + FRAME_WORDS <= mem.Length && mem[regs + 8] == Vector(trap)
      modifies this`cur, this`ticks, this`idle, tasks
      ensures Valid() && State() == Handle(old(State()), trap, regs)
      ensures State() ==
        if mem[regs + 8] == 32 then Tick(old(State()), regs)
        else if mem[regs + 8] == 49 then Schedule(old(State()), regs)
        else if mem[regs + 8] == 50 then Exit(old(State()), regs)
        else old(State())
      ensures back == Returned(old(State()), trap, regs)
    {
      var number := mem[regs + 8];
      if number == 32 {
        back := SchedulerTick(regs);
      } else if number == 49 {
        back := SchedulerSchedule(regs);
      } else if number == 50 {
        back := SchedulerExit(regs);
      } else {
        back := regs;
      }
    }

    /** The processor's pushes, the stub's two, and `pusha`. */
    method EnterHandler(vector: nat) returns (frame: nat)
      requires FRAME_WORDS <= cpu.esp <= mem.Length
      modifies mem
      ensures frame == cpu.esp - FRAME_WORDS
      ensures mem[..] == Store(old(mem[..]), frame, Frame(cpu, vector))
    {
      ghost var base := mem[..];
      assert Store(base, cpu.esp, []) == base;
      hide Store;
      var sp := Push(cpu.esp, cpu.eflags, base, []);
      sp := Push(sp, cpu.cs, base, [cpu.eflags]);
      sp := Push(sp, cpu.eip, base, [cpu.cs, cpu.eflags]);
      sp := Push(sp, 0, base, [cpu.eip, cpu.cs, cpu.eflags]);
      sp := Push(sp, vector, base, [0, cpu.eip, cpu.cs, cpu.eflags]);
      frame := PushAll(sp, vector, base);
    }

    /** `pusha`, with `sp` also the value it stores for esp. */
    method PushAll(orig: nat, vector: nat, ghost base: seq<nat>) returns (sp: nat)
      requires FRAME_WORDS <= cpu.esp <= |base| == mem.Length && orig == cpu.esp - 5
      requires mem[..] == Store(base, orig, [vector, 0, cpu.eip, cpu.cs, cpu.eflags])
      modifies mem
      ensures sp == cpu.esp - FRAME_WORDS
      ensures mem[..] == Store(base, sp, Frame(cpu, vector))
    {
      hide Store;
      ghost var above := [vector, 0, cpu.eip, cpu.cs, cpu.eflags];
      sp := Push(orig, cpu.eax, base, above);
      above := [cpu.eax] + above;
      sp := Push(sp, cpu.ecx, base, above);
      above := [cpu.ecx] + above;
      sp := Push(sp, cpu.edx, base, above);
      above := [cpu.edx] + above;
      sp := Push(sp, cpu.ebx, base, above);
      above := [cpu.ebx] + above;
      sp := Push(sp, orig, base, above);
      above := [orig] + above;
      sp := Push(sp, cpu.ebp, base, above);
      above := [cpu.ebp] + above;
      sp := Push(sp, cpu.esi, base, above);
      above := [cpu.esi] + above;
      sp := Push(sp, cpu.edi, base, above);
      assert [cpu.edi] + above == Frame(cpu, vector);
    }

    /** What the handler's own calls leave on the stack below the frame. */
    method LeaveScratch(frame: nat, scratch: seq<nat>)
      requires |scratch| <= frame <= mem.Length
      modifies mem
      ensures mem[..] == Store(old(mem[..]), frame - |scratch|, scratch)
    {
      for k := 0 to |scratch|
        invariant forall i :: 0 <= i < mem.Length ==>
          mem[i] == if frame - |scratch| <= i < frame - |scratch| + k then scratch[i - (frame - |scratch|)]
                    else old(mem[i])
      {
        mem[frame - |scratch| + k] := scratch[k];
      }
      assert forall i :: 0 <= i < mem.Length ==> mem[i] == Store(old(mem[..]), frame - |scratch|, scratch)[i];
    }

    /** `popa`, `add esp, 8`, `iretd`. */
    method LeaveHandler(esp: nat)
      requires esp + FRAME_WORDS <= mem.Length
      modifies this`cpu
      ensures cpu == Restore(mem[..], esp)
    {
      cpu := Regs(mem[esp + 7], mem[esp + 6], mem[esp + 5], mem[esp + 4], esp + FRAME_WORDS,
                  mem[esp + 2], mem[esp + 1], mem[esp], mem[esp + 10], mem[esp + 11], mem[esp + 12]);
    }

    /** `isr_common`: enter, handle, switch to the frame returned, and pop it; field by field, `Interrupted`. */
    method IsrCommon(trap: Trap, scratch: seq<nat>)
      requires Valid() && FRAME_WORDS + |scratch| <= cpu.esp <= mem.Length
      requires Returned(State(), trap, cpu.esp - FRAME_WORDS) + FRAME_WORDS <= mem.Length
      modifies this`cur, this`ticks, this`idle, this`cpu, tasks, mem
      ensures Valid()
      ensures mem[..] == Entered(old(mem[..]), old(cpu), Vector(trap), scratch)
      ensures State() == Handle(old(State()), trap, old(cpu.esp) - FRAME_WORDS)
      ensures cpu == Restore(mem[..], Returned(old(State()), trap, old(cpu.esp) - FRAME_WORDS))
    {
      hide Handle, Restore, Store, Returned, Frame;
      var frame := EnterHandler(Vector(trap));
      LeaveScratch(frame, scratch);
      VectorInFrame(old(mem[..]), cpu, Vector(trap), scratch);
      var esp := InterruptHandler(frame, trap);
      LeaveHandler(esp);
    }
  }
}
