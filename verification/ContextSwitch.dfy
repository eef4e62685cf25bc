/**
 The context switch of kernel/arch/x86/isr.asm and kernel/scheduler/scheduler.c.

 Memory is a sequence of 32-bit words and addresses count words.  An interrupt pushes the
 interrupted registers on the stack in use, lets the scheduler choose, and pops whatever frame the
 scheduler returns.  The theorem is that, over any interleaving of interrupts, every task computes
 as if it had the processor to itself.
 */
module ContextSwitch {
  import opened Scheduler

  const STACK_WORDS: nat := 1024        // STACK_SIZE
  const FRAME_WORDS: nat := 13
  const IMAGE_START: nat := 0x2400      // __kernel_start, 0x9000
  const BOOT_STACK: nat := 0x2_6000     // 0x98000, above the kernel image and its bss
  const BOOT_STACK_TOP: nat := 0x2_7800 // 0x9E000, the stack set up by _start

  const KERNEL_CS: nat := 0x08
  const EFLAGS_IF: nat := 0x202

  datatype Regs = Regs(eax: nat, ecx: nat, edx: nat, ebx: nat, esp: nat, ebp: nat, esi: nat, edi: nat,
                       eip: nat, cs: nat, eflags: nat)

  /** Where the linker put the stacks and the code. */
  datatype Layout = Layout(memory: nat, taskStacks: nat, idleStack: nat, taskExit: nat, idleEntry: nat)

  ghost predicate GoodLayout(l: Layout) {
    && BOOT_STACK_TOP <= l.memory
    && IMAGE_START <= l.taskStacks && l.taskStacks + 15 * STACK_WORDS <= BOOT_STACK
    && IMAGE_START <= l.idleStack && l.idleStack + STACK_WORDS <= BOOT_STACK
    && (l.taskStacks + 15 * STACK_WORDS <= l.idleStack || l.idleStack + STACK_WORDS <= l.taskStacks)
  }

  /** The stack of a task: slot 0 runs on the boot stack, slot k on `taskStacks[k - 1]`. */
  function Bottom(l: Layout, who: Current): nat {
    match who
    case Slot(i) => if i == 0 then BOOT_STACK else l.taskStacks + (i - 1) * STACK_WORDS
    case _ => l.idleStack
  }

  function Top(l: Layout, who: Current): nat {
    if who == Slot(0) then BOOT_STACK_TOP else Bottom(l, who) + STACK_WORDS
  }

  ghost predicate IsTask(who: Current) {
    who == Idle || (who.Slot? && who.index < MAX_TASKS)
  }

  lemma StacksDisjoint(l: Layout, a: Current, b: Current)
    requires GoodLayout(l) && IsTask(a) && IsTask(b) && a != b
    ensures Top(l, a) <= Bottom(l, b) || Top(l, b) <= Bottom(l, a)
    ensures IMAGE_START <= Bottom(l, a) < Top(l, a) <= l.memory
  {
  }

  // ----- Memory -----

  function Store(mem: seq<nat>, at: nat, words: seq<nat>): (r: seq<nat>)
    requires at + |words| <= |mem|
    ensures |r| == |mem|
    ensures forall i :: 0 <= i < |mem| ==>
              r[i] == if at <= i < at + |words| then words[i - at] else mem[i]
  {
    seq(|mem|, i requires 0 <= i < |mem| => if at <= i < at + |words| then words[i - at] else mem[i])
  }

  /** The frame that the processor, the stub and `pusha` leave, lowest address first. */
  function Frame(cpu: Regs, vector: nat): (r: seq<nat>)
    requires cpu.esp >= 5
    ensures |r| == FRAME_WORDS
  {
    [cpu.edi, cpu.esi, cpu.ebp, cpu.esp - 5, cpu.ebx, cpu.edx, cpu.ecx, cpu.eax,
     vector, 0, cpu.eip, cpu.cs, cpu.eflags]
  }

  /** The frame is `struct registers`, field by field. */
  lemma FrameLayout(cpu: Regs, vector: nat)
    requires cpu.esp >= 5
    ensures var f := Frame(cpu, vector);
      && f[0] == cpu.edi && f[1] == cpu.esi && f[2] == cpu.ebp && f[3] == cpu.esp - 5 && f[4] == cpu.ebx
      && f[5] == cpu.edx && f[6] == cpu.ecx && f[7] == cpu.eax && f[8] == vector && f[9] == 0
      && f[10] == cpu.eip && f[11] == cpu.cs && f[12] == cpu.eflags
  {
  }

  /** `popa`, `add esp, 8`, `iretd` from the frame at `f`; `popa` discards the stored esp. */
  function Restore(mem: seq<nat>, f: nat): Regs
    requires f + FRAME_WORDS <= |mem|
  {
    Regs(mem[f + 7], mem[f + 6], mem[f + 5], mem[f + 4], f + FRAME_WORDS, mem[f + 2], mem[f + 1], mem[f],
         mem[f + 10], mem[f + 11], mem[f + 12])
  }

  /** What `task_create_context` writes below the top of a stack, lowest address first. */
  function FreshStack(l: Layout, entry: nat): (r: seq<nat>)
    ensures |r| == FRAME_WORDS + 1
  {
    [0, 0, 0, 0, 0, 0, 0, 0, 32, 0, entry, KERNEL_CS, EFLAGS_IF, l.taskExit]
  }

  // ----- The machine -----

  datatype Machine = Machine(cpu: Regs, mem: seq<nat>, sched: Sched)

  /** A vector for which the handler returns the frame it got. */
  type Other = v: nat | v < 256 && v != 32 && v != 49 && v != 50

  datatype Trap = Timer | Yield | ExitTrap | Device(vector: Other)

  function Vector(t: Trap): nat {
    match t
    case Timer => 32
    case Yield => 49
    case ExitTrap => 50
    case Device(v) => v
  }

  /** `interrupt_handler` as far as the scheduler is concerned. */
  function Handle(s: Sched, t: Trap, frame: nat): (r: Sched)
    requires Shape(s)
    ensures Shape(r)
  {
    match t
    case Timer => Tick(s, frame)
    case Yield => Schedule(s, frame)
    case ExitTrap => Exit(s, frame)
    case Device(_) => s
  }

  /** Which handler runs, by the number in the frame: 32 ticks, 49 yields, 50 exits, and no other matters. */
  lemma HandledByVector(s: Sched, t: Trap, frame: nat)
    requires Shape(s)
    ensures Handle(s, t, frame) ==
      if Vector(t) == 32 then Next(s, TickStep(frame))
      else if Vector(t) == 49 then Next(s, YieldStep(frame))
      else if Vector(t) == 50 then Next(s, ExitStep(frame))
      else s
  {
  }

  /** Every interrupt number is that of one trap. */
  lemma EveryVector(v: nat)
    requires v < 256
    ensures exists t :: Vector(t) == v
  {
    var t := if v == 32 then Timer else if v == 49 then Yield else if v == 50 then ExitTrap else Device(v);
    assert Vector(t) == v;
  }

  /** The frame pointer the handler returns. */
  function Returned(s: Sched, t: Trap, frame: nat): nat
    requires Shape(s)
  {
    match t
    case Timer => if s.ticks + 1 < TIME_SLICE then frame else Resumed(s.(ticks := 0), frame)
    case Yield => Resumed(s, frame)
    case ExitTrap =>
      if s.cur == Nobody || frame == 0 then frame
      else Resumed(SetCurrentTask(s, WithState(CurrentTask(s), Terminated)), frame)
    case Device(_) => frame
  }

  datatype MStep =
    | Execute(regs: Regs, stack: seq<nat>)      // the current task computes, on its own stack
    | Interrupt(trap: Trap, scratch: seq<nat>)  // `scratch` is what the handler leaves below the frame
    | Block
    | Wake(id: nat)
    | NewTask(entry: nat)

  ghost predicate GoodMachine(l: Layout, m: Machine) {
    && GoodLayout(l) && |m.mem| == l.memory && Scheduler.Inv(m.sched)
    && Bottom(l, m.sched.cur) <= m.cpu.esp <= Top(l, m.sched.cur)
  }

  /** Tasks keep to their own stack and leave room on it for an interrupt; the idle loop only halts. */
  ghost predicate Legal(l: Layout, m: Machine, step: MStep) {
    var who := m.sched.cur;
    match step
    case Execute(regs, stack) =>
      Bottom(l, who) <= regs.esp <= Top(l, who) && Bottom(l, who) + |stack| == Top(l, who)
    case Interrupt(trap, scratch) =>
      && Bottom(l, who) + FRAME_WORDS + |scratch| <= m.cpu.esp
      && (trap == Yield || trap == ExitTrap ==> who.Slot?)
    case Block => who.Slot?
    case Wake(_) => true
    case NewTask(_) => true
  }

  function NewId(s: Sched): int
    requires Shape(s)
  {
    Create(s, 0).2
  }

  /** Memory once the handler has run: the frame, and below it whatever the handler left. */
  function Entered(mem: seq<nat>, cpu: Regs, vector: nat, scratch: seq<nat>): (r: seq<nat>)
    requires FRAME_WORDS + |scratch| <= cpu.esp <= |mem|
    ensures |r| == |mem|
    ensures forall i :: 0 <= i < |mem| && !(cpu.esp - FRAME_WORDS - |scratch| <= i < cpu.esp) ==> r[i] == mem[i]
  {
    var f := cpu.esp - FRAME_WORDS;
    Store(Store(mem, f, Frame(cpu, vector)), f - |scratch|, scratch)
  }

  /** A whole interrupt; the frame returned is always within memory (see `InterruptFaithful`). */
  function Interrupted(m: Machine, trap: Trap, scratch: seq<nat>): Machine
    requires Shape(m.sched) && FRAME_WORDS + |scratch| <= m.cpu.esp <= |m.mem|
  {
    var f := m.cpu.esp - FRAME_WORDS;
    var mem := Entered(m.mem, m.cpu, Vector(trap), scratch);
    var back := Returned(m.sched, trap, f);
    if back + FRAME_WORDS <= |mem| then Machine(Restore(mem, back), mem, Handle(m.sched, trap, f)) else m
  }

  ghost function Advance(l: Layout, m: Machine, step: MStep): Machine
    requires GoodMachine(l, m) && Legal(l, m, step)
  {
    match step
    case Execute(regs, stack) => m.(cpu := regs, mem := Store(m.mem, Bottom(l, m.sched.cur), stack))
    case Interrupt(trap, scratch) => Interrupted(m, trap, scratch)
    case Block => m.(sched := BlockSet(m.sched))
    case Wake(id) => m.(sched := Unblock(m.sched, id).0)
    case NewTask(entry) =>
      var id := NewId(m.sched);
      if entry == 0 || !(1 <= id < MAX_TASKS) then m else
      var esp := Top(l, Slot(id)) - FRAME_WORDS - 1;
      m.(mem := Store(m.mem, esp, FreshStack(l, entry)), sched := Create(m.sched, esp).0)
  }

  // ----- What each task believes -----

  /** A task's own view: its registers and its stack from the stack pointer up. */
  datatype View = View(regs: Regs, stack: seq<nat>)

  type Views = map<Current, View>

  function Starts(l: Layout, who: Current, entry: nat): View
    requires Top(l, who) > 0
  {
    View(Regs(0, 0, 0, 0, Top(l, who) - 1, 0, 0, 0, entry, KERNEL_CS, EFLAGS_IF), [l.taskExit])
  }

  /**
   How the views change in a step: a task's own computation changes its view, creation gives a new
   task its starting view, and nothing else, in particular no interrupt, changes any view.
   */
  ghost function Track(l: Layout, m: Machine, views: Views, step: MStep): Views
    requires GoodMachine(l, m) && Legal(l, m, step)
  {
    match step
    case Execute(regs, stack) =>
      views[m.sched.cur := View(regs, stack[regs.esp - Bottom(l, m.sched.cur)..])]
    case NewTask(entry) =>
      var id := NewId(m.sched);
      if entry == 0 || !(1 <= id < MAX_TASKS) then views else views[Slot(id) := Starts(l, Slot(id), entry)]
    case _ => views
  }

  ghost predicate Alive(s: Sched, who: Current)
    requires Shape(s)
  {
    who == Idle || (who.Slot? && who.index < MAX_TASKS && s.tasks[who.index].state != Terminated)
  }

  function SavedEsp(s: Sched, who: Current): nat
    requires Shape(s) && Alive(s, who)
  {
    if who == Idle then s.idle.esp else s.tasks[who.index].esp
  }

  /** The frame at `f` on the stack of `who` holds the view `v`. */
  ghost predicate Holds(l: Layout, mem: seq<nat>, who: Current, f: nat, v: View)
    requires Top(l, who) <= |mem|
  {
    && Bottom(l, who) <= f && f + FRAME_WORDS <= Top(l, who)
    && Restore(mem, f) == v.regs && mem[f + FRAME_WORDS..Top(l, who)] == v.stack
  }

  /** The processor shows the current task its view, and every other task's view is saved on its stack. */
  ghost predicate Faithful(l: Layout, m: Machine, views: Views)
    requires GoodMachine(l, m)
  {
    && (forall who :: Alive(m.sched, who) ==> who in views)
    && views[m.sched.cur] == View(m.cpu, m.mem[m.cpu.esp..Top(l, m.sched.cur)])
    && (forall who :: Alive(m.sched, who) && who != m.sched.cur ==>
          Holds(l, m.mem, who, SavedEsp(m.sched, who), views[who]))
  }

  /** A stack whose words did not change holds what it held. */
  lemma HoldsFrame(l: Layout, mem: seq<nat>, mem': seq<nat>, who: Current, f: nat, v: View)
    requires Top(l, who) <= |mem| == |mem'| && Holds(l, mem, who, f, v)
    requires forall i :: Bottom(l, who) <= i < Top(l, who) ==> mem'[i] == mem[i]
    ensures Holds(l, mem', who, f, v)
  {
    assert mem'[f + FRAME_WORDS..Top(l, who)] == mem[f + FRAME_WORDS..Top(l, who)];
  }

  /** Words stored inside one stack leave what is held on another. */
  lemma HoldsElsewhere(l: Layout, mem: seq<nat>, at: nat, words: seq<nat>, on: Current,
                       who: Current, f: nat, v: View)
    requires GoodLayout(l) && IsTask(on) && IsTask(who) && on != who && |mem| == l.memory
    requires Bottom(l, on) <= at && at + |words| <= Top(l, on) <= l.memory
    requires Top(l, who) <= |mem| && Holds(l, mem, who, f, v)
    ensures Holds(l, Store(mem, at, words), who, f, v)
  {
    StacksDisjoint(l, on, who);
    HoldsFrame(l, mem, Store(mem, at, words), who, f, v);
  }

  // ----- Each step keeps the views faithful -----

  lemma ExecuteFaithful(l: Layout, m: Machine, views: Views, step: MStep)
    requires GoodMachine(l, m) && Faithful(l, m, views) && step.Execute? && Legal(l, m, step)
    ensures GoodMachine(l, Advance(l, m, step))
    ensures Faithful(l, Advance(l, m, step), Track(l, m, views, step))
  {
    var cur := m.sched.cur;
    var m' := Advance(l, m, step);
    assert m'.mem[step.regs.esp..Top(l, cur)] == step.stack[step.regs.esp - Bottom(l, cur)..];
    forall who | Alive(m.sched, who) && who != cur
      ensures Holds(l, m'.mem, who, SavedEsp(m.sched, who), views[who])
    {
      HoldsElsewhere(l, m.mem, Bottom(l, cur), step.stack, cur, who, SavedEsp(m.sched, who), views[who]);
    }
  }

  /** Entering the handler leaves the interrupted view in the new frame. */
  lemma EntrySaves(l: Layout, mem: seq<nat>, cpu: Regs, vector: nat, scratch: seq<nat>, cur: Current)
    requires Bottom(l, cur) + FRAME_WORDS + |scratch| <= cpu.esp <= Top(l, cur) <= |mem|
    ensures Holds(l, Entered(mem, cpu, vector, scratch), cur, cpu.esp - FRAME_WORDS,
                  View(cpu, mem[cpu.esp..Top(l, cur)]))
  {
    var f := cpu.esp - FRAME_WORDS;
    var frame := Frame(cpu, vector);
    var after := Entered(mem, cpu, vector, scratch);
    assert forall i :: 0 <= i < FRAME_WORDS ==> after[f + i] == frame[i];
    assert after[f + 0] == cpu.edi;
    assert after[cpu.esp..Top(l, cur)] == mem[cpu.esp..Top(l, cur)];
  }

  /** ... and every other task's where it was. */
  lemma EntryElsewhere(l: Layout, mem: seq<nat>, cpu: Regs, vector: nat, scratch: seq<nat>, cur: Current,
                       who: Current, f: nat, v: View)
    requires GoodLayout(l) && |mem| == l.memory && IsTask(cur) && IsTask(who) && cur != who
    requires Bottom(l, cur) + FRAME_WORDS + |scratch| <= cpu.esp <= Top(l, cur) <= l.memory
    requires Top(l, who) <= |mem| && Holds(l, mem, who, f, v)
    ensures Holds(l, Entered(mem, cpu, vector, scratch), who, f, v)
  {
    StacksDisjoint(l, cur, who);
    HoldsFrame(l, mem, Entered(mem, cpu, vector, scratch), who, f, v);
  }

  /** A handler that switches saved the frame it was given; every other frame pointer stays. */
  lemma HandleSaves(s: Sched, trap: Trap, frame: nat)
    requires Scheduler.Inv(s) && frame != 0 && (trap == Yield || trap == ExitTrap ==> s.cur.Slot?)
    ensures var r := Handle(s, trap, frame);
      && Scheduler.Inv(r)
      && (forall who :: Alive(r, who) ==> Alive(s, who))
      && (forall who :: Alive(r, who) && who != s.cur ==> SavedEsp(r, who) == SavedEsp(s, who))
      && (r.cur != s.cur && Alive(r, s.cur) ==> SavedEsp(r, s.cur) == frame)
      && Returned(s, trap, frame) == (if r.cur == s.cur then frame else SavedEsp(r, r.cur))
  {
    hide Schedule, IdsAreSlots, Distance;
    match trap
    case Timer =>
      NextKeepsInv(s, TickStep(frame));
      if s.ticks + 1 >= TIME_SLICE { ScheduleEffect(s.(ticks := 0), frame); }
    case Yield =>
      NextKeepsInv(s, YieldStep(frame));
      ScheduleEffect(s, frame);
    case ExitTrap =>
      ExitKeepsInv(s, frame);
      ScheduleEffect(SetCurrentTask(s, WithState(CurrentTask(s), Terminated)), frame);
    case Device(_) =>
  }

  /** Every task alive after the handler has its view in the frame the handler left for it. */
  lemma HandlerHolds(l: Layout, m: Machine, views: Views, trap: Trap, scratch: seq<nat>, who: Current)
    requires GoodMachine(l, m) && Faithful(l, m, views) && Legal(l, m, Interrupt(trap, scratch))
    requires Alive(m.sched, who)
    ensures who in views && Top(l, who) <= |m.mem|
    ensures var mem := Entered(m.mem, m.cpu, Vector(trap), scratch);
      Holds(l, mem, who, if who == m.sched.cur then m.cpu.esp - FRAME_WORDS else SavedEsp(m.sched, who), views[who])
  {
    hide Entered, Restore, Frame;
    if who == m.sched.cur {
      EntrySaves(l, m.mem, m.cpu, Vector(trap), scratch, who);
    } else {
      EntryElsewhere(l, m.mem, m.cpu, Vector(trap), scratch, m.sched.cur, who, SavedEsp(m.sched, who), views[who]);
    }
  }

  /** The frame returned is that of the task chosen, and every other task's is where it was saved. */
  lemma ResumeHolds(l: Layout, m: Machine, views: Views, trap: Trap, scratch: seq<nat>, r: Sched, back: nat,
                    who: Current)
    requires GoodMachine(l, m) && Faithful(l, m, views) && Legal(l, m, Interrupt(trap, scratch))
    requires Shape(r) && Alive(r, who) && Alive(m.sched, who)
    requires who != m.sched.cur ==> SavedEsp(r, who) == SavedEsp(m.sched, who)
    requires who == m.sched.cur && r.cur != who ==> SavedEsp(r, who) == m.cpu.esp - FRAME_WORDS
    requires who == r.cur ==> back == if who == m.sched.cur then m.cpu.esp - FRAME_WORDS else SavedEsp(r, who)
    ensures who in views && Top(l, who) <= |m.mem|
    ensures var mem := Entered(m.mem, m.cpu, Vector(trap), scratch);
      Holds(l, mem, who, if who == r.cur then back else SavedEsp(r, who), views[who])
  {
    hide Entered, Frame, Holds, Faithful, Restore, SavedEsp;
    HandlerHolds(l, m, views, trap, scratch, who);
  }

  /** Popping the frame that holds the chosen task's view gives that task its view back. */
  lemma PopFaithful(l: Layout, mem: seq<nat>, r: Sched, back: nat, views: Views)
    requires GoodLayout(l) && |mem| == l.memory && Scheduler.Inv(r)
    requires forall who :: Alive(r, who) ==> who in views && Top(l, who) <= |mem|
    requires forall who :: Alive(r, who) && who != r.cur ==> Holds(l, mem, who, SavedEsp(r, who), views[who])
    requires Alive(r, r.cur) && Holds(l, mem, r.cur, back, views[r.cur])
    ensures back + FRAME_WORDS <= |mem|
    ensures var m := Machine(Restore(mem, back), mem, r);
      GoodMachine(l, m) && Faithful(l, m, views)
  {
  }

  lemma InterruptFaithful(l: Layout, m: Machine, views: Views, step: MStep)
    requires GoodMachine(l, m) && Faithful(l, m, views) && step.Interrupt? && Legal(l, m, step)
    ensures Returned(m.sched, step.trap, m.cpu.esp - FRAME_WORDS) + FRAME_WORDS <= |m.mem|
    ensures GoodMachine(l, Advance(l, m, step))
    ensures Faithful(l, Advance(l, m, step), views)
  {
    hide Entered, Frame, Handle, Returned, Holds, Faithful, Restore;
    var f := m.cpu.esp - FRAME_WORDS;
    HandleSaves(m.sched, step.trap, f);
    var r := Handle(m.sched, step.trap, f);
    forall who | Alive(r, who)
      ensures who in views && Top(l, who) <= |m.mem|
      ensures var mem := Entered(m.mem, m.cpu, Vector(step.trap), step.scratch);
        var back := Returned(m.sched, step.trap, f);
        Holds(l, mem, who, if who == r.cur then back else SavedEsp(r, who), views[who])
    {
      ResumeHolds(l, m, views, step.trap, step.scratch, r, Returned(m.sched, step.trap, f), who);
    }
    assert Alive(r, r.cur);
    PopFaithful(l, Entered(m.mem, m.cpu, Vector(step.trap), step.scratch), r, Returned(m.sched, step.trap, f), views);
  }

  lemma FreshHolds(l: Layout, mem: seq<nat>, who: Current, entry: nat)
    requires GoodLayout(l) && IsTask(who) && |mem| == l.memory
    ensures Bottom(l, who) + STACK_WORDS <= Top(l, who) <= l.memory
    ensures var esp := Top(l, who) - FRAME_WORDS - 1;
      Holds(l, Store(mem, esp, FreshStack(l, entry)), who, esp, Starts(l, who, entry))
  {
    var esp := Top(l, who) - FRAME_WORDS - 1;
    var words := FreshStack(l, entry);
    var after := Store(mem, esp, words);
    assert forall i :: 0 <= i <= FRAME_WORDS ==> after[esp + i] == words[i];
    assert after[esp + 0] == 0;
    assert after[esp + FRAME_WORDS..Top(l, who)] == [l.taskExit];
  }

  lemma SliceElsewhere(l: Layout, mem: seq<nat>, at: nat, words: seq<nat>, on: Current, who: Current, from: nat)
    requires GoodLayout(l) && IsTask(on) && IsTask(who) && on != who && |mem| == l.memory
    requires Bottom(l, on) <= at && at + |words| <= Top(l, on) <= l.memory
    requires Bottom(l, who) <= from <= Top(l, who) <= l.memory
    ensures Store(mem, at, words)[from..Top(l, who)] == mem[from..Top(l, who)]
  {
    StacksDisjoint(l, on, who);
  }

  /** A new task whose stack `mem` holds `v` and differs from the old memory only there. */
  lemma BornFaithful(l: Layout, m: Machine, views: Views, slot: nat, esp: nat, words: seq<nat>, v: View, after: Sched)
    requires GoodMachine(l, m) && Faithful(l, m, views)
    requires 1 <= slot < MAX_TASKS && Slot(slot) != m.sched.cur && Scheduler.Inv(after)
    requires Bottom(l, Slot(slot)) <= esp && esp + |words| <= Top(l, Slot(slot)) <= |m.mem|
    requires Holds(l, Store(m.mem, esp, words), Slot(slot), esp, v)
    requires after.tasks == m.sched.tasks[slot := Task(slot, Ready, esp)]
    requires after.cur == m.sched.cur && after.idle == m.sched.idle
    ensures var m' := Machine(m.cpu, Store(m.mem, esp, words), after);
      GoodMachine(l, m') && Faithful(l, m', views[Slot(slot) := v])
  {
    hide Store, Restore;
    var born, cur := Slot(slot), m.sched.cur;
    var mem := Store(m.mem, esp, words);
    SliceElsewhere(l, m.mem, esp, words, born, cur, m.cpu.esp);
    forall who | Alive(after, who) && who != cur && who != born
      ensures who in views && Top(l, who) <= |mem| && Holds(l, mem, who, SavedEsp(after, who), views[who])
    {
      assert Alive(m.sched, who);
      HoldsElsewhere(l, m.mem, esp, words, born, who, SavedEsp(m.sched, who), views[who]);
    }
  }

  lemma SameId(s: Sched, esp: nat)
    requires Shape(s)
    ensures Create(s, esp).2 == NewId(s)
  {
  }

  lemma NewTaskFaithful(l: Layout, m: Machine, views: Views, entry: nat)
    requires GoodMachine(l, m) && Faithful(l, m, views)
    ensures var step := NewTask(entry);
      GoodMachine(l, Advance(l, m, step)) && Faithful(l, Advance(l, m, step), Track(l, m, views, step))
  {
    hide Store, Restore, FreshStack, Faithful, Holds, Create;
    CreateEffect(m.sched, 0);
    var id := NewId(m.sched);
    if entry != 0 && id != -1 {
      var esp := Top(l, Slot(id)) - FRAME_WORDS - 1;
      SameId(m.sched, esp);
      CreateEffect(m.sched, esp);
      FreshHolds(l, m.mem, Slot(id), entry);
      BornFaithful(l, m, views, id, esp, FreshStack(l, entry), Starts(l, Slot(id), entry), Create(m.sched, esp).0);
    }
  }

  lemma StepFaithful(l: Layout, m: Machine, views: Views, step: MStep)
    requires GoodMachine(l, m) && Faithful(l, m, views) && Legal(l, m, step)
    ensures GoodMachine(l, Advance(l, m, step))
    ensures Faithful(l, Advance(l, m, step), Track(l, m, views, step))
  {
    match step
    case Execute(_, _) => ExecuteFaithful(l, m, views, step);
    case Interrupt(_, _) => InterruptFaithful(l, m, views, step);
    case NewTask(entry) => NewTaskFaithful(l, m, views, entry);
    case Block => NextKeepsInv(m.sched, BlockStep);
    case Wake(id) => UnblockEffect(m.sched, id);
  }

  // ----- Runs -----

  /** The machine when `scheduler_init` returns to the kernel task, which goes on with `cpu` on stack `mem`. */
  ghost function Boot(l: Layout, cpu: Regs, mem: seq<nat>): Machine
    requires GoodLayout(l) && |mem| == l.memory
  {
    var esp := Top(l, Idle) - FRAME_WORDS - 1;
    Machine(cpu, Store(mem, esp, FreshStack(l, l.idleEntry)), Initial(esp))
  }

  ghost function BootViews(l: Layout, cpu: Regs, mem: seq<nat>): Views
    requires GoodLayout(l) && |mem| == l.memory && BOOT_STACK <= cpu.esp <= BOOT_STACK_TOP
  {
    map[Slot(0) := View(cpu, mem[cpu.esp..BOOT_STACK_TOP]), Idle := Starts(l, Idle, l.idleEntry)]
  }

  lemma BootFaithful(l: Layout, cpu: Regs, mem: seq<nat>)
    requires GoodLayout(l) && |mem| == l.memory && BOOT_STACK <= cpu.esp <= BOOT_STACK_TOP
    ensures GoodMachine(l, Boot(l, cpu, mem))
    ensures Faithful(l, Boot(l, cpu, mem), BootViews(l, cpu, mem))
    ensures var idle := BootViews(l, cpu, mem)[Idle].regs;
      idle.eip == l.idleEntry && idle.eflags / 512 % 2 == 1 && idle.cs == 0x08
  {
    hide Restore, FreshStack;
    var m := Boot(l, cpu, mem);
    InitialInv(Top(l, Idle) - FRAME_WORDS - 1);
    FreshHolds(l, mem, Idle, l.idleEntry);
    StacksDisjoint(l, Idle, Slot(0));
    assert m.mem[cpu.esp..BOOT_STACK_TOP] == mem[cpu.esp..BOOT_STACK_TOP];
  }

  ghost predicate LegalRun(l: Layout, m: Machine, steps: seq<MStep>)
    decreases steps
  {
    && GoodMachine(l, m)
    && (steps != [] ==> Legal(l, m, steps[0]) && LegalRun(l, Advance(l, m, steps[0]), steps[1..]))
  }

  ghost function RunMachine(l: Layout, m: Machine, steps: seq<MStep>): Machine
    requires LegalRun(l, m, steps)
    decreases steps
  {
    if steps == [] then m else RunMachine(l, Advance(l, m, steps[0]), steps[1..])
  }

  ghost function RunViews(l: Layout, m: Machine, views: Views, steps: seq<MStep>): Views
    requires LegalRun(l, m, steps)
    decreases steps
  {
    if steps == [] then views
    else RunViews(l, Advance(l, m, steps[0]), Track(l, m, views, steps[0]), steps[1..])
  }

  /** Over every run, every task's view, which no interrupt ever changes, is what it gets. */
  lemma {:induction false} RunFaithful(l: Layout, m: Machine, views: Views, steps: seq<MStep>)
    requires LegalRun(l, m, steps) && Faithful(l, m, views)
    ensures GoodMachine(l, RunMachine(l, m, steps))
    ensures Faithful(l, RunMachine(l, m, steps), RunViews(l, m, views, steps))
    decreases steps
  {
    if steps != [] {
      StepFaithful(l, m, views, steps[0]);
      RunFaithful(l, Advance(l, m, steps[0]), Track(l, m, views, steps[0]), steps[1..]);
    }
  }

  /** `who` itself neither computes nor exits in the run, and stays alive. */
  ghost predicate Suspended(l: Layout, m: Machine, steps: seq<MStep>, who: Current)
    requires LegalRun(l, m, steps)
    decreases steps
  {
    && Alive(m.sched, who)
    && (steps != [] ==>
        && (m.sched.cur == who ==> !steps[0].Execute?)
        && Suspended(l, Advance(l, m, steps[0]), steps[1..], who))
  }

  lemma ViewOfAlive(l: Layout, m: Machine, views: Views, who: Current)
    requires GoodMachine(l, m) && Faithful(l, m, views) && Alive(m.sched, who)
    ensures who in views
  {
  }

  lemma {:induction false} SuspendedViewKept(l: Layout, m: Machine, views: Views, steps: seq<MStep>, who: Current)
    requires LegalRun(l, m, steps) && Faithful(l, m, views) && Suspended(l, m, steps, who)
    ensures who in views && who in RunViews(l, m, views, steps)
    ensures RunViews(l, m, views, steps)[who] == views[who]
    decreases steps
  {
    hide Store, Restore, Holds, Faithful, FreshStack, Create, Starts, Interrupted;
    ViewOfAlive(l, m, views, who);
    if steps != [] {
      StepFaithful(l, m, views, steps[0]);
      CreateEffect(m.sched, 0);
      SuspendedViewKept(l, Advance(l, m, steps[0]), Track(l, m, views, steps[0]), steps[1..], who);
    }
  }

  /**
   Transparency of preemption: if `who` has the processor at the start and at the end of any run in
   which it computes nothing itself, it finds every register and every word of its stack as it
   left them, however many interrupts, switches, exits and creations happened in between.
   */
  lemma ResumedExactly(l: Layout, m: Machine, views: Views, steps: seq<MStep>)
    requires LegalRun(l, m, steps) && Faithful(l, m, views)
    requires Suspended(l, m, steps, m.sched.cur) && RunMachine(l, m, steps).sched.cur == m.sched.cur
    ensures var r := RunMachine(l, m, steps);
      && r.cpu == m.cpu
      && |r.mem| == |m.mem| && m.cpu.esp <= Top(l, m.sched.cur) <= |m.mem|
      && r.mem[m.cpu.esp..Top(l, m.sched.cur)] == m.mem[m.cpu.esp..Top(l, m.sched.cur)]
  {
    RunFaithful(l, m, views, steps);
    SuspendedViewKept(l, m, views, steps, m.sched.cur);
  }

  /**
   A created task, however long it waits, first runs at its entry point with interrupts on (bit 9 of
   the flags), in the kernel's code segment, at the top of its own 4096-byte stack, with `task_exit` as
   its return address and every general register zero.
   */
  lemma FreshTaskStarts(l: Layout, m: Machine, views: Views, entry: nat, steps: seq<MStep>)
    requires GoodMachine(l, m) && Faithful(l, m, views) && entry != 0 && NewId(m.sched) != -1
    requires
      var born := Advance(l, m, NewTask(entry));
      && LegalRun(l, born, steps) && Suspended(l, born, steps, Slot(NewId(m.sched)))
      && RunMachine(l, born, steps).sched.cur == Slot(NewId(m.sched))
    ensures
      var r := RunMachine(l, Advance(l, m, NewTask(entry)), steps);
      && r.cpu == Regs(0, 0, 0, 0, l.taskStacks + NewId(m.sched) * 1024 - 1, 0, 0, 0, entry, 0x08, 0x202)
      && r.cpu.eflags / 512 % 2 == 1 && r.cpu.esp < |r.mem| && r.mem[r.cpu.esp] == l.taskExit
  {
    hide Store, Restore, FreshStack, Faithful, Holds, Create, RunMachine, Suspended, LegalRun, GoodMachine, Top;
    MachineInv(l, m);
    var who := Slot(NewId(m.sched));
    var born := Advance(l, m, NewTask(entry));
    var views' := Track(l, m, views, NewTask(entry));
    CreateEffect(m.sched, 0);
    SlotTop(l, who.index);
    assert views'[who] == Starts(l, who, entry);
    NewTaskFaithful(l, m, views, entry);
    StartsAsViewed(l, born, views', steps, who, entry);
  }

  lemma MachineInv(l: Layout, m: Machine)
    requires GoodMachine(l, m)
    ensures Scheduler.Inv(m.sched)
  {
  }

  lemma SlotTop(l: Layout, i: nat)
    requires 1 <= i
    ensures Top(l, Slot(i)) == l.taskStacks + i * 1024
  {
  }

  lemma StartsAsViewed(l: Layout, m: Machine, views: Views, steps: seq<MStep>, who: Current, entry: nat)
    requires LegalRun(l, m, steps) && Faithful(l, m, views) && Suspended(l, m, steps, who)
    requires who in views && Top(l, who) > 0 && views[who] == Starts(l, who, entry)
    requires RunMachine(l, m, steps).sched.cur == who
    ensures var r := RunMachine(l, m, steps);
      && r.cpu == Starts(l, who, entry).regs && Top(l, who) <= |r.mem| && r.mem[r.cpu.esp] == l.taskExit
  {
    RunFaithful(l, m, views, steps);
    SuspendedViewKept(l, m, views, steps, who);
    var r := RunMachine(l, m, steps);
    assert r.mem[r.cpu.esp..Top(l, who)][0] == l.taskExit;
  }
}
