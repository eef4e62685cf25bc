/**
 The round-robin scheduler of kernel/scheduler/scheduler.c as a transition system.

 Interrupt handlers and the `irq_save` sections run with interrupts off, so each is one step.
 `task_block` is two: it stores BLOCKED with interrupts on, and only then traps, so a timer tick
 may fall between the two (`BlockSet`, then `Yield`).
 */
module Scheduler {

  const MAX_TASKS: nat := 16
  const TIME_SLICE: nat := 10
  const IDLE_ID: nat := 0xFFFF_FFFF

  datatype TaskState = Ready | Running | Blocked | Terminated

  datatype Task = Task(id: nat, state: TaskState, esp: nat)

  /** What `curTask` points to. */
  datatype Current = Nobody | Slot(index: nat) | Idle

  datatype Sched = Sched(tasks: seq<Task>, idle: Task, cur: Current, nextId: nat, ticks: nat)

  ghost predicate Shape(s: Sched) {
    |s.tasks| == MAX_TASKS && (s.cur.Slot? ==> s.cur.index < MAX_TASKS)
  }

  // ----- The operations -----

  function WithState(t: Task, state: TaskState): Task {
    t.(state := state)
  }

  function Initial(idleEsp: nat): Sched {
    Sched(seq(MAX_TASKS, i => Task(0, if i == 0 then Running else Terminated, 0)),
          Task(IDLE_ID, Ready, idleEsp), Slot(0), 1, 0)
  }

  function CurrentTask(s: Sched): Task
    requires Shape(s) && s.cur != Nobody
  {
    if s.cur.Idle? then s.idle else s.tasks[s.cur.index]
  }

  function SetCurrentTask(s: Sched, t: Task): Sched
    requires Shape(s) && s.cur != Nobody
  {
    if s.cur.Idle? then s.(idle := t) else s.(tasks := s.tasks[s.cur.index := t])
  }

  /** Where the search starts: the current slot, or 0 when idle is current. */
  function StartIndex(s: Sched): nat {
    if s.cur.Slot? then s.cur.index else 0
  }

  /** The first READY slot at cyclic offset `i` or more from `start`; 16 when there is none. */
  function FirstReady(tasks: seq<Task>, start: nat, i: nat): (r: nat)
    requires |tasks| == MAX_TASKS && i <= MAX_TASKS + 1
    ensures r <= MAX_TASKS
    ensures r < MAX_TASKS ==> tasks[r].state == Ready
    decreases MAX_TASKS + 1 - i
  {
    if i > MAX_TASKS then MAX_TASKS
    else if tasks[(start + i) % MAX_TASKS].state == Ready then (start + i) % MAX_TASKS
    else FirstReady(tasks, start, i + 1)
  }

  /** `curTask->esp = regs`, and RUNNING demoted to READY. */
  function Demoted(s: Sched, regs: nat): (r: Sched)
    requires Shape(s) && s.cur != Nobody
    ensures Shape(r)
  {
    var t := CurrentTask(s).(esp := regs);
    SetCurrentTask(s, if t.state == Running then WithState(t, Ready) else t)
  }

  /** The outcome of the round-robin search: the next READY slot, else the current task if READY, else idle. */
  function Selected(d: Sched): (who: Current)
    requires Shape(d) && d.cur != Nobody
    ensures who != Nobody && (who.Slot? ==> who.index < MAX_TASKS)
  {
    var next := FirstReady(d.tasks, StartIndex(d), 1);
    if next < MAX_TASKS then Slot(next)
    else if CurrentTask(d).state == Ready then d.cur
    else Idle
  }

  function DispatchTo(s: Sched, who: Current): (r: Sched)
    requires Shape(s) && who != Nobody && (who.Slot? ==> who.index < MAX_TASKS)
    ensures Shape(r)
  {
    var s' := s.(cur := who, ticks := 0);
    SetCurrentTask(s', WithState(CurrentTask(s'), Running))
  }

  /** `scheduler_schedule`; `Resumed` is the frame pointer it returns. */
  function Schedule(s: Sched, regs: nat): (r: Sched)
    requires Shape(s)
    ensures Shape(r) && (s.cur != Nobody ==> r.cur != Nobody)
  {
    if s.cur == Nobody || regs == 0 then s else
    var d := Demoted(s, regs);
    DispatchTo(d, Selected(d))
  }

  function Tick(s: Sched, regs: nat): (r: Sched)
    requires Shape(s)
    ensures Shape(r)
  {
    if s.ticks + 1 < TIME_SLICE then s.(ticks := s.ticks + 1)
    else Schedule(s.(ticks := 0), regs)
  }

  function Exit(s: Sched, regs: nat): (r: Sched)
    requires Shape(s)
    ensures Shape(r)
  {
    if s.cur == Nobody || regs == 0 then s
    else Schedule(SetCurrentTask(s, WithState(CurrentTask(s), Terminated)), regs)
  }

  /** The frame pointer that `scheduler_schedule` returns. */
  function Resumed(s: Sched, regs: nat): nat
    requires Shape(s)
  {
    if s.cur == Nobody || regs == 0 then regs else CurrentTask(Schedule(s, regs)).esp
  }

  function BlockSet(s: Sched): (r: Sched)
    requires Shape(s) && s.cur != Nobody
    ensures Shape(r)
  {
    SetCurrentTask(s, WithState(CurrentTask(s), Blocked))
  }

  function FirstTerminated(tasks: seq<Task>, i: nat): (r: nat)
    requires i <= |tasks|
    ensures i <= r <= |tasks|
    ensures r < |tasks| ==> tasks[r].state == Terminated
    ensures forall k :: i <= k < r ==> tasks[k].state != Terminated
    decreases |tasks| - i
  {
    if i == |tasks| || tasks[i].state == Terminated then i else FirstTerminated(tasks, i + 1)
  }

  /** `task_create` with a non-null entry: the new state, the slot used (16 for none) and the result. */
  function Create(s: Sched, esp: nat): (Sched, nat, int)
    requires Shape(s)
  {
    var i := FirstTerminated(s.tasks, 1);
    if i == MAX_TASKS then (s, MAX_TASKS, -1) else
    var isNew := s.tasks[i].id == 0;
    var id := if isNew then s.nextId else s.tasks[i].id;
    var s' := s.(tasks := s.tasks[i := s.tasks[i].(id := id)], nextId := if isNew then s.nextId + 1 else s.nextId);
    if id < 1 || id - 1 >= MAX_TASKS - 1 then (s', MAX_TASKS, -1)
    else (s'.(tasks := s.tasks[i := Task(id, Ready, esp)]), i, id)
  }

  function FirstBlocked(tasks: seq<Task>, id: nat, i: nat): (r: nat)
    requires i <= |tasks|
    ensures i <= r <= |tasks|
    ensures r < |tasks| ==> tasks[r].id == id && tasks[r].state == Blocked
    ensures forall k :: i <= k < r ==> !(tasks[k].id == id && tasks[k].state == Blocked)
    decreases |tasks| - i
  {
    if i == |tasks| || (tasks[i].id == id && tasks[i].state == Blocked) then i
    else FirstBlocked(tasks, id, i + 1)
  }

  function Unblock(s: Sched, id: nat): (Sched, int)
    requires Shape(s)
  {
    var i := FirstBlocked(s.tasks, id, 1);
    if i == MAX_TASKS then (s, -1)
    else (s.(tasks := s.tasks[i := WithState(s.tasks[i], Ready)]), 0)
  }

  // ----- Runs -----

  datatype Step =
    | TickStep(regs: nat)
    | YieldStep(regs: nat)
    | ExitStep(regs: nat)
    | BlockStep
    | UnblockStep(id: nat)
    | CreateStep(esp: nat)

  /** Frame pointers are not null, and the idle loop only ever halts. */
  ghost predicate Enabled(s: Sched, step: Step) {
    match step
    case TickStep(regs) => regs != 0
    case YieldStep(regs) => regs != 0 && s.cur != Idle
    case ExitStep(regs) => regs != 0 && s.cur != Idle
    case BlockStep => s.cur.Slot?
    case UnblockStep(_) => true
    case CreateStep(_) => true
  }

  function Next(s: Sched, step: Step): (r: Sched)
    requires Shape(s) && (step.BlockStep? ==> s.cur != Nobody)
    ensures Shape(r)
  {
    match step
    case TickStep(regs) => Tick(s, regs)
    case YieldStep(regs) => Schedule(s, regs)
    case ExitStep(regs) => Exit(s, regs)
    case BlockStep => BlockSet(s)
    case UnblockStep(id) => Unblock(s, id).0
    case CreateStep(esp) => Create(s, esp).0
  }

  // ----- The invariant -----

  /** At most one task is RUNNING, and only `curTask` can be. */
  ghost predicate OnlyCurrentRuns(s: Sched)
    requires Shape(s)
  {
    && (forall i :: 0 <= i < MAX_TASKS && s.tasks[i].state == Running ==> s.cur == Slot(i))
    && (s.idle.state == Running <==> s.cur == Idle)
    && (s.idle.state == Running || s.idle.state == Ready)
  }

  /** Slots used so far are 1 .. nextId - 1, and a used slot's id is its index. */
  ghost predicate IdsAreSlots(s: Sched)
    requires Shape(s)
  {
    && 1 <= s.nextId <= MAX_TASKS
    && s.tasks[0].id == 0
    && (forall i :: 1 <= i < s.nextId ==> s.tasks[i].id == i)
    && (forall i :: s.nextId <= i < MAX_TASKS ==> s.tasks[i].id == 0 && s.tasks[i].state == Terminated)
  }

  ghost predicate Inv(s: Sched) {
    && Shape(s) && s.cur != Nobody && s.ticks < TIME_SLICE
    && OnlyCurrentRuns(s) && IdsAreSlots(s)
    && CurrentTask(s).state != Terminated
    && (s.cur == Idle ==> s.tasks[0].state != Ready)
  }

  ghost predicate EnabledRun(s: Sched, steps: seq<Step>)
    requires Shape(s)
    decreases steps
  {
    steps == [] || (Enabled(s, steps[0]) && EnabledRun(Next(s, steps[0]), steps[1..]))
  }

  ghost function Run(s: Sched, steps: seq<Step>): (r: Sched)
    requires Shape(s) && EnabledRun(s, steps)
    ensures Shape(r)
    decreases steps
  {
    if steps == [] then s else Run(Next(s, steps[0]), steps[1..])
  }

  // ----- What a schedule call selects -----

  /** The cyclic distance from slot `a` forward to slot `b`, from 1 to 16. */
  function Distance(a: nat, b: nat): (d: nat)
    requires a < MAX_TASKS && b < MAX_TASKS
    ensures 1 <= d <= MAX_TASKS && (a + d) % MAX_TASKS == b
  {
    if a < b then b - a else b + MAX_TASKS - a
  }

  lemma {:induction false} FirstReadyIsNearest(tasks: seq<Task>, start: nat, i: nat, k: nat)
    requires |tasks| == MAX_TASKS && start < MAX_TASKS && 1 <= i <= MAX_TASKS + 1
    requires k < MAX_TASKS && i <= Distance(start, k) && tasks[k].state == Ready
    ensures var r := FirstReady(tasks, start, i);
      r < MAX_TASKS && i <= Distance(start, r) <= Distance(start, k)
    decreases MAX_TASKS + 1 - i
  {
    var here := (start + i) % MAX_TASKS;
    assert Distance(start, here) == i;
    if tasks[here].state != Ready {
      FirstReadyIsNearest(tasks, start, i + 1, k);
    }
  }

  /** Nothing but the current task and `ticks` differs between the two states. */
  ghost predicate OthersKept(s: Sched, r: Sched, who: Current)
    requires Shape(s) && Shape(r)
  {
    && s.nextId == r.nextId
    && (forall i :: 0 <= i < MAX_TASKS && Slot(i) != s.cur && Slot(i) != who ==> r.tasks[i] == s.tasks[i])
    && (forall i :: 0 <= i < MAX_TASKS ==> r.tasks[i].id == s.tasks[i].id)
    && (forall i :: 0 <= i < MAX_TASKS && Slot(i) != s.cur ==> r.tasks[i].esp == s.tasks[i].esp)
    && (s.cur != Idle ==> r.idle.esp == s.idle.esp)
  }

  /** A task that may be dispatched by this call: READY already, or running and about to be demoted. */
  ghost predicate Candidate(s: Sched, i: nat)
    requires Shape(s) && i < MAX_TASKS
  {
    s.tasks[i].state == Ready || (s.cur == Slot(i) && s.tasks[i].state == Running)
  }

  lemma SelectedIsNearest(d: Sched)
    requires Shape(d) && d.cur != Nobody
    ensures var who := Selected(d);
      && (who == Idle <==> forall i :: 0 <= i < MAX_TASKS ==> d.tasks[i].state != Ready)
      && (who.Slot? ==>
          && d.tasks[who.index].state == Ready
          && forall i :: 0 <= i < MAX_TASKS && d.tasks[i].state == Ready ==>
               Distance(StartIndex(d), who.index) <= Distance(StartIndex(d), i))
  {
    var next := FirstReady(d.tasks, StartIndex(d), 1);
    forall i | 0 <= i < MAX_TASKS && d.tasks[i].state == Ready
      ensures next < MAX_TASKS && Distance(StartIndex(d), next) <= Distance(StartIndex(d), i)
    {
      FirstReadyIsNearest(d.tasks, StartIndex(d), 1, i);
    }
  }

  lemma DemotedCandidates(s: Sched, regs: nat)
    requires Shape(s) && s.cur != Nobody && OnlyCurrentRuns(s)
    ensures var d := Demoted(s, regs);
      && d.cur == s.cur && StartIndex(d) == StartIndex(s) && d.idle.state == Ready
      && (forall i :: 0 <= i < MAX_TASKS ==> (d.tasks[i].state == Ready <==> Candidate(s, i)))
      && (forall i :: 0 <= i < MAX_TASKS ==> d.tasks[i].state != Running)
  {
  }

  /** Switching from the current task to `who`, a READY one. */
  lemma SwitchEffect(s: Sched, regs: nat, who: Current)
    requires Shape(s) && s.cur != Nobody && OnlyCurrentRuns(s)
    requires who == Idle || (who.Slot? && who.index < MAX_TASKS)
    ensures var r := DispatchTo(Demoted(s, regs), who);
      && r.cur == who && OnlyCurrentRuns(r) && CurrentTask(r).state == Running && r.ticks == 0
      && OthersKept(s, r, who)
      && (s.cur.Slot? ==> r.tasks[s.cur.index].esp == regs)
      && (s.cur.Slot? && who != s.cur ==>
          var was := s.tasks[s.cur.index].state;
          r.tasks[s.cur.index].state == if was == Running then Ready else was)
      && (s.cur == Idle ==> r.idle.esp == regs)
  {
    DemotedCandidates(s, regs);
  }

  /**
   `scheduler_schedule` dispatches the candidate nearest after the current slot, and idle exactly
   when there is no candidate; it leaves exactly that task RUNNING, saves the frame of the task it
   came from, and touches no other task.
   */
  lemma ScheduleEffect(s: Sched, regs: nat)
    requires Shape(s) && s.cur != Nobody && regs != 0 && OnlyCurrentRuns(s)
    ensures var r := Schedule(s, regs);
      && OnlyCurrentRuns(r) && r.cur != Nobody && CurrentTask(r).state == Running && r.ticks == 0
      && (r.cur == Idle <==> forall i :: 0 <= i < MAX_TASKS ==> !Candidate(s, i))
      && (r.cur.Slot? ==>
          && Candidate(s, r.cur.index)
          && forall i :: 0 <= i < MAX_TASKS && Candidate(s, i) ==>
               Distance(StartIndex(s), r.cur.index) <= Distance(StartIndex(s), i))
      && OthersKept(s, r, r.cur)
      && (s.cur.Slot? ==> r.tasks[s.cur.index].esp == regs)
      && (s.cur.Slot? && r.cur != s.cur ==>
          var was := s.tasks[s.cur.index].state;
          r.tasks[s.cur.index].state == if was == Running then Ready else was)
      && (s.cur == Idle ==> r.idle.esp == regs)
  {
    var d := Demoted(s, regs);
    DemotedCandidates(s, regs);
    SelectedIsNearest(d);
    SwitchEffect(s, regs, Selected(d));
  }

  // ----- What each handler leaves, in full -----

  /** The state of slot `i` once the current task has been left in state `left`. */
  function LeftState(s: Sched, left: TaskState, i: nat): TaskState
    requires Shape(s) && i < MAX_TASKS
  {
    if s.cur == Slot(i) then left else s.tasks[i].state
  }

  /**
   The processor has gone from the current task, left in state `left` with its frame at `regs`, to the
   READY slot nearest after it, or to idle if there is none; the new task is RUNNING with a full slice,
   and everything else is as it was.
   */
  ghost predicate HandedOver(s: Sched, r: Sched, regs: nat, left: TaskState)
    requires Shape(s)
  {
    var from := if s.cur.Slot? then s.cur.index else 0;
    && Shape(r) && r.cur != Nobody && r.ticks == 0 && r.nextId == s.nextId
    && (r.cur == Idle <==> forall i :: 0 <= i < 16 ==> LeftState(s, left, i) != Ready)
    && (r.cur.Slot? ==>
        && LeftState(s, left, r.cur.index) == Ready
        && forall i :: 0 <= i < 16 && LeftState(s, left, i) == Ready ==>
             Distance(from, r.cur.index) <= Distance(from, i))
    && (forall i :: 0 <= i < 16 ==>
          r.tasks[i] == Task(s.tasks[i].id, if r.cur == Slot(i) then Running else LeftState(s, left, i),
                             if s.cur == Slot(i) then regs else s.tasks[i].esp))
    && r.idle == Task(s.idle.id, if r.cur == Idle then Running else Ready, if s.cur == Idle then regs else s.idle.esp)
  }

  /** There is only one such state. */
  lemma HandedOverOnce(s: Sched, r: Sched, r': Sched, regs: nat, left: TaskState)
    requires Shape(s) && HandedOver(s, r, regs, left) && HandedOver(s, r', regs, left)
    ensures r == r'
  {
    assert r.cur == r'.cur;
    assert r.tasks == r'.tasks;
  }

  /** How a schedule call leaves the current task: a RUNNING one goes back to READY. */
  function Demotion(state: TaskState): TaskState {
    if state == Running then Ready else state
  }

  lemma ScheduleHandsOver(s: Sched, regs: nat)
    requires Shape(s) && s.cur != Nobody && regs != 0 && OnlyCurrentRuns(s)
    ensures HandedOver(s, Schedule(s, regs), regs, Demotion(CurrentTask(s).state))
  {
    hide Schedule;
    var r, left := Schedule(s, regs), Demotion(CurrentTask(s).state);
    ScheduleEffect(s, regs);
    IdleKeepsId(s, regs);
    forall i | 0 <= i < 16 ensures LeftState(s, left, i) == Ready <==> Candidate(s, i) {
    }
  }

  lemma IdleKeepsId(s: Sched, regs: nat)
    requires Shape(s)
    ensures Schedule(s, regs).idle.id == s.idle.id
  {
  }

  /** `int 49` hands the processor over. */
  lemma YieldHandsOver(s: Sched, regs: nat)
    requires Inv(s) && regs != 0
    ensures HandedOver(s, Next(s, YieldStep(regs)), regs, Demotion(CurrentTask(s).state))
  {
    ScheduleHandsOver(s, regs);
  }

  /** `int 50` does so with the current task TERMINATED. */
  lemma ExitHandsOver(s: Sched, regs: nat)
    requires Inv(s) && regs != 0 && s.cur != Idle
    ensures HandedOver(s, Next(s, ExitStep(regs)), regs, Terminated)
  {
    hide Schedule, HandedOver;
    var t := SetCurrentTask(s, WithState(CurrentTask(s), Terminated));
    ScheduleHandsOver(t, regs);
    SameButState(s, t, Next(s, ExitStep(regs)), regs, Terminated);
  }

  /** What state the current task was in does not matter, only how it is left. */
  lemma SameButState(s: Sched, t: Sched, r: Sched, regs: nat, left: TaskState)
    requires Shape(s) && s.cur.Slot? && t == SetCurrentTask(s, WithState(CurrentTask(s), left))
    requires HandedOver(t, r, regs, left)
    ensures HandedOver(s, r, regs, left)
  {
    assert forall i :: 0 <= i < 16 ==> LeftState(t, left, i) == LeftState(s, left, i);
  }

  /** The tenth tick of a slice hands the processor over; any other is only counted. */
  lemma TickEffect(s: Sched, regs: nat)
    requires Inv(s) && regs != 0
    ensures s.ticks == 9 ==> HandedOver(s, Next(s, TickStep(regs)), regs, Demotion(CurrentTask(s).state))
    ensures s.ticks != 9 ==> Next(s, TickStep(regs)) == s.(ticks := s.ticks + 1)
  {
    hide Schedule, HandedOver;
    if s.ticks == 9 {
      var t := s.(ticks := 0);
      ScheduleHandsOver(t, regs);
      assert HandedOver(s, Schedule(t, regs), regs, Demotion(CurrentTask(s).state)) by {
        SameButTicks(s, t, Schedule(t, regs), regs, Demotion(CurrentTask(s).state));
      }
    }
  }

  lemma SameButTicks(s: Sched, t: Sched, r: Sched, regs: nat, left: TaskState)
    requires Shape(s) && t == s.(ticks := 0) && HandedOver(t, r, regs, left)
    ensures HandedOver(s, r, regs, left)
  {
    assert forall i :: 0 <= i < 16 ==> LeftState(t, left, i) == LeftState(s, left, i);
  }

  /** The store of `task_block`: the current slot becomes BLOCKED and nothing else changes. */
  lemma BlockEffect(s: Sched)
    requires Inv(s) && s.cur.Slot?
    ensures var r := Next(s, BlockStep);
      && Inv(r) && r.cur == s.cur && r.idle == s.idle && r.nextId == s.nextId && r.ticks == s.ticks
      && forall i :: 0 <= i < 16 ==>
           r.tasks[i] == if s.cur == Slot(i) then Task(s.tasks[i].id, Blocked, s.tasks[i].esp) else s.tasks[i]
  {
  }

  // ----- The invariant holds in every run -----

  lemma InitialInv(idleEsp: nat)
    ensures var s := Initial(idleEsp);
      && Inv(s) && s.cur == Slot(0) && s.nextId == 1 && s.ticks == 0
      && s.idle == Task(0xFFFF_FFFF, Ready, idleEsp)
      && forall i :: 0 <= i < 16 ==> s.tasks[i] == Task(0, if i == 0 then Running else Terminated, 0)
  {
  }

  lemma ScheduleKeepsInv(s: Sched, regs: nat)
    requires Shape(s) && s.cur != Nobody && regs != 0 && OnlyCurrentRuns(s) && IdsAreSlots(s)
    requires s.cur == Idle ==> s.tasks[0].state != Ready
    requires s.cur == Idle ==> s.idle.state == Running
    ensures Inv(Schedule(s, regs))
  {
    ScheduleEffect(s, regs);
    var r := Schedule(s, regs);
    if r.cur == Idle {
      assert !Candidate(s, 0);
    }
  }

  lemma ExitKeepsInv(s: Sched, regs: nat)
    requires Inv(s) && regs != 0 && s.cur != Idle
    ensures Inv(Exit(s, regs))
    ensures Exit(s, regs).tasks[s.cur.index].state == Terminated && Exit(s, regs).cur != s.cur
    ensures CurrentTask(Exit(s, regs)).state == Running && Exit(s, regs).ticks == 0
  {
    var t := SetCurrentTask(s, WithState(CurrentTask(s), Terminated));
    ScheduleKeepsInv(t, regs);
    ScheduleEffect(t, regs);
  }

  /**
   In every state of a run, `task_create` fails exactly when all fifteen slots are in use; the
   check on the id never fires, a new id is the slot's own index, and the stack chosen by id is
   therefore that of the slot.
   */
  lemma CreateEffect(s: Sched, esp: nat)
    requires Inv(s)
    ensures var (r, slot, id) := Create(s, esp);
      && Inv(r)
      && (id == -1 <==> forall i :: 1 <= i < MAX_TASKS ==> s.tasks[i].state != Terminated)
      && (id == -1 ==> r == s)
      && (id != -1 ==>
          && 1 <= slot < MAX_TASKS && id == slot && s.tasks[slot].state == Terminated && s.cur != Slot(slot)
          && (forall i :: 1 <= i < slot ==> s.tasks[i].state != Terminated)
          && r.tasks == s.tasks[slot := Task(slot, Ready, esp)]
          && r.cur == s.cur && r.idle == s.idle && r.ticks == s.ticks)
  {
    var i := FirstTerminated(s.tasks, 1);
    if i < MAX_TASKS && s.tasks[i].id == 0 {
      assert s.nextId <= i && s.tasks[s.nextId].state == Terminated;
    }
  }

  lemma UnblockEffect(s: Sched, id: nat)
    requires Inv(s)
    ensures var (r, result) := Unblock(s, id);
      && Inv(r)
      && (result == 0 <==> 1 <= id < MAX_TASKS && s.tasks[id].state == Blocked)
      && r == if result == 0 then s.(tasks := s.tasks[id := WithState(s.tasks[id], Ready)]) else s
  {
  }

  lemma NextKeepsInv(s: Sched, step: Step)
    requires Inv(s) && Enabled(s, step)
    ensures Inv(Next(s, step))
  {
    match step
    case TickStep(regs) =>
      if s.ticks + 1 >= TIME_SLICE { ScheduleKeepsInv(s.(ticks := 0), regs); }
    case YieldStep(regs) => ScheduleKeepsInv(s, regs);
    case ExitStep(regs) => ExitKeepsInv(s, regs);
    case BlockStep =>
    case UnblockStep(id) => UnblockEffect(s, id);
    case CreateStep(esp) => CreateEffect(s, esp);
  }

  lemma {:induction false} RunKeepsInv(s: Sched, steps: seq<Step>)
    requires Inv(s) && EnabledRun(s, steps)
    ensures Inv(Run(s, steps))
    decreases steps
  {
    if steps != [] {
      NextKeepsInv(s, steps[0]);
      RunKeepsInv(Next(s, steps[0]), steps[1..]);
    }
  }

  // ----- Bounded waiting -----

  /** READY in its slot, and somebody else has the processor. */
  ghost predicate Waiting(s: Sched, k: nat)
    requires Shape(s) && k < MAX_TASKS
  {
    s.tasks[k].state == Ready && s.cur != Slot(k)
  }

  /** How many schedule calls away slot `k` can still be. */
  function Turns(s: Sched, k: nat): nat
    requires Shape(s) && k < MAX_TASKS
  {
    Distance(StartIndex(s), k)
  }

  /** How many timer ticks away slot `k` can still be. */
  function Wait(s: Sched, k: nat): int
    requires Shape(s) && k < MAX_TASKS
  {
    TIME_SLICE * Turns(s, k) - s.ticks
  }

  predicate Calls(s: Sched, step: Step) {
    match step
    case TickStep(_) => s.ticks + 1 >= TIME_SLICE
    case YieldStep(_) => true
    case ExitStep(_) => true
    case _ => false
  }

  /** One schedule call dispatches a waiting task or brings it nearer. */
  lemma ScheduleProgress(s: Sched, regs: nat, k: nat)
    requires Shape(s) && s.cur != Nobody && regs != 0 && OnlyCurrentRuns(s)
    requires k < MAX_TASKS && Waiting(s, k)
    ensures var r := Schedule(s, regs);
      r.cur == Slot(k) || (Waiting(r, k) && Turns(r, k) < Turns(s, k))
  {
    ScheduleEffect(s, regs);
    assert Candidate(s, k);
  }

  lemma StepProgress(s: Sched, step: Step, k: nat)
    requires Inv(s) && Enabled(s, step) && k < MAX_TASKS && Waiting(s, k)
    ensures var r := Next(s, step);
      || r.cur == Slot(k)
      || (&& Waiting(r, k)
          && (Calls(s, step) ==> Turns(r, k) < Turns(s, k))
          && (!Calls(s, step) ==> Turns(r, k) == Turns(s, k))
          && (step.TickStep? || Calls(s, step) ==> Wait(r, k) < Wait(s, k))
          && (!step.TickStep? && !Calls(s, step) ==> Wait(r, k) == Wait(s, k)))
  {
    NextKeepsInv(s, step);
    match step
    case TickStep(regs) =>
      if Calls(s, step) { ScheduleProgress(s.(ticks := 0), regs, k); }
    case YieldStep(regs) => ScheduleProgress(s, regs, k);
    case ExitStep(regs) =>
      ScheduleProgress(SetCurrentTask(s, WithState(CurrentTask(s), Terminated)), regs, k);
    case BlockStep =>
    case UnblockStep(id) => UnblockEffect(s, id);
    case CreateStep(esp) => CreateEffect(s, esp);
  }

  /** Slot `k` never gets the processor in this run. */
  ghost predicate Undispatched(s: Sched, steps: seq<Step>, k: nat)
    requires Shape(s) && EnabledRun(s, steps)
    decreases steps
  {
    s.cur != Slot(k) && (steps != [] ==> Undispatched(Next(s, steps[0]), steps[1..], k))
  }

  ghost function CallCount(s: Sched, steps: seq<Step>): nat
    requires Shape(s) && EnabledRun(s, steps)
    decreases steps
  {
    if steps == [] then 0 else
    (if Calls(s, steps[0]) then 1 else 0) + CallCount(Next(s, steps[0]), steps[1..])
  }

  ghost function TickCount(steps: seq<Step>): nat {
    if steps == [] then 0 else (if steps[0].TickStep? then 1 else 0) + TickCount(steps[1..])
  }

  lemma {:induction false} WaitingRun(s: Sched, steps: seq<Step>, k: nat)
    requires Inv(s) && EnabledRun(s, steps) && k < MAX_TASKS && Waiting(s, k)
    requires Undispatched(s, steps, k)
    ensures var r := Run(s, steps);
      && Inv(r) && Waiting(r, k)
      && CallCount(s, steps) + Turns(r, k) <= Turns(s, k)
      && TickCount(steps) + Wait(r, k) <= Wait(s, k)
    decreases steps
  {
    if steps != [] {
      NextKeepsInv(s, steps[0]);
      StepProgress(s, steps[0], k);
      WaitingRun(Next(s, steps[0]), steps[1..], k);
    }
  }

  /**
   Bounded waiting: in every run, whatever the other tasks do, a READY task that does not have the
   processor stays READY until it is dispatched, and it is dispatched by the 15th schedule call
   and by the 150th timer tick: no longer run leaves it undispatched.
   */
  lemma BoundedWaiting(s: Sched, steps: seq<Step>, k: nat)
    requires Inv(s) && EnabledRun(s, steps) && k < MAX_TASKS && Waiting(s, k)
    requires Undispatched(s, steps, k)
    ensures Waiting(Run(s, steps), k)
    ensures CallCount(s, steps) < 15
    ensures TickCount(steps) < 150
  {
    WaitingRun(s, steps, k);
  }

  /** Every slot is READY but `c`, which runs. */
  ghost predicate AllBusy(s: Sched, c: nat) {
    && Inv(s) && c < MAX_TASKS && s.cur == Slot(c) && s.tasks[c].state == Running
    && forall i :: 0 <= i < MAX_TASKS && i != c ==> s.tasks[i].state == Ready
  }

  lemma BusyHandsOver(s: Sched, c: nat)
    requires AllBusy(s, c) && c < MAX_TASKS - 1
    ensures AllBusy(Schedule(s, 1), c + 1) && Schedule(s, 1).ticks == 0
  {
    var r := Schedule(s, 1);
    ScheduleKeepsInv(s, 1);
    ScheduleEffect(s, 1);
    assert Candidate(s, c + 1) && Distance(c, c + 1) == 1;
  }

  function Repeat(step: Step, n: nat): seq<Step> {
    if n == 0 then [] else [step] + Repeat(step, n - 1)
  }

  lemma RunNil(s: Sched, k: nat)
    requires Inv(s) && s.cur != Slot(k)
    ensures EnabledRun(s, []) && Undispatched(s, [], k) && CallCount(s, []) == 0
  {
  }

  lemma RunCons(s: Sched, step: Step, rest: seq<Step>, k: nat)
    requires Inv(s) && Enabled(s, step) && s.cur != Slot(k)
    requires EnabledRun(Next(s, step), rest) && Undispatched(Next(s, step), rest, k)
    ensures var run := [step] + rest;
      && EnabledRun(s, run) && Undispatched(s, run, k)
      && CallCount(s, run) == (if Calls(s, step) then 1 else 0) + CallCount(Next(s, step), rest)
  {
    hide Next;
    var run := [step] + rest;
    assert run[0] == step && run[1..] == rest;
  }

  /** With all slots busy, `Turns - 1` schedule calls do not yet reach slot 15: from slot 0 that is 14. */
  lemma {:induction false} CallBoundIsTight(s: Sched, c: nat)
    requires AllBusy(s, c) && c < MAX_TASKS - 1
    ensures var run := Repeat(YieldStep(1), Turns(s, 15) - 1);
      EnabledRun(s, run) && Undispatched(s, run, 15) && CallCount(s, run) == Turns(s, 15) - 1
    decreases MAX_TASKS - c
  {
    hide Schedule, EnabledRun, Undispatched, CallCount;
    var r := Next(s, YieldStep(1));
    if c < 14 {
      BusyHandsOver(s, c);
      CallBoundIsTight(r, c + 1);
      RunCons(s, YieldStep(1), Repeat(YieldStep(1), Turns(r, 15) - 1), 15);
    } else {
      RunNil(s, 15);
    }
  }

  /** Likewise `Wait - 1` timer ticks: from slot 0 at the start of its slice that is 149. */
  lemma {:induction false} TickBoundIsTight(s: Sched, c: nat)
    requires AllBusy(s, c) && c < MAX_TASKS - 1
    ensures Wait(s, 15) >= 1
    ensures var run := Repeat(TickStep(1), Wait(s, 15) - 1);
      EnabledRun(s, run) && Undispatched(s, run, 15)
    decreases Wait(s, 15)
  {
    hide Schedule;
    var n := Wait(s, 15) - 1;
    if n > 0 {
      var r := Next(s, TickStep(1));
      if s.ticks + 1 >= TIME_SLICE {
        BusyHandsOver(s.(ticks := 0), c);
      }
      TickBoundIsTight(r, if s.ticks + 1 >= TIME_SLICE then c + 1 else c);
      RunCons(s, TickStep(1), Repeat(TickStep(1), n - 1), 15);
    }
  }

  /** `c` tasks have been created since the start, and nothing else has happened. */
  ghost predicate Started(s: Sched, c: nat) {
    && Inv(s) && c < MAX_TASKS && s.cur == Slot(0) && s.tasks[0].state == Running && s.ticks == 0
    && (forall i :: 1 <= i <= c ==> s.tasks[i].state == Ready)
    && (forall i :: c < i < MAX_TASKS ==> s.tasks[i].state == Terminated)
  }

  lemma {:induction false} FillUp(s: Sched, c: nat)
    requires Started(s, c)
    ensures var run := Repeat(CreateStep(1), MAX_TASKS - 1 - c);
      EnabledRun(s, run) && AllBusy(Run(s, run), 0) && Run(s, run).ticks == 0
    decreases MAX_TASKS - c
  {
    var run := Repeat(CreateStep(1), MAX_TASKS - 1 - c);
    if c < MAX_TASKS - 1 {
      hide Create;
      CreateEffect(s, 1);
      var r := Next(s, CreateStep(1));
      assert s.tasks[c + 1].state == Terminated && Create(s, 1).1 == c + 1 by { NextFree(s, c); }
      FillUp(r, c + 1);
      assert run[0] == CreateStep(1) && run[1..] == Repeat(CreateStep(1), MAX_TASKS - 2 - c);
    }
  }

  lemma NextFree(s: Sched, c: nat)
    requires Started(s, c) && c < MAX_TASKS - 1
    ensures Create(s, 1).1 == c + 1
  {
    assert s.tasks[c + 1].state == Terminated;
    var i := FirstTerminated(s.tasks, 1);
    assert i == c + 1;
    CreateEffect(s, 1);
  }

  /** Fifteen creations from the start make every slot busy, so both bounds are met by real runs. */
  lemma AllBusyIsReached(idleEsp: nat)
    ensures var run := Repeat(CreateStep(1), MAX_TASKS - 1);
      && EnabledRun(Initial(idleEsp), run)
      && var s := Run(Initial(idleEsp), run);
      && AllBusy(s, 0) && Turns(s, 15) == 15 && Wait(s, 15) == 150
  {
    InitialInv(idleEsp);
    FillUp(Initial(idleEsp), 0);
  }

  // ----- Blocking -----

  /** The kernel task cannot be woken: once it is BLOCKED and off the processor, it stays so for ever. */
  lemma {:induction false} KernelTaskNeverWakes(s: Sched, steps: seq<Step>)
    requires Inv(s) && EnabledRun(s, steps) && s.tasks[0].state == Blocked && s.cur != Slot(0)
    ensures Run(s, steps).tasks[0].state == Blocked && Undispatched(s, steps, 0)
    decreases steps
  {
    if steps != [] {
      var step, r := steps[0], Next(s, steps[0]);
      NextKeepsInv(s, step);
      SleeperUndisturbed(s, step, 0);
      KernelTaskNeverWakes(r, steps[1..]);
    }
  }

  /** A BLOCKED task off the processor is changed by no step but `task_unblock` of its own id. */
  lemma SleeperUndisturbed(s: Sched, step: Step, k: nat)
    requires Inv(s) && Enabled(s, step) && k < MAX_TASKS && s.tasks[k].state == Blocked && s.cur != Slot(k)
    ensures var r := Next(s, step);
      && r.cur != Slot(k)
      && r.tasks[k] == if step == UnblockStep(k) && k != 0 then WithState(s.tasks[k], Ready) else s.tasks[k]
  {
    match step
    case TickStep(regs) =>
      if Calls(s, step) { ScheduleEffect(s.(ticks := 0), regs); }
    case YieldStep(regs) => ScheduleEffect(s, regs);
    case ExitStep(regs) =>
      ScheduleEffect(SetCurrentTask(s, WithState(CurrentTask(s), Terminated)), regs);
    case BlockStep =>
    case UnblockStep(id) => UnblockEffect(s, id);
    case CreateStep(esp) => CreateEffect(s, esp);
  }

  /** The kernel task can get there: it blocks and traps, and idle runs, with slot 0 BLOCKED for ever. */
  lemma KernelTaskCanBlock(idleEsp: nat)
    ensures var s, run := Initial(idleEsp), [BlockStep, YieldStep(1)];
      && EnabledRun(s, run) && Inv(Run(s, run))
      && Run(s, run).tasks[0].state == Blocked && Run(s, run).cur == Idle
  {
    var s := Initial(idleEsp);
    InitialInv(idleEsp);
    var b := Next(s, BlockStep);
    NextKeepsInv(s, BlockStep);
    var y := Next(b, YieldStep(1));
    NextKeepsInv(b, YieldStep(1));
    ScheduleEffect(b, 1);
    assert forall i :: 0 <= i < MAX_TASKS ==> !Candidate(b, i);
    var run := [BlockStep, YieldStep(1)];
    assert run[1..] == [YieldStep(1)] && run[1..][1..] == [];
    assert Run(b, [YieldStep(1)]) == y;
  }
}
