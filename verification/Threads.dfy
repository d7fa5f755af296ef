/**
  The kernel's side of a trap: finding threads, blocking and waking them, the console's waiter list,
  the scheduler, and the interrupt and system-call handlers, all proved against `ThreadMachine`.
 */
module Threads {
  import opened MachineWords
  import opened Traps
  import opened RunQueue
  import opened ThreadMachine

  datatype ThreadState = Running | Sleeping | Blocked | Dead

  /** One process and its only thread; the frame index is the position in the list. */
  datatype Thread = Thread(pid: nat, tid: nat, state: ThreadState)

  /** Shared between a blocked request and the device's waiter list; assigned once. */
  class RequestContext {
    var pid: nat
    var tid: nat

    constructor ()
      ensures pid == 0 && tid == 0
    {
      pid, tid := 0, 0;
    }

    method Assign(p: nat, t: nat)
      modifies this
      ensures pid == (if old(pid) == 0 then p else old(pid)) && tid == (if old(pid) == 0 then t else old(tid))
    {
      if pid == 0 {
        pid, tid := p, t;
      }
    }
  }

  datatype Request<T> = Pending(context: RequestContext) | Finalized(value: T)

  datatype SysError = Error | WouldBlock

  datatype CallResult = Value(value: Word) | Failed(error: SysError)

  /** `get_thread`: the first process with the pid, if its thread has the tid; otherwise the length of the list. */
  function FindThread(threads: seq<Thread>, pid: nat, tid: nat): (i: nat)
    ensures i <= |threads| && (i < |threads| ==> threads[i].pid == pid && threads[i].tid == tid)
  {
    var i := FindPid(threads, pid);
    if i < |threads| && threads[i].tid == tid then i else |threads|
  }

  function FindPid(threads: seq<Thread>, pid: nat): (i: nat)
    ensures i <= |threads| && (i < |threads| ==> threads[i].pid == pid)
    ensures forall j | 0 <= j < i :: threads[j].pid != pid
  {
    if threads == [] || threads[0].pid == pid then 0 else 1 + FindPid(threads[1..], pid)
  }

  /** Thread `k` belongs to the first process with the pid. */
  ghost predicate IsFirst(threads: seq<Thread>, pid: nat, k: int) {
    0 <= k < |threads| && threads[k].pid == pid && forall j | 0 <= j < k :: threads[j].pid != pid
  }

  /** A thread is found exactly when the first process with the pid has it; a later one with that pid never is. */
  lemma {:induction false} FindThreadExact(threads: seq<Thread>, pid: nat, tid: nat)
    ensures var i := FindThread(threads, pid, tid);
            && (i < |threads| ==> IsFirst(threads, pid, i) && threads[i].tid == tid)
            && (i == |threads| ==> forall k | IsFirst(threads, pid, k) :: threads[k].tid != tid)
  {
    FindPidIsFirst(threads, pid);
    var i := FindPid(threads, pid);
    assert forall k | IsFirst(threads, pid, k) :: k == i;
  }

  lemma {:induction false} FindPidIsFirst(threads: seq<Thread>, pid: nat)
    ensures FindPid(threads, pid) < |threads| ==> IsFirst(threads, pid, FindPid(threads, pid))
    ensures FindPid(threads, pid) == |threads| ==> forall k | 0 <= k < |threads| :: threads[k].pid != pid
  {
  }

  function SetState(threads: seq<Thread>, pid: nat, tid: nat, state: ThreadState): seq<Thread> {
    var i := FindThread(threads, pid, tid);
    if i < |threads| then threads[i := threads[i].(state := state)] else threads
  }

  function Runnable(threads: seq<Thread>): set<nat> {
    set i | 0 <= i < |threads| && threads[i].state.Running?
  }

  /** Every process has its own pid, counted from 1. */
  ghost predicate PidsOk(threads: seq<Thread>) {
    && (forall i | 0 <= i < |threads| :: threads[i].pid > 0)
    && (forall i, j | 0 <= i < j < |threads| :: threads[i].pid != threads[j].pid)
  }

  lemma {:induction false} FindsItself(threads: seq<Thread>, i: nat)
    requires PidsOk(threads) && i < |threads|
    ensures FindThread(threads, threads[i].pid, threads[i].tid) == i
  {
    var k := FindPid(threads, threads[i].pid);
    assert k <= i;
  }

  /** The states agree with a set of blocked threads. */
  ghost predicate StatesMatch(threads: seq<Thread>, blocked: set<nat>) {
    forall i | 0 <= i < |threads| :: threads[i].state == if i in blocked then Blocked else Running
  }

  lemma {:induction false} RunnableIs(threads: seq<Thread>, blocked: set<nat>)
    requires StatesMatch(threads, blocked)
    ensures Runnable(threads) == ThreadMachine.Running(|threads|, blocked)
  {
    assert forall i | 0 <= i < |threads| :: threads[i].state.Running? <==> i !in blocked;
  }

  /** The waiter list names each blocked thread exactly once: entry `w` is for thread `waiting[w]`. */
  ghost predicate WaitersMatch(threads: seq<Thread>, waiters: seq<(nat, nat)>, waiting: seq<nat>, blocked: set<nat>) {
    && |waiting| == |waiters| && Distinct(waiting)
    && (forall t :: t in waiting <==> t in blocked)
    && forall w | 0 <= w < |waiters| ::
         waiting[w] < |threads| && waiters[w] == (threads[waiting[w]].pid, threads[waiting[w]].tid)
  }

  /** The list after every waiter from `w` on is woken. */
  function WakeAll(threads: seq<Thread>, waiters: seq<(nat, nat)>): seq<Thread>
    decreases |waiters|
  {
    if waiters == [] then threads
    else WakeAll(SetState(threads, waiters[0].0, waiters[0].1, Running), waiters[1..])
  }

  /** Waking the first waiter leaves the others matched. */
  lemma {:induction false} FirstWoken(threads: seq<Thread>, waiters: seq<(nat, nat)>, waiting: seq<nat>,
                                      blocked: set<nat>)
    requires PidsOk(threads) && StatesMatch(threads, blocked)
    requires waiters != [] && WaitersMatch(threads, waiters, waiting, blocked)
    ensures var next := SetState(threads, waiters[0].0, waiters[0].1, Running);
            && |next| == |threads| && PidsOk(next) && StatesMatch(next, blocked - {waiting[0]})
            && WaitersMatch(next, waiters[1..], waiting[1..], blocked - {waiting[0]})
            && forall i | 0 <= i < |next| :: next[i].pid == threads[i].pid && next[i].tid == threads[i].tid
  {
    FindsItself(threads, waiting[0]);
    assert waiting == [waiting[0]] + waiting[1..];
    assert forall i | 0 <= i < |waiting[1..]| :: waiting[1..][i] == waiting[i + 1];
  }

  lemma {:induction false} WakeAllWakes(threads: seq<Thread>, waiters: seq<(nat, nat)>, waiting: seq<nat>,
                                        blocked: set<nat>)
    requires PidsOk(threads) && StatesMatch(threads, blocked)
    requires WaitersMatch(threads, waiters, waiting, blocked)
    ensures var r := WakeAll(threads, waiters);
            && |r| == |threads| && StatesMatch(r, {})
            && forall i | 0 <= i < |r| :: r[i].pid == threads[i].pid && r[i].tid == threads[i].tid
    decreases |waiters|
  {
    if waiters == [] {
      assert forall t :: t in blocked ==> t in waiting;
    } else {
      var next := SetState(threads, waiters[0].0, waiters[0].1, Running);
      var rest := blocked - {waiting[0]};
      FirstWoken(threads, waiters, waiting, blocked);
      hide SetState, WaitersMatch, StatesMatch, PidsOk, FindThread, Distinct;
      WakeAllWakes(next, waiters[1..], waiting[1..], rest);
    }
  }

  // ----- the kernel's state on values, and what it stands for -----

  datatype View = View(frames: seq<Frame>, threads: seq<Thread>, queue: seq<nat>, buffer: string, lines: seq<string>,
                       waiters: seq<(nat, nat)>, pid: nat, tid: nat, kernelSp: Word, kernelTp: Word)

  /** Everything but the registers: the kernel's lists say what the machine says. */
  ghost predicate Simulates(v: View, waiting: seq<nat>, m: Machine) {
    && Sound(m)
    && |v.threads| == |m.ctx| == |v.frames|
    && PidsOk(v.threads) && StatesMatch(v.threads, m.blocked)
    && v.queue == m.queue && v.buffer == m.buffer && v.lines == m.lines
    && v.queue[0] < |v.threads|
    && v.pid == v.threads[v.queue[0]].pid && v.tid == v.threads[v.queue[0]].tid
    && v.frames[v.queue[0]].kernelSp == v.kernelSp && v.frames[v.queue[0]].kernelTp == v.kernelTp
    && WaitersMatch(v.threads, v.waiters, waiting, m.blocked)
  }

  /** Between trap entry and exit: every thread's registers are in its frame. */
  ghost predicate InKernel(v: View, waiting: seq<nat>, m: Machine) {
    Simulates(v, waiting, m) && forall i | 0 <= i < |v.frames| :: FrameContext(v.frames[i]) == m.ctx[i]
  }

  /** In user mode: the running thread's registers are in the hart. */
  ghost predicate InUser(v: View, cpu: Cpu, waiting: seq<nat>, m: Machine) {
    && Simulates(v, waiting, m)
    && CpuContext(cpu) == m.ctx[m.queue[0]]
    && forall i | 0 <= i < |v.frames| && i != m.queue[0] :: FrameContext(v.frames[i]) == m.ctx[i]
  }

  function WithResult(t: Frame, result: Option<Word>): Frame {
    t.(regs := if result.Some? then t.regs[A0 := result.value] else t.regs)
  }

  /** The frame of a thread whose call completed. */
  function FinishedFrame(t: Frame, result: Option<Word>): Frame {
    WithResult(t, result).(sepc := Wrap(t.sepc + 4))
  }

  lemma {:induction false} FinishInKernel(v: View, waiting: seq<nat>, m: Machine, result: Option<Word>)
    requires InKernel(v, waiting, m)
    ensures m.queue[0] < |m.ctx|
    ensures InKernel(v.(frames := v.frames[v.queue[0] := FinishedFrame(v.frames[v.queue[0]], result)]), waiting,
              Finish(m, result))
  {
    SoundCanRun(m);
  }

  /** The view after `schedule` picked and prepared the next thread. */
  ghost function Switched(v: View): View
    requires SomeRunnable(v.queue, Runnable(v.threads))
    requires var q := Scheduled(v.queue, Runnable(v.threads)); q[0] < |v.threads| == |v.frames|
  {
    var q := Scheduled(v.queue, Runnable(v.threads));
    v.(queue := q, pid := v.threads[q[0]].pid, tid := v.threads[q[0]].tid,
       frames := v.frames[q[0] := v.frames[q[0]].(kernelSp := v.kernelSp, kernelTp := v.kernelTp)])
  }

  lemma SwitchedIs(v: View)
    requires SomeRunnable(v.queue, Runnable(v.threads))
    requires var q := Scheduled(v.queue, Runnable(v.threads)); q[0] < |v.threads| == |v.frames|
    ensures var q := Scheduled(v.queue, Runnable(v.threads));
            Switched(v) == View(v.frames[q[0] := v.frames[q[0]].(kernelSp := v.kernelSp, kernelTp := v.kernelTp)],
                                v.threads, q, v.buffer, v.lines, v.waiters,
                                v.threads[q[0]].pid, v.threads[q[0]].tid, v.kernelSp, v.kernelTp)
  {
  }

  lemma {:induction false} SwitchInKernel(v: View, waiting: seq<nat>, m: Machine)
    requires InKernel(v, waiting, m)
    ensures Runnable(v.threads) == ThreadMachine.Running(|m.ctx|, m.blocked)
            && SomeRunnable(v.queue, Runnable(v.threads))
    ensures Scheduled(v.queue, Runnable(v.threads))[0] < |v.threads|
    ensures Switch(m).queue == Scheduled(v.queue, Runnable(v.threads))
    ensures InKernel(Switched(v), waiting, Switch(m))
  {
    SoundCanRun(m);
    RunnableIs(v.threads, m.blocked);
    SwitchSound(m, m.blocked);
    var q := Scheduled(v.queue, Runnable(v.threads));
    assert q[0] in Runnable(v.threads);
  }

  /** A line is taken for the reader. */
  lemma {:induction false} TakeLineInKernel(v: View, waiting: seq<nat>, m: Machine)
    requires InKernel(v, waiting, m) && v.lines != []
    ensures InKernel(v.(lines := v.lines[1..]), waiting, m.(lines := m.lines[1..]))
  {
  }

  /** A character arrives that does not end the line. */
  lemma {:induction false} EchoInKernel(v: View, waiting: seq<nat>, m: Machine, c: char)
    requires InKernel(v, waiting, m) && c != '\r'
    ensures InKernel(v.(buffer := v.buffer + [c]), waiting, Type(m, c))
  {
  }

  /** A line is completed, and the waiter list is worked off and emptied. */
  lemma {:induction false} LineInKernel(v: View, waiting: seq<nat>, m: Machine)
    requires InKernel(v, waiting, m)
    ensures InKernel(v.(lines := v.lines + [v.buffer], buffer := "",
                        threads := WakeAll(v.threads, v.waiters), waiters := []),
                     [], Type(m, '\r'))
  {
    WakeAllWakes(v.threads, v.waiters, waiting, m.blocked);
  }

  /** Buffer and line queue after the UART interrupt. */
  function Typed(buffer: string, lines: seq<string>, input: Option<char>): (string, seq<string>) {
    if input.None? then (buffer, lines)
    else if input.value == '\r' then ("", lines + [buffer])
    else (buffer + [input.value], lines)
  }

  /** The view after a console interrupt. */
  ghost function ConsoleView(v: View, input: Option<char>): View {
    var t := Typed(v.buffer, v.lines, input);
    var u := v.(buffer := t.0, lines := t.1);
    if t.1 == [] then u else u.(threads := WakeAll(v.threads, v.waiters), waiters := [])
  }

  lemma ConsoleIs(v: View, input: Option<char>)
    ensures var t := Typed(v.buffer, v.lines, input);
            ConsoleView(v, input) ==
            View(v.frames, if t.1 == [] then v.threads else WakeAll(v.threads, v.waiters), v.queue, t.0, t.1,
                 if t.1 == [] then v.waiters else [], v.pid, v.tid, v.kernelSp, v.kernelTp)
  {
  }

  lemma {:induction false} ConsoleInKernel(v: View, waiting: seq<nat>, m: Machine, input: Option<char>)
    requires InKernel(v, waiting, m)
    ensures InKernel(ConsoleView(v, input), if Typed(v.buffer, v.lines, input).1 == [] then waiting else [],
                     if input.Some? then Type(m, input.value) else m)
  {
    NobodyWaits(v, waiting, m);
    if input == Some('\r') {
      LineInKernel(v, waiting, m);
    } else if input.Some? {
      EchoInKernel(v, waiting, m, input.value);
    }
  }

  /** While a line is queued nobody waits. */
  lemma {:induction false} NobodyWaits(v: View, waiting: seq<nat>, m: Machine)
    requires InKernel(v, waiting, m)
    ensures v.lines != [] ==> v.waiters == [] && waiting == []
  {
    assert waiting != [] ==> waiting[0] in waiting && waiting[0] in m.blocked;
  }

  /** The view after the running thread was entered in the waiter list and blocked. */
  ghost function BlockedView(v: View): View {
    v.(waiters := v.waiters + [(v.pid, v.tid)], threads := SetState(v.threads, v.pid, v.tid, Blocked))
  }

  /** Blocking the caller keeps the lists in agreement with the machine. */
  lemma {:induction false} BlockedMatches(v: View, waiting: seq<nat>, m: Machine)
    requires InKernel(v, waiting, m)
    ensures var b := BlockedView(v);
            && |b.threads| == |v.threads| && PidsOk(b.threads) && StatesMatch(b.threads, Block(m).blocked)
            && WaitersMatch(b.threads, b.waiters, waiting + [m.queue[0]], Block(m).blocked)
  {
    var c := m.queue[0];
    FindsItself(v.threads, c);
    assert forall t :: t in waiting + [c] <==> t in waiting || t == c;
    hide Sound, FindThread;
  }

  /** Blocking the caller, then switching away from it. */
  lemma {:induction false} BlockThenSwitch(v: View, waiting: seq<nat>, m: Machine)
    requires InKernel(v, waiting, m) && m.lines == []
    ensures Runnable(BlockedView(v).threads) == ThreadMachine.Running(|m.ctx|, Block(m).blocked)
    ensures var b := BlockedView(v);
            SomeRunnable(b.queue, Runnable(b.threads)) ==>
              && Scheduled(b.queue, Runnable(b.threads))[0] < |b.threads|
              && Switch(Block(m)).queue == Scheduled(b.queue, Runnable(b.threads))
              && InKernel(Switched(b), waiting + [m.queue[0]], Switch(Block(m)))
  {
    var b := BlockedView(v);
    BlockedMatches(v, waiting, m);
    RunnableIs(b.threads, Block(m).blocked);
    hide StatesMatch, WaitersMatch, PidsOk, SetState;
    if SomeRunnable(b.queue, Runnable(b.threads)) {
      SwitchSound(Block(m), Block(m).blocked);
      var q := Scheduled(b.queue, Runnable(b.threads));
      assert q[0] in Runnable(b.threads);
    }
  }

  /** Every thread is queued; this does not say in which order. */
  ghost predicate AllQueued(q: seq<nat>, n: nat) {
    forall t: nat :: t in q <==> t < n
  }

  /** Some thread is in state Running exactly when the queue holds one. */
  lemma {:induction false} NoneRuns(q: seq<nat>, threads: seq<Thread>)
    requires AllQueued(q, |threads|)
    ensures (forall i | 0 <= i < |threads| :: !threads[i].state.Running?) <==> !SomeRunnable(q, Runnable(threads))
    ensures forall t | t in q :: t < |threads|
  {
    if i :| 0 <= i < |threads| && threads[i].state.Running? {
      assert i in q && i in Runnable(threads);
      var k :| 0 <= k < |q| && q[k] == i;
      assert q[k] in Runnable(threads);
    }
  }

  /** Blocking the caller leaves every thread queued. */
  lemma {:induction false} BlockedQueue(v: View, waiting: seq<nat>, m: Machine)
    requires InKernel(v, waiting, m)
    ensures m.queue != [] && Block(m) == m.(blocked := m.blocked + {m.queue[0]})
    ensures var b := BlockedView(v);
            b.queue == m.queue && |b.threads| == |b.frames| && AllQueued(b.queue, |b.threads|)
  {
  }

  /** A frame may change as long as it keeps its address, its SATP and its zero. */
  lemma {:induction false} KernelModeKept(s: Spaces, cpu: Cpu, frames: seq<Frame>, i: nat, t: Frame)
    requires KernelMode(s, cpu, frames) && i < |frames|
    requires t.kernelAddr == frames[i].kernelAddr && t.dualSatp == frames[i].dualSatp
    requires t.regs[0] == frames[i].regs[0] && t.sstatus == frames[i].sstatus
    ensures KernelMode(s, cpu, frames[i := t])
  {
  }

  /** The process and thread the kernel takes for current are the head of the queue. */
  lemma {:induction false} HeadIsCurrent(v: View, waiting: seq<nat>, m: Machine)
    requires InKernel(v, waiting, m)
    ensures v.queue == m.queue && m.queue != [] && v.lines == m.lines
    ensures m.queue[0] == FindThread(v.threads, v.pid, v.tid) < |v.threads| == |v.frames| == |m.ctx| && v.pid > 0
    ensures FrameContext(v.frames[m.queue[0]]) == m.ctx[m.queue[0]]
  {
    FindsItself(v.threads, v.queue[0]);
  }

  lemma BlockedViewIs(v: View)
    ensures BlockedView(v) ==
            View(v.frames, SetState(v.threads, v.pid, v.tid, Blocked), v.queue, v.buffer, v.lines,
                 v.waiters + [(v.pid, v.tid)], v.pid, v.tid, v.kernelSp, v.kernelTp)
  {
  }

  /** The id the caller's frame holds decides, with the lines there are, whether the call blocks. */
  lemma {:induction false} CallBlocks(v: View, waiting: seq<nat>, m: Machine, env: CallEnv)
    requires InKernel(v, waiting, m)
    ensures m.queue != [] && m.queue[0] < |m.ctx| == |v.frames|
    ensures Blocks(m, env) <==> Takes(v.frames[m.queue[0]].regs[A7], env) && v.lines == []
  {
    HeadIsCurrent(v, waiting, m);
  }

  lemma StepIs(m: Machine, env: CallEnv)
    requires m.queue != [] && m.queue[0] < |m.ctx|
    requires SomeRunnable(m.queue, ThreadMachine.Running(|m.ctx|, m.blocked))
    ensures !Blocks(m, env) ==> Step(m, SystemCall(env)) == Some(Call(m, env)) && Call(m, env).queue == m.queue
    ensures Blocks(m, env) ==>
              if SomeRunnable(m.queue, ThreadMachine.Running(|m.ctx|, Block(m).blocked)) then
                Step(m, SystemCall(env)) == Some(Switch(Block(m)))
              else Step(m, SystemCall(env)) == None
    ensures Blocks(m, env) ==> m.lines == []
  {
    hide Call, Switch, SomeRunnable, ThreadMachine.Running, Scheduled;
    CallKeepsQueue(m, env);
  }

  lemma CallKeepsQueue(m: Machine, env: CallEnv)
    requires m.queue != [] && m.queue[0] < |m.ctx|
    ensures !Blocks(m, env) ==> Call(m, env).queue == m.queue
  {
  }

  /** The view after a call that did not block. */
  ghost function AnsweredView(v: View, c: nat, env: CallEnv): View
    requires c < |v.frames|
    requires Takes(v.frames[c].regs[A7], env) ==> v.lines != []
  {
    var f := v.frames[c];
    v.(frames := v.frames[c := FinishedFrame(f, Result(f.regs[A7], f.regs[A2], env, v.lines))],
       lines := if Takes(f.regs[A7], env) then v.lines[1..] else v.lines)
  }

  lemma AnsweredViewIs(v: View, c: nat, env: CallEnv, f: Frame)
    requires c < |v.frames| && (Takes(v.frames[c].regs[A7], env) ==> v.lines != [])
    requires f == WithResult(v.frames[c], Result(v.frames[c].regs[A7], v.frames[c].regs[A2], env, v.lines))
    ensures f.(sepc := Wrap(f.sepc + 4)) == AnsweredView(v, c, env).frames[c]
    ensures f.sepc == v.frames[c].sepc
    ensures AnsweredView(v, c, env).(frames := v.frames[c := f]) ==
            View(v.frames[c := f], v.threads, v.queue, v.buffer,
                 if Takes(v.frames[c].regs[A7], env) then v.lines[1..] else v.lines,
                 v.waiters, v.pid, v.tid, v.kernelSp, v.kernelTp)
  {
    hide Result, Takes, Wrap;
  }

  lemma {:induction false} AnswerInKernel(v: View, waiting: seq<nat>, m: Machine, env: CallEnv)
    requires InKernel(v, waiting, m)
    ensures m.queue != [] && m.queue[0] < |m.ctx| == |v.frames|
    ensures !Blocks(m, env) ==>
              && (Takes(v.frames[m.queue[0]].regs[A7], env) ==> v.lines != [])
              && InKernel(AnsweredView(v, m.queue[0], env), waiting, Call(m, env))
  {
    HeadIsCurrent(v, waiting, m);
    if !Blocks(m, env) {
      var f := v.frames[m.queue[0]];
      var result := Result(f.regs[A7], f.regs[A2], env, v.lines);
      FinishInKernel(v, waiting, m, result);
      if Takes(f.regs[A7], env) {
        TakeLineInKernel(v.(frames := v.frames[v.queue[0] := FinishedFrame(f, result)]), waiting, Finish(m, result));
      }
    }
  }

  /** Between traps a runnable thread is queued for each frame. */
  lemma {:induction false} QueueReady(v: View, waiting: seq<nat>, m: Machine)
    requires Simulates(v, waiting, m)
    ensures m.queue != [] && m.queue[0] < |m.ctx| == |v.frames| == |v.threads| && v.queue == m.queue
    ensures SomeRunnable(m.queue, ThreadMachine.Running(|m.ctx|, m.blocked))
    ensures AllQueued(m.queue, |v.threads|)
  {
    SoundCanRun(m);
  }

  /** Trap entry moves the running thread's registers from the hart into its frame. */
  lemma {:induction false} EntryInKernel(v: View, before: Cpu, after: Cpu, waiting: seq<nat>, m: Machine)
    requires InUser(v, before, waiting, m) && Trapped(before, after)
    ensures m.queue[0] < |v.frames| && v.frames[m.queue[0]].kernelTp == v.kernelTp
    ensures SavedFrame(after, v.frames[m.queue[0]]).kernelTp == v.kernelTp && SavedFrame(after,
              v.frames[m.queue[0]]).sstatus == after.sstatus
    ensures InKernel(v.(frames := v.frames[m.queue[0] := SavedFrame(after, v.frames[m.queue[0]])]), waiting, m)
  {
  }

  /** Trap exit leaves the frames alone but for a SATP, and loads the resumed thread's registers. */
  lemma {:induction false} ExitInUser(v: View, cpu: Cpu, waiting: seq<nat>, m: Machine, satp: Word)
    requires InKernel(v, waiting, m)
    ensures m.queue[0] < |v.frames| == |m.ctx|
    ensures var t := v.frames[m.queue[0]].(dualSatp := satp);
            CpuContext(cpu) == FrameContext(t) ==> InUser(v.(frames := v.frames[m.queue[0] := t]), cpu, waiting, m)
  {
  }

  lemma UserTrapped(s: Spaces, before: Cpu, after: Cpu, frames: seq<Frame>, c: nat)
    requires UserMode(s, before, frames, c) && Trapped(before, after)
    ensures UserMode(s, after, frames, c) && FromUser(after.sstatus)
  {
  }

  lemma {:induction false} ComputeInUser(v: View, s: Spaces, cpu: Cpu, c: Context, waiting: seq<nat>, m: Machine)
    requires InUser(v, cpu, waiting, m) && c.x[0] == 0
    requires m.queue[0] < |v.frames| && UserMode(s, cpu, v.frames, m.queue[0])
    ensures m.queue[0] < |m.ctx| && Compute(m, c).queue == m.queue
    ensures InUser(v, cpu.(x := c.x, f := c.f, pc := c.pc), waiting, Compute(m, c))
    ensures UserMode(s, cpu.(x := c.x, f := c.f, pc := c.pc), v.frames, m.queue[0])
  {
  }

  /** In kernel mode a frame's real address denotes that frame and no other. */
  lemma FrameFound(s: Spaces, cpu: Cpu, frames: seq<Frame>, c: nat)
    requires KernelMode(s, cpu, frames) && c < |frames|
    ensures s.Valid() && |frames| == |s.userSatp| == |s.frameAddr| && s.Denotes(cpu.satp, s.frameAddr[c], c)
    ensures forall i: nat | s.Denotes(cpu.satp, s.frameAddr[c], i) :: i == c
    ensures KernelMode(s, cpu.(x := cpu.x[10 := s.frameAddr[c]]), frames)
  {
  }

  function CreationOrder(n: nat): seq<nat> {
    if n == 0 then [] else CreationOrder(n - 1) + [n - 1]
  }

  function CreatedThreads(n: nat): seq<Thread> {
    if n == 0 then [] else CreatedThreads(n - 1) + [Thread(n, 0, Running)]
  }

  /** What a waiter list says: process and thread of each entry. */
  ghost function Waits(waiters: seq<RequestContext>): (r: seq<(nat, nat)>)
    reads waiters
    ensures |r| == |waiters|
  {
    seq(|waiters|, i requires 0 <= i < |waiters| reads waiters => (waiters[i].pid, waiters[i].tid))
  }

  /** The machine that the first `schedule` starts: every thread as its frame describes it, one of them at the head. */
  ghost function Booted(frames: seq<Frame>): Machine
    requires frames != []
  {
    AllCanRun(|frames|);
    Machine(seq(|frames|, i requires 0 <= i < |frames| => FrameContext(frames[i])), {},
            Scheduled(CreationOrder(|frames|), ThreadMachine.Running(|frames|, {})), "", [])
  }

  lemma BootedIs(frames: seq<Frame>)
    requires frames != []
    ensures SomeRunnable(CreationOrder(|frames|), ThreadMachine.Running(|frames|, {}))
    ensures Booted(frames).queue == Scheduled(CreationOrder(|frames|), ThreadMachine.Running(|frames|, {}))
  {
    AllCanRun(|frames|);
  }

  lemma {:induction false} CreatedInOrder(n: nat)
    ensures |CreationOrder(n)| == n == |CreatedThreads(n)|
    ensures forall i | 0 <= i < n :: CreationOrder(n)[i] == i && CreatedThreads(n)[i] == Thread(i + 1, 0, Running)
  {
    if n > 0 {
      CreatedInOrder(n - 1);
    }
  }

  lemma {:induction false} AllCanRun(n: nat)
    ensures n > 0 ==> SomeRunnable(CreationOrder(n), ThreadMachine.Running(n, {}))
    ensures Runnable(CreatedThreads(n)) == ThreadMachine.Running(n, {})
    ensures AllQueued(CreationOrder(n), n)
  {
    CreatedInOrder(n);
    forall t: nat
      ensures t in CreationOrder(n) <==> t < n
    {
      if t < n {
        assert CreationOrder(n)[t] == t;
      }
    }
    if n > 0 {
      assert CreationOrder(n)[0] in ThreadMachine.Running(n, {});
    }
  }

  lemma {:induction false} BootedSound(s: Spaces, cpu: Cpu, frames: seq<Frame>)
    requires KernelMode(s, cpu, frames) && frames != []
    ensures Sound(Booted(frames))
  {
    var n := |frames|;
    CreatedInOrder(n);
    AllCanRun(n);
    var runnable := ThreadMachine.Running(n, {});
    RotationKeeps(CreationOrder(n), Turns(CreationOrder(n), runnable));
    var q := Booted(frames).queue;
    forall t: nat
      ensures t in q <==> t < n
    {
      assert t in q <==> t in CreationOrder(n);
      if t < n {
        assert CreationOrder(n)[t] == t;
      }
    }
  }

  /** The state the kernel is in once the first thread is picked. */
  lemma {:induction false} BootInKernel(s: Spaces, cpu: Cpu, frames: seq<Frame>, kernelSp: Word, kernelTp: Word)
    requires KernelMode(s, cpu, frames) && frames != []
    ensures var m, threads := Booted(frames), CreatedThreads(|frames|);
            && m.queue[0] < |frames| == |threads|
            && var t := frames[m.queue[0]].(kernelSp := kernelSp, kernelTp := kernelTp);
            && InKernel(View(frames[m.queue[0] := t], threads, m.queue, "", [], [],
                             threads[m.queue[0]].pid, threads[m.queue[0]].tid, kernelSp, kernelTp), [], m)
  {
    BootedSound(s, cpu, frames);
    CreatedInOrder(|frames|);
    var m := Booted(frames);
    assert m.queue[0] in m.queue;
  }

  lemma NoWaits(waiters: seq<RequestContext>)
    ensures waiters == [] ==> Distinct(waiters) && Waits(waiters) == []
  {
  }

  class Kernel {
    const hart: Hart
    const runQueue: LinkedQueue<nat>
    /** The kernel trap frame: its address, which `tp` points to, and the stack it holds. */
    const kernelTp: Word
    const kernelSp: Word
    var currentPid: nat
    var currentTid: nat
    var threads: seq<Thread>
    var buffer: string
    var lines: seq<string>
    var waiters: seq<RequestContext>
    ghost var waiting: seq<nat>

    ghost function State(): View
      requires runQueue.Valid()
      reads this, hart, runQueue, runQueue.repr, waiters
    {
      View(hart.frames, threads, runQueue.Contents(), buffer, lines, Waits(waiters), currentPid, currentTid, kernelSp,
           kernelTp)
    }

    /** The kernel runs, and its state stands for the machine `m`. */
    ghost predicate Inside(m: Machine)
      reads this, hart, runQueue, runQueue.repr, waiters
    {
      && runQueue.Valid() && Distinct(waiters)
      && KernelMode(hart.spaces, hart.cpu, hart.frames)
      && InKernel(State(), waiting, m)
    }

    /** The thread at the head of the queue runs in user mode, and the state stands for `m`. */
    ghost predicate Outside(m: Machine)
      reads this, hart, runQueue, runQueue.repr, waiters
    {
      && runQueue.Valid() && Distinct(waiters)
      && InUser(State(), hart.cpu, waiting, m)
      && UserMode(hart.spaces, hart.cpu, hart.frames, m.queue[0])
    }

    lemma StateIs()
      requires runQueue.Valid()
      ensures State() == View(hart.frames, threads, runQueue.Contents(), buffer, lines, Waits(waiters), currentPid,
                currentTid, kernelSp, kernelTp)
    {
    }

    lemma Opens(m: Machine)
      requires Inside(m)
      ensures runQueue.Valid() && Distinct(waiters) && KernelMode(hart.spaces, hart.cpu, hart.frames)
                && InKernel(State(), waiting, m)
    {
    }

    lemma Heads(m: Machine)
      requires Inside(m)
      ensures m.queue != []
    {
      Opens(m);
      HeadIsCurrent(State(), waiting, m);
    }

    lemma Closes(m: Machine)
      requires runQueue.Valid() && Distinct(waiters) && KernelMode(hart.spaces, hart.cpu, hart.frames)
                && InKernel(State(), waiting, m)
      ensures Inside(m)
    {
    }

    lemma OpensUser(m: Machine)
      requires Outside(m)
      ensures runQueue.Valid() && Distinct(waiters) && InUser(State(), hart.cpu, waiting, m)
      ensures m.queue != [] && m.queue[0] < |hart.frames| && UserMode(hart.spaces, hart.cpu, hart.frames, m.queue[0])
    {
    }

    lemma ClosesUser(m: Machine)
      requires runQueue.Valid() && Distinct(waiters) && InUser(State(), hart.cpu, waiting, m)
      requires m.queue != [] && UserMode(hart.spaces, hart.cpu, hart.frames, m.queue[0])
      ensures Outside(m)
    {
    }

    /** The kernel after every process was created: one thread for each frame, queued in creation order. */
    constructor (hart: Hart, kernelSp: Word, kernelTp: Word)
      ensures this.hart == hart && this.kernelSp == kernelSp && this.kernelTp == kernelTp
      ensures runQueue.Valid() && fresh(runQueue) && fresh(runQueue.repr)
      ensures runQueue.Contents() == CreationOrder(|hart.frames|)
      ensures threads == CreatedThreads(|hart.frames|)
      ensures buffer == "" && lines == [] && waiters == [] && waiting == []
    {
      this.hart, this.kernelSp, this.kernelTp := hart, kernelSp, kernelTp;
      runQueue := new LinkedQueue();
      threads, currentPid, currentTid := [], 0, 0;
      buffer, lines, waiters, waiting := "", [], [], [];
      new;
      var pidCounter := 1;
      for i := 0 to |hart.frames|
        invariant runQueue.Valid() && fresh(runQueue) && fresh(runQueue.repr)
        invariant runQueue.Contents() == CreationOrder(i) && threads == CreatedThreads(i)
        invariant pidCounter == i + 1 && buffer == "" && lines == [] && waiters == [] && waiting == []
      {
        threads := threads + [Thread(pidCounter, 0, Running)];
        pidCounter := pidCounter + 1;
        runQueue.Append(i);
      }
    }

    method Block(pid: nat, tid: nat)
      modifies this`threads
      ensures threads == SetState(old(threads), pid, tid, Blocked)
    {
      var i := FindThread(threads, pid, tid);
      if i < |threads| {
        threads := threads[i := threads[i].(state := Blocked)];
      }
    }

    method Unblock(pid: nat, tid: nat)
      modifies this`threads
      ensures threads == SetState(old(threads), pid, tid, Running)
    {
      var i := FindThread(threads, pid, tid);
      if i < |threads| {
        threads := threads[i := threads[i].(state := Running)];
      }
    }

    /** Rotates to the next running thread and prepares it; `None` is the loop of the source going on for ever. */
    method Schedule() returns (next: Option<nat>)
      requires runQueue.Valid() && |hart.frames| == |threads| && AllQueued(runQueue.Contents(), |threads|)
      modifies runQueue, runQueue.repr, hart`frames, this`currentPid, this`currentTid
      ensures runQueue.Valid() && runQueue.repr == old(runQueue.repr)
      ensures next.None? <==> !SomeRunnable(old(runQueue.Contents()), Runnable(threads))
      ensures next.None? <==> NeverExits(old(runQueue.Contents()), Runnable(threads))
      ensures next.Some? ==>
                && runQueue.Contents() == Scheduled(old(runQueue.Contents()), Runnable(threads))
                && next.value == runQueue.Contents()[0] < |threads|
                && hart.frames == old(hart.frames)[next.value :=
                       old(hart.frames)[next.value].(kernelSp := kernelSp, kernelTp := kernelTp)]
                && currentPid == threads[next.value].pid && currentTid == threads[next.value].tid
    {
      hide *;
      ghost var q: seq<nat>, runnable := runQueue.Contents(), Runnable(threads);
      NoneRuns(q, threads);
      NeverExitsExactly(q, runnable);
      if forall i | 0 <= i < |threads| :: !threads[i].state.Running? {
        return None;
      }
      ghost var turns := Turns(q, runnable);
      ghost var j: nat := 0;
      ScheduleTurns(q, runnable);
      var first;
      while true
        invariant j < turns && runQueue.Valid() && runQueue.Contents() == RotatedBy<nat>(q, j)
        invariant runQueue.repr == old(runQueue.repr)
        invariant hart.frames == old(hart.frames)
        decreases turns - j
      {
        RotateOnce(q, j);
        runQueue.RotateLeft();
        j := j + 1;
        RunsAt(q, threads, j);
        first := runQueue.PeekFirst();
        if threads[first].state.Running? {
          break;
        }
      }
      PrepareForSwitch(first);
      return Some(first);
    }

    method PrepareForSwitch(target: nat)
      requires target < |threads| == |hart.frames|
      modifies hart`frames, this`currentPid, this`currentTid
      ensures hart.frames == old(hart.frames)[target :=
                               old(hart.frames)[target].(kernelSp := kernelSp, kernelTp := kernelTp)]
      ensures currentPid == threads[target].pid && currentTid == threads[target].tid
    {
      hart.StoreFrame(target, hart.frames[target].(kernelSp := kernelSp));
      hart.StoreFrame(target, hart.frames[target].(kernelTp := kernelTp));
      currentPid, currentTid := threads[target].pid, threads[target].tid;
    }

    // ----- the console -----

    /** The UART driver: a character joins the buffer, a carriage return moves the buffer to the line queue. */
    method TakeCharacter(input: Option<char>)
      modifies this`buffer, this`lines
      ensures buffer == Typed(old(buffer), old(lines), input).0 && lines == Typed(old(buffer), old(lines), input).1
    {
      if input.Some? {
        if input.value == '\r' {
          lines := lines + [buffer];
          buffer := "";
        } else {
          buffer := buffer + [input.value];
        }
      }
    }

    /** The device: if a line is queued, every waiter is woken and the list is emptied. */
    method WakeWaiters()
      modifies this`threads, this`waiters, this`waiting
      ensures lines == [] ==> threads == old(threads) && waiters == old(waiters) && waiting == old(waiting)
      ensures lines != [] ==> threads == WakeAll(old(threads), old(Waits(waiters))) && waiters == [] && waiting == []
    {
      ghost var was, pairs := threads, Waits(waiters);
      for k := 0 to |waiters|
        invariant waiters == old(waiters) && waiting == old(waiting)
        invariant if lines != [] then WakeAll(threads, pairs[k..]) == WakeAll(was, pairs) else threads == was
      {
        if lines != [] {
          assert pairs[k..][0] == (waiters[k].pid, waiters[k].tid) && pairs[k..][1..] == pairs[k + 1..];
          Unblock(waiters[k].pid, waiters[k].tid);
        }
      }
      if lines != [] {
        waiters := [];
        waiting := [];
      }
    }

    method HandleConsoleInterrupt(input: Option<char>, ghost m: Machine)
      requires Inside(m)
      modifies this`buffer, this`lines, this`threads, this`waiters, this`waiting
      ensures Inside(if input.Some? then Type(m, input.value) else m)
    {
      hide *;
      Opens(m);
      StateIs();
      ghost var v, w := State(), waiting;
      TakeCharacter(input);
      WakeWaiters();
      StateIs();
      ConsoleIs(v, input);
      NoWaits(waiters);
      ConsoleInKernel(v, w, m, input);
      Closes(if input.Some? then Type(m, input.value) else m);
    }

    method ReadAsync() returns (r: Request<string>)
      modifies this`lines, this`waiters
      ensures old(lines) != [] ==> r == Finalized(old(lines)[0]) && lines == old(lines)[1..] && waiters == old(waiters)
      ensures old(lines) == [] ==>
                && r.Pending? && fresh(r.context) && r.context.pid == 0 && r.context.tid == 0
                && waiters == old(waiters) + [r.context] && lines == []
    {
      if lines != [] {
        var line := lines[0];
        lines := lines[1..];
        return Finalized(line);
      }
      var context := new RequestContext();
      waiters := waiters + [context];
      return Pending(context);
    }

    /** The console's inode: a line and its terminator, cut to size, or the blocked request passed on. */
    method ReadDevice(size: Word) returns (r: Request<Word>, copied: string)
      modifies this`lines, this`waiters
      ensures old(lines) != [] ==>
                && r == Finalized(Delivered(old(lines)[0], size)) && copied == (old(lines)[0] + "\0")[..r.value]
                && lines == old(lines)[1..] && waiters == old(waiters)
      ensures old(lines) != [] ==>
                && r.value == |copied| <= size && copied <= old(lines)[0] + "\0"
                && (|copied| == size || copied == old(lines)[0] + "\0")
      ensures old(lines) == [] ==>
                && r.Pending? && fresh(r.context) && r.context.pid == 0 && r.context.tid == 0
                && waiters == old(waiters) + [r.context] && lines == []
    {
      copied := "";
      var request := ReadAsync();
      if request.Pending? {
        return Pending(request.context), copied;
      }
      var n := if size < |request.value| + 1 then size else |request.value| + 1;
      copied := (request.value + "\0")[..n];
      return Finalized(n), copied;
    }

    // ----- system calls -----

    /** The read call: a line for the caller, or the caller enters the waiter list and blocks. */
    method HandleRead(size: Word, env: CallEnv) returns (r: CallResult, copied: string)
      requires FindThread(threads, currentPid, currentTid) < |threads| && currentPid > 0 && Distinct(waiters)
      modifies this`lines, this`waiters, this`waiting, this`threads
      ensures Distinct(waiters)
      ensures r == Failed(WouldBlock) <==> Takes(SYS_READ, env) && old(lines) == []
      ensures r != Failed(WouldBlock) ==>
                && threads == old(threads) && waiters == old(waiters) && waiting == old(waiting)
                && lines == (if Takes(SYS_READ, env) then old(lines)[1..] else old(lines))
                && Result(SYS_READ, size, env, old(lines)) == Some(if r.Value? then r.value else U64 - 1)
                && (Takes(SYS_READ, env) ==> copied == (old(lines)[0] + "\0")[..Delivered(old(lines)[0], size)])
      ensures !env.bufferOk ==> r == Failed(Error)
      ensures env.bufferOk && env.onConsole && old(lines) != [] ==>
                && r == Value(|copied|) && |copied| <= size && copied <= old(lines)[0] + "\0"
                && (|copied| == size || copied == old(lines)[0] + "\0")
      ensures r == Failed(WouldBlock) ==>
                && lines == old(lines) && threads == SetState(old(threads), currentPid, currentTid, Blocked)
                && Waits(waiters) == old(Waits(waiters)) + [(currentPid, currentTid)]
                && waiting == old(waiting) + [FindThread(old(threads), currentPid, currentTid)]
    {
      copied := "";
      if !env.bufferOk {
        return Failed(Error), copied;
      }
      if !env.onConsole {
        return if env.other.Some? then Value(env.other.value) else Failed(Error), copied;
      }
      var request;
      request, copied := ReadDevice(size);
      if request.Finalized? {
        return Value(request.value), copied;
      }
      var t := FindThread(threads, currentPid, currentTid);
      request.context.Assign(threads[t].pid, threads[t].tid);
      Block(threads[t].pid, threads[t].tid);
      waiting := waiting + [t];
      return Failed(WouldBlock), copied;
    }

    /** Runs the handler and puts its result in the caller's frame, unless the call blocked. */
    method HandleSyscall(id: Word, env: CallEnv) returns (blocked: bool)
      requires FindThread(threads, currentPid, currentTid) < |threads| == |hart.frames|
      requires currentPid > 0 && Distinct(waiters)
      modifies this`lines, this`waiters, this`waiting, this`threads, hart`frames
      ensures Distinct(waiters)
      ensures blocked <==> Takes(id, env) && old(lines) == []
      ensures var c := FindThread(old(threads), currentPid, currentTid);
              if blocked then
                && hart.frames == old(hart.frames)
                && lines == old(lines) && threads == SetState(old(threads), currentPid, currentTid, Blocked)
                && Waits(waiters) == old(Waits(waiters)) + [(currentPid, currentTid)] && waiting == old(waiting) + [c]
              else
                && hart.frames == old(hart.frames)[c := WithResult(old(hart.frames)[c], Result(id,
                          old(hart.frames)[c].regs[A2], env, old(lines)))]
                && lines == (if Takes(id, env) then old(lines)[1..] else old(lines))
                && threads == old(threads) && waiters == old(waiters) && waiting == old(waiting)
    {
      if id >= SYSCALLS {
        assert hart.frames == hart.frames[FindThread(threads, currentPid,
                  currentTid) := hart.frames[FindThread(threads, currentPid, currentTid)]];
        return false;
      }
      var tf := FindThread(threads, currentPid, currentTid);
      var size := hart.frames[tf].regs[A2];
      var result: CallResult;
      if id == SYS_READ {
        var copied;
        result, copied := HandleRead(size, env);
      } else {
        result := if env.other.Some? then Value(env.other.value) else Failed(Error);
      }
      if result == Failed(WouldBlock) {
        return true;
      }
      var answer := if result.Value? then result.value else U64 - 1;
      hart.StoreFrame(tf, hart.frames[tf].(regs := hart.frames[tf].regs[A0 := answer]));
      return false;
    }

    /** The blocked caller gives way to the next thread; if none can run, the scheduler would look for one for ever. */
    method SwitchFromBlocked(ghost v: View, ghost w: seq<nat>, ghost m: Machine) returns (next: Option<nat>)
      requires runQueue.Valid() && Distinct(waiters) && KernelMode(hart.spaces, hart.cpu, hart.frames)
      requires InKernel(v, w, m) && m.lines == [] && State() == BlockedView(v) && waiting == w + [m.queue[0]]
      modifies runQueue, runQueue.repr, hart`frames, this`currentPid, this`currentTid
      ensures runQueue.repr == old(runQueue.repr)
      ensures next.None? <==> !SomeRunnable(m.queue, ThreadMachine.Running(|m.ctx|, ThreadMachine.Block(m).blocked))
      ensures next.Some? ==>
                Inside(Switch(ThreadMachine.Block(m))) && next.value == Switch(ThreadMachine.Block(m)).queue[0]
    {
      hide *;
      BlockedQueue(v, w, m);
      BlockThenSwitch(v, w, m);
      StateIs();
      ghost var b, frames := State(), hart.frames;
      next := Schedule();
      if next.None? {
        return;
      }
      var first := next.value;
      KernelModeKept(hart.spaces, hart.cpu, frames, first, hart.frames[first]);
      StateIs();
      SwitchedIs(b);
      Closes(Switch(ThreadMachine.Block(m)));
    }

    /** The rest of a call that did not block: its frame resumes after the call. */
    method Resume(tf: nat, env: CallEnv, ghost v: View, ghost m: Machine)
      requires runQueue.Valid() && Distinct(waiters) && |hart.frames| == |v.frames|
               && KernelMode(hart.spaces, hart.cpu, v.frames)
      requires InKernel(v, waiting, m) && tf == m.queue[0] < |v.frames| == |m.ctx| && !Blocks(m, env)
      requires Takes(v.frames[tf].regs[A7], env) ==> v.lines != []
      requires hart.frames[tf].(sepc := Wrap(hart.frames[tf].sepc + 4)) == AnsweredView(v, tf, env).frames[tf]
      requires State() == AnsweredView(v, tf, env).(frames := v.frames[tf := hart.frames[tf]])
      modifies hart`frames
      ensures Inside(Call(m, env))
    {
      AnswerInKernel(v, waiting, m, env);
      hide InKernel, Call, Result, Takes, Waits, Blocks, LinkedQueue.Valid, LinkedQueue.Contents;
      hart.StoreFrame(tf, hart.frames[tf].(sepc := Wrap(hart.frames[tf].sepc + 4)));
      assert State() == AnsweredView(v, tf, env);
      KernelModeKept(hart.spaces, hart.cpu, v.frames, tf, hart.frames[tf]);
    }

    /** A call that blocked leaves its frame alone and gives way; any other completes and resumes after the call. */
    method HandleSystemCall(tf: nat, env: CallEnv, ghost m: Machine) returns (next: Option<nat>)
      requires Inside(m) && tf == m.queue[0]
      requires SomeRunnable(m.queue, ThreadMachine.Running(|m.ctx|, m.blocked)) && tf < |m.ctx|
      modifies this`lines, this`waiters, this`waiting, this`threads, this`currentPid, this`currentTid
      modifies hart`frames, runQueue, runQueue.repr
      ensures runQueue.repr == old(runQueue.repr)
      ensures next.None? <==> Step(m, SystemCall(env)).None?
      ensures next.Some? ==>
                Inside(Step(m, SystemCall(env)).value) && next.value == Step(m, SystemCall(env)).value.queue[0]
    {
      hide *;
      Opens(m);
      ghost var v, w := State(), waiting;
      StateIs();
      HeadIsCurrent(v, w, m);
      CallBlocks(v, w, m, env);
      StepIs(m, env);
      var id := hart.frames[FindThread(threads, currentPid, currentTid)].regs[A7];
      var blocked := HandleSyscall(id, env);
      if blocked {
        StateIs();
        BlockedViewIs(v);
        next := SwitchFromBlocked(v, w, m);
        if next.Some? {
          Heads(Step(m, SystemCall(env)).value);
        }
      } else {
        AnsweredViewIs(v, tf, env, hart.frames[tf]);
        StateIs();
        Resume(tf, env, v, m);
        next := Some(tf);
      }
    }

    // ----- interrupts -----

    method HandleTimerInterrupt(ghost m: Machine) returns (next: nat)
      requires Inside(m) && m.queue[0] < |m.ctx|
      requires SomeRunnable(m.queue, ThreadMachine.Running(|m.ctx|, m.blocked))
      modifies hart`frames, this`currentPid, this`currentTid, runQueue, runQueue.repr
      ensures runQueue.repr == old(runQueue.repr)
      ensures Inside(Switch(m)) && next == Switch(m).queue[0]
    {
      hide *;
      Opens(m);
      ghost var v, w := State(), waiting;
      StateIs();
      SwitchInKernel(v, w, m);
      QueueReady(v, w, m);
      var first := Schedule();
      next := first.value;
      KernelModeKept(hart.spaces, hart.cpu, v.frames, next, hart.frames[next]);
      StateIs();
      SwitchedIs(v);
      Closes(Switch(m));
    }

    /** Dispatches a trap taken from user mode; `None` is the scheduler searching for ever. */
    method HandleInterrupt(tf: nat, event: Event, ghost m: Machine) returns (next: Option<nat>)
      requires Inside(m) && tf == m.queue[0] < |m.ctx|
               && SomeRunnable(m.queue, ThreadMachine.Running(|m.ctx|, m.blocked))
      modifies this, hart`frames, runQueue, runQueue.repr
      ensures runQueue.repr == old(runQueue.repr)
      ensures next.None? <==> Step(m, event).None?
      ensures next.Some? ==> Inside(Step(m, event).value) && next.value == Step(m, event).value.queue[0]
    {
      hide Inside, SomeRunnable, ThreadMachine.Running, Blocks, Switch, Call, ThreadMachine.Block;
      match event {
        case Timer =>
          var first := HandleTimerInterrupt(m);
          next := Some(first);
        case External(console, input) =>
          if console {
            HandleConsoleInterrupt(input, m);
          }
          next := Some(tf);
        case SystemCall(env) =>
          next := HandleSystemCall(tf, env, m);
        case _ =>
          next := Some(tf);
      }
    }

    // ----- from user mode to user mode -----

    /**
      Entry: the hardware's part of the trap, then the trap vector up to
      the handler. Returns the interrupted frame.
     */
    method Enter(trapped: Cpu, ghost m: Machine) returns (tf: nat)
      requires Outside(m) && Trapped(hart.cpu, trapped)
      modifies hart
      ensures Inside(m) && tf == m.queue[0]
      ensures hart.cpu.x[4] == kernelTp && FromUser(hart.frames[tf].sstatus)
    {
      hide *;
      OpensUser(m);
      StateIs();
      ghost var v, c := State(), m.queue[0];
      EntryInKernel(v, hart.cpu, trapped, waiting, m);
      UserTrapped(hart.spaces, hart.cpu, trapped, hart.frames, c);
      hart.cpu := trapped;
      hart.EnterKernel(c);
      FrameFound(hart.spaces, hart.cpu, hart.frames, c);
      tf := hart.FrameAt(hart.cpu.x[10]);
      StateIs();
      Closes(m);
    }

    /** Exit: the trap vector from the handler's return on. */
    method Leave(next: nat, ghost m: Machine)
      requires Inside(m) && next == m.queue[0]
      modifies hart
      ensures Outside(m)
    {
      hide *;
      Opens(m);
      StateIs();
      ghost var v := State();
      QueueReady(v, waiting, m);
      FrameFound(hart.spaces, hart.cpu, hart.frames, next);
      hart.SetX(10, hart.spaces.frameAddr[next]);
      FrameFound(hart.spaces, hart.cpu, hart.frames, next);
      hart.ReturnToUser(next);
      ExitInUser(v, hart.cpu, waiting, m, hart.spaces.kernelSatp);
      StateIs();
      ClosesUser(m);
    }

    /** `start_scheduling`: picks the first thread and switches to it. */
    method StartScheduling()
      requires runQueue.Valid() && KernelMode(hart.spaces, hart.cpu, hart.frames) && hart.frames != []
      requires runQueue.Contents() == CreationOrder(|hart.frames|) && threads == CreatedThreads(|hart.frames|)
      requires buffer == "" && lines == [] && waiters == [] && waiting == []
      modifies hart, runQueue, runQueue.repr, this`currentPid, this`currentTid
      ensures runQueue.repr == old(runQueue.repr)
      ensures Outside(Booted(old(hart.frames)))
    {
      hide *;
      ghost var frames, m := hart.frames, Booted(hart.frames);
      BootedIs(frames);
      BootInKernel(hart.spaces, hart.cpu, frames, kernelSp, kernelTp);
      AllCanRun(|frames|);
      CreatedInOrder(|frames|);
      var next := Schedule();
      var first := next.value;
      KernelModeKept(hart.spaces, hart.cpu, frames, first, hart.frames[first]);
      NoWaits(waiters);
      StateIs();
      Closes(m);
      Leave(first, m);
    }

    /** The running thread computes until the next trap. */
    method UserStep(c: Context, ghost m: Machine)
      requires Outside(m) && m.queue != [] && m.queue[0] < |m.ctx| && c.x[0] == 0
      modifies hart`cpu
      ensures Outside(Compute(m, c))
    {
      hide *;
      OpensUser(m);
      ghost var v := State();
      StateIs();
      ComputeInUser(v, hart.spaces, hart.cpu, c, waiting, m);
      hart.cpu := hart.cpu.(x := c.x, f := c.f, pc := c.pc);
      StateIs();
      ClosesUser(Compute(m, c));
    }

    /**
      One trap, from user mode to user mode: the kernel does what the machine's step says, or is lost in the
      scheduler exactly when the machine has no step.
     */
    method Trap(event: Event, trapped: Cpu, ghost m: Machine) returns (hung: bool)
      requires Outside(m) && Trapped(hart.cpu, trapped)
      modifies this, hart, runQueue, runQueue.repr
      ensures m.queue != [] && m.queue[0] < |m.ctx| && SomeRunnable(m.queue, ThreadMachine.Running(|m.ctx|, m.blocked))
      ensures runQueue.repr == old(runQueue.repr)
      ensures hung <==> Step(m, event).None?
      ensures !hung ==> Outside(Step(m, event).value)
      ensures event.SystemCall? && !Waiting(old(hart.cpu.x), event.env, old(lines)) ==>
                && !hung && Returns(old(hart.cpu.x), hart.cpu.x, event.env, old(lines))
                && hart.cpu.pc == (old(hart.cpu.pc) + 4) % 0x1_0000_0000_0000_0000 && hart.cpu.f == old(hart.cpu.f)
                && lines == if ReadsLine(old(hart.cpu.x), event.env) then old(lines)[1..] else old(lines)
    {
      hide *;
      Shows(m);
      ShowsHead(m);
      if event.SystemCall? {
        CallAnswers(m, event.env);
      }
      var tf := Enter(trapped, m);
      Opens(m);
      QueueReady(State(), waiting, m);
      var next := HandleInterrupt(tf, event, m);
      if next.None? {
        return true;
      }
      Leave(next.value, Step(m, event).value);
      Shows(Step(m, event).value);
      ShowsHead(Step(m, event).value);
      return false;
    }

    /**
      Any number of traps, with whatever the running threads compute in between: the kernel goes where the
      machine goes, or is lost in the scheduler exactly when the machine's run ends early.
     */
    method Perform(actions: seq<Action>, causes: seq<Cause>, ghost m: Machine) returns (hung: bool)
      requires Outside(m) && |causes| == |actions|
      requires (forall i | 0 <= i < |actions| :: Allowed(actions[i]))
               && forall i | 0 <= i < |causes| :: FromUser(causes[i].sstatus)
      modifies this, hart, runQueue, runQueue.repr
      ensures runQueue.repr == old(runQueue.repr)
      ensures hung <==> Run(m, actions).None?
      ensures !hung ==> Outside(Run(m, actions).value.end)
    {
      hide *;
      Shows(m);
      ghost var n := m;
      for i := 0 to |actions|
        invariant runQueue.repr == old(runQueue.repr)
        invariant Outside(n) && Sound(n) && EndOf(n, actions, i) == EndOf(m, actions, 0)
      {
        FirstAction(n, actions, i);
        if actions[i].User? {
          UserStep(actions[i].c, n);
        } else {
          TrapTaken(hart.cpu, causes[i]);
          var lost := Trap(actions[i].e, Taken(hart.cpu, causes[i]), n);
          if lost {
            EndIs(m, actions);
            return true;
          }
        }
        n := Act(n, actions[i]).value;
      }
      LastAction(n, actions);
      EndIs(m, actions);
      return false;
    }

    /**
      What a run of the kernel keeps, in the kernel's own terms. The queue stays a rotation. The lines typed are
      those handed to readers and those still queued, in order. And thread `t`, while it never runs, keeps its
      registers; if it could run it still can, the kernel is not lost, and the scheduler was called at most once
      per queued thread.
     */
    method Serve(actions: seq<Action>, causes: seq<Cause>, ghost m: Machine, ghost t: nat) returns (hung: bool)
      requires Outside(m) && |causes| == |actions| && t < |threads|
      requires (forall i | 0 <= i < |actions| :: Allowed(actions[i]))
               && forall i | 0 <= i < |causes| :: FromUser(causes[i].sstatus)
      modifies this, hart, runQueue, runQueue.repr
      ensures runQueue.repr == old(runQueue.repr) && (hung <==> Run(m, actions).None?)
      ensures !hung ==> runQueue.Valid() && IsRotation(old(runQueue.Contents()), runQueue.Contents())
      ensures !hung ==>
                var r, completed := Run(m, actions).value, LinesOf(old(buffer), Run(m, actions).value.typed);
                old(lines) + completed.0 == r.delivered + lines && completed.1 == buffer
      ensures NeverRuns(m, actions, t) && !hung ==> t < |hart.frames| && Registers(t) == old(Registers(t))
      ensures NeverRuns(m, actions, t) && old(threads[t].state.Running?) ==>
                && !hung && t < |threads| && threads[t].state.Running?
                && Switches(m, actions) <= |old(runQueue.Contents())|
    {
      hide *;
      Shows(m);
      ShowsThread(m, t);
      Unrotated(m.queue);
      QueueStaysRotation(m, actions, m.queue);
      LinesConserved(m, actions);
      if NeverRuns(m, actions, t) {
        RegistersSurvive(m, actions, t);
        if threads[t].state.Running? {
          TurnComes(m, actions, t);
        }
      }
      hung := Perform(actions, causes, m);
      if !hung {
        Shows(Run(m, actions).value.end);
        if NeverRuns(m, actions, t) {
          ShowsThread(Run(m, actions).value.end, t);
        }
      }
    }

    /** A thread's registers: in the hart for the thread at the head of the queue, in its frame for any other. */
    ghost function Registers(t: nat): Context
      requires runQueue.Valid() && t < |hart.frames|
      reads this, hart, runQueue, runQueue.repr
    {
      var q := runQueue.Contents();
      if q != [] && q[0] == t then CpuContext(hart.cpu) else FrameContext(hart.frames[t])
    }

    lemma Shows(m: Machine)
      requires Outside(m)
      ensures Sound(m) && runQueue.Valid() && runQueue.Contents() == m.queue && lines == m.lines && buffer == m.buffer
      ensures |hart.frames| == |threads| == |m.ctx|
    {
    }

    /** The hart holds the registers of the thread at the head. */
    lemma ShowsHead(m: Machine)
      requires Outside(m)
      ensures m.queue != [] && m.queue[0] < |m.ctx|
      ensures var c := m.ctx[m.queue[0]]; hart.cpu.x == c.x && hart.cpu.f == c.f && hart.cpu.pc == c.pc
    {
    }

    lemma ShowsThread(m: Machine, t: nat)
      requires Outside(m) && t < |m.ctx|
      ensures runQueue.Valid() && |hart.frames| == |threads| == |m.ctx| && Registers(t) == m.ctx[t]
      ensures threads[t].state.Running? <==> t !in m.blocked
    {
    }
  }

  lemma Unrotated(q: seq<nat>)
    ensures IsRotation<nat>(q, q)
  {
    assert q == RotatedBy<nat>(q, 0);
  }

  /** What the hardware puts into its registers when it takes a trap. */
  datatype Cause = Cause(vector: Word, sstatus: Word, scause: Word, stval: Word)

  function Taken(cpu: Cpu, cause: Cause): Cpu {
    cpu.(sepc := cpu.pc, pc := cause.vector, sstatus := cause.sstatus, scause := cause.scause, stval := cause.stval)
  }

  lemma TrapTaken(cpu: Cpu, cause: Cause)
    requires FromUser(cause.sstatus)
    ensures Trapped(cpu, Taken(cpu, cause))
  {
  }

  /** Where the run of the actions from the `i`th on ends. */
  ghost function EndOf(m: Machine, actions: seq<Action>, i: nat): Option<Machine>
    requires Sound(m) && i <= |actions| && forall j | 0 <= j < |actions| :: Allowed(actions[j])
  {
    var r := Run(m, actions[i..]);
    if r.None? then None else Some(r.value.end)
  }

  lemma EndIs(m: Machine, actions: seq<Action>)
    requires Sound(m) && forall j | 0 <= j < |actions| :: Allowed(actions[j])
    ensures EndOf(m, actions, 0) == if Run(m, actions).None? then None else Some(Run(m, actions).value.end)
  {
    assert actions[0..] == actions;
  }

  lemma LastAction(m: Machine, actions: seq<Action>)
    requires Sound(m) && forall j | 0 <= j < |actions| :: Allowed(actions[j])
    ensures EndOf(m, actions, |actions|) == Some(m)
  {
    assert actions[|actions|..] == [];
  }

  lemma {:induction false} FirstAction(m: Machine, actions: seq<Action>, i: nat)
    requires Sound(m) && i < |actions| && forall j | 0 <= j < |actions| :: Allowed(actions[j])
    ensures m.queue != [] && m.queue[0] < |m.ctx| && SomeRunnable(m.queue, ThreadMachine.Running(|m.ctx|, m.blocked))
    ensures var a := actions[i];
            && (a.User? ==> a.c.x[0] == 0 && Act(m, a) == Some(Compute(m, a.c)))
            && (a.Trap? ==> Act(m, a) == Step(m, a.e))
    ensures if Act(m, actions[i]).None? then EndOf(m, actions, i) == None
            else Sound(Act(m, actions[i]).value)
                 && EndOf(m, actions, i) == EndOf(Act(m, actions[i]).value, actions, i + 1)
  {
    var rest := actions[i..];
    assert rest[0] == actions[i] && rest[1..] == actions[i + 1..];
    SoundCanRun(m);
    ActSound(m, actions[i]);
    assert Run(m, rest).None? ==> Act(m, rest[0]).None? || Run(Act(m, rest[0]).value, rest[1..]).None?;
    hide Sound, Step, Compute;
  }

  lemma ScheduleTurns(q: seq<nat>, runnable: set<nat>)
    requires SomeRunnable(q, runnable)
    ensures 0 < Turns(q, runnable) <= |q| && RotatedBy<nat>(q, 0) == q
    ensures Scheduled(q, runnable) == RotatedBy<nat>(q, Turns(q, runnable))
  {
  }

  /** The thread brought to the head by `j` rotations runs exactly when `schedule` stops there. */
  lemma {:induction false} RunsAt(q: seq<nat>, threads: seq<Thread>, j: nat)
    requires SomeRunnable(q, Runnable(threads)) && 1 <= j <= Turns(q, Runnable(threads))
    requires forall t | t in q :: t < |threads|
    ensures |RotatedBy<nat>(q, j)| > 0 && RotatedBy<nat>(q, j)[0] < |threads|
    ensures threads[RotatedBy<nat>(q, j)[0]].state.Running? <==> j == Turns(q, Runnable(threads))
  {
    assert RotatedBy<nat>(q, j)[0] in q;
    assert RotatedBy<nat>(q, j)[0] in Runnable(threads) <==> threads[RotatedBy<nat>(q, j)[0]].state.Running?;
  }

  lemma {:induction false} RotateOnce(q: seq<nat>, j: nat)
    requires j < |q|
    ensures RotatedBy<nat>(q, j) != [] && Rotated<nat>(RotatedBy<nat>(q, j)) == RotatedBy<nat>(q, j + 1)
  {
    var r := RotatedBy<nat>(q, j);
    assert r[1..] == q[j + 1..] + q[..j];
    assert q[..j] + [q[j]] == q[..j + 1];
  }
}
