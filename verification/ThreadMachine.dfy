/**
  What the thread subsystem is for, without its mechanism: threads that own their registers, take turns,
  and wait for console lines. `Threads.Kernel` is proved to behave like this machine.
 */
module ThreadMachine {
  import opened MachineWords
  import opened Traps
  import opened RunQueue

  const SYSCALLS: nat := 10
  const SYS_READ: nat := 3

  type Register = r: nat | r < 32

  /** Argument and result registers of a system call. */
  const A0: Register := 10
  const A2: Register := 12
  const A7: Register := 17

  /**
    What a system call meets outside the thread subsystem: whether a read is of the console, whether its
    buffer translates, and what any other handler returns (`None` for an error).
   */
  datatype CallEnv = CallEnv(onConsole: bool, bufferOk: bool, other: Option<Word>)

  /** Why a trap was taken from user mode. `input` is the character the UART holds, if any. */
  datatype Event = Software | Timer | External(console: bool, input: Option<char>) | SystemCall(env: CallEnv) | Unknown

  /** The thread at the head of `queue` runs; `blocked` threads wait for a line. */
  datatype Machine = Machine(ctx: seq<Context>, blocked: set<nat>, queue: seq<nat>, buffer: string, lines: seq<string>)

  function Running(n: nat, blocked: set<nat>): set<nat> {
    set i | 0 <= i < n && i !in blocked
  }

  ghost predicate Sound(m: Machine) {
    && m.queue != [] && Distinct(m.queue)
    && (forall t: nat :: t in m.queue <==> t < |m.ctx|)
    && (forall t | t in m.blocked :: t < |m.ctx|)
    && m.queue[0] !in m.blocked
    && (m.blocked != {} ==> m.lines == [])
    && forall t | 0 <= t < |m.ctx| :: m.ctx[t].x[0] == 0
  }

  /** The context of a thread whose system call completed: the result, if there is one, and the next instruction. */
  function Completed(c: Context, result: Option<Word>): Context {
    c.(pc := Wrap(c.pc + 4), x := if result.Some? then c.x[A0 := result.value] else c.x)
  }

  /** What a console read of `size` bytes returns for a line: the line and its terminator, cut to size. */
  function Delivered(line: string, size: Word): nat {
    if size < |line| + 1 then size else |line| + 1
  }

  function Switch(m: Machine): Machine
    requires SomeRunnable(m.queue, Running(|m.ctx|, m.blocked))
  {
    m.(queue := Scheduled(m.queue, Running(|m.ctx|, m.blocked)))
  }

  /** A console read with no line to give: the caller waits, and the call is not complete. */
  function Block(m: Machine): Machine
    requires m.queue != []
  {
    m.(blocked := m.blocked + {m.queue[0]})
  }

  function Finish(m: Machine, result: Option<Word>): Machine
    requires m.queue != [] && m.queue[0] < |m.ctx|
  {
    m.(ctx := m.ctx[m.queue[0] := Completed(m.ctx[m.queue[0]], result)])
  }

  /** The call takes a line from the console, or waits for one. */
  predicate Takes(id: Word, env: CallEnv) {
    id == SYS_READ && env.bufferOk && env.onConsole
  }

  /** What a call that does not block puts in the result register; an unknown call puts nothing there. */
  function Result(id: Word, size: Word, env: CallEnv, lines: seq<string>): Option<Word>
    requires Takes(id, env) ==> lines != []
  {
    if id >= SYSCALLS then None
    else if id == SYS_READ && !env.bufferOk then Some(U64 - 1)
    else if Takes(id, env) then Some(Delivered(lines[0], size))
    else Some(if env.other.Some? then env.other.value else U64 - 1)
  }

  /** The call blocks: a console read finds no line. */
  predicate Blocks(m: Machine, env: CallEnv)
    requires m.queue != [] && m.queue[0] < |m.ctx|
  {
    Takes(m.ctx[m.queue[0]].x[A7], env) && m.lines == []
  }

  function Call(m: Machine, env: CallEnv): Machine
    requires m.queue != [] && m.queue[0] < |m.ctx| && !Blocks(m, env)
  {
    var c := m.ctx[m.queue[0]];
    Finish(m, Result(c.x[A7], c.x[A2], env, m.lines)).(lines := if Takes(c.x[A7], env) then m.lines[1..] else m.lines)
  }

  /**
    What a call that does not block does to its caller's registers, `x` before and `y` after. The call number is
    in a7, the size of a read in a2, the result in a0: for the console the bytes of the line and its
    terminator, cut to size; minus one for a buffer that does not translate and for any other error; and
    nothing for an unknown number.
   */
  ghost predicate Returns(x: Regs, y: Regs, env: CallEnv, lines: seq<string>) {
    if x[17] >= 10 then y == x
    else if x[17] == 3 && !env.bufferOk then y == x[10 := 0xFFFF_FFFF_FFFF_FFFF]
    else if x[17] == 3 && env.onConsole then
      lines != [] && y == x[10 := if x[12] <= |lines[0]| then x[12] else |lines[0]| + 1]
    else y == x[10 := if env.other.Some? then env.other.value else 0xFFFF_FFFF_FFFF_FFFF]
  }

  /** A typed character extends the line; a carriage return completes it and wakes everyone. */
  function Type(m: Machine, c: char): Machine {
    if c == '\r' then m.(buffer := "", lines := m.lines + [m.buffer], blocked := {})
    else m.(buffer := m.buffer + [c])
  }

  /** One trap. `None` is the kernel looking for a thread to run for ever. */
  function Step(m: Machine, e: Event): Option<Machine>
    requires m.queue != [] && m.queue[0] < |m.ctx|
    requires SomeRunnable(m.queue, Running(|m.ctx|, m.blocked))
  {
    match e
    case Software => Some(m)
    case Unknown => Some(m)
    case Timer => Some(Switch(m))
    case External(console, input) => Some(if console && input.Some? then Type(m, input.value) else m)
    case SystemCall(env) =>
      if !Blocks(m, env) then Some(Call(m, env))
      else if SomeRunnable(m.queue, Running(|m.ctx|, Block(m).blocked)) then Some(Switch(Block(m)))
      else None
  }

  /** The running thread computes: its own registers change, no other's. */
  function Compute(m: Machine, c: Context): Machine
    requires m.queue != [] && m.queue[0] < |m.ctx|
  {
    m.(ctx := m.ctx[m.queue[0] := c])
  }

  // ----- what every step keeps -----

  lemma {:induction false} SoundCanRun(m: Machine)
    requires Sound(m)
    ensures m.queue[0] < |m.ctx| && SomeRunnable(m.queue, Running(|m.ctx|, m.blocked))
  {
    assert m.queue[0] in m.queue;
    assert m.queue[0] in Running(|m.ctx|, m.blocked);
  }

  lemma {:induction false} SwitchSound(m: Machine, blocked: set<nat>)
    requires Sound(m.(blocked := {})) && (blocked != {} ==> m.lines == []) && m.blocked == blocked
    requires forall t | t in blocked :: t < |m.ctx|
    requires SomeRunnable(m.queue, Running(|m.ctx|, blocked))
    ensures Sound(Switch(m))
  {
    var k := Turns(m.queue, Running(|m.ctx|, blocked));
    RotationKeeps(m.queue, k);
  }

  /** No lost wake-up, and all else that holds between traps: the invariant survives every step. */
  lemma {:induction false} StepSound(m: Machine, e: Event)
    requires Sound(m)
    ensures m.queue[0] < |m.ctx| && SomeRunnable(m.queue, Running(|m.ctx|, m.blocked))
    ensures Step(m, e).Some? ==> Sound(Step(m, e).value)
  {
    SoundCanRun(m);
    match e
    case Timer => SwitchSound(m, m.blocked);
    case SystemCall(env) =>
      if Blocks(m, env) && SomeRunnable(m.queue, Running(|m.ctx|, Block(m).blocked)) {
        SwitchSound(Block(m), Block(m).blocked);
      }
    case _ =>
  }

  /** The kernel is lost exactly when the last thread that can run asks for a line that is not there. */
  lemma {:induction false} HangsExactlyWhen(m: Machine, e: Event)
    requires Sound(m)
    ensures m.queue[0] < |m.ctx| && SomeRunnable(m.queue, Running(|m.ctx|, m.blocked))
    ensures Step(m, e).None? <==>
              e.SystemCall? && Blocks(m, e.env) && forall t | 0 <= t < |m.ctx| && t != m.queue[0] :: t in m.blocked
  {
    SoundCanRun(m);
    if e.SystemCall? && Blocks(m, e.env) {
      var runnable := Running(|m.ctx|, Block(m).blocked);
      if t :| 0 <= t < |m.ctx| && t != m.queue[0] && t !in m.blocked {
        assert t in m.queue && t in runnable;
        var k :| 0 <= k < |m.queue| && m.queue[k] == t;
        assert m.queue[k] in runnable;
      }
    }
  }

  /** It happens: the only thread there is asks for a line nobody has typed, and the kernel never comes back. */
  lemma {:induction false} LoneReaderHangs(c: Context, other: Option<Word>)
    requires c.x[0] == 0 && c.x[A7] == SYS_READ
    ensures var m := Machine([c], {}, [0], "", []);
            && Sound(m) && SomeRunnable(m.queue, Running(|m.ctx|, m.blocked))
            && Step(m, SystemCall(CallEnv(true, true, other))).None?
  {
    var m := Machine([c], {}, [0], "", []);
    assert forall t: nat :: t in m.queue <==> t < |m.ctx|;
    assert Sound(m);
    HangsExactlyWhen(m, SystemCall(CallEnv(true, true, other)));
  }

  /** A step leaves the queue alone or rotates it. */
  lemma {:induction false} StepRotates(m: Machine, e: Event, created: seq<nat>)
    requires Sound(m) && IsRotation(created, m.queue)
    ensures m.queue[0] < |m.ctx| && SomeRunnable(m.queue, Running(|m.ctx|, m.blocked))
    ensures Step(m, e).Some? ==> IsRotation(created, Step(m, e).value.queue)
  {
    SoundCanRun(m);
    if e.Timer? {
      ScheduledIsRotation(created, m.queue, Running(|m.ctx|, m.blocked));
    } else if e.SystemCall? && Blocks(m, e.env) && Step(m, e).Some? {
      ScheduledIsRotation(created, m.queue, Running(|m.ctx|, Block(m).blocked));
    }
  }

  /** A step changes no thread's registers but the caller's, and the caller's only when its call completes. */
  lemma {:induction false} StepKeepsContexts(m: Machine, e: Event, t: nat)
    requires Sound(m) && t < |m.ctx|
    ensures m.queue[0] < |m.ctx| && SomeRunnable(m.queue, Running(|m.ctx|, m.blocked))
    ensures Step(m, e).Some? ==>
              var r := Step(m, e).value;
              && |r.ctx| == |m.ctx|
              && (r.ctx[t] == m.ctx[t]
                  || (t == m.queue[0] && e.SystemCall? && !Blocks(m, e.env)
                      && exists v :: r.ctx[t] == Completed(m.ctx[t], v)))
  {
    SoundCanRun(m);
  }

  /** The call reads a line of the console. */
  ghost predicate ReadsLine(x: Regs, env: CallEnv) {
    x[17] == 3 && env.bufferOk && env.onConsole
  }

  /** The caller waits: it reads the console, into a good buffer, and no line is there. */
  ghost predicate Waiting(x: Regs, env: CallEnv, lines: seq<string>) {
    ReadsLine(x, env) && lines == []
  }

  /**
    A system call that does not wait answers its caller, takes the line it read off the queue, resumes four bytes
    on and changes nothing else. One that waits blocks the caller and changes no thread's registers.
   */
  lemma {:induction false} CallAnswers(m: Machine, env: CallEnv)
    requires Sound(m)
    ensures m.queue[0] < |m.ctx| && SomeRunnable(m.queue, Running(|m.ctx|, m.blocked))
    ensures var c, r := m.ctx[m.queue[0]], Step(m, SystemCall(env));
            if Waiting(c.x, env, m.lines) then
              r.Some? ==> r.value == m.(blocked := m.blocked + {m.queue[0]}, queue := r.value.queue)
            else
              && r.Some? && r.value == m.(ctx := r.value.ctx, lines := r.value.lines) && |r.value.ctx| == |m.ctx|
              && r.value.lines == (if ReadsLine(c.x, env) then m.lines[1..] else m.lines)
              && r.value.ctx == m.ctx[m.queue[0] := r.value.ctx[m.queue[0]]]
              && var d := r.value.ctx[m.queue[0]];
                 Returns(c.x, d.x, env, m.lines) && d.f == c.f && d.pc == (c.pc + 4) % 0x1_0000_0000_0000_0000
  {
    SoundCanRun(m);
    hide Scheduled, SomeRunnable, Running;
  }

  // ----- whole runs -----

  /** Between traps the running thread computes; a trap is one atomic step. */
  datatype Action = User(c: Context) | Trap(e: Event)

  /** A run: where it ends, the characters typed, and the lines handed to readers. */
  datatype Trace = Trace(end: Machine, typed: string, delivered: seq<string>)

  function TypedBy(a: Action): string {
    if a.Trap? && a.e.External? && a.e.console && a.e.input.Some? then [a.e.input.value] else ""
  }

  function DeliveredBy(m: Machine, a: Action): seq<string>
    requires m.queue != [] && m.queue[0] < |m.ctx|
  {
    if a.Trap? && a.e.SystemCall? && m.lines != [] && Takes(m.ctx[m.queue[0]].x[A7], a.e.env) then [m.lines[0]]
    else []
  }

  /** What a thread may leave in its registers: anything, except that the zero register stays zero. */
  predicate Allowed(a: Action) {
    a.User? ==> a.c.x[0] == 0
  }

  ghost function Act(m: Machine, a: Action): Option<Machine>
    requires Sound(m)
  {
    SoundCanRun(m);
    match a
    case User(c) => Some(Compute(m, c))
    case Trap(e) => Step(m, e)
  }

  lemma {:induction false} ActSound(m: Machine, a: Action)
    requires Sound(m) && Allowed(a)
    ensures Act(m, a).Some? ==> Sound(Act(m, a).value)
  {
    SoundCanRun(m);
    if a.Trap? {
      StepSound(m, a.e);
    }
  }

  /** The run of `actions` from `m`, or `None` if the kernel is lost on the way. */
  ghost function Run(m: Machine, actions: seq<Action>): (r: Option<Trace>)
    requires Sound(m) && forall i | 0 <= i < |actions| :: Allowed(actions[i])
    ensures r.Some? ==> Sound(r.value.end)
    decreases |actions|
  {
    if actions == [] then Some(Trace(m, "", []))
    else
      SoundCanRun(m);
      ActSound(m, actions[0]);
      var next := Act(m, actions[0]);
      if next.None? then None
      else
        var rest := Run(next.value, actions[1..]);
        if rest.None? then None
        else Some(Trace(rest.value.end, TypedBy(actions[0]) + rest.value.typed,
                        DeliveredBy(m, actions[0]) + rest.value.delivered))
  }

  /** The lines completed by typing `text` when `buffer` is already there, and what is left in the buffer. */
  function LinesOf(buffer: string, text: string): (seq<string>, string)
    decreases |text|
  {
    if text == "" then ([], buffer)
    else if text[0] == '\r' then
      var (lines, rest) := LinesOf("", text[1..]);
      ([buffer] + lines, rest)
    else LinesOf(buffer + [text[0]], text[1..])
  }

  /**
    Over every run the lines typed are exactly the lines handed to readers followed by those still
    queued, in the order they were typed: none is lost, repeated or reordered.
   */
  lemma {:induction false} LinesConserved(m: Machine, actions: seq<Action>)
    requires Sound(m) && forall i | 0 <= i < |actions| :: Allowed(actions[i])
    ensures var r := Run(m, actions);
            r.Some? ==>
              && m.lines + LinesOf(m.buffer, r.value.typed).0 == r.value.delivered + r.value.end.lines
              && LinesOf(m.buffer, r.value.typed).1 == r.value.end.buffer
    decreases |actions|
  {
    if actions != [] && Run(m, actions).Some? {
      RunStep(m, actions);
      hide *;
      var n, a := Act(m, actions[0]).value, actions[0];
      var r := Run(n, actions[1..]).value;
      LinesConserved(n, actions[1..]);
      OneActionConserves(m, a, r.typed);
      assert m.lines + LinesOf(m.buffer, TypedBy(a) + r.typed).0 == DeliveredBy(m, a) + (r.delivered + r.end.lines);
      assert DeliveredBy(m, a) + (r.delivered + r.end.lines) == (DeliveredBy(m, a) + r.delivered) + r.end.lines;
    }
  }

  lemma {:induction false} RunStep(m: Machine, actions: seq<Action>)
    requires Sound(m) && actions != [] && forall i | 0 <= i < |actions| :: Allowed(actions[i])
    requires Run(m, actions).Some?
    ensures m.queue != [] && m.queue[0] < |m.ctx| && Act(m, actions[0]).Some? && Sound(Act(m, actions[0]).value)
    ensures var r := Run(Act(m, actions[0]).value, actions[1..]);
            && r.Some?
            && Run(m, actions) == Some(Trace(r.value.end, TypedBy(actions[0]) + r.value.typed,
                                             DeliveredBy(m, actions[0]) + r.value.delivered))
  {
    SoundCanRun(m);
    ActSound(m, actions[0]);
    hide Sound, Act, TypedBy, DeliveredBy;
  }

  lemma {:induction false} OneActionConserves(m: Machine, a: Action, typed: string)
    requires Sound(m) && Act(m, a).Some?
    ensures m.queue[0] < |m.ctx|
    ensures var n := Act(m, a).value;
            && m.lines + LinesOf(m.buffer, TypedBy(a) + typed).0
               == DeliveredBy(m, a) + (n.lines + LinesOf(n.buffer, typed).0)
            && LinesOf(m.buffer, TypedBy(a) + typed).1 == LinesOf(n.buffer, typed).1
  {
    SoundCanRun(m);
    var n := Act(m, a).value;
    if TypedBy(a) != "" {
      var text := TypedBy(a) + typed;
      assert text[0] == a.e.input.value && text[1..] == typed;
      if a.e.input.value == '\r' {
        var rest := LinesOf("", typed);
        assert LinesOf(m.buffer, text) == ([m.buffer] + rest.0, rest.1);
        assert m.lines + ([m.buffer] + rest.0) == (m.lines + [m.buffer]) + rest.0;
      }
    } else {
      assert TypedBy(a) + typed == typed;
      assert n.buffer == m.buffer;
      assert m.lines == DeliveredBy(m, a) + n.lines;
    }
  }

  /** Lines put together again, each with its carriage return. */
  function Joined(lines: seq<string>): string {
    if lines == [] then "" else lines[0] + "\r" + Joined(lines[1..])
  }

  /** Typed text is cut at its carriage returns and nowhere else, and nothing of it is lost. */
  lemma {:induction false} LinesJoin(buffer: string, text: string)
    requires '\r' !in buffer
    ensures var r := LinesOf(buffer, text);
            && Joined(r.0) + r.1 == buffer + text
            && '\r' !in r.1 && forall i | 0 <= i < |r.0| :: '\r' !in r.0[i]
    decreases |text|
  {
    if text != "" {
      if text[0] == '\r' {
        LinesJoin("", text[1..]);
        var rest := LinesOf("", text[1..]);
        assert ([buffer] + rest.0)[1..] == rest.0;
        assert buffer + "\r" + Joined(rest.0) + rest.1 == buffer + ("\r" + (Joined(rest.0) + rest.1));
        assert "\r" + text[1..] == text;
      } else {
        LinesJoin(buffer + [text[0]], text[1..]);
        assert buffer + [text[0]] + text[1..] == buffer + text;
      }
    }
  }

  /** Thread `t` is not the running one before any of the actions. */
  ghost predicate NeverRuns(m: Machine, actions: seq<Action>, t: nat)
    requires Sound(m) && forall i | 0 <= i < |actions| :: Allowed(actions[i])
    decreases |actions|
  {
    actions != [] ==>
      && m.queue[0] != t
      && (ActSound(m, actions[0]); Act(m, actions[0]).Some? ==> NeverRuns(Act(m, actions[0]).value, actions[1..], t))
  }

  /** A thread gets back exactly the registers it was interrupted with, however long the others run in between. */
  lemma {:induction false} RegistersSurvive(m: Machine, actions: seq<Action>, t: nat)
    requires Sound(m) && t < |m.ctx| && forall i | 0 <= i < |actions| :: Allowed(actions[i])
    requires NeverRuns(m, actions, t)
    ensures Run(m, actions).Some? ==>
              |Run(m, actions).value.end.ctx| == |m.ctx| && Run(m, actions).value.end.ctx[t] == m.ctx[t]
    decreases |actions|
  {
    if actions != [] {
      SoundCanRun(m);
      ActSound(m, actions[0]);
      if actions[0].Trap? {
        StepKeepsContexts(m, actions[0].e, t);
      }
      if Act(m, actions[0]).Some? {
        RegistersSurvive(Act(m, actions[0]).value, actions[1..], t);
      }
    }
  }

  // ----- taking turns -----

  /** Over every run the queue stays a rotation of the order the threads were created in. */
  lemma {:induction false} QueueStaysRotation(m: Machine, actions: seq<Action>, created: seq<nat>)
    requires Sound(m) && forall i | 0 <= i < |actions| :: Allowed(actions[i])
    requires IsRotation(created, m.queue)
    ensures Run(m, actions).Some? ==> IsRotation(created, Run(m, actions).value.end.queue)
    decreases |actions|
  {
    if actions != [] {
      hide IsRotation, Sound, Step;
      SoundCanRun(m);
      ActSound(m, actions[0]);
      if actions[0].Trap? {
        StepRotates(m, actions[0].e, created);
      }
      if Act(m, actions[0]).Some? {
        QueueStaysRotation(Act(m, actions[0]).value, actions[1..], created);
      }
    }
  }

  /** The action calls `schedule`: a timer interrupt, or a read that blocks. */
  predicate Schedules(m: Machine, a: Action)
    requires m.queue != [] && m.queue[0] < |m.ctx|
  {
    a.Trap? && (a.e.Timer? || (a.e.SystemCall? && Blocks(m, a.e.env)))
  }

  /** How often a run calls `schedule`. */
  ghost function Switches(m: Machine, actions: seq<Action>): nat
    requires Sound(m) && forall i | 0 <= i < |actions| :: Allowed(actions[i])
    decreases |actions|
  {
    if actions == [] then 0
    else
      SoundCanRun(m);
      ActSound(m, actions[0]);
      var next := Act(m, actions[0]);
      (if Schedules(m, actions[0]) then 1 else 0) + if next.None? then 0 else Switches(next.value, actions[1..])
  }

  lemma {:induction false} SwitchApproaches(m: Machine, blocked: set<nat>, t: nat)
    requires Sound(m) && t < |m.ctx| && t !in blocked
    ensures SomeRunnable(m.queue, Running(|m.ctx|, blocked)) && t in m.queue
    ensures var q := Scheduled(m.queue, Running(|m.ctx|, blocked));
            t in q && |q| == |m.queue| && q != [] && (q[0] == t || Wait(q, t) < Wait(m.queue, t))
  {
    assert t in Running(|m.ctx|, blocked);
    ScheduleApproaches(m.queue, Running(|m.ctx|, blocked), t);
  }

  /** What one action does for a waiting thread: a switch brings it closer, nothing moves it back or blocks it. */
  lemma {:induction false} ActionApproaches(m: Machine, a: Action, t: nat)
    requires Sound(m) && Allowed(a) && t < |m.ctx| && t !in m.blocked && m.queue[0] != t
    ensures m.queue[0] < |m.ctx| && t in m.queue && Act(m, a).Some?
    ensures var n := Act(m, a).value;
            && Sound(n) && t !in n.blocked && |n.ctx| == |m.ctx| && t in n.queue && |n.queue| == |m.queue|
            && if Schedules(m, a) then n.queue[0] == t || Wait(n.queue, t) < Wait(m.queue, t) else n.queue == m.queue
  {
    hide Scheduled, Wait, Turns;
    SoundCanRun(m);
    ActSound(m, a);
    SwitchApproaches(m, m.blocked, t);
    if a.Trap? {
      HangsExactlyWhen(m, a.e);
      SwitchApproaches(m, Block(m).blocked, t);
    }
  }

  /**
    Bounded waiting over every run: while a thread that can run has not had its turn, the kernel is not
    lost, the thread stays able to run, and `schedule` is called at most once per queued thread.
   */
  lemma {:induction false} TurnComes(m: Machine, actions: seq<Action>, t: nat)
    requires Sound(m) && t < |m.ctx| && t !in m.blocked && forall i | 0 <= i < |actions| :: Allowed(actions[i])
    requires NeverRuns(m, actions, t)
    ensures t in m.queue && Switches(m, actions) <= Wait(m.queue, t) <= |m.queue|
    ensures Run(m, actions).Some? && t !in Run(m, actions).value.end.blocked
    decreases |actions|
  {
    hide Sound, Act, Wait, Schedules;
    InQueue(m, t);
    if actions != [] {
      ActionApproaches(m, actions[0], t);
      var n := Act(m, actions[0]).value;
      TurnComes(n, actions[1..], t);
    }
  }

  lemma InQueue(m: Machine, t: nat)
    requires Sound(m) && t < |m.ctx|
    ensures t in m.queue && m.queue != [] && m.queue[0] < |m.ctx|
  {
    SoundCanRun(m);
  }
}
