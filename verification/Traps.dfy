/**
  Trap entry and exit: saving and restoring a thread's registers through its trap frame while the
  address space changes underneath.

  One frame belongs to each thread. The kernel address space knows it at its real address, the thread's
  own address space only at the alias `0x1000`. A frame's dual slot holds the kernel SATP while its
  thread runs and the thread's own SATP while it does not.
 */
module Traps {
  import opened MachineWords

  const ALIAS: Word := 0x1000

  type Regs = r: seq<Word> | |r| == 32 witness seq(32, _ => 0)

  /** The registers of the hart; `x` are the integer registers, `f` the floating-point ones. */
  datatype Cpu = Cpu(x: Regs, f: Regs, pc: Word, sepc: Word, sstatus: Word, scause: Word, stval: Word,
                     satp: Word, sscratch: Word)

  datatype Frame = Frame(regs: Regs, fregs: Regs, sepc: Word, sstatus: Word, scause: Word, stval: Word,
                         dualSatp: Word, kernelSp: Word, kernelTp: Word, kernelAddr: Word)

  /** Address spaces: the kernel's, each thread's, and the real address of each thread's frame. */
  datatype Spaces = Spaces(kernelSatp: Word, userSatp: seq<Word>, frameAddr: seq<Word>) {
    ghost predicate Valid() {
      && |userSatp| == |frameAddr|
      && (forall i | 0 <= i < |userSatp| :: userSatp[i] != kernelSatp)
      && (forall i, j | 0 <= i < j < |userSatp| :: userSatp[i] != userSatp[j])
      && (forall i, j | 0 <= i < j < |frameAddr| :: frameAddr[i] != frameAddr[j])
    }

    /** Address `a` denotes thread `i`'s frame under the page table `satp`. */
    ghost predicate Denotes(satp: Word, a: Word, i: nat) {
      && i < |userSatp| && |userSatp| == |frameAddr|
      && ((satp == kernelSatp && a == frameAddr[i]) || (satp == userSatp[i] && a == ALIAS))
    }
  }

  /** What a thread computes with. */
  datatype Context = Context(x: Regs, f: Regs, pc: Word)

  function CpuContext(c: Cpu): Context {
    Context(c.x, c.f, c.pc)
  }

  function FrameContext(t: Frame): Context {
    Context(t.regs, t.fregs, t.sepc)
  }

  /** SPP, bit 8 of `sstatus`, is clear: a trap came from user mode, and `sret` goes there. */
  predicate FromUser(sstatus: Word) {
    sstatus / 256 % 2 == 0
  }

  /** It is the bit above the low eight. */
  lemma FromUserIs(low: nat, spp: bool, high: nat, sstatus: Word)
    requires low < 0x100 && sstatus == low + (if spp then 0x100 else 0) + 0x200 * high
    ensures FromUser(sstatus) <==> !spp
  {
    assert sstatus / 0x100 == (if spp then 1 else 0) + 2 * high;
  }

  /** The page in which every thread finds its frame is page 1; the kernel finds it where it is. */
  lemma FrameIsFoundAt(s: Spaces, i: nat, satp: Word, a: Word)
    requires s.Valid() && i < |s.userSatp|
    ensures s.Denotes(s.userSatp[i], a, i) <==> a == 0x1000
    ensures s.Denotes(s.kernelSatp, a, i) <==> a == s.frameAddr[i]
    ensures satp != s.kernelSatp && satp != s.userSatp[i] ==> !s.Denotes(satp, a, i)
  {
  }

  /** What every frame keeps: its real address, a zero in the slot of the zero register, and SPP clear. */
  ghost predicate FramesOk(s: Spaces, frames: seq<Frame>) {
    && s.Valid() && |frames| == |s.userSatp|
    && forall i | 0 <= i < |frames| ::
         frames[i].kernelAddr == s.frameAddr[i] && frames[i].regs[0] == 0 && FromUser(frames[i].sstatus)
  }

  /** Thread `c` runs, in user mode: that is where the `sret` with this `sstatus` went. */
  ghost predicate UserMode(s: Spaces, cpu: Cpu, frames: seq<Frame>, c: nat) {
    && FramesOk(s, frames) && c < |frames| && FromUser(cpu.sstatus)
    && cpu.satp == s.userSatp[c] && cpu.sscratch == ALIAS && cpu.x[0] == 0
    && frames[c].dualSatp == s.kernelSatp
    && forall i | 0 <= i < |frames| && i != c :: frames[i].dualSatp == s.userSatp[i]
  }

  /** The kernel runs: on its own page table, with every thread's SATP in that thread's frame. */
  ghost predicate KernelMode(s: Spaces, cpu: Cpu, frames: seq<Frame>) {
    && FramesOk(s, frames)
    && cpu.satp == s.kernelSatp && cpu.x[0] == 0
    && forall i | 0 <= i < |frames| :: frames[i].dualSatp == s.userSatp[i]
  }

  /** What the hardware does when a trap is taken from user mode. */
  ghost predicate Trapped(before: Cpu, after: Cpu) {
    && after == before.(sepc := before.pc, pc := after.pc, sstatus := after.sstatus, scause := after.scause,
                        stval := after.stval)
    && FromUser(after.sstatus)
  }

  /** The frame that trap entry leaves behind for a thread interrupted at `cpu`. */
  function SavedFrame(cpu: Cpu, t: Frame): Frame {
    t.(regs := cpu.x, fregs := cpu.f, sepc := cpu.sepc, sstatus := cpu.sstatus, scause := cpu.scause,
       stval := cpu.stval, dualSatp := cpu.satp)
  }

  /** The `sstatus` a thread starts with: SPIE, FS initial and SUM, which are bits 5, 13 and 18. */
  const INITIAL_STATUS: Word := 0x4_2020

  const STACK_ADDRESS: Word := 0xf000_0000

  /** The frame `initialize_thread` makes: zeroed but for the start, the stack and what a switch needs. */
  function InitialFrame(start: Word, satp: Word, address: Word): Frame {
    var zeros: Regs := seq(32, _ => 0);
    Frame(zeros[2 := STACK_ADDRESS], zeros, start, INITIAL_STATUS, 0, 0, satp, 0, 0, address)
  }

  /**
    A new thread starts at the given address with every register zero but the stack pointer, which is at the
    top of its stack, in user mode with interrupts, its floating-point unit and user memory enabled.
   */
  lemma {:induction false} FreshThread(start: Word, satp: Word, address: Word)
    ensures var c := FrameContext(InitialFrame(start, satp, address));
            && c.pc == start && c.x[2] == 0xf000_0000
            && forall r | 0 <= r < 32 :: (r != 2 ==> c.x[r] == 0) && c.f[r] == 0
    ensures var t := InitialFrame(start, satp, address);
            && t.sstatus / 0x20 % 2 == 1 && t.sstatus / 0x100 % 2 == 0 && t.sstatus / 0x2000 % 4 == 1
            && t.sstatus / 0x4_0000 % 2 == 1 && t.dualSatp == satp && t.kernelAddr == address
            && t.scause == t.stval == t.kernelSp == t.kernelTp == 0
  {
    assert FrameContext(InitialFrame(start, satp, address)).x == seq(32, _ => 0)[2 := STACK_ADDRESS];
  }

  /** Freshly made frames are what the kernel needs between traps. */
  lemma InitialFramesReady(s: Spaces, cpu: Cpu, starts: seq<Word>, frames: seq<Frame>)
    requires s.Valid() && |frames| == |starts| == |s.userSatp| && cpu.satp == s.kernelSatp && cpu.x[0] == 0
    requires forall i | 0 <= i < |frames| :: frames[i] == InitialFrame(starts[i], s.userSatp[i], s.frameAddr[i])
    ensures KernelMode(s, cpu, frames)
  {
    assert FromUser(INITIAL_STATUS);
  }

  class Hart {
    const spaces: Spaces
    var cpu: Cpu
    var frames: seq<Frame>

    constructor (spaces: Spaces, cpu: Cpu, frames: seq<Frame>)
      ensures this.spaces == spaces && this.cpu == cpu && this.frames == frames
    {
      this.spaces, this.cpu, this.frames := spaces, cpu, frames;
    }

    /** The frame behind a base register, looked up through the current page table. */
    method FrameAt(base: Word) returns (i: nat)
      requires spaces.Valid() && |frames| == |spaces.userSatp|
      requires exists k: nat :: spaces.Denotes(cpu.satp, base, k)
      ensures i < |frames| && spaces.Denotes(cpu.satp, base, i)
    {
      i := 0;
      ghost var k: nat :| spaces.Denotes(cpu.satp, base, k);
      while !((cpu.satp == spaces.kernelSatp && base == spaces.frameAddr[i])
              || (cpu.satp == spaces.userSatp[i] && base == ALIAS))
        invariant i <= k
        decreases k - i
      {
        i := i + 1;
      }
    }

    method SetX(r: nat, value: Word)
      requires 0 < r < 32
      modifies this`cpu
      ensures cpu == old(cpu).(x := old(cpu.x)[r := value])
    {
      cpu := cpu.(x := cpu.x[r := value]);
    }

    /** Overwrites the frame at index `tf`: a store through a base register. */
    method StoreFrame(tf: nat, t: Frame)
      requires tf < |frames|
      modifies this`frames
      ensures frames == old(frames)[tf := t]
    {
      frames := frames[tf := t];
    }

    /** `m_trap_vector` up to the call of the handler. */
    method EnterKernel(ghost c: nat)
      requires UserMode(spaces, cpu, frames, c)
      modifies this
      ensures KernelMode(spaces, cpu, frames)
      ensures frames == old(frames)[c := SavedFrame(old(cpu), old(frames)[c])]
      ensures cpu.x[10] == spaces.frameAddr[c] && cpu.x[2] == frames[c].kernelSp && cpu.x[4] == frames[c].kernelTp
    {
      SaveRegisters(c);
      SaveCsrs(c);
      SwitchIn(c);
    }

    /**
      Steps 1 and 2 up to the CSRs: `t6` and `sscratch` change places and
      the registers go to the frame at the alias.
     */
    method SaveRegisters(ghost c: nat)
      requires spaces.Valid() && |frames| == |spaces.userSatp| && c < |frames|
      requires cpu.satp == spaces.userSatp[c] && cpu.sscratch == ALIAS
      modifies this
      ensures cpu == old(cpu).(sscratch := old(cpu.x)[31], x := old(cpu.x)[31 := ALIAS][5 := old(cpu.x)[31]])
      ensures frames == old(frames)[c := old(frames)[c].(regs := old(cpu.x), fregs := old(cpu.f))]
    {
      ghost var was, others, t := cpu, frames, frames[c];
      cpu := cpu.(x := cpu.x[31 := cpu.sscratch], sscratch := cpu.x[31]);
      assert spaces.Denotes(cpu.satp, cpu.x[31], c);
      var tf := FrameAt(cpu.x[31]);
      ghost var now := cpu;
      for i := 0 to 31
        invariant cpu == now && |frames| == |others| && frames == others[c := t.(regs := frames[c].regs)]
        invariant forall k | 0 <= k < i :: frames[c].regs[k] == was.x[k]
      {
        StoreFrame(tf, frames[tf].(regs := frames[tf].regs[i := cpu.x[i]]));
      }
      SetX(5, cpu.sscratch);
      StoreFrame(tf, frames[tf].(regs := frames[tf].regs[31 := cpu.x[5]]));
      assert frames[c].regs == was.x;
      now := cpu;
      for i := 0 to 32
        invariant cpu == now && |frames| == |others|
                  && frames == others[c := t.(regs := was.x, fregs := frames[c].fregs)]
        invariant forall k | 0 <= k < i :: frames[c].fregs[k] == was.f[k]
      {
        StoreFrame(tf, frames[tf].(fregs := frames[tf].fregs[i := cpu.f[i]]));
      }
      assert frames[c].fregs == was.f;
    }

    /** The rest of step 2. */
    method SaveCsrs(ghost c: nat)
      requires spaces.Valid() && |frames| == |spaces.userSatp| && c < |frames|
      requires cpu.satp == spaces.userSatp[c] && cpu.x[31] == ALIAS
      modifies this
      ensures frames == old(frames)[c := old(frames)[c].(sepc := cpu.sepc, sstatus := cpu.sstatus,
                scause := cpu.scause, stval := cpu.stval)]
      ensures cpu == old(cpu).(x := cpu.x) && cpu.x[31] == old(cpu.x)[31] && cpu.x[0] == old(cpu.x)[0]
    {
      ghost var was := cpu;
      assert spaces.Denotes(cpu.satp, cpu.x[31], c);
      var tf := FrameAt(cpu.x[31]);
      SetX(5, cpu.sepc);
      StoreFrame(tf, frames[tf].(sepc := cpu.x[5]));
      SetX(6, cpu.sstatus);
      StoreFrame(tf, frames[tf].(sstatus := cpu.x[6]));
      SetX(7, cpu.scause);
      StoreFrame(tf, frames[tf].(scause := cpu.x[7]));
      SetX(28, cpu.stval);
      StoreFrame(tf, frames[tf].(stval := cpu.x[28]));
    }

    /** Steps 3 to 7: the SATPs change places, and the base pointer becomes the real address before it is used again. */
    method SwitchIn(ghost c: nat)
      requires spaces.Valid() && |frames| == |spaces.userSatp| && c < |frames|
      requires cpu.satp == spaces.userSatp[c] && cpu.x[31] == ALIAS
      requires frames[c].dualSatp == spaces.kernelSatp && frames[c].kernelAddr == spaces.frameAddr[c]
      modifies this
      ensures frames == old(frames)[c := old(frames)[c].(dualSatp := spaces.userSatp[c])]
      ensures cpu.satp == spaces.kernelSatp && cpu.x[0] == old(cpu.x)[0]
      ensures cpu.x[10] == spaces.frameAddr[c] && cpu.x[2] == frames[c].kernelSp && cpu.x[4] == frames[c].kernelTp
    {
      assert spaces.Denotes(cpu.satp, cpu.x[31], c);
      var tf := FrameAt(cpu.x[31]);
      SetX(7, frames[tf].kernelAddr);
      SetX(29, frames[tf].dualSatp);
      SetX(30, cpu.satp);
      StoreFrame(tf, frames[tf].(dualSatp := cpu.x[30]));
      if cpu.x[29] != cpu.x[30] {
        cpu := cpu.(satp := cpu.x[29]);
      }
      SetX(31, cpu.x[7]);
      assert spaces.Denotes(cpu.satp, cpu.x[31], c);
      tf := FrameAt(cpu.x[31]);
      SetX(2, frames[tf].kernelSp);
      SetX(4, frames[tf].kernelTp);
      SetX(10, cpu.x[31]);
    }

    /**
      `m_trap_vector` from the return of the handler on, and `switch_to_user`:
      resumes the thread whose frame `a0` points to.
     */
    method ReturnToUser(ghost j: nat)
      requires KernelMode(spaces, cpu, frames) && j < |frames| && cpu.x[10] == spaces.frameAddr[j]
      modifies this
      ensures UserMode(spaces, cpu, frames, j)
      ensures CpuContext(cpu) == FrameContext(frames[j])
      ensures frames == old(frames)[j := old(frames)[j].(dualSatp := spaces.kernelSatp)]
    {
      SwitchOut(j);
      RestoreRegisters(j);
    }

    /** Steps 8 to 10: the CSRs, the SATPs, and the base pointer forced to the alias. */
    method SwitchOut(ghost j: nat)
      requires spaces.Valid() && |frames| == |spaces.userSatp| && j < |frames|
      requires cpu.satp == spaces.kernelSatp && cpu.x[10] == spaces.frameAddr[j]
               && frames[j].dualSatp == spaces.userSatp[j]
      modifies this
      ensures frames == old(frames)[j := old(frames)[j].(dualSatp := spaces.kernelSatp)]
      ensures cpu.satp == spaces.userSatp[j] && cpu.x[31] == ALIAS && cpu.x[0] == old(cpu.x)[0]
      ensures cpu.sepc == frames[j].sepc && cpu.sstatus == frames[j].sstatus
    {
      SetX(31, cpu.x[10]);
      assert spaces.Denotes(cpu.satp, cpu.x[31], j);
      var tf := FrameAt(cpu.x[31]);
      SetX(5, frames[tf].sepc);
      cpu := cpu.(sepc := cpu.x[5]);
      SetX(6, frames[tf].sstatus);
      cpu := cpu.(sstatus := cpu.x[6]);
      SetX(29, frames[tf].dualSatp);
      SetX(30, cpu.satp);
      StoreFrame(tf, frames[tf].(dualSatp := cpu.x[30]));
      cpu := cpu.(satp := cpu.x[29]);
      SetX(31, ALIAS);
    }

    /** Step 11: every register is reloaded through the alias, `t0` and `t6` last, and the thread resumes at `sepc`. */
    method RestoreRegisters(ghost j: nat)
      requires spaces.Valid() && |frames| == |spaces.userSatp| && j < |frames|
      requires cpu.satp == spaces.userSatp[j] && cpu.x[31] == ALIAS && cpu.x[0] == frames[j].regs[0]
      modifies this`cpu
      ensures cpu.satp == old(cpu.satp) && cpu.sstatus == old(cpu.sstatus) && cpu.sscratch == ALIAS
      ensures CpuContext(cpu) == Context(frames[j].regs, frames[j].fregs, old(cpu.sepc))
    {
      ghost var was, t := cpu, frames[j];
      assert spaces.Denotes(cpu.satp, cpu.x[31], j);
      var tf := FrameAt(cpu.x[31]);
      for i := 0 to 32
        invariant cpu == was.(f := cpu.f) && forall k | 0 <= k < i :: cpu.f[k] == t.fregs[k]
      {
        cpu := cpu.(f := cpu.f[i := frames[tf].fregs[i]]);
      }
      assert cpu.f == t.fregs;
      for i := 1 to 31
        invariant cpu == was.(f := t.fregs, x := cpu.x) && cpu.x[31] == ALIAS && cpu.x[0] == t.regs[0]
        invariant forall k | 1 <= k < i && k != 5 :: cpu.x[k] == t.regs[k]
      {
        if i != 5 {
          SetX(i, frames[tf].regs[i]);
        }
      }
      SetX(5, frames[tf].regs[31]);
      cpu := cpu.(sscratch := cpu.x[5]);
      SetX(5, frames[tf].regs[5]);
      cpu := cpu.(x := cpu.x[31 := cpu.sscratch], sscratch := cpu.x[31]);
      cpu := cpu.(pc := cpu.sepc);
      assert cpu.x == t.regs;
    }
  }
}
