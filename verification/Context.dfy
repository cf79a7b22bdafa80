/** Kernel threads and the switch between them (os/kernel/src/thread/thread.rs). Memory is
addressed in words of 8 bytes, the unit of the kernel stacks. */
module Context {

  datatype Registers = Registers(
    rax: int, rbx: int, rcx: int, rdx: int, rsi: int, rdi: int, rbp: int,
    r8: int, r9: int, r10: int, r11: int, r12: int, r13: int, r14: int, r15: int, flags: int)

  type Memory = map<int, int>

  /** The part of the processor that a switch touches, with the stack pointer that the task state
      segment holds for entries from user mode. */
  datatype Machine = Machine(regs: Registers, rsp: int, rip: int, memory: Memory, cr3: int, tss: int)

  /** What the call in the middle of the switch leaves behind: new values in the registers that a
      callee need not preserve, and words below the stack pointer. */
  datatype Noise = Noise(rax: int, rcx: int, rdx: int, rsi: int, rdi: int,
                         r8: int, r9: int, r10: int, r11: int, flags: int, below: Memory)

  function At(memory: Memory, address: int): int {
    if address in memory then memory[address] else 0
  }

  function Clobbered(r: Registers, noise: Noise): Registers {
    r.(rax := noise.rax, rcx := noise.rcx, rdx := noise.rdx, rsi := noise.rsi, rdi := noise.rdi,
       r8 := noise.r8, r9 := noise.r9, r10 := noise.r10, r11 := noise.r11, flags := noise.flags)
  }

  // --- what a switch does ---------------------------------------------------------------------

  /** Memory after all registers have been pushed below `rsp`. */
  function Pushed(m: Memory, rsp: int, r: Registers): Memory {
    m[rsp - 1 := r.flags][rsp - 2 := r.r8][rsp - 3 := r.r9][rsp - 4 := r.r10]
    [rsp - 5 := r.r11][rsp - 6 := r.r12][rsp - 7 := r.r13][rsp - 8 := r.r14]
    [rsp - 9 := r.r15][rsp - 10 := r.rax][rsp - 11 := r.rbx][rsp - 12 := r.rcx]
    [rsp - 13 := r.rdx][rsp - 14 := r.rsi][rsp - 15 := r.rdi][rsp - 16 := r.rbp]
  }

  /** The registers that are popped from `at` upwards. */
  function Popped(m: Memory, at: int): Registers {
    Registers(
      rbp := At(m, at), rdi := At(m, at + 1), rsi := At(m, at + 2), rdx := At(m, at + 3),
      rcx := At(m, at + 4), rbx := At(m, at + 5), rax := At(m, at + 6), r15 := At(m, at + 7),
      r14 := At(m, at + 8), r13 := At(m, at + 9), r12 := At(m, at + 10), r11 := At(m, at + 11),
      r10 := At(m, at + 12), r9 := At(m, at + 13), r8 := At(m, at + 14), flags := At(m, at + 15))
  }

  /** Resume at the saved stack pointer `at`. */
  function Resumed(m: Machine, at: int): Machine {
    m.(regs := Popped(m.memory, at), rsp := at + 17, rip := At(m.memory, at + 16))
  }

  /** The whole switch, from the entry with its four arguments in rdi, rsi, rdx and rcx. */
  function Switched(m: Machine, noise: Noise): Machine {
    var memory := Pushed(m.memory, m.rsp, m.regs)[m.regs.rdi := m.rsp - 16] + noise.below;
    Resumed(m.(memory := memory, cr3 := m.regs.rcx, tss := m.regs.rdx), m.regs.rsi)
  }

  /** What has been pushed is what is popped. */
  lemma PushedPopped(m: Memory, rsp: int, r: Registers)
    ensures Popped(Pushed(m, rsp, r), rsp - 16) == r
  {
  }

  lemma PushedElsewhere(m: Memory, rsp: int, r: Registers, a: int)
    requires a < rsp - 16 || rsp <= a
    ensures At(Pushed(m, rsp, r), a) == At(m, a)
  {
  }

  lemma PoppedAgrees(m: Memory, m1: Memory, at: int)
    requires forall a :: at <= a < at + 16 ==> At(m1, a) == At(m, a)
    ensures Popped(m1, at) == Popped(m, at)
  {
  }

  // --- the processor ----------------------------------------------------------------------------

  class Cpu {
    var regs: Registers
    var rsp: int
    var rip: int
    var memory: Memory
    var cr3: int
    var tssRsp0: int

    ghost function Now(): Machine
      reads this
    {
      Machine(regs, rsp, rip, memory, cr3, tssRsp0)
    }

    constructor (m: Machine)
      ensures Now() == m
    {
      regs, rsp, rip, memory, cr3, tssRsp0 := m.regs, m.rsp, m.rip, m.memory, m.cr3, m.tss;
    }

    method Push(value: int)
      modifies this`rsp, this`memory
      ensures rsp == old(rsp) - 1 && memory == old(memory)[rsp := value]
    {
      rsp := rsp - 1;
      memory := memory[rsp := value];
    }

    method Pop() returns (value: int)
      modifies this`rsp
      ensures rsp == old(rsp) + 1 && value == At(memory, old(rsp))
    {
      value := At(memory, rsp);
      rsp := rsp + 1;
    }

    /** The call to `tss_set_rsp0`, with the stack pointer for the task state segment in rdi. */
    method TssSetRsp0(noise: Noise)
      modifies this`tssRsp0, this`regs, this`memory
      ensures tssRsp0 == old(regs.rdi) && regs == Clobbered(old(regs), noise)
      ensures memory == old(memory) + noise.below
    {
      tssRsp0 := regs.rdi;
      memory := memory + noise.below;
      regs := Clobbered(regs, noise);
    }

    method PushRegisters()
      modifies this`rsp, this`memory
      ensures rsp == old(rsp) - 16 && memory == Pushed(old(memory), old(rsp), regs)
    {
      Push(regs.flags);
      Push(regs.r8);
      Push(regs.r9);
      Push(regs.r10);
      Push(regs.r11);
      Push(regs.r12);
      Push(regs.r13);
      Push(regs.r14);
      Push(regs.r15);
      Push(regs.rax);
      Push(regs.rbx);
      Push(regs.rcx);
      Push(regs.rdx);
      Push(regs.rsi);
      Push(regs.rdi);
      Push(regs.rbp);
    }

    /** The pops, the last one being that of the return address. */
    method PopAndReturn()
      modifies this`rsp, this`regs, this`rip
      ensures Now() == Resumed(old(Now()), old(rsp))
    {
      hide At;
      var rbp := Pop();
      var rdi := Pop();
      var rsi := Pop();
      var rdx := Pop();
      var rcx := Pop();
      var rbx := Pop();
      var rax := Pop();
      var r15 := Pop();
      var r14 := Pop();
      var r13 := Pop();
      var r12 := Pop();
      var r11 := Pop();
      var r10 := Pop();
      var r9 := Pop();
      var r8 := Pop();
      var flags := Pop();
      regs := Registers(rax, rbx, rcx, rdx, rsi, rdi, rbp, r8, r9, r10, r11, r12, r13, r14, r15, flags);
      rip := Pop();
    }

    /** `thread_switch`. */
    method ThreadSwitch(noise: Noise)
      modifies this
      ensures Now() == Switched(old(Now()), noise)
    {
      hide At, Pushed, Popped;
      PushRegisters();
      memory := memory[regs.rdi := rsp];
      regs := regs.(r12 := regs.rsi, r13 := regs.rcx);
      regs := regs.(rdi := regs.rdx);
      TssSetRsp0(noise);
      regs := regs.(rcx := regs.r13, rsi := regs.r12);
      cr3 := regs.rcx;
      rsp := regs.rsi;
      PopAndReturn();
    }

    /** `thread_kernel_start`, with its argument in rdi. */
    method ThreadKernelStart()
      modifies this
      ensures Now() == Resumed(old(Now()), old(regs.rdi))
    {
      rsp := regs.rdi;
      PopAndReturn();
    }
  }

  // --- new threads ------------------------------------------------------------------------------

  const DUMMY := 0x00DEAD00

  /** The registers with which a new thread begins: interrupts enabled, all else zero. */
  const Fresh := Registers(0, 0, 0, 0, 0, 0, 0, 0, 0, 0, 0, 0, 0, 0, 0, 0x202)

  function Zeros(n: nat): seq<int> {
    seq(n, i => 0)
  }

  /** The stack of a new thread, which is to begin at the address `kickoff`. */
  function Prepared(capacity: nat, kickoff: int): seq<int>
    requires capacity >= 18
  {
    Zeros(capacity - 3) + [0x202, kickoff, DUMMY]
  }

  class Thread {
    var kernelStack: seq<int>
    var oldRsp0: int

    constructor ()
      ensures kernelStack == [] && oldRsp0 == 0
    {
      kernelStack := [];
      oldRsp0 := 0;
    }

    /** Fill the stack at `stackAddr`, which has room for `capacity` words. */
    method PrepareKernelStack(stackAddr: int, capacity: nat, kickoff: int)
      requires kernelStack == [] && capacity >= 18
      modifies this
      ensures kernelStack == Prepared(capacity, kickoff)
      ensures oldRsp0 == stackAddr + capacity - 18
    {
      for i := 0 to capacity
        invariant kernelStack == Zeros(i)
      {
        kernelStack := kernelStack + [0];
      }
      kernelStack := kernelStack[capacity - 1 := DUMMY];
      kernelStack := kernelStack[capacity - 2 := kickoff];
      kernelStack := kernelStack[capacity - 3 := 0x202];
      // r8 to r15, rax, rbx, rcx, rdx, rsi, rdi, rbp
      for k := 4 to 19
        invariant kernelStack == Prepared(capacity, kickoff)
      {
        kernelStack := kernelStack[capacity - k := 0];
      }
      oldRsp0 := stackAddr + (capacity - 18);
    }
  }
}
