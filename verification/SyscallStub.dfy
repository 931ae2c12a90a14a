/** The SYSCALL entry and exit stubs, instruction by instruction. Stack addresses count quadwords. */
module SyscallStub {
  import opened SyscallProtocol

  datatype Regs = Regs(
    rax: nat, rbx: nat, rcx: nat, rdx: nat, rsi: nat, rdi: nat, rbp: nat,
    r8: nat, r9: nat, r10: nat, r11: nat, r12: nat, r13: nat, r14: nat, r15: nat)

  /** The words on a stack, the lowest address first. */
  datatype Stack = Base | On(top: nat, rest: Stack)

  /** The frame the entry stub leaves on the kernel stack, low to high. */
  function Frame(r: Regs, userRsp: nat): Stack { Arguments(r, Saved(r, Tail(r, userRsp))) }

  function Arguments(r: Regs, rest: Stack): Stack {
    On(r.rax, On(r.rdi, On(r.rsi, On(r.rdx, On(r.r10, On(r.r8, On(r.r9, rest)))))))
  }

  function Saved(r: Regs, rest: Stack): Stack {
    On(r.rbx, On(r.rbp, On(r.r12, On(r.r13, On(r.r14, On(r.r15, rest))))))
  }

  function Words(s: Stack): seq<nat> { if s.Base? then [] else [s.top] + Words(s.rest) }

  lemma OneMore(x: nat, s: Stack)
    ensures Words(On(x, s)) == [x] + Words(s)
  {
  }

  lemma SixMore(a: nat, b: nat, c: nat, d: nat, e: nat, f: nat, s: Stack)
    ensures Words(On(a, On(b, On(c, On(d, On(e, On(f, s))))))) == [a, b, c, d, e, f] + Words(s)
  {
    hide Words;
    OneMore(a, On(b, On(c, On(d, On(e, On(f, s))))));
    OneMore(b, On(c, On(d, On(e, On(f, s)))));
    OneMore(c, On(d, On(e, On(f, s))));
    OneMore(d, On(e, On(f, s)));
    OneMore(e, On(f, s));
    OneMore(f, s);
  }

  /** The frame by the members of the C++ structure that the dispatcher reads: the number of the call,
      its six arguments, the registers that a function keeps, and what SYSRET needs. */
  lemma FrameWords(r: Regs, userRsp: nat)
    ensures Words(Frame(r, userRsp)) ==
      [r.rax, r.rdi, r.rsi, r.rdx, r.r10, r.r8, r.r9, r.rbx, r.rbp, r.r12, r.r13, r.r14, r.r15, userRsp, r.r11, r.rcx]
  {
    hide Words;
    var tail := Tail(r, userRsp);
    OneMore(r.rax, On(r.rdi, On(r.rsi, On(r.rdx, On(r.r10, On(r.r8, On(r.r9, Saved(r, tail))))))));
    SixMore(r.rdi, r.rsi, r.rdx, r.r10, r.r8, r.r9, Saved(r, tail));
    SixMore(r.rbx, r.rbp, r.r12, r.r13, r.r14, r.r15, tail);
    OneMore(userRsp, On(r.r11, On(r.rcx, Base)));
    OneMore(r.r11, On(r.rcx, Base));
    OneMore(r.rcx, Base);
    Nothing();
  }

  lemma Nothing()
    ensures Words(Base) == []
  {
  }

  function Tail(r: Regs, userRsp: nat): Stack { On(userRsp, On(r.r11, On(r.rcx, Base))) }

  class Cpu {
    var regs: Regs
    var rsp: nat
    var gs: Gs
    var kgs: Gs
    /** The two fields of the per-CPU block. */
    var kernelRsp: nat
    var userRsp: nat
    /** The words on the kernel stack from rsp up to kernelRsp. */
    var stack: Stack

    constructor (regs: Regs, rsp: nat, kernelRsp: nat)
      ensures this.regs == regs && this.rsp == rsp && this.kernelRsp == kernelRsp && gs == User && kgs == Local
    {
      this.regs, this.rsp, this.kernelRsp, userRsp, gs, kgs, stack := regs, rsp, kernelRsp, 0, User, Local, Base;
    }

    method Push(x: nat)
      requires 0 < rsp
      modifies this`rsp, this`stack
      ensures rsp == old(rsp) - 1 && stack == On(x, old(stack))
    {
      rsp := rsp - 1;
      stack := On(x, stack);
    }

    method Pop() returns (x: nat)
      requires stack.On?
      modifies this`rsp, this`stack
      ensures rsp == old(rsp) + 1 && x == old(stack).top && stack == old(stack).rest
    {
      x := stack.top;
      rsp := rsp + 1;
      stack := stack.rest;
    }

    method Swapgs()
      modifies this`gs, this`kgs
      ensures gs == old(kgs) && kgs == old(gs)
    {
      gs, kgs := kgs, gs;
    }

    /** The stub up to the call of syscall_dispatch. The CPU has put the user's rip and flags into
        rcx and r11. */
    method Entry()
      requires kgs == Local && 16 <= kernelRsp
      modifies this`rsp, this`gs, this`kgs, this`userRsp, this`stack
      ensures gs == Local && kgs == old(gs) && userRsp == old(rsp) && rsp == kernelRsp - 16
      ensures stack == Frame(regs, old(rsp))
      ensures Words(stack) ==
        [regs.rax, regs.rdi, regs.rsi, regs.rdx, regs.r10, regs.r8, regs.r9, regs.rbx, regs.rbp, regs.r12, regs.r13, regs.r14, regs.r15,
         old(rsp), regs.r11, regs.rcx]
    {
      hide Words;
      Swapgs();
      userRsp := rsp;
      rsp := kernelRsp;
      stack := Base;
      Push(regs.rcx);
      Push(regs.r11);
      Push(userRsp);
      PushSaved();
      PushArguments();
      FrameWords(regs, userRsp);
    }

    /** The registers that a C++ function keeps for its caller. */
    method PushSaved()
      requires 6 <= rsp
      modifies this`rsp, this`stack
      ensures rsp == old(rsp) - 6 && stack == Saved(regs, old(stack))
    {
      Push(regs.r15);
      Push(regs.r14);
      Push(regs.r13);
      Push(regs.r12);
      Push(regs.rbp);
      Push(regs.rbx);
    }

    /** The six arguments and the number of the call. */
    method PushArguments()
      requires 7 <= rsp
      modifies this`rsp, this`stack
      ensures rsp == old(rsp) - 7 && stack == Arguments(regs, old(stack))
    {
      Push(regs.r9);
      Push(regs.r8);
      Push(regs.r10);
      Push(regs.rdx);
      Push(regs.rsi);
      Push(regs.rdi);
      Push(regs.rax);
    }

    /** The stub after syscall_dispatch: the frame is popped into the registers, the result stays in
        rax, and the user's stack pointer comes from the per-CPU block. */
    method Exit(ghost f: Regs, ghost u: nat)
      requires gs == Local && stack == Frame(f, u)
      modifies this`regs, this`rsp, this`gs, this`kgs, this`stack
      ensures regs == f.(rax := old(regs.rax)) && rsp == userRsp && kgs == Local && gs == old(kgs)
    {
      PopArguments(f, Saved(f, Tail(f, u)));
      PopSaved(f, Tail(f, u));
      var skipped := Pop();
      var r11 := Pop();
      var rcx := Pop();
      regs := regs.(r11 := r11, rcx := rcx);
      rsp := userRsp;
      Swapgs();
    }

    /** The arguments go back; the number on top of them does not, for rax holds the result. */
    method PopArguments(ghost f: Regs, ghost rest: Stack)
      requires stack == Arguments(f, rest)
      modifies this`regs, this`rsp, this`stack
      ensures stack == rest
      ensures regs == old(regs).(rdi := f.rdi, rsi := f.rsi, rdx := f.rdx, r10 := f.r10, r8 := f.r8, r9 := f.r9)
    {
      var skipped := Pop();
      var rdi := Pop();
      var rsi := Pop();
      var rdx := Pop();
      var r10 := Pop();
      var r8 := Pop();
      var r9 := Pop();
      regs := regs.(rdi := rdi, rsi := rsi, rdx := rdx, r10 := r10, r8 := r8, r9 := r9);
    }

    method PopSaved(ghost f: Regs, ghost rest: Stack)
      requires stack == Saved(f, rest)
      modifies this`regs, this`rsp, this`stack
      ensures stack == rest
      ensures regs == old(regs).(rbx := f.rbx, rbp := f.rbp, r12 := f.r12, r13 := f.r13, r14 := f.r14, r15 := f.r15)
    {
      var rbx := Pop();
      var rbp := Pop();
      var r12 := Pop();
      var r13 := Pop();
      var r14 := Pop();
      var r15 := Pop();
      regs := regs.(rbx := rbx, rbp := rbp, r12 := r12, r13 := r13, r14 := r14, r15 := r15);
    }

    /** One system call, whatever the C++ side does to the registers, as long as it leaves the frame
        and returns with the per-CPU block in place: user code finds every register as it was but the
        result, and its own stack pointer. */
    method RoundTrip(result: nat, clobbered: Regs)
      requires kgs == Local && 16 <= kernelRsp
      modifies this`regs, this`rsp, this`gs, this`kgs, this`userRsp, this`stack
      ensures regs == old(regs).(rax := result) && rsp == old(rsp) && kgs == Local
    {
      ghost var f, u := regs, rsp;
      Entry();
      regs := clobbered.(rax := result);
      Exit(f, u);
    }
  }
}
