/**
 The assembly routine `switch_context_chirho` over registers, memory, CR3 and RFLAGS.

 Memory is a map of aligned 8-byte words.  `Processor.SwitchContext` executes the routine
 instruction by instruction; `Switched` says what it amounts to.  RFLAGS is the word that
 PUSHFQ stores and POPFQ loads.
 */
module ContextSwitch {
  const TWO64: int := 0x1_0000_0000_0000_0000

  type Word = x: int | 0 <= x < TWO64

  type Memory = map<Word, Word>

  function Read(mem: Memory, a: Word): Word { if a in mem then mem[a] else 0 }

  /** Address arithmetic wraps at 64 bits. */
  function Plus(a: Word, n: nat): Word
    requires n <= 72
  {
    if a + n < TWO64 then a + n else a + n - TWO64
  }

  function Minus8(a: Word): Word { if a >= 8 then a - 8 else a - 8 + TWO64 }

  /** The saved task state, laid out at offsets 0 to 64. */
  datatype Context = Context(
    rsp: Word, rbp: Word, rbx: Word, r12: Word, r13: Word, r14: Word, r15: Word, rip: Word, rflags: Word)

  const CONTEXT_SIZE: nat := 72

  datatype Cpu = Cpu(
    regs: Context, rdi: Word, rsi: Word, cr3: Word, pending: Word, mem: Memory)

  function LoadContext(mem: Memory, p: Word): Context {
    Context(Read(mem, p), Read(mem, Plus(p, 8)), Read(mem, Plus(p, 16)), Read(mem, Plus(p, 24)),
            Read(mem, Plus(p, 32)), Read(mem, Plus(p, 40)), Read(mem, Plus(p, 48)), Read(mem, Plus(p, 56)),
            Read(mem, Plus(p, 64)))
  }

  function StoreContext(mem: Memory, p: Word, k: Context): Memory {
    mem[p := k.rsp][Plus(p, 8) := k.rbp][Plus(p, 16) := k.rbx][Plus(p, 24) := k.r12][Plus(p, 32) := k.r13]
    [Plus(p, 40) := k.r14][Plus(p, 48) := k.r15][Plus(p, 56) := k.rip][Plus(p, 64) := k.rflags]
  }

  /** What a caller of the routine must see when it is resumed: the state after a plain return. */
  function ReturnState(c: Cpu): Context {
    c.regs.(rsp := Plus(c.regs.rsp, 8), rip := Read(c.mem, c.regs.rsp))
  }

  /** The whole effect: the caller is parked in its context, the other task continues from its own. */
  function Switched(c: Cpu): Cpu {
    var saved := StoreContext(c.mem, c.rdi, ReturnState(c));
    var next := LoadContext(saved, c.rsi);
    c.(regs := next,
       cr3 := if c.pending != 0 then c.pending else c.cr3,
       pending := 0,
       mem := saved[Plus(c.rsi, 64) := next.rflags][Minus8(next.rsp) := next.rip])
  }

  /** The pointers are valid and aligned, and the return address does not lie inside the context. */
  predicate ValidCall(c: Cpu) {
    && c.rdi % 8 == 0 && c.rdi + CONTEXT_SIZE <= TWO64
    && c.rsi % 8 == 0 && c.rsi + CONTEXT_SIZE <= TWO64
    && c.regs.rsp % 8 == 0
    && !(c.rdi <= c.regs.rsp < c.rdi + CONTEXT_SIZE)
  }

  class Processor {
    var rsp: Word
    var rbp: Word
    var rbx: Word
    var r12: Word
    var r13: Word
    var r14: Word
    var r15: Word
    var rdi: Word
    var rsi: Word
    var rax: Word
    var rcx: Word
    var rip: Word
    var rflags: Word
    var cr3: Word
    var pendingCr3: Word
    var mem: Memory

    function State(): Cpu
      reads this
    {
      Cpu(Context(rsp, rbp, rbx, r12, r13, r14, r15, rip, rflags), rdi, rsi, cr3, pendingCr3, mem)
    }

    method Store(a: Word, v: Word)
      modifies this`mem
      ensures mem == old(mem)[a := v]
    {
      mem := mem[a := v];
    }

    method Push(v: Word)
      modifies this`mem, this`rsp
      ensures rsp == Minus8(old(rsp)) && mem == old(mem)[rsp := v]
    {
      rsp := Minus8(rsp);
      mem := mem[rsp := v];
    }

    method Pop() returns (v: Word)
      modifies this`rsp
      ensures v == Read(mem, old(rsp)) && rsp == Plus(old(rsp), 8)
    {
      v := Read(mem, rsp);
      rsp := Plus(rsp, 8);
    }

    /** TEST and XOR leave arithmetic flags behind. */
    method ClobberFlags()
      modifies this`rflags
    {
      rflags := *;
    }

    method SaveRegisters()
      requires ValidCall(State())
      modifies this`mem, this`rax
      ensures var k := ReturnState(old(State()));
              mem == old(mem)[rdi := k.rsp][Plus(rdi, 8) := k.rbp][Plus(rdi, 16) := k.rbx]
                     [Plus(rdi, 24) := k.r12][Plus(rdi, 32) := k.r13][Plus(rdi, 40) := k.r14]
                     [Plus(rdi, 48) := k.r15][Plus(rdi, 56) := k.rip]
    {
      rax := Plus(rsp, 8);
      Store(rdi, rax);
      Store(Plus(rdi, 8), rbp);
      Store(Plus(rdi, 16), rbx);
      Store(Plus(rdi, 24), r12);
      Store(Plus(rdi, 32), r13);
      Store(Plus(rdi, 40), r14);
      Store(Plus(rdi, 48), r15);
      assert Read(mem, rsp) == Read(old(mem), rsp);
      rax := Read(mem, rsp);
      Store(Plus(rdi, 56), rax);
    }

    /** PUSHFQ with the stack pointer moved into the context, so the live stack is not touched. */
    method SaveFlags()
      requires rdi + CONTEXT_SIZE <= TWO64
      modifies this`mem, this`rax, this`rcx, this`rsp
      ensures mem == old(mem)[Plus(rdi, 64) := rflags] && rsp == old(rsp)
    {
      rax := rsp;
      rsp := Plus(rdi, 72);
      Push(rflags);
      rcx := Pop();
      Store(Plus(rdi, 64), rcx);
      rsp := rax;
    }

    method LoadCr3()
      modifies this`rax, this`cr3, this`pendingCr3, this`rflags
      ensures cr3 == (if old(pendingCr3) != 0 then old(pendingCr3) else old(cr3)) && pendingCr3 == 0
    {
      rax := pendingCr3;
      ClobberFlags();
      if rax != 0 {
        cr3 := rax;
        ClobberFlags();
        rax := 0;
        pendingCr3 := rax;
      }
    }

    /** POPFQ from the context, again away from the live stack. */
    method LoadFlags()
      requires rsi + CONTEXT_SIZE <= TWO64
      modifies this`mem, this`rax, this`rcx, this`rsp, this`rflags
      ensures rflags == Read(old(mem), Plus(rsi, 64)) && rsp == old(rsp)
      ensures mem == old(mem)[Plus(rsi, 64) := rflags]
    {
      rax := rsp;
      rsp := Plus(rsi, 72);
      rcx := Read(mem, Plus(rsi, 64));
      Push(rcx);
      rflags := Pop();
      rsp := rax;
    }

    /** Push the saved instruction pointer and return to it. */
    method ReturnTo(target: Word)
      modifies this`mem, this`rsp, this`rip
      ensures rip == target && rsp == old(rsp) && mem == old(mem)[Minus8(rsp) := target]
    {
      Push(target);
      rip := Pop();
    }

    method LoadRegisters()
      modifies this`rbp, this`rbx, this`r12, this`r13, this`r14, this`r15
      ensures rbp == Read(mem, Plus(rsi, 8)) && rbx == Read(mem, Plus(rsi, 16)) && r12 == Read(mem, Plus(rsi, 24))
      ensures r13 == Read(mem, Plus(rsi, 32)) && r14 == Read(mem, Plus(rsi, 40)) && r15 == Read(mem, Plus(rsi, 48))
    {
      rbp := Read(mem, Plus(rsi, 8));
      rbx := Read(mem, Plus(rsi, 16));
      r12 := Read(mem, Plus(rsi, 24));
      r13 := Read(mem, Plus(rsi, 32));
      r14 := Read(mem, Plus(rsi, 40));
      r15 := Read(mem, Plus(rsi, 48));
    }

    method SaveOld()
      requires ValidCall(State())
      modifies this`mem, this`rax, this`rcx, this`rsp
      ensures rsp == old(rsp)
      ensures mem == StoreContext(old(mem), rdi, ReturnState(old(State())))
    {
      SaveRegisters();
      SaveFlags();
    }

    method FlagsAndReturn()
      requires rsi + CONTEXT_SIZE <= TWO64
      modifies this`mem, this`rax, this`rcx, this`rsp, this`rflags, this`rip
      ensures rflags == Read(old(mem), Plus(rsi, 64)) && rip == Read(old(mem), Plus(rsi, 56)) && rsp == old(rsp)
      ensures mem == old(mem)[Plus(rsi, 64) := rflags][Minus8(rsp) := rip]
    {
      LoadFlags();
      rax := Read(mem, Plus(rsi, 56));
      ReturnTo(rax);
    }

    method RestoreNew()
      requires rsi + CONTEXT_SIZE <= TWO64
      modifies this`rsp, this`rbp, this`rbx, this`r12, this`r13, this`r14, this`r15, this`rip, this`rflags,
               this`rax, this`rcx, this`cr3, this`pendingCr3, this`mem
      ensures State().regs == LoadContext(old(mem), rsi)
      ensures cr3 == (if old(pendingCr3) != 0 then old(pendingCr3) else old(cr3)) && pendingCr3 == 0
      ensures mem == old(mem)[Plus(rsi, 64) := rflags][Minus8(rsp) := rip]
    {
      rsp := Read(mem, rsi);
      LoadCr3();
      LoadRegisters();
      FlagsAndReturn();
    }

    /** The routine from its label to `ret`. */
    method SwitchContext()
      requires ValidCall(State())
      modifies this`rsp, this`rbp, this`rbx, this`r12, this`r13, this`r14, this`r15, this`rip, this`rflags,
               this`rax, this`rcx, this`cr3, this`pendingCr3, this`mem
      ensures State() == Switched(old(State()))
    {
      SaveOld();
      RestoreNew();
    }
  }
}
