/**
 The classic BPF subset the capsicum shim assembles, the interpreter that gives programs their meaning,
 and the assembler's buffer.
 */
module Bpf {
  import A = Arithmetic
  import B = Bits

  type Word = w: nat | w < 0x1_0000_0000

  const O_ACCMODE: Word := 0x3
  const O_RDONLY: Word := 0x0
  const O_CREAT: Word := 0x40
  const O_TRUNC: Word := 0x200
  const O_APPEND: Word := 0x400
  const O_DIRECTORY: Word := 0x10000
  const TMPFILE_BIT: Word := 0x400000
  const O_TMPFILE: Word := TMPFILE_BIT + O_DIRECTORY

  /** Allow the call, refuse it with EPERM, or kill the process. */
  datatype Action = Allow | Errno | Kill

  datatype Field = Nr | Arch | Arg(n: nat)

  datatype Insn = Ld(field: Field) | And(k: Word) | Jeq(k: Word, jt: nat, jf: nat) | Ret(action: Action)

  /** A system call as a filter sees it: the low words of six arguments. */
  datatype Call = Call(nr: Word, arch: Word, args: seq<Word>)

  function Load(d: Call, f: Field): Word {
    match f
    case Nr => d.nr
    case Arch => d.arch
    case Arg(n) => if n < |d.args| then d.args[n] else 0
  }

  datatype Outcome = Fault | Done(action: Action)

  /** Run from `pc` with accumulator `a`; leaving the program is a fault. */
  function Exec(p: seq<Insn>, d: Call, pc: nat, a: Word): Outcome
    decreases |p| - pc
  {
    if pc >= |p| then Fault
    else match p[pc]
      case Ld(f) => Exec(p, d, pc + 1, Load(d, f))
      case And(k) => Exec(p, d, pc + 1, B.And(a, k))
      case Jeq(k, jt, jf) => Exec(p, d, pc + 1 + if a == k then jt else jf, a)
      case Ret(r) => Done(r)
  }

  /** One instruction. */
  lemma Unfold(p: seq<Insn>, d: Call, pc: nat, a: Word)
    requires pc < |p|
    ensures Exec(p, d, pc, a) ==
            match p[pc]
            case Ld(f) => Exec(p, d, pc + 1, Load(d, f))
            case And(k) => Exec(p, d, pc + 1, B.And(a, k))
            case Jeq(k, jt, jf) => Exec(p, d, pc + 1 + (if a == k then jt else jf), a)
            case Ret(r) => Done(r)
  {
  }

  const CAPACITY := 512

  /** `struct bpf_prog`. */
  class Prog {
    const insns: array<Insn>
    var len: nat

    ghost predicate Valid()
      reads this
    {
      insns.Length == CAPACITY && len <= CAPACITY
    }

    ghost function Code(): seq<Insn>
      reads this, insns
      requires Valid()
    {
      insns[..len]
    }

    constructor ()
      ensures Valid() && fresh(insns) && len == 0
    {
      insns := new Insn[CAPACITY](_ => Ret(Kill));
      len := 0;
    }

    /** `emit`; outgrowing the buffer aborts, so callers keep below it. */
    method Emit(i: Insn)
      requires Valid() && len < CAPACITY
      modifies `len, insns
      ensures Valid() && len == old(len) + 1 && Code() == old(Code()) + [i]
    {
      insns[len] := i;
      len := len + 1;
    }

    /** Set the true or the false branch of a jump; both are eight bits wide. */
    method PatchJt(at: nat, jt: nat)
      requires Valid() && at < len && insns[at].Jeq?
      modifies insns
      ensures Code() == old(Code())[at := Jeq(old(insns[at].k), jt % 256, old(insns[at].jf))]
    {
      insns[at] := Jeq(insns[at].k, jt % 256, insns[at].jf);
    }

    method PatchJf(at: nat, jf: nat)
      requires Valid() && at < len && insns[at].Jeq?
      modifies insns
      ensures Code() == old(Code())[at := Jeq(old(insns[at].k), old(insns[at].jt), jf % 256)]
    {
      insns[at] := Jeq(insns[at].k, insns[at].jt, jf % 256);
    }
  }

  // ----- the fixed blocks -----

  /** The guard: the right architecture goes on with the call number in the accumulator. */
  function Guard(arch: Word): seq<Insn> {
    [Ld(Arch), Jeq(arch, 1, 0), Ret(Kill), Ld(Nr)]
  }

  lemma GuardRuns(p: seq<Insn>, arch: Word, d: Call)
    requires Guard(arch) <= p
    ensures Exec(p, d, 0, 0) == if d.arch == arch then Exec(p, d, 4, d.nr) else Done(Kill)
  {
    assert p[0] == Guard(arch)[0] && p[1] == Guard(arch)[1] && p[2] == Guard(arch)[2] && p[3] == Guard(arch)[3];
    assert Exec(p, d, 3, d.arch) == Exec(p, d, 4, d.nr) && Exec(p, d, 2, d.arch) == Done(Kill);
    assert Exec(p, d, 1, d.arch) == if d.arch == arch then Exec(p, d, 3, d.arch) else Exec(p, d, 2, d.arch);
  }

  /** The next instruction of a block. */
  method EmitNext(p: Prog, i: Insn, ghost base: seq<Insn>, ghost block: seq<Insn>, ghost n: nat)
    requires p.Valid() && p.len < CAPACITY && n < |block| && i == block[n] && p.Code() == base + block[..n]
    modifies p`len, p.insns
    ensures p.Valid() && p.len == old(p.len) + 1 && p.Code() == base + block[..n + 1]
  {
    p.Emit(i);
    assert block[..n + 1] == block[..n] + [block[n]];
  }

  method EmitGuard(p: Prog, arch: Word)
    requires p.Valid() && p.len + 4 <= CAPACITY
    modifies p`len, p.insns
    ensures p.Valid() && p.Code() == old(p.Code()) + Guard(arch)
  {
    p.Emit(Ld(Arch));
    p.Emit(Jeq(arch, 1, 0));
    p.Emit(Ret(Kill));
    p.Emit(Ld(Nr));
  }

  /** A block standing at `pc` in a program. */
  ghost predicate At(p: seq<Insn>, pc: nat, block: seq<Insn>) {
    pc + |block| <= |p| && p[pc..pc + |block|] == block
  }

  lemma AtLength(p: seq<Insn>, pc: nat, block: seq<Insn>)
    requires At(p, pc, block)
    ensures pc + |block| <= |p|
  {
  }

  lemma AtIndex(p: seq<Insn>, pc: nat, block: seq<Insn>, i: nat)
    requires At(p, pc, block) && i < |block|
    ensures p[pc + i] == block[i]
  {
    assert p[pc..pc + |block|][i] == block[i];
  }

  const WRITEFLAGS: Word := O_CREAT + O_TRUNC + O_APPEND + O_TMPFILE

  /** The code of `emit_openflags_check`. */
  function OpenBlock(nr: Word, argn: nat): seq<Insn> {
    [Jeq(nr, 0, 8), Ld(Arg(argn)), And(O_ACCMODE), Jeq(O_RDONLY, 0, 3), Ld(Arg(argn)), And(WRITEFLAGS), Jeq(0, 1, 0),
     Ret(Errno), Ret(Allow)]
  }

  method EmitOpenflagsCheck(p: Prog, nr: Word, argn: nat)
    requires p.Valid() && p.len + 9 <= CAPACITY
    modifies p`len, p.insns
    ensures p.Valid() && p.Code() == old(p.Code()) + OpenBlock(nr, argn)
  {
    hide Prog.Code;
    ghost var base, block := p.Code(), OpenBlock(nr, argn);
    assert base + block[..0] == base;
    EmitNext(p, Jeq(nr, 0, 8), base, block, 0);
    EmitNext(p, Ld(Arg(argn)), base, block, 1);
    EmitNext(p, And(O_ACCMODE), base, block, 2);
    EmitNext(p, Jeq(O_RDONLY, 0, 3), base, block, 3);
    EmitNext(p, Ld(Arg(argn)), base, block, 4);
    EmitNext(p, And(WRITEFLAGS), base, block, 5);
    EmitNext(p, Jeq(0, 1, 0), base, block, 6);
    EmitNext(p, Ret(Errno), base, block, 7);
    EmitNext(p, Ret(Allow), base, block, 8);
    assert block[..9] == block;
  }

  /**
   The block decides about its own call only: it is allowed exactly when the flags ask for reading and
   have no bit in common with those of creating, truncating, appending and a temporary file.  Any other
   call goes on after the block.
   */
  lemma OpenBlockRuns(p: seq<Insn>, d: Call, pc: nat, nr: Word, argn: nat)
    requires At(p, pc, OpenBlock(nr, argn))
    ensures var flags := Load(d, Arg(argn));
            Exec(p, d, pc, d.nr) ==
            if d.nr != nr then Exec(p, d, pc + 9, d.nr)
            else if B.And(flags, O_ACCMODE) == O_RDONLY && B.And(flags, WRITEFLAGS) == 0 then Done(Allow)
            else Done(Errno)
  {
    hide Exec, Load, At;
    OpenBlockAt(p, pc, nr, argn);
    var flags := Load(d, Arg(argn));
    var x, y := B.And(flags, O_ACCMODE), B.And(flags, WRITEFLAGS);
    Unfold(p, d, pc, d.nr);
    if d.nr == nr {
      Unfold(p, d, pc + 1, nr);
      Unfold(p, d, pc + 2, flags);
      Unfold(p, d, pc + 3, x);
      Unfold(p, d, pc + 7, x);
      Unfold(p, d, pc + 4, x);
      Unfold(p, d, pc + 5, flags);
      Unfold(p, d, pc + 6, y);
      Unfold(p, d, pc + 7, y);
      Unfold(p, d, pc + 8, y);
    }
  }

  /** All bits of a flag are there. */
  predicate Asks(flags: Word, flag: Word) {
    B.And(flags, flag) == flag
  }

  predicate AsksToWrite(flags: Word) {
    Asks(flags, O_CREAT) || Asks(flags, O_TRUNC) || Asks(flags, O_APPEND) || Asks(flags, O_TMPFILE)
  }

  /** One by one, the bits the block looks for; O_TMPFILE is two of them. */
  lemma WriteBits(flags: Word)
    ensures B.And(flags, WRITEFLAGS) != 0 <==>
            Asks(flags, O_CREAT) || Asks(flags, O_TRUNC) || Asks(flags, O_APPEND) ||
            Asks(flags, O_DIRECTORY) || Asks(flags, TMPFILE_BIT)
    ensures Asks(flags, O_TMPFILE) <==> Asks(flags, O_DIRECTORY) && Asks(flags, TMPFILE_BIT)
  {
    hide B.And;
    FlagBits();
    B.BitAbove(O_CREAT, 9);
    B.BitAbove(O_CREAT + O_TRUNC, 10);
    B.BitAbove(O_CREAT + O_TRUNC + O_APPEND, 16);
    B.BitAbove(O_CREAT + O_TRUNC + O_APPEND + O_DIRECTORY, 22);
    B.BitAbove(O_DIRECTORY, 22);
    B.AndSplit(flags, O_CREAT, O_TRUNC);
    B.AndSplit(flags, O_CREAT + O_TRUNC, O_APPEND);
    B.AndSplit(flags, O_CREAT + O_TRUNC + O_APPEND, O_DIRECTORY);
    B.AndSplit(flags, O_CREAT + O_TRUNC + O_APPEND + O_DIRECTORY, TMPFILE_BIT);
    B.AndSplit(flags, O_DIRECTORY, TMPFILE_BIT);
    assert WRITEFLAGS == O_CREAT + O_TRUNC + O_APPEND + O_DIRECTORY + TMPFILE_BIT;
    B.OneBit(flags, 6);
    B.OneBit(flags, 9);
    B.OneBit(flags, 10);
    B.OneBit(flags, 16);
    B.OneBit(flags, 22);
  }

  lemma FlagBits()
    ensures A.Pow2(6) == O_CREAT && A.Pow2(9) == O_TRUNC && A.Pow2(10) == O_APPEND
    ensures A.Pow2(16) == O_DIRECTORY && A.Pow2(22) == TMPFILE_BIT
  {
    A.Pow2Values();
    A.Pow2Add(6, 3);
    A.Pow2Add(16, 6);
  }

  /**
   A read-only open that asks for none of the four is refused all the same exactly when it carries one of
   the two bits of O_TMPFILE without the other: an open of a directory is such a one.
   */
  lemma RefusedReading(p: seq<Insn>, d: Call, pc: nat, nr: Word, argn: nat)
    requires At(p, pc, OpenBlock(nr, argn)) && d.nr == nr
    requires B.And(Load(d, Arg(argn)), O_ACCMODE) == O_RDONLY && !AsksToWrite(Load(d, Arg(argn)))
    ensures var flags := Load(d, Arg(argn));
            Exec(p, d, pc, d.nr) == if Asks(flags, O_DIRECTORY) || Asks(flags, TMPFILE_BIT) then Done(Errno) else Done(Allow)
    ensures var flags := Load(d, Arg(argn)); !(Asks(flags, O_DIRECTORY) && Asks(flags, TMPFILE_BIT))
  {
    hide Exec, Load, At, Asks;
    OpenBlockRuns(p, d, pc, nr, argn);
    WriteBits(Load(d, Arg(argn)));
  }

  /** An open of a directory for reading. */
  lemma DirectoryRefused(p: seq<Insn>, d: Call, pc: nat, nr: Word, argn: nat)
    requires At(p, pc, OpenBlock(nr, argn)) && d.nr == nr && Load(d, Arg(argn)) == O_DIRECTORY
    ensures Exec(p, d, pc, d.nr) == Done(Errno) && !AsksToWrite(O_DIRECTORY)
  {
    hide Exec, Load, At, B.And;
    FlagBits();
    WriteBits(O_DIRECTORY);
    B.AndSwap(O_DIRECTORY, O_ACCMODE);
    B.BitAbove(O_ACCMODE, 16);
    B.AndSwap(O_DIRECTORY, O_CREAT);
    B.BitAbove(O_CREAT, 16);
    B.AndSwap(O_DIRECTORY, O_TRUNC);
    B.BitAbove(O_TRUNC, 16);
    B.AndSwap(O_DIRECTORY, O_APPEND);
    B.BitAbove(O_APPEND, 16);
    B.BitAbove(O_DIRECTORY, 22);
    B.AndSame(O_DIRECTORY);
    RefusedReading(p, d, pc, nr, argn);
  }

  lemma OpenBlockAt(p: seq<Insn>, pc: nat, nr: Word, argn: nat)
    requires At(p, pc, OpenBlock(nr, argn))
    ensures pc + 9 <= |p| && p[pc] == Jeq(nr, 0, 8) && p[pc + 1] == Ld(Arg(argn)) && p[pc + 2] == And(O_ACCMODE)
    ensures p[pc + 3] == Jeq(O_RDONLY, 0, 3) && p[pc + 4] == Ld(Arg(argn)) && p[pc + 5] == And(WRITEFLAGS)
    ensures p[pc + 6] == Jeq(0, 1, 0) && p[pc + 7] == Ret(Errno) && p[pc + 8] == Ret(Allow)
  {
    var b := OpenBlock(nr, argn);
    AtIndex(p, pc, b, 0);
    AtIndex(p, pc, b, 1);
    AtIndex(p, pc, b, 2);
    AtIndex(p, pc, b, 3);
    AtIndex(p, pc, b, 4);
    AtIndex(p, pc, b, 5);
    AtIndex(p, pc, b, 6);
    AtIndex(p, pc, b, 7);
    AtIndex(p, pc, b, 8);
  }

  // ----- the lookup block -----

  /** The jumps of `emit_lookup_check`, from the `j`-th descriptor on. */
  function LookupJumps(fds: seq<Word>, j: nat): seq<Insn>
    requires j <= |fds|
    decreases |fds| - j
  {
    if j == |fds| then [] else [Jeq(fds[j], |fds| - j, 0)] + LookupJumps(fds, j + 1)
  }

  lemma {:induction false} LookupJumpsAt(fds: seq<Word>, j: nat, i: nat)
    requires j <= i < |fds|
    ensures |LookupJumps(fds, j)| == |fds| - j && LookupJumps(fds, j)[i - j] == Jeq(fds[i], |fds| - i, 0)
    decreases |fds| - j
  {
    if i > j {
      LookupJumpsAt(fds, j + 1, i);
    } else if j + 1 < |fds| {
      LookupJumpsAt(fds, j + 1, j + 1);
    }
  }

  function LookupBlock(nr: Word, fds: seq<Word>): seq<Insn> {
    [Jeq(nr, 0, |fds| + 3), Ld(Arg(0))] + LookupJumps(fds, 0) + [Ret(Errno), Ret(Allow)]
  }

  lemma LookupBlockAt(nr: Word, fds: seq<Word>)
    ensures var b := LookupBlock(nr, fds);
            && |b| == |fds| + 4 && b[0] == Jeq(nr, 0, |fds| + 3) && b[1] == Ld(Arg(0))
            && (forall i :: 0 <= i < |fds| ==> b[2 + i] == Jeq(fds[i], |fds| - i, 0))
            && b[|fds| + 2] == Ret(Errno) && b[|fds| + 3] == Ret(Allow)
  {
    if |fds| > 0 {
      LookupJumpsAt(fds, 0, 0);
    }
    forall i | 0 <= i < |fds| ensures LookupBlock(nr, fds)[2 + i] == Jeq(fds[i], |fds| - i, 0) {
      LookupJumpsAt(fds, 0, i);
    }
  }

  const LOOKUP_MAX := 8

  method EmitLookupCheck(p: Prog, nr: Word, fds: seq<Word>)
    requires p.Valid() && |fds| <= LOOKUP_MAX && p.len + |fds| + 4 <= CAPACITY
    modifies p`len, p.insns
    ensures p.Valid() && p.Code() == old(p.Code()) + LookupBlock(nr, fds)
  {
    hide Prog.Code, LookupBlock;
    ghost var base, block := p.Code(), LookupBlock(nr, fds);
    LookupBlockAt(nr, fds);
    assert base + block[..0] == base;
    EmitNext(p, Jeq(nr, 0, (|fds| + 3) % 256), base, block, 0);
    EmitNext(p, Ld(Arg(0)), base, block, 1);
    var j := 0;
    while j < |fds|
      invariant j <= |fds| && p.Valid() && p.len == old(p.len) + 2 + j && p.Code() == base + block[..2 + j]
    {
      EmitNext(p, Jeq(fds[j], (|fds| - j) % 256, 0), base, block, 2 + j);
      j := j + 1;
    }
    EmitNext(p, Ret(Errno), base, block, |fds| + 2);
    EmitNext(p, Ret(Allow), base, block, |fds| + 3);
    assert block[..|fds| + 4] == block;
  }

  /** Of its own call the block allows exactly those on a registered descriptor. */
  lemma LookupBlockRuns(p: seq<Insn>, d: Call, pc: nat, nr: Word, fds: seq<Word>)
    requires At(p, pc, LookupBlock(nr, fds))
    ensures Exec(p, d, pc, d.nr) ==
            if d.nr != nr then Exec(p, d, pc + |fds| + 4, d.nr)
            else if Load(d, Arg(0)) in fds then Done(Allow)
            else Done(Errno)
  {
    LookupBlockAt(nr, fds);
    var b := LookupBlock(nr, fds);
    AtIndex(p, pc, b, 0);
    AtIndex(p, pc, b, 1);
    AtIndex(p, pc, b, |fds| + 2);
    AtIndex(p, pc, b, |fds| + 3);
    if d.nr == nr {
      LookupRuns(p, d, pc, nr, fds, 0);
    }
  }

  lemma {:induction false} LookupRuns(p: seq<Insn>, d: Call, pc: nat, nr: Word, fds: seq<Word>, j: nat)
    requires At(p, pc, LookupBlock(nr, fds)) && j <= |fds|
    ensures Exec(p, d, pc + 2 + j, Load(d, Arg(0))) == if Load(d, Arg(0)) in fds[j..] then Done(Allow) else Done(Errno)
    decreases |fds| - j
  {
    hide Exec, Load, At, LookupBlock;
    LookupBlockAt(nr, fds);
    var b, a := LookupBlock(nr, fds), Load(d, Arg(0));
    AtIndex(p, pc, b, 2 + j);
    AtIndex(p, pc, b, |fds| + 3);
    AtLength(p, pc, b);
    Unfold(p, d, pc + 2 + j, a);
    Unfold(p, d, pc + |fds| + 3, a);
    if j < |fds| {
      LookupRuns(p, d, pc, nr, fds, j + 1);
      assert fds[j..] == [fds[j]] + fds[j + 1..];
    }
  }
}
