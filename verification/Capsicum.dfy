/**
 The capsicum shim's argument filters: for one system call, descriptors with a list of allowed second
 arguments.  The program is emitted first and its jumps are patched afterwards.
 */
module Capsicum {
  import opened Bpf

  /** One descriptor and the second arguments it may be used with. */
  datatype Block = Block(fd: Word, list: seq<Word>)

  /** Commands in all blocks. */
  function Cmds(bs: seq<Block>): nat {
    if bs == [] then 0 else Cmds(bs[..|bs| - 1]) + |bs[|bs| - 1].list|
  }

  /** Where the code of block `k` starts; past the last block stands the shared RET_ALLOW. */
  function Start(bs: seq<Block>, k: nat): nat
    requires k <= |bs|
  {
    5 + 4 * k + Cmds(bs[..k])
  }

  lemma StartNext(bs: seq<Block>, k: nat)
    requires k < |bs|
    ensures Start(bs, k + 1) == Start(bs, k) + 4 + |bs[k].list| && Cmds(bs[..k + 1]) == Cmds(bs[..k]) + |bs[k].list|
  {
    assert bs[..k + 1][..k] == bs[..k];
  }

  lemma {:induction false} StartOrder(bs: seq<Block>, i: nat, k: nat)
    requires i <= k <= |bs|
    ensures Start(bs, i) + 4 * (k - i) <= Start(bs, k) && Cmds(bs[..i]) <= Cmds(bs[..k])
    decreases k
  {
    if i < k {
      StartOrder(bs, i, k - 1);
      StartNext(bs, k - 1);
    }
  }

  lemma StartSame(bs: seq<Block>, b: Block, k: nat)
    requires k <= |bs|
    ensures Start(bs + [b], k) == Start(bs, k) && Cmds((bs + [b])[..k]) == Cmds(bs[..k])
  {
    assert (bs + [b])[..k] == bs[..k];
  }

  /** The jump of command number `c` at address `x`: zero until the first `m` have been patched. */
  function CmdJump(x: nat, c: nat, m: nat, allow: nat): nat {
    if c < m && x < allow then (allow - x - 1) % 256 else 0
  }

  /** The code of a block at `s`, its first command being number `c`. */
  ghost predicate BlockIs(p: seq<Insn>, s: nat, b: Block, jf: nat, c: nat, m: nat, allow: nat) {
    && s + 4 + |b.list| <= |p|
    && p[s] == Ld(Arg(0)) && p[s + 1] == Jeq(b.fd, 0, jf) && p[s + 2] == Ld(Arg(1))
    && (forall j :: 0 <= j < |b.list| ==> p[s + 3 + j] == Jeq(b.list[j], CmdJump(s + 3 + j, c + j, m, allow), 0))
    && p[s + 3 + |b.list|] == Ret(Errno)
  }

  /** Where a block's descriptor jumps on a mismatch: to the next block. */
  function NextJump(bs: seq<Block>, k: nat): nat
    requires k < |bs|
  {
    (2 + |bs[k].list|) % 256
  }

  /** All blocks, the last one's mismatch jump and the commands from `m` on still to be patched. */
  ghost predicate Laid(p: seq<Insn>, arch: Word, nr: Word, bs: seq<Block>, nrjf: nat, lastjf: nat, m: nat, allow: nat) {
    && Start(bs, |bs|) <= |p| && Guard(arch) <= p && p[4] == Jeq(nr, 0, nrjf)
    && forall k :: 0 <= k < |bs| ==>
         BlockIs(p, Start(bs, k), bs[k], if k < |bs| - 1 then NextJump(bs, k) else lastjf, Cmds(bs[..k]), m, allow)
  }

  /** Code elsewhere does not matter to a block. */
  lemma BlockFrame(p: seq<Insn>, q: seq<Insn>, s: nat, b: Block, jf: nat, c: nat, m: nat, allow: nat)
    requires BlockIs(p, s, b, jf, c, m, allow) && s + 4 + |b.list| <= |q|
    requires forall x :: s <= x < s + 4 + |b.list| ==> q[x] == p[x]
    ensures BlockIs(q, s, b, jf, c, m, allow)
  {
  }

  lemma BlockPatched(p: seq<Insn>, s: nat, b: Block, c: nat, jf: nat, jf': nat, m: nat, allow: nat)
    requires BlockIs(p, s, b, jf, c, m, allow)
    ensures BlockIs(p[s + 1 := Jeq(b.fd, 0, jf')], s, b, jf', c, m, allow)
  {
  }

  lemma CmdPatched(p: seq<Insn>, s: nat, b: Block, jf: nat, c: nat, m: nat, allow: nat, j: nat)
    requires BlockIs(p, s, b, jf, c, m, allow) && j < |b.list| && c + j == m && s + 3 + j < allow
    ensures BlockIs(p[s + 3 + j := Jeq(b.list[j], (allow - (s + 3 + j) - 1) % 256, 0)], s, b, jf, c, m + 1, allow)
  {
  }

  lemma BlockMore(p: seq<Insn>, s: nat, b: Block, jf: nat, c: nat, m: nat, allow: nat)
    requires BlockIs(p, s, b, jf, c, m, allow) && (m < c || m >= c + |b.list|)
    ensures BlockIs(p, s, b, jf, c, m + 1, allow)
  {
  }

  /** The command number `m`: which block it is in, and where. */
  lemma {:induction false} Locate(bs: seq<Block>, m: nat) returns (k: nat, j: nat)
    requires m < Cmds(bs)
    ensures k < |bs| && j < |bs[k].list| && Cmds(bs[..k]) + j == m
  {
    var n := |bs| - 1;
    if m >= Cmds(bs[..n]) {
      k, j := n, m - Cmds(bs[..n]);
    } else {
      k, j := Locate(bs[..n], m);
      assert bs[..n][..k] == bs[..k];
    }
  }

  /** One more command's jump. */
  lemma LaidCmd(p: seq<Insn>, arch: Word, nr: Word, bs: seq<Block>, nrjf: nat, lastjf: nat, m: nat, allow: nat, k: nat, j: nat)
    requires Laid(p, arch, nr, bs, nrjf, lastjf, m, allow) && Start(bs, |bs|) <= allow
    requires k < |bs| && j < |bs[k].list| && Cmds(bs[..k]) + j == m
    ensures var x := Start(bs, k) + 3 + j;
            && x < Start(bs, |bs|) && p[x] == Jeq(bs[k].list[j], 0, 0)
            && Laid(p[x := Jeq(bs[k].list[j], (allow - x - 1) % 256, 0)], arch, nr, bs, nrjf, lastjf, m + 1, allow)
  {
    hide BlockIs, Start, Cmds;
    var x := Start(bs, k) + 3 + j;
    StartNext(bs, k);
    StartOrder(bs, k + 1, |bs|);
    StartOrder(bs, 0, k);
    BlockFacts(p, bs, k, j, if k < |bs| - 1 then NextJump(bs, k) else lastjf, m, allow);
    var q := p[x := Jeq(bs[k].list[j], (allow - x - 1) % 256, 0)];
    assert Start(bs, 0) >= 5 by { StartLow(bs, 0); }
    forall i | 0 <= i < |bs|
      ensures BlockIs(q, Start(bs, i), bs[i], if i < |bs| - 1 then NextJump(bs, i) else lastjf, Cmds(bs[..i]), m + 1, allow)
    {
      var jf := if i < |bs| - 1 then NextJump(bs, i) else lastjf;
      StartNext(bs, i);
      StartOrder(bs, i + 1, |bs|);
      if i == k {
        CmdPatched(p, Start(bs, k), bs[k], jf, Cmds(bs[..k]), m, allow, j);
      } else {
        if i < k { StartOrder(bs, i + 1, k); } else { StartOrder(bs, k + 1, i); }
        BlockFrame(p, q, Start(bs, i), bs[i], jf, Cmds(bs[..i]), m, allow);
        BlockMore(q, Start(bs, i), bs[i], jf, Cmds(bs[..i]), m, allow);
      }
    }
  }

  lemma StartLow(bs: seq<Block>, k: nat)
    requires k <= |bs|
    ensures Start(bs, k) >= 5
  {
  }

  lemma BlockFacts(p: seq<Insn>, bs: seq<Block>, k: nat, j: nat, jf: nat, m: nat, allow: nat)
    requires k < |bs| && j < |bs[k].list| && BlockIs(p, Start(bs, k), bs[k], jf, Cmds(bs[..k]), m, allow) && Cmds(bs[..k]) + j >= m
    ensures Start(bs, k) + 3 + j < |p| && p[Start(bs, k) + 3 + j] == Jeq(bs[k].list[j], 0, 0)
  {
  }

  /** The mismatch jump of the last block. */
  lemma LaidLast(p: seq<Insn>, arch: Word, nr: Word, bs: seq<Block>, nrjf: nat, jf: nat, jf': nat, m: nat, allow: nat)
    requires Laid(p, arch, nr, bs, nrjf, jf, m, allow) && bs != []
    ensures var x := Start(bs, |bs| - 1) + 1;
            && x < |p| && p[x] == Jeq(bs[|bs| - 1].fd, 0, jf)
            && Laid(p[x := Jeq(bs[|bs| - 1].fd, 0, jf')], arch, nr, bs, nrjf, jf', m, allow)
  {
    hide BlockIs, Start, Cmds;
    var n := |bs| - 1;
    var x := Start(bs, n) + 1;
    LastFacts(p, bs, jf, m, allow);
    StartLow(bs, n);
    var q := p[x := Jeq(bs[n].fd, 0, jf')];
    forall i | 0 <= i < |bs|
      ensures BlockIs(q, Start(bs, i), bs[i], if i < n then NextJump(bs, i) else jf', Cmds(bs[..i]), m, allow)
    {
      StartNext(bs, i);
      StartOrder(bs, i + 1, |bs|);
      if i == n {
        BlockPatched(p, Start(bs, n), bs[n], Cmds(bs[..n]), jf, jf', m, allow);
      } else {
        StartOrder(bs, i + 1, n);
        BlockFrame(p, q, Start(bs, i), bs[i], NextJump(bs, i), Cmds(bs[..i]), m, allow);
      }
    }
  }

  lemma LastFacts(p: seq<Insn>, bs: seq<Block>, jf: nat, m: nat, allow: nat)
    requires bs != [] && BlockIs(p, Start(bs, |bs| - 1), bs[|bs| - 1], jf, Cmds(bs[..|bs| - 1]), m, allow)
    ensures Start(bs, |bs| - 1) + 1 < |p| && p[Start(bs, |bs| - 1) + 1] == Jeq(bs[|bs| - 1].fd, 0, jf)
  {
  }

  lemma LaidNr(p: seq<Insn>, arch: Word, nr: Word, bs: seq<Block>, jf: nat, lastjf: nat, jf': nat, m: nat, allow: nat)
    requires Laid(p, arch, nr, bs, jf, lastjf, m, allow)
    ensures 4 < |p| && Laid(p[4 := Jeq(nr, 0, jf')], arch, nr, bs, jf', lastjf, m, allow)
  {
    hide BlockIs, Start, Cmds;
    StartLow(bs, |bs|);
    var q := p[4 := Jeq(nr, 0, jf')];
    assert Guard(arch) <= q;
    forall i | 0 <= i < |bs|
      ensures BlockIs(q, Start(bs, i), bs[i], if i < |bs| - 1 then NextJump(bs, i) else lastjf, Cmds(bs[..i]), m, allow)
    {
      StartLow(bs, i);
      StartNext(bs, i);
      StartOrder(bs, i + 1, |bs|);
      BlockFrame(p, q, Start(bs, i), bs[i], if i < |bs| - 1 then NextJump(bs, i) else lastjf, Cmds(bs[..i]), m, allow);
    }
  }

  /** Code put at the end changes nothing before it. */
  lemma LaidLonger(p: seq<Insn>, arch: Word, nr: Word, bs: seq<Block>, nrjf: nat, lastjf: nat, m: nat, allow: nat, i: Insn)
    requires Laid(p, arch, nr, bs, nrjf, lastjf, m, allow)
    ensures Laid(p + [i], arch, nr, bs, nrjf, lastjf, m, allow)
  {
    hide BlockIs, Start, Cmds;
    StartLow(bs, |bs|);
    forall k | 0 <= k < |bs|
      ensures BlockIs(p + [i], Start(bs, k), bs[k], if k < |bs| - 1 then NextJump(bs, k) else lastjf, Cmds(bs[..k]), m, allow)
    {
      StartNext(bs, k);
      StartOrder(bs, k + 1, |bs|);
      BlockFrame(p, p + [i], Start(bs, k), bs[k], if k < |bs| - 1 then NextJump(bs, k) else lastjf, Cmds(bs[..k]), m, allow);
    }
  }

  /** The code of a block before any of its jumps is known. */
  function Raw(b: Block): seq<Insn> {
    [Ld(Arg(0)), Jeq(b.fd, 0, 0), Ld(Arg(1))] + seq(|b.list|, j requires 0 <= j < |b.list| => Jeq(b.list[j], 0, 0)) + [Ret(Errno)]
  }

  lemma RawIs(p: seq<Insn>, b: Block, c: nat, allow: nat)
    ensures BlockIs(p + Raw(b), |p|, b, 0, c, 0, allow)
  {
  }

  /** A new block; the mismatch jump of the one before it has been patched to reach it. */
  lemma LaidBlock(p: seq<Insn>, arch: Word, nr: Word, bs: seq<Block>, jf: nat, b: Block, allow: nat)
    requires |p| == Start(bs, |bs|) && Laid(p, arch, nr, bs, 0, jf, 0, allow) && (bs != [] ==> jf == NextJump(bs, |bs| - 1))
    ensures Laid(p + Raw(b), arch, nr, bs + [b], 0, 0, 0, allow)
    ensures |p + Raw(b)| == Start(bs + [b], |bs| + 1)
  {
    hide BlockIs, Cmds, Start, Raw, Guard;
    var q, bs', n := p + Raw(b), bs + [b], |bs|;
    StartLow(bs, n);
    StartNext(bs', n);
    StartSame(bs, b, n);
    RawLength(b);
    RawIs(p, b, Cmds(bs[..n]), allow);
    assert bs'[n] == b;
    forall k | 0 <= k < n ensures BlockIs(q, Start(bs', k), bs'[k], NextJump(bs', k), Cmds(bs'[..k]), 0, allow) {
      assert bs'[k] == bs[k];
      StartSame(bs, b, k);
      StartNext(bs, k);
      StartOrder(bs, k + 1, n);
      BlockFrame(p, q, Start(bs, k), bs[k], NextJump(bs, k), Cmds(bs[..k]), 0, allow);
    }
    GuardKept(p, q, arch);
  }

  lemma RawLength(b: Block)
    ensures |Raw(b)| == 4 + |b.list|
  {
  }

  lemma GuardKept(p: seq<Insn>, q: seq<Insn>, arch: Word)
    requires Guard(arch) <= p <= q
    ensures Guard(arch) <= q
  {
  }

  // ----- what the program decides -----

  /** The first block for the descriptor decides; with none the call is allowed. */
  function Decide(bs: seq<Block>, a0: Word, a1: Word): Action {
    if bs == [] then Allow
    else if bs[0].fd == a0 then if a1 in bs[0].list then Allow else Errno
    else Decide(bs[1..], a0, a1)
  }

  function Verdict(arch: Word, nr: Word, bs: seq<Block>, d: Call): Action {
    if d.arch != arch then Kill
    else if d.nr != nr then Allow
    else Decide(bs, Load(d, Arg(0)), Load(d, Arg(1)))
  }

  predicate OnePerFd(bs: seq<Block>) {
    forall i, j :: 0 <= i < j < |bs| ==> bs[i].fd != bs[j].fd
  }

  /** EPERM exactly for a registered descriptor and an argument that is not on its list. */
  lemma {:induction false} DecideMeans(bs: seq<Block>, a0: Word, a1: Word)
    requires OnePerFd(bs)
    ensures Decide(bs, a0, a1) == if exists k :: 0 <= k < |bs| && bs[k].fd == a0 && a1 !in bs[k].list then Errno else Allow
  {
    if bs != [] {
      DecideMeans(bs[1..], a0, a1);
      if bs[0].fd != a0 {
        assert forall k :: 0 <= k < |bs| && bs[k].fd == a0 ==> k > 0 && bs[1..][k - 1] == bs[k];
      }
    }
  }

  /** The finished program: every jump patched, within the eight bits. */
  ghost predicate Finished(p: seq<Insn>, arch: Word, nr: Word, bs: seq<Block>) {
    var allow := Start(bs, |bs|);
    && bs != [] && allow <= 200 && |p| == allow + 1 && p[allow] == Ret(Allow)
    && Laid(p, arch, nr, bs, allow - 5, NextJump(bs, |bs| - 1), Cmds(bs), allow)
  }

  lemma CmdAt(p: seq<Insn>, s: nat, b: Block, jf: nat, c: nat, m: nat, allow: nat, j: nat)
    requires BlockIs(p, s, b, jf, c, m, allow) && j <= |b.list| && c + |b.list| <= m && s + 4 + |b.list| <= allow <= 200
    ensures s + 3 + j < |p| && p[s + 3 + j] == if j < |b.list| then Jeq(b.list[j], allow - (s + 3 + j) - 1, 0) else Ret(Errno)
  {
  }

  lemma {:induction false} CmdsRun(p: seq<Insn>, d: Call, s: nat, b: Block, jf: nat, c: nat, m: nat, allow: nat, j: nat, a: Word)
    requires BlockIs(p, s, b, jf, c, m, allow) && j <= |b.list| && c + |b.list| <= m && s + 4 + |b.list| <= allow <= 200
    requires allow < |p| && p[allow] == Ret(Allow)
    ensures Exec(p, d, s + 3 + j, a) == if a in b.list[j..] then Done(Allow) else Done(Errno)
    decreases |b.list| - j
  {
    hide Exec, BlockIs;
    CmdAt(p, s, b, jf, c, m, allow, j);
    Unfold(p, d, s + 3 + j, a);
    Unfold(p, d, allow, a);
    if j < |b.list| {
      CmdsRun(p, d, s, b, jf, c, m, allow, j + 1, a);
      assert b.list[j..] == [b.list[j]] + b.list[j + 1..];
    }
  }

  lemma BlockRuns(p: seq<Insn>, d: Call, s: nat, b: Block, c: nat, m: nat, allow: nat, a: Word)
    requires BlockIs(p, s, b, 2 + |b.list|, c, m, allow) && c + |b.list| <= m && s + 4 + |b.list| <= allow <= 200
    requires allow < |p| && p[allow] == Ret(Allow)
    ensures var a0, a1 := Load(d, Arg(0)), Load(d, Arg(1));
            Exec(p, d, s, a) ==
            if a0 == b.fd then (if a1 in b.list then Done(Allow) else Done(Errno)) else Exec(p, d, s + 4 + |b.list|, a0)
  {
    hide Exec, Load;
    var a0, a1 := Load(d, Arg(0)), Load(d, Arg(1));
    Unfold(p, d, s, a);
    Unfold(p, d, s + 1, a0);
    if a0 == b.fd {
      Unfold(p, d, s + 2, a0);
      CmdsRun(p, d, s, b, 2 + |b.list|, c, m, allow, 0, a1);
      assert b.list[0..] == b.list;
    }
  }

  lemma {:induction false} BlocksRun(p: seq<Insn>, d: Call, arch: Word, nr: Word, bs: seq<Block>, k: nat, a: Word)
    requires Finished(p, arch, nr, bs) && k <= |bs|
    ensures Exec(p, d, Start(bs, k), a) == Done(Decide(bs[k..], Load(d, Arg(0)), Load(d, Arg(1))))
    decreases |bs| - k
  {
    hide Exec, Load, Start, BlockIs, Cmds;
    if k == |bs| {
      Unfold(p, d, Start(bs, k), a);
    } else {
      StartNext(bs, k);
      StartOrder(bs, k + 1, |bs|);
      assert bs[..|bs|] == bs;
      BlockRuns(p, d, Start(bs, k), bs[k], Cmds(bs[..k]), Cmds(bs), Start(bs, |bs|), a);
      BlocksRun(p, d, arch, nr, bs, k + 1, Load(d, Arg(0)));
      assert bs[k..][1..] == bs[k + 1..];
    }
  }

  /** Running the finished program on any call gives the verdict. */
  lemma FilterRuns(p: seq<Insn>, d: Call, arch: Word, nr: Word, bs: seq<Block>)
    requires Finished(p, arch, nr, bs)
    ensures Exec(p, d, 0, 0) == Done(Verdict(arch, nr, bs, d))
  {
    hide Exec, Load, BlockIs;
    GuardRuns(p, arch, d);
    if d.arch == arch {
      Unfold(p, d, 4, d.nr);
      if d.nr == nr {
        assert bs[..0] == [] && Start(bs, 0) == 5 && bs[0..] == bs;
        BlocksRun(p, d, arch, nr, bs, 0, d.nr);
      } else {
        Unfold(p, d, Start(bs, |bs|), d.nr);
      }
    }
  }

  // ----- the registry -----

  const UNRESTRICTED := -1
  const MAXLIMITS := 32
  const MAXCMDS := 96

  /** `struct fd_limit`; a count of -1 is an unrestricted list. */
  datatype FdLimit = FdLimit(fd: int, deny: nat, ioctls: seq<int>, nioctls: int, fcntls: seq<int>, nfcntls: int)

  /** A C int or long cut to 32 bits. */
  function Low(x: int): Word {
    x % 0x1_0000_0000
  }

  predicate LimitOk(l: FdLimit) {
    |l.ioctls| == 16 && |l.fcntls| == 6 && UNRESTRICTED <= l.nioctls <= 16 && UNRESTRICTED <= l.nfcntls <= 6
  }

  function ListOf(l: FdLimit, which: nat): (r: seq<int>)
    requires LimitOk(l) && CountOf(l, which) >= 0
    ensures |r| == CountOf(l, which)
  {
    if which == 0 then l.ioctls[..l.nioctls] else l.fcntls[..l.nfcntls]
  }

  function CountOf(l: FdLimit, which: nat): int {
    if which == 0 then l.nioctls else l.nfcntls
  }

  function BlockOf(l: FdLimit, which: nat): (b: Block)
    requires LimitOk(l) && CountOf(l, which) >= 0
    ensures |b.list| == CountOf(l, which)
  {
    var list := ListOf(l, which);
    Block(Low(l.fd), seq(|list|, i requires 0 <= i < |list| => Low(list[i])))
  }

  /** The blocks of the descriptors that have a list. */
  function Blocks(limits: seq<FdLimit>, which: nat): seq<Block>
    requires forall l :: l in limits ==> LimitOk(l)
  {
    if limits == [] then []
    else
      var l := limits[|limits| - 1];
      assert LimitOk(l);
      Blocks(limits[..|limits| - 1], which) + if CountOf(l, which) >= 0 then [BlockOf(l, which)] else []
  }

  lemma {:induction false} BlocksAre(limits: seq<FdLimit>, which: nat, b: Block)
    requires forall l :: l in limits ==> LimitOk(l)
    ensures b in Blocks(limits, which) <==>
            exists i :: 0 <= i < |limits| && LimitOk(limits[i]) && CountOf(limits[i], which) >= 0 && b == BlockOf(limits[i], which)
  {
    hide BlockOf;
    if limits != [] {
      var n := |limits| - 1;
      BlocksAre(limits[..n], which, b);
      assert LimitOk(limits[n]);
      assert forall i :: 0 <= i < n ==> limits[..n][i] == limits[i];
    }
  }

  /** File descriptors are C ints; different ones stay different when cut to 32 bits. */
  predicate IsInt(x: int) {
    -0x8000_0000 <= x < 0x8000_0000
  }

  lemma LowInjective(x: int, y: int)
    requires IsInt(x) && IsInt(y) && Low(x) == Low(y)
    ensures x == y
  {
  }

  lemma {:induction false} BlocksOnePerFd(limits: seq<FdLimit>, which: nat)
    requires forall l :: l in limits ==> LimitOk(l) && IsInt(l.fd)
    requires forall i, j :: 0 <= i < j < |limits| ==> limits[i].fd != limits[j].fd
    ensures OnePerFd(Blocks(limits, which))
  {
    hide Low, IsInt;
    if limits != [] {
      var n := |limits| - 1;
      var init := limits[..n];
      var bs := Blocks(init, which);
      BlocksOnePerFd(init, which);
      assert LimitOk(limits[n]) && IsInt(limits[n].fd);
      if CountOf(limits[n], which) >= 0 {
        forall k | 0 <= k < |bs| ensures bs[k].fd != Low(limits[n].fd) {
          BlocksAre(init, which, bs[k]);
          var i :| 0 <= i < |init| && LimitOk(init[i]) && CountOf(init[i], which) >= 0 && bs[k] == BlockOf(init[i], which);
          assert init[i] == limits[i] && limits[i] in limits;
          if Low(limits[i].fd) == Low(limits[n].fd) {
            LowInjective(limits[i].fd, limits[n].fd);
          }
        }
      }
    }
  }

  /**
   What the filter decides, in terms of the registry: EPERM exactly for the filtered call on a registered
   descriptor that has a list, with a second argument whose low word is on none of its entries.
   */
  lemma RegistryVerdict(limits: seq<FdLimit>, which: nat, arch: Word, nr: Word, d: Call)
    requires forall l :: l in limits ==> LimitOk(l) && IsInt(l.fd)
    requires forall i, j :: 0 <= i < j < |limits| ==> limits[i].fd != limits[j].fd
    requires d.arch == arch
    ensures Verdict(arch, nr, Blocks(limits, which), d) ==
            if d.nr == nr && exists i :: 0 <= i < |limits| && Refuses(limits[i], which, Load(d, Arg(0)), Load(d, Arg(1)))
            then Errno else Allow
  {
    hide Low, BlockOf, IsInt;
    var bs, a0, a1 := Blocks(limits, which), Load(d, Arg(0)), Load(d, Arg(1));
    BlocksOnePerFd(limits, which);
    DecideMeans(bs, a0, a1);
    if k :| 0 <= k < |bs| && bs[k].fd == a0 && a1 !in bs[k].list {
      BlocksAre(limits, which, bs[k]);
      var i :| 0 <= i < |limits| && LimitOk(limits[i]) && CountOf(limits[i], which) >= 0 && bs[k] == BlockOf(limits[i], which);
      RefusesBlock(limits[i], which, a0, a1);
    }
    if i :| 0 <= i < |limits| && Refuses(limits[i], which, a0, a1) {
      RefusesBlock(limits[i], which, a0, a1);
      BlocksAre(limits, which, BlockOf(limits[i], which));
      var k :| 0 <= k < |bs| && bs[k] == BlockOf(limits[i], which);
      assert bs[k].fd == a0 && a1 !in bs[k].list;
    }
  }

  /** This entry is for the descriptor, has a list, and the argument is not on it. */
  predicate Refuses(l: FdLimit, which: nat, a0: Word, a1: Word) {
    && LimitOk(l) && CountOf(l, which) >= 0 && Low(l.fd) == a0
    && forall j :: 0 <= j < CountOf(l, which) ==> Low(ListOf(l, which)[j]) != a1
  }

  lemma RefusesBlock(l: FdLimit, which: nat, a0: Word, a1: Word)
    requires LimitOk(l) && CountOf(l, which) >= 0
    ensures Refuses(l, which, a0, a1) <==> BlockOf(l, which).fd == a0 && a1 !in BlockOf(l, which).list
  {
    hide Low;
    var b := BlockOf(l, which);
    assert forall j :: 0 <= j < |b.list| ==> b.list[j] == Low(ListOf(l, which)[j]);
    if a1 in b.list {
      var j :| 0 <= j < |b.list| && b.list[j] == a1;
    }
  }

  /** Where command number `c` is in the program. */
  function PlaceOf(bs: seq<Block>, c: nat): nat
    requires c < Cmds(bs)
  {
    var n := |bs| - 1;
    if c >= Cmds(bs[..n]) then Start(bs, n) + 3 + (c - Cmds(bs[..n])) else PlaceOf(bs[..n], c)
  }

  ghost predicate CmdPlaces(idx: seq<nat>, ncmd: nat, bs: seq<Block>) {
    ncmd == Cmds(bs) <= |idx| && forall c: nat :: c < ncmd ==> idx[c] == PlaceOf(bs, c)
  }

  lemma {:induction false} PlaceIs(bs: seq<Block>, c: nat, k: nat, j: nat)
    requires c < Cmds(bs) && k < |bs| && j < |bs[k].list| && Cmds(bs[..k]) + j == c
    ensures PlaceOf(bs, c) == Start(bs, k) + 3 + j
  {
    var n := |bs| - 1;
    if k < n {
      StartNext(bs, k);
      StartOrder(bs, k + 1, n);
      var init := bs[..n];
      assert init[..k] == bs[..k] && init[k] == bs[k];
      PlaceIs(init, c, k, j);
      assert Start(init, k) == Start(bs, k);
    }
  }

  lemma PlacesMore(idx: seq<nat>, idx': seq<nat>, bs: seq<Block>, b: Block)
    requires CmdPlaces(idx, Cmds(bs), bs) && |idx'| == |idx| && Cmds(bs) + |b.list| <= |idx|
    requires forall c :: 0 <= c < Cmds(bs) ==> idx'[c] == idx[c]
    requires forall c: nat :: Cmds(bs) <= c < Cmds(bs) + |b.list| ==> idx'[c] == Start(bs, |bs|) + 3 + (c - Cmds(bs))
    ensures CmdPlaces(idx', Cmds(bs) + |b.list|, bs + [b])
  {
    var bs' := bs + [b];
    assert bs'[..|bs|] == bs;
    StartSame(bs, b, |bs|);
  }

  /** LD_ARG(0) to RET_EPERM for one descriptor, its command jumps noted for patching. */
  method EmitBlock(p: Prog, cmdIdx: array<nat>, ncmd0: nat, b: Block) returns (ncmd: nat, fdIdx: nat)
    requires p.Valid() && p.len + 4 + |b.list| <= CAPACITY && ncmd0 + |b.list| <= cmdIdx.Length
    modifies p`len, p.insns, cmdIdx
    ensures p.Valid() && p.Code() == old(p.Code()) + Raw(b) && ncmd == ncmd0 + |b.list| && fdIdx == old(p.len) + 1
    ensures forall c :: 0 <= c < ncmd0 ==> cmdIdx[c] == old(cmdIdx[c])
    ensures forall c :: ncmd0 <= c < ncmd ==> cmdIdx[c] == old(p.len) + 3 + (c - ncmd0)
  {
    hide Prog.Code, Raw;
    ghost var base, block := p.Code(), Raw(b);
    RawAt(b);
    assert base + block[..0] == base;
    EmitNext(p, Ld(Arg(0)), base, block, 0);
    fdIdx := p.len;
    EmitNext(p, Jeq(b.fd, 0, 0), base, block, 1);
    EmitNext(p, Ld(Arg(1)), base, block, 2);
    ncmd := ncmd0;
    var j := 0;
    while j < |b.list|
      invariant j <= |b.list| && ncmd == ncmd0 + j && p.Valid() && p.len == old(p.len) + 3 + j && p.Code() == base + block[..3 + j]
      invariant forall c :: 0 <= c < ncmd0 ==> cmdIdx[c] == old(cmdIdx[c])
      invariant forall c :: ncmd0 <= c < ncmd ==> cmdIdx[c] == old(p.len) + 3 + (c - ncmd0)
    {
      cmdIdx[ncmd] := p.len;
      ncmd := ncmd + 1;
      EmitNext(p, Jeq(b.list[j], 0, 0), base, block, 3 + j);
      j := j + 1;
    }
    EmitNext(p, Ret(Errno), base, block, 3 + |b.list|);
    assert block[..4 + |b.list|] == block;
  }

  lemma RawAt(b: Block)
    ensures var r := Raw(b);
            && |r| == 4 + |b.list| && r[0] == Ld(Arg(0)) && r[1] == Jeq(b.fd, 0, 0) && r[2] == Ld(Arg(1))
            && (forall j :: 0 <= j < |b.list| ==> r[3 + j] == Jeq(b.list[j], 0, 0)) && r[3 + |b.list|] == Ret(Errno)
  {
  }

  /** What has been emitted when some of the registry has been gone through. */
  ghost predicate Emitted(p: seq<Insn>, arch: Word, nr: Word, bs: seq<Block>, idx: seq<nat>, ncmd: nat, prev: int) {
    && |p| == Start(bs, |bs|) && Laid(p, arch, nr, bs, 0, 0, 0, 0) && CmdPlaces(idx, ncmd, bs)
    && prev == if bs == [] then -1 else Start(bs, |bs| - 1) + 1
  }

  /** One more descriptor: the one before it falls through to it. */
  method AddBlock(p: Prog, cmdIdx: array<nat>, ncmd0: nat, prev0: int, b: Block, ghost arch: Word, ghost nr: Word, ghost bs: seq<Block>)
    returns (ncmd: nat, prev: int)
    requires p.Valid() && Emitted(p.Code(), arch, nr, bs, cmdIdx[..], ncmd0, prev0)
    requires p.len + 4 + |b.list| <= CAPACITY && ncmd0 + |b.list| <= cmdIdx.Length
    modifies p`len, p.insns, cmdIdx
    ensures p.Valid() && Emitted(p.Code(), arch, nr, bs + [b], cmdIdx[..], ncmd, prev)
  {
    hide BlockIs, Start, Cmds, Raw, Laid, PlaceOf;
    if prev0 != -1 {
      LaidLast(p.Code(), arch, nr, bs, 0, 0, NextJump(bs, |bs| - 1), 0, 0);
      StartNext(bs, |bs| - 1);
      p.PatchJf(prev0, p.len - prev0 - 1);
    }
    ghost var code, idx := p.Code(), cmdIdx[..];
    ghost var jf := if bs == [] then 0 else NextJump(bs, |bs| - 1);
    assert Laid(code, arch, nr, bs, 0, jf, 0, 0);
    LaidBlock(code, arch, nr, bs, jf, b, 0);
    ncmd, prev := EmitBlock(p, cmdIdx, ncmd0, b);
    PlacesMore(idx, cmdIdx[..], bs, b);
    StartSame(bs, b, |bs|);
  }

  /** RET_ALLOW, and all jumps to it. */
  method Finish(p: Prog, cmdIdx: array<nat>, ncmd: nat, prev: int, nrIdx: nat, ghost arch: Word, ghost nr: Word, ghost bs: seq<Block>)
    returns (allow: nat)
    requires p.Valid() && p.len < CAPACITY && bs != [] && nrIdx == 4
    requires Emitted(p.Code(), arch, nr, bs, cmdIdx[..], ncmd, prev)
    modifies p`len, p.insns
    ensures p.Valid() && allow == Start(bs, |bs|) && (allow <= 200 ==> Finished(p.Code(), arch, nr, bs))
  {
    hide BlockIs, Start, Cmds, Laid, PlaceOf;
    allow := p.len;
    ghost var n := |bs| - 1;
    LaidLonger(p.Code(), arch, nr, bs, 0, 0, 0, 0, Ret(Allow));
    p.Emit(Ret(Allow));
    assert p.Code()[allow] == Ret(Allow);
    StartNext(bs, n);
    StartLow(bs, |bs|);
    LaidLast(p.Code(), arch, nr, bs, 0, 0, NextJump(bs, n), 0, 0);
    p.PatchJf(prev, allow - prev - 1);
    LaidNr(p.Code(), arch, nr, bs, 0, NextJump(bs, n), (allow - nrIdx - 1) % 256, 0, 0);
    assert p.Code()[4] == Jeq(nr, 0, 0) by { NrJump(p.Code(), arch, nr, bs, 0, NextJump(bs, n), 0, 0); }
    p.PatchJf(nrIdx, allow - nrIdx - 1);
    NoneYet(p.Code(), arch, nr, bs, (allow - 5) % 256, NextJump(bs, n), 0, allow);
    var i := 0;
    while i < ncmd
      invariant i <= ncmd && p.Valid() && p.len == allow + 1 && p.Code()[allow] == Ret(Allow)
      invariant Laid(p.Code(), arch, nr, bs, (allow - 5) % 256, NextJump(bs, n), i, allow)
    {
      ghost var k, j := Locate(bs, i);
      PlaceIs(bs, i, k, j);
      LaidCmd(p.Code(), arch, nr, bs, (allow - 5) % 256, NextJump(bs, n), i, allow, k, j);
      p.PatchJt(cmdIdx[i], allow - cmdIdx[i] - 1);
      i := i + 1;
    }
  }

  lemma NrJump(p: seq<Insn>, arch: Word, nr: Word, bs: seq<Block>, nrjf: nat, lastjf: nat, m: nat, allow: nat)
    requires Laid(p, arch, nr, bs, nrjf, lastjf, m, allow)
    ensures 4 < |p| && p[4] == Jeq(nr, 0, nrjf)
  {
    StartLow(bs, |bs|);
  }

  /** Before any command is patched the address of RET_ALLOW is not used. */
  lemma NoneYet(p: seq<Insn>, arch: Word, nr: Word, bs: seq<Block>, nrjf: nat, lastjf: nat, allow: nat, allow': nat)
    requires Laid(p, arch, nr, bs, nrjf, lastjf, 0, allow)
    ensures Laid(p, arch, nr, bs, nrjf, lastjf, 0, allow')
  {
    hide Start, Cmds;
    forall k | 0 <= k < |bs|
      ensures BlockIs(p, Start(bs, k), bs[k], if k < |bs| - 1 then NextJump(bs, k) else lastjf, Cmds(bs[..k]), 0, allow')
    {
      assert BlockIs(p, Start(bs, k), bs[k], if k < |bs| - 1 then NextJump(bs, k) else lastjf, Cmds(bs[..k]), 0, allow);
    }
  }

  /** Guard, call number and the jump on it. */
  method EmitHead(p: Prog, arch: Word, nr: Word) returns (nrIdx: nat)
    requires p.Valid() && p.len == 0
    modifies p`len, p.insns
    ensures p.Valid() && nrIdx == 4 && forall idx :: Emitted(p.Code(), arch, nr, [], idx, 0, -1)
  {
    EmitGuard(p, arch);
    nrIdx := p.len;
    p.Emit(Jeq(nr, 0, 0));
    assert Cmds([]) == 0;
  }

  /**
   How an installation ends: with no filter needed, with one loaded, with ENOSPC, or with a command noted
   behind the end of `cmd_idx`, after which the code may do anything.
   */
  datatype Installed = NoFilter | Loaded | NoSpace | Overrun

  /** How it must end.  The jumps are looked at last, when all commands have been noted. */
  function Ending(bs: seq<Block>): Installed {
    if bs == [] then NoFilter
    else if Cmds(bs) > MAXCMDS then Overrun
    else if Start(bs, |bs|) > 200 then NoSpace
    else Loaded
  }

  /**
   `install_arg1_limits`.  The code does not look whether `cmd_idx` has room; where it would write behind
   the end the method stops.  A program that is loaded gives EPERM exactly for the registered descriptors'
   arguments that are not on their lists.
   */
  method InstallArg1Limits(limits: seq<FdLimit>, which: nat, nr: Word, arch: Word) returns (r: Installed, p: Prog)
    requires |limits| <= MAXLIMITS && forall l :: l in limits ==> LimitOk(l)
    ensures p.Valid() && fresh(p) && fresh(p.insns)
    ensures r == Ending(Blocks(limits, which))
    ensures r == Loaded ==> forall d :: Exec(p.Code(), d, 0, 0) == Done(Verdict(arch, nr, Blocks(limits, which), d))
  {
    hide BlockIs, Start, Cmds, Laid, PlaceOf, Emitted, Finished, BlockOf, Exec, Verdict;
    p := new Prog();
    var cmdIdx := new nat[MAXCMDS](_ => 0);
    ghost var all := Blocks(limits, which);
    var nblocks := CountBlocks(limits, which);
    if nblocks == 0 {
      return NoFilter, p;
    }
    var nrIdx := EmitHead(p, arch, nr);
    var ncmd: nat, prev: int, i: nat := 0, -1, 0;
    ghost var bs: seq<Block> := [];
    assert limits[..0] == [];
    while i < |limits|
      invariant i <= |limits| && bs == Blocks(limits[..i], which) && p.Valid()
      invariant Emitted(p.Code(), arch, nr, bs, cmdIdx[..], ncmd, prev)
    {
      assert limits[..i + 1][..i] == limits[..i];
      BlocksPart(limits, which, i + 1);
      Sizes(p.Code(), arch, nr, bs, cmdIdx[..], ncmd, prev);
      if CountOf(limits[i], which) >= 0 {
        var b := BlockOf(limits[i], which);
        CmdsMore(bs, b);
        if ncmd + |b.list| > MAXCMDS {
          return Overrun, p;
        }
        ncmd, prev := AddBlock(p, cmdIdx, ncmd, prev, b, arch, nr, bs);
        bs := bs + [b];
      }
      i := i + 1;
    }
    assert limits[..|limits|] == limits;
    BlocksPart(limits, which, |limits|);
    Sizes(p.Code(), arch, nr, bs, cmdIdx[..], ncmd, prev);
    var allow := Finish(p, cmdIdx, ncmd, prev, nrIdx, arch, nr, bs);
    if allow > 200 {
      return NoSpace, p;
    }
    forall d ensures Exec(p.Code(), d, 0, 0) == Done(Verdict(arch, nr, bs, d)) {
      FilterRuns(p.Code(), d, arch, nr, bs);
    }
    return Loaded, p;
  }

  method CountBlocks(limits: seq<FdLimit>, which: nat) returns (n: nat)
    requires forall l :: l in limits ==> LimitOk(l)
    ensures n == |Blocks(limits, which)|
  {
    n := 0;
    var i := 0;
    assert limits[..0] == [];
    while i < |limits|
      invariant i <= |limits| && n == |Blocks(limits[..i], which)|
    {
      assert limits[..i + 1][..i] == limits[..i];
      if CountOf(limits[i], which) >= 0 {
        n := n + 1;
      }
      i := i + 1;
    }
    assert limits[..|limits|] == limits;
  }

  lemma {:induction false} BlocksPart(limits: seq<FdLimit>, which: nat, i: nat)
    requires i <= |limits| && forall l :: l in limits ==> LimitOk(l)
    ensures Cmds(Blocks(limits[..i], which)) <= Cmds(Blocks(limits, which)) && |Blocks(limits[..i], which)| <= i
  {
    hide BlockOf;
    if |limits| == 0 {
      assert limits[..i] == limits;
    } else {
      var init := limits[..|limits| - 1];
      CmdsAppend(Blocks(init, which), limits, which);
      if i < |limits| {
        BlocksPart(init, which, i);
        assert init[..i] == limits[..i];
      } else {
        assert limits[..i] == limits;
        BlocksPart(init, which, |init|);
        assert init[..|init|] == init;
      }
    }
  }

  lemma CmdsAppend(bs: seq<Block>, limits: seq<FdLimit>, which: nat)
    requires limits != [] && forall l :: l in limits ==> LimitOk(l)
    requires bs == Blocks(limits[..|limits| - 1], which)
    ensures Cmds(Blocks(limits, which)) >= Cmds(bs) && |Blocks(limits, which)| <= |bs| + 1
  {
    hide BlockOf;
    var l := limits[|limits| - 1];
    if CountOf(l, which) >= 0 {
      CmdsMore(bs, BlockOf(l, which));
    } else {
      assert bs + [] == bs;
    }
  }

  lemma CmdsMore(bs: seq<Block>, b: Block)
    ensures Cmds(bs + [b]) == Cmds(bs) + |b.list|
  {
    assert (bs + [b])[..|bs|] == bs;
  }

  lemma Sizes(p: seq<Insn>, arch: Word, nr: Word, bs: seq<Block>, idx: seq<nat>, ncmd: nat, prev: int)
    requires Emitted(p, arch, nr, bs, idx, ncmd, prev)
    ensures ncmd == Cmds(bs) <= |idx| && |p| == 5 + 4 * |bs| + Cmds(bs)
  {
    assert bs[..|bs|] == bs;
  }

  // ----- one descriptor, after entering -----

  /** Raw code of a block, without noting where its commands are. */
  method EmitRaw(p: Prog, b: Block)
    requires p.Valid() && p.len + 4 + |b.list| <= CAPACITY
    modifies p`len, p.insns
    ensures p.Valid() && p.Code() == old(p.Code()) + Raw(b)
  {
    hide Prog.Code, Raw;
    ghost var base, block := p.Code(), Raw(b);
    RawAt(b);
    assert base + block[..0] == base;
    EmitNext(p, Ld(Arg(0)), base, block, 0);
    EmitNext(p, Jeq(b.fd, 0, 0), base, block, 1);
    EmitNext(p, Ld(Arg(1)), base, block, 2);
    var i := 0;
    while i < |b.list|
      invariant i <= |b.list| && p.Valid() && p.len == old(p.len) + 3 + i && p.Code() == base + block[..3 + i]
    {
      EmitNext(p, Jeq(b.list[i], 0, 0), base, block, 3 + i);
      i := i + 1;
    }
    EmitNext(p, Ret(Errno), base, block, 3 + |b.list|);
    assert block[..4 + |b.list|] == block;
  }

  lemma OneBlock(b: Block)
    ensures Start([b], 0) == 5 && Start([b], 1) == 9 + |b.list| && Cmds([b][..0]) == 0 && Cmds([b]) == |b.list| && Start([], 0) == 5
  {
    assert [b][..0] == [] && [b][..1] == [b];
  }

  /** `limit_fd_arg1`: the same decision for one descriptor, its jumps patched from their known distances. */
  method LimitFdArg1(fd: int, nr: Word, arch: Word, allowed: seq<int>) returns (p: Prog)
    requires |allowed| <= 16
    ensures p.Valid() && fresh(p)
    ensures var b := Block(Low(fd), seq(|allowed|, i requires 0 <= i < |allowed| => Low(allowed[i])));
            forall d :: Exec(p.Code(), d, 0, 0) == Done(Verdict(arch, nr, [b], d))
  {
    hide BlockIs, Start, Cmds, Laid, Exec, Verdict, Low, Raw;
    p := new Prog();
    var b := Block(Low(fd), seq(|allowed|, i requires 0 <= i < |allowed| => Low(allowed[i])));
    ghost var bs := [b];
    OneBlock(b);
    var start := EmitHead(p, arch, nr);
    ghost var head := p.Code();
    assert Emitted(head, arch, nr, [], [], 0, -1);
    LaidBlock(head, arch, nr, [], 0, b, 0);
    assert [] + [b] == bs;
    EmitRaw(p, b);
    var allow := p.len;
    LaidLonger(p.Code(), arch, nr, bs, 0, 0, 0, 0, Ret(Allow));
    p.Emit(Ret(Allow));
    assert p.Code()[allow] == Ret(Allow);
    NrJump(p.Code(), arch, nr, bs, 0, 0, 0, 0);
    LaidNr(p.Code(), arch, nr, bs, 0, 0, (allow - start - 1) % 256, 0, 0);
    var idx := start;
    p.PatchJf(idx, allow - idx - 1);
    idx := idx + 2;
    LaidLast(p.Code(), arch, nr, bs, (allow - 5) % 256, 0, NextJump(bs, 0), 0, 0);
    p.PatchJf(idx, allow - idx - 1);
    idx := idx + 2;
    NoneYet(p.Code(), arch, nr, bs, (allow - 5) % 256, NextJump(bs, 0), 0, allow);
    var i := 0;
    while i < |allowed|
      invariant i <= |allowed| && idx == start + 4 + i && p.Valid() && p.len == allow + 1 && p.Code()[allow] == Ret(Allow)
      invariant Laid(p.Code(), arch, nr, bs, (allow - 5) % 256, NextJump(bs, 0), i, allow)
    {
      LaidCmd(p.Code(), arch, nr, bs, (allow - 5) % 256, NextJump(bs, 0), i, allow, 0, i);
      p.PatchJt(idx, allow - idx - 1);
      i, idx := i + 1, idx + 1;
    }
    forall d ensures Exec(p.Code(), d, 0, 0) == Done(Verdict(arch, nr, bs, d)) {
      FilterRuns(p.Code(), d, arch, nr, bs);
    }
  }

  // ----- registering lists -----

  const LISTMAX := 16

  /** The elements of a list that are on another one too. */
  function Kept(s: seq<int>, src: seq<int>): (r: seq<int>)
    ensures |r| <= |s| && forall x :: x in r <==> x in s && x in src
  {
    if s == [] then []
    else
      assert s == s[..|s| - 1] + [s[|s| - 1]];
      Kept(s[..|s| - 1], src) + if s[|s| - 1] in src then [s[|s| - 1]] else []
  }

  function Cut(src: seq<int>): seq<int> {
    if |src| > LISTMAX then src[..LISTMAX] else src
  }

  /** What a registration makes of a list; -1 means nothing was registered yet. */
  function Merged(dst: seq<int>, dn: int, src: seq<int>): seq<int>
    requires dn <= |dst|
  {
    if dn < 0 then Cut(src) else Kept(dst[..dn], src)
  }

  /** `lim_merge`: adopt the first list, then only narrow it, in place. */
  method LimMerge(dst: seq<int>, dn: int, src: seq<int>) returns (dst': seq<int>, dn': int)
    requires UNRESTRICTED <= dn <= |dst| && (dn < 0 ==> |Cut(src)| <= |dst|)
    ensures |dst'| == |dst| && 0 <= dn' <= |dst| && dst'[..dn'] == Merged(dst, dn, src)
  {
    dst' := dst;
    if dn < 0 {
      var sn := if |src| > LISTMAX then LISTMAX else |src|;
      var i := 0;
      while i < sn
        invariant 0 <= i <= sn && |dst'| == |dst| && dst'[..i] == src[..i]
      {
        dst' := dst'[i := src[i]];
        i := i + 1;
      }
      return dst', sn;
    }
    dst', dn' := Intersect(dst, dn, src);
  }

  /** Keep, at the front of the list, what is on the other one too. */
  method Intersect(dst: seq<int>, dn: nat, src: seq<int>) returns (dst': seq<int>, n: nat)
    requires dn <= |dst|
    ensures |dst'| == |dst| && n <= dn && dst'[..n] == Kept(dst[..dn], src)
  {
    hide Kept;
    dst', n := dst, 0;
    var i := 0;
    KeptNothing(dst, src);
    while i < dn
      invariant n <= i <= dn && |dst'| == |dst| && dst'[..n] == Kept(dst[..i], src)
      invariant forall k :: i <= k < |dst| ==> dst'[k] == dst[k]
    {
      KeptNext(dst, i, src);
      var found := false;
      var j := 0;
      while j < |src| && !found
        invariant 0 <= j <= |src| && (found <==> dst[i] in src[..j])
      {
        found := dst'[i] == src[j];
        j := j + 1;
      }
      assert found <==> dst[i] in src;
      if found {
        dst' := dst'[n := dst'[i]];
        n := n + 1;
      }
      i := i + 1;
    }
  }

  lemma KeptNothing(s: seq<int>, src: seq<int>)
    ensures Kept(s[..0], src) == []
  {
  }

  lemma KeptNext(s: seq<int>, i: nat, src: seq<int>)
    requires i < |s|
    ensures Kept(s[..i + 1], src) == Kept(s[..i], src) + if s[i] in src then [s[i]] else []
  {
    assert s[..i + 1][..i] == s[..i];
  }

  /** After any number of registrations the list holds what every one of them allowed. */
  function Registered(lists: seq<seq<int>>): seq<int>
    requires lists != []
  {
    if |lists| == 1 then Cut(lists[0]) else Kept(Registered(lists[..|lists| - 1]), lists[|lists| - 1])
  }

  lemma {:induction false} RegisteredMeans(lists: seq<seq<int>>, x: int)
    requires lists != []
    ensures x in Registered(lists) <==> x in Cut(lists[0]) && forall i :: 0 < i < |lists| ==> x in lists[i]
  {
    if |lists| > 1 {
      var init := lists[..|lists| - 1];
      RegisteredMeans(init, x);
      assert forall i :: 0 < i < |init| ==> init[i] == lists[i];
    }
  }

  /** One more `lim_merge` on a list that is the outcome of all registrations so far. */
  lemma MergeRegisters(lists: seq<seq<int>>, dst: seq<int>, dn: int, src: seq<int>)
    requires dn <= |dst| && (dn < 0 <==> lists == []) && (dn >= 0 ==> dst[..dn] == Registered(lists))
    ensures Merged(dst, dn, src) == Registered(lists + [src])
  {
    assert (lists + [src])[..|lists|] == lists;
  }

  /** The commands all registrations of a history allow; only sixteen of a list are looked at. */
  ghost predicate AllowedBy(lists: seq<seq<int>>, x: int) {
    forall k :: 0 <= k < |lists| ==> x in Cut(lists[k])
  }

  function CutAll(lists: seq<seq<int>>): (r: seq<seq<int>>)
    ensures |r| == |lists| && forall k :: 0 <= k < |lists| ==> r[k] == Cut(lists[k])
  {
    seq(|lists|, k requires 0 <= k < |lists| => Cut(lists[k]))
  }

  /** An entry's list is what its history of registrations leaves. */
  ghost predicate ListIs(l: FdLimit, which: nat, lists: seq<seq<int>>) {
    && LimitOk(l) && (CountOf(l, which) < 0 <==> lists == [])
    && (CountOf(l, which) >= 0 ==> ListOf(l, which) == Registered(CutAll(lists)))
  }

  /** The histories of the descriptors, entry by entry. */
  ghost predicate Records(limits: seq<FdLimit>, which: nat, history: map<int, seq<seq<int>>>) {
    && (forall i :: 0 <= i < |limits| ==> limits[i].fd in history && ListIs(limits[i], which, history[limits[i].fd]))
    && (forall fd :: fd in history ==> exists i :: 0 <= i < |limits| && limits[i].fd == fd)
  }

  lemma CutAgain(src: seq<int>)
    ensures Cut(Cut(src)) == Cut(src) && |Cut(src)| <= LISTMAX
  {
  }

  lemma ListMore(l: FdLimit, which: nat, lists: seq<seq<int>>, cmds: seq<int>)
    requires ListIs(l, which, lists)
    ensures CountOf(l, which) >= 0 ==> Kept(ListOf(l, which), Cut(cmds)) == Registered(CutAll(lists + [cmds]))
    ensures CountOf(l, which) < 0 ==> Cut(cmds) == Registered(CutAll(lists + [cmds]))
  {
    var all := CutAll(lists + [cmds]);
    assert all[..|lists|] == CutAll(lists);
    CutAgain(cmds);
  }

  lemma ListAllows(l: FdLimit, which: nat, lists: seq<seq<int>>, x: int)
    requires ListIs(l, which, lists) && lists != []
    ensures x in ListOf(l, which) <==> AllowedBy(lists, x)
  {
    RegisteredMeans(CutAll(lists), x);
    CutAgain(lists[0]);
  }

  /** The call is on a descriptor with a history, and its argument is outside what all of that allows. */
  ghost predicate OutsideHistory(history: map<int, seq<seq<int>>>, a0: Word, a1: Word) {
    exists fd :: fd in history && history[fd] != [] && Low(fd) == a0 && forall x :: AllowedBy(history[fd], x) ==> Low(x) != a1
  }

  lemma RefusesOutside(limits: seq<FdLimit>, which: nat, history: map<int, seq<seq<int>>>, a0: Word, a1: Word)
    requires Records(limits, which, history)
    ensures (exists i :: 0 <= i < |limits| && Refuses(limits[i], which, a0, a1)) <==> OutsideHistory(history, a0, a1)
  {
    hide Low, AllowedBy, ListIs;
    forall i | 0 <= i < |limits| ensures var h := history[limits[i].fd];
      Refuses(limits[i], which, a0, a1) <==> h != [] && Low(limits[i].fd) == a0 && forall x :: AllowedBy(h, x) ==> Low(x) != a1
    {
      OneRefuses(limits[i], which, history[limits[i].fd], a0, a1);
    }
    if i :| 0 <= i < |limits| && Refuses(limits[i], which, a0, a1) {
      assert limits[i].fd in history;
    }
    if fd :| fd in history && history[fd] != [] && Low(fd) == a0 && forall x :: AllowedBy(history[fd], x) ==> Low(x) != a1 {
      var i :| 0 <= i < |limits| && limits[i].fd == fd;
      assert Refuses(limits[i], which, a0, a1);
    }
  }

  lemma OneRefuses(l: FdLimit, which: nat, lists: seq<seq<int>>, a0: Word, a1: Word)
    requires ListIs(l, which, lists)
    ensures Refuses(l, which, a0, a1) <==> lists != [] && Low(l.fd) == a0 && forall x :: AllowedBy(lists, x) ==> Low(x) != a1
  {
    hide Low, AllowedBy;
    if lists != [] {
      forall x: int ensures x in ListOf(l, which) <==> AllowedBy(lists, x) {
        ListAllows(l, which, lists, x);
      }
      if Refuses(l, which, a0, a1) {
        forall x | AllowedBy(lists, x) ensures Low(x) != a1 {
          var j :| 0 <= j < |ListOf(l, which)| && ListOf(l, which)[j] == x;
        }
      } else if Low(l.fd) == a0 {
        var j :| 0 <= j < CountOf(l, which) && Low(ListOf(l, which)[j]) == a1;
        assert AllowedBy(lists, ListOf(l, which)[j]);
      }
    }
  }

  const F_GETFD := 1
  const F_SETFD := 2
  const F_GETFL := 3
  const F_SETFL := 4

  /** The registry of descriptors, with what was registered for each. */
  class Registry {
    var limits: seq<FdLimit>
    ghost var ioctlHistory: map<int, seq<seq<int>>>
    ghost var fcntlHistory: map<int, seq<seq<int>>>

    ghost predicate Valid()
      reads this
    {
      && |limits| <= MAXLIMITS && (forall i :: 0 <= i < |limits| ==> LimitOk(limits[i]) && IsInt(limits[i].fd))
      && (forall i, j :: 0 <= i < j < |limits| ==> limits[i].fd != limits[j].fd)
      && Records(limits, 0, ioctlHistory) && Records(limits, 1, fcntlHistory)
    }

    /** No room for one more descriptor. */
    ghost predicate Full(fd: int)
      reads this
    {
      |limits| == MAXLIMITS && forall i :: 0 <= i < |limits| ==> limits[i].fd != fd
    }

    constructor ()
      ensures Valid() && limits == [] && ioctlHistory == fcntlHistory == map[]
    {
      limits, ioctlHistory, fcntlHistory := [], map[], map[];
    }

    /** `lim_find`: the descriptor's entry, made if there is room; -1 when there is not. */
    method LimFind(fd: int) returns (at: int)
      requires Valid() && IsInt(fd)
      modifies this
      ensures Valid() && old(limits) <= limits
      ensures at == -1 <==> old(Full(fd))
      ensures at == -1 ==> limits == old(limits) && ioctlHistory == old(ioctlHistory) && fcntlHistory == old(fcntlHistory)
      ensures at != -1 ==> 0 <= at <= |old(limits)| && |limits| == Grown(|old(limits)|, at) && limits[at].fd == fd
      ensures at != -1 ==> ioctlHistory == Known(old(ioctlHistory), fd) && fcntlHistory == Known(old(fcntlHistory), fd)
      ensures at != -1 && (exists i :: 0 <= i < |old(limits)| && old(limits)[i].fd == fd) ==> limits == old(limits)
      ensures at != -1 && at >= |old(limits)| ==> limits[at].nioctls == limits[at].nfcntls == UNRESTRICTED && limits[at].deny == 0
    {
      hide ListIs, IsInt;
      var i := 0;
      while i < |limits|
        invariant 0 <= i <= |limits| && forall k :: 0 <= k < i ==> limits[k].fd != fd
      {
        if limits[i].fd == fd {
          return i;
        }
        i := i + 1;
      }
      if |limits| == MAXLIMITS {
        return -1;
      }
      var l := FdLimit(fd, 0, seq(16, i => 0), UNRESTRICTED, seq(6, i => 0), UNRESTRICTED);
      FreshEntry(l);
      ghost var before := limits;
      limits := limits + [l];
      ioctlHistory, fcntlHistory := ioctlHistory[fd := []], fcntlHistory[fd := []];
      RecordsNew(before, l, 0, old(ioctlHistory));
      RecordsNew(before, l, 1, old(fcntlHistory));
      return |limits| - 1;
    }

    /** The part of `caph_ioctls_limit` before entering: at most sixteen commands. */
    method LimitIoctls(fd: int, cmds: seq<int>) returns (r: int, ghost at: int)
      requires Valid() && IsInt(fd)
      modifies this
      ensures Valid() && r == (if at == -1 then -1 else 0) && (at == -1 <==> old(Full(fd)))
      ensures at == -1 ==> limits == old(limits)
      ensures at != -1 ==> 0 <= at < |limits| && limits[at].fd == fd && Narrowed(old(limits), limits, at, 0, cmds)
      ensures fcntlHistory == if r == -1 then old(fcntlHistory) else Known(old(fcntlHistory), fd)
      ensures ioctlHistory == if r == -1 then old(ioctlHistory) else Longer(old(ioctlHistory), fd, cmds)
    {
      hide ListIs, IsInt, Kept, Records;
      var allowed := if |cmds| < LISTMAX then cmds else cmds[..LISTMAX];
      var i := LimFind(fd);
      if i == -1 {
        return -1, -1;
      }
      var l := limits[i];
      RecordOf(limits, i, 0, ioctlHistory);
      RecordOf(limits, i, 1, fcntlHistory);
      assert LimitOk(l) && allowed == Cut(cmds);
      CutAgain(cmds);
      var dst, dn := LimMerge(l.ioctls, l.nioctls, allowed);
      var l' := l.(ioctls := dst, nioctls := dn);
      MergedEntry(l, l', 0, ioctlHistory[fd], cmds);
      SameEntry(l, l', 1, fcntlHistory[fd]);
      RecordsSet(limits, i, l', 0, ioctlHistory, ioctlHistory[fd] + [cmds]);
      RecordsSet(limits, i, l', 1, fcntlHistory, fcntlHistory[fd]);
      ioctlHistory := ioctlHistory[fd := ioctlHistory[fd] + [cmds]];
      limits := limits[i := l'];
      assert fcntlHistory[fd := fcntlHistory[fd]] == fcntlHistory;
      return 0, i;
    }

    /** The part of `caph_fcntls_limit` before entering. */
    method LimitFcntls(fd: int, getfl: bool, setfl: bool) returns (r: int, ghost at: int)
      requires Valid() && IsInt(fd)
      modifies this
      ensures Valid() && r == (if at == -1 then -1 else 0) && (at == -1 <==> old(Full(fd)))
      ensures at == -1 ==> limits == old(limits)
      ensures at != -1 ==> 0 <= at < |limits| && limits[at].fd == fd && Narrowed(old(limits), limits, at, 1, Fcntls(getfl, setfl))
      ensures ioctlHistory == if r == -1 then old(ioctlHistory) else Known(old(ioctlHistory), fd)
      ensures fcntlHistory == if r == -1 then old(fcntlHistory) else Longer(old(fcntlHistory), fd, Fcntls(getfl, setfl))
    {
      hide ListIs, IsInt, Kept, Records;
      var allowed := FcntlList(getfl, setfl);
      var i := LimFind(fd);
      if i == -1 {
        return -1, -1;
      }
      var l := limits[i];
      RecordOf(limits, i, 0, ioctlHistory);
      RecordOf(limits, i, 1, fcntlHistory);
      assert LimitOk(l) && allowed == Cut(allowed);
      var dst, dn := LimMerge(l.fcntls, l.nfcntls, allowed);
      var l' := l.(fcntls := dst, nfcntls := dn);
      MergedEntry(l, l', 1, fcntlHistory[fd], allowed);
      SameEntry(l, l', 0, ioctlHistory[fd]);
      RecordsSet(limits, i, l', 1, fcntlHistory, fcntlHistory[fd] + [allowed]);
      RecordsSet(limits, i, l', 0, ioctlHistory, ioctlHistory[fd]);
      fcntlHistory := fcntlHistory[fd := fcntlHistory[fd] + [allowed]];
      limits := limits[i := l'];
      assert ioctlHistory[fd := ioctlHistory[fd]] == ioctlHistory;
      return 0, i;
    }

    /**
     One of the two filters put together from the registry: after any history of registrations it refuses
     exactly the filtered calls on a registered descriptor whose argument not all its registrations allow.
     */
    method Install(which: nat, nr: Word, arch: Word) returns (r: Installed, p: Prog)
      requires Valid() && which <= 1
      ensures p.Valid() && fresh(p) && r == Ending(Blocks(limits, which))
      ensures var history := if which == 0 then ioctlHistory else fcntlHistory;
              && (r == NoFilter <==> !exists fd :: fd in history && history[fd] != [])
              && (r == Loaded ==> forall d ::
                    Exec(p.Code(), d, 0, 0) ==
                    Done(if d.arch != arch then Kill
                         else if d.nr == nr && OutsideHistory(history, Load(d, Arg(0)), Load(d, Arg(1))) then Errno
                         else Allow))
    {
      hide Exec, Verdict, Blocks, Records, OutsideHistory, IsInt, Cmds, Start, Load;
      r, p := InstallArg1Limits(limits, which, nr, arch);
      ghost var history := if which == 0 then ioctlHistory else fcntlHistory;
      SomeHistory(limits, which, history);
      if r == Loaded {
        forall d ensures Exec(p.Code(), d, 0, 0) ==
                         Done(if d.arch != arch then Kill
                              else if d.nr == nr && OutsideHistory(history, Load(d, Arg(0)), Load(d, Arg(1))) then Errno
                              else Allow)
        {
          VerdictByHistory(limits, which, history, arch, nr, d);
        }
      }
    }
  }

  lemma VerdictByHistory(limits: seq<FdLimit>, which: nat, history: map<int, seq<seq<int>>>, arch: Word, nr: Word, d: Call)
    requires Records(limits, which, history) && forall l :: l in limits ==> LimitOk(l) && IsInt(l.fd)
    requires forall i, j :: 0 <= i < j < |limits| ==> limits[i].fd != limits[j].fd
    ensures Verdict(arch, nr, Blocks(limits, which), d) ==
            if d.arch != arch then Kill
            else if d.nr == nr && OutsideHistory(history, Load(d, Arg(0)), Load(d, Arg(1))) then Errno
            else Allow
  {
    hide OutsideHistory, Records, IsInt, Decide, Blocks, Refuses;
    if d.arch == arch {
      RegistryVerdict(limits, which, arch, nr, d);
      RefusesOutside(limits, which, history, Load(d, Arg(0)), Load(d, Arg(1)));
    }
  }

  /** There is a block exactly when something was registered. */
  lemma SomeHistory(limits: seq<FdLimit>, which: nat, history: map<int, seq<seq<int>>>)
    requires Records(limits, which, history) && forall l :: l in limits ==> LimitOk(l)
    ensures Blocks(limits, which) != [] <==> exists fd :: fd in history && history[fd] != []
  {
    hide BlockOf;
    var bs := Blocks(limits, which);
    if bs != [] {
      BlocksAre(limits, which, bs[0]);
      var i :| 0 <= i < |limits| && LimitOk(limits[i]) && CountOf(limits[i], which) >= 0 && bs[0] == BlockOf(limits[i], which);
      assert limits[i].fd in history && history[limits[i].fd] != [];
    }
    if fd :| fd in history && history[fd] != [] {
      var i :| 0 <= i < |limits| && limits[i].fd == fd;
      BlocksAre(limits, which, BlockOf(limits[i], which));
    }
  }

  /** The two on the descriptor's own flags always, those on the file's as asked. */
  lemma FcntlsAre(getfl: bool, setfl: bool, x: int)
    ensures x in Fcntls(getfl, setfl) <==> x == 1 || x == 2 || (x == 3 && getfl) || (x == 4 && setfl)
  {
  }

  function Fcntls(getfl: bool, setfl: bool): seq<int> {
    [F_GETFD, F_SETFD] + (if getfl then [F_GETFL] else []) + (if setfl then [F_SETFL] else [])
  }

  /** The list `caph_fcntls_limit` puts together from the rights. */
  method FcntlList(getfl: bool, setfl: bool) returns (allowed: seq<int>)
    ensures allowed == Fcntls(getfl, setfl) && |allowed| <= 4
  {
    allowed := [F_GETFD, F_SETFD];
    if getfl {
      allowed := allowed + [F_GETFL];
    }
    if setfl {
      allowed := allowed + [F_SETFL];
    }
  }

  /** The entries differ in the list alone. */
  predicate SameBut(l: FdLimit, l': FdLimit, which: nat) {
    if which == 0 then l' == l.(ioctls := l'.ioctls, nioctls := l'.nioctls)
    else l' == l.(fcntls := l'.fcntls, nfcntls := l'.nfcntls)
  }

  /** How many entries there are when entry `at` is among them. */
  function Grown(n: nat, at: int): nat {
    if at < n then n else n + 1
  }

  /** One entry's list narrowed to what it had and what is registered now; the other entries as they were. */
  ghost predicate Narrowed(before: seq<FdLimit>, after: seq<FdLimit>, at: nat, which: nat, cmds: seq<int>) {
    && at <= |before| && |after| == Grown(|before|, at)
    && LimitOk(after[at]) && CountOf(after[at], which) >= 0
    && (at < |before| ==> LimitOk(before[at]) && SameBut(before[at], after[at], which))
    && (at < |before| && CountOf(before[at], which) >= 0 ==>
          ListOf(after[at], which) == Kept(ListOf(before[at], which), Cut(cmds)))
    && (at >= |before| || CountOf(before[at], which) < 0 ==> ListOf(after[at], which) == Cut(cmds))
    && (forall i :: 0 <= i < |before| && i < |after| && i != at ==> after[i] == before[i])
  }

  /** A history with one more descriptor, if it is a new one. */
  ghost function Known(history: map<int, seq<seq<int>>>, fd: int): map<int, seq<seq<int>>> {
    if fd in history then history else history[fd := []]
  }

  /** A history with one more registration for a descriptor. */
  ghost function Longer(history: map<int, seq<seq<int>>>, fd: int, cmds: seq<int>): map<int, seq<seq<int>>> {
    history[fd := (if fd in history then history[fd] else []) + [cmds]]
  }

  lemma RecordOf(limits: seq<FdLimit>, i: nat, which: nat, history: map<int, seq<seq<int>>>)
    requires Records(limits, which, history) && i < |limits|
    ensures limits[i].fd in history && ListIs(limits[i], which, history[limits[i].fd])
  {
  }

  lemma FreshEntry(l: FdLimit)
    requires LimitOk(l) && l.nioctls == l.nfcntls == UNRESTRICTED
    ensures ListIs(l, 0, []) && ListIs(l, 1, [])
  {
  }

  lemma RecordsNew(limits: seq<FdLimit>, l: FdLimit, which: nat, history: map<int, seq<seq<int>>>)
    requires Records(limits, which, history) && ListIs(l, which, [])
    requires forall i :: 0 <= i < |limits| ==> limits[i].fd != l.fd
    ensures Records(limits + [l], which, history[l.fd := []]) && l.fd !in history
  {
    hide ListIs;
    var limits', history' := limits + [l], history[l.fd := []];
    forall fd | fd in history' ensures exists i :: 0 <= i < |limits'| && limits'[i].fd == fd {
      if fd == l.fd {
        assert limits'[|limits|].fd == fd;
      } else {
        var i :| 0 <= i < |limits| && limits[i].fd == fd;
        assert limits'[i].fd == fd;
      }
    }
  }

  lemma RecordsSet(limits: seq<FdLimit>, at: nat, l: FdLimit, which: nat, history: map<int, seq<seq<int>>>, lists: seq<seq<int>>)
    requires Records(limits, which, history) && at < |limits| && l.fd == limits[at].fd && ListIs(l, which, lists)
    requires forall i, j :: 0 <= i < j < |limits| ==> limits[i].fd != limits[j].fd
    ensures Records(limits[at := l], which, history[l.fd := lists])
  {
    hide ListIs;
    var limits', history' := limits[at := l], history[l.fd := lists];
    forall fd | fd in history' ensures exists i :: 0 <= i < |limits'| && limits'[i].fd == fd {
      var i :| 0 <= i < |limits| && limits[i].fd == fd;
      assert limits'[i].fd == fd;
    }
  }

  lemma MergedEntry(l: FdLimit, l': FdLimit, which: nat, lists: seq<seq<int>>, cmds: seq<int>)
    requires which <= 1 && ListIs(l, which, lists) && LimitOk(l') && CountOf(l', which) >= 0
    requires which == 0 ==> ListOf(l', 0) == Merged(l.ioctls, l.nioctls, Cut(cmds))
    requires which == 1 ==> ListOf(l', 1) == Merged(l.fcntls, l.nfcntls, Cut(cmds))
    ensures ListIs(l', which, lists + [cmds])
  {
    hide Kept, Registered;
    CutAgain(cmds);
    ListMore(l, which, lists, cmds);
  }

  lemma SameEntry(l: FdLimit, l': FdLimit, which: nat, lists: seq<seq<int>>)
    requires ListIs(l, which, lists) && LimitOk(l') && CountOf(l', which) == CountOf(l, which)
    requires CountOf(l, which) >= 0 ==> ListOf(l', which) == ListOf(l, which)
    ensures ListIs(l', which, lists)
  {
  }

  // ----- more commands than the program has room to note -----

  lemma {:induction false} SixteenEach(limits: seq<FdLimit>)
    requires forall l :: l in limits ==> LimitOk(l) && l.nioctls == 16
    ensures |Blocks(limits, 0)| == |limits| && Cmds(Blocks(limits, 0)) == 16 * |limits|
  {
    if limits != [] {
      var n := |limits| - 1;
      assert limits[n] in limits;
      SixteenEach(limits[..n]);
      CmdsMore(Blocks(limits[..n], 0), BlockOf(limits[n], 0));
    }
  }

  /**
   Seven descriptors with sixteen commands each: the jumps of the program would be within reach, but there
   is no room to note where the commands are.
   */
  method SevenDescriptors(nr: Word, arch: Word) returns (g: Registry, r: Installed)
    ensures g.Valid() && |g.limits| == 7 && r == Overrun
    ensures var bs := Blocks(g.limits, 0); Start(bs, |bs|) == 145
  {
    hide Exec, Blocks, Records, LimitOk, OutsideHistory;
    g := new Registry();
    var cmds := seq(16, k => k);
    var fd := 0;
    while fd < 7
      invariant 0 <= fd <= 7 && g.Valid() && fresh(g) && |g.limits| == fd
      invariant forall k :: 0 <= k < fd ==> g.limits[k].fd == k && g.limits[k].nioctls == 16
    {
      var _, at := g.LimitIoctls(fd, cmds);
      assert at == fd;
      fd := fd + 1;
    }
    SixteenEach(g.limits);
    ghost var bs := Blocks(g.limits, 0);
    assert bs[..|bs|] == bs;
    var p;
    r, p := g.Install(0, nr, arch);
  }
}
