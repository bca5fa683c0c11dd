/**
 Symbolic file modes as lists of bit commands: `getmode` runs a list, `compress_mode` shortens it in
 place, `addcmd` builds it.  Shortening does not change what the list does.
 */
module SetMode {

  /** A mode is the set of its bits, numbered from 0. */
  type Mode = set<nat>

  const S_IFDIR: Mode := {14}
  const S_ISUID: Mode := {11}
  const S_ISGID: Mode := {10}
  const S_ISTXT: Mode := {9}
  const S_IRWXU: Mode := {6, 7, 8}
  const S_IRWXG: Mode := {3, 4, 5}
  const S_IRWXO: Mode := {0, 1, 2}
  const S_IRUSR: Mode := {8}
  const S_IRGRP: Mode := {5}
  const S_IROTH: Mode := {2}
  const S_IXUGO: Mode := {0, 3, 6}
  const STANDARD_BITS: Mode := S_ISUID + S_ISGID + S_IRWXU + S_IRWXG + S_IRWXO
  const ALLBITS: Mode := set b: nat | b < 32

  datatype Flag = CLR | SET | GBITS | OBITS | UBITS

  const NUL := '\0'

  datatype BitCmd = BitCmd(cmd: char, cmd2: set<Flag>, bits: Mode)

  predicate Plain(c: BitCmd) {
    c.cmd != '+' && c.cmd != '-' && c.cmd != 'X'
  }

  predicate Copies(c: BitCmd) {
    c.cmd == 'u' || c.cmd == 'g' || c.cmd == 'o'
  }

  /** A command that ends the list: the terminator, or anything unknown. */
  predicate Stops(c: BitCmd) {
    Plain(c) && !Copies(c)
  }

  // ----- what a list does -----

  /** `v << n` and `v >> n`. */
  function Shl(v: Mode, n: nat): Mode {
    set b | b in v :: b + n
  }

  function Shr(v: Mode, n: nat): Mode {
    set b | b in v && b >= n :: b - n
  }

  /** The bits of user, group or others, moved to the lowest three. */
  function Value(cmd: char, mode: Mode): Mode {
    if cmd == 'u' then Shr(mode * S_IRWXU, 6)
    else if cmd == 'g' then Shr(mode * S_IRWXG, 3)
    else mode * S_IRWXO
  }

  /** Three bits put into the places a command names. */
  function Spread(v: Mode, cmd2: set<Flag>): Mode {
    (if UBITS in cmd2 then Shl(v, 6) else {}) + (if GBITS in cmd2 then Shl(v, 3) else {}) + (if OBITS in cmd2 then v else {})
  }

  function CopyStep(c: BitCmd, mode: Mode): Mode {
    var value := Value(c.cmd, mode);
    var clr := if SET in c.cmd2 then S_IRWXO else value;
    var cleared := if CLR in c.cmd2 then mode - Spread(clr, c.cmd2) * c.bits else mode;
    if SET in c.cmd2 then cleared + Spread(value, c.cmd2) * c.bits else cleared
  }

  predicate Executable(omode: Mode) {
    omode * (S_IFDIR + S_IXUGO) != {}
  }

  function Step(c: BitCmd, omode: Mode, mode: Mode): Mode {
    if Copies(c) then CopyStep(c, mode)
    else if c.cmd == '+' then mode + c.bits
    else if c.cmd == '-' then mode - c.bits
    else if c.cmd == 'X' && Executable(omode) then mode + c.bits
    else mode
  }

  /** The mode a list makes of `mode`; `omode` is the file's own. */
  function Run(s: seq<BitCmd>, omode: Mode, mode: Mode): Mode {
    if s == [] || Stops(s[0]) then mode else Run(s[1..], omode, Step(s[0], omode, mode))
  }

  /** A terminated list. */
  predicate Terminated(s: seq<BitCmd>) {
    s != [] && (s[0].cmd == NUL || Terminated(s[1..]))
  }

  /** The branch of `getmode` for `u`, `g` and `o`. */
  method CopyBits(c: BitCmd, mode: Mode) returns (newmode: Mode)
    requires Copies(c)
    ensures newmode == CopyStep(c, mode)
  {
    hide Shl, Shr;
    newmode := mode;
    var value;
    if c.cmd == 'u' {
      value := Shr(newmode * S_IRWXU, 6);
    } else if c.cmd == 'g' {
      value := Shr(newmode * S_IRWXG, 3);
    } else {
      value := newmode * S_IRWXO;
    }
    if CLR in c.cmd2 {
      var clrval := if SET in c.cmd2 then S_IRWXO else value;
      if UBITS in c.cmd2 {
        newmode := newmode - Shl(clrval, 6) * c.bits;
      }
      if GBITS in c.cmd2 {
        newmode := newmode - Shl(clrval, 3) * c.bits;
      }
      if OBITS in c.cmd2 {
        newmode := newmode - clrval * c.bits;
      }
      assert newmode == mode - Spread(clrval, c.cmd2) * c.bits;
    }
    if SET in c.cmd2 {
      ghost var cleared := newmode;
      if UBITS in c.cmd2 {
        newmode := newmode + Shl(value, 6) * c.bits;
      }
      if GBITS in c.cmd2 {
        newmode := newmode + Shl(value, 3) * c.bits;
      }
      if OBITS in c.cmd2 {
        newmode := newmode + value * c.bits;
      }
      assert newmode == cleared + Spread(value, c.cmd2) * c.bits;
    }
  }

  method GetMode(bbox: array<BitCmd>, omode: Mode) returns (newmode: Mode)
    requires Terminated(bbox[..])
    ensures newmode == Run(bbox[..], omode, omode)
  {
    newmode := omode;
    var pos := 0;
    assert bbox[0..] == bbox[..];
    while true
      invariant pos < bbox.Length && Terminated(bbox[pos..])
      invariant Run(bbox[pos..], omode, newmode) == Run(bbox[..], omode, omode)
      decreases bbox.Length - pos
    {
      var c := bbox[pos];
      assert bbox[pos..][0] == c && bbox[pos..][1..] == bbox[pos + 1..];
      if Copies(c) {
        newmode := CopyBits(c, newmode);
      } else if c.cmd == '+' {
        newmode := newmode + c.bits;
      } else if c.cmd == '-' {
        newmode := newmode - c.bits;
      } else if c.cmd == 'X' {
        if omode * (S_IFDIR + S_IXUGO) != {} {
          newmode := newmode + c.bits;
        }
      } else {
        return;
      }
      pos := pos + 1;
    }
  }

  // ----- compacting -----

  /** What a stretch of `+`, `-` and `X` commands comes to. */
  datatype Bits = Bits(clr: Mode, put: Mode, X: Mode)

  function Gather1(c: BitCmd, b: Bits): Bits {
    if c.cmd == '-' then Bits(b.clr + c.bits, b.put - c.bits, b.X - c.bits)
    else if c.cmd == '+' then Bits(b.clr - c.bits, b.put + c.bits, b.X - c.bits)
    else Bits(b.clr, b.put, b.X + (c.bits - b.put))
  }

  /** All of a stretch, and what comes after it. */
  function Gather(s: seq<BitCmd>, b: Bits): (Bits, seq<BitCmd>) {
    if s == [] || Plain(s[0]) then (b, s) else Gather(s[1..], Gather1(s[0], b))
  }

  function One(cmd: char, bits: Mode): seq<BitCmd> {
    if bits != {} then [BitCmd(cmd, {}, bits)] else []
  }

  function Emit(b: Bits): seq<BitCmd> {
    One('-', b.clr) + One('+', b.put) + One('X', b.X)
  }

  const NOBITS := Bits({}, {}, {})

  lemma {:induction false} GatherShorter(s: seq<BitCmd>, b: Bits)
    ensures |Gather(s, b).1| <= |s| && (s != [] && !Plain(s[0]) ==> |Gather(s, b).1| < |s|)
    ensures Gather(s, b).1 == [] || Plain(Gather(s, b).1[0])
  {
    if s != [] && !Plain(s[0]) {
      GatherShorter(s[1..], Gather1(s[0], b));
    }
  }

  /** The list with every stretch of `+`, `-` and `X` made into at most one of each, up to the terminator. */
  function Compact(s: seq<BitCmd>): seq<BitCmd>
    decreases |s|
  {
    if s == [] then []
    else if Plain(s[0]) then [s[0]] + (if s[0].cmd == NUL then [] else Compact(s[1..]))
    else
      GatherShorter(s, NOBITS);
      var (b, rest) := Gather(s, NOBITS);
      Emit(b) + Compact(rest)
  }

  /** The accumulated bits do not contradict each other. */
  predicate Separate(b: Bits) {
    b.clr !! b.put && b.X !! b.put
  }

  function Apply(b: Bits, omode: Mode, mode: Mode): Mode {
    var m := mode - b.clr + b.put;
    if Executable(omode) then m + b.X else m
  }

  lemma GatherStep(c: BitCmd, b: Bits, omode: Mode, mode: Mode)
    requires !Plain(c) && Separate(b)
    ensures Separate(Gather1(c, b)) && Apply(Gather1(c, b), omode, mode) == Step(c, omode, Apply(b, omode, mode))
  {
    hide Executable;
    var g, x := Gather1(c, b), c.bits;
    if c.cmd == '-' {
      assert mode - g.clr + g.put == mode - b.clr + b.put - x;
      assert mode - g.clr + g.put + g.X == mode - b.clr + b.put + b.X - x;
    } else if c.cmd == '+' {
      assert mode - g.clr + g.put == mode - b.clr + b.put + x;
      assert mode - g.clr + g.put + g.X == mode - b.clr + b.put + b.X + x;
    } else {
      assert mode - g.clr + g.put + g.X == mode - b.clr + b.put + b.X + x;
    }
  }

  lemma {:induction false} GatherRuns(s: seq<BitCmd>, b: Bits, omode: Mode, mode: Mode)
    requires Separate(b)
    ensures var (g, rest) := Gather(s, b);
            Separate(g) && Run(s, omode, Apply(b, omode, mode)) == Run(rest, omode, Apply(g, omode, mode))
  {
    hide Separate, Apply, Step, Gather1;
    if s != [] && !Plain(s[0]) {
      GatherStep(s[0], b, omode, mode);
      GatherRuns(s[1..], Gather1(s[0], b), omode, mode);
    }
  }

  lemma OneRuns(cmd: char, bits: Mode, rest: seq<BitCmd>, omode: Mode, mode: Mode)
    requires cmd == '-' || cmd == '+' || cmd == 'X'
    ensures Run(One(cmd, bits) + rest, omode, mode) == Run(rest, omode, Step(BitCmd(cmd, {}, bits), omode, mode))
  {
    hide Executable;
    if bits == {} {
      assert One(cmd, bits) + rest == rest;
      assert mode - {} == mode && mode + {} == mode;
    } else {
      assert (One(cmd, bits) + rest)[1..] == rest;
    }
  }

  lemma EmitRuns(b: Bits, rest: seq<BitCmd>, omode: Mode, mode: Mode)
    ensures Run(Emit(b) + rest, omode, mode) == Run(rest, omode, Apply(b, omode, mode))
  {
    hide Run, Executable;
    var x, y := One('X', b.X) + rest, One('+', b.put) + (One('X', b.X) + rest);
    assert Emit(b) + rest == One('-', b.clr) + y;
    OneRuns('-', b.clr, y, omode, mode);
    OneRuns('+', b.put, x, omode, mode - b.clr);
    OneRuns('X', b.X, rest, omode, mode - b.clr + b.put);
  }

  /** Compacting preserves what a list does, for every old mode. */
  lemma {:induction false} CompactMeans(s: seq<BitCmd>, omode: Mode, mode: Mode)
    ensures Run(Compact(s), omode, mode) == Run(s, omode, mode)
    decreases |s|
  {
    hide Step, Apply, Emit, Gather;
    if s == [] {
    } else if Plain(s[0]) {
      if s[0].cmd != NUL {
        assert ([s[0]] + Compact(s[1..]))[1..] == Compact(s[1..]);
        CompactMeans(s[1..], omode, Step(s[0], omode, mode));
      }
    } else {
      GatherShorter(s, NOBITS);
      var (b, rest) := Gather(s, NOBITS);
      NoBits(omode, mode);
      GatherRuns(s, NOBITS, omode, mode);
      EmitRuns(b, Compact(rest), omode, mode);
      CompactMeans(rest, omode, Apply(b, omode, mode));
    }
  }

  lemma NoBits(omode: Mode, mode: Mode)
    ensures Separate(NOBITS) && Apply(NOBITS, omode, mode) == mode
  {
    assert mode - {} + {} == mode && mode - {} + {} + {} == mode;
  }

  // ----- compacting twice -----

  lemma GatherOne(cmd: char, bits: Mode, rest: seq<BitCmd>, b: Bits)
    requires cmd == '-' || cmd == '+' || cmd == 'X'
    ensures Gather(One(cmd, bits) + rest, b) == Gather(rest, if bits != {} then Gather1(BitCmd(cmd, {}, bits), b) else b)
  {
    if bits == {} {
      assert One(cmd, bits) + rest == rest;
    } else {
      assert (One(cmd, bits) + rest)[1..] == rest;
    }
  }

  /** Gathering what was emitted gives the same bits again. */
  lemma GatherEmitted(b: Bits, rest: seq<BitCmd>)
    requires Separate(b) && (rest == [] || Plain(rest[0]))
    ensures Gather(Emit(b) + rest, NOBITS) == (b, rest)
  {
    var x := One('X', b.X) + rest;
    var y := One('+', b.put) + x;
    assert Emit(b) + rest == One('-', b.clr) + y;
    var b1 := Bits(b.clr, {}, {});
    var b2 := Bits(b.clr, b.put, {});
    assert {} + b.clr == b.clr && {} - b.clr == {} && b.clr - b.put == b.clr && {} + b.put == b.put && {} - b.put == {};
    assert {} + (b.X - b.put) == b.X;
    GatherOne('-', b.clr, y, NOBITS);
    GatherOne('+', b.put, x, b1);
    GatherOne('X', b.X, rest, b2);
  }

  lemma {:induction false} CompactAgain(s: seq<BitCmd>)
    ensures Compact(Compact(s)) == Compact(s)
    decreases |s|
  {
    hide Emit, Gather;
    if s == [] {
    } else if Plain(s[0]) {
      if s[0].cmd != NUL {
        assert ([s[0]] + Compact(s[1..]))[1..] == Compact(s[1..]);
        CompactAgain(s[1..]);
      } else {
        assert [s[0]][1..] == [];
      }
    } else {
      GatherShorter(s, NOBITS);
      var (b, rest) := Gather(s, NOBITS);
      var tail := Compact(rest);
      assert tail == [] || tail[0] == rest[0];
      NoBits({}, {});
      GatherRuns(s, NOBITS, {}, {});
      CompactAgain(rest);
      EmitCompact(b, tail);
    }
  }

  lemma EmitCompact(b: Bits, tail: seq<BitCmd>)
    requires Separate(b) && (tail == [] || Plain(tail[0]))
    ensures Compact(Emit(b) + tail) == Emit(b) + Compact(tail)
  {
    var all := Emit(b) + tail;
    GatherEmitted(b, tail);
    if Emit(b) == [] {
      assert all == tail && Emit(b) + Compact(tail) == Compact(tail);
    } else {
      assert !Plain(all[0]);
    }
  }

  // ----- in place -----

  function NonZero(b: Bits): nat {
    |Emit(b)|
  }

  /** Each command gathered makes at most one more kind of bits non-zero. */
  lemma GatherCount(c: BitCmd, b: Bits)
    requires !Plain(c)
    ensures NonZero(Gather1(c, b)) <= NonZero(b) + 1
  {
    assert b.put == {} ==> b.put - c.bits == {};
    assert b.clr == {} ==> b.clr - c.bits == {};
    assert b.X == {} ==> b.X - c.bits == {};
  }

  lemma {:induction false} CompactLength(s: seq<BitCmd>)
    ensures |Compact(s)| <= |s|
    decreases |s|
  {
    hide Emit;
    if s != [] {
      if Plain(s[0]) {
        CompactLength(s[1..]);
      } else {
        GatherShorter(s, NOBITS);
        GatherCounts(s, NOBITS);
        CompactLength(Gather(s, NOBITS).1);
        assert NonZero(NOBITS) == 0 by { assert Emit(NOBITS) == [] by { EmitNothing(); } }
      }
    }
  }

  lemma EmitNothing()
    ensures Emit(NOBITS) == []
  {
  }

  lemma {:induction false} GatherCounts(s: seq<BitCmd>, b: Bits)
    ensures var (g, rest) := Gather(s, b); NonZero(g) + |rest| <= NonZero(b) + |s|
  {
    hide NonZero, Gather1;
    if s != [] && !Plain(s[0]) {
      GatherCount(s[0], b);
      GatherCounts(s[1..], Gather1(s[0], b));
    }
  }

  /** A stretch gathered from the array. */
  method GatherBits(a: array<BitCmd>, start: nat) returns (b: Bits, nset: nat)
    requires start < a.Length && Terminated(a[start..]) && !Plain(a[start])
    ensures start < nset < a.Length && Gather(a[start..], NOBITS) == (b, a[nset..]) && Plain(a[nset]) && Terminated(a[nset..])
    ensures NonZero(b) <= nset - start
  {
    b, nset := NOBITS, start;
    EmitNothing();
    while true
      invariant start <= nset < a.Length && Gather(a[start..], NOBITS) == Gather(a[nset..], b) && Terminated(a[nset..])
      invariant NonZero(b) <= nset - start
      decreases a.Length - nset
    {
      var c := a[nset];
      assert a[nset..][0] == c && a[nset..][1..] == a[nset + 1..];
      if !Plain(c) {
        GatherCount(c, b);
      }
      if c.cmd == '-' {
        b := Bits(b.clr + c.bits, b.put - c.bits, b.X - c.bits);
      } else if c.cmd == '+' {
        b := Bits(b.clr - c.bits, b.put + c.bits, b.X - c.bits);
      } else if c.cmd == 'X' {
        b := Bits(b.clr, b.put, b.X + (c.bits - b.put));
      } else {
        return;
      }
      nset := nset + 1;
    }
  }

  method PutBits(a: array<BitCmd>, at: nat, cmd: char, bits: Mode) returns (pos: nat)
    requires at + |One(cmd, bits)| <= a.Length
    modifies a
    ensures pos == at + |One(cmd, bits)| && a[..pos] == old(a[..at]) + One(cmd, bits)
    ensures forall k :: pos <= k < a.Length ==> a[k] == old(a[k])
  {
    pos := at;
    if bits != {} {
      a[pos] := BitCmd(cmd, {}, bits);
      pos := pos + 1;
    }
  }

  /**
   `compress_mode`: the list rewritten over itself.  What is written never overtakes what has been read.
   By `CompactMeans` the new list does what the old one did.
   */
  method CompressMode(a: array<BitCmd>) returns (ghost pos: nat)
    requires Terminated(a[..])
    modifies a
    ensures pos <= a.Length && a[..pos] == Compact(old(a[..]))
    ensures Terminated(a[..])
    ensures forall omode, mode :: Run(a[..], omode, mode) == Run(old(a[..]), omode, mode)
  {
    pos := Rewrite(a);
    ghost var s0 := old(a[..]);
    assert a[..] == a[..pos] + a[pos..];
    CompactTerminated(s0);
    RunsToEnd(Compact(s0), a[pos..]);
    forall omode, mode ensures Run(a[..], omode, mode) == Run(s0, omode, mode) {
      CompactMeans(s0, omode, mode);
    }
  }

  lemma {:induction false} CompactTerminated(s: seq<BitCmd>)
    requires Terminated(s)
    ensures Terminated(Compact(s))
    decreases |s|
  {
    hide Emit;
    if !Plain(s[0]) {
      var (b, rest) := Gather(s, NOBITS);
      GatherShorter(s, NOBITS);
      GatherTerminated(s, NOBITS);
      CompactTerminated(rest);
      Later(Emit(b), Compact(rest));
    } else if s[0].cmd != NUL {
      CompactTerminated(s[1..]);
    }
  }

  lemma {:induction false} GatherTerminated(s: seq<BitCmd>, b: Bits)
    requires Terminated(s)
    ensures Terminated(Gather(s, b).1)
  {
    if !Plain(s[0]) {
      GatherTerminated(s[1..], Gather1(s[0], b));
    }
  }

  lemma {:induction false} Later(s: seq<BitCmd>, t: seq<BitCmd>)
    requires Terminated(t)
    ensures Terminated(s + t)
  {
    if s == [] {
      assert s + t == t;
    } else {
      Later(s[1..], t);
      assert (s + t)[1..] == s[1..] + t;
    }
  }

  /** What lies behind the terminator does not matter. */
  lemma {:induction false} RunsToEnd(s: seq<BitCmd>, t: seq<BitCmd>)
    requires Terminated(s)
    ensures Terminated(s + t) && forall omode, mode :: Run(s + t, omode, mode) == Run(s, omode, mode)
  {
    hide Step;
    assert (s + t)[1..] == s[1..] + t;
    if s[0].cmd != NUL {
      RunsToEnd(s[1..], t);
    }
  }

  /** The rewriting itself. */
  method Rewrite(a: array<BitCmd>) returns (ghost pos: nat)
    requires Terminated(a[..])
    modifies a
    ensures pos <= a.Length && a[..pos] == Compact(old(a[..]))
  {
    hide Emit, Gather, Compact;
    ghost var s0 := a[..];
    var w, nset := 0, 0;
    assert a[0..] == s0 && a[..0] == [];
    while true
      invariant 0 <= w <= nset < a.Length && a[nset..] == s0[nset..] && Terminated(a[nset..])
      invariant a[..w] + Compact(a[nset..]) == Compact(s0)
      decreases a.Length - nset
    {
      while true
        invariant 0 <= w <= nset < a.Length && a[nset..] == s0[nset..] && Terminated(a[nset..])
        invariant a[..w] + Compact(a[nset..]) == Compact(s0)
        decreases a.Length - nset
      {
        var op := a[nset].cmd;
        if op == '+' || op == '-' || op == 'X' {
          break;
        }
        CompactPlain(a[..], nset, a[..w]);
        ghost var before, next := a[..w], s0[nset + 1..];
        a[w] := a[nset];
        assert a[..w + 1] == before + [a[w]];
        assert a[nset + 1..] == s0[nset..][1..] == next;
        w, nset := w + 1, nset + 1;
        if op == NUL {
          return w;
        }
      }
      w, nset := Stretch(a, w, nset, s0);
    }
  }

  /** At most one command of each kind. */
  method PutAll(a: array<BitCmd>, at: nat, b: Bits) returns (w: nat)
    requires at + |Emit(b)| <= a.Length
    modifies a
    ensures w == at + |Emit(b)| && a[..w] == old(a[..at]) + Emit(b)
    ensures forall k :: w <= k < a.Length ==> a[k] == old(a[k])
  {
    hide One;
    w := PutBits(a, at, '-', b.clr);
    w := PutBits(a, w, '+', b.put);
    w := PutBits(a, w, 'X', b.X);
  }

  /** One stretch read and its commands written. */
  method Stretch(a: array<BitCmd>, w0: nat, start: nat, ghost s0: seq<BitCmd>) returns (w: nat, nset: nat)
    requires w0 <= start < a.Length == |s0| && a[start..] == s0[start..] && Terminated(a[start..]) && !Plain(a[start])
    requires a[..w0] + Compact(a[start..]) == Compact(s0)
    modifies a
    ensures w <= nset && start < nset < a.Length && a[nset..] == s0[nset..] && Terminated(a[nset..])
    ensures a[..w] + Compact(a[nset..]) == Compact(s0)
  {
    hide Gather, Emit, Terminated;
    var b;
    b, nset := GatherBits(a, start);
    ghost var done, rest := a[..w0], a[nset..];
    assert rest == s0[start..][nset - start..];
    GatherShorter(a[start..], NOBITS);
    assert Compact(a[start..]) == Emit(b) + Compact(rest) by { CompactStretch(a[start..], b, rest); }
    w := PutAll(a, w0, b);
    assert a[nset..] == rest;
    assert done + (Emit(b) + Compact(rest)) == done + Emit(b) + Compact(rest);
  }

  lemma CompactStretch(s: seq<BitCmd>, b: Bits, rest: seq<BitCmd>)
    requires s != [] && !Plain(s[0]) && Gather(s, NOBITS) == (b, rest)
    ensures Compact(s) == Emit(b) + Compact(rest)
  {
  }

  lemma CompactPlain(s: seq<BitCmd>, i: nat, done: seq<BitCmd>)
    requires i < |s| && Plain(s[i]) && Terminated(s[i..])
    ensures s[i].cmd == NUL ==> done + Compact(s[i..]) == done + [s[i]]
    ensures s[i].cmd != NUL ==> i + 1 < |s| && Terminated(s[i + 1..]) && done + Compact(s[i..]) == done + [s[i]] + Compact(s[i + 1..])
  {
    hide Emit, Gather;
    assert s[i..][0] == s[i] && s[i..][1..] == s[i + 1..];
    assert done + ([s[i]] + Compact(s[i + 1..])) == done + [s[i]] + Compact(s[i + 1..]);
  }

  // ----- building a list -----

  predicate Known(s: seq<BitCmd>) {
    forall i :: 0 <= i < |s| ==> !Stops(s[i])
  }

  lemma {:induction false} RunAppend(s: seq<BitCmd>, t: seq<BitCmd>, omode: Mode, mode: Mode)
    requires Known(s)
    ensures Run(s + t, omode, mode) == Run(t, omode, Run(s, omode, mode))
  {
    hide Step;
    if s == [] {
      assert s + t == t;
    } else {
      assert (s + t)[1..] == s[1..] + t;
      RunAppend(s[1..], t, omode, Step(s[0], omode, mode));
    }
  }

  /** The places `u`, `g` and `o` are copied to. */
  function Places(who: Mode): set<Flag> {
    if who == {} then {UBITS, GBITS, OBITS}
    else
      (if who * S_IRUSR != {} then {UBITS} else {}) + (if who * S_IRGRP != {} then {GBITS} else {}) +
      (if who * S_IROTH != {} then {OBITS} else {})
  }

  /**
   What one clause of a symbolic mode does: `who` limits the bits, and where nobody is named the file
   creation mask does.
   */
  function Effect(op: char, who: Mode, oparg: Mode, how: char, mask: Mode, omode: Mode, mode: Mode): Mode {
    var limit := if who != {} then who else mask;
    if op == '=' then mode - (if who != {} then who else STANDARD_BITS) + limit * oparg
    else if op == '+' then mode + limit * oparg
    else if op == '-' then mode - limit * oparg
    else if op == 'X' then if Executable(omode) then mode + limit * oparg else mode
    else
      var value := Value(op, mode);
      var bits := if who != {} then ALLBITS else mask;
      if how == '+' then mode + Spread(value, Places(who)) * bits
      else if how == '-' then mode - Spread(value, Places(who)) * bits
      else mode - Spread(S_IRWXO, Places(who)) * bits + Spread(value, Places(who)) * bits
  }

  const SET_LEN := 6
  const SET_LEN_INCR := 4

  /** The list under construction: room for two commands and a terminator is kept before each addition. */
  class Builder {
    var a: array<BitCmd>
    var pos: nat

    ghost predicate Valid()
      reads this, a
    {
      pos < a.Length && Known(a[..pos])
    }

    constructor ()
      ensures Valid() && fresh(a) && pos == 0
    {
      a := new BitCmd[SET_LEN + 2](_ => BitCmd(NUL, {}, {}));
      pos := 0;
    }

    /** The ADDCMD macro: make room, then `addcmd`. */
    method Add(op: char, who: Mode, oparg: Mode, how: char, mask: Mode)
      requires Valid() && (op == '=' || op == '+' || op == '-' || op == 'X' || op == 'u' || op == 'g' || op == 'o')
      requires how == '+' || how == '-' || how == '='
      modifies this, a
      ensures Valid() && (a == old(a) || fresh(a))
      ensures forall omode, mode ::
                Run(a[..pos], omode, mode) == Effect(op, who, oparg, how, mask, omode, Run(old(a[..pos]), omode, mode))
    {
      hide Run, Effect;
      ghost var was := a[..pos];
      if pos + 2 >= a.Length {
        Grow();
      }
      AddCmd(op, who, oparg, how, mask);
    }

    method Grow()
      requires Valid()
      modifies this
      ensures Valid() && fresh(a) && pos == old(pos) && a[..pos] == old(a[..pos]) && a.Length == old(a.Length) + SET_LEN_INCR
    {
      var b := new BitCmd[a.Length + SET_LEN_INCR](i requires 0 <= i reads this, a => if i < a.Length then a[i] else BitCmd(NUL, {}, {}));
      a := b;
    }

    /** `addcmd`: the field `cmd2` of the simple commands is left as it was. */
    method AddCmd(op: char, who: Mode, oparg: Mode, how: char, mask: Mode)
      requires Valid() && pos + 2 < a.Length
      requires op == '=' || op == '+' || op == '-' || op == 'X' || op == 'u' || op == 'g' || op == 'o'
      requires how == '+' || how == '-' || how == '='
      modifies a, `pos
      ensures Valid()
      ensures forall omode, mode ::
                Run(a[..pos], omode, mode) == Effect(op, who, oparg, how, mask, omode, Run(old(a[..pos]), omode, mode))
    {
      hide Run, Effect, Value, Spread;
      ghost var was, added: seq<BitCmd> := a[..pos], [];
      var o := op;
      if o == '=' {
        a[pos] := BitCmd('-', a[pos].cmd2, if who != {} then who else STANDARD_BITS);
        added := [a[pos]];
        pos := pos + 1;
        o := '+';
      }
      if o == '+' || o == '-' || o == 'X' {
        a[pos] := BitCmd(o, a[pos].cmd2, (if who != {} then who else mask) * oparg);
      } else {
        var cmd2, bits;
        if who != {} {
          cmd2 := (if who * S_IRUSR != {} then {UBITS} else {}) + (if who * S_IRGRP != {} then {GBITS} else {}) +
                  (if who * S_IROTH != {} then {OBITS} else {});
          bits := ALLBITS;
        } else {
          cmd2 := {UBITS, GBITS, OBITS};
          bits := mask;
        }
        cmd2 := cmd2 + if how == '+' then {SET} else if how == '-' then {CLR} else {SET, CLR};
        a[pos] := BitCmd(o, cmd2, bits);
      }
      added := added + [a[pos]];
      pos := pos + 1;
      assert a[..pos] == was + added;
      forall omode, mode ensures Run(a[..pos], omode, mode) == Effect(op, who, oparg, how, mask, omode, Run(was, omode, mode)) {
        RunAppend(was, added, omode, mode);
        NewRuns(added, op, who, oparg, how, mask, omode, Run(was, omode, mode));
      }
    }

    /** The terminator. */
    method Finish()
      requires Valid()
      modifies a
      ensures Terminated(a[..]) && forall omode, mode :: Run(a[..], omode, mode) == old(Run(a[..pos], omode, mode))
    {
      ghost var was := a[..pos];
      a[pos] := a[pos].(cmd := NUL);
      assert a[..] == was + a[pos..];
      EndTerminates(was, a[pos..]);
      forall omode, mode ensures Run(a[..], omode, mode) == Run(was, omode, mode) {
        RunAppend(was, a[pos..], omode, mode);
      }
    }
  }

  lemma {:induction false} EndTerminates(s: seq<BitCmd>, t: seq<BitCmd>)
    requires t != [] && t[0].cmd == NUL
    ensures Terminated(s + t)
  {
    if s == [] {
      assert s + t == t;
    } else {
      assert (s + t)[1..] == s[1..] + t;
      EndTerminates(s[1..], t);
    }
  }

  /** The commands added for one clause do what the clause says. */
  lemma NewRuns(cmds: seq<BitCmd>, op: char, who: Mode, oparg: Mode, how: char, mask: Mode, omode: Mode, mode: Mode)
    requires op == '=' || op == '+' || op == '-' || op == 'X' || op == 'u' || op == 'g' || op == 'o'
    requires how == '+' || how == '-' || how == '='
    requires |cmds| == if op == '=' then 2 else 1
    requires var c, limit := cmds[|cmds| - 1], if who != {} then who else mask;
             && c.cmd == (if op == '=' then '+' else op)
             && (op == '=' ==> cmds[0].cmd == '-' && cmds[0].bits == if who != {} then who else STANDARD_BITS)
             && (Copies(c) ==> c.cmd2 == Places(who) + (if how == '+' then {SET} else if how == '-' then {CLR} else {SET, CLR}) &&
                               c.bits == if who != {} then ALLBITS else mask)
             && (!Copies(c) ==> c.bits == limit * oparg)
    ensures Run(cmds, omode, mode) == Effect(op, who, oparg, how, mask, omode, mode)
  {
    hide Value, Executable, CopyStep, Places;
    var c := cmds[|cmds| - 1];
    assert [c][1..] == [] && Run([], omode, Step(c, omode, mode)) == Step(c, omode, mode);
    if op == '=' {
      var x := cmds[0];
      assert cmds == [x, c] && cmds[1..] == [c];
      assert Run([c], omode, mode - x.bits) == mode - x.bits + c.bits;
    } else {
      assert cmds == [c];
      if Copies(c) {
        CopyEffect(c, who, how, mask, mode);
      }
    }
  }

  lemma CopyEffect(c: BitCmd, who: Mode, how: char, mask: Mode, mode: Mode)
    requires Copies(c) && (how == '+' || how == '-' || how == '=')
    requires c.cmd2 == Places(who) + (if how == '+' then {SET} else if how == '-' then {CLR} else {SET, CLR})
    requires c.bits == if who != {} then ALLBITS else mask
    ensures CopyStep(c, mode) == Effect(c.cmd, who, {}, how, mask, {}, mode)
  {
    hide Value, Spread;
    var places := Places(who);
    assert SET !in places && CLR !in places;
    SamePlaces(S_IRWXO, c.cmd2, places);
    SamePlaces(Value(c.cmd, mode), c.cmd2, places);
  }

  lemma SamePlaces(v: Mode, cmd2: set<Flag>, places: set<Flag>)
    requires forall f :: f != SET && f != CLR ==> (f in cmd2 <==> f in places)
    ensures Spread(v, cmd2) == Spread(v, places)
  {
  }

  /** An absolute mode: all permission bits replaced, the others of the file kept. */
  method SetAbsolute(perm: Mode, mask: Mode) returns (list: array<BitCmd>)
    requires perm <= STANDARD_BITS + S_ISTXT
    ensures Terminated(list[..]) && fresh(list)
    ensures forall omode :: Run(list[..], omode, omode) == omode - (STANDARD_BITS + S_ISTXT) + perm
  {
    var b := new Builder();
    assert forall omode, mode :: Run(b.a[..b.pos], omode, mode) == mode;
    b.Add('=', STANDARD_BITS + S_ISTXT, perm, '=', mask);
    b.Finish();
    list := b.a;
    assert STANDARD_BITS + S_ISTXT != {} by { assert 9 in STANDARD_BITS + S_ISTXT; }
    assert (STANDARD_BITS + S_ISTXT) * perm == perm;
  }
}
