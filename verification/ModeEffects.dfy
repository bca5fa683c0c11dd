/**
 What the commands for one action of a symbolic mode come to: for each operation the letters may be
 taken together, whatever their order, up to what the operation itself undoes.
 */
module ModeEffects {
  import opened SetMode
  import opened SymbolicMode

  const RWX: Mode := S_IRWXU + S_IRWXG + S_IRWXO

  /** The bits of one class, put in all three. */
  function Everywhere(c: char, m: Mode): Mode {
    Spread(Value(c, m), {UBITS, GBITS, OBITS})
  }

  function Lowest(c: char): nat {
    if c == 'u' then 6 else if c == 'g' then 3 else 0
  }

  lemma InEverywhere(c: char, m: Mode, b: nat)
    requires IsCopy(c)
    ensures b in Everywhere(c, m) <==> b < 9 && Lowest(c) + b % 3 in m
  {
    var v := Value(c, m);
    assert forall x: nat :: x in v <==> x < 3 && Lowest(c) + x in m by {
      forall x: nat ensures x in v <==> x < 3 && Lowest(c) + x in m {
        InValue(c, m, x);
      }
    }
    InSpread(v, b);
  }

  lemma InValue(c: char, m: Mode, x: nat)
    requires IsCopy(c)
    ensures x in Value(c, m) <==> x < 3 && Lowest(c) + x in m
  {
    if c == 'u' {
      assert x + 6 in S_IRWXU <==> x < 3;
      assert x in Shr(m * S_IRWXU, 6) <==> x + 6 in m * S_IRWXU;
    } else if c == 'g' {
      assert x + 3 in S_IRWXG <==> x < 3;
      assert x in Shr(m * S_IRWXG, 3) <==> x + 3 in m * S_IRWXG;
    } else {
      assert x in S_IRWXO <==> x < 3;
    }
  }

  lemma InShl(v: Mode, n: nat, b: nat)
    ensures b in Shl(v, n) <==> b >= n && b - n in v
  {
  }

  lemma InSpread(v: Mode, b: nat)
    requires forall x :: x in v ==> x < 3
    ensures b in Spread(v, {UBITS, GBITS, OBITS}) <==> b < 9 && b % 3 in v
  {
    InShl(v, 6, b);
    InShl(v, 3, b);
    assert b in Spread(v, {UBITS, GBITS, OBITS}) <==> b in Shl(v, 6) || b in Shl(v, 3) || b in v;
  }

  /** A class is named altogether or not at all. */
  predicate Classwise(who: Mode) {
    && (6 in who <==> 8 in who) && (7 in who <==> 8 in who)
    && (3 in who <==> 5 in who) && (4 in who <==> 5 in who)
    && (0 in who <==> 2 in who) && (1 in who <==> 2 in who)
  }

  /** The bits an operation is confined to. */
  function Limit(who: Mode, mask: Mode): Mode {
    if who != {} then who else mask
  }

  lemma InPlaces(who: Mode, v: Mode, b: nat)
    requires Classwise(who) && who != {} && forall x :: x in v ==> x < 3
    ensures b in Spread(v, Places(who)) <==> b < 9 && b % 3 in v && b in who
  {
    InShl(v, 6, b);
    InShl(v, 3, b);
    var places := Places(who);
    assert UBITS in places <==> 8 in who by { assert 8 in who ==> 8 in who * S_IRUSR; }
    assert GBITS in places <==> 5 in who by { assert 5 in who ==> 5 in who * S_IRGRP; }
    assert OBITS in places <==> 2 in who by { assert 2 in who ==> 2 in who * S_IROTH; }
    assert b in Spread(v, places) <==>
           (UBITS in places && b in Shl(v, 6)) || (GBITS in places && b in Shl(v, 3)) || (OBITS in places && b in v);
  }

  /** A copying command in terms of sets of bits, as the others. */
  lemma CopyIs(c: char, op: char, who: Mode, mask: Mode, omode: Mode, mode: Mode)
    requires IsCopy(c) && IsOp(op) && Classwise(who)
    ensures Effect(c, who, {}, op, mask, omode, mode) ==
            var (limit, s) := (Limit(who, mask), Everywhere(c, mode));
            if op == '+' then mode + limit * s
            else if op == '-' then mode - limit * s
            else mode - limit * RWX + limit * s
  {
    hide Value, Spread, Places;
    var v := Value(c, mode);
    assert forall x :: x in v ==> x < 3 by {
      forall x | x in v ensures x < 3 {
        InValue(c, mode, x);
      }
    }
    Placed(who, mask, v);
    Placed(who, mask, S_IRWXO);
    AllPlaces();
  }

  lemma AllPlaces()
    ensures Spread(S_IRWXO, {UBITS, GBITS, OBITS}) == RWX
  {
    forall b: nat ensures b in Spread(S_IRWXO, {UBITS, GBITS, OBITS}) <==> b in RWX {
      InSpread(S_IRWXO, b);
    }
  }

  lemma Placed(who: Mode, mask: Mode, v: Mode)
    requires Classwise(who) && forall x :: x in v ==> x < 3
    ensures Spread(v, Places(who)) * (if who != {} then ALLBITS else mask) ==
            Limit(who, mask) * Spread(v, {UBITS, GBITS, OBITS})
  {
    hide Spread;
    if who != {} {
      forall b: nat ensures b in Spread(v, Places(who)) * ALLBITS <==> b in who * Spread(v, {UBITS, GBITS, OBITS}) {
        InPlaces(who, v, b);
        InSpread(v, b);
      }
    }
  }

  // ----- letters -----

  function PermBit(c: char, others: bool): Mode {
    if c == 'r' then READ
    else if c == 'w' then WRITE
    else if c == 'x' then S_IXUGO
    else if c == 's' && !others then S_ISUID + S_ISGID
    else if c == 't' && !others then S_ISTXT
    else {}
  }

  function PermBits(l: string, others: bool): Mode {
    if l == [] then {} else PermBit(l[0], others) + PermBits(l[1..], others)
  }

  /** The bits of every class copied from, in all three. */
  function CopiedBits(l: string, m: Mode): Mode {
    if l == [] then {} else (if IsCopy(l[0]) then Everywhere(l[0], m) else {}) + CopiedBits(l[1..], m)
  }

  /** What holds of one class holds of all. */
  ghost predicate Uniform(s: Mode) {
    forall b: nat :: b < 9 ==> (b in s <==> b % 3 in s)
  }

  /** The registers between two letters. */
  ghost predicate Regular(st: Letters) {
    Classwise(st.who) && Uniform(st.perm) && (9 in st.perm ==> 9 in st.who)
  }

  /** The bits an operation is confined to, with the sticky bit wherever somebody is named. */
  function WideLimit(who: Mode, mask: Mode): Mode {
    if who != {} then who + S_ISTXT else mask
  }

  lemma EverywhereUniform(c: char, m: Mode)
    requires IsCopy(c)
    ensures Uniform(Everywhere(c, m)) && Everywhere(c, m) <= RWX
  {
    hide Everywhere;
    forall b: nat ensures b in Everywhere(c, m) <==> b < 9 && Lowest(c) + b % 3 in m {
      InEverywhere(c, m, b);
    }
    InRwx();
  }

  lemma InRwx()
    ensures forall b: nat :: b in RWX <==> b < 9
  {
  }

  lemma SamePlace(s: Mode, x: nat, b: nat)
    requires Uniform(s) && x % 3 == b % 3
    ensures x < 9 && b < 9 ==> (x in s <==> b in s)
  {
  }

  lemma EverywhereMore(c: char, m: Mode, limit: Mode, s: Mode)
    requires IsCopy(c) && Uniform(s)
    ensures Everywhere(c, m) <= Everywhere(c, m + limit * s) <= Everywhere(c, m) + s
  {
    hide Everywhere;
    forall b: nat ensures b in Everywhere(c, m) ==> b in Everywhere(c, m + limit * s)
      ensures b in Everywhere(c, m + limit * s) ==> b in Everywhere(c, m) + s
    {
      InEverywhere(c, m, b);
      InEverywhere(c, m + limit * s, b);
      SamePlace(s, Lowest(c) + b % 3, b);
    }
  }

  lemma EverywhereLess(c: char, m: Mode, limit: Mode, s: Mode)
    requires IsCopy(c) && Uniform(s)
    ensures Everywhere(c, m) - s <= Everywhere(c, m - limit * s) <= Everywhere(c, m)
  {
    hide Everywhere;
    forall b: nat ensures b in Everywhere(c, m) - s ==> b in Everywhere(c, m - limit * s)
      ensures b in Everywhere(c, m - limit * s) ==> b in Everywhere(c, m)
    {
      InEverywhere(c, m, b);
      InEverywhere(c, m - limit * s, b);
      SamePlace(s, Lowest(c) + b % 3, b);
    }
  }

  lemma {:induction false} CopiesMore(l: string, m: Mode, limit: Mode, s: Mode)
    requires Uniform(s)
    ensures CopiedBits(l, m) <= CopiedBits(l, m + limit * s) <= CopiedBits(l, m) + s
  {
    hide Everywhere, Uniform;
    if l != [] {
      CopiesMore(l[1..], m, limit, s);
      if IsCopy(l[0]) {
        EverywhereMore(l[0], m, limit, s);
      }
    }
  }

  lemma {:induction false} CopiesLess(l: string, m: Mode, limit: Mode, s: Mode)
    requires Uniform(s)
    ensures CopiedBits(l, m) - s <= CopiedBits(l, m - limit * s) <= CopiedBits(l, m)
  {
    hide Everywhere, Uniform;
    if l != [] {
      CopiesLess(l[1..], m, limit, s);
      if IsCopy(l[0]) {
        EverywhereLess(l[0], m, limit, s);
      }
    }
  }

  lemma {:induction false} CopiesInside(l: string, m: Mode)
    ensures CopiedBits(l, m) <= RWX && Uniform(CopiedBits(l, m))
  {
    hide Everywhere;
    if l != [] {
      CopiesInside(l[1..], m);
      if IsCopy(l[0]) {
        EverywhereUniform(l[0], m);
      }
    }
  }

  /** The registers stay regular; the class and the wide limit stay what they are, but for a first `t` where nobody is named. */
  lemma LetterRegular(c: char, op: char, st: Letters, mask: Mode)
    requires Regular(st) && IsPerm(c) && (st.who == {} ==> c != 't')
    ensures var st' := Letter(c, op, st);
            && Regular(st') && (Special(st'.who) <==> Special(st.who)) && (st'.who == {} <==> st.who == {})
            && WideLimit(st'.who, mask) == WideLimit(st.who, mask)
            && (!IsCopy(c) ==> st'.perm == st.perm + PermBit(c, !Special(st.who)) && (st'.permX <==> st.permX || c == 'X'))
  {
    assert 9 !in S_IRWXO && 9 in S_ISTXT;
    assert 9 !in READ && 9 !in WRITE && 9 !in S_IXUGO && 9 !in S_ISUID + S_ISGID;
    LetterUniform(c, op, st);
    if c == 't' && Special(st.who) {
      assert 9 in st.who + S_ISTXT && (st.who + S_ISTXT) - S_IRWXO != {};
      assert (st.who + S_ISTXT) + S_ISTXT == st.who + S_ISTXT;
    }
  }

  lemma LetterUniform(c: char, op: char, st: Letters)
    requires Uniform(st.perm)
    ensures Uniform(Letter(c, op, st).perm)
  {
    assert Uniform(READ) && Uniform(WRITE) && Uniform(S_IXUGO) && Uniform(S_ISUID + S_ISGID) && Uniform(S_ISTXT) && Uniform({});
  }

  /** The limit and the wide limit differ in the sticky bit alone, which comes with its class. */
  lemma SameLimit(who: Mode, mask: Mode, s: Mode)
    requires 9 in s ==> 9 in who
    ensures Limit(who, mask) * s == WideLimit(who, mask) * s
  {
  }

  // ----- adding and taking away -----

  function XBits(permX: bool, omode: Mode): Mode {
    if permX && Executable(omode) then S_IXUGO else {}
  }

  /** `+`: all that the letters stand for is set, the copies taken from the mode as it is before. */
  lemma {:induction false} PlusForm(l: string, st: Letters, mask: Mode, omode: Mode, mode: Mode)
    requires (forall k :: 0 <= k < |l| ==> IsPerm(l[k])) && Regular(st) && (st.who == {} ==> 't' !in l)
    ensures var limit := WideLimit(st.who, mask);
            PermsMean(l, '+', st, mask, omode, mode) ==
            mode + limit * (st.perm + PermBits(l, !Special(st.who)) + CopiedBits(l, mode) + XBits(st.permX || 'X' in l, omode))
  {
    hide Executable, Everywhere, Uniform, Classwise, Special, Letter, Effect;
    if l == [] {
      PlusEnds(st, mask, omode, mode);
    } else {
      var (c, l') := (l[0], l[1..]);
      assert l == [c] + l';
      var st' := Letter(c, '+', st);
      LetterRegular(c, '+', st, mask);
      if IsCopy(c) {
        CopyLetter(c, '+', st);
        PlusCopies(c, l', st, mask, omode, mode);
        PlusForm(l', st', mask, omode, Copied(c, '+', st, mask, omode, mode));
      } else {
        PlusForm(l', st', mask, omode, mode);
        assert st'.perm + PermBits(l', !Special(st.who)) == st.perm + PermBits(l, !Special(st.who));
      }
    }
  }

  lemma PlusEnds(st: Letters, mask: Mode, omode: Mode, mode: Mode)
    requires Regular(st)
    ensures Ended('+', st, mask, omode, mode) ==
            mode + WideLimit(st.who, mask) * (st.perm + XBits(st.permX, omode))
  {
    hide Executable, Uniform, Classwise, Value, Spread, Places;
    SameLimit(st.who, mask, st.perm);
    SameLimit(st.who, mask, S_IXUGO);
    assert 9 !in S_IXUGO;
  }

  /** A copy among additions: what was pending goes out, and the copy adds nothing that it makes. */
  lemma PlusCopied(c: char, st: Letters, mask: Mode, omode: Mode, mode: Mode)
    requires IsCopy(c) && Regular(st)
    ensures Copied(c, '+', st, mask, omode, mode) ==
            mode + WideLimit(st.who, mask) * (st.perm + XBits(st.permX, omode) + Everywhere(c, mode))
  {
    hide Executable, Everywhere, Value, Spread, Places;
    var (lim, limit, s) := (Limit(st.who, mask), WideLimit(st.who, mask), st.perm + XBits(st.permX, omode));
    SameLimit(st.who, mask, st.perm);
    SameLimit(st.who, mask, S_IXUGO);
    assert 9 !in S_IXUGO && Uniform(S_IXUGO) && Uniform(s);
    var m := mode + limit * s;
    var pending := if st.perm != {} then Effect('+', st.who, st.perm, '+', mask, omode, mode) else mode;
    assert pending == mode + limit * st.perm;
    assert m == if st.permX then Effect('X', st.who, S_IXUGO, '+', mask, omode, pending) else pending;
    CopyIs(c, '+', st.who, mask, omode, m);
    EverywhereUniform(c, m);
    SameLimit(st.who, mask, Everywhere(c, m));
    assert 9 !in RWX;
    EverywhereMore(c, mode, limit, s);
  }

  lemma PlusCopies(c: char, l: string, st: Letters, mask: Mode, omode: Mode, mode: Mode)
    requires IsCopy(c) && Regular(st)
    ensures var (m, limit, others) := (Copied(c, '+', st, mask, omode, mode), WideLimit(st.who, mask), !Special(st.who));
            m + limit * (PermBits(l, others) + CopiedBits(l, m) + XBits('X' in l, omode)) ==
            mode + limit * (st.perm + PermBits([c] + l, others) + CopiedBits([c] + l, mode) + XBits(st.permX || 'X' in [c] + l, omode))
  {
    hide Executable, Everywhere, Classwise, Copied, PermBit, XBits, Special, Uniform, WideLimit;
    PlusCopied(c, st, mask, omode, mode);
    var s := st.perm + XBits(st.permX, omode) + Everywhere(c, mode);
    EverywhereUniform(c, mode);
    assert Uniform(s) by { SumUniform(st.perm, XBits(st.permX, omode), Everywhere(c, mode), st.permX, omode); }
    CopiesMore(l, mode, WideLimit(st.who, mask), s);
    assert ([c] + l)[1..] == l;
    CopyIsPlain(c, !Special(st.who));
    XSum(st.permX, 'X' in l, omode);
    assert 'X' in [c] + l <==> 'X' in l;
  }

  lemma SumUniform(a: Mode, x: Mode, b: Mode, permX: bool, omode: Mode)
    requires Uniform(a) && Uniform(b) && x == XBits(permX, omode)
    ensures Uniform(a + x + b)
  {
    hide Executable;
  }

  lemma CopyIsPlain(c: char, others: bool)
    requires IsCopy(c)
    ensures PermBit(c, others) == {} && c != 'X'
  {
  }

  lemma XSum(a: bool, b: bool, omode: Mode)
    ensures XBits(a || b, omode) == XBits(a, omode) + XBits(b, omode)
  {
  }

  /** `-`: all that the letters stand for is cleared, but `X` sets. */
  lemma {:induction false} MinusForm(l: string, st: Letters, mask: Mode, omode: Mode, mode: Mode)
    requires (forall k :: 0 <= k < |l| ==> IsPerm(l[k])) && Regular(st) && (st.who == {} ==> 't' !in l)
    ensures var limit := WideLimit(st.who, mask);
            PermsMean(l, '-', st, mask, omode, mode) ==
            mode - limit * (st.perm + PermBits(l, !Special(st.who)) + CopiedBits(l, mode)) +
            limit * XBits(st.permX || 'X' in l, omode)
  {
    hide Executable, Everywhere, Uniform, Classwise, Special, Letter, Effect, XBits;
    if l == [] {
      MinusEnds(st, mask, omode, mode);
    } else {
      var (c, l') := (l[0], l[1..]);
      assert l == [c] + l';
      var st' := Letter(c, '-', st);
      LetterRegular(c, '-', st, mask);
      if IsCopy(c) {
        CopyLetter(c, '-', st);
        MinusCopies(c, l', st, mask, mode, omode);
        MinusForm(l', st', mask, omode, Copied(c, '-', st, mask, omode, mode));
      } else {
        MinusForm(l', st', mask, omode, mode);
        assert st'.perm + PermBits(l', !Special(st.who)) == st.perm + PermBits(l, !Special(st.who));
      }
    }
  }

  lemma CopyLetter(c: char, op: char, st: Letters)
    requires IsCopy(c)
    ensures Letter(c, op, st) == Letters(st.who, {}, st.permX && op != '+', st.equalDone || op == '=')
  {
  }

  lemma MinusEnds(st: Letters, mask: Mode, omode: Mode, mode: Mode)
    requires Regular(st)
    ensures Ended('-', st, mask, omode, mode) ==
            mode - WideLimit(st.who, mask) * st.perm + WideLimit(st.who, mask) * XBits(st.permX, omode)
  {
    hide Executable, Uniform, Classwise, Value, Spread, Places;
    SameLimit(st.who, mask, st.perm);
    SameLimit(st.who, mask, S_IXUGO);
    assert 9 !in S_IXUGO;
  }

  lemma MinusCopies(c: char, l: string, st: Letters, mask: Mode, mode: Mode, omode: Mode)
    requires IsCopy(c) && Regular(st)
    ensures var (m, limit, others) := (Copied(c, '-', st, mask, omode, mode), WideLimit(st.who, mask), !Special(st.who));
            m - limit * (PermBits(l, others) + CopiedBits(l, m)) ==
            mode - limit * (st.perm + PermBits([c] + l, others) + CopiedBits([c] + l, mode))
  {
    hide Executable, Everywhere, Value, Spread, Places;
    var (limit, s) := (WideLimit(st.who, mask), st.perm);
    SameLimit(st.who, mask, s);
    var m := mode - limit * s;
    assert m == if st.perm != {} then Effect('-', st.who, st.perm, '-', mask, omode, mode) else mode;
    CopyIs(c, '-', st.who, mask, omode, m);
    EverywhereUniform(c, m);
    SameLimit(st.who, mask, Everywhere(c, m));
    assert 9 !in RWX;
    EverywhereLess(c, mode, limit, s);
    EverywhereUniform(c, mode);
    var s' := s + Everywhere(c, mode);
    assert Copied(c, '-', st, mask, omode, mode) == mode - limit * s';
    CopiesLess(l, mode, limit, s');
    assert ([c] + l)[1..] == l;
  }

  // ----- setting -----

  function StAfter(l: string, op: char, st: Letters): Letters {
    if l == [] then st else StAfter(l[1..], op, Letter(l[0], op, st))
  }

  function ModeAfter(l: string, op: char, st: Letters, mask: Mode, omode: Mode, mode: Mode): Mode {
    if l == [] then mode
    else ModeAfter(l[1..], op, Letter(l[0], op, st), mask, omode,
                   if IsCopy(l[0]) then Copied(l[0], op, st, mask, omode, mode) else mode)
  }

  /** The letters in two parts. */
  lemma {:induction false} Parts(a: string, b: string, op: char, st: Letters, mask: Mode, omode: Mode, mode: Mode)
    ensures PermsMean(a + b, op, st, mask, omode, mode) ==
            PermsMean(b, op, StAfter(a, op, st), mask, omode, ModeAfter(a, op, st, mask, omode, mode))
  {
    hide Copied, Letter, Ended, IsCopy;
    if a == [] {
      assert a + b == b;
    } else {
      assert (a + b)[1..] == a[1..] + b;
      Parts(a[1..], b, op, Letter(a[0], op, st), mask, omode, if IsCopy(a[0]) then Copied(a[0], op, st, mask, omode, mode) else mode);
    }
  }

  lemma {:induction false} PartsMore(a: string, c: char, op: char, st: Letters, mask: Mode, omode: Mode, mode: Mode)
    ensures StAfter(a + [c], op, st) == Letter(c, op, StAfter(a, op, st))
    ensures var m := ModeAfter(a, op, st, mask, omode, mode);
            ModeAfter(a + [c], op, st, mask, omode, mode) ==
            if IsCopy(c) then Copied(c, op, StAfter(a, op, st), mask, omode, m) else m
  {
    hide Copied, Letter, IsCopy;
    if a == [] {
      assert a + [c] == [c] && [c][1..] == [];
    } else {
      assert (a + [c])[1..] == a[1..] + [c];
      PartsMore(a[1..], c, op, Letter(a[0], op, st), mask, omode, if IsCopy(a[0]) then Copied(a[0], op, st, mask, omode, mode) else mode);
    }
  }

  predicate Effective(c: char, others: bool) {
    c == 'r' || c == 'w' || c == 'x' || (!others && (c == 's' || c == 't'))
  }

  predicate Quiet(l: string, others: bool) {
    forall k :: 0 <= k < |l| ==> !Effective(l[k], others)
  }

  /** The letters up to the last that stands for bits of its own. */
  function Head(l: string, others: bool): (n: nat)
    ensures n <= |l| && Quiet(l[n..], others) && (n > 0 ==> Effective(l[n - 1], others))
  {
    if l == [] then 0
    else if Effective(l[|l| - 1], others) then |l|
    else
      var n := Head(l[..|l| - 1], others);
      assert l[n..] == l[..|l| - 1][n..] + [l[|l| - 1]];
      n
  }

  function CopyLetters(l: string): (q: string)
    ensures forall k :: 0 <= k < |q| ==> IsCopy(q[k])
    ensures forall c :: c in q <==> c in l && IsCopy(c)
  {
    if l == [] then [] else (if IsCopy(l[0]) then [l[0]] else []) + CopyLetters(l[1..])
  }

  /** The letters behind the last that copies. */
  function LastPiece(l: string): (s: string)
    ensures NoCopies(s) && |s| <= |l| && s == l[|l| - |s|..] && (|s| < |l| ==> IsCopy(l[|l| - |s| - 1]))
  {
    if l == [] || IsCopy(l[|l| - 1]) then []
    else
      var s := LastPiece(l[..|l| - 1]);
      assert s + [l[|l| - 1]] == l[|l| - |s| - 1..];
      s + [l[|l| - 1]]
  }

  /** No letter of a class to copy from. */
  predicate NoCopies(l: string) {
    forall k :: 0 <= k < |l| ==> !IsCopy(l[k])
  }

  /** What `=` clears. */
  function Scope(who: Mode): Mode {
    if who != {} then who else STANDARD_BITS
  }

  function Flush(who: Mode, perm: Mode, mask: Mode, m: Mode): Mode {
    m - Scope(who) + Limit(who, mask) * perm
  }

  /** One copy after the other. */
  function Chain(q: string, limit: Mode, m: Mode): Mode {
    if q == [] then m else Chain(q[1..], limit, m - limit * RWX + limit * Everywhere(q[0], m))
  }

  lemma EqualCopied(c: char, st: Letters, mask: Mode, omode: Mode, mode: Mode)
    requires IsCopy(c) && Classwise(st.who)
    ensures var g := if st.perm != {} then Flush(st.who, st.perm, mask, mode) else mode;
            Copied(c, '=', st, mask, omode, mode) == Chain([c], Limit(st.who, mask), g)
  {
    hide Executable, Everywhere, Value, Spread, Places, Classwise;
    var g := if st.perm != {} then Flush(st.who, st.perm, mask, mode) else mode;
    assert g == if st.perm != {} then Effect('=', st.who, st.perm, '=', mask, omode, mode) else mode;
    CopyIs(c, '=', st.who, mask, omode, g);
    assert [c][1..] == [];
  }

  lemma EqualEnds(st: Letters, mask: Mode, omode: Mode, mode: Mode)
    ensures var g := if st.perm != {} || !st.equalDone then Flush(st.who, st.perm, mask, mode) else mode;
            Ended('=', st, mask, omode, mode) == g + Limit(st.who, mask) * XBits(st.permX, omode)
  {
    hide Executable, Value, Spread, Places;
  }

  lemma QuietLetter(c: char, st: Letters)
    requires IsPerm(c) && !IsCopy(c) && !Effective(c, !Special(st.who))
    ensures Letter(c, '=', st) == st.(permX := st.permX || c == 'X')
  {
  }

  /** Letters that stand for no bits of their own: the pending bits go out before the first copy. */
  lemma {:induction false} QuietForm(l: string, st: Letters, mask: Mode, omode: Mode, mode: Mode)
    requires (forall k :: 0 <= k < |l| ==> IsPerm(l[k])) && Quiet(l, !Special(st.who)) && Classwise(st.who)
    ensures var q := CopyLetters(l);
            var g := if st.perm != {} || (q == [] && !st.equalDone) then Flush(st.who, st.perm, mask, mode) else mode;
            PermsMean(l, '=', st, mask, omode, mode) ==
            Chain(q, Limit(st.who, mask), g) + Limit(st.who, mask) * XBits(st.permX || 'X' in l, omode)
  {
    hide Executable, Everywhere, Classwise, Special, Letter, Effect, XBits, Limit, Flush, IsPerm, Copied, Ended, Effective, IsCopy;
    if l == [] {
      EqualEnds(st, mask, omode, mode);
    } else {
      var (c, l') := (l[0], l[1..]);
      assert l == [c] + l';
      if IsCopy(c) {
        CopyLetter(c, '=', st);
        EqualCopied(c, st, mask, omode, mode);
        QuietForm(l', Letter(c, '=', st), mask, omode, Copied(c, '=', st, mask, omode, mode));
        assert [c][1..] == [] && CopyLetters(l) == [c] + CopyLetters(l') && CopyLetters(l)[1..] == CopyLetters(l');
        assert c != 'X' by { CopyIsNoX(c); }
      } else {
        QuietLetter(c, st);
        QuietForm(l', Letter(c, '=', st), mask, omode, mode);
        assert CopyLetters(l) == [] + CopyLetters(l') == CopyLetters(l');
      }
    }
  }

  lemma CopyIsNoX(c: char)
    requires IsCopy(c)
    ensures c != 'X' && c != 't'
  {
  }

  lemma {:induction false} PermBitsMore(l: string, c: char, others: bool)
    ensures PermBits(l + [c], others) == PermBits(l, others) + PermBit(c, others)
  {
    hide PermBit;
    if l == [] {
      assert l + [c] == [c] && [c][1..] == [];
    } else {
      assert (l + [c])[1..] == l[1..] + [c];
      PermBitsMore(l[1..], c, others);
    }
  }

  lemma {:induction false} PermBitsInside(l: string, others: bool)
    ensures PermBits(l, others) <= STANDARD_BITS + S_ISTXT
    ensures Quiet(l, others) <==> PermBits(l, others) == {}
    ensures 9 in PermBits(l, others) <==> !others && 't' in l
  {
    if l != [] {
      var (c, l') := (l[0], l[1..]);
      PermBitsInside(l', others);
      assert l == [c] + l' && (Quiet(l, others) <==> !Effective(c, others) && Quiet(l', others)) by {
        QuietParts(c, l', others);
      }
      PermBitFacts(c, others);
    }
  }

  lemma QuietParts(c: char, l: string, others: bool)
    ensures Quiet([c] + l, others) <==> !Effective(c, others) && Quiet(l, others)
  {
    assert forall k :: 0 <= k < |l| ==> ([c] + l)[k + 1] == l[k];
    if Quiet([c] + l, others) {
      assert ([c] + l)[0] == c;
      forall k | 0 <= k < |l| ensures !Effective(l[k], others) {
        assert ([c] + l)[k + 1] == l[k];
      }
    }
  }

  lemma PermBitFacts(c: char, others: bool)
    ensures PermBit(c, others) <= STANDARD_BITS + S_ISTXT
    ensures Effective(c, others) <==> PermBit(c, others) != {}
    ensures 9 in PermBit(c, others) <==> !others && c == 't'
  {
    assert 8 in READ && 7 in WRITE && 6 in S_IXUGO && 11 in S_ISUID + S_ISGID && 9 in S_ISTXT;
  }

  /** The class after some letters: `t` adds the sticky bit where it counts. */
  function Widened(w: Mode, l: string): Mode {
    w + if Special(w) && 't' in l then S_ISTXT else {}
  }

  lemma LetterEqual(c: char, st: Letters)
    requires Regular(st) && IsPerm(c) && (st.who == {} ==> c != 't')
    ensures var st' := Letter(c, '=', st);
            && st'.who == Widened(st.who, [c]) && (st'.permX <==> st.permX || c == 'X') && (st'.equalDone <==> st.equalDone || IsCopy(c))
            && st'.perm == if IsCopy(c) then {} else st.perm + PermBit(c, !Special(st.who))
  {
  }

  /** What the registers of `=` hold after the letters `h`. */
  ghost predicate HoldsAfter(st: Letters, h: string, w: Mode) {
    && Regular(st) && (Special(st.who) <==> Special(w)) && st.who == Widened(w, h) && (st.who == {} <==> w == {})
    && st.perm == PermBits(LastPiece(h), !Special(w)) && (st.permX <==> 'X' in h) && (st.equalDone <==> !NoCopies(h))
  }

  lemma LettersStep(h: string, c: char)
    ensures LastPiece(h + [c]) == if IsCopy(c) then [] else LastPiece(h) + [c]
    ensures NoCopies(h + [c]) <==> NoCopies(h) && !IsCopy(c)
  {
    hide IsCopy;
    var h' := h + [c];
    assert h'[..|h|] == h && h'[|h|] == c;
    assert |h'| == |h| + 1;
    if NoCopies(h') {
      forall k | 0 <= k < |h| ensures !IsCopy(h[k]) {
        assert h'[k] == h[k];
      }
    }
  }

  lemma WidenedStep(w: Mode, h: string, c: char)
    requires Special(Widened(w, h)) <==> Special(w)
    ensures Widened(Widened(w, h), [c]) == Widened(w, h + [c])
  {
    hide Special;
    assert 't' in h + [c] <==> 't' in h || c == 't';
    assert 't' in [c] <==> c == 't';
  }

  lemma HoldsMore(st: Letters, h: string, c: char, w: Mode)
    requires HoldsAfter(st, h, w) && IsPerm(c) && (w == {} ==> c != 't')
    ensures HoldsAfter(Letter(c, '=', st), h + [c], w)
  {
    hide Letter, Regular, Special, PermBit, IsCopy, IsPerm, PermBits, LastPiece, NoCopies, Widened;
    LetterRegular(c, '=', st, {});
    LetterEqual(c, st);
    PermBitsMore(LastPiece(h), c, !Special(w));
    NothingPending(!Special(w));
    LettersStep(h, c);
    WidenedStep(w, h, c);
    assert 'X' in h + [c] <==> 'X' in h || c == 'X';
  }

  lemma NothingPending(others: bool)
    ensures PermBits([], others) == {}
  {
  }

  /** The registers of `=` after some letters. */
  lemma {:induction false} EqualState(h: string, w: Mode)
    requires (forall k :: 0 <= k < |h| ==> IsPerm(h[k])) && Classwise(w) && (w == {} ==> 't' !in h)
    ensures HoldsAfter(StAfter(h, '=', Letters(w, {}, false, false)), h, w)
    decreases |h|
  {
    hide Letter, Classwise, IsPerm, HoldsAfter, StAfter;
    var st0 := Letters(w, {}, false, false);
    if h == [] {
      HoldsAtStart(w);
    } else {
      var (h', c) := (h[..|h| - 1], h[|h| - 1]);
      assert h == h' + [c];
      EqualState(h', w);
      PartsMore(h', c, '=', st0, {}, {}, {});
      HoldsMore(StAfter(h', '=', st0), h', c, w);
    }
  }

  lemma HoldsAtStart(w: Mode)
    requires Classwise(w)
    ensures HoldsAfter(StAfter([], '=', Letters(w, {}, false, false)), [], w)
  {
    NoneUniform();
  }

  lemma NoneUniform()
    ensures Uniform({})
  {
  }

  lemma ChainOff(q: string, limit: Mode, m: Mode)
    requires forall k :: 0 <= k < |q| ==> IsCopy(q[k])
    ensures Chain(q, limit, m) - limit * RWX == m - limit * RWX
    decreases |q|
  {
    hide Everywhere;
    if q != [] {
      EverywhereUniform(q[0], m);
      ChainOff(q[1..], limit, m - limit * RWX + limit * Everywhere(q[0], m));
    }
  }

  lemma CopiedOff(c: char, st: Letters, mask: Mode, omode: Mode, m: Mode)
    requires IsCopy(c) && Classwise(st.who) && st.perm <= STANDARD_BITS + S_ISTXT && (st.who == {} ==> 9 !in st.perm)
    ensures Copied(c, '=', st, mask, omode, m) - Scope(st.who) == m - Scope(st.who)
  {
    hide Classwise, Copied, Everywhere, Chain, IsCopy;
    EqualCopied(c, st, mask, omode, m);
    var (who, limit) := (st.who, Limit(st.who, mask));
    var g := if st.perm != {} then Flush(who, st.perm, mask, m) else m;
    ChainOff([c], limit, g);
    assert limit * RWX <= Scope(who);
    assert limit * st.perm <= Scope(who);
    assert g - Scope(who) == m - Scope(who);
    MinusMore(Copied(c, '=', st, mask, omode, m), g, limit * RWX, Scope(who));
  }

  lemma MinusMore(a: Mode, b: Mode, s: Mode, t: Mode)
    requires a - s == b - s && s <= t
    ensures a - t == b - t
  {
    forall x ensures x in a - t <==> x in b - t {
      assert x in a - s <==> x in b - s;
    }
  }

  /** Nothing outside what `=` clears is touched. */
  lemma {:induction false} EqualOff(h: string, w: Mode, mask: Mode, omode: Mode, mode: Mode)
    requires (forall k :: 0 <= k < |h| ==> IsPerm(h[k])) && Classwise(w) && (w == {} ==> 't' !in h)
    ensures ModeAfter(h, '=', Letters(w, {}, false, false), mask, omode, mode) - Scope(Widened(w, h)) == mode - Scope(Widened(w, h))
    decreases |h|
  {
    hide Letter, Classwise, Uniform, Special, PermBit, IsCopy, IsPerm, Copied, PermBits, StAfter;
    var st0 := Letters(w, {}, false, false);
    if h != [] {
      var (h', c) := (h[..|h| - 1], h[|h| - 1]);
      assert h == h' + [c];
      EqualState(h', w);
      EqualOff(h', w, mask, omode, mode);
      PartsMore(h', c, '=', st0, mask, omode, mode);
      assert Scope(Widened(w, h')) <= Scope(Widened(w, h)) by { ScopeMore(w, h', c); }
      MinusMore(ModeAfter(h', '=', st0, mask, omode, mode), mode, Scope(Widened(w, h')), Scope(Widened(w, h)));
      if IsCopy(c) {
        CopyIsNoX(c);
        assert Widened(w, h') == Widened(w, h);
        PermBitsInside(LastPiece(h'), !Special(w));
        CopiedOff(c, StAfter(h', '=', st0), mask, omode, ModeAfter(h', '=', st0, mask, omode, mode));
      }
    }
  }

  lemma ScopeMore(w: Mode, h: string, c: char)
    requires w == {} ==> 't' !in h + [c]
    ensures Scope(Widened(w, h)) <= Scope(Widened(w, h + [c]))
  {
    hide Special;
    assert 't' in h ==> 't' in h + [c];
  }

  lemma FlushSame(who: Mode, perm: Mode, mask: Mode, m: Mode, mode: Mode)
    requires m - Scope(who) == mode - Scope(who)
    ensures Flush(who, perm, mask, m) == Flush(who, perm, mask, mode)
  {
  }

  /** `=` up to the last letter that stands for bits of its own, and the copies behind it. */
  lemma EqualForm(l: string, w: Mode, mask: Mode, omode: Mode, mode: Mode)
    requires (forall k :: 0 <= k < |l| ==> IsPerm(l[k])) && Classwise(w) && (w == {} ==> 't' !in l)
    ensures PermsMean(l, '=', Letters(w, {}, false, false), mask, omode, mode) == EqualResult(l, w, mask, omode, mode)
  {
    hide Letter, HoldsAfter, Special, PermBit, IsCopy, IsPerm, XBits, ModeAfter, StAfter, PermsMean, Scope, Quiet, Effective, Widened, EqualResult;
    var (others, st0) := (!Special(w), Letters(w, {}, false, false));
    var n := Head(l, others);
    var (h, r) := (l[..n], l[n..]);
    assert l == h + r;
    Parts(h, r, '=', st0, mask, omode, mode);
    EqualState(h, w);
    EqualOff(h, w, mask, omode, mode);
    if n == 0 {
      AtStart(st0, mask, omode, mode);
      assert h == [];
    }
    EqualJoin(l, n, w, StAfter(h, '=', st0), mask, omode, mode, ModeAfter(h, '=', st0, mask, omode, mode));
  }

  lemma EqualJoin(l: string, n: nat, w: Mode, st: Letters, mask: Mode, omode: Mode, mode: Mode, m: Mode)
    requires (forall k :: 0 <= k < |l| ==> IsPerm(l[k])) && n == Head(l, !Special(w)) && HoldsAfter(st, l[..n], w)
    requires m - Scope(Widened(w, l[..n])) == mode - Scope(Widened(w, l[..n])) && (n == 0 ==> m == mode)
    ensures PermsMean(l[n..], '=', st, mask, omode, m) == EqualResult(l, w, mask, omode, mode)
  {
    hide Letter, Regular, Special, PermBit, IsCopy, IsPerm, Chain, XBits, PermsMean, Flush, Scope, PermBits, Limit, Quiet, Effective, LastPiece, NoCopies, Widened, CopyLetters;
    var (h, r) := (l[..n], l[n..]);
    assert l == h + r;
    SameWidened(l, n, w);
    QuietForm(r, st, mask, omode, m) by { RegularClasswise(st); }
    FlushSame(st.who, st.perm, mask, m, mode);
    PendingIs(l, n, w, st);
    assert 'X' in l <==> 'X' in h || 'X' in r;
  }

  /** Something is pending behind the last letter that stands for bits. */
  lemma PendingIs(l: string, n: nat, w: Mode, st: Letters)
    requires n == Head(l, !Special(w)) && HoldsAfter(st, l[..n], w)
    ensures n > 0 <==> st.perm != {}
    ensures n == 0 ==> !st.equalDone
  {
    hide Regular, Special, PermBit, IsCopy, PermBits, Quiet, Effective, LastPiece, NoCopies, Widened;
    if n > 0 {
      EndsEffective(l[..n], !Special(w));
      PermBitsInside(LastPiece(l[..n]), !Special(w));
    } else {
      NothingPending(!Special(w));
      AtFirst();
      assert l[..n] == [];
    }
  }

  lemma AtFirst()
    ensures LastPiece([]) == [] && NoCopies([])
  {
  }

  lemma RegularClasswise(st: Letters)
    requires Regular(st)
    ensures Classwise(st.who)
  {
  }

  function EqualResult(l: string, w: Mode, mask: Mode, omode: Mode, mode: Mode): Mode {
    var (others, who) := (!Special(w), Widened(w, l));
    var n := Head(l, others);
    var (perm, q) := (PermBits(LastPiece(l[..n]), others), CopyLetters(l[n..]));
    var g := if n == 0 && q != [] then mode else Flush(who, perm, mask, mode);
    Chain(q, Limit(who, mask), g) + Limit(who, mask) * XBits('X' in l, omode)
  }

  lemma AtStart(st: Letters, mask: Mode, omode: Mode, mode: Mode)
    ensures StAfter([], '=', st) == st && ModeAfter([], '=', st, mask, omode, mode) == mode && LastPiece([]) == [] && PermBits([], false) == {}
    ensures PermBits([], true) == {}
  {
  }

  lemma EndsEffective(h: string, others: bool)
    requires h != [] && Effective(h[|h| - 1], others)
    ensures !Quiet(LastPiece(h), others)
  {
    var s := LastPiece(h);
    assert s != [] && s[|s| - 1] == h[|h| - 1];
  }

  lemma SameWidened(l: string, n: nat, w: Mode)
    requires n <= |l| && Quiet(l[n..], !Special(w))
    ensures Widened(w, l[..n]) == Widened(w, l)
  {
    if Special(w) {
      assert l == l[..n] + l[n..];
      assert 't' !in l[n..];
    }
  }

  /** The class whose bits come through a row of copies into the classes of `limit`. */
  function Source(q: string, limit: Mode): (d: char)
    requires q != []
    ensures d in q
  {
    if |q| == 1 then q[0]
    else
      var d := Source(q[1..], limit);
      if Lowest(d) + 2 in limit then q[0] else d
  }

  lemma {:induction false} ChainSource(q: string, limit: Mode, m: Mode, b: nat)
    requires q != [] && (forall k :: 0 <= k < |q| ==> IsCopy(q[k])) && Classwise(limit) && b < 9 && b in limit
    ensures b in Chain(q, limit, m) <==> Lowest(Source(q, limit)) + b % 3 in m
  {
    hide Everywhere, IsCopy;
    var m' := m - limit * RWX + limit * Everywhere(q[0], m);
    InRwx();
    InEverywhere(q[0], m, b);
    if |q| == 1 {
      assert q[1..] == [];
    } else {
      var d := Source(q[1..], limit);
      ChainSource(q[1..], limit, m', b);
      var x := Lowest(d) + b % 3;
      assert x in limit <==> Lowest(d) + 2 in limit;
      InEverywhere(q[0], m, x);
    }
  }

  /** A bit that is clear in the class copied from, and where the mask hides it, ends up clear in all. */
  lemma {:induction false} ChainClear(q: string, mask: Mode, m: Mode)
    requires q != [] && forall k :: 0 <= k < |q| ==> IsCopy(q[k])
    requires forall b :: b in {2, 5, 8} && b !in mask ==> b !in m
    requires Lowest(q[0]) + 2 !in m
    ensures forall b :: b in {2, 5, 8} ==> b !in Chain(q, mask, m)
  {
    hide Everywhere, IsCopy;
    var m' := m - mask * RWX + mask * Everywhere(q[0], m);
    InRwx();
    forall b: nat | b in {2, 5, 8} ensures b !in m' {
      InEverywhere(q[0], m, b);
    }
    if |q| == 1 {
      assert q[1..] == [];
    } else {
      assert Lowest(q[1]) + 2 in {2, 5, 8};
      ChainClear(q[1..], mask, m');
    }
  }

  // ----- a `t` where nobody is named -----

  function FirstSticky(l: string): (f: nat)
    requires 't' in l
    ensures f < |l| && l[f] == 't' && 't' !in l[..f]
  {
    if l[0] == 't' then 0
    else
      assert l == [l[0]] + l[1..];
      var f := FirstSticky(l[1..]);
      assert l[..f + 1] == [l[0]] + l[1..][..f];
      f + 1
  }

  /** The letters up to the last copy before the first `t`: what comes later is confined to the sticky bit. */
  function Early(l: string): (e: string)
    requires 't' in l
    ensures e <= l && 't' !in e && (e == [] || IsCopy(e[|e| - 1]))
  {
    var a := l[..FirstSticky(l)];
    a[..|a| - |LastPiece(a)|]
  }

  lemma LateCopied(c: char, op: char, st: Letters, mask: Mode, omode: Mode, mode: Mode)
    requires IsCopy(c) && IsOp(op) && st.who == S_ISTXT
    ensures var m := Copied(c, op, st, mask, omode, mode);
            && m - S_ISTXT == mode - S_ISTXT
            && (op == '+' && (9 in st.perm || 9 in mode) ==> 9 in m)
            && (op == '-' && (9 in st.perm || 9 !in mode) ==> 9 !in m)
  {
    hide Executable, Everywhere, Value, Spread, Places, IsCopy;
    assert 9 in S_ISTXT && S_ISTXT * RWX == {} && S_ISTXT * S_IXUGO == {};
    var m := if st.perm != {} then Effect(op, st.who, st.perm, op, mask, omode, mode) else mode;
    var m' := if op == '+' && st.permX then Effect('X', st.who, S_IXUGO, op, mask, omode, m) else m;
    assert m' == m;
    CopyIs(c, op, st.who, mask, omode, m');
    EverywhereUniform(c, m');
    assert S_ISTXT * Everywhere(c, m') == {};
  }

  lemma LateEnded(op: char, st: Letters, mask: Mode, omode: Mode, mode: Mode)
    requires IsOp(op) && st.who == S_ISTXT
    ensures var m := Ended(op, st, mask, omode, mode);
            && m - S_ISTXT == mode - S_ISTXT
            && (op == '+' && (9 in st.perm || 9 in mode) ==> 9 in m)
            && (op == '-' && (9 in st.perm || 9 !in mode) ==> 9 !in m)
  {
    hide Executable, Value, Spread, Places;
    assert 9 in S_ISTXT && S_ISTXT * S_IXUGO == {};
  }

  lemma LateLetter(c: char, op: char, st: Letters)
    requires IsPerm(c) && st.who == S_ISTXT
    ensures Letter(c, op, st).who == S_ISTXT && (!IsCopy(c) ==> st.perm <= Letter(c, op, st).perm)
  {
  }

  lemma {:induction false} Late(l: string, op: char, st: Letters, mask: Mode, omode: Mode, mode: Mode)
    requires (forall k :: 0 <= k < |l| ==> IsPerm(l[k])) && IsOp(op) && st.who == S_ISTXT
    ensures var m := PermsMean(l, op, st, mask, omode, mode);
            && m - S_ISTXT == mode - S_ISTXT
            && (op == '+' && (9 in st.perm || 9 in mode) ==> 9 in m)
            && (op == '-' && (9 in st.perm || 9 !in mode) ==> 9 !in m)
  {
    hide Letter, IsPerm, IsCopy, Copied, Ended;
    if l == [] {
      LateEnded(op, st, mask, omode, mode);
    } else {
      LateLetter(l[0], op, st);
      if IsCopy(l[0]) {
        LateCopied(l[0], op, st, mask, omode, mode);
      }
      Late(l[1..], op, Letter(l[0], op, st), mask, omode, if IsCopy(l[0]) then Copied(l[0], op, st, mask, omode, mode) else mode);
    }
  }

  lemma {:induction false} NobodyNamed(l: string, op: char, st: Letters, mask: Mode, omode: Mode, mode: Mode)
    requires (forall k :: 0 <= k < |l| ==> IsPerm(l[k])) && 't' !in l && st.who == {}
    ensures StAfter(l, op, st).who == {} && (NoCopies(l) ==> ModeAfter(l, op, st, mask, omode, mode) == mode)
  {
    hide IsCopy, Copied;
    if l != [] {
      assert Letter(l[0], op, st).who == {};
      assert NoCopies(l) ==> NoCopies(l[1..]) && !IsCopy(l[0]);
      NobodyNamed(l[1..], op, Letter(l[0], op, st), mask, omode, if IsCopy(l[0]) then Copied(l[0], op, st, mask, omode, mode) else mode);
    }
  }

  /** Apart from the sticky bit, a `t` where nobody is named cuts the action short. */
  lemma StickyForm(l: string, op: char, mask: Mode, omode: Mode, mode: Mode)
    requires (forall k :: 0 <= k < |l| ==> IsPerm(l[k])) && IsOp(op) && 't' in l
    ensures var st0 := Letters({}, {}, false, false);
            var (m, e) := (PermsMean(l, op, st0, mask, omode, mode), ModeAfter(Early(l), op, st0, mask, omode, mode));
            m - S_ISTXT == e - S_ISTXT && (op == '+' ==> 9 in m) && (op == '-' ==> 9 !in m)
  {
    hide IsPerm, IsCopy, Copied, Ended, PermsMean, StAfter, ModeAfter, Early, NoCopies, Letter;
    var st0 := Letters({}, {}, false, false);
    var e, s, b := EarlyParts(l);
    PermsInside(l, e, s, b);
    Parts(e, s + (['t'] + b), op, st0, mask, omode, mode);
    NobodyNamed(e, op, st0, mask, omode, mode);
    var (st, m) := (StAfter(e, op, st0), ModeAfter(e, op, st0, mask, omode, mode));
    Parts(s, ['t'] + b, op, st, mask, omode, m);
    NobodyNamed(s, op, st, mask, omode, m);
    StickyRest(b, op, StAfter(s, op, st), mask, omode, m);
  }

  lemma PermsInside(l: string, e: string, s: string, b: string)
    requires (forall k :: 0 <= k < |l| ==> IsPerm(l[k])) && l == e + (s + (['t'] + b))
    ensures (forall k :: 0 <= k < |e| ==> IsPerm(e[k])) && (forall k :: 0 <= k < |s| ==> IsPerm(s[k]))
    ensures forall k :: 0 <= k < |b| ==> IsPerm(b[k])
  {
    hide IsPerm;
    forall k | 0 <= k < |e| ensures IsPerm(e[k]) {
      assert e[k] == l[k];
    }
    forall k | 0 <= k < |s| ensures IsPerm(s[k]) {
      assert s[k] == l[|e| + k];
    }
    forall k | 0 <= k < |b| ensures IsPerm(b[k]) {
      assert b[k] == l[|e| + |s| + 1 + k];
    }
  }

  lemma EarlyParts(l: string) returns (e: string, s: string, b: string)
    requires 't' in l
    ensures e == Early(l) && l == e + (s + (['t'] + b)) && 't' !in e && 't' !in s && NoCopies(s)
  {
    hide IsCopy, LastPiece, NoCopies, FirstSticky;
    var f := FirstSticky(l);
    e, s, b := Early(l), LastPiece(l[..f]), l[f + 1..];
    EarlyCut(l, f, e, s);
    assert forall c :: c in s ==> c in l[..f];
  }

  lemma EarlyCut(l: string, f: nat, e: string, s: string)
    requires f < |l| && l[f] == 't' && |s| <= f && s == l[..f][f - |s|..] && e == l[..f][..f - |s|]
    ensures l == e + (s + (['t'] + l[f + 1..])) && l[..f] == e + s
  {
    assert l == l[..f] + (['t'] + l[f + 1..]);
  }

  lemma StickyRest(b: string, op: char, st: Letters, mask: Mode, omode: Mode, m: Mode)
    requires (forall k :: 0 <= k < |b| ==> IsPerm(b[k])) && IsOp(op) && st.who == {}
    ensures var r := PermsMean(['t'] + b, op, st, mask, omode, m);
            r - S_ISTXT == m - S_ISTXT && (op == '+' ==> 9 in r) && (op == '-' ==> 9 !in r)
  {
    hide IsPerm, Copied, Ended;
    var st' := Letter('t', op, st);
    assert 9 in S_ISTXT && st'.who == S_ISTXT && 9 in st'.perm;
    Late(b, op, st', mask, omode, m);
    assert (['t'] + b)[1..] == b;
  }

  /** What the early letters of `+` come to. */
  lemma EarlyPlus(e: string, mask: Mode, omode: Mode, mode: Mode)
    requires (forall k :: 0 <= k < |e| ==> IsPerm(e[k])) && 't' !in e && (e == [] || IsCopy(e[|e| - 1]))
    ensures ModeAfter(e, '+', Letters({}, {}, false, false), mask, omode, mode) ==
            mode + mask * (PermBits(e, false) + CopiedBits(e, mode) + XBits('X' in e, omode))
  {
    hide IsPerm, Copied, PermsMean, StAfter, ModeAfter, PermBits, CopiedBits, XBits, Letter;
    var st0 := Letters({}, {}, false, false);
    assert Regular(st0) by { NoneUniform(); }
    PlusForm(e, st0, mask, omode, mode);
    assert {} + PermBits(e, false) == PermBits(e, false);
    Parts(e, [], '+', st0, mask, omode, mode);
    assert e + [] == e;
    var st := StAfter(e, '+', st0);
    if e == [] {
      AtPlusStart(st0);
    } else {
      assert e == e[..|e| - 1] + [e[|e| - 1]];
      PartsMore(e[..|e| - 1], e[|e| - 1], '+', st0, mask, omode, mode);
      CopyLetter(e[|e| - 1], '+', StAfter(e[..|e| - 1], '+', st0));
    }
    NothingLeft('+', st, mask, omode, ModeAfter(e, '+', st0, mask, omode, mode));
  }

  lemma AtPlusStart(st: Letters)
    ensures StAfter([], '+', st) == st
  {
  }

  lemma NothingLeft(op: char, st: Letters, mask: Mode, omode: Mode, mode: Mode)
    requires st.perm == {} && (op == '=' ==> st.equalDone) && (st.permX ==> !Executable(omode))
    ensures PermsMean([], op, st, mask, omode, mode) == mode
  {
  }

  /** What the early letters of `=` come to on a file nobody can execute. */
  lemma EarlyEqual(e: string, mask: Mode, omode: Mode, mode: Mode)
    requires (forall k :: 0 <= k < |e| ==> IsPerm(e[k])) && 't' !in e && e != [] && IsCopy(e[|e| - 1]) && !Executable(omode)
    ensures ModeAfter(e, '=', Letters({}, {}, false, false), mask, omode, mode) == EqualResult(e, {}, mask, omode, mode)
  {
    hide IsPerm, Copied, PermsMean, StAfter, ModeAfter, Letter, EqualResult, Executable;
    var st0 := Letters({}, {}, false, false);
    EqualForm(e, {}, mask, omode, mode);
    Parts(e, [], '=', st0, mask, omode, mode);
    assert e + [] == e;
    assert e == e[..|e| - 1] + [e[|e| - 1]];
    PartsMore(e[..|e| - 1], e[|e| - 1], '=', st0, mask, omode, mode);
    CopyLetter(e[|e| - 1], '=', StAfter(e[..|e| - 1], '=', st0));
    NothingLeft('=', StAfter(e, '=', st0), mask, omode, ModeAfter(e, '=', st0, mask, omode, mode));
  }
}
