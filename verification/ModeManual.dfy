/**
 chmod(1) on symbolic modes, taken at its word, and the actions for which the commands `setmode` builds
 do what it says.
 */
module ModeManual {
  import opened SetMode
  import opened SymbolicMode
  import opened ModeEffects

  // ----- what the manual says -----

  /** `o` by itself. */
  predicate OthersOnly(who: string) {
    who != [] && forall k :: 0 <= k < |who| ==> who[k] == 'o'
  }

  /** The bits set in the file mode creation mask, and the bits clear in it. */
  function Hidden(umask: Mode): Mode {
    umask * RWX
  }

  function Unmasked(umask: Mode): Mode {
    ALLBITS - Hidden(umask)
  }

  /**
   One action.  Where nobody is named `+` and `=` set what is clear in the creation mask, and `-` clears
   what is set in it.  `X` counts for `+` alone, and the letters of the classes stand for the bits of the
   original mode.
   */
  function Documented(who: string, a: Action, umask: Mode, omode: Mode, mode: Mode): Mode {
    var named := WhoBits(who) + S_ISTXT;
    var bits := PermBits(a.perms, OthersOnly(who)) + CopiedBits(a.perms, omode);
    if a.op == '+' then mode + (if who == [] then Unmasked(umask) else named) * (bits + XBits('X' in a.perms, omode))
    else if a.op == '-' then mode - (if who == [] then Hidden(umask) else named) * bits
    else mode - (if who == [] then STANDARD_BITS else WhoBits(who)) + (if who == [] then Unmasked(umask) else named) * bits
  }

  // ----- where the code does the same -----

  /** All of read, write and execute. */
  predicate Rwx(l: string) {
    'r' in l && 'w' in l && 'x' in l
  }

  predicate Only(l: string, c: char) {
    forall k :: 0 <= k < |l| ==> l[k] == c
  }

  predicate CopiesOnly(l: string, d: char) {
    forall c :: c in CopyLetters(l) ==> c == d
  }

  predicate Names(who: string, d: char) {
    d in who || 'a' in who
  }

  /** One class is named, and no other copied from. */
  predicate SoleClass(who: string, l: string) {
    who != [] && who[0] != 'a' && Only(who, who[0]) && CopiesOnly(l, who[0])
  }

  /** Nothing behind the first `t` is missed. */
  predicate InTime(l: string, e: string) {
    && ('r' in l ==> 'r' in e) && ('w' in l ==> 'w' in e) && ('x' in l ==> 'x' in e) && ('s' in l ==> 's' in e)
    && ('X' in l ==> 'X' in e || 'x' in e)
    && ((forall c :: c in CopyLetters(l) ==> c in e) || ('r' in e && 'w' in e && ('x' in e || 'X' in e)))
  }

  predicate AgreesPlus(who: string, l: string, first: bool) {
    if who == [] && 't' in l then InTime(l, Early(l)) && (first || Only(l, 't') || Rwx(Early(l)))
    else first || NoCopies(l) || Rwx(l) || ('r' in l && 'w' in l && 'X' in l && SoleClass(who, l))
  }

  predicate AgreesMinus(who: string, l: string, first: bool) {
    if who == [] then l == [] else 'X' !in l && (first || NoCopies(l) || Rwx(l))
  }

  /** The letters that are not undone by a later copy or letter. */
  function LastBits(who: string, l: string): string {
    LastPiece(l[..Head(l, OthersOnly(who))])
  }

  function LastCopies(who: string, l: string): (q: string)
    ensures forall c :: c in q ==> IsCopy(c)
  {
    CopyLetters(l[Head(l, OthersOnly(who))..])
  }

  predicate AgreesEqual(who: string, l: string, first: bool) {
    var (n, s, q) := (Head(l, OthersOnly(who)), LastBits(who, l), LastCopies(who, l));
    if NoCopies(l) then !(who == [] && 't' in l) && ('X' in l ==> 'x' in l)
    else if who == [] then 't' !in l && q == [] && Rwx(s) && ('s' in l ==> 's' in s)
    else
      && (OthersOnly(who) || (n > 0 && ('s' in l ==> 's' in s) && ('t' in l ==> 't' in s)))
      && if q == [] || (n > 0 && Names(who, Source(q, WhoBits(who)))) then Rwx(s)
         else first && 'r' !in l && 'w' !in l && 'x' !in l && 'X' !in l && CopiesOnly(l, Source(q, WhoBits(who)))
  }

  /**
   When the commands for an action do what the manual says: on every mode, or, when it is the first action
   on a file, on the file's own.
   */
  predicate Agrees(who: string, a: Action, first: bool) {
    if a.op == '+' then AgreesPlus(who, a.perms, first)
    else if a.op == '-' then AgreesMinus(who, a.perms, first)
    else AgreesEqual(who, a.perms, first)
  }

  // ----- bit by bit -----

  function LetterOf(b: nat): char {
    if b < 9 then (if b % 3 == 2 then 'r' else if b % 3 == 1 then 'w' else 'x') else if b == 9 then 't' else 's'
  }

  lemma BitOf(c: char, others: bool, b: nat)
    ensures b in PermBit(c, others) <==> b < 12 && LetterOf(b) == c && (b < 9 || !others)
  {
  }

  lemma {:induction false} InPermBits(l: string, others: bool, b: nat)
    ensures b in PermBits(l, others) <==> b < 12 && LetterOf(b) in l && (b < 9 || !others)
  {
    hide PermBit, LetterOf;
    if l != [] {
      InPermBits(l[1..], others, b);
      BitOf(l[0], others, b);
      assert l == [l[0]] + l[1..];
    }
  }

  lemma {:induction false} InCopies(l: string, m: Mode, b: nat)
    ensures b in CopiedBits(l, m) <==> b < 9 && exists c :: c in l && IsCopy(c) && Lowest(c) + b % 3 in m
  {
    hide Everywhere, IsCopy, Lowest;
    if l != [] {
      InCopies(l[1..], m, b);
      assert l == [l[0]] + l[1..];
      if IsCopy(l[0]) {
        InEverywhere(l[0], m, b);
      }
    }
  }

  lemma CopyCopies(l: string, c: char)
    ensures c in CopyLetters(l) <==> c in l && IsCopy(c)
    ensures NoCopies(l) <==> CopyLetters(l) == []
  {
    if !NoCopies(l) {
      var k :| 0 <= k < |l| && IsCopy(l[k]);
      assert l[k] in CopyLetters(l);
    }
    if CopyLetters(l) != [] {
      assert CopyLetters(l)[0] in CopyLetters(l);
    }
  }

  /** The class `who` names. */
  lemma {:induction false} WhoNamed(who: string)
    requires forall k :: 0 <= k < |who| ==> IsWho(who[k])
    ensures Classwise(WhoBits(who)) && (OthersOnly(who) <==> !Special(WhoBits(who))) && (who == [] <==> WhoBits(who) == {})
    ensures WhoBits(who) <= STANDARD_BITS
    ensures forall d :: IsCopy(d) ==> (Lowest(d) + 2 in WhoBits(who) <==> Names(who, d))
    ensures !OthersOnly(who) && who != [] ==> 10 in WhoBits(who) || 11 in WhoBits(who)
  {
    if who != [] {
      var (c, rest) := (who[0], who[1..]);
      assert who == [c] + rest;
      WhoNamed(rest);
      OneNamed(c);
      var (b, w) := (WhoBit(c), WhoBits(rest));
      assert WhoBits(who) == b + w;
      assert OthersOnly(who) <==> c == 'o' && (rest == [] || OthersOnly(rest)) by { OthersParts(c, rest); }
      assert Special(b + w) <==> Special(b) || (w != {} && Special(w)) by {
        assert 10 !in S_IRWXO && 11 !in S_IRWXO;
        assert b + w - S_IRWXO == (b - S_IRWXO) + (w - S_IRWXO);
      }
      forall d | IsCopy(d) ensures Lowest(d) + 2 in WhoBits(who) <==> Names(who, d) {
        assert Names(who, d) <==> d == c || c == 'a' || Names(rest, d);
      }
    }
  }

  lemma OneNamed(c: char)
    requires IsWho(c)
    ensures Classwise(WhoBit(c)) && (Special(WhoBit(c)) <==> c != 'o') && WhoBit(c) != {} && WhoBit(c) <= STANDARD_BITS
    ensures forall d :: IsCopy(d) ==> (Lowest(d) + 2 in WhoBit(c) <==> d == c || c == 'a')
    ensures c != 'o' ==> 10 in WhoBit(c) || 11 in WhoBit(c)
  {
    assert 8 in S_IRWXU && 5 in S_IRWXG && 2 in S_IRWXO && 10 in S_ISGID && 11 in S_ISUID;
    assert 10 !in S_IRWXO && 11 !in S_IRWXO;
    if c != 'o' {
      assert 10 in WhoBit(c) - S_IRWXO || 11 in WhoBit(c) - S_IRWXO;
    } else {
      assert WhoBit(c) - S_IRWXO == {};
    }
  }

  lemma OthersParts(c: char, rest: string)
    ensures OthersOnly([c] + rest) <==> c == 'o' && (rest == [] || OthersOnly(rest))
  {
    var who := [c] + rest;
    assert who[0] == c && forall k :: 0 <= k < |rest| ==> who[k + 1] == rest[k];
    if OthersOnly(who) {
      forall k | 0 <= k < |rest| ensures rest[k] == 'o' {
        assert who[k + 1] == rest[k];
      }
    }
  }

  // ----- one action, as code and as manual -----

  predicate GoodWho(who: string) {
    forall k :: 0 <= k < |who| ==> IsWho(who[k])
  }

  /** The commands for an action. */
  function Code(who: string, a: Action, umask: Mode, omode: Mode, mode: Mode): Mode {
    ActionMeans(WhoBits(who), a, Unmasked(umask), omode, mode)
  }

  lemma MaskFacts(umask: Mode)
    ensures forall b: nat :: b in Hidden(umask) <==> b in umask && b < 9
    ensures forall b: nat :: b in Unmasked(umask) <==> b < 32 && (b >= 9 || b !in umask)
    ensures forall b: nat :: b in STANDARD_BITS <==> b < 9 || b == 10 || b == 11
    ensures forall b: nat :: b in S_IXUGO <==> b == 0 || b == 3 || b == 6
    ensures forall b: nat :: b in S_ISTXT <==> b == 9
    ensures forall b: nat :: b in RWX <==> b < 9
  {
  }

  lemma StartRegular(who: string)
    requires GoodWho(who)
    ensures Regular(Letters(WhoBits(who), {}, false, false))
  {
    hide WhoBits;
    WhoNamed(who);
  }

  lemma CodePlus(who: string, a: Action, umask: Mode, omode: Mode, mode: Mode)
    requires GoodAction(a) && GoodWho(who) && a.op == '+' && !(who == [] && 't' in a.perms)
    ensures Code(who, a, umask, omode, mode) ==
            mode + (if who == [] then Unmasked(umask) else WhoBits(who) + S_ISTXT) *
            (PermBits(a.perms, OthersOnly(who)) + CopiedBits(a.perms, mode) + XBits('X' in a.perms, omode))
  {
    hide WhoBits, Unmasked, PermBits, CopiedBits, XBits, Regular, Special, OthersOnly;
    WhoNamed(who);
    StartRegular(who);
    PlusForm(a.perms, Letters(WhoBits(who), {}, false, false), Unmasked(umask), omode, mode);
    assert {} + PermBits(a.perms, OthersOnly(who)) == PermBits(a.perms, OthersOnly(who));
  }

  lemma CodeMinus(who: string, a: Action, umask: Mode, omode: Mode, mode: Mode)
    requires GoodAction(a) && GoodWho(who) && a.op == '-' && !(who == [] && 't' in a.perms)
    ensures var limit := if who == [] then Unmasked(umask) else WhoBits(who) + S_ISTXT;
            Code(who, a, umask, omode, mode) ==
            mode - limit * (PermBits(a.perms, OthersOnly(who)) + CopiedBits(a.perms, mode)) + limit * XBits('X' in a.perms, omode)
  {
    hide WhoBits, Unmasked, PermBits, CopiedBits, XBits, Regular, Special, OthersOnly;
    WhoNamed(who);
    StartRegular(who);
    MinusForm(a.perms, Letters(WhoBits(who), {}, false, false), Unmasked(umask), omode, mode);
    assert {} + PermBits(a.perms, OthersOnly(who)) == PermBits(a.perms, OthersOnly(who));
  }

  lemma CodeEqual(who: string, a: Action, umask: Mode, omode: Mode, mode: Mode)
    requires GoodAction(a) && GoodWho(who) && a.op == '=' && !(who == [] && 't' in a.perms)
    ensures Code(who, a, umask, omode, mode) == EqualResult(a.perms, WhoBits(who), Unmasked(umask), omode, mode)
  {
    hide WhoBits, Unmasked, EqualResult, Special, OthersOnly;
    WhoNamed(who);
    EqualForm(a.perms, WhoBits(who), Unmasked(umask), omode, mode);
  }

  /** A `t` where nobody is named: what comes of it apart from the sticky bit. */
  lemma CodeSticky(a: Action, umask: Mode, omode: Mode, mode: Mode)
    requires GoodAction(a) && 't' in a.perms
    ensures var (m, e) := (Code([], a, umask, omode, mode), Early(a.perms));
            && (a.op == '+' ==> 9 in m)
            && (a.op == '+' ==>
                  m - S_ISTXT == mode + Unmasked(umask) * (PermBits(e, false) + CopiedBits(e, mode) + XBits('X' in e, omode)) - S_ISTXT)
            && (a.op == '-' ==> 9 !in m)
            && (a.op == '=' && !Executable(omode) ==>
                  m - S_ISTXT == (if e == [] then mode else EqualResult(e, {}, Unmasked(umask), omode, mode)) - S_ISTXT)
  {
    hide Unmasked, PermBits, CopiedBits, XBits, EqualResult, Executable, Early, PermsMean;
    assert WhoBits([]) == {};
    var e := Early(a.perms);
    assert forall k :: 0 <= k < |e| ==> e[k] == a.perms[k];
    StickyForm(a.perms, a.op, Unmasked(umask), omode, mode);
    if a.op == '+' {
      EarlyPlus(e, Unmasked(umask), omode, mode);
    } else if a.op == '=' && e != [] && !Executable(omode) {
      EarlyEqual(e, Unmasked(umask), omode, mode);
    }
  }

  // ----- agreement -----

  lemma FullRwx(l: string, others: bool, m: Mode)
    requires Rwx(l)
    ensures RWX <= PermBits(l, others) && CopiedBits(l, m) <= RWX
  {
    hide PermBits, CopiedBits;
    MaskFacts({});
    forall b: nat | b < 9 ensures b in PermBits(l, others) {
      InPermBits(l, others, b);
    }
    CopiesInside(l, m);
  }

  lemma NoneCopied(l: string, m: Mode)
    requires NoCopies(l)
    ensures CopiedBits(l, m) == {}
  {
    hide CopiedBits;
    forall b: nat ensures b !in CopiedBits(l, m) {
      InCopies(l, m, b);
    }
  }

  /** With one class named and no other copied from, a copy adds nothing that is not there. */
  lemma SoleCopy(who: string, l: string, m: Mode, b: nat)
    requires GoodWho(who) && SoleClass(who, l) && b < 9 && b in WhoBits(who)
    ensures b in CopiedBits(l, m) <==> b in m && !NoCopies(l)
  {
    hide CopiedBits, WhoBits, Lowest, IsCopy, CopyLetters;
    WhoNamed(who);
    InCopies(l, m, b);
    OwnBits(who[0], who, b);
    forall c ensures c in CopyLetters(l) <==> c in l && IsCopy(c) {
      CopyCopies(l, c);
    }
    if !NoCopies(l) {
      var k :| 0 <= k < |l| && IsCopy(l[k]);
      assert l[k] in CopyLetters(l);
    }
  }

  lemma OwnBits(c: char, who: string, b: nat)
    requires GoodWho(who) && who != [] && who[0] == c && c != 'a' && Only(who, c) && b < 9 && b in WhoBits(who)
    ensures IsCopy(c) && Lowest(c) + b % 3 == b
  {
    hide WhoBits;
    WhoNamed(who);
    var d := if b >= 6 then 'u' else if b >= 3 then 'g' else 'o';
    assert Lowest(d) + b % 3 == b && IsCopy(d);
    assert Lowest(d) + 2 in WhoBits(who);
    assert Names(who, d);
  }

  lemma PlusAgrees(who: string, a: Action, umask: Mode, omode: Mode, mode: Mode)
    requires GoodAction(a) && GoodWho(who) && a.op == '+' && !(who == [] && 't' in a.perms)
    requires AgreesPlus(who, a.perms, mode == omode)
    ensures Code(who, a, umask, omode, mode) == Documented(who, a, umask, omode, mode)
  {
    hide Code, WhoBits, Unmasked, PermBits, CopiedBits, OthersOnly, SoleClass, Executable, Lowest;
    CodePlus(who, a, umask, omode, mode);
    var (l, others) := (a.perms, OthersOnly(who));
    if mode == omode {
    } else if NoCopies(l) {
      NoneCopied(l, mode);
      NoneCopied(l, omode);
    } else if Rwx(l) {
      FullRwx(l, others, mode);
      FullRwx(l, others, omode);
    } else {
      assert who != [] by { SoleNamed(who, l); }
      forall b: nat | b in WhoBits(who) + S_ISTXT
        ensures b in mode || b in CopiedBits(l, mode) || b in PermBits(l, others) || b in XBits('X' in l, omode) <==>
                b in mode || b in CopiedBits(l, omode) || b in PermBits(l, others) || b in XBits('X' in l, omode)
      {
        SoleBit(who, l, omode, mode, b);
      }
    }
  }

  lemma SoleNamed(who: string, l: string)
    requires SoleClass(who, l)
    ensures who != []
  {
  }

  lemma SoleBit(who: string, l: string, omode: Mode, mode: Mode, b: nat)
    requires GoodWho(who) && SoleClass(who, l) && 'r' in l && 'w' in l && 'X' in l && b in WhoBits(who) + S_ISTXT
    ensures b in CopiedBits(l, mode) ==> b in mode
    ensures b in CopiedBits(l, omode) ==> b in PermBits(l, OthersOnly(who)) || b in XBits('X' in l, omode)
  {
    hide WhoBits, PermBits, CopiedBits, OthersOnly, SoleClass;
    MaskFacts({});
    CopiesInside(l, mode);
    CopiesInside(l, omode);
    InPermBits(l, OthersOnly(who), b);
    if b < 9 {
      SoleCopy(who, l, mode, b);
      SoleCopy(who, l, omode, b);
      if b in omode && b % 3 == 0 {
        assert b in omode * (S_IFDIR + S_IXUGO);
      }
    }
  }

  lemma MinusAgrees(who: string, a: Action, umask: Mode, omode: Mode, mode: Mode)
    requires GoodAction(a) && GoodWho(who) && a.op == '-' && AgreesMinus(who, a.perms, mode == omode)
    ensures Code(who, a, umask, omode, mode) == Documented(who, a, umask, omode, mode)
  {
    hide Code, WhoBits, Unmasked, Hidden, PermBits, CopiedBits, OthersOnly, Executable;
    CodeMinus(who, a, umask, omode, mode);
    var (l, others) := (a.perms, OthersOnly(who));
    assert XBits(false, omode) == {};
    if who == [] {
      NothingPending(others);
      NoneCopied(l, mode);
      NoneCopied(l, omode);
    } else if mode == omode {
    } else if NoCopies(l) {
      NoneCopied(l, mode);
      NoneCopied(l, omode);
    } else {
      FullRwx(l, others, mode);
      FullRwx(l, others, omode);
    }
  }

  // ----- a `t` where nobody is named -----

  lemma PlusInTime(a: Action, umask: Mode, omode: Mode, mode: Mode)
    requires GoodAction(a) && a.op == '+' && 't' in a.perms && AgreesPlus([], a.perms, mode == omode)
    ensures Code([], a, umask, omode, mode) == Documented([], a, umask, omode, mode)
  {
    hide Code, Unmasked, PermBits, CopiedBits, Early, Executable, XBits, InTime;
    var (l, e, mask) := (a.perms, Early(a.perms), Unmasked(umask));
    CodeSticky(a, umask, omode, mode);
    MaskFacts(umask);
    assert 9 in mask && !OthersOnly([]);
    InPermBits(l, false, 9);
    assert LetterOf(9) == 't';
    var (c, d) := (PermBits(e, false) + CopiedBits(e, mode) + XBits('X' in e, omode),
                   PermBits(l, false) + CopiedBits(l, omode) + XBits('X' in l, omode));
    forall b: nat | b != 9 ensures b in c <==> b in d {
      EarlyBit(l, e, omode, mode, b);
    }
    var (m, n) := (Code([], a, umask, omode, mode), Documented([], a, umask, omode, mode));
    forall b: nat ensures b in m <==> b in n {
      if b != 9 {
        assert b in m <==> b in m - S_ISTXT;
      }
    }
  }

  lemma InXBits(permX: bool, omode: Mode, b: nat)
    ensures b in XBits(permX, omode) <==> permX && Executable(omode) && b < 9 && b % 3 == 0
  {
  }

  lemma ExecutableBy(omode: Mode, c: char)
    requires IsCopy(c) && Lowest(c) in omode
    ensures Executable(omode)
  {
    assert Lowest(c) in omode * (S_IFDIR + S_IXUGO);
  }

  lemma EarlyBit(l: string, e: string, omode: Mode, mode: Mode, b: nat)
    requires 't' in l && e == Early(l) && b != 9 && InTime(l, e) && (mode == omode || Only(l, 't') || Rwx(e))
    ensures b in PermBits(e, false) + CopiedBits(e, mode) + XBits('X' in e, omode) <==>
            b in PermBits(l, false) + CopiedBits(l, omode) + XBits('X' in l, omode)
  {
    hide PermBits, CopiedBits, Early, Executable, XBits, Lowest, IsCopy, CopyLetters;
    InPermBits(e, false, b);
    InPermBits(l, false, b);
    InCopies(e, mode, b);
    InCopies(l, omode, b);
    InXBits('X' in e, omode, b);
    InXBits('X' in l, omode, b);
    forall c ensures c in CopyLetters(l) <==> c in l && IsCopy(c) {
      CopyCopies(l, c);
    }
    assert forall c :: c in e ==> c in l;
    if Only(l, 't') && !Rwx(e) && mode != omode {
      assert forall c :: c in l ==> c == 't';
      assert 't' !in e;
    }
    if b < 9 && b % 3 == 0 {
      if c :| c in l && IsCopy(c) && Lowest(c) + b % 3 in omode {
        ExecutableBy(omode, c);
      }
    }
  }

  // ----- setting -----

  /** The letters that stand for bits come before the end of the head. */
  lemma HeadHas(l: string, others: bool, c: char)
    requires Effective(c, others)
    ensures c in l <==> c in l[..Head(l, others)]
  {
    hide Effective;
    var n := Head(l, others);
    assert l == l[..n] + l[n..];
  }

  lemma PieceInside(h: string)
    ensures forall c :: c in LastPiece(h) ==> c in h
    ensures NoCopies(h) ==> LastPiece(h) == h
  {
    hide IsCopy;
    var s := LastPiece(h);
    assert s == h[|h| - |s|..];
  }

  lemma TailCopies(l: string, n: nat)
    requires n <= |l|
    ensures forall c :: c in CopyLetters(l[n..]) ==> c in CopyLetters(l)
    ensures NoCopies(l) ==> CopyLetters(l[n..]) == []
  {
    hide CopyLetters, NoCopies, IsCopy;
    assert l == l[..n] + l[n..];
    forall c | c in CopyLetters(l[n..]) ensures c in CopyLetters(l) {
      CopyCopies(l, c);
      CopyCopies(l[n..], c);
    }
    CopyCopies(l, 'u');
    if CopyLetters(l[n..]) != [] {
      assert CopyLetters(l[n..])[0] in CopyLetters(l);
    }
  }

  lemma LastInside(who: string, l: string)
    ensures forall c :: c in LastBits(who, l) ==> c in l
    ensures forall c :: c in LastCopies(who, l) ==> c in CopyLetters(l)
    ensures NoCopies(l) ==> LastCopies(who, l) == []
  {
    hide LastPiece, CopyLetters, Head, NoCopies, OthersOnly;
    var n := Head(l, OthersOnly(who));
    PieceInside(l[..n]);
    TailCopies(l, n);
    assert forall c :: c in l[..n] ==> c in l;
  }

  /** The bits of the last letters are those of all letters and copies. */
  lemma LastSame(who: string, l: string, omode: Mode)
    requires Rwx(LastBits(who, l))
    requires OthersOnly(who) || (('s' in l ==> 's' in LastBits(who, l)) && ('t' in l ==> 't' in LastBits(who, l)))
    ensures PermBits(LastBits(who, l), OthersOnly(who)) == PermBits(l, OthersOnly(who)) + CopiedBits(l, omode)
  {
    hide PermBits, CopiedBits, OthersOnly, LastBits;
    var (s, others) := (LastBits(who, l), OthersOnly(who));
    LastInside(who, l);
    CopiesInside(l, omode);
    MaskFacts({});
    forall b: nat ensures b in PermBits(s, others) <==> b in PermBits(l, others) + CopiedBits(l, omode) {
      InPermBits(s, others, b);
      InPermBits(l, others, b);
    }
  }

  lemma LastOfPlain(who: string, l: string, omode: Mode)
    requires NoCopies(l)
    ensures PermBits(LastBits(who, l), OthersOnly(who)) == PermBits(l, OthersOnly(who)) + CopiedBits(l, omode)
  {
    hide PermBits, CopiedBits, OthersOnly, Head, LastPiece, LetterOf;
    var others := OthersOnly(who);
    var h := l[..Head(l, others)];
    assert NoCopies(h) by {
      forall k | 0 <= k < |h| ensures !IsCopy(h[k]) {
        assert h[k] == l[k];
      }
    }
    PieceInside(h);
    NoneCopied(l, omode);
    forall b: nat ensures b in PermBits(h, others) <==> b in PermBits(l, others) {
      InPermBits(h, others, b);
      InPermBits(l, others, b);
      if b < 12 && (b < 9 || !others) {
        LetterEffective(b, others);
        HeadHas(l, others, LetterOf(b));
      }
    }
  }

  lemma LetterEffective(b: nat, others: bool)
    requires b < 12 && (b < 9 || !others)
    ensures Effective(LetterOf(b), others)
  {
  }

  /** All that counts goes out at once. */
  lemma FlushDocumented(who: string, a: Action, umask: Mode, omode: Mode, mode: Mode)
    requires GoodAction(a) && GoodWho(who) && a.op == '=' && !(who == [] && 't' in a.perms)
    ensures var p := PermBits(a.perms, OthersOnly(who)) + CopiedBits(a.perms, omode);
            Flush(Widened(WhoBits(who), a.perms), p, Unmasked(umask), mode) == Documented(who, a, umask, omode, mode)
  {
    hide WhoBits, PermBits, CopiedBits, OthersOnly, Special;
    var (l, others, w) := (a.perms, OthersOnly(who), WhoBits(who));
    var (p, w', mask) := (PermBits(l, others) + CopiedBits(l, omode), Widened(w, l), Unmasked(umask));
    WhoNamed(who);
    MaskFacts(umask);
    CopiesInside(l, omode);
    InPermBits(l, others, 9);
    assert LetterOf(9) == 't';
    if who == [] {
      assert !others by { NobodyIsNotOthers(); }
      assert w' == {};
    } else {
      assert 9 in p <==> !others && 't' in l;
      assert w' == if 9 in p then w + S_ISTXT else w;
      assert (w + S_ISTXT) * p == w' * p;
      assert mode - w' + w' * p == mode - w + w' * p;
    }
  }

  lemma NobodyIsNotOthers()
    ensures !OthersOnly([])
  {
  }

  /** Copies among classes that hold everything change nothing. */
  lemma ChainKeeps(q: string, w: Mode, g: Mode)
    requires q != [] && (forall k :: 0 <= k < |q| ==> IsCopy(q[k])) && Classwise(w)
    requires (forall b: nat :: b < 9 && b in w ==> b in g) && Lowest(Source(q, w)) + 2 in w
    ensures Chain(q, w, g) == g
  {
    hide Chain, Source, Lowest, IsCopy;
    var d := Source(q, w);
    ChainOff(q, w, g);
    MaskFacts({});
    forall b: nat ensures b in Chain(q, w, g) <==> b in g {
      if b < 9 && b in w {
        ChainSource(q, w, g, b);
        SameClass(d, w, b % 3);
      } else {
        assert b in Chain(q, w, g) - w * RWX <==> b in g - w * RWX;
      }
    }
  }

  lemma SameClass(d: char, w: Mode, x: nat)
    requires Classwise(w) && x < 3
    ensures Lowest(d) + x in w <==> Lowest(d) + 2 in w
    ensures Lowest(d) + x < 9
  {
  }

  lemma WidenedClass(w: Mode, l: string)
    requires Classwise(w)
    ensures Classwise(Widened(w, l)) && forall b: nat :: b < 9 ==> (b in Widened(w, l) <==> b in w)
  {
    MaskFacts({});
  }

  lemma {:induction false} SourceSame(q: string, w: Mode, w': Mode)
    requires q != [] && forall b: nat :: b < 9 ==> (b in w' <==> b in w)
    ensures Source(q, w') == Source(q, w)
  {
    if |q| > 1 {
      SourceSame(q[1..], w, w');
    }
  }

  /** What was there before the copies that count. */
  function BeforeCopies(who: string, l: string, mask: Mode, mode: Mode): Mode {
    if Head(l, OthersOnly(who)) == 0 && LastCopies(who, l) != [] then mode
    else Flush(Widened(WhoBits(who), l), PermBits(LastBits(who, l), OthersOnly(who)), mask, mode)
  }

  lemma CodeSet(who: string, a: Action, umask: Mode, omode: Mode, mode: Mode)
    requires GoodAction(a) && GoodWho(who) && a.op == '=' && !(who == [] && 't' in a.perms)
    ensures var limit := Limit(Widened(WhoBits(who), a.perms), Unmasked(umask));
            Code(who, a, umask, omode, mode) ==
            Chain(LastCopies(who, a.perms), limit, BeforeCopies(who, a.perms, Unmasked(umask), mode)) +
            limit * XBits('X' in a.perms, omode)
  {
    hide WhoBits, PermBits, OthersOnly, Code, Chain, Head, LastPiece, CopyLetters, XBits, Special, Unmasked, Flush, Limit;
    CodeEqual(who, a, umask, omode, mode);
    WhoNamed(who);
    assert OthersOnly(who) <==> !Special(WhoBits(who)) by { NobodyIsNotOthers(); NobodySpecial(); }
  }

  /** The code's `=` where the last letters have all of read, write and execute, or nothing is copied. */
  lemma EqualAtOnce(who: string, a: Action, umask: Mode, omode: Mode, mode: Mode)
    requires GoodAction(a) && GoodWho(who) && a.op == '=' && !(who == [] && 't' in a.perms)
    requires var (l, s, q) := (a.perms, LastBits(who, a.perms), LastCopies(who, a.perms));
             && ('X' in l ==> 'x' in s)
             && (q == [] || (who != [] && Head(l, OthersOnly(who)) > 0 && Rwx(s) && Names(who, Source(q, WhoBits(who)))))
    ensures Code(who, a, umask, omode, mode) ==
            Flush(Widened(WhoBits(who), a.perms), PermBits(LastBits(who, a.perms), OthersOnly(who)), Unmasked(umask), mode)
  {
    hide WhoBits, PermBits, OthersOnly, Code, Chain, Head, Source, Lowest, Names, XBits, Special, Widened, Unmasked, LastBits, LastCopies, Limit;
    var (l, w, mask) := (a.perms, WhoBits(who), Unmasked(umask));
    CodeSet(who, a, umask, omode, mode);
    var (s, q, w') := (LastBits(who, l), LastCopies(who, l), Widened(w, l));
    var g := Flush(w', PermBits(s, OthersOnly(who)), mask, mode);
    XInside(s, OthersOnly(who), 'X' in l, omode);
    if q == [] {
      ChainNothing(Limit(w', mask), g);
    } else {
      AllThere(who, l, s, q, mask, mode);
    }
  }

  lemma AllThere(who: string, l: string, s: string, q: string, mask: Mode, mode: Mode)
    requires GoodWho(who) && who != [] && q != [] && Rwx(s) && Names(who, Source(q, WhoBits(who)))
    requires forall k :: 0 <= k < |q| ==> IsCopy(q[k])
    ensures var (w', p) := (Widened(WhoBits(who), l), PermBits(s, OthersOnly(who)));
            var g := Flush(w', p, mask, mode);
            w' != {} && Limit(w', mask) == w' && Chain(q, w', g) == g
  {
    hide WhoBits, PermBits, OthersOnly, Chain, Source, Lowest, Names, IsCopy;
    var w := WhoBits(who);
    var w' := Widened(w, l);
    WhoNamed(who);
    WidenedClass(w, l);
    FullRwx(s, OthersOnly(who), mode);
    MaskFacts({});
    SourceSame(q, w, w');
    SourceCopy(q, w');
    SameClass(Source(q, w), w, 2);
    ChainKeeps(q, w', Flush(w', PermBits(s, OthersOnly(who)), mask, mode));
  }

  lemma SourceCopy(q: string, w: Mode)
    requires q != [] && forall k :: 0 <= k < |q| ==> IsCopy(q[k])
    ensures IsCopy(Source(q, w))
  {
    hide Source;
    var d := Source(q, w);
    assert d in q;
  }

  lemma NobodySpecial()
    ensures Special({})
  {
  }

  lemma XInside(s: string, others: bool, permX: bool, omode: Mode)
    requires permX ==> 'x' in s
    ensures XBits(permX, omode) <= PermBits(s, others)
  {
    hide PermBits, Executable;
    MaskFacts({});
    forall b: nat | b in XBits(permX, omode) ensures b in PermBits(s, others) {
      InPermBits(s, others, b);
    }
  }

  lemma ChainNothing(limit: Mode, m: Mode)
    ensures Chain([], limit, m) == m
  {
  }

  /** A bit of a named class takes the bit of the class the last copies come from. */
  lemma CopiedBit(who: string, l: string, mask: Mode, mode: Mode, b: nat)
    requires GoodWho(who) && who != [] && LastCopies(who, l) != [] && b < 9 && b in WhoBits(who)
    ensures var (w', q) := (Widened(WhoBits(who), l), LastCopies(who, l));
            && w' != {} && Limit(w', mask) == w'
            && (b in Chain(q, w', BeforeCopies(who, l, mask, mode)) <==>
                Lowest(Source(q, WhoBits(who))) + b % 3 in BeforeCopies(who, l, mask, mode))
  {
    hide WhoBits, Chain, Source, Lowest, LastCopies, BeforeCopies, IsCopy, Special;
    var (w, q) := (WhoBits(who), LastCopies(who, l));
    var w' := Widened(w, l);
    WhoNamed(who);
    WidenedClass(w, l);
    SourceSame(q, w, w');
    ChainSource(q, w', BeforeCopies(who, l, mask, mode), b);
  }

  /** Any other bit stays as it was before the copies. */
  lemma OtherBit(who: string, l: string, mask: Mode, mode: Mode, b: nat)
    requires GoodWho(who) && who != [] && (b >= 9 || b !in WhoBits(who))
    ensures var (w', q) := (Widened(WhoBits(who), l), LastCopies(who, l));
            b in Chain(q, w', BeforeCopies(who, l, mask, mode)) <==> b in BeforeCopies(who, l, mask, mode)
  {
    hide WhoBits, Chain, LastCopies, BeforeCopies, IsCopy, Special;
    var (w, q) := (WhoBits(who), LastCopies(who, l));
    var (w', g) := (Widened(w, l), BeforeCopies(who, l, mask, mode));
    WhoNamed(who);
    WidenedClass(w, l);
    MaskFacts({});
    ChainOff(q, w', g);
    assert b in Chain(q, w', g) - w' * RWX <==> b in g - w' * RWX;
  }

  /** Before copies from a class that is not named, or with nothing set before them, that class is the file's. */
  lemma SourceKept(who: string, l: string, mask: Mode, mode: Mode, d: char, x: nat)
    requires GoodWho(who) && who != [] && LastCopies(who, l) != [] && IsCopy(d) && x < 3
    requires Head(l, OthersOnly(who)) == 0 || !Names(who, d)
    ensures Lowest(d) + x in BeforeCopies(who, l, mask, mode) <==> Lowest(d) + x in mode
  {
    hide WhoBits, LastCopies, LastBits, PermBits, Special, Head, OthersOnly, Names, IsCopy;
    var w := WhoBits(who);
    WhoNamed(who);
    WidenedClass(w, l);
    if Head(l, OthersOnly(who)) > 0 {
      SameClass(d, w, x);
      assert Lowest(d) + x !in Widened(w, l);
      assert Widened(w, l) != {};
    }
  }

  lemma EqualCopies(who: string, a: Action, umask: Mode, mode: Mode)
    requires GoodAction(a) && GoodWho(who) && a.op == '=' && who != [] && LastCopies(who, a.perms) != []
    requires var (l, d) := (a.perms, Source(LastCopies(who, a.perms), WhoBits(who)));
             && (Head(l, OthersOnly(who)) == 0 || !Names(who, d))
             && 'r' !in l && 'w' !in l && 'x' !in l && 'X' !in l && CopiesOnly(l, d)
             && (OthersOnly(who) || (Head(l, OthersOnly(who)) > 0 && ('s' in l ==> 's' in LastBits(who, l)) && ('t' in l ==> 't' in LastBits(who, l))))
    ensures Code(who, a, umask, mode, mode) == Documented(who, a, umask, mode, mode)
  {
    hide Code, Chain, LastCopies, BeforeCopies, WhoBits, PermBits, CopiedBits, Source, OthersOnly, Head, LastBits, Names, XBits, CopiesOnly, Limit, Lowest, IsCopy;
    var (l, mask, w, q) := (a.perms, Unmasked(umask), WhoBits(who), LastCopies(who, a.perms));
    var (d, g, w') := (Source(q, w), BeforeCopies(who, l, mask, mode), Widened(w, l));
    WhoNamed(who);
    SourceCopy(q, w);
    CodeSet(who, a, umask, mode, mode);
    assert XBits(false, mode) == {} by { NoX(mode); }
    assert Limit(w', mask) * {} == {};
    var (m, n) := (Code(who, a, umask, mode, mode), Documented(who, a, umask, mode, mode));
    OnlySource(who, l, mode);
    assert Limit(w', mask) == w' by { NamedLimit(w, l, mask); }
    forall b: nat ensures b in m <==> b in n {
      InPermBits(l, OthersOnly(who), b);
      if b < 9 && b in w {
        CopiedBit(who, l, mask, mode, b);
        SourceKept(who, l, mask, mode, d, b % 3);
        NoRwxLetter(l, b);
      } else {
        OtherBit(who, l, mask, mode, b);
        UnnamedBit(who, a, umask, mode, b);
      }
    }
  }

  lemma NamedLimit(w: Mode, l: string, mask: Mode)
    requires w != {}
    ensures Widened(w, l) != {} && Limit(Widened(w, l), mask) == Widened(w, l)
  {
  }

  lemma NoX(omode: Mode)
    ensures XBits(false, omode) == {}
  {
  }

  lemma NoRwxLetter(l: string, b: nat)
    requires 'r' !in l && 'w' !in l && 'x' !in l && b < 9
    ensures LetterOf(b) !in l
  {
  }

  /** All copies are of the class they come from in the end. */
  lemma OnlySource(who: string, l: string, m: Mode)
    requires LastCopies(who, l) != [] && CopiesOnly(l, Source(LastCopies(who, l), WhoBits(who)))
    ensures var d := Source(LastCopies(who, l), WhoBits(who));
            forall b: nat :: b in CopiedBits(l, m) <==> b < 9 && Lowest(d) + b % 3 in m
  {
    hide LastCopies, WhoBits, CopiedBits, Source, Lowest, IsCopy, CopyLetters;
    var q := LastCopies(who, l);
    var d := Source(q, WhoBits(who));
    LastInside(who, l);
    CopyCopies(l, d);
    forall b: nat ensures b in CopiedBits(l, m) <==> b < 9 && Lowest(d) + b % 3 in m {
      InCopies(l, m, b);
      forall c ensures c in CopyLetters(l) <==> c in l && IsCopy(c) {
        CopyCopies(l, c);
      }
    }
  }

  /** Set-id and sticky bits, and the classes that are not named. */
  lemma UnnamedBit(who: string, a: Action, umask: Mode, mode: Mode, b: nat)
    requires GoodAction(a) && GoodWho(who) && a.op == '=' && who != [] && (b >= 9 || b !in WhoBits(who))
    requires LastCopies(who, a.perms) != []
    requires var l := a.perms; OthersOnly(who) || (Head(l, OthersOnly(who)) > 0 && ('s' in l ==> 's' in LastBits(who, l)) && ('t' in l ==> 't' in LastBits(who, l)))
    ensures b in BeforeCopies(who, a.perms, Unmasked(umask), mode) <==> b in Documented(who, a, umask, mode, mode)
  {
    hide LastCopies, WhoBits, PermBits, CopiedBits, Head, LastBits, OthersOnly, Special, Unmasked, Hidden;
    var (l, others, w) := (a.perms, OthersOnly(who), WhoBits(who));
    WhoNamed(who);
    WidenedClass(w, l);
    MaskFacts({});
    CopiesInside(l, mode);
    LastInside(who, l);
    InPermBits(l, others, b);
    InPermBits(LastBits(who, l), others, b);
    assert Widened(w, l) != {};
    if b >= 9 && others {
      OthersHigh(who, b);
    }
  }

  lemma OthersHigh(who: string, b: nat)
    requires GoodWho(who) && OthersOnly(who) && b >= 9
    ensures b !in WhoBits(who) && !Special(WhoBits(who))
  {
    hide WhoBits;
    WhoNamed(who);
    MaskFacts({});
    assert b !in S_IRWXO;
    assert WhoBits(who) - S_IRWXO == {};
    assert b in WhoBits(who) ==> b in WhoBits(who) - S_IRWXO;
  }

  lemma EqualAgrees(who: string, a: Action, umask: Mode, omode: Mode, mode: Mode)
    requires GoodAction(a) && GoodWho(who) && a.op == '=' && AgreesEqual(who, a.perms, mode == omode)
    ensures Code(who, a, umask, omode, mode) == Documented(who, a, umask, omode, mode)
  {
    hide Code, Documented, LastCopies, LastBits, WhoBits, PermBits, CopiedBits, OthersOnly, Head, Names, Source, Flush, NoCopies, CopiesOnly;
    var l := a.perms;
    if NoCopies(l) {
      LastInside(who, l);
      LastOfPlain(who, l, omode);
      assert 'X' in l ==> 'x' in LastBits(who, l) by {
        XStays(who, l);
      }
      EqualAtOnce(who, a, umask, omode, mode);
      FlushDocumented(who, a, umask, omode, mode);
    } else if Rwx(LastBits(who, l)) {
      NobodyIsNotOthers();
      LastSame(who, l, omode);
      if LastCopies(who, l) == [] || (who != [] && Head(l, OthersOnly(who)) > 0 && Names(who, Source(LastCopies(who, l), WhoBits(who)))) {
        EqualAtOnce(who, a, umask, omode, mode);
        FlushDocumented(who, a, umask, omode, mode);
      } else {
        EqualCopies(who, a, umask, mode);
      }
    } else {
      EqualCopies(who, a, umask, mode);
    }
  }

  lemma XStays(who: string, l: string)
    requires NoCopies(l) && ('X' in l ==> 'x' in l)
    ensures 'X' in l ==> 'x' in LastBits(who, l)
  {
    hide Head, OthersOnly, IsCopy;
    var h := l[..Head(l, OthersOnly(who))];
    HeadHas(l, OthersOnly(who), 'x');
    assert NoCopies(h) by {
      forall k | 0 <= k < |h| ensures !IsCopy(h[k]) {
        assert h[k] == l[k];
      }
    }
    PieceInside(h);
  }

  // ----- where they part: a mode and a mask that show it -----

  /** A place among read, write and execute that no letter stands for. */
  function Missing(l: string): (p: nat)
    ensures p < 3 && (!Rwx(l) ==> LetterOf(p) !in l)
  {
    if 'r' !in l then 2 else if 'w' !in l then 1 else 0
  }

  /** A class that is named. */
  function NamedBase(who: string): nat {
    if who == [] || who[0] == 'o' then 0 else if who[0] == 'g' then 3 else 6
  }

  lemma NamedBits(who: string, p: nat)
    requires GoodWho(who) && p < 3
    ensures var b := NamedBase(who) + p;
            b < 9 && b % 3 == p && (who != [] ==> b in WhoBits(who)) && LetterOf(b) == LetterOf(p)
  {
    hide WhoBits;
    WhoNamed(who);
    if who != [] {
      var d := if who[0] == 'o' then 'o' else if who[0] == 'g' then 'g' else 'u';
      assert Names(who, d);
      SameClass(d, WhoBits(who), p);
    }
  }

  lemma NoFile(l: string, b: nat)
    ensures b !in CopiedBits(l, {}) && b !in CopiedBits(l, {14}) && b !in XBits(true, {}) && b !in XBits('X' in l, {})
  {
    hide CopiedBits;
    InCopies(l, {}, b);
    InCopies(l, {14}, b);
    assert !Executable({}) by { assert {} * (S_IFDIR + S_IXUGO) == {}; }
  }

  lemma OneBitFile(c: char, p: nat)
    requires IsCopy(c) && 0 < p < 3
    ensures !Executable({Lowest(c) + p})
  {
    MaskFacts({});
    assert {Lowest(c) + p} * (S_IFDIR + S_IXUGO) == {};
  }

  lemma Directory()
    ensures Executable({14})
  {
    assert 14 in {14} * (S_IFDIR + S_IXUGO);
  }

  lemma InDocumentedPlus(who: string, a: Action, umask: Mode, omode: Mode, mode: Mode, b: nat)
    requires a.op == '+'
    ensures b in Documented(who, a, umask, omode, mode) <==>
            b in mode || (b in (if who == [] then Unmasked(umask) else WhoBits(who) + S_ISTXT) &&
                          (b in PermBits(a.perms, OthersOnly(who)) || b in CopiedBits(a.perms, omode) || b in XBits('X' in a.perms, omode)))
  {
  }

  lemma InCodePlus(who: string, a: Action, umask: Mode, omode: Mode, mode: Mode, b: nat)
    requires GoodAction(a) && GoodWho(who) && a.op == '+' && !(who == [] && 't' in a.perms)
    ensures b in Code(who, a, umask, omode, mode) <==>
            b in mode || (b in (if who == [] then Unmasked(umask) else WhoBits(who) + S_ISTXT) &&
                          (b in PermBits(a.perms, OthersOnly(who)) || b in CopiedBits(a.perms, mode) || b in XBits('X' in a.perms, omode)))
  {
    hide Code, WhoBits, Unmasked, PermBits, CopiedBits, XBits, OthersOnly;
    CodePlus(who, a, umask, omode, mode);
  }

  /** A class that is named and another to copy from. */
  lemma TwoClasses(who: string, l: string) returns (b: nat, c: char)
    requires GoodWho(who) && !NoCopies(l) && !SoleClass(who, l)
    ensures c in l && IsCopy(c) && b in {0, 3, 6} && b != Lowest(c) && (who != [] ==> b in WhoBits(who))
  {
    hide WhoBits, NoCopies, CopyLetters;
    WhoNamed(who);
    CopyCopies(l, 'u');
    c := CopyLetters(l)[0];
    if who == [] {
      b := if Lowest(c) == 0 then 3 else 0;
    } else if 'a' in who {
      b := if Lowest(c) == 0 then 3 else 0;
      OtherNamed(who, b);
    } else if !Only(who, who[0]) {
      var k :| 0 <= k < |who| && who[k] != who[0];
      var d := if who[0] == c then who[k] else who[0];
      b := Lowest(d);
      OtherNamed(who, b);
    } else {
      c :| c in CopyLetters(l) && c != who[0];
      b := Lowest(who[0]);
      OtherNamed(who, b);
    }
    CopyCopies(l, c);
  }

  lemma OtherNamed(who: string, b: nat)
    requires GoodWho(who) && b in {0, 3, 6} && ('a' in who || exists d :: d in who && IsCopy(d) && Lowest(d) == b)
    ensures b in WhoBits(who)
  {
    hide WhoBits;
    WhoNamed(who);
    var d := if b == 6 then 'u' else if b == 3 then 'g' else 'o';
    assert Names(who, d);
    SameClass(d, WhoBits(who), 0);
  }

  lemma DiffersPlus(who: string, a: Action) returns (umask: Mode, omode: Mode, mode: Mode)
    requires GoodAction(a) && GoodWho(who) && a.op == '+' && !(who == [] && 't' in a.perms) && !AgreesPlus(who, a.perms, false)
    ensures Code(who, a, umask, omode, mode) != Documented(who, a, umask, omode, mode)
  {
    hide Code, Documented, WhoBits, Unmasked, PermBits, CopiedBits, XBits, SoleClass, NoCopies, CopyLetters, IsCopy, Lowest, LetterOf;
    var l := a.perms;
    CopyCopies(l, 'u');
    umask := {};
    MaskFacts({});
    var b, c;
    var p := Missing(l);
    if p != 0 || 'X' !in l {
      c := CopyLetters(l)[0];
      CopyCopies(l, c);
      b := NamedBase(who) + p;
      NamedBits(who, p);
      omode, mode := {Lowest(c) + p}, {};
      InCopies(l, omode, b);
      NoFile(l, b);
      if p != 0 {
        OneBitFile(c, p);
      }
    } else {
      b, c := TwoClasses(who, l);
      omode, mode := {}, {Lowest(c)};
      InCopies(l, mode, b);
      NoFile(l, b);
      ZeroPlace(b);
    }
    InXBits('X' in l, omode, b);
    InPermBits(l, OthersOnly(who), b);
    InCodePlus(who, a, umask, omode, mode, b);
    InDocumentedPlus(who, a, umask, omode, mode, b);
  }

  lemma ZeroPlace(b: nat)
    requires b in {0, 3, 6}
    ensures b % 3 == 0 && b < 9 && LetterOf(b) == 'x'
  {
  }

  lemma InCodeSticky(a: Action, umask: Mode, omode: Mode, mode: Mode, b: nat)
    requires GoodAction(a) && a.op == '+' && 't' in a.perms && b != 9
    ensures var e := Early(a.perms);
            b in Code([], a, umask, omode, mode) <==>
            b in mode || (b in Unmasked(umask) && (b in PermBits(e, false) || b in CopiedBits(e, mode) || b in XBits('X' in e, omode)))
  {
    hide Code, Unmasked, PermBits, CopiedBits, XBits, Early;
    CodeSticky(a, umask, omode, mode);
    MaskFacts({});
    assert b in Code([], a, umask, omode, mode) <==> b in Code([], a, umask, omode, mode) - S_ISTXT;
  }

  /** A letter of a kind that comes too late, in a text where nobody is named. */
  lemma DiffersLate(a: Action) returns (umask: Mode, mode: Mode)
    requires GoodAction(a) && a.op == '+' && 't' in a.perms && !InTime(a.perms, Early(a.perms))
    ensures Code([], a, umask, mode, mode) != Documented([], a, umask, mode, mode)
  {
    hide Code, Documented, Unmasked, PermBits, CopiedBits, XBits, CopyLetters, IsCopy, Lowest, LetterOf, Early;
    var (l, e) := (a.perms, Early(a.perms));
    umask := {};
    MaskFacts({});
    LetterPlaces();
    assert !OthersOnly([]);
    var b;
    if p :| p in {0, 1, 2, 11} && LetterOf(p) in l && LetterOf(p) !in e {
      b, mode := p, {};
      NoFile(l, b);
      NoFile(e, b);
    } else if 'X' in l && 'X' !in e && 'x' !in e {
      b, mode := 0, {14};
      NoFile(l, b);
      NoFile(e, b);
      Directory();
    } else {
      var c :| c in CopyLetters(l) && c !in e;
      CopyCopies(l, c);
      var p := if 'r' !in e then 2 else if 'w' !in e then 1 else 0;
      b := (if Lowest(c) == 0 then 3 else 0) + p;
      mode := {Lowest(c) + p};
      OtherPlace(c, p, b);
      InCopies(l, mode, b);
      OnlyThere(e, c, p, b);
      if p != 0 {
        OneBitFile(c, p);
      }
    }
    InXBits('X' in l, mode, b);
    InXBits('X' in e, mode, b);
    InPermBits(l, false, b);
    InPermBits(e, false, b);
    InCodeSticky(a, umask, mode, mode, b);
    InDocumentedPlus([], a, umask, mode, mode, b);
  }

  lemma LetterPlaces()
    ensures LetterOf(0) == LetterOf(3) == 'x' && LetterOf(1) == LetterOf(4) == 'w' && LetterOf(2) == LetterOf(5) == 'r'
    ensures LetterOf(10) == LetterOf(11) == 's' && LetterOf(9) == 't'
  {
  }

  lemma OtherPlace(c: char, p: nat, b: nat)
    requires IsCopy(c) && p < 3 && b == (if Lowest(c) == 0 then 3 else 0) + p
    ensures b < 9 && b % 3 == p && b != Lowest(c) + p && LetterOf(b) == LetterOf(p)
  {
  }

  /** On a file with one bit only its class can be copied from. */
  lemma OnlyThere(l: string, c: char, p: nat, b: nat)
    requires IsCopy(c) && p < 3 && b % 3 == p && b < 9
    ensures b in CopiedBits(l, {Lowest(c) + p}) <==> c in l
  {
    hide CopiedBits;
    InCopies(l, {Lowest(c) + p}, b);
    forall d | IsCopy(d) && Lowest(d) + p == Lowest(c) + p ensures d == c {}
  }

  lemma DiffersStickyPlus(a: Action) returns (umask: Mode, omode: Mode, mode: Mode)
    requires GoodAction(a) && a.op == '+' && 't' in a.perms && InTime(a.perms, Early(a.perms))
    requires !Only(a.perms, 't') && !Rwx(Early(a.perms))
    ensures Code([], a, umask, omode, mode) != Documented([], a, umask, omode, mode)
  {
    hide Code, Documented, Unmasked, PermBits, CopiedBits, XBits, CopyLetters, IsCopy, Lowest, LetterOf, Early;
    var (l, e) := (a.perms, Early(a.perms));
    umask := {};
    MaskFacts({});
    LetterPlaces();
    assert !OthersOnly([]);
    var c := SomeCopy(l, e);
    var p := Missing(e);
    var b := (if Lowest(c) == 0 then 3 else 0) + p;
    OtherPlace(c, p, b);
    NoFile(l, b);
    NoFile(e, b);
    if p != 0 {
      omode, mode := {Lowest(c) + p}, {};
      OneBitFile(c, p);
      OnlyThere(l, c, p, b);
    } else {
      omode, mode := {}, {Lowest(c) + p};
      OnlyThere(e, c, p, b);
      EarlyCopy(l, e, c);
    }
    InXBits('X' in l, omode, b);
    InXBits('X' in e, omode, b);
    InPermBits(l, false, b);
    InPermBits(e, false, b);
    InCodeSticky(a, umask, omode, mode, b);
    InDocumentedPlus([], a, umask, omode, mode, b);
  }

  /** Letters in time besides `t` mean a copy before it. */
  lemma SomeCopy(l: string, e: string) returns (c: char)
    requires 't' in l && e == Early(l) && InTime(l, e) && !Only(l, 't') && forall k :: 0 <= k < |l| ==> IsPerm(l[k])
    ensures c in l && c in e && IsCopy(c)
  {
    hide Early, LetterOf;
    CopyCopies(l, 'u');
    CopyCopies(l, 'g');
    CopyCopies(l, 'o');
    var k :| 0 <= k < |l| && l[k] != 't';
    assert l[k] in l;
    assert e != [];
    c := e[|e| - 1];
    assert e == l[..|e|];
  }

  lemma EarlyCopy(l: string, e: string, c: char)
    requires c in e && e <= l
    ensures c in l
  {
  }

  lemma InDocumentedMinus(who: string, a: Action, umask: Mode, omode: Mode, mode: Mode, b: nat)
    requires a.op == '-'
    ensures b in Documented(who, a, umask, omode, mode) <==>
            b in mode && !(b in (if who == [] then Hidden(umask) else WhoBits(who) + S_ISTXT) &&
                           (b in PermBits(a.perms, OthersOnly(who)) || b in CopiedBits(a.perms, omode)))
  {
  }

  lemma InCodeMinus(who: string, a: Action, umask: Mode, omode: Mode, mode: Mode, b: nat)
    requires GoodAction(a) && GoodWho(who) && a.op == '-' && !(who == [] && 't' in a.perms)
    ensures var limit := if who == [] then Unmasked(umask) else WhoBits(who) + S_ISTXT;
            b in Code(who, a, umask, omode, mode) <==>
            (b in mode && !(b in limit && (b in PermBits(a.perms, OthersOnly(who)) || b in CopiedBits(a.perms, mode)))) ||
            (b in limit && b in XBits('X' in a.perms, omode))
  {
    hide Code, WhoBits, Unmasked, PermBits, CopiedBits, XBits, OthersOnly;
    CodeMinus(who, a, umask, omode, mode);
  }

  /** Where nobody is named, `-` of anything: the manual clears what the mask has set, and the code what it has clear. */
  lemma DiffersMinusNobody(a: Action) returns (mode: Mode)
    requires GoodAction(a) && a.op == '-' && a.perms != []
    ensures Code([], a, {}, mode, mode) != Documented([], a, {}, mode, mode)
  {
    hide Code, Documented, Unmasked, Hidden, PermBits, CopiedBits, XBits, IsCopy, Lowest, LetterOf;
    var l := a.perms;
    MaskFacts({});
    LetterPlaces();
    assert !OthersOnly([]);
    var b;
    if 't' in l {
      mode := {9};
      CodeSticky(a, {}, mode, mode);
      InDocumentedMinus([], a, {}, mode, mode, 9);
    } else {
      if 'X' in l {
        b, mode := 0, {14};
        Directory();
        NoFile(l, b);
      } else if IsCopy(l[0]) {
        assert l[0] in l;
        b := Lowest(l[0]) + 2;
        ReadPlace(l[0]);
        mode := {b};
        InCopies(l, mode, b);
      } else {
        assert l[0] in l;
        assert IsPerm(l[0]);
        b := if l[0] == 'r' then 2 else if l[0] == 'w' then 1 else if l[0] == 'x' then 0 else 11;
        mode := {b};
      }
      InXBits('X' in l, mode, b);
      InPermBits(l, false, b);
      InCodeMinus([], a, {}, mode, mode, b);
      InDocumentedMinus([], a, {}, mode, mode, b);
    }
  }

  lemma ReadPlace(c: char)
    requires IsCopy(c)
    ensures (Lowest(c) + 2) % 3 == 2 && Lowest(c) + 2 < 9
  {
  }

  lemma DiffersMinus(who: string, a: Action, first: bool) returns (omode: Mode, mode: Mode)
    requires GoodAction(a) && GoodWho(who) && a.op == '-' && who != [] && !AgreesMinus(who, a.perms, first)
    ensures (first ==> mode == omode) && Code(who, a, {}, omode, mode) != Documented(who, a, {}, omode, mode)
  {
    hide Code, Documented, WhoBits, Unmasked, Hidden, PermBits, CopiedBits, XBits, IsCopy, Lowest, LetterOf, NoCopies, CopyLetters;
    var l := a.perms;
    MaskFacts({});
    LetterPlaces();
    var b;
    if 'X' in l {
      b := NamedBase(who) + 0;
      NamedBits(who, 0);
      omode, mode := {14}, {14};
      Directory();
      NoFile(l, b);
    } else {
      CopyCopies(l, 'u');
      var c := CopyLetters(l)[0];
      CopyCopies(l, c);
      var p := Missing(l);
      b := NamedBase(who) + p;
      NamedBits(who, p);
      omode, mode := {}, {b, Lowest(c) + p};
      InCopies(l, mode, b);
      NoFile(l, b);
    }
    InXBits('X' in l, omode, b);
    InPermBits(l, OthersOnly(who), b);
    InCodeMinus(who, a, {}, omode, mode, b);
    InDocumentedMinus(who, a, {}, omode, mode, b);
  }

  // ----- setting -----

  lemma InDocumentedEqual(who: string, a: Action, umask: Mode, omode: Mode, mode: Mode, b: nat)
    requires a.op == '='
    ensures b in Documented(who, a, umask, omode, mode) <==>
            (b in mode && b !in (if who == [] then STANDARD_BITS else WhoBits(who))) ||
            (b in (if who == [] then Unmasked(umask) else WhoBits(who) + S_ISTXT) &&
             (b in PermBits(a.perms, OthersOnly(who)) || b in CopiedBits(a.perms, omode)))
  {
  }

  /** With no copies behind the last bits set: what the code's `=` makes of one bit. */
  lemma InCodeSet(who: string, a: Action, umask: Mode, omode: Mode, mode: Mode, b: nat)
    requires GoodAction(a) && GoodWho(who) && a.op == '=' && !(who == [] && 't' in a.perms) && LastCopies(who, a.perms) == []
    ensures var (l, w', s) := (a.perms, Widened(WhoBits(who), a.perms), LastBits(who, a.perms));
            var limit := if who == [] then Unmasked(umask) else w';
            b in Code(who, a, umask, omode, mode) <==>
            (b in mode && b !in (if who == [] then STANDARD_BITS else w')) ||
            (b in limit && (b in PermBits(s, OthersOnly(who)) || b in XBits('X' in l, omode)))
  {
    hide Code, WhoBits, Unmasked, PermBits, XBits, OthersOnly, LastCopies, LastBits, Chain, Special, Head;
    CodeSet(who, a, umask, omode, mode);
    WhoNamed(who);
    var (limit, g) := (Limit(Widened(WhoBits(who), a.perms), Unmasked(umask)), BeforeCopies(who, a.perms, Unmasked(umask), mode));
    ChainNothing(limit, g);
    NobodyWidened(who, a.perms);
  }

  lemma NobodyWidened(who: string, l: string)
    requires GoodWho(who) && !(who == [] && 't' in l)
    ensures Widened(WhoBits(who), l) == {} <==> who == []
  {
    hide WhoBits, Special;
    WhoNamed(who);
  }

  /** With copies behind them: a bit of a named class, and any other. */
  lemma InCodeCopied(who: string, a: Action, umask: Mode, omode: Mode, mode: Mode, b: nat)
    requires GoodAction(a) && GoodWho(who) && a.op == '=' && who != [] && LastCopies(who, a.perms) != []
    ensures var g := BeforeCopies(who, a.perms, Unmasked(umask), mode);
            b in Code(who, a, umask, omode, mode) <==>
            if b < 9 && b in WhoBits(who)
            then Lowest(Source(LastCopies(who, a.perms), WhoBits(who))) + b % 3 in g || b in XBits('X' in a.perms, omode)
            else b in g
  {
    hide Code, WhoBits, Unmasked, XBits, OthersOnly, LastCopies, LastBits, Chain, Special, Head, BeforeCopies, Source, Lowest;
    var (w, mask) := (WhoBits(who), Unmasked(umask));
    CodeSet(who, a, umask, omode, mode);
    WhoNamed(who);
    NamedLimit(w, a.perms, mask);
    WidenedClass(w, a.perms);
    InXBits('X' in a.perms, omode, b);
    if b < 9 && b in w {
      CopiedBit(who, a.perms, mask, mode, b);
    } else {
      OtherBit(who, a.perms, mask, mode, b);
    }
  }

  lemma EarlyPlain(l: string)
    requires 't' in l && NoCopies(l)
    ensures Early(l) == []
  {
    hide IsCopy, LastPiece, FirstSticky;
    var e := Early(l);
    assert e == l[..|e|];
  }

  lemma DiffersEqualPlain(who: string, a: Action) returns (umask: Mode, mode: Mode)
    requires GoodAction(a) && GoodWho(who) && a.op == '=' && NoCopies(a.perms) && !AgreesEqual(who, a.perms, true)
    ensures Code(who, a, umask, mode, mode) != Documented(who, a, umask, mode, mode)
  {
    hide Code, Documented, WhoBits, Unmasked, Hidden, PermBits, CopiedBits, XBits, LetterOf, NoCopies, LastBits, LastCopies, OthersOnly, Executable, Early;
    var l := a.perms;
    MaskFacts({8});
    LetterPlaces();
    if who == [] && 't' in l {
      umask, mode := {8}, {8};
      EarlyPlain(l);
      NotExecutable();
      CodeSticky(a, umask, mode, mode);
      InDocumentedEqual(who, a, umask, mode, mode, 8);
      assert 8 in Code(who, a, umask, mode, mode) - S_ISTXT;
    } else {
      umask, mode := {}, {14};
      MaskFacts({});
      var b := NamedBase(who) + 0;
      NamedBits(who, 0);
      Directory();
      NoFile(l, b);
      InXBits('X' in l, mode, b);
      InPermBits(l, OthersOnly(who), b);
      LastInside(who, l);
      if who != [] {
        WidenedBit(who, l, b);
      }
      InCodeSet(who, a, umask, mode, mode, b);
      InDocumentedEqual(who, a, umask, mode, mode, b);
    }
  }

  lemma NotExecutable()
    ensures !Executable({8}) && !Executable({11}) && !Executable({})
  {
    MaskFacts({});
    assert {8} * (S_IFDIR + S_IXUGO) == {} && {11} * (S_IFDIR + S_IXUGO) == {} && {} * (S_IFDIR + S_IXUGO) == {};
  }

  lemma WidenedBit(who: string, l: string, b: nat)
    requires GoodWho(who) && who != []
    ensures b in WhoBits(who) ==> b in Widened(WhoBits(who), l)
    ensures b < 9 && b !in WhoBits(who) ==> b !in Widened(WhoBits(who), l)
    ensures b == 9 ==> (b in Widened(WhoBits(who), l) <==> !OthersOnly(who) && 't' in l)
  {
    hide WhoBits, Special;
    WhoNamed(who);
    MaskFacts({});
  }

  // ----- setting where nobody is named -----

  /** With nothing set before the copies the set-id bits stay. */
  lemma SetIdStays(e: string, umask: Mode, omode: Mode, mode: Mode)
    requires (forall k :: 0 <= k < |e| ==> IsPerm(e[k])) && Head(e, false) == 0 && CopyLetters(e) != []
    ensures 11 in EqualResult(e, {}, Unmasked(umask), omode, mode) <==> 11 in mode
  {
    hide Chain, CopyLetters, XBits, Unmasked, Head;
    NobodySpecial();
    MaskFacts({});
    assert e[0..] == e;
    var limit := Limit(Widened({}, e), Unmasked(umask));
    ChainOff(CopyLetters(e), limit, mode);
    InXBits('X' in e, omode, 11);
    assert 11 in Chain(CopyLetters(e), limit, mode) - limit * RWX <==> 11 in mode - limit * RWX;
  }

  /** Copies behind what was set: a read bit the mask hides in the first of them is lost in all. */
  lemma ReadLost(e: string, x: nat, b: nat)
    requires (forall k :: 0 <= k < |e| ==> IsPerm(e[k])) && Head(e, false) > 0 && 't' !in e
    requires var q := CopyLetters(e[Head(e, false)..]); q != [] && x == Lowest(q[0]) + 2
    requires b in {2, 5, 8}
    ensures b !in EqualResult(e, {}, Unmasked({x}), {x}, {x})
  {
    hide Chain, CopyLetters, XBits, Unmasked, Head, PermBits, Lowest, IsCopy, LastPiece, Flush;
    NobodySpecial();
    var n := Head(e, false);
    var (q, mask, p) := (CopyLetters(e[n..]), Unmasked({x}), PermBits(LastPiece(e[..n]), false));
    ReadPlace(q[0]);
    FlushMasked(p, x);
    ChainClear(q, mask, Flush({}, p, mask, {x}));
    InXBits('X' in e, {x}, b);
  }

  lemma FlushMasked(p: Mode, x: nat)
    requires x < 9
    ensures var g := Flush({}, p, Unmasked({x}), {x}); x !in g && forall b: nat :: b < 9 && b !in Unmasked({x}) ==> b !in g
  {
    hide Unmasked;
    MaskFacts({x});
  }

  lemma ReadIsDocumented(a: Action, c: char, b: nat)
    requires a.op == '=' && IsCopy(c) && c in a.perms && b in {2, 5, 8} && b != Lowest(c) + 2
    ensures b in Documented([], a, {Lowest(c) + 2}, {Lowest(c) + 2}, {Lowest(c) + 2})
  {
    hide Documented, PermBits, CopiedBits, Unmasked, LetterOf, Lowest, IsCopy;
    var x := Lowest(c) + 2;
    MaskFacts({x});
    InCopies(a.perms, {x}, b);
    InDocumentedEqual([], a, {x}, {x}, {x}, b);
  }

  lemma SetIdDocumented(a: Action, mode: Mode)
    requires a.op == '='
    ensures 11 in Documented([], a, {}, mode, mode) <==> 's' in a.perms
  {
    hide Documented, PermBits, CopiedBits, Unmasked;
    MaskFacts({});
    LetterPlaces();
    assert !OthersOnly([]);
    InPermBits(a.perms, false, 11);
    CopiesInside(a.perms, mode);
    InDocumentedEqual([], a, {}, mode, mode, 11);
  }

  /** What `e` makes of the mode, the sticky bit apart, is what the commands make of it. */
  lemma DiffersMasked(a: Action, e: string) returns (umask: Mode, mode: Mode)
    requires GoodAction(a) && a.op == '=' && (forall k :: 0 <= k < |e| ==> IsPerm(e[k])) && 't' !in e
    requires forall u: Mode, m: Mode :: !Executable(m) ==> Code([], a, u, m, m) - S_ISTXT == EqualResult(e, {}, Unmasked(u), m, m) - S_ISTXT
    requires CopyLetters(e[Head(e, false)..]) != [] && forall c :: c in e ==> c in a.perms
    ensures Code([], a, umask, mode, mode) != Documented([], a, umask, mode, mode)
  {
    hide Code, Documented, Unmasked, CopyLetters, Head, EqualResult, Executable, Lowest, IsCopy;
    MaskFacts({});
    NotExecutable();
    var n := Head(e, false);
    var q := CopyLetters(e[n..]);
    if n == 0 {
      assert e[0..] == e;
      umask, mode := {}, if 's' in a.perms then {} else {11};
      SetIdStays(e, umask, mode, mode);
      SetIdDocumented(a, mode);
      assert 11 in Code([], a, umask, mode, mode) <==> 11 in Code([], a, umask, mode, mode) - S_ISTXT;
      assert 11 in EqualResult(e, {}, Unmasked(umask), mode, mode) <==> 11 in EqualResult(e, {}, Unmasked(umask), mode, mode) - S_ISTXT;
    } else {
      var c := q[0];
      CopyCopies(e[n..], c);
      assert c in q && c in e[n..] && c in e;
      var x := Lowest(c) + 2;
      umask, mode := {x}, {x};
      ReadPlace(c);
      OneBitFile(c, 2);
      var b := if x == 2 then 5 else 2;
      ReadLost(e, x, b);
      ReadIsDocumented(a, c, b);
      assert b in Code([], a, umask, mode, mode) <==> b in Code([], a, umask, mode, mode) - S_ISTXT;
      assert b !in EqualResult(e, {}, Unmasked(umask), mode, mode) - S_ISTXT;
    }
  }

  lemma EndsCopying(e: string)
    requires e != [] && IsCopy(e[|e| - 1])
    ensures CopyLetters(e[Head(e, false)..]) != []
  {
    hide CopyLetters;
    var (n, c) := (Head(e, false), e[|e| - 1]);
    assert n < |e| by { CopyIsQuiet(c); }
    assert e[n..][|e| - 1 - n] == c;
    CopyCopies(e[n..], c);
  }

  lemma CopyIsQuiet(c: char)
    requires IsCopy(c)
    ensures !Effective(c, false) && !Effective(c, true)
  {
  }

  lemma DiffersNobody(a: Action) returns (umask: Mode, mode: Mode)
    requires GoodAction(a) && a.op == '=' && !NoCopies(a.perms) && ('t' in a.perms || LastCopies([], a.perms) != [])
    ensures Code([], a, umask, mode, mode) != Documented([], a, umask, mode, mode)
  {
    hide Code, Documented, Unmasked, CopyLetters, Head, EqualResult, Executable, Early, IsPerm, NoCopies;
    var l := a.perms;
    assert !OthersOnly([]);
    if 't' !in l {
      forall u: Mode, m: Mode ensures Code([], a, u, m, m) == EqualResult(l, {}, Unmasked(u), m, m) {
        CodeEqual([], a, u, m, m);
      }
      umask, mode := DiffersMasked(a, l);
    } else if Early(l) == [] {
      umask, mode := {}, if 's' in l then {} else {11};
      NotExecutable();
      CodeSticky(a, umask, mode, mode);
      SetIdDocumented(a, mode);
      MaskFacts({});
      assert 11 in Code([], a, umask, mode, mode) <==> 11 in Code([], a, umask, mode, mode) - S_ISTXT;
    } else {
      var e := Early(l);
      EndsCopying(e);
      forall u: Mode, m: Mode | !Executable(m)
        ensures Code([], a, u, m, m) - S_ISTXT == EqualResult(e, {}, Unmasked(u), m, m) - S_ISTXT
      {
        CodeSticky(a, u, m, m);
      }
      PrefixPerms(e, l);
      umask, mode := DiffersMasked(a, e);
    }
  }

  lemma PrefixPerms(e: string, l: string)
    requires e <= l && forall k :: 0 <= k < |l| ==> IsPerm(l[k])
    ensures (forall k :: 0 <= k < |e| ==> IsPerm(e[k])) && forall c :: c in e ==> c in l
  {
    hide IsPerm;
    forall k | 0 <= k < |e| ensures IsPerm(e[k]) {
      assert e[k] == l[k];
    }
  }

  // ----- set-id and sticky bits -----

  lemma DiffersSetId(who: string, a: Action) returns (mode: Mode)
    requires GoodAction(a) && GoodWho(who) && a.op == '=' && !NoCopies(a.perms)
    requires who == [] ==> 't' !in a.perms && LastCopies(who, a.perms) == []
    requires !OthersOnly(who)
    requires !((who == [] || Head(a.perms, OthersOnly(who)) > 0) && ('s' in a.perms ==> 's' in LastBits(who, a.perms)) &&
               ('t' in a.perms ==> 't' in LastBits(who, a.perms)))
    ensures Code(who, a, {}, mode, mode) != Documented(who, a, {}, mode, mode)
  {
    hide Code, Documented, WhoBits, Unmasked, PermBits, CopiedBits, XBits, NoCopies, LastBits, LastCopies, OthersOnly, Executable, Head, Special, BeforeCopies, LetterOf;
    var l := a.perms;
    MaskFacts({});
    LetterPlaces();
    WhoNamed(who);
    var b;
    if (who == [] || Head(l, OthersOnly(who)) > 0) && 't' in l && 't' !in LastBits(who, l) {
      b, mode := 9, {};
    } else {
      b := if 11 in WhoBits(who) || who == [] then 11 else 10;
      mode := if (who == [] || Head(l, OthersOnly(who)) > 0) then {} else {b};
    }
    if who != [] {
      WidenedBit(who, l, b);
    }
    if LastCopies(who, l) == [] {
      HeadOfCopies(who, l);
      InCodeSet(who, a, {}, mode, mode, b);
    } else {
      InCodeCopied(who, a, {}, mode, mode, b);
      HighBefore(who, l, mode, b);
    }
    InXBits('X' in l, mode, b);
    CopiesInside(l, mode);
    InPermBits(l, OthersOnly(who), b);
    InPermBits(LastBits(who, l), OthersOnly(who), b);
    if Head(l, OthersOnly(who)) == 0 {
      NoHead(who, l);
    }
    InDocumentedEqual(who, a, {}, mode, mode, b);
  }

  /** If no copies are left behind the last bits set, there are such. */
  lemma HeadOfCopies(who: string, l: string)
    requires !NoCopies(l) && LastCopies(who, l) == []
    ensures Head(l, OthersOnly(who)) > 0
  {
    hide CopyLetters, OthersOnly, IsCopy;
    CopyCopies(l, 'u');
    assert l[0..] == l;
  }

  lemma NoHead(who: string, l: string)
    requires Head(l, OthersOnly(who)) == 0 && !OthersOnly(who)
    ensures 's' !in l && 't' !in l
  {
    HeadHas(l, false, 's');
    HeadHas(l, false, 't');
  }

  lemma HighBefore(who: string, l: string, mode: Mode, b: nat)
    requires GoodWho(who) && who != [] && LastCopies(who, l) != [] && b >= 9
    ensures b in BeforeCopies(who, l, Unmasked({}), mode) <==>
            if Head(l, OthersOnly(who)) == 0 then b in mode
            else (b in mode && b !in Widened(WhoBits(who), l)) || (b in Widened(WhoBits(who), l) && b in PermBits(LastBits(who, l), OthersOnly(who)))
  {
    hide WhoBits, Unmasked, PermBits, LastBits, LastCopies, OthersOnly, Head, Special;
    WhoNamed(who);
    NamedLimit(WhoBits(who), l, Unmasked({}));
  }

  // ----- read, write and execute -----

  /** A file on which a missing place shows: code and manual agree there only about `X`. */
  function Telling(l: string, p: nat, c: char): Mode {
    if LetterOf(p) in l then {} else if p == 0 && 'X' in l then {14} else {Lowest(c) + p}
  }

  lemma TellingDocumented(who: string, a: Action, p: nat, c: char)
    requires GoodWho(who) && a.op == '=' && p < 3 && IsCopy(c) && c in a.perms
    ensures var (b, m) := (NamedBase(who) + p, Telling(a.perms, p, c));
            b in Documented(who, a, {}, m, m) <==> !(b in XBits('X' in a.perms, m))
  {
    hide Documented, PermBits, CopiedBits, Unmasked, Lowest, IsCopy, WhoBits, OthersOnly, XBits, LetterOf;
    var (l, b, m) := (a.perms, NamedBase(who) + p, Telling(a.perms, p, c));
    MaskFacts({});
    LetterPlaces();
    NamedBits(who, p);
    InXBits('X' in l, m, b);
    InPermBits(l, OthersOnly(who), b);
    InDocumentedEqual(who, a, {}, m, m, b);
    NoFile(l, b);
    if LetterOf(p) in l {
    } else if p == 0 && 'X' in l {
      Directory();
    } else {
      InCopies(l, m, b);
      if p > 0 {
        OneBitFile(c, p);
      }
    }
  }

  lemma DiffersLast(who: string, a: Action) returns (mode: Mode)
    requires GoodAction(a) && GoodWho(who) && a.op == '=' && !NoCopies(a.perms) && !(who == [] && 't' in a.perms)
    requires var (l, q) := (a.perms, LastCopies(who, a.perms));
             && (q == [] || (who != [] && Head(l, OthersOnly(who)) > 0 && Names(who, Source(q, WhoBits(who)))))
             && !Rwx(LastBits(who, l))
    ensures Code(who, a, {}, mode, mode) != Documented(who, a, {}, mode, mode)
  {
    hide Code, Documented, PermBits, Lowest, IsCopy, WhoBits, OthersOnly, XBits, LetterOf, LastBits, LastCopies, NoCopies, CopyLetters, Head, Source, Names, Telling;
    var l := a.perms;
    var p := Missing(LastBits(who, l));
    CopyCopies(l, 'u');
    var c := CopyLetters(l)[0];
    CopyCopies(l, c);
    mode := Telling(l, p, c);
    TellingDocumented(who, a, p, c);
    MissingBit(who, a, mode, p);
  }

  lemma MissingBit(who: string, a: Action, mode: Mode, p: nat)
    requires GoodAction(a) && GoodWho(who) && a.op == '=' && !(who == [] && 't' in a.perms) && p < 3
    requires var (l, q) := (a.perms, LastCopies(who, a.perms));
             && (q == [] || (who != [] && Head(l, OthersOnly(who)) > 0 && Names(who, Source(q, WhoBits(who)))))
             && LetterOf(p) !in LastBits(who, l)
    ensures var b := NamedBase(who) + p; b in Code(who, a, {}, mode, mode) <==> b in XBits('X' in a.perms, mode)
  {
    hide Code, PermBits, Lowest, IsCopy, WhoBits, OthersOnly, XBits, LetterOf, LastBits, LastCopies, Head, Source, Names, Special, BeforeCopies, Unmasked;
    var (l, b, q) := (a.perms, NamedBase(who) + p, LastCopies(who, a.perms));
    MaskFacts({});
    NamedBits(who, p);
    InPermBits(LastBits(who, l), OthersOnly(who), b);
    if who != [] {
      WidenedBit(who, l, b);
    }
    if q == [] {
      InCodeSet(who, a, {}, mode, mode, b);
    } else {
      InCodeCopied(who, a, {}, mode, mode, b);
      SourceSet(who, l, mode, p);
    }
  }

  /** The class copied from is one of those just set. */
  lemma SourceSet(who: string, l: string, mode: Mode, p: nat)
    requires GoodWho(who) && who != [] && p < 3 && LastCopies(who, l) != [] && LetterOf(p) !in LastBits(who, l)
    requires Head(l, OthersOnly(who)) > 0 && Names(who, Source(LastCopies(who, l), WhoBits(who)))
    ensures Lowest(Source(LastCopies(who, l), WhoBits(who))) + p !in BeforeCopies(who, l, Unmasked({}), mode)
  {
    hide PermBits, Lowest, IsCopy, WhoBits, OthersOnly, LetterOf, LastBits, LastCopies, Head, Source, Names, Special, Unmasked;
    var d := Source(LastCopies(who, l), WhoBits(who));
    var x := Lowest(d) + p;
    WhoNamed(who);
    SourceCopy(LastCopies(who, l), WhoBits(who));
    SameClass(d, WhoBits(who), p);
    ThirdPlace(d, p);
    WidenedBit(who, l, x);
    NamedLimit(WhoBits(who), l, Unmasked({}));
    InPermBits(LastBits(who, l), OthersOnly(who), x);
  }

  lemma ThirdPlace(d: char, p: nat)
    requires IsCopy(d) && p < 3
    ensures (Lowest(d) + p) % 3 == p && Lowest(d) + p < 9 && LetterOf(Lowest(d) + p) == LetterOf(p)
  {
  }

  /** Copies from a class the action leaves alone. */
  lemma DiffersSource(who: string, a: Action, first: bool) returns (omode: Mode, mode: Mode)
    requires GoodAction(a) && GoodWho(who) && a.op == '=' && who != [] && LastCopies(who, a.perms) != []
    requires var (l, d) := (a.perms, Source(LastCopies(who, a.perms), WhoBits(who)));
             && (Head(l, OthersOnly(who)) == 0 || !Names(who, d))
             && !(first && 'r' !in l && 'w' !in l && 'x' !in l && 'X' !in l && CopiesOnly(l, d))
    ensures (first ==> mode == omode) && Code(who, a, {}, omode, mode) != Documented(who, a, {}, omode, mode)
  {
    hide Code, Documented, PermBits, CopiedBits, Lowest, IsCopy, WhoBits, OthersOnly, XBits, LetterOf, LastBits, LastCopies, CopyLetters, Head, Source, Names, BeforeCopies, Unmasked;
    var (l, d) := (a.perms, Source(LastCopies(who, a.perms), WhoBits(who)));
    SourceCopy(LastCopies(who, l), WhoBits(who));
    MaskFacts({});
    LetterPlaces();
    var p := 2;
    if x :| x < 3 && LetterOf(x) in l {
      p, omode, mode := x, {}, {};
    } else if !first {
      omode, mode := {}, {Lowest(d) + 2};
    } else if 'X' in l {
      p, omode, mode := 0, {14}, {14};
      Directory();
    } else {
      var c :| c in CopyLetters(l) && c != d;
      CopyCopies(l, c);
      omode, mode := {Lowest(c) + 2}, {Lowest(c) + 2};
      OtherClass(c, d);
      InCopies(l, omode, NamedBase(who) + 2);
    }
    var b := NamedBase(who) + p;
    NamedBits(who, p);
    NoFile(l, b);
    InXBits('X' in l, omode, b);
    InPermBits(l, OthersOnly(who), b);
    InDocumentedEqual(who, a, {}, omode, mode, b);
    InCodeCopied(who, a, {}, omode, mode, b);
    SourceKept(who, l, Unmasked({}), mode, d, p);
    ThirdPlace(d, p);
  }

  lemma OtherClass(c: char, d: char)
    requires IsCopy(c) && IsCopy(d) && c != d
    ensures Lowest(c) != Lowest(d)
  {
  }

  // ----- the two together -----

  lemma Differs(who: string, a: Action, first: bool) returns (umask: Mode, omode: Mode, mode: Mode)
    requires GoodAction(a) && GoodWho(who) && !Agrees(who, a, first)
    ensures (first ==> mode == omode) && Code(who, a, umask, omode, mode) != Documented(who, a, umask, omode, mode)
  {
    hide Code, Documented, InTime, Early, NoCopies, SoleClass;
    umask := {};
    if a.op == '+' {
      if who == [] && 't' in a.perms {
        if InTime(a.perms, Early(a.perms)) {
          umask, omode, mode := DiffersStickyPlus(a);
        } else {
          umask, mode := DiffersLate(a);
          omode := mode;
        }
      } else {
        umask, omode, mode := DiffersPlus(who, a);
      }
    } else if a.op == '-' {
      if who == [] {
        mode := DiffersMinusNobody(a);
        omode := mode;
      } else {
        omode, mode := DiffersMinus(who, a, first);
      }
    } else {
      umask, omode, mode := DiffersEqual(who, a, first);
    }
  }

  lemma DiffersEqual(who: string, a: Action, first: bool) returns (umask: Mode, omode: Mode, mode: Mode)
    requires GoodAction(a) && GoodWho(who) && a.op == '=' && !AgreesEqual(who, a.perms, first)
    ensures (first ==> mode == omode) && Code(who, a, umask, omode, mode) != Documented(who, a, umask, omode, mode)
  {
    hide Code, Documented, NoCopies, OthersOnly, Head, LastBits, LastCopies, Source, WhoBits, CopiesOnly, Names, Rwx;
    umask := {};
    var (l, q) := (a.perms, LastCopies(who, a.perms));
    if NoCopies(l) {
      umask, mode := DiffersEqualPlain(who, a);
      omode := mode;
    } else if who == [] && ('t' in l || q != []) {
      umask, mode := DiffersNobody(a);
      omode := mode;
    } else if !OthersOnly(who) &&
              !((who == [] || Head(l, OthersOnly(who)) > 0) && ('s' in l ==> 's' in LastBits(who, l)) && ('t' in l ==> 't' in LastBits(who, l))) {
      mode := DiffersSetId(who, a);
      omode := mode;
    } else if q == [] || (Head(l, OthersOnly(who)) > 0 && Names(who, Source(q, WhoBits(who)))) {
      NobodyIsNotOthers();
      mode := DiffersLast(who, a);
      omode := mode;
    } else {
      omode, mode := DiffersSource(who, a, first);
    }
  }

  /**
   The commands for an action do what the manual says exactly under `Agrees`: on every file and every mode
   an earlier action may have left, or, for the first action, on every file's own mode.
   */
  lemma AsDocumented(who: string, a: Action, first: bool)
    requires GoodAction(a) && GoodWho(who)
    ensures Agrees(who, a, first) <==>
            forall umask: Mode, omode: Mode, mode: Mode :: (first ==> mode == omode) ==>
              Code(who, a, umask, omode, mode) == Documented(who, a, umask, omode, mode)
  {
    hide Code, Documented, Agrees;
    if Agrees(who, a, first) {
      forall umask: Mode, omode: Mode, mode: Mode | first ==> mode == omode
        ensures Code(who, a, umask, omode, mode) == Documented(who, a, umask, omode, mode)
      {
        DoesAgree(who, a, first, umask, omode, mode);
      }
    } else {
      var umask, omode, mode := Differs(who, a, first);
    }
  }

  lemma DoesAgree(who: string, a: Action, first: bool, umask: Mode, omode: Mode, mode: Mode)
    requires GoodAction(a) && GoodWho(who) && Agrees(who, a, first) && (first ==> mode == omode)
    ensures Code(who, a, umask, omode, mode) == Documented(who, a, umask, omode, mode)
  {
    hide Code, Documented, AgreesPlus, AgreesMinus, AgreesEqual;
    FirstIsLess(who, a, first, mode == omode);
    if a.op == '+' {
      if who == [] && 't' in a.perms {
        PlusInTime(a, umask, omode, mode);
      } else {
        PlusAgrees(who, a, umask, omode, mode);
      }
    } else if a.op == '-' {
      MinusAgrees(who, a, umask, omode, mode);
    } else {
      EqualAgrees(who, a, umask, omode, mode);
    }
  }

  /** What agrees on every mode agrees on the file's own. */
  lemma FirstIsLess(who: string, a: Action, first: bool, same: bool)
    requires Agrees(who, a, first) && (first ==> same)
    ensures Agrees(who, a, same)
  {
    hide InTime, Early, NoCopies, SoleClass, LastBits, LastCopies, Head, OthersOnly, Source, WhoBits, CopiesOnly, Names, Rwx;
  }
}
