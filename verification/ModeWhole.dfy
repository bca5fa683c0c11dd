/**
 Whole symbolic modes, action after action: when the commands do what chmod(1) says, and how few files
 it takes to find out.
 */
module ModeWhole {
  import opened SetMode
  import opened SymbolicMode
  import opened ModeEffects
  import opened ModeManual

  function DocumentedActions(who: string, l: seq<Action>, umask: Mode, omode: Mode, mode: Mode): Mode {
    if l == [] then mode else DocumentedActions(who, l[1..], umask, omode, Documented(who, l[0], umask, omode, mode))
  }

  function DocumentedMode(cs: seq<Clause>, umask: Mode, omode: Mode, mode: Mode): Mode {
    if cs == [] then mode
    else DocumentedMode(cs[1..], umask, omode, DocumentedActions(cs[0].who, cs[0].actions, umask, omode, mode))
  }

  /** Every action agrees where it stands. */
  predicate AgreesActions(who: string, l: seq<Action>, first: bool) {
    forall i :: 0 <= i < |l| ==> Agrees(who, l[i], first && i == 0)
  }

  predicate AgreesMode(cs: seq<Clause>, first: bool) {
    forall i :: 0 <= i < |cs| ==> AgreesActions(cs[i].who, cs[i].actions, first && i == 0)
  }

  lemma {:induction false} ActionsAsDocumented(who: string, l: seq<Action>, first: bool, umask: Mode, omode: Mode, mode: Mode)
    requires GoodWho(who) && (forall a :: a in l ==> GoodAction(a)) && AgreesActions(who, l, first) && (first ==> mode == omode)
    ensures ActionsMean(WhoBits(who), l, Unmasked(umask), omode, mode) == DocumentedActions(who, l, umask, omode, mode)
  {
    hide Documented, Agrees, WhoBits, GoodAction, GoodWho, Unmasked, ActionMeans;
    if l != [] {
      assert l[0] in l && forall a :: a in l[1..] ==> a in l;
      AsDocumented(who, l[0], first);
      assert Code(who, l[0], umask, omode, mode) == Documented(who, l[0], umask, omode, mode);
      assert AgreesActions(who, l[1..], false) by {
        forall i | 0 <= i < |l[1..]| ensures Agrees(who, l[1..][i], false) {
          assert l[1..][i] == l[i + 1];
        }
      }
      ActionsAsDocumented(who, l[1..], false, umask, omode, Documented(who, l[0], umask, omode, mode));
    }
  }

  /** The commands for a whole mode do what the manual says, if each action agrees where it stands. */
  lemma {:induction false} ModeAsDocumented(cs: seq<Clause>, first: bool, umask: Mode, omode: Mode, mode: Mode)
    requires (forall c :: c in cs ==> GoodClause(c)) && AgreesMode(cs, first) && (first ==> mode == omode)
    ensures ClausesMean(cs, Unmasked(umask), omode, mode) == DocumentedMode(cs, umask, omode, mode)
  {
    hide DocumentedActions, Agrees, WhoBits, Unmasked, ActionsMean, AgreesActions, GoodAction;
    if cs != [] {
      var c := cs[0];
      assert c in cs && forall d :: d in cs[1..] ==> d in cs;
      assert GoodWho(c.who);
      ActionsAsDocumented(c.who, c.actions, first, umask, omode, mode);
      assert AgreesMode(cs[1..], false) by {
        forall i | 0 <= i < |cs[1..]| ensures AgreesActions(cs[1..][i].who, cs[1..][i].actions, false) {
          assert cs[1..][i] == cs[i + 1];
        }
      }
      ModeAsDocumented(cs[1..], false, umask, omode, DocumentedActions(c.who, c.actions, umask, omode, mode));
    }
  }

  /** The commands and the manual on one file. */
  predicate SameOn(cs: seq<Clause>, umask: Mode, omode: Mode) {
    ClausesMean(cs, Unmasked(umask), omode, omode) == DocumentedMode(cs, umask, omode, omode)
  }

  /** On every file, whatever the creation mask, the commands do what the manual says. */
  ghost predicate SameOnFiles(cs: seq<Clause>) {
    forall umask: Mode, omode: Mode :: SameOn(cs, umask, omode)
  }

  /** A mode of one action: exactly then. */
  lemma OneAction(who: string, a: Action)
    requires GoodWho(who) && GoodAction(a)
    ensures AgreesMode([Clause(who, [a])], true) <==> SameOnFiles([Clause(who, [a])])
  {
    hide Documented, Agrees, WhoBits, Unmasked, ActionMeans, ClausesMean, DocumentedMode;
    var cs := [Clause(who, [a])];
    AsDocumented(who, a, true);
    assert [a][0] == a && cs[0] == Clause(who, [a]);
    assert AgreesActions(who, [a], true) <==> Agrees(who, a, true);
    forall umask: Mode, omode: Mode
      ensures ClausesMean(cs, Unmasked(umask), omode, omode) == Code(who, a, umask, omode, omode)
      ensures DocumentedMode(cs, umask, omode, omode) == Documented(who, a, umask, omode, omode)
    {
      OneActionMeans(who, a, umask, omode);
    }
    if SameOnFiles(cs) {
      forall umask: Mode, omode: Mode, mode: Mode | true ==> mode == omode
        ensures Code(who, a, umask, omode, mode) == Documented(who, a, umask, omode, mode)
      {
        assert SameOn(cs, umask, omode);
      }
      assert Agrees(who, a, true);
    }
    if Agrees(who, a, true) {
      forall umask: Mode, omode: Mode
        ensures SameOn(cs, umask, omode)
      {
        assert Code(who, a, umask, omode, omode) == Documented(who, a, umask, omode, omode);
      }
    }
  }

  lemma OneActionMeans(who: string, a: Action, umask: Mode, omode: Mode)
    ensures var cs := [Clause(who, [a])];
            && ClausesMean(cs, Unmasked(umask), omode, omode) == Code(who, a, umask, omode, omode)
            && DocumentedMode(cs, umask, omode, omode) == Documented(who, a, umask, omode, omode)
  {
    hide Documented, WhoBits, Unmasked, ActionMeans;
    var (cs, mask) := ([Clause(who, [a])], Unmasked(umask));
    assert cs[1..] == [] && [a][1..] == [];
    var m := ActionsMean(WhoBits(who), [a], mask, omode, omode);
    assert m == ActionsMean(WhoBits(who), [], mask, omode, Code(who, a, umask, omode, omode));
    assert ClausesMean(cs, mask, omode, omode) == ClausesMean([], mask, omode, m);
    var n := DocumentedActions(who, [a], umask, omode, omode);
    assert n == DocumentedActions(who, [], umask, omode, Documented(who, a, umask, omode, omode));
    assert DocumentedMode(cs, umask, omode, omode) == DocumentedMode([], umask, omode, n);
  }

  // ----- the places do not mix -----

  /** The same bits in the places of `s`. */
  predicate Alike(s: Mode, m: Mode, m': Mode) {
    forall b :: b in s ==> (b in m <==> b in m')
  }

  /** Read, write or execute of all three classes, or bits that are no permission of a class. */
  predicate Closed(s: Mode) {
    || s == {0, 3, 6} || s == {1, 4, 7} || s == {2, 5, 8} || forall b :: b in s ==> b >= 9
  }

  lemma EverywhereAlike(c: char, s: Mode, m: Mode, m': Mode)
    requires IsCopy(c) && Closed(s) && Alike(s, m, m')
    ensures Alike(s, Everywhere(c, m), Everywhere(c, m'))
  {
    hide Everywhere;
    forall b: nat | b in s ensures b in Everywhere(c, m) <==> b in Everywhere(c, m') {
      InEverywhere(c, m, b);
      InEverywhere(c, m', b);
      var x := Lowest(c) + b % 3;
      if b < 9 {
        assert x in s;
      }
    }
  }

  lemma {:induction false} CopiesAlike(l: string, s: Mode, m: Mode, m': Mode)
    requires Closed(s) && Alike(s, m, m')
    ensures Alike(s, CopiedBits(l, m), CopiedBits(l, m'))
  {
    hide Everywhere, Closed;
    if l != [] {
      CopiesAlike(l[1..], s, m, m');
      if IsCopy(l[0]) {
        EverywhereAlike(l[0], s, m, m');
      }
    }
  }

  /** Two runs side by side: masks and modes alike in the places of `s`, files executable or not alike. */
  datatype Run2 = Run2(mask: Mode, mask': Mode, omode: Mode, omode': Mode, mode: Mode, mode': Mode)

  ghost predicate Together(s: Mode, r: Run2) {
    && Closed(s) && Alike(s, r.mask, r.mask') && (Executable(r.omode) <==> Executable(r.omode')) && Alike(s, r.mode, r.mode')
  }

  lemma CopiedAlike(c: char, op: char, st: Letters, s: Mode, r: Run2)
    requires IsCopy(c) && IsOp(op) && Classwise(st.who) && Together(s, r)
    ensures Alike(s, Copied(c, op, st, r.mask, r.omode, r.mode), Copied(c, op, st, r.mask', r.omode', r.mode'))
  {
    hide Executable, Everywhere, Value, Spread, Places, IsCopy, Classwise, Closed;
    var m := if st.perm != {} then Effect(op, st.who, st.perm, op, r.mask, r.omode, r.mode) else r.mode;
    var m' := if st.perm != {} then Effect(op, st.who, st.perm, op, r.mask', r.omode', r.mode') else r.mode';
    assert Alike(s, Limit(st.who, r.mask), Limit(st.who, r.mask'));
    assert Alike(s, m, m');
    var n := if op == '+' && st.permX then Effect('X', st.who, S_IXUGO, op, r.mask, r.omode, m) else m;
    var n' := if op == '+' && st.permX then Effect('X', st.who, S_IXUGO, op, r.mask', r.omode', m') else m';
    assert Alike(s, n, n');
    CopyIs(c, op, st.who, r.mask, r.omode, n);
    CopyIs(c, op, st.who, r.mask', r.omode', n');
    EverywhereAlike(c, s, n, n');
  }

  lemma EndedAlike(op: char, st: Letters, s: Mode, r: Run2)
    requires IsOp(op) && Together(s, r)
    ensures Alike(s, Ended(op, st, r.mask, r.omode, r.mode), Ended(op, st, r.mask', r.omode', r.mode'))
  {
    hide Executable, Value, Spread, Places, Closed;
  }

  lemma LetterClasswise(c: char, op: char, st: Letters)
    requires Classwise(st.who)
    ensures Classwise(Letter(c, op, st).who)
  {
  }

  lemma {:induction false} PermsAlike(l: string, op: char, st: Letters, s: Mode, r: Run2)
    requires (forall k :: 0 <= k < |l| ==> IsPerm(l[k])) && IsOp(op) && Classwise(st.who) && Together(s, r)
    ensures Alike(s, PermsMean(l, op, st, r.mask, r.omode, r.mode), PermsMean(l, op, st, r.mask', r.omode', r.mode'))
  {
    hide Letter, Copied, Ended, Classwise, IsCopy, IsPerm, Executable, Alike, Closed;
    if l == [] {
      EndedAlike(op, st, s, r);
    } else {
      var c := l[0];
      LetterClasswise(c, op, st);
      var r' := r;
      if IsCopy(c) {
        CopiedAlike(c, op, st, s, r);
        r' := r.(mode := Copied(c, op, st, r.mask, r.omode, r.mode), mode' := Copied(c, op, st, r.mask', r.omode', r.mode'));
      }
      PermsAlike(l[1..], op, Letter(c, op, st), s, r');
    }
  }

  lemma {:induction false} ActionsAlike(who: Mode, l: seq<Action>, s: Mode, r: Run2)
    requires (forall a :: a in l ==> GoodAction(a)) && Classwise(who) && Together(s, r)
    ensures Alike(s, ActionsMean(who, l, r.mask, r.omode, r.mode), ActionsMean(who, l, r.mask', r.omode', r.mode'))
  {
    hide PermsMean, Classwise, IsPerm, Executable, Alike, Closed;
    if l != [] {
      var a := l[0];
      assert a in l && forall b :: b in l[1..] ==> b in l;
      PermsAlike(a.perms, a.op, Letters(who, {}, false, false), s, r);
      ActionsAlike(who, l[1..], s,
                   r.(mode := ActionMeans(who, a, r.mask, r.omode, r.mode), mode' := ActionMeans(who, a, r.mask', r.omode', r.mode')));
    }
  }

  lemma {:induction false} ClausesAlike(cs: seq<Clause>, s: Mode, r: Run2)
    requires (forall c :: c in cs ==> GoodClause(c)) && Together(s, r)
    ensures Alike(s, ClausesMean(cs, r.mask, r.omode, r.mode), ClausesMean(cs, r.mask', r.omode', r.mode'))
  {
    hide ActionsMean, Classwise, Executable, Alike, Closed, WhoBits, GoodAction;
    if cs != [] {
      var c := cs[0];
      assert c in cs && forall d :: d in cs[1..] ==> d in cs;
      assert GoodWho(c.who);
      WhoNamed(c.who);
      var w := WhoBits(c.who);
      ActionsAlike(w, c.actions, s, r);
      ClausesAlike(cs[1..], s,
                   r.(mode := ActionsMean(w, c.actions, r.mask, r.omode, r.mode), mode' := ActionsMean(w, c.actions, r.mask', r.omode', r.mode')));
    }
  }

  /** The same of the manual. */
  lemma DocumentedAlike(who: string, a: Action, umask: Mode, umask': Mode, s: Mode, r: Run2)
    requires r.mask == Unmasked(umask) && r.mask' == Unmasked(umask') && Alike(s, Hidden(umask), Hidden(umask'))
    requires Together(s, r) && Alike(s, r.omode, r.omode')
    ensures Alike(s, Documented(who, a, umask, r.omode, r.mode), Documented(who, a, umask', r.omode', r.mode'))
  {
    hide WhoBits, PermBits, CopiedBits, OthersOnly, Unmasked, Hidden, Executable, Closed;
    CopiesAlike(a.perms, s, r.omode, r.omode');
  }

  lemma {:induction false} DocumentedActionsAlike(who: string, l: seq<Action>, umask: Mode, umask': Mode, s: Mode, r: Run2)
    requires r.mask == Unmasked(umask) && r.mask' == Unmasked(umask') && Alike(s, Hidden(umask), Hidden(umask'))
    requires Together(s, r) && Alike(s, r.omode, r.omode')
    ensures Alike(s, DocumentedActions(who, l, umask, r.omode, r.mode), DocumentedActions(who, l, umask', r.omode', r.mode'))
  {
    hide Documented, Unmasked, Hidden, Executable, Alike, Closed;
    if l != [] {
      DocumentedAlike(who, l[0], umask, umask', s, r);
      DocumentedActionsAlike(who, l[1..], umask, umask', s,
                             r.(mode := Documented(who, l[0], umask, r.omode, r.mode), mode' := Documented(who, l[0], umask', r.omode', r.mode')));
    }
  }

  lemma {:induction false} DocumentedModeAlike(cs: seq<Clause>, umask: Mode, umask': Mode, s: Mode, r: Run2)
    requires r.mask == Unmasked(umask) && r.mask' == Unmasked(umask') && Alike(s, Hidden(umask), Hidden(umask'))
    requires Together(s, r) && Alike(s, r.omode, r.omode')
    ensures Alike(s, DocumentedMode(cs, umask, r.omode, r.mode), DocumentedMode(cs, umask', r.omode', r.mode'))
  {
    hide DocumentedActions, Unmasked, Hidden, Executable, Alike, Closed;
    if cs != [] {
      var c := cs[0];
      DocumentedActionsAlike(c.who, c.actions, umask, umask', s, r);
      DocumentedModeAlike(cs[1..], umask, umask', s,
                          r.(mode := DocumentedActions(c.who, c.actions, umask, r.omode, r.mode), mode' := DocumentedActions(c.who, c.actions, umask', r.omode', r.mode')));
    }
  }

  // ----- bits that are no mode bits -----

  lemma {:induction false} PermsKeep(l: string, op: char, st: Letters, mask: Mode, omode: Mode, mode: Mode, b: nat)
    requires (forall k :: 0 <= k < |l| ==> IsPerm(l[k])) && IsOp(op) && Classwise(st.who) && b >= 12 && b !in st.who && b !in st.perm
    ensures b in PermsMean(l, op, st, mask, omode, mode) <==> b in mode
  {
    hide Letter, Copied, Ended, Classwise, IsCopy, IsPerm;
    if l == [] {
      EndedKeeps(op, st, mask, omode, mode, b);
    } else {
      var c := l[0];
      LetterClasswise(c, op, st);
      LetterKeeps(c, op, st, b);
      if IsCopy(c) {
        CopiedKeeps(c, op, st, mask, omode, mode, b);
      }
      PermsKeep(l[1..], op, Letter(c, op, st), mask, omode, if IsCopy(c) then Copied(c, op, st, mask, omode, mode) else mode, b);
    }
  }

  lemma LetterKeeps(c: char, op: char, st: Letters, b: nat)
    requires b >= 12 && b !in st.who && b !in st.perm
    ensures b !in Letter(c, op, st).who && b !in Letter(c, op, st).perm
  {
  }

  lemma EndedKeeps(op: char, st: Letters, mask: Mode, omode: Mode, mode: Mode, b: nat)
    requires IsOp(op) && b >= 12 && b !in st.who && b !in st.perm
    ensures b in Ended(op, st, mask, omode, mode) <==> b in mode
  {
    hide Executable, Value, Spread, Places;
  }

  lemma CopiedKeeps(c: char, op: char, st: Letters, mask: Mode, omode: Mode, mode: Mode, b: nat)
    requires IsCopy(c) && IsOp(op) && Classwise(st.who) && b >= 12 && b !in st.who && b !in st.perm
    ensures b in Copied(c, op, st, mask, omode, mode) <==> b in mode
  {
    hide Executable, Everywhere, Value, Spread, Places, IsCopy, Classwise;
    var m := if st.perm != {} then Effect(op, st.who, st.perm, op, mask, omode, mode) else mode;
    assert b in m <==> b in mode;
    var n := if op == '+' && st.permX then Effect('X', st.who, S_IXUGO, op, mask, omode, m) else m;
    assert b in n <==> b in m;
    CopyIs(c, op, st.who, mask, omode, n);
    EverywhereUniform(c, n);
    MaskFacts({});
  }

  lemma {:induction false} ActionsKeep(who: Mode, l: seq<Action>, mask: Mode, omode: Mode, mode: Mode, b: nat)
    requires (forall a :: a in l ==> GoodAction(a)) && Classwise(who) && b >= 12 && b !in who
    ensures b in ActionsMean(who, l, mask, omode, mode) <==> b in mode
  {
    hide PermsMean, Classwise, IsPerm;
    if l != [] {
      assert l[0] in l && forall a :: a in l[1..] ==> a in l;
      PermsKeep(l[0].perms, l[0].op, Letters(who, {}, false, false), mask, omode, mode, b);
      ActionsKeep(who, l[1..], mask, omode, ActionMeans(who, l[0], mask, omode, mode), b);
    }
  }

  lemma {:induction false} ClausesKeep(cs: seq<Clause>, mask: Mode, omode: Mode, mode: Mode, b: nat)
    requires (forall c :: c in cs ==> GoodClause(c)) && b >= 12
    ensures b in ClausesMean(cs, mask, omode, mode) <==> b in mode
  {
    hide ActionsMean, Classwise, WhoBits, GoodAction;
    if cs != [] {
      var c := cs[0];
      assert c in cs && forall d :: d in cs[1..] ==> d in cs;
      assert GoodWho(c.who);
      WhoNamed(c.who);
      MaskFacts({});
      ActionsKeep(WhoBits(c.who), c.actions, mask, omode, mode, b);
      ClausesKeep(cs[1..], mask, omode, ActionsMean(WhoBits(c.who), c.actions, mask, omode, mode), b);
    }
  }

  lemma DocumentedKeeps(who: string, a: Action, umask: Mode, omode: Mode, mode: Mode, b: nat)
    requires GoodWho(who) && b >= 12
    ensures b in Documented(who, a, umask, omode, mode) <==> b in mode
  {
    hide WhoBits, PermBits, CopiedBits, OthersOnly, Unmasked, Hidden, XBits;
    WhoNamed(who);
    assert b !in WhoBits(who) by { MaskFacts({}); }
    MaskFacts({});
    InPermBits(a.perms, OthersOnly(who), b);
    CopiesInside(a.perms, omode);
    InXBits('X' in a.perms, omode, b);
  }

  lemma {:induction false} DocumentedActionsKeep(who: string, l: seq<Action>, umask: Mode, omode: Mode, mode: Mode, b: nat)
    requires GoodWho(who) && b >= 12
    ensures b in DocumentedActions(who, l, umask, omode, mode) <==> b in mode
  {
    hide Documented, GoodWho;
    if l != [] {
      DocumentedKeeps(who, l[0], umask, omode, mode, b);
      DocumentedActionsKeep(who, l[1..], umask, omode, Documented(who, l[0], umask, omode, mode), b);
    }
  }

  lemma {:induction false} DocumentedModeKeeps(cs: seq<Clause>, umask: Mode, omode: Mode, mode: Mode, b: nat)
    requires (forall c :: c in cs ==> GoodClause(c)) && b >= 12
    ensures b in DocumentedMode(cs, umask, omode, mode) <==> b in mode
  {
    hide DocumentedActions, GoodAction;
    if cs != [] {
      var c := cs[0];
      assert c in cs && forall d :: d in cs[1..] ==> d in cs;
      DocumentedActionsKeep(c.who, c.actions, umask, omode, mode, b);
      DocumentedModeKeeps(cs[1..], umask, omode, DocumentedActions(c.who, c.actions, umask, omode, mode), b);
    }
  }

  // ----- the files it takes -----

  /** A creation mask that hides all of the classes in `u`: 0 others, 1 group, 2 user. */
  function MaskOf(u: set<nat>): Mode {
    set b: nat | b < 9 && b / 3 in u
  }

  /** A file that lets the classes in `t` do everything; a directory, or else without execute permission. */
  function FileOf(t: set<nat>, high: bool, dir: bool): Mode {
    (set b: nat | b < 9 && b / 3 in t && (dir || b % 3 != 0)) + (if high then {9, 10, 11} else {}) + (if dir then S_IFDIR else {})
  }

  /** Eight creation masks and thirty-two files. */
  predicate SameOnTrials(cs: seq<Clause>) {
    forall u: set<nat>, t: set<nat>, high: bool, dir: bool | u <= {0, 1, 2} && t <= {0, 1, 2} ::
      SameOn(cs, MaskOf(u), FileOf(t, high, dir))
  }

  function ClassesOf(m: Mode, r: nat): set<nat> {
    set k: nat | k < 3 && 3 * k + r in m
  }

  /** The places a bit belongs to. */
  function PlacesOf(b: nat): Mode {
    if b < 9 then (if b % 3 == 0 then {0, 3, 6} else if b % 3 == 1 then {1, 4, 7} else {2, 5, 8}) else {b}
  }

  lemma InPlacesOf(b: nat)
    ensures Closed(PlacesOf(b)) && b in PlacesOf(b)
    ensures forall x: nat :: x in PlacesOf(b) ==> if b < 9 then x < 9 && x % 3 == b % 3 else x == b
  {
  }

  lemma InMaskOf(u: set<nat>, x: nat)
    ensures x in MaskOf(u) <==> x < 9 && x / 3 in u
  {
  }

  lemma InFileOf(t: set<nat>, high: bool, dir: bool, x: nat)
    ensures x in FileOf(t, high, dir) <==>
            (x < 9 && x / 3 in t && (dir || x % 3 != 0)) || (high && 9 <= x < 12) || (dir && x == 14)
  {
  }

  lemma InExecutable(m: Mode)
    ensures Executable(m) <==> 14 in m || 0 in m || 3 in m || 6 in m
  {
    var s := S_IFDIR + S_IXUGO;
    assert forall b: nat :: b in s <==> b == 14 || b == 0 || b == 3 || b == 6;
    if 14 in m || 0 in m || 3 in m || 6 in m {
      assert 14 in m * s || 0 in m * s || 3 in m * s || 6 in m * s;
    }
  }

  /** Every file and mask look, in the places of one bit, like one of those. */
  lemma TrialAlike(umask: Mode, omode: Mode, b: nat) returns (u: set<nat>, t: set<nat>, high: bool, dir: bool)
    requires b < 12
    ensures u <= {0, 1, 2} && t <= {0, 1, 2}
    ensures var (s, umask', omode') := (PlacesOf(b), MaskOf(u), FileOf(t, high, dir));
            && Alike(s, Unmasked(umask), Unmasked(umask')) && Alike(s, Hidden(umask), Hidden(umask'))
            && Alike(s, omode, omode') && (Executable(omode) <==> Executable(omode'))
  {
    hide MaskOf, FileOf, Unmasked, Hidden, PlacesOf, Executable;
    u, t, high, dir := ClassesOf(umask, b % 3), ClassesOf(omode, b % 3), b in omode, Executable(omode);
    var (s, umask', omode') := (PlacesOf(b), MaskOf(u), FileOf(t, high, dir));
    InPlacesOf(b);
    InExecutable(omode);
    InExecutable(omode');
    forall x: nat ensures x in omode' <==> (x < 9 && x / 3 in t && (dir || x % 3 != 0)) || (high && 9 <= x < 12) || (dir && x == 14) {
      InFileOf(t, high, dir, x);
    }
    MaskFacts(umask);
    MaskFacts(umask');
    forall x: nat | x in s
      ensures (x in Hidden(umask) <==> x in Hidden(umask')) && (x in Unmasked(umask) <==> x in Unmasked(umask'))
      ensures x in omode <==> x in omode'
    {
      InMaskOf(u, x);
      assert x < 9 ==> x == 3 * (x / 3) + b % 3;
    }
  }

  /** What the commands and the manual do on all files, they show on those. */
  lemma TrialsSuffice(cs: seq<Clause>)
    requires forall c :: c in cs ==> GoodClause(c)
    ensures SameOnFiles(cs) <==> SameOnTrials(cs)
  {
    hide ClausesMean, DocumentedMode, Unmasked, Hidden, MaskOf, FileOf, GoodClause, PlacesOf;
    if SameOnTrials(cs) {
      forall umask: Mode, omode: Mode ensures SameOn(cs, umask, omode) {
        forall b: nat
          ensures b in ClausesMean(cs, Unmasked(umask), omode, omode) <==> b in DocumentedMode(cs, umask, omode, omode)
        {
          BitTried(cs, umask, omode, b);
        }
      }
    } else {
      var u: set<nat>, t: set<nat>, high: bool, dir: bool :| u <= {0, 1, 2} && t <= {0, 1, 2} && !SameOn(cs, MaskOf(u), FileOf(t, high, dir));
      assert !SameOnFiles(cs);
    }
  }

  lemma BitTried(cs: seq<Clause>, umask: Mode, omode: Mode, b: nat)
    requires (forall c :: c in cs ==> GoodClause(c)) && SameOnTrials(cs)
    ensures b in ClausesMean(cs, Unmasked(umask), omode, omode) <==> b in DocumentedMode(cs, umask, omode, omode)
  {
    hide ClausesMean, DocumentedMode, Unmasked, Hidden, MaskOf, FileOf, GoodClause, PlacesOf, Executable, Closed;
    if b >= 12 {
      ClausesKeep(cs, Unmasked(umask), omode, omode, b);
      DocumentedModeKeeps(cs, umask, omode, omode, b);
    } else {
      var u, t, high, dir := TrialAlike(umask, omode, b);
      var (s, umask', omode') := (PlacesOf(b), MaskOf(u), FileOf(t, high, dir));
      InPlacesOf(b);
      var r := Run2(Unmasked(umask), Unmasked(umask'), omode, omode', omode, omode');
      ClausesAlike(cs, s, r);
      DocumentedModeAlike(cs, umask, umask', s, r);
      assert SameOn(cs, umask', omode');
    }
  }

  // ----- inputs -----

  /** `-w` under the mask 022 takes from the owner what the manual leaves. */
  lemma MinusDiffers()
    ensures ParseMode("-w") == Clauses([Clause("", [Action('-', "w")])])
    ensures var cs := [Clause("", [Action('-', "w")])];
            && ClausesMean(cs, Unmasked({4, 1}), {8, 7, 5, 2}, {8, 7, 5, 2}) == {8, 5, 2}
            && DocumentedMode(cs, {4, 1}, {8, 7, 5, 2}, {8, 7, 5, 2}) == {8, 7, 5, 2}
  {
    var (a, umask, m) := (Action('-', "w"), {4, 1}, {8, 7, 5, 2});
    OneParses("", a);
    assert ""  + [a.op] + a.perms == "-w";
    OneActionMeans("", a, umask, m);
    CodeMinus("", a, umask, m, m);
    NothingCopied("w", m);
    MaskFacts(umask);
    forall b: nat ensures b in PermBits("w", false) <==> b == 1 || b == 4 || b == 7 {
      InPermBits("w", false, b);
    }
  }

  lemma OneParses(who: string, a: Action)
    requires GoodWho(who) && GoodAction(a)
    ensures ParseMode(who + [a.op] + a.perms) == Clauses([Clause(who, [a])])
  {
    hide GoodAction;
    var cs := [Clause(who, [a])];
    assert cs[0].actions == [a] && [a][1..] == [];
    TextParses(cs);
    assert ActionsText([a]) == [a.op] + a.perms + ActionsText([]);
    assert ModeText(cs) == who + [a.op] + a.perms;
  }

  lemma NothingCopied(l: string, m: Mode)
    requires NoCopies(l)
    ensures CopiedBits(l, m) == {} && XBits(false, m) == {}
  {
    NoneCopied(l, m);
  }

  /** `g=u`: the commands read the mode as it is and keep the set-group-id bit; the manual does neither. */
  lemma GroupFromUser(umask: Mode, omode: Mode, m: Mode, b: nat)
    ensures b in Code("g", Action('=', "u"), umask, omode, m) <==> if 3 <= b < 6 then b + 3 in m else b in m
    ensures b in Documented("g", Action('=', "u"), umask, omode, m) <==> if 3 <= b < 6 then b + 3 in omode else b in m && b != 10
  {
    hide Code, Documented;
    GroupCoded(umask, omode, m, b);
    GroupDocumented(umask, omode, m, b);
  }

  lemma GroupCoded(umask: Mode, omode: Mode, m: Mode, b: nat)
    ensures b in Code("g", Action('=', "u"), umask, omode, m) <==> if 3 <= b < 6 then b + 3 in m else b in m
  {
    hide Everywhere, Classwise, WhoBits, ActionMeans, Unmasked;
    var w := WhoBits("g");
    GroupBits();
    CopyAlone('u', w, Unmasked(umask), omode, m);
    InEverywhere('u', m, b);
    MaskFacts({});
    assert w != {} by { assert 3 in w; }
    assert b in Code("g", Action('=', "u"), umask, omode, m) <==> b in m - w * RWX + w * Everywhere('u', m);
  }

  lemma GroupDocumented(umask: Mode, omode: Mode, m: Mode, b: nat)
    ensures b in Documented("g", Action('=', "u"), umask, omode, m) <==> if 3 <= b < 6 then b + 3 in omode else b in m && b != 10
  {
    hide CopiedBits, PermBits, Executable, WhoBits, Classwise, Unmasked, Hidden, OthersOnly, XBits;
    GroupBits();
    MaskFacts({});
    InCopies("u", omode, b);
    assert forall c :: c in "u" <==> c == 'u';
    InPermBits("u", OthersOnly("g"), b);
    assert b in CopiedBits("u", omode) <==> b < 9 && 6 + b % 3 in omode by {
      assert 'u' in "u" && Lowest('u') == 6 && IsCopy('u');
    }
    assert b !in PermBits("u", OthersOnly("g"));
    var (w, bits) := (WhoBits("g"), PermBits("u", OthersOnly("g")) + CopiedBits("u", omode));
    assert |"g"| == 1;
    assert Documented("g", Action('=', "u"), umask, omode, m) == m - w + (w + S_ISTXT) * bits;
  }

  lemma GroupBits()
    ensures Classwise(WhoBits("g")) && forall b: nat :: b in WhoBits("g") <==> 3 <= b < 6 || b == 10
  {
    assert WhoBits("g") == WhoBit('g') + WhoBits([]);
  }

  /** A class copied, and no other letter. */
  lemma CopyAlone(c: char, who: Mode, mask: Mode, omode: Mode, mode: Mode)
    requires IsCopy(c) && Classwise(who)
    ensures ActionMeans(who, Action('=', [c]), mask, omode, mode) ==
            mode - Limit(who, mask) * RWX + Limit(who, mask) * Everywhere(c, mode)
  {
    hide Classwise, Everywhere, Effect, Executable, IsCopy;
    var st := Letters(who, {}, false, false);
    CopyLetter(c, '=', st);
    CopyIs(c, '=', who, mask, omode, mode);
    var m := Copied(c, '=', st, mask, omode, mode);
    assert [c][0] == c && [c][1..] == [];
    assert PermsMean([c], '=', st, mask, omode, mode) == PermsMean([], '=', Letter(c, '=', st), mask, omode, m);
    NothingLeft('=', Letter(c, '=', st), mask, omode, m);
  }

  lemma UserBits()
    ensures forall b: nat :: b in WhoBits("u") <==> 6 <= b < 9 || b == 11
  {
    assert WhoBits("u") == WhoBit('u') + WhoBits([]);
  }

  /** `u+x`: both set the bit. */
  lemma UserExecute(umask: Mode, omode: Mode, m: Mode)
    ensures Code("u", Action('+', "x"), umask, omode, m) == Documented("u", Action('+', "x"), umask, omode, m) == m + {6}
  {
    hide CopiedBits, PermBits, Executable, WhoBits, Code;
    assert GoodWho("u");
    UserBits();
    CodePlus("u", Action('+', "x"), umask, omode, m);
    NothingCopied("x", m);
    NothingCopied("x", omode);
    MaskFacts({});
    forall b: nat ensures b in PermBits("x", OthersOnly("u")) <==> b == 0 || b == 3 || b == 6 {
      InPermBits("x", OthersOnly("u"), b);
    }
  }

  /** `u+x,g=u`: the second copy is of a mode already changed, where the manual takes the file's own. */
  lemma CopyDiffers(umask: Mode)
    ensures ParseMode("u+x,g=u") == Clauses([Clause("u", [Action('+', "x")]), Clause("g", [Action('=', "u")])])
    ensures var cs := [Clause("u", [Action('+', "x")]), Clause("g", [Action('=', "u")])];
            && ClausesMean(cs, Unmasked(umask), {8, 7}, {8, 7}) == {8, 7, 6, 5, 4, 3}
            && DocumentedMode(cs, umask, {8, 7}, {8, 7}) == {8, 7, 6, 5, 4}
  {
    hide Code, Documented, ParseMode, ClausesMean, DocumentedMode;
    var (x, c, m) := (Clause("u", [Action('+', "x")]), Clause("g", [Action('=', "u")]), {8, 7});
    TwoParse(x, c, "u+x,g=u");
    UserExecute(umask, m, m);
    TwoMean(x, c, umask, m);
    forall b: nat
      ensures b in Code("g", Action('=', "u"), umask, m, m + {6}) <==> 3 <= b < 9
      ensures b in Documented("g", Action('=', "u"), umask, m, m + {6}) <==> 4 <= b < 9
    {
      GroupFromUser(umask, m, m + {6}, b);
    }
  }

  lemma TwoParse(c: Clause, d: Clause, p: string)
    requires GoodClause(c) && GoodClause(d) && |c.actions| == 1 && |d.actions| == 1
    requires p == (c.who + [c.actions[0].op] + c.actions[0].perms) + [','] + (d.who + [d.actions[0].op] + d.actions[0].perms)
    ensures ParseMode(p) == Clauses([c, d])
  {
    hide ParseMode, IsPerm, IsWho;
    var cs := [c, d];
    TextParses(cs);
    assert cs[1..] == [d] && [d][1..] == [];
    OneActionText(c.actions);
    OneActionText(d.actions);
    assert ModeText([d]) == d.who + ActionsText(d.actions);
    assert ModeText(cs) == c.who + ActionsText(c.actions) + ([','] + ModeText([d]));
    assert ModeText(cs) == p;
  }

  lemma OneActionText(l: seq<Action>)
    requires |l| == 1
    ensures ActionsText(l) == [l[0].op] + l[0].perms
  {
    assert l[1..] == [];
    assert ActionsText([]) == [];
  }

  lemma TwoMean(c: Clause, d: Clause, umask: Mode, m: Mode)
    requires |c.actions| == 1 && |d.actions| == 1
    ensures ClausesMean([c, d], Unmasked(umask), m, m) ==
            Code(d.who, d.actions[0], umask, m, Code(c.who, c.actions[0], umask, m, m))
    ensures DocumentedMode([c, d], umask, m, m) ==
            Documented(d.who, d.actions[0], umask, m, Documented(c.who, c.actions[0], umask, m, m))
  {
    hide Documented, WhoBits, Unmasked, ActionMeans;
    assert [c, d][1..] == [d] && [d][1..] == [] && c.actions[1..] == [] && d.actions[1..] == [];
    OneOf(c.who, c.actions, umask, m, m);
    var (x, y) := (Code(c.who, c.actions[0], umask, m, m), Documented(c.who, c.actions[0], umask, m, m));
    OneOf(d.who, d.actions, umask, m, x);
    OneOf(d.who, d.actions, umask, m, y);
    assert ClausesMean([c, d], Unmasked(umask), m, m) == ClausesMean([d], Unmasked(umask), m, x);
    assert ClausesMean([d], Unmasked(umask), m, x) == ClausesMean([], Unmasked(umask), m, Code(d.who, d.actions[0], umask, m, x));
    assert DocumentedMode([c, d], umask, m, m) == DocumentedMode([d], umask, m, y);
    assert DocumentedMode([d], umask, m, y) == DocumentedMode([], umask, m, Documented(d.who, d.actions[0], umask, m, y));
  }

  lemma OneOf(who: string, l: seq<Action>, umask: Mode, omode: Mode, m: Mode)
    requires |l| == 1
    ensures ActionsMean(WhoBits(who), l, Unmasked(umask), omode, m) == Code(who, l[0], umask, omode, m)
    ensures DocumentedActions(who, l, umask, omode, m) == Documented(who, l[0], umask, omode, m)
  {
    hide Documented, WhoBits, Unmasked, ActionMeans;
    assert l[1..] == [];
    assert ActionsMean(WhoBits(who), [], Unmasked(umask), omode, Code(who, l[0], umask, omode, m)) == Code(who, l[0], umask, omode, m);
    assert DocumentedActions(who, [], umask, omode, Documented(who, l[0], umask, omode, m)) == Documented(who, l[0], umask, omode, m);
  }

  /** `g=u` keeps the set-group-id bit, which the manual counts among the bits of `g`. */
  lemma EqualDiffers(umask: Mode)
    ensures ParseMode("g=u") == Clauses([Clause("g", [Action('=', "u")])])
    ensures var cs := [Clause("g", [Action('=', "u")])];
            && ClausesMean(cs, Unmasked(umask), {10, 8, 7}, {10, 8, 7}) == {10, 8, 7, 5, 4}
            && DocumentedMode(cs, umask, {10, 8, 7}, {10, 8, 7}) == {8, 7, 5, 4}
  {
    hide Code, Documented, ParseMode, ClausesMean, DocumentedMode;
    var (a, m) := (Action('=', "u"), {10, 8, 7});
    OneParses("g", a);
    assert "g" + [a.op] + a.perms == "g=u";
    OneActionMeans("g", a, umask, m);
    forall b: nat
      ensures b in Code("g", a, umask, m, m) <==> b == 10 || b == 8 || b == 7 || b == 5 || b == 4
      ensures b in Documented("g", a, umask, m, m) <==> b == 8 || b == 7 || b == 5 || b == 4
    {
      GroupFromUser(umask, m, m, b);
    }
  }

  /** An action that disagrees may be undone by the next: that every action agrees is not needed. */
  lemma Undone()
    ensures ParseMode("a-X,a=r") == Clauses([Clause("a", [Action('-', "X")]), Clause("a", [Action('=', "r")])])
    ensures var cs := [Clause("a", [Action('-', "X")]), Clause("a", [Action('=', "r")])]; !AgreesMode(cs, true) && SameOnFiles(cs)
  {
    hide ParseMode, ClausesMean, DocumentedMode, Documented, Code, AgreesActions, SameOn;
    var (x, e) := (Action('-', "X"), Action('=', "r"));
    var cs := [Clause("a", [x]), Clause("a", [e])];
    TwoParse(cs[0], cs[1], "a-X,a=r");
    assert !AgreesActions("a", [x], true) by { NotMinusX(); }
    assert cs[0].who == "a" && cs[0].actions == [x];
    forall umask: Mode, omode: Mode ensures SameOn(cs, umask, omode) {
      UndoneOn(cs, umask, omode);
    }
  }

  lemma NotMinusX()
    ensures !AgreesActions("a", [Action('-', "X")], true)
  {
    var l := [Action('-', "X")];
    assert 'X' in l[0].perms by { assert l[0].perms[0] == 'X'; }
    assert !Agrees("a", l[0], true);
  }

  lemma UndoneOn(cs: seq<Clause>, umask: Mode, omode: Mode)
    requires cs == [Clause("a", [Action('-', "X")]), Clause("a", [Action('=', "r")])]
    ensures SameOn(cs, umask, omode)
  {
    hide Code, WhoBits, PermBits, CopiedBits, Unmasked, Executable, ClausesMean, DocumentedMode, Agrees;
    var (x, e) := (Action('-', "X"), Action('=', "r"));
    TwoMean(cs[0], cs[1], umask, omode);
    var (m, n) := (Code("a", x, umask, omode, omode), Documented("a", x, umask, omode, omode));
    assert GoodWho("a");
    CodeMinus("a", x, umask, omode, omode);
    NothingCopied("X", omode);
    assert PermBits("X", OthersOnly("a")) == {} by {
      forall b: nat ensures b !in PermBits("X", OthersOnly("a")) {
        InPermBits("X", OthersOnly("a"), b);
      }
    }
    AllBits();
    assert m - WhoBits("a") == n - WhoBits("a");
    assert Agrees("a", e, false) by { PlainEqual(); }
    AsDocumented("a", e, false);
    assert Code("a", e, umask, omode, m) == Documented("a", e, umask, omode, m);
  }

  lemma PlainEqual()
    ensures Agrees("a", Action('=', "r"), false)
  {
    assert "r" == ['r'] && NoCopies("r");
  }

  lemma AllBits()
    ensures S_IXUGO <= WhoBits("a")
  {
    assert WhoBits("a") == WhoBit('a') + WhoBits([]);
    assert 0 in S_IRWXO && 3 in S_IRWXG && 6 in S_IRWXU;
  }

  // ----- single letters, by number -----

  /** The number of the bit that a permission letter stands for in a class. */
  function Number(d: char, q: char): nat {
    (if d == 'u' then 6 else if d == 'g' then 3 else 0) + (if q == 'r' then 2 else if q == 'w' then 1 else 0)
  }

  lemma LetterBit(q: char, b: nat)
    requires q == 'r' || q == 'w' || q == 'x'
    ensures forall others: bool :: b in PermBits([q], others) <==> b == Number('u', q) || b == Number('g', q) || b == Number('o', q)
  {
    hide PermBits, LetterOf;
    InPermBits([q], true, b);
    InPermBits([q], false, b);
    assert LetterOf(b) in [q] <==> LetterOf(b) == q;
    LetterPlace(b, q);
  }

  lemma LetterPlace(b: nat, q: char)
    requires q == 'r' || q == 'w' || q == 'x'
    ensures LetterOf(b) == q <==> b == Number('u', q) || b == Number('g', q) || b == Number('o', q)
  {
  }

  lemma ClassBits(d: char, b: nat)
    requires IsCopy(d)
    ensures b in WhoBits([d]) <==>
            if d == 'u' then 6 <= b < 9 || b == 11 else if d == 'g' then 3 <= b < 6 || b == 10 else b < 3
  {
    assert WhoBits([d]) == WhoBit(d) + WhoBits([]);
  }

  /** One class and one letter: the one bit is set or cleared, or set when the bits of the class have been cleared. */
  lemma ClassLetter(d: char, q: char, umask: Mode, omode: Mode, m: Mode)
    requires (d == 'u' || d == 'g' || d == 'o') && (q == 'r' || q == 'w' || q == 'x')
    ensures Code([d], Action('+', [q]), umask, omode, m) == m + {Number(d, q)}
    ensures Code([d], Action('-', [q]), umask, omode, m) == m - {Number(d, q)}
    ensures Code([d], Action('=', [q]), umask, omode, m) ==
            m - (if d == 'u' then {6, 7, 8, 11} else if d == 'g' then {3, 4, 5, 10} else {0, 1, 2}) + {Number(d, q)}
  {
    hide Code, PermBits, WhoBits, CopiedBits, XBits, Executable, Unmasked, OthersOnly, Classwise;
    assert GoodWho([d]) && GoodAction(Action('+', [q])) && NoCopies([q]);
    NothingCopied([q], m);
    NothingCopied([q], omode);
    CodePlus([d], Action('+', [q]), umask, omode, m);
    CodeMinus([d], Action('-', [q]), umask, omode, m);
    EqualLetter(d, q, umask, omode, m);
    assert 'X' !in [q];
    forall b: nat
      ensures b in (WhoBits([d]) + S_ISTXT) * PermBits([q], OthersOnly([d])) <==> b == Number(d, q)
      ensures b in WhoBits([d]) * PermBits([q], OthersOnly([d])) <==> b == Number(d, q)
    {
      ClassBits(d, b);
      LetterBit(q, b);
    }
    forall b: nat ensures b in WhoBits([d]) <==> b in (if d == 'u' then {6, 7, 8, 11} else if d == 'g' then {3, 4, 5, 10} else {0, 1, 2}) {
      ClassBits(d, b);
    }
  }

  lemma EqualLetter(d: char, q: char, umask: Mode, omode: Mode, m: Mode)
    requires IsCopy(d) && (q == 'r' || q == 'w' || q == 'x')
    ensures Code([d], Action('=', [q]), umask, omode, m) == m - WhoBits([d]) + WhoBits([d]) * PermBits([q], OthersOnly([d]))
  {
    hide Code, Documented, PermBits, CopiedBits, Unmasked, XBits, WhoBits, OthersOnly;
    assert GoodWho([d]) && NoCopies([q]);
    assert Agrees([d], Action('=', [q]), false);
    AsDocumented([d], Action('=', [q]), false);
    assert Code([d], Action('=', [q]), umask, omode, m) == Documented([d], Action('=', [q]), umask, omode, m);
    DocumentedLetter(d, q, umask, omode, m);
  }

  lemma DocumentedLetter(d: char, q: char, umask: Mode, omode: Mode, m: Mode)
    requires IsCopy(d) && (q == 'r' || q == 'w' || q == 'x')
    ensures Documented([d], Action('=', [q]), umask, omode, m) == m - WhoBits([d]) + WhoBits([d]) * PermBits([q], OthersOnly([d]))
  {
    hide PermBits, CopiedBits, Unmasked, XBits, WhoBits, OthersOnly, Hidden;
    assert NoCopies([q]);
    NothingCopied([q], omode);
    assert 9 !in PermBits([q], OthersOnly([d])) by { LetterBit(q, 9); }
    var bits := PermBits([q], OthersOnly([d])) + CopiedBits([q], omode);
    assert bits == PermBits([q], OthersOnly([d]));
    assert S_ISTXT * bits == {};
  }

  /** The set-id bits belong to user and group, the sticky bit to whoever is named but others alone. */
  lemma IdAndSticky(d: char, q: char, umask: Mode, omode: Mode, m: Mode)
    requires (d == 'u' || d == 'g' || d == 'o') && (q == 's' || q == 't')
    ensures Code([d], Action('+', [q]), umask, omode, m) ==
            m + if d == 'o' then {} else if q == 't' then {9} else if d == 'u' then {11} else {10}
    ensures Code([d], Action('-', [q]), umask, omode, m) ==
            m - if d == 'o' then {} else if q == 't' then {9} else if d == 'u' then {11} else {10}
  {
    hide Code, PermBits, WhoBits, CopiedBits, XBits, Executable, Unmasked, Classwise;
    assert GoodWho([d]) && NoCopies([q]);
    NothingCopied([q], m);
    NothingCopied([q], omode);
    CodePlus([d], Action('+', [q]), umask, omode, m);
    CodeMinus([d], Action('-', [q]), umask, omode, m);
    assert 'X' !in [q] && [d] == [d] + [];
    OthersParts(d, []);
    var bits: Mode := if d == 'o' then {} else if q == 't' then {9} else if d == 'u' then {11} else {10};
    MaskFacts({});
    forall b: nat ensures b in (WhoBits([d]) + S_ISTXT) * PermBits([q], OthersOnly([d])) <==> b in bits {
      ClassBits(d, b);
      InPermBits([q], d == 'o', b);
      assert LetterOf(b) in [q] <==> LetterOf(b) == q;
    }
  }

  /** Where nobody is named all classes are meant, but for what the creation mask hides. */
  lemma NobodyLetter(q: char, umask: Mode, omode: Mode, m: Mode)
    requires q == 'r' || q == 'w' || q == 'x'
    ensures var bits := {Number('u', q), Number('g', q), Number('o', q)} - umask;
            && Code("", Action('+', [q]), umask, omode, m) == m + bits
            && Code("", Action('-', [q]), umask, omode, m) == m - bits
  {
    hide Code, PermBits, WhoBits, CopiedBits, XBits, Executable, Unmasked, OthersOnly;
    assert GoodWho("") && NoCopies([q]);
    NothingCopied([q], m);
    NothingCopied([q], omode);
    CodePlus("", Action('+', [q]), umask, omode, m);
    CodeMinus("", Action('-', [q]), umask, omode, m);
    assert 'X' !in [q] && 't' !in [q];
    MaskFacts(umask);
    var bits: Mode := {Number('u', q), Number('g', q), Number('o', q)} - umask;
    forall b: nat ensures b in Unmasked(umask) * PermBits([q], OthersOnly("")) <==> b in bits {
      LetterBit(q, b);
    }
  }

  lemma Everybody()
    ensures WhoBits("a") == WhoBits("ugo")
  {
    assert WhoBits("a") == WhoBit('a') + WhoBits([]);
    assert "ugo"[1..] == "go" && "go"[1..] == "o" && "o"[1..] == [];
    assert WhoBits("o") == WhoBit('o') + WhoBits([]);
    assert WhoBits("go") == WhoBit('g') + WhoBits("o");
    assert WhoBits("ugo") == WhoBit('u') + WhoBits("go");
  }
}
