/**
 awk's `sub` and `gsub`: the loop over `pmatch`, and the replacement text with its backslashes.
 */
module Substitute {
  import opened RegexTree
  import opened RegexAutomaton
  import opened RegexBuild
  import opened RegexDfa
  import opened RegexMatch
  import opened Utf8Text

  const BACKSLASH: nat := 0x5C
  const AMPERSAND: nat := 0x26

  // ----- the replacement text -----

  predicate Starts(r: seq<nat>, prefix: seq<nat>) {
    prefix <= r
  }

  /** The replacement for one match: `&` stands for the matched text unless a backslash protects it. */
  function Expand(r: seq<nat>, posix: bool, matched: seq<nat>): seq<nat> {
    if r == [] then []
    else if Starts(r, [BACKSLASH, BACKSLASH, BACKSLASH, AMPERSAND]) then
      [BACKSLASH, AMPERSAND] + Expand(r[4..], posix, matched)
    else if Starts(r, [BACKSLASH, BACKSLASH, AMPERSAND]) then [BACKSLASH] + Expand(r[2..], posix, matched)
    else if Starts(r, [BACKSLASH, BACKSLASH]) then
      (if posix then [BACKSLASH] else [BACKSLASH, BACKSLASH]) + Expand(r[2..], posix, matched)
    else if Starts(r, [BACKSLASH, AMPERSAND]) then [AMPERSAND] + Expand(r[2..], posix, matched)
    else if r[0] == AMPERSAND then matched + Expand(r[1..], posix, matched)
    else [r[0]] + Expand(r[1..], posix, matched)
  }

  /** A byte of a C string, its terminating zero included. */
  function At(r: seq<nat>, i: nat): nat {
    if i < |r| then r[i] else 0
  }

  /** How many bytes a backslash in the replacement takes up, and what they stand for. */
  function Escape(r: seq<nat>, posix: bool): (nat, seq<nat>)
    requires r != [] && r[0] == BACKSLASH
  {
    if At(r, 1) == BACKSLASH && At(r, 2) == BACKSLASH && At(r, 3) == AMPERSAND then (4, [BACKSLASH, AMPERSAND])
    else if At(r, 1) == BACKSLASH && At(r, 2) == AMPERSAND then (2, [BACKSLASH])
    else if At(r, 1) == BACKSLASH then (2, if posix then [BACKSLASH] else [BACKSLASH, BACKSLASH])
    else if At(r, 1) == AMPERSAND then (2, [AMPERSAND])
    else (1, [BACKSLASH])
  }

  lemma ExpandEscape(r: seq<nat>, at: nat, posix: bool, matched: seq<nat>)
    requires at < |r| && r[at] == BACKSLASH
    ensures var (n, pb) := Escape(r[at..], posix);
            at + n <= |r| && Expand(r[at..], posix, matched) == pb + Expand(r[at + n..], posix, matched)
  {
    var s := r[at..];
    var (n, pb) := Escape(s, posix);
    assert s[n..] == r[at + n..];
    assert |s| >= 4 ==> s[..4] == [s[0], s[1], s[2], s[3]];
    assert |s| >= 3 ==> s[..3] == [s[0], s[1], s[2]];
    assert |s| >= 2 ==> s[..2] == [s[0], s[1]];
  }

  /** `backsub`: what a backslash in the replacement puts out, and where reading goes on. */
  method Backsub(r: seq<nat>, at: nat, posix: bool, ghost matched: seq<nat>) returns (pb: seq<nat>, next: nat)
    requires Text(r) && at < |r| && r[at] == BACKSLASH
    ensures at < next <= |r| && Expand(r[at..], posix, matched) == pb + Expand(r[next..], posix, matched)
    ensures var more, amp := at + 1 < |r| && r[at + 1] == 0x5C, at + 1 < |r| && r[at + 1] == 0x26;
            && (!more && !amp ==> next == at + 1 && pb == [0x5C])
            && (amp ==> next == at + 2 && pb == [0x26])
            && (more ==>
                  if at + 2 < |r| && r[at + 2] == 0x26 then next == at + 2 && pb == [0x5C]
                  else if at + 3 < |r| && r[at + 2] == 0x5C && r[at + 3] == 0x26 then next == at + 4 && pb == [0x5C, 0x26]
                  else next == at + 2 && pb == if posix then [0x5C] else [0x5C, 0x5C])
  {
    hide Expand;
    ExpandEscape(r, at, posix, matched);
    next := at;
    if At(r, at + 1) == BACKSLASH {
      if At(r, at + 2) == BACKSLASH && At(r, at + 3) == AMPERSAND {
        pb := [BACKSLASH, AMPERSAND];
        next := next + 4;
      } else if At(r, at + 2) == AMPERSAND {
        pb := [BACKSLASH];
        next := next + 2;
      } else if posix {
        next := next + 1;
        pb := [r[next]];
        next := next + 1;
      } else {
        pb := [r[next]];
        next := next + 1;
        pb := pb + [r[next]];
        next := next + 1;
      }
    } else if At(r, at + 1) == AMPERSAND {
      next := next + 1;
      pb := [r[next]];
      next := next + 1;
    } else {
      pb := [r[next]];
      next := next + 1;
    }
  }

  lemma ExpandPlain(r: seq<nat>, i: nat, posix: bool, matched: seq<nat>)
    requires i < |r| && r[i] != BACKSLASH
    ensures Expand(r[i..], posix, matched) ==
            (if r[i] == AMPERSAND then matched else [r[i]]) + Expand(r[i + 1..], posix, matched)
  {
    assert r[i..][0] == r[i] && r[i..][1..] == r[i + 1..];
  }

  lemma ExpandEnds(r: seq<nat>, posix: bool, matched: seq<nat>)
    ensures Expand(r[|r|..], posix, matched) == [] && r[0..] == r
  {
  }

  /** The replacement loop. */
  method Replacement(repl: seq<nat>, posix: bool, matched: seq<nat>) returns (pb: seq<nat>)
    requires Text(repl)
    ensures pb == Expand(repl, posix, matched)
  {
    hide Expand;
    pb := [];
    var r := 0;
    ExpandEnds(repl, posix, matched);
    while At(repl, r) != 0
      invariant r <= |repl| && pb + Expand(repl[r..], posix, matched) == Expand(repl, posix, matched)
      decreases |repl| - r
    {
      var out;
      if repl[r] == BACKSLASH {
        out, r := Backsub(repl, r, posix, matched);
      } else if repl[r] == AMPERSAND {
        ExpandPlain(repl, r, posix, matched);
        out, r := matched, r + 1;
      } else {
        ExpandPlain(repl, r, posix, matched);
        out, r := [repl[r]], r + 1;
      }
      assert pb + (out + Expand(repl[r..], posix, matched)) == pb + out + Expand(repl[r..], posix, matched);
      pb := pb + out;
    }
  }

  lemma ExpandAmpersand(posix: bool, matched: seq<nat>)
    ensures Expand([AMPERSAND], posix, matched) == matched
  {
    assert [AMPERSAND][1..] == [];
  }

  // ----- the pieces of the source string -----

  datatype Found = Nothing | Found(beg: nat, end: nat)

  /** The match a search from `from` finds. */
  ghost function Find(p: Re, hat: bool, t: seq<nat>, mb: bool, from: nat): (r: Found)
    requires from <= |t|
    ensures r.Found? ==> r.beg <= |t| && LeftmostLongest(p, hat, t, mb, from, r.beg, r.end)
    ensures r.Found? ==> from <= r.beg <= r.end <= |t|
    ensures r.Nothing? ==> forall i: nat, j: nat :: i <= |t| ==> !LeftmostLongest(p, hat, t, mb, from, i, j)
  {
    if exists i: nat, j: nat :: i <= |t| && LeftmostLongest(p, hat, t, mb, from, i, j) then
      var i: nat, j: nat :| i <= |t| && LeftmostLongest(p, hat, t, mb, from, i, j);
      BoundaryInside(t, mb, from, i);
      BoundaryInside(t, mb, i, j);
      Found(i, j)
    else Nothing
  }

  /** What `Pmatch` answers is that match. */
  lemma FindIs(p: Re, hat: bool, t: seq<nat>, mb: bool, from: nat, i: nat, j: nat)
    requires from <= |t| && i <= |t| && LeftmostLongest(p, hat, t, mb, from, i, j)
    ensures Find(p, hat, t, mb, from) == Found(i, j)
  {
    hide Boundary, Word, MatchesAt;
    var f := Find(p, hat, t, mb, from);
    BoundaryInside(t, mb, from, i);
    assert f.Found?;
  }

  lemma FindNothing(p: Re, hat: bool, t: seq<nat>, mb: bool, from: nat)
    requires from <= |t| && NoMatch(p, hat, t, mb, from)
    ensures Find(p, hat, t, mb, from) == Nothing
  {
    hide Boundary, Word, MatchesAt;
    var f := Find(p, hat, t, mb, from);
  }

  /** A stretch of the source that stays, or a match to be replaced. */
  datatype Piece = Keep(text: seq<nat>) | Match(text: seq<nat>)

  /** `sub` replaces the first match. */
  ghost function SubPieces(p: Re, t: seq<nat>, mb: bool): seq<Piece> {
    var f := Find(p, true, t, mb, 0);
    if f.Nothing? then [Keep(t)] else [Keep(t[..f.beg]), Match(t[f.beg..f.end]), Keep(t[f.end..])]
  }

  /**
   `gsub` replaces all matches that do not overlap, from left to right; an empty match right after a
   replaced one does not count, and after an empty match one rune is passed over.
   */
  ghost function GsubPieces(p: Re, hat: bool, t: seq<nat>, mb: bool, from: nat, noempty: int): seq<Piece>
    requires from <= |t|
    decreases |t| - from
  {
    var f := Find(p, hat, t, mb, from);
    if f.Nothing? then [Keep(t[from..])]
    else if f.beg < f.end then
      [Keep(t[from..f.beg]), Match(t[f.beg..f.end])] + GsubPieces(p, false, t, mb, f.end, f.end)
    else
      [Keep(t[from..f.beg])] + (if f.beg == noempty then [] else [Match([])]) +
      if f.beg == |t| then []
      else [Keep(t[f.beg..After(t, mb, f.beg)])] + GsubPieces(p, false, t, mb, After(t, mb, f.beg), noempty)
  }

  /** The source string the pieces are of. */
  function Original(ps: seq<Piece>): seq<nat> {
    if ps == [] then [] else ps[0].text + Original(ps[1..])
  }

  /** The string with every match replaced. */
  function Replaced(ps: seq<Piece>, repl: seq<nat>, posix: bool): seq<nat> {
    if ps == [] then []
    else (if ps[0].Keep? then ps[0].text else Expand(repl, posix, ps[0].text)) + Replaced(ps[1..], repl, posix)
  }

  function Count(ps: seq<Piece>): nat {
    if ps == [] then 0 else (if ps[0].Match? then 1 else 0) + Count(ps[1..])
  }

  lemma {:induction false} OriginalAppend(a: seq<Piece>, b: seq<Piece>)
    ensures Original(a + b) == Original(a) + Original(b)
  {
    if a == [] {
      assert a + b == b;
    } else {
      OriginalAppend(a[1..], b);
      assert (a + b)[0] == a[0] && (a + b)[1..] == a[1..] + b;
    }
  }

  lemma {:induction false} ReplacedAppend(a: seq<Piece>, b: seq<Piece>, repl: seq<nat>, posix: bool)
    ensures Replaced(a + b, repl, posix) == Replaced(a, repl, posix) + Replaced(b, repl, posix)
  {
    hide Expand;
    if a == [] {
      assert a + b == b;
    } else {
      ReplacedAppend(a[1..], b, repl, posix);
      assert (a + b)[0] == a[0] && (a + b)[1..] == a[1..] + b;
    }
  }

  lemma {:induction false} CountAppend(a: seq<Piece>, b: seq<Piece>)
    ensures Count(a + b) == Count(a) + Count(b)
  {
    if a == [] {
      assert a + b == b;
    } else {
      CountAppend(a[1..], b);
      assert (a + b)[0] == a[0] && (a + b)[1..] == a[1..] + b;
    }
  }

  lemma PieceOf(x: Piece, repl: seq<nat>, posix: bool)
    ensures Replaced([x], repl, posix) == if x.Keep? then x.text else Expand(repl, posix, x.text)
    ensures Count([x]) == if x.Match? then 1 else 0
    ensures Original([x]) == x.text
    ensures Replaced([], repl, posix) == [] && Count([]) == 0 && Original([]) == []
  {
    assert [x][1..] == [];
  }

  /** The replacements of one round of `gsub`, put before those of the rest. */
  lemma TwoPieces(a: Piece, b: seq<Piece>, rest: seq<Piece>, repl: seq<nat>, posix: bool)
    requires |b| <= 1
    ensures Replaced([a] + b + rest, repl, posix) == Replaced([a], repl, posix) + Replaced(b, repl, posix) + Replaced(rest, repl, posix)
    ensures Count([a] + b + rest) == Count([a]) + Count(b) + Count(rest)
    ensures Original([a] + b + rest) == Original([a]) + Original(b) + Original(rest)
  {
    hide Replaced, Count, Original;
    ReplacedAppend([a] + b, rest, repl, posix);
    ReplacedAppend([a], b, repl, posix);
    CountAppend([a] + b, rest);
    CountAppend([a], b);
    OriginalAppend([a] + b, rest);
    OriginalAppend([a], b);
  }

  /** What is left of the replaced string from `from` on. */
  ghost function RestText(p: Re, hat: bool, t: seq<nat>, mb: bool, from: nat, noempty: int, repl: seq<nat>, posix: bool): seq<nat>
    requires from <= |t|
  {
    Replaced(GsubPieces(p, hat, t, mb, from, noempty), repl, posix)
  }

  ghost function RestCount(p: Re, hat: bool, t: seq<nat>, mb: bool, from: nat, noempty: int): nat
    requires from <= |t|
  {
    Count(GsubPieces(p, hat, t, mb, from, noempty))
  }

  lemma RestNothing(p: Re, hat: bool, t: seq<nat>, mb: bool, from: nat, noempty: int, repl: seq<nat>, posix: bool)
    requires from <= |t| && Find(p, hat, t, mb, from) == Nothing
    ensures RestText(p, hat, t, mb, from, noempty, repl, posix) == t[from..] && RestCount(p, hat, t, mb, from, noempty) == 0
  {
    hide Replaced, Count;
    PieceOf(Keep(t[from..]), repl, posix);
  }

  lemma RestMatch(p: Re, hat: bool, t: seq<nat>, mb: bool, from: nat, noempty: int, i: nat, j: nat, repl: seq<nat>, posix: bool)
    requires from <= |t| && Find(p, hat, t, mb, from) == Found(i, j) && i < j
    ensures RestText(p, hat, t, mb, from, noempty, repl, posix) ==
            t[from..i] + Expand(repl, posix, t[i..j]) + RestText(p, false, t, mb, j, j, repl, posix)
    ensures RestCount(p, hat, t, mb, from, noempty) == 1 + RestCount(p, false, t, mb, j, j)
  {
    hide Replaced, Count, Expand;
    var a, b, rest := Keep(t[from..i]), Match(t[i..j]), GsubPieces(p, false, t, mb, j, j);
    PieceOf(a, repl, posix);
    PieceOf(b, repl, posix);
    assert [a, b] + rest == [a] + [b] + rest;
    TwoPieces(a, [b], rest, repl, posix);
  }

  lemma RestEmpty(p: Re, hat: bool, t: seq<nat>, mb: bool, from: nat, noempty: int, i: nat, repl: seq<nat>, posix: bool)
    requires from <= |t| && Find(p, hat, t, mb, from) == Found(i, i)
    ensures var put := if i == noempty then [] else Expand(repl, posix, []);
            RestText(p, hat, t, mb, from, noempty, repl, posix) ==
            if i == |t| then t[from..i] + put
            else t[from..i] + put + (t[i..After(t, mb, i)] + RestText(p, false, t, mb, After(t, mb, i), noempty, repl, posix))
    ensures RestCount(p, hat, t, mb, from, noempty) ==
            (if i == noempty then 0 else 1) + if i == |t| then 0 else RestCount(p, false, t, mb, After(t, mb, i), noempty)
  {
    hide Replaced, Count, Expand, Find, LeftmostLongest, U8Rune;
    var a, b := Keep(t[from..i]), if i == noempty then [] else [Match([])];
    PieceOf(a, repl, posix);
    PieceOf(Match([]), repl, posix);
    if i == |t| {
      TwoPieces(a, b, [], repl, posix);
    } else {
      var c, rest := Keep(t[i..After(t, mb, i)]), GsubPieces(p, false, t, mb, After(t, mb, i), noempty);
      PieceOf(c, repl, posix);
      TwoPieces(a, b, [c] + rest, repl, posix);
      ReplacedAppend([c], rest, repl, posix);
      CountAppend([c], rest);
    }
  }

  lemma SubParts(p: Re, t: seq<nat>, mb: bool, repl: seq<nat>, posix: bool)
    ensures var f, ps := Find(p, true, t, mb, 0), SubPieces(p, t, mb);
            && Original(ps) == t
            && (f.Nothing? ==> Replaced(ps, repl, posix) == t && Count(ps) == 0)
            && (f.Found? ==> Replaced(ps, repl, posix) == t[..f.beg] + Expand(repl, posix, t[f.beg..f.end]) + t[f.end..])
            && (f.Found? ==> Count(ps) == 1)
  {
    hide Replaced, Count, Original, Expand;
    var f := Find(p, true, t, mb, 0);
    if f.Nothing? {
      PieceOf(Keep(t), repl, posix);
    } else {
      var a, b, c := Keep(t[..f.beg]), Match(t[f.beg..f.end]), Keep(t[f.end..]);
      PieceOf(a, repl, posix);
      PieceOf(b, repl, posix);
      PieceOf(c, repl, posix);
      assert [a, b, c] == [a] + [b] + [c];
      TwoPieces(a, [b], [c], repl, posix);
      assert t[..f.beg] + t[f.beg..f.end] + t[f.end..] == t;
    }
  }

  // ----- the loop -----

  datatype Subop = SUB | GSUB

  datatype MatchType = IGNORE | INSERT | REPLACE

  ghost function Pieces(p: Re, t: seq<nat>, mb: bool, subop: Subop): seq<Piece> {
    if subop.SUB? then SubPieces(p, t, mb) else GsubPieces(p, true, t, mb, 0, -1)
  }

  /** Put out the text before the match, the replacement, and the matched text where it stays. */
  method Emit(repl: seq<nat>, posix: bool, t: seq<nat>, mb: bool, start: nat, patbeg: nat, patlen: nat, mtype: MatchType)
    returns (pb: seq<nat>, len: nat)
    requires Text(repl) && start <= patbeg && patbeg + patlen <= |t|
    ensures len == if patlen == 0 && mtype != REPLACE && patbeg < |t| then U8Nextlen(t, patbeg, mb) else patlen
    ensures patbeg + len <= |t|
    ensures pb == t[start..patbeg] + (if mtype.IGNORE? then [] else Expand(repl, posix, t[patbeg..patbeg + patlen])) +
                  if mtype.REPLACE? || patbeg == |t| then [] else t[patbeg..patbeg + len]
  {
    hide Expand;
    len := patlen;
    pb := [];
    if patbeg > start {
      pb := t[start..patbeg];
    }
    if !mtype.IGNORE? {
      var r := Replacement(repl, posix, t[patbeg..patbeg + patlen]);
      pb := pb + r;
    }
    if mtype.REPLACE? || patbeg == |t| {
    } else {
      if len == 0 {
        len := U8Nextlen(t, patbeg, mb);
      }
      pb := pb + t[patbeg..patbeg + len];
    }
  }

  /** One round of the loop: what it puts out, where the next search starts, and whether it is the last. */
  method Round(ghost p: Re, ghost hat: bool, repl: seq<nat>, posix: bool, t: seq<nat>, mb: bool, subop: Subop,
      start: nat, noempty: int, m: nat, patbeg: nat, patlen: nat)
    returns (text: seq<nat>, start': nat, noempty': int, m': nat, last: bool)
    requires Text(repl) && start <= |t| && Find(p, hat, t, mb, start) == Found(patbeg, patbeg + patlen)
    requires hat ==> m == 0 && noempty == -1
    requires !hat ==> m >= 1 && subop.GSUB?
    ensures m <= m' && start <= start' <= |t| && (last || start < start' || hat)
    ensures subop.SUB? && start == 0 ==> last && m' == 1 && text + t[start'..] == Replaced(SubPieces(p, t, mb), repl, posix)
    ensures subop.GSUB? ==> m' >= 1
    ensures subop.GSUB? ==> RestText(p, hat, t, mb, start, noempty, repl, posix) ==
                             text + if last then t[start'..] else RestText(p, false, t, mb, start', noempty', repl, posix)
    ensures subop.GSUB? ==> m + RestCount(p, hat, t, mb, start, noempty) ==
                             m' + if last then 0 else RestCount(p, false, t, mb, start', noempty')
  {
    hide SubPieces, GsubPieces, Replaced, Count, Expand, LeftmostLongest, RestText, RestCount, Find, U8Rune, U8Isutf,
      Form, Text;
    var whichm := if subop.SUB? then 1 else 0;
    noempty', m' := noempty, m;
    var mtype;
    if patbeg == noempty && patlen == 0 {
      mtype := IGNORE;
    } else {
      m' := m' + 1;
      if whichm == m' || whichm == 0 {
        mtype := if patlen != 0 then REPLACE else INSERT;
      } else {
        mtype := IGNORE;
      }
    }
    if subop.SUB? {
      SubParts(p, t, mb, repl, posix);
    } else if patlen > 0 {
      RestMatch(p, hat, t, mb, start, noempty, patbeg, patbeg + patlen, repl, posix);
    } else {
      RestEmpty(p, hat, t, mb, start, noempty, patbeg, repl, posix);
    }
    var len;
    text, len := Emit(repl, posix, t, mb, start, patbeg, patlen, mtype);
    start' := patbeg + len;
    last := m' == whichm || patbeg == |t|;
    if !last && mtype == REPLACE {
      noempty' := start';
    }
    assert t[patbeg..patbeg + len] + t[start'..] == t[patbeg..];
    assert t[patbeg..patbeg] == [];
  }

  /**
   `sub` and `gsub`: the string with its pieces replaced, and how many there were.  The automaton is in
   state 2 while the rest of the string is searched, and then set back.
   */
  method Dosub(f: Fa, repl: seq<nat>, source: seq<nat>, mb: bool, posix: bool, subop: Subop) returns (out: seq<nat>, m: nat)
    requires f.Ready() && f.anchor && f.Leaves(f.initstat) == HatBody(f.body) && Text(repl) && Text(source)
    modifies f`posns, f`out, f`gototab, f`curstat, f`initstat, f.w`setcnt, f.w.setvec
    ensures f.Ready() && f.initstat == old(f.initstat) && old(f.posns) <= f.posns
    ensures f.Leaves(f.initstat) == HatBody(f.body)
    ensures out == Replaced(Pieces(f.body, source, mb, subop), repl, posix)
    ensures m == Count(Pieces(f.body, source, mb, subop))
  {
    hide Machine, MemoOk, TableOk, RegexAutomaton.Whole, Body, HatBody, GsubPieces, SubPieces, Replaced, Count, Expand,
      LeftmostLongest, NoMatch, RestText, RestCount, Find, Text;
    ghost var p, ps := f.body, Pieces(f.body, source, mb, subop);
    var start, pb: seq<nat>, buf, noempty, tempstat := 0, [], false, -1, 0;
    ghost var hat := true;
    m := 0;
    SubParts(p, source, mb, repl, posix);
    RestAll(p, source, mb, repl, posix);
    MachineLength(f.root, f.posns, f.out, f.gototab);
    while true
      invariant f.Ready() && |old(f.posns)| >= 3 && old(f.posns) <= f.posns && start <= |source|
      invariant f.Leaves(f.initstat) == if hat then HatBody(p) else Body(p)
      invariant hat ==> !buf && start == 0 && m == 0 && noempty == -1 && pb == [] && f.initstat == old(f.initstat)
      invariant !hat ==> buf && m >= 1 && f.initstat == 2 && tempstat == old(f.initstat) && subop.GSUB?
      invariant subop.GSUB? ==> Replaced(ps, repl, posix) == pb + RestText(p, hat, source, mb, start, noempty, repl, posix)
      invariant subop.GSUB? ==> Count(ps) == m + RestCount(p, hat, source, mb, start, noempty)
      decreases |source| - start, hat
    {
      var found, patbeg, patlen := Pmatch(f, source, mb, start, hat);
      if !found {
        FindNothing(p, hat, source, mb, start);
        RestNothing(p, hat, source, mb, start, noempty, repl, posix);
        break;
      }
      FindIs(p, hat, source, mb, start, patbeg, patbeg + patlen);
      if !buf {
        buf := true;
        tempstat := f.initstat;
        f.initstat := 2;
      }
      var text, last;
      text, start, noempty, m, last := Round(p, hat, repl, posix, source, mb, subop, start, noempty, m, patbeg, patlen);
      pb := pb + text;
      if last {
        break;
      }
      hat := false;
    }
    if buf {
      f.initstat := tempstat;
      out := pb + source[start..];
    } else {
      out := source;
    }
  }

  lemma RestAll(p: Re, t: seq<nat>, mb: bool, repl: seq<nat>, posix: bool)
    ensures Replaced(GsubPieces(p, true, t, mb, 0, -1), repl, posix) == RestText(p, true, t, mb, 0, -1, repl, posix)
    ensures Count(GsubPieces(p, true, t, mb, 0, -1)) == RestCount(p, true, t, mb, 0, -1)
  {
  }

  // ----- what the replaced string is -----

  /** Replacing every match by itself gives the string back. */
  lemma {:induction false} RestIdentity(p: Re, hat: bool, t: seq<nat>, mb: bool, from: nat, noempty: int, posix: bool)
    requires from <= |t|
    ensures RestText(p, hat, t, mb, from, noempty, [AMPERSAND], posix) == t[from..]
    decreases |t| - from
  {
    hide RestText, RestCount, Expand;
    var f := Find(p, hat, t, mb, from);
    if f.Nothing? {
      RestNothing(p, hat, t, mb, from, noempty, [AMPERSAND], posix);
    } else if f.beg < f.end {
      RestMatch(p, hat, t, mb, from, noempty, f.beg, f.end, [AMPERSAND], posix);
      ExpandAmpersand(posix, t[f.beg..f.end]);
      RestIdentity(p, false, t, mb, f.end, f.end, posix);
      assert t[from..f.beg] + t[f.beg..f.end] + t[f.end..] == t[from..];
    } else {
      RestEmpty(p, hat, t, mb, from, noempty, f.beg, [AMPERSAND], posix);
      ExpandAmpersand(posix, []);
      if f.beg < |t| {
        var next := After(t, mb, f.beg);
        RestIdentity(p, false, t, mb, next, noempty, posix);
        assert t[from..f.beg] + [] + (t[f.beg..next] + t[next..]) == t[from..];
      }
    }
  }

  lemma {:induction false} AmpersandKeeps(ps: seq<Piece>, posix: bool)
    ensures Replaced(ps, [AMPERSAND], posix) == Original(ps)
  {
    if ps != [] {
      ExpandAmpersand(posix, ps[0].text);
      AmpersandKeeps(ps[1..], posix);
    }
  }

  /**
   No byte of the source is lost or moved: the pieces put together are the source.  So replacing every
   match by itself changes nothing, empty matches included.
   */
  lemma AmpersandIdentity(p: Re, t: seq<nat>, mb: bool, subop: Subop, posix: bool)
    ensures Original(Pieces(p, t, mb, subop)) == t
    ensures Replaced(Pieces(p, t, mb, subop), [AMPERSAND], posix) == t
  {
    hide Replaced, Original, SubPieces, GsubPieces;
    AmpersandKeeps(Pieces(p, t, mb, subop), posix);
    if subop.SUB? {
      SubParts(p, t, mb, [], false);
    } else {
      RestAll(p, t, mb, [AMPERSAND], posix);
      RestIdentity(p, true, t, mb, 0, -1, posix);
      assert t[0..] == t;
    }
  }

  /** The string changes only if something matches: with no match the pieces are the string itself. */
  lemma NothingToReplace(p: Re, t: seq<nat>, mb: bool, subop: Subop, repl: seq<nat>, posix: bool)
    ensures Count(Pieces(p, t, mb, subop)) == 0 <==> NoMatch(p, true, t, mb, 0)
    ensures NoMatch(p, true, t, mb, 0) ==> Replaced(Pieces(p, t, mb, subop), repl, posix) == t
  {
    hide Replaced, Count, Expand;
    SubParts(p, t, mb, repl, posix);
    RestAll(p, t, mb, repl, posix);
    FirstMatch(p, t, mb);
    var f := Find(p, true, t, mb, 0);
    if f.Nothing? {
      RestNothing(p, true, t, mb, 0, -1, repl, posix);
    } else if f.beg < f.end {
      RestMatch(p, true, t, mb, 0, -1, f.beg, f.end, repl, posix);
    } else {
      RestEmpty(p, true, t, mb, 0, -1, f.beg, repl, posix);
    }
  }

  lemma {:induction false} LeastStart(p: Re, t: seq<nat>, mb: bool, b: nat) returns (i: nat)
    requires b <= |t| && Boundary(t, mb, 0, b) && !NoMatchAt(p, b == 0, t, mb, b)
    ensures i <= |t| && Boundary(t, mb, 0, i) && !NoMatchAt(p, i == 0, t, mb, i)
    ensures forall a: nat :: a < i && Boundary(t, mb, 0, a) ==> NoMatchAt(p, a == 0, t, mb, a)
  {
    hide Boundary, NoMatchAt;
    if a: nat :| a < b && Boundary(t, mb, 0, a) && !NoMatchAt(p, a == 0, t, mb, a) {
      i := LeastStart(p, t, mb, a);
    } else {
      i := b;
    }
  }

  lemma {:induction false} LongestEnd(p: Re, hat: bool, t: seq<nat>, mb: bool, i: nat, k: nat) returns (j: nat)
    requires i <= |t| && Occurs(p, hat, t, mb, i, k)
    ensures Occurs(p, hat, t, mb, i, j) && NoLonger(p, hat, t, mb, i, j)
    decreases |t| - k
  {
    hide MatchesAt, Boundary, Word;
    if k': nat :| k' > k && Occurs(p, hat, t, mb, i, k') {
      BoundaryInside(t, mb, i, k');
      j := LongestEnd(p, hat, t, mb, i, k');
    } else {
      j := k;
    }
  }

  /** There is a leftmost longest match exactly when there is a match. */
  lemma FirstMatch(p: Re, t: seq<nat>, mb: bool)
    ensures Find(p, true, t, mb, 0).Nothing? <==> NoMatch(p, true, t, mb, 0)
  {
    if NoMatch(p, true, t, mb, 0) {
      FindNothing(p, true, t, mb, 0);
    } else {
      var b: nat :| b <= |t| && Boundary(t, mb, 0, b) && !NoMatchAt(p, b == 0, t, mb, b);
      var i := LeastStart(p, t, mb, b);
      var k: nat :| Occurs(p, i == 0, t, mb, i, k);
      var j := LongestEnd(p, i == 0, t, mb, i, k);
      assert LeftmostLongest(p, true, t, mb, 0, i, j);
      FindIs(p, true, t, mb, 0, i, j);
    }
  }
}
