/**
 awk's matchers over the lazily built automaton, against the language of the expression.
 */
module RegexMatch {
  import opened RegexTree
  import opened RegexAutomaton
  import opened RegexBuild
  import opened RegexDfa
  import opened Utf8Text

  // ----- runs -----

  lemma {:induction false} RunAppend(root: Re, accept: nat, s: set<nat>, u: seq<int>, v: seq<int>)
    requires Numbered(root, 0)
    ensures Run(root, accept, s, u + v) == Run(root, accept, Run(root, accept, s, u), v)
    decreases |u|
  {
    if u == [] {
      assert u + v == v;
    } else {
      assert (u + v)[0] == u[0] && (u + v)[1..] == u[1..] + v;
      RunAppend(root, accept, Step(root, accept, s, u[0]), u[1..], v);
    }
  }

  lemma {:induction false} RunDead(root: Re, accept: nat, w: seq<int>)
    requires Numbered(root, 0)
    ensures Run(root, accept, {}, w) == {}
    decreases |w|
  {
    if w != [] {
      assert Step(root, accept, {}, w[0]) == {};
      RunDead(root, accept, w[1..]);
    }
  }

  // ----- what a match is -----

  /**
   The expression matches `w`: as it is, past the beginning of the text when `hat`, and up to the end
   of the text when `end`.
   */
  ghost predicate MatchesAt(p: Re, hat: bool, w: seq<int>, end: bool) {
    || Matches(p, w)
    || (hat && Matches(p, [HAT] + w))
    || (end && Matches(p, w + [END]))
    || (hat && end && Matches(p, [HAT] + (w + [END])))
  }

  /** The expression matches the text from `i` to `j`. */
  ghost predicate Occurs(p: Re, hat: bool, t: seq<nat>, mb: bool, i: nat, j: nat)
    requires i <= |t|
  {
    Boundary(t, mb, i, j) && MatchesAt(p, hat, Word(t, mb, i, j), j == |t|)
  }

  /** The match a search from `from` is to find: leftmost, and the longest there. */
  ghost predicate LeftmostLongest(p: Re, hat: bool, t: seq<nat>, mb: bool, from: nat, i: nat, j: nat)
    requires from <= |t| && i <= |t|
  {
    && Boundary(t, mb, from, i) && Occurs(p, hat && i == from, t, mb, i, j)
    && NoLonger(p, hat && i == from, t, mb, i, j)
    && (forall b: nat :: from <= b < i && Boundary(t, mb, from, b) ==> NoMatchAt(p, hat && b == from, t, mb, b))
  }

  ghost predicate NoLonger(p: Re, hat: bool, t: seq<nat>, mb: bool, i: nat, j: nat)
    requires i <= |t|
  {
    forall k: nat :: Occurs(p, hat, t, mb, i, k) ==> k <= j
  }

  ghost predicate NoMatchAt(p: Re, hat: bool, t: seq<nat>, mb: bool, i: nat)
    requires i <= |t|
  {
    forall j: nat :: !Occurs(p, hat, t, mb, i, j)
  }

  ghost predicate NoMatch(p: Re, hat: bool, t: seq<nat>, mb: bool, from: nat)
    requires from <= |t|
  {
    forall b: nat :: b <= |t| && Boundary(t, mb, from, b) ==> NoMatchAt(p, hat && b == from, t, mb, b)
  }

  /** From the state set of a beginning, FINAL is reached with or without the end of the text. */
  ghost predicate Hits(root: Re, s: set<nat>, t: seq<nat>, mb: bool, i: nat, j: nat)
    requires Numbered(root, 0) && i <= |t|
  {
    && Boundary(t, mb, i, j)
    && var r := Run(root, Size(root), s, Word(t, mb, i, j));
       Size(root) in r || (j == |t| && Size(root) in Step(root, Size(root), r, END))
  }

  lemma HitsOccurs(p: Re, hat: bool, t: seq<nat>, mb: bool, i: nat, j: nat)
    requires Numbered(p, 1) && i <= |t|
    ensures Hits(Whole(p), if hat then HatBody(p) else Body(p), t, mb, i, j) <==> Occurs(p, hat, t, mb, i, j)
  {
    hide Run, Matches, Step, Body, HatBody, Accepts, Whole;
    var s := if hat then HatBody(p) else Body(p);
    WholeAccept(p);
    if Boundary(t, mb, i, j) {
      var w := Word(t, mb, i, j);
      RunAppend(Whole(p), Accept(p), s, w, [END]);
      OneStep(Whole(p), Accept(p), Run(Whole(p), Accept(p), s, w), END);
      StartAccepts(p, hat, w);
      StartAccepts(p, hat, w + [END]);
    }
  }

  lemma OneStep(root: Re, accept: nat, s: set<nat>, c: int)
    requires Numbered(root, 0)
    ensures Run(root, accept, s, [c]) == Step(root, accept, s, c)
  {
    assert [c][1..] == [];
  }

  lemma StartAccepts(p: Re, hat: bool, w: seq<int>)
    requires Numbered(p, 1)
    ensures Accept(p) in Run(Whole(p), Accept(p), if hat then HatBody(p) else Body(p), w) <==>
            Matches(p, w) || (hat && Matches(p, [HAT] + w))
  {
    hide Run, Matches, Step, Body, HatBody, Accepts;
    RunAccepts(Whole(p), Accept(p), if hat then HatBody(p) else Body(p), w);
    if hat { HatBodyAccepts(p, w); } else { BodyAccepts(p, w); }
  }

  // ----- the matchers -----

  /** A transition, from the table when it is there. */
  method Goto(f: Fa, s: nat, c: nat) returns (to: nat)
    requires f.Valid() && 1 <= s <= f.curstat
    modifies f`posns, f`out, f`gototab, f`curstat, f.w`setcnt, f.w.setvec
    ensures f.Valid() && 1 <= to <= f.curstat && old(f.curstat) <= f.curstat
    ensures f.Leaves(to) == Step(f.root, Size(f.root), old(f.Leaves(s)), c)
    ensures old(f.posns) <= f.posns
  {
    hide Machine, MemoOk, TableOk, Step;
    StateFacts(f.root, f.posns, f.out, f.gototab, s);
    var ns := GetGototab(f.gototab[s], c);
    if ns != 0 {
      Remembered(f.root, f.posns, f.out, f.gototab, s, c);
      to := ns;
    } else {
      to := f.Cgoto(s, c);
    }
  }

  lemma Remembered(root: Re, posns: seq<seq<nat>>, out: seq<bool>, tabs: seq<seq<Entry>>, s: nat, c: nat)
    requires Machine(root, posns, out, tabs) && 1 <= s < |posns|
    ensures var to := Lookup(tabs[s], c);
            to != 0 ==> to < |posns| && Elems(posns[to]) == Step(root, Size(root), Elems(posns[s]), c)
  {
    assert MemoOk(root, posns, tabs[s], s);
  }

  lemma OutIs(f: Fa, s: nat)
    requires f.Valid() && 1 <= s <= f.curstat
    ensures |f.out| == f.curstat + 1 && (f.out[s] <==> Size(f.root) in f.Leaves(s))
    ensures f.Leaves(1) == {}
  {
    hide MemoOk, TableOk;
    StateFacts(f.root, f.posns, f.out, f.gototab, s);
  }

  /** What the scan from `p` knows at `q`: the longest match ending before `q`. */
  ghost predicate Longest(root: Re, s0: set<nat>, t: seq<nat>, mb: bool, p: nat, q: nat, patlen: int)
    requires Numbered(root, 0) && p <= |t|
  {
    && (patlen >= 0 ==> Hits(root, s0, t, mb, p, p + patlen))
    && (forall j: nat :: j < q && Hits(root, s0, t, mb, p, j) ==> j <= p + patlen)
  }

  /** A dead state ends the scan: nothing ends after it. */
  lemma DeadEnd(root: Re, s0: set<nat>, t: seq<nat>, mb: bool, p: nat, q: nat, j: nat)
    requires Numbered(root, 0) && p <= |t| && Boundary(t, mb, p, q) && q <= |t|
    requires Step(root, Size(root), Run(root, Size(root), s0, Word(t, mb, p, q)), U8Rune(t, q, mb).rune) == {}
    requires q < j
    ensures !Hits(root, s0, t, mb, p, j)
  {
    hide Step;
    if Boundary(t, mb, p, j) {
      var accept := Size(root);
      BoundarySplit(t, mb, p, q, j);
      var u, v := Word(t, mb, p, q), Word(t, mb, q, j);
      RunAppend(root, accept, s0, u, v);
      RunDead(root, accept, v[1..]);
      OneStep(root, accept, {}, END);
      RunDead(root, accept, [END]);
    }
  }

  lemma Advance(root: Re, s0: set<nat>, t: seq<nat>, mb: bool, p: nat, q: nat)
    requires Numbered(root, 0) && p <= |t| && Boundary(t, mb, p, q) && q < |t|
    ensures var q' := After(t, mb, q);
            && Boundary(t, mb, p, q')
            && Run(root, Size(root), s0, Word(t, mb, p, q')) ==
               Step(root, Size(root), Run(root, Size(root), s0, Word(t, mb, p, q)), U8Rune(t, q, mb).rune)
            && forall j: nat :: q < j < q' ==> !Hits(root, s0, t, mb, p, j)
  {
    hide Step;
    var u, c := Word(t, mb, p, q), U8Rune(t, q, mb).rune;
    BoundaryNext(t, mb, p, q);
    RunAppend(root, Size(root), s0, u, [c]);
    OneStep(root, Size(root), Run(root, Size(root), s0, u), c);
    forall j: nat | q < j < After(t, mb, q) ensures !Hits(root, s0, t, mb, p, j) {
      if Boundary(t, mb, p, j) {
        BoundaryGap(t, mb, p, q, j);
      }
    }
  }

  /** At the end of the text FINAL may be reached before or after reading the end. */
  lemma AtEnd(root: Re, s0: set<nat>, t: seq<nat>, mb: bool, p: nat)
    requires Numbered(root, 0) && p <= |t| && Boundary(t, mb, p, |t|)
    ensures var r := Run(root, Size(root), s0, Word(t, mb, p, |t|));
            Hits(root, s0, t, mb, p, |t|) <==> Size(root) in r || Size(root) in Step(root, Size(root), r, END)
    ensures forall j: nat :: Hits(root, s0, t, mb, p, j) ==> j <= |t|
  {
    forall j: nat | Hits(root, s0, t, mb, p, j) ensures j <= |t| {
      BoundaryInside(t, mb, p, j);
    }
  }

  lemma Begin(root: Re, s0: set<nat>, t: seq<nat>, mb: bool, p: nat)
    requires Numbered(root, 0) && p <= |t|
    ensures Boundary(t, mb, p, p) && Run(root, Size(root), s0, Word(t, mb, p, p)) == s0
  {
  }

  /** When the next rune leads nowhere, only what has been read so far can be a match here. */
  lemma DeadHere(root: Re, s0: set<nat>, t: seq<nat>, mb: bool, p: nat, q: nat)
    requires Numbered(root, 0) && p <= |t| && Boundary(t, mb, p, q) && q <= |t|
    requires Step(root, Size(root), Run(root, Size(root), s0, Word(t, mb, p, q)), U8Rune(t, q, mb).rune) == {}
    ensures Hits(root, s0, t, mb, p, q) <==> Size(root) in Run(root, Size(root), s0, Word(t, mb, p, q))
  {
  }

  /** Is there a match ending at `q`, the end of the text not yet read? */
  lemma HereBefore(root: Re, s0: set<nat>, t: seq<nat>, mb: bool, p: nat, q: nat)
    requires Numbered(root, 0) && p <= |t| && Boundary(t, mb, p, q)
    ensures var r := Run(root, Size(root), s0, Word(t, mb, p, q));
            && p <= q <= |t|
            && (Size(root) in r ==> Hits(root, s0, t, mb, p, q))
            && (q < |t| && Size(root) !in r ==> !Hits(root, s0, t, mb, p, q))
  {
    BoundaryInside(t, mb, p, q);
  }

  /** The inner loop of `pmatch`: the longest match from `p`, or -1. */
  method Scan(f: Fa, t: seq<nat>, mb: bool, p: nat, s0: nat) returns (patlen: int)
    requires f.Valid() && Numbered(f.root, 0) && p <= |t| && 1 <= s0 <= f.curstat
    modifies f`posns, f`out, f`gototab, f`curstat, f.w`setcnt, f.w.setvec
    ensures f.Valid() && old(f.posns) <= f.posns
    ensures patlen >= -1 && Longest(f.root, old(f.Leaves(s0)), t, mb, p, |t| + 1, patlen)
  {
    hide Machine, MemoOk, TableOk, Step, Run, Hits, Boundary, Word;
    ghost var start, root := f.Leaves(s0), f.root;
    var q, s := p, s0;
    patlen := -1;
    assert Boundary(t, mb, p, p) && Run(root, Size(root), start, Word(t, mb, p, p)) == start by { Begin(root, start, t, mb, p); }
    while true
      invariant f.Valid() && old(f.posns) <= f.posns && 1 <= s <= f.curstat
      invariant Boundary(t, mb, p, q) && q <= |t|
      invariant f.Leaves(s) == Run(root, Size(root), start, Word(t, mb, p, q))
      invariant patlen >= -1 && Longest(root, start, t, mb, p, q, patlen)
      decreases |t| - q
    {
      OutIs(f, s);
      HereBefore(root, start, t, mb, p, q);
      if f.out[s] {
        patlen := q - p;
      }
      var read := U8Rune(t, q, mb);
      s := Goto(f, s, read.rune);
      OutIs(f, s);
      if s == 1 {
        forall j: nat | j > q ensures !Hits(root, start, t, mb, p, j) {
          DeadEnd(root, start, t, mb, p, q, j);
        }
        DeadHere(root, start, t, mb, p, q);
        return;
      }
      if q == |t| {
        AtEnd(root, start, t, mb, p);
        break;
      }
      Advance(root, start, t, mb, p, q);
      q := q + read.len;
    }
    q := q + 1;
    if f.out[s] {
      patlen := q - p - 1;
    }
  }

  /** The scan's answer in terms of the expression. */
  lemma ScanMeans(p: Re, hat: bool, t: seq<nat>, mb: bool, i: nat, patlen: int)
    requires Numbered(p, 1) && i <= |t| && patlen >= -1
    requires Longest(Whole(p), if hat then HatBody(p) else Body(p), t, mb, i, |t| + 1, patlen)
    ensures patlen >= 0 ==> Occurs(p, hat, t, mb, i, i + patlen) && NoLonger(p, hat, t, mb, i, i + patlen)
    ensures patlen < 0 ==> NoMatchAt(p, hat, t, mb, i)
  {
    hide Body, HatBody, MatchesAt, Word, Run, Step;
    forall j: nat ensures Hits(Whole(p), if hat then HatBody(p) else Body(p), t, mb, i, j) <==> Occurs(p, hat, t, mb, i, j) {
      HitsOccurs(p, hat, t, mb, i, j);
    }
    forall j: nat | Occurs(p, hat, t, mb, i, j) ensures i <= j <= |t| {
      BoundaryInside(t, mb, i, j);
    }
  }

  /**
   Search from `from`.  `hat` says whether the automaton is in its state for the beginning of a text,
   where a `^` may match, or has been set to state 2.
   */
  method Pmatch(f: Fa, t: seq<nat>, mb: bool, from: nat, ghost hat: bool) returns (found: bool, patbeg: nat, patlen: int)
    requires f.Ready() && f.anchor && from <= |t|
    requires f.Leaves(f.initstat) == if hat then HatBody(f.body) else Body(f.body)
    modifies f`posns, f`out, f`gototab, f`curstat, f.w`setcnt, f.w.setvec
    ensures f.Ready() && old(f.posns) <= f.posns
    ensures found ==> patlen >= 0 && patbeg <= |t| && LeftmostLongest(f.body, hat, t, mb, from, patbeg, patbeg + patlen)
    ensures !found ==> patlen == -1 && patbeg == from && NoMatch(f.body, hat, t, mb, from)
  {
    hide Machine, MemoOk, TableOk, Boundary, Body, HatBody, Longest, Whole, NoMatchAt;
    WholeAccept(f.body);
    MachineLength(f.root, f.posns, f.out, f.gototab);
    EndOfSearch(t, mb, from);
    var p, s := from, f.initstat;
    patbeg, patlen := from, -1;
    assert Boundary(t, mb, from, from) by { Begin(f.root, {}, t, mb, from); }
    while true
      invariant f.Ready() && 3 <= |old(f.posns)| && old(f.posns) <= f.posns && 1 <= s <= f.curstat
      invariant from <= p <= |t| && Boundary(t, mb, from, p) && patlen == -1 && patbeg == from
      invariant f.Leaves(s) == if hat && p == from then HatBody(f.body) else Body(f.body)
      invariant forall b: nat :: b < p && Boundary(t, mb, from, b) ==> NoMatchAt(f.body, hat && b == from, t, mb, b)
      decreases |t| - p
    {
      patlen := Scan(f, t, mb, p, s);
      assert f.Ready();
      ScanMeans(f.body, hat && p == from, t, mb, p, patlen);
      if patlen >= 0 {
        patbeg := p;
        return true, patbeg, patlen;
      }
      s := 2;
      if p == |t| {
        break;
      }
      NextStart(t, mb, from, p);
      p := p + U8Rune(t, p, mb).len;
    }
    found := false;
  }

  lemma EndOfSearch(t: seq<nat>, mb: bool, from: nat)
    requires from <= |t|
    ensures forall b: nat :: Boundary(t, mb, from, b) ==> from <= b <= |t|
  {
    forall b: nat | Boundary(t, mb, from, b) ensures from <= b <= |t| {
      BoundaryInside(t, mb, from, b);
    }
  }

  lemma NextStart(t: seq<nat>, mb: bool, from: nat, p: nat)
    requires from <= |t| && Boundary(t, mb, from, p) && p < |t|
    ensures Boundary(t, mb, from, After(t, mb, p))
    ensures forall b: nat :: b < After(t, mb, p) && Boundary(t, mb, from, b) ==> b <= p
    ensures from <= p
  {
    BoundaryInside(t, mb, from, p);
    BoundaryNext(t, mb, from, p);
    forall b: nat | b < After(t, mb, p) && Boundary(t, mb, from, b) ensures b <= p {
      if b > p {
        BoundaryGap(t, mb, from, p, b);
      }
    }
  }

  /** Numbering the leaves does not change what is found: `Pmatch` answers for the tree as it was parsed. */
  lemma ForTheTree(p: Re, hat: bool, t: seq<nat>, mb: bool, i: nat, j: nat)
    requires i <= |t|
    ensures Occurs(Renumber(p, 1), hat, t, mb, i, j) <==> Occurs(p, hat, t, mb, i, j)
  {
    hide Matches;
    if Boundary(t, mb, i, j) {
      var w := Word(t, mb, i, j);
      RenumberMatches(p, 1, w);
      RenumberMatches(p, 1, [HAT] + w);
      RenumberMatches(p, 1, w + [END]);
      RenumberMatches(p, 1, [HAT] + (w + [END]));
    }
  }

  // ----- the unanchored matcher -----

  /** What `match` reads: the runes of the text and its end. */
  function Input(t: seq<nat>, mb: bool): seq<int> {
    Runes(t, mb) + [END]
  }

  /** FINAL is reached after the first `k` runes of the input. */
  ghost predicate Final(root: Re, s: set<nat>, w: seq<int>, k: nat)
    requires Numbered(root, 0) && k <= |w|
  {
    Size(root) in Run(root, Size(root), s, w[..k])
  }

  /** Has a match ended yet?  The automaton is not anchored, so a match may start anywhere. */
  method Match(f: Fa, t: seq<nat>, mb: bool) returns (b: bool)
    requires f.Ready() && !f.anchor && f.Leaves(f.initstat) == HatOrigin(f.body, false)
    modifies f`posns, f`out, f`gototab, f`curstat, f.w`setcnt, f.w.setvec
    ensures f.Ready() && f.Leaves(f.initstat) == HatOrigin(f.body, false) && old(f.posns) <= f.posns
    ensures b <==> exists k: nat :: k <= |Input(t, mb)| && Final(f.root, HatOrigin(f.body, false), Input(t, mb), k)
  {
    hide Machine, MemoOk, TableOk, Boundary, HatOrigin, Origin, Step, Run, Word, Whole;
    ghost var root, start, w, n := f.root, f.Leaves(f.initstat), Input(t, mb), 0;
    MachineLength(f.root, f.posns, f.out, f.gototab);
    var s, p := f.initstat, 0;
    OutIs(f, s);
    NoneRead(root, start, t, mb);
    if f.out[s] {
      return true;
    }
    while true
      invariant f.Ready() && 3 <= |old(f.posns)| && old(f.posns) <= f.posns && 1 <= s <= f.curstat
      invariant p <= |t| && Boundary(t, mb, 0, p) && n <= |w| && Word(t, mb, 0, p) == w[..n]
      invariant f.Leaves(s) == Run(root, Size(root), start, w[..n])
      invariant forall k: nat :: k <= n ==> !Final(root, start, w, k)
      decreases |t| - p
    {
      var read := U8Rune(t, p, mb);
      ReadOne(root, start, t, mb, p, n);
      s := Goto(f, s, read.rune);
      OutIs(f, s);
      if f.out[s] {
        assert Final(root, start, w, n + 1);
        return true;
      }
      if p == |t| {
        break;
      }
      p := p + read.len;
      n := n + 1;
    }
    b := false;
  }

  lemma NoneRead(root: Re, s: set<nat>, t: seq<nat>, mb: bool)
    requires Numbered(root, 0)
    ensures Boundary(t, mb, 0, 0) && Word(t, mb, 0, 0) == Input(t, mb)[..0] == []
    ensures Run(root, Size(root), s, Input(t, mb)[..0]) == s && (Final(root, s, Input(t, mb), 0) <==> Size(root) in s)
  {
  }

  lemma ReadOne(root: Re, s: set<nat>, t: seq<nat>, mb: bool, p: nat, n: nat)
    requires Numbered(root, 0) && p <= |t| && Boundary(t, mb, 0, p) && n <= |Input(t, mb)| && Word(t, mb, 0, p) == Input(t, mb)[..n]
    ensures var w := Input(t, mb);
            && n < |w|
            && Run(root, Size(root), s, w[..n + 1]) ==
               Step(root, Size(root), Run(root, Size(root), s, w[..n]), U8Rune(t, p, mb).rune)
            && (p < |t| ==> Boundary(t, mb, 0, After(t, mb, p)) && Word(t, mb, 0, After(t, mb, p)) == w[..n + 1])
            && (p == |t| ==> n + 1 == |w|)
  {
    hide Run, Step;
    EndIsBoundary(t, mb, 0);
    EndIsBoundary(t, mb, p);
    BoundarySplit(t, mb, 0, p, |t|);
    var w, c, rest := Input(t, mb), U8Rune(t, p, mb).rune, Word(t, mb, p, |t|);
    assert w == w[..n] + rest + [END];
    assert w[n] == c;
    assert w[..n + 1] == w[..n] + [c];
    RunAppend(root, Size(root), s, w[..n], [c]);
    OneStep(root, Size(root), Run(root, Size(root), s, w[..n]), c);
    if p < |t| {
      BoundaryNext(t, mb, 0, p);
    }
  }

  // ----- match and pmatch -----

  /** Some stretch of the beginning, the runes and the end of the text matches; no end is skipped to get there. */
  ghost predicate Stretch(p: Re, full: seq<int>, j: nat, k: nat) {
    j <= k <= |full| && NoEnd(full[..j]) && Matches(p, full[j..k])
  }

  ghost predicate EndsAt(p: Re, full: seq<int>, k: nat) {
    exists j: nat :: Stretch(p, full, j, k)
  }

  lemma FinalStretch(p: Re, w: seq<int>, k: nat, k': nat)
    requires Numbered(p, 1) && k < k' == k + 1 <= |w| + 1
    ensures Final(Whole(p), HatOrigin(p, false), w, k) <==> EndsAt(p, [HAT] + w, k')
  {
    hide Run, Final, Matches, NoEnd;
    var full, u := [HAT] + w, [HAT] + w[..k];
    assert u == full[..k'];
    FinalMeans(p, w, k);
    forall j: nat | j <= k' ensures u[..j] == full[..j] && u[j..] == full[j..k'] {}
    if j: nat :| j <= |u| && NoEnd(u[..j]) && Matches(p, u[j..]) {
      assert Stretch(p, full, j, k');
    }
  }

  /** `match` finds exactly the stretches of the text that match. */
  lemma MatchMeans(p: Re, w: seq<int>)
    requires Numbered(p, 1)
    ensures (exists k: nat :: k <= |w| && Final(Whole(p), HatOrigin(p, false), w, k)) <==>
            exists k: nat :: EndsAt(p, [HAT] + w, k)
  {
    hide Final, Matches, NoEnd;
    var full := [HAT] + w;
    if k: nat :| k <= |w| && Final(Whole(p), HatOrigin(p, false), w, k) {
      FinalStretch(p, w, k, k + 1);
    }
    if k: nat :| EndsAt(p, full, k) {
      if k == 0 {
        var j: nat :| Stretch(p, full, j, 0);
        assert full[1..1] == full[0..0];
        HatNoEnd(full[..1]);
        assert Stretch(p, full, 1, 1);
        FinalStretch(p, w, 0, 1);
      } else {
        FinalStretch(p, w, k - 1, k);
      }
    }
  }

  lemma HatNoEnd(w: seq<int>)
    requires w == [HAT]
    ensures NoEnd(w)
  {
  }

  lemma FinalMeans(p: Re, w: seq<int>, k: nat)
    requires Numbered(p, 1) && k <= |w|
    ensures var u := [HAT] + w[..k];
            Final(Whole(p), HatOrigin(p, false), w, k) <==>
            exists j: nat :: j <= |u| && NoEnd(u[..j]) && Matches(p, u[j..])
  {
    hide Run, Matches, Step, Body, HatBody, Accepts, NoEnd;
    var root, accept, s := Whole(p), Accept(p), {0} + Body(p);
    WholeAccept(p);
    HatStep(p);
    RunAccepts(root, accept, Step(root, accept, s, HAT), w[..k]);
    StepAccepts(root, accept, s, HAT, w[..k]);
    InitialAccepts(p, [HAT] + w[..k]);
  }

  lemma Slices(u: seq<int>, w: seq<int>, v: seq<int>)
    ensures var (full, a, b) := ([HAT] + (u + w + v + [END]), 1 + |u|, 1 + |u| + |w|);
            && full[..a] == [HAT] + u && full[a..b] == w
            && (u == [] ==> full[..0] == [] && full[0..b] == [HAT] + w)
            && (v == [] ==> full[a..b + 1] == w + [END])
            && (u == [] && v == [] ==> full[0..b + 1] == [HAT] + (w + [END]))
  {
    var full, a, b := [HAT] + (u + w + v + [END]), 1 + |u|, 1 + |u| + |w|;
    assert full == ([HAT] + u) + w + (v + [END]);
  }

  lemma SplitStretch(p: Re, u: seq<int>, w: seq<int>, v: seq<int>)
    requires NoEnd(u) && MatchesAt(p, u == [], w, v == [])
    ensures exists k: nat :: EndsAt(p, [HAT] + (u + w + v + [END]), k)
  {
    hide Matches;
    Slices(u, w, v);
    var full, a, b := [HAT] + (u + w + v + [END]), 1 + |u|, 1 + |u| + |w|;
    assert NoEnd(full[..a]);
    if Matches(p, w) {
      assert Stretch(p, full, a, b);
      assert EndsAt(p, full, b);
    } else if u == [] && Matches(p, [HAT] + w) {
      assert Stretch(p, full, 0, b);
      assert EndsAt(p, full, b);
    } else if v == [] && Matches(p, w + [END]) {
      assert Stretch(p, full, a, b + 1);
      assert EndsAt(p, full, b + 1);
    } else {
      assert Stretch(p, full, 0, b + 1);
      assert EndsAt(p, full, b + 1);
    }
  }

  lemma WordEmpty(t: seq<nat>, mb: bool, i: nat, j: nat)
    requires i <= |t| && Boundary(t, mb, i, j)
    ensures Word(t, mb, i, j) == [] <==> i == j
  {
  }

  /** A match starts somewhere with no end skipped to get there. */
  ghost predicate StartsBeforeEnd(p: Re, t: seq<nat>, mb: bool) {
    exists i: nat :: i <= |t| && Boundary(t, mb, 0, i) && NoEnd(Word(t, mb, 0, i)) && !NoMatchAt(p, i == 0, t, mb, i)
  }

  /** An occurrence found by `pmatch` is a stretch of the whole input, if no end is skipped before it. */
  lemma OccursStretch(p: Re, t: seq<nat>, mb: bool, i: nat, j: nat)
    requires i <= |t| && Boundary(t, mb, 0, i) && Occurs(p, i == 0, t, mb, i, j) && NoEnd(Word(t, mb, 0, i))
    ensures exists k: nat :: EndsAt(p, [HAT] + Input(t, mb), k)
  {
    hide MatchesAt, EndsAt, Boundary, Word;
    EndIsBoundary(t, mb, 0);
    BoundaryInside(t, mb, i, j);
    EndIsBoundary(t, mb, i);
    EndIsBoundary(t, mb, j);
    BoundarySplit(t, mb, 0, i, |t|);
    BoundarySplit(t, mb, i, j, |t|);
    WordEmpty(t, mb, 0, i);
    WordEmpty(t, mb, j, |t|);
    var u, w, v := Word(t, mb, 0, i), Word(t, mb, i, j), Word(t, mb, j, |t|);
    assert Runes(t, mb) == u + w + v;
    assert Input(t, mb) == u + w + v + [END];
    SplitStretch(p, u, w, v);
  }

  /** Where a stretch lies among the runes. */
  function FirstRune(j: nat): nat {
    if j == 0 then 0 else j - 1
  }

  function LastRune(n: nat, k: nat): nat
    requires k > 0
  {
    if k == n + 2 then n else k - 1
  }

  lemma FullSlice(runes: seq<int>, j: nat, k: nat)
    requires j < k <= |runes| + 2 && j <= |runes|
    ensures var (first, last) := (FirstRune(j), LastRune(|runes|, k));
            && first <= last <= |runes|
            && ([HAT] + (runes + [END]))[j..k] ==
               (if j == 0 then [HAT] else []) + (runes[first..last] + if k == |runes| + 2 then [END] else [])
  {
    var n, full := |runes|, [HAT] + (runes + [END]);
    if j == 0 {
      if k == n + 2 { assert full[j..k] == full; assert runes[0..n] == runes; }
    } else {
      if k == n + 2 { assert full[j..k] == runes[j - 1..] + [END]; }
    }
  }

  lemma MatchesFull(p: Re, hat: bool, w: seq<int>, end: bool, first: bool, last: bool)
    requires Matches(p, (if first then [HAT] else []) + (w + if last then [END] else []))
    requires (first ==> hat) && (last ==> end)
    ensures MatchesAt(p, hat, w, end)
  {
    hide Matches;
    assert w + [] == w && [] + w == w && [] + (w + [END]) == w + [END];
  }

  lemma MiddleMatches(p: Re, runes: seq<int>, j: nat, k: nat)
    requires Stretch(p, [HAT] + (runes + [END]), j, k) && j < k && j <= |runes|
    ensures var (first, last) := (FirstRune(j), LastRune(|runes|, k));
            && first <= last <= |runes| && NoEnd(runes[..first])
            && Matches(p, (if j == 0 then [HAT] else []) + (runes[first..last] + if k == |runes| + 2 then [END] else []))
  {
    hide Matches;
    FullSlice(runes, j, k);
    var full := [HAT] + (runes + [END]);
    assert forall x :: 0 <= x < FirstRune(j) ==> runes[x] == full[..j][x + 1];
  }

  lemma StretchMiddle(p: Re, t: seq<nat>, mb: bool, j: nat, k: nat)
    requires Stretch(p, [HAT] + Input(t, mb), j, k) && j < k && j <= |Runes(t, mb)|
    ensures StartsBeforeEnd(p, t, mb)
  {
    hide Matches, Boundary, Word, Runes, MatchesAt, Stretch, NoEnd;
    var runes := Runes(t, mb);
    MiddleMatches(p, runes, j, k);
    var first, last := FirstRune(j), LastRune(|runes|, k);
    EndIsBoundary(t, mb, 0);
    assert Word(t, mb, 0, |t|) == runes by { RunesAre(t, mb); }
    var b := OffsetOf(t, mb, 0, first);
    var e := OffsetOf(t, mb, 0, last);
    Ordered(t, mb, first, last, b, e);
    MatchesFull(p, b == 0, Word(t, mb, b, e), e == |t|, j == 0, k == |runes| + 2);
    assert Occurs(p, b == 0, t, mb, b, e);
    assert !NoMatchAt(p, b == 0, t, mb, b);
  }

  lemma RunesAre(t: seq<nat>, mb: bool)
    ensures Boundary(t, mb, 0, |t|) && Runes(t, mb) == Word(t, mb, 0, |t|)
  {
    EndIsBoundary(t, mb, 0);
  }

  /** A stretch of the input is an occurrence between two rune boundaries. */
  lemma StretchOccurs(p: Re, t: seq<nat>, mb: bool, j: nat, k: nat)
    requires Stretch(p, [HAT] + Input(t, mb), j, k)
    ensures StartsBeforeEnd(p, t, mb)
  {
    hide Matches, Runes;
    var full, n := [HAT] + Input(t, mb), |Runes(t, mb)|;
    if j == k {
      assert full[j..k] == [] == Word(t, mb, 0, 0);
      assert Occurs(p, true, t, mb, 0, 0);
      assert !NoMatchAt(p, true, t, mb, 0);
    } else if j == n + 1 {
      EndIsBoundary(t, mb, 0);
      RunesAre(t, mb);
      assert forall x :: 0 <= x < n ==> Runes(t, mb)[x] == full[..j][x + 1];
      assert full[j..k] == [] + [END] && Word(t, mb, |t|, |t|) == [];
      assert Occurs(p, |t| == 0, t, mb, |t|, |t|);
      assert !NoMatchAt(p, |t| == 0, t, mb, |t|);
    } else {
      StretchMiddle(p, t, mb, j, k);
    }
  }

  lemma Ordered(t: seq<nat>, mb: bool, first: nat, last: nat, b: nat, e: nat)
    requires b <= |t| && e <= |t| && Boundary(t, mb, 0, b) && Boundary(t, mb, 0, e)
    requires first <= last <= |Runes(t, mb)|
    requires Word(t, mb, 0, b) == Runes(t, mb)[..first] && Word(t, mb, 0, e) == Runes(t, mb)[..last]
    ensures b <= e && Boundary(t, mb, b, e) && Word(t, mb, b, e) == Runes(t, mb)[first..last]
    ensures first == 0 ==> b == 0
  {
    WordEmpty(t, mb, 0, b);
    if b > e {
      BoundarySplit(t, mb, 0, e, b);
      WordEmpty(t, mb, e, b);
    }
    BoundarySplit(t, mb, 0, b, e);
    var runes := Runes(t, mb);
    assert runes[..last] == runes[..first] + runes[first..last];
  }

  /**
   `match` answers yes exactly when some match starts no later than the first rune 0: it takes such a rune
   for the end of the text and does not look past it.
   */
  lemma MatchFinds(p: Re, t: seq<nat>, mb: bool)
    requires Numbered(p, 1)
    ensures (exists k: nat :: k <= |Input(t, mb)| && Final(Whole(p), HatOrigin(p, false), Input(t, mb), k)) <==>
            StartsBeforeEnd(p, t, mb)
  {
    hide Final, Matches, Occurs, NoEnd;
    MatchMeans(p, Input(t, mb));
    if k: nat :| EndsAt(p, [HAT] + Input(t, mb), k) {
      var j: nat :| Stretch(p, [HAT] + Input(t, mb), j, k);
      StretchOccurs(p, t, mb, j, k);
    }
    if i: nat :| i <= |t| && Boundary(t, mb, 0, i) && NoEnd(Word(t, mb, 0, i)) && !NoMatchAt(p, i == 0, t, mb, i) {
      var j: nat :| Occurs(p, i == 0, t, mb, i, j);
      OccursStretch(p, t, mb, i, j);
    }
  }

  /**
   So the two matchers part ways exactly on the texts where every match starts behind a rune 0 spelled in
   more than one byte; on a text without one they agree.
   */
  lemma MatchersAgree(p: Re, t: seq<nat>, mb: bool)
    requires Numbered(p, 1)
    ensures ((exists k: nat :: k <= |Input(t, mb)| && Final(Whole(p), HatOrigin(p, false), Input(t, mb), k)) <==>
             !NoMatch(p, true, t, mb, 0)) <==>
            (NoMatch(p, true, t, mb, 0) || StartsBeforeEnd(p, t, mb))
    ensures NoEnd(Runes(t, mb)) ==> NoMatch(p, true, t, mb, 0) || StartsBeforeEnd(p, t, mb)
  {
    hide Final, Matches, NoMatchAt, Runes;
    MatchFinds(p, t, mb);
    if b: nat :| NoEnd(Runes(t, mb)) && b <= |t| && Boundary(t, mb, 0, b) && !NoMatchAt(p, b == 0, t, mb, b) {
      RunesAre(t, mb);
      EndIsBoundary(t, mb, b);
      BoundarySplit(t, mb, 0, b, |t|);
      assert forall x :: 0 <= x < |Word(t, mb, 0, b)| ==> Word(t, mb, 0, b)[x] == Runes(t, mb)[x];
    }
  }

  /** The letter a behind an overlong zero: `pmatch` finds it and `match` does not. */
  lemma BehindZero()
    ensures var (p, t) := (Leaf(Char(0x61), 1), [0xC0, 0x80, 0x61]);
            && !NoMatch(p, true, t, true, 0)
            && !(exists k: nat :: k <= |Input(t, true)| && Final(Whole(p), HatOrigin(p, false), Input(t, true), k))
  {
    hide Matches, Final, NoEnd, MatchesAt;
    var (p, t) := (Leaf(Char(0x61), 1), [0xC0, 0x80, 0x61]);
    MatchFinds(p, t, true);
    ZeroRunes(t);
    assert Occurs(p, false, t, true, 2, 3) by { LetterAlone(); }
    assert !NoMatchAt(p, false, t, true, 2);
    forall i: nat | i <= |t| && Boundary(t, true, 0, i) && NoEnd(Word(t, true, 0, i)) ensures NoMatchAt(p, i == 0, t, true, i) {
      if i == 0 {
        forall j: nat ensures !Occurs(p, true, t, true, 0, j) {
          if Boundary(t, true, 0, j) {
            ZeroFirst(Word(t, true, 0, j));
          }
        }
      } else {
        EndInside(Word(t, true, 0, i));
      }
    }
  }

  lemma ZeroRunes(t: seq<nat>)
    requires t == [0xC0, 0x80, 0x61]
    ensures Boundary(t, true, 0, 2) && Boundary(t, true, 2, 3) && Word(t, true, 2, 3) == [0x61]
    ensures forall i: nat :: 0 < i <= |t| && Boundary(t, true, 0, i) ==> Word(t, true, 0, i) != [] && Word(t, true, 0, i)[0] == END
    ensures Word(t, true, 0, 0) == []
  {
    assert U8Rune(t, 0, true) == Read(0, 2) && U8Rune(t, 2, true) == Read(0x61, 1);
    forall i: nat | 0 < i <= |t| && Boundary(t, true, 0, i) ensures Word(t, true, 0, i) != [] && Word(t, true, 0, i)[0] == END {
      assert Word(t, true, 0, i) == [U8Rune(t, 0, true).rune] + Word(t, true, 2, i);
    }
    assert Word(t, true, 2, 3) == [0x61] + Word(t, true, 3, 3);
  }

  lemma EndInside(w: seq<int>)
    requires w != [] && w[0] == END
    ensures !NoEnd(w)
  {
  }

  lemma LetterAlone()
    ensures MatchesAt(Leaf(Char(0x61), 1), false, [0x61], true)
  {
  }

  lemma ZeroFirst(w: seq<int>)
    requires w == [] || w[0] == END
    ensures !MatchesAt(Leaf(Char(0x61), 1), true, w, true) && !MatchesAt(Leaf(Char(0x61), 1), true, w, false)
  {
    assert w != [] ==> w + [END] != [] && (w + [END])[0] == END;
    assert w == [] ==> w + [END] == [END];
  }
}
