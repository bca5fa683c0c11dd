/**
 The text `setmode` takes: which texts are modes, and what the list built for one does.
 */
module SymbolicMode {

  import A = Arithmetic
  import opened SetMode

  // ----- the grammar -----

  datatype Action = Action(op: char, perms: string)
  datatype Clause = Clause(who: string, actions: seq<Action>)

  predicate IsWho(c: char) {
    c == 'a' || c == 'u' || c == 'g' || c == 'o'
  }

  predicate IsOp(c: char) {
    c == '+' || c == '-' || c == '='
  }

  predicate IsCopy(c: char) {
    c == 'u' || c == 'g' || c == 'o'
  }

  predicate IsPerm(c: char) {
    c == 'r' || c == 's' || c == 't' || c == 'w' || c == 'X' || c == 'x' || IsCopy(c)
  }

  predicate GoodAction(a: Action) {
    IsOp(a.op) && forall k :: 0 <= k < |a.perms| ==> IsPerm(a.perms[k])
  }

  predicate GoodClause(c: Clause) {
    && (forall k :: 0 <= k < |c.who| ==> IsWho(c.who[k]))
    && c.actions != [] && forall a :: a in c.actions ==> GoodAction(a)
  }

  function ActionsText(l: seq<Action>): string {
    if l == [] then "" else [l[0].op] + l[0].perms + ActionsText(l[1..])
  }

  /** Clauses with commas between them. */
  function ModeText(cs: seq<Clause>): string {
    if cs == [] then ""
    else cs[0].who + ActionsText(cs[0].actions) + if |cs| == 1 then "" else [','] + ModeText(cs[1..])
  }

  // ----- the way setmode reads it -----

  /** How many characters at the front are of a kind. */
  function Span(kind: char -> bool, s: string): (n: nat)
    ensures n <= |s| && forall k :: 0 <= k < n ==> kind(s[k])
    ensures n < |s| ==> !kind(s[n])
  {
    if s == [] || !kind(s[0]) then 0 else 1 + Span(kind, s[1..])
  }

  datatype Actions = NoActions | Actions(list: seq<Action>, rest: string)
  datatype Clauses = NoClauses | Clauses(list: seq<Clause>)

  function ParseActions(s: string): (r: Actions)
    ensures r.Actions? ==> |r.rest| < |s| && (r.rest == [] || r.rest[0] == ',')
    decreases |s|
  {
    if s == [] || !IsOp(s[0]) then NoActions
    else
      var n := 1 + Span(IsPerm, s[1..]);
      var (a, rest) := (Action(s[0], s[1..n]), s[n..]);
      if rest == [] || rest[0] == ',' then Actions([a], rest)
      else
        match ParseActions(rest)
        case NoActions => NoActions
        case Actions(list, rest') => Actions([a] + list, rest')
  }

  function ParseMode(s: string): (r: Clauses)
    decreases |s|
  {
    var n := Span(IsWho, s);
    match ParseActions(s[n..])
    case NoActions => NoClauses
    case Actions(list, rest) =>
      if rest == [] then Clauses([Clause(s[..n], list)])
      else
        match ParseMode(rest[1..])
        case NoClauses => NoClauses
        case Clauses(cs) => Clauses([Clause(s[..n], list)] + cs)
  }

  lemma {:induction false} SpanIs(kind: char -> bool, a: string, b: string)
    requires forall k :: 0 <= k < |a| ==> kind(a[k])
    requires b == [] || !kind(b[0])
    ensures Span(kind, a + b) == |a|
  {
    if a == [] {
      assert a + b == b;
    } else {
      assert (a + b)[0] == a[0] && (a + b)[1..] == a[1..] + b;
      SpanIs(kind, a[1..], b);
    }
  }

  /** What is parsed with actions in front. */
  function Before(done: seq<Action>, r: Actions): Actions {
    if r.NoActions? then NoActions else Actions(done + r.list, r.rest)
  }

  function After(done: seq<Clause>, r: Clauses): Clauses {
    if r.NoClauses? then NoClauses else Clauses(done + r.list)
  }

  /** One action taken off the front. */
  lemma ParseStep(s: string, n: nat)
    requires s != [] && IsOp(s[0]) && n == 1 + Span(IsPerm, s[1..])
    ensures n <= |s| && GoodAction(Action(s[0], s[1..n]))
    ensures var (a, rest) := (Action(s[0], s[1..n]), s[n..]);
            ParseActions(s) == if rest == [] || rest[0] == ',' then Actions([a], rest) else Before([a], ParseActions(rest))
  {
    hide IsPerm, IsOp;
    var perms := s[1..n];
    forall k | 0 <= k < |perms| ensures IsPerm(perms[k]) {
      assert perms[k] == s[1..][k];
    }
  }

  lemma ParseOne(a: Action, rest: string)
    requires GoodAction(a) && (rest == [] || !IsPerm(rest[0]))
    ensures var s := [a.op] + a.perms + rest;
            ParseActions(s) == if rest == [] || rest[0] == ',' then Actions([a], rest) else Before([a], ParseActions(rest))
  {
    hide IsPerm, IsOp, ParseActions, Before;
    var s := [a.op] + a.perms + rest;
    assert s[1..] == a.perms + rest;
    SpanIs(IsPerm, a.perms, rest);
    ParseStep(s, 1 + |a.perms|);
    assert s[1..1 + |a.perms|] == a.perms && s[1 + |a.perms|..] == rest;
  }

  /** A clause taken off the front. */
  lemma ParseClause(who: string, s: string)
    requires (forall k :: 0 <= k < |who| ==> IsWho(who[k])) && (s == [] || !IsWho(s[0]))
    ensures var r := ParseActions(s);
            ParseMode(who + s) ==
            if r.NoActions? then NoClauses
            else if r.rest == [] then Clauses([Clause(who, r.list)])
            else After([Clause(who, r.list)], ParseMode(r.rest[1..]))
  {
    hide IsWho, ParseActions;
    SpanIs(IsWho, who, s);
    assert (who + s)[..|who|] == who && (who + s)[|who|..] == s;
  }

  lemma ActionsTextOf(a: Action, l: seq<Action>)
    ensures ActionsText([a] + l) == [a.op] + a.perms + ActionsText(l)
  {
    assert ([a] + l)[1..] == l;
  }

  lemma ActionsTextNone()
    ensures ActionsText([]) == []
  {
  }

  lemma ModeTextOf(c: Clause, cs: seq<Clause>)
    ensures ModeText([c] + cs) == c.who + (ActionsText(c.actions) + if cs == [] then "" else [','] + ModeText(cs))
  {
    hide ActionsText;
    assert ([c] + cs)[1..] == cs;
  }

  lemma TextBegins(l: seq<Action>, rest: string)
    requires l != []
    ensures |ActionsText(l) + rest| > 0 && (ActionsText(l) + rest)[0] == l[0].op
  {
    ActionsTextOf(l[0], l[1..]);
    assert l == [l[0]] + l[1..];
  }

  lemma {:induction false} ActionsBack(l: seq<Action>, rest: string)
    requires l != [] && forall a :: a in l ==> GoodAction(a)
    requires rest == [] || rest[0] == ','
    ensures ParseActions(ActionsText(l) + rest) == Actions(l, rest)
  {
    hide ActionsText, ParseActions;
    var (a, l', more) := (l[0], l[1..], ActionsText(l[1..]) + rest);
    assert a in l && l == [a] + l';
    ActionsTextOf(a, l');
    assert ActionsText(l) + rest == [a.op] + a.perms + more;
    if l' != [] {
      assert l[1] == l'[0] && l[1] in l;
      TextBegins(l', rest);
      ActionsBack(l', rest);
    } else {
      ActionsTextNone();
      assert more == rest;
    }
    ParseOne(a, more);
  }

  /** A text made by the grammar is read back as the clauses it was made of. */
  lemma {:induction false} TextParses(cs: seq<Clause>)
    requires cs != [] && forall c :: c in cs ==> GoodClause(c)
    ensures ParseMode(ModeText(cs)) == Clauses(cs)
  {
    hide ModeText, ParseMode, ActionsText, ParseActions;
    var (c, cs') := (cs[0], cs[1..]);
    assert c in cs && cs == [c] + cs';
    var rest := if cs' == [] then "" else [','] + ModeText(cs');
    ModeTextOf(c, cs');
    TextBegins(c.actions, rest);
    assert c.actions[0] in c.actions;
    ParseClause(c.who, ActionsText(c.actions) + rest);
    ActionsBack(c.actions, rest);
    if cs' != [] {
      assert rest[1..] == ModeText(cs');
      TextParses(cs');
    } else {
      assert cs == [c];
    }
  }

  lemma CutAction(s: string, n: nat)
    requires 1 <= n <= |s|
    ensures s == [s[0]] + s[1..n] + s[n..]
  {
  }

  lemma BeginsWithOp(s: string)
    requires ParseActions(s).Actions?
    ensures s != [] && IsOp(s[0])
  {
  }

  lemma {:induction false} ActionsRead(s: string)
    requires ParseActions(s).Actions?
    ensures var r := ParseActions(s);
            && r.list != [] && (forall a :: a in r.list ==> GoodAction(a))
            && ActionsText(r.list) + r.rest == s
    decreases |s|
  {
    hide IsPerm, IsOp, ActionsText, GoodAction, ParseActions, Span;
    BeginsWithOp(s);
    var n := 1 + Span(IsPerm, s[1..]);
    ParseStep(s, n);
    CutAction(s, n);
    var (a, rest) := (Action(s[0], s[1..n]), s[n..]);
    if rest == [] || rest[0] == ',' {
      ActionsTextOf(a, []);
      ActionsTextNone();
      assert [a] + [] == [a];
    } else {
      ActionsRead(rest);
      ActionsTextOf(a, ParseActions(rest).list);
    }
  }

  /** What is accepted is a text of the grammar. */
  lemma {:induction false} ParseIsText(s: string)
    requires ParseMode(s).Clauses?
    ensures var cs := ParseMode(s).list;
            cs != [] && (forall c :: c in cs ==> GoodClause(c)) && ModeText(cs) == s
    decreases |s|
  {
    hide IsWho, ParseActions, ActionsText, ModeText, GoodAction;
    var n := Span(IsWho, s);
    var (who, t) := (s[..n], s[n..]);
    assert s == who + t;
    ParseClause(who, t);
    ActionsRead(t);
    var r := ParseActions(t);
    var c := Clause(who, r.list);
    if r.rest == [] {
      ModeTextOf(c, []);
      assert [c] + [] == [c];
    } else {
      ParseIsText(r.rest[1..]);
      ModeTextOf(c, ParseMode(r.rest[1..]).list);
      assert r.rest == [','] + r.rest[1..];
    }
  }

  // ----- what the commands built for a text do -----

  function WhoBit(c: char): Mode {
    if c == 'a' then STANDARD_BITS
    else if c == 'u' then S_ISUID + S_IRWXU
    else if c == 'g' then S_ISGID + S_IRWXG
    else S_IRWXO
  }

  function WhoBits(who: string): Mode {
    if who == [] then {} else WhoBit(who[0]) + WhoBits(who[1..])
  }

  const READ: Mode := {8, 5, 2}
  const WRITE: Mode := {7, 4, 1}

  /** The registers of the loop over the permission letters. */
  datatype Letters = Letters(who: Mode, perm: Mode, permX: bool, equalDone: bool)

  /** Not the others alone: set-id and sticky bits count. */
  predicate Special(who: Mode) {
    who == {} || who - S_IRWXO != {}
  }

  function Letter(c: char, op: char, st: Letters): Letters {
    if c == 'r' then st.(perm := st.perm + READ)
    else if c == 's' then if Special(st.who) then st.(perm := st.perm + S_ISUID + S_ISGID) else st
    else if c == 't' then if Special(st.who) then st.(who := st.who + S_ISTXT, perm := st.perm + S_ISTXT) else st
    else if c == 'w' then st.(perm := st.perm + WRITE)
    else if c == 'X' then st.(permX := true)
    else if c == 'x' then st.(perm := st.perm + S_IXUGO)
    else st.(perm := {}, permX := st.permX && op != '+', equalDone := st.equalDone || op == '=')
  }

  /** A letter that copies bits puts out what is pending first. */
  function Copied(c: char, op: char, st: Letters, mask: Mode, omode: Mode, mode: Mode): Mode {
    var m := if st.perm != {} then Effect(op, st.who, st.perm, op, mask, omode, mode) else mode;
    var m' := if op == '+' && st.permX then Effect('X', st.who, S_IXUGO, op, mask, omode, m) else m;
    Effect(c, st.who, {}, op, mask, omode, m')
  }

  function Ended(op: char, st: Letters, mask: Mode, omode: Mode, mode: Mode): Mode {
    var m := if st.perm != {} || (op == '=' && !st.equalDone) then Effect(op, st.who, st.perm, op, mask, omode, mode) else mode;
    if st.permX then Effect('X', st.who, S_IXUGO, op, mask, omode, m) else m
  }

  function PermsMean(l: string, op: char, st: Letters, mask: Mode, omode: Mode, mode: Mode): Mode {
    if l == [] then Ended(op, st, mask, omode, mode)
    else PermsMean(l[1..], op, Letter(l[0], op, st), mask, omode,
                   if IsCopy(l[0]) then Copied(l[0], op, st, mask, omode, mode) else mode)
  }

  function ActionMeans(who: Mode, a: Action, mask: Mode, omode: Mode, mode: Mode): Mode {
    PermsMean(a.perms, a.op, Letters(who, {}, false, false), mask, omode, mode)
  }

  function ActionsMean(who: Mode, l: seq<Action>, mask: Mode, omode: Mode, mode: Mode): Mode {
    if l == [] then mode else ActionsMean(who, l[1..], mask, omode, ActionMeans(who, l[0], mask, omode, mode))
  }

  function ClausesMean(cs: seq<Clause>, mask: Mode, omode: Mode, mode: Mode): Mode {
    if cs == [] then mode
    else ClausesMean(cs[1..], mask, omode, ActionsMean(WhoBits(cs[0].who), cs[0].actions, mask, omode, mode))
  }

  // ----- building the list -----

  method Who(p: string, i: nat) returns (j: nat, who: Mode)
    requires i <= |p|
    ensures j == i + Span(IsWho, p[i..]) && who == WhoBits(p[i..j])
  {
    j, who := i, {};
    while j < |p| && IsWho(p[j])
      invariant i <= j <= i + Span(IsWho, p[i..]) <= |p|
      invariant who == WhoBits(p[i..j])
    {
      WhoMore(p[i..j], p[j]);
      assert p[i..j + 1] == p[i..j] + [p[j]];
      assert p[j] == p[i..][j - i];
      who := who + WhoBit(p[j]);
      j := j + 1;
    }
    assert j < |p| ==> p[j] == p[i..][j - i];
  }

  lemma {:induction false} WhoMore(who: string, c: char)
    ensures WhoBits(who + [c]) == WhoBits(who) + WhoBit(c)
  {
    hide WhoBit;
    if who == [] {
      assert who + [c] == [c] && [c][1..] == [];
    } else {
      assert (who + [c])[1..] == who[1..] + [c];
      WhoMore(who[1..], c);
    }
  }

  /** The copying letters: what is pending goes out, then the copy. */
  method Copy(b: Builder, c: char, op: char, st: Letters, mask: Mode) returns (st': Letters)
    requires b.Valid() && IsOp(op) && IsCopy(c)
    modifies b, b.a
    ensures b.Valid() && (b.a == old(b.a) || fresh(b.a)) && st' == Letter(c, op, st)
    ensures forall omode, mode ::
              Run(b.a[..b.pos], omode, mode) == Copied(c, op, st, mask, omode, Run(old(b.a[..b.pos]), omode, mode))
  {
    hide Run, Effect;
    st' := st;
    if st'.perm != {} {
      b.Add(op, st'.who, st'.perm, op, mask);
      st' := st'.(perm := {});
    }
    if op == '=' {
      st' := st'.(equalDone := true);
    }
    if op == '+' && st'.permX {
      b.Add('X', st'.who, S_IXUGO, op, mask);
      st' := st'.(permX := false);
    }
    b.Add(c, st'.who, {}, op, mask);
  }

  /** After the last letter of an action. */
  method End(b: Builder, op: char, st: Letters, mask: Mode)
    requires b.Valid() && IsOp(op)
    modifies b, b.a
    ensures b.Valid() && (b.a == old(b.a) || fresh(b.a))
    ensures forall omode, mode ::
              Run(b.a[..b.pos], omode, mode) == Ended(op, st, mask, omode, Run(old(b.a[..b.pos]), omode, mode))
  {
    hide Run, Effect;
    if st.perm != {} || (op == '=' && !st.equalDone) {
      b.Add(op, st.who, st.perm, op, mask);
    }
    if st.permX {
      b.Add('X', st.who, S_IXUGO, op, mask);
    }
  }

  /** A letter that only adds to the pending bits. */
  method Plainly(c: char, ghost op: char, st: Letters) returns (st': Letters)
    requires IsPerm(c) && !IsCopy(c)
    ensures st' == Letter(c, op, st)
  {
    st' := st;
    match c
    case 'r' => st' := st'.(perm := st'.perm + READ);
    case 's' =>
      if st'.who == {} || st'.who - S_IRWXO != {} {
        st' := st'.(perm := st'.perm + S_ISUID + S_ISGID);
      }
    case 't' =>
      if st'.who == {} || st'.who - S_IRWXO != {} {
        st' := st'.(who := st'.who + S_ISTXT, perm := st'.perm + S_ISTXT);
      }
    case 'w' => st' := st'.(perm := st'.perm + WRITE);
    case 'X' => st' := st'.(permX := true);
    case _ => st' := st'.(perm := st'.perm + S_IXUGO);
  }

  /** The letters of one action. */
  method Perms(b: Builder, p: string, i: nat, op: char, who: Mode, mask: Mode) returns (j: nat)
    requires b.Valid() && i <= |p| && IsOp(op)
    modifies b, b.a
    ensures b.Valid() && (b.a == old(b.a) || fresh(b.a))
    ensures j == i + Span(IsPerm, p[i..]) && j <= |p|
    ensures forall omode, mode :: Run(b.a[..b.pos], omode, mode) ==
              ActionMeans(who, Action(op, p[i..j]), mask, omode, Run(old(b.a[..b.pos]), omode, mode))
  {
    hide Run, Effect, IsPerm, IsOp, Copied, Ended, Letter;
    j := i;
    var st := Letters(who, {}, false, false);
    ghost var l := p[i..i + Span(IsPerm, p[i..])];
    ghost var was := b.a[..b.pos];
    ghost var st0 := st;
    while j < |p| && IsPerm(p[j])
      invariant i <= j <= i + |l| && i + |l| <= |p| && b.Valid() && (b.a == old(b.a) || fresh(b.a))
      invariant forall omode, mode :: PermsMean(l[j - i..], op, st, mask, omode, Run(b.a[..b.pos], omode, mode)) ==
                                      PermsMean(l, op, st0, mask, omode, Run(was, omode, mode))
    {
      assert p[j] == p[i..][j - i];
      assert l[j - i..][0] == p[j] && l[j - i..][1..] == l[j + 1 - i..];
      if IsCopy(p[j]) {
        st := Copy(b, p[j], op, st, mask);
      } else {
        st := Plainly(p[j], op, st);
      }
      j := j + 1;
    }
    assert j < |p| ==> p[j] == p[i..][j - i];
    assert l[j - i..] == [] && l == p[i..j];
    End(b, op, st, mask);
  }

  lemma ParseStepAt(p: string, at: nat, j: nat)
    requires at < j <= |p| && IsOp(p[at]) && j == at + 1 + Span(IsPerm, p[at + 1..])
    ensures var (a, rest) := (Action(p[at], p[at + 1..j]), p[j..]);
            && GoodAction(a)
            && ParseActions(p[at..]) == if rest == [] || rest[0] == ',' then Actions([a], rest) else Before([a], ParseActions(rest))
  {
    hide ParseActions, Before, IsPerm, IsOp;
    assert p[at..][1..] == p[at + 1..];
    assert p[at..][1..j - at] == p[at + 1..j];
    assert p[at..][j - at..] == p[j..];
    ParseStep(p[at..], j - at);
  }

  /** The actions of one clause, from `i` on; where the clause ends. */
  method ReadActions(b: Builder, p: string, i: nat, who: Mode, mask: Mode) returns (ok: bool, j: nat)
    requires b.Valid() && i <= |p|
    modifies b, b.a
    ensures b.Valid() && (b.a == old(b.a) || fresh(b.a))
    ensures ok <==> ParseActions(p[i..]).Actions?
    ensures ok ==> i < j <= |p| && p[j..] == ParseActions(p[i..]).rest
    ensures ok ==> forall omode, mode ::
                     Run(b.a[..b.pos], omode, mode) ==
                     ActionsMean(who, ParseActions(p[i..]).list, mask, omode, Run(old(b.a[..b.pos]), omode, mode))
  {
    hide Run, ActionMeans, ActionsMean, ParseActions, Before, IsPerm, IsOp, Known;
    j := i;
    ghost var was := b.a[..b.pos];
    ghost var done: seq<Action> := [];
    NothingBefore(ParseActions(p[i..]));
    forall omode, mode ensures ActionsMean(who, [], mask, omode, mode) == mode {
      NothingMeant(who, mask, omode, mode);
    }
    while true
      invariant i <= j <= |p| && b.Valid() && (b.a == old(b.a) || fresh(b.a))
      invariant ParseActions(p[i..]) == Before(done, ParseActions(p[j..]))
      invariant forall omode, mode :: Run(b.a[..b.pos], omode, mode) == ActionsMean(who, done, mask, omode, Run(was, omode, mode))
      decreases |p| - j
    {
      if j == |p| || !IsOp(p[j]) {
        NoAction(p[j..], done);
        return false, j;
      }
      ghost var at := j;
      ghost var now := b.a[..b.pos];
      j := Perms(b, p, j + 1, p[j], who, mask);
      ghost var a := Action(p[at], p[at + 1..j]);
      ParseStepAt(p, at, j);
      forall omode, mode ensures Run(b.a[..b.pos], omode, mode) == ActionsMean(who, done + [a], mask, omode, Run(was, omode, mode)) {
        OneMoreAction(who, done, a, mask, omode, Run(was, omode, mode));
      }
      if j == |p| || p[j] == ',' {
        BeforeLast(done, a, p[j..]);
        return true, j;
      }
      BeforeMore(done, a, ParseActions(p[j..]));
      done := done + [a];
    }
  }

  lemma NothingBefore(r: Actions)
    ensures Before([], r) == r
  {
    if r.Actions? {
      assert [] + r.list == r.list;
    }
  }

  lemma NothingAfter(r: Clauses)
    ensures After([], r) == r
  {
    if r.Clauses? {
      assert [] + r.list == r.list;
    }
  }

  lemma NothingMeant(who: Mode, mask: Mode, omode: Mode, mode: Mode)
    ensures Run([], omode, mode) == ActionsMean(who, [], mask, omode, mode) == ClausesMean([], mask, omode, mode) == mode
  {
  }

  lemma NoAction(s: string, done: seq<Action>)
    requires s == [] || !IsOp(s[0])
    ensures ParseActions(s).NoActions? && Before(done, ParseActions(s)).NoActions?
  {
  }

  lemma BeforeLast(done: seq<Action>, a: Action, rest: string)
    ensures Before(done, Actions([a], rest)) == Actions(done + [a], rest)
  {
  }

  lemma AfterNone(done: seq<Clause>)
    ensures After(done, NoClauses).NoClauses?
  {
  }

  lemma AfterLast(done: seq<Clause>, c: Clause)
    ensures After(done, Clauses([c])) == Clauses(done + [c])
  {
  }

  lemma BeforeMore(done: seq<Action>, a: Action, r: Actions)
    ensures Before(done, Before([a], r)) == Before(done + [a], r)
  {
    if r.Actions? {
      assert done + ([a] + r.list) == (done + [a]) + r.list;
    }
  }

  lemma {:induction false} OneMoreAction(who: Mode, l: seq<Action>, a: Action, mask: Mode, omode: Mode, mode: Mode)
    ensures ActionsMean(who, l + [a], mask, omode, mode) == ActionMeans(who, a, mask, omode, ActionsMean(who, l, mask, omode, mode))
  {
    hide ActionMeans;
    if l == [] {
      assert l + [a] == [a] && [a][1..] == [];
    } else {
      assert (l + [a])[1..] == l[1..] + [a];
      OneMoreAction(who, l[1..], a, mask, omode, ActionMeans(who, l[0], mask, omode, mode));
    }
  }

  lemma {:induction false} OneMoreClause(cs: seq<Clause>, c: Clause, mask: Mode, omode: Mode, mode: Mode)
    ensures ClausesMean(cs + [c], mask, omode, mode) ==
            ActionsMean(WhoBits(c.who), c.actions, mask, omode, ClausesMean(cs, mask, omode, mode))
  {
    hide ActionsMean, WhoBits;
    if cs == [] {
      assert cs + [c] == [c] && [c][1..] == [];
    } else {
      assert (cs + [c])[1..] == cs[1..] + [c];
      OneMoreClause(cs[1..], c, mask, omode, ActionsMean(WhoBits(cs[0].who), cs[0].actions, mask, omode, mode));
    }
  }

  lemma AfterMore(done: seq<Clause>, c: Clause, r: Clauses)
    ensures After(done, After([c], r)) == After(done + [c], r)
  {
    if r.Clauses? {
      assert done + ([c] + r.list) == (done + [c]) + r.list;
    }
  }

  /** The loop over the clauses of a symbolic mode. */
  method ReadClauses(b: Builder, p: string, mask: Mode) returns (ok: bool)
    requires b.Valid() && b.pos == 0
    modifies b, b.a
    ensures b.Valid() && (b.a == old(b.a) || fresh(b.a))
    ensures ok <==> ParseMode(p).Clauses?
    ensures ok ==> forall omode, mode :: Run(b.a[..b.pos], omode, mode) == ClausesMean(ParseMode(p).list, mask, omode, mode)
  {
    hide Run, ActionsMean, ClausesMean, ParseActions, ParseMode, After, WhoBits, IsWho, Known, Span;
    var i := 0;
    ghost var done: seq<Clause> := [];
    assert p[0..] == p && b.a[..b.pos] == [];
    NothingAfter(ParseMode(p));
    forall omode, mode ensures Run([], omode, mode) == mode && ClausesMean([], mask, omode, mode) == mode {
      NothingMeant({}, mask, omode, mode);
    }
    while true
      invariant i <= |p| && b.Valid() && (b.a == old(b.a) || fresh(b.a))
      invariant ParseMode(p) == After(done, ParseMode(p[i..]))
      invariant forall omode, mode :: Run(b.a[..b.pos], omode, mode) == ClausesMean(done, mask, omode, mode)
      decreases |p| - i
    {
      var j, who := Who(p, i);
      assert p[i..][j - i..] == p[j..] && p[i..][..j - i] == p[i..j] && p[i..] == p[i..j] + p[j..];
      ParseClause(p[i..j], p[j..]);
      var more, k := ReadActions(b, p, j, who, mask);
      if !more {
        AfterNone(done);
        return false;
      }
      ghost var c := Clause(p[i..j], ParseActions(p[j..]).list);
      forall omode, mode ensures Run(b.a[..b.pos], omode, mode) == ClausesMean(done + [c], mask, omode, mode) {
        OneMoreClause(done, c, mask, omode, mode);
      }
      if k == |p| {
        AfterLast(done, c);
        return true;
      }
      assert p[k..][1..] == p[k + 1..];
      AfterMore(done, c, ParseMode(p[k + 1..]));
      done := done + [c];
      i := k + 1;
    }
  }

  // ----- octal modes, and setmode itself -----

  predicate IsDigit(c: char) {
    '0' <= c <= '9'
  }

  predicate IsOctal(c: char) {
    '0' <= c <= '7'
  }

  function OctalValue(s: string): nat {
    if s == [] then 0
    else OctalValue(s[..|s| - 1]) * 8 + (if IsOctal(s[|s| - 1]) then s[|s| - 1] as nat - '0' as nat else 0)
  }

  /** The permission bits of a number. */
  function BitsOf(n: nat): (m: Mode)
    ensures m <= STANDARD_BITS + S_ISTXT
  {
    assert forall b: nat :: b < 12 ==> b in STANDARD_BITS + S_ISTXT;
    set b: nat | b < 12 && n / A.Pow2(b) % 2 == 1
  }

  predicate IsMode(p: string) {
    p != [] && if IsDigit(p[0]) then (forall k :: 0 <= k < |p| ==> IsOctal(p[k])) && OctalValue(p) <= 0xFFF
               else ParseMode(p).Clauses?
  }

  /** The mode a text makes of a file's mode. */
  function ModeMeans(p: string, mask: Mode, omode: Mode): Mode
    requires IsMode(p)
  {
    if IsDigit(p[0]) then omode - (STANDARD_BITS + S_ISTXT) + BitsOf(OctalValue(p))
    else ClausesMean(ParseMode(p).list, mask, omode, omode)
  }

  /** Bit `j` of an octal digit. */
  predicate DigitBit(c: char, j: nat) {
    IsOctal(c) && j < 3 && (c as int - '0' as int) / (if j == 0 then 1 else if j == 1 then 2 else 4) % 2 == 1
  }

  lemma TopDigits(s: string)
    requires s != [] && IsOctal(s[|s| - 1])
    ensures OctalValue(s) / 8 == OctalValue(s[..|s| - 1]) && OctalValue(s) % 8 == s[|s| - 1] as nat - '0' as nat
  {
  }

  lemma LowestDigit(n: nat, c: char, j: nat)
    requires IsOctal(c) && n % 8 == c as nat - '0' as nat && j < 3
    ensures n / A.Pow2(j) % 2 == 1 <==> DigitBit(c, j)
  {
    var (q, d) := (n / 8, n % 8);
    assert n == 8 * q + d;
    if j == 0 {
      assert n % 2 == d % 2 && A.Pow2(0) == 1;
    } else if j == 1 {
      assert n / 2 == 4 * q + d / 2 && A.Pow2(1) == 2;
    } else {
      assert n / 4 == 2 * q + d / 4 && A.Pow2(2) == 4;
    }
  }

  /** Each digit gives three bits. */
  lemma {:induction false} ValueBits(s: string, k: nat, j: nat)
    requires (forall i :: 0 <= i < |s| ==> IsOctal(s[i])) && j < 3
    ensures OctalValue(s) / A.Pow2(3 * k + j) % 2 == 1 <==> k < |s| && DigitBit(s[|s| - 1 - k], j)
    decreases k
  {
    hide A.Pow2, DigitBit, OctalValue;
    if s == [] {
      NoDigits(3 * k + j);
    } else {
      TopDigits(s);
      if k == 0 {
        LowestDigit(OctalValue(s), s[|s| - 1], j);
      } else {
        var init := s[..|s| - 1];
        ValueBits(init, k - 1, j);
        EightIs();
        A.ShrTwice(OctalValue(s), 3, 3 * (k - 1) + j);
        assert k < |s| ==> init[|init| - 1 - (k - 1)] == s[|s| - 1 - k];
      }
    }
  }

  lemma EightIs()
    ensures A.Pow2(3) == 8
  {
  }

  lemma NoDigits(b: nat)
    ensures OctalValue([]) / A.Pow2(b) % 2 == 0
  {
    A.DivModUnique(0, 0, A.Pow2(b));
  }

  lemma {:induction false} ValueZero(s: string)
    requires forall i :: 0 <= i < |s| ==> IsOctal(s[i])
    ensures OctalValue(s) == 0 <==> forall i :: 0 <= i < |s| ==> s[i] == '0'
  {
    if s != [] {
      ValueZero(s[..|s| - 1]);
    }
  }

  /** No bit from the twelfth on is set exactly when there are zeros in front of the last four digits. */
  lemma ValueSmall(s: string)
    requires forall i :: 0 <= i < |s| ==> IsOctal(s[i])
    ensures OctalValue(s) <= 0xFFF <==> forall i :: 0 <= i < |s| - 4 ==> s[i] == '0'
  {
    hide OctalValue;
    NoValue();
    if s != [] {
      var a := s[..|s| - 1];
      TopDigits(s);
      if a != [] {
        var b := a[..|a| - 1];
        assert b == s[..|s| - 2];
        TopDigits(a);
        if b != [] {
          var c := b[..|b| - 1];
          assert c == s[..|s| - 3];
          TopDigits(b);
          if c != [] {
            var d := c[..|c| - 1];
            TopDigits(c);
            assert d == s[..|s| - 4];
            ValueZero(d);
          }
        }
      }
    }
  }

  lemma NoValue()
    ensures OctalValue([]) == 0
  {
  }

  /**
   An octal mode, digit by digit: which texts are refused, and which bits a mode has.  The last digit gives
   the lowest three bits, and what is no permission bit stays as it is.
   */
  lemma OctalMeans(p: string, mask: Mode, omode: Mode, k: nat, j: nat)
    requires p != [] && '0' <= p[0] <= '9' && k < 4 && j < 3
    ensures IsMode(p) <==> forall i :: 0 <= i < |p| ==> '0' <= p[i] <= '7' && (i < |p| - 4 ==> p[i] == '0')
    ensures IsMode(p) ==>
              (3 * k + j in ModeMeans(p, mask, omode) <==>
               k < |p| && (p[|p| - 1 - k] as int - '0' as int) / (if j == 0 then 1 else if j == 1 then 2 else 4) % 2 == 1)
    ensures IsMode(p) ==> forall b: nat :: b >= 12 ==> (b in ModeMeans(p, mask, omode) <==> b in omode)
  {
    hide OctalValue, A.Pow2, ParseMode, ClausesMean;
    if forall i :: 0 <= i < |p| ==> IsOctal(p[i]) {
      ValueSmall(p);
    }
    PermissionBits();
    if IsMode(p) {
      ValueBits(p, k, j);
    }
  }

  lemma PermissionBits()
    ensures forall b: nat :: b in STANDARD_BITS + S_ISTXT <==> b < 12
  {
  }

  /** strtol to the base eight, refusing what is left over and bits that are no permission. */
  method Octal(p: string) returns (ok: bool, perml: nat)
    ensures ok <==> (forall k :: 0 <= k < |p| ==> IsOctal(p[k])) && OctalValue(p) <= 0xFFF
    ensures ok ==> perml == OctalValue(p)
  {
    perml := 0;
    var i := 0;
    while i < |p| && IsOctal(p[i])
      invariant i <= |p| && (forall k :: 0 <= k < i ==> IsOctal(p[k])) && perml == OctalValue(p[..i])
    {
      assert p[..i + 1][..i] == p[..i];
      perml := perml * 8 + (p[i] as nat - '0' as nat);
      i := i + 1;
    }
    assert i == |p| ==> p[..i] == p;
    ok := i == |p| && perml <= 0xFFF;
  }

  /** `setmode`: the compacted list for a text, or nothing for a text that is no mode. */
  method Setmode(p: string, mask: Mode) returns (ok: bool, list: array<BitCmd>)
    ensures fresh(list) && (ok <==> IsMode(p))
    ensures ok ==> Terminated(list[..]) && forall omode :: Run(list[..], omode, omode) == ModeMeans(p, mask, omode)
  {
    hide Run, ClausesMean, ParseMode, OctalValue, BitsOf, Terminated;
    list := new BitCmd[0];
    if p == [] {
      return false, list;
    }
    if IsDigit(p[0]) {
      var perml;
      ok, perml := Octal(p);
      if ok {
        list := SetAbsolute(BitsOf(perml), mask);
      }
      return ok, list;
    }
    var b := new Builder();
    ok := ReadClauses(b, p, mask);
    if ok {
      b.Finish();
      list := b.a;
      var _ := CompressMode(list);
    }
  }
}
