/**
 The lazily built automaton: states are lists of leaves, transitions are computed on demand by
 `cgoto` and remembered in a sorted table per state.  What is remembered is what would be computed.
 */
module RegexDfa {
  import opened RegexTree
  import opened RegexAutomaton
  import opened RegexBuild

  // ----- the memo table of one state -----

  datatype Entry = Entry(ch: nat, state: nat)

  ghost predicate Sorted(tab: seq<Entry>) {
    forall i, j :: 0 <= i < j < |tab| ==> tab[i].ch < tab[j].ch
  }

  /** The state remembered for a rune, 0 when there is none. */
  function Lookup(tab: seq<Entry>, ch: nat): nat {
    if tab == [] then 0
    else if tab[|tab| - 1].ch == ch then tab[|tab| - 1].state
    else Lookup(tab[..|tab| - 1], ch)
  }

  lemma {:induction false} LookupAt(tab: seq<Entry>, i: nat)
    requires Sorted(tab) && i < |tab|
    ensures Lookup(tab, tab[i].ch) == tab[i].state
  {
    if i < |tab| - 1 {
      LookupAt(tab[..|tab| - 1], i);
    }
  }

  lemma {:induction false} LookupAbsent(tab: seq<Entry>, ch: nat)
    requires forall i :: 0 <= i < |tab| ==> tab[i].ch != ch
    ensures Lookup(tab, ch) == 0
  {
    if tab != [] {
      LookupAbsent(tab[..|tab| - 1], ch);
    }
  }

  lemma {:induction false} LookupUpdate(tab: seq<Entry>, i: nat, val: nat, ch: nat)
    requires Sorted(tab) && i < |tab|
    ensures var tab' := tab[i := Entry(tab[i].ch, val)];
            Lookup(tab', ch) == if ch == tab[i].ch then val else Lookup(tab, ch)
  {
    var tab', n := tab[i := Entry(tab[i].ch, val)], |tab| - 1;
    if i < n {
      LookupUpdate(tab[..n], i, val, ch);
      assert tab'[..n] == tab[..n][i := Entry(tab[i].ch, val)];
    } else {
      assert tab'[..n] == tab[..n];
    }
  }

  /** What `qsort` makes of a sorted table with one more entry at its end. */
  function Insert(tab: seq<Entry>, e: Entry): (r: seq<Entry>)
    ensures |r| == |tab| + 1
  {
    if tab == [] || tab[|tab| - 1].ch < e.ch then tab + [e]
    else Insert(tab[..|tab| - 1], e) + [tab[|tab| - 1]]
  }

  lemma {:induction false} InsertKeeps(tab: seq<Entry>, e: Entry)
    ensures multiset(Insert(tab, e)) == multiset(tab) + multiset{e}
  {
    var n := |tab| - 1;
    if tab != [] && tab[n].ch >= e.ch {
      InsertKeeps(tab[..n], e);
      assert tab == tab[..n] + [tab[n]];
    }
  }

  lemma {:induction false} InsertSorts(tab: seq<Entry>, e: Entry)
    requires Sorted(tab) && forall i :: 0 <= i < |tab| ==> tab[i].ch != e.ch
    ensures Sorted(Insert(tab, e))
  {
    var n := |tab| - 1;
    if tab != [] && tab[n].ch >= e.ch {
      InsertSorts(tab[..n], e);
      InsertKeeps(tab[..n], e);
      var q := Insert(tab[..n], e);
      forall i | 0 <= i < |q| ensures q[i].ch < tab[n].ch {
        assert q[i] in multiset(q);
      }
    }
  }

  lemma {:induction false} InsertLookup(tab: seq<Entry>, e: Entry, ch: nat)
    requires Sorted(tab) && forall i :: 0 <= i < |tab| ==> tab[i].ch != e.ch
    ensures Lookup(Insert(tab, e), ch) == if ch == e.ch then e.state else Lookup(tab, ch)
  {
    var r, n := Insert(tab, e), |tab| - 1;
    if tab == [] || tab[n].ch < e.ch {
      assert r[..|tab|] == tab;
    } else {
      InsertLookup(tab[..n], e, ch);
      assert r[..|r| - 1] == Insert(tab[..n], e);
    }
  }

  /** `bsearch` with `entry_cmp`. */
  method BSearch(tab: seq<Entry>, ch: nat) returns (at: int)
    requires Sorted(tab)
    ensures at >= 0 ==> at < |tab| && tab[at].ch == ch
    ensures at < 0 ==> forall i :: 0 <= i < |tab| ==> tab[i].ch != ch
  {
    var lo, hi := 0, |tab|;
    while lo < hi
      invariant 0 <= lo <= hi <= |tab|
      invariant forall i :: 0 <= i < lo ==> tab[i].ch < ch
      invariant forall i :: hi <= i < |tab| ==> tab[i].ch > ch
    {
      var mid := (lo + hi) / 2;
      if tab[mid].ch == ch {
        return mid;
      } else if tab[mid].ch < ch {
        lo := mid + 1;
      } else {
        hi := mid;
      }
    }
    return -1;
  }

  method GetGototab(tab: seq<Entry>, ch: nat) returns (state: nat)
    requires Sorted(tab)
    ensures state == Lookup(tab, ch)
  {
    var at := BSearch(tab, ch);
    if at < 0 {
      LookupAbsent(tab, ch);
      return 0;
    }
    LookupAt(tab, at);
    return tab[at].state;
  }

  method SetGototab(tab: seq<Entry>, ch: nat, val: nat) returns (tab': seq<Entry>)
    requires Sorted(tab)
    ensures Sorted(tab')
    ensures forall x :: Lookup(tab', x) == if x == ch then val else Lookup(tab, x)
  {
    if |tab| == 0 {
      tab' := [Entry(ch, val)];
      return;
    } else if ch > tab[|tab| - 1].ch {
      tab' := tab + [Entry(ch, val)];
      assert tab'[..|tab|] == tab;
      return;
    } else {
      var at := BSearch(tab, ch);
      if at >= 0 {
        tab' := tab[at := Entry(tab[at].ch, val)];
        forall x ensures Lookup(tab', x) == if x == ch then val else Lookup(tab, x) {
          LookupUpdate(tab, at, val, x);
        }
        return;
      }
    }
    tab' := Insert(tab, Entry(ch, val));
    InsertSorts(tab, Entry(ch, val));
    forall x ensures Lookup(tab', x) == if x == ch then val else Lookup(tab, x) {
      InsertLookup(tab, Entry(ch, val), x);
    }
  }

  // ----- sets of leaves -----

  function Elems(list: seq<nat>): set<nat> {
    set x | x in list
  }

  /** Leaves a state may hold: of the expression but not an empty one's, or FINAL's. */
  ghost predicate Good(s: set<nat>, root: Re)
    requires Numbered(root, 0)
  {
    NoEmptyRe(s, root, Size(root)) && forall q :: q in s ==> q <= Size(root)
  }

  lemma {:induction false} ContextGood(c: Ctx, t: Re, root: Re)
    requires Within(t, c, root, Size(root))
    ensures Good(FollowSet(c), root)
    decreases c
  {
    hide Within, NoEmptyRe, FirstSet, Nullable;
    WithinUp(t, c, root, Size(root));
    WithinSize(t, c, root, Size(root));
    NothingMarked(root, Size(root));
    match c
    case Root(_) => AddAccept({}, t, c, root, Size(root)); assert {} + {Size(root)} == FollowSet(c);
    case InStar(_, up) => ContextGood(up, Star(t), root); AddFirst(FollowSet(up), c, t, root, Size(root)); UnionSwap(FollowSet(up), FirstSet(t));
    case InPlus(_, up) => ContextGood(up, Plus(t), root); AddFirst(FollowSet(up), c, t, root, Size(root)); UnionSwap(FollowSet(up), FirstSet(t));
    case InQuest(up) => ContextGood(up, Quest(t), root);
    case CatLeft(r, up) =>
      ContextGood(up, Cat(t, r), root);
      AddFirst(FollowSet(up), CatRight(t, up), r, root, Size(root));
      AddFirst({}, CatRight(t, up), r, root, Size(root));
      UnionSwap(FollowSet(up), FirstSet(r));
      UnionSwap({}, FirstSet(r));
    case CatRight(l, up) => ContextGood(up, Cat(l, t), root);
    case OrLeft(r, up) => ContextGood(up, Or(t, r), root);
    case OrRight(l, up) => ContextGood(up, Or(l, t), root);
  }

  lemma UnionSwap(a: set<nat>, b: set<nat>)
    ensures a + b == b + a
  {
  }

  lemma FollowGood(root: Re, p: nat)
    requires Numbered(root, 0) && p < Size(root)
    ensures Good(FollowOf(root, Size(root), p), root)
  {
    LeafAround(root, Root(Size(root)), 0, p);
    var (k, c) := LeafIn(root, Root(Size(root)), 0, p);
    ContextGood(c, Leaf(k, p), root);
  }

  lemma StepGood(root: Re, s: set<nat>, c: int)
    requires Numbered(root, 0)
    ensures Good(Step(root, Size(root), s, c), root)
  {
    hide NoEmptyRe;
    var t := Step(root, Size(root), s, c);
    forall q | q in t ensures Good({q}, root) {
      var p :| p in s && Moves(root, Size(root), p, c, q);
      FollowGood(root, p);
      GoodMember(FollowOf(root, Size(root), p), q, root);
    }
    AllGood(t, root);
  }

  lemma GoodMember(s: set<nat>, q: nat, root: Re)
    requires Numbered(root, 0) && Good(s, root) && q in s
    ensures Good({q}, root)
  {
  }

  lemma AllGood(s: set<nat>, root: Re)
    requires Numbered(root, 0) && forall q :: q in s ==> Good({q}, root)
    ensures Good(s, root)
  {
    forall q | q in s ensures q <= Size(root) && (q < Size(root) ==> !KindOf(root, Size(root), q).EmptyRe?) {
      assert Good({q}, root);
    }
  }

  lemma ListsEmpty(a: seq<nat>, s: set<nat>)
    requires Lists(a, s)
    ensures a == [] <==> s == {}
  {
    if a != [] { assert a[0] in s; }
    if s != {} { var x :| x in s; }
  }

  lemma {:induction false} ListsUnique(a: seq<nat>, b: seq<nat>, s: set<nat>)
    requires Lists(a, s) && Lists(b, s)
    ensures a == b
  {
    ListsEmpty(a, s);
    ListsEmpty(b, s);
    if a != [] {
      assert a[0] in s && a[0] in b;
      assert b[0] in a;
      assert a[0] == b[0];
      var rest := s - {a[0]};
      assert Lists(a[1..], rest) by { ListsTail(a, s); }
      assert Lists(b[1..], rest) by { ListsTail(b, s); }
      ListsUnique(a[1..], b[1..], rest);
      assert a == [a[0]] + a[1..] && b == [b[0]] + b[1..];
    }
  }

  lemma ListsTail(a: seq<nat>, s: set<nat>)
    requires Lists(a, s) && a != []
    ensures Lists(a[1..], s - {a[0]})
  {
    forall x ensures x in a[1..] <==> x in s - {a[0]} {
      if x in a && x != a[0] {
        var i :| 0 <= i < |a| && a[i] == x;
        assert a[1..][i - 1] == x;
      }
    }
  }

  lemma ListsElems(a: seq<nat>, s: set<nat>)
    requires Lists(a, s)
    ensures Elems(a) == s
  {
  }

  // ----- reading from a state -----

  /** `member`: the rune is on the list, no zero before it. */
  method IsMember(c: int, list: seq<int>) returns (b: bool)
    ensures b == Member(c, list)
    ensures b <==> exists i :: 0 <= i < |list| && list[i] == c && forall j :: 0 <= j <= i ==> list[j] != END
  {
    var s := 0;
    while s < |list| && list[s] != 0
      invariant 0 <= s <= |list| && Member(c, list) == Member(c, list[s..])
      invariant forall j :: 0 <= j < s ==> list[j] != c && list[j] != END
    {
      if c == list[s] {
        return true;
      }
      assert list[s..][1..] == list[s + 1..];
      s := s + 1;
    }
    return false;
  }

  /** The test `cgoto` makes on a leaf; an empty expression's leaf would read anything but the end. */
  method Takes(k: Kind, c: int) returns (b: bool)
    ensures !k.EmptyRe? ==> b == Reads(k, c)
    ensures k.Char? ==> (b <==> c == k.c)
    ensures k.Dot? ==> (b <==> c != 0 && c != 1261)
    ensures k.All? || k.EmptyRe? ==> (b <==> c != 0)
    ensures k.Ccl? ==> (b <==> exists i :: 0 <= i < |k.list| && k.list[i] == c && forall j :: 0 <= j <= i ==> k.list[j] != 0)
    ensures k.Nccl? ==>
              (b <==> c != 0 && c != 1261 && !exists i :: 0 <= i < |k.list| && k.list[i] == c && forall j :: 0 <= j <= i ==> k.list[j] != 0)
  {
    match k
    case Char(x) => b := c == x;
    case Dot => b := c != END && c != HAT;
    case All => b := c != END;
    case EmptyRe => b := c != END;
    case Ccl(list) => b := IsMember(c, list);
    case Nccl(list) =>
      b := IsMember(c, list);
      b := !b && c != END && c != HAT;
  }

  /** The leaves reached from the first `i` of a list. */
  ghost predicate Reached(root: Re, p: seq<nat>, i: nat, c: int, s: set<nat>)
    requires Numbered(root, 0) && i <= |p|
  {
    forall q :: q in s <==> exists k :: 0 <= k < i && Moves(root, Size(root), p[k], c, q)
  }

  lemma ReachedMore(root: Re, p: seq<nat>, i: nat, c: int, s: set<nat>)
    requires Numbered(root, 0) && i < |p| && Reached(root, p, i, c, s)
    ensures p[i] < Size(root) && Reads(KindOf(root, Size(root), p[i]), c) ==>
              Reached(root, p, i + 1, c, s + FollowOf(root, Size(root), p[i]))
    ensures !(p[i] < Size(root) && Reads(KindOf(root, Size(root), p[i]), c)) ==> Reached(root, p, i + 1, c, s)
  {
    hide Reads;
    var t := if p[i] < Size(root) && Reads(KindOf(root, Size(root), p[i]), c) then s + FollowOf(root, Size(root), p[i]) else s;
    forall q ensures q in t <==> exists k :: 0 <= k < i + 1 && Moves(root, Size(root), p[k], c, q) {
      if q in s {
        var k :| 0 <= k < i && Moves(root, Size(root), p[k], c, q);
      }
      if q in t && q !in s {
        assert Moves(root, Size(root), p[i], c, q);
      }
    }
  }

  lemma ReachedAll(root: Re, p: seq<nat>, c: int, s: set<nat>)
    requires Numbered(root, 0) && Reached(root, p, |p|, c, s)
    ensures s == Step(root, Size(root), Elems(p), c)
  {
    hide Moves;
    forall q ensures q in s <==> Next(root, Size(root), Elems(p), c, q) {
      if q in s {
        var k :| 0 <= k < |p| && Moves(root, Size(root), p[k], c, q);
        assert p[k] in Elems(p);
      }
      if Next(root, Size(root), Elems(p), c, q) {
        var x :| x in Elems(p) && Moves(root, Size(root), x, c, q);
        var k :| 0 <= k < |p| && p[k] == x;
      }
    }
  }

  lemma ElemsNext(list: seq<nat>, x: nat, s: set<nat>)
    ensures s + Elems(list + [x]) == s + Elems(list) + {x} && s + Elems([]) == s
  {
  }

  /** Mark what follows one leaf. */
  method MarkAll(w: Walker, list: seq<nat>)
    requires w.setcnt == |w.Marked()| && forall x :: x in list ==> x < w.setvec.Length
    modifies w`setcnt, w.setvec
    ensures w.Marked() == old(w.Marked()) + Elems(list) && w.setcnt == |w.Marked()|
  {
    hide Walker.Marked, Elems;
    ghost var before := w.Marked();
    ElemsNext([], 0, before);
    for j := 0 to |list|
      invariant w.Marked() == before + Elems(list[..j]) && w.setcnt == |w.Marked()|
    {
      assert list[j] in list;
      ElemsNext(list[..j], list[j], before);
      w.Mark(list[j]);
      assert list[..j + 1] == list[..j] + [list[j]];
    }
    assert list[..|list|] == list;
  }

  /** The leaves reached by reading `c` from a list of leaves, into the vector. */
  method Positions(w: Walker, p: seq<nat>, c: int, ghost root: Re)
    requires TableOk(w.re[..], root) && w.setvec.Length == w.re.Length
    requires Good(Elems(p), root)
    modifies w`setcnt, w.setvec
    ensures w.Marked() == Step(root, Size(root), Elems(p), c) && w.setcnt == |w.Marked()|
  {
    hide Walker.Marked, Reached, RowOk, Reads;
    w.Clear();
    assert Reached(root, p, 0, c, {}) by { ReachedNone(root, p, c); }
    for i := 0 to |p|
      invariant w.setcnt == |w.Marked()| && Reached(root, p, i, c, w.Marked())
    {
      ReachedMore(root, p, i, c, w.Marked());
      assert p[i] in Elems(p);
      RowFacts(w.re[..], root, p[i]);
      if w.re[p[i]].LeafRow? {
        var b := Takes(w.re[p[i]].kind, c);
        if b {
          MarkAll(w, w.re[p[i]].lfollow);
        }
      }
    }
    ReachedAll(root, p, c, w.Marked());
  }

  lemma ReachedNone(root: Re, p: seq<nat>, c: int)
    requires Numbered(root, 0)
    ensures Reached(root, p, 0, c, {})
  {
  }

  lemma RowFacts(re: seq<Row>, root: Re, x: nat)
    requires TableOk(re, root) && x <= Size(root)
    ensures re[x].LeafRow? <==> x < Size(root)
    ensures x < Size(root) ==>
              && re[x].kind == KindOf(root, Size(root), x)
              && Elems(re[x].lfollow) == FollowOf(root, Size(root), x)
              && forall q :: q in re[x].lfollow ==> q <= Size(root)
  {
    if x < Size(root) {
      assert RowOk(re[x], root, Size(root), x);
      FollowBounded(root, Size(root));
      ListsElems(re[x].lfollow, FollowOf(root, Size(root), x));
    }
  }

  // ----- the automaton -----

  /** One state: its leaves highest first, and whether FINAL is among them. */
  ghost predicate StateOk(root: Re, posns: seq<nat>, out: bool)
    requires Numbered(root, 0)
  {
    Lists(posns, Elems(posns)) && Good(Elems(posns), root) && (out <==> Size(root) in Elems(posns))
  }

  /** Everything remembered about state `i` is a step of the automaton. */
  ghost predicate MemoOk(root: Re, posns: seq<seq<nat>>, tab: seq<Entry>, i: nat)
    requires Numbered(root, 0) && i < |posns|
  {
    && Sorted(tab)
    && forall ch: nat :: Lookup(tab, ch) != 0 ==>
        Lookup(tab, ch) < |posns| && Elems(posns[Lookup(tab, ch)]) == Step(root, Size(root), Elems(posns[i]), ch)
  }

  /** The states 1 up to the current one; 1 is the dead state, and no two have the same leaves. */
  ghost predicate Machine(root: Re, posns: seq<seq<nat>>, out: seq<bool>, tabs: seq<seq<Entry>>) {
    && Numbered(root, 0)
    && |posns| == |out| == |tabs| >= 3
    && posns[1] == []
    && (forall i: nat :: 1 <= i < |posns| ==> StateOk(root, posns[i], out[i]))
    && (forall i: nat :: 1 <= i < |posns| ==> MemoOk(root, posns, tabs[i], i))
    && (forall i, j :: 1 <= i < j < |posns| ==> posns[i] != posns[j])
  }

  /** A remembered transition added to state `s`. */
  lemma Remember(root: Re, posns: seq<seq<nat>>, out: seq<bool>, tabs: seq<seq<Entry>>, s: nat, tab: seq<Entry>)
    requires Machine(root, posns, out, tabs) && 1 <= s < |tabs| && MemoOk(root, posns, tab, s)
    ensures Machine(root, posns, out, tabs[s := tab])
  {
    hide MemoOk, StateOk;
  }

  lemma MemoEntry(root: Re, posns: seq<seq<nat>>, tab: seq<Entry>, tab': seq<Entry>, s: nat, ch: nat, to: nat)
    requires Numbered(root, 0) && s < |posns| && 1 <= to < |posns|
    requires MemoOk(root, posns, tab, s) && Sorted(tab')
    requires forall x :: Lookup(tab', x) == if x == ch then to else Lookup(tab, x)
    requires Elems(posns[to]) == Step(root, Size(root), Elems(posns[s]), ch)
    ensures MemoOk(root, posns, tab', s)
  {
  }

  /** A new state, with nothing remembered. */
  lemma Grow(root: Re, posns: seq<seq<nat>>, out: seq<bool>, tabs: seq<seq<Entry>>, p: seq<nat>, o: bool)
    requires Machine(root, posns, out, tabs) && StateOk(root, p, o)
    requires forall i: nat :: 1 <= i < |posns| ==> posns[i] != p
    ensures Machine(root, posns + [p], out + [o], tabs + [[]])
  {
    hide StateOk;
    forall i: nat | 1 <= i <= |posns| ensures MemoOk(root, posns + [p], (tabs + [[]])[i], i) {
      if i < |posns| {
        assert MemoOk(root, posns, tabs[i], i);
      }
    }
  }

  lemma TableLength(re: seq<Row>, root: Re)
    requires TableOk(re, root)
    ensures Numbered(root, 0) && |re| == Size(root) + 1
  {
  }

  lemma MachineLength(root: Re, posns: seq<seq<nat>>, out: seq<bool>, tabs: seq<seq<Entry>>)
    requires Machine(root, posns, out, tabs)
    ensures Numbered(root, 0) && |posns| == |out| == |tabs| >= 3 && posns[1] == []
  {
  }

  lemma StateFacts(root: Re, posns: seq<seq<nat>>, out: seq<bool>, tabs: seq<seq<Entry>>, s: nat)
    requires Machine(root, posns, out, tabs) && 1 <= s < |posns|
    ensures |posns| == |tabs| == |out| >= 3 && Numbered(root, 0) && posns[1] == []
    ensures Lists(posns[s], Elems(posns[s])) && Good(Elems(posns[s]), root)
    ensures out[s] <==> Size(root) in Elems(posns[s])
    ensures MemoOk(root, posns, tabs[s], s) && Sorted(tabs[s])
  {
    assert StateOk(root, posns[s], out[s]) && MemoOk(root, posns, tabs[s], s);
  }

  /** Leaves of the state searches start from, and of the one at the beginning of the text. */
  ghost function Origin(body: Re, anchor: bool): set<nat> {
    (if anchor then {} else {0}) + Body(body)
  }

  ghost function HatOrigin(body: Re, anchor: bool): set<nat>
    requires Numbered(body, 1)
  {
    (if anchor then {} else {0}) + HatBody(body)
  }

  lemma {:induction false} NeverStuck(t: Re)
    ensures FirstSet(t) == {} ==> Nullable(t)
  {
    match t
    case Leaf(_, _) =>
    case Star(_) =>
    case Plus(r) => NeverStuck(r);
    case Quest(_) =>
    case Cat(l, r) => NeverStuck(l); NeverStuck(r);
    case Or(l, r) => NeverStuck(l); NeverStuck(r);
    case Zero(_) =>
  }

  /** Leaf 0 is the last of a list that holds it. */
  lemma DropZero(a: seq<nat>, s: set<nat>)
    requires Lists(a, s) && 0 in s
    ensures a != [] && a[|a| - 1] == 0 && Lists(a[..|a| - 1], s - {0})
  {
    var i :| 0 <= i < |a| && a[i] == 0;
    var last: nat := a[|a| - 1];
    assert forall j :: 0 <= j < |a| - 1 ==> a[j] > last;
    forall x ensures x in a[..|a| - 1] <==> x in s - {0} {
      if x in a && x != 0 {
        var k :| 0 <= k < |a| && a[k] == x;
        assert a[..|a| - 1][k] == x;
      }
    }
  }

  /** FINAL has the highest number, so it is first on a list that holds it. */
  lemma FinalFirst(a: seq<nat>, root: Re)
    requires Numbered(root, 0) && Lists(a, Elems(a)) && Good(Elems(a), root) && a != []
    ensures a[0] == Size(root) <==> Size(root) in Elems(a)
  {
    assert a[0] in Elems(a);
  }

  lemma InitialRow(re: seq<Row>, root: Re, body: Re)
    requires TableOk(re, root) && Numbered(body, 1) && root == Whole(body)
    ensures re[0].LeafRow?
    ensures var start := re[0].lfollow;
            && start != []
            && Elems(start) == {0} + Body(body)
            && Machine(root, [[], [], start], [false, false, start[0] == Size(root)], [[], [], []])
  {
    RowFacts(re, root, 0);
    var start := re[0].lfollow;
    InitialSet(body);
    assert RowOk(re[0], root, Size(root), 0);
    ListsElems(start, FollowOf(root, Size(root), 0));
    FollowGood(root, 0);
    assert 0 in Elems(start);
    FinalFirst(start, root);
    NothingMarked(root, Size(root));
    assert Elems([]) == {};
    assert StateOk(root, [], false);
  }

  lemma DropOk(root: Re, a: seq<nat>, out: bool)
    requires Numbered(root, 0) && Size(root) > 0 && StateOk(root, a, out) && 0 in Elems(a)
    ensures a != [] && a == a[..|a| - 1] + [0]
    ensures StateOk(root, a[..|a| - 1], out) && Elems(a[..|a| - 1]) == Elems(a) - {0}
  {
    DropZero(a, Elems(a));
    ListsElems(a[..|a| - 1], Elems(a) - {0});
  }

  lemma FreshMachine(root: Re, posns: seq<seq<nat>>, out: seq<bool>, tabs: seq<seq<Entry>>)
    requires Numbered(root, 0) && 3 <= |posns| == |out| == |tabs| <= 4
    requires posns[1] == [] && posns[2] != [] && (|posns| == 4 ==> posns[3] != [] && posns[2] != posns[3])
    requires StateOk(root, posns[1], out[1]) && StateOk(root, posns[2], out[2])
    requires |posns| == 4 ==> StateOk(root, posns[3], out[3])
    requires forall i :: 0 <= i < |tabs| ==> tabs[i] == []
    ensures Machine(root, posns, out, tabs)
  {
    hide StateOk;
  }

  /** A starting state without leaf 0. */
  function Anchored(p: seq<nat>): seq<nat>
    requires p != []
  {
    p[..|p| - 1]
  }

  lemma AnchoredOk(root: Re, a: seq<nat>, out: bool, s: set<nat>)
    requires Numbered(root, 0) && Size(root) > 0 && StateOk(root, a, out) && Elems(a) == {0} + s && 0 !in s && s != {}
    ensures a != [] && StateOk(root, Anchored(a), out) && Elems(Anchored(a)) == s && a == Anchored(a) + [0]
  {
    hide Lists, Good;
    assert 0 in Elems(a);
    DropOk(root, a, out);
  }

  /** Without leaf 0 the starting states are still states, and still different. */
  lemma AnchoredMachine(root: Re, body: Re, posns: seq<seq<nat>>, out: seq<bool>, tabs: seq<seq<Entry>>)
    requires Machine(root, posns, out, tabs) && Numbered(body, 1) && root == Whole(body)
    requires 3 <= |posns| <= 4 && forall i :: 0 <= i < |tabs| ==> tabs[i] == []
    requires Elems(posns[2]) == {0} + Body(body)
    requires |posns| == 4 ==> Elems(posns[3]) == {0} + HatBody(body)
    ensures posns[2] != [] && Elems(Anchored(posns[2])) == Body(body)
    ensures |posns| == 4 ==> posns[3] != [] && Elems(Anchored(posns[3])) == HatBody(body)
    ensures var p2 := Anchored(posns[2]);
            Machine(root, if |posns| == 3 then [p2, [], p2] else [p2, [], p2, Anchored(posns[3])], out[0 := out[2]], tabs)
  {
    hide StateOk, MemoOk, Step, HatBody, Body, Anchored;
    HatBodyMore(body);
    assert StateOk(root, posns[1], out[1]) && StateOk(root, posns[2], out[2]);
    assert |posns| == 4 ==> StateOk(root, posns[3], out[3]) && posns[2] != posns[3];
    AnchoredOk(root, posns[2], out[2], Body(body));
    if |posns| == 3 {
      FreshMachine(root, [Anchored(posns[2]), [], Anchored(posns[2])], out[0 := out[2]], tabs);
    } else {
      AnchoredOk(root, posns[3], out[3], HatBody(body));
      FreshMachine(root, [Anchored(posns[2]), [], Anchored(posns[2]), Anchored(posns[3])], out[0 := out[2]], tabs);
    }
  }

  lemma HatBodyMore(body: Re)
    requires Numbered(body, 1)
    ensures 0 !in HatBody(body) && {} < Body(body) <= HatBody(body)
  {
    HatStep(body);
    NeverStuck(body);
  }

  lemma WholeAccept(body: Re)
    requires Numbered(body, 1)
    ensures Size(Whole(body)) == Accept(body)
  {
  }

  lemma NotDead(posns: seq<seq<nat>>, st: nat)
    requires 1 < |posns| && st < |posns| && posns[1] == [] && 0 in Elems(posns[st])
    ensures st != 1
  {
  }

  lemma SameWithout(a: set<nat>, b: set<nat>)
    requires 0 !in a && 0 !in b
    ensures {0} + a == {0} + b ==> a == b
    ensures {} + a == a && {} + b == b
  {
    if {0} + a == {0} + b {
      forall x ensures x in a <==> x in b {
        assert x in {0} + a <==> x in {0} + b;
      }
    }
  }

  /** A set of leaves has one state at most, so what is remembered is the very state `cgoto` would find. */
  lemma OneStatePerSet(root: Re, posns: seq<seq<nat>>, out: seq<bool>, tabs: seq<seq<Entry>>, i: nat, j: nat)
    requires Machine(root, posns, out, tabs) && 1 <= i < |posns| && 1 <= j < |posns|
    requires Elems(posns[i]) == Elems(posns[j])
    ensures i == j
  {
    hide MemoOk, Good;
    StateFacts(root, posns, out, tabs, i);
    StateFacts(root, posns, out, tabs, j);
    ListsUnique(posns[i], posns[j], Elems(posns[i]));
  }

  class Fa {
    const w: Walker
    const accept: nat
    var posns: seq<seq<nat>>
    var out: seq<bool>
    var gototab: seq<seq<Entry>>
    var curstat: nat
    var initstat: nat
    var anchor: bool
    ghost const body: Re
    ghost const root: Re

    ghost predicate Valid()
      reads this, w.re
    {
      && TableOk(w.re[..], root) && w.setvec.Length == w.re.Length && accept == Size(root)
      && Machine(root, posns, out, gototab) && curstat + 1 == |posns|
    }

    ghost function Leaves(s: nat): set<nat>
      requires s < |posns|
      reads `posns
    {
      Elems(posns[s])
    }

    /** The states matching starts in: a search may skip anything first, an anchored match nothing. */
    ghost predicate Ready()
      reads this, w.re
    {
      && Valid() && Numbered(body, 1) && root == Whole(body) && 1 <= initstat <= curstat
      && Leaves(2) == Origin(body, anchor)
      && (initstat == 2 || Leaves(initstat) == HatOrigin(body, anchor))
    }

    /** `mkdfa` on a parse tree. */
    constructor (p: Re, anchor: bool)
      ensures Ready() && body == Renumber(p, 1) && this.anchor == anchor && fresh(w) && fresh(w.re) && fresh(w.setvec)
      ensures Leaves(initstat) == HatOrigin(body, anchor)
    {
      ghost var tree;
      var walker;
      tree, walker := Build(p);
      w, root, body := walker, tree, Renumber(p, 1);
      accept := walker.re.Length - 1;
      RowFacts(walker.re[..], tree, 0);
      InitialRow(walker.re[..], tree, Renumber(p, 1));
      var start := walker.re[0].lfollow;
      posns, out, gototab := [[], [], start], [false, false, start[0] == walker.re.Length - 1], [[], [], []];
      curstat, initstat := 2, 2;
      this.anchor := anchor;
      new;
      MakeInit(anchor);
    }

    /** `set_gototab` for a transition just computed. */
    method Memoise(s: nat, c: nat, to: nat)
      requires Valid() && 1 <= s <= curstat && 1 <= to <= curstat && Numbered(root, 0)
      requires Leaves(to) == Step(root, accept, Leaves(s), c)
      modifies `gototab
      ensures Valid()
      ensures gototab[..s] == old(gototab[..s]) && gototab[s + 1..] == old(gototab[s + 1..])
      ensures forall x :: Lookup(gototab[s], x) == if x == c then to else old(Lookup(gototab[s], x))
    {
      hide Machine, MemoOk, Good, TableOk;
      StateFacts(root, posns, out, gototab, s);
      var tab := SetGototab(gototab[s], c, to);
      MemoEntry(root, posns, gototab[s], tab, s, c, to);
      Remember(root, posns, out, gototab, s, tab);
      gototab := gototab[s := tab];
    }

    method AddState(p: seq<nat>, final: bool)
      requires Valid() && Numbered(root, 0) && StateOk(root, p, final)
      requires forall i: nat :: 1 <= i <= curstat ==> posns[i] != p
      modifies `posns, `out, `gototab, `curstat
      ensures Valid() && curstat == old(curstat) + 1
      ensures posns == old(posns) + [p] && out == old(out) + [final] && gototab == old(gototab) + [[]]
    {
      hide Machine, MemoOk, StateOk, TableOk;
      Grow(root, posns, out, gototab, p, final);
      MachineLength(root, posns, out, gototab);
      curstat := curstat + 1;
      posns, out, gototab := posns + [p], out + [final], gototab + [[]];
    }

    /** Compute the state reached by reading `c`, add it when it is new, and remember the answer. */
    method Cgoto(s: nat, c: nat) returns (to: nat)
      requires Valid() && 1 <= s <= curstat
      modifies `posns, `out, `gototab, `curstat, w`setcnt, w.setvec
      ensures Valid() && 1 <= to <= curstat && old(curstat) <= curstat <= old(curstat) + 1
      ensures Leaves(to) == Step(root, accept, old(Leaves(s)), c)
      ensures old(posns) <= posns && old(out) <= out
      ensures to == curstat || curstat == old(curstat)
      ensures c == HAT ==> gototab == old(gototab) || gototab == old(gototab) + [[]]
      ensures c != HAT ==> |gototab| == curstat + 1 && Lookup(gototab[s], c) == to
    {
      hide Machine, MemoOk, Lists, Good, TableOk;
      StateFacts(root, posns, out, gototab, s);
      TableLength(w.re[..], root);
      Positions(w, posns[s], c, root);
      var tmpset := w.Listed(accept);
      ListsElems(tmpset, w.Marked());
      var i := 1;
      while i <= curstat
        invariant 1 <= i <= curstat + 1
        invariant forall k: nat :: 1 <= k < i ==> posns[k] != tmpset
      {
        if w.setcnt == |posns[i]| && tmpset == posns[i] {
          if c != HAT {
            Memoise(s, c, i);
            MachineLength(root, posns, out, gototab);
          }
          return i;
        }
        i := i + 1;
      }
      StepGood(root, old(Leaves(s)), c);
      assert w.setvec[accept] <==> accept in w.Marked();
      AddState(tmpset, w.setvec[accept]);
      if c != HAT {
        Memoise(s, c, curstat);
        MachineLength(root, posns, out, gototab);
      }
      return curstat;
    }

    /** Leave out position 0, the last of a list, in the starting states. */
    method DropZeros()
      requires 3 <= |posns| <= 4 && |out| == |posns| == curstat + 1 && posns[1] == []
      requires posns[2] != [] && (curstat == 3 ==> posns[3] != [])
      modifies `posns, `out
      ensures posns == var p2 := old(Anchored(posns[2]));
                       if curstat == 2 then [p2, [], p2] else [p2, [], p2, old(Anchored(posns[3]))]
      ensures out == old(out[0 := out[2]])
    {
      posns := posns[2 := posns[2][..|posns[2]| - 1]];
      posns, out := posns[0 := posns[2]], out[0 := out[2]];
      if curstat != 2 {
        posns := posns[curstat := posns[curstat][..|posns[curstat]| - 1]];
      }
    }

    /** The state after the beginning of the text, not remembered. */
    method HatState()
      requires Valid() && Numbered(body, 1) && root == Whole(body) && curstat == 2
      requires Leaves(2) == {0} + Body(body) && gototab == [[], [], []]
      modifies `posns, `out, `gototab, `curstat, w`setcnt, w.setvec
      ensures Valid() && 2 <= curstat <= 3 && Leaves(curstat) == {0} + HatBody(body) && Leaves(2) == {0} + Body(body)
      ensures forall i :: 0 <= i < |gototab| ==> gototab[i] == []
    {
      hide Machine, MemoOk, TableOk, Body, HatBody, Step, Elems, Lookup, Numbered, Whole;
      HatStep(body);
      WholeAccept(body);
      MachineLength(root, posns, out, gototab);
      var st := Cgoto(2, HAT);
      MachineLength(root, posns, out, gototab);
      NotDead(posns, st);
      curstat := st;
    }

    /** The starting state; an anchored automaton drops `ALL*`'s leaf once the HAT state is made. */
    method MakeInit(anchor: bool)
      requires Valid() && Numbered(body, 1) && root == Whole(body) && curstat == 2 && this.anchor == anchor
      requires Leaves(2) == {0} + Body(body) && gototab == [[], [], []]
      modifies `posns, `out, `gototab, `curstat, `initstat, w`setcnt, w.setvec
      ensures Ready() && Leaves(initstat) == HatOrigin(body, anchor)
    {
      hide Machine, MemoOk, TableOk, Body, HatBody, Anchored;
      HatState();
      MachineLength(root, posns, out, gototab);
      if anchor {
        HatBodyMore(body);
        SameWithout(Body(body), HatBody(body));
        AnchoredMachine(root, body, posns, out, gototab);
        DropZeros();
        MachineLength(root, posns, out, gototab);
      }
      initstat := curstat;
    }
  }
}
