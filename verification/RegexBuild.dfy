/**
 awk's construction of the position table: `penter` numbers the leaves, `first` and `follow` collect
 leaves into a shared vector, and `cfoll` writes each leaf's follow list.
 */
module RegexBuild {
  import opened RegexTree
  import opened RegexAutomaton

  // ----- penter -----

  /** The tree with its leaves numbered from `lo`. */
  function Renumber(t: Re, lo: nat): (r: Re)
    ensures Size(r) == Size(t) && Numbered(r, lo)
  {
    match t
    case Leaf(k, _) => Leaf(k, lo)
    case Star(r) => Star(Renumber(r, lo))
    case Plus(r) => Plus(Renumber(r, lo))
    case Quest(r) => Quest(Renumber(r, lo))
    case Cat(l, r) => Cat(Renumber(l, lo), Renumber(r, lo + Size(l)))
    case Or(l, r) => Or(Renumber(l, lo), Renumber(r, lo + Size(l)))
    case Zero(r) => t
  }

  method Penter(t: Re, poscnt: nat) returns (r: Re, next: nat)
    ensures r == Renumber(t, poscnt) && next == poscnt + Size(t)
    decreases t
  {
    match t
    case Leaf(k, _) =>
      r, next := Leaf(k, poscnt), poscnt + 1;
    case Star(a) =>
      r, next := Penter(a, poscnt);
      r := Star(r);
    case Plus(a) =>
      r, next := Penter(a, poscnt);
      r := Plus(r);
    case Quest(a) =>
      r, next := Penter(a, poscnt);
      r := Quest(r);
    case Cat(a, b) =>
      var left, right;
      left, next := Penter(a, poscnt);
      right, next := Penter(b, next);
      r := Cat(left, right);
    case Or(a, b) =>
      var left, right;
      left, next := Penter(a, poscnt);
      right, next := Penter(b, next);
      r := Or(left, right);
    case Zero(a) =>
      r, next := t, poscnt;
  }

  /** Numbering does not change the language. */
  lemma {:induction false} RenumberMatches(t: Re, lo: nat, w: seq<int>)
    ensures Matches(Renumber(t, lo), w) <==> Matches(t, w)
    decreases |w|, t
  {
    var u := Renumber(t, lo);
    match t
    case Leaf(_, _) =>
    case Star(r) =>
      forall i | 1 <= i <= |w|
        ensures Matches(Renumber(r, lo), w[..i]) <==> Matches(r, w[..i])
        ensures Matches(u, w[i..]) <==> Matches(t, w[i..])
      {
        RenumberMatches(r, lo, w[..i]);
        RenumberMatches(t, lo, w[i..]);
      }
    case Plus(r) =>
      RenumberMatches(r, lo, w);
      forall i | 1 <= i < |w|
        ensures Matches(Renumber(r, lo), w[..i]) <==> Matches(r, w[..i])
        ensures Matches(u, w[i..]) <==> Matches(t, w[i..])
      {
        RenumberMatches(r, lo, w[..i]);
        RenumberMatches(t, lo, w[i..]);
      }
    case Quest(r) => RenumberMatches(r, lo, w);
    case Cat(l, r) =>
      forall i | 0 <= i <= |w|
        ensures Matches(Renumber(l, lo), w[..i]) <==> Matches(l, w[..i])
        ensures Matches(Renumber(r, lo + Size(l)), w[i..]) <==> Matches(r, w[i..])
      {
        RenumberMatches(l, lo, w[..i]);
        RenumberMatches(r, lo + Size(l), w[i..]);
      }
    case Or(l, r) =>
      RenumberMatches(l, lo, w);
      RenumberMatches(r, lo + Size(l), w);
    case Zero(_) =>
  }

  // ----- first and follow -----

  /** A list of leaves as awk keeps it: highest first, no repetition. */
  ghost predicate Lists(list: seq<nat>, s: set<nat>) {
    && (forall i, j :: 0 <= i < j < |list| ==> list[i] > list[j])
    && (forall x :: x in list <==> x in s)
  }

  datatype Row = LeafRow(kind: Kind, lfollow: seq<nat>) | FinalRow

  ghost predicate RowOk(row: Row, root: Re, accept: nat, p: nat)
    requires Numbered(root, 0) && p < Size(root)
  {
    row.LeafRow? && row.kind == KindOf(root, accept, p) && Lists(row.lfollow, FollowOf(root, accept, p))
  }

  /** No leaf of the empty expression is marked. */
  ghost predicate NoEmptyRe(s: set<nat>, root: Re, accept: nat)
    requires Numbered(root, 0)
  {
    forall p :: p in s && p < Size(root) ==> !KindOf(root, accept, p).EmptyRe?
  }

  lemma {:induction false} FirstNotEmptyRe(t: Re, c: Ctx, lo: nat, p: nat)
    requires Numbered(t, lo) && p in FirstSet(t)
    ensures lo <= p < lo + Size(t) && !LeafIn(t, c, lo, p).0.EmptyRe?
    decreases t
  {
    FirstInside(t, lo);
    match t
    case Leaf(_, _) =>
    case Star(r) => FirstNotEmptyRe(r, InStar(r, c), lo, p);
    case Plus(r) => FirstNotEmptyRe(r, InPlus(r, c), lo, p);
    case Quest(r) => FirstNotEmptyRe(r, InQuest(c), lo, p);
    case Cat(l, r) =>
      FirstInside(l, lo);
      FirstInside(r, lo + Size(l));
      if p in FirstSet(l) { FirstNotEmptyRe(l, CatLeft(r, c), lo, p); } else { FirstNotEmptyRe(r, CatRight(l, c), lo + Size(l), p); }
    case Or(l, r) =>
      FirstInside(l, lo);
      FirstInside(r, lo + Size(l));
      if p in FirstSet(l) { FirstNotEmptyRe(l, OrLeft(r, c), lo, p); } else { FirstNotEmptyRe(r, OrRight(l, c), lo + Size(l), p); }
    case Zero(_) =>
  }

  /** `t` stands in `c`, and the whole is `root`, followed by FINAL with number `accept`. */
  ghost predicate Within(t: Re, c: Ctx, root: Re, accept: nat) {
    Around(c, t) && Plug(c, t) == root && Numbered(root, 0) && AcceptOf(c) == accept >= Size(root)
  }

  lemma WithinParts(t: Re, c: Ctx, root: Re, accept: nat)
    requires Within(t, c, root, accept)
    ensures t.Star? ==> Within(t.r, InStar(t.r, c), root, accept)
    ensures t.Plus? ==> Within(t.r, InPlus(t.r, c), root, accept)
    ensures t.Quest? ==> Within(t.r, InQuest(c), root, accept)
    ensures t.Cat? ==> Within(t.left, CatLeft(t.right, c), root, accept) && Within(t.right, CatRight(t.left, c), root, accept)
    ensures t.Or? ==> Within(t.left, OrLeft(t.right, c), root, accept) && Within(t.right, OrRight(t.left, c), root, accept)
  {
  }

  lemma AddFirst(s: set<nat>, c: Ctx, t: Re, root: Re, accept: nat)
    requires Within(t, c, root, accept) && NoEmptyRe(s, root, accept)
    ensures NoEmptyRe(s + FirstSet(t), root, accept)
    ensures forall p :: p in FirstSet(t) ==> p < Size(root)
  {
    LeafInPlug(c, t, 0);
    forall p | p in FirstSet(t) ensures p < Size(root) && !KindOf(root, accept, p).EmptyRe? {
      FirstNotEmptyRe(t, c, LowOf(c), p);
      LeafInPlug(c, t, p);
    }
  }

  class Walker {
    const setvec: array<bool>
    var setcnt: nat
    const re: array<Row>

    ghost function Marked(): (s: set<nat>)
      reads setvec
      ensures forall i: nat :: i in s <==> i < setvec.Length && setvec[i]
    {
      set i: nat | i < setvec.Length && setvec[i]
    }

    constructor (positions: nat)
      ensures fresh(setvec) && fresh(re) && setvec.Length == re.Length == positions
    {
      setvec := new bool[positions](_ => false);
      re := new Row[positions](_ => FinalRow);
      setcnt := 0;
    }

    method Mark(lp: nat)
      requires lp < setvec.Length && setcnt == |Marked()|
      modifies `setcnt, setvec
      ensures Marked() == old(Marked()) + {lp} && setcnt == |Marked()|
    {
      ghost var before := Marked();
      if !setvec[lp] {
        setvec[lp] := true;
        setcnt := setcnt + 1;
      }
      assert Marked() == before + {lp};
    }

    method FirstLeaf(kind: Kind, lp: nat, ghost c: Ctx, ghost root: Re, ghost accept: nat) returns (b: int)
      requires Within(Leaf(kind, lp), c, root, accept) && accept < setvec.Length
      requires setcnt == |Marked()| && NoEmptyRe(Marked(), root, accept)
      modifies `setcnt, setvec
      ensures Marked() == old(Marked()) + FirstSet(Leaf(kind, lp)) && setcnt == |Marked()|
      ensures b == if Silent(kind) then 0 else 1
    {
      LeafInPlug(c, Leaf(kind, lp), lp);
      if kind.EmptyRe? {
        assert lp !in Marked();
        setvec[lp] := false;
        assert Marked() == old(Marked());
        return 0;
      }
      Mark(lp);
      if kind.Ccl? && EmptyList(kind.list) {
        return 0;
      }
      return 1;
    }

    /** Mark the leaves `t` can start at; 0 when it matches the empty string. */
    method First(t: Re, ghost c: Ctx, ghost root: Re, ghost accept: nat) returns (b: int)
      requires Within(t, c, root, accept) && accept < setvec.Length
      requires setcnt == |Marked()| && NoEmptyRe(Marked(), root, accept)
      modifies `setcnt, setvec
      ensures Marked() == old(Marked()) + FirstSet(t) && setcnt == |Marked()|
      ensures NoEmptyRe(Marked(), root, accept)
      ensures b == if Nullable(t) then 0 else 1
      decreases t, 1
    {
      hide NoEmptyRe, Within, Marked;
      ghost var before := Marked();
      AddFirst(before, c, t, root, accept);
      WithinParts(t, c, root, accept);
      match t
      case Leaf(kind, lp) =>
        b := FirstLeaf(kind, lp, c, root, accept);
      case Plus(r) =>
        b := First(r, InPlus(r, c), root, accept);
      case Star(r) =>
        b := First(r, InStar(r, c), root, accept);
        b := 0;
      case Quest(r) =>
        b := First(r, InQuest(c), root, accept);
        b := 0;
      case Cat(l, r) =>
        b := FirstCat(l, r, c, root, accept);
      case Or(l, r) =>
        b := FirstOr(l, r, c, root, accept);
      case Zero(_) =>
        b := 0;
    }

    method FirstCat(l: Re, r: Re, ghost c: Ctx, ghost root: Re, ghost accept: nat) returns (b: int)
      requires Within(Cat(l, r), c, root, accept) && accept < setvec.Length
      requires setcnt == |Marked()| && NoEmptyRe(Marked(), root, accept)
      modifies `setcnt, setvec
      ensures Marked() == old(Marked()) + FirstSet(Cat(l, r)) && setcnt == |Marked()|
      ensures NoEmptyRe(Marked(), root, accept)
      ensures b == if Nullable(Cat(l, r)) then 0 else 1
      decreases Cat(l, r), 0
    {
      hide NoEmptyRe, Within, Marked, FirstSet, Nullable;
      WithinParts(Cat(l, r), c, root, accept);
      CatSets(Marked(), l, r);
      b := First(l, CatLeft(r, c), root, accept);
      if b == 0 {
        b := First(r, CatRight(l, c), root, accept);
      }
    }

    method FirstOr(l: Re, r: Re, ghost c: Ctx, ghost root: Re, ghost accept: nat) returns (b: int)
      requires Within(Or(l, r), c, root, accept) && accept < setvec.Length
      requires setcnt == |Marked()| && NoEmptyRe(Marked(), root, accept)
      modifies `setcnt, setvec
      ensures Marked() == old(Marked()) + FirstSet(Or(l, r)) && setcnt == |Marked()|
      ensures NoEmptyRe(Marked(), root, accept)
      ensures b == if Nullable(Or(l, r)) then 0 else 1
      decreases Or(l, r), 0
    {
      hide NoEmptyRe, Within, Marked, FirstSet, Nullable;
      WithinParts(Or(l, r), c, root, accept);
      OrSets(Marked(), l, r);
      b := First(r, OrRight(l, c), root, accept);
      var b' := First(l, OrLeft(r, c), root, accept);
      b := if b' == 0 || b == 0 then 0 else 1;
    }

    /** Mark the leaves that can come after the subtree `v`, going up through its parents. */
    method Follow(v: Re, c: Ctx, ghost root: Re, ghost accept: nat)
      requires Within(v, c, root, accept) && accept < setvec.Length
      requires setcnt == |Marked()| && NoEmptyRe(Marked(), root, accept)
      modifies `setcnt, setvec
      ensures Marked() == old(Marked()) + FollowSet(c) && setcnt == |Marked()|
      ensures NoEmptyRe(Marked(), root, accept)
      decreases c, 1
    {
      hide NoEmptyRe, Within, Marked, FirstSet, Nullable;
      WithinUp(v, c, root, accept);
      match c
      case InStar(_, up) => FollowLoop(v, c, Star(v), root, accept);
      case InPlus(_, up) => FollowLoop(v, c, Plus(v), root, accept);
      case OrLeft(r, up) => Follow(Or(v, r), up, root, accept);
      case OrRight(l, up) => Follow(Or(l, v), up, root, accept);
      case InQuest(up) => Follow(Quest(v), up, root, accept);
      case CatLeft(r, up) => FollowCat(v, r, up, root, accept);
      case CatRight(l, up) => Follow(Cat(l, v), up, root, accept);
      case Root(final) =>
        AddAccept(Marked(), v, c, root, accept);
        Mark(final);
    }

    /** Out of a repetition: another round, or what comes after it. */
    method FollowLoop(v: Re, c: Ctx, parent: Re, ghost root: Re, ghost accept: nat)
      requires c.InStar? || c.InPlus?
      requires Within(v, c, root, accept) && accept < setvec.Length && c.body == v && Within(parent, c.up, root, accept)
      requires setcnt == |Marked()| && NoEmptyRe(Marked(), root, accept)
      modifies `setcnt, setvec
      ensures Marked() == old(Marked()) + FollowSet(c) && setcnt == |Marked()|
      ensures NoEmptyRe(Marked(), root, accept)
      decreases c, 0
    {
      hide NoEmptyRe, Within, Marked, FirstSet, Nullable;
      UnionThree(Marked(), FirstSet(v), FollowSet(c.up));
      var _ := First(v, c, root, accept);
      Follow(parent, c.up, root, accept);
    }

    method FollowCat(v: Re, r: Re, up: Ctx, ghost root: Re, ghost accept: nat)
      requires Within(v, CatLeft(r, up), root, accept) && accept < setvec.Length
      requires setcnt == |Marked()| && NoEmptyRe(Marked(), root, accept)
      modifies `setcnt, setvec
      ensures Marked() == old(Marked()) + FollowSet(CatLeft(r, up)) && setcnt == |Marked()|
      ensures NoEmptyRe(Marked(), root, accept)
      decreases CatLeft(r, up), 0
    {
      hide NoEmptyRe, Within, Marked, FirstSet, Nullable;
      WithinUp(v, CatLeft(r, up), root, accept);
      UnionThree(Marked(), FirstSet(r), FollowSet(up));
      UnionThree(Marked(), FirstSet(r), {});
      var b := First(r, CatRight(v, up), root, accept);
      if b == 0 {
        Follow(Cat(v, r), up, root, accept);
      }
    }

    /** The marked leaves up to `accept`, highest first. */
    method Listed(accept: nat) returns (p: seq<nat>)
      requires accept < setvec.Length && forall i :: accept < i < setvec.Length ==> !setvec[i]
      ensures Lists(p, Marked()) && |p| == |Marked()|
    {
      p := [];
      var i := accept + 1;
      ghost var s: set<nat> := {};
      while i > 0
        invariant 0 <= i <= accept + 1
        invariant forall x: nat :: x in p <==> i <= x < setvec.Length && setvec[x]
        invariant forall a, b :: 0 <= a < b < |p| ==> p[a] > p[b]
        invariant |p| == |s| && forall x :: x in s <==> x in p
      {
        i := i - 1;
        if setvec[i] {
          assert forall a :: 0 <= a < |p| ==> p[a] in p;
          p := p + [i];
          s := s + {i};
        }
      }
      assert s == Marked();
    }

    method Clear()
      modifies `setcnt, setvec
      ensures Marked() == {} && setcnt == 0
    {
      for i := 0 to setvec.Length
        invariant forall k :: 0 <= k < i ==> !setvec[k]
      {
        setvec[i] := false;
      }
      setcnt := 0;
      assert Marked() == {};
    }

    /** One leaf's row. */
    method LeafRowOf(kind: Kind, lp: nat, c: Ctx, ghost root: Re, ghost accept: nat) returns (row: Row)
      requires Within(Leaf(kind, lp), c, root, accept) && accept + 1 == setvec.Length
      modifies `setcnt, setvec
      ensures lp == LowOf(c) < Size(root) && RowOk(row, root, accept, lp)
    {
      hide FollowSet, NoEmptyRe;
      LeafInPlug(c, Leaf(kind, lp), lp);
      Clear();
      NothingMarked(root, accept);
      Follow(Leaf(kind, lp), c, root, accept);
      assert Marked() == FollowSet(c);
      var p := Listed(setvec.Length - 1);
      row := LeafRow(kind, p);
    }

    /** Fill in the row of every leaf of `v`, and no other. */
    method Cfoll(v: Re, c: Ctx, ghost root: Re, ghost accept: nat)
      requires Within(v, c, root, accept) && accept + 1 == setvec.Length == re.Length
      modifies `setcnt, setvec, re
      ensures LowOf(c) + Size(v) <= Size(root)
      ensures forall p: nat :: LowOf(c) <= p < LowOf(c) + Size(v) ==> RowOk(re[p], root, accept, p)
      ensures forall p: nat :: p < re.Length && !(LowOf(c) <= p < LowOf(c) + Size(v)) ==> re[p] == old(re[p])
      decreases v
    {
      hide RowOk, Within, Marked;
      WithinParts(v, c, root, accept);
      WithinSize(v, c, root, accept);
      match v
      case Leaf(kind, lp) =>
        var row := LeafRowOf(kind, lp, c, root, accept);
        re[lp] := row;
      case Star(r) => Cfoll(r, InStar(r, c), root, accept);
      case Plus(r) => Cfoll(r, InPlus(r, c), root, accept);
      case Quest(r) => Cfoll(r, InQuest(c), root, accept);
      case Cat(l, r) =>
        Cfoll(l, CatLeft(r, c), root, accept);
        Cfoll(r, CatRight(l, c), root, accept);
      case Or(l, r) =>
        Cfoll(l, OrLeft(r, c), root, accept);
        Cfoll(r, OrRight(l, c), root, accept);
      case Zero(_) =>
    }
  }

  /** The table of a whole expression: one row per leaf, FINAL's last and empty. */
  ghost predicate TableOk(re: seq<Row>, root: Re) {
    && Numbered(root, 0)
    && |re| == Size(root) + 1
    && (forall p: nat :: p < Size(root) ==> RowOk(re[p], root, Size(root), p))
    && re[Size(root)] == FinalRow
  }

  /** `penter` and `cfoll` on the tree with `ALL*` in front and FINAL behind. */
  method Build(p: Re) returns (ghost root: Re, w: Walker)
    ensures root == Whole(Renumber(p, 1)) && TableOk(w.re[..], root)
    ensures fresh(w) && fresh(w.re) && fresh(w.setvec) && w.setvec.Length == w.re.Length
  {
    var p1 := Cat(Star(Leaf(All, 0)), p);
    var tree, poscnt := Penter(p1, 0);
    root := tree;
    assert root == Whole(Renumber(p, 1)) by {
      assert Size(Star(Leaf(All, 0))) == Size(Leaf(All, 0)) == 1;
    }
    w := new Walker(poscnt + 1);
    w.Cfoll(tree, Root(poscnt), root, poscnt);
    w.re[poscnt] := FinalRow;
  }

  lemma UnionThree(a: set<nat>, b: set<nat>, c: set<nat>)
    ensures a + b + c == a + (b + c) && a + b + {} == a + b && a + (b + {}) == a + b
  {
  }

  lemma CatSets(a: set<nat>, l: Re, r: Re)
    ensures a + FirstSet(Cat(l, r)) == if Nullable(l) then a + FirstSet(l) + FirstSet(r) else a + FirstSet(l)
    ensures Nullable(Cat(l, r)) <==> Nullable(l) && Nullable(r)
  {
  }

  lemma OrSets(a: set<nat>, l: Re, r: Re)
    ensures a + FirstSet(Or(l, r)) == a + FirstSet(r) + FirstSet(l)
    ensures Nullable(Or(l, r)) <==> Nullable(l) || Nullable(r)
  {
  }

  lemma NothingMarked(root: Re, accept: nat)
    requires Numbered(root, 0)
    ensures NoEmptyRe({}, root, accept)
  {
  }

  lemma WithinSize(v: Re, c: Ctx, root: Re, accept: nat)
    requires Within(v, c, root, accept)
    ensures Numbered(root, 0) && LowOf(c) + Size(v) <= Size(root) <= accept
  {
    LeafInPlug(c, v, 0);
  }

  lemma WithinUp(v: Re, c: Ctx, root: Re, accept: nat)
    requires Within(v, c, root, accept)
    ensures c.InStar? ==> c.body == v && Within(Star(v), c.up, root, accept)
    ensures c.InPlus? ==> c.body == v && Within(Plus(v), c.up, root, accept)
    ensures c.InQuest? ==> Within(Quest(v), c.up, root, accept)
    ensures c.CatLeft? ==> Within(Cat(v, c.right), c.up, root, accept) && Within(c.right, CatRight(v, c.up), root, accept)
    ensures c.CatRight? ==> Within(Cat(c.left, v), c.up, root, accept)
    ensures c.OrLeft? ==> Within(Or(v, c.right), c.up, root, accept)
    ensures c.OrRight? ==> Within(Or(c.left, v), c.up, root, accept)
    ensures c.Root? ==> c.accept == accept
  {
  }

  lemma AddAccept(s: set<nat>, v: Re, c: Ctx, root: Re, accept: nat)
    requires Within(v, c, root, accept) && NoEmptyRe(s, root, accept)
    ensures NoEmptyRe(s + {accept}, root, accept)
  {
  }
}
