/**
 From the follow sets to an automaton over sets of leaves: the second theorem, the subset step, and
 the language of awk's three starting states.
 */
module RegexAutomaton {
  import opened RegexTree

  lemma AcceptsUnion(root: Re, accept: nat, a: set<nat>, b: set<nat>, w: seq<int>)
    requires Numbered(root, 0)
    ensures Accepts(root, accept, a + b, w) <==> Accepts(root, accept, a, w) || Accepts(root, accept, b, w)
  {
  }

  lemma AcceptsNothing(root: Re, accept: nat, w: seq<int>)
    requires Numbered(root, 0)
    ensures !Accepts(root, accept, {}, w)
  {
  }

  lemma AcceptOnly(root: Re, accept: nat, w: seq<int>)
    requires Numbered(root, 0) && accept >= Size(root)
    ensures Accepts(root, accept, {accept}, w) <==> w == []
  {
  }

  /** What follows a subtree concatenated with `r`: `r` and the rest, or the rest alone past an empty `r`. */
  lemma CatLeftRest(r: Re, l: Re, up: Ctx, w: seq<int>)
    ensures Rest(CatLeft(r, up), w) <==> (Nullable(r) && Rest(up, w)) || Runs(r, CatRight(l, up), w)
  {
    NullableMatches(r);
    assert w[..0] == [] && w[0..] == w;
    assert forall i :: 1 <= i <= |w| ==> (Cut(r, CatRight(l, up), w, i) <==> Matches(r, w[..i]) && Rest(up, w[i..]));
  }

  lemma InStarRest(t: Re, c: Ctx, up: Ctx, w: seq<int>)
    requires c == InStar(t, up) || c == InPlus(t, up)
    ensures Rest(c, w) <==> Rest(up, w) || Runs(t, c, w)
  {
    assert forall i :: 1 <= i <= |w| ==> (Cut(t, c, w, i) <==> Matches(t, w[..i]) && Rest(c, w[i..]));
  }

  /** The leaves a subtree starts at accept the words it runs on; never the empty one. */
  lemma FirstAccepts(t: Re, c: Ctx, root: Re, accept: nat, w: seq<int>)
    requires Around(c, t) && Plug(c, t) == root && Numbered(root, 0) && accept == AcceptOf(c) >= Size(root)
    ensures Accepts(root, accept, FirstSet(t), w) <==> Runs(t, c, w)
  {
    hide Runs, Starts;
    LeafInPlug(c, t, 0);
    FirstInside(t, LowOf(c));
    if w == [] {
      NoRunOnNothing(t, c);
    } else {
      FirstTheorem(t, c, LowOf(c), w);
      StartsFromRoot(c, t, w);
    }
  }

  lemma NoRunOnNothing(t: Re, c: Ctx)
    ensures !Runs(t, c, [])
  {
  }

  /**
   Second theorem: what may follow a subtree is exactly what the leaves `follow` collects accept.
   */
  lemma {:induction false} FollowTheorem(c: Ctx, t: Re, root: Re, accept: nat, w: seq<int>)
    requires Around(c, t) && Plug(c, t) == root && Numbered(root, 0) && accept == AcceptOf(c) >= Size(root)
    ensures Rest(c, w) <==> Accepts(root, accept, FollowSet(c), w)
    decreases c
  {
    hide Accepts, Runs, Nullable;
    match c
    case Root(_) => AcceptOnly(root, accept, w);
    case InStar(_, up) =>
      InStarRest(t, c, up, w);
      FirstAccepts(t, c, root, accept, w);
      FollowTheorem(up, Star(t), root, accept, w);
      AcceptsUnion(root, accept, FirstSet(t), FollowSet(up), w);
    case InPlus(_, up) =>
      InStarRest(t, c, up, w);
      FirstAccepts(t, c, root, accept, w);
      FollowTheorem(up, Plus(t), root, accept, w);
      AcceptsUnion(root, accept, FirstSet(t), FollowSet(up), w);
    case InQuest(up) => FollowTheorem(up, Quest(t), root, accept, w);
    case CatLeft(r, up) =>
      CatLeftRest(r, t, up, w);
      FirstAccepts(r, CatRight(t, up), root, accept, w);
      FollowTheorem(up, Cat(t, r), root, accept, w);
      AcceptsUnion(root, accept, FirstSet(r), if Nullable(r) then FollowSet(up) else {}, w);
      AcceptsNothing(root, accept, w);
    case CatRight(l, up) => FollowTheorem(up, Cat(l, t), root, accept, w);
    case OrLeft(r, up) => FollowTheorem(up, Or(t, r), root, accept, w);
    case OrRight(l, up) => FollowTheorem(up, Or(l, t), root, accept, w);
  }

  /** Every leaf of the whole is plugged into its own surroundings. */
  lemma {:induction false} LeafAround(t: Re, c: Ctx, lo: nat, p: nat)
    requires Around(c, t) && Numbered(t, lo) && lo <= p < lo + Size(t)
    ensures var (k, up) := LeafIn(t, c, lo, p);
            Around(up, Leaf(k, p)) && Plug(up, Leaf(k, p)) == Plug(c, t) && AcceptOf(up) == AcceptOf(c)
    decreases t
  {
    match t
    case Leaf(_, _) =>
    case Star(r) => LeafAround(r, InStar(r, c), lo, p);
    case Plus(r) => LeafAround(r, InPlus(r, c), lo, p);
    case Quest(r) => LeafAround(r, InQuest(c), lo, p);
    case Cat(l, r) =>
      if p < lo + Size(l) { LeafAround(l, CatLeft(r, c), lo, p); } else { LeafAround(r, CatRight(l, c), lo + Size(l), p); }
    case Or(l, r) =>
      if p < lo + Size(l) { LeafAround(l, OrLeft(r, c), lo, p); } else { LeafAround(r, OrRight(l, c), lo + Size(l), p); }
  }

  // ----- the automaton -----

  function KindOf(root: Re, accept: nat, p: nat): Kind
    requires Numbered(root, 0) && p < Size(root)
  {
    LeafIn(root, Root(accept), 0, p).0
  }

  /** The follow set of a leaf. */
  function FollowOf(root: Re, accept: nat, p: nat): set<nat>
    requires Numbered(root, 0) && p < Size(root)
  {
    FollowSet(LeafIn(root, Root(accept), 0, p).1)
  }

  /** Leaf `q` can come right after some leaf of `s` that reads `c`. */
  ghost predicate Next(root: Re, accept: nat, s: set<nat>, c: int, q: nat)
    requires Numbered(root, 0)
  {
    exists p :: p in s && Moves(root, accept, p, c, q)
  }

  ghost predicate Moves(root: Re, accept: nat, p: nat, c: int, q: nat)
    requires Numbered(root, 0)
  {
    p < Size(root) && Reads(KindOf(root, accept, p), c) && q in FollowOf(root, accept, p)
  }

  /** The leaves reached from `s` by reading `c`. */
  ghost function Step(root: Re, accept: nat, s: set<nat>, c: int): (r: set<nat>)
    requires Numbered(root, 0)
    ensures forall q :: q in r <==> Next(root, accept, s, c, q)
  {
    FollowBounded(root, accept);
    var r := set q | 0 <= q <= Bound(root, accept) && Next(root, accept, s, c, q);
    r
  }

  function Bound(root: Re, accept: nat): nat {
    Size(root) + accept
  }

  lemma {:induction false} ContextBounded(c: Ctx, t: Re)
    requires Around(c, t) && Numbered(Plug(c, t), 0)
    ensures forall q :: q in FollowSet(c) ==> q < Size(Plug(c, t)) || q == AcceptOf(c)
    decreases c
  {
    LeafInPlug(c, t, 0);
    FirstInside(t, LowOf(c));
    match c
    case Root(_) =>
    case InStar(_, up) => ContextBounded(up, Star(t));
    case InPlus(_, up) => ContextBounded(up, Plus(t));
    case InQuest(up) => ContextBounded(up, Quest(t));
    case CatLeft(r, up) =>
      LeafInPlug(CatRight(t, up), r, 0);
      FirstInside(r, LowOf(CatRight(t, up)));
      ContextBounded(up, Cat(t, r));
    case CatRight(l, up) => ContextBounded(up, Cat(l, t));
    case OrLeft(r, up) => ContextBounded(up, Or(t, r));
    case OrRight(l, up) => ContextBounded(up, Or(l, t));
  }

  lemma FollowBounded(root: Re, accept: nat)
    requires Numbered(root, 0)
    ensures forall p, q :: 0 <= p < Size(root) && q in FollowOf(root, accept, p) ==> q < Size(root) || q == accept
  {
    forall p, q | 0 <= p < Size(root) && q in FollowOf(root, accept, p) ensures q < Size(root) || q == accept {
      LeafAround(root, Root(accept), 0, p);
      var (k, c) := LeafIn(root, Root(accept), 0, p);
      ContextBounded(c, Leaf(k, p));
    }
  }

  /** One step of the automaton takes the first rune off the words a set accepts. */
  lemma StepAccepts(root: Re, accept: nat, s: set<nat>, c: int, w: seq<int>)
    requires Numbered(root, 0) && accept >= Size(root)
    ensures Accepts(root, accept, s, [c] + w) <==> Accepts(root, accept, Step(root, accept, s, c), w)
  {
    hide Reads;
    var next, cw := Step(root, accept, s, c), [c] + w;
    assert cw[1..] == w;
    if Accepts(root, accept, s, cw) {
      var p :| p in s && StartsAt(root, Root(accept), 0, p, cw);
      LeafFollow(root, accept, p, w);
      AcceptsMore(root, accept, FollowOf(root, accept, p), next, w) by {
        forall q | q in FollowOf(root, accept, p) ensures q in next {
          assert Moves(root, accept, p, c, q);
        }
      }
    }
    if Accepts(root, accept, next, w) {
      var q := if w == [] then accept else var q :| q in next && StartsAt(root, Root(accept), 0, q, w); q;
      var p :| p in s && Moves(root, accept, p, c, q);
      AcceptsMore(root, accept, {q}, FollowOf(root, accept, p), w);
      LeafFollow(root, accept, p, w);
      assert StartsAt(root, Root(accept), 0, p, cw);
    }
  }

  lemma LeafFollow(root: Re, accept: nat, p: nat, w: seq<int>)
    requires Numbered(root, 0) && accept >= Size(root) && p < Size(root)
    ensures Rest(LeafIn(root, Root(accept), 0, p).1, w) <==> Accepts(root, accept, FollowOf(root, accept, p), w)
  {
    LeafAround(root, Root(accept), 0, p);
    var (k, c) := LeafIn(root, Root(accept), 0, p);
    FollowTheorem(c, Leaf(k, p), root, accept, w);
  }

  lemma AcceptsMore(root: Re, accept: nat, a: set<nat>, b: set<nat>, w: seq<int>)
    requires Numbered(root, 0) && a <= b && Accepts(root, accept, a, w)
    ensures Accepts(root, accept, b, w)
  {
  }

  /** The set reached by a whole word. */
  ghost function Run(root: Re, accept: nat, s: set<nat>, w: seq<int>): set<nat>
    requires Numbered(root, 0)
    decreases |w|
  {
    if w == [] then s else Run(root, accept, Step(root, accept, s, w[0]), w[1..])
  }

  /** A set of leaves accepts a word exactly when reading it leads to FINAL. */
  lemma {:induction false} RunAccepts(root: Re, accept: nat, s: set<nat>, w: seq<int>)
    requires Numbered(root, 0) && accept >= Size(root)
    ensures accept in Run(root, accept, s, w) <==> Accepts(root, accept, s, w)
    decreases |w|
  {
    if w != [] {
      StepAccepts(root, accept, s, w[0], w[1..]);
      assert w == [w[0]] + w[1..];
      RunAccepts(root, accept, Step(root, accept, s, w[0]), w[1..]);
    }
  }

  // ----- the starting states -----

  /** The expression with `ALL*` in front; FINAL comes after it. */
  function Whole(p: Re): (root: Re)
    requires Numbered(p, 1)
    ensures Numbered(root, 0) && Size(root) == 1 + Size(p)
  {
    var all := Leaf(All, 0);
    assert Numbered(all, 0) && Size(all) == 1;
    assert Numbered(Star(all), 0) && Size(Star(all)) == 1;
    Cat(Star(all), p)
  }

  function Accept(p: Re): nat {
    1 + Size(p)
  }

  /** The leaves an anchored match starts at. */
  function Body(p: Re): set<nat> {
    FirstSet(p) + if Nullable(p) then {Accept(p)} else {}
  }

  /** What `re[0].lfollow` holds: the leaf of `ALL*` itself, and the body. */
  lemma InitialSet(p: Re)
    requires Numbered(p, 1)
    ensures FollowOf(Whole(p), Accept(p), 0) == {0} + Body(p)
    ensures 0 !in Body(p)
    ensures LeafIn(Whole(p), Root(Accept(p)), 0, 0) == (All, InStar(Leaf(All, 0), CatLeft(p, Root(Accept(p)))))
  {
    FirstInside(p, 1);
    var all, after := Leaf(All, 0), CatLeft(p, Root(Accept(p)));
    assert Size(all) == 1 && Size(Star(all)) == 1;
    assert LeafIn(Star(all), after, 0, 0) == LeafIn(all, InStar(all, after), 0, 0);
    assert FollowSet(after) == Body(p);
    assert FirstSet(all) == {0};
  }

  lemma BodyAccepts(p: Re, w: seq<int>)
    requires Numbered(p, 1)
    ensures Accepts(Whole(p), Accept(p), Body(p), w) <==> Matches(p, w)
  {
    hide Accepts;
    var root, accept, c := Whole(p), Accept(p), CatRight(Star(Leaf(All, 0)), Root(Accept(p)));
    AcceptsUnion(root, accept, FirstSet(p), if Nullable(p) then {accept} else {}, w);
    FirstAccepts(p, c, root, accept, w);
    AcceptOnly(root, accept, w);
    AcceptsNothing(root, accept, w);
    NullableMatches(p);
    assert w[..|w|] == w;
    forall i | 1 <= i <= |w| ensures Cut(p, c, w, i) <==> Matches(p, w) && i == |w| {
      RestAtTop(Star(Leaf(All, 0)), accept, w[i..]);
    }
    if w != [] {
      assert Cut(p, c, w, |w|) <==> Matches(p, w);
    }
    assert Runs(p, c, w) <==> w != [] && Matches(p, w);
  }

  lemma RestAtTop(l: Re, accept: nat, w: seq<int>)
    ensures Rest(CatRight(l, Root(accept)), w) <==> w == []
  {
    assert Rest(Root(accept), w) <==> w == [];
  }

  ghost predicate NoEnd(w: seq<int>) {
    forall i :: 0 <= i < |w| ==> w[i] != END
  }

  lemma {:induction false} AllStar(w: seq<int>, pos: nat)
    ensures Matches(Star(Leaf(All, pos)), w) <==> NoEnd(w)
    decreases |w|
  {
    if w != [] {
      AllStar(w[1..], pos);
      assert forall i :: 1 <= i <= |w| && Matches(Leaf(All, pos), w[..i]) ==> i == 1;
      assert w[0] != END ==> Matches(Leaf(All, pos), w[..1]);
      assert NoEnd(w) <==> w[0] != END && NoEnd(w[1..]) by {
        assert forall i :: 1 <= i < |w| ==> w[i] == w[1..][i - 1];
      }
    }
  }

  /** Unanchored, anything but the end of the text may come before. */
  lemma InitialAccepts(p: Re, w: seq<int>)
    requires Numbered(p, 1)
    ensures Accepts(Whole(p), Accept(p), {0} + Body(p), w) <==>
            exists j :: 0 <= j <= |w| && NoEnd(w[..j]) && Matches(p, w[j..])
  {
    hide Accepts;
    var root, accept := Whole(p), Accept(p);
    var after := CatLeft(p, Root(accept));
    InitialSet(p);
    LeafFollow(root, accept, 0, w);
    StarRest(Leaf(All, 0), after, w);
    forall j | 0 <= j <= |w|
      ensures Cut(Star(Leaf(All, 0)), after, w, j) <==> NoEnd(w[..j]) && Matches(p, w[j..])
    {
      AllStar(w[..j], 0);
      LastRest(p, accept, w[j..]);
    }
  }

  lemma LastRest(p: Re, accept: nat, w: seq<int>)
    ensures Rest(CatLeft(p, Root(accept)), w) <==> Matches(p, w)
  {
    assert w[..|w|] == w && w[|w|..] == [];
    assert forall i :: 0 <= i <= |w| && w[i..] == [] ==> i == |w|;
  }

  /** Only `ALL*` leads back to leaf 0. */
  lemma {:induction false} NeverBack(t: Re, c: Ctx, lo: nat, p: nat)
    requires Numbered(t, lo) && 1 <= lo <= p < lo + Size(t) && Around(c, t)
    requires 0 !in FollowSet(c) && 0 !in FirstSet(t)
    ensures 0 !in FollowSet(LeafIn(t, c, lo, p).1)
    decreases t
  {
    match t
    case Leaf(_, _) =>
    case Star(r) => NeverBack(r, InStar(r, c), lo, p);
    case Plus(r) => NeverBack(r, InPlus(r, c), lo, p);
    case Quest(r) => NeverBack(r, InQuest(c), lo, p);
    case Cat(l, r) =>
      FirstInside(l, lo);
      FirstInside(r, lo + Size(l));
      if p < lo + Size(l) { NeverBack(l, CatLeft(r, c), lo, p); } else { NeverBack(r, CatRight(l, c), lo + Size(l), p); }
    case Or(l, r) =>
      FirstInside(l, lo);
      FirstInside(r, lo + Size(l));
      if p < lo + Size(l) { NeverBack(l, OrLeft(r, c), lo, p); } else { NeverBack(r, OrRight(l, c), lo + Size(l), p); }
  }

  lemma NeverBackFrom(p: Re, q: nat)
    requires Numbered(p, 1) && 1 <= q < 1 + Size(p)
    ensures 0 !in FollowOf(Whole(p), Accept(p), q)
  {
    FirstInside(p, 1);
    NeverBack(p, CatRight(Star(Leaf(All, 0)), Root(Accept(p))), 1, q);
  }

  /** Where an anchored match of the beginning of the text starts: before or past one `^`. */
  ghost function HatBody(p: Re): set<nat>
    requires Numbered(p, 1)
  {
    Body(p) + Step(Whole(p), Accept(p), Body(p), HAT)
  }

  /** The state after HAT, with and without leaf 0. */
  lemma HatStep(p: Re)
    requires Numbered(p, 1)
    ensures Step(Whole(p), Accept(p), {0} + Body(p), HAT) == {0} + HatBody(p) && 0 !in HatBody(p)
  {
    var root, accept, all := Whole(p), Accept(p), {0} + Body(p);
    InitialSet(p);
    FirstInside(p, 1);
    var s := Step(root, accept, all, HAT);
    forall q ensures q in s <==> q in {0} + HatBody(p) {
      if q in all {
        assert Moves(root, accept, 0, HAT, q);
        assert Next(root, accept, all, HAT, q);
      }
      if Next(root, accept, Body(p), HAT, q) {
        var x :| x in Body(p) && Moves(root, accept, x, HAT, q);
        assert x in all;
      }
      if Next(root, accept, all, HAT, q) {
        var x :| x in all && Moves(root, accept, x, HAT, q);
        assert x != 0 ==> Next(root, accept, Body(p), HAT, q);
      }
    }
    if Next(root, accept, Body(p), HAT, 0) {
      var x :| x in Body(p) && Moves(root, accept, x, HAT, 0);
      NeverBackFrom(p, x);
      assert false;
    }
  }

  /** At the beginning of the text an anchored match reads the word as it is, or a `^` first. */
  lemma HatBodyAccepts(p: Re, w: seq<int>)
    requires Numbered(p, 1)
    ensures Accepts(Whole(p), Accept(p), HatBody(p), w) <==> Matches(p, w) || Matches(p, [HAT] + w)
  {
    var root, accept := Whole(p), Accept(p);
    AcceptsUnion(root, accept, Body(p), Step(root, accept, Body(p), HAT), w);
    BodyAccepts(p, w);
    StepAccepts(root, accept, Body(p), HAT, w);
    BodyAccepts(p, [HAT] + w);
  }
}
