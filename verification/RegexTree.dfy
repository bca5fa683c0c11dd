/**
 Regular expressions as awk parses them, their languages, and the position automaton: which leaves a
 word can start at and which can follow which.  The two theorems say that these sets describe the
 language exactly.
 */
module RegexTree {

  /** The rune standing for the beginning of the text, and the one standing for its end. */
  const HAT := 1261
  const END := 0

  /** A rune list ends before its first zero, as in C. */
  datatype Kind = Char(c: int) | Dot | All | Ccl(list: seq<int>) | Nccl(list: seq<int>) | EmptyRe

  datatype Re =
    | Leaf(kind: Kind, pos: nat)
    | Star(r: Re) | Plus(r: Re) | Quest(r: Re)
    | Cat(left: Re, right: Re) | Or(left: Re, right: Re)
    | Zero(r: Re)

  predicate Member(c: int, list: seq<int>) {
    list != [] && list[0] != 0 && (c == list[0] || Member(c, list[1..]))
  }

  predicate EmptyList(list: seq<int>) {
    list == [] || list[0] == 0
  }

  /** May this leaf read this rune? */
  predicate Reads(k: Kind, c: int) {
    match k
    case Char(x) => c == x
    case Dot => c != END && c != HAT
    case All => c != END
    case Ccl(list) => Member(c, list)
    case Nccl(list) => !Member(c, list) && c != END && c != HAT
    case EmptyRe => false
  }

  /** A leaf that reads nothing: the empty expression, and the empty class `()` is parsed into. */
  predicate Silent(k: Kind) {
    k.EmptyRe? || (k.Ccl? && EmptyList(k.list))
  }

  /** The language of an expression. */
  ghost predicate Matches(t: Re, w: seq<int>)
    decreases |w|, t
  {
    match t
    case Leaf(k, _) => if Silent(k) then w == [] else |w| == 1 && Reads(k, w[0])
    case Star(r) => w == [] || exists i :: 1 <= i <= |w| && Matches(r, w[..i]) && Matches(t, w[i..])
    case Plus(r) => Matches(r, w) || exists i :: 1 <= i < |w| && Matches(r, w[..i]) && Matches(t, w[i..])
    case Quest(r) => w == [] || Matches(r, w)
    case Cat(l, r) => exists i :: 0 <= i <= |w| && Matches(l, w[..i]) && Matches(r, w[i..])
    case Or(l, r) => Matches(l, w) || Matches(r, w)
    case Zero(_) => w == []
  }

  predicate Nullable(t: Re) {
    match t
    case Leaf(k, _) => Silent(k)
    case Star(_) => true
    case Plus(r) => Nullable(r)
    case Quest(_) => true
    case Cat(l, r) => Nullable(l) && Nullable(r)
    case Or(l, r) => Nullable(l) || Nullable(r)
    case Zero(_) => true
  }

  lemma {:induction false} NullableMatches(t: Re)
    ensures Nullable(t) <==> Matches(t, [])
  {
    match t
    case Leaf(_, _) =>
    case Star(_) =>
    case Plus(r) => NullableMatches(r);
    case Quest(_) =>
    case Cat(l, r) =>
      NullableMatches(l);
      NullableMatches(r);
      var w: seq<int> := [];
      assert w[..0] == [] && w[0..] == [];
      assert forall i :: 0 <= i <= |w| ==> w[..i] == [] && w[i..] == [];
    case Or(l, r) =>
      NullableMatches(l);
      NullableMatches(r);
    case Zero(_) =>
  }

  // ----- positions -----

  /** How many leaves have a number; what stands under a `{0}` has none. */
  function Size(t: Re): nat {
    match t
    case Leaf(_, _) => 1
    case Star(r) => Size(r)
    case Plus(r) => Size(r)
    case Quest(r) => Size(r)
    case Cat(l, r) => Size(l) + Size(r)
    case Or(l, r) => Size(l) + Size(r)
    case Zero(_) => 0
  }

  /** The leaves are numbered from `lo`, left to right. */
  predicate Numbered(t: Re, lo: nat) {
    match t
    case Leaf(_, p) => p == lo
    case Star(r) => Numbered(r, lo)
    case Plus(r) => Numbered(r, lo)
    case Quest(r) => Numbered(r, lo)
    case Cat(l, r) => Numbered(l, lo) && Numbered(r, lo + Size(l))
    case Or(l, r) => Numbered(l, lo) && Numbered(r, lo + Size(l))
    case Zero(_) => true
  }

  /** The leaves a word can start at. */
  function FirstSet(t: Re): set<nat> {
    match t
    case Leaf(k, p) => if k.EmptyRe? then {} else {p}
    case Star(r) => FirstSet(r)
    case Plus(r) => FirstSet(r)
    case Quest(r) => FirstSet(r)
    case Cat(l, r) => FirstSet(l) + if Nullable(l) then FirstSet(r) else {}
    case Or(l, r) => FirstSet(l) + FirstSet(r)
    case Zero(_) => {}
  }

  lemma {:induction false} FirstInside(t: Re, lo: nat)
    requires Numbered(t, lo)
    ensures forall p :: p in FirstSet(t) ==> lo <= p < lo + Size(t)
  {
    match t
    case Leaf(_, _) =>
    case Star(r) => FirstInside(r, lo);
    case Plus(r) => FirstInside(r, lo);
    case Quest(r) => FirstInside(r, lo);
    case Cat(l, r) => FirstInside(l, lo); FirstInside(r, lo + Size(l));
    case Or(l, r) => FirstInside(l, lo); FirstInside(r, lo + Size(l));
    case Zero(_) =>
  }

  /**
   What surrounds a subtree, from its parent up: the parent pointers followed by `follow`.  The root
   is the left child of the concatenation with FINAL, whose number is `accept`.
   */
  datatype Ctx =
    | Root(accept: nat)
    | InStar(body: Re, up: Ctx) | InPlus(body: Re, up: Ctx) | InQuest(up: Ctx)
    | CatLeft(right: Re, up: Ctx) | CatRight(left: Re, up: Ctx)
    | OrLeft(right: Re, up: Ctx) | OrRight(left: Re, up: Ctx)

  /** The leaves that can come after the subtree. */
  function FollowSet(c: Ctx): set<nat> {
    match c
    case Root(accept) => {accept}
    case InStar(body, up) => FirstSet(body) + FollowSet(up)
    case InPlus(body, up) => FirstSet(body) + FollowSet(up)
    case InQuest(up) => FollowSet(up)
    case CatLeft(right, up) => FirstSet(right) + if Nullable(right) then FollowSet(up) else {}
    case CatRight(_, up) => FollowSet(up)
    case OrLeft(_, up) => FollowSet(up)
    case OrRight(_, up) => FollowSet(up)
  }

  /** The words that can come after the subtree. */
  ghost predicate Rest(c: Ctx, w: seq<int>)
    decreases |w|, c
  {
    match c
    case Root(_) => w == []
    case InStar(body, up) => Rest(up, w) || exists i :: 1 <= i <= |w| && Matches(body, w[..i]) && Rest(c, w[i..])
    case InPlus(body, up) => Rest(up, w) || exists i :: 1 <= i <= |w| && Matches(body, w[..i]) && Rest(c, w[i..])
    case InQuest(up) => Rest(up, w)
    case CatLeft(right, up) => exists i :: 0 <= i <= |w| && Matches(right, w[..i]) && Rest(up, w[i..])
    case CatRight(_, up) => Rest(up, w)
    case OrLeft(_, up) => Rest(up, w)
    case OrRight(_, up) => Rest(up, w)
  }

  /** The leaf with number `p` in `t`, and what surrounds it when `t` stands in `c`. */
  function LeafIn(t: Re, c: Ctx, lo: nat, p: nat): (Kind, Ctx)
    requires Numbered(t, lo) && lo <= p < lo + Size(t)
  {
    match t
    case Leaf(k, _) => (k, c)
    case Star(r) => LeafIn(r, InStar(r, c), lo, p)
    case Plus(r) => LeafIn(r, InPlus(r, c), lo, p)
    case Quest(r) => LeafIn(r, InQuest(c), lo, p)
    case Cat(l, r) =>
      if p < lo + Size(l) then LeafIn(l, CatLeft(r, c), lo, p) else LeafIn(r, CatRight(l, c), lo + Size(l), p)
    case Or(l, r) =>
      if p < lo + Size(l) then LeafIn(l, OrLeft(r, c), lo, p) else LeafIn(r, OrRight(l, c), lo + Size(l), p)
  }

  // ----- first theorem -----

  /** `t` reads a non-empty beginning of `w` and what follows it reads the rest. */
  ghost predicate Runs(t: Re, c: Ctx, w: seq<int>) {
    exists i :: 1 <= i <= |w| && Cut(t, c, w, i)
  }

  ghost predicate Cut(t: Re, c: Ctx, w: seq<int>, i: int)
    requires 0 <= i <= |w|
  {
    Matches(t, w[..i]) && Rest(c, w[i..])
  }

  /** Leaf `p` reads the first rune and its surroundings the rest. */
  ghost predicate StartsAt(t: Re, c: Ctx, lo: nat, p: nat, w: seq<int>)
    requires Numbered(t, lo)
  {
    lo <= p < lo + Size(t) && w != [] && Reads(LeafIn(t, c, lo, p).0, w[0]) && Rest(LeafIn(t, c, lo, p).1, w[1..])
  }

  ghost predicate Starts(t: Re, c: Ctx, lo: nat, w: seq<int>)
    requires Numbered(t, lo)
  {
    exists p :: p in FirstSet(t) && StartsAt(t, c, lo, p, w)
  }

  lemma CutAgain(w: seq<int>, i: int, j: int)
    requires 0 <= i <= j <= |w|
    ensures w[..j][..i] == w[..i] && w[..j][i..] == w[i..][..j - i] && w[i..][j - i..] == w[j..]
  {
  }

  lemma CatRunsSplit(l: Re, r: Re, c: Ctx, w: seq<int>)
    requires Runs(Cat(l, r), c, w)
    ensures Runs(l, CatLeft(r, c), w) || (Nullable(l) && Runs(r, CatRight(l, c), w))
  {
    hide Reads, Silent, Nullable;
    var j :| 1 <= j <= |w| && Cut(Cat(l, r), c, w, j);
    var i :| 0 <= i <= |w[..j]| && Matches(l, w[..j][..i]) && Matches(r, w[..j][i..]);
    CutAgain(w, i, j);
    if i > 0 {
      assert Cut(l, CatLeft(r, c), w, i);
    } else {
      NullableMatches(l);
      assert Cut(r, CatRight(l, c), w, j);
    }
  }

  lemma CatRunsLeft(l: Re, r: Re, c: Ctx, w: seq<int>)
    requires Runs(l, CatLeft(r, c), w)
    ensures Runs(Cat(l, r), c, w)
  {
    var i :| 1 <= i <= |w| && Cut(l, CatLeft(r, c), w, i);
    var k :| 0 <= k <= |w[i..]| && Matches(r, w[i..][..k]) && Rest(c, w[i..][k..]);
    CutAgain(w, i, i + k);
    assert Matches(Cat(l, r), w[..i + k]);
    assert Cut(Cat(l, r), c, w, i + k);
  }

  lemma CatRunsRight(l: Re, r: Re, c: Ctx, w: seq<int>)
    requires Nullable(l) && Runs(r, CatRight(l, c), w)
    ensures Runs(Cat(l, r), c, w)
  {
    var j :| 1 <= j <= |w| && Cut(r, CatRight(l, c), w, j);
    NullableMatches(l);
    assert w[..j][..0] == [] && w[..j][0..] == w[..j];
    assert Cut(Cat(l, r), c, w, j);
  }

  /** Reading with `l` and then `r` is reading with `l` where `r` comes next, or with `r` alone past an empty `l`. */
  lemma CatRuns(l: Re, r: Re, c: Ctx, w: seq<int>)
    ensures Runs(Cat(l, r), c, w) <==> Runs(l, CatLeft(r, c), w) || (Nullable(l) && Runs(r, CatRight(l, c), w))
  {
    hide Runs, Matches, Rest, Nullable;
    if Runs(Cat(l, r), c, w) {
      CatRunsSplit(l, r, c, w);
    }
    if Runs(l, CatLeft(r, c), w) {
      CatRunsLeft(l, r, c, w);
    }
    if Nullable(l) && Runs(r, CatRight(l, c), w) {
      CatRunsRight(l, r, c, w);
    }
  }

  /** What can follow one round of a star: more rounds and then the rest. */
  lemma {:induction false} StarRest(r: Re, c: Ctx, w: seq<int>)
    ensures Rest(InStar(r, c), w) <==> exists j :: 0 <= j <= |w| && Cut(Star(r), c, w, j)
    decreases |w|
  {
    hide Reads, Silent;
    if Rest(InStar(r, c), w) {
      if Rest(c, w) {
        assert w[..0] == [] && w[0..] == w;
        assert Cut(Star(r), c, w, 0);
      } else {
        var i :| 1 <= i <= |w| && Matches(r, w[..i]) && Rest(InStar(r, c), w[i..]);
        StarRest(r, c, w[i..]);
        var k :| 0 <= k <= |w[i..]| && Cut(Star(r), c, w[i..], k);
        CutAgain(w, i, i + k);
        assert Matches(Star(r), w[..i + k]);
        assert Cut(Star(r), c, w, i + k);
      }
    }
    if j :| 0 <= j <= |w| && Cut(Star(r), c, w, j) {
      if j == 0 {
        assert w[0..] == w;
      } else {
        var i :| 1 <= i <= |w[..j]| && Matches(r, w[..j][..i]) && Matches(Star(r), w[..j][i..]);
        CutAgain(w, i, j);
        assert Cut(Star(r), c, w[i..], j - i);
        StarRest(r, c, w[i..]);
      }
    }
  }

  lemma StarRuns(r: Re, c: Ctx, w: seq<int>)
    ensures Runs(Star(r), c, w) <==> Runs(r, InStar(r, c), w)
  {
    if Runs(Star(r), c, w) {
      var j :| 1 <= j <= |w| && Cut(Star(r), c, w, j);
      var i :| 1 <= i <= |w[..j]| && Matches(r, w[..j][..i]) && Matches(Star(r), w[..j][i..]);
      CutAgain(w, i, j);
      assert Cut(Star(r), c, w[i..], j - i);
      StarRest(r, c, w[i..]);
      assert Cut(r, InStar(r, c), w, i);
    }
    if Runs(r, InStar(r, c), w) {
      var i :| 1 <= i <= |w| && Cut(r, InStar(r, c), w, i);
      StarRest(r, c, w[i..]);
      var k :| 0 <= k <= |w[i..]| && Cut(Star(r), c, w[i..], k);
      CutAgain(w, i, i + k);
      assert Matches(Star(r), w[..i + k]);
      assert Cut(Star(r), c, w, i + k);
    }
  }

  /** A plus behaves as a star once a round has been read. */
  lemma {:induction false} PlusIsStar(r: Re, w: seq<int>)
    ensures w != [] ==> (Matches(Plus(r), w) <==> Matches(Star(r), w))
    decreases |w|
  {
    if w != [] {
      if Matches(Star(r), w) {
        var i :| 1 <= i <= |w| && Matches(r, w[..i]) && Matches(Star(r), w[i..]);
        if i == |w| {
          assert w[..i] == w;
        } else {
          PlusIsStar(r, w[i..]);
        }
      }
      if Matches(Plus(r), w) {
        if Matches(r, w) {
          assert w[..|w|] == w && w[|w|..] == [];
        } else {
          var i :| 1 <= i < |w| && Matches(r, w[..i]) && Matches(Plus(r), w[i..]);
          PlusIsStar(r, w[i..]);
        }
      }
    }
  }

  lemma {:induction false} InPlusIsInStar(r: Re, c: Ctx, w: seq<int>)
    ensures Rest(InPlus(r, c), w) <==> Rest(InStar(r, c), w)
    decreases |w|
  {
    forall i | 1 <= i <= |w| ensures Rest(InPlus(r, c), w[i..]) <==> Rest(InStar(r, c), w[i..]) {
      InPlusIsInStar(r, c, w[i..]);
    }
  }

  lemma PlusRuns(r: Re, c: Ctx, w: seq<int>)
    ensures Runs(Plus(r), c, w) <==> Runs(r, InPlus(r, c), w)
  {
    forall i | 1 <= i <= |w|
      ensures Cut(Plus(r), c, w, i) <==> Cut(Star(r), c, w, i)
      ensures Cut(r, InPlus(r, c), w, i) <==> Cut(r, InStar(r, c), w, i)
    {
      PlusIsStar(r, w[..i]);
      InPlusIsInStar(r, c, w[i..]);
    }
    StarRuns(r, c, w);
  }

  lemma OrRuns(l: Re, r: Re, c: Ctx, w: seq<int>)
    ensures Runs(Or(l, r), c, w) <==> Runs(l, OrLeft(r, c), w) || Runs(r, OrRight(l, c), w)
  {
    assert forall i :: 1 <= i <= |w| ==>
        (Cut(Or(l, r), c, w, i) <==> Cut(l, OrLeft(r, c), w, i) || Cut(r, OrRight(l, c), w, i));
  }

  lemma QuestRuns(r: Re, c: Ctx, w: seq<int>)
    ensures Runs(Quest(r), c, w) <==> Runs(r, InQuest(c), w)
  {
    assert forall i :: 1 <= i <= |w| ==> (Cut(Quest(r), c, w, i) <==> Cut(r, InQuest(c), w, i));
  }

  lemma LeafRuns(k: Kind, p: nat, c: Ctx, w: seq<int>)
    ensures Runs(Leaf(k, p), c, w) <==> w != [] && Reads(k, w[0]) && Rest(c, w[1..])
  {
    if Runs(Leaf(k, p), c, w) {
      var i :| 1 <= i <= |w| && Cut(Leaf(k, p), c, w, i);
      assert i == 1;
    }
    if w != [] && Reads(k, w[0]) && Rest(c, w[1..]) {
      assert Cut(Leaf(k, p), c, w, 1);
    }
  }

  lemma CatStarts(l: Re, r: Re, c: Ctx, lo: nat, w: seq<int>)
    requires Numbered(Cat(l, r), lo)
    ensures Starts(Cat(l, r), c, lo, w) <==>
            Starts(l, CatLeft(r, c), lo, w) || (Nullable(l) && Starts(r, CatRight(l, c), lo + Size(l), w))
  {
    hide Nullable, Rest, Reads;
    FirstInside(l, lo);
    FirstInside(r, lo + Size(l));
    forall p | p in FirstSet(l) ensures StartsAt(Cat(l, r), c, lo, p, w) <==> StartsAt(l, CatLeft(r, c), lo, p, w) {
    }
    forall p | p in FirstSet(r)
      ensures StartsAt(Cat(l, r), c, lo, p, w) <==> StartsAt(r, CatRight(l, c), lo + Size(l), p, w)
    {
    }
  }

  lemma OrStarts(l: Re, r: Re, c: Ctx, lo: nat, w: seq<int>)
    requires Numbered(Or(l, r), lo)
    ensures Starts(Or(l, r), c, lo, w) <==>
            Starts(l, OrLeft(r, c), lo, w) || Starts(r, OrRight(l, c), lo + Size(l), w)
  {
    hide Nullable, Rest, Reads;
    FirstInside(l, lo);
    FirstInside(r, lo + Size(l));
    forall p | p in FirstSet(l) ensures StartsAt(Or(l, r), c, lo, p, w) <==> StartsAt(l, OrLeft(r, c), lo, p, w) {
    }
    forall p | p in FirstSet(r)
      ensures StartsAt(Or(l, r), c, lo, p, w) <==> StartsAt(r, OrRight(l, c), lo + Size(l), p, w)
    {
    }
  }

  /** A unary node starts where its operand does. */
  lemma UnaryStarts(t: Re, r: Re, c: Ctx, c': Ctx, lo: nat, w: seq<int>)
    requires (t == Star(r) && c' == InStar(r, c)) || (t == Plus(r) && c' == InPlus(r, c)) || (t == Quest(r) && c' == InQuest(c))
    requires Numbered(t, lo)
    ensures Numbered(r, lo) && (Starts(t, c, lo, w) <==> Starts(r, c', lo, w))
  {
    assert forall p :: StartsAt(t, c, lo, p, w) <==> StartsAt(r, c', lo, p, w);
  }

  /**
   First theorem: a non-empty word can be read by `t` and what follows exactly when it can be read
   starting at one of the leaves `first` collects.
   */
  lemma {:induction false} FirstTheorem(t: Re, c: Ctx, lo: nat, w: seq<int>)
    requires Numbered(t, lo)
    ensures Runs(t, c, w) <==> Starts(t, c, lo, w)
    decreases t
  {
    hide Runs, Starts, Rest, Nullable;
    match t
    case Leaf(k, p) =>
      LeafRuns(k, p, c, w);
      LeafStarts(k, p, c, w);
    case Star(r) =>
      StarRuns(r, c, w);
      UnaryStarts(t, r, c, InStar(r, c), lo, w);
      FirstTheorem(r, InStar(r, c), lo, w);
    case Plus(r) =>
      PlusRuns(r, c, w);
      UnaryStarts(t, r, c, InPlus(r, c), lo, w);
      FirstTheorem(r, InPlus(r, c), lo, w);
    case Quest(r) =>
      QuestRuns(r, c, w);
      UnaryStarts(t, r, c, InQuest(c), lo, w);
      FirstTheorem(r, InQuest(c), lo, w);
    case Cat(l, r) =>
      CatRuns(l, r, c, w);
      CatStarts(l, r, c, lo, w);
      FirstTheorem(l, CatLeft(r, c), lo, w);
      FirstTheorem(r, CatRight(l, c), lo + Size(l), w);
    case Or(l, r) =>
      OrRuns(l, r, c, w);
      OrStarts(l, r, c, lo, w);
      FirstTheorem(l, OrLeft(r, c), lo, w);
      FirstTheorem(r, OrRight(l, c), lo + Size(l), w);
    case Zero(r) =>
      ZeroStarts(r, c, lo, w);
  }

  lemma LeafStarts(k: Kind, p: nat, c: Ctx, w: seq<int>)
    ensures Starts(Leaf(k, p), c, p, w) <==> w != [] && Reads(k, w[0]) && Rest(c, w[1..])
  {
    assert StartsAt(Leaf(k, p), c, p, p, w) <==> w != [] && Reads(k, w[0]) && Rest(c, w[1..]);
  }

  lemma ZeroStarts(r: Re, c: Ctx, lo: nat, w: seq<int>)
    ensures !Runs(Zero(r), c, w) && !Starts(Zero(r), c, lo, w)
  {
  }

  // ----- second theorem -----

  /** The whole expression around a subtree. */
  function Plug(c: Ctx, t: Re): Re {
    match c
    case Root(_) => t
    case InStar(_, up) => Plug(up, Star(t))
    case InPlus(_, up) => Plug(up, Plus(t))
    case InQuest(up) => Plug(up, Quest(t))
    case CatLeft(r, up) => Plug(up, Cat(t, r))
    case CatRight(l, up) => Plug(up, Cat(l, t))
    case OrLeft(r, up) => Plug(up, Or(t, r))
    case OrRight(l, up) => Plug(up, Or(l, t))
  }

  /** The surroundings are those of `t`: the body a star's context remembers is the subtree itself. */
  predicate Around(c: Ctx, t: Re) {
    match c
    case Root(_) => true
    case InStar(body, up) => body == t && Around(up, Star(t))
    case InPlus(body, up) => body == t && Around(up, Plus(t))
    case InQuest(up) => Around(up, Quest(t))
    case CatLeft(r, up) => Around(up, Cat(t, r))
    case CatRight(l, up) => Around(up, Cat(l, t))
    case OrLeft(r, up) => Around(up, Or(t, r))
    case OrRight(l, up) => Around(up, Or(l, t))
  }

  function AcceptOf(c: Ctx): nat {
    match c
    case Root(a) => a
    case InStar(_, up) => AcceptOf(up)
    case InPlus(_, up) => AcceptOf(up)
    case InQuest(up) => AcceptOf(up)
    case CatLeft(_, up) => AcceptOf(up)
    case CatRight(_, up) => AcceptOf(up)
    case OrLeft(_, up) => AcceptOf(up)
    case OrRight(_, up) => AcceptOf(up)
  }

  /** The first number of the subtree in the hole. */
  function LowOf(c: Ctx): nat {
    match c
    case Root(_) => 0
    case InStar(_, up) => LowOf(up)
    case InPlus(_, up) => LowOf(up)
    case InQuest(up) => LowOf(up)
    case CatLeft(_, up) => LowOf(up)
    case CatRight(l, up) => LowOf(up) + Size(l)
    case OrLeft(_, up) => LowOf(up)
    case OrRight(l, up) => LowOf(up) + Size(l)
  }

  /** Looking a leaf up from the root or from the subtree it is in comes to the same. */
  lemma {:induction false} LeafInPlug(c: Ctx, t: Re, p: nat)
    requires Around(c, t) && Numbered(Plug(c, t), 0)
    ensures Numbered(t, LowOf(c)) && LowOf(c) + Size(t) <= Size(Plug(c, t))
    ensures LowOf(c) <= p < LowOf(c) + Size(t) ==>
              LeafIn(Plug(c, t), Root(AcceptOf(c)), 0, p) == LeafIn(t, c, LowOf(c), p)
    decreases c
  {
    match c
    case Root(_) =>
    case InStar(_, up) => LeafInPlug(up, Star(t), p);
    case InPlus(_, up) => LeafInPlug(up, Plus(t), p);
    case InQuest(up) => LeafInPlug(up, Quest(t), p);
    case CatLeft(r, up) => LeafInPlug(up, Cat(t, r), p);
    case CatRight(l, up) => LeafInPlug(up, Cat(l, t), p);
    case OrLeft(r, up) => LeafInPlug(up, Or(t, r), p);
    case OrRight(l, up) => LeafInPlug(up, Or(l, t), p);
  }

  /** A set of leaves of the whole expression accepts a word. */
  ghost predicate Accepts(root: Re, accept: nat, s: set<nat>, w: seq<int>)
    requires Numbered(root, 0)
  {
    if w == [] then accept in s else exists p :: p in s && StartsAt(root, Root(accept), 0, p, w)
  }

  /** The leaves where a subtree starts, seen from the root. */
  lemma StartsFromRoot(c: Ctx, t: Re, w: seq<int>)
    requires Around(c, t) && Numbered(Plug(c, t), 0)
    ensures Numbered(t, LowOf(c))
    ensures w != [] ==> (Starts(t, c, LowOf(c), w) <==> Accepts(Plug(c, t), AcceptOf(c), FirstSet(t), w))
  {
    hide Rest, Reads, Plug, Around;
    LeafInPlug(c, t, 0);
    FirstInside(t, LowOf(c));
    forall p | p in FirstSet(t)
      ensures StartsAt(t, c, LowOf(c), p, w) <==> StartsAt(Plug(c, t), Root(AcceptOf(c)), 0, p, w)
    {
      LeafInPlug(c, t, p);
    }
  }
}
