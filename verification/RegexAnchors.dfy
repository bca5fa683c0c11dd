/**
 What `^` and `$` match away from the ends of the text.  They are the runes 1261 and 0, so the question
 is whether the text spells those runes itself.
 */
module RegexAnchors {
  import opened RegexTree
  import opened RegexMatch
  import opened Utf8Text

  /** The expression with every `x` leaf made to match nothing. */
  function Without(p: Re, x: int): Re {
    match p
    case Leaf(k, pos) => if k == Char(x) then Leaf(Char(-1), pos) else p
    case Star(r) => Star(Without(r, x))
    case Plus(r) => Plus(Without(r, x))
    case Quest(r) => Quest(Without(r, x))
    case Cat(l, r) => Cat(Without(l, x), Without(r, x))
    case Or(l, r) => Or(Without(l, x), Without(r, x))
    case Zero(r) => Zero(Without(r, x))
  }

  predicate Runic(w: seq<int>) {
    forall i :: 0 <= i < |w| ==> w[i] >= 0
  }

  lemma {:induction false} WithoutMatches(p: Re, x: int, w: seq<int>)
    requires Runic(w) && x !in w
    ensures Matches(Without(p, x), w) <==> Matches(p, w)
    decreases |w|, p
  {
    hide Reads;
    match p
    case Leaf(k, pos) => WithoutLeaf(k, pos, x, w);
    case Star(r) =>
      forall i | 1 <= i <= |w|
        ensures Matches(Without(r, x), w[..i]) <==> Matches(r, w[..i])
        ensures Matches(Without(p, x), w[i..]) <==> Matches(p, w[i..])
      {
        WithoutMatches(r, x, w[..i]);
        WithoutMatches(p, x, w[i..]);
      }
    case Plus(r) =>
      WithoutMatches(r, x, w);
      forall i | 1 <= i < |w|
        ensures Matches(Without(r, x), w[..i]) <==> Matches(r, w[..i])
        ensures Matches(Without(p, x), w[i..]) <==> Matches(p, w[i..])
      {
        WithoutMatches(r, x, w[..i]);
        WithoutMatches(p, x, w[i..]);
      }
    case Quest(r) => WithoutMatches(r, x, w);
    case Cat(l, r) =>
      forall i | 0 <= i <= |w|
        ensures Matches(Without(l, x), w[..i]) <==> Matches(l, w[..i])
        ensures Matches(Without(r, x), w[i..]) <==> Matches(r, w[i..])
      {
        WithoutMatches(l, x, w[..i]);
        WithoutMatches(r, x, w[i..]);
      }
    case Or(l, r) =>
      WithoutMatches(l, x, w);
      WithoutMatches(r, x, w);
    case Zero(_) =>
  }

  lemma WithoutLeaf(k: Kind, pos: nat, x: int, w: seq<int>)
    requires Runic(w) && x !in w
    ensures Matches(Without(Leaf(k, pos), x), w) <==> Matches(Leaf(k, pos), w)
  {
    if |w| == 1 {
      assert w[0] in w;
    }
  }

  /** An expression spelling out a word. */
  function Spell(w: seq<int>): Re {
    if w == [] then Leaf(EmptyRe, 0) else Cat(Leaf(Char(w[0]), 0), Spell(w[1..]))
  }

  lemma {:induction false} SpellMatches(w: seq<int>)
    ensures Matches(Spell(w), w)
  {
    if w != [] {
      SpellMatches(w[1..]);
      assert w[..1] == [w[0]];
    }
  }

  lemma {:induction false} SpellBroken(w: seq<int>, x: int)
    requires Runic(w) && x in w
    ensures !Matches(Without(Spell(w), x), w)
  {
    var p := Without(Spell(w), x);
    if i :| 0 <= i <= |w| && Matches(p.left, w[..i]) && Matches(p.right, w[i..]) {
      assert i == 1 && w[..1] == [w[0]];
      if w[0] != x {
        SpellBroken(w[1..], x);
      }
    }
  }

  /**
   Inside a word a `^` (or a `$`) leaf of an expression never matters, exactly when the word does not
   itself spell the rune those leaves stand for.
   */
  lemma AnchorsConfined(w: seq<int>, x: int)
    requires Runic(w)
    ensures (forall p :: Matches(p, w) <==> Matches(Without(p, x), w)) <==> x !in w
  {
    hide Matches, Without;
    if x !in w {
      forall p ensures Matches(p, w) <==> Matches(Without(p, x), w) {
        WithoutMatches(p, x, w);
      }
    } else {
      SpellMatches(w);
      SpellBroken(w, x);
    }
  }

  /** `^` matches in the middle of "a\u04ed", and `$` in the middle of a text with an overlong zero. */
  lemma AnchorsInsideText()
    ensures Occurs(Leaf(Char(HAT), 1), false, [0x61, 0xD3, 0xAD], true, 1, 3)
    ensures Occurs(Leaf(Char(END), 1), false, [0x61, 0xC0, 0x80, 0x61], true, 1, 3)
  {
    var t, u := [0x61, 0xD3, 0xAD], [0x61, 0xC0, 0x80, 0x61];
    assert U8Rune(t, 1, true) == Read(1261, 2) && U8Rune(u, 1, true) == Read(0, 2);
    assert After(t, true, 1) == 3 && After(u, true, 1) == 3;
    assert Word(t, true, 3, 3) == [] == Word(u, true, 3, 3);
    assert Word(t, true, 1, 3) == [HAT] && Word(u, true, 1, 3) == [END];
  }

  // ----- anchors at the ends -----

  lemma HatFirst(r: Re, pos: nat, w: seq<int>)
    requires HAT !in w
    ensures !Matches(Cat(Leaf(Char(HAT), pos), r), w)
    ensures Matches(Cat(Leaf(Char(HAT), pos), r), [HAT] + w) <==> Matches(r, w)
  {
    var (p, v) := (Cat(Leaf(Char(HAT), pos), r), [HAT] + w);
    assert v[..1] == [HAT] && v[1..] == w;
    if i :| 0 <= i <= |v| && Matches(p.left, v[..i]) && Matches(r, v[i..]) {
      assert i == 1;
    }
  }

  /** `^` in front: a match is at the beginning of the text, and goes on from there. */
  lemma HatMeans(r: Re, pos: nat, hat: bool, t: seq<nat>, mb: bool, i: nat, j: nat)
    requires i <= |t| && (Boundary(t, mb, i, j) ==> HAT !in Word(t, mb, i, j))
    ensures Occurs(Cat(Leaf(Char(1261), pos), r), hat, t, mb, i, j) <==> hat && Occurs(r, false, t, mb, i, j)
  {
    hide Matches;
    if Boundary(t, mb, i, j) {
      var w: seq<int> := Word(t, mb, i, j);
      HatFirst(r, pos, w);
      HatFirst(r, pos, w + [END]);
    }
  }

  lemma EndLast(r: Re, pos: nat, w: seq<int>)
    requires END !in w
    ensures !Matches(Cat(r, Leaf(Char(END), pos)), w)
    ensures Matches(Cat(r, Leaf(Char(END), pos)), w + [END]) <==> Matches(r, w)
  {
    var (p, v) := (Cat(r, Leaf(Char(END), pos)), w + [END]);
    assert v[..|w|] == w && v[|w|..] == [END];
    if i :| 0 <= i <= |v| && Matches(r, v[..i]) && Matches(p.right, v[i..]) {
      assert |v[i..]| == 1 && i == |w|;
    }
  }

  /** `$` behind: a match comes to the end of the text. */
  lemma DollarMeans(r: Re, pos: nat, hat: bool, t: seq<nat>, mb: bool, i: nat, j: nat)
    requires i <= |t| && (Boundary(t, mb, i, j) ==> END !in Word(t, mb, i, j))
    ensures Occurs(Cat(r, Leaf(Char(0), pos)), hat, t, mb, i, j) <==>
            j == |t| && Boundary(t, mb, i, j) && (Matches(r, Word(t, mb, i, j)) || (hat && Matches(r, [1261] + Word(t, mb, i, j))))
  {
    hide Matches;
    if Boundary(t, mb, i, j) {
      var w: seq<int> := Word(t, mb, i, j);
      EndLast(r, pos, w);
      EndLast(r, pos, [HAT] + w);
      assert [HAT] + (w + [END]) == [HAT] + w + [END];
    }
  }
}
