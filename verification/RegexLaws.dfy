/**
 What the languages of expressions are, said without the definition they are computed from: what a leaf
 reads, and the laws of repetition, choice and concatenation.
 */
module RegexLaws {
  import opened RegexTree

  // ----- leaves -----

  lemma {:induction false} MemberAt(c: int, list: seq<int>, i: nat)
    requires i < |list| && list[i] == c && forall j :: 0 <= j <= i ==> list[j] != 0
    ensures Member(c, list)
  {
    if i > 0 {
      MemberAt(c, list[1..], i - 1);
    }
  }

  lemma {:induction false} MemberPlace(c: int, list: seq<int>) returns (i: nat)
    requires Member(c, list)
    ensures i < |list| && list[i] == c && forall j :: 0 <= j <= i ==> list[j] != 0
  {
    if c == list[0] {
      i := 0;
    } else {
      i := MemberPlace(c, list[1..]);
      forall j | 0 <= j <= i + 1 ensures list[j] != 0 {
        assert j > 0 ==> list[j] == list[1..][j - 1];
      }
      i := i + 1;
    }
  }

  /** The rune is on the list as C sees it: in front of the first zero. */
  lemma MemberMeans(c: int, list: seq<int>)
    ensures Member(c, list) <==> exists i :: 0 <= i < |list| && list[i] == c && forall j :: 0 <= j <= i ==> list[j] != 0
  {
    if Member(c, list) {
      var i := MemberPlace(c, list);
    }
    if i :| 0 <= i < |list| && list[i] == c && forall j :: 0 <= j <= i ==> list[j] != 0 {
      MemberAt(c, list, i);
    }
  }

  /** The words of a single leaf. */
  lemma LeafWords(k: Kind, pos: nat, w: seq<int>)
    ensures k.Char? ==> (Matches(Leaf(k, pos), w) <==> w == [k.c])
    ensures k.Dot? ==> (Matches(Leaf(k, pos), w) <==> exists c :: w == [c] && c != 0 && c != 1261)
    ensures k.All? ==> (Matches(Leaf(k, pos), w) <==> exists c :: w == [c] && c != 0)
    ensures k.EmptyRe? ==> (Matches(Leaf(k, pos), w) <==> w == [])
    ensures k.Ccl? && k.list != [] && k.list[0] != 0 ==>
              (Matches(Leaf(k, pos), w) <==>
               |w| == 1 && exists i :: 0 <= i < |k.list| && k.list[i] == w[0] && forall j :: 0 <= j <= i ==> k.list[j] != 0)
    ensures k.Nccl? ==>
              (Matches(Leaf(k, pos), w) <==>
               |w| == 1 && w[0] != 0 && w[0] != 1261 &&
               !exists i :: 0 <= i < |k.list| && k.list[i] == w[0] && forall j :: 0 <= j <= i ==> k.list[j] != 0)
  {
    if |w| == 1 {
      assert w == [w[0]];
      if k.Ccl? || k.Nccl? {
        MemberMeans(w[0], k.list);
      }
    }
  }

  /** Every rune but the two that stand for the ends is in a class or in its complement, and not in both. */
  lemma ClassOrComplement(list: seq<int>, c: int, p: nat, q: nat)
    requires list != [] && list[0] != 0 && c != 0 && c != 1261
    ensures Matches(Leaf(Ccl(list), p), [c]) <==> !Matches(Leaf(Nccl(list), q), [c])
  {
    LeafWords(Ccl(list), p, [c]);
    LeafWords(Nccl(list), q, [c]);
  }

  // ----- operators -----

  function Concat(ws: seq<seq<int>>): seq<int> {
    if ws == [] then [] else ws[0] + Concat(ws[1..])
  }

  ghost predicate AllMatch(r: Re, ws: seq<seq<int>>) {
    forall k :: 0 <= k < |ws| ==> Matches(r, ws[k])
  }

  lemma CatOf(l: Re, r: Re, u: seq<int>, v: seq<int>)
    requires Matches(l, u) && Matches(r, v)
    ensures Matches(Cat(l, r), u + v)
  {
    var w := u + v;
    assert w[..|u|] == u && w[|u|..] == v;
  }

  lemma CatSplit(l: Re, r: Re, w: seq<int>)
    ensures Matches(Cat(l, r), w) ==> exists i :: 0 <= i <= |w| && Matches(l, w[..i]) && Matches(r, w[i..])
  {
  }

  /** Concatenation. */
  lemma CatWords(l: Re, r: Re, w: seq<int>)
    ensures Matches(Cat(l, r), w) <==> exists u, v :: w == u + v && Matches(l, u) && Matches(r, v)
  {
    CatSplit(l, r, w);
    hide Matches;
    if Matches(Cat(l, r), w) {
      var i :| 0 <= i <= |w| && Matches(l, w[..i]) && Matches(r, w[i..]);
      assert w == w[..i] + w[i..];
    } else if u, v :| w == u + v && Matches(l, u) && Matches(r, v) {
      CatOf(l, r, u, v);
    }
  }

  /** Choice and option. */
  lemma OrWords(l: Re, r: Re, w: seq<int>)
    ensures Matches(Or(l, r), w) <==> Matches(Or(r, l), w)
    ensures Matches(l, w) ==> Matches(Or(l, r), w)
    ensures Matches(Or(l, r), w) && !Matches(l, w) ==> Matches(r, w)
    ensures Matches(Quest(r), w) <==> Matches(Or(Leaf(EmptyRe, 0), r), w)
    ensures Matches(Zero(r), w) <==> Matches(Leaf(EmptyRe, 0), w)
  {
  }

  lemma StarOf(r: Re, u: seq<int>, v: seq<int>)
    requires Matches(r, u) && Matches(Star(r), v)
    ensures Matches(Star(r), u + v)
  {
    if u == [] {
      assert u + v == v;
    } else {
      var w := u + v;
      assert w[..|u|] == u && w[|u|..] == v;
    }
  }

  lemma {:induction false} StarOfAll(r: Re, ws: seq<seq<int>>)
    requires AllMatch(r, ws)
    ensures Matches(Star(r), Concat(ws))
  {
    if ws != [] {
      assert Matches(r, ws[0]);
      assert AllMatch(r, ws[1..]);
      StarOfAll(r, ws[1..]);
      StarOf(r, ws[0], Concat(ws[1..]));
    }
  }

  lemma {:induction false} StarParts(r: Re, w: seq<int>) returns (ws: seq<seq<int>>)
    requires Matches(Star(r), w)
    ensures AllMatch(r, ws) && Concat(ws) == w && (w != [] ==> ws != [])
    decreases |w|
  {
    if w == [] {
      ws := [];
    } else {
      var i :| 1 <= i <= |w| && Matches(r, w[..i]) && Matches(Star(r), w[i..]);
      var rest := StarParts(r, w[i..]);
      ws := [w[..i]] + rest;
      assert ws[1..] == rest && w == w[..i] + w[i..];
    }
  }

  /** A star matches what falls into pieces that match, however many. */
  lemma StarWords(r: Re, w: seq<int>)
    ensures Matches(Star(r), w) <==> exists ws :: AllMatch(r, ws) && Concat(ws) == w
  {
    if Matches(Star(r), w) {
      var ws := StarParts(r, w);
    }
    if ws :| AllMatch(r, ws) && Concat(ws) == w {
      StarOfAll(r, ws);
    }
  }

  lemma {:induction false} PlusOfAll(r: Re, ws: seq<seq<int>>)
    requires AllMatch(r, ws) && ws != []
    ensures Matches(Plus(r), Concat(ws))
  {
    var (u, rest) := (ws[0], ws[1..]);
    assert Matches(r, u) && AllMatch(r, rest);
    if rest == [] {
      assert Concat(ws) == u;
    } else {
      PlusOfAll(r, rest);
      var v := Concat(rest);
      if u == [] {
        assert u + v == v;
      } else if v == [] {
        assert u + v == u;
      } else {
        assert (u + v)[..|u|] == u && (u + v)[|u|..] == v;
      }
    }
  }

  lemma {:induction false} PlusParts(r: Re, w: seq<int>) returns (ws: seq<seq<int>>)
    requires Matches(Plus(r), w)
    ensures AllMatch(r, ws) && Concat(ws) == w && ws != []
    decreases |w|
  {
    if Matches(r, w) {
      ws := [w];
      assert ws[1..] == [];
    } else {
      var i :| 1 <= i < |w| && Matches(r, w[..i]) && Matches(Plus(r), w[i..]);
      var rest := PlusParts(r, w[i..]);
      ws := [w[..i]] + rest;
      assert ws[1..] == rest && w == w[..i] + w[i..];
    }
  }

  /** A plus needs one piece at least. */
  lemma PlusWords(r: Re, w: seq<int>)
    ensures Matches(Plus(r), w) <==> exists ws :: AllMatch(r, ws) && Concat(ws) == w && ws != []
  {
    if Matches(Plus(r), w) {
      var ws := PlusParts(r, w);
    }
    if ws :| AllMatch(r, ws) && Concat(ws) == w && ws != [] {
      PlusOfAll(r, ws);
    }
  }
}
