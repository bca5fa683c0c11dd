/**
 What `sub` and `gsub` come to where that can be said without them: replacement texts that are quoted,
 single letters, the empty expression, and a repeated letter.
 */
module SubstituteLaws {
  import opened RegexTree
  import opened RegexMatch
  import opened Utf8Text
  import opened Substitute

  // ----- replacement texts -----

  /** A backslash put before every ampersand. */
  function Quoted(s: seq<nat>): seq<nat> {
    if s == [] then []
    else (if s[0] == 0x26 then [0x5C, 0x26] else [s[0]]) + Quoted(s[1..])
  }

  lemma ExpandStep(x: nat, r: seq<nat>, posix: bool, matched: seq<nat>)
    requires x != 0x5C && x != 0x26
    ensures Expand([x] + r, posix, matched) == [x] + Expand(r, posix, matched)
    ensures Expand([0x5C, 0x26] + r, posix, matched) == [0x26] + Expand(r, posix, matched)
  {
    hide Expand;
    var (p, q) := ([x] + r, [0x5C, 0x26] + r);
    assert p[0..] == p && p[0 + 1..] == r;
    ExpandPlain(p, 0, posix, matched);
    assert q[0] == 0x5C && q[1] == 0x26 && q[2..] == r && q[0..] == q && q[0 + 2..] == r;
    ExpandEscape(q, 0, posix, matched);
  }

  /** A text without backslashes, quoted, stands for itself whatever was matched. */
  lemma {:induction false} QuotedStands(s: seq<nat>, posix: bool, matched: seq<nat>)
    requires 0x5C !in s
    ensures Expand(Quoted(s), posix, matched) == s
  {
    hide Expand;
    if s == [] {
      ExpandNothing(posix, matched);
    } else {
      assert s == [s[0]] + s[1..];
      QuotedStands(s[1..], posix, matched);
      ExpandStep(if s[0] == 0x26 then 0 else s[0], Quoted(s[1..]), posix, matched);
    }
  }

  lemma ExpandNothing(posix: bool, matched: seq<nat>)
    ensures Expand([], posix, matched) == []
  {
  }

  /** Plain text before anything is put out as it is. */
  lemma {:induction false} PlainFirst(s: seq<nat>, r: seq<nat>, posix: bool, matched: seq<nat>)
    requires 0x5C !in s && 0x26 !in s
    ensures Expand(s + r, posix, matched) == s + Expand(r, posix, matched)
  {
    hide Expand;
    if s == [] {
      assert s + r == r;
    } else {
      assert s + r == [s[0]] + (s[1..] + r);
      PlainFirst(s[1..], r, posix, matched);
      ExpandStep(s[0], s[1..] + r, posix, matched);
    }
  }

  /** One, two and three backslashes before an ampersand, and two before anything else. */
  lemma Backslashes(r: seq<nat>, posix: bool, matched: seq<nat>)
    ensures Expand([0x26] + r, posix, matched) == matched + Expand(r, posix, matched)
    ensures Expand([0x5C, 0x26] + r, posix, matched) == [0x26] + Expand(r, posix, matched)
    ensures Expand([0x5C, 0x5C, 0x26] + r, posix, matched) == [0x5C] + matched + Expand(r, posix, matched)
    ensures Expand([0x5C, 0x5C, 0x5C, 0x26] + r, posix, matched) == [0x5C, 0x26] + Expand(r, posix, matched)
    ensures r == [] || (r[0] != 0x5C && r[0] != 0x26) ==>
              Expand([0x5C, 0x5C] + r, posix, matched) == (if posix then [0x5C] else [0x5C, 0x5C]) + Expand(r, posix, matched)
  {
    hide Expand;
    AmpersandOut(r, posix, matched);
    ExpandStep(0, r, posix, matched);
    TwoOut(r, posix, matched);
    ThreeOut(r, posix, matched);
    if r == [] || (r[0] != 0x5C && r[0] != 0x26) {
      PairOut(r, posix, matched);
    }
  }

  lemma ThreeOut(r: seq<nat>, posix: bool, matched: seq<nat>)
    ensures Expand([0x5C, 0x5C, 0x5C, 0x26] + r, posix, matched) == [0x5C, 0x26] + Expand(r, posix, matched)
  {
    hide Expand;
    var q := [0x5C, 0x5C, 0x5C, 0x26] + r;
    assert q[0] == q[1] == q[2] == 0x5C && q[3] == 0x26 && q[0..] == q && q[0 + 4..] == r;
    ExpandEscape(q, 0, posix, matched);
  }

  lemma PairOut(r: seq<nat>, posix: bool, matched: seq<nat>)
    requires r == [] || (r[0] != 0x5C && r[0] != 0x26)
    ensures Expand([0x5C, 0x5C] + r, posix, matched) == (if posix then [0x5C] else [0x5C, 0x5C]) + Expand(r, posix, matched)
  {
    hide Expand;
    var d := [0x5C, 0x5C] + r;
    assert d[0] == d[1] == 0x5C && (|d| > 2 ==> d[2] == r[0]) && d[0..] == d && d[0 + 2..] == r;
    ExpandEscape(d, 0, posix, matched);
  }

  lemma AmpersandOut(r: seq<nat>, posix: bool, matched: seq<nat>)
    ensures Expand([0x26] + r, posix, matched) == matched + Expand(r, posix, matched)
  {
    hide Expand;
    var q := [0x26] + r;
    assert q[0..] == q && q[0 + 1..] == r;
    ExpandPlain(q, 0, posix, matched);
  }

  lemma TwoOut(r: seq<nat>, posix: bool, matched: seq<nat>)
    ensures Expand([0x5C, 0x5C, 0x26] + r, posix, matched) == [0x5C] + matched + Expand(r, posix, matched)
  {
    hide Expand;
    var q := [0x5C, 0x5C, 0x26] + r;
    assert q[0] == q[1] == 0x5C && q[2] == 0x26 && q[0..] == q && q[0 + 2..] == [0x26] + r;
    ExpandEscape(q, 0, posix, matched);
    AmpersandOut(r, posix, matched);
    assert [0x5C] + (matched + Expand(r, posix, matched)) == [0x5C] + matched + Expand(r, posix, matched);
  }

  // ----- plain text -----

  predicate Ascii(t: seq<nat>) {
    forall k :: 0 <= k < |t| ==> 0 < t[k] < 128
  }

  /** Every byte is a rune. */
  lemma {:induction false} AsciiWords(t: seq<nat>, mb: bool, i: nat, j: nat)
    requires Ascii(t) && i <= |t|
    ensures Boundary(t, mb, i, j) <==> i <= j <= |t|
    ensures i <= j <= |t| ==> Word(t, mb, i, j) == t[i..j]
    decreases |t| - i
  {
    hide U8Rune;
    if i < |t| {
      assert U8Rune(t, i, mb) == Read(t[i], 1);
      AsciiWords(t, mb, i + 1, j);
      if i < j <= |t| {
        assert t[i..j] == [t[i]] + t[i + 1..j];
      }
    }
  }

  lemma AsciiAfter(t: seq<nat>, mb: bool, i: nat)
    requires Ascii(t) && i < |t|
    ensures After(t, mb, i) == i + 1
  {
  }

  // ----- a letter -----

  function Letter(c: nat): Re {
    Leaf(Char(c), 1)
  }

  lemma LetterMatches(c: nat, w: seq<int>, hat: bool, end: bool)
    requires 0 < c < 128
    ensures MatchesAt(Letter(c), hat, w, end) <==> w == [c]
  {
    if |w| == 1 {
      assert w == [w[0]];
    }
    assert ([HAT] + w)[0] == HAT && (w + [END])[|w|] == END && ([HAT] + (w + [END]))[0] == HAT;
  }

  lemma LetterOccurs(c: nat, hat: bool, t: seq<nat>, mb: bool, i: nat, j: nat)
    requires 0 < c < 128 && Ascii(t) && i <= |t|
    ensures Occurs(Letter(c), hat, t, mb, i, j) <==> i < |t| && j == i + 1 && t[i] == c
  {
    hide Matches, Boundary, Word;
    AsciiWords(t, mb, i, j);
    if i <= j <= |t| {
      LetterMatches(c, t[i..j], hat, j == |t|);
      assert t[i..j] == [c] <==> j == i + 1 && t[i] == c;
    }
  }

  lemma LetterHere(c: nat, hat: bool, t: seq<nat>, mb: bool, i: nat)
    requires 0 < c < 128 && Ascii(t) && i <= |t|
    ensures if i < |t| && t[i] == c then Occurs(Letter(c), hat, t, mb, i, i + 1) && NoLonger(Letter(c), hat, t, mb, i, i + 1)
            else NoMatchAt(Letter(c), hat, t, mb, i)
  {
    hide Occurs, Letter;
    forall k: nat ensures Occurs(Letter(c), hat, t, mb, i, k) <==> i < |t| && k == i + 1 && t[i] == c {
      LetterOccurs(c, hat, t, mb, i, k);
    }
  }

  /** A search for a letter finds its next place. */
  lemma LetterFound(c: nat, hat: bool, t: seq<nat>, mb: bool, from: nat, i: nat)
    requires 0 < c < 128 && Ascii(t) && from <= i < |t| && t[i] == c && c !in t[from..i]
    ensures Find(Letter(c), hat, t, mb, from) == Found(i, i + 1)
  {
    hide Occurs, Boundary, Letter, NoLonger, NoMatchAt;
    AsciiWords(t, mb, from, i);
    LetterHere(c, hat && i == from, t, mb, i);
    forall b: nat | from <= b < i && Boundary(t, mb, from, b) ensures NoMatchAt(Letter(c), hat && b == from, t, mb, b) {
      assert t[b] == t[from..i][b - from];
      LetterHere(c, hat && b == from, t, mb, b);
    }
    FindIs(Letter(c), hat, t, mb, from, i, i + 1);
  }

  lemma LetterAbsent(c: nat, hat: bool, t: seq<nat>, mb: bool, from: nat)
    requires 0 < c < 128 && Ascii(t) && from <= |t| && c !in t[from..]
    ensures Find(Letter(c), hat, t, mb, from) == Nothing
  {
    hide Occurs, Boundary, Letter, NoLonger, NoMatchAt;
    forall b: nat | b <= |t| && Boundary(t, mb, from, b) ensures NoMatchAt(Letter(c), hat && b == from, t, mb, b) {
      AsciiWords(t, mb, from, b);
      assert b < |t| ==> t[b] == t[from..][b - from];
      LetterHere(c, hat && b == from, t, mb, b);
    }
    FindNothing(Letter(c), hat, t, mb, from);
  }

  /** Each of the letters replaced. */
  function Each(t: seq<nat>, c: nat, put: seq<nat>): seq<nat> {
    if t == [] then [] else (if t[0] == c then put else [t[0]]) + Each(t[1..], c, put)
  }

  function Times(t: seq<nat>, c: nat): nat {
    if t == [] then 0 else (if t[0] == c then 1 else 0) + Times(t[1..], c)
  }

  lemma {:induction false} EachAbsent(t: seq<nat>, c: nat, put: seq<nat>)
    requires c !in t
    ensures Each(t, c, put) == t && Times(t, c) == 0
  {
    if t != [] {
      assert t == [t[0]] + t[1..];
      EachAbsent(t[1..], c, put);
    }
  }

  lemma {:induction false} EachFirst(u: seq<nat>, c: nat, v: seq<nat>, put: seq<nat>)
    requires c !in u
    ensures Each(u + [c] + v, c, put) == u + put + Each(v, c, put) && Times(u + [c] + v, c) == 1 + Times(v, c)
  {
    var t := u + [c] + v;
    if u == [] {
      assert t[0] == c && t[1..] == v;
    } else {
      assert u == [u[0]] + u[1..];
      assert t[0] == u[0] && t[1..] == u[1..] + [c] + v;
      EachFirst(u[1..], c, v, put);
    }
  }

  /** The first place of a letter. */
  lemma {:induction false} Place(t: seq<nat>, c: nat) returns (i: nat)
    requires c in t
    ensures i < |t| && t[i] == c && c !in t[..i]
  {
    if t[0] == c {
      i := 0;
    } else {
      assert t == [t[0]] + t[1..];
      i := Place(t[1..], c);
      assert t[..i + 1] == [t[0]] + t[1..][..i];
      i := i + 1;
    }
  }

  /** `gsub` of a letter replaces each, and counts them. */
  lemma {:induction false} GsubLetter(c: nat, hat: bool, t: seq<nat>, mb: bool, from: nat, noempty: int, repl: seq<nat>, posix: bool)
    requires 0 < c < 128 && Ascii(t) && from <= |t|
    ensures RestText(Letter(c), hat, t, mb, from, noempty, repl, posix) == Each(t[from..], c, Expand(repl, posix, [c]))
    ensures RestCount(Letter(c), hat, t, mb, from, noempty) == Times(t[from..], c)
    decreases |t| - from
  {
    hide RestText, RestCount, Expand, Find, Each, Times, Letter;
    var rest := t[from..];
    if c in rest {
      var i := Place(rest, c);
      var at := from + i;
      assert t[from..at] == rest[..i];
      LetterFound(c, hat, t, mb, from, at);
      RestMatch(Letter(c), hat, t, mb, from, noempty, at, at + 1, repl, posix);
      GsubLetter(c, false, t, mb, at + 1, at + 1, repl, posix);
      assert rest == rest[..i] + [c] + t[at + 1..];
      EachFirst(rest[..i], c, t[at + 1..], Expand(repl, posix, [c]));
      assert t[at..at + 1] == [c];
    } else {
      LetterAbsent(c, hat, t, mb, from);
      RestNothing(Letter(c), hat, t, mb, from, noempty, repl, posix);
      EachAbsent(rest, c, Expand(repl, posix, [c]));
    }
  }

  /** What `sub` and `gsub` of a letter put out. */
  lemma LetterReplaced(c: nat, t: seq<nat>, mb: bool, repl: seq<nat>, posix: bool)
    requires 0 < c < 128 && Ascii(t)
    ensures Replaced(Pieces(Letter(c), t, mb, GSUB), repl, posix) == Each(t, c, Expand(repl, posix, [c]))
    ensures Count(Pieces(Letter(c), t, mb, GSUB)) == Times(t, c)
    ensures c !in t ==> Replaced(Pieces(Letter(c), t, mb, SUB), repl, posix) == t && Count(Pieces(Letter(c), t, mb, SUB)) == 0
    ensures forall u, v :: t == u + [c] + v && c !in u ==>
              Replaced(Pieces(Letter(c), t, mb, SUB), repl, posix) == u + Expand(repl, posix, [c]) + v
              && Count(Pieces(Letter(c), t, mb, SUB)) == 1
  {
    hide Expand, Find, Each, Times, Letter, Replaced, Count, SubPieces, GsubPieces;
    RestAll(Letter(c), t, mb, repl, posix);
    GsubLetter(c, true, t, mb, 0, -1, repl, posix);
    assert t[0..] == t;
    SubParts(Letter(c), t, mb, repl, posix);
    if c !in t {
      LetterAbsent(c, true, t, mb, 0);
    }
    forall u, v | t == u + [c] + v && c !in u
      ensures Replaced(Pieces(Letter(c), t, mb, SUB), repl, posix) == u + Expand(repl, posix, [c]) + v
      ensures Count(Pieces(Letter(c), t, mb, SUB)) == 1
    {
      assert t[0..|u|] == u && t[|u|] == c;
      LetterFound(c, true, t, mb, 0, |u|);
      assert t[..|u|] == u && t[|u|..|u| + 1] == [c] && t[|u| + 1..] == v;
    }
  }

  // ----- the empty expression -----

  const NOTHING := Leaf(EmptyRe, 1)

  lemma EmptyOccurs(hat: bool, t: seq<nat>, mb: bool, i: nat, j: nat)
    requires Ascii(t) && i <= |t|
    ensures Occurs(NOTHING, hat, t, mb, i, j) <==> i == j
  {
    hide Boundary, Word;
    AsciiWords(t, mb, i, j);
    if i <= j <= |t| {
      var w: seq<int> := t[i..j];
      assert |[HAT] + w| > 0 && |w + [END]| > 0;
      assert w == [] <==> i == j;
    }
  }

  lemma EmptyFound(hat: bool, t: seq<nat>, mb: bool, from: nat)
    requires Ascii(t) && from <= |t|
    ensures Find(NOTHING, hat, t, mb, from) == Found(from, from)
  {
    hide Occurs;
    EmptyOccurs(hat, t, mb, from, from);
    forall k: nat | Occurs(NOTHING, hat, t, mb, from, k) ensures k <= from {
      EmptyOccurs(hat, t, mb, from, k);
    }
    FindIs(NOTHING, hat, t, mb, from, from, from);
  }

  lemma WithoutEmpty(e: seq<nat>, put: seq<nat>, x: seq<nat>, rest: seq<nat>)
    requires e == []
    ensures e + put == put && e + put + (x + rest) == put + (x + rest) && e + put + (x + rest) == put + x + rest
  {
    assert e + put == put;
  }

  /** The replacement before every byte, and at the end. */
  function Between(t: seq<nat>, put: seq<nat>): seq<nat> {
    if t == [] then put else put + [t[0]] + Between(t[1..], put)
  }

  lemma BetweenStep(t: seq<nat>, put: seq<nat>)
    ensures Between(t, put) == if t == [] then put else put + [t[0]] + Between(t[1..], put)
  {
  }

  lemma {:induction false} GsubEmpty(hat: bool, t: seq<nat>, mb: bool, from: nat, repl: seq<nat>, posix: bool)
    requires Ascii(t) && from <= |t|
    ensures RestText(NOTHING, hat, t, mb, from, -1, repl, posix) == Between(t[from..], Expand(repl, posix, []))
    ensures RestCount(NOTHING, hat, t, mb, from, -1) == |t| - from + 1
    decreases |t| - from
  {
    hide RestText, RestCount, Expand, Find, Between;
    EmptyFound(hat, t, mb, from);
    RestEmpty(NOTHING, hat, t, mb, from, -1, from, repl, posix);
    var put := Expand(repl, posix, []);
    WithoutEmpty(t[from..from], put, [], []);
    BetweenStep(t[from..], put);
    if from < |t| {
      AsciiAfter(t, mb, from);
      GsubEmpty(false, t, mb, from + 1, repl, posix);
      assert t[from..][1..] == t[from + 1..] && t[from..from + 1] == [t[from]];
      WithoutEmpty(t[from..from], put, [t[from]], RestText(NOTHING, false, t, mb, from + 1, -1, repl, posix));
    }
  }

  /** What `gsub` of the empty expression puts out. */
  lemma EmptyReplaced(t: seq<nat>, mb: bool, repl: seq<nat>, posix: bool)
    requires Ascii(t)
    ensures Replaced(Pieces(NOTHING, t, mb, GSUB), repl, posix) == Between(t, Expand(repl, posix, []))
    ensures Count(Pieces(NOTHING, t, mb, GSUB)) == |t| + 1
  {
    hide Expand, Find, Replaced, Count, GsubPieces;
    RestAll(NOTHING, t, mb, repl, posix);
    GsubEmpty(true, t, mb, 0, repl, posix);
    assert t[0..] == t;
  }

  // ----- a repeated letter -----

  function Stars(c: nat): Re {
    Star(Letter(c))
  }

  predicate Only(w: seq<int>, c: int) {
    forall k :: 0 <= k < |w| ==> w[k] == c
  }

  lemma {:induction false} StarsMatch(c: nat, w: seq<int>)
    ensures Matches(Stars(c), w) <==> Only(w, c)
  {
    if w != [] {
      if Only(w, c) {
        StarsMatch(c, w[1..]);
        assert w[..1] == [c];
      } else if i :| 1 <= i <= |w| && Matches(Letter(c), w[..i]) && Matches(Stars(c), w[i..]) {
        assert w[..i] == [c] && i == 1;
        StarsMatch(c, w[1..]);
      }
    }
  }

  lemma StarsOccur(c: nat, hat: bool, t: seq<nat>, mb: bool, i: nat, j: nat)
    requires 0 < c < 128 && Ascii(t) && i <= |t|
    ensures Occurs(Stars(c), hat, t, mb, i, j) <==> i <= j <= |t| && Only(t[i..j], c)
  {
    hide Matches, Boundary, Word, Stars;
    AsciiWords(t, mb, i, j);
    if i <= j <= |t| {
      var w: seq<int> := t[i..j];
      StarsMatch(c, w);
      StarsMatch(c, [HAT] + w);
      StarsMatch(c, w + [END]);
      StarsMatch(c, [HAT] + (w + [END]));
      assert ([HAT] + w)[0] == HAT && (w + [END])[|w|] == END && ([HAT] + (w + [END]))[0] == HAT;
    }
  }

  /** How many of the letter stand at the front. */
  function Leading(t: seq<nat>, c: nat): (n: nat)
    ensures n <= |t| && Only(t[..n], c) && (n < |t| ==> t[n] != c)
  {
    if t == [] || t[0] != c then 0
    else
      var n := 1 + Leading(t[1..], c);
      assert t[..n] == [t[0]] + t[1..][..n - 1];
      n
  }

  lemma StarsFound(c: nat, hat: bool, t: seq<nat>, mb: bool, from: nat)
    requires 0 < c < 128 && Ascii(t) && from <= |t|
    ensures Find(Stars(c), hat, t, mb, from) == Found(from, from + Leading(t[from..], c))
  {
    hide Occurs, Stars, Leading, Ascii;
    var n := Leading(t[from..], c);
    forall k: nat ensures Occurs(Stars(c), hat, t, mb, from, k) ==> k <= from + n {
      StarsEnd(c, hat, t, mb, from, k);
    }
    StarsEnd(c, hat, t, mb, from, from + n);
    FindIs(Stars(c), hat, t, mb, from, from, from + n);
  }

  lemma StarsEnd(c: nat, hat: bool, t: seq<nat>, mb: bool, from: nat, k: nat)
    requires 0 < c < 128 && Ascii(t) && from <= |t|
    ensures var n := Leading(t[from..], c);
            from + n <= |t| && (Occurs(Stars(c), hat, t, mb, from, k) ==> k <= from + n) && (k == from + n ==> Occurs(Stars(c), hat, t, mb, from, k))
  {
    hide Occurs, Stars;
    StarsOccur(c, hat, t, mb, from, k);
    var n := Leading(t[from..], c);
    assert t[from..from + n] == t[from..][..n];
    if from + n < k <= |t| {
      assert t[from..k][n] == t[from + n] != c;
    }
  }

  /**
   Each run of the letter replaced, and the replacement of the empty text before each other byte and at the
   end, but not right behind a run.
   */
  function Runs(t: seq<nat>, c: nat, repl: seq<nat>, posix: bool, behind: bool): seq<nat>
    decreases |t|, if behind then 0 else 1
  {
    var n := Leading(t, c);
    if n > 0 && !behind then Expand(repl, posix, t[..n]) + Runs(t[n..], c, repl, posix, true)
    else
      (if behind then [] else Expand(repl, posix, [])) +
      if t == [] then [] else [t[0]] + Runs(t[1..], c, repl, posix, false)
  }

  lemma RunsRun(t: seq<nat>, c: nat, repl: seq<nat>, posix: bool)
    requires Leading(t, c) > 0
    ensures var n := Leading(t, c); Runs(t, c, repl, posix, false) == Expand(repl, posix, t[..n]) + Runs(t[n..], c, repl, posix, true)
  {
  }

  lemma RunsByte(t: seq<nat>, c: nat, repl: seq<nat>, posix: bool, behind: bool)
    requires Leading(t, c) == 0
    ensures Runs(t, c, repl, posix, behind) ==
            (if behind then [] else Expand(repl, posix, [])) + if t == [] then [] else [t[0]] + Runs(t[1..], c, repl, posix, false)
  {
  }

  lemma StarsRun(c: nat, hat: bool, t: seq<nat>, mb: bool, from: nat, noempty: int, repl: seq<nat>, posix: bool)
    requires 0 < c < 128 && Ascii(t) && from <= |t| && Leading(t[from..], c) > 0
    ensures var n := Leading(t[from..], c);
            RestText(Stars(c), hat, t, mb, from, noempty, repl, posix) ==
            Expand(repl, posix, t[from..][..n]) + RestText(Stars(c), false, t, mb, from + n, from + n, repl, posix)
  {
    hide RestText, Expand, Find, Stars, Leading, Ascii;
    var n := Leading(t[from..], c);
    StarsFound(c, hat, t, mb, from);
    RestMatch(Stars(c), hat, t, mb, from, noempty, from, from + n, repl, posix);
    assert t[from..from + n] == t[from..][..n];
    WithoutEmpty(t[from..from], Expand(repl, posix, t[from..][..n]), [], []);
  }

  lemma StarsByte(c: nat, hat: bool, t: seq<nat>, mb: bool, from: nat, noempty: int, repl: seq<nat>, posix: bool)
    requires 0 < c < 128 && Ascii(t) && from <= |t| && Leading(t[from..], c) == 0
    ensures RestText(Stars(c), hat, t, mb, from, noempty, repl, posix) ==
            (if noempty == from then [] else Expand(repl, posix, [])) +
            if from == |t| then [] else [t[from]] + RestText(Stars(c), false, t, mb, from + 1, noempty, repl, posix)
  {
    hide RestText, Expand, Find, Stars, Leading;
    StarsFound(c, hat, t, mb, from);
    RestEmpty(Stars(c), hat, t, mb, from, noempty, from, repl, posix);
    var put := if noempty == from then [] else Expand(repl, posix, []);
    WithoutEmpty(t[from..from], put, [], []);
    if from < |t| {
      AsciiAfter(t, mb, from);
      assert t[from..from + 1] == [t[from]];
      WithoutEmpty(t[from..from], put, [t[from]], RestText(Stars(c), false, t, mb, from + 1, noempty, repl, posix));
    }
  }

  /** What `gsub` of a repeated letter puts out. */
  lemma {:induction false} GsubStars(c: nat, hat: bool, t: seq<nat>, mb: bool, from: nat, noempty: int, repl: seq<nat>, posix: bool)
    requires 0 < c < 128 && Ascii(t) && from <= |t| && noempty <= from
    requires noempty == from && from < |t| ==> t[from] != c
    ensures RestText(Stars(c), hat, t, mb, from, noempty, repl, posix) == Runs(t[from..], c, repl, posix, noempty == from)
    decreases |t| - from
  {
    hide RestText, Expand, Stars, Runs, Leading, Ascii;
    var (rest, n) := (t[from..], Leading(t[from..], c));
    LeadingStops(t, from, c);
    if n > 0 {
      RunsRun(rest, c, repl, posix);
      StarsRun(c, hat, t, mb, from, noempty, repl, posix);
      GsubStars(c, false, t, mb, from + n, from + n, repl, posix);
      assert rest[n..] == t[from + n..];
    } else {
      RunsByte(rest, c, repl, posix, noempty == from);
      StarsByte(c, hat, t, mb, from, noempty, repl, posix);
      if from < |t| {
        GsubStars(c, false, t, mb, from + 1, noempty, repl, posix);
        assert rest[1..] == t[from + 1..];
      }
    }
  }

  lemma LeadingStops(t: seq<nat>, from: nat, c: nat)
    requires from <= |t|
    ensures var n := Leading(t[from..], c);
            n <= |t| - from && (from + n < |t| ==> t[from + n] != c) && (n > 0 ==> t[from] == c)
  {
  }

  lemma StarsReplaced(c: nat, t: seq<nat>, mb: bool, repl: seq<nat>, posix: bool)
    requires 0 < c < 128 && Ascii(t)
    ensures Replaced(Pieces(Stars(c), t, mb, GSUB), repl, posix) == Runs(t, c, repl, posix, false)
  {
    hide Expand, Find, Replaced, GsubPieces, Stars;
    RestAll(Stars(c), t, mb, repl, posix);
    GsubStars(c, true, t, mb, 0, -1, repl, posix);
    assert t[0..] == t;
  }
}
