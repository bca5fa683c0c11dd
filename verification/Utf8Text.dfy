/**
 awk's view of a string as runes: a byte string read one sequence at a time, where what does not look
 like UTF-8 is a rune of its own.  The terminating zero reads as the rune 0.
 */
module Utf8Text {

  datatype Read = Read(rune: nat, len: nat)

  /** A C string: no zero byte inside. */
  predicate Text(t: seq<nat>) {
    forall i :: 0 <= i < |t| ==> 0 < t[i] < 256
  }

  /** How a sequence starting here looks: its length in bytes, 0 when it is not UTF-8. */
  function Form(t: seq<nat>, i: nat): (n: nat)
    requires i < |t|
    ensures n == 0 || (2 <= n <= 4 && i + n <= |t|)
  {
    var n := |t| - i;
    if n >= 2 && t[i] / 32 % 8 == 6 && Tail(t, i + 1) then 2
    else if n >= 3 && t[i] / 16 % 16 == 14 && Tail(t, i + 1) && Tail(t, i + 2) then 3
    else if n >= 4 && t[i] / 8 % 32 == 30 && Tail(t, i + 1) && Tail(t, i + 2) && Tail(t, i + 3) then 4
    else 0
  }

  predicate Tail(t: seq<nat>, i: nat)
    requires i < |t|
  {
    t[i] / 64 % 4 == 2
  }

  /** `u8_rune`: the rune at a byte offset and how long it is. */
  function U8Rune(t: seq<nat>, i: nat, mb: bool): (r: Read)
    requires i <= |t|
    ensures 1 <= r.len <= 4 && (i < |t| ==> i + r.len <= |t|)
    ensures i < |t| && t[i] < 128 ==> r == Read(t[i], 1)
  {
    if i == |t| then Read(0, 1)
    else if t[i] < 128 || !mb then Read(t[i], 1)
    else match Form(t, i)
      case 2 => Read(t[i] % 32 * 64 + t[i + 1] % 64, 2)
      case 3 => Read(t[i] % 16 * 4096 + t[i + 1] % 64 * 64 + t[i + 2] % 64, 3)
      case 4 => Read(t[i] % 8 * 262144 + t[i + 1] % 64 * 4096 + t[i + 2] % 64 * 64 + t[i + 3] % 64, 4)
      case _ => Read(t[i], 1)
  }

  /** The UTF-8 spelling of a rune. */
  function Spelling(x: nat): seq<nat>
    requires x < 0x200000
  {
    if x < 0x80 then [x]
    else if x < 0x800 then [0xC0 + x / 64, 0x80 + x % 64]
    else if x < 0x10000 then [0xE0 + x / 4096, 0x80 + x / 64 % 64, 0x80 + x % 64]
    else [0xF0 + x / 262144, 0x80 + x / 4096 % 64, 0x80 + x / 64 % 64, 0x80 + x % 64]
  }

  lemma ReadsTwo(t: seq<nat>, i: nat, a: nat, b: nat)
    requires a < 32 && b < 64 && i + 2 <= |t| && t[i] == 0xC0 + a && t[i + 1] == 0x80 + b
    ensures U8Rune(t, i, true) == Read(a * 64 + b, 2)
  {
    assert Tail(t, i + 1);
  }

  lemma ReadsThree(t: seq<nat>, i: nat, a: nat, b: nat, c: nat)
    requires a < 16 && b < 64 && c < 64 && i + 3 <= |t|
    requires t[i] == 0xE0 + a && t[i + 1] == 0x80 + b && t[i + 2] == 0x80 + c
    ensures U8Rune(t, i, true) == Read(a * 4096 + b * 64 + c, 3)
  {
    assert Tail(t, i + 1) && Tail(t, i + 2);
  }

  lemma ReadsFour(t: seq<nat>, i: nat, a: nat, b: nat, c: nat, d: nat)
    requires a < 8 && b < 64 && c < 64 && d < 64 && i + 4 <= |t|
    requires t[i] == 0xF0 + a && t[i + 1] == 0x80 + b && t[i + 2] == 0x80 + c && t[i + 3] == 0x80 + d
    ensures U8Rune(t, i, true) == Read(a * 262144 + b * 4096 + c * 64 + d, 4)
  {
    assert Tail(t, i + 1) && Tail(t, i + 2) && Tail(t, i + 3);
  }

  lemma SixBits(x: nat)
    ensures x == x / 64 * 64 + x % 64
    ensures x / 64 == x / 4096 * 64 + x / 64 % 64
    ensures x / 4096 == x / 262144 * 64 + x / 4096 % 64
  {
    assert x / 64 / 64 == x / 4096;
    assert x / 4096 / 64 == x / 262144;
  }

  /** A rune that is spelled out is the rune that is read, whatever comes before and after. */
  lemma SpellingReads(before: seq<nat>, x: nat, after: seq<nat>)
    requires x < 0x200000
    ensures U8Rune(before + Spelling(x) + after, |before|, true) == Read(x, |Spelling(x)|)
  {
    hide U8Rune;
    var (t, i, s) := (before + Spelling(x) + after, |before|, Spelling(x));
    forall k | 0 <= k < |s| ensures t[i + k] == s[k] {}
    assert t[i] == s[0];
    SixBits(x);
    if x >= 0x10000 {
      assert t[i + 1] == s[1] && t[i + 2] == s[2] && t[i + 3] == s[3];
      ReadsFour(t, i, x / 262144, x / 4096 % 64, x / 64 % 64, x % 64);
    } else if x >= 0x800 {
      assert t[i + 1] == s[1] && t[i + 2] == s[2];
      ReadsThree(t, i, x / 4096, x / 64 % 64, x % 64);
    } else if x >= 0x80 {
      assert t[i + 1] == s[1];
      ReadsTwo(t, i, x / 64, x % 64);
    }
  }

  /** A zero spelled in more bytes than it needs. */
  predicate OverlongZero(t: seq<nat>, i: nat)
    requires i <= |t|
  {
    [0xC0, 0x80] <= t[i..] || [0xE0, 0x80, 0x80] <= t[i..] || [0xF0, 0x80, 0x80, 0x80] <= t[i..]
  }

  /** The rune 0 is read at the end of the text, and at an overlong zero, and nowhere else. */
  lemma RuneZero(t: seq<nat>, i: nat, mb: bool)
    requires Text(t) && i <= |t|
    ensures U8Rune(t, i, mb).rune == 0 <==> i == |t| || (mb && OverlongZero(t, i))
  {
    if i < |t| && mb && t[i] >= 128 {
      var (n, u) := (|t| - i, t[i..]);
      assert forall k :: 0 <= k < n ==> u[k] == t[i + k] && 0 < u[k] < 256;
      assert u[0] == t[i];
      if Form(t, i) == 2 {
        assert u[1] == t[i + 1];
      } else if Form(t, i) == 3 {
        assert u[1] == t[i + 1] && u[2] == t[i + 2];
      } else if Form(t, i) == 4 {
        assert u[1] == t[i + 1] && u[2] == t[i + 2] && u[3] == t[i + 3];
      }
    }
  }

  /** `u8_isutf`. */
  function U8Isutf(t: seq<nat>, i: nat, mb: bool): nat
    requires i <= |t|
  {
    if i == |t| || t[i] < 128 || !mb then 1 else Form(t, i)
  }

  /** `u8_nextlen`. */
  function U8Nextlen(t: seq<nat>, i: nat, mb: bool): (n: nat)
    requires i <= |t|
    ensures n == U8Rune(t, i, mb).len
  {
    if U8Isutf(t, i, mb) == 0 then 1 else U8Isutf(t, i, mb)
  }

  /** The offset after the rune at `i`. */
  function After(t: seq<nat>, mb: bool, i: nat): (j: nat)
    requires i < |t|
    ensures i < j <= |t|
  {
    i + U8Rune(t, i, mb).len
  }

  /** Reading rune by rune from `i` comes to `j`. */
  predicate Boundary(t: seq<nat>, mb: bool, i: nat, j: nat)
    requires i <= |t|
    decreases |t| - i
  {
    i == j || (i < |t| && Boundary(t, mb, After(t, mb, i), j))
  }

  /** The runes between two boundaries. */
  function Word(t: seq<nat>, mb: bool, i: nat, j: nat): seq<nat>
    requires i <= |t| && Boundary(t, mb, i, j)
    decreases |t| - i
  {
    if i == j then [] else [U8Rune(t, i, mb).rune] + Word(t, mb, After(t, mb, i), j)
  }

  lemma {:induction false} BoundaryInside(t: seq<nat>, mb: bool, i: nat, j: nat)
    requires i <= |t| && Boundary(t, mb, i, j)
    ensures i <= j <= |t|
    decreases |t| - i
  {
    if i != j { BoundaryInside(t, mb, After(t, mb, i), j); }
  }

  lemma {:induction false} BoundaryNext(t: seq<nat>, mb: bool, i: nat, j: nat)
    requires i <= |t| && Boundary(t, mb, i, j) && j < |t|
    ensures Boundary(t, mb, i, After(t, mb, j))
    ensures Word(t, mb, i, After(t, mb, j)) == Word(t, mb, i, j) + [U8Rune(t, j, mb).rune]
    decreases |t| - i
  {
    BoundaryInside(t, mb, i, j);
    if i != j {
      BoundaryNext(t, mb, After(t, mb, i), j);
      BoundaryInside(t, mb, After(t, mb, i), j);
    }
  }

  /** Between two boundaries the later one is a boundary seen from the earlier one. */
  lemma {:induction false} BoundarySplit(t: seq<nat>, mb: bool, i: nat, j: nat, k: nat)
    requires i <= |t| && Boundary(t, mb, i, j) && Boundary(t, mb, i, k) && j <= k
    ensures j <= |t| && Boundary(t, mb, j, k)
    ensures Word(t, mb, i, k) == Word(t, mb, i, j) + Word(t, mb, j, k)
    decreases |t| - i
  {
    BoundaryInside(t, mb, i, j);
    BoundaryInside(t, mb, i, k);
    if i != j {
      BoundarySplit(t, mb, After(t, mb, i), j, k);
    }
  }

  /** No boundary lies inside a rune. */
  lemma BoundaryGap(t: seq<nat>, mb: bool, i: nat, j: nat, k: nat)
    requires i <= |t| && Boundary(t, mb, i, j) && Boundary(t, mb, i, k) && j < k
    ensures j < |t| && After(t, mb, j) <= k
  {
    BoundarySplit(t, mb, i, j, k);
    BoundaryInside(t, mb, After(t, mb, j), k);
  }

  lemma {:induction false} EndIsBoundary(t: seq<nat>, mb: bool, i: nat)
    requires i <= |t|
    ensures Boundary(t, mb, i, |t|)
    decreases |t| - i
  {
    if i < |t| { EndIsBoundary(t, mb, After(t, mb, i)); }
  }

  /** The text as runes. */
  function Runes(t: seq<nat>, mb: bool): seq<nat> {
    EndIsBoundary(t, mb, 0);
    Word(t, mb, 0, |t|)
  }

  /** The byte offset of the `n`-th rune from `i`. */
  lemma {:induction false} OffsetOf(t: seq<nat>, mb: bool, i: nat, n: nat) returns (b: nat)
    requires i <= |t| && Boundary(t, mb, i, |t|) && n <= |Word(t, mb, i, |t|)|
    ensures Boundary(t, mb, i, b) && b <= |t| && Word(t, mb, i, b) == Word(t, mb, i, |t|)[..n]
    ensures n == |Word(t, mb, i, |t|)| ==> b == |t|
    decreases |t| - i
  {
    if n == 0 {
      b := i;
    } else {
      b := OffsetOf(t, mb, After(t, mb, i), n - 1);
      BoundaryInside(t, mb, After(t, mb, i), b);
    }
  }

  // ----- the runes of some texts -----

  /** A byte that begins no sequence, or whose sequence is broken off, is a rune of its own. */
  lemma OwnRune(t: seq<nat>, i: nat, mb: bool)
    requires Text(t) && i < |t|
    ensures var n := if 0xC0 <= t[i] < 0xE0 then 2 else if 0xE0 <= t[i] < 0xF0 then 3 else if 0xF0 <= t[i] < 0xF8 then 4 else 0;
            if !mb || n == 0 || i + n > |t| || (exists k :: i < k < i + n && !(0x80 <= t[k] < 0xC0))
            then U8Rune(t, i, mb) == Read(t[i], 1)
            else U8Rune(t, i, mb).len == n
  {
    var b := t[i];
    LeadBits(b);
    forall k: nat | k < |t| ensures Tail(t, k) <==> 0x80 <= t[k] < 0xC0 {
      LeadBits(t[k]);
    }
    hide Tail;
    var n := if 0xC0 <= b < 0xE0 then 2 else if 0xE0 <= b < 0xF0 then 3 else if 0xF0 <= b < 0xF8 then 4 else 0;
    if b >= 128 && mb && n > 0 && i + n <= |t| && (forall k :: i < k < i + n ==> 0x80 <= t[k] < 0xC0) {
      assert Form(t, i) == n;
    } else if b >= 128 && mb {
      assert Form(t, i) == 0;
    }
  }

  lemma LeadBits(b: nat)
    requires b < 256
    ensures b / 32 % 8 == 6 <==> 0xC0 <= b < 0xE0
    ensures b / 16 % 16 == 14 <==> 0xE0 <= b < 0xF0
    ensures b / 8 % 32 == 30 <==> 0xF0 <= b < 0xF8
    ensures b / 64 % 4 == 2 <==> 0x80 <= b < 0xC0
  {
  }

  /** U+00E9, U+20AC and U+1F600. */
  lemma SomeRunes()
    ensures U8Rune([0xC3, 0xA9], 0, true) == Read(0xE9, 2)
    ensures U8Rune([0xE2, 0x82, 0xAC], 0, true) == Read(0x20AC, 3)
    ensures U8Rune([0xF0, 0x9F, 0x98, 0x80], 0, true) == Read(0x1F600, 4)
  {
    ReadsTwo([0xC3, 0xA9], 0, 3, 0x29);
    ReadsThree([0xE2, 0x82, 0xAC], 0, 2, 2, 0x2C);
    ReadsFour([0xF0, 0x9F, 0x98, 0x80], 0, 0, 0x1F, 0x18, 0);
  }
}
