/**
 `unvis`, the decoder driven by a state machine, and its driver `strnunvisx`.
 */
module Unvis {
  import opened Arithmetic
  import opened Bits

  const BACKSLASH: Byte := 0x5C

  datatype State = Ground | Start | Meta | Meta1 | Ctrl | Octal2 | Octal3 | Hex | Hex1 | Hex2 | Mime1 | Mime2 | EatCrnl

  datatype Code = Valid | ValidPush | NoChar | SynBad

  /** Which decodings are asked for: no backslash escapes, RFC 1808 `%`, RFC 2045 `=`. */
  datatype Flag = Flag(noescape: bool, http1808: bool, mimestyle: bool)

  const PLAIN := Flag(false, false, false)

  predicate IsOctal(c: nat) {
    0x30 <= c <= 0x37
  }

  predicate IsGraph(c: nat) {
    0x21 <= c <= 0x7E
  }

  predicate IsDigit(c: nat) {
    0x30 <= c <= 0x39
  }

  predicate IsXdigit(c: nat) {
    IsDigit(c) || 0x41 <= c <= 0x46 || 0x61 <= c <= 0x66
  }

  function Xtod(c: nat): (d: nat)
    requires IsXdigit(c)
    ensures d < 16
  {
    if IsDigit(c) then c - 0x30 else if c <= 0x46 then c - 0x41 + 10 else c - 0x61 + 10
  }

  lemma OrMeta(x: Byte)
    requires x < 128
    ensures OrByte(128, x) == 128 + x && OrByte(0, x) == x
  {
    OrDisjoint(1, x, 7);
    assert Pow2(7) == 128;
  }

  /** The letters that stand for one character after a backslash. */
  function Letter(c: Byte): Byte {
    match c
    case 0x6E => 0x0A
    case 0x72 => 0x0D
    case 0x62 => 0x08
    case 0x61 => 0x07
    case 0x76 => 0x0B
    case 0x74 => 0x09
    case 0x66 => 0x0C
    case 0x73 => 0x20
    case 0x45 => 0x1B
    case _ => 0
  }

  /** What follows a backslash. */
  function AfterBackslash(cp: Byte, c: Byte): (State, Byte, Code) {
    if c == BACKSLASH then (Ground, c, Valid)
    else if IsOctal(c) then (Octal2, c - 0x30, NoChar)
    else if c == 0x4D then (Meta, 128, NoChar)
    else if c == 0x5E then (Ctrl, cp, NoChar)
    else if Letter(c) != 0 then (Ground, Letter(c), Valid)
    else if c == 0x78 then (Hex, cp, NoChar)
    else if c == 0x0A || c == 0x24 then (Ground, cp, NoChar)
    else if IsGraph(c) then (Ground, c, Valid)
    else (Ground, cp, SynBad)
  }

  predicate MimeDigit(c: Byte) {
    IsXdigit(c) && c <= 0x46
  }

  /** One call of `unvis`: the new state, the character under construction, and the return code. */
  function Step(st: State, cp: Byte, c: Byte, flag: Flag): (State, Byte, Code) {
    match st
    case Ground =>
      if !flag.noescape && c == BACKSLASH then (Start, 0, NoChar)
      else if flag.http1808 && c == 0x25 then (Hex1, 0, NoChar)
      else if flag.mimestyle && c == 0x3D then (Mime1, 0, NoChar)
      else (Ground, c, Valid)
    case Start => AfterBackslash(cp, c)
    case Meta =>
      if c == 0x2D then (Meta1, cp, NoChar)
      else if c == 0x5E then (Ctrl, cp, NoChar)
      else (Ground, cp, SynBad)
    case Meta1 => (Ground, OrByte(cp, c), Valid)
    case Ctrl => (Ground, OrByte(cp, if c == 0x3F then 0x7F else c % 32), Valid)
    case Octal2 => if IsOctal(c) then (Octal3, (cp * 8 + (c - 0x30)) % 256, NoChar) else (Ground, cp, ValidPush)
    case Octal3 => if IsOctal(c) then (Ground, (cp * 8 + (c - 0x30)) % 256, Valid) else (Ground, cp, ValidPush)
    case Hex => if IsXdigit(c) then (Hex2, Xtod(c), NoChar) else (Ground, cp, SynBad)
    case Hex1 => if IsXdigit(c) then (Hex2, Xtod(c), NoChar) else (Ground, cp, ValidPush)
    case Hex2 => if IsXdigit(c) then (Ground, OrByte(Xtod(c), cp * 16 % 256), Valid) else (Ground, cp, ValidPush)
    case Mime1 =>
      if c == 0x0A || c == 0x0D then (EatCrnl, cp, NoChar)
      else if MimeDigit(c) then (Mime2, Xtod(c), NoChar)
      else (Ground, cp, SynBad)
    case Mime2 => if MimeDigit(c) then (Ground, OrByte(Xtod(c), cp * 16 % 256), Valid) else (Ground, cp, SynBad)
    case EatCrnl =>
      if c == 0x0A || c == 0x0D then (EatCrnl, cp, NoChar)
      else if c == 0x3D then (Mime1, cp, NoChar)
      else (Ground, c, Valid)
  }

  /** Which states still hold a character when the input ends. */
  predicate Pending(st: State) {
    st == Octal2 || st == Octal3 || st == Hex2
  }

  datatype Result = Bad | Text(s: seq<Byte>)

  function Then(p: seq<Byte>, r: Result): Result {
    if r.Bad? then Bad else Text(p + r.s)
  }

  /** What the driver makes of the rest of its input. */
  function Decode(src: seq<Byte>, st: State, cp: Byte, flag: Flag): Result
    decreases |src|, if st == Ground then 0 else 1
  {
    if src == [] then Text(if Pending(st) then [cp] else [])
    else
      var (st', cp', code) := Step(st, cp, src[0], flag);
      match code
      case Valid => Then([cp'], Decode(src[1..], st', cp', flag))
      case ValidPush => Then([cp'], Decode(src, Ground, cp', flag))
      case NoChar => Decode(src[1..], st', cp', flag)
      case SynBad => Bad
  }

  /** A character that was pushed back is read in the ground state, so it is never pushed back twice. */
  lemma PushedBackOnce(st: State, cp: Byte, c: Byte, flag: Flag)
    ensures var (st', cp', code) := Step(st, cp, c, flag);
            code == ValidPush ==> st' == Ground && Step(st', cp', c, flag).2 != ValidPush
    ensures var (st', cp', code) := Step(st, cp, c, flag);
            code == Valid || code == SynBad ==> st' == Ground
  {
  }

  /** In the ground state what was decoded before does not matter. */
  lemma GroundForgets(src: seq<Byte>, cp: Byte, cp': Byte, flag: Flag)
    ensures Decode(src, Ground, cp, flag) == Decode(src, Ground, cp', flag)
  {
  }

  /**
   The state machine: `*cp` and `*astate` are updated.  `Step` says how.
   */
  class Machine {
    var cp: Byte
    var astate: State

    constructor ()
      ensures cp == 0 && astate == Ground
    {
      cp, astate := 0, Ground;
    }

    method Unvis(c: Byte, flag: Flag) returns (code: Code)
      modifies this
      ensures (astate, cp, code) == Step(old(astate), old(cp), c, flag)
    {
      match astate
      case Ground =>
        cp := 0;
        if !flag.noescape && c == BACKSLASH {
          astate := Start;
          return NoChar;
        }
        if flag.http1808 && c == 0x25 {
          astate := Hex1;
          return NoChar;
        }
        if flag.mimestyle && c == 0x3D {
          astate := Mime1;
          return NoChar;
        }
        cp := c;
        return Valid;
      case Start =>
        code := UnvisStart(c);
      case Meta =>
        if c == 0x2D {
          astate := Meta1;
        } else if c == 0x5E {
          astate := Ctrl;
        } else {
          astate := Ground;
          return SynBad;
        }
        return NoChar;
      case Meta1 =>
        astate := Ground;
        cp := OrByte(cp, c);
        return Valid;
      case Ctrl =>
        if c == 0x3F {
          cp := OrByte(cp, 0x7F);
        } else {
          cp := OrByte(cp, c % 32);
        }
        astate := Ground;
        return Valid;
      case Octal2 =>
        if IsOctal(c) {
          cp := (cp * 8 + (c - 0x30)) % 256;
          astate := Octal3;
          return NoChar;
        }
        astate := Ground;
        return ValidPush;
      case Octal3 =>
        astate := Ground;
        if IsOctal(c) {
          cp := (cp * 8 + (c - 0x30)) % 256;
          return Valid;
        }
        return ValidPush;
      case _ =>
        code := UnvisHex(c);
    }

    method UnvisStart(c: Byte) returns (code: Code)
      requires astate == Start
      modifies this
      ensures (astate, cp, code) == AfterBackslash(old(cp), c)
    {
      astate := Ground;
      if c == BACKSLASH {
        cp := c;
        return Valid;
      } else if IsOctal(c) {
        cp := c - 0x30;
        astate := Octal2;
        return NoChar;
      } else if c == 0x4D {
        cp := 128;
        astate := Meta;
        return NoChar;
      } else if c == 0x5E {
        astate := Ctrl;
        return NoChar;
      } else if Letter(c) != 0 {
        cp := Letter(c);
        return Valid;
      } else if c == 0x78 {
        astate := Hex;
        return NoChar;
      } else if c == 0x0A || c == 0x24 {
        return NoChar;
      } else if IsGraph(c) {
        cp := c;
        return Valid;
      }
      return SynBad;
    }

    method UnvisHex(c: Byte) returns (code: Code)
      requires astate in {Hex, Hex1, Hex2, Mime1, Mime2, EatCrnl}
      modifies this
      ensures (astate, cp, code) == Step(old(astate), old(cp), c, PLAIN)
    {
      var st := astate;
      if st == Hex || st == Hex1 {
        if IsXdigit(c) {
          cp := Xtod(c);
          astate := Hex2;
          return NoChar;
        }
        astate := Ground;
        return if st == Hex then SynBad else ValidPush;
      } else if st == Hex2 {
        astate := Ground;
        if IsXdigit(c) {
          cp := OrByte(Xtod(c), cp * 16 % 256);
          return Valid;
        }
        return ValidPush;
      } else if st == Mime1 {
        if c == 0x0A || c == 0x0D {
          astate := EatCrnl;
          return NoChar;
        }
        if MimeDigit(c) {
          cp := Xtod(c);
          astate := Mime2;
          return NoChar;
        }
        astate := Ground;
        return SynBad;
      } else if st == Mime2 {
        astate := Ground;
        if MimeDigit(c) {
          cp := OrByte(Xtod(c), cp * 16 % 256);
          return Valid;
        }
        return SynBad;
      } else {
        if c == 0x0A || c == 0x0D {
          return NoChar;
        } else if c == 0x3D {
          astate := Mime1;
          return NoChar;
        }
        cp := c;
        astate := Ground;
        return Valid;
      }
    }

    /** The call with UNVIS_END: is a character still pending? */
    method UnvisEnd() returns (code: Code)
      modifies this
      ensures code == (if Pending(old(astate)) then Valid else if old(astate) == Ground then NoChar else SynBad)
      ensures astate == (if Pending(old(astate)) then Ground else old(astate)) && cp == old(cp)
    {
      if astate == Octal2 || astate == Octal3 || astate == Hex2 {
        astate := Ground;
        return Valid;
      } else if astate == Ground {
        return NoChar;
      }
      return SynBad;
    }
  }

  /**
   `strnunvisx`: the decoded bytes and a terminating zero; -1 for a bad escape or when there is no room.
   Room is needed for every byte and the terminator; a bad escape may be met before the room is exhausted.
   */
  method Strnunvisx(dst: array<Byte>, dlen0: nat, src: seq<Byte>, flag: Flag) returns (r: int)
    requires dlen0 <= dst.Length
    modifies dst
    ensures r >= 0 <==> Decode(src, Ground, 0, flag).Text? && |Decode(src, Ground, 0, flag).s| < dlen0
    ensures r >= 0 ==> r == |Decode(src, Ground, 0, flag).s| && dst[..r] == Decode(src, Ground, 0, flag).s && dst[r] == 0
    ensures r >= -1
  {
    var m := new Machine();
    var n, i, dlen := 0, 0, dlen0;
    while i < |src|
      invariant i <= |src| && n + dlen == dlen0 && fresh(m)
      invariant Decode(src, Ground, 0, flag) == Then(dst[..n], Decode(src[i..], m.astate, m.cp, flag))
      decreases |src| - i, if m.astate == Ground then 0 else 1
    {
      assert src[i..][0] == src[i] && src[i..][1..] == src[i + 1..];
      PushedBackOnce(m.astate, m.cp, src[i], flag);
      ghost var rest := Decode(src[i..], m.astate, m.cp, flag);
      ghost var done := dst[..n];
      var code := m.Unvis(src[i], flag);
      if code == Valid || code == ValidPush {
        if dlen == 0 {
          return -1;
        }
        dlen := dlen - 1;
        dst[n] := m.cp;
        n := n + 1;
        assert dst[..n] == done + [m.cp];
        if code == Valid {
          i := i + 1;
        }
        Grouped(done, m.cp, Decode(src[i..], m.astate, m.cp, flag));
      } else if code == NoChar {
        i := i + 1;
      } else {
        return -1;
      }
    }
    assert src[i..] == [];
    ghost var pending, done := Pending(m.astate), dst[..n];
    var code := m.UnvisEnd();
    if code == Valid {
      if dlen == 0 {
        return -1;
      }
      dlen := dlen - 1;
      dst[n] := m.cp;
      n := n + 1;
      assert dst[..n] == done + [m.cp];
    } else {
      assert dst[..n] + [] == dst[..n];
    }
    if dlen == 0 {
      return -1;
    }
    dst[n] := 0;
    return n;
  }

  lemma Grouped(p: seq<Byte>, c: Byte, r: Result)
    ensures Then(p, Then([c], r)) == Then(p + [c], r)
  {
    if r.Text? {
      assert p + ([c] + r.s) == p + [c] + r.s;
    }
  }

  // ----- what is written how -----

  /** A hexadecimal digit of this value, in either case. */
  predicate HexDigit(c: Byte, v: nat) {
    v < 16 && if v < 10 then c == '0' as nat + v else c == 'A' as nat + v - 10 || c == 'a' as nat + v - 10
  }

  lemma Nibbles(h: nat, l: nat)
    requires h < 16 && l < 16
    ensures h * 16 % 256 == h * 16 && OrByte(l, h * 16) == h * 16 + l
  {
    OrDisjoint(h, l, 4);
    OrSwap(l, h * 16);
    assert Pow2(4) == 16;
  }

  lemma TwoDigits(c: Byte, d: Byte, h: nat, l: nat, rest: seq<Byte>, st: State, cp: Byte, flag: Flag)
    requires HexDigit(c, h) && HexDigit(d, l) && (st == Hex || st == Hex1)
    ensures Decode([c, d] + rest, st, cp, flag) == Then([h * 16 + l], Decode(rest, Ground, 0, flag))
  {
    Nibbles(h, l);
    var (s, t) := ([c, d] + rest, [d] + rest);
    assert s[1..] == t && t[1..] == rest;
    assert Decode(s, st, cp, flag) == Decode(t, Hex2, h, flag);
    GroundForgets(rest, h * 16 + l, 0, flag);
  }

  /** `\x6a`. */
  lemma HexEscape(c: Byte, d: Byte, h: nat, l: nat, rest: seq<Byte>, cp: Byte, flag: Flag)
    requires HexDigit(c, h) && HexDigit(d, l) && !flag.noescape
    ensures Decode([0x5C, 'x' as nat, c, d] + rest, Ground, cp, flag) == Then([h * 16 + l], Decode(rest, Ground, 0, flag))
  {
    var (s, t, u) := ([0x5C, 0x78, c, d] + rest, [0x78, c, d] + rest, [c, d] + rest);
    assert s[1..] == t && t[1..] == u;
    TwoDigits(c, d, h, l, rest, Hex, 0, flag);
    assert Decode(s, Ground, cp, flag) == Decode(t, Start, 0, flag) == Decode(u, Hex, 0, flag);
  }

  /** `%6A`. */
  lemma PercentEscape(c: Byte, d: Byte, h: nat, l: nat, rest: seq<Byte>, cp: Byte, flag: Flag)
    requires HexDigit(c, h) && HexDigit(d, l) && flag.http1808
    ensures Decode(['%' as nat, c, d] + rest, Ground, cp, flag) == Then([h * 16 + l], Decode(rest, Ground, 0, flag))
  {
    var (s, t) := ([0x25, c, d] + rest, [c, d] + rest);
    assert s[1..] == t;
    TwoDigits(c, d, h, l, rest, Hex1, 0, flag);
    assert Decode(s, Ground, cp, flag) == Decode(t, Hex1, 0, flag);
  }

  /** `=6A`, in capital letters; small ones are refused. */
  lemma EqualsEscape(c: Byte, d: Byte, h: nat, l: nat, rest: seq<Byte>, cp: Byte, flag: Flag)
    requires HexDigit(c, h) && HexDigit(d, l) && flag.mimestyle
    ensures Decode(['=' as nat, c, d] + rest, Ground, cp, flag) ==
            if c >= 'a' as nat || d >= 'a' as nat then Bad else Then([h * 16 + l], Decode(rest, Ground, 0, flag))
  {
    Nibbles(h, l);
    var (s, t, u) := ([0x3D, c, d] + rest, [c, d] + rest, [d] + rest);
    assert s[1..] == t && t[1..] == u && u[1..] == rest;
    assert Decode(s, Ground, cp, flag) == Decode(t, Mime1, 0, flag);
    if c < 0x61 {
      assert Decode(t, Mime1, 0, flag) == Decode(u, Mime2, h, flag);
      GroundForgets(rest, h * 16 + l, 0, flag);
    }
  }

  /** An equals sign at the end of a line joins it with the next. */
  lemma SoftBreak(x: Byte, rest: seq<Byte>, cp: Byte, flag: Flag)
    requires flag.mimestyle && x != 0x0A && x != 0x0D && x != 0x3D
    ensures Decode(['=' as nat, 0x0A, x] + rest, Ground, cp, flag) == Then([x], Decode(rest, Ground, 0, flag))
    ensures Decode(['=' as nat, 0x0D, 0x0A, x] + rest, Ground, cp, flag) == Then([x], Decode(rest, Ground, 0, flag))
  {
    var (a, b, c, d, e) := ([0x3D, 0x0A, x] + rest, [0x3D, 0x0D, 0x0A, x] + rest, [0x0A, x] + rest, [0x0D, 0x0A, x] + rest, [x] + rest);
    assert a[1..] == c && b[1..] == d && d[1..] == c && c[1..] == e && e[1..] == rest;
    assert Decode(e, EatCrnl, 0, flag) == Then([x], Decode(rest, Ground, x, flag));
    GroundForgets(rest, x, 0, flag);
    assert Decode(c, Mime1, 0, flag) == Decode(e, EatCrnl, 0, flag);
    assert Decode(d, Mime1, 0, flag) == Decode(c, EatCrnl, 0, flag) == Decode(e, EatCrnl, 0, flag);
  }

  /** A backslash and a letter. */
  lemma LetterEscape(x: Byte, rest: seq<Byte>, cp: Byte, flag: Flag)
    requires !flag.noescape
    ensures var t := Decode([0x5C, x] + rest, Ground, cp, flag);
            && (x == 'n' as nat ==> t == Then([0x0A], Decode(rest, Ground, 0, flag)))
            && (x == 'r' as nat ==> t == Then([0x0D], Decode(rest, Ground, 0, flag)))
            && (x == 'b' as nat ==> t == Then([0x08], Decode(rest, Ground, 0, flag)))
            && (x == 'a' as nat ==> t == Then([0x07], Decode(rest, Ground, 0, flag)))
            && (x == 'v' as nat ==> t == Then([0x0B], Decode(rest, Ground, 0, flag)))
            && (x == 't' as nat ==> t == Then([0x09], Decode(rest, Ground, 0, flag)))
            && (x == 'f' as nat ==> t == Then([0x0C], Decode(rest, Ground, 0, flag)))
            && (x == 's' as nat ==> t == Then([0x20], Decode(rest, Ground, 0, flag)))
            && (x == 'E' as nat ==> t == Then([0x1B], Decode(rest, Ground, 0, flag)))
            && (x == 0x5C ==> t == Then([0x5C], Decode(rest, Ground, 0, flag)))
            && (x == 0x0A || x == '$' as nat ==> t == Decode(rest, Ground, 0, flag))
            && ((x <= 0x20 && x != 0x0A) || x >= 0x7F ==> t == Bad)
  {
    var (s, u) := ([0x5C, x] + rest, [x] + rest);
    assert s[1..] == u && u[1..] == rest;
    assert Decode(s, Ground, cp, flag) == Decode(u, Start, 0, flag);
    GroundForgets(rest, AfterBackslash(0, x).1, 0, flag);
  }
}
