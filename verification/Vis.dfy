/**
 `vis`: bytes made visible, one at a time (VIS_NOLOCALE), and the round trip through `unvis`.
 */
module Vis {
  import opened Bits
  import opened Unvis

  /** The flags that can be combined freely: no VIS_NOSLASH, no caller-supplied extras. */
  datatype Flags = Flags(octal: bool, cstyle: bool, sp: bool, tab: bool, nl: bool, safe: bool, dq: bool, glob: bool, shell: bool)

  const CHAR_SHELL: seq<Byte> :=
    [0x27, 0x60, 0x22, 0x3B, 0x26, 0x3C, 0x3E, 0x28, 0x29, 0x7C, 0x7B, 0x7D, 0x5D, 0x5C, 0x24, 0x21, 0x5E, 0x7E]
  const CHAR_GLOB: seq<Byte> := [0x2A, 0x3F, 0x5B, 0x23]

  predicate IsWhite(c: nat) {
    c == 0x20 || c == 0x09 || c == 0x0A
  }

  predicate IsSafe(c: nat) {
    c == 0x08 || c == 0x07 || c == 0x0D
  }

  predicate IsCntrl(c: nat) {
    c < 0x20 || c == 0x7F
  }

  /** What is encoded besides what cannot be seen. */
  predicate Extra(f: Flags, c: Byte) {
    || (f.glob && c in CHAR_GLOB)
    || (f.shell && c in CHAR_SHELL)
    || (f.sp && c == 0x20) || (f.tab && c == 0x09) || (f.nl && c == 0x0A) || (f.dq && c == 0x22)
    || c == BACKSLASH
  }

  /** `makeextralist`. */
  method MakeExtraList(f: Flags) returns (extra: seq<Byte>)
    ensures forall c: Byte :: c in extra <==> Extra(f, c)
  {
    hide CHAR_GLOB, CHAR_SHELL;
    var d1: seq<Byte> := if f.glob then CHAR_GLOB else [];
    var d2 := d1 + if f.shell then CHAR_SHELL else [];
    var d3 := d2 + if f.sp then [0x20] else [];
    d3 := d3 + if f.tab then [0x09] else [];
    var d4 := d3 + if f.nl then [0x0A] else [];
    d4 := d4 + if f.dq then [0x22] else [];
    extra := d4 + [BACKSLASH];
  }

  /** Letters that mean something after a backslash. */
  const LETTERS: set<Byte> := {0x6E, 0x72, 0x62, 0x61, 0x76, 0x74, 0x66, 0x73, 0x4D, 0x45, 0x78}

  // ----- what an encoding must do -----

  /** May `rest` follow, when the encoder looked ahead at `nextc`? */
  predicate Follows(rest: seq<Byte>, nextc: Byte) {
    rest == [] || rest[0] == BACKSLASH || rest[0] == nextc
  }

  /** Whatever follows, `out` decodes to `p` and leaves the decoder in its ground state. */
  ghost predicate Spells(out: seq<Byte>, p: seq<Byte>, nextc: Byte) {
    forall rest: seq<Byte>, cp: Byte :: Follows(rest, nextc) ==>
      Decode(out + rest, Ground, cp, PLAIN) == Then(p, Decode(rest, Ground, 0, PLAIN))
  }

  /** Bytes that may stand in the output as they are. */
  predicate Shown(b: Byte, f: Flags) {
    IsGraph(b) || (IsWhite(b) && !Extra(f, b)) || (f.safe && IsSafe(b))
  }

  predicate Graphic(s: seq<Byte>) {
    forall k :: 0 <= k < |s| ==> IsGraph(s[k])
  }

  predicate AllShown(s: seq<Byte>, f: Flags) {
    forall k :: 0 <= k < |s| ==> Shown(s[k], f)
  }

  /** The encoding of one byte: at most four bytes, none zero, starting with a backslash unless it is the byte itself. */
  ghost predicate Encodes(e: seq<Byte>, c: Byte, nextc: Byte) {
    1 <= |e| <= 4 && 0 !in e && (e[0] == BACKSLASH || e == [c]) && Spells(e, [c], nextc)
  }

  lemma SpellsOne(c: Byte, nextc: Byte)
    requires c != BACKSLASH && c != 0
    ensures Encodes([c], c, nextc)
  {
    forall rest: seq<Byte>, cp: Byte | Follows(rest, nextc)
      ensures Decode([c] + rest, Ground, cp, PLAIN) == Then([c], Decode(rest, Ground, 0, PLAIN))
    {
      assert ([c] + rest)[1..] == rest;
      GroundForgets(rest, c, 0, PLAIN);
    }
  }

  /** A backslash and one character that stands for `v`. */
  lemma SpellsPair(x: Byte, v: Byte, nextc: Byte)
    requires AfterBackslash(0, x) == (Ground, v, Valid) && x != 0
    ensures Encodes([BACKSLASH, x], v, nextc)
  {
    forall rest: seq<Byte>, cp: Byte | Follows(rest, nextc)
      ensures Decode([BACKSLASH, x] + rest, Ground, cp, PLAIN) == Then([v], Decode(rest, Ground, 0, PLAIN))
    {
      var s := [BACKSLASH, x] + rest;
      assert s[1..] == [x] + rest && ([x] + rest)[1..] == rest;
      GroundForgets(rest, v, 0, PLAIN);
    }
  }

  /** `\0` when no octal digit follows. */
  lemma SpellsNul(nextc: Byte)
    requires !IsOctal(nextc)
    ensures Encodes([BACKSLASH, 0x30], 0, nextc)
  {
    forall rest: seq<Byte>, cp: Byte | Follows(rest, nextc)
      ensures Decode([BACKSLASH, 0x30] + rest, Ground, cp, PLAIN) == Then([0], Decode(rest, Ground, 0, PLAIN))
    {
      var s := [BACKSLASH, 0x30] + rest;
      var s1 := [0x30] + rest;
      assert s[1..] == s1 && s1[1..] == rest;
      assert Step(Start, 0, 0x30, PLAIN) == (Octal2, 0, NoChar);
      assert Decode(s, Ground, cp, PLAIN) == Decode(s1, Start, 0, PLAIN) == Decode(rest, Octal2, 0, PLAIN);
      if rest == [] {
        assert [0] + [] == [0];
      } else {
        assert Step(Octal2, 0, rest[0], PLAIN) == (Ground, 0, ValidPush);
        assert Decode(rest, Octal2, 0, PLAIN) == Then([0], Decode(rest, Ground, 0, PLAIN));
      }
    }
  }

  function Octal(c: Byte): (e: seq<Byte>)
    ensures |e| == 4
  {
    [BACKSLASH, c / 64 % 4 + 0x30, c / 8 % 8 + 0x30, c % 8 + 0x30]
  }

  lemma SpellsOctal(c: Byte, nextc: Byte)
    ensures Encodes(Octal(c), c, nextc)
  {
    var e := Octal(c);
    var a, b, d := c / 64 % 4, c / 8 % 8, c % 8;
    assert (a * 8 + b) * 8 + d == c;
    forall rest: seq<Byte>, cp: Byte | Follows(rest, nextc)
      ensures Decode(e + rest, Ground, cp, PLAIN) == Then([c], Decode(rest, Ground, 0, PLAIN))
    {
      OctalDecodes(e, rest, cp, a, b, d);
      GroundForgets(rest, c, 0, PLAIN);
    }
  }

  lemma OctalDecodes(e: seq<Byte>, rest: seq<Byte>, cp: Byte, a: Byte, b: Byte, d: Byte)
    requires a < 4 && b < 8 && d < 8 && e == [BACKSLASH, a + 0x30, b + 0x30, d + 0x30]
    ensures Decode(e + rest, Ground, cp, PLAIN) == Then([(a * 8 + b) * 8 + d], Decode(rest, Ground, (a * 8 + b) * 8 + d, PLAIN))
  {
    var s0, s1, s2, s3 := e + rest, [a + 0x30, b + 0x30, d + 0x30] + rest, [b + 0x30, d + 0x30] + rest, [d + 0x30] + rest;
    assert s0[1..] == s1 && s1[1..] == s2 && s2[1..] == s3 && s3[1..] == rest;
    assert Step(Start, 0, s1[0], PLAIN) == (Octal2, a, NoChar);
    assert Step(Octal2, a, s2[0], PLAIN) == (Octal3, a * 8 + b, NoChar);
    assert Step(Octal3, a * 8 + b, s3[0], PLAIN) == (Ground, (a * 8 + b) * 8 + d, Valid);
    assert Decode(s1, Start, 0, PLAIN) == Decode(s2, Octal2, a, PLAIN);
    assert Decode(s2, Octal2, a, PLAIN) == Decode(s3, Octal3, a * 8 + b, PLAIN);
  }

  /** What `\M` and `\^` put out for a byte. */
  function Caret(c: Byte): seq<Byte>
    requires c < 128
  {
    if IsCntrl(c) then [0x5E, if c == 0x7F then 0x3F else c + 0x40] else [0x2D, c]
  }

  lemma SpellsControl(c: Byte, nextc: Byte)
    requires IsCntrl(c)
    ensures Encodes([BACKSLASH] + Caret(c), c, nextc)
  {
    forall rest: seq<Byte>, cp: Byte | Follows(rest, nextc)
      ensures Decode([BACKSLASH] + Caret(c) + rest, Ground, cp, PLAIN) == Then([c], Decode(rest, Ground, 0, PLAIN))
    {
      var x: Byte := if c == 0x7F then 0x3F else c + 0x40;
      var s0, s1, s2 := [BACKSLASH] + Caret(c) + rest, [0x5E, x] + rest, [x] + rest;
      assert s0[1..] == s1 && s1[1..] == s2 && s2[1..] == rest;
      CtrlStep(0, c, x);
      assert Decode(s1, Start, 0, PLAIN) == Decode(s2, Ctrl, 0, PLAIN);
      GroundForgets(rest, c, 0, PLAIN);
    }
  }

  lemma CtrlStep(cp: Byte, c: Byte, x: Byte)
    requires (cp == 0 || cp == 128) && IsCntrl(c) && x == if c == 0x7F then 0x3F else c + 0x40
    ensures cp + c < 256 && Step(Ctrl, cp, x, PLAIN) == (Ground, cp + c, Valid)
  {
    OrMeta(c);
    assert c != 0x7F ==> x % 32 == c;
  }

  lemma SpellsMeta(c: Byte, nextc: Byte)
    requires c >= 128 && (IsCntrl(c - 128) || IsGraph(c - 128))
    ensures Encodes([BACKSLASH, 0x4D] + Caret(c - 128), c, nextc)
  {
    var low: Byte := c - 128;
    var e := [BACKSLASH, 0x4D] + Caret(low);
    forall rest: seq<Byte>, cp: Byte | Follows(rest, nextc)
      ensures Decode(e + rest, Ground, cp, PLAIN) == Then([c], Decode(rest, Ground, 0, PLAIN))
    {
      MetaDecodes(low, rest, cp);
      GroundForgets(rest, c, 0, PLAIN);
    }
  }

  lemma MetaDecodes(low: Byte, rest: seq<Byte>, cp: Byte)
    requires low < 128 && (IsCntrl(low) || IsGraph(low))
    ensures Decode([BACKSLASH, 0x4D] + Caret(low) + rest, Ground, cp, PLAIN) == Then([128 + low], Decode(rest, Ground, 128 + low, PLAIN))
  {
    var y: Byte := if low == 0x7F then 0x3F else if IsCntrl(low) then low + 0x40 else low;
    var k: Byte := if IsCntrl(low) then 0x5E else 0x2D;
    var s0, s1, s2, s3 := [BACKSLASH, 0x4D] + Caret(low) + rest, [0x4D, k, y] + rest, [k, y] + rest, [y] + rest;
    assert s0[1..] == s1 && s1[1..] == s2 && s2[1..] == s3 && s3[1..] == rest;
    assert Decode(s1, Start, 0, PLAIN) == Decode(s2, Meta, 128, PLAIN);
    if IsCntrl(low) {
      CtrlStep(128, low, y);
      assert Decode(s2, Meta, 128, PLAIN) == Decode(s3, Ctrl, 128, PLAIN);
    } else {
      OrMeta(low);
      assert Decode(s2, Meta, 128, PLAIN) == Decode(s3, Meta1, 128, PLAIN);
    }
  }

  // ----- the encoder -----

  /** Neither printed as it is nor white space kept for its own sake. */
  predicate NeedsEncoding(c: Byte, iswextra: bool, f: Flags) {
    iswextra || !(IsGraph(c) || IsWhite(c) || (f.safe && IsSafe(c)))
  }

  /** The letter of the C style for a byte, 0 for none. */
  function CLetter(c: Byte): Byte {
    match c
    case 0x0A => 0x6E
    case 0x0D => 0x72
    case 0x08 => 0x62
    case 0x07 => 0x61
    case 0x0B => 0x76
    case 0x09 => 0x74
    case 0x0C => 0x66
    case 0x20 => 0x73
    case _ => 0
  }

  /** What the C style puts out for a byte, nothing where it has no form for it. */
  function CForm(c: Byte, nextc: Byte): seq<Byte> {
    if CLetter(c) != 0 then [BACKSLASH, CLetter(c)]
    else if c == 0 then if IsOctal(nextc) then Octal(0) else [BACKSLASH, 0x30]
    else if c in {0x6E, 0x72, 0x62, 0x61, 0x76, 0x74, 0x66, 0x73, 0x30, 0x4D, 0x5E, 0x24} then []
    else if IsGraph(c) && !IsOctal(c) then [BACKSLASH, c]
    else []
  }

  /** The encoding of a byte that needs one. */
  function Form(c: Byte, f: Flags, nextc: Byte, iswextra: bool): seq<Byte> {
    if f.cstyle && CForm(c, nextc) != [] then CForm(c, nextc)
    else if iswextra || c % 128 == 0x20 || f.octal then Octal(c)
    else if c >= 128 then [BACKSLASH, 0x4D] + Caret(c - 128)
    else [BACKSLASH] + Caret(c)
  }

  /** Which form a byte gets, spelled out. */
  lemma Forms(c: Byte, f: Flags, nextc: Byte, iswextra: bool)
    ensures var e := Form(c, f, nextc, iswextra);
            !f.cstyle || (0x30 <= c <= 0x37) || (c != 0 && !(0x07 <= c <= 0x0D) && !(0x20 <= c <= 0x7E))
            || c in {0x4D, 0x5E, 0x24} || (c as char in "abfnrstv") ==>
              if iswextra || c == 0x20 || c == 0xA0 || f.octal then
                e == [0x5C, 0x30 + c / 64, 0x30 + c / 8 % 8, 0x30 + c % 8]
              else if c < 0x20 then e == [0x5C, 0x5E, c + 0x40]
              else if c < 0x7F then e == [0x5C, 0x2D, c]
              else if c == 0x7F then e == [0x5C, 0x5E, 0x3F]
              else if c < 0xA0 then e == [0x5C, 0x4D, 0x5E, c - 0x40]
              else if c < 0xFF then e == [0x5C, 0x4D, 0x2D, c - 0x80]
              else e == [0x5C, 0x4D, 0x5E, 0x3F]
    ensures var e := Form(c, f, nextc, iswextra);
            f.cstyle ==>
              && (c == 0x00 ==> e == if 0x30 <= nextc <= 0x37 then [0x5C, 0x30, 0x30, 0x30] else [0x5C, 0x30])
              && (c == 0x07 ==> e == [0x5C, 'a' as nat]) && (c == 0x08 ==> e == [0x5C, 'b' as nat])
              && (c == 0x09 ==> e == [0x5C, 't' as nat]) && (c == 0x0A ==> e == [0x5C, 'n' as nat])
              && (c == 0x0B ==> e == [0x5C, 'v' as nat]) && (c == 0x0C ==> e == [0x5C, 'f' as nat])
              && (c == 0x0D ==> e == [0x5C, 'r' as nat]) && (c == 0x20 ==> e == [0x5C, 's' as nat])
              && (0x21 <= c <= 0x7E && !(0x30 <= c <= 0x37) && c !in {0x4D, 0x5E, 0x24} && !(c as char in "abfnrstv")
                  ==> e == [0x5C, c])
  {
  }

  /** Extras are white space, graphic characters without a meaning to `unvis`, and zero. */
  predicate ExtraOk(c: Byte, iswextra: bool) {
    && (iswextra ==> c == 0 || IsWhite(c) || (IsGraph(c) && !IsDigit(c) && c !in LETTERS))
    && (c == 0 || c == BACKSLASH ==> iswextra)
  }

  /** `do_mbyte`: the encoding appended, graphic characters only. */
  method DoMbyte(dst0: seq<Byte>, c: Byte, f: Flags, nextc: Byte, iswextra: bool) returns (dst: seq<Byte>)
    requires NeedsEncoding(c, iswextra, f) && ExtraOk(c, iswextra)
    ensures dst0 <= dst && Encodes(dst[|dst0|..], c, nextc)
    ensures Graphic(dst[|dst0|..]) && |dst| >= |dst0| + 2
    ensures dst == dst0 + Form(c, f, nextc, iswextra)
    ensures !f.cstyle && (iswextra || c == 0x20 || c == 0xA0 || f.octal) ==>
              dst[|dst0|..] == [0x5C, 0x30 + c / 64, 0x30 + c / 8 % 8, 0x30 + c % 8]
    ensures !f.cstyle && !(iswextra || c == 0x20 || c == 0xA0 || f.octal) ==>
              var low := c % 128;
              dst[|dst0|..] == [0x5C] + (if c >= 128 then [0x4D] else []) +
                               if low < 0x20 then [0x5E, low + 0x40] else if low == 0x7F then [0x5E, 0x3F] else [0x2D, low]
  {
    hide Encodes, Form, Caret, IsCntrl, NeedsEncoding, ExtraOk, CForm;
    if !f.cstyle {
      FormPlain(c, f, nextc, iswextra);
    }
    ghost var e := Form(c, f, nextc, iswextra);
    if f.cstyle {
      var done;
      ghost var e';
      dst, done, e' := CStyle(dst0, c, f, nextc, iswextra);
      if done {
        FormStyled(c, f, nextc, iswextra);
        assert dst[|dst0|..] == e;
        return;
      }
    }
    FormUnstyled(c, f, nextc, iswextra);
    FormEncodes(c, f, nextc, iswextra);
    if iswextra || c % 128 == 0x20 || f.octal {
      dst := dst0 + [BACKSLASH, c / 64 % 4 + 0x30, c / 8 % 8 + 0x30, c % 8 + 0x30];
    } else {
      dst := dst0 + [BACKSLASH];
      var low := c;
      if c >= 128 {
        low := c - 128;
        dst := dst + [0x4D];
      }
      ghost var mid := dst;
      CaretIs(low);
      if IsCntrl(low) {
        dst := dst + [0x5E];
        if low == 0x7F {
          dst := dst + [0x3F];
        } else {
          dst := dst + [low + 0x40];
        }
      } else {
        dst := dst + [0x2D];
        dst := dst + [low];
      }
      assert dst == mid + Caret(low);
    }
    assert dst == dst0 + e;
    assert dst[|dst0|..] == e;
  }

  lemma CaretIs(low: Byte)
    requires low < 128
    ensures Caret(low) == if IsCntrl(low) then [0x5E, if low == 0x7F then 0x3F else low + 0x40] else [0x2D, low]
  {
  }

  lemma FormStyled(c: Byte, f: Flags, nextc: Byte, iswextra: bool)
    requires f.cstyle && CForm(c, nextc) != []
    ensures Form(c, f, nextc, iswextra) == CForm(c, nextc)
  {
  }

  lemma FormUnstyled(c: Byte, f: Flags, nextc: Byte, iswextra: bool)
    requires !f.cstyle || CForm(c, nextc) == []
    ensures Form(c, f, nextc, iswextra) ==
            if iswextra || c % 128 == 0x20 || f.octal then Octal(c)
            else if c >= 128 then [BACKSLASH, 0x4D] + Caret(c - 128)
            else [BACKSLASH] + Caret(c)
  {
  }

  lemma FormPlain(c: Byte, f: Flags, nextc: Byte, iswextra: bool)
    requires !f.cstyle
    ensures iswextra || c == 0x20 || c == 0xA0 || f.octal ==>
              Form(c, f, nextc, iswextra) == [0x5C, 0x30 + c / 64, 0x30 + c / 8 % 8, 0x30 + c % 8]
    ensures !(iswextra || c == 0x20 || c == 0xA0 || f.octal) ==>
              var low := c % 128;
              Form(c, f, nextc, iswextra) == [0x5C] + (if c >= 128 then [0x4D] else []) +
                if low < 0x20 then [0x5E, low + 0x40] else if low == 0x7F then [0x5E, 0x3F] else [0x2D, low]
  {
  }

  lemma FormEncodes(c: Byte, f: Flags, nextc: Byte, iswextra: bool)
    requires NeedsEncoding(c, iswextra, f) && ExtraOk(c, iswextra) && (f.cstyle ==> CForm(c, nextc) == [])
    ensures Encodes(Form(c, f, nextc, iswextra), c, nextc) && Graphic(Form(c, f, nextc, iswextra)) && |Form(c, f, nextc, iswextra)| >= 2
  {
    hide Encodes;
    if iswextra || c % 128 == 0x20 || f.octal {
      SpellsOctal(c, nextc);
    } else if c >= 128 {
      SpellsMeta(c, nextc);
    } else {
      SpellsControl(c, nextc);
    }
  }

  /** The switch for VIS_CSTYLE; `done` when it put something out. */
  method CStyle(dst0: seq<Byte>, c: Byte, f: Flags, nextc: Byte, ghost iswextra: bool)
    returns (dst: seq<Byte>, done: bool, ghost e: seq<Byte>)
    requires NeedsEncoding(c, iswextra, f) && ExtraOk(c, iswextra)
    ensures (done <==> CForm(c, nextc) != []) && (done ==> e == CForm(c, nextc))
    ensures done ==> dst == dst0 + e && Encodes(e, c, nextc) && Graphic(e) && |e| >= 2
    ensures !done ==> dst == dst0
  {
    hide Encodes;
    done, e := true, [];
    var letter: Byte :=
      match c
      case 0x0A => 0x6E
      case 0x0D => 0x72
      case 0x08 => 0x62
      case 0x07 => 0x61
      case 0x0B => 0x76
      case 0x09 => 0x74
      case 0x0C => 0x66
      case 0x20 => 0x73
      case _ => 0;
    if letter != 0 {
      SpellsPair(letter, c, nextc);
      e := [BACKSLASH, letter];
      dst := dst0 + [BACKSLASH, letter];
    } else if c == 0 {
      if IsOctal(nextc) {
        SpellsOctal(0, nextc);
        e := Octal(0);
        dst := dst0 + [BACKSLASH, 0x30, 0x30, 0x30];
      } else {
        SpellsNul(nextc);
        e := [BACKSLASH, 0x30];
        dst := dst0 + [BACKSLASH, 0x30];
      }
    } else if c in {0x6E, 0x72, 0x62, 0x61, 0x76, 0x74, 0x66, 0x73, 0x30, 0x4D, 0x5E, 0x24} {
      return dst0, false, [];
    } else if IsGraph(c) && !IsOctal(c) {
      SpellsPair(c, c, nextc);
      e := [BACKSLASH, c];
      dst := dst0 + [BACKSLASH, c];
    } else {
      return dst0, false, [];
    }
  }

  lemma ExtraIsOk(f: Flags, c: Byte)
    requires Extra(f, c)
    ensures c != 0 && (IsWhite(c) || (IsGraph(c) && !IsDigit(c) && c !in LETTERS))
  {
  }

  /** `do_svis`: a byte as it is, or encoded where it needs to be. */
  method DoSvis(dst0: seq<Byte>, c: Byte, f: Flags, nextc: Byte, extra: seq<Byte>) returns (dst: seq<Byte>)
    requires forall x: Byte :: x in extra <==> Extra(f, x)
    ensures dst0 <= dst && Encodes(dst[|dst0|..], c, nextc)
    ensures dst == dst0 + [c] <==> !NeedsEncoding(c, c == 0 || Extra(f, c), f)
    ensures NeedsEncoding(c, c == 0 || Extra(f, c), f) ==> dst == dst0 + Form(c, f, nextc, c == 0 || Extra(f, c))
    ensures AllShown(dst[|dst0|..], f) && (dst != dst0 + [c] ==> Graphic(dst[|dst0|..]))
  {
    hide Encodes, Extra;
    var iswextra := c == 0 || c in extra;
    if c in extra {
      ExtraIsOk(f, c);
    }
    if !iswextra && (IsGraph(c) || IsWhite(c) || (f.safe && IsSafe(c))) {
      dst := dst0 + [c];
      BackslashExtra(f);
      SpellsOne(c, nextc);
      assert dst[|dst0|..] == [c];
      return;
    }
    BackslashExtra(f);
    dst := DoMbyte(dst0, c, f, nextc, iswextra);
  }

  lemma BackslashExtra(f: Flags)
    ensures Extra(f, BACKSLASH)
  {
  }

  // ----- a whole string -----

  /** What the encoder sees after byte `i`: the next one, and after the last whatever stands there. */
  function Ahead(src: seq<Byte>, i: nat, after: Byte): Byte
    requires i <= |src|
  {
    if i < |src| then src[i] else after
  }

  lemma SpellsMore(out: seq<Byte>, p: seq<Byte>, e: seq<Byte>, c: Byte, nextc: Byte)
    requires Spells(out, p, c) && Encodes(e, c, nextc)
    ensures Spells(out + e, p + [c], nextc)
  {
    forall rest: seq<Byte>, cp: Byte | Follows(rest, nextc)
      ensures Decode(out + e + rest, Ground, cp, PLAIN) == Then(p + [c], Decode(rest, Ground, 0, PLAIN))
    {
      assert (e + rest)[0] == e[0] && Follows(e + rest, c);
      assert out + e + rest == out + (e + rest);
      assert Decode(e + rest, Ground, 0, PLAIN) == Then([c], Decode(rest, Ground, 0, PLAIN));
      Grouped(p, c, Decode(rest, Ground, 0, PLAIN));
    }
  }

  lemma SpellsNothing(nextc: Byte)
    ensures Spells([], [], nextc)
  {
    forall rest: seq<Byte>, cp: Byte | Follows(rest, nextc)
      ensures Decode([] + rest, Ground, cp, PLAIN) == Then([], Decode(rest, Ground, 0, PLAIN))
    {
      assert [] + rest == rest;
      GroundForgets(rest, cp, 0, PLAIN);
      var r := Decode(rest, Ground, 0, PLAIN);
      assert r.Text? ==> [] + r.s == r.s;
    }
  }

  lemma SpellsAll(out: seq<Byte>, p: seq<Byte>, nextc: Byte)
    requires Spells(out, p, nextc)
    ensures Decode(out, Ground, 0, PLAIN) == Text(p)
  {
    assert out + [] == out && p + [] == p;
    assert Follows([], nextc);
    assert Decode(out + [], Ground, 0, PLAIN) == Then(p, Decode([], Ground, 0, PLAIN));
  }

  /** The encoding of one byte, where it needs one. */
  function Code1(c: Byte, f: Flags, nextc: Byte): seq<Byte> {
    var iswextra := c == 0 || Extra(f, c);
    if NeedsEncoding(c, iswextra, f) then Form(c, f, nextc, iswextra) else [c]
  }

  /** The encoding of the first `i` bytes. */
  function CodeOf(src: seq<Byte>, i: nat, f: Flags, after: Byte): seq<Byte>
    requires i <= |src|
  {
    if i == 0 then [] else CodeOf(src, i - 1, f, after) + Code1(src[i - 1], f, Ahead(src, i, after))
  }

  datatype Visible = NoSpace | Visible(text: seq<Byte>)

  /**
   The encoding loop and the copy into the caller's buffer, which fails when the encoding and its
   terminator do not fit.  `after` is the byte behind the input, which is looked at when there is one
   byte only.
   */
  method Strsenvisx(src: seq<Byte>, dlen: nat, f: Flags, after: Byte) returns (r: Visible, ghost out: seq<Byte>)
    ensures Decode(out, Ground, 0, PLAIN) == Text(src) && 0 !in out && |out| <= 4 * |src|
    ensures forall k :: 0 <= k < |out| ==>
              IsGraph(out[k]) || (IsWhite(out[k]) && !Extra(f, out[k])) || (f.safe && IsSafe(out[k]))
    ensures out == CodeOf(src, |src|, f, if |src| == 1 then after else 0)
    ensures r == if |out| < dlen then Visible(out) else NoSpace
    ensures r.Visible? ==> Decode(r.text, Ground, 0, PLAIN) == Text(src) && |r.text| < dlen
    ensures r.NoSpace? ==> dlen <= 4 * |src|
  {
    hide Encodes, Extra, Spells;
    var extra := MakeExtraList(f);
    var dst: seq<Byte> := [];
    var ahead: Byte := if |src| == 1 then after else 0;
    var i := 0;
    SpellsNothing(Ahead(src, 0, ahead));
    while i < |src|
      invariant 0 <= i <= |src| && Spells(dst, src[..i], Ahead(src, i, ahead)) && 0 !in dst && |dst| <= 4 * i
      invariant AllShown(dst, f) && dst == CodeOf(src, i, f, ahead)
    {
      ghost var before := dst;
      var nextc := Ahead(src, i + 1, ahead);
      dst := DoSvis(dst, src[i], f, nextc, extra);
      ghost var e := dst[|before|..];
      assert dst == before + e;
      EncodesFacts(e, src[i], nextc);
      SpellsMore(before, src[..i], e, src[i], nextc);
      assert src[..i + 1] == src[..i] + [src[i]];
      i := i + 1;
    }
    assert src[..i] == src;
    SpellsAll(dst, src, ahead);
    out := dst;
    if |dst| + 1 > dlen {
      return NoSpace, out;
    }
    return Visible(dst), out;
  }

  lemma EncodesFacts(e: seq<Byte>, c: Byte, nextc: Byte)
    requires Encodes(e, c, nextc)
    ensures |e| <= 4 && 0 !in e
  {
  }

  /** Encoding and then decoding, with room for both, gives back exactly the bytes there were. */
  method VisThenUnvis(src: seq<Byte>, f: Flags, after: Byte) returns (back: array<Byte>, n: int)
    ensures n == |src| && n < back.Length && back[..n] == src && back[n] == 0
  {
    var r, out := Strsenvisx(src, 4 * |src| + 1, f, after);
    back := new Byte[|src| + 1](_ => 0);
    n := Strnunvisx(back, |src| + 1, r.text, PLAIN);
  }

  /** The encoding of one byte alone. */
  lemma OneByte(c: Byte, f: Flags, after: Byte)
    ensures CodeOf([c], 1, f, after) ==
            if c != 0 && !Extra(f, c) && (0x21 <= c <= 0x7E || c == 0x20 || c == 0x09 || c == 0x0A || (f.safe && (c == 0x07 || c == 0x08 || c == 0x0D)))
            then [c]
            else Form(c, f, after, c == 0 || Extra(f, c))
  {
    hide Form, Extra;
    assert CodeOf([c], 0, f, after) == [];
  }

  /** The characters that are encoded besides. */
  lemma Extras(f: Flags, c: Byte)
    ensures Extra(f, c) <==>
            || c == 0x5C || (f.sp && c == 0x20) || (f.tab && c == 0x09) || (f.nl && c == 0x0A) || (f.dq && c == 0x22)
            || (f.glob && c as char in "*?[#") || (f.shell && c as char in "'`\";&<>()|{}]\\$!^~")
  {
  }
}
