/**
 Base64 as in section 4 of RFC 4648: `b64_ntop` and `b64_pton`.  With the check of the pad bits of
 section 3.5 the decoder accepts exactly the encoder's own texts, spread out by any white space.
 */
module Base64 {
  import opened Arithmetic
  import opened Bits

  const PAD: nat := 0x3D

  /** `Base64[v]`. */
  function Digit(v: nat): (c: nat)
    requires v < 64
    ensures c != PAD && !IsSpace(c) && 0 < c < 128 && Value(c) == v
  {
    if v < 26 then 0x41 + v
    else if v < 52 then 0x61 + (v - 26)
    else if v < 62 then 0x30 + (v - 52)
    else if v == 62 then 0x2B
    else 0x2F
  }

  /** `strchr(Base64, c)`: the place of a character, -1 for any other. */
  function Value(c: nat): (v: int)
    ensures -1 <= v < 64
  {
    if 0x41 <= c <= 0x5A then c - 0x41
    else if 0x61 <= c <= 0x7A then c - 0x61 + 26
    else if 0x30 <= c <= 0x39 then c - 0x30 + 52
    else if c == 0x2B then 62
    else if c == 0x2F then 63
    else -1
  }

  lemma DigitOfValue(c: nat)
    requires Value(c) >= 0
    ensures Digit(Value(c)) == c && c != PAD && !IsSpace(c)
  {
  }

  predicate IsSpace(c: nat) {
    c == 0x20 || 0x09 <= c <= 0x0D
  }

  // ----- the code -----

  /** Three bytes as four digits, and back. */
  function Quad(a: Byte, b: Byte, c: Byte): seq<nat> {
    [Digit(a / 4), Digit(a % 4 * 16 + b / 16), Digit(b % 16 * 4 + c / 64), Digit(c % 64)]
  }

  /** The canonical text. */
  function Encode(x: seq<Byte>): seq<nat> {
    if x == [] then []
    else if |x| == 1 then Quad(x[0], 0, 0)[..2] + [PAD, PAD]
    else if |x| == 2 then Quad(x[0], x[1], 0)[..3] + [PAD]
    else Quad(x[0], x[1], x[2]) + Encode(x[3..])
  }

  datatype Result = Bad | Data(x: seq<Byte>)

  function Then(p: seq<Byte>, r: Result): Result {
    if r.Bad? then Bad else Data(p + r.x)
  }

  predicate IsDigit(c: nat) {
    Value(c) >= 0
  }

  /** The bytes of four digits; of two or three digits the bits left over are ignored. */
  function Bytes(p: nat, q: nat, r: nat, s: nat): seq<Byte>
    requires p < 64 && q < 64 && r < 64 && s < 64
  {
    [p * 4 + q / 16, q % 16 * 16 + r / 4, r % 4 * 64 + s]
  }

  /** A text without white space, group by group; `strict` refuses bits that encode nothing. */
  function Decode(t: seq<nat>, strict: bool): Result {
    if t == [] then Data([])
    else if |t| < 4 || !IsDigit(t[0]) || !IsDigit(t[1]) then Bad
    else
      var p, q := Value(t[0]), Value(t[1]);
      if IsDigit(t[2]) && IsDigit(t[3]) then Then(Bytes(p, q, Value(t[2]), Value(t[3])), Decode(t[4..], strict))
      else if |t| > 4 || t[3] != PAD then Bad
      else if IsDigit(t[2]) then if strict && Value(t[2]) % 4 != 0 then Bad else Data(Bytes(p, q, Value(t[2]), 0)[..2])
      else if t[2] != PAD || (strict && q % 16 != 0) then Bad
      else Data(Bytes(p, q, 0, 0)[..1])
  }

  lemma QuadBytes(a: Byte, b: Byte, c: Byte)
    ensures Bytes(a / 4, a % 4 * 16 + b / 16, b % 16 * 4 + c / 64, c % 64) == [a, b, c]
  {
  }

  lemma BytesQuad(p: nat, q: nat, r: nat, s: nat)
    requires p < 64 && q < 64 && r < 64 && s < 64
    ensures var w := Bytes(p, q, r, s); Quad(w[0], w[1], w[2]) == [Digit(p), Digit(q), Digit(r), Digit(s)]
  {
    hide Digit;
    var a, b, c := p * 4 + q / 16, q % 16 * 16 + r / 4, r % 4 * 64 + s;
    assert a / 4 == p && a % 4 == q / 16;
    assert b / 16 == q % 16 && b % 16 == r / 4;
    assert c / 64 == r % 4 && c % 64 == s;
  }

  /** Decoding undoes encoding. */
  lemma {:induction false} DecodeEncode(x: seq<Byte>, strict: bool)
    ensures Decode(Encode(x), strict) == Data(x)
  {
    hide Digit, Bytes, Value;
    if |x| == 1 {
      EncodeOne(x, strict);
    } else if |x| == 2 {
      EncodeTwo(x, strict);
    } else if |x| >= 3 {
      DecodeEncode(x[3..], strict);
      QuadDecodes(x[0], x[1], x[2], Encode(x[3..]), strict);
      assert x == [x[0], x[1], x[2]] + x[3..];
    }
  }

  lemma EncodeOne(x: seq<Byte>, strict: bool)
    requires |x| == 1
    ensures Decode(Encode(x), strict) == Data(x)
  {
    hide Digit, Bytes;
    QuadBytes(x[0], 0, 0);
    assert Encode(x) == [Digit(x[0] / 4), Digit(x[0] % 4 * 16), PAD, PAD];
    assert Bytes(x[0] / 4, x[0] % 4 * 16, 0, 0) == [x[0], 0, 0];
  }

  lemma EncodeTwo(x: seq<Byte>, strict: bool)
    requires |x| == 2
    ensures Decode(Encode(x), strict) == Data(x)
  {
    hide Digit, Bytes;
    QuadBytes(x[0], x[1], 0);
    assert Encode(x) == [Digit(x[0] / 4), Digit(x[0] % 4 * 16 + x[1] / 16), Digit(x[1] % 16 * 4), PAD];
  }

  lemma QuadDecodes(a: Byte, b: Byte, c: Byte, rest: seq<nat>, strict: bool)
    ensures Decode(Quad(a, b, c) + rest, strict) == Then([a, b, c], Decode(rest, strict))
  {
    hide Digit, Bytes;
    QuadBytes(a, b, c);
    DecodeGroup(Quad(a, b, c), rest, strict);
  }

  /** What the strict decoder accepts is the canonical text of what it returns. */
  lemma {:induction false} EncodeDecode(t: seq<nat>)
    requires Decode(t, true).Data?
    ensures Encode(Decode(t, true).x) == t
  {
    hide Digit, Bytes;
    if t != [] {
      var p, q := Value(t[0]), Value(t[1]);
      DigitOfValue(t[0]);
      DigitOfValue(t[1]);
      if IsDigit(t[2]) {
        DigitOfValue(t[2]);
      }
      if IsDigit(t[2]) && IsDigit(t[3]) {
        DigitOfValue(t[3]);
        BytesQuad(p, q, Value(t[2]), Value(t[3]));
        EncodeDecode(t[4..]);
        var w, r := Bytes(p, q, Value(t[2]), Value(t[3])), Decode(t[4..], true).x;
        BytesLength(p, q, Value(t[2]), Value(t[3]));
        assert (w + r)[3..] == r && (w + r)[0] == w[0] && (w + r)[1] == w[1] && (w + r)[2] == w[2];
        assert t == [t[0], t[1], t[2], t[3]] + t[4..];
      } else if IsDigit(t[2]) {
        LastTwo(t, p, q, Value(t[2]));
      } else {
        LastOne(t, p, q);
      }
    }
  }

  lemma BytesLength(p: nat, q: nat, r: nat, s: nat)
    requires p < 64 && q < 64 && r < 64 && s < 64
    ensures |Bytes(p, q, r, s)| == 3
  {
  }

  lemma LastTwo(t: seq<nat>, p: nat, q: nat, r: nat)
    requires p < 64 && q < 64 && r < 64 && r % 4 == 0 && t == [Digit(p), Digit(q), Digit(r), PAD]
    ensures Encode(Bytes(p, q, r, 0)[..2]) == t
  {
    hide Digit;
    var w := Bytes(p, q, r, 0);
    BytesQuad(p, q, r, 0);
    assert w[2] == 0;
  }

  lemma LastOne(t: seq<nat>, p: nat, q: nat)
    requires p < 64 && q < 64 && q % 16 == 0 && t == [Digit(p), Digit(q), PAD, PAD]
    ensures Encode(Bytes(p, q, 0, 0)[..1]) == t
  {
    hide Digit;
    var w := Bytes(p, q, 0, 0);
    BytesQuad(p, q, 0, 0);
    assert w[1] == 0 && w[2] == 0;
  }

  /** A text is accepted, and means `x`, exactly when it is the canonical text of `x`. */
  lemma Canonical(t: seq<nat>, x: seq<Byte>)
    ensures Decode(t, true) == Data(x) <==> t == Encode(x)
  {
    DecodeEncode(x, true);
    if Decode(t, true) == Data(x) {
      EncodeDecode(t);
    }
  }

  // ----- ntop -----

  /** One group of four digits put out. */
  method PutQuad(target: array<nat>, datalength: nat, a: Byte, b: Byte, c: Byte)
    requires datalength + 4 <= target.Length
    modifies target
    ensures target[..datalength + 4] == old(target[..datalength]) + Quad(a, b, c)
  {
    hide Digit;
    target[datalength] := Digit(a / 4);
    target[datalength + 1] := Digit(a % 4 * 16 + b / 16);
    target[datalength + 2] := Digit(b % 16 * 4 + c / 64);
    target[datalength + 3] := Digit(c % 64);
  }

  /** `compat_b64_ntop`: the canonical text and a terminating zero, or -1 when they do not fit. */
  method Ntop(src: seq<Byte>, target: array<nat>, targsize: nat) returns (r: int)
    requires targsize <= target.Length
    modifies target
    ensures r == if |Encode(src)| < targsize then |Encode(src)| else -1
    ensures r >= 0 ==> target[..r] == Encode(src) && target[r] == 0
  {
    hide Quad, Digit;
    var datalength, at := 0, 0;
    assert src[0..] == src;
    while 2 < |src| - at
      invariant 0 <= at <= |src| && datalength <= targsize && target[..datalength] + Encode(src[at..]) == Encode(src)
    {
      ghost var done, rest := target[..datalength], src[at..];
      assert rest[3..] == src[at + 3..];
      assert Encode(rest) == Quad(src[at], src[at + 1], src[at + 2]) + Encode(src[at + 3..]);
      QuadLength(src[at], src[at + 1], src[at + 2]);
      if datalength + 4 > targsize {
        return -1;
      }
      PutQuad(target, datalength, src[at], src[at + 1], src[at + 2]);
      assert done + (Quad(src[at], src[at + 1], src[at + 2]) + Encode(src[at + 3..])) ==
             done + Quad(src[at], src[at + 1], src[at + 2]) + Encode(src[at + 3..]);
      datalength, at := datalength + 4, at + 3;
    }
    ghost var done, rest := target[..datalength], src[at..];
    if |src| - at != 0 {
      var a: Byte, b: Byte := src[at], if |src| - at > 1 then src[at + 1] else 0;
      QuadLength(a, b, 0);
      if datalength + 4 > targsize {
        return -1;
      }
      PutQuad(target, datalength, a, b, 0);
      ghost var quad := target[datalength..datalength + 4];
      assert quad == Quad(a, b, 0);
      if |src| - at == 1 {
        target[datalength + 2] := PAD;
      }
      target[datalength + 3] := PAD;
      assert target[..datalength + 4] == done + Encode(rest);
      datalength := datalength + 4;
    } else {
      assert rest == [] && done + [] == done;
    }
    if datalength >= targsize {
      return -1;
    }
    target[datalength] := 0;
    return datalength;
  }

  lemma QuadLength(a: Byte, b: Byte, c: Byte)
    ensures |Quad(a, b, c)| == 4
  {
  }

  // ----- pton -----

  /** A text without its white space. */
  function Strip(t: seq<nat>): seq<nat> {
    if t == [] then [] else (if IsSpace(t[0]) then [] else [t[0]]) + Strip(t[1..])
  }

  lemma StripNext(t: seq<nat>, i: nat)
    requires i < |t|
    ensures Strip(t[i..]) == (if IsSpace(t[i]) then [] else [t[i]]) + Strip(t[i + 1..])
  {
    assert t[i..][0] == t[i] && t[i..][1..] == t[i + 1..];
  }

  /** Four digits in front of a text decode by themselves. */
  lemma DecodeGroup(g: seq<nat>, rest: seq<nat>, strict: bool)
    requires |g| == 4 && IsDigit(g[0]) && IsDigit(g[1]) && IsDigit(g[2]) && IsDigit(g[3])
    ensures Decode(g + rest, strict) == Then(Bytes(Value(g[0]), Value(g[1]), Value(g[2]), Value(g[3])), Decode(rest, strict))
  {
    var t := g + rest;
    assert t[4..] == rest && t[0] == g[0] && t[1] == g[1] && t[2] == g[2] && t[3] == g[3];
  }

  /** The digits of an unfinished group. */
  predicate Digits(g: seq<nat>) {
    |g| < 4 && forall k :: 0 <= k < |g| ==> IsDigit(g[k])
  }

  /** After an unfinished group only another digit, or the right number of pads, can come. */
  lemma GroupFails(g: seq<nat>, rest: seq<nat>, strict: bool)
    requires Digits(g)
    requires rest == [] ==> g != []
    requires rest != [] ==> !IsDigit(rest[0]) && (rest[0] != PAD || |g| < 2)
    ensures Decode(g + rest, strict) == Bad
  {
    var t := g + rest;
    assert forall k :: 0 <= k < |g| ==> t[k] == g[k];
    assert rest != [] ==> t[|g|] == rest[0];
  }

  /** Two digits and a pad: another pad must follow, and nothing else. */
  lemma TwoDigits(g: seq<nat>, rest: seq<nat>, strict: bool)
    requires |g| == 2 && Digits(g)
    ensures Decode(g + [PAD] + rest, strict) ==
            if rest != [PAD] || (strict && Value(g[1]) % 16 != 0) then Bad
            else Data(Bytes(Value(g[0]), Value(g[1]), 0, 0)[..1])
  {
    var t := g + [PAD] + rest;
    assert t[0] == g[0] && t[1] == g[1] && t[2] == PAD;
    assert rest != [] ==> t[3] == rest[0];
    assert |rest| == 1 ==> rest == [rest[0]];
  }

  lemma ThreeDigits(g: seq<nat>, rest: seq<nat>, strict: bool)
    requires |g| == 3 && Digits(g)
    ensures Decode(g + [PAD] + rest, strict) ==
            if rest != [] || (strict && Value(g[2]) % 4 != 0) then Bad
            else Data(Bytes(Value(g[0]), Value(g[1]), Value(g[2]), 0)[..2])
  {
    var t := g + [PAD] + rest;
    assert t[0] == g[0] && t[1] == g[1] && t[2] == g[2] && t[3] == PAD;
  }

  /** How many bytes the buffer must hold: one more when the last group is not full. */
  function Room(n: nat): nat {
    if n % 3 == 0 then n else n + 1
  }

  /** The bytes written so far of an unfinished group, the last one incomplete. */
  function Partial(g: seq<nat>): (w: seq<Byte>)
    requires Digits(g)
    ensures |w| == |g|
  {
    if |g| == 0 then []
    else if |g| == 1 then [Value(g[0]) * 4]
    else if |g| == 2 then [Value(g[0]) * 4 + Value(g[1]) / 16, Value(g[1]) % 16 * 16]
    else [Value(g[0]) * 4 + Value(g[1]) / 16, Value(g[1]) % 16 * 16 + Value(g[2]) / 4, Value(g[2]) % 4 * 64]
  }

  function Max0(n: nat): nat {
    if n == 0 then 0 else n - 1
  }

  /** Digits at the front of an accepted text stand for at least this many bytes. */
  lemma DataAtLeast(g: seq<nat>, rest: seq<nat>, strict: bool)
    requires 1 <= |g| <= 4 && (forall k :: 0 <= k < |g| ==> IsDigit(g[k])) && Decode(g + rest, strict).Data?
    ensures |Decode(g + rest, strict).x| >= if |g| <= 2 then 1 else |g| - 1
  {
    hide Bytes;
    var t := g + rest;
    assert t[0] == g[0] && (|g| > 2 ==> t[2] == g[2]) && (|g| > 3 ==> t[3] == g[3]);
    assert IsDigit(t[0]);
    if IsDigit(t[2]) && IsDigit(t[3]) {
      BytesLength(Value(t[0]), Value(t[1]), Value(t[2]), Value(t[3]));
    } else if IsDigit(t[2]) {
      BytesLength(Value(t[0]), Value(t[1]), Value(t[2]), 0);
    } else {
      BytesLength(Value(t[0]), Value(t[1]), 0, 0);
    }
  }

  /** What another digit adds to the byte under construction, and what it begins the next one with. */
  lemma PartialNext(g: seq<nat>, ch: nat)
    requires Digits(g) && g != [] && IsDigit(ch)
    ensures var (p, k, v) := (Partial(g), |g| - 1, Value(ch));
            && (|g| == 1 ==> Partial(g + [ch]) == p[k := OrByte(p[k], v / 16)] + [v % 16 * 16])
            && (|g| == 2 ==> Partial(g + [ch]) == p[k := OrByte(p[k], v / 4)] + [v % 4 * 64])
            && (|g| == 3 ==> Bytes(Value(g[0]), Value(g[1]), Value(g[2]), v) == p[k := OrByte(p[k], v)])
  {
    hide Or;
    var v := Value(ch);
    assert Pow2(2) == 4 && Pow2(4) == 16 && Pow2(6) == 64;
    if |g| == 1 {
      OrDisjoint(Value(g[0]), v / 16, 2);
    } else if |g| == 2 {
      OrDisjoint(Value(g[1]) % 16, v / 4, 4);
    } else {
      OrDisjoint(Value(g[2]) % 4, v, 6);
    }
  }

  /** `target[at] |= or`. */
  method OrInto(target: array<Byte>, at: nat, or: Byte)
    requires at < target.Length
    modifies target
    ensures target[..] == old(target[..])[at := OrByte(old(target[at]), or)]
  {
    target[at] := OrByte(target[at], or);
  }

  /** The bytes from `base` on. */
  ghost predicate Stored(t: seq<Byte>, base: nat, p: seq<Byte>) {
    base + |p| <= |t| && t[base..base + |p|] == p
  }

  lemma StoredNext(t: seq<Byte>, base: nat, p: seq<Byte>, k: nat, or: Byte, next: Byte)
    requires Stored(t, base, p) && |p| == k + 1 && base + k + 1 < |t|
    ensures var u := t[base + k := OrByte(t[base + k], or)];
            && u[..base] == t[..base] && Stored(u, base, p[k := OrByte(p[k], or)])
            && Stored(u[base + k + 1 := next], base, p[k := OrByte(p[k], or)] + [next])
            && u[base + k + 1 := next][..base] == t[..base]
  {
    hide OrByte;
    assert t[base + k] == t[base..base + |p|][k];
    var u, q := t[base + k := OrByte(t[base + k], or)], p[k := OrByte(p[k], or)];
    assert u[base..base + |q|] == q;
    var z := u[base + k + 1 := next];
    assert z[base..base + |q| + 1] == u[base..base + |q|] + [next];
  }

  lemma StoredLast(t: seq<Byte>, base: nat, p: seq<Byte>, k: nat, or: Byte)
    requires Stored(t, base, p) && |p| == k + 1
    ensures var u := t[base + k := OrByte(t[base + k], or)];
            u[..base] == t[..base] && Stored(u, base, p[k := OrByte(p[k], or)])
  {
    hide OrByte;
    assert t[base + k] == t[base..base + |p|][k];
  }

  /** What the switch in the loop does to the buffer for a digit with value `v`. */
  method AddDigit(target: array<Byte>, have: bool, targsize: nat, tarindex0: nat, state0: nat, v: nat,
      ghost w: seq<Byte>, ghost g: seq<nat>, ghost ch: nat) returns (ok: bool, tarindex: nat, state: nat)
    requires targsize <= target.Length && Digits(g) && state0 == |g| && tarindex0 == |w| + Max0(|g|) && Value(ch) == v
    requires have ==> |w| + |g| <= targsize && target[..|w|] == w && Stored(target[..], |w|, Partial(g))
    modifies target
    ensures ok <==> !have || |w| + (if |g| == 0 then 1 else if |g| == 1 then 2 else 3) <= targsize
    ensures ok ==> state == (|g| + 1) % 4 && tarindex == |w| + |g|
    ensures ok && have ==> target[..|w|] == w
    ensures ok && have && |g| < 3 ==> Stored(target[..], |w|, Partial(g + [ch]))
    ensures ok && have && |g| == 3 ==> Stored(target[..], |w|, Bytes(Value(g[0]), Value(g[1]), Value(g[2]), v))
  {
    hide OrByte, Partial, Stored, Bytes;
    ok, tarindex, state := true, tarindex0, (state0 + 1) % 4;
    ghost var t, p := target[..], Partial(g);
    if g != [] {
      PartialNext(g, ch);
    }
    if state0 == 0 {
      if have {
        if tarindex >= targsize {
          return false, tarindex, state;
        }
        target[tarindex] := v * 4;
        FirstStored(target[..], |w|, g, ch);
      }
    } else if state0 == 1 {
      if have {
        if tarindex + 1 >= targsize {
          return false, tarindex, state;
        }
        StoredNext(t, |w|, p, 0, v / 16, v % 16 * 16);
        OrInto(target, tarindex, v / 16);
        target[tarindex + 1] := v % 16 * 16;
      }
      tarindex := tarindex + 1;
    } else if state0 == 2 {
      if have {
        if tarindex + 1 >= targsize {
          return false, tarindex, state;
        }
        StoredNext(t, |w|, p, 1, v / 4, v % 4 * 64);
        OrInto(target, tarindex, v / 4);
        target[tarindex + 1] := v % 4 * 64;
      }
      tarindex := tarindex + 1;
    } else {
      if have {
        if tarindex >= targsize {
          return false, tarindex, state;
        }
        StoredLast(t, |w|, p, 2, v);
        OrInto(target, tarindex, v);
      }
      tarindex := tarindex + 1;
    }
  }

  lemma FirstStored(t: seq<Byte>, base: nat, g: seq<nat>, ch: nat)
    requires g == [] && IsDigit(ch) && base < |t| && t[base] == Value(ch) * 4
    ensures Stored(t, base, Partial(g + [ch]))
  {
    assert t[base..base + 1] == [t[base]];
  }

  /** The white space from `i` on. */
  method SkipSpaces(src: seq<nat>, i: nat) returns (j: nat)
    requires i <= |src|
    ensures i <= j <= |src| && Strip(src[j..]) == Strip(src[i..]) && (j < |src| ==> !IsSpace(src[j]))
    ensures Strip(src[i..]) == [] <==> j == |src|
    ensures j < |src| ==> Strip(src[i..]) == [src[j]] + Strip(src[j + 1..])
  {
    j := i;
    while j < |src| && IsSpace(src[j])
      invariant i <= j <= |src| && Strip(src[j..]) == Strip(src[i..])
    {
      StripNext(src, j);
      j := j + 1;
    }
    if j < |src| {
      StripNext(src, j);
    } else {
      assert src[j..] == [];
    }
  }

  /** From the first pad on. */
  method Pads(src: seq<nat>, at: nat, have: bool, slop: bool, state: nat, ghost g: seq<nat>) returns (ok: bool)
    requires at < |src| && src[at] == PAD && Digits(g) && state == |g|
    requires have && |g| == 2 ==> (slop <==> Value(g[1]) % 16 != 0)
    requires have && |g| == 3 ==> (slop <==> Value(g[2]) % 4 != 0)
    ensures ok <==> Decode(g + Strip(src[at..]), have).Data?
    ensures ok ==> |g| >= 2 && Decode(g + Strip(src[at..]), have) == Data(Partial(g)[..|g| - 1])
  {
    ghost var rest := Strip(src[at + 1..]);
    StripNext(src, at);
    assert g + ([PAD] + rest) == g + [PAD] + rest;
    if state < 2 {
      GroupFails(g, [PAD] + rest, have);
      return false;
    }
    var i := at + 1;
    if state == 2 {
      TwoDigits(g, rest, have);
      var j := SkipSpaces(src, i);
      if j == |src| || src[j] != PAD {
        assert rest != [PAD];
        return false;
      }
      i := j + 1;
    } else {
      ThreeDigits(g, rest, have);
    }
    var j := SkipSpaces(src, i);
    if j < |src| {
      return false;
    }
    if have && slop {
      return false;
    }
    return true;
  }

  /**
   `compat_b64_pton`.  With a buffer the text must be canonical and fit; without one (`have` false) only its
   shape is checked and the length returned.
   */
  method Pton(src: seq<nat>, target: array<Byte>, have: bool, targsize: nat) returns (r: int)
    requires targsize <= target.Length
    modifies target
    ensures r >= 0 <==> var d := Decode(Strip(src), have); d.Data? && (have ==> Room(|d.x|) <= targsize)
    ensures r >= 0 ==> r == |Decode(Strip(src), have).x|
    ensures r >= 0 && have ==> r <= target.Length && target[..r] == Decode(Strip(src), have).x
    ensures r >= -1
  {
    hide OrByte, Partial, Stored, Bytes, Decode, Value, IsSpace, Strip;
    var state, tarindex, i := 0, 0, 0;
    ghost var w: seq<Byte>, g: seq<nat>, all := [], [], Decode(Strip(src), have);
    PtonStarts(src, have, target[..]);
    while i < |src|
      invariant i <= |src| && Digits(g) && state == |g| && tarindex == |w| + Max0(|g|) && |w| % 3 == 0
      invariant all == Then(w, Decode(g + Strip(src[i..]), have))
      invariant have ==> |w| + |g| <= targsize && target[..|w|] == w && Stored(target[..], |w|, Partial(g))
    {
      var ch := src[i];
      StripNext(src, i);
      if IsSpace(ch) {
        assert Strip(src[i..]) == Strip(src[i + 1..]);
        i := i + 1;
        continue;
      }
      if ch == PAD {
        break;
      }
      ghost var rest := Strip(src[i + 1..]);
      var pos := Value(ch);
      if pos < 0 {
        GroupFails(g, [ch] + rest, have);
        return -1;
      }
      assert g + ([ch] + rest) == g + [ch] + rest;
      if Decode(g + [ch] + rest, have).Data? {
        DataAtLeast(g + [ch], rest, have);
      }
      var ok;
      ok, tarindex, state := AddDigit(target, have, targsize, tarindex, state, pos, w, g, ch);
      if !ok {
        return -1;
      }
      if |g| == 3 {
        DecodeGroup(g + [ch], rest, have);
        FullGroup(target[..], w, Bytes(Value(g[0]), Value(g[1]), Value(g[2]), pos), Decode(rest, have), have);
        BytesLength(Value(g[0]), Value(g[1]), Value(g[2]), pos);
        EmptyStored(target[..], |w| + 3, have);
        w, g := w + Bytes(Value(g[0]), Value(g[1]), Value(g[2]), pos), [];
        assert [] + rest == rest;
      } else {
        g := g + [ch];
      }
      i := i + 1;
    }
    r := PtonEnd(src, target, have, targsize, i, tarindex, state, w, g);
  }

  /** After the loop: the pads, or the end of the text. */
  method PtonEnd(src: seq<nat>, target: array<Byte>, have: bool, targsize: nat, i: nat, tarindex: nat, state: nat,
      ghost w: seq<Byte>, ghost g: seq<nat>) returns (r: int)
    requires targsize <= target.Length && i <= |src| && Digits(g) && state == |g| && tarindex == |w| + Max0(|g|) && |w| % 3 == 0
    requires i < |src| ==> src[i] == PAD
    requires have ==> |w| + |g| <= targsize && target[..|w|] == w && Stored(target[..], |w|, Partial(g))
    ensures var d := Then(w, Decode(g + Strip(src[i..]), have));
            && (r >= 0 <==> d.Data?)
            && (r >= 0 ==> r == |d.x| && (have ==> Room(r) <= targsize && target[..r] == d.x))
    ensures r >= -1
  {
    hide OrByte, Partial, Stored, Bytes, Decode, Value, IsSpace, Strip;
    if i < |src| {
      if have && state > 0 {
        LastStored(target[..], |w|, g);
      }
      var ok := Pads(src, i, have, have && state > 0 && target[tarindex] != 0, state, g);
      if !ok {
        return -1;
      }
      PartialStored(target[..], w, g, have);
      return tarindex;
    }
    assert src[i..] == [] && Strip([]) == [] && g + [] == g by { StripEmpty(); }
    if state != 0 {
      GroupFails(g, [], have);
      return -1;
    }
    DecodeNothing(have);
    assert g == [] && w + [] == w;
    return tarindex;
  }

  lemma StripEmpty()
    ensures Strip([]) == []
  {
  }

  lemma DecodeNothing(strict: bool)
    ensures Decode([], strict) == Data([])
  {
  }

  lemma PtonStarts(src: seq<nat>, have: bool, t: seq<Byte>)
    ensures src[0..] == src && Decode(Strip(src), have) == Then([], Decode([] + Strip(src[0..]), have))
    ensures Stored(t, 0, Partial([])) && t[..0] == []
  {
    assert src[0..] == src && [] + Strip(src) == Strip(src);
    var d := Decode(Strip(src), have);
    assert d.Data? ==> [] + d.x == d.x;
  }

  lemma FullGroup(t: seq<Byte>, w: seq<Byte>, b: seq<Byte>, d: Result, have: bool)
    requires have ==> |w| <= |t| && t[..|w|] == w && Stored(t, |w|, b)
    ensures have ==> |w| + |b| <= |t| && t[..|w| + |b|] == w + b
    ensures Then(w, Then(b, d)) == Then(w + b, d)
  {
    if have {
      assert t[..|w| + |b|] == t[..|w|] + t[|w|..|w| + |b|];
    }
    if d.Data? {
      assert w + (b + d.x) == w + b + d.x;
    }
  }

  lemma EmptyStored(t: seq<Byte>, at: nat, have: bool)
    requires have ==> at <= |t|
    ensures have ==> Stored(t, at, Partial([]))
  {
  }

  lemma LastStored(t: seq<Byte>, base: nat, g: seq<nat>)
    requires Digits(g) && g != [] && Stored(t, base, Partial(g))
    ensures base + |g| <= |t| && t[base + |g| - 1] == Partial(g)[|g| - 1]
    ensures |g| == 2 ==> (t[base + 1] != 0 <==> Value(g[1]) % 16 != 0)
    ensures |g| == 3 ==> (t[base + 2] != 0 <==> Value(g[2]) % 4 != 0)
  {
    assert t[base..base + |g|][|g| - 1] == t[base + |g| - 1];
  }

  lemma PartialStored(t: seq<Byte>, w: seq<Byte>, g: seq<nat>, have: bool)
    requires Digits(g) && |g| >= 1 && (have ==> |w| <= |t| && t[..|w|] == w && Stored(t, |w|, Partial(g)))
    ensures have ==> |w| + |g| <= |t| && t[..|w| + |g| - 1] == w + Partial(g)[..|g| - 1]
  {
    if have {
      assert t[..|w| + |g|] == t[..|w|] + t[|w|..|w| + |g|];
    }
  }

  // ----- both together -----

  lemma {:induction false} StripCanonical(x: seq<Byte>)
    ensures Strip(Encode(x)) == Encode(x)
  {
    NoSpaces(x);
    StripNothing(Encode(x));
  }

  lemma {:induction false} NoSpaces(x: seq<Byte>)
    ensures forall k :: 0 <= k < |Encode(x)| ==> !IsSpace(Encode(x)[k])
  {
    if |x| > 2 {
      NoSpaces(x[3..]);
    }
  }

  lemma {:induction false} StripNothing(t: seq<nat>)
    requires forall k :: 0 <= k < |t| ==> !IsSpace(t[k])
    ensures Strip(t) == t
  {
    if t != [] {
      StripNothing(t[1..]);
      assert t == [t[0]] + t[1..];
    }
  }

  /** `pton(ntop(x))` is `x`. */
  method RoundTrip(x: seq<Byte>) returns (back: array<Byte>, r: int)
    ensures r == |x| && r <= back.Length && back[..r] == x
  {
    var text := new nat[4 * |x| + 5](_ => 0);
    back := new Byte[|x| + 1](_ => 0);
    EncodeLength(x);
    StripCanonical(x);
    DecodeEncode(x, true);
    var n := Ntop(x, text, text.Length);
    r := Pton(text[..n], back, true, back.Length);
  }

  lemma {:induction false} EncodeLength(x: seq<Byte>)
    ensures |Encode(x)| == (|x| + 2) / 3 * 4
  {
    if |x| > 2 {
      EncodeLength(x[3..]);
    }
  }

  /** Without the slop check a text is accepted though it is nobody's; with it, exactly the canonical ones are. */
  lemma {:induction false} StrictIsCanonical(t: seq<nat>)
    ensures Decode(t, true).Data? <==> Decode(t, false).Data? && Encode(Decode(t, false).x) == t
    ensures Decode(t, true).Data? ==> Decode(t, false) == Decode(t, true)
  {
    if Decode(t, true).Data? {
      EncodeDecode(t);
      DecodeEncode(Decode(t, true).x, false);
    }
    if Decode(t, false).Data? && Encode(Decode(t, false).x) == t {
      DecodeEncode(Decode(t, false).x, true);
    }
  }

  /** "QR==" has the shape of a text but is not the text of any bytes. */
  lemma SlopAccepted()
    ensures var t := [0x51, 0x52, 0x3D, 0x3D]; Decode(t, false) == Data([0x41]) && Decode(t, true) == Bad
  {
    assert Value(0x51) == 16 && Value(0x52) == 17;
  }
}
