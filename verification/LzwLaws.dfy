/**
 What the .Z format looks like from outside: which bit of the file is which bit of a code, how wide the
 codes are, which codes the writer chooses, the smallest files, and files without block marks.
 */
module LzwLaws {
  import opened Arithmetic
  import opened LzwCodes
  import opened LzwPacking
  import S = LzwStream

  // ----- bits -----

  /** Bit `j` of a number, 0 or 1. */
  function Bit(x: nat, j: nat): nat {
    Shr(x, j) % 2
  }

  /** The bits of a number above another. */
  lemma BitOfJoin(low: nat, high: nat, k: nat, j: nat)
    requires low < Pow2(k)
    ensures Bit(low + Shl(high, k), j) == if j < k then Bit(low, j) else Bit(high, j - k)
  {
    if j < k {
      LowBits(low, high, k, j);
    } else {
      hide Shl, Shr, Pow2;
      Join(low, high, k);
      ShrTwice(low + Shl(high, k), k, j - k);
    }
  }

  lemma EvenAbove(low: nat, m: nat, p: nat)
    requires p > 0
    ensures (low + 2 * m * p) / p % 2 == low / p % 2
  {
    var (a, r) := (low / p, low % p);
    assert low == a * p + r;
    assert (a + 2 * m) * p == a * p + 2 * m * p;
    DivModUnique(a + 2 * m, r, p);
  }

  lemma Halved(h: nat, p: nat, q: nat)
    ensures h * (p * (2 * q)) == 2 * (h * q) * p
  {
    assert h * (p * (2 * q)) == (h * q) * (2 * p);
  }

  lemma LowBits(low: nat, high: nat, k: nat, j: nat)
    requires low < Pow2(k) && j < k
    ensures Bit(low + Shl(high, k), j) == Bit(low, j)
  {
    Pow2Add(j, k - j);
    var q := Pow2(k - j - 1);
    assert Pow2(k - j) == 2 * q;
    hide Pow2;
    Halved(high, Pow2(j), q);
    EvenAbove(low, high * q, Pow2(j));
  }

  lemma TwoIs()
    ensures Pow2(1) == 2 && Pow2(8) == 256
  {
  }

  lemma BitOfLow(x: nat, k: nat, j: nat)
    ensures Bit(Low(x, k), j) == if j < k then Bit(x, j) else 0
  {
    hide Pow2;
    if j < k {
      hide Shl, Shr, Low;
      ShrLow(x, k);
      BitOfJoin(Low(x, k), Shr(x, k), k, j);
    } else {
      Pow2Monotone(k, j);
      DivModUnique(0, Low(x, k), Pow2(j));
    }
  }

  lemma BitOfShr(x: nat, k: nat, j: nat)
    ensures Bit(Shr(x, k), j) == Bit(x, k + j)
  {
    hide Shr;
    ShrTwice(x, k, j);
  }

  lemma Wide(x: byte, y: byte, z: byte, n: nat, s: nat, j: nat)
    requires s < 8 && 9 <= n <= 16 && n + s > 16 && j < n
    ensures Bit(Shr(x, s) + Shl(y, 8 - s) + Shl(Low(z, n + s - 16), 16 - s), j) ==
            if s + j < 8 then Bit(x, s + j) else if s + j < 16 then Bit(y, s + j - 8) else Bit(z, s + j - 16)
  {
    TwoIs();
    hide Shl, Shr, Low, Pow2, Bit;
    var low := Shr(x, s);
    ShrBelow(x, s, 8 - s);
    BitOfShr(x, s, j);
    JoinBelow(low, y, 8 - s, 8);
    BitOfJoin(low + Shl(y, 8 - s), Low(z, n + s - 16), 16 - s, j);
    BitOfJoin(low, y, 8 - s, j);
    if j >= 16 - s {
      BitOfLow(z, n + s - 16, j - (16 - s));
    }
  }

  lemma Narrow(x: byte, y: byte, n: nat, s: nat, j: nat)
    requires s < 8 && 9 <= n <= 16 && n + s <= 16 && j < n
    ensures Bit(Shr(x, s) + Shl(Low(y, n + s - 8), 8 - s), j) == if s + j < 8 then Bit(x, s + j) else Bit(y, s + j - 8)
  {
    TwoIs();
    hide Shl, Shr, Low, Pow2, Bit;
    var low := Shr(x, s);
    ShrBelow(x, s, 8 - s);
    BitOfShr(x, s, j);
    BitOfJoin(low, Low(y, n + s - 8), 8 - s, j);
    if j >= 8 - s {
      BitOfLow(y, n + s - 8, j - (8 - s));
    }
  }

  /** The codes lie in the file bit by bit, the lowest first. */
  lemma CodeBits(f: seq<byte>, base: nat, off: nat, n: nat, j: nat)
    requires 9 <= n <= BITS && base + (off + n + 7) / 8 <= |f| && j < n
    ensures base + (off + j) / 8 < |f| && Bit(GetAt(f, base, off, n), j) == Bit(f[base + (off + j) / 8], (off + j) % 8)
  {
    hide Shl, Shr, Low, Bit;
    var (b, s) := (base + off / 8, off % 8);
    assert (off + j) / 8 == off / 8 + (s + j) / 8 && (off + j) % 8 == (s + j) % 8;
    if n + s > 16 {
      Wide(f[b], f[b + 1], f[b + 2], n, s, j);
    } else {
      Narrow(f[b], f[b + 1], n, s, j);
    }
  }

  // ----- widths and places -----

  /** The codes since the last CLEAR. */
  function Since(codes: seq<nat>): nat {
    if codes == [] || codes[|codes| - 1] == 256 then 0 else 1 + Since(codes[..|codes| - 1])
  }

  /**
   The first code has nine bits, and so has the first after a CLEAR; any other has the least number of
   bits that will do for the next free code, which is one more for each code until all are taken.
   */
  lemma {:induction false} Widths(codes: seq<nat>, mb: nat)
    requires 10 <= mb <= 16
    ensures var l := LayOf(codes, mb);
            && l.free == (if 257 + Since(codes) <= Pow2(mb) then 257 + Since(codes) else Pow2(mb))
            && 9 <= l.nbits <= mb && l.free <= Pow2(l.nbits) && (l.nbits > 9 ==> Pow2(l.nbits - 1) < l.free)
            && l.maxcode == if l.nbits == mb then Pow2(mb) else Pow2(l.nbits) - 1
  {
    if codes == [] {
      Pow2Values();
      Pow2Monotone(10, mb);
    } else {
      var init := codes[..|codes| - 1];
      Widths(init, mb);
      WidthStep(LayOf(init, mb), codes[|codes| - 1], mb, Since(init));
    }
  }

  ghost predicate WidthFits(l: Lay, mb: nat, n: nat) {
    && l.free == (if 257 + n <= Pow2(mb) then 257 + n else Pow2(mb))
    && 9 <= l.nbits <= mb && l.free <= Pow2(l.nbits) && (l.nbits > 9 ==> Pow2(l.nbits - 1) < l.free)
    && l.maxcode == if l.nbits == mb then Pow2(mb) else Pow2(l.nbits) - 1
  }

  lemma WidthStep(l: Lay, code: nat, mb: nat, n: nat)
    requires 10 <= mb <= 16 && WidthFits(l, mb, n)
    ensures WidthFits(LayStep(l, code, mb), mb, if code == 256 then 0 else n + 1)
  {
    assert Pow2(l.nbits + 1) == 2 * Pow2(l.nbits);
    Pow2Values();
    Pow2Monotone(10, mb);
    if l.nbits < mb {
      Pow2Monotone(l.nbits + 1, mb);
    }
    hide Pow2;
  }

  /**
   A code begins at the bit where the one before it ends.  Only after a CLEAR and where the width changes
   the block of eight codes is filled up first.
   */
  lemma Follows(l: Lay, code: nat, mb: nat)
    requires l.slot <= 7
    ensures var m := LayStep(l, code, mb);
            if code == 256 || l.free > l.maxcode then m.base == l.base + l.nbits && m.slot == 0
            else m.nbits == l.nbits && 8 * m.base + m.Off() == 8 * l.base + l.Off() + l.nbits && m.slot <= 7
    ensures var m := LayStep(l, code, mb); m.nbits == if code == 256 then 9 else if l.free > l.maxcode then l.nbits + 1 else l.nbits
  {
    assert (l.slot + 1) * l.nbits == l.slot * l.nbits + l.nbits;
  }

  // ----- the codes the writer chooses -----

  ghost predicate Distinct(table: seq<Entry>) {
    forall i, j :: 0 <= i < j < |table| ==> table[i] != table[j]
  }

  /** Different codes stand for different texts. */
  lemma {:induction false} TextsDiffer(table: seq<Entry>, a: nat, b: nat)
    requires WellFormed(table, FIRST) && Known(table, FIRST, a) && Known(table, FIRST, b) && Distinct(table)
    requires Expand(table, FIRST, a) == Expand(table, FIRST, b)
    ensures a == b
    decreases a
  {
    if a >= 256 && b >= 256 {
      var (d, e) := (table[a - FIRST], table[b - FIRST]);
      var (u, v) := (Expand(table, FIRST, d.prefix), Expand(table, FIRST, e.prefix));
      assert (u + [d.suffix])[..|u|] == u && (v + [e.suffix])[..|v|] == v;
      assert |u| == |v| && (u + [d.suffix])[|u|] == (v + [e.suffix])[|u|];
      TextsDiffer(table, d.prefix, e.prefix);
      assert d == e;
    }
  }

  lemma {:induction false} DistinctAfter(input: seq<byte>, mb: nat)
    requires input != [] && 9 <= mb <= 16
    ensures var e := S.StateAfter(input, mb); Distinct(e.table)
  {
    hide Output;
    if |input| > 1 {
      DistinctAfter(input[..|input| - 1], mb);
    }
  }

  lemma {:induction false} Sound(input: seq<byte>, mb: nat)
    requires input != [] && 9 <= mb <= 16
    ensures var e := S.StateAfter(input, mb); WellFormed(e.table, FIRST) && Known(e.table, FIRST, e.ent)
  {
    hide Output;
    if |input| > 1 {
      Sound(input[..|input| - 1], mb);
    }
  }

  /**
   Greedy: as long as some code stands for the pending text and the next byte together, nothing is put out
   and that code is pending; when none does, the pending code goes out, the byte is pending, and while there
   is room the two together get the next code.
   */
  lemma Greedy(input: seq<byte>, mb: nat, c: byte)
    requires input != [] && 9 <= mb <= 16
    ensures var e, r := S.StateAfter(input, mb), S.StateAfter(input + [c], mb);
            && WellFormed(e.table, FIRST) && Known(e.table, FIRST, e.ent)
            && r.inCount == e.inCount + 1
            && var text := Expand(e.table, FIRST, e.ent) + [c];
               && (forall d: nat :: Known(e.table, FIRST, d) && Expand(e.table, FIRST, d) == text ==>
                     r.ent == d && r.table == e.table && r.pk == e.pk)
               && ((forall d: nat :: Known(e.table, FIRST, d) ==> Expand(e.table, FIRST, d) != text) ==>
                     && r.ent == c
                     && (257 + |e.table| < Pow2(mb) ==>
                           r.table == e.table + [Entry(e.ent, c)] && r.pk == Output(e.pk, e.ent, 257 + |e.table|, false, mb))
                     && (257 + |e.table| >= Pow2(mb) && e.inCount + 1 < e.checkpoint ==>
                           r.table == e.table && r.pk == Output(e.pk, e.ent, 257 + |e.table|, false, mb)))
  {
    hide Output, Expand, S.StateAfter, S.Feed, WellFormed, Distinct;
    Sound(input, mb);
    DistinctAfter(input, mb);
    var e := S.StateAfter(input, mb);
    assert S.StateAfter(input + [c], mb) == S.Feed(e, c) by { NextState(input, mb, c); }
    GreedyStep(e, c);
  }

  lemma NextState(input: seq<byte>, mb: nat, c: byte)
    requires input != [] && 9 <= mb <= 16
    ensures S.StateAfter(input + [c], mb) == S.Feed(S.StateAfter(input, mb), c)
  {
    assert (input + [c])[..|input|] == input;
  }

  lemma GreedyStep(e: S.Enc, c: byte)
    requires S.EncOk(e) && WellFormed(e.table, FIRST) && Known(e.table, FIRST, e.ent) && Distinct(e.table)
    ensures var r, text := S.Feed(e, c), Expand(e.table, FIRST, e.ent) + [c];
            && r.inCount == e.inCount + 1
            && (forall d: nat :: Known(e.table, FIRST, d) && Expand(e.table, FIRST, d) == text ==>
                  r.ent == d && r.table == e.table && r.pk == e.pk)
            && ((forall d: nat :: Known(e.table, FIRST, d) ==> Expand(e.table, FIRST, d) != text) ==>
                  && r.ent == c
                  && (257 + |e.table| < Pow2(e.maxbits) ==>
                        r.table == e.table + [Entry(e.ent, c)] && r.pk == Output(e.pk, e.ent, 257 + |e.table|, false, e.maxbits))
                  && (257 + |e.table| >= Pow2(e.maxbits) && e.inCount + 1 < e.checkpoint ==>
                        r.table == e.table && r.pk == Output(e.pk, e.ent, 257 + |e.table|, false, e.maxbits)))
  {
    hide Output, Expand, WellFormed, Distinct, Pow2;
    var k := S.Find(e.table, Entry(e.ent, c));
    var text := Expand(e.table, FIRST, e.ent) + [c];
    if k >= 0 {
      EntryText(e.table, k);
      assert Known(e.table, FIRST, FIRST + k) && Expand(e.table, FIRST, FIRST + k) == text;
    }
    forall d: nat | Known(e.table, FIRST, d) && Expand(e.table, FIRST, d) == text ensures k >= 0 && d == FIRST + k {
      HasEntry(e.table, e.ent, c, d);
      assert Entry(e.ent, c) in e.table;
      TextsDiffer(e.table, d, FIRST + k);
    }
  }

  /**
   With all codes taken the dictionary stays, until a check is due: ten thousand bytes after the last one.  Then
   it stays if the ratio of input to output, in 256ths, has grown, and otherwise it is dropped and CLEAR put out.
   */
  lemma Checks(e: S.Enc, c: byte)
    requires S.EncOk(e) && 257 + |e.table| == Pow2(e.maxbits) && Entry(e.ent, c) !in e.table
    ensures e.ent < 257 + |e.table| && PackerOk(e.pk, e.maxbits)
    ensures var r, pk, n := S.Feed(e, c), Output(e.pk, e.ent, 257 + |e.table|, false, e.maxbits), e.inCount + 1;
            if n < e.checkpoint then r.table == e.table && r.pk == pk && r.checkpoint == e.checkpoint && r.ratio == e.ratio
            else
              && r.checkpoint == n + 10000
              && if (if n <= 0x7fffff then (e.ratio + 1) * pk.bytesOut <= 256 * n
                     else if pk.bytesOut < 256 then e.ratio < 0x7fffffff
                     else (e.ratio + 1) * (pk.bytesOut / 256) <= n)
                 then r.table == e.table && r.pk == pk
                 else r.table == [] && r.ratio == 0 && r.pk == Output(pk, 256, 257, true, e.maxbits)
  {
    var pk := Output(e.pk, e.ent, 257 + |e.table|, false, e.maxbits);
    S.RateMeans(e.inCount + 1, pk.bytesOut, e.ratio);
    hide Output, S.Rate;
    assert S.Find(e.table, Entry(e.ent, c)) == -1;
  }

  lemma EntryText(table: seq<Entry>, k: nat)
    requires WellFormed(table, FIRST) && k < |table|
    ensures Expand(table, FIRST, FIRST + k) == Expand(table, FIRST, table[k].prefix) + [table[k].suffix]
  {
  }

  lemma HasEntry(table: seq<Entry>, ent: nat, c: byte, d: nat)
    requires WellFormed(table, FIRST) && Known(table, FIRST, ent) && Known(table, FIRST, d) && Distinct(table)
    requires Expand(table, FIRST, d) == Expand(table, FIRST, ent) + [c]
    ensures d >= FIRST && table[d - FIRST] == Entry(ent, c)
  {
    var text := Expand(table, FIRST, ent);
    assert |text + [c]| >= 2;
    assert d >= 256;
    var x := table[d - FIRST];
    var u := Expand(table, FIRST, x.prefix);
    assert (u + [x.suffix])[..|u|] == u && (text + [c])[..|text|] == text;
    assert |u| == |text| && (u + [x.suffix])[|u|] == (text + [c])[|u|];
    TextsDiffer(table, x.prefix, ent);
  }

  // ----- small files -----

  /** `PutCode` into the first three bytes. */
  lemma FirstTwo(buf: seq<byte>, a: byte, code: nat)
    requires |buf| == BITS && code < 512
    ensures buf[0] == 0 && buf[1] == 0 ==> var r := PutCode(buf, 0, 9, a); r[0] == a && r[1] == 0 && r[2] == buf[2]
    ensures buf[1] == 0 ==>
              var r := PutCode(buf, 9, 9, code); r[0] == buf[0] && r[1] == code % 128 * 2 && r[2] == code / 128
  {
    assert Pow2(0) == 1 && Pow2(1) == 2 && Pow2(7) == 128 && Pow2(8) == 256;
  }

  /** The file of a single byte, and of a byte three times. */
  lemma SmallFiles(a: byte, mb: nat)
    requires 9 <= mb <= 16
    ensures S.Compress([a], mb) == [0x1F, 0x9D, mb + 128, a, 0]
    ensures S.Compress([a, a, a], mb) == [0x1F, 0x9D, mb + 128, a, 2, 2]
  {
    hide PutCode;
    Pow2Values();
    Pow2Monotone(9, mb);
    var e := S.Begin(mb, a);
    FirstTwo(e.pk.buf, a, 0);
    var pk := Output(e.pk, a, FIRST, false, mb);
    assert pk == e.pk.(buf := PutCode(e.pk.buf, 0, 9, a), off := 9);
    assert S.StateAfter([a], mb) == e;
    assert pk.buf[..2] == [a, 0];
    FirstTwo(pk.buf, a, 257);
    assert [a, a][..1] == [a] && [a, a, a][..2] == [a, a];
    var e2 := S.StateAfter([a, a], mb);
    assert e2 == S.Feed(e, a);
    assert e2.table == [Entry(a, a)] && e2.pk == pk && e2.ent == a;
    var e3 := S.StateAfter([a, a, a], mb);
    assert e3 == S.Feed(e2, a);
    assert e3.ent == 257 && e3.pk == pk && e3.table == e2.table;
    var pk3 := Output(pk, 257, 258, false, mb);
    assert pk3.buf[..3] == [a, 2, 2] && pk3.off == 18;
  }

  // ----- files without block marks -----

  /** Where the header has no block mark, 256 is a code like others, and the dictionary is never dropped. */
  lemma NoMarks(f: seq<byte>, d: Dec, limit: nat, code: nat)
    requires S.GoodHeader(f) && f[2] < 128 && DecValid(d, S.HeaderFirst(f), limit) && code < limit
    ensures S.HeaderFirst(f) == 256
    ensures var s := DecStep(d, 256, limit, code);
            && (s.Some? ==> d.table <= s.value.0.table)
            && (code == 256 && d.table != [] ==>
                  s.Some? && s.value.1 == Expand(d.table, 256, d.table[0].prefix) + [d.table[0].suffix])
            && (code == 256 && d.table == [] ==>
                  if d.prev == -1 then s.None? else s.Some? && s.value.1 == Expand([], 256, d.prev) + [d.fin])
  {
  }

  lemma SecondCode(buf: seq<byte>, a: byte)
    requires |buf| == BITS && buf[0] == a && buf[1] == 0 && buf[2] == 2
    ensures GetAt(buf, 0, 0, 9) == a && GetAt(buf, 0, 9, 9) == 256
  {
    assert Pow2(0) == 1 && Pow2(1) == 2 && Pow2(2) == 4 && Pow2(7) == 128 && Pow2(8) == 256;
  }

  /** The same two codes, a byte and 256, with and without the mark. */
  lemma MarkMatters(a: byte)
    ensures S.Decompress([0x1F, 0x9D, 0x8C, a, 0, 2]) == S.Out([a], S.Eof)
    ensures S.Decompress([0x1F, 0x9D, 0x0C, a, 0, 2]) == S.Out([a, a, a], S.Eof)
  {
    TwoCodes([0x1F, 0x9D, 0x8C, a, 0, 2], a);
    TwoCodes([0x1F, 0x9D, 0x0C, a, 0, 2], a);
  }

  lemma TwoCodes(f: seq<byte>, a: byte)
    requires |f| == 6 && f[..2] == [0x1F, 0x9D] && (f[2] == 0x8C || f[2] == 0x0C) && f[3..] == [a, 0, 2]
    ensures S.Decompress(f) == S.Out(if f[2] == 0x8C then [a] else [a, a, a], S.Eof)
  {
    hide S.DecodeFrom, S.GetCode;
    Pow2Values();
    var first := S.HeaderFirst(f);
    S.ReaderOk(f);
    FirstGet(f, a, first);
    assert f[2] % 32 == 12;
    assert S.Decompress(f) == S.DecodeFrom(f, S.Reader(12), START, first, 12);
    var rd := S.GetCode(f, S.Reader(12), first, 12).1;
    LastCode(f, a, first, S.GetCode(f, rd, first, 12).1);
    TwoSteps(f, a, first);
  }

  /** The registers after the two codes have been read. */
  lemma FirstGet(f: seq<byte>, a: byte, first: nat)
    requires |f| == 6 && f[3..] == [a, 0, 2] && (first == 256 || first == 257) && Pow2(9) == 512 && Pow2(12) == 4096
    requires S.RdOk(S.Reader(12), f, 12)
    ensures var g := S.GetCode(f, S.Reader(12), first, 12);
            && g.0 == a && g.1.pos == 6 && g.1.roff == 9 && g.1.size == 16 && !g.1.clear && S.RdOk(g.1, f, 12)
            && var h := S.GetCode(f, g.1, first, 12); h.0 == 256 && h.1.pos == 6 && h.1.roff == 18 && h.1.size == 16 && S.RdOk(h.1, f, 12)
  {
    hide GetAt;
    assert f[3..6] == f[3..];
    var g := S.GetCode(f, S.Reader(12), first, 12);
    var buf := g.1.gbuf;
    assert buf == f[3..6] + Zeros()[3..];
    SecondCode(buf, a);
  }

  lemma TwoSteps(f: seq<byte>, a: byte, first: nat)
    requires |f| == 6 && (first == 256 || first == 257) && Pow2(12) == 4096 && S.RdOk(S.Reader(12), f, 12)
    requires var g := S.GetCode(f, S.Reader(12), first, 12);
             g.0 == a && S.GetCode(f, g.1, first, 12).0 == 256 && S.RdOk(g.1, f, 12)
    requires DecValid(Dec([], a, a), first, 4096)
    requires var (g, s) := (S.GetCode(f, S.Reader(12), first, 12), DecStep(Dec([], a, a), first, 4096, 256));
             && s.Some? && s.value.1 == (if first == 257 then [] else [a, a])
             && S.DecodeFrom(f, S.Noted(S.GetCode(f, g.1, first, 12).1, 256, first), s.value.0, first, 12) == S.Out([], S.Eof)
    ensures S.DecodeFrom(f, S.Reader(12), START, first, 12) == S.Out(if first == 257 then [a] else [a, a, a], S.Eof)
  {
    hide S.GetCode, S.RdOk;
    var (g, s) := (S.GetCode(f, S.Reader(12), first, 12), DecStep(Dec([], a, a), first, 4096, 256));
    assert DecStep(START, first, 4096, a) == Some((Dec([], a, a), [a]));
    assert S.Noted(g.1, a, first) == g.1;
    assert S.DecodeFrom(f, g.1, Dec([], a, a), first, 12) == S.Out(s.value.1 + [], S.Eof);
    assert S.DecodeFrom(f, S.Reader(12), START, first, 12) == S.Out([a] + (s.value.1 + []), S.Eof);
  }

  lemma LastCode(f: seq<byte>, a: byte, first: nat, rd: S.Rd)
    requires |f| == 6 && (first == 256 || first == 257) && S.RdOk(rd, f, 12) && rd.pos == 6 && rd.roff == 18 && rd.size == 16
    ensures Pow2(12) == 4096 && DecValid(Dec([], a, a), first, 4096)
    ensures var s := DecStep(Dec([], a, a), first, 4096, 256);
            && s.Some? && s.value.1 == (if first == 257 then [] else [a, a])
            && S.DecodeFrom(f, S.Noted(rd, 256, first), s.value.0, first, 12) == S.Out([], S.Eof)
  {
    Pow2Values();
  }
}
