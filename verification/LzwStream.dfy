/**
 The .Z format end to end: `Compress` is what zwrite and zclose leave in the file, `Decompress` what
 zread delivers from it, and `RoundTrip` the law between them.
 */
module LzwStream {
  import opened Arithmetic
  import opened LzwCodes
  import opened LzwPacking

  const CHECK_GAP := 10000
  const BLOCK_MASK := 0x80
  const MAGIC: seq<byte> := [0x1f, 0x9d]

  // ----- writing -----

  /** The encoder's dictionary: the index of an entry, or -1. */
  function Find(table: seq<Entry>, e: Entry): (k: int)
    ensures -1 <= k < |table|
    ensures 0 <= k ==> table[k] == e
    ensures k == -1 ==> e !in table
  {
    if table == [] then -1
    else if table[|table| - 1] == e then |table| - 1
    else Find(table[..|table| - 1], e)
  }

  datatype Enc = Enc(maxbits: nat, table: seq<Entry>, ent: nat, pk: Packer,
                     inCount: nat, checkpoint: nat, ratio: nat)
  {
    function Free(): nat { FIRST + |table| }
  }

  ghost predicate EncOk(e: Enc) {
    && 9 <= e.maxbits <= BITS
    && e.Free() <= Pow2(e.maxbits)
    && PackerOk(e.pk, e.maxbits)
    && e.ent < e.Free()
  }

  /** The state after the header and the first byte. */
  function Begin(maxbits: nat, c: byte): (e: Enc)
    requires 9 <= maxbits <= BITS
    ensures EncOk(e) && e.maxbits == maxbits
  {
    StartLayOk(maxbits);
    Enc(maxbits, [], c,
        Packer(MAGIC + [maxbits + BLOCK_MASK], Zeros(), 0, INIT_BITS, Pow2(INIT_BITS) - 1, 3),
        1, CHECK_GAP, 0)
  }

  /** The compression ratio `cl_block` computes, with its two ways round overflow and zero. */
  function Rate(inCount: nat, bytesOut: nat): nat
    requires bytesOut > 0
  {
    if inCount > 0x007fffff then
      if bytesOut / 256 == 0 then 0x7fffffff else inCount / (bytesOut / 256)
    else inCount * 256 / bytesOut
  }

  /** The quotient without the division: what it is between, and when it exceeds the last one. */
  lemma RateMeans(inCount: nat, bytesOut: nat, ratio: nat)
    requires bytesOut > 0
    ensures var r := Rate(inCount, bytesOut);
            if inCount <= 0x7fffff then
              r * bytesOut <= 256 * inCount < (r + 1) * bytesOut && (r > ratio <==> (ratio + 1) * bytesOut <= 256 * inCount)
            else if bytesOut < 256 then r == 0x7fffffff
            else
              var q := bytesOut / 256;
              r * q <= inCount < (r + 1) * q && (r > ratio <==> (ratio + 1) * q <= inCount)
  {
    if inCount <= 0x7fffff {
      QuotientAbove(256 * inCount, bytesOut, ratio);
    } else if bytesOut >= 256 {
      QuotientAbove(inCount, bytesOut / 256, ratio);
    }
  }

  lemma QuotientAbove(n: nat, d: nat, ratio: nat)
    requires d > 0
    ensures n / d * d <= n < (n / d + 1) * d
    ensures n / d > ratio <==> (ratio + 1) * d <= n
  {
    var q := n / d;
    if q > ratio {
      assert (ratio + 1) * d <= q * d;
    } else {
      assert (q + 1) * d <= (ratio + 1) * d;
    }
  }

  /** Keep the dictionary while the ratio improves; otherwise drop it and say CLEAR. */
  function ClBlock(e: Enc): (r: Enc)
    requires EncOk(e) && e.ent < FIRST
    ensures EncOk(r) && r.maxbits == e.maxbits
  {
    StartLayOk(e.maxbits);
    var rat := Rate(e.inCount, e.pk.bytesOut);
    var e' := e.(checkpoint := e.inCount + CHECK_GAP);
    if rat > e.ratio then e'.(ratio := rat)
    else e'.(ratio := 0, table := [], pk := Output(e.pk, CLEAR, FIRST, true, e.maxbits))
  }

  /** One byte of input. */
  function Feed(e: Enc, c: byte): (r: Enc)
    requires EncOk(e)
    ensures EncOk(r) && r.maxbits == e.maxbits
  {
    var e' := e.(inCount := e.inCount + 1);
    var k := Find(e.table, Entry(e.ent, c));
    if k >= 0 then e'.(ent := FIRST + k)
    else
      var emitted := e'.(pk := Output(e.pk, e.ent, e.Free(), false, e.maxbits), ent := c);
      if e.Free() < Pow2(e.maxbits) then emitted.(table := e.table + [Entry(e.ent, c)])
      else if e'.inCount >= e.checkpoint then ClBlock(emitted)
      else emitted
  }

  function StateAfter(input: seq<byte>, maxbits: nat): (e: Enc)
    requires input != [] && 9 <= maxbits <= BITS
    ensures EncOk(e) && e.maxbits == maxbits
  {
    if |input| == 1 then Begin(maxbits, input[0])
    else Feed(StateAfter(input[..|input| - 1], maxbits), input[|input| - 1])
  }

  /** The last code and the rest of the buffer. */
  function Finish(e: Enc): seq<byte>
    requires EncOk(e)
  {
    CloseOut(Output(e.pk, e.ent, e.Free(), false, e.maxbits), e.maxbits)
  }

  function Compress(input: seq<byte>, maxbits: nat): seq<byte>
    requires 9 <= maxbits <= BITS
  {
    if input == [] then [] else Finish(StateAfter(input, maxbits))
  }

  // ----- reading -----

  /** How a stream ends: at its end, or with one of the errors zread reports. */
  datatype End = Eof | BadHeader | BadStream

  datatype Out = Out(bytes: seq<byte>, end: End)

  datatype Rd = Rd(pos: nat, gbuf: seq<byte>, roff: nat, size: int, nbits: nat, maxcode: nat, clear: bool)

  ghost predicate RdOk(rd: Rd, f: seq<byte>, mb: nat) {
    && |rd.gbuf| == BITS && WidthOk(rd.nbits, rd.maxcode, mb) && rd.nbits <= mb
    && rd.pos <= |f|
    && rd.size <= 7 * rd.nbits + 1
  }

  /** Read up to `n` bytes of the file over the start of the buffer, as fread does. */
  function Fill(gbuf: seq<byte>, f: seq<byte>, pos: nat, n: nat): (r: (seq<byte>, nat))
    requires |gbuf| == BITS && n <= BITS && pos <= |f|
    ensures |r.0| == BITS && pos + r.1 <= |f| && r.1 <= n
  {
    var got := if n <= |f| - pos then n else |f| - pos;
    (f[pos..pos + got] + gbuf[got..], got)
  }

  /** The width in force once a pending CLEAR or overflow has been noticed. */
  function NextWidth(rd: Rd, free: nat, mb: nat): (nat, nat) {
    if rd.clear then (INIT_BITS, Pow2(INIT_BITS) - 1)
    else if free > rd.maxcode then (rd.nbits + 1, NextMaxcode(rd.nbits + 1, mb))
    else (rd.nbits, rd.maxcode)
  }

  lemma NextWidthOk(rd: Rd, f: seq<byte>, free: nat, mb: nat)
    requires RdOk(rd, f, mb) && 12 <= mb && free <= Pow2(mb)
    ensures var w := NextWidth(rd, free, mb); WidthOk(w.0, w.1, mb) && w.0 <= mb
  {
    Pow2Values();
    WidthGrows(rd.nbits, rd.maxcode, free, mb);
  }

  /** The next code, or -1 at the end of the file. */
  function GetCode(f: seq<byte>, rd: Rd, free: nat, mb: nat): (r: (int, Rd))
    requires RdOk(rd, f, mb) && 12 <= mb && free <= Pow2(mb)
    ensures RdOk(r.1, f, mb) && -1 <= r.0 < Pow2(mb)
    ensures r.0 >= 0 ==> r.1.pos > rd.pos || (r.1.pos == rd.pos && r.1.size == rd.size && rd.roff < rd.size && r.1.roff > rd.roff)
  {
    if rd.clear || rd.roff >= rd.size || free > rd.maxcode then
      NextWidthOk(rd, f, free, mb);
      var w := NextWidth(rd, free, mb);
      var (gbuf, got) := Fill(rd.gbuf, f, rd.pos, w.0);
      var rd' := Rd(rd.pos + got, gbuf, rd.roff, got, w.0, w.1, false);
      if got == 0 then (-1 as int, rd')
      else
        GetBelow(gbuf, 0, w.0, mb);
        (GetAt(gbuf, 0, 0, w.0), rd'.(roff := w.0, size := 8 * got - (w.0 - 1)))
    else
      GetBelow(rd.gbuf, rd.roff, rd.nbits, mb);
      (GetAt(rd.gbuf, 0, rd.roff, rd.nbits), rd.(roff := rd.roff + rd.nbits))
  }

  lemma GetBelow(buf: seq<byte>, off: nat, n: nat, mb: nat)
    requires |buf| == BITS && 9 <= n <= BITS && off <= 7 * n && n <= mb
    ensures GetAt(buf, 0, off, n) < Pow2(mb)
  {
    var b, s := off / 8, off % 8;
    assert Pow2(8) == 256;
    ShrBelow(buf[b], s, 8 - s);
    if n + s > 16 {
      JoinBelow(Shr(buf[b], s), buf[b + 1], 8 - s, 8);
      JoinBelow(Shr(buf[b], s) + Shl(buf[b + 1], 8 - s), Low(buf[b + 2], n + s - 16), 16 - s, n + s - 16);
    } else {
      JoinBelow(Shr(buf[b], s), Low(buf[b + 1], n + s - 8), 8 - s, n + s - 8);
    }
    Pow2Monotone(n, mb);
  }

  /** A CLEAR makes the next read start over with a fresh block. */
  function Noted(rd: Rd, code: nat, first: nat): Rd {
    if code == CLEAR && first == FIRST then rd.(clear := true) else rd
  }

  /** All that the rest of the stream decodes to. */
  function DecodeFrom(f: seq<byte>, rd: Rd, d: Dec, first: nat, mb: nat): (r: Out)
    requires RdOk(rd, f, mb) && 12 <= mb && DecValid(d, first, Pow2(mb))
    decreases |f| - rd.pos, if rd.roff < rd.size then rd.size - rd.roff else 0
  {
    var (code, rd') := GetCode(f, rd, first + |d.table|, mb);
    if code < 0 then Out([], Eof)
    else
      var s := DecStep(d, first, Pow2(mb), code);
      if s.None? then Out([], BadStream)
      else
        var rest := DecodeFrom(f, Noted(rd', code, first), s.value.0, first, mb);
        Out(s.value.1 + rest.bytes, rest.end)
  }

  predicate GoodHeader(f: seq<byte>) {
    3 <= |f| && f[..2] == MAGIC && 12 <= f[2] % 32 <= BITS
  }

  function HeaderFirst(f: seq<byte>): nat
    requires GoodHeader(f)
  {
    if f[2] >= BLOCK_MASK then FIRST else 256
  }

  /** The reader after the header. */
  function Reader(mb: nat): Rd {
    Rd(3, Zeros(), 0, 0, INIT_BITS, Pow2(INIT_BITS) - 1, false)
  }

  lemma ReaderOk(f: seq<byte>)
    requires GoodHeader(f)
    ensures RdOk(Reader(f[2] % 32), f, f[2] % 32) && FIRST < Pow2(f[2] % 32)
  {
    Pow2Values();
    Pow2Monotone(9, f[2] % 32);
  }

  function Decompress(f: seq<byte>): Out {
    if !GoodHeader(f) then Out([], BadHeader)
    else
      ReaderOk(f);
      DecodeFrom(f, Reader(f[2] % 32), START, HeaderFirst(f), f[2] % 32)
  }

  // ----- the writer's invariant -----

  /** The codes are in the file, each in its place, and the encoder's counters say so. */
  ghost predicate FileSide(pk: Packer, free: nat, mb: nat, codes: seq<nat>) {
    && Packed(pk, codes, mb)
    && LayOf(codes, mb).free == free <= Pow2(mb)
    && 3 <= |pk.out| && pk.out[..3] == MAGIC + [mb + BLOCK_MASK]
  }

  /** A decoder that has seen the codes is in lockstep, and its output plus the pending text is the input. */
  ghost predicate TextSide(table: seq<Entry>, ent: nat, limit: nat, text: seq<byte>, codes: seq<nat>) {
    && FIRST <= limit && Below(codes, limit)
    && (codes != [] ==> codes[0] < 256)
    && var r := DecRun(FIRST, limit, codes);
      && r.Some? && Lockstep(table, ent, r.value.0, limit)
      && r.value.1 + Expand(table, FIRST, ent) == text
  }

  /** The encoder after reading `text`, having emitted `codes`. */
  ghost predicate Tracks(e: Enc, text: seq<byte>, codes: seq<nat>) {
    && EncOk(e)
    && FileSide(e.pk, e.Free(), e.maxbits, codes)
    && TextSide(e.table, e.ent, Pow2(e.maxbits), text, codes)
  }

  /** A code of the dictionary fits the width in force. */
  lemma CodeFits(pk: Packer, free: nat, mb: nat, codes: seq<nat>)
    requires FileSide(pk, free, mb, codes)
    ensures free <= Pow2(pk.nbits) && CLEAR < Pow2(pk.nbits)
  {
    LayOfOk(codes, mb);
    Pow2Values();
    Pow2Monotone(9, pk.nbits);
  }

  lemma OutputKeepsHeader(pk: Packer, code: nat, free: nat, clear: bool, mb: nat)
    requires PackerOk(pk, mb) && free <= Pow2(mb) && 3 <= |pk.out|
    ensures var r := Output(pk, code, free, clear, mb); 3 <= |r.out| && r.out[..3] == pk.out[..3]
  {
    NextOff(pk.off, pk.nbits);
    OutputFile(pk, code, free, clear, mb);
  }

  lemma EmitFileSide(pk: Packer, free: nat, mb: nat, codes: seq<nat>, code: nat)
    requires FileSide(pk, free, mb, codes) && code < free && code != CLEAR
    ensures FileSide(Output(pk, code, free, false, mb), if free < Pow2(mb) then free + 1 else free, mb, codes + [code])
  {
    hide Holds, Output;
    CodeFits(pk, free, mb, codes);
    OutputPacked(pk, codes, code, free, false, mb);
    OutputKeepsHeader(pk, code, free, false, mb);
    LayOfAppend(codes, code, mb);
  }

  lemma ClearFileSide(pk: Packer, free: nat, mb: nat, codes: seq<nat>)
    requires FileSide(pk, free, mb, codes) && FIRST <= Pow2(mb)
    ensures FileSide(Output(pk, CLEAR, FIRST, true, mb), FIRST, mb, codes + [CLEAR])
  {
    hide Holds, Output;
    CodeFits(pk, free, mb, codes);
    OutputPacked(pk, codes, CLEAR, FIRST, true, mb);
    OutputKeepsHeader(pk, CLEAR, FIRST, true, mb);
    LayOfAppend(codes, CLEAR, mb);
  }

  lemma DecRunAppend(limit: nat, codes: seq<nat>, code: nat)
    requires FIRST <= limit && Below(codes, limit) && code < limit
    ensures Below(codes + [code], limit)
    ensures var p := DecRun(FIRST, limit, codes);
            DecRun(FIRST, limit, codes + [code]) ==
            if p.None? then None
            else var q := DecStep(p.value.0, FIRST, limit, code);
              if q.None? then None else Some((q.value.0, p.value.1 + q.value.1))
  {
    assert (codes + [code])[..|codes|] == codes;
  }

  lemma EmitTextSide(table: seq<Entry>, ent: nat, limit: nat, text: seq<byte>, codes: seq<nat>, c: byte)
    requires TextSide(table, ent, limit, text, codes)
    ensures ent < FIRST + |table| && ent != CLEAR
    ensures TextSide(if FIRST + |table| < limit then table + [Entry(ent, c)] else table, c, limit, text + [c], codes + [ent])
  {
    var d := DecRun(FIRST, limit, codes).value.0;
    EmitDecodes(table, ent, d, limit);
    EmitKeepsLockstep(table, ent, d, limit, c);
    DecRunAppend(limit, codes, ent);
  }

  lemma ExtendTextSide(table: seq<Entry>, ent: nat, limit: nat, text: seq<byte>, codes: seq<nat>, c: byte, k: nat)
    requires TextSide(table, ent, limit, text, codes)
    requires k < |table| && table[k] == Entry(ent, c)
    ensures TextSide(table, FIRST + k, limit, text + [c], codes)
  {
    var r := DecRun(FIRST, limit, codes).value;
    ExtendKeepsLockstep(table, ent, r.0, limit, c, k);
    assert r.1 + (Expand(table, FIRST, ent) + [c]) == text + [c];
  }

  lemma ClearTextSide(table: seq<Entry>, c: byte, limit: nat, text: seq<byte>, codes: seq<nat>)
    requires TextSide(table, c, limit, text, codes) && codes != []
    ensures TextSide([], c, limit, text, codes + [CLEAR])
  {
    var r := DecRun(FIRST, limit, codes).value;
    ClearKeepsLockstep(r.0, limit, c);
    DecRunAppend(limit, codes, CLEAR);
    assert r.1 + [] == r.1;
  }

  lemma BeginTracks(maxbits: nat, c: byte)
    requires 9 <= maxbits <= BITS
    ensures Tracks(Begin(maxbits, c), [c], [])
  {
    StartLayOk(maxbits);
    assert [] + [c] == [c];
  }

  /** One byte of input keeps the encoder on track, whatever `cl_block` decides. */
  lemma FeedTracks(e: Enc, text: seq<byte>, codes: seq<nat>, c: byte) returns (codes': seq<nat>)
    requires Tracks(e, text, codes)
    ensures Tracks(Feed(e, c), text + [c], codes')
  {
    hide Packed, Output, DecRun, Lockstep, LayOf, ClBlock;
    var limit := Pow2(e.maxbits);
    var k := Find(e.table, Entry(e.ent, c));
    if k >= 0 {
      ExtendTextSide(e.table, e.ent, limit, text, codes, c, k);
      codes' := codes;
    } else {
      EmitTextSide(e.table, e.ent, limit, text, codes, c);
      EmitFileSide(e.pk, e.Free(), e.maxbits, codes, e.ent);
      codes' := codes + [e.ent];
      var emitted := e.(inCount := e.inCount + 1, pk := Output(e.pk, e.ent, e.Free(), false, e.maxbits), ent := c);
      if e.Free() >= limit && emitted.inCount >= e.checkpoint {
        codes' := ClBlockTracks(emitted, text + [c], codes');
      }
    }
  }

  lemma ClBlockTracks(e: Enc, text: seq<byte>, codes: seq<nat>) returns (codes': seq<nat>)
    requires Tracks(e, text, codes) && e.ent < 256 && codes != []
    ensures Tracks(ClBlock(e), text, codes')
    ensures codes' ==
            if (if e.inCount <= 0x7fffff then (e.ratio + 1) * e.pk.bytesOut <= 256 * e.inCount
                else if e.pk.bytesOut < 256 then e.ratio < 0x7fffffff
                else (e.ratio + 1) * (e.pk.bytesOut / 256) <= e.inCount)
            then codes
            else codes + [256]
  {
    RateMeans(e.inCount, e.pk.bytesOut, e.ratio);
    hide Rate;
    if Rate(e.inCount, e.pk.bytesOut) > e.ratio {
      codes' := codes;
    } else {
      codes' := codes + [CLEAR];
      ClearFileSide(e.pk, e.Free(), e.maxbits, codes);
      ClearTextSide(e.table, e.ent, Pow2(e.maxbits), text, codes);
    }
  }

  lemma {:induction false} StateTracks(input: seq<byte>, maxbits: nat) returns (codes: seq<nat>)
    requires input != [] && 9 <= maxbits <= BITS
    ensures Tracks(StateAfter(input, maxbits), input, codes)
  {
    hide Tracks, Feed, Begin, EncOk;
    if |input| == 1 {
      BeginTracks(maxbits, input[0]);
      codes := [];
      assert input == [input[0]];
    } else {
      codes := StateTracks(input[..|input| - 1], maxbits);
      codes := FeedTracks(StateAfter(input[..|input| - 1], maxbits), input[..|input| - 1], codes, input[|input| - 1]);
      assert input == input[..|input| - 1] + [input[|input| - 1]];
    }
  }

  // ----- the reader, one code behind -----

  /** The file ends with the byte of its last code. */
  ghost predicate WholeFile(f: seq<byte>, codes: seq<nat>, mb: nat) {
    && 12 <= mb <= BITS && codes != []
    && Holds(f, codes, mb)
    && |f| == LayOf(codes, mb).base + (LayOf(codes, mb).Off() + 7) / 8
  }

  /** The reader between code `l` and the next: it still holds the width and the block of `l`. */
  ghost predicate Behind(f: seq<byte>, l: Lay, code: nat, rd: Rd, free: nat) {
    && |rd.gbuf| == BITS && l.nbits <= BITS
    && rd.nbits == l.nbits && rd.maxcode == l.maxcode
    && rd.roff == l.Off() + l.nbits
    && rd.clear == (code == CLEAR)
    && l.base <= rd.pos <= |f| && rd.pos == (if l.base + l.nbits <= |f| then l.base + l.nbits else |f|)
    && rd.gbuf[..rd.pos - l.base] == f[l.base..rd.pos]
    && rd.size == 8 * (rd.pos - l.base) - (l.nbits - 1)
    && free == if code == CLEAR then FIRST else l.free
  }

  /** The reader about to read code `i`; `free` is its own next free code. */
  ghost predicate ReadsAt(f: seq<byte>, codes: seq<nat>, i: nat, rd: Rd, free: nat, mb: nat)
    requires i <= |codes|
  {
    if i == 0 then rd == Reader(mb) && free == FIRST
    else Behind(f, LayOf(codes[..i - 1], mb), codes[i - 1], rd, free)
  }

  lemma ReaderAtOk(f: seq<byte>, codes: seq<nat>, i: nat, rd: Rd, free: nat, mb: nat)
    requires 12 <= mb <= BITS && i <= |codes| && 3 <= |f| && ReadsAt(f, codes, i, rd, free, mb)
    ensures RdOk(rd, f, mb) && free <= Pow2(mb)
  {
    Pow2Values();
    StartLayOk(mb);
    if i > 0 {
      LayOfOk(codes[..i - 1], mb);
    }
  }

  /** A code read from the buffer is the code read from the block it was filled from. */
  lemma BlockCopy(f: seq<byte>, base: nat, pos: nat, gbuf: seq<byte>, off: nat, n: nat)
    requires |gbuf| == BITS && base <= pos <= |f| && pos - base <= BITS && gbuf[..pos - base] == f[base..pos]
    requires 9 <= n <= BITS && base + (off + n + 7) / 8 <= pos
    ensures GetAt(gbuf, 0, off, n) == GetAt(f, base, off, n)
  {
    var k := (off + n + 7) / 8;
    assert gbuf[0..0 + k] == gbuf[..pos - base][..k];
    assert f[base..base + k] == f[base..pos][..k];
    GetAtFrame(f, base, gbuf, 0, off, n);
  }

  /** Reading on in the block at hand. */
  lemma SameBlockRead(f: seq<byte>, l: Lay, prev: nat, m: Lay, code: nat, rd: Rd, free: nat, mb: nat)
    requires 12 <= mb <= BITS && RdOk(rd, f, mb) && free <= Pow2(mb) && LayOk(l, mb)
    requires Behind(f, l, prev, rd, free) && m == LayStep(l, prev, mb) && m.slot > 0
    requires HoldsAt(f, m, code)
    ensures var r := GetCode(f, rd, free, mb);
            r.0 == code && !r.1.clear && Behind(f, m, code, Noted(r.1, code, FIRST), if code == CLEAR then FIRST else m.free)
  {
    hide GetAt, Pow2;
    SlotOff(l.slot, l.nbits);
    BytesOfSlot(m);
    BlockCopy(f, l.base, rd.pos, rd.gbuf, m.Off(), m.nbits);
  }

  /** Reading the first code of a new block. */
  lemma NewBlockRead(f: seq<byte>, m: Lay, code: nat, rd: Rd, free: nat, mb: nat)
    requires 12 <= mb <= BITS && RdOk(rd, f, mb) && free <= Pow2(mb) && 9 <= m.nbits <= BITS
    requires rd.clear || rd.roff >= rd.size || free > rd.maxcode
    requires NextWidth(rd, free, mb) == (m.nbits, m.maxcode) && m.slot == 0
    requires rd.pos == m.base && HoldsAt(f, m, code)
    ensures var r := GetCode(f, rd, free, mb);
            r.0 == code && !r.1.clear && Behind(f, m, code, Noted(r.1, code, FIRST), if code == CLEAR then FIRST else m.free)
  {
    hide GetAt, Pow2, NextWidth;
    var (gbuf, got) := Fill(rd.gbuf, f, rd.pos, m.nbits);
    assert gbuf[..got] == f[m.base..m.base + got];
    BlockCopy(f, m.base, m.base + got, gbuf, 0, m.nbits);
  }

  /** When the layout starts a new block, the reader notices, and agrees on its place and width. */
  lemma NoticesNewBlock(f: seq<byte>, l: Lay, prev: nat, m: Lay, rd: Rd, free: nat, mb: nat)
    requires 12 <= mb <= BITS && RdOk(rd, f, mb) && free <= Pow2(mb) && LayOk(l, mb)
    requires Behind(f, l, prev, rd, free) && m == LayStep(l, prev, mb) && m.slot == 0 && m.base <= |f|
    ensures rd.clear || rd.roff >= rd.size || free > rd.maxcode
    ensures NextWidth(rd, free, mb) == (m.nbits, m.maxcode)
    ensures rd.pos == m.base
  {
    SlotOff(l.slot, l.nbits);
  }

  lemma CodeHeld(f: seq<byte>, codes: seq<nat>, i: nat, mb: nat)
    requires Holds(f, codes, mb) && i < |codes|
    ensures HoldsAt(f, LayOf(codes[..i], mb), codes[i])
  {
  }

  /** The next code of the list is the next code read, and the reader is again one behind. */
  lemma ReadsCode(f: seq<byte>, codes: seq<nat>, i: nat, rd: Rd, free: nat, mb: nat)
    requires WholeFile(f, codes, mb) && i < |codes| && ReadsAt(f, codes, i, rd, free, mb)
    ensures 3 <= |f| && RdOk(rd, f, mb) && free <= Pow2(mb)
    ensures var r := GetCode(f, rd, free, mb);
            r.0 == codes[i]
            && ReadsAt(f, codes, i + 1, Noted(r.1, codes[i], FIRST),
                       if codes[i] == CLEAR then FIRST else LayOf(codes[..i], mb).free, mb)
  {
    hide Holds, Behind, GetCode, HoldsAt, LayOk, RdOk, Pow2;
    var m := LayOf(codes[..i], mb);
    LayOfOk(codes, mb);
    LayOfOk(codes[..i], mb);
    ReaderAtOk(f, codes, i, rd, free, mb);
    CodeHeld(f, codes, i, mb);
    HeldInside(f, m, codes[i]);
    assert codes[..i + 1][..i] == codes[..i];
    if i == 0 {
      assert codes[..0] == [];
      Pow2Values();
      NewBlockRead(f, m, codes[i], rd, free, mb);
    } else {
      assert codes[..i][..i - 1] == codes[..i - 1];
      LayOfOk(codes[..i - 1], mb);
      var l := LayOf(codes[..i - 1], mb);
      if m.slot > 0 {
        SameBlockRead(f, l, codes[i - 1], m, codes[i], rd, free, mb);
      } else {
        NoticesNewBlock(f, l, codes[i - 1], m, rd, free, mb);
        NewBlockRead(f, m, codes[i], rd, free, mb);
      }
    }
  }

  lemma HeldInside(f: seq<byte>, m: Lay, code: nat)
    requires HoldsAt(f, m, code)
    ensures 9 <= m.nbits <= BITS && m.base <= |f|
  {
  }

  /** After the last code the reader sees the end of the file. */
  lemma ReadsEnd(f: seq<byte>, codes: seq<nat>, rd: Rd, free: nat, mb: nat)
    requires WholeFile(f, codes, mb) && ReadsAt(f, codes, |codes|, rd, free, mb)
    ensures 3 <= |f| && RdOk(rd, f, mb) && free <= Pow2(mb)
    ensures GetCode(f, rd, free, mb).0 == -1
  {
    var n := |codes| - 1;
    var l, m := LayOf(codes[..n], mb), LayOf(codes, mb);
    LayOfOk(codes[..n], mb);
    LayOfOk(codes, mb);
    ReaderAtOk(f, codes, |codes|, rd, free, mb);
    EndOfFile(f, l, codes[n], m, rd, free, mb);
  }

  lemma EndOfFile(f: seq<byte>, l: Lay, prev: nat, m: Lay, rd: Rd, free: nat, mb: nat)
    requires 12 <= mb <= BITS && RdOk(rd, f, mb) && free <= Pow2(mb) && LayOk(l, mb) && LayOk(m, mb)
    requires Behind(f, l, prev, rd, free) && m == LayStep(l, prev, mb)
    requires |f| == m.base + (m.Off() + 7) / 8
    ensures GetCode(f, rd, free, mb).0 == -1
  {
    hide GetAt, Pow2;
    SlotOff(l.slot, l.nbits);
    SlotOff(m.slot, m.nbits);
    NextWidthOk(rd, f, free, mb);
    if m.slot == 0 {
      NoticesNewBlock(f, l, prev, m, rd, free, mb);
    }
    assert rd.pos == |f|;
    assert rd.clear || rd.roff >= rd.size || free > rd.maxcode;
  }

  // ----- the round trip -----

  /** How the decoder's table grows, in terms of its own state. */
  lemma StepSize(d: Dec, limit: nat, code: nat)
    requires DecValid(d, FIRST, limit) && code < limit
    ensures var s := DecStep(d, FIRST, limit, code);
            s.Some? ==>
              && (s.value.0.prev == -1 <==> code == CLEAR)
              && FIRST + |s.value.0.table| ==
                 if code == CLEAR || d.prev == -1 then FIRST
                 else if FIRST + |d.table| < limit then FIRST + |d.table| + 1 else FIRST + |d.table|
  {
  }

  /** The decoder's next free code before code `i` is the encoder's at its width check after code `i - 1`. */
  lemma {:induction false} FreeInStep(codes: seq<nat>, i: nat, mb: nat)
    requires 9 <= mb <= BITS && i <= |codes| && Below(codes, Pow2(mb)) && FIRST <= Pow2(mb)
    requires DecRun(FIRST, Pow2(mb), codes[..i]).Some?
    ensures var d := DecRun(FIRST, Pow2(mb), codes[..i]).value.0;
            && (d.prev == -1 <==> i == 0 || codes[i - 1] == CLEAR)
            && FIRST + |d.table| == if i == 0 || codes[i - 1] == CLEAR then FIRST else LayOf(codes[..i - 1], mb).free
  {
    if i > 0 {
      assert codes[..i][..i - 1] == codes[..i - 1];
      FreeInStep(codes, i - 1, mb);
      StepSize(DecRun(FIRST, Pow2(mb), codes[..i - 1]).value.0, Pow2(mb), codes[i - 1]);
      if i > 1 {
        assert codes[..i - 1][..i - 2] == codes[..i - 2];
      }
      LayOfOk(codes[..i - 1], mb);
    }
  }

  /** The text written by the first `i` codes. */
  ghost function TextOf(codes: seq<nat>, i: nat, limit: nat): seq<byte>
    requires FIRST <= limit && Below(codes, limit) && i <= |codes| && DecRun(FIRST, limit, codes[..i]).Some?
  {
    DecRun(FIRST, limit, codes[..i]).value.1
  }

  /** A run over the whole list passes through every prefix of it. */
  lemma {:induction false} RunPrefix(codes: seq<nat>, i: nat, limit: nat)
    requires FIRST <= limit && Below(codes, limit) && i <= |codes| && DecRun(FIRST, limit, codes).Some?
    ensures DecRun(FIRST, limit, codes[..i]).Some?
    decreases |codes| - i
  {
    if i < |codes| {
      RunPrefix(codes, i + 1, limit);
      assert codes[..i + 1][..i] == codes[..i];
    } else {
      assert codes[..i] == codes;
    }
  }

  lemma RunStep(codes: seq<nat>, i: nat, limit: nat)
    requires FIRST <= limit && Below(codes, limit) && i < |codes| && DecRun(FIRST, limit, codes).Some?
    ensures DecRun(FIRST, limit, codes[..i]).Some? && DecRun(FIRST, limit, codes[..i + 1]).Some?
    ensures var p, q := DecRun(FIRST, limit, codes[..i]).value, DecRun(FIRST, limit, codes[..i + 1]).value;
            var s := DecStep(p.0, FIRST, limit, codes[i]);
            s.Some? && q == (s.value.0, p.1 + s.value.1)
  {
    RunPrefix(codes, i, limit);
    RunPrefix(codes, i + 1, limit);
    assert codes[..i + 1][..i] == codes[..i];
  }

  /** From code `i` on, the reader delivers what a decoder over the list of codes would still write. */
  lemma {:induction false} DecodesRest(f: seq<byte>, codes: seq<nat>, i: nat, rd: Rd, d: Dec, mb: nat)
    requires 12 <= mb <= BITS && WholeFile(f, codes, mb) && Below(codes, Pow2(mb)) && FIRST <= Pow2(mb) && 3 <= |f|
    requires DecRun(FIRST, Pow2(mb), codes).Some? && i <= |codes|
    requires DecRun(FIRST, Pow2(mb), codes[..i]).Some? && d == DecRun(FIRST, Pow2(mb), codes[..i]).value.0
    requires RdOk(rd, f, mb) && ReadsAt(f, codes, i, rd, FIRST + |d.table|, mb)
    ensures var o := DecodeFrom(f, rd, d, FIRST, mb);
            o.end == Eof && TextOf(codes, i, Pow2(mb)) + o.bytes == DecRun(FIRST, Pow2(mb), codes).value.1
    decreases |codes| - i
  {
    hide WholeFile, Below, DecStep, ReadsAt, GetCode, Pow2, DecRun, Lockstep, DecValid;
    var limit := Pow2(mb);
    var free := FIRST + |d.table|;
    if i == |codes| {
      assert codes[..i] == codes;
      ReadsEnd(f, codes, rd, free, mb);
    } else {
      ReadsCode(f, codes, i, rd, free, mb);
      RunStep(codes, i, limit);
      FreeInStep(codes, i + 1, mb);
      var (code, rd') := GetCode(f, rd, free, mb);
      var s := DecStep(d, FIRST, limit, codes[i]);
      assert codes[..i + 1][..i] == codes[..i];
      var rest := DecodeFrom(f, Noted(rd', code, FIRST), s.value.0, FIRST, mb);
      DecodesRest(f, codes, i + 1, Noted(rd', code, FIRST), s.value.0, mb);
      var head := TextOf(codes, i, limit);
      assert head + (s.value.1 + rest.bytes) == head + s.value.1 + rest.bytes;
    }
  }

  /** The header survives, with the mask bit taken off again. */
  lemma HeaderBack(f: seq<byte>, mb: nat)
    requires 9 <= mb <= BITS && 3 <= |f| && f[..3] == MAGIC + [mb + BLOCK_MASK]
    ensures f[2] % 32 == mb && f[2] >= BLOCK_MASK && f[..2] == MAGIC
  {
    assert f[2] == f[..3][2];
    assert f[..2] == f[..3][..2];
  }

  lemma FinishText(table: seq<Entry>, ent: nat, limit: nat, text: seq<byte>, codes: seq<nat>)
    requires TextSide(table, ent, limit, text, codes)
    ensures ent < limit && ent < FIRST + |table| && ent != CLEAR && Below(codes + [ent], limit)
    ensures (codes + [ent])[0] < 256
    ensures var r := DecRun(FIRST, limit, codes + [ent]); r.Some? && r.value.1 == text
  {
    EmitDecodes(table, ent, DecRun(FIRST, limit, codes).value.0, limit);
    DecRunAppend(limit, codes, ent);
  }

  lemma CloseKeepsHeader(pk: Packer, mb: nat)
    requires PackerOk(pk, mb) && 3 <= |pk.out|
    ensures 3 <= |CloseOut(pk, mb)| && CloseOut(pk, mb)[..3] == pk.out[..3]
  {
  }

  /** What zclose leaves in the file: a whole list of codes that decodes to the input. */
  lemma FileOf(input: seq<byte>, mb: nat) returns (codes: seq<nat>)
    requires input != [] && 9 <= mb <= BITS
    ensures var f := Compress(input, mb);
            3 <= |f| && f[..3] == MAGIC + [mb + BLOCK_MASK]
            && Holds(f, codes, mb) && codes != []
            && |f| == LayOf(codes, mb).base + (LayOf(codes, mb).Off() + 7) / 8
    ensures FIRST <= Pow2(mb) && Below(codes, Pow2(mb)) && codes[0] < 256
    ensures var r := DecRun(FIRST, Pow2(mb), codes); r.Some? && r.value.1 == input
  {
    hide Packed, Output, CloseOut, StateAfter, Holds, DecRun, Lockstep;
    var before := StateTracks(input, mb);
    var e := StateAfter(input, mb);
    codes := before + [e.ent];
    FinishText(e.table, e.ent, Pow2(mb), input, before);
    EmitFileSide(e.pk, e.Free(), mb, before, e.ent);
    var pk := Output(e.pk, e.ent, e.Free(), false, mb);
    CloseHolds(pk, codes, mb);
    CloseKeepsHeader(pk, mb);
  }

  /** Every file the writer makes of a non-empty input reads back, when the reader accepts its width. */
  lemma DecodesBack(input: seq<byte>, mb: nat)
    requires input != [] && 12 <= mb <= BITS
    ensures Decompress(Compress(input, mb)) == Out(input, Eof)
  {
    hide Compress, DecodeFrom, Holds, DecRun;
    var codes := FileOf(input, mb);
    var f := Compress(input, mb);
    HeaderBack(f, mb);
    ReaderOk(f);
    assert codes[..0] == [];
    assert DecRun(FIRST, Pow2(mb), []) == Some((START, [])) by { EmptyRun(Pow2(mb)); }
    DecodesRest(f, codes, 0, Reader(mb), START, mb);
    var o := DecodeFrom(f, Reader(mb), START, FIRST, mb);
    assert [] + o.bytes == o.bytes;
  }

  lemma EmptyRun(limit: nat)
    requires FIRST <= limit
    ensures DecRun(FIRST, limit, []) == Some((START, []))
  {
  }

  /**
   compress(1) offers widths 9 to 16 for any input; reading back gives the input exactly when there
   is one and the width is at least 12, the least the reader accepts.
   */
  lemma RoundTrip(input: seq<byte>, mb: nat)
    requires 9 <= mb <= BITS
    ensures Decompress(Compress(input, mb)) == Out(input, Eof) <==> input != [] && 12 <= mb
  {
    hide DecodeFrom, StateAfter, Finish;
    if input != [] {
      if 12 <= mb {
        DecodesBack(input, mb);
      } else {
        var codes := FileOf(input, mb);
        HeaderBack(Compress(input, mb), mb);
      }
    }
  }
}
